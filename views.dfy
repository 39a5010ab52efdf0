/**
 * The computations the pages perform on catalog and user data: quiz
 * scoring, the rounded percentage, the dashboard's recent-quiz list and
 * lesson counts, and the cycling vocabulary card.
 */
module Views {

  import opened Wrappers
  import opened Catalog
  import opened Records

  // ---------------------------------------------------------------- quiz score

  /** The option chosen for question `i`; `None` when no radio button is checked. */
  function Selected(selected: seq<Option<int>>, i: nat): Option<int>
  {
    if i < |selected| then selected[i] else None
  }

  /** Question `i` scores when its checked option's index equals the answer index `a`. */
  predicate Correct(questions: seq<Question>, selected: seq<Option<int>>, i: nat)
    requires i < |questions|
  {
    Selected(selected, i) == Some(questions[i].a)
  }

  /** The questions answered correctly, as a set of positions. */
  ghost function CorrectSet(questions: seq<Question>, selected: seq<Option<int>>): set<nat>
  {
    set i: nat | i < |questions| && Correct(questions, selected, i)
  }

  /** The number of correctly answered questions among the first `n`. */
  function CountCorrect(questions: seq<Question>, selected: seq<Option<int>>, n: nat): nat
    requires n <= |questions|
  {
    if n == 0 then 0
    else CountCorrect(questions, selected, n - 1) + (if Correct(questions, selected, n - 1) then 1 else 0)
  }

  /** The running count is the size of the set of correct positions it has passed. */
  lemma {:induction false} CountCorrectIsSetSize(questions: seq<Question>, selected: seq<Option<int>>, n: nat)
    requires n <= |questions|
    ensures CountCorrect(questions, selected, n)
            == |set i: nat | i < n && Correct(questions, selected, i)|
  {
    if n > 0 {
      CountCorrectIsSetSize(questions, selected, n - 1);
      var before := set i: nat | i < n - 1 && Correct(questions, selected, i);
      var after := set i: nat | i < n && Correct(questions, selected, i);
      if Correct(questions, selected, n - 1) {
        assert after == before + {n - 1};
      } else {
        assert after == before;
      }
    }
  }

  /**
   * The submit handler's `forEach` loop: one point per question whose checked
   * option is the right one; an unanswered question scores nothing.
   */
  method Score(questions: seq<Question>, selected: seq<Option<int>>) returns (score: nat)
    ensures score == |CorrectSet(questions, selected)|
    ensures score <= |questions|
    ensures (forall i :: 0 <= i < |questions| ==> Correct(questions, selected, i)) ==> score == |questions|
    ensures (forall i :: 0 <= i < |questions| ==> Selected(selected, i).None?) ==> score == 0
  {
    score := 0;
    var i := 0;
    while i < |questions|
      invariant 0 <= i <= |questions|
      invariant score == CountCorrect(questions, selected, i)
      invariant score <= i
      invariant (forall k :: 0 <= k < |questions| ==> Correct(questions, selected, k)) ==> score == i
      invariant (forall k :: 0 <= k < |questions| ==> Selected(selected, k).None?) ==> score == 0
    {
      var sel := if i < |selected| then selected[i] else None;
      if sel.Some? && sel.value == questions[i].a {
        score := score + 1;
      }
      i := i + 1;
    }
    CountCorrectIsSetSize(questions, selected, |questions|);
    assert CorrectSet(questions, selected)
           == set k: nat | k < |questions| && Correct(questions, selected, k);
  }

  // ---------------------------------------------------------------- percentages

  /**
   * `Math.round(part / whole * 100)` on exact rationals: the whole number
   * nearest to the percentage, halves rounded up. `None` for a zero
   * `whole`: NaN when `part` is 0, Infinity when `part` is positive; only the
   * NaN case arises in the pages.
   */
  function RoundedPercent(part: nat, whole: nat): (r: Option<int>)
    ensures r.Some? <==> whole > 0
    ensures r.Some? ==> 2 * whole * r.value <= 200 * part + whole < 2 * whole * (r.value + 1)
    ensures r.Some? ==> 0 <= r.value
    ensures r.Some? && part <= whole ==> r.value <= 100
  {
    if whole == 0 then None
    else
      var p := (200 * part + whole) / (2 * whole);
      assert part <= whole ==> 200 * part + whole < 2 * whole * 101;
      Some(p)
  }

  lemma RoundedPercentExtremes(whole: nat)
    requires whole > 0
    ensures RoundedPercent(0, whole) == Some(0)
    ensures RoundedPercent(whole, whole) == Some(100)
  {
    assert 2 * whole * 100 <= 200 * whole + whole < 2 * whole * 101;
  }

  // ---------------------------------------------------------------- recent quizzes

  function Reverse<T>(s: seq<T>): (r: seq<T>)
    ensures |r| == |s|
    ensures forall k :: 0 <= k < |s| ==> r[k] == s[|s| - 1 - k]
  {
    if s == [] then [] else Reverse(s[1..]) + [s[0]]
  }

  /** `slice(-3).reverse()`: the last three attempts (or all of fewer), newest first. */
  function RecentQuizzes(qs: seq<QuizRecord>): (r: seq<QuizRecord>)
    ensures |r| == if |qs| < 3 then |qs| else 3
    ensures forall k :: 0 <= k < |r| ==> r[k] == qs[|qs| - 1 - k]
  {
    Reverse(qs[|qs| - (if |qs| < 3 then |qs| else 3)..])
  }

  /** After an attempt is saved, it heads the dashboard list and the older entries follow it. */
  lemma RecentAfterSave(qs: seq<QuizRecord>, q: QuizRecord)
    ensures RecentQuizzes(qs + [q])[0] == q
    ensures RecentQuizzes(qs + [q])[1..] == RecentQuizzes(qs)[..if |qs| < 2 then |qs| else 2]
  {
    var r := RecentQuizzes(qs + [q]);
    var r0 := RecentQuizzes(qs);
    assert |r[1..]| == |r0[..if |qs| < 2 then |qs| else 2]|;
    forall k | 0 <= k < |r| - 1
      ensures r[1..][k] == r0[k]
    {
      assert r[k + 1] == (qs + [q])[|qs| - 1 - k];
    }
  }

  // ---------------------------------------------------------------- lesson counts

  /** `done`: how many lesson ids the user has recorded for the course. */
  function Done(u: UserRecord, courseId: string): nat
  {
    |Completed(u, courseId)|
  }

  /** `total`: how many lessons the course has. */
  function Total(c: Course): nat
  {
    |c.lessons|
  }

  /** The ids of a course's lessons; there are at most as many as lessons. */
  function LessonIdSet(ls: seq<Lesson>): (ids: set<string>)
    ensures |ids| <= |ls|
    ensures forall i :: 0 <= i < |ls| ==> ls[i].id in ids
    ensures forall l :: l in ids ==> exists i :: 0 <= i < |ls| && ls[i].id == l
  {
    if ls == [] then {}
    else
      var rest := LessonIdSet(ls[1..]);
      assert forall l :: l in rest ==> exists i :: 0 <= i < |ls| && ls[i].id == l by {
        forall l | l in rest ensures exists i :: 0 <= i < |ls| && ls[i].id == l {
          var i :| 0 <= i < |ls| - 1 && ls[1..][i].id == l;
          assert ls[i + 1].id == l;
        }
      }
      rest + {ls[0].id}
  }

  function Elements(xs: seq<string>): set<string>
  {
    set x | x in xs
  }

  lemma {:induction false} ElementsNoDup(xs: seq<string>)
    requires NoDup(xs)
    ensures |Elements(xs)| == |xs|
  {
    if xs != [] {
      assert NoDup(xs[1..]);
      ElementsNoDup(xs[1..]);
      assert Elements(xs) == Elements(xs[1..]) + {xs[0]};
      assert xs[0] !in Elements(xs[1..]);
    }
  }

  lemma {:induction false} SubsetSize(a: set<string>, b: set<string>)
    requires a <= b
    ensures |a| <= |b|
    decreases |a|
  {
    if a != {} {
      var x :| x in a;
      SubsetSize(a - {x}, b - {x});
    }
  }

  /**
   * When every recorded lesson id belongs to the course and none repeats,
   * the dashboard never reports more lessons done than the course has.
   */
  lemma DoneAtMostTotal(u: UserRecord, c: Course)
    requires NoDup(Completed(u, c.id))
    requires forall l :: l in Completed(u, c.id) ==> l in LessonIdSet(c.lessons)
    ensures Done(u, c.id) <= Total(c)
  {
    ElementsNoDup(Completed(u, c.id));
    SubsetSize(Elements(Completed(u, c.id)), LessonIdSet(c.lessons));
  }

  /** `markLessonComplete` never checks the lesson: a foreign id still raises `done`. */
  lemma UncheckedLessonRaisesDone(u: UserRecord, c: Course, lessonId: string)
    requires lessonId !in Completed(u, c.id)
    requires lessonId !in LessonIdSet(c.lessons)
    ensures Done(CompleteLesson(u, c.id, lessonId), c.id) == Done(u, c.id) + 1
  {
  }

  /** Completing a lesson raises `done` for its course by one the first time, by nothing later. */
  lemma CompleteLessonDone(u: UserRecord, courseId: string, lessonId: string, other: string)
    requires other != courseId
    ensures Done(CompleteLesson(u, courseId, lessonId), courseId)
            == Done(u, courseId) + (if lessonId in Completed(u, courseId) then 0 else 1)
    ensures Done(CompleteLesson(u, courseId, lessonId), other) == Done(u, other)
  {
  }

  /** A new account that completes "s1-l1" sees 1 of 2 Spanish lessons done, 50 percent. */
  lemma FirstSpanishLesson(password: string)
    ensures GetCourseById("spanish-basic").Some?
    ensures Done(CompleteLesson(NewUser(password), "spanish-basic", "s1-l1"), "spanish-basic") == 1
    ensures Total(GetCourseById("spanish-basic").value) == 2
    ensures RoundedPercent(1, 2) == Some(50)
  {
    CatalogLookups();
    var u := CompleteLesson(NewUser(password), "spanish-basic", "s1-l1");
    assert Completed(NewUser(password), "spanish-basic") == [];
    assert Completed(u, "spanish-basic") == ["s1-l1"];
    assert RoundedPercent(1, 2).value == 202 / 4;
  }

  // ---------------------------------------------------------------- vocabulary card

  /** `stack[idx % stack.length]`; `None` for an empty list, where the page reads `undefined`. */
  function VocabCard(stack: seq<VocabEntry>, idx: nat): (r: Option<VocabEntry>)
    ensures r.Some? <==> |stack| > 0
    ensures r.Some? ==> r.value in stack
  {
    if |stack| == 0 then None else Some(stack[idx % |stack|])
  }

  /** The first card shown is the first entry. */
  lemma VocabStartsAtFirst(stack: seq<VocabEntry>)
    requires |stack| > 0
    ensures VocabCard(stack, 0) == Some(stack[0])
  {
  }

  /** Euclidean division is unique: `q * n + r` with `0 <= r < n` has quotient `q`, remainder `r`. */
  lemma DivModUnique(x: int, n: int, q: int, r: int)
    requires n > 0 && 0 <= r < n && x == q * n + r
    ensures x / n == q && x % n == r
  {
    var d := q - x / n;
    assert d * n == x % n - r;
    if d > 0 {
      assert false;
    } else if d < 0 {
      assert false;
    }
  }

  /** "Next" steps to the following entry and wraps from the last back to the first. */
  lemma VocabNext(stack: seq<VocabEntry>, idx: nat)
    requires |stack| > 0
    ensures VocabCard(stack, idx + 1) ==
            if idx % |stack| == |stack| - 1 then Some(stack[0]) else Some(stack[idx % |stack| + 1])
  {
    var n := |stack|;
    var q := idx / n;
    var m := idx % n;
    if m == n - 1 {
      DivModUnique(idx + 1, n, q + 1, 0);
    } else {
      DivModUnique(idx + 1, n, q, m + 1);
    }
  }

  /** Each entry comes back after exactly one round of `stack.length` presses. */
  lemma VocabPeriodic(stack: seq<VocabEntry>, idx: nat)
    ensures VocabCard(stack, idx + |stack|) == VocabCard(stack, idx)
  {
    if |stack| > 0 {
      var n := |stack|;
      DivModUnique(idx + n, n, idx / n + 1, idx % n);
    }
  }

  /** From any position, every entry is shown within one round of presses. */
  lemma VocabCovers(stack: seq<VocabEntry>, idx: nat, j: nat)
    requires j < |stack|
    ensures exists k: nat :: idx <= k < idx + |stack| && VocabCard(stack, k) == Some(stack[j])
  {
    var n := |stack|;
    var m := idx % n;
    var k: nat;
    if m <= j {
      k := idx + (j - m);
      DivModUnique(k, n, idx / n, j);
    } else {
      k := idx + (n - m + j);
      DivModUnique(k, n, idx / n + 1, j);
    }
    assert VocabCard(stack, k) == Some(stack[j]);
  }
}
