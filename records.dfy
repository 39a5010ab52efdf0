/**
 * The persisted user record and the per-user updates the account layer
 * performs on it: the set-like "includes, then push" of `enrollCourse` and
 * `markLessonComplete`, and the append of `saveQuizResult`.
 */
module Records {

  /** `profile`: display name, target language and daily minutes. */
  datatype Profile = Profile(name: string, language: string, daily: int)

  /** One quiz attempt as `saveQuizResult` stores it; `ts` is the clock reading. */
  datatype QuizRecord = QuizRecord(courseId: string, quizId: string, scorePct: int, ts: int)

  /**
   * A user-table entry. `progress` maps a course id to its completed lesson
   * ids in completion order; `speaking` is created empty and never written.
   */
  datatype UserRecord = UserRecord(
    password: string,
    profile: Profile,
    enrolled: seq<string>,
    progress: map<string, seq<string>>,
    quizzes: seq<QuizRecord>,
    speaking: seq<string>)

  /** The persisted session: the signed-in account and when the session was set. */
  datatype Session = Session(id: string, ts: int)

  /** No element occurs twice. */
  predicate NoDup(xs: seq<string>)
  {
    forall i, j :: 0 <= i < j < |xs| ==> xs[i] != xs[j]
  }

  /** The record invariant: `enrolled` and every per-course lesson list are duplicate-free. */
  predicate WellFormed(u: UserRecord)
  {
    NoDup(u.enrolled) && forall c :: c in u.progress ==> NoDup(u.progress[c])
  }

  /** The record `createAccount` stores: default profile with 20 daily minutes, all lists empty. */
  function NewUser(password: string): (u: UserRecord)
    ensures WellFormed(u)
  {
    UserRecord(password, Profile("", "", 20), [], map[], [], [])
  }

  /**
   * `if (!xs.includes(x)) xs.push(x)`: the list keeps its order, gains `x`
   * at the end if it was missing, and gains nothing else.
   */
  function AddOnce(xs: seq<string>, x: string): (r: seq<string>)
    ensures xs <= r && x in r
    ensures |r| == if x in xs then |xs| else |xs| + 1
    ensures forall y :: y in r <==> y in xs || y == x
    ensures NoDup(xs) ==> NoDup(r)
  {
    if x in xs then xs else xs + [x]
  }

  /** The lesson ids completed in course `c`; `u.progress[c] || []`. */
  function Completed(u: UserRecord, c: string): seq<string>
  {
    if c in u.progress then u.progress[c] else []
  }

  /** The update `enrollCourse` makes to the signed-in user's record. */
  function Enroll(u: UserRecord, courseId: string): (r: UserRecord)
    ensures r.(enrolled := u.enrolled) == u
    ensures u.enrolled <= r.enrolled && courseId in r.enrolled
    ensures forall y :: y in r.enrolled <==> y in u.enrolled || y == courseId
    ensures WellFormed(u) ==> WellFormed(r)
  {
    u.(enrolled := AddOnce(u.enrolled, courseId))
  }

  /** The update `markLessonComplete` makes: the course's lesson list is created if absent. */
  function CompleteLesson(u: UserRecord, courseId: string, lessonId: string): (r: UserRecord)
    ensures r.(progress := u.progress) == u
    ensures r.progress.Keys == u.progress.Keys + {courseId}
    ensures forall c :: c in u.progress && c != courseId ==> r.progress[c] == u.progress[c]
    ensures Completed(u, courseId) <= Completed(r, courseId) && lessonId in Completed(r, courseId)
    ensures forall l :: l in Completed(r, courseId) <==> l in Completed(u, courseId) || l == lessonId
    ensures WellFormed(u) ==> WellFormed(r)
  {
    u.(progress := u.progress[courseId := AddOnce(Completed(u, courseId), lessonId)])
  }

  /** The update `saveQuizResult` makes: one record at the end, earlier records untouched. */
  function RecordQuiz(u: UserRecord, q: QuizRecord): (r: UserRecord)
    ensures r.(quizzes := u.quizzes) == u
    ensures |r.quizzes| == |u.quizzes| + 1
    ensures r.quizzes[..|u.quizzes|] == u.quizzes && r.quizzes[|u.quizzes|] == q
    ensures WellFormed(u) ==> WellFormed(r)
  {
    u.(quizzes := u.quizzes + [q])
  }

  /** How many times `x` occurs in `xs`. */
  function Occurrences(xs: seq<string>, x: string): nat
  {
    if xs == [] then 0 else (if xs[0] == x then 1 else 0) + Occurrences(xs[1..], x)
  }

  /** In a duplicate-free list, an element that is present occurs exactly once. */
  lemma {:induction false} NoDupOccursOnce(xs: seq<string>, x: string)
    requires NoDup(xs)
    ensures Occurrences(xs, x) == if x in xs then 1 else 0
  {
    if xs != [] {
      assert NoDup(xs[1..]);
      NoDupOccursOnce(xs[1..], x);
      if xs[0] == x {
        assert x !in xs[1..];
      } else {
        assert x in xs <==> x in xs[1..];
      }
    }
  }

  /** Adding `x` to a list with at most one `x` leaves exactly one `x`. */
  lemma {:induction false} AddOnceExactlyOnce(xs: seq<string>, x: string)
    requires Occurrences(xs, x) <= 1
    ensures Occurrences(AddOnce(xs, x), x) == 1
  {
    if x in xs {
      OccursWhenMember(xs, x);
    } else {
      NotMemberNoOccurrence(xs, x);
      OccurrencesAppend(xs, [x], x);
    }
  }

  lemma {:induction false} OccursWhenMember(xs: seq<string>, x: string)
    requires x in xs
    ensures Occurrences(xs, x) >= 1
  {
    if xs[0] != x {
      OccursWhenMember(xs[1..], x);
    }
  }

  lemma {:induction false} NotMemberNoOccurrence(xs: seq<string>, x: string)
    requires x !in xs
    ensures Occurrences(xs, x) == 0
  {
    if xs != [] {
      NotMemberNoOccurrence(xs[1..], x);
    }
  }

  lemma {:induction false} OccurrencesAppend(xs: seq<string>, ys: seq<string>, x: string)
    ensures Occurrences(xs + ys, x) == Occurrences(xs, x) + Occurrences(ys, x)
  {
    if xs == [] {
      assert xs + ys == ys;
    } else {
      assert (xs + ys)[1..] == xs[1..] + ys;
      OccurrencesAppend(xs[1..], ys, x);
    }
  }

  /** `enrollCourse` is idempotent on the record. */
  lemma EnrollIdempotent(u: UserRecord, courseId: string)
    ensures Enroll(Enroll(u, courseId), courseId) == Enroll(u, courseId)
  {
  }

  /** After enrolling, the course occurs exactly once in `enrolled` of a well-formed record. */
  lemma EnrollExactlyOnce(u: UserRecord, courseId: string)
    requires WellFormed(u)
    ensures Occurrences(Enroll(u, courseId).enrolled, courseId) == 1
  {
    NoDupOccursOnce(Enroll(u, courseId).enrolled, courseId);
  }

  /** `markLessonComplete` is idempotent on the record. */
  lemma CompleteLessonIdempotent(u: UserRecord, courseId: string, lessonId: string)
    ensures CompleteLesson(CompleteLesson(u, courseId, lessonId), courseId, lessonId)
            == CompleteLesson(u, courseId, lessonId)
  {
    var r := CompleteLesson(u, courseId, lessonId);
    assert r.progress[courseId := AddOnce(Completed(r, courseId), lessonId)] == r.progress;
  }

  /** A completed lesson occurs exactly once in its course's list of a well-formed record. */
  lemma CompleteLessonExactlyOnce(u: UserRecord, courseId: string, lessonId: string)
    requires WellFormed(u)
    ensures Occurrences(Completed(CompleteLesson(u, courseId, lessonId), courseId), lessonId) == 1
  {
    NoDupOccursOnce(Completed(CompleteLesson(u, courseId, lessonId), courseId), lessonId);
  }

  /** `saveQuizResult` never deduplicates: recording the same attempt twice keeps both. */
  lemma RecordQuizTwice(u: UserRecord, q: QuizRecord)
    ensures RecordQuiz(RecordQuiz(u, q), q).quizzes == u.quizzes + [q, q]
  {
  }
}
