/**
 * The immutable course catalog (`COURSES`) and its one accessor,
 * `getCourseById`, a linear `Array.find` over the catalog.
 */
module Catalog {

  import opened Wrappers

  datatype Lesson = Lesson(id: string, title: string, content: string)

  /** A quiz question: prompt, option texts and the zero-based index `a` of the right option. */
  datatype Question = Question(q: string, opts: seq<string>, a: int)

  datatype Quiz = Quiz(id: string, title: string, questions: seq<Question>)

  datatype VocabEntry = VocabEntry(word: string, meaning: string)

  datatype Course = Course(
    id: string,
    title: string,
    level: string,
    desc: string,
    lessons: seq<Lesson>,
    quizzes: seq<Quiz>,
    vocab: seq<VocabEntry>)

  /** The static catalog, in the order the application lists it. */
  const Courses: seq<Course> := [
    Course(
      "spanish-basic", "Spanish — Basics", "Beginner", "Greetings, numbers, common phrases.",
      [ Lesson("s1-l1", "Greetings & Intros", "Hola, ¿Cómo estás? — Basic greetings and introductions."),
        Lesson("s1-l2", "Numbers 1-10", "Uno, dos, tres... Practice counting from 1 to 10.") ],
      [ Quiz("s1-q1", "Basics Quiz", [
          Question("How do you say Hello?", ["Hola", "Bonjour", "Ciao"], 0),
          Question("What is 2 in Spanish?", ["dos", "due", "deux"], 0) ]) ],
      [ VocabEntry("Hola", "Hello"),
        VocabEntry("Adiós", "Goodbye"),
        VocabEntry("Gracias", "Thank you") ]),
    Course(
      "french-basic", "French — Beginner", "Beginner", "Simple phrases, polite expressions.",
      [ Lesson("f1-l1", "Bonjour & Politeness", "Bonjour, merci, s’il vous plaît.") ],
      [ Quiz("f1-q1", "French Mini Quiz", [
          Question("How to say Thank you?", ["Merci", "Gracias", "Danke"], 0) ]) ],
      [ VocabEntry("Bonjour", "Hello"),
        VocabEntry("Merci", "Thank you") ])
  ]

  /** The ids of a catalog, in order. */
  function CourseIds(cs: seq<Course>): (ids: seq<string>)
    ensures |ids| == |cs|
    ensures forall i :: 0 <= i < |cs| ==> ids[i] == cs[i].id
  {
    if cs == [] then [] else [cs[0].id] + CourseIds(cs[1..])
  }

  /**
   * `Array.find` with the predicate `c.id === id`: the FIRST course whose id
   * matches, or nothing when no course matches.
   */
  function FindCourse(cs: seq<Course>, id: string): (r: Option<Course>)
    ensures r.None? <==> forall i :: 0 <= i < |cs| ==> cs[i].id != id
    ensures r.Some? ==> exists i :: 0 <= i < |cs| && cs[i] == r.value && r.value.id == id &&
                                    forall j :: 0 <= j < i ==> cs[j].id != id
  {
    if cs == [] then None
    else if cs[0].id == id then Some(cs[0])
    else
      var r := FindCourse(cs[1..], id);
      assert r.Some? ==> exists i :: 0 <= i < |cs| - 1 && cs[1..][i] == r.value && r.value.id == id &&
                                     forall j :: 0 <= j < i ==> cs[1..][j].id != id;
      r
  }

  /** `getCourseById`: catalog lookup; an unknown id yields nothing rather than an error. */
  function GetCourseById(id: string): (r: Option<Course>)
    ensures r.Some? <==> id in CourseIds(Courses)
    ensures r.Some? ==> r.value in Courses && r.value.id == id
  {
    FindCourse(Courses, id)
  }

  /** No two courses of the catalog share an id, so the first match is the only one. */
  lemma CatalogIdsDistinct()
    ensures forall i, j :: 0 <= i < j < |Courses| ==> Courses[i].id != Courses[j].id
  {
  }

  /** With distinct ids, the lookup finds exactly the course carrying the id. */
  lemma {:induction false} FindCourseUnique(cs: seq<Course>, k: nat)
    requires k < |cs|
    requires forall i, j :: 0 <= i < j < |cs| ==> cs[i].id != cs[j].id
    ensures FindCourse(cs, cs[k].id) == Some(cs[k])
  {
    if k > 0 {
      assert cs[0].id != cs[k].id;
      FindCourseUnique(cs[1..], k - 1);
    }
  }

  /** The catalog as the pages rely on it: both course ids resolve, with their lesson counts. */
  lemma CatalogLookups()
    ensures forall i, j :: 0 <= i < j < |Courses| ==> Courses[i].id != Courses[j].id
    ensures GetCourseById("spanish-basic").Some? && |GetCourseById("spanish-basic").value.lessons| == 2
    ensures GetCourseById("french-basic").Some? && |GetCourseById("french-basic").value.lessons| == 1
    ensures forall id :: id != "spanish-basic" && id != "french-basic" ==> GetCourseById(id).None?
  {
    CatalogIdsDistinct();
    assert CourseIds(Courses) == ["spanish-basic", "french-basic"];
    FindCourseUnique(Courses, 0);
    FindCourseUnique(Courses, 1);
  }
}
