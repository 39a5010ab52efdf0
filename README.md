# Language-learning demo: account and progress layer in Dafny

This project models the account and progress layer of a browser-only
language-learning site (`assets/app.js`). The site keeps two entries in local
storage: a user table from account identifier to user record, and a session
naming the signed-in account. On top of these it offers account creation,
sign-in, a simulated one-time code, enrollment, lesson completion and quiz
results. It also holds a static course catalog. The model covers these parts
and the small computations the pages make over them: quiz scoring,
percentages, the dashboard's recent-quiz list and lesson counts, and the
vocabulary card cycle.

Modules:

- `Wrappers`: `Option`.
- `Catalog`: the `COURSES` data and `getCourseById`.
- `Records`: the user record, plus each per-user update as a pure function:
  `Enroll`, `CompleteLesson`, `RecordQuiz`, built on `AddOnce`, which is
  "includes, then push".
- `Otp`: the random four-digit code and its decimal string.
- `Accounts`: class `Store`. Its fields `users`, `session` and `otp` are the
  two storage entries and the in-memory `simulatedOTP`. Each service
  operation is a method with a `modifies` frame on exactly the field the
  source writes. Each method that updates the user table is proved against
  the `Records` function that specifies its update. Three client methods
  check the contracts on fixed call sequences whose assertions the
  verifier proves. `SignInScenario` covers sign-up,
  then a wrong and a right password. `ProgressScenario` covers enrolling
  twice and saving two quizzes. `OtpScenario` covers verifying before and
  after a code is sent.
- `Views`: quiz scoring as a loop method, round-half-up percentages, the
  recent-quiz slice, done/total lesson counts, and the vocabulary card.

Decisions:

- Clock and randomness are parameters. `Date.now()` is `now: int`, and
  `Math.random()` is `rand: real` with `0 <= rand < 1`.
- Load and save are the object itself. Every operation loads the table,
  changes it and saves it back in one synchronous step, so storage is the
  `Store` object's fields. `save(load())` is therefore the identity. The
  constructor `Store.Load` models a page load: a missing or unparseable
  entry gives an empty table or no session, and `simulatedOTP` starts out
  `null`.
- A session can name an account that is not in the table. Storage may be
  cleared out of band, and the verify handler sets the session without
  looking the account up. In that case the JavaScript reads a field of
  `undefined` and throws a TypeError before anything is saved. The model
  makes this an explicit outcome: `Reply.Thrown` (or `thrown == true` for
  `saveQuizResult`), with the table unchanged. It is not a precondition.
- Field names follow the source. `progress` is a map, so the key insertion
  order of the JavaScript object is not kept; every use looks keys up by
  name. The `u.progress || {}` and `u.quizzes || []` fallbacks of lines 94
  and 104 cannot fire, because a model record always has both fields.

## Model

| member | source | states |
|---|---|---|
| `Catalog.FindCourse` | assets/app.js:110 | `Array.find` semantics: nothing exactly when no course has the id; otherwise the first course with that id |
| `Catalog.GetCourseById` | assets/app.js:110 | an id resolves exactly when it is a catalog id; the result is a catalog course with that id; an unknown id gives an absent result, not an error |
| `Catalog.FindCourseUnique` | assets/app.js:110 | with distinct ids, looking up a course's own id returns that course |
| `Catalog.CatalogLookups` | assets/app.js:10-50 | the catalog's course ids are distinct; "spanish-basic" has 2 lessons, "french-basic" has 1, every other id is not found |
| `Records.NewUser` | assets/app.js:66 | the record created at sign-up satisfies the no-duplicates invariant |
| `Records.AddOnce` | assets/app.js:86 | includes-then-push: the old list is a prefix, `x` is present, the length grows by one exactly when `x` was missing, no other element appears, and no duplicates stay no duplicates |
| `Records.Enroll` | assets/app.js:86 | changes only `enrolled`; the old list is a prefix, the course is in it and nothing else is added; keeps the record invariant |
| `Records.CompleteLesson` | assets/app.js:94-96 | changes only `progress`; adds the course key if missing; other courses' lists are unchanged; the lesson is in the course's list and nothing else is added to it; the old list is a prefix; keeps the invariant |
| `Records.RecordQuiz` | assets/app.js:104-105 | changes only `quizzes`: one record more, earlier records an unchanged prefix, the new one last |
| `Records.NoDupOccursOnce` | assets/app.js:86 | in a duplicate-free list an element occurs once if present, never if absent |
| `Records.AddOnceExactlyOnce` | assets/app.js:86 | adding to a list with at most one `x` leaves exactly one `x` |
| `Records.EnrollIdempotent` | assets/app.js:83-89 | enrolling twice equals enrolling once |
| `Records.EnrollExactlyOnce` | assets/app.js:86 | after enrolling, the course occurs exactly once in `enrolled` |
| `Records.CompleteLessonIdempotent` | assets/app.js:91-99 | completing a lesson twice equals completing it once |
| `Records.CompleteLessonExactlyOnce` | assets/app.js:96 | after completion, the lesson occurs exactly once in its course's list |
| `Records.RecordQuizTwice` | assets/app.js:101-107 | saving the same attempt twice keeps both copies; no deduplication |
| `Otp.OtpCode` | assets/app.js:80 | `floor(1000 + rand*9000)` lies in 1000..9999 for every `rand` in [0,1) |
| `Otp.EveryCodeReachable` | assets/app.js:80 | every four-digit code is produced by some draw |
| `Otp.DecimalString` | assets/app.js:80 | `String(n)`: non-empty, digits only, no leading zero |
| `Otp.ParseDecimalString` | assets/app.js:80 | reading the decimal string back gives the number |
| `Otp.FourDigitCodes` | assets/app.js:80 | a code has exactly four characters |
| `Otp.DecimalStringInjective` | assets/app.js:80 | different codes have different strings |
| `Accounts.Store.Load` | assets/app.js:53-57 | a missing or unparseable entry gives an empty table or no session; `simulatedOTP` starts `null` |
| `Accounts.Store.CreateAccount` | assets/app.js:62-69 | 'Fill required fields' iff a field is empty; 'Account exists' iff both are filled and the id is taken; on failure the table is unchanged; on success exactly one record is added, `NewUser(password)`, and the session is untouched |
| `Accounts.Store.SignIn` | assets/app.js:71-77 | 'Account not found' iff the id is unknown; 'Invalid credentials' iff it is known and the password differs; the session changes only on success, to that id with time `now`; the table is untouched |
| `Accounts.Store.ClearSession` | assets/app.js:57 | the session is gone; nothing else changes |
| `Accounts.Store.SendOTP` | assets/app.js:80 | the returned code is the decimal string of the draw, four digits long, numeric value in 1000..9999, and replaces any earlier code |
| `Accounts.Store.VerifyOTP` | assets/app.js:189-197 | succeeds iff the input equals the latest code; never succeeds before a code is sent; sets the session only on success |
| `Accounts.Store.EnrollCourse` | assets/app.js:83-89 | no session: 'Sign in first' and no change; dangling session: throws and no change; else the user's record becomes `Enroll(record, courseId)` and no other user changes; on a well-formed table the course then occurs exactly once in `enrolled` |
| `Accounts.Store.MarkLessonComplete` | assets/app.js:91-99 | same error cases; else the record becomes `CompleteLesson(record, courseId, lessonId)`; on a well-formed table the lesson then occurs exactly once in the course's list; the lesson is never checked against the course |
| `Accounts.Store.SaveQuizResult` | assets/app.js:101-107 | no session: silently no change; dangling session: throws and no change; else one `{courseId, quizId, scorePct, ts: now}` record is appended |
| `Views.Score` | assets/app.js:334-338 | the score equals the number of questions whose selected option is the answer index, and is at most the number of questions; all correct gives the full count; all unanswered gives 0 |
| `Views.CountCorrectIsSetSize` | assets/app.js:335-338 | the loop's running count equals the size of the set of correctly answered positions passed so far |
| `Views.RoundedPercent` | assets/app.js:339 | `Math.round(part/whole*100)` as the nearest integer with halves rounded up; absent for a zero `whole` (NaN when `part` is 0, Infinity when `part` is positive; only the NaN case arises in the pages); between 0 and 100 when `part <= whole` |
| `Views.RoundedPercentExtremes` | assets/app.js:339 | no part gives 0 and the whole gives 100 |
| `Views.RecentQuizzes` | assets/app.js:438-439 | `slice(-3).reverse()`: the last min(3, n) attempts, newest first |
| `Views.RecentAfterSave` | assets/app.js:105 | a just-saved attempt heads the list; the previous top two follow it |
| `Views.DoneAtMostTotal` | assets/app.js:413-414 | with no duplicates and only the course's own lesson ids, done <= total |
| `Views.UncheckedLessonRaisesDone` | assets/app.js:96 | a lesson id foreign to the course still raises done by one |
| `Views.CompleteLessonDone` | assets/app.js:413 | completing a lesson raises its course's done by 1 the first time and 0 later; other courses' counts stay the same |
| `Views.FirstSpanishLesson` | assets/app.js:413-415 | a new account that completes "s1-l1" has 1 of 2 lessons done, 50 percent |
| `Views.VocabCard` | assets/app.js:363 | `stack[idx % stack.length]`: present iff the list is non-empty, and always an entry of the list |
| `Views.VocabStartsAtFirst` | assets/app.js:357-368 | the first card shown is the first entry |
| `Views.VocabNext` | assets/app.js:374-377 | "next" moves to the following entry and wraps from the last to the first |
| `Views.VocabPeriodic` | assets/app.js:363 | the cards repeat with period `stack.length` |
| `Views.VocabCovers` | assets/app.js:363 | from any position, every entry appears within one round of presses |

## Left out

- DOM rendering, event wiring, `alert`, `prompt`, `location` and
  `renderHeaderUser`: presentation glue. Only the values the handlers compute
  are modelled.
- `localStorage`, `JSON.parse` and `JSON.stringify`: foreign calls. The two
  entries are the `Store` object's fields. A corrupt entry is the input case
  `Blob.Unparseable`, not a parser.
- `Math.random` and `Date.now`: both are parameters of the methods that use
  them.
- `Otp.OtpCode`: computes on exact reals, not IEEE doubles. For a draw in
  [0,1) the double result of `Math.floor(1000 + Math.random()*9000)` also
  lies in 1000..9999.
- `Views.RoundedPercent`: computes on exact rationals, not doubles. It does
  not model a rounding error of the double `part/whole*100` next to a .5
  boundary.
- `QuizRecord.scorePct` is an integer, so it cannot hold the NaN that
  `Math.round(score/quiz.questions.length*100)` gives for a quiz with no
  questions (assets/app.js:339). Every catalog quiz has questions, so the
  case does not arise; `Views.RoundedPercent` returns `None` for it.
- Inputs reach the model already trimmed. This covers the `trim()` calls of
  the sign-up, verify and sign-in handlers.
- Identifiers and course ids that are names of `Object.prototype` members,
  such as "constructor" or "toString": in JavaScript `users[identifier]` and
  `u.progress[courseId]` are truthy for them (for a course id,
  `markLessonComplete` then throws a TypeError at assets/app.js:96 before
  saving). The model treats the table and `progress` as plain maps.
- Profile editing (assets/app.js:456-470) and its `Number(daily) || 20`
  coercion: not part of this model.
- `simulatePlayback`: timer-driven animation.
- The lookups inside `initLesson` and `initQuiz` (`lessons.find`,
  `quizzes.find`) and the query-string parsing: page glue.
- Several tabs overwriting each other (last write wins): a concurrency matter
  outside a single page context.
- The element type of `speaking` is never shown by the source. It is
  modelled as a list of strings that is created empty and never written.
