/**
 * The account and progress service over the two persisted entries: the
 * user table (`ll_users_v2`) and the session (`ll_session_v2`), plus the
 * in-memory simulated OTP. Every operation is a synchronous
 * read-modify-write of these values, so the persisted blobs are modelled
 * as the fields of one object.
 */
module Accounts {

  import opened Wrappers
  import opened Records
  import opened Otp

  const FillRequiredFields := "Fill required fields"
  const AccountExists := "Account exists"
  const AccountNotFound := "Account not found"
  const InvalidCredentials := "Invalid credentials"
  const SignInFirst := "Sign in first"

  /**
   * The outcome of an operation: `{ok:true}`, `{ok:false, msg}`, or the
   * TypeError raised when the session names an account missing from the
   * table (`users[s.id]` is `undefined`); that error escapes before the
   * table is written back.
   */
  datatype Reply = Ok | Fail(msg: string) | Thrown

  /** A storage entry as read at page load: absent, not valid JSON, or a parsed value. */
  datatype Blob<T> = Missing | Unparseable | Parsed(value: T)

  type UserTable = map<string, UserRecord>

  class Store {
    /** The user table: account identifier to record. */
    var users: UserTable
    /** The session entry, absent when nobody is signed in. */
    var session: Option<Session>
    /** `simulatedOTP`: the latest code sent, `null` before the first `sendOTP`. */
    var otp: Option<string>

    /** Every record keeps `enrolled` and its lesson lists duplicate-free. */
    ghost predicate Valid()
      reads this
    {
      forall id :: id in users ==> WellFormed(users[id])
    }

    /** The session, if any, names an account of the table. */
    ghost predicate SessionResolves()
      reads this
    {
      session.Some? ==> session.value.id in users
    }

    /**
     * A page load: `loadUsers` and `getSession` fall back to an empty table
     * and no session when an entry is missing or unparseable; the module-level
     * `simulatedOTP` starts as `null`.
     */
    constructor Load(usersEntry: Blob<UserTable>, sessionEntry: Blob<Session>)
      ensures users == (if usersEntry.Parsed? then usersEntry.value else map[])
      ensures session == (if sessionEntry.Parsed? then Some(sessionEntry.value) else None)
      ensures otp == None
      ensures !usersEntry.Parsed? ==> Valid()
    {
      users := if usersEntry.Parsed? then usersEntry.value else map[];
      session := if sessionEntry.Parsed? then Some(sessionEntry.value) else None;
      otp := None;
    }

    /**
     * `createAccount`: empty fields are refused first, then an existing
     * identifier; otherwise a fresh record is added. The new user is not
     * signed in.
     */
    method CreateAccount(identifier: string, password: string) returns (r: Reply)
      modifies this`users
      ensures r == Ok || r == Fail(FillRequiredFields) || r == Fail(AccountExists)
      ensures r == Fail(FillRequiredFields) <==> identifier == "" || password == ""
      ensures r == Fail(AccountExists) <==> identifier != "" && password != "" && identifier in old(users)
      ensures r != Ok ==> users == old(users)
      ensures r == Ok ==> users == old(users)[identifier := NewUser(password)]
      ensures r == Ok ==> users.Keys == old(users).Keys + {identifier} && identifier !in old(users)
      ensures old(Valid()) ==> Valid()
      ensures old(SessionResolves()) ==> SessionResolves()
    {
      if identifier == "" || password == "" {
        return Fail(FillRequiredFields);
      }
      if identifier in users {
        return Fail(AccountExists);
      }
      users := users[identifier := NewUser(password)];
      r := Ok;
    }

    /**
     * `signIn`: an unknown identifier is reported before a wrong password;
     * only success sets the session, stamped with the clock reading `now`.
     */
    method SignIn(identifier: string, password: string, now: int) returns (r: Reply)
      modifies this`session
      ensures r == Ok || r == Fail(AccountNotFound) || r == Fail(InvalidCredentials)
      ensures r == Fail(AccountNotFound) <==> identifier !in users
      ensures r == Fail(InvalidCredentials) <==> identifier in users && users[identifier].password != password
      ensures r == Ok ==> session == Some(Session(identifier, now)) && SessionResolves()
      ensures r != Ok ==> session == old(session)
    {
      if identifier !in users {
        return Fail(AccountNotFound);
      }
      if users[identifier].password != password {
        return Fail(InvalidCredentials);
      }
      session := Some(Session(identifier, now));
      r := Ok;
    }

    /** `clearSession`: sign out. */
    method ClearSession()
      modifies this`session
      ensures session == None
    {
      session := None;
    }

    /** `sendOTP`: draw a fresh four-digit code, replacing any earlier one, and return it. */
    method SendOTP(rand: real) returns (code: string)
      requires 0.0 <= rand < 1.0
      modifies this`otp
      ensures code == DecimalString(OtpCode(rand)) && otp == Some(code)
      ensures |code| == 4 && 1000 <= ParseDecimal(code) <= 9999
    {
      var n := OtpCode(rand);
      FourDigitCodes(n);
      ParseDecimalString(n);
      code := DecimalString(n);
      otp := Some(code);
    }

    /**
     * The sign-up page's verify handler: the typed code must equal the latest
     * code sent; then the session is set for the sign-up identifier. Before any
     * `sendOTP` there is no code and nothing matches.
     */
    method VerifyOTP(input: string, identifier: string, now: int) returns (ok: bool)
      modifies this`session
      ensures ok <==> otp == Some(input)
      ensures otp == None ==> !ok
      ensures ok ==> session == Some(Session(identifier, now))
      ensures !ok ==> session == old(session)
      ensures ok && identifier in users ==> SessionResolves()
    {
      ok := otp == Some(input);
      if ok {
        session := Some(Session(identifier, now));
      }
    }

    /**
     * `enrollCourse`: without a session, 'Sign in first' and no change;
     * otherwise the course id is appended to the user's `enrolled` unless
     * already there. The course id is not checked against the catalog.
     */
    method EnrollCourse(courseId: string) returns (r: Reply)
      modifies this`users
      ensures session.None? ==> r == Fail(SignInFirst) && users == old(users)
      ensures session.Some? && session.value.id !in old(users) ==> r == Thrown && users == old(users)
      ensures session.Some? && session.value.id in old(users) ==>
                r == Ok && users == old(users)[session.value.id := Enroll(old(users)[session.value.id], courseId)]
      ensures old(Valid()) ==> Valid()
      ensures old(Valid()) && r == Ok ==> Occurrences(users[session.value.id].enrolled, courseId) == 1
      ensures users.Keys == old(users).Keys
    {
      if session.None? {
        return Fail(SignInFirst);
      }
      var id := session.value.id;
      if id !in users {
        return Thrown;
      }
      var u := users[id];
      if courseId !in u.enrolled {
        u := u.(enrolled := u.enrolled + [courseId]);
      }
      if Valid() {
        EnrollExactlyOnce(users[id], courseId);
      }
      users := users[id := u];
      r := Ok;
    }

    /**
     * `markLessonComplete`: without a session, 'Sign in first' and no change;
     * otherwise the lesson id is appended to the course's list (created when
     * absent) unless already there. The lesson is not checked against the course.
     */
    method MarkLessonComplete(courseId: string, lessonId: string) returns (r: Reply)
      modifies this`users
      ensures session.None? ==> r == Fail(SignInFirst) && users == old(users)
      ensures session.Some? && session.value.id !in old(users) ==> r == Thrown && users == old(users)
      ensures session.Some? && session.value.id in old(users) ==>
                r == Ok &&
                users == old(users)[session.value.id := CompleteLesson(old(users)[session.value.id], courseId, lessonId)]
      ensures old(Valid()) ==> Valid()
      ensures old(Valid()) && r == Ok ==> Occurrences(Completed(users[session.value.id], courseId), lessonId) == 1
      ensures users.Keys == old(users).Keys
    {
      if session.None? {
        return Fail(SignInFirst);
      }
      var id := session.value.id;
      if id !in users {
        return Thrown;
      }
      var u := users[id];
      var lessons := if courseId in u.progress then u.progress[courseId] else [];
      if lessonId !in lessons {
        lessons := lessons + [lessonId];
      }
      u := u.(progress := u.progress[courseId := lessons]);
      if Valid() {
        CompleteLessonExactlyOnce(users[id], courseId, lessonId);
      }
      users := users[id := u];
      r := Ok;
    }

    /**
     * `saveQuizResult`: silently nothing without a session; otherwise one
     * attempt, stamped with the clock reading `now`, is appended. `thrown`
     * reports the TypeError of a session naming a missing account.
     */
    method SaveQuizResult(courseId: string, quizId: string, scorePct: int, now: int) returns (thrown: bool)
      modifies this`users
      ensures thrown <==> session.Some? && session.value.id !in old(users)
      ensures session.None? || thrown ==> users == old(users)
      ensures session.Some? && !thrown ==>
                users == old(users)[session.value.id :=
                  RecordQuiz(old(users)[session.value.id], QuizRecord(courseId, quizId, scorePct, now))]
      ensures old(Valid()) ==> Valid()
      ensures users.Keys == old(users).Keys
    {
      if session.None? {
        return false;
      }
      var id := session.value.id;
      if id !in users {
        return true;
      }
      var u := users[id];
      u := u.(quizzes := u.quizzes + [QuizRecord(courseId, quizId, scorePct, now)]);
      users := users[id := u];
      thrown := false;
    }
  }

  /** Sign-up, a wrong password, then the right one. */
  method SignInScenario(now: int)
  {
    var store := new Store.Load(Missing, Missing);
    var r := store.CreateAccount("a@x.com", "p1");
    assert r == Ok && store.session == None;
    r := store.CreateAccount("a@x.com", "p2");
    assert r == Fail(AccountExists);
    r := store.SignIn("a@x.com", "wrong", now);
    assert r == Fail(InvalidCredentials) && store.session == None;
    r := store.SignIn("a@x.com", "p1", now);
    assert r == Ok && store.session == Some(Session("a@x.com", now));
  }

  /** Enrolling twice records the course once; two quiz saves keep two attempts, the latest last. */
  method ProgressScenario(t1: int, t2: int)
  {
    var store := new Store.Load(Missing, Parsed(Session("a@x.com", 0)));
    var r := store.EnrollCourse("spanish-basic");
    assert r == Thrown;
    r := store.CreateAccount("a@x.com", "p1");
    assert store.users == map["a@x.com" := NewUser("p1")];
    r := store.EnrollCourse("spanish-basic");
    var enrolledOnce := Enroll(NewUser("p1"), "spanish-basic");
    assert enrolledOnce.enrolled == ["spanish-basic"];
    assert store.users == map["a@x.com" := enrolledOnce];
    r := store.EnrollCourse("spanish-basic");
    EnrollIdempotent(NewUser("p1"), "spanish-basic");
    assert r == Ok && store.users == map["a@x.com" := enrolledOnce];
    var thrown := store.SaveQuizResult("spanish-basic", "s1-q1", 50, t1);
    thrown := store.SaveQuizResult("spanish-basic", "s1-q1", 100, t2);
    assert store.users["a@x.com"].quizzes ==
           [QuizRecord("spanish-basic", "s1-q1", 50, t1), QuizRecord("spanish-basic", "s1-q1", 100, t2)];
    store.ClearSession();
    r := store.MarkLessonComplete("spanish-basic", "s1-l1");
    assert r == Fail(SignInFirst);
  }

  /** Verification fails before any code is sent and succeeds with the code shown. */
  method OtpScenario(rand: real, guess: string, now: int)
    requires 0.0 <= rand < 1.0
  {
    var store := new Store.Load(Missing, Missing);
    var ok := store.VerifyOTP(guess, "a@x.com", now);
    assert !ok && store.session == None;
    var r := store.CreateAccount("a@x.com", "p1");
    var code := store.SendOTP(rand);
    ok := store.VerifyOTP(code, "a@x.com", now);
    assert ok && store.SessionResolves();
  }
}
