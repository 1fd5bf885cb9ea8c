/** The request handlers of server.js over an in-memory copy of the SQLite database that
    backend/database/setup.js creates. */
module Server {
  import opened Wrappers
  import opened Text
  import opened Schema

  // ---------------------------------------------------------------- the recommendation

  /** What /api/recommend answers and stores when the rule engine prints nothing. */
  const Fallback := "General Studies / Design & Multimedia"

  /** The goal the server hands the rule engine: stream and interest as sent, and `gpa || 0`. */
  datatype Goal = Goal(stream: Option<string>, interest: Option<string>, gpa: Gpa)

  function EngineGoal(stream: Option<string>, interest: Option<string>, gpa: Option<Gpa>): (g: Goal)
  {
    Goal(stream, interest, if gpa.Some? then gpa.value else 0.0)
  }

  /** `result.trim() || 'General Studies / Design & Multimedia'`: the engine's output without
      surrounding white space, or the fallback when nothing else is left. */
  function ChooseRecommendation(output: string): (r: string)
    ensures r != ""
    ensures AllSpace(output) ==> r == Fallback
    ensures !AllSpace(output) ==> r == Trim(output)
    ensures !IsSpace(r[0]) && !IsSpace(r[|r| - 1])
  {
    TrimShape(output);
    var t := Trim(output);
    if t != "" then t else Fallback
  }

  /** The newline or other white space the engine prints around its answer does not matter. */
  lemma ChooseIgnoresPadding(front: string, output: string, back: string)
    requires AllSpace(front) && AllSpace(back)
    ensures ChooseRecommendation(front + output + back) == ChooseRecommendation(output)
  {
    TrimIgnoresPadding(front, output, back);
  }

  /** `subjects[k]` in JavaScript: an index past the end of the array gives `undefined`,
      which is bound as NULL. */
  function Slot(xs: seq<Option<string>>, k: nat): (v: Option<string>)
  {
    if k < |xs| then xs[k] else None
  }

  /** The values a recommend request binds to the profile columns, NULLs included. */
  datatype Submitted = Submitted(
    stream: Option<string>,
    subject1: Option<string>, subject2: Option<string>, subject3: Option<string>,
    result1: Option<string>, result2: Option<string>, result3: Option<string>,
    gpa: Option<Gpa>,
    interest: Option<string>,
    recommendation: Option<string>)

  function Submission(stream: Option<string>, interest: Option<string>, gpa: Option<Gpa>,
                      subjects: seq<Option<string>>, results: seq<Option<string>>, recommendation: string): (s: Submitted)
  {
    Submitted(stream, Slot(subjects, 0), Slot(subjects, 1), Slot(subjects, 2),
              Slot(results, 0), Slot(results, 1), Slot(results, 2), gpa, interest, Some(recommendation))
  }

  /** The stored columns, or None when a NOT NULL column (stream, interest) would be NULL. */
  function Columns(s: Submitted): (r: Option<Academic>)
  {
    if s.stream.None? || s.interest.None? then None
    else Some(Academic(s.stream.value, s.subject1, s.subject2, s.subject3,
                       s.result1, s.result2, s.result3, s.gpa, s.interest.value, s.recommendation))
  }

  /** What a recommend request stores for a user with at most one profile row. The write
      fails exactly when stream or interest is missing. Otherwise, afterwards the user has
      exactly one profile row, and it holds the request's values:
      - stream and interest as sent;
      - the first three subjects and results, NULL for a missing slot;
      - the gpa as sent, NULL when missing, not the `gpa || 0` given to the engine;
      - the recommendation. */
  lemma UpsertStoresRequest(ps: seq<ProfileRow>, uid: nat, stream: Option<string>, interest: Option<string>,
                            gpa: Option<Gpa>, subjects: seq<Option<string>>, results: seq<Option<string>>,
                            rec: string, newId: nat, now: nat)
    requires |RowsOf(ps, uid)| <= 1
    ensures Columns(Submission(stream, interest, gpa, subjects, results, rec)).None? <==>
      stream.None? || interest.None?
    ensures stream.Some? && interest.Some? ==>
      var d := Columns(Submission(stream, interest, gpa, subjects, results, rec)).value;
      var after := RowsOf(Upserted(ps, uid, d, newId, now), uid);
      && |after| == 1
      && after[0].data.stream == stream.value && after[0].data.interest == interest.value
      && after[0].data.subject1 == Slot(subjects, 0) && after[0].data.subject2 == Slot(subjects, 1)
      && after[0].data.subject3 == Slot(subjects, 2)
      && after[0].data.result1 == Slot(results, 0) && after[0].data.result2 == Slot(results, 1)
      && after[0].data.result3 == Slot(results, 2)
      && after[0].data.gpa == gpa && after[0].data.recommendation == Some(rec)
  {
    if stream.Some? && interest.Some? {
      var d := Columns(Submission(stream, interest, gpa, subjects, results, rec)).value;
      UpsertLeavesOneRow(ps, uid, d, newId, now);
    }
  }

  // ---------------------------------------------------------------- replies

  /** Why an insert into `users` fails. */
  datatype Violation = NotNull | Unique

  /** The `user` object of a successful login: the row without its password. */
  datatype Account = Account(id: nat, username: string, role: string)

  /** The WHERE clause of the login query: all three parameters equal the row's columns. */
  predicate Matches(u: UserRow, username: Option<string>, password: Option<string>, role: Option<string>)
  {
    username == Some(u.username) && password == Some(u.password) && role == Some(u.role)
  }

  // ---------------------------------------------------------------- the database

  /** The SQLite database: three tables, their AUTOINCREMENT sequence values, and the
      clock `CURRENT_TIMESTAMP` reads. */
  class Database {
    var users: seq<UserRow>
    var profiles: seq<ProfileRow>
    var feedback: seq<FeedbackRow>
    var userSeq: nat
    var profileSeq: nat
    var feedbackSeq: nat
    var now: nat

    ghost predicate Valid()
      reads this
    {
      && UsersTable(users, userSeq, now)
      && ProfilesTable(profiles, profileSeq, now)
      && FeedbackTable(feedback, feedbackSeq, now)
    }

    /** setup.js run against a new database file at time `clock`: the three tables are
        created empty and the advisor account is seeded. */
    constructor (clock: nat)
      ensures Valid()
      ensures users == [UserRow(1, SeedUsername, SeedPassword, SeedRole, clock)]
      ensures profiles == [] && feedback == []
      ensures userSeq == 1 && profileSeq == 0 && feedbackSeq == 0 && now == clock
    {
      users, profiles, feedback := [], [], [];
      userSeq, profileSeq, feedbackSeq := 0, 0, 0;
      now := clock;
      new;
      Setup();
    }

    /** Time passes; every later write is stamped with the new clock value. */
    method Elapse(seconds: nat)
      requires Valid()
      modifies this
      ensures Valid()
      ensures now == old(now) + seconds
      ensures users == old(users) && profiles == old(profiles) && feedback == old(feedback)
      ensures userSeq == old(userSeq) && profileSeq == old(profileSeq) && feedbackSeq == old(feedbackSeq)
    {
      now := now + seconds;
    }

    /** setup.js run against this database. Each CREATE TABLE IF NOT EXISTS finds its table
        and does nothing; the INSERT OR IGNORE adds the advisor account unless a row with
        that username exists, in which case that row keeps its password and role. */
    method Setup()
      requires Valid()
      modifies this
      ensures Valid()
      ensures HasUsername(old(users), SeedUsername) ==> users == old(users)
      ensures !HasUsername(old(users), SeedUsername) ==>
        users == old(users) + [UserRow(old(userSeq) + 1, SeedUsername, SeedPassword, SeedRole, now)]
      ensures userSeq == old(userSeq) + 1
      ensures profiles == old(profiles) && feedback == old(feedback) && now == old(now)
      ensures profileSeq == old(profileSeq) && feedbackSeq == old(feedbackSeq)
      ensures HasUsername(users, SeedUsername)
    {
      var added := InsertOrIgnoreUser(SeedUsername, SeedPassword, SeedRole);
      if added {
        assert users[|users| - 1].username == SeedUsername;
      }
    }

    // ------------------------------------------------------------ table-level writes

    /** `INSERT INTO users (username, password[, role])`. A NULL username or password
        violates NOT NULL; SQLite checks that before UNIQUE. `role == None` means the
        column is not given and takes its default, 'student'. */
    method InsertUser(username: Option<string>, password: Option<string>, role: Option<string>)
      returns (r: Result<nat, Violation>)
      requires Valid()
      modifies this
      ensures Valid()
      ensures (username.None? || password.None?) ==> r == Failure(NotNull)
      ensures username.Some? && password.Some? && HasUsername(old(users), username.value) ==> r == Failure(Unique)
      ensures r.Failure? ==> unchanged(this)
      ensures username.Some? && password.Some? && !HasUsername(old(users), username.value) ==>
        && r == Success(old(userSeq) + 1)
        && users == old(users) + [UserRow(old(userSeq) + 1, username.value, password.value,
                                          if role.Some? then role.value else StudentRole, now)]
        && userSeq == old(userSeq) + 1
      ensures r.Success? ==> forall i :: 0 <= i < |old(users)| ==> old(users)[i].id < r.value
      ensures profiles == old(profiles) && feedback == old(feedback) && now == old(now)
      ensures profileSeq == old(profileSeq) && feedbackSeq == old(feedbackSeq)
    {
      if username.None? || password.None? {
        return Failure(NotNull);
      }
      var existing := FindUserId(username);
      if existing.Some? {
        return Failure(Unique);
      }
      userSeq := userSeq + 1;
      users := users + [UserRow(userSeq, username.value, password.value,
                                if role.Some? then role.value else StudentRole, now)];
      r := Success(userSeq);
    }

    /** `INSERT OR IGNORE INTO users (username, password, role)` with all three values given.
        SQLite allocates the AUTOINCREMENT rowid before it checks UNIQUE, and an ignored row
        does not roll the statement back, so the sequence advances by one either way; the
        row itself is added only when no row has that username. */
    method InsertOrIgnoreUser(username: string, password: string, role: string) returns (added: bool)
      requires Valid()
      modifies this
      ensures Valid()
      ensures added <==> !HasUsername(old(users), username)
      ensures added ==> users == old(users) + [UserRow(old(userSeq) + 1, username, password, role, now)]
      ensures !added ==> users == old(users)
      ensures userSeq == old(userSeq) + 1
      ensures profiles == old(profiles) && feedback == old(feedback) && now == old(now)
      ensures profileSeq == old(profileSeq) && feedbackSeq == old(feedbackSeq)
    {
      var existing := FindUserId(Some(username));
      userSeq := userSeq + 1;
      if existing.Some? {
        return false;
      }
      users := users + [UserRow(userSeq, username, password, role, now)];
      added := true;
    }

    /** `INSERT INTO student_profiles (user_id, ...)`. A NULL user_id, stream or interest
        violates NOT NULL and the row is not inserted. */
    method InsertProfile(userId: Option<nat>, s: Submitted) returns (ok: bool)
      requires Valid()
      modifies this
      ensures Valid()
      ensures ok <==> userId.Some? && Columns(s).Some?
      ensures !ok ==> unchanged(this)
      ensures ok ==>
        && profiles == old(profiles) + [ProfileRow(old(profileSeq) + 1, userId.value, Columns(s).value, now, now)]
        && profileSeq == old(profileSeq) + 1
      ensures ok ==> forall i :: 0 <= i < |old(profiles)| ==> old(profiles)[i].id < profileSeq
      ensures users == old(users) && feedback == old(feedback) && now == old(now)
      ensures userSeq == old(userSeq) && feedbackSeq == old(feedbackSeq)
    {
      var cols := Columns(s);
      if userId.None? || cols.None? {
        return false;
      }
      profileSeq := profileSeq + 1;
      profiles := profiles + [ProfileRow(profileSeq, userId.value, cols.value, now, now)];
      ok := true;
    }

    /** `UPDATE student_profiles SET ..., updated_at = CURRENT_TIMESTAMP WHERE user_id = ?`.
        SQLite checks NOT NULL on the rows the statement changes: setting stream or interest
        to NULL fails when the user has a row and changes no row; when no row matches, the
        statement succeeds and changes nothing. */
    method UpdateProfiles(uid: nat, s: Submitted) returns (ok: bool)
      requires Valid()
      modifies this
      ensures Valid()
      ensures ok <==> Columns(s).Some? || !HasProfile(old(profiles), uid)
      ensures Columns(s).None? ==> unchanged(this)
      ensures Columns(s).Some? ==> profiles == UpdateWhere(old(profiles), uid, Columns(s).value, now)
      ensures users == old(users) && feedback == old(feedback) && now == old(now)
      ensures userSeq == old(userSeq) && profileSeq == old(profileSeq) && feedbackSeq == old(feedbackSeq)
    {
      var cols := Columns(s);
      if cols.None? {
        var found := HasProfileRow(uid);
        return !found;
      }
      var rows := profiles;
      var i := 0;
      while i < |rows|
        invariant 0 <= i <= |rows| == |profiles|
        invariant forall k :: 0 <= k < i ==> rows[k] == UpdateWhere(profiles, uid, cols.value, now)[k]
        invariant forall k :: i <= k < |rows| ==> rows[k] == profiles[k]
      {
        if rows[i].userId == uid {
          rows := rows[i := rows[i].(data := cols.value, updatedAt := now)];
        }
        i := i + 1;
      }
      UpdateKeepsTable(profiles, profileSeq, uid, cols.value, now);
      profiles := rows;
      ok := true;
    }

    /** `INSERT INTO advisor_feedback (student_id, advisor_username, feedback)`. A NULL
        advisor_username violates NOT NULL. */
    method InsertFeedback(studentId: nat, advisor: Option<string>, text: Option<string>) returns (ok: bool)
      requires Valid()
      modifies this
      ensures Valid()
      ensures ok <==> advisor.Some?
      ensures !ok ==> unchanged(this)
      ensures ok ==>
        && feedback == old(feedback) + [FeedbackRow(old(feedbackSeq) + 1, studentId, advisor.value, text, now)]
        && feedbackSeq == old(feedbackSeq) + 1
      ensures ok ==> forall i :: 0 <= i < |old(feedback)| ==> old(feedback)[i].id < feedbackSeq
      ensures users == old(users) && profiles == old(profiles) && now == old(now)
      ensures userSeq == old(userSeq) && profileSeq == old(profileSeq)
    {
      if advisor.None? {
        return false;
      }
      feedbackSeq := feedbackSeq + 1;
      feedback := feedback + [FeedbackRow(feedbackSeq, studentId, advisor.value, text, now)];
      ok := true;
    }

    // ------------------------------------------------------------ table-level reads

    /** `SELECT id FROM users WHERE username = ?`. */
    method FindUserId(name: Option<string>) returns (r: Option<nat>)
      ensures r == UserIdOf(users, name)
    {
      if name.None? {
        return None;
      }
      var i := 0;
      while i < |users|
        invariant 0 <= i <= |users|
        invariant UserIdOf(users, name) == UserIdOf(users[i..], name)
      {
        if users[i].username == name.value {
          return Some(users[i].id);
        }
        assert users[i..][1..] == users[i + 1..];
        i := i + 1;
      }
      return None;
    }

    /** `SELECT id FROM student_profiles WHERE user_id = ?` found a row. */
    method HasProfileRow(uid: nat) returns (found: bool)
      ensures found <==> HasProfile(profiles, uid)
    {
      var i := 0;
      while i < |profiles|
        invariant 0 <= i <= |profiles|
        invariant forall k :: 0 <= k < i ==> profiles[k].userId != uid
      {
        if profiles[i].userId == uid {
          return true;
        }
        i := i + 1;
      }
      return false;
    }

    // ------------------------------------------------------------ request handlers

    /** POST /api/signup. The role is always 'student', whatever the request says. */
    method Signup(username: Option<string>, password: Option<string>) returns (r: Result<nat, string>)
      requires Valid()
      modifies this
      ensures Valid()
      ensures (username.None? || password.None?) ==> r == Failure("Signup failed")
      ensures username.Some? && password.Some? && HasUsername(old(users), username.value) ==>
        r == Failure("Username already exists")
      ensures r.Failure? ==> unchanged(this)
      ensures username.Some? && password.Some? && !HasUsername(old(users), username.value) ==>
        && r == Success(old(userSeq) + 1)
        && users == old(users) + [UserRow(old(userSeq) + 1, username.value, password.value, StudentRole, now)]
        && userSeq == old(userSeq) + 1
      ensures profiles == old(profiles) && feedback == old(feedback) && now == old(now)
      ensures profileSeq == old(profileSeq) && feedbackSeq == old(feedbackSeq)
    {
      var ins := InsertUser(username, password, Some(StudentRole));
      match ins
      case Success(id) => r := Success(id);
      case Failure(Unique) => r := Failure("Username already exists");
      case Failure(NotNull) => r := Failure("Signup failed");
    }

    /** POST /api/login: succeeds exactly when some row matches username, password and role. */
    method Login(username: Option<string>, password: Option<string>, role: Option<string>)
      returns (r: Result<Account, string>)
      ensures r.Success? <==> exists i :: 0 <= i < |users| && Matches(users[i], username, password, role)
      ensures r.Success? ==> exists i :: 0 <= i < |users| && Matches(users[i], username, password, role) &&
                                      r.value == Account(users[i].id, users[i].username, users[i].role)
      ensures r.Failure? ==> r.error == "Invalid credentials"
    {
      var i := 0;
      while i < |users|
        invariant 0 <= i <= |users|
        invariant forall k :: 0 <= k < i ==> !Matches(users[k], username, password, role)
      {
        var u := users[i];
        if Matches(u, username, password, role) {
          return Success(Account(u.id, u.username, u.role));
        }
        i := i + 1;
      }
      return Failure("Invalid credentials");
    }

    /** POST /api/recommend. An unknown username fails with 'User not found' and changes
        nothing. Otherwise the rule engine is asked about the stream, the interest and
        `gpa || 0`; the answer is its trimmed output or the fallback, and it is returned
        whether or not the profile write then succeeds. The write updates the user's
        profile rows if there are any and inserts one otherwise, storing the gpa as sent;
        a NULL stream or interest makes the write fail without changing any row (what the
        server process does after that failure is not modelled). */
    method Recommend(username: Option<string>, stream: Option<string>, interest: Option<string>,
                     gpa: Option<Gpa>, subjects: seq<Option<string>>, results: seq<Option<string>>,
                     engine: Goal -> string)
      returns (r: Result<string, string>)
      requires Valid()
      modifies this
      ensures Valid()
      ensures UserIdOf(old(users), username).None? ==> r == Failure("User not found") && unchanged(this)
      ensures UserIdOf(old(users), username).Some? ==>
        var uid := UserIdOf(old(users), username).value;
        var rec := ChooseRecommendation(engine(EngineGoal(stream, interest, gpa)));
        var cols := Columns(Submission(stream, interest, gpa, subjects, results, rec));
        && r == Success(rec)
        && (cols.None? ==> profiles == old(profiles) && profileSeq == old(profileSeq))
        && (cols.Some? ==>
              && profiles == Upserted(old(profiles), uid, cols.value, old(profileSeq) + 1, now)
              && profileSeq == if HasProfile(old(profiles), uid) then old(profileSeq) else old(profileSeq) + 1)
      ensures OneProfilePerUser(old(profiles)) ==> OneProfilePerUser(profiles)
      ensures users == old(users) && feedback == old(feedback) && now == old(now)
      ensures userSeq == old(userSeq) && feedbackSeq == old(feedbackSeq)
    {
      var uid := FindUserId(username);
      if uid.None? {
        return Failure("User not found");
      }
      var recommendation := ChooseRecommendation(engine(EngineGoal(stream, interest, gpa)));
      var s := Submission(stream, interest, gpa, subjects, results, recommendation);
      var existing := HasProfileRow(uid.value);
      var ok;
      if existing {
        ok := UpdateProfiles(uid.value, s);
      } else {
        ok := InsertProfile(Some(uid.value), s);
      }
      if ok && Columns(s).Some? && OneProfilePerUser(old(profiles)) {
        UpsertKeepsOnePerUser(old(profiles), uid.value, Columns(s).value, old(profileSeq) + 1, now);
      }
      r := Success(recommendation);
    }

    /** GET /api/students: one entry per profile row of each student, or one entry with NULL
        profile columns for a student without a profile. */
    method ListStudents() returns (rows: seq<StudentEntry>)
      ensures rows == Roster(users, profiles)
    {
      rows := [];
      var i := 0;
      while i < |users|
        invariant 0 <= i <= |users|
        invariant rows == Roster(users[..i], profiles)
      {
        var u := users[i];
        assert users[..i + 1][..i] == users[..i];
        if u.role == StudentRole {
          var joined := [];
          var j := 0;
          while j < |profiles|
            invariant 0 <= j <= |profiles|
            invariant joined == JoinedRows(u, profiles[..j])
          {
            assert profiles[..j + 1][..j] == profiles[..j];
            if profiles[j].userId == u.id {
              joined := joined + [Joined(u, profiles[j])];
            }
            j := j + 1;
          }
          assert profiles[..j] == profiles;
          rows := rows + if joined == [] then [Unmatched(u)] else joined;
        }
        i := i + 1;
      }
      assert users[..i] == users;
    }

    /** GET /api/feedback/:username: the text of a latest feedback row for that username
        (NULL when the row's text is NULL), or '' when there is none. */
    method GetFeedback(username: Option<string>) returns (text: Option<string>)
      requires Valid()
      ensures IsLatestFeedback(users, feedback, username, text)
    {
      var uid := FindUserId(username);
      if uid.None? {
        return Some("");
      }
      var best: Option<nat> := None;
      var i := 0;
      while i < |feedback|
        invariant 0 <= i <= |feedback|
        invariant best.None? ==> forall j :: 0 <= j < i ==> feedback[j].studentId != uid.value
        invariant best.Some? ==> best.value < i && feedback[best.value].studentId == uid.value
        invariant best.Some? ==> forall j :: 0 <= j < i && feedback[j].studentId == uid.value ==>
          feedback[j].feedbackDate <= feedback[best.value].feedbackDate
      {
        if feedback[i].studentId == uid.value
          && (best.None? || feedback[i].feedbackDate > feedback[best.value].feedbackDate) {
          best := Some(i);
        }
        i := i + 1;
      }
      LatestOfStudent(users, feedback, username.value, uid.value, best);
      if best.None? {
        return Some("");
      }
      text := feedback[best.value].feedback;
    }

    /** POST /api/feedback. An unknown student fails with 'Student not found'; a missing
        advisor name fails the insert; otherwise exactly one row is appended. */
    method SaveFeedback(student: Option<string>, advisor: Option<string>, text: Option<string>)
      returns (r: Outcome<string>)
      requires Valid()
      modifies this
      ensures Valid()
      ensures UserIdOf(old(users), student).None? ==> r == Fail("Student not found")
      ensures UserIdOf(old(users), student).Some? && advisor.None? ==> r == Fail("Error saving feedback")
      ensures r.Fail? ==> unchanged(this)
      ensures UserIdOf(old(users), student).Some? && advisor.Some? ==>
        && r == Pass
        && feedback == old(feedback) + [FeedbackRow(old(feedbackSeq) + 1, UserIdOf(old(users), student).value,
                                                    advisor.value, text, now)]
        && feedbackSeq == old(feedbackSeq) + 1
      ensures users == old(users) && profiles == old(profiles) && now == old(now)
      ensures userSeq == old(userSeq) && profileSeq == old(profileSeq)
    {
      var uid := FindUserId(student);
      if uid.None? {
        return Fail("Student not found");
      }
      var ok := InsertFeedback(uid.value, advisor, text);
      if !ok {
        return Fail("Error saving feedback");
      }
      r := Pass;
    }
  }

  /** Running setup.js twice leaves the users table as one run does: after the first run the
      advisor account exists, so the second run's INSERT OR IGNORE is ignored. Each run
      still advances the AUTOINCREMENT sequence. */
  method SetupTwice(db: Database)
    requires db.Valid()
    modifies db
    ensures db.Valid() && HasUsername(db.users, SeedUsername)
    ensures HasUsername(old(db.users), SeedUsername) ==> db.users == old(db.users)
    ensures !HasUsername(old(db.users), SeedUsername) ==>
      db.users == old(db.users) + [UserRow(old(db.userSeq) + 1, SeedUsername, SeedPassword, SeedRole, old(db.now))]
    ensures db.userSeq == old(db.userSeq) + 2
    ensures db.profiles == old(db.profiles) && db.feedback == old(db.feedback)
    ensures db.now == old(db.now) && db.profileSeq == old(db.profileSeq) && db.feedbackSeq == old(db.feedbackSeq)
  {
    db.Setup();
    ghost var once := db.users;
    db.Setup();
    assert db.users == once;
  }
}
