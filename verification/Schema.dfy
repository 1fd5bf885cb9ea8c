/** The three tables that backend/database/setup.js creates (users, student_profiles,
    advisor_feedback), the constraints it declares on them, and the queries the request
    handlers run against them, written as functions on the tables' rows. */
module Schema {
  import opened Wrappers

  /** A stored gpa: an SQLite REAL that is carried, never computed with. */
  type Gpa = real

  /** A row of `users`. Every column but `role` is NOT NULL; `role` has a default and
      no handler ever stores NULL in it, so it is a plain string here. */
  datatype UserRow = UserRow(id: nat, username: string, password: string, role: string, createdAt: nat)

  /** The columns of a `student_profiles` row that a recommend request sets. `stream` and
      `interest` are NOT NULL; the other columns may hold NULL. */
  datatype Academic = Academic(
    stream: string,
    subject1: Option<string>, subject2: Option<string>, subject3: Option<string>,
    result1: Option<string>, result2: Option<string>, result3: Option<string>,
    gpa: Option<Gpa>,
    interest: string,
    recommendation: Option<string>)

  /** A row of `student_profiles`. `user_id` is NOT NULL but not UNIQUE. */
  datatype ProfileRow = ProfileRow(id: nat, userId: nat, data: Academic, createdAt: nat, updatedAt: nat)

  /** A row of `advisor_feedback`. `student_id` and `advisor_username` are NOT NULL. */
  datatype FeedbackRow = FeedbackRow(id: nat, studentId: nat, advisorUsername: string, feedback: Option<string>, feedbackDate: nat)

  /** The default of `users.role`, and the role the student listing filters on. */
  const StudentRole := "student"

  /** The account the setup script inserts or ignores. */
  const SeedUsername := "advisor"
  const SeedPassword := "admin123"
  const SeedRole := "advisor"

  // ---------------------------------------------------------------- table constraints

  ghost predicate UniqueUsernames(us: seq<UserRow>)
  {
    forall i, j :: 0 <= i < j < |us| ==> us[i].username != us[j].username
  }

  /** The constraints on `users` at clock value `now`: UNIQUE username, and AUTOINCREMENT
      ids that grow with insertion order and never exceed the table's sequence value. */
  ghost predicate UsersTable(us: seq<UserRow>, seqNo: nat, now: nat)
  {
    && UniqueUsernames(us)
    && (forall i, j :: 0 <= i < j < |us| ==> us[i].id < us[j].id)
    && (forall i :: 0 <= i < |us| ==> 0 < us[i].id <= seqNo && us[i].createdAt <= now)
  }

  /** The constraints on `student_profiles`: AUTOINCREMENT ids and timestamps no later than `now`. */
  ghost predicate ProfilesTable(ps: seq<ProfileRow>, seqNo: nat, now: nat)
  {
    && (forall i, j :: 0 <= i < j < |ps| ==> ps[i].id < ps[j].id)
    && (forall i :: 0 <= i < |ps| ==> 0 < ps[i].id <= seqNo && ps[i].createdAt <= ps[i].updatedAt <= now)
  }

  /** The constraints on `advisor_feedback`: AUTOINCREMENT ids and dates no later than `now`. */
  ghost predicate FeedbackTable(fs: seq<FeedbackRow>, seqNo: nat, now: nat)
  {
    && (forall i, j :: 0 <= i < j < |fs| ==> fs[i].id < fs[j].id)
    && (forall i :: 0 <= i < |fs| ==> 0 < fs[i].id <= seqNo && fs[i].feedbackDate <= now)
  }

  /** The invariant the recommend handler maintains on its own: one profile row per user. */
  ghost predicate OneProfilePerUser(ps: seq<ProfileRow>)
  {
    forall i, j :: 0 <= i < j < |ps| ==> ps[i].userId != ps[j].userId
  }

  /** Nothing in the declaration of `student_profiles` makes `user_id` unique: a table with
      two rows for one user meets every constraint the schema declares. */
  lemma ProfileTableAllowsTwoRowsPerUser(d: Academic)
    ensures exists ps :: ProfilesTable(ps, 2, 0) && !OneProfilePerUser(ps)
  {
    var ps := [ProfileRow(1, 7, d, 0, 0), ProfileRow(2, 7, d, 0, 0)];
    assert ProfilesTable(ps, 2, 0);
    assert ps[0].userId == ps[1].userId;
  }

  // ---------------------------------------------------------------- users queries

  predicate HasUsername(us: seq<UserRow>, name: string)
  {
    exists i :: 0 <= i < |us| && us[i].username == name
  }

  /** `SELECT id FROM users WHERE username = ?`: the first matching row's id. A NULL
      parameter matches nothing, since `username = NULL` is never true. */
  function UserIdOf(us: seq<UserRow>, name: Option<string>): (r: Option<nat>)
    ensures r.None? <==> name.None? || !HasUsername(us, name.value)
    ensures r.Some? ==> exists i :: 0 <= i < |us| && us[i].username == name.value && us[i].id == r.value
  {
    if name.None? || |us| == 0 then None
    else if us[0].username == name.value then Some(us[0].id)
    else
      var r := UserIdOf(us[1..], name);
      assert forall i :: 0 <= i < |us| - 1 ==> us[1..][i] == us[i + 1];
      r
  }

  /** Under a unique username the lookup finds the one row of that name. */
  lemma UserIdOfUnique(us: seq<UserRow>, name: string, k: nat)
    requires UniqueUsernames(us)
    requires k < |us| && us[k].username == name
    ensures UserIdOf(us, Some(name)) == Some(us[k].id)
  {
    var i :| 0 <= i < |us| && us[i].username == name && us[i].id == UserIdOf(us, Some(name)).value;
  }

  // ---------------------------------------------------------------- student_profiles queries

  predicate HasProfile(ps: seq<ProfileRow>, uid: nat)
  {
    exists i :: 0 <= i < |ps| && ps[i].userId == uid
  }

  /** The rows of `ps` whose `user_id` is `uid`, in table order. */
  function RowsOf(ps: seq<ProfileRow>, uid: nat): (r: seq<ProfileRow>)
    ensures forall k :: 0 <= k < |r| ==> r[k].userId == uid
  {
    if ps == [] then []
    else RowsOf(ps[..|ps| - 1], uid) + (if ps[|ps| - 1].userId == uid then [ps[|ps| - 1]] else [])
  }

  /** A user has profile rows exactly when the filter finds some. */
  lemma {:induction false} RowsOfEmpty(ps: seq<ProfileRow>, uid: nat)
    ensures RowsOf(ps, uid) == [] <==> !HasProfile(ps, uid)
  {
    if ps != [] {
      var init := ps[..|ps| - 1];
      RowsOfEmpty(init, uid);
      if HasProfile(init, uid) {
        var i :| 0 <= i < |init| && init[i].userId == uid;
        assert ps[i].userId == uid;
      }
      if HasProfile(ps, uid) && ps[|ps| - 1].userId != uid {
        var i :| 0 <= i < |ps| && ps[i].userId == uid;
        assert init[i].userId == uid;
      }
    }
  }

  /** Under one profile per user, the filter finds at most one row. */
  lemma {:induction false} RowsOfAtMostOne(ps: seq<ProfileRow>, uid: nat)
    requires OneProfilePerUser(ps)
    ensures |RowsOf(ps, uid)| <= 1
  {
    if ps != [] {
      var init := ps[..|ps| - 1];
      RowsOfAtMostOne(init, uid);
      if ps[|ps| - 1].userId == uid {
        assert !HasProfile(init, uid) by {
          forall i | 0 <= i < |init| ensures init[i].userId != uid { assert init[i] == ps[i]; }
        }
        RowsOfEmpty(init, uid);
      }
    }
  }

  lemma {:induction false} RowsOfAppend(ps: seq<ProfileRow>, qs: seq<ProfileRow>, uid: nat)
    ensures RowsOf(ps + qs, uid) == RowsOf(ps, uid) + RowsOf(qs, uid)
  {
    if qs == [] {
      assert ps + qs == ps;
    } else {
      assert (ps + qs)[..|ps + qs| - 1] == ps + qs[..|qs| - 1];
      RowsOfAppend(ps, qs[..|qs| - 1], uid);
    }
  }

  /** `UPDATE student_profiles SET <columns of d>, updated_at = now WHERE user_id = uid`:
      every row of that user gets the new columns and timestamp; no other row changes. */
  function UpdateWhere(ps: seq<ProfileRow>, uid: nat, d: Academic, now: nat): (r: seq<ProfileRow>)
  {
    seq(|ps|, i requires 0 <= i < |ps| => if ps[i].userId == uid then ps[i].(data := d, updatedAt := now) else ps[i])
  }

  lemma UpdateWhereInit(ps: seq<ProfileRow>, uid: nat, d: Academic, now: nat)
    requires ps != []
    ensures UpdateWhere(ps, uid, d, now)[..|ps| - 1] == UpdateWhere(ps[..|ps| - 1], uid, d, now)
  {
  }

  /** Filtering commutes with the update: the rows of user `v` after the update are the
      rows of `v` before it, updated. For `v != uid` that leaves them as they were. */
  lemma {:induction false} RowsOfUpdateWhere(ps: seq<ProfileRow>, uid: nat, d: Academic, now: nat, v: nat)
    ensures RowsOf(UpdateWhere(ps, uid, d, now), v) == UpdateWhere(RowsOf(ps, v), uid, d, now)
  {
    if ps != [] {
      var init := ps[..|ps| - 1];
      var last := ps[|ps| - 1];
      var u := UpdateWhere(ps, uid, d, now);
      UpdateWhereInit(ps, uid, d, now);
      RowsOfUpdateWhere(init, uid, d, now, v);
      var tail := if last.userId == v then [last] else [];
      assert RowsOf(ps, v) == RowsOf(init, v) + tail;
      assert UpdateWhere(RowsOf(init, v) + tail, uid, d, now)
          == UpdateWhere(RowsOf(init, v), uid, d, now) + UpdateWhere(tail, uid, d, now);
    }
  }

  /** The recommend handler's check-then-write (server.js:100-123): when the user has a
      profile row, update it; otherwise insert a new row with id `newId`. */
  function Upserted(ps: seq<ProfileRow>, uid: nat, d: Academic, newId: nat, now: nat): (r: seq<ProfileRow>)
  {
    if HasProfile(ps, uid) then UpdateWhere(ps, uid, d, now)
    else ps + [ProfileRow(newId, uid, d, now, now)]
  }

  /** The upsert leaves the rows of every other user exactly as they were. */
  lemma UpsertOnlyTouchesUser(ps: seq<ProfileRow>, uid: nat, d: Academic, newId: nat, now: nat, v: nat)
    requires v != uid
    ensures RowsOf(Upserted(ps, uid, d, newId, now), v) == RowsOf(ps, v)
  {
    if HasProfile(ps, uid) {
      RowsOfUpdateWhere(ps, uid, d, now, v);
      UpdateWhereNoMatch(RowsOf(ps, v), uid, d, now);
    } else {
      RowsOfAppend(ps, [ProfileRow(newId, uid, d, now, now)], v);
      assert RowsOf([ProfileRow(newId, uid, d, now, now)], v) == [];
    }
  }

  lemma UpdateWhereNoMatch(ps: seq<ProfileRow>, uid: nat, d: Academic, now: nat)
    requires forall k :: 0 <= k < |ps| ==> ps[k].userId != uid
    ensures UpdateWhere(ps, uid, d, now) == ps
  {
  }

  /** With at most one profile row for the user before the call, exactly one row holds
      the submitted columns afterwards: an updated row keeps its id and creation time and
      takes `now` as its update time; an inserted row has the new id and `now` for both. */
  lemma UpsertLeavesOneRow(ps: seq<ProfileRow>, uid: nat, d: Academic, newId: nat, now: nat)
    requires |RowsOf(ps, uid)| <= 1
    ensures var after := RowsOf(Upserted(ps, uid, d, newId, now), uid);
      && |after| == 1
      && after[0].data == d && after[0].updatedAt == now
      && (RowsOf(ps, uid) == [] ==> after[0] == ProfileRow(newId, uid, d, now, now))
      && (RowsOf(ps, uid) != [] ==>
            after[0].id == RowsOf(ps, uid)[0].id && after[0].createdAt == RowsOf(ps, uid)[0].createdAt)
  {
    RowsOfEmpty(ps, uid);
    if HasProfile(ps, uid) {
      RowsOfUpdateWhere(ps, uid, d, now, uid);
    } else {
      RowsOfAppend(ps, [ProfileRow(newId, uid, d, now, now)], uid);
      assert RowsOf([ProfileRow(newId, uid, d, now, now)], uid) == [ProfileRow(newId, uid, d, now, now)];
    }
  }

  /** The check-then-write keeps one profile per user. */
  lemma UpsertKeepsOnePerUser(ps: seq<ProfileRow>, uid: nat, d: Academic, newId: nat, now: nat)
    requires OneProfilePerUser(ps)
    ensures OneProfilePerUser(Upserted(ps, uid, d, newId, now))
  {
    var r := Upserted(ps, uid, d, newId, now);
    if !HasProfile(ps, uid) {
      forall i, j | 0 <= i < j < |r| ensures r[i].userId != r[j].userId {
        if j == |ps| { assert r[i] == ps[i]; }
      }
    }
  }

  /** Updating rows in place keeps the table's constraints. */
  lemma UpdateKeepsTable(ps: seq<ProfileRow>, seqNo: nat, uid: nat, d: Academic, now: nat)
    requires ProfilesTable(ps, seqNo, now)
    ensures ProfilesTable(UpdateWhere(ps, uid, d, now), seqNo, now)
  {
  }

  // ---------------------------------------------------------------- the student listing

  /** A row of the listing query (server.js:136-141). Columns of the profile side are NULL
      when a student has no profile row. */
  datatype StudentEntry = StudentEntry(
    username: string, stream: Option<string>, interest: Option<string>,
    recommendation: Option<string>, gpa: Option<Gpa>)

  function Joined(u: UserRow, p: ProfileRow): (e: StudentEntry)
  {
    StudentEntry(u.username, Some(p.data.stream), Some(p.data.interest), p.data.recommendation, p.data.gpa)
  }

  function Unmatched(u: UserRow): (e: StudentEntry)
  {
    StudentEntry(u.username, None, None, None, None)
  }

  /** The inner side of the LEFT JOIN for one user: one entry per profile row of that user. */
  function JoinedRows(u: UserRow, ps: seq<ProfileRow>): (r: seq<StudentEntry>)
    ensures |r| == |RowsOf(ps, u.id)|
  {
    if ps == [] then []
    else JoinedRows(u, ps[..|ps| - 1]) + (if ps[|ps| - 1].userId == u.id then [Joined(u, ps[|ps| - 1])] else [])
  }

  /** The LEFT JOIN for one user: its joined rows, or one row of NULLs when there are none. */
  function EntriesFor(u: UserRow, ps: seq<ProfileRow>): (r: seq<StudentEntry>)
  {
    var j := JoinedRows(u, ps);
    if j == [] then [Unmatched(u)] else j
  }

  /** `SELECT u.username, p.stream, p.interest, p.recommendation, p.gpa FROM users u
      LEFT JOIN student_profiles p ON u.id = p.user_id WHERE u.role = 'student'`,
      in the order of a nested scan of users, then profiles. */
  function Roster(us: seq<UserRow>, ps: seq<ProfileRow>): (r: seq<StudentEntry>)
  {
    if us == [] then []
    else Roster(us[..|us| - 1], ps) + (if us[|us| - 1].role == StudentRole then EntriesFor(us[|us| - 1], ps) else [])
  }

  /** The number of student accounts. */
  function StudentCount(us: seq<UserRow>): (n: nat)
  {
    if us == [] then 0
    else StudentCount(us[..|us| - 1]) + (if us[|us| - 1].role == StudentRole then 1 else 0)
  }

  lemma {:induction false} EntriesNameTheirUser(u: UserRow, ps: seq<ProfileRow>)
    ensures forall e :: e in EntriesFor(u, ps) ==> e.username == u.username
  {
    JoinedRowsNameTheirUser(u, ps);
  }

  lemma {:induction false} JoinedRowsNameTheirUser(u: UserRow, ps: seq<ProfileRow>)
    ensures forall e :: e in JoinedRows(u, ps) ==> e.username == u.username
  {
    if ps != [] {
      JoinedRowsNameTheirUser(u, ps[..|ps| - 1]);
    }
  }

  /** Every listed entry belongs to a user whose role is 'student'. */
  lemma {:induction false} RosterOnlyStudents(us: seq<UserRow>, ps: seq<ProfileRow>)
    ensures forall e :: e in Roster(us, ps) ==>
      exists k :: 0 <= k < |us| && us[k].role == StudentRole && us[k].username == e.username
  {
    if us != [] {
      var init := us[..|us| - 1];
      var last := us[|us| - 1];
      RosterOnlyStudents(init, ps);
      EntriesNameTheirUser(last, ps);
      forall e | e in Roster(us, ps)
        ensures exists k :: 0 <= k < |us| && us[k].role == StudentRole && us[k].username == e.username
      {
        if e in Roster(init, ps) {
          var k :| 0 <= k < |init| && init[k].role == StudentRole && init[k].username == e.username;
          assert us[k] == init[k];
        } else {
          assert us[|us| - 1].username == e.username;
        }
      }
    }
  }

  /** No entry carries the username of an account whose role is not 'student', such as the advisor. */
  lemma RosterExcludesOtherRoles(us: seq<UserRow>, ps: seq<ProfileRow>, k: nat)
    requires UniqueUsernames(us)
    requires k < |us| && us[k].role != StudentRole
    ensures forall e :: e in Roster(us, ps) ==> e.username != us[k].username
  {
    RosterOnlyStudents(us, ps);
    forall e | e in Roster(us, ps) ensures e.username != us[k].username {
      var m :| 0 <= m < |us| && us[m].role == StudentRole && us[m].username == e.username;
      assert m != k;
    }
  }

  /** Every student account is listed with all of its joined entries; in particular one
      without a profile row is listed once, with NULL profile columns. */
  lemma {:induction false} RosterListsEveryStudent(us: seq<UserRow>, ps: seq<ProfileRow>, k: nat)
    requires k < |us| && us[k].role == StudentRole
    ensures forall e :: e in EntriesFor(us[k], ps) ==> e in Roster(us, ps)
    ensures !HasProfile(ps, us[k].id) ==> Unmatched(us[k]) in Roster(us, ps)
  {
    var init := us[..|us| - 1];
    if k < |us| - 1 {
      RosterListsEveryStudent(init, ps, k);
    }
    RowsOfEmpty(ps, us[k].id);
  }

  /** With at most one profile row per student, the listing has exactly one entry per student. */
  lemma {:induction false} RosterSize(us: seq<UserRow>, ps: seq<ProfileRow>)
    requires forall k :: 0 <= k < |us| ==> |RowsOf(ps, us[k].id)| <= 1
    ensures |Roster(us, ps)| == StudentCount(us)
  {
    if us != [] {
      var init := us[..|us| - 1];
      assert forall k :: 0 <= k < |init| ==> init[k] == us[k];
      RosterSize(init, ps);
    }
  }

  // ---------------------------------------------------------------- advisor_feedback queries

  /** The JOIN and WHERE of server.js:158-160: feedback row `f` was written for the user named `name`. */
  ghost predicate WrittenFor(us: seq<UserRow>, f: FeedbackRow, name: Option<string>)
  {
    name.Some? && exists u :: u in us && u.id == f.studentId && u.username == name.value
  }

  /** `text` is a valid answer of the latest-feedback query (server.js:156-169): the text of
      a row for `name` with the greatest date, or '' when there is no such row. Among rows
      that share the greatest date, any one may be chosen. */
  ghost predicate IsLatestFeedback(us: seq<UserRow>, fs: seq<FeedbackRow>, name: Option<string>, text: Option<string>)
  {
    if exists i :: 0 <= i < |fs| && WrittenFor(us, fs[i], name) then
      exists i :: 0 <= i < |fs| && WrittenFor(us, fs[i], name) && text == fs[i].feedback
        && forall j :: 0 <= j < |fs| && WrittenFor(us, fs[j], name) ==> fs[j].feedbackDate <= fs[i].feedbackDate
    else
      text == Some("")
  }

  /** Under unique usernames the join selects exactly the rows whose `student_id` is the
      id the username lookup finds. */
  lemma WrittenForById(us: seq<UserRow>, name: string, uid: nat, f: FeedbackRow)
    requires UniqueUsernames(us)
    requires UserIdOf(us, Some(name)) == Some(uid)
    ensures WrittenFor(us, f, Some(name)) <==> f.studentId == uid
  {
    var k :| 0 <= k < |us| && us[k].username == name && us[k].id == uid;
    if WrittenFor(us, f, Some(name)) {
      var u :| u in us && u.id == f.studentId && u.username == name;
      var m :| 0 <= m < |us| && us[m] == u;
      UserIdOfUnique(us, name, m);
    }
    assert us[k] in us;
  }

  /** The answer of a scan for the latest row by `student_id` answers the join query. */
  lemma LatestOfStudent(us: seq<UserRow>, fs: seq<FeedbackRow>, name: string, uid: nat, best: Option<nat>)
    requires UniqueUsernames(us)
    requires UserIdOf(us, Some(name)) == Some(uid)
    requires best.None? ==> forall j :: 0 <= j < |fs| ==> fs[j].studentId != uid
    requires best.Some? ==> best.value < |fs| && fs[best.value].studentId == uid
    requires best.Some? ==> forall j :: 0 <= j < |fs| && fs[j].studentId == uid ==>
      fs[j].feedbackDate <= fs[best.value].feedbackDate
    ensures IsLatestFeedback(us, fs, Some(name), if best.None? then Some("") else fs[best.value].feedback)
  {
    forall j | 0 <= j < |fs| ensures WrittenFor(us, fs[j], Some(name)) <==> fs[j].studentId == uid {
      WrittenForById(us, name, uid, fs[j]);
    }
  }

  /** Appending a row for `name` that is later than every earlier row for `name` makes its
      text the one and only answer. */
  lemma LatestAfterLaterAppend(us: seq<UserRow>, fs: seq<FeedbackRow>, f: FeedbackRow, name: Option<string>, text: Option<string>)
    requires WrittenFor(us, f, name)
    requires forall j :: 0 <= j < |fs| && WrittenFor(us, fs[j], name) ==> fs[j].feedbackDate < f.feedbackDate
    ensures IsLatestFeedback(us, fs + [f], name, text) <==> text == f.feedback
  {
    var gs := fs + [f];
    assert gs[|fs|] == f;
    assert forall k :: 0 <= k < |fs| ==> gs[k] == fs[k];
    if IsLatestFeedback(us, gs, name, text) {
      var i :| 0 <= i < |gs| && WrittenFor(us, gs[i], name) && text == gs[i].feedback
        && forall j :: 0 <= j < |gs| && WrittenFor(us, gs[j], name) ==> gs[j].feedbackDate <= gs[i].feedbackDate;
      assert gs[|fs|].feedbackDate <= gs[i].feedbackDate;
      assert i == |fs|;
    }
    if text == f.feedback {
      forall j | 0 <= j < |gs| && WrittenFor(us, gs[j], name) ensures gs[j].feedbackDate <= gs[|fs|].feedbackDate {
        if j < |fs| { assert gs[j] == fs[j]; }
      }
    }
  }

  /** Appending a row written for someone else does not change the answers for `name`. */
  lemma LatestIgnoresOtherStudents(us: seq<UserRow>, fs: seq<FeedbackRow>, f: FeedbackRow, name: Option<string>, text: Option<string>)
    requires !WrittenFor(us, f, name)
    ensures IsLatestFeedback(us, fs + [f], name, text) <==> IsLatestFeedback(us, fs, name, text)
  {
    var gs := fs + [f];
    assert forall i :: 0 <= i < |fs| ==> gs[i] == fs[i];
    if exists i :: 0 <= i < |gs| && WrittenFor(us, gs[i], name) {
      var i :| 0 <= i < |gs| && WrittenFor(us, gs[i], name);
      assert i < |fs|;
    }
  }
}
