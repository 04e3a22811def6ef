/** The roster view of the main page: for a team and a day, every employee of
    the team is listed as working from home, not working, or working. Only
    approved rows of that employee and day count; a WFH approval wins over a
    leave or floating one. */
module Roster {
  import opened Records
  import opened Users
  import opened Approvals

  /** The three frames `wfh`, `not_working` and `working`. */
  datatype Bucket = WorkingFromHome | NotWorking | Working

  /** An approved WFH row for this member and day exists. */
  predicate ApprovedWfh(rows: seq<Record>, name: string, date: int) {
    exists i | 0 <= i < |rows| ::
      OnDay(rows[i], name, date) && rows[i].status == WFH && rows[i].approval == Approved
  }

  /** An approved Leave or Floating row for this member and day exists. */
  predicate ApprovedAbsence(rows: seq<Record>, name: string, date: int) {
    exists i | 0 <= i < |rows| ::
      OnDay(rows[i], name, date) && (rows[i].status == Leave || rows[i].status == Floating) &&
      rows[i].approval == Approved
  }

  /** The frame the loop appends the member to. */
  function Classify(rows: seq<Record>, name: string, date: int): Bucket {
    if ApprovedWfh(rows, name, date) then WorkingFromHome
    else if ApprovedAbsence(rows, name, date) then NotWorking
    else Working
  }

  /** The users filter `(team == team) & (role == 'Employee')`, in table order. */
  function TeamEmployees(users: seq<User>, team: string): (r: seq<User>)
    ensures forall u :: u in r <==> u in users && u.role == Employee && u.team == team
  {
    if users == [] then []
    else
      var last := users[|users| - 1];
      assert users == users[..|users| - 1] + [last];
      TeamEmployees(users[..|users| - 1], team) +
      (if last.role == Employee && last.team == team then [last] else [])
  }

  /** The `username` column of a users frame. */
  function Names(members: seq<User>): seq<string> {
    if members == [] then [] else Names(members[..|members| - 1]) + [members[|members| - 1].username]
  }

  /** The names the loop puts in frame `b`, in the members' order. */
  function BucketOf(members: seq<User>, rows: seq<Record>, date: int, b: Bucket): seq<string> {
    if members == [] then []
    else
      var n := |members| - 1;
      BucketOf(members[..n], rows, date, b) +
      (if Classify(rows, members[n].username, date) == b then [members[n].username] else [])
  }

  /** One more member: each frame grows by that member's name exactly when
      `Classify` picks it. */
  lemma BucketOfNext(members: seq<User>, rows: seq<Record>, date: int, k: nat)
    requires k < |members|
    ensures forall b: Bucket ::
      (BucketOf(members[..k + 1], rows, date, b) ==
       BucketOf(members[..k], rows, date, b) +
       (if Classify(rows, members[k].username, date) == b then [members[k].username] else []))
  {
    assert members[..k + 1][..k] == members[..k];
  }

  /** A name is in frame `b` exactly when it is a member's and `Classify` picks `b` for it. */
  lemma {:induction false} BucketMembers(members: seq<User>, rows: seq<Record>, date: int, b: Bucket)
    ensures forall name :: name in BucketOf(members, rows, date, b) <==>
      (exists k | 0 <= k < |members| :: members[k].username == name) && Classify(rows, name, date) == b
  {
    if members != [] {
      var n := |members| - 1;
      BucketMembers(members[..n], rows, date, b);
      assert forall k | 0 <= k < n :: members[..n][k] == members[k];
    }
  }

  /** The three frames together hold every member exactly as often as the
      members list does. */
  lemma {:induction false} BucketsPartition(members: seq<User>, rows: seq<Record>, date: int)
    ensures multiset(BucketOf(members, rows, date, WorkingFromHome) + BucketOf(members, rows, date, NotWorking) +
                     BucketOf(members, rows, date, Working))
         == multiset(Names(members))
  {
    if members != [] {
      var n := |members| - 1;
      var m := members[..n];
      BucketsPartition(m, rows, date);
      assert members[..n + 1] == members;
      BucketOfNext(members, rows, date, n);
      AddToOneFrame(BucketOf(m, rows, date, WorkingFromHome), BucketOf(m, rows, date, NotWorking),
                    BucketOf(m, rows, date, Working), Names(m), members[n].username,
                    Classify(rows, members[n].username, date));
    }
  }

  /** Adding a name to the frame `c` adds it once to the three frames together. */
  lemma AddToOneFrame(w: seq<string>, nw: seq<string>, k: seq<string>, names: seq<string>, x: string, c: Bucket)
    requires multiset(w + nw + k) == multiset(names)
    ensures multiset((w + if c == WorkingFromHome then [x] else []) + (nw + if c == NotWorking then [x] else []) +
                     (k + if c == Working then [x] else []))
         == multiset(names + [x])
  {
    assert multiset(w + nw + k) == multiset(w) + multiset(nw) + multiset(k);
    var w', nw', k' := (w + if c == WorkingFromHome then [x] else []), (nw + if c == NotWorking then [x] else []),
                        (k + if c == Working then [x] else []);
    assert multiset(w' + nw' + k') == multiset(w') + multiset(nw') + multiset(k');
  }

  /** `name` belongs to an employee of `team`. */
  predicate IsTeamEmployee(users: seq<User>, team: string, name: string) {
    exists u | u in users :: u.username == name && u.role == Employee && u.team == team
  }

  /** Over a team's employees, frame `b` lists exactly the employees of the
      team for whom `Classify` picks `b`. */
  lemma TeamBucket(users: seq<User>, rows: seq<Record>, team: string, date: int, b: Bucket)
    ensures forall u | u in users && u.role == Employee && u.team == team ::
      u.username in BucketOf(TeamEmployees(users, team), rows, date, b) <==> Classify(rows, u.username, date) == b
    ensures forall name | name in BucketOf(TeamEmployees(users, team), rows, date, b) ::
      IsTeamEmployee(users, team, name)
  {
    var members := TeamEmployees(users, team);
    BucketMembers(members, rows, date, b);
    forall u | u in users && u.role == Employee && u.team == team
      ensures exists j | 0 <= j < |members| :: members[j].username == u.username
    {
      assert u in members;
    }
    forall name | name in BucketOf(members, rows, date, b) ensures IsTeamEmployee(users, team, name) {
      var j :| 0 <= j < |members| && members[j].username == name;
      assert members[j] in members;
    }
  }

  /** The roster loop: each team employee goes to the frame `Classify` picks,
      so the three frames partition the team's employees. */
  method RosterFor(users: seq<User>, rows: seq<Record>, team: string, date: int)
    returns (wfh: seq<string>, notWorking: seq<string>, working: seq<string>)
    ensures wfh == BucketOf(TeamEmployees(users, team), rows, date, WorkingFromHome)
    ensures notWorking == BucketOf(TeamEmployees(users, team), rows, date, NotWorking)
    ensures working == BucketOf(TeamEmployees(users, team), rows, date, Working)
    ensures multiset(wfh + notWorking + working) == multiset(Names(TeamEmployees(users, team)))
    ensures forall u | u in users && u.role == Employee && u.team == team ::
      u.username in wfh <==> Classify(rows, u.username, date) == WorkingFromHome
    ensures forall u | u in users && u.role == Employee && u.team == team ::
      u.username in notWorking <==> Classify(rows, u.username, date) == NotWorking
    ensures forall u | u in users && u.role == Employee && u.team == team ::
      u.username in working <==> Classify(rows, u.username, date) == Working
    ensures forall name | name in wfh :: IsTeamEmployee(users, team, name)
    ensures forall name | name in notWorking :: IsTeamEmployee(users, team, name)
    ensures forall name | name in working :: IsTeamEmployee(users, team, name)
  {
    var members := TeamEmployees(users, team);
    wfh, notWorking, working := [], [], [];
    var k := 0;
    while k < |members|
      invariant 0 <= k <= |members|
      invariant wfh == BucketOf(members[..k], rows, date, WorkingFromHome)
      invariant notWorking == BucketOf(members[..k], rows, date, NotWorking)
      invariant working == BucketOf(members[..k], rows, date, Working)
    {
      var name := members[k].username;
      BucketOfNext(members, rows, date, k);
      if ApprovedWfh(rows, name, date) {
        wfh := wfh + [name];
      } else if ApprovedAbsence(rows, name, date) {
        notWorking := notWorking + [name];
      } else {
        working := working + [name];
      }
      k := k + 1;
    }
    assert members[..k] == members;
    BucketsPartition(members, rows, date);
    TeamBucket(users, rows, team, date, WorkingFromHome);
    TeamBucket(users, rows, team, date, NotWorking);
    TeamBucket(users, rows, team, date, Working);
  }

  /** Only the approved rows of the member and day decide the frame: pending and
      rejected rows, and everybody else's rows, are transparent. */
  lemma OnlyApprovedRowsCount(a: seq<Record>, b: seq<Record>, name: string, date: int)
    requires forall x | OnDay(x, name, date) && x.approval == Approved :: x in a <==> x in b
    ensures Classify(a, name, date) == Classify(b, name, date)
  {
    if ApprovedWfh(a, name, date) {
      var i :| 0 <= i < |a| && OnDay(a[i], name, date) && a[i].status == WFH && a[i].approval == Approved;
      assert a[i] in b;
    }
    if ApprovedWfh(b, name, date) {
      var i :| 0 <= i < |b| && OnDay(b[i], name, date) && b[i].status == WFH && b[i].approval == Approved;
      assert b[i] in a;
    }
    if ApprovedAbsence(a, name, date) {
      var i :| 0 <= i < |a| && OnDay(a[i], name, date) && (a[i].status == Leave || a[i].status == Floating) &&
               a[i].approval == Approved;
      assert a[i] in b;
    }
    if ApprovedAbsence(b, name, date) {
      var i :| 0 <= i < |b| && OnDay(b[i], name, date) && (b[i].status == Leave || b[i].status == Floating) &&
               b[i].approval == Approved;
      assert b[i] in a;
    }
  }

  /** With at most one row per member and day, deciding a member's row fixes
      where the roster lists them that day: approved WFH at home, approved leave
      or floating not working, rejected working. */
  lemma DecisionDecidesRoster(rows: seq<Record>, i: nat, decision: Approval)
    requires i < |rows| && OnePerDay(rows)
    ensures Classify(Resolved(rows, [i], decision), rows[i].name, rows[i].date) ==
      if decision != Approved then Working
      else if rows[i].status == WFH then WorkingFromHome
      else NotWorking
  {
    var r := Resolved(rows, [i], decision);
    ResolvedPointwise(rows, [i], decision);
    var name, date := rows[i].name, rows[i].date;
    assert i in [i];
    assert forall j | 0 <= j < |r| && j != i :: !OnDay(r[j], name, date) by {
      forall j | 0 <= j < |r| && j != i ensures !OnDay(r[j], name, date) {
        assert r[j] == rows[j];
        if j < i {
          assert !OnDay(rows[i], rows[j].name, rows[j].date);
        } else {
          assert !OnDay(rows[j], rows[i].name, rows[i].date);
        }
      }
    }
    assert OnDay(r[i], name, date) && r[i].status == rows[i].status && r[i].approval == decision;
    if decision == Approved && rows[i].status == WFH {
      assert ApprovedWfh(r, name, date);
    } else if decision == Approved {
      assert !ApprovedWfh(r, name, date);
      assert ApprovedAbsence(r, name, date);
    } else {
      assert !ApprovedWfh(r, name, date);
      assert !ApprovedAbsence(r, name, date);
    }
  }
}
