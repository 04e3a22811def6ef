/** The availability table of the team-availability app: one row per member and
    day, carrying the declared status, the manager's decision and the number of
    decisions the member has not been shown yet. The masks the app applies to the
    table are the predicates and filters of this module. */
module Records {

  /** The `Status` column: what a member declares for a day. */
  datatype Status = Floating | Leave | WFH

  /** The `Approval Status` column. */
  datatype Approval = Pending | Approved | Rejected

  /** A row `(Name, Status, Date, Approval Status, Team, MSGCount)`. The day is a
      day number; the table's ISO date strings compare in the same order. */
  datatype Record = Record(name: string, status: Status, date: int, approval: Approval,
                           team: string, msgCount: nat)

  /** The row belongs to `owner` and is for day `date`. */
  predicate OnDay(r: Record, owner: string, date: int) {
    r.name == owner && r.date == date
  }

  /** `check_duplicate_record`: a row with this owner, status and day exists. */
  predicate IsDuplicate(rows: seq<Record>, owner: string, status: Status, date: int) {
    exists i | 0 <= i < |rows| :: OnDay(rows[i], owner, date) && rows[i].status == status
  }

  /** The mask `(Name == owner) & (Date == date)` selects at least one row. */
  predicate HasDay(rows: seq<Record>, owner: string, date: int) {
    exists i | 0 <= i < |rows| :: OnDay(rows[i], owner, date)
  }

  /** An identical declaration is also a row for that member and day. */
  lemma DuplicateHasDay(rows: seq<Record>, owner: string, status: Status, date: int)
    ensures IsDuplicate(rows, owner, status, date) ==> HasDay(rows, owner, date)
  {
  }

  /** At most one row per member and day. */
  ghost predicate OnePerDay(rows: seq<Record>) {
    forall i, j | 0 <= i < j < |rows| :: !OnDay(rows[j], rows[i].name, rows[i].date)
  }

  /** A change that keeps every row's member and day in its place keeps
      "at most one row per member and day". */
  lemma SameKeysKeepOnePerDay(a: seq<Record>, b: seq<Record>)
    requires |a| == |b|
    requires forall i | 0 <= i < |a| :: a[i].name == b[i].name && a[i].date == b[i].date
    requires OnePerDay(a)
    ensures OnePerDay(b)
  {
    forall i, j | 0 <= i < j < |b| ensures !OnDay(b[j], b[i].name, b[i].date) {
      assert !OnDay(a[j], a[i].name, a[i].date);
    }
  }

  /** The table a withdrawal writes back: every row except those of `owner` on
      `date`, in their original order. */
  function Without(rows: seq<Record>, owner: string, date: int): (r: seq<Record>)
    ensures forall x :: x in r <==> x in rows && !OnDay(x, owner, date)
    ensures !HasDay(r, owner, date)
    ensures |r| <= |rows|
    ensures |r| == |rows| <==> !HasDay(rows, owner, date)
  {
    if rows == [] then []
    else
      var rest := Without(rows[1..], owner, date);
      assert HasDay(rows, owner, date) <==> OnDay(rows[0], owner, date) || HasDay(rows[1..], owner, date) by {
        if HasDay(rows[1..], owner, date) {
          var k :| 0 <= k < |rows[1..]| && OnDay(rows[1..][k], owner, date);
          assert OnDay(rows[k + 1], owner, date);
        }
        if HasDay(rows, owner, date) && !OnDay(rows[0], owner, date) {
          var k :| 0 <= k < |rows| && OnDay(rows[k], owner, date);
          assert OnDay(rows[1..][k - 1], owner, date);
        }
      }
      if OnDay(rows[0], owner, date) then rest else [rows[0]] + rest
  }

  /** When nothing matches, the table is written back unchanged. */
  lemma {:induction false} WithoutUnmatched(rows: seq<Record>, owner: string, date: int)
    requires !HasDay(rows, owner, date)
    ensures Without(rows, owner, date) == rows
  {
    if rows != [] {
      assert !OnDay(rows[0], owner, date);
      forall k | 0 <= k < |rows[1..]| ensures !OnDay(rows[1..][k], owner, date) {
        assert rows[1..][k] == rows[k + 1];
      }
      WithoutUnmatched(rows[1..], owner, date);
    }
  }

  /** Removal works piece by piece, so the surviving rows keep their order. */
  lemma {:induction false} WithoutConcat(a: seq<Record>, b: seq<Record>, owner: string, date: int)
    ensures Without(a + b, owner, date) == Without(a, owner, date) + Without(b, owner, date)
  {
    if a == [] {
      assert a + b == b;
    } else {
      assert (a + b)[1..] == a[1..] + b;
      WithoutConcat(a[1..], b, owner, date);
    }
  }

  /** Removing rows cannot create two rows for the same member and day. */
  lemma {:induction false} WithoutKeepsOnePerDay(rows: seq<Record>, owner: string, date: int)
    requires OnePerDay(rows)
    ensures OnePerDay(Without(rows, owner, date))
  {
    if rows != [] {
      OnePerDaySplit(rows);
      WithoutKeepsOnePerDay(rows[1..], owner, date);
      if !OnDay(rows[0], owner, date) {
        OnePerDayCons(rows[0], Without(rows[1..], owner, date));
      }
    }
  }

  /** The first row of a table with one row per member and day meets none of
      the others' member and day, and the rest is such a table too. */
  lemma OnePerDaySplit(rows: seq<Record>)
    requires rows != [] && OnePerDay(rows)
    ensures forall y | y in rows[1..] :: !OnDay(y, rows[0].name, rows[0].date)
    ensures OnePerDay(rows[1..])
  {
    forall y | y in rows[1..] ensures !OnDay(y, rows[0].name, rows[0].date) {
      var k :| 0 <= k < |rows[1..]| && rows[1..][k] == y;
      assert rows[k + 1] == y;
    }
    forall i, j | 0 <= i < j < |rows[1..]|
      ensures !OnDay(rows[1..][j], rows[1..][i].name, rows[1..][i].date)
    {
      assert rows[1..][i] == rows[i + 1] && rows[1..][j] == rows[j + 1];
    }
  }

  /** Putting a row in front of such a table keeps it one per member and day
      when no row of the table has the new row's member and day. */
  lemma OnePerDayCons(x: Record, rest: seq<Record>)
    requires OnePerDay(rest)
    requires forall y | y in rest :: !OnDay(y, x.name, x.date)
    ensures OnePerDay([x] + rest)
  {
    var r := [x] + rest;
    forall i, j | 0 <= i < j < |r| ensures !OnDay(r[j], r[i].name, r[i].date) {
      if i == 0 {
        assert r[j] == rest[j - 1] && r[j] in rest;
      } else {
        assert r[i] == rest[i - 1] && r[j] == rest[j - 1];
      }
    }
  }

  /** A row the member has to be told about: theirs, with unread decisions. */
  predicate IsNotification(r: Record, owner: string) {
    r.name == owner && r.msgCount > 0
  }

  /** The notifications frame of `disp_notifications`, in table order. */
  function Notifications(rows: seq<Record>, owner: string): (r: seq<Record>)
    ensures forall x :: x in r <==> x in rows && IsNotification(x, owner)
  {
    if rows == [] then []
    else
      var last := rows[|rows| - 1];
      assert rows == rows[..|rows| - 1] + [last];
      Notifications(rows[..|rows| - 1], owner) + (if IsNotification(last, owner) then [last] else [])
  }

  /** A table without unread rows of `owner` has no notifications for them. */
  lemma NoNotifications(rows: seq<Record>, owner: string)
    requires forall i | 0 <= i < |rows| :: !IsNotification(rows[i], owner)
    ensures Notifications(rows, owner) == []
  {
  }

  /** A row the manager's dashboard lists: undecided, and not in the past. */
  predicate IsPendingRequest(r: Record, today: int) {
    r.approval == Pending && r.date >= today
  }

  /** The row labels the dashboard's filter keeps, in table order. */
  function PendingRequests(rows: seq<Record>, today: int): (r: seq<nat>)
    ensures forall i: nat :: i in r <==> i < |rows| && IsPendingRequest(rows[i], today)
    ensures forall j, k | 0 <= j < k < |r| :: r[j] < r[k]
  {
    if rows == [] then []
    else
      var n := |rows| - 1;
      var front := PendingRequests(rows[..n], today);
      assert forall j | 0 <= j < |front| :: front[j] in front && front[j] < n;
      front + (if IsPendingRequest(rows[n], today) then [n] else [])
  }
}
