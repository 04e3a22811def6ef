/** The availability table as the app holds it between a read and a write of
    `availability.csv`: a table of rows that the user's and the manager's
    actions update in place. */
module Store {
  import opened Records
  import opened Declaring
  import opened Approvals

  /** What "Set Availability" reports. */
  datatype DeclareResult = RangeError | Declared(days: seq<DayOutcome>)

  /** What "Delete Availability" reports. */
  datatype WithdrawResult = Withdrawn | NotFound

  class AvailabilityTable {
    var rows: seq<Record>

    /** The empty table `read_availability` starts from when no file exists. */
    constructor ()
      ensures rows == []
      ensures OnePerDay(rows)
    {
      rows := [];
    }

    /** Declare `status` for every day from `start` to `end`. */
    method Declare(owner: string, status: Status, start: int, end: int, team: string)
      returns (res: DeclareResult)
      modifies this
      ensures start > end ==> res == RangeError && rows == old(rows)
      ensures start <= end ==>
        var batch := DeclareDays(old(rows), owner, status, team, start, end - start + 1);
        res == Declared(batch.outcomes) && rows == batch.rows
      ensures start <= end ==> |res.days| == end - start + 1
      ensures forall d | start <= d <= end :: IsDuplicate(rows, owner, status, d)
      ensures OnePerDay(old(rows)) ==> OnePerDay(rows)
    {
      if start > end {
        return RangeError;
      }
      var days: seq<DayOutcome> := [];
      var d := start;
      while d <= end
        invariant start <= d <= end + 1
        invariant DeclareDays(old(rows), owner, status, team, start, d - start) == Batch(rows, days)
      {
        var rec := NewRecord(owner, status, d, team);
        if IsDuplicate(rows, owner, status, d) {
          days := days + [Duplicate];
        } else if HasDay(rows, owner, d) {
          rows := Overwrite(rows, owner, d, rec);
          days := days + [Replaced];
        } else {
          rows := rows + [rec];
          days := days + [Added];
        }
        d := d + 1;
      }
      assert d - start == end - start + 1;
      assert DeclareDays(old(rows), owner, status, team, start, end - start + 1) == Batch(rows, days);
      res := Declared(days);
      DeclaredTable(old(rows), owner, status, team, start, end - start + 1, rows);
    }

    /** Withdraw every row of `owner` on `date`. */
    method Withdraw(owner: string, date: int) returns (res: WithdrawResult)
      modifies this
      ensures !HasDay(old(rows), owner, date) ==> res == NotFound && rows == old(rows)
      ensures HasDay(old(rows), owner, date) ==> res == Withdrawn && rows == Without(old(rows), owner, date)
      ensures !HasDay(rows, owner, date)
      ensures OnePerDay(old(rows)) ==> OnePerDay(rows)
    {
      if !HasDay(rows, owner, date) {
        return NotFound;
      }
      rows := Without(rows, owner, date);
      res := Withdrawn;
      if OnePerDay(old(rows)) {
        WithoutKeepsOnePerDay(old(rows), owner, date);
      }
    }

    /** `update_approval_status`: decide each listed row. */
    method Resolve(indices: seq<nat>, decision: Approval)
      requires forall i | i in indices :: i < |rows|
      modifies this
      ensures rows == Resolved(old(rows), indices, decision)
      ensures |rows| == |old(rows)|
      ensures forall i | 0 <= i < |rows| ::
        rows[i] == if i in indices
                   then old(rows)[i].(approval := decision, msgCount := old(rows)[i].msgCount + multiset(indices)[i])
                   else old(rows)[i]
      ensures OnePerDay(old(rows)) ==> OnePerDay(rows)
    {
      var table := rows;
      var rest: seq<nat> := indices;
      while rest != []
        invariant rows == old(rows) && |table| == |rows|
        invariant forall i | i in rest :: i < |table|
        invariant Resolved(rows, indices, decision) == Resolved(table, rest, decision)
        decreases |rest|
      {
        ResolvedStep(table, rest, decision);
        var i := rest[0];
        table := table[i := Decide(table[i], decision)];
        rest := rest[1..];
      }
      ResolvedPointwise(rows, indices, decision);
      if OnePerDay(rows) {
        SameKeysKeepOnePerDay(rows, table);
      }
      rows := table;
    }

    /** `disp_notifications`: show the owner's rows with unread decisions, then
        mark them read. */
    method DrainNotifications(owner: string) returns (shown: seq<Record>)
      modifies this
      ensures shown == Notifications(old(rows), owner)
      ensures |rows| == |old(rows)|
      ensures forall i | 0 <= i < |rows| ::
        rows[i] == if IsNotification(old(rows)[i], owner) then old(rows)[i].(msgCount := 0) else old(rows)[i]
      ensures Notifications(rows, owner) == []
      ensures OnePerDay(old(rows)) ==> OnePerDay(rows)
    {
      var table := rows;
      shown := [];
      var i := 0;
      while i < |table|
        invariant rows == old(rows) && 0 <= i <= |table| == |rows|
        invariant forall j | 0 <= j < i ::
          table[j] == if IsNotification(rows[j], owner) then rows[j].(msgCount := 0) else rows[j]
        invariant forall j | i <= j < |table| :: table[j] == rows[j]
        invariant shown == Notifications(rows[..i], owner)
      {
        assert rows[..i + 1][..i] == rows[..i];
        if IsNotification(table[i], owner) {
          shown := shown + [table[i]];
          table := table[i := table[i].(msgCount := 0)];
        }
        i := i + 1;
      }
      assert rows[..i] == rows;
      NoNotifications(table, owner);
      if OnePerDay(rows) {
        SameKeysKeepOnePerDay(rows, table);
      }
      rows := table;
    }
  }
}
