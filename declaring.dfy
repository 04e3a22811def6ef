/** Declaring a status for a range of days (the "Set Availability" branch of
    `set_availability`). Each day of the range is handled on its own: an
    identical declaration is skipped, a different one for the same day is
    overwritten in place by a fresh request, and an uncovered day gets a fresh
    request appended. `DeclareDays` is the table the day-by-day loop produces;
    `Revised` and `Appended` state the same table without iterating over days. */
module Declaring {
  import opened Records

  /** What a declaration did with one day of its range. */
  datatype DayOutcome = Duplicate | Replaced | Added

  datatype DayStep = DayStep(rows: seq<Record>, outcome: DayOutcome)

  datatype Batch = Batch(rows: seq<Record>, outcomes: seq<DayOutcome>)

  /** The row written for a declared day: undecided, nothing to notify. */
  function NewRecord(owner: string, status: Status, date: int, team: string): Record {
    Record(owner, status, date, Pending, team, 0)
  }

  /** `availability.loc[mask] = new_record`: every row of `owner` on `date`
      becomes `rec`, in place. */
  function Overwrite(rows: seq<Record>, owner: string, date: int, rec: Record): seq<Record> {
    seq(|rows|, i requires 0 <= i < |rows| => if OnDay(rows[i], owner, date) then rec else rows[i])
  }

  /** Which of the three branches a day takes against the table `rows`. */
  function Outcome(rows: seq<Record>, owner: string, status: Status, date: int): DayOutcome {
    if IsDuplicate(rows, owner, status, date) then Duplicate
    else if HasDay(rows, owner, date) then Replaced
    else Added
  }

  /** One iteration of the declaration loop, for day `date`. */
  function DeclareDay(rows: seq<Record>, owner: string, status: Status, team: string, date: int): DayStep {
    var rec := NewRecord(owner, status, date, team);
    match Outcome(rows, owner, status, date)
    case Duplicate => DayStep(rows, Duplicate)
    case Replaced => DayStep(Overwrite(rows, owner, date, rec), Replaced)
    case Added => DayStep(rows + [rec], Added)
  }

  /** The first `n` iterations of the loop: days `start` to `start + n - 1`. */
  function DeclareDays(rows: seq<Record>, owner: string, status: Status, team: string,
                       start: int, n: nat): (b: Batch)
    ensures |b.outcomes| == n
    decreases n
  {
    if n == 0 then Batch(rows, [])
    else
      var prev := DeclareDays(rows, owner, status, team, start, n - 1);
      var step := DeclareDay(prev.rows, owner, status, team, start + n - 1);
      Batch(step.rows, prev.outcomes + [step.outcome])
  }

  // ---------------------------------------------------------------------------
  // The declared table stated without iterating over the days
  // ---------------------------------------------------------------------------

  /** The row `x` of the original table `rows` ends up overwritten by a
      declaration of days [start, start + n): it is the owner's, for a day of the
      range on which the owner had no identical declaration. */
  predicate Replaces(rows: seq<Record>, x: Record, owner: string, status: Status, start: int, n: int) {
    x.name == owner && start <= x.date < start + n && !IsDuplicate(rows, owner, status, x.date)
  }

  /** The original rows, each in its place, with the overwritten ones replaced. */
  function Revised(rows: seq<Record>, owner: string, status: Status, team: string,
                   start: int, n: int): seq<Record> {
    seq(|rows|, i requires 0 <= i < |rows| =>
      if Replaces(rows, rows[i], owner, status, start, n)
      then NewRecord(owner, status, rows[i].date, team) else rows[i])
  }

  /** The fresh rows for the days of the range the owner had no row on, in day order. */
  function Appended(rows: seq<Record>, owner: string, status: Status, team: string,
                    start: int, n: nat): seq<Record>
    decreases n
  {
    if n == 0 then []
    else
      Appended(rows, owner, status, team, start, n - 1) +
      (if HasDay(rows, owner, start + n - 1) then [] else [NewRecord(owner, status, start + n - 1, team)])
  }

  lemma {:induction false} AppendedShape(rows: seq<Record>, owner: string, status: Status, team: string,
                                         start: int, n: nat)
    ensures forall x | x in Appended(rows, owner, status, team, start, n) ::
      x == NewRecord(owner, status, x.date, team) && start <= x.date < start + n && !HasDay(rows, owner, x.date)
  {
    if n > 0 {
      AppendedShape(rows, owner, status, team, start, n - 1);
    }
  }

  lemma {:induction false} AppendedHas(rows: seq<Record>, owner: string, status: Status, team: string,
                                       start: int, n: nat, d: int)
    requires start <= d < start + n && !HasDay(rows, owner, d)
    ensures NewRecord(owner, status, d, team) in Appended(rows, owner, status, team, start, n)
  {
    if d < start + n - 1 {
      AppendedHas(rows, owner, status, team, start, n - 1, d);
    }
  }

  /** Outside the owner's non-duplicate days of the range, the closed form keeps
      exactly the original rows of every member and day. */
  lemma ClosedFrame(rows: seq<Record>, owner: string, status: Status, team: string,
                    start: int, n: nat, name: string, d: int)
    requires !(name == owner && start <= d < start + n && !IsDuplicate(rows, owner, status, d))
    ensures forall x | OnDay(x, name, d) ::
      x in Revised(rows, owner, status, team, start, n) + Appended(rows, owner, status, team, start, n) <==> x in rows
  {
    var rev := Revised(rows, owner, status, team, start, n);
    var app := Appended(rows, owner, status, team, start, n);
    AppendedShape(rows, owner, status, team, start, n);
    forall x | OnDay(x, name, d)
      ensures x in rev + app <==> x in rows
    {
      if x in app {
        DuplicateHasDay(rows, owner, status, d);
      }
      if x in rev {
        var i :| 0 <= i < |rev| && rev[i] == x;
      }
      if x in rows {
        var i :| 0 <= i < |rows| && rows[i] == x;
        assert rev[i] == x;
      }
    }
  }

  /** Two tables with the same rows for `owner` on `d` send day `d` down the same branch. */
  lemma SameGroupSameOutcome(a: seq<Record>, b: seq<Record>, owner: string, status: Status, d: int)
    requires forall x | OnDay(x, owner, d) :: x in a <==> x in b
    ensures Outcome(a, owner, status, d) == Outcome(b, owner, status, d)
  {
    if IsDuplicate(a, owner, status, d) {
      var i :| 0 <= i < |a| && OnDay(a[i], owner, d) && a[i].status == status;
      assert a[i] in b;
    }
    if IsDuplicate(b, owner, status, d) {
      var i :| 0 <= i < |b| && OnDay(b[i], owner, d) && b[i].status == status;
      assert b[i] in a;
    }
    if HasDay(a, owner, d) {
      var i :| 0 <= i < |a| && OnDay(a[i], owner, d);
      assert a[i] in b;
    }
    if HasDay(b, owner, d) {
      var i :| 0 <= i < |b| && OnDay(b[i], owner, d);
      assert b[i] in a;
    }
  }

  /** The day-by-day loop produces the closed form: the original rows in
      place, the owner's non-duplicate days of the range overwritten, then one
      fresh row per uncovered day. */
  lemma {:induction false} DeclareClosedForm(rows: seq<Record>, owner: string, status: Status, team: string,
                                             start: int, n: nat)
    ensures DeclareDays(rows, owner, status, team, start, n).rows ==
            Revised(rows, owner, status, team, start, n) + Appended(rows, owner, status, team, start, n)
  {
    if n == 0 {
      assert Revised(rows, owner, status, team, start, 0) == rows;
    } else {
      var prev := DeclareDays(rows, owner, status, team, start, n - 1);
      DeclareClosedForm(rows, owner, status, team, start, n - 1);
      ClosedStep(rows, owner, status, team, start, n, prev.rows);
    }
  }

  /** One more day, starting from the closed form of the days before it. */
  lemma ClosedStep(rows: seq<Record>, owner: string, status: Status, team: string,
                   start: int, n: nat, prev: seq<Record>)
    requires n > 0
    requires prev == Revised(rows, owner, status, team, start, n - 1) + Appended(rows, owner, status, team, start, n - 1)
    ensures DeclareDay(prev, owner, status, team, start + n - 1).rows ==
            Revised(rows, owner, status, team, start, n) + Appended(rows, owner, status, team, start, n)
  {
    var d := start + n - 1;
    ClosedFrame(rows, owner, status, team, start, n - 1, owner, d);
    SameGroupSameOutcome(prev, rows, owner, status, d);
    match Outcome(rows, owner, status, d)
    case Duplicate => ClosedStepDuplicate(rows, owner, status, team, start, n);
    case Replaced => ClosedStepReplaced(rows, owner, status, team, start, n);
    case Added => ClosedStepAdded(rows, owner, status, team, start, n);
  }

  /** Closed-form step for a day the owner already declared identically. */
  lemma ClosedStepDuplicate(rows: seq<Record>, owner: string, status: Status, team: string,
                            start: int, n: nat)
    requires n > 0 && Outcome(rows, owner, status, start + n - 1) == Duplicate
    ensures Revised(rows, owner, status, team, start, n) == Revised(rows, owner, status, team, start, n - 1)
    ensures Appended(rows, owner, status, team, start, n) == Appended(rows, owner, status, team, start, n - 1)
  {
    DuplicateHasDay(rows, owner, status, start + n - 1);
  }

  /** Closed-form step for a day the owner holds with another status. */
  lemma ClosedStepReplaced(rows: seq<Record>, owner: string, status: Status, team: string,
                           start: int, n: nat)
    requires n > 0 && Outcome(rows, owner, status, start + n - 1) == Replaced
    ensures var d := start + n - 1;
      Overwrite(Revised(rows, owner, status, team, start, n - 1) + Appended(rows, owner, status, team, start, n - 1),
                owner, d, NewRecord(owner, status, d, team))
      == Revised(rows, owner, status, team, start, n) + Appended(rows, owner, status, team, start, n)
  {
    var d := start + n - 1;
    var rev0 := Revised(rows, owner, status, team, start, n - 1);
    var app0 := Appended(rows, owner, status, team, start, n - 1);
    var rev := Revised(rows, owner, status, team, start, n);
    var app := Appended(rows, owner, status, team, start, n);
    var prev := rev0 + app0;
    var ov := Overwrite(prev, owner, d, NewRecord(owner, status, d, team));
    AppendedShape(rows, owner, status, team, start, n - 1);
    assert app == app0;
    forall i | 0 <= i < |prev|
      ensures ov[i] == (rev + app)[i]
    {
      if i < |rows| {
        assert prev[i] == rev0[i];
      } else {
        assert prev[i] == app0[i - |rows|];
        assert prev[i] in app0;
      }
    }
  }

  /** Closed-form step for a day the owner had no row on. */
  lemma ClosedStepAdded(rows: seq<Record>, owner: string, status: Status, team: string,
                        start: int, n: nat)
    requires n > 0 && Outcome(rows, owner, status, start + n - 1) == Added
    ensures Revised(rows, owner, status, team, start, n) == Revised(rows, owner, status, team, start, n - 1)
    ensures Appended(rows, owner, status, team, start, n) ==
            Appended(rows, owner, status, team, start, n - 1) + [NewRecord(owner, status, start + n - 1, team)]
  {
    var rev0 := Revised(rows, owner, status, team, start, n - 1);
    var rev := Revised(rows, owner, status, team, start, n);
    forall i | 0 <= i < |rows| ensures rev[i] == rev0[i] {
      assert !OnDay(rows[i], owner, start + n - 1);
    }
  }

  // ---------------------------------------------------------------------------
  // What a declaration promises
  // ---------------------------------------------------------------------------

  /** Per-day independence: each day's outcome is decided by the table as it was
      before the declaration, whatever the other days of the batch did. */
  lemma {:induction false} DeclareOutcomes(rows: seq<Record>, owner: string, status: Status, team: string,
                                           start: int, n: nat)
    ensures forall k | 0 <= k < n ::
      DeclareDays(rows, owner, status, team, start, n).outcomes[k] == Outcome(rows, owner, status, start + k)
  {
    if n > 0 {
      DeclareOutcomes(rows, owner, status, team, start, n - 1);
      OutcomesStep(rows, owner, status, team, start, n, DeclareDays(rows, owner, status, team, start, n - 1));
    }
  }

  /** One more day: its outcome against the table the earlier days left is its
      outcome against the original table. */
  lemma OutcomesStep(rows: seq<Record>, owner: string, status: Status, team: string, start: int, n: nat,
                     prev: Batch)
    requires n > 0 && prev == DeclareDays(rows, owner, status, team, start, n - 1)
    requires forall k | 0 <= k < n - 1 :: prev.outcomes[k] == Outcome(rows, owner, status, start + k)
    ensures forall k | 0 <= k < n ::
      DeclareDays(rows, owner, status, team, start, n).outcomes[k] == Outcome(rows, owner, status, start + k)
  {
    var d := start + n - 1;
    LaterDayUnaffected(rows, owner, status, team, start, n - 1);
    var step := DeclareDay(prev.rows, owner, status, team, d);
    assert step.outcome == Outcome(prev.rows, owner, status, d);
    var outs := DeclareDays(rows, owner, status, team, start, n).outcomes;
    assert outs == prev.outcomes + [step.outcome];
    forall k | 0 <= k < n ensures outs[k] == Outcome(rows, owner, status, start + k) {
      if k < n - 1 {
        assert outs[k] == prev.outcomes[k];
      }
    }
  }

  /** The days before `start + n` leave that day's branch as the original
      table would pick it. */
  lemma LaterDayUnaffected(rows: seq<Record>, owner: string, status: Status, team: string, start: int, n: nat)
    ensures Outcome(DeclareDays(rows, owner, status, team, start, n).rows, owner, status, start + n) ==
            Outcome(rows, owner, status, start + n)
  {
    DeclareClosedForm(rows, owner, status, team, start, n);
    ClosedFrame(rows, owner, status, team, start, n, owner, start + n);
    SameGroupSameOutcome(DeclareDays(rows, owner, status, team, start, n).rows, rows, owner, status, start + n);
  }

  /** After the declaration every day of the range holds a row with this owner,
      status and day; on each day that was not a duplicate it is a fresh
      undecided request with nothing to notify. */
  lemma DeclareCovers(rows: seq<Record>, owner: string, status: Status, team: string,
                      start: int, n: nat)
    ensures forall d | start <= d < start + n ::
      IsDuplicate(DeclareDays(rows, owner, status, team, start, n).rows, owner, status, d) &&
      (Outcome(rows, owner, status, d) != Duplicate ==>
        NewRecord(owner, status, d, team) in DeclareDays(rows, owner, status, team, start, n).rows)
  {
    var result := DeclareDays(rows, owner, status, team, start, n).rows;
    var rev := Revised(rows, owner, status, team, start, n);
    var app := Appended(rows, owner, status, team, start, n);
    DeclareClosedForm(rows, owner, status, team, start, n);
    forall d | start <= d < start + n
      ensures IsDuplicate(result, owner, status, d)
      ensures Outcome(rows, owner, status, d) != Duplicate ==> NewRecord(owner, status, d, team) in result
    {
      var rec := NewRecord(owner, status, d, team);
      if IsDuplicate(rows, owner, status, d) {
        var i :| 0 <= i < |rows| && OnDay(rows[i], owner, d) && rows[i].status == status;
        assert result[i] == rows[i];
      } else if HasDay(rows, owner, d) {
        var i :| 0 <= i < |rows| && OnDay(rows[i], owner, d);
        assert result[i] == rec;
      } else {
        AppendedHas(rows, owner, status, team, start, n, d);
        var j :| 0 <= j < |app| && app[j] == rec;
        assert result[|rows| + j] == rec;
      }
    }
  }

  /** Nothing changes for any member and day other than the owner's
      non-duplicate days of the range: in particular a duplicate day keeps its
      rows as they were. */
  lemma DeclareFrame(rows: seq<Record>, owner: string, status: Status, team: string,
                     start: int, n: nat, name: string, d: int)
    requires !(name == owner && start <= d < start + n && !IsDuplicate(rows, owner, status, d))
    ensures forall x | OnDay(x, name, d) ::
      x in DeclareDays(rows, owner, status, team, start, n).rows <==> x in rows
  {
    DeclareClosedForm(rows, owner, status, team, start, n);
    ClosedFrame(rows, owner, status, team, start, n, name, d);
  }

  /** Rows are only ever added for days with an `Added` outcome: overwriting a
      day adds no row. */
  lemma DeclareGrowth(rows: seq<Record>, owner: string, status: Status, team: string, start: int, n: nat)
    ensures |DeclareDays(rows, owner, status, team, start, n).rows| ==
            |rows| + multiset(DeclareDays(rows, owner, status, team, start, n).outcomes)[Added]
  {
    var b := DeclareDays(rows, owner, status, team, start, n);
    DeclareClosedForm(rows, owner, status, team, start, n);
    DeclareOutcomes(rows, owner, status, team, start, n);
    AppendedCount(rows, owner, status, team, start, n, b.outcomes);
  }

  /** One fresh row per day whose outcome against the original table is `Added`. */
  lemma {:induction false} AppendedCount(rows: seq<Record>, owner: string, status: Status, team: string,
                                         start: int, n: nat, outcomes: seq<DayOutcome>)
    requires |outcomes| == n
    requires forall k | 0 <= k < n :: outcomes[k] == Outcome(rows, owner, status, start + k)
    ensures |Appended(rows, owner, status, team, start, n)| == multiset(outcomes)[Added]
  {
    if n > 0 {
      var d, front, last := start + n - 1, outcomes[..n - 1], outcomes[n - 1];
      AppendedCount(rows, owner, status, team, start, n - 1, front);
      DuplicateHasDay(rows, owner, status, d);
      assert last == Outcome(rows, owner, status, d);
      assert last == Added <==> !HasDay(rows, owner, d);
      assert |Appended(rows, owner, status, team, start, n)| ==
             |Appended(rows, owner, status, team, start, n - 1)| + (if HasDay(rows, owner, d) then 0 else 1);
      assert outcomes == front + [last];
      assert multiset(outcomes)[Added] == multiset(front)[Added] + (if last == Added then 1 else 0);
    }
  }

  /** What the table after a declaration holds, stated about that table. */
  lemma DeclaredTable(rows: seq<Record>, owner: string, status: Status, team: string, start: int, n: nat,
                      after: seq<Record>)
    requires after == DeclareDays(rows, owner, status, team, start, n).rows
    ensures forall d | start <= d < start + n :: IsDuplicate(after, owner, status, d)
    ensures OnePerDay(rows) ==> OnePerDay(after)
  {
    DeclareCovers(rows, owner, status, team, start, n);
    if OnePerDay(rows) {
      DeclareKeepsOnePerDay(rows, owner, status, team, start, n);
    }
  }

  /** One day keeps "at most one row per member and day". */
  lemma DeclareDayKeepsOnePerDay(rows: seq<Record>, owner: string, status: Status, team: string, date: int)
    requires OnePerDay(rows)
    ensures OnePerDay(DeclareDay(rows, owner, status, team, date).rows)
  {
    var r := DeclareDay(rows, owner, status, team, date).rows;
    if !IsDuplicate(rows, owner, status, date) && HasDay(rows, owner, date) {
      forall i, j | 0 <= i < j < |r| ensures !OnDay(r[j], r[i].name, r[i].date) {
        assert r[i].name == rows[i].name && r[i].date == rows[i].date;
        assert r[j].name == rows[j].name && r[j].date == rows[j].date;
      }
    }
  }

  /** A declaration keeps "at most one row per member and day". */
  lemma {:induction false} DeclareKeepsOnePerDay(rows: seq<Record>, owner: string, status: Status, team: string,
                                                 start: int, n: nat)
    requires OnePerDay(rows)
    ensures OnePerDay(DeclareDays(rows, owner, status, team, start, n).rows)
  {
    if n > 0 {
      var prev := DeclareDays(rows, owner, status, team, start, n - 1);
      DeclareKeepsOnePerDay(rows, owner, status, team, start, n - 1);
      DeclareDayKeepsOnePerDay(prev.rows, owner, status, team, start + n - 1);
      assert DeclareDays(rows, owner, status, team, start, n).rows ==
             DeclareDay(prev.rows, owner, status, team, start + n - 1).rows;
    }
  }

  /** Declaring one day and then withdrawing it leaves the table exactly as
      withdrawing alone would; on a day the owner had no row, that is the
      original table. */
  lemma DeclareThenWithdraw(rows: seq<Record>, owner: string, status: Status, team: string, d: int)
    ensures HasDay(DeclareDays(rows, owner, status, team, d, 1).rows, owner, d)
    ensures Without(DeclareDays(rows, owner, status, team, d, 1).rows, owner, d) == Without(rows, owner, d)
    ensures !HasDay(rows, owner, d) ==> Without(DeclareDays(rows, owner, status, team, d, 1).rows, owner, d) == rows
  {
    var rec := NewRecord(owner, status, d, team);
    var after := DeclareDays(rows, owner, status, team, d, 1).rows;
    assert after == DeclareDay(rows, owner, status, team, d).rows;
    DeclareCovers(rows, owner, status, team, d, 1);
    match Outcome(rows, owner, status, d)
    case Duplicate =>
    case Replaced =>
      OverwriteThenWithdraw(rows, owner, d, rec);
    case Added =>
      WithoutConcat(rows, [rec], owner, d);
      assert Without([rec], owner, d) == [] by {
        assert [rec][1..] == [];
      }
      assert Without(rows, owner, d) + [] == Without(rows, owner, d);
    if !HasDay(rows, owner, d) {
      WithoutUnmatched(rows, owner, d);
    }
  }

  /** Removing the day's rows after overwriting them gives what removing them
      from the original table gives. */
  lemma {:induction false} OverwriteThenWithdraw(rows: seq<Record>, owner: string, d: int, rec: Record)
    requires OnDay(rec, owner, d)
    ensures Without(Overwrite(rows, owner, d, rec), owner, d) == Without(rows, owner, d)
  {
    if rows != [] {
      var ov := Overwrite(rows, owner, d, rec);
      assert ov[1..] == Overwrite(rows[1..], owner, d, rec);
      OverwriteThenWithdraw(rows[1..], owner, d, rec);
    }
  }
}
