/** A worked example, checked against the operations' contracts: a two-day
    leave of which only the first day is approved. */
module Scenario {
  import opened Records
  import opened Declaring
  import opened Store
  import opened Users
  import opened Roster

  /** Declaring, approving the first day, reading the notification once, and
      the roster of both days on the table that results. */
  method TwoDayLeave() {
    var table := DeclareLeave();
    table.Resolve([0], Approved);
    var approved := Record("alice", Leave, 10, Approved, "X", 1);
    assert table.rows == [approved, NewRecord("alice", Leave, 11, "X")] by {
      assert 0 in [0] && 1 !in [0] && multiset([0])[0] == 1;
    }

    var shown := table.DrainNotifications("alice");
    assert approved in shown;
    shown := table.DrainNotifications("alice");
    assert shown == [];
    assert table.rows == [approved.(msgCount := 0), NewRecord("alice", Leave, 11, "X")];

    var users := [User("alice", Employee, "X"), User("bob", Manager, "X")];
    RosterOnApprovedDay(table.rows, users);
    RosterOnPendingDay(table.rows, users);
  }

  /** Alice declares leave for days 10 and 11 on an empty table: two fresh
      pending rows. */
  method DeclareLeave() returns (table: AvailabilityTable)
    ensures fresh(table)
    ensures table.rows == [NewRecord("alice", Leave, 10, "X"), NewRecord("alice", Leave, 11, "X")]
  {
    table := new AvailabilityTable();
    var res := table.Declare("alice", Leave, 10, 11, "X");
    assert table.rows == [NewRecord("alice", Leave, 10, "X"), NewRecord("alice", Leave, 11, "X")] by {
      DeclareClosedForm([], "alice", Leave, "X", 10, 2);
    }
    assert res == Declared([Added, Added]);
  }

  /** After the approval the roster of day 10 lists alice as not working. */
  method RosterOnApprovedDay(rows: seq<Record>, users: seq<User>)
    requires rows == [Record("alice", Leave, 10, Approved, "X", 0), NewRecord("alice", Leave, 11, "X")]
    requires users == [User("alice", Employee, "X"), User("bob", Manager, "X")]
  {
    var alice := users[0];
    assert alice in users;
    assert Classify(rows, "alice", 10) == NotWorking by {
      assert OnDay(rows[0], "alice", 10) && rows[0].status == Leave && rows[0].approval == Approved;
      assert rows[1].approval == Pending;
      assert !ApprovedWfh(rows, "alice", 10);
    }
    var wfh, notWorking, working := RosterFor(users, rows, "X", 10);
    assert "alice" in notWorking;
    assert "alice" !in working;
  }

  /** Day 11 is still pending, so its roster lists alice as working. */
  method RosterOnPendingDay(rows: seq<Record>, users: seq<User>)
    requires rows == [Record("alice", Leave, 10, Approved, "X", 0), NewRecord("alice", Leave, 11, "X")]
    requires users == [User("alice", Employee, "X"), User("bob", Manager, "X")]
  {
    var alice := users[0];
    assert alice in users;
    assert Classify(rows, "alice", 11) == Working by {
      assert !OnDay(rows[0], "alice", 11) && rows[1].approval == Pending;
      assert !ApprovedWfh(rows, "alice", 11);
      assert !ApprovedAbsence(rows, "alice", 11);
    }
    var wfh, notWorking, working := RosterFor(users, rows, "X", 11);
    assert "alice" in working;
    assert "alice" !in notWorking;
  }
}
