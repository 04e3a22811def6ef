/** The manager's decisions (`update_approval_status`): each selected row gets
    the decision and one more unread notification. */
module Approvals {
  import opened Records

  /** One iteration of the loop over the selected labels. */
  function Decide(r: Record, decision: Approval): Record {
    r.(approval := decision, msgCount := r.msgCount + 1)
  }

  /** The table after deciding the rows labelled `indices`, in list order. A
      label listed k times is decided k times. */
  function Resolved(rows: seq<Record>, indices: seq<nat>, decision: Approval): (r: seq<Record>)
    requires forall i | i in indices :: i < |rows|
    ensures |r| == |rows|
    decreases |indices|
  {
    if indices == [] then rows
    else
      var i := indices[0];
      assert indices == [i] + indices[1..];
      assert i in indices && forall j | j in indices[1..] :: j in indices;
      Resolved(rows[i := Decide(rows[i], decision)], indices[1..], decision)
  }

  /** Row by row: a selected row carries the decision and one unread
      notification more per listing; every other row is unchanged. */
  lemma {:induction false} ResolvedPointwise(rows: seq<Record>, indices: seq<nat>, decision: Approval)
    requires forall i | i in indices :: i < |rows|
    ensures forall i | 0 <= i < |rows| ::
      Resolved(rows, indices, decision)[i] ==
        if i in indices
        then rows[i].(approval := decision, msgCount := rows[i].msgCount + multiset(indices)[i])
        else rows[i]
    decreases |indices|
  {
    if indices != [] {
      ResolvedStep(rows, indices, decision);
      var i, rest := indices[0], indices[1..];
      var next := rows[i := Decide(rows[i], decision)];
      ResolvedPointwise(next, rest, decision);
      assert indices == [i] + rest;
      forall j: nat | j < |rows|
        ensures Resolved(rows, indices, decision)[j] ==
          if j in indices
          then rows[j].(approval := decision, msgCount := rows[j].msgCount + multiset(indices)[j])
          else rows[j]
      {
        var all: multiset<nat>, later: multiset<nat> := multiset(indices), multiset(rest);
        assert all[j] == later[j] + (if j == i then 1 else 0);
        assert j in indices <==> j == i || j in rest;
      }
    }
  }

  /** Deciding the first listed row, then the rest of the list. */
  lemma ResolvedStep(rows: seq<Record>, indices: seq<nat>, decision: Approval)
    requires indices != []
    requires forall i | i in indices :: i < |rows|
    ensures indices[0] < |rows|
    ensures forall i | i in indices[1..] :: i < |rows|
    ensures Resolved(rows, indices, decision) ==
            Resolved(rows[indices[0] := Decide(rows[indices[0]], decision)], indices[1..], decision)
  {
    assert indices == [indices[0]] + indices[1..];
    assert indices[0] in indices;
    forall i | i in indices[1..] ensures i < |rows| {
      assert i in indices;
    }
  }

  /** Deciding one list and then another with the same decision is deciding
      their concatenation: a batch of labels can be split anywhere. */
  lemma {:induction false} ResolvedConcat(rows: seq<Record>, a: seq<nat>, b: seq<nat>, decision: Approval)
    requires forall i | i in a :: i < |rows|
    requires forall i | i in b :: i < |rows|
    ensures forall i | i in a + b :: i < |rows|
    ensures Resolved(rows, a + b, decision) == Resolved(Resolved(rows, a, decision), b, decision)
    decreases |a|
  {
    assert forall i | i in a + b :: i in a || i in b;
    if a == [] {
      assert a + b == b;
    } else {
      var i := a[0];
      ResolvedStep(rows, a, decision);
      ResolvedStep(rows, a + b, decision);
      assert (a + b)[0] == i && (a + b)[1..] == a[1..] + b;
      ResolvedConcat(rows[i := Decide(rows[i], decision)], a[1..], b, decision);
    }
  }

  /** The dashboard's submit: the rows marked Approve are approved, then the
      rows marked Reject are rejected. With no row in both lists, each marked
      row ends with its own decision and one more unread notification per
      listing, and every other row is unchanged. */
  lemma ApproveThenReject(rows: seq<Record>, approve: seq<nat>, reject: seq<nat>)
    requires forall i | i in approve :: i < |rows|
    requires forall i | i in reject :: i < |rows|
    requires forall i | i in approve :: i !in reject
    ensures |Resolved(Resolved(rows, approve, Approved), reject, Rejected)| == |rows|
    ensures forall i | 0 <= i < |rows| ::
      Resolved(Resolved(rows, approve, Approved), reject, Rejected)[i] ==
        if i in approve then rows[i].(approval := Approved, msgCount := rows[i].msgCount + multiset(approve)[i])
        else if i in reject then rows[i].(approval := Rejected, msgCount := rows[i].msgCount + multiset(reject)[i])
        else rows[i]
  {
    ResolvedPointwise(rows, approve, Approved);
    ResolvedPointwise(Resolved(rows, approve, Approved), reject, Rejected);
  }

  /** Deciding the same rows again keeps the decision but adds one more unread
      notification per listing. */
  lemma ResolveAgain(rows: seq<Record>, indices: seq<nat>, decision: Approval)
    requires forall i | i in indices :: i < |rows|
    ensures forall i | 0 <= i < |rows| && i in indices ::
      Resolved(Resolved(rows, indices, decision), indices, decision)[i].approval == decision &&
      Resolved(Resolved(rows, indices, decision), indices, decision)[i].msgCount ==
        rows[i].msgCount + 2 * multiset(indices)[i]
  {
    ResolvedPointwise(rows, indices, decision);
    ResolvedPointwise(Resolved(rows, indices, decision), indices, decision);
  }

  /** Decisions change no member, status or day, so "at most one row per member
      and day" survives them. */
  lemma ResolvedKeepsOnePerDay(rows: seq<Record>, indices: seq<nat>, decision: Approval)
    requires forall i | i in indices :: i < |rows|
    requires OnePerDay(rows)
    ensures OnePerDay(Resolved(rows, indices, decision))
  {
    ResolvedPointwise(rows, indices, decision);
    var r := Resolved(rows, indices, decision);
    forall i, j | 0 <= i < j < |r| ensures !OnDay(r[j], r[i].name, r[i].date) {
      assert r[i].name == rows[i].name && r[i].date == rows[i].date;
      assert r[j].name == rows[j].name && r[j].date == rows[j].date;
    }
  }

  /** Once decided, a row leaves the manager's pending list; every other row
      keeps its place in it. */
  lemma ResolvedLeavesPending(rows: seq<Record>, indices: seq<nat>, decision: Approval, today: int)
    requires forall i | i in indices :: i < |rows|
    requires decision != Pending
    ensures forall i: nat :: i in PendingRequests(Resolved(rows, indices, decision), today) <==>
      i in PendingRequests(rows, today) && i !in indices
  {
    ResolvedPointwise(rows, indices, decision);
  }

  /** Every decided row becomes a notification for its owner. */
  lemma ResolvedNotifies(rows: seq<Record>, indices: seq<nat>, decision: Approval)
    requires forall i | i in indices :: i < |rows|
    ensures forall i | 0 <= i < |rows| && i in indices ::
      Resolved(rows, indices, decision)[i] in
        Notifications(Resolved(rows, indices, decision), rows[i].name)
  {
    ResolvedPointwise(rows, indices, decision);
    var r := Resolved(rows, indices, decision);
    forall i | 0 <= i < |rows| && i in indices ensures r[i] in Notifications(r, rows[i].name) {
      assert r[i] in r;
    }
  }
}
