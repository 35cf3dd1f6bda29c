/** The aggregation at the end of `checkIfUsersCanBeAssigned`
    (src/utils.js:188-196). One assignability request is sent per assignee
    and `Promise.allSettled` reports one status per request, in the same
    order; the requests themselves are not modelled, only their statuses. */
module Assignability {

  /** The `status` field of a settled promise. */
  datatype SettledStatus = Fulfilled | Rejected

  /** The `{ isSuccess, assigneeErrors }` object the helper returns. */
  datatype AssignabilityReport = AssignabilityReport(isSuccess: bool, assigneeErrors: seq<string>)

  /** The assignees whose request was rejected, in assignee order. */
  function RejectedAssignees(assignees: seq<string>, statuses: seq<SettledStatus>): seq<string>
    requires |statuses| == |assignees|
  {
    if assignees == [] then []
    else
      var n := |assignees| - 1;
      RejectedAssignees(assignees[..n], statuses[..n]) + (if statuses[n] == Rejected then [assignees[n]] else [])
  }

  predicate AllFulfilled(statuses: seq<SettledStatus>)
  {
    forall i :: 0 <= i < |statuses| ==> statuses[i] == Fulfilled
  }

  /** The loop over the settled responses: every rejected request clears
      `isSuccess` and records its assignee. */
  method CheckIfUsersCanBeAssigned(assignees: seq<string>, statuses: seq<SettledStatus>) returns (result: AssignabilityReport)
    requires |statuses| == |assignees|
    ensures result.isSuccess <==> AllFulfilled(statuses)
    ensures result.assigneeErrors == RejectedAssignees(assignees, statuses)
  {
    result := AssignabilityReport(true, []);
    var i := 0;
    while i < |assignees|
      invariant 0 <= i <= |assignees|
      invariant result.isSuccess <==> AllFulfilled(statuses[..i])
      invariant result.assigneeErrors == RejectedAssignees(assignees[..i], statuses[..i])
    {
      assert assignees[..i + 1][..i] == assignees[..i];
      assert statuses[..i + 1][..i] == statuses[..i];
      var status := statuses[i];
      if status == Rejected {
        result := result.(isSuccess := false, assigneeErrors := result.assigneeErrors + [assignees[i]]);
      }
      i := i + 1;
    }
    assert assignees[..i] == assignees;
    assert statuses[..i] == statuses;
  }

  /** An assignee is reported exactly when one of its requests was rejected. */
  lemma {:induction false} RejectedMembers(assignees: seq<string>, statuses: seq<SettledStatus>, login: string)
    requires |statuses| == |assignees|
    ensures login in RejectedAssignees(assignees, statuses) <==>
      exists i :: 0 <= i < |assignees| && assignees[i] == login && statuses[i] == Rejected
  {
    if assignees != [] {
      var n := |assignees| - 1;
      RejectedMembers(assignees[..n], statuses[..n], login);
      if exists i :: 0 <= i < |assignees| && assignees[i] == login && statuses[i] == Rejected {
        var i :| 0 <= i < |assignees| && assignees[i] == login && statuses[i] == Rejected;
        if i < n {
          assert assignees[..n][i] == login && statuses[..n][i] == Rejected;
        }
      }
    }
  }

  /** One assignee is reported per rejected request, duplicates included. */
  lemma {:induction false} RejectedCount(assignees: seq<string>, statuses: seq<SettledStatus>)
    requires |statuses| == |assignees|
    ensures |RejectedAssignees(assignees, statuses)| == multiset(statuses)[Rejected]
  {
    if assignees != [] {
      var n := |assignees| - 1;
      RejectedCount(assignees[..n], statuses[..n]);
      assert statuses == statuses[..n] + [statuses[n]];
    }
  }

  /** The report is a success exactly when it names no assignee. */
  lemma {:induction false} SuccessIffNoErrors(assignees: seq<string>, statuses: seq<SettledStatus>)
    requires |statuses| == |assignees|
    ensures AllFulfilled(statuses) <==> RejectedAssignees(assignees, statuses) == []
  {
    RejectedCount(assignees, statuses);
    if !AllFulfilled(statuses) {
      var i :| 0 <= i < |statuses| && statuses[i] != Fulfilled;
      assert statuses[i] in multiset(statuses);
    } else {
      assert Rejected !in statuses;
    }
  }

  /** Reports keep assignee order: the report on two batches is the report
      on the first followed by the report on the second. */
  lemma {:induction false} RejectedConcat(a1: seq<string>, s1: seq<SettledStatus>, a2: seq<string>, s2: seq<SettledStatus>)
    requires |s1| == |a1| && |s2| == |a2|
    ensures RejectedAssignees(a1 + a2, s1 + s2) == RejectedAssignees(a1, s1) + RejectedAssignees(a2, s2)
    decreases |a2|
  {
    if a2 == [] {
      assert a1 + a2 == a1 && s1 + s2 == s1;
    } else {
      var n := |a2| - 1;
      RejectedConcat(a1, s1, a2[..n], s2[..n]);
      assert (a1 + a2)[..|a1| + n] == a1 + a2[..n];
      assert (s1 + s2)[..|s1| + n] == s1 + s2[..n];
    }
  }
}
