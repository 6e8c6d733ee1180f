/**
 * The two read-only endpoints of approvalController.js: the caller's
 * pending approvals (`getPendingApprovals`) and an expense's decision
 * history (`getApprovalHistory`). Both are filters over a snapshot.
 */
module ApprovalQueries {
  import opened Entities
  import opened Ordering

  /** Step `k` waits for `callerId` on an expense that is still PENDING or IN_REVIEW. */
  predicate WaitsFor(db: Db, callerId: Id, k: nat)
    requires db.Valid()
  {
    && k < |db.steps|
    && db.steps[k].approverId == callerId
    && !db.steps[k].isCompleted
    && db.expenses[db.steps[k].expenseId].status in {Pending, InReview}
  }

  /** A pending step with its expense, as the pending list shows it. */
  datatype PendingItem = PendingItem(stepId: nat, step: Step, expense: Expense)

  /** `getPendingApprovals`: the caller's waiting steps, newest first. */
  function PendingApprovals(db: Db, callerId: Id): (r: seq<PendingItem>)
    requires db.Valid()
    ensures forall j :: 0 <= j < |r| ==>
              && WaitsFor(db, callerId, r[j].stepId)
              && r[j].step == db.steps[r[j].stepId]
              && r[j].expense == db.expenses[r[j].step.expenseId]
    ensures forall k: nat :: WaitsFor(db, callerId, k) ==> exists j :: 0 <= j < |r| && r[j].stepId == k
    ensures forall a, b :: 0 <= a < b < |r| ==> r[a].stepId > r[b].stepId
  {
    var ids := RowsDesc(|db.steps|, (k: nat) => WaitsFor(db, callerId, k));
    assert forall j :: 0 <= j < |ids| ==> ids[j] in ids;
    var r := seq(|ids|, j requires 0 <= j < |ids| =>
                 PendingItem(ids[j], db.steps[ids[j]], db.expenses[db.steps[ids[j]].expenseId]));
    forall k: nat | WaitsFor(db, callerId, k) ensures exists j :: 0 <= j < |r| && r[j].stepId == k {
      assert k in ids;
      var j :| 0 <= j < |ids| && ids[j] == k;
      assert r[j].stepId == k;
    }
    r
  }

  /** One logged action with its row id. */
  datatype Logged = Logged(actionId: nat, action: Action)

  /** `getApprovalHistory`: the actions of one expense, newest first. */
  function History(actions: seq<Action>, expenseId: Id): (r: seq<Logged>)
    ensures forall j :: 0 <= j < |r| ==>
              && r[j].actionId < |actions|
              && r[j].action == actions[r[j].actionId]
              && r[j].action.expenseId == expenseId
    ensures forall k :: 0 <= k < |actions| && actions[k].expenseId == expenseId ==>
              exists j :: 0 <= j < |r| && r[j].actionId == k
    ensures forall a, b :: 0 <= a < b < |r| ==> r[a].actionId > r[b].actionId
  {
    var ids := RowsDesc(|actions|, (k: nat) => k < |actions| && actions[k].expenseId == expenseId);
    assert forall j :: 0 <= j < |ids| ==> ids[j] in ids;
    var r := seq(|ids|, j requires 0 <= j < |ids| => Logged(ids[j], actions[ids[j]]));
    forall k: nat | k < |actions| && actions[k].expenseId == expenseId
      ensures exists j :: 0 <= j < |r| && r[j].actionId == k
    {
      assert k in ids;
      var j :| 0 <= j < |ids| && ids[j] == k;
      assert r[j].actionId == k;
    }
    r
  }
}
