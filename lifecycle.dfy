/**
 * Properties of the workflow that span several operations: submission
 * followed by chain building, and decisions on the resulting chains.
 */
module Lifecycle {
  import opened Entities
  import opened ConditionalRules
  import opened ApprovalChain
  import opened ApprovalDecision
  import opened ApprovalQueries
  import opened ExpenseController

  lemma {:induction false} OpenStepsNotCompleted(more: seq<Step>, id: Id)
    requires forall s :: s in more ==> !s.isCompleted
    ensures CompletedCount(more, id) == 0
  {
    if more != [] {
      assert more[0] in more;
      assert forall s :: s in more[1..] ==> s in more;
      OpenStepsNotCompleted(more[1..], id);
    }
  }

  /** Appending open steps leaves every expense's completed count as it was. */
  lemma {:induction false} CompletedCountAppendOpen(steps: seq<Step>, more: seq<Step>, id: Id)
    requires forall s :: s in more ==> !s.isCompleted
    ensures CompletedCount(steps + more, id) == CompletedCount(steps, id)
  {
    if steps == [] {
      assert steps + more == more;
      OpenStepsNotCompleted(more, id);
    } else {
      assert (steps + more)[1..] == steps[1..] + more;
      CompletedCountAppendOpen(steps[1..], more, id);
    }
  }

  /** Submission only adds open steps and no action, so the audit log stays complete. */
  lemma SubmitKeepsAuditComplete(db: Db, caller: Caller, input: ExpenseInput)
    requires db.Valid() && AuditComplete(db)
    ensures AuditComplete(Submit(db, caller, input).db)
  {
    var out := Submit(db, caller, input);
    if out.reply.Ok? {
      var more := out.db.steps[|db.steps|..];
      assert out.db.steps == db.steps + more;
      forall s | s in more ensures !s.isCompleted {
        var j :| 0 <= j < |more| && more[j] == s;
        assert s == out.db.steps[|db.steps| + j];
      }
      forall id: Id ensures ActionCount(out.db.actions, id) == CompletedCount(out.db.steps, id) {
        CompletedCountAppendOpen(db.steps, more, id);
      }
    }
  }

  /**
   * With no manager-approver and no active rule for the company, the
   * submission is approved at once with no step; the reply still shows
   * the expense as PENDING.
   */
  lemma NoReviewerApprovesAtOnce(db: Db, caller: Caller, input: ExpenseInput)
    requires db.Valid() && Complete(input) && caller.id in db.users.rows
    requires !ManagerApproves(db.users.rows, db.users.rows[caller.id])
    requires forall r :: r in db.rules ==> !Active(r, caller.companyId)
    ensures var out := Submit(db, caller, input);
            && out.reply.Ok?
            && out.reply.value.expense.status == Pending
            && out.db.expenses[out.reply.value.expenseId].status == Approved
            && out.db.steps == db.steps
  {
    NoActiveRules(db.rules, caller.companyId);
  }

  /**
   * A manager-approver takes the single step and the rules are not read:
   * the outcome is the same whatever rules are stored.
   */
  lemma ManagerApproverIgnoresRules(db: Db, caller: Caller, input: ExpenseInput, otherRules: seq<Rule>)
    requires db.Valid() && Complete(input) && caller.id in db.users.rows
    requires ManagerApproves(db.users.rows, db.users.rows[caller.id])
    ensures var out := Submit(db, caller, input);
            var id := |db.expenses|;
            && out.reply.Ok?
            && out.db.steps == db.steps + [Step(id, db.users.rows[caller.id].managerId.value, 1, StepPending, false)]
            && out.db.expenses[id].status == InReview
            && out.db.expenses[id].currentApprovalStep == Some(1)
            && Submit(db.(rules := otherRules), caller, input).db == out.db.(rules := otherRules)
  {
  }

  /**
   * A rule whose approver sequence is an empty array leaves the new expense
   * IN_REVIEW with no step at all: right after submission no approver can
   * act on it and it appears in nobody's pending list.
   */
  lemma EmptySequenceLeavesExpenseStuck(db: Db, caller: Caller, input: ExpenseInput)
    requires db.Valid() && Complete(input) && caller.id in db.users.rows
    requires !ManagerApproves(db.users.rows, db.users.rows[caller.id])
    requires var rs := ActiveRules(db.rules, caller.companyId);
             var i := FirstApplicable(rs, input.amount);
             i.Some? && rs[i.value].approverSequence == Some([])
    ensures var out := Submit(db, caller, input);
            var id := |db.expenses|;
            && out.reply.Ok?
            && out.db.expenses[id].status == InReview
            && out.db.expenses[id].currentApprovalStep == Some(1)
            && out.db.steps == db.steps
            && (forall approver, action, comments ::
                  Decide(out.db, approver, id, action, comments).reply.Err?)
            && (forall approver, j :: 0 <= j < |PendingApprovals(out.db, approver)| ==>
                  PendingApprovals(out.db, approver)[j].step.expenseId != id)
  {
    var out := Submit(db, caller, input);
    var id := |db.expenses|;
    assert StepsFor(id, []) == [];
    forall approver, action, comments ensures Decide(out.db, approver, id, action, comments).reply.Err? {
      assert forall j :: 0 <= j < |out.db.steps| ==> !Matches(out.db.steps[j], OpenStepOf(id, approver));
    }
  }

  lemma {:induction false} StepCountUpdate(steps: seq<Step>, k: nat, s: Step, id: Id)
    requires k < |steps| && s.expenseId == steps[k].expenseId
    ensures StepCount(steps[k := s], id) == StepCount(steps, id)
  {
    if k > 0 {
      assert steps[k := s][1..] == steps[1..][k - 1 := s];
      StepCountUpdate(steps[1..], k - 1, s, id);
    }
  }

  /**
   * The approval being given counts toward a percentage rule: if the
   * approvals so far plus this one reach the rule's percentage of all the
   * expense's steps, this approval ends the chain.
   */
  lemma CurrentApprovalCounts(db: Db, callerId: Id, expenseId: Id, comments: Option<string>, r: Rule)
    requires db.Valid() && CallerStep(db, callerId, expenseId).Some?
    requires r in db.rules && Active(r, db.expenses[expenseId].companyId)
    requires r.ruleType in {Percentage, Hybrid} && PercentageSet(r)
    requires PercentageReached(ApprovedCount(db.actions, expenseId) + 1, StepCount(db.steps, expenseId),
                               r.percentageRequired.value)
    ensures var out := Decide(db, callerId, expenseId, "APPROVED", comments);
            && out.reply.Ok? && out.reply.value.verdict == RuleMet
            && out.db.expenses[expenseId].status == Approved
  {
    var out := Decide(db, callerId, expenseId, "APPROVED", comments);
    var k := CallerStep(db, callerId, expenseId).value;
    var a := Action(expenseId, callerId, Approve, StoredComments(comments));
    ApprovedCountAppend(db.actions, a, expenseId);
    StepCountUpdate(db.steps, k, db.steps[k].(status := StepDecided(Approve), isCompleted := true), expenseId);
    assert Fires(r, out.db.steps, out.db.actions, expenseId);
    AutoApproveIff(db.rules, out.db.steps, out.db.actions, expenseId, db.expenses[expenseId].companyId);
  }

  /**
   * The approver named by an active SPECIFIC_APPROVER or HYBRID rule ends
   * the chain with their own approval, whatever step they hold.
   */
  lemma SpecificApproverEndsChain(db: Db, callerId: Id, expenseId: Id, comments: Option<string>, r: Rule)
    requires db.Valid() && CallerStep(db, callerId, expenseId).Some?
    requires r in db.rules && Active(r, db.expenses[expenseId].companyId)
    requires r.ruleType in {SpecificApprover, Hybrid} && r.specificApproverId == Some(callerId)
    ensures var out := Decide(db, callerId, expenseId, "APPROVED", comments);
            && out.reply.Ok? && out.reply.value.verdict == RuleMet
            && out.db.expenses[expenseId].status == Approved
  {
    var out := Decide(db, callerId, expenseId, "APPROVED", comments);
    var i := |db.actions|;
    assert out.db.actions[i] == Action(expenseId, callerId, Approve, StoredComments(comments));
    assert SpecificApproverMet(r, out.db.actions, expenseId);
    AutoApproveIff(db.rules, out.db.steps, out.db.actions, expenseId, db.expenses[expenseId].companyId);
  }

  /**
   * REJECTED is not final: the expense drops out of the pending list of an
   * approver who still holds an open step on it, yet that approver can
   * approve it and move it out of REJECTED.
   */
  lemma RejectionIsNotFinal(db: Db, callerId: Id, expenseId: Id, comments: Option<string>)
    requires db.Valid() && CallerStep(db, callerId, expenseId).Some?
    requires expenseId < |db.expenses| && db.expenses[expenseId].status == Rejected
    ensures forall j :: 0 <= j < |PendingApprovals(db, callerId)| ==>
              PendingApprovals(db, callerId)[j].step.expenseId != expenseId
    ensures var out := Decide(db, callerId, expenseId, "APPROVED", comments);
            out.reply.Ok? && out.db.expenses[expenseId].status in {Approved, InReview}
  {
    var out := Decide(db, callerId, expenseId, "APPROVED", comments);
    assert out.reply.value.verdict != RejectedNow;
  }
}
