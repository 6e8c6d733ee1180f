/**
 * Concrete chains of three and two steps that show how the decision
 * processor behaves: a percentage rule that ends the chain before the
 * last approver, a gap in the declared sequences, and a rejection that a
 * later approver overrides.
 */
module Scenarios {
  import opened Entities
  import opened ConditionalRules
  import opened ApprovalDecision
  import opened ApprovalQueries
  import Lifecycle

  const Report := Expense(0, 1, 100.0, "USD", "Travel", "Taxi", "2025-01-01", InReview, Some(1))

  function Open(approverId: Id, sequence: int): Step {
    Step(0, approverId, sequence, StepPending, false)
  }

  /** A company rule: 60% of the approvers suffice. */
  const SixtyPercent := Rule(0, true, Percentage, None, None, Some(60), None)

  /** Three approvers at sequences 1, 2, 3 under the 60% rule; nobody has acted yet. */
  const ThreeSteps := Db([Report], [Open(10, 1), Open(11, 2), Open(12, 3)], [], [SixtyPercent], Users(map[], 0))

  lemma ThreeStepsCount()
    ensures StepCount(ThreeSteps.steps, 0) == 3
  {
    var s := ThreeSteps.steps;
    assert s[1..][1..][1..] == [];
  }

  /** The first approval (1 of 3, 33%) moves the expense to sequence 2. */
  lemma FirstOfThreeMovesOn()
    ensures var out := Decide(ThreeSteps, 10, 0, "APPROVED", None);
            && out.reply.Ok? && out.reply.value.verdict == MovedToNext
            && out.db.expenses[0].status == InReview
            && out.db.expenses[0].currentApprovalStep == Some(2)
  {
    var out := Decide(ThreeSteps, 10, 0, "APPROVED", None);
    assert CallerStep(ThreeSteps, 10, 0) == Some(0);
    ThreeStepsCount();
    Lifecycle.StepCountUpdate(ThreeSteps.steps, 0, out.db.steps[0], 0);
    assert ApprovedCount(out.db.actions, 0) == 1;
    assert !Fires(SixtyPercent, out.db.steps, out.db.actions, 0);
    AutoApproveIff(ThreeSteps.rules, out.db.steps, out.db.actions, 0, 0);
    assert Matches(out.db.steps[1], OpenStepAt(0, 2));
  }

  /**
   * The second approval (2 of 3, 67%, counting itself) meets the 60% rule:
   * the expense is APPROVED and the third step stays open.
   */
  lemma SecondOfThreeMeetsSixtyPercent()
    ensures var first := Decide(ThreeSteps, 10, 0, "APPROVED", None);
            var second := Decide(first.db, 11, 0, "APPROVED", None);
            && second.reply.Ok? && second.reply.value.verdict == RuleMet
            && second.db.expenses[0].status == Approved
            && !second.db.steps[2].isCompleted
  {
    FirstOfThreeMovesOn();
    var first := Decide(ThreeSteps, 10, 0, "APPROVED", None);
    assert CallerStep(first.db, 11, 0) == Some(1);
    ThreeStepsCount();
    Lifecycle.StepCountUpdate(ThreeSteps.steps, 0, first.db.steps[0], 0);
    assert ApprovedCount(first.db.actions, 0) == 1;
    Lifecycle.CurrentApprovalCounts(first.db, 11, 0, None, SixtyPercent);
  }

  /** Declared sequences 1 and 3, no rule: approving sequence 1 finds no sequence 2. */
  const Gap := Db([Report], [Open(10, 1), Open(12, 3)], [], [], Users(map[], 0))

  lemma GapEndsChainEarly()
    ensures var out := Decide(Gap, 10, 0, "APPROVED", None);
            && out.reply.Ok? && out.reply.value.verdict == FullyApproved
            && out.db.expenses[0].status == Approved
            && !out.db.steps[1].isCompleted
  {
    var out := Decide(Gap, 10, 0, "APPROVED", None);
    assert CallerStep(Gap, 10, 0) == Some(0);
    NoRulesNoAutoApproval(Gap.rules, out.db.steps, out.db.actions, 0, 0);
    assert !Matches(out.db.steps[1], OpenStepAt(0, 2));
  }

  /** Two approvers at sequences 1 and 2, no rule. */
  const TwoSteps := Db([Report], [Open(10, 1), Open(11, 2)], [], [], Users(map[], 0))

  /**
   * The first approver rejects; the expense leaves the second approver's
   * pending list, yet the second approver can still approve it, and with
   * no step at sequence 3 it ends APPROVED.
   */
  lemma ApprovalAfterRejection()
    ensures var first := Decide(TwoSteps, 10, 0, "REJECTED", None);
            var second := Decide(first.db, 11, 0, "APPROVED", None);
            && first.db.expenses[0].status == Rejected
            && PendingApprovals(first.db, 11) == []
            && second.reply.Ok? && second.reply.value.verdict == FullyApproved
            && second.db.expenses[0].status == Approved
            && |second.db.actions| == 2
  {
    var first := Decide(TwoSteps, 10, 0, "REJECTED", None);
    assert CallerStep(TwoSteps, 10, 0) == Some(0);
    var second := Decide(first.db, 11, 0, "APPROVED", None);
    assert |first.db.steps| == 2 && first.db.steps[1] == Open(11, 2);
    assert !Matches(first.db.steps[0], OpenStepOf(0, 11)) && Matches(first.db.steps[1], OpenStepOf(0, 11));
    assert CallerStep(first.db, 11, 0) == Some(1);
    NoRulesNoAutoApproval(first.db.rules, second.db.steps, second.db.actions, 0, 0);
    assert forall j :: 0 <= j < |second.db.steps| ==> !Matches(second.db.steps[j], OpenStepAt(0, 3));
  }
}
