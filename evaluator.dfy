/**
 * The conditional rule evaluator of approvalLogic.js (`checkConditionalRules`):
 * a read-only scan, in stored order, of the company's active conditional
 * rules. It answers whether the chain of one expense may be cut short and
 * the expense approved.
 */
module ConditionalRules {
  import opened Entities

  /** Number of steps ever created for the expense, completed or not. */
  function StepCount(steps: seq<Step>, expenseId: Id): nat {
    if steps == [] then 0
    else (if steps[0].expenseId == expenseId then 1 else 0) + StepCount(steps[1..], expenseId)
  }

  /** Number of APPROVED actions recorded for the expense. */
  function ApprovedCount(actions: seq<Action>, expenseId: Id): nat {
    if actions == [] then 0
    else (if actions[0].expenseId == expenseId && actions[0].decision == Approve then 1 else 0)
         + ApprovedCount(actions[1..], expenseId)
  }

  /** Some APPROVED action on the expense comes from `approverId`. */
  predicate ApprovedBy(actions: seq<Action>, expenseId: Id, approverId: Id) {
    exists i :: 0 <= i < |actions| && actions[i].expenseId == expenseId
                && actions[i].approverId == approverId && actions[i].decision == Approve
  }

  /**
   * `approved / total * 100 >= required` as JavaScript evaluates it on
   * exact numbers: with no steps the quotient is Infinity when something
   * was approved (which passes) and NaN otherwise (which fails).
   */
  predicate PercentageReached(approved: nat, total: nat, required: int) {
    if total == 0 then approved > 0 else approved * 100 >= required * total
  }

  /** The specific-approver condition of a SPECIFIC_APPROVER or HYBRID rule. */
  predicate SpecificApproverMet(r: Rule, actions: seq<Action>, expenseId: Id) {
    && (r.ruleType == SpecificApprover || r.ruleType == Hybrid)
    && r.specificApproverId.Some?
    && ApprovedBy(actions, expenseId, r.specificApproverId.value)
  }

  /** The percentage condition of a PERCENTAGE or HYBRID rule. */
  predicate PercentageMet(r: Rule, steps: seq<Step>, actions: seq<Action>, expenseId: Id) {
    && (r.ruleType == Percentage || r.ruleType == Hybrid)
    && PercentageSet(r)
    && PercentageReached(ApprovedCount(actions, expenseId), StepCount(steps, expenseId),
                         r.percentageRequired.value)
  }

  /** A rule fires when either of its conditions holds; HYBRID needs only one. */
  predicate Fires(r: Rule, steps: seq<Step>, actions: seq<Action>, expenseId: Id) {
    SpecificApproverMet(r, actions, expenseId) || PercentageMet(r, steps, actions, expenseId)
  }

  /** The scan: true at the first rule that fires, false once the list is exhausted. */
  function Scan(rs: seq<Rule>, steps: seq<Step>, actions: seq<Action>, expenseId: Id): bool {
    if rs == [] then false
    else if Fires(rs[0], steps, actions, expenseId) then true
    else Scan(rs[1..], steps, actions, expenseId)
  }

  /** `checkConditionalRules(expense, _, prisma)` over a snapshot of the tables. */
  function ShouldAutoApprove(rules: seq<Rule>, steps: seq<Step>, actions: seq<Action>,
                             expenseId: Id, companyId: Id): bool
  {
    Scan(ActiveRules(rules, companyId), steps, actions, expenseId)
  }

  /** The scan answers true exactly when some rule of the list fires. */
  lemma {:induction false} ScanExists(rs: seq<Rule>, steps: seq<Step>, actions: seq<Action>, expenseId: Id)
    ensures Scan(rs, steps, actions, expenseId)
            <==> exists i :: 0 <= i < |rs| && Fires(rs[i], steps, actions, expenseId)
  {
    if rs != [] {
      ScanExists(rs[1..], steps, actions, expenseId);
      if !Fires(rs[0], steps, actions, expenseId) && Scan(rs, steps, actions, expenseId) {
        var i :| 0 <= i < |rs[1..]| && Fires(rs[1..][i], steps, actions, expenseId);
        assert Fires(rs[i + 1], steps, actions, expenseId);
      }
      if exists i :: 0 <= i < |rs| && Fires(rs[i], steps, actions, expenseId) {
        var i :| 0 <= i < |rs| && Fires(rs[i], steps, actions, expenseId);
        if i > 0 {
          assert Fires(rs[1..][i - 1], steps, actions, expenseId);
        }
      }
    }
  }

  /**
   * The evaluator approves exactly when some active rule of the expense's
   * company fires; the stored order decides only where the scan stops.
   */
  lemma AutoApproveIff(rules: seq<Rule>, steps: seq<Step>, actions: seq<Action>, expenseId: Id, companyId: Id)
    ensures ShouldAutoApprove(rules, steps, actions, expenseId, companyId)
            <==> exists r :: r in rules && Active(r, companyId) && Fires(r, steps, actions, expenseId)
  {
    var rs := ActiveRules(rules, companyId);
    ScanExists(rs, steps, actions, expenseId);
    if Scan(rs, steps, actions, expenseId) {
      var i :| 0 <= i < |rs| && Fires(rs[i], steps, actions, expenseId);
      assert rs[i] in rs;
    }
    if exists r :: r in rules && Active(r, companyId) && Fires(r, steps, actions, expenseId) {
      var r :| r in rules && Active(r, companyId) && Fires(r, steps, actions, expenseId);
      assert r in rs;
      var i :| 0 <= i < |rs| && rs[i] == r;
    }
  }

  /** With no active rule for the company the evaluator answers false. */
  lemma NoRulesNoAutoApproval(rules: seq<Rule>, steps: seq<Step>, actions: seq<Action>, expenseId: Id, companyId: Id)
    requires forall r :: r in rules ==> !Active(r, companyId)
    ensures !ShouldAutoApprove(rules, steps, actions, expenseId, companyId)
  {
    var rs := ActiveRules(rules, companyId);
    ScanExists(rs, steps, actions, expenseId);
    assert forall i :: 0 <= i < |rs| ==> rs[i] in rs;
  }

  lemma {:induction false} ApprovedCountAppend(actions: seq<Action>, a: Action, expenseId: Id)
    ensures ApprovedCount(actions + [a], expenseId)
            == ApprovedCount(actions, expenseId) + (if a.expenseId == expenseId && a.decision == Approve then 1 else 0)
  {
    if actions != [] {
      assert (actions + [a])[1..] == actions[1..] + [a];
      ApprovedCountAppend(actions[1..], a, expenseId);
    }
  }

  /**
   * Recording one more decision never withdraws an auto-approval: the
   * approved count can only grow and the step count is unchanged.
   */
  lemma MoreActionsKeepAutoApproval(rules: seq<Rule>, steps: seq<Step>, actions: seq<Action>, a: Action,
                                    expenseId: Id, companyId: Id)
    requires ShouldAutoApprove(rules, steps, actions, expenseId, companyId)
    ensures ShouldAutoApprove(rules, steps, actions + [a], expenseId, companyId)
  {
    AutoApproveIff(rules, steps, actions, expenseId, companyId);
    AutoApproveIff(rules, steps, actions + [a], expenseId, companyId);
    var r :| r in rules && Active(r, companyId) && Fires(r, steps, actions, expenseId);
    ApprovedCountAppend(actions, a, expenseId);
    if SpecificApproverMet(r, actions, expenseId) {
      var i :| 0 <= i < |actions| && actions[i].expenseId == expenseId
               && actions[i].approverId == r.specificApproverId.value && actions[i].decision == Approve;
      assert (actions + [a])[i] == actions[i];
      assert SpecificApproverMet(r, actions + [a], expenseId);
    } else {
      var approved, total, pct := ApprovedCount(actions, expenseId), StepCount(steps, expenseId), r.percentageRequired.value;
      if total > 0 {
        assert (approved + 1) * 100 == approved * 100 + 100;
      }
      assert PercentageMet(r, steps, actions + [a], expenseId);
    }
  }
}
