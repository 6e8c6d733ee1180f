/**
 * The approval chain builder of approvalLogic.js (`processApprovalFlow`),
 * stated as functions over a database snapshot. It runs once, right after
 * an expense is created, and decides its first steps and its status.
 */
module ApprovalChain {
  import opened Entities

  /** The submitter has a manager, and that manager is a stored user flagged as an approver. */
  predicate ManagerApproves(users: map<Id, User>, submitter: User) {
    && submitter.managerId.Some?
    && submitter.managerId.value in users
    && users[submitter.managerId.value].isManagerApprover
  }

  /** A rule applies to an amount when its threshold is unset or at most the amount. */
  predicate Applies(r: Rule, amount: real) {
    !ThresholdSet(r) || amount >= r.amountThreshold.value
  }

  /** `rules.find(...)`: the position of the first applicable rule, not the best one. */
  function FirstApplicable(rs: seq<Rule>, amount: real): (i: Option<nat>)
    ensures i.Some? ==> i.value < |rs| && Applies(rs[i.value], amount)
    ensures i.Some? ==> forall j :: 0 <= j < i.value ==> !Applies(rs[j], amount)
    ensures i.None? ==> forall j :: 0 <= j < |rs| ==> !Applies(rs[j], amount)
  {
    if rs == [] then None
    else if Applies(rs[0], amount) then Some(0)
    else match FirstApplicable(rs[1..], amount)
      case None => None
      case Some(k) => Some(k + 1)
  }

  /**
   * `rules.find` over the loaded rules selects the first rule of the whole
   * table, in stored order, that is active for the company and applies to
   * the amount; none is selected exactly when no such rule exists.
   */
  lemma FirstApplicableInStoredOrder(rules: seq<Rule>, companyId: Id, amount: real)
    ensures FirstApplicable(ActiveRules(rules, companyId), amount).None?
            <==> forall k :: 0 <= k < |rules| ==> !(Active(rules[k], companyId) && Applies(rules[k], amount))
    ensures var rs := ActiveRules(rules, companyId);
            var i := FirstApplicable(rs, amount);
            i.Some? ==>
              exists k :: && 0 <= k < |rules| && rs[i.value] == rules[k]
                          && Active(rules[k], companyId) && Applies(rules[k], amount)
                          && forall k' :: 0 <= k' < k ==> !(Active(rules[k'], companyId) && Applies(rules[k'], amount))
  {
    var rs := ActiveRules(rules, companyId);
    var idx := ActiveRulesInStoredOrder(rules, companyId);
    var i := FirstApplicable(rs, amount);
    if i.None? {
      forall k | 0 <= k < |rules| && Active(rules[k], companyId) ensures !Applies(rules[k], amount) {
        var j :| 0 <= j < |idx| && idx[j] == k;
        assert rs[j] == rules[k];
      }
    } else {
      var k := idx[i.value];
      assert rs[i.value] in rs;
      forall k' | 0 <= k' < k && Active(rules[k'], companyId) ensures !Applies(rules[k'], amount) {
        var j :| 0 <= j < |idx| && idx[j] == k';
        assert rs[j] == rules[k'];
      }
      assert Active(rules[k], companyId) && Applies(rules[k], amount);
    }
  }

  /** The PENDING step created for one entry of a rule's approver sequence. */
  function PendingStep(expenseId: Id, entry: SequenceEntry): Step {
    Step(expenseId, entry.userId, entry.sequence, StepPending, false)
  }

  /** One PENDING step per entry, in the entries' order, each with the entry's own sequence. */
  function StepsFor(expenseId: Id, entries: seq<SequenceEntry>): (s: seq<Step>)
    ensures |s| == |entries|
    ensures forall k :: 0 <= k < |s| ==> s[k] == PendingStep(expenseId, entries[k])
  {
    seq(|entries|, k requires 0 <= k < |entries| => PendingStep(expenseId, entries[k]))
  }

  /**
   * What the chain builder decides: the steps it inserts, the status it
   * writes, and whether it also writes `currentApprovalStep = 1`.
   */
  datatype Plan = Plan(newSteps: seq<Step>, status: ExpenseStatus, startsAtOne: bool)

  /** The decision of `processApprovalFlow` for expense `expenseId`, as a value. */
  function PlanChain(expenseId: Id, e: Expense, submitter: User, users: map<Id, User>, rules: seq<Rule>): (p: Plan)
    // a manager-approver gets the one and only step; rules are not consulted
    ensures ManagerApproves(users, submitter) ==>
              p == Plan([Step(expenseId, submitter.managerId.value, 1, StepPending, false)], InReview, true)
    // no active rule: nothing to review
    ensures !ManagerApproves(users, submitter) && ActiveRules(rules, e.companyId) == [] ==>
              p == Plan([], Approved, false)
    // otherwise the first applicable active rule decides
    ensures !ManagerApproves(users, submitter) ==>
              var rs := ActiveRules(rules, e.companyId);
              var i := FirstApplicable(rs, e.amount);
              if i.Some? && rs[i.value].approverSequence.Some? then
                p == Plan(StepsFor(expenseId, rs[i.value].approverSequence.value), InReview, true)
              else
                p == Plan([], Approved, false)
    // every inserted step belongs to the expense and is open
    ensures forall s :: s in p.newSteps ==> s.expenseId == expenseId && !s.isCompleted && s.status == StepPending
    // the expense is under review exactly when the builder wrote the first step
    ensures p.status == InReview <==> p.startsAtOne
    ensures p.status == InReview || (p.status == Approved && p.newSteps == [])
  {
    if ManagerApproves(users, submitter) then
      Plan([Step(expenseId, submitter.managerId.value, 1, StepPending, false)], InReview, true)
    else
      var rs := ActiveRules(rules, e.companyId);
      if rs == [] then Plan([], Approved, false)
      else
        var i := FirstApplicable(rs, e.amount);
        if i.Some? && rs[i.value].approverSequence.Some? then
          Plan(StepsFor(expenseId, rs[i.value].approverSequence.value), InReview, true)
        else
          Plan([], Approved, false)
  }

  /** Writes a plan into the snapshot: steps appended, expense status (and first step) updated. */
  function ApplyPlan(db: Db, expenseId: Id, p: Plan): (db': Db)
    requires db.Valid() && expenseId < |db.expenses|
    requires forall s :: s in p.newSteps ==> s.expenseId == expenseId
    ensures db'.Valid()
    ensures db'.steps == db.steps + p.newSteps
    ensures |db'.expenses| == |db.expenses|
    ensures db'.expenses == db.expenses[expenseId := db'.expenses[expenseId]]
    ensures db'.expenses[expenseId].status == p.status
    ensures db'.expenses[expenseId].currentApprovalStep
            == if p.startsAtOne then Some(1) else db.expenses[expenseId].currentApprovalStep
    ensures db'.rules == db.rules && db'.users == db.users && db'.actions == db.actions
  {
    var e := db.expenses[expenseId];
    var e' := e.(status := p.status,
                 currentApprovalStep := if p.startsAtOne then Some(1) else e.currentApprovalStep);
    var db' := db.(expenses := db.expenses[expenseId := e'], steps := db.steps + p.newSteps);
    assert forall k :: |db.steps| <= k < |db'.steps| ==> db'.steps[k] in p.newSteps;
    db'
  }

  /** `processApprovalFlow(expense, prisma)`: build the chain of a stored expense. */
  function BuildChain(db: Db, expenseId: Id): (db': Db)
    requires db.Valid() && expenseId < |db.expenses|
    requires db.expenses[expenseId].submitterId in db.users.rows
    ensures db'.Valid()
    ensures |db'.expenses| == |db.expenses|
    ensures forall id :: 0 <= id < |db.expenses| && id != expenseId ==> db'.expenses[id] == db.expenses[id]
    ensures db'.rules == db.rules && db'.users == db.users && db'.actions == db.actions
    ensures |db.steps| <= |db'.steps| && db'.steps[..|db.steps|] == db.steps
    // the steps appended belong to the expense and are open
    ensures forall k :: |db.steps| <= k < |db'.steps| ==>
              db'.steps[k].expenseId == expenseId && !db'.steps[k].isCompleted && db'.steps[k].status == StepPending
    // the status written is IN_REVIEW or APPROVED, and an APPROVED expense got no steps
    ensures db'.expenses[expenseId].status == InReview
            || (db'.expenses[expenseId].status == Approved && db'.steps == db.steps)
    // IN_REVIEW always starts at step 1, whatever sequences the new steps carry
    ensures db'.expenses[expenseId].status == InReview ==> db'.expenses[expenseId].currentApprovalStep == Some(1)
    // only the status and current step of the expense change
    ensures db'.expenses[expenseId].(status := db.expenses[expenseId].status,
                                     currentApprovalStep := db.expenses[expenseId].currentApprovalStep)
            == db.expenses[expenseId]
  {
    var e := db.expenses[expenseId];
    ApplyPlan(db, expenseId, PlanChain(expenseId, e, db.users.rows[e.submitterId], db.users.rows, db.rules))
  }
}
