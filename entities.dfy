/**
 * The five tables of the expense approval workflow (Expense, ApprovalStep,
 * ApprovalAction, ApprovalRule, User), the caller identity supplied by the
 * authentication layer, and the error replies of the controllers.
 *
 * Row identifiers are natural numbers. The source's optional references
 * (`managerId`, `specificApproverId`, ...) become `Option<Id>`, where `None`
 * stands for every falsy value the source tests against (null, undefined).
 */
module Entities {

  datatype Option<+T> = None | Some(value: T)

  type Id = nat

  datatype Role = Employee | Manager | Admin

  /** The role names accepted by the user controller; anything else is not a role. */
  function ParseRole(s: string): (r: Option<Role>)
    ensures r == Some(Employee) <==> s == "EMPLOYEE"
    ensures r == Some(Manager) <==> s == "MANAGER"
    ensures r == Some(Admin) <==> s == "ADMIN"
    ensures r.Some? <==> s in {"EMPLOYEE", "MANAGER", "ADMIN"}
  {
    if s == "EMPLOYEE" then Some(Employee)
    else if s == "MANAGER" then Some(Manager)
    else if s == "ADMIN" then Some(Admin)
    else None
  }

  datatype ExpenseStatus = Pending | InReview | Approved | Rejected

  /** The two decisions an approver can take: "APPROVED" and "REJECTED". */
  datatype Decision = Approve | Reject

  function ParseDecision(s: string): (d: Option<Decision>)
    ensures d == Some(Approve) <==> s == "APPROVED"
    ensures d == Some(Reject) <==> s == "REJECTED"
  {
    if s == "APPROVED" then Some(Approve)
    else if s == "REJECTED" then Some(Reject)
    else None
  }

  /** An approval step is PENDING until its approver decides; it then carries the decision. */
  datatype StepStatus = StepPending | StepDecided(decision: Decision)

  /**
   * An expense row. `currentApprovalStep` is `None` until the chain builder or
   * the decision processor writes it (its schema default is not modelled).
   */
  datatype Expense = Expense(
    companyId: Id,
    submitterId: Id,
    amount: real,
    currency: string,
    category: string,
    description: string,
    date: string,
    status: ExpenseStatus,
    currentApprovalStep: Option<int>)

  /** One slot of an expense's approval chain. */
  datatype Step = Step(
    expenseId: Id,
    approverId: Id,
    sequence: int,
    status: StepStatus,
    isCompleted: bool)

  /** One entry of the append-only audit log. */
  datatype Action = Action(
    expenseId: Id,
    approverId: Id,
    decision: Decision,
    comments: Option<string>)

  datatype RuleType = Percentage | SpecificApprover | Hybrid

  /** One element of a rule's `approverSequence` JSON array. */
  datatype SequenceEntry = SequenceEntry(userId: Id, sequence: int)

  /**
   * A company's approval rule. `approverSequence` is `None` when the JSON
   * column is null; `Some([])` is an empty array, which JavaScript treats
   * as truthy.
   */
  datatype Rule = Rule(
    companyId: Id,
    isActive: bool,
    ruleType: RuleType,
    amountThreshold: Option<real>,
    approverSequence: Option<seq<SequenceEntry>>,
    percentageRequired: Option<int>,
    specificApproverId: Option<Id>)

  /** A threshold of null or 0 is falsy and means "no threshold". */
  predicate ThresholdSet(r: Rule) {
    r.amountThreshold.Some? && r.amountThreshold.value != 0.0
  }

  /** A percentage of null or 0 is falsy and means "no percentage condition". */
  predicate PercentageSet(r: Rule) {
    r.percentageRequired.Some? && r.percentageRequired.value != 0
  }

  /** A rule the company's queries load: one of its own, and active. */
  predicate Active(r: Rule, companyId: Id) {
    r.companyId == companyId && r.isActive
  }

  /**
   * `approvalRule.findMany({ where: { companyId, isActive: true } })`: the
   * company's active rules. Both the chain builder and the evaluator load
   * them this way (the evaluator's filter on the three rule types keeps
   * every rule).
   */
  function ActiveRules(rules: seq<Rule>, companyId: Id): (rs: seq<Rule>)
    ensures forall r {:trigger r in rs} :: r in rs <==> r in rules && Active(r, companyId)
    ensures |rs| <= |rules|
  {
    if rules == [] then []
    else if Active(rules[0], companyId) then [rules[0]] + ActiveRules(rules[1..], companyId)
    else ActiveRules(rules[1..], companyId)
  }

  /** A company without an active rule loads nothing. */
  lemma {:induction false} NoActiveRules(rules: seq<Rule>, companyId: Id)
    requires forall r :: r in rules ==> !Active(r, companyId)
    ensures ActiveRules(rules, companyId) == []
  {
    if rules != [] {
      assert rules[0] in rules;
      assert forall r :: r in rules[1..] ==> r in rules;
      NoActiveRules(rules[1..], companyId);
    }
  }

  /** `idx` lists positions of `rules`, strictly increasing, and `rs` is the table read at them. */
  predicate ReadAt(rules: seq<Rule>, idx: seq<nat>, rs: seq<Rule>) {
    && |idx| == |rs|
    && (forall j :: 0 <= j < |idx| ==> idx[j] < |rules| && rules[idx[j]] == rs[j])
    && (forall a, b :: 0 <= a < b < |idx| ==> idx[a] < idx[b])
  }

  /**
   * The loaded rules keep their stored order: they are the table read at
   * strictly increasing positions `idx`, which include every position of
   * an active rule of the company.
   */
  lemma {:induction false} ActiveRulesInStoredOrder(rules: seq<Rule>, companyId: Id) returns (idx: seq<nat>)
    ensures ReadAt(rules, idx, ActiveRules(rules, companyId))
    ensures forall k :: 0 <= k < |rules| && Active(rules[k], companyId) ==> k in idx
  {
    if rules == [] {
      idx := [];
    } else {
      var rest := ActiveRulesInStoredOrder(rules[1..], companyId);
      var shifted := ShiftedPositions(rules, rest, ActiveRules(rules[1..], companyId));
      forall k | 1 <= k < |rules| && Active(rules[k], companyId) ensures k in shifted {
        assert rules[1..][k - 1] == rules[k];
        var j :| 0 <= j < |rest| && rest[j] == k - 1;
        assert shifted[j] == k;
      }
      if Active(rules[0], companyId) {
        idx := [0] + shifted;
        assert ActiveRules(rules, companyId) == [rules[0]] + ActiveRules(rules[1..], companyId);
        assert forall j :: 1 <= j < |idx| ==> idx[j] == shifted[j - 1];
      } else {
        idx := shifted;
      }
    }
  }

  /** Positions in the tail, read as positions in the whole table. */
  lemma ShiftedPositions(rules: seq<Rule>, rest: seq<nat>, rs: seq<Rule>) returns (shifted: seq<nat>)
    requires rules != [] && ReadAt(rules[1..], rest, rs)
    ensures ReadAt(rules, shifted, rs) && 0 !in shifted
    ensures |shifted| == |rest| && forall j :: 0 <= j < |rest| ==> shifted[j] == rest[j] + 1
  {
    shifted := seq(|rest|, j requires 0 <= j < |rest| => rest[j] + 1);
    forall j | 0 <= j < |shifted| ensures shifted[j] < |rules| && rules[shifted[j]] == rs[j] {
      assert rules[1..][rest[j]] == rules[rest[j] + 1];
    }
  }

  /** `password` holds what the hashing collaborator produced, never the clear text. */
  datatype User = User(
    email: string,
    password: string,
    firstName: string,
    lastName: string,
    role: Role,
    companyId: Id,
    managerId: Option<Id>,
    isManagerApprover: bool)

  /** The user table: rows by id, and the next id the database will hand out. */
  datatype Users = Users(rows: map<Id, User>, nextId: Id) {
    predicate Valid() {
      forall id :: id in rows ==> id < nextId
    }
  }

  /** The authenticated caller, as the authentication layer supplies it. */
  datatype Caller = Caller(id: Id, companyId: Id, role: Role)

  /** The controllers' error replies: 400, 403, 404 and 500 respectively. */
  datatype Error =
    | BadRequest(message: string)
    | Forbidden(message: string)
    | NotFound(message: string)
    | ServerError

  datatype Result<+T> = Ok(value: T) | Err(error: Error)

  /**
   * A snapshot of the whole database. Rows of `expenses`, `steps` and
   * `actions` are identified by their index, which is also their creation
   * order.
   */
  datatype Db = Db(
    expenses: seq<Expense>,
    steps: seq<Step>,
    actions: seq<Action>,
    rules: seq<Rule>,
    users: Users)
  {
    /** Referential integrity the database enforces, and fresh user ids. */
    predicate Valid() {
      && (forall k :: 0 <= k < |steps| ==> steps[k].expenseId < |expenses|)
      && users.Valid()
    }
  }
}
