/**
 * The decision processor of approvalController.js (`processApproval`),
 * stated as a function over a database snapshot: one approver's decision
 * completes one step, appends one audit action and moves the expense on.
 */
module ApprovalDecision {
  import opened Entities
  import opened ConditionalRules

  /** The two step look-ups the processor makes. */
  datatype StepQuery =
    | OpenStepOf(expenseId: Id, approverId: Id)   // the caller's incomplete step on the expense
    | OpenStepAt(expenseId: Id, sequence: int)    // an incomplete step of the expense at a sequence

  predicate Matches(s: Step, q: StepQuery) {
    match q
    case OpenStepOf(e, a) => s.expenseId == e && s.approverId == a && !s.isCompleted
    case OpenStepAt(e, n) => s.expenseId == e && s.sequence == n && !s.isCompleted
  }

  /** `approvalStep.findFirst(...)`: the first matching step in stored order. */
  function FirstMatch(steps: seq<Step>, q: StepQuery): (k: Option<nat>)
    ensures k.Some? ==> k.value < |steps| && Matches(steps[k.value], q)
    ensures k.Some? ==> forall j :: 0 <= j < k.value ==> !Matches(steps[j], q)
    ensures k.None? <==> forall j :: 0 <= j < |steps| ==> !Matches(steps[j], q)
  {
    if steps == [] then None
    else if Matches(steps[0], q) then Some(0)
    else match FirstMatch(steps[1..], q)
      case None => None
      case Some(k) =>
        assert Matches(steps[1..][k], q);
        Some(k + 1)
  }

  /** `comments || null`: an empty comment is stored as null. */
  function StoredComments(comments: Option<string>): (c: Option<string>)
    ensures c.Some? <==> comments.Some? && comments.value != ""
    ensures c.Some? ==> c == comments
  {
    if comments.Some? && comments.value != "" then comments else None
  }

  /** Which of the four replies of the processor was given. */
  datatype Verdict =
    | RejectedNow     // "Expense rejected"
    | RuleMet         // "Expense approved (conditional rule met)"
    | MovedToNext     // "Approved - moved to next approver"
    | FullyApproved   // "Expense fully approved"

  /** The reply carries the expense as loaded before the decision, with only its status replaced. */
  datatype Reply = Reply(verdict: Verdict, expense: Expense)

  datatype Outcome = Outcome(db: Db, reply: Result<Reply>)

  /** The status each verdict leaves the expense in. */
  function VerdictStatus(v: Verdict): ExpenseStatus {
    match v
    case RejectedNow => Rejected
    case RuleMet => Approved
    case MovedToNext => InReview
    case FullyApproved => Approved
  }

  /** The snapshot after step `k` is completed with decision `d` and the action is logged. */
  function Record(db: Db, k: nat, approverId: Id, d: Decision, comments: Option<string>): (db': Db)
    requires db.Valid() && k < |db.steps|
    ensures db'.Valid()
    ensures db'.steps == db.steps[k := db.steps[k].(status := StepDecided(d), isCompleted := true)]
    ensures db'.actions == db.actions + [Action(db.steps[k].expenseId, approverId, d, StoredComments(comments))]
    ensures db'.expenses == db.expenses && db'.rules == db.rules && db'.users == db.users
  {
    var s := db.steps[k];
    db.(steps := db.steps[k := s.(status := StepDecided(d), isCompleted := true)],
        actions := db.actions + [Action(s.expenseId, approverId, d, StoredComments(comments))])
  }

  /** The step the caller may act on: their first incomplete step on the expense. */
  function CallerStep(db: Db, callerId: Id, expenseId: Id): Option<nat> {
    FirstMatch(db.steps, OpenStepOf(expenseId, callerId))
  }

  /**
   * `processApproval` for caller `callerId` on expense `expenseId`. Neither
   * the expense's status nor the step's position in the chain is checked:
   * any incomplete step of the caller is acted on.
   */
  function Decide(db: Db, callerId: Id, expenseId: Id, action: string, comments: Option<string>): (out: Outcome)
    requires db.Valid()
    ensures out.db.Valid()
    // an action other than APPROVED or REJECTED: 400, nothing changes
    ensures ParseDecision(action).None? ==> out == Outcome(db, Err(BadRequest("Invalid action")))
    // no incomplete step of the caller on the expense: 404, nothing changes
    ensures ParseDecision(action).Some? && CallerStep(db, callerId, expenseId).None? ==>
              out == Outcome(db, Err(NotFound("Approval step not found or already completed")))
    ensures out.reply.Ok? <==> ParseDecision(action).Some? && CallerStep(db, callerId, expenseId).Some?
    ensures out.reply.Err? ==> out.db == db
    ensures out.db.rules == db.rules && out.db.users == db.users
    ensures |out.db.expenses| == |db.expenses| && |out.db.steps| == |db.steps|
    ensures out.reply.Ok? ==>
              var d := ParseDecision(action).value;
              var k := CallerStep(db, callerId, expenseId).value;
              var step := db.steps[k];
              var e := db.expenses[expenseId];
              var e' := out.db.expenses[expenseId];
              var v := out.reply.value.verdict;
              var auto := ShouldAutoApprove(db.rules, out.db.steps, out.db.actions, expenseId, e.companyId);
              var next := FirstMatch(out.db.steps, OpenStepAt(expenseId, step.sequence + 1));
              // exactly the found step is completed with the decision
              && out.db.steps == db.steps[k := step.(status := StepDecided(d), isCompleted := true)]
              // exactly one action is appended
              && out.db.actions == db.actions + [Action(expenseId, callerId, d, StoredComments(comments))]
              // no other expense changes, and this one only in status and current step
              && (forall id :: 0 <= id < |db.expenses| && id != expenseId ==> out.db.expenses[id] == db.expenses[id])
              && e'.(status := e.status, currentApprovalStep := e.currentApprovalStep) == e
              && e'.status == VerdictStatus(v)
              // rejection is immediate
              && (d == Reject <==> v == RejectedNow)
              // an approval that satisfies a conditional rule (counting itself) ends the chain
              && (d == Approve && auto ==> v == RuleMet)
              // otherwise the chain moves to an incomplete step at exactly the next sequence ...
              && (d == Approve && !auto && next.Some? ==>
                    v == MovedToNext && e'.currentApprovalStep == Some(step.sequence + 1))
              // ... or, when there is none, ends as APPROVED
              && (d == Approve && !auto && next.None? ==> v == FullyApproved)
              && (v != MovedToNext ==> e'.currentApprovalStep == e.currentApprovalStep)
              // the reply shows the expense as loaded, with the new status
              && out.reply.value.expense == e.(status := VerdictStatus(v))
  {
    match ParseDecision(action)
    case None => Outcome(db, Err(BadRequest("Invalid action")))
    case Some(d) =>
      match CallerStep(db, callerId, expenseId)
      case None => Outcome(db, Err(NotFound("Approval step not found or already completed")))
      case Some(k) =>
        var step := db.steps[k];
        var e := db.expenses[expenseId];
        var rec := Record(db, k, callerId, d, comments);
        var v :=
          if d == Reject then RejectedNow
          else if ShouldAutoApprove(rec.rules, rec.steps, rec.actions, expenseId, e.companyId) then RuleMet
          else if FirstMatch(rec.steps, OpenStepAt(expenseId, step.sequence + 1)).Some? then MovedToNext
          else FullyApproved;
        var e' := e.(status := VerdictStatus(v),
                     currentApprovalStep := if v == MovedToNext then Some(step.sequence + 1) else e.currentApprovalStep);
        Outcome(rec.(expenses := db.expenses[expenseId := e']), Ok(Reply(v, e.(status := VerdictStatus(v)))))
  }

  /** Number of steps matching a query. */
  function MatchCount(steps: seq<Step>, q: StepQuery): nat {
    if steps == [] then 0
    else (if Matches(steps[0], q) then 1 else 0) + MatchCount(steps[1..], q)
  }

  lemma {:induction false} MatchCountUpdate(steps: seq<Step>, k: nat, s: Step, q: StepQuery)
    requires k < |steps|
    ensures MatchCount(steps[k := s], q) + (if Matches(steps[k], q) then 1 else 0)
            == MatchCount(steps, q) + (if Matches(s, q) then 1 else 0)
  {
    if k > 0 {
      assert steps[k := s][1..] == steps[1..][k - 1 := s];
      MatchCountUpdate(steps[1..], k - 1, s, q);
    }
  }

  lemma {:induction false} MatchCountZero(steps: seq<Step>, q: StepQuery)
    ensures MatchCount(steps, q) == 0 <==> forall j :: 0 <= j < |steps| ==> !Matches(steps[j], q)
  {
    if steps != [] {
      MatchCountZero(steps[1..], q);
      assert forall j :: 1 <= j < |steps| ==> steps[j] == steps[1..][j - 1];
    }
  }

  /**
   * Every successful decision uses up exactly one incomplete step of the
   * caller on the expense, so a caller holding n such steps can decide at
   * most n times.
   */
  lemma DecideUsesOneOpenStep(db: Db, callerId: Id, expenseId: Id, action: string, comments: Option<string>)
    requires db.Valid()
    ensures var out := Decide(db, callerId, expenseId, action, comments);
            out.reply.Ok? ==>
              MatchCount(out.db.steps, OpenStepOf(expenseId, callerId))
              == MatchCount(db.steps, OpenStepOf(expenseId, callerId)) - 1
  {
    var out := Decide(db, callerId, expenseId, action, comments);
    if out.reply.Ok? {
      var k := CallerStep(db, callerId, expenseId).value;
      var step := db.steps[k];
      MatchCountUpdate(db.steps, k, step.(status := StepDecided(ParseDecision(action).value), isCompleted := true),
                       OpenStepOf(expenseId, callerId));
    }
  }

  /**
   * Deciding twice on the caller's only incomplete step: the second call
   * is refused with 404 and the log holds exactly one new action.
   */
  lemma DecideTwiceOnOneStep(db: Db, callerId: Id, expenseId: Id, a1: string, c1: Option<string>,
                             a2: string, c2: Option<string>)
    requires db.Valid()
    requires MatchCount(db.steps, OpenStepOf(expenseId, callerId)) == 1
    requires ParseDecision(a1).Some? && ParseDecision(a2).Some?
    ensures var first := Decide(db, callerId, expenseId, a1, c1);
            var second := Decide(first.db, callerId, expenseId, a2, c2);
            && first.reply.Ok?
            && second == Outcome(first.db, Err(NotFound("Approval step not found or already completed")))
            && |second.db.actions| == |db.actions| + 1
  {
    MatchCountZero(db.steps, OpenStepOf(expenseId, callerId));
    var first := Decide(db, callerId, expenseId, a1, c1);
    DecideUsesOneOpenStep(db, callerId, expenseId, a1, c1);
    MatchCountZero(first.db.steps, OpenStepOf(expenseId, callerId));
  }

  /** Number of completed steps of an expense. */
  function CompletedCount(steps: seq<Step>, expenseId: Id): nat {
    if steps == [] then 0
    else (if steps[0].expenseId == expenseId && steps[0].isCompleted then 1 else 0) + CompletedCount(steps[1..], expenseId)
  }

  /** Number of logged actions of an expense. */
  function ActionCount(actions: seq<Action>, expenseId: Id): nat {
    if actions == [] then 0
    else (if actions[0].expenseId == expenseId then 1 else 0) + ActionCount(actions[1..], expenseId)
  }

  /** The audit log holds one action per completed step, expense by expense. */
  ghost predicate AuditComplete(db: Db) {
    forall id: Id :: ActionCount(db.actions, id) == CompletedCount(db.steps, id)
  }

  lemma {:induction false} CompletedCountUpdate(steps: seq<Step>, k: nat, s: Step, expenseId: Id)
    requires k < |steps|
    ensures CompletedCount(steps[k := s], expenseId)
              + (if steps[k].expenseId == expenseId && steps[k].isCompleted then 1 else 0)
            == CompletedCount(steps, expenseId) + (if s.expenseId == expenseId && s.isCompleted then 1 else 0)
  {
    if k > 0 {
      assert steps[k := s][1..] == steps[1..][k - 1 := s];
      CompletedCountUpdate(steps[1..], k - 1, s, expenseId);
    }
  }

  lemma {:induction false} ActionCountAppend(actions: seq<Action>, a: Action, expenseId: Id)
    ensures ActionCount(actions + [a], expenseId) == ActionCount(actions, expenseId) + (if a.expenseId == expenseId then 1 else 0)
  {
    if actions != [] {
      assert (actions + [a])[1..] == actions[1..] + [a];
      ActionCountAppend(actions[1..], a, expenseId);
    }
  }

  /** A decision completes one step and logs one action, so the audit log stays complete. */
  lemma DecideKeepsAuditComplete(db: Db, callerId: Id, expenseId: Id, action: string, comments: Option<string>)
    requires db.Valid() && AuditComplete(db)
    ensures AuditComplete(Decide(db, callerId, expenseId, action, comments).db)
  {
    var out := Decide(db, callerId, expenseId, action, comments);
    if out.reply.Ok? {
      var k := CallerStep(db, callerId, expenseId).value;
      var step := db.steps[k];
      var d := ParseDecision(action).value;
      var a := Action(expenseId, callerId, d, StoredComments(comments));
      forall id: Id ensures ActionCount(out.db.actions, id) == CompletedCount(out.db.steps, id) {
        CompletedCountUpdate(db.steps, k, step.(status := StepDecided(d), isCompleted := true), id);
        ActionCountAppend(db.actions, a, id);
      }
    }
  }
}
