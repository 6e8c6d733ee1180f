/**
 * The database the controllers share, as an object whose tables the
 * operations update in place. Each state-changing method is proved to
 * leave exactly the snapshot its specification function describes.
 */
module Store {
  import opened Entities
  import opened ConditionalRules
  import opened ApprovalChain
  import opened ApprovalDecision
  import opened ExpenseController
  import UserController

  class Database {
    var expenses: seq<Expense>
    var steps: seq<Step>
    var actions: seq<Action>
    var rules: seq<Rule>
    var users: map<Id, User>
    var nextUserId: Id

    /** The tables as a value. */
    function Snapshot(): Db
      reads this
    {
      Db(expenses, steps, actions, rules, Users(users, nextUserId))
    }

    predicate Valid()
      reads this
    {
      Snapshot().Valid()
    }

    constructor (db: Db)
      requires db.Valid()
      ensures Valid() && Snapshot() == db
    {
      expenses, steps, actions, rules := db.expenses, db.steps, db.actions, db.rules;
      users, nextUserId := db.users.rows, db.users.nextId;
    }

    /**
     * `checkConditionalRules`: scan the loaded rules in stored order and
     * answer true at the first one whose condition holds.
     */
    method CheckConditionalRules(expenseId: Id, companyId: Id) returns (approve: bool)
      ensures approve == ShouldAutoApprove(rules, steps, actions, expenseId, companyId)
    {
      var loaded := ActiveRules(rules, companyId);
      if |loaded| == 0 {
        return false;
      }
      ScanExists(loaded, steps, actions, expenseId);
      for i := 0 to |loaded|
        invariant forall j :: 0 <= j < i ==> !Fires(loaded[j], steps, actions, expenseId)
      {
        var rule := loaded[i];
        if (rule.ruleType == SpecificApprover || rule.ruleType == Hybrid) && rule.specificApproverId.Some? {
          var specificApproval := ApprovedBy(actions, expenseId, rule.specificApproverId.value);
          if specificApproval {
            return true;
          }
        }
        if (rule.ruleType == Percentage || rule.ruleType == Hybrid) && PercentageSet(rule) {
          var totalApprovers := StepCount(steps, expenseId);
          var approvedCount := ApprovedCount(actions, expenseId);
          if PercentageReached(approvedCount, totalApprovers, rule.percentageRequired.value) {
            return true;
          }
        }
      }
      return false;
    }

    /** `processApprovalFlow`: insert the first steps of a stored expense and set its status. */
    method ProcessApprovalFlow(expenseId: Id)
      requires Valid() && expenseId < |expenses| && expenses[expenseId].submitterId in users
      modifies this
      ensures Valid()
      ensures Snapshot() == BuildChain(old(Snapshot()), expenseId)
    {
      var e := expenses[expenseId];
      var submitter := users[e.submitterId];
      if submitter.managerId.Some? && submitter.managerId.value in users
         && users[submitter.managerId.value].isManagerApprover
      {
        steps := steps + [Step(expenseId, submitter.managerId.value, 1, StepPending, false)];
        expenses := expenses[expenseId := e.(status := InReview, currentApprovalStep := Some(1))];
      } else {
        var active := ActiveRules(rules, e.companyId);
        if |active| == 0 {
          expenses := expenses[expenseId := e.(status := Approved)];
          return;
        }
        var matching := FirstApplicable(active, e.amount);
        if matching.Some? && active[matching.value].approverSequence.Some? {
          var approvers := active[matching.value].approverSequence.value;
          for n := 0 to |approvers|
            invariant |steps| == |old(steps)| + n
            invariant steps[..|old(steps)|] == old(steps)
            invariant forall k :: 0 <= k < n ==> steps[|old(steps)| + k] == PendingStep(expenseId, approvers[k])
            invariant expenses == old(expenses) && actions == old(actions) && rules == old(rules)
            invariant users == old(users) && nextUserId == old(nextUserId)
          {
            steps := steps + [PendingStep(expenseId, approvers[n])];
          }
          assert steps == old(steps) + StepsFor(expenseId, approvers);
          expenses := expenses[expenseId := e.(status := InReview, currentApprovalStep := Some(1))];
        } else {
          expenses := expenses[expenseId := e.(status := Approved)];
        }
      }
    }

    /** `submitExpense`: validate, insert the expense as PENDING, build its chain. */
    method SubmitExpense(caller: Caller, input: ExpenseInput) returns (reply: Result<Submitted>)
      requires Valid()
      modifies this
      ensures Valid()
      ensures var out := Submit(old(Snapshot()), caller, input);
              Snapshot() == out.db && reply == out.reply
    {
      if !Complete(input) {
        return Err(BadRequest("All fields are required"));
      }
      if caller.id !in users {
        return Err(ServerError);
      }
      var expense := NewExpense(caller, input);
      var id := |expenses|;
      expenses := expenses + [expense];
      ProcessApprovalFlow(id);
      reply := Ok(Submitted(id, expense));
    }

    /** `processApproval`: record one decision and move the expense on. */
    method ProcessApproval(callerId: Id, expenseId: Id, action: string, comments: Option<string>)
      returns (reply: Result<Reply>)
      requires Valid()
      modifies this
      ensures Valid()
      ensures var out := Decide(old(Snapshot()), callerId, expenseId, action, comments);
              Snapshot() == out.db && reply == out.reply
    {
      var decision := ParseDecision(action);
      if decision.None? {
        return Err(BadRequest("Invalid action"));
      }
      var d := decision.value;
      var found := FirstMatch(steps, OpenStepOf(expenseId, callerId));
      if found.None? {
        return Err(NotFound("Approval step not found or already completed"));
      }
      var approvalStep := steps[found.value];
      var expense := expenses[expenseId];
      steps := steps[found.value := approvalStep.(status := StepDecided(d), isCompleted := true)];
      actions := actions + [Action(expenseId, callerId, d, StoredComments(comments))];
      if d == Reject {
        expenses := expenses[expenseId := expense.(status := Rejected)];
        return Ok(Reply(RejectedNow, expense.(status := Rejected)));
      }
      var shouldAutoApprove := CheckConditionalRules(expenseId, expense.companyId);
      if shouldAutoApprove {
        expenses := expenses[expenseId := expense.(status := Approved)];
        return Ok(Reply(RuleMet, expense.(status := Approved)));
      }
      var nextStep := FirstMatch(steps, OpenStepAt(expenseId, approvalStep.sequence + 1));
      if nextStep.Some? {
        expenses := expenses[expenseId := expense.(status := InReview,
                                                   currentApprovalStep := Some(steps[nextStep.value].sequence))];
        return Ok(Reply(MovedToNext, expense.(status := InReview)));
      } else {
        expenses := expenses[expenseId := expense.(status := Approved)];
        return Ok(Reply(FullyApproved, expense.(status := Approved)));
      }
    }

    /** `createUser`; `hashed` is the hashing collaborator's output for the password. */
    method CreateUser(caller: Caller, input: UserController.NewUser, hashed: string)
      returns (reply: Result<UserController.UserView>)
      requires Valid()
      modifies this
      ensures Valid()
      ensures var out := UserController.CreateUser(old(Snapshot()).users, caller, input, hashed);
              Users(users, nextUserId) == out.users && reply == out.reply
      ensures expenses == old(expenses) && steps == old(steps) && actions == old(actions) && rules == old(rules)
    {
      if caller.role != Admin {
        return Err(Forbidden("Only admins can create users"));
      }
      if !UserController.AllGiven(input) {
        return Err(BadRequest("All fields are required"));
      }
      var role := ParseRole(input.role);
      if role.None? {
        return Err(BadRequest("Invalid role"));
      }
      if UserController.EmailTaken(Users(users, nextUserId), input.email) {
        return Err(BadRequest("Email already exists"));
      }
      var id := nextUserId;
      var user := User(input.email, hashed, input.firstName, input.lastName, role.value, caller.companyId,
                       input.managerId, input.isManagerApprover == Some(true));
      users := users[id := user];
      nextUserId := nextUserId + 1;
      reply := Ok(UserController.View(id, user));
    }

    /** `updateUser`: change only the fields the body gives. */
    method UpdateUser(caller: Caller, id: Id, upd: UserController.UserUpdate)
      returns (reply: Result<UserController.UserView>)
      requires Valid()
      modifies this
      ensures Valid()
      ensures var out := UserController.UpdateUser(old(Snapshot()).users, caller, id, upd);
              Users(users, nextUserId) == out.users && reply == out.reply
      ensures expenses == old(expenses) && steps == old(steps) && actions == old(actions) && rules == old(rules)
    {
      if caller.role != Admin {
        return Err(Forbidden("Only admins can update users"));
      }
      if id !in users || users[id].companyId != caller.companyId {
        return Err(NotFound("User not found"));
      }
      if upd.role != "" && ParseRole(upd.role).None? {
        return Err(ServerError);
      }
      var user := users[id];
      if upd.role != "" {
        user := user.(role := ParseRole(upd.role).value);
      }
      if upd.managerId.Given? {
        user := user.(managerId := upd.managerId.value);
      }
      if upd.isManagerApprover.Given? {
        user := user.(isManagerApprover := upd.isManagerApprover.value);
      }
      users := users[id := user];
      reply := Ok(UserController.View(id, user));
    }

    /** `deleteUser`: remove exactly the target row. */
    method DeleteUser(caller: Caller, id: Id) returns (reply: Result<()>)
      requires Valid()
      modifies this
      ensures Valid()
      ensures var out := UserController.DeleteUser(old(Snapshot()).users, caller, id);
              Users(users, nextUserId) == out.users && reply == out.reply
      ensures expenses == old(expenses) && steps == old(steps) && actions == old(actions) && rules == old(rules)
    {
      if caller.role != Admin {
        return Err(Forbidden("Only admins can delete users"));
      }
      if id !in users || users[id].companyId != caller.companyId {
        return Err(NotFound("User not found"));
      }
      if id == caller.id {
        return Err(BadRequest("Cannot delete yourself"));
      }
      users := users - {id};
      reply := Ok(());
    }
  }
}
