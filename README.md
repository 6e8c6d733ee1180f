# Expense approval workflow — a Dafny model

This project models the engine of a multi-company expense reimbursement
service. Employees submit expenses. A chain builder decides who must
approve each one. Approvers approve or reject in turn. Conditional rules
(a percentage of approvers, or one specific approver, or either) can cut
a chain short. Around the engine sit the expense endpoints, the
administrator's user-table operations and the sign-up form's password rule.

The five tables (Expense, ApprovalStep, ApprovalAction, ApprovalRule, User)
are a `Db` value in module `Entities`. Expense, step and action rows are
sequences whose index is the row id and the creation order. Users are a map
from id to row, plus the next id to hand out.

Each operation is first stated as a function over a `Db` snapshot, with a
contract that gives the outcome case by case:

- `ApprovalChain.BuildChain` models `processApprovalFlow`.
- `ConditionalRules.ShouldAutoApprove` models `checkConditionalRules`.
- `ApprovalDecision.Decide` models `processApproval`.
- `ExpenseController.Submit` models `submitExpense`.
- `UserController.CreateUser`, `UpdateUser` and `DeleteUser` model the user operations.

Class `Store.Database` then holds the tables as fields. Its methods update
them in place the way the controllers do, with the same guards, the loop
over the approver sequence, and the early-returning scan over the rules.
Each method is proved to leave exactly the snapshot its function describes.
Modules `Lifecycle` and `Scenarios` prove properties that span several
operations, such as the audit log staying complete and the chain quirks
listed below.

External collaborators become parameters:

- the authenticated caller (`Caller`);
- the password hash (`hashed`);
- the exchange-rate service (`rateOf`);
- the company currency (`companyCurrency`).

## Where the code and the documented design differ

The model follows the code:

- **REJECTED is not final.** `processApproval` never looks at the expense's status. An approver who still holds an open step can approve a REJECTED expense and move it to IN_REVIEW or APPROVED (`Lifecycle.RejectionIsNotFinal`, `Scenarios.ApprovalAfterRejection`).
- **Sequences need not be contiguous.** The next step must have exactly `sequence + 1`, and a rule's sequences are copied verbatim. A gap therefore ends the chain as APPROVED while later steps stay open (`Scenarios.GapEndsChainEarly`).
- **An empty approver sequence is truthy.** The expense becomes IN_REVIEW with no step, and right after submission nobody can act on it (`Lifecycle.EmptySequenceLeavesExpenseStuck`).
- **The current step is always 1.** When a chain starts, `currentApprovalStep` is set to 1 whatever sequences the rule declares.
- **The approval just given counts.** The step and the action are written before the rule evaluator reads them, so the approval being given counts toward the percentage (`Lifecycle.CurrentApprovalCounts`).
- **Falsy means unset.** A falsy threshold, percentage or specific approver means "unset". A numeric amount of 0 is "missing" on submission.
- **The reply is the PENDING row.** `submitExpense` replies with the row as inserted (PENDING), not as the chain builder left it.

## Model

| member | source | states |
|---|---|---|
| Entities.ParseRole | Backend/src/controllers/userController.js:20-22 | EMPLOYEE, MANAGER and ADMIN each become their own role, and no other string is a role |
| Entities.ActiveRules | Backend/src/utils/approvalLogic.js:20-22 | the loaded rules are exactly the company's active rules (the same query serves the chain builder and the evaluator) |
| Entities.NoActiveRules | Backend/src/utils/approvalLogic.js:20-24 | a company with no active rule loads an empty list |
| Entities.ActiveRulesInStoredOrder | Backend/src/utils/approvalLogic.js:20-22 | the loaded rules are the table read at strictly increasing positions, which include every active rule of the company: stored order is kept |
| Entities.ParseDecision | Backend/src/controllers/approvalController.js:51-53 | only "APPROVED" and "REJECTED" are decisions, each mapped to its own value |
| ConditionalRules.ScanExists | Backend/src/utils/approvalLogic.js:80-108 | the in-order scan with early return answers true iff some rule of the list fires |
| ConditionalRules.AutoApproveIff | Backend/src/utils/approvalLogic.js:68-113 | auto-approval holds iff some active company rule meets its specific-approver condition or its percentage condition (HYBRID: either) |
| ConditionalRules.NoRulesNoAutoApproval | Backend/src/utils/approvalLogic.js:70-78 | with no active rule for the company the evaluator answers false |
| ConditionalRules.MoreActionsKeepAutoApproval | Backend/src/utils/approvalLogic.js:80-105 | logging one more action never turns a true answer into false |
| ApprovalChain.FirstApplicable | Backend/src/utils/approvalLogic.js:32-35 | the selected rule is the first whose threshold is unset or at most the amount; every earlier one has a larger threshold; none is selected when no rule applies |
| ApprovalChain.FirstApplicableInStoredOrder | Backend/src/utils/approvalLogic.js:20-35 | the selected rule is the first rule of the whole table, in stored order, that is active for the company and applies to the amount; none is selected exactly when no such rule exists |
| ApprovalChain.StepsFor | Backend/src/utils/approvalLogic.js:40-49 | one PENDING, incomplete step per sequence entry, in order, with the entry's user and sequence |
| ApprovalChain.PlanChain | Backend/src/utils/approvalLogic.js:1-66 | a manager-approver gets the single step (sequence 1) and the rules are not consulted; no active rule gives APPROVED; otherwise the first applicable rule's sequence gives its steps and IN_REVIEW, and no match or no sequence gives APPROVED; IN_REVIEW exactly when step 1 is written |
| ApprovalChain.BuildChain | Backend/src/utils/approvalLogic.js:1-66 | only new open steps of this expense are appended; only its status and current step change; the status becomes IN_REVIEW (with current step 1) or APPROVED with no step; nothing else changes |
| ApprovalDecision.FirstMatch | Backend/src/controllers/approvalController.js:55-72 | the first step in stored order matching the query, and none exactly when no step matches |
| ApprovalDecision.StoredComments | Backend/src/controllers/approvalController.js:90 | an empty or missing comment is stored as null; any other is kept |
| ApprovalDecision.Record | Backend/src/controllers/approvalController.js:80-92 | exactly the found step is completed with the decision and exactly one action is appended |
| ApprovalDecision.Decide | Backend/src/controllers/approvalController.js:46-137 | 400 on an invalid action and 404 with no open step of the caller, both leaving the tables unchanged; otherwise one step is completed and one action logged; REJECTED rejects at once; an approval that meets a rule (counting itself) approves; otherwise the expense moves to an open step at exactly sequence+1, or is approved when there is none; the reply is the loaded expense with the new status |
| ApprovalDecision.DecideUsesOneOpenStep | Backend/src/controllers/approvalController.js:55-83 | a successful decision leaves the caller exactly one fewer open step on the expense |
| ApprovalDecision.DecideTwiceOnOneStep | Backend/src/controllers/approvalController.js:55-76 | repeating a decision on the caller's only open step fails with 404 and logs nothing more |
| ApprovalDecision.DecideKeepsAuditComplete | Backend/src/controllers/approvalController.js:80-92 | per expense, the number of logged actions equals the number of completed steps, before and after a decision |
| Ordering.Insert | Backend/src/controllers/expenseController.js:54 | inserting a step into a sequence-ordered list keeps it ordered and adds exactly that step |
| Ordering.SortBySequence | Backend/src/controllers/expenseController.js:54 | steps are returned in ascending sequence and are a permutation of the input |
| ApprovalQueries.PendingApprovals | Backend/src/controllers/approvalController.js:6-44 | exactly the caller's incomplete steps whose expense is PENDING or IN_REVIEW, each with its expense, newest first |
| ApprovalQueries.History | Backend/src/controllers/approvalController.js:139-156 | exactly the actions of the expense, newest first |
| ExpenseController.NewExpense | Backend/src/controllers/expenseController.js:15-25 | the inserted row is PENDING, has no current step, and belongs to the caller and the caller's company, with the given fields |
| ExpenseController.Submit | Backend/src/controllers/expenseController.js:7-41 | a falsy field (a numeric amount of 0 included) gives 400 and changes nothing; otherwise the expense is appended and the chain built once on it; the reply carries the row as inserted |
| ExpenseController.Detail | Backend/src/controllers/expenseController.js:47-63 | an expense's steps are sorted by sequence and are a permutation of its stored steps; its history is `History` of the expense: all its actions, newest first |
| ExpenseController.MyExpenses | Backend/src/controllers/expenseController.js:43-73 | exactly the caller's own expenses, each with its details, newest first |
| ExpenseController.ExpenseById | Backend/src/controllers/expenseController.js:125-164 | 404 exactly when the expense is missing or belongs to another company; otherwise its details |
| ExpenseController.ConvertCurrency | Backend/src/utils/currencyConverter.js:3-25 | equal currencies return the amount unchanged; a known non-zero rate multiplies; a failed lookup or a falsy rate returns the amount |
| ExpenseController.WithConversion | Backend/src/controllers/expenseController.js:96-116 | in the company's own currency the converted amount is the amount itself |
| ExpenseController.SameCurrencyIgnoresRates | Backend/src/controllers/expenseController.js:98-114 | in the company's own currency the listing does not depend on the rate service |
| ExpenseController.AllExpenses | Backend/src/controllers/expenseController.js:75-123 | exactly the company's expenses, each with its converted amount, newest first |
| UserController.View | Backend/src/controllers/userController.js:52-53 | the reply shows every field of the row except the password |
| UserController.CreateUser | Backend/src/controllers/userController.js:6-63 | 403 for a non-admin, then 400 for a missing field, an invalid role or a taken email, all leaving the table unchanged; otherwise exactly one row is added under a fresh id, in the caller's company, with manager null and approver flag false unless given |
| UserController.Updated | Backend/src/controllers/userController.js:110-113 | only a truthy role and a given manager or approver flag change; every other field keeps its value |
| UserController.UpdateUser | Backend/src/controllers/userController.js:94-139 | 403 for a non-admin; 404 for a missing target or one from another company; 500 for a role the database refuses; otherwise only the target row changes |
| UserController.DeleteUser | Backend/src/controllers/userController.js:141-168 | 403 for a non-admin; 404 for a missing target or one from another company; 400 for the caller themself; otherwise exactly that row is removed |
| UserController.Managers | Backend/src/controllers/userController.js:170-191 | exactly the MANAGER and ADMIN users of the caller's company |
| UserController.AllUsers | Backend/src/controllers/userController.js:65-92 | exactly the users of the caller's company, newest first |
| UserController.CreateKeepsEmailsUnique | Backend/src/controllers/userController.js:24-28 | creating a user never gives two rows the same email |
| UserController.NonAdminChangesNothing | Backend/src/controllers/userController.js:11-13 | a non-admin's create, update or delete leaves the user table as it was |
| Signup.ValidatePassword | Frontend/src/components/Auth/Signup.jsx:39-54 | empty exactly for a password of at least 8 characters with a lowercase letter, an uppercase letter and a digit; otherwise the first rule broken in that order |
| Signup.ErrorWhileTyping | Frontend/src/components/Auth/Signup.jsx:56-66 | an emptied field shows no error; otherwise no error exactly for a strong password |
| Signup.OnSubmit | Frontend/src/components/Auth/Signup.jsx:68-89 | `signup` is called exactly for a strong password; otherwise a non-empty message is shown |
| Store.Database.CheckConditionalRules | Backend/src/utils/approvalLogic.js:68-113 | the early-returning loop over the loaded rules changes nothing and answers the evaluator's value |
| Store.Database.ProcessApprovalFlow | Backend/src/utils/approvalLogic.js:1-66 | the in-place inserts and updates leave exactly the tables of `BuildChain` |
| Store.Database.SubmitExpense | Backend/src/controllers/expenseController.js:7-41 | the in-place insert and chain build leave exactly the tables and reply of `Submit` |
| Store.Database.ProcessApproval | Backend/src/controllers/approvalController.js:46-137 | the in-place step update, action insert and expense update leave exactly the tables and reply of `Decide` |
| Store.Database.CreateUser | Backend/src/controllers/userController.js:6-63 | leaves the user table and reply of `CreateUser` and touches no other table |
| Store.Database.UpdateUser | Backend/src/controllers/userController.js:94-139 | leaves the user table and reply of `UpdateUser` and touches no other table |
| Store.Database.DeleteUser | Backend/src/controllers/userController.js:141-168 | leaves the user table and reply of `DeleteUser` and touches no other table |
| Lifecycle.SubmitKeepsAuditComplete | Backend/src/controllers/expenseController.js:15-34 | a submission adds only open steps and no action, so the log still holds one action per completed step |
| Lifecycle.NoReviewerApprovesAtOnce | Backend/src/utils/approvalLogic.js:20-30 | without a manager-approver or an active rule, the new expense is APPROVED with no step while the reply says PENDING |
| Lifecycle.ManagerApproverIgnoresRules | Backend/src/utils/approvalLogic.js:5-18 | a manager-approver gets one step at sequence 1, the expense is IN_REVIEW at step 1, and the stored rules make no difference |
| Lifecycle.EmptySequenceLeavesExpenseStuck | Backend/src/utils/approvalLogic.js:37-54 | an empty approver sequence gives IN_REVIEW with no step; every decision on the expense right after submission fails, and it is in nobody's pending list |
| Lifecycle.CurrentApprovalCounts | Backend/src/controllers/approvalController.js:80-104 | an approval that, counting itself, reaches an active rule's percentage approves the expense |
| Lifecycle.SpecificApproverEndsChain | Backend/src/utils/approvalLogic.js:81-91 | the approver named by an active SPECIFIC_APPROVER or HYBRID rule approves the expense with their own approval |
| Lifecycle.RejectionIsNotFinal | Backend/src/controllers/approvalController.js:55-132 | a REJECTED expense is not in the pending list of any approver still holding an open step on it, yet that approver can still move it to APPROVED or IN_REVIEW |
| Scenarios.FirstOfThreeMovesOn | Backend/src/controllers/approvalController.js:112-125 | under a 60% rule, the first of three approvals moves the expense to sequence 2 |
| Scenarios.SecondOfThreeMeetsSixtyPercent | Backend/src/utils/approvalLogic.js:93-104 | the second of three approvals (67%) approves the expense and the third step stays open |
| Scenarios.GapEndsChainEarly | Backend/src/controllers/approvalController.js:112-132 | with sequences 1 and 3, approving sequence 1 fully approves the expense and leaves sequence 3 open |
| Scenarios.ApprovalAfterRejection | Backend/src/controllers/approvalController.js:46-137 | after a rejection by the first approver, the second approver's approval turns the expense APPROVED |

## Left out

- Floating point: amounts are exact reals and the percentage test is exact. JavaScript evaluates `approved / total * 100` in binary floating point, so a boundary case can differ (57 of 100 gives 56.99999999999999, below 57).
- `parseFloat` and `new Date`: the amount arrives as a number and the date as text. An amount sent as text is not modelled. A non-numeric amount string passes the falsy check and is stored as NaN. A zero sent as the text "0", which is what the employee dashboard's form sends, also passes the falsy check (the string is truthy) and is stored as 0 with its chain built, where `ExpenseController.Submit` answers 400.
- Prisma `include`/`select` projections: replies carry the modelled rows rather than the joined and trimmed objects. For example, the submitter, approver and company objects are not modelled, and neither is the narrower field list of `updateUser`'s and `getManagers`' replies.
- Concurrency: each operation runs as one sequential step. Transactions, interleaving and the lack of atomicity between the step inserts are out of scope.
- Database errors: an unexpected database failure is not modelled. In the source it becomes a 500 reply, and inside the evaluator a false answer.
- Foreign keys: the submitter must be a stored user, and an unknown submitter gives 500. No other foreign key is checked; a manager id that names no stored user counts as no manager.
- `Expense.currentApprovalStep`: its schema default is not modelled. A new expense has no current step.
- Password hashing and the exchange-rate service are outside the model. They enter as the `hashed` and `rateOf` parameters.
- The role enum: updating a user with an unknown role is assumed to be refused by the database's enum column (500).
- Rule types: only the three rule types are modelled; the database schema is not part of this model.
- Signup.ValidatePassword: length counts Unicode characters, not JavaScript's UTF-16 code units. The two differ only for characters outside the Basic Multilingual Plane.
- Signup.OnSubmit: the form-state updates, loading flag and navigation are UI and not modelled.
- ExpenseController.AllExpenses: the steps included with each listed expense are not modelled.
- The `currentSequence` argument of `checkConditionalRules` is unused by the source and is not a parameter of the model.
- Out of scope: authController.js (registration, login, JWT), the Express routes and app bootstrap, and the React views.
