/**
 * expenseController.js: submission of an expense (validation, creation,
 * chain building) and the three read endpoints, plus the currency
 * converter of currencyConverter.js that the company-wide listing calls.
 */
module ExpenseController {
  import opened Entities
  import opened Ordering
  import opened ApprovalChain
  import opened ApprovalQueries

  /** The request body of a submission; the amount arrives as a number. */
  datatype ExpenseInput = ExpenseInput(amount: real, currency: string, category: string,
                                       description: string, date: string)

  /** No field is falsy: a zero amount or an empty text counts as missing. */
  predicate Complete(input: ExpenseInput) {
    && input.amount != 0.0
    && input.currency != ""
    && input.category != ""
    && input.description != ""
    && input.date != ""
  }

  /** The row `submitExpense` inserts for the caller. */
  function NewExpense(caller: Caller, input: ExpenseInput): (e: Expense)
    ensures e.status == Pending && e.currentApprovalStep == None
    ensures e.submitterId == caller.id && e.companyId == caller.companyId
    ensures e.amount == input.amount && e.currency == input.currency && e.category == input.category
    ensures e.description == input.description && e.date == input.date
  {
    Expense(caller.companyId, caller.id, input.amount, input.currency, input.category,
            input.description, input.date, Pending, None)
  }

  datatype Submitted = Submitted(expenseId: Id, expense: Expense)

  datatype SubmitOutcome = SubmitOutcome(db: Db, reply: Result<Submitted>)

  /**
   * `submitExpense`: validate, insert the expense as PENDING, then build its
   * chain once. The reply is the row as inserted, not as the chain builder
   * left it. An unknown caller cannot be a submitter (the insert fails).
   */
  function Submit(db: Db, caller: Caller, input: ExpenseInput): (out: SubmitOutcome)
    requires db.Valid()
    ensures out.db.Valid()
    ensures !Complete(input) ==> out == SubmitOutcome(db, Err(BadRequest("All fields are required")))
    ensures Complete(input) && caller.id !in db.users.rows ==> out == SubmitOutcome(db, Err(ServerError))
    ensures out.reply.Ok? <==> Complete(input) && caller.id in db.users.rows
    ensures out.reply.Ok? ==>
              var id := out.reply.value.expenseId;
              var created := db.(expenses := db.expenses + [NewExpense(caller, input)]);
              && id == |db.expenses|
              && out.reply.value.expense == NewExpense(caller, input)
              && out.db == BuildChain(created, id)
  {
    if !Complete(input) then SubmitOutcome(db, Err(BadRequest("All fields are required")))
    else if caller.id !in db.users.rows then SubmitOutcome(db, Err(ServerError))
    else
      var e := NewExpense(caller, input);
      var id := |db.expenses|;
      var created := db.(expenses := db.expenses + [e]);
      SubmitOutcome(BuildChain(created, id), Ok(Submitted(id, e)))
  }

  /** The steps of one expense, in stored order. */
  function StepsOf(steps: seq<Step>, expenseId: Id): (r: seq<Step>)
    ensures forall s :: multiset(r)[s] == if s.expenseId == expenseId then multiset(steps)[s] else 0
  {
    if steps == [] then []
    else
      assert steps == [steps[0]] + steps[1..];
      if steps[0].expenseId == expenseId then [steps[0]] + StepsOf(steps[1..], expenseId)
      else StepsOf(steps[1..], expenseId)
  }

  /** An expense with its steps by ascending sequence and its actions newest first. */
  datatype ExpenseDetail = ExpenseDetail(expenseId: Id, expense: Expense, steps: seq<Step>, history: seq<Logged>)

  function Detail(db: Db, id: Id): (d: ExpenseDetail)
    requires id < |db.expenses|
    ensures d.expenseId == id && d.expense == db.expenses[id]
    ensures SortedBySequence(d.steps)
    ensures multiset(d.steps) == multiset(StepsOf(db.steps, id))
    ensures d.history == History(db.actions, id)
  {
    ExpenseDetail(id, db.expenses[id], SortBySequence(StepsOf(db.steps, id)), History(db.actions, id))
  }

  /** `getMyExpenses`: the caller's own expenses, newest first. */
  function MyExpenses(db: Db, callerId: Id): (r: seq<ExpenseDetail>)
    ensures forall j :: 0 <= j < |r| ==>
              && r[j].expenseId < |db.expenses|
              && r[j] == Detail(db, r[j].expenseId)
              && r[j].expense.submitterId == callerId
    ensures forall id :: 0 <= id < |db.expenses| && db.expenses[id].submitterId == callerId ==>
              exists j :: 0 <= j < |r| && r[j].expenseId == id
    ensures forall a, b :: 0 <= a < b < |r| ==> r[a].expenseId > r[b].expenseId
  {
    var ids := RowsDesc(|db.expenses|, (i: nat) => i < |db.expenses| && db.expenses[i].submitterId == callerId);
    assert forall j :: 0 <= j < |ids| ==> ids[j] in ids;
    var r := seq(|ids|, j requires 0 <= j < |ids| => Detail(db, ids[j]));
    forall id: nat | id < |db.expenses| && db.expenses[id].submitterId == callerId
      ensures exists j :: 0 <= j < |r| && r[j].expenseId == id
    {
      assert id in ids;
      var j :| 0 <= j < |ids| && ids[j] == id;
      assert r[j].expenseId == id;
    }
    r
  }

  /** `getExpenseById`: 404 for a missing expense or one of another company. */
  function ExpenseById(db: Db, caller: Caller, id: Id): (r: Result<ExpenseDetail>)
    ensures r == Err(NotFound("Expense not found"))
            <==> id >= |db.expenses| || db.expenses[id].companyId != caller.companyId
    ensures r.Ok? ==> id < |db.expenses| && r.value == Detail(db, id)
  {
    if id >= |db.expenses| || db.expenses[id].companyId != caller.companyId then Err(NotFound("Expense not found"))
    else Ok(Detail(db, id))
  }

  /**
   * `convertCurrency`. `rateOf(from, to)` stands for the exchange-rate
   * service: `None` when the request fails or knows no rate. A falsy
   * rate (0) also leaves the amount as it is.
   */
  function ConvertCurrency(amount: real, from: string, to: string, rateOf: (string, string) -> Option<real>): (r: real)
    ensures from == to ==> r == amount
    ensures from != to && rateOf(from, to).Some? && rateOf(from, to).value != 0.0 ==>
              r == amount * rateOf(from, to).value
    ensures from != to && (rateOf(from, to).None? || rateOf(from, to).value == 0.0) ==> r == amount
  {
    if from == to then amount
    else match rateOf(from, to)
      case None => amount
      case Some(rate) => if rate == 0.0 then amount else amount * rate
  }

  /** An expense of the company listing with its amount in the company currency. */
  datatype Listed = Listed(expenseId: Id, expense: Expense, convertedAmount: real, companyCurrency: string)

  function WithConversion(id: Id, e: Expense, companyCurrency: string,
                          rateOf: (string, string) -> Option<real>): (l: Listed)
    ensures l.expenseId == id && l.expense == e && l.companyCurrency == companyCurrency
    ensures e.currency == companyCurrency ==> l.convertedAmount == e.amount
  {
    if e.currency != companyCurrency then
      Listed(id, e, ConvertCurrency(e.amount, e.currency, companyCurrency, rateOf), companyCurrency)
    else
      Listed(id, e, e.amount, companyCurrency)
  }

  /** In the company's own currency the listing does not depend on the rate service at all. */
  lemma SameCurrencyIgnoresRates(id: Id, e: Expense, companyCurrency: string,
                                 rates1: (string, string) -> Option<real>, rates2: (string, string) -> Option<real>)
    requires e.currency == companyCurrency
    ensures WithConversion(id, e, companyCurrency, rates1) == WithConversion(id, e, companyCurrency, rates2)
  {
  }

  /**
   * `getAllExpenses` for the caller's company, whose currency is
   * `companyCurrency`: every expense of the company, newest first.
   */
  function AllExpenses(db: Db, caller: Caller, companyCurrency: string,
                       rateOf: (string, string) -> Option<real>): (r: seq<Listed>)
    ensures forall j :: 0 <= j < |r| ==>
              && r[j].expenseId < |db.expenses|
              && r[j].expense == db.expenses[r[j].expenseId]
              && r[j].expense.companyId == caller.companyId
              && r[j] == WithConversion(r[j].expenseId, r[j].expense, companyCurrency, rateOf)
    ensures forall id :: 0 <= id < |db.expenses| && db.expenses[id].companyId == caller.companyId ==>
              exists j :: 0 <= j < |r| && r[j].expenseId == id
    ensures forall a, b :: 0 <= a < b < |r| ==> r[a].expenseId > r[b].expenseId
  {
    var ids := RowsDesc(|db.expenses|, (i: nat) => i < |db.expenses| && db.expenses[i].companyId == caller.companyId);
    assert forall j :: 0 <= j < |ids| ==> ids[j] in ids;
    var r := seq(|ids|, j requires 0 <= j < |ids| =>
                 WithConversion(ids[j], db.expenses[ids[j]], companyCurrency, rateOf));
    forall id: nat | id < |db.expenses| && db.expenses[id].companyId == caller.companyId
      ensures exists j :: 0 <= j < |r| && r[j].expenseId == id
    {
      assert id in ids;
      var j :| 0 <= j < |ids| && ids[j] == id;
      assert r[j].expenseId == id;
    }
    r
  }
}
