/** What the withdraw workflow does to the database, as functions of the
    database contents before the call, the in-memory objects the code holds,
    and which writes fail. `WithdrawService` implements each of these with
    the database's own operations and is proved equal to it; the lemmas in
    `WithdrawProperties` are stated about these functions. */
module WithdrawSpec {
  import opened Common
  import opened Model
  import opened Persistence
  import InsufficientBalance

  /** The throwables that reach the workflow's catch blocks. */
  datatype Failure =
    | Insufficient(ex: InsufficientBalance.Exception)
    /** `findOrFail` found no account with this id. */
    | AccountNotFound(accountId: Id)
    /** A database write raised an error with this message. */
    | QueryFailed(message: string)

  /** `$e->getMessage()`. For a missing account this is the message the
      framework's model-not-found exception composes from model class and id. */
  function Message(f: Failure): string {
    match f
    case Insufficient(ex) => ex.GetMessage()
    case AccountNotFound(id) => "No query results for model [App\\Model\\Account] " + id
    case QueryFailed(m) => m
  }

  const INSUFFICIENT_BALANCE_TEXT := "Saldo insuficiente. Certifique-se de que sua conta possui saldo disponível para realizar o saque."
  const GENERIC_FAILURE_TEXT := "Não foi possível processar seu saque. Por favor, tente novamente mais tarde ou entre em contato com o suporte."

  /** The text mailed to the owner of a withdraw whose settlement failed. */
  function UserFriendlyErrorMessage(f: Failure): (text: string)
    ensures text == INSUFFICIENT_BALANCE_TEXT <==> f.Insufficient?
    ensures !f.Insufficient? ==> text == GENERIC_FAILURE_TEXT
  {
    if f.Insufficient? then INSUFFICIENT_BALANCE_TEXT else GENERIC_FAILURE_TEXT
  }

  /** A mail handed to the mailer. Delivery is best effort and never changes
      the database; a mail is only built when the withdraw has a PIX row,
      whose key is the recipient (the mail classes take the key as a
      non-null string). */
  datatype NoticeKind = WithdrawConfirmation | ScheduleConfirmation | ScheduleError(text: string)
  datatype Notice = Notice(kind: NoticeKind, withdrawId: Id, to: string)

  function MailTo(t: Tables, kind: NoticeKind, withdrawId: Id): (ns: seq<Notice>)
    ensures |ns| <= 1
    ensures ns != [] <==> withdrawId in t.pixes
    ensures ns != [] ==> ns[0] == Notice(kind, withdrawId, t.pixes[withdrawId].key)
  {
    if withdrawId in t.pixes then [Notice(kind, withdrawId, t.pixes[withdrawId].key)] else []
  }

  // ---------------------------------------------------------------------------
  // executeWithdraw

  datatype ExecFaults = ExecFaults(saveAccount: Fault, saveWithdraw: Fault)

  /** The tables after `executeWithdraw`, the two in-memory objects as it
      leaves them, and what it threw. */
  datatype Executed = Executed(tables: Tables, withdraw: Withdraw, account: Account, failure: Option<Failure>)

  function InsufficientFor(a: Account, amount: Cents): Failure {
    Insufficient(InsufficientBalance.New("Insufficient balance", a.balance, amount))
  }

  function Execute(t: Tables, w: Withdraw, a: Account, f: ExecFaults): (r: Executed)
    // it succeeds exactly when the balance covers the amount and both saves go through
    ensures r.failure.None? <==> w.amount <= a.balance && f.saveAccount.Succeeds? && f.saveWithdraw.Succeeds?
    // a short balance raises InsufficientBalance(balance, amount) before anything changes
    ensures a.balance < w.amount ==> r == Executed(t, w, a, Some(InsufficientFor(a, w.amount)))
    // otherwise the balance goes down by exactly the amount, never below zero
    ensures w.amount <= a.balance ==> r.account == a.(balance := a.balance - w.amount) && r.account.balance >= 0
    // on success the debit and `done` are both written, and nothing else
    ensures r.failure.None? ==> r.withdraw == w.(done := true) && r.tables == t.SaveAccount(r.account).SaveWithdraw(r.withdraw)
    // a failed account save leaves the tables and the withdraw alone
    ensures w.amount <= a.balance && f.saveAccount.Fails? ==>
              r.tables == t && r.withdraw == w && r.failure == Some(QueryFailed(f.saveAccount.message))
    // a failed withdraw save leaves `done` set on the object, with only the debit written
    ensures w.amount <= a.balance && f.saveAccount.Succeeds? && f.saveWithdraw.Fails? ==>
              r.tables == t.SaveAccount(r.account) && r.withdraw == w.(done := true) &&
              r.failure == Some(QueryFailed(f.saveWithdraw.message))
  {
    if a.balance < w.amount then
      Executed(t, w, a, Some(InsufficientFor(a, w.amount)))
    else
      var debited := a.(balance := a.balance - w.amount);
      match f.saveAccount
      case Fails(m) => Executed(t, w, debited, Some(QueryFailed(m)))
      case Succeeds =>
        var t1 := t.SaveAccount(debited);
        var settled := w.(done := true);
        match f.saveWithdraw
        case Fails(m) => Executed(t1, settled, debited, Some(QueryFailed(m)))
        case Succeeds => Executed(t1.SaveWithdraw(settled), settled, debited, None)
  }

  // ---------------------------------------------------------------------------
  // createWithdraw

  datatype PixData = PixData(kind: string, key: string)

  /** The validated request data handed to `createWithdraw`. */
  datatype WithdrawData = WithdrawData(payoutMethod: string, amount: Cents, pix: Option<PixData>, schedule: Option<Time>)

  datatype CreateFaults = CreateFaults(insertWithdraw: Fault, insertPix: Fault, exec: ExecFaults)

  const NO_CREATE_FAULTS := CreateFaults(Succeeds, Succeeds, ExecFaults(Succeeds, Succeeds))

  /** The returned withdraw and the caller's account object as the call leaves it. */
  datatype Created = Created(withdraw: Withdraw, account: Account)

  datatype Creation = Creation(tables: Tables, result: Outcome<Created, Failure>, notices: seq<Notice>)

  /** The row `createWithdraw` inserts. */
  function NewWithdraw(id: Id, accountId: Id, data: WithdrawData): Withdraw {
    Withdraw(id, accountId, data.payoutMethod, data.amount, data.schedule.Some?, data.schedule, false, false, None)
  }

  /** A PIX row is written only for the method spelled exactly "PIX". */
  predicate WritesPix(data: WithdrawData) {
    data.payoutMethod == METHOD_PIX && data.pix.Some?
  }

  function PixRow(id: Id, data: WithdrawData): Pix
    requires data.pix.Some?
  {
    Pix(id, data.pix.value.kind, data.pix.value.key)
  }

  function Create(t: Tables, account: Account, data: WithdrawData, id: Id, f: CreateFaults): (r: Creation)
    requires id !in t.withdraws && id !in t.pixes
    // an immediate withdraw the balance does not cover is refused before any write;
    // a scheduled one is never refused for its balance
    ensures data.schedule.None? && account.balance < data.amount ==>
              r == Creation(t, Err(InsufficientFor(account, data.amount)), [])
    // any failure leaves every table as it was and sends nothing
    ensures r.result.Err? ==> r.tables == t && r.notices == []
    // with no failing write, only the immediate balance check can refuse
    ensures f == NO_CREATE_FAULTS ==> (r.result.Ok? <==> data.schedule.Some? || data.amount <= account.balance)
    ensures r.result.Ok? ==>
              var w := r.result.value.withdraw;
              && w == NewWithdraw(id, account.id, data).(done := data.schedule.None?)
              && r.tables.withdraws == t.withdraws[id := w]
              && r.tables.pixes == (if WritesPix(data) then t.pixes[id := PixRow(id, data)] else t.pixes)
              && (data.schedule.Some? ==> r.tables.accounts == t.accounts && r.result.value.account == account)
              && (data.schedule.None? ==>
                    && r.result.value.account == account.(balance := account.balance - data.amount)
                    && r.tables.accounts == t.SaveAccount(r.result.value.account).accounts)
              && r.notices == MailTo(r.tables, if data.schedule.Some? then ScheduleConfirmation else WithdrawConfirmation, id)
  {
    var scheduled := data.schedule.Some?;
    if !scheduled && account.balance < data.amount then
      Creation(t, Err(InsufficientFor(account, data.amount)), [])
    else
      var w := NewWithdraw(id, account.id, data);
      match Store(t, w, data, f)
      case Err(failure) => Creation(t, Err(failure), [])
      case Ok(t2) =>
        if scheduled then
          Creation(t2, Ok(Created(w, account)), MailTo(t2, ScheduleConfirmation, id))
        else
          var e := Execute(t2, w, account, f.exec);
          if e.failure.Some? then
            Creation(t, Err(e.failure.value), [])
          else
            assert e.tables.withdraws == t2.withdraws[id := e.withdraw];
            Creation(e.tables, Ok(Created(e.withdraw, e.account)), MailTo(e.tables, WithdrawConfirmation, id))
  }

  /** The inserts of `createWithdraw`: the withdraw row, then the PIX row of a
      PIX withdraw; the first failing insert ends the call. */
  function Store(t: Tables, w: Withdraw, data: WithdrawData, f: CreateFaults): (r: Outcome<Tables, Failure>)
    requires w.id !in t.withdraws && w.id !in t.pixes
    ensures r.Err? <==> f.insertWithdraw.Fails? || (WritesPix(data) && f.insertPix.Fails?)
    ensures r.Ok? ==>
              && r.value.accounts == t.accounts
              && r.value.withdraws == t.withdraws[w.id := w]
              && r.value.pixes == (if WritesPix(data) then t.pixes[w.id := PixRow(w.id, data)] else t.pixes)
  {
    match f.insertWithdraw
    case Fails(m) => Err(QueryFailed(m))
    case Succeeds =>
      var t1 := t.InsertWithdraw(w);
      if WritesPix(data) && f.insertPix.Fails? then Err(QueryFailed(f.insertPix.message))
      else Ok(if WritesPix(data) then t1.InsertPix(PixRow(w.id, data)) else t1)
  }

  // ---------------------------------------------------------------------------
  // processScheduledWithdraw(s)

  /** The writes of one settlement: the two of `executeWithdraw`, then the
      save that flags a failed withdraw. */
  datatype SettleFaults = SettleFaults(exec: ExecFaults, saveError: Fault)

  const NO_SETTLE_FAULTS := SettleFaults(ExecFaults(Succeeds, Succeeds), Succeeds)

  function FaultsFor(faults: map<Id, SettleFaults>, id: Id): SettleFaults {
    if id in faults then faults[id] else NO_SETTLE_FAULTS
  }

  datatype ErrorEntry = ErrorEntry(withdrawId: Id, error: string)

  /** The `$results` array: `processed`, `failed`, `errors`. */
  datatype Results = Results(processed: nat, failed: nat, errors: seq<ErrorEntry>)

  /** The sweep so far. `aborted` holds the error that escaped from a failed
      error-flag save: it leaves the sweep, and the results with it. */
  datatype Sweeping = Sweeping(tables: Tables, results: Results, notices: seq<Notice>, aborted: Option<Failure>)

  /** Whether the settlement's transaction commits: the account exists, its
      balance covers the amount, and both saves of `executeWithdraw` succeed. */
  predicate Settles(t: Tables, w: Withdraw, f: ExecFaults) {
    && w.accountId in t.accounts
    && w.amount <= t.accounts[w.accountId].balance
    && f.saveAccount.Succeeds? && f.saveWithdraw.Succeeds?
  }

  /** What is left inside the settlement's transaction: the tables, the
      in-memory withdraw and what was thrown. */
  datatype Attempted = Attempted(tables: Tables, withdraw: Withdraw, failure: Option<Failure>)

  /** `Account::findOrFail` followed by `executeWithdraw`. */
  function Attempt(t: Tables, w: Withdraw, f: ExecFaults): (r: Attempted)
    ensures r.failure.None? <==> Settles(t, w, f)
    ensures w.accountId !in t.accounts ==> r == Attempted(t, w, Some(AccountNotFound(w.accountId)))
    // the object keeps `done = true` exactly when only the withdraw save failed
    ensures r.withdraw == (if w.accountId in t.accounts && w.amount <= t.accounts[w.accountId].balance
                              && f.saveAccount.Succeeds? then w.(done := true) else w)
  {
    match Lookup(t.accounts, w.accountId)
    case None => Attempted(t, w, Some(AccountNotFound(w.accountId)))
    case Some(a) =>
      var e := Execute(t, w, a, f);
      Attempted(e.tables, e.withdraw, e.failure)
  }

  /** Settling one selected withdraw in its own transaction. */
  function Settle(t: Tables, res: Results, w: Withdraw, f: SettleFaults): (r: Sweeping)
    // only a failed error-flag save escapes, leaving the tables as they were
    ensures r.aborted.Some? <==> !Settles(t, w, f.exec) && f.saveError.Fails?
    ensures r.aborted.Some? ==> r.tables == t && r.aborted == Some(QueryFailed(f.saveError.message))
    // success: the debit and `done` committed, `processed` counted
    ensures Settles(t, w, f.exec) ==>
              var a := t.accounts[w.accountId];
              && r.tables == t.SaveAccount(a.(balance := a.balance - w.amount)).SaveWithdraw(w.(done := true))
              && r.results == res.(processed := res.processed + 1)
              && r.notices == MailTo(r.tables, WithdrawConfirmation, w.id)
    // failure: rolled back, then the flagged object saved, `failed` counted, one error entry
    ensures !Settles(t, w, f.exec) && f.saveError.Succeeds? ==>
              var e := Attempt(t, w, f.exec);
              && r.tables == t.SaveWithdraw(e.withdraw.(error := true))
              && r.results == Results(res.processed, res.failed + 1, res.errors + [ErrorEntry(w.id, Message(e.failure.value))])
              && r.notices == (if w.accountId in t.accounts
                               then MailTo(r.tables, ScheduleError(UserFriendlyErrorMessage(e.failure.value)), w.id)
                               else [])
  {
    var e := Attempt(t, w, f.exec);
    match e.failure
    case None =>
      Sweeping(e.tables, res.(processed := res.processed + 1), MailTo(e.tables, WithdrawConfirmation, w.id), None)
    case Some(failure) =>
      // `Db::rollBack()` restores `t`; the flag is then saved outside the transaction
      match f.saveError
      case Fails(m) => Sweeping(t, res, [], Some(QueryFailed(m)))
      case Succeeds =>
        var t' := t.SaveWithdraw(e.withdraw.(error := true));
        var res' := Results(res.processed, res.failed + 1, res.errors + [ErrorEntry(w.id, Message(failure))]);
        var notices := if w.accountId in t.accounts then MailTo(t', ScheduleError(UserFriendlyErrorMessage(failure)), w.id) else [];
        Sweeping(t', res', notices, None)
  }

  /** `processScheduledWithdraws` over the rows its query returned, in that
      order; the first error that escapes ends the sweep. */
  function Sweep(t: Tables, due: seq<Withdraw>, faults: map<Id, SettleFaults>): (r: Sweeping)
    ensures |r.results.errors| == r.results.failed
    ensures r.results.processed + r.results.failed <= |due|
    ensures r.aborted.None? ==> r.results.processed + r.results.failed == |due|
    decreases |due|
  {
    if due == [] then
      Sweeping(t, Results(0, 0, []), [], None)
    else
      var s := Sweep(t, due[..|due| - 1], faults);
      if s.aborted.Some? then
        s
      else
        var w := due[|due| - 1];
        var step := Settle(s.tables, s.results, w, FaultsFor(faults, w.id));
        step.(notices := s.notices + step.notices)
  }
}
