/** AccountController: `POST /account/{accountId}/balance/withdraw`. The
    request is validated first, the account looked up next, and only then is
    the service called; of the service's exceptions only InsufficientBalance
    is turned into a response here, every other one leaves the controller. */
module AccountController {
  import opened Common
  import opened Model
  import opened Persistence
  import opened WithdrawSpec
  import opened WithdrawRequest
  import WithdrawService

  const NOT_FOUND_TEXT := "Conta não encontrada"

  /** The JSON bodies the controller writes. */
  datatype Body =
    | Withdrawn(amount: Cents, accountId: Id, withdrawId: Id, newBalance: Cents)
    | Refused(message: string, balance: Cents, requested: Cents)
    | NotFound(message: string)

  /** What leaves the controller as an exception. */
  datatype Escape =
    | ValidationFailed(violations: seq<Violation>)
    | ServiceFailed(failure: Failure)
    | UnstorableSchedule(text: string)

  datatype Reply = Response(status: int, body: Body) | Raised(escape: Escape)

  /** A schedule that takes the immediate path: PHP's `empty()` holds for a
      missing, null or empty schedule, not for one made of white space. */
  predicate Immediate(s: Schedule) {
    s.Unscheduled? || s == BlankText("")
  }

  /** The `$validated` array as the service reads it. */
  function ServiceData(v: Validated): (d: WithdrawData)
    ensures d.schedule.Some? <==> v.schedule.At?
    ensures d.schedule.Some? ==> d.schedule.value == v.schedule.time
    ensures d.amount == ToCents(v.amount) && d.payoutMethod == v.payoutMethod
    ensures d.pix == Some(PixData(v.pixType, v.pixKey))
  {
    WithdrawData(v.payoutMethod, ToCents(v.amount), Some(PixData(v.pixType, v.pixKey)),
                 if v.schedule.At? then Some(v.schedule.time) else None)
  }

  /** The `try`/`catch` around `createWithdraw`. */
  function Respond(account: Account, result: Outcome<Created, Failure>): (r: Reply)
    ensures r.Response? <==> result.Ok? || result.error.Insufficient?
    ensures r.Response? ==> (r.status == 200 <==> result.Ok?) && (r.status == 400 <==> result.Err?)
    ensures result.Ok? ==>
              && r.body.Withdrawn? && r.body.withdrawId == result.value.withdraw.id
              && r.body.amount == result.value.withdraw.amount && r.body.accountId == account.id
              && r.body.newBalance == result.value.account.balance
    ensures result.Err? && result.error.Insufficient? ==>
              r.body == Refused(result.error.ex.GetMessage(), result.error.ex.GetBalance(), result.error.ex.GetRequested())
    ensures r.Raised? ==> r.escape == ServiceFailed(result.error)
  {
    match result
    case Ok(c) => Response(200, Withdrawn(c.withdraw.amount, account.id, c.withdraw.id, c.account.balance))
    case Err(Insufficient(e)) => Response(400, Refused(e.GetMessage(), e.GetBalance(), e.GetRequested()))
    case Err(f) => Raised(ServiceFailed(f))
  }

  datatype Handled = Handled(tables: Tables, reply: Reply, notices: seq<Notice>)

  /** `__invoke($accountId, $request)` against the tables `t`. A blank
      schedule string passes validation. `createWithdraw` counts only the
      empty string as immediate, so only that one meets the balance check;
      the insert of the blank text into the `scheduled_for` column is taken
      to be refused by the database. */
  function Handle(t: Tables, accountId: Id, p: Payload, ctx: Context, id: Id, f: CreateFaults): (r: Handled)
    requires id !in t.withdraws && id !in t.pixes
  {
    if !Valid(p, ctx) then Handled(t, Raised(ValidationFailed(Violations(p, ctx))), [])
    else if accountId !in t.accounts then Handled(t, Response(404, NotFound(NOT_FOUND_TEXT)), [])
    else
      var account := t.accounts[accountId];
      var v := Normalize(p, ctx);
      var amount := ToCents(v.amount);
      if v.schedule.BlankText? then
        if Immediate(v.schedule) && account.balance < amount then
          Handled(t, Respond(account, Err(InsufficientFor(account, amount))), [])
        else
          Handled(t, Raised(UnstorableSchedule(v.schedule.text)), [])
      else
        var c := Create(t, account, ServiceData(v), id, f);
        Handled(c.tables, Respond(account, c.result), c.notices)
  }

  /** `__invoke` step by step: validation, lookup, service call, response. */
  method Invoke(db: Database, accountId: Id, p: Payload, ctx: Context, freshId: Id, f: CreateFaults)
    returns (reply: Reply, notices: seq<Notice>)
    requires db.saved.None?
    requires freshId !in db.tables.withdraws && freshId !in db.tables.pixes
    modifies db
    ensures db.saved == None
    ensures Handle(old(db.tables), accountId, p, ctx, freshId, f) == Handled(db.tables, reply, notices)
  {
    if !Valid(p, ctx) {
      return Raised(ValidationFailed(Violations(p, ctx))), [];
    }
    var found := db.FindAccount(accountId);
    if found.None? {
      return Response(404, NotFound(NOT_FOUND_TEXT)), [];
    }
    var account := found.value;
    var v := Normalize(p, ctx);
    if v.schedule.BlankText? {
      var amount := ToCents(v.amount);
      if Immediate(v.schedule) && account.balance < amount {
        return Respond(account, Err(InsufficientFor(account, amount))), [];
      }
      return Raised(UnstorableSchedule(v.schedule.text)), [];
    }
    var result;
    result, notices := WithdrawService.CreateWithdraw(db, account, ServiceData(v), freshId, f);
    reply := Respond(account, result);
  }

  // ---------------------------------------------------------------------------
  // Properties of the endpoint

  /** An invalid request is answered by the validator alone: the account is
      not looked up, nothing is written and nothing is mailed. */
  lemma ValidatesFirst(t: Tables, accountId: Id, p: Payload, ctx: Context, id: Id, f: CreateFaults)
    requires id !in t.withdraws && id !in t.pixes
    requires !Valid(p, ctx)
    ensures var r := Handle(t, accountId, p, ctx, id, f);
            && r == Handled(t, Raised(ValidationFailed(Violations(p, ctx))), [])
            && Violations(p, ctx) != []
  {
  }

  /** A valid request for an unknown account gets 404 and the service is not
      called: no row is written and no mail is sent. */
  lemma UnknownAccount(t: Tables, accountId: Id, p: Payload, ctx: Context, id: Id, f: CreateFaults)
    requires id !in t.withdraws && id !in t.pixes
    requires Valid(p, ctx) && accountId !in t.accounts
    ensures Handle(t, accountId, p, ctx, id, f) == Handled(t, Response(404, NotFound("Conta não encontrada")), [])
  {
  }

  /** Only a 200 changes anything. */
  lemma OnlySuccessWrites(t: Tables, accountId: Id, p: Payload, ctx: Context, id: Id, f: CreateFaults)
    requires id !in t.withdraws && id !in t.pixes
    ensures var r := Handle(t, accountId, p, ctx, id, f);
            !(r.reply.Response? && r.reply.status == 200) ==> r.tables == t && r.notices == []
  {
  }

  /** A 200 reports the new row and the balance after the call: debited by
      the amount for an immediate withdraw, untouched for a scheduled one. */
  lemma SuccessBody(t: Tables, accountId: Id, p: Payload, ctx: Context, id: Id, f: CreateFaults)
    requires t.Valid()
    requires id !in t.withdraws && id !in t.pixes
    ensures var r := Handle(t, accountId, p, ctx, id, f);
            r.reply.Response? && r.reply.status == 200 ==>
              && Valid(p, ctx) && accountId in t.accounts
              && var a := t.accounts[accountId];
                 var v := Normalize(p, ctx);
                 var amount := ToCents(v.amount);
                 && r.reply.body == Withdrawn(amount, accountId, id, if v.schedule.At? then a.balance else a.balance - amount)
                 && amount >= 100 && r.reply.body.newBalance >= 0
                 && id in r.tables.withdraws && r.tables.withdraws[id].amount == amount
                 && r.tables.accounts[accountId].balance == r.reply.body.newBalance
  {
    var r := Handle(t, accountId, p, ctx, id, f);
    if Valid(p, ctx) && accountId in t.accounts && !Normalize(p, ctx).schedule.BlankText? {
      var a := t.accounts[accountId];
      var v := Normalize(p, ctx);
      var c := Create(t, a, ServiceData(v), id, f);
      assert r == Handled(c.tables, Respond(a, c.result), c.notices);
      if c.result.Ok? {
        CentsOfAtLeastOne(v.amount);
      }
    }
  }

  /** 400 exactly for an immediate withdraw the balance does not cover, with
      the balance and the requested amount in the body; nothing is written. */
  lemma RefusedIff(t: Tables, accountId: Id, p: Payload, ctx: Context, id: Id, f: CreateFaults)
    requires id !in t.withdraws && id !in t.pixes
    ensures var r := Handle(t, accountId, p, ctx, id, f);
            (r.reply.Response? && r.reply.status == 400) <==>
              && Valid(p, ctx) && accountId in t.accounts
              && Immediate(Normalize(p, ctx).schedule)
              && t.accounts[accountId].balance < ToCents(Normalize(p, ctx).amount)
    ensures var r := Handle(t, accountId, p, ctx, id, f);
            r.reply.Response? && r.reply.status == 400 ==>
              && r.tables == t
              && r.reply.body == Refused("Insufficient balance", t.accounts[accountId].balance, ToCents(Normalize(p, ctx).amount))
  {
    if Valid(p, ctx) && accountId in t.accounts {
      var a := t.accounts[accountId];
      var v := Normalize(p, ctx);
      var d := ServiceData(v);
      if !v.schedule.BlankText? && !(d.schedule.None? && a.balance < d.amount) {
        CreateRefusesOnlyShortImmediate(t, a, d, id, f);
      }
    }
  }

  /** `createWithdraw` raises InsufficientBalance only from its own check. */
  lemma CreateRefusesOnlyShortImmediate(t: Tables, account: Account, data: WithdrawData, id: Id, f: CreateFaults)
    requires id !in t.withdraws && id !in t.pixes
    requires data.schedule.Some? || data.amount <= account.balance
    ensures var r := Create(t, account, data, id, f).result;
            r.Err? ==> r.error.QueryFailed?
  {
    if data.schedule.None? {
      var w := NewWithdraw(id, account.id, data);
      var t1 := t.InsertWithdraw(w);
      var t2 := if WritesPix(data) then t1.InsertPix(PixRow(id, data)) else t1;
      assert Execute(t2, w, account, f.exec).failure.Some? ==> Execute(t2, w, account, f.exec).failure.value.QueryFailed?;
    }
  }

  /** When no database write fails, a valid request for a known account with
      a real schedule or none is always answered (200 or 400). */
  lemma NoFaultsNoEscape(t: Tables, accountId: Id, p: Payload, ctx: Context, id: Id)
    requires id !in t.withdraws && id !in t.pixes
    requires Valid(p, ctx) && accountId in t.accounts && !Normalize(p, ctx).schedule.BlankText?
    ensures Handle(t, accountId, p, ctx, id, NO_CREATE_FAULTS).reply.Response?
  {
    var a := t.accounts[accountId];
    var d := ServiceData(Normalize(p, ctx));
    if d.schedule.Some? || d.amount <= a.balance {
      CreateRefusesOnlyShortImmediate(t, a, d, id, NO_CREATE_FAULTS);
    }
  }

  /** A withdraw scheduled through the endpoint is not due when it is
      created: the next sweep at the same instant leaves it alone, and it is
      due at the latest a week later. */
  lemma ScheduledIsNotDueYet(t: Tables, accountId: Id, p: Payload, ctx: Context, id: Id, f: CreateFaults)
    requires id !in t.withdraws && id !in t.pixes
    requires Valid(p, ctx) && Normalize(p, ctx).schedule.At?
    ensures var r := Handle(t, accountId, p, ctx, id, f);
            r.reply.Response? && r.reply.status == 200 ==>
              && id in r.tables.withdraws
              && !IsDue(r.tables.withdraws[id], ctx.now)
              && IsDue(r.tables.withdraws[id], ctx.now + WEEK)
  {
  }
}
