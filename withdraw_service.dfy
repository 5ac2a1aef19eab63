/** WithdrawService: the withdraw workflow step by step against the
    database, each method proved to do what its function in `WithdrawSpec`
    says. In-memory objects (the account and withdraw the PHP code mutates)
    are locals that the methods update and hand back. Mails are returned as
    `Notice`s; nothing about them reaches the database. */
module WithdrawService {
  import opened Common
  import opened Model
  import opened Persistence
  import opened WithdrawSpec
  import InsufficientBalance

  /** `executeWithdraw($withdraw, $account)`: runs inside the caller's transaction. */
  method ExecuteWithdraw(db: Database, w: Withdraw, a: Account, f: ExecFaults)
    returns (w': Withdraw, a': Account, failure: Option<Failure>)
    modifies db
    ensures db.saved == old(db.saved)
    ensures Execute(old(db.tables), w, a, f) == Executed(db.tables, w', a', failure)
  {
    if a.balance < w.amount {
      return w, a, Some(Insufficient(InsufficientBalance.New("Insufficient balance", a.balance, w.amount)));
    }
    a' := a.(balance := a.balance - w.amount);
    var err := db.SaveAccount(a', f.saveAccount);
    if err.Some? {
      return w, a', Some(QueryFailed(err.value));
    }
    w' := w.(done := true);
    err := db.SaveWithdraw(w', f.saveWithdraw);
    if err.Some? {
      return w', a', Some(QueryFailed(err.value));
    }
    failure := None;
  }

  /** `createWithdraw($account, $data)`; `freshId` is what `Str::uuid()`
      returns, a key no row has yet. */
  method CreateWithdraw(db: Database, account: Account, data: WithdrawData, freshId: Id, f: CreateFaults)
    returns (result: Outcome<Created, Failure>, notices: seq<Notice>)
    requires db.saved.None?
    requires freshId !in db.tables.withdraws && freshId !in db.tables.pixes
    modifies db
    ensures db.saved == None
    ensures Create(old(db.tables), account, data, freshId, f) == Creation(db.tables, result, notices)
  {
    var amount := data.amount;
    var isScheduled := data.schedule.Some?;
    if !isScheduled && account.balance < amount {
      return Err(Insufficient(InsufficientBalance.New("Insufficient balance", account.balance, amount))), [];
    }
    var withdrawId := freshId;
    db.BeginTransaction();
    var withdraw := Withdraw(withdrawId, account.id, data.payoutMethod, amount, isScheduled, data.schedule, false, false, None);
    var err := db.InsertWithdraw(withdraw, f.insertWithdraw);
    if err.Some? {
      db.RollBack();
      return Err(QueryFailed(err.value)), [];
    }
    if data.payoutMethod == METHOD_PIX && data.pix.Some? {
      err := db.InsertPix(Pix(withdrawId, data.pix.value.kind, data.pix.value.key), f.insertPix);
      if err.Some? {
        db.RollBack();
        return Err(QueryFailed(err.value)), [];
      }
    }
    var acc := account;
    if !isScheduled {
      var failure;
      withdraw, acc, failure := ExecuteWithdraw(db, withdraw, account, f.exec);
      if failure.Some? {
        db.RollBack();
        return Err(failure.value), [];
      }
    }
    db.Commit();
    notices := SendWithdrawEmail(db, withdraw, isScheduled);
    result := Ok(Created(withdraw, acc));
  }

  /** `sendWithdrawEmail`: the schedule-accepted mail or the confirmation mail. */
  method SendWithdrawEmail(db: Database, w: Withdraw, isScheduled: bool) returns (notices: seq<Notice>)
    ensures notices == MailTo(db.tables, if isScheduled then ScheduleConfirmation else WithdrawConfirmation, w.id)
  {
    var pix := db.FindPix(w.id);
    var kind := if isScheduled then ScheduleConfirmation else WithdrawConfirmation;
    notices := if pix.Some? then [Notice(kind, w.id, pix.value.key)] else [];
  }

  /** `processScheduledWithdraw($withdraw, $results)`: one settlement in its
      own transaction. `aborted` is the exception that escapes when flagging
      the failed withdraw itself fails; `$results` is then left as it was. */
  method ProcessScheduledWithdraw(db: Database, w: Withdraw, results: Results, f: SettleFaults)
    returns (results': Results, notices: seq<Notice>, aborted: Option<Failure>)
    requires db.saved.None?
    modifies db
    ensures db.saved == None
    ensures Settle(old(db.tables), results, w, f) == Sweeping(db.tables, results', notices, aborted)
  {
    db.BeginTransaction();
    var account := db.FindAccount(w.accountId);
    var withdraw := w;
    var failure: Option<Failure>;
    if account.None? {
      failure := Some(AccountNotFound(w.accountId));
    } else {
      var acc;
      withdraw, acc, failure := ExecuteWithdraw(db, w, account.value, f.exec);
    }
    if failure.None? {
      db.Commit();
      results' := results.(processed := results.processed + 1);
      notices := SendWithdrawEmail(db, withdraw, false);
      aborted := None;
      return;
    }
    db.RollBack();
    withdraw := withdraw.(error := true);
    var err := db.SaveWithdraw(withdraw, f.saveError);
    if err.Some? {
      return results, [], Some(QueryFailed(err.value));
    }
    results' := Results(results.processed, results.failed + 1,
                        results.errors + [ErrorEntry(w.id, Message(failure.value))]);
    var pix := db.FindPix(w.id);
    if pix.Some? && account.Some? {
      notices := [Notice(ScheduleError(UserFriendlyErrorMessage(failure.value)), w.id, pix.value.key)];
    } else {
      notices := [];
    }
    aborted := None;
  }

  datatype SweepOutcome = Completed(results: Results) | Aborted(failure: Failure)

  /** Once an error has escaped, the rest of the rows are not looked at. */
  lemma {:induction false} AbortedIsFinal(t: Tables, due: seq<Withdraw>, k: nat, faults: map<Id, SettleFaults>)
    requires k <= |due|
    requires Sweep(t, due[..k], faults).aborted.Some?
    ensures Sweep(t, due, faults) == Sweep(t, due[..k], faults)
    decreases |due| - k
  {
    if k < |due| {
      assert due[..|due| - 1][..k] == due[..k];
      AbortedIsFinal(t, due[..|due| - 1], k, faults);
    } else {
      assert due[..k] == due;
    }
  }

  /** `processScheduledWithdraws()` at time `now`. `selected` is the query's
      result, in the order the query returned it. */
  method ProcessScheduledWithdraws(db: Database, now: Time, faults: map<Id, SettleFaults>)
    returns (outcome: SweepOutcome, notices: seq<Notice>, ghost selected: seq<Withdraw>)
    requires db.saved.None? && db.tables.Valid()
    modifies db
    ensures db.saved == None
    ensures IsDueSelection(selected, old(db.tables), now)
    ensures var s := Sweep(old(db.tables), selected, faults);
            && db.tables == s.tables && notices == s.notices
            && outcome == (if s.aborted.Some? then Aborted(s.aborted.value) else Completed(s.results))
  {
    var withdraws := db.SelectDue(now);
    selected := withdraws;
    ghost var t0 := db.tables;
    var results := Results(0, 0, []);
    notices := [];
    var i := 0;
    while i < |withdraws|
      invariant 0 <= i <= |withdraws|
      invariant db.saved == None
      invariant Sweep(t0, withdraws[..i], faults) == Sweeping(db.tables, results, notices, None)
    {
      var w := withdraws[i];
      assert withdraws[..i + 1][..i] == withdraws[..i];
      var more, aborted;
      results, more, aborted := ProcessScheduledWithdraw(db, w, results, FaultsFor(faults, w.id));
      notices := notices + more;
      if aborted.Some? {
        AbortedIsFinal(t0, withdraws, i + 1, faults);
        notices := notices[..|notices| - |more|];
        return Aborted(aborted.value), notices, selected;
      }
      i := i + 1;
    }
    assert withdraws[..i] == withdraws;
    outcome := Completed(results);
  }
}
