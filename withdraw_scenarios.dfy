/** The workflow on a concrete account holding 1000.00 (100000 cents). */
module WithdrawScenarios {
  import opened Common
  import opened Model
  import opened Persistence
  import opened WithdrawSpec
  import InsufficientBalance

  const OWNER := "acc-1"
  const KEY := "ana@example.com"
  const PIX_EMAIL := Some(PixData(TYPE_EMAIL, KEY))

  function Holder(balance: Cents): Account {
    Account(OWNER, "Ana", balance)
  }

  function Opening(): Tables {
    Tables(map[OWNER := Holder(100000)], map[], map[])
  }

  /** A due PIX withdraw of `amount` against the account, scheduled for time 0. */
  function DueRow(id: Id, amount: Cents): Withdraw {
    Withdraw(id, OWNER, METHOD_PIX, amount, true, Some(0), false, false, None)
  }

  /** An immediate withdraw of 150.75 leaves 849.25 and mails a confirmation. */
  lemma ImmediateWithdraw()
    ensures var c := Create(Opening(), Holder(100000), WithdrawData(METHOD_PIX, 15075, PIX_EMAIL, None), "w-1", NO_CREATE_FAULTS);
            && c.result == Ok(Created(Withdraw("w-1", OWNER, METHOD_PIX, 15075, false, None, true, false, None), Holder(84925)))
            && c.tables.accounts[OWNER].balance == 84925
            && c.notices == [Notice(WithdrawConfirmation, "w-1", KEY)]
  {
  }

  /** An immediate withdraw of 1500.00 is refused with both amounts; nothing changes. */
  lemma ImmediateWithdrawTooLarge()
    ensures var c := Create(Opening(), Holder(100000), WithdrawData(METHOD_PIX, 150000, PIX_EMAIL, None), "w-1", NO_CREATE_FAULTS);
            && c.result == Err(Insufficient(InsufficientBalance.Exception("Insufficient balance", 100000, 150000)))
            && c.tables == Opening()
            && c.notices == []
  {
  }

  /** A scheduled withdraw of 100.00 is accepted without touching the balance. */
  lemma ScheduledWithdraw(when: Time)
    ensures var c := Create(Opening(), Holder(100000), WithdrawData(METHOD_PIX, 10000, PIX_EMAIL, Some(when)), "w-1", NO_CREATE_FAULTS);
            && c.result.Ok?
            && c.tables.accounts == Opening().accounts
            && c.tables.withdraws["w-1"] == Withdraw("w-1", OWNER, METHOD_PIX, 10000, true, Some(when), false, false, None)
            && c.notices == [Notice(ScheduleConfirmation, "w-1", KEY)]
  {
  }

  /** A due 100.00 withdraw is settled by the sweep: 900.00 left, `done` set. */
  lemma SweepSettles()
    ensures var t := Opening().(withdraws := map["w-1" := DueRow("w-1", 10000)]);
            var s := Sweep(t, [DueRow("w-1", 10000)], map[]);
            && s.aborted == None
            && s.results == Results(1, 0, [])
            && s.tables.accounts[OWNER].balance == 90000
            && s.tables.withdraws["w-1"].done
  {
    var t := Opening().(withdraws := map["w-1" := DueRow("w-1", 10000)]);
    assert [DueRow("w-1", 10000)][..0] == [];
  }

  /** A due 1500.00 withdraw fails: one error entry, `error` set, 1000.00 kept. */
  lemma SweepFailsShortBalance()
    ensures var t := Opening().(withdraws := map["w-1" := DueRow("w-1", 150000)]);
            var s := Sweep(t, [DueRow("w-1", 150000)], map[]);
            && s.aborted == None
            && s.results == Results(0, 1, [ErrorEntry("w-1", "Insufficient balance")])
            && s.tables.accounts[OWNER].balance == 100000
            && s.tables.withdraws["w-1"].error && !s.tables.withdraws["w-1"].done
  {
    assert [DueRow("w-1", 150000)][..0] == [];
  }

  /** Three due withdraws of 100.00 are all settled, leaving 700.00. */
  lemma SweepSettlesThree()
    ensures var due := [DueRow("w-1", 10000), DueRow("w-2", 10000), DueRow("w-3", 10000)];
            var t := Opening().(withdraws := map["w-1" := due[0], "w-2" := due[1], "w-3" := due[2]]);
            var s := Sweep(t, due, map[]);
            && s.aborted == None
            && s.results == Results(3, 0, [])
            && s.tables.accounts[OWNER].balance == 70000
  {
    var due := [DueRow("w-1", 10000), DueRow("w-2", 10000), DueRow("w-3", 10000)];
    var t := Opening().(withdraws := map["w-1" := due[0], "w-2" := due[1], "w-3" := due[2]]);
    assert due[..2][..1][..0] == [];
    assert due[..2][..1] == [due[0]];
    assert due[..2] == [due[0], due[1]];
    var r0 := Results(0, 0, []);
    var t1 := Settle(t, r0, due[0], NO_SETTLE_FAULTS).tables;
    assert t1.accounts[OWNER] == Holder(90000);
    assert Sweep(t, due[..1], map[]) == Sweeping(t1, Results(1, 0, []), [], None);
    var t2 := Settle(t1, Results(1, 0, []), due[1], NO_SETTLE_FAULTS).tables;
    assert t2.accounts[OWNER] == Holder(80000);
    assert Sweep(t, due[..2], map[]) == Sweeping(t2, Results(2, 0, []), [], None);
    var t3 := Settle(t2, Results(2, 0, []), due[2], NO_SETTLE_FAULTS).tables;
    assert t3.accounts[OWNER] == Holder(70000);
  }
}
