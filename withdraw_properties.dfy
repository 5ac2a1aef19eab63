/** What the withdraw workflow guarantees across calls, stated about the
    functions of `WithdrawSpec` (which the methods of `WithdrawService` are
    proved to compute). */
module WithdrawProperties {
  import opened Common
  import opened Model
  import opened Persistence
  import opened WithdrawSpec
  import InsufficientBalance

  // ---------------------------------------------------------------------------
  // The ids a sweep goes through

  ghost function Ids(ws: seq<Withdraw>): set<Id>
    decreases |ws|
  {
    if ws == [] then {} else Ids(ws[..|ws| - 1]) + {ws[|ws| - 1].id}
  }

  lemma {:induction false} IdsSpec(ws: seq<Withdraw>, id: Id)
    ensures id in Ids(ws) <==> exists i :: 0 <= i < |ws| && ws[i].id == id
    decreases |ws|
  {
    if ws != [] {
      var p := ws[..|ws| - 1];
      IdsSpec(p, id);
      if id in Ids(ws) && id != ws[|ws| - 1].id {
        var i :| 0 <= i < |p| && p[i].id == id;
        assert ws[i] == p[i];
      }
      if exists i :: 0 <= i < |ws| && ws[i].id == id {
        var i :| 0 <= i < |ws| && ws[i].id == id;
        if i < |p| {
          assert p[i] == ws[i];
        }
      }
    }
  }

  lemma DistinctLast(ws: seq<Withdraw>)
    requires ws != [] && Distinct(ws)
    ensures Distinct(ws[..|ws| - 1])
    ensures ws[|ws| - 1].id !in Ids(ws[..|ws| - 1])
  {
    IdsSpec(ws[..|ws| - 1], ws[|ws| - 1].id);
  }

  // ---------------------------------------------------------------------------
  // Well-formed tables stay well-formed: rows under their own keys, no
  // negative balance

  lemma ExecutePreservesValid(t: Tables, w: Withdraw, a: Account, f: ExecFaults)
    requires t.Valid()
    ensures Execute(t, w, a, f).tables.Valid()
  {
  }

  lemma CreatePreservesValid(t: Tables, account: Account, data: WithdrawData, id: Id, f: CreateFaults)
    requires t.Valid() && id !in t.withdraws && id !in t.pixes
    ensures Create(t, account, data, id, f).tables.Valid()
  {
    var w := NewWithdraw(id, account.id, data);
    var t1 := t.InsertWithdraw(w);
    var t2 := if WritesPix(data) then t1.InsertPix(PixRow(id, data)) else t1;
    assert t2.Valid();
    ExecutePreservesValid(t2, w, account, f.exec);
  }

  lemma SettlePreservesValid(t: Tables, res: Results, w: Withdraw, f: SettleFaults)
    requires t.Valid()
    ensures Settle(t, res, w, f).tables.Valid()
  {
  }

  lemma {:induction false} SweepPreservesValid(t: Tables, due: seq<Withdraw>, faults: map<Id, SettleFaults>)
    requires t.Valid()
    ensures Sweep(t, due, faults).tables.Valid()
    decreases |due|
  {
    if due != [] {
      var p := due[..|due| - 1];
      SweepPreservesValid(t, p, faults);
      var s := Sweep(t, p, faults);
      if s.aborted.None? {
        var w := due[|due| - 1];
        SettlePreservesValid(s.tables, s.results, w, FaultsFor(faults, w.id));
      }
    }
  }

  // ---------------------------------------------------------------------------
  // What one settlement touches

  /** A withdraw the sweep has dealt with, one way or the other. */
  predicate Resolved(w: Withdraw) {
    w.done || w.error
  }

  /** A settlement writes the selected withdraw's row and its account's row
      and nothing else; unless it was aborted, the row ends up resolved. */
  lemma SettleFrame(t: Tables, res: Results, w: Withdraw, f: SettleFaults)
    ensures var r := Settle(t, res, w, f).tables;
            && r.withdraws.Keys == t.withdraws.Keys && r.accounts.Keys == t.accounts.Keys && r.pixes == t.pixes
            && (forall id :: id in t.withdraws && id != w.id ==> r.withdraws[id] == t.withdraws[id])
    // in well-formed tables the debit lands on the withdraw's own account
    ensures t.Valid() ==>
              forall id :: id in t.accounts && id != w.accountId ==> Settle(t, res, w, f).tables.accounts[id] == t.accounts[id]
    ensures Settle(t, res, w, f).aborted.None? && w.id in t.withdraws ==>
              Resolved(Settle(t, res, w, f).tables.withdraws[w.id])
  {
  }

  /** The last withdraw of a sweep is settled on what the sweep of the others
      left behind, unless that sweep was aborted. */
  lemma SweepLast(t: Tables, due: seq<Withdraw>, faults: map<Id, SettleFaults>)
    requires due != []
    ensures var s := Sweep(t, due[..|due| - 1], faults);
            var w := due[|due| - 1];
            var r := Sweep(t, due, faults);
            if s.aborted.Some? then r == s
            else r.tables == Settle(s.tables, s.results, w, FaultsFor(faults, w.id)).tables
                 && r.aborted == Settle(s.tables, s.results, w, FaultsFor(faults, w.id)).aborted
  {
  }

  /** After a sweep that ran to the end, the keys are as before, every swept
      row is resolved and every other row is exactly as it was. */
  lemma {:induction false} SweepResolves(t: Tables, due: seq<Withdraw>, faults: map<Id, SettleFaults>)
    requires Ids(due) <= t.withdraws.Keys
    requires Sweep(t, due, faults).aborted.None?
    ensures var r := Sweep(t, due, faults).tables;
            && r.withdraws.Keys == t.withdraws.Keys && r.accounts.Keys == t.accounts.Keys && r.pixes == t.pixes
            && (forall id :: id in Ids(due) ==> Resolved(r.withdraws[id]))
            && (forall id :: id in t.withdraws && id !in Ids(due) ==> r.withdraws[id] == t.withdraws[id])
    decreases |due|
  {
    if due != [] {
      var p := due[..|due| - 1];
      var w := due[|due| - 1];
      var s := Sweep(t, p, faults);
      assert s.aborted.None?;
      SweepResolves(t, p, faults);
      var st := Settle(s.tables, s.results, w, FaultsFor(faults, w.id));
      assert Sweep(t, due, faults).tables == st.tables;
      SettleFrame(s.tables, s.results, w, FaultsFor(faults, w.id));
      assert Ids(due) == Ids(p) + {w.id};
      forall id | id in Ids(due)
        ensures Resolved(st.tables.withdraws[id])
      {
        if id != w.id {
          assert st.tables.withdraws[id] == s.tables.withdraws[id];
        }
      }
    }
  }

  /** The sweep reaches exactly the due rows: a row that is not scheduled,
      already done, already failed or not yet due is never selected. */
  lemma SelectionIsExactlyTheDueRows(due: seq<Withdraw>, t: Tables, now: Time, id: Id)
    requires IsDueSelection(due, t, now)
    ensures id in Ids(due) <==> id in t.withdraws && IsDue(t.withdraws[id], now)
  {
    IdsSpec(due, id);
  }

  /** Idempotent settlement: once a sweep at `now` has run to the end, the
      same query finds nothing, and a second sweep processes and fails nothing. */
  lemma SecondSweepFindsNothing(t: Tables, due: seq<Withdraw>, now: Time, faults: map<Id, SettleFaults>,
                                again: seq<Withdraw>, faults': map<Id, SettleFaults>)
    requires IsDueSelection(due, t, now)
    requires Sweep(t, due, faults).aborted.None?
    requires IsDueSelection(again, Sweep(t, due, faults).tables, now)
    ensures again == []
    ensures var r := Sweep(t, due, faults).tables;
            Sweep(r, again, faults') == Sweeping(r, Results(0, 0, []), [], None)
  {
    var r := Sweep(t, due, faults).tables;
    assert Ids(due) <= t.withdraws.Keys by {
      forall id | id in Ids(due) ensures id in t.withdraws {
        IdsSpec(due, id);
      }
    }
    SweepResolves(t, due, faults);
    if again != [] {
      var x := again[0];
      assert x.id in r.withdraws && r.withdraws[x.id] == x && IsDue(x, now);
      SelectionIsExactlyTheDueRows(due, t, now, x.id);
      assert false;
    }
  }

  // ---------------------------------------------------------------------------
  // Money moves only for settled withdraws

  /** The amounts of the withdraws in `ws` against `accountId` that `t`
      records as settled: done and not failed. */
  ghost function Committed(ws: seq<Withdraw>, t: Tables, accountId: Id): int
    decreases |ws|
  {
    if ws == [] then 0
    else
      var w := ws[|ws| - 1];
      Committed(ws[..|ws| - 1], t, accountId) +
        (if w.accountId == accountId && w.id in t.withdraws && t.withdraws[w.id].done && !t.withdraws[w.id].error
         then w.amount else 0)
  }

  lemma {:induction false} CommittedFrame(ws: seq<Withdraw>, t1: Tables, t2: Tables, accountId: Id)
    requires forall id :: id in Ids(ws) ==> (id in t1.withdraws <==> id in t2.withdraws)
    requires forall id :: id in Ids(ws) && id in t1.withdraws ==> t1.withdraws[id] == t2.withdraws[id]
    ensures Committed(ws, t1, accountId) == Committed(ws, t2, accountId)
    decreases |ws|
  {
    if ws != [] {
      CommittedFrame(ws[..|ws| - 1], t1, t2, accountId);
    }
  }

  /** The withdraws of one sweep: distinct rows of the table, none failed yet. */
  ghost predicate Sweepable(due: seq<Withdraw>, t: Tables) {
    && Distinct(due)
    && Ids(due) <= t.withdraws.Keys
    && (forall i :: 0 <= i < |due| ==> !due[i].error)
  }

  /** One settlement that did not escape debits an account exactly when it
      leaves the withdraw done and not failed, and only the withdraw's own
      account. */
  lemma SettleDebitsCommitted(t: Tables, res: Results, w: Withdraw, f: SettleFaults, accountId: Id)
    requires t.Valid() && w.id in t.withdraws && !w.error && accountId in t.accounts
    requires Settle(t, res, w, f).aborted.None?
    ensures var r := Settle(t, res, w, f).tables;
            && accountId in r.accounts && w.id in r.withdraws
            && r.accounts[accountId].balance ==
                 t.accounts[accountId].balance -
                   (if w.accountId == accountId && r.withdraws[w.id].done && !r.withdraws[w.id].error then w.amount else 0)
  {
    SettleFrame(t, res, w, f);
    var r := Settle(t, res, w, f).tables;
    if Settles(t, w, f.exec) {
      assert r.withdraws[w.id] == w.(done := true);
    } else {
      assert r.accounts == t.accounts;
      assert r.withdraws[w.id].error;
    }
  }

  /** The last settlement of a sweep: it debits the account by the amount
      it adds to the committed total, and leaves the earlier withdraws'
      total as it was. */
  lemma SweepStepCommits(t: Tables, due: seq<Withdraw>, faults: map<Id, SettleFaults>, accountId: Id)
    requires t.Valid() && Sweepable(due, t) && accountId in t.accounts && due != []
    requires Sweep(t, due, faults).aborted.None?
    ensures var p := due[..|due| - 1];
            var s := Sweep(t, p, faults).tables;
            var r := Sweep(t, due, faults).tables;
            && Sweepable(p, t) && Sweep(t, p, faults).aborted.None?
            && accountId in s.accounts && accountId in r.accounts
            && Committed(p, s, accountId) == Committed(p, r, accountId)
            && r.accounts[accountId].balance ==
                 s.accounts[accountId].balance - (Committed(due, r, accountId) - Committed(p, r, accountId))
  {
    var p := due[..|due| - 1];
    var w := due[|due| - 1];
    var s := Sweep(t, p, faults);
    var f := FaultsFor(faults, w.id);
    SweepLast(t, due, faults);
    assert s.aborted.None?;
    var r := Settle(s.tables, s.results, w, f).tables;
    DistinctLast(due);
    assert Sweepable(p, t);
    SweepResolves(t, p, faults);
    SweepPreservesValid(t, p, faults);
    SettleFrame(s.tables, s.results, w, f);
    CommittedFrame(p, s.tables, r, accountId);
    assert !w.error;
    SettleDebitsCommitted(s.tables, s.results, w, f, accountId);
  }

  /** Balance invariant: after a sweep that ran to the end, every account has
      lost exactly the amounts of its swept withdraws now marked done and not
      failed; rolled-back settlements cost nothing. */
  lemma {:induction false} SweepConservesBalance(t: Tables, due: seq<Withdraw>, faults: map<Id, SettleFaults>, accountId: Id)
    requires t.Valid() && Sweepable(due, t) && accountId in t.accounts
    requires Sweep(t, due, faults).aborted.None?
    ensures var r := Sweep(t, due, faults).tables;
            && accountId in r.accounts
            && r.accounts[accountId].balance == t.accounts[accountId].balance - Committed(due, r, accountId)
    decreases |due|
  {
    if due != [] {
      SweepStepCommits(t, due, faults, accountId);
      SweepConservesBalance(t, due[..|due| - 1], faults, accountId);
    }
  }

  // ---------------------------------------------------------------------------
  // `done` and `error` together

  /** A settled row gets `done`, a failed one `error`; both end up set
      exactly when the debit was saved, the withdraw save failed (leaving
      `done = true` on the object after the rollback) and the error save
      then succeeded. The debit itself is rolled back. */
  lemma DoneAndErrorTogether(t: Tables, res: Results, w: Withdraw, f: SettleFaults)
    requires w.id in t.withdraws && t.withdraws[w.id] == w && !w.done && !w.error
    ensures var r := Settle(t, res, w, f).tables.withdraws[w.id];
            (r.done && r.error) <==>
              && w.accountId in t.accounts && w.amount <= t.accounts[w.accountId].balance
              && f.exec.saveAccount.Succeeds? && f.exec.saveWithdraw.Fails? && f.saveError.Succeeds?
    ensures var r := Settle(t, res, w, f);
            r.tables.withdraws[w.id].done && r.tables.withdraws[w.id].error ==>
              r.tables.accounts == t.accounts && r.results.failed == res.failed + 1
  {
    var e := Attempt(t, w, f.exec);
    assert e.withdraw.id == w.id;
    if Settles(t, w, f.exec) {
      assert Settle(t, res, w, f).tables.withdraws[w.id] == w.(done := true);
    } else if f.saveError.Succeeds? {
      assert Settle(t, res, w, f).tables.withdraws[w.id] == e.withdraw.(error := true);
    } else {
      assert Settle(t, res, w, f).tables == t;
    }
  }

  /** One settlement whose withdraw save succeeds never sets both flags. */
  lemma SettleKeepsDoneErrorExclusive(t: Tables, res: Results, w: Withdraw, f: SettleFaults)
    requires DoneErrorExclusive(t)
    requires !w.done && !w.error && f.exec.saveWithdraw.Succeeds?
    ensures DoneErrorExclusive(Settle(t, res, w, f).tables)
  {
    SettleFrame(t, res, w, f);
    if !Settles(t, w, f.exec) && f.saveError.Succeeds? {
      assert Attempt(t, w, f.exec).withdraw == w;
    }
  }

  /** With every withdraw save succeeding, no row is ever both done and failed. */
  lemma {:induction false} SweepKeepsDoneErrorExclusive(t: Tables, due: seq<Withdraw>, faults: map<Id, SettleFaults>)
    requires DoneErrorExclusive(t)
    requires forall i :: 0 <= i < |due| ==> !due[i].done && !due[i].error
    requires forall id :: id in faults ==> faults[id].exec.saveWithdraw.Succeeds?
    ensures DoneErrorExclusive(Sweep(t, due, faults).tables)
    decreases |due|
  {
    if due != [] {
      var p := due[..|due| - 1];
      var w := due[|due| - 1];
      SweepKeepsDoneErrorExclusive(t, p, faults);
      SweepLast(t, due, faults);
      var s := Sweep(t, p, faults);
      if s.aborted.None? {
        SettleKeepsDoneErrorExclusive(s.tables, s.results, w, FaultsFor(faults, w.id));
      }
    }
  }

  // ---------------------------------------------------------------------------
  // The balance check of a scheduled withdraw is deferred to the sweep

  lemma DeferredBalanceCheck(t: Tables, account: Account, data: WithdrawData, id: Id, now: Time, res: Results)
    requires id !in t.withdraws && id !in t.pixes
    requires account.id in t.accounts && t.accounts[account.id] == account
    requires data.schedule.Some? && data.schedule.value <= now && account.balance < data.amount
    ensures var c := Create(t, account, data, id, NO_CREATE_FAULTS);
            && c.result.Ok?
            && c.tables.accounts == t.accounts
            && IsDue(c.tables.withdraws[id], now)
    ensures var c := Create(t, account, data, id, NO_CREATE_FAULTS);
            var w := c.tables.withdraws[id];
            var s := Settle(c.tables, res, w, NO_SETTLE_FAULTS);
            && s.aborted.None?
            && s.tables.accounts == t.accounts
            && s.tables.withdraws[id] == w.(error := true)
            && s.results == Results(res.processed, res.failed + 1, res.errors + [ErrorEntry(id, "Insufficient balance")])
            && s.notices == MailTo(s.tables, ScheduleError(INSUFFICIENT_BALANCE_TEXT), id)
  {
    var c := Create(t, account, data, id, NO_CREATE_FAULTS);
    var w := c.tables.withdraws[id];
    assert !Settles(c.tables, w, NO_SETTLE_FAULTS.exec);
    assert Attempt(c.tables, w, NO_SETTLE_FAULTS.exec).failure == Some(InsufficientFor(account, data.amount));
  }

  // ---------------------------------------------------------------------------
  // Method spellings

  /** The request accepts "pix" as well as "PIX", but only "PIX" gets a PIX
      row; a lowercase withdraw therefore never mails anyone, not even when
      its settlement fails. */
  lemma LowercasePixIsNeverMailed(t: Tables, account: Account, data: WithdrawData, id: Id, f: CreateFaults,
                                  res: Results, f': SettleFaults)
    requires id !in t.withdraws && id !in t.pixes
    requires data.payoutMethod == "pix"
    ensures var c := Create(t, account, data, id, f);
            && c.tables.pixes == t.pixes
            && c.notices == []
            && (c.result.Ok? ==> Settle(c.tables, res, c.result.value.withdraw, f').notices == [])
  {
    var c := Create(t, account, data, id, f);
    if c.result.Ok? {
      SettleFrame(c.tables, res, c.result.value.withdraw, f');
    }
  }

  // ---------------------------------------------------------------------------
  // `error_reason`

  ghost predicate NoErrorReason(t: Tables) {
    forall id :: id in t.withdraws ==> t.withdraws[id].errorReason.None?
  }

  /** No step of the workflow writes `error_reason`: a failed settlement
      records its message only in the sweep's results. */
  lemma CreateWritesNoErrorReason(t: Tables, account: Account, data: WithdrawData, id: Id, f: CreateFaults)
    requires id !in t.withdraws && id !in t.pixes
    requires NoErrorReason(t)
    ensures NoErrorReason(Create(t, account, data, id, f).tables)
  {
  }

  /** One settlement of a withdraw without a reason leaves every reason empty. */
  lemma SettleWritesNoErrorReason(t: Tables, res: Results, w: Withdraw, f: SettleFaults)
    requires NoErrorReason(t) && w.errorReason.None?
    ensures NoErrorReason(Settle(t, res, w, f).tables)
  {
    SettleFrame(t, res, w, f);
  }

  lemma {:induction false} SweepWritesNoErrorReason(t: Tables, due: seq<Withdraw>, faults: map<Id, SettleFaults>)
    requires NoErrorReason(t)
    requires forall i :: 0 <= i < |due| ==> due[i].errorReason.None?
    ensures NoErrorReason(Sweep(t, due, faults).tables)
    decreases |due|
  {
    if due != [] {
      var p := due[..|due| - 1];
      var w := due[|due| - 1];
      SweepWritesNoErrorReason(t, p, faults);
      SweepLast(t, due, faults);
      var s := Sweep(t, p, faults);
      if s.aborted.None? {
        SettleWritesNoErrorReason(s.tables, s.results, w, FaultsFor(faults, w.id));
      }
    }
  }
}
