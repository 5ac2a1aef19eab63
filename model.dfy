/** The rows of the three tables the withdraw workflow touches (`account`,
    `account_withdraw`, `account_withdraw_pix`) and the database contents as
    maps keyed by primary key. Money is in integer cents: the balance column
    is `decimal(15,2) unsigned`. Times are seconds in the application's time
    zone. */
module Model {
  import opened Common

  type Id = string
  type Cents = int
  type Time = int

  const METHOD_PIX := "PIX"
  const TYPE_EMAIL := "email"

  datatype Account = Account(id: Id, name: string, balance: Cents)

  datatype Withdraw = Withdraw(
    id: Id,
    accountId: Id,
    payoutMethod: string,
    amount: Cents,
    scheduled: bool,
    scheduledFor: Option<Time>,
    done: bool,
    error: bool,
    errorReason: Option<string>)

  /** The PIX payout detail of a withdraw, keyed by the withdraw's id. */
  datatype Pix = Pix(withdrawId: Id, kind: string, key: string)

  datatype Tables = Tables(accounts: map<Id, Account>, withdraws: map<Id, Withdraw>, pixes: map<Id, Pix>) {

    /** Every row sits under its own primary key and no balance is negative. */
    ghost predicate Valid() {
      && (forall id :: id in accounts ==> accounts[id].id == id && accounts[id].balance >= 0)
      && (forall id :: id in withdraws ==> withdraws[id].id == id)
      && (forall id :: id in pixes ==> pixes[id].withdrawId == id)
    }

    /** `UPDATE account ... WHERE id = ?`: replaces an existing row, touches nothing otherwise. */
    function SaveAccount(a: Account): (t: Tables)
      ensures t.withdraws == withdraws && t.pixes == pixes
      ensures t.accounts.Keys == accounts.Keys
      ensures forall id :: id in accounts ==> t.accounts[id] == if id == a.id then a else accounts[id]
    {
      if a.id in accounts then this.(accounts := accounts[a.id := a]) else this
    }

    /** `UPDATE account_withdraw ... WHERE id = ?`. */
    function SaveWithdraw(w: Withdraw): (t: Tables)
      ensures t.accounts == accounts && t.pixes == pixes
      ensures t.withdraws.Keys == withdraws.Keys
      ensures forall id :: id in withdraws ==> t.withdraws[id] == if id == w.id then w else withdraws[id]
    {
      if w.id in withdraws then this.(withdraws := withdraws[w.id := w]) else this
    }

    /** `INSERT INTO account_withdraw`. */
    function InsertWithdraw(w: Withdraw): (t: Tables)
      ensures t.accounts == accounts && t.pixes == pixes
      ensures t.withdraws == withdraws[w.id := w]
    {
      this.(withdraws := withdraws[w.id := w])
    }

    /** `INSERT INTO account_withdraw_pix`. */
    function InsertPix(p: Pix): (t: Tables)
      ensures t.accounts == accounts && t.withdraws == withdraws
      ensures t.pixes == pixes[p.withdrawId := p]
    {
      this.(pixes := pixes[p.withdrawId := p])
    }
  }

  /** The sweep's query: `scheduled = true AND done = false AND error = false
      AND scheduled_for <= now` (a NULL `scheduled_for` never compares true). */
  predicate IsDue(w: Withdraw, now: Time) {
    w.scheduled && !w.done && !w.error && w.scheduledFor.Some? && w.scheduledFor.value <= now
  }

  ghost predicate Distinct(ws: seq<Withdraw>) {
    forall i, j :: 0 <= i < j < |ws| ==> ws[i].id != ws[j].id
  }

  /** `ws` is a result of the sweep's query on `t`: every due row exactly once, in some order. */
  ghost predicate IsDueSelection(ws: seq<Withdraw>, t: Tables, now: Time) {
    && Distinct(ws)
    && (forall i :: 0 <= i < |ws| ==> ws[i].id in t.withdraws && t.withdraws[ws[i].id] == ws[i] && IsDue(ws[i], now))
    && (forall id :: id in t.withdraws && IsDue(t.withdraws[id], now) ==> exists i :: 0 <= i < |ws| && ws[i].id == id)
  }

  /** No withdraw row is both settled and failed. */
  ghost predicate DoneErrorExclusive(t: Tables) {
    forall id :: id in t.withdraws ==> !(t.withdraws[id].done && t.withdraws[id].error)
  }
}
