/** The database as the withdraw workflow uses it: one transaction at a time
    (`Db::beginTransaction` / `commit` / `rollBack`), modelled as a snapshot
    that rollback restores; row lookups; and writes that may fail. Whether a
    write fails is an input (`Fault`), so every failure path can be stated. */
module Persistence {
  import opened Common
  import opened Model

  /** Whether one write succeeds, or raises a database error with the given message. */
  datatype Fault = Succeeds | Fails(message: string)

  function Lookup<V>(m: map<Id, V>, id: Id): (r: Option<V>)
    ensures r.Some? <==> id in m
    ensures r.Some? ==> r.value == m[id]
  {
    if id in m then Some(m[id]) else None
  }

  class Database {
    var tables: Tables
    /** The contents at `beginTransaction`, while a transaction is open. */
    var saved: Option<Tables>

    constructor (initial: Tables)
      ensures tables == initial && saved == None
    {
      tables := initial;
      saved := None;
    }

    method BeginTransaction()
      requires saved.None?
      modifies this
      ensures tables == old(tables) && saved == Some(old(tables))
    {
      saved := Some(tables);
    }

    method Commit()
      requires saved.Some?
      modifies this
      ensures tables == old(tables) && saved == None
    {
      saved := None;
    }

    /** Undoes every write since `BeginTransaction`. */
    method RollBack()
      requires saved.Some?
      modifies this
      ensures tables == old(saved).value && saved == None
    {
      tables := saved.value;
      saved := None;
    }

    /** `Account::find($id)`. */
    method FindAccount(id: Id) returns (a: Option<Account>)
      ensures a == Lookup(tables.accounts, id)
    {
      a := Lookup(tables.accounts, id);
    }

    /** The `pix` relation of a withdraw. */
    method FindPix(withdrawId: Id) returns (p: Option<Pix>)
      ensures p == Lookup(tables.pixes, withdrawId)
    {
      p := Lookup(tables.pixes, withdrawId);
    }

    /** Every row of `account_withdraw` satisfying `IsDue`, in no particular order. */
    method SelectDue(now: Time) returns (due: seq<Withdraw>)
      requires tables.Valid()
      ensures IsDueSelection(due, tables, now)
    {
      var rows := tables.withdraws;
      var rest := rows.Keys;
      due := [];
      while rest != {}
        invariant rest <= rows.Keys
        invariant Distinct(due)
        invariant forall i :: 0 <= i < |due| ==> due[i].id in rows && due[i].id !in rest && rows[due[i].id] == due[i] && IsDue(due[i], now)
        invariant forall id :: id in rows && id !in rest && IsDue(rows[id], now) ==> exists i :: 0 <= i < |due| && due[i].id == id
        decreases rest
      {
        var id :| id in rest;
        if IsDue(rows[id], now) {
          ghost var before := due;
          due := due + [rows[id]];
          assert forall k :: 0 <= k < |before| ==> due[k] == before[k];
          assert due[|due| - 1].id == id;
        }
        rest := rest - {id};
      }
    }

    /** `$account->save()` on a loaded account. */
    method SaveAccount(a: Account, fault: Fault) returns (failure: Option<string>)
      modifies this
      ensures saved == old(saved)
      ensures failure == (if fault.Fails? then Some(fault.message) else None)
      ensures tables == if fault.Fails? then old(tables) else old(tables).SaveAccount(a)
    {
      if fault.Fails? {
        return Some(fault.message);
      }
      tables := tables.SaveAccount(a);
      failure := None;
    }

    /** `$withdraw->save()` on a loaded withdraw. */
    method SaveWithdraw(w: Withdraw, fault: Fault) returns (failure: Option<string>)
      modifies this
      ensures saved == old(saved)
      ensures failure == (if fault.Fails? then Some(fault.message) else None)
      ensures tables == if fault.Fails? then old(tables) else old(tables).SaveWithdraw(w)
    {
      if fault.Fails? {
        return Some(fault.message);
      }
      tables := tables.SaveWithdraw(w);
      failure := None;
    }

    /** `AccountWithdraw::create([...])`. */
    method InsertWithdraw(w: Withdraw, fault: Fault) returns (failure: Option<string>)
      modifies this
      ensures saved == old(saved)
      ensures failure == (if fault.Fails? then Some(fault.message) else None)
      ensures tables == if fault.Fails? then old(tables) else old(tables).InsertWithdraw(w)
    {
      if fault.Fails? {
        return Some(fault.message);
      }
      tables := tables.InsertWithdraw(w);
      failure := None;
    }

    /** `AccountWithdrawPix::create([...])`. */
    method InsertPix(p: Pix, fault: Fault) returns (failure: Option<string>)
      modifies this
      ensures saved == old(saved)
      ensures failure == (if fault.Fails? then Some(fault.message) else None)
      ensures tables == if fault.Fails? then old(tables) else old(tables).InsertPix(p)
    {
      if fault.Fails? {
        return Some(fault.message);
      }
      tables := tables.InsertPix(p);
      failure := None;
    }
  }
}
