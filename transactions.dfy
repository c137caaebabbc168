/** The transaction layer over the multi-version stores: a manager picks the store for an
    isolation level and starts transactions; a transaction object refuses every operation
    once it has committed or aborted; a two-phase coordinator runs operations on one
    transaction per participant and commits all of them after logging its decision; a
    distributed transaction spans one transaction per partition. Errors that the source
    raises are returned as values. */
module Transactions {
  import opened Common
  import Mvcc

  datatype IsolationLevel = ReadUncommittedLevel | ReadCommittedLevel | RepeatableReadLevel | SnapshotLevel | SerializableLevel

  /** The kind of store `TransactionManager(isolation_level)` builds. */
  function StoreKind(level: IsolationLevel): (k: Mvcc.Kind)
    ensures k == Mvcc.ReadUncommitted <==> level == ReadUncommittedLevel
    ensures k == Mvcc.ReadCommitted <==> level == ReadCommittedLevel
    ensures k == Mvcc.Snapshot <==> level.RepeatableReadLevel? || level.SnapshotLevel? || level.SerializableLevel?
  {
    if level == ReadUncommittedLevel then Mvcc.ReadUncommitted
    else if level == ReadCommittedLevel then Mvcc.ReadCommitted
    else Mvcc.Snapshot
  }

  // ---------------------------------------------------------------------------------------
  // One transaction

  /** A transaction's `committed` and `aborted` flags. */
  datatype Flags = Flags(committed: bool, aborted: bool)

  const Live := Flags(false, false)

  predicate Ended(f: Flags) {
    f.committed || f.aborted
  }

  predicate Consistent(f: Flags) {
    !(f.committed && f.aborted)
  }

  /** The `RuntimeError`s a transaction raises: 'transaction already ended', or the store's
      error message. */
  datatype TxnError = AlreadyEnded | StoreFailed(error: Option<Mvcc.Error>)

  /** `read(key)` */
  function TxRead<V>(s: Mvcc.State<V>, f: Flags, t: Mvcc.TxnId, key: string): (Mvcc.State<V>, Option<V>, Option<TxnError>) {
    if Ended(f) then (s, None, Some(AlreadyEnded))
    else
      var (s', v, e) := Mvcc.ReadStep(s, t, key);
      if e.Some? then (s', None, Some(StoreFailed(e))) else (s', v, None)
  }

  /** `write(key, value)` (`p` a value) and `delete(key)` (`p` a deletion). */
  function TxChange<V>(s: Mvcc.State<V>, f: Flags, t: Mvcc.TxnId, key: string, p: Mvcc.Pending<V>): (Mvcc.State<V>, Option<TxnError>) {
    if Ended(f) then (s, Some(AlreadyEnded))
    else
      var (s', ok, e) := Mvcc.Buffer(s, t, key, p);
      (s', if ok then None else Some(StoreFailed(e)))
  }

  /** `commit()` at time `now`. */
  ghost function TxCommit<V>(s: Mvcc.State<V>, f: Flags, t: Mvcc.TxnId, now: int): (Mvcc.State<V>, Flags, Option<TxnError>) {
    if Ended(f) then (s, f, Some(AlreadyEnded))
    else
      var (s', ok, e) := Mvcc.CommitStep(s, t, now);
      if ok then (s', f.(committed := true), None) else (s', f, Some(StoreFailed(e)))
  }

  /** `abort()`: the store's answer is ignored. */
  ghost function TxAbort<V>(s: Mvcc.State<V>, f: Flags, t: Mvcc.TxnId): (Mvcc.State<V>, Flags, Option<TxnError>) {
    if Ended(f) then (s, f, Some(AlreadyEnded))
    else (Mvcc.AbortStep(s, t).0, f.(aborted := true), None)
  }

  /** `__exit__`, `exc` telling whether the block raised; the result's error is the one the
      exit itself raises (the block's own exception always propagates). */
  ghost function TxExit<V>(s: Mvcc.State<V>, f: Flags, t: Mvcc.TxnId, exc: bool, now: int): (Mvcc.State<V>, Flags, Option<TxnError>) {
    if Ended(f) then (s, f, None)
    else if exc then
      var (s', f', _) := TxAbort(s, f, t);
      (s', f', None)
    else
      var (s1, f1, e) := TxCommit(s, f, t, now);
      if e.None? then (s1, f1, None)
      else
        var (s2, f2, _) := TxAbort(s1, f1, t);
        (s2, f2, e)
  }

  /** An ended transaction refuses every operation with 'transaction already ended' and
      leaves the store and its flags alone. */
  lemma EndedRefuses<V>(s: Mvcc.State<V>, f: Flags, t: Mvcc.TxnId, key: string, p: Mvcc.Pending<V>, now: int)
    requires Ended(f)
    ensures TxRead(s, f, t, key) == (s, None, Some(AlreadyEnded))
    ensures TxChange(s, f, t, key, p) == (s, Some(AlreadyEnded))
    ensures TxCommit(s, f, t, now) == (s, f, Some(AlreadyEnded))
    ensures TxAbort(s, f, t) == (s, f, Some(AlreadyEnded))
  {
  }

  /** `committed` is set only by `commit`, and exactly when the store committed the
      transaction: it was active there, and afterwards it is committed and no longer active.
      Otherwise the store's error is raised. `aborted` is never touched by `commit`. */
  lemma CommitIffStoreCommits<V>(s: Mvcc.State<V>, f: Flags, t: Mvcc.TxnId, now: int)
    requires !Ended(f)
    ensures var (s', f', e) := TxCommit(s, f, t, now);
      f'.aborted == f.aborted && Consistent(f') &&
      (f'.committed <==> t in s.activeTxns) &&
      (f'.committed <==> e.None?) &&
      (f'.committed ==> t in s'.committedTxns && t !in s'.activeTxns) &&
      (!f'.committed ==> s' == s && e == Some(StoreFailed(Some(Mvcc.NotActive))))
  {
    if t in s.activeTxns {
      Mvcc.CommitEffect(s, t, now, "");
    }
  }

  /** Reads, writes and deletes never change the flags, and keep the store's set of active
      transactions. */
  lemma OperationsKeepActive<V>(s: Mvcc.State<V>, f: Flags, t: Mvcc.TxnId, key: string, p: Mvcc.Pending<V>)
    ensures TxRead(s, f, t, key).0.activeTxns.Keys == s.activeTxns.Keys
    ensures TxChange(s, f, t, key, p).0.activeTxns.Keys == s.activeTxns.Keys
  {
  }

  /** Leaving the `with` block always ends a consistent transaction: it aborts when the block
      raised; otherwise it commits, and if the commit fails it aborts and raises the commit's
      error. The transaction is never both committed and aborted. */
  lemma ExitEnds<V>(s: Mvcc.State<V>, f: Flags, t: Mvcc.TxnId, exc: bool, now: int)
    requires Consistent(f)
    ensures var (s', f', e) := TxExit(s, f, t, exc, now);
      Ended(f') && Consistent(f') &&
      (Ended(f) ==> s' == s && f' == f && e.None?) &&
      (!Ended(f) && exc ==> f'.aborted && e.None?) &&
      (!Ended(f) && !exc ==> (f'.committed <==> t in s.activeTxns) && (f'.aborted <==> e.Some?))
  {
    if !Ended(f) && !exc {
      CommitIffStoreCommits(s, f, t, now);
    }
  }

  /** `Transaction`: a store transaction id with its flags. */
  class Transaction<V(==)> {
    const txnId: Mvcc.TxnId
    const store: Mvcc.MVCCStore<V>
    const level: IsolationLevel
    var committed: bool
    var aborted: bool

    function Status(): Flags
      reads this
    {
      Flags(committed, aborted)
    }

    ghost predicate Valid()
      reads this
    {
      Consistent(Status())
    }

    constructor(txnId: Mvcc.TxnId, store: Mvcc.MVCCStore<V>, level: IsolationLevel)
      ensures this.txnId == txnId && this.store == store && this.level == level
      ensures Status() == Live && Valid()
    {
      this.txnId, this.store, this.level := txnId, store, level;
      committed, aborted := false, false;
    }

    /** `read(key)` */
    method Read(key: string) returns (value: Option<V>, err: Option<TxnError>)
      modifies store
      ensures (store.View(), value, err) == TxRead(old(store.View()), Status(), txnId, key)
    {
      if committed || aborted {
        return None, Some(AlreadyEnded);
      }
      var v, e := store.Read(txnId, key);
      if e.Some? {
        return None, Some(StoreFailed(e));
      }
      return v, None;
    }

    /** `write(key, value)` */
    method Write(key: string, value: V) returns (err: Option<TxnError>)
      modifies store
      ensures (store.View(), err) == TxChange(old(store.View()), Status(), txnId, key, Mvcc.Pending(Some(value), false))
    {
      if committed || aborted {
        return Some(AlreadyEnded);
      }
      var ok, e := store.Write(txnId, key, value);
      if !ok {
        return Some(StoreFailed(e));
      }
      return None;
    }

    /** `delete(key)` */
    method Delete(key: string) returns (err: Option<TxnError>)
      modifies store
      ensures (store.View(), err) == TxChange(old(store.View()), Status(), txnId, key, Mvcc.Pending(None, true))
    {
      if committed || aborted {
        return Some(AlreadyEnded);
      }
      var ok, e := store.Delete(txnId, key);
      if !ok {
        return Some(StoreFailed(e));
      }
      return None;
    }

    /** `commit()` at time `now`. */
    method Commit(now: int) returns (err: Option<TxnError>)
      requires Valid()
      modifies this, store
      ensures Valid() && (store.View(), Status(), err) == TxCommit(old(store.View()), old(Status()), txnId, now)
    {
      if committed || aborted {
        return Some(AlreadyEnded);
      }
      var ok, e := store.Commit(txnId, now);
      if ok {
        committed := true;
        return None;
      }
      return Some(StoreFailed(e));
    }

    /** `abort()` */
    method Abort() returns (err: Option<TxnError>)
      requires Valid()
      modifies this, store
      ensures Valid() && (store.View(), Status(), err) == TxAbort(old(store.View()), old(Status()), txnId)
    {
      if committed || aborted {
        return Some(AlreadyEnded);
      }
      var _, _ := store.Abort(txnId);
      aborted := true;
      return None;
    }

    /** `__exit__(exc_type, ...)` at time `now`. */
    method Exit(exc: bool, now: int) returns (err: Option<TxnError>)
      requires Valid()
      modifies this, store
      ensures Valid() && (store.View(), Status(), err) == TxExit(old(store.View()), old(Status()), txnId, exc, now)
    {
      err := None;
      if exc {
        if !aborted && !committed {
          var _ := Abort();
        }
        return;
      }
      if !committed && !aborted {
        var e := Commit(now);
        if e.Some? {
          var _ := Abort();
          err := e;
        }
      }
    }
  }

  /** `TransactionManager(isolation_level)`: a fresh store of the level's kind. */
  class TransactionManager<V(==)> {
    const level: IsolationLevel
    const store: Mvcc.MVCCStore<V>

    constructor(level: IsolationLevel)
      ensures this.level == level && fresh(store)
      ensures store.View() == Mvcc.EmptyStore(StoreKind(level)) && store.Valid()
    {
      this.level := level;
      store := new Mvcc.MVCCStore(StoreKind(level));
    }

    /** `begin()` at time `now`. */
    method Begin(now: int) returns (tx: Transaction<V>)
      modifies store
      ensures fresh(tx) && tx.store == store && tx.level == level
      ensures tx.txnId == old(store.nextTxnId) && tx.Status() == Live && tx.Valid()
      ensures store.View() == Mvcc.Begin(old(store.View()), now).0
    {
      var t := store.BeginTransaction(now);
      tx := new Transaction(t, store, level);
    }
  }

  // ---------------------------------------------------------------------------------------
  // Groups of transactions, one per store

  /** Distinct transactions over distinct stores. */
  ghost predicate Separate<V>(txns: seq<Transaction<V>>) {
    forall i, j :: 0 <= i < |txns| && 0 <= j < |txns| && i != j ==> txns[i] != txns[j] && txns[i].store != txns[j].store
  }

  ghost function StoresOf<V>(txns: seq<Transaction<V>>): set<Mvcc.MVCCStore<V>> {
    set i | 0 <= i < |txns| :: txns[i].store
  }

  ghost function Objects<V>(txns: seq<Transaction<V>>): set<Transaction<V>> {
    set i | 0 <= i < |txns| :: txns[i]
  }

  /** The transactions' stores hold `vs`. */
  ghost predicate ViewsAre<V>(txns: seq<Transaction<V>>, vs: seq<Mvcc.State<V>>)
    reads StoresOf(txns)
  {
    |vs| == |txns| && forall i :: 0 <= i < |txns| ==> txns[i].store.View() == vs[i]
  }

  /** The transactions' flags are `fl`, and each is consistent. */
  ghost predicate FlagsAre<V>(txns: seq<Transaction<V>>, fl: seq<Flags>)
    reads Objects(txns)
  {
    |fl| == |txns| && forall i :: 0 <= i < |txns| ==> txns[i].Status() == fl[i] && txns[i].Valid()
  }

  function TxnIds<V(==)>(txns: seq<Transaction<V>>): (r: seq<Mvcc.TxnId>)
    ensures |r| == |txns| && forall i :: 0 <= i < |txns| ==> r[i] == txns[i].txnId
  {
    if txns == [] then [] else [txns[0].txnId] + TxnIds(txns[1..])
  }

  /** `txn.commit()` for each transaction from `i` on, stopping at the first that raises. */
  ghost function CommitFrom<V>(ss: seq<Mvcc.State<V>>, ts: seq<Mvcc.TxnId>, fl: seq<Flags>, i: nat, now: int)
    : (r: (seq<Mvcc.State<V>>, seq<Flags>, Option<TxnError>))
    requires |ss| == |ts| == |fl| && i <= |ss|
    ensures |r.0| == |ss| && |r.1| == |ss|
    decreases |ss| - i
  {
    if i == |ss| then (ss, fl, None)
    else
      var c := TxCommit(ss[i], fl[i], ts[i], now);
      if c.2.Some? then (ss[i := c.0], fl[i := c.1], c.2)
      else CommitFrom(ss[i := c.0], ts, fl[i := c.1], i + 1, now)
  }

  /** `txn.abort()` for each transaction from `i` on that has not ended. */
  ghost function AbortFrom<V>(ss: seq<Mvcc.State<V>>, ts: seq<Mvcc.TxnId>, fl: seq<Flags>, i: nat)
    : (r: (seq<Mvcc.State<V>>, seq<Flags>))
    requires |ss| == |ts| == |fl| && i <= |ss|
    ensures |r.0| == |ss| && |r.1| == |ss|
    decreases |ss| - i
  {
    if i == |ss| then (ss, fl)
    else if Ended(fl[i]) then AbortFrom(ss, ts, fl, i + 1)
    else
      var a := TxAbort(ss[i], fl[i], ts[i]);
      AbortFrom(ss[i := a.0], ts, fl[i := a.1], i + 1)
  }

  /** Aborting the rest ends every transaction from `i` on and aborts none that had
      committed; the flags stay consistent. */
  lemma {:induction false} AbortFromEnds<V>(ss: seq<Mvcc.State<V>>, ts: seq<Mvcc.TxnId>, fl: seq<Flags>, i: nat)
    requires |ss| == |ts| == |fl| && i <= |ss|
    requires forall j :: 0 <= j < |fl| ==> Consistent(fl[j])
    ensures var fl' := AbortFrom(ss, ts, fl, i).1;
      forall j :: 0 <= j < |fl| ==>
        Consistent(fl'[j]) && fl'[j].committed == fl[j].committed &&
        (j < i ==> fl'[j] == fl[j]) && (i <= j ==> Ended(fl'[j])) &&
        (!fl[j].committed && i <= j ==> fl'[j].aborted)
    decreases |ss| - i
  {
    if i < |ss| {
      if Ended(fl[i]) {
        AbortFromEnds(ss, ts, fl, i + 1);
      } else {
        var (s', f', _) := TxAbort(ss[i], fl[i], ts[i]);
        AbortFromEnds(ss[i := s'], ts, fl[i := f'], i + 1);
      }
    }
  }

  /** Committing live transactions that are all active in their stores commits every one of
      them and raises nothing. */
  lemma {:induction false} CommitFromAll<V>(ss: seq<Mvcc.State<V>>, ts: seq<Mvcc.TxnId>, fl: seq<Flags>, i: nat, now: int)
    requires |ss| == |ts| == |fl| && i <= |ss|
    requires forall j :: i <= j < |ss| ==> fl[j] == Live && ts[j] in ss[j].activeTxns
    ensures var (ss', fl', e) := CommitFrom(ss, ts, fl, i, now);
      e.None? && forall j :: 0 <= j < |ss| ==>
        (j < i ==> ss'[j] == ss[j] && fl'[j] == fl[j]) &&
        (i <= j ==> fl'[j] == Flags(true, false) && ts[j] in ss'[j].committedTxns)
    decreases |ss| - i
  {
    if i < |ss| {
      CommitIffStoreCommits(ss[i], fl[i], ts[i], now);
      var (s', f', e) := TxCommit(ss[i], fl[i], ts[i], now);
      CommitFromAll(ss[i := s'], ts, fl[i := f'], i + 1, now);
    }
  }

  /** `n` transactions that are all live. */
  function AllLive(n: nat): (r: seq<Flags>)
    ensures |r| == n && forall i :: 0 <= i < n ==> r[i] == Live
  {
    seq(n, _ => Live)
  }

  /** One consistent transaction per manager, over that manager's store. */
  ghost predicate Over<V>(txns: seq<Transaction<V>>, managers: seq<TransactionManager<V>>)
    reads Objects(txns)
  {
    |txns| == |managers| && Separate(txns) &&
    forall i :: 0 <= i < |txns| ==> txns[i].store == managers[i].store && txns[i].Valid()
  }

  /** The transactions just begun on stores in states `ss0` carry the ids `FirstIds(ss0)`. */
  lemma FirstIdsOf<V>(txns: seq<Transaction<V>>, ss0: seq<Mvcc.State<V>>)
    requires |txns| == |ss0| && forall i :: 0 <= i < |txns| ==> txns[i].txnId == ss0[i].nextTxnId
    ensures TxnIds(txns) == FirstIds(ss0)
  {
  }

  /** `begin()` on every manager, in order, from stores in states `ss0`. */
  method BeginEach<V(==)>(managers: seq<TransactionManager<V>>, now: int, ghost ss0: seq<Mvcc.State<V>>)
    returns (txns: seq<Transaction<V>>)
    requires DistinctStores(managers)
    requires |ss0| == |managers| && forall i :: 0 <= i < |managers| ==> managers[i].store.View() == ss0[i]
    modifies set i | 0 <= i < |managers| :: managers[i].store
    ensures Over(txns, managers) && FlagsAre(txns, AllLive(|txns|))
    ensures forall i :: 0 <= i < |managers| ==> fresh(txns[i])
    ensures StoresOf(txns) == set i | 0 <= i < |managers| :: managers[i].store
    ensures ViewsAre(txns, Started(ss0, now)) && TxnIds(txns) == FirstIds(ss0)
  {
    txns := [];
    for i := 0 to |managers|
      invariant |txns| == i
      invariant forall j :: 0 <= j < i ==>
        fresh(txns[j]) && txns[j].store == managers[j].store && txns[j].txnId == ss0[j].nextTxnId &&
        txns[j].store.View() == Mvcc.Begin(ss0[j], now).0 && txns[j].Status() == Live && txns[j].Valid()
      invariant forall j :: i <= j < |managers| ==> managers[j].store.View() == ss0[j]
      invariant Separate(txns)
    {
      var tx := managers[i].Begin(now);
      txns := txns + [tx];
    }
    Begun(txns, managers, ss0, now);
  }

  /** What `BeginEach`'s loop establishes, stated for the whole group. */
  lemma Begun<V>(txns: seq<Transaction<V>>, managers: seq<TransactionManager<V>>, ss0: seq<Mvcc.State<V>>, now: int)
    requires |txns| == |managers| == |ss0| && Separate(txns)
    requires forall j :: 0 <= j < |txns| ==>
      txns[j].store == managers[j].store && txns[j].txnId == ss0[j].nextTxnId &&
      txns[j].store.View() == Mvcc.Begin(ss0[j], now).0 && txns[j].Status() == Live && txns[j].Valid()
    ensures Over(txns, managers) && FlagsAre(txns, AllLive(|txns|))
    ensures StoresOf(txns) == set i | 0 <= i < |managers| :: managers[i].store
    ensures ViewsAre(txns, Started(ss0, now)) && TxnIds(txns) == FirstIds(ss0)
  {
    assert StoresOf(txns) == set i | 0 <= i < |managers| :: managers[i].store by {
      forall i | 0 <= i < |managers| ensures managers[i].store in StoresOf(txns) { assert txns[i].store == managers[i].store; }
    }
    FirstIdsOf(txns, ss0);
  }

  /** `txns[i].commit()`; the other transactions and their stores are left alone. */
  method CommitAt<V(==)>(txns: seq<Transaction<V>>, i: nat, now: int, ghost vs: seq<Mvcc.State<V>>, ghost fl: seq<Flags>)
    returns (err: Option<TxnError>)
    requires i < |txns| && Separate(txns) && ViewsAre(txns, vs) && FlagsAre(txns, fl)
    modifies txns[i], txns[i].store
    ensures var r := TxCommit(vs[i], fl[i], txns[i].txnId, now);
      ViewsAre(txns, vs[i := r.0]) && FlagsAre(txns, fl[i := r.1]) && err == r.2
  {
    err := txns[i].Commit(now);
  }

  /** `txns[i].abort()`; the other transactions and their stores are left alone. */
  method AbortAt<V(==)>(txns: seq<Transaction<V>>, i: nat, ghost vs: seq<Mvcc.State<V>>, ghost fl: seq<Flags>)
    requires i < |txns| && Separate(txns) && ViewsAre(txns, vs) && FlagsAre(txns, fl)
    modifies txns[i], txns[i].store
    ensures var r := TxAbort(vs[i], fl[i], txns[i].txnId);
      ViewsAre(txns, vs[i := r.0]) && FlagsAre(txns, fl[i := r.1])
  {
    var _ := txns[i].Abort();
  }

  /** `txn.commit()` on each transaction in order, stopping at the first that raises and
      returning its error. */
  method CommitEach<V(==)>(txns: seq<Transaction<V>>, now: int, ghost vs: seq<Mvcc.State<V>>, ghost fl: seq<Flags>)
    returns (err: Option<TxnError>)
    requires Separate(txns) && ViewsAre(txns, vs) && FlagsAre(txns, fl)
    modifies Objects(txns), StoresOf(txns)
    ensures var r := CommitFrom(vs, TxnIds(txns), fl, 0, now); ViewsAre(txns, r.0) && FlagsAre(txns, r.1) && err == r.2
  {
    ghost var ts := TxnIds(txns);
    ghost var cvs, cfl := vs, fl;
    var i := 0;
    while i < |txns|
      invariant 0 <= i <= |txns| && ViewsAre(txns, cvs) && FlagsAre(txns, cfl)
      invariant CommitFrom(vs, ts, fl, 0, now) == CommitFrom(cvs, ts, cfl, i, now)
    {
      ghost var r := TxCommit(cvs[i], cfl[i], ts[i], now);
      var e := CommitAt(txns, i, now, cvs, cfl);
      cvs, cfl := cvs[i := r.0], cfl[i := r.1];
      if e.Some? {
        return e;
      }
      i := i + 1;
    }
    return None;
  }

  /** `if not txn.committed and not txn.aborted: txn.abort()` on each transaction. */
  method AbortEach<V(==)>(txns: seq<Transaction<V>>, ghost vs: seq<Mvcc.State<V>>, ghost fl: seq<Flags>)
    requires Separate(txns) && ViewsAre(txns, vs) && FlagsAre(txns, fl)
    modifies Objects(txns), StoresOf(txns)
    ensures var r := AbortFrom(vs, TxnIds(txns), fl, 0); ViewsAre(txns, r.0) && FlagsAre(txns, r.1)
  {
    ghost var ts := TxnIds(txns);
    ghost var cvs, cfl := vs, fl;
    for i := 0 to |txns|
      invariant ViewsAre(txns, cvs) && FlagsAre(txns, cfl)
      invariant AbortFrom(vs, ts, fl, 0) == AbortFrom(cvs, ts, cfl, i)
    {
      if !txns[i].committed && !txns[i].aborted {
        ghost var r := TxAbort(cvs[i], cfl[i], ts[i]);
        AbortAt(txns, i, cvs, cfl);
        cvs, cfl := cvs[i := r.0], cfl[i := r.1];
      }
    }
  }

  /** The stores' states, in order. */
  ghost function ViewsOf<V>(txns: seq<Transaction<V>>): (r: seq<Mvcc.State<V>>)
    reads StoresOf(txns)
    ensures ViewsAre(txns, r)
  {
    if txns == [] then []
    else
      assert StoresOf(txns[1..]) <= StoresOf(txns) by {
        forall i | 0 <= i < |txns[1..]| ensures txns[1..][i].store in StoresOf(txns) { assert txns[1..][i] == txns[i + 1]; }
      }
      [txns[0].store.View()] + ViewsOf(txns[1..])
  }

  /** The flags, in order. */
  ghost function StatusOf<V>(txns: seq<Transaction<V>>): (r: seq<Flags>)
    reads Objects(txns)
    ensures |r| == |txns| && forall i :: 0 <= i < |txns| ==> r[i] == txns[i].Status()
  {
    if txns == [] then []
    else
      assert Objects(txns[1..]) <= Objects(txns) by {
        forall i | 0 <= i < |txns[1..]| ensures txns[1..][i] in Objects(txns) { assert txns[1..][i] == txns[i + 1]; }
      }
      [txns[0].Status()] + StatusOf(txns[1..])
  }

  /** A commit pass that raised nothing committed every transaction from `i` on. */
  lemma {:induction false} CommitFromDone<V>(ss: seq<Mvcc.State<V>>, ts: seq<Mvcc.TxnId>, fl: seq<Flags>, i: nat, now: int)
    requires |ss| == |ts| == |fl| && i <= |ss|
    requires CommitFrom(ss, ts, fl, i, now).2.None?
    ensures forall j :: i <= j < |ss| ==> CommitFrom(ss, ts, fl, i, now).1[j].committed
    ensures forall j :: 0 <= j < i ==> CommitFrom(ss, ts, fl, i, now).1[j] == fl[j]
    decreases |ss| - i
  {
    if i < |ss| {
      var (s', f', e) := TxCommit(ss[i], fl[i], ts[i], now);
      CommitFromDone(ss[i := s'], ts, fl[i := f'], i + 1, now);
    }
  }

  /** A commit pass keeps consistent flags consistent. */
  lemma {:induction false} CommitFromConsistent<V>(ss: seq<Mvcc.State<V>>, ts: seq<Mvcc.TxnId>, fl: seq<Flags>, i: nat, now: int)
    requires |ss| == |ts| == |fl| && i <= |ss|
    requires forall j :: 0 <= j < |fl| ==> Consistent(fl[j])
    ensures forall j :: 0 <= j < |fl| ==> Consistent(CommitFrom(ss, ts, fl, i, now).1[j])
    decreases |ss| - i
  {
    if i < |ss| {
      var (s', f', e) := TxCommit(ss[i], fl[i], ts[i], now);
      CommitFromConsistent(ss[i := s'], ts, fl[i := f'], i + 1, now);
    }
  }

  // ---------------------------------------------------------------------------------------
  // Two-phase commit

  type ParticipantId = string

  /** An entry of `operations`: a write, a read, or one of any other type, which is skipped. */
  datatype Op<V> =
    | WriteOp(participant: ParticipantId, key: string, value: V)
    | ReadOp(participant: ParticipantId, key: string)
    | OtherOp(participant: ParticipantId)

  /** Why `execute` returns False: the exception an operation raised (a `KeyError` for an
      unknown participant, or a transaction's error), or 'commit failed'. */
  datatype Failure = UnknownParticipant(p: ParticipantId) | OpFailed(error: TxnError) | CommitFailed

  /** `execute`'s answer: True with the values its reads returned, in order, or False with
      the reason. */
  datatype Outcome<V> = Done(values: seq<Option<V>>) | Failed(reason: Failure)

  /** An entry of `coordinator_log`: ('commit_decision', participant ids). */
  datatype LogRecord = CommitDecision(participants: seq<ParticipantId>)

  /** The position of `p` among the dictionary's keys. */
  function IndexOf(ids: seq<ParticipantId>, p: ParticipantId): (r: Option<nat>)
    ensures r.Some? ==> r.value < |ids| && ids[r.value] == p
    ensures r.None? <==> p !in ids
  {
    if ids == [] then None
    else if ids[0] == p then Some(0)
    else match IndexOf(ids[1..], p)
      case None => None
      case Some(j) => Some(j + 1)
  }

  /** One operation of `execute` on live transactions `ts`, one per store state: the states
      after it, the failure it raised, and the value it read when it is a read. */
  function OpStep<V>(ss: seq<Mvcc.State<V>>, ts: seq<Mvcc.TxnId>, ids: seq<ParticipantId>, op: Op<V>)
    : (r: (seq<Mvcc.State<V>>, Option<Failure>, Option<Option<V>>))
    requires |ss| == |ts| == |ids|
    ensures |r.0| == |ss| && r.1 != Some(CommitFailed)
    ensures op.participant !in ids <==> r.1 == Some(UnknownParticipant(op.participant))
  {
    match IndexOf(ids, op.participant)
    case None => (ss, Some(UnknownParticipant(op.participant)), None)
    case Some(j) =>
      match op
      case WriteOp(_, key, value) =>
        var (s', e) := TxChange(ss[j], Live, ts[j], key, Mvcc.Pending(Some(value), false));
        (ss[j := s'], if e.Some? then Some(OpFailed(e.value)) else None, None)
      case ReadOp(_, key) =>
        var (s', v, e) := TxRead(ss[j], Live, ts[j], key);
        (ss[j := s'], if e.Some? then Some(OpFailed(e.value)) else None, Some(v))
      case OtherOp(_) => (ss, None, None)
  }

  /** The operation loop of `execute`, from the values read so far: the states reached, the
      failure that stopped it, and the values read. */
  function RunOps<V>(ss: seq<Mvcc.State<V>>, ts: seq<Mvcc.TxnId>, ids: seq<ParticipantId>, ops: seq<Op<V>>, got: seq<Option<V>>)
    : (r: (seq<Mvcc.State<V>>, Option<Failure>, seq<Option<V>>))
    requires |ss| == |ts| == |ids|
    ensures |r.0| == |ss| && r.1 != Some(CommitFailed)
    decreases ops
  {
    if ops == [] then (ss, None, got)
    else
      var (ss', fail, v) := OpStep(ss, ts, ids, ops[0]);
      if fail.Some? then (ss', fail, got)
      else RunOps(ss', ts, ids, ops[1..], got + if v.Some? then [v.value] else [])
  }

  /** Every store once it has begun a transaction. */
  function Started<V>(ss: seq<Mvcc.State<V>>, now: int): (r: seq<Mvcc.State<V>>)
    ensures |r| == |ss| && forall i :: 0 <= i < |ss| ==> r[i] == Mvcc.Begin(ss[i], now).0
  {
    if ss == [] then [] else [Mvcc.Begin(ss[0], now).0] + Started(ss[1..], now)
  }

  /** The ids those transactions get. */
  function FirstIds<V>(ss: seq<Mvcc.State<V>>): (r: seq<Mvcc.TxnId>)
    ensures |r| == |ss| && forall i :: 0 <= i < |ss| ==> r[i] == ss[i].nextTxnId
  {
    if ss == [] then [] else [ss[0].nextTxnId] + FirstIds(ss[1..])
  }

  /** A run of `execute`: the stores' states, the transactions' flags, whether the commit
      decision was logged, and the answer. */
  datatype Run<V> = Run(states: seq<Mvcc.State<V>>, flags: seq<Flags>, logged: bool, outcome: Outcome<V>)

  /** The end of `execute` once its operation loop produced `run` on transactions `ts`: abort
      all after a failure; otherwise log the decision and commit all. */
  ghost function Finish<V>(run: (seq<Mvcc.State<V>>, Option<Failure>, seq<Option<V>>), ts: seq<Mvcc.TxnId>, now: int): Run<V>
    requires |run.0| == |ts|
  {
    var live := AllLive(|ts|);
    if run.1.Some? then
      var a := AbortFrom(run.0, ts, live, 0);
      Run(a.0, a.1, false, Failed(run.1.value))
    else
      var c := CommitFrom(run.0, ts, live, 0, now);
      Run(c.0, c.1, true, if c.2.None? then Done(run.2) else Failed(CommitFailed))
  }

  /** `execute(operations)` over participants whose stores are in states `ss0`. */
  ghost function TwoPhase<V>(ss0: seq<Mvcc.State<V>>, ids: seq<ParticipantId>, ops: seq<Op<V>>, now: int): Run<V>
    requires |ss0| == |ids|
  {
    Finish(RunOps(Started(ss0, now), FirstIds(ss0), ids, ops, []), FirstIds(ss0), now)
  }

  /** An operation never ends a transaction in its store. */
  lemma OpStepKeepsActive<V>(ss: seq<Mvcc.State<V>>, ts: seq<Mvcc.TxnId>, ids: seq<ParticipantId>, op: Op<V>)
    requires |ss| == |ts| == |ids|
    requires forall j :: 0 <= j < |ss| ==> ts[j] in ss[j].activeTxns
    ensures var ss' := OpStep(ss, ts, ids, op).0; forall j :: 0 <= j < |ss| ==> ts[j] in ss'[j].activeTxns
  {
    match IndexOf(ids, op.participant)
    case None =>
    case Some(j) =>
      match op
      case WriteOp(_, key, value) => OperationsKeepActive(ss[j], Live, ts[j], key, Mvcc.Pending(Some(value), false));
      case ReadOp(_, key) => OperationsKeepActive(ss[j], Live, ts[j], key, Mvcc.Pending(None, true));
      case OtherOp(_) =>
  }

  /** Nor does the operation loop. */
  lemma {:induction false} RunOpsKeepActive<V>(ss: seq<Mvcc.State<V>>, ts: seq<Mvcc.TxnId>, ids: seq<ParticipantId>,
                                               ops: seq<Op<V>>, got: seq<Option<V>>)
    requires |ss| == |ts| == |ids|
    requires forall j :: 0 <= j < |ss| ==> ts[j] in ss[j].activeTxns
    ensures var ss' := RunOps(ss, ts, ids, ops, got).0; forall j :: 0 <= j < |ss| ==> ts[j] in ss'[j].activeTxns
    decreases ops
  {
    if ops != [] {
      var (ss', fail, v) := OpStep(ss, ts, ids, ops[0]);
      OpStepKeepsActive(ss, ts, ids, ops[0]);
      if fail.None? {
        RunOpsKeepActive(ss', ts, ids, ops[1..], got + if v.Some? then [v.value] else []);
      }
    }
  }

  /** Two-phase commit is all or nothing: `execute` commits every participant's transaction
      exactly when every operation succeeded, and then answers True with what was read;
      otherwise it aborts all of them and logs no decision. The decision is logged whenever,
      and only when, a participant commits; 'commit failed' never happens. */
  lemma TwoPhaseAllOrNothing<V>(ss0: seq<Mvcc.State<V>>, ids: seq<ParticipantId>, ops: seq<Op<V>>, now: int)
    requires |ss0| == |ids|
    ensures var r := TwoPhase(ss0, ids, ops, now);
      var run := RunOps(Started(ss0, now), FirstIds(ss0), ids, ops, []);
      |r.flags| == |r.states| == |ss0| &&
      (r.outcome.Done? <==> run.1.None?) &&
      (r.outcome.Done? ==> r.outcome.values == run.2) &&
      r.outcome != Failed(CommitFailed) &&
      (r.logged <==> r.outcome.Done?) &&
      (r.outcome.Done? ==> forall i :: 0 <= i < |ss0| ==> r.flags[i] == Flags(true, false) && ss0[i].nextTxnId in r.states[i].committedTxns) &&
      (r.outcome.Failed? ==> forall i :: 0 <= i < |ss0| ==> r.flags[i] == Flags(false, true))
  {
    var ts := FirstIds(ss0);
    var live := AllLive(|ss0|);
    var ss := Started(ss0, now);
    var run := RunOps(ss, ts, ids, ops, []);
    RunOpsKeepActive(ss, ts, ids, ops, []);
    if run.1.Some? {
      AbortFromEnds(run.0, ts, live, 0);
    } else {
      CommitFromAll(run.0, ts, live, 0, now);
    }
  }

  /** The stores of `managers`, in order. */
  ghost function ManagerViews<V>(managers: seq<TransactionManager<V>>): (r: seq<Mvcc.State<V>>)
    reads set i | 0 <= i < |managers| :: managers[i].store
    ensures |r| == |managers| && forall i :: 0 <= i < |managers| ==> r[i] == managers[i].store.View()
  {
    if managers == [] then []
    else
      assert (set i | 0 <= i < |managers[1..]| :: managers[1..][i].store) <= (set i | 0 <= i < |managers| :: managers[i].store) by {
        forall i | 0 <= i < |managers[1..]| ensures managers[1..][i].store in (set i | 0 <= i < |managers| :: managers[i].store) {
          assert managers[1..][i] == managers[i + 1];
        }
      }
      [managers[0].store.View()] + ManagerViews(managers[1..])
  }

  ghost predicate DistinctStores<V>(managers: seq<TransactionManager<V>>) {
    forall i, j :: 0 <= i < |managers| && 0 <= j < |managers| && i != j ==> managers[i].store != managers[j].store
  }

  /** `TwoPhaseCommit(participants)`: the participants' ids in dictionary order, their
      managers, and the coordinator's log. */
  class TwoPhaseCommit<V(==)> {
    const ids: seq<ParticipantId>
    const managers: seq<TransactionManager<V>>
    var coordinatorLog: seq<LogRecord>

    ghost predicate Valid()
      reads this
    {
      |ids| == |managers| && Distinct(ids) && DistinctStores(managers)
    }

    constructor(ids: seq<ParticipantId>, managers: seq<TransactionManager<V>>)
      requires |ids| == |managers| && Distinct(ids) && DistinctStores(managers)
      ensures Valid() && this.ids == ids && this.managers == managers && coordinatorLog == []
    {
      this.ids, this.managers := ids, managers;
      coordinatorLog := [];
    }

    /** `execute(operations)` at time `now`; `txns` are the transactions it began. */
    method Execute(ops: seq<Op<V>>, now: int) returns (out: Outcome<V>, ghost txns: seq<Transaction<V>>)
      requires Valid()
      modifies this, set i | 0 <= i < |managers| :: managers[i].store
      ensures Valid()
      ensures var r := TwoPhase(old(ManagerViews(managers)), ids, ops, now);
        out == r.outcome &&
        coordinatorLog == old(coordinatorLog) + (if r.logged then [CommitDecision(ids)] else []) &&
        |txns| == |managers| && ViewsAre(txns, r.states) && FlagsAre(txns, r.flags) &&
        forall i :: 0 <= i < |managers| ==> fresh(txns[i]) && txns[i].store == managers[i].store
    {
      ghost var ss0 := ManagerViews(managers);
      var txs := BeginEach(managers, now, ss0);
      txns := txs;
      out := Decide(txs, ops, now, Started(ss0, now));
    }

    /** The rest of `execute` once the transactions `txns` have begun and their stores hold
        `vs`: the operation loop, then the abort, or the logged decision and the commit. */
    method Decide(txns: seq<Transaction<V>>, ops: seq<Op<V>>, now: int, ghost vs: seq<Mvcc.State<V>>) returns (out: Outcome<V>)
      requires |ids| == |txns| && Separate(txns) && ViewsAre(txns, vs) && FlagsAre(txns, AllLive(|txns|))
      modifies this, Objects(txns), StoresOf(txns)
      ensures var r := Finish(RunOps(vs, TxnIds(txns), ids, ops, []), TxnIds(txns), now);
        out == r.outcome && ViewsAre(txns, r.states) && FlagsAre(txns, r.flags) &&
        coordinatorLog == old(coordinatorLog) + (if r.logged then [CommitDecision(ids)] else [])
    {
      ghost var live := AllLive(|txns|);
      var fail, got := RunEach(txns, ids, ops, vs);
      ghost var run := RunOps(vs, TxnIds(txns), ids, ops, []);
      if fail.Some? {
        AbortEach(txns, run.0, live);
        out := Failed(fail.value);
      } else {
        // `_prepare_all` accepts every transaction, so its failure branch never runs.
        coordinatorLog := coordinatorLog + [CommitDecision(ids)];
        var e := CommitEach(txns, now, run.0, live);
        out := if e.Some? then Failed(CommitFailed) else Done(got);
      }
    }
  }

  /** One operation of `execute` on the live transactions `txns`, whose stores hold `vs`. */
  method StepOp<V(==)>(txns: seq<Transaction<V>>, ids: seq<ParticipantId>, op: Op<V>, ghost vs: seq<Mvcc.State<V>>)
    returns (fail: Option<Failure>, v: Option<Option<V>>)
    requires |ids| == |txns| && Separate(txns) && ViewsAre(txns, vs) && FlagsAre(txns, AllLive(|txns|))
    modifies StoresOf(txns)
    ensures var r := OpStep(vs, TxnIds(txns), ids, op); ViewsAre(txns, r.0) && fail == r.1 && v == r.2
    ensures FlagsAre(txns, AllLive(|txns|))
  {
    ghost var ts := TxnIds(txns);
    var j := IndexOf(ids, op.participant);
    if j.None? {
      return Some(UnknownParticipant(op.participant)), None;
    }
    var tx := txns[j.value];
    assert tx.Status() == Live;
    match op {
      case WriteOp(_, key, value) =>
        var e := tx.Write(key, value);
        fail, v := if e.Some? then Some(OpFailed(e.value)) else None, None;
      case ReadOp(_, key) =>
        var x, e := tx.Read(key);
        fail, v := if e.Some? then Some(OpFailed(e.value)) else None, Some(x);
      case OtherOp(_) =>
        fail, v := None, None;
    }
  }

  /** The operation loop of `execute` on the live transactions `txns`, whose stores hold `vs`. */
  method RunEach<V(==)>(txns: seq<Transaction<V>>, ids: seq<ParticipantId>, ops: seq<Op<V>>, ghost vs: seq<Mvcc.State<V>>)
    returns (fail: Option<Failure>, got: seq<Option<V>>)
    requires |ids| == |txns| && Separate(txns) && ViewsAre(txns, vs) && FlagsAre(txns, AllLive(|txns|))
    modifies StoresOf(txns)
    ensures var r := RunOps(vs, TxnIds(txns), ids, ops, []); ViewsAre(txns, r.0) && fail == r.1 && got == r.2
    ensures FlagsAre(txns, AllLive(|txns|))
  {
    ghost var ts := TxnIds(txns);
    ghost var cvs := vs;
    got := [];
    var k := 0;
    while k < |ops|
      invariant 0 <= k <= |ops| && ViewsAre(txns, cvs) && FlagsAre(txns, AllLive(|txns|))
      invariant RunOps(vs, ts, ids, ops, []) == RunOps(cvs, ts, ids, ops[k..], got)
    {
      assert ops[k..][0] == ops[k] && ops[k..][1..] == ops[k + 1..];
      ghost var r := OpStep(cvs, ts, ids, ops[k]);
      var f, v := StepOp(txns, ids, ops[k], cvs);
      cvs := r.0;
      if f.Some? {
        return f, got;
      }
      got := got + if v.Some? then [v.value] else [];
      k := k + 1;
    }
    return None, got;
  }

  // ---------------------------------------------------------------------------------------
  // Distributed transactions

  /** The `RuntimeError`s of `DistributedTransaction`, the `KeyError` of an unknown partition,
      and a partition transaction's own error. */
  datatype DistError = AlreadyActive | NotActive | UnknownPartition(name: string) | Raised(error: TxnError)

  /** `DistributedTransaction(managers)`: partition names in dictionary order, their managers,
      the current transaction per partition, and whether one is active. */
  class DistributedTransaction<V(==)> {
    const names: seq<string>
    const managers: seq<TransactionManager<V>>
    var transactions: seq<Transaction<V>>
    var active: bool

    ghost predicate Valid()
      reads this, Objects(transactions)
    {
      |names| == |managers| && Distinct(names) && DistinctStores(managers) &&
      (transactions == [] || Over(transactions, managers)) && (active ==> |transactions| == |managers|)
    }

    constructor(names: seq<string>, managers: seq<TransactionManager<V>>)
      requires |names| == |managers| && Distinct(names) && DistinctStores(managers)
      ensures Valid() && this.names == names && this.managers == managers
      ensures transactions == [] && !active
    {
      this.names, this.managers := names, managers;
      transactions, active := [], false;
    }

    /** `begin()` at time `now`. */
    method Begin(now: int) returns (err: Option<DistError>)
      requires Valid()
      modifies this, set i | 0 <= i < |managers| :: managers[i].store
      ensures Valid() && active
      ensures old(active) ==> (err == Some(AlreadyActive) && transactions == old(transactions) &&
                                unchanged(set i | 0 <= i < |managers| :: managers[i].store))
      ensures !old(active) ==> (err.None? && (forall i :: 0 <= i < |transactions| ==> fresh(transactions[i])) &&
                                ViewsAre(transactions, Started(old(ManagerViews(managers)), now)) &&
                                TxnIds(transactions) == FirstIds(old(ManagerViews(managers))) &&
                                FlagsAre(transactions, AllLive(|managers|)))
    {
      if active {
        return Some(AlreadyActive);
      }
      var txs := BeginEach(managers, now, ManagerViews(managers));
      transactions, active := txs, true;
      return None;
    }

    /** `read(partition, key)` */
    method Read(partition: string, key: string) returns (value: Option<V>, err: Option<DistError>)
      requires Valid()
      modifies StoresOf(transactions)
      ensures Valid()
      ensures !active ==> err == Some(NotActive) && value.None? && unchanged(StoresOf(transactions))
      ensures active && partition !in names ==>
        err == Some(UnknownPartition(partition)) && value.None? && unchanged(StoresOf(transactions))
      ensures active && partition in names ==>
        var j := IndexOf(names, partition).value; var tx := transactions[j];
        var r := TxRead(old(ViewsOf(transactions))[j], tx.Status(), tx.txnId, key);
        ViewsAre(transactions, old(ViewsOf(transactions))[j := r.0]) && value == r.1 &&
        err == if r.2.Some? then Some(Raised(r.2.value)) else None
    {
      if !active {
        return None, Some(NotActive);
      }
      var j := IndexOf(names, partition);
      if j.None? {
        return None, Some(UnknownPartition(partition));
      }
      var e;
      value, e := transactions[j.value].Read(key);
      err := if e.Some? then Some(Raised(e.value)) else None;
    }

    /** `write(partition, key, value)` */
    method Write(partition: string, key: string, value: V) returns (err: Option<DistError>)
      requires Valid()
      modifies StoresOf(transactions)
      ensures Valid()
      ensures !active ==> err == Some(NotActive) && unchanged(StoresOf(transactions))
      ensures active && partition !in names ==>
        err == Some(UnknownPartition(partition)) && unchanged(StoresOf(transactions))
      ensures active && partition in names ==>
        var j := IndexOf(names, partition).value; var tx := transactions[j];
        var r := TxChange(old(ViewsOf(transactions))[j], tx.Status(), tx.txnId, key, Mvcc.Pending(Some(value), false));
        ViewsAre(transactions, old(ViewsOf(transactions))[j := r.0]) &&
        err == if r.1.Some? then Some(Raised(r.1.value)) else None
    {
      if !active {
        return Some(NotActive);
      }
      var j := IndexOf(names, partition);
      if j.None? {
        return Some(UnknownPartition(partition));
      }
      var e := transactions[j.value].Write(key, value);
      err := if e.Some? then Some(Raised(e.value)) else None;
    }

    /** `commit()` at time `now`: commits the partitions in order; the first error is raised
        and leaves the transaction active. */
    method Commit(now: int) returns (err: Option<DistError>)
      requires Valid()
      modifies this, Objects(transactions), StoresOf(transactions)
      ensures Valid() && transactions == old(transactions)
      ensures !old(active) ==> (err == Some(NotActive) && !active &&
                                unchanged(Objects(transactions)) && unchanged(StoresOf(transactions)))
      ensures old(active) ==>
        var r := CommitFrom(old(ViewsOf(transactions)), TxnIds(transactions), old(StatusOf(transactions)), 0, now);
        ViewsAre(transactions, r.0) && FlagsAre(transactions, r.1) &&
        err == (if r.2.Some? then Some(Raised(r.2.value)) else None) && active == r.2.Some?
    {
      if !active {
        return Some(NotActive);
      }
      var e := CommitEach(transactions, now, ViewsOf(transactions), StatusOf(transactions));
      if e.Some? {
        return Some(Raised(e.value));
      }
      active := false;
      return None;
    }

    /** `abort()`: nothing when inactive; otherwise every partition transaction that has not
        ended is aborted. */
    method Abort()
      requires Valid()
      modifies this, Objects(transactions), StoresOf(transactions)
      ensures Valid() && transactions == old(transactions) && !active
      ensures !old(active) ==> unchanged(Objects(transactions)) && unchanged(StoresOf(transactions))
      ensures old(active) ==>
        var r := AbortFrom(old(ViewsOf(transactions)), TxnIds(transactions), old(StatusOf(transactions)), 0);
        ViewsAre(transactions, r.0) && FlagsAre(transactions, r.1)
    {
      if !active {
        return;
      }
      AbortEach(transactions, ViewsOf(transactions), StatusOf(transactions));
      active := false;
    }

    /** `__exit__(exc_type, ...)` at time `now`: afterwards the transaction is inactive, and
        if it was active every partition transaction has ended. A block that raised aborts
        every partition; a clean exit commits them in order, and a commit that raises aborts
        what is left and raises that error again. An inactive transaction is left alone. */
    method Exit(exc: bool, now: int) returns (err: Option<DistError>)
      requires Valid()
      modifies this, Objects(transactions), StoresOf(transactions)
      ensures Valid() && transactions == old(transactions) && !active
      ensures old(active) ==> forall i :: 0 <= i < |transactions| ==> Ended(transactions[i].Status())
      ensures exc ==> err.None?
      ensures !old(active) ==> err.None? && unchanged(Objects(transactions)) && unchanged(StoresOf(transactions))
      ensures old(active) && exc ==>
        var a := AbortFrom(old(ViewsOf(transactions)), TxnIds(transactions), old(StatusOf(transactions)), 0);
        ViewsAre(transactions, a.0) && FlagsAre(transactions, a.1)
      ensures old(active) && !exc ==>
        var c := CommitFrom(old(ViewsOf(transactions)), TxnIds(transactions), old(StatusOf(transactions)), 0, now);
        if c.2.None? then err.None? && ViewsAre(transactions, c.0) && FlagsAre(transactions, c.1)
        else
          var a := AbortFrom(c.0, TxnIds(transactions), c.1, 0);
          err == Some(Raised(c.2.value)) && ViewsAre(transactions, a.0) && FlagsAre(transactions, a.1)
    {
      err := None;
      if exc || !active {
        ghost var vs, fl := ViewsOf(transactions), StatusOf(transactions);
        Abort();
        AbortFromEnds(vs, TxnIds(transactions), fl, 0);
        return;
      }
      ghost var vs, fl := ViewsOf(transactions), StatusOf(transactions);
      ghost var c := CommitFrom(vs, TxnIds(transactions), fl, 0, now);
      err := Commit(now);
      if err.Some? {
        ghost var vs2, fl2 := ViewsOf(transactions), StatusOf(transactions);
        assert vs2 == c.0 && fl2 == c.1;
        Abort();
        AbortFromEnds(vs2, TxnIds(transactions), fl2, 0);
      } else {
        CommitFromDone(vs, TxnIds(transactions), fl, 0, now);
      }
    }
  }
}
