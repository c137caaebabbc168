/** Serializable snapshot isolation over the multi-version store: every transaction tracks
    the keys it read and wrote and its rw-conflict edges with other transactions. A read
    leaves a SIREAD mark on the key, a write takes the key's write lock, and a commit of a
    transaction with a live incoming and a live outgoing edge (a "dangerous structure")
    is refused and aborted. The store underneath does the reading and writing; clock
    readings are parameters. */
module Ssi {
  import opened Common
  import Mvcc

  type TxnId = nat

  /** `SSITransaction`. */
  datatype SsiTxn<V> = SsiTxn(txnId: TxnId, startTs: int, commitTs: Option<int>, readSet: set<string>,
                              writeSet: map<string, V>, inConflict: set<TxnId>, outConflict: set<TxnId>,
                              committed: bool, aborted: bool)

  datatype Error = InvalidTransaction | WriteConflict | SerializationFailure | StoreError(e: Mvcc.Error)

  /** `SerializableSnapshotIsolation`'s fields; `committed_txns` maps each id to the same
      object as `transactions`, so the set of its ids is all it adds. */
  datatype State<V> = State(transactions: map<TxnId, SsiTxn<V>>, committedTxns: set<TxnId>,
                            sireadLocks: map<string, set<TxnId>>, writeLocks: map<string, TxnId>,
                            nextTxnId: nat, store: Mvcc.State<V>)

  function Initial<V>(): State<V> {
    State(map[], {}, map[], map[], 1, Mvcc.EmptyStore(Mvcc.Snapshot))
  }

  function StoreErr(e: Option<Mvcc.Error>): Option<Error> {
    if e.None? then None else Some(StoreError(e.value))
  }

  /** A transaction that may still read, write and commit: known, neither committed nor
      aborted. */
  predicate Live<V>(txns: map<TxnId, SsiTxn<V>>, t: TxnId) {
    t in txns && !txns[t].committed && !txns[t].aborted
  }

  predicate IsLive<V>(s: State<V>, t: TxnId) {
    Live(s.transactions, t)
  }

  /** `begin()` at time `now`: the transaction is also entered into the store's table
      directly, without the store's own counter. */
  function BeginStep<V>(s: State<V>, now: int): (State<V>, TxnId) {
    var t := s.nextTxnId;
    (s.(nextTxnId := t + 1,
        transactions := s.transactions[t := SsiTxn(t, now, None, {}, map[], {}, {}, false, false)],
        store := s.store.(activeTxns := s.store.activeTxns[t := Mvcc.TxnInfo(now, {}, map[])])),
     t)
  }

  // ---------------------------------------------------------------------------------------
  // Reads

  /** The write lock's holder, when it is another transaction that has not committed. */
  predicate LockedByOther<V>(txns: map<TxnId, SsiTxn<V>>, writeLocks: map<string, TxnId>, t: TxnId, key: string) {
    key in writeLocks && writeLocks[key] != t && writeLocks[key] in txns && !txns[writeLocks[key]].committed
  }

  /** The rw-conflict edge from `a` to `b`, recorded on both ends. */
  function AddEdge<V>(txns: map<TxnId, SsiTxn<V>>, a: TxnId, b: TxnId): map<TxnId, SsiTxn<V>>
    requires a in txns && b in txns
  {
    var ax := txns[a];
    var ax' := ax.(outConflict := ax.outConflict + {b});
    var bx := txns[a := ax'][b];
    txns[a := ax'][b := bx.(inConflict := bx.inConflict + {a})]
  }

  /** The edges a read records as written: the reader gains an incoming edge from the lock
      holder and the holder an outgoing one. This is the reverse of the rw-antidependency
      (the reader reads what the holder is about to overwrite) and of what `write` records. */
  function ReadEdgesAsWritten<V>(txns: map<TxnId, SsiTxn<V>>, writeLocks: map<string, TxnId>, t: TxnId, key: string)
    : map<TxnId, SsiTxn<V>>
    requires t in txns
  {
    if LockedByOther(txns, writeLocks, t, key) then AddEdge(txns, writeLocks[key], t) else txns
  }

  /** The corrected edges: the reader gains an outgoing edge to the lock holder and the
      holder an incoming one, as `write` records a reader-to-writer edge. */
  function ReadEdges<V>(txns: map<TxnId, SsiTxn<V>>, writeLocks: map<string, TxnId>, t: TxnId, key: string)
    : map<TxnId, SsiTxn<V>>
    requires t in txns
  {
    if LockedByOther(txns, writeLocks, t, key) then AddEdge(txns, t, writeLocks[key]) else txns
  }

  /** The edges of `read`, as written or corrected. */
  function ReadEdgesWith<V>(txns: map<TxnId, SsiTxn<V>>, writeLocks: map<string, TxnId>, t: TxnId, key: string,
                            corrected: bool): map<TxnId, SsiTxn<V>>
    requires t in txns
  {
    if corrected then ReadEdges(txns, writeLocks, t, key) else ReadEdgesAsWritten(txns, writeLocks, t, key)
  }

  /** `read(txn_id, key)`, with the edges as written or corrected. */
  ghost function ReadWith<V>(s: State<V>, t: TxnId, key: string, corrected: bool): (State<V>, Option<V>, Option<Error>) {
    if !IsLive(s, t) then (s, None, Some(InvalidTransaction))
    else
      var tx := s.transactions[t];
      if key in tx.writeSet then (s, Some(tx.writeSet[key]), None)
      else
        var txns := s.transactions[t := tx.(readSet := tx.readSet + {key})];
        var txns' := ReadEdgesWith(txns, s.writeLocks, t, key, corrected);
        var (store', v, err) := Mvcc.ReadStep(s.store, t, key);
        (s.(transactions := txns', sireadLocks := s.sireadLocks[key := GetOr(s.sireadLocks, key, {}) + {t}], store := store'),
         v, StoreErr(err))
  }

  ghost function ReadStep<V>(s: State<V>, t: TxnId, key: string): (State<V>, Option<V>, Option<Error>) {
    ReadWith(s, t, key, false)
  }

  ghost function ReadStepFixed<V>(s: State<V>, t: TxnId, key: string): (State<V>, Option<V>, Option<Error>) {
    ReadWith(s, t, key, true)
  }

  // ---------------------------------------------------------------------------------------
  // Writes

  /** The SIREAD holders of the key a writer `t` gains incoming edges from: known, not
      aborted, other than `t`. */
  function EdgeReaders<V>(txns: map<TxnId, SsiTxn<V>>, t: TxnId, readers: set<TxnId>): set<TxnId> {
    set r | r in readers && r != t && r in txns && !txns[r].aborted
  }

  /** Transaction `x` once the writer `t` has gained edges from the readers `from`. */
  function EdgeOn<V>(txns: map<TxnId, SsiTxn<V>>, t: TxnId, from: set<TxnId>, x: TxnId): SsiTxn<V>
    requires t in txns && x in txns
  {
    if x == t then txns[t].(inConflict := txns[t].inConflict + from)
    else if x in from then txns[x].(outConflict := txns[x].outConflict + {t})
    else txns[x]
  }

  /** The edges of the loop of `write` over the key's SIREAD holders. */
  function WriteEdges<V>(txns: map<TxnId, SsiTxn<V>>, t: TxnId, from: set<TxnId>): map<TxnId, SsiTxn<V>>
    requires t in txns
  {
    map x | x in txns :: EdgeOn(txns, t, from, x)
  }

  /** `write(txn_id, key, value)`. */
  ghost function WriteStep<V>(s: State<V>, t: TxnId, key: string, value: V): (State<V>, bool, Option<Error>) {
    if !IsLive(s, t) then (s, false, Some(InvalidTransaction))
    else if key in s.writeLocks && s.writeLocks[key] != t then (s, false, Some(WriteConflict))
    else
      var txns := WriteEdges(s.transactions, t, EdgeReaders(s.transactions, t, GetOr(s.sireadLocks, key, {})));
      var tx := txns[t];
      var (store', ok, err) := Mvcc.WriteStep(s.store, t, key, value);
      (s.(transactions := txns[t := tx.(writeSet := tx.writeSet[key := value])],
          writeLocks := s.writeLocks[key := t], store := store'),
       ok, StoreErr(err))
  }

  // ---------------------------------------------------------------------------------------
  // Commit and abort

  /** A neighbour counts towards a dangerous structure of a transaction that started at
      `startTs`: it is known, was not committed before `startTs`, and is not aborted. */
  predicate Counts<V>(txns: map<TxnId, SsiTxn<V>>, x: TxnId, startTs: int) {
    x in txns && !(txns[x].committed && txns[x].commitTs.Some? && txns[x].commitTs.value < startTs) && !txns[x].aborted
  }

  /** `_has_dangerous_structure(txn)`: some incoming and some outgoing neighbour both count. */
  ghost predicate Dangerous<V>(s: State<V>, t: TxnId)
    requires t in s.transactions
  {
    var tx := s.transactions[t];
    exists i, o :: i in tx.inConflict && o in tx.outConflict &&
                   Counts(s.transactions, i, tx.startTs) && Counts(s.transactions, o, tx.startTs)
  }

  /** The SIREAD marks once `t` gives up those on its read set. */
  function ReleaseSiread(siread: map<string, set<TxnId>>, t: TxnId, readSet: set<string>): map<string, set<TxnId>> {
    map k | k in siread.Keys + readSet :: if k in readSet then GetOr(siread, k, {}) - {t} else siread[k]
  }

  /** The write locks once `t` gives up those on its write set. */
  function ReleaseWriteLocks(writeLocks: map<string, TxnId>, t: TxnId, writeKeys: set<string>): map<string, TxnId> {
    map k | k in writeLocks && !(k in writeKeys && writeLocks[k] == t) :: writeLocks[k]
  }

  /** `_abort_internal(txn)`: mark it aborted, abort it in the store, drop its SIREAD marks
      and write locks. */
  ghost function AbortInternal<V>(s: State<V>, t: TxnId): State<V>
    requires t in s.transactions
  {
    var tx := s.transactions[t];
    s.(transactions := s.transactions[t := tx.(aborted := true)],
       store := Mvcc.AbortStep(s.store, t).0,
       sireadLocks := ReleaseSiread(s.sireadLocks, t, tx.readSet),
       writeLocks := ReleaseWriteLocks(s.writeLocks, t, tx.writeSet.Keys))
  }

  /** `commit(txn_id)` at time `now`. As written (`corrected` false) the committing
      transaction's SIREAD marks go with its write locks; corrected, they stay, so later
      writers of the keys it read still record the edge from it. */
  ghost function CommitWith<V>(s: State<V>, t: TxnId, now: int, corrected: bool): (State<V>, bool, Option<Error>) {
    if !IsLive(s, t) then (s, false, Some(InvalidTransaction))
    else if Dangerous(s, t) then (AbortInternal(s, t), false, Some(SerializationFailure))
    else
      var tx := s.transactions[t].(commitTs := Some(now));
      var (store', ok, err) := Mvcc.CommitStep(s.store, t, now);
      if ok then
        (s.(transactions := s.transactions[t := tx.(committed := true)],
            committedTxns := s.committedTxns + {t},
            sireadLocks := if corrected then s.sireadLocks else ReleaseSiread(s.sireadLocks, t, tx.readSet),
            writeLocks := ReleaseWriteLocks(s.writeLocks, t, tx.writeSet.Keys),
            store := store'),
         true, None)
      else (s.(transactions := s.transactions[t := tx], store := store'), false, StoreErr(err))
  }

  ghost function CommitStep<V>(s: State<V>, t: TxnId, now: int): (State<V>, bool, Option<Error>) {
    CommitWith(s, t, now, false)
  }

  ghost function CommitStepFixed<V>(s: State<V>, t: TxnId, now: int): (State<V>, bool, Option<Error>) {
    CommitWith(s, t, now, true)
  }

  /** `abort(txn_id)`: any known transaction, even a committed or aborted one. */
  ghost function AbortStep<V>(s: State<V>, t: TxnId): (State<V>, bool, Option<Error>) {
    if t !in s.transactions then (s, false, Some(InvalidTransaction)) else (AbortInternal(s, t), true, None)
  }

  // ---------------------------------------------------------------------------------------
  // The invariant

  /** Each transaction is filed under its own id, below the counter. */
  ghost predicate IdsBelow<V>(txns: map<TxnId, SsiTxn<V>>, next: int) {
    forall x :: x in txns ==> txns[x].txnId == x && x < next
  }

  /** `committed_txns` holds exactly the committed transactions, each with a commit time. */
  ghost predicate CommittedMatch<V>(txns: map<TxnId, SsiTxn<V>>, committed: set<TxnId>) {
    (forall x :: x in committed <==> x in txns && txns[x].committed) &&
    (forall x :: x in txns && txns[x].committed ==> txns[x].commitTs.Some?)
  }

  /** Conflict edges come in pairs: `y` is an incoming neighbour of `x` exactly when `x` is
      an outgoing neighbour of `y`, and both are known. */
  ghost predicate Paired<V>(txns: map<TxnId, SsiTxn<V>>) {
    (forall x, y :: x in txns && y in txns[x].inConflict ==> y in txns && x in txns[y].outConflict) &&
    (forall x, y :: x in txns && y in txns[x].outConflict ==> y in txns && x in txns[y].inConflict)
  }

  /** The write locks are those of the live transactions' write sets. */
  ghost predicate LocksMatch<V>(txns: map<TxnId, SsiTxn<V>>, writeLocks: map<string, TxnId>) {
    (forall k :: k in writeLocks ==> Live(txns, writeLocks[k]) && k in txns[writeLocks[k]].writeSet) &&
    (forall x, k :: Live(txns, x) && k in txns[x].writeSet ==> k in writeLocks && writeLocks[k] == x)
  }

  /** Every SIREAD mark belongs to a known transaction that read the key. */
  ghost predicate SireadSound<V>(txns: map<TxnId, SsiTxn<V>>, siread: map<string, set<TxnId>>) {
    forall k, x :: k in siread && x in siread[k] ==> x in txns && k in txns[x].readSet
  }

  /** The store's table follows the transactions: its active ones are the live ones, with
      the same written keys, and its committed ones are the committed ones. */
  ghost predicate StoreAgrees<V>(txns: map<TxnId, SsiTxn<V>>, committed: set<TxnId>, store: Mvcc.State<V>) {
    Mvcc.Inv(store) &&
    (forall x :: x in store.activeTxns <==> Live(txns, x)) &&
    (forall x :: x in store.committedTxns <==> x in committed) &&
    (forall x :: Live(txns, x) ==> store.activeTxns[x].writeSet.Keys == txns[x].writeSet.Keys)
  }

  ghost predicate Inv<V>(s: State<V>) {
    IdsBelow(s.transactions, s.nextTxnId) && CommittedMatch(s.transactions, s.committedTxns) &&
    Paired(s.transactions) && LocksMatch(s.transactions, s.writeLocks) &&
    SireadSound(s.transactions, s.sireadLocks) && StoreAgrees(s.transactions, s.committedTxns, s.store)
  }

  lemma InitialInv<V>()
    ensures Inv(Initial<V>())
  {
    Mvcc.EmptyInv<V>(Mvcc.Snapshot);
  }

  /** A transaction as `begin` creates it. */
  predicate Fresh<V>(tx: SsiTxn<V>) {
    tx.commitTs.None? && tx.readSet == {} && tx.writeSet == map[] && tx.inConflict == {} && tx.outConflict == {} &&
    !tx.committed && !tx.aborted
  }

  lemma AddFresh<V>(txns: map<TxnId, SsiTxn<V>>, committed: set<TxnId>, writeLocks: map<string, TxnId>,
                    siread: map<string, set<TxnId>>, t: TxnId, tx: SsiTxn<V>)
    requires t !in txns && Fresh(tx)
    requires CommittedMatch(txns, committed) && Paired(txns) && LocksMatch(txns, writeLocks) && SireadSound(txns, siread)
    ensures CommittedMatch(txns[t := tx], committed) && Paired(txns[t := tx])
    ensures LocksMatch(txns[t := tx], writeLocks) && SireadSound(txns[t := tx], siread)
  {
  }

  /** Entering a transaction the store has never seen keeps the store's invariant. */
  lemma BeginStore<V>(txns: map<TxnId, SsiTxn<V>>, committed: set<TxnId>, st: Mvcc.State<V>, t: TxnId, tx: SsiTxn<V>, now: int)
    requires StoreAgrees(txns, committed, st) && CommittedMatch(txns, committed) && t !in txns && Fresh(tx)
    ensures StoreAgrees(txns[t := tx], committed, st.(activeTxns := st.activeTxns[t := Mvcc.TxnInfo(now, {}, map[])]))
  {
    assert t !in st.activeTxns && t !in st.committedTxns;
    StoreEnter(st, t, now);
    var st' := st.(activeTxns := st.activeTxns[t := Mvcc.TxnInfo(now, {}, map[])]);
    assert forall x :: x in st'.activeTxns <==> Live(txns[t := tx], x);
  }

  /** The store takes in a transaction it has never seen, with nothing read or written. */
  lemma StoreEnter<V>(st: Mvcc.State<V>, t: TxnId, now: int)
    requires Mvcc.Inv(st) && t !in st.activeTxns && t !in st.committedTxns
    ensures Mvcc.Inv(st.(activeTxns := st.activeTxns[t := Mvcc.TxnInfo(now, {}, map[])]))
  {
    var st' := st.(activeTxns := st.activeTxns[t := Mvcc.TxnInfo(now, {}, map[])]);
    forall k | k in st'.data && st'.data[k].lockHolder.Some?
      ensures st'.data[k].lockHolder.value in st'.activeTxns && k in st'.activeTxns[st'.data[k].lockHolder.value].writeSet
    {
      assert st.data[k].lockHolder.value in st.activeTxns;
    }
  }

  lemma BeginInv<V>(s: State<V>, now: int)
    requires Inv(s)
    ensures Inv(BeginStep(s, now).0)
    ensures BeginStep(s, now).1 !in s.transactions
  {
    var t := s.nextTxnId;
    var tx := SsiTxn(t, now, None, {}, map[], {}, {}, false, false);
    AddFresh(s.transactions, s.committedTxns, s.writeLocks, s.sireadLocks, t, tx);
    BeginStore(s.transactions, s.committedTxns, s.store, t, tx, now);
  }

  /** Two versions of a transaction that differ at most in a larger read set and in their
      conflict edges. */
  ghost predicate SameCore<V>(a: SsiTxn<V>, b: SsiTxn<V>) {
    a.txnId == b.txnId && a.startTs == b.startTs && a.commitTs == b.commitTs && a.writeSet == b.writeSet &&
    a.committed == b.committed && a.aborted == b.aborted && a.readSet <= b.readSet
  }

  ghost predicate Grows<V>(txns: map<TxnId, SsiTxn<V>>, txns': map<TxnId, SsiTxn<V>>) {
    txns.Keys == txns'.Keys && forall x :: x in txns ==> SameCore(txns[x], txns'[x])
  }

  /** Reads and edges keep every part of the invariant except the pairing of edges. */
  lemma GrowsKeeps<V>(txns: map<TxnId, SsiTxn<V>>, txns': map<TxnId, SsiTxn<V>>, next: int, committed: set<TxnId>,
                      writeLocks: map<string, TxnId>, siread: map<string, set<TxnId>>, store: Mvcc.State<V>)
    requires Grows(txns, txns')
    requires IdsBelow(txns, next) && CommittedMatch(txns, committed) && LocksMatch(txns, writeLocks)
    requires SireadSound(txns, siread) && StoreAgrees(txns, committed, store)
    ensures IdsBelow(txns', next) && CommittedMatch(txns', committed) && LocksMatch(txns', writeLocks)
    ensures SireadSound(txns', siread) && StoreAgrees(txns', committed, store)
  {
    assert forall x :: Live(txns, x) <==> Live(txns', x);
  }

  /** Changing one transaction without touching its edges keeps the pairing. */
  lemma PairedUpdate<V>(txns: map<TxnId, SsiTxn<V>>, x: TxnId, tx: SsiTxn<V>)
    requires Paired(txns) && x in txns && tx.inConflict == txns[x].inConflict && tx.outConflict == txns[x].outConflict
    ensures Paired(txns[x := tx])
  {
  }

  lemma AddEdgeAt<V>(txns: map<TxnId, SsiTxn<V>>, a: TxnId, b: TxnId)
    requires a in txns && b in txns && a != b
    ensures AddEdge(txns, a, b).Keys == txns.Keys
    ensures AddEdge(txns, a, b)[a] == txns[a].(outConflict := txns[a].outConflict + {b})
    ensures AddEdge(txns, a, b)[b] == txns[b].(inConflict := txns[b].inConflict + {a})
    ensures forall x :: x in txns && x != a && x != b ==> AddEdge(txns, a, b)[x] == txns[x]
  {
  }

  /** Recording the edge from `a` to `b` on both ends keeps the pairing. */
  lemma PairedAdd<V>(txns: map<TxnId, SsiTxn<V>>, a: TxnId, b: TxnId)
    requires Paired(txns) && a in txns && b in txns && a != b
    ensures Paired(AddEdge(txns, a, b)) && Grows(txns, AddEdge(txns, a, b))
  {
    AddEdgePaired(txns, a, b);
    AddEdgeAt(txns, a, b);
    var txns' := AddEdge(txns, a, b);
    forall x | x in txns ensures SameCore(txns[x], txns'[x]) {
      if x == a {
      } else if x == b {
      }
    }
  }

  lemma AddEdgePaired<V>(txns: map<TxnId, SsiTxn<V>>, a: TxnId, b: TxnId)
    requires Paired(txns) && a in txns && b in txns && a != b
    ensures Paired(AddEdge(txns, a, b))
  {
    AddEdgeAt(txns, a, b);
    var txns' := AddEdge(txns, a, b);
    forall x, y | x in txns' && y in txns'[x].inConflict ensures y in txns' && x in txns'[y].outConflict {
      if !(x == b && y == a) {
        assert y in txns[x].inConflict;
      }
    }
    forall x, y | x in txns' && y in txns'[x].outConflict ensures y in txns' && x in txns'[y].inConflict {
      if !(x == a && y == b) {
        assert y in txns[x].outConflict;
      }
    }
  }

  /** The edges of a write from every reader in `from` to the writer keep the pairing. */
  lemma PairedWriteEdges<V>(txns: map<TxnId, SsiTxn<V>>, t: TxnId, from: set<TxnId>)
    requires Paired(txns) && t in txns && from <= txns.Keys && t !in from
    ensures Paired(WriteEdges(txns, t, from)) && Grows(txns, WriteEdges(txns, t, from))
  {
    WriteEdgesIn(txns, t, from);
    WriteEdgesOut(txns, t, from);
    WriteEdgesGrow(txns, t, from);
  }

  lemma WriteEdgesGrow<V>(txns: map<TxnId, SsiTxn<V>>, t: TxnId, from: set<TxnId>)
    requires t in txns
    ensures Grows(txns, WriteEdges(txns, t, from))
  {
    var txns' := WriteEdges(txns, t, from);
    forall x | x in txns ensures SameCore(txns[x], txns'[x]) {
    }
  }

  lemma WriteEdgesIn<V>(txns: map<TxnId, SsiTxn<V>>, t: TxnId, from: set<TxnId>)
    requires Paired(txns) && t in txns && from <= txns.Keys && t !in from
    ensures var txns' := WriteEdges(txns, t, from);
            forall x, y :: x in txns' && y in txns'[x].inConflict ==> y in txns' && x in txns'[y].outConflict
  {
    var txns' := WriteEdges(txns, t, from);
    forall x, y | x in txns' && y in txns'[x].inConflict ensures y in txns' && x in txns'[y].outConflict {
      if x == t {
        if y !in from {
          assert y in txns[t].inConflict;
        }
      } else {
        assert txns'[x].inConflict == txns[x].inConflict;
        assert txns[y].outConflict <= txns'[y].outConflict;
      }
    }
  }

  lemma WriteEdgesOut<V>(txns: map<TxnId, SsiTxn<V>>, t: TxnId, from: set<TxnId>)
    requires Paired(txns) && t in txns && from <= txns.Keys && t !in from
    ensures var txns' := WriteEdges(txns, t, from);
            forall x, y :: x in txns' && y in txns'[x].outConflict ==> y in txns' && x in txns'[y].inConflict
  {
    var txns' := WriteEdges(txns, t, from);
    forall x, y | x in txns' && y in txns'[x].outConflict ensures y in txns' && x in txns'[y].inConflict {
      if x in from && y == t {
      } else {
        assert y in txns[x].outConflict;
        assert txns[y].inConflict <= txns'[y].inConflict;
      }
    }
  }

  /** A new SIREAD mark of a transaction that read the key keeps the marks sound. */
  lemma SireadAdd<V>(txns: map<TxnId, SsiTxn<V>>, siread: map<string, set<TxnId>>, key: string, t: TxnId)
    requires SireadSound(txns, siread) && t in txns && key in txns[t].readSet
    ensures SireadSound(txns, siread[key := GetOr(siread, key, {}) + {t}])
  {
  }

  /** Releasing a transaction's SIREAD marks keeps them sound and leaves none of its own. */
  lemma SireadRelease<V>(txns: map<TxnId, SsiTxn<V>>, siread: map<string, set<TxnId>>, t: TxnId)
    requires SireadSound(txns, siread) && t in txns
    ensures SireadSound(txns, ReleaseSiread(siread, t, txns[t].readSet))
    ensures forall k :: k in ReleaseSiread(siread, t, txns[t].readSet) ==> t !in ReleaseSiread(siread, t, txns[t].readSet)[k]
  {
  }

  /** A store read changes only the store's read set. */
  lemma StoreRead<V>(txns: map<TxnId, SsiTxn<V>>, committed: set<TxnId>, st: Mvcc.State<V>, t: TxnId, key: string)
    requires StoreAgrees(txns, committed, st)
    ensures StoreAgrees(txns, committed, Mvcc.ReadStep(st, t, key).0)
  {
    Mvcc.ReadInv(st, t, key);
  }

  lemma ReadInv<V>(s: State<V>, t: TxnId, key: string, corrected: bool)
    requires Inv(s)
    ensures Inv(ReadWith(s, t, key, corrected).0)
  {
    if IsLive(s, t) && key !in s.transactions[t].writeSet {
      ReadTxns(s.transactions, s.writeLocks, t, key, corrected);
      var txns2 := ReadEdgesWith(s.transactions[t := Reading(s.transactions[t], key)], s.writeLocks, t, key, corrected);
      ReadParts(s.transactions, txns2, s.nextTxnId, s.committedTxns, s.writeLocks, s.sireadLocks, s.store, t, key);
    }
  }

  /** The transactions after a read: the key joins the reader's read set and at most one
      edge is recorded, so the pairing holds and no core changes. */
  lemma ReadTxns<V>(txns: map<TxnId, SsiTxn<V>>, writeLocks: map<string, TxnId>, t: TxnId, key: string, corrected: bool)
    requires Paired(txns) && t in txns
    ensures var txns2 := ReadEdgesWith(txns[t := Reading(txns[t], key)], writeLocks, t, key, corrected);
      Paired(txns2) && Grows(txns, txns2) && t in txns2 && key in txns2[t].readSet
  {
    var txns1 := txns[t := Reading(txns[t], key)];
    PairedUpdate(txns, t, txns1[t]);
    ReadEdgesGrow(txns1, writeLocks, t, key, corrected);
    GrowsTrans(txns, txns1, ReadEdgesWith(txns1, writeLocks, t, key, corrected));
  }

  /** A read that leaves the transactions `txns2`, grown from `txns` with the key in the
      reader's read set, keeps every part of the invariant. */
  lemma ReadParts<V>(txns: map<TxnId, SsiTxn<V>>, txns2: map<TxnId, SsiTxn<V>>, next: int, committed: set<TxnId>,
                     writeLocks: map<string, TxnId>, siread: map<string, set<TxnId>>, st: Mvcc.State<V>, t: TxnId, key: string)
    requires IdsBelow(txns, next) && CommittedMatch(txns, committed) && LocksMatch(txns, writeLocks)
    requires SireadSound(txns, siread) && StoreAgrees(txns, committed, st)
    requires Grows(txns, txns2) && Paired(txns2) && t in txns2 && key in txns2[t].readSet
    ensures IdsBelow(txns2, next) && CommittedMatch(txns2, committed) && LocksMatch(txns2, writeLocks)
    ensures SireadSound(txns2, siread[key := GetOr(siread, key, {}) + {t}])
    ensures StoreAgrees(txns2, committed, Mvcc.ReadStep(st, t, key).0)
  {
    GrowsKeeps(txns, txns2, next, committed, writeLocks, siread, st);
    SireadAdd(txns2, siread, key, t);
    StoreRead(txns2, committed, st, t, key);
  }

  /** The edge a read records keeps the pairing and changes no transaction's core. */
  lemma ReadEdgesGrow<V>(txns: map<TxnId, SsiTxn<V>>, writeLocks: map<string, TxnId>, t: TxnId, key: string, corrected: bool)
    requires Paired(txns) && t in txns
    ensures Paired(ReadEdgesWith(txns, writeLocks, t, key, corrected))
    ensures Grows(txns, ReadEdgesWith(txns, writeLocks, t, key, corrected))
  {
    if LockedByOther(txns, writeLocks, t, key) {
      var w := writeLocks[key];
      if corrected {
        PairedAdd(txns, t, w);
      } else {
        PairedAdd(txns, w, t);
      }
    } else {
      assert ReadEdgesWith(txns, writeLocks, t, key, corrected) == txns;
    }
  }

  lemma GrowsTrans<V>(a: map<TxnId, SsiTxn<V>>, b: map<TxnId, SsiTxn<V>>, c: map<TxnId, SsiTxn<V>>)
    requires Grows(a, b) && Grows(b, c)
    ensures Grows(a, c)
  {
  }

  /** Buffering a value under a key no other transaction has locked keeps the locks
      matched. */
  lemma LocksAdd<V>(txns: map<TxnId, SsiTxn<V>>, writeLocks: map<string, TxnId>, t: TxnId, key: string, value: V)
    requires LocksMatch(txns, writeLocks) && Live(txns, t) && !(key in writeLocks && writeLocks[key] != t)
    ensures var tx := txns[t]; LocksMatch(txns[t := tx.(writeSet := tx.writeSet[key := value])], writeLocks[key := t])
  {
  }

  /** The store accepts the write a transaction may make under the locks, and stays in
      step. */
  lemma StoreWrite<V>(txns: map<TxnId, SsiTxn<V>>, committed: set<TxnId>, writeLocks: map<string, TxnId>,
                      st: Mvcc.State<V>, t: TxnId, key: string, value: V)
    requires StoreAgrees(txns, committed, st) && LocksMatch(txns, writeLocks) && Live(txns, t)
    requires !(key in writeLocks && writeLocks[key] != t)
    ensures Mvcc.WriteStep(st, t, key, value).1 && Mvcc.WriteStep(st, t, key, value).2.None?
    ensures var tx := txns[t];
      StoreAgrees(txns[t := tx.(writeSet := tx.writeSet[key := value])], committed, Mvcc.WriteStep(st, t, key, value).0)
  {
    var rec := Mvcc.RecordAt(st.data, key);
    if rec.lockHolder.Some? {
      var h := rec.lockHolder.value;
      assert h in st.activeTxns && key in st.activeTxns[h].writeSet;
      assert key in txns[h].writeSet;
    }
    Mvcc.BufferInv(st, t, key, Mvcc.Pending(Some(value), false));
  }

  /** The new write set and lock of a write keep every part of the invariant. */
  /** A new write set or abort flag keeps the ids, the committed table and the SIREAD marks. */
  lemma WriteSetKeeps<V>(txns: map<TxnId, SsiTxn<V>>, next: int, committed: set<TxnId>,
                         siread: map<string, set<TxnId>>, t: TxnId, tx: SsiTxn<V>)
    requires IdsBelow(txns, next) && CommittedMatch(txns, committed) && SireadSound(txns, siread) && t in txns
    requires tx == txns[t].(writeSet := tx.writeSet, aborted := tx.aborted)
    ensures IdsBelow(txns[t := tx], next) && CommittedMatch(txns[t := tx], committed) && SireadSound(txns[t := tx], siread)
  {
  }

  lemma WriteParts<V>(txns1: map<TxnId, SsiTxn<V>>, next: int, committed: set<TxnId>, writeLocks: map<string, TxnId>,
                      siread: map<string, set<TxnId>>, st: Mvcc.State<V>, t: TxnId, key: string, value: V)
    requires IdsBelow(txns1, next) && CommittedMatch(txns1, committed) && Paired(txns1) && LocksMatch(txns1, writeLocks)
    requires SireadSound(txns1, siread) && StoreAgrees(txns1, committed, st)
    requires Live(txns1, t) && !(key in writeLocks && writeLocks[key] != t)
    ensures var tx := txns1[t]; var txns2 := txns1[t := tx.(writeSet := tx.writeSet[key := value])];
      IdsBelow(txns2, next) && CommittedMatch(txns2, committed) && Paired(txns2) &&
      LocksMatch(txns2, writeLocks[key := t]) && SireadSound(txns2, siread) &&
      StoreAgrees(txns2, committed, Mvcc.WriteStep(st, t, key, value).0)
    ensures Mvcc.WriteStep(st, t, key, value).1 && Mvcc.WriteStep(st, t, key, value).2.None?
  {
    var tx := txns1[t];
    WriteSetKeeps(txns1, next, committed, siread, t, tx.(writeSet := tx.writeSet[key := value]));
    PairedUpdate(txns1, t, tx.(writeSet := tx.writeSet[key := value]));
    LocksAdd(txns1, writeLocks, t, key, value);
    StoreWrite(txns1, committed, writeLocks, st, t, key, value);
  }

  lemma WriteInv<V>(s: State<V>, t: TxnId, key: string, value: V)
    requires Inv(s)
    ensures Inv(WriteStep(s, t, key, value).0)
    ensures IsLive(s, t) && !(key in s.writeLocks && s.writeLocks[key] != t) ==>
      WriteStep(s, t, key, value).1 && WriteStep(s, t, key, value).2.None?
  {
    if IsLive(s, t) && !(key in s.writeLocks && s.writeLocks[key] != t) {
      var from := EdgeReaders(s.transactions, t, GetOr(s.sireadLocks, key, {}));
      var txns1 := WriteEdges(s.transactions, t, from);
      PairedWriteEdges(s.transactions, t, from);
      GrowsKeeps(s.transactions, txns1, s.nextTxnId, s.committedTxns, s.writeLocks, s.sireadLocks, s.store);
      assert Live(txns1, t);
      WriteParts(txns1, s.nextTxnId, s.committedTxns, s.writeLocks, s.sireadLocks, s.store, t, key, value);
    }
  }

  /** Taking a transaction out of the live ones and releasing its write locks keeps the
      locks matched. */
  lemma LocksRelease<V>(txns: map<TxnId, SsiTxn<V>>, writeLocks: map<string, TxnId>, t: TxnId, tx: SsiTxn<V>)
    requires LocksMatch(txns, writeLocks) && t in txns && !Live(map[t := tx], t) && tx.writeSet == txns[t].writeSet
    ensures LocksMatch(txns[t := tx], ReleaseWriteLocks(writeLocks, t, tx.writeSet.Keys))
  {
  }

  /** The store commits a live transaction and stays in step. */
  lemma StoreCommit<V>(txns: map<TxnId, SsiTxn<V>>, committed: set<TxnId>, st: Mvcc.State<V>, t: TxnId, tx: SsiTxn<V>, now: int)
    requires StoreAgrees(txns, committed, st) && Live(txns, t) && tx.committed && tx.writeSet == txns[t].writeSet
    ensures Mvcc.CommitStep(st, t, now).1 && Mvcc.CommitStep(st, t, now).2.None?
    ensures StoreAgrees(txns[t := tx], committed + {t}, Mvcc.CommitStep(st, t, now).0)
  {
    Mvcc.CommitInv(st, t, now);
    var st' := Mvcc.CommitStep(st, t, now).0;
    assert st'.activeTxns == st.activeTxns - {t};
    assert st'.committedTxns == st.committedTxns[t := now];
  }

  /** The store aborts the transaction if it is active there, and stays in step. */
  lemma StoreAbort<V>(txns: map<TxnId, SsiTxn<V>>, committed: set<TxnId>, st: Mvcc.State<V>, t: TxnId, tx: SsiTxn<V>)
    requires StoreAgrees(txns, committed, st) && t in txns && tx.aborted && tx.writeSet == txns[t].writeSet
    ensures StoreAgrees(txns[t := tx], committed, Mvcc.AbortStep(st, t).0)
  {
    Mvcc.AbortInv(st, t);
  }

  lemma CommitParts<V>(txns: map<TxnId, SsiTxn<V>>, next: int, committed: set<TxnId>, writeLocks: map<string, TxnId>,
                       siread: map<string, set<TxnId>>, st: Mvcc.State<V>, t: TxnId, now: int)
    requires IdsBelow(txns, next) && CommittedMatch(txns, committed) && Paired(txns) && LocksMatch(txns, writeLocks)
    requires SireadSound(txns, siread) && StoreAgrees(txns, committed, st) && Live(txns, t)
    ensures var tx := txns[t].(commitTs := Some(now)).(committed := true); var txns' := txns[t := tx];
      IdsBelow(txns', next) && CommittedMatch(txns', committed + {t}) && Paired(txns') &&
      LocksMatch(txns', ReleaseWriteLocks(writeLocks, t, tx.writeSet.Keys)) && SireadSound(txns', siread) &&
      SireadSound(txns', ReleaseSiread(siread, t, tx.readSet)) &&
      StoreAgrees(txns', committed + {t}, Mvcc.CommitStep(st, t, now).0)
    ensures Mvcc.CommitStep(st, t, now).1 && Mvcc.CommitStep(st, t, now).2.None?
  {
    var tx := txns[t].(commitTs := Some(now)).(committed := true);
    PairedUpdate(txns, t, tx);
    LocksRelease(txns, writeLocks, t, tx);
    StoreCommit(txns, committed, st, t, tx, now);
    SireadRelease(txns, siread, t);
    CommitKeeps(txns, next, committed, siread, t, tx);
    CommitKeeps(txns, next, committed, ReleaseSiread(siread, t, tx.readSet), t, tx);
  }

  /** Marking a transaction committed, with a commit time, keeps the ids, the committed
      table (now with it) and the SIREAD marks. */
  lemma CommitKeeps<V>(txns: map<TxnId, SsiTxn<V>>, next: int, committed: set<TxnId>,
                       siread: map<string, set<TxnId>>, t: TxnId, tx: SsiTxn<V>)
    requires IdsBelow(txns, next) && CommittedMatch(txns, committed) && SireadSound(txns, siread) && t in txns
    requires tx == txns[t].(commitTs := tx.commitTs, committed := true) && tx.commitTs.Some?
    ensures IdsBelow(txns[t := tx], next) && CommittedMatch(txns[t := tx], committed + {t})
    ensures SireadSound(txns[t := tx], siread)
  {
  }

  lemma AbortParts<V>(txns: map<TxnId, SsiTxn<V>>, next: int, committed: set<TxnId>, writeLocks: map<string, TxnId>,
                      siread: map<string, set<TxnId>>, st: Mvcc.State<V>, t: TxnId)
    requires IdsBelow(txns, next) && CommittedMatch(txns, committed) && Paired(txns) && LocksMatch(txns, writeLocks)
    requires SireadSound(txns, siread) && StoreAgrees(txns, committed, st) && t in txns
    ensures var tx := txns[t].(aborted := true); var txns' := txns[t := tx];
      IdsBelow(txns', next) && CommittedMatch(txns', committed) && Paired(txns') &&
      LocksMatch(txns', ReleaseWriteLocks(writeLocks, t, tx.writeSet.Keys)) &&
      SireadSound(txns', ReleaseSiread(siread, t, tx.readSet)) &&
      StoreAgrees(txns', committed, Mvcc.AbortStep(st, t).0)
  {
    var tx := txns[t].(aborted := true);
    PairedUpdate(txns, t, tx);
    LocksRelease(txns, writeLocks, t, tx);
    StoreAbort(txns, committed, st, t, tx);
    SireadRelease(txns, siread, t);
    WriteSetKeeps(txns, next, committed, ReleaseSiread(siread, t, tx.readSet), t, tx);
  }

  lemma AbortInternalInv<V>(s: State<V>, t: TxnId)
    requires Inv(s) && t in s.transactions
    ensures Inv(AbortInternal(s, t))
  {
    AbortParts(s.transactions, s.nextTxnId, s.committedTxns, s.writeLocks, s.sireadLocks, s.store, t);
  }

  lemma CommitInv<V>(s: State<V>, t: TxnId, now: int, corrected: bool)
    requires Inv(s)
    ensures Inv(CommitWith(s, t, now, corrected).0)
  {
    if IsLive(s, t) {
      if Dangerous(s, t) {
        AbortInternalInv(s, t);
      } else {
        CommitParts(s.transactions, s.nextTxnId, s.committedTxns, s.writeLocks, s.sireadLocks, s.store, t, now);
      }
    }
  }

  lemma AbortInv<V>(s: State<V>, t: TxnId)
    requires Inv(s)
    ensures Inv(AbortStep(s, t).0)
  {
    if t in s.transactions {
      AbortInternalInv(s, t);
    }
  }

  // ---------------------------------------------------------------------------------------
  // What the operations promise

  /** Read, write and commit of a transaction that is unknown, aborted or committed answer
      'invalid transaction' and change nothing; so does abort of an unknown one. */
  lemma InvalidRejected<V>(s: State<V>, t: TxnId, key: string, value: V, now: int, corrected: bool)
    requires !IsLive(s, t)
    ensures ReadWith(s, t, key, corrected) == (s, None, Some(InvalidTransaction))
    ensures WriteStep(s, t, key, value) == (s, false, Some(InvalidTransaction))
    ensures CommitWith(s, t, now, corrected) == (s, false, Some(InvalidTransaction))
    ensures t !in s.transactions ==> AbortStep(s, t) == (s, false, Some(InvalidTransaction))
  {
  }

  /** A key another live transaction has written cannot be written: 'write conflict', and
      nothing changes. */
  lemma WriteConflictUnchanged<V>(s: State<V>, holder: TxnId, t: TxnId, key: string, value: V)
    requires LocksMatch(s.transactions, s.writeLocks) && IsLive(s, holder) && key in s.transactions[holder].writeSet
    requires IsLive(s, t) && t != holder
    ensures WriteStep(s, t, key, value) == (s, false, Some(WriteConflict))
  {
    assert Live(s.transactions, holder);
    assert key in s.writeLocks && s.writeLocks[key] == holder;
  }

  /** A live transaction's commit fails with 'serialization failure', aborting it, exactly
      when it has a dangerous structure; otherwise it commits at `now`. */
  lemma CommitOutcome<V>(s: State<V>, t: TxnId, now: int, corrected: bool)
    requires Inv(s) && IsLive(s, t)
    ensures var (s', ok, err) := CommitWith(s, t, now, corrected);
      (ok <==> !Dangerous(s, t)) && (err == Some(SerializationFailure) <==> Dangerous(s, t)) && (ok ==> err.None?) &&
      t in s'.transactions &&
      (Dangerous(s, t) ==> s'.transactions[t].aborted && !s'.transactions[t].committed) &&
      (!Dangerous(s, t) ==> s'.transactions[t].committed && t in s'.committedTxns && s'.transactions[t].commitTs == Some(now))
  {
    if !Dangerous(s, t) {
      CommitParts(s.transactions, s.nextTxnId, s.committedTxns, s.writeLocks, s.sireadLocks, s.store, t, now);
    }
  }

  /** Without an incoming or without an outgoing edge there is no dangerous structure. */
  lemma NoEdgeNoDanger<V>(s: State<V>, t: TxnId)
    requires t in s.transactions && (s.transactions[t].inConflict == {} || s.transactions[t].outConflict == {})
    ensures !Dangerous(s, t)
  {
  }

  /** A neighbour that counts and is both an incoming and an outgoing neighbour is a
      dangerous structure. */
  lemma MutualEdgeDanger<V>(s: State<V>, t: TxnId, u: TxnId)
    requires t in s.transactions && u in s.transactions[t].inConflict && u in s.transactions[t].outConflict
    requires Counts(s.transactions, u, s.transactions[t].startTs)
    ensures Dangerous(s, t)
  {
    var tx := s.transactions[t];
    assert u in tx.inConflict && u in tx.outConflict && Counts(s.transactions, u, tx.startTs) && Counts(s.transactions, u, tx.startTs);
  }

  /** After an abort the transaction holds no write lock and no SIREAD mark. */
  lemma AbortReleases<V>(s: State<V>, t: TxnId)
    requires Inv(s) && t in s.transactions
    ensures var s' := AbortStep(s, t).0;
      (forall k :: k in s'.writeLocks ==> s'.writeLocks[k] != t) &&
      (forall k :: k in s'.sireadLocks ==> t !in s'.sireadLocks[k])
  {
    AbortInternalInv(s, t);
    SireadRelease(s.transactions, s.sireadLocks, t);
  }

  /** After a commit the transaction holds no write lock; as written it also loses every
      SIREAD mark, while the corrected commit keeps them. */
  lemma CommitReleases<V>(s: State<V>, t: TxnId, now: int, corrected: bool)
    requires Inv(s) && IsLive(s, t) && !Dangerous(s, t)
    ensures var s' := CommitWith(s, t, now, corrected).0;
      (forall k :: k in s'.writeLocks ==> s'.writeLocks[k] != t) &&
      (!corrected ==> forall k :: k in s'.sireadLocks ==> t !in s'.sireadLocks[k]) &&
      (corrected ==> s'.sireadLocks == s.sireadLocks)
  {
    CommitParts(s.transactions, s.nextTxnId, s.committedTxns, s.writeLocks, s.sireadLocks, s.store, t, now);
    SireadRelease(s.transactions, s.sireadLocks, t);
  }

  /** The read as written and the corrected read return the same value and error and
      differ only in the conflict edges, and not at all unless another transaction that has
      not committed holds the key's write lock. */
  lemma ReadWithAgrees<V>(s: State<V>, t: TxnId, key: string)
    ensures var (a, va, ea) := ReadWith(s, t, key, false);
      var (b, vb, eb) := ReadWith(s, t, key, true);
      va == vb && ea == eb && a.(transactions := b.transactions) == b &&
      (!(IsLive(s, t) && LockedByOther(s.transactions, s.writeLocks, t, key)) ==> a == b)
  {
  }

  /** The commit as written and the corrected commit return the same outcome and differ
      only in the SIREAD marks, and not at all when the commit fails. */
  lemma CommitWithAgrees<V>(s: State<V>, t: TxnId, now: int)
    ensures var (a, oka, ea) := CommitWith(s, t, now, false);
      var (b, okb, eb) := CommitWith(s, t, now, true);
      oka == okb && ea == eb && a.(sireadLocks := b.sireadLocks) == b && (!oka ==> a == b)
  {
  }

  /** `abort` of a committed transaction succeeds and marks it aborted as well, leaving the
      store as it was. */
  lemma AbortAfterCommit<V>(s: State<V>, t: TxnId)
    requires Inv(s) && t in s.transactions && s.transactions[t].committed
    ensures var (s', ok, err) := AbortStep(s, t);
      ok && err.None? && s'.transactions[t].committed && s'.transactions[t].aborted && s'.store == s.store
  {
    assert t !in s.store.activeTxns;
  }

  // ---------------------------------------------------------------------------------------
  // What one step does to the fields the dangerous-structure check reads

  /** `b` is `a` with the edges `dIn` and `dOut` added. */
  ghost predicate KeepsBut<V>(a: SsiTxn<V>, b: SsiTxn<V>, dIn: set<TxnId>, dOut: set<TxnId>) {
    b.startTs == a.startTs && b.commitTs == a.commitTs && b.committed == a.committed && b.aborted == a.aborted &&
    b.writeSet == a.writeSet && b.readSet == a.readSet &&
    b.inConflict == a.inConflict + dIn && b.outConflict == a.outConflict + dOut
  }

  /** The reader once `key` joins its read set. */
  function Reading<V>(tx: SsiTxn<V>, key: string): SsiTxn<V> {
    tx.(readSet := tx.readSet + {key})
  }

  /** A read of a key nobody else has locked: a SIREAD mark and nothing else that matters. */
  lemma ReadUnlockedEffect<V>(s: State<V>, t: TxnId, key: string, corrected: bool)
    requires IsLive(s, t) && key !in s.transactions[t].writeSet && !LockedByOther(s.transactions, s.writeLocks, t, key)
    ensures var s' := ReadWith(s, t, key, corrected).0;
      s'.transactions.Keys == s.transactions.Keys && s'.writeLocks == s.writeLocks &&
      s'.committedTxns == s.committedTxns && s'.nextTxnId == s.nextTxnId &&
      s'.sireadLocks == s.sireadLocks[key := GetOr(s.sireadLocks, key, {}) + {t}] &&
      s'.store.activeTxns.Keys == s.store.activeTxns.Keys &&
      KeepsBut(Reading(s.transactions[t], key), s'.transactions[t], {}, {}) &&
      forall x :: x in s.transactions && x != t ==> KeepsBut(s.transactions[x], s'.transactions[x], {}, {})
  {
    StoreReadKeys(s.store, t, key);
  }

  /** A read of a key another uncommitted transaction `w` has locked records the edge
      between them: from `w` to the reader as written, from the reader to `w` corrected. */
  lemma ReadLockedEffect<V>(s: State<V>, t: TxnId, key: string, corrected: bool)
    requires IsLive(s, t) && key !in s.transactions[t].writeSet && LockedByOther(s.transactions, s.writeLocks, t, key)
    ensures var s' := ReadWith(s, t, key, corrected).0; var w := s.writeLocks[key];
      s'.transactions.Keys == s.transactions.Keys && s'.writeLocks == s.writeLocks &&
      s'.committedTxns == s.committedTxns && s'.nextTxnId == s.nextTxnId &&
      s'.sireadLocks == s.sireadLocks[key := GetOr(s.sireadLocks, key, {}) + {t}] &&
      s'.store.activeTxns.Keys == s.store.activeTxns.Keys &&
      (forall x :: x in s.transactions && x != t && x != w ==> KeepsBut(s.transactions[x], s'.transactions[x], {}, {})) &&
      (corrected ==> KeepsBut(Reading(s.transactions[t], key), s'.transactions[t], {}, {w}) &&
                     KeepsBut(s.transactions[w], s'.transactions[w], {t}, {})) &&
      (!corrected ==> KeepsBut(Reading(s.transactions[t], key), s'.transactions[t], {w}, {}) &&
                      KeepsBut(s.transactions[w], s'.transactions[w], {}, {t}))
  {
    ReadLockedTxns(s.transactions, s.writeLocks, t, key, corrected);
    StoreReadKeys(s.store, t, key);
  }

  lemma ReadLockedTxns<V>(txns: map<TxnId, SsiTxn<V>>, writeLocks: map<string, TxnId>, t: TxnId, key: string, corrected: bool)
    requires t in txns && LockedByOther(txns, writeLocks, t, key)
    ensures var txns2 := ReadEdgesWith(txns[t := Reading(txns[t], key)], writeLocks, t, key, corrected);
      var w := writeLocks[key];
      txns2.Keys == txns.Keys &&
      (forall x :: x in txns && x != t && x != w ==> KeepsBut(txns[x], txns2[x], {}, {})) &&
      (corrected ==> KeepsBut(Reading(txns[t], key), txns2[t], {}, {w}) && KeepsBut(txns[w], txns2[w], {t}, {})) &&
      (!corrected ==> KeepsBut(Reading(txns[t], key), txns2[t], {w}, {}) && KeepsBut(txns[w], txns2[w], {}, {t}))
  {
    var txns1 := txns[t := Reading(txns[t], key)];
    var w := writeLocks[key];
    if corrected {
      AddEdgeAt(txns1, t, w);
    } else {
      AddEdgeAt(txns1, w, t);
    }
  }

  /** A store read keeps the set of active transactions. */
  lemma StoreReadKeys<V>(st: Mvcc.State<V>, t: TxnId, key: string)
    ensures Mvcc.ReadStep(st, t, key).0.activeTxns.Keys == st.activeTxns.Keys
  {
  }

  /** A write with no conflict: the writer gains an incoming edge from every counted SIREAD
      holder of the key, each of them an outgoing edge to the writer, and the writer takes
      the key's lock. */
  lemma WriteEffect<V>(s: State<V>, t: TxnId, key: string, value: V)
    requires IsLive(s, t) && !(key in s.writeLocks && s.writeLocks[key] != t)
    ensures var s' := WriteStep(s, t, key, value).0;
      var from := EdgeReaders(s.transactions, t, GetOr(s.sireadLocks, key, {}));
      s'.transactions.Keys == s.transactions.Keys && s'.writeLocks == s.writeLocks[key := t] &&
      s'.sireadLocks == s.sireadLocks && s'.committedTxns == s.committedTxns && s'.nextTxnId == s.nextTxnId &&
      s'.store.activeTxns.Keys == s.store.activeTxns.Keys &&
      (forall x :: x in s.transactions && x != t ==>
        KeepsBut(s.transactions[x], s'.transactions[x], {}, if x in from then {t} else {})) &&
      s'.transactions[t] == s.transactions[t].(inConflict := s.transactions[t].inConflict + from,
                                               writeSet := s.transactions[t].writeSet[key := value])
  {
    var from := EdgeReaders(s.transactions, t, GetOr(s.sireadLocks, key, {}));
    WriteEdgesAt(s.transactions, t, from);
    StoreWriteKeys(s.store, t, key, value);
  }

  /** The edges of a write change only the conflict sets: the writer's incoming ones and
      the readers' outgoing ones. */
  lemma WriteEdgesAt<V>(txns: map<TxnId, SsiTxn<V>>, t: TxnId, from: set<TxnId>)
    requires t in txns
    ensures var w := WriteEdges(txns, t, from);
      w.Keys == txns.Keys && w[t] == txns[t].(inConflict := txns[t].inConflict + from) &&
      forall x :: x in txns && x != t ==> KeepsBut(txns[x], w[x], {}, if x in from then {t} else {})
  {
  }

  /** A store write keeps the set of active transactions. */
  lemma StoreWriteKeys<V>(st: Mvcc.State<V>, t: TxnId, key: string, value: V)
    ensures Mvcc.WriteStep(st, t, key, value).0.activeTxns.Keys == st.activeTxns.Keys
  {
  }

  /** A commit without a dangerous structure, of a transaction the store holds active. */
  lemma CommitEffect<V>(s: State<V>, t: TxnId, now: int, corrected: bool)
    requires IsLive(s, t) && !Dangerous(s, t) && t in s.store.activeTxns
    ensures var (s', ok, err) := CommitWith(s, t, now, corrected); var tx := s.transactions[t];
      ok && err.None? &&
      s'.transactions == s.transactions[t := tx.(commitTs := Some(now), committed := true)] &&
      s'.committedTxns == s.committedTxns + {t} && s'.nextTxnId == s.nextTxnId &&
      s'.sireadLocks == (if corrected then s.sireadLocks else ReleaseSiread(s.sireadLocks, t, tx.readSet)) &&
      s'.writeLocks == ReleaseWriteLocks(s.writeLocks, t, tx.writeSet.Keys) &&
      s'.store.activeTxns.Keys == s.store.activeTxns.Keys - {t}
  {
  }

  // ---------------------------------------------------------------------------------------
  // The write-skew demonstration and the two discrepancies, on concrete runs

  const Alice := "alice_balance"
  const Bob := "bob_balance"

  /** The fields of one transaction a run's outcome depends on. */
  datatype Part = Part(readKeys: set<string>, writeKeys: set<string>, inConflict: set<TxnId>, outConflict: set<TxnId>,
                       commitTs: Option<int>, committed: bool, aborted: bool)

  ghost predicate Matches<V>(tx: SsiTxn<V>, startTs: int, p: Part) {
    tx.startTs == startTs && tx.readSet == p.readKeys && tx.writeSet.Keys == p.writeKeys && tx.inConflict == p.inConflict &&
    tx.outConflict == p.outConflict && tx.commitTs == p.commitTs && tx.committed == p.committed && tx.aborted == p.aborted
  }

  /** Transaction 1 once the set-up has committed, and a transaction just begun. */
  const SetUp := Part({}, {Alice, Bob}, {}, {}, Some(1), true, false)
  const Begun := Part({}, {}, {}, {}, None, false, false)

  /** The ids among 2 and 3 of the transactions still live. */
  function Actives(p2: Part, p3: Part): set<TxnId> {
    (if !p2.committed && !p2.aborted then {2} else {}) + (if !p3.committed && !p3.aborted then {3} else {})
  }

  /** The three transactions of a run: 1 the set-up, 2 begun at 2, 3 begun at 3, with the
      store holding the live ones as active. */
  ghost predicate Pic<V>(s: State<V>, p2: Part, p3: Part) {
    s.transactions.Keys == {1, 2, 3} && Matches(s.transactions[1], 0, SetUp) &&
    Matches(s.transactions[2], 2, p2) && Matches(s.transactions[3], 3, p3) &&
    s.store.activeTxns.Keys == Actives(p2, p3)
  }

  /** The other one of transactions 2 and 3. */
  function Other(t: TxnId): TxnId {
    if t == 2 then 3 else 2
  }

  function PartOf(x: TxnId, p2: Part, p3: Part): Part {
    if x == 2 then p2 else p3
  }

  /** `p` once the edge from `a` to `b` is recorded, seen from transaction `x`. */
  function EdgeTo(p: Part, x: TxnId, a: TxnId, b: TxnId): Part {
    p.(outConflict := p.outConflict + (if x == a then {b} else {}),
       inConflict := p.inConflict + (if x == b then {a} else {}))
  }

  /** `p` once `t` writes `key`, gaining edges from the readers `from`, seen from `x`. */
  function WriteTo(p: Part, x: TxnId, t: TxnId, key: string, from: set<TxnId>): Part {
    if x == t then p.(writeKeys := p.writeKeys + {key}, inConflict := p.inConflict + from)
    else if x in from then EdgeTo(p, x, x, t)
    else p
  }

  /** `p` once `t` reads `key`, which the other transaction may have locked. */
  function ReadTo(p: Part, x: TxnId, t: TxnId, key: string, locked: bool, corrected: bool): Part {
    var q := if x == t then p.(readKeys := p.readKeys + {key}) else p;
    if !locked then q else if corrected then EdgeTo(q, x, t, Other(t)) else EdgeTo(q, x, Other(t), t)
  }

  ghost function ReadBoth<V>(s: State<V>, t: TxnId, corrected: bool): State<V> {
    ReadWith(ReadWith(s, t, Alice, corrected).0, t, Bob, corrected).0
  }

  /** A read by 2 or 3 of a key it has not written, unlocked or locked by the other one. */
  lemma ReadPic<V>(s: State<V>, t: TxnId, key: string, corrected: bool, p2: Part, p3: Part)
    requires Pic(s, p2, p3) && (t == 2 || t == 3) && IsLive(s, t) && key !in PartOf(t, p2, p3).writeKeys
    requires key in s.writeLocks ==> s.writeLocks[key] == Other(t) && !PartOf(Other(t), p2, p3).committed
    ensures var s' := ReadWith(s, t, key, corrected).0; var locked := key in s.writeLocks;
      Pic(s', ReadTo(p2, 2, t, key, locked, corrected), ReadTo(p3, 3, t, key, locked, corrected)) &&
      s'.writeLocks == s.writeLocks && s'.sireadLocks == s.sireadLocks[key := GetOr(s.sireadLocks, key, {}) + {t}]
  {
    var s' := ReadWith(s, t, key, corrected).0;
    var locked := key in s.writeLocks;
    if locked {
      ReadLockedEffect(s, t, key, corrected);
    } else {
      ReadUnlockedEffect(s, t, key, corrected);
    }
    ReadMatch(s.transactions[1], s'.transactions[1], 0, SetUp, 1, t, key, locked, corrected);
    ReadMatch(s.transactions[2], s'.transactions[2], 2, p2, 2, t, key, locked, corrected);
    ReadMatch(s.transactions[3], s'.transactions[3], 3, p3, 3, t, key, locked, corrected);
  }

  /** Transaction `x`, before as `a` and after as `b`, once `t` reads `key`, which the other
      of 2 and 3 has locked when `locked`. */
  lemma ReadMatch<V>(a: SsiTxn<V>, b: SsiTxn<V>, startTs: int, p: Part, x: TxnId, t: TxnId, key: string,
                     locked: bool, corrected: bool)
    requires Matches(a, startTs, p) && (t == 2 || t == 3)
    requires var a' := if x == t then Reading(a, key) else a;
      if !locked || (x != t && x != Other(t)) then KeepsBut(a', b, {}, {})
      else if corrected then KeepsBut(a', b, if x == t then {} else {t}, if x == t then {Other(t)} else {})
      else KeepsBut(a', b, if x == t then {Other(t)} else {}, if x == t then {} else {t})
    ensures Matches(b, startTs, ReadTo(p, x, t, key, locked, corrected))
  {
  }

  /** A write by 2 or 3 of a key that is unlocked or its own, with the readers it gains
      edges from named in advance. */
  lemma WritePic<V>(s: State<V>, t: TxnId, key: string, value: V, from: set<TxnId>, p2: Part, p3: Part)
    requires Pic(s, p2, p3) && (t == 2 || t == 3) && IsLive(s, t) && !(key in s.writeLocks && s.writeLocks[key] != t)
    requires EdgeReaders(s.transactions, t, GetOr(s.sireadLocks, key, {})) == from && from <= {Other(t)}
    ensures var s' := WriteStep(s, t, key, value).0;
      Pic(s', WriteTo(p2, 2, t, key, from), WriteTo(p3, 3, t, key, from)) &&
      s'.writeLocks == s.writeLocks[key := t] && s'.sireadLocks == s.sireadLocks
  {
    WriteEffect(s, t, key, value);
    var s' := WriteStep(s, t, key, value).0;
    WriteMatch(s.transactions[1], s'.transactions[1], 0, SetUp, 1, t, key, value, from);
    WriteMatch(s.transactions[2], s'.transactions[2], 2, p2, 2, t, key, value, from);
    WriteMatch(s.transactions[3], s'.transactions[3], 3, p3, 3, t, key, value, from);
  }

  /** Transaction `x`, before as `a` and after as `b`, once `t` writes `key`. */
  lemma WriteMatch<V>(a: SsiTxn<V>, b: SsiTxn<V>, startTs: int, p: Part, x: TxnId, t: TxnId, key: string, value: V,
                      from: set<TxnId>)
    requires Matches(a, startTs, p)
    requires x == t ==> b == a.(inConflict := a.inConflict + from, writeSet := a.writeSet[key := value])
    requires x != t ==> KeepsBut(a, b, {}, if x in from then {t} else {})
    ensures Matches(b, startTs, WriteTo(p, x, t, key, from))
  {
  }

  /** A commit by 2 or 3 without a dangerous structure. */
  lemma CommitPic<V>(s: State<V>, t: TxnId, now: int, corrected: bool, p2: Part, p3: Part)
    requires Pic(s, p2, p3) && (t == 2 || t == 3) && IsLive(s, t) && !Dangerous(s, t)
    ensures var (s', ok, err) := CommitWith(s, t, now, corrected);
      var q := PartOf(t, p2, p3).(commitTs := Some(now), committed := true);
      ok && err.None? && Pic(s', if t == 2 then q else p2, if t == 3 then q else p3) &&
      s'.sireadLocks == (if corrected then s.sireadLocks else ReleaseSiread(s.sireadLocks, t, s.transactions[t].readSet)) &&
      s'.writeLocks == ReleaseWriteLocks(s.writeLocks, t, PartOf(t, p2, p3).writeKeys)
  {
    CommitEffect(s, t, now, corrected);
  }

  /** A commit by 2 or 3 with a dangerous structure fails and aborts it. */
  lemma FailPic<V>(s: State<V>, t: TxnId, now: int, corrected: bool, p2: Part, p3: Part)
    requires Pic(s, p2, p3) && (t == 2 || t == 3) && IsLive(s, t) && Dangerous(s, t)
    ensures var (s', ok, err) := CommitWith(s, t, now, corrected);
      var q := PartOf(t, p2, p3).(aborted := true);
      !ok && err == Some(SerializationFailure) && Pic(s', if t == 2 then q else p2, if t == 3 then q else p3)
  {
  }

  /** The set-up's begin and two writes. */
  ghost predicate SetupWritten<V>(s: State<V>) {
    s.store.activeTxns.Keys == {1} && s.transactions.Keys == {1} && s.nextTxnId == 2 &&
    Matches(s.transactions[1], 0, Part({}, {Alice, Bob}, {}, {}, None, false, false)) &&
    s.writeLocks == map[Alice := 1, Bob := 1] && s.sireadLocks == map[]
  }

  /** Transaction 1 committed and nothing else known, with no lock or mark held. */
  ghost predicate AfterSetup<V>(s: State<V>) {
    s.store.activeTxns.Keys == {} && s.transactions.Keys == {1} && s.nextTxnId == 2 && Matches(s.transactions[1], 0, SetUp) &&
    s.writeLocks == map[] && s.sireadLocks == map[]
  }

  lemma SetupWrites<V>(value: V)
    ensures SetupWritten(WriteStep(WriteStep(BeginStep(Initial<V>(), 0).0, 1, Alice, value).0, 1, Bob, value).0)
  {
    var s1 := BeginStep(Initial<V>(), 0).0;
    WriteEffect(s1, 1, Alice, value);
    assert EdgeReaders(s1.transactions, 1, {}) == {};
    var s2 := WriteStep(s1, 1, Alice, value).0;
    WriteEffect(s2, 1, Bob, value);
  }

  lemma SetupCommits<V>(s: State<V>, corrected: bool)
    requires SetupWritten(s)
    ensures AfterSetup(CommitWith(s, 1, 1, corrected).0)
  {
    NoEdgeNoDanger(s, 1);
    CommitEffect(s, 1, 1, corrected);
    assert ReleaseSiread(map[], 1, {}) == map[];
    assert ReleaseWriteLocks(s.writeLocks, 1, {Alice, Bob}) == map[];
  }

  lemma BeginTwo<V>(s: State<V>)
    requires AfterSetup(s)
    ensures var s' := BeginStep(BeginStep(s, 2).0, 3).0;
      Pic(s', Begun, Begun) && s'.writeLocks == map[] && s'.sireadLocks == map[]
  {
  }

  /** The set-up transaction 1 writes both balances as 100 and commits at time 1; then
      transactions 2 and 3 begin at times 2 and 3. */
  ghost function TwoBegun(corrected: bool): State<int> {
    var s := BeginStep(Initial<int>(), 0).0;
    var s := WriteStep(s, 1, Alice, 100).0;
    var s := WriteStep(s, 1, Bob, 100).0;
    var s := CommitWith(s, 1, 1, corrected).0;
    BeginStep(BeginStep(s, 2).0, 3).0
  }

  lemma TwoBegunShape(corrected: bool)
    ensures var s := TwoBegun(corrected);
      Pic(s, Begun, Begun) && s.writeLocks == map[] && s.sireadLocks == map[]
  {
    SetupWrites(100);
    var s := WriteStep(WriteStep(BeginStep(Initial<int>(), 0).0, 1, Alice, 100).0, 1, Bob, 100).0;
    SetupCommits(s, corrected);
    BeginTwo(CommitWith(s, 1, 1, corrected).0);
  }

  /** Transaction `t` reads both balances, neither of which it has written. */
  lemma ReadBothPic<V>(s: State<V>, t: TxnId, corrected: bool, p2: Part, p3: Part)
    requires Pic(s, p2, p3) && (t == 2 || t == 3) && IsLive(s, t) && s.writeLocks == map[]
    requires Alice !in PartOf(t, p2, p3).writeKeys && Bob !in PartOf(t, p2, p3).writeKeys
    ensures var s' := ReadBoth(s, t, corrected); var both := {Alice, Bob};
      Pic(s', if t == 2 then p2.(readKeys := p2.readKeys + both) else p2,
              if t == 3 then p3.(readKeys := p3.readKeys + both) else p3) &&
      s'.writeLocks == map[] &&
      s'.sireadLocks == s.sireadLocks[Alice := GetOr(s.sireadLocks, Alice, {}) + {t}]
                                     [Bob := GetOr(s.sireadLocks, Bob, {}) + {t}]
  {
    ReadPic(s, t, Alice, corrected, p2, p3);
    var s1 := ReadWith(s, t, Alice, corrected).0;
    var q2 := if t == 2 then p2.(readKeys := p2.readKeys + {Alice}) else p2;
    var q3 := if t == 3 then p3.(readKeys := p3.readKeys + {Alice}) else p3;
    assert Pic(s1, q2, q3);
    ReadPic(s1, t, Bob, corrected, q2, q3);
    if t == 2 {
      assert q2.readKeys + {Bob} == p2.readKeys + {Alice, Bob};
    } else {
      assert q3.readKeys + {Bob} == p3.readKeys + {Alice, Bob};
    }
  }

  /** After the set-up, transactions 2 and 3 each read both balances. */
  ghost function AllRead(corrected: bool): State<int> {
    ReadBoth(ReadBoth(TwoBegun(corrected), 2, corrected), 3, corrected)
  }

  const Reader := Part({Alice, Bob}, {}, {}, {}, None, false, false)

  /** Both transactions have read both balances and nothing else has happened since the
      set-up. */
  ghost predicate BothRead<V>(s: State<V>) {
    Pic(s, Reader, Reader) && s.writeLocks == map[] && s.sireadLocks == map[Alice := {2, 3}, Bob := {2, 3}]
  }

  /** 2 has read both balances, 3 nothing yet. */
  ghost predicate OneRead<V>(s: State<V>) {
    Pic(s, Reader, Begun) && s.writeLocks == map[] && s.sireadLocks == map[Alice := {2}, Bob := {2}]
  }

  lemma FirstReads<V>(s: State<V>, corrected: bool)
    requires Pic(s, Begun, Begun) && s.writeLocks == map[] && s.sireadLocks == map[]
    ensures OneRead(ReadBoth(s, 2, corrected))
  {
    ReadBothPic(s, 2, corrected, Begun, Begun);
    var s1 := ReadBoth(s, 2, corrected);
    assert GetOr(s.sireadLocks, Alice, {}) + {2} == {2} && GetOr(s.sireadLocks, Bob, {}) + {2} == {2};
    assert s1.sireadLocks == s.sireadLocks[Alice := {2}][Bob := {2}];
  }

  lemma ReadAll<V>(s: State<V>, corrected: bool)
    requires Pic(s, Begun, Begun) && s.writeLocks == map[] && s.sireadLocks == map[]
    ensures BothRead(ReadBoth(ReadBoth(s, 2, corrected), 3, corrected))
  {
    FirstReads(s, corrected);
    SecondReadsUnlocked(ReadBoth(s, 2, corrected), corrected);
  }

  lemma SecondReadsUnlocked<V>(s: State<V>, corrected: bool)
    requires OneRead(s)
    ensures BothRead(ReadBoth(s, 3, corrected))
  {
    ReadBothPic(s, 3, corrected, Reader, Begun);
    assert GetOr(s.sireadLocks, Alice, {}) + {3} == {2, 3};
  }

  lemma AllReadShape(corrected: bool)
    ensures BothRead(AllRead(corrected))
  {
    TwoBegunShape(corrected);
    ReadAll(TwoBegun(corrected), corrected);
  }

  /** In the run the write-skew demonstration sets up and then at both commitments: each
      transaction has an edge to and from the other. */
  const Skewed2 := Part({Alice, Bob}, {Alice}, {3}, {3}, None, false, false)
  const Skewed3 := Part({Alice, Bob}, {Bob}, {2}, {2}, None, false, false)

  /** With mutual edges the first commit fails and aborts 2, after which 3 commits. */
  lemma FirstFailsSecondCommits<V>(s: State<V>, corrected: bool)
    requires Pic(s, Skewed2, Skewed3)
    ensures var r1 := CommitWith(s, 2, 10, corrected);
      !r1.1 && r1.2 == Some(SerializationFailure) && CommitWith(r1.0, 3, 11, corrected).1
  {
    MutualEdgeDanger(s, 2, 3);
    FailPic(s, 2, 10, corrected, Skewed2, Skewed3);
    var s1 := CommitWith(s, 2, 10, corrected).0;
    assert !Dangerous(s1, 3);
    CommitPic(s1, 3, 11, corrected, Skewed2.(aborted := true), Skewed3);
  }

  /** Both withdrawals read both balances, then each writes its own balance. */
  ghost function BothReadThenWrite(corrected: bool): State<int> {
    var s := AllRead(corrected);
    var s := WriteStep(s, 2, Alice, -50).0;
    WriteStep(s, 3, Bob, -50).0
  }

  /** In the order the demonstration's barrier allows — both read, both write, then both
      commit — the first commit fails with 'serialization failure' and the second
      succeeds, under either rule. */
  lemma WriteSkewDemo(corrected: bool)
    ensures var r1 := CommitWith(BothReadThenWrite(corrected), 2, 10, corrected);
      !r1.1 && r1.2 == Some(SerializationFailure) && CommitWith(r1.0, 3, 11, corrected).1
  {
    AllReadShape(corrected);
    BothWrite(AllRead(corrected), -50);
    FirstFailsSecondCommits(BothReadThenWrite(corrected), corrected);
  }

  /** 2 writes Alice's balance, then 3 writes Bob's: each gains an edge from the other. */
  lemma BothWrite<V>(s: State<V>, value: V)
    requires BothRead(s)
    ensures Pic(WriteStep(WriteStep(s, 2, Alice, value).0, 3, Bob, value).0, Skewed2, Skewed3)
  {
    assert EdgeReaders(s.transactions, 2, {2, 3}) == {3};
    WritePic(s, 2, Alice, value, {3}, Reader, Reader);
    var s1 := WriteStep(s, 2, Alice, value).0;
    assert EdgeReaders(s1.transactions, 3, {2, 3}) == {2};
    WritePic(s1, 3, Bob, value, {2}, WriteTo(Reader, 2, 2, Alice, {3}), WriteTo(Reader, 3, 2, Alice, {3}));
  }

  /** Transactions 2 and 3 have both committed although each read a balance the other
      wrote: a write skew, which no serial order of the two explains. */
  ghost predicate SkewCommitted<V>(s: State<V>) {
    2 in s.transactions && 3 in s.transactions &&
    s.transactions[2].committed && s.transactions[3].committed &&
    Bob in s.transactions[2].readSet && Bob in s.transactions[3].writeSet &&
    Alice in s.transactions[3].readSet && Alice in s.transactions[2].writeSet
  }

  // The read-edge direction. 2 reads both balances and writes Alice's; 3 then reads both,
  // Alice's while 2 still holds its lock, and writes Bob's.

  ghost function ReadEdgeRun(corrected: bool): State<int> {
    var s := ReadBoth(TwoBegun(corrected), 2, corrected);
    var s := WriteStep(s, 2, Alice, -50).0;
    var s := ReadBoth(s, 3, corrected);
    WriteStep(s, 3, Bob, -50).0
  }

  const Wrote2 := Part({Alice, Bob}, {Alice}, {}, {}, None, false, false)

  lemma FirstReadsWrites<V>(s: State<V>, corrected: bool, value: V)
    requires Pic(s, Begun, Begun) && s.writeLocks == map[] && s.sireadLocks == map[]
    ensures var s' := WriteStep(ReadBoth(s, 2, corrected), 2, Alice, value).0;
      Pic(s', Wrote2, Begun) && s'.writeLocks == map[Alice := 2] && s'.sireadLocks == map[Alice := {2}, Bob := {2}]
  {
    FirstReads(s, corrected);
    FirstWritesAlone(ReadBoth(s, 2, corrected), value);
  }

  lemma FirstWritesAlone<V>(s: State<V>, value: V)
    requires OneRead(s)
    ensures var s' := WriteStep(s, 2, Alice, value).0;
      Pic(s', Wrote2, Begun) && s'.writeLocks == map[Alice := 2] && s'.sireadLocks == map[Alice := {2}, Bob := {2}]
  {
    assert EdgeReaders(s.transactions, 2, {2}) == {};
    WritePic(s, 2, Alice, value, {}, Reader, Begun);
  }

  /** As written 2 has only an outgoing and 3 only an incoming edge; corrected, each has
      both, to and from the other. */
  const Edged2 := Part({Alice, Bob}, {Alice}, {}, {3}, None, false, false)
  const Edged3 := Part({Alice, Bob}, {Bob}, {2}, {}, None, false, false)

  /** The edges once 3 has read Alice's balance under 2's lock, in either direction. */
  function LockRead2(corrected: bool): Part {
    if corrected then Wrote2.(inConflict := {3}) else Wrote2.(outConflict := {3})
  }

  function LockRead3(corrected: bool): Part {
    if corrected then Reader.(outConflict := {2}) else Reader.(inConflict := {2})
  }

  lemma SecondReads<V>(s: State<V>, corrected: bool)
    requires Pic(s, Wrote2, Begun) && s.writeLocks == map[Alice := 2] && s.sireadLocks == map[Alice := {2}, Bob := {2}]
    ensures var s' := ReadBoth(s, 3, corrected);
      Pic(s', LockRead2(corrected), LockRead3(corrected)) && s'.writeLocks == map[Alice := 2] &&
      GetOr(s'.sireadLocks, Bob, {}) == {2, 3}
  {
    SecondReadsLocked(s, corrected);
    var s1 := ReadWith(s, 3, Alice, corrected).0;
    SecondReadsFree(s1, corrected);
  }

  /** 3 reads Alice's balance under 2's lock. */
  lemma SecondReadsLocked<V>(s: State<V>, corrected: bool)
    requires Pic(s, Wrote2, Begun) && s.writeLocks == map[Alice := 2] && s.sireadLocks == map[Alice := {2}, Bob := {2}]
    ensures var s' := ReadWith(s, 3, Alice, corrected).0;
      Pic(s', EdgeTo(Wrote2, 2, if corrected then 3 else 2, if corrected then 2 else 3),
              EdgeTo(Begun.(readKeys := {Alice}), 3, if corrected then 3 else 2, if corrected then 2 else 3)) &&
      s'.writeLocks == map[Alice := 2] && GetOr(s'.sireadLocks, Bob, {}) == {2}
  {
    ReadPic(s, 3, Alice, corrected, Wrote2, Begun);
  }

  /** Then Bob's balance, which nobody has locked. */
  lemma SecondReadsFree<V>(s: State<V>, corrected: bool)
    requires Pic(s, EdgeTo(Wrote2, 2, if corrected then 3 else 2, if corrected then 2 else 3),
                    EdgeTo(Begun.(readKeys := {Alice}), 3, if corrected then 3 else 2, if corrected then 2 else 3))
    requires s.writeLocks == map[Alice := 2] && GetOr(s.sireadLocks, Bob, {}) == {2}
    ensures var s' := ReadWith(s, 3, Bob, corrected).0;
      Pic(s', LockRead2(corrected), LockRead3(corrected)) && s'.writeLocks == map[Alice := 2] &&
      GetOr(s'.sireadLocks, Bob, {}) == {2, 3}
  {
    ReadPic(s, 3, Bob, corrected, EdgeTo(Wrote2, 2, if corrected then 3 else 2, if corrected then 2 else 3),
            EdgeTo(Begun.(readKeys := {Alice}), 3, if corrected then 3 else 2, if corrected then 2 else 3));
  }

  lemma SecondWrites<V>(s: State<V>, corrected: bool, value: V)
    requires Pic(s, LockRead2(corrected), LockRead3(corrected)) && s.writeLocks == map[Alice := 2]
    requires GetOr(s.sireadLocks, Bob, {}) == {2, 3}
    ensures var s' := WriteStep(s, 3, Bob, value).0;
      if corrected then Pic(s', Skewed2, Skewed3) else Pic(s', Edged2, Edged3)
  {
    assert EdgeReaders(s.transactions, 3, {2, 3}) == {2};
    if corrected {
      WritePic(s, 3, Bob, value, {2}, Wrote2.(inConflict := {3}), Reader.(outConflict := {2}));
    } else {
      WritePic(s, 3, Bob, value, {2}, Wrote2.(outConflict := {3}), Reader.(inConflict := {2}));
    }
  }

  /** Two transactions that each have only one kind of edge both commit. */
  lemma BothCommit<V>(s: State<V>, corrected: bool)
    requires Pic(s, Edged2, Edged3)
    ensures var r1 := CommitWith(s, 2, 10, corrected); var r2 := CommitWith(r1.0, 3, 11, corrected);
      r1.1 && r2.1 && SkewCommitted(r2.0)
  {
    NoEdgeNoDanger(s, 2);
    CommitPic(s, 2, 10, corrected, Edged2, Edged3);
    var s1 := CommitWith(s, 2, 10, corrected).0;
    NoEdgeNoDanger(s1, 3);
    CommitPic(s1, 3, 11, corrected, Edged2.(commitTs := Some(10), committed := true), Edged3);
  }

  /** Recording the edge of a read of a locked key from the lock holder to the reader, as
      written, lets both transactions of a write skew commit; the corrected direction,
      from the reader to the holder, makes the first commit fail. */
  lemma ReadEdgeDirection(corrected: bool)
    ensures var r1 := CommitWith(ReadEdgeRun(corrected), 2, 10, corrected); var r2 := CommitWith(r1.0, 3, 11, corrected);
      (!corrected ==> r1.1 && r2.1 && SkewCommitted(r2.0)) &&
      (corrected ==> !r1.1 && r1.2 == Some(SerializationFailure) && r2.1)
  {
    TwoBegunShape(corrected);
    FirstReadsWrites(TwoBegun(corrected), corrected, -50);
    var s := WriteStep(ReadBoth(TwoBegun(corrected), 2, corrected), 2, Alice, -50).0;
    SecondReads(s, corrected);
    SecondWrites(ReadBoth(s, 3, corrected), corrected, -50);
    if corrected {
      FirstFailsSecondCommits(ReadEdgeRun(corrected), corrected);
    } else {
      BothCommit(ReadEdgeRun(corrected), corrected);
    }
  }

  // SIREAD marks at commit. Both read both balances; 2 writes Alice's and commits; only
  // then does 3 write Bob's.

  ghost function FirstCommit(corrected: bool): (State<int>, bool, Option<Error>) {
    CommitWith(WriteStep(AllRead(corrected), 2, Alice, -50).0, 2, 10, corrected)
  }

  const Committed2 := Part({Alice, Bob}, {Alice}, {3}, {}, Some(10), true, false)
  const Waiting3 := Part({Alice, Bob}, {}, {}, {2}, None, false, false)

  /** The SIREAD marks once 2 has committed: kept when corrected, 2's dropped as written. */
  function MarksAfter(corrected: bool): map<string, set<TxnId>> {
    if corrected then map[Alice := {2, 3}, Bob := {2, 3}] else map[Alice := {3}, Bob := {3}]
  }

  const Wrote2Edged := Part({Alice, Bob}, {Alice}, {3}, {}, None, false, false)

  lemma FirstWrites<V>(s: State<V>, value: V)
    requires BothRead(s)
    ensures var s' := WriteStep(s, 2, Alice, value).0;
      Pic(s', Wrote2Edged, Waiting3) && s'.writeLocks == map[Alice := 2] && s'.sireadLocks == s.sireadLocks
  {
    assert EdgeReaders(s.transactions, 2, {2, 3}) == {3};
    WritePic(s, 2, Alice, value, {3}, Reader, Reader);
  }

  lemma FirstCommits<V>(s: State<V>, corrected: bool)
    requires Pic(s, Wrote2Edged, Waiting3) && s.writeLocks == map[Alice := 2]
    requires s.sireadLocks == map[Alice := {2, 3}, Bob := {2, 3}]
    ensures var r := CommitWith(s, 2, 10, corrected);
      r.1 && Pic(r.0, Committed2, Waiting3) && r.0.writeLocks == map[] && r.0.sireadLocks == MarksAfter(corrected)
  {
    NoEdgeNoDanger(s, 2);
    CommitPic(s, 2, 10, corrected, Wrote2Edged, Waiting3);
    assert ReleaseWriteLocks(map[Alice := 2], 2, {Alice}) == map[];
    var r := ReleaseSiread(map[Alice := {2, 3}, Bob := {2, 3}], 2, {Alice, Bob});
    assert r[Alice] == {2, 3} - {2} == {3};
    assert r[Bob] == {2, 3} - {2} == {3};
    MapExt(r, map[Alice := {3}, Bob := {3}]);
  }

  /** 3 writes Bob's balance after 2's commit: as written no edge, since 2's mark on Bob's
      balance is gone, so 3 commits; corrected, the edge from 2 closes a dangerous structure,
      2 counting because it committed after 3 began. */
  lemma SecondWritesCommits<V>(s: State<V>, corrected: bool, value: V)
    requires Pic(s, Committed2, Waiting3) && s.writeLocks == map[] && s.sireadLocks == MarksAfter(corrected)
    ensures var r := CommitWith(WriteStep(s, 3, Bob, value).0, 3, 11, corrected);
      (!corrected ==> r.1 && SkewCommitted(r.0)) && (corrected ==> !r.1 && r.2 == Some(SerializationFailure))
  {
    if corrected {
      SecondWriteCloses(s, value);
    } else {
      SecondWriteAlone(s, value);
    }
  }

  /** Corrected: 2's kept mark on Bob's balance gives the edge from 2 to 3. */
  lemma SecondWriteCloses<V>(s: State<V>, value: V)
    requires Pic(s, Committed2, Waiting3) && s.writeLocks == map[] && s.sireadLocks == MarksAfter(true)
    ensures var r := CommitWith(WriteStep(s, 3, Bob, value).0, 3, 11, true);
      !r.1 && r.2 == Some(SerializationFailure)
  {
    assert EdgeReaders(s.transactions, 3, {2, 3}) == {2};
    WritePic(s, 3, Bob, value, {2}, Committed2, Waiting3);
    var s1 := WriteStep(s, 3, Bob, value).0;
    MutualEdgeDanger(s1, 3, 2);
    FailPic(s1, 3, 11, true, Committed2.(outConflict := {3}), Waiting3.(writeKeys := {Bob}, inConflict := {2}));
  }

  /** As written: no mark of 2 is left, so no edge, and 3 commits. */
  lemma SecondWriteAlone<V>(s: State<V>, value: V)
    requires Pic(s, Committed2, Waiting3) && s.writeLocks == map[] && s.sireadLocks == MarksAfter(false)
    ensures var r := CommitWith(WriteStep(s, 3, Bob, value).0, 3, 11, false);
      r.1 && SkewCommitted(r.0)
  {
    assert EdgeReaders(s.transactions, 3, {3}) == {};
    WritePic(s, 3, Bob, value, {}, Committed2, Waiting3);
    var s1 := WriteStep(s, 3, Bob, value).0;
    NoEdgeNoDanger(s1, 3);
    CommitPic(s1, 3, 11, false, Committed2, Waiting3.(writeKeys := {Bob}));
  }

  /** Releasing a committing transaction's SIREAD marks, as written, lets both transactions
      of a write skew commit when the second writes after the first has committed; keeping
      them makes the second commit fail. */
  lemma SireadAtCommit(corrected: bool)
    ensures var r1 := FirstCommit(corrected); var r2 := CommitWith(WriteStep(r1.0, 3, Bob, -50).0, 3, 11, corrected);
      r1.1 && (!corrected ==> r2.1 && SkewCommitted(r2.0)) && (corrected ==> !r2.1 && r2.2 == Some(SerializationFailure))
  {
    AllReadShape(corrected);
    FirstWrites(AllRead(corrected), -50);
    FirstCommits(WriteStep(AllRead(corrected), 2, Alice, -50).0, corrected);
    SecondWritesCommits(FirstCommit(corrected).0, corrected, -50);
  }

  // ---------------------------------------------------------------------------------------
  // The object, with the read edges and commit as written

  class SerializableSnapshotIsolation<V(==)> {
    const store: Mvcc.MVCCStore<V>
    var transactions: map<TxnId, SsiTxn<V>>
    var committedTxns: set<TxnId>
    var sireadLocks: map<string, set<TxnId>>
    var writeLocks: map<string, TxnId>
    var nextTxnId: nat

    ghost function View(): State<V>
      reads this, store
    {
      State(transactions, committedTxns, sireadLocks, writeLocks, nextTxnId, store.View())
    }

    ghost predicate Valid()
      reads this, store
    {
      Inv(View())
    }

    constructor()
      ensures View() == Initial() && Valid() && fresh(store)
    {
      store := new Mvcc.MVCCStore(Mvcc.Snapshot);
      transactions, committedTxns, sireadLocks, writeLocks, nextTxnId := map[], {}, map[], map[], 1;
      InitialInv<V>();
    }

    /** `begin()` at time `now`. */
    method Begin(now: int) returns (t: TxnId)
      modifies this, store
      ensures (View(), t) == BeginStep(old(View()), now)
    {
      t := nextTxnId;
      nextTxnId := nextTxnId + 1;
      transactions := transactions[t := SsiTxn(t, now, None, {}, map[], {}, {}, false, false)];
      store.activeTxns := store.activeTxns[t := Mvcc.TxnInfo(now, {}, map[])];
    }

    /** `read(txn_id, key)`, recording the edge from the lock holder to the reader. */
    method Read(t: TxnId, key: string) returns (value: Option<V>, err: Option<Error>)
      modifies this, store
      ensures (View(), value, err) == ReadStep(old(View()), t, key)
    {
      if t !in transactions || transactions[t].aborted || transactions[t].committed {
        return None, Some(InvalidTransaction);
      }
      var tx := transactions[t];
      if key in tx.writeSet {
        return Some(tx.writeSet[key]), None;
      }
      transactions := transactions[t := tx.(readSet := tx.readSet + {key})];
      sireadLocks := sireadLocks[key := GetOr(sireadLocks, key, {}) + {t}];
      if key in writeLocks {
        var w := writeLocks[key];
        if w != t && w in transactions && !transactions[w].committed {
          ghost var before := transactions;
          var rx := transactions[t];
          transactions := transactions[t := rx.(inConflict := rx.inConflict + {w})];
          var wx := transactions[w];
          transactions := transactions[w := wx.(outConflict := wx.outConflict + {t})];
          assert transactions == AddEdge(before, w, t);
        }
      }
      var e;
      value, e := store.Read(t, key);
      err := StoreErr(e);
    }

    /** `write(txn_id, key, value)`. */
    method Write(t: TxnId, key: string, value: V) returns (ok: bool, err: Option<Error>)
      modifies this, store
      ensures (View(), ok, err) == WriteStep(old(View()), t, key, value)
    {
      if t !in transactions || transactions[t].aborted || transactions[t].committed {
        return false, Some(InvalidTransaction);
      }
      if key in writeLocks && writeLocks[key] != t {
        return false, Some(WriteConflict);
      }
      transactions := AddWriteEdges(transactions, t, GetOr(sireadLocks, key, {}));
      writeLocks := writeLocks[key := t];
      var tx := transactions[t];
      transactions := transactions[t := tx.(writeSet := tx.writeSet[key := value])];
      var e;
      ok, e := store.Write(t, key, value);
      err := StoreErr(e);
    }

    /** `commit(txn_id)` at time `now`, releasing the committed transaction's SIREAD marks
        with its write locks. */
    method Commit(t: TxnId, now: int) returns (ok: bool, err: Option<Error>)
      modifies this, store
      ensures (View(), ok, err) == CommitStep(old(View()), t, now)
    {
      if t !in transactions || transactions[t].aborted || transactions[t].committed {
        return false, Some(InvalidTransaction);
      }
      var dangerous := HasDangerousStructure(t);
      if dangerous {
        AbortAndRelease(t);
        return false, Some(SerializationFailure);
      }
      var tx := transactions[t].(commitTs := Some(now));
      transactions := transactions[t := tx];
      var e;
      ok, e := store.Commit(t, now);
      if ok {
        transactions := transactions[t := tx.(committed := true)];
        committedTxns := committedTxns + {t};
        sireadLocks := ReleaseReads(sireadLocks, t, tx.readSet);
        writeLocks := ReleaseWrites(writeLocks, t, tx.writeSet.Keys);
        assert transactions == old(transactions)[t := tx.(committed := true)];
        assert store.View() == Mvcc.CommitStep(old(store.View()), t, now).0;
      }
      err := StoreErr(e);
    }

    /** `abort(txn_id)`. */
    method Abort(t: TxnId) returns (ok: bool, err: Option<Error>)
      modifies this, store
      ensures (View(), ok, err) == AbortStep(old(View()), t)
    {
      if t !in transactions {
        return false, Some(InvalidTransaction);
      }
      AbortAndRelease(t);
      return true, None;
    }

    /** `_abort_internal(txn)` with `_cleanup_locks(txn)`. */
    method AbortAndRelease(t: TxnId)
      requires t in transactions
      modifies this, store
      ensures View() == AbortInternal(old(View()), t)
    {
      var tx := transactions[t];
      transactions := transactions[t := tx.(aborted := true)];
      var _, _ := store.Abort(t);
      sireadLocks := ReleaseReads(sireadLocks, t, tx.readSet);
      writeLocks := ReleaseWrites(writeLocks, t, tx.writeSet.Keys);
    }

    /** `_has_dangerous_structure(txn)`: the nested loops over the incoming and the
        outgoing neighbours. */
    method HasDangerousStructure(t: TxnId) returns (r: bool)
      requires t in transactions
      ensures r == Dangerous(View(), t)
    {
      var tx := transactions[t];
      var ins := tx.inConflict;
      while ins != {}
        invariant ins <= tx.inConflict
        invariant forall i, o :: i in tx.inConflict - ins && o in tx.outConflict ==>
          !(Counts(transactions, i, tx.startTs) && Counts(transactions, o, tx.startTs))
      {
        var i := PickId(ins);
        if i in transactions &&
           !(transactions[i].committed && transactions[i].commitTs.Some? && transactions[i].commitTs.value < tx.startTs) {
          var outs := tx.outConflict;
          while outs != {}
            invariant outs <= tx.outConflict
            invariant forall o :: o in tx.outConflict - outs ==>
              !(Counts(transactions, i, tx.startTs) && Counts(transactions, o, tx.startTs))
          {
            var o := PickId(outs);
            if o in transactions &&
               !(transactions[o].committed && transactions[o].commitTs.Some? && transactions[o].commitTs.value < tx.startTs) {
              if !transactions[i].aborted && !transactions[o].aborted {
                assert Counts(transactions, i, tx.startTs) && Counts(transactions, o, tx.startTs);
                return true;
              }
            }
            outs := outs - {o};
          }
        }
        ins := ins - {i};
      }
      return false;
    }
  }

  /** Some element of a set the loops of this module still have to visit. */
  method PickId(ids: set<TxnId>) returns (x: TxnId)
    requires ids != {}
    ensures x in ids
  {
    x :| x in ids;
  }

  /** The loop of `write` over the key's SIREAD holders. */
  method AddWriteEdges<V>(txns0: map<TxnId, SsiTxn<V>>, t: TxnId, readers: set<TxnId>)
    returns (txns: map<TxnId, SsiTxn<V>>)
    requires t in txns0
    ensures txns == WriteEdges(txns0, t, EdgeReaders(txns0, t, readers))
  {
    txns := txns0;
    var todo := readers;
    ghost var done: set<TxnId> := {};
    assert EdgeReaders(txns0, t, done) == {};
    WriteEdgesNone(txns0, t);
    while todo != {}
      invariant todo <= readers && done == readers - todo
      invariant txns == WriteEdges(txns0, t, EdgeReaders(txns0, t, done))
    {
      var r := PickId(todo);
      if r != t && r in txns && !txns[r].aborted {
        WriteEdgesAdd(txns0, t, done, r);
        var tx := txns[t];
        txns := txns[t := tx.(inConflict := tx.inConflict + {r})];
        var rx := txns[r];
        txns := txns[r := rx.(outConflict := rx.outConflict + {t})];
      } else {
        WriteEdgesSkip(txns0, t, done, r);
      }
      todo := todo - {r};
      done := done + {r};
    }
    assert done == readers;
  }

  lemma WriteEdgesNone<V>(txns0: map<TxnId, SsiTxn<V>>, t: TxnId)
    requires t in txns0
    ensures WriteEdges(txns0, t, {}) == txns0
  {
    var w := WriteEdges(txns0, t, {});
    assert txns0[t].inConflict + {} == txns0[t].inConflict;
    assert w[t] == txns0[t];
    MapExt(w, txns0);
  }

  /** One turn of the loop of `write`: a live holder `r` other than `t` adds the edge `r -> t`. */
  lemma WriteEdgesAdd<V>(txns0: map<TxnId, SsiTxn<V>>, t: TxnId, done: set<TxnId>, r: TxnId)
    requires t in txns0 && r in txns0 && r != t && !txns0[r].aborted && r !in done
    ensures var w := WriteEdges(txns0, t, EdgeReaders(txns0, t, done));
            WriteEdges(txns0, t, EdgeReaders(txns0, t, done + {r})) ==
              w[t := w[t].(inConflict := w[t].inConflict + {r})]
               [r := w[r].(outConflict := w[r].outConflict + {t})]
  {
    var d := EdgeReaders(txns0, t, done);
    var d' := EdgeReaders(txns0, t, done + {r});
    assert d' == d + {r};
    var w := WriteEdges(txns0, t, d);
    var w' := WriteEdges(txns0, t, d');
    var u := w[t := w[t].(inConflict := w[t].inConflict + {r})]
              [r := w[r].(outConflict := w[r].outConflict + {t})];
    assert w'[t] == u[t];
    assert w'[r] == u[r];
    MapExt(w', u);
  }

  /** A holder that is `t` itself, unknown or aborted adds no edge. */
  lemma WriteEdgesSkip<V>(txns0: map<TxnId, SsiTxn<V>>, t: TxnId, done: set<TxnId>, r: TxnId)
    requires !(r != t && r in txns0 && !txns0[r].aborted)
    ensures EdgeReaders(txns0, t, done + {r}) == EdgeReaders(txns0, t, done)
  {
  }

  /** The first loop of `_cleanup_locks`: `t` leaves the SIREAD set of each key it read. */
  method ReleaseReads(siread0: map<string, set<TxnId>>, t: TxnId, readSet: set<string>)
    returns (siread: map<string, set<TxnId>>)
    ensures siread == ReleaseSiread(siread0, t, readSet)
  {
    siread := siread0;
    var todo := readSet;
    while todo != {}
      invariant todo <= readSet
      invariant forall k :: k in siread <==> k in siread0 || k in readSet - todo
      invariant forall k :: k in siread ==> siread[k] == if k in readSet - todo then GetOr(siread0, k, {}) - {t} else siread0[k]
    {
      var k :| k in todo;
      siread := siread[k := GetOr(siread, k, {}) - {t}];
      todo := todo - {k};
    }
    MapExt(siread, ReleaseSiread(siread0, t, readSet));
  }

  /** The second loop of `_cleanup_locks`: `t` gives up each lock of its write set that it
      still holds. */
  method ReleaseWrites(writeLocks0: map<string, TxnId>, t: TxnId, writeKeys: set<string>)
    returns (writeLocks: map<string, TxnId>)
    ensures writeLocks == ReleaseWriteLocks(writeLocks0, t, writeKeys)
  {
    writeLocks := writeLocks0;
    var todo := writeKeys;
    while todo != {}
      invariant todo <= writeKeys
      invariant forall k :: k in writeLocks <==> k in writeLocks0 && !(k in writeKeys - todo && writeLocks0[k] == t)
      invariant forall k :: k in writeLocks ==> writeLocks[k] == writeLocks0[k]
    {
      var k :| k in todo;
      if k in writeLocks && writeLocks[k] == t {
        writeLocks := writeLocks - {k};
      }
      todo := todo - {k};
    }
    MapExt(writeLocks, ReleaseWriteLocks(writeLocks0, t, writeKeys));
  }
}
