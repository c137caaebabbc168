/** The multi-version store of the transaction system: per key a list of versions and a write
    lock, a table of active transactions with their snapshot time, read set and buffered
    writes, and the commit times of committed transactions. Reads see the newest version
    committed at or before the reader's snapshot; writes are buffered under a per-key lock
    until commit appends one version per written key. The read-committed and
    read-uncommitted stores differ only in `read`. Clock readings are parameters. */
module Mvcc {
  import opened Common
  import opened Ordering

  type TxnId = nat

  /** A committed value of a key; a deletion is a version with `deleted` set. */
  datatype Version<V> = Version(value: Option<V>, txnId: TxnId, timestamp: int, deleted: bool)

  /** A buffered write or delete. */
  datatype Pending<V> = Pending(value: Option<V>, deleted: bool)

  /** The entry of `active_txns` (its `status` is always 'active'). */
  datatype TxnInfo<V> = TxnInfo(startTs: int, readSet: set<string>, writeSet: map<string, Pending<V>>)

  /** `MVCCRecord`; `lock_mode` is 'write' exactly when there is a holder. */
  datatype Record<V> = Record(versions: seq<Version<V>>, lockHolder: Option<TxnId>)

  datatype Error = NotActive | WriteConflict

  /** Which `read` the store has: `MVCCStore` (and `SnapshotIsolationStore`),
      `ReadCommittedStore` or `ReadUncommittedStore`. */
  datatype Kind = Snapshot | ReadCommitted | ReadUncommitted

  datatype State<V> = State(kind: Kind, data: map<string, Record<V>>, nextTxnId: nat,
                            activeTxns: map<TxnId, TxnInfo<V>>, committedTxns: map<TxnId, int>)

  function EmptyStore<V>(kind: Kind): State<V> {
    State(kind, map[], 1, map[], map[])
  }

  /** `self.data[key]` on the `defaultdict`: an absent key reads as an empty record. */
  function RecordAt<V>(data: map<string, Record<V>>, key: string): (r: Record<V>)
    ensures key !in data ==> r == Record([], None)
    ensures key in data ==> r == data[key]
  {
    GetOr(data, key, Record([], None))
  }

  /** What a read returns for a version or a buffered write: nothing once deleted. */
  function Shown<V>(v: Version<V>): Option<V> {
    if v.deleted then None else v.value
  }

  function PendingValue<V>(p: Pending<V>): Option<V> {
    if p.deleted then None else p.value
  }

  // ---------------------------------------------------------------------------------------
  // Visibility

  /** A version is visible to `reader` at `snapshotTs` when the reader wrote it, or its
      writer committed at or before the snapshot. */
  predicate SeenBy<V>(v: Version<V>, committed: map<TxnId, int>, reader: TxnId, snapshotTs: int) {
    v.txnId == reader || (v.txnId in committed && committed[v.txnId] <= snapshotTs)
  }

  /** The position of the newest visible version. */
  function NewestSeen<V>(vs: seq<Version<V>>, committed: map<TxnId, int>, reader: TxnId, snapshotTs: int): (r: Option<nat>)
    ensures r.Some? ==> r.value < |vs| && SeenBy(vs[r.value], committed, reader, snapshotTs)
    ensures r.Some? ==> forall j :: r.value < j < |vs| ==> !SeenBy(vs[j], committed, reader, snapshotTs)
    ensures r.None? ==> forall j :: 0 <= j < |vs| ==> !SeenBy(vs[j], committed, reader, snapshotTs)
    decreases |vs|
  {
    if |vs| == 0 then None
    else if SeenBy(vs[|vs| - 1], committed, reader, snapshotTs) then Some(|vs| - 1)
    else NewestSeen(vs[..|vs| - 1], committed, reader, snapshotTs)
  }

  /** The position of the newest version of a committed transaction. */
  function NewestCommitted<V>(vs: seq<Version<V>>, committed: map<TxnId, int>): (r: Option<nat>)
    ensures r.Some? ==> r.value < |vs| && vs[r.value].txnId in committed
    ensures r.Some? ==> forall j :: r.value < j < |vs| ==> vs[j].txnId !in committed
    ensures r.None? ==> forall j :: 0 <= j < |vs| ==> vs[j].txnId !in committed
    decreases |vs|
  {
    if |vs| == 0 then None
    else if vs[|vs| - 1].txnId in committed then Some(|vs| - 1)
    else NewestCommitted(vs[..|vs| - 1], committed)
  }

  /** The value of the version at a position, nothing for no position. */
  function ValueAt<V>(vs: seq<Version<V>>, i: Option<nat>): Option<V>
    requires i.Some? ==> i.value < |vs|
  {
    if i.None? then None else Shown(vs[i.value])
  }

  /** `_get_visible_version` for a reader whose snapshot time is `snapshotTs`. */
  function Visible<V>(vs: seq<Version<V>>, committed: map<TxnId, int>, reader: TxnId, snapshotTs: int): Option<V> {
    ValueAt(vs, NewestSeen(vs, committed, reader, snapshotTs))
  }

  // ---------------------------------------------------------------------------------------
  // The store's operations as transitions

  /** `begin_transaction()` at time `now`. */
  function Begin<V>(s: State<V>, now: int): (r: (State<V>, TxnId))
    ensures r.1 == s.nextTxnId && r.0.nextTxnId == s.nextTxnId + 1
    ensures r.0.activeTxns == s.activeTxns[s.nextTxnId := TxnInfo(now, {}, map[])]
    ensures r.0.data == s.data && r.0.committedTxns == s.committedTxns && r.0.kind == s.kind
  {
    (s.(nextTxnId := s.nextTxnId + 1, activeTxns := s.activeTxns[s.nextTxnId := TxnInfo(now, {}, map[])]), s.nextTxnId)
  }

  /** `read(txn_id, key)` of the plain (snapshot) store. */
  function SnapshotRead<V>(s: State<V>, t: TxnId, key: string): (State<V>, Option<V>, Option<Error>) {
    if t !in s.activeTxns then (s, None, Some(NotActive))
    else
      var info := s.activeTxns[t];
      if key in info.writeSet then (s, PendingValue(info.writeSet[key]), None)
      else
        var s' := s.(activeTxns := s.activeTxns[t := info.(readSet := info.readSet + {key})]);
        (s', Visible(RecordAt(s.data, key).versions, s.committedTxns, t, info.startTs), None)
  }

  /** `ReadCommittedStore.read`: the newest committed version, whenever it committed. */
  function ReadCommittedRead<V>(s: State<V>, t: TxnId, key: string): (State<V>, Option<V>, Option<Error>) {
    if t !in s.activeTxns then (s, None, Some(NotActive))
    else if key in s.activeTxns[t].writeSet then (s, PendingValue(s.activeTxns[t].writeSet[key]), None)
    else
      var vs := RecordAt(s.data, key).versions;
      (s, ValueAt(vs, NewestCommitted(vs, s.committedTxns)), None)
  }

  /** `ReadUncommittedStore.read` as written: the last version of the list, without looking
      at the reader's own buffered writes first. */
  function ReadUncommittedAsWritten<V>(s: State<V>, t: TxnId, key: string): (State<V>, Option<V>, Option<Error>) {
    if t !in s.activeTxns then (s, None, Some(NotActive))
    else
      var vs := RecordAt(s.data, key).versions;
      (s, if vs == [] then None else Shown(vs[|vs| - 1]), None)
  }

  /** The corrected read-uncommitted rule: the reader's own buffered write, as every other
      store's `read` returns it, else the last version of the list. */
  function ReadUncommittedRead<V>(s: State<V>, t: TxnId, key: string): (State<V>, Option<V>, Option<Error>) {
    if t !in s.activeTxns then (s, None, Some(NotActive))
    else if key in s.activeTxns[t].writeSet then (s, PendingValue(s.activeTxns[t].writeSet[key]), None)
    else ReadUncommittedAsWritten(s, t, key)
  }

  function ReadStep<V>(s: State<V>, t: TxnId, key: string): (State<V>, Option<V>, Option<Error>) {
    match s.kind
    case Snapshot => SnapshotRead(s, t, key)
    case ReadCommitted => ReadCommittedRead(s, t, key)
    case ReadUncommitted => ReadUncommittedAsWritten(s, t, key)
  }

  /** The read rules with the corrected read-uncommitted rule. */
  function ReadStepFixed<V>(s: State<V>, t: TxnId, key: string): (State<V>, Option<V>, Option<Error>) {
    if s.kind == ReadUncommitted then ReadUncommittedRead(s, t, key) else ReadStep(s, t, key)
  }

  /** `write` (`p` a value) and `delete` (`p` a deletion): take the key's lock and buffer
      the change. */
  function Buffer<V>(s: State<V>, t: TxnId, key: string, p: Pending<V>): (State<V>, bool, Option<Error>) {
    if t !in s.activeTxns then (s, false, Some(NotActive))
    else
      var rec := RecordAt(s.data, key);
      if rec.lockHolder.Some? && rec.lockHolder.value != t then (s, false, Some(WriteConflict))
      else
        var info := s.activeTxns[t];
        (s.(data := s.data[key := rec.(lockHolder := Some(t))],
            activeTxns := s.activeTxns[t := info.(writeSet := info.writeSet[key := p])]),
         true, None)
  }

  function WriteStep<V>(s: State<V>, t: TxnId, key: string, value: V): (State<V>, bool, Option<Error>) {
    Buffer(s, t, key, Pending(Some(value), false))
  }

  function DeleteStep<V>(s: State<V>, t: TxnId, key: string): (State<V>, bool, Option<Error>) {
    Buffer(s, t, key, Pending(None, true))
  }

  /** A record once transaction `t` commits its buffered change `p` at `ts`. */
  function CommitRecord<V>(rec: Record<V>, p: Pending<V>, t: TxnId, ts: int): Record<V> {
    Record(rec.versions + [Version(p.value, t, ts, p.deleted)], None)
  }

  /** The records once the writes of `done` are committed. */
  ghost function CommittedOn<V>(data: map<string, Record<V>>, ws: map<string, Pending<V>>, t: TxnId, ts: int,
                                done: set<string>): map<string, Record<V>>
    requires done <= ws.Keys
  {
    map k | k in data.Keys + done :: if k in done then CommitRecord(RecordAt(data, k), ws[k], t, ts) else data[k]
  }

  /** `commit(txn_id)` at time `now`. */
  ghost function CommitStep<V>(s: State<V>, t: TxnId, now: int): (State<V>, bool, Option<Error>) {
    if t !in s.activeTxns then (s, false, Some(NotActive))
    else
      var ws := s.activeTxns[t].writeSet;
      (s.(data := CommittedOn(s.data, ws, t, now, ws.Keys),
          committedTxns := s.committedTxns[t := now],
          activeTxns := s.activeTxns - {t}),
       true, None)
  }

  /** A record once `t` gives up its lock, if it holds it. */
  function Unlock<V>(rec: Record<V>, t: TxnId): Record<V> {
    if rec.lockHolder == Some(t) then rec.(lockHolder := None) else rec
  }

  /** The records once the locks of `done` are released. */
  ghost function ReleasedOn<V>(data: map<string, Record<V>>, t: TxnId, done: set<string>): map<string, Record<V>> {
    map k | k in data.Keys + done :: if k in done then Unlock(RecordAt(data, k), t) else data[k]
  }

  /** `abort(txn_id)`. */
  ghost function AbortStep<V>(s: State<V>, t: TxnId): (State<V>, bool, Option<Error>) {
    if t !in s.activeTxns then (s, false, Some(NotActive))
    else
      var ws := s.activeTxns[t].writeSet;
      (s.(data := ReleasedOn(s.data, t, ws.Keys), activeTxns := s.activeTxns - {t}), true, None)
  }

  // ---------------------------------------------------------------------------------------
  // Garbage collection

  /** Whether `gc_old_versions(before_ts)` keeps a version: its writer has not committed, or
      committed at or after `before_ts`. */
  predicate Keep<V>(v: Version<V>, committed: map<TxnId, int>, beforeTs: int) {
    v.txnId !in committed || committed[v.txnId] >= beforeTs
  }

  /** The versions the loop collects in `visible`. */
  function Kept<V>(vs: seq<Version<V>>, committed: map<TxnId, int>, beforeTs: int): (r: seq<Version<V>>)
    ensures |r| <= |vs|
    decreases |vs|
  {
    if |vs| == 0 then []
    else Kept(vs[..|vs| - 1], committed, beforeTs) + (if Keep(vs[|vs| - 1], committed, beforeTs) then [vs[|vs| - 1]] else [])
  }

  /** A record's version list after `gc_old_versions` as written: the kept versions, or the
      last version alone when none is kept. It drops the newest version committed before
      `before_ts` even when a later version exists, so a snapshot taken at or after
      `before_ts`, but before that later commit, loses what it reads. */
  function GcVersionsAsWritten<V>(vs: seq<Version<V>>, committed: map<TxnId, int>, beforeTs: int): seq<Version<V>> {
    var kept := Kept(vs, committed, beforeTs);
    if |kept| < |vs| then (if kept != [] then kept else vs[|vs| - 1..]) else vs
  }

  /** The corrected collection, scanning from the newest version: a version committed
      before `before_ts` is dropped only when a later version also committed before
      `before_ts` (`laterOld`) hides it from every snapshot at or after `before_ts`. */
  function Retained<V>(vs: seq<Version<V>>, committed: map<TxnId, int>, beforeTs: int, laterOld: bool): (r: seq<Version<V>>)
    decreases |vs|
  {
    if |vs| == 0 then []
    else
      var v := vs[|vs| - 1];
      var stale := !Keep(v, committed, beforeTs);
      Retained(vs[..|vs| - 1], committed, beforeTs, laterOld || stale) + (if stale && laterOld then [] else [v])
  }

  /** A record's version list after the corrected `gc_old_versions`. */
  function GcVersions<V>(vs: seq<Version<V>>, committed: map<TxnId, int>, beforeTs: int): seq<Version<V>> {
    Retained(vs, committed, beforeTs, false)
  }

  ghost function Gc<V>(s: State<V>, beforeTs: int): State<V> {
    s.(data := map k | k in s.data :: s.data[k].(versions := GcVersionsAsWritten(s.data[k].versions, s.committedTxns, beforeTs)))
  }

  /** The store after the corrected collection. */
  ghost function GcFixed<V>(s: State<V>, beforeTs: int): State<V> {
    s.(data := map k | k in s.data :: s.data[k].(versions := GcVersions(s.data[k].versions, s.committedTxns, beforeTs)))
  }

  // ---------------------------------------------------------------------------------------
  // The invariant

  /** Locks and buffered writes agree (a key is locked by `t` exactly when `t` is active and
      has buffered a change to it), every version was written by a committed transaction,
      and no transaction is both active and committed. */
  ghost predicate Inv<V>(s: State<V>) {
    (forall t :: t in s.activeTxns ==> t !in s.committedTxns) &&
    (forall k :: k in s.data && s.data[k].lockHolder.Some? ==>
      s.data[k].lockHolder.value in s.activeTxns && k in s.activeTxns[s.data[k].lockHolder.value].writeSet) &&
    (forall t, k :: t in s.activeTxns && k in s.activeTxns[t].writeSet ==> k in s.data && s.data[k].lockHolder == Some(t)) &&
    (forall k, i :: k in s.data && 0 <= i < |s.data[k].versions| ==> s.data[k].versions[i].txnId in s.committedTxns)
  }

  /** Transaction ids come from a counter: every id handed out is below it. */
  ghost predicate IdsBelow<V>(s: State<V>) {
    (forall t :: t in s.activeTxns ==> t < s.nextTxnId) && (forall t :: t in s.committedTxns ==> t < s.nextTxnId)
  }

  lemma EmptyInv<V>(kind: Kind)
    ensures Inv(EmptyStore<V>(kind)) && IdsBelow(EmptyStore<V>(kind))
  {
  }

  lemma BeginInv<V>(s: State<V>, now: int)
    requires Inv(s) && IdsBelow(s)
    ensures Inv(Begin(s, now).0) && IdsBelow(Begin(s, now).0)
  {
    var s' := Begin(s, now).0;
    forall k | k in s'.data && s'.data[k].lockHolder.Some?
      ensures s'.data[k].lockHolder.value in s'.activeTxns && k in s'.activeTxns[s'.data[k].lockHolder.value].writeSet
    {
      assert s'.data[k].lockHolder.value in s.activeTxns;
    }
  }

  lemma ReadInv<V>(s: State<V>, t: TxnId, key: string)
    requires Inv(s)
    ensures Inv(ReadStep(s, t, key).0)
    ensures IdsBelow(s) ==> IdsBelow(ReadStep(s, t, key).0)
  {
    var s' := ReadStep(s, t, key).0;
    assert s'.data == s.data && s'.committedTxns == s.committedTxns && s'.activeTxns.Keys == s.activeTxns.Keys;
    assert forall u :: u in s.activeTxns ==> s'.activeTxns[u].writeSet == s.activeTxns[u].writeSet;
  }

  lemma BufferInv<V>(s: State<V>, t: TxnId, key: string, p: Pending<V>)
    requires Inv(s)
    ensures Inv(Buffer(s, t, key, p).0)
    ensures IdsBelow(s) ==> IdsBelow(Buffer(s, t, key, p).0)
  {
    var (s', ok, _) := Buffer(s, t, key, p);
    if ok {
      forall k | k in s'.data && s'.data[k].lockHolder.Some?
        ensures s'.data[k].lockHolder.value in s'.activeTxns && k in s'.activeTxns[s'.data[k].lockHolder.value].writeSet
      {
        if k != key {
          assert s'.data[k] == s.data[k];
        }
      }
      forall u, k | u in s'.activeTxns && k in s'.activeTxns[u].writeSet
        ensures k in s'.data && s'.data[k].lockHolder == Some(u)
      {
      }
    }
  }

  lemma CommitInv<V>(s: State<V>, t: TxnId, now: int)
    requires Inv(s)
    ensures Inv(CommitStep(s, t, now).0)
    ensures IdsBelow(s) ==> IdsBelow(CommitStep(s, t, now).0)
  {
    var (s', ok, _) := CommitStep(s, t, now);
    if ok {
      var ws := s.activeTxns[t].writeSet;
      forall k | k in s'.data && s'.data[k].lockHolder.Some?
        ensures s'.data[k].lockHolder.value in s'.activeTxns && k in s'.activeTxns[s'.data[k].lockHolder.value].writeSet
      {
        assert k !in ws;
        assert s'.data[k] == s.data[k];
        assert s.data[k].lockHolder.value != t;
      }
      forall u, k | u in s'.activeTxns && k in s'.activeTxns[u].writeSet
        ensures k in s'.data && s'.data[k].lockHolder == Some(u)
      {
        assert s.data[k].lockHolder == Some(u);
        assert k !in ws;
      }
      forall k, i | k in s'.data && 0 <= i < |s'.data[k].versions|
        ensures s'.data[k].versions[i].txnId in s'.committedTxns
      {
        if k in ws {
          if i < |RecordAt(s.data, k).versions| {
            assert s'.data[k].versions[i] == RecordAt(s.data, k).versions[i];
          }
        }
      }
    }
  }

  lemma AbortInv<V>(s: State<V>, t: TxnId)
    requires Inv(s)
    ensures Inv(AbortStep(s, t).0)
    ensures IdsBelow(s) ==> IdsBelow(AbortStep(s, t).0)
  {
    var (s', ok, _) := AbortStep(s, t);
    if ok {
      var ws := s.activeTxns[t].writeSet;
      forall k | k in s'.data && s'.data[k].lockHolder.Some?
        ensures s'.data[k].lockHolder.value in s'.activeTxns && k in s'.activeTxns[s'.data[k].lockHolder.value].writeSet
      {
        assert s'.data[k] == s.data[k];
      }
      forall u, k | u in s'.activeTxns && k in s'.activeTxns[u].writeSet
        ensures k in s'.data && s'.data[k].lockHolder == Some(u)
      {
        assert s.data[k].lockHolder == Some(u);
      }
    }
  }

  lemma GcInv<V>(s: State<V>, beforeTs: int)
    requires Inv(s)
    ensures Inv(Gc(s, beforeTs))
    ensures IdsBelow(s) ==> IdsBelow(Gc(s, beforeTs))
  {
    var s' := Gc(s, beforeTs);
    forall k, i | k in s'.data && 0 <= i < |s'.data[k].versions|
      ensures s'.data[k].versions[i].txnId in s'.committedTxns
    {
      var vs := s.data[k].versions;
      GcAsWrittenShape(vs, s.committedTxns, beforeTs);
      assert s'.data[k].versions[i] in vs;
    }
  }

  lemma GcFixedInv<V>(s: State<V>, beforeTs: int)
    requires Inv(s)
    ensures Inv(GcFixed(s, beforeTs))
    ensures IdsBelow(s) ==> IdsBelow(GcFixed(s, beforeTs))
  {
    var s' := GcFixed(s, beforeTs);
    forall k, i | k in s'.data && 0 <= i < |s'.data[k].versions|
      ensures s'.data[k].versions[i].txnId in s'.committedTxns
    {
      var vs := s.data[k].versions;
      RetainedShape(vs, s.committedTxns, beforeTs, false);
      assert s'.data[k].versions[i] in vs;
    }
  }

  // ---------------------------------------------------------------------------------------
  // What the operations promise

  /** Every operation of a transaction that is not active answers 'transaction not active'
      and changes nothing. */
  lemma NotActiveRejected<V>(s: State<V>, t: TxnId, key: string, value: V, now: int)
    requires t !in s.activeTxns
    ensures ReadStep(s, t, key) == (s, None, Some(NotActive))
    ensures WriteStep(s, t, key, value) == (s, false, Some(NotActive)) && DeleteStep(s, t, key) == (s, false, Some(NotActive))
    ensures CommitStep(s, t, now) == (s, false, Some(NotActive)) && AbortStep(s, t) == (s, false, Some(NotActive))
  {
  }

  /** A key buffered by one active transaction cannot be written or deleted by another:
      the store answers 'write conflict' and changes nothing. */
  lemma WriteConflictUnchanged<V>(s: State<V>, holder: TxnId, t: TxnId, key: string, p: Pending<V>)
    requires Inv(s) && holder in s.activeTxns && key in s.activeTxns[holder].writeSet
    requires t in s.activeTxns && t != holder
    ensures Buffer(s, t, key, p) == (s, false, Some(WriteConflict))
  {
  }

  /** A successful write or delete is what the same transaction reads back, under every
      rule but read-uncommitted as written, and under the corrected read-uncommitted rule. */
  lemma ReadYourWrites<V>(s: State<V>, t: TxnId, key: string, p: Pending<V>)
    requires Buffer(s, t, key, p).1
    ensures ReadStepFixed(Buffer(s, t, key, p).0, t, key).1 == PendingValue(p)
    ensures ReadStepFixed(Buffer(s, t, key, p).0, t, key).2.None?
    ensures s.kind != ReadUncommitted ==> ReadStep(Buffer(s, t, key, p).0, t, key) == ReadStepFixed(Buffer(s, t, key, p).0, t, key)
  {
  }

  /** A snapshot read adds the key to the read set only when the key was not buffered. */
  lemma SnapshotReadSet<V>(s: State<V>, t: TxnId, key: string)
    requires s.kind == Snapshot && t in s.activeTxns
    ensures var s' := ReadStep(s, t, key).0;
      t in s'.activeTxns &&
      s'.activeTxns[t].readSet == s.activeTxns[t].readSet + (if key in s.activeTxns[t].writeSet then {} else {key})
  {
  }

  /** Committing appends exactly one version per buffered key, stamped with the commit time,
      and frees the lock; every other key keeps its record. */
  lemma CommitEffect<V>(s: State<V>, t: TxnId, now: int, key: string)
    requires t in s.activeTxns
    ensures var (s', ok, err) := CommitStep(s, t, now);
      ok && err.None? && t !in s'.activeTxns && s'.committedTxns == s.committedTxns[t := now]
    ensures var s' := CommitStep(s, t, now).0; var ws := s.activeTxns[t].writeSet;
      (key in ws ==>
        key in s'.data &&
        s'.data[key].versions == RecordAt(s.data, key).versions + [Version(ws[key].value, t, now, ws[key].deleted)] &&
        s'.data[key].lockHolder.None?) &&
      (key !in ws ==> (key in s'.data <==> key in s.data) && (key in s.data ==> s'.data[key] == s.data[key]))
  {
  }

  /** Aborting appends no version and releases exactly the locks the transaction holds. */
  lemma AbortEffect<V>(s: State<V>, t: TxnId, key: string)
    requires t in s.activeTxns
    ensures var (s', ok, err) := AbortStep(s, t);
      ok && err.None? && t !in s'.activeTxns && s'.committedTxns == s.committedTxns
    ensures var s' := AbortStep(s, t).0; var ws := s.activeTxns[t].writeSet;
      (key in s'.data ==> s'.data[key].versions == RecordAt(s.data, key).versions) &&
      (key in s'.data ==>
        s'.data[key].lockHolder == if key in ws && RecordAt(s.data, key).lockHolder == Some(t) then None else RecordAt(s.data, key).lockHolder)
  {
  }

  lemma NewestSeenSnoc<V>(vs: seq<Version<V>>, v: Version<V>, committed: map<TxnId, int>, reader: TxnId, ts: int)
    requires !SeenBy(v, committed, reader, ts)
    ensures NewestSeen(vs + [v], committed, reader, ts) == NewestSeen(vs, committed, reader, ts)
  {
    assert (vs + [v])[..|vs|] == vs;
  }

  /** A version list only the reader's snapshot decides on: changing the commit table at a
      transaction that wrote none of the versions changes no visibility. */
  lemma {:induction false} NewestSeenOther<V>(vs: seq<Version<V>>, committed: map<TxnId, int>, u: TxnId, ts': int,
                                              reader: TxnId, ts: int)
    requires forall i :: 0 <= i < |vs| ==> vs[i].txnId != u
    ensures NewestSeen(vs, committed[u := ts'], reader, ts) == NewestSeen(vs, committed, reader, ts)
    decreases |vs|
  {
    if |vs| > 0 {
      NewestSeenOther(vs[..|vs| - 1], committed, u, ts', reader, ts);
    }
  }

  /** Repeatable reads: a transaction committing after a reader's snapshot changes nothing
      the reader sees. */
  lemma SnapshotStable<V>(s: State<V>, reader: TxnId, t: TxnId, now: int, key: string)
    requires Inv(s) && s.kind == Snapshot
    requires reader in s.activeTxns && t in s.activeTxns && t != reader && now > s.activeTxns[reader].startTs
    ensures ReadStep(CommitStep(s, t, now).0, reader, key).1 == ReadStep(s, reader, key).1
  {
    var s' := CommitStep(s, t, now).0;
    var info := s.activeTxns[reader];
    assert s'.activeTxns[reader] == info;
    if key !in info.writeSet {
      var vs := RecordAt(s.data, key).versions;
      forall i | 0 <= i < |vs| ensures vs[i].txnId != t {
        assert vs[i].txnId in s.committedTxns;
      }
      NewestSeenOther(vs, s.committedTxns, t, now, reader, info.startTs);
      var ws := s.activeTxns[t].writeSet;
      if key in ws {
        var v := Version(ws[key].value, t, now, ws[key].deleted);
        assert RecordAt(s'.data, key).versions == vs + [v];
        NewestSeenSnoc(vs, v, s'.committedTxns, reader, info.startTs);
      } else {
        assert RecordAt(s'.data, key).versions == vs;
      }
    }
  }

  /** The committed-read rule sees a commit at once, whatever the reader's start time. */
  lemma ReadCommittedSeesCommit<V>(s: State<V>, reader: TxnId, t: TxnId, now: int, key: string)
    requires Inv(s) && s.kind == ReadCommitted
    requires reader in s.activeTxns && t in s.activeTxns && t != reader
    requires key in s.activeTxns[t].writeSet && key !in s.activeTxns[reader].writeSet
    ensures ReadStep(CommitStep(s, t, now).0, reader, key).1 == PendingValue(s.activeTxns[t].writeSet[key])
  {
    var s' := CommitStep(s, t, now).0;
    assert s'.activeTxns[reader] == s.activeTxns[reader];
  }

  /** The counterexample: in a fresh read-uncommitted store, transaction 1 writes 5 under
      "k" and then reads "k" back as nothing. */
  lemma ReadUncommittedMissesOwnWrite()
    ensures var s0 := Begin(EmptyStore<int>(ReadUncommitted), 0).0;
      var s1 := WriteStep(s0, 1, "k", 5);
      s1.1 && ReadStep(s1.0, 1, "k").1 == None && ReadStepFixed(s1.0, 1, "k").1 == Some(5)
  {
  }

  /** The read-uncommitted rule returns the last version in the list, whatever the reader
      has buffered; the corrected rule agrees with it exactly on the keys the reader has not
      written. */
  lemma ReadUncommittedLast<V>(s: State<V>, t: TxnId, key: string)
    requires s.kind == ReadUncommitted && t in s.activeTxns && RecordAt(s.data, key).versions != []
    ensures var vs := RecordAt(s.data, key).versions; ReadStep(s, t, key).1 == Shown(vs[|vs| - 1])
    ensures key !in s.activeTxns[t].writeSet ==> ReadStepFixed(s, t, key) == ReadStep(s, t, key)
  {
  }

  /** What `gc_old_versions` keeps: exactly the versions of uncommitted writers and of
      writers committed at or after `before_ts`, in order, or the last version when that
      would leave none; a non-empty list stays non-empty. */
  lemma {:induction false} KeptMembers<V>(vs: seq<Version<V>>, committed: map<TxnId, int>, beforeTs: int, v: Version<V>)
    ensures v in Kept(vs, committed, beforeTs) <==> v in vs && Keep(v, committed, beforeTs)
    decreases |vs|
  {
    if |vs| > 0 {
      var init := vs[..|vs| - 1];
      KeptMembers(init, committed, beforeTs, v);
      assert vs == init + [vs[|vs| - 1]];
    }
  }

  lemma GcAsWrittenShape<V>(vs: seq<Version<V>>, committed: map<TxnId, int>, beforeTs: int)
    ensures var r := GcVersionsAsWritten(vs, committed, beforeTs);
      (vs != [] ==> r != []) &&
      (forall v :: v in r ==> v in vs) &&
      (forall v :: v in vs && Keep(v, committed, beforeTs) ==> v in r)
  {
    forall v ensures v in Kept(vs, committed, beforeTs) <==> v in vs && Keep(v, committed, beforeTs) {
      KeptMembers(vs, committed, beforeTs, v);
    }
    var r := GcVersionsAsWritten(vs, committed, beforeTs);
    if vs != [] {
      assert vs[|vs| - 1..] == [vs[|vs| - 1]];
    }
    var kept := Kept(vs, committed, beforeTs);
    forall v | v in r ensures v in vs {
      if |kept| < |vs| {
        if kept == [] {
          assert v == vs[|vs| - 1];
        } else {
          KeptMembers(vs, committed, beforeTs, v);
        }
      }
    }
  }

  /** The counterexample: versions written by transactions 1 and 2, committed at 1 and 10;
      collecting before 5 leaves only the second, so transaction 3 with snapshot 6, which
      saw the first version's value, afterwards sees nothing. */
  lemma GcAsWrittenLosesSnapshot()
    ensures var committed := map[1 := 1, 2 := 10];
      var vs := [Version(Some(7), 1, 1, false), Version(Some(8), 2, 10, false)];
      Visible(vs, committed, 3, 6) == Some(7) &&
      Visible(GcVersionsAsWritten(vs, committed, 5), committed, 3, 6) == None
  {
    var committed := map[1 := 1, 2 := 10];
    var v1, v2 := Version(Some(7), 1, 1, false), Version(Some(8), 2, 10, false);
    var vs := [v1, v2];
    assert vs[..1] == [v1];
    assert Kept([v1], committed, 5) == [] by {
      assert [v1][..0] == [];
    }
    assert Kept(vs, committed, 5) == [v2];
    assert GcVersionsAsWritten(vs, committed, 5) == [v2];
    assert [v2][..0] == [];
  }

  /** The corrected collection keeps every version `gc_old_versions` keeps, keeps only
      versions it was given, and never empties a list. */
  lemma {:induction false} RetainedShape<V>(vs: seq<Version<V>>, committed: map<TxnId, int>, beforeTs: int, laterOld: bool)
    ensures var r := Retained(vs, committed, beforeTs, laterOld);
      (vs != [] && !laterOld ==> r != []) &&
      (forall v :: v in r ==> v in vs) &&
      (forall v :: v in vs && Keep(v, committed, beforeTs) ==> v in r)
    decreases |vs|
  {
    if |vs| > 0 {
      var init, v := vs[..|vs| - 1], vs[|vs| - 1];
      var stale := !Keep(v, committed, beforeTs);
      RetainedShape(init, committed, beforeTs, laterOld || stale);
      assert vs == init + [v];
    }
  }

  lemma NewestSeenLast<V>(vs: seq<Version<V>>, v: Version<V>, committed: map<TxnId, int>, reader: TxnId, ts: int)
    requires SeenBy(v, committed, reader, ts)
    ensures Visible(vs + [v], committed, reader, ts) == Shown(v)
  {
  }

  /** The corrected collection changes nothing a snapshot taken at or after `before_ts` sees,
      for any reader. */
  lemma {:induction false} GcPreservesSnapshots<V>(vs: seq<Version<V>>, committed: map<TxnId, int>, beforeTs: int,
                                                   reader: TxnId, snapshotTs: int)
    requires snapshotTs >= beforeTs
    ensures Visible(GcVersions(vs, committed, beforeTs), committed, reader, snapshotTs) == Visible(vs, committed, reader, snapshotTs)
    decreases |vs|
  {
    if |vs| > 0 {
      var init, v := vs[..|vs| - 1], vs[|vs| - 1];
      assert vs == init + [v];
      if SeenBy(v, committed, reader, snapshotTs) {
        NewestSeenLast(Retained(init, committed, beforeTs, !Keep(v, committed, beforeTs)), v, committed, reader, snapshotTs);
        NewestSeenLast(init, v, committed, reader, snapshotTs);
      } else {
        assert Keep(v, committed, beforeTs);
        GcPreservesSnapshots(init, committed, beforeTs, reader, snapshotTs);
        NewestSeenSnoc(GcVersions(init, committed, beforeTs), v, committed, reader, snapshotTs);
        NewestSeenSnoc(init, v, committed, reader, snapshotTs);
      }
    }
  }

  lemma {:induction false} KeptAll<V>(vs: seq<Version<V>>, committed: map<TxnId, int>, beforeTs: int)
    requires forall i :: 0 <= i < |vs| ==> Keep(vs[i], committed, beforeTs)
    ensures Kept(vs, committed, beforeTs) == vs
    decreases |vs|
  {
    if |vs| > 0 {
      KeptAll(vs[..|vs| - 1], committed, beforeTs);
      assert vs == vs[..|vs| - 1] + [vs[|vs| - 1]];
    }
  }

  lemma {:induction false} KeptNone<V>(vs: seq<Version<V>>, committed: map<TxnId, int>, beforeTs: int)
    requires forall i :: 0 <= i < |vs| ==> !Keep(vs[i], committed, beforeTs)
    ensures Kept(vs, committed, beforeTs) == []
    decreases |vs|
  {
    if |vs| > 0 {
      KeptNone(vs[..|vs| - 1], committed, beforeTs);
    }
  }

  /** A stale version makes the collected list shorter than the list. */
  lemma {:induction false} KeptShorter<V>(vs: seq<Version<V>>, committed: map<TxnId, int>, beforeTs: int, j: nat)
    requires j < |vs| && !Keep(vs[j], committed, beforeTs)
    ensures |Kept(vs, committed, beforeTs)| < |vs|
    decreases |vs|
  {
    if j < |vs| - 1 {
      KeptShorter(vs[..|vs| - 1], committed, beforeTs, j);
    }
  }

  lemma {:induction false} RetainedAll<V>(vs: seq<Version<V>>, committed: map<TxnId, int>, beforeTs: int)
    requires forall i :: 0 <= i < |vs| ==> Keep(vs[i], committed, beforeTs)
    ensures Retained(vs, committed, beforeTs, false) == vs
    decreases |vs|
  {
    if |vs| > 0 {
      RetainedAll(vs[..|vs| - 1], committed, beforeTs);
      assert vs == vs[..|vs| - 1] + [vs[|vs| - 1]];
    }
  }

  lemma {:induction false} RetainedNone<V>(vs: seq<Version<V>>, committed: map<TxnId, int>, beforeTs: int)
    requires forall i :: 0 <= i < |vs| ==> !Keep(vs[i], committed, beforeTs)
    ensures Retained(vs, committed, beforeTs, true) == []
    decreases |vs|
  {
    if |vs| > 0 {
      RetainedNone(vs[..|vs| - 1], committed, beforeTs);
    }
  }

  /** The corrected collection keeps the newest stale version. */
  lemma {:induction false} StaleRetained<V>(vs: seq<Version<V>>, committed: map<TxnId, int>, beforeTs: int, j: nat)
    returns (v: Version<V>)
    requires j < |vs| && !Keep(vs[j], committed, beforeTs)
    ensures v in Retained(vs, committed, beforeTs, false) && !Keep(v, committed, beforeTs)
    decreases |vs|
  {
    var init, last := vs[..|vs| - 1], vs[|vs| - 1];
    if !Keep(last, committed, beforeTs) {
      v := last;
    } else {
      v := StaleRetained(init, committed, beforeTs, j);
    }
  }

  /** `gc_old_versions` as written and the corrected collection agree on a list exactly when
      its versions are all kept or all stale. */
  lemma GcAgrees<V>(vs: seq<Version<V>>, committed: map<TxnId, int>, beforeTs: int)
    requires (forall i :: 0 <= i < |vs| ==> Keep(vs[i], committed, beforeTs)) ||
             (forall i :: 0 <= i < |vs| ==> !Keep(vs[i], committed, beforeTs))
    ensures GcVersionsAsWritten(vs, committed, beforeTs) == GcVersions(vs, committed, beforeTs)
  {
    if forall i :: 0 <= i < |vs| ==> Keep(vs[i], committed, beforeTs) {
      KeptAll(vs, committed, beforeTs);
      RetainedAll(vs, committed, beforeTs);
    } else if vs != [] {
      KeptNone(vs, committed, beforeTs);
      RetainedNone(vs[..|vs| - 1], committed, beforeTs);
      assert vs[|vs| - 1..] == [vs[|vs| - 1]];
    }
  }

  lemma GcDisagrees<V>(vs: seq<Version<V>>, committed: map<TxnId, int>, beforeTs: int, i: nat, j: nat)
    requires i < |vs| && j < |vs| && Keep(vs[i], committed, beforeTs) && !Keep(vs[j], committed, beforeTs)
    ensures GcVersionsAsWritten(vs, committed, beforeTs) != GcVersions(vs, committed, beforeTs)
  {
    var kept := Kept(vs, committed, beforeTs);
    KeptShorter(vs, committed, beforeTs, j);
    KeptMembers(vs, committed, beforeTs, vs[i]);
    var v := StaleRetained(vs, committed, beforeTs, j);
    KeptMembers(vs, committed, beforeTs, v);
    assert GcVersionsAsWritten(vs, committed, beforeTs) == kept;
  }

  // ---------------------------------------------------------------------------------------
  // The store object

  class MVCCStore<V(==)> {
    const kind: Kind
    var data: map<string, Record<V>>
    var nextTxnId: nat
    var activeTxns: map<TxnId, TxnInfo<V>>
    var committedTxns: map<TxnId, int>

    ghost function View(): State<V>
      reads this
    {
      State(kind, data, nextTxnId, activeTxns, committedTxns)
    }

    /** The store invariant, and every transaction id below `next_txn_id`. */
    ghost predicate Valid()
      reads this
    {
      Inv(View()) && IdsBelow(View())
    }

    /** `MVCCStore()`, `ReadCommittedStore()` or `ReadUncommittedStore()`. */
    constructor(kind: Kind)
      ensures View() == EmptyStore(kind) && Valid()
    {
      this.kind := kind;
      data, nextTxnId, activeTxns, committedTxns := map[], 1, map[], map[];
      EmptyInv<V>(kind);
    }

    /** `begin_transaction()` at time `now`. */
    method BeginTransaction(now: int) returns (t: TxnId)
      modifies this
      ensures (View(), t) == Begin(old(View()), now)
      ensures old(Valid()) ==> Valid()
    {
      if Valid() {
        BeginInv(View(), now);
      }
      t := nextTxnId;
      nextTxnId := nextTxnId + 1;
      activeTxns := activeTxns[t := TxnInfo(now, {}, map[])];
    }

    /** `_get_visible_version(key, txn_id)` for an active reader: the reverse scan. */
    method GetVisibleVersion(key: string, reader: TxnId, snapshotTs: int) returns (r: Option<V>)
      ensures r == Visible(RecordAt(data, key).versions, committedTxns, reader, snapshotTs)
    {
      if key !in data || data[key].versions == [] {
        return None;
      }
      var vs := data[key].versions;
      var i := |vs|;
      while i > 0
        invariant 0 <= i <= |vs|
        invariant forall j :: i <= j < |vs| ==> !SeenBy(vs[j], committedTxns, reader, snapshotTs)
        invariant NewestSeen(vs, committedTxns, reader, snapshotTs) == NewestSeen(vs[..i], committedTxns, reader, snapshotTs)
      {
        var v := vs[i - 1];
        assert vs[..i][..i - 1] == vs[..i - 1];
        if v.txnId == reader {
          return if v.deleted then None else v.value;
        }
        if v.txnId in committedTxns {
          var commitTs := committedTxns[v.txnId];
          if commitTs <= snapshotTs {
            return if v.deleted then None else v.value;
          }
        }
        i := i - 1;
      }
      return None;
    }

    /** The loop of `ReadCommittedStore.read`: the newest committed version. */
    method NewestCommittedValue(key: string) returns (r: Option<V>)
      ensures var vs := RecordAt(data, key).versions; r == ValueAt(vs, NewestCommitted(vs, committedTxns))
    {
      if key !in data || data[key].versions == [] {
        return None;
      }
      var vs := data[key].versions;
      var i := |vs|;
      while i > 0
        invariant 0 <= i <= |vs|
        invariant NewestCommitted(vs, committedTxns) == NewestCommitted(vs[..i], committedTxns)
      {
        var v := vs[i - 1];
        assert vs[..i][..i - 1] == vs[..i - 1];
        if v.txnId in committedTxns {
          return if v.deleted then None else v.value;
        }
        i := i - 1;
      }
      return None;
    }

    /** `read(txn_id, key)` of the store's kind. */
    method Read(t: TxnId, key: string) returns (value: Option<V>, err: Option<Error>)
      modifies this
      ensures (View(), value, err) == ReadStep(old(View()), t, key)
      ensures old(Valid()) ==> Valid()
    {
      if Valid() {
        ReadInv(View(), t, key);
      }
      if t !in activeTxns {
        return None, Some(NotActive);
      }
      var info := activeTxns[t];
      match kind {
        case ReadUncommitted =>
          if key !in data || data[key].versions == [] {
            return None, None;
          }
          var latest := data[key].versions[|data[key].versions| - 1];
          return (if latest.deleted then None else latest.value), None;
        case ReadCommitted =>
          if key in info.writeSet {
            var pending := info.writeSet[key];
            return (if pending.deleted then None else pending.value), None;
          }
          value := NewestCommittedValue(key);
          return value, None;
        case Snapshot =>
          if key in info.writeSet {
            var pending := info.writeSet[key];
            return (if pending.deleted then None else pending.value), None;
          }
          activeTxns := activeTxns[t := info.(readSet := info.readSet + {key})];
          value := GetVisibleVersion(key, t, info.startTs);
          return value, None;
      }
    }

    /** The common body of `write` and `delete`. */
    method BufferChange(t: TxnId, key: string, p: Pending<V>) returns (ok: bool, err: Option<Error>)
      modifies this
      ensures (View(), ok, err) == Buffer(old(View()), t, key, p)
      ensures old(Valid()) ==> Valid()
    {
      if Valid() {
        BufferInv(View(), t, key, p);
      }
      if t !in activeTxns {
        return false, Some(NotActive);
      }
      var rec := RecordAt(data, key);
      if rec.lockHolder.Some? && rec.lockHolder.value != t {
        return false, Some(WriteConflict);
      }
      data := data[key := rec.(lockHolder := Some(t))];
      var info := activeTxns[t];
      activeTxns := activeTxns[t := info.(writeSet := info.writeSet[key := p])];
      return true, None;
    }

    /** `write(txn_id, key, value)`. */
    method Write(t: TxnId, key: string, value: V) returns (ok: bool, err: Option<Error>)
      modifies this
      ensures (View(), ok, err) == WriteStep(old(View()), t, key, value)
      ensures old(Valid()) ==> Valid()
    {
      ok, err := BufferChange(t, key, Pending(Some(value), false));
    }

    /** `delete(txn_id, key)`. */
    method Delete(t: TxnId, key: string) returns (ok: bool, err: Option<Error>)
      modifies this
      ensures (View(), ok, err) == DeleteStep(old(View()), t, key)
      ensures old(Valid()) ==> Valid()
    {
      ok, err := BufferChange(t, key, Pending(None, true));
    }

    /** `commit(txn_id)` at time `now`. */
    method Commit(t: TxnId, now: int) returns (ok: bool, err: Option<Error>)
      modifies this
      ensures (View(), ok, err) == CommitStep(old(View()), t, now)
      ensures old(Valid()) ==> Valid()
    {
      if Valid() {
        CommitInv(View(), t, now);
      }
      if t !in activeTxns {
        return false, Some(NotActive);
      }
      var ws := activeTxns[t].writeSet;
      data := CommitWrites(data, ws, t, now);
      committedTxns := committedTxns[t := now];
      activeTxns := activeTxns - {t};
      return true, None;
    }

    /** `abort(txn_id)`. */
    method Abort(t: TxnId) returns (ok: bool, err: Option<Error>)
      modifies this
      ensures (View(), ok, err) == AbortStep(old(View()), t)
      ensures old(Valid()) ==> Valid()
    {
      if Valid() {
        AbortInv(View(), t);
      }
      if t !in activeTxns {
        return false, Some(NotActive);
      }
      data := ReleaseLocks(data, activeTxns[t].writeSet.Keys, t);
      activeTxns := activeTxns - {t};
      return true, None;
    }

    /** `gc_old_versions(before_ts)`. */
    method GcOldVersions(beforeTs: int)
      modifies this
      ensures View() == Gc(old(View()), beforeTs)
      ensures old(Valid()) ==> Valid()
    {
      if Valid() {
        GcInv(View(), beforeTs);
      }
      data := GcRecords(data, committedTxns, beforeTs);
    }
  }

  /** The loop of `commit` over the buffered writes (each key has its own record, so the
      order of the keys does not matter). */
  method CommitWrites<V>(data0: map<string, Record<V>>, ws: map<string, Pending<V>>, t: TxnId, ts: int)
    returns (data: map<string, Record<V>>)
    ensures data == CommittedOn(data0, ws, t, ts, ws.Keys)
  {
    var todo := ws.Keys;
    data := data0;
    while todo != {}
      invariant todo <= ws.Keys
      invariant forall k :: k in data <==> k in data0 || (k in ws && k !in todo)
      invariant forall k :: k in data ==>
        data[k] == if k in ws && k !in todo then CommitRecord(RecordAt(data0, k), ws[k], t, ts) else data0[k]
      decreases |todo|
    {
      var k :| k in todo;
      var record := RecordAt(data, k);
      var pending := ws[k];
      data := data[k := Record(record.versions + [Version(pending.value, t, ts, pending.deleted)], None)];
      todo := todo - {k};
    }
    MapExt(data, CommittedOn(data0, ws, t, ts, ws.Keys));
  }

  /** The loop of `abort` over the buffered writes. */
  method ReleaseLocks<V>(data0: map<string, Record<V>>, keys: set<string>, t: TxnId)
    returns (data: map<string, Record<V>>)
    ensures data == ReleasedOn(data0, t, keys)
  {
    var todo := keys;
    data := data0;
    while todo != {}
      invariant todo <= keys
      invariant forall k :: k in data <==> k in data0 || (k in keys && k !in todo)
      invariant forall k :: k in data ==>
        data[k] == if k in keys && k !in todo then Unlock(RecordAt(data0, k), t) else data0[k]
      decreases |todo|
    {
      var k :| k in todo;
      var record := RecordAt(data, k);
      if record.lockHolder == Some(t) {
        record := record.(lockHolder := None);
      }
      data := data[k := record];
      todo := todo - {k};
    }
    MapExt(data, ReleasedOn(data0, t, keys));
  }

  /** The inner loop of `gc_old_versions`: the versions collected in `visible`. */
  method KeptVersions<V>(vs: seq<Version<V>>, committed: map<TxnId, int>, beforeTs: int) returns (visible: seq<Version<V>>)
    ensures visible == Kept(vs, committed, beforeTs)
  {
    visible := [];
    for i := 0 to |vs|
      invariant visible == Kept(vs[..i], committed, beforeTs)
    {
      assert vs[..i + 1][..i] == vs[..i];
      var v := vs[i];
      if v.txnId in committed {
        if committed[v.txnId] >= beforeTs {
          visible := visible + [v];
        }
      } else {
        visible := visible + [v];
      }
    }
    assert vs[..|vs|] == vs;
  }

  /** The corrected inner loop, from the newest version back. */
  method RetainedVersions<V>(vs: seq<Version<V>>, committed: map<TxnId, int>, beforeTs: int) returns (visible: seq<Version<V>>)
    ensures visible == GcVersions(vs, committed, beforeTs)
  {
    visible := [];
    var laterOld := false;
    var i := |vs|;
    assert vs[..i] == vs;
    while i > 0
      invariant 0 <= i <= |vs|
      invariant Retained(vs, committed, beforeTs, false) == Retained(vs[..i], committed, beforeTs, laterOld) + visible
    {
      var v := vs[i - 1];
      assert vs[..i][..i - 1] == vs[..i - 1];
      var stale := v.txnId in committed && committed[v.txnId] < beforeTs;
      if !(stale && laterOld) {
        visible := [v] + visible;
      }
      laterOld := laterOld || stale;
      i := i - 1;
    }
    assert vs[..|vs|] == vs;
  }

  /** The body of `gc_old_versions` for one record: collect, then replace the list when
      something was dropped. */
  method CollectVersions<V>(vs: seq<Version<V>>, committed: map<TxnId, int>, beforeTs: int) returns (r: seq<Version<V>>)
    ensures r == GcVersionsAsWritten(vs, committed, beforeTs)
  {
    var visible := KeptVersions(vs, committed, beforeTs);
    r := vs;
    if |visible| < |vs| {
      if visible != [] {
        r := visible;
      } else {
        r := vs[|vs| - 1..];
      }
    }
  }

  /** The outer loop of `gc_old_versions` over the records. */
  method GcRecords<V>(data0: map<string, Record<V>>, committed: map<TxnId, int>, beforeTs: int)
    returns (data: map<string, Record<V>>)
    ensures data == map k | k in data0 :: data0[k].(versions := GcVersionsAsWritten(data0[k].versions, committed, beforeTs))
  {
    var todo := data0.Keys;
    data := data0;
    while todo != {}
      invariant todo <= data0.Keys && data.Keys == data0.Keys
      invariant forall k :: k in data0 ==>
        data[k] == if k in todo then data0[k] else data0[k].(versions := GcVersionsAsWritten(data0[k].versions, committed, beforeTs))
      decreases |todo|
    {
      var k :| k in todo;
      var record := data[k];
      var visible := CollectVersions(record.versions, committed, beforeTs);
      data := data[k := record.(versions := visible)];
      todo := todo - {k};
    }
  }
}
