/** The deterministic state machines a Raft log drives: a key-value store, a lock service, a
    versioned configuration store and a per-group leader election. Each `apply` interprets one
    committed command and records the entry's index as last applied. */
module StateMachines {
  import opened Common

  /** A JSON value as the commands carry it: None is JSON null, any other value is an
      uninterpreted text compared only for equality. */
  type Json = Option<string>

  /** `d.get(k)`: null for a missing key. */
  function Lookup<K>(m: map<K, Json>, k: K): Json {
    if k in m then m[k] else None
  }

  // ---------------------------------------------------------------------------------------
  // Key-value store

  datatype KvCommand =
    | KvSet(key: string, value: Json)
    | KvGet(key: string)
    | KvDelete(key: string)
    | KvCas(key: string, expected: Json, value: Json)
    | KvUnknown

  datatype KvResult = KvOk | KvValue(value: Json) | KvSwapped | KvNotSwapped(current: Json) | KvUnknownOp

  function KvApply(data: map<string, Json>, cmd: KvCommand): (map<string, Json>, KvResult) {
    match cmd
    case KvSet(k, v) => (data[k := v], KvOk)
    case KvGet(k) => (data, KvValue(Lookup(data, k)))
    case KvDelete(k) => (data - {k}, KvOk)
    case KvCas(k, expected, v) =>
      var current := Lookup(data, k);
      if current == expected then (data[k := v], KvSwapped) else (data, KvNotSwapped(current))
    case KvUnknown => (data, KvUnknownOp)
  }

  /** A set is seen by the next get of that key. */
  lemma KvSetThenGet(data: map<string, Json>, k: string, v: Json)
    ensures KvApply(KvApply(data, KvSet(k, v)).0, KvGet(k)).1 == KvValue(v)
  {
  }

  /** A delete removes exactly its key, and deleting an absent key changes nothing. */
  lemma KvDeleteRule(data: map<string, Json>, k: string)
    ensures var d := KvApply(data, KvDelete(k)).0;
      k !in d && (forall j :: j != k ==> (j in d <==> j in data) && (j in d ==> d[j] == data[j])) &&
      (k !in data ==> d == data)
  {
  }

  /** Compare-and-swap writes exactly when the current value equals the expected one;
      otherwise nothing changes and the current value is reported. */
  lemma KvCasRule(data: map<string, Json>, k: string, expected: Json, v: Json)
    ensures var (d, r) := KvApply(data, KvCas(k, expected, v));
      (r == KvSwapped <==> Lookup(data, k) == expected) &&
      (r == KvSwapped ==> d == data[k := v]) &&
      (r != KvSwapped ==> d == data && r == KvNotSwapped(Lookup(data, k)))
  {
  }

  /** Only set, delete and a successful compare-and-swap change the data. */
  lemma KvReadsChangeNothing(data: map<string, Json>, cmd: KvCommand)
    requires cmd.KvGet? || cmd.KvUnknown?
    ensures KvApply(data, cmd).0 == data
  {
  }

  datatype KvSnapshot = KvSnapshot(data: map<string, Json>, lastApplied: int)

  class KeyValueStateMachine {
    var data: map<string, Json>
    var lastApplied: int

    constructor ()
      ensures data == map[] && lastApplied == 0
    {
      data, lastApplied := map[], 0;
    }

    method Apply(index: int, cmd: KvCommand) returns (result: KvResult)
      modifies this
      ensures (data, result) == KvApply(old(data), cmd)
      ensures lastApplied == index
    {
      match cmd {
        case KvSet(k, v) =>
          data := data[k := v];
          result := KvOk;
        case KvGet(k) =>
          result := KvValue(Lookup(data, k));
        case KvDelete(k) =>
          data := data - {k};
          result := KvOk;
        case KvCas(k, expected, v) =>
          var current := Lookup(data, k);
          if current == expected {
            data := data[k := v];
            result := KvSwapped;
          } else {
            result := KvNotSwapped(current);
          }
        case KvUnknown =>
          result := KvUnknownOp;
      }
      lastApplied := index;
    }

    /** `get(key)`: the stored value, null for a missing key. */
    function Get(k: string): (r: Json)
      reads this
      ensures k in data ==> r == data[k]
      ensures k !in data ==> r == None
    {
      Lookup(data, k)
    }

    /** `snapshot()`: a copy of the data and `last_applied`, which `restore` takes back. */
    function Snapshot(): (r: KvSnapshot)
      reads this
      ensures r.data == data && r.lastApplied == lastApplied
    {
      KvSnapshot(data, lastApplied)
    }

    method Restore(snapshot: KvSnapshot)
      modifies this
      ensures Snapshot() == snapshot
    {
      data, lastApplied := snapshot.data, snapshot.lastApplied;
    }
  }

  // ---------------------------------------------------------------------------------------
  // Lock service. A lock maps to its holder; None means free. The lock name and the owner
  // come from `command.get`, so either may be null.

  datatype LockOp = Acquire | Release | Status | LockUnknown
  datatype LockCommand = LockCommand(op: LockOp, lock: Json, owner: Json)

  datatype LockResult =
    | Acquired
    | AlreadyHeld
    | Refused(holder: Json)
    | Released
    | NotHolder
    | LockStatus(lock: Json, holder: Json)
    | LockUnknownOp

  function LockApply(locks: map<Json, Json>, cmd: LockCommand): (map<Json, Json>, LockResult) {
    var name, owner := cmd.lock, cmd.owner;
    match cmd.op
    case Acquire =>
      if name !in locks || locks[name] == None then (locks[name := owner], Acquired)
      else if locks[name] == owner then (locks, AlreadyHeld)
      else (locks, Refused(locks[name]))
    case Release =>
      if Lookup(locks, name) == owner then (locks[name := None], Released) else (locks, NotHolder)
    case Status => (locks, LockStatus(name, Lookup(locks, name)))
    case LockUnknown => (locks, LockUnknownOp)
  }

  /** An acquire succeeds exactly on a free lock, is reported as already held for the
      holder itself, and is refused for anyone else with the holder unchanged. */
  lemma AcquireRule(locks: map<Json, Json>, name: Json, owner: Json)
    ensures var (l, r) := LockApply(locks, LockCommand(Acquire, name, owner));
      (r == Acquired <==> Lookup(locks, name) == None) &&
      (r == Acquired ==> l == locks[name := owner]) &&
      (r == AlreadyHeld <==> Lookup(locks, name) != None && Lookup(locks, name) == owner) &&
      (r.Refused? <==> Lookup(locks, name) != None && Lookup(locks, name) != owner) &&
      (r != Acquired ==> l == locks)
  {
  }

  /** A release frees the lock only for its current holder; anyone else changes nothing. */
  lemma ReleaseRule(locks: map<Json, Json>, name: Json, owner: Json)
    ensures var (l, r) := LockApply(locks, LockCommand(Release, name, owner));
      (r == Released <==> Lookup(locks, name) == owner) &&
      (r == Released ==> l == locks[name := None]) &&
      (r != Released ==> l == locks && r == NotHolder)
  {
  }

  /** Mutual exclusion: once a lock is held, another owner cannot take it. */
  lemma HeldLockExcludesOthers(locks: map<Json, Json>, name: Json, a: Json, b: Json)
    requires a != None && a != b
    ensures var l := LockApply(locks, LockCommand(Acquire, name, a)).0;
      LockApply(locks, LockCommand(Acquire, name, a)).1 == Acquired ==>
        LockApply(l, LockCommand(Acquire, name, b)) == (l, Refused(a))
  {
  }

  datatype LockSnapshot = LockSnapshot(locks: map<Json, Json>, lastApplied: int)

  class LockStateMachine {
    var locks: map<Json, Json>
    var lastApplied: int

    constructor ()
      ensures locks == map[] && lastApplied == 0
    {
      locks, lastApplied := map[], 0;
    }

    method Apply(index: int, cmd: LockCommand) returns (result: LockResult)
      modifies this
      ensures (locks, result) == LockApply(old(locks), cmd)
      ensures lastApplied == index
    {
      var name, owner := cmd.lock, cmd.owner;
      match cmd.op {
        case Acquire =>
          if name !in locks || locks[name] == None {
            locks := locks[name := owner];
            result := Acquired;
          } else if locks[name] == owner {
            result := AlreadyHeld;
          } else {
            result := Refused(locks[name]);
          }
        case Release =>
          if Lookup(locks, name) == owner {
            locks := locks[name := None];
            result := Released;
          } else {
            result := NotHolder;
          }
        case Status =>
          result := LockStatus(name, Lookup(locks, name));
        case LockUnknown =>
          result := LockUnknownOp;
      }
      lastApplied := index;
    }

    /** `snapshot()`: a copy of the locks and `last_applied`, which `restore` takes back. */
    function Snapshot(): (r: LockSnapshot)
      reads this
      ensures r.locks == locks && r.lastApplied == lastApplied
    {
      LockSnapshot(locks, lastApplied)
    }

    method Restore(snapshot: LockSnapshot)
      modifies this
      ensures Snapshot() == snapshot
    {
      locks, lastApplied := snapshot.locks, snapshot.lastApplied;
    }
  }

  // ---------------------------------------------------------------------------------------
  // Versioned configuration store

  datatype BatchOp = BatchSet(key: string, value: Json) | BatchDelete(key: string) | BatchOther

  datatype ConfigCommand =
    | ConfigSet(key: string, value: Json)
    | ConfigGet(key: string)
    | ConfigDelete(key: string)
    | ConfigList(prefix: string)
    | ConfigBatch(ops: seq<BatchOp>)
    | ConfigUnknown

  datatype ConfigResult =
    | Version(version: int)
    | Value(value: Json, version: int)
    | Listing(config: map<string, Json>, version: int)
    | ConfigUnknownOp

  /** The batch's operations applied in order; an operation other than set or delete is
      skipped. */
  function ApplyBatch(config: map<string, Json>, ops: seq<BatchOp>): map<string, Json>
    decreases |ops|
  {
    if |ops| == 0 then config
    else
      var c := ApplyBatch(config, ops[..|ops| - 1]);
      match ops[|ops| - 1]
      case BatchSet(k, v) => c[k := v]
      case BatchDelete(k) => c - {k}
      case BatchOther => c
  }

  /** The entries whose key starts with `prefix`. */
  function WithPrefix(config: map<string, Json>, prefix: string): map<string, Json> {
    map k | k in config && prefix <= k :: config[k]
  }

  function ConfigApply(config: map<string, Json>, version: int, cmd: ConfigCommand)
    : (map<string, Json>, int, ConfigResult)
  {
    match cmd
    case ConfigSet(k, v) => (config[k := v], version + 1, Version(version + 1))
    case ConfigGet(k) => (config, version, Value(Lookup(config, k), version))
    case ConfigDelete(k) => (config - {k}, version + 1, Version(version + 1))
    case ConfigList(prefix) => (config, version, Listing(WithPrefix(config, prefix), version))
    case ConfigBatch(ops) => (ApplyBatch(config, ops), version + 1, Version(version + 1))
    case ConfigUnknown => (config, version, ConfigUnknownOp)
  }

  /** The version goes up by exactly one on set, delete and batch, and stays put otherwise;
      reads never change the configuration. */
  lemma ConfigVersionRule(config: map<string, Json>, version: int, cmd: ConfigCommand)
    ensures var (c, v, r) := ConfigApply(config, version, cmd);
      v == (if cmd.ConfigSet? || cmd.ConfigDelete? || cmd.ConfigBatch? then version + 1 else version) &&
      (!(cmd.ConfigSet? || cmd.ConfigDelete? || cmd.ConfigBatch?) ==> c == config)
  {
  }

  /** `list` returns exactly the keys that start with the prefix, with their values. */
  lemma ConfigListRule(config: map<string, Json>, prefix: string, k: string)
    ensures k in WithPrefix(config, prefix) <==> k in config && prefix <= k
    ensures k in WithPrefix(config, prefix) ==> WithPrefix(config, prefix)[k] == config[k]
  {
  }

  /** After a batch, a key holds the value of its last set in the batch, is absent if its
      last operation was a delete, and is untouched if the batch never names it. */
  lemma {:induction false} BatchLastWins(config: map<string, Json>, ops: seq<BatchOp>, k: string)
    ensures var c := ApplyBatch(config, ops);
      (forall i :: 0 <= i < |ops| ==> !Names(ops[i], k)) ==> Lookup(c, k) == Lookup(config, k) && (k in c <==> k in config)
    ensures var c := ApplyBatch(config, ops);
      |ops| > 0 && ops[|ops| - 1] == BatchDelete(k) ==> k !in c
    ensures var c := ApplyBatch(config, ops);
      forall v :: |ops| > 0 && ops[|ops| - 1] == BatchSet(k, v) ==> k in c && c[k] == v
    decreases |ops|
  {
    if |ops| > 0 {
      BatchLastWins(config, ops[..|ops| - 1], k);
      assert forall i :: 0 <= i < |ops| - 1 ==> ops[..|ops| - 1][i] == ops[i];
    }
  }

  predicate Names(op: BatchOp, k: string) {
    (op.BatchSet? && op.key == k) || (op.BatchDelete? && op.key == k)
  }

  datatype ConfigSnapshot = ConfigSnapshot(config: map<string, Json>, version: int, lastApplied: int)

  class ConfigStateMachine {
    var config: map<string, Json>
    var version: int
    var lastApplied: int

    constructor ()
      ensures config == map[] && version == 0 && lastApplied == 0
    {
      config, version, lastApplied := map[], 0, 0;
    }

    method Apply(index: int, cmd: ConfigCommand) returns (result: ConfigResult)
      modifies this
      ensures (config, version, result) == ConfigApply(old(config), old(version), cmd)
      ensures lastApplied == index
    {
      match cmd {
        case ConfigSet(k, v) =>
          config := config[k := v];
          version := version + 1;
          result := Version(version);
        case ConfigGet(k) =>
          result := Value(Lookup(config, k), version);
        case ConfigDelete(k) =>
          config := config - {k};
          version := version + 1;
          result := Version(version);
        case ConfigList(prefix) =>
          result := Listing(WithPrefix(config, prefix), version);
        case ConfigBatch(ops) =>
          var i := 0;
          while i < |ops|
            invariant 0 <= i <= |ops|
            invariant config == ApplyBatch(old(config), ops[..i]) && version == old(version)
          {
            assert ops[..i + 1][..i] == ops[..i] && ops[..i + 1][i] == ops[i];
            match ops[i] {
              case BatchSet(k, v) => config := config[k := v];
              case BatchDelete(k) => config := config - {k};
              case BatchOther =>
            }
            i := i + 1;
          }
          assert ops[..i] == ops;
          version := version + 1;
          result := Version(version);
        case ConfigUnknown =>
          result := ConfigUnknownOp;
      }
      lastApplied := index;
    }

    /** `snapshot()`: a copy of the configuration, its version and `last_applied`, which
        `restore` takes back. */
    function Snapshot(): (r: ConfigSnapshot)
      reads this
      ensures r.config == config && r.version == version && r.lastApplied == lastApplied
    {
      ConfigSnapshot(config, version, lastApplied)
    }

    method Restore(snapshot: ConfigSnapshot)
      modifies this
      ensures Snapshot() == snapshot
    {
      config, version, lastApplied := snapshot.config, snapshot.version, snapshot.lastApplied;
    }
  }

  // ---------------------------------------------------------------------------------------
  // Leader election per group

  datatype Leadership = Leadership(leader: Json, term: int)

  datatype ElectionOp = Campaign | Resign | Heartbeat | GetLeader | ElectionUnknown
  datatype ElectionCommand = ElectionCommand(op: ElectionOp, group: Json, node: Json)

  datatype ElectionResult =
    | Elected(term: int)
    | NotElected(currentLeader: Json)
    | Resigned
    | Renewed
    | NotTheLeader
    | LeaderOf(leader: Json, leaderTerm: Option<int>)
    | ElectionUnknownOp

  predicate IsLeader(leaders: map<Json, Leadership>, group: Json, node: Json) {
    group in leaders && leaders[group].leader == node
  }

  function ElectionApply(leaders: map<Json, Leadership>, cmd: ElectionCommand)
    : (map<Json, Leadership>, ElectionResult)
  {
    var g, n := cmd.group, cmd.node;
    match cmd.op
    case Campaign =>
      if g !in leaders then (leaders[g := Leadership(n, 1)], Elected(1))
      else if leaders[g].leader == None then
        (leaders[g := Leadership(n, leaders[g].term + 1)], Elected(leaders[g].term + 1))
      else (leaders, NotElected(leaders[g].leader))
    case Resign =>
      if IsLeader(leaders, g, n) then (leaders[g := leaders[g].(leader := None)], Resigned)
      else (leaders, NotTheLeader)
    case Heartbeat => (leaders, if IsLeader(leaders, g, n) then Renewed else NotTheLeader)
    case GetLeader =>
      (leaders, if g in leaders then LeaderOf(leaders[g].leader, Some(leaders[g].term)) else LeaderOf(None, None))
    case ElectionUnknown => (leaders, ElectionUnknownOp)
  }

  /** No command forgets a group or lowers its term. */
  lemma ElectionTermsNeverDecrease(leaders: map<Json, Leadership>, cmd: ElectionCommand)
    ensures var l := ElectionApply(leaders, cmd).0;
      forall g :: g in leaders ==> g in l && l[g].term >= leaders[g].term
  {
  }

  /** A campaign wins only for a new group (term 1) or a group without a leader (next term);
      it never unseats a sitting leader. */
  lemma CampaignRule(leaders: map<Json, Leadership>, g: Json, n: Json)
    ensures var (l, r) := ElectionApply(leaders, ElectionCommand(Campaign, g, n));
      (r.Elected? <==> g !in leaders || leaders[g].leader == None) &&
      (r.Elected? ==>
        l == leaders[g := Leadership(n, r.term)] &&
        r.term == (if g in leaders then leaders[g].term + 1 else 1)) &&
      (!r.Elected? ==> l == leaders && r == NotElected(leaders[g].leader))
  {
  }

  /** Only the sitting leader can resign; its term is kept and the seat is left empty. */
  lemma ResignRule(leaders: map<Json, Leadership>, g: Json, n: Json)
    ensures var (l, r) := ElectionApply(leaders, ElectionCommand(Resign, g, n));
      (r == Resigned <==> IsLeader(leaders, g, n)) &&
      (r == Resigned ==> l[g] == Leadership(None, leaders[g].term)) &&
      (r != Resigned ==> l == leaders)
  {
  }

  datatype ElectionSnapshot = ElectionSnapshot(leaders: map<Json, Leadership>, lastApplied: int)

  class LeaderElectionStateMachine {
    var leaders: map<Json, Leadership>
    var lastApplied: int

    constructor ()
      ensures leaders == map[] && lastApplied == 0
    {
      leaders, lastApplied := map[], 0;
    }

    method Apply(index: int, cmd: ElectionCommand) returns (result: ElectionResult)
      modifies this
      ensures (leaders, result) == ElectionApply(old(leaders), cmd)
      ensures lastApplied == index
    {
      var g, n := cmd.group, cmd.node;
      match cmd.op {
        case Campaign =>
          if g !in leaders {
            leaders := leaders[g := Leadership(n, 1)];
            result := Elected(1);
          } else {
            var current := leaders[g];
            if current.leader == None {
              leaders := leaders[g := Leadership(n, current.term + 1)];
              result := Elected(leaders[g].term);
            } else {
              result := NotElected(current.leader);
            }
          }
        case Resign =>
          if g in leaders && leaders[g].leader == n {
            leaders := leaders[g := leaders[g].(leader := None)];
            result := Resigned;
          } else {
            result := NotTheLeader;
          }
        case Heartbeat =>
          result := if g in leaders && leaders[g].leader == n then Renewed else NotTheLeader;
        case GetLeader =>
          result := if g in leaders then LeaderOf(leaders[g].leader, Some(leaders[g].term)) else LeaderOf(None, None);
        case ElectionUnknown =>
          result := ElectionUnknownOp;
      }
      lastApplied := index;
    }

    /** `snapshot()`: the leaders table and `last_applied`, which `restore` takes back. */
    function Snapshot(): (r: ElectionSnapshot)
      reads this
      ensures r.leaders == leaders && r.lastApplied == lastApplied
    {
      ElectionSnapshot(leaders, lastApplied)
    }

    method Restore(snapshot: ElectionSnapshot)
      modifies this
      ensures Snapshot() == snapshot
    {
      leaders, lastApplied := snapshot.leaders, snapshot.lastApplied;
    }
  }
}
