/** The reduce side of the batch pipeline: the k-way merge of sorted map outputs, the pass
    that hands each run of equal keys to the reduce function, the sorting and secondary-sort
    variants, the stock reduce functions, and the reducer that runs several reduce functions
    over one grouping. The partition files are their record sequences (a missing file reads
    as an empty one); the output files are the record sequences written to them. */
module Reducer {
  import opened Common
  import opened Ordering
  import Sorting

  /** A run of consecutive records sharing a key, as `process_partition` collects it. */
  datatype Run<V> = Run(key: string, values: seq<V>)

  /** The maximal runs of equal consecutive keys of a record stream. */
  function Runs<V>(s: seq<(string, V)>): seq<Run<V>>
    decreases |s|
  {
    if |s| == 0 then []
    else
      Extend(Runs(s[..|s| - 1]), s[|s| - 1].0, s[|s| - 1].1)
  }

  /** The runs after one more record `(k, v)`: it extends the last run or opens a new one. */
  function Extend<V>(rs: seq<Run<V>>, k: string, v: V): seq<Run<V>> {
    if |rs| > 0 && rs[|rs| - 1].key == k then rs[..|rs| - 1] + [Run(k, rs[|rs| - 1].values + [v])]
    else rs + [Run(k, [v])]
  }

  /** The records a list of runs stands for. */
  function Flatten<V>(rs: seq<Run<V>>): seq<(string, V)>
    decreases |rs|
  {
    if |rs| == 0 then [] else Flatten(rs[..|rs| - 1]) + Pairs(rs[|rs| - 1])
  }

  function Pairs<V>(r: Run<V>): (s: seq<(string, V)>)
    ensures |s| == |r.values|
  {
    seq(|r.values|, i requires 0 <= i < |r.values| => (r.key, r.values[i]))
  }

  /** Runs are non-empty and neighbouring runs have different keys. */
  ghost predicate Maximal<V>(rs: seq<Run<V>>) {
    (forall i :: 0 <= i < |rs| ==> |rs[i].values| > 0) &&
    (forall i :: 0 <= i < |rs| - 1 ==> rs[i].key != rs[i + 1].key)
  }

  lemma FlattenSnoc<V>(rs: seq<Run<V>>, r: Run<V>)
    ensures Flatten(rs + [r]) == Flatten(rs) + Pairs(r)
  {
    assert (rs + [r])[..|rs|] == rs;
  }

  /** One more record adds exactly that record to what the runs stand for. */
  lemma FlattenExtend<V>(rs: seq<Run<V>>, k: string, v: V)
    ensures Flatten(Extend(rs, k, v)) == Flatten(rs) + [(k, v)]
  {
    if |rs| > 0 && rs[|rs| - 1].key == k {
      var last, front := rs[|rs| - 1], rs[..|rs| - 1];
      assert rs == front + [last];
      FlattenSnoc(front, last);
      FlattenSnoc(front, Run(k, last.values + [v]));
      assert Pairs(Run(k, last.values + [v])) == Pairs(last) + [(k, v)];
    } else {
      FlattenSnoc(rs, Run(k, [v]));
      assert Pairs(Run(k, [v])) == [(k, v)];
    }
  }

  lemma MaximalExtend<V>(rs: seq<Run<V>>, k: string, v: V)
    requires Maximal(rs)
    ensures Maximal(Extend(rs, k, v))
  {
  }

  /** One step of `Runs`. */
  lemma RunsSnoc<V>(s: seq<(string, V)>, k: string, v: V)
    ensures Runs(s + [(k, v)]) == Extend(Runs(s), k, v)
  {
    assert (s + [(k, v)])[..|s|] == s;
  }

  /** The runs cover the stream exactly, in order. */
  lemma {:induction false} RunsFlatten<V>(s: seq<(string, V)>)
    ensures Flatten(Runs(s)) == s
    decreases |s|
  {
    if |s| > 0 {
      var init, k, v := s[..|s| - 1], s[|s| - 1].0, s[|s| - 1].1;
      assert s == init + [(k, v)];
      RunsFlatten(init);
      RunsSnoc(init, k, v);
      FlattenExtend(Runs(init), k, v);
    }
  }

  /** Runs are non-empty and neighbouring runs have different keys. */
  lemma {:induction false} RunsMaximal<V>(s: seq<(string, V)>)
    ensures Maximal(Runs(s))
    decreases |s|
  {
    if |s| > 0 {
      var init, k, v := s[..|s| - 1], s[|s| - 1].0, s[|s| - 1].1;
      assert s == init + [(k, v)];
      RunsMaximal(init);
      RunsSnoc(init, k, v);
      MaximalExtend(Runs(init), k, v);
    }
  }

  /** Extending by a key no smaller than the last run's keeps the run keys strictly ascending. */
  lemma SortedExtend<V>(rs: seq<Run<V>>, k: string, v: V)
    requires SortedStrict(RunKeys(rs))
    requires |rs| > 0 ==> StrLe(rs[|rs| - 1].key, k)
    ensures SortedStrict(RunKeys(Extend(rs, k, v)))
    ensures RunKeys(Extend(rs, k, v))[|Extend(rs, k, v)| - 1] == k
  {
    var ks, ks' := RunKeys(rs), RunKeys(Extend(rs, k, v));
    if |rs| > 0 && rs[|rs| - 1].key == k {
      assert ks' == ks;
    } else {
      assert ks' == ks + [k];
      forall i | 0 <= i < |rs| ensures StrLt(ks[i], k) {
        if i < |rs| - 1 {
          StrLtTransitive2(ks[i], ks[|rs| - 1], k);
        }
      }
    }
  }

  /** The last run carries the key of the last record. */
  lemma RunsLast<V>(s: seq<(string, V)>)
    requires |s| > 0
    ensures |Runs(s)| > 0 && Runs(s)[|Runs(s)| - 1].key == s[|s| - 1].0
  {
  }

  /** Each record's key is at least the previous one's: a stream sorted by key. */
  ghost predicate KeysAscend<V>(s: seq<(string, V)>) {
    forall i :: 0 < i < |s| ==> StrLe(s[i - 1].0, s[i].0)
  }

  lemma KeysAscendInit<V>(s: seq<(string, V)>)
    requires KeysAscend(s) && |s| > 0
    ensures KeysAscend(s[..|s| - 1])
    ensures |s| > 1 ==> StrLe(s[..|s| - 1][|s| - 2].0, s[|s| - 1].0)
  {
    var init := s[..|s| - 1];
    forall i | 0 < i < |init| ensures StrLe(init[i - 1].0, init[i].0) {
      assert init[i - 1] == s[i - 1] && init[i] == s[i];
    }
  }

  /** On a stream sorted by key every key forms one run: the run keys strictly ascend. */
  lemma {:induction false} RunsOfSorted<V>(s: seq<(string, V)>)
    requires KeysAscend(s)
    ensures SortedStrict(RunKeys(Runs(s)))
    decreases |s|
  {
    if |s| > 0 {
      var init, k, v := s[..|s| - 1], s[|s| - 1].0, s[|s| - 1].1;
      KeysAscendInit(s);
      RunsOfSorted(init);
      assert s == init + [(k, v)];
      RunsSnoc(init, k, v);
      if |init| > 0 {
        RunsLast(init);
      }
      SortedExtend(Runs(init), k, v);
    }
  }

  lemma StrLtTransitive2(a: string, b: string, c: string)
    requires StrLt(a, b) && StrLe(b, c)
    ensures StrLt(a, c)
  {
    if b != c {
      StrLtTransitive(a, b, c);
    }
  }

  function RunKeys<V>(rs: seq<Run<V>>): (ks: seq<string>)
    ensures |ks| == |rs|
  {
    seq(|rs|, i requires 0 <= i < |rs| => rs[i].key)
  }

  /** The output lines of `process_partition`: one `{'k': key, 'v': result}` per run. */
  function Reduced<V, R>(rs: seq<Run<V>>, reduce: (string, seq<V>) -> R): (out: seq<(string, R)>)
    ensures |out| == |rs|
  {
    seq(|rs|, i requires 0 <= i < |rs| => (rs[i].key, reduce(rs[i].key, rs[i].values)))
  }

  /** The state of the run-collecting loop after the records `done`. */
  ghost predicate Collected<V, R>(done: seq<(string, V)>, reduce: (string, seq<V>) -> R,
                                  currentKey: Option<string>, currentValues: seq<V>, out: seq<(string, R)>, count: nat)
  {
    var rs := Runs(done);
    if |done| == 0 then currentKey.None? && out == [] && count == 0
    else
      |rs| > 0 && currentKey == Some(rs[|rs| - 1].key) && currentValues == rs[|rs| - 1].values &&
      out == Reduced(rs[..|rs| - 1], reduce) && count == |rs| - 1
  }

  lemma CollectStep<V, R>(done: seq<(string, V)>, reduce: (string, seq<V>) -> R, currentKey: Option<string>,
                          currentValues: seq<V>, out: seq<(string, R)>, count: nat, k: string, v: V)
    requires Collected(done, reduce, currentKey, currentValues, out, count)
    ensures currentKey != Some(k) && currentKey.Some? ==>
      Collected(done + [(k, v)], reduce, Some(k), [v], out + [(currentKey.value, reduce(currentKey.value, currentValues))], count + 1)
    ensures currentKey.None? ==> Collected(done + [(k, v)], reduce, Some(k), [v], out, count)
    ensures currentKey == Some(k) ==> Collected(done + [(k, v)], reduce, Some(k), currentValues + [v], out, count)
  {
    var s := done + [(k, v)];
    assert s[..|s| - 1] == done;
    var rs := Runs(done);
    if |done| > 0 && currentKey != Some(k) {
      var rs' := rs + [Run(k, [v])];
      assert rs'[..|rs'| - 1] == rs;
      assert rs == rs[..|rs| - 1] + [rs[|rs| - 1]];
      assert Reduced(rs, reduce) == Reduced(rs[..|rs| - 1], reduce) + [(rs[|rs| - 1].key, reduce(rs[|rs| - 1].key, rs[|rs| - 1].values))];
    } else if |done| > 0 {
      var rs' := rs[..|rs| - 1] + [Run(k, rs[|rs| - 1].values + [v])];
      assert rs'[..|rs'| - 1] == rs[..|rs| - 1];
    } else {
      assert Runs(s) == [Run(k, [v])];
    }
  }

  /** The loop of `process_partition` over a sorted record stream: the lines written and
      the record count. */
  method ProcessRuns<V, R>(records: seq<(string, V)>, reduce: (string, seq<V>) -> R)
    returns (out: seq<(string, R)>, count: nat)
    ensures out == Reduced(Runs(records), reduce)
    ensures count == |Runs(records)|
  {
    var currentKey: Option<string> := None;
    var currentValues: seq<V> := [];
    out, count := [], 0;
    var i := 0;
    while i < |records|
      invariant 0 <= i <= |records|
      invariant Collected(records[..i], reduce, currentKey, currentValues, out, count)
    {
      var (key, value) := records[i];
      CollectStep(records[..i], reduce, currentKey, currentValues, out, count, key, value);
      if currentKey != Some(key) {
        if currentKey.Some? {
          out := out + [(currentKey.value, reduce(currentKey.value, currentValues))];
          count := count + 1;
        }
        currentKey := Some(key);
        currentValues := [value];
      } else {
        currentValues := currentValues + [value];
      }
      PrefixSnoc(records, i);
      i := i + 1;
    }
    assert records[..i] == records;
    CollectFinish(records, reduce, currentKey, currentValues, out, count);
    if currentKey.Some? {
      out := out + [(currentKey.value, reduce(currentKey.value, currentValues))];
      count := count + 1;
    }
  }

  /** After the loop the last run still has to be written. */
  lemma CollectFinish<V, R>(records: seq<(string, V)>, reduce: (string, seq<V>) -> R, currentKey: Option<string>,
                            currentValues: seq<V>, out: seq<(string, R)>, count: nat)
    requires Collected(records, reduce, currentKey, currentValues, out, count)
    ensures currentKey.None? ==> out == Reduced(Runs(records), reduce) && count == |Runs(records)|
    ensures currentKey.Some? ==>
      out + [(currentKey.value, reduce(currentKey.value, currentValues))] == Reduced(Runs(records), reduce) &&
      count + 1 == |Runs(records)|
  {
    var rs := Runs(records);
    if currentKey.Some? {
      assert rs == rs[..|rs| - 1] + [rs[|rs| - 1]];
      assert Reduced(rs, reduce) == Reduced(rs[..|rs| - 1], reduce) + [(rs[|rs| - 1].key, reduce(rs[|rs| - 1].key, rs[|rs| - 1].values))];
    } else {
      assert |records| == 0;
    }
  }

  // ---------------------------------------------------------------------------------------
  // The k-way merge of `Reducer._merge_sort`

  /** A map-output record `{'k': key, 'v': value}` with an integer value. */
  type Rec = (string, int)

  /** Python's tuple order on `(key, value)`. */
  predicate RecLt(a: Rec, b: Rec) {
    StrLt(a.0, b.0) || (a.0 == b.0 && a.1 < b.1)
  }

  predicate RecLe(a: Rec, b: Rec) {
    a == b || RecLt(a, b)
  }

  lemma RecLeTotal(a: Rec, b: Rec)
    ensures RecLe(a, b) || RecLe(b, a)
  {
    StrLtTotal(a.0, b.0);
  }

  lemma RecLeTransitive(a: Rec, b: Rec, c: Rec)
    requires RecLe(a, b) && RecLe(b, c)
    ensures RecLe(a, c)
  {
    if a != b && b != c && a.0 != b.0 && b.0 != c.0 {
      StrLtTransitive(a.0, b.0, c.0);
    }
  }

  lemma RecLeAntisymmetric(a: Rec, b: Rec)
    requires RecLe(a, b) && RecLe(b, a)
    ensures a == b
  {
    if a != b {
      if a.0 == b.0 {
        StrLtIrreflexive(a.0);
      } else {
        StrLtAsymmetric(a.0, b.0);
      }
    }
  }

  lemma RecLtNotLe(a: Rec, b: Rec)
    ensures RecLt(a, b) ==> !RecLe(b, a)
  {
    StrLtIrreflexive(a.0);
    if RecLt(a, b) && RecLe(b, a) {
      RecLeAntisymmetric(a, b);
    }
  }

  predicate SortedRecs(s: seq<Rec>) {
    forall i, j :: 0 <= i < j < |s| ==> RecLe(s[i], s[j])
  }

  /** The partition files as `_merge_sort` sees them: a missing file (`None`) yields nothing. */
  function Present(files: seq<Option<seq<Rec>>>): (rest: seq<seq<Rec>>)
    ensures |rest| == |files|
  {
    seq(|files|, i requires 0 <= i < |files| => if files[i].Some? then files[i].value else [])
  }

  /** The number of records still unread. */
  function Total(rest: seq<seq<Rec>>): nat
    decreases |rest|
  {
    if |rest| == 0 then 0 else |rest[0]| + Total(rest[1..])
  }

  /** The records still unread, as a bag. */
  function Bag(rest: seq<seq<Rec>>): multiset<Rec>
    decreases |rest|
  {
    if |rest| == 0 then multiset{} else multiset(rest[0]) + Bag(rest[1..])
  }

  /** Reading the head of file `b` removes one record from what is left. */
  lemma {:induction false} PopFile(rest: seq<seq<Rec>>, b: nat)
    requires b < |rest| && |rest[b]| > 0
    ensures Total(rest[b := rest[b][1..]]) + 1 == Total(rest)
    ensures Bag(rest[b := rest[b][1..]]) + multiset{rest[b][0]} == Bag(rest)
    decreases b
  {
    var rest' := rest[b := rest[b][1..]];
    if b == 0 {
      assert rest'[1..] == rest[1..];
      assert rest[0] == [rest[0][0]] + rest[0][1..];
    } else {
      PopFile(rest[1..], b - 1);
      assert rest'[1..] == rest[1..][b - 1 := rest[b][1..]];
    }
  }

  /** A record is unread exactly when some file still holds it. */
  lemma {:induction false} BagHas(rest: seq<seq<Rec>>, x: Rec)
    ensures x in Bag(rest) <==> exists j :: 0 <= j < |rest| && x in rest[j]
    decreases |rest|
  {
    if |rest| > 0 {
      BagHas(rest[1..], x);
      if x in Bag(rest[1..]) {
        var j :| 0 <= j < |rest[1..]| && x in rest[1..][j];
        assert x in rest[j + 1];
      }
      if exists j :: 0 <= j < |rest| && x in rest[j] {
        var j :| 0 <= j < |rest| && x in rest[j];
        if j > 0 {
          assert x in rest[1..][j - 1];
        }
      }
    }
  }

  /** The heap entry `heappop` would return among the heads of the first `n` files: the least
      `(key, value)`, the lowest file index on a tie (heap entries are `(k, v, i)`). */
  function Best(rest: seq<seq<Rec>>, n: nat): (b: Option<nat>)
    requires n <= |rest|
    ensures b.Some? ==> b.value < n && |rest[b.value]| > 0
    decreases n
  {
    if n == 0 then None
    else
      var b := Best(rest, n - 1);
      if |rest[n - 1]| == 0 then b
      else if b.None? || RecLt(rest[n - 1][0], rest[b.value][0]) then Some(n - 1)
      else b
  }

  /** `Best` finds a head exactly when one exists, and the head it finds is least, and
      the first among equal heads. */
  lemma {:induction false} BestIsLeast(rest: seq<seq<Rec>>, n: nat)
    requires n <= |rest|
    ensures Best(rest, n).None? <==> forall j :: 0 <= j < n ==> |rest[j]| == 0
    ensures Best(rest, n).Some? ==> forall j :: 0 <= j < n && |rest[j]| > 0 ==>
      RecLe(rest[Best(rest, n).value][0], rest[j][0]) &&
      (rest[j][0] == rest[Best(rest, n).value][0] ==> Best(rest, n).value <= j)
    decreases n
  {
    if n > 0 {
      BestIsLeast(rest, n - 1);
      var b := Best(rest, n - 1);
      if |rest[n - 1]| > 0 && b.Some? {
        var h, x := rest[b.value][0], rest[n - 1][0];
        RecLeTotal(h, x);
        if RecLt(x, h) {
          forall j | 0 <= j < n && |rest[j]| > 0 ensures RecLe(x, rest[j][0]) && (rest[j][0] == x ==> n - 1 <= j) {
            if j < n - 1 {
              RecLeTransitive(x, h, rest[j][0]);
              RecLtNotLe(x, h);
            }
          }
        }
      }
    }
  }

  /** The record stream `_merge_sort` yields from the unread files `rest`. */
  function MergeFrom(rest: seq<seq<Rec>>): seq<Rec>
    decreases Total(rest)
  {
    match Best(rest, |rest|)
    case None => []
    case Some(b) =>
      PopFile(rest, b);
      [rest[b][0]] + MergeFrom(rest[b := rest[b][1..]])
  }

  /** The merge yields every input record, each as often as it occurs. */
  lemma {:induction false} MergePermutation(rest: seq<seq<Rec>>)
    ensures multiset(MergeFrom(rest)) == Bag(rest)
    decreases Total(rest)
  {
    match Best(rest, |rest|)
    case None =>
      BestIsLeast(rest, |rest|);
      NoneLeft(rest);
    case Some(b) =>
      PopFile(rest, b);
      MergePermutation(rest[b := rest[b][1..]]);
  }

  lemma {:induction false} NoneLeft(rest: seq<seq<Rec>>)
    requires forall j :: 0 <= j < |rest| ==> |rest[j]| == 0
    ensures Bag(rest) == multiset{}
    decreases |rest|
  {
    if |rest| > 0 {
      NoneLeft(rest[1..]);
    }
  }

  /** Every file is sorted by `(key, value)`. */
  ghost predicate AllSorted(rest: seq<seq<Rec>>) {
    forall j :: 0 <= j < |rest| ==> SortedRecs(rest[j])
  }

  lemma PopSorted(rest: seq<seq<Rec>>, b: nat)
    requires AllSorted(rest) && b < |rest| && |rest[b]| > 0
    ensures AllSorted(rest[b := rest[b][1..]])
  {
    var rest' := rest[b := rest[b][1..]];
    forall j | 0 <= j < |rest'| ensures SortedRecs(rest'[j]) {
      assert SortedRecs(rest[j]);
    }
  }

  /** The record `heappop` returns is no greater than anything still unread. */
  lemma HeadBelow(rest: seq<seq<Rec>>, b: nat, x: Rec)
    requires AllSorted(rest) && Best(rest, |rest|) == Some(b)
    requires x in Bag(rest[b := rest[b][1..]])
    ensures RecLe(rest[b][0], x)
  {
    var rest' := rest[b := rest[b][1..]];
    var h := rest[b][0];
    BagHas(rest', x);
    var j :| 0 <= j < |rest'| && x in rest'[j];
    var m :| 0 <= m < |rest'[j]| && rest'[j][m] == x;
    assert SortedRecs(rest[j]);
    if j == b {
      assert rest[b][m + 1] == x;
    } else {
      assert rest[j][m] == x;
      BestIsLeast(rest, |rest|);
      RecLeTransitive(h, rest[j][0], x);
    }
  }

  /** When every file is sorted, the merge is sorted. */
  lemma {:induction false} MergeSorted(rest: seq<seq<Rec>>)
    requires AllSorted(rest)
    ensures SortedRecs(MergeFrom(rest))
    decreases Total(rest)
  {
    match Best(rest, |rest|)
    case None =>
    case Some(b) =>
      var h := rest[b][0];
      var rest' := rest[b := rest[b][1..]];
      PopFile(rest, b);
      PopSorted(rest, b);
      MergeSorted(rest');
      var tail := MergeFrom(rest');
      MergePermutation(rest');
      forall k | 0 <= k < |tail| ensures RecLe(h, tail[k]) {
        assert tail[k] in multiset(tail);
        HeadBelow(rest, b, tail[k]);
      }
      assert MergeFrom(rest) == [h] + tail;
  }

  /** All input records, in order: the existing files one after another. */
  function Concat(files: seq<Option<seq<Rec>>>): seq<Rec>
    decreases |files|
  {
    if |files| == 0 then []
    else Concat(files[..|files| - 1]) + (if files[|files| - 1].Some? then files[|files| - 1].value else [])
  }

  // ---------------------------------------------------------------------------------------
  // `_merge_sort` as written, with a missing partition file

  /** A heap entry `(k, v, i)`: a record and the position of its file in `partition_files`. */
  datatype Entry = Entry(rec: Rec, idx: nat)

  predicate EntryLt(a: Entry, b: Entry) {
    RecLt(a.rec, b.rec) || (a.rec == b.rec && a.idx < b.idx)
  }

  /** The position of the entry `heappop` returns: the first least entry. */
  function MinEntry(heap: seq<Entry>): (m: nat)
    requires |heap| > 0
    ensures m < |heap|
    decreases |heap|
  {
    if |heap| == 1 then 0
    else
      var m := MinEntry(heap[..|heap| - 1]);
      if EntryLt(heap[|heap| - 1], heap[m]) then |heap| - 1 else m
  }

  /** `file_handles`: the existing files only, each after its first `readline`. */
  function Opened(files: seq<Option<seq<Rec>>>): seq<seq<Rec>>
    decreases |files|
  {
    if |files| == 0 then []
    else
      var f := files[|files| - 1];
      Opened(files[..|files| - 1]) + (if f.None? then [] else if |f.value| == 0 then [[]] else [f.value[1..]])
  }

  /** The first heap: the first line of every existing non-empty file, tagged with the file's
      position in `partition_files`. */
  function Seeded(files: seq<Option<seq<Rec>>>): seq<Entry>
    decreases |files|
  {
    if |files| == 0 then []
    else
      var f := files[|files| - 1];
      Seeded(files[..|files| - 1]) +
        (if f.Some? && |f.value| > 0 then [Entry(f.value[0], |files| - 1)] else [])
  }

  /** The `while heap` loop as written: the next line is read from `file_handles[file_idx]`,
      although `file_idx` counts missing files too. None is the `IndexError` raised when
      `file_idx` is past the end of `file_handles`. */
  function DrainAsWritten(handles: seq<seq<Rec>>, heap: seq<Entry>): Option<seq<Rec>>
    decreases Total(handles) + |heap|
  {
    if |heap| == 0 then Some([])
    else
      var m := MinEntry(heap);
      var e := heap[m];
      var heap' := heap[..m] + heap[m + 1..];
      if e.idx >= |handles| then None
      else if |handles[e.idx]| == 0 then
        match DrainAsWritten(handles, heap')
        case None => None
        case Some(r) => Some([e.rec] + r)
      else
        PopFile(handles, e.idx);
        match DrainAsWritten(handles[e.idx := handles[e.idx][1..]], heap' + [Entry(handles[e.idx][0], e.idx)])
        case None => None
        case Some(r) => Some([e.rec] + r)
  }

  function MergeAsWritten(files: seq<Option<seq<Rec>>>): Option<seq<Rec>> {
    DrainAsWritten(Opened(files), Seeded(files))
  }

  /** A missing first file and a second file with one record: as written, the merge pops the
      record of file 1 and then reads `file_handles[1]` of a one-element list, while the merge
      that reads missing files as empty yields the record. */
  lemma MissingFileBreaksMerge()
    ensures MergeAsWritten([None, Some([("a", 1)])]) == None
    ensures MergeFrom(Present([None, Some([("a", 1)])])) == [("a", 1)]
  {
    var files: seq<Option<seq<Rec>>> := [None, Some([("a", 1)])];
    assert files[..1] == [None] && files[..1][..0] == [];
    assert Opened(files[..1]) == [];
    assert files[1].value[1..] == [];
    assert Opened(files) == [[]];
    assert Seeded(files) == [Entry(("a", 1), 1)];
    var rest := Present(files);
    assert rest == [[], [("a", 1)]];
    assert Best(rest, 2) == Some(1);
    var rest' := rest[1 := rest[1][1..]];
    assert rest' == [[], []];
    assert Best(rest', 2) == None;
  }

  /** The record a file contributes to the heap, if it has an entry there. */
  function HeadOf(heap: seq<Entry>, i: nat): (r: Option<Rec>)
    ensures r.Some? ==> Entry(r.value, i) in heap
    ensures r.None? ==> forall j :: 0 <= j < |heap| ==> heap[j].idx != i
  {
    if |heap| == 0 then None
    else if heap[|heap| - 1].idx == i then Some(heap[|heap| - 1].rec)
    else HeadOf(heap[..|heap| - 1], i)
  }

  predicate DistinctIdx(heap: seq<Entry>) {
    forall j, l :: 0 <= j < l < |heap| ==> heap[j].idx != heap[l].idx
  }

  /** The heap and the open files agree: every entry names an open file, no file has two
      entries, and a file without an entry has nothing left to read. */
  predicate HeapOk(handles: seq<seq<Rec>>, heap: seq<Entry>) {
    DistinctIdx(heap) && (forall j :: 0 <= j < |heap| ==> heap[j].idx < |handles|) &&
    forall i :: 0 <= i < |handles| && HeadOf(heap, i).None? ==> handles[i] == []
  }

  /** What each file still has to give: its heap entry's record, then its unread lines. */
  function Unread(handles: seq<seq<Rec>>, heap: seq<Entry>): (rest: seq<seq<Rec>>)
    ensures |rest| == |handles|
  {
    seq(|handles|, i requires 0 <= i < |handles| =>
      match HeadOf(heap, i)
      case None => []
      case Some(x) => [x] + handles[i])
  }

  lemma HeadOfUnique(heap: seq<Entry>, j: nat)
    requires DistinctIdx(heap) && j < |heap|
    ensures HeadOf(heap, heap[j].idx) == Some(heap[j].rec)
  {
    var l :| 0 <= l < |heap| && heap[l] == Entry(HeadOf(heap, heap[j].idx).value, heap[j].idx);
    assert l == j;
  }

  /** Popping entry `m` removes exactly its file's head. */
  lemma HeadRemove(heap: seq<Entry>, m: nat, i: nat)
    requires DistinctIdx(heap) && m < |heap|
    ensures HeadOf(heap[..m] + heap[m + 1..], i) == if i == heap[m].idx then None else HeadOf(heap, i)
  {
    if i == heap[m].idx {
      RemovedAt(heap, m);
      HeadOfNone(heap[..m] + heap[m + 1..], i);
    } else if HeadOf(heap, i).Some? {
      HeadRemoveSome(heap, m, i);
    } else {
      HeadRemoveNone(heap, m, i);
    }
  }

  lemma HeadRemoveSome(heap: seq<Entry>, m: nat, i: nat)
    requires DistinctIdx(heap) && m < |heap| && i != heap[m].idx && HeadOf(heap, i).Some?
    ensures HeadOf(heap[..m] + heap[m + 1..], i) == HeadOf(heap, i)
  {
    var l :| 0 <= l < |heap| && heap[l] == Entry(HeadOf(heap, i).value, i);
    RemovedAt(heap, m);
    HeadOfUnique(heap[..m] + heap[m + 1..], if l < m then l else l - 1);
  }

  lemma HeadRemoveNone(heap: seq<Entry>, m: nat, i: nat)
    requires DistinctIdx(heap) && m < |heap| && HeadOf(heap, i).None?
    ensures HeadOf(heap[..m] + heap[m + 1..], i) == None
  {
    RemovedAt(heap, m);
    HeadOfNone(heap[..m] + heap[m + 1..], i);
  }

  lemma {:induction false} HeadOfNone(heap: seq<Entry>, i: nat)
    requires forall j :: 0 <= j < |heap| ==> heap[j].idx != i
    ensures HeadOf(heap, i) == None
    decreases |heap|
  {
    if |heap| > 0 {
      HeadOfNone(heap[..|heap| - 1], i);
    }
  }

  /** The entries left after popping entry `m`, each at its old position. */
  lemma RemovedAt(heap: seq<Entry>, m: nat)
    requires DistinctIdx(heap) && m < |heap|
    ensures var h := heap[..m] + heap[m + 1..];
      |h| == |heap| - 1 && DistinctIdx(h) &&
      (forall j :: 0 <= j < |h| ==> h[j] == heap[if j < m then j else j + 1] && h[j].idx != heap[m].idx) &&
      forall l :: 0 <= l < |heap| && l != m ==> h[if l < m then l else l - 1] == heap[l]
  {
    var h := heap[..m] + heap[m + 1..];
    forall j | 0 <= j < |h| ensures h[j] == heap[if j < m then j else j + 1] {
      if j < m {
        assert h[j] == heap[..m][j];
      } else {
        assert h[j] == heap[m + 1..][j - m];
      }
    }
    forall j, l | 0 <= j < l < |h| ensures h[j].idx != h[l].idx {
      var j', l' := if j < m then j else j + 1, if l < m then l else l + 1;
      assert j' < l';
    }
  }

  lemma HeadAppend(heap: seq<Entry>, x: Entry, i: nat)
    ensures HeadOf(heap + [x], i) == if x.idx == i then Some(x.rec) else HeadOf(heap, i)
  {
    assert (heap + [x])[..|heap|] == heap;
  }

  lemma {:induction false} EntryLtTransitive(a: Entry, b: Entry, c: Entry)
    requires EntryLt(a, b) && EntryLt(b, c)
    ensures EntryLt(a, c)
  {
    RecLeTransitive(a.rec, b.rec, c.rec);
    if a.rec == c.rec {
      RecLeAntisymmetric(a.rec, b.rec);
    }
  }

  lemma EntryLtIrreflexive(a: Entry)
    ensures !EntryLt(a, a)
  {
    StrLtIrreflexive(a.rec.0);
  }

  /** `heappop` returns an entry no other entry is below. */
  lemma {:induction false} MinEntryLeast(heap: seq<Entry>)
    requires |heap| > 0
    ensures forall j :: 0 <= j < |heap| ==> !EntryLt(heap[j], heap[MinEntry(heap)])
    decreases |heap|
  {
    var n := |heap| - 1;
    EntryLtIrreflexive(heap[n]);
    if n > 0 {
      var init := heap[..n];
      MinEntryLeast(init);
      var m := MinEntry(init);
      assert forall j :: 0 <= j < n ==> heap[j] == init[j];
      if EntryLt(heap[n], heap[m]) {
        forall j | 0 <= j < n ensures !EntryLt(heap[j], heap[n]) {
          if EntryLt(heap[j], heap[n]) {
            EntryLtTransitive(heap[j], heap[n], heap[m]);
          }
        }
      }
    }
  }

  /** The entry `heappop` returns is the head `Best` picks among the unread files. */
  lemma MinIsBest(handles: seq<seq<Rec>>, heap: seq<Entry>)
    requires HeapOk(handles, heap) && |heap| > 0
    ensures Best(Unread(handles, heap), |handles|) == Some(heap[MinEntry(heap)].idx)
  {
    var u := Unread(handles, heap);
    var e := heap[MinEntry(heap)];
    HeadOfUnique(heap, MinEntry(heap));
    assert u[e.idx][0] == e.rec;
    BestIsLeast(u, |handles|);
    var b := Best(u, |handles|).value;
    var x := HeadOf(heap, b).value;
    var j :| 0 <= j < |heap| && heap[j] == Entry(x, b);
    MinEntryLeast(heap);
    assert !EntryLt(heap[j], e);
    assert u[b][0] == x;
  }

  /** With the heap and the files in step, the loop as written performs the merge of what
      the files still have to give. */
  lemma {:induction false} DrainAgrees(handles: seq<seq<Rec>>, heap: seq<Entry>)
    requires HeapOk(handles, heap)
    ensures DrainAsWritten(handles, heap) == Some(MergeFrom(Unread(handles, heap)))
    decreases Total(handles) + |heap|
  {
    var u := Unread(handles, heap);
    if |heap| == 0 {
      BestIsLeast(u, |u|);
    } else {
      var m := MinEntry(heap);
      var e := heap[m];
      var b := e.idx;
      var heap' := heap[..m] + heap[m + 1..];
      MinIsBest(handles, heap);
      HeadOfUnique(heap, m);
      PopFile(u, b);
      assert MergeFrom(u) == [e.rec] + MergeFrom(u[b := u[b][1..]]);
      if |handles[b]| == 0 {
        PopExhausted(handles, heap, m);
        DrainAgrees(handles, heap');
      } else {
        PopRefill(handles, heap, m);
        PopFile(handles, b);
        DrainAgrees(handles[b := handles[b][1..]], heap' + [Entry(handles[b][0], b)]);
      }
    }
  }

  /** Popping the entry of a file with nothing left to read drops that file's head. */
  lemma PopExhausted(handles: seq<seq<Rec>>, heap: seq<Entry>, m: nat)
    requires HeapOk(handles, heap) && m < |heap| && handles[heap[m].idx] == []
    ensures var heap' := heap[..m] + heap[m + 1..];
      var u := Unread(handles, heap);
      HeapOk(handles, heap') && Unread(handles, heap') == u[heap[m].idx := u[heap[m].idx][1..]]
  {
    var b := heap[m].idx;
    var heap' := heap[..m] + heap[m + 1..];
    var u := Unread(handles, heap);
    HeadRemoveAll(handles, heap, m);
    HeadOfUnique(heap, m);
    assert Unread(handles, heap') == u[b := u[b][1..]];
  }

  /** Popping the entry of a file and pushing its next line moves that file on by one. */
  lemma PopRefill(handles: seq<seq<Rec>>, heap: seq<Entry>, m: nat)
    requires HeapOk(handles, heap) && m < |heap| && handles[heap[m].idx] != []
    ensures var b := heap[m].idx;
      var heap' := heap[..m] + heap[m + 1..] + [Entry(handles[b][0], b)];
      var handles' := handles[b := handles[b][1..]];
      var u := Unread(handles, heap);
      HeapOk(handles', heap') && Unread(handles', heap') == u[b := u[b][1..]]
  {
    var b := heap[m].idx;
    var h := heap[..m] + heap[m + 1..];
    var x := Entry(handles[b][0], b);
    var heap' := h + [x];
    var handles' := handles[b := handles[b][1..]];
    var u := Unread(handles, heap);
    HeadRemoveAll(handles, heap, m);
    HeadOfUnique(heap, m);
    forall i | 0 <= i < |handles| ensures HeadOf(heap', i) == if i == b then Some(handles[b][0]) else HeadOf(heap, i) {
      HeadAppend(h, x, i);
    }
    assert handles[b] == [handles[b][0]] + handles[b][1..];
    assert Unread(handles', heap') == u[b := u[b][1..]];
    assert forall j :: 0 <= j < |h| ==> h[j].idx != b;
  }

  lemma HeadRemoveAll(handles: seq<seq<Rec>>, heap: seq<Entry>, m: nat)
    requires HeapOk(handles, heap) && m < |heap|
    ensures var h := heap[..m] + heap[m + 1..];
      DistinctIdx(h) && (forall j :: 0 <= j < |h| ==> h[j].idx < |handles| && h[j].idx != heap[m].idx) &&
      forall i :: 0 <= i < |handles| ==> HeadOf(h, i) == if i == heap[m].idx then None else HeadOf(heap, i)
  {
    var h := heap[..m] + heap[m + 1..];
    forall i | 0 <= i < |handles| ensures HeadOf(h, i) == if i == heap[m].idx then None else HeadOf(heap, i) {
      HeadRemove(heap, m, i);
    }
    RemovedAt(heap, m);
  }

  predicate AllPresent(files: seq<Option<seq<Rec>>>) {
    forall i :: 0 <= i < |files| ==> files[i].Some?
  }

  /** With every file present, each file is opened at its position, after its first line. */
  lemma {:induction false} OpenedAll(files: seq<Option<seq<Rec>>>)
    requires AllPresent(files)
    ensures |Opened(files)| == |files|
    ensures forall i :: 0 <= i < |files| ==>
      Opened(files)[i] == if |files[i].value| > 0 then files[i].value[1..] else []
    decreases |files|
  {
    if |files| > 0 {
      var init := files[..|files| - 1];
      assert forall i :: 0 <= i < |init| ==> init[i] == files[i];
      OpenedAll(init);
    }
  }

  /** The first heap holds one entry per non-empty file, tagged with the file's position. */
  lemma {:induction false} SeededIdx(files: seq<Option<seq<Rec>>>)
    ensures forall j :: 0 <= j < |Seeded(files)| ==> Seeded(files)[j].idx < |files|
    ensures DistinctIdx(Seeded(files))
    decreases |files|
  {
    if |files| > 0 {
      SeededIdx(files[..|files| - 1]);
    }
  }

  lemma SeededBelow(files: seq<Option<seq<Rec>>>, n: nat)
    requires |files| <= n
    ensures HeadOf(Seeded(files), n) == None
  {
    SeededIdx(files);
  }

  lemma {:induction false} SeededHead(files: seq<Option<seq<Rec>>>, i: nat)
    requires AllPresent(files) && i < |files|
    ensures HeadOf(Seeded(files), i) == if |files[i].value| > 0 then Some(files[i].value[0]) else None
    decreases |files|
  {
    var n := |files| - 1;
    var init := files[..n];
    var f := files[n].value;
    if |f| > 0 {
      assert Seeded(files) == Seeded(init) + [Entry(f[0], n)];
      HeadAppend(Seeded(init), Entry(f[0], n), i);
    } else {
      assert Seeded(files) == Seeded(init) + [];
      assert Seeded(init) + [] == Seeded(init);
    }
    if i == n {
      SeededBelow(init, n);
    } else {
      assert files[i] == init[i];
      SeededHead(init, i);
    }
  }

  /** The merge as written and the merge that reads missing files as empty agree when no
      partition file is missing. */
  lemma MergeAgrees(files: seq<Option<seq<Rec>>>)
    requires AllPresent(files)
    ensures MergeAsWritten(files) == Some(MergeFrom(Present(files)))
  {
    SeededHeapOk(files);
    OpenedAll(files);
    forall i | 0 <= i < |files| ensures Unread(Opened(files), Seeded(files))[i] == Present(files)[i] {
      UnreadAt(files, i);
    }
    var u := Unread(Opened(files), Seeded(files));
    assert u == Present(files);
    DrainAgrees(Opened(files), Seeded(files));
    assert MergeAsWritten(files) == Some(MergeFrom(u));
  }

  lemma SeededHeapOk(files: seq<Option<seq<Rec>>>)
    requires AllPresent(files)
    ensures HeapOk(Opened(files), Seeded(files))
  {
    OpenedAll(files);
    SeededIdx(files);
    forall i | 0 <= i < |files| && HeadOf(Seeded(files), i).None? ensures Opened(files)[i] == [] {
      SeededHead(files, i);
    }
  }

  /** A present file has all of its records still to give. */
  lemma UnreadAt(files: seq<Option<seq<Rec>>>, i: nat)
    requires AllPresent(files) && i < |files|
    ensures |Opened(files)| == |files| && Unread(Opened(files), Seeded(files))[i] == Present(files)[i]
  {
    OpenedAll(files);
    SeededHead(files, i);
    var f := files[i].value;
    if |f| > 0 {
      assert f == [f[0]] + f[1..];
    }
  }

  /** `Reducer._merge_sort`: the files are opened in order and their first lines seed the
      heap; each round pops the least entry, yields it and reads the next line of
      `file_handles[file_idx]`, raising (None) where that index is past the open files. */
  method MergeSort(files: seq<Option<seq<Rec>>>) returns (out: Option<seq<Rec>>)
    ensures out == MergeAsWritten(files)
    ensures AllPresent(files) ==> out == Some(MergeFrom(Present(files)))
  {
    if AllPresent(files) {
      MergeAgrees(files);
    }
    var handles: seq<seq<Rec>> := [];
    var heap: seq<Entry> := [];
    var i := 0;
    while i < |files|
      invariant 0 <= i <= |files| && handles == Opened(files[..i]) && heap == Seeded(files[..i])
    {
      assert files[..i + 1][..i] == files[..i];
      var f := files[i];
      if f.Some? {
        if |f.value| > 0 {
          handles := handles + [f.value[1..]];
          heap := heap + [Entry(f.value[0], i)];
        } else {
          handles := handles + [[]];
        }
      }
      i := i + 1;
    }
    assert files[..i] == files;
    var done: seq<Rec> := [];
    PrefixedNone(DrainAsWritten(handles, heap));
    while |heap| > 0
      invariant Prefixed(done, DrainAsWritten(handles, heap)) == MergeAsWritten(files)
      decreases Total(handles) + |heap|
    {
      ghost var heap0, handles0, done0 := heap, handles, done;
      var m := MinEntry(heap);
      var e := heap[m];
      heap := heap[..m] + heap[m + 1..];
      if e.idx >= |handles| {
        return None;
      }
      done := done + [e.rec];
      if |handles[e.idx]| > 0 {
        PopFile(handles, e.idx);
        heap := heap + [Entry(handles[e.idx][0], e.idx)];
        handles := handles[e.idx := handles[e.idx][1..]];
      }
      PrefixedCons(done0, e.rec, DrainAsWritten(handles, heap));
    }
    assert done + [] == done;
    out := Some(done);
  }

  /** The records yielded so far, ahead of what the rest of the loop yields. */
  function Prefixed(done: seq<Rec>, rest: Option<seq<Rec>>): Option<seq<Rec>> {
    match rest
    case None => None
    case Some(r) => Some(done + r)
  }

  lemma PrefixedNone(rest: Option<seq<Rec>>)
    ensures Prefixed([], rest) == rest
  {
    if rest.Some? {
      assert [] + rest.value == rest.value;
    }
  }

  lemma PrefixedCons(done: seq<Rec>, x: Rec, rest: Option<seq<Rec>>)
    ensures Prefixed(done + [x], rest) == Prefixed(done, if rest.None? then None else Some([x] + rest.value))
  {
    if rest.Some? {
      assert done + [x] + rest.value == done + ([x] + rest.value);
    }
  }

  /** `Reducer.process_partition`: the output lines and the record count of one partition;
      None where `_merge_sort` raises. */
  method ProcessPartition<R>(files: seq<Option<seq<Rec>>>, reduce: (string, seq<int>) -> R)
    returns (out: Option<seq<(string, R)>>, count: nat)
    ensures out.None? <==> MergeAsWritten(files).None?
    ensures out.Some? ==> out.value == Reduced(Runs(MergeAsWritten(files).value), reduce) && count == |out.value|
    ensures AllPresent(files) ==> out == Some(Reduced(Runs(MergeFrom(Present(files))), reduce))
  {
    var records := MergeSort(files);
    if records.None? {
      return None, 0;
    }
    var lines;
    lines, count := ProcessRuns(records.value, reduce);
    out := Some(lines);
  }

  // ---------------------------------------------------------------------------------------
  // SortingReducer

  /** `all_records`: the records of the existing files, file after file. */
  method ReadAll(files: seq<Option<seq<Rec>>>) returns (all: seq<Rec>)
    ensures all == Concat(files)
  {
    all := [];
    for i := 0 to |files|
      invariant all == Concat(files[..i])
    {
      if files[i].Some? {
        all := all + files[i].value;
      }
      assert files[..i + 1][..i] == files[..i];
    }
    assert files[..|files|] == files;
  }

  /** The key `all_records.sort` uses: `sort_key` of the record's key. */
  function OnKey<V, K>(sortKey: string -> K): ((string, V)) -> K {
    (r: (string, V)) => sortKey(r.0)
  }

  /** `SortingReducer._merge_sort`: all records, stably sorted by `sort_key` of the key under
      the order `le` of the sort keys. */
  method SortingMerge<K(!new)>(files: seq<Option<seq<Rec>>>, sortKey: string -> K, le: (K, K) -> bool)
    returns (records: seq<Rec>)
    requires Sorting.TotalPreorder(le)
    ensures multiset(records) == multiset(Concat(files))
    ensures Sorting.SortedBy(records, OnKey(sortKey), le)
    ensures forall c :: Sorting.WithKey(records, OnKey(sortKey), le, c) == Sorting.WithKey(Concat(files), OnKey(sortKey), le, c)
  {
    var all := ReadAll(files);
    records := Sorting.SortBy(all, OnKey(sortKey), le);
    Sorting.SortByPermutation(all, OnKey(sortKey), le);
    Sorting.SortBySorted(all, OnKey(sortKey), le);
    forall c ensures Sorting.WithKey(records, OnKey(sortKey), le, c) == Sorting.WithKey(all, OnKey(sortKey), le, c) {
      Sorting.SortByStable(all, OnKey(sortKey), le, c);
    }
  }

  /** `SortingReducer.process_partition`: the runs of the sorted stream, reduced. */
  method SortingProcessPartition<K(!new), R>(files: seq<Option<seq<Rec>>>, sortKey: string -> K, le: (K, K) -> bool,
                                             reduce: (string, seq<int>) -> R)
    returns (out: seq<(string, R)>, count: nat)
    ensures out == Reduced(Runs(Sorting.SortBy(Concat(files), OnKey(sortKey), le)), reduce)
    ensures count == |out|
  {
    var all := ReadAll(files);
    var records := Sorting.SortBy(all, OnKey(sortKey), le);
    out, count := ProcessRuns(records, reduce);
  }

  // ---------------------------------------------------------------------------------------
  // SecondarySort

  /** The records whose key falls in group `g`, in input order. */
  function InGroup<V>(records: seq<(string, V)>, keyFunc: string -> string, g: string): seq<(string, V)>
    decreases |records|
  {
    if |records| == 0 then []
    else
      var last := records[|records| - 1];
      InGroup(records[..|records| - 1], keyFunc, g) + (if keyFunc(last.0) == g then [last] else [])
  }

  /** A group holds exactly the records whose key maps to it. */
  lemma {:induction false} InGroupMembers<V>(records: seq<(string, V)>, keyFunc: string -> string, g: string)
    ensures forall x :: x in InGroup(records, keyFunc, g) <==> x in records && keyFunc(x.0) == g
    decreases |records|
  {
    if |records| > 0 {
      var init := records[..|records| - 1];
      InGroupMembers(init, keyFunc, g);
      assert records == init + [records[|records| - 1]];
    }
  }

  function ValuesOf<V>(s: seq<(string, V)>): (vs: seq<V>)
    ensures |vs| == |s|
  {
    seq(|s|, i requires 0 <= i < |s| => s[i].1)
  }

  /** The `groups` dict after the records `done`. */
  ghost predicate GroupedBy<V>(done: seq<(string, V)>, keyFunc: string -> string, groups: map<string, seq<(string, V)>>) {
    forall g :: (g in groups <==> InGroup(done, keyFunc, g) != []) &&
      (g in groups ==> groups[g] == InGroup(done, keyFunc, g))
  }

  lemma GroupedStep<V>(done: seq<(string, V)>, keyFunc: string -> string, groups: map<string, seq<(string, V)>>, x: (string, V))
    requires GroupedBy(done, keyFunc, groups)
    ensures GroupedBy(done + [x], keyFunc, groups[keyFunc(x.0) := GetOr(groups, keyFunc(x.0), []) + [x]])
  {
    var s := done + [x];
    assert s[..|s| - 1] == done;
    var g0 := keyFunc(x.0);
    forall g ensures InGroup(s, keyFunc, g) == InGroup(done, keyFunc, g) + (if g == g0 then [x] else []) {
    }
  }

  /** The first loop of `SecondarySort.process`: the records bucketed by `key_func`. */
  method GroupBy<V>(records: seq<(string, V)>, keyFunc: string -> string) returns (groups: map<string, seq<(string, V)>>)
    ensures GroupedBy(records, keyFunc, groups)
  {
    groups := map[];
    for i := 0 to |records|
      invariant GroupedBy(records[..i], keyFunc, groups)
    {
      var (key, value) := records[i];
      GroupedStep(records[..i], keyFunc, groups, records[i]);
      var g := keyFunc(key);
      if g !in groups {
        groups := groups[g := []];
      }
      groups := groups[g := groups[g] + [(key, value)]];
      PrefixSnoc(records, i);
    }
    assert records[..|records|] == records;
  }

  /** The first components of a list of pairs. */
  function Firsts<V>(s: seq<(string, V)>): (ks: seq<string>)
    ensures |ks| == |s|
  {
    seq(|s|, i requires 0 <= i < |s| => s[i].0)
  }

  /** `SecondarySort.process`: one `(group_key, values)` per group, in ascending group-key
      order, each group's values stably sorted by `sort_func` of their keys under `le`. */
  method SecondarySortProcess<V, S>(records: seq<(string, V)>, keyFunc: string -> string, sortFunc: string -> S,
                                    le: (S, S) -> bool)
    returns (out: seq<(string, seq<V>)>)
    ensures SortedStrict(Firsts(out))
    ensures forall g :: g in Firsts(out) <==> InGroup(records, keyFunc, g) != []
    ensures forall i :: 0 <= i < |out| ==>
      out[i].1 == ValuesOf(Sorting.SortBy(InGroup(records, keyFunc, out[i].0), OnKey(sortFunc), le))
  {
    var groups := GroupBy(records, keyFunc);
    var ks := SortedKeys(groups);
    out := [];
    for j := 0 to |ks|
      invariant Firsts(out) == ks[..j]
      invariant forall i :: 0 <= i < j ==>
        out[i].1 == ValuesOf(Sorting.SortBy(InGroup(records, keyFunc, out[i].0), OnKey(sortFunc), le))
    {
      assert ks[j] in ks;
      var values := Sorting.SortBy(groups[ks[j]], OnKey(sortFunc), le);
      out := out + [(ks[j], ValuesOf(values))];
      assert Firsts(out) == Firsts(out[..j]) + [ks[j]];
      PrefixSnoc(ks, j);
    }
    assert ks[..|ks|] == ks;
  }

  /** Each group of `SecondarySort.process` is the group's records, sorted by `sort_func`
      of the key, equal sort keys in input order. */
  lemma SecondarySortGroup<V, S(!new)>(records: seq<(string, V)>, keyFunc: string -> string, sortFunc: string -> S,
                                      le: (S, S) -> bool, g: string)
    requires Sorting.TotalPreorder(le)
    ensures var sorted := Sorting.SortBy(InGroup(records, keyFunc, g), OnKey(sortFunc), le);
      Sorting.SortedBy(sorted, OnKey(sortFunc), le) &&
      (forall x :: x in sorted <==> x in records && keyFunc(x.0) == g) &&
      multiset(sorted) == multiset(InGroup(records, keyFunc, g)) &&
      forall c :: Sorting.WithKey(sorted, OnKey(sortFunc), le, c) ==
        Sorting.WithKey(InGroup(records, keyFunc, g), OnKey(sortFunc), le, c)
  {
    var grp := InGroup(records, keyFunc, g);
    Sorting.SortBySorted(grp, OnKey(sortFunc), le);
    Sorting.SortByPermutation(grp, OnKey(sortFunc), le);
    InGroupMembers(records, keyFunc, g);
    var sorted := Sorting.SortBy(grp, OnKey(sortFunc), le);
    forall x ensures x in sorted <==> x in grp {
      assert x in sorted <==> x in multiset(sorted);
      assert x in grp <==> x in multiset(grp);
    }
    forall c ensures Sorting.WithKey(sorted, OnKey(sortFunc), le, c) == Sorting.WithKey(grp, OnKey(sortFunc), le, c) {
      Sorting.SortByStable(grp, OnKey(sortFunc), le, c);
    }
  }

  // ---------------------------------------------------------------------------------------
  // The stock reduce functions

  /** `sum_reduce` */
  function SumReduce(key: string, values: seq<int>): int {
    Sum(values)
  }

  /** Summing is insensitive to how the values are split: the sum of partial sums is the sum,
      which is what lets `sum_reduce` double as a combiner. */
  lemma SumReduceSplit(key: string, a: seq<int>, b: seq<int>)
    ensures SumReduce(key, a + b) == SumReduce(key, a) + SumReduce(key, [SumReduce(key, b)])
  {
    SumAppend(a, b);
    var t := [Sum(b)];
    assert t[..|t| - 1] == [];
    assert Sum(t) == Sum(b);
  }

  /** `count_reduce` */
  function CountReduce<V>(key: string, values: seq<V>): nat {
    |values|
  }

  /** The counts `count_reduce` reports over the runs of a stream add up to its length. */
  lemma {:induction false} CountsCover<V>(rs: seq<Run<V>>)
    ensures Sum(seq(|rs|, i requires 0 <= i < |rs| => CountReduce(rs[i].key, rs[i].values))) == |Flatten(rs)|
    decreases |rs|
  {
    if |rs| > 0 {
      var init := rs[..|rs| - 1];
      CountsCover(init);
      var cs := seq(|rs|, i requires 0 <= i < |rs| => CountReduce(rs[i].key, rs[i].values));
      assert cs[..|cs| - 1] == seq(|init|, i requires 0 <= i < |init| => CountReduce(init[i].key, init[i].values));
    }
  }

  /** `max_reduce`; None where `max` of an empty list raises ValueError. */
  function MaxReduce(key: string, values: seq<int>): (r: Option<int>)
    ensures r.None? <==> |values| == 0
    ensures r.Some? ==> r.value in values && forall v :: v in values ==> v <= r.value
    decreases |values|
  {
    if |values| == 0 then None
    else
      match MaxReduce(key, values[..|values| - 1])
      case None => Some(values[|values| - 1])
      case Some(m) =>
        assert values == values[..|values| - 1] + [values[|values| - 1]];
        Some(Max(m, values[|values| - 1]))
  }

  /** `min_reduce`; None where `min` of an empty list raises ValueError. */
  function MinReduce(key: string, values: seq<int>): (r: Option<int>)
    ensures r.None? <==> |values| == 0
    ensures r.Some? ==> r.value in values && forall v :: v in values ==> r.value <= v
    decreases |values|
  {
    if |values| == 0 then None
    else
      match MinReduce(key, values[..|values| - 1])
      case None => Some(values[|values| - 1])
      case Some(m) =>
        assert values == values[..|values| - 1] + [values[|values| - 1]];
        Some(Min(m, values[|values| - 1]))
  }

  /** `avg_reduce` over exact rationals: the mean, or 0 for no values. */
  function AvgReduce(key: string, values: seq<int>): (r: real)
    ensures |values| == 0 ==> r == 0.0
    ensures |values| > 0 ==> r * (|values| as real) == Sum(values) as real
  {
    if |values| == 0 then 0.0 else (Sum(values) as real) / (|values| as real)
  }

  /** `list_reduce`: the distinct values. `list(set(values))` has no fixed order; this one
      keeps first occurrences. */
  function ListReduce(key: string, values: seq<int>): (r: seq<int>)
    ensures Distinct(r)
    ensures forall v :: v in r <==> v in values
    decreases |values|
  {
    if |values| == 0 then []
    else
      var r := ListReduce(key, values[..|values| - 1]);
      var v := values[|values| - 1];
      assert values == values[..|values| - 1] + [v];
      if v in r then r else r + [v]
  }

  function Descending(): (int, int) -> bool {
    (a: int, b: int) => a >= b
  }

  function Identity(v: int): int { v }

  lemma DescendingTotal()
    ensures Sorting.TotalPreorder(Descending())
  {
  }

  /** `top_n_reduce(n)`: `sorted(values, reverse=True)[:n]`. */
  function TopN(n: int, key: string, values: seq<int>): seq<int> {
    PySlice(Sorting.SortBy(values, Identity, Descending()), 0, n)
  }

  /** The result is descending, holds min(n, len) values for n >= 0 (all but the last -n for
      n < 0, as Python's slice does), and is the front of the descending sort. */
  lemma TopNShape(n: int, key: string, values: seq<int>)
    ensures var r := TopN(n, key, values);
      |r| == SliceBound(n, |values|) &&
      r == Sorting.SortBy(values, Identity, Descending())[..|r|] &&
      forall i, j :: 0 <= i < j < |r| ==> r[i] >= r[j]
  {
    Sorting.SortByPermutation(values, Identity, Descending());
    DescendingTotal();
    Sorting.SortBySorted(values, Identity, Descending());
  }

  /** In a descending sequence, nothing after position `m` exceeds anything before it. */
  lemma FrontDominates(sorted: seq<int>, m: nat)
    requires m <= |sorted|
    requires forall i, j :: 0 <= i < j < |sorted| ==> sorted[i] >= sorted[j]
    ensures forall i, v :: 0 <= i < m && v in multiset(sorted[m..]) ==> v <= sorted[i]
  {
    forall i, v | 0 <= i < m && v in multiset(sorted[m..]) ensures v <= sorted[i] {
      var rest := sorted[m..];
      assert v in rest;
      var j :| 0 <= j < |rest| && rest[j] == v;
      assert sorted[m + j] == v;
    }
  }

  /** The values kept are drawn from the input, and no value left out is greater than one
      kept. */
  lemma TopNKeepsLargest(n: int, key: string, values: seq<int>)
    ensures var r := TopN(n, key, values);
      multiset(r) <= multiset(values) &&
      forall i :: 0 <= i < |r| ==> forall v :: v in multiset(values) - multiset(r) ==> v <= r[i]
  {
    var sorted := Sorting.SortBy(values, Identity, Descending());
    var r := TopN(n, key, values);
    TopNSplit(n, key, values);
    DescendingTotal();
    Sorting.SortBySorted(values, Identity, Descending());
    FrontDominates(sorted, |r|);
    assert multiset(values) - multiset(r) == multiset(sorted[|r|..]);
  }

  /** The kept values and the rest of the descending sort make up the input. */
  lemma TopNSplit(n: int, key: string, values: seq<int>)
    ensures var sorted := Sorting.SortBy(values, Identity, Descending());
      var r := TopN(n, key, values);
      |r| <= |sorted| && multiset(values) == multiset(r) + multiset(sorted[|r|..])
  {
    var sorted := Sorting.SortBy(values, Identity, Descending());
    TopNShape(n, key, values);
    Sorting.SortByPermutation(values, Identity, Descending());
    var r := TopN(n, key, values);
    assert sorted == r + sorted[|r|..];
  }

  // ---------------------------------------------------------------------------------------
  // CombinedReducer

  /** `results[name]` after the records `s`: each key's values in input order. */
  function GroupAll(s: seq<Rec>): map<string, seq<int>>
    decreases |s|
  {
    if |s| == 0 then map[]
    else
      var g := GroupAll(s[..|s| - 1]);
      var (k, v) := s[|s| - 1];
      g[k := GetOr(g, k, []) + [v]]
  }

  /** Some record has key `k`. */
  ghost predicate HasKey<V>(s: seq<(string, V)>, k: string) {
    exists i :: 0 <= i < |s| && s[i].0 == k
  }

  lemma GroupAllSnoc(s: seq<Rec>, k: string, v: int)
    ensures GroupAll(s + [(k, v)]) == GroupAll(s)[k := GetOr(GroupAll(s), k, []) + [v]]
  {
    assert (s + [(k, v)])[..|s|] == s;
  }

  /** The values of the records with key `k`, in input order. */
  function ValuesFor(s: seq<Rec>, k: string): seq<int>
    decreases |s|
  {
    if |s| == 0 then []
    else ValuesFor(s[..|s| - 1], k) + (if s[|s| - 1].0 == k then [s[|s| - 1].1] else [])
  }

  /** The grouping holds a key exactly when a record has it, with all of that key's values
      in input order. */
  lemma {:induction false} GroupAllValues(s: seq<Rec>)
    ensures forall k :: (k in GroupAll(s) <==> HasKey(s, k)) && (k in GroupAll(s) ==> GroupAll(s)[k] == ValuesFor(s, k))
    decreases |s|
  {
    if |s| > 0 {
      var init := s[..|s| - 1];
      GroupAllValues(init);
      forall k ensures (k in GroupAll(s) <==> HasKey(s, k)) {
        if HasKey(init, k) {
          var i :| 0 <= i < |init| && init[i].0 == k;
          assert s[i] == init[i];
        }
        if HasKey(s, k) {
          var i :| 0 <= i < |s| && s[i].0 == k;
          if i < |init| {
            assert init[i] == s[i];
          }
        }
      }
      forall k | k !in GroupAll(init) ensures ValuesFor(init, k) == [] {
        ValuesForEmpty(init, k);
      }
    }
  }

  lemma {:induction false} ValuesForEmpty(s: seq<Rec>, k: string)
    requires forall i :: 0 <= i < |s| ==> s[i].0 != k
    ensures ValuesFor(s, k) == []
    decreases |s|
  {
    if |s| > 0 {
      ValuesForEmpty(s[..|s| - 1], k);
    }
  }

  /** The lines of one named reducer's output file: keys ascending, each with its result. */
  ghost function Lines<R>(groups: map<string, seq<int>>, reduce: (string, seq<int>) -> R): seq<(string, R)> {
    var ks := SortedKeysOf(groups);
    seq(|ks|, i requires 0 <= i < |ks| => (ks[i], reduce(ks[i], groups[ks[i]])))
  }

  /** Every named result map is `before`, except the names already done, which are `after`. */
  ghost predicate ResultsAt(results: map<string, map<string, seq<int>>>, names: set<string>, todo: set<string>,
                            before: map<string, seq<int>>, after: map<string, seq<int>>)
  {
    results.Keys == names && forall n :: n in names ==> results[n] == (if n in todo then before else after)
  }

  lemma ResultsStep(results: map<string, map<string, seq<int>>>, names: set<string>, todo: set<string>,
                    before: map<string, seq<int>>, after: map<string, seq<int>>, name: string)
    requires ResultsAt(results, names, todo, before, after) && name in todo && todo <= names
    ensures ResultsAt(results[name := after], names, todo - {name}, before, after)
  {
  }

  /** The inner loop of `CombinedReducer.process`: the record `(key, value)` appended to every
      named result map. */
  method AddToEach(results0: map<string, map<string, seq<int>>>, names: set<string>, key: string, value: int,
                   ghost before: map<string, seq<int>>)
    returns (results: map<string, map<string, seq<int>>>)
    requires ResultsAt(results0, names, {}, before, before)
    ensures ResultsAt(results, names, {}, before[key := GetOr(before, key, []) + [value]],
                      before[key := GetOr(before, key, []) + [value]])
  {
    ghost var after := before[key := GetOr(before, key, []) + [value]];
    results := results0;
    var todo := names;
    while todo != {}
      invariant todo <= names
      invariant ResultsAt(results, names, todo, before, after)
      decreases |todo|
    {
      var name :| name in todo;
      var r := results[name];
      assert r == before;
      if key !in r {
        r := r[key := []];
      }
      assert r[key := r[key] + [value]] == after;
      ResultsStep(results, names, todo, before, after, name);
      results := results[name := r[key := r[key] + [value]]];
      todo := todo - {name};
    }
  }

  /** The first loop of `CombinedReducer.process`: every named result map is the grouping of
      all records. */
  method GroupForEach(all: seq<Rec>, names: set<string>) returns (results: map<string, map<string, seq<int>>>)
    ensures ResultsAt(results, names, {}, GroupAll(all), GroupAll(all))
  {
    results := map name | name in names :: map[];
    for i := 0 to |all|
      invariant ResultsAt(results, names, {}, GroupAll(all[..i]), GroupAll(all[..i]))
    {
      var (key, value) := all[i];
      GroupAllSnoc(all[..i], key, value);
      results := AddToEach(results, names, key, value, GroupAll(all[..i]));
      PrefixSnoc(all, i);
    }
    assert all[..|all|] == all;
  }

  /** The writing loop for one named reducer: one line per key, keys ascending. */
  method WriteLines<R>(groups: map<string, seq<int>>, reduce: (string, seq<int>) -> R) returns (lines: seq<(string, R)>)
    ensures lines == Lines(groups, reduce)
  {
    var ks := SortedKeys(groups);
    SortedUnique(ks, SortedKeysOf(groups));
    lines := [];
    for j := 0 to |ks|
      invariant lines == Lines(groups, reduce)[..j]
    {
      assert ks[j] in ks;
      lines := lines + [(ks[j], reduce(ks[j], groups[ks[j]]))];
      assert lines == Lines(groups, reduce)[..j + 1];
    }
  }

  /** `CombinedReducer.process`: per reducer name, the lines of its output file. */
  method CombinedProcess<R>(files: seq<Option<seq<Rec>>>, reducers: map<string, (string, seq<int>) -> R>)
    returns (outputs: map<string, seq<(string, R)>>)
    ensures outputs.Keys == reducers.Keys
    ensures forall name :: name in reducers ==> outputs[name] == Lines(GroupAll(Concat(files)), reducers[name])
  {
    var all := ReadAll(files);
    var results := GroupForEach(all, reducers.Keys);
    ghost var groups := GroupAll(all);
    outputs := map[];
    var todo := reducers.Keys;
    while todo != {}
      invariant todo <= reducers.Keys
      invariant Written(outputs, reducers, reducers.Keys - todo, groups)
      decreases |todo|
    {
      var name :| name in todo;
      assert results[name] == groups;
      var lines := WriteLines(results[name], reducers[name]);
      WrittenStep(outputs, reducers, reducers.Keys - todo, groups, name, lines);
      outputs := outputs[name := lines];
      assert reducers.Keys - (todo - {name}) == (reducers.Keys - todo) + {name};
      todo := todo - {name};
    }
  }

  /** The output files of the names in `done` are written. */
  ghost predicate Written<R>(outputs: map<string, seq<(string, R)>>, reducers: map<string, (string, seq<int>) -> R>,
                             done: set<string>, groups: map<string, seq<int>>)
  {
    outputs.Keys == done && forall name :: name in done ==> name in reducers && outputs[name] == Lines(groups, reducers[name])
  }

  lemma WrittenStep<R>(outputs: map<string, seq<(string, R)>>, reducers: map<string, (string, seq<int>) -> R>,
                       done: set<string>, groups: map<string, seq<int>>, name: string, lines: seq<(string, R)>)
    requires Written(outputs, reducers, done, groups) && name in reducers && lines == Lines(groups, reducers[name])
    ensures Written(outputs[name := lines], reducers, done + {name}, groups)
  {
  }

  /** Every output file of `CombinedReducer.process` lists each input key once, in ascending
      order, with the named reducer applied to all of that key's values in input order. */
  lemma CombinedLines<R>(s: seq<Rec>, reduce: (string, seq<int>) -> R)
    ensures var lines := Lines(GroupAll(s), reduce);
      SortedStrict(Firsts(lines)) &&
      (forall k :: HasKey(lines, k) <==> HasKey(s, k)) &&
      forall i :: 0 <= i < |lines| ==> lines[i].1 == reduce(lines[i].0, ValuesFor(s, lines[i].0))
  {
    GroupAllValues(s);
    var ks := SortedKeysOf(GroupAll(s));
    var lines := Lines(GroupAll(s), reduce);
    assert Firsts(lines) == ks;
    forall k | HasKey(s, k) ensures HasKey(lines, k) {
      assert k in ks;
      var i :| 0 <= i < |ks| && ks[i] == k;
      assert lines[i].0 == k;
    }
  }
}
