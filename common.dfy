/** Small shared vocabulary: optional values, bytes, and Python's slice rule. */
module Common {

  datatype Option<T> = None | Some(value: T)

  /** One octet, as Python's `bytes` elements are. */
  type byte = x: int | 0 <= x < 256

  /** Python's normalisation of a slice bound against a sequence of length n:
      negative bounds count from the end, and every bound is clamped to [0, n]. */
  function SliceBound(i: int, n: nat): (r: nat)
    ensures r <= n
    ensures 0 <= i <= n ==> r == i
    ensures i < 0 && -i <= n ==> r == n + i
  {
    if i < 0 then (if n + i < 0 then 0 else n + i)
    else if i > n then n
    else i
  }

  /** `s[i:j]` with Python's semantics; an inverted range gives the empty slice. */
  function PySlice<T>(s: seq<T>, i: int, j: int): (r: seq<T>)
    ensures |r| <= |s|
    ensures 0 <= i <= j <= |s| ==> r == s[i..j]
  {
    var a := SliceBound(i, |s|);
    var b := SliceBound(j, |s|);
    if a <= b then s[a..b] else []
  }

  /** A slice holds only elements of what it was cut from, and no more than its upper
      bound when that is not negative. */
  lemma PySliceWithin<T>(s: seq<T>, i: int, j: int)
    ensures forall k :: 0 <= k < |PySlice(s, i, j)| ==> PySlice(s, i, j)[k] in s
    ensures j >= 0 ==> |PySlice(s, i, j)| <= j
  {
    var a := SliceBound(i, |s|);
    var b := SliceBound(j, |s|);
    if a <= b {
      forall k | 0 <= k < b - a ensures s[a..b][k] in s {
        assert s[a..b][k] == s[a + k];
      }
    }
  }

  /** Python's `s[i]` position for a sequence of length n: negative indices count from the
      end; None where Python raises IndexError. */
  function PyIndex(i: int, n: nat): (r: Option<nat>)
    ensures r.Some? <==> -(n as int) <= i < n
    ensures r.Some? ==> r.value < n
    ensures r.Some? && i >= 0 ==> r.value == i
    ensures r.Some? && i < 0 ==> r.value == n + i
  {
    if 0 <= i < n then Some(i) else if -(n as int) <= i < 0 then Some(n + i) else None
  }

  /** `d.get(k, default)` */
  function GetOr<K, V>(m: map<K, V>, k: K, default: V): (r: V)
    ensures k in m ==> r == m[k]
    ensures k !in m ==> r == default
  {
    if k in m then m[k] else default
  }

  function Max(a: int, b: int): int { if a >= b then a else b }
  function Min(a: int, b: int): int { if a <= b then a else b }

  /** The elements of a sequence are pairwise distinct. */
  ghost predicate Distinct<T>(s: seq<T>) {
    forall i, j :: 0 <= i < j < |s| ==> s[i] != s[j]
  }

  /** A sequence without repeats has as many elements as its set of elements. */
  lemma {:induction false} DistinctCardinality<T>(s: seq<T>)
    requires Distinct(s)
    ensures |set x | x in s| == |s|
  {
    if |s| > 0 {
      var t := s[..|s| - 1];
      assert Distinct(t);
      DistinctCardinality(t);
      assert s == t + [s[|s| - 1]];
      assert s[|s| - 1] !in t;
      assert (set x | x in s) == (set x | x in t) + {s[|s| - 1]};
    }
  }

  function Sum(s: seq<int>): int {
    if |s| == 0 then 0 else Sum(s[..|s| - 1]) + s[|s| - 1]
  }

  lemma {:induction false} SumAppend(s: seq<int>, t: seq<int>)
    ensures Sum(s + t) == Sum(s) + Sum(t)
  {
    if |t| == 0 {
      assert s + t == s;
    } else {
      assert (s + t)[..|s + t| - 1] == s + t[..|t| - 1];
      SumAppend(s, t[..|t| - 1]);
    }
  }

  /** Sum of the values of a map; the order of summation does not matter. */
  ghost function MapSum<K>(m: map<K, int>): int
    decreases |m|
  {
    if |m| == 0 then 0
    else
      var k :| k in m;
      m[k] + MapSum(m - {k})
  }

  /** Some key of a non-empty map is the one the sum is unfolded at. */
  lemma MapSumUnfold<K>(m: map<K, int>) returns (j: K)
    requires |m| > 0
    ensures j in m && MapSum(m) == m[j] + MapSum(m - {j})
  {
    j :| j in m && MapSum(m) == m[j] + MapSum(m - {j});
  }

  /** Removing any one key takes its value out of the sum. */
  lemma {:induction false} MapSumRemove<K>(m: map<K, int>, k: K)
    requires k in m
    ensures MapSum(m) == m[k] + MapSum(m - {k})
    decreases |m|
  {
    var j := MapSumUnfold(m);
    if j != k {
      var mj, mk := m - {j}, m - {k};
      RemoveOne(m, j, k);
      RemoveOne(m, k, j);
      MapSumRemove(mj, k);
      MapSumRemove(mk, j);
      assert mj - {k} == mk - {j};
    }
  }

  lemma RemoveOne<K>(m: map<K, int>, j: K, k: K)
    requires j in m && k in m && j != k
    ensures |m - {j}| == |m| - 1 && k in m - {j}
  {
    assert m.Keys == (m - {j}).Keys + {j};
  }

  /** Changing one entry of a map changes its sum by the difference. */
  lemma MapSumUpdate<K>(m: map<K, int>, k: K, v: int)
    ensures MapSum(m[k := v]) == MapSum(m) - (if k in m then m[k] else 0) + v
  {
    var m' := m[k := v];
    MapSumRemove(m', k);
    assert m' - {k} == m - {k};
    if k in m {
      MapSumRemove(m, k);
    } else {
      assert m - {k} == m;
    }
  }

  /** The bytes `b` sit in `data` at offset `off`. */
  predicate At(data: seq<byte>, off: nat, b: seq<byte>)
  {
    off + |b| <= |data| && data[off..off + |b|] == b
  }

  lemma AppendCons<T>(a: seq<T>, s: seq<T>)
    requires s != []
    ensures a + [s[0]] + s[1..] == a + s
  {
    assert [s[0]] + s[1..] == s;
  }

  lemma AppendAssoc<T>(a: seq<T>, b: seq<T>, c: seq<T>)
    ensures a + (b + c) == (a + b) + c
  {
  }

  lemma EmptyAppend<T>(s: seq<T>)
    ensures [] + s == s
  {
  }

  lemma EmptyUnion<T>(s: set<T>)
    ensures {} + s == s
  {
  }

  lemma MapExt<K, V>(a: map<K, V>, b: map<K, V>)
    requires forall k :: k in a ==> k in b && b[k] == a[k]
    requires forall k :: k in b ==> k in a
    ensures a == b
  {
  }

  lemma PrefixSnoc<T>(s: seq<T>, i: nat)
    requires i < |s|
    ensures s[..i + 1] == s[..i] + [s[i]]
  {
  }

  lemma TailSnoc<T>(s: seq<T>, x: T)
    requires |s| > 0
    ensures (s + [x])[1..] == s[1..] + [x] && (s + [x])[0] == s[0]
  {
  }

  lemma AtSplit3(data: seq<byte>, off: nat, a: seq<byte>, b: seq<byte>, c: seq<byte>) returns (o: nat, o2: nat)
    requires At(data, off, a + b + c)
    ensures At(data, off, a) && At(data, o, b) && At(data, o2, c)
    ensures o == off + |a| && o2 == o + |b|
  {
    AtSplit(data, off, a + b, c);
    AtSplit(data, off, a, b);
    o, o2 := off + |a|, off + |a| + |b|;
  }

  lemma AtSplit(data: seq<byte>, off: nat, a: seq<byte>, b: seq<byte>)
    requires At(data, off, a + b)
    ensures At(data, off, a) && At(data, off + |a|, b)
  {
    var whole := data[off..off + |a| + |b|];
    assert data[off..off + |a|] == whole[..|a|];
    assert data[off + |a|..off + |a| + |b|] == whole[|a|..];
  }
}
