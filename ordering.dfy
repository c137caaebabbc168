/** Python's ordering of `str` values (code point by code point, a proper prefix first)
    and the sorted key lists `sorted(d.keys())` produces. */
module Ordering {
  import opened Common

  /** `a < b` on Python strings. */
  predicate StrLt(a: string, b: string)
    decreases |a|
  {
    if |a| == 0 then |b| > 0
    else if |b| == 0 then false
    else if a[0] != b[0] then a[0] < b[0]
    else StrLt(a[1..], b[1..])
  }

  predicate StrLe(a: string, b: string)
  {
    a == b || StrLt(a, b)
  }

  lemma {:induction false} StrLtIrreflexive(a: string)
    ensures !StrLt(a, a)
    decreases |a|
  {
    if |a| > 0 {
      StrLtIrreflexive(a[1..]);
    }
  }

  lemma {:induction false} StrLtTransitive(a: string, b: string, c: string)
    requires StrLt(a, b) && StrLt(b, c)
    ensures StrLt(a, c)
    decreases |a|
  {
    if |a| > 0 && a[0] == b[0] && b[0] == c[0] {
      StrLtTransitive(a[1..], b[1..], c[1..]);
    }
  }

  lemma {:induction false} StrLtTotal(a: string, b: string)
    ensures a == b || StrLt(a, b) || StrLt(b, a)
    decreases |a|
  {
    if |a| > 0 && |b| > 0 && a[0] == b[0] {
      StrLtTotal(a[1..], b[1..]);
      if a[1..] == b[1..] {
        assert a == [a[0]] + a[1..] && b == [b[0]] + b[1..];
      }
    }
  }

  lemma StrLtAsymmetric(a: string, b: string)
    requires StrLt(a, b)
    ensures !StrLt(b, a) && a != b
  {
    StrLtIrreflexive(a);
    if StrLt(b, a) {
      StrLtTransitive(a, b, a);
    }
  }

  /** Strictly ascending: what `sorted` gives for distinct keys. */
  predicate SortedStrict(ks: seq<string>)
  {
    forall i, j :: 0 <= i < j < |ks| ==> StrLt(ks[i], ks[j])
  }

  /** Every key of `s` is at least `k`. */
  predicate IsLeast(k: string, s: set<string>)
  {
    k in s && forall x :: x in s ==> StrLe(k, x)
  }

  lemma {:induction false} LeastExists(s: set<string>) returns (k: string)
    requires s != {}
    ensures IsLeast(k, s)
    decreases |s|
  {
    var x :| x in s;
    if s == {x} {
      k := x;
    } else {
      var m := LeastExists(s - {x});
      StrLtTotal(x, m);
      if StrLt(x, m) {
        k := x;
        forall y | y in s
          ensures StrLe(k, y)
        {
          if y != x {
            assert StrLe(m, y);
            if m != y {
              StrLtTransitive(x, m, y);
            }
          }
        }
      } else {
        k := m;
      }
    }
  }

  /** A strictly ascending list of exactly the strings of `s` exists. */
  lemma {:induction false} SortedOfSet(s: set<string>) returns (ks: seq<string>)
    ensures SortedStrict(ks) && (forall k :: k in ks <==> k in s) && |ks| == |s|
    decreases |s|
  {
    if s == {} {
      ks := [];
    } else {
      var k := LeastExists(s);
      var rest := SortedOfSet(s - {k});
      forall j | 0 <= j < |rest|
        ensures StrLt(k, rest[j])
      {
        assert rest[j] in rest;
      }
      ks := [k] + rest;
    }
  }

  /** `sorted(d.keys())`, as a ghost value. */
  ghost function SortedKeysOf<V>(m: map<string, V>): (ks: seq<string>)
    ensures SortedStrict(ks) && (forall k :: k in ks <==> k in m) && |ks| == |m.Keys|
  {
    assert exists ks :: SortedStrict(ks) && (forall k :: k in ks <==> k in m) && |ks| == |m.Keys| by {
      var w := SortedOfSet(m.Keys);
    }
    var ks :| SortedStrict(ks) && (forall k :: k in ks <==> k in m) && |ks| == |m.Keys|;
    ks
  }

  /** `sorted(d.keys())` for string keys. */
  method SortedKeys<V>(m: map<string, V>) returns (ks: seq<string>)
    ensures SortedStrict(ks)
    ensures forall k :: k in ks <==> k in m
    ensures |ks| == |m.Keys|
  {
    var remaining := m.Keys;
    ks := [];
    while remaining != {}
      invariant SortedStrict(ks)
      invariant forall k :: k in ks <==> k in m && k !in remaining
      invariant remaining <= m.Keys
      invariant forall i, x :: 0 <= i < |ks| && x in remaining ==> StrLt(ks[i], x)
      invariant |ks| + |remaining| == |m.Keys|
      decreases |remaining|
    {
      ghost var w := LeastExists(remaining);
      var k :| k in remaining && IsLeast(k, remaining);
      assert IsLeast(k, remaining);
      assert forall x :: x in remaining ==> StrLe(k, x);
      assert |remaining - {k}| == |remaining| - 1;
      ks := ks + [k];
      remaining := remaining - {k};
    }
  }

  /** Two strictly sorted lists with the same keys are the same list. */
  lemma {:induction false} SortedUnique(a: seq<string>, b: seq<string>)
    requires SortedStrict(a) && SortedStrict(b)
    requires forall k :: k in a <==> k in b
    ensures a == b
    decreases |a|
  {
    NonEmptyBoth(a, b);
    NonEmptyBoth(b, a);
    if |a| > 0 {
      assert a[0] in b;
      assert b[0] in a;
      if a[0] != b[0] {
        var i :| 0 <= i < |b| && b[i] == a[0];
        var j :| 0 <= j < |a| && a[j] == b[0];
        assert i > 0 && j > 0;
        assert StrLt(b[0], b[i]) && StrLt(a[0], a[j]);
        StrLtAsymmetric(a[0], b[0]);
      }
      forall k
        ensures k in a[1..] <==> k in b[1..]
      {
        if k in a[1..] {
          InTail(a, b, k);
        }
        if k in b[1..] {
          InTail(b, a, k);
        }
      }
      SortedUnique(a[1..], b[1..]);
      assert a == [a[0]] + a[1..] && b == [b[0]] + b[1..];
    }
  }

  lemma InTail(a: seq<string>, b: seq<string>, k: string)
    requires SortedStrict(a) && SortedStrict(b) && |a| > 0 && |b| > 0 && a[0] == b[0]
    requires forall x :: x in a <==> x in b
    requires k in a[1..]
    ensures k in b[1..]
  {
    var i :| 1 <= i < |a| && a[i] == k;
    StrLtAsymmetric(a[0], a[i]);
    assert k in b;
    var j :| 0 <= j < |b| && b[j] == k;
    assert j != 0;
    assert b[1..][j - 1] == k;
  }

  lemma NonEmptyBoth(a: seq<string>, b: seq<string>)
    requires forall k :: k in a <==> k in b
    ensures |a| > 0 ==> |b| > 0
  {
    if |a| > 0 {
      assert a[0] in b;
    }
  }
}
