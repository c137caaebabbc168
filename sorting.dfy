/** Python's `sorted(xs, key=f)` and `list.sort(key=f)`: a stable sort by a key, here over any
    key type ordered by a total preorder `le`. The sort is defined by insertion: each element
    goes after every earlier element whose key is not greater than its own. */
module Sorting {
  import opened Ordering

  /** `le` is total and transitive. */
  ghost predicate TotalPreorder<K(!new)>(le: (K, K) -> bool) {
    (forall a, b :: le(a, b) || le(b, a)) &&
    (forall a, b, c :: le(a, b) && le(b, c) ==> le(a, c))
  }

  /** Two keys neither of which sorts before the other. */
  predicate Equiv<K>(le: (K, K) -> bool, a: K, b: K) {
    le(a, b) && le(b, a)
  }

  predicate SortedBy<T, K>(s: seq<T>, key: T -> K, le: (K, K) -> bool) {
    forall i, j :: 0 <= i < j < |s| ==> le(key(s[i]), key(s[j]))
  }

  /** Insert `x` before the first element whose key is greater than `x`'s. */
  function Insert<T, K>(s: seq<T>, x: T, key: T -> K, le: (K, K) -> bool): seq<T>
    decreases |s|
  {
    if |s| == 0 then [x]
    else if !le(key(s[0]), key(x)) then [x] + s
    else [s[0]] + Insert(s[1..], x, key, le)
  }

  /** The stable sort of `s` by `key`. */
  function SortBy<T, K>(s: seq<T>, key: T -> K, le: (K, K) -> bool): seq<T>
    decreases |s|
  {
    if |s| == 0 then [] else Insert(SortBy(s[..|s| - 1], key, le), s[|s| - 1], key, le)
  }

  /** The elements of `s` whose key is equivalent to `c`, in order. */
  function WithKey<T, K>(s: seq<T>, key: T -> K, le: (K, K) -> bool, c: K): seq<T>
    decreases |s|
  {
    if |s| == 0 then []
    else (if Equiv(le, key(s[0]), c) then [s[0]] else []) + WithKey(s[1..], key, le, c)
  }

  lemma {:induction false} WithKeyAppend<T, K>(a: seq<T>, b: seq<T>, key: T -> K, le: (K, K) -> bool, c: K)
    ensures WithKey(a + b, key, le, c) == WithKey(a, key, le, c) + WithKey(b, key, le, c)
    decreases |a|
  {
    if |a| > 0 {
      assert (a + b)[0] == a[0] && (a + b)[1..] == a[1..] + b;
      WithKeyAppend(a[1..], b, key, le, c);
    } else {
      assert a + b == b;
    }
  }

  lemma {:induction false} InsertMultiset<T, K>(s: seq<T>, x: T, key: T -> K, le: (K, K) -> bool)
    ensures multiset(Insert(s, x, key, le)) == multiset(s) + multiset{x}
    ensures |Insert(s, x, key, le)| == |s| + 1
    decreases |s|
  {
    if |s| > 0 && le(key(s[0]), key(x)) {
      InsertMultiset(s[1..], x, key, le);
      assert s == [s[0]] + s[1..];
    }
  }

  /** Sorting keeps every element, each as often as it occurs. */
  lemma {:induction false} SortByPermutation<T, K>(s: seq<T>, key: T -> K, le: (K, K) -> bool)
    ensures multiset(SortBy(s, key, le)) == multiset(s)
    ensures |SortBy(s, key, le)| == |s|
    decreases |s|
  {
    if |s| > 0 {
      var init := s[..|s| - 1];
      SortByPermutation(init, key, le);
      InsertMultiset(SortBy(init, key, le), s[|s| - 1], key, le);
      assert s == init + [s[|s| - 1]];
    }
  }

  lemma {:induction false} InsertSorted<T, K(!new)>(s: seq<T>, x: T, key: T -> K, le: (K, K) -> bool)
    requires TotalPreorder(le) && SortedBy(s, key, le)
    ensures SortedBy(Insert(s, x, key, le), key, le)
    ensures forall i :: 0 <= i < |Insert(s, x, key, le)| ==> Insert(s, x, key, le)[i] in s || Insert(s, x, key, le)[i] == x
    decreases |s|
  {
    if |s| > 0 {
      if !le(key(s[0]), key(x)) {
        assert le(key(x), key(s[0]));
      } else {
        var rest := Insert(s[1..], x, key, le);
        InsertSorted(s[1..], x, key, le);
        var r := [s[0]] + rest;
        forall i, j | 0 <= i < j < |r| ensures le(key(r[i]), key(r[j])) {
          if i == 0 {
            assert r[j] == rest[j - 1];
            if rest[j - 1] != x {
              assert rest[j - 1] in s[1..];
            }
          }
        }
      }
    }
  }

  /** The sort is sorted by the key. */
  lemma {:induction false} SortBySorted<T, K(!new)>(s: seq<T>, key: T -> K, le: (K, K) -> bool)
    requires TotalPreorder(le)
    ensures SortedBy(SortBy(s, key, le), key, le)
    decreases |s|
  {
    if |s| > 0 {
      SortBySorted(s[..|s| - 1], key, le);
      InsertSorted(SortBy(s[..|s| - 1], key, le), s[|s| - 1], key, le);
    }
  }

  /** Inserting `x` into a sorted sequence puts it after every element with an equivalent key. */
  lemma {:induction false} InsertWithKey<T, K(!new)>(s: seq<T>, x: T, key: T -> K, le: (K, K) -> bool, c: K)
    requires TotalPreorder(le) && SortedBy(s, key, le)
    ensures WithKey(Insert(s, x, key, le), key, le, c) ==
      WithKey(s, key, le, c) + (if Equiv(le, key(x), c) then [x] else [])
    decreases |s|
  {
    if |s| == 0 {
    } else if !le(key(s[0]), key(x)) {
      assert Insert(s, x, key, le) == [x] + s;
      assert WithKey([x] + s, key, le, c) == (if Equiv(le, key(x), c) then [x] else []) + WithKey(s, key, le, c) by {
        assert ([x] + s)[1..] == s;
      }
      if Equiv(le, key(x), c) {
        NoneWithKey(s, key, le, c, key(x));
      }
    } else {
      InsertWithKey(s[1..], x, key, le, c);
      assert ([s[0]] + Insert(s[1..], x, key, le))[1..] == Insert(s[1..], x, key, le);
    }
  }

  /** No element of a sorted sequence whose first key is greater than `k` has a key
      equivalent to `k`. */
  lemma {:induction false} NoneWithKey<T, K(!new)>(s: seq<T>, key: T -> K, le: (K, K) -> bool, c: K, k: K)
    requires TotalPreorder(le) && SortedBy(s, key, le) && |s| > 0
    requires !le(key(s[0]), k) && Equiv(le, k, c)
    ensures WithKey(s, key, le, c) == []
    decreases |s|
  {
    assert !Equiv(le, key(s[0]), c);
    if |s| > 1 {
      assert !le(key(s[1]), k) by {
        assert le(key(s[0]), key(s[1]));
      }
      NoneWithKey(s[1..], key, le, c, k);
    }
  }

  /** The sort is stable: the elements of every key class keep their input order. */
  lemma {:induction false} SortByStable<T, K(!new)>(s: seq<T>, key: T -> K, le: (K, K) -> bool, c: K)
    requires TotalPreorder(le)
    ensures WithKey(SortBy(s, key, le), key, le, c) == WithKey(s, key, le, c)
    decreases |s|
  {
    if |s| > 0 {
      var init, x := s[..|s| - 1], s[|s| - 1];
      SortByStable(init, key, le, c);
      SortBySorted(init, key, le);
      InsertWithKey(SortBy(init, key, le), x, key, le, c);
      assert s == init + [x];
      WithKeyAppend(init, [x], key, le, c);
    }
  }

  function StrLeFn(): (string, string) -> bool {
    (a: string, b: string) => StrLe(a, b)
  }

  /** Python's `<=` on strings is a total preorder (indeed a total order). */
  lemma StrLeTotalPreorder()
    ensures TotalPreorder(StrLeFn())
  {
    var le := StrLeFn();
    forall a, b ensures le(a, b) || le(b, a) {
      StrLtTotal(a, b);
    }
    forall a, b, c | le(a, b) && le(b, c) ensures le(a, c) {
      if a != b && b != c {
        StrLtTransitive(a, b, c);
      }
    }
  }

  lemma IntLe()
    ensures TotalPreorder((a: int, b: int) => a <= b)
  {
  }
}
