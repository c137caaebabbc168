/** The Bloom filter of the storage engine: `numHashes` probes per key into a bit array of
    `size` bits, by double hashing with the key and the key followed by `"_salt"`. The
    string hash is a parameter. */
module Bloom {
  import opened Common

  /** The `i`-th probe of `key`: `(h1 + i * h2) % size`. */
  function Probe(hash: string -> int, size: nat, key: string, i: int): (r: int)
    requires size > 0
    ensures 0 <= r < size
  {
    (hash(key) + i * hash(key + "_salt")) % size
  }

  class BloomFilter {
    const size: nat
    const numHashes: int
    const hash: string -> int
    var bits: array<bool>
    /** The keys added since the last rebuild. */
    ghost var added: set<string>

    /** Every added key has all its probe bits set (so no key is added to a filter whose
        probes divide by zero). */
    ghost predicate Valid()
      reads this, bits
    {
      bits.Length == size && (Raises() ==> added == {}) &&
      forall k, i :: k in added && 0 <= i < numHashes ==> size > 0 && bits[Probe(hash, size, k, i)]
    }

    /** Probing divides by zero: `% self.size` with no bits and at least one hash raises
        `ZeroDivisionError`. */
    predicate Raises() {
      size == 0 && numHashes > 0
    }

    /** `BloomFilter(size, num_hashes)` */
    constructor (size: nat, numHashes: int, hash: string -> int)
      ensures this.size == size && this.numHashes == numHashes && this.hash == hash
      ensures added == {} && fresh(bits) && bits[..] == seq(size, _ => false)
      ensures Valid()
    {
      this.size := size;
      this.numHashes := numHashes;
      this.hash := hash;
      bits := new bool[size](_ => false);
      added := {};
    }

    /** A bit is a probe bit of `key`. */
    ghost predicate Probed(key: string, j: int)
      reads this
      requires size > 0
    {
      exists i :: 0 <= i < numHashes && Probe(hash, size, key, i) == j
    }

    /** `add(key)`: sets every probe bit of `key` and no other; fails, changing nothing,
        where probing divides by zero. */
    method Add(key: string) returns (ok: bool)
      requires Valid()
      modifies this, bits
      ensures ok == !Raises()
      ensures Valid() && added == (if ok then old(added) + {key} else old(added)) && bits == old(bits)
      ensures forall j :: 0 <= j < size ==> bits[j] == (old(bits[j]) || Probed(key, j))
    {
      if size == 0 {
        if numHashes > 0 {
          return false;
        }
        added := added + {key};
        return true;
      }
      var i := 0;
      while i < numHashes
        invariant bits == old(bits) && added == old(added) && bits.Length == size
        invariant forall j :: 0 <= j < size ==>
          bits[j] == (old(bits[j]) || exists h :: 0 <= h < i && Probe(hash, size, key, h) == j)
        invariant forall k, h :: k in old(added) && 0 <= h < numHashes ==> bits[Probe(hash, size, k, h)]
        invariant 0 <= i && (i <= numHashes || i == 0)
        invariant forall h :: 0 <= h < i ==> bits[Probe(hash, size, key, h)]
        decreases numHashes - i
      {
        bits[Probe(hash, size, key, i)] := true;
        i := i + 1;
      }
      added := added + {key};
      return true;
    }

    /** `might_contain(key)`: every probe bit of `key` is set; None where probing divides
        by zero. No added key is ever ruled out. */
    function MightContain(key: string): (r: Option<bool>)
      reads this, bits
      requires Valid()
      ensures r.None? <==> Raises()
      ensures key in added ==> r == Some(true)
      ensures size > 0 ==> (r == Some(true) <==> forall i :: 0 <= i < numHashes ==> bits[Probe(hash, size, key, i)])
    {
      if Raises() then None
      else Some(forall i :: 0 <= i < numHashes ==> size > 0 && bits[Probe(hash, size, key, i)])
    }

    /** `rebuild(keys)`: a cleared bit array with exactly the probe bits of `keys` set;
        fails at the first key, with the cleared array, where probing divides by zero. */
    method Rebuild(keys: seq<string>) returns (ok: bool)
      requires Valid()
      modifies this
      ensures ok == !(Raises() && |keys| > 0)
      ensures Valid() && fresh(bits) && added == if ok then set k | k in keys else {}
      ensures forall j :: 0 <= j < size ==> bits[j] == exists k :: k in keys && Probed(k, j)
    {
      bits := new bool[size](_ => false);
      added := {};
      var n := 0;
      while n < |keys|
        invariant 0 <= n <= |keys| && Valid() && fresh(bits)
        invariant Raises() ==> n == 0
        invariant added == set k | k in keys[..n]
        invariant forall j :: 0 <= j < size ==> bits[j] == exists k :: k in keys[..n] && Probed(k, j)
      {
        ghost var before := bits[..];
        var added1 := Add(keys[n]);
        if !added1 {
          return false;
        }
        assert keys[..n + 1] == keys[..n] + [keys[n]];
        forall j | 0 <= j < size
          ensures bits[j] == exists k :: k in keys[..n + 1] && Probed(k, j)
        {
          assert before[j] == exists k :: k in keys[..n] && Probed(k, j);
        }
        n := n + 1;
      }
      assert keys[..n] == keys;
      return true;
    }
  }
}
