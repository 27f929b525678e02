/** Bucket-count rounding (`intrhash_priv::buckets_count`): a requested
    capacity is rounded up to an entry of a fixed ascending table of primes. */
module IntrHashPriv {

  /** The table of bucket counts, in ascending order. */
  const Primes: seq<nat> := [
    7, 17, 29, 53, 97,
    193, 389, 769, 1543, 3079,
    6151, 12289, 24593, 49157, 98317,
    196613, 393241, 786433, 1572869, 3145739,
    6291469, 12582917, 25165843, 50331653, 100663319,
    201326611, 402653189, 805306457, 1610612741, 3221225473, 4294967291
  ]

  /** The last entry of the table, where `last_prime` points. */
  const MaxPrime: nat := 4294967291

  /** `nb` is an entry of the table. */
  ghost predicate IsBucketCount(nb: nat)
  {
    InTable(nb, 0)
  }

  /** `nb` is one of the entries from index `k` on. */
  ghost predicate InTable(nb: nat, k: nat)
    decreases |Primes| - k
  {
    k < |Primes| && (Primes[k] == nb || InTable(nb, k + 1))
  }

  /** The index where an entry found from `k` on sits. */
  lemma {:induction false} TableIndex(nb: nat, k: nat) returns (i: nat)
    requires InTable(nb, k)
    ensures k <= i < |Primes| && Primes[i] == nb
    decreases |Primes| - k
  {
    if Primes[k] == nb {
      i := k;
    } else {
      i := TableIndex(nb, k + 1);
    }
  }

  /** Entry `i` is found by a search starting at or before `i`. */
  lemma {:induction false} TableAt(i: nat, k: nat)
    requires k <= i < |Primes|
    ensures InTable(Primes[i], k)
    decreases i - k
  {
    if k < i {
      TableAt(i, k + 1);
    }
  }

  lemma PrimesBounds()
    ensures |Primes| == 31 && Primes[30] == MaxPrime && Primes[0] == 7
  {
  }

  lemma PrimesAscending()
    ensures |Primes| == 31 && Primes[30] == MaxPrime && Primes[0] == 7
    ensures forall i | 0 <= i < 30 :: Primes[i] < Primes[i + 1]
  {
  }

  lemma {:induction false} PrimesSorted(i: nat, j: nat)
    requires i < j < |Primes|
    ensures Primes[i] < Primes[j]
    decreases j - i
  {
    PrimesAscending();
    if i + 1 < j {
      PrimesSorted(i + 1, j);
    }
  }

  /** Every entry is at least 7, the first one. */
  lemma BucketCountAtLeast(nb: nat)
    requires IsBucketCount(nb)
    ensures nb >= 7
  {
    PrimesAscending();
    var k := TableIndex(nb, 0);
    if k > 0 { PrimesSorted(0, k); }
  }

  /** `std::lower_bound` over `s[lo..hi)`: the first index in that range whose
      entry is at least `n`, or `hi` when there is none. */
  function LowerBound(s: seq<nat>, lo: nat, hi: nat, n: nat): (r: nat)
    requires lo <= hi <= |s|
    ensures lo <= r <= hi
    ensures forall i | lo <= i < r :: s[i] < n
    ensures r < hi ==> s[r] >= n
    decreases hi - lo
  {
    if lo == hi then hi
    else if s[lo] >= n then lo
    else LowerBound(s, lo + 1, hi, n)
  }

  /** `buckets_count(n)`: 7 for n up to 7, otherwise the entry found by
      `lower_bound` over the table without its last element, which yields the
      last element when no other entry is large enough. */
  function BucketsCount(n: nat): (r: nat)
    ensures IsBucketCount(r)
    ensures r >= 7
    ensures n <= MaxPrime ==> r >= n
    ensures n <= MaxPrime ==> forall k | 0 <= k < |Primes| && Primes[k] >= n :: r <= Primes[k]
    ensures n > MaxPrime ==> r == MaxPrime
  {
    var i := if n <= 7 then 0 else LowerBound(Primes, 0, 30, n);
    LeastAbove(i, n);
    Primes[i]
  }

  /** The entry at `i` is the least entry that is at least `n`, when every
      entry before it is below `n` and it is at least `n` or the last one. */
  lemma LeastAbove(i: nat, n: nat)
    requires i < |Primes|
    requires forall k | 0 <= k < i :: Primes[k] < n
    requires i < |Primes| - 1 ==> Primes[i] >= n
    ensures IsBucketCount(Primes[i])
    ensures Primes[i] >= 7
    ensures n <= MaxPrime ==> Primes[i] >= n
    ensures forall k | 0 <= k < |Primes| && Primes[k] >= n :: Primes[i] <= Primes[k]
    ensures n > MaxPrime ==> Primes[i] == MaxPrime
  {
    PrimesAscending();
    TableAt(i, 0);
    if i > 0 { PrimesSorted(0, i); }
    if i < 30 { PrimesSorted(i, 30); }
    forall k | 0 <= k < |Primes| && Primes[k] >= n ensures Primes[i] <= Primes[k] {
      if i < k { PrimesSorted(i, k); }
    }
  }

  /** A bucket count stays in the table, and a larger request never yields a smaller count. */
  lemma BucketsCountMonotone(m: nat, n: nat)
    requires m <= n
    ensures BucketsCount(m) <= BucketsCount(n)
  {
    PrimesAscending();
    var a, b := BucketsCount(m), BucketsCount(n);
    if n <= MaxPrime {
      assert a <= b;
    } else {
      var k := TableIndex(a, 0);
      if k < 30 { PrimesSorted(k, 30); }
    }
  }

  /** Growth from a table entry: asking for more buckets than `nb` yields a
      strictly larger count unless `nb` is already the largest entry. */
  lemma BucketsCountGrows(nb: nat, n: nat)
    requires IsBucketCount(nb)
    requires n > nb
    ensures BucketsCount(n) >= nb
    ensures BucketsCount(n) == nb ==> nb == MaxPrime
  {
    PrimesAscending();
    var k := TableIndex(nb, 0);
    if k < 30 { PrimesSorted(k, 30); }
  }
}
