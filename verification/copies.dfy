/** Facts used by the copying constructor `intrhash_t(right, gen)`: where a
    chain starts in the iteration order, the reversed runs of fresh nodes the
    copy builds (each copy is pushed at the head of its bucket), and the
    multiset of entries a sequence of nodes carries. */
module Copies {
  import opened Links
  import opened Chains

  /** The index in the flattening of `cs` where chain `b` begins. */
  ghost function Start(cs: seq<seq<nat>>, b: nat): nat
    requires b <= |cs|
  {
    |Flat(cs[..b])|
  }

  /** The nodes `s + m - 1` down to `s`: a chain built by pushing nodes
      `s`, `s + 1`, ..., `s + m - 1` in turn at its head. */
  ghost function Rev(s: nat, m: nat): seq<nat>
  {
    seq(m, k requires 0 <= k < m => s + m - 1 - k)
  }

  /** Pushing node `s + m` at the head of `Rev(s, m)` gives `Rev(s, m + 1)`. */
  lemma RevCons(s: nat, m: nat)
    ensures Rev(s, m + 1) == [s + m] + Rev(s, m)
  {
    var r, t := Rev(s, m + 1), [s + m] + Rev(s, m);
    assert |r| == |t|;
    forall k | 0 <= k < |r| ensures r[k] == t[k] {
      if k > 0 {
        assert t[k] == Rev(s, m)[k - 1];
      }
    }
  }

  lemma StartNext(cs: seq<seq<nat>>, b: nat)
    requires b < |cs|
    ensures Start(cs, b + 1) == Start(cs, b) + |cs[b]|
  {
    FlatPrefix(cs, b);
  }

  lemma StartAll(cs: seq<seq<nat>>)
    ensures Start(cs, |cs|) == |Flat(cs)|
  {
    assert cs[..|cs|] == cs;
  }

  /** The bucket whose run of the flattening holds index `x`. */
  lemma {:induction false} RunOf(cs: seq<seq<nat>>, x: nat, n: nat) returns (b: nat)
    requires n <= |cs| && x < Start(cs, n)
    ensures b < n && Start(cs, b) <= x < Start(cs, b) + |cs[b]|
    decreases n
  {
    assert cs[..0] == [];
    StartNext(cs, n - 1);
    if x < Start(cs, n - 1) {
      b := RunOf(cs, x, n - 1);
    } else {
      b := n - 1;
    }
  }

  /** Node `k` of chain `b` sits at index `Start(cs, b) + k` of the flattening. */
  lemma FlatAt(cs: seq<seq<nat>>, b: nat, k: nat)
    requires b < |cs| && k < |cs[b]|
    ensures Start(cs, b) + |cs[b]| <= |Flat(cs)|
    ensures Flat(cs)[Start(cs, b) + k] == cs[b][k]
  {
    FlatSplit(cs, b);
  }

  /** Chains of the same lengths flatten to sequences of the same length. */
  lemma {:induction false} FlatLengths(cs: seq<seq<nat>>, ds: seq<seq<nat>>)
    requires |cs| == |ds|
    requires forall b | 0 <= b < |cs| :: |cs[b]| == |ds[b]|
    ensures |Flat(cs)| == |Flat(ds)|
  {
    if cs != [] {
      assert |cs[0]| == |ds[0]|;
      forall b | 0 <= b < |cs[1..]| ensures |cs[1..][b]| == |ds[1..][b]| {
        assert |cs[b + 1]| == |ds[b + 1]|;
      }
      FlatLengths(cs[1..], ds[1..]);
    }
  }

  /** A chain whose nodes carry the keys of a grouped chain read backwards is
      grouped too. */
  lemma GroupedMirror<K, V>(c: seq<nat>, fs: seq<Entry<K, V>>, d: seq<nat>, es: seq<Entry<K, V>>)
    requires |c| == |d| && Grouped(c, fs)
    requires forall i :: KeyPair(c, fs, d, es, i)
    ensures Grouped(d, es)
  {
    var n := |c| - 1;
    forall a, b, l ensures Between(d, es, a, b, l) {
      if 0 <= a < b < l < |d| && SameKey(es, d[a], d[l]) {
        assert KeyPair(c, fs, d, es, a) && KeyPair(c, fs, d, es, b) && KeyPair(c, fs, d, es, l);
        GroupedAt(c, fs, n - l, n - b, n - a);
      }
    }
  }

  // -----------------------------------------------------------------
  // Contents.

  /** The identity on entries: a node copied as it is. */
  function Same<K, V>(e: Entry<K, V>): (r: Entry<K, V>)
    ensures r.key == e.key && r.value == e.value
  {
    e
  }

  /** The entries of the nodes of `s`, each passed through `f`, as a
      multiset; nodes outside the arena `es` carry nothing. */
  ghost function Bag<K, V>(s: seq<nat>, es: seq<Entry<K, V>>, f: Entry<K, V> -> Entry<K, V>): multiset<Entry<K, V>>
  {
    if s == [] then multiset{}
    else (if s[0] < |es| then multiset{f(es[s[0]])} else multiset{}) + Bag(s[1..], es, f)
  }

  lemma {:induction false} BagAppend<K, V>(a: seq<nat>, b: seq<nat>, es: seq<Entry<K, V>>, f: Entry<K, V> -> Entry<K, V>)
    ensures Bag(a + b, es, f) == Bag(a, es, f) + Bag(b, es, f)
  {
    if a == [] {
      assert a + b == b;
    } else {
      assert (a + b)[0] == a[0];
      assert (a + b)[1..] == a[1..] + b;
      BagAppend(a[1..], b, es, f);
    }
  }

  /** One node more at the head. */
  lemma BagCons<K, V>(x: nat, t: seq<nat>, es: seq<Entry<K, V>>, f: Entry<K, V> -> Entry<K, V>)
    requires x < |es|
    ensures Bag([x] + t, es, f) == multiset{f(es[x])} + Bag(t, es, f)
  {
    assert ([x] + t)[1..] == t;
  }

  /** One node more at the tail. */
  lemma BagSnoc<K, V>(t: seq<nat>, y: nat, es: seq<Entry<K, V>>, f: Entry<K, V> -> Entry<K, V>)
    requires y < |es|
    ensures Bag(t + [y], es, f) == Bag(t, es, f) + multiset{f(es[y])}
  {
    BagAppend(t, [y], es, f);
    assert [y][1..] == [];
  }

  /** Chains that carry the same multisets bucket by bucket carry the same
      multiset altogether. */
  lemma {:induction false} BagsEqual<K, V>(cs: seq<seq<nat>>, es: seq<Entry<K, V>>, f: Entry<K, V> -> Entry<K, V>,
                                           ds: seq<seq<nat>>, fs: seq<Entry<K, V>>, g: Entry<K, V> -> Entry<K, V>)
    requires |cs| == |ds|
    requires forall b | 0 <= b < |cs| :: Bag(cs[b], es, f) == Bag(ds[b], fs, g)
    ensures Bag(Flat(cs), es, f) == Bag(Flat(ds), fs, g)
  {
    if cs != [] {
      assert Bag(cs[0], es, f) == Bag(ds[0], fs, g);
      forall b | 0 <= b < |cs[1..]| ensures Bag(cs[1..][b], es, f) == Bag(ds[1..][b], fs, g) {
        assert Bag(cs[b + 1], es, f) == Bag(ds[b + 1], fs, g);
      }
      BagsEqual(cs[1..], es, f, ds[1..], fs, g);
      BagAppend(cs[0], Flat(cs[1..]), es, f);
      BagAppend(ds[0], Flat(ds[1..]), fs, g);
    }
  }

  /** Node `i` of `d` carries the key of the node `i` places from the end
      of `c`. */
  ghost predicate KeyPair<K, V>(c: seq<nat>, fs: seq<Entry<K, V>>, d: seq<nat>, es: seq<Entry<K, V>>, i: int)
  {
    0 <= i < |d| && |d| == |c| ==> d[i] < |es| && c[|c| - 1 - i] < |fs| && es[d[i]].key == fs[c[|c| - 1 - i]].key
  }

  /** `d` over `es` and `c` over `fs` hold as many nodes of every key. */
  ghost predicate SameCounts<K(!new), V>(d: seq<nat>, es: seq<Entry<K, V>>, c: seq<nat>, fs: seq<Entry<K, V>>)
  {
    forall k :: CountKey(d, es, k) == CountKey(c, fs, k)
  }

  /** A chain whose nodes carry the keys of another chain's, in reverse
      order, holds as many nodes of each key. */
  lemma {:induction false} CountKeyMirror<K, V>(c: seq<nat>, fs: seq<Entry<K, V>>, d: seq<nat>, es: seq<Entry<K, V>>, k: K)
    requires |c| == |d| && forall i :: KeyPair(c, fs, d, es, i)
    ensures CountKey(d, es, k) == CountKey(c, fs, k)
    decreases |c|
  {
    if c != [] {
      var n := |c| - 1;
      forall i ensures KeyPair(c[..n], fs, d[1..], es, i) {
        if 0 <= i < n {
          assert KeyPair(c, fs, d, es, i + 1);
          assert c[..n][n - 1 - i] == c[|c| - 1 - (i + 1)];
        }
      }
      CountKeyMirror(c[..n], fs, d[1..], es, k);
      assert c == c[..n] + [c[n]];
      CountKeyAppend(c[..n], [c[n]], fs, k);
      assert [c[n]][1..] == [];
      assert KeyPair(c, fs, d, es, 0);
    }
  }

  /** Buckets holding as many nodes of each key as the other table's
      flatten to orders holding as many. */
  lemma {:induction false} CountKeysEqual<K(!new), V>(cs: seq<seq<nat>>, es: seq<Entry<K, V>>, ds: seq<seq<nat>>, fs: seq<Entry<K, V>>)
    requires |cs| == |ds|
    requires forall b | 0 <= b < |cs| :: SameCounts(cs[b], es, ds[b], fs)
    ensures SameCounts(Flat(cs), es, Flat(ds), fs)
  {
    if cs != [] {
      assert SameCounts(cs[0], es, ds[0], fs);
      forall b | 0 <= b < |cs[1..]| ensures SameCounts(cs[1..][b], es, ds[1..][b], fs) {
        assert SameCounts(cs[b + 1], es, ds[b + 1], fs);
      }
      CountKeysEqual(cs[1..], es, ds[1..], fs);
      forall k ensures CountKey(Flat(cs), es, k) == CountKey(Flat(ds), fs, k) {
        CountKeyAppend(cs[0], Flat(cs[1..]), es, k);
        CountKeyAppend(ds[0], Flat(ds[1..]), fs, k);
      }
    }
  }

  /** `gen` copies the key of every entry it is given: a copy belongs in
      the bucket of its original. */
  ghost predicate KeepsKeys<K(!new), V(!new)>(gen: Entry<K, V> -> Entry<K, V>)
  {
    forall e :: gen(e).key == e.key
  }

  /** Node `s + k` of `es` is the copy through `gen` of node `k` of `c`. */
  ghost predicate CopyAt<K, V>(s: nat, c: seq<nat>, fs: seq<Entry<K, V>>, es: seq<Entry<K, V>>,
                               gen: Entry<K, V> -> Entry<K, V>, k: nat)
  {
    k < |c| && s + k < |es| && c[k] < |fs| && es[s + k] == gen(fs[c[k]])
  }

  /** The nodes `s`, ..., `s + m - 1` of `es`, copies through `gen` of the
      first `m` nodes of `c`, carry in any order what those nodes carry
      through `gen`. */
  lemma {:induction false} BagCopy<K, V>(s: nat, m: nat, c: seq<nat>, fs: seq<Entry<K, V>>, es: seq<Entry<K, V>>,
                                         gen: Entry<K, V> -> Entry<K, V>)
    requires m <= |c|
    requires forall k | 0 <= k < m :: CopyAt(s, c, fs, es, gen, k)
    ensures Bag(Rev(s, m), es, Same) == Bag(c[..m], fs, gen)
  {
    if m == 0 {
      assert Rev(s, 0) == [] && c[..0] == [];
    } else {
      var k := m - 1;
      assert CopyAt(s, c, fs, es, gen, k);
      BagCopy(s, k, c, fs, es, gen);
      RevCons(s, k);
      BagCons(s + k, Rev(s, k), es, Same);
      assert c[..m] == c[..k] + [c[k]];
      BagSnoc(c[..k], c[k], fs, gen);
      assert Same(es[s + k]) == gen(fs[c[k]]);
    }
  }

  // -----------------------------------------------------------------
  // The state of a copy in progress.

  /** Chain `b` of the copy `cs`, when buckets before `i` are copied and `m`
      nodes of bucket `i`: the copies of chain `b` of the original `rcs`,
      numbered from where that chain starts in the original order, in
      reverse; `m` of them for bucket `i`; none after it. */
  ghost predicate CopiedChain(cs: seq<seq<nat>>, rcs: seq<seq<nat>>, i: nat, m: nat, b: int)
  {
    0 <= b < |cs| && b < |rcs| ==>
      cs[b] == (if b < i then Rev(Start(rcs, b), |rcs[b]|) else if b == i then Rev(Start(rcs, b), m) else [])
  }

  /** Node `k` of the copy's arena `es` is the copy through `gen` of node
      `k` of the original order `ro`. */
  ghost predicate CopiedNode<K, V>(es: seq<Entry<K, V>>, ro: seq<nat>, res: seq<Entry<K, V>>, gen: Entry<K, V> -> Entry<K, V>, k: int)
  {
    0 <= k < |es| ==> k < |ro| && ro[k] < |res| && es[k] == gen(res[ro[k]])
  }

  /** Copying node `m` of bucket `i`: the copy is the next node of the
      arena, and it is pushed at the head of chain `i`. */
  lemma CopiedPush<K, V>(cs: seq<seq<nat>>, es: seq<Entry<K, V>>, rcs: seq<seq<nat>>, ro: seq<nat>,
                         res: seq<Entry<K, V>>, gen: Entry<K, V> -> Entry<K, V>, i: nat, m: nat, e: Entry<K, V>,
                         ds: seq<seq<nat>>, fs: seq<Entry<K, V>>, m': nat)
    requires i < |rcs| && m < |rcs[i]| && |cs| == |rcs| && ro == Flat(rcs) && |es| == Start(rcs, i) + m
    requires forall b :: CopiedChain(cs, rcs, i, m, b)
    requires forall k :: CopiedNode(es, ro, res, gen, k)
    requires rcs[i][m] < |res| && e == gen(res[rcs[i][m]])
    requires ds == cs[i := [|es|] + cs[i]] && fs == es + [e] && m' == m + 1
    ensures forall b :: CopiedChain(ds, rcs, i, m', b)
    ensures forall k :: CopiedNode(fs, ro, res, gen, k)
  {
    var s := Start(rcs, i);
    FlatAt(rcs, i, m);
    RevCons(s, m);
    forall b ensures CopiedChain(ds, rcs, i, m', b) {
      assert CopiedChain(cs, rcs, i, m, b);
    }
    forall k ensures CopiedNode(fs, ro, res, gen, k) {
      assert CopiedNode(es, ro, res, gen, k);
    }
  }

  /** A whole bucket copied: the copy moves on to the next bucket. */
  lemma CopiedNext(cs: seq<seq<nat>>, rcs: seq<seq<nat>>, i: nat, m: nat, i': nat)
    requires i < |rcs| && m == |rcs[i]| && i' == i + 1
    requires forall b :: CopiedChain(cs, rcs, i, m, b)
    ensures Start(rcs, i') == Start(rcs, i) + m
    ensures forall b :: CopiedChain(cs, rcs, i', 0, b)
  {
    StartNext(rcs, i);
    forall b ensures CopiedChain(cs, rcs, i', 0, b) {
      assert CopiedChain(cs, rcs, i, m, b);
      assert Rev(Start(rcs, i'), 0) == [];
    }
  }

  /** Bucket `b` of a finished copy is the reversed run of copies of the
      nodes of bucket `b` of the original. */
  lemma CopiesOf<K, V>(cs: seq<seq<nat>>, es: seq<Entry<K, V>>, rcs: seq<seq<nat>>, ro: seq<nat>,
                       res: seq<Entry<K, V>>, gen: Entry<K, V> -> Entry<K, V>, b: nat)
    requires b < |rcs| && |cs| == |rcs| && ro == Flat(rcs) && |es| == |ro|
    requires CopiedChain(cs, rcs, |rcs|, 0, b)
    requires forall k :: CopiedNode(es, ro, res, gen, k)
    ensures cs[b] == Rev(Start(rcs, b), |rcs[b]|)
    ensures forall k | 0 <= k < |rcs[b]| :: CopyAt(Start(rcs, b), rcs[b], res, es, gen, k)
  {
    var s := Start(rcs, b);
    forall k | 0 <= k < |rcs[b]| ensures CopyAt(s, rcs[b], res, es, gen, k) {
      FlatAt(rcs, b, k);
      assert CopiedNode(es, ro, res, gen, s + k);
    }
  }

  /** Read backwards, a reversed run of copies pairs each node with the
      node of `c` it copies. */
  lemma MirrorOf<K, V>(s: nat, c: seq<nat>, fs: seq<Entry<K, V>>, es: seq<Entry<K, V>>,
                       gen: Entry<K, V> -> Entry<K, V>, d: seq<nat>)
    requires d == Rev(s, |c|)
    requires forall k | 0 <= k < |c| :: CopyAt(s, c, fs, es, gen, k)
    ensures |d| == |c|
    ensures forall k :: MirrorAt(c, fs, d, es, gen, k)
  {
    forall k ensures MirrorAt(c, fs, d, es, gen, k) {
      if 0 <= k < |d| {
        assert d[k] == s + (|c| - 1 - k);
        assert CopyAt(s, c, fs, es, gen, |c| - 1 - k);
      }
    }
  }

  /** Node `k` of `d` over `es` is the copy through `gen` of node `k` of `c`
      over `fs` counted from the end. */
  ghost predicate MirrorAt<K, V>(c: seq<nat>, fs: seq<Entry<K, V>>, d: seq<nat>, es: seq<Entry<K, V>>,
                                 gen: Entry<K, V> -> Entry<K, V>, k: int)
  {
    0 <= k < |d| && |d| == |c| ==> c[|c| - 1 - k] < |fs| && d[k] < |es| && es[d[k]] == gen(fs[c[|c| - 1 - k]])
  }

  /** Bucket `b` of a finished copy, `d`: it holds the copies of the nodes
      of bucket `b` of the original, `c`, in reverse order, it is grouped
      when `c` is, and it carries what `c` carries through `gen`. */
  lemma CopiedBucket<K(!new), V(!new)>(cs: seq<seq<nat>>, es: seq<Entry<K, V>>, rcs: seq<seq<nat>>, ro: seq<nat>,
                           res: seq<Entry<K, V>>, gen: Entry<K, V> -> Entry<K, V>, b: nat, c: seq<nat>, d: seq<nat>)
    requires b < |rcs| && |cs| == |rcs| && ro == Flat(rcs) && |es| == |ro|
    requires c == rcs[b] && d == cs[b]
    requires CopiedChain(cs, rcs, |rcs|, 0, b)
    requires forall k :: CopiedNode(es, ro, res, gen, k)
    requires Grouped(c, res) && KeepsKeys(gen)
    ensures |d| == |c|
    ensures forall k :: MirrorAt(c, res, d, es, gen, k)
    ensures Grouped(d, es)
    ensures Bag(d, es, Same) == Bag(c, res, gen)
  {
    var s := Start(rcs, b);
    CopiesOf(cs, es, rcs, ro, res, gen, b);
    MirrorOf(s, c, res, es, gen, d);
    KeysOf(c, res, d, es, gen);
    GroupedMirror(c, res, d, es);
    BagCopy(s, |c|, c, res, es, gen);
    assert c[..|c|] == c;
  }

  /** Copies through a key-keeping `gen` carry the keys of their originals. */
  lemma KeysOf<K(!new), V(!new)>(c: seq<nat>, fs: seq<Entry<K, V>>, d: seq<nat>, es: seq<Entry<K, V>>,
                                 gen: Entry<K, V> -> Entry<K, V>)
    requires |d| == |c| && KeepsKeys(gen)
    requires forall k :: MirrorAt(c, fs, d, es, gen, k)
    ensures forall i :: KeyPair(c, fs, d, es, i)
  {
    forall i ensures KeyPair(c, fs, d, es, i) {
      if 0 <= i < |d| {
        assert MirrorAt(c, fs, d, es, gen, i);
        assert gen(fs[c[|c| - 1 - i]]).key == fs[c[|c| - 1 - i]].key;
      }
    }
  }

  /** A copied bucket holds as many nodes of each key as the original's. */
  lemma CountedBucket<K(!new), V(!new)>(cs: seq<seq<nat>>, es: seq<Entry<K, V>>, rcs: seq<seq<nat>>, ro: seq<nat>,
                           res: seq<Entry<K, V>>, gen: Entry<K, V> -> Entry<K, V>, b: nat, c: seq<nat>, d: seq<nat>)
    requires b < |rcs| && |cs| == |rcs| && ro == Flat(rcs) && |es| == |ro|
    requires c == rcs[b] && d == cs[b]
    requires CopiedChain(cs, rcs, |rcs|, 0, b)
    requires forall k :: CopiedNode(es, ro, res, gen, k)
    requires KeepsKeys(gen)
    ensures SameCounts(d, es, c, res)
  {
    CopiesOf(cs, es, rcs, ro, res, gen, b);
    MirrorOf(Start(rcs, b), c, res, es, gen, d);
    KeysOf(c, res, d, es, gen);
    forall k ensures CountKey(d, es, k) == CountKey(c, res, k) {
      CountKeyMirror(c, res, d, es, k);
    }
  }

  /** A finished copy links every node of its arena: node `x` lies in the
      bucket whose run of the original's order holds index `x`. */
  lemma CopiedCovers(cs: seq<seq<nat>>, rcs: seq<seq<nat>>, x: nat)
    requires |cs| == |rcs| && forall b :: CopiedChain(cs, rcs, |rcs|, 0, b)
    requires x < Start(rcs, |rcs|)
    ensures x in Flat(cs)
  {
    var b := RunOf(rcs, x, |rcs|);
    assert CopiedChain(cs, rcs, |rcs|, 0, b);
    var k := Start(rcs, b) + |rcs[b]| - 1 - x;
    assert cs[b][k] == x;
    FlatAt(cs, b, k);
  }

  /** Chains `cs` over `es` are the copies through `gen` of chains `rcs`
      over `res`, each bucket in reverse order: node `k` of bucket `b` is the
      copy of the node `k` places from the end of bucket `b` of the original. */
  ghost predicate ReversedCopy<K(!new), V(!new)>(cs: seq<seq<nat>>, es: seq<Entry<K, V>>, rcs: seq<seq<nat>>,
                                                  res: seq<Entry<K, V>>, gen: Entry<K, V> -> Entry<K, V>)
  {
    && |cs| == |rcs|
    && (forall b | 0 <= b < |cs| :: |cs[b]| == |rcs[b]|)
    && (forall b, k | 0 <= b < |cs| && 0 <= k < |cs[b]| ::
         && |rcs[b]| == |cs[b]| && rcs[b][|rcs[b]| - 1 - k] < |res|
         && cs[b][k] < |es| && es[cs[b][k]] == gen(res[rcs[b][|rcs[b]| - 1 - k]]))
  }

  /** A finished copy: every bucket is the reversed copy of the original's,
      the copy has as many nodes, every chain is grouped when the original's
      are, and the copy carries what the original carries through `gen`. */
  lemma CopiedAll<K(!new), V(!new)>(cs: seq<seq<nat>>, es: seq<Entry<K, V>>, rcs: seq<seq<nat>>, ro: seq<nat>,
                        res: seq<Entry<K, V>>, gen: Entry<K, V> -> Entry<K, V>)
    requires |cs| == |rcs| && ro == Flat(rcs) && |es| == Start(rcs, |rcs|)
    requires forall b :: CopiedChain(cs, rcs, |rcs|, 0, b)
    requires forall k :: CopiedNode(es, ro, res, gen, k)
    requires AllGrouped(rcs, res) && KeepsKeys(gen)
    ensures |Flat(cs)| == |ro| && AllGrouped(cs, es)
    ensures ReversedCopy(cs, es, rcs, res, gen)
    ensures forall x | 0 <= x < |es| :: x in Flat(cs)
    ensures SameCounts(Flat(cs), es, ro, res)
    ensures Bag(Flat(cs), es, Same) == Bag(ro, res, gen)
  {
    StartAll(rcs);
    forall b | 0 <= b < |cs|
      ensures |cs[b]| == |rcs[b]| && Grouped(cs[b], es) && Bag(cs[b], es, Same) == Bag(rcs[b], res, gen)
      ensures forall k :: MirrorAt(rcs[b], res, cs[b], es, gen, k)
    {
      assert CopiedChain(cs, rcs, |rcs|, 0, b);
      assert GroupedIn(rcs, res, b);
      CopiedBucket(cs, es, rcs, ro, res, gen, b, rcs[b], cs[b]);
    }
    forall b, k | 0 <= b < |cs| && 0 <= k < |cs[b]|
      ensures && |rcs[b]| == |cs[b]| && rcs[b][|rcs[b]| - 1 - k] < |res|
              && cs[b][k] < |es| && es[cs[b][k]] == gen(res[rcs[b][|rcs[b]| - 1 - k]])
    {
      assert MirrorAt(rcs[b], res, cs[b], es, gen, k);
    }
    forall b ensures GroupedIn(cs, es, b) {
    }
    FlatLengths(cs, rcs);
    BagsEqual(cs, es, Same, rcs, res, gen);
    forall x | 0 <= x < |es| ensures x in Flat(cs) {
      CopiedCovers(cs, rcs, x);
    }
    forall b | 0 <= b < |cs| ensures SameCounts(cs[b], es, rcs[b], res) {
      assert CopiedChain(cs, rcs, |rcs|, 0, b);
      CountedBucket(cs, es, rcs, ro, res, gen, b, rcs[b], cs[b]);
    }
    CountKeysEqual(cs, es, rcs, res);
  }
}
