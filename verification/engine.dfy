/** The engine `intrhash_t`: a chained hash table whose chains run through
    the nodes' own link fields.

    The arena model: node `n` is index `n` of `links` (its `next_` field) and
    of `entries` (its key and value). The bucket array has one slot per bucket
    plus a final sentinel slot holding `End`. Each slot holds the head of its
    chain, or `Cont(b + 1)` when the chain is empty; the last node of a chain
    holds `Cont(b + 1)` too, so walking from slot 0 visits every node of the
    table in bucket order and stops at the sentinel.

    The ghost field `chains` names, bucket by bucket, the nodes that the links
    thread together; `Shape` ties the two views to each other. */
module Engine {
  import opened Links
  import opened Chains
  import opened IntrHashPriv
  import opened Threads
  import opened Copies

  /** `init_buckets_`: every slot but the last continues to the next slot, the
      last one is null. */
  method InitBuckets(a: array<Link>)
    modifies a
    ensures forall i | 0 <= i < a.Length - 1 :: a[i] == Cont(i + 1)
    ensures a.Length > 0 ==> a[a.Length - 1] == End
  {
    if a.Length > 0 {
      var i := 0;
      while i != a.Length - 1
        invariant 0 <= i <= a.Length - 1
        invariant forall k | 0 <= k < i :: a[k] == Cont(k + 1)
      {
        a[i] := Cont(i + 1);
        i := i + 1;
      }
      a[i] := End;
    }
  }

  class IntrHash<K(==,!new), V(!new)> {
    /** The key hash of the policy (`ops::hash`). */
    const hash: K -> nat
    /** The bucket array: `|chains|` bucket slots and the sentinel slot. */
    var buckets: array<Link>
    /** The link field of every node of the arena. */
    var links: seq<Link>
    /** The key and value of every node of the arena. */
    var entries: seq<Entry<K, V>>
    /** `nitems_`. */
    var nitems: nat
    /** The nodes threaded from each bucket slot, in link order. */
    ghost var chains: seq<seq<nat>>

    /** The bucket of node `n`: `hash % nbuckets` (`base_ctx_`). */
    ghost function BucketOf(n: nat): nat
      reads this
      requires n < |entries| && |chains| > 0
    {
      Home(hash, entries, n, |chains|)
    }

    /** The links and bucket slots spell out `chains`; every linked node is on
        the chain of its bucket, and no chain repeats a node. */
    ghost predicate Shape()
      reads this, buckets
    {
      Threaded(hash, buckets[..], links, entries, chains)
    }

    /** The class invariant: `Shape`, a bucket count taken from the prime
        table, `nitems_` equal to the number of linked nodes, and each chain
        keeping the nodes of one key next to each other. */
    ghost predicate Valid()
      reads this, buckets
    {
      && Shape()
      && IsBucketCount(|chains|)
      && nitems == |Order()|
      && AllGrouped(chains, entries)
    }

    /** The iteration order: every linked node, bucket by bucket. */
    ghost function Order(): seq<nat>
      reads this
    {
      Flat(chains)
    }

    /** The number of linked nodes whose key is `k`. */
    ghost function Occ(k: K): nat
      reads this
    {
      CountKey(Order(), entries, k)
    }

    // ---------------------------------------------------------------
    // Positions. Position (b, j) is the cell before node j of chain b:
    // slot b when j == 0, the link of node j - 1 otherwise. (|chains|, 0)
    // is the sentinel slot.

    ghost predicate IsPos(b: nat, j: nat)
      reads this
    {
      (b < |chains| && j <= |chains[b]|) || (b == |chains| && j == 0)
    }

    ghost function CtxAt(b: nat, j: nat): Ctx
      reads this
      requires IsPos(b, j)
    {
      if j == 0 then Slot(b) else NextOf(chains[b][j - 1])
    }

    /** The value held at position (b, j). */
    ghost function LinkAtPos(b: nat, j: nat): Link
      reads this
      requires IsPos(b, j)
    {
      if b == |chains| then End else ChainLink(chains[b], j, b)
    }

    /** The nodes before position (b, j) in iteration order. */
    ghost function Pre(b: nat, j: nat): seq<nat>
      reads this
      requires IsPos(b, j)
    {
      if b == |chains| then Flat(chains) else Flat(chains[..b]) + chains[b][..j]
    }

    /** The nodes from position (b, j) on in iteration order. */
    ghost function Rest(b: nat, j: nat): seq<nat>
      reads this
      requires IsPos(b, j)
    {
      if b == |chains| then [] else chains[b][j..] + Flat(chains[b + 1..])
    }

    lemma SplitAt(b: nat, j: nat)
      requires IsPos(b, j)
      ensures Order() == Pre(b, j) + Rest(b, j)
      ensures |Pre(b, j)| <= |Order()|
    {
      if b < |chains| {
        FlatSplit(chains, b);
        assert chains[b] == chains[b][..j] + chains[b][j..];
      }
    }

    /** Past the last node of chain b, the rest is the rest of bucket b + 1. */
    lemma RestNext(b: nat)
      requires b < |chains|
      ensures Rest(b, |chains[b]|) == Rest(b + 1, 0)
    {
      if b + 1 < |chains| {
        FlatSuffix(chains, b + 1);
      } else {
        assert chains[b + 1..] == [];
      }
    }

    /** Pre and Rest step together when a position moves past one node. */
    lemma PreStep(b: nat, j: nat)
      requires b < |chains| && j < |chains[b]|
      ensures Pre(b, j + 1) == Pre(b, j) + [chains[b][j]]
      ensures Rest(b, j) == [chains[b][j]] + Rest(b, j + 1)
    {
      var c, a, t := chains[b], Flat(chains[..b]), Flat(chains[b + 1..]);
      assert c[..j + 1] == c[..j] + [c[j]];
      assert c[j..] == [c[j]] + c[j + 1..];
      calc {
        Pre(b, j + 1);
        a + (c[..j] + [c[j]]);
        (a + c[..j]) + [c[j]];
      }
      calc {
        Rest(b, j);
        ([c[j]] + c[j + 1..]) + t;
        [c[j]] + (c[j + 1..] + t);
      }
    }

    /** Pre steps over the end of a chain. */
    lemma PreNext(b: nat)
      requires b < |chains|
      ensures Pre(b + 1, 0) == Pre(b, |chains[b]|)
    {
      assert chains[b][..|chains[b]|] == chains[b];
      FlatPrefix(chains, b);
      if b + 1 == |chains| {
        assert chains[..b + 1] == chains;
      }
    }

    // ---------------------------------------------------------------
    // Contexts.

    predicate CtxOk(ctx: Ctx)
      reads this
    {
      match ctx
      case Slot(i) => i < buckets.Length
      case NextOf(n) => n < |links|
    }

    /** `*ctx`: the tagged value a context addresses. */
    function Read(ctx: Ctx): Link
      reads this, buckets
      requires CtxOk(ctx)
    {
      match ctx
      case Slot(i) => buckets[i]
      case NextOf(n) => links[n]
    }

    /** The cell at every position is what `Shape` says it holds. */
    lemma ReadPos(b: nat, j: nat)
      requires Shape() && IsPos(b, j)
      ensures CtxOk(CtxAt(b, j)) && Read(CtxAt(b, j)) == LinkAtPos(b, j)
    {
      if b < |chains| {
        CellValue(hash, buckets[..], links, entries, chains, b, j);
      }
    }

    /** What the cell at a position leads to is the head of the rest. */
    lemma ReadRest(b: nat, j: nat)
      requires Shape() && IsPos(b, j)
      ensures LinkAtPos(b, j).Item? ==> Rest(b, j) != [] && Rest(b, j)[0] == LinkAtPos(b, j).node
      ensures LinkAtPos(b, j).Cont? ==> b < |chains| && j == |chains[b]| && LinkAtPos(b, j).slot == b + 1
      ensures LinkAtPos(b, j) == End <==> b == |chains|
    {
    }

    /** `*ctx.ptr() = l`. */
    method Write(ctx: Ctx, l: Link)
      requires CtxOk(ctx) && buckets.Length > 0
      modifies this, buckets
      ensures buckets == old(buckets) && chains == old(chains)
      ensures entries == old(entries) && nitems == old(nitems)
      ensures ctx.Slot? ==> links == old(links) && buckets[..] == old(buckets[..])[ctx.index := l]
      ensures ctx.NextOf? ==> links == old(links)[ctx.node := l] && buckets[..] == old(buckets[..])
    {
      match ctx
      case Slot(i) =>
        buckets[i] := l;
      case NextOf(n) =>
        links := links[n := l];
    }

    /** `ctx_bucket_`: bit 0 is set, the context continues at a bucket slot. */
    static function IsBucket(l: Link): (r: bool)
      ensures r <==> l.Cont?
    {
      l.Cont?
    }

    /** What `ctx_bucket_` tells of a position: the cell continues at a bucket
        slot exactly when the position is the end of a chain. Otherwise it
        holds the node at that position, or null at the sentinel. */
    lemma BucketAtPos(b: nat, j: nat)
      requires Shape() && IsPos(b, j)
      ensures IsBucket(LinkAtPos(b, j)) <==> b < |chains| && j == |chains[b]|
      ensures b < |chains| && j < |chains[b]| ==> LinkAtPos(b, j) == Item(chains[b][j])
      ensures b == |chains| ==> LinkAtPos(b, j) == End
    {
      ReadRest(b, j);
    }

    /** `next_ctx_bucket_`: the context of the slot a continuation leads to. At
        the end of chain b it is position (b + 1, 0). */
    function NextCtxBucket(l: Link, ghost b: nat, ghost j: nat): (r: Ctx)
      reads this, buckets
      requires Shape() && IsPos(b, j) && l == LinkAtPos(b, j) && l.Cont?
      ensures b < |chains| && j == |chains[b]| && r == CtxAt(b + 1, 0)
    {
      Slot(l.slot)
    }

    /** `next_ctx_item_`: the context of the link field of the node a context
        leads to. The position moves past that node. */
    function NextCtxItem(l: Link, ghost b: nat, ghost j: nat): (r: Ctx)
      reads this, buckets
      requires Shape() && IsPos(b, j) && l == LinkAtPos(b, j) && l.Item?
      ensures b < |chains| && j < |chains[b]| && r == CtxAt(b, j + 1) && l.node == chains[b][j]
    {
      NextOf(l.node)
    }

    /** `item_ctx_`: from a context, skip empty buckets up to the next context
        that holds a node or null. What it holds is the head of the same rest. */
    method ItemCtx(ctx: Ctx, ghost b: nat, ghost j: nat) returns (r: Ctx, ghost b': nat, ghost j': nat)
      requires Shape() && IsPos(b, j) && ctx == CtxAt(b, j)
      ensures IsPos(b', j') && r == CtxAt(b', j') && CtxOk(r)
      ensures !Read(r).Cont?
      ensures Rest(b', j') == Rest(b, j) && Pre(b', j') == Pre(b, j)
      ensures Read(r) == HeadOf(Rest(b, j))
    {
      r, b', j' := ctx, b, j;
      ReadPos(b', j');
      while IsBucket(Read(r))
        invariant IsPos(b', j') && r == CtxAt(b', j') && CtxOk(r)
        invariant Read(r) == LinkAtPos(b', j')
        invariant Skips(b, j, b', j')
        decreases |chains| - b'
      {
        r := NextCtxBucket(Read(r), b', j');
        b', j' := b' + 1, 0;
        ReadPos(b', j');
      }
      SkipsSame(b, j, b', j');
      ReadRest(b', j');
    }

    /** Position (b', j') is reached from (b, j) by skipping only empty buckets. */
    ghost predicate Skips(b: nat, j: nat, b': nat, j': nat)
      reads this
    {
      || (b' == b && j' == j)
      || (b < b' && j' == 0 && b < |chains| && j == |chains[b]| && b' <= |chains|
          && forall t | b < t < b' :: chains[t] == [])
    }

    lemma {:induction false} SkipsSame(b: nat, j: nat, b': nat, j': nat)
      requires IsPos(b, j) && Skips(b, j, b', j')
      ensures IsPos(b', j')
      ensures Rest(b', j') == Rest(b, j) && Pre(b', j') == Pre(b, j)
      decreases b'
    {
      if b' != b {
        RestNext(b' - 1);
        PreNext(b' - 1);
        if b' - 1 > b {
          SkipsSame(b, j, b' - 1, 0);
        }
      }
    }

    /** `ctx_relative_`: node `n` has the same key as `key`. */
    function Relative(key: K, n: nat): (r: bool)
      reads this
      requires n < |entries|
      ensures r <==> HasKey(entries, n, key)
    {
      entries[n].key == key
    }

    // ---------------------------------------------------------------
    // Linking and unlinking one node.

    /** `push_item_`: link the unlinked node `n` in at position (b, j) of its
        own bucket. */
    method PushItem(ctx: Ctx, n: nat, ghost b: nat, ghost j: nat)
      requires Shape()
      requires b < |chains| && j <= |chains[b]| && ctx == CtxAt(b, j)
      requires n < |links| && links[n] == End && BucketOf(n) == b
      modifies this, buckets
      ensures Shape()
      ensures buckets == old(buckets) && entries == old(entries) && nitems == old(nitems)
      ensures chains == old(chains)[b := Inserted(old(chains[b]), j, n)]
      ensures Order() == old(Pre(b, j)) + [n] + old(Rest(b, j))
      ensures |links| == old(|links|)
    {
      ghost var c := chains[b];
      ghost var bs, ls, cs := buckets[..], links, chains;
      ReadPos(b, j);
      PushThreaded(hash, bs, ls, entries, cs, b, j, n);
      FlatInsert(cs, b, j, n);
      links := links[n := Read(ctx)];
      Write(ctx, Item(n));
      chains := chains[b := Inserted(c, j, n)];
      assert buckets[..] == PutSlot(bs, CellAt(cs, b, j), Item(n));
      assert links == PushLinks(bs, ls, cs, b, j, n);
    }

    /** `pop_item_`: unlink the node at position (b, j) and null its link. */
    method PopItem(ctx: Ctx, ghost b: nat, ghost j: nat) returns (n: nat)
      requires Shape()
      requires b < |chains| && j < |chains[b]| && ctx == CtxAt(b, j)
      modifies this, buckets
      ensures Shape()
      ensures buckets == old(buckets) && entries == old(entries) && nitems == old(nitems)
      ensures n == old(chains[b][j]) && n < |links| && links[n] == End
      ensures chains == old(chains)[b := Removed(old(chains[b]), j)]
      ensures Order() == old(Pre(b, j)) + old(Rest(b, j + 1))
      ensures old(Order()) == old(Pre(b, j)) + [n] + old(Rest(b, j + 1))
      ensures forall y | 0 <= y < |links| && old(links[y]) == End :: links[y] == End
    {
      ghost var c := chains[b];
      ghost var bs, ls, cs := buckets[..], links, chains;
      ReadPos(b, j);
      PopThreaded(hash, bs, ls, entries, cs, b, j);
      FlatRemove(cs, b, j);
      n := Read(ctx).node;
      Write(ctx, links[n]);
      links := links[n := End];
      chains := chains[b := Removed(c, j)];
      assert buckets[..] == PutSlot(bs, CellAt(cs, b, j), ls[cs[b][j]]);
      assert links == PopLinks(ls, cs, b, j);
      assert j > 0 ==> ls[cs[b][j - 1]] != End;
    }

    // ---------------------------------------------------------------
    // Whole-table facts.

    /** The iteration order visits each node once, and exactly the linked nodes. */
    lemma OrderFacts()
      requires Shape()
      ensures Distinct(Order())
      ensures forall x | 0 <= x < |links| :: links[x] != End <==> x in Order()
      ensures forall x | x in Order() :: x < |links| && x < |entries|
    {
      assert chains[0..] == chains;
      FlatDistinctFrom(hash, links, entries, chains, 0);
      forall x | 0 <= x < |links| ensures links[x] != End <==> x in Order() {
        LinkedIff(hash, buckets[..], links, entries, chains, x);
      }
      forall x | x in Order() ensures x < |links| && x < |entries| {
        InFlatHome(hash, links, entries, chains, 0, x);
      }
    }

    /** The instance of `OrderFacts` for node `x`. */
    lemma UnlinkedIff(x: nat)
      requires Shape() && x < |links|
      ensures links[x] == End <==> x !in Order()
    {
      LinkedIff(hash, buckets[..], links, entries, chains, x);
    }

    /** The part of `OrderFacts` that names no link. */
    lemma OrderDistinct()
      requires Shape()
      ensures Distinct(Order()) && Below(Order(), |links|)
    {
      OrderFacts();
      forall k ensures BelowAt(Order(), |links|, k) {
        if 0 <= k < |Order()| {
          assert Order()[k] in Order();
        }
      }
    }

    /** The nodes of one key are consecutive in the iteration order. */
    lemma OrderGrouped()
      requires Valid()
      ensures Grouped(Order(), entries)
    {
      assert chains[0..] == chains;
      FlatGroupedFrom(hash, links, entries, chains, 0);
    }

    /** All nodes with key `k` are in the bucket `k` hashes to. */
    lemma OccInBase(k: K)
      requires Shape()
      ensures Occ(k) == CountKey(chains[hash(k) % |chains|], entries, k)
    {
      CountInHome(hash, buckets[..], links, entries, chains, k);
    }

    lemma ChainNodes(b: nat)
      requires Shape() && b < |chains|
      ensures forall i | 0 <= i < |chains[b]| :: chains[b][i] < |entries| && chains[b][i] < |links| && BucketOf(chains[b][i]) == b
    {
      forall i | 0 <= i < |chains[b]| ensures chains[b][i] < |entries| && chains[b][i] < |links| && BucketOf(chains[b][i]) == b {
        assert NodeOk(hash, links, entries, chains, b, i);
      }
    }

    /** The node at position (b, i) sits at index |Pre(b, i)| of the order. */
    lemma AtPos(b: nat, i: nat)
      requires b < |chains| && i <= |chains[b]|
      ensures |Pre(b, i)| <= |Order()| && Order()[|Pre(b, i)|..] == Rest(b, i)
      ensures i < |chains[b]| ==> |Pre(b, i)| < |Order()| && Order()[|Pre(b, i)|] == chains[b][i]
    {
      SplitAt(b, i);
    }

    /** Node j of chain b is at index `|Pre(b, j)|` of the order. */
    lemma AtNode(b: nat, j: nat)
      requires b < |chains| && j < |chains[b]|
      ensures |Pre(b, j)| < |Order()| && Order()[|Pre(b, j)|] == chains[b][j]
    {
      AtPos(b, j);
    }

    /** Where a linked node sits. */
    lemma Locate(x: nat, k: nat) returns (b: nat, i: nat)
      requires Shape() && k < |Order()| && Order()[k] == x
      ensures b < |chains| && i < |chains[b]| && chains[b][i] == x && |Pre(b, i)| == k
    {
      OrderFacts();
      assert chains[0..] == chains;
      InFlatHome(hash, links, entries, chains, 0, x);
      b := BucketOf(x);
      i :| 0 <= i < |chains[b]| && chains[b][i] == x;
      AtPos(b, i);
      if |Pre(b, i)| != k {
        DifferAt(Order(), |Pre(b, i)|, k);
      }
    }

    // ---------------------------------------------------------------
    // Queries.

    /** `intrhash_item_t::linked`: a node's link is not null exactly when the
        node is in the table. */
    function Linked(x: nat): (r: bool)
      reads this, buckets
      requires Shape() && x < |links|
      ensures r <==> x in Order()
    {
      LinkedIff(hash, buckets[..], links, entries, chains, x);
      links[x] != End
    }

    /** `base_ctx_`: the bucket a key hashes to, `hash % (slots - 1)`. */
    function BaseIndex(key: K): (r: nat)
      reads this
      requires |chains| > 0 && buckets.Length == |chains| + 1
      ensures r < |chains|
    {
      hash(key) % (buckets.Length - 1)
    }

    /** `find_ctx_`: walk the base bucket of `key` to the first node with that
        key, or to the end of the chain when there is none. */
    method FindCtx(key: K) returns (ctx: Ctx, found: bool, ghost j: nat)
      requires Shape()
      ensures var h := hash(key) % |chains|;
        && j <= |chains[h]| && ctx == CtxAt(h, j)
        && (forall i | 0 <= i < j :: !HasKey(entries, chains[h][i], key))
        && (found <==> j < |chains[h]|)
        && (found ==> HasKey(entries, chains[h][j], key))
    {
      var h := BaseIndex(key);
      ChainNodes(h);
      ctx, j := Slot(h), 0;
      ReadPos(h, 0);
      while !IsBucket(Read(ctx))
        invariant j <= |chains[h]| && ctx == CtxAt(h, j) && CtxOk(ctx)
        invariant Read(ctx) == LinkAtPos(h, j)
        invariant forall i | 0 <= i < j :: !HasKey(entries, chains[h][i], key)
        decreases |chains[h]| - j
      {
        var l := Read(ctx);
        if Relative(key, l.node) {
          return ctx, true, j;
        }
        ctx := NextCtxItem(l, h, j);
        j := j + 1;
        ReadPos(h, j);
      }
      found := false;
    }

    /** `end()`: the sentinel slot, which holds null. */
    function Sentinel(): (r: Link)
      reads this, buckets
      requires Shape()
      ensures r == End
    {
      buckets[buckets.Length - 1]
    }

    /** `begin()`: the first node of the iteration order, or null. */
    method Begin() returns (r: Link)
      requires Shape()
      ensures r == HeadOf(Order())
    {
      assert chains[0..] == chains;
      var ctx, _, _ := ItemCtx(Slot(0), 0, 0);
      r := Read(ctx);
    }

    /** `iterator::next`: from node `x` at index `k` of the order to the node
        after it, skipping empty buckets, or to null after the last one. */
    method Successor(x: nat, ghost k: nat) returns (r: Link)
      requires Shape()
      requires k < |Order()| && Order()[k] == x
      ensures r == HeadOf(Order()[k + 1..])
    {
      ghost var b, i := Locate(x, k);
      PreStep(b, i);
      AtPos(b, i + 1);
      var ctx, _, _ := ItemCtx(NextOf(x), b, i + 1);
      r := Read(ctx);
    }

    /** A walk from `begin()` to `end()` by `iterator::next`: it visits every
        node of the table once, in the iteration order, and stops after
        `size()` steps. */
    method Walk() returns (visited: seq<nat>)
      requires Shape()
      ensures visited == Order()
    {
      visited := [];
      var it := Begin();
      while it != Sentinel()
        invariant |visited| <= |Order()| && visited == Order()[..|visited|]
        invariant it == HeadOf(Order()[|visited|..])
        decreases |Order()| - |visited|
      {
        ghost var k := |visited|;
        var x := it.node;
        assert Order()[..k + 1] == Order()[..k] + [x];
        visited := visited + [x];
        it := Successor(x, k);
      }
      assert Order()[..|Order()|] == Order();
    }

    /** `find`: the first node with `key` in the order, or the end iterator. */
    method Find(key: K) returns (r: Link, ghost p: nat)
      requires Valid()
      ensures r == End <==> Occ(key) == 0
      ensures r != End ==> r.Item? && r.node in Order() && HasKey(entries, r.node, key)
      ensures r != End ==> p < |Order()| && Order()[p] == r.node
      ensures r != End ==> forall i | 0 <= i < p :: !HasKey(entries, Order()[i], key)
    {
      var ctx, found, j := FindCtx(key);
      ghost var h := hash(key) % |chains|;
      OccInBase(key);
      if found {
        ReadPos(h, j);
        r := Read(ctx);
        CountKeyPositive(chains[h], entries, key, j);
        FoundFirst(key, h, j);
        p := |Pre(h, j)|;
      } else {
        r, p := Sentinel(), 0;
        CountKeyNone(chains[h], entries, key);
      }
    }

    /** `has`: some node has `key`. */
    method Has(key: K) returns (r: bool)
      requires Valid()
      ensures r <==> Occ(key) > 0
    {
      var _, found, j := FindCtx(key);
      ghost var h := hash(key) % |chains|;
      OccInBase(key);
      if found {
        CountKeyPositive(chains[h], entries, key, j);
      } else {
        CountKeyNone(chains[h], entries, key);
      }
      r := found;
    }

    /** From a found node at (h, j), step over the run of nodes with `key`:
        the loop shared by `count` and `equal_range_impl_`. */
    method SkipRun(key: K, ctx: Ctx, ghost h: nat, ghost j: nat) returns (last: Ctx, r: nat, ghost e: nat)
      requires Shape() && h < |chains|
      requires h == hash(key) % |chains| && j < |chains[h]| && ctx == CtxAt(h, j)
      requires forall i | 0 <= i < j :: !HasKey(entries, chains[h][i], key)
      requires HasKey(entries, chains[h][j], key)
      ensures j < e <= |chains[h]| && last == CtxAt(h, e) && r == e - j
      ensures forall i | j <= i < e :: HasKey(entries, chains[h][i], key)
      ensures e < |chains[h]| ==> !HasKey(entries, chains[h][e], key)
    {
      ghost var c := chains[h];
      ChainNodes(h);
      ReadPos(h, j);
      r := 1;
      last := NextCtxItem(Read(ctx), h, j);
      e := j + 1;
      ReadPos(h, e);
      while !IsBucket(Read(last)) && Relative(key, Read(last).node)
        invariant j < e <= |c| && last == CtxAt(h, e) && CtxOk(last) && r == e - j
        invariant Read(last) == LinkAtPos(h, e)
        invariant forall i | j <= i < e :: HasKey(entries, c[i], key)
        decreases |c| - e
      {
        assert Read(last) == Item(c[e]);
        assert HasKey(entries, c[e], key);
        r := r + 1;
        last := NextCtxItem(Read(last), h, e);
        e := e + 1;
        ReadPos(h, e);
      }
    }

    /** `count`: the number of nodes with `key`. */
    method Count(key: K) returns (r: nat)
      requires Valid()
      ensures r == Occ(key)
    {
      var ctx, found, j := FindCtx(key);
      if !found {
        OccInBase(key);
        CountKeyNone(chains[hash(key) % |chains|], entries, key);
        return 0;
      }
      var _, n, e := SkipRun(key, ctx, hash(key) % |chains|, j);
      assert GroupedIn(chains, entries, hash(key) % |chains|);
      RunCount(chains[hash(key) % |chains|], entries, key, j, e);
      OccInBase(key);
      r := n;
    }

    /** `equal_range`: the run of nodes with `key`, as the iterator at its
        first node and the iterator just past it; two end iterators when the
        key is absent. */
    method EqualRange(key: K) returns (first: Link, last: Link, ghost p: nat)
      requires Valid()
      ensures p + Occ(key) <= |Order()|
      ensures Occ(key) == 0 ==> first == End && last == End
      ensures Occ(key) > 0 ==> first == Item(Order()[p]) && last == HeadOf(Order()[p + Occ(key)..])
      ensures forall i | p <= i < p + Occ(key) :: HasKey(entries, Order()[i], key)
    {
      var ctx, found, j := FindCtx(key);
      if !found {
        OccInBase(key);
        CountKeyNone(chains[hash(key) % |chains|], entries, key);
        first, last, p := Sentinel(), Sentinel(), 0;
      } else {
        first, last, p := RunBounds(key, ctx, hash(key) % |chains|, j);
      }
    }

    /** `equal_range_impl_` from the first node with `key`, at position
        (h, j): that node and the first node after its run. */
    method RunBounds(key: K, ctx: Ctx, ghost h: nat, ghost j: nat) returns (first: Link, last: Link, ghost p: nat)
      requires Valid() && h < |chains|
      requires h == hash(key) % |chains| && j < |chains[h]| && ctx == CtxAt(h, j)
      requires forall i | 0 <= i < j :: !HasKey(entries, chains[h][i], key)
      requires HasKey(entries, chains[h][j], key)
      ensures p + Occ(key) <= |Order()| && Occ(key) > 0
      ensures first == Item(Order()[p]) && last == HeadOf(Order()[p + Occ(key)..])
      ensures forall i | p <= i < p + Occ(key) :: HasKey(entries, Order()[i], key)
    {
      ReadPos(h, j);
      first := Read(ctx);
      var lc, n, e := SkipRun(key, ctx, h, j);
      assert GroupedIn(chains, entries, h);
      RunCount(chains[h], entries, key, j, e);
      OccInBase(key);
      var ic, _, _ := ItemCtx(lc, h, e);
      last := Read(ic);
      p := |Pre(h, j)|;
      RunInOrder(key, h, j, e);
    }

    /** A run of nodes with `key` at [j, e) of its base chain, as long as the
        key's whole count, is a run of the iteration order. */
    lemma RunInOrder(key: K, h: nat, j: nat, e: nat)
      requires Shape() && h < |chains| && j < e <= |chains[h]|
      requires forall i | j <= i < e :: HasKey(entries, chains[h][i], key)
      requires e - j == Occ(key)
      ensures |Pre(h, j)| + Occ(key) <= |Order()|
      ensures Order()[|Pre(h, j)|] == chains[h][j]
      ensures Order()[|Pre(h, j)| + Occ(key)..] == Rest(h, e)
      ensures forall i | |Pre(h, j)| <= i < |Pre(h, j)| + Occ(key) :: HasKey(entries, Order()[i], key)
    {
      var p := |Pre(h, j)|;
      AtPos(h, j);
      AtPos(h, e);
      assert |Pre(h, e)| == p + (e - j);
      forall i | p <= i < p + (e - j) ensures HasKey(entries, Order()[i], key) {
        var k := i - p;
        assert Order()[i] == Rest(h, j)[k];
        assert Rest(h, j)[k] == chains[h][j + k];
      }
    }

    /** `size`. */
    function Size(): (r: nat)
      reads this, buckets
      requires Valid()
      ensures r == |Order()|
    {
      nitems
    }

    /** `empty`. */
    function Empty(): (r: bool)
      reads this, buckets
      requires Valid()
      ensures r <==> Order() == []
    {
      nitems == 0
    }

    // ---------------------------------------------------------------
    // Construction and nodes.

    /** `intrhash_t(n)`: an empty table with `buckets_count(n)` buckets. */
    constructor (n: nat, hash: K -> nat)
      ensures Valid() && fresh(buckets)
      ensures this.hash == hash && |chains| == BucketsCount(n)
      ensures Order() == [] && entries == [] && links == []
    {
      var a := new Link[BucketsCount(n) + 1];
      InitBuckets(a);
      this.hash := hash;
      buckets := a;
      links, entries, nitems := [], [], 0;
      chains := seq(BucketsCount(n), _ => []);
      new;
      FlatEmpty(chains);
    }

    /** A node as the caller constructs it, before it is pushed: its link is
        null. It joins the arena and is not linked. */
    method NewNode(e: Entry<K, V>) returns (x: nat)
      requires Valid()
      modifies this
      ensures Valid()
      ensures x == old(|links|) && links == old(links) + [End] && entries == old(entries) + [e]
      ensures chains == old(chains) && nitems == old(nitems) && buckets == old(buckets)
      ensures forall k :: Occ(k) == old(Occ(k))
    {
      OrderFacts();
      forall b ensures GroupedIn(chains, entries + [e], b) {
        if 0 <= b < |chains| {
          assert GroupedIn(chains, entries, b);
          ChainNodes(b);
          GroupedExtend(chains[b], entries, e);
        }
      }
      assert AllGrouped(chains, entries + [e]);
      assert forall i | 0 <= i < |Order()| :: Order()[i] < |entries| by {
        forall i | 0 <= i < |Order()| ensures Order()[i] < |entries| {
          assert Order()[i] in Order();
        }
      }
      forall k ensures CountKey(Order(), entries + [e], k) == CountKey(Order(), entries, k) {
        CountKeyExtend(Order(), entries, e, k);
      }
      x := AddNode(e);
    }

    /** The allocation of a node: a new, unlinked node at the end of the
        arena, which leaves the threading intact. */
    method AddNode(e: Entry<K, V>) returns (x: nat)
      requires Shape()
      modifies this
      ensures Shape()
      ensures x == old(|links|) && links == old(links) + [End] && entries == old(entries) + [e]
      ensures chains == old(chains) && nitems == old(nitems) && buckets == old(buckets)
    {
      AppendThreaded(hash, buckets[..], links, entries, chains, e);
      x := |links|;
      links := links + [End];
      entries := entries + [e];
    }

    /** `intrhash_t(right, gen)`: a table with as many buckets as `right`
        and its node count, whose bucket `b` holds the copy through `gen` of
        every node of bucket `b` of `right`. Each copy is pushed at the head
        of its bucket, so a bucket holds the copies in reverse order. The
        copy carries what `right` carries through `gen`. `gen` must keep the
        key, as the copy is linked in the bucket of the original. */
    constructor Clone(right: IntrHash<K, V>, gen: Entry<K, V> -> Entry<K, V>)
      requires right.Valid()
      requires KeepsKeys(gen)
      ensures Valid() && fresh(buckets) && hash == right.hash
      ensures nitems == right.nitems
      ensures ReversedCopy(chains, entries, right.chains, right.entries, gen)
      ensures |links| == |entries| && forall x | 0 <= x < |links| :: x in Order()
      ensures forall k :: Occ(k) == right.Occ(k)
      ensures Bag(Order(), entries, Same) == Bag(right.Order(), right.entries, gen)
    {
      var a := new Link[right.buckets.Length];
      InitBuckets(a);
      hash := right.hash;
      buckets := a;
      links, entries, nitems := [], [], right.nitems;
      chains := seq(right.buckets.Length - 1, _ => []);
      new;
      ghost var rcs, res := right.chains, right.entries;
      ghost var ro := Flat(rcs);
      assert forall b | 0 <= b < |rcs| :: buckets[..][b] == Cont(b + 1);
      EmptyThreaded(hash, buckets[..], links, entries, |rcs|);
      forall b ensures CopiedChain(chains, rcs, 0, 0, b) {
        assert Rev(Start(rcs, 0), 0) == [];
      }
      CopyBuckets(right, gen, rcs, ro, res);
      assert rcs == right.chains && res == right.entries && ro == right.Order();
      CopiedAll(chains, entries, rcs, ro, res, gen);
    }

    /** The invariant of the copy loops: the table is threaded with as many
        buckets as the original (whose chains are `rcs`, whose order is `ro`
        and whose entries are `res`); the buckets before `i` hold their
        copies, bucket `i` the copies of its first `m` nodes, and node `k` of
        the arena is the copy of node `k` of `ro`. */
    ghost predicate Cloning(rcs: seq<seq<nat>>, ro: seq<nat>, res: seq<Entry<K, V>>, gen: Entry<K, V> -> Entry<K, V>, i: nat, m: nat)
      reads this, buckets
    {
      && Shape() && |chains| == |rcs| && ro == Flat(rcs) && i <= |rcs|
      && (if i < |rcs| then m <= |rcs[i]| else m == 0)
      && |entries| == Start(rcs, i) + m
      && (forall b :: CopiedChain(chains, rcs, i, m, b))
      && (forall k :: CopiedNode(entries, ro, res, gen, k))
    }

    /** The outer loop of `intrhash_t(right, gen)`: copy bucket after bucket. */
    method CopyBuckets(right: IntrHash<K, V>, gen: Entry<K, V> -> Entry<K, V>,
                       ghost rcs: seq<seq<nat>>, ghost ro: seq<nat>, ghost res: seq<Entry<K, V>>)
      requires right.Valid() && this != right && buckets != right.buckets && hash == right.hash
      requires rcs == right.chains && res == right.entries
      requires Cloning(rcs, ro, res, gen, 0, 0) && buckets.Length == |rcs| + 1
      requires KeepsKeys(gen)
      modifies this, buckets
      ensures Cloning(rcs, ro, res, gen, |rcs|, 0)
      ensures buckets == old(buckets) && nitems == old(nitems)
    {
      var i := 0;
      while i != buckets.Length - 1
        invariant i <= |rcs| && Cloning(rcs, ro, res, gen, i, 0)
        invariant buckets == old(buckets) && nitems == old(nitems)
        decreases |rcs| - i
      {
        CloneBucket(right, gen, i, rcs, ro, res);
        i := i + 1;
      }
    }

    /** One turn of the outer loop of `intrhash_t(right, gen)`: walk the
        chain of slot `i` of `right` and push a copy of each of its nodes at
        the head of bucket `i`. */
    method CloneBucket(right: IntrHash<K, V>, gen: Entry<K, V> -> Entry<K, V>, i: nat,
                       ghost rcs: seq<seq<nat>>, ghost ro: seq<nat>, ghost res: seq<Entry<K, V>>)
      requires right.Valid() && this != right && buckets != right.buckets && hash == right.hash
      requires rcs == right.chains && res == right.entries
      requires Cloning(rcs, ro, res, gen, i, 0) && i < |rcs|
      requires KeepsKeys(gen)
      modifies this, buckets
      ensures Cloning(rcs, ro, res, gen, i + 1, 0)
      ensures buckets == old(buckets) && nitems == old(nitems)
    {
      var ctx := Slot(i);
      ghost var m := 0;
      right.ReadPos(i, 0);
      while !IsBucket(right.Read(ctx))
        invariant m <= |rcs[i]| && Cloning(rcs, ro, res, gen, i, m)
        invariant ctx == right.CtxAt(i, m) && right.CtxOk(ctx) && right.Read(ctx) == right.LinkAtPos(i, m)
        invariant buckets == old(buckets) && nitems == old(nitems) && buckets != right.buckets && right.Valid()
        decreases |rcs[i]| - m
      {
        ctx := CloneTurn(right, gen, ctx, i, rcs, ro, res, m);
        m := m + 1;
      }
      right.ReadRest(i, m);
      CloningNext(rcs, ro, res, gen, i, m);
    }

    /** A copy that has finished chain `i` goes on at the head of chain `i + 1`. */
    lemma CloningNext(rcs: seq<seq<nat>>, ro: seq<nat>, res: seq<Entry<K, V>>, gen: Entry<K, V> -> Entry<K, V>, i: nat, m: nat)
      requires Cloning(rcs, ro, res, gen, i, m) && i < |rcs| && m == |rcs[i]|
      ensures Cloning(rcs, ro, res, gen, i + 1, 0)
    {
      CopiedNext(chains, rcs, i, m, i + 1);
    }

    /** One turn of the inner copy loop: read node `m` of chain `i` of
        `right`, step the context past it, and push its copy. */
    method CloneTurn(right: IntrHash<K, V>, gen: Entry<K, V> -> Entry<K, V>, ctx: Ctx, i: nat,
                     ghost rcs: seq<seq<nat>>, ghost ro: seq<nat>, ghost res: seq<Entry<K, V>>, ghost m: nat)
      returns (ctx': Ctx)
      requires right.Valid() && this != right && buckets != right.buckets && hash == right.hash
      requires rcs == right.chains && res == right.entries && KeepsKeys(gen)
      requires i < |rcs| && m <= |rcs[i]| && Cloning(rcs, ro, res, gen, i, m)
      requires ctx == right.CtxAt(i, m) && right.CtxOk(ctx) && right.Read(ctx) == right.LinkAtPos(i, m)
      requires !IsBucket(right.Read(ctx))
      modifies this, buckets
      ensures m + 1 <= |rcs[i]| && Cloning(rcs, ro, res, gen, i, m + 1)
      ensures ctx' == right.CtxAt(i, m + 1) && right.CtxOk(ctx') && right.Read(ctx') == right.LinkAtPos(i, m + 1)
      ensures buckets == old(buckets) && nitems == old(nitems)
    {
      var l := right.Read(ctx);
      right.CloneSource(gen, i, m, l);
      ctx' := right.NextCtxItem(l, i, m);
      right.ReadPos(i, m + 1);
      CloneStep(gen(right.entries[l.node]), rcs, ro, res, gen, i, m);
    }

    /** The node a copy loop reads at position (i, m) of this table, when it
        is not the end of the chain: its copy belongs in bucket `i` too. */
    lemma CloneSource(gen: Entry<K, V> -> Entry<K, V>, i: nat, m: nat, l: Link)
      requires Shape() && i < |chains| && m <= |chains[i]| && l == LinkAtPos(i, m) && !l.Cont?
      requires KeepsKeys(gen)
      ensures m < |chains[i]| && l == Item(chains[i][m]) && l.node < |entries|
      ensures hash(gen(entries[l.node]).key) % |chains| == i
    {
      ChainNodes(i);
      assert gen(entries[l.node]).key == entries[l.node].key;
    }

    /** The body of the inner copy loop: `push_item_` of the copy `e` of node
        `m` of chain `i` at slot `i`. */
    method CloneStep(e: Entry<K, V>, ghost rcs: seq<seq<nat>>, ghost ro: seq<nat>, ghost res: seq<Entry<K, V>>,
                     ghost gen: Entry<K, V> -> Entry<K, V>, i: nat, ghost m: nat)
      requires Cloning(rcs, ro, res, gen, i, m) && i < |rcs| && m < |rcs[i]|
      requires rcs[i][m] < |res| && e == gen(res[rcs[i][m]])
      requires hash(e.key) % |rcs| == i
      modifies this, buckets
      ensures Cloning(rcs, ro, res, gen, i, m + 1)
      ensures buckets == old(buckets) && nitems == old(nitems)
    {
      ghost var cs, es := chains, entries;
      var x := AddNode(e);
      InsertedHead(cs[i], x);
      PushItem(Slot(i), x, i, 0);
      CloningStep(cs, es, rcs, ro, res, gen, i, m, e);
    }

    /** The copy `e` of node `m` of chain `i`, added to the arena after `es`
        and pushed at the head of chain `i` of `cs`, keeps the copy going. */
    lemma CloningStep(cs: seq<seq<nat>>, es: seq<Entry<K, V>>, rcs: seq<seq<nat>>, ro: seq<nat>, res: seq<Entry<K, V>>,
                      gen: Entry<K, V> -> Entry<K, V>, i: nat, m: nat, e: Entry<K, V>)
      requires Shape() && |cs| == |rcs| && ro == Flat(rcs) && i < |rcs| && m < |rcs[i]| && |es| == Start(rcs, i) + m
      requires forall b :: CopiedChain(cs, rcs, i, m, b)
      requires forall k :: CopiedNode(es, ro, res, gen, k)
      requires rcs[i][m] < |res| && e == gen(res[rcs[i][m]])
      requires chains == cs[i := [|es|] + cs[i]] && entries == es + [e]
      ensures Cloning(rcs, ro, res, gen, i, m + 1)
    {
      CopiedPush(cs, es, rcs, ro, res, gen, i, m, e, chains, entries, m + 1);
    }

    // ---------------------------------------------------------------
    // Draining and resizing.

    /** `decompose`: unlink every node, bucket by bucket, handing each to the
        callback; the nodes handed over are returned in that order. */
    method Decompose() returns (drained: seq<nat>)
      requires Valid()
      modifies this, buckets
      ensures Valid()
      ensures drained == old(Order()) && Order() == [] && nitems == 0
      ensures buckets == old(buckets) && entries == old(entries)
      ensures |links| == old(|links|) && |chains| == old(|chains|)
      ensures forall x | 0 <= x < |links| :: links[x] == End
    {
      drained := [];
      if nitems != 0 {
        ghost var o := Order();
        var ctx := Slot(0);
        var endCtx := Slot(buckets.Length - 1);
        ghost var b: nat := 0;
        while ctx != endCtx
          invariant Draining(ctx, b, drained, o)
          invariant buckets == old(buckets) && entries == old(entries)
          invariant |chains| == old(|chains|) && |links| == old(|links|)
          decreases |o| - |drained|, |chains| - b
        {
          ctx, b, drained := DrainStep(ctx, b, drained, o);
        }
        FlatEmpty(chains);
      }
      OrderFacts();
    }

    /** The invariant of the loop of `decompose`: the walk is at slot `b`,
        every chain before it is empty, and the nodes drained so far followed
        by the nodes still linked are the old order `o`. */
    ghost predicate Draining(ctx: Ctx, b: nat, drained: seq<nat>, o: seq<nat>)
      reads this, buckets
    {
      && Shape() && b <= |chains| && ctx == Slot(b)
      && (forall b' | 0 <= b' < b :: chains[b'] == [])
      && drained + Order() == o && nitems == |Order()|
    }

    /** One turn of the loop of `decompose`: pop the head of the chain of
        slot `b`, or move on to the next slot when that chain is empty. */
    method DrainStep(ctx: Ctx, ghost b: nat, drained: seq<nat>, ghost o: seq<nat>) returns (ctx': Ctx, ghost b': nat, drained': seq<nat>)
      requires Draining(ctx, b, drained, o) && ctx != Slot(buckets.Length - 1)
      modifies this, buckets
      ensures Draining(ctx', b', drained', o)
      ensures buckets == old(buckets) && entries == old(entries)
      ensures |chains| == old(|chains|) && |links| == old(|links|)
      ensures (|drained'| == |drained| + 1 && b' == b) || (drained' == drained && b' == b + 1 && b' <= |chains|)
    {
      ctx', b', drained' := ctx, b, drained;
      ReadPos(b, 0);
      FlatEmpty(chains[..b]);
      if !IsBucket(Read(ctx)) {
        SplitAt(b, 0);
        nitems := nitems - 1;
        var x := PopItem(ctx, b, 0);
        drained' := drained + [x];
      } else {
        ctx' := NextCtxBucket(Read(ctx), b, 0);
        b' := b + 1;
      }
    }

    /** Relinking the drained node `drained[moved]` at the head of its new
        bucket keeps that chain grouped: if its key is already there, the node
        relinked just before it has the same key and heads that chain. */
    lemma RelinkGrouped(drained: seq<nat>, moved: nat)
      requires Shape() && moved < |drained|
      requires Grouped(drained, entries) && Distinct(drained)
      requires forall i | 0 <= i < |drained| :: drained[i] < |entries|
      requires multiset(Order()) == multiset(drained[..moved])
      requires moved > 0 ==> var h := BucketOf(drained[moved - 1]); chains[h] != [] && chains[h][0] == drained[moved - 1]
      ensures var c := chains[BucketOf(drained[moved])];
        (exists i | 0 <= i < |c| :: SameKey(entries, c[i], drained[moved])) ==> SameKey(entries, c[0], drained[moved])
    {
      var x := drained[moved];
      var h := BucketOf(x);
      var c := chains[h];
      if i :| 0 <= i < |c| && SameKey(entries, c[i], x) {
        AtPos(h, i);
        var y := Order()[|Pre(h, i)|];
        assert y == c[i];
        assert y in multiset(drained[..moved]);
        assert y in drained[..moved];
        var a :| 0 <= a < moved && drained[a] == y;
        var z := drained[moved - 1];
        if a < moved - 1 {
          GroupedAt(drained, entries, a, moved - 1, moved);
        }
        assert SameKey(entries, z, x);
        assert BucketOf(z) == h;
      }
    }

    /** The state `Relink` keeps after moving the first `moved` drained nodes:
        exactly those nodes are linked, every chain is grouped, and the node
        moved last heads its chain. */
    ghost predicate Relinked(drained: seq<nat>, moved: nat)
      reads this, buckets
    {
      && Shape() && moved <= |drained|
      && multiset(Order()) == multiset(drained[..moved])
      && AllGrouped(chains, entries)
      && (moved > 0 ==> drained[moved - 1] < |entries| && var h := BucketOf(drained[moved - 1]); chains[h] != [] && chains[h][0] == drained[moved - 1])
    }

    /** One step of the callback `resize` hands to `decompose`: link the
        drained node `drained[moved]` at the head of its bucket. */
    method RelinkOne(drained: seq<nat>, moved: nat)
      requires Relinked(drained, moved) && moved < |drained|
      requires Grouped(drained, entries) && Distinct(drained)
      requires forall i | 0 <= i < |drained| :: drained[i] < |links|
      modifies this, buckets
      ensures Shape()
      ensures multiset(Order()) == multiset(drained[..moved + 1])
      ensures AllGrouped(chains, entries)
      ensures drained[moved] < |entries| && var h := BucketOf(drained[moved]); chains[h] != [] && chains[h][0] == drained[moved]
      ensures buckets == old(buckets) && entries == old(entries) && nitems == old(nitems)
      ensures |chains| == old(|chains|) && |links| == old(|links|)
    {
      var x := drained[moved];
      DistinctFirst(drained, moved);
      LinkedIff(hash, buckets[..], links, entries, chains, x);
      var h := BaseIndex(entries[x].key);
      assert BucketOf(x) == h;
      RelinkGrouped(drained, moved);
      ghost var cs, o := chains, Order();
      SplitAt(h, 0);
      ghost var pre, rest := Pre(h, 0), Rest(h, 0);
      assert GroupedIn(cs, entries, h);
      GroupedCons(cs[h], entries, x);
      InsertedHead(cs[h], x);
      PushItem(Slot(h), x, h, 0);
      assert chains == cs[h := [x] + cs[h]];
      SpliceMultiset(pre, x, rest);
      AllGroupedUpdate(cs, entries, h, [x] + cs[h]);
      TakeOne(drained, moved);
    }

    /** The callback `resize` hands to `decompose`: link each drained node at
        the head of its bucket in the new, empty bucket array, counting them. */
    method Relink(drained: seq<nat>) returns (moved: nat)
      requires Shape() && forall b | 0 <= b < |chains| :: chains[b] == []
      requires Grouped(drained, entries) && Distinct(drained)
      requires forall i | 0 <= i < |drained| :: drained[i] < |links|
      modifies this, buckets
      ensures Shape() && moved == |drained|
      ensures buckets == old(buckets) && entries == old(entries) && nitems == old(nitems)
      ensures |chains| == old(|chains|) && |links| == old(|links|)
      ensures multiset(Order()) == multiset(drained)
      ensures AllGrouped(chains, entries)
    {
      FlatEmpty(chains);
      forall b ensures GroupedIn(chains, entries, b) {
        if 0 <= b < |chains| {
          assert forall i, j, l :: Between(chains[b], entries, i, j, l);
        }
      }
      moved := 0;
      while moved < |drained|
        invariant Relinked(drained, moved)
        invariant buckets == old(buckets) && entries == old(entries) && nitems == old(nitems)
        invariant |chains| == old(|chains|) && |links| == old(|links|)
      {
        RelinkOne(drained, moved);
        moved := moved + 1;
      }
      assert drained[..moved] == drained;
    }

    /** The body of `resize` once it has decided to grow: move every node to a
        fresh bucket array of `nb` buckets; the nodes are drained in order and
        each is linked at the head of its new bucket. */
    method Rehash(nb: nat)
      requires Valid() && IsBucketCount(nb)
      modifies this, buckets
      ensures Valid() && |chains| == nb && fresh(buckets)
      ensures entries == old(entries) && |links| == old(|links|) && nitems == old(nitems)
      ensures multiset(Order()) == multiset(old(Order()))
    {
      BucketCountAtLeast(nb);
      var nbkts := new Link[nb + 1];
      InitBuckets(nbkts);
      ghost var order := Order();
      OrderFacts();
      OrderGrouped();
      var drained := Decompose();
      buckets := nbkts;
      chains := seq(nb, _ => []);
      assert forall b | 0 <= b < nb :: buckets[..][b] == Cont(b + 1);
      assert forall x | 0 <= x < |links| :: links[x] == End;
      EmptyThreaded(hash, buckets[..], links, entries, nb);
      forall i | 0 <= i < |drained| ensures drained[i] < |links| {
        assert drained[i] in order;
      }
      var moved := Relink(drained);
      nitems := moved;
      assert |Order()| == |multiset(Order())| == |multiset(drained)| == moved;
    }

    /** `resize(n)`: when `n` exceeds the bucket count and `buckets_count(n)`
        is larger still, rehash into `buckets_count(n)` buckets; otherwise
        nothing changes. */
    method Resize(n: nat)
      requires Valid()
      modifies this, buckets
      ensures Valid() && (buckets == old(buckets) || fresh(buckets))
      ensures entries == old(entries) && |links| == old(|links|) && nitems == old(nitems)
      ensures multiset(Order()) == multiset(old(Order()))
      ensures n > old(|chains|) && BucketsCount(n) > old(|chains|) ==> |chains| == BucketsCount(n)
      ensures !(n > old(|chains|) && BucketsCount(n) > old(|chains|)) ==> chains == old(chains) && links == old(links)
    {
      if n > buckets.Length - 1 {
        var count := BucketsCount(n) + 1;
        if count > buckets.Length {
          Rehash(count - 1);
        }
      }
    }

    // ---------------------------------------------------------------
    // Popping.

    /** A node hashed to bucket `h` but absent from chain `h` is not linked. */
    lemma NotInOrder(x: nat, h: nat)
      requires Shape() && x < |entries| && h == BucketOf(x) && x !in chains[h]
      ensures x !in Order()
    {
      if x in Order() {
        assert chains[0..] == chains;
        InFlatHome(hash, links, entries, chains, 0, x);
      }
    }

    /** The node `find_ctx_` stops on is the first node of the order with
        `key`: it sits at index |Pre(h, j)|, and no node before it has the key. */
    lemma FoundFirst(key: K, h: nat, j: nat)
      requires Shape() && h == hash(key) % |chains| && j < |chains[h]|
      requires forall i | 0 <= i < j :: !HasKey(entries, chains[h][i], key)
      ensures |Pre(h, j)| < |Order()| && Order()[|Pre(h, j)|] == chains[h][j]
      ensures forall i | 0 <= i < |Pre(h, j)| :: !HasKey(entries, Order()[i], key)
    {
      PreNoKey(key, h, j);
      AtPos(h, j);
      SplitAt(h, j);
      SplitParts(Pre(h, j), Rest(h, j));
    }

    /** No node before position (h, j) of the base bucket of `key` has `key`
        when none of the first `j` nodes of that bucket has it. */
    lemma PreNoKey(key: K, h: nat, j: nat)
      requires Shape() && h == hash(key) % |chains| && j <= |chains[h]|
      requires forall i | 0 <= i < j :: !HasKey(entries, chains[h][i], key)
      ensures forall i | 0 <= i < |Pre(h, j)| :: !HasKey(entries, Pre(h, j)[i], key)
    {
      var a := Flat(chains[..h]);
      forall i | 0 <= i < |Pre(h, j)| ensures !HasKey(entries, Pre(h, j)[i], key) {
        if i < |a| {
          assert Pre(h, j)[i] == a[i];
          var d := FlatMember(chains[..h], a[i]);
          OnChainHome(hash, links, entries, chains, d, a[i]);
        } else {
          assert Pre(h, j)[i] == chains[h][i - |a|];
        }
      }
    }

    /** `pop_item_` at position (h, j) with `--nitems_`: node j of chain h
        leaves its chain and is unlinked. `PopOrder` tells what that does to
        the order. */
    method PopAt(ctx: Ctx, ghost h: nat, ghost j: nat) returns (n: nat)
      requires Valid() && h < |chains| && j < |chains[h]| && ctx == CtxAt(h, j)
      modifies this, buckets
      ensures Valid()
      ensures n == old(chains[h][j])
      ensures chains == old(chains)[h := Removed(old(chains[h]), j)]
      ensures buckets == old(buckets) && entries == old(entries) && |links| == old(|links|)
      ensures n < |links| && links[n] == End && nitems == old(nitems) - 1
      ensures forall y | 0 <= y < |links| && old(links[y]) == End :: links[y] == End
    {
      ghost var c, cs := chains[h], chains;
      assert GroupedIn(chains, entries, h);
      GroupedRemove(c, entries, j);
      n := PopItem(ctx, h, j);
      nitems := nitems - 1;
      AllGroupedUpdate(cs, entries, h, Removed(c, j));
    }

    /** Removing node j of chain h, the node at index `p` of the order `o`,
        takes exactly that node out of the order. */
    lemma PopOrder(cs: seq<seq<nat>>, h: nat, j: nat, n: nat, o: seq<nat>, p: nat)
      requires h < |cs| && j < |cs[h]| && n == cs[h][j] && chains == cs[h := Removed(cs[h], j)]
      requires o == Flat(cs) && p == |Flat(cs[..h])| + j
      ensures p < |o| && o[p] == n && Order() == o[..p] + o[p + 1..]
    {
      var c := cs[h];
      FlatRemove(cs, h, j);
      SpliceParts(Flat(cs[..h]) + c[..j], n, c[j + 1..] + Flat(cs[h + 1..]));
    }

    /** `pop(iterator)`: unlink the node an iterator at index `k` of the order
        designates; the order closes over the gap. */
    method PopIter(it: Link, ghost k: nat) returns (r: Option<nat>)
      requires Valid() && k < |Order()| && it == HeadOf(Order()[k..])
      modifies this, buckets
      ensures Valid() && buckets == old(buckets) && entries == old(entries)
      ensures r == Some(old(Order())[k]) && old(Order())[k] < |links| && links[old(Order())[k]] == End
      ensures Order() == old(Order())[..k] + old(Order())[k + 1..] && nitems == old(nitems) - 1
    {
      OrderFacts();
      assert it.node == Order()[k] && Order()[k] in Order();
      ghost var p;
      r, p := Pop(it.node);
      if p != k {
        DifferAt(old(Order()), p, k);
      }
    }

    /** `pop(node)`: look for the node itself in the base bucket of its key
        and unlink it; `None` (null) when it is not in the table. */
    method Pop(x: nat) returns (r: Option<nat>, ghost p: nat)
      requires Valid() && x < |entries|
      modifies this, buckets
      ensures Valid() && buckets == old(buckets) && entries == old(entries) && |links| == old(|links|)
      ensures r == None <==> x !in old(Order())
      ensures r == None ==> Order() == old(Order()) && links == old(links) && nitems == old(nitems)
      ensures r != None ==> r == Some(x) && p < |old(Order())| && old(Order())[p] == x
      ensures r != None ==> Order() == old(Order())[..p] + old(Order())[p + 1..]
      ensures r != None ==> links[x] == End && nitems == old(nitems) - 1
    {
      var ctx, found;
      ghost var h, j;
      ctx, found, h, j := Search(x);
      if !found {
        r, p := None, 0;
      } else {
        ghost var cs, o := chains, Order();
        p := |Pre(h, j)|;
        var n := PopAt(ctx, h, j);
        PopOrder(cs, h, j, n, o, p);
        r := Some(n);
      }
    }

    /** The scan of `pop(node)` and `pop(first, last, cbk)`: walk the base
        bucket of the key of `x` comparing node identity. `found` tells
        whether `x` is in the table; when it is, `ctx` is the cell that points
        at it. */
    method Search(x: nat) returns (ctx: Ctx, found: bool, ghost h: nat, ghost j: nat)
      requires Valid() && x < |entries|
      ensures h < |chains| && h == BucketOf(x) && j <= |chains[h]| && ctx == CtxAt(h, j)
      ensures found <==> x in Order()
      ensures found ==> j < |chains[h]| && chains[h][j] == x && CtxOk(ctx) && Read(ctx) == Item(x)
    {
      var base := BaseIndex(entries[x].key);
      h, j := base, 0;
      ctx := Slot(base);
      ReadPos(h, 0);
      while !IsBucket(Read(ctx)) && Read(ctx).node != x
        invariant j <= |chains[h]| && ctx == CtxAt(h, j) && CtxOk(ctx)
        invariant Read(ctx) == LinkAtPos(h, j)
        invariant forall i | 0 <= i < j :: chains[h][i] != x
        decreases |chains[h]| - j
      {
        ctx := NextCtxItem(Read(ctx), h, j);
        j := j + 1;
        ReadPos(h, j);
      }
      found := !IsBucket(Read(ctx));
      if !found {
        NotInOrder(x, h);
      } else {
        AtPos(h, j);
      }
    }

    /** `pop_one(key)`: unlink the first node with `key`; `None` when there is
        none. */
    method PopOne(key: K) returns (r: Option<nat>, ghost p: nat)
      requires Valid()
      modifies this, buckets
      ensures Valid() && buckets == old(buckets) && entries == old(entries) && |links| == old(|links|)
      ensures r == None <==> old(Occ(key)) == 0
      ensures r == None ==> Order() == old(Order()) && links == old(links) && nitems == old(nitems)
      ensures r != None ==> p < |old(Order())| && r.value == old(Order())[p] && HasKey(entries, r.value, key)
      ensures r != None ==> forall i | 0 <= i < p :: !HasKey(entries, old(Order())[i], key)
      ensures r != None ==> Order() == old(Order())[..p] + old(Order())[p + 1..]
      ensures r != None ==> links[r.value] == End && nitems == old(nitems) - 1
    {
      var ctx, found, j := FindCtx(key);
      ghost var h := hash(key) % |chains|;
      OccInBase(key);
      if found {
        PreNoKey(key, h, j);
        CountKeyPositive(chains[h], entries, key, j);
        SplitAt(h, j);
        SplitParts(Pre(h, j), Rest(h, j));
        ghost var cs, o := chains, Order();
        p := |Pre(h, j)|;
        var n := PopAt(ctx, h, j);
        PopOrder(cs, h, j, n, o, p);
        r := Some(n);
      } else {
        CountKeyNone(chains[h], entries, key);
        r, p := None, 0;
      }
    }

    /** `pop_all(key, cbk)`: unlink the whole run of nodes with `key`, handing
        each to the callback in order; `removed` is the sequence of nodes the
        callback receives. */
    method PopAll(key: K) returns (removed: seq<nat>, ghost p: nat)
      requires Valid()
      modifies this, buckets
      ensures Valid() && buckets == old(buckets) && entries == old(entries) && |links| == old(|links|)
      ensures |removed| == old(Occ(key)) && p + |removed| <= |old(Order())|
      ensures removed == old(Order())[p..p + |removed|]
      ensures Order() == old(Order())[..p] + old(Order())[p + |removed|..]
      ensures forall i | 0 <= i < |removed| :: HasKey(entries, removed[i], key)
      ensures forall i | 0 <= i < |removed| :: removed[i] < |links| && links[removed[i]] == End
      ensures nitems == old(nitems) - |removed| && Occ(key) == 0
    {
      var ctx, found, j := FindCtx(key);
      ghost var h := hash(key) % |chains|;
      OccInBase(key);
      p := |Pre(h, j)|;
      if !found {
        CountKeyNone(chains[h], entries, key);
        SplitAt(h, j);
        removed := [];
        return;
      }
      ghost var o;
      removed, o := PopAllFrom(key, ctx, h, j, p);
    }

    /** `pop_all` once the first node with `key` has been found at position
        `j` of its home chain, `p` in the order. */
    method PopAllFrom(key: K, ctx: Ctx, ghost h: nat, ghost j: nat, ghost p: nat) returns (removed: seq<nat>, ghost o: seq<nat>)
      requires Valid() && h == hash(key) % |chains| && j < |chains[h]| && ctx == CtxAt(h, j)
      requires forall i | 0 <= i < j :: !HasKey(entries, chains[h][i], key)
      requires HasKey(entries, chains[h][j], key)
      requires p == |Flat(chains[..h])| + j
      modifies this, buckets
      ensures Valid() && buckets == old(buckets) && entries == old(entries) && |links| == old(|links|)
      ensures o == old(Order())
      ensures p + |removed| <= |o| && CountKey(o, entries, key) == |removed|
      ensures Order() == o[..p] + o[p + |removed|..]
      ensures removed == o[p..p + |removed|]
      ensures CountKey(Order(), entries, key) == 0
      ensures forall i | 0 <= i < |removed| :: HasKey(entries, removed[i], key)
      ensures forall i | 0 <= i < |removed| :: removed[i] < |links| && links[removed[i]] == End
      ensures nitems == old(nitems) - |removed|
    {
      ghost var cs := chains;
      o := Order();
      RunPlan(key, h);
      removed := PopRun(key, ctx, h, j, cs[h], cs);
      RunDropped(cs, h, j, key, p, o, removed);
    }

    /** After `PopRun` took the run `removed` out of chain `h` of `cs`, the
        order lost exactly that run, at index `p`, and with it every node
        with `key`. */
    lemma RunDropped(cs: seq<seq<nat>>, h: nat, j: nat, key: K, p: nat, o: seq<nat>, removed: seq<nat>)
      requires h < |cs| && 0 < |removed| && j + |removed| <= |cs[h]| && Grouped(cs[h], entries)
      requires forall i | 0 <= i < j :: !HasKey(entries, cs[h][i], key)
      requires forall i | j <= i < j + |removed| :: HasKey(entries, cs[h][i], key)
      requires j + |removed| < |cs[h]| ==> !HasKey(entries, cs[h][j + |removed|], key)
      requires CountKey(Flat(cs), entries, key) == CountKey(cs[h], entries, key)
      requires p == |Flat(cs[..h])| + j && o == Flat(cs)
      requires chains == cs[h := cs[h][..j] + cs[h][j + |removed|..]] && removed == cs[h][j..j + |removed|]
      ensures p + |removed| <= |o| && CountKey(o, entries, key) == |removed|
      ensures Order() == o[..p] + o[p + |removed|..]
      ensures removed == o[p..p + |removed|]
      ensures CountKey(Order(), entries, key) == 0
    {
      DropRun(cs, h, j, |removed|, entries, key, p, cs[h], o, chains, removed);
    }

    /** What `PopAllFrom` needs of the table before it pops: the home chain of
        `key` is grouped and holds every node with `key`. */
    lemma RunPlan(key: K, h: nat)
      requires Valid() && h == hash(key) % |chains|
      ensures Grouped(chains[h], entries)
      ensures CountKey(Flat(chains), entries, key) == CountKey(chains[h], entries, key)
    {
      OccInBase(key);
      assert GroupedIn(chains, entries, h);
    }

    /** The loop of `pop_all`, a do-while: pop the node at the context of the
        first node with `key`, and go on while that context holds a node with
        `key`. The first round's test is true, so the loop tests first. */
    method PopRun(key: K, ctx: Ctx, ghost h: nat, ghost j: nat, ghost c: seq<nat>, ghost cs: seq<seq<nat>>) returns (removed: seq<nat>)
      requires Valid() && cs == chains && h == hash(key) % |chains| && c == cs[h] && j < |c| && ctx == CtxAt(h, j)
      requires HasKey(entries, c[j], key)
      modifies this, buckets
      ensures Valid() && buckets == old(buckets) && entries == old(entries) && |links| == old(|links|)
      ensures 0 < |removed| && j + |removed| <= |c| && chains == cs[h := c[..j] + c[j + |removed|..]]
      ensures removed == c[j..j + |removed|]
      ensures forall i | j <= i < j + |removed| :: HasKey(entries, c[i], key)
      ensures j + |removed| < |c| ==> !HasKey(entries, c[j + |removed|], key)
      ensures forall i | 0 <= i < |removed| :: HasKey(entries, removed[i], key)
      ensures forall i | 0 <= i < |removed| :: removed[i] < |links| && links[removed[i]] == End
      ensures nitems == old(nitems) - |removed|
    {
      assert c[..j] + c[j..] == c;
      removed := [];
      while true
        invariant Valid() && buckets == old(buckets) && entries == old(entries) && |links| == old(|links|)
        invariant j + |removed| <= |c| && chains == cs[h := c[..j] + c[j + |removed|..]]
        invariant removed == c[j..j + |removed|]
        invariant forall i | j <= i < j + |removed| :: HasKey(entries, c[i], key)
        invariant forall i | 0 <= i < |removed| :: removed[i] < |links| && links[removed[i]] == End
        invariant nitems + |removed| == old(nitems)
        invariant removed == [] ==> j < |c| && HasKey(entries, c[j], key)
        decreases |c| - |removed|
      {
        var stop := RunEnds(key, ctx, h, j, c, cs, |removed|);
        if stop {
          break;
        }
        removed := PopNext(key, ctx, h, j, c, cs, removed);
      }
      RunKeys(c, j, removed, entries, key);
    }

    /** The test of the `pop_all` loop: the cell at position (h, j) no longer
        leads to a node with `key` once the `m` nodes after `j` of chain `c`
        are cut out of it. */
    method RunEnds(key: K, ctx: Ctx, ghost h: nat, ghost j: nat, ghost c: seq<nat>, ghost cs: seq<seq<nat>>, ghost m: nat)
      returns (stop: bool)
      requires Shape() && h < |cs| && j + m <= |c| && chains == cs[h := c[..j] + c[j + m..]] && ctx == CtxAt(h, j)
      ensures stop <==> !(j + m < |c| && HasKey(entries, c[j + m], key))
    {
      ReadPos(h, j);
      ChainNodes(h);
      assert j < |chains[h]| ==> chains[h][j] == c[j + m];
      var l := Read(ctx);
      stop := IsBucket(l) || !Relative(key, l.node);
    }

    /** One round of `pop_all`: the nodes `removed` from position (h, j) on
        are already cut from chain `c`; cut the next one, which has `key`, and
        append it. */
    method PopNext(key: K, ctx: Ctx, ghost h: nat, ghost j: nat, ghost c: seq<nat>, ghost cs: seq<seq<nat>>, removed: seq<nat>)
      returns (removed': seq<nat>)
      requires Valid() && h < |cs|
      requires j + |removed| < |c| && chains == cs[h := c[..j] + c[j + |removed|..]] && removed == c[j..j + |removed|]
      requires ctx == CtxAt(h, j)
      requires forall i | j <= i < j + |removed| :: HasKey(entries, c[i], key)
      requires HasKey(entries, c[j + |removed|], key)
      requires forall i | 0 <= i < |removed| :: removed[i] < |links| && links[removed[i]] == End
      modifies this, buckets
      ensures Valid() && buckets == old(buckets) && entries == old(entries) && |links| == old(|links|)
      ensures |removed'| == |removed| + 1 && j + |removed'| <= |c| && chains == cs[h := c[..j] + c[j + |removed'|..]] && removed' == c[j..j + |removed'|]
      ensures forall i | j <= i < j + |removed'| :: HasKey(entries, c[i], key)
      ensures forall i | 0 <= i < |removed'| :: removed'[i] < |links| && links[removed'[i]] == End
      ensures nitems + |removed'| == old(nitems) + |removed|
    {
      ghost var ocs, ls := chains, links;
      var n := PopAt(ctx, h, j);
      removed' := removed + [n];
      RunCut(c, j, |removed|, cs, h, ocs, chains, removed, n, removed', entries, key);
      StillUnlinked(ls, links, removed, n, removed');
    }

    /** `pop(first, last, cbk)`: find `first` itself in the base bucket of
        its key; when it is there, pop every node from it on, bucket after
        bucket, up to `last` or to the end of the table (`last` may be null),
        handing each to the callback. Nothing happens when `first` is not in
        the table. The popped nodes are `o[p..q]` of the old order `o`. */
    method PopRange(first: nat, last: Link) returns (removed: seq<nat>, ghost p: nat, ghost q: nat)
      requires Valid() && first < |entries| && !last.Cont?
      modifies this, buckets
      ensures Valid() && buckets == old(buckets) && entries == old(entries) && |links| == old(|links|)
      ensures first !in old(Order()) ==> removed == [] && Order() == old(Order()) && nitems == old(nitems)
      ensures first in old(Order()) ==> p < |old(Order())| && old(Order())[p] == first
      ensures p <= q <= |old(Order())| && removed == old(Order())[p..q]
      ensures Order() == old(Order())[..p] + old(Order())[q..]
      ensures forall k | p <= k < q :: Item(old(Order())[k]) != last
      ensures first in old(Order()) && q < |old(Order())| ==> Item(old(Order())[q]) == last
      ensures forall k | p <= k < q :: old(Order())[k] < |links| && links[old(Order())[k]] == End
      ensures nitems == old(nitems) - |removed|
    {
      var ctx, found;
      ghost var h, j;
      ctx, found, h, j := Search(first);
      if !found {
        removed, p, q := [], 0, 0;
        return;
      }
      ghost var o;
      removed, o, p, q := PopFrom(last, ctx, h, j);
    }

    /** `pop(first, last, cbk)` once `first` is found at position (h, j). */
    method PopFrom(last: Link, ctx: Ctx, ghost h: nat, ghost j: nat) returns (removed: seq<nat>, ghost o: seq<nat>, ghost p: nat, ghost q: nat)
      requires Valid() && h < |chains| && j < |chains[h]| && ctx == CtxAt(h, j) && !last.Cont?
      modifies this, buckets
      ensures o == old(Order()) && Valid() && buckets == old(buckets) && entries == old(entries) && |links| == old(|links|)
      ensures p < |o| && o[p] == old(chains[h][j])
      ensures RangePopped(o, p, q, last) && removed == o[p..q]
      ensures nitems == old(nitems) - (q - p)
    {
      AtNode(h, j);
      p := |Pre(h, j)|;
      o := Order();
      OrderDistinct();
      ghost var cur, b, i;
      removed, cur, b, i := PopSpan(last, ctx, h, j, o, p);
      q := p + |removed|;
      SpanPopped(last, cur, b, i, o, p, q, removed);
    }

    /** The nodes cut out of an order without repetitions are unlinked. */
    lemma CutUnlinked(o: seq<nat>, p: nat, q: nat)
      requires Shape() && Distinct(o) && p <= q <= |o| && Order() == o[..p] + o[q..]
      requires Below(o, |links|)
      ensures forall k | p <= k < q :: o[k] < |links| && links[o[k]] == End
    {
      OrderFacts();
      forall k | p <= k < q ensures o[k] < |links| && links[o[k]] == End {
        assert BelowAt(o, |links|, k);
        if o[k] in Order() {
          var t :| 0 <= t < |Order()| && Order()[t] == o[k];
          if t < p {
            DifferAt(o, t, k);
          } else {
            assert Order()[t] == o[t - p + q];
            DifferAt(o, t - p + q, k);
          }
        }
      }
    }

    /** The loop of `pop(first, last, cbk)`, from position (h, j): a node
        other than `last` is popped, a continuation moves to the next bucket
        slot, and the loop stops at `last` or at the sentinel slot. */
    method PopSpan(last: Link, ctx: Ctx, ghost h: nat, ghost j: nat, ghost o: seq<nat>, ghost p: nat)
      returns (removed: seq<nat>, ghost cur: Ctx, ghost b: nat, ghost i: nat)
      requires Valid() && h < |chains| && j < |chains[h]| && ctx == CtxAt(h, j)
      requires o == Order() && p == |Pre(h, j)|
      modifies this, buckets
      ensures Spanning(last, cur, b, i, o, p, removed)
      ensures b < |chains| ==> CtxOk(cur) && Read(cur) == last
      ensures buckets == old(buckets) && entries == old(entries) && |links| == old(|links|)
    {
      b, i := h, j;
      SplitAt(h, j);
      SplitParts(Pre(h, j), Rest(h, j));
      var c := ctx;
      removed := [];
      while true
        invariant Spanning(last, c, b, i, o, p, removed)
        invariant buckets == old(buckets) && entries == old(entries) && |links| == old(|links|) && |chains| == old(|chains|)
        decreases |o| - p - |removed|, |chains| - b
      {
        var stop;
        c, b, i, removed, stop := SpanAdvance(last, c, b, i, o, p, removed);
        if stop {
          break;
        }
      }
      cur := c;
    }

    /** One turn of the loop of `pop(first, last, cbk)` at position (b, i):
        stop at the sentinel slot or at `last`; pop any other node; follow a
        continuation to the next bucket slot. */
    method SpanAdvance(last: Link, c: Ctx, ghost b: nat, ghost i: nat, ghost o: seq<nat>, ghost p: nat, removed: seq<nat>)
      returns (c': Ctx, ghost b': nat, ghost i': nat, removed': seq<nat>, stop: bool)
      requires Spanning(last, c, b, i, o, p, removed)
      modifies this, buckets
      ensures Spanning(last, c', b', i', o, p, removed')
      ensures buckets == old(buckets) && entries == old(entries) && |links| == old(|links|) && |chains| == old(|chains|)
      ensures stop ==> b' < |chains| ==> CtxOk(c') && Read(c') == last
      ensures !stop ==> (|removed'| == |removed| + 1 && b' == b) || (removed' == removed && b' == b + 1 && b' <= |chains|)
    {
      c', b', i', removed', stop := c, b, i, removed, true;
      AtSentinel(b, i);
      if c != Slot(buckets.Length - 1) {
        c', b', i', removed', stop := SpanTurn(last, c, b, i, o, p, removed);
      }
    }

    /** The turn of `SpanAdvance` at a position before the sentinel slot. */
    method SpanTurn(last: Link, c: Ctx, ghost b: nat, ghost i: nat, ghost o: seq<nat>, ghost p: nat, removed: seq<nat>)
      returns (c': Ctx, ghost b': nat, ghost i': nat, removed': seq<nat>, stop: bool)
      requires Spanning(last, c, b, i, o, p, removed) && b < |chains|
      modifies this, buckets
      ensures Spanning(last, c', b', i', o, p, removed')
      ensures buckets == old(buckets) && entries == old(entries) && |links| == old(|links|) && |chains| == old(|chains|)
      ensures stop ==> CtxOk(c') && Read(c') == last
      ensures !stop ==> (|removed'| == |removed| + 1 && b' == b) || (removed' == removed && b' == b + 1 && b' <= |chains|)
    {
      c', b', i', removed', stop := c, b, i, removed, true;
      ReadPos(b, i);
      if !IsBucket(Read(c)) {
        if Read(c) != last {
          removed' := PopSpanStep(last, c, b, i, o, p, removed);
          stop := false;
        }
      } else {
        SpanNext(last, c, b, i, o, p, removed);
        c' := NextCtxBucket(Read(c), b, i);
        b', i', stop := b + 1, 0, false;
      }
    }

    /** The context of position (b, i) is the sentinel slot exactly at the
        sentinel position. */
    lemma AtSentinel(b: nat, i: nat)
      requires Shape() && IsPos(b, i)
      ensures CtxAt(b, i) == Slot(buckets.Length - 1) <==> b == |chains|
    {
      ReadPos(b, i);
    }

    /** Where the loop of `pop(first, last, cbk)` stops: at `last`, or at the
        end of the table. The nodes popped are `o[p..q]`, the nodes from
        position `p` up to `last` or to the end. */
    lemma SpanDone(last: Link, cur: Ctx, b: nat, i: nat, o: seq<nat>, p: nat, removed: seq<nat>)
      requires Spanning(last, cur, b, i, o, p, removed) && !last.Cont?
      requires b < |chains| ==> CtxOk(cur) && Read(cur) == last
      ensures p + |removed| < |o| ==> Item(o[p + |removed|]) == last
    {
      var m := |removed|;
      assert |Order()| + m == |o|;
      if b < |chains| {
        ReadPos(b, i);
        ReadRest(b, i);
        AtPos(b, i);
        assert Order()[p] == o[p + m];
      } else {
        assert Pre(b, i) == Order();
      }
    }

    /** What `pop(first, last, cbk)` leaves, given the old order `o`: the
        nodes `o[p..q]` are cut out of the order and unlinked, none of them is
        `last`, and `last` is the node right after them unless they run to
        the end of the table. */
    ghost predicate RangePopped(o: seq<nat>, p: nat, q: nat, last: Link)
      reads this
    {
      && p <= q <= |o| && Order() == o[..p] + o[q..]
      && (forall k | p <= k < q :: Item(o[k]) != last)
      && (q < |o| ==> Item(o[q]) == last)
      && (forall k | p <= k < q :: o[k] < |links| && links[o[k]] == End)
    }

    /** The loop of `pop(first, last, cbk)` has stopped: the span it popped
        is the range up to `last`. */
    lemma SpanPopped(last: Link, cur: Ctx, b: nat, i: nat, o: seq<nat>, p: nat, q: nat, removed: seq<nat>)
      requires Spanning(last, cur, b, i, o, p, removed) && !last.Cont? && q == p + |removed|
      requires b < |chains| ==> CtxOk(cur) && Read(cur) == last
      requires Distinct(o) && Below(o, |links|)
      ensures RangePopped(o, p, q, last) && removed == o[p..q]
      ensures nitems == |o| - |removed|
    {
      SpanDone(last, cur, b, i, o, p, removed);
      CutUnlinked(o, p, p + |removed|);
    }

    /** The invariant of the loop of `pop(first, last, cbk)`: the context
        `cur` is position (b, i), which follows `o[..p]`; the nodes popped so
        far are the next nodes of `o`, none of them `last`, and they are
        unlinked. */
    ghost predicate Spanning(last: Link, cur: Ctx, b: nat, i: nat, o: seq<nat>, p: nat, removed: seq<nat>)
      reads this, buckets
    {
      && Valid() && IsPos(b, i) && cur == CtxAt(b, i) && |Pre(b, i)| == p
      && p + |removed| <= |o| && Order() == o[..p] + o[p + |removed|..] && removed == o[p..p + |removed|]
      && (forall k | p <= k < p + |removed| :: Item(o[k]) != last)
    }

    /** A continuation at position (b, i) leads to position (b + 1, 0), which
        follows the same nodes. */
    lemma SpanNext(last: Link, cur: Ctx, b: nat, i: nat, o: seq<nat>, p: nat, removed: seq<nat>)
      requires Spanning(last, cur, b, i, o, p, removed) && CtxOk(cur) && Read(cur).Cont?
      ensures b < |chains| && i == |chains[b]| && Spanning(last, CtxAt(b + 1, 0), b + 1, 0, o, p, removed)
    {
      ReadPos(b, i);
      ReadRest(b, i);
      PreNext(b);
    }

    /** One pop of `pop(first, last, cbk)`: the node at position (b, i),
        which is not `last`, is the next node of the span `o[p..]` still in
        the table. */
    method PopSpanStep(last: Link, cur: Ctx, ghost b: nat, ghost i: nat, ghost o: seq<nat>, ghost p: nat, removed: seq<nat>)
      returns (removed': seq<nat>)
      requires Spanning(last, cur, b, i, o, p, removed) && b < |chains| && CtxOk(cur) && Read(cur).Item? && Read(cur) != last
      modifies this, buckets
      ensures Spanning(last, cur, b, i, o, p, removed') && |removed'| == |removed| + 1
      ensures buckets == old(buckets) && entries == old(entries) && |links| == old(|links|) && |chains| == old(|chains|)
    {
      ghost var cs, o', pre := chains, Order(), Pre(b, i);
      ReadPos(b, i);
      ReadRest(b, i);
      AtPos(b, i);
      var n := PopAt(cur, b, i);
      PopOrder(cs, b, i, n, o', p);
      SpanStep(last, cur, b, i, o, p, removed, n, o', cs, pre);
      removed' := removed + [n];
    }

    /** After the pop at position (b, i) of the node `n`, next in `o'`, the
        invariant holds with `n` added to the popped nodes. */
    lemma SpanStep(last: Link, cur: Ctx, b: nat, i: nat, o: seq<nat>, p: nat, removed: seq<nat>, n: nat, o': seq<nat>, cs: seq<seq<nat>>, pre: seq<nat>)
      requires Valid() && b < |cs| && i < |cs[b]| && chains == cs[b := Removed(cs[b], i)]
      requires pre == Flat(cs[..b]) + cs[b][..i] && |pre| == p
      requires cur == if i == 0 then Slot(b) else NextOf(cs[b][i - 1])
      requires p + |removed| <= |o| && o' == o[..p] + o[p + |removed|..] && removed == o[p..p + |removed|]
      requires forall k | p <= k < p + |removed| :: Item(o[k]) != last
      requires p < |o'| && o'[p] == n && Item(n) != last && Order() == o'[..p] + o'[p + 1..]
      ensures Spanning(last, cur, b, i, o, p, removed + [n])
    {
      CutStep(o, p, |removed|);
      assert chains[..b] == cs[..b];
      assert chains[b][..i] == cs[b][..i];
    }

    // ---------------------------------------------------------------
    // Pushing.

    /** `push_item_` at the context `find_ctx_` returned for the key of `x`,
        then `++nitems_`: `x` goes right before the first node with its key,
        or at the end of its bucket when there is none. */
    method PushAt(ctx: Ctx, x: nat, ghost h: nat, ghost j: nat) returns (ghost p: nat)
      requires Valid() && x < |links| && links[x] == End && x < |entries|
      requires h == BucketOf(x) && j <= |chains[h]| && ctx == CtxAt(h, j)
      requires forall i | 0 <= i < j :: !SameKey(entries, chains[h][i], x)
      requires j < |chains[h]| ==> SameKey(entries, chains[h][j], x)
      modifies this, buckets
      ensures Valid() && buckets == old(buckets) && entries == old(entries) && |links| == old(|links|)
      ensures nitems == old(nitems) + 1 && CtxOk(ctx) && Read(ctx) == Item(x)
      ensures chains == old(chains)[h := Inserted(old(chains[h]), j, x)]
      ensures p <= |old(Order())| && Order() == old(Order())[..p] + [x] + old(Order())[p..]
      ensures forall i | 0 <= i < p :: !SameKey(entries, old(Order())[i], x)
      ensures j < old(|chains[h]|) ==> p < |old(Order())| && SameKey(entries, old(Order())[p], x)
      ensures forall k :: Occ(k) == old(Occ(k)) + (if HasKey(entries, x, k) then 1 else 0)
    {
      PushPlan(x, h, j);
      ghost var cs, o, c := chains, Order(), Inserted(chains[h], j, x);
      p := |Pre(h, j)|;
      PushItem(ctx, x, h, j);
      nitems := nitems + 1;
      AllGroupedUpdate(cs, entries, h, c);
      ReadPos(h, j);
      forall k ensures Occ(k) == CountKey(o, entries, k) + (if HasKey(entries, x, k) then 1 else 0) {
        CountKeyInsert(o, p, x, entries, k);
      }
    }

    /** What `PushAt` needs to know of the table before it links `x` at
        position (h, j): the chain stays grouped, and the position splits
        the order into the nodes before it, none with the key of `x`, and
        the rest, which starts with a node of that key when there is one. */
    lemma PushPlan(x: nat, h: nat, j: nat)
      requires Valid() && x < |links| && links[x] == End && x < |entries|
      requires h == BucketOf(x) && j <= |chains[h]|
      requires forall i | 0 <= i < j :: !SameKey(entries, chains[h][i], x)
      requires j < |chains[h]| ==> SameKey(entries, chains[h][j], x)
      ensures Grouped(Inserted(chains[h], j, x), entries)
      ensures |Pre(h, j)| <= |Order()| && Order()[..|Pre(h, j)|] == Pre(h, j) && Order()[|Pre(h, j)|..] == Rest(h, j)
      ensures forall i | 0 <= i < |Pre(h, j)| :: !SameKey(entries, Order()[i], x)
      ensures j < |chains[h]| ==> |Pre(h, j)| < |Order()| && SameKey(entries, Order()[|Pre(h, j)|], x)
    {
      var c, pre, rest := chains[h], Pre(h, j), Rest(h, j);
      ChainNodes(h);
      SplitAt(h, j);
      SplitParts(pre, rest);
      PreNoKey(entries[x].key, h, j);
      assert GroupedIn(chains, entries, h);
      GroupedInsert(c, entries, j, x);
      if j < |c| {
        AtPos(h, j);
      }
    }

    /** `push_no_resize(node)`: link an unlinked node before the first node
        with its key, or at the end of its bucket; the node is returned. */
    method PushNoResize(x: nat) returns (r: nat, ghost p: nat)
      requires Valid() && x < |links| && links[x] == End
      modifies this, buckets
      ensures Valid() && buckets == old(buckets) && entries == old(entries) && |links| == old(|links|)
      ensures r == x && nitems == old(nitems) + 1
      ensures p <= |old(Order())| && Order() == old(Order())[..p] + [x] + old(Order())[p..]
      ensures forall i | 0 <= i < p :: !SameKey(entries, old(Order())[i], x)
      ensures old(Occ(entries[x].key)) > 0 ==> p < |old(Order())| && SameKey(entries, old(Order())[p], x)
      ensures old(Occ(entries[x].key)) == 0 ==> chains == old(chains)[BucketOf(x) := old(chains[BucketOf(x)]) + [x]]
      ensures forall k :: Occ(k) == old(Occ(k)) + (if HasKey(entries, x, k) then 1 else 0)
    {
      var ctx, found, j := FindCtx(entries[x].key);
      ghost var h := hash(entries[x].key) % |chains|;
      OccInBase(entries[x].key);
      if found {
        CountKeyPositive(chains[h], entries, entries[x].key, j);
      } else {
        CountKeyNone(chains[h], entries, entries[x].key);
        InsertedLast(chains[h], x);
      }
      p := PushAt(ctx, x, h, j);
      r := x;
    }

    /** `push(node)`: `resize(nitems_ + 1)`, then `push_no_resize`. The resize
        may reorder the nodes (`mid`); the node then goes where
        `push_no_resize` puts it. Afterwards there are at most as many nodes as
        buckets, unless the bucket count is the largest in the table. */
    method Push(x: nat) returns (r: nat, ghost mid: seq<nat>, ghost p: nat, ghost grown: seq<seq<nat>>)
      requires Valid() && x < |links| && links[x] == End
      modifies this, buckets
      ensures Valid() && entries == old(entries) && |links| == old(|links|)
      ensures r == x && nitems == old(nitems) + 1
      ensures multiset(mid) == multiset(old(Order())) && mid == Flat(grown) && |grown| == |chains|
      ensures p <= |mid| && Order() == mid[..p] + [x] + mid[p..]
      ensures old(Occ(entries[x].key)) == 0 ==> chains == grown[BucketOf(x) := grown[BucketOf(x)] + [x]]
      ensures forall i | 0 <= i < p :: !SameKey(entries, mid[i], x)
      ensures old(Occ(entries[x].key)) > 0 ==> p < |mid| && SameKey(entries, mid[p], x)
      ensures forall k :: Occ(k) == old(Occ(k)) + (if HasKey(entries, x, k) then 1 else 0)
      ensures nitems <= |chains| || |chains| == MaxPrime
    {
      Reserve(x);
      mid, grown := Order(), chains;
      r, p := PushNoResize(x);
    }

    /** `resize(nitems_ + 1)` at the start of `push(x)`: the same nodes stay
        linked, so `x` stays unlinked and every key keeps its count; one more
        node then fits, unless the bucket count is the largest prime. */
    method Reserve(ghost x: nat)
      requires Valid() && x < |links| && links[x] == End
      modifies this, buckets
      ensures Valid() && (buckets == old(buckets) || fresh(buckets))
      ensures entries == old(entries) && |links| == old(|links|) && nitems == old(nitems)
      ensures links[x] == End && multiset(Order()) == multiset(old(Order()))
      ensures forall k :: Occ(k) == old(Occ(k))
      ensures nitems + 1 <= |chains| || |chains| == MaxPrime
    {
      ghost var o, nb := Order(), |chains|;
      UnlinkedIff(x);
      Resize(nitems + 1);
      assert x !in multiset(Order());
      UnlinkedIff(x);
      LoadAfterResize(nb, nitems + 1);
      CountKeysPerm(Order(), o, entries);
    }

    /** After `resize(n)` from `nb` buckets, `n` is at most the bucket count
        unless that count is the largest in the table. */
    lemma LoadAfterResize(nb: nat, n: nat)
      requires IsBucketCount(nb) && IsBucketCount(|chains|)
      requires n > nb && BucketsCount(n) > nb ==> |chains| == BucketsCount(n)
      requires !(n > nb && BucketsCount(n) > nb) ==> |chains| == nb
      ensures n <= |chains| || |chains| == MaxPrime
    {
      if n > nb {
        BucketsCountGrows(nb, n);
      }
    }

    /** `find_or_push_no_resize(key, gen)`: the first node with `key` when
        there is one; otherwise the node `gen` makes (a fresh node carrying
        `e`) is linked where `push_no_resize` would put it. */
    method FindOrPushNoResize(key: K, e: Entry<K, V>) returns (r: Link, inserted: bool, ghost p: nat)
      requires Valid() && e.key == key
      modifies this, buckets
      ensures Valid() && buckets == old(buckets)
      ensures inserted <==> old(Occ(key)) == 0
      ensures !inserted ==> entries == old(entries) && links == old(links) && chains == old(chains) && nitems == old(nitems)
      ensures !inserted ==> p < |Order()| && r == Item(Order()[p]) && HasKey(entries, Order()[p], key)
      ensures !inserted ==> forall i | 0 <= i < p :: !HasKey(entries, Order()[i], key)
      ensures inserted ==> entries == old(entries) + [e] && |links| == old(|links|) + 1 && nitems == old(nitems) + 1
      ensures inserted ==> r == Item(|old(entries)|) && p <= |old(Order())|
      ensures inserted ==> Order() == old(Order())[..p] + [r.node] + old(Order())[p..]
      ensures inserted ==> chains == old(chains)[hash(key) % |chains| := old(chains[hash(key) % |chains|]) + [r.node]]
      ensures forall k :: Occ(k) == old(Occ(k)) + (if inserted && k == key then 1 else 0)
    {
      var ctx, found, j := FindCtx(key);
      ghost var h := hash(key) % |chains|;
      OccInBase(key);
      if found {
        CountKeyPositive(chains[h], entries, key, j);
        PreNoKey(key, h, j);
        AtPos(h, j);
        SplitAt(h, j);
        SplitParts(Pre(h, j), Rest(h, j));
        ReadPos(h, j);
        r, inserted, p := Read(ctx), false, |Pre(h, j)|;
      } else {
        CountKeyNone(chains[h], entries, key);
        ChainNodes(h);
        var x := NewNode(e);
        assert entries[x] == e;
        InsertedLast(chains[h], x);
        p := PushAt(ctx, x, h, j);
        r, inserted := Read(ctx), true;
      }
    }

    /** `find_or_push(key, gen)`: `resize(nitems_ + 1)`, then
        `find_or_push_no_resize`; the table grows even when `key` is found. */
    method FindOrPush(key: K, e: Entry<K, V>) returns (r: Link, inserted: bool, ghost grown: seq<seq<nat>>, ghost p: nat)
      requires Valid() && e.key == key
      modifies this, buckets
      ensures Valid() && |grown| == |chains| && multiset(Flat(grown)) == multiset(old(Order()))
      ensures !inserted ==> chains == grown
      ensures inserted <==> old(Occ(key)) == 0
      ensures !inserted ==> entries == old(entries) && nitems == old(nitems) && multiset(Order()) == multiset(old(Order()))
      ensures !inserted ==> r.Item? && r.node in Order() && HasKey(entries, r.node, key)
      ensures !inserted ==> p < |Order()| && r == Item(Order()[p])
      ensures !inserted ==> forall i | 0 <= i < p :: !HasKey(entries, Order()[i], key)
      ensures inserted ==> entries == old(entries) + [e] && nitems == old(nitems) + 1 && r == Item(|old(entries)|)
      ensures inserted ==> chains == grown[hash(key) % |chains| := grown[hash(key) % |chains|] + [r.node]]
      ensures inserted ==> multiset(Order()) == multiset(old(Order())) + multiset{r.node}
      ensures forall k :: Occ(k) == old(Occ(k)) + (if inserted && k == key then 1 else 0)
    {
      ghost var o := Order();
      Resize(nitems + 1);
      ghost var o' := Order();
      grown := chains;
      CountKeysPerm(o', o, entries);
      r, inserted, p := FindOrPushNoResize(key, e);
      if inserted {
        SplicePerm(o', p, r.node);
      }
    }

    /** `find_ptr(key)`: the first node with `key`, or null. */
    method FindPtr(key: K) returns (r: Option<nat>, ghost p: nat)
      requires Valid()
      ensures r == None <==> Occ(key) == 0
      ensures r != None ==> r.value in Order() && HasKey(entries, r.value, key)
      ensures r != None ==> p < |Order()| && Order()[p] == r.value
      ensures r != None ==> forall i | 0 <= i < p :: !HasKey(entries, Order()[i], key)
    {
      var ctx, found, j := FindCtx(key);
      ghost var h := hash(key) % |chains|;
      OccInBase(key);
      if found {
        ReadPos(h, j);
        r := Some(Read(ctx).node);
        CountKeyPositive(chains[h], entries, key, j);
        FoundFirst(key, h, j);
        p := |Pre(h, j)|;
      } else {
        r, p := None, 0;
        CountKeyNone(chains[h], entries, key);
      }
    }
  }
}
