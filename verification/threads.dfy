/** The threading invariant of the engine, stated over plain values: the
    bucket slots `bs`, the node links `ls`, the node entries `es` and the
    chains `cs` (bucket by bucket, the nodes the links thread together), and
    what `push_item_` and `pop_item_` do to it. */
module Threads {
  import opened Links
  import opened Chains

  /** The bucket node `n` hashes to among `nb` buckets. */
  ghost function Home<K, V>(hash: K -> nat, es: seq<Entry<K, V>>, n: nat, nb: nat): nat
    requires n < |es| && nb > 0
  {
    hash(es[n].key) % nb
  }

  /** Node `j` of chain `b` is an arena node of bucket `b` whose link leads to
      the next node of the chain, or to slot `b + 1` after the last one. */
  ghost predicate NodeOk<K, V>(hash: K -> nat, ls: seq<Link>, es: seq<Entry<K, V>>, cs: seq<seq<nat>>, b: nat, j: nat)
    requires b < |cs| && j < |cs[b]|
  {
    var n := cs[b][j];
    && n < |ls| && n < |es|
    && Home(hash, es, n, |cs|) == b
    && ls[n] == ChainLink(cs[b], j + 1, b)
  }

  /** Each slot holds the head of its chain (or continues to the next slot). */
  ghost predicate SlotsOk(bs: seq<Link>, cs: seq<seq<nat>>)
  {
    && |cs| > 0
    && |bs| == |cs| + 1
    && bs[|cs|] == End
    && (forall b {:trigger SlotOk(bs, cs, b)} | 0 <= b < |cs| :: SlotOk(bs, cs, b))
  }

  /** Slot `b` holds the head of chain `b`, or continues to slot `b + 1`. */
  ghost predicate SlotOk(bs: seq<Link>, cs: seq<seq<nat>>, b: nat)
    requires b < |cs| && b < |bs|
  {
    bs[b] == ChainLink(cs[b], 0, b)
  }

  ghost predicate NodesOk<K, V>(hash: K -> nat, ls: seq<Link>, es: seq<Entry<K, V>>, cs: seq<seq<nat>>)
  {
    forall b, j {:trigger NodeOk(hash, ls, es, cs, b, j)} | 0 <= b < |cs| && 0 <= j < |cs[b]| :: NodeOk(hash, ls, es, cs, b, j)
  }

  ghost predicate ChainsDistinct(cs: seq<seq<nat>>)
  {
    forall b, i, j {:trigger Apart(cs, b, i, j)} :: Apart(cs, b, i, j)
  }

  /** Nodes `i` and `j` of chain `b` are different nodes. */
  ghost predicate Apart(cs: seq<seq<nat>>, b: int, i: int, j: int)
  {
    0 <= b < |cs| && 0 <= i < j < |cs[b]| ==> cs[b][i] != cs[b][j]
  }

  lemma ApartAt(cs: seq<seq<nat>>, b: nat, i: nat, j: nat)
    requires ChainsDistinct(cs) && b < |cs| && i < |cs[b]| && j < |cs[b]| && i != j
    ensures cs[b][i] != cs[b][j]
  {
    if i < j { assert Apart(cs, b, i, j); } else { assert Apart(cs, b, j, i); }
  }

  /** Every node whose link is not null is on the chain of its bucket. */
  ghost predicate LinkedChained<K, V>(hash: K -> nat, ls: seq<Link>, es: seq<Entry<K, V>>, cs: seq<seq<nat>>)
    requires |cs| > 0 && |ls| == |es|
  {
    forall n {:trigger Chained(hash, ls, es, cs, n)} | 0 <= n < |ls| :: Chained(hash, ls, es, cs, n)
  }

  /** Node `n`, when linked, is on the chain of its bucket. */
  ghost predicate Chained<K, V>(hash: K -> nat, ls: seq<Link>, es: seq<Entry<K, V>>, cs: seq<seq<nat>>, n: nat)
    requires |cs| > 0 && |ls| == |es| && n < |ls|
  {
    ls[n] != End ==> n in cs[Home(hash, es, n, |cs|)]
  }

  ghost predicate Threaded<K, V>(hash: K -> nat, bs: seq<Link>, ls: seq<Link>, es: seq<Entry<K, V>>, cs: seq<seq<nat>>)
  {
    && SlotsOk(bs, cs)
    && |ls| == |es|
    && NodesOk(hash, ls, es, cs)
    && ChainsDistinct(cs)
    && LinkedChained(hash, ls, es, cs)
  }

  /** The cell before node `j` of chain `b`: slot `b`, or the link of node `j - 1`. */
  ghost function CellAt(cs: seq<seq<nat>>, b: nat, j: nat): Ctx
    requires b < |cs| && j <= |cs[b]|
  {
    if j == 0 then Slot(b) else NextOf(cs[b][j - 1])
  }

  /** The slots after writing `l` into the cell `ctx`. */
  ghost function PutSlot(bs: seq<Link>, ctx: Ctx, l: Link): seq<Link>
  {
    if ctx.Slot? && ctx.index < |bs| then bs[ctx.index := l] else bs
  }

  /** The links after writing `l` into the cell `ctx`. */
  ghost function PutLink(ls: seq<Link>, ctx: Ctx, l: Link): seq<Link>
  {
    if ctx.NextOf? && ctx.node < |ls| then ls[ctx.node := l] else ls
  }

  /** The value in the cell before node `j` of chain `b`. */
  lemma CellValue<K, V>(hash: K -> nat, bs: seq<Link>, ls: seq<Link>, es: seq<Entry<K, V>>, cs: seq<seq<nat>>, b: nat, j: nat)
    requires Threaded(hash, bs, ls, es, cs)
    requires b < |cs| && j <= |cs[b]|
    ensures j == 0 ==> bs[b] == ChainLink(cs[b], 0, b)
    ensures j > 0 ==> cs[b][j - 1] < |ls| && ls[cs[b][j - 1]] == ChainLink(cs[b], j, b)
  {
    if j > 0 {
      assert NodeOk(hash, ls, es, cs, b, j - 1);
    } else {
      assert SlotOk(bs, cs, b);
    }
  }

  /** An unlinked node is on no chain. */
  lemma UnlinkedOnNoChain<K, V>(hash: K -> nat, ls: seq<Link>, es: seq<Entry<K, V>>, cs: seq<seq<nat>>, n: nat)
    requires NodesOk(hash, ls, es, cs)
    requires n < |ls| && ls[n] == End
    ensures forall b, i | 0 <= b < |cs| && 0 <= i < |cs[b]| :: cs[b][i] != n
  {
    forall b, i | 0 <= b < |cs| && 0 <= i < |cs[b]| ensures cs[b][i] != n {
      assert NodeOk(hash, ls, es, cs, b, i);
    }
  }

  /** The nodes of different chains hash to different buckets, so they differ. */
  lemma ChainsDisjoint<K, V>(hash: K -> nat, ls: seq<Link>, es: seq<Entry<K, V>>, cs: seq<seq<nat>>, b: nat, i: nat, b': nat, i': nat)
    requires NodesOk(hash, ls, es, cs)
    requires b < |cs| && i < |cs[b]| && b' < |cs| && i' < |cs[b']| && b != b'
    ensures cs[b][i] != cs[b'][i']
  {
    assert NodeOk(hash, ls, es, cs, b, i);
    assert NodeOk(hash, ls, es, cs, b', i');
  }

  /** A node on chain `b` is an arena node hashed to `b`, and it is linked. */
  lemma OnChainHome<K, V>(hash: K -> nat, ls: seq<Link>, es: seq<Entry<K, V>>, cs: seq<seq<nat>>, b: nat, x: nat)
    requires NodesOk(hash, ls, es, cs)
    requires b < |cs| && x in cs[b]
    ensures x < |es| && x < |ls| && Home(hash, es, x, |cs|) == b && ls[x] != End
  {
    var i :| 0 <= i < |cs[b]| && cs[b][i] == x;
    assert NodeOk(hash, ls, es, cs, b, i);
  }

  /** A node of the chains from `b0` on is hashed to a bucket from `b0` on. */
  lemma InFlatHome<K, V>(hash: K -> nat, ls: seq<Link>, es: seq<Entry<K, V>>, cs: seq<seq<nat>>, b0: nat, x: nat)
    requires NodesOk(hash, ls, es, cs)
    requires b0 <= |cs| && x in Flat(cs[b0..])
    ensures x < |es| && x < |ls| && b0 <= Home(hash, es, x, |cs|) < |cs| && ls[x] != End
    ensures x in cs[Home(hash, es, x, |cs|)]
  {
    var d := FlatMember(cs[b0..], x);
    OnChainHome(hash, ls, es, cs, b0 + d, x);
  }

  /** No node appears twice in the chains from `b0` on. */
  lemma {:induction false} FlatDistinctFrom<K, V>(hash: K -> nat, ls: seq<Link>, es: seq<Entry<K, V>>, cs: seq<seq<nat>>, b0: nat)
    requires NodesOk(hash, ls, es, cs) && ChainsDistinct(cs)
    requires b0 <= |cs|
    ensures Distinct(Flat(cs[b0..]))
    decreases |cs| - b0
  {
    if b0 < |cs| {
      FlatSuffix(cs, b0);
      FlatDistinctFrom(hash, ls, es, cs, b0 + 1);
      var c, t := cs[b0], Flat(cs[b0 + 1..]);
      var s := c + t;
      forall i, j | 0 <= i < j < |s| ensures Differ(s, i, j) {
        if j < |c| {
          assert s[i] == c[i] && s[j] == c[j];
          ApartAt(cs, b0, i, j);
        } else if i >= |c| {
          assert s[i] == t[i - |c|] && s[j] == t[j - |c|];
          DifferAt(t, i - |c|, j - |c|);
        } else {
          assert s[i] == c[i] && s[j] == t[j - |c|];
          OnChainHome(hash, ls, es, cs, b0, c[i]);
          InFlatHome(hash, ls, es, cs, b0 + 1, t[j - |c|]);
        }
      }
      assert forall i, j :: Differ(s, i, j);
    } else {
      assert cs[b0..] == [];
    }
  }

  /** When every chain keeps its keys together, so does the whole iteration
      order: nodes with one key are all in one bucket. */
  lemma {:induction false} FlatGroupedFrom<K, V>(hash: K -> nat, ls: seq<Link>, es: seq<Entry<K, V>>, cs: seq<seq<nat>>, b0: nat)
    requires NodesOk(hash, ls, es, cs)
    requires AllGrouped(cs, es)
    requires b0 <= |cs|
    ensures Grouped(Flat(cs[b0..]), es)
    decreases |cs| - b0
  {
    if b0 < |cs| {
      FlatSuffix(cs, b0);
      FlatGroupedFrom(hash, ls, es, cs, b0 + 1);
      var c, t := cs[b0], Flat(cs[b0 + 1..]);
      assert GroupedIn(cs, es, b0);
      forall i, j | 0 <= i < |c| && 0 <= j < |t| ensures !SameKey(es, c[i], t[j]) {
        OnChainHome(hash, ls, es, cs, b0, c[i]);
        InFlatHome(hash, ls, es, cs, b0 + 1, t[j]);
      }
      GroupedConcat(c, t, es);
    } else {
      assert cs[b0..] == [];
    }
  }

  /** A node's link is non-null exactly when the node is in the iteration order. */
  lemma LinkedIff<K, V>(hash: K -> nat, bs: seq<Link>, ls: seq<Link>, es: seq<Entry<K, V>>, cs: seq<seq<nat>>, x: nat)
    requires Threaded(hash, bs, ls, es, cs) && x < |ls|
    ensures ls[x] != End <==> x in Flat(cs)
  {
    if ls[x] != End {
      assert Chained(hash, ls, es, cs, x);
      FlatSplit(cs, Home(hash, es, x, |cs|));
    }
    if x in Flat(cs) {
      assert cs[0..] == cs;
      InFlatHome(hash, ls, es, cs, 0, x);
    }
  }

  /** Every node with key `k` sits in the chain `k` hashes to. */
  lemma CountInHome<K, V>(hash: K -> nat, bs: seq<Link>, ls: seq<Link>, es: seq<Entry<K, V>>, cs: seq<seq<nat>>, k: K)
    requires Threaded(hash, bs, ls, es, cs)
    ensures CountKey(Flat(cs), es, k) == CountKey(cs[hash(k) % |cs|], es, k)
  {
    var h := hash(k) % |cs|;
    FlatSplit(cs, h);
    var a, t := Flat(cs[..h]), Flat(cs[h + 1..]);
    CountKeyAppend(a + cs[h], t, es, k);
    CountKeyAppend(a, cs[h], es, k);
    forall i | 0 <= i < |a| ensures !HasKey(es, a[i], k) {
      var d := FlatMember(cs[..h], a[i]);
      OnChainHome(hash, ls, es, cs, d, a[i]);
    }
    CountKeyNone(a, es, k);
    forall i | 0 <= i < |t| ensures !HasKey(es, t[i], k) {
      InFlatHome(hash, ls, es, cs, h + 1, t[i]);
    }
    CountKeyNone(t, es, k);
  }

  /** Freshly initialised slots and no linked node: every chain is empty. */
  lemma EmptyThreaded<K, V>(hash: K -> nat, bs: seq<Link>, ls: seq<Link>, es: seq<Entry<K, V>>, nb: nat)
    requires nb > 0 && |bs| == nb + 1 && bs[nb] == End
    requires forall b | 0 <= b < nb :: bs[b] == Cont(b + 1)
    requires |ls| == |es| && forall n | 0 <= n < |ls| :: ls[n] == End
    ensures Threaded(hash, bs, ls, es, seq(nb, _ => []))
  {
    var cs: seq<seq<nat>> := seq(nb, _ => []);
    forall b | 0 <= b < |cs| ensures SlotOk(bs, cs, b) {
    }
    forall b, i, j ensures Apart(cs, b, i, j) {
    }
    forall n | 0 <= n < |ls| ensures Chained(hash, ls, es, cs, n) {
    }
  }

  /** A new, unlinked node at the end of the arena disturbs nothing. */
  lemma AppendThreaded<K, V>(hash: K -> nat, bs: seq<Link>, ls: seq<Link>, es: seq<Entry<K, V>>, cs: seq<seq<nat>>, e: Entry<K, V>)
    requires Threaded(hash, bs, ls, es, cs)
    ensures Threaded(hash, bs, ls + [End], es + [e], cs)
  {
    var ls', es' := ls + [End], es + [e];
    forall b, j | 0 <= b < |cs| && 0 <= j < |cs[b]| ensures NodeOk(hash, ls', es', cs, b, j) {
      assert NodeOk(hash, ls, es, cs, b, j);
    }
    forall n | 0 <= n < |ls'| ensures Chained(hash, ls', es', cs, n) {
      if n < |ls| {
        assert Chained(hash, ls, es, cs, n);
      }
    }
    forall b | 0 <= b < |cs| ensures SlotOk(bs, cs, b) {
      assert SlotOk(bs, cs, b);
    }
  }

  // -----------------------------------------------------------------
  // push_item_

  /** The chain after inserting `n` before node `j` of `c`. */
  function Inserted(c: seq<nat>, j: nat, n: nat): (r: seq<nat>)
    requires j <= |c|
    ensures |r| == |c| + 1 && r[j] == n
  {
    c[..j] + [n] + c[j..]
  }

  /** Inserting before the first node links at the head. */
  lemma InsertedHead(c: seq<nat>, n: nat)
    ensures Inserted(c, 0, n) == [n] + c
  {
    assert c[..0] == [] && c[0..] == c;
  }

  /** Inserting past the last node links at the end. */
  lemma InsertedLast(c: seq<nat>, n: nat)
    ensures Inserted(c, |c|, n) == c + [n]
  {
    assert c[..|c|] == c && c[|c|..] == [];
  }

  /** The links after `push_item_` of node `n` at the cell before node `j` of chain `b`. */
  ghost function PushLinks(bs: seq<Link>, ls: seq<Link>, cs: seq<seq<nat>>, b: nat, j: nat, n: nat): seq<Link>
    requires b < |cs| && j <= |cs[b]| && b < |bs| && n < |ls|
    requires j > 0 ==> cs[b][j - 1] < |ls|
  {
    var ctx := CellAt(cs, b, j);
    var old_ := if j == 0 then bs[b] else ls[cs[b][j - 1]];
    PutLink(ls[n := old_], ctx, Item(n))
  }

  lemma PushNodesOk<K, V>(hash: K -> nat, bs: seq<Link>, ls: seq<Link>, es: seq<Entry<K, V>>, cs: seq<seq<nat>>, b: nat, j: nat, n: nat)
    requires Threaded(hash, bs, ls, es, cs)
    requires b < |cs| && j <= |cs[b]| && n < |ls| && ls[n] == End && Home(hash, es, n, |cs|) == b
    ensures j > 0 ==> cs[b][j - 1] < |ls|
    ensures NodesOk(hash, PushLinks(bs, ls, cs, b, j, n), es, cs[b := Inserted(cs[b], j, n)])
  {
    CellValue(hash, bs, ls, es, cs, b, j);
    UnlinkedOnNoChain(hash, ls, es, cs, n);
    var c := cs[b];
    var c' := Inserted(c, j, n);
    var cs' := cs[b := c'];
    var ls' := PushLinks(bs, ls, cs, b, j, n);
    forall b0, i | 0 <= b0 < |cs'| && 0 <= i < |cs'[b0]| ensures NodeOk(hash, ls', es, cs', b0, i) {
      if b0 != b {
        assert NodeOk(hash, ls, es, cs, b0, i);
        if j > 0 { ChainsDisjoint(hash, ls, es, cs, b0, i, b, j - 1); }
      } else if i < j {
        assert NodeOk(hash, ls, es, cs, b, i);
        if i < j - 1 {
          ApartAt(cs, b, i, j - 1);
        }
      } else if i > j {
        assert NodeOk(hash, ls, es, cs, b, i - 1);
        if j > 0 { ApartAt(cs, b, j - 1, i - 1); }
      }
    }
  }

  lemma PushLinkedChained<K, V>(hash: K -> nat, bs: seq<Link>, ls: seq<Link>, es: seq<Entry<K, V>>, cs: seq<seq<nat>>, b: nat, j: nat, n: nat)
    requires Threaded(hash, bs, ls, es, cs)
    requires b < |cs| && j <= |cs[b]| && n < |ls| && ls[n] == End && Home(hash, es, n, |cs|) == b
    ensures j > 0 ==> cs[b][j - 1] < |ls|
    ensures LinkedChained(hash, PushLinks(bs, ls, cs, b, j, n), es, cs[b := Inserted(cs[b], j, n)])
  {
    CellValue(hash, bs, ls, es, cs, b, j);
    var c := cs[b];
    var c' := Inserted(c, j, n);
    var cs' := cs[b := c'];
    var ls' := PushLinks(bs, ls, cs, b, j, n);
    forall x | 0 <= x < |ls'| ensures Chained(hash, ls', es, cs', x) {
      if ls'[x] == End {
      } else if x == n {
        assert c'[j] == n;
      } else {
        if j > 0 && x == c[j - 1] {
          assert NodeOk(hash, ls, es, cs, b, j - 1);
          assert c'[j - 1] == x;
        } else {
          assert ls[x] == ls'[x];
          assert Chained(hash, ls, es, cs, x);
          assert x in cs[Home(hash, es, x, |cs|)];
          if Home(hash, es, x, |cs|) == b {
            var i :| 0 <= i < |c| && c[i] == x;
            if i < j { assert c'[i] == x; } else { assert c'[i + 1] == x; }
          }
        }
      }
    }
  }

  lemma PushThreaded<K, V>(hash: K -> nat, bs: seq<Link>, ls: seq<Link>, es: seq<Entry<K, V>>, cs: seq<seq<nat>>, b: nat, j: nat, n: nat)
    requires Threaded(hash, bs, ls, es, cs)
    requires b < |cs| && j <= |cs[b]| && n < |ls| && ls[n] == End && Home(hash, es, n, |cs|) == b
    ensures j > 0 ==> cs[b][j - 1] < |ls|
    ensures Threaded(hash, PutSlot(bs, CellAt(cs, b, j), Item(n)), PushLinks(bs, ls, cs, b, j, n), es, cs[b := Inserted(cs[b], j, n)])
  {
    CellValue(hash, bs, ls, es, cs, b, j);
    PushNodesOk(hash, bs, ls, es, cs, b, j, n);
    PushLinkedChained(hash, bs, ls, es, cs, b, j, n);
    UnlinkedOnNoChain(hash, ls, es, cs, n);
    var c := cs[b];
    var c' := Inserted(c, j, n);
    var cs' := cs[b := c'];
    var bs' := PutSlot(bs, CellAt(cs, b, j), Item(n));
    forall b0 | 0 <= b0 < |cs'| ensures SlotOk(bs', cs', b0) {
      assert SlotOk(bs, cs, b0);
    }
    forall b0, i, i' ensures Apart(cs', b0, i, i') {
      if 0 <= b0 < |cs'| && 0 <= i < i' < |cs'[b0]| {
        if b0 == b {
          if i < j && j < i' {
            assert c'[i] == c[i] && c'[i'] == c[i' - 1];
            ApartAt(cs, b, i, i' - 1);
          } else if j < i {
            assert c'[i] == c[i - 1] && c'[i'] == c[i' - 1];
            ApartAt(cs, b, i - 1, i' - 1);
          } else if i' < j {
            assert c'[i] == c[i] && c'[i'] == c[i'];
            ApartAt(cs, b, i, i');
          }
        } else {
          assert Apart(cs, b0, i, i');
        }
      }
    }
  }

  // -----------------------------------------------------------------
  // pop_item_

  /** The chain after removing node `j` of `c`. */
  function Removed(c: seq<nat>, j: nat): (r: seq<nat>)
    requires j < |c|
    ensures |r| == |c| - 1
  {
    c[..j] + c[j + 1..]
  }

  /** The links after `pop_item_` at the cell before node `j` of chain `b`. */
  ghost function PopLinks(ls: seq<Link>, cs: seq<seq<nat>>, b: nat, j: nat): seq<Link>
    requires b < |cs| && j < |cs[b]| && cs[b][j] < |ls|
  {
    var n := cs[b][j];
    PutLink(ls, CellAt(cs, b, j), ls[n])[n := End]
  }

  lemma PopNodesOk<K, V>(hash: K -> nat, bs: seq<Link>, ls: seq<Link>, es: seq<Entry<K, V>>, cs: seq<seq<nat>>, b: nat, j: nat)
    requires Threaded(hash, bs, ls, es, cs)
    requires b < |cs| && j < |cs[b]|
    ensures cs[b][j] < |ls|
    ensures NodesOk(hash, PopLinks(ls, cs, b, j), es, cs[b := Removed(cs[b], j)])
  {
    assert NodeOk(hash, ls, es, cs, b, j);
    var c := cs[b];
    var n := c[j];
    var c' := Removed(c, j);
    var cs' := cs[b := c'];
    var ls' := PopLinks(ls, cs, b, j);
    forall b0, i | 0 <= b0 < |cs'| && 0 <= i < |cs'[b0]| ensures NodeOk(hash, ls', es, cs', b0, i) {
      if b0 != b {
        assert NodeOk(hash, ls, es, cs, b0, i);
        ChainsDisjoint(hash, ls, es, cs, b0, i, b, j);
        if j > 0 { ChainsDisjoint(hash, ls, es, cs, b0, i, b, j - 1); }
      } else if i < j {
        assert NodeOk(hash, ls, es, cs, b, i);
        ApartAt(cs, b, i, j);
        if i < j - 1 { ApartAt(cs, b, i, j - 1); }
      } else {
        assert NodeOk(hash, ls, es, cs, b, i + 1);
        ApartAt(cs, b, i + 1, j);
        if j > 0 { ApartAt(cs, b, j - 1, i + 1); }
      }
    }
  }

  lemma PopLinkedChained<K, V>(hash: K -> nat, bs: seq<Link>, ls: seq<Link>, es: seq<Entry<K, V>>, cs: seq<seq<nat>>, b: nat, j: nat)
    requires Threaded(hash, bs, ls, es, cs)
    requires b < |cs| && j < |cs[b]|
    ensures cs[b][j] < |ls|
    ensures LinkedChained(hash, PopLinks(ls, cs, b, j), es, cs[b := Removed(cs[b], j)])
  {
    assert NodeOk(hash, ls, es, cs, b, j);
    var c := cs[b];
    var n := c[j];
    var c' := Removed(c, j);
    var cs' := cs[b := c'];
    var ls' := PopLinks(ls, cs, b, j);
    forall x | 0 <= x < |ls'| ensures Chained(hash, ls', es, cs', x) {
      if ls'[x] == End {
      } else if j > 0 && x == c[j - 1] {
        assert x != n;
        assert NodeOk(hash, ls, es, cs, b, j - 1);
        assert c'[j - 1] == x;
      } else {
        assert x != n;
        assert ls[x] == ls'[x];
        assert Chained(hash, ls, es, cs, x);
        assert x in cs[Home(hash, es, x, |cs|)];
        if Home(hash, es, x, |cs|) == b {
          var i :| 0 <= i < |c| && c[i] == x;
          if i < j { assert c'[i] == x; } else { assert i != j; assert c'[i - 1] == x; }
        }
      }
    }
  }

  lemma PopThreaded<K, V>(hash: K -> nat, bs: seq<Link>, ls: seq<Link>, es: seq<Entry<K, V>>, cs: seq<seq<nat>>, b: nat, j: nat)
    requires Threaded(hash, bs, ls, es, cs)
    requires b < |cs| && j < |cs[b]|
    ensures cs[b][j] < |ls|
    ensures Threaded(hash, PutSlot(bs, CellAt(cs, b, j), ls[cs[b][j]]), PopLinks(ls, cs, b, j), es, cs[b := Removed(cs[b], j)])
  {
    assert NodeOk(hash, ls, es, cs, b, j);
    PopNodesOk(hash, bs, ls, es, cs, b, j);
    PopLinkedChained(hash, bs, ls, es, cs, b, j);
    var c := cs[b];
    var c' := Removed(c, j);
    var cs' := cs[b := c'];
    var bs' := PutSlot(bs, CellAt(cs, b, j), ls[c[j]]);
    forall b0 | 0 <= b0 < |cs'| ensures SlotOk(bs', cs', b0) {
      assert SlotOk(bs, cs, b0);
    }
    forall b0, i, i' ensures Apart(cs', b0, i, i') {
      if 0 <= b0 < |cs'| && 0 <= i < i' < |cs'[b0]| {
        if b0 == b {
          if i < j && j <= i' {
            assert c'[i] == c[i] && c'[i'] == c[i' + 1];
            ApartAt(cs, b, i, i' + 1);
          } else if j <= i {
            assert c'[i] == c[i + 1] && c'[i'] == c[i' + 1];
            ApartAt(cs, b, i + 1, i' + 1);
          } else {
            assert c'[i] == c[i] && c'[i'] == c[i'];
            ApartAt(cs, b, i, i');
          }
        } else {
          assert Apart(cs, b0, i, i');
        }
      }
    }
  }

  /** One more round of `pop_all`: chain `c` of bucket `h` had the run
      `removed` cut after position `j`, leaving `d`; removing the node `n` at
      position `j` of `d` extends the cut run by `n`. */
  lemma RunCut<K, V>(c: seq<nat>, j: nat, m: nat, cs: seq<seq<nat>>, h: nat, ocs: seq<seq<nat>>, ds: seq<seq<nat>>,
                     removed: seq<nat>, n: nat, removed': seq<nat>, es: seq<Entry<K, V>>, k: K)
    requires h < |cs| && j + m < |c| && ocs == cs[h := c[..j] + c[j + m..]] && removed == c[j..j + m] && m == |removed|
    requires ds == ocs[h := Removed(ocs[h], j)] && n == ocs[h][j] && removed' == removed + [n]
    requires forall i | j <= i < j + m :: HasKey(es, c[i], k)
    requires HasKey(es, c[j + m], k)
    ensures |removed'| == |removed| + 1 && j + |removed'| <= |c| && ds == cs[h := c[..j] + c[j + |removed'|..]] && removed' == c[j..j + |removed'|]
    ensures forall i | j <= i < j + |removed'| :: HasKey(es, c[i], k)
  {
    var d := ocs[h];
    CutStep(c, j, m);
    UpdateTwice(cs, h, d, Removed(d, j));
  }
}
