/** Facts about bucket chains as pure sequences: the concatenation of all
    chains (the iteration order), occurrence counts of a key, and the
    contiguity of equal-key runs. Nodes are arena indices; `es` is the arena's
    payloads, from which a node's key is read. */
module Chains {
  import opened Links

  /** The nodes of all chains, bucket after bucket. */
  ghost function Flat(cs: seq<seq<nat>>): seq<nat>
  {
    if cs == [] then [] else cs[0] + Flat(cs[1..])
  }

  lemma {:induction false} FlatAppend(a: seq<seq<nat>>, b: seq<seq<nat>>)
    ensures Flat(a + b) == Flat(a) + Flat(b)
  {
    if a == [] {
      assert a + b == b;
    } else {
      assert (a + b)[1..] == a[1..] + b;
      FlatAppend(a[1..], b);
    }
  }

  lemma {:induction false} FlatSingle(c: seq<nat>)
    ensures Flat([c]) == c
  {
    assert [c][1..] == [];
  }

  /** Chain `b` sits between the chains before it and the chains after it. */
  lemma {:induction false} FlatSplit(cs: seq<seq<nat>>, b: nat)
    requires b < |cs|
    ensures Flat(cs) == Flat(cs[..b]) + cs[b] + Flat(cs[b + 1..])
  {
    assert cs == cs[..b] + [cs[b]] + cs[b + 1..];
    FlatAppend(cs[..b] + [cs[b]], cs[b + 1..]);
    FlatAppend(cs[..b], [cs[b]]);
    FlatSingle(cs[b]);
  }

  lemma {:induction false} FlatUpdate(cs: seq<seq<nat>>, b: nat, c: seq<nat>)
    requires b < |cs|
    ensures Flat(cs[b := c]) == Flat(cs[..b]) + c + Flat(cs[b + 1..])
  {
    FlatSplit(cs[b := c], b);
    assert cs[b := c][..b] == cs[..b];
    assert cs[b := c][b + 1..] == cs[b + 1..];
  }

  lemma {:induction false} FlatSuffix(cs: seq<seq<nat>>, b: nat)
    requires b < |cs|
    ensures Flat(cs[b..]) == cs[b] + Flat(cs[b + 1..])
  {
    assert cs[b..][1..] == cs[b + 1..];
  }

  lemma {:induction false} FlatPrefix(cs: seq<seq<nat>>, b: nat)
    requires b < |cs|
    ensures Flat(cs[..b + 1]) == Flat(cs[..b]) + cs[b]
  {
    assert cs[..b + 1] == cs[..b] + [cs[b]];
    FlatAppend(cs[..b], [cs[b]]);
    FlatSingle(cs[b]);
  }

  /** Every node of the concatenation comes from some chain. */
  lemma {:induction false} FlatMember(cs: seq<seq<nat>>, x: nat) returns (b: nat)
    requires x in Flat(cs)
    ensures b < |cs| && x in cs[b]
  {
    if x in cs[0] {
      b := 0;
    } else {
      var b' := FlatMember(cs[1..], x);
      b := b' + 1;
    }
  }

  lemma {:induction false} FlatEmpty(cs: seq<seq<nat>>)
    requires forall b | 0 <= b < |cs| :: cs[b] == []
    ensures Flat(cs) == []
  {
    if cs != [] {
      FlatEmpty(cs[1..]);
    }
  }

  /** Inserting `n` at position `j` of chain `b` inserts it into the
      flattening right after the nodes of the earlier chains and `cs[b][..j]`. */
  lemma FlatInsert(cs: seq<seq<nat>>, b: nat, j: nat, n: nat)
    requires b < |cs| && j <= |cs[b]|
    ensures Flat(cs[b := cs[b][..j] + [n] + cs[b][j..]])
         == (Flat(cs[..b]) + cs[b][..j]) + [n] + (cs[b][j..] + Flat(cs[b + 1..]))
  {
    FlatUpdate(cs, b, cs[b][..j] + [n] + cs[b][j..]);
  }

  /** Removing node `j` of chain `b` removes it from the flattening. */
  lemma FlatRemove(cs: seq<seq<nat>>, b: nat, j: nat)
    requires b < |cs| && j < |cs[b]|
    ensures Flat(cs[b := cs[b][..j] + cs[b][j + 1..]])
         == (Flat(cs[..b]) + cs[b][..j]) + (cs[b][j + 1..] + Flat(cs[b + 1..]))
    ensures Flat(cs) == (Flat(cs[..b]) + cs[b][..j]) + [cs[b][j]] + (cs[b][j + 1..] + Flat(cs[b + 1..]))
  {
    FlatUpdate(cs, b, cs[b][..j] + cs[b][j + 1..]);
    FlatSplit(cs, b);
    RemoveMiddle(Flat(cs[..b]), cs[b], Flat(cs[b + 1..]), j);
  }

  /** Taking element `j` out of the middle part of `a + c + t`, regrouped. */
  lemma RemoveMiddle(a: seq<nat>, c: seq<nat>, t: seq<nat>, j: nat)
    requires j < |c|
    ensures a + (c[..j] + c[j + 1..]) + t == (a + c[..j]) + (c[j + 1..] + t)
    ensures a + c + t == (a + c[..j]) + [c[j]] + (c[j + 1..] + t)
  {
    assert c == c[..j] + [c[j]] + c[j + 1..];
  }

  /** Dropping `m` nodes from position `j` of chain `b` drops them from the
      flattening, right after the nodes of the earlier chains and `cs[b][..j]`. */
  lemma FlatDrop(cs: seq<seq<nat>>, b: nat, j: nat, m: nat, q: nat, c: seq<nat>, o: seq<nat>, ds: seq<seq<nat>>)
    requires b < |cs| && c == cs[b] && j + m <= |c|
    requires q == |Flat(cs[..b])| + j && o == Flat(cs) && ds == cs[b := c[..j] + c[j + m..]]
    ensures q + m <= |o| && Flat(ds) == o[..q] + o[q + m..] && o[q..q + m] == c[j..j + m]
  {
    FlatSplit(cs, b);
    FlatUpdate(cs, b, c[..j] + c[j + m..]);
    CutMiddle(Flat(cs[..b]), c, Flat(cs[b + 1..]), j, m, q, o);
  }

  /** Cutting `m` elements at `j` of the middle part of `a + c + t`. */
  lemma CutMiddle(a: seq<nat>, c: seq<nat>, t: seq<nat>, j: nat, m: nat, q: nat, o: seq<nat>)
    requires j + m <= |c| && q == |a| + j && o == a + c + t
    ensures q + m <= |o| && a + (c[..j] + c[j + m..]) + t == o[..q] + o[q + m..] && o[q..q + m] == c[j..j + m]
  {
    assert o[..q] == a + c[..j];
    assert o[q + m..] == c[j + m..] + t;
    assert o[q..q + m] == c[j..j + m];
  }

  /** Updating one chain twice keeps only the second update. */
  lemma UpdateTwice(cs: seq<seq<nat>>, b: nat, c: seq<nat>, d: seq<nat>)
    requires b < |cs|
    ensures cs[b := c][b := d] == cs[b := d]
  {
  }

  /** Taking out the first node left after a cut of `m` nodes from `j` on
      cuts `m + 1` nodes. */
  lemma CutStep(c: seq<nat>, j: nat, m: nat)
    requires j + m < |c|
    ensures var d := c[..j] + c[j + m..];
      && j < |d| && d[j] == c[j + m]
      && d[..j] + d[j + 1..] == c[..j] + c[j + m + 1..]
      && c[j..j + m + 1] == c[j..j + m] + [c[j + m]]
  {
    var d := c[..j] + c[j + m..];
    assert d[..j] == c[..j];
    assert d[j + 1..] == c[j + m + 1..];
    assert c[j..j + m + 1] == c[j..j + m] + [c[j + m]];
  }

  /** Nodes that were unlinked stay unlinked, and `n` is unlinked too. */
  lemma StillUnlinked(ls: seq<Link>, ls': seq<Link>, removed: seq<nat>, n: nat, removed': seq<nat>)
    requires forall i | 0 <= i < |removed| :: removed[i] < |ls| && ls[removed[i]] == End
    requires |ls'| == |ls| && forall y | 0 <= y < |ls| && ls[y] == End :: ls'[y] == End
    requires n < |ls'| && ls'[n] == End && removed' == removed + [n]
    ensures forall i | 0 <= i < |removed'| :: removed'[i] < |ls'| && ls'[removed'[i]] == End
  {
    forall i | 0 <= i < |removed'| ensures removed'[i] < |ls'| && ls'[removed'[i]] == End {
      if i < |removed| {
        assert removed'[i] == removed[i];
      }
    }
  }

  /** The tagged value at position `j` of chain `c` in bucket `b`: the node at
      that position, or past the last node the continuation to slot `b + 1`. */
  function ChainLink(c: seq<nat>, j: nat, b: nat): Link
    requires j <= |c|
  {
    if j < |c| then Item(c[j]) else Cont(b + 1)
  }

  /** No node occurs twice in `s`. */
  ghost predicate Distinct(s: seq<nat>)
  {
    forall i, j {:trigger Differ(s, i, j)} :: Differ(s, i, j)
  }

  /** Every node of `s` is below `n`. */
  ghost predicate Below(s: seq<nat>, n: nat)
  {
    forall k {:trigger BelowAt(s, n, k)} :: BelowAt(s, n, k)
  }

  /** One instance of `Below`. */
  ghost predicate BelowAt(s: seq<nat>, n: nat, k: int)
  {
    0 <= k < |s| ==> s[k] < n
  }

  /** One instance of `Distinct`: positions `i` and `j` hold different nodes. */
  ghost predicate Differ(s: seq<nat>, i: int, j: int)
  {
    0 <= i < j < |s| ==> s[i] != s[j]
  }

  lemma DifferAt(s: seq<nat>, i: nat, j: nat)
    requires Distinct(s) && i < |s| && j < |s| && i != j
    ensures s[i] != s[j]
  {
    if i < j { assert Differ(s, i, j); } else { assert Differ(s, j, i); }
  }

  /** Cutting the `n` nodes at `p` out of a sequence without repeats leaves
      exactly the nodes that are not among them. */
  lemma CutMembers(s: seq<nat>, p: nat, n: nat, x: nat)
    requires Distinct(s) && p + n <= |s|
    ensures x in s[..p] + s[p + n..] <==> x in s && x !in s[p..p + n]
  {
    var t := s[..p] + s[p + n..];
    if x in t {
      var i :| 0 <= i < |t| && t[i] == x;
      var i' := if i < p then i else i + n;
      assert s[i'] == x;
      if x in s[p..p + n] {
        var j :| 0 <= j < n && s[p..p + n][j] == x;
        DifferAt(s, i', p + j);
      }
    }
  }

  lemma DistinctFirst(s: seq<nat>, n: nat)
    requires Distinct(s) && n < |s|
    ensures s[n] !in multiset(s[..n])
  {
    if s[n] in multiset(s[..n]) {
      var a :| 0 <= a < n && s[..n][a] == s[n];
      DifferAt(s, a, n);
    }
  }

  /** Splicing a node into a sequence adds it to the multiset. */
  lemma SpliceMultiset(pre: seq<nat>, x: nat, rest: seq<nat>)
    ensures multiset(pre + [x] + rest) == multiset(pre + rest) + multiset{x}
  {
  }

  /** Inserting `x` at index `p` adds one `x` to the multiset. */
  lemma SplicePerm(s: seq<nat>, p: nat, x: nat)
    requires p <= |s|
    ensures multiset(s[..p] + [x] + s[p..]) == multiset(s) + multiset{x}
  {
    SpliceMultiset(s[..p], x, s[p..]);
    assert s[..p] + s[p..] == s;
  }

  /** The parts of a sequence split around one element, by index. */
  lemma SpliceParts(pre: seq<nat>, x: nat, rest: seq<nat>)
    ensures var s := pre + [x] + rest;
      && |s| == |pre| + 1 + |rest| && s[|pre|] == x
      && s[..|pre|] == pre && s[|pre| + 1..] == rest && s[|pre|..] == [x] + rest
  {
    var s := pre + [x] + rest;
    assert s[..|pre|] == pre;
    assert s[|pre| + 1..] == rest;
    assert s[|pre|..] == [x] + rest;
  }

  /** The parts of a sequence split in two, by index. */
  lemma SplitParts(pre: seq<nat>, rest: seq<nat>)
    ensures (pre + rest)[..|pre|] == pre && (pre + rest)[|pre|..] == rest
  {
    assert (pre + rest)[..|pre|] == pre;
    assert (pre + rest)[|pre|..] == rest;
  }

  /** One more element of a sequence, one more element of its multiset. */
  lemma TakeOne(s: seq<nat>, n: nat)
    requires n < |s|
    ensures multiset(s[..n + 1]) == multiset(s[..n]) + multiset{s[n]}
  {
    assert s[..n + 1] == s[..n] + [s[n]];
  }

  /** `x` and `y` are nodes of the arena whose keys are equal. */
  ghost predicate SameKey<K, V>(es: seq<Entry<K, V>>, x: nat, y: nat)
  {
    x < |es| && y < |es| && es[x].key == es[y].key
  }

  /** `x` is a node of the arena whose key is `k`. */
  ghost predicate HasKey<K, V>(es: seq<Entry<K, V>>, x: nat, k: K)
  {
    x < |es| && es[x].key == k
  }

  /** The number of nodes of `s` whose key is `k`. */
  ghost function CountKey<K, V>(s: seq<nat>, es: seq<Entry<K, V>>, k: K): nat
  {
    if s == [] then 0
    else (if HasKey(es, s[0], k) then 1 else 0) + CountKey(s[1..], es, k)
  }

  /** The key-group contiguity invariant: nodes with equal keys form one run. */
  ghost predicate Grouped<K, V>(s: seq<nat>, es: seq<Entry<K, V>>)
  {
    forall i, j, l {:trigger Between(s, es, i, j, l)} :: Between(s, es, i, j, l)
  }

  /** One instance of `Grouped`: a node between two nodes with equal keys has
      that key too. */
  ghost predicate Between<K, V>(s: seq<nat>, es: seq<Entry<K, V>>, i: int, j: int, l: int)
  {
    0 <= i < j < l < |s| && SameKey(es, s[i], s[l]) ==> SameKey(es, s[i], s[j])
  }

  /** Every chain of `cs` is grouped. */
  ghost predicate AllGrouped<K, V>(cs: seq<seq<nat>>, es: seq<Entry<K, V>>)
  {
    forall b {:trigger GroupedIn(cs, es, b)} :: GroupedIn(cs, es, b)
  }

  /** One instance of `AllGrouped`: chain `b` is grouped. */
  ghost predicate GroupedIn<K, V>(cs: seq<seq<nat>>, es: seq<Entry<K, V>>, b: int)
  {
    0 <= b < |cs| ==> Grouped(cs[b], es)
  }

  lemma GroupedAt<K, V>(s: seq<nat>, es: seq<Entry<K, V>>, i: nat, j: nat, l: nat)
    requires Grouped(s, es) && i < j < l < |s| && SameKey(es, s[i], s[l])
    ensures SameKey(es, s[i], s[j])
  {
    assert Between(s, es, i, j, l);
  }

  /** Replacing one chain by a grouped one keeps every chain grouped. */
  lemma AllGroupedUpdate<K, V>(cs: seq<seq<nat>>, es: seq<Entry<K, V>>, b: nat, c: seq<nat>)
    requires AllGrouped(cs, es) && b < |cs| && Grouped(c, es)
    ensures AllGrouped(cs[b := c], es)
  {
    var ds := cs[b := c];
    forall a ensures GroupedIn(ds, es, a) {
      if 0 <= a < |ds| && a != b {
        assert GroupedIn(cs, es, a);
        assert ds[a] == cs[a];
      }
    }
  }

  lemma {:induction false} CountKeyAppend<K, V>(a: seq<nat>, b: seq<nat>, es: seq<Entry<K, V>>, k: K)
    ensures CountKey(a + b, es, k) == CountKey(a, es, k) + CountKey(b, es, k)
  {
    if a == [] {
      assert a + b == b;
    } else {
      assert (a + b)[1..] == a[1..] + b;
      CountKeyAppend(a[1..], b, es, k);
    }
  }

  lemma {:induction false} CountKeyNone<K, V>(s: seq<nat>, es: seq<Entry<K, V>>, k: K)
    requires forall i | 0 <= i < |s| :: !HasKey(es, s[i], k)
    ensures CountKey(s, es, k) == 0
  {
    if s != [] {
      CountKeyNone(s[1..], es, k);
    }
  }

  lemma {:induction false} CountKeyAll<K, V>(s: seq<nat>, es: seq<Entry<K, V>>, k: K)
    requires forall i | 0 <= i < |s| :: HasKey(es, s[i], k)
    ensures CountKey(s, es, k) == |s|
  {
    if s != [] {
      CountKeyAll(s[1..], es, k);
    }
  }

  lemma {:induction false} CountKeyPositive<K, V>(s: seq<nat>, es: seq<Entry<K, V>>, k: K, i: nat)
    requires i < |s| && HasKey(es, s[i], k)
    ensures CountKey(s, es, k) > 0
  {
    if i > 0 {
      CountKeyPositive(s[1..], es, k, i - 1);
    }
  }

  /** Taking the same node out of two permutations of each other leaves two
      permutations of each other. */
  lemma {:induction false} PermRemove(s: seq<nat>, t: seq<nat>, i: nat)
    requires multiset(s) == multiset(t) && s != [] && i < |t| && t[i] == s[0]
    ensures multiset(s[1..]) == multiset(t[..i] + t[i + 1..])
  {
    assert t == t[..i] + [t[i]] + t[i + 1..];
    assert s == [s[0]] + s[1..];
    calc {
      multiset(s[1..]);
      multiset(s) - multiset{s[0]};
      multiset(t) - multiset{t[i]};
      multiset(t[..i]) + multiset(t[i + 1..]);
      multiset(t[..i] + t[i + 1..]);
    }
  }

  /** The count depends only on which nodes occur, not on their order. */
  lemma {:induction false} CountKeyPerm<K, V>(s: seq<nat>, t: seq<nat>, es: seq<Entry<K, V>>, k: K)
    requires multiset(s) == multiset(t)
    ensures CountKey(s, es, k) == CountKey(t, es, k)
    decreases |s|
  {
    if s == [] {
      assert |t| == |multiset(t)| == 0;
    } else {
      var x := s[0];
      assert x in multiset(t);
      var i :| 0 <= i < |t| && t[i] == x;
      PermRemove(s, t, i);
      CountKeyPerm(s[1..], t[..i] + t[i + 1..], es, k);
      assert t == t[..i] + [x] + t[i + 1..];
      CountKeyAppend(t[..i] + [x], t[i + 1..], es, k);
      CountKeyAppend(t[..i], [x], es, k);
      CountKeyAppend(t[..i], t[i + 1..], es, k);
    }
  }

  /** `CountKeyPerm` for every key at once. */
  lemma CountKeysPerm<K, V>(s: seq<nat>, t: seq<nat>, es: seq<Entry<K, V>>)
    requires multiset(s) == multiset(t)
    ensures forall k :: CountKey(s, es, k) == CountKey(t, es, k)
  {
    forall k ensures CountKey(s, es, k) == CountKey(t, es, k) {
      CountKeyPerm(s, t, es, k);
    }
  }

  /** In a grouped sequence, the nodes with key `k` are exactly the run that
      starts at the first of them: the count is the run's length. */
  lemma {:induction false} RunCount<K, V>(s: seq<nat>, es: seq<Entry<K, V>>, k: K, j: nat, e: nat)
    requires Grouped(s, es)
    requires j < e <= |s|
    requires forall i | 0 <= i < j :: !HasKey(es, s[i], k)
    requires forall i | j <= i < e :: HasKey(es, s[i], k)
    requires e < |s| ==> !HasKey(es, s[e], k)
    ensures CountKey(s, es, k) == e - j
  {
    assert s == s[..j] + s[j..e] + s[e..];
    CountKeyAppend(s[..j] + s[j..e], s[e..], es, k);
    CountKeyAppend(s[..j], s[j..e], es, k);
    CountKeyNone(s[..j], es, k);
    CountKeyAll(s[j..e], es, k);
    forall i | 0 <= i < |s[e..]| ensures !HasKey(es, s[e..][i], k) {
      if HasKey(es, s[e + i], k) && i > 0 {
        GroupedAt(s, es, j, e, e + i);
      }
    }
    CountKeyNone(s[e..], es, k);
  }

  lemma {:induction false} GroupedRemove<K, V>(s: seq<nat>, es: seq<Entry<K, V>>, j: nat)
    requires Grouped(s, es) && j < |s|
    ensures Grouped(s[..j] + s[j + 1..], es)
  {
    var t := s[..j] + s[j + 1..];
    forall a, b, c ensures Between(t, es, a, b, c) {
      if 0 <= a < b < c < |t| && SameKey(es, t[a], t[c]) {
        var a' := if a < j then a else a + 1;
        var b' := if b < j then b else b + 1;
        var c' := if c < j then c else c + 1;
        assert t[a] == s[a'] && t[b] == s[b'] && t[c] == s[c'];
        GroupedAt(s, es, a', b', c');
      }
    }
  }

  /** Linking `x` right before the first node with its key, or at the end of a
      sequence that holds no node with its key, keeps the sequence grouped. */
  lemma {:induction false} GroupedInsert<K, V>(s: seq<nat>, es: seq<Entry<K, V>>, j: nat, x: nat)
    requires Grouped(s, es) && j <= |s| && x < |es|
    requires forall i | 0 <= i < j :: !SameKey(es, s[i], x)
    requires j < |s| ==> SameKey(es, s[j], x)
    requires j == |s| ==> forall i | 0 <= i < |s| :: !SameKey(es, s[i], x)
    ensures Grouped(s[..j] + [x] + s[j..], es)
  {
    var t := s[..j] + [x] + s[j..];
    // no node before position j shares a key with a node at or after it
    forall i, l | 0 <= i < j <= l < |s| ensures !SameKey(es, s[i], s[l]) {
      assert SameKey(es, s[j], x);
      if SameKey(es, s[i], s[l]) && j < l {
        GroupedAt(s, es, i, j, l);
      }
    }
    forall a, b, c ensures Between(t, es, a, b, c) {
      if 0 <= a < b < c < |t| && SameKey(es, t[a], t[c]) {
        if a == j {
          // x then a later node with its key: the run starting at s[j] covers it
          assert t[c] == s[c - 1];
          assert SameKey(es, s[j], s[c - 1]);
          if j + 1 < b {
            assert t[b] == s[b - 1];
            GroupedAt(s, es, j, b - 1, c - 1);
          }
        } else if j < a {
          assert t[a] == s[a - 1] && t[b] == s[b - 1] && t[c] == s[c - 1];
          GroupedAt(s, es, a - 1, b - 1, c - 1);
        } else {
          // a node before x shares its key with no node from x on
          assert t[a] == s[a] && t[j] == x;
          assert c < j;
          assert t[b] == s[b] && t[c] == s[c];
          GroupedAt(s, es, a, b, c);
        }
      }
    }
  }

  /** Linking `x` at the head of a grouped sequence keeps it grouped when every
      node with the key of `x` already in it follows a head with that key. */
  lemma {:induction false} GroupedCons<K, V>(s: seq<nat>, es: seq<Entry<K, V>>, x: nat)
    requires Grouped(s, es) && x < |es|
    requires (exists i | 0 <= i < |s| :: SameKey(es, s[i], x)) ==> SameKey(es, s[0], x)
    ensures Grouped([x] + s, es)
  {
    var t := [x] + s;
    forall a, b, c ensures Between(t, es, a, b, c) {
      if 0 <= a < b < c < |t| && SameKey(es, t[a], t[c]) {
        if a == 0 {
          assert SameKey(es, s[c - 1], x);
          if b > 1 {
            assert SameKey(es, s[0], s[c - 1]);
            GroupedAt(s, es, 0, b - 1, c - 1);
          }
        } else {
          assert t[a] == s[a - 1] && t[b] == s[b - 1] && t[c] == s[c - 1];
          GroupedAt(s, es, a - 1, b - 1, c - 1);
        }
      }
    }
  }

  /** Two grouped sequences with no key in common concatenate to a grouped one. */
  lemma {:induction false} GroupedConcat<K, V>(s: seq<nat>, t: seq<nat>, es: seq<Entry<K, V>>)
    requires Grouped(s, es) && Grouped(t, es)
    requires forall i, j | 0 <= i < |s| && 0 <= j < |t| :: !SameKey(es, s[i], t[j])
    ensures Grouped(s + t, es)
  {
    var u := s + t;
    forall a, b, c ensures Between(u, es, a, b, c) {
      if 0 <= a < b < c < |u| && SameKey(es, u[a], u[c]) {
        assert a < |s| ==> u[a] == s[a];
        assert |s| <= a ==> u[a] == t[a - |s|];
        assert b < |s| ==> u[b] == s[b];
        assert |s| <= b ==> u[b] == t[b - |s|];
        assert c < |s| ==> u[c] == s[c];
        assert |s| <= c ==> u[c] == t[c - |s|];
        if c < |s| {
          GroupedAt(s, es, a, b, c);
        } else if |s| <= a {
          GroupedAt(t, es, a - |s|, b - |s|, c - |s|);
        }
      }
    }
  }

  /** Nodes added at the end of the arena change no key of an existing node. */
  lemma GroupedExtend<K, V>(s: seq<nat>, es: seq<Entry<K, V>>, e: Entry<K, V>)
    requires forall i | 0 <= i < |s| :: s[i] < |es|
    requires Grouped(s, es)
    ensures Grouped(s, es + [e])
  {
    forall a, b, c ensures Between(s, es + [e], a, b, c) {
      if 0 <= a < b < c < |s| && SameKey(es + [e], s[a], s[c]) {
        assert SameKey(es, s[a], s[c]);
        GroupedAt(s, es, a, b, c);
      }
    }
  }

  lemma {:induction false} CountKeyExtend<K, V>(s: seq<nat>, es: seq<Entry<K, V>>, e: Entry<K, V>, k: K)
    requires forall i | 0 <= i < |s| :: s[i] < |es|
    ensures CountKey(s, es + [e], k) == CountKey(s, es, k)
  {
    if s != [] {
      CountKeyExtend(s[1..], es, e, k);
    }
  }

  /** Inserting a node adds one to the count of its key and nothing else. */
  lemma CountKeyInsert<K, V>(s: seq<nat>, p: nat, x: nat, es: seq<Entry<K, V>>, k: K)
    requires p <= |s|
    ensures CountKey(s[..p] + [x] + s[p..], es, k) == CountKey(s, es, k) + (if HasKey(es, x, k) then 1 else 0)
  {
    var a, b := s[..p], s[p..];
    CountKeyAppend(a + [x], b, es, k);
    CountKeyAppend(a, [x], es, k);
    CountKeyAppend(a, b, es, k);
    assert s == a + b;
    assert [x][1..] == [];
    assert CountKey([x], es, k) == (if HasKey(es, x, k) then 1 else 0) + CountKey([x][1..], es, k);
  }

  /** Cutting out `s[p..p + m]` takes its count off the count of `s`. */
  lemma CountKeyCut<K, V>(s: seq<nat>, p: nat, m: nat, es: seq<Entry<K, V>>, k: K)
    requires p + m <= |s|
    ensures CountKey(s[..p] + s[p + m..], es, k) + CountKey(s[p..p + m], es, k) == CountKey(s, es, k)
  {
    assert s == s[..p] + s[p..p + m] + s[p + m..];
    CountKeyAppend(s[..p] + s[p..p + m], s[p + m..], es, k);
    CountKeyAppend(s[..p], s[p..p + m], es, k);
    CountKeyAppend(s[..p], s[p + m..], es, k);
  }
  /** Cutting out a run of nodes that all hold `key` leaves the count of
      every other key as it was. */
  lemma CountKeyCutRun<K, V>(s: seq<nat>, p: nat, removed: seq<nat>, es: seq<Entry<K, V>>, key: K)
    requires p + |removed| <= |s| && removed == s[p..p + |removed|]
    requires forall i | 0 <= i < |removed| :: HasKey(es, removed[i], key)
    ensures forall k | k != key :: CountKey(s[..p] + s[p + |removed|..], es, k) == CountKey(s, es, k)
  {
    forall k | k != key ensures CountKey(s[..p] + s[p + |removed|..], es, k) == CountKey(s, es, k) {
      CountKeyCut(s, p, |removed|, es, k);
      CountKeyNone(removed, es, k);
    }
  }


  /** Removing the node at `p` takes one off the count of its key and nothing else. */
  lemma CountKeyDelete<K, V>(s: seq<nat>, p: nat, es: seq<Entry<K, V>>, k: K)
    requires p < |s|
    ensures CountKey(s[..p] + s[p + 1..], es, k) + (if HasKey(es, s[p], k) then 1 else 0) == CountKey(s, es, k)
  {
    CountKeyInsert(s[..p] + s[p + 1..], p, s[p], es, k);
    assert (s[..p] + s[p + 1..])[..p] + [s[p]] + (s[..p] + s[p + 1..])[p..] == s;
  }

  /** Cutting the run of nodes with key `k` out of chain `b`, where all the
      nodes with `k` are, cuts exactly those nodes out of the flattening. */
  lemma DropRun<K, V>(cs: seq<seq<nat>>, b: nat, j: nat, m: nat, es: seq<Entry<K, V>>, k: K, q: nat,
                      c: seq<nat>, o: seq<nat>, ds: seq<seq<nat>>, run: seq<nat>)
    requires b < |cs| && c == cs[b] && 0 < m && j + m <= |c| && Grouped(c, es)
    requires forall i | 0 <= i < j :: !HasKey(es, c[i], k)
    requires forall i | j <= i < j + m :: HasKey(es, c[i], k)
    requires j + m < |c| ==> !HasKey(es, c[j + m], k)
    requires CountKey(Flat(cs), es, k) == CountKey(c, es, k)
    requires q == |Flat(cs[..b])| + j && o == Flat(cs)
    requires ds == cs[b := c[..j] + c[j + m..]] && run == c[j..j + m] && m == |run|
    ensures q + m <= |o| && CountKey(o, es, k) == m
    ensures Flat(ds) == o[..q] + o[q + m..]
    ensures run == o[q..q + m]
    ensures CountKey(Flat(ds), es, k) == 0
  {
    RunCount(c, es, k, j, j + m);
    FlatDrop(cs, b, j, m, q, c, o, ds);
    CountKeyCut(o, q, m, es, k);
    RunKeys(c, j, run, es, k);
    CountKeyAll(run, es, k);
  }

  /** The nodes of a run of `c` that all have key `k`, read off the run itself. */
  lemma RunKeys<K, V>(c: seq<nat>, j: nat, run: seq<nat>, es: seq<Entry<K, V>>, k: K)
    requires j + |run| <= |c| && run == c[j..j + |run|]
    requires forall i | j <= i < j + |run| :: HasKey(es, c[i], k)
    ensures forall i | 0 <= i < |run| :: HasKey(es, run[i], k)
  {
    forall i | 0 <= i < |run| ensures HasKey(es, run[i], k) {
      assert run[i] == c[j + i];
    }
  }

  lemma {:induction false} GroupedPrefix<K, V>(s: seq<nat>, es: seq<Entry<K, V>>, n: nat)
    requires Grouped(s, es) && n <= |s|
    ensures Grouped(s[..n], es)
  {
    forall a, b, c ensures Between(s[..n], es, a, b, c) {
      if 0 <= a < b < c < n && SameKey(es, s[..n][a], s[..n][c]) {
        assert s[..n][a] == s[a] && s[..n][b] == s[b] && s[..n][c] == s[c];
        GroupedAt(s, es, a, b, c);
      }
    }
  }
}
