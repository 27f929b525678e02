/** Bookkeeping for the tables that own their nodes: which nodes of the arena
    have been destroyed. The facts are about an iteration order `o` over an
    arena of `n` nodes and the set `freed` of nodes destroyed so far. */
module Ledger {
  import opened Chains

  /** No destroyed node is linked: the table never reaches freed memory. */
  ghost predicate NoneLinked(o: seq<nat>, freed: set<nat>, n: nat)
  {
    forall x | x in freed :: x < n && x !in o
  }

  /** Every node of the arena is linked or destroyed, and not both: the
      table leaks no node it allocated. */
  ghost predicate Accounted(o: seq<nat>, freed: set<nat>, n: nat)
  {
    && (forall x | x in freed :: x < n)
    && (forall x | 0 <= x < n :: x in freed <==> x !in o)
  }

  /** Cutting the nodes `gone` out of the order and destroying them leaves
      no destroyed node linked. */
  lemma NoneLinkedCut(s: seq<nat>, p: nat, m: nat, freed: set<nat>, n: nat, gone: set<nat>)
    requires Distinct(s) && p + m <= |s| && NoneLinked(s, freed, n)
    requires forall x :: x in gone <==> x in s[p..p + m]
    requires forall x | x in gone :: x < n
    ensures NoneLinked(s[..p] + s[p + m..], freed + gone, n)
  {
    forall x | x in freed + gone ensures x < n && x !in s[..p] + s[p + m..] {
      CutMembers(s, p, m, x);
    }
  }

  /** Cutting the nodes `gone` out of the order and destroying them keeps
      every node accounted for. */
  lemma AccountedCut(s: seq<nat>, p: nat, m: nat, freed: set<nat>, n: nat, gone: set<nat>)
    requires Distinct(s) && p + m <= |s| && Accounted(s, freed, n)
    requires forall x :: x in gone <==> x in s[p..p + m]
    requires forall x | x in gone :: x < n
    ensures Accounted(s[..p] + s[p + m..], freed + gone, n)
  {
    forall x | 0 <= x < n ensures x in freed + gone <==> x !in s[..p] + s[p + m..] {
      CutMembers(s, p, m, x);
    }
  }

  /** Cutting the run `removed` out of the order and deleting its nodes keeps
      every node accounted for; none of them had been deleted before, and the
      nodes left linked together with the run are the nodes linked before. */
  lemma AccountedErase(s: seq<nat>, p: nat, removed: seq<nat>, freed: set<nat>, n: nat)
    requires Distinct(s) && p + |removed| <= |s| && removed == s[p..p + |removed|]
    requires Accounted(s, freed, n) && forall x | x in s :: x < n
    ensures Accounted(s[..p] + s[p + |removed|..], freed + (set x | x in removed), n)
    ensures forall i | 0 <= i < |removed| :: removed[i] !in freed
    ensures multiset(s[..p] + s[p + |removed|..]) + multiset(removed) == multiset(s)
  {
    var gone := set x | x in removed;
    forall x | x in gone ensures x < n {
      assert x in s;
    }
    AccountedCut(s, p, |removed|, freed, n, gone);
    forall i | 0 <= i < |removed| ensures removed[i] !in freed {
      assert removed[i] in s;
    }
    assert s == s[..p] + removed + s[p + |removed|..];
  }

  /** Unlinking and destroying node `p` of the order. */
  lemma NoneLinkedDrop(s: seq<nat>, p: nat, freed: set<nat>, n: nat)
    requires Distinct(s) && p < |s| && s[p] < n && NoneLinked(s, freed, n)
    ensures NoneLinked(s[..p] + s[p + 1..], freed + {s[p]}, n)
  {
    assert s[p..p + 1] == [s[p]];
    NoneLinkedCut(s, p, 1, freed, n, {s[p]});
  }

  /** Unlinking and destroying node `p` of the order. */
  lemma AccountedDrop(s: seq<nat>, p: nat, freed: set<nat>, n: nat)
    requires Distinct(s) && p < |s| && s[p] < n && Accounted(s, freed, n)
    ensures Accounted(s[..p] + s[p + 1..], freed + {s[p]}, n)
  {
    assert s[p..p + 1] == [s[p]];
    AccountedCut(s, p, 1, freed, n, {s[p]});
  }

  /** Linking node `n`, the one just allocated, keeps every node accounted for. */
  lemma AccountedGrow(o: seq<nat>, o': seq<nat>, freed: set<nat>, n: nat)
    requires Accounted(o, freed, n) && multiset(o') == multiset(o) + multiset{n}
    ensures Accounted(o', freed, n + 1)
  {
    forall x | 0 <= x < n + 1 ensures x in freed <==> x !in o' {
      assert x in o' <==> x in multiset(o');
      assert x in o <==> x in multiset(o);
    }
  }

  /** Relinking the same nodes in another order keeps every node accounted for. */
  lemma AccountedPerm(o: seq<nat>, o': seq<nat>, freed: set<nat>, n: nat)
    requires Accounted(o, freed, n) && multiset(o') == multiset(o)
    ensures Accounted(o', freed, n)
  {
    forall x | 0 <= x < n ensures x in freed <==> x !in o' {
      assert x in o' <==> x in multiset(o');
      assert x in o <==> x in multiset(o);
    }
  }

  /** Unlinking every node and destroying them all. */
  lemma AccountedClear(o: seq<nat>, freed: set<nat>, n: nat, gone: set<nat>)
    requires Accounted(o, freed, n)
    requires forall x :: x in gone <==> x in o
    requires forall x | x in o :: x < n
    ensures Accounted([], freed + gone, n)
  {
  }
}
