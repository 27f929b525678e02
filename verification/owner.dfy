/** `ownintrhash_t`: an intrusive table that owns the nodes linked into it
    and destroys (`D::destroy`) every node it unlinks. The owner reaches the
    operations it inherits from `intrhash_t` through `table`; `freed` is the
    set of nodes destroyed so far. */
module Owning {
  import opened Links
  import opened Chains
  import opened IntrHashPriv
  import opened Ledger
  import opened Engine

  class OwnIntrHash<K(==,!new), V(!new)> {
    const table: IntrHash<K, V>
    ghost var freed: set<nat>

    /** The table is well formed and no destroyed node is linked into it. */
    ghost predicate Valid()
      reads this, table, table.buckets
    {
      && table.Valid()
      && NoneLinked(table.Order(), freed, |table.links|)
    }

    /** `ownintrhash_t(n)`: an empty table sized for `n` nodes. */
    constructor (n: nat, hash: K -> nat)
      ensures Valid() && fresh(table) && fresh(table.buckets) && freed == {}
      ensures table.hash == hash && |table.chains| == BucketsCount(n) && table.Order() == []
    {
      table := new IntrHash(n, hash);
      freed := {};
    }

    /** `erase(item)`: unlink node `x` and destroy it if it is linked; the
        result is the number of nodes destroyed. */
    method Erase(x: nat) returns (r: nat, ghost p: nat)
      requires Valid() && x < |table.entries| && x !in freed
      modifies this, table, table.buckets
      ensures Valid() && table.entries == old(table.entries) && table.buckets == old(table.buckets)
      ensures r == 1 <==> x in old(table.Order())
      ensures r == 0 ==> table.Order() == old(table.Order()) && freed == old(freed)
      ensures r == 1 ==> p < |old(table.Order())| && old(table.Order())[p] == x
      ensures r == 1 ==> table.Order() == old(table.Order())[..p] + old(table.Order())[p + 1..]
      ensures r == 1 ==> freed == old(freed) + {x} && table.nitems == old(table.nitems) - 1
    {
      table.OrderFacts();
      ghost var o := table.Order();
      var popped;
      popped, p := table.Pop(x);
      if popped == None {
        r := 0;
      } else {
        NoneLinkedDrop(o, p, freed, |table.links|);
        freed := freed + {x};
        r := 1;
      }
    }

    /** `erase(iterator)`: destroy the node an iterator at index `k` of the
        order designates. */
    method EraseIter(it: Link, ghost k: nat) returns (r: nat)
      requires Valid() && k < |table.Order()| && it == HeadOf(table.Order()[k..])
      modifies this, table, table.buckets
      ensures Valid() && table.entries == old(table.entries) && table.buckets == old(table.buckets)
      ensures r == 1 && freed == old(freed) + {old(table.Order())[k]}
      ensures table.Order() == old(table.Order())[..k] + old(table.Order())[k + 1..]
    {
      table.OrderFacts();
      ghost var o := table.Order();
      assert it.node == o[k] && o[k] in o;
      ghost var p;
      r, p := Erase(it.node);
      if p != k {
        DifferAt(o, p, k);
      }
    }

    /** `erase(key)`: unlink the first node with `key` in the order and
        destroy it; the result is the number of nodes destroyed. */
    method EraseKey(key: K) returns (r: nat, ghost p: nat)
      requires Valid()
      modifies this, table, table.buckets
      ensures Valid() && table.entries == old(table.entries) && table.buckets == old(table.buckets)
      ensures r == 1 <==> old(table.Occ(key)) > 0
      ensures r == 0 ==> table.Order() == old(table.Order()) && freed == old(freed)
      ensures r == 1 ==> p < |old(table.Order())| && HasKey(table.entries, old(table.Order())[p], key)
      ensures r == 1 ==> forall i | 0 <= i < p :: !HasKey(table.entries, old(table.Order())[i], key)
      ensures r == 1 ==> table.Order() == old(table.Order())[..p] + old(table.Order())[p + 1..]
      ensures r == 1 ==> freed == old(freed) + {old(table.Order())[p]} && table.Occ(key) == old(table.Occ(key)) - 1
    {
      table.OrderFacts();
      ghost var o := table.Order();
      var popped;
      popped, p := table.PopOne(key);
      if popped == None {
        r := 0;
      } else {
        assert o[p] in o;
        NoneLinkedDrop(o, p, freed, |table.links|);
        CountKeyDelete(o, p, table.entries, key);
        freed := freed + {popped.value};
        r := 1;
      }
    }

    /** `erase_all(key)`: unlink every node with `key` and destroy each; the
        result is the number of nodes destroyed. */
    method EraseAll(key: K) returns (r: nat, removed: seq<nat>)
      requires Valid()
      modifies this, table, table.buckets
      ensures Valid() && table.entries == old(table.entries) && table.buckets == old(table.buckets)
      ensures r == old(table.Occ(key)) && r == |removed| && table.Occ(key) == 0
      ensures forall i | 0 <= i < |removed| :: HasKey(table.entries, removed[i], key) && removed[i] !in old(freed)
      ensures multiset(table.Order()) + multiset(removed) == multiset(old(table.Order()))
      ensures freed == old(freed) + set x | x in removed
    {
      table.OrderFacts();
      ghost var o := table.Order();
      ghost var p;
      removed, p := table.PopAll(key);
      ghost var gone := set x | x in removed;
      forall x | x in gone ensures x < |table.links| && x !in old(freed) {
        assert x in o;
      }
      NoneLinkedCut(o, p, |removed|, freed, |table.links|, gone);
      assert o == o[..p] + removed + o[p + |removed|..];
      freed := freed + gone;
      r := |removed|;
    }

    /** `clear()`: unlink every node and destroy each. */
    method Clear() returns (ghost drained: seq<nat>)
      requires Valid()
      modifies this, table, table.buckets
      ensures Valid() && table.entries == old(table.entries) && table.buckets == old(table.buckets)
      ensures table.Order() == [] && drained == old(table.Order())
      ensures freed == old(freed) + set x | x in drained
    {
      table.OrderFacts();
      drained := table.Decompose();
      freed := freed + set x | x in drained;
    }
  }
}
