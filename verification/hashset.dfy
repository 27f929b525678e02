/** `intrhash_set_t` and `intrhash_multiset_t`: sets of values built on the
    intrusive table. A node carries one value, which is also its key; its
    entry is `Entry(value, ())`. A set allocates (`new_node`) every node it
    links and deletes (`delete_node`) every node it unlinks; `freed` is the
    set of nodes deleted so far. */
module HashSet {
  import opened Links
  import opened Chains
  import opened IntrHashPriv
  import opened Copies
  import opened Ledger
  import opened Engine

  /** `intrhash_set_t`: at most one node per value. */
  class Set<T(==,!new)> {
    const table: IntrHash<T, ()>
    ghost var freed: set<nat>

    /** The table is well formed, every node the set allocated is linked or
        deleted, and no value is linked twice. */
    ghost predicate Valid()
      reads this, table, table.buckets
    {
      && table.Valid()
      && Accounted(table.Order(), freed, |table.links|)
      && (forall k :: table.Occ(k) <= 1)
    }

    /** `intrhash_set_t(n)`: an empty set sized for `n` values. */
    constructor (n: nat, hash: T -> nat)
      ensures Valid() && fresh(table) && fresh(table.buckets) && freed == {}
      ensures table.hash == hash && |table.chains| == BucketsCount(n) && table.Order() == []
    {
      table := new IntrHash(n, hash);
      freed := {};
    }

    /** `intrhash_set_t(const intrhash_set_t&)`: a set holding a fresh copy
        of every node of `right`, with the same values. */
    constructor Copy(right: Set<T>)
      requires right.Valid()
      ensures Valid() && fresh(table) && fresh(table.buckets) && freed == {}
      ensures table.nitems == right.table.nitems
      ensures forall k :: table.Occ(k) == right.table.Occ(k)
      ensures Bag(table.Order(), table.entries, Same) == Bag(right.table.Order(), right.table.entries, Same)
    {
      table := new IntrHash.Clone(right.table, Same);
      freed := {};
    }

    /** `insert(value)`: link a new node for `value` unless it is already
        linked; the result designates the node holding `value`. */
    method Insert(value: T) returns (it: Link, inserted: bool)
      requires Valid()
      modifies table, table.buckets
      ensures Valid() && freed == old(freed)
      ensures inserted <==> old(table.Occ(value)) == 0
      ensures it.Item? && it.node in table.Order() && HasKey(table.entries, it.node, value)
      ensures inserted ==> table.entries == old(table.entries) + [Entry(value, ())] && it.node == |old(table.entries)|
      ensures !inserted ==> table.entries == old(table.entries) && multiset(table.Order()) == multiset(old(table.Order()))
      ensures table.nitems == old(table.nitems) + (if inserted then 1 else 0)
      ensures table.Occ(value) == 1 && forall k | k != value :: table.Occ(k) == old(table.Occ(k))
    {
      ghost var o, n := table.Order(), |table.links|;
      ghost var grown, p;
      it, inserted, grown, p := table.FindOrPush(value, Entry(value, ()));
      if inserted {
        AccountedGrow(o, table.Order(), freed, n);
      } else {
        AccountedPerm(o, table.Order(), freed, n);
      }
    }

    /** `erase(iterator)`: unlink and delete the node an iterator at index
        `k` of the order designates; its value is then absent. */
    method EraseIter(it: Link, ghost k: nat) returns (r: nat)
      requires Valid() && k < |table.Order()| && it == HeadOf(table.Order()[k..])
      modifies this, table, table.buckets
      ensures Valid() && table.entries == old(table.entries)
      ensures r == 1 && freed == old(freed) + {old(table.Order())[k]}
      ensures table.Order() == old(table.Order())[..k] + old(table.Order())[k + 1..]
      ensures table.Occ(table.entries[old(table.Order())[k]].key) == 0
    {
      table.OrderFacts();
      ghost var o := table.Order();
      assert it.node == o[k] && o[k] in o;
      var popped;
      ghost var p;
      popped, p := table.Pop(it.node);
      if p != k {
        DifferAt(o, p, k);
      }
      AccountedDrop(o, k, freed, |table.links|);
      forall v ensures table.Occ(v) <= 1 {
        assert old(table.Occ(v)) <= 1;
        CountKeyDelete(o, k, table.entries, v);
      }
      assert old(table.Occ(table.entries[o[k]].key)) <= 1;
      CountKeyDelete(o, k, table.entries, table.entries[o[k]].key);
      // The node of a dereferenceable iterator is linked, so `pop` finds it.
      freed := freed + {popped.value};
      r := 1;
    }

    /** `erase(value)`: unlink and delete the node holding `value`, if any;
        the result is the number of nodes deleted. */
    method EraseKey(value: T) returns (r: nat)
      requires Valid()
      modifies this, table, table.buckets
      ensures Valid() && table.entries == old(table.entries)
      ensures r == old(table.Occ(value)) && r <= 1
      ensures r == 0 ==> table.Order() == old(table.Order()) && freed == old(freed)
      ensures r == 1 ==> exists x :: x in old(table.Order()) && HasKey(table.entries, x, value) && freed == old(freed) + {x}
      ensures forall k :: table.Occ(k) == if k == value then 0 else old(table.Occ(k))
    {
      table.OrderFacts();
      ghost var o := table.Order();
      var popped;
      ghost var p;
      popped, p := table.PopOne(value);
      if popped == None {
        r := 0;
      } else {
        assert o[p] in o && old(table.Occ(value)) <= 1;
        AccountedDrop(o, p, freed, |table.links|);
        forall k ensures table.Occ(k) == if k == value then 0 else old(table.Occ(k)) {
          CountKeyDelete(o, p, table.entries, k);
        }
        freed := freed + {popped.value};
        assert popped.value in old(table.Order()) && HasKey(table.entries, popped.value, value);
        r := 1;
      }
      forall k ensures table.Occ(k) <= 1 {
        assert old(table.Occ(k)) <= 1;
      }
    }

    /** `clear()`: unlink and delete every node. */
    method Clear()
      requires Valid()
      modifies this, table, table.buckets
      ensures Valid() && table.entries == old(table.entries)
      ensures table.Order() == [] && freed == old(freed) + set x | x in old(table.Order())
    {
      table.OrderFacts();
      var drained := table.Decompose();
      AccountedClear(drained, freed, |table.links|, set x | x in drained);
      freed := freed + set x | x in drained;
    }
  }

  /** `intrhash_multiset_t`: any number of nodes per value. */
  class MultiSet<T(==,!new)> {
    const table: IntrHash<T, ()>
    ghost var freed: set<nat>

    /** The table is well formed and every node the set allocated is linked
        or deleted. */
    ghost predicate Valid()
      reads this, table, table.buckets
    {
      && table.Valid()
      && Accounted(table.Order(), freed, |table.links|)
    }

    /** `intrhash_multiset_t(n)`: an empty set sized for `n` values. */
    constructor (n: nat, hash: T -> nat)
      ensures Valid() && fresh(table) && fresh(table.buckets) && freed == {}
      ensures table.hash == hash && |table.chains| == BucketsCount(n) && table.Order() == []
    {
      table := new IntrHash(n, hash);
      freed := {};
    }

    /** `intrhash_multiset_t(const intrhash_multiset_t&)`: a set holding a
        fresh copy of every node of `right`, each value as many times. */
    constructor Copy(right: MultiSet<T>)
      requires right.Valid()
      ensures Valid() && fresh(table) && fresh(table.buckets) && freed == {}
      ensures table.nitems == right.table.nitems
      ensures forall k :: table.Occ(k) == right.table.Occ(k)
      ensures Bag(table.Order(), table.entries, Same) == Bag(right.table.Order(), right.table.entries, Same)
    {
      table := new IntrHash.Clone(right.table, Same);
      freed := {};
    }

    /** `insert(value)`: link a new node for `value`, beside the nodes
        already holding it. */
    method Insert(value: T) returns (it: Link)
      requires Valid()
      modifies table, table.buckets
      ensures Valid() && freed == old(freed)
      ensures it == Item(|old(table.entries)|) && table.entries == old(table.entries) + [Entry(value, ())]
      ensures table.nitems == old(table.nitems) + 1
      ensures multiset(table.Order()) == multiset(old(table.Order())) + multiset{it.node}
      ensures forall k :: table.Occ(k) == old(table.Occ(k)) + if k == value then 1 else 0
    {
      ghost var o, n := table.Order(), |table.links|;
      var x := table.NewNode(Entry(value, ()));
      var r;
      ghost var mid, p, grown;
      r, mid, p, grown := table.Push(x);
      SplicePerm(mid, p, x);
      AccountedGrow(o, table.Order(), freed, n);
      it := Item(r);
    }

    /** `erase(iterator)`: unlink and delete the node an iterator at index
        `k` of the order designates. */
    method EraseIter(it: Link, ghost k: nat) returns (r: nat)
      requires Valid() && k < |table.Order()| && it == HeadOf(table.Order()[k..])
      modifies this, table, table.buckets
      ensures Valid() && table.entries == old(table.entries)
      ensures r == 1 && freed == old(freed) + {old(table.Order())[k]}
      ensures table.Order() == old(table.Order())[..k] + old(table.Order())[k + 1..]
    {
      table.OrderFacts();
      ghost var o := table.Order();
      assert it.node == o[k] && o[k] in o;
      var popped;
      ghost var p;
      popped, p := table.Pop(it.node);
      if p != k {
        DifferAt(o, p, k);
      }
      AccountedDrop(o, k, freed, |table.links|);
      // The node of a dereferenceable iterator is linked, so `pop` finds it.
      freed := freed + {popped.value};
      r := 1;
    }

    /** `erase(value)`: unlink and delete every node holding `value`; the
        result is the number of nodes deleted. */
    method EraseKey(value: T) returns (r: nat, ghost removed: seq<nat>)
      requires Valid()
      modifies this, table, table.buckets
      ensures Valid() && table.entries == old(table.entries)
      ensures r == old(table.Occ(value)) && r == |removed|
      ensures forall i | 0 <= i < |removed| :: HasKey(table.entries, removed[i], value) && removed[i] !in old(freed)
      ensures multiset(table.Order()) + multiset(removed) == multiset(old(table.Order()))
      ensures freed == old(freed) + set x | x in removed
      ensures forall k :: table.Occ(k) == if k == value then 0 else old(table.Occ(k))
    {
      table.OrderFacts();
      ghost var o := table.Order();
      var taken;
      ghost var p;
      taken, p := table.PopAll(value);
      removed := taken;
      AccountedErase(o, p, removed, freed, |table.links|);
      CountKeyCutRun(o, p, removed, table.entries, value);
      freed := freed + set x | x in removed;
      r := |taken|;
    }

    /** `clear()`: unlink and delete every node. */
    method Clear()
      requires Valid()
      modifies this, table, table.buckets
      ensures Valid() && table.entries == old(table.entries)
      ensures table.Order() == [] && freed == old(freed) + set x | x in old(table.Order())
    {
      table.OrderFacts();
      var drained := table.Decompose();
      AccountedClear(drained, freed, |table.links|, set x | x in drained);
      freed := freed + set x | x in drained;
    }
  }
}
