/** The values the engine stores in a bucket slot or in a node's link field.

    The C++ table packs three kinds of pointer into one machine word: a pointer
    to the next bucket slot with bit 0 set, a plain node pointer, and null. Here
    the three kinds are the constructors of `Link`, and a node or a bucket slot
    is named by its index. */
module Links {

  /** One tagged cell.
      - `Cont(slot)`: bit 0 set; the chain ends here, traversal continues at bucket slot `slot`.
      - `Item(node)`: bit 0 clear; the next node is `node`.
      - `End`: the null pointer. It is held by the final sentinel slot and by every unlinked node. */
  datatype Link = Cont(slot: nat) | Item(node: nat) | End

  /** A context: the address of one tagged cell, either bucket slot `index` or
      the link field of node `node`. */
  datatype Ctx = Slot(index: nat) | NextOf(node: nat)

  /** What a node carries besides its link: the key the policy extracts from
      it and the value an iterator dereferences to. */
  datatype Entry<K, V> = Entry(key: K, value: V)

  datatype Option<T> = None | Some(value: T)

  /** The iterator value (the `item_` pointer) positioned at the first node of `s`,
      or the end iterator (null) when `s` is empty. */
  function HeadOf(s: seq<nat>): Link
  {
    if s == [] then End else Item(s[0])
  }
}
