/** A btree page and the binary search inside it (src/btree.h, src/btree.cc). */
module BtreeNode {

  /** A page address; 0 is the null address. */
  type Addr = nat

  /** Keys are seen only through the database's comparison function. Every countable
      total order embeds into the order of the reals, so reals stand for any of them. */
  type Key = real

  /** A `btree_key_t`: in a leaf `ptr` is the record, in an internal page a child address.
      A reference to a page is an entry too: `ptr` is the page, `key` its lower separator. */
  datatype Entry = Entry(key: Key, ptr: nat)

  /** A `btree_node_t`. Slots beyond `count` are kept: the code reads some of them. */
  datatype Node = Node(ptrLeft: Addr, count: nat, slots: seq<Entry>, left: Addr, right: Addr) {
    predicate IsLeaf() { ptrLeft == 0 }
  }

  predicate Fits(n: Node, cap: nat) {
    |n.slots| == cap && n.count <= cap
  }

  predicate SortedSlots(n: Node)
    requires n.count <= |n.slots|
  {
    forall a, b :: 0 <= a < b < n.count ==> n.slots[a].key < n.slots[b].key
  }

  function Compare(lhs: Key, rhs: Key): (cmp: int)
  {
    if lhs < rhs then -1 else if lhs == rhs then 0 else 1
  }

  /** `slot` is the largest index whose key is not above `key`, or -1. */
  ghost predicate IsSlot(n: Node, key: Key, slot: int)
    requires n.count <= |n.slots|
  {
    && -1 <= slot < n.count
    && (forall x :: 0 <= x <= slot ==> n.slots[x].key <= key)
    && (forall x :: slot < x < n.count ==> key < n.slots[x].key)
  }

  /** btree_get_slot: binary search whose first probe skips slot 0. */
  method GetSlot(n: Node, key: Key) returns (slot: int, cmp: int)
    requires 0 < n.count <= |n.slots| && n.count <= 0xFFFF && SortedSlots(n)
    ensures IsSlot(n, key, slot)
    ensures cmp == if slot == -1 then -1 else if n.slots[slot].key == key then 0 else 1
  {
    var r := n.count - 1;
    var l := 1;
    var last := 0xFFFF + 1;
    if r == 0 {
      cmp := Compare(key, n.slots[0].key);
      slot := if cmp < 0 then -1 else 0;
      return;
    }
    while true
      invariant 1 <= l <= r + 1 && 0 <= r < n.count
      invariant last == l - 1 || (l == 1 && last == 0x10000)
      invariant last == l - 1 ==> n.slots[last].key < key
      invariant forall x :: r < x < n.count ==> key < n.slots[x].key
      decreases r - l + 1, if last == l - 1 then 0 else 1
    {
      var i := (l + r) / 2;
      if i == last {
        slot, cmp := i, 1;
        return;
      }
      cmp := Compare(key, n.slots[i].key);
      if cmp == 0 {
        slot := i;
        return;
      }
      if cmp < 0 {
        if r == 0 {
          slot := -1;
          return;
        }
        r := i - 1;
      } else {
        last := i;
        l := i + 1;
      }
    }
  }

  /** memmove/memcpy of `n` entries from `src[from..]` over `dst[to..]`. */
  function Moved(dst: seq<Entry>, to: nat, src: seq<Entry>, from: nat, n: nat): (r: seq<Entry>)
    requires to + n <= |dst| && from + n <= |src|
    ensures |r| == |dst|
    ensures forall i :: 0 <= i < to ==> r[i] == dst[i]
    ensures forall i :: to <= i < to + n ==> r[i] == src[from + (i - to)]
    ensures forall i :: to + n <= i < |r| ==> r[i] == dst[i]
  {
    dst[..to] + src[from..from + n] + dst[to + n..]
  }
}
