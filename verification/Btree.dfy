/** The btree backend object, and descending from a page to a child (src/btree.cc). */
module BtreeBackend {
  import opened Collections
  import opened BtreeNode
  import opened BtreeLevels

  /** BtreeBackend with the pages it reaches through the page manager. */
  class Btree {
    var pages: Store
    var root: Addr
    const maxkeys: nat

    /** The levels of the tree; Valid() ties them to the pages. */
    ghost var shape: Shape

    ghost predicate Valid()
      reads this
    {
      CapOk(maxkeys) && TreeOk(pages, root, shape, maxkeys, 0)
    }

    /** All entries of the tree in key order. */
    ghost function Contents(): seq<Entry>
      requires Valid()
      reads this
    {
      shape.levels[0]
    }

    /** BtreeBackend::create: one empty root leaf. */
    constructor (maxkeys: nat, rootpage: Addr, slots: seq<Entry>)
      requires CapOk(maxkeys) && rootpage != 0 && |slots| == maxkeys
      ensures Valid() && Contents() == [] && this.maxkeys == maxkeys && root == rootpage
    {
      this.maxkeys := maxkeys;
      pages := map[rootpage := Node(0, 0, slots, 0, 0)];
      root := rootpage;
      shape := Shape([[], [Entry(0.0, rootpage)]], map[rootpage := 1], true);
      new;
      assert Flat(pages, shape.levels[1], 0, 1) == [] by { FlatOne(pages, shape.levels[1], 0); }
      assert InBounds(pages, shape.levels[1], 0);
    }
  }

  /** `key` belongs below `L[j]`. */
  ghost predicate InRange(L: seq<Entry>, j: nat, key: Key) {
    && j < |L|
    && (j > 0 ==> L[j].key <= key)
    && (j + 1 < |L| ==> key < L[j + 1].key)
  }

  /** All keys of a page lie between the separators on its two sides. */
  ghost predicate Within(L: seq<Entry>, j: nat, n: Node) {
    && j < |L| && n.count <= |n.slots|
    && (forall x :: 0 <= x < n.count && j > 0 ==> L[j].key <= n.slots[x].key)
    && (forall x :: 0 <= x < n.count && j + 1 < |L| ==> n.slots[x].key < L[j + 1].key)
  }

  function Child(n: Node, slot: int): Addr
    requires -1 <= slot < |n.slots|
  {
    if slot == -1 then n.ptrLeft else n.slots[slot].ptr
  }

  /** The child picked by the slot search is the page of the next level that covers the key. */
  lemma Descend(p: Store, s: Shape, cap: nat, hole: Addr, i: nat, j: nat, key: Key, slot: int)
    requires i >= 2 && Good(p, s, cap, hole, i - 1, i) && InRange(s.levels[i], j, key)
    requires IsSlot(p[s.levels[i][j].ptr], key, slot)
    ensures var x := Off(p, s.levels[i], j) + 1 + slot;
      InRange(s.levels[i - 1], x, key) && s.levels[i - 1][x].ptr == Child(p[s.levels[i][j].ptr], slot)
  {
    var n := p[s.levels[i][j].ptr];
    FirstKid(p, s, cap, hole, i, j);
    NextOff(p, s, cap, hole, i, j);
    if slot >= 0 { SlotKid(p, s, cap, hole, i, j, slot); }
    if slot + 1 < n.count { SlotKid(p, s, cap, hole, i, j, slot + 1); }
    if j == 0 { assert Off(p, s.levels[i], 0) == 0; }
  }

  /** btree_traverse_tree */
  method TraverseTree(be: Btree, page: Addr, key: Key, ghost i: nat, ghost j: nat) returns (child: Addr, slot: int)
    requires CapOk(be.maxkeys) && i >= 2 && Good(be.pages, be.shape, be.maxkeys, 0, i - 1, i)
    requires InRange(be.shape.levels[i], j, key) && page == be.shape.levels[i][j].ptr && page in be.pages
    requires be.pages[page].count > 0
    ensures -1 <= slot < be.pages[page].count <= |be.pages[page].slots|
    ensures IsSlot(be.pages[page], key, slot) && child == Child(be.pages[page], slot)
    ensures var x := Off(be.pages, be.shape.levels[i], j) + 1 + slot;
      InRange(be.shape.levels[i - 1], x, key) && be.shape.levels[i - 1][x].ptr == child && child in be.pages
  {
    var node := be.pages[page];
    PageKeys(be.pages, be.shape, be.maxkeys, 0, i, j);
    var cmp;
    slot, cmp := GetSlot(node, key);
    Descend(be.pages, be.shape, be.maxkeys, 0, i, j, key, slot);
    child := if slot == -1 then node.ptrLeft else node.slots[slot].ptr;
  }

  /** db_alloc_page: some address that is not in use; the page may hold old data. */
  method AllocPage(be: Btree) returns (b: Addr, blank: Node)
    ensures b != 0 && b !in be.pages
    ensures blank.ptrLeft == 0 && blank.count == 0 && blank.left == 0 && blank.right == 0 && |blank.slots| == be.maxkeys
  {
    ghost var c := FreeNumber(be.pages.Keys);
    assert c !in be.pages;
    b :| b != 0 && b !in be.pages;
    assert |seq(be.maxkeys, _ => Entry(0.0, 0))| == be.maxkeys;
    var slots: seq<Entry> :| |slots| == be.maxkeys;
    blank := Node(0, 0, slots, 0, 0);
  }

  // ---------------------------------------------------------------- positions in the entry sequence

  /** The entries of leaf `j` and where they sit in the whole sequence. */
  lemma LeafItem(p: Store, s: Shape, cap: nat, hole: Addr, j: nat, x: nat)
    requires Low(p, s, cap, hole, 1) && j < |s.levels[1]| && x < p[s.levels[1][j].ptr].count
    ensures var o := Off(p, s.levels[1], j);
      o + x < |s.levels[0]| && s.levels[0][o + x] == p[s.levels[1][j].ptr].slots[x]
  {
    KidAt(p, s.levels[1], j, x);
  }

  lemma LeafOff(p: Store, s: Shape, cap: nat, hole: Addr, j: nat)
    requires Low(p, s, cap, hole, 1) && j < |s.levels[1]|
    ensures Off(p, s.levels[1], j + 1) == Off(p, s.levels[1], j) + p[s.levels[1][j].ptr].count <= |s.levels[0]|
    ensures j + 1 == |s.levels[1]| ==> Off(p, s.levels[1], j + 1) == |s.levels[0]|
  {
    FlatAt(p, s.levels[1], j);
  }

  /** The last entry of leaf `j` is below the separator to its right. */
  lemma LastBelow(p: Store, s: Shape, cap: nat, hole: Addr, j: nat)
    requires Low(p, s, cap, hole, 1) && j + 1 < |s.levels[1]| && p[s.levels[1][j].ptr].count > 0
    ensures var o := Off(p, s.levels[1], j + 1);
      0 < o <= |s.levels[0]| && s.levels[0][o - 1].key < s.levels[1][j + 1].key
  {
    var L := s.levels[1];
    var x := p[L[j].ptr].count - 1;
    LeafOff(p, s, cap, hole, j);
    LeafItem(p, s, cap, hole, j, x);
    assert InBounds(p, L, j);
    assert Kids(p, L[j])[x] == p[L[j].ptr].slots[x];
  }

  /** The first entry of leaf `j` is not below the separator to its left. */
  lemma FirstAbove(p: Store, s: Shape, cap: nat, hole: Addr, j: nat)
    requires Low(p, s, cap, hole, 1) && 0 < j < |s.levels[1]| && p[s.levels[1][j].ptr].count > 0
    ensures var o := Off(p, s.levels[1], j); o < |s.levels[0]| && s.levels[1][j].key <= s.levels[0][o].key
  {
    var L := s.levels[1];
    LeafItem(p, s, cap, hole, j, 0);
    assert InBounds(p, L, j);
    assert Kids(p, L[j])[0] == p[L[j].ptr].slots[0];
  }

  /** Everything left of the leaf that covers `key` is smaller, everything right of it larger. */
  lemma AroundLeaf(p: Store, s: Shape, cap: nat, j: nat, key: Key)
    requires Low(p, s, cap, 0, 1) && InRange(s.levels[1], j, key) && (s.lone ==> |s.levels[1]| == 1)
    ensures forall y :: 0 <= y < Off(p, s.levels[1], j) && y < |s.levels[0]| ==> s.levels[0][y].key < key
    ensures forall y :: Off(p, s.levels[1], j + 1) <= y < |s.levels[0]| ==> key < s.levels[0][y].key
  {
    AscendingKeys(s.levels[0], 0);
    if j > 0 { LastBelow(p, s, cap, 0, j - 1); }
    if j + 1 < |s.levels[1]| {
      FirstAbove(p, s, cap, 0, j + 1);
    } else {
      LeafOff(p, s, cap, 0, j);
    }
  }
}
