/** Insertion into the tree (src/btree_insert.cc). */
module BtreeInsert {
  import opened Collections
  import opened BtreeNode
  import opened BtreeLevels
  import opened NodeInsert
  import opened LevelChange
  import opened LevelSplit
  import opened BtreeBackend
  import opened TreeInsert
  import BtreeFind

  // ---------------------------------------------------------------- what an insert should do

  /** The entry sequence after an insert: the new entry added, or the record of the existing key
      replaced, or nothing changed and the duplicate reported. */
  ghost predicate InsertEffect(C: seq<Entry>, C': seq<Entry>, key: Key, ptr: nat, write: bool, st: Status) {
    if !Present(C, key) then !st.DuplicateKey? && exists o :: 0 <= o <= |C| && C' == InsertAt(C, o, Entry(key, ptr))
    else if write then st.Success? && exists o :: 0 <= o < |C| && C[o].key == key && C' == C[o := Entry(key, ptr)]
    else st.DuplicateKey? && C' == C
  }

  // ---------------------------------------------------------------- a split on its way up

  /** Page `j` of level `i` was split: levels up to `i` are well formed and level `i` has the new
      page `b`, which the untouched level above does not know yet. */
  ghost predicate SplitUp(p0: Store, s0: Shape, p: Store, s: Shape, cap: nat, i: nat, j: nat, pivot: Key, b: Addr) {
    && 1 <= i < |s0.levels| == |s.levels| && j < |s0.levels[i]|
    && !s.lone && b != 0
    && Low(p, s, cap, 0, i)
    && s.levels[i] == InsertAt(s0.levels[i], j + 1, Entry(pivot, b))
    && (forall k :: i < k < |s0.levels| ==> s.levels[k] == s0.levels[k])
    && SamePages(p0, s0.rank, p, s.rank, i + 1, |s0.levels| - 1)
    && (j > 0 ==> s0.levels[i][j].key < pivot) && (j + 1 < |s0.levels[i]| ==> pivot < s0.levels[i][j + 1].key)
  }

  /** The state of an internal page whose child at `slot` was split. */
  ghost predicate AtParent(p: Store, s: Shape, cap: nat, i: nat, j: nat, slot: int, key: Key, rid: Addr) {
    && 2 <= i < |s.levels| && Low(p, s, cap, 0, i - 1) && Good(p, s, cap, 0, i, |s.levels| - 1) && !s.lone
    && j < |s.levels[i]|
    && var n := p[s.levels[i][j].ptr];
    && -1 <= slot < n.count && SortedSlots(n) && PutSlot(n, key, slot + 1) && !HasKey(n, key) &&
      Within(s.levels[i], j, n)
    && (forall y :: 0 <= y < n.count ==> n.slots[y].ptr != 0)
    && var o := Off(p, s.levels[i], j) + (slot + 1) + 1;
    && o <= |All(p, s.levels[i])| && s.levels[i - 1] == InsertAt(All(p, s.levels[i]), o, Entry(key, rid))
  }

  ghost predicate IsRoot(s: Shape, root: Addr) {
    |s.levels| >= 2 && |s.levels[s.Top()]| == 1 && s.levels[s.Top()][0].ptr == root && (s.lone <==> |s.levels| == 2)
  }

  /** The tree `p0` with page `j` of level `i` now facing the split of its child at `slot`. */
  ghost predicate Facing(p0: Store, root: Addr, s0: Shape, p: Store, s: Shape, cap: nat, i: nat, j: nat, slot: int,
                         key: Key, rid: Addr)
  {
    && TreeOk(p0, root, s0, cap, 0) && 2 <= i < |s0.levels| && j < |s0.levels[i]|
    && s0.levels[i][j].ptr in p0 && -1 <= slot < p0[s0.levels[i][j].ptr].count
    && SplitUp(p0, s0, p, s, cap, i - 1, Off(p0, s0.levels[i], j) + 1 + slot, key, rid)
  }

  lemma ParentReady(p0: Store, s0: Shape, p: Store, s: Shape, cap: nat, i: nat, j: nat, slot: int, pivot: Key, b: Addr)
    requires 2 <= i < |s0.levels| && Good(p0, s0, cap, 0, 1, |s0.levels| - 1) && j < |s0.levels[i]| && !s0.lone
    requires -1 <= slot < p0[s0.levels[i][j].ptr].count
    requires SplitUp(p0, s0, p, s, cap, i - 1, Off(p0, s0.levels[i], j) + 1 + slot, pivot, b)
    ensures AtParent(p, s, cap, i, j, slot, pivot, b) && s.levels[i] == s0.levels[i] &&
      p[s.levels[i][j].ptr] == p0[s.levels[i][j].ptr]
  {
    ParentKept(p0, s0, p, s, cap, i, j, slot, pivot, b);
    ParentSlots(p0, s0, cap, i, j, slot, pivot);
  }

  /** The parent page, before it takes in the pivot of a split child. */
  lemma ParentOfSplit(p0: Store, root: Addr, s0: Shape, p: Store, s: Shape, cap: nat, i: nat, j: nat, slot: int,
                      pivot: Key, b: Addr)
    requires Facing(p0, root, s0, p, s, cap, i, j, slot, pivot, b)
    ensures AtParent(p, s, cap, i, j, slot, pivot, b) && IsRoot(s, root)
    ensures s.levels[i] == s0.levels[i] && p[s.levels[i][j].ptr] == p0[s.levels[i][j].ptr]
  {
    hide Flat, LevelOk;
    assert IsRoot(s, root) by { assert s.levels[s0.Top()] == s0.levels[s0.Top()]; }
    ParentReady(p0, s0, p, s, cap, i, j, slot, pivot, b);
  }

  lemma ParentKept(p0: Store, s0: Shape, p: Store, s: Shape, cap: nat, i: nat, j: nat, slot: int, pivot: Key, b: Addr)
    requires 2 <= i < |s0.levels| && Good(p0, s0, cap, 0, 1, |s0.levels| - 1) && j < |s0.levels[i]| && !s0.lone
    requires -1 <= slot < p0[s0.levels[i][j].ptr].count
    requires SplitUp(p0, s0, p, s, cap, i - 1, Off(p0, s0.levels[i], j) + 1 + slot, pivot, b)
    ensures Good(p, s, cap, 0, i, |s.levels| - 1) && j < |s.levels[i]| && s.levels[i] == s0.levels[i]
    ensures p[s.levels[i][j].ptr] == p0[s.levels[i][j].ptr]
    ensures var o := Off(p, s.levels[i], j) + (slot + 1) + 1;
      o <= |All(p, s.levels[i])| && s.levels[i - 1] == InsertAt(All(p, s.levels[i]), o, Entry(pivot, b))
  {
    assert Good(p0, s0, cap, 0, i, |s0.levels| - 1) && Linked(p0, s0.levels, i);
    assert SameLevels(s0, s, i, |s0.levels| - 1);
    KeepRange(p0, s0, p, s, cap, 0, i, |s0.levels| - 1);
    KeepOff(p0, s0, p, s, cap, i, j);
    assert SamePage(p0, s0.rank, p, s.rank, s0.levels[i][j].ptr);
  }

  lemma KeepOff(p0: Store, s0: Shape, p: Store, s: Shape, cap: nat, i: nat, j: nat)
    requires i >= 1 && Good(p0, s0, cap, 0, i, i) && SamePages(p0, s0.rank, p, s.rank, i, i) && j < |s0.levels[i]|
    ensures Off(p, s0.levels[i], j) == Off(p0, s0.levels[i], j)
  {
    forall x | 0 <= x < |s0.levels[i]| ensures SamePage(p0, s0.rank, p, s.rank, s0.levels[i][x].ptr) {}
    FlatKeep(p0, p, s0.levels[i], 0, j);
  }

  /** The pivot of a split child fits right behind the child. */
  lemma ParentSlots(p: Store, s: Shape, cap: nat, i: nat, j: nat, slot: int, pivot: Key)
    requires i >= 2 && Good(p, s, cap, 0, i - 1, i) && j < |s.levels[i]| && -1 <= slot < p[s.levels[i][j].ptr].count
    requires var M := s.levels[i - 1]; var x := Off(p, s.levels[i], j) + 1 + slot;
      x < |M| && (x > 0 ==> M[x].key < pivot) && (x + 1 < |M| ==> pivot < M[x + 1].key)
    ensures var n := p[s.levels[i][j].ptr];
      SortedSlots(n) && PutSlot(n, pivot, slot + 1) && !HasKey(n, pivot) && Within(s.levels[i], j, n)
    ensures var n := p[s.levels[i][j].ptr]; forall y :: 0 <= y < n.count ==> n.slots[y].ptr != 0
  {
    hide Flat;
    var n := p[s.levels[i][j].ptr];
    PageKeys(p, s, cap, 0, i, j);
    FirstKid(p, s, cap, 0, i, j);
    NextOff(p, s, cap, 0, i, j);
    if slot >= 0 { SlotKid(p, s, cap, 0, i, j, slot); }
    if slot + 1 < n.count { SlotKid(p, s, cap, 0, i, j, slot + 1); }
    forall y | 0 <= y < n.count ensures n.slots[y].ptr != 0 { SlotKid(p, s, cap, 0, i, j, y); }
  }

  // ---------------------------------------------------------------- one page

  /** Pivot at the end: sequential access, or the key goes behind the last page of its level. */
  predicate PivotAtEnd(n: Node, key: Key, sequential: bool)
    requires 0 < n.count <= |n.slots|
  {
    sequential || (n.right == 0 && Compare(key, n.slots[n.count - 1].key) > 0)
  }

  /** The tree after __insert_nosplit on the leaf that covers the key. */
  lemma LeafInserted(p: Store, root: Addr, s: Shape, cap: nat, j: nat, key: Key, ptr: nat, write: bool, r: Node,
                     st: Status, slot: int)
    returns (t: Shape)
    requires TreeOk(p, root, s, cap, 0) && InRange(s.levels[1], j, key)
    requires NosplitOk(p[s.levels[1][j].ptr], key, ptr, write, r, st, slot)
    ensures TreeOk(p[s.levels[1][j].ptr := r], root, t, cap, 0) && |t.levels| == |s.levels|
    ensures InsertEffect(s.levels[0], t.levels[0], key, ptr, write, st)
  {
    hide Flat;
    var n := p[s.levels[1][j].ptr];
    var q, o := p[s.levels[1][j].ptr := r], Off(p, s.levels[1], j) + slot;
    PresentInLeaf(p, s, cap, j, key);
    if !HasKey(n, key) {
      LeafPut(p, q, s, cap, s.Top(), j, Entry(key, ptr), slot, o);
      t := WithLevel(s, 0, InsertAt(s.levels[0], o, Entry(key, ptr)));
    } else if write {
      LeafWrite(p, q, s, cap, s.Top(), j, ptr, slot, o);
      t := WithLevel(s, 0, s.levels[0][o := Entry(key, ptr)]);
    } else {
      assert q == p;
      t := s;
    }
  }

  /** __insert_in_page on a leaf with room, or holding the key. */
  method PutInLeaf(be: Btree, page: Addr, key: Key, ptr: nat, write: bool, ghost j: nat) returns (st: Status)
    requires be.Valid() && InRange(be.shape.levels[1], j, key) && be.shape.levels[1][j].ptr == page
    requires be.pages[page].count < be.maxkeys || HasKey(be.pages[page], key)
    modifies be`pages, be`shape
    ensures be.Valid() && |be.shape.levels| == |old(be.shape).levels| && !st.Split?
    ensures InsertEffect(old(be.Contents()), be.Contents(), key, ptr, write, st)
  {
    var node := be.pages[page];
    LeafKeys(be.pages, be.shape, be.maxkeys, 0, j);
    var r, slot;
    r, st, slot := InsertNosplit(node, key, ptr, write, Search);
    ghost var t := LeafInserted(be.pages, be.root, be.shape, be.maxkeys, j, key, ptr, write, r, st, slot);
    be.pages := be.pages[page := r];
    be.shape := t;
  }

  /** The page work of __insert_split: a new page, the two halves, and the sibling links. */
  method SplitPage(be: Btree, page: Addr, key: Key, ptr: nat, sequential: bool, ghost lo: Key)
    returns (pivot: Key, b: Addr, ghost r: Node, ghost nb: Node, ghost x: nat)
    requires page in be.pages && (be.pages[page].right == 0 || be.pages[page].right in be.pages) &&
      be.pages[page].right != page
    requires CapOk(be.maxkeys) && be.pages[page].count == |be.pages[page].slots| == be.maxkeys
    requires SortedSlots(be.pages[page]) && !HasKey(be.pages[page], key)
    requires !be.pages[page].IsLeaf() ==> forall y :: 0 <= y < be.pages[page].count ==> be.pages[page].slots[y].ptr != 0
    modifies be`pages
    ensures b != 0 && b !in old(be.pages) && be.pages == SplitStore(old(be.pages), page, b, r, nb)
    ensures SplitOk(old(be.pages)[page], lo, key, ptr, Halves(r, nb, pivot, x))
    ensures var n := old(be.pages)[page];
      var atEnd := sequential || (n.right == 0 && n.slots[n.count - 1].key < key);
      var at := if atEnd then n.count - 2 else n.count / 2;
      pivot == n.slots[at].key && r.count == if key < pivot then at + 1 else at
  {
    hide SplitOk, SortedSlots;
    var node := be.pages[page];
    var blank, node', new';
    b, blank := AllocPage(be);
    node', new', pivot, x := SplitNode(node, blank, key, ptr, PivotAtEnd(node, key, sequential), lo);
    r, nb := node', new';
    new' := new'.(left := page, right := node'.right);
    node' := node'.(right := b);
    be.pages := be.pages[page := node'][b := new'];
    if node.right != 0 {
      be.pages := be.pages[node.right := be.pages[node.right].(left := b)];
    }
  }

  lemma LeafSplitUp(p: Store, root: Addr, q: Store, s: Shape, cap: nat, j: nat, b: Addr, key: Key, ptr: nat,
                    write: bool, cut: Halves) returns (t: Shape)
    requires TreeOk(p, root, s, cap, 0) && InRange(s.levels[1], j, key) && b != 0 && b !in p
    requires SplitOk(p[s.levels[1][j].ptr], s.levels[1][j].key, key, ptr, cut)
    requires Chained(p, s.levels[1], j) && q == SplitStore(p, s.levels[1][j].ptr, b, cut.r, cut.nb) &&
      !HasKey(p[s.levels[1][j].ptr], key)
    ensures SplitUp(p, s, q, t, cap, 1, j, cut.pivot, b)
    ensures InsertEffect(s.levels[0], t.levels[0], key, ptr, write, Split)
  {
    var L := s.levels[1];
    var n := p[L[j].ptr];
    assert InBounds(p, L, j);
    assert Kids(p, L[j])[0] == n.slots[0] && Kids(p, L[j])[n.count - 1] == n.slots[n.count - 1];
    assert CanSplit(p, L, 1, s.lone, s.rank, cap, j, b, key, ptr, cut);
    EntryPlace(p, s, cap, j, key, cut.x);
    PresentInLeaf(p, s, cap, j, key);
    var o := Off(p, L, j) + cut.x;
    t := AfterSplit(WithLevel(s, 0, InsertAt(s.levels[0], o, Entry(key, ptr))), 1, j, cut.pivot, b);
    LeafSplit(p, q, s, t, cap, j, b, key, ptr, cut, o);
    SplitKeeps(p, q, s, t, cap, 1, j, b, key, ptr, cut);
  }

  /** __insert_in_page on the leaf that covers the key. */
  method InsertInLeaf(be: Btree, page: Addr, key: Key, ptr: nat, write: bool, sequential: bool, ghost j: nat)
    returns (st: Status, pivot: Key, b: Addr)
    requires be.Valid() && InRange(be.shape.levels[1], j, key) && be.shape.levels[1][j].ptr == page
    modifies be`pages, be`shape
    ensures !st.Split? ==> be.Valid() && |be.shape.levels| == |old(be.shape).levels|
    ensures st.Split? ==> SplitUp(old(be.pages), old(be.shape), be.pages, be.shape, be.maxkeys, 1, j, pivot, b)
    ensures st.Split? ==> old(be.pages[page].count) == be.maxkeys
    ensures InsertEffect(old(be.Contents()), be.shape.levels[0], key, ptr, write, st)
  {
    hide Flat, SplitUp, SplitOk, InsertEffect, SplitStore;
    pivot, b := 0.0, 0;
    var node := be.pages[page];
    LeafKeys(be.pages, be.shape, be.maxkeys, 0, j);
    var idx := -1;
    if node.count >= be.maxkeys {
      var sign;
      idx, sign := BtreeFind.SearchByKey(node, key, false, false);
    }
    if node.count < be.maxkeys || idx >= 0 {
      st := PutInLeaf(be, page, key, ptr, write, j);
      return;
    }
    Siblings(be.pages, be.shape.levels[1], 1, be.shape.lone, be.shape.rank, be.maxkeys, 0, j);
    ghost var p, s := be.pages, be.shape;
    ghost var r, nb, x;
    pivot, b, r, nb, x := SplitPage(be, page, key, ptr, sequential, s.levels[1][j].key);
    ghost var t := LeafSplitUp(p, be.root, be.pages, s, be.maxkeys, j, b, key, ptr, write, Halves(r, nb, pivot, x));
    be.shape := t;
    st := Split;
  }

  /** A split that went up two levels. */
  lemma SplitUpAgain(p0: Store, s0: Shape, p1: Store, s1: Shape, p2: Store, s2: Shape, cap: nat, i: nat, x: nat,
                     j: nat, k1: Key, b1: Addr, k2: Key, b2: Addr)
    requires i >= 2 && SplitUp(p0, s0, p1, s1, cap, i - 1, x, k1, b1) && SplitUp(p1, s1, p2, s2, cap, i, j, k2, b2)
    ensures SplitUp(p0, s0, p2, s2, cap, i, j, k2, b2)
  {
    assert s1.levels[i] == s0.levels[i];
    forall a | a in p0 && a in s0.rank && i + 1 <= s0.rank[a] <= |s0.levels| - 1
      ensures SamePage(p0, s0.rank, p2, s2.rank, a) {
      assert SamePage(p0, s0.rank, p1, s1.rank, a);
      assert SamePage(p1, s1.rank, p2, s2.rank, a);
    }
  }

  /** The parent page is ready for the pivot. */
  lemma ParentNode(p0: Store, root: Addr, s0: Shape, p: Store, s: Shape, cap: nat, i: nat, j: nat, slot: int, key: Key,
                   rid: Addr)
    requires Facing(p0, root, s0, p, s, cap, i, j, slot, key, rid)
    ensures s0.levels[i][j].ptr in p
    ensures var n := p[s0.levels[i][j].ptr];
      && Fits(n, cap) && n.count > 0 && !n.IsLeaf() && SortedSlots(n) && !HasKey(n, key)
      && (forall y :: 0 <= y < n.count ==> n.slots[y].ptr != 0)
      && (n.right == 0 || n.right in p) && n.right != s0.levels[i][j].ptr && n == p0[s0.levels[i][j].ptr]
  {
    ParentOfSplit(p0, root, s0, p, s, cap, i, j, slot, key, rid);
    Siblings(p, s.levels[i], i, s.lone, s.rank, cap, 0, j);
  }

  lemma ParentInserted(p: Store, root: Addr, s: Shape, cap: nat, i: nat, j: nat, slot: int, key: Key, rid: Addr,
                       r: Node, st: Status, x: int)
    requires AtParent(p, s, cap, i, j, slot, key, rid) && IsRoot(s, root) && p[s.levels[i][j].ptr].count < cap
    requires NosplitOk(p[s.levels[i][j].ptr], key, rid, true, r, st, x)
    ensures st.Success? && TreeOk(p[s.levels[i][j].ptr := r], root, s, cap, 0)
  {
    assert x == slot + 1;
    InnerPut(p, s, cap, i, s.Top(), j, slot + 1, Entry(key, rid));
  }

  lemma InnerInserted(p0: Store, root: Addr, s0: Shape, p: Store, s: Shape, cap: nat, i: nat, j: nat, slot: int,
                      key: Key, rid: Addr, r: Node, st: Status, x: int)
    requires Facing(p0, root, s0, p, s, cap, i, j, slot, key, rid)
    requires s0.levels[i][j].ptr in p && p[s0.levels[i][j].ptr].count < cap &&
      NosplitOk(p[s0.levels[i][j].ptr], key, rid, true, r, st, x)
    ensures st.Success? && TreeOk(p[s0.levels[i][j].ptr := r], root, s, cap, 0)
  {
    ParentOfSplit(p0, root, s0, p, s, cap, i, j, slot, key, rid);
    ParentInserted(p, root, s, cap, i, j, slot, key, rid, r, st, x);
  }

  lemma ParentCanSplit(p: Store, s: Shape, cap: nat, i: nat, j: nat, slot: int, b: Addr, key: Key, rid: Addr,
                       cut: Halves)
    requires AtParent(p, s, cap, i, j, slot, key, rid) && b != 0 && b !in p
    requires SplitOk(p[s.levels[i][j].ptr], s.levels[i][j].key, key, rid, cut)
    ensures cut.x == slot + 1 && CanSplit(p, s.levels[i], i, s.lone, s.rank, cap, j, b, key, rid, cut)
    ensures (j > 0 ==> s.levels[i][j].key < cut.pivot) && (j + 1 < |s.levels[i]| ==> cut.pivot < s.levels[i][j + 1].key)
  {
    hide Flat, Low, KidsOf;
  }

  lemma ParentSplitUp(p: Store, q: Store, s: Shape, cap: nat, i: nat, j: nat, slot: int, b: Addr, key: Key, rid: Addr,
                      cut: Halves) returns (t: Shape)
    requires AtParent(p, s, cap, i, j, slot, key, rid) && b != 0 && b !in p && Chained(p, s.levels[i], j)
    requires SplitOk(p[s.levels[i][j].ptr], s.levels[i][j].key, key, rid, cut)
    requires q == SplitStore(p, s.levels[i][j].ptr, b, cut.r, cut.nb)
    ensures SplitUp(p, s, q, t, cap, i, j, cut.pivot, b) && t.levels[0] == s.levels[0]
  {
    hide Flat, SplitOk, CanSplit;
    ParentCanSplit(p, s, cap, i, j, slot, b, key, rid, cut);
    t := AfterSplit(s, i, j, cut.pivot, b);
    InnerSplit(p, q, s, t, cap, i, j, b, key, rid, cut);
    SplitKeeps(p, q, s, t, cap, i, j, b, key, rid, cut);
  }

  lemma InnerSplitUp(p0: Store, root: Addr, s0: Shape, p: Store, s: Shape, q: Store, cap: nat, i: nat, j: nat,
                     slot: int, b: Addr, key: Key, rid: Addr, cut: Halves) returns (t: Shape)
    requires Facing(p0, root, s0, p, s, cap, i, j, slot, key, rid) && b != 0 && b !in p
    requires s0.levels[i][j].ptr in p && SplitOk(p[s0.levels[i][j].ptr], s0.levels[i][j].key, key, rid, cut)
    requires var n := p[s0.levels[i][j].ptr];
      (n.right == 0 || n.right in p) && q == SplitStore(p, s0.levels[i][j].ptr, b, cut.r, cut.nb)
    ensures SplitUp(p0, s0, q, t, cap, i, j, cut.pivot, b) && t.levels[0] == s.levels[0]
  {
    hide Flat, SplitOk;
    ParentOfSplit(p0, root, s0, p, s, cap, i, j, slot, key, rid);
    Siblings(p, s.levels[i], i, s.lone, s.rank, cap, 0, j);
    t := ParentSplitUp(p, q, s, cap, i, j, slot, b, key, rid, cut);
    SplitUpAgain(p0, s0, p, s, q, t, cap, i, Off(p0, s0.levels[i], j) + 1 + slot, j, key, rid, cut.pivot, b);
  }

  /** __insert_in_page on an internal page whose child at `slot` was split. */
  method InsertInInner(be: Btree, page: Addr, key: Key, rid: Addr, sequential: bool, ghost p0: Store, ghost s0: Shape,
                       ghost i: nat, ghost j: nat, ghost slot: int)
    returns (st: Status, pivot: Key, b: Addr)
    requires CapOk(be.maxkeys) && Facing(p0, be.root, s0, be.pages, be.shape, be.maxkeys, i, j, slot, key, rid) &&
      page == s0.levels[i][j].ptr
    modifies be`pages, be`shape
    ensures st.Success? || st.Split?
    ensures st.Success? ==> be.Valid() && |be.shape.levels| == |s0.levels|
    ensures st.Split? ==> SplitUp(p0, s0, be.pages, be.shape, be.maxkeys, i, j, pivot, b)
    ensures st.Split? ==> p0[page].count == be.maxkeys
    ensures |be.shape.levels| > 0 && be.shape.levels[0] == old(be.shape).levels[0]
  {
    hide Flat, LevelOk, SplitOk, NosplitOk;
    pivot, b := 0.0, 0;
    ghost var p, s := be.pages, be.shape;
    ParentNode(p0, be.root, s0, p, s, be.maxkeys, i, j, slot, key, rid);
    var node := be.pages[page];
    if node.count < be.maxkeys {
      var r, x;
      r, st, x := InsertNosplit(node, key, rid, true, Search);
      InnerInserted(p0, be.root, s0, p, s, be.maxkeys, i, j, slot, key, rid, r, st, x);
      be.pages := be.pages[page := r];
    } else {
      ghost var r, nb, x;
      pivot, b, r, nb, x := SplitPage(be, page, key, rid, sequential, s0.levels[i][j].key);
      ghost var t := InnerSplitUp(p0, be.root, s0, p, s, be.pages, be.maxkeys, i, j, slot, b, key, rid,
          Halves(r, nb, pivot, x));
      be.shape := t;
      st := Split;
    }
  }

  lemma LevelPage(p: Store, root: Addr, s: Shape, cap: nat, i: nat, j: nat)
    requires TreeOk(p, root, s, cap, 0) && 1 <= i < |s.levels| && j < |s.levels[i]|
    ensures s.levels[i][j].ptr in p && (p[s.levels[i][j].ptr].IsLeaf() <==> i == 1)
    ensures i >= 2 ==> p[s.levels[i][j].ptr].count > 0 && Good(p, s, cap, 0, i - 1, i) && !s.lone
  {
    assert Good(p, s, cap, 0, i, i);
  }

  /** __insert_recursive */
  method InsertRecursive(be: Btree, page: Addr, key: Key, ptr: nat, write: bool, sequential: bool, ghost i: nat,
                         ghost j: nat)
    returns (st: Status, pivot: Key, b: Addr)
    requires be.Valid() && 1 <= i < |be.shape.levels| && InRange(be.shape.levels[i], j, key) &&
      be.shape.levels[i][j].ptr == page
    modifies be`pages, be`shape
    decreases i
    ensures !st.Split? ==> be.Valid() && |be.shape.levels| == |old(be.shape).levels|
    ensures st.Split? ==> SplitUp(old(be.pages), old(be.shape), be.pages, be.shape, be.maxkeys, i, j, pivot, b)
    ensures st.Split? ==> old(be.pages[page].count) == be.maxkeys
    ensures InsertEffect(old(be.Contents()), be.shape.levels[0], key, ptr, write, st)
  {
    hide Flat, LevelOk, Low, InBounds;
    LevelPage(be.pages, be.root, be.shape, be.maxkeys, i, j);
    if be.pages[page].IsLeaf() {
      st, pivot, b := InsertInLeaf(be, page, key, ptr, write, sequential, j);
      return;
    }
    ghost var p0, s0 := be.pages, be.shape;
    var child, slot := TraverseTree(be, page, key, i, j);
    st, pivot, b := InsertRecursive(be, child, key, ptr, write, sequential, i - 1, Off(p0, s0.levels[i], j) + 1 + slot);
    if st.Split? {
      st, pivot, b := InsertInInner(be, page, pivot, b, sequential, p0, s0, i, j, slot);
    }
  }

  /** The tree after the root was split and a new root put above the halves. */
  lemma NewRoot(p: Store, s: Shape, q: Store, t: Shape, cap: nat, k: Key, a: Addr, pivot: Key, b: Addr, c: Addr,
                r: Node)
    requires CapOk(cap) && |s.levels| >= 2 && Low(p, s, cap, 0, s.Top()) && !s.lone &&
      s.levels[s.Top()] == [Entry(k, a), Entry(pivot, b)]
    requires c != 0 && c !in p && a != 0 && Fits(r, cap) && r.count == 1 && r.slots[0] == Entry(pivot, b) &&
      r.ptrLeft == a && r.left == 0 == r.right
    requires q == p[c := r] && t == Shape(s.levels + [[Entry(k, c)]], s.rank[c := |s.levels|], false)
    ensures TreeOk(q, c, t, cap, 0)
  {
    var L := [Entry(k, c)];
    var s' := s.(rank := t.rank);
    KeepEntries(p, s, q, s', cap, 0, s.Top());
    assert All(q, L) == Kids(q, L[0]) by { FlatOne(q, L, 0); }
    assert Chained(q, L, 0);
    AddLevel(q, s', t, cap, L);
  }

  lemma AddLevel(p: Store, s: Shape, t: Shape, cap: nat, L: seq<Entry>)
    requires |s.levels| >= 2 && Low(p, s, cap, 0, s.Top())
    requires LevelOk(p, L, |s.levels|, s.lone, s.rank, cap, 0) && s.levels[s.Top()] == All(p, L)
    requires t == s.(levels := s.levels + [L])
    ensures Low(p, t, cap, 0, t.Top())
  {
    forall i | 1 <= i <= t.Top() ensures LevelOk(p, t.levels[i], i, t.lone, t.rank, cap, 0) {
      if i < t.Top() { assert t.levels[i] == s.levels[i]; }
    }
    forall i | 1 < i <= t.Top() ensures Linked(p, t.levels, i) {
      if i < t.Top() { assert Linked(p, s.levels, i); }
    }
  }

  /** __insert_cursor: insert from the root, and grow the tree if the root was split. */
  method InsertCursor(be: Btree, key: Key, ptr: nat, write: bool, sequential: bool) returns (st: Status)
    requires be.Valid()
    modifies be
    ensures be.Valid() && !st.Split?
    ensures InsertEffect(old(be.Contents()), be.Contents(), key, ptr, write, st)
    ensures |be.shape.levels| == |old(be.shape).levels| ||
      (|be.shape.levels| == |old(be.shape).levels| + 1 && old(be.pages[be.root].count) == be.maxkeys &&
          be.pages[be.root].ptrLeft == old(be.root))
  {
    ghost var p0, s0 := be.pages, be.shape;
    var pivot, b;
    st, pivot, b := InsertRecursive(be, be.root, key, ptr, write, sequential, be.shape.Top(), 0);
    if st.Split? {
      ghost var p, s := be.pages, be.shape;
      var newroot, node := AllocPage(be);
      node := node.(ptrLeft := be.root);
      var slot;
      node, st, slot := InsertNosplit(node, pivot, b, true, Search);
      ghost var k := s0.levels[s0.Top()][0].key;
      be.shape := Shape(s.levels + [[Entry(k, newroot)]], s.rank[newroot := |s.levels|], false);
      be.pages := be.pages[newroot := node];
      NewRoot(p, s, be.pages, be.shape, be.maxkeys, k, be.root, pivot, b, newroot, node);
      be.root := newroot;
    }
  }

  /** A key beyond either end of the tree belongs to the outermost leaf on that side, and a key
      between two keys of a leaf belongs to that leaf. */
  lemma EndCovers(p: Store, root: Addr, s: Shape, cap: nat, j: nat, key: Key, force: Force)
    requires TreeOk(p, root, s, cap, 0) && j < |s.levels[1]|
    requires var n := p[s.levels[1][j].ptr];
      && (n.count == 0 || (force.Append? && n.right == 0 && n.slots[n.count - 1].key < key)
           || (force.Prepend? && n.left == 0 && key < n.slots[0].key)
           || (force.Search? && n.slots[0].key <= key <= n.slots[n.count - 1].key))
    ensures InRange(s.levels[1], j, key)
  {
    var L := s.levels[1];
    var n := p[L[j].ptr];
    assert Chained(p, L, j) && InBounds(p, L, j);
    if n.count > 0 {
      assert Kids(p, L[j])[0] == n.slots[0] && Kids(p, L[j])[n.count - 1] == n.slots[n.count - 1];
    }
    if j + 1 < |L| { assert L[j + 1].ptr != 0; }
    if j > 0 { assert L[j - 1].ptr != 0; }
  }

  /** __append_key: put the key at the very end or start of the hinted leaf, or insert as usual.
      `hint` names any cached leaf, or is 0. */
  method AppendKey(be: Btree, key: Key, ptr: nat, write: bool, sequential: bool, append0: bool, prepend0: bool,
                   hint: Addr, ghost hj: nat)
    returns (st: Status)
    requires be.Valid()
    requires hint != 0 ==> hj < |be.shape.levels[1]| && be.shape.levels[1][hj].ptr == hint
    modifies be
    ensures be.Valid() && !st.Split?
    ensures InsertEffect(old(be.Contents()), be.Contents(), key, ptr, write, st)
  {
    hide Flat, InBounds;
    if hint == 0 {
      st := InsertCursor(be, key, ptr, write, sequential);
      return;
    }
    var node := be.pages[hint];
    var append, prepend := append0, prepend0;
    if (append && node.right != 0) || (prepend && node.left != 0) || node.count >= be.maxkeys {
      st := InsertCursor(be, key, ptr, write, sequential);
      return;
    }
    if node.count != 0 {
      var cmpHi, cmpLo := -1, 1;
      if !prepend {
        cmpHi := Compare(key, node.slots[node.count - 1].key);
        if cmpHi > 0 {
          if node.right != 0 {
            st := InsertCursor(be, key, ptr, write, sequential);
            return;
          }
          append, prepend := true, false;
        }
      }
      if !append {
        cmpLo := Compare(key, node.slots[0].key);
        if cmpLo < 0 {
          if node.left != 0 {
            st := InsertCursor(be, key, ptr, write, sequential);
            return;
          }
          append, prepend := false, true;
        }
      }
      if cmpLo >= 0 && cmpHi <= 0 && (append || prepend) {
        st := InsertCursor(be, key, ptr, write, sequential);
        return;
      }
    } else {
      append, prepend := false, true;
    }
    var force := if append then Append else if prepend then Prepend else Search;
    var r, slot;
    LeafKeys(be.pages, be.shape, be.maxkeys, 0, hj);
    EndCovers(be.pages, be.root, be.shape, be.maxkeys, hj, key, force);
    r, st, slot := InsertNosplit(node, key, ptr, write, force);
    ghost var t := LeafInserted(be.pages, be.root, be.shape, be.maxkeys, hj, key, ptr, write, r, st, slot);
    be.pages := be.pages[hint := r];
    be.shape := t;
  }
}
