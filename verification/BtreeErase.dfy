/** Erasing a key (src/btree_erase.cc). */
module BtreeErase {
  import opened Collections
  import opened BtreeNode
  import opened BtreeLevels
  import opened BtreeBackend
  import opened LevelChange
  import opened LevelMerge
  import NodeInsert
  import opened NodeErase
  import opened TreeInsert
  import opened TreeErase
  import opened TreeShift
  import opened Anchors

  datatype EraseStatus = Erased | KeyNotFound

  /** What my_erase_recursive knows about the surroundings of a page: its siblings, the pages with the
      separators towards them, and its parent. */
  datatype Around = Around(left: Addr, right: Addr, lanchor: Addr, ranchor: Addr, parent: Addr)

  // ------------------------------------------------------------------------------ neighbourhood

  ghost function AnchorAddr(p: Store, s: Shape, i: nat, j: nat): Addr {
    if i < |s.levels| && 0 < j < |s.levels[i]| then Anchor(p, s, i, j).0 else 0
  }

  ghost function ParentOf(p: Store, s: Shape, i: nat, j: nat): nat
    requires i + 1 < |s.levels| && j < Off(p, s.levels[i + 1], |s.levels[i + 1]|)
  {
    ParentIx(p, s.levels[i + 1], |s.levels[i + 1]|, j)
  }

  ghost function ParentAddr(p: Store, s: Shape, i: nat, j: nat): Addr {
    if i + 1 < |s.levels| &&
      j < Off(p, s.levels[i + 1], |s.levels[i + 1]|) then s.levels[i + 1][ParentOf(p, s, i, j)].ptr else 0
  }

  /** The page that is merged away when page `j` has to be merged: itself, or its right neighbour if
      it is the first kid of its parent. */
  ghost function Victim(p: Store, s: Shape, i: nat, j: nat): nat {
    if i + 1 < |s.levels| && j < Off(p, s.levels[i + 1], |s.levels[i + 1]|) &&
      j == Off(p, s.levels[i + 1], ParentOf(p, s, i, j)) then j + 1 else j
  }

  ghost predicate OnLevel(L: seq<Entry>, a: Addr) { exists x :: 0 <= x < |L| && L[x].ptr == a }

  /** The arguments of my_erase_recursive: siblings, anchors and parent of page `j` of level `i`.
      `right` is some page of the level, not always the right sibling. */
  ghost predicate Surround(p: Store, s: Shape, i: nat, j: nat, ar: Around) {
    && 1 <= i < |s.levels| && j < |s.levels[i]|
    && (j > 0 ==> ar.left == s.levels[i][j - 1].ptr) && (ar.left != 0 <==> j > 0)
    && (ar.right != 0 <==> j + 1 < |s.levels[i]|) && (ar.right != 0 ==> OnLevel(s.levels[i], ar.right))
    && ar.lanchor == AnchorAddr(p, s, i, j)
    && ar.ranchor == AnchorAddr(p, s, i, j + 1)
    && ar.parent == ParentAddr(p, s, i, j)
  }

  /** Anchors only depend on the levels above. */
  lemma {:induction false} AnchorFrame(p: Store, s: Shape, q: Store, t: Shape, cap: nat, hole: Addr, i: nat, j: nat)
    requires Upper(p, s, cap, hole, i) && |t.levels| == |s.levels| &&
      (forall k :: i < k < |s.levels| ==> t.levels[k] == s.levels[k])
    requires SamePages(p, s.rank, q, s.rank, i + 1, |s.levels| - 1) && j < |s.levels[i]|
    ensures Anchor(q, t, i, j) == Anchor(p, s, i, j)
    decreases |s.levels| - i
  {
    hide Flat;
    if i + 1 < |s.levels| {
      var M := s.levels[i + 1];
      assert t.levels[i + 1] == M;
      ParentFrame(p, s, q, cap, hole, i, j);
      if Off(p, M, |M|) > j {
        var m := ParentIx(p, M, |M|, j);
        if j == Off(p, M, m) { AnchorFrame(p, s, q, t, cap, hole, i + 1, m); }
      }
    }
  }

  lemma OffFrame(p: Store, s: Shape, q: Store, cap: nat, hole: Addr, i: nat, m: nat)
    requires 1 <= i < |s.levels| && Good(p, s, cap, hole, i, |s.levels| - 1) && m <= |s.levels[i]|
    requires SamePages(p, s.rank, q, s.rank, i, |s.levels| - 1)
    ensures Off(q, s.levels[i], m) == Off(p, s.levels[i], m)
  {
    hide Flat;
    var M := s.levels[i];
    forall x | 0 <= x < |M| ensures SamePage(p, s.rank, q, s.rank, M[x].ptr) {}
    FlatKeep(p, q, M, 0, m);
  }

  lemma ParentFrame(p: Store, s: Shape, q: Store, cap: nat, hole: Addr, i: nat, j: nat)
    requires Upper(p, s, cap, hole, i) && i + 1 < |s.levels| && SamePages(p, s.rank, q, s.rank, i + 1, |s.levels| - 1)
    ensures var M := s.levels[i + 1]; Off(q, M, |M|) == Off(p, M, |M|)
    ensures var M := s.levels[i + 1]; j < Off(p, M, |M|) ==>
      ParentIx(q, M, |M|, j) == ParentIx(p, M, |M|, j) &&
        Off(q, M, ParentIx(p, M, |M|, j)) == Off(p, M, ParentIx(p, M, |M|, j))
  {
    hide Flat, LevelOk;
    var M := s.levels[i + 1];
    OffFrame(p, s, q, cap, hole, i + 1, |M|);
    if j < Off(p, M, |M|) {
      var m := ParentIx(p, M, |M|, j);
      OffFrame(p, s, q, cap, hole, i + 1, m);
      OffFrame(p, s, q, cap, hole, i + 1, m + 1);
      ParentIs(q, M, j, m);
    }
  }

  /** What is known about a page stays true while pages below it change. */
  lemma SurroundFrame(p: Store, s: Shape, q: Store, t: Shape, cap: nat, hole: Addr, i: nat, j: nat, ar: Around)
    requires Surround(p, s, i, j, ar)
    requires Upper(p, s, cap, hole, i) && |t.levels| == |s.levels| &&
      (forall k :: i <= k < |s.levels| ==> t.levels[k] == s.levels[k])
    requires SamePages(p, s.rank, q, s.rank, i + 1, |s.levels| - 1)
    ensures Surround(q, t, i, j, ar) && Victim(q, t, i, j) == Victim(p, s, i, j)
  {
    hide Flat, LevelOk, SamePages, Good, Upper, Anchor, ParentIx, OnLevel;
    AnchorFrame(p, s, q, t, cap, hole, i, j);
    if j + 1 < |s.levels[i]| { AnchorFrame(p, s, q, t, cap, hole, i, j + 1); }
    if i + 1 < |s.levels| { ParentFrame(p, s, q, cap, hole, i, j); }
  }

  /** The anchor of kid number `c` of page `j`: the page itself, unless `c` is its first kid. */
  lemma KidAnchor(p: Store, s: Shape, cap: nat, hole: Addr, i: nat, j: nat, c: nat)
    requires i >= 2 && Good(p, s, cap, hole, i - 1, i) && j < |s.levels[i]|
    requires Off(p, s.levels[i], j) <= c < Off(p, s.levels[i], j + 1)
    ensures c < |s.levels[i - 1]| && ParentAddr(p, s, i - 1, c) == s.levels[i][j].ptr
    ensures c > Off(p, s.levels[i], j) ==> AnchorAddr(p, s, i - 1, c) == s.levels[i][j].ptr
    ensures c == Off(p, s.levels[i], j) ==> AnchorAddr(p, s, i - 1, c) == AnchorAddr(p, s, i, j)
    ensures Victim(p, s, i - 1, c) == if c == Off(p, s.levels[i], j) then c + 1 else c
  {
    hide Flat, LevelOk;
    var L := s.levels[i];
    LevelBelow(p, s, cap, hole, i, j);
    ParentIs(p, L, c, j);
    FirstKid(p, s, cap, hole, i, j);
    if j == 0 { OffFirst(p, L); }
  }

  lemma OffFirst(p: Store, L: seq<Entry>)
    ensures Off(p, L, 0) == 0
  {
  }

  lemma LevelBelow(p: Store, s: Shape, cap: nat, hole: Addr, i: nat, j: nat)
    requires i >= 2 && Good(p, s, cap, hole, i - 1, i) && j < |s.levels[i]|
    ensures Off(p, s.levels[i], j) <= Off(p, s.levels[i], j + 1) <= Off(p, s.levels[i], |s.levels[i]|) ==
      |s.levels[i - 1]|
  {
    hide Flat;
    assert Linked(p, s.levels, i);
    OffMono(p, s.levels[i], j, j + 1);
    OffMono(p, s.levels[i], j + 1, |s.levels[i]|);
    FlatAt(p, s.levels[i], j);
  }

  function NextLeft(p: Store, n: Node, slot: int, left: Addr): Addr
    requires -1 <= slot < n.count <= |n.slots|
    requires left != 0 ==> left in p && 0 < p[left].count <= |p[left].slots|
  {
    if slot == -1 then (if left == 0 then 0 else p[left].slots[p[left].count - 1].ptr)
    else if slot == 0 then n.ptrLeft else n.slots[slot - 1].ptr
  }

  function NextRight(p: Store, n: Node, slot: int, right: Addr): Addr
    requires -1 <= slot < n.count <= |n.slots|
    requires right != 0 ==> right in p && 0 < |p[right].slots|
  {
    if slot == n.count - 1 then (if right == 0 then 0 else p[right].slots[0].ptr) else n.slots[slot + 1].ptr
  }

  lemma NeighbourPages(p: Store, root: Addr, s: Shape, cap: nat, i: nat, j: nat, ar: Around)
    requires TreeOk(p, root, s, cap, 0) && 2 <= i && Surround(p, s, i, j, ar)
    ensures ar.left != 0 ==> ar.left in p && 0 < p[ar.left].count <= |p[ar.left].slots|
    ensures ar.right != 0 ==> ar.right in p && 0 < p[ar.right].count <= |p[ar.right].slots|
  {
    hide Flat;
    var L := s.levels[i];
    assert LevelOk(p, L, i, s.lone, s.rank, cap, 0);
  }

  lemma NextLeftIs(p: Store, s: Shape, cap: nat, i: nat, j: nat, slot: int, left: Addr)
    requires i >= 2 && Good(p, s, cap, 0, i - 1, i) && j < |s.levels[i]| && (left != 0 <==> j > 0) &&
      (j > 0 ==> left == s.levels[i][j - 1].ptr)
    requires left != 0 ==> left in p && 0 < p[left].count <= |p[left].slots|
    requires s.levels[i][j].ptr in p && -1 <= slot < p[s.levels[i][j].ptr].count <= |p[s.levels[i][j].ptr].slots|
    ensures var c := Off(p, s.levels[i], j) + 1 + slot; var nl := NextLeft(p, p[s.levels[i][j].ptr], slot, left);
      && c < |s.levels[i - 1]| && (nl != 0 <==> c > 0) && (c > 0 ==> nl == s.levels[i - 1][c - 1].ptr)
  {
    hide Flat;
    var L, M := s.levels[i], s.levels[i - 1];
    var c := Off(p, L, j) + 1 + slot;
    NextOff(p, s, cap, 0, i, j);
    FirstKid(p, s, cap, 0, i, j);
    LevelBelow(p, s, cap, 0, i, j);
    if slot == -1 {
      if j > 0 {
        NextOff(p, s, cap, 0, i, j - 1);
        SlotKid(p, s, cap, 0, i, j - 1, p[left].count - 1);
      } else {
        OffFirst(p, L);
      }
    } else if slot > 0 {
      SlotKid(p, s, cap, 0, i, j, slot - 1);
    }
    assert c > 0 ==> M[c - 1].ptr != 0;
  }

  lemma NextRightIs(p: Store, s: Shape, cap: nat, i: nat, j: nat, slot: int, right: Addr)
    requires i >= 2 && Good(p, s, cap, 0, i - 1, i) && j < |s.levels[i]| && (right != 0 <==> j + 1 < |s.levels[i]|)
    requires (right != 0 ==> OnLevel(s.levels[i], right) && right in p && 0 < p[right].count <= |p[right].slots|)
    requires s.levels[i][j].ptr in p && -1 <= slot < p[s.levels[i][j].ptr].count <= |p[s.levels[i][j].ptr].slots|
    ensures var c := Off(p, s.levels[i], j) + 1 + slot; var nr := NextRight(p, p[s.levels[i][j].ptr], slot, right);
      (nr != 0 <==> c + 1 < |s.levels[i - 1]|) && (nr != 0 ==> OnLevel(s.levels[i - 1], nr))
  {
    hide Flat;
    var L, M := s.levels[i], s.levels[i - 1];
    var c := Off(p, L, j) + 1 + slot;
    NextOff(p, s, cap, 0, i, j);
    if slot == p[L[j].ptr].count - 1 {
      if right != 0 {
        var y :| 0 <= y < |L| && L[y].ptr == right;
        SlotKid(p, s, cap, 0, i, y, 0);
        assert M[Off(p, L, y) + 1].ptr != 0;
      }
    } else {
      SlotKid(p, s, cap, 0, i, j, slot + 1);
      assert M[c + 1].ptr != 0;
    }
  }

  /** The arguments of the recursive call describe the child. */
  lemma SurroundDown(p: Store, root: Addr, s: Shape, cap: nat, i: nat, j: nat, slot: int, ar: Around)
    requires TreeOk(p, root, s, cap, 0) && 2 <= i && Surround(p, s, i, j, ar)
    requires s.levels[i][j].ptr in p && -1 <= slot < p[s.levels[i][j].ptr].count <= |p[s.levels[i][j].ptr].slots|
    requires ar.left != 0 ==> ar.left in p && 0 < p[ar.left].count <= |p[ar.left].slots|
    requires ar.right != 0 ==> ar.right in p && 0 < p[ar.right].count <= |p[ar.right].slots|
    ensures var n := p[s.levels[i][j].ptr]; var page := s.levels[i][j].ptr;
      Surround(p, s, i - 1, Off(p, s.levels[i], j) + 1 + slot,
               Around(NextLeft(p, n, slot, ar.left), NextRight(p, n, slot, ar.right),
                      if slot == -1 then ar.lanchor else page, if slot == n.count - 1 then ar.ranchor else page, page))
  {
    hide Flat, LevelOk, Low, NextLeft, NextRight;
    var L := s.levels[i];
    TreeGood(p, root, s, cap, i);
    NextLeftIs(p, s, cap, i, j, slot, ar.left);
    NextRightIs(p, s, cap, i, j, slot, ar.right);
    SurroundAnchors(p, s, cap, i, j, slot);
  }

  lemma TreeGood(p: Store, root: Addr, s: Shape, cap: nat, i: nat)
    requires TreeOk(p, root, s, cap, 0) && 2 <= i < |s.levels|
    ensures Good(p, s, cap, 0, i - 1, i)
  {
    hide Flat;
  }

  lemma SurroundAnchors(p: Store, s: Shape, cap: nat, i: nat, j: nat, slot: int)
    requires i >= 2 && Good(p, s, cap, 0, i - 1, i) && j < |s.levels[i]|
    requires s.levels[i][j].ptr in p && -1 <= slot < p[s.levels[i][j].ptr].count
    ensures var c := Off(p, s.levels[i], j) + 1 + slot; var page := s.levels[i][j].ptr;
      && ParentAddr(p, s, i - 1, c) == page
      && AnchorAddr(p, s, i - 1, c) == (if slot == -1 then AnchorAddr(p, s, i, j) else page)
      && AnchorAddr(p, s, i - 1, c + 1) == (if slot == p[page].count - 1 then AnchorAddr(p, s, i, j + 1) else page)
  {
    hide Flat, LevelOk, AnchorAddr;
    var L := s.levels[i];
    var c := Off(p, L, j) + 1 + slot;
    NextOff(p, s, cap, 0, i, j);
    KidAnchor(p, s, cap, 0, i, j, c);
    if slot < p[L[j].ptr].count - 1 {
      KidAnchor(p, s, cap, 0, i, j, c + 1);
    } else if j + 1 < |L| {
      NextOff(p, s, cap, 0, i, j + 1);
      KidAnchor(p, s, cap, 0, i, j + 1, c + 1);
    } else {
      LastAnchor(p, s, i, j, c);
    }
  }

  lemma LastAnchor(p: Store, s: Shape, i: nat, j: nat, c: nat)
    requires 2 <= i < |s.levels| && j + 1 == |s.levels[i]| && c + 1 == |s.levels[i - 1]|
    ensures AnchorAddr(p, s, i - 1, c + 1) == 0 == AnchorAddr(p, s, i, j + 1)
  {
  }

  // ------------------------------------------------------------------------------ two neighbours

  lemma PageBounds(p: Store, root: Addr, s: Shape, cap: nat, hole: Addr, i: nat, j: nat)
    requires TreeOk(p, root, s, cap, hole) && 1 <= i < |s.levels| && j < |s.levels[i]|
    ensures s.levels[i][j].ptr in p && SortedSlots(p[s.levels[i][j].ptr]) &&
      Within(s.levels[i], j, p[s.levels[i][j].ptr])
  {
    hide Flat;
    var L := s.levels[i];
    var n := p[L[j].ptr];
    if i == 1 {
      LeafKeys(p, s, cap, hole, j);
      assert InBounds(p, L, j);
      forall x | 0 <= x < n.count
        ensures j > 0 ==> L[j].key <= n.slots[x].key
        ensures j + 1 < |L| ==> n.slots[x].key < L[j + 1].key
      {
        assert Kids(p, L[j])[x] == n.slots[x];
      }
    } else {
      PageKeys(p, s, cap, hole, i, j);
    }
  }

  ghost predicate PairNodes(n: Node, sib: Node, anc: Node, x: nat, cap: nat) {
    && cap >= 4 && Fits(n, cap) && Fits(sib, cap)
    && AnchorFits(anc, x, n, sib)
    && (!n.IsLeaf() ==> forall y :: 0 <= y < n.count ==> n.slots[y].ptr != 0)
    && (!n.IsLeaf() ==> forall y :: 0 <= y < sib.count ==> sib.slots[y].ptr != 0)
  }

  /** Two neighbouring pages, and the anchor `(a, x)` of the right one. */
  ghost predicate Pair(p: Store, s: Shape, cap: nat, i: nat, j: nat, a: Addr, x: nat) {
    && 1 <= i < |s.levels| - 1 && j + 1 < |s.levels[i]|
    && a in p && s.levels[i][j].ptr in p && s.levels[i][j + 1].ptr in p
    && a != s.levels[i][j].ptr && a != s.levels[i][j + 1].ptr && s.levels[i][j].ptr != s.levels[i][j + 1].ptr
    && PairNodes(p[s.levels[i][j].ptr], p[s.levels[i][j + 1].ptr], p[a], x, cap)
    && (p[s.levels[i][j].ptr].IsLeaf() <==> i == 1)
    && p[a].slots[x].key == s.levels[i][j + 1].key
    && (InRange(s.levels[i], j + 1, p[s.levels[i][j + 1].ptr].slots[0].key) ==>
        IsSlot(p[a], p[s.levels[i][j + 1].ptr].slots[0].key, x))
  }

  lemma KidPtrs(p: Store, root: Addr, s: Shape, cap: nat, hole: Addr, i: nat, j: nat)
    requires TreeOk(p, root, s, cap, hole) && 2 <= i < |s.levels| && j < |s.levels[i]|
    ensures s.levels[i][j].ptr in p && forall y :: 0 <= y < p[s.levels[i][j].ptr].count ==>
      p[s.levels[i][j].ptr].slots[y].ptr != 0
  {
    hide Flat;
    var n := p[s.levels[i][j].ptr];
    forall y | 0 <= y < n.count ensures n.slots[y].ptr != 0 { SlotKid(p, s, cap, hole, i, j, y); }
  }

  lemma PagesOf(p: Store, root: Addr, s: Shape, cap: nat, hole: Addr, i: nat, j: nat)
    requires TreeOk(p, root, s, cap, hole) && 1 <= i < |s.levels| && j < |s.levels[i]|
    ensures var a := s.levels[i][j].ptr;
      a != 0 && a in p && Fits(p[a], cap) && (p[a].IsLeaf() <==> i == 1) && a in s.rank && s.rank[a] == i
    ensures var a := s.levels[i][j].ptr; p[a].count >= 1 || a == hole || s.lone
    ensures Upper(p, s, cap, hole, i)
  {
    hide Flat;
  }

  lemma PairFits(p: Store, s: Shape, i: nat, j: nat, a: Addr, x: nat)
    requires AnchorOk(p, s, i, j + 1, a, x) && p[a].count <= 0xFFFF && s.levels[i][j].ptr in p &&
      s.levels[i][j + 1].ptr in p
    requires Within(s.levels[i], j, p[s.levels[i][j].ptr]) && SortedSlots(p[s.levels[i][j].ptr])
    requires Within(s.levels[i], j + 1, p[s.levels[i][j + 1].ptr]) && SortedSlots(p[s.levels[i][j + 1].ptr])
    requires p[s.levels[i][j].ptr].IsLeaf() == p[s.levels[i][j + 1].ptr].IsLeaf()
    ensures AnchorFits(p[a], x, p[s.levels[i][j].ptr], p[s.levels[i][j + 1].ptr])
  {
  }

  lemma AnchorSize(p: Store, s: Shape, cap: nat, hole: Addr, i: nat, j: nat)
    requires Upper(p, s, cap, hole, i) && 0 < j < |s.levels[i]|
    ensures Anchor(p, s, i, j).0 in p && Fits(p[Anchor(p, s, i, j).0], cap)
    decreases |s.levels| - i
  {
    hide Flat;
    UpperParent(p, s, cap, hole, i, j);
    var M := s.levels[i + 1];
    var m := ParentIx(p, M, |M|, j);
    assert LevelOk(p, M, i + 1, s.lone, s.rank, cap, hole);
    if j == Off(p, M, m) {
      OffZero(p, M, m);
      AnchorSize(p, s, cap, hole, i + 1, m);
    }
  }

  lemma PairFacts(p: Store, root: Addr, s: Shape, cap: nat, hole: Addr, i: nat, j: nat, a: Addr, x: nat)
    requires TreeOk(p, root, s, cap, hole) && CapOk(cap) && 1 <= i < |s.levels| && j + 1 < |s.levels[i]| &&
      (a, x) == Anchor(p, s, i, j + 1)
    ensures Pair(p, s, cap, i, j, a, x)
  {
    hide Flat, TreeOk, LevelOk, Upper, SortedSlots, AnchorFits, Anchor, IsSlot;
    PagesOf(p, root, s, cap, hole, i, j);
    PagesOf(p, root, s, cap, hole, i, j + 1);
    PageBounds(p, root, s, cap, hole, i, j);
    PageBounds(p, root, s, cap, hole, i, j + 1);
    UpperParent(p, s, cap, hole, i, j + 1);
    AnchorFacts(p, s, cap, hole, i, j + 1);
    AnchorSize(p, s, cap, hole, i, j + 1);
    PairFits(p, s, i, j, a, x);
    NeighboursDiffer(p, root, s, cap, hole, i, j);
    AnchorSlots(p, s, i, j + 1, a, x, p[s.levels[i][j + 1].ptr].slots[0].key);
    if i > 1 {
      KidPtrs(p, root, s, cap, hole, i, j);
      KidPtrs(p, root, s, cap, hole, i, j + 1);
    }
  }

  lemma NeighboursDiffer(p: Store, root: Addr, s: Shape, cap: nat, hole: Addr, i: nat, j: nat)
    requires TreeOk(p, root, s, cap, hole) && 1 <= i < |s.levels| && j + 1 < |s.levels[i]|
    ensures s.levels[i][j].ptr != s.levels[i][j + 1].ptr
  {
    hide Flat;
    assert Differ(s.levels[i], j, j + 1);
  }

  // ------------------------------------------------------------------------------ merge and shift

  /** The arguments of my_merge_pages and my_shift_pages: neighbours, of which one (`hole`) just lost
      an entry, and the page holding the separator between them. */
  ghost predicate Neighbours(p: Store, root: Addr, s: Shape, cap: nat, hole: Addr, i: nat, j: nat, page: Addr,
                             sib: Addr, anchor: Addr)
  {
    && CapOk(cap) && TreeOk(p, root, s, cap, hole)
    && 1 <= i < |s.levels| && j + 1 < |s.levels[i]|
    && page == s.levels[i][j].ptr && sib == s.levels[i][j + 1].ptr && (hole == page || hole == sib)
    && page in p && sib in p
    && anchor == Anchor(p, s, i, j + 1).0
    && (i > 1 ==> |p[sib].slots| > 0 && InRange(s.levels[i], j + 1, p[sib].slots[0].key))
  }

  lemma NeighboursPair(p: Store, root: Addr, s: Shape, cap: nat, hole: Addr, i: nat, j: nat, page: Addr, sib: Addr,
                       anchor: Addr, x: nat)
    requires Neighbours(p, root, s, cap, hole, i, j, page, sib, anchor) && x == Anchor(p, s, i, j + 1).1
    ensures anchor in p && PairNodes(p[page], p[sib], p[anchor], x, cap) && (p[page].IsLeaf() <==> i == 1)
    ensures anchor != page && anchor != sib && page != sib && sib != 0
    ensures i > 1 ==> IsSlot(p[anchor], p[sib].slots[0].key, x)
    ensures p[sib].right == 0 || p[sib].right in p
    ensures page == hole || p[page].count >= 1
    ensures sib == hole || p[sib].count >= 1
  {
    hide Flat, LevelOk, Low, SortedSlots, AnchorFits, Anchor, IsSlot;
    PairFacts(p, root, s, cap, hole, i, j, anchor, x);
    PagesOf(p, root, s, cap, hole, i, j);
    PagesOf(p, root, s, cap, hole, i, j + 1);
    LinksOf(p, root, s, cap, hole, i, j);
  }

  lemma LinksOf(p: Store, root: Addr, s: Shape, cap: nat, hole: Addr, i: nat, j: nat)
    requires TreeOk(p, root, s, cap, hole) && 1 <= i < |s.levels| && j + 1 < |s.levels[i]|
    ensures s.levels[i][j + 1].ptr in p &&
      (p[s.levels[i][j + 1].ptr].right == 0 || p[s.levels[i][j + 1].ptr].right in p)
  {
    hide Flat;
    MergeLinks(p, s.levels[i], i, s.lone, s.rank, cap, hole, j);
  }

  lemma Merged(p: Store, root: Addr, s: Shape, q: Store, cap: nat, hole: Addr, i: nat, j: nat, page: Addr, sib: Addr,
               anchor: Addr, x: nat, r: Node)
    returns (t: Shape)
    requires Neighbours(p, root, s, cap, hole, i, j, page, sib, anchor) && x == Anchor(p, s, i, j + 1).1 &&
      anchor in p && x < |p[anchor].slots|
    requires MergedInto(p[page], p[sib], s.levels[i][j].key, p[anchor].slots[x].key, r)
    requires (p[sib].right == 0 || p[sib].right in p) && q == MergeStore(p, page, sib, r)
    ensures MergedUp(p, s, q, t, cap, i, j + 1) && |t.levels| == |s.levels| && t.levels[0] == s.levels[0]
  {
    hide Flat, LevelOk, MergedInto, MergeStore, MergedUp, PairNodes, SortedSlots, Anchor;
    NeighboursPair(p, root, s, cap, hole, i, j, page, sib, anchor, x);
    PairFacts(p, root, s, cap, hole, i, j, anchor, x);
    MergedCount(p[page], p[sib], s.levels[i][j].key, p[anchor].slots[x].key, r);
    LevelOf(p, root, s, cap, hole, i);
    t := WithLevel(s, i, RemoveAt(s.levels[i], j + 1));
    TreeMerge(p, root, s, q, cap, hole, i, j, r, t);
  }

  lemma MergedCount(n: Node, sib: Node, lo: Key, sep: Key, r: Node)
    requires MergedInto(n, sib, lo, sep, r) && (n.count >= 1 || sib.count >= 1)
    ensures r.count >= 1
  {
  }

  lemma LevelOf(p: Store, root: Addr, s: Shape, cap: nat, hole: Addr, i: nat)
    requires TreeOk(p, root, s, cap, hole) && 1 <= i < |s.levels|
    ensures LevelOk(p, s.levels[i], i, s.lone, s.rank, cap, hole)
  {
    hide Flat;
  }

  /** The pages below level `i` are what they were. */
  ghost predicate LowerKept(p: Store, s: Shape, q: Store, i: nat) {
    i > 0 && SamePages(p, s.rank, q, s.rank, 1, i - 1)
  }

  /** A merge and a shift write pages of level `i` and above only. */
  lemma NotLower(p: Store, root: Addr, s: Shape, q: Store, cap: nat, hole: Addr, i: nat, j: nat, page: Addr, sib: Addr,
                 anchor: Addr)
    requires Neighbours(p, root, s, cap, hole, i, j, page, sib, anchor)
    requires forall a :: a in p && a != page && a != sib && a != anchor && (a != p[sib].right || a == 0) ==>
      a in q && q[a] == p[a]
    ensures LowerKept(p, s, q, i)
  {
    hide Flat, LevelOk, Low, Anchor;
    PagesOf(p, root, s, cap, hole, i, j);
    PagesOf(p, root, s, cap, hole, i, j + 1);
    UpperParent(p, s, cap, hole, i, j + 1);
    AnchorFacts(p, s, cap, hole, i, j + 1);
    RightOf(p, root, s, cap, hole, i, j + 1);
  }

  lemma LowerTwice(p: Store, s: Shape, p1: Store, s1: Shape, q: Store, i: nat, page: Addr)
    requires i > 0 && page in s.rank && s.rank[page] == i && page in p1 && p1 == p[page := p1[page]]
    requires s1.rank == s.rank && (q == p1 || LowerKept(p1, s1, q, i))
    ensures LowerKept(p, s, q, i)
  {
    forall a | a in p && a in s.rank && 1 <= s.rank[a] <= i - 1 ensures SamePage(p, s.rank, q, s.rank, a) {
      if q != p1 { assert SamePage(p1, s.rank, q, s.rank, a); }
    }
  }

  lemma RightOf(p: Store, root: Addr, s: Shape, cap: nat, hole: Addr, i: nat, j: nat)
    requires TreeOk(p, root, s, cap, hole) && 1 <= i < |s.levels| && j < |s.levels[i]|
    ensures s.levels[i][j].ptr in p
    ensures var a := p[s.levels[i][j].ptr].right; a != 0 ==> a in s.rank && s.rank[a] == i
  {
    hide Flat, Low;
    LevelOf(p, root, s, cap, hole, i);
    assert Chained(p, s.levels[i], j);
    if j + 1 < |s.levels[i]| { PagesOf(p, root, s, cap, hole, i, j + 1); }
  }

  /** my_merge_pages */
  method MergePages(be: Btree, page: Addr, sib: Addr, anchor: Addr, mp0: Addr, ghost hole: Addr, ghost i: nat,
                    ghost j: nat)
    returns (newme: Addr, mp: Addr)
    requires Neighbours(be.pages, be.root, be.shape, be.maxkeys, hole, i, j, page, sib, anchor)
    requires be.pages[page].count + be.pages[sib].count < be.maxkeys
    modifies be`pages, be`shape
    ensures MergedUp(old(be.pages), old(be.shape), be.pages, be.shape, be.maxkeys, i, j + 1)
    ensures |be.shape.levels| == |old(be.shape).levels| && be.shape.levels[0] == old(be.shape.levels[0])
    ensures newme == sib != 0 && mp == if mp0 == page || mp0 == sib then 0 else mp0
    ensures LowerKept(old(be.pages), old(be.shape), be.pages, i) && page in be.pages && sib in be.pages
    ensures be.pages[sib].count == 0 && be.pages[page].count >= old(be.pages[page].count) + old(be.pages[sib].count)
    ensures (page == hole || old(be.pages[page].count) >= 1) && (sib == hole || old(be.pages[sib].count) >= 1)
  {
    hide Flat, LevelOk, MergedUp, TreeOk, SortedSlots, KidsOf, LowerKept;
    ghost var p, s := be.pages, be.shape;
    ghost var x := Anchor(p, s, i, j + 1).1;
    NeighboursPair(p, be.root, s, be.maxkeys, hole, i, j, page, sib, anchor, x);
    var node, sibnode := be.pages[page], be.pages[sib];
    var r := MergeNodes(node, sibnode, be.pages[anchor], x, s.levels[i][j].key);
    be.pages := be.pages[page := r.(right := sibnode.right)][sib := sibnode.(count := 0)];
    if sibnode.right != 0 {
      be.pages := be.pages[sibnode.right := be.pages[sibnode.right].(left := sibnode.left)];
    }
    NotLower(p, be.root, s, be.pages, be.maxkeys, hole, i, j, page, sib, anchor);
    be.shape := Merged(p, be.root, s, be.pages, be.maxkeys, hole, i, j, page, sib, anchor, x, r);
    mp := if mp0 != 0 && (mp0 == page || mp0 == sib) then 0 else mp0;
    newme := sib;
  }

  lemma ShiftedTree(p: Store, root: Addr, s: Shape, q: Store, cap: nat, hole: Addr, i: nat, j: nat, page: Addr,
                    sib: Addr, anchor: Addr, x: nat, r: Node, u: Node, anc: Node)
    returns (t: Shape)
    requires Neighbours(p, root, s, cap, hole, i, j, page, sib, anchor) && x == Anchor(p, s, i, j + 1).1 && anchor in p
    requires ShiftDone(p[page], p[sib], p[anchor], x, s.levels[i][j].key, r, u, anc)
    requires r.count >= 1 && u.count >= 1 && (i == 1 ==> anc.slots[x].key == u.slots[0].key)
    requires q == p[anchor := anc][page := r][sib := u]
    ensures TreeOk(q, root, t, cap, 0) && t.levels[0] == s.levels[0] && |t.levels| == |s.levels|
  {
    hide Flat, LevelOk, Low, Shifted, PairNodes, SortedSlots, Anchor, Rekeyed;
    PairFacts(p, root, s, cap, hole, i, j, anchor, x);
    LevelOf(p, root, s, cap, hole, i);
    t := ShiftTree(p, root, s, q, cap, hole, i, j, r, u, anchor, x, anc.slots[x].key);
  }

  /** The entry part of my_shift_pages. */
  method ShiftNodes(node: Node, sib: Node, anc: Node, cap: nat, ghost x: nat, ghost lo: Key)
    returns (r: Node, u: Node, anc': Node)
    requires PairNodes(node, sib, anc, x, cap) && (node.count + 2 <= sib.count || sib.count + 2 <= node.count)
    requires !node.IsLeaf() ==> IsSlot(anc, sib.slots[0].key, x)
    ensures ShiftDone(node, sib, anc, x, lo, r, u, anc')
    ensures r.count >= 1 && u.count >= 1 && (node.IsLeaf() ==> anc'.slots[x].key == u.slots[0].key)
    ensures -1 <= r.count - u.count <= 3 || -1 <= u.count - r.count <= 3
    ensures node.IsLeaf() ==> -1 <= r.count - u.count <= 1
  {
    hide Shifted, SortedSlots, Rekeyed, KidsOf;
    if sib.count >= node.count {
      if node.IsLeaf() {
        r, u, anc' := ShiftLeftLeaf(node, sib, anc, x, lo);
      } else {
        r, u, anc' := ShiftLeftInner(node, sib, anc, x, lo);
      }
    } else {
      if node.IsLeaf() {
        r, u, anc' := ShiftRightLeaf(node, sib, anc, x, lo);
      } else {
        r, u, anc' := ShiftRightInner(node, sib, anc, x, lo);
      }
    }
  }

  /** my_shift_pages */
  method ShiftPages(be: Btree, page: Addr, sib: Addr, anchor: Addr, ghost hole: Addr, ghost i: nat, ghost j: nat)
    returns (mp: Addr)
    requires Neighbours(be.pages, be.root, be.shape, be.maxkeys, hole, i, j, page, sib, anchor)
    requires be.pages[page].count + 2 <= be.pages[sib].count || be.pages[sib].count + 2 <= be.pages[page].count
    modifies be`pages, be`shape
    ensures be.Valid() && be.shape.levels[0] == old(be.shape.levels[0]) &&
      |be.shape.levels| == |old(be.shape).levels| && mp == 0
    ensures LowerKept(old(be.pages), old(be.shape), be.pages, i) && page in be.pages && sib in be.pages
    ensures be.pages[page].count + be.pages[sib].count == old(be.pages[page].count) + old(be.pages[sib].count)
    ensures i == 1 ==> -1 <= be.pages[page].count - be.pages[sib].count <= 1
  {
    hide Flat, LevelOk, Low, PairNodes, SortedSlots, KidsOf, Rekeyed, LowerKept;
    ghost var p, s := be.pages, be.shape;
    ghost var x := Anchor(p, s, i, j + 1).1;
    NeighboursPair(p, be.root, s, be.maxkeys, hole, i, j, page, sib, anchor, x);
    var r, u, anc' := ShiftNodes(be.pages[page], be.pages[sib], be.pages[anchor], be.maxkeys, x, s.levels[i][j].key);
    be.pages := be.pages[anchor := anc'][page := r][sib := u];
    NotLower(p, be.root, s, be.pages, be.maxkeys, hole, i, j, page, sib, anchor);
    be.shape := ShiftedTree(p, be.root, s, be.pages, be.maxkeys, hole, i, j, page, sib, anchor, x, r, u, anc');
    mp := 0;
  }

  // ------------------------------------------------------------------------------ rebalance

  /** The page and its left (right) neighbour are kids of the same parent exactly when the parent is
      the anchor between them; at least one of the two is. */
  lemma AnchorChoice(p: Store, root: Addr, s: Shape, cap: nat, hole: Addr, i: nat, j: nat)
    requires TreeOk(p, root, s, cap, hole) && 1 <= i < |s.levels| - 1 && j < |s.levels[i]| && hole == s.levels[i][j].ptr
    ensures ParentAddr(p, s, i, j) != 0
    ensures AnchorAddr(p, s, i, j) == ParentAddr(p, s, i, j) <==> Victim(p, s, i, j) == j
    ensures Victim(p, s, i, j) == j ==> j > 0
    ensures Victim(p, s, i, j) != j ==>
      Victim(p, s, i, j) == j + 1 < |s.levels[i]| && AnchorAddr(p, s, i, j + 1) == ParentAddr(p, s, i, j)
    ensures (j > 0 ==> AnchorAddr(p, s, i, j) != 0) && (j + 1 < |s.levels[i]| ==> AnchorAddr(p, s, i, j + 1) != 0)
  {
    hide Flat, LevelOk, Low, Good, Upper, Anchor, TreeOk, ParentIx;
    GoodPair(p, root, s, cap, hole, i + 1);
    HighTree(p, root, s, cap, hole);
    var M := s.levels[i + 1];
    PagesOf(p, root, s, cap, hole, i, j);
    LevelBelow(p, s, cap, hole, i + 1, 0);
    var m := ParentOf(p, s, i, j);
    PagesOf(p, root, s, cap, hole, i + 1, m);
    NextOff(p, s, cap, hole, i + 1, m);
    KidAnchor(p, s, cap, hole, i + 1, m, j);
    if j + 1 < Off(p, M, m + 1) { KidAnchor(p, s, cap, hole, i + 1, m, j + 1); }
    if j > 0 { AnchorFacts(p, s, cap, hole, i, j); }
    if j + 1 < |s.levels[i]| { AnchorFacts(p, s, cap, hole, i, j + 1); }
    if m > 0 { AnchorFacts(p, s, cap, hole, i + 1, m); }
  }

  lemma HighTree(p: Store, root: Addr, s: Shape, cap: nat, hole: Addr)
    requires TreeOk(p, root, s, cap, hole) && |s.levels| > 2
    ensures !s.lone
  {
  }

  lemma GoodPair(p: Store, root: Addr, s: Shape, cap: nat, hole: Addr, i: nat)
    requires TreeOk(p, root, s, cap, hole) && 2 <= i < |s.levels|
    ensures Good(p, s, cap, hole, i - 1, i) && |s.levels[i]| > 0
  {
    hide Flat;
  }

  /** A page that just lost an entry, and whether it or an ancestor asked for a rebalance. */
  ghost predicate AfterRemoval(p: Store, root: Addr, s: Shape, cap: nat, i: nat, j: nat, page: Addr, mp: Addr) {
    && CapOk(cap) && TreeOk(p, root, s, cap, page)
    && 1 <= i < |s.levels| && j < |s.levels[i]| && page == s.levels[i][j].ptr && page in p && |p[page].slots| > 0
    && (mp == 0 ==> p[page].count >= 1 || s.lone)
    && (mp != 0 && i < |s.levels| - 1 ==> p[page].count + 2 <= cap / 2)
    && (mp != 0 && i == |s.levels| - 1 && i > 1 ==> p[page].count == 0)
    && (1 < i < |s.levels| - 1 && p[page].count == 0 ==> InRange(s.levels[i], j, p[page].slots[0].key))
    && (mp == 0 || mp == page || (mp in s.rank && s.rank[mp] > i))
  }

  /** What my_rebalance leaves behind. */
  ghost predicate Rebalanced(p0: Store, root: Addr, s0: Shape, p: Store, s: Shape, cap: nat, i: nat, j: nat,
                             page: Addr, mp0: Addr, newme: Addr, mp: Addr)
  {
    && |s.levels| == |s0.levels| && i < |s.levels| && s.levels[0] == s0.levels[0]
    && (newme == 0 ==> TreeOk(p, root, s, cap, 0) && (mp == 0 || i == |s.levels| - 1))
    && (newme != 0 && i < |s.levels| - 1 ==>
        MergedUp(p0, s0, p, s, cap, i, Victim(p0, s0, i, j)) && mp == if mp0 == page then 0 else mp0)
    && (newme != 0 && i == |s.levels| - 1 ==>
        p == p0 && s == s0 && i > 1 && page in p && p[page].count == 0 && newme == p[page].ptrLeft)
  }

  /** A page that lost an entry was merged into its neighbour, or got entries in exchange. */
  ghost predicate Refilled(p: Store, q: Store, page: Addr) {
    page in p && page in q && (q[page].count == 0 || q[page].count > p[page].count)
  }

  lemma RightNeighbour(p: Store, root: Addr, s: Shape, cap: nat, i: nat, j: nat, page: Addr, mp: Addr)
    requires AfterRemoval(p, root, s, cap, i, j, page, mp) && j + 1 < |s.levels[i]|
    ensures Neighbours(p, root, s, cap, page, i, j, page, p[page].right, AnchorAddr(p, s, i, j + 1))
    ensures mp != p[page].right || mp == 0
  {
    hide Flat, LevelOk, Low;
    LinkOf(p, root, s, cap, page, i, j);
    PagesOf(p, root, s, cap, page, i, j + 1);
    PageBounds(p, root, s, cap, page, i, j + 1);
    NeighboursDiffer(p, root, s, cap, page, i, j);
    LoneTop(p, root, s, cap, page, i, j);
  }

  lemma LeftNeighbour(p: Store, root: Addr, s: Shape, cap: nat, i: nat, j: nat, page: Addr, mp: Addr)
    requires AfterRemoval(p, root, s, cap, i, j, page, mp) && j > 0
    ensures Neighbours(p, root, s, cap, page, i, j - 1, p[page].left, page, AnchorAddr(p, s, i, j))
    ensures mp != p[page].left || mp == 0
  {
    hide Flat, LevelOk, Low;
    LinkOf(p, root, s, cap, page, i, j);
    PagesOf(p, root, s, cap, page, i, j - 1);
    PageBounds(p, root, s, cap, page, i, j);
    NeighboursDiffer(p, root, s, cap, page, i, j - 1);
    LoneTop(p, root, s, cap, page, i, j - 1);
  }

  lemma LinkOf(p: Store, root: Addr, s: Shape, cap: nat, hole: Addr, i: nat, j: nat)
    requires TreeOk(p, root, s, cap, hole) && 1 <= i < |s.levels| && j < |s.levels[i]|
    ensures Chained(p, s.levels[i], j)
  {
    hide Flat;
  }

  lemma LoneTop(p: Store, root: Addr, s: Shape, cap: nat, hole: Addr, i: nat, j: nat)
    requires TreeOk(p, root, s, cap, hole) && 1 <= i < |s.levels| && j + 1 < |s.levels[i]|
    ensures i < |s.levels| - 1 && !s.lone
  {
  }

  /** Only the root has no siblings. */
  lemma NoSiblings(p: Store, root: Addr, s: Shape, cap: nat, page: Addr, i: nat)
    requires TreeOk(p, root, s, cap, page) && 1 <= i < |s.levels| && |s.levels[i]| == 1 && page == s.levels[i][0].ptr
    ensures i == |s.levels| - 1
  {
    hide Flat, LevelOk, Low, AnchorAddr, ParentAddr, Victim;
    if i < |s.levels| - 1 { AnchorChoice(p, root, s, cap, page, i, 0); }
  }

  /** The part of my_rebalance for a page with siblings. */
  method Balance(be: Btree, page: Addr, ar: Around, mp0: Addr, ghost i: nat, ghost j: nat)
    returns (newme: Addr, mp: Addr)
    requires AfterRemoval(be.pages, be.root, be.shape, be.maxkeys, i, j, page, mp0) && mp0 != 0 &&
      (ar.left != 0 || ar.right != 0)
    requires Surround(be.pages, be.shape, i, j, ar)
    modifies be`pages, be`shape
    ensures Rebalanced(old(be.pages), be.root, old(be.shape), be.pages, be.shape, be.maxkeys, i, j, page, mp0, newme,
        mp)
    ensures LowerKept(old(be.pages), old(be.shape), be.pages, i) &&
      (i == 1 ==> Refilled(old(be.pages), be.pages, page))
  {
    hide Flat, LevelOk, Low, AnchorAddr, Anchor, Victim, ParentAddr, MergedUp, InRange, LowerKept;
    newme := 0;
    ghost var p, s := be.pages, be.shape;
    var node := be.pages[page];
    var minkeys := be.maxkeys / 2;
    if j > 0 { LoneTop(p, be.root, s, be.maxkeys, page, i, j - 1); } else {
      LoneTop(p, be.root, s, be.maxkeys, page, i, j);
    }
    AnchorChoice(p, be.root, s, be.maxkeys, page, i, j);
    if j > 0 { LeftNeighbour(p, be.root, s, be.maxkeys, i, j, page, mp0); }
    if j + 1 < |s.levels[i]| { RightNeighbour(p, be.root, s, be.maxkeys, i, j, page, mp0); }
    var fewleft, fewright := false, false;
    if ar.left != 0 { fewleft := be.pages[node.left].count <= minkeys; }
    if ar.right != 0 { fewright := be.pages[node.right].count <= minkeys; }
    if (ar.left == 0 || fewleft) && (ar.right == 0 || fewright) {
      if ar.parent != 0 && ar.lanchor != ar.parent {
        newme, mp := MergePages(be, page, node.right, ar.ranchor, mp0, page, i, j);
      } else {
        newme, mp := MergePages(be, node.left, page, ar.lanchor, mp0, page, i, j - 1);
      }
    } else if ar.left != 0 && fewleft && ar.right != 0 && !fewright {
      if ar.parent != 0 && ar.ranchor != ar.parent && page == mp0 {
        newme, mp := MergePages(be, node.left, page, ar.lanchor, mp0, page, i, j - 1);
      } else {
        mp := ShiftPages(be, page, node.right, ar.ranchor, page, i, j);
      }
    } else if ar.left != 0 && !fewleft && ar.right != 0 && fewright {
      if ar.parent != 0 && ar.lanchor != ar.parent && page == mp0 {
        newme, mp := MergePages(be, page, node.right, ar.ranchor, mp0, page, i, j);
      } else {
        mp := ShiftPages(be, node.left, page, ar.lanchor, page, i, j - 1);
      }
    } else if ar.lanchor == ar.ranchor {
      if ar.left != 0 && ar.right != 0 && be.pages[node.left].count <= be.pages[node.right].count {
        mp := ShiftPages(be, page, node.right, ar.ranchor, page, i, j);
      } else {
        mp := ShiftPages(be, node.left, page, ar.lanchor, page, i, j - 1);
      }
    } else if ar.parent != 0 && ar.lanchor == ar.parent {
      mp := ShiftPages(be, node.left, page, ar.lanchor, page, i, j - 1);
    } else {
      mp := ShiftPages(be, page, node.right, ar.ranchor, page, i, j);
    }
  }

  /** my_rebalance: merges two kids of one parent if a neighbour has few entries, otherwise shifts
      entries over from a neighbour that has more; a root without entries hands over to its child. */
  method Rebalance(be: Btree, page: Addr, ar: Around, mp0: Addr, ghost i: nat, ghost j: nat)
    returns (newme: Addr, mp: Addr)
    requires mp0 == 0 ==> be.Valid()
    requires mp0 != 0 ==> AfterRemoval(be.pages, be.root, be.shape, be.maxkeys, i, j, page, mp0)
    requires mp0 != 0 ==> Surround(be.pages, be.shape, i, j, ar)
    modifies be`pages, be`shape
    ensures mp0 == 0 ==> be.pages == old(be.pages) && be.shape == old(be.shape) && newme == 0 == mp
    ensures mp0 != 0 ==>
      Rebalanced(old(be.pages), be.root, old(be.shape), be.pages, be.shape, be.maxkeys, i, j, page, mp0, newme, mp)
    ensures mp0 != 0 ==> LowerKept(old(be.pages), old(be.shape), be.pages, i)
    ensures mp0 != 0 && i == 1 && |old(be.shape).levels| > 2 ==> Refilled(old(be.pages), be.pages, page)
    ensures mp0 != 0 && i == 1 && |old(be.shape).levels| == 2 ==> be.pages == old(be.pages) && newme == 0
  {
    hide Flat, LevelOk, Low, Neighbours, AnchorAddr, Anchor, Victim, ParentAddr, MergedUp, Refilled;
    newme, mp := 0, mp0;
    ghost var p, s := be.pages, be.shape;
    if mp0 == 0 {
      return;
    }
    var node := be.pages[page];
    PagesOf(p, be.root, s, be.maxkeys, page, i, j);
    if ar.left == 0 && ar.right == 0 {
      NoSiblings(p, be.root, s, be.maxkeys, page, i);
      if node.IsLeaf() {
        NoHole(be.pages, be.root, be.shape, be.maxkeys, page);
      } else {
        newme := node.ptrLeft;
      }
      return;
    }
    newme, mp := Balance(be, page, ar, mp0, i, j);
  }

  // ------------------------------------------------------------------------------ erase

  /** `C'` is `C` without its entry for `key`. */
  ghost predicate Removed(C: seq<Entry>, C': seq<Entry>, key: Key) {
    exists o :: 0 <= o < |C| && C[o].key == key && C' == RemoveAt(C, o)
  }

  /** Pages with few entries may need a rebalance after the erase. */
  predicate IsFew(n: Node, isRoot: bool, cap: nat) { if isRoot then n.count <= 1 else n.count < cap / 2 }

  /** The page to rebalance: the topmost page of a chain of pages with few entries. */
  function Marked(few: bool, page: Addr, mp: Addr): Addr { if !few then 0 else if mp == 0 then page else mp }

  /** The page lost an entry; `q` is the tree with the page as a hole. */
  lemma Lost(p: Store, q: Store, root: Addr, s: Shape, t: Shape, cap: nat, i: nat, j: nat, page: Addr, x: nat,
             mp0: Addr, mp: Addr)
    requires CapOk(cap) && TreeOk(p, root, s, cap, 0) && TreeOk(q, root, t, cap, page)
    requires 1 <= i < |s.levels| == |t.levels| && j < |s.levels[i]| && s.levels[i] == t.levels[i] &&
      page == s.levels[i][j].ptr && t.rank == s.rank
    requires page in p && x < p[page].count <= |p[page].slots| && page in q && q[page] == WithoutEntry(p[page], x)
    requires mp == Marked(IsFew(p[page], page == root, cap), page, mp0) &&
      (mp0 == 0 || (mp0 in s.rank && s.rank[mp0] > i))
    ensures AfterRemoval(q, root, t, cap, i, j, page, mp)
  {
    hide Flat, LevelOk, Low, Within;
    RootIs(p, root, s, cap, i, j);
    PagesOf(p, root, s, cap, 0, i, j);
    if p[page].count == 1 { StaleKey(p, root, s, cap, i, j); }
  }

  lemma RootIs(p: Store, root: Addr, s: Shape, cap: nat, i: nat, j: nat)
    requires TreeOk(p, root, s, cap, 0) && 1 <= i < |s.levels| && j < |s.levels[i]|
    ensures s.levels[i][j].ptr == root <==> i == |s.levels| - 1
  {
    hide Flat;
    assert LevelOk(p, s.levels[s.Top()], s.Top(), s.lone, s.rank, cap, 0);
    assert LevelOk(p, s.levels[i], i, s.lone, s.rank, cap, 0);
  }

  lemma StaleKey(p: Store, root: Addr, s: Shape, cap: nat, i: nat, j: nat)
    requires TreeOk(p, root, s, cap, 0) && 1 <= i < |s.levels| && j < |s.levels[i]|
    requires s.levels[i][j].ptr in p && p[s.levels[i][j].ptr].count == 1 <= |p[s.levels[i][j].ptr].slots|
    ensures InRange(s.levels[i], j, p[s.levels[i][j].ptr].slots[0].key)
  {
    hide Flat, LevelOk, Low;
    PageBounds(p, root, s, cap, 0, i, j);
  }

  /** A page lost an entry and its neighbourhood is as it was. */
  ghost predicate ReadyToBalance(p0: Store, s0: Shape, p: Store, root: Addr, s: Shape, cap: nat, i: nat, j: nat,
                                 page: Addr, ar: Around, mp: Addr)
  {
    && AfterRemoval(p, root, s, cap, i, j, page, mp)
    && Surround(p, s, i, j, ar) && Victim(p, s, i, j) == Victim(p0, s0, i, j)
    && |s.levels| == |s0.levels| && s.rank == s0.rank && s.lone == s0.lone &&
      (forall k :: i <= k < |s0.levels| ==> s.levels[k] == s0.levels[k])
    && SamePages(p0, s0.rank, p, s0.rank, i + 1, |s0.levels| - 1)
  }

  /** my_remove_entry on the leaf. */
  lemma LostInLeaf(p: Store, q: Store, root: Addr, s: Shape, t: Shape, cap: nat, j: nat, page: Addr, key: Key, x: nat,
                   o: nat, ar: Around, mp0: Addr, mp: Addr)
    requires CapOk(cap) && TreeOk(p, root, s, cap, 0) && j < |s.levels[1]| && page == s.levels[1][j].ptr
    requires page in p && x < p[page].count <= |p[page].slots| && p[page].slots[x].key == key &&
      q == p[page := WithoutEntry(p[page], x)]
    requires Surround(p, s, 1, j, ar)
    requires mp == Marked(IsFew(p[page], page == root, cap), page, mp0) &&
      (mp0 == 0 || (mp0 in s.rank && s.rank[mp0] > 1))
    requires o == Off(p, s.levels[1], j) + x < |s.levels[0]| && t == WithLevel(s, 0, RemoveAt(s.levels[0], o))
    ensures ReadyToBalance(p, s, q, root, t, cap, 1, j, page, ar, mp)
    ensures Removed(s.levels[0], t.levels[0], key)
  {
    hide Flat, LevelOk, Low, AfterRemoval, Surround, Victim, Marked, IsFew, WithoutEntry;
    LeafRemove(p, q, root, s, cap, j, x, o);
    PagesOf(p, root, s, cap, 0, 1, j);
    Lost(p, q, root, s, t, cap, 1, j, page, x, mp0, mp);
    SurroundFrame(p, s, q, t, cap, 0, 1, j, ar);
  }

  /** my_remove_entry on the parent of a page that was merged away. */
  lemma LostInInner(p0: Store, root: Addr, s0: Shape, p: Store, s: Shape, q: Store, cap: nat, i: nat, j: nat,
                    page: Addr, x: nat, ar: Around, mp0: Addr, mp: Addr)
    requires CapOk(cap) && TreeOk(p0, root, s0, cap, 0) && 2 <= i < |s0.levels| && j < |s0.levels[i]| &&
      page == s0.levels[i][j].ptr
    requires page in p0 && x < p0[page].count <= |p0[page].slots|
    requires MergedUp(p0, s0, p, s, cap, i - 1, Off(p0, s0.levels[i], j) + 1 + x) &&
      q == p[page := WithoutEntry(p0[page], x)]
    requires Surround(p0, s0, i, j, ar)
    requires mp == Marked(IsFew(p0[page], page == root, cap), page, mp0) &&
      (mp0 == 0 || (mp0 in s0.rank && s0.rank[mp0] > i))
    ensures ReadyToBalance(p0, s0, q, root, s, cap, i, j, page, ar, mp)
  {
    hide Flat, LevelOk, Low, AfterRemoval, Surround, Victim, Marked, IsFew, WithoutEntry;
    InnerRemove(p0, root, s0, p, s, q, cap, i - 1, j, x);
    PagesOf(p0, root, s0, cap, 0, i, j);
    StillSame(p0, s0, p, q, i, page);
    Lost(p0, q, root, s0, s, cap, i, j, page, x, mp0, mp);
    SurroundFrame(p0, s0, q, s, cap, 0, i, j, ar);
  }

  lemma StillSame(p0: Store, s0: Shape, p: Store, q: Store, i: nat, page: Addr)
    requires 1 <= i < |s0.levels| && SamePages(p0, s0.rank, p, s0.rank, i, |s0.levels| - 1) && page in q &&
      q == p[page := q[page]]
    requires page in s0.rank && s0.rank[page] == i
    ensures SamePages(p0, s0.rank, q, s0.rank, i + 1, |s0.levels| - 1)
  {
    forall a | a in p0 && a in s0.rank && i + 1 <= s0.rank[a] <= |s0.levels| - 1
      ensures SamePage(p0, s0.rank, q, s0.rank, a) {
      assert SamePage(p0, s0.rank, p, s0.rank, a);
    }
  }

  /** A merge relative to the tree before the removal. */
  lemma MergedFrom(p0: Store, s0: Shape, p1: Store, s1: Shape, p: Store, s: Shape, cap: nat, i: nat, r: nat)
    requires MergedUp(p1, s1, p, s, cap, i, r) && |s1.levels| == |s0.levels| && s1.rank == s0.rank && s1.lone == s0.lone
    requires forall k :: i <= k < |s0.levels| ==> s1.levels[k] == s0.levels[k]
    requires SamePages(p0, s0.rank, p1, s0.rank, i + 1, |s0.levels| - 1)
    ensures MergedUp(p0, s0, p, s, cap, i, r)
  {
    hide Flat, LevelOk, Low;
    forall a | a in p0 && a in s0.rank && i + 1 <= s0.rank[a] <= |s0.levels| - 1
      ensures SamePage(p0, s0.rank, p, s0.rank, a) {
      assert SamePage(p0, s0.rank, p1, s0.rank, a);
      assert SamePage(p1, s0.rank, p, s0.rank, a);
    }
  }

  /** What my_erase_recursive leaves behind when it found the key below page `j` of level `i`. */
  ghost predicate ErasedBelow(p0: Store, root: Addr, s0: Shape, p: Store, s: Shape, cap: nat, i: nat, j: nat,
                              page: Addr, key: Key, mp0: Addr, newme: Addr, mp: Addr)
  {
    && |s.levels| == |s0.levels| && i < |s.levels| && Removed(s0.levels[0], s.levels[0], key)
    && (newme == 0 ==> TreeOk(p, root, s, cap, 0) && (mp == 0 || i == |s.levels| - 1))
    && (newme != 0 && i < |s.levels| - 1 ==> MergedUp(p0, s0, p, s, cap, i, Victim(p0, s0, i, j)) && mp == mp0)
    && (newme != 0 && i == |s.levels| - 1 ==>
        TreeOk(p, root, s, cap, page) && i > 1 && page in p && p[page].count == 0 && newme == p[page].ptrLeft)
    && (newme != 0 && i == |s.levels| - 1 ==> page in p0 && p0[page].count == 1)
  }

  lemma Balanced(p0: Store, root: Addr, s0: Shape, p1: Store, s1: Shape, p: Store, s: Shape, cap: nat, i: nat, j: nat,
                 page: Addr, key: Key, ar: Around, mp0: Addr, mp1: Addr, newme: Addr, mp: Addr)
    requires ReadyToBalance(p0, s0, p1, root, s1, cap, i, j, page, ar, mp1) && mp1 != 0
    requires Rebalanced(p1, root, s1, p, s, cap, i, j, page, mp1, newme, mp)
    requires Removed(s0.levels[0], s1.levels[0], key) && page in p0 && page in p1 &&
      p1[page].count == p0[page].count - 1
    requires (mp0 == 0 || (mp0 in s0.rank && s0.rank[mp0] > i)) && mp1 == (if mp0 == 0 then page else mp0) &&
      page in s0.rank && s0.rank[page] == i
    ensures ErasedBelow(p0, root, s0, p, s, cap, i, j, page, key, mp0, newme, mp)
  {
    hide Flat, LevelOk, Low, Surround, Victim, SamePages;
    if newme != 0 && i < |s0.levels| - 1 { MergedFrom(p0, s0, p1, s1, p, s, cap, i, Victim(p0, s0, i, j)); }
  }

  lemma NoBalance(p0: Store, root: Addr, s0: Shape, p1: Store, s1: Shape, cap: nat, i: nat, j: nat, page: Addr,
                  ar: Around)
    requires ReadyToBalance(p0, s0, p1, root, s1, cap, i, j, page, ar, 0)
    ensures CapOk(cap) && TreeOk(p1, root, s1, cap, 0) && i < |s1.levels| == |s0.levels|
  {
    hide Flat, LevelOk, Low, Surround, Victim, SamePages;
    NoHole(p1, root, s1, cap, page);
  }

  /** The last step of my_erase_recursive: rebalance the page that lost an entry. */
  method RebalanceLost(be: Btree, page: Addr, ar: Around, ghost key: Key, ghost mp0: Addr, mp1: Addr,
                       ghost p0: Store, ghost s0: Shape, ghost i: nat, ghost j: nat) returns (newme: Addr, mp: Addr)
    requires ReadyToBalance(p0, s0, be.pages, be.root, be.shape, be.maxkeys, i, j, page, ar, mp1)
    requires Removed(s0.levels[0], be.shape.levels[0], key) && page in p0 && page in be.pages &&
      be.pages[page].count == p0[page].count - 1
    requires (mp0 == 0 || (mp0 in s0.rank && s0.rank[mp0] > i)) &&
      (mp1 != 0 ==> mp1 == if mp0 == 0 then page else mp0) && page in s0.rank && s0.rank[page] == i
    modifies be`pages, be`shape
    ensures ErasedBelow(p0, be.root, s0, be.pages, be.shape, be.maxkeys, i, j, page, key, mp0, newme, mp)
    ensures mp1 == 0 || (i == 1 && |s0.levels| == 2) ==> be.pages == old(be.pages) && newme == 0
    ensures mp1 != 0 ==> LowerKept(old(be.pages), old(be.shape), be.pages, i)
    ensures mp1 != 0 && i == 1 && |s0.levels| > 2 ==> Refilled(old(be.pages), be.pages, page)
  {
    hide Flat, LevelOk, Low, Surround, Victim, SamePages, AfterRemoval, MergedUp, Rebalanced, TreeOk, LowerKept,
      Refilled;
    ghost var p1, s1 := be.pages, be.shape;
    if mp1 == 0 { NoBalance(p0, be.root, s0, p1, s1, be.maxkeys, i, j, page, ar); }
    newme, mp := Rebalance(be, page, ar, mp1, i, j);
    if mp1 != 0 {
      Balanced(p0, be.root, s0, p1, s1, be.pages, be.shape, be.maxkeys, i, j, page, key, ar, mp0, mp1, newme, mp);
    }
  }

  lemma LeafKey(p: Store, root: Addr, s: Shape, cap: nat, j: nat, key: Key)
    requires TreeOk(p, root, s, cap, 0) && InRange(s.levels[1], j, key)
    ensures s.levels[1][j].ptr in p && Fits(p[s.levels[1][j].ptr], cap) && SortedSlots(p[s.levels[1][j].ptr])
    ensures Present(s.levels[0], key) <==> NodeInsert.HasKey(p[s.levels[1][j].ptr], key)
    ensures Off(p, s.levels[1], j) + p[s.levels[1][j].ptr].count <= |s.levels[0]|
  {
    hide Flat;
    PresentInLeaf(p, s, cap, j, key);
    LeafKeys(p, s, cap, 0, j);
    LeafOff(p, s, cap, 0, j);
  }

  /** What an erase does to the leaf of the key and around it: a leaf that was at least half full, or is
      the root, only loses the entry; any other is merged into its neighbour or ends with no fewer entries
      than before. */
  ghost predicate LeafOutcome(p: Store, q: Store, leaf: Addr, isRoot: bool, cap: nat) {
    && leaf in p && leaf in q
    && (isRoot || p[leaf].count >= cap / 2 ==>
        q[leaf].count == p[leaf].count - 1 && forall a :: a in p && a != leaf ==> a in q && q[a] == p[a])
    && (!isRoot && p[leaf].count < cap / 2 ==> q[leaf].count == 0 || q[leaf].count >= p[leaf].count)
  }

  /** my_erase_recursive on the leaf that covers the key. */
  method EraseInLeaf(be: Btree, page: Addr, ar: Around, key: Key, mp0: Addr, mp1: Addr, ghost j: nat)
    returns (st: EraseStatus, newme: Addr, mp: Addr)
    requires be.Valid() && InRange(be.shape.levels[1], j, key) && page == be.shape.levels[1][j].ptr &&
      page in be.pages && be.pages[page].count > 0
    requires Surround(be.pages, be.shape, 1, j, ar)
    requires mp1 == Marked(IsFew(be.pages[page], page == be.root, be.maxkeys), page, mp0) &&
      (mp0 == 0 || (mp0 in be.shape.rank && be.shape.rank[mp0] > 1))
    modifies be`pages, be`shape
    ensures st.KeyNotFound? ==>
      be.pages == old(be.pages) && be.shape == old(be.shape) && !Present(be.shape.levels[0], key)
    ensures st.Erased? ==>
      ErasedBelow(old(be.pages), be.root, old(be.shape), be.pages, be.shape, be.maxkeys, 1, j, page, key, mp0, newme,
          mp)
    ensures st.Erased? ==> LeafOutcome(old(be.pages), be.pages, page, page == be.root, be.maxkeys)
    ensures st.Erased? && (page == be.root || old(be.pages[page].count) >= be.maxkeys / 2) ==> newme == 0
  {
    hide Flat, LevelOk, Low, Surround, Victim, SamePages, AfterRemoval, MergedUp, ReadyToBalance, ErasedBelow, InBounds,
      LowerKept;
    ghost var p0, s0 := be.pages, be.shape;
    newme, mp := 0, mp1;
    LeafKey(p0, be.root, s0, be.maxkeys, j, key);
    var slot, cmp := GetSlot(be.pages[page], key);
    if slot == -1 {
      mp := 0;
      st := KeyNotFound;
      return;
    }
    if cmp != 0 {
      st := KeyNotFound;
      return;
    }
    ghost var o := Off(p0, s0.levels[1], j) + slot;
    be.pages := be.pages[page := WithoutEntry(be.pages[page], slot)];
    be.shape := WithLevel(s0, 0, RemoveAt(s0.levels[0], o));
    LostInLeaf(p0, be.pages, be.root, s0, be.shape, be.maxkeys, j, page, key, slot, o, ar, mp0, mp1);
    PagesOf(p0, be.root, s0, be.maxkeys, 0, 1, j);
    RootIs(p0, be.root, s0, be.maxkeys, 1, j);
    newme, mp := RebalanceLost(be, page, ar, key, mp0, mp1, p0, s0, 1, j);
    st := Erased;
  }

  /** The slot that goes with a merged kid: that of the kid, or the first if the kid is the leftmost. */
  lemma KidVictim(p: Store, root: Addr, s: Shape, cap: nat, i: nat, j: nat, slot: int)
    requires TreeOk(p, root, s, cap, 0) && 2 <= i < |s.levels| && j < |s.levels[i]|
    requires s.levels[i][j].ptr in p && -1 <= slot < p[s.levels[i][j].ptr].count
    ensures Victim(p, s, i - 1, Off(p, s.levels[i], j) + 1 + slot) == Off(p, s.levels[i], j) + 1 +
      (if slot == -1 then 0 else slot)
  {
    hide Flat, LevelOk, Low, Victim;
    TreeGood(p, root, s, cap, i);
    NextOff(p, s, cap, 0, i, j);
    KidAnchor(p, s, cap, 0, i, j, Off(p, s.levels[i], j) + 1 + slot);
  }

  lemma EmptyTree(p: Store, root: Addr, s: Shape, cap: nat, i: nat, j: nat)
    requires TreeOk(p, root, s, cap, 0) && 1 <= i < |s.levels| && j < |s.levels[i]|
    ensures s.levels[i][j].ptr in p && (p[s.levels[i][j].ptr].count == 0 ==> s.levels[0] == [])
  {
    hide Flat;
    PagesOf(p, root, s, cap, 0, i, j);
    if p[s.levels[i][j].ptr].count == 0 {
      TreeErase.FlatOneLevel(p, s.levels[1]);
      PagesOf(p, root, s, cap, 0, 1, 0);
    }
  }

  lemma HigherRank(p: Store, root: Addr, s: Shape, cap: nat, i: nat, j: nat, few: bool, mp0: Addr)
    requires TreeOk(p, root, s, cap, 0) && 2 <= i < |s.levels| && j < |s.levels[i]| &&
      (mp0 == 0 || (mp0 in s.rank && s.rank[mp0] > i))
    ensures var mp := Marked(few, s.levels[i][j].ptr, mp0); mp == 0 || (mp in s.rank && s.rank[mp] > i - 1)
  {
    hide Flat, LevelOk, Low;
    PagesOf(p, root, s, cap, 0, i, j);
  }

  /** my_erase_recursive */
  method EraseRecursive(be: Btree, page: Addr, ar: Around, key: Key, mp0: Addr, ghost i: nat, ghost j: nat)
    returns (st: EraseStatus, newme: Addr, mp: Addr, ghost leaf: nat)
    requires be.Valid() && 1 <= i < |be.shape.levels| && InRange(be.shape.levels[i], j, key) &&
      page == be.shape.levels[i][j].ptr
    requires Surround(be.pages, be.shape, i, j, ar)
    requires mp0 == 0 || (mp0 in be.shape.rank && be.shape.rank[mp0] > i)
    modifies be`pages, be`shape
    decreases i
    ensures st.KeyNotFound? ==>
      be.pages == old(be.pages) && be.shape == old(be.shape) && !Present(be.shape.levels[0], key)
    ensures st.Erased? ==>
      ErasedBelow(old(be.pages), be.root, old(be.shape), be.pages, be.shape, be.maxkeys, i, j, page, key, mp0, newme,
          mp)
    ensures st.Erased? ==> InRange(old(be.shape).levels[1], leaf, key)
    ensures var L := old(be.shape).levels[1];
      st.Erased? ==> LeafOutcome(old(be.pages), be.pages, L[leaf].ptr, L[leaf].ptr == be.root, be.maxkeys)
    ensures var L := old(be.shape).levels[1];
      st.Erased? && (L[leaf].ptr == be.root || old(be.pages)[L[leaf].ptr].count >= be.maxkeys / 2) ==> newme == 0
  {
    hide Flat, LevelOk, Low, Surround, Victim, SamePages, AfterRemoval, ReadyToBalance, InBounds, NextLeft, NextRight,
      ErasedBelow, LowerKept, LeafOutcome;
    ghost var p0, s0 := be.pages, be.shape;
    newme, mp, leaf := 0, mp0, j;
    EmptyTree(p0, be.root, s0, be.maxkeys, i, j);
    PagesOf(p0, be.root, s0, be.maxkeys, 0, i, j);
    var node := be.pages[page];
    if node.count == 0 {
      st := KeyNotFound;
      return;
    }
    var few := IsFew(node, be.root == page, be.maxkeys);
    ghost var mp1 := Marked(few, page, mp0);
    if !few {
      mp := 0;
    } else if mp == 0 {
      mp := page;
    }
    if node.IsLeaf() {
      st, newme, mp := EraseInLeaf(be, page, ar, key, mp0, mp, j);
      return;
    }
    TreeGood(p0, be.root, s0, be.maxkeys, i);
    NeighbourPages(p0, be.root, s0, be.maxkeys, i, j, ar);
    var child, slot := TraverseTree(be, page, key, i, j);
    var nextLeft, nextRight := NextLeft(be.pages, node, slot, ar.left), NextRight(be.pages, node, slot, ar.right);
    var nextLanchor := if slot == -1 then ar.lanchor else page;
    var nextRanchor := if slot == node.count - 1 then ar.ranchor else page;
    SurroundDown(p0, be.root, s0, be.maxkeys, i, j, slot, ar);
    HigherRank(p0, be.root, s0, be.maxkeys, i, j, few, mp0);
    st, newme, mp, leaf := EraseRecursive(be, child, Around(nextLeft, nextRight, nextLanchor, nextRanchor, page), key,
        mp, i - 1, Off(p0, s0.levels[i], j) + 1 + slot);
    if st.Erased? {
      ghost var p1, c := be.pages, newme;
      newme, mp := AfterChild(be, page, ar, key, mp0, mp1, mp, slot, child, newme, p0, s0, i, j);
      if c != 0 { OutcomeStays(p0, be.root, s0, p1, be.pages, be.maxkeys, i, leaf); }
    }
  }

  /** What happens above the leaves does not change the outcome for the leaf. */
  lemma OutcomeStays(p: Store, root: Addr, s: Shape, p1: Store, q: Store, cap: nat, i: nat, leaf: nat)
    requires TreeOk(p, root, s, cap, 0) && 2 <= i < |s.levels| && leaf < |s.levels[1]| && LowerKept(p1, s, q, i)
    requires var l := s.levels[1][leaf].ptr; LeafOutcome(p, p1, l, l == root, cap) && p[l].count < cap / 2
    ensures var l := s.levels[1][leaf].ptr; LeafOutcome(p, q, l, l == root, cap)
  {
    hide Flat, LevelOk, Low;
    PagesOf(p, root, s, cap, 0, 1, leaf);
    RootIs(p, root, s, cap, 1, leaf);
    assert SamePage(p1, s.rank, q, s.rank, s.levels[1][leaf].ptr);
  }

  /** The rest of my_erase_recursive on an internal page: take out the slot of a child that was merged
      away, and rebalance. */
  method AfterChild(be: Btree, page: Addr, ar: Around, ghost key: Key, ghost mp0: Addr, ghost mp1: Addr,
                    mpc: Addr, slot0: int, ghost child: Addr, newmec: Addr, ghost p0: Store, ghost s0: Shape,
                    ghost i: nat, ghost j: nat)
    returns (newme: Addr, mp: Addr)
    requires CapOk(be.maxkeys) && TreeOk(p0, be.root, s0, be.maxkeys, 0) && 2 <= i < |s0.levels| &&
      j < |s0.levels[i]| && page == s0.levels[i][j].ptr
    requires page in p0 && -1 <= slot0 < p0[page].count <= |p0[page].slots| && Surround(p0, s0, i, j, ar)
    requires mp1 == Marked(IsFew(p0[page], page == be.root, be.maxkeys), page, mp0) &&
      (mp0 == 0 || (mp0 in s0.rank && s0.rank[mp0] > i))
    requires ErasedBelow(p0, be.root, s0, be.pages, be.shape, be.maxkeys, i - 1, Off(p0, s0.levels[i], j) + 1 + slot0,
        child, key, mp1, newmec, mpc)
    modifies be`pages, be`shape
    ensures ErasedBelow(p0, be.root, s0, be.pages, be.shape, be.maxkeys, i, j, page, key, mp0, newme, mp)
    ensures newmec == 0 ==> be.pages == old(be.pages) && newme == 0
    ensures newmec != 0 ==> LowerKept(old(be.pages), s0, be.pages, i)
  {
    hide Flat, LevelOk, Low, Surround, Victim, SamePages, AfterRemoval, ReadyToBalance, InBounds, Removed, LowerKept;
    ghost var p, s := be.pages, be.shape;
    if newmec != 0 {
      var slot := if slot0 == -1 then 0 else slot0;
      KidVictim(p0, be.root, s0, be.maxkeys, i, j, slot0);
      MergedParent(p0, be.root, s0, p, s, be.maxkeys, i - 1, Off(p0, s0.levels[i], j) + 1 + slot, j);
      PagesOf(p0, be.root, s0, be.maxkeys, 0, i, j);
      be.pages := be.pages[page := WithoutEntry(be.pages[page], slot)];
      LostInInner(p0, be.root, s0, p, s, be.pages, be.maxkeys, i, j, page, slot, ar, mp0, mp1);
      ghost var p1 := be.pages;
      newme, mp := RebalanceLost(be, page, ar, key, mp0, mpc, p0, s0, i, j);
      LowerTwice(p, s0, p1, s, be.pages, i, page);
    } else {
      newme, mp := Rebalance(be, page, ar, mpc, i, j);
    }
  }

  /** btree_erase_impl: exactly the key's entry goes, or nothing changes and the key was not there. The
      tree loses a level exactly when the root changes, and the root changes only if it lost its last
      separator (and a valid tree has no internal page without one). Let `a` be the leaf of the key. If it
      was at least half full, or is the root, no other page changes; otherwise it is merged into its
      neighbour or ends with no fewer entries than before. */
  method Erase(be: Btree, key: Key) returns (st: EraseStatus, ghost leaf: nat, ghost a: Addr)
    requires be.Valid()
    modifies be
    ensures be.Valid()
    ensures st.KeyNotFound? <==> !Present(old(be.Contents()), key)
    ensures st.KeyNotFound? ==>
      be.pages == old(be.pages) && be.root == old(be.root) && be.Contents() == old(be.Contents())
    ensures st.Erased? ==> Removed(old(be.Contents()), be.Contents(), key)
    ensures |be.shape.levels| == |old(be.shape).levels| - (if be.root == old(be.root) then 0 else 1)
    ensures be.root != old(be.root) ==> !old(be.pages[be.root]).IsLeaf() && old(be.pages[be.root]).count == 1
    ensures st.Erased? ==> InRange(old(be.shape).levels[1], leaf, key)
    ensures st.Erased? ==> a == old(be.shape).levels[1][leaf].ptr && a in old(be.pages) && a in be.pages
    ensures st.Erased? && (a == old(be.root) || old(be.pages)[a].count >= be.maxkeys / 2) ==>
      && be.pages[a].count == old(be.pages)[a].count - 1
      && forall b :: b in old(be.pages) && b != a ==> b in be.pages && be.pages[b] == old(be.pages)[b]
    ensures st.Erased? && a != old(be.root) && old(be.pages)[a].count < be.maxkeys / 2 ==>
      be.pages[a].count == 0 || be.pages[a].count >= old(be.pages)[a].count
  {
    hide Flat, LevelOk, Low, SamePages, AfterRemoval, InBounds, Marked, IsFew;
    ghost var p0, s0 := be.pages, be.shape;
    PagesOf(p0, be.root, s0, be.maxkeys, 0, s0.Top(), 0);
    StartAtRoot(p0, be.root, s0, be.maxkeys);
    var newroot, mp;
    st, newroot, mp, leaf := EraseRecursive(be, be.root, Around(0, 0, 0, 0, 0), key, 0, be.shape.Top(), 0);
    a := if st.Erased? then s0.levels[1][leaf].ptr else 0;
    if st.Erased? && newroot != 0 {
      ghost var s := be.shape;
      be.shape := Shape(s.levels[..|s.levels| - 1], s.rank, |s.levels| == 3);
      TreeCollapse(be.pages, be.root, s, be.maxkeys, be.shape);
      RootDiffers(be.pages, be.root, s, be.shape, be.maxkeys);
      be.root := newroot;
    }
  }

  lemma StartAtRoot(p: Store, root: Addr, s: Shape, cap: nat)
    requires TreeOk(p, root, s, cap, 0)
    ensures Surround(p, s, s.Top(), 0, Around(0, 0, 0, 0, 0))
  {
    hide Flat, LevelOk;
  }

  lemma RootDiffers(p: Store, root: Addr, s: Shape, t: Shape, cap: nat)
    requires TreeOk(p, root, s, cap, root) && |s.levels| >= 3 && root in p && TreeOk(p, p[root].ptrLeft, t, cap, 0) &&
      t.rank == s.rank && |t.levels| == |s.levels| - 1
    ensures p[root].ptrLeft != root
  {
    hide Flat, LevelOk, Low;
    PagesOf(p, root, s, cap, root, s.Top(), 0);
    PagesOf(p, p[root].ptrLeft, t, cap, 0, t.Top(), 0);
  }
}
