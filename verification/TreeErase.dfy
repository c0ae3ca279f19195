/** The tree stays well formed when an entry leaves a page, two pages are merged, entries are
    shifted between two pages, or the root is collapsed. */
module TreeErase {
  import opened Collections
  import opened BtreeNode
  import opened BtreeLevels
  import opened BtreeBackend
  import opened LevelChange
  import opened LevelMerge
  import opened NodeErase
  import opened TreeInsert

  // ------------------------------------------------------------------------------ removal

  lemma RemovePage(p: Store, q: Store, L: seq<Entry>, i: nat, lone: bool, rank: map<Addr, nat>, cap: nat, j: nat,
                   x: nat)
    requires LevelOk(p, L, i, lone, rank, cap, 0) && j < |L| && x < p[L[j].ptr].count
    requires q == p[L[j].ptr := WithoutEntry(p[L[j].ptr], x)]
    ensures LevelOk(q, L, i, lone, rank, cap, L[j].ptr)
    ensures i == 1 ==> Off(p, L, j) + x < |All(p, L)| && All(q, L) == RemoveAt(All(p, L), Off(p, L, j) + x)
    ensures i > 1 ==> Off(p, L, j) + x + 1 < |All(p, L)| && All(q, L) == RemoveAt(All(p, L), Off(p, L, j) + x + 1)
  {
    hide Flat;
    var n := p[L[j].ptr];
    var r := WithoutEntry(n, x);
    PageChange(p, L, i, lone, rank, cap, 0, j, r, L[j].ptr);
    PageFlat(p, L, j, r);
    WithoutEntryKids(n, x, L[j].key);
    FlatAt(p, L, j);
    RemoveMiddle(Flat(p, L, 0, j), Kids(p, L[j]), Flat(p, L, j + 1, |L|), if i == 1 then x else x + 1);
  }

  lemma RemoveOrder(C: seq<Entry>, o: nat)
    requires Ascending(C, 0) && o < |C|
    ensures Ascending(RemoveAt(C, o), 0)
  {
    AscendingKeys(C, 0);
  }

  lemma RemoveBounds(p: Store, q: Store, L: seq<Entry>, lone: bool, rank: map<Addr, nat>, cap: nat, j: nat, x: nat)
    requires LevelOk(p, L, 1, lone, rank, cap, 0) && j < |L| && x < p[L[j].ptr].count
    requires forall y :: 0 <= y < |L| ==> InBounds(p, L, y)
    requires q == p[L[j].ptr := WithoutEntry(p[L[j].ptr], x)]
    ensures forall y :: 0 <= y < |L| ==> InBounds(q, L, y)
  {
    hide Flat;
    WithoutEntryKids(p[L[j].ptr], x, L[j].key);
    DistinctPages(L, j);
    forall y | 0 <= y < |L| ensures InBounds(q, L, y) {
      assert InBounds(p, L, y);
      assert y != j ==> Kids(q, L[y]) == Kids(p, L[y]);
      assert y == j ==> Kids(q, L[y]) == RemoveAt(Kids(p, L[j]), x);
    }
  }

  /** my_remove_entry on a leaf. */
  lemma LeafRemove(p: Store, q: Store, root: Addr, s: Shape, cap: nat, j: nat, x: nat, o: nat)
    requires TreeOk(p, root, s, cap, 0) && j < |s.levels[1]| && x < p[s.levels[1][j].ptr].count
    requires q == p[s.levels[1][j].ptr := WithoutEntry(p[s.levels[1][j].ptr], x)]
    requires o == Off(p, s.levels[1], j) + x
    ensures o < |s.levels[0]| && s.levels[0][o] == p[s.levels[1][j].ptr].slots[x]
    ensures TreeOk(q, root, WithLevel(s, 0, RemoveAt(s.levels[0], o)), cap, s.levels[1][j].ptr)
  {
    hide Flat;
    LeafItem(p, s, cap, 0, j, x);
    var L := s.levels[1];
    RemovePage(p, q, L, 1, s.lone, s.rank, cap, j, x);
    RemoveBounds(p, q, L, s.lone, s.rank, cap, j, x);
    RemoveOrder(s.levels[0], o);
    LeafChanged(p, q, s, RemoveAt(s.levels[0], o), cap, 0, L[j].ptr, s.Top());
  }

  /** Page `r` of level `i` was merged away: levels up to `i` are well formed, and the untouched level
      above still points to it. */
  ghost predicate MergedUp(p0: Store, s0: Shape, p: Store, s: Shape, cap: nat, i: nat, r: nat) {
    && 1 <= i < |s0.levels| - 1 && |s.levels| == |s0.levels| && r < |s0.levels[i]|
    && s.rank == s0.rank && s.lone == s0.lone
    && Low(p, s, cap, 0, i)
    && s.levels[i] == RemoveAt(s0.levels[i], r)
    && (forall k :: i < k < |s0.levels| ==> s.levels[k] == s0.levels[k])
    && SamePages(p0, s0.rank, p, s0.rank, i + 1, |s0.levels| - 1)
  }

  /** The levels above a merged page are as before. */
  lemma MergedParent(p0: Store, root: Addr, s0: Shape, p: Store, s: Shape, cap: nat, i: nat, r: nat, j: nat)
    requires TreeOk(p0, root, s0, cap, 0) && MergedUp(p0, s0, p, s, cap, i, r) && j < |s0.levels[i + 1]|
    ensures Good(p, s, cap, 0, i + 1, |s.levels| - 1) && All(p, s.levels[i + 1]) == s0.levels[i]
    ensures Off(p, s.levels[i + 1], j) == Off(p0, s0.levels[i + 1], j)
    ensures s0.levels[i + 1][j].ptr in p && p[s0.levels[i + 1][j].ptr] == p0[s0.levels[i + 1][j].ptr]
  {
    hide Flat;
    var top := |s0.levels| - 1;
    assert Good(p0, s0, cap, 0, i + 1, top) && Linked(p0, s0.levels, i + 1);
    KeepRange(p0, s0, p, s, cap, 0, i + 1, top);
    var L := s0.levels[i + 1];
    forall x | 0 <= x < |L| ensures SamePage(p0, s0.rank, p, s.rank, L[x].ptr) {}
    FlatKeep(p0, p, L, 0, j);
  }

  /** my_remove_entry on the parent of a page that was merged away. */
  lemma InnerRemove(p0: Store, root: Addr, s0: Shape, p: Store, s: Shape, q: Store, cap: nat, i: nat, j: nat, x: nat)
    requires TreeOk(p0, root, s0, cap, 0) && 1 <= i < |s0.levels| - 1 && j < |s0.levels[i + 1]| &&
      x < p0[s0.levels[i + 1][j].ptr].count
    requires MergedUp(p0, s0, p, s, cap, i, Off(p0, s0.levels[i + 1], j) + 1 + x)
    requires q == p[s0.levels[i + 1][j].ptr := WithoutEntry(p0[s0.levels[i + 1][j].ptr], x)]
    ensures TreeOk(q, root, s, cap, s0.levels[i + 1][j].ptr)
  {
    hide Flat, SamePages;
    var L, top, hole := s0.levels[i + 1], |s0.levels| - 1, s0.levels[i + 1][j].ptr;
    MergedParent(p0, root, s0, p, s, cap, i, Off(p0, L, j) + 1 + x, j);
    if i + 1 < top { assert Linked(p, s.levels, i + 2); }
    RemovePage(p, q, L, i + 1, s.lone, s.rank, cap, j, x);
    HoleElsewhere(p, q, s, cap, hole, i, top);
    if i + 1 < top { assert Linked(q, s.levels, i + 2); }
    Assemble(q, s, cap, hole, i + 1, top);
  }

  /** Levels other than the one with the hole. */
  lemma HoleElsewhere(p: Store, q: Store, s: Shape, cap: nat, hole: Addr, i: nat, top: nat)
    requires 1 <= i < top < |s.levels| && Low(p, s, cap, 0, i) && Good(p, s, cap, 0, i + 1, top)
    requires hole in p && hole in q && hole in s.rank && s.rank[hole] == i + 1 && q == p[hole := q[hole]]
    ensures Low(q, s, cap, hole, i)
    ensures i + 1 < top ==> Good(q, s, cap, hole, i + 2, top) && All(q, s.levels[i + 2]) == All(p, s.levels[i + 2])
  {
    hide Flat;
    MoreHoles(p, s, cap, hole, 1, i);
    KeepEntries(p, s, q, s, cap, hole, i);
    if i + 1 < top {
      MoreHoles(p, s, cap, hole, i + 2, top);
      KeepRange(p, s, q, s, cap, hole, i + 2, top);
    }
  }

  lemma MoreHoles(p: Store, s: Shape, cap: nat, hole: Addr, lo: nat, hi: nat)
    requires 1 <= lo && Good(p, s, cap, 0, lo, hi)
    ensures Good(p, s, cap, hole, lo, hi)
  {
    hide Flat;
  }

  /** A page that is not empty is no hole. */
  lemma NoHole(p: Store, root: Addr, s: Shape, cap: nat, hole: Addr)
    requires TreeOk(p, root, s, cap, hole) && hole in p && (p[hole].count >= 1 || s.lone)
    ensures TreeOk(p, root, s, cap, 0)
  {
    hide Flat;
    forall i | 1 <= i < |s.levels| ensures LevelOk(p, s.levels[i], i, s.lone, s.rank, cap, 0) {
      assert LevelOk(p, s.levels[i], i, s.lone, s.rank, cap, hole);
    }
  }

  lemma HoleFree(p: Store, s: Shape, cap: nat, hole: Addr, lo: nat, hi: nat)
    requires 1 <= lo && Good(p, s, cap, hole, lo, hi) && (hole == 0 || (hole in s.rank && !(lo <= s.rank[hole] <= hi)))
    ensures Good(p, s, cap, 0, lo, hi)
  {
    hide Flat;
    forall i | lo <= i <= hi ensures LevelOk(p, s.levels[i], i, s.lone, s.rank, cap, 0) {
      assert LevelOk(p, s.levels[i], i, s.lone, s.rank, cap, hole);
    }
  }

  // ------------------------------------------------------------------------------ merge

  lemma MergeSame(p: Store, s: Shape, q: Store, cap: nat, hole: Addr, i: nat, j: nat, r: Node)
    requires 1 <= i < |s.levels| && CanMerge(p, s.levels[i], i, s.lone, s.rank, cap, hole, j, r)
    requires var b := s.levels[i][j + 1].ptr;
      (p[b].right == 0 || p[b].right in p) && q == MergeStore(p, s.levels[i][j].ptr, b, r)
    ensures SamePages(p, s.rank, q, s.rank, 1, i - 1) && SamePages(p, s.rank, q, s.rank, i + 1, |s.levels| - 1)
  {
    hide Flat;
    MergeLinks(p, s.levels[i], i, s.lone, s.rank, cap, hole, j);
  }

  /** my_merge_pages: page `j + 1` of level `i` goes into page `j`. */
  lemma TreeMerge(p: Store, root: Addr, s: Shape, q: Store, cap: nat, hole: Addr, i: nat, j: nat, r: Node, t: Shape)
    requires TreeOk(p, root, s, cap, hole) && 1 <= i < |s.levels| - 1
    requires CanMerge(p, s.levels[i], i, s.lone, s.rank, cap, hole, j, r)
    requires var b := s.levels[i][j + 1].ptr;
      (p[b].right == 0 || p[b].right in p) && q == MergeStore(p, s.levels[i][j].ptr, b, r)
    requires t == WithLevel(s, i, RemoveAt(s.levels[i], j + 1))
    ensures MergedUp(p, s, q, t, cap, i, j + 1)
  {
    hide Flat, MergedInto, MergeStore;
    var L := s.levels[i];
    MergeLevel(p, L, i, s.lone, s.rank, cap, hole, j, r, q);
    MergeFlat(p, L, i, s.lone, s.rank, cap, hole, j, r, q);
    MergeSame(p, s, q, cap, hole, i, j, r);
    if i > 1 {
      assert Linked(p, s.levels, i);
      HoleFree(p, s, cap, hole, 1, i - 1);
      KeepEntries(p, s, q, t, cap, 0, i - 1);
    } else {
      MergeBounds(p, L, s.lone, s.rank, cap, hole, j, r, q, t.levels[1]);
    }
    Assemble(q, t, cap, 0, i, i);
  }

  // ------------------------------------------------------------------------------ root

  /** The root lost its last separator: its only child takes over. */
  lemma TreeCollapse(p: Store, root: Addr, s: Shape, cap: nat, t: Shape)
    requires TreeOk(p, root, s, cap, root) && |s.levels| >= 3 && p[root].count == 0
    requires t == Shape(s.levels[..|s.levels| - 1], s.rank, |s.levels| == 3)
    ensures TreeOk(p, p[root].ptrLeft, t, cap, 0)
  {
    hide Flat;
    var top := |s.levels| - 1;
    var L := s.levels[top];
    FlatOneLevel(p, L);
    assert Linked(p, s.levels, top);
    HoleFree(p, s, cap, root, 1, top - 1);
    forall i | 1 <= i < top ensures LevelOk(p, t.levels[i], i, t.lone, t.rank, cap, 0) {
      assert LevelOk(p, s.levels[i], i, s.lone, s.rank, cap, 0);
    }
    forall i | 1 < i < top ensures Linked(p, t.levels, i) { assert Linked(p, s.levels, i); }
  }

  lemma FlatOneLevel(p: Store, L: seq<Entry>)
    requires |L| == 1
    ensures All(p, L) == Kids(p, L[0])
  {
    FlatOne(p, L, 0);
  }
}
