/** The whole tree as a stack of levels, and what it means for it to be well formed.

    `levels[0]` is the sequence of all (key, record) entries in key order, `levels[1]` the leaves
    from left to right, and so on up to `levels[top]`, which holds only the root. Every level above
    the entries is a sequence of page references: `ptr` is the page and `key` the separator to its
    left (the `key` of the leftmost reference is never looked at). A level is exactly the
    concatenation of what the pages of the level above point to. */
module BtreeLevels {
  import opened BtreeNode

  type Store = map<Addr, Node>

  /** What one page contributes to the level below. */
  function KidsOf(lo: Key, n: Node): seq<Entry>
    requires n.count <= |n.slots|
  {
    if n.IsLeaf() then n.slots[..n.count] else [Entry(lo, n.ptrLeft)] + n.slots[..n.count]
  }

  function Kids(p: Store, e: Entry): seq<Entry> {
    if e.ptr in p && p[e.ptr].count <= |p[e.ptr].slots| then KidsOf(e.key, p[e.ptr]) else []
  }

  /** The concatenation of the kids of `L[a..b]`. */
  function Flat(p: Store, L: seq<Entry>, a: nat, b: nat): seq<Entry>
    requires a <= b <= |L|
  {
    if a == b then [] else Flat(p, L, a, b - 1) + Kids(p, L[b - 1])
  }

  function All(p: Store, L: seq<Entry>): seq<Entry> { Flat(p, L, 0, |L|) }

  /** Where the kids of `L[j]` start in the level below. */
  function Off(p: Store, L: seq<Entry>, j: nat): nat
    requires j <= |L|
  {
    |Flat(p, L, 0, j)|
  }

  lemma {:induction false} FlatConcat(p: Store, L: seq<Entry>, a: nat, b: nat, c: nat)
    requires a <= b <= c <= |L|
    ensures Flat(p, L, a, c) == Flat(p, L, a, b) + Flat(p, L, b, c)
  {
    if b < c { FlatConcat(p, L, a, b, c - 1); }
  }

  lemma {:induction false} FlatKeep(p: Store, q: Store, L: seq<Entry>, a: nat, b: nat)
    requires a <= b <= |L|
    requires forall x :: a <= x < b ==> Kids(p, L[x]) == Kids(q, L[x])
    ensures Flat(p, L, a, b) == Flat(q, L, a, b)
  {
    if a < b { FlatKeep(p, q, L, a, b - 1); }
  }

  lemma {:induction false} FlatShift(p: Store, L: seq<Entry>, a: nat, b: nat, M: seq<Entry>, c: nat)
    requires a <= b <= |L| && c + (b - a) <= |M| && L[a..b] == M[c..c + (b - a)]
    ensures Flat(p, L, a, b) == Flat(p, M, c, c + (b - a))
  {
    if a < b {
      assert L[a..b - 1] == L[a..b][..b - 1 - a];
      assert M[c..c + (b - 1 - a)] == M[c..c + (b - a)][..b - 1 - a];
      assert L[b - 1] == L[a..b][b - 1 - a] == M[c + (b - 1 - a)];
      FlatShift(p, L, a, b - 1, M, c);
    }
  }

  lemma FlatOne(p: Store, L: seq<Entry>, j: nat)
    requires j < |L|
    ensures Flat(p, L, j, j + 1) == Kids(p, L[j])
  {
    assert Flat(p, L, j, j) == [];
  }

  /** Isolates the kids of one page. */
  lemma FlatAt(p: Store, L: seq<Entry>, j: nat)
    requires j < |L|
    ensures All(p, L) == Flat(p, L, 0, j) + Kids(p, L[j]) + Flat(p, L, j + 1, |L|)
    ensures Off(p, L, j + 1) == Off(p, L, j) + |Kids(p, L[j])|
    ensures Off(p, L, |L|) == |All(p, L)|
  {
    FlatConcat(p, L, 0, j + 1, |L|);
  }

  lemma Regroup(A: seq<Entry>, B: seq<Entry>, C: seq<Entry>, D: seq<Entry>)
    ensures A + B + (C + D) == A + (B + C) + D
  {
  }

  /** Isolates the kids of two neighbouring pages. */
  lemma FlatTwo(p: Store, L: seq<Entry>, j: nat)
    requires j + 1 < |L|
    ensures All(p, L) == Flat(p, L, 0, j) + (Kids(p, L[j]) + Kids(p, L[j + 1])) + Flat(p, L, j + 2, |L|)
  {
    FlatAt(p, L, j);
    FlatConcat(p, L, j + 1, j + 2, |L|);
    FlatOne(p, L, j + 1);
    Regroup(Flat(p, L, 0, j), Kids(p, L[j]), Kids(p, L[j + 1]), Flat(p, L, j + 2, |L|));
  }

  lemma OffMono(p: Store, L: seq<Entry>, a: nat, b: nat)
    requires a <= b <= |L|
    ensures Off(p, L, a) <= Off(p, L, b)
  {
    FlatConcat(p, L, 0, a, b);
  }

  lemma KidAt(p: Store, L: seq<Entry>, j: nat, x: nat)
    requires j < |L| && x < |Kids(p, L[j])|
    ensures Off(p, L, j) + x < Off(p, L, j + 1) <= |All(p, L)|
    ensures All(p, L)[Off(p, L, j) + x] == Kids(p, L[j])[x]
  {
    FlatAt(p, L, j);
  }

  // ------------------------------------------------------------------------------ well-formedness

  predicate Below(L: seq<Entry>, a: nat, b: nat)
    requires a < |L| && b < |L|
  {
    L[a].key < L[b].key
  }

  predicate Ascending(L: seq<Entry>, from: nat) {
    forall a, b :: from <= a < b < |L| ==> Below(L, a, b)
  }

  predicate Differ(L: seq<Entry>, a: nat, b: nat)
    requires a < |L| && b < |L|
  {
    L[a].ptr != L[b].ptr
  }

  predicate Distinct(L: seq<Entry>) {
    forall a, b :: 0 <= a < b < |L| ==> Differ(L, a, b)
  }

  lemma AscendingKeys(L: seq<Entry>, from: nat)
    requires Ascending(L, from)
    ensures forall a, b :: from <= a < b < |L| ==> L[a].key < L[b].key
  {
    forall a, b | from <= a < b < |L| ensures L[a].key < L[b].key { assert Below(L, a, b); }
  }

  lemma DistinctPages(L: seq<Entry>, j: nat)
    requires Distinct(L) && j < |L|
    ensures forall x :: 0 <= x < |L| && x != j ==> L[x].ptr != L[j].ptr
  {
    forall x | 0 <= x < |L| && x != j ensures L[x].ptr != L[j].ptr {
      if x < j { assert Differ(L, x, j); } else { assert Differ(L, j, x); }
    }
  }

  /** A page of level `i`: sized, a leaf exactly on the leaf level, and not empty (unless it is
      `hole`, or a root leaf). */
  predicate PageOk(p: Store, e: Entry, i: nat, lone: bool, cap: nat, hole: Addr) {
    && e.ptr != 0 && e.ptr in p
    && Fits(p[e.ptr], cap)
    && (p[e.ptr].IsLeaf() <==> i == 1)
    && (p[e.ptr].count >= 1 || e.ptr == hole || lone)
  }

  /** The sibling links of the page at `L[j]`. */
  predicate Chained(p: Store, L: seq<Entry>, j: nat)
    requires j < |L|
  {
    && L[j].ptr in p
    && p[L[j].ptr].left == (if j == 0 then 0 else L[j - 1].ptr)
    && p[L[j].ptr].right == (if j + 1 == |L| then 0 else L[j + 1].ptr)
  }

  predicate LevelOk(p: Store, L: seq<Entry>, i: nat, lone: bool, rank: map<Addr, nat>, cap: nat, hole: Addr) {
    && |L| > 0
    && Ascending(L, 1)
    && Distinct(L)
    && (forall j :: 0 <= j < |L| ==> L[j].ptr in rank && rank[L[j].ptr] == i && PageOk(p, L[j], i, lone, cap, hole))
    && (forall j :: 0 <= j < |L| ==> Chained(p, L, j))
  }

  /** The keys of leaf `L[j]` lie between the separators on its two sides. */
  predicate InBounds(p: Store, L: seq<Entry>, j: nat)
    requires j < |L|
  {
    forall x :: 0 <= x < |Kids(p, L[j])| ==>
      && (j > 0 ==> L[j].key <= Kids(p, L[j])[x].key)
      && (j + 1 < |L| ==> Kids(p, L[j])[x].key < L[j + 1].key)
  }

  predicate EntriesOk(p: Store, items: seq<Entry>, leaves: seq<Entry>) {
    && Ascending(items, 0)
    && items == All(p, leaves)
    && forall j :: 0 <= j < |leaves| ==> InBounds(p, leaves, j)
  }

  /** `rank` is the height of every page that is or was in the tree; `lone` says that the root is a
      leaf, the one page that may be empty. */
  datatype Shape = Shape(levels: seq<seq<Entry>>, rank: map<Addr, nat>, lone: bool) {
    function Top(): int { |levels| - 1 }
  }

  /** A level is what the pages of the next one point to, in order. */
  predicate Linked(p: Store, levels: seq<seq<Entry>>, i: nat)
    requires 0 < i < |levels|
  {
    levels[i - 1] == All(p, levels[i])
  }

  /** Levels `lo..hi` are well formed and each is what the next one points to. */
  predicate Good(p: Store, s: Shape, cap: nat, hole: Addr, lo: nat, hi: nat) {
    && 1 <= lo && hi < |s.levels|
    && (forall i :: lo <= i <= hi ==> LevelOk(p, s.levels[i], i, s.lone, s.rank, cap, hole))
    && (forall i :: lo < i <= hi ==> Linked(p, s.levels, i))
  }

  predicate Low(p: Store, s: Shape, cap: nat, hole: Addr, hi: nat) {
    && Good(p, s, cap, hole, 1, hi) && 1 <= hi
    && EntriesOk(p, s.levels[0], s.levels[1])
  }

  predicate TreeOk(p: Store, root: Addr, s: Shape, cap: nat, hole: Addr) {
    && |s.levels| >= 2
    && (s.lone <==> |s.levels| == 2)
    && Low(p, s, cap, hole, |s.levels| - 1)
    && |s.levels[s.Top()]| == 1
    && s.levels[s.Top()][0].ptr == root
  }

  predicate CapOk(cap: nat) { 4 <= cap <= 0xFFFF && cap % 2 == 0 }

  // ------------------------------------------------------------------------------ derived facts

  lemma OffPos(p: Store, s: Shape, cap: nat, hole: Addr, i: nat, j: nat)
    requires i >= 2 && Good(p, s, cap, hole, i, i) && 0 < j < |s.levels[i]|
    ensures Off(p, s.levels[i], j) > 0
  {
    var L := s.levels[i];
    assert |Kids(p, L[0])| > 0;
    FlatAt(p, L, 0);
    OffMono(p, L, 1, j);
  }

  /** The kids of an internal page: the leftmost child, then one child per slot. */
  lemma FirstKid(p: Store, s: Shape, cap: nat, hole: Addr, i: nat, j: nat)
    requires i >= 2 && Good(p, s, cap, hole, i - 1, i) && j < |s.levels[i]|
    ensures var o := Off(p, s.levels[i], j); var M := s.levels[i - 1];
      && o < |M| && M[o] == Entry(s.levels[i][j].key, p[s.levels[i][j].ptr].ptrLeft)
      && (j > 0 ==> o > 0)
  {
    assert Linked(p, s.levels, i);
    KidAt(p, s.levels[i], j, 0);
    if j > 0 { OffPos(p, s, cap, hole, i, j); }
  }

  lemma SlotKid(p: Store, s: Shape, cap: nat, hole: Addr, i: nat, j: nat, x: nat)
    requires i >= 2 && Good(p, s, cap, hole, i - 1, i) && j < |s.levels[i]| && x < p[s.levels[i][j].ptr].count
    ensures var o := Off(p, s.levels[i], j); var M := s.levels[i - 1];
      o + 1 + x < |M| && M[o + 1 + x] == p[s.levels[i][j].ptr].slots[x]
  {
    assert Linked(p, s.levels, i);
    KidAt(p, s.levels[i], j, x + 1);
  }

  /** The kids of neighbouring internal pages follow each other. */
  lemma NextOff(p: Store, s: Shape, cap: nat, hole: Addr, i: nat, j: nat)
    requires i >= 2 && Good(p, s, cap, hole, i - 1, i) && j < |s.levels[i]|
    ensures var L := s.levels[i]; var M := s.levels[i - 1];
      && Off(p, L, j) < Off(p, L, j + 1) == Off(p, L, j) + 1 + p[L[j].ptr].count
      && (j + 1 < |L| ==> Off(p, L, j + 1) < |M| && M[Off(p, L, j + 1)].key == L[j + 1].key)
      && (j + 1 == |L| ==> Off(p, L, j + 1) == |M|)
  {
    assert Linked(p, s.levels, i);
    FlatAt(p, s.levels[i], j);
    if j + 1 < |s.levels[i]| { FirstKid(p, s, cap, hole, i, j + 1); }
  }

  /** Separators inside an internal page ascend and lie strictly between its neighbours' separators. */
  lemma PageKeys(p: Store, s: Shape, cap: nat, hole: Addr, i: nat, j: nat)
    requires i >= 2 && Good(p, s, cap, hole, i - 1, i) && j < |s.levels[i]|
    ensures var L := s.levels[i]; var n := p[L[j].ptr];
      && SortedSlots(n)
      && (forall x :: 0 <= x < n.count ==>
            && (j > 0 ==> L[j].key < n.slots[x].key)
            && (j + 1 < |L| ==> n.slots[x].key < L[j + 1].key))
  {
    var M, o, n := s.levels[i - 1], Off(p, s.levels[i], j), p[s.levels[i][j].ptr];
    FirstKid(p, s, cap, hole, i, j);
    NextOff(p, s, cap, hole, i, j);
    forall x | 0 <= x < n.count
      ensures o + 1 + x < |M| && M[o + 1 + x] == n.slots[x]
      ensures j > 0 ==> s.levels[i][j].key < n.slots[x].key
      ensures j + 1 < |s.levels[i]| ==> n.slots[x].key < s.levels[i][j + 1].key
    {
      SlotKid(p, s, cap, hole, i, j, x);
      assert j > 0 ==> Below(M, o, o + 1 + x);
      assert j + 1 < |s.levels[i]| ==> Below(M, o + 1 + x, o + 1 + n.count);
    }
    forall x, y | 0 <= x < y < n.count ensures n.slots[x].key < n.slots[y].key {
      assert Below(M, o + 1 + x, o + 1 + y);
    }
  }

  /** Keys inside a leaf ascend. */
  lemma LeafKeys(p: Store, s: Shape, cap: nat, hole: Addr, j: nat)
    requires Low(p, s, cap, hole, 1) && j < |s.levels[1]|
    ensures SortedSlots(p[s.levels[1][j].ptr])
  {
    var L := s.levels[1];
    var n := p[L[j].ptr];
    forall x, y | 0 <= x < y < n.count ensures n.slots[x].key < n.slots[y].key {
      KidAt(p, L, j, x);
      KidAt(p, L, j, y);
      assert Below(s.levels[0], Off(p, L, j) + x, Off(p, L, j) + y);
    }
  }
}
