/** Entries move between two neighbouring pages and their separator follows, wherever in the tree it
    is stored (src/btree_erase.cc my_shift_pages). */
module TreeShift {
  import opened BtreeNode
  import opened BtreeLevels
  import opened LevelChange
  import opened NodeErase
  import opened TreeErase
  import opened Anchors

  ghost predicate CanShift(p: Store, L: seq<Entry>, i: nat, lone: bool, rank: map<Addr, nat>, cap: nat, hole: Addr,
                           j: nat, r: Node, u: Node, key: Key)
  {
    && LevelOk(p, L, i, lone, rank, cap, hole) && j + 1 < |L|
    && (hole == 0 || hole == L[j].ptr || hole == L[j + 1].ptr)
    && Shifted(p[L[j].ptr], p[L[j + 1].ptr], L[j].key, L[j + 1].key, r, u, key)
    && r.count >= 1 && u.count >= 1 && (i == 1 ==> key == u.slots[0].key)
  }

  lemma Kids2(p: Store, L: seq<Entry>, i: nat, lone: bool, rank: map<Addr, nat>, cap: nat, hole: Addr, j: nat, r: Node,
              u: Node, key: Key)
    requires CanShift(p, L, i, lone, rank, cap, hole, j, r, u, key)
    ensures Fits(r, cap) && Fits(u, cap)
    ensures Kids(p, L[j]) + Kids(p, L[j + 1]) == KidsOf(L[j].key, r) + KidsOf(key, u)
    ensures |KidsOf(L[j].key, r)| >= 1 && |KidsOf(key, u)| >= 1 && KidsOf(key, u)[0].key == key
  {
    hide Flat;
  }

  /** The new separator is the key at the cut, and the level below is in order. */
  lemma CutInside(A: seq<Entry>, R: seq<Entry>, U: seq<Entry>, B: seq<Entry>, M: seq<Entry>)
    requires M == A + (R + U) + B && |R| >= 1 && |U| >= 1
    ensures M[|A| + |R|] == U[0] && |A| < |A| + |R| < |A| + |R| + |U|
  {
  }

  lemma InnerBetween(p: Store, s: Shape, cap: nat, hole: Addr, i: nat, j: nat, r: Node, u: Node, key: Key)
    requires i >= 2 && Good(p, s, cap, hole, i - 1, i) &&
      CanShift(p, s.levels[i], i, s.lone, s.rank, cap, hole, j, r, u, key)
    ensures Between(s.levels[i], j + 1, key)
  {
    hide Flat, LevelOk, Shifted, KidsOf, Kids;
    var L, M := s.levels[i], s.levels[i - 1];
    Kids2(p, L, i, s.lone, s.rank, cap, hole, j, r, u, key);
    assert Linked(p, s.levels, i);
    FlatTwo(p, L, j);
    CutInside(Flat(p, L, 0, j), KidsOf(L[j].key, r), KidsOf(key, u), Flat(p, L, j + 2, |L|), M);
    var y := Off(p, L, j) + |KidsOf(L[j].key, r)|;
    TwoOffs(p, L, j);
    LevelAscends(p, s, cap, hole, i - 1);
    if j > 0 {
      FirstKid(p, s, cap, hole, i, j);
      assert Below(M, Off(p, L, j), y);
    }
    if j + 2 < |L| {
      FirstKid(p, s, cap, hole, i, j + 2);
      assert Below(M, y, Off(p, L, j + 2));
    }
  }

  lemma TwoOffs(p: Store, L: seq<Entry>, j: nat)
    requires j + 1 < |L|
    ensures Off(p, L, j + 2) == Off(p, L, j) + |Kids(p, L[j]) + Kids(p, L[j + 1])|
  {
    FlatAt(p, L, j);
    FlatAt(p, L, j + 1);
  }

  /** All keys of two neighbouring leaves lie between the separators around them, in order. */
  lemma TwoLeaves(p: Store, C: seq<Entry>, L: seq<Entry>, j: nat, K: seq<Entry>)
    requires EntriesOk(p, C, L) && j + 1 < |L| && Ascending(L, 1) && K == Kids(p, L[j]) + Kids(p, L[j + 1])
    ensures forall x :: 0 <= x < |K| && j > 0 ==> L[j].key <= K[x].key
    ensures forall x :: 0 <= x < |K| && j + 2 < |L| ==> K[x].key < L[j + 2].key
    ensures forall x, y :: 0 <= x < y < |K| ==> K[x].key < K[y].key
  {
    hide Flat, Kids;
    assert InBounds(p, L, j) && InBounds(p, L, j + 1);
    assert j > 0 ==> Below(L, j, j + 1);
    assert j + 2 < |L| ==> Below(L, j + 1, j + 2);
    FlatTwo(p, L, j);
    var A, B := Flat(p, L, 0, j), Flat(p, L, j + 2, |L|);
    Middle(A, K, B);
    forall x, y | 0 <= x < y < |K| ensures K[x].key < K[y].key { assert Below(C, |A| + x, |A| + y); }
  }

  lemma Middle(A: seq<Entry>, K: seq<Entry>, B: seq<Entry>)
    ensures forall x :: 0 <= x < |K| ==> (A + K + B)[|A| + x] == K[x]
  {
  }

  lemma LeafBetween(p: Store, C: seq<Entry>, L: seq<Entry>, lone: bool, rank: map<Addr, nat>, cap: nat, hole: Addr,
                    j: nat, r: Node, u: Node, key: Key)
    requires CanShift(p, L, 1, lone, rank, cap, hole, j, r, u, key) && EntriesOk(p, C, L) && Ascending(L, 1)
    ensures Between(L, j + 1, key)
  {
    hide Flat, EntriesOk, LevelOk, Kids, KidsOf, Shifted, Ascending;
    Kids2(p, L, 1, lone, rank, cap, hole, j, r, u, key);
    var R, U := KidsOf(L[j].key, r), KidsOf(key, u);
    var K := R + U;
    TwoLeaves(p, C, L, j, K);
    assert K[0] == R[0] && K[|R|] == U[0];
  }

  /** After the shift both leaves keep their keys between their separators. */
  lemma ShiftBounds(p: Store, q: Store, C: seq<Entry>, L: seq<Entry>, L': seq<Entry>, lone: bool, rank: map<Addr, nat>,
                    cap: nat, hole: Addr, j: nat, r: Node, u: Node, key: Key)
    requires CanShift(p, L, 1, lone, rank, cap, hole, j, r, u, key) && EntriesOk(p, C, L) && Ascending(L, 1) &&
      L' == WithKey(L, j + 1, key)
    requires Kids(q, L'[j]) == KidsOf(L[j].key, r) && Kids(q, L'[j + 1]) == KidsOf(key, u)
    requires forall y :: 0 <= y < |L| && y != j && y != j + 1 ==> Kids(q, L'[y]) == Kids(p, L[y])
    ensures forall y :: 0 <= y < |L'| ==> InBounds(q, L', y)
  {
    hide Flat, LevelOk, Kids, KidsOf, Shifted, Ascending;
    Kids2(p, L, 1, lone, rank, cap, hole, j, r, u, key);
    var R, U := KidsOf(L[j].key, r), KidsOf(key, u);
    var K := R + U;
    TwoLeaves(p, C, L, j, K);
    assert forall x :: 0 <= x < |R| ==> K[x] == R[x];
    assert forall x :: 0 <= x < |U| ==> K[|R| + x] == U[x];
    forall y | 0 <= y < |L'| ensures InBounds(q, L', y) { assert InBounds(p, L, y); }
  }

  lemma ShiftBetween(p: Store, root: Addr, s: Shape, cap: nat, hole: Addr, i: nat, j: nat, r: Node, u: Node, key: Key)
    requires TreeOk(p, root, s, cap, hole) && 1 <= i < |s.levels| - 1 &&
      CanShift(p, s.levels[i], i, s.lone, s.rank, cap, hole, j, r, u, key)
    ensures Between(s.levels[i], j + 1, key)
  {
    hide Flat, Kids, KidsOf, Shifted;
    if i == 1 {
      LeafBetween(p, s.levels[0], s.levels[1], s.lone, s.rank, cap, hole, j, r, u, key);
    } else {
      assert Good(p, s, cap, hole, i - 1, i);
      InnerBetween(p, s, cap, hole, i, j, r, u, key);
    }
  }

  /** Both pages are replaced, in a store that differs from `p` only above this level. */
  function ShiftStore(p: Store, a: Addr, b: Addr, r: Node, u: Node): Store { p[a := r][b := u] }

  lemma ShiftLevel(p: Store, q: Store, L: seq<Entry>, i: nat, lone: bool, rank: map<Addr, nat>, cap: nat, hole: Addr,
                   j: nat, r: Node, u: Node)
    requires LevelOk(p, L, i, lone, rank, cap, hole) && j + 1 < |L| &&
      (hole == 0 || hole == L[j].ptr || hole == L[j + 1].ptr)
    requires Replaces(p, L, j, r, cap) && Replaces(p, L, j + 1, u, cap) && r.count >= 1 && u.count >= 1
    requires q == ShiftStore(p, L[j].ptr, L[j + 1].ptr, r, u)
    ensures LevelOk(q, L, i, lone, rank, cap, 0)
  {
    hide Flat, LevelOk;
    var h := if hole == L[j].ptr then 0 else hole;
    PagesDiffer(p, L, i, lone, rank, cap, hole, j);
    PageChange(p, L, i, lone, rank, cap, hole, j, r, h);
    PageChange(p[L[j].ptr := r], L, i, lone, rank, cap, h, j + 1, u, 0);
  }

  lemma PagesDiffer(p: Store, L: seq<Entry>, i: nat, lone: bool, rank: map<Addr, nat>, cap: nat, hole: Addr, j: nat)
    requires LevelOk(p, L, i, lone, rank, cap, hole) && j + 1 < |L|
    ensures L[j].ptr != L[j + 1].ptr && L[j].ptr in p && L[j + 1].ptr in p
  {
    hide Flat;
    assert Differ(L, j, j + 1);
  }

  /** Kids after the shift: the two pages have theirs in a new division, all other pages as before. */
  lemma ShiftKids(p: Store, p1: Store, q: Store, L: seq<Entry>, L': seq<Entry>, i: nat, lone: bool, rank: map<Addr,
                  nat>, cap: nat, hole: Addr, j: nat, r: Node, u: Node, key: Key)
    requires CanShift(p, L, i, lone, rank, cap, hole, j, r, u, key) && L' == WithKey(L, j + 1, key)
    requires forall y :: 0 <= y < |L| ==> L[y].ptr in p1 && p1[L[y].ptr] == p[L[y].ptr]
    requires q == ShiftStore(p1, L[j].ptr, L[j + 1].ptr, r, u) && Fits(r, cap) && Fits(u, cap)
    ensures Kids(q, L'[j]) == KidsOf(L[j].key, r) && Kids(q, L'[j + 1]) == KidsOf(key, u)
    ensures forall y :: 0 <= y < |L| && y != j && y != j + 1 ==> Kids(q, L'[y]) == Kids(p, L[y])
  {
    hide Flat, Shifted, KidsOf;
    DistinctPages(L, j);
    DistinctPages(L, j + 1);
  }

  lemma ShiftFlat(p: Store, q: Store, L: seq<Entry>, L': seq<Entry>, i: nat, lone: bool, rank: map<Addr, nat>,
                  cap: nat, hole: Addr, j: nat, r: Node, u: Node, key: Key)
    requires CanShift(p, L, i, lone, rank, cap, hole, j, r, u, key) && L' == WithKey(L, j + 1, key) && Fits(r, cap) &&
      Fits(u, cap)
    requires Kids(q, L'[j]) == KidsOf(L[j].key, r) && Kids(q, L'[j + 1]) == KidsOf(key, u)
    requires forall y :: 0 <= y < |L| && y != j && y != j + 1 ==> Kids(q, L'[y]) == Kids(p, L[y])
    ensures All(q, L') == All(p, L)
  {
    hide Flat, Kids, KidsOf, LevelOk, Shifted;
    Kids2(p, L, i, lone, rank, cap, hole, j, r, u, key);
    FlatTwo(p, L, j);
    FlatTwo(q, L', j);
    FlatKeep(p, q, L, 0, j);
    FlatKeep(p, q, L, j + 2, |L|);
    assert L'[0..j] == L[0..j] && L'[j + 2..|L|] == L[j + 2..|L|];
    FlatShift(q, L, 0, j, L', 0);
    FlatShift(q, L, j + 2, |L|, L', j + 2);
  }

  /** Everything below and above the shifted level. */
  lemma ShiftRest(p: Store, root: Addr, s: Shape, p1: Store, t: Shape, q: Store, cap: nat, hole: Addr, i: nat, j: nat,
                  key: Key)
    requires TreeOk(p, root, s, cap, hole) && 1 <= i < |s.levels| - 1 && j + 1 < |s.levels[i]|
    requires Raised(p, s, p1, t, cap, hole, i, j + 1, key) && SamePages(p, s.rank, p1, s.rank, 1, i)
    requires (hole == 0 || hole == s.levels[i][j].ptr || hole == s.levels[i][j + 1].ptr)
    requires s.levels[i][j].ptr in q && s.levels[i][j + 1].ptr in q
    requires q == ShiftStore(p1, s.levels[i][j].ptr, s.levels[i][j + 1].ptr, q[s.levels[i][j].ptr],
        q[s.levels[i][j + 1].ptr])
    ensures i > 1 ==> Low(q, t, cap, 0, i - 1)
    ensures Good(q, t, cap, 0, i + 1, |s.levels| - 1) && Linked(q, t.levels, i + 1)
  {
    hide Flat;
    var top := |s.levels| - 1;
    RanksDiffer(p, s, cap, hole, i, j);
    HoleFree(p1, t, cap, hole, i + 1, top);
    assert SamePages(p1, t.rank, q, t.rank, i + 1, top);
    KeepRange(p1, t, q, t, cap, 0, i + 1, top);
    assert Linked(p1, t.levels, i + 1);
    if i > 1 {
      HoleFree(p, s, cap, hole, 1, i - 1);
      ShiftSame(p, s.rank, p1, q, i, s.levels[i][j].ptr, s.levels[i][j + 1].ptr);
      KeepEntries(p, s, q, t, cap, 0, i - 1);
    }
  }

  lemma RanksDiffer(p: Store, s: Shape, cap: nat, hole: Addr, i: nat, j: nat)
    requires 1 <= i < |s.levels| && Good(p, s, cap, hole, 1, |s.levels| - 1) && j + 1 < |s.levels[i]|
    ensures var L := s.levels[i];
      L[j].ptr in s.rank && L[j + 1].ptr in s.rank && s.rank[L[j].ptr] == i && s.rank[L[j + 1].ptr] == i
  {
    hide Flat;
  }

  lemma ShiftSame(p: Store, rank: map<Addr, nat>, p1: Store, q: Store, i: nat, a: Addr, b: Addr)
    requires i >= 1 && SamePages(p, rank, p1, rank, 1, i) && a in q && b in q && q == ShiftStore(p1, a, b, q[a], q[b])
    requires a in rank && b in rank && rank[a] == i && rank[b] == i
    ensures SamePages(p, rank, q, rank, 1, i - 1)
  {
    forall x | x in p && x in rank && 1 <= rank[x] <= i - 1 ensures SamePage(p, rank, q, rank, x) {
      assert SamePage(p, rank, p1, rank, x);
    }
  }

  /** my_shift_pages between pages `j` and `j + 1` of level `i`. */
  lemma ShiftTree(p: Store, root: Addr, s: Shape, q: Store, cap: nat, hole: Addr, i: nat, j: nat, r: Node, u: Node,
                  a: Addr, x: nat, key: Key)
    returns (t: Shape)
    requires TreeOk(p, root, s, cap, hole) && 1 <= i < |s.levels| - 1 &&
      CanShift(p, s.levels[i], i, s.lone, s.rank, cap, hole, j, r, u, key)
    requires Anchor(p, s, i, j + 1) == (a, x) && a in p && x < p[a].count <= |p[a].slots|
    requires q == ShiftStore(RekeyPage(p, a, x, key), s.levels[i][j].ptr, s.levels[i][j + 1].ptr, r, u)
    ensures TreeOk(q, root, t, cap, 0) && t.levels[0] == s.levels[0] && |t.levels| == |s.levels|
  {
    hide Flat, Kids, KidsOf, Shifted;
    ShiftBetween(p, root, s, cap, hole, i, j, r, u, key);
    t := Raise(p, s, cap, hole, i, j + 1, key, a, x);
    var p1, L, L' := RekeyPage(p, a, x, key), s.levels[i], t.levels[i];
    RekeySame(p, s.rank, a, x, key, i);
    Kids2(p, L, i, s.lone, s.rank, cap, hole, j, r, u, key);
    SameOnLevel(p, s, p1, cap, hole, i);
    ShiftKids(p, p1, q, L, L', i, s.lone, s.rank, cap, hole, j, r, u, key);
    ShiftFlat(p, q, L, L', i, s.lone, s.rank, cap, hole, j, r, u, key);
    ShiftReplaces(p, p1, L, L', i, s.lone, s.rank, cap, hole, j, r, u, key);
    ShiftLevel(p1, q, L', i, t.lone, t.rank, cap, hole, j, r, u);
    ShiftRest(p, root, s, p1, t, q, cap, hole, i, j, key);
    if i == 1 {
      ShiftBounds(p, q, s.levels[0], L, L', s.lone, s.rank, cap, hole, j, r, u, key);
    } else {
      assert Linked(p, s.levels, i);
    }
    Assemble(q, t, cap, 0, i, |s.levels| - 1);
  }

  lemma SameOnLevel(p: Store, s: Shape, p1: Store, cap: nat, hole: Addr, i: nat)
    requires 1 <= i < |s.levels| && Good(p, s, cap, hole, 1, |s.levels| - 1) && SamePages(p, s.rank, p1, s.rank, 1, i)
    ensures forall y :: 0 <= y < |s.levels[i]| ==>
      s.levels[i][y].ptr in p1 && p1[s.levels[i][y].ptr] == p[s.levels[i][y].ptr]
  {
    hide Flat;
    var L := s.levels[i];
    forall y | 0 <= y < |L| ensures L[y].ptr in p1 && p1[L[y].ptr] == p[L[y].ptr] {
      assert SamePage(p, s.rank, p1, s.rank, L[y].ptr);
    }
  }

  lemma ShiftReplaces(p: Store, p1: Store, L: seq<Entry>, L': seq<Entry>, i: nat, lone: bool, rank: map<Addr, nat>,
                      cap: nat, hole: Addr, j: nat, r: Node, u: Node, key: Key)
    requires CanShift(p, L, i, lone, rank, cap, hole, j, r, u, key) && L' == WithKey(L, j + 1, key)
    requires forall y :: 0 <= y < |L| ==> L[y].ptr in p1 && p1[L[y].ptr] == p[L[y].ptr]
    ensures Replaces(p1, L', j, r, cap) && Replaces(p1, L', j + 1, u, cap)
  {
    hide Flat;
  }
}
