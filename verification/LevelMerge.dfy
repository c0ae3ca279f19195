/** A page is emptied into its left neighbour and unlinked (src/btree_erase.cc my_merge_pages). */
module LevelMerge {
  import opened Collections
  import opened BtreeNode
  import opened BtreeLevels
  import opened NodeErase

  /** The pages after `b` was merged into its left neighbour, which is now `r`. */
  function MergeStore(p: Store, a: Addr, b: Addr, r: Node): Store
    requires a in p && b in p && (p[b].right == 0 || p[b].right in p)
  {
    var q := p[a := r.(right := p[b].right)][b := p[b].(count := 0)];
    if p[b].right == 0 then q else q[p[b].right := q[p[b].right].(left := p[b].left)]
  }

  ghost predicate CanMerge(p: Store, L: seq<Entry>, i: nat, lone: bool, rank: map<Addr, nat>, cap: nat, hole: Addr,
                           j: nat, r: Node)
  {
    && LevelOk(p, L, i, lone, rank, cap, hole) && j + 1 < |L|
    && (hole == 0 || hole == L[j].ptr || hole == L[j + 1].ptr)
    && MergedInto(p[L[j].ptr], p[L[j + 1].ptr], L[j].key, L[j + 1].key, r) && r.count >= 1
  }

  lemma MergeLinks(p: Store, L: seq<Entry>, i: nat, lone: bool, rank: map<Addr, nat>, cap: nat, hole: Addr, j: nat)
    requires LevelOk(p, L, i, lone, rank, cap, hole) && j + 1 < |L|
    ensures Chained(p, L, j) && Chained(p, L, j + 1)
    ensures p[L[j + 1].ptr].right == 0 || p[L[j + 1].ptr].right in p
  {
    hide Flat;
    assert Chained(p, L, j) && Chained(p, L, j + 1);
  }

  lemma MergePages(p: Store, L: seq<Entry>, i: nat, lone: bool, rank: map<Addr, nat>, cap: nat, hole: Addr, j: nat,
                   r: Node, q: Store)
    requires CanMerge(p, L, i, lone, rank, cap, hole, j, r) &&
      (p[L[j + 1].ptr].right == 0 || p[L[j + 1].ptr].right in p)
    requires q == MergeStore(p, L[j].ptr, L[j + 1].ptr, r)
    ensures L[j].ptr in q && q[L[j].ptr] == r.(right := p[L[j + 1].ptr].right)
    ensures Fits(r, cap) && r.count >= 1 && r.left == p[L[j].ptr].left && r.IsLeaf() == p[L[j].ptr].IsLeaf()
    ensures forall y :: 0 <= y < |L| && y != j && y != j + 1 && y != j + 2 ==>
      L[y].ptr in q && q[L[y].ptr] == p[L[y].ptr]
    ensures j + 2 < |L| ==> L[j + 2].ptr in q && q[L[j + 2].ptr] == p[L[j + 2].ptr].(left := L[j].ptr)
  {
    hide Flat;
    MergeLinks(p, L, i, lone, rank, cap, hole, j);
    DistinctPages(L, j);
    DistinctPages(L, j + 1);
    if j + 2 < |L| { DistinctPages(L, j + 2); }
  }

  lemma MergeOrder(L: seq<Entry>, j: nat)
    requires Ascending(L, 1) && Distinct(L) && 0 < j < |L|
    ensures Ascending(RemoveAt(L, j), 1) && Distinct(RemoveAt(L, j))
  {
    var M := RemoveAt(L, j);
    AscendingKeys(L, 1);
    forall a, b | 0 <= a < b < |M| ensures Differ(M, a, b) {
      assert Differ(L, if a < j then a else a + 1, if b < j then b else b + 1);
    }
  }

  lemma MergeLevel(p: Store, L: seq<Entry>, i: nat, lone: bool, rank: map<Addr, nat>, cap: nat, hole: Addr, j: nat,
                   r: Node, q: Store)
    requires CanMerge(p, L, i, lone, rank, cap, hole, j, r) &&
      (p[L[j + 1].ptr].right == 0 || p[L[j + 1].ptr].right in p)
    requires q == MergeStore(p, L[j].ptr, L[j + 1].ptr, r)
    ensures LevelOk(q, RemoveAt(L, j + 1), i, lone, rank, cap, 0)
  {
    hide Flat, MergedInto, MergeStore;
    var M := RemoveAt(L, j + 1);
    MergeOrder(L, j + 1);
    MergeChain(p, L, i, lone, rank, cap, hole, j, r, q, M);
    MergePages(p, L, i, lone, rank, cap, hole, j, r, q);
    DistinctPages(L, j);
    DistinctPages(L, j + 1);
    forall y | 0 <= y < |M|
      ensures M[y].ptr in rank && rank[M[y].ptr] == i && PageOk(q, M[y], i, lone, cap, 0)
    {
      assert PageOk(p, M[y], i, lone, cap, hole);
    }
  }

  lemma MergeChain(p: Store, L: seq<Entry>, i: nat, lone: bool, rank: map<Addr, nat>, cap: nat, hole: Addr, j: nat,
                   r: Node, q: Store, M: seq<Entry>)
    requires CanMerge(p, L, i, lone, rank, cap, hole, j, r) &&
      (p[L[j + 1].ptr].right == 0 || p[L[j + 1].ptr].right in p)
    requires q == MergeStore(p, L[j].ptr, L[j + 1].ptr, r) && M == RemoveAt(L, j + 1)
    ensures forall y :: 0 <= y < |M| ==> Chained(q, M, y)
  {
    hide Flat, MergedInto, MergeStore;
    MergeLinks(p, L, i, lone, rank, cap, hole, j);
    MergePages(p, L, i, lone, rank, cap, hole, j, r, q);
    forall y | 0 <= y < |M| ensures Chained(q, M, y) {
      if y <= j { assert Chained(p, L, y); } else { assert Chained(p, L, y + 1); }
    }
  }

  lemma MergeKids(p: Store, L: seq<Entry>, i: nat, lone: bool, rank: map<Addr, nat>, cap: nat, hole: Addr, j: nat,
                  r: Node, q: Store)
    requires CanMerge(p, L, i, lone, rank, cap, hole, j, r) &&
      (p[L[j + 1].ptr].right == 0 || p[L[j + 1].ptr].right in p)
    requires q == MergeStore(p, L[j].ptr, L[j + 1].ptr, r)
    ensures Kids(q, L[j]) == Kids(p, L[j]) + Kids(p, L[j + 1])
    ensures forall y :: 0 <= y < |L| && y != j && y != j + 1 ==> Kids(q, L[y]) == Kids(p, L[y])
  {
    hide Flat;
    MergeLinks(p, L, i, lone, rank, cap, hole, j);
    MergePages(p, L, i, lone, rank, cap, hole, j, r, q);
    forall y | 0 <= y < |L| && y != j && y != j + 1 ensures Kids(q, L[y]) == Kids(p, L[y]) {}
  }

  /** The level below does not change. */
  lemma MergeFlat(p: Store, L: seq<Entry>, i: nat, lone: bool, rank: map<Addr, nat>, cap: nat, hole: Addr, j: nat,
                  r: Node, q: Store)
    requires CanMerge(p, L, i, lone, rank, cap, hole, j, r) &&
      (p[L[j + 1].ptr].right == 0 || p[L[j + 1].ptr].right in p)
    requires q == MergeStore(p, L[j].ptr, L[j + 1].ptr, r)
    ensures All(q, RemoveAt(L, j + 1)) == All(p, L)
  {
    hide Flat, Kids, LevelOk, MergedInto;
    var M := RemoveAt(L, j + 1);
    MergeKids(p, L, i, lone, rank, cap, hole, j, r, q);
    FlatKeep(p, q, L, 0, j);
    FlatKeep(p, q, L, j + 2, |L|);
    assert M[0..j] == L[0..j] && L[j + 2..|L|] == M[j + 1..|M|];
    FlatShift(q, L, 0, j, M, 0);
    FlatShift(q, L, j + 2, |L|, M, j + 1);
    FlatAt(q, M, j);
    FlatTwo(p, L, j);
  }

  /** The merged leaf keeps its keys between its separators. */
  lemma MergeBounds(p: Store, L: seq<Entry>, lone: bool, rank: map<Addr, nat>, cap: nat, hole: Addr, j: nat, r: Node,
                    q: Store, M: seq<Entry>)
    requires CanMerge(p, L, 1, lone, rank, cap, hole, j, r) &&
      (p[L[j + 1].ptr].right == 0 || p[L[j + 1].ptr].right in p)
    requires q == MergeStore(p, L[j].ptr, L[j + 1].ptr, r)
    requires forall y :: 0 <= y < |L| ==> InBounds(p, L, y)
    requires M == RemoveAt(L, j + 1)
    ensures forall y :: 0 <= y < |M| ==> InBounds(q, M, y)
  {
    assert Ascending(L, 1);
    hide Flat, Kids, LevelOk, MergedInto;
    MergeKids(p, L, 1, lone, rank, cap, hole, j, r, q);
    assert j > 0 ==> Below(L, j, j + 1);
    assert j + 2 < |L| ==> Below(L, j + 1, j + 2);
    forall y | 0 <= y < |M| ensures InBounds(q, M, y) {
      if y < j {
        assert InBounds(p, L, y);
      } else if y == j {
        assert InBounds(p, L, j) && InBounds(p, L, j + 1);
        var K := Kids(p, L[j]);
        forall x | 0 <= x < |Kids(q, M[y])| ensures j > 0 ==> L[j].key <= Kids(q, M[y])[x].key
          ensures j + 2 < |L| ==> Kids(q, M[y])[x].key < L[j + 2].key {
          if x < |K| { assert Kids(q, M[y])[x] == K[x]; } else {
            assert Kids(q, M[y])[x] == Kids(p, L[j + 1])[x - |K|];
          }
        }
      } else {
        assert InBounds(p, L, y + 1);
      }
    }
  }
}
