/** How the levels follow when pages of one level change. */
module LevelChange {
  import opened Collections
  import opened BtreeNode
  import opened BtreeLevels
  import opened NodeInsert

  // ------------------------------------------------------------------------------ untouched levels

  /** Pages of height `lo..hi` are the same in `q` and keep their height. */
  ghost predicate SamePages(p: Store, rank: map<Addr, nat>, q: Store, rank': map<Addr, nat>, lo: nat, hi: nat) {
    forall a {:trigger SamePage(p, rank, q, rank', a)} :: a in p && a in rank && lo <= rank[a] <= hi ==>
      SamePage(p, rank, q, rank', a)
  }

  ghost predicate SamePage(p: Store, rank: map<Addr, nat>, q: Store, rank': map<Addr, nat>, a: Addr) {
    a in p && a in rank && a in q && q[a] == p[a] && a in rank' && rank'[a] == rank[a]
  }

  ghost predicate SameLevels(s: Shape, t: Shape, lo: nat, hi: nat) {
    && |t.levels| == |s.levels| && hi < |s.levels|
    && (forall i :: lo <= i <= hi ==> t.levels[i] == s.levels[i])
    && (lo <= hi && s.lone ==> t.lone)
  }

  lemma KeepLevel(p: Store, q: Store, L: seq<Entry>, i: nat, lone: bool, rank: map<Addr, nat>, lone': bool,
                  rank': map<Addr, nat>, cap: nat, hole: Addr)
    requires LevelOk(p, L, i, lone, rank, cap, hole) && (lone ==> lone')
    requires forall j :: 0 <= j < |L| ==>
      L[j].ptr in q && q[L[j].ptr] == p[L[j].ptr] && L[j].ptr in rank' && rank'[L[j].ptr] == i
    ensures LevelOk(q, L, i, lone', rank', cap, hole) && All(q, L) == All(p, L)
  {
    forall j | 0 <= j < |L| ensures Chained(q, L, j) { assert Chained(p, L, j); }
    FlatKeep(p, q, L, 0, |L|);
  }

  lemma Siblings(p: Store, L: seq<Entry>, i: nat, lone: bool, rank: map<Addr, nat>, cap: nat, hole: Addr, j: nat)
    requires LevelOk(p, L, i, lone, rank, cap, hole) && j < |L|
    ensures Chained(p, L, j)
    ensures var n := p[L[j].ptr]; (n.right == 0 || n.right in p) && n.right != L[j].ptr && n.left != L[j].ptr
  {
    assert Chained(p, L, j);
    DistinctPages(L, j);
  }

  /** A step elsewhere leaves a range of levels as it was. */
  lemma KeepRange(p: Store, s: Shape, q: Store, t: Shape, cap: nat, hole: Addr, lo: nat, hi: nat)
    requires Good(p, s, cap, hole, lo, hi) && SamePages(p, s.rank, q, t.rank, lo, hi) && SameLevels(s, t, lo, hi)
    ensures Good(q, t, cap, hole, lo, hi)
    ensures forall i :: lo <= i <= hi ==> All(q, t.levels[i]) == All(p, s.levels[i])
  {
    forall i | lo <= i <= hi
      ensures LevelOk(q, t.levels[i], i, t.lone, t.rank, cap, hole) && All(q, t.levels[i]) == All(p, s.levels[i])
    {
      forall j | 0 <= j < |s.levels[i]| ensures SamePage(p, s.rank, q, t.rank, s.levels[i][j].ptr) {}
      KeepLevel(p, q, s.levels[i], i, s.lone, s.rank, t.lone, t.rank, cap, hole);
    }
    forall i | lo < i <= hi ensures Linked(q, t.levels, i) { assert Linked(p, s.levels, i); }
  }

  lemma KeepEntries(p: Store, s: Shape, q: Store, t: Shape, cap: nat, hole: Addr, hi: nat)
    requires Low(p, s, cap, hole, hi) && SamePages(p, s.rank, q, t.rank, 1, hi) && SameLevels(s, t, 0, hi)
    ensures Low(q, t, cap, hole, hi)
  {
    KeepRange(p, s, q, t, cap, hole, 1, hi);
    forall j | 0 <= j < |s.levels[1]| ensures InBounds(q, t.levels[1], j) {
      assert SamePage(p, s.rank, q, t.rank, s.levels[1][j].ptr);
      assert InBounds(p, s.levels[1], j) && Kids(q, s.levels[1][j]) == Kids(p, s.levels[1][j]);
    }
  }

  /** Levels are assembled from a lower part, one level, and an upper part. */
  lemma Assemble(p: Store, s: Shape, cap: nat, hole: Addr, i: nat, hi: nat)
    requires 1 <= i <= hi < |s.levels|
    requires i > 1 ==> Low(p, s, cap, hole, i - 1) && Linked(p, s.levels, i)
    requires i == 1 ==> EntriesOk(p, s.levels[0], s.levels[1])
    requires LevelOk(p, s.levels[i], i, s.lone, s.rank, cap, hole)
    requires i < hi ==> Good(p, s, cap, hole, i + 1, hi) && Linked(p, s.levels, i + 1)
    ensures Low(p, s, cap, hole, hi)
  {
    forall k | 1 <= k <= hi ensures LevelOk(p, s.levels[k], k, s.lone, s.rank, cap, hole) {
      if k < i { assert Good(p, s, cap, hole, 1, i - 1); } else if k > i { assert Good(p, s, cap, hole, i + 1, hi); }
    }
    forall k | 1 < k <= hi ensures Linked(p, s.levels, k) {
      if k < i { assert Good(p, s, cap, hole, 1, i - 1); } else if k > i + 1 {
        assert Good(p, s, cap, hole, i + 1, hi);
      }
    }
  }

  // ------------------------------------------------------------------------------ one page changes

  /** `n` may take the place of the page at `L[j]`. */
  ghost predicate Replaces(p: Store, L: seq<Entry>, j: nat, n: Node, cap: nat) {
    && j < |L| && L[j].ptr in p
    && Fits(n, cap)
    && n.IsLeaf() == p[L[j].ptr].IsLeaf()
    && n.left == p[L[j].ptr].left && n.right == p[L[j].ptr].right
  }

  lemma PageChange(p: Store, L: seq<Entry>, i: nat, lone: bool, rank: map<Addr, nat>, cap: nat, hole: Addr, j: nat,
                   n: Node, hole': Addr)
    requires LevelOk(p, L, i, lone, rank, cap, hole) && Replaces(p, L, j, n, cap)
    requires n.count >= 1 || hole' == L[j].ptr || lone
    requires hole' == hole || hole == L[j].ptr || hole == 0
    ensures LevelOk(p[L[j].ptr := n], L, i, lone, rank, cap, hole')
  {
    var q := p[L[j].ptr := n];
    DistinctPages(L, j);
    forall x | 0 <= x < |L| ensures Chained(q, L, x) { assert Chained(p, L, x); }
    forall x | 0 <= x < |L| ensures PageOk(q, L[x], i, lone, cap, hole') { assert PageOk(p, L[x], i, lone, cap, hole); }
  }

  lemma PageFlat(p: Store, L: seq<Entry>, j: nat, n: Node)
    requires j < |L| && Distinct(L) && n.count <= |n.slots|
    ensures All(p[L[j].ptr := n], L) == Flat(p, L, 0, j) + KidsOf(L[j].key, n) + Flat(p, L, j + 1, |L|)
  {
    var q := p[L[j].ptr := n];
    assert Kids(q, L[j]) == KidsOf(L[j].key, n);
    DistinctPages(L, j);
    FlatKeep(p, q, L, 0, j);
    FlatKeep(p, q, L, j + 1, |L|);
    FlatAt(q, L, j);
  }

  lemma InsertMiddle(A: seq<Entry>, K: seq<Entry>, B: seq<Entry>, y: nat, e: Entry)
    requires y <= |K|
    ensures A + InsertAt(K, y, e) + B == InsertAt(A + K + B, |A| + y, e)
  {
    InsertAtRight(A, K, y, e);
    InsertAtLeft(A + K, B, |A| + y, e);
  }

  lemma RemoveMiddle(A: seq<Entry>, K: seq<Entry>, B: seq<Entry>, y: nat)
    requires y < |K|
    ensures A + RemoveAt(K, y) + B == RemoveAt(A + K + B, |A| + y)
  {
    assert (A + K + B)[..|A| + y] == A + K[..y];
    assert (A + K + B)[|A| + y + 1..] == K[y + 1..] + B;
  }
}
