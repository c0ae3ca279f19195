/** A page is split and its right half linked in behind it (src/btree_insert.cc __insert_split). */
module LevelSplit {
  import opened Collections
  import opened BtreeNode
  import opened BtreeLevels
  import opened NodeInsert
  import opened LevelChange

  /** The pages after the split: the halves, and the back link of the old right sibling. */
  function SplitStore(p: Store, a: Addr, b: Addr, r: Node, nb: Node): Store
    requires a in p && (p[a].right == 0 || p[a].right in p)
  {
    var n := p[a];
    var q := p[a := r.(right := b)][b := nb.(left := a, right := n.right)];
    if n.right == 0 then q else q[n.right := q[n.right].(left := b)]
  }

  /** What __insert_split is called with: a full page, a new page, and the two halves. */
  ghost predicate CanSplit(p: Store, L: seq<Entry>, i: nat, lone: bool, rank: map<Addr, nat>, cap: nat, j: nat,
                           b: Addr, key: Key, ptr: nat, cut: Halves)
  {
    && LevelOk(p, L, i, lone, rank, cap, 0) && j < |L| && (lone ==> |L| == 1)
    && b != 0 && b !in p
    && SplitOk(p[L[j].ptr], L[j].key, key, ptr, cut)
    && (j > 0 ==> L[j].key < cut.pivot) && (j + 1 < |L| ==> cut.pivot < L[j + 1].key)
  }

  lemma SplitPages(p: Store, L: seq<Entry>, i: nat, lone: bool, rank: map<Addr, nat>, cap: nat, j: nat,
                   b: Addr, key: Key, ptr: nat, cut: Halves)
    requires CanSplit(p, L, i, lone, rank, cap, j, b, key, ptr, cut)
    ensures Chained(p, L, j)
    ensures var a := L[j].ptr; var q := SplitStore(p, a, b, cut.r, cut.nb); var n := p[a];
      && a != b && n.right != a && n.right != b && a in q && b in q
      && q[a] == cut.r.(right := b)
      && q[b] == cut.nb.(left := a, right := n.right)
      && (forall y :: 0 <= y < |L| && y != j && y != j + 1 ==> L[y].ptr in q && q[L[y].ptr] == p[L[y].ptr])
      && (j + 1 < |L| ==> L[j + 1].ptr in q && q[L[j + 1].ptr] == p[L[j + 1].ptr].(left := b))
  {
    assert Chained(p, L, j);
    DistinctPages(L, j);
    if j + 1 < |L| { DistinctPages(L, j + 1); }
  }

  lemma SplitOrder(L: seq<Entry>, j: nat, e: Entry)
    requires Ascending(L, 1) && Distinct(L) && j < |L| && (j > 0 ==> L[j].key < e.key) &&
      (j + 1 < |L| ==> e.key < L[j + 1].key)
    requires forall y :: 0 <= y < |L| ==> L[y].ptr != e.ptr
    ensures Ascending(InsertAt(L, j + 1, e), 1) && Distinct(InsertAt(L, j + 1, e))
  {
    var M := InsertAt(L, j + 1, e);
    AscendingKeys(L, 1);
    forall a, b | 0 <= a < b < |M| ensures Differ(M, a, b) {
      if a != j + 1 && b != j + 1 { assert Differ(L, if a <= j then a else a - 1, if b <= j then b else b - 1); }
    }
  }

  lemma SplitChain(p: Store, L: seq<Entry>, i: nat, lone: bool, rank: map<Addr, nat>, cap: nat, j: nat,
                   b: Addr, key: Key, ptr: nat, cut: Halves, q: Store, M: seq<Entry>)
    requires CanSplit(p, L, i, lone, rank, cap, j, b, key, ptr, cut) && Chained(p, L, j)
    requires q == SplitStore(p, L[j].ptr, b, cut.r, cut.nb) && M == InsertAt(L, j + 1, Entry(cut.pivot, b))
    ensures forall y :: 0 <= y < |M| ==> Chained(q, M, y)
  {
    hide Flat, Kids, SplitStore;
    SplitPages(p, L, i, lone, rank, cap, j, b, key, ptr, cut);
    forall y | 0 <= y < |M| ensures Chained(q, M, y) {
      if y <= j { assert Chained(p, L, y); } else if y > j + 1 { assert Chained(p, L, y - 1); }
    }
  }

  lemma SplitLevel(p: Store, L: seq<Entry>, i: nat, lone: bool, rank: map<Addr, nat>, cap: nat, j: nat,
                   b: Addr, key: Key, ptr: nat, cut: Halves)
    requires CanSplit(p, L, i, lone, rank, cap, j, b, key, ptr, cut)
    ensures Chained(p, L, j)
    ensures LevelOk(SplitStore(p, L[j].ptr, b, cut.r, cut.nb), InsertAt(L, j + 1, Entry(cut.pivot, b)), i, false,
        rank[b := i], cap, 0)
  {
    hide Flat, Kids, SplitStore;
    SplitPages(p, L, i, lone, rank, cap, j, b, key, ptr, cut);
    var e := Entry(cut.pivot, b);
    var L', q := InsertAt(L, j + 1, e), SplitStore(p, L[j].ptr, b, cut.r, cut.nb);
    SplitChain(p, L, i, lone, rank, cap, j, b, key, ptr, cut, q, L');
    SplitOrder(L, j, e);
    forall y | 0 <= y < |L'|
      ensures L'[y].ptr in rank[b := i] && rank[b := i][L'[y].ptr] == i && PageOk(q, L'[y], i, false, cap, 0)
    {
      if y != j + 1 { assert PageOk(p, L'[y], i, lone, cap, 0); }
    }
  }

  lemma SplitKids(p: Store, q: Store, L: seq<Entry>, L': seq<Entry>, i: nat, lone: bool, rank: map<Addr, nat>,
                  cap: nat, j: nat, b: Addr, key: Key, ptr: nat, cut: Halves, k: nat)
    requires CanSplit(p, L, i, lone, rank, cap, j, b, key, ptr, cut) && Chained(p, L, j)
    requires q == SplitStore(p, L[j].ptr, b, cut.r, cut.nb) && L' == InsertAt(L, j + 1, Entry(cut.pivot, b)) &&
      k == if i == 1 then cut.x else cut.x + 1
    ensures k <= |Kids(p, L[j])| && Kids(q, L'[j]) + Kids(q, L'[j + 1]) == InsertAt(Kids(p, L[j]), k, Entry(key, ptr))
    ensures L'[..j] == L[..j] && L'[j + 2..] == L[j + 1..]
    ensures forall y :: 0 <= y < |L| && y != j ==> Kids(q, L[y]) == Kids(p, L[y])
  {
    SplitPages(p, L, i, lone, rank, cap, j, b, key, ptr, cut);
    assert p[L[j].ptr].IsLeaf() <==> i == 1;
    assert Kids(q, L'[j]) == KidsOf(L[j].key, cut.r) && Kids(q, L'[j + 1]) == KidsOf(cut.pivot, cut.nb);
  }

  /** The level below a split page gains exactly the new entry. */
  lemma SplitFlat(p: Store, q: Store, L: seq<Entry>, L': seq<Entry>, i: nat, lone: bool, rank: map<Addr, nat>,
                  cap: nat, j: nat, b: Addr, key: Key, ptr: nat, cut: Halves, k: nat)
    requires CanSplit(p, L, i, lone, rank, cap, j, b, key, ptr, cut) && Chained(p, L, j)
    requires q == SplitStore(p, L[j].ptr, b, cut.r, cut.nb) && L' == InsertAt(L, j + 1, Entry(cut.pivot, b)) &&
      k == if i == 1 then cut.x else cut.x + 1
    ensures Off(p, L, j) + k <= |All(p, L)| && All(q, L') == InsertAt(All(p, L), Off(p, L, j) + k, Entry(key, ptr))
  {
    hide Flat, Kids, LevelOk;
    var A, K, B := Flat(p, L, 0, j), Kids(p, L[j]), Flat(p, L, j + 1, |L|);
    SplitKids(p, q, L, L', i, lone, rank, cap, j, b, key, ptr, cut, k);
    TwoPages(p, q, L, L', j);
    FlatAt(p, L, j);
    InsertMiddle(A, K, B, k, Entry(key, ptr));
  }

  /** Kids of a level in which one page became two. */
  lemma TwoPages(p: Store, q: Store, L: seq<Entry>, L': seq<Entry>, j: nat)
    requires j < |L| && |L'| == |L| + 1 && L'[..j] == L[..j] && L'[j + 2..] == L[j + 1..]
    requires forall y :: 0 <= y < |L| && y != j ==> Kids(q, L[y]) == Kids(p, L[y])
    ensures All(q, L') == Flat(p, L, 0, j) + (Kids(q, L'[j]) + Kids(q, L'[j + 1])) + Flat(p, L, j + 1, |L|)
  {
    hide Flat, Kids;
    assert L'[0..j] == L[0..j];
    FlatKeep(p, q, L, 0, j);
    FlatKeep(p, q, L, j + 1, |L|);
    FlatShift(q, L, 0, j, L', 0);
    FlatShift(q, L, j + 1, |L|, L', j + 2);
    FlatTwo(q, L', j);
  }
}
