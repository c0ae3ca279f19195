/** The tree stays well formed when an entry goes into a page, with or without a split. */
module TreeInsert {
  import opened Collections
  import opened BtreeNode
  import opened BtreeLevels
  import opened NodeInsert
  import opened LevelChange
  import opened LevelSplit
  import opened BtreeBackend

  ghost predicate Present(C: seq<Entry>, key: Key) {
    exists o :: 0 <= o < |C| && C[o].key == key
  }

  lemma PutPage(p: Store, q: Store, L: seq<Entry>, M: seq<Entry>, i: nat, lone: bool, rank: map<Addr, nat>, cap: nat,
                j: nat, x: nat, e: Entry)
    requires LevelOk(p, L, i, lone, rank, cap, 0) && j < |L| && x <= p[L[j].ptr].count < cap
    requires M == All(p, L) && q == p[L[j].ptr := WithEntry(p[L[j].ptr], x, e)]
    ensures LevelOk(q, L, i, lone, rank, cap, 0)
    ensures i == 1 ==> Off(p, L, j) + x <= |M| && All(q, L) == InsertAt(M, Off(p, L, j) + x, e)
    ensures i > 1 ==> Off(p, L, j) + x + 1 <= |M| && All(q, L) == InsertAt(M, Off(p, L, j) + x + 1, e)
  {
    hide Flat;
    var n := p[L[j].ptr];
    var r := WithEntry(n, x, e);
    PageChange(p, L, i, lone, rank, cap, 0, j, r, 0);
    PageFlat(p, L, j, r);
    WithEntryKids(n, x, e, L[j].key);
    FlatAt(p, L, j);
    InsertMiddle(Flat(p, L, 0, j), Kids(p, L[j]), Flat(p, L, j + 1, |L|), if i == 1 then x else x + 1, e);
  }

  /** The slot found inside the right leaf is the place of the key in the whole sequence. */
  lemma EntryPlace(p: Store, s: Shape, cap: nat, j: nat, key: Key, x: nat)
    requires Low(p, s, cap, 0, 1) && InRange(s.levels[1], j, key) && (s.lone ==> |s.levels[1]| == 1)
    requires PutSlot(p[s.levels[1][j].ptr], key, x)
    ensures var o := Off(p, s.levels[1], j) + x; var C := s.levels[0];
      o <= |C| && (forall y :: 0 <= y < o ==> C[y].key < key) && (forall y :: o <= y < |C| ==> key < C[y].key)
  {
    var n := p[s.levels[1][j].ptr];
    AroundLeaf(p, s, cap, j, key);
    AscendingKeys(s.levels[0], 0);
    LeafOff(p, s, cap, 0, j);
    if x > 0 { LeafItem(p, s, cap, 0, j, x - 1); }
    if x < n.count { LeafItem(p, s, cap, 0, j, x); }
  }

  lemma InsertOrder(C: seq<Entry>, o: nat, e: Entry)
    requires Ascending(C, 0) && o <= |C| && (forall y :: 0 <= y < o ==> C[y].key < e.key) &&
      (forall y :: o <= y < |C| ==> e.key < C[y].key)
    ensures Ascending(InsertAt(C, o, e), 0)
  {
    AscendingKeys(C, 0);
  }

  function WithLevel(s: Shape, i: nat, L: seq<Entry>): Shape
    requires i < |s.levels|
  {
    s.(levels := s.levels[i := L])
  }

  lemma LeafPutEntries(p: Store, q: Store, s: Shape, cap: nat, j: nat, e: Entry, x: nat, o: nat)
    requires Low(p, s, cap, 0, 1) && InRange(s.levels[1], j, e.key) && (s.lone ==> |s.levels[1]| == 1)
    requires PutSlot(p[s.levels[1][j].ptr], e.key, x) && p[s.levels[1][j].ptr].count < cap
    requires q == p[s.levels[1][j].ptr := WithEntry(p[s.levels[1][j].ptr], x, e)]
    requires o == Off(p, s.levels[1], j) + x
    ensures LevelOk(q, s.levels[1], 1, s.lone, s.rank, cap, 0)
    ensures o <= |s.levels[0]| && EntriesOk(q, InsertAt(s.levels[0], o, e), s.levels[1])
  {
    hide Flat;
    assert o <= |s.levels[0]| && Ascending(InsertAt(s.levels[0], o, e), 0) by {
      EntryPlace(p, s, cap, j, e.key, x);
      InsertOrder(s.levels[0], o, e);
    }
    assert LevelOk(q, s.levels[1], 1, s.lone, s.rank, cap, 0) && All(q, s.levels[1]) == InsertAt(s.levels[0], o, e) by {
      PutPage(p, q, s.levels[1], s.levels[0], 1, s.lone, s.rank, cap, j, x, e);
    }
    LeafPutBounds(p, q, s.levels[1], s.lone, s.rank, cap, j, x, e);
  }

  /** __insert_nosplit in a leaf. */
  lemma LeafPut(p: Store, q: Store, s: Shape, cap: nat, hi: nat, j: nat, e: Entry, x: nat, o: nat)
    requires Low(p, s, cap, 0, hi) && InRange(s.levels[1], j, e.key) && (s.lone ==> |s.levels[1]| == 1)
    requires PutSlot(p[s.levels[1][j].ptr], e.key, x) && p[s.levels[1][j].ptr].count < cap
    requires q == p[s.levels[1][j].ptr := WithEntry(p[s.levels[1][j].ptr], x, e)]
    requires o == Off(p, s.levels[1], j) + x
    ensures o <= |s.levels[0]| && Low(q, WithLevel(s, 0, InsertAt(s.levels[0], o, e)), cap, 0, hi)
  {
    LeafPutEntries(p, q, s, cap, j, e, x, o);
    LeafChanged(p, q, s, InsertAt(s.levels[0], o, e), cap, 0, 0, hi);
  }

  /** A key is in the tree exactly when it is in the leaf that covers it. */
  lemma PresentInLeaf(p: Store, s: Shape, cap: nat, j: nat, key: Key)
    requires Low(p, s, cap, 0, 1) && InRange(s.levels[1], j, key) && (s.lone ==> |s.levels[1]| == 1)
    ensures HasKey(p[s.levels[1][j].ptr], key) <==> Present(s.levels[0], key)
  {
    var L, C := s.levels[1], s.levels[0];
    var n := p[L[j].ptr];
    AroundLeaf(p, s, cap, j, key);
    LeafOff(p, s, cap, 0, j);
    if HasKey(n, key) {
      var x :| 0 <= x < n.count && n.slots[x].key == key;
      LeafItem(p, s, cap, 0, j, x);
    }
    if Present(C, key) {
      var o :| 0 <= o < |C| && C[o].key == key;
      LeafItem(p, s, cap, 0, j, o - Off(p, L, j));
    }
  }

  /** Only the leaf level and the entries changed. */
  lemma LeafChanged(p: Store, q: Store, s: Shape, C: seq<Entry>, cap: nat, hole: Addr, hole': Addr, hi: nat)
    requires Low(p, s, cap, hole, hi) && (hole == hole' || hole == 0 || (hole in s.rank && s.rank[hole] == 1))
    requires LevelOk(q, s.levels[1], 1, s.lone, s.rank, cap, hole') && EntriesOk(q, C, s.levels[1])
    requires SamePages(p, s.rank, q, s.rank, 2, hi)
    ensures Low(q, WithLevel(s, 0, C), cap, hole', hi)
  {
    var t := WithLevel(s, 0, C);
    if hi > 1 {
      KeepRange(p, s, q, t, cap, hole', 2, hi);
      assert Linked(p, s.levels, 2);
      assert Linked(q, t.levels, 2);
    }
    Assemble(q, t, cap, hole', 1, hi);
  }

  /** Replacing the record of a leaf entry. */
  lemma LeafWrite(p: Store, q: Store, s: Shape, cap: nat, hi: nat, j: nat, ptr: nat, x: nat, o: nat)
    requires Low(p, s, cap, 0, hi) && j < |s.levels[1]| && x < p[s.levels[1][j].ptr].count &&
      o == Off(p, s.levels[1], j) + x
    requires var n := p[s.levels[1][j].ptr];
      q == p[s.levels[1][j].ptr := n.(slots := n.slots[x := Entry(n.slots[x].key, ptr)])]
    ensures o < |s.levels[0]| && s.levels[0][o].key == p[s.levels[1][j].ptr].slots[x].key
    ensures Low(q, WithLevel(s, 0, s.levels[0][o := Entry(s.levels[0][o].key, ptr)]), cap, 0, hi)
  {
    var L, C := s.levels[1], s.levels[0];
    LeafItem(p, s, cap, 0, j, x);
    var e := Entry(C[o].key, ptr);
    WritePage(p, q, L, C, s.lone, s.rank, cap, j, x, e, o);
    LeafChanged(p, q, s, C[o := e], cap, 0, 0, hi);
  }

  lemma WritePage(p: Store, q: Store, L: seq<Entry>, C: seq<Entry>, lone: bool, rank: map<Addr, nat>, cap: nat, j: nat,
                  x: nat, e: Entry, o: nat)
    requires LevelOk(p, L, 1, lone, rank, cap, 0) && EntriesOk(p, C, L) && j < |L| && x < p[L[j].ptr].count
    requires e.key == p[L[j].ptr].slots[x].key && o == Off(p, L, j) + x < |C| && C[o].key == e.key
    requires var n := p[L[j].ptr]; q == p[L[j].ptr := n.(slots := n.slots[x := e])]
    ensures LevelOk(q, L, 1, lone, rank, cap, 0) && EntriesOk(q, C[o := e], L)
  {
    var n := p[L[j].ptr];
    var r := n.(slots := n.slots[x := e]);
    PageChange(p, L, 1, lone, rank, cap, 0, j, r, 0);
    assert C[o := e] == All(q, L) by {
      PageFlat(p, L, j, r);
      FlatAt(p, L, j);
      assert KidsOf(L[j].key, r) == Kids(p, L[j])[x := e];
      UpdateMiddle(Flat(p, L, 0, j), Kids(p, L[j]), Flat(p, L, j + 1, |L|), x, e);
    }
    LeafWriteEntries(p, q, L, C, C[o := e], lone, rank, cap, j, r);
  }

  lemma UpdateMiddle(A: seq<Entry>, K: seq<Entry>, B: seq<Entry>, x: nat, e: Entry)
    requires x < |K|
    ensures A + K[x := e] + B == (A + K + B)[|A| + x := e]
  {
  }

  lemma LeafWriteEntries(p: Store, q: Store, L: seq<Entry>, C: seq<Entry>, C': seq<Entry>, lone: bool, rank: map<Addr,
                         nat>, cap: nat, j: nat, r: Node)
    requires EntriesOk(p, C, L) && LevelOk(p, L, 1, lone, rank, cap, 0) && j < |L| && |C'| == |C| && C' == All(q, L)
    requires forall y :: 0 <= y < |C| ==> C'[y].key == C[y].key
    requires q == p[L[j].ptr := r] && r.IsLeaf() && r.count == p[L[j].ptr].count && |r.slots| == cap
    requires forall y :: 0 <= y < r.count ==> r.slots[y].key == p[L[j].ptr].slots[y].key
    ensures EntriesOk(q, C', L)
  {
    forall a, b | 0 <= a < b < |C'| ensures Below(C', a, b) { assert Below(C, a, b); }
    DistinctPages(L, j);
    forall y | 0 <= y < |L| ensures InBounds(q, L, y) {
      assert InBounds(p, L, y);
      assert y != j ==> Kids(q, L[y]) == Kids(p, L[y]);
      assert y == j ==> forall z :: 0 <= z < r.count ==> Kids(q, L[j])[z].key == Kids(p, L[j])[z].key;
    }
  }

  lemma LeafPutBounds(p: Store, q: Store, L: seq<Entry>, lone: bool, rank: map<Addr, nat>, cap: nat, j: nat, x: nat,
                      e: Entry)
    requires LevelOk(p, L, 1, lone, rank, cap, 0) && InRange(L, j, e.key) && x <= p[L[j].ptr].count < cap
    requires forall y :: 0 <= y < |L| ==> InBounds(p, L, y)
    requires q == p[L[j].ptr := WithEntry(p[L[j].ptr], x, e)]
    ensures forall y :: 0 <= y < |L| ==> InBounds(q, L, y)
  {
    var n := p[L[j].ptr];
    WithEntryKids(n, x, e, L[j].key);
    DistinctPages(L, j);
    forall y | 0 <= y < |L| ensures InBounds(q, L, y) {
      assert InBounds(p, L, y);
      assert y != j ==> Kids(q, L[y]) == Kids(p, L[y]);
      assert y == j ==> Kids(q, L[y]) == InsertAt(Kids(p, L[j]), x, e);
    }
  }

  /** __insert_nosplit in an internal page: the level below already has the new page. */
  lemma InnerPut(p: Store, s: Shape, cap: nat, i: nat, hi: nat, j: nat, x: nat, e: Entry)
    requires 2 <= i <= hi && Low(p, s, cap, 0, i - 1) && Good(p, s, cap, 0, i, hi)
    requires j < |s.levels[i]| && x <= p[s.levels[i][j].ptr].count < cap
    requires var y := Off(p, s.levels[i], j) + x + 1;
      y <= |All(p, s.levels[i])| && s.levels[i - 1] == InsertAt(All(p, s.levels[i]), y, e)
    ensures Low(p[s.levels[i][j].ptr := WithEntry(p[s.levels[i][j].ptr], x, e)], s, cap, 0, hi)
  {
    var L := s.levels[i];
    var q := p[L[j].ptr := WithEntry(p[L[j].ptr], x, e)];
    PutPage(p, q, L, All(p, L), i, s.lone, s.rank, cap, j, x, e);
    KeepEntries(p, s, q, s, cap, 0, i - 1);
    if i < hi {
      assert Good(p, s, cap, 0, i + 1, hi);
      KeepRange(p, s, q, s, cap, 0, i + 1, hi);
      assert Linked(p, s.levels, i + 1);
    }
    Assemble(q, s, cap, 0, i, hi);
  }

  /** The leaves after a split keep their keys between their separators. */
  lemma SplitBounds(p: Store, q: Store, L: seq<Entry>, L': seq<Entry>, lone: bool, rank: map<Addr, nat>, cap: nat,
                    j: nat, b: Addr, key: Key, ptr: nat, cut: Halves)
    requires CanSplit(p, L, 1, lone, rank, cap, j, b, key, ptr, cut) && InRange(L, j, key)
    requires Chained(p, L, j) && q == SplitStore(p, L[j].ptr, b, cut.r, cut.nb)
    requires forall y :: 0 <= y < |L| ==> InBounds(p, L, y)
    requires L' == InsertAt(L, j + 1, Entry(cut.pivot, b))
    ensures forall y :: 0 <= y < |L'| ==> InBounds(q, L', y)
  {
    hide Flat, Kids, SplitStore, LevelOk, SplitOk;
    var A, B := Kids(q, L'[j]), Kids(q, L'[j + 1]);
    LeafHalves(p, q, L, L', lone, rank, cap, j, b, key, ptr, cut, A, B);
    SplitKids(p, q, L, L', 1, lone, rank, cap, j, b, key, ptr, cut, cut.x);
    var K := InsertAt(Kids(p, L[j]), cut.x, Entry(key, ptr));
    AllBounded(p, L, j, cut.x, Entry(key, ptr), K);
    Joined(K, A, B);
    forall y | 0 <= y < |L'| ensures InBounds(q, L', y) {
      if y < j { assert InBounds(p, L, y); }
      if y > j + 1 { assert InBounds(p, L, y - 1); }
    }
  }

  lemma AllBounded(p: Store, L: seq<Entry>, j: nat, x: nat, e: Entry, K: seq<Entry>)
    requires j < |L| && InBounds(p, L, j) && InRange(L, j, e.key) && x <= |Kids(p, L[j])| &&
      K == InsertAt(Kids(p, L[j]), x, e)
    ensures forall y :: 0 <= y < |K| && j > 0 ==> L[j].key <= K[y].key
    ensures forall y :: 0 <= y < |K| && j + 1 < |L| ==> K[y].key < L[j + 1].key
  {
    hide Kids, InsertAt;
  }

  lemma Joined(K: seq<Entry>, A: seq<Entry>, B: seq<Entry>)
    requires K == A + B
    ensures forall y :: 0 <= y < |A| ==> A[y] == K[y]
    ensures forall y :: 0 <= y < |B| ==> B[y] == K[|A| + y]
  {
  }

  /** The keys of the two halves of a leaf lie on their side of the pivot. */
  lemma LeafHalves(p: Store, q: Store, L: seq<Entry>, L': seq<Entry>, lone: bool, rank: map<Addr, nat>, cap: nat,
                   j: nat, b: Addr, key: Key, ptr: nat, cut: Halves, A: seq<Entry>, B: seq<Entry>)
    requires CanSplit(p, L, 1, lone, rank, cap, j, b, key, ptr, cut)
    requires Chained(p, L, j) && q == SplitStore(p, L[j].ptr, b, cut.r, cut.nb) &&
      L' == InsertAt(L, j + 1, Entry(cut.pivot, b))
    requires A == Kids(q, L'[j]) && B == Kids(q, L'[j + 1])
    ensures forall y :: 0 <= y < |A| ==> A[y].key < cut.pivot
    ensures forall y :: 0 <= y < |B| ==> cut.pivot <= B[y].key
    ensures |Kids(p, L[j])| == p[L[j].ptr].count && cut.x <= |Kids(p, L[j])|
  {
    hide Flat, SplitStore;
    SplitPages(p, L, 1, lone, rank, cap, j, b, key, ptr, cut);
    assert p[L[j].ptr].IsLeaf();
    assert A == cut.r.slots[..cut.r.count] && B == cut.nb.slots[..cut.nb.count];
  }

  function AfterSplit(s: Shape, i: nat, j: nat, pivot: Key, b: Addr): Shape
    requires i < |s.levels| && j < |s.levels[i]|
  {
    Shape(s.levels[i := InsertAt(s.levels[i], j + 1, Entry(pivot, b))], s.rank[b := i], false)
  }

  /** __insert_split of a leaf. */
  lemma LeafSplit(p: Store, q: Store, s: Shape, t: Shape, cap: nat, j: nat,
                  b: Addr, key: Key, ptr: nat, cut: Halves, o: nat)
    requires Low(p, s, cap, 0, 1) && InRange(s.levels[1], j, key)
    requires CanSplit(p, s.levels[1], 1, s.lone, s.rank, cap, j, b, key, ptr, cut)
    requires Chained(p, s.levels[1], j) && q == SplitStore(p, s.levels[1][j].ptr, b, cut.r, cut.nb)
    requires o == Off(p, s.levels[1], j) + cut.x <= |s.levels[0]|
    requires t == AfterSplit(WithLevel(s, 0, InsertAt(s.levels[0], o, Entry(key, ptr))), 1, j, cut.pivot, b)
    ensures Low(q, t, cap, 0, 1)
  {
    var L := s.levels[1];
    SplitLevel(p, L, 1, s.lone, s.rank, cap, j, b, key, ptr, cut);
    assert t.levels[0] == All(q, t.levels[1]) by {
      SplitFlat(p, q, L, t.levels[1], 1, s.lone, s.rank, cap, j, b, key, ptr, cut, cut.x);
    }
    assert Ascending(t.levels[0], 0) by {
      EntryPlace(p, s, cap, j, key, cut.x);
      InsertOrder(s.levels[0], o, Entry(key, ptr));
    }
    SplitBounds(p, q, L, t.levels[1], s.lone, s.rank, cap, j, b, key, ptr, cut);
    Assemble(q, t, cap, 0, 1, 1);
  }

  /** __insert_split of an internal page: the level below already has the new page. */
  lemma InnerSplit(p: Store, q: Store, s: Shape, t: Shape, cap: nat, i: nat, j: nat,
                   b: Addr, key: Key, ptr: nat, cut: Halves)
    requires 2 <= i < |s.levels| && Low(p, s, cap, 0, i - 1)
    requires CanSplit(p, s.levels[i], i, s.lone, s.rank, cap, j, b, key, ptr, cut) && !s.lone
    requires Chained(p, s.levels[i], j) && q == SplitStore(p, s.levels[i][j].ptr, b, cut.r, cut.nb)
    requires var o := Off(p, s.levels[i], j) + cut.x + 1;
      o <= |All(p, s.levels[i])| && s.levels[i - 1] == InsertAt(All(p, s.levels[i]), o, Entry(key, ptr))
    requires t == AfterSplit(s, i, j, cut.pivot, b)
    ensures Low(q, t, cap, 0, i)
  {
    hide Flat, LevelOk, SamePages;
    var L := s.levels[i];
    SplitLevel(p, L, i, s.lone, s.rank, cap, j, b, key, ptr, cut);
    assert Linked(q, t.levels, i) by {
      SplitFlat(p, q, L, t.levels[i], i, s.lone, s.rank, cap, j, b, key, ptr, cut, cut.x + 1);
    }
    SplitKeeps(p, q, s, t, cap, i, j, b, key, ptr, cut);
    KeepEntries(p, s, q, t, cap, 0, i - 1);
    Assemble(q, t, cap, 0, i, i);
  }

  /** Pages of other heights are not touched by a split. */
  lemma SplitKeeps(p: Store, q: Store, s: Shape, t: Shape, cap: nat, i: nat, j: nat,
                   b: Addr, key: Key, ptr: nat, cut: Halves)
    requires 1 <= i < |s.levels| && CanSplit(p, s.levels[i], i, s.lone, s.rank, cap, j, b, key, ptr, cut)
    requires Chained(p, s.levels[i], j) && q == SplitStore(p, s.levels[i][j].ptr, b, cut.r, cut.nb) &&
      t.rank == s.rank[b := i]
    ensures SamePages(p, s.rank, q, t.rank, 1, i - 1) && SamePages(p, s.rank, q, t.rank, i + 1, |s.levels| - 1)
  {
  }
}
