/** Where the separator to the left of a page is stored: in the lowest ancestor for which the page
    is not on the leftmost path (the `lanchor`/`ranchor` pages of src/btree_erase.cc). */
module Anchors {
  import opened BtreeNode
  import opened BtreeLevels
  import opened LevelChange
  import opened NodeErase

  /** The page among `L[..n]` that has kid number `x`. */
  ghost function ParentIx(p: Store, L: seq<Entry>, n: nat, x: nat): (m: nat)
    requires n <= |L| && x < Off(p, L, n)
    ensures m < n && Off(p, L, m) <= x < Off(p, L, m + 1)
  {
    if Off(p, L, n - 1) <= x then n - 1 else ParentIx(p, L, n - 1, x)
  }

  lemma ParentIs(p: Store, L: seq<Entry>, x: nat, m: nat)
    requires m < |L| && Off(p, L, m) <= x < Off(p, L, m + 1) && x < Off(p, L, |L|)
    ensures ParentIx(p, L, |L|, x) == m
  {
    var m' := ParentIx(p, L, |L|, x);
    if m' < m { OffMono(p, L, m' + 1, m); }
    if m < m' { OffMono(p, L, m + 1, m'); }
  }

  /** The page and slot holding the separator left of page `j` of level `i`. */
  ghost function Anchor(p: Store, s: Shape, i: nat, j: nat): (Addr, nat)
    decreases |s.levels| - i
  {
    if i + 1 >= |s.levels| || j >= Off(p, s.levels[i + 1], |s.levels[i + 1]|) then (0, 0)
    else
      var M := s.levels[i + 1];
      var m := ParentIx(p, M, |M|, j);
      if j > Off(p, M, m) then (M[m].ptr, j - Off(p, M, m) - 1) else Anchor(p, s, i + 1, m)
  }

  ghost predicate Upper(p: Store, s: Shape, cap: nat, hole: Addr, i: nat) {
    1 <= i < |s.levels| && Good(p, s, cap, hole, i, |s.levels| - 1) && |s.levels[|s.levels| - 1]| == 1
  }

  lemma UpperParent(p: Store, s: Shape, cap: nat, hole: Addr, i: nat, j: nat)
    requires Upper(p, s, cap, hole, i) && 0 < j < |s.levels[i]|
    ensures i + 1 < |s.levels| && Upper(p, s, cap, hole, i + 1) && Good(p, s, cap, hole, i, i + 1)
    ensures Off(p, s.levels[i + 1], |s.levels[i + 1]|) == |s.levels[i]|
  {
    assert Linked(p, s.levels, i + 1);
    var M := s.levels[i + 1];
    FlatAt(p, M, |M| - 1);
  }

  /** What is known about the anchor of page `j`: it holds the separator, and the keys next to it
      are not closer than the separators of the neighbouring pages. */
  ghost predicate AnchorOk(p: Store, s: Shape, i: nat, j: nat, a: Addr, t: nat) {
    && i < |s.levels| && 0 < j < |s.levels[i]|
    && a != 0 && a in p && a in s.rank && s.rank[a] > i
    && t < p[a].count <= |p[a].slots| && SortedSlots(p[a])
    && var L := s.levels[i];
    && p[a].slots[t].key == L[j].key
    && (t + 1 < p[a].count ==> j + 1 < |L| && L[j + 1].key <= p[a].slots[t + 1].key)
    && (t > 0 ==> j >= 2 && p[a].slots[t - 1].key <= L[j - 1].key)
  }

  lemma OffZero(p: Store, L: seq<Entry>, m: nat)
    requires m < |L| && Off(p, L, m) > 0
    ensures m > 0
  {
  }

  lemma LevelAscends(p: Store, s: Shape, cap: nat, hole: Addr, i: nat)
    requires 1 <= i && Good(p, s, cap, hole, i, i + 1)
    ensures Ascending(s.levels[i], 1)
  {
  }

  lemma {:induction false} AnchorFacts(p: Store, s: Shape, cap: nat, hole: Addr, i: nat, j: nat)
    requires Upper(p, s, cap, hole, i) && 0 < j < |s.levels[i]|
    ensures AnchorOk(p, s, i, j, Anchor(p, s, i, j).0, Anchor(p, s, i, j).1)
    decreases |s.levels| - i
  {
    hide Good, AnchorOk, Flat, LevelOk;
    UpperParent(p, s, cap, hole, i, j);
    var M := s.levels[i + 1];
    var m := ParentIx(p, M, |M|, j);
    if j > Off(p, M, m) {
      AnchorInParent(p, s, cap, hole, i, j, m);
    } else {
      OffZero(p, M, m);
      AnchorFacts(p, s, cap, hole, i + 1, m);
      AnchorAboveParent(p, s, cap, hole, i, j, m, Anchor(p, s, i + 1, m).0, Anchor(p, s, i + 1, m).1);
    }
  }

  lemma AnchorInParent(p: Store, s: Shape, cap: nat, hole: Addr, i: nat, j: nat, m: nat)
    requires 1 <= i < |s.levels| - 1 && Good(p, s, cap, hole, i, i + 1) && m < |s.levels[i + 1]| && j < |s.levels[i]|
    requires Off(p, s.levels[i + 1], m) < j < Off(p, s.levels[i + 1], m + 1)
    ensures AnchorOk(p, s, i, j, s.levels[i + 1][m].ptr, j - Off(p, s.levels[i + 1], m) - 1)
  {
    hide Flat;
    var t := j - Off(p, s.levels[i + 1], m) - 1;
    var n := p[s.levels[i + 1][m].ptr];
    NextOff(p, s, cap, hole, i + 1, m);
    PageKeys(p, s, cap, hole, i + 1, m);
    SlotKid(p, s, cap, hole, i + 1, m, t);
    if t + 1 < n.count { SlotKid(p, s, cap, hole, i + 1, m, t + 1); }
    if t > 0 { SlotKid(p, s, cap, hole, i + 1, m, t - 1); }
  }

  lemma AnchorAboveParent(p: Store, s: Shape, cap: nat, hole: Addr, i: nat, j: nat, m: nat, a: Addr, t: nat)
    requires 1 <= i < |s.levels| - 1 && Good(p, s, cap, hole, i, i + 1) && 0 < m < |s.levels[i + 1]| &&
      j < |s.levels[i]|
    requires j == Off(p, s.levels[i + 1], m) && AnchorOk(p, s, i + 1, m, a, t)
    ensures AnchorOk(p, s, i, j, a, t)
  {
    hide Flat, Good, LevelOk;
    LevelAscends(p, s, cap, hole, i);
    var L, M := s.levels[i], s.levels[i + 1];
    FirstKid(p, s, cap, hole, i + 1, m);
    NextOff(p, s, cap, hole, i + 1, m);
    if m + 1 < |M| && Off(p, M, m + 1) > j + 1 { assert Below(L, j + 1, Off(p, M, m + 1)); }
    if m >= 2 {
      FirstKid(p, s, cap, hole, i + 1, m - 1);
      NextOff(p, s, cap, hole, i + 1, m - 1);
      if Off(p, M, m - 1) < j - 1 { assert Below(L, Off(p, M, m - 1), j - 1); }
    }
  }

  /** Keys on either side of the separator are found next to it in the anchor. */
  lemma AnchorSlots(p: Store, s: Shape, i: nat, j: nat, a: Addr, t: nat, key: Key)
    requires AnchorOk(p, s, i, j, a, t)
    ensures s.levels[i][j].key <= key && (j + 1 < |s.levels[i]| ==> key < s.levels[i][j + 1].key) ==>
      IsSlot(p[a], key, t)
    ensures key < s.levels[i][j].key && (j >= 2 ==> s.levels[i][j - 1].key <= key) ==> IsSlot(p[a], key, t - 1)
  {
  }

  // ------------------------------------------------------------------------------ moving a separator

  /** `key` may become the separator left of page `j`. */
  ghost predicate Between(L: seq<Entry>, j: nat, key: Key) {
    && 0 < j < |L|
    && (j >= 2 ==> L[j - 1].key < key)
    && (j + 1 < |L| ==> key < L[j + 1].key)
  }

  function WithKey(L: seq<Entry>, j: nat, key: Key): seq<Entry>
    requires j < |L|
  {
    L[j := Entry(key, L[j].ptr)]
  }

  lemma WithKeyOrder(L: seq<Entry>, j: nat, key: Key)
    requires Ascending(L, 1) && Distinct(L) && Between(L, j, key)
    ensures Ascending(WithKey(L, j, key), 1) && Distinct(WithKey(L, j, key))
  {
    var L' := WithKey(L, j, key);
    AscendingKeys(L, 1);
    forall a, b | 1 <= a < b < |L'| ensures Below(L', a, b) {}
    forall a, b | 0 <= a < b < |L'| ensures Differ(L', a, b) { assert Differ(L, a, b); }
  }

  /** Pages of a level do not depend on the separators between them. */
  lemma WithKeyLevel(p: Store, q: Store, L: seq<Entry>, i: nat, lone: bool, rank: map<Addr, nat>, cap: nat, hole: Addr,
                     j: nat, key: Key)
    requires LevelOk(p, L, i, lone, rank, cap, hole) && Between(L, j, key)
    requires forall x :: 0 <= x < |L| ==> L[x].ptr in q && q[L[x].ptr] == p[L[x].ptr]
    ensures LevelOk(q, WithKey(L, j, key), i, lone, rank, cap, hole)
  {
    var L' := WithKey(L, j, key);
    WithKeyOrder(L, j, key);
    forall x | 0 <= x < |L'| ensures Chained(q, L', x) { assert Chained(p, L, x); }
  }

  lemma {:induction false} WithKeyFlat(p: Store, q: Store, L: seq<Entry>, j: nat, key: Key)
    requires 0 < j < |L| && (forall x :: 0 <= x < |L| ==> Kids(q, L[x]) == Kids(p, L[x]))
    requires L[j].ptr in q && !q[L[j].ptr].IsLeaf() && q[L[j].ptr].count <= |q[L[j].ptr].slots|
    ensures Off(p, L, j) < |All(p, L)| && All(q, WithKey(L, j, key)) == WithKey(All(p, L), Off(p, L, j), key)
  {
    hide Flat, Kids;
    var L' := WithKey(L, j, key);
    var A, B := Flat(p, L, 0, j), Flat(p, L, j + 1, |L|);
    FlatKeep(p, q, L, 0, j);
    FlatKeep(p, q, L, j + 1, |L|);
    assert L'[0..j] == L[0..j] && L'[j + 1..|L|] == L[j + 1..|L|];
    FlatShift(q, L, 0, j, L', 0);
    FlatShift(q, L, j + 1, |L|, L', j + 1);
    FlatAt(p, L, j);
    FlatAt(q, L', j);
    WithKeyKids(q, L[j], key);
    WithKeyMiddle(A, Kids(p, L[j]), B, key);
  }

  lemma WithKeyKids(q: Store, e: Entry, key: Key)
    requires e.ptr in q && !q[e.ptr].IsLeaf() && q[e.ptr].count <= |q[e.ptr].slots|
    ensures |Kids(q, e)| > 0 && Kids(q, Entry(key, e.ptr)) == WithKey(Kids(q, e), 0, key)
  {
  }

  lemma WithKeyMiddle(A: seq<Entry>, K: seq<Entry>, B: seq<Entry>, key: Key)
    requires |K| > 0
    ensures A + WithKey(K, 0, key) + B == WithKey(A + K + B, |A|, key)
  {
  }

  /** Levels above `i` follow from those above `i + 1`. */
  lemma UpperCons(q: Store, t: Shape, cap: nat, hole: Addr, i: nat)
    requires 1 <= i && Upper(q, t, cap, hole, i + 1) && Linked(q, t.levels, i + 1)
    requires LevelOk(q, t.levels[i], i, t.lone, t.rank, cap, hole)
    ensures Upper(q, t, cap, hole, i)
  {
  }

  /** The pages after my_replace_key on slot `x` of page `a`. */
  function RekeyPage(p: Store, a: Addr, x: nat, key: Key): Store
    requires a in p && x < p[a].count <= |p[a].slots|
  {
    p[a := Rekeyed(p[a], x, key)]
  }

  /** Replacing the key in slot `x` of an internal page changes the separator of that kid. */
  lemma RekeyedFlat(p: Store, L: seq<Entry>, j: nat, x: nat, key: Key)
    requires j < |L| && Distinct(L) && L[j].ptr in p && !p[L[j].ptr].IsLeaf() &&
      x < p[L[j].ptr].count <= |p[L[j].ptr].slots|
    ensures Off(p, L, j) + 1 + x < |All(p, L)|
    ensures All(RekeyPage(p, L[j].ptr, x, key), L) == WithKey(All(p, L), Off(p, L, j) + 1 + x, key)
  {
    hide Flat, Kids, KidsOf;
    var n := p[L[j].ptr];
    RekeyedKids(p, L[j], x, key);
    PageFlat(p, L, j, Rekeyed(n, x, key));
    FlatAt(p, L, j);
    WithKeyInside(Flat(p, L, 0, j), Kids(p, L[j]), Flat(p, L, j + 1, |L|), x + 1, key);
  }

  lemma RekeyedKids(p: Store, e: Entry, x: nat, key: Key)
    requires e.ptr in p && !p[e.ptr].IsLeaf() && x < p[e.ptr].count <= |p[e.ptr].slots|
    ensures x + 1 < |Kids(p, e)| && KidsOf(e.key, Rekeyed(p[e.ptr], x, key)) == WithKey(Kids(p, e), x + 1, key)
  {
  }

  lemma WithKeyInside(A: seq<Entry>, K: seq<Entry>, B: seq<Entry>, x: nat, key: Key)
    requires x < |K|
    ensures A + WithKey(K, x, key) + B == WithKey(A + K + B, |A| + x, key)
  {
  }

  ghost predicate Raised(p: Store, s: Shape, q: Store, t: Shape, cap: nat, hole: Addr, i: nat, j: nat, key: Key) {
    && i < |s.levels| == |t.levels| && t.rank == s.rank && t.lone == s.lone && j < |s.levels[i]|
    && (forall k :: 0 <= k < i ==> t.levels[k] == s.levels[k])
    && t.levels[i] == WithKey(s.levels[i], j, key)
    && t.levels[|s.levels| - 1] == s.levels[|s.levels| - 1]
    && Upper(q, t, cap, hole, i)
  }

  /** The anchor is the parent itself. */
  lemma RaiseHere(p: Store, s: Shape, cap: nat, hole: Addr, i: nat, j: nat, m: nat, x: nat, key: Key)
    requires 1 <= i && Upper(p, s, cap, hole, i + 1) && Good(p, s, cap, hole, i, i + 1)
    requires m < |s.levels[i + 1]| && Between(s.levels[i], j, key)
    requires x < p[s.levels[i + 1][m].ptr].count && j == Off(p, s.levels[i + 1], m) + 1 + x
    ensures var q := RekeyPage(p, s.levels[i + 1][m].ptr, x, key);
      Raised(p, s, q, s.(levels := s.levels[i := WithKey(s.levels[i], j, key)]), cap, hole, i, j, key)
  {
    hide Flat;
    var L, M := s.levels[i], s.levels[i + 1];
    var a := M[m].ptr;
    var q, t := RekeyPage(p, a, x, key), s.(levels := s.levels[i := WithKey(L, j, key)]);
    assert LevelOk(q, M, i + 1, s.lone, s.rank, cap, hole) by {
      PageChange(p, M, i + 1, s.lone, s.rank, cap, hole, m, Rekeyed(p[a], x, key), hole);
    }
    assert LevelOk(q, t.levels[i], i, s.lone, s.rank, cap, hole) by {
      WithKeyLevel(p, q, L, i, s.lone, s.rank, cap, hole, j, key);
    }
    assert Linked(q, t.levels, i + 1) by {
      assert Linked(p, s.levels, i + 1);
      RekeyedFlat(p, M, m, x, key);
    }
    RaiseRest(p, s, q, t, cap, hole, i, a);
  }

  lemma RaiseRest(p: Store, s: Shape, q: Store, t: Shape, cap: nat, hole: Addr, i: nat, a: Addr)
    requires 1 <= i && Upper(p, s, cap, hole, i + 1) && t.rank == s.rank && t.lone == s.lone && |t.levels| == |s.levels|
    requires SameLevels(s, t, i + 1, |s.levels| - 1)
    requires a in s.rank && s.rank[a] == i + 1 && a in p && a in q && q == p[a := q[a]]
    requires LevelOk(q, t.levels[i + 1], i + 1, s.lone, s.rank, cap, hole)
    requires LevelOk(q, t.levels[i], i, s.lone, s.rank, cap, hole) && Linked(q, t.levels, i + 1)
    ensures Upper(q, t, cap, hole, i)
  {
    hide Flat;
    if i + 2 < |s.levels| {
      KeepRange(p, s, q, t, cap, hole, i + 2, |s.levels| - 1);
      assert Linked(p, s.levels, i + 2);
      UpperCons(q, t, cap, hole, i + 1);
    }
    UpperCons(q, t, cap, hole, i);
  }

  /** The anchor is further up: the separator of the parent moves with that of its first kid. */
  lemma RaiseAbove(p: Store, s: Shape, q: Store, t: Shape, cap: nat, hole: Addr, i: nat, j: nat, m: nat, key: Key)
    returns (u: Shape)
    requires 1 <= i < |s.levels| - 1 && Good(p, s, cap, hole, i, i + 1)
    requires 0 < m < |s.levels[i + 1]| && Between(s.levels[i], j, key) && j == Off(p, s.levels[i + 1], m)
    requires Raised(p, s, q, t, cap, hole, i + 1, m, key)
    requires SamePages(p, s.rank, q, s.rank, 1, i + 1)
    ensures Raised(p, s, q, u, cap, hole, i, j, key)
  {
    hide Flat;
    var L, M := s.levels[i], s.levels[i + 1];
    u := t.(levels := t.levels[i := WithKey(L, j, key)]);
    assert LevelOk(q, u.levels[i], i, s.lone, s.rank, cap, hole) by {
      forall x | 0 <= x < |L| ensures SamePage(p, s.rank, q, s.rank, L[x].ptr) {}
      WithKeyLevel(p, q, L, i, s.lone, s.rank, cap, hole, j, key);
    }
    assert Linked(q, u.levels, i + 1) by {
      forall x | 0 <= x < |M| ensures Kids(q, M[x]) == Kids(p, M[x]) {
        assert SamePage(p, s.rank, q, s.rank, M[x].ptr);
      }
      assert SamePage(p, s.rank, q, s.rank, M[m].ptr);
      assert Linked(p, s.levels, i + 1);
      WithKeyFlat(p, q, M, m, key);
    }
    assert Upper(q, u, cap, hole, i + 1) by { KeepRange(q, t, q, u, cap, hole, i + 1, |s.levels| - 1); }
    UpperCons(q, u, cap, hole, i);
  }

  /** What the anchor is for: replacing its key moves the separator left of page `j`, at every level
      on which that separator stands. */
  lemma {:induction false} Raise(p: Store, s: Shape, cap: nat, hole: Addr, i: nat, j: nat, key: Key, a: Addr, x: nat)
    returns (t: Shape)
    requires Upper(p, s, cap, hole, i) && Between(s.levels[i], j, key) && Anchor(p, s, i, j) == (a, x)
    ensures AnchorOk(p, s, i, j, a, x) && Raised(p, s, RekeyPage(p, a, x, key), t, cap, hole, i, j, key)
    decreases |s.levels| - i
  {
    hide Flat, Good, LevelOk, Raised, SamePages;
    AnchorFacts(p, s, cap, hole, i, j);
    UpperParent(p, s, cap, hole, i, j);
    var L, M := s.levels[i], s.levels[i + 1];
    var m := ParentIx(p, M, |M|, j);
    NextOff(p, s, cap, hole, i + 1, m);
    if j > Off(p, M, m) {
      t := s.(levels := s.levels[i := WithKey(L, j, key)]);
      RaiseHere(p, s, cap, hole, i, j, m, x, key);
    } else {
      BetweenAbove(p, s, cap, hole, i, j, m, key);
      OffZero(p, M, m);
      var t1 := Raise(p, s, cap, hole, i + 1, m, key, a, x);
      RekeySame(p, s.rank, a, x, key, i + 1);
      t := RaiseAbove(p, s, RekeyPage(p, a, x, key), t1, cap, hole, i, j, m, key);
    }
  }

  lemma RekeySame(p: Store, rank: map<Addr, nat>, a: Addr, x: nat, key: Key, hi: nat)
    requires a in p && x < p[a].count <= |p[a].slots| && a in rank && rank[a] > hi
    ensures SamePages(p, rank, RekeyPage(p, a, x, key), rank, 1, hi)
  {
  }

  lemma BetweenAbove(p: Store, s: Shape, cap: nat, hole: Addr, i: nat, j: nat, m: nat, key: Key)
    requires 1 <= i < |s.levels| - 1 && Good(p, s, cap, hole, i, i + 1) && m < |s.levels[i + 1]|
    requires j == Off(p, s.levels[i + 1], m) && Between(s.levels[i], j, key)
    ensures Between(s.levels[i + 1], m, key)
  {
    hide Flat, Good, LevelOk;
    var L, M := s.levels[i], s.levels[i + 1];
    OffZero(p, M, m);
    LevelAscends(p, s, cap, hole, i);
    FirstKid(p, s, cap, hole, i + 1, m);
    NextOff(p, s, cap, hole, i + 1, m);
    if m + 1 < |M| && Off(p, M, m + 1) > j + 1 { assert Below(L, j + 1, Off(p, M, m + 1)); }
    if m >= 2 {
      FirstKid(p, s, cap, hole, i + 1, m - 1);
      NextOff(p, s, cap, hole, i + 1, m - 1);
      if Off(p, M, m - 1) < j - 1 { assert Below(L, Off(p, M, m - 1), j - 1); }
    }
  }
}
