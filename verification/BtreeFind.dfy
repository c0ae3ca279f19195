/** Exact and approximate lookup (src/btree.cc btree_node_search_by_key, src/btree_find.cc). */
module BtreeFind {
  import opened BtreeNode
  import opened BtreeLevels
  import opened BtreeBackend

  // ---------------------------------------------------------------- what a lookup should answer

  ghost predicate IsExact(C: seq<Entry>, key: Key, g: int) {
    0 <= g < |C| && C[g].key == key
  }

  /** `C[g]` is the entry just below `key`. */
  ghost predicate IsPred(C: seq<Entry>, key: Key, g: int) {
    0 <= g < |C| && C[g].key < key && (g + 1 < |C| ==> key <= C[g + 1].key)
  }

  /** `C[g]` is the entry just above `key`. */
  ghost predicate IsSucc(C: seq<Entry>, key: Key, g: int) {
    0 <= g < |C| && key < C[g].key && (g > 0 ==> C[g - 1].key <= key)
  }

  /** `C[g]` is the key itself (`sign` 0), or the key is absent and `C[g]` is next to its place. */
  ghost predicate At(C: seq<Entry>, key: Key, g: int, sign: int) {
    && 0 <= g < |C| && -1 <= sign <= 1 && sign == Compare(C[g].key, key)
    && (sign < 0 && g + 1 < |C| ==> key < C[g + 1].key)
    && (sign > 0 && g > 0 ==> C[g - 1].key < key)
  }

  ghost predicate Allowed(C: seq<Entry>, key: Key, lt: bool, gt: bool, g: int) {
    (lt && IsPred(C, key, g)) || (gt && IsSucc(C, key, g))
  }

  /** Neither the key nor a neighbour on an allowed side exists. */
  ghost predicate Nothing(C: seq<Entry>, key: Key, lt: bool, gt: bool) {
    forall g :: !IsExact(C, key, g) && !Allowed(C, key, lt, gt, g)
  }

  /** The answer over the whole sorted entry sequence: the equal key if it is asked for (EXACT, LEQ,
      GEQ, NEAR or no flag) and present; else the direct neighbour on an allowed side; not found
      exactly when there is none. */
  ghost predicate FindOk(C: seq<Entry>, key: Key, exact: bool, lt: bool, gt: bool, found: bool, e: Entry) {
    if (exact || !(lt || gt)) && (exists g :: IsExact(C, key, g))
    then found && exists g :: IsExact(C, key, g) && C[g] == e
    else
      && (found <==> exists g :: Allowed(C, key, lt, gt, g))
      && (found ==> exists g :: Allowed(C, key, lt, gt, g) && C[g] == e)
  }

  /** The neighbours are the largest smaller and the smallest larger key of the whole sequence. */
  lemma NeighbourMeaning(C: seq<Entry>, key: Key, g: int)
    requires Ascending(C, 0)
    ensures IsPred(C, key, g) <==>
      0 <= g < |C| && C[g].key < key && forall y :: 0 <= y < |C| && C[y].key < key ==> C[y].key <= C[g].key
    ensures IsSucc(C, key, g) <==>
      0 <= g < |C| && key < C[g].key && forall y :: 0 <= y < |C| && key < C[y].key ==> C[g].key <= C[y].key
  {
    AscendingKeys(C, 0);
    if 0 <= g < |C| {
      assert g + 1 < |C| ==> C[g].key < C[g + 1].key;
      assert g > 0 ==> C[g - 1].key < C[g].key;
    }
  }

  /** A neighbour exists on a side exactly when any key lies on that side. */
  lemma {:induction false} NeighbourExists(C: seq<Entry>, key: Key, y: nat)
    requires Ascending(C, 0) && y < |C|
    ensures C[y].key < key ==> exists g :: IsPred(C, key, g)
    ensures key < C[y].key ==> exists g :: IsSucc(C, key, g)
    decreases if C[y].key < key then |C| - y else y
  {
    if C[y].key < key {
      if y + 1 < |C| && C[y + 1].key < key { NeighbourExists(C, key, y + 1); } else { assert IsPred(C, key, y); }
    } else if key < C[y].key {
      if y > 0 && key < C[y - 1].key { NeighbourExists(C, key, y - 1); } else { assert IsSucc(C, key, y); }
    }
  }

  // ---------------------------------------------------------------- inside one leaf

  /** `slots[idx]` is the key itself, or its direct neighbour within the page. */
  ghost predicate Hit(n: Node, key: Key, idx: int, sign: int) {
    && 0 <= idx < n.count <= |n.slots|
    && sign == Compare(n.slots[idx].key, key)
    && (sign < 0 && idx + 1 < n.count ==> key < n.slots[idx + 1].key)
    && (sign > 0 && idx > 0 ==> n.slots[idx - 1].key < key)
  }

  ghost predicate Miss(n: Node, key: Key, lt: bool, gt: bool)
    requires n.count <= |n.slots|
  {
    forall x :: 0 <= x < n.count ==>
      n.slots[x].key != key && (lt ==> key < n.slots[x].key) && (gt ==> n.slots[x].key < key)
  }

  /** btree_node_search_by_key: `sign` is the KEY_IS_LT/KEY_IS_GT flag left in the key. */
  method SearchByKey(n: Node, key: Key, lt: bool, gt: bool) returns (idx: int, sign: int)
    requires n.count <= |n.slots| && n.count <= 0xFFFF && SortedSlots(n)
    ensures -1 <= idx < n.count && -1 <= sign <= 1
    ensures idx >= 0 ==> Hit(n, key, idx, sign) && (sign < 0 ==> lt) && (sign > 0 ==> gt && (lt ==> idx == 0))
    ensures idx == -1 ==> Miss(n, key, lt, gt)
    ensures idx == -1 && lt && gt ==> n.count == 0
  {
    sign := 0;
    if n.count == 0 { return -1, 0; }
    var slot, cmp := GetSlot(n, key);
    if cmp != 0 {
      if slot < 0 { slot := 0; }
      if lt {
        if cmp < 0 {
          if slot > 0 {
            slot, sign, cmp := slot - 1, -1, 0;
          } else if gt {
            sign, cmp := 1, 0;
          }
        } else {
          sign, cmp := -1, 0;
        }
      } else if gt {
        if cmp < 0 {
          sign, cmp := 1, 0;
        } else if slot < n.count - 1 {
          slot, sign, cmp := slot + 1, 1, 0;
        }
      }
    }
    idx := if cmp != 0 then -1 else slot;
  }

  // ---------------------------------------------------------------- from a leaf to the whole tree

  /** A position in leaf `j` is a position in the whole sequence. */
  lemma LeafAnswer(p: Store, s: Shape, cap: nat, j: nat, key: Key, idx: nat, sign: int)
    requires Low(p, s, cap, 0, 1) && InRange(s.levels[1], j, key) && (s.lone ==> |s.levels[1]| == 1)
    requires Hit(p[s.levels[1][j].ptr], key, idx, sign)
    ensures At(s.levels[0], key, Off(p, s.levels[1], j) + idx, sign)
    ensures Off(p, s.levels[1], j) + idx < |s.levels[0]|
    ensures s.levels[0][Off(p, s.levels[1], j) + idx] == p[s.levels[1][j].ptr].slots[idx]
  {
    var n := p[s.levels[1][j].ptr];
    LeafItem(p, s, cap, 0, j, idx);
    LeafOff(p, s, cap, 0, j);
    AroundLeaf(p, s, cap, j, key);
    if idx + 1 < n.count { LeafItem(p, s, cap, 0, j, idx + 1); }
    if idx > 0 { LeafItem(p, s, cap, 0, j, idx - 1); }
  }

  /** A failed search in the leaf that covers the key. */
  lemma LeafMiss(p: Store, s: Shape, cap: nat, j: nat, key: Key, lt: bool, gt: bool)
    requires Low(p, s, cap, 0, 1) && InRange(s.levels[1], j, key) && (s.lone ==> |s.levels[1]| == 1)
    requires !s.lone ==> !lt && !gt
    requires Miss(p[s.levels[1][j].ptr], key, lt, gt)
    ensures Nothing(s.levels[0], key, lt, gt)
  {
    var L, C := s.levels[1], s.levels[0];
    LeafOff(p, s, cap, 0, j);
    AroundLeaf(p, s, cap, j, key);
    if |L| == 1 { assert Off(p, L, 0) == 0; }
    forall g | 0 <= g < |C| && Off(p, L, j) <= g < Off(p, L, j + 1)
      ensures !IsExact(C, key, g) && !Allowed(C, key, lt, gt, g)
    {
      LeafItem(p, s, cap, 0, j, g - Off(p, L, j));
    }
  }

  /** A hit strictly inside a leaf shows that the leaf covers the key. */
  lemma HitCovers(p: Store, s: Shape, cap: nat, j: nat, key: Key, idx: nat, sign: int)
    requires Low(p, s, cap, 0, 1) && j < |s.levels[1]|
    requires Hit(p[s.levels[1][j].ptr], key, idx, sign) && 0 < idx < p[s.levels[1][j].ptr].count - 1
    ensures InRange(s.levels[1], j, key)
  {
    var L := s.levels[1];
    var n := p[L[j].ptr];
    assert InBounds(p, L, j);
    assert forall x :: 0 <= x < n.count ==> Kids(p, L[j])[x] == n.slots[x];
  }

  /** One entry to the left, over a page border if need be. */
  method StepLeft(be: Btree, page: Addr, idx: nat, ghost j: nat)
    returns (ok: bool, page': Addr, idx': nat, ghost j': nat)
    requires be.Valid() && j < |be.shape.levels[1]| && be.shape.levels[1][j].ptr == page && idx < be.pages[page].count
    ensures ok <==> Off(be.pages, be.shape.levels[1], j) + idx > 0
    ensures ok ==>
      j' < |be.shape.levels[1]| && be.shape.levels[1][j'].ptr == page' && page' in be.pages &&
        idx' < be.pages[page'].count
    ensures ok ==> Off(be.pages, be.shape.levels[1], j') + idx' == Off(be.pages, be.shape.levels[1], j) + idx - 1
  {
    ghost var L := be.shape.levels[1];
    page', idx', j' := page, idx, j;
    if idx > 0 {
      return true, page, idx - 1, j;
    }
    assert Chained(be.pages, L, j);
    if be.pages[page].left == 0 {
      assert Off(be.pages, L, 0) == 0;
      return false, page, idx, j;
    }
    j' := j - 1;
    page' := be.pages[page].left;
    idx' := be.pages[page'].count - 1;
    ok := true;
    LeafOff(be.pages, be.shape, be.maxkeys, 0, j');
  }

  /** One entry to the right, over a page border if need be. */
  method StepRight(be: Btree, page: Addr, idx: nat, ghost j: nat)
    returns (ok: bool, page': Addr, idx': nat, ghost j': nat)
    requires be.Valid() && j < |be.shape.levels[1]| && be.shape.levels[1][j].ptr == page && idx < be.pages[page].count
    ensures ok <==> Off(be.pages, be.shape.levels[1], j) + idx + 1 < |be.shape.levels[0]|
    ensures ok ==>
      j' < |be.shape.levels[1]| && be.shape.levels[1][j'].ptr == page' && page' in be.pages &&
        idx' < be.pages[page'].count
    ensures ok ==> Off(be.pages, be.shape.levels[1], j') + idx' == Off(be.pages, be.shape.levels[1], j) + idx + 1
  {
    ghost var L := be.shape.levels[1];
    page', idx', j' := page, idx, j;
    LeafOff(be.pages, be.shape, be.maxkeys, 0, j);
    if idx + 1 < be.pages[page].count {
      return true, page, idx + 1, j;
    }
    assert Chained(be.pages, L, j);
    if be.pages[page].right == 0 {
      return false, page, idx, j;
    }
    j' := j + 1;
    page' := be.pages[page].right;
    idx' := 0;
    ok := true;
    LeafOff(be.pages, be.shape, be.maxkeys, 0, j');
  }

  /** Down from the root to the leaf that covers the key. */
  method DescendToLeaf(be: Btree, key: Key) returns (page: Addr, ghost j: nat)
    requires be.Valid()
    ensures InRange(be.shape.levels[1], j, key) && be.shape.levels[1][j].ptr == page && page in be.pages
  {
    page := be.root;
    ghost var i := be.shape.Top();
    j := 0;
    while !be.pages[page].IsLeaf()
      invariant 1 <= i < |be.shape.levels| && InRange(be.shape.levels[i], j, key)
      invariant be.shape.levels[i][j].ptr == page && page in be.pages
      decreases i
    {
      ghost var above := be.shape.levels[i];
      var child, slot := TraverseTree(be, page, key, i, j);
      i, j := i - 1, Off(be.pages, above, j) + 1 + slot;
      page := child;
    }
  }

  /** The key, or the neighbour that the flags prefer, is in slot `x`. */
  ghost predicate Accepted(n: Node, key: Key, lt: bool, gt: bool, x: int)
    requires 0 < x < n.count - 1 && n.count <= |n.slots|
  {
    || n.slots[x].key == key
    || (lt && n.slots[x].key < key < n.slots[x + 1].key)
    || (gt && !lt && n.slots[x - 1].key < key < n.slots[x].key)
  }

  lemma NotInside(n: Node, key: Key, lt: bool, gt: bool, idx: int, sign: int, x: int)
    requires n.count <= |n.slots| && SortedSlots(n) && 0 < x < n.count - 1 && (idx == 0 || idx == n.count - 1)
    requires Hit(n, key, idx, sign) && (sign < 0 ==> lt) && (sign > 0 ==> gt && (lt ==> idx == 0))
    ensures !Accepted(n, key, lt, gt, x)
  {
    assert n.slots[x - 1].key < n.slots[x].key < n.slots[x + 1].key;
    if idx == 0 { assert n.slots[0].key < n.slots[1].key <= n.slots[x].key; }
  }

  lemma HintAnswer(n: Node, key: Key, lt: bool, gt: bool, idx: int, sign: int)
    requires n.count <= |n.slots| && SortedSlots(n) && -1 <= idx < n.count
    requires idx >= 0 ==> Hit(n, key, idx, sign) && (sign < 0 ==> lt) && (sign > 0 ==> gt && (lt ==> idx == 0))
    requires idx == -1 ==> Miss(n, key, lt, gt)
    ensures 0 < idx < n.count - 1 ==> Accepted(n, key, lt, gt, idx)
    ensures !(0 < idx < n.count - 1) ==> forall x :: 0 < x < n.count - 1 ==> !Accepted(n, key, lt, gt, x)
  {
    if !(0 < idx < n.count - 1) && idx >= 0 {
      forall x | 0 < x < n.count - 1 ensures !Accepted(n, key, lt, gt, x) { NotInside(n, key, lt, gt, idx, sign, x); }
    }
  }

  /** The fast track of btree_find_cursor: accept a hit only strictly inside the hinted leaf. */
  method TryHint(be: Btree, key: Key, lt: bool, gt: bool, hint: Addr, ghost hj: nat) returns (idx: int, sign: int)
    requires be.Valid() && hj < |be.shape.levels[1]| && be.shape.levels[1][hj].ptr == hint
    ensures idx >= 0 && sign != 0 ==> lt || gt
    ensures idx >= 0 ==>
      idx < be.pages[hint].count && At(be.shape.levels[0], key, Off(be.pages, be.shape.levels[1], hj) + idx, sign)
    ensures idx == -1 <==> forall x :: 0 < x < be.pages[hint].count - 1 ==> !Accepted(be.pages[hint], key, lt, gt, x)
  {
    hide Accepted, Flat;
    var node := be.pages[hint];
    LeafKeys(be.pages, be.shape, be.maxkeys, 0, hj);
    idx, sign := -1, 0;
    if node.count >= 3 {
      idx, sign := SearchByKey(node, key, lt, gt);
      HintAnswer(node, key, lt, gt, idx, sign);
      if idx <= 0 || idx >= node.count - 1 {
        idx := -1;
      } else {
        HitCovers(be.pages, be.shape, be.maxkeys, hj, key, idx, sign);
        LeafAnswer(be.pages, be.shape, be.maxkeys, hj, key, idx, sign);
      }
    }
  }

  /** The regular search of btree_find_cursor: with more than one page, both directions are allowed. */
  method SearchFromRoot(be: Btree, key: Key, lt: bool, gt: bool) returns (page: Addr, idx: int, sign: int, ghost j: nat)
    requires be.Valid()
    ensures -1 <= idx && (idx >= 0 && sign != 0 ==> lt || gt)
    ensures j < |be.shape.levels[1]| && be.shape.levels[1][j].ptr == page && page in be.pages &&
      idx < be.pages[page].count
    ensures idx >= 0 ==> At(be.shape.levels[0], key, Off(be.pages, be.shape.levels[1], j) + idx, sign)
    ensures idx < 0 ==> Nothing(be.shape.levels[0], key, lt, gt)
  {
    hide Flat, At, Nothing;
    var lt', gt' := lt, gt;
    if !be.pages[be.root].IsLeaf() && (lt || gt) { lt', gt' := true, true; }
    page, j := DescendToLeaf(be, key);
    LeafKeys(be.pages, be.shape, be.maxkeys, 0, j);
    idx, sign := SearchByKey(be.pages[page], key, lt', gt');
    if idx >= 0 {
      LeafAnswer(be.pages, be.shape, be.maxkeys, j, key, idx, sign);
    } else {
      LeafMiss(be.pages, be.shape, be.maxkeys, j, key, lt, gt);
    }
  }

  /** Where the corrections of btree_find_cursor take a located position. */
  ghost predicate Corrected(g: int, sign: int, last: int, exact: bool, lt: bool, gt: bool, found: bool, g': int,
                            sign': int)
  {
    if sign != 0 && !(lt && gt) then
      if sign > 0 && lt then found == (g > 0) && (found ==> g' == g - 1 && sign' == -1)
      else if sign < 0 && gt then found == (g < last) && (found ==> g' == g + 1 && sign' == 1)
      else found && g' == g && sign' == sign
    else if sign == 0 && !exact && (lt || gt) then
      if lt && g > 0 then found && g' == g - 1 && sign' == -1
      else found == (gt && g < last) && (found ==> g' == g + 1 && sign' == 1)
    else found && g' == g && sign' == sign
  }

  lemma CorrectedIsRight(C: seq<Entry>, key: Key, exact: bool, lt: bool, gt: bool, g: int, sign: int, found: bool,
                         g': int, sign': int, e: Entry)
    requires Ascending(C, 0) && At(C, key, g, sign) && (sign != 0 ==> lt || gt)
    requires Corrected(g, sign, |C| - 1, exact, lt, gt, found, g', sign')
    requires found && 0 <= g' < |C| ==> C[g'] == e
    ensures found ==> 0 <= g' < |C| && sign' == Compare(e.key, key)
    ensures FindOk(C, key, exact, lt, gt, found, e)
  {
    AscendingKeys(C, 0);
    assert sign == 0 ==> IsExact(C, key, g);
    assert sign != 0 ==> forall x :: !IsExact(C, key, x);
    if found {
      assert sign' != 0 ==> Allowed(C, key, lt, gt, g');
    } else {
      assert forall x :: !Allowed(C, key, lt, gt, x);
    }
  }

  /** The corrections of btree_find_cursor, crossing to a sibling page at a page border. */
  method Correct(be: Btree, exact: bool, lt: bool, gt: bool, page0: Addr, idx0: nat, sign0: int, ghost j0: nat)
    returns (found: bool, page: Addr, idx: nat, sign: int, ghost j: nat)
    requires be.Valid() && j0 < |be.shape.levels[1]| && be.shape.levels[1][j0].ptr == page0 &&
      idx0 < be.pages[page0].count
    ensures found ==>
      j < |be.shape.levels[1]| && be.shape.levels[1][j].ptr == page && page in be.pages && idx < be.pages[page].count
    ensures Corrected(Off(be.pages, be.shape.levels[1], j0) + idx0, sign0, |be.shape.levels[0]| - 1, exact, lt, gt,
        found, if found then Off(be.pages, be.shape.levels[1], j) + idx else 0, sign)
  {
    found, page, idx, sign, j := true, page0, idx0, sign0, j0;
    if sign != 0 && !(lt && gt) {
      if sign > 0 && lt {
        found, page, idx, j := StepLeft(be, page, idx, j);
        sign := -1;
      } else if sign < 0 && gt {
        found, page, idx, j := StepRight(be, page, idx, j);
        sign := 1;
      }
    } else if sign == 0 && !exact && (lt || gt) {
      found := false;
      if lt {
        found, page, idx, j := StepLeft(be, page0, idx0, j0);
        sign := -1;
      }
      if !found && gt {
        found, page, idx, j := StepRight(be, page0, idx0, j0);
        sign := 1;
      }
    }
  }

  lemma NothingIsNotFound(C: seq<Entry>, key: Key, exact: bool, lt: bool, gt: bool, e: Entry)
    requires Nothing(C, key, lt, gt)
    ensures FindOk(C, key, exact, lt, gt, false, e)
  {
  }

  /** btree_find_cursor up to the corrections. `hint` names a cached leaf to try first, or is 0. */
  method Locate(be: Btree, key: Key, lt: bool, gt: bool, hint: Addr, ghost hj: nat)
    returns (page: Addr, idx: int, sign: int, ghost j: nat)
    requires be.Valid()
    requires hint != 0 ==> hj < |be.shape.levels[1]| && be.shape.levels[1][hj].ptr == hint
    ensures -1 <= idx && (idx >= 0 && sign != 0 ==> lt || gt)
    ensures j < |be.shape.levels[1]| && be.shape.levels[1][j].ptr == page && page in be.pages &&
      idx < be.pages[page].count
    ensures idx >= 0 ==> At(be.shape.levels[0], key, Off(be.pages, be.shape.levels[1], j) + idx, sign)
    ensures idx < 0 ==> Nothing(be.shape.levels[0], key, lt, gt)
  {
    page, idx, j := hint, -1, hj;
    if hint != 0 { idx, sign := TryHint(be, key, lt, gt, hint, hj); }
    if idx < 0 { page, idx, sign, j := SearchFromRoot(be, key, lt, gt); }
  }

  /** btree_find_cursor: the right answer over the whole tree, whatever leaf the hint names. */
  method Find(be: Btree, key: Key, exact: bool, lt: bool, gt: bool, hint: Addr, ghost hj: nat)
    returns (found: bool, e: Entry, sign: int)
    requires be.Valid()
    requires hint != 0 ==> hj < |be.shape.levels[1]| && be.shape.levels[1][hj].ptr == hint
    ensures FindOk(be.Contents(), key, exact, lt, gt, found, e)
    ensures found ==> sign == Compare(e.key, key)
  {
    e := Entry(key, 0);
    var page, idx;
    ghost var j;
    page, idx, sign, j := Locate(be, key, lt, gt, hint, hj);
    if idx < 0 {
      NothingIsNotFound(be.shape.levels[0], key, exact, lt, gt, e);
      return false, e, 0;
    }
    ghost var g, sign0 := Off(be.pages, be.shape.levels[1], j) + idx, sign;
    found, page, idx, sign, j := Correct(be, exact, lt, gt, page, idx, sign, j);
    ghost var g' := 0;
    if found {
      g' := Off(be.pages, be.shape.levels[1], j) + idx;
      LeafItem(be.pages, be.shape, be.maxkeys, 0, j, idx);
      e := be.pages[page].slots[idx];
    }
    CorrectedIsRight(be.shape.levels[0], key, exact, lt, gt, g, sign0, found, g', sign, e);
  }
}
