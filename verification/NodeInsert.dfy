/** Putting an entry into one page, and splitting a page (src/btree_insert.cc). */
module NodeInsert {
  import opened Collections
  import opened BtreeNode
  import opened BtreeLevels

  /** SPLIT asks the parent page to take the pivot and the new page. */
  datatype Status = Success | DuplicateKey | Split

  /** Shift the slots from `slot` on one to the right and write `e` there. */
  function WithEntry(n: Node, slot: nat, e: Entry): (r: Node)
    requires slot <= n.count < |n.slots|
    ensures Fits(r, |n.slots|)
  {
    n.(slots := Moved(n.slots, slot + 1, n.slots, slot, n.count - slot)[slot := e], count := n.count + 1)
  }

  /** The kids of a page gain exactly the new entry. */
  lemma WithEntryKids(n: Node, slot: nat, e: Entry, lo: Key)
    requires slot <= n.count < |n.slots|
    ensures KidsOf(lo, WithEntry(n, slot, e)) == InsertAt(KidsOf(lo, n), if n.IsLeaf() then slot else slot + 1, e)
  {
    hide Moved, InsertAt;
    WithEntryUsed(n, slot, e);
    InsertAtRight([Entry(lo, n.ptrLeft)], n.slots[..n.count], slot, e);
  }

  lemma WithEntryUsed(n: Node, slot: nat, e: Entry)
    requires slot <= n.count < |n.slots|
    ensures WithEntry(n, slot, e).slots[..n.count + 1] == InsertAt(n.slots[..n.count], slot, e)
  {
    hide Moved, InsertAt;
    var r, s := WithEntry(n, slot, e).slots[..n.count + 1], InsertAt(n.slots[..n.count], slot, e);
    forall i | 0 <= i < |s| ensures r[i] == s[i] {}
  }

  datatype Force = Append | Prepend | Search

  /** Where __insert_nosplit puts an absent key. */
  ghost predicate PutSlot(n: Node, key: Key, x: nat)
    requires n.count <= |n.slots|
  {
    x <= n.count && (x > 0 ==> n.slots[x - 1].key < key) && (x < n.count ==> key < n.slots[x].key)
  }

  ghost predicate HasKey(n: Node, key: Key)
    requires n.count <= |n.slots|
  {
    exists x :: 0 <= x < n.count && n.slots[x].key == key
  }

  /** What __insert_nosplit does to a page. */
  ghost predicate NosplitOk(n: Node, key: Key, ptr: nat, write: bool, r: Node, st: Status, slot: int) {
    && 0 <= slot <= n.count <= |n.slots|
    && if HasKey(n, key) then
         && slot < n.count && n.slots[slot].key == key
         && st == (if write then Success else DuplicateKey)
         && r == if write && n.IsLeaf() then n.(slots := n.slots[slot := Entry(key, ptr)]) else n
       else
         st == Success && n.count < |n.slots| && PutSlot(n, key, slot) && r == WithEntry(n, slot, Entry(key, ptr))
  }

  /** __insert_nosplit. `write` stands for HAM_OVERWRITE or HAM_DUPLICATE: an existing leaf entry
      gets the new record; an existing separator is left alone. */
  method InsertNosplit(n: Node, key: Key, ptr: nat, write: bool, force: Force) returns (r: Node, st: Status, slot: int)
    requires n.count <= |n.slots| && n.count <= 0xFFFF && SortedSlots(n)
    requires !HasKey(n, key) ==> n.count < |n.slots|
    requires force.Append? && n.count > 0 ==> n.slots[n.count - 1].key < key
    requires force.Prepend? && n.count > 0 ==> key < n.slots[0].key
    ensures NosplitOk(n, key, ptr, write, r, st, slot)
  {
    r, st := n, Success;
    var exists' := false;
    if n.count == 0 {
      slot := 0;
    } else if force.Append? {
      slot := n.count;
    } else if force.Prepend? {
      slot := 0;
    } else {
      var cmp;
      slot, cmp := GetSlot(n, key);
      if slot == -1 {
        slot := 0;
      } else if cmp == 0 {
        if !write { return n, DuplicateKey, slot; }
        if !n.IsLeaf() { return n, Success, slot; }
        exists' := true;
      } else if cmp > 0 {
        slot := slot + 1;
      }
    }
    if !exists' {
      if n.count > slot {
        r := r.(slots := Moved(r.slots, slot + 1, r.slots, slot, n.count - slot));
      }
      r := r.(slots := r.slots[slot := Entry(key, ptr)], count := n.count + 1);
    } else {
      r := r.(slots := r.slots[slot := Entry(key, ptr)]);
    }
  }

  /** What a split makes of a page: the page, the new page to its right, the separator between them, and
      where the new entry is among the entries of both. */
  datatype Halves = Halves(r: Node, nb: Node, pivot: Key, x: nat)

  /** The shape of the page `r` and its new right neighbour `nb` after a split of `n`. */
  ghost predicate SplitShape(n: Node, key: Key, cut: Halves) {
    && Fits(n, |n.slots|) && Fits(cut.r, |n.slots|) && Fits(cut.nb, |n.slots|)
    && cut.r.IsLeaf() == n.IsLeaf() == cut.nb.IsLeaf()
    && cut.r.ptrLeft == n.ptrLeft && cut.r.left == n.left && cut.r.right == n.right
    && cut.r.count >= 1 && cut.nb.count >= 1
    && PutSlot(n, key, cut.x)
    && n.count > 0 && n.slots[0].key < cut.pivot <= n.slots[n.count - 1].key
    && (forall y :: 0 <= y < cut.r.count ==> cut.r.slots[y].key < cut.pivot)
    && (forall y :: 0 <= y < cut.nb.count ==> cut.pivot <= cut.nb.slots[y].key)
  }

  /** Together they hold what `n` held plus the new entry, cut at the separator `pivot`. */
  ghost predicate SplitOk(n: Node, lo: Key, key: Key, ptr: nat, cut: Halves) {
    && SplitShape(n, key, cut)
    && KidsOf(lo, cut.r) + KidsOf(cut.pivot, cut.nb) ==
      InsertAt(KidsOf(lo, n), if n.IsLeaf() then cut.x else cut.x + 1, Entry(key, ptr))
  }

  lemma InsertAtLeft<T>(A: seq<T>, B: seq<T>, x: nat, e: T)
    requires x <= |A|
    ensures InsertAt(A, x, e) + B == InsertAt(A + B, x, e)
  {
  }

  lemma InsertAtRight<T>(A: seq<T>, B: seq<T>, x: nat, e: T)
    requires x <= |B|
    ensures A + InsertAt(B, x, e) == InsertAt(A + B, |A| + x, e)
  {
    assert (A + B)[..|A| + x] == A + B[..x];
  }

  /** The two halves of a page before the new entry goes in. */
  function LeftHalf(n: Node, pivot: nat): (r: Node)
    requires pivot < n.count <= |n.slots|
    ensures r.count <= |r.slots|
  {
    n.(count := pivot)
  }

  function RightHalf(n: Node, nb: Node, pivot: nat): (r: Node)
    requires pivot < n.count <= |n.slots| == |nb.slots|
    ensures r.count <= |r.slots|
  {
    if n.IsLeaf()
    then nb.(ptrLeft := 0, slots := Moved(nb.slots, 0, n.slots, pivot, n.count - pivot), count := n.count - pivot)
    else nb.(ptrLeft := n.slots[pivot].ptr, slots := Moved(nb.slots, 0, n.slots, pivot + 1, n.count - pivot - 1),
        count := n.count - pivot - 1)
  }

  lemma Glue(a: seq<Entry>, s: seq<Entry>, m: nat, c: nat)
    requires m < c <= |s|
    ensures (a + s[..m]) + s[m..c] == a + s[..c]
  {
  }

  lemma RightHalfUsed(n: Node, nb: Node, pivot: nat)
    requires pivot < n.count <= |n.slots| == |nb.slots| && (!n.IsLeaf() ==> n.slots[pivot].ptr != 0)
    ensures KidsOf(n.slots[pivot].key, RightHalf(n, nb, pivot)) == n.slots[pivot..n.count]
  {
    var r := RightHalf(n, nb, pivot);
    var d := if n.IsLeaf() then pivot else pivot + 1;
    assert r.slots[..r.count] == n.slots[d..n.count];
    assert !n.IsLeaf() ==> Entry(n.slots[pivot].key, r.ptrLeft) == n.slots[pivot];
  }

  lemma HalvesMakeWhole(n: Node, nb: Node, pivot: nat, lo: Key)
    requires pivot < n.count <= |n.slots| == |nb.slots| && (!n.IsLeaf() ==> n.slots[pivot].ptr != 0)
    ensures KidsOf(lo, LeftHalf(n, pivot)) + KidsOf(n.slots[pivot].key, RightHalf(n, nb, pivot)) == KidsOf(lo, n)
  {
    RightHalfUsed(n, nb, pivot);
    var a := if n.IsLeaf() then [] else [Entry(lo, n.ptrLeft)];
    assert n.IsLeaf() ==> a + n.slots[..pivot] == n.slots[..pivot] && a + n.slots[..n.count] == n.slots[..n.count];
    Glue(a, n.slots, pivot, n.count);
  }

  /** Inserting into the half that covers the key inserts into the whole. */
  lemma InsertLeftOk(n: Node, nb: Node, pivot: nat, key: Key, ptr: nat, x: nat, lo: Key)
    requires pivot < n.count <= |n.slots| == |nb.slots| && (!n.IsLeaf() ==> n.slots[pivot].ptr != 0) && x <= pivot
    ensures KidsOf(lo, WithEntry(LeftHalf(n, pivot), x, Entry(key, ptr))) +
      KidsOf(n.slots[pivot].key, RightHalf(n, nb, pivot))
         == InsertAt(KidsOf(lo, n), if n.IsLeaf() then x else x + 1, Entry(key, ptr))
  {
    HalvesMakeWhole(n, nb, pivot, lo);
    WithEntryKids(LeftHalf(n, pivot), x, Entry(key, ptr), lo);
    InsertAtLeft(KidsOf(lo, LeftHalf(n, pivot)), KidsOf(n.slots[pivot].key, RightHalf(n, nb, pivot)),
        if n.IsLeaf() then x else x + 1, Entry(key, ptr));
  }

  lemma InsertRightOk(n: Node, nb: Node, pivot: nat, key: Key, ptr: nat, x: nat, lo: Key)
    requires 0 < pivot < n.count <= |n.slots| == |nb.slots| && (!n.IsLeaf() ==> n.slots[pivot].ptr != 0)
    requires x <= RightHalf(n, nb, pivot).count
    ensures var w := if n.IsLeaf() then pivot + x else pivot + 1 + x;
      KidsOf(lo, LeftHalf(n, pivot)) +
        KidsOf(n.slots[pivot].key, WithEntry(RightHalf(n, nb, pivot), x, Entry(key, ptr)))
         == InsertAt(KidsOf(lo, n), if n.IsLeaf() then w else w + 1, Entry(key, ptr))
  {
    var A, B := KidsOf(lo, LeftHalf(n, pivot)), KidsOf(n.slots[pivot].key, RightHalf(n, nb, pivot));
    var k := if n.IsLeaf() then x else x + 1;
    HalvesMakeWhole(n, nb, pivot, lo);
    WithEntryKids(RightHalf(n, nb, pivot), x, Entry(key, ptr), n.slots[pivot].key);
    assert |A| == if n.IsLeaf() then pivot else pivot + 1;
    InsertAtRight(A, B, k, Entry(key, ptr));
  }

  lemma RightHalfSlots(n: Node, nb: Node, pivot: nat)
    requires 0 < pivot < n.count <= |n.slots| == |nb.slots|
    ensures var d := if n.IsLeaf() then pivot else pivot + 1; var h := RightHalf(n, nb, pivot);
      h.count == n.count - d && forall y :: 0 <= y < h.count ==> h.slots[y] == n.slots[y + d]
  {
  }

  lemma WithEntrySlots(n: Node, slot: nat, e: Entry)
    requires slot <= n.count < |n.slots|
    ensures forall y :: 0 <= y < slot ==> WithEntry(n, slot, e).slots[y] == n.slots[y]
    ensures WithEntry(n, slot, e).slots[slot] == e
    ensures forall y :: slot < y <= n.count ==> WithEntry(n, slot, e).slots[y] == n.slots[y - 1]
  {
  }

  lemma SplitLeft(n: Node, nb: Node, pivot: nat, key: Key, ptr: nat, x: nat)
    requires 0 < pivot < n.count - 1 && n.count <= |n.slots| == |nb.slots| && SortedSlots(n)
    requires !n.IsLeaf() ==> n.slots[pivot].ptr != 0
    requires PutSlot(LeftHalf(n, pivot), key, x) && key < n.slots[pivot].key
    ensures SplitShape(n, key,
        Halves(WithEntry(LeftHalf(n, pivot), x, Entry(key, ptr)), RightHalf(n, nb, pivot), n.slots[pivot].key, x))
  {
    hide Moved;
    RightHalfSlots(n, nb, pivot);
    WithEntrySlots(LeftHalf(n, pivot), x, Entry(key, ptr));
  }

  lemma SplitRight(n: Node, nb: Node, pivot: nat, key: Key, ptr: nat, x: nat)
    requires 0 < pivot < n.count - 1 && n.count <= |n.slots| == |nb.slots| && SortedSlots(n)
    requires !n.IsLeaf() ==> n.slots[pivot].ptr != 0
    requires PutSlot(RightHalf(n, nb, pivot), key, x) && n.slots[pivot].key < key
    ensures SplitShape(n, key, Halves(LeftHalf(n, pivot), WithEntry(RightHalf(n, nb, pivot), x, Entry(key, ptr)),
                                     n.slots[pivot].key, if n.IsLeaf() then pivot + x else pivot + 1 + x))
  {
    hide Moved;
    RightHalfSlots(n, nb, pivot);
    WithEntrySlots(RightHalf(n, nb, pivot), x, Entry(key, ptr));
  }

  lemma HalvesSorted(n: Node, nb: Node, pivot: nat, key: Key)
    requires 0 < pivot < n.count <= |n.slots| == |nb.slots| && SortedSlots(n) && !HasKey(n, key)
    ensures SortedSlots(LeftHalf(n, pivot)) && SortedSlots(RightHalf(n, nb, pivot))
    ensures !HasKey(LeftHalf(n, pivot), key) && !HasKey(RightHalf(n, nb, pivot), key) && key != n.slots[pivot].key
  {
    RightHalfSlots(n, nb, pivot);
  }

  /** The entries from the pivot on go to the new page; in an internal page the pivot itself does not. */
  method CopyHalves(n: Node, blank: Node, pivot: nat) returns (r: Node, nb: Node)
    requires pivot < n.count <= |n.slots| == |blank.slots|
    requires blank.count == 0 && blank.ptrLeft == 0 && blank.left == 0 && blank.right == 0
    ensures r == LeftHalf(n, pivot) && nb == RightHalf(n, blank, pivot)
    ensures |nb.slots| == |n.slots| && (pivot > 0 ==> nb.count < |nb.slots|)
  {
    var count := n.count;
    r, nb := n, blank;
    if n.IsLeaf() {
      nb := nb.(slots := Moved(nb.slots, 0, n.slots, pivot, count - pivot));
    } else {
      nb := nb.(slots := Moved(nb.slots, 0, n.slots, pivot + 1, count - pivot - 1));
    }
    if n.IsLeaf() {
      r, nb := r.(count := pivot), nb.(count := count - pivot);
    } else {
      r, nb := r.(count := pivot), nb.(count := count - pivot - 1, ptrLeft := n.slots[pivot].ptr);
    }
  }

  /** The page part of __insert_split: `nb` is the freshly allocated page, whatever it contains. */
  method SplitNode(n: Node, blank: Node, key: Key, ptr: nat, atEnd: bool, ghost lo: Key)
    returns (r: Node, nb: Node, pivotkey: Key, ghost x: nat)
    requires 4 <= n.count <= |n.slots| == |blank.slots| <= 0xFFFF && SortedSlots(n) && !HasKey(n, key)
    requires blank.count == 0 && blank.ptrLeft == 0 && blank.left == 0 && blank.right == 0
    requires !n.IsLeaf() ==> forall y :: 0 <= y < n.count ==> n.slots[y].ptr != 0
    ensures SplitOk(n, lo, key, ptr, Halves(r, nb, pivotkey, x))
    ensures var pivot := if atEnd then n.count - 2 else n.count / 2;
      pivotkey == n.slots[pivot].key && r.count == (if key < pivotkey then pivot + 1 else pivot) && r.right == n.right
  {
    hide SplitShape, KidsOf, InsertAt, SortedSlots, RightHalf, Moved;
    var pivot := if atEnd then n.count - 2 else n.count / 2;
    r, nb := CopyHalves(n, blank, pivot);
    pivotkey := n.slots[pivot].key;
    HalvesSorted(n, blank, pivot, key);
    // the pivot is read from a slot beyond the new count of the page
    var cmp := Compare(key, r.slots[pivot].key);
    var st, slot;
    if cmp >= 0 {
      nb, st, slot := InsertNosplit(nb, key, ptr, true, Search);
      x := if n.IsLeaf() then pivot + slot else pivot + 1 + slot;
      SplitRight(n, blank, pivot, key, ptr, slot);
      InsertRightOk(n, blank, pivot, key, ptr, slot, lo);
    } else {
      r, st, slot := InsertNosplit(r, key, ptr, true, Search);
      x := slot;
      SplitLeft(n, blank, pivot, key, ptr, slot);
      InsertLeftOk(n, blank, pivot, key, ptr, slot, lo);
    }
  }
}
