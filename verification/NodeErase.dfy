/** Removing an entry from a page, and moving entries between two neighbouring pages
    (src/btree_erase.cc my_remove_entry, my_merge_pages, my_shift_pages). */
module NodeErase {
  import opened Collections
  import opened BtreeNode
  import opened BtreeLevels

  // ------------------------------------------------------------------------------ remove

  /** my_remove_entry: the slots behind `slot` move down; removing the last entry leaves it in place. */
  function WithoutEntry(n: Node, slot: nat): (r: Node)
    requires slot < n.count <= |n.slots|
    ensures Fits(r, |n.slots|)
    ensures n.count == 1 ==> r.slots == n.slots
  {
    n.(slots := Moved(n.slots, slot, n.slots, slot + 1, n.count - slot - 1), count := n.count - 1)
  }

  lemma WithoutEntryKids(n: Node, slot: nat, lo: Key)
    requires slot < n.count <= |n.slots|
    ensures KidsOf(lo, WithoutEntry(n, slot)) == RemoveAt(KidsOf(lo, n), if n.IsLeaf() then slot else slot + 1)
  {
    var r := WithoutEntry(n, slot);
    assert r.slots[..r.count] == RemoveAt(n.slots[..n.count], slot);
  }

  // ------------------------------------------------------------------------------ merge

  /** The separator comes down between the two halves of a merged internal page. */
  function Appended(n: Node, e: Entry): (r: Node)
    requires n.count < |n.slots|
    ensures Fits(r, |n.slots|)
  {
    n.(slots := n.slots[n.count := e], count := n.count + 1)
  }

  function Joined(n: Node, sib: Node): (r: Node)
    requires sib.count <= |sib.slots| && n.count + sib.count <= |n.slots|
    ensures Fits(r, |n.slots|)
  {
    n.(slots := Moved(n.slots, n.count, sib.slots, 0, sib.count), count := n.count + sib.count)
  }

  lemma AppendedKids(n: Node, e: Entry, lo: Key)
    requires n.count < |n.slots|
    ensures KidsOf(lo, Appended(n, e)) == KidsOf(lo, n) + [e]
  {
    var r := Appended(n, e);
    assert r.slots[..r.count] == n.slots[..n.count] + [e];
  }

  lemma JoinedKids(n: Node, sib: Node, lo: Key)
    requires sib.count <= |sib.slots| && n.count + sib.count <= |n.slots|
    ensures KidsOf(lo, Joined(n, sib)) == KidsOf(lo, n) + sib.slots[..sib.count]
  {
    var r := Joined(n, sib);
    assert r.slots[..r.count] == n.slots[..n.count] + sib.slots[..sib.count];
  }

  lemma MergeLeafKids(n: Node, sib: Node, lo: Key, sep: Key)
    requires sib.count <= |sib.slots| && n.count + sib.count <= |n.slots| && n.IsLeaf() && sib.IsLeaf()
    ensures MergedInto(n, sib, lo, sep, Joined(n, sib))
  {
    JoinedKids(n, sib, lo);
  }

  lemma MergeInnerKids(n: Node, sib: Node, lo: Key, sep: Key)
    requires sib.count <= |sib.slots| && n.count + sib.count < |n.slots| && !n.IsLeaf() && !sib.IsLeaf()
    ensures MergedInto(n, sib, lo, sep, Joined(Appended(n, Entry(sep, sib.ptrLeft)), sib))
  {
    var e := Entry(sep, sib.ptrLeft);
    AppendedKids(n, e, lo);
    JoinedKids(Appended(n, e), sib, lo);
    Assoc(KidsOf(lo, n), [e], sib.slots[..sib.count]);
  }

  lemma Assoc(A: seq<Entry>, B: seq<Entry>, C: seq<Entry>)
    ensures A + B + C == A + (B + C)
  {
  }

  /** Everything of both pages is in `r`; links are still those of `n`. */
  ghost predicate MergedInto(n: Node, sib: Node, lo: Key, sep: Key, r: Node) {
    && n.count <= |n.slots| && sib.count <= |sib.slots| && Fits(r, |n.slots|)
    && r.ptrLeft == n.ptrLeft && r.left == n.left && r.right == n.right
    && r.count == n.count + sib.count + (if n.IsLeaf() then 0 else 1)
    && KidsOf(lo, r) == KidsOf(lo, n) + KidsOf(sep, sib)
  }

  /** The entry part of my_merge_pages; `a` is the anchor's slot for the separator of `sib`. */
  method MergeNodes(n: Node, sib: Node, anc: Node, ghost a: int, ghost lo: Key) returns (r: Node)
    requires n.count <= |n.slots| && sib.count <= |sib.slots| && n.IsLeaf() == sib.IsLeaf()
    requires n.count + sib.count + (if n.IsLeaf() then 0 else 1) <= |n.slots|
    requires 0 <= a < anc.count <= |anc.slots| && anc.count <= 0xFFFF && SortedSlots(anc)
    requires !n.IsLeaf() ==> |sib.slots| > 0 && IsSlot(anc, sib.slots[0].key, a)
    ensures MergedInto(n, sib, lo, anc.slots[a].key, r)
  {
    r := n;
    if !n.IsLeaf() {
      // slot 0 of the sibling is read even when its last entry was just removed
      var slot, cmp := GetSlot(anc, sib.slots[0].key);
      SlotUnique(anc, sib.slots[0].key, slot, a);
      var e := Entry(anc.slots[slot].key, sib.ptrLeft);
      MergeInnerKids(n, sib, lo, anc.slots[slot].key);
      r := r.(slots := r.slots[r.count := e], count := r.count + 1);
    }
    if n.IsLeaf() { MergeLeafKids(n, sib, lo, anc.slots[a].key); }
    r := r.(slots := Moved(r.slots, r.count, sib.slots, 0, sib.count), count := r.count + sib.count);
  }

  lemma SlotUnique(n: Node, key: Key, s: int, t: int)
    requires n.count <= |n.slots| && IsSlot(n, key, s) && IsSlot(n, key, t)
    ensures s == t
  {
    var m := if s < t then t else s;
    assert 0 <= m < n.count ==> n.slots[m].key <= key || key < n.slots[m].key;
  }

  // ------------------------------------------------------------------------------ shift

  /** Slot `a` of the anchor separates `n` from its right neighbour `sib`. */
  ghost predicate AnchorFits(anc: Node, a: int, n: Node, sib: Node) {
    && 0 <= a < anc.count <= |anc.slots| && anc.count <= 0xFFFF && SortedSlots(anc)
    && n.count <= |n.slots| && SortedSlots(n) && sib.count <= |sib.slots| && SortedSlots(sib)
    && n.IsLeaf() == sib.IsLeaf()
    && (forall x :: 0 <= x < n.count ==> n.slots[x].key < anc.slots[a].key)
    && (forall x :: 0 <= x < n.count && a > 0 ==> anc.slots[a - 1].key <= n.slots[x].key)
    && (forall x :: 0 <= x < sib.count ==> anc.slots[a].key <= sib.slots[x].key)
    && (forall x :: 0 <= x < sib.count && a + 1 < anc.count ==> sib.slots[x].key < anc.slots[a + 1].key)
  }

  /** my_replace_key on the anchor: only the key of slot `a` changes. */
  function Rekeyed(anc: Node, a: nat, key: Key): (r: Node)
    requires a < anc.count <= |anc.slots|
    ensures Fits(r, |anc.slots|) && r.slots[a].key == key
  {
    anc.(slots := anc.slots[a := Entry(key, anc.slots[a].ptr)])
  }

  /** Entries moved between `n` and `sib` through the separator: nothing is lost or reordered. */
  ghost predicate Shifted(n: Node, sib: Node, lo: Key, sep: Key, r: Node, t: Node, sep': Key) {
    && n.count <= |n.slots| && sib.count <= |sib.slots| && Fits(r, |n.slots|) && Fits(t, |sib.slots|)
    && r.ptrLeft == n.ptrLeft && r.left == n.left && r.right == n.right
    && t.IsLeaf() == sib.IsLeaf() && t.left == sib.left && t.right == sib.right
    && r.count + t.count == n.count + sib.count
    && KidsOf(lo, r) + KidsOf(sep', t) == KidsOf(lo, n) + KidsOf(sep, sib)
  }

  /** The anchor's separator follows the shift; nothing else in it changes. */
  ghost predicate ShiftDone(n: Node, sib: Node, anc: Node, a: int, lo: Key, r: Node, t: Node, anc': Node) {
    && 0 <= a < anc.count <= |anc.slots| == |anc'.slots|
    && anc' == Rekeyed(anc, a, anc'.slots[a].key)
    && Shifted(n, sib, lo, anc.slots[a].key, r, t, anc'.slots[a].key)
  }

  /** C integer division truncates toward zero. */
  function Half(x: int): int { if x >= 0 then x / 2 else -((-x) / 2) }

  lemma CutAt(A: seq<Entry>, B: seq<Entry>, c: nat)
    requires c <= |B|
    ensures A + B[..c] + B[c..] == A + B
  {
  }

  lemma SlotOfRight(anc: Node, a: int, n: Node, sib: Node, x: nat)
    requires AnchorFits(anc, a, n, sib) && x < sib.count
    ensures IsSlot(anc, sib.slots[x].key, a)
  {
  }

  lemma SlotOfLeft(anc: Node, a: int, n: Node, sib: Node, x: nat)
    requires AnchorFits(anc, a, n, sib) && x < n.count
    ensures IsSlot(anc, n.slots[x].key, a - 1)
  {
  }

  /** Look up `key` in the anchor page and replace the key found there (`next`: the one behind it). */
  method Reanchor(anc: Node, key: Key, next: bool, ghost a: int) returns (anc': Node)
    requires 0 <= a < anc.count <= |anc.slots| && anc.count <= 0xFFFF && SortedSlots(anc)
    requires IsSlot(anc, key, if next then a - 1 else a)
    ensures anc' == Rekeyed(anc, a, key)
  {
    var slot, cmp := GetSlot(anc, key);
    SlotUnique(anc, key, slot, if next then a - 1 else a);
    anc' := Rekeyed(anc, if next then slot + 1 else slot, key);
  }

  /** Leaf: shift from the sibling to this page. */
  method ShiftLeftLeaf(n: Node, sib: Node, anc: Node, ghost a: int, ghost lo: Key)
    returns (r: Node, t: Node, anc': Node)
    requires AnchorFits(anc, a, n, sib) && n.IsLeaf() && |n.slots| == |sib.slots| && n.count < sib.count
    ensures ShiftDone(n, sib, anc, a, lo, r, t, anc')
    ensures 0 <= t.count - r.count <= 1
    ensures sib.count - n.count >= 2 ==> t.count > 0 && anc'.slots[a].key == t.slots[0].key && r.count > n.count
  {
    hide SortedSlots;
    r, t, anc' := n, sib, anc;
    var c := Half(sib.count - n.count);
    if c == 0 {
      assert anc' == Rekeyed(anc, a, anc'.slots[a].key);
      return;
    }
    r := r.(slots := Moved(r.slots, r.count, t.slots, 0, c));
    t := t.(slots := Moved(t.slots, 0, t.slots, c, t.count - c));
    SlotOfRight(anc, a, n, sib, c);
    anc' := Reanchor(anc, t.slots[0].key, false, a);
    r, t := r.(count := r.count + c), t.(count := t.count - c);
    assert r.slots[..r.count] == n.slots[..n.count] + sib.slots[..sib.count][..c];
    assert t.slots[..t.count] == sib.slots[..sib.count][c..];
    CutAt(n.slots[..n.count], sib.slots[..sib.count], c);
  }

  /** Leaf: shift from this page to the sibling. */
  method ShiftRightLeaf(n: Node, sib: Node, anc: Node, ghost a: int, ghost lo: Key)
    returns (r: Node, t: Node, anc': Node)
    requires AnchorFits(anc, a, n, sib) && n.IsLeaf() && |n.slots| == |sib.slots| && sib.count < n.count
    ensures ShiftDone(n, sib, anc, a, lo, r, t, anc')
    ensures 0 <= r.count - t.count <= 1
    ensures n.count - sib.count >= 2 ==> t.count > 0 && anc'.slots[a].key == t.slots[0].key && t.count > sib.count
  {
    hide Moved, SortedSlots, KidsOf;
    r, t, anc' := n, sib, anc;
    var c := Half(n.count - sib.count);
    if c == 0 {
      assert anc' == Rekeyed(anc, a, anc'.slots[a].key);
      return;
    }
    var s := n.count - c - 1;
    t := t.(slots := Moved(t.slots, c, t.slots, 0, t.count));
    t := t.(slots := Moved(t.slots, 0, n.slots, s + 1, c));
    r, t := r.(count := r.count - c), t.(count := t.count + c);
    LeafRightKids(n, sib, lo, anc.slots[a].key, c, t.slots);
    SlotOfLeft(anc, a, n, sib, s + 1);
    anc' := Reanchor(anc, t.slots[0].key, true, a);
  }

  lemma LeafRightKids(n: Node, sib: Node, lo: Key, sep: Key, c: nat, T: seq<Entry>)
    requires n.count <= |n.slots| == |sib.slots| && sib.count <= |sib.slots| && n.IsLeaf() && sib.IsLeaf() &&
      0 < c <= n.count && sib.count + c <= |sib.slots|
    requires T == Moved(Moved(sib.slots, c, sib.slots, 0, sib.count), 0, n.slots, n.count - c, c)
    ensures T[0] == n.slots[n.count - c]
    ensures Shifted(n, sib, lo, sep, n.(count := n.count - c), sib.(slots := T, count := sib.count + c), T[0].key)
  {
    hide Moved, KidsOf;
    var m := n.count - c;
    var r, t := n.(count := m), sib.(slots := T, count := sib.count + c);
    PushedUsed(sib.slots, sib.count, n.slots, m, c);
    FirstOf(T, sib.count + c, n.slots[m..n.count], sib.slots[..sib.count]);
    CutUsed(n.slots, n.count, m, sib.slots[..sib.count]);
    LeafKids(n, lo);
    LeafKids(sib, sep);
    LeafKids(r, lo);
    LeafKids(t, T[0].key);
  }

  /** `c` entries of `src` put in front of `dst[..m]`. */
  lemma PushedUsed(dst: seq<Entry>, m: nat, src: seq<Entry>, from: nat, c: nat)
    requires m + c <= |dst| && from + c <= |src|
    ensures Moved(Moved(dst, c, dst, 0, m), 0, src, from, c)[..m + c] == src[from..from + c] + dst[..m]
  {
  }

  lemma LeafKids(n: Node, lo: Key)
    requires n.count <= |n.slots| && n.IsLeaf()
    ensures KidsOf(lo, n) == n.slots[..n.count]
  {
  }

  lemma FirstOf(T: seq<Entry>, k: nat, A: seq<Entry>, B: seq<Entry>)
    requires k <= |T| && T[..k] == A + B && |A| > 0
    ensures k > 0 && T[0] == A[0]
  {
    assert T[0] == T[..k][0];
  }

  lemma CutUsed(s: seq<Entry>, n: nat, m: nat, B: seq<Entry>)
    requires m <= n <= |s|
    ensures s[..m] + (s[m..n] + B) == s[..n] + B
  {
  }

  /** Internal pages: the first `m` kids of the sibling moved to the end of `n`. */
  ghost predicate KidsLeft(n: Node, sib: Node, sep: Key, m: nat, r: Node, t: Node) {
    && n.count <= |n.slots| && 1 <= m <= sib.count <= |sib.slots| && Fits(r, |n.slots|) && Fits(t, |sib.slots|)
    && !n.IsLeaf() && !sib.IsLeaf() && r.ptrLeft == n.ptrLeft && r.left == n.left && r.right == n.right
    && t.ptrLeft == sib.slots[m - 1].ptr != 0 && t.left == sib.left && t.right == sib.right
    && r.count == n.count + m && t.count == sib.count - m
    && r.slots[..r.count] == n.slots[..n.count] + [Entry(sep, sib.ptrLeft)] + sib.slots[..m - 1]
    && t.slots[..t.count] == sib.slots[m..sib.count]
  }

  lemma RegroupLeft(h: seq<Entry>, N: seq<Entry>, e: Entry, S: seq<Entry>, m: nat)
    requires 1 <= m <= |S|
    ensures h + (N + [e] + S[..m - 1]) + ([S[m - 1]] + S[m..]) == (h + N) + ([e] + S)
  {
  }

  lemma KidsLeftShifts(n: Node, sib: Node, lo: Key, sep: Key, m: nat, r: Node, t: Node)
    requires KidsLeft(n, sib, sep, m, r, t)
    ensures Shifted(n, sib, lo, sep, r, t, sib.slots[m - 1].key)
  {
    var S := sib.slots[..sib.count];
    assert S[..m - 1] == sib.slots[..m - 1] && S[m..] == sib.slots[m..sib.count];
    assert Entry(sib.slots[m - 1].key, t.ptrLeft) == S[m - 1];
    RegroupLeft([Entry(lo, n.ptrLeft)], n.slots[..n.count], Entry(sep, sib.ptrLeft), S, m);
  }

  /** Internal pages: the last `m` kids of `n` moved to the front of the sibling. */
  ghost predicate KidsRight(n: Node, sib: Node, sep: Key, m: nat, r: Node, t: Node) {
    && 1 <= m <= n.count <= |n.slots| && sib.count <= |sib.slots| && Fits(r, |n.slots|) && Fits(t, |sib.slots|)
    && !n.IsLeaf() && !sib.IsLeaf() && r.ptrLeft == n.ptrLeft && r.left == n.left && r.right == n.right
    && t.ptrLeft == n.slots[n.count - m].ptr != 0 && t.left == sib.left && t.right == sib.right
    && r.count == n.count - m && t.count == sib.count + m
    && r.slots[..r.count] == n.slots[..n.count - m]
    && t.slots[..t.count] == n.slots[n.count - m + 1..n.count] + [Entry(sep, sib.ptrLeft)] + sib.slots[..sib.count]
  }

  lemma RegroupRight(h: seq<Entry>, N: seq<Entry>, e: Entry, S: seq<Entry>, k: nat)
    requires k < |N|
    ensures (h + N[..k]) + ([N[k]] + (N[k + 1..] + [e] + S)) == (h + N) + ([e] + S)
  {
  }

  lemma KidsRightShifts(n: Node, sib: Node, lo: Key, sep: Key, m: nat, r: Node, t: Node)
    requires KidsRight(n, sib, sep, m, r, t)
    ensures Shifted(n, sib, lo, sep, r, t, n.slots[n.count - m].key)
  {
    var N, k := n.slots[..n.count], n.count - m;
    assert N[..k] == n.slots[..k] && N[k + 1..] == n.slots[k + 1..n.count];
    assert Entry(n.slots[k].key, t.ptrLeft) == N[k];
    RegroupRight([Entry(lo, n.ptrLeft)], N, Entry(sep, sib.ptrLeft), sib.slots[..sib.count], k);
  }

  /** First phase of an internal shift to the left: one kid goes over, through the anchor. */
  method RotateLeft(n: Node, sib: Node, anc: Node, ghost a: int) returns (r: Node, t: Node, anc': Node, slot: int)
    requires 0 <= a < anc.count <= |anc.slots| && anc.count <= 0xFFFF && SortedSlots(anc)
    requires n.count < |n.slots| == |sib.slots| && 1 <= sib.count <= |sib.slots| && !n.IsLeaf() && !sib.IsLeaf()
    requires IsSlot(anc, sib.slots[0].key, a) && sib.slots[0].ptr != 0
    ensures KidsLeft(n, sib, anc.slots[a].key, 1, r, t) && slot == a && anc' == Rekeyed(anc, a, sib.slots[0].key)
    ensures forall x :: 0 <= x < t.count ==> t.slots[x] == sib.slots[x + 1]
  {
    var cmp;
    slot, cmp := GetSlot(anc, sib.slots[0].key);
    SlotUnique(anc, sib.slots[0].key, slot, a);
    r := n.(slots := n.slots[n.count := Entry(anc.slots[slot].key, sib.ptrLeft)]);
    t := sib.(ptrLeft := sib.slots[0].ptr);
    anc' := Rekeyed(anc, slot, sib.slots[0].key);
    t := t.(slots := Moved(t.slots, 0, t.slots, 1, t.count - 1));
    r, t := r.(count := r.count + 1), t.(count := t.count - 1);
  }

  /** Second phase: the anchor's key and `c` entries go over, the next entry becomes the anchor's key. */
  method MoveLeft(n: Node, sib: Node, anc: Node, slot: nat, c: nat) returns (r: Node, t: Node, anc': Node)
    requires slot < anc.count <= |anc.slots| && anc.count <= 0xFFFF && SortedSlots(anc)
    requires 1 <= c < sib.count <= |sib.slots| == |n.slots| && n.count + c < |n.slots| && !n.IsLeaf() && !sib.IsLeaf()
    requires IsSlot(anc, sib.slots[c].key, slot) && sib.slots[c].ptr != 0
    ensures KidsLeft(n, sib, anc.slots[slot].key, c + 1, r, t) && anc' == Rekeyed(anc, slot, sib.slots[c].key)
  {
    r := n.(slots := n.slots[n.count := Entry(anc.slots[slot].key, sib.ptrLeft)], count := n.count + 1);
    r := r.(slots := Moved(r.slots, r.count, sib.slots, 0, c));
    t := sib.(slots := Moved(sib.slots, 0, sib.slots, c, sib.count - c));
    t := t.(ptrLeft := t.slots[0].ptr);
    anc' := Reanchor(anc, t.slots[0].key, false, slot);
    t := t.(slots := Moved(t.slots, 0, t.slots, 1, t.count - 1));
    r, t := r.(count := r.count + c), t.(count := t.count - c - 1);
    MoveLeftUsed(n.slots, n.count, anc.slots[slot].key, sib, c);
  }

  lemma MoveLeftUsed(N: seq<Entry>, k: nat, sep: Key, sib: Node, c: nat)
    requires 1 <= c < sib.count <= |sib.slots| == |N| && k + c < |N|
    ensures Moved(N[k := Entry(sep, sib.ptrLeft)], k + 1, sib.slots, 0, c)[..k + 1 + c] == N[..k] +
      [Entry(sep, sib.ptrLeft)] + sib.slots[..c]
    ensures var t := Moved(sib.slots, 0, sib.slots, c, sib.count - c);
      t[0] == sib.slots[c] && Moved(t, 0, t, 1, sib.count - 1)[..sib.count - c - 1] == sib.slots[c + 1..sib.count]
  {
  }

  lemma ShiftedTwice(n: Node, sib: Node, lo: Key, s0: Key, r1: Node, t1: Node, s1: Key, r2: Node, t2: Node, s2: Key)
    requires Shifted(n, sib, lo, s0, r1, t1, s1) && Shifted(r1, t1, lo, s1, r2, t2, s2)
    ensures Shifted(n, sib, lo, s0, r2, t2, s2)
  {
  }

  /** Raising the separator to one of the sibling's keys keeps the anchor in order. */
  lemma RekeyedRight(anc: Node, a: int, n: Node, sib: Node, x: nat, y: nat)
    requires AnchorFits(anc, a, n, sib) && x < y < sib.count
    ensures SortedSlots(Rekeyed(anc, a, sib.slots[x].key)) &&
      IsSlot(Rekeyed(anc, a, sib.slots[x].key), sib.slots[y].key, a)
  {
    var r := Rekeyed(anc, a, sib.slots[x].key);
    forall u, v | 0 <= u < v < r.count ensures r.slots[u].key < r.slots[v].key {
      assert v > a ==> anc.slots[a + 1].key <= anc.slots[v].key;
    }
  }

  /** Internal: shift from the sibling to this page. */
  method ShiftLeftInner(n: Node, sib: Node, anc: Node, ghost a: int, ghost lo: Key)
    returns (r: Node, t: Node, anc': Node)
    requires AnchorFits(anc, a, n, sib) && !n.IsLeaf() && |n.slots| == |sib.slots| && n.count < sib.count
    requires forall x :: 0 <= x < sib.count ==> sib.slots[x].ptr != 0
    ensures ShiftDone(n, sib, anc, a, lo, r, t, anc')
    ensures -1 <= t.count - r.count <= 3 && r.count > n.count && (sib.count > 1 ==> t.count > 0)
  {
    hide KidsOf, Moved, SortedSlots, IsSlot;
    var slot;
    SlotOfRight(anc, a, n, sib, 0);
    r, t, anc', slot := RotateLeft(n, sib, anc, a);
    KidsLeftShifts(n, sib, lo, anc.slots[a].key, 1, r, t);
    var c := Half(t.count - r.count);
    if c == 0 { return; }
    c := c - 1;
    if c == 0 { return; }
    ghost var r1, t1, k1 := r, t, sib.slots[0].key;
    RekeyedRight(anc, a, n, sib, 0, c + 1);
    r, t, anc' := MoveLeft(r, t, anc', slot, c);
    KidsLeftShifts(r1, t1, lo, k1, c + 1, r, t);
    ShiftedTwice(n, sib, lo, anc.slots[a].key, r1, t1, k1, r, t, t1.slots[c].key);
  }

  /** First phase of an internal shift to the right. Slot 0 of the sibling is read even if the
      sibling just lost its last entry. */
  method RotateRight(n: Node, sib: Node, anc: Node, ghost a: int) returns (r: Node, t: Node, anc': Node, slot: int)
    requires 0 <= a < anc.count <= |anc.slots| && anc.count <= 0xFFFF && SortedSlots(anc)
    requires sib.count < |sib.slots| == |n.slots| && 1 <= n.count <= |n.slots| && !n.IsLeaf() && !sib.IsLeaf()
    requires IsSlot(anc, sib.slots[0].key, a) && n.slots[n.count - 1].ptr != 0
    ensures KidsRight(n, sib, anc.slots[a].key, 1, r, t) && slot == a &&
      anc' == Rekeyed(anc, a, n.slots[n.count - 1].key)
    ensures r == n.(count := n.count - 1)
  {
    var cmp;
    slot, cmp := GetSlot(anc, sib.slots[0].key);
    SlotUnique(anc, sib.slots[0].key, slot, a);
    t := sib.(slots := Moved(sib.slots, 1, sib.slots, 0, sib.count));
    t := t.(slots := t.slots[0 := Entry(anc.slots[slot].key, t.ptrLeft)]);
    t := t.(ptrLeft := n.slots[n.count - 1].ptr);
    anc' := Rekeyed(anc, slot, n.slots[n.count - 1].key);
    r, t := n.(count := n.count - 1), t.(count := t.count + 1);
    RotateRightUsed(n.slots, n.count, sib, Entry(anc.slots[a].key, sib.ptrLeft));
  }

  lemma RotateRightUsed(N: seq<Entry>, k: nat, sib: Node, e: Entry)
    requires sib.count < |sib.slots| && 1 <= k <= |N|
    ensures Moved(sib.slots, 1, sib.slots, 0, sib.count)[0 := e][..sib.count + 1] == N[k..k] + [e] +
      sib.slots[..sib.count]
  {
  }

  /** Second phase: the anchor's key and the last `c` entries go over, the entry before them becomes
      the anchor's key; it is read from a slot that is no longer in use. */
  method MoveRight(n: Node, sib: Node, anc: Node, slot: nat, c: nat) returns (r: Node, t: Node, anc': Node)
    requires slot < anc.count <= |anc.slots| && anc.count <= 0xFFFF && SortedSlots(anc)
    requires 1 <= c < n.count <= |n.slots| == |sib.slots| && sib.count + c < |sib.slots| && !n.IsLeaf() && !sib.IsLeaf()
    requires IsSlot(anc, n.slots[n.count - c - 1].key, slot - 1) && n.slots[n.count - c - 1].ptr != 0
    ensures KidsRight(n, sib, anc.slots[slot].key, c + 1, r, t) &&
      anc' == Rekeyed(anc, slot, n.slots[n.count - c - 1].key)
  {
    hide Moved;
    t := sib.(slots := Moved(sib.slots, 1, sib.slots, 0, sib.count));
    t := t.(slots := t.slots[0 := Entry(anc.slots[slot].key, t.ptrLeft)], count := t.count + 1);
    var s := n.count - c - 1;
    t := t.(slots := Moved(t.slots, c, t.slots, 0, t.count));
    t := t.(slots := Moved(t.slots, 0, n.slots, s + 1, c));
    r, t := n.(count := n.count - c), t.(count := t.count + c);
    t := t.(ptrLeft := r.slots[r.count - 1].ptr);
    r := r.(count := r.count - 1);
    anc' := Reanchor(anc, r.slots[s].key, true, slot);
    MoveRightUsed(n.slots, s + 1, sib, Entry(anc.slots[slot].key, sib.ptrLeft), c);
  }

  lemma MoveRightUsed(N: seq<Entry>, from: nat, sib: Node, e: Entry, c: nat)
    requires sib.count + c < |sib.slots| && from + c <= |N|
    ensures var u := Moved(sib.slots, 1, sib.slots, 0, sib.count)[0 := e];
      Moved(Moved(u, c, u, 0, sib.count + 1), 0, N, from, c)[..sib.count + 1 + c] == N[from..from + c] + [e] +
        sib.slots[..sib.count]
  {
    var u := Moved(sib.slots, 1, sib.slots, 0, sib.count)[0 := e];
    RotateRightUsed([e], 1, sib, e);
    PushedUsed(u, sib.count + 1, N, from, c);
    Assoc(N[from..from + c], [e], sib.slots[..sib.count]);
  }

  /** Lowering the separator to one of the left page's keys keeps the anchor in order. */
  lemma RekeyedLeft(anc: Node, a: int, n: Node, sib: Node, x: nat, y: nat)
    requires AnchorFits(anc, a, n, sib) && x < y < n.count
    ensures SortedSlots(Rekeyed(anc, a, n.slots[y].key)) &&
      IsSlot(Rekeyed(anc, a, n.slots[y].key), n.slots[x].key, a - 1)
  {
    var r := Rekeyed(anc, a, n.slots[y].key);
    assert a > 0 ==> anc.slots[a - 1].key <= n.slots[x].key < n.slots[y].key;
    forall u, v | 0 <= u < v < r.count ensures r.slots[u].key < r.slots[v].key {
      assert u < a ==> anc.slots[u].key <= anc.slots[a - 1].key;
    }
  }

  /** Internal: shift from this page to the sibling. */
  method ShiftRightInner(n: Node, sib: Node, anc: Node, ghost a: int, ghost lo: Key)
    returns (r: Node, t: Node, anc': Node)
    requires AnchorFits(anc, a, n, sib) && !n.IsLeaf() && |n.slots| == |sib.slots| && sib.count < n.count
    requires IsSlot(anc, sib.slots[0].key, a)
    requires forall x :: 0 <= x < n.count ==> n.slots[x].ptr != 0
    ensures ShiftDone(n, sib, anc, a, lo, r, t, anc')
    ensures -1 <= r.count - t.count <= 3 && t.count > sib.count && (n.count > 1 ==> r.count > 0)
  {
    hide KidsOf, Moved, SortedSlots, IsSlot;
    var slot;
    r, t, anc', slot := RotateRight(n, sib, anc, a);
    KidsRightShifts(n, sib, lo, anc.slots[a].key, 1, r, t);
    var c := Half(r.count - t.count);
    if c == 0 { return; }
    c := c - 1;
    if c == 0 { return; }
    ghost var r1, t1, k1 := r, t, n.slots[n.count - 1].key;
    RekeyedLeft(anc, a, n, sib, r.count - c - 1, n.count - 1);
    r, t, anc' := MoveRight(r, t, anc', slot, c);
    KidsRightShifts(r1, t1, lo, k1, c + 1, r, t);
    ShiftedTwice(n, sib, lo, anc.slots[a].key, r1, t1, k1, r, t, r1.slots[r1.count - c - 1].key);
  }
}
