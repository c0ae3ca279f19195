/** The B+tree behaves as a finite map from keys to records, over any run of operations. */
module BtreeMap {
  import opened Collections
  import opened BtreeNode
  import opened BtreeLevels
  import opened BtreeBackend
  import opened NodeInsert
  import opened TreeInsert
  import opened BtreeInsert
  import opened BtreeErase
  import BtreeFind

  ghost function AsMap(C: seq<Entry>): map<Key, nat> {
    if C == [] then map[] else AsMap(C[..|C| - 1])[C[|C| - 1].key := C[|C| - 1].ptr]
  }

  lemma {:induction false} AsMapKeys(C: seq<Entry>, key: Key)
    ensures key in AsMap(C) <==> Present(C, key)
  {
    if C != [] {
      var D := C[..|C| - 1];
      AsMapKeys(D, key);
      if Present(C, key) {
        var o :| 0 <= o < |C| && C[o].key == key;
        if o < |D| { assert D[o].key == key; }
      }
      if Present(D, key) {
        var o :| 0 <= o < |D| && D[o].key == key;
        assert C[o].key == key;
      }
      assert C[|C| - 1].key == key ==> Present(C, key);
    }
  }

  lemma {:induction false} AsMapAt(C: seq<Entry>, o: nat)
    requires Ascending(C, 0) && o < |C|
    ensures C[o].key in AsMap(C) && AsMap(C)[C[o].key] == C[o].ptr
  {
    if o < |C| - 1 {
      var D := C[..|C| - 1];
      assert Ascending(D, 0) by {
        forall a, b | 0 <= a < b < |D| ensures Below(D, a, b) { assert Below(C, a, b); }
      }
      AsMapAt(D, o);
      assert Below(C, o, |C| - 1);
    }
  }

  /** Two entry sequences are the same map when they have the same entries. */
  lemma SameMap(C: seq<Entry>, m: map<Key, nat>)
    requires Ascending(C, 0)
    requires forall o :: 0 <= o < |C| ==> C[o].key in m && m[C[o].key] == C[o].ptr
    requires forall k :: k in m ==> Present(C, k)
    ensures AsMap(C) == m
  {
    forall k ensures k in m <==> k in AsMap(C) { AsMapKeys(C, k); }
    forall k | k in m ensures AsMap(C)[k] == m[k] {
      var o :| 0 <= o < |C| && C[o].key == k;
      AsMapAt(C, o);
    }
  }

  lemma InsertRefines(C: seq<Entry>, C': seq<Entry>, key: Key, ptr: nat, write: bool, st: Status)
    requires Ascending(C, 0) && Ascending(C', 0) && InsertEffect(C, C', key, ptr, write, st)
    ensures st.DuplicateKey? <==> key in AsMap(C) && !write
    ensures AsMap(C') == if st.DuplicateKey? then AsMap(C) else AsMap(C)[key := ptr]
  {
    AsMapKeys(C, key);
    if !Present(C, key) {
      var o :| 0 <= o <= |C| && C' == InsertAt(C, o, Entry(key, ptr));
      InsertedMap(C, C', o, key, ptr);
    } else if write {
      var o :| 0 <= o < |C| && C[o].key == key && C' == C[o := Entry(key, ptr)];
      WrittenMap(C, C', o, key, ptr);
    }
  }

  lemma InsertedMap(C: seq<Entry>, C': seq<Entry>, o: nat, key: Key, ptr: nat)
    requires Ascending(C, 0) && Ascending(C', 0) && o <= |C| && C' == InsertAt(C, o, Entry(key, ptr)) &&
      !Present(C, key)
    ensures AsMap(C') == AsMap(C)[key := ptr]
  {
    var m := AsMap(C)[key := ptr];
    forall x | 0 <= x < |C'| ensures C'[x].key in m && m[C'[x].key] == C'[x].ptr {
      if x != o { AsMapAt(C, if x < o then x else x - 1); }
    }
    forall k | k in m ensures Present(C', k) {
      if k == key { assert C'[o].key == k; } else {
        AsMapKeys(C, k);
        var x :| 0 <= x < |C| && C[x].key == k;
        assert C'[if x < o then x else x + 1].key == k;
      }
    }
    SameMap(C', m);
  }

  lemma WrittenMap(C: seq<Entry>, C': seq<Entry>, o: nat, key: Key, ptr: nat)
    requires Ascending(C, 0) && Ascending(C', 0) && o < |C| && C[o].key == key && C' == C[o := Entry(key, ptr)]
    ensures AsMap(C') == AsMap(C)[key := ptr]
  {
    var m := AsMap(C)[key := ptr];
    forall x | 0 <= x < |C'| ensures C'[x].key in m && m[C'[x].key] == C'[x].ptr {
      if x != o {
        AsMapAt(C, x);
        assert if x < o then Below(C, x, o) else Below(C, o, x);
      }
    }
    forall k | k in m ensures Present(C', k) {
      AsMapKeys(C, k);
      if k == key { assert C'[o].key == k; } else {
        var x :| 0 <= x < |C| && C[x].key == k;
        assert C'[x].key == k;
      }
    }
    SameMap(C', m);
  }

  lemma EraseRefines(C: seq<Entry>, C': seq<Entry>, key: Key)
    requires Ascending(C, 0) && Ascending(C', 0) && Removed(C, C', key)
    ensures key in AsMap(C) && AsMap(C') == AsMap(C) - {key}
  {
    var o :| 0 <= o < |C| && C[o].key == key && C' == RemoveAt(C, o);
    AsMapAt(C, o);
    var m := AsMap(C) - {key};
    forall x | 0 <= x < |C'| ensures C'[x].key in m && m[C'[x].key] == C'[x].ptr {
      var y := if x < o then x else x + 1;
      AsMapAt(C, y);
      assert if y < o then Below(C, y, o) else Below(C, o, y);
    }
    forall k | k in m ensures Present(C', k) {
      AsMapKeys(C, k);
      var x :| 0 <= x < |C| && C[x].key == k;
      assert C'[if x < o then x else x - 1].key == k;
    }
    SameMap(C', m);
  }

  lemma FindRefines(C: seq<Entry>, key: Key, found: bool, e: Entry)
    requires Ascending(C, 0) && BtreeFind.FindOk(C, key, true, false, false, found, e)
    ensures found <==> key in AsMap(C)
    ensures found ==> e == Entry(key, AsMap(C)[key])
  {
    AsMapKeys(C, key);
    if Present(C, key) {
      var o :| 0 <= o < |C| && C[o].key == key;
      assert BtreeFind.IsExact(C, key, o);
    }
    if found {
      var g :| BtreeFind.IsExact(C, key, g) && C[g] == e;
      AsMapAt(C, g);
    }
  }

  // ------------------------------------------------------------------------------ whole runs

  /** Append is the insert that tries a hinted leaf first, Search a lookup with any flags that may do so.
      The hinted leaf is named by a key that it covers. */
  datatype Op =
    | Insert(key: Key, ptr: nat, overwrite: bool, sequential: bool)
    | Append(key: Key, ptr: nat, overwrite: bool, sequential: bool, append: bool, prepend: bool, leaf: Key)
    | Delete(key: Key)
    | Lookup(key: Key)
    | Search(key: Key, exact: bool, lt: bool, gt: bool, hint: Option<Key>)

  datatype Reply = Done | Duplicate | NotFound | Record(key: Key, ptr: nat)

  /** The reference: the finite map after one operation. */
  ghost function Step(m: map<Key, nat>, op: Op): map<Key, nat> {
    match op
    case Insert(k, v, w, _) => if k in m && !w then m else m[k := v]
    case Append(k, v, w, _, _, _, _) => if k in m && !w then m else m[k := v]
    case Delete(k) => m - {k}
    case Lookup(k) => m
    case Search(k, _, _, _, _) => m
  }

  /** The largest smaller and the smallest larger key of the map. */
  ghost predicate IsBelow(m: map<Key, nat>, k: Key, x: Key) {
    x in m && x < k && forall y :: y in m && y < k ==> y <= x
  }

  ghost predicate IsAbove(m: map<Key, nat>, k: Key, x: Key) {
    x in m && k < x && forall y :: y in m && k < y ==> x <= y
  }

  ghost predicate Neighbour(m: map<Key, nat>, k: Key, lt: bool, gt: bool, x: Key) {
    (lt && IsBelow(m, k, x)) || (gt && IsAbove(m, k, x))
  }

  /** And what it answers. */
  ghost predicate ReplyOk(m: map<Key, nat>, op: Op, r: Reply) {
    match op
    case Insert(k, v, w, _) => r == if k in m && !w then Duplicate else Done
    case Append(k, v, w, _, _, _, _) => r == if k in m && !w then Duplicate else Done
    case Delete(k) => r == if k in m then Done else NotFound
    case Lookup(k) => r == if k in m then Record(k, m[k]) else NotFound
    case Search(k, exact, lt, gt, _) =>
      if (exact || !(lt || gt)) && k in m then r == Record(k, m[k])
      else if exists x ::
        Neighbour(m, k, lt, gt, x) then r.Record? && r.key in m && Neighbour(m, k, lt, gt, r.key) && r.ptr == m[r.key]
      else r == NotFound
  }

  ghost function After(m: map<Key, nat>, ops: seq<Op>): map<Key, nat> {
    if ops == [] then m else Step(After(m, ops[..|ops| - 1]), ops[|ops| - 1])
  }

  /** Every leaf covers a key, so every leaf can be hinted. */
  lemma LeafNamed(L: seq<Entry>, j: nat) returns (key: Key)
    requires Ascending(L, 1) && j < |L|
    ensures InRange(L, j, key)
  {
    AscendingKeys(L, 1);
    key := if j > 0 then L[j].key else if |L| > 1 then L[1].key - 1.0 else 0.0;
  }

  lemma MapNeighbour(C: seq<Entry>, k: Key, g: int)
    requires Ascending(C, 0) && 0 <= g < |C|
    ensures BtreeFind.IsPred(C, k, g) <==> IsBelow(AsMap(C), k, C[g].key)
    ensures BtreeFind.IsSucc(C, k, g) <==> IsAbove(AsMap(C), k, C[g].key)
  {
    hide AsMap;
    BtreeFind.NeighbourMeaning(C, k, g);
    AsMapAt(C, g);
    forall y ensures y in AsMap(C) <==> Present(C, y) { AsMapKeys(C, y); }
    forall y | y in AsMap(C) ensures exists i :: 0 <= i < |C| && C[i].key == y { }
    forall i | 0 <= i < |C| ensures C[i].key in AsMap(C) { assert Present(C, C[i].key); }
  }

  lemma SearchRefines(C: seq<Entry>, op: Op, found: bool, e: Entry)
    requires Ascending(C, 0) && op.Search? && BtreeFind.FindOk(C, op.key, op.exact, op.lt, op.gt, found, e)
    ensures ReplyOk(AsMap(C), op, if found then Record(e.key, e.ptr) else NotFound)
  {
    hide AsMap, IsBelow, IsAbove;
    var m, k := AsMap(C), op.key;
    AsMapKeys(C, k);
    if (op.exact || !(op.lt || op.gt)) && k in m {
      var o :| 0 <= o < |C| && C[o].key == k;
      assert BtreeFind.IsExact(C, k, o);
      var g :| BtreeFind.IsExact(C, k, g) && C[g] == e;
      AsMapAt(C, g);
    } else {
      if g :| BtreeFind.IsExact(C, k, g) { assert Present(C, k); }
      if x :| Neighbour(m, k, op.lt, op.gt, x) { InMap(C, k, op.lt, op.gt, x); }
      if found {
        var g :| BtreeFind.Allowed(C, k, op.lt, op.gt, g) && C[g] == e;
        AsMapAt(C, g);
        MapNeighbour(C, k, g);
        assert Neighbour(m, k, op.lt, op.gt, e.key);
      }
    }
  }

  lemma InMap(C: seq<Entry>, k: Key, lt: bool, gt: bool, x: Key)
    requires Ascending(C, 0) && Neighbour(AsMap(C), k, lt, gt, x)
    ensures exists g :: BtreeFind.Allowed(C, k, lt, gt, g)
  {
    hide AsMap;
    AsMapKeys(C, x);
    var g :| 0 <= g < |C| && C[g].key == x;
    MapNeighbour(C, k, g);
    assert BtreeFind.Allowed(C, k, lt, gt, g);
  }

  lemma EntriesAscend(p: Store, root: Addr, s: Shape, cap: nat)
    requires TreeOk(p, root, s, cap, 0)
    ensures Ascending(s.levels[0], 0)
  {
  }

  method Execute(be: Btree, op: Op) returns (r: Reply)
    requires be.Valid()
    modifies be
    ensures be.Valid() && AsMap(be.Contents()) == Step(AsMap(old(be.Contents())), op) &&
      ReplyOk(AsMap(old(be.Contents())), op, r)
  {
    hide Flat, LevelOk, Low, InBounds, AsMap;
    ghost var C := be.Contents();
    EntriesAscend(be.pages, be.root, be.shape, be.maxkeys);
    match op
    case Insert(k, v, w, sequential) =>
      var st := InsertCursor(be, k, v, w, sequential);
      EntriesAscend(be.pages, be.root, be.shape, be.maxkeys);
      InsertRefines(C, be.Contents(), k, v, w, st);
      r := if st.DuplicateKey? then Duplicate else Done;
    case Append(k, v, w, sequential, append, prepend, hinted) =>
      var leaf, j := BtreeFind.DescendToLeaf(be, hinted);
      var st := AppendKey(be, k, v, w, sequential, append, prepend, leaf, j);
      EntriesAscend(be.pages, be.root, be.shape, be.maxkeys);
      InsertRefines(C, be.Contents(), k, v, w, st);
      r := if st.DuplicateKey? then Duplicate else Done;
    case Delete(k) =>
      AsMapKeys(C, k);
      var st, _, _ := Erase(be, k);
      EntriesAscend(be.pages, be.root, be.shape, be.maxkeys);
      if st.Erased? {
        EraseRefines(C, be.Contents(), k);
        r := Done;
      } else {
        assert AsMap(C) - {k} == AsMap(C);
        r := NotFound;
      }
    case Lookup(k) =>
      var found, e, sign := BtreeFind.Find(be, k, true, false, false, 0, 0);
      FindRefines(C, k, found, e);
      r := if found then Record(e.key, e.ptr) else NotFound;
    case Search(k, exact, lt, gt, hint) =>
      var leaf: Addr := 0;
      ghost var j: nat := 0;
      if hint.Some? {
        leaf, j := BtreeFind.DescendToLeaf(be, hint.value);
      }
      var found, e, sign := BtreeFind.Find(be, k, exact, lt, gt, leaf, j);
      SearchRefines(C, op, found, e);
      r := if found then Record(e.key, e.ptr) else NotFound;
  }

  /** Any run of inserts, erases and lookups, hinted or not and with any flags, answers as the finite map
      does. */
  method Run(be: Btree, ops: seq<Op>) returns (rs: seq<Reply>)
    requires be.Valid()
    modifies be
    ensures be.Valid() && |rs| == |ops|
    ensures AsMap(be.Contents()) == After(AsMap(old(be.Contents())), ops)
    ensures forall i :: 0 <= i < |ops| ==> ReplyOk(After(AsMap(old(be.Contents())), ops[..i]), ops[i], rs[i])
  {
    hide TreeOk, AsMap, ReplyOk;
    rs := [];
    ghost var m := AsMap(be.Contents());
    for n := 0 to |ops|
      invariant be.Valid() && AsMap(be.Contents()) == After(m, ops[..n]) && |rs| == n
      invariant forall i :: 0 <= i < n ==> ReplyOk(After(m, ops[..i]), ops[i], rs[i])
    {
      var r := Execute(be, ops[n]);
      assert ops[..n + 1][..n] == ops[..n];
      rs := rs + [r];
    }
    assert ops[..|ops|] == ops;
  }

  // ------------------------------------------------------------------------------ the pages decide

  /** Equal up to the separator of the leftmost page, which nobody reads. */
  ghost predicate SameRefs(L: seq<Entry>, M: seq<Entry>) {
    |L| == |M| && (forall x :: 0 < x < |L| ==> L[x] == M[x]) && (|L| > 0 ==> L[0].ptr == M[0].ptr)
  }

  lemma SameRefsFlat(p: Store, L: seq<Entry>, M: seq<Entry>)
    requires |L| > 0 && SameRefs(L, M) && L[0].ptr in p && p[L[0].ptr].count <= |p[L[0].ptr].slots|
    ensures SameRefs(All(p, L), All(p, M))
    ensures p[L[0].ptr].IsLeaf() ==> All(p, L) == All(p, M)
  {
    hide Flat;
    assert L[1..|L|] == M[1..|L|];
    FlatShift(p, L, 1, |L|, M, 1);
    FlatAt(p, L, 0);
    FlatAt(p, M, 0);
    NoPages(p, L);
    NoPages(p, M);
    var K, N, R := Kids(p, L[0]), Kids(p, M[0]), Flat(p, L, 1, |L|);
    assert [] + K + R == K + R && [] + N + R == N + R;
    assert SameRefs(K, N);
  }

  lemma NoPages(p: Store, L: seq<Entry>)
    ensures Flat(p, L, 0, 0) == []
  {
  }

  lemma LevelLeaf(p: Store, root: Addr, s: Shape, cap: nat, i: nat)
    requires TreeOk(p, root, s, cap, 0) && 1 <= i < |s.levels|
    ensures |s.levels[i]| > 0 && s.levels[i][0].ptr in p && p[s.levels[i][0].ptr].count <= |p[s.levels[i][0].ptr].slots|
    ensures p[s.levels[i][0].ptr].IsLeaf() <==> i == 1
    ensures s.levels[i - 1] == All(p, s.levels[i])
  {
    hide Flat;
    assert i > 1 ==> Linked(p, s.levels, i);
  }

  /** What a tree contains is determined by its pages and root alone. */
  lemma {:induction false} PagesDecide(p: Store, root: Addr, s: Shape, t: Shape, cap: nat, i: nat, k: nat)
    requires TreeOk(p, root, s, cap, 0) && TreeOk(p, root, t, cap, 0)
    requires 1 <= i < |s.levels| && 1 <= k < |t.levels| && SameRefs(s.levels[i], t.levels[k])
    ensures s.levels[0] == t.levels[0] && i == k
  {
    hide Flat, LevelOk, Low;
    LevelLeaf(p, root, s, cap, i);
    LevelLeaf(p, root, t, cap, k);
    SameRefsFlat(p, s.levels[i], t.levels[k]);
    if i > 1 { PagesDecide(p, root, s, t, cap, i - 1, k - 1); }
  }

  lemma ContentsUnique(p: Store, root: Addr, s: Shape, t: Shape, cap: nat)
    requires TreeOk(p, root, s, cap, 0) && TreeOk(p, root, t, cap, 0)
    ensures s.levels[0] == t.levels[0] && |s.levels| == |t.levels|
  {
    hide Flat, LevelOk, Low;
    PagesDecide(p, root, s, t, cap, s.Top(), t.Top());
  }
}
