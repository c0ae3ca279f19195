/** A cursor over a whole database: the keys of the btree (src/btree_cursor.cc) and the nodes of the
    transaction tree, merged (src/cursor.cc). */
module DatabaseWalk {
  import opened Collections
  import opened BtreeNode
  import opened BtreeLevels
  import opened BtreeBackend
  import opened TxnModel
  import opened MergeCursor
  import BtreeFind
  import BtreeMap
  import Transactions
  import TxnLists

  // ------------------------------------------------------------------------------ the btree

  ghost function KeysOf(C: seq<Entry>): (r: seq<BtreeNode.Key>)
    ensures |r| == |C| && forall i :: 0 <= i < |C| ==> r[i] == C[i].key
  {
    seq(|C|, i requires 0 <= i < |C| => C[i].key)
  }

  /** __move_first: down the left edge to the first leaf. */
  method FirstLeaf(be: Btree) returns (page: Addr)
    requires be.Valid()
    ensures be.shape.levels[1] != [] && page == be.shape.levels[1][0].ptr && page in be.pages
  {
    page := be.root;
    ghost var i := be.shape.Top();
    BtreeMap.LevelLeaf(be.pages, be.root, be.shape, be.maxkeys, i);
    while !be.pages[page].IsLeaf()
      invariant 1 <= i < |be.shape.levels| && |be.shape.levels[i]| > 0 && page == be.shape.levels[i][0].ptr &&
        page in be.pages
      invariant be.pages[page].IsLeaf() <==> i == 1
      decreases i
    {
      FirstKid(be.pages, be.shape, be.maxkeys, 0, i, 0);
      assert Off(be.pages, be.shape.levels[i], 0) == 0;
      page := be.pages[page].ptrLeft;
      i := i - 1;
      BtreeMap.LevelLeaf(be.pages, be.root, be.shape, be.maxkeys, i);
    }
  }

  /** A btree cursor from the first to the last entry: all keys in order. */
  method BtreeKeys(be: Btree) returns (B: seq<BtreeNode.Key>)
    requires be.Valid()
    ensures B == KeysOf(be.Contents())
  {
    var page := FirstLeaf(be);
    var idx: nat := 0;
    ghost var j: nat := 0;
    B := [];
    EmptyFirst(be.pages, be.root, be.shape, be.maxkeys);
    if be.pages[page].count == 0 {
      return;
    }
    LeafItem(be.pages, be.shape, be.maxkeys, 0, 0, 0);
    B := [be.pages[page].slots[0].key];
    while true
      invariant j < |be.shape.levels[1]| && be.shape.levels[1][j].ptr == page && page in be.pages &&
        idx < be.pages[page].count
      invariant |B| == Off(be.pages, be.shape.levels[1], j) + idx + 1 <= |be.shape.levels[0]|
      invariant forall x :: 0 <= x < |B| ==> B[x] == be.shape.levels[0][x].key
      decreases |be.shape.levels[0]| - |B|
    {
      var ok, page', idx', j' := BtreeFind.StepRight(be, page, idx, j);
      if !ok {
        return;
      }
      page, idx, j := page', idx', j';
      LeafItem(be.pages, be.shape, be.maxkeys, 0, j, idx);
      B := B + [be.pages[page].slots[idx].key];
    }
  }

  lemma EmptyFirst(p: Store, root: Addr, s: Shape, cap: nat)
    requires TreeOk(p, root, s, cap, 0)
    ensures s.levels[1] != [] && s.levels[1][0].ptr in p && (p[s.levels[1][0].ptr].count == 0 ==> s.levels[0] == [])
    ensures Off(p, s.levels[1], 0) == 0
  {
    BtreeMap.LevelLeaf(p, root, s, cap, 1);
    LeafOff(p, s, cap, 0, 0);
  }

  // ------------------------------------------------------------------------------ the transaction tree

  /** The nodes of the transaction tree, as `me` sees them. */
  ghost predicate Describes(T: seq<TxnNode>, hist: seq<Op>, st: States, me: TxnId) {
    && (forall x, y :: 0 <= x < y < |T| ==> T[x].key < T[y].key)
    && (forall x :: 0 <= x < |T| ==> !Gone(hist, T[x].key) && IsErased(hist, st, me, T[x].key, T[x].erased))
    && (forall k :: !Gone(hist, k) ==> HasNode(T, k))
  }

  ghost predicate HasNode(T: seq<TxnNode>, k: TxnModel.Key) { exists x :: 0 <= x < |T| && T[x].key == k }

  ghost predicate IsErased(hist: seq<Op>, st: States, me: TxnId, k: TxnModel.Key, erased: bool) {
    var op := NewestSeen(hist, st, me, k);
    erased <==> op.Some? && op.value.kind.Del?
  }

  /** Without pending operations there is nothing to see. */
  lemma GoneSeen(hist: seq<Op>, st: States, me: TxnId, k: TxnModel.Key)
    requires Gone(hist, k)
    ensures NewestSeen(hist, st, me, k) == None
  {
    NodeView(hist, st, me, k);
  }

  /** What is pending and not contested is visible. */
  lemma {:induction false} PendingSeen(hist: seq<Op>, st: States, me: TxnId, k: TxnModel.Key)
    requires !Gone(hist, k) && !Contested(hist, st, me, k)
    requires forall i :: 0 <= i < |hist| ==> hist[i].txn in st && !st[hist[i].txn].Aborted?
    ensures NewestSeen(hist, st, me, k).Some?
  {
    var n := |hist| - 1;
    if hist[n].key == k {
      assert !Foreign(hist[n], st, me);
    } else {
      PendingSeen(hist[..n], st, me, k);
    }
  }

  /** A key has to be visited exactly if a lookup finds it. */
  lemma ViewIsAnswer(C: seq<Entry>, T: seq<TxnNode>, hist: seq<Op>, st: States, me: TxnId, k: TxnModel.Key)
    requires Ascending(C, 0) && Describes(T, hist, st, me) && !Contested(hist, st, me, k)
    requires forall i :: 0 <= i < |hist| ==> hist[i].txn in st && !st[hist[i].txn].Aborted?
    ensures InView(KeysOf(C), T, k) <==> Answered(BtreeMap.AsMap(C), hist, st, me, k).Found?
  {
    hide NewestSeen, ApplyAll, Seen, Contested, Gone, BtreeMap.AsMap;
    NewestDecides(BtreeMap.AsMap(C), hist, st, me, k);
    BtreeMap.AsMapKeys(C, k);
    if Gone(hist, k) {
      GoneSeen(hist, st, me, k);
      if k in KeysOf(C) { var i :| 0 <= i < |C| && KeysOf(C)[i] == k; }
    } else {
      PendingSeen(hist, st, me, k);
      assert HasNode(T, k);
      var x :| 0 <= x < |T| && T[x].key == k;
      assert T[x] == TxnNode(k, T[x].erased);
    }
  }

  /** The nodes in key order, with what the newest visible operation of each did. */
  method TreeNodes(db: Transactions.TxnDb, me: TxnId) returns (T: seq<TxnNode>)
    requires db.Valid() && db.IsActive(me)
    requires forall k :: db.LiveAt(k) && !Contested(db.hist, db.state, me, k)
    ensures Describes(T, db.hist, db.state, me)
  {
    hide Contested, NewestSeen, Isolated, TxnLists.Live, HasNode, IsErased, BtreeBackend.Btree.Valid, TxnLists.Holds;
    var keys := db.lists.nodes.Keys;
    T := [];
    while keys != {}
      invariant keys <= db.lists.nodes.Keys
      invariant forall x, y :: 0 <= x < y < |T| ==> T[x].key < T[y].key
      invariant forall x :: 0 <= x < |T| ==>
        T[x].key in db.lists.nodes.Keys - keys && IsErased(db.hist, db.state, me, T[x].key, T[x].erased)
      invariant forall k :: k in db.lists.nodes.Keys - keys ==> HasNode(T, k)
      decreases |keys|
    {
      ghost var any := Any(keys);
      var k: TxnModel.Key :| k in keys;
      assert db.LiveAt(k);
      var r := Transactions.Walk(db.lists, db.state, me, k, db.refs, db.hist);
      Shown(db.hist, db.state, me, k, r);
      var T' := AddNode(T, TxnNode(k, r.Newest? && r.op.kind.Del?));
      forall x | x in db.lists.nodes.Keys - (keys - {k}) ensures HasNode(T', x) { StillNode(T, T', x); }
      T := T';
      keys := keys - {k};
    }
    forall k ensures k in db.lists.nodes <==> !Gone(db.hist, k) {
      TxnLists.NodeSteps(db.lists, db.refs, db.hist, k, TxnLists.KeyRefs(db.lists.ops, db.refs, k));
    }
  }

  lemma Shown(hist: seq<Op>, st: States, me: TxnId, k: TxnModel.Key, r: Transactions.Scan)
    requires !r.Busy? && (r.Newest? <==> NewestSeen(hist, st, me, k).Some?) &&
      (r.Newest? ==> NewestSeen(hist, st, me, k) == Some(r.op))
    ensures IsErased(hist, st, me, k, r.Newest? && r.op.kind.Del?)
  {
  }

  lemma StillNode(T: seq<TxnNode>, T': seq<TxnNode>, k: TxnModel.Key)
    requires (forall m :: m in T ==> m in T') && (HasNode(T, k) || exists m :: m in T' && m.key == k)
    ensures HasNode(T', k)
  {
    if HasNode(T, k) {
      var x :| 0 <= x < |T| && T[x].key == k;
      assert T[x] in T';
    }
    var m :| m in T' && m.key == k;
    var y :| 0 <= y < |T'| && T'[y] == m;
  }

  /** One node more, in its place. */
  method AddNode(T: seq<TxnNode>, n: TxnNode) returns (T': seq<TxnNode>)
    requires (forall x, y :: 0 <= x < y < |T| ==> T[x].key < T[y].key) && forall x :: 0 <= x < |T| ==> T[x].key != n.key
    ensures forall x, y :: 0 <= x < y < |T'| ==> T'[x].key < T'[y].key
    ensures forall x :: 0 <= x < |T'| ==> T'[x] == n || T'[x] in T
    ensures n in T' && forall m :: m in T ==> m in T'
  {
    var i := 0;
    while i < |T| && T[i].key < n.key
      invariant 0 <= i <= |T| && forall x :: 0 <= x < i ==> T[x].key < n.key
    {
      i := i + 1;
    }
    T' := InsertAt(T, i, n);
    forall m | m in T ensures m in T' {
      var x :| 0 <= x < |T| && T[x] == m;
      assert T'[if x < i then x else x + 1] == m;
    }
    assert T'[i] == n;
  }

  // ------------------------------------------------------------------------------ both

  /** FIRST and NEXT to the end: exactly the keys that a lookup finds, once each and ascending. */
  method Scan(db: Transactions.TxnDb, me: TxnId) returns (R: seq<TxnModel.Key>)
    requires db.Valid() && db.IsActive(me)
    requires forall k :: db.LiveAt(k) && !Contested(db.hist, db.state, me, k)
    ensures forall x, y :: 0 <= x < y < |R| ==> R[x] < R[y]
    ensures forall k :: k in R <==> db.Answer(me, k).Found?
  {
    hide Contested, Isolated, TxnLists.Live, TxnLists.Holds, Describes, InView, Answered, BtreeBackend.Btree.Valid;
    var B := BtreeKeys(db.be);
    var T := TreeNodes(db, me);
    BothSorted(db.be, T, db.hist, db.state, me);
    R := WalkForward(B, T);
    forall k ensures InView(B, T, k) <==> db.Answer(me, k).Found? {
      ViewIsAnswer(db.be.Contents(), T, db.hist, db.state, me, k);
    }
  }

  /** LAST and PREVIOUS to the start: the same keys, descending. */
  method ScanBack(db: Transactions.TxnDb, me: TxnId) returns (R: seq<TxnModel.Key>)
    requires db.Valid() && db.IsActive(me)
    requires forall k :: db.LiveAt(k) && !Contested(db.hist, db.state, me, k)
    ensures forall x, y :: 0 <= x < y < |R| ==> R[x] > R[y]
    ensures forall k :: k in R <==> db.Answer(me, k).Found?
  {
    hide Contested, Isolated, TxnLists.Live, TxnLists.Holds, Describes, InView, Answered, BtreeBackend.Btree.Valid;
    var B := BtreeKeys(db.be);
    var T := TreeNodes(db, me);
    BothSorted(db.be, T, db.hist, db.state, me);
    R := WalkBackward(B, T);
    forall k ensures InView(B, T, k) <==> db.Answer(me, k).Found? {
      ViewIsAnswer(db.be.Contents(), T, db.hist, db.state, me, k);
    }
  }

  lemma BothSorted(be: Btree, T: seq<TxnNode>, hist: seq<Op>, st: States, me: TxnId)
    requires be.Valid() && Describes(T, hist, st, me)
    ensures Ascending(be.Contents(), 0) && Sorted(KeysOf(be.Contents()), T)
  {
    BtreeMap.EntriesAscend(be.pages, be.root, be.shape, be.maxkeys);
    AscendingKeys(be.Contents(), 0);
  }
}
