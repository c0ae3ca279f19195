/** Transactions on top of the B+tree (src/db.cc, src/env.cc, src/txn.cc). */
module Transactions {
  import opened Collections
  import opened TxnModel
  import opened TxnFlush
  import TxnLists
  import BtreeBackend
  import BtreeMap
  import BtreeFind

  datatype Scan = Newest(op: Op) | Nothing | Busy

  datatype Check = Proceed | Exists | Missing | Conflicting

  /** What the conflict check of an insert has to say, given what the transaction reads for the key. */
  function InsertCheck(a: Answer, overwrite: bool): Check {
    match a
    case Conflict => Conflicting
    case Found(_) => if overwrite then Proceed else Exists
    case NotFound => Proceed
  }

  /** What the conflict check of an erase has to say. */
  function EraseCheck(a: Answer): Check {
    match a
    case Conflict => Conflicting
    case Found(_) => Proceed
    case NotFound => Missing
  }

  /** The walk over a node's operations from the newest to the oldest, shared by
      db_check_insert_conflicts, db_check_erase_conflicts and db_find_txn. */
  method Walk(l: TxnLists.Lists, st: States, me: TxnId, k: Key, ghost refs: seq<nat>, ghost hist: seq<Op>)
    returns (r: Scan)
    requires TxnLists.Holds(l, refs, hist) && TxnLists.Live(l, refs, k) && Isolated(hist, st) && me in st &&
      !st[me].Aborted?
    ensures r.Busy? <==> Contested(hist, st, me, k)
    ensures !r.Busy? ==> (r.Newest? <==> NewestSeen(hist, st, me, k).Some?)
    ensures r.Newest? ==> NewestSeen(hist, st, me, k) == Some(r.op)
  {
    hide NodeOps, NewestSeen, Contested, Isolated, TxnLists.Holds, TxnLists.KeyRefs;
    ghost var ops, s := NodeOps(hist, k), TxnLists.KeyRefs(l.ops, refs, k);
    TxnLists.NodeSteps(l, refs, hist, k, s);
    NodeIsolated(hist, st, k);
    NodeView(hist, st, me, k);
    assert ops[..|ops|] == ops;
    var a := if k in l.nodes then l.nodes[k].newest else 0;
    ghost var i := |ops|;
    while a != 0
      invariant 0 <= i <= |ops| && a == (if i == 0 then 0 else s[i - 1])
      invariant NewestSeen(ops[..i], st, me, k) == NewestSeen(ops, st, me, k)
      invariant AllAborted(ops[i..], st)
      decreases i
    {
      assert TxnLists.NodeStep(l, s, ops, i - 1);
      WalkOn(ops, st, me, k, i);
      var op := l.ops[a];
      if st[op.txn].Aborted? {
      } else if st[op.txn].Committed? || op.txn == me {
        return Newest(op);
      } else {
        return Busy;
      }
      a := l.inNode.Prev(a);
      i := i - 1;
    }
    NothingSeen(ops, st, me, k);
    return Nothing;
  }

  ghost predicate AllAborted(ops: seq<Op>, st: States) {
    forall x :: 0 <= x < |ops| ==> ops[x].txn in st && st[ops[x].txn].Aborted?
  }

  /** What the walk learns from the operation in front of those it passed. */
  lemma WalkOn(ops: seq<Op>, st: States, me: TxnId, k: Key, i: nat)
    requires 0 < i <= |ops| && Isolated(ops, st) && (forall x :: 0 <= x < |ops| ==> ops[x].key == k)
    requires me in st && !st[me].Aborted? && AllAborted(ops[i..], st)
    requires NewestSeen(ops[..i], st, me, k) == NewestSeen(ops, st, me, k)
    ensures ops[i - 1].txn in st
    ensures st[ops[i - 1].txn].Aborted? ==>
      AllAborted(ops[i - 1..], st) && NewestSeen(ops[..i - 1], st, me, k) == NewestSeen(ops, st, me, k)
    ensures st[ops[i - 1].txn].Committed? || ops[i - 1].txn == me ==>
      NewestSeen(ops, st, me, k) == Some(ops[i - 1]) && !Contested(ops, st, me, k)
    ensures st[ops[i - 1].txn].Active? && ops[i - 1].txn != me ==> Contested(ops, st, me, k)
  {
    assert ops[..i][..i - 1] == ops[..i - 1];
    var op := ops[i - 1];
    forall x | i - 1 < x < |ops| ensures !Foreign(ops[x], st, me) { assert ops[x] == ops[i..][x - i]; }
    if st[op.txn].Aborted? {
      assert ops[i - 1..] == [op] + ops[i..];
    } else if st[op.txn].Committed? || op.txn == me {
      NewestFree(ops, st, me, k, i - 1);
    } else {
      assert Foreign(op, st, me);
    }
  }

  lemma NothingSeen(ops: seq<Op>, st: States, me: TxnId, k: Key)
    requires AllAborted(ops[0..], st)
    ensures NewestSeen(ops[..0], st, me, k) == None && !Contested(ops, st, me, k)
  {
    assert ops[0..] == ops;
  }

  class TxnDb {
    const be: BtreeBackend.Btree

    /** The operations of all transactions that are not flushed yet, in their linked lists. */
    var lists: TxnLists.Lists

    /** These operations, oldest first, and where they are. */
    ghost var hist: seq<Op>
    ghost var refs: seq<nat>

    /** These transactions, in the order in which they began. */
    var list: seq<TxnId>

    var state: States
    var lastId: TxnId

    /** What the btree stores. */
    ghost function Base(): map<Key, nat>
      requires be.Valid()
      reads this, be
    {
      BtreeMap.AsMap(be.Contents())
    }

    ghost predicate Valid()
      reads this, be
    {
      && be.Valid()
      && TxnLists.Holds(lists, refs, hist)
      && Isolated(hist, state)
      && (forall x, y :: 0 <= x < y < |list| ==> list[x] != list[y])
      && (forall x :: 0 <= x < |list| ==> list[x] in state)
      && (forall i :: 0 <= i < |hist| ==> hist[i].txn in list && !state[hist[i].txn].Aborted?)
      && (forall t :: t in state ==> t <= lastId)
    }

    ghost predicate IsActive(me: TxnId)
      reads this
    {
      me in state && state[me].Active? && me in list
    }

    /** The newest pointer of the key's node leads to its newest operation. When it does not, because
        that operation was freed, everything that starts there reads freed memory. */
    ghost predicate LiveAt(k: Key)
      reads this
    {
      TxnLists.Live(lists, refs, k)
    }

    /** The answer to an exact lookup. */
    ghost function Answer(me: TxnId, k: Key): TxnModel.Answer
      requires be.Valid()
      reads this, be
    {
      Answered(Base(), hist, state, me, k)
    }

    constructor (be: BtreeBackend.Btree)
      requires be.Valid()
      ensures Valid() && this.be == be && hist == [] && list == [] && state == map[] && lastId == 0 && forall k ::
        LiveAt(k)
    {
      this.be := be;
      hist, refs, list, state, lastId := [], [], [], map[], 0;
      lists := TxnLists.Empty();
      TxnLists.EmptyHolds();
    }

    /** txn_begin, env_append_txn */
    method Begin() returns (t: TxnId)
      requires Valid()
      modifies this
      ensures Valid() && IsActive(t) && t !in old(state) && t == old(lastId) + 1 == lastId
      ensures hist == old(hist) && list == old(list) + [t] && state == old(state)[t := Active]
      ensures lists == old(lists) && refs == old(refs)
    {
      hide TxnLists.Holds;
      t := lastId + 1;
      ghost var u := state[t := Active];
      forall i, j | 0 <= i < j < |hist| ensures Follows(hist, u, i, j) { assert Follows(hist, state, i, j); }
      lastId := t;
      list := list + [t];
      state := state[t := Active];
    }

    /** Backend::find */
    method FindInBtree(k: Key) returns (r: Option<nat>)
      requires be.Valid()
      ensures r == Lookup(Base(), k)
    {
      BtreeMap.EntriesAscend(be.pages, be.root, be.shape, be.maxkeys);
      var found, e, sign := BtreeFind.Find(be, k, true, false, false, 0, 0);
      BtreeMap.FindRefines(be.Contents(), k, found, e);
      r := if found then Some(e.ptr) else None;
    }

    /** db_check_insert_conflicts */
    method CheckInsert(me: TxnId, k: Key, overwrite: bool) returns (c: Check)
      requires Valid() && IsActive(me) && LiveAt(k)
      ensures c == InsertCheck(Answer(me, k), overwrite)
      ensures c.Exists? <==> Answer(me, k).Found? && !overwrite
      ensures c.Conflicting? <==> Answer(me, k).Conflict?
      ensures !c.Missing?
    {
      hide Seen, ApplyAll, NewestSeen, Isolated, Contested;
      NewestDecides(Base(), hist, state, me, k);
      var r := Walk(lists, state, me, k, refs, hist);
      match r
      case Busy => return Conflicting;
      case Newest(op) => return if op.kind.Del? || overwrite then Proceed else Exists;
      case Nothing =>
        if overwrite { return Proceed; }
        var found := FindInBtree(k);
        return if found.Some? then Exists else Proceed;
    }

    /** db_check_erase_conflicts */
    method CheckErase(me: TxnId, k: Key) returns (c: Check)
      requires Valid() && IsActive(me) && LiveAt(k)
      ensures c == EraseCheck(Answer(me, k))
      ensures c.Missing? <==> Answer(me, k).NotFound?
      ensures c.Conflicting? <==> Answer(me, k).Conflict?
      ensures !c.Exists?
    {
      hide Seen, ApplyAll, NewestSeen, Isolated, Contested;
      NewestDecides(Base(), hist, state, me, k);
      var r := Walk(lists, state, me, k, refs, hist);
      match r
      case Busy => return Conflicting;
      case Newest(op) => return if op.kind.Del? then Missing else Proceed;
      case Nothing =>
        var found := FindInBtree(k);
        return if found.Some? then Proceed else Missing;
    }

    /** db_find_txn with an exact match: what a replay of everything visible would give. */
    method Find(me: TxnId, k: Key) returns (a: TxnModel.Answer)
      requires Valid() && IsActive(me) && LiveAt(k)
      ensures a == Answer(me, k)
    {
      hide Seen, ApplyAll, NewestSeen, Isolated, Contested;
      NewestDecides(Base(), hist, state, me, k);
      var r := Walk(lists, state, me, k, refs, hist);
      match r
      case Busy => return Conflict;
      case Newest(op) => return if op.kind.Del? then NotFound else Found(op.kind.rec);
      case Nothing =>
        var found := FindInBtree(k);
        return if found.Some? then Found(found.value) else NotFound;
    }

    /** txn_opnode_append */
    method Append(op: Op)
      requires TxnLists.Holds(lists, refs, hist) && LiveAt(op.key)
      modifies this`lists, this`hist, this`refs
      ensures TxnLists.Holds(lists, refs, hist) && hist == old(hist) + [op]
      ensures forall k :: LiveAt(k) <==> old(LiveAt(k))
    {
      hide TxnLists.Live;
      ghost var l, r := lists, refs;
      var a;
      lists, a := TxnLists.Append(lists, op, refs);
      TxnLists.AppendHolds(l, refs, hist, a, op, lists);
      refs, hist := refs + [a], hist + [op];
      assert forall k :: TxnLists.Live(lists, refs, k) <==> TxnLists.Live(l, r, k);
    }

    /** txn_free_ops. The newest pointer of a node is right afterwards exactly if the node is gone, or if
        it was right and the newest operation is not one of `t`. */
    method Release(t: TxnId)
      requires TxnLists.Holds(lists, refs, hist)
      modifies this`lists, this`hist, this`refs
      ensures TxnLists.Holds(lists, refs, hist) && hist == Without(old(hist), t)
      ensures forall k :: LiveAt(k) <==> Gone(hist, k) || (old(LiveAt(k)) && !EndsWith(old(hist), t, k))
    {
      hide TxnLists.Live, Gone, EndsWith, Without;
      ghost var l, r := lists, refs;
      lists := TxnLists.FreeOps(lists, t, refs);
      TxnLists.FreedHolds(l, refs, hist, t, lists);
      refs, hist := TxnLists.Rest(lists, refs), Without(hist, t);
      assert forall k :: TxnLists.Live(lists, refs, k) <==>
        Gone(hist, k) || (TxnLists.Live(l, r, k) && !EndsWith(old(hist), t, k));
    }

    /** db_insert_txn: refused on a conflict or an existing key, otherwise visible to `me` at once. */
    method Insert(me: TxnId, k: Key, rec: nat, overwrite: bool) returns (c: Check)
      requires Valid() && IsActive(me) && LiveAt(k)
      modifies this`lists, this`hist, this`refs
      ensures Valid() && IsActive(me) && forall x :: LiveAt(x) <==> old(LiveAt(x))
      ensures c == InsertCheck(old(Answer(me, k)), overwrite)
      ensures c.Exists? <==> old(Answer(me, k)).Found? && !overwrite
      ensures c.Conflicting? <==> old(Answer(me, k)).Conflict?
      ensures !c.Missing?
      ensures hist == if c.Proceed? then old(hist) + [Op(me, k, Put(rec))] else old(hist)
      ensures c.Proceed? ==> Answer(me, k) == Found(rec)
    {
      hide Seen, ApplyAll, NewestSeen, BtreeBackend.Btree.Valid;
      c := CheckInsert(me, k, overwrite);
      if c.Proceed? {
        var op := Op(me, k, Put(rec));
        AppendIsolated(hist, state, op);
        AppendedAnswer(Base(), hist, state, op);
        Append(op);
      }
    }

    /** db_erase_txn */
    method Erase(me: TxnId, k: Key) returns (c: Check)
      requires Valid() && IsActive(me) && LiveAt(k)
      modifies this`lists, this`hist, this`refs
      ensures Valid() && IsActive(me) && forall x :: LiveAt(x) <==> old(LiveAt(x))
      ensures c == EraseCheck(old(Answer(me, k)))
      ensures c.Missing? <==> old(Answer(me, k)).NotFound?
      ensures c.Conflicting? <==> old(Answer(me, k)).Conflict?
      ensures !c.Exists?
      ensures hist == if c.Proceed? then old(hist) + [Op(me, k, Del)] else old(hist)
      ensures c.Proceed? ==> Answer(me, k) == NotFound
    {
      hide Seen, ApplyAll, NewestSeen, BtreeBackend.Btree.Valid;
      c := CheckErase(me, k);
      if c.Proceed? {
        var op := Op(me, k, Del);
        AppendIsolated(hist, state, op);
        AppendedAnswer(Base(), hist, state, op);
        Append(op);
      }
    }

    /** txn_abort: nobody who could read a key before sees a difference, as far as the newest pointers
        survive it. */
    method Abort(me: TxnId)
      requires Valid() && IsActive(me)
      modifies this`lists, this`hist, this`refs, this`state
      ensures Valid() && state == old(state)[me := Aborted] && hist == Without(old(hist), me)
      ensures forall t, k :: t != me && !Contested(old(hist), old(state), t, k) ==> Answer(t, k) == old(Answer(t, k))
      ensures forall k :: LiveAt(k) <==> Gone(hist, k) || (old(LiveAt(k)) && !EndsWith(old(hist), me, k))
      ensures forall k :: old(LiveAt(k)) ==> (LiveAt(k) <==> NewestStays(old(hist), me, k))
    {
      hide Seen, ApplyAll, NewestSeen, Contested, Without, Gone, EndsWith, BtreeBackend.Btree.Valid, TxnLists.Holds,
        TxnLists.Live;
      forall t, k | t != me && !Contested(hist, state, t, k)
        ensures Answered(Base(), Without(hist, me), state[me := Aborted], t, k) == Answered(Base(), hist, state, t, k)
      {
        AbortInvisible(Base(), hist, state, me, t, k);
      }
      FinishIsolated(hist, state, me, Aborted);
      WithoutIsolated(hist, state[me := Aborted], me);
      StillListed(hist, state, list, me);
      forall k ensures NewestStays(hist, me, k) <==> !EndsWith(hist, me, k) || Gone(Without(hist, me), k) {
        GoneWithout(hist, me, k);
      }
      state := state[me := Aborted];
      Release(me);
    }

    /** __flush_txn: the operations of a transaction go to the btree, in order. */
    method FlushTxn(t: TxnId)
      requires be.Valid() && TxnLists.Holds(lists, refs, hist)
      modifies be
      ensures be.Valid() && Base() == ApplyAll(old(Base()), TxnOps(hist, t))
    {
      hide BtreeBackend.Btree.Valid, BtreeMap.AsMap, TxnLists.Holds, TxnLists.TxnRefs;
      ghost var ops, s := TxnOps(hist, t), TxnLists.TxnRefs(lists.ops, refs, t);
      TxnLists.TxnSteps(lists, refs, hist, t, s);
      ghost var base := Base();
      var a := lists.TxnEnds(t).oldest;
      ghost var i := 0;
      while a != 0
        invariant 0 <= i <= |ops| && a == (if i == |ops| then 0 else s[i])
        invariant be.Valid() && Base() == ApplyAll(base, ops[..i])
        decreases |ops| - i
      {
        assert TxnLists.TxnStep(lists, s, ops, i);
        assert ops[..i + 1][..i] == ops[..i];
        var op := lists.ops[a];
        match op.kind {
          case Put(rec) =>
            var r := BtreeMap.Execute(be, BtreeMap.Insert(op.key, rec, true, false));
          case Del =>
            // a key that is not in the btree is no error here
            var r := BtreeMap.Execute(be, BtreeMap.Delete(op.key));
            assert op.key !in ApplyAll(base, ops[..i]) ==>
              ApplyAll(base, ops[..i]) - {op.key} == ApplyAll(base, ops[..i]);
        }
        a := lists.inTxn.Next(a);
        i := i + 1;
      }
      assert ops[..|ops|] == ops;
    }

    /** What env_flush_committed_txns did when the transactions of `gone` are flushed. */
    ghost predicate AfterFlush(base0: map<Key, nat>, hist0: seq<Op>, gone: seq<TxnId>)
      requires be.Valid()
      reads this, be
    {
      hist == Left(hist0, gone) && Base() == Stored(base0, hist0, state, gone)
    }

    /** env_flush_committed_txns: flushes and frees finished transactions from the oldest on and stops
        at the first active one. */
    method FlushCommitted()
      requires Valid()
      modifies this`lists, this`hist, this`refs, this`list, be
      ensures Valid()
      ensures |list| <= |old(list)| && list == old(list)[|old(list)| - |list|..]
      ensures list == [] || state[list[0]].Active?
      ensures forall x :: 0 <= x < |old(list)| - |list| ==> !state[old(list)[x]].Active?
      ensures AfterFlush(old(Base()), old(hist), old(list)[..|old(list)| - |list|])
      ensures forall me, k :: IsActive(me) ==>
        (Answer(me, k) == old(Answer(me, k)) <==>
         old(Contested(hist, state, me, k)) || LoopSafe(old(hist), state, me, old(list)[..|old(list)| - |list|], k))
      ensures forall k :: LiveAt(k) <==>
        Gone(hist, k) || (old(LiveAt(k)) && !EndsIn(old(hist), old(list)[..|old(list)| - |list|], k))
      ensures old(InOrder(hist, list)) ==> InOrder(hist, list) && forall k :: old(LiveAt(k)) ==> LiveAt(k)
      ensures old(InOrder(hist, list)) ==> forall me, k :: IsActive(me) ==> Answer(me, k) == old(Answer(me, k))
    {
      hide Seen, ApplyAll, NewestSeen, Contested, Answered, TxnOps, Without, InOrder, BtreeBackend.Btree.Valid,
        BtreeMap.AsMap, Isolated;
      hide Left, Stored, LoopSafe, Gone, EndsIn, EndsWith, TxnLists.Holds, TxnLists.Live;
      ghost var hist0, list0, base0 := hist, list, Base();
      ghost var lists0, refs0 := lists, refs;
      ghost var n := 0;
      NothingFlushed(base0, hist, state, lists, refs);
      while list != []
        invariant Valid() && n <= |list0| && list == list0[n..] && state == old(state)
        invariant forall x :: 0 <= x < n ==> !state[list0[x]].Active?
        invariant AfterFlush(base0, hist0, list0[..n])
        invariant forall k :: LiveAt(k) <==>
          Gone(hist, k) || (TxnLists.Live(lists0, refs0, k) && !EndsIn(hist0, list0[..n], k))
        invariant InOrder(hist0, list0) ==> InOrder(hist, list) && forall k :: TxnLists.Live(lists0, refs0, k) ==>
          LiveAt(k)
        invariant InOrder(hist0, list0) ==>
          forall me, k :: IsActive(me) ==> Answered(Base(), hist, state, me, k) == Answered(base0, hist0, state, me, k)
        decreases |list|
      {
        var oldest := list[0];
        if state[oldest].Active? {
          break;
        }
        ghost var base, h, l, r := Base(), hist, lists, refs;
        if state[oldest].Committed? {
          FlushTxn(oldest);
        }
        assert list0[..n + 1] == list0[..n] + [oldest];
        Flushed(base, Base(), h, state, list, InOrder(hist0, list0));
        FlushedOne(base0, hist0, state, list0[..n], oldest, base, h, Base());
        list := list[1..];
        Release(oldest);
        LiveOne(lists0, refs0, hist0, list0[..n], oldest, l, r, h, lists, refs, list0[n..], InOrder(hist0, list0));
        n := n + 1;
      }
      ghost var gone := list0[..n];
      forall me, k | IsActive(me)
        ensures Answered(Base(), hist, state, me, k) == Answered(base0, hist0, state, me, k) <==>
          Contested(hist0, state, me, k) || LoopSafe(hist0, state, me, gone, k)
      {
        assert Finished(state, me, gone);
        LoopKeeps(base0, hist0, state, me, gone, k);
      }
    }

    /** txn_commit: the transactions that are still active see of the keys it touched what it saw, unless
        the flush that follows changes the answer. */
    method Commit(me: TxnId)
      requires Valid() && IsActive(me)
      modifies this`lists, this`hist, this`refs, this`list, this`state, be
      ensures Valid() && state == old(state)[me := Committed]
      ensures |list| <= |old(list)| && list == old(list)[|old(list)| - |list|..]
      ensures list == [] || state[list[0]].Active?
      ensures forall x :: 0 <= x < |old(list)| - |list| ==> !state[old(list)[x]].Active?
      ensures AfterFlush(old(Base()), old(hist), old(list)[..|old(list)| - |list|])
      ensures forall t, k, i :: IsActive(t) && 0 <= i < |old(hist)| && old(hist)[i] == Op(me, k, old(hist)[i].kind) ==>
        (Answer(t, k) == old(Answer(me, k)) <==> LoopSafe(old(hist), state, t, old(list)[..|old(list)| - |list|], k))
      ensures forall k :: LiveAt(k) <==>
        Gone(hist, k) || (old(LiveAt(k)) && !EndsIn(old(hist), old(list)[..|old(list)| - |list|], k))
      ensures old(InOrder(hist, list)) ==> InOrder(hist, list) && forall k :: old(LiveAt(k)) ==> LiveAt(k)
      ensures old(InOrder(hist, list)) ==>
        forall t, k, i :: IsActive(t) && 0 <= i < |old(hist)| && old(hist)[i] == Op(me, k, old(hist)[i].kind) ==>
          Answer(t, k) == old(Answer(me, k))
    {
      hide Seen, ApplyAll, NewestSeen, Contested, Answered, TxnOps, Without, InOrder, BtreeBackend.Btree.Valid,
        BtreeMap.AsMap;
      hide Left, Stored, LoopSafe, Gone, EndsIn, EndsWith, TxnLists.Holds, TxnLists.Live;
      ghost var st := state;
      forall t, k, i | t in st && st[t].Active? && 0 <= i < |hist| && hist[i] == Op(me, k, hist[i].kind)
        ensures Answered(Base(), hist, st[me := Committed], t, k) == Answered(Base(), hist, st, me, k)
        ensures !Contested(hist, st[me := Committed], t, k)
      {
        CommitPublishes(Base(), hist, st, me, t, k, i);
        NotContested(hist, st, me, t, st[me := Committed], k, i);
      }
      FinishIsolated(hist, state, me, Committed);
      state := state[me := Committed];
      FlushCommitted();
    }
  }

  lemma NothingFlushed(base: map<Key, nat>, hist: seq<Op>, st: States, l: TxnLists.Lists, refs: seq<nat>)
    requires TxnLists.Holds(l, refs, hist)
    ensures Left(hist, []) == hist && Stored(base, hist, st, []) == base
    ensures forall k :: TxnLists.Live(l, refs, k) <==>
      Gone(hist, k) || (TxnLists.Live(l, refs, k) && !EndsIn(hist, [], k))
  {
    hide TxnLists.Holds;
    LeftNone(hist);
    forall k ensures Gone(hist, k) ==> TxnLists.Live(l, refs, k) {
      TxnLists.NodeSteps(l, refs, hist, k, TxnLists.KeyRefs(l.ops, refs, k));
    }
  }

  lemma FlushedOne(base0: map<Key, nat>, hist0: seq<Op>, st: States, gone: seq<TxnId>, t: TxnId, base: map<Key, nat>,
                   h: seq<Op>, base': map<Key, nat>)
    requires base == Stored(base0, hist0, st, gone) && h == Left(hist0, gone) && t !in gone && t in st
    requires base' == if st[t].Committed? then ApplyAll(base, TxnOps(h, t)) else base
    ensures base' == Stored(base0, hist0, st, gone + [t]) && Without(h, t) == Left(hist0, gone + [t])
  {
    LeftTxnOps(hist0, gone, t);
    LeftStep(hist0, gone, t);
    assert (gone + [t])[..|gone|] == gone;
  }

  /** The newest pointers over one round of the flush. */
  lemma LiveOne(lists0: TxnLists.Lists, refs0: seq<nat>, hist0: seq<Op>, gone: seq<TxnId>, t: TxnId,
                l: TxnLists.Lists, r: seq<nat>, h: seq<Op>, l': TxnLists.Lists, r': seq<nat>, list: seq<TxnId>,
                ordered: bool)
    requires h == Left(hist0, gone)
    requires forall k :: TxnLists.Live(l, r, k) <==>
      Gone(h, k) || (TxnLists.Live(lists0, refs0, k) && !EndsIn(hist0, gone, k))
    requires forall k :: TxnLists.Live(l', r', k) <==>
      Gone(Without(h, t), k) || (TxnLists.Live(l, r, k) && !EndsWith(h, t, k))
    requires ordered ==> |list| > 0 && list[0] == t && InOrder(h, list)
    ensures forall k :: TxnLists.Live(l', r', k) <==>
      Gone(Without(h, t), k) || (TxnLists.Live(lists0, refs0, k) && !EndsIn(hist0, gone + [t], k))
    ensures ordered ==> forall k :: TxnLists.Live(l, r, k) ==> TxnLists.Live(l', r', k)
  {
    hide Gone, EndsIn, EndsWith, TxnLists.Live, Left, Without, InOrder;
    forall k ensures TxnLists.Live(l', r', k) <==>
      Gone(Without(h, t), k) || (TxnLists.Live(lists0, refs0, k) && !EndsIn(hist0, gone + [t], k))
    {
      EndsStep(hist0, gone, t, k);
    }
    if ordered {
      forall k | TxnLists.Live(l, r, k) ensures TxnLists.Live(l', r', k) {
        InOrderStays(h, list, k);
        GoneWithout(h, t, k);
      }
    }
  }

  lemma AppendedAnswer(base: map<Key, nat>, hist: seq<Op>, st: States, op: Op)
    requires op.txn in st && !Contested(hist, st, op.txn, op.key)
    ensures Answered(base, hist + [op], st, op.txn, op.key) == ToAnswer(Effect(op.kind))
  {
    hide Seen, ApplyAll;
    NewestDecides(base, hist + [op], st, op.txn, op.key);
    var h := hist + [op];
    forall i | 0 <= i < |h| && h[i].key == op.key ensures !Foreign(h[i], st, op.txn) {
      assert i < |hist| ==> h[i] == hist[i];
    }
  }

  lemma StillListed(hist: seq<Op>, st: States, list: seq<TxnId>, t: TxnId)
    requires forall i :: 0 <= i < |hist| ==> hist[i].txn in list && hist[i].txn in st && !st[hist[i].txn].Aborted?
    ensures forall i :: 0 <= i < |Without(hist, t)| ==> Without(hist, t)[i].txn in list && Without(hist, t)[i].txn != t
    ensures forall i :: 0 <= i < |Without(hist, t)| ==>
      Without(hist, t)[i].txn in st && !st[Without(hist, t)[i].txn].Aborted?
  {
    var h := Without(hist, t);
    forall i | 0 <= i < |h| ensures h[i].txn in list && h[i].txn != t && h[i].txn in st && !st[h[i].txn].Aborted? {
      var x := OldIndex(hist, t, i);
    }
  }

  /** One round of env_flush_committed_txns. */
  lemma Flushed(base: map<Key, nat>, base': map<Key, nat>, hist: seq<Op>, st: States, list: seq<TxnId>, ordered: bool)
    requires |list| > 0 && list[0] in st && !st[list[0]].Active? && Isolated(hist, st)
    requires forall x, y :: 0 <= x < y < |list| ==> list[x] != list[y]
    requires forall i :: 0 <= i < |hist| ==> hist[i].txn in list && hist[i].txn in st && !st[hist[i].txn].Aborted?
    requires base' == if st[list[0]].Committed? then ApplyAll(base, TxnOps(hist, list[0])) else base
    requires ordered ==> InOrder(hist, list)
    ensures Isolated(Without(hist, list[0]), st)
    ensures forall i :: 0 <= i < |Without(hist, list[0])| ==> Without(hist, list[0])[i].txn in list[1..]
    ensures forall i :: 0 <= i < |Without(hist, list[0])| ==>
      Without(hist, list[0])[i].txn in st && !st[Without(hist, list[0])[i].txn].Aborted?
    ensures ordered ==> InOrder(Without(hist, list[0]), list[1..])
    ensures ordered ==> forall me, k :: me in st && st[me].Active? ==>
      Answered(base', Without(hist, list[0]), st, me, k) == Answered(base, hist, st, me, k)
  {
    hide Seen, ApplyAll, NewestSeen, Contested, Answered, TxnOps, Without, InOrder;
    var t := list[0];
    WithoutIsolated(hist, st, t);
    StillListed(hist, st, list, t);
    var h := Without(hist, t);
    forall i | 0 <= i < |h| ensures h[i].txn in list[1..] {
      var y :| 0 <= y < |list| && list[y] == h[i].txn;
      assert list[1..][y - 1] == h[i].txn;
    }
    if ordered {
      WithoutInOrder(hist, list);
      forall me, k | me in st && st[me].Active?
        ensures Answered(base', h, st, me, k) == Answered(base, hist, st, me, k) {
        if st[t].Committed? { FlushOldest(base, hist, st, list, me, k); } else {
          AbortedGone(base, hist, st, t, me, k);
        }
      }
    }
  }
}
