/** What flushing several transactions does, oldest first (src/env.cc env_flush_committed_txns). */
module TxnFlush {
  import opened Collections
  import opened TxnModel

  /** What is left when the transactions of `gone` are flushed and freed. */
  function Left(hist: seq<Op>, gone: seq<TxnId>): seq<Op> {
    if hist == [] then []
    else
      var op := hist[|hist| - 1];
      if op.txn in gone then Left(hist[..|hist| - 1], gone) else Left(hist[..|hist| - 1], gone) + [op]
  }

  /** What is stored then: the operations of the committed ones, transaction by transaction. */
  function Stored(base: map<Key, nat>, hist: seq<Op>, st: States, gone: seq<TxnId>): map<Key, nat> {
    if gone == [] then base
    else
      var t, before := gone[|gone| - 1], Stored(base, hist, st, gone[..|gone| - 1]);
      if t in st && st[t].Committed? then ApplyAll(before, TxnOps(hist, t)) else before
  }

  /** The last operation on `k` that reached the stored map. */
  function LastFlushed(hist: seq<Op>, st: States, gone: seq<TxnId>, k: Key): Option<Op> {
    if gone == [] then None
    else
      var t := gone[|gone| - 1];
      if t in st && st[t].Committed? && NewestOf(hist, t, k).Some? then NewestOf(hist, t, k)
      else LastFlushed(hist, st, gone[..|gone| - 1], k)
  }

  lemma {:induction false} LeftStep(hist: seq<Op>, gone: seq<TxnId>, t: TxnId)
    ensures Left(hist, gone + [t]) == Without(Left(hist, gone), t)
  {
    if hist != [] {
      var h, op := hist[..|hist| - 1], hist[|hist| - 1];
      LeftStep(h, gone, t);
      assert (Left(h, gone) + [op])[..|Left(h, gone)|] == Left(h, gone);
    }
  }

  lemma {:induction false} LeftNone(hist: seq<Op>)
    ensures Left(hist, []) == hist
  {
    if hist != [] {
      LeftNone(hist[..|hist| - 1]);
      assert hist == hist[..|hist| - 1] + [hist[|hist| - 1]];
    }
  }

  /** The operations of a transaction that is still there are not touched. */
  lemma {:induction false} LeftTxnOps(hist: seq<Op>, gone: seq<TxnId>, t: TxnId)
    requires t !in gone
    ensures TxnOps(Left(hist, gone), t) == TxnOps(hist, t)
  {
    if hist != [] {
      var h, op := hist[..|hist| - 1], hist[|hist| - 1];
      LeftTxnOps(h, gone, t);
      assert (Left(h, gone) + [op])[..|Left(h, gone)|] == Left(h, gone);
    }
  }

  lemma {:induction false} StoredLookup(base: map<Key, nat>, hist: seq<Op>, st: States, gone: seq<TxnId>, k: Key)
    ensures Lookup(Stored(base, hist, st, gone), k) ==
      match LastFlushed(hist, st, gone, k) case Some(op) => Effect(op.kind) case None => Lookup(base, k)
  {
    if gone != [] {
      var before := Stored(base, hist, st, gone[..|gone| - 1]);
      StoredLookup(base, hist, st, gone[..|gone| - 1], k);
      FlushedLookup(before, hist, gone[|gone| - 1], k);
    }
  }

  // ------------------------------------------------------------------------------ answers

  /** Transactions that are finished, none of them the reader. */
  ghost predicate Finished(st: States, me: TxnId, gone: seq<TxnId>) {
    forall t :: t in gone ==> t in st && !st[t].Active? && t != me
  }

  lemma {:induction false} LeftContested(hist: seq<Op>, st: States, me: TxnId, gone: seq<TxnId>, k: Key)
    requires Finished(st, me, gone)
    ensures Contested(Left(hist, gone), st, me, k) <==> Contested(hist, st, me, k)
    decreases |gone|
  {
    if gone == [] {
      LeftNone(hist);
    } else {
      var g, t := gone[..|gone| - 1], gone[|gone| - 1];
      assert gone == g + [t];
      LeftContested(hist, st, me, g, k);
      LeftStep(hist, g, t);
      WithoutContested(Left(hist, g), st, me, t, k);
    }
  }

  lemma {:induction false} OwnIsSeen(hist: seq<Op>, st: States, me: TxnId, t: TxnId, k: Key)
    requires t in st && st[t].Committed?
    ensures NewestOf(hist, t, k).Some? ==> NewestSeen(hist, st, me, k).Some?
  {
    if hist != [] { OwnIsSeen(hist[..|hist| - 1], st, me, t, k); }
  }

  lemma {:induction false} FlushedIsSeen(hist: seq<Op>, st: States, me: TxnId, gone: seq<TxnId>, k: Key)
    ensures LastFlushed(hist, st, gone, k).Some? ==> NewestSeen(hist, st, me, k).Some?
  {
    if gone != [] {
      var t := gone[|gone| - 1];
      FlushedIsSeen(hist, st, me, gone[..|gone| - 1], k);
      if t in st && st[t].Committed? { OwnIsSeen(hist, st, me, t, k); }
    }
  }

  lemma {:induction false} SomeFlushed(hist: seq<Op>, st: States, gone: seq<TxnId>, t: TxnId, k: Key)
    requires t in gone && t in st && st[t].Committed? && NewestOf(hist, t, k).Some?
    ensures LastFlushed(hist, st, gone, k).Some?
  {
    var g := gone[..|gone| - 1];
    if t != gone[|gone| - 1] {
      assert t in g;
      SomeFlushed(hist, st, g, t, k);
    }
  }

  lemma {:induction false} NewestLeft(hist: seq<Op>, st: States, me: TxnId, gone: seq<TxnId>, k: Key)
    requires Finished(st, me, gone)
    ensures var a, b := NewestSeen(hist, st, me, k), NewestSeen(Left(hist, gone), st, me, k);
      && (a.None? ==> b.None?)
      && (a.Some? && a.value.txn !in gone ==> b == a)
      && (a.Some? && a.value.txn in gone ==> st[a.value.txn].Committed? && NewestOf(hist, a.value.txn, k) == a)
  {
    if hist != [] {
      var h, op := hist[..|hist| - 1], hist[|hist| - 1];
      NewestLeft(h, st, me, gone, k);
      assert (Left(h, gone) + [op])[..|Left(h, gone)|] == Left(h, gone);
    }
  }

  /** The newest operation `me` sees stays; or what then decides has the same effect: the newest visible
      one that is left or, with none left, the last one that was flushed. */
  ghost predicate LoopSafe(hist: seq<Op>, st: States, me: TxnId, gone: seq<TxnId>, k: Key) {
    var a, b, c := NewestSeen(hist, st, me, k), NewestSeen(Left(hist, gone), st, me, k), LastFlushed(hist, st, gone, k);
    a.Some? && a.value.txn in gone ==>
      if b.Some? then Effect(b.value.kind) == Effect(a.value.kind)
      else c.Some? && Effect(c.value.kind) == Effect(a.value.kind)
  }

  /** The answer survives the whole flush exactly under this condition. */
  lemma LoopKeeps(base: map<Key, nat>, hist: seq<Op>, st: States, me: TxnId, gone: seq<TxnId>, k: Key)
    requires Finished(st, me, gone)
    ensures Answered(Stored(base, hist, st, gone), Left(hist, gone), st, me, k) == Answered(base, hist, st, me, k)
      <==> Contested(hist, st, me, k) || LoopSafe(hist, st, me, gone, k)
  {
    hide NewestSeen, ApplyAll, TxnOps, Left, Seen, NewestOf, Contested, Stored, LastFlushed;
    LeftContested(hist, st, me, gone, k);
    NewestDecides(base, hist, st, me, k);
    NewestDecides(Stored(base, hist, st, gone), Left(hist, gone), st, me, k);
    StoredLookup(base, hist, st, gone, k);
    NewestLeft(hist, st, me, gone, k);
    FlushedIsSeen(hist, st, me, gone, k);
    var a := NewestSeen(hist, st, me, k);
    if a.Some? && a.value.txn in gone { SomeFlushed(hist, st, gone, a.value.txn, k); }
  }

  // ------------------------------------------------------------------------------ newest pointers

  /** The newest operation on a key stays the newest as long as it stays. */
  lemma {:induction false} EndsLeft(hist: seq<Op>, gone: seq<TxnId>, k: Key)
    ensures var N, M := NodeOps(hist, k), NodeOps(Left(hist, gone), k);
      && (M != [] ==> N != [])
      && (N != [] && N[|N| - 1].txn !in gone ==> M != [] && M[|M| - 1] == N[|N| - 1])
  {
    if hist != [] {
      var h, op := hist[..|hist| - 1], hist[|hist| - 1];
      EndsLeft(h, gone, k);
      assert (Left(h, gone) + [op])[..|Left(h, gone)|] == Left(h, gone);
    }
  }

  /** The newest operation on `k` is one of a transaction that is gone. */
  ghost predicate EndsIn(hist: seq<Op>, gone: seq<TxnId>, k: Key) {
    var N := NodeOps(hist, k);
    N != [] && N[|N| - 1].txn in gone
  }

  /** Freeing one transaction more. */
  lemma EndsStep(hist: seq<Op>, gone: seq<TxnId>, t: TxnId, k: Key)
    ensures Left(hist, gone + [t]) == Without(Left(hist, gone), t)
    ensures Gone(Left(hist, gone), k) ==> Gone(Left(hist, gone + [t]), k)
    ensures EndsIn(hist, gone, k) ==> EndsIn(hist, gone + [t], k)
    ensures !Gone(Left(hist, gone + [t]), k) && !EndsIn(hist, gone, k) ==>
      (EndsWith(Left(hist, gone), t, k) <==> EndsIn(hist, gone + [t], k))
  {
    hide Left, NodeOps;
    LeftStep(hist, gone, t);
    EndsLeft(hist, gone, k);
    EndsLeft(hist, gone + [t], k);
    GoneWithout(Left(hist, gone), t, k);
  }
}
