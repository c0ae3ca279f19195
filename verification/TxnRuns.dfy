/** Runs in which a transaction's end has an effect that one would not expect. */
module TxnRuns {
  import opened Collections
  import opened TxnModel
  import opened TxnFlush
  import opened Transactions
  import TxnLists
  import BtreeBackend

  /** Four transactions, nothing pending. */
  method FourBegin(be: BtreeBackend.Btree, k: Key) returns (db: TxnDb)
    requires be.Valid()
    ensures fresh(db) && db.be == be && db.Valid() && db.LiveAt(k) && db.hist == [] && db.list == [1, 2, 3, 4]
    ensures db.state == map[1 := Active, 2 := Active, 3 := Active, 4 := Active]
  {
    hide Isolated, TxnLists.Holds, TxnLists.Live, BtreeBackend.Btree.Valid;
    db := new TxnDb(be);
    assert db.LiveAt(k);
    var a := db.Begin();
    var b := db.Begin();
    var c := db.Begin();
    var d := db.Begin();
  }

  /** `me` writes a key that nobody else holds. */
  method Put1(db: TxnDb, me: TxnId, k: Key, rec: nat)
    requires db.Valid() && db.IsActive(me) && db.LiveAt(k) && db.Answer(me, k) != Conflict
    modifies db`lists, db`hist, db`refs
    ensures db.Valid() && db.LiveAt(k) && db.hist == old(db.hist) + [Op(me, k, Put(rec))]
  {
    hide Isolated, TxnLists.Holds, TxnLists.Live, BtreeBackend.Btree.Valid, Answered;
    var c := db.Insert(me, k, rec, true);
  }

  /** While the oldest transaction is active a commit flushes nothing. */
  method CommitHeld(db: TxnDb, me: TxnId, k: Key)
    requires db.Valid() && db.IsActive(me) && |db.list| > 0 && db.list[0] != me && db.IsActive(db.list[0]) &&
      db.LiveAt(k)
    modifies db`lists, db`hist, db`refs, db`list, db`state, db.be
    ensures db.Valid() && db.LiveAt(k) && db.list == old(db.list) && db.hist == old(db.hist)
    ensures db.state == old(db.state)[me := Committed]
  {
    hide Isolated, TxnLists.Holds, TxnLists.Live, BtreeBackend.Btree.Valid, Stored, Left, LoopSafe, InOrder, Contested,
      Answered;
    hide Gone, EndsIn, EndsWith;
    StillAll(db.hist, k);
    ghost var list := db.list;
    db.Commit(me);
    assert list[..0] == [];
  }

  /** Transaction `w` has written the key and committed; it is not flushed, because 1 is active. */
  method Written(be: BtreeBackend.Btree, k: Key, w: TxnId, rec: nat) returns (db: TxnDb)
    requires be.Valid() && 2 <= w <= 4
    modifies be
    ensures fresh(db) && db.be == be && db.Valid() && db.LiveAt(k) && db.hist == [Op(w, k, Put(rec))] &&
      db.list == [1, 2, 3, 4]
    ensures db.state == map[1 := Active, 2 := Active, 3 := Active, 4 := Active][w := Committed]
    ensures forall me :: db.Answer(me, k) == Found(rec)
  {
    hide Isolated, TxnLists.Holds, TxnLists.Live, BtreeBackend.Btree.Valid, Contested, Answered;
    db := FourBegin(be, k);
    NoOps(db.Base(), db.state, w, k);
    Put1(db, w, k, rec);
    ghost var x := Op(w, k, Put(rec));
    assert db.hist == [x];
    CommitHeld(db, w, k);
    forall me ensures db.Answer(me, k) == Found(rec) { OneOp(db.Base(), db.state, me, k, x); }
  }

  /** An abort frees the newest operation of a node that lives on: the node's newest pointer is stale,
      although the answer that everybody should get is still there. */
  method AbortStrands(be: BtreeBackend.Btree, k: Key) returns (db: TxnDb)
    requires be.Valid()
    modifies be
    ensures fresh(db) && db.Valid() && db.hist == [Op(2, k, Put(5))] && db.IsActive(4)
    ensures db.Answer(4, k) == Found(5) && !db.LiveAt(k)
  {
    hide Isolated, TxnLists.Holds, TxnLists.Live, BtreeBackend.Btree.Valid, Stored, Left, Without, NodeOps, Contested,
      LoopSafe, InOrder;
    hide Gone, EndsIn, EndsWith, NewestStays, Answered;
    db := Written(be, k, 2, 5);
    ghost var x, y := Op(2, k, Put(5)), Op(3, k, Put(6));
    assert db.Answer(3, k) == Found(5);
    Put1(db, 3, k, 6);
    assert db.hist == [x, y];
    TwoOps(x, y, k);
    db.Abort(3);
    OneOp(db.Base(), db.state, 4, k, x);
  }

  lemma NoOps(base: map<Key, nat>, st: States, me: TxnId, k: Key)
    ensures Answered(base, [], st, me, k) != Conflict
  {
  }

  lemma StillAll(hist: seq<Op>, k: Key)
    ensures Left(hist, []) == hist && !EndsIn(hist, [], k)
  {
    LeftNone(hist);
  }

  lemma OneOp(base: map<Key, nat>, st: States, me: TxnId, k: Key, op: Op)
    requires op.key == k && op.txn in st && st[op.txn].Committed? && op.kind.Put?
    ensures Answered(base, [op], st, me, k) == Found(op.kind.rec)
  {
    AnswerIs(base, [op], st, me, k, op);
  }

  lemma TwoOps(x: Op, y: Op, k: Key)
    requires x.key == k == y.key && x.txn != y.txn
    ensures NodeOps([x, y], k) == [x, y] && Without([x, y], y.txn) == [x] && NodeOps([x], k) == [x]
    ensures !Gone([x], k) && EndsWith([x, y], y.txn, k)
  {
    assert [x, y][..1] == [x] && [x][..0] == [];
    assert NodeOps([x], k) == [x] && Without([x], y.txn) == [x];
  }

  /** A commit that flushes exactly the first `n` transactions. */
  method CommitFlushes(db: TxnDb, me: TxnId, n: nat, k: Key)
    requires db.Valid() && db.IsActive(me) && n < |db.list| && db.list[n] != me && db.IsActive(db.list[n]) &&
      db.LiveAt(k)
    requires forall x :: 0 <= x < n ==> db.list[x] == me || !db.state[db.list[x]].Active?
    modifies db`lists, db`hist, db`refs, db`list, db`state, db.be
    ensures db.Valid() && db.list == old(db.list)[n..] && db.state == old(db.state)[me := Committed]
    ensures db.AfterFlush(old(db.Base()), old(db.hist), old(db.list)[..n])
    ensures db.LiveAt(k) <==> Gone(db.hist, k) || !EndsIn(old(db.hist), old(db.list)[..n], k)
  {
    hide Isolated, TxnLists.Holds, TxnLists.Live, BtreeBackend.Btree.Valid, Stored, Left, LoopSafe, InOrder, Contested,
      Answered;
    hide Gone, EndsIn, EndsWith;
    ghost var list := db.list;
    db.Commit(me);
  }

  lemma TwoFlushed(x: Op, y: Op, k: Key)
    requires x.key == k == y.key && x.txn != y.txn
    ensures Left([x, y], [y.txn]) == [x] && !Gone([x], k) && EndsIn([x, y], [y.txn], k)
    ensures Left([x, y], [y.txn, x.txn]) == [] && Gone([], k)
    ensures NewestOf([x, y], x.txn, k) == Some(x)
  {
    TwoOps(x, y, k);
    assert [x, y][..1] == [x] && [x][..0] == [];
    assert Left([x], [y.txn]) == [x];
    LeftStep([x, y], [y.txn], x.txn);
    assert [y.txn] + [x.txn] == [y.txn, x.txn];
  }

  /** A flush that stops at an active transaction can do the same, and it changes the answer. */
  method FlushStrands(be: BtreeBackend.Btree, k: Key) returns (db: TxnDb, before: Answer)
    requires be.Valid()
    modifies be
    ensures fresh(db) && db.Valid() && db.hist == [Op(3, k, Put(7))] && db.IsActive(4)
    ensures before == Found(8) && db.Answer(4, k) == Found(7) && !db.LiveAt(k)
  {
    hide Isolated, TxnLists.Holds, TxnLists.Live, BtreeBackend.Btree.Valid, Stored, Left, Without, NodeOps, Contested,
      LoopSafe, InOrder;
    hide Gone, EndsIn, EndsWith, NewestStays, Answered;
    db := Written(be, k, 3, 7);
    ghost var x, y := Op(3, k, Put(7)), Op(1, k, Put(8));
    assert db.Answer(1, k) == Found(7);
    Put1(db, 1, k, 8);
    assert db.hist == [x, y];
    MineLast(db.Base(), db.state, 1, k, x, y);
    before := db.Find(1, k);
    TwoFlushed(x, y, k);
    assert db.list[..1] == [1];
    CommitFlushes(db, 1, 1, k);
    OneOp(db.Base(), db.state, 4, k, x);
  }

  lemma MineLast(base: map<Key, nat>, st: States, me: TxnId, k: Key, x: Op, y: Op)
    requires x.key == k == y.key && y.txn == me && x.txn in st && st[x.txn].Committed?
    ensures Answered(base, [x, y], st, me, k) == ToAnswer(Effect(y.kind))
  {
    AnswerIs(base, [x, y], st, me, k, y);
  }

  /** A key that was erased and committed is back: the transaction that wrote it began later, so it is
      flushed after the one that erased it. */
  method ErasedKeyReturns(be: BtreeBackend.Btree, k: Key) returns (before: Answer, after: Answer)
    requires be.Valid()
    modifies be
    ensures before == NotFound && after == Found(7)
  {
    hide Isolated, TxnLists.Holds, TxnLists.Live, BtreeBackend.Btree.Valid, Stored, Left, Without, NodeOps, Contested,
      LoopSafe, InOrder;
    hide Gone, EndsIn, EndsWith, NewestStays, Answered, Seen, ApplyAll, NewestOf, InsertCheck;
    var db := Written(be, k, 2, 7);
    ghost var x, y := Op(2, k, Put(7)), Op(1, k, Del);
    assert db.Answer(1, k) == Found(7);
    var c := db.Erase(1, k);
    assert db.hist == [x, y];
    MineLast(db.Base(), db.state, 1, k, x, y);
    before := db.Find(1, k);
    TwoFlushed(x, y, k);
    assert db.list[..2] == [1, 2];
    ghost var base := db.Base();
    CommitFlushes(db, 1, 2, k);
    LastStored(base, [x, y], db.state, [1, 2], 3, k);
    after := db.Find(3, k);
  }

  lemma LastStored(base: map<Key, nat>, hist: seq<Op>, st: States, gone: seq<TxnId>, me: TxnId, k: Key)
    requires gone != [] && gone[|gone| - 1] in st && st[gone[|gone| - 1]].Committed?
    requires NewestOf(hist, gone[|gone| - 1], k).Some? && NewestOf(hist, gone[|gone| - 1], k).value.kind.Put?
    ensures Answered(Stored(base, hist, st, gone), [], st, me, k) ==
      Found(NewestOf(hist, gone[|gone| - 1], k).value.kind.rec)
  {
    StoredLookup(base, hist, st, gone, k);
  }

  /** Step by step is not the whole: the first step of this flush changes the answer, the whole keeps it. */
  lemma StepsDiffer(k: Key)
    ensures var st: States := map[1 := Committed, 2 := Committed, 3 := Committed, 4 := Active];
      var hist := [Op(3, k, Put(9)), Op(2, k, Put(7)), Op(1, k, Put(9))];
      !FlushSafe(hist, st, 4, 1, k) && LoopSafe(hist, st, 4, [1, 2, 3], k)
  {
    var st: States := map[1 := Committed, 2 := Committed, 3 := Committed, 4 := Active];
    var a, b, c := Op(3, k, Put(9)), Op(2, k, Put(7)), Op(1, k, Put(9));
    var hist := [a, b, c];
    assert hist[..2] == [a, b] && [a, b][..1] == [a] && [a][..0] == [];
    assert Without([a], 1) == [a] && Without([a, b], 1) == [a, b];
    assert NewestOf([a, b], 3, k) == NewestOf([a], 3, k) == Some(a);
    var g := [1, 2, 3];
    assert g[0] == 1 && g[1] == 2 && g[2] == 3 && Left([], g) == [] && Left([a], g) == [] && Left([a, b], g) == [];
  }
}
