/** Transactions that run one after the other: to each of them the database is a finite map, and what it
    did is stored exactly if it commits (src/db.cc, src/txn.cc, src/env.cc). */
module TxnSerial {
  import opened Collections
  import opened TxnModel
  import opened TxnFlush
  import opened Transactions
  import TxnLists
  import BtreeBackend

  type Map = map<Key, nat>

  datatype Cmd = Insert(key: Key, rec: nat, overwrite: bool) | Erase(key: Key) | Find(key: Key)

  datatype Reply = Done | DuplicateKey | KeyNotFound | Record(rec: nat)

  ghost function Step(m: Map, c: Cmd): Map {
    match c
    case Insert(k, rec, overwrite) => if k in m && !overwrite then m else m[k := rec]
    case Erase(k) => m - {k}
    case Find(_) => m
  }

  ghost predicate ReplyOk(m: Map, c: Cmd, r: Reply) {
    match c
    case Insert(k, _, overwrite) => r == if k in m && !overwrite then DuplicateKey else Done
    case Erase(k) => r == if k in m then Done else KeyNotFound
    case Find(k) => r == if k in m then Record(m[k]) else KeyNotFound
  }

  ghost function After(m: Map, cs: seq<Cmd>): Map {
    if cs == [] then m else Step(After(m, cs[..|cs| - 1]), cs[|cs| - 1])
  }

  ghost predicate RepliesOk(m: Map, cs: seq<Cmd>, rs: seq<Reply>) {
    |rs| == |cs| && forall i :: 0 <= i < |cs| ==> ReplyOk(After(m, cs[..i]), cs[i], rs[i])
  }

  // ------------------------------------------------------------------------------ one transaction

  /** The database as `me` sees it. */
  ghost function View(db: TxnDb, me: TxnId): Map
    requires db.be.Valid()
    reads db, db.be
  {
    ApplyAll(db.Base(), Seen(db.hist, db.state, me))
  }

  /** Nobody else has an unfinished operation, and all newest pointers are right. */
  ghost predicate Alone(db: TxnDb, me: TxnId)
    reads db, db.be
  {
    db.Valid() && db.IsActive(me) && forall k :: db.LiveAt(k) && !Contested(db.hist, db.state, me, k)
  }

  /** The operations that came after `h` are all of `me`. */
  ghost predicate Extends(h: seq<Op>, h': seq<Op>, me: TxnId) {
    |h| <= |h'| && h'[..|h|] == h && forall i :: |h| <= i < |h'| ==> h'[i].txn == me
  }

  lemma Appended(base: Map, hist: seq<Op>, st: States, op: Op)
    ensures ApplyAll(base, Seen(hist + [op], st, op.txn)) == Apply(ApplyAll(base, Seen(hist, st, op.txn)), op)
    ensures forall k :: Contested(hist + [op], st, op.txn, k) ==> Contested(hist, st, op.txn, k)
  {
    var h := hist + [op];
    assert h[..|hist|] == hist;
    ApplySnoc(base, Seen(hist, st, op.txn), op);
    forall k | Contested(h, st, op.txn, k) ensures Contested(hist, st, op.txn, k) {
      var i :| 0 <= i < |h| && h[i].key == k && Foreign(h[i], st, op.txn);
      assert hist[i] == h[i];
    }
  }

  method Execute(db: TxnDb, me: TxnId, c: Cmd) returns (r: Reply)
    requires Alone(db, me)
    modifies db`lists, db`hist, db`refs
    ensures Alone(db, me) && Extends(old(db.hist), db.hist, me)
    ensures ReplyOk(old(View(db, me)), c, r) && View(db, me) == Step(old(View(db, me)), c)
  {
    hide Seen, ApplyAll, Contested, Isolated, TxnLists.Holds, TxnLists.Live, BtreeBackend.Btree.Valid;
    assert db.LiveAt(c.key) && !Contested(db.hist, db.state, me, c.key);
    match c {
      case Insert(k, rec, overwrite) =>
        Appended(db.Base(), db.hist, db.state, Op(me, k, Put(rec)));
        var check := db.Insert(me, k, rec, overwrite);
        r := if check.Exists? then DuplicateKey else Done;
      case Erase(k) =>
        Appended(db.Base(), db.hist, db.state, Op(me, k, Del));
        var check := db.Erase(me, k);
        r := if check.Missing? then KeyNotFound else Done;
      case Find(k) =>
        var a := db.Find(me, k);
        r := if a.Found? then Record(a.rec) else KeyNotFound;
    }
  }

  /** Any sequence of inserts, erases and lookups in one transaction. */
  method Run(db: TxnDb, me: TxnId, cs: seq<Cmd>) returns (rs: seq<Reply>)
    requires Alone(db, me)
    modifies db`lists, db`hist, db`refs
    ensures Alone(db, me) && Extends(old(db.hist), db.hist, me)
    ensures RepliesOk(old(View(db, me)), cs, rs) && View(db, me) == After(old(View(db, me)), cs)
  {
    hide Seen, ApplyAll, Contested, Isolated, TxnLists.Holds, TxnLists.Live, BtreeBackend.Btree.Valid, Step, ReplyOk;
    rs := [];
    ghost var m := View(db, me);
    for n := 0 to |cs|
      invariant Alone(db, me) && Extends(old(db.hist), db.hist, me)
      invariant RepliesOk(m, cs[..n], rs) && View(db, me) == After(m, cs[..n])
    {
      var r := Execute(db, me, cs[n]);
      Snoc(m, cs[..n], rs, cs[n], r);
      assert cs[..n + 1] == cs[..n] + [cs[n]];
      rs := rs + [r];
    }
    assert cs[..|cs|] == cs;
  }

  lemma Snoc(m: Map, cs: seq<Cmd>, rs: seq<Reply>, c: Cmd, r: Reply)
    requires RepliesOk(m, cs, rs) && ReplyOk(After(m, cs), c, r)
    ensures RepliesOk(m, cs + [c], rs + [r]) && After(m, cs + [c]) == Step(After(m, cs), c)
  {
    hide Step, ReplyOk;
    var cs', rs' := cs + [c], rs + [r];
    assert cs'[..|cs|] == cs;
    forall i | 0 <= i < |cs'| ensures ReplyOk(After(m, cs'[..i]), cs'[i], rs'[i]) {
      if i < |cs| { assert cs'[..i] == cs[..i]; }
    }
  }

  // ------------------------------------------------------------------------------ one after the other

  /** No transaction is active and nothing is pending. */
  ghost predicate Quiet(db: TxnDb)
    reads db, db.be
  {
    && db.Valid() && db.hist == [] && (forall k :: db.LiveAt(k))
    && forall x :: 0 <= x < |db.list| ==> !db.state[db.list[x]].Active?
  }

  lemma {:induction false} AllMine(hist: seq<Op>, st: States, me: TxnId)
    requires forall i :: 0 <= i < |hist| ==> hist[i].txn == me
    ensures Seen(hist, st, me) == hist == TxnOps(hist, me) && Without(hist, me) == []
    ensures forall t :: t != me ==> TxnOps(hist, t) == []
  {
    if hist != [] {
      var h := hist[..|hist| - 1];
      AllMine(h, st, me);
      assert hist == h + [hist[|hist| - 1]];
      forall t | t != me ensures TxnOps(hist, t) == [] { assert TxnOps(h, t) == []; }
    }
  }

  lemma {:induction false} NotStored(base: Map, hist: seq<Op>, st: States, gone: seq<TxnId>, me: TxnId)
    requires me !in gone && forall i :: 0 <= i < |hist| ==> hist[i].txn == me
    ensures Stored(base, hist, st, gone) == base
  {
    if gone != [] {
      NotStored(base, hist, st, gone[..|gone| - 1], me);
      AllMine(hist, st, me);
    }
  }

  lemma {:induction false} NoneLeft(hist: seq<Op>, gone: seq<TxnId>)
    requires forall i :: 0 <= i < |hist| ==> hist[i].txn in gone
    ensures Left(hist, gone) == []
  {
    if hist != [] { NoneLeft(hist[..|hist| - 1], gone); }
  }

  /** What the flush stores when `me` is the last of the list and the only one with operations. */
  lemma LastIsStored(base: Map, hist: seq<Op>, st: States, gone: seq<TxnId>, me: TxnId)
    requires me !in gone && me in st && st[me].Committed? && forall i :: 0 <= i < |hist| ==> hist[i].txn == me
    ensures Left(hist, gone + [me]) == [] && Stored(base, hist, st, gone + [me]) == ApplyAll(base, hist)
  {
    NoneLeft(hist, gone + [me]);
    NotStored(base, hist, st, gone, me);
    AllMine(hist, st, me);
    assert (gone + [me])[..|gone|] == gone;
  }

  datatype Session = Session(cmds: seq<Cmd>, commit: bool)

  ghost function Result(m: Map, s: Session): Map { if s.commit then After(m, s.cmds) else m }

  ghost function Results(m: Map, ss: seq<Session>): Map {
    if ss == [] then m else Result(Results(m, ss[..|ss| - 1]), ss[|ss| - 1])
  }

  lemma QuietBegins(base: Map, st: States, me: TxnId)
    ensures ApplyAll(base, Seen([], st, me)) == base && forall k :: !Contested([], st, me, k)
  {
  }

  lemma NothingPending(k: Key)
    ensures Gone([], k)
  {
  }

  /** A whole transaction: its replies are those of a finite map, and the btree then holds that map if it
      commits and what it held before if it aborts. */
  method RunSession(db: TxnDb, s: Session) returns (rs: seq<Reply>)
    requires Quiet(db)
    modifies db, db.be
    ensures Quiet(db) && RepliesOk(old(db.Base()), s.cmds, rs) && db.Base() == Result(old(db.Base()), s)
  {
    hide Seen, ApplyAll, Contested, Isolated, TxnLists.Holds, TxnLists.Live, BtreeBackend.Btree.Valid, After, RepliesOk;
    hide Left, Stored, LoopSafe, InOrder, Gone, EndsIn, EndsWith, Without, TxnOps, Answered;
    ghost var base, list, l, r := db.Base(), db.list, db.lists, db.refs;
    forall k ensures TxnLists.Live(l, r, k) { assert db.LiveAt(k); }
    var me := db.Begin();
    QuietBegins(base, db.state, me);
    rs := Run(db, me, s.cmds);
    ghost var hist := db.hist;
    AllMine(hist, db.state, me);
    forall k ensures Gone([], k) { NothingPending(k); }
    if s.commit {
      LastIsStored(base, hist, db.state[me := Committed], list, me);
      db.Commit(me);
      assert (list + [me])[..|list| + 1] == list + [me];
    } else {
      db.Abort(me);
    }
  }

  /** Any number of transactions one after the other. */
  method Serial(db: TxnDb, ss: seq<Session>) returns (rss: seq<seq<Reply>>)
    requires Quiet(db)
    modifies db, db.be
    ensures Quiet(db) && |rss| == |ss| && db.Base() == Results(old(db.Base()), ss)
    ensures forall i :: 0 <= i < |ss| ==> RepliesOk(Results(old(db.Base()), ss[..i]), ss[i].cmds, rss[i])
  {
    hide RepliesOk, Result, Isolated, TxnLists.Holds, TxnLists.Live, BtreeBackend.Btree.Valid;
    rss := [];
    ghost var m := db.Base();
    for n := 0 to |ss|
      invariant Quiet(db) && |rss| == n && db.Base() == Results(m, ss[..n])
      invariant forall i :: 0 <= i < n ==> RepliesOk(Results(m, ss[..i]), ss[i].cmds, rss[i])
    {
      assert ss[..n + 1][..n] == ss[..n];
      var rs := RunSession(db, ss[n]);
      rss := rss + [rs];
    }
    assert ss[..|ss|] == ss;
  }
}
