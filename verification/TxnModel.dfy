/** Pending operations of transactions, what a transaction sees of a key, and what flushing does to
    it (src/db.cc, src/env.cc, src/txn.cc). */
module TxnModel {
  import opened Collections
  import BtreeNode

  type Key = BtreeNode.Key
  type TxnId = nat

  datatype TxnState = Active | Committed | Aborted

  datatype Kind = Put(rec: nat) | Del

  /** A pending operation. All of them form one sequence, oldest first; the list of a key's node and
      the list of a transaction are its parts. */
  datatype Op = Op(txn: TxnId, key: Key, kind: Kind)

  type States = map<TxnId, TxnState>

  function NodeOps(hist: seq<Op>, k: Key): seq<Op> {
    if hist == [] then []
    else
      var op := hist[|hist| - 1];
      if op.key == k then NodeOps(hist[..|hist| - 1], k) + [op] else NodeOps(hist[..|hist| - 1], k)
  }

  function TxnOps(hist: seq<Op>, t: TxnId): seq<Op> {
    if hist == [] then []
    else
      var op := hist[|hist| - 1];
      if op.txn == t then TxnOps(hist[..|hist| - 1], t) + [op] else TxnOps(hist[..|hist| - 1], t)
  }

  /** What is left when all operations of `t` are freed. */
  function Without(hist: seq<Op>, t: TxnId): seq<Op> {
    if hist == [] then []
    else
      var op := hist[|hist| - 1];
      if op.txn == t then Without(hist[..|hist| - 1], t) else Without(hist[..|hist| - 1], t) + [op]
  }

  // ------------------------------------------------------------------------------ reference semantics

  function Effect(kind: Kind): Option<nat> { match kind case Put(r) => Some(r) case Del => None }

  function Lookup(base: map<Key, nat>, k: Key): Option<nat> { if k in base then Some(base[k]) else None }

  /** One operation on the stored map. */
  function Apply(base: map<Key, nat>, op: Op): map<Key, nat> {
    match op.kind case Put(r) => base[op.key := r] case Del => base - {op.key}
  }

  function ApplyAll(base: map<Key, nat>, ops: seq<Op>): map<Key, nat> {
    if ops == [] then base else Apply(ApplyAll(base, ops[..|ops| - 1]), ops[|ops| - 1])
  }

  predicate Visible(op: Op, st: States, me: TxnId) {
    op.txn == me || (op.txn in st && st[op.txn].Committed?)
  }

  predicate Foreign(op: Op, st: States, me: TxnId) {
    op.txn != me && op.txn in st && st[op.txn].Active?
  }

  /** The operations `me` sees, oldest first. */
  function Seen(ops: seq<Op>, st: States, me: TxnId): seq<Op> {
    if ops == [] then []
    else
      var op := ops[|ops| - 1];
      if Visible(op, st, me) then Seen(ops[..|ops| - 1], st, me) + [op] else Seen(ops[..|ops| - 1], st, me)
  }

  datatype Answer = Found(rec: nat) | NotFound | Conflict

  /** Another transaction has an unfinished operation on the key. */
  ghost predicate Contested(hist: seq<Op>, st: States, me: TxnId, k: Key) {
    exists i :: 0 <= i < |hist| && hist[i].key == k && Foreign(hist[i], st, me)
  }

  /** The reference answer: replay everything visible, oldest first, on the stored map, and look. */
  ghost function Answered(base: map<Key, nat>, hist: seq<Op>, st: States, me: TxnId, k: Key): Answer {
    if Contested(hist, st, me, k) then Conflict else ToAnswer(Lookup(ApplyAll(base, Seen(hist, st, me)), k))
  }

  function ToAnswer(o: Option<nat>): Answer { match o case Some(r) => Found(r) case None => NotFound }

  // ------------------------------------------------------------------------------ the newest op decides

  lemma ApplyLookup(base: map<Key, nat>, op: Op, k: Key)
    ensures Lookup(Apply(base, op), k) == if op.key == k then Effect(op.kind) else Lookup(base, k)
  {
  }

  lemma ApplySnoc(base: map<Key, nat>, ops: seq<Op>, op: Op)
    ensures ApplyAll(base, ops + [op]) == Apply(ApplyAll(base, ops), op)
  {
    assert (ops + [op])[..|ops|] == ops;
  }

  /** The newest operation on `k` that `me` sees. */
  function NewestSeen(hist: seq<Op>, st: States, me: TxnId, k: Key): (r: Option<Op>)
    ensures r.Some? ==> r.value in hist && r.value.key == k && Visible(r.value, st, me)
  {
    if hist == [] then None
    else
      var op := hist[|hist| - 1];
      if op.key == k && Visible(op, st, me) then Some(op) else NewestSeen(hist[..|hist| - 1], st, me, k)
  }

  /** Reading backwards up to the first visible operation is the same as replaying them all. */
  lemma {:induction false} NewestDecides(base: map<Key, nat>, hist: seq<Op>, st: States, me: TxnId, k: Key)
    ensures Lookup(ApplyAll(base, Seen(hist, st, me)), k) ==
      match NewestSeen(hist, st, me, k) case Some(op) => Effect(op.kind) case None => Lookup(base, k)
  {
    if hist != [] {
      var h, op := hist[..|hist| - 1], hist[|hist| - 1];
      NewestDecides(base, h, st, me, k);
      ApplySnoc(base, Seen(h, st, me), op);
      ApplyLookup(ApplyAll(base, Seen(h, st, me)), op, k);
    }
  }

  /** The newest operation of transaction `t` on `k`. */
  function NewestOf(hist: seq<Op>, t: TxnId, k: Key): Option<Op> {
    if hist == [] then None
    else
      var op := hist[|hist| - 1];
      if op.key == k && op.txn == t then Some(op) else NewestOf(hist[..|hist| - 1], t, k)
  }

  lemma {:induction false} FlushedLookup(base: map<Key, nat>, hist: seq<Op>, t: TxnId, k: Key)
    ensures Lookup(ApplyAll(base, TxnOps(hist, t)), k) ==
      match NewestOf(hist, t, k) case Some(op) => Effect(op.kind) case None => Lookup(base, k)
  {
    if hist != [] {
      var h, op := hist[..|hist| - 1], hist[|hist| - 1];
      FlushedLookup(base, h, t, k);
      ApplySnoc(base, TxnOps(h, t), op);
      ApplyLookup(ApplyAll(base, TxnOps(h, t)), op, k);
    }
  }

  // ------------------------------------------------------------------------------ the invariant

  ghost predicate Follows(hist: seq<Op>, st: States, i: nat, j: nat)
    requires i < |hist| && j < |hist|
  {
    hist[i].key == hist[j].key && hist[i].txn in st && st[hist[i].txn].Active? ==>
      hist[j].txn == hist[i].txn || (hist[j].txn in st && st[hist[j].txn].Aborted?)
  }

  /** No operation of another non-aborted transaction follows an operation of an active one on the
      same key. */
  ghost predicate Isolated(hist: seq<Op>, st: States) {
    && (forall i :: 0 <= i < |hist| ==> hist[i].txn in st)
    && (forall i, j :: 0 <= i < j < |hist| ==> Follows(hist, st, i, j))
  }

  /** Appending is safe if nobody else has an unfinished operation on the key. */
  lemma AppendIsolated(hist: seq<Op>, st: States, op: Op)
    requires Isolated(hist, st) && op.txn in st && !Contested(hist, st, op.txn, op.key)
    ensures Isolated(hist + [op], st)
  {
    var h := hist + [op];
    forall i, j | 0 <= i < j < |h| ensures Follows(h, st, i, j) {
      if j < |hist| { assert Follows(hist, st, i, j); }
    }
  }

  /** Finishing a transaction is always safe. */
  lemma FinishIsolated(hist: seq<Op>, st: States, t: TxnId, s: TxnState)
    requires Isolated(hist, st) && !s.Active? && t in st && st[t].Active?
    ensures Isolated(hist, st[t := s])
  {
    var u := st[t := s];
    forall i, j | 0 <= i < j < |hist| ensures Follows(hist, u, i, j) { assert Follows(hist, st, i, j); }
  }

  /** The place in `hist` of what is left without `t`. */
  ghost function OldIndex(hist: seq<Op>, t: TxnId, i: nat): (x: nat)
    requires i < |Without(hist, t)|
    ensures x < |hist| && hist[x] == Without(hist, t)[i] && hist[x].txn != t
  {
    var n := |hist| - 1;
    if i < |Without(hist[..n], t)| then OldIndex(hist[..n], t, i) else n
  }

  lemma {:induction false} OldIndexMono(hist: seq<Op>, t: TxnId, i: nat, j: nat)
    requires i < j < |Without(hist, t)|
    ensures OldIndex(hist, t, i) < OldIndex(hist, t, j)
  {
    var n := |hist| - 1;
    if j < |Without(hist[..n], t)| { OldIndexMono(hist[..n], t, i, j); }
  }

  lemma WithoutIsolated(hist: seq<Op>, st: States, t: TxnId)
    requires Isolated(hist, st)
    ensures Isolated(Without(hist, t), st)
  {
    var h := Without(hist, t);
    forall i | 0 <= i < |h| ensures h[i].txn in st { assert hist[OldIndex(hist, t, i)] == h[i]; }
    forall i, j | 0 <= i < j < |h| ensures Follows(h, st, i, j) {
      OldIndexMono(hist, t, i, j);
      assert Follows(hist, st, OldIndex(hist, t, i), OldIndex(hist, t, j));
    }
  }

  /** If the newest operation on a key that is not aborted can be seen, the key is not contested. */
  lemma NewestFree(hist: seq<Op>, st: States, me: TxnId, k: Key, i: nat)
    requires Isolated(hist, st) && i < |hist| && hist[i].key == k && Visible(hist[i], st, me) &&
      !(st[hist[i].txn].Aborted?)
    requires forall x :: i < x < |hist| && hist[x].key == k ==> !Foreign(hist[x], st, me)
    ensures !Contested(hist, st, me, k)
  {
    forall x | 0 <= x < |hist| && hist[x].key == k ensures !Foreign(hist[x], st, me) {
      if x < i { assert Follows(hist, st, x, i); }
    }
  }

  // ------------------------------------------------------------------------------ the list of a node

  lemma {:induction false} NodeOpsIn(hist: seq<Op>, k: Key, op: Op)
    ensures op in NodeOps(hist, k) <==> op in hist && op.key == k
  {
    if hist != [] {
      NodeOpsIn(hist[..|hist| - 1], k, op);
      assert hist == hist[..|hist| - 1] + [hist[|hist| - 1]];
    }
  }

  /** Everything about a key can be read from the list of its node. */
  lemma {:induction false} NodeView(hist: seq<Op>, st: States, me: TxnId, k: Key)
    ensures NewestSeen(NodeOps(hist, k), st, me, k) == NewestSeen(hist, st, me, k)
    ensures Contested(NodeOps(hist, k), st, me, k) <==> Contested(hist, st, me, k)
  {
    if hist != [] { NodeView(hist[..|hist| - 1], st, me, k); }
    if Contested(hist, st, me, k) {
      var i :| 0 <= i < |hist| && hist[i].key == k && Foreign(hist[i], st, me);
      NodeOpsIn(hist, k, hist[i]);
      var j :| 0 <= j < |NodeOps(hist, k)| && NodeOps(hist, k)[j] == hist[i];
    }
    if Contested(NodeOps(hist, k), st, me, k) {
      var i :| 0 <= i < |NodeOps(hist, k)| && NodeOps(hist, k)[i].key == k && Foreign(NodeOps(hist, k)[i], st, me);
      NodeOpsIn(hist, k, NodeOps(hist, k)[i]);
      var j :| 0 <= j < |hist| && hist[j] == NodeOps(hist, k)[i];
    }
  }

  lemma {:induction false} NodeIsolated(hist: seq<Op>, st: States, k: Key)
    requires Isolated(hist, st)
    ensures Isolated(NodeOps(hist, k), st) && forall i :: 0 <= i < |NodeOps(hist, k)| ==> NodeOps(hist, k)[i].key == k
  {
    if hist != [] {
      var h, n := hist[..|hist| - 1], |hist| - 1;
      assert Isolated(h, st) by {
        forall i, j | 0 <= i < j < |h| ensures Follows(h, st, i, j) { assert Follows(hist, st, i, j); }
      }
      NodeIsolated(h, st, k);
      var N := NodeOps(hist, k);
      if hist[n].key == k {
        forall i, j | 0 <= i < j < |N| ensures Follows(N, st, i, j) {
          if j < |N| - 1 {
            assert Follows(NodeOps(h, k), st, i, j);
          } else {
            NodeOpsIn(h, k, N[i]);
            var x :| 0 <= x < |h| && h[x] == N[i];
            assert Follows(hist, st, x, n);
          }
        }
      }
    }
  }

  /** Nothing is pending for the key. */
  ghost predicate Gone(hist: seq<Op>, k: Key) { NodeOps(hist, k) == [] }

  /** The newest operation on the key is one of `t`. */
  ghost predicate EndsWith(hist: seq<Op>, t: TxnId, k: Key) {
    var N := NodeOps(hist, k);
    N != [] && N[|N| - 1].txn == t
  }

  ghost predicate AllOf(ops: seq<Op>, t: TxnId) { forall i :: 0 <= i < |ops| ==> ops[i].txn == t }

  /** A newest pointer that is right before the operations of `t` are freed is right afterwards: the
      newest operation on the key is not one of `t`, or all of them are. */
  ghost predicate NewestStays(hist: seq<Op>, t: TxnId, k: Key) {
    !EndsWith(hist, t, k) || AllOf(NodeOps(hist, k), t)
  }

  /** All operations on the key are gone exactly if all were of `t`. */
  lemma {:induction false} GoneWithout(hist: seq<Op>, t: TxnId, k: Key)
    ensures Gone(Without(hist, t), k) <==> AllOf(NodeOps(hist, k), t)
  {
    if hist != [] {
      var h, op := hist[..|hist| - 1], hist[|hist| - 1];
      GoneWithout(h, t, k);
      assert (Without(h, t) + [op])[..|Without(h, t)|] == Without(h, t);
      if op.key == k { AllOfSnoc(NodeOps(h, k), op, t); }
    }
  }

  lemma AllOfSnoc(ops: seq<Op>, op: Op, t: TxnId)
    ensures AllOf(ops + [op], t) <==> AllOf(ops, t) && op.txn == t
  {
    var r := ops + [op];
    if AllOf(r, t) {
      assert r[|ops|] == op;
      forall i | 0 <= i < |ops| ensures ops[i].txn == t { assert r[i] == ops[i]; }
    }
  }

  // ------------------------------------------------------------------------------ flushing

  /** If the newest operation `me` sees on `k` is one of `t`, the newest visible one that is left without
      `t`, if there is any, has the same effect. */
  ghost predicate FlushSafe(hist: seq<Op>, st: States, me: TxnId, t: TxnId, k: Key) {
    var a, b := NewestSeen(hist, st, me, k), NewestSeen(Without(hist, t), st, me, k);
    a.Some? && a.value.txn == t && b.Some? ==> Effect(b.value.kind) == Effect(a.value.kind)
  }

  lemma {:induction false} NewestWithout(hist: seq<Op>, st: States, me: TxnId, t: TxnId, k: Key)
    requires t in st && st[t].Committed?
    ensures var a, b, c := NewestSeen(hist, st, me, k), NewestSeen(Without(hist, t), st, me, k), NewestOf(hist, t, k);
      && (a.None? ==> b.None? && c.None?)
      && (a.Some? && a.value.txn != t ==> b == a)
      && (a.Some? && a.value.txn == t ==> c == a)
  {
    if hist != [] { NewestWithout(hist[..|hist| - 1], st, me, t, k); }
  }

  lemma WithoutContested(hist: seq<Op>, st: States, me: TxnId, t: TxnId, k: Key)
    requires t in st && !st[t].Active?
    ensures Contested(Without(hist, t), st, me, k) <==> Contested(hist, st, me, k)
  {
    var h := Without(hist, t);
    if Contested(h, st, me, k) {
      var i :| 0 <= i < |h| && h[i].key == k && Foreign(h[i], st, me);
      assert hist[OldIndex(hist, t, i)] == h[i];
    }
    if Contested(hist, st, me, k) {
      var i :| 0 <= i < |hist| && hist[i].key == k && Foreign(hist[i], st, me);
      Kept(hist, t, i);
    }
  }

  lemma {:induction false} Kept(hist: seq<Op>, t: TxnId, i: nat)
    requires i < |hist| && hist[i].txn != t
    ensures exists j :: 0 <= j < |Without(hist, t)| && Without(hist, t)[j] == hist[i]
  {
    var n := |hist| - 1;
    if i < n {
      Kept(hist[..n], t, i);
      var j :| 0 <= j < |Without(hist[..n], t)| && Without(hist[..n], t)[j] == hist[i];
      assert Without(hist, t)[j] == hist[i];
    } else {
      assert Without(hist, t)[|Without(hist, t)| - 1] == hist[i];
    }
  }

  /** The answer for `k` survives the flush of a committed transaction exactly if the flush is safe for `k`. */
  lemma FlushKeeps(base: map<Key, nat>, hist: seq<Op>, st: States, me: TxnId, t: TxnId, k: Key)
    requires t in st && st[t].Committed?
    ensures Answered(ApplyAll(base, TxnOps(hist, t)), Without(hist, t), st, me, k) == Answered(base, hist, st, me, k)
      <==> Contested(hist, st, me, k) || FlushSafe(hist, st, me, t, k)
  {
    hide NewestSeen, ApplyAll, TxnOps, Without, Seen, NewestOf, Contested;
    var base' := ApplyAll(base, TxnOps(hist, t));
    WithoutContested(hist, st, me, t, k);
    NewestDecides(base, hist, st, me, k);
    NewestDecides(base', Without(hist, t), st, me, k);
    FlushedLookup(base, hist, t, k);
    NewestWithout(hist, st, me, t, k);
  }

  lemma AnswerIs(base: map<Key, nat>, hist: seq<Op>, st: States, me: TxnId, k: Key, op: Op)
    requires NewestSeen(hist, st, me, k) == Some(op) && forall i :: 0 <= i < |hist| ==> !Foreign(hist[i], st, me)
    ensures Answered(base, hist, st, me, k) == ToAnswer(Effect(op.kind))
  {
    NewestDecides(base, hist, st, me, k);
  }

  /** A later transaction may have run first: flushing in begin order then changes the answer. */
  lemma FlushCanLose(k: Key)
    ensures var st: States := map[1 := Committed, 2 := Committed, 3 := Active];
      var hist := [Op(2, k, Put(7)), Op(1, k, Del)];
      && Isolated(hist, st)
      && Answered(map[], hist, st, 3, k) == NotFound
      && Answered(ApplyAll(map[], TxnOps(hist, 1)), Without(hist, 1), st, 3, k) == Found(7)
  {
    hide Answered, ApplyAll, TxnOps;
    var st: States := map[1 := Committed, 2 := Committed, 3 := Active];
    var a, b := Op(2, k, Put(7)), Op(1, k, Del);
    var hist := [a, b];
    assert hist[..1] == [a] && [a][..0] == [];
    assert Without([a], 1) == [a];
    AnswerIs(map[], hist, st, 3, k, b);
    AnswerIs(ApplyAll(map[], TxnOps(hist, 1)), [a], st, 3, k, a);
  }

  /** Operations on a key come in the order in which their transactions began. */
  ghost predicate InOrder(hist: seq<Op>, list: seq<TxnId>) {
    && (forall i :: 0 <= i < |hist| ==> hist[i].txn in list)
    && (forall x, y :: 0 <= x < y < |list| ==> list[x] != list[y])
    && (forall i, j :: 0 <= i < j < |hist| ==> Ordered(hist, list, i, j))
  }

  ghost predicate Ordered(hist: seq<Op>, list: seq<TxnId>, i: nat, j: nat)
    requires i < |hist| && j < |hist|
  {
    hist[i].key == hist[j].key ==>
      forall x, y :: 0 <= x < |list| && 0 <= y < |list| && list[x] == hist[i].txn && list[y] == hist[j].txn ==> x <= y
  }

  lemma NewestIndex(hist: seq<Op>, st: States, me: TxnId, k: Key) returns (i: nat)
    requires NewestSeen(hist, st, me, k).Some?
    ensures i < |hist| && hist[i] == NewestSeen(hist, st, me, k).value && forall x :: i < x < |hist| ==>
      !(hist[x].key == k && Visible(hist[x], st, me))
  {
    i := |hist| - 1;
    if !(hist[i].key == k && Visible(hist[i], st, me)) { i := NewestIndex(hist[..i], st, me, k); }
  }

  /** In runs that keep the begin order, flushing the oldest transaction is safe for every key. */
  lemma InOrderSafe(hist: seq<Op>, st: States, list: seq<TxnId>, me: TxnId, k: Key)
    requires InOrder(hist, list) && |list| > 0
    ensures FlushSafe(hist, st, me, list[0], k)
  {
    var t := list[0];
    var a, b := NewestSeen(hist, st, me, k), NewestSeen(Without(hist, t), st, me, k);
    if a.Some? && a.value.txn == t && b.Some? {
      var i := NewestIndex(hist, st, me, k);
      var j := NewestIndex(Without(hist, t), st, me, k);
      var x := OldIndex(hist, t, j);
      if x < i { OldestFirst(hist, list, x, i); }
    }
  }

  lemma OldestFirst(hist: seq<Op>, list: seq<TxnId>, x: nat, i: nat)
    requires InOrder(hist, list) && |list| > 0 && x < i < |hist| && hist[x].key == hist[i].key && hist[i].txn == list[0]
    ensures hist[x].txn == list[0]
  {
    assert Ordered(hist, list, x, i);
    var y :| 0 <= y < |list| && list[y] == hist[x].txn;
  }

  lemma InOrderPrefix(hist: seq<Op>, list: seq<TxnId>, n: nat)
    requires InOrder(hist, list) && n <= |hist|
    ensures InOrder(hist[..n], list)
  {
    var h := hist[..n];
    forall i, j | 0 <= i < j < |h| ensures Ordered(h, list, i, j) { assert Ordered(hist, list, i, j); }
  }

  /** In runs that keep the begin order, freeing the oldest transaction leaves no newest pointer behind. */
  lemma {:induction false} InOrderStays(hist: seq<Op>, list: seq<TxnId>, k: Key)
    requires InOrder(hist, list) && |list| > 0
    ensures NewestStays(hist, list[0], k)
  {
    if hist != [] {
      var n, t := |hist| - 1, list[0];
      if hist[n].key != k {
        InOrderPrefix(hist, list, n);
        InOrderStays(hist[..n], list, k);
      } else if hist[n].txn == t {
        var N := NodeOps(hist, k);
        forall i | 0 <= i < |N| ensures N[i].txn == t {
          NodeOpsIn(hist, k, N[i]);
          var x :| 0 <= x < |hist| && hist[x] == N[i];
          if x < n { OldestFirst(hist, list, x, n); }
        }
      }
    }
  }

  lemma WithoutInOrder(hist: seq<Op>, list: seq<TxnId>)
    requires InOrder(hist, list) && |list| > 0
    ensures InOrder(Without(hist, list[0]), list[1..])
  {
    var h, L, t := Without(hist, list[0]), list[1..], list[0];
    forall i | 0 <= i < |h| ensures h[i].txn in L {
      var x := OldIndex(hist, t, i);
      var y :| 0 <= y < |list| && list[y] == hist[x].txn;
      assert L[y - 1] == h[i].txn;
    }
    forall i, j | 0 <= i < j < |h| ensures Ordered(h, L, i, j) {
      OldIndexMono(hist, t, i, j);
      assert Ordered(hist, list, OldIndex(hist, t, i), OldIndex(hist, t, j));
      forall x, y | 0 <= x < |L| && 0 <= y < |L| && L[x] == h[i].txn && L[y] == h[j].txn && h[i].key == h[j].key
        ensures x <= y {
        assert list[x + 1] == L[x] && list[y + 1] == L[y];
      }
    }
  }

  /** Flushing the oldest transaction, in a run that keeps the begin order, changes no answer. */
  lemma FlushOldest(base: map<Key, nat>, hist: seq<Op>, st: States, list: seq<TxnId>, me: TxnId, k: Key)
    requires InOrder(hist, list) && |list| > 0 && list[0] in st && st[list[0]].Committed?
    ensures Answered(ApplyAll(base, TxnOps(hist, list[0])), Without(hist, list[0]), st, me, k) ==
      Answered(base, hist, st, me, k)
  {
    hide NewestSeen, ApplyAll, TxnOps, Without, Seen, Contested, InOrder;
    WithoutContested(hist, st, me, list[0], k);
    if !Contested(hist, st, me, k) {
      InOrderSafe(hist, st, list, me, k);
      FlushKeeps(base, hist, st, me, list[0], k);
    }
  }

  /** Freeing the operations of an aborted transaction changes no answer. */
  lemma AbortedGone(base: map<Key, nat>, hist: seq<Op>, st: States, t: TxnId, me: TxnId, k: Key)
    requires t in st && st[t].Aborted? && me != t
    ensures Answered(base, Without(hist, t), st, me, k) == Answered(base, hist, st, me, k)
  {
    hide Contested;
    WithoutContested(hist, st, me, t, k);
    SeenWithout(hist, st, t, me);
  }

  lemma {:induction false} SeenWithout(hist: seq<Op>, st: States, t: TxnId, me: TxnId)
    requires t in st && !st[t].Committed? && me != t
    ensures Seen(Without(hist, t), st, me) == Seen(hist, st, me)
  {
    if hist != [] {
      var h, op := hist[..|hist| - 1], hist[|hist| - 1];
      SeenWithout(h, st, t, me);
      assert (Without(h, t) + [op])[..|Without(h, t)|] == Without(h, t);
    }
  }

  /** Aborting is invisible to everybody who could read the key before. */
  lemma AbortInvisible(base: map<Key, nat>, hist: seq<Op>, st: States, t: TxnId, me: TxnId, k: Key)
    requires t in st && st[t].Active? && me != t && !Contested(hist, st, me, k)
    ensures Answered(base, Without(hist, t), st[t := Aborted], me, k) == Answered(base, hist, st, me, k)
  {
    var u := st[t := Aborted];
    AbortedGone(base, hist, u, t, me, k);
    SeenAs(hist, st, u, t, me);
  }

  lemma {:induction false} SeenAs(hist: seq<Op>, st: States, u: States, t: TxnId, me: TxnId)
    requires t in st && st[t].Active? && me != t && u == st[t := Aborted]
    ensures Seen(hist, u, me) == Seen(hist, st, me)
  {
    if hist != [] { SeenAs(hist[..|hist| - 1], st, u, t, me); }
  }

  /** Committing lets everybody see, on the keys the transaction touched, exactly what it saw. */
  lemma CommitPublishes(base: map<Key, nat>, hist: seq<Op>, st: States, t: TxnId, me: TxnId, k: Key, i: nat)
    requires Isolated(hist, st) && t in st && st[t].Active? && i < |hist| && hist[i].txn == t && hist[i].key == k
    requires me in st ==> !st[me].Aborted?
    ensures Answered(base, hist, st[t := Committed], me, k) == Answered(base, hist, st, t, k) != Conflict
  {
    hide Seen, ApplyAll, Isolated;
    var u := st[t := Committed];
    NewestIsMine(hist, st, t, t, st, k, i);
    NewestIsMine(hist, st, t, me, u, k, i);
    NewestDecides(base, hist, st, t, k);
    NewestDecides(base, hist, u, me, k);
    if Contested(hist, st, t, k) { NotContested(hist, st, t, t, st, k, i); }
    if Contested(hist, u, me, k) { NotContested(hist, st, t, me, u, k, i); }
  }

  lemma NotContested(hist: seq<Op>, st: States, t: TxnId, me: TxnId, u: States, k: Key, i: nat)
    requires Isolated(hist, st) && t in st && st[t].Active? && i < |hist| && hist[i].txn == t && hist[i].key == k
    requires (u == st && me == t) || u == st[t := Committed]
    ensures !Contested(hist, u, me, k)
  {
    forall x | 0 <= x < |hist| && hist[x].key == k ensures !Foreign(hist[x], u, me) {
      if x < i { assert Follows(hist, st, x, i); }
      if i < x { assert Follows(hist, st, i, x); }
    }
  }

  lemma {:induction false} NewestIsMine(hist: seq<Op>, st: States, t: TxnId, me: TxnId, u: States, k: Key, i: nat)
    requires Isolated(hist, st) && t in st && st[t].Active? && i < |hist| && hist[i].txn == t && hist[i].key == k
    requires (u == st && me == t) || u == st[t := Committed]
    requires me in st ==> !st[me].Aborted?
    ensures NewestSeen(hist, u, me, k) == NewestOf(hist, t, k) != None
  {
    var n := |hist| - 1;
    var h := hist[..n];
    if hist[n].key == k && hist[n].txn == t {
    } else {
      assert Isolated(h, st) by {
        forall a, b | 0 <= a < b < |h| ensures Follows(h, st, a, b) { assert Follows(hist, st, a, b); }
      }
      assert Follows(hist, st, i, n);
      MineNext(hist, st, t, me, u, k);
      NewestIsMine(h, st, t, me, u, k, i);
    }
  }

  lemma MineNext(hist: seq<Op>, st: States, t: TxnId, me: TxnId, u: States, k: Key)
    requires |hist| > 0 && t in st && st[t].Active? && ((u == st && me == t) || u == st[t := Committed])
    requires var op := hist[|hist| - 1]; op.key != k || (op.txn != t && op.txn in st && st[op.txn].Aborted?)
    requires me in st ==> !st[me].Aborted?
    ensures NewestOf(hist, t, k) == NewestOf(hist[..|hist| - 1], t, k)
    ensures NewestSeen(hist, u, me, k) == NewestSeen(hist[..|hist| - 1], u, me, k)
  {
  }
}
