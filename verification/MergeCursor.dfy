/** A cursor that walks the btree and the transaction tree in step (src/cursor.cc), in a database
    without duplicates and conflicts. */
module MergeCursor {
  import opened Collections
  import BtreeNode

  type Key = BtreeNode.Key

  /** A key of the transaction tree, with what its newest visible operation did. */
  datatype TxnNode = TxnNode(key: Key, erased: bool)

  ghost predicate Sorted(B: seq<Key>, T: seq<TxnNode>) {
    && (forall x, y :: 0 <= x < y < |B| ==> B[x] < B[y])
    && (forall x, y :: 0 <= x < y < |T| ==> T[x].key < T[y].key)
  }

  function Cmp(a: Key, b: Key): int { if a < b then -1 else if a > b then 1 else 0 }

  ghost predicate InTxn(T: seq<TxnNode>, k: Key, erased: bool) {
    exists x :: 0 <= x < |T| && T[x] == TxnNode(k, erased)
  }

  /** The keys a cursor has to visit. */
  ghost predicate InView(B: seq<Key>, T: seq<TxnNode>, k: Key) {
    InTxn(T, k, false) || (k in B && !InTxn(T, k, true))
  }

  // ------------------------------------------------------------------------------ positions

  /** Where the two cursors stand (None is nil), the last comparison, and which one counts. */
  datatype Position = Position(b: Option<nat>, t: Option<nat>, lastcmp: int, txn: bool)

  ghost predicate InBounds(B: seq<Key>, T: seq<TxnNode>, p: Position) {
    (p.b.Some? ==> p.b.value < |B|) && (p.t.Some? ==> p.t.value < |T|)
  }

  /** The comparison is that of the two positions, and the position that counts is not nil. */
  ghost predicate Synced(B: seq<Key>, T: seq<TxnNode>, p: Position) {
    && InBounds(B, T, p)
    && (p.b.Some? && p.t.Some? ==> p.lastcmp == Cmp(B[p.b.value], T[p.t.value].key))
    && (if p.txn then p.t.Some? else p.b.Some?)
  }

  ghost function Cur(B: seq<Key>, T: seq<TxnNode>, p: Position): Key
    requires Synced(B, T, p)
  {
    if p.txn then T[p.t.value].key else B[p.b.value]
  }

  /** Standing on the smaller of the two positions (on both if they are equal), with everything
      smaller behind. */
  ghost predicate Forward(B: seq<Key>, T: seq<TxnNode>, p: Position) {
    && Synced(B, T, p)
    && (p.b.None? ==> p.lastcmp >= 0) && (p.t.None? ==> p.lastcmp <= 0)
    && (p.b.Some? && p.t.Some? ==> (p.txn <==> p.lastcmp >= 0))
    && (forall i :: 0 <= i < |B| && (p.b.Some? ==> i < p.b.value) ==> B[i] < Cur(B, T, p))
    && (forall i :: 0 <= i < |T| && (p.t.Some? ==> i < p.t.value) ==> T[i].key < Cur(B, T, p))
  }

  /** Standing on the larger of the two positions, with everything larger behind. */
  ghost predicate Backward(B: seq<Key>, T: seq<TxnNode>, p: Position) {
    && Synced(B, T, p)
    && (p.b.None? ==> p.lastcmp <= 0) && (p.t.None? ==> p.lastcmp >= 0)
    && (p.b.Some? && p.t.Some? ==> (p.txn <==> p.lastcmp <= 0))
    && (forall i :: 0 <= i < |B| && (p.b.Some? ==> i > p.b.value) ==> B[i] > Cur(B, T, p))
    && (forall i :: 0 <= i < |T| && (p.t.Some? ==> i > p.t.value) ==> T[i].key > Cur(B, T, p))
  }

  /** No key of either tree is strictly between. */
  ghost predicate NoneBetween(B: seq<Key>, T: seq<TxnNode>, lo: Key, hi: Key) {
    && (forall i :: 0 <= i < |B| ==> B[i] <= lo || hi <= B[i])
    && (forall i :: 0 <= i < |T| ==> T[i].key <= lo || hi <= T[i].key)
  }

  ghost predicate NoneAbove(B: seq<Key>, T: seq<TxnNode>, lo: Key) {
    (forall i :: 0 <= i < |B| ==> B[i] <= lo) && (forall i :: 0 <= i < |T| ==> T[i].key <= lo)
  }

  ghost predicate NoneBelow(B: seq<Key>, T: seq<TxnNode>, hi: Key) {
    (forall i :: 0 <= i < |B| ==> hi <= B[i]) && (forall i :: 0 <= i < |T| ==> hi <= T[i].key)
  }

  function Succ(o: Option<nat>, n: nat): Option<nat> {
    match o case None => None case Some(i) => if i + 1 < n then Some(i + 1) else None
  }

  function Pred(o: Option<nat>): Option<nat> {
    match o case None => None case Some(i) => if i > 0 then Some(i - 1) else None
  }

  /** The position after a step to the next key: whichever cursor stands on the smaller key moves. */
  ghost predicate Stepped(B: seq<Key>, T: seq<TxnNode>, p: Position, q: Position) {
    && q.b == (if p.lastcmp <= 0 then Succ(p.b, |B|) else p.b)
    && q.t == (if p.lastcmp >= 0 then Succ(p.t, |T|) else p.t)
  }

  ghost predicate Settled(B: seq<Key>, T: seq<TxnNode>, q: Position) {
    && InBounds(B, T, q) && (q.b.Some? || q.t.Some?)
    && (q.b.Some? && q.t.Some? ==> q.lastcmp == Cmp(B[q.b.value], T[q.t.value].key))
    && (q.b.None? ==> q.lastcmp >= 0) && (q.t.None? ==> q.lastcmp <= 0)
  }

  ghost predicate SettledBack(B: seq<Key>, T: seq<TxnNode>, q: Position) {
    && InBounds(B, T, q) && (q.b.Some? || q.t.Some?)
    && (q.b.Some? && q.t.Some? ==> q.lastcmp == Cmp(B[q.b.value], T[q.t.value].key))
    && (q.b.None? ==> q.lastcmp <= 0) && (q.t.None? ==> q.lastcmp >= 0)
  }

  lemma StepForward(B: seq<Key>, T: seq<TxnNode>, p: Position, q: Position)
    requires Sorted(B, T) && Forward(B, T, p) && Stepped(B, T, p, q)
    ensures q.b.None? && q.t.None? ==> NoneAbove(B, T, Cur(B, T, p))
    ensures Settled(B, T, q) && q.txn == !(q.lastcmp < 0 || q.t.None?) ==>
      Forward(B, T, q) && Cur(B, T, p) < Cur(B, T, q) && NoneBetween(B, T, Cur(B, T, p), Cur(B, T, q))
  {
  }

  /** How many keys are still ahead. */
  ghost function Ahead(B: seq<Key>, T: seq<TxnNode>, p: Position): nat
    requires InBounds(B, T, p)
  {
    (if p.b.Some? then |B| - p.b.value else 0) + (if p.t.Some? then |T| - p.t.value else 0)
  }

  ghost function Behind(p: Position): nat {
    (if p.b.Some? then p.b.value + 1 else 0) + (if p.t.Some? then p.t.value + 1 else 0)
  }

  ghost predicate SteppedBack(p: Position, q: Position) {
    && q.b == (if p.lastcmp >= 0 then Pred(p.b) else p.b)
    && q.t == (if p.lastcmp <= 0 then Pred(p.t) else p.t)
  }

  lemma StepBackward(B: seq<Key>, T: seq<TxnNode>, p: Position, q: Position)
    requires Sorted(B, T) && Backward(B, T, p)
    requires SteppedBack(p, q)
    ensures q.b.None? && q.t.None? ==> NoneBelow(B, T, Cur(B, T, p))
    ensures SettledBack(B, T, q) && q.txn == !(q.lastcmp > 0 || q.t.None?) ==>
      Backward(B, T, q) && Cur(B, T, q) < Cur(B, T, p) && NoneBetween(B, T, Cur(B, T, q), Cur(B, T, p))
  {
  }

  lemma ForwardSynced(B: seq<Key>, T: seq<TxnNode>, p: Position)
    requires Forward(B, T, p)
    ensures Settled(B, T, p) && Synced(B, T, p)
  {
  }

  lemma StepOn(B: seq<Key>, T: seq<TxnNode>, p: Position, q: Position)
    requires Sorted(B, T) && Forward(B, T, p) && Stepped(B, T, p, q) && Settled(B, T, q) &&
      q.txn == !(q.lastcmp < 0 || q.t.None?)
    ensures Forward(B, T, q) && Cur(B, T, p) < Cur(B, T, q) && NoneBetween(B, T, Cur(B, T, p), Cur(B, T, q)) &&
      Ahead(B, T, q) < Ahead(B, T, p)
  {
    hide NoneBetween;
    StepForward(B, T, p, q);
  }

  lemma BackwardSynced(B: seq<Key>, T: seq<TxnNode>, p: Position)
    requires Backward(B, T, p)
    ensures SettledBack(B, T, p) && Synced(B, T, p)
  {
  }

  lemma StepBack(B: seq<Key>, T: seq<TxnNode>, p: Position, q: Position)
    requires Sorted(B, T) && Backward(B, T, p) && SteppedBack(p, q) && SettledBack(B, T, q) &&
      q.txn == !(q.lastcmp > 0 || q.t.None?)
    ensures Backward(B, T, q) && Cur(B, T, q) < Cur(B, T, p) && NoneBetween(B, T, Cur(B, T, q), Cur(B, T, p)) &&
      Behind(q) < Behind(p)
  {
    hide NoneBetween;
    StepBackward(B, T, p, q);
  }

  /** Where the transaction tree counts it decides whether the key is there; where the btree counts the
      transaction tree does not have the key. */
  lemma CurView(B: seq<Key>, T: seq<TxnNode>, p: Position)
    requires Sorted(B, T) && (Forward(B, T, p) || Backward(B, T, p))
    ensures p.txn ==> (InView(B, T, Cur(B, T, p)) <==> !T[p.t.value].erased)
    ensures !p.txn ==> InView(B, T, Cur(B, T, p)) && !InTxn(T, Cur(B, T, p), true) && !InTxn(T, Cur(B, T, p), false)
  {
    var k := Cur(B, T, p);
    if p.txn { assert T[p.t.value] == TxnNode(k, T[p.t.value].erased); }
  }

  lemma ViewInUnion(B: seq<Key>, T: seq<TxnNode>, k: Key)
    requires InView(B, T, k)
    ensures (exists i :: 0 <= i < |B| && B[i] == k) || (exists i :: 0 <= i < |T| && T[i].key == k)
  {
    if InTxn(T, k, false) { var x :| 0 <= x < |T| && T[x] == TxnNode(k, false); assert T[x].key == k; }
  }

  /** No key to visit is strictly between. */
  ghost predicate Skips(B: seq<Key>, T: seq<TxnNode>, lo: Key, hi: Key) {
    forall k :: InView(B, T, k) ==> k <= lo || hi <= k
  }

  lemma SkipsOn(B: seq<Key>, T: seq<TxnNode>, lo: Key, mid: Key, hi: Key)
    requires lo <= mid <= hi && Skips(B, T, lo, mid) && NoneBetween(B, T, mid, hi) && (lo < mid ==> !InView(B, T, mid))
    ensures Skips(B, T, lo, hi)
  {
    forall k | InView(B, T, k) ensures k <= lo || hi <= k { ViewInUnion(B, T, k); }
  }

  lemma SkipsBack(B: seq<Key>, T: seq<TxnNode>, lo: Key, mid: Key, hi: Key)
    requires lo <= mid <= hi && Skips(B, T, mid, hi) && NoneBetween(B, T, lo, mid) && (mid < hi ==> !InView(B, T, mid))
    ensures Skips(B, T, lo, hi)
  {
    forall k | InView(B, T, k) ensures k <= lo || hi <= k { ViewInUnion(B, T, k); }
  }

  ghost predicate NoViewAbove(B: seq<Key>, T: seq<TxnNode>, lo: Key) { forall k :: InView(B, T, k) ==> k <= lo }

  ghost predicate NoViewBelow(B: seq<Key>, T: seq<TxnNode>, hi: Key) { forall k :: InView(B, T, k) ==> hi <= k }

  lemma EndAbove(B: seq<Key>, T: seq<TxnNode>, lo: Key, mid: Key)
    requires lo <= mid && Skips(B, T, lo, mid) && NoneAbove(B, T, mid) && (lo < mid ==> !InView(B, T, mid))
    ensures NoViewAbove(B, T, lo)
  {
    forall k | InView(B, T, k) ensures k <= lo { ViewInUnion(B, T, k); }
  }

  lemma EndBelow(B: seq<Key>, T: seq<TxnNode>, mid: Key, hi: Key)
    requires mid <= hi && Skips(B, T, mid, hi) && NoneBelow(B, T, mid) && (mid < hi ==> !InView(B, T, mid))
    ensures NoViewBelow(B, T, hi)
  {
    forall k | InView(B, T, k) ensures hi <= k { ViewInUnion(B, T, k); }
  }

  // ------------------------------------------------------------------------------ the cursor

  datatype Lookup = ErasedInTxn | Overwritten | NotThere

  datatype Move = Moved | AtEnd | IsNil

  /** One tree is empty and the comparison, left over from before, says that its turn is next. */
  ghost predicate Stuck(B: seq<Key>, T: seq<TxnNode>, p: Position) {
    && InBounds(B, T, p)
    && ((T == [] && p.b.Some? && p.t.None? && p.lastcmp > 0) || (B == [] && p.t.Some? && p.b.None? && p.lastcmp < 0))
  }

  ghost predicate StuckBack(B: seq<Key>, T: seq<TxnNode>, p: Position) {
    && InBounds(B, T, p)
    && ((T == [] && p.b.Some? && p.t.None? && p.lastcmp < 0) || (B == [] && p.t.Some? && p.b.None? && p.lastcmp > 0))
  }

  class Cursor {
    var B: seq<Key>
    var T: seq<TxnNode>
    var pos: Position

    /** A fresh cursor. */
    constructor (B: seq<Key>, T: seq<TxnNode>)
      ensures this.B == B && this.T == T && pos == Position(None, None, 0, false)
    {
      this.B, this.T := B, T;
      pos := Position(None, None, 0, false);
    }

    /** Between two moves a commit or an abort may change both trees. The parts of the cursor are coupled
        anew; the comparison stays. */
    method Retarget(B': seq<Key>, T': seq<TxnNode>, b: Option<nat>, t: Option<nat>)
      requires InBounds(B', T', Position(b, t, 0, false))
      modifies this
      ensures B == B' && T == T' && pos == old(pos).(b := b, t := t)
    {
      B, T, pos := B', T', pos.(b := b, t := t);
    }

    /** Cursor::compare */
    method Compare()
      requires InBounds(B, T, pos) && pos.b.Some? && pos.t.Some?
      modifies this`pos
      ensures pos == old(pos).(lastcmp := Cmp(B[old(pos).b.value], T[old(pos).t.value].key))
    {
      pos := pos.(lastcmp := Cmp(B[pos.b.value], T[pos.t.value].key));
    }

    /** check_if_btree_key_is_erased_or_overwritten */
    method CheckBtreeKey() returns (r: Lookup)
      requires InBounds(B, T, pos) && pos.b.Some?
      ensures r.ErasedInTxn? ==> InTxn(T, B[pos.b.value], true)
      ensures r.Overwritten? ==> InTxn(T, B[pos.b.value], false)
      ensures r.NotThere? ==> !InTxn(T, B[pos.b.value], true) && !InTxn(T, B[pos.b.value], false)
    {
      var k := B[pos.b.value];
      for i := 0 to |T|
        invariant forall x :: 0 <= x < i ==> T[x].key != k
      {
        if T[i].key == k {
          return if T[i].erased then ErasedInTxn else Overwritten;
        }
      }
      return NotThere;
    }

    /** move_next_key_singlestep. A nil cursor does not move and reports no end, so a comparison that
        points to it stops the walk. */
    method NextStep() returns (ok: bool)
      requires Sorted(B, T) && InBounds(B, T, pos) && (pos.b.Some? || pos.t.Some?)
      modifies this`pos
      ensures ok ==> InBounds(B, T, pos)
      ensures old(Forward(B, T, pos)) && ok ==> Forward(B, T, pos)
      ensures old(Forward(B, T, pos)) && ok ==>
        Cur(B, T, old(pos)) < Cur(B, T, pos) && NoneBetween(B, T, Cur(B, T, old(pos)), Cur(B, T, pos))
      ensures old(Forward(B, T, pos)) && ok ==> Ahead(B, T, pos) < Ahead(B, T, old(pos))
      ensures old(Forward(B, T, pos)) && !ok ==> NoneAbove(B, T, Cur(B, T, old(pos)))
      ensures old(pos.t.None? && pos.lastcmp > 0) ==> ok && pos == old(pos).(txn := false)
      ensures old(pos.b.None? && pos.lastcmp < 0) ==> ok && pos == old(pos).(txn := false)
      ensures ok && pos.b.None? && old(pos.b.Some? || pos.lastcmp > 0) ==> pos.lastcmp > 0
    {
      hide Forward, NoneBetween, NoneAbove;
      ghost var p := pos;
      var q := pos;
      if Forward(B, T, p) { ForwardSynced(B, T, p); }
      if q.lastcmp == 0 {
        if q.b.Some? {
          q := q.(b := Succ(q.b, |B|));
          if q.b.None? {
            if q.t.None? { if Forward(B, T, p) { StepForward(B, T, p, q); } pos := q; return false; }
            q := q.(txn := true, lastcmp := 1);
          }
        }
        if q.t.Some? {
          q := q.(t := Succ(q.t, |T|));
          if q.t.None? {
            if q.b.None? { if Forward(B, T, p) { StepForward(B, T, p, q); } pos := q; return false; }
            q := q.(txn := false, lastcmp := -1);
          }
        }
      } else if q.lastcmp < 0 {
        if q.b.Some? {
          q := q.(b := Succ(q.b, |B|));
          if q.b.None? {
            if q.t.None? { if Forward(B, T, p) { StepForward(B, T, p, q); } pos := q; return false; }
            q := q.(txn := true, lastcmp := 1);
          }
        }
        if q.t.None? { q := q.(lastcmp := -1); }
      } else {
        if q.t.Some? {
          q := q.(t := Succ(q.t, |T|));
          if q.t.None? {
            if q.b.None? { if Forward(B, T, p) { StepForward(B, T, p, q); } pos := q; return false; }
            q := q.(txn := false, lastcmp := -1);
          }
        }
        if q.b.None? { q := q.(lastcmp := 1); }
      }
      pos := q;
      if pos.b.Some? && pos.t.Some? { Compare(); }
      pos := pos.(txn := !(pos.lastcmp < 0 || pos.t.None?));
      if Forward(B, T, p) { StepOn(B, T, p, pos); }
      ok := true;
    }

    /** What move_next_key and move_first_key check after a step: is the key they stand on erased? */
    method IsErased() returns (erased: bool)
      requires Sorted(B, T) && InBounds(B, T, pos) && (if pos.txn then pos.t.Some? else pos.b.Some?)
      ensures Forward(B, T, pos) || Backward(B, T, pos) ==> (erased <==> !InView(B, T, Cur(B, T, pos)))
      ensures erased == if pos.txn then T[pos.t.value].erased else InTxn(T, B[pos.b.value], true)
    {
      hide Forward, Backward;
      if Forward(B, T, pos) || Backward(B, T, pos) { CurView(B, T, pos); }
      if Forward(B, T, pos) { ForwardSynced(B, T, pos); }
      if Backward(B, T, pos) { BackwardSynced(B, T, pos); }
      if pos.txn {
        erased := T[pos.t.value].erased;
      } else {
        var r := CheckBtreeKey();
        erased := r.ErasedInTxn?;
      }
    }

    /** move_next_key. A stuck cursor stays on its key or reports that it is nil. */
    method Next() returns (r: Move)
      requires Sorted(B, T) && (Forward(B, T, pos) || Stuck(B, T, pos))
      modifies this`pos
      ensures old(Forward(B, T, pos)) ==> !r.IsNil?
      ensures old(Forward(B, T, pos)) && r.Moved? ==> Forward(B, T, pos) && InView(B, T, Cur(B, T, pos))
      ensures old(Forward(B, T, pos)) && r.Moved? ==>
        Cur(B, T, old(pos)) < Cur(B, T, pos) && Skips(B, T, Cur(B, T, old(pos)), Cur(B, T, pos))
      ensures old(Forward(B, T, pos)) && r.AtEnd? ==> NoViewAbove(B, T, Cur(B, T, old(pos)))
      ensures r.Moved? && pos.b.None? && old(pos.b.Some? || pos.lastcmp > 0) ==> pos.lastcmp > 0
      ensures old(Stuck(B, T, pos)) ==> pos == old(pos).(txn := false) && r == if T == [] then Moved else IsNil
    {
      hide Forward, NoneBetween, NoneAbove, InView, Skips, NoViewAbove;
      ghost var fwd := Forward(B, T, pos);
      if fwd { ForwardSynced(B, T, pos); NotStuck(B, T, pos); }
      ghost var cur := if fwd then Cur(B, T, pos) else 0.0;
      SkipsNothing(B, T, cur);
      while true
        invariant InBounds(B, T, pos) && (pos.b.Some? || pos.t.Some?)
        invariant fwd ==> Forward(B, T, pos) && Synced(B, T, pos)
        invariant fwd ==> cur <= Cur(B, T, pos) && Skips(B, T, cur, Cur(B, T, pos))
        invariant fwd ==> (cur < Cur(B, T, pos) ==> !InView(B, T, Cur(B, T, pos)))
        invariant !fwd ==> pos == old(pos)
        invariant pos.b.None? && old(pos.b.Some? || pos.lastcmp > 0) ==> pos.lastcmp > 0
        decreases if fwd then Ahead(B, T, pos) else 0
      {
        ghost var mid := if fwd then Cur(B, T, pos) else 0.0;
        var ok := NextStep();
        if !ok {
          if fwd { EndAbove(B, T, cur, mid); }
          return AtEnd;
        }
        if fwd {
          ForwardSynced(B, T, pos);
          SkipsOn(B, T, cur, mid, Cur(B, T, pos));
        }
        if !pos.txn && pos.b.None? {
          return IsNil;
        }
        var erased := IsErased();
        if !erased {
          return Moved;
        }
      }
    }

    /** move_first_key_singlestep. The comparison is not reset, so with one tree empty it must not
        point to that tree; a fresh cursor's does not. */
    method FirstStep() returns (ok: bool)
      requires Sorted(B, T)
      modifies this`pos
      ensures ok <==> B != [] || T != []
      ensures ok ==> InBounds(B, T, pos) && (pos.b.Some? <==> B != []) && (pos.t.Some? <==> T != [])
      ensures ok ==>
        (Forward(B, T, pos) <==> (T == [] ==> old(pos).lastcmp <= 0) && (B == [] ==> old(pos).lastcmp >= 0))
      ensures ok && Forward(B, T, pos) ==> NoneBelow(B, T, Cur(B, T, pos))
      ensures ok && !Forward(B, T, pos) ==> Stuck(B, T, pos)
      ensures ok && (B == [] || T == []) ==> pos.lastcmp == old(pos).lastcmp && pos.txn == (B == [])
      ensures ok ==>
        (pos.b.Some? ==> pos.b.value == 0) && (pos.t.Some? ==> pos.t.value == 0) &&
          (if pos.txn then pos.t.Some? else pos.b.Some?)
    {
      pos := pos.(b := if B == [] then None else Some(0), t := if T == [] then None else Some(0));
      if pos.b.None? && pos.t.None? {
        return false;
      }
      if pos.b.None? {
        pos := pos.(txn := true);
      } else if pos.t.None? {
        pos := pos.(txn := false);
      } else {
        Compare();
        pos := pos.(txn := pos.lastcmp >= 0);
      }
      ok := true;
    }

    /** move_first_key. A comparison left over from before does not matter unless it points to an empty
        tree. */
    method First() returns (r: Move)
      requires Sorted(B, T)
      modifies this`pos
      ensures (T == [] ==> old(pos).lastcmp <= 0) && (B == [] ==> old(pos).lastcmp >= 0) ==>
        && (r.Moved? ==> Forward(B, T, pos) && InView(B, T, Cur(B, T, pos)) && NoViewBelow(B, T, Cur(B, T, pos)))
        && (r.AtEnd? ==> forall k :: !InView(B, T, k)) && !r.IsNil?
      ensures T == [] && B != [] && old(pos).lastcmp > 0 ==>
        r.Moved? && pos == Position(Some(0), None, old(pos).lastcmp, false) && Stuck(B, T, pos)
      ensures B == [] && T != [] && old(pos).lastcmp < 0 ==>
        pos == Position(None, Some(0), old(pos).lastcmp, !T[0].erased) && Stuck(B, T, pos) &&
          r == if T[0].erased then IsNil else Moved
    {
      hide Forward, NoneBelow, NoneAbove, InView, NoViewAbove, NoViewBelow;
      var ok := FirstStep();
      if !ok {
        NothingThere(B, T);
        return AtEnd;
      }
      ghost var fwd := Forward(B, T, pos);
      if fwd { ForwardSynced(B, T, pos); NotStuck(B, T, pos); }
      ghost var first := if fwd then Cur(B, T, pos) else 0.0;
      var erased := IsErased();
      r := Moved;
      if erased {
        r := Next();
        if fwd {
          if r.Moved? { ForwardSynced(B, T, pos); FromBelow(B, T, first, Cur(B, T, pos)); } else {
            AllBelow(B, T, first);
          }
        }
      } else if fwd {
        StartBelow(B, T, first);
      }
    }

    /** move_previous_key_singlestep */
    method PreviousStep() returns (ok: bool)
      requires Sorted(B, T) && InBounds(B, T, pos) && (pos.b.Some? || pos.t.Some?)
      modifies this`pos
      ensures ok ==> InBounds(B, T, pos)
      ensures old(Backward(B, T, pos)) && ok ==> Backward(B, T, pos)
      ensures old(Backward(B, T, pos)) && ok ==>
        Cur(B, T, pos) < Cur(B, T, old(pos)) && NoneBetween(B, T, Cur(B, T, pos), Cur(B, T, old(pos)))
      ensures old(Backward(B, T, pos)) && ok ==> Behind(pos) < Behind(old(pos))
      ensures old(Backward(B, T, pos)) && !ok ==> NoneBelow(B, T, Cur(B, T, old(pos)))
      ensures old(pos.t.None? && pos.lastcmp < 0) ==> ok && pos == old(pos).(txn := false)
      ensures old(pos.b.None? && pos.lastcmp > 0) ==> ok && pos == old(pos).(txn := false)
    {
      hide Backward, NoneBetween, NoneBelow;
      ghost var p := pos;
      var q := pos;
      if Backward(B, T, p) { BackwardSynced(B, T, p); }
      if q.lastcmp == 0 {
        if q.b.Some? {
          q := q.(b := Pred(q.b));
          if q.b.None? {
            if q.t.None? { if Backward(B, T, p) { StepBackward(B, T, p, q); } pos := q; return false; }
            q := q.(txn := true, lastcmp := -1);
          }
        }
        if q.t.Some? {
          q := q.(t := Pred(q.t));
          if q.t.None? {
            if q.b.None? { if Backward(B, T, p) { StepBackward(B, T, p, q); } pos := q; return false; }
            q := q.(txn := false, lastcmp := 1);
          }
        }
      } else if q.lastcmp > 0 {
        if q.b.Some? {
          q := q.(b := Pred(q.b));
          if q.b.None? {
            if q.t.None? { if Backward(B, T, p) { StepBackward(B, T, p, q); } pos := q; return false; }
            q := q.(txn := true, lastcmp := -1);
          }
        }
        if q.t.None? { q := q.(lastcmp := 1); }
      } else {
        if q.t.Some? {
          q := q.(t := Pred(q.t));
          if q.t.None? {
            if q.b.None? { if Backward(B, T, p) { StepBackward(B, T, p, q); } pos := q; return false; }
            q := q.(txn := false, lastcmp := 1);
          }
        }
        if q.b.None? { q := q.(lastcmp := -1); }
      }
      pos := q;
      if pos.b.Some? && pos.t.Some? { Compare(); }
      pos := pos.(txn := !(pos.lastcmp > 0 || pos.t.None?));
      if Backward(B, T, p) { StepBack(B, T, p, pos); }
      ok := true;
    }

    /** move_previous_key */
    method Previous() returns (r: Move)
      requires Sorted(B, T) && (Backward(B, T, pos) || StuckBack(B, T, pos))
      modifies this`pos
      ensures old(Backward(B, T, pos)) ==> !r.IsNil?
      ensures old(Backward(B, T, pos)) && r.Moved? ==> Backward(B, T, pos) && InView(B, T, Cur(B, T, pos))
      ensures old(Backward(B, T, pos)) && r.Moved? ==>
        Cur(B, T, pos) < Cur(B, T, old(pos)) && Skips(B, T, Cur(B, T, pos), Cur(B, T, old(pos)))
      ensures old(Backward(B, T, pos)) && r.AtEnd? ==> NoViewBelow(B, T, Cur(B, T, old(pos)))
      ensures old(StuckBack(B, T, pos)) ==> pos == old(pos).(txn := false) && r == if T == [] then Moved else IsNil
    {
      hide Backward, NoneBetween, NoneBelow, InView, Skips, NoViewBelow;
      ghost var bwd := Backward(B, T, pos);
      if bwd { BackwardSynced(B, T, pos); NotStuckBack(B, T, pos); }
      ghost var cur := if bwd then Cur(B, T, pos) else 0.0;
      SkipsNothing(B, T, cur);
      while true
        invariant InBounds(B, T, pos) && (pos.b.Some? || pos.t.Some?)
        invariant bwd ==> Backward(B, T, pos) && Synced(B, T, pos)
        invariant bwd ==> Cur(B, T, pos) <= cur && Skips(B, T, Cur(B, T, pos), cur)
        invariant bwd ==> (Cur(B, T, pos) < cur ==> !InView(B, T, Cur(B, T, pos)))
        invariant !bwd ==> pos == old(pos)
        decreases if bwd then Behind(pos) else 0
      {
        ghost var mid := if bwd then Cur(B, T, pos) else 0.0;
        var ok := PreviousStep();
        if !ok {
          if bwd { EndBelow(B, T, mid, cur); }
          return AtEnd;
        }
        if bwd {
          BackwardSynced(B, T, pos);
          SkipsBack(B, T, Cur(B, T, pos), mid, cur);
        }
        if !pos.txn && pos.b.None? {
          return IsNil;
        }
        var erased := IsErased();
        if !erased {
          return Moved;
        }
      }
    }

    /** move_last_key_singlestep */
    method LastStep() returns (ok: bool)
      requires Sorted(B, T)
      modifies this`pos
      ensures ok <==> B != [] || T != []
      ensures ok ==> InBounds(B, T, pos) && (pos.b.Some? <==> B != []) && (pos.t.Some? <==> T != [])
      ensures ok ==>
        (Backward(B, T, pos) <==> (T == [] ==> old(pos).lastcmp >= 0) && (B == [] ==> old(pos).lastcmp <= 0))
      ensures ok && Backward(B, T, pos) ==> NoneAbove(B, T, Cur(B, T, pos))
      ensures ok && !Backward(B, T, pos) ==> StuckBack(B, T, pos)
      ensures ok && (B == [] || T == []) ==> pos.lastcmp == old(pos).lastcmp && pos.txn == (B == [])
      ensures ok ==> (pos.b.Some? ==> pos.b.value == |B| - 1) && (pos.t.Some? ==> pos.t.value == |T| - 1)
      ensures ok ==> if pos.txn then pos.t.Some? else pos.b.Some?
    {
      pos := pos.(b := if B == [] then None else Some(|B| - 1), t := if T == [] then None else Some(|T| - 1));
      if pos.b.None? && pos.t.None? {
        return false;
      }
      if pos.b.None? {
        pos := pos.(txn := true);
      } else if pos.t.None? {
        pos := pos.(txn := false);
      } else {
        Compare();
        pos := pos.(txn := pos.lastcmp < 1);
      }
      ok := true;
    }

    /** move_last_key */
    method Last() returns (r: Move)
      requires Sorted(B, T)
      modifies this`pos
      ensures (T == [] ==> old(pos).lastcmp >= 0) && (B == [] ==> old(pos).lastcmp <= 0) ==>
        && (r.Moved? ==> Backward(B, T, pos) && InView(B, T, Cur(B, T, pos)) && NoViewAbove(B, T, Cur(B, T, pos)))
        && (r.AtEnd? ==> forall k :: !InView(B, T, k)) && !r.IsNil?
      ensures T == [] && B != [] && old(pos).lastcmp < 0 ==>
        r.Moved? && pos == Position(Some(|B| - 1), None, old(pos).lastcmp, false) && StuckBack(B, T, pos)
      ensures B == [] && T != [] && old(pos).lastcmp > 0 ==>
        && pos == Position(None, Some(|T| - 1), old(pos).lastcmp, !T[|T| - 1].erased) && StuckBack(B, T, pos)
        && r == if T[|T| - 1].erased then IsNil else Moved
    {
      hide Backward, NoneBelow, NoneAbove, InView, NoViewAbove, NoViewBelow;
      var ok := LastStep();
      if !ok {
        NothingThere(B, T);
        return AtEnd;
      }
      ghost var bwd := Backward(B, T, pos);
      if bwd { BackwardSynced(B, T, pos); NotStuckBack(B, T, pos); }
      ghost var last := if bwd then Cur(B, T, pos) else 0.0;
      var erased := IsErased();
      r := Moved;
      if erased {
        r := Previous();
        if bwd {
          if r.Moved? { BackwardSynced(B, T, pos); FromAbove(B, T, Cur(B, T, pos), last); } else {
            AllAbove(B, T, last);
          }
        }
      } else if bwd {
        StartAbove(B, T, last);
      }
    }

    method Key() returns (k: Key)
      requires Synced(B, T, pos)
      ensures k == Cur(B, T, pos)
    {
      return if pos.txn then T[pos.t.value].key else B[pos.b.value];
    }
  }

  lemma NotStuck(B: seq<Key>, T: seq<TxnNode>, p: Position)
    requires Forward(B, T, p)
    ensures !Stuck(B, T, p)
  {
  }

  lemma NotStuckBack(B: seq<Key>, T: seq<TxnNode>, p: Position)
    requires Backward(B, T, p)
    ensures !StuckBack(B, T, p)
  {
  }

  lemma SkipsNothing(B: seq<Key>, T: seq<TxnNode>, k: Key)
    ensures Skips(B, T, k, k)
  {
  }

  lemma NothingThere(B: seq<Key>, T: seq<TxnNode>)
    requires B == [] && T == []
    ensures forall k :: !InView(B, T, k)
  {
  }

  lemma StartBelow(B: seq<Key>, T: seq<TxnNode>, k: Key)
    requires NoneBelow(B, T, k)
    ensures NoViewBelow(B, T, k)
  {
    forall x | InView(B, T, x) ensures k <= x { ViewInUnion(B, T, x); }
  }

  lemma FromBelow(B: seq<Key>, T: seq<TxnNode>, first: Key, k: Key)
    requires NoneBelow(B, T, first) && !InView(B, T, first) && first < k && Skips(B, T, first, k)
    ensures NoViewBelow(B, T, k)
  {
    StartBelow(B, T, first);
  }

  lemma AllBelow(B: seq<Key>, T: seq<TxnNode>, first: Key)
    requires NoneBelow(B, T, first) && !InView(B, T, first) && NoViewAbove(B, T, first)
    ensures forall k :: !InView(B, T, k)
  {
    StartBelow(B, T, first);
  }

  lemma StartAbove(B: seq<Key>, T: seq<TxnNode>, k: Key)
    requires NoneAbove(B, T, k)
    ensures NoViewAbove(B, T, k)
  {
    forall x | InView(B, T, x) ensures x <= k { ViewInUnion(B, T, x); }
  }

  lemma FromAbove(B: seq<Key>, T: seq<TxnNode>, k: Key, last: Key)
    requires NoneAbove(B, T, last) && !InView(B, T, last) && k < last && Skips(B, T, k, last)
    ensures NoViewAbove(B, T, k)
  {
    StartAbove(B, T, last);
  }

  lemma AllAbove(B: seq<Key>, T: seq<TxnNode>, last: Key)
    requires NoneAbove(B, T, last) && !InView(B, T, last) && NoViewBelow(B, T, last)
    ensures forall k :: !InView(B, T, k)
  {
    StartAbove(B, T, last);
  }

  // ------------------------------------------------------------------------------ whole walks

  /** Everything to visit up to `hi`, once each and in order. */
  ghost predicate VisitedUp(B: seq<Key>, T: seq<TxnNode>, R: seq<Key>, hi: Key) {
    && (forall x, y :: 0 <= x < y < |R| ==> R[x] < R[y])
    && (forall x :: 0 <= x < |R| ==> R[x] <= hi)
    && (forall k :: k in R <==> InView(B, T, k) && k <= hi)
  }

  /** FIRST, then NEXT to the end: all keys to visit, once each, in ascending order. */
  method WalkForward(B: seq<Key>, T: seq<TxnNode>) returns (R: seq<Key>)
    requires Sorted(B, T)
    ensures forall x, y :: 0 <= x < y < |R| ==> R[x] < R[y]
    ensures forall k :: k in R <==> InView(B, T, k)
  {
    hide Forward, InView;
    var c := new Cursor(B, T);
    R := [];
    var r := c.First();
    if r.AtEnd? { return; }
    ForwardSynced(B, T, c.pos);
    var k := c.Key();
    R := [k];
    while true
      invariant c.B == B && c.T == T && Forward(B, T, c.pos) && Synced(B, T, c.pos) && fresh(c)
      invariant VisitedUp(B, T, R, Cur(B, T, c.pos)) && |R| > 0
      decreases Ahead(B, T, c.pos)
    {
      ghost var p := c.pos;
      r := c.Next();
      if r.AtEnd? { return; }
      ForwardSynced(B, T, c.pos);
      Progress(B, T, p, c.pos);
      k := c.Key();
      R := R + [k];
    }
  }

  /** LAST, then PREVIOUS to the start: all keys to visit, once each, in descending order. */
  method WalkBackward(B: seq<Key>, T: seq<TxnNode>) returns (R: seq<Key>)
    requires Sorted(B, T)
    ensures forall x, y :: 0 <= x < y < |R| ==> R[x] > R[y]
    ensures forall k :: k in R <==> InView(B, T, k)
  {
    hide Backward, InView;
    var c := new Cursor(B, T);
    R := [];
    var r := c.Last();
    if r.AtEnd? { return; }
    BackwardSynced(B, T, c.pos);
    var k := c.Key();
    R := [k];
    while true
      invariant c.B == B && c.T == T && Backward(B, T, c.pos) && Synced(B, T, c.pos) && fresh(c)
      invariant VisitedDown(B, T, R, Cur(B, T, c.pos)) && |R| > 0
      decreases Behind(c.pos)
    {
      ghost var p := c.pos;
      r := c.Previous();
      if r.AtEnd? { return; }
      BackwardSynced(B, T, c.pos);
      Regress(B, T, p, c.pos);
      k := c.Key();
      R := R + [k];
    }
  }

  ghost predicate VisitedDown(B: seq<Key>, T: seq<TxnNode>, R: seq<Key>, lo: Key) {
    && (forall x, y :: 0 <= x < y < |R| ==> R[x] > R[y])
    && (forall x :: 0 <= x < |R| ==> R[x] >= lo)
    && (forall k :: k in R <==> InView(B, T, k) && lo <= k)
  }

  lemma Progress(B: seq<Key>, T: seq<TxnNode>, p: Position, q: Position)
    requires Sorted(B, T) && Forward(B, T, p) && Forward(B, T, q) && Cur(B, T, p) < Cur(B, T, q)
    ensures Ahead(B, T, q) < Ahead(B, T, p)
  {
  }

  lemma Regress(B: seq<Key>, T: seq<TxnNode>, p: Position, q: Position)
    requires Sorted(B, T) && Backward(B, T, p) && Backward(B, T, q) && Cur(B, T, q) < Cur(B, T, p)
    ensures Behind(q) < Behind(p)
  {
  }

  // ------------------------------------------------------------------------------ stale comparisons

  lemma OneEach(B: seq<Key>, T: seq<TxnNode>, k: Key)
    requires B == [1.0] && T == [TxnNode(2.0, false)]
    ensures InView(B, T, k) <==> k == 1.0 || k == 2.0
  {
    assert T[0] == TxnNode(2.0, false);
  }

  lemma StandsOnTwo(B: seq<Key>, T: seq<TxnNode>, p: Position)
    requires B == [1.0] && T == [TxnNode(2.0, false)] && Forward(B, T, p)
    ensures Synced(B, T, p) && (Cur(B, T, p) == 1.0 ==> p.b.Some?) && (Cur(B, T, p) == 2.0 ==> p.b.None?)
  {
  }

  /** A flush empties the transaction tree between two walks: the second FIRST is right, but NEXT returns
      the same key again. */
  method FirstRepeats() returns (a: Key, b: Key)
    ensures a == 1.0 == b && InView([1.0, 2.0], [], 2.0)
  {
    hide InView, Forward, Skips;
    var B, T := [1.0], [TxnNode(2.0, false)];
    forall k ensures InView(B, T, k) <==> k == 1.0 || k == 2.0 { OneEach(B, T, k); }
    var c := new Cursor(B, T);
    var r := c.First();
    assert InView(B, T, 1.0) && InView(B, T, 2.0);
    StandsOnTwo(B, T, c.pos);
    r := c.Next();
    StandsOnTwo(B, T, c.pos);
    c.Retarget([1.0, 2.0], [], Some(1), None);
    r := c.First();
    a := c.Key();
    r := c.Next();
    b := c.Key();
    InBtree([1.0, 2.0], 1);
  }

  lemma InBtree(B: seq<Key>, i: nat)
    requires i < |B|
    ensures InView(B, [], B[i])
  {
  }

  /** The btree becomes empty instead: FIRST fails although there is a key to visit. */
  method FirstFails() returns (r: Move)
    ensures r.IsNil? && InView([], [TxnNode(2.0, true), TxnNode(3.0, false)], 3.0)
  {
    hide InView, Skips;
    var B, T := [1.0], [TxnNode(2.0, true), TxnNode(3.0, false)];
    var c := new Cursor(B, T);
    r := c.First();
    InTree(T, 1);
    FirstOfBoth(B, T, c.pos, r);
    c.Retarget([], T, None, Some(0));
    r := c.First();
  }

  lemma FirstOfBoth(B: seq<Key>, T: seq<TxnNode>, p: Position, r: Move)
    requires B == [1.0] && T == [TxnNode(2.0, true), TxnNode(3.0, false)] && !r.IsNil?
    requires r.Moved? ==> Forward(B, T, p) && InView(B, T, Cur(B, T, p)) && NoViewBelow(B, T, Cur(B, T, p))
    requires r.AtEnd? ==> forall k :: !InView(B, T, k)
    ensures p.lastcmp < 0
  {
    assert B[0] == 1.0 && T[0].key == 2.0 && T[1].key == 3.0;
    assert InView(B, T, 1.0);
  }

  lemma InTree(T: seq<TxnNode>, i: nat)
    requires i < |T| && !T[i].erased
    ensures InView([], T, T[i].key)
  {
    assert T[i] == TxnNode(T[i].key, false);
  }
}
