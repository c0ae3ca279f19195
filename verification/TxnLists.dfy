/** The linked lists of pending operations (src/txn.h, src/txn.cc): every operation is in the list of its
    key's node and in the list of its transaction. A node stores the oldest and the newest operation. */
module TxnLists {
  import opened Collections
  import opened PageList
  import opened TxnModel

  datatype Ends = Ends(oldest: Addr, newest: Addr)

  /** The operations that are allocated, their pointers within both lists, and the heads. */
  datatype Lists = Lists(ops: map<Addr, Op>, inNode: Links, inTxn: Links, nodes: map<Key, Ends>,
      txns: map<TxnId, Ends>) {
    function TxnEnds(t: TxnId): Ends { if t in txns then txns[t] else Ends(0, 0) }
  }

  // ------------------------------------------------------------------------------ parts of a list

  /** The part of `s` that is in `S`. */
  ghost function Only(s: seq<Addr>, S: set<Addr>): seq<Addr> {
    if s == [] then []
    else
      var n := |s| - 1;
      if s[n] in S then Only(s[..n], S) + [s[n]] else Only(s[..n], S)
  }

  ghost function Last(s: seq<Addr>): Addr { if s == [] then 0 else s[|s| - 1] }

  lemma {:induction false} OnlyIn(s: seq<Addr>, S: set<Addr>, a: Addr)
    ensures a in Only(s, S) <==> a in s && a in S
  {
    if s != [] {
      OnlyIn(s[..|s| - 1], S, a);
      assert s == s[..|s| - 1] + [s[|s| - 1]];
    }
  }

  lemma {:induction false} OnlyDistinct(s: seq<Addr>, S: set<Addr>)
    requires Distinct(s)
    ensures Distinct(Only(s, S))
  {
    if s != [] {
      var n := |s| - 1;
      OnlyDistinct(s[..n], S);
      OnlyIn(s[..n], S, s[n]);
    }
  }

  lemma {:induction false} OnlyTwice(s: seq<Addr>, S: set<Addr>, R: set<Addr>)
    ensures Only(Only(s, S), R) == Only(s, S * R)
  {
    if s != [] {
      var n := |s| - 1;
      OnlyTwice(s[..n], S, R);
      if s[n] in S { assert Only(s, S)[..|Only(s, S)| - 1] == Only(s[..n], S); }
    }
  }

  /** Only what is in `s` matters. */
  lemma {:induction false} OnlySame(s: seq<Addr>, S: set<Addr>, R: set<Addr>)
    requires forall a :: a in s ==> (a in S <==> a in R)
    ensures Only(s, S) == Only(s, R)
  {
    if s != [] { OnlySame(s[..|s| - 1], S, R); }
  }

  lemma {:induction false} OnlyAll(s: seq<Addr>, S: set<Addr>)
    requires forall a :: a in s ==> a in S
    ensures Only(s, S) == s
  {
    if s != [] {
      OnlyAll(s[..|s| - 1], S);
      assert s == s[..|s| - 1] + [s[|s| - 1]];
    }
  }

  /** Taking one element out. */
  lemma {:induction false} OnlyMinus(s: seq<Addr>, a: Addr, S: set<Addr>, i: nat)
    requires Distinct(s) && i < |s| && s[i] == a && (forall b :: b in s ==> (b in S <==> b != a))
    ensures Only(s, S) == Removed(s, i)
  {
    var n := |s| - 1;
    if i < n {
      forall b | b in s[..n] ensures b in S <==> b != a { assert b in s; }
      OnlyMinus(s[..n], a, S, i);
      assert s[n] in s;
      assert Removed(s, i) == Removed(s[..n], i) + [s[n]];
    } else {
      forall b | b in s[..n] ensures b in S { assert b in s; var j :| 0 <= j < n && s[j] == b; }
      OnlyAll(s[..n], S);
      assert a in s;
      assert Removed(s, n) == s[..n];
    }
  }

  /** The last element stays last if it stays. */
  lemma {:induction false} OnlyLast(s: seq<Addr>, S: set<Addr>)
    requires s != [] && s[|s| - 1] in S
    ensures Only(s, S) != [] && Last(Only(s, S)) == s[|s| - 1]
  {
  }

  lemma OnlySnoc(s: seq<Addr>, S: set<Addr>, a: Addr)
    ensures Only(s + [a], S) == if a in S then Only(s, S) + [a] else Only(s, S)
  {
    assert (s + [a])[..|s|] == s;
  }

  // ------------------------------------------------------------------------------ the lists

  ghost function OfKey(ops: map<Addr, Op>, k: Key): set<Addr> { set a | a in ops && ops[a].key == k }

  ghost function OfTxn(ops: map<Addr, Op>, t: TxnId): set<Addr> { set a | a in ops && ops[a].txn == t }

  /** All operations, oldest first, are `refs`; these are those of a node and of a transaction. */
  ghost function KeyRefs(ops: map<Addr, Op>, refs: seq<Addr>, k: Key): seq<Addr> { Only(refs, OfKey(ops, k)) }

  ghost function TxnRefs(ops: map<Addr, Op>, refs: seq<Addr>, t: TxnId): seq<Addr> { Only(refs, OfTxn(ops, t)) }

  ghost predicate OpsOk(ops: map<Addr, Op>, refs: seq<Addr>) {
    Distinct(refs) && 0 !in refs && forall a :: a in refs <==> a in ops
  }

  /** A node exists as long as it has operations; its list starts at the oldest. The newest pointer leads
      to the last of them or out of the list. */
  ghost predicate NodeFine(l: Lists, refs: seq<Addr>, k: Key) {
    var s := KeyRefs(l.ops, refs, k);
    && (k in l.nodes <==> s != []) && IsList(l.inNode, if k in l.nodes then l.nodes[k].oldest else 0, s)
    && (k in l.nodes && l.nodes[k].newest in s ==> l.nodes[k].newest == Last(s))
  }

  ghost predicate TxnFine(l: Lists, refs: seq<Addr>, t: TxnId) {
    var s := TxnRefs(l.ops, refs, t);
    IsList(l.inTxn, l.TxnEnds(t).oldest, s) && l.TxnEnds(t).newest == Last(s)
  }

  ghost predicate Good(l: Lists, refs: seq<Addr>) {
    OpsOk(l.ops, refs) && (forall k :: NodeFine(l, refs, k)) && (forall t :: TxnFine(l, refs, t))
  }

  /** The node's newest operation is the last of its list. Everything that reads or extends the list
      starts there. */
  ghost predicate Live(l: Lists, refs: seq<Addr>, k: Key) {
    k in l.nodes ==> l.nodes[k].newest == Last(KeyRefs(l.ops, refs, k))
  }

  // ------------------------------------------------------------------------------ unlinking

  /** txn_op_free: the neighbours of `a` are linked with each other; the pointers of `a` stay. */
  function Unlink(l: Links, a: Addr): Links {
    var l1 := if l.Next(a) != 0 then l.SetPrev(l.Next(a), l.Prev(a)) else l;
    if l.Prev(a) != 0 then l1.SetNext(l.Prev(a), l.Next(a)) else l1
  }

  lemma UnlinkList(l: Links, head: Addr, s: seq<Addr>, i: nat, head': Addr)
    requires IsList(l, head, s) && i < |s| && head' == if head == s[i] then l.Next(s[i]) else head
    ensures IsList(Unlink(l, s[i]), head', Removed(s, i))
  {
    Neighbours(l, head, s, i);
    if i > 0 { Neighbours(l, head, s, i - 1); }
    if i + 1 < |s| { Neighbours(l, head, s, i + 1); }
    RemovedList(l, Unlink(l, s[i]), head, head', s, i);
  }

  lemma UnlinkOther(l: Links, head: Addr, s: seq<Addr>, i: nat, head2: Addr, s2: seq<Addr>)
    requires IsList(l, head, s) && i < |s| && IsList(l, head2, s2) && forall a :: a in s ==> a !in s2
    ensures IsList(Unlink(l, s[i]), head2, s2)
  {
    Neighbours(l, head, s, i);
    assert i > 0 ==> s[i - 1] in s;
    assert i + 1 < |s| ==> s[i + 1] in s;
    ListFrame(l, Unlink(l, s[i]), head2, s2);
  }

  // ------------------------------------------------------------------------------ appending

  /** A new operation behind the newest one. */
  function Link(l: Links, a: Addr, newest: Addr): Links {
    var l1 := l.SetNext(a, 0).SetPrev(a, 0);
    if newest == 0 then l1 else l1.SetNext(newest, a).SetPrev(a, newest)
  }

  lemma LinkList(l: Links, head: Addr, s: seq<Addr>, a: Addr)
    requires IsList(l, head, s) && a != 0 && a !in s
    ensures IsList(Link(l, a, Last(s)), if s == [] then a else head, s + [a])
  {
    var l', r := Link(l, a, Last(s)), s + [a];
    forall i | 0 <= i < |r| ensures NodeOk(l', r, i) {
      if i < |s| { assert NodeOk(l, s, i); }
    }
  }

  lemma LinkOther(l: Links, s: seq<Addr>, a: Addr, head2: Addr, s2: seq<Addr>)
    requires IsList(l, head2, s2) && a !in s2 && (forall b :: b in s ==> b !in s2)
    ensures IsList(Link(l, a, Last(s)), head2, s2)
  {
    assert s != [] ==> Last(s) in s;
    ListFrame(l, Link(l, a, Last(s)), head2, s2);
  }

  lemma AppendRefs(ops: map<Addr, Op>, refs: seq<Addr>, a: Addr, op: Op, k: Key, t: TxnId)
    requires OpsOk(ops, refs) && a !in ops
    ensures KeyRefs(ops[a := op], refs + [a], k) ==
      if op.key == k then KeyRefs(ops, refs, k) + [a] else KeyRefs(ops, refs, k)
    ensures TxnRefs(ops[a := op], refs + [a], t) ==
      if op.txn == t then TxnRefs(ops, refs, t) + [a] else TxnRefs(ops, refs, t)
  {
    var ops' := ops[a := op];
    OnlySnoc(refs, OfKey(ops', k), a);
    OnlySame(refs, OfKey(ops', k), OfKey(ops, k));
    OnlySnoc(refs, OfTxn(ops', t), a);
    OnlySame(refs, OfTxn(ops', t), OfTxn(ops, t));
  }

  /** Lists of different keys, and of different transactions, have nothing in common. */
  lemma Apart(ops: map<Addr, Op>, refs: seq<Addr>, a: Addr)
    ensures forall k :: a in KeyRefs(ops, refs, k) <==> a in refs && a in ops && ops[a].key == k
    ensures forall t :: a in TxnRefs(ops, refs, t) <==> a in refs && a in ops && ops[a].txn == t
  {
    forall k ensures a in KeyRefs(ops, refs, k) <==> a in refs && a in ops && ops[a].key == k {
      OnlyIn(refs, OfKey(ops, k), a);
    }
    forall t ensures a in TxnRefs(ops, refs, t) <==> a in refs && a in ops && ops[a].txn == t {
      OnlyIn(refs, OfTxn(ops, t), a);
    }
  }

  /** txn_opnode_append, with the node created if it does not exist. */
  method Append(l: Lists, op: Op, ghost refs: seq<Addr>) returns (l': Lists, a: Addr)
    requires Good(l, refs) && Live(l, refs, op.key)
    ensures a !in l.ops && l'.ops == l.ops[a := op] && Good(l', refs + [a])
    ensures forall k :: Live(l', refs + [a], k) <==> Live(l, refs, k)
  {
    ghost var free := FreeNumber(l.ops.Keys);
    assert free !in l.ops;
    a :| a != 0 && a !in l.ops;
    var node := if op.key in l.nodes then l.nodes[op.key] else Ends(0, 0);
    var txn := l.TxnEnds(op.txn);
    var inNode, inTxn := Link(l.inNode, a, node.newest), Link(l.inTxn, a, txn.newest);
    node := if node.newest == 0 then Ends(a, a) else node.(newest := a);
    txn := if txn.newest == 0 then Ends(a, a) else txn.(newest := a);
    l' := Lists(l.ops[a := op], inNode, inTxn, l.nodes[op.key := node], l.txns[op.txn := txn]);
    AppendGood(l, op, refs, a, l');
  }

  lemma AppendGood(l: Lists, op: Op, refs: seq<Addr>, a: Addr, l': Lists)
    requires Good(l, refs) && Live(l, refs, op.key) && a != 0 && a !in l.ops
    requires l'.ops == l.ops[a := op]
    requires var node := if op.key in l.nodes then l.nodes[op.key] else Ends(0, 0);
      && l'.inNode == Link(l.inNode, a, node.newest)
      && l'.nodes == l.nodes[op.key := if node.newest == 0 then Ends(a, a) else node.(newest := a)]
    requires var txn := l.TxnEnds(op.txn);
      && l'.inTxn == Link(l.inTxn, a, txn.newest)
      && l'.txns == l.txns[op.txn := if txn.newest == 0 then Ends(a, a) else txn.(newest := a)]
    ensures Good(l', refs + [a]) && forall k :: Live(l', refs + [a], k) <==> Live(l, refs, k)
  {
    forall k ensures NodeFine(l', refs + [a], k) && (Live(l', refs + [a], k) <==> Live(l, refs, k)) {
      AppendNode(l, op, refs, a, l', k);
    }
    forall t ensures TxnFine(l', refs + [a], t) { AppendTxn(l, op, refs, a, l', t); }
  }

  lemma AppendNode(l: Lists, op: Op, refs: seq<Addr>, a: Addr, l': Lists, k: Key)
    requires Good(l, refs) && Live(l, refs, op.key) && a != 0 && a !in l.ops
    requires l'.ops == l.ops[a := op]
    requires var node := if op.key in l.nodes then l.nodes[op.key] else Ends(0, 0);
      && l'.inNode == Link(l.inNode, a, node.newest)
      && l'.nodes == l.nodes[op.key := if node.newest == 0 then Ends(a, a) else node.(newest := a)]
    ensures NodeFine(l', refs + [a], k) && (Live(l', refs + [a], k) <==> Live(l, refs, k))
  {
    hide Only, Distinct, Link;
    var s, s2 := KeyRefs(l.ops, refs, op.key), KeyRefs(l.ops, refs, k);
    AppendRefs(l.ops, refs, a, op, k, op.txn);
    assert NodeFine(l, refs, op.key) && NodeFine(l, refs, k);
    Apart(l.ops, refs, a);
    if k == op.key {
      LinkList(l.inNode, if k in l.nodes then l.nodes[k].oldest else 0, s, a);
      if s != [] { assert Last(s) in s; }
    } else {
      forall b | b in s ensures b !in s2 { Apart(l.ops, refs, b); }
      LinkOther(l.inNode, s, a, if k in l.nodes then l.nodes[k].oldest else 0, s2);
    }
  }

  lemma AppendTxn(l: Lists, op: Op, refs: seq<Addr>, a: Addr, l': Lists, t: TxnId)
    requires Good(l, refs) && a != 0 && a !in l.ops && l'.ops == l.ops[a := op]
    requires var txn := l.TxnEnds(op.txn);
      && l'.inTxn == Link(l.inTxn, a, txn.newest)
      && l'.txns == l.txns[op.txn := if txn.newest == 0 then Ends(a, a) else txn.(newest := a)]
    ensures TxnFine(l', refs + [a], t)
  {
    hide Only, Distinct, Link;
    var s, s2 := TxnRefs(l.ops, refs, op.txn), TxnRefs(l.ops, refs, t);
    AppendRefs(l.ops, refs, a, op, op.key, t);
    assert TxnFine(l, refs, op.txn) && TxnFine(l, refs, t);
    Apart(l.ops, refs, a);
    if t == op.txn {
      LinkList(l.inTxn, l.TxnEnds(t).oldest, s, a);
      if s != [] { assert Last(s) in s; }
    } else {
      forall b | b in s ensures b !in s2 { Apart(l.ops, refs, b); }
      LinkOther(l.inTxn, s, a, l.TxnEnds(t).oldest, s2);
    }
  }

  // ------------------------------------------------------------------------------ freeing

  /** The rest of a list of operations once some are freed. */
  ghost function Rest(l: Lists, refs: seq<Addr>): seq<Addr> { Only(refs, l.ops.Keys) }

  ghost predicate PartOf(ops': map<Addr, Op>, ops: map<Addr, Op>) {
    forall b :: b in ops' ==> b in ops && ops'[b] == ops[b]
  }

  lemma FreeRefs(ops: map<Addr, Op>, refs: seq<Addr>, ops': map<Addr, Op>, k: Key, t: TxnId)
    requires OpsOk(ops, refs) && PartOf(ops', ops)
    ensures var refs' := Only(refs, ops'.Keys);
      && OpsOk(ops', refs')
      && KeyRefs(ops', refs', k) == Only(KeyRefs(ops, refs, k), ops'.Keys)
      && TxnRefs(ops', refs', t) == Only(TxnRefs(ops, refs, t), ops'.Keys)
  {
    var refs' := Only(refs, ops'.Keys);
    OnlyDistinct(refs, ops'.Keys);
    OnlyIn(refs, ops'.Keys, 0);
    forall b ensures b in refs' <==> b in ops' { OnlyIn(refs, ops'.Keys, b); }
    OnlyTwice(refs, ops'.Keys, OfKey(ops', k));
    OnlyTwice(refs, OfKey(ops, k), ops'.Keys);
    OnlySame(refs, ops'.Keys * OfKey(ops', k), OfKey(ops, k) * ops'.Keys);
    OnlyTwice(refs, ops'.Keys, OfTxn(ops', t));
    OnlyTwice(refs, OfTxn(ops, t), ops'.Keys);
    OnlySame(refs, ops'.Keys * OfTxn(ops', t), OfTxn(ops, t) * ops'.Keys);
  }

  /** Everything but the head of the transaction whose operations are being freed; `a` is its next. */
  ghost predicate Freeing(l: Lists, refs: seq<Addr>, t: TxnId, a: Addr) {
    && OpsOk(l.ops, refs) && (forall k :: NodeFine(l, refs, k)) && (forall u :: u != t ==> TxnFine(l, refs, u))
    && IsList(l.inTxn, a, TxnRefs(l.ops, refs, t))
  }

  /** After `a` is freed the newest pointer of a node is right exactly if the node is gone, or if it was
      right and did not point to `a`. */
  ghost predicate LiveAfter(l: Lists, refs: seq<Addr>, l': Lists, refs': seq<Addr>, a: Addr, k: Key) {
    Live(l', refs', k) <==>
      KeyRefs(l'.ops, refs', k) == [] || (Live(l, refs, k) && Last(KeyRefs(l.ops, refs, k)) != a)
  }

  /** txn_op_free. Only the oldest pointer of the node follows the list. */
  method FreeOp(l: Lists, a: Addr, ghost refs: seq<Addr>, ghost t: TxnId) returns (l': Lists)
    requires Freeing(l, refs, t, a) && a != 0
    ensures a in l.ops && l.ops[a].txn == t && l'.ops == l.ops - {a} && l'.txns == l.txns
    ensures Freeing(l', Rest(l', refs), t, l.inTxn.Next(a))
    ensures forall k :: LiveAfter(l, refs, l', Rest(l', refs), a, k)
  {
    Apart(l.ops, refs, a);
    assert a in TxnRefs(l.ops, refs, t);
    var k := l.ops[a].key;
    assert NodeFine(l, refs, k);
    var inNode, inTxn := Unlink(l.inNode, a), Unlink(l.inTxn, a);
    var node := l.nodes[k];
    if node.oldest == a {
      node := node.(oldest := l.inNode.Next(a));
    }
    var nodes := if node.oldest == 0 then l.nodes - {k} else l.nodes[k := node];
    l' := Lists(l.ops - {a}, inNode, inTxn, nodes, l.txns);
    FreeGood(l, a, refs, t, l');
  }

  ghost predicate Freed(l: Lists, a: Addr, l': Lists) {
    && a in l.ops && l.ops[a].key in l.nodes && l'.ops == l.ops - {a} && l'.txns == l.txns
    && l'.inNode == Unlink(l.inNode, a) && l'.inTxn == Unlink(l.inTxn, a)
    && var k := l.ops[a].key; var n := l.nodes[k]; var o := if n.oldest == a then l.inNode.Next(a) else n.oldest;
      l'.nodes == if o == 0 then l.nodes - {k} else l.nodes[k := n.(oldest := o)]
  }

  lemma FreeGood(l: Lists, a: Addr, refs: seq<Addr>, t: TxnId, l': Lists)
    requires Freeing(l, refs, t, a) && a != 0 && Freed(l, a, l') && l.ops[a].txn == t
    ensures Freeing(l', Rest(l', refs), t, l.inTxn.Next(a))
    ensures forall k :: LiveAfter(l, refs, l', Rest(l', refs), a, k)
  {
    hide Only, Freed, LiveAfter;
    forall k ensures NodeFine(l', Rest(l', refs), k) && LiveAfter(l, refs, l', Rest(l', refs), a, k) {
      FreeNode(l, a, refs, t, l', k);
    }
    forall u | u != t ensures TxnFine(l', Rest(l', refs), u) { FreeOther(l, a, refs, t, l', u); }
    FreeFirst(l, a, refs, t, l');
  }

  lemma FreeNode(l: Lists, a: Addr, refs: seq<Addr>, t: TxnId, l': Lists, k: Key)
    requires Freeing(l, refs, t, a) && a != 0 && Freed(l, a, l')
    ensures NodeFine(l', Rest(l', refs), k) && LiveAfter(l, refs, l', Rest(l', refs), a, k)
  {
    hide Only, Distinct, Unlink;
    var x := l.ops[a].key;
    var s, s2 := KeyRefs(l.ops, refs, x), KeyRefs(l.ops, refs, k);
    var r := KeyRefs(l'.ops, Rest(l', refs), k);
    FreeRefs(l.ops, refs, l'.ops, k, t);
    Apart(l.ops, refs, a);
    assert NodeFine(l, refs, x) && NodeFine(l, refs, k);
    var i :| 0 <= i < |s| && s[i] == a;
    if k == x {
      forall b | b in s ensures b in l'.ops <==> b != a { Apart(l.ops, refs, b); }
      OnlyMinus(s, a, l'.ops.Keys, i);
      UnlinkList(l.inNode, l.nodes[k].oldest, s, i,
          if l.nodes[k].oldest == a then l.inNode.Next(a) else l.nodes[k].oldest);
      RemovedLast(s, i);
    } else {
      forall b | b in s2 ensures b in l'.ops && b !in s { Apart(l.ops, refs, b); }
      OnlyAll(s2, l'.ops.Keys);
      UnlinkOther(l.inNode, l.nodes[x].oldest, s, i, if k in l.nodes then l.nodes[k].oldest else 0, s2);
      if s2 != [] { assert Last(s2) in s2; }
    }
  }

  lemma RemovedLast(s: seq<Addr>, i: nat)
    requires Distinct(s) && i < |s| && 0 !in s
    ensures Removed(s, i) != [] ==> (Last(Removed(s, i)) == Last(s) <==> Last(s) != s[i])
    ensures Removed(s, i) == [] ==> |s| == 1
    ensures forall b :: b in Removed(s, i) <==> b in s && b != s[i]
  {
    var r := Removed(s, i);
    forall b ensures b in r <==> b in s && b != s[i] {
      if b in s && b != s[i] { var j :| 0 <= j < |s| && s[j] == b; assert r[if j < i then j else j - 1] == b; }
    }
  }

  lemma FreeFirst(l: Lists, a: Addr, refs: seq<Addr>, t: TxnId, l': Lists)
    requires Freeing(l, refs, t, a) && a != 0 && Freed(l, a, l')
    ensures OpsOk(l'.ops, Rest(l', refs)) && IsList(l'.inTxn, l.inTxn.Next(a), TxnRefs(l'.ops, Rest(l', refs), t))
  {
    hide Only, Unlink;
    var s := TxnRefs(l.ops, refs, t);
    FreeRefs(l.ops, refs, l'.ops, l.ops[a].key, t);
    forall b | b in s ensures b in l'.ops <==> b != a { Apart(l.ops, refs, b); }
    OnlyMinus(s, a, l'.ops.Keys, 0);
    UnlinkList(l.inTxn, a, s, 0, l.inTxn.Next(a));
  }

  lemma FreeOther(l: Lists, a: Addr, refs: seq<Addr>, t: TxnId, l': Lists, u: TxnId)
    requires Freeing(l, refs, t, a) && a != 0 && Freed(l, a, l') && u != t
    ensures TxnFine(l', Rest(l', refs), u)
  {
    hide Only, Distinct, Unlink;
    var s, s2 := TxnRefs(l.ops, refs, t), TxnRefs(l.ops, refs, u);
    FreeRefs(l.ops, refs, l'.ops, l.ops[a].key, u);
    assert TxnFine(l, refs, u);
    assert a in s;
    Apart(l.ops, refs, a);
    forall b | b in s2 ensures b in l'.ops && b !in s { Apart(l.ops, refs, b); }
    OnlyAll(s2, l'.ops.Keys);
    UnlinkOther(l.inTxn, a, s, 0, l.TxnEnds(u).oldest, s2);
  }

  /** The newest pointer of a node is right exactly if the node is gone, or if it was right and the
      operation it points to is still there. */
  ghost predicate LiveUntil(l: Lists, refs: seq<Addr>, l': Lists, k: Key) {
    Live(l', Rest(l', refs), k) <==>
      KeyRefs(l'.ops, Rest(l', refs), k) == [] || (Live(l, refs, k) && Last(KeyRefs(l.ops, refs, k)) in l'.ops)
  }

  /** txn_free_ops: frees the operations of a transaction one by one. */
  method FreeOps(l: Lists, t: TxnId, ghost refs: seq<Addr>) returns (l': Lists)
    requires Good(l, refs)
    ensures l'.ops == l.ops - OfTxn(l.ops, t) && Good(l', Rest(l', refs))
    ensures forall k :: LiveUntil(l, refs, l', k)
  {
    hide Only, LiveUntil, LiveAfter, NodeFine, IsList;
    assert TxnFine(l, refs, t);
    var a := l.TxnEnds(t).oldest;
    l' := l;
    StartFreeing(l, refs, t);
    while a != 0
      invariant PartOf(l'.ops, l.ops) && l'.txns == l.txns &&
        (forall b :: b in l.ops && l.ops[b].txn != t ==> b in l'.ops)
      invariant Freeing(l', Rest(l', refs), t, a)
      invariant forall k :: LiveUntil(l, refs, l', k)
      decreases |l'.ops|
    {
      ghost var m, r := l', Rest(l', refs);
      var next := l'.inTxn.Next(a);
      l' := FreeOp(l', a, r, t);
      assert |m.ops| == |l'.ops| + 1 by { assert m.ops == l'.ops[a := m.ops[a]]; }
      RestTwice(m, refs, l');
      forall k ensures LiveUntil(l, refs, l', k) {
        assert LiveAfter(m, r, l', Rest(l', refs), a, k) && LiveUntil(l, refs, m, k);
        StillLive(l, refs, m, l', a, k);
      }
      a := next;
    }
    ghost var m := l';
    l' := l'.(txns := l'.txns[t := Ends(0, 0)]);
    EndFreeing(l, refs, t, m, l');
  }

  lemma StartFreeing(l: Lists, refs: seq<Addr>, t: TxnId)
    requires Good(l, refs)
    ensures Rest(l, refs) == refs && Freeing(l, refs, t, l.TxnEnds(t).oldest) && forall k :: LiveUntil(l, refs, l, k)
  {
    OnlyAll(refs, l.ops.Keys);
    assert TxnFine(l, refs, t);
    forall k ensures LiveUntil(l, refs, l, k) {
      var s := KeyRefs(l.ops, refs, k);
      assert NodeFine(l, refs, k);
      if s != [] { Apart(l.ops, refs, Last(s)); assert Last(s) in s; }
    }
  }

  lemma RestTwice(m: Lists, refs: seq<Addr>, l': Lists)
    requires PartOf(l'.ops, m.ops)
    ensures Rest(l', Rest(m, refs)) == Rest(l', refs)
  {
    OnlyTwice(refs, m.ops.Keys, l'.ops.Keys);
    assert m.ops.Keys * l'.ops.Keys == l'.ops.Keys;
  }

  lemma StillLive(l: Lists, refs: seq<Addr>, m: Lists, l': Lists, a: Addr, k: Key)
    requires OpsOk(l.ops, refs) && PartOf(m.ops, l.ops) && a in m.ops && l'.ops == m.ops - {a}
    requires LiveUntil(l, refs, m, k) && LiveAfter(m, Rest(m, refs), l', Rest(l', refs), a, k)
    ensures LiveUntil(l, refs, l', k)
  {
    hide Only;
    var s := KeyRefs(l.ops, refs, k);
    FreeRefs(l.ops, refs, m.ops, k, 0);
    FreeRefs(l.ops, refs, l'.ops, k, 0);
    if s != [] {
      if Last(s) in m.ops { OnlyLast(s, m.ops.Keys); }
    }
    if Only(s, m.ops.Keys) == [] {
      if Only(s, l'.ops.Keys) != [] {
        var b := Only(s, l'.ops.Keys)[0];
        OnlyIn(s, l'.ops.Keys, b);
        OnlyIn(s, m.ops.Keys, b);
      }
    }
  }

  lemma EndFreeing(l: Lists, refs: seq<Addr>, t: TxnId, m: Lists, l': Lists)
    requires Good(l, refs) && PartOf(m.ops, l.ops) && m.txns == l.txns &&
      (forall b :: b in l.ops && l.ops[b].txn != t ==> b in m.ops)
    requires Freeing(m, Rest(m, refs), t, 0) && (forall k :: LiveUntil(l, refs, m, k)) &&
      l' == m.(txns := m.txns[t := Ends(0, 0)])
    ensures l'.ops == l.ops - OfTxn(l.ops, t) && Good(l', Rest(l', refs)) && forall k :: LiveUntil(l, refs, l', k)
  {
    hide Only;
    var r := Rest(m, refs);
    forall b ensures b in m.ops <==> b in l.ops && l.ops[b].txn != t {
      Apart(m.ops, r, b);
    }
    assert l'.ops == l.ops - OfTxn(l.ops, t);
    forall k ensures NodeFine(l', r, k) && LiveUntil(l, refs, l', k) {
      assert NodeFine(m, r, k) && LiveUntil(l, refs, m, k);
    }
    forall u ensures TxnFine(l', r, u) { if u != t { assert TxnFine(m, r, u); } }
  }

  // ------------------------------------------------------------------------------ the lists and the history

  /** The operations, in the order of `s`. */
  ghost function OpsOf(ops: map<Addr, Op>, s: seq<Addr>): (r: seq<Op>)
    requires forall a :: a in s ==> a in ops
    ensures |r| == |s| && forall i :: 0 <= i < |s| ==> r[i] == ops[s[i]]
  {
    seq(|s|, i requires 0 <= i < |s| => assert s[i] in s; ops[s[i]])
  }

  lemma {:induction false} KeyOps(ops: map<Addr, Op>, s: seq<Addr>, k: Key)
    requires forall a :: a in s ==> a in ops
    ensures (forall a :: a in KeyRefs(ops, s, k) ==> a in ops) &&
      NodeOps(OpsOf(ops, s), k) == OpsOf(ops, KeyRefs(ops, s, k))
  {
    forall a | a in KeyRefs(ops, s, k) ensures a in ops { OnlyIn(s, OfKey(ops, k), a); }
    if s != [] {
      KeyOps(ops, s[..|s| - 1], k);
      assert s[|s| - 1] in s;
      assert OpsOf(ops, s)[..|s| - 1] == OpsOf(ops, s[..|s| - 1]);
    }
  }

  lemma {:induction false} TxnOpsAre(ops: map<Addr, Op>, s: seq<Addr>, t: TxnId)
    requires forall a :: a in s ==> a in ops
    ensures (forall a :: a in TxnRefs(ops, s, t) ==> a in ops) &&
      TxnOps(OpsOf(ops, s), t) == OpsOf(ops, TxnRefs(ops, s, t))
  {
    forall a | a in TxnRefs(ops, s, t) ensures a in ops { OnlyIn(s, OfTxn(ops, t), a); }
    if s != [] {
      TxnOpsAre(ops, s[..|s| - 1], t);
      assert s[|s| - 1] in s;
      assert OpsOf(ops, s)[..|s| - 1] == OpsOf(ops, s[..|s| - 1]);
    }
  }

  lemma {:induction false} FreedOps(ops: map<Addr, Op>, s: seq<Addr>, t: TxnId, ops': map<Addr, Op>)
    requires (forall a :: a in s ==> a in ops) && ops' == ops - OfTxn(ops, t)
    ensures (forall a :: a in Only(s, ops'.Keys) ==> a in ops') &&
      OpsOf(ops', Only(s, ops'.Keys)) == Without(OpsOf(ops, s), t)
  {
    forall a | a in Only(s, ops'.Keys) ensures a in ops' { OnlyIn(s, ops'.Keys, a); }
    if s != [] {
      FreedOps(ops, s[..|s| - 1], t, ops');
      assert s[|s| - 1] in s;
      assert OpsOf(ops, s)[..|s| - 1] == OpsOf(ops, s[..|s| - 1]);
    }
  }

  /** What freeing a transaction's operations does to the newest pointers, in terms of the history. */
  lemma FreedLive(l: Lists, refs: seq<Addr>, t: TxnId, l': Lists, hist: seq<Op>, k: Key)
    requires OpsOk(l.ops, refs) && hist == OpsOf(l.ops, refs) && l'.ops == l.ops - OfTxn(l.ops, t) &&
      LiveUntil(l, refs, l', k)
    ensures (forall a :: a in Rest(l', refs) ==> a in l'.ops) && OpsOf(l'.ops, Rest(l', refs)) == Without(hist, t)
    ensures Live(l', Rest(l', refs), k) <==> Gone(Without(hist, t), k) || (Live(l, refs, k) && !EndsWith(hist, t, k))
  {
    hide Only, Without;
    FreedOps(l.ops, refs, t, l'.ops);
    KeyOps(l.ops, refs, k);
    KeyOps(l'.ops, Rest(l', refs), k);
    var s := KeyRefs(l.ops, refs, k);
    FreeRefs(l.ops, refs, l'.ops, k, t);
    if s != [] { assert Last(s) in s; } else { assert Only(s, l'.ops.Keys) == [] by { OnlyAll(s, l'.ops.Keys); } }
  }

  /** The lists hold exactly the operations of the history. */
  ghost predicate Holds(l: Lists, refs: seq<Addr>, hist: seq<Op>) {
    Good(l, refs) && hist == OpsOf(l.ops, refs)
  }

  lemma AppendHolds(l: Lists, refs: seq<Addr>, hist: seq<Op>, a: Addr, op: Op, l': Lists)
    requires Holds(l, refs, hist) && a !in l.ops && l'.ops == l.ops[a := op] && Good(l', refs + [a])
    ensures Holds(l', refs + [a], hist + [op])
  {
  }

  lemma FreedHolds(l: Lists, refs: seq<Addr>, hist: seq<Op>, t: TxnId, l': Lists)
    requires Holds(l, refs, hist) && l'.ops == l.ops - OfTxn(l.ops, t) && Good(l', Rest(l', refs)) &&
      (forall k :: LiveUntil(l, refs, l', k))
    ensures Holds(l', Rest(l', refs), Without(hist, t))
    ensures forall k :: Live(l', Rest(l', refs), k) <==>
      Gone(Without(hist, t), k) || (Live(l, refs, k) && !EndsWith(hist, t, k))
  {
    hide Only, Without, LiveUntil, Live, Gone, EndsWith;
    FreedOps(l.ops, refs, t, l'.ops);
    forall k ensures Live(l', Rest(l', refs), k) <==>
      Gone(Without(hist, t), k) || (Live(l, refs, k) && !EndsWith(hist, t, k)) {
      assert LiveUntil(l, refs, l', k);
      FreedLive(l, refs, t, l', hist, k);
    }
  }

  /** The operation at `s[i]` is `ops[i]` and its pointer leads to the one before. */
  ghost predicate NodeStep(l: Lists, s: seq<Addr>, ops: seq<Op>, i: nat)
    requires i < |s| == |ops|
  {
    s[i] in l.ops && l.ops[s[i]] == ops[i] && l.inNode.Prev(s[i]) == if i > 0 then s[i - 1] else 0
  }

  /** Where the pointers of a key's list lead. */
  lemma NodeSteps(l: Lists, refs: seq<Addr>, hist: seq<Op>, k: Key, s: seq<Addr>)
    requires Holds(l, refs, hist) && s == KeyRefs(l.ops, refs, k)
    ensures (k in l.nodes <==> s != []) && |NodeOps(hist, k)| == |s| && 0 !in s
    ensures forall i :: 0 <= i < |s| ==> NodeStep(l, s, NodeOps(hist, k), i)
  {
    hide Only;
    KeyOps(l.ops, refs, k);
    assert NodeFine(l, refs, k);
    forall i | 0 <= i < |s| ensures NodeStep(l, s, NodeOps(hist, k), i) {
      Neighbours(l.inNode, if k in l.nodes then l.nodes[k].oldest else 0, s, i);
    }
  }

  /** The operation at `s[i]` is `ops[i]` and its pointer leads to the one behind. */
  ghost predicate TxnStep(l: Lists, s: seq<Addr>, ops: seq<Op>, i: nat)
    requires i < |s| == |ops|
  {
    s[i] in l.ops && l.ops[s[i]] == ops[i] && l.inTxn.Next(s[i]) == if i + 1 < |s| then s[i + 1] else 0
  }

  /** Where the pointers of a transaction's list lead. */
  lemma TxnSteps(l: Lists, refs: seq<Addr>, hist: seq<Op>, t: TxnId, s: seq<Addr>)
    requires Holds(l, refs, hist) && s == TxnRefs(l.ops, refs, t)
    ensures l.TxnEnds(t).oldest == (if s == [] then 0 else s[0]) && |TxnOps(hist, t)| == |s| && 0 !in s
    ensures forall i :: 0 <= i < |s| ==> TxnStep(l, s, TxnOps(hist, t), i)
  {
    hide Only;
    TxnOpsAre(l.ops, refs, t);
    assert TxnFine(l, refs, t);
    forall i | 0 <= i < |s| ensures TxnStep(l, s, TxnOps(hist, t), i) {
      Neighbours(l.inTxn, l.TxnEnds(t).oldest, s, i);
    }
  }

  function Empty(): Lists { Lists(map[], Links(map[], map[]), Links(map[], map[]), map[], map[]) }

  lemma EmptyHolds()
    ensures Holds(Empty(), [], []) && forall k :: Live(Empty(), [], k)
  {
  }
}
