/** The intrusive doubly linked lists of pages (src/page.h): every page carries a next and a previous
    pointer per list, and only the head of a list is stored outside. */
module PageList {
  type Addr = nat

  /** The pointers of all pages for one list; absent is null. */
  datatype Links = Links(next: map<Addr, Addr>, prev: map<Addr, Addr>) {
    function Next(a: Addr): Addr { if a in next then next[a] else 0 }
    function Prev(a: Addr): Addr { if a in prev then prev[a] else 0 }
    function SetNext(a: Addr, x: Addr): Links { Links(next[a := x], prev) }
    function SetPrev(a: Addr, x: Addr): Links { Links(next, prev[a := x]) }
  }

  ghost predicate Distinct(s: seq<Addr>) { forall x, y :: 0 <= x < y < |s| ==> s[x] != s[y] }

  /** The pointers of the page at position `i` lead to its neighbours in `s`. */
  ghost predicate NodeOk(l: Links, s: seq<Addr>, i: nat)
    requires i < |s|
  {
    && l.Next(s[i]) == (if i + 1 < |s| then s[i + 1] else 0)
    && l.Prev(s[i]) == (if i > 0 then s[i - 1] else 0)
  }

  /** `head` starts the list `s`. */
  ghost predicate IsList(l: Links, head: Addr, s: seq<Addr>) {
    && head == (if s == [] then 0 else s[0])
    && Distinct(s) && 0 !in s
    && (forall i :: 0 <= i < |s| ==> NodeOk(l, s, i))
  }

  ghost predicate Unlinked(l: Links, a: Addr) { l.Next(a) == 0 && l.Prev(a) == 0 }

  /** Page::is_in_list looks at the page's own pointers and at the head. */
  method IsInList(l: Links, head: Addr, a: Addr, ghost s: seq<Addr>) returns (r: bool)
    requires IsList(l, head, s) && a != 0 && (a in s || Unlinked(l, a))
    ensures r <==> a in s
  {
    if a in s {
      ghost var i :| 0 <= i < |s| && s[i] == a;
      assert NodeOk(l, s, i);
      assert i > 0 ==> s[i - 1] in s;
    }
    r := l.Next(a) != 0 || l.Prev(a) != 0 || head == a;
  }

  /** Links changed only for pages outside `s`. */
  lemma ListFrame(l: Links, l': Links, head: Addr, s: seq<Addr>)
    requires IsList(l, head, s) && forall i :: 0 <= i < |s| ==>
      l'.Next(s[i]) == l.Next(s[i]) && l'.Prev(s[i]) == l.Prev(s[i])
    ensures IsList(l', head, s)
  {
    forall i | 0 <= i < |s| ensures NodeOk(l', s, i) { assert NodeOk(l, s, i); }
  }

  ghost predicate OnlyIn(l: Links, l': Links, s: seq<Addr>, a: Addr) {
    forall x :: x !in s && x != a ==> l'.Next(x) == l.Next(x) && l'.Prev(x) == l.Prev(x)
  }

  /** Page::list_insert */
  method ListInsert(l: Links, head: Addr, a: Addr, ghost s: seq<Addr>) returns (l': Links, head': Addr)
    requires IsList(l, head, s) && a != 0 && a !in s
    ensures IsList(l', head', [a] + s) && OnlyIn(l, l', s, a)
  {
    l' := l.SetNext(a, 0).SetPrev(a, 0);
    if head == 0 {
      assert s == [];
      return l', a;
    }
    l' := l'.SetNext(a, head).SetPrev(head, a);
    head' := a;
    ghost var r := [a] + s;
    forall i | 0 <= i < |r| ensures NodeOk(l', r, i) { if i > 0 { assert NodeOk(l, s, i - 1); } }
  }

  ghost function Removed(s: seq<Addr>, i: nat): seq<Addr>
    requires i < |s|
  {
    s[..i] + s[i + 1..]
  }

  /** Page::list_remove of the page at position `i`. */
  method ListRemove(l: Links, head: Addr, a: Addr, ghost s: seq<Addr>, ghost i: nat) returns (l': Links, head': Addr)
    requires IsList(l, head, s) && i < |s| && s[i] == a
    ensures IsList(l', head', Removed(s, i)) && Unlinked(l', a) && OnlyIn(l, l', s, a)
  {
    var n, p := l.Next(a), l.Prev(a);
    Neighbours(l, head, s, i);
    if a == head {
      l' := if n != 0 then l.SetPrev(n, 0) else l;
      l' := l'.SetNext(a, 0).SetPrev(a, 0);
      head' := n;
    } else {
      l' := if p != 0 then l.SetNext(p, n) else l;
      if n != 0 {
        l' := l'.SetPrev(n, p);
      }
      l' := l'.SetNext(a, 0).SetPrev(a, 0);
      head' := head;
    }
    RemovedList(l, l', head, head', s, i);
  }

  lemma Neighbours(l: Links, head: Addr, s: seq<Addr>, i: nat)
    requires IsList(l, head, s) && i < |s|
    ensures l.Next(s[i]) == (if i + 1 < |s| then s[i + 1] else 0) && l.Prev(s[i]) == (if i > 0 then s[i - 1] else 0)
    ensures (s[i] == head <==> i == 0) && (forall x :: 0 <= x < |s| && x != i ==> s[x] != s[i]) &&
      (forall x :: 0 <= x < |s| ==> s[x] != 0)
  {
    assert NodeOk(l, s, i);
  }

  lemma RemovedList(l: Links, l': Links, head: Addr, head': Addr, s: seq<Addr>, i: nat)
    requires IsList(l, head, s) && i < |s| && head' == (if i == 0 then (if |s| > 1 then s[1] else 0) else head)
    requires forall x :: 0 <= x < |s| && x != i && x != i + 1 ==> l'.Prev(s[x]) == l.Prev(s[x])
    requires forall x :: 0 <= x < |s| && x != i && x + 1 != i ==> l'.Next(s[x]) == l.Next(s[x])
    requires i + 1 < |s| ==> l'.Prev(s[i + 1]) == (if i > 0 then s[i - 1] else 0)
    requires i > 0 ==> l'.Next(s[i - 1]) == (if i + 1 < |s| then s[i + 1] else 0)
    ensures IsList(l', head', Removed(s, i))
  {
    var r := Removed(s, i);
    forall x | 0 <= x < |r| ensures NodeOk(l', r, x) { assert NodeOk(l, s, if x < i then x else x + 1); }
  }
}
