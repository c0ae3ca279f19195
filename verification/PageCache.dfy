/** The page cache: hash buckets and an age-ordered list over the same pages (src/cache.h), and purging
    it without touching the pages of the current changeset (src/env.cc). */
module PageCache {
  import opened PageList

  const CACHE_BUCKET_SIZE: nat := 10317
  const DEFAULT_CACHESIZE := 2 * 1024 * 1024

  function Hash(a: Addr): (h: nat)
    ensures h < CACHE_BUCKET_SIZE
  {
    a % CACHE_BUCKET_SIZE
  }

  /** The list without `a`. */
  ghost function Minus(s: seq<Addr>, a: Addr): (r: seq<Addr>)
    ensures a !in s ==> r == s
  {
    if a in s then var i :| 0 <= i < |s| && s[i] == a; Removed(s, i) else s
  }

  lemma MinusAt(s: seq<Addr>, i: nat)
    requires Distinct(s) && i < |s|
    ensures Minus(s, s[i]) == Removed(s, i)
  {
  }

  lemma MinusIs(s: seq<Addr>, a: Addr)
    requires Distinct(s)
    ensures Distinct(Minus(s, a)) && forall x :: x in Minus(s, a) <==> x in s && x != a
  {
    hide Distinct, Removed;
    if a in s {
      var i :| 0 <= i < |s| && s[i] == a;
      MinusAt(s, i);
      RemovedDistinct(s, i);
      forall x ensures x in Removed(s, i) <==> x in s && x != a { RemovedHas(s, i, x); }
    }
  }

  lemma RemovedDistinct(s: seq<Addr>, i: nat)
    requires Distinct(s) && i < |s|
    ensures Distinct(Removed(s, i))
  {
    var r := Removed(s, i);
    forall x, y | 0 <= x < y < |r| ensures r[x] != r[y] {
      var u, v := if x < i then x else x + 1, if y < i then y else y + 1;
      assert s[u] != s[v];
    }
  }

  lemma RemovedHas(s: seq<Addr>, i: nat, x: Addr)
    requires Distinct(s) && i < |s|
    ensures x in Removed(s, i) <==> x in s && x != s[i]
  {
    var r := Removed(s, i);
    if x in s && x != s[i] {
      var j :| 0 <= j < |s| && s[j] == x;
      assert r[if j < i then j else j - 1] == x;
    }
    if x in r {
      var j :| 0 <= j < |r| && r[j] == x;
      var u := if j < i then j else j + 1;
      assert s[u] == x;
    }
  }

  // ------------------------------------------------------------------------------ age order

  /** The pages that may be evicted, newest first. */
  ghost function Unpinned(s: seq<Addr>, pinned: set<Addr>): seq<Addr> {
    if s == [] then []
    else
      var a := s[|s| - 1];
      if a in pinned then Unpinned(s[..|s| - 1], pinned) else Unpinned(s[..|s| - 1], pinned) + [a]
  }

  ghost function Pinned(s: seq<Addr>, pinned: set<Addr>): seq<Addr> {
    if s == [] then []
    else
      var a := s[|s| - 1];
      if a in pinned then Pinned(s[..|s| - 1], pinned) + [a] else Pinned(s[..|s| - 1], pinned)
  }

  /** Taking out the last page that is not pinned removes exactly the oldest one that may go. */
  lemma {:induction false} EvictOldest(s: seq<Addr>, pinned: set<Addr>, x: nat)
    requires x < |s| && s[x] !in pinned && forall y :: x < y < |s| ==> s[y] in pinned
    ensures Unpinned(s, pinned) == Unpinned(Removed(s, x), pinned) + [s[x]]
    ensures Pinned(s, pinned) == Pinned(Removed(s, x), pinned)
  {
    var n := |s| - 1;
    if x == n {
      assert Removed(s, x) == s[..n];
    } else {
      EvictOldest(s[..n], pinned, x);
      var r := Removed(s, x);
      assert r[..|r| - 1] == Removed(s[..n], x) && r[|r| - 1] == s[n];
    }
  }

  lemma {:induction false} NoneUnpinned(s: seq<Addr>, pinned: set<Addr>)
    ensures Unpinned(s, pinned) == [] <==> forall y :: 0 <= y < |s| ==> s[y] in pinned
  {
    if s != [] {
      var n := |s| - 1;
      NoneUnpinned(s[..n], pinned);
      if forall y :: 0 <= y < n ==> s[..n][y] in pinned { assert forall y :: 0 <= y < n ==> s[y] in pinned; }
    }
  }

  // ------------------------------------------------------------------------------ hash buckets

  /** A bucket holds exactly the cached pages with its hash. */
  ghost predicate ChainOk(chain: seq<Addr>, h: nat, list: seq<Addr>) {
    forall a :: a in chain <==> a in list && Hash(a) == h
  }

  ghost predicate BucketsOk(l: Links, heads: seq<Addr>, chains: seq<seq<Addr>>, list: seq<Addr>) {
    && |heads| == CACHE_BUCKET_SIZE == |chains|
    && (forall h :: 0 <= h < |heads| ==> IsList(l, heads[h], chains[h]))
    && (forall h :: 0 <= h < |heads| ==> ChainOk(chains[h], h, list))
    && (forall a :: a !in list ==> Unlinked(l, a))
  }

  /** Changing one bucket leaves the others as they are. */
  lemma OtherBuckets(l: Links, heads: seq<Addr>, chains: seq<seq<Addr>>, list: seq<Addr>, l': Links, h: nat, a: Addr,
                     k: nat)
    requires BucketsOk(l, heads, chains, list) && h < |heads| && k < |heads| && k != h &&
      OnlyIn(l, l', chains[h], a) && Hash(a) == h
    ensures IsList(l', heads[k], chains[k])
  {
    assert ChainOk(chains[k], k, list) && ChainOk(chains[h], h, list);
    var c := chains[k];
    forall i | 0 <= i < |c| ensures l'.Next(c[i]) == l.Next(c[i]) && l'.Prev(c[i]) == l.Prev(c[i]) {
      assert c[i] in c;
      assert c[i] !in chains[h] && c[i] != a;
    }
    ListFrame(l, l', heads[k], c);
  }

  lemma BucketsChanged(l: Links, heads: seq<Addr>, chains: seq<seq<Addr>>, list: seq<Addr>, l': Links, h: nat, a: Addr,
                       head': Addr, c: seq<Addr>, list': seq<Addr>)
    requires BucketsOk(l, heads, chains, list) && h == Hash(a) && h < |heads| && OnlyIn(l, l', chains[h], a)
    requires IsList(l', head', c) && ChainOk(c, h, list') && (forall x :: x != a ==> (x in list' <==> x in list)) &&
      (a in list' || Unlinked(l', a))
    ensures BucketsOk(l', heads[h := head'], chains[h := c], list')
  {
    var heads', chains' := heads[h := head'], chains[h := c];
    forall k | 0 <= k < |heads'| ensures IsList(l', heads'[k], chains'[k]) && ChainOk(chains'[k], k, list') {
      if k != h {
        OtherBuckets(l, heads, chains, list, l', h, a, k);
        assert ChainOk(chains[k], k, list);
      }
    }
    forall x | x !in list' ensures Unlinked(l', x) {
      if x != a {
        assert Unlinked(l, x);
        assert ChainOk(chains[h], h, list);
        assert x !in chains[h];
      }
    }
  }

  method BucketRemove(l: Links, heads: seq<Addr>, a: Addr, ghost chains: seq<seq<Addr>>, ghost list: seq<Addr>)
    returns (l': Links, heads': seq<Addr>, ghost chains': seq<seq<Addr>>)
    requires BucketsOk(l, heads, chains, list) && a in list && Distinct(list)
    ensures BucketsOk(l', heads', chains', Minus(list, a))
  {
    var h := Hash(a);
    ghost var c := chains[h];
    assert ChainOk(c, h, list);
    ghost var j :| 0 <= j < |c| && c[j] == a;
    var head';
    assert IsList(l, heads[h], c);
    l', head' := ListRemove(l, heads[h], a, c, j);
    MinusAt(c, j);
    MinusIs(c, a);
    MinusIs(list, a);
    heads', chains' := heads[h := head'], chains[h := Removed(c, j)];
    BucketsChanged(l, heads, chains, list, l', h, a, head', Removed(c, j), Minus(list, a));
  }

  method BucketInsert(l: Links, heads: seq<Addr>, a: Addr, ghost chains: seq<seq<Addr>>, ghost list: seq<Addr>)
    returns (l': Links, heads': seq<Addr>, ghost chains': seq<seq<Addr>>)
    requires BucketsOk(l, heads, chains, list) && a !in list && a != 0
    ensures BucketsOk(l', heads', chains', [a] + list)
  {
    var h := Hash(a);
    ghost var c := chains[h];
    assert ChainOk(c, h, list) && IsList(l, heads[h], c);
    var head';
    l', head' := ListInsert(l, heads[h], a, c);
    heads', chains' := heads[h := head'], chains[h := [a] + c];
    BucketsChanged(l, heads, chains, list, l', h, a, head', [a] + c, [a] + list);
  }

  // ------------------------------------------------------------------------------ the cache

  class Cache {
    const capacity: nat
    const pagesize: nat

    /** Head and tail of the list of all cached pages, most recently stored first. */
    var total: Addr
    var tail: Addr
    var cached: Links
    var count: nat

    /** The heads of the hash buckets. */
    var buckets: seq<Addr>
    var bucketed: Links

    /** The lists behind the pointers. */
    ghost var list: seq<Addr>
    ghost var chains: seq<seq<Addr>>

    /** The buckets index exactly the pages of the list; tail and count belong to it. */
    ghost predicate Valid()
      reads this
    {
      && IsList(cached, total, list) && (forall a :: a !in list ==> Unlinked(cached, a))
      && count == |list| && tail == (if list == [] then 0 else list[|list| - 1])
      && BucketsOk(bucketed, buckets, chains, list)
    }

    /** A capacity of zero stands for the default. */
    constructor (capacity: nat, pagesize: nat)
      ensures Valid() && list == [] && this.pagesize == pagesize
      ensures this.capacity == if capacity == 0 then DEFAULT_CACHESIZE else capacity
    {
      this.capacity, this.pagesize := if capacity == 0 then DEFAULT_CACHESIZE else capacity, pagesize;
      total, tail, count, cached, bucketed := 0, 0, 0, Links(map[], map[]), Links(map[], map[]);
      buckets := seq(CACHE_BUCKET_SIZE, _ => 0);
      list, chains := [], seq(CACHE_BUCKET_SIZE, _ => []);
    }

    /** Cache::remove_page */
    method RemovePage(a: Addr)
      requires Valid() && a != 0
      modifies this
      ensures Valid() && list == Minus(old(list), a)
    {
      hide BucketsOk, Unlinked, OnlyIn, IsList, Distinct, Removed, Minus;
      ListDistinct(cached, total, list);
      var isIn := IsInList(cached, total, a, list);
      if !isIn {
        return;
      }
      ghost var i :| 0 <= i < |list| && list[i] == a;
      Neighbours(cached, total, list, i);
      MinusAt(list, i);
      var last := if tail == a then cached.Prev(a) else tail;
      var l, heads, cs := BucketRemove(bucketed, buckets, a, chains, list);
      var l', head := ListRemove(cached, total, a, list, i);
      StillUnlinked(cached, l', list, a);
      LastOf(list, i);
      tail, bucketed, buckets, chains := last, l, heads, cs;
      cached, total, list, count := l', head, Removed(list, i), count - 1;
    }

    /** Cache::put_page: the page is cached afterwards, and the most recently stored. */
    method PutPage(a: Addr)
      requires Valid() && a != 0
      modifies this
      ensures Valid() && list == [a] + Minus(old(list), a)
    {
      hide BucketsOk;
      MinusIs(list, a);
      RemovePage(a);
      bucketed, buckets, chains := BucketInsert(bucketed, buckets, a, chains, list);
      cached, total := ListInsert(cached, total, a, list);
      count := count + 1;
      list := [a] + list;
      if tail == 0 {
        tail := a;
      }
    }

    /** Cache::get_page: finds exactly the cached pages through their bucket. */
    method GetPage(a: Addr, noRemove: bool) returns (found: bool)
      requires Valid() && a != 0
      modifies this
      ensures Valid() && (found <==> a in old(list))
      ensures list == if !found then old(list) else if noRemove then [a] + Minus(old(list), a) else Minus(old(list), a)
    {
      var h := Hash(a);
      ghost var c := chains[h];
      assert IsList(bucketed, buckets[h], c) && ChainOk(c, h, list);
      found := FindInChain(bucketed, buckets[h], a, c);
      if !found {
        return;
      }
      RemovePage(a);
      if noRemove {
        PutPage(a);
      }
    }

    /** Cache::get_unused_page: takes out the least recently stored page that is not pinned by the
        changeset; 0 exactly if all pages are. */
    method GetUnusedPage(pinned: set<Addr>) returns (page: Addr)
      requires Valid()
      modifies this
      ensures Valid()
      ensures page == 0 <==> Unpinned(old(list), pinned) == []
      ensures page == 0 ==> list == old(list)
      ensures page != 0 ==> Unpinned(old(list), pinned) == Unpinned(list, pinned) + [page] && |list| + 1 == |old(list)|
      ensures Pinned(list, pinned) == Pinned(old(list), pinned)
    {
      hide BucketsOk, Unpinned, Pinned;
      NoneUnpinned(list, pinned);
      page := tail;
      ghost var i := |list| - 1;
      while page != 0 && page in pinned
        invariant Valid() && list == old(list) && -1 <= i < |list| && page == (if i < 0 then 0 else list[i])
        invariant forall y :: i < y < |list| ==> list[y] in pinned
        decreases i
      {
        Neighbours(cached, total, list, i);
        page := cached.Prev(page);
        i := i - 1;
      }
      if page == 0 {
        return;
      }
      EvictOldest(list, pinned, i);
      SomeUnpinned(list, pinned, i);
      MinusAt(list, i);
      RemovePage(page);
    }

    /** Cache::is_too_big */
    predicate TooBig()
      reads this
    {
      count * pagesize > capacity
    }

    /** Pages to purge at a time: with strict limits all, else a tenth of them, between 1 and 20. */
    function PurgeLimit(n: nat, strict: bool): (max: nat)
      ensures max <= n || max == 1
    {
      if strict then n else if n / 10 == 0 then 1 else if n / 10 > 20 then 20 else n / 10
    }

    /** __purge_cache_max20 */
    method PurgeSome(pinned: set<Addr>, strict: bool) returns (st: PurgeStatus)
      requires Valid()
      modifies this
      ensures Valid()
      ensures Unpinned(list, pinned) <= Unpinned(old(list), pinned) && Pinned(list, pinned) == Pinned(old(list), pinned)
      ensures st.Success? ==> !TooBig() || Unpinned(list, pinned) == []
      ensures |list| <= |old(list)| <= |list| + PurgeLimit(|old(list)|, strict)
      ensures st.LimitsReached? ==> |old(list)| == |list| + PurgeLimit(|old(list)|, strict) > |list|
      ensures !old(TooBig()) ==> list == old(list)
      ensures st.CacheFull? ==> strict && Unpinned(old(list), pinned) == []
      ensures st.Success? ==> |list| * pagesize <= capacity || Unpinned(list, pinned) == []
      ensures |old(list)| * pagesize <= capacity ==> list == old(list) && st.Success?
      ensures |old(list)| * pagesize > capacity && Unpinned(old(list), pinned) != [] ==> |list| < |old(list)|
      ensures !strict ==> |old(list)| <= |list| + 20
      ensures !strict ==> 10 * (|old(list)| - |list|) <= |old(list)| || |old(list)| == |list| + 1
      ensures !strict && st.LimitsReached? ==>
        |old(list)| == |list| + 20 || |old(list)| < 10 * (|old(list)| - |list| + 1)
      ensures strict && st.LimitsReached? ==> list == []
    {
      hide BucketsOk, Unpinned, Pinned;
      if !TooBig() {
        return Success;
      }
      var maxPages := PurgeLimit(count, strict);
      var i := 0;
      while i < maxPages
        invariant 0 <= i <= maxPages && Valid()
        invariant Unpinned(list, pinned) <= Unpinned(old(list), pinned) &&
          Pinned(list, pinned) == Pinned(old(list), pinned)
        invariant |list| + i == |old(list)| && (i == 0 ==> list == old(list))
      {
        var page := GetUnusedPage(pinned);
        if page == 0 {
          if i == 0 && strict {
            return CacheFull;
          }
          return Success;
        }
        i := i + 1;
      }
      return if maxPages != 0 then LimitsReached else Success;
    }

    /** env_purge_cache: ends, evicts from the oldest page on, and on success leaves a cache that fits
        or holds only pinned pages. */
    method Purge(pinned: set<Addr>, strict: bool) returns (ok: bool)
      requires Valid()
      modifies this
      ensures Valid()
      ensures Unpinned(list, pinned) <= Unpinned(old(list), pinned) && Pinned(list, pinned) == Pinned(old(list), pinned)
      ensures ok ==> !TooBig() || Unpinned(list, pinned) == []
      ensures !ok ==> strict && Unpinned(list, pinned) == []
      ensures ok ==> |list| * pagesize <= capacity || Unpinned(list, pinned) == []
      ensures |old(list)| * pagesize <= capacity ==> ok && list == old(list)
      ensures list != old(list) && !strict ==> (|list| + 20) * pagesize > capacity
    {
      hide BucketsOk, Unpinned, Pinned;
      var st := PurgeSome(pinned, strict);
      if !strict { MulMono(|old(list)|, |list| + 20, pagesize); }
      while st.LimitsReached? && TooBig()
        invariant Valid()
        invariant Unpinned(list, pinned) <= Unpinned(old(list), pinned) &&
          Pinned(list, pinned) == Pinned(old(list), pinned)
        invariant st.Success? ==> !TooBig() || Unpinned(list, pinned) == []
        invariant st.CacheFull? ==> strict && Unpinned(list, pinned) == []
        invariant |old(list)| * pagesize <= capacity ==> st.Success? && list == old(list)
        invariant list != old(list) && !strict ==> (|list| + 20) * pagesize > capacity
        decreases |list|, if st.LimitsReached? then 1 else 0
      {
        ghost var n := |list|;
        st := PurgeSome(pinned, strict);
        if !strict { MulMono(n, |list| + 20, pagesize); }
      }
      ok := !st.CacheFull?;
    }
  }

  lemma StillUnlinked(l: Links, l': Links, s: seq<Addr>, a: Addr)
    requires Distinct(s) && (forall x :: x !in s ==> Unlinked(l, x)) && OnlyIn(l, l', s, a) && Unlinked(l', a)
    ensures forall x :: x !in Minus(s, a) ==> Unlinked(l', x)
  {
    MinusIs(s, a);
  }

  lemma ListDistinct(l: Links, head: Addr, s: seq<Addr>)
    requires IsList(l, head, s)
    ensures Distinct(s)
  {
  }

  /** The last page after a removal. */
  lemma LastOf(s: seq<Addr>, i: nat)
    requires Distinct(s) && i < |s|
    ensures var r := Removed(s, i);
      (if r == [] then 0 else r[|r| - 1]) == (if i + 1 == |s| then (if i > 0 then s[i - 1] else 0) else s[|s| - 1])
    ensures i + 1 < |s| ==> s[|s| - 1] != s[i]
    ensures |Removed(s, i)| == |s| - 1
  {
  }

  lemma MulMono(a: nat, b: nat, c: nat)
    requires a <= b
    ensures a * c <= b * c
  {
  }

  datatype PurgeStatus = Success | LimitsReached | CacheFull

  lemma SomeUnpinned(s: seq<Addr>, pinned: set<Addr>, i: nat)
    requires i < |s| && s[i] !in pinned
    ensures Unpinned(s, pinned) != []
  {
    NoneUnpinned(s, pinned);
  }

  method FindInChain(l: Links, head: Addr, a: Addr, ghost c: seq<Addr>) returns (found: bool)
    requires IsList(l, head, c) && a != 0
    ensures found <==> a in c
  {
    var page := head;
    ghost var i := 0;
    while page != 0
      invariant 0 <= i <= |c| && page == (if i < |c| then c[i] else 0) && a !in c[..i]
      decreases |c| - i
    {
      if page == a {
        return true;
      }
      assert NodeOk(l, c, i);
      page := l.Next(page);
      i := i + 1;
    }
    assert c[..|c|] == c;
    return false;
  }
}
