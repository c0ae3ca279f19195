/** Reading and writing byte ranges of the database file, page by page, through the cache or directly
    on the device (src/blob.cc __write_chunks, __read_chunk). */
module BlobIO {
  import opened Collections
  import opened Bytes

  function Splice(v: Data, a: nat, d: Data): (r: Data)
    requires a + |d| <= |v|
    ensures |r| == |v|
  {
    v[..a] + d + v[a + |d|..]
  }

  lemma SpliceAt(v: Data, a: nat, d: Data, x: nat)
    requires a + |d| <= |v| && x < |v|
    ensures Splice(v, a, d)[x] == if a <= x < a + |d| then d[x - a] else v[x]
  {
  }

  lemma SpliceTwice(v: Data, a: nat, d: Data, e: Data)
    requires a + |d| + |e| <= |v|
    ensures Splice(Splice(v, a, d), a + |d|, e) == Splice(v, a, d + e)
  {
  }

  function Concat(chunks: seq<Data>): Data {
    if chunks == [] then [] else Concat(chunks[..|chunks| - 1]) + chunks[|chunks| - 1]
  }

  // ------------------------------------------------------------------------------ pages

  function PageOf(a: nat, ps: nat): (p: nat)
    requires ps > 0
    ensures p <= a < p + ps
  {
    a - a % ps
  }

  lemma {:induction false} MulStep(q: nat, k: nat, ps: nat)
    requires q < k
    ensures q * ps + ps <= k * ps
  {
    if k == q + 1 {
      assert (q + 1) * ps == q * ps + ps;
    } else {
      MulStep(q, k - 1, ps);
      assert (k - 1) * ps + ps == k * ps;
    }
  }

  lemma ModUnique(x: nat, ps: nat, k: nat, r: nat)
    requires ps > 0 && x == k * ps + r && r < ps
    ensures x % ps == r
  {
    var q, m := x / ps, x % ps;
    assert x == q * ps + m;
    if q < k { MulStep(q, k, ps); }
    if k < q { MulStep(k, q, ps); }
  }

  lemma PageStart(a: nat, ps: nat)
    requires ps > 0
    ensures PageOf(a, ps) % ps == 0
  {
    var k := a / ps;
    assert PageOf(a, ps) == k * ps + 0;
    ModUnique(PageOf(a, ps), ps, k, 0);
  }

  /** Addresses inside a page belong to it. */
  lemma InPage(a: nat, ps: nat, p: nat)
    requires ps > 0 && p % ps == 0 && p <= a < p + ps
    ensures PageOf(a, ps) == p
  {
    var k := p / ps;
    assert p == k * ps;
    ModUnique(a, ps, k, a - p);
  }

  /** The file as seen through the cache. */
  ghost predicate CacheOk(cache: map<nat, Data>, device: Data, ps: nat) {
    && ps > 0 && |device| % ps == 0
    && forall p :: p in cache ==> p % ps == 0 && p + ps <= |device| && |cache[p]| == ps
  }

  ghost function ByteAt(cache: map<nat, Data>, device: Data, ps: nat, x: nat): Byte
    requires CacheOk(cache, device, ps) && x < |device|
  {
    var p := PageOf(x, ps);
    if p in cache then cache[p][x - p] else device[x]
  }

  ghost function ViewOf(cache: map<nat, Data>, device: Data, ps: nat): (v: Data)
    requires CacheOk(cache, device, ps)
    ensures |v| == |device|
  {
    seq(|device|, x requires 0 <= x < |device| => ByteAt(cache, device, ps, x))
  }

  /** memcpy into a cached page. */
  lemma PageWrite(cache: map<nat, Data>, device: Data, ps: nat, p: nat, a: nat, d: Data)
    requires CacheOk(cache, device, ps) && p in cache && p <= a && a + |d| <= p + ps
    ensures CacheOk(cache[p := Splice(cache[p], a - p, d)], device, ps)
    ensures ViewOf(cache[p := Splice(cache[p], a - p, d)], device, ps) == Splice(ViewOf(cache, device, ps), a, d)
  {
    var c' := cache[p := Splice(cache[p], a - p, d)];
    var v, v' := ViewOf(cache, device, ps), ViewOf(c', device, ps);
    forall x | 0 <= x < |device| ensures v'[x] == Splice(v, a, d)[x] {
      SpliceAt(v, a, d, x);
      if a <= x < a + |d| { InPage(x, ps, p); }
      if PageOf(x, ps) == p { SpliceAt(cache[p], a - p, d, x - p); }
    }
  }

  /** device->write inside a page that is not cached. */
  lemma DeviceWrite(cache: map<nat, Data>, device: Data, ps: nat, p: nat, a: nat, d: Data)
    requires CacheOk(cache, device, ps) && p !in cache && p % ps == 0 && p + ps <= |device| && p <= a &&
      a + |d| <= p + ps
    ensures CacheOk(cache, Splice(device, a, d), ps)
    ensures ViewOf(cache, Splice(device, a, d), ps) == Splice(ViewOf(cache, device, ps), a, d)
  {
    var v, v' := ViewOf(cache, device, ps), ViewOf(cache, Splice(device, a, d), ps);
    forall x | 0 <= x < |device| ensures v'[x] == Splice(v, a, d)[x] {
      SpliceAt(v, a, d, x);
      SpliceAt(device, a, d, x);
      if a <= x < a + |d| { InPage(x, ps, p); }
    }
  }

  /** Loading a page into the cache does not change the view. */
  lemma PageLoad(cache: map<nat, Data>, device: Data, ps: nat, p: nat)
    requires CacheOk(cache, device, ps) && p !in cache && p % ps == 0 && p + ps <= |device|
    ensures CacheOk(cache[p := device[p..p + ps]], device, ps)
    ensures ViewOf(cache[p := device[p..p + ps]], device, ps) == ViewOf(cache, device, ps)
  {
  }

  /** A slice of the view inside one page. */
  lemma PageSlice(cache: map<nat, Data>, device: Data, ps: nat, p: nat, a: nat, n: nat)
    requires CacheOk(cache, device, ps) && p % ps == 0 && p + ps <= |device| && p <= a && a + n <= p + ps
    ensures p in cache ==> ViewOf(cache, device, ps)[a..a + n] == cache[p][a - p..a - p + n]
    ensures p !in cache ==> ViewOf(cache, device, ps)[a..a + n] == device[a..a + n]
  {
    var v := ViewOf(cache, device, ps);
    forall x | a <= x < a + n ensures v[x] == if p in cache then cache[p][x - p] else device[x] { InPage(x, ps, p); }
    if p in cache {
      var s, t := v[a..a + n], cache[p][a - p..a - p + n];
      forall k | 0 <= k < n ensures s[k] == t[k] { assert s[k] == v[a + k]; }
    } else {
      var s, t := v[a..a + n], device[a..a + n];
      forall k | 0 <= k < n ensures s[k] == t[k] { assert s[k] == v[a + k]; }
    }
  }

  lemma PageInside(a: nat, ps: nat, size: nat)
    requires ps > 0 && size % ps == 0 && a < size
    ensures PageOf(a, ps) % ps == 0 && PageOf(a, ps) + ps <= size
  {
    PageStart(a, ps);
    var p := PageOf(a, ps);
    var k, m := p / ps, size / ps;
    assert p == k * ps && size == m * ps;
    if m < k { MulStep(m, k, ps); }
    if k < m { MulStep(k, m, ps); }
  }

  // ------------------------------------------------------------------------------ file access

  /** The device below the page cache. */
  class FileEnv {
    const ps: nat
    const usable: nat
    const logging: bool
    var device: Data
    var cache: map<nat, Data>

    ghost predicate Valid()
      reads this
    {
      CacheOk(cache, device, ps) && usable <= ps
    }

    ghost function View(): (v: Data)
      requires Valid()
      reads this
      ensures |v| == |device|
    {
      ViewOf(cache, device, ps)
    }

    constructor (ps: nat, usable: nat, logging: bool, device: Data)
      requires ps > 0 && usable <= ps && |device| % ps == 0
      ensures Valid() && this.ps == ps && this.usable == usable && this.logging == logging && this.device == device &&
        View() == device
    {
      this.ps, this.usable, this.logging, this.device, this.cache := ps, usable, logging, device, map[];
    }

    /** __blob_from_cache */
    predicate FromCache(size: nat) { if logging then size < usable else size < ps / 8 }

    /** env_fetch_page; what the file looks like does not change. */
    method FetchPage(p: nat, onlyFromCache: bool) returns (page: Option<nat>)
      requires Valid() && p % ps == 0 && p + ps <= |device|
      modifies this`cache
      ensures Valid() && View() == old(View())
      ensures page.Some? ==> page.value == p && p in cache
      ensures page.None? ==> onlyFromCache && p !in cache
      ensures old(cache).Keys <= cache.Keys
    {
      if p in cache {
        return Some(p);
      }
      if onlyFromCache {
        return None;
      }
      PageLoad(cache, device, ps, p);
      cache := cache[p := device[p..p + ps]];
      page := Some(p);
    }

    /** One chunk of __write_chunks. */
    method WriteChunk(page0: Option<nat>, addr0: nat, chunk: Data, fresh': bool) returns (page: Option<nat>, addr: nat)
      requires Valid() && addr0 + |chunk| <= |device| && (page0.Some? ==> page0.value in cache)
      modifies this`cache, this`device
      ensures Valid() && |device| == |old(device)| && View() == Splice(old(View()), addr0, chunk)
      ensures addr == addr0 + |chunk| && (page.Some? ==> page.value in cache) && old(cache).Keys <= cache.Keys
      ensures (logging && !fresh') || |chunk| < ps ==> device == old(device)
    {
      hide CacheOk, ViewOf, Splice;
      page, addr := page0, addr0;
      var n := 0;
      ghost var v0 := View();
      SpliceNothing(v0, addr0, chunk);
      while n < |chunk|
        invariant 0 <= n <= |chunk| && addr == addr0 + n && Valid() && |device| == |old(device)|
        invariant View() == Splice(v0, addr0, chunk[..n]) && (page.Some? ==> page.value in cache) &&
          old(cache).Keys <= cache.Keys
        invariant (logging && !fresh') || |chunk| < ps ==> device == old(device)
      {
        DeviceShape(cache, device, ps);
        var pageid := PageOf(addr, ps);
        PageInside(addr, ps, |device|);
        if page.Some? && page.value != pageid {
          page := None;
        }
        if page.None? {
          var atEdge := FromCache(|chunk| - n) || addr % ps != 0 || |chunk| - n < ps;
          page := FetchPage(pageid, !atEdge && (!logging || fresh'));
        }
        var size := ps - (addr - pageid);
        if size > |chunk| - n {
          size := |chunk| - n;
        }
        var piece := chunk[n..n + size];
        if page.Some? {
          PageWrite(cache, device, ps, pageid, addr, piece);
          PageLength(cache, device, ps, pageid);
          cache := cache[pageid := Splice(cache[pageid], addr - pageid, piece)];
        } else {
          DeviceWrite(cache, device, ps, pageid, addr, piece);
          device := Splice(device, addr, piece);
        }
        NextPiece(v0, addr0, chunk, n, size);
        addr := addr + size;
        n := n + size;
      }
      assert chunk[..|chunk|] == chunk;
    }

    /** __write_chunks: exactly the addressed range of the file changes, to the chunks one after the
        other, for every mix of cached and direct pages. */
    method WriteChunks(page0: Option<nat>, addr0: nat, chunks: seq<Data>, fresh': bool)
      requires Valid() && addr0 + |Concat(chunks)| <= |device| && (page0.Some? ==> page0.value in cache)
      modifies this`cache, this`device
      ensures Valid() && |device| == |old(device)| && View() == Splice(old(View()), addr0, Concat(chunks))
      ensures old(cache).Keys <= cache.Keys
      ensures (logging && !fresh') || (forall i :: 0 <= i < |chunks| ==> |chunks[i]| < ps) ==> device == old(device)
    {
      hide CacheOk, ViewOf, Splice;
      var page, addr := page0, addr0;
      ghost var v0 := View();
      SpliceNothing(v0, addr0, Concat(chunks));
      for i := 0 to |chunks|
        invariant Valid() && |device| == |old(device)| && (page.Some? ==> page.value in cache) &&
          old(cache).Keys <= cache.Keys
        invariant addr == addr0 + |Concat(chunks[..i])| && |Concat(chunks[..i])| <= |Concat(chunks)|
        invariant View() == Splice(v0, addr0, Concat(chunks[..i]))
        invariant (logging && !fresh') || (forall i :: 0 <= i < |chunks| ==> |chunks[i]| < ps) ==> device == old(device)
      {
        ConcatStep(chunks, i);
        SpliceTwice(v0, addr0, Concat(chunks[..i]), chunks[i]);
        page, addr := WriteChunk(page, addr, chunks[i], fresh');
      }
      assert chunks[..|chunks|] == chunks;
    }

    /** __read_chunk: the addressed slice of the file. */
    method ReadChunk(page0: Option<nat>, addr0: nat, size0: nat) returns (data: Data, page: Option<nat>)
      requires Valid() && addr0 + size0 <= |device| && (page0.Some? ==> page0.value in cache)
      modifies this`cache
      ensures Valid() && View() == old(View()) && data == View()[addr0..addr0 + size0] &&
        (page.Some? ==> page.value in cache)
    {
      hide CacheOk, ViewOf;
      page, data := page0, [];
      var addr, size := addr0, size0;
      ghost var v0 := View();
      while size > 0
        invariant addr + size == addr0 + size0 && addr0 <= addr && 0 <= size && Valid() && View() == v0
        invariant data == v0[addr0..addr] && (page.Some? ==> page.value in cache)
      {
        DeviceShape(cache, device, ps);
        var pageid := PageOf(addr, ps);
        PageInside(addr, ps, |device|);
        if page.Some? && page.value != pageid {
          page := None;
        }
        if page.None? {
          page := FetchPage(pageid, !FromCache(size));
        }
        var n := ps - (addr - pageid);
        if n > size {
          n := size;
        }
        PageSlice(cache, device, ps, pageid, addr, n);
        if page.Some? {
          PageLength(cache, device, ps, pageid);
          data := data + cache[pageid][addr - pageid..addr - pageid + n];
        } else {
          data := data + device[addr..addr + n];
        }
        assert v0[addr0..addr] + v0[addr..addr + n] == v0[addr0..addr + n];
        addr := addr + n;
        size := size - n;
      }
    }
  }

  /** The file grows by whole pages; nothing of the new part is cached yet. */
  lemma GrowView(cache: map<nat, Data>, device: Data, ps: nat, junk: Data)
    requires CacheOk(cache, device, ps) && |junk| % ps == 0
    ensures CacheOk(cache, device + junk, ps) && ViewOf(cache, device + junk, ps) == ViewOf(cache, device, ps) + junk
  {
    var k, m := |device| / ps, |junk| / ps;
    assert |device| == k * ps && |junk| == m * ps;
    assert (k + m) * ps == k * ps + m * ps;
    ModUnique(|device + junk|, ps, k + m, 0);
    var v, w := ViewOf(cache, device, ps) + junk, ViewOf(cache, device + junk, ps);
    forall x | 0 <= x < |w| ensures w[x] == v[x] {}
  }

  lemma DeviceShape(cache: map<nat, Data>, device: Data, ps: nat)
    requires CacheOk(cache, device, ps)
    ensures ps > 0 && |device| % ps == 0
  {
  }

  lemma PageLength(cache: map<nat, Data>, device: Data, ps: nat, p: nat)
    requires CacheOk(cache, device, ps) && p in cache
    ensures |cache[p]| == ps
  {
  }

  lemma SpliceNothing(v: Data, a: nat, d: Data)
    requires a + |d| <= |v|
    ensures Splice(v, a, d[..0]) == v && d[..0] == []
  {
  }

  lemma NextPiece(v: Data, a: nat, d: Data, n: nat, size: nat)
    requires a + |d| <= |v| && n + size <= |d|
    ensures Splice(Splice(v, a, d[..n]), a + n, d[n..n + size]) == Splice(v, a, d[..n + size])
  {
    SpliceTwice(v, a, d[..n], d[n..n + size]);
    assert d[..n] + d[n..n + size] == d[..n + size];
  }

  lemma {:induction false} ConcatStep(chunks: seq<Data>, i: nat)
    requires i < |chunks|
    ensures Concat(chunks[..i + 1]) == Concat(chunks[..i]) + chunks[i]
    ensures |Concat(chunks[..i + 1])| <= |Concat(chunks)|
    decreases |chunks|
  {
    assert chunks[..i + 1][..i] == chunks[..i];
    if i + 1 == |chunks| {
      assert chunks[..i + 1] == chunks;
    } else {
      var c := chunks[..|chunks| - 1];
      ConcatStep(c, i);
      assert c[..i + 1] == chunks[..i + 1];
    }
  }
}
