/** Allocating, reading, overwriting and freeing blobs (src/blob.cc). */
module BlobStore {
  import opened Collections
  import opened Bytes
  import opened BlobIO
  import opened BlobBooks

  // ------------------------------------------------------------------------------ on disk

  /** blob_t */
  function Header(self: nat, alloc: nat, size: nat, flags: nat): (h: Data)
    ensures |h| == BLOB_HEADER
  {
    Encode(self, 8) + Encode(alloc, 8) + Encode(size, 8) + Encode(flags, 4)
  }

  lemma HeaderFields(self: nat, alloc: nat, size: nat, flags: nat)
    requires self < U64 && alloc < U64 && size < U64 && flags < U32
    ensures var h := Header(self, alloc, size, flags);
      Decode(h[0..8]) == self && Decode(h[8..16]) == alloc && Decode(h[16..24]) == size && Decode(h[24..28]) == flags
  {
    var h := Header(self, alloc, size, flags);
    assert h[0..8] == Encode(self, 8) && h[8..16] == Encode(alloc, 8) && h[16..24] == Encode(size, 8) &&
      h[24..28] == Encode(flags, 4);
    Widths();
    DecodeEncode(self, 8);
    DecodeEncode(alloc, 8);
    DecodeEncode(size, 8);
    DecodeEncode(flags, 4);
  }

  /** The file holds blob `b` at `a`. */
  ghost predicate Stored(v: Data, a: nat, b: Blob) {
    && BLOB_HEADER + |b.data| <= b.alloc && a + b.alloc <= |v|
    && v[a..a + BLOB_HEADER] == Header(a, b.alloc, |b.data|, 0)
    && v[a + BLOB_HEADER..a + BLOB_HEADER + |b.data|] == b.data
  }

  ghost predicate AllStored(v: Data, live: Blobs) { forall a :: a in live ==> Stored(v, a, live[a]) }

  lemma StoredKeep(v: Data, v': Data, a: nat, b: Blob)
    requires Stored(v, a, b) && |v| <= |v'| && forall x :: a <= x < a + b.alloc ==> v'[x] == v[x]
    ensures Stored(v', a, b)
  {
    assert v'[a..a + BLOB_HEADER] == v[a..a + BLOB_HEADER];
    assert v'[a + BLOB_HEADER..a + BLOB_HEADER + |b.data|] == v[a + BLOB_HEADER..a + BLOB_HEADER + |b.data|];
  }

  lemma StoredNew(v: Data, a: nat, b: Blob)
    requires BLOB_HEADER + |b.data| <= b.alloc && a + b.alloc <= |v|
    ensures Stored(Splice(v, a, Header(a, b.alloc, |b.data|, 0) + b.data), a, b)
  {
    hide Header;
    var h := Header(a, b.alloc, |b.data|, 0);
    var w := Splice(v, a, h + b.data);
    assert w[a..a + BLOB_HEADER] == h;
    assert w[a + BLOB_HEADER..a + BLOB_HEADER + |b.data|] == b.data;
  }

  /** Writing inside one blob's space leaves all others as they are. */
  lemma OthersKeep(v: Data, live: Blobs, free: set<nat>, taken: set<nat>, a: nat, b: Blob, d: Data)
    requires Books(live[a := b], free, taken) && a + |d| <= |v| && |d| <= b.alloc
    requires forall y :: y in live && y != a ==> Stored(v, y, live[y])
    ensures forall y :: y in live && y != a ==> Stored(Splice(v, a, d), y, live[y])
  {
    var w, l := Splice(v, a, d), live[a := b];
    forall y | y in live && y != a ensures Stored(w, y, live[y]) {
      Apart(l, free, taken, a, y);
      forall x | y <= x < y + live[y].alloc ensures w[x] == v[x] { SpliceAt(v, a, d, x); }
      StoredKeep(v, w, y, live[y]);
    }
  }

  /** The record a partial write creates: the part, with zeros around it. */
  function Padded(size: nat, offset: nat, part: Data): (r: Data)
    requires offset + |part| <= size
    ensures |r| == size
  {
    Zeros(offset) + part + Zeros(size - offset - |part|)
  }

  // ------------------------------------------------------------------------------ the store

  /** There is an aligned free area of the size. */
  ghost predicate HasArea(free: set<nat>, size: nat) {
    exists a :: a in free && a % DB_CHUNKSIZE == 0 && Range(a, size) <= free
  }

  /** The window of a record that is asked for, cut at its end. */
  ghost function Window(d: Data, offset: nat, size: nat): Data
    requires offset <= |d|
  {
    d[offset..if offset + size > |d| then |d| else offset + size]
  }

  /** The end of the window is not taken for one inside a record of `n` bytes. */
  predicate EndOk(n: nat, offset: nat, size: nat) { offset + size < U32 || offset + size - U32 > n }

  /** The number of bytes blob_read takes for the window of a record of `n` bytes. */
  function Cut(n: nat, offset: nat, size: nat): nat
    requires offset <= n
  {
    if (offset + size) % U32 > n then n - offset else size
  }

  lemma CutOk(d: Data, offset: nat, size: nat)
    requires offset <= |d| < U32 && size < U32
    ensures |Window(d, offset, size)| <= |d| - offset
    ensures EndOk(|d|, offset, size) ==>
      offset + Cut(|d|, offset, size) <= |d| && Window(d, offset, size) == d[offset..offset + Cut(|d|, offset, size)]
    ensures !EndOk(|d|, offset, size) ==> Cut(|d|, offset, size) > |d| - offset
  {
    if offset + size >= U32 { Wraps(offset + size); }
  }

  datatype ReadStatus = Ok | NotFound | InvParameter | IoError

  class Store {
    const env: FileEnv

    /** The freelist. */
    var free: set<nat>

    ghost var live: Blobs
    ghost var taken: set<nat>

    ghost predicate Valid()
      reads this, env
    {
      && env.Valid() && env.ps % DB_CHUNKSIZE == 0 && 0 < |env.device| < U64
      && Books(live, free, taken) && (forall x :: x in taken ==> 0 < x < |env.device|)
      && AllStored(env.View(), live)
    }

    constructor (env: FileEnv)
      requires env.Valid() && env.ps % DB_CHUNKSIZE == 0 && 0 < |env.device| < U64
      ensures Valid() && this.env == env && live == map[] && taken == {}
    {
      this.env, free, live, taken := env, {}, map[], {};
    }

    lemma InFile(id: nat)
      requires Valid() && id in live
      ensures 0 < id && id + BLOB_HEADER <= |env.device| < U64
    {
      StartTaken(live, free, taken, id);
      LiveInside(env.View(), live, id);
    }

    /** Sizes are computed in 32 bits: the space, rounded up to whole pages, has to stay below that. The
        file has to stay below 2^64 bytes. */
    predicate RoomFor(size: nat)
      reads this, env
    {
      AllocSize(size) + env.ps <= U32 && |env.device| + AllocSize(size) + env.ps < U64
    }

    lemma NoWrap(size: nat)
      requires Valid() && RoomFor(size)
      ensures AllocSize32(size) == AllocSize(size) < U32 && 0 < env.ps
      ensures Aligned32(AllocSize(size), env.ps) == PageOf(AllocSize(size) + env.ps - 1, env.ps)
    {
      hide Books, AllStored, AllocSize32;
      assert env.ps >= DB_CHUNKSIZE;
      AllocFits(size);
    }

    /** What is not longer than the record fits into its space. */
    lemma FitsIn(id: nat, n: nat)
      requires Valid() && id in live && n <= |live[id].data|
      ensures AllocSize(n) <= live[id].alloc
    {
      assert BlobOk(id, live[id]);
      AllocLeast(n, live[id].alloc);
    }

    /** blob_read: the record, or the window of it that was asked for. The end of the window is computed
        in 32 bits, and the window is right exactly if that does not bring it back into the record. */
    method Read(id: nat, partial: bool, offset: nat, size: nat) returns (st: ReadStatus, data: Data)
      requires Valid() && id + BLOB_HEADER <= |env.device| && offset < U32 && size < U32
      modifies env`cache
      ensures Valid() && live == old(live) && env.View() == old(env.View())
      ensures st.NotFound? <==> Decode(env.View()[id..id + 8]) != id
      ensures id in live && !partial ==> st.Ok? && data == live[id].data
      ensures id in live && partial ==> (st.InvParameter? <==> offset > |live[id].data|)
      ensures id in live && partial && offset <= |live[id].data| ==>
        (st.Ok? && data == Window(live[id].data, offset, size) <==> EndOk(|live[id].data|, offset, size))
    {
      hide Books, Header, CacheOk, ViewOf, Stored, AllStored, Decode, Window, EndOk, Cut;
      data := [];
      var hdr, page := env.ReadChunk(None, id, BLOB_HEADER);
      ghost var v := env.View();
      assert hdr[0..8] == v[id..id + 8];
      if id in live {
        LiveHeader(v, live, id, hdr);
        Sized(live, free, taken, id);
        if partial && offset <= |live[id].data| { CutOk(live[id].data, offset, size); }
      }
      if Decode(hdr[0..8]) != id {
        return NotFound, [];
      }
      var blobsize := Decode(hdr[16..24]) % U32;
      if partial {
        if offset > blobsize {
          return InvParameter, [];
        }
        blobsize := Cut(blobsize, offset, size);
      }
      st := Ok;
      if blobsize == 0 {
        return;
      }
      var from := id + BLOB_HEADER + (if partial then offset else 0);
      if id in live && (partial ==> EndOk(|live[id].data|, offset, size)) {
        LiveData(v, live, id, if partial then offset else 0, blobsize);
      }
      if from + blobsize > |env.device| {
        return IoError, [];
      }
      data, page := env.ReadChunk(page, from, blobsize);
    }

    /** freel_alloc_area: some free area of the size, or none; the freelist may miss one. */
    method FreelistAlloc(size: nat, misses: bool) returns (addr: Option<nat>)
      requires size > 0
      modifies this`free
      ensures addr.Some? ==>
        addr.value % DB_CHUNKSIZE == 0 && Range(addr.value, size) <= old(free) &&
          free == old(free) - Range(addr.value, size)
      ensures addr.None? ==> free == old(free)
      ensures !misses ==> (addr.Some? <==> HasArea(old(free), size))
    {
      addr := None;
      if !misses {
        if a :| a in free && a % DB_CHUNKSIZE == 0 && Range(a, size) <= free {
          addr := Some(a);
          free := free - Range(a, size);
        }
      }
    }

    /** Device::alloc: the file grows by `n` bytes of any content. */
    method Grow(n: nat) returns (addr: nat)
      requires env.Valid() && n % env.ps == 0
      modifies env`device
      ensures env.Valid() && addr == |old(env.device)| && |env.device| == addr + n
      ensures env.View()[..addr] == old(env.View())
    {
      assert |Zeros(n)| == n;
      var junk: Data :| |junk| == n;
      GrowView(env.cache, env.device, env.ps, junk);
      addr := |env.device|;
      env.device := env.device + junk;
    }

    /** What blob_allocate has once it found the space: the books are right for the new blob, the file
        only grew. */
    ghost predicate Placed(live0: Blobs, v0: Data, taken0: set<nat>, addr: nat, b: Blob, page: Option<nat>)
      reads this, env
    {
      && env.Valid() && |env.device| < U64 && |v0| <= |env.View()| && env.View()[..|v0|] == v0
      && addr !in live0 && Books(live0[addr := b], free, taken)
      && (forall x :: x in taken ==> 0 < x < |env.device|) && addr + b.alloc <= |env.device|
      && (page.Some? ==> page.value in env.cache)
      && taken0 <= taken && forall x :: x in taken && x !in taken0 ==> |v0| <= x
    }

    /** A new page for a small blob; the rest of the page goes to the freelist. */
    method PlaceInPage(size: nat, ghost data: Data) returns (addr: nat, page: Option<nat>)
      requires Valid() && size == AllocSize(|data|) && size <= env.ps && size < U32 && |env.device| + env.ps < U64
      modifies this`free, this`taken, env`device, env`cache
      ensures Placed(live, old(env.View()), old(taken), addr, Blob(size, data), page) &&
        |env.device| <= |old(env.device)| + env.ps
    {
      hide CacheOk, ViewOf, Stored, AllStored, Books;
      ghost var v0, f0, t0 := env.View(), free, taken;
      DeviceShape(env.cache, env.device, env.ps);
      SelfMultiple(env.ps);
      addr := Grow(env.ps);
      ChunkMultiple(addr, env.ps);
      page := env.FetchPage(addr, false);
      free := free + Range(addr + size, env.ps - size);
      TakeNew(live, f0, t0, addr, Blob(size, data), env.ps);
      taken := taken + Range(addr, env.ps);
    }

    /** Whole pages from the device; a rest of the last page that is large enough goes to the freelist. */
    method PlaceDirect(size: nat, ghost data: Data) returns (addr: nat, alloc: nat)
      requires Valid() && size == AllocSize(|data|) && RoomFor(|data|)
      modifies this`free, this`taken, env`device
      ensures size <= alloc <= size + SMALLEST_CHUNK_SIZE &&
        Placed(live, old(env.View()), old(taken), addr, Blob(alloc, data), None)
      ensures |env.device| <= |old(env.device)| + size + env.ps
    {
      hide CacheOk, ViewOf, Stored, AllStored, Books;
      ghost var v0, f0, t0 := env.View(), free, taken;
      DeviceShape(env.cache, env.device, env.ps);
      NoWrap(|data|);
      var aligned := Aligned32(size, env.ps);
      PageStart(size + env.ps - 1, env.ps);
      addr := Grow(aligned);
      ChunkMultiple(addr, env.ps);
      ChunkMultiple(aligned, env.ps);
      var diff := aligned - size;
      if diff > SMALLEST_CHUNK_SIZE {
        alloc := size;
        free := free + Range(addr + size, diff);
      } else {
        alloc := aligned;
        assert free + Range(addr + aligned, 0) == free;
      }
      TakeNew(live, f0, t0, addr, Blob(alloc, data), aligned);
      taken := taken + Range(addr, aligned);
    }

    /** The part of blob_allocate that finds the space: from the freelist, from a new page, or directly
        from the device. */
    method Place(size: nat, misses: bool, ghost data: Data)
      returns (addr: nat, alloc: nat, page: Option<nat>, fresh': bool)
      requires Valid() && size == AllocSize(|data|) && RoomFor(|data|)
      modifies this`free, this`taken, env`device, env`cache
      ensures size <= alloc <= size + SMALLEST_CHUNK_SIZE &&
        Placed(live, old(env.View()), old(taken), addr, Blob(alloc, data), page)
      ensures !misses && HasArea(old(free), size) ==>
        |env.device| == |old(env.device)| && taken == old(taken) && free == old(free) - Range(addr, size)
      ensures |env.device| <= |old(env.device)| + size + env.ps
    {
      hide CacheOk, ViewOf, Stored, AllStored, Books;
      NoWrap(|data|);
      page, fresh', alloc := None, false, size;
      ghost var v0, f0, t0 := env.View(), free, taken;
      var area := FreelistAlloc(size, misses);
      if area.Some? {
        addr := area.value;
        NotLive(live, f0, t0, addr, size);
        TakeFree(live, f0, t0, addr, Blob(alloc, data));
        InsideFree(live, f0, t0, addr, size);
        assert v0[..|v0|] == v0;
      } else if env.FromCache(size) {
        addr, page := PlaceInPage(size, data);
      } else {
        addr, alloc := PlaceDirect(size, data);
        fresh' := true;
      }
    }

    /** Zeros for a gap of a partial write, at most a page at a time. */
    method WriteGap(page: Option<nat>, addr0: nat, gap0: nat, atEnd: bool, fresh': bool) returns (addr: nat)
      requires env.Valid() && addr0 + gap0 <= |env.device| && (page.Some? ==> page.value in env.cache)
      modifies env`cache, env`device
      ensures env.Valid() && |env.device| == |old(env.device)| &&
        env.View() == Splice(old(env.View()), addr0, Zeros(gap0)) && addr == addr0 + gap0
      ensures old(env.cache).Keys <= env.cache.Keys
    {
      hide CacheOk, ViewOf, Splice, Zeros;
      addr := addr0;
      var gap := gap0;
      ghost var v0 := env.View();
      ZerosEmpty(v0, addr0);
      DeviceShape(env.cache, env.device, env.ps);
      while if atEnd then gap > env.ps else gap >= env.ps
        invariant env.Valid() && |env.device| == |old(env.device)| && old(env.cache).Keys <= env.cache.Keys
        invariant 0 <= gap <= gap0 && addr == addr0 + (gap0 - gap) && env.View() == Splice(v0, addr0, Zeros(gap0 - gap))
        decreases gap
      {
        OneChunk(Zeros(env.ps));
        env.WriteChunks(page, addr, [Zeros(env.ps)], fresh');
        MoreZeros(v0, addr0, gap0 - gap, env.ps);
        gap := gap - env.ps;
        addr := addr + env.ps;
      }
      if gap != 0 {
        OneChunk(Zeros(gap));
        env.WriteChunks(page, addr, [Zeros(gap)], fresh');
        MoreZeros(v0, addr0, gap0 - gap, gap);
        addr := addr + gap;
      }
    }

    /** The part of blob_allocate that writes header and record. */
    method WriteBlob(page: Option<nat>, addr0: nat, hdr: Data, size: nat, partial0: bool, offset: nat, part: Data,
                     fresh': bool)
      requires env.Valid() && offset + |part| <= size && (!partial0 ==> offset == 0 && |part| == size)
      requires addr0 + |hdr| + size <= |env.device| && (page.Some? ==> page.value in env.cache)
      modifies env`cache, env`device
      ensures env.Valid() && |env.device| == |old(env.device)| &&
        env.View() == Splice(old(env.View()), addr0, hdr + Padded(size, offset, part))
    {
      hide CacheOk, ViewOf, Splice, Zeros;
      ghost var v0 := env.View();
      var addr, partial := addr0, partial0;
      if partial && offset == 0 && offset + |part| == size {
        partial := false;
      }
      if partial && offset != 0 {
        OneChunk(hdr);
        env.WriteChunks(page, addr, [hdr], fresh');
        addr := addr + |hdr|;
        addr := WriteGap(page, addr, offset, false, fresh');
        OneChunk(part);
        env.WriteChunks(page, addr, [part], fresh');
        addr := addr + |part|;
        SpliceTwice(v0, addr0, hdr, Zeros(offset));
        SpliceTwice(v0, addr0, hdr + Zeros(offset), part);
      } else {
        TwoChunks(hdr, part);
        env.WriteChunks(page, addr, [hdr, part], fresh');
        addr := addr + |hdr| + |part|;
        NoZeros(hdr, part, offset);
      }
      ghost var done := hdr + Zeros(offset) + part;
      if partial && offset + |part| < size {
        addr := WriteGap(page, addr, size - (offset + |part|), true, fresh');
        SpliceTwice(v0, addr0, done, Zeros(size - offset - |part|));
      } else {
        NoTail(done, size - offset - |part|);
      }
      PaddedIs(hdr, size, offset, part);
    }

    /** blob_allocate: a new blob with the record, everything else as before. */
    method Allocate(size: nat, partial: bool, offset: nat, part: Data, misses: bool) returns (id: nat)
      requires Valid() && offset + |part| <= size && (!partial ==> offset == 0 && |part| == size) && RoomFor(size)
      modifies this`free, this`taken, this`live, env`device, env`cache
      ensures Valid() && id !in old(live) && live.Keys == old(live).Keys + {id}
      ensures live[id].data == Padded(size, offset, part) && forall a :: a in old(live) ==> live[a] == old(live)[a]
      ensures AllocSize(size) <= live[id].alloc <= AllocSize(size) + SMALLEST_CHUNK_SIZE
      ensures live[id].alloc == AllocSize(size) || live[id].alloc == AllocSize(size) + 32
      ensures old(taken) <= taken && forall x :: x in taken && x !in old(taken) ==> |old(env.device)| <= x
      ensures !misses && HasArea(old(free), AllocSize(size)) ==>
        |env.device| == |old(env.device)| && taken == old(taken) && free == old(free) - Range(id, AllocSize(size))
      ensures id != 0 && |env.device| <= |old(env.device)| + AllocSize(size) + env.ps
    {
      hide CacheOk, ViewOf, Splice, Zeros, Books, Header, Stored, Padded, AllocSize32;
      ghost var v0, l0 := env.View(), live;
      ghost var data := Padded(size, offset, part);
      var alloc, page, fresh';
      NoWrap(size);
      id, alloc, page, fresh' := Place(AllocSize32(size), misses, data);
      ghost var b := Blob(alloc, data);
      ghost var v1 := env.View();
      KeptByGrowth(v0, v1, l0);
      WriteBlob(page, id, Header(id, alloc, size, 0), size, partial, offset, part, fresh');
      NewBlob(v1, l0, free, taken, id, b);
      live := live[id := b];
      StartTaken(live, free, taken, id);
      Sized(live, free, taken, id);
      ChunkSteps(alloc, AllocSize(size));
    }

    /** The writes of blob_overwrite in place: header and record, or header and window. */
    method WriteOver(page: Option<nat>, a: nat, hdr: Data, partial: bool, offset: nat, part: Data)
      requires env.Valid() && (!partial ==> offset == 0) && a + |hdr| + offset + |part| <= |env.device| &&
        (page.Some? ==> page.value in env.cache)
      modifies env`cache, env`device
      ensures env.Valid() && |env.device| == |old(env.device)|
      ensures env.View() == Splice(Splice(old(env.View()), a, hdr), a + |hdr| + offset, part)
    {
      hide CacheOk, ViewOf, Splice;
      if partial && offset != 0 {
        OneChunk(hdr);
        env.WriteChunks(page, a, [hdr], false);
        OneChunk(part);
        env.WriteChunks(page, a + |hdr| + offset, [part], false);
      } else {
        TwoChunks(hdr, part);
        SpliceTwice(env.View(), a, hdr, part);
        env.WriteChunks(page, a, [hdr, part], false);
      }
    }

    /** blob_overwrite. In place if the space suffices: a partial write then keeps the rest of the old
        record. Otherwise a new blob, in which the rest of a partial write is zero. */
    method Overwrite(id: nat, size: nat, partial0: bool, offset: nat, part: Data, misses: bool) returns (id': nat)
      requires Valid() && id in live && offset + |part| <= size && (!partial0 ==> offset == 0 && |part| == size)
      requires RoomFor(size)
      modifies this`free, this`taken, this`live, env`device, env`cache
      ensures Valid() && live.Keys == old(live).Keys - {id} + {id'} && (id' == id || id' !in old(live))
      ensures id' == id <==> AllocSize(size) <= old(live)[id].alloc
      ensures AllocSize(size) <= live[id'].alloc <= AllocSize(size) + SMALLEST_CHUNK_SIZE
      ensures id' == id ==>
        live[id].alloc == if old(live)[id].alloc <= AllocSize(size) + 32 then old(live)[id].alloc else AllocSize(size)
      ensures id + old(live)[id].alloc <= |old(env.View())|
      ensures Overwritten(old(live)[id].data, old(Space(env.View(), id, live[id].alloc)), size, offset, part,
          live[id'].data, id' == id)
      ensures id' == id ==>
        Rewritten(old(Space(env.View(), id, live[id].alloc)), Space(env.View(), id, live[id].alloc), offset, part)
      ensures forall a :: a in old(live) && a != id ==> live[a] == old(live)[a]
      ensures id' != 0 && |env.device| <= |old(env.device)| + AllocSize(size) + env.ps
    {
      hide CacheOk, ViewOf, Splice, Books, Header, Stored, Overwritten, Rewritten, Space, Decode, AllocSize32,
        AllStored, AllocSize;
      var partial := partial0 && !(offset == 0 && offset + |part| == size);
      NoWrap(size);
      var alloc := AllocSize32(size);
      LiveInside(env.View(), live, id);
      var hdr, page := env.ReadChunk(None, id, BLOB_HEADER);
      LiveHeader(env.View(), live, id, hdr);
      LiveSpace(env.View(), live, free, taken, id);
      StartTaken(live, free, taken, id);
      var old' := Decode(hdr[8..16]);
      if alloc <= old' {
        ChunkSteps(old', alloc);
        ghost var v0 := env.View();
        var keep := if old' - alloc > SMALLEST_CHUNK_SIZE then alloc else old';
        var new' := Header(id, keep, size, Decode(hdr[24..28]));
        WriteOver(page, id, new', partial, offset, part);
        ghost var b := OverBlob(v0, env.View(), live, free, taken, id, keep, size, new', offset, part);
        if old' != keep {
          free := free + Range(id + keep, old' - keep);
        } else {
          assert free + Range(id + keep, 0) == free;
        }
        live := live[id := b];
        id' := id;
      } else {
        ghost var l0 := live;
        id' := Allocate(size, partial, offset, part, misses);
        Release(live, free, taken, id);
        NewData(l0[id].data, old(Space(env.View(), id, live[id].alloc)), size, offset, part);
        AllStoredMinus(env.View(), live, id);
        free := free + Range(id, old');
        live := live - {id};
      }
    }

    /** A freed blob leaves room for a record that is no longer, without a larger file. */
    lemma FreedIsReused(id: nat, n: nat)
      requires Valid() && id in live && n <= |live[id].data|
      ensures HasArea(free + Range(id, live[id].alloc), AllocSize(n))
    {
      hide Stored, AllStored, AllocSize;
      assert BlobOk(id, live[id]);
      FitsIn(id, n);
      var f := free + Range(id, live[id].alloc);
      assert 0 < live[id].alloc && id in f && Range(id, AllocSize(n)) <= f;
    }

    /** blob_free: the blob is gone and its space free. */
    method Free(id: nat) returns (ok: bool)
      requires Valid() && id in live
      modifies this`free, this`live, env`cache
      ensures Valid() && ok && live == old(live) - {id} && free == old(free) + Range(id, old(live)[id].alloc)
    {
      hide CacheOk, ViewOf, Books, Header, Stored;
      LiveInside(env.View(), live, id);
      var hdr, page := env.ReadChunk(None, id, BLOB_HEADER);
      LiveHeader(env.View(), live, id, hdr);
      Release(live, free, taken, id);
      ok := Decode(hdr[0..8]) == id;
      free := free + Range(id, Decode(hdr[8..16]));
      live := live - {id};
    }
  }

  /** The bytes of a blob's space behind its header. */
  ghost function Space(v: Data, a: nat, alloc: nat): Data {
    if BLOB_HEADER <= alloc && a + alloc <= |v| then v[a + BLOB_HEADER..a + alloc] else []
  }

  /** What a record is after an overwrite, given the record and the space it was in. In place, everything
      outside the window is what stood in the space: the old record and behind it whatever was there, so
      that a gap behind the old record is zero only where the space was. In a new blob it is zero. */
  ghost predicate Overwritten(old': Data, space: Data, size: nat, offset: nat, part: Data, new': Data, inPlace: bool) {
    && offset + |part| <= size == |new'| && old' <= space
    && new'[offset..offset + |part|] == part
    && (inPlace ==> size <= |space| && forall k :: 0 <= k < size && !(offset <= k < offset + |part|) ==>
        new'[k] == space[k])
    && (!inPlace ==> forall k :: 0 <= k < size && !(offset <= k < offset + |part|) ==> new'[k] == 0)
  }

  /** The space of a blob after an overwrite in place: outside the window it is what it was, also behind
      the end of the record. */
  ghost predicate Rewritten(old': Data, new': Data, offset: nat, part: Data) {
    && offset + |part| <= |new'| <= |old'| && new'[offset..offset + |part|] == part
    && forall k :: 0 <= k < |new'| && !(offset <= k < offset + |part|) ==> new'[k] == old'[k]
  }

  lemma NewData(old': Data, space: Data, size: nat, offset: nat, part: Data)
    requires offset + |part| <= size && old' <= space
    ensures Overwritten(old', space, size, offset, part, Padded(size, offset, part), false)
  {
    var p := Padded(size, offset, part);
    assert p[offset..offset + |part|] == part;
  }

  lemma AllStoredMinus(v: Data, live: Blobs, a: nat)
    requires AllStored(v, live)
    ensures AllStored(v, live - {a})
  {
  }

  lemma LiveSpace(v: Data, live: Blobs, free: set<nat>, taken: set<nat>, id: nat)
    requires AllStored(v, live) && Books(live, free, taken) && id in live
    ensures BlobOk(id, live[id]) && id + live[id].alloc <= |v| && live[id].data <= Space(v, id, live[id].alloc)
  {
    hide Header;
    assert Stored(v, id, live[id]);
    var h, n := id + BLOB_HEADER, |live[id].data|;
    assert v[h..id + live[id].alloc][..n] == v[h..h + n];
  }

  /** After the writes of an overwrite in place, all blobs are stored and the books can be kept. */
  lemma OverBlob(v: Data, w: Data, live: Blobs, free: set<nat>, taken: set<nat>, a: nat, keep: nat, size: nat,
                 hdr: Data, offset: nat, part: Data)
    returns (b: Blob)
    requires AllStored(v, live) && Books(live, free, taken) && a in live && BlobOk(a, live[a]) &&
      a + live[a].alloc <= |v|
    requires hdr == Header(a, keep, size, 0) && BLOB_HEADER + size <= keep <= live[a].alloc &&
      keep % DB_CHUNKSIZE == 0 && offset + |part| <= size
    requires w == Splice(Splice(v, a, hdr), a + |hdr| + offset, part)
    ensures b.alloc == keep && Overwritten(live[a].data, Space(v, a, live[a].alloc), size, offset, part, b.data, true)
    ensures Rewritten(Space(v, a, live[a].alloc), Space(w, a, keep), offset, part)
    ensures AllStored(w, live[a := b]) && Books(live[a := b], free + Range(a + keep, live[a].alloc - keep), taken)
  {
    hide Header, Books, Overwritten, Rewritten, Splice;
    var h := a + BLOB_HEADER;
    b := Blob(keep, w[h..h + size]);
    OverBytes(v, w, a, hdr, offset, part);
    assert Stored(v, a, live[a]);
    OverStored(w, a, hdr, b);
    LiveSpace(v, live, free, taken, a);
    OverData(v, w, h, live[a].data, Space(v, a, live[a].alloc), size, offset, part, b.data);
    OverSpace(v, w, h, a + keep, a + live[a].alloc, offset, part);
    Resize(live, free, taken, a, b);
    forall y | y in live && y != a ensures Stored(w, y, live[y]) {
      Apart(live, free, taken, a, y);
      StoredKeep(v, w, y, live[y]);
    }
  }

  ghost function OverAt(v: Data, a: nat, hdr: Data, offset: nat, part: Data, x: nat): Byte
    requires a + |hdr| + offset + |part| <= |v| && x < |v|
  {
    var w := a + |hdr| + offset;
    if a <= x < a + |hdr| then hdr[x - a] else if w <= x < w + |part| then part[x - w] else v[x]
  }

  lemma OverBytes(v: Data, w: Data, a: nat, hdr: Data, offset: nat, part: Data)
    requires a + |hdr| + offset + |part| <= |v| && w == Splice(Splice(v, a, hdr), a + |hdr| + offset, part)
    ensures |w| == |v|
    ensures forall x :: 0 <= x < |v| ==> w[x] == OverAt(v, a, hdr, offset, part, x)
  {
    var u := Splice(v, a, hdr);
    forall x | 0 <= x < |v| ensures w[x] == OverAt(v, a, hdr, offset, part, x) {
      SpliceAt(v, a, hdr, x);
      SpliceAt(u, a + |hdr| + offset, part, x);
    }
  }

  lemma OverStored(w: Data, a: nat, hdr: Data, b: Blob)
    requires a + b.alloc <= |w| && BLOB_HEADER + |b.data| <= b.alloc && hdr == Header(a, b.alloc, |b.data|, 0)
    requires (forall x :: a <= x < a + |hdr| ==> w[x] == hdr[x - a]) &&
      b.data == w[a + BLOB_HEADER..a + BLOB_HEADER + |b.data|]
    ensures Stored(w, a, b)
  {
    hide Header;
    assert w[a..a + BLOB_HEADER] == hdr;
  }

  lemma OverData(v: Data, w: Data, h: nat, old': Data, space: Data, size: nat, offset: nat, part: Data, new': Data)
    requires |w| == |v| && h + |space| <= |v| && v[h..h + |space|] == space && old' <= space &&
      offset + |part| <= size <= |space|
    requires new' == w[h..h + size]
    requires forall x :: h <= x < h + size ==>
      w[x] == if h + offset <= x < h + offset + |part| then part[x - (h + offset)] else v[x]
    ensures Overwritten(old', space, size, offset, part, new', true)
  {
    forall k | 0 <= k < size ensures new'[k] == if offset <= k < offset + |part| then part[k - offset] else space[k] {
      assert new'[k] == w[h + k] && space[k] == v[h + k];
    }
    assert new'[offset..offset + |part|] == part;
  }

  lemma OverSpace(v: Data, w: Data, h: nat, end': nat, end: nat, offset: nat, part: Data)
    requires h + offset + |part| <= end' <= end <= |v| == |w|
    requires forall x :: h <= x < end ==>
      w[x] == if h + offset <= x < h + offset + |part| then part[x - (h + offset)] else v[x]
    ensures Rewritten(v[h..end], w[h..end'], offset, part)
  {
    var new' := w[h..end'];
    forall k | 0 <= k < |new'|
      ensures new'[k] == if offset <= k < offset + |part| then part[k - offset] else v[h..end][k] {
      assert new'[k] == w[h + k] && v[h..end][k] == v[h + k];
    }
    assert new'[offset..offset + |part|] == part;
  }

  lemma ZerosEmpty(v: Data, a: nat)
    requires a <= |v|
    ensures Splice(v, a, Zeros(0)) == v
  {
  }

  lemma MoreZeros(v: Data, a: nat, n: nat, m: nat)
    requires a + n + m <= |v|
    ensures Splice(Splice(v, a, Zeros(n)), a + n, Zeros(m)) == Splice(v, a, Zeros(n + m))
  {
    SpliceTwice(v, a, Zeros(n), Zeros(m));
    assert Zeros(n) + Zeros(m) == Zeros(n + m);
  }

  lemma OneChunk(d: Data)
    ensures Concat([d]) == d
  {
    assert [d][..0] == [];
  }

  lemma TwoChunks(d: Data, e: Data)
    ensures Concat([d, e]) == d + e
  {
    assert [d, e][..1] == [d];
    OneChunk(d);
  }

  lemma NoZeros(hdr: Data, part: Data, offset: nat)
    ensures offset == 0 ==> hdr + part == hdr + Zeros(offset) + part
  {
    if offset == 0 { assert hdr + Zeros(0) == hdr; }
  }

  lemma NoTail(d: Data, n: nat)
    ensures n == 0 ==> d + Zeros(n) == d
  {
  }

  lemma PaddedIs(hdr: Data, size: nat, offset: nat, part: Data)
    requires offset + |part| <= size
    ensures hdr + Zeros(offset) + part + Zeros(size - offset - |part|) == hdr + Padded(size, offset, part)
  {
    hide Zeros;
    var z := Zeros(size - offset - |part|);
    assert hdr + Zeros(offset) + part + z == hdr + (Zeros(offset) + part + z);
  }

  lemma KeptByGrowth(v: Data, w: Data, live: Blobs)
    requires AllStored(v, live) && |v| <= |w| && w[..|v|] == v
    ensures AllStored(w, live)
  {
    hide Header;
    forall a | a in live ensures Stored(w, a, live[a]) {
      forall x | a <= x < a + live[a].alloc ensures w[x] == v[x] { assert w[..|v|][x] == w[x]; }
      StoredKeep(v, w, a, live[a]);
    }
  }

  lemma NewBlob(v: Data, live: Blobs, free: set<nat>, taken: set<nat>, a: nat, b: Blob)
    requires AllStored(v, live) && Books(live[a := b], free, taken) && a !in live && a + b.alloc <= |v|
    ensures BLOB_HEADER + |b.data| <= b.alloc &&
      AllStored(Splice(v, a, Header(a, b.alloc, |b.data|, 0) + b.data), live[a := b])
  {
    hide Header, Stored, Splice;
    assert BlobOk(a, live[a := b][a]);
    OthersKeep(v, live, free, taken, a, b, Header(a, b.alloc, |b.data|, 0) + b.data);
    StoredNew(v, a, b);
  }

  lemma Sized(live: Blobs, free: set<nat>, taken: set<nat>, id: nat)
    requires Books(live, free, taken) && id in live
    ensures |live[id].data| < U32 && live[id].alloc < U32 && live[id].alloc % DB_CHUNKSIZE == 0
  {
    assert BlobOk(id, live[id]);
  }

  lemma LiveInside(v: Data, live: Blobs, id: nat)
    requires AllStored(v, live) && id in live
    ensures id + BLOB_HEADER <= |v|
  {
    hide Header;
    assert Stored(v, id, live[id]);
  }

  lemma NotLive(live: Blobs, free: set<nat>, taken: set<nat>, a: nat, n: nat)
    requires Books(live, free, taken) && Range(a, n) <= free && n > 0
    ensures a !in live
  {
    if a in live {
      assert BlobOk(a, live[a]);
      assert Owns(live, a, a);
      assert a in Range(a, n) && Owned(live, a);
    }
  }

  lemma InsideFree(live: Blobs, free: set<nat>, taken: set<nat>, a: nat, n: nat)
    requires Books(live, free, taken) && Range(a, n) <= free && n > 0
    ensures a + n - 1 in taken
  {
    assert a + n - 1 in Range(a, n);
  }

  lemma SelfMultiple(ps: nat)
    requires ps > 0
    ensures ps % ps == 0
  {
    ModUnique(ps, ps, 1, 0);
  }

  /** Page boundaries are chunk boundaries. */
  lemma ChunkMultiple(a: nat, ps: nat)
    requires ps > 0 && ps % DB_CHUNKSIZE == 0 && a % ps == 0
    ensures a % DB_CHUNKSIZE == 0
  {
    var k, m := a / ps, ps / DB_CHUNKSIZE;
    assert a == k * ps && ps == m * DB_CHUNKSIZE;
    assert k * (m * DB_CHUNKSIZE) == (k * m) * DB_CHUNKSIZE;
    ModUnique(a, DB_CHUNKSIZE, k * m, 0);
  }

  lemma LiveData(v: Data, live: Blobs, id: nat, offset: nat, n: nat)
    requires AllStored(v, live) && id in live && offset + n <= |live[id].data|
    ensures id + BLOB_HEADER + offset + n <= |v| &&
      v[id + BLOB_HEADER + offset..id + BLOB_HEADER + offset + n] == live[id].data[offset..offset + n]
  {
    hide Header;
    assert Stored(v, id, live[id]);
    SliceSlice(v, id + BLOB_HEADER, |live[id].data|, offset, n);
  }

  lemma SliceSlice(v: Data, a: nat, m: nat, o: nat, n: nat)
    requires a + m <= |v| && o + n <= m
    ensures v[a..a + m][o..o + n] == v[a + o..a + o + n]
  {
    var s, t := v[a..a + m][o..o + n], v[a + o..a + o + n];
    forall k | 0 <= k < n ensures s[k] == t[k] { assert s[k] == v[a..a + m][o + k]; }
  }

  lemma LiveHeader(v: Data, live: Blobs, id: nat, hdr: Data)
    requires AllStored(v, live) && id in live && |v| < U64 && id + BLOB_HEADER <= |v| && hdr == v[id..id + BLOB_HEADER]
    ensures Decode(hdr[0..8]) == id && Decode(hdr[8..16]) == live[id].alloc &&
      Decode(hdr[16..24]) == |live[id].data| && Decode(hdr[24..28]) == 0
    ensures Stored(v, id, live[id])
  {
    hide Header;
    assert Stored(v, id, live[id]);
    HeaderFields(id, live[id].alloc, |live[id].data|, 0);
  }
}
