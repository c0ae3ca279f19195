/** Who owns which byte of the space taken for blobs (src/blob.cc, src/freelist.h). */
module BlobBooks {
  import opened Bytes

  const BLOB_HEADER: nat := 28
  const DB_CHUNKSIZE: nat := 32
  const SMALLEST_CHUNK_SIZE: nat := 8 + BLOB_HEADER + 1

  /** A live blob: the space it holds and its record. */
  datatype Blob = Blob(alloc: nat, data: Data)

  type Blobs = map<nat, Blob>

  ghost predicate Owns(live: Blobs, a: nat, x: nat) { a in live && a <= x < a + live[a].alloc }

  ghost predicate BlobOk(a: nat, b: Blob) {
    a % DB_CHUNKSIZE == 0 && b.alloc % DB_CHUNKSIZE == 0 && BLOB_HEADER + |b.data| <= b.alloc < U32
  }

  ghost predicate Owned(live: Blobs, x: nat) { exists a :: Owns(live, a, x) }

  /** Blobs are aligned, large enough and pairwise disjoint; what was taken from the device is exactly
      what they own and what is free, and nothing is both. */
  ghost predicate Books(live: Blobs, free: set<nat>, taken: set<nat>) {
    && (forall a :: a in live ==> BlobOk(a, live[a]))
    && (forall a, b, x :: Owns(live, a, x) && Owns(live, b, x) ==> a == b)
    && (forall x :: x in taken <==> x in free || Owned(live, x))
    && (forall x :: x in free ==> !Owned(live, x))
  }

  /** The byte addresses of an area. */
  function Range(a: nat, n: nat): (r: set<nat>)
    ensures forall x :: x in r <==> a <= x < a + n
  {
    if n == 0 then {} else Range(a, n - 1) + {a + n - 1}
  }

  /** The size a record takes, with its header, in whole chunks. */
  function AllocSize(size: nat): (r: nat)
    ensures BLOB_HEADER + size <= r < BLOB_HEADER + size + DB_CHUNKSIZE && r % DB_CHUNKSIZE == 0
  {
    var s := BLOB_HEADER + size + DB_CHUNKSIZE - 1;
    s - s % DB_CHUNKSIZE
  }

  // ------------------------------------------------------------------------------ 32-bit sizes

  /** AllocSize as the source computes it, in 32 bits. */
  function AllocSize32(size: nat): nat {
    var s := ((BLOB_HEADER + size) % U32 + DB_CHUNKSIZE - 1) % U32;
    s - s % DB_CHUNKSIZE
  }

  /** It is right exactly if nothing wraps around; else there is room for a few bytes only. */
  lemma AllocFits(size: nat)
    requires size < U32
    ensures AllocSize32(size) == AllocSize(size) <==> BLOB_HEADER + size + DB_CHUNKSIZE - 1 < U32
    ensures AllocSize32(size) != AllocSize(size) ==> AllocSize32(size) <= DB_CHUNKSIZE < BLOB_HEADER + size
  {
    var n := BLOB_HEADER + size;
    if n >= U32 {
      Wraps(n);
      assert (n % U32 + DB_CHUNKSIZE - 1) % U32 == n - U32 + DB_CHUNKSIZE - 1;
    } else if n + DB_CHUNKSIZE - 1 >= U32 {
      Wraps(n + DB_CHUNKSIZE - 1);
    }
  }

  lemma Wraps(n: nat)
    requires U32 <= n < 2 * U32
    ensures n % U32 == n - U32
  {
  }

  /** A size rounded up to whole pages as the source does it, in 32 bits. */
  function Aligned32(alloc: nat, ps: nat): nat
    requires 0 < ps
  {
    var s := (alloc + ps - 1) % U32;
    s - s % ps
  }

  /** It holds the size exactly if nothing wraps around; else it is zero. */
  lemma AlignedFits(alloc: nat, ps: nat)
    requires 0 < ps <= U32 && 0 < alloc < U32
    ensures alloc + ps - 1 < U32 <==> alloc <= Aligned32(alloc, ps)
    ensures alloc + ps - 1 >= U32 ==> Aligned32(alloc, ps) == 0
  {
    var s := alloc + ps - 1;
    if s >= U32 {
      Wraps(s);
      Remainder(s - U32, ps);
    } else {
      Remainder(s, ps);
    }
  }

  lemma Remainder(s: nat, ps: nat)
    requires 0 < ps
    ensures s % ps < ps && (s < ps ==> s % ps == s)
  {
  }

  // ------------------------------------------------------------------------------ entries in the books

  /** Nothing smaller would do. */
  lemma AllocLeast(n: nat, a: nat)
    requires a % DB_CHUNKSIZE == 0 && BLOB_HEADER + n <= a
    ensures AllocSize(n) <= a
  {
    var q, p := AllocSize(n) / DB_CHUNKSIZE, a / DB_CHUNKSIZE;
    assert a == p * DB_CHUNKSIZE && AllocSize(n) == q * DB_CHUNKSIZE;
  }

  /** Between whole chunks, 37 bytes and one chunk are the same bound. */
  lemma ChunkSteps(a: nat, b: nat)
    requires a % DB_CHUNKSIZE == 0 && b % DB_CHUNKSIZE == 0 && b <= a
    ensures a - b <= SMALLEST_CHUNK_SIZE <==> a == b || a == b + 32
    ensures a - b <= SMALLEST_CHUNK_SIZE <==> a <= b + 32
  {
    var q, p := a / DB_CHUNKSIZE, b / DB_CHUNKSIZE;
    assert a == q * DB_CHUNKSIZE && b == p * DB_CHUNKSIZE;
  }

  lemma OwnsOther(live: Blobs, a: nat, b: Blob, y: nat, x: nat)
    requires y != a
    ensures Owns(live[a := b], y, x) <==> Owns(live, y, x)
  {
  }

  /** A blob takes a free area. */
  lemma TakeFree(live: Blobs, free: set<nat>, taken: set<nat>, a: nat, b: Blob)
    requires Books(live, free, taken) && BlobOk(a, b) && Range(a, b.alloc) <= free && a !in live
    ensures Books(live[a := b], free - Range(a, b.alloc), taken)
  {
    var l, f := live[a := b], free - Range(a, b.alloc);
    forall x ensures Owns(l, a, x) <==> x in Range(a, b.alloc) {}
    forall y, z, x | Owns(l, y, x) && Owns(l, z, x) ensures y == z {
      if y != a && z != a { OwnsOther(live, a, b, y, x); OwnsOther(live, a, b, z, x); }
      if y == a && z != a { OwnsOther(live, a, b, z, x); assert x in free && Owned(live, x); }
      if y != a && z == a { OwnsOther(live, a, b, y, x); assert x in free && Owned(live, x); }
    }
    forall x ensures Owned(l, x) <==> Owned(live, x) || x in Range(a, b.alloc) { OwnedPlus(live, a, b, x); }
  }

  lemma OwnedPlus(live: Blobs, a: nat, b: Blob, x: nat)
    requires a !in live
    ensures Owned(live[a := b], x) <==> Owned(live, x) || a <= x < a + b.alloc
  {
    var l := live[a := b];
    if Owned(live, x) { var y :| Owns(live, y, x); assert Owns(l, y, x); }
    if Owned(l, x) { var y :| Owns(l, y, x); assert y != a ==> Owns(live, y, x); }
    if a <= x < a + b.alloc { assert Owns(l, a, x); }
  }

  lemma OwnedMinus(live: Blobs, a: nat, x: nat)
    requires a in live && forall y, z, w :: Owns(live, y, w) && Owns(live, z, w) ==> y == z
    ensures Owned(live - {a}, x) <==> Owned(live, x) && !(a <= x < a + live[a].alloc)
  {
    var l := live - {a};
    if Owned(l, x) {
      var y :| Owns(l, y, x);
      assert Owns(live, y, x);
      assert Owns(live, a, x) ==> y == a;
    }
    if Owned(live, x) && !(a <= x < a + live[a].alloc) { var y :| Owns(live, y, x); assert Owns(l, y, x); }
  }

  /** New space from the device: the blob and a free rest. */
  lemma TakeNew(live: Blobs, free: set<nat>, taken: set<nat>, a: nat, b: Blob, total: nat)
    requires Books(live, free, taken) && BlobOk(a, b) && b.alloc <= total && (forall x :: x in taken ==> x < a)
    ensures a !in live && Books(live[a := b], free + Range(a + b.alloc, total - b.alloc), taken + Range(a, total))
  {
    assert a !in live by { if a in live { assert Owns(live, a, a); assert Owned(live, a); } }
    var f, t := free + Range(a, b.alloc), taken + Range(a, b.alloc);
    forall x ensures x in Range(a, b.alloc) ==> !Owned(live, x) {}
    assert Books(live, f, t);
    TakeFree(live, f, t, a, b);
    var l := live[a := b];
    var R := Range(a + b.alloc, total - b.alloc);
    assert f - Range(a, b.alloc) == free by { forall x | x in free ensures x !in Range(a, b.alloc) {} }
    forall x | x in R ensures !Owned(l, x) { OwnedPlus(live, a, b, x); }
    assert t + R == taken + Range(a, total);
  }

  /** A freed blob's space becomes free. */
  lemma Release(live: Blobs, free: set<nat>, taken: set<nat>, a: nat)
    requires Books(live, free, taken) && a in live
    ensures Books(live - {a}, free + Range(a, live[a].alloc), taken)
  {
    var l := live - {a};
    forall x: nat ensures Owned(l, x) <==> Owned(live, x) && !(a <= x < a + live[a].alloc) { OwnedMinus(live, a, x); }
    forall x ensures a <= x < a + live[a].alloc ==> Owned(live, x) {
      assert a <= x < a + live[a].alloc ==> Owns(live, a, x);
    }
    forall y, z, x | Owns(l, y, x) && Owns(l, z, x) ensures y == z { assert Owns(live, y, x) && Owns(live, z, x); }
  }

  /** A blob changes its record and may give back the end of its space. */
  lemma Resize(live: Blobs, free: set<nat>, taken: set<nat>, a: nat, b: Blob)
    requires Books(live, free, taken) && a in live && BlobOk(a, b) && b.alloc <= live[a].alloc
    ensures Books(live[a := b], free + Range(a + b.alloc, live[a].alloc - b.alloc), taken)
  {
    Release(live, free, taken, a);
    var l, f := live - {a}, free + Range(a, live[a].alloc);
    TakeFree(l, f, taken, a, b);
    assert l[a := b] == live[a := b];
    assert f - Range(a, b.alloc) == free + Range(a + b.alloc, live[a].alloc - b.alloc) by {
      forall x | x in free ensures x !in Range(a, b.alloc) {
        if a <= x < a + b.alloc { assert Owns(live, a, x); assert Owned(live, x); }
      }
    }
  }

  /** Blobs never overlap as byte ranges. */
  lemma Apart(live: Blobs, free: set<nat>, taken: set<nat>, a: nat, b: nat)
    requires Books(live, free, taken) && a in live && b in live && a != b
    ensures a + live[a].alloc <= b || b + live[b].alloc <= a
  {
    var x := if a < b then b else a;
    assert BlobOk(a, live[a]) && BlobOk(b, live[b]);
    assert Owns(live, a, x) && Owns(live, b, x) ==> a == b;
  }

  /** A blob starts in space that was taken. */
  lemma StartTaken(live: Blobs, free: set<nat>, taken: set<nat>, a: nat)
    requires Books(live, free, taken) && a in live
    ensures a in taken
  {
    assert Owns(live, a, a);
  }
}
