/** Records and duplicate tables as blobs: the bytes of a table (src/blob.h dupe_table_t) and what the
    blob store keeps of them. */
module RecordHeap {
  import opened Bytes
  import BlobBooks
  import BlobStore

  /** KEY_BLOB_SIZE_TINY, _SMALL, _EMPTY, or none of them. */
  datatype SizeFlag = Tiny | Small | Empty | Big

  /** The pointer of a key or of a duplicate: up to eight bytes of record, or a blob id. */
  datatype Cell = Cell(size: SizeFlag, rid: nat)

  /** What a blob holds. */
  datatype Payload = Rec(data: Data) | Table(capacity: nat, entries: seq<Cell>)

  type Blobs = map<nat, Payload>

  // ------------------------------------------------------------------------------ the bytes of a table

  const ENTRY_BYTES: nat := 16

  const TABLE_HEADER: nat := 8

  function FlagByte(f: SizeFlag): Byte {
    match f case Tiny => 1 case Small => 2 case Empty => 4 case Big => 0
  }

  function FlagOf(b: Byte): SizeFlag {
    if b == 1 then Tiny else if b == 2 then Small else if b == 4 then Empty else Big
  }

  /** dupe_entry_t: seven bytes of padding, the flags, the pointer. */
  function CellBytes(c: Cell): (r: Data)
    ensures |r| == ENTRY_BYTES
  {
    Zeros(7) + [FlagByte(c.size)] + Encode(c.rid, 8)
  }

  function CellAt(d: Data, x: nat): Cell
    requires x + ENTRY_BYTES <= |d|
  {
    Cell(FlagOf(d[x + 7]), Decode(d[x + 8..x + 16]))
  }

  function CellsBytes(E: seq<Cell>): (r: Data)
    ensures |r| == |E| * ENTRY_BYTES
  {
    if E == [] then [] else CellsBytes(E[..|E| - 1]) + CellBytes(E[|E| - 1])
  }

  /** The first `n` entries of a table. */
  function CellsIn(d: Data, n: nat): (r: seq<Cell>)
    requires TABLE_HEADER + n * ENTRY_BYTES <= |d|
    ensures |r| == n
  {
    if n == 0 then [] else CellsIn(d, n - 1) + [CellAt(d, TABLE_HEADER + (n - 1) * ENTRY_BYTES)]
  }

  function TableSize(capacity: nat): nat { TABLE_HEADER + capacity * ENTRY_BYTES }

  /** The size of a table in 32 bits, as the source computes it, is right exactly below 2^28 slots. */
  lemma TableFits(capacity: nat)
    ensures TableSize(capacity) % U32 == TableSize(capacity) <==> capacity < 0x1000_0000
  {
  }

  /** dupe_table_t: count, capacity, the entries and unused ones. */
  function TableBytes(capacity: nat, E: seq<Cell>): (r: Data)
    requires |E| <= capacity
    ensures |r| == TableSize(capacity)
  {
    Encode(|E|, 4) + Encode(capacity, 4) + CellsBytes(E) + Zeros((capacity - |E|) * ENTRY_BYTES)
  }

  ghost predicate PayloadOk(p: Payload) {
    p.Table? ==> |p.entries| <= p.capacity < U32 && forall i :: 0 <= i < |p.entries| ==> p.entries[i].rid < U64
  }

  function BytesOf(p: Payload): Data
    requires PayloadOk(p)
  {
    match p case Rec(data) => data case Table(capacity, E) => TableBytes(capacity, E)
  }

  function SizeOf(p: Payload): nat { match p case Rec(data) => |data| case Table(capacity, _) => TableSize(capacity) }

  lemma CellReads(c: Cell, d: Data, x: nat)
    requires c.rid < U64 && x + ENTRY_BYTES <= |d| && d[x..x + ENTRY_BYTES] == CellBytes(c)
    ensures CellAt(d, x) == c
  {
    var b := CellBytes(c);
    Widths();
    DecodeEncode(c.rid, 8);
    assert d[x..x + ENTRY_BYTES][7] == d[x + 7] && b[7] == FlagByte(c.size);
    assert d[x + 8..x + 16] == d[x..x + ENTRY_BYTES][8..16] == b[8..16] == Encode(c.rid, 8);
  }

  lemma CutAt(d: Data, a: nat, b: nat, c: nat, left: Data, right: Data)
    requires a <= b <= c <= |d| && d[a..c] == left + right && |left| == b - a
    ensures d[a..b] == left && d[b..c] == right
  {
    assert d[a..b] == d[a..c][..b - a] && d[b..c] == d[a..c][b - a..];
  }

  /** The entries of a table read back. */
  lemma {:induction false} CellsRead(E: seq<Cell>, d: Data)
    requires (forall i :: 0 <= i < |E| ==> E[i].rid < U64) && TABLE_HEADER + |E| * ENTRY_BYTES <= |d|
    requires d[TABLE_HEADER..TABLE_HEADER + |E| * ENTRY_BYTES] == CellsBytes(E)
    ensures CellsIn(d, |E|) == E
  {
    hide CellBytes, CellAt;
    if E != [] {
      var n := |E| - 1;
      var x := TABLE_HEADER + n * ENTRY_BYTES;
      CutAt(d, TABLE_HEADER, x, x + ENTRY_BYTES, CellsBytes(E[..n]), CellBytes(E[n]));
      CellsRead(E[..n], d);
      CellReads(E[n], d, x);
      assert E == E[..n] + [E[n]];
    }
  }

  /** A table reads back. */
  lemma TableReads(capacity: nat, E: seq<Cell>)
    requires PayloadOk(Table(capacity, E))
    ensures var d := TableBytes(capacity, E);
      && Decode(d[0..4]) == |E| && Decode(d[4..8]) == capacity && TABLE_HEADER + |E| * ENTRY_BYTES <= |d| &&
        CellsIn(d, |E|) == E
  {
    var d := TableBytes(capacity, E);
    Widths();
    DecodeEncode(|E|, 4);
    DecodeEncode(capacity, 4);
    assert d[0..4] == Encode(|E|, 4) && d[4..8] == Encode(capacity, 4);
    assert d[TABLE_HEADER..TABLE_HEADER + |E| * ENTRY_BYTES] == CellsBytes(E);
    CellsRead(E, d);
  }

  // ------------------------------------------------------------------------------ the heap

  /** The blob store as the records see it. */
  class Heap {
    const store: BlobStore.Store
    ghost var blobs: Blobs

    ghost predicate Valid()
      reads this, store, store.env
    {
      && store.Valid() && blobs.Keys == store.live.Keys
      && forall r :: r in blobs ==> Kept(r)
    }

    ghost predicate Kept(r: nat)
      requires r in blobs && blobs.Keys == store.live.Keys
      reads this, store
    {
      r != 0 && r < U64 && PayloadOk(blobs[r]) && store.live[r].data == BytesOf(blobs[r]) && Sized(SizeOf(blobs[r]))
    }

    lemma KeptAt(r: nat)
      requires Valid() && r in blobs
      ensures 0 < r < U64 && PayloadOk(blobs[r]) && Sized(SizeOf(blobs[r]))
    {
      assert Kept(r);
    }

    /** A blob of `n` bytes has a size in 32 bits. */
    ghost predicate Sized(n: nat)
      reads store
    {
      Need(n) <= U32
    }

    /** There is room in the file for `n` bytes more. */
    ghost predicate Room(n: nat)
      reads store, store.env
    {
      |store.env.device| + n < U64
    }

    constructor (store: BlobStore.Store)
      requires store.Valid() && store.live == map[]
      ensures Valid() && this.store == store && blobs == map[]
    {
      this.store, blobs := store, map[];
    }

    /** What an allocation of `n` bytes takes from the file at most. */
    function Need(n: nat): nat
      reads store
    {
      BlobBooks.AllocSize(n) + store.env.ps
    }

    /** blob_allocate */
    method Allocate(p: Payload, misses: bool) returns (rid: nat)
      requires Valid() && PayloadOk(p) && Sized(SizeOf(p)) && Room(Need(SizeOf(p)))
      modifies this, store, store.env
      ensures Valid() && rid !in old(blobs) && blobs == old(blobs)[rid := p]
      ensures |store.env.device| <= |old(store.env.device)| + Need(SizeOf(p))
    {
      hide BlobStore.Store.Valid, TableBytes, PayloadOk;
      ghost var b0, live0 := blobs, store.live;
      SizeIs(p);
      Whole(BytesOf(p));
      assert SizeOf(p) < U32;
      rid := store.Allocate(SizeOf(p) % U32, false, 0, BytesOf(p), misses);
      store.InFile(rid);
      blobs := blobs[rid := p];
      forall r | r in blobs ensures Kept(r) { if r != rid { assert r in b0 && store.live[r] == live0[r]; } }
    }

    /** blob_free */
    method Free(rid: nat)
      requires Valid() && rid in blobs
      modifies this, store, store.env`cache
      ensures Valid() && blobs == old(blobs) - {rid}
    {
      hide BlobStore.Store.Valid, TableBytes, PayloadOk;
      ghost var b0, live0 := blobs, store.live;
      var ok := store.Free(rid);
      blobs := blobs - {rid};
      forall r | r in blobs ensures Kept(r) { assert r in b0 && store.live[r] == live0[r]; }
    }

    /** blob_overwrite of a whole record: in place, or as a new blob. */
    method Overwrite(rid0: nat, p: Payload, misses: bool) returns (rid: nat)
      requires Valid() && PayloadOk(p) && rid0 in blobs && Sized(SizeOf(p)) && Room(Need(SizeOf(p)))
      modifies this, store, store.env
      ensures Valid() && (rid == rid0 || rid !in old(blobs)) && blobs == (old(blobs) - {rid0})[rid := p]
      ensures SizeOf(p) <= old(SizeOf(blobs[rid0])) ==> rid == rid0
      ensures |store.env.device| <= |old(store.env.device)| + Need(SizeOf(p))
    {
      hide BlobStore.Store.Valid, TableBytes, PayloadOk;
      ghost var b0, live0 := blobs, store.live;
      SizeIs(p);
      assert Kept(rid0);
      SizeIs(blobs[rid0]);
      if SizeOf(p) <= SizeOf(blobs[rid0]) { store.FitsIn(rid0, SizeOf(p)); }
      assert SizeOf(p) < U32;
      rid := store.Overwrite(rid0, SizeOf(p) % U32, false, 0, BytesOf(p), misses);
      store.InFile(rid);
      WholeOver(store.live[rid].data, BytesOf(p));
      blobs := (blobs - {rid0})[rid := p];
      forall r | r in blobs ensures Kept(r) {
        if r != rid { assert r in b0 && r != rid0 && store.live[r] == live0[r]; }
      }
    }

    /** blob_read */
    method ReadBlob(rid: nat) returns (data: Data)
      requires Valid() && rid in blobs
      modifies store.env`cache
      ensures Valid() && data == BytesOf(blobs[rid])
    {
      hide BlobStore.Store.Valid, TableBytes, PayloadOk;
      store.InFile(rid);
      var st;
      st, data := store.Read(rid, false, 0, 0);
      assert Kept(rid);
    }

    /** The duplicate table of a key. */
    method ReadTable(rid: nat) returns (capacity: nat, E: seq<Cell>)
      requires Valid() && rid in blobs && blobs[rid].Table?
      modifies store.env`cache
      ensures Valid() && blobs[rid] == Table(capacity, E)
    {
      hide BlobStore.Store.Valid, TableBytes, PayloadOk, Decode, CellsIn;
      assert Kept(rid);
      TableReads(blobs[rid].capacity, blobs[rid].entries);
      var d := ReadBlob(rid);
      capacity := Decode(d[4..8]);
      E := CellsIn(d, Decode(d[0..4]));
    }
  }

  lemma SizeIs(p: Payload)
    requires PayloadOk(p)
    ensures |BytesOf(p)| == SizeOf(p)
  {
  }

  lemma Whole(d: Data)
    ensures BlobStore.Padded(|d|, 0, d) == d
  {
  }

  lemma WholeOver(new': Data, d: Data)
    requires |new'| == |d| && new'[0..0 + |d|] == d
    ensures new' == d
  {
  }
}
