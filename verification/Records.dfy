/** How a key's record, or list of duplicate records, is encoded in its flags and pointer
    (src/btree_key.cc, src/btree.cc btree_read_record, src/blob.cc blob_duplicate_insert/erase). */
module Records {
  import opened Collections
  import opened Bytes
  import opened RecordHeap
  import DupeOrder

  // ------------------------------------------------------------------------------ one record

  /** A record of at most eight bytes; the last byte of a tiny one is its size. */
  function Inline(data: Data): Cell
    requires |data| <= 8
  {
    if |data| == 0 then Cell(Empty, 0)
    else if |data| < 8 then Cell(Tiny, Decode(data + Zeros(7 - |data|) + [|data|]))
    else Cell(Small, Decode(data))
  }

  ghost predicate CellOk(c: Cell, blobs: Blobs) {
    && c.rid < U64
    && match c.size
       case Tiny => 1 <= Encode(c.rid, 8)[7] <= 7
       case Small => true
       case Empty => true
       case Big => c.rid != 0 && c.rid in blobs && blobs[c.rid].Rec?
  }

  /** The record a cell stands for. */
  ghost function ReadCell(c: Cell, blobs: Blobs): Data
    requires CellOk(c, blobs)
  {
    match c.size
    case Tiny => Encode(c.rid, 8)[..Encode(c.rid, 8)[7]]
    case Small => Encode(c.rid, 8)
    case Empty => []
    case Big => blobs[c.rid].data
  }

  lemma InlineReads(data: Data, blobs: Blobs)
    requires |data| <= 8
    ensures CellOk(Inline(data), blobs) && ReadCell(Inline(data), blobs) == data && !Inline(data).size.Big?
  {
    Widths();
    if 0 < |data| < 8 {
      var s := data + Zeros(7 - |data|) + [|data|];
      EncodeDecode(s);
      assert s[..|data|] == data;
    } else if |data| == 8 {
      EncodeDecode(data);
    }
  }

  // ------------------------------------------------------------------------------ a key

  /** `dupes` is KEY_HAS_DUPLICATES. */
  datatype KeyRef = KeyRef(size: SizeFlag, dupes: bool, ptr: nat) {
    function AsCell(): Cell { Cell(size, ptr) }
    predicate HasRecord() { dupes || !size.Big? || ptr != 0 }
  }

  ghost predicate EntriesOk(E: seq<Cell>, blobs: Blobs) {
    && (forall i :: 0 <= i < |E| ==> CellOk(E[i], blobs))
    && (forall i, j :: 0 <= i < j < |E| && E[i].size.Big? && E[j].size.Big? ==> E[i].rid != E[j].rid)
  }

  ghost predicate KeyOk(k: KeyRef, blobs: Blobs) {
    if k.dupes then
      && k.size.Big? && k.ptr != 0 && k.ptr in blobs && blobs[k.ptr].Table?
      && 1 <= |blobs[k.ptr].entries| < blobs[k.ptr].capacity
      && EntriesOk(blobs[k.ptr].entries, blobs)
    else k.HasRecord() ==> CellOk(k.AsCell(), blobs)
  }

  ghost function ReadAll(E: seq<Cell>, blobs: Blobs): (r: seq<Data>)
    requires forall i :: 0 <= i < |E| ==> CellOk(E[i], blobs)
    ensures |r| == |E| && forall i :: 0 <= i < |E| ==> r[i] == ReadCell(E[i], blobs)
  {
    seq(|E|, i requires 0 <= i < |E| => ReadCell(E[i], blobs))
  }

  /** The records of a key, in the order of its duplicates. */
  ghost function RecordsOf(k: KeyRef, blobs: Blobs): seq<Data>
    requires KeyOk(k, blobs)
  {
    if k.dupes then ReadAll(blobs[k.ptr].entries, blobs)
    else if k.HasRecord() then [ReadCell(k.AsCell(), blobs)] else []
  }

  ghost function BigRids(E: seq<Cell>): set<nat> { set i | 0 <= i < |E| && E[i].size.Big? :: E[i].rid }

  /** The blobs the key reaches. */
  ghost function Reach(k: KeyRef, blobs: Blobs): set<nat>
    requires KeyOk(k, blobs)
  {
    if k.dupes then {k.ptr} + BigRids(blobs[k.ptr].entries) else if k.size.Big? && k.ptr != 0 then {k.ptr} else {}
  }

  /** Blobs of other keys are neither lost nor freed nor changed, and none is left over. */
  ghost predicate NoLeak(blobs: Blobs, k: KeyRef, blobs': Blobs, k': KeyRef) {
    && KeyOk(k, blobs) && KeyOk(k', blobs')
    && blobs.Keys - Reach(k, blobs) == blobs'.Keys - Reach(k', blobs')
    && forall r :: r in blobs && r !in Reach(k, blobs) ==> r in blobs' && blobs'[r] == blobs[r]
  }

  // ------------------------------------------------------------------------------ frames

  /** A cell whose blob did not change reads the same. */
  lemma CellKeep(c: Cell, blobs: Blobs, blobs': Blobs)
    requires CellOk(c, blobs) && (c.size.Big? ==> c.rid in blobs' && blobs'[c.rid] == blobs[c.rid])
    ensures CellOk(c, blobs') && ReadCell(c, blobs') == ReadCell(c, blobs)
  {
  }

  ghost predicate SameBlobs(blobs: Blobs, blobs': Blobs, rids: set<nat>) {
    forall r :: r in rids && r in blobs ==> r in blobs' && blobs'[r] == blobs[r]
  }

  lemma BigIn(E: seq<Cell>, i: nat)
    requires i < |E| && E[i].size.Big?
    ensures E[i].rid in BigRids(E)
  {
  }

  lemma EntriesKeep(E: seq<Cell>, blobs: Blobs, blobs': Blobs)
    requires EntriesOk(E, blobs) && SameBlobs(blobs, blobs', BigRids(E))
    ensures EntriesOk(E, blobs') && ReadAll(E, blobs') == ReadAll(E, blobs)
  {
    forall i | 0 <= i < |E| ensures CellOk(E[i], blobs') && ReadCell(E[i], blobs') == ReadCell(E[i], blobs) {
      if E[i].size.Big? { BigIn(E, i); }
      CellKeep(E[i], blobs, blobs');
    }
  }

  // ------------------------------------------------------------------------------ tables

  lemma InsertEntry(E: seq<Cell>, blobs: Blobs, pos: nat, c: Cell)
    requires EntriesOk(E, blobs) && CellOk(c, blobs) && pos <= |E| && (c.size.Big? ==> c.rid !in BigRids(E))
    ensures EntriesOk(InsertAt(E, pos, c), blobs)
    ensures ReadAll(InsertAt(E, pos, c), blobs) == InsertAt(ReadAll(E, blobs), pos, ReadCell(c, blobs))
    ensures BigRids(InsertAt(E, pos, c)) == BigRids(E) + (if c.size.Big? then {c.rid} else {})
  {
    var F := InsertAt(E, pos, c);
    forall i, j | 0 <= i < j < |F| && F[i].size.Big? && F[j].size.Big? ensures F[i].rid != F[j].rid {
      var x, y := if i < pos then i else i - 1, if j < pos then j else j - 1;
      if i == pos { BigIn(E, y); } else if j == pos { BigIn(E, x); } else { assert F[i] == E[x] && F[j] == E[y]; }
    }
    forall i | 0 <= i < |F| ensures CellOk(F[i], blobs) {}
    InsertRids(E, pos, c);
  }

  lemma InsertRids(E: seq<Cell>, pos: nat, c: Cell)
    requires pos <= |E|
    ensures BigRids(InsertAt(E, pos, c)) == BigRids(E) + (if c.size.Big? then {c.rid} else {})
  {
    var F := InsertAt(E, pos, c);
    forall r | r in BigRids(E) ensures r in BigRids(F) {
      var i :| 0 <= i < |E| && E[i].size.Big? && E[i].rid == r;
      BigIn(F, if i < pos then i else i + 1);
    }
    if c.size.Big? { BigIn(F, pos); }
    forall r | r in BigRids(F) ensures r in BigRids(E) || (c.size.Big? && r == c.rid) {
      var i :| 0 <= i < |F| && F[i].size.Big? && F[i].rid == r;
      if i != pos { BigIn(E, if i < pos then i else i - 1); }
    }
  }

  lemma RemoveEntry(E: seq<Cell>, blobs: Blobs, pos: nat)
    requires EntriesOk(E, blobs) && pos < |E|
    ensures EntriesOk(RemoveAt(E, pos), blobs)
    ensures ReadAll(RemoveAt(E, pos), blobs) == RemoveAt(ReadAll(E, blobs), pos)
    ensures BigRids(RemoveAt(E, pos)) == BigRids(E) - (if E[pos].size.Big? then {E[pos].rid} else {})
  {
    var F := RemoveAt(E, pos);
    forall i, j | 0 <= i < j < |F| && F[i].size.Big? && F[j].size.Big? ensures F[i].rid != F[j].rid {
      assert F[i] == E[if i < pos then i else i + 1] && F[j] == E[if j < pos then j else j + 1];
    }
    forall i | 0 <= i < |F| ensures CellOk(F[i], blobs) {}
    forall r | r in BigRids(F) ensures r in BigRids(E) && !(E[pos].size.Big? && r == E[pos].rid) {
      var i :| 0 <= i < |F| && F[i].size.Big? && F[i].rid == r;
      var x := if i < pos then i else i + 1;
      BigIn(E, x);
      assert F[i] == E[x];
      assert E[pos].size.Big? ==> E[pos].rid != E[x].rid;
    }
    forall r | r in BigRids(E) && !(E[pos].size.Big? && r == E[pos].rid) ensures r in BigRids(F) {
      var i :| 0 <= i < |E| && E[i].size.Big? && E[i].rid == r;
      BigIn(F, if i < pos then i else i - 1);
    }
  }

  // ------------------------------------------------------------------------------ writing

  /** btree_read_record */
  method ReadRecord(heap: Heap, c: Cell) returns (data: Data)
    requires heap.Valid() && CellOk(c, heap.blobs)
    modifies heap.store.env`cache
    ensures heap.Valid() && data == ReadCell(c, heap.blobs)
  {
    match c.size {
      case Tiny => data := Encode(c.rid, 8)[..Encode(c.rid, 8)[7]];
      case Small => data := Encode(c.rid, 8);
      case Empty => data := [];
      case Big => data := heap.ReadBlob(c.rid);
    }
  }

  /** All records of a table. */
  method ReadRecords(heap: Heap, E: seq<Cell>) returns (R: seq<Data>)
    requires heap.Valid() && EntriesOk(E, heap.blobs)
    modifies heap.store.env`cache
    ensures heap.Valid() && R == ReadAll(E, heap.blobs)
  {
    hide CellOk, ReadCell, Heap.Valid;
    R := [];
    for i := 0 to |E|
      invariant heap.Valid() && |R| == i && EntriesOk(E, heap.blobs) && forall x :: 0 <= x < i ==>
        R[x] == ReadCell(E[x], heap.blobs)
    {
      var r := ReadRecord(heap, E[i]);
      R := R + [r];
    }
  }

  /** The new record as a cell: inline, or a new blob. */
  method NewCell(heap: Heap, data: Data, misses: bool) returns (c: Cell)
    requires heap.Valid() && heap.Sized(|data|) && heap.Room(heap.Need(|data|))
    modifies heap, heap.store, heap.store.env
    ensures heap.Valid() && |heap.store.env.device| <= |old(heap.store.env.device)| + heap.Need(|data|)
    ensures CellOk(c, heap.blobs) && ReadCell(c, heap.blobs) == data && (c.size.Big? <==> |data| > 8)
    ensures c.size.Big? ==> c.rid !in old(heap.blobs) && heap.blobs == old(heap.blobs)[c.rid := Rec(data)]
    ensures !c.size.Big? ==> heap.blobs == old(heap.blobs)
  {
    hide Heap.Valid;
    if |data| <= 8 {
      InlineReads(data, heap.blobs);
      c := Inline(data);
    } else {
      var rid := heap.Allocate(Rec(data), misses);
      heap.KeptAt(rid);
      c := Cell(Big, rid);
    }
  }

  /** key_set_record for a key without duplicates, and no duplicate asked for. */
  method SetSingle(heap: Heap, key: KeyRef, data: Data, misses: bool) returns (key': KeyRef)
    requires heap.Valid() && heap.Sized(|data|) && heap.Room(heap.Need(|data|)) && KeyOk(key, heap.blobs) && !key.dupes
    modifies heap, heap.store, heap.store.env
    ensures heap.Valid() && KeyOk(key', heap.blobs) && RecordsOf(key', heap.blobs) == [data]
    ensures NoLeak(old(heap.blobs), key, heap.blobs, key')
  {
    hide Heap.Valid, Encode, Decode;
    if !key.HasRecord() || (|data| > 8 && !key.size.Big?) {
      var c := NewCell(heap, data, misses);
      key' := KeyRef(c.size, false, c.rid);
    } else if |data| > 8 {
      var rid := heap.Overwrite(key.ptr, Rec(data), misses);
      heap.KeptAt(rid);
      key' := KeyRef(Big, false, rid);
    } else {
      if key.size.Big? {
        heap.Free(key.ptr);
      }
      InlineReads(data, heap.blobs);
      var c := Inline(data);
      key' := KeyRef(c.size, false, c.rid);
    }
  }

  datatype Place = Before | After | First | Last

  /** The entries of a key's duplicate table, or of the table it would start with. */
  ghost function EntriesOf(key: KeyRef, blobs: Blobs): seq<Cell>
    requires KeyOk(key, blobs) && key.HasRecord()
  {
    if key.dupes then blobs[key.ptr].entries else [key.AsCell()]
  }

  ghost function CapacityOf(key: KeyRef, blobs: Blobs): nat
    requires KeyOk(key, blobs) && key.HasRecord()
  {
    if key.dupes then blobs[key.ptr].capacity else 8
  }

  lemma EntriesRead(key: KeyRef, blobs: Blobs)
    requires KeyOk(key, blobs) && key.HasRecord()
    ensures EntriesOk(EntriesOf(key, blobs), blobs) && ReadAll(EntriesOf(key, blobs), blobs) == RecordsOf(key, blobs)
    ensures 1 <= |EntriesOf(key, blobs)| < CapacityOf(key, blobs)
    ensures BigRids(EntriesOf(key, blobs)) <= blobs.Keys
    ensures Reach(key, blobs) == BigRids(EntriesOf(key, blobs)) + (if key.dupes then {key.ptr} else {})
    ensures key.dupes ==> key.ptr !in BigRids(EntriesOf(key, blobs))
  {
    if !key.dupes {
      var c := key.AsCell();
      if c.size.Big? { BigIn([c], 0); }
    }
  }

  /** The table grows before it is full. */
  function Grown(capacity: nat, count: nat): (r: nat)
    requires 1 <= count < capacity
    ensures count + 1 < r && r >= capacity && (count + 1 < capacity ==> r == capacity)
    ensures count + 1 == capacity < 24 ==> r == capacity + 8
    ensures count + 1 == capacity >= 24 ==> 3 * r <= 4 * capacity < 3 * r + 3
  {
    if count + 1 < capacity then capacity else if capacity < 24 then capacity + 8 else capacity + capacity / 3
  }

  lemma SmallerTable(capacity: nat, count: nat)
    requires 1 <= count < capacity
    ensures TableSize(capacity) <= TableSize(Grown(capacity, count))
  {
  }

  function Ranks(R: seq<Data>, rank: Data -> real): (r: seq<real>)
    ensures |r| == |R| && forall i :: 0 <= i < |R| ==> r[i] == rank(R[i])
  {
    seq(|R|, i requires 0 <= i < |R| => rank(R[i]))
  }

  lemma RanksInsert(R: seq<Data>, at: nat, data: Data, rank: Data -> real)
    requires at <= |R|
    ensures Ranks(InsertAt(R, at, data), rank) == InsertAt(Ranks(R, rank), at, rank(data))
  {
  }

  /** Where blob_duplicate_insert puts a record that is not sorted in. */
  function PlaceOf(place: Place, position: nat, count: nat): (p: nat)
    requires place.Before? ==> position <= count
    ensures p <= count
  {
    match place
    case Before => position
    case After => if position + 1 > count then count else position + 1
    case First => 0
    case Last => count
  }

  /** The table of a key, or the one it starts with. */
  method LoadTable(heap: Heap, key: KeyRef) returns (capacity: nat, E: seq<Cell>)
    requires heap.Valid() && KeyOk(key, heap.blobs) && key.HasRecord()
    modifies heap.store.env`cache
    ensures heap.Valid() && E == EntriesOf(key, heap.blobs) && capacity == CapacityOf(key, heap.blobs)
    ensures !key.dupes ==> capacity == 8 && |E| == 1
  {
    if key.dupes {
      capacity, E := heap.ReadTable(key.ptr);
    } else {
      capacity, E := 8, [key.AsCell()];
    }
  }

  /** The capacity of the table after one more record. */
  ghost function NextCapacity(key: KeyRef, blobs: Blobs): nat
    requires KeyOk(key, blobs) && key.HasRecord()
  {
    EntriesRead(key, blobs);
    Grown(CapacityOf(key, blobs), |EntriesOf(key, blobs)|)
  }

  /** The table after the change: a new blob for a new table; otherwise it is overwritten, which happens in
      place unless it grew out of its space. */
  method WriteTable(heap: Heap, key: KeyRef, table: Payload, misses: bool) returns (rid: nat)
    requires heap.Valid() && PayloadOk(table) && heap.Sized(SizeOf(table)) && heap.Room(heap.Need(SizeOf(table))) &&
      (key.dupes ==> key.ptr in heap.blobs)
    modifies heap, heap.store, heap.store.env
    ensures heap.Valid() && rid != 0 && rid < U64 && (rid !in old(heap.blobs) || (key.dupes && rid == key.ptr))
    ensures heap.blobs == (old(heap.blobs) - (if key.dupes then {key.ptr} else {}))[rid := table]
    ensures key.dupes && SizeOf(table) <= SizeOf(old(heap.blobs)[key.ptr]) ==> rid == key.ptr
  {
    hide Heap.Valid, PayloadOk;
    if !key.dupes {
      rid := heap.Allocate(table, misses);
      assert old(heap.blobs) - {} == old(heap.blobs);
    } else {
      rid := heap.Overwrite(key.ptr, table, misses);
    }
    heap.KeptAt(rid);
  }

  lemma TableOk(E: seq<Cell>, blobs: Blobs, capacity: nat)
    requires EntriesOk(E, blobs) && |E| <= capacity < U32
    ensures PayloadOk(Table(capacity, E))
  {
    forall i | 0 <= i < |E| ensures E[i].rid < U64 { assert CellOk(E[i], blobs); }
  }

  /** key_set_record with a duplicate flag on a key that has a record; blob_duplicate_insert. */
  method AddDuplicate(heap: Heap, key: KeyRef, data: Data, place: Place, position: nat, sorted: bool, sequential: bool,
                      rank: Data -> real, misses: bool)
    returns (key': KeyRef, at: nat)
    requires heap.Valid() && KeyOk(key, heap.blobs) && key.HasRecord()
    requires heap.Sized(|data|) && heap.Sized(TableSize(NextCapacity(key, heap.blobs)))
    requires heap.Room(heap.Need(|data|) + heap.Need(TableSize(NextCapacity(key, heap.blobs))))
    requires sorted ==> DupeOrder.SortedRanks(Ranks(RecordsOf(key, heap.blobs), rank))
    requires !sorted && place.Before? ==> position <= |RecordsOf(key, heap.blobs)|
    modifies heap, heap.store, heap.store.env
    ensures heap.Valid() && KeyOk(key', heap.blobs) && at <= |RecordsOf(key, old(heap.blobs))|
    ensures RecordsOf(key', heap.blobs) == InsertAt(RecordsOf(key, old(heap.blobs)), at, data)
    ensures NoLeak(old(heap.blobs), key, heap.blobs, key')
    ensures !sorted ==> at == PlaceOf(place, position, |RecordsOf(key, old(heap.blobs))|)
    ensures !sorted && place.First? ==>
      RecordsOf(key', heap.blobs) == [data] + RecordsOf(key, old(heap.blobs))
    ensures !sorted && place.Last? ==>
      RecordsOf(key', heap.blobs) == RecordsOf(key, old(heap.blobs)) + [data]
    ensures var R := RecordsOf(key, old(heap.blobs)); !sorted && place.Before? ==>
      RecordsOf(key', heap.blobs) == R[..position] + [data] + R[position..]
    ensures var R := RecordsOf(key, old(heap.blobs)); !sorted && place.After? && position < |R| ==>
      RecordsOf(key', heap.blobs) == R[..position + 1] + [data] + R[position + 1..]
    ensures var R := RecordsOf(key, old(heap.blobs)); !sorted && place.After? && position >= |R| ==>
      RecordsOf(key', heap.blobs) == R + [data]
    ensures sorted ==> (DupeOrder.Fits(Ranks(RecordsOf(key, old(heap.blobs)), rank), rank(data), at)
                        <==> !DupeOrder.BeyondLast(Ranks(RecordsOf(key, old(heap.blobs)), rank), rank(data),
                            sequential))
    ensures sorted ==> (DupeOrder.SortedRanks(Ranks(RecordsOf(key', heap.blobs), rank))
                        <==> !DupeOrder.BeyondLast(Ranks(RecordsOf(key, old(heap.blobs)), rank), rank(data),
                            sequential))
  {
    hide CellOk, EntriesOk, BigRids, ReadCell, Heap.Valid, PayloadOk;
    ghost var blobs0 := heap.blobs;
    EntriesRead(key, blobs0);
    var capacity, E := LoadTable(heap, key);
    if sorted {
      var R := ReadRecords(heap, E);
      var items := Ranks(R, rank);
      at := DupeOrder.SortedPosition(items, rank(data), sequential);
      PositionInside(items, rank(data), sequential, at);
      DupeOrder.SortedExactly(items, rank(data), sequential, at);
      RanksInsert(R, at, data, rank);
    } else {
      at := PlaceOf(place, position, |E|);
    }
    var c := NewCell(heap, data, misses);
    ghost var blobs1 := heap.blobs;
    var table := Table(Grown(capacity, |E|), InsertAt(E, at, c));
    AddedOk(key, blobs0, blobs1, E, at, c, data);
    TableOk(table.entries, blobs1, table.capacity);
    var rid := WriteTable(heap, key, table, misses);
    key' := KeyRef(Big, true, rid);
    Added(key, blobs0, blobs1, heap.blobs, E, at, c, data, table, rid);
    if !sorted { PlaceMeans(RecordsOf(key, blobs0), place, position, data); }
  }

  /** The positions in terms of the records around them. */
  lemma PlaceMeans(R: seq<Data>, place: Place, position: nat, data: Data)
    requires place.Before? ==> position <= |R|
    ensures var new' := InsertAt(R, PlaceOf(place, position, |R|), data);
      && (place.First? ==> new' == [data] + R) && (place.Last? ==> new' == R + [data])
      && (place.Before? ==> new' == R[..position] + [data] + R[position..])
      && (place.After? && position < |R| ==> new' == R[..position + 1] + [data] + R[position + 1..])
      && (place.After? && position >= |R| ==> new' == R + [data])
  {
  }

  lemma AddedOk(key: KeyRef, blobs0: Blobs, blobs1: Blobs, E: seq<Cell>, at: nat, c: Cell, data: Data)
    requires KeyOk(key, blobs0) && key.HasRecord() && E == EntriesOf(key, blobs0) && at <= |E|
    requires CellOk(c, blobs1)
    requires c.size.Big? ==> c.rid !in blobs0 && blobs1 == blobs0[c.rid := Rec(data)]
    requires !c.size.Big? ==> blobs1 == blobs0
    ensures EntriesOk(InsertAt(E, at, c), blobs1)
  {
    hide CellOk, EntriesOk, BigRids, ReadCell;
    EntriesRead(key, blobs0);
    EntriesKeep(E, blobs0, blobs1);
    InsertEntry(E, blobs1, at, c);
  }

  lemma PositionInside(items: seq<real>, x: real, sequential: bool, m: nat)
    requires DupeOrder.Fits(items, x, m) <==> !DupeOrder.BeyondLast(items, x, sequential)
    requires DupeOrder.BeyondLast(items, x, sequential) ==> m == |items| - 1
    ensures m <= |items|
  {
  }

  lemma Added(key: KeyRef, blobs0: Blobs, blobs1: Blobs, blobs2: Blobs, E: seq<Cell>, at: nat, c: Cell, data: Data,
              table: Payload, rid: nat)
    requires KeyOk(key, blobs0) && key.HasRecord() && E == EntriesOf(key, blobs0) && at <= |E|
    requires CellOk(c, blobs1) && ReadCell(c, blobs1) == data
    requires c.size.Big? ==> c.rid !in blobs0 && blobs1 == blobs0[c.rid := Rec(data)]
    requires !c.size.Big? ==> blobs1 == blobs0
    requires table.Table? && table.entries == InsertAt(E, at, c) && |E| + 1 < table.capacity
    requires rid != 0 && rid < U64 && (rid !in blobs1 || (key.dupes && rid == key.ptr)) &&
      blobs2 == (blobs1 - (if key.dupes then {key.ptr} else {}))[rid := table]
    ensures KeyOk(KeyRef(Big, true, rid), blobs2) && NoLeak(blobs0, key, blobs2, KeyRef(Big, true, rid))
    ensures |RecordsOf(key, blobs0)| == |E| &&
      RecordsOf(KeyRef(Big, true, rid), blobs2) == InsertAt(RecordsOf(key, blobs0), at, data)
  {
    hide CellOk, EntriesOk, BigRids, ReadCell;
    EntriesRead(key, blobs0);
    EntriesKeep(E, blobs0, blobs1);
    InsertEntry(E, blobs1, at, c);
    var F := InsertAt(E, at, c);
    BigStays(E, c, key, blobs0, blobs1, blobs2, rid, table);
    EntriesKeep(F, blobs1, blobs2);
  }

  lemma BigStays(E: seq<Cell>, c: Cell, key: KeyRef, blobs0: Blobs, blobs1: Blobs, blobs2: Blobs, rid: nat,
                 table: Payload)
    requires BigRids(E) <= blobs0.Keys && (key.dupes ==> key.ptr in blobs0 && key.ptr !in BigRids(E))
    requires c.size.Big? ==> c.rid !in blobs0 && blobs1.Keys == blobs0.Keys + {c.rid}
    requires !c.size.Big? ==> blobs1 == blobs0
    requires (rid !in blobs1 || (key.dupes && rid == key.ptr)) &&
      blobs2 == (blobs1 - (if key.dupes then {key.ptr} else {}))[rid := table]
    ensures SameBlobs(blobs1, blobs2, BigRids(E) + (if c.size.Big? then {c.rid} else {}))
  {
  }

  lemma UpdateIsRemoveInsert<T>(E: seq<T>, pos: nat, c: T)
    requires pos < |E|
    ensures InsertAt(RemoveAt(E, pos), pos, c) == E[pos := c]
  {
  }

  /** key_set_record with HAM_OVERWRITE on a key with duplicates. */
  method OverwriteDuplicate(heap: Heap, key: KeyRef, data: Data, position: nat, misses: bool) returns (key': KeyRef)
    requires heap.Valid() && KeyOk(key, heap.blobs) && key.dupes && position < |RecordsOf(key, heap.blobs)|
    requires heap.Sized(|data|) && heap.Room(heap.Need(|data|) + heap.Need(TableSize(CapacityOf(key, heap.blobs))))
    modifies heap, heap.store, heap.store.env
    ensures heap.Valid() && KeyOk(key', heap.blobs) && NoLeak(old(heap.blobs), key, heap.blobs, key')
    ensures RecordsOf(key', heap.blobs) == RecordsOf(key, old(heap.blobs))[position := data]
  {
    hide CellOk, EntriesOk, BigRids, ReadCell, PayloadOk, Heap.Valid;
    ghost var blobs0 := heap.blobs;
    EntriesRead(key, blobs0);
    heap.KeptAt(key.ptr);
    var capacity, E := heap.ReadTable(key.ptr);
    CapacityFits(blobs0[key.ptr]);
    var c := NewCell(heap, data, misses);
    ghost var blobs1 := heap.blobs;
    BigCell(E, blobs0, position);
    if E[position].size.Big? {
      heap.Free(E[position].rid);
    }
    ghost var blobs2 := heap.blobs;
    var table := Table(capacity, E[position := c]);
    ReplacedOk(blobs0, blobs1, E, position, c, capacity);
    var rid := WriteTable(heap, key, table, misses);
    key' := KeyRef(Big, true, rid);
    Replaced(key, blobs0, blobs1, blobs2, heap.blobs, E, position, c, data, table, rid);
  }

  lemma CapacityFits(p: Payload)
    requires PayloadOk(p) && p.Table?
    ensures |p.entries| <= p.capacity < U32
  {
  }

  lemma ReplacedOk(blobs0: Blobs, blobs1: Blobs, E: seq<Cell>, at: nat, c: Cell, capacity: nat)
    requires EntriesOk(E, blobs0) && CellOk(c, blobs1) && at < |E| <= capacity < U32
    ensures PayloadOk(Table(capacity, E[at := c]))
  {
    var F := E[at := c];
    forall i | 0 <= i < |F| ensures F[i].rid < U64 { if i != at { assert CellOk(E[i], blobs0); } }
  }

  lemma BigCell(E: seq<Cell>, blobs: Blobs, i: nat)
    requires EntriesOk(E, blobs) && i < |E|
    ensures E[i].size.Big? ==> E[i].rid in blobs && E[i].rid != 0 && blobs[E[i].rid].Rec? && E[i].rid in BigRids(E)
  {
    if E[i].size.Big? { BigIn(E, i); }
  }

  lemma Replaced(key: KeyRef, blobs0: Blobs, blobs1: Blobs, blobs2: Blobs, blobs3: Blobs, E: seq<Cell>, at: nat,
                 c: Cell, data: Data, table: Payload, rid: nat)
    requires KeyOk(key, blobs0) && key.dupes && E == blobs0[key.ptr].entries && at < |E|
    requires CellOk(c, blobs1) && ReadCell(c, blobs1) == data
    requires c.size.Big? ==> c.rid !in blobs0 && blobs1 == blobs0[c.rid := Rec(data)]
    requires !c.size.Big? ==> blobs1 == blobs0
    requires blobs2 == blobs1 - (if E[at].size.Big? then {E[at].rid} else {})
    requires table.Table? && table.entries == E[at := c] && |E| < table.capacity
    requires rid != 0 && rid < U64 && (rid !in blobs2 || rid == key.ptr) && blobs3 == (blobs2 - {key.ptr})[rid := table]
    ensures KeyOk(KeyRef(Big, true, rid), blobs3) && NoLeak(blobs0, key, blobs3, KeyRef(Big, true, rid))
    ensures |RecordsOf(key, blobs0)| == |E| &&
      RecordsOf(KeyRef(Big, true, rid), blobs3) == RecordsOf(key, blobs0)[at := data]
  {
    hide CellOk, EntriesOk, BigRids, ReadCell, ReadAll;
    EntriesRead(key, blobs0);
    BigCell(E, blobs0, at);
    ReplacedEntries(blobs0, blobs1, E, at, c, data);
    EntriesKeep(E[at := c], blobs1, blobs3);
  }

  lemma ReplacedEntries(blobs0: Blobs, blobs1: Blobs, E: seq<Cell>, at: nat, c: Cell, data: Data)
    requires EntriesOk(E, blobs0) && at < |E| && BigRids(E) <= blobs0.Keys
    requires CellOk(c, blobs1) && ReadCell(c, blobs1) == data
    requires c.size.Big? ==> c.rid !in blobs0 && blobs1 == blobs0[c.rid := Rec(data)]
    requires !c.size.Big? ==> blobs1 == blobs0
    ensures EntriesOk(E[at := c], blobs1) && ReadAll(E[at := c], blobs1) == ReadAll(E, blobs0)[at := data]
    ensures BigRids(E[at := c]) ==
      BigRids(E) - (if E[at].size.Big? then {E[at].rid} else {}) + (if c.size.Big? then {c.rid} else {})
  {
    hide CellOk, BigRids, ReadCell, InsertAt, RemoveAt, ReadAll;
    RemoveEntry(E, blobs0, at);
    var F := RemoveAt(E, at);
    UpdateIsRemoveInsert(E, at, c);
    UpdateIsRemoveInsert(ReadAll(E, blobs0), at, data);
    EntriesKeep(F, blobs0, blobs1);
    InsertEntry(F, blobs1, at, c);
  }

  /** key_set_record: the abstract list of records changes as asked, and no blob leaks. */
  method SetRecord(heap: Heap, key: KeyRef, data: Data, duplicate: bool, place: Place, position: nat, sorted: bool,
                   sequential: bool, rank: Data -> real, misses: bool)
    returns (key': KeyRef, at: nat)
    requires heap.Valid() && KeyOk(key, heap.blobs)
    requires heap.Sized(|data|) && (key.HasRecord() ==> heap.Sized(TableSize(NextCapacity(key, heap.blobs))))
    requires heap.Room(heap.Need(|data|) +
        if key.HasRecord() then heap.Need(TableSize(NextCapacity(key, heap.blobs))) else 0)
    requires duplicate && sorted && key.HasRecord() ==> DupeOrder.SortedRanks(Ranks(RecordsOf(key, heap.blobs), rank))
    requires duplicate && !sorted && place.Before? && key.HasRecord() ==> position <= |RecordsOf(key, heap.blobs)|
    requires !duplicate && key.dupes ==> position < |RecordsOf(key, heap.blobs)|
    modifies heap, heap.store, heap.store.env
    ensures heap.Valid() && KeyOk(key', heap.blobs) && NoLeak(old(heap.blobs), key, heap.blobs, key')
    ensures !key.HasRecord() || (!duplicate && !key.dupes) ==> RecordsOf(key', heap.blobs) == [data]
    ensures !duplicate && key.dupes ==> RecordsOf(key', heap.blobs) == RecordsOf(key, old(heap.blobs))[position := data]
    ensures duplicate && key.HasRecord() ==> at <= |RecordsOf(key, old(heap.blobs))|
    ensures duplicate && key.HasRecord() ==>
      RecordsOf(key', heap.blobs) == InsertAt(RecordsOf(key, old(heap.blobs)), at, data)
    ensures duplicate && key.HasRecord() && !sorted ==>
      at == PlaceOf(place, position, |RecordsOf(key, old(heap.blobs))|)
    ensures duplicate && key.HasRecord() && !sorted && place.First? ==>
      RecordsOf(key', heap.blobs) == [data] + RecordsOf(key, old(heap.blobs))
    ensures duplicate && key.HasRecord() && !sorted && place.Last? ==>
      RecordsOf(key', heap.blobs) == RecordsOf(key, old(heap.blobs)) + [data]
    ensures var R := RecordsOf(key, old(heap.blobs)); duplicate && key.HasRecord() && !sorted && place.Before? ==>
      RecordsOf(key', heap.blobs) == R[..position] + [data] + R[position..]
    ensures var R := RecordsOf(key, old(heap.blobs));
      duplicate && key.HasRecord() && !sorted && place.After? && position < |R| ==>
      RecordsOf(key', heap.blobs) == R[..position + 1] + [data] + R[position + 1..]
    ensures var R := RecordsOf(key, old(heap.blobs));
      duplicate && key.HasRecord() && !sorted && place.After? && position >= |R| ==>
      RecordsOf(key', heap.blobs) == R + [data]
    ensures duplicate && key.HasRecord() && sorted ==>
      (DupeOrder.Fits(Ranks(RecordsOf(key, old(heap.blobs)), rank), rank(data), at)
       <==> !DupeOrder.BeyondLast(Ranks(RecordsOf(key, old(heap.blobs)), rank), rank(data), sequential))
    ensures duplicate && key.HasRecord() && sorted ==>
      (DupeOrder.SortedRanks(Ranks(RecordsOf(key', heap.blobs), rank))
       <==> !DupeOrder.BeyondLast(Ranks(RecordsOf(key, old(heap.blobs)), rank), rank(data), sequential))
  {
    hide CellOk, EntriesOk, BigRids, ReadCell, NoLeak, Heap.Valid;
    at := 0;
    if !key.HasRecord() || (!duplicate && !key.dupes) {
      key' := SetSingle(heap, key, data, misses);
    } else if duplicate {
      key', at := AddDuplicate(heap, key, data, place, position, sorted, sequential, rank, misses);
    } else {
      SmallerTable(CapacityOf(key, heap.blobs), |EntriesOf(key, heap.blobs)|);
      key' := OverwriteDuplicate(heap, key, data, position, misses);
    }
  }

  // ------------------------------------------------------------------------------ erasing

  /** Frees the blobs of the first `n` entries. */
  ghost function Freed(blobs: Blobs, E: seq<Cell>, n: nat): Blobs
    requires n <= |E|
  {
    blobs - BigRids(E[..n])
  }

  method FreeEntries(heap: Heap, E: seq<Cell>)
    requires heap.Valid() && EntriesOk(E, heap.blobs)
    modifies heap, heap.store, heap.store.env`cache
    ensures heap.Valid() && heap.blobs == old(heap.blobs) - BigRids(E)
  {
    hide CellOk, EntriesOk, BigRids, Heap.Valid;
    ghost var blobs := heap.blobs;
    NoRids(E);
    assert blobs - {} == blobs;
    for i := 0 to |E|
      invariant heap.Valid() && heap.blobs == Freed(blobs, E, i)
    {
      RidsStep(E, blobs, i);
      if E[i].size.Big? {
        heap.Free(E[i].rid);
      }
    }
    assert E[..|E|] == E;
  }

  lemma NoRids(E: seq<Cell>)
    ensures BigRids(E[..0]) == {}
  {
  }

  lemma RidsStep(E: seq<Cell>, blobs: Blobs, i: nat)
    requires EntriesOk(E, blobs) && i < |E|
    ensures BigRids(E[..i + 1]) == BigRids(E[..i]) + (if E[i].size.Big? then {E[i].rid} else {})
    ensures E[i].size.Big? ==> E[i].rid in Freed(blobs, E, i)
  {
    var F, G := E[..i], E[..i + 1];
    forall r | r in BigRids(F) ensures r in BigRids(G) {
      var x :| 0 <= x < |F| && F[x].size.Big? && F[x].rid == r;
      BigIn(G, x);
    }
    if E[i].size.Big? { BigIn(G, i); }
    forall r | r in BigRids(G) ensures r in BigRids(F) || (E[i].size.Big? && r == E[i].rid) {
      var x :| 0 <= x < |G| && G[x].size.Big? && G[x].rid == r;
      if x < i { BigIn(F, x); }
    }
  }

  /** key_erase_record: the duplicate, or all records, are gone, and exactly their blobs are freed. */
  method EraseRecord(heap: Heap, key: KeyRef, dupeId: nat, all: bool, misses: bool) returns (key': KeyRef)
    requires heap.Valid() && KeyOk(key, heap.blobs) && key.HasRecord()
    requires key.dupes ==> heap.Room(heap.Need(TableSize(CapacityOf(key, heap.blobs))))
    requires (key.dupes && !all ==> dupeId < |RecordsOf(key, heap.blobs)|)
    modifies heap, heap.store, heap.store.env
    ensures heap.Valid() && KeyOk(key', heap.blobs) && NoLeak(old(heap.blobs), key, heap.blobs, key')
    ensures RecordsOf(key', heap.blobs) ==
      if key.dupes && !all then RemoveAt(RecordsOf(key, old(heap.blobs)), dupeId) else []
  {
    hide CellOk, EntriesOk, BigRids, ReadCell, PayloadOk, Heap.Valid;
    ghost var blobs0 := heap.blobs;
    EntriesRead(key, blobs0);
    if !key.size.Big? {
      key' := KeyRef(Big, false, 0);
    } else if !key.dupes {
      SingleBlob(key, blobs0);
      heap.Free(key.ptr);
      key' := KeyRef(Big, false, 0);
    } else {
      heap.KeptAt(key.ptr);
      CapacityFits(blobs0[key.ptr]);
      var capacity, E := heap.ReadTable(key.ptr);
      if all || (dupeId == 0 && |E| == 1) {
        FreeEntries(heap, E);
        heap.Free(key.ptr);
        key' := KeyRef(Big, false, 0);
        AllGone(key, blobs0, heap.blobs, E);
      } else {
        BigCell(E, blobs0, dupeId);
        if E[dupeId].size.Big? {
          heap.Free(E[dupeId].rid);
        }
        ghost var blobs1 := heap.blobs;
        var table := Table(capacity, RemoveAt(E, dupeId));
        DroppedOk(blobs0, E, dupeId, capacity);
        var rid := heap.Overwrite(key.ptr, table, misses);
        heap.KeptAt(rid);
        key' := KeyRef(Big, true, rid);
        Dropped(key, blobs0, blobs1, heap.blobs, E, dupeId, table, rid);
      }
    }
  }

  lemma DroppedOk(blobs0: Blobs, E: seq<Cell>, at: nat, capacity: nat)
    requires EntriesOk(E, blobs0) && at < |E| <= capacity < U32
    ensures PayloadOk(Table(capacity, RemoveAt(E, at)))
  {
    hide CellOk;
    RemoveEntry(E, blobs0, at);
    TableOk(RemoveAt(E, at), blobs0, capacity);
  }

  lemma SingleBlob(key: KeyRef, blobs: Blobs)
    requires KeyOk(key, blobs) && !key.dupes && key.size.Big? && key.ptr != 0
    ensures key.ptr in blobs
  {
  }

  lemma AllGone(key: KeyRef, blobs0: Blobs, blobs1: Blobs, E: seq<Cell>)
    requires KeyOk(key, blobs0) && key.dupes && E == blobs0[key.ptr].entries &&
      blobs1 == blobs0 - BigRids(E) - {key.ptr}
    ensures KeyOk(KeyRef(Big, false, 0), blobs1) && NoLeak(blobs0, key, blobs1, KeyRef(Big, false, 0))
  {
    hide CellOk, EntriesOk, BigRids;
  }

  lemma Dropped(key: KeyRef, blobs0: Blobs, blobs1: Blobs, blobs2: Blobs, E: seq<Cell>, at: nat, table: Payload,
                rid: nat)
    requires KeyOk(key, blobs0) && key.dupes && E == blobs0[key.ptr].entries && at < |E| && |E| > 1
    requires blobs1 == blobs0 - (if E[at].size.Big? then {E[at].rid} else {})
    requires table.Table? && table.entries == RemoveAt(E, at) && |E| < table.capacity
    requires rid != 0 && rid < U64 && (rid !in blobs1 || rid == key.ptr) && blobs2 == (blobs1 - {key.ptr})[rid := table]
    ensures KeyOk(KeyRef(Big, true, rid), blobs2) && NoLeak(blobs0, key, blobs2, KeyRef(Big, true, rid))
    ensures |RecordsOf(key, blobs0)| == |E| &&
      RecordsOf(KeyRef(Big, true, rid), blobs2) == RemoveAt(RecordsOf(key, blobs0), at)
  {
    hide CellOk, EntriesOk, BigRids, ReadCell;
    EntriesRead(key, blobs0);
    BigCell(E, blobs0, at);
    RemoveEntry(E, blobs0, at);
    EntriesKeep(RemoveAt(E, at), blobs0, blobs2);
  }
}
