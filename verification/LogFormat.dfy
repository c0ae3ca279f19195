/** The log file: page images appended one behind the other, read from the end (src/log.h, src/log.cc). */
module LogFormat {
  import opened Bytes

  const HEADER_MAGIC: nat := 0x686C6F67
  const HEADER_SIZE: nat := 16
  const ENTRY_SIZE: nat := 32
  const CHANGESET_IS_COMPLETE: nat := 1

  // ------------------------------------------------------------------------------ entries

  datatype Record = Record(lsn: nat, flags: nat, offset: nat, data: seq<Byte>)

  ghost predicate RecordOk(r: Record) {
    && r.lsn < U64 && r.flags < U32 && r.offset < U64 && |r.data| < U64
    && |r.data| > 0 && |r.data| % 8 == 0
  }

  function EncodeEntry(lsn: nat, flags: nat, offset: nat, size: nat): (r: seq<Byte>)
    ensures |r| == ENTRY_SIZE
  {
    Encode(lsn, 8) + Encode(flags, 4) + Encode(0, 4) + Encode(offset, 8) + Encode(size, 8)
  }

  lemma EntryFields(lsn: nat, flags: nat, offset: nat, size: nat)
    requires lsn < U64 && flags < U32 && offset < U64 && size < U64
    ensures var e := EncodeEntry(lsn, flags, offset, size);
      Decode(e[0..8]) == lsn && Decode(e[8..12]) == flags && Decode(e[16..24]) == offset && Decode(e[24..32]) == size
  {
    var e := EncodeEntry(lsn, flags, offset, size);
    assert e[0..8] == Encode(lsn, 8) && e[8..12] == Encode(flags, 4) && e[16..24] == Encode(offset, 8) &&
      e[24..32] == Encode(size, 8);
    Widths();
    DecodeEncode(lsn, 8);
    DecodeEncode(flags, 4);
    DecodeEncode(offset, 8);
    DecodeEncode(size, 8);
  }

  /** One appended record: the page, then its entry. */
  function Image(r: Record): (s: seq<Byte>)
    ensures |s| == |r.data| + ENTRY_SIZE
  {
    r.data + EncodeEntry(r.lsn, r.flags, r.offset, |r.data|)
  }

  function Images(rs: seq<Record>): seq<Byte> {
    if rs == [] then [] else Images(rs[..|rs| - 1]) + Image(rs[|rs| - 1])
  }

  lemma {:induction false} ImagesAligned(rs: seq<Record>)
    requires forall i :: 0 <= i < |rs| ==> RecordOk(rs[i])
    ensures |Images(rs)| % 8 == 0
  {
    hide Image;
    if rs != [] {
      ImagesAligned(rs[..|rs| - 1]);
      Eights(|Images(rs[..|rs| - 1])|, |Image(rs[|rs| - 1])|);
    }
  }

  lemma Eights(a: nat, b: nat)
    requires a % 8 == 0 && b % 8 == 0
    ensures (a + b) % 8 == 0
  {
  }

  /** A log file holding `rs`. */
  ghost predicate Holds(file: seq<Byte>, rs: seq<Record>) {
    && HEADER_SIZE <= |file| && file[HEADER_SIZE..] == Images(rs)
    && (forall i :: 0 <= i < |rs| ==> RecordOk(rs[i]))
  }

  /** The iterator stands behind the first `n` records. */
  ghost predicate Stands(file: seq<Byte>, rs: seq<Record>, n: nat, iter: nat) {
    && n <= |rs| && iter == HEADER_SIZE + |Images(rs[..n])| <= |file|
    && (iter <= |file| ==> file[HEADER_SIZE..iter] == Images(rs[..n]))
  }

  lemma StandsAtEnd(file: seq<Byte>, rs: seq<Record>)
    requires Holds(file, rs)
    ensures Stands(file, rs, |rs|, |file|)
  {
    assert rs[..|rs|] == rs && file[HEADER_SIZE..|file|] == file[HEADER_SIZE..];
  }

  lemma ImagesSnoc(rs: seq<Record>, n: nat)
    requires 0 < n <= |rs|
    ensures Images(rs[..n]) == Images(rs[..n - 1]) + Image(rs[n - 1])
  {
    assert rs[..n][..n - 1] == rs[..n - 1];
  }

  /** Stepping back over one record. */
  lemma StepBack(file: seq<Byte>, rs: seq<Record>, n: nat, iter: nat)
    requires Holds(file, rs) && Stands(file, rs, n, iter) && n > 0
    ensures var r := rs[n - 1]; var e := iter - ENTRY_SIZE; var pos := e - |r.data|;
      && HEADER_SIZE <= pos && pos % 8 == 0
      && file[e..iter] == EncodeEntry(r.lsn, r.flags, r.offset, |r.data|)
      && file[pos..e] == r.data
      && Stands(file, rs, n - 1, pos)
  {
    hide Images, EncodeEntry;
    var r := rs[n - 1];
    ImagesSnoc(rs, n);
    ImagesAligned(rs[..n - 1]);
    Slices(file, Images(rs[..n - 1]), r.data, EncodeEntry(r.lsn, r.flags, r.offset, |r.data|), iter);
  }

  lemma Slices(file: seq<Byte>, A: seq<Byte>, D: seq<Byte>, E: seq<Byte>, iter: nat)
    requires HEADER_SIZE <= iter <= |file| && file[HEADER_SIZE..iter] == A + (D + E)
    ensures iter == HEADER_SIZE + |A| + |D| + |E|
    ensures file[HEADER_SIZE..HEADER_SIZE + |A|] == A
    ensures file[HEADER_SIZE + |A|..HEADER_SIZE + |A| + |D|] == D
    ensures file[HEADER_SIZE + |A| + |D|..iter] == E
  {
    var W := file[HEADER_SIZE..iter];
    assert W[..|A|] == A && W[|A|..|A| + |D|] == D && W[|A| + |D|..] == E;
    var F := file[HEADER_SIZE + |A|..HEADER_SIZE + |A| + |D|];
    forall k | 0 <= k < |D| ensures F[k] == D[k] { assert F[k] == W[|A| + k]; }
  }

  lemma AppendHolds(file: seq<Byte>, rs: seq<Record>, r: Record)
    requires Holds(file, rs) && RecordOk(r)
    ensures Holds(file + Image(r), rs + [r])
  {
    hide Image;
    assert (rs + [r])[..|rs|] == rs;
    assert (file + Image(r))[HEADER_SIZE..] == file[HEADER_SIZE..] + Image(r);
  }

  lemma HeaderOnly(rs: seq<Record>, n: nat)
    requires n <= |rs|
    ensures |Images(rs[..n])| == 0 <==> n == 0
  {
    if n > 0 { ImagesSnoc(rs, n); }
  }

  // ------------------------------------------------------------------------------ the log object

  class Log {
    var file: seq<Byte>
    var lsn: nat

    /** What was appended since the log was last cleared. */
    ghost var records: seq<Record>

    ghost predicate Valid()
      reads this
    {
      Holds(file, records)
    }

    /** Log::create */
    constructor ()
      ensures Valid() && records == [] && lsn == 0
    {
      file := Encode(HEADER_MAGIC, 4) + Encode(0, 4) + Encode(0, 8);
      lsn := 0;
      records := [];
    }

    /** Log::is_empty */
    method IsEmpty() returns (r: bool)
      requires Valid()
      ensures r <==> records == []
    {
      assert records[..|records|] == records;
      HeaderOnly(records, |records|);
      assert |file| == HEADER_SIZE + |file[HEADER_SIZE..]|;
      r := !(|file| != 0 && |file| != HEADER_SIZE);
    }

    /** Log::clear */
    method Clear()
      requires Valid()
      modifies this`file, this`records
      ensures Valid() && records == []
    {
      file := file[..HEADER_SIZE];
      records := [];
    }

    /** Log::append_write */
    method AppendWrite(lsn: nat, flags: nat, offset: nat, data: seq<Byte>)
      requires Valid() && RecordOk(Record(lsn, flags, offset, data))
      modifies this
      ensures Valid() && records == old(records) + [Record(lsn, flags, offset, data)]
      ensures this.lsn == if lsn != 0 then lsn else old(this.lsn)
    {
      hide Images, EncodeEntry, Holds;
      if lsn != 0 {
        this.lsn := lsn;
      }
      ghost var r := Record(lsn, flags, offset, data);
      AppendHolds(file, records, r);
      file := file + (data + EncodeEntry(lsn, flags, offset, |data|));
      records := records + [r];
    }

    /** Log::get_entry: the record in front of the iterator, and the iterator moved back behind the
        one before it; an lsn of zero at the beginning of the file. */
    method GetEntry(iter0: nat, ghost n: nat) returns (iter: nat, entry: Record)
      requires Valid() && n <= |records| && (if iter0 == 0 then n == |records| else Stands(file, records, n, iter0))
      ensures n == 0 ==> entry.lsn == 0 && entry.flags == 0
      ensures n > 0 ==> entry == records[n - 1] && Stands(file, records, n - 1, iter) && iter > 0
    {
      hide Images, EncodeEntry, Decode;
      iter := iter0;
      if iter == 0 {
        StandsAtEnd(file, records);
        iter := |file|;
      }
      HeaderOnly(records, n);
      if iter <= HEADER_SIZE {
        return iter, Record(0, 0, 0, []);
      }
      StepBack(file, records, n, iter);
      ghost var r := records[n - 1];
      assert RecordOk(r);
      EntryFields(r.lsn, r.flags, r.offset, |r.data|);
      iter := iter - ENTRY_SIZE;
      var e := file[iter..iter + ENTRY_SIZE];
      entry := Record(Decode(e[0..8]), Decode(e[8..12]), Decode(e[16..24]), []);
      var size := Decode(e[24..32]);
      if size != 0 {
        var pos := iter - size;
        pos := pos - pos % 8;
        entry := entry.(data := file[pos..pos + size]);
        iter := pos;
      }
    }
  }
}
