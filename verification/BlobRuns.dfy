/** Runs in which a blob is not what one would expect. */
module BlobRuns {
  import opened Bytes
  import opened BlobBooks
  import opened BlobStore
  import BlobIO

  function Bytes10(b: Byte): Data { [b, b, b, b, b, b, b, b, b, b] }

  /** A record of 30 bytes is overwritten by a shorter one, and that by the first bytes of a long one: the
      end of the first record is back. */
  method SlackReturns(store: Store, misses: bool) returns (id: nat)
    requires store.Valid() && store.RoomFor(30)
    requires |store.env.device| + 3 * (AllocSize(30) + store.env.ps) < U64
    modifies store, store.env
    ensures store.Valid() && id !in old(store.live) && id in store.live
    ensures store.live[id].data == [3, 3, 3, 3, 3] + [2, 2, 2, 2, 2] + Bytes10(1) + Bytes10(1)
  {
    hide BlobIO.CacheOk, BlobIO.ViewOf, Books, AllStored, Space, Overwritten, Rewritten, Bytes10, Padded;
    Lengths();
    var first := Bytes10(1) + Bytes10(1) + Bytes10(1);
    Whole(first);
    assert AllocSize(30) == AllocSize(10) == 64;
    id := store.Allocate(30, false, 0, first, misses);
    ghost var s0 := Space(store.env.View(), id, store.live[id].alloc);
    var id1 := store.Overwrite(id, 10, false, 0, Bytes10(2), misses);
    ghost var short, s1 := store.live[id].data, Space(store.env.View(), id, store.live[id].alloc);
    var id2 := store.Overwrite(id, 30, true, 0, [3, 3, 3, 3, 3], misses);
    Mixed(s0, s1, short, store.live[id].data);
  }

  lemma Whole(d: Data)
    ensures Padded(|d|, 0, d) == d
  {
  }

  lemma Lengths()
    ensures forall b :: |Bytes10(b)| == 10
  {
  }

  lemma Mixed(s0: Data, s1: Data, short: Data, new': Data)
    requires Overwritten(Bytes10(1) + Bytes10(1) + Bytes10(1), s0, 10, 0, Bytes10(2), short, true)
    requires Rewritten(s0, s1, 0, Bytes10(2)) && Overwritten(short, s1, 30, 0, [3, 3, 3, 3, 3], new', true)
    ensures new' == [3, 3, 3, 3, 3] + [2, 2, 2, 2, 2] + Bytes10(1) + Bytes10(1)
  {
    assert new'[0..5] == [3, 3, 3, 3, 3];
    forall k | 5 <= k < 10 ensures new'[k] == 2 { assert s1[0..10][k] == s1[k]; }
    forall k | 10 <= k < 30 ensures new'[k] == 1 {
      assert s1[k] == s0[k] == (Bytes10(1) + Bytes10(1) + Bytes10(1))[k];
    }
    forall k | 0 <= k < 5 ensures new'[k] == 3 { assert new'[0..5][k] == new'[k]; }
  }

  /** A window that starts at the second byte and is 2^32 - 1 bytes long is not cut at the end of the
      record. */
  method WindowWraps(store: Store, id: nat) returns (st: ReadStatus, data: Data)
    requires store.Valid() && id in store.live && |store.live[id].data| >= 1
    modifies store.env`cache
    ensures store.Valid() && store.live == old(store.live)
    ensures !(st.Ok? && data == Window(store.live[id].data, 1, U32 - 1))
  {
    store.InFile(id);
    st, data := store.Read(id, true, 1, U32 - 1);
  }

  /** A record of 2^32 - 1 bytes gets a space of 32 bytes, and whole pages for one of 2^32 - 32 bytes get
      none. */
  lemma SizesWrap(ps: nat)
    requires 64 <= ps < U32
    ensures AllocSize32(U32 - 1) == 32 && Aligned32(U32 - 32, ps) == 0
  {
    assert BLOB_HEADER + (U32 - 1) == U32 + 27;
    AlignedFits(U32 - 32, ps);
  }
}
