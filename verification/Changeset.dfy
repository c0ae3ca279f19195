/** The pages touched by one operation, and writing them to disk through the log
    (src/changeset.cc, src/log.cc). */
module ChangesetFlush {
  import opened Bytes
  import opened LogFormat
  import opened CrashModel

  datatype PageType = HeaderPage | BRoot | BIndex | FreelistPage | BlobPage | Unknown

  /** A page in memory. `noHeader` is NPERS_NO_HEADER. */
  datatype Page = Page(dirty: bool, header: bool, noHeader: bool, kind: PageType, data: Data)

  datatype Bucket = Blobs | Freelists | Indices | Others

  function BucketOf(p: Page): Bucket {
    if p.header then Indices
    else if p.noHeader then Blobs
    else
      match p.kind
      case BlobPage => Blobs
      case BRoot => Indices
      case BIndex => Indices
      case HeaderPage => Indices
      case FreelistPage => Freelists
      case Unknown => Others
  }

  type Pages = map<nat, Page>

  // ------------------------------------------------------------------------------ what a flush does

  function Dirty(list: seq<nat>, pages: Pages): seq<nat>
  {
    if list == [] then []
    else
      var a := list[|list| - 1];
      Dirty(list[..|list| - 1], pages) + (if a in pages && pages[a].dirty then [a] else [])
  }

  function InBucket(list: seq<nat>, pages: Pages, b: Bucket): seq<nat>
  {
    if list == [] then []
    else
      var a := list[|list| - 1];
      InBucket(list[..|list| - 1], pages, b) +
        (if a in pages && pages[a].dirty && BucketOf(pages[a]) == b then [a] else [])
  }

  function LogOrder(list: seq<nat>, pages: Pages): seq<nat> {
    InBucket(list, pages, Blobs) + InBucket(list, pages, Freelists) + InBucket(list, pages, Indices) +
      InBucket(list, pages, Others)
  }

  /** Everything is logged as soon as there is a page of unknown kind or more than one index page. */
  predicate MustLog(list: seq<nat>, pages: Pages) {
    |InBucket(list, pages, Others)| > 0 || |InBucket(list, pages, Indices)| > 1
  }

  function DirtyData(list: seq<nat>, pages: Pages): map<nat, Data> {
    map a | a in list && a in pages && pages[a].dirty :: pages[a].data
  }

  lemma {:induction false} DirtyIs(list: seq<nat>, pages: Pages, a: nat)
    ensures a in Dirty(list, pages) <==> a in DirtyData(list, pages)
  {
    if list != [] {
      DirtyIs(list[..|list| - 1], pages, a);
      assert list == list[..|list| - 1] + [list[|list| - 1]];
    }
  }

  lemma {:induction false} BucketIs(list: seq<nat>, pages: Pages, b: Bucket, a: nat)
    ensures a in InBucket(list, pages, b) <==> a in DirtyData(list, pages) && BucketOf(pages[a]) == b
  {
    if list != [] {
      BucketIs(list[..|list| - 1], pages, b, a);
      assert list == list[..|list| - 1] + [list[|list| - 1]];
    }
  }

  lemma {:induction false} DirtyDistinct(list: seq<nat>, pages: Pages)
    requires forall x, y :: 0 <= x < y < |list| ==> list[x] != list[y]
    ensures var D := Dirty(list, pages); forall x, y :: 0 <= x < y < |D| ==> D[x] != D[y]
  {
    if list != [] {
      var n := |list| - 1;
      DirtyDistinct(list[..n], pages);
      DirtyIs(list[..n], pages, list[n]);
    }
  }

  lemma {:induction false} BucketDistinct(list: seq<nat>, pages: Pages, b: Bucket)
    requires forall x, y :: 0 <= x < y < |list| ==> list[x] != list[y]
    ensures var I := InBucket(list, pages, b); forall x, y :: 0 <= x < y < |I| ==> I[x] != I[y]
  {
    if list != [] {
      var n := |list| - 1;
      BucketDistinct(list[..n], pages, b);
      BucketIs(list[..n], pages, b, list[n]);
    }
  }

  /** Every dirty page is logged in its bucket and written, and nothing else is. */
  lemma OrderCovers(list: seq<nat>, pages: Pages)
    ensures forall k :: 0 <= k < |LogOrder(list, pages)| ==> LogOrder(list, pages)[k] in DirtyData(list, pages)
    ensures forall k :: 0 <= k < |Dirty(list, pages)| ==> Dirty(list, pages)[k] in DirtyData(list, pages)
    ensures forall a :: a in DirtyData(list, pages) ==> a in LogOrder(list, pages) && a in Dirty(list, pages)
  {
    hide Dirty, InBucket, DirtyData;
    var O := LogOrder(list, pages);
    forall k | 0 <= k < |O| ensures O[k] in DirtyData(list, pages) { AllBuckets(list, pages, O[k]); }
    forall k | 0 <= k < |Dirty(list, pages)| ensures Dirty(list, pages)[k] in DirtyData(list, pages) {
      DirtyIs(list, pages, Dirty(list, pages)[k]);
    }
    forall a | a in DirtyData(list, pages) ensures a in O && a in Dirty(list, pages) {
      AllBuckets(list, pages, a);
      DirtyIs(list, pages, a);
    }
  }

  lemma AllBuckets(list: seq<nat>, pages: Pages, a: nat)
    ensures a in LogOrder(list, pages) <==> a in DirtyData(list, pages)
  {
    hide InBucket;
    BucketIs(list, pages, Blobs, a);
    BucketIs(list, pages, Freelists, a);
    BucketIs(list, pages, Indices, a);
    BucketIs(list, pages, Others, a);
    if a in DirtyData(list, pages) {
      match BucketOf(pages[a]) { case Blobs => case Freelists => case Indices => case Others => }
    }
  }

  lemma {:induction false} Counts(list: seq<nat>, pages: Pages)
    ensures |Dirty(list, pages)| == |LogOrder(list, pages)|
  {
    if list != [] {
      var n := |list| - 1;
      Counts(list[..n], pages);
      if list[n] in pages {
        match BucketOf(pages[list[n]]) { case Blobs => case Freelists => case Indices => case Others => }
      }
    }
  }

  /** All steps of Changeset::flush. */
  ghost function FlushSteps(list: seq<nat>, pages: Pages, lsn: nat): seq<Action> {
    OrderCovers(list, pages);
    if Dirty(list, pages) == [] then []
    else if MustLog(list, pages) then
      LoggedFlush(LogOrder(list, pages), Dirty(list, pages), DirtyData(list, pages), lsn)
    else Writes(Dirty(list, pages), DirtyData(list, pages)) + [Truncate]
  }

  ghost predicate Distinct(list: seq<nat>) { forall x, y :: 0 <= x < y < |list| ==> list[x] != list[y] }

  /** A flush that logs meets the conditions for crash atomicity. */
  lemma FlushIsLogged(s: State, list: seq<nat>, pages: Pages, lsn: nat, ps: nat)
    requires s.log == [] && ps > 0 && MustLog(list, pages)
    requires forall o :: o in s.disk ==> o + ps <= s.size
    requires forall a :: a in DirtyData(list, pages) ==> a in s.disk || a == s.size
    ensures CanFlush(s, LogOrder(list, pages), Dirty(list, pages), DirtyData(list, pages), lsn, ps)
    ensures FlushSteps(list, pages, lsn) ==
      LoggedFlush(LogOrder(list, pages), Dirty(list, pages), DirtyData(list, pages), lsn)
  {
    hide Dirty, InBucket, DirtyData;
    OrderCovers(list, pages);
    Counts(list, pages);
  }

  // ------------------------------------------------------------------------------ environment

  /** The database file, the log and the pages in memory; `trace` records the steps taken on disk. */
  class Env {
    const pagesize: nat
    const log: Log
    var pages: Pages
    var disk: map<nat, Data>
    var size: nat

    ghost const start: State
    ghost var trace: seq<Action>

    ghost function Now(): State
      reads this, log
    {
      State(disk, size, log.records)
    }

    ghost predicate Valid()
      reads this, log
    {
      && 0 < pagesize < U64 && pagesize % 8 == 0
      && log.Valid()
      && Now() == ExecAll(start, trace, pagesize)
      && (forall a :: a in pages ==> a < U64 && |pages[a].data| == pagesize)
    }

    /** An environment whose file was just opened. */
    constructor (pagesize: nat, log: Log, pages: Pages, disk: map<nat, Data>, size: nat)
      requires 0 < pagesize < U64 && pagesize % 8 == 0 && log.Valid()
      requires forall a :: a in pages ==> a < U64 && |pages[a].data| == pagesize
      ensures Valid() && this.pagesize == pagesize && this.log == log && this.pages == pages && this.disk == disk &&
        this.size == size
      ensures trace == [] && start == State(disk, size, log.records)
    {
      this.pagesize, this.log, this.pages, this.disk, this.size := pagesize, log, pages, disk, size;
      start, trace := State(disk, size, log.records), [];
    }

    /** Log::append_page */
    method AppendPage(a: nat, lsn: nat, pageCount: nat)
      requires Valid() && a in pages && lsn < U64
      modifies this`trace, log
      ensures Valid()
      ensures trace == old(trace) +
        [Append(Record(lsn, if pageCount == 0 then CHANGESET_IS_COMPLETE else 0, a, pages[a].data))]
    {
      var flags := if pageCount == 0 then CHANGESET_IS_COMPLETE else 0;
      ghost var act := Append(Record(lsn, flags, a, pages[a].data));
      ExecSnoc(start, trace, act, pagesize);
      log.AppendWrite(lsn, flags, a, pages[a].data);
      trace := trace + [act];
    }

    /** Page::flush of a dirty page. */
    method FlushPage(a: nat)
      requires Valid() && a in pages
      modifies this`trace, this`disk, this`size, this`pages
      ensures Valid() && trace == old(trace) + [Write(a, old(pages)[a].data)]
      ensures pages == old(pages)[a := old(pages)[a].(dirty := false)]
    {
      hide ExecAll, Holds;
      ghost var act := Write(a, pages[a].data);
      ExecSnoc(start, trace, act, pagesize);
      disk := disk[a := pages[a].data];
      if a == size {
        size := size + pagesize;
      }
      pages := pages[a := pages[a].(dirty := false)];
      trace := trace + [act];
    }

    method ClearLog()
      requires Valid()
      modifies this`trace, log
      ensures Valid() && trace == old(trace) + [Truncate] && log.records == [] && log.lsn == old(log.lsn)
    {
      ExecSnoc(start, trace, Truncate, pagesize);
      log.Clear();
      trace := trace + [Truncate];
    }
  }

  // ------------------------------------------------------------------------------ changeset

  /** The records written while `n` pages are left to log. */
  function RecordsDown(bucket: seq<nat>, pages: Pages, lsn: nat, n: nat): (rs: seq<Record>)
    requires (forall k :: 0 <= k < |bucket| ==> bucket[k] in pages) && |bucket| <= n
    ensures |rs| == |bucket|
  {
    seq(|bucket|, k requires 0 <= k < |bucket| =>
      Record(lsn, if n - 1 - k == 0 then CHANGESET_IS_COMPLETE else 0, bucket[k], pages[bucket[k]].data))
  }

  lemma RecordsDownConcat(A: seq<nat>, B: seq<nat>, pages: Pages, lsn: nat, n: nat)
    requires (forall k :: 0 <= k < |A| ==> A[k] in pages) && (forall k :: 0 <= k < |B| ==> B[k] in pages) &&
      |A| + |B| <= n
    ensures RecordsDown(A + B, pages, lsn, n) == RecordsDown(A, pages, lsn, n) + RecordsDown(B, pages, lsn, n - |A|)
  {
  }

  lemma AppendsConcat(A: seq<Record>, B: seq<Record>)
    ensures Appends(A + B) == Appends(A) + Appends(B)
  {
  }

  /** Changeset::log_bucket */
  method LogBucket(env: Env, bucket: seq<nat>, lsn: nat, pageCount0: nat) returns (pageCount: nat)
    requires env.Valid() && lsn < U64 && (forall k :: 0 <= k < |bucket| ==> bucket[k] in env.pages) &&
      |bucket| <= pageCount0
    modifies env`trace, env.log
    ensures env.Valid() && env.pages == old(env.pages) && pageCount == pageCount0 - |bucket|
    ensures env.trace == old(env.trace) + Appends(RecordsDown(bucket, env.pages, lsn, pageCount0))
  {
    hide ExecAll, Holds;
    pageCount := pageCount0;
    ghost var rs := RecordsDown(bucket, env.pages, lsn, pageCount0);
    for i := 0 to |bucket|
      invariant env.Valid() && pageCount == pageCount0 - i
      invariant env.trace == old(env.trace) + Appends(rs)[..i]
    {
      pageCount := pageCount - 1;
      env.AppendPage(bucket[i], lsn, pageCount);
      assert Appends(rs)[..i + 1] == Appends(rs)[..i] + [Append(rs[i])];
    }
    assert Appends(rs)[..|bucket|] == Appends(rs);
  }

  class Changeset {
    /** The list behind m_head. */
    var list: seq<nat>

    ghost predicate Valid()
      reads this
    {
      Distinct(list)
    }

    constructor ()
      ensures Valid() && list == []
    {
      list := [];
    }

    /** Changeset::add_page */
    method AddPage(a: nat)
      requires Valid()
      modifies this
      ensures Valid() && list == if a in old(list) then old(list) else [a] + old(list)
    {
      if a in list {
        return;
      }
      list := [a] + list;
    }

    /** Changeset::get_page */
    method GetPage(a: nat) returns (found: bool)
      ensures found <==> a in list
    {
      var i := 0;
      while i < |list|
        invariant i <= |list| && a !in list[..i]
      {
        if list[i] == a {
          return true;
        }
        i := i + 1;
      }
      return false;
    }

    method Clear()
      modifies this
      ensures list == []
    {
      list := [];
    }
  }

  /** The first loop of Changeset::flush: dirty pages sorted into the buckets. */
  method Sort(list: seq<nat>, pages: Pages)
    returns (blobs: seq<nat>, freelists: seq<nat>, indices: seq<nat>, others: seq<nat>, count: nat)
    requires forall k :: 0 <= k < |list| ==> list[k] in pages
    ensures blobs == InBucket(list, pages, Blobs) && freelists == InBucket(list, pages, Freelists)
    ensures indices == InBucket(list, pages, Indices) && others == InBucket(list, pages, Others)
    ensures count == |Dirty(list, pages)|
  {
    blobs, freelists, indices, others, count := [], [], [], [], 0;
    for i := 0 to |list|
      invariant blobs == InBucket(list[..i], pages, Blobs) && freelists == InBucket(list[..i], pages, Freelists)
      invariant indices == InBucket(list[..i], pages, Indices) && others == InBucket(list[..i], pages, Others)
      invariant count == |Dirty(list[..i], pages)|
    {
      assert list[..i + 1][..i] == list[..i];
      var p := pages[list[i]];
      if !p.dirty { continue; }
      if p.header {
        indices := indices + [list[i]];
      } else if p.noHeader {
        blobs := blobs + [list[i]];
      } else {
        match p.kind
        case BlobPage => blobs := blobs + [list[i]];
        case BRoot => indices := indices + [list[i]];
        case BIndex => indices := indices + [list[i]];
        case HeaderPage => indices := indices + [list[i]];
        case FreelistPage => freelists := freelists + [list[i]];
        case Unknown => others := others + [list[i]];
      }
      count := count + 1;
    }
    assert list[..|list|] == list;
  }

  lemma DownIsRecords(order: seq<nat>, pages: Pages, img: map<nat, Data>, lsn: nat)
    requires forall k :: 0 <= k < |order| ==>
      order[k] in pages && order[k] in img && img[order[k]] == pages[order[k]].data
    ensures RecordsDown(order, pages, lsn, |order|) == Records(order, img, lsn)
  {
  }

  lemma FourBuckets(A: seq<nat>, B: seq<nat>, C: seq<nat>, D: seq<nat>, pages: Pages, lsn: nat, n: nat)
    requires (forall k :: 0 <= k < |A| ==> A[k] in pages) && (forall k :: 0 <= k < |B| ==> B[k] in pages)
    requires (forall k :: 0 <= k < |C| ==> C[k] in pages) && (forall k :: 0 <= k < |D| ==> D[k] in pages)
    requires n == |A| + |B| + |C| + |D|
    ensures forall k :: 0 <= k < n ==> (A + B + C + D)[k] in pages
    ensures Appends(RecordsDown(A + B + C + D, pages, lsn, n)) ==
      Appends(RecordsDown(A, pages, lsn, n)) + Appends(RecordsDown(B, pages, lsn, n - |A|)) +
        Appends(RecordsDown(C, pages, lsn, n - |A| - |B|))
        + Appends(RecordsDown(D, pages, lsn, n - |A| - |B| - |C|))
  {
    hide RecordsDown, Appends;
    RecordsDownConcat(A, B, pages, lsn, n);
    RecordsDownConcat(A + B, C, pages, lsn, n);
    RecordsDownConcat(A + B + C, D, pages, lsn, n);
    AppendsConcat(RecordsDown(A, pages, lsn, n), RecordsDown(B, pages, lsn, n - |A|));
    AppendsConcat(RecordsDown(A + B, pages, lsn, n), RecordsDown(C, pages, lsn, n - |A| - |B|));
    AppendsConcat(RecordsDown(A + B + C, pages, lsn, n), RecordsDown(D, pages, lsn, n - |A| - |B| - |C|));
  }

  /** The logging part of Changeset::flush. */
  method LogAll(env: Env, blobs: seq<nat>, freelists: seq<nat>, indices: seq<nat>, others: seq<nat>, count0: nat,
                lsn: nat, ghost img: map<nat, Data>, ghost order: seq<nat>)
    requires env.Valid() && lsn < U64 && order == blobs + freelists + indices + others && count0 == |order|
    requires forall k :: 0 <= k < |order| ==>
      order[k] in env.pages && order[k] in img && img[order[k]] == env.pages[order[k]].data
    modifies env`trace, env.log
    ensures env.Valid() && env.pages == old(env.pages) &&
      env.trace == old(env.trace) + Appends(Records(order, img, lsn))
  {
    hide ExecAll, Holds, Records, RecordsDown, Appends;
    forall k | 0 <= k < |blobs| ensures blobs[k] in env.pages { assert order[k] == blobs[k]; }
    forall k | 0 <= k < |freelists| ensures freelists[k] in env.pages { assert order[|blobs| + k] == freelists[k]; }
    forall k | 0 <= k < |indices| ensures indices[k] in env.pages {
      assert order[|blobs| + |freelists| + k] == indices[k];
    }
    forall k | 0 <= k < |others| ensures others[k] in env.pages {
      assert order[|blobs| + |freelists| + |indices| + k] == others[k];
    }
    FourBuckets(blobs, freelists, indices, others, env.pages, lsn, count0);
    DownIsRecords(order, env.pages, img, lsn);
    var count := LogBucket(env, blobs, lsn, count0);
    count := LogBucket(env, freelists, lsn, count);
    count := LogBucket(env, indices, lsn, count);
    count := LogBucket(env, others, lsn, count);
  }

  /** The loop of Changeset::flush that writes the dirty pages. */
  method WriteAll(env: Env, list: seq<nat>)
    requires env.Valid() && Distinct(list) && (forall k :: 0 <= k < |list| ==> list[k] in env.pages)
    modifies env`trace, env`disk, env`size, env`pages
    ensures env.Valid()
    ensures forall k :: 0 <= k < |Dirty(list, old(env.pages))| ==>
      Dirty(list, old(env.pages))[k] in DirtyData(list, old(env.pages))
    ensures env.trace == old(env.trace) + Writes(Dirty(list, old(env.pages)), DirtyData(list, old(env.pages)))
    ensures env.pages.Keys == old(env.pages).Keys && forall a :: a in list ==> a in env.pages && !env.pages[a].dirty
    ensures forall a :: a in env.pages && a !in list ==> env.pages[a] == old(env.pages)[a]
  {
    hide ExecAll, Holds, DirtyData, Dirty, Writes;
    ghost var pages := env.pages;
    ghost var img := DirtyData(list, pages);
    OrderCovers(list, pages);
    NoWrites(pages, img);
    for i := 0 to |list|
      invariant env.Valid() && env.pages.Keys == pages.Keys
      invariant forall k :: 0 <= k < i ==> !env.pages[list[k]].dirty
      invariant forall k :: i <= k < |list| ==> env.pages[list[k]] == pages[list[k]]
      invariant forall a :: a in pages && a !in list ==> env.pages[a] == pages[a]
      invariant forall k :: 0 <= k < |Dirty(list[..i], pages)| ==> Dirty(list[..i], pages)[k] in img
      invariant env.trace == old(env.trace) + Writes(Dirty(list[..i], pages), img)
    {
      DirtySnoc(list, pages, i);
      if env.pages[list[i]].dirty {
        DataOf(list, pages, i);
        WritesSnoc(Dirty(list[..i], pages), img, list[i]);
        env.FlushPage(list[i]);
      }
    }
    assert list[..|list|] == list;
  }

  lemma NoWrites(pages: Pages, img: map<nat, Data>)
    ensures Dirty([], pages) == [] && Writes([], img) == []
  {
  }

  lemma DirtySnoc(list: seq<nat>, pages: Pages, i: nat)
    requires i < |list| && list[i] in pages
    ensures Dirty(list[..i + 1], pages) ==
      if pages[list[i]].dirty then Dirty(list[..i], pages) + [list[i]] else Dirty(list[..i], pages)
  {
    assert list[..i + 1][..i] == list[..i];
  }

  lemma WritesSnoc(list: seq<nat>, img: map<nat, Data>, a: nat)
    requires (forall k :: 0 <= k < |list| ==> list[k] in img) && a in img
    ensures forall k :: 0 <= k < |list + [a]| ==> (list + [a])[k] in img
    ensures Writes(list + [a], img) == Writes(list, img) + [Write(a, img[a])]
  {
  }

  lemma DataOf(list: seq<nat>, pages: Pages, i: nat)
    requires i < |list| && list[i] in pages && pages[list[i]].dirty
    ensures list[i] in DirtyData(list, pages) && DirtyData(list, pages)[list[i]] == pages[list[i]].data
  {
  }

  /** Changeset::flush */
  method Flush(env: Env, cs: Changeset, lsn: nat)
    requires env.Valid() && cs.Valid() && lsn < U64 && (forall k :: 0 <= k < |cs.list| ==> cs.list[k] in env.pages)
    modifies env`trace, env`disk, env`size, env`pages, env.log, cs
    ensures env.Valid() && cs.Valid() && cs.list == []
    ensures env.trace == old(env.trace) + FlushSteps(old(cs.list), old(env.pages), lsn)
    ensures env.pages.Keys == old(env.pages).Keys && forall a :: a in old(cs.list) ==>
      a in env.pages && !env.pages[a].dirty
  {
    hide ExecAll, Holds, DirtyData, Dirty, InBucket, Writes, Records, Appends;
    ghost var list, pages := cs.list, env.pages;
    ghost var order, img := LogOrder(list, pages), DirtyData(list, pages);
    OrderCovers(list, pages);
    Counts(list, pages);
    var blobs, freelists, indices, others, count := Sort(cs.list, env.pages);
    if count == 0 {
      NoneDirty(list, pages);
      cs.Clear();
      return;
    }
    if |others| > 0 || |indices| > 1 {
      forall k | 0 <= k < |order|
        ensures order[k] in pages && order[k] in img && img[order[k]] == pages[order[k]].data {
        DataIs(list, pages, order[k]);
      }
      LogAll(env, blobs, freelists, indices, others, count, lsn, img, order);
    }
    WriteAll(env, cs.list);
    cs.Clear();
    env.ClearLog();
  }

  lemma DataIs(list: seq<nat>, pages: Pages, a: nat)
    requires a in DirtyData(list, pages)
    ensures a in pages && DirtyData(list, pages)[a] == pages[a].data
  {
  }

  lemma NoneDirty(list: seq<nat>, pages: Pages)
    requires |Dirty(list, pages)| == 0 && (forall k :: 0 <= k < |list| ==> list[k] in pages)
    ensures forall a :: a in list ==> a in pages && !pages[a].dirty
  {
    forall a | a in list ensures a in pages && !pages[a].dirty { DirtyIs(list, pages, a); }
  }
}
