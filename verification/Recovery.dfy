/** Recovery from the log (src/log.cc Log::recover). */
module LogRecovery {
  import opened Bytes
  import opened LogFormat
  import opened CrashModel
  import opened ChangesetFlush

  /** Every page the replay needs is in the file, or appended right behind it. */
  ghost predicate Readable(disk: map<nat, Data>, size: nat, log: seq<Record>, ps: nat)
    decreases |log|
  {
    log == [] || log[|log| - 1].lsn == 0 ||
      var r := log[|log| - 1];
      (r.offset in disk || r.offset == size)
      && Readable(disk[r.offset := r.data], if r.offset == size then size + ps else size, log[..|log| - 1], ps)
  }

  ghost predicate Complete(log: seq<Record>) { log != [] && log[|log| - 1].flags == CHANGESET_IS_COMPLETE }

  /** The records from `n` on are replayed, the one in front of them is the first without lsn. */
  ghost predicate StopsAt(rs: seq<Record>, n: nat) {
    n <= |rs| && (n > 0 ==> rs[n - 1].lsn == 0) && forall k :: n <= k < |rs| ==> rs[k].lsn != 0
  }

  /** One page of the replay: appended or overwritten. */
  method RestorePage(env: Env, offset: nat, data: Data, lsn: nat) returns (ok: bool)
    requires env.Valid()
    modifies env`trace, env`disk, env`size, env.log`lsn
    ensures ok <==> offset in old(env.disk) || offset == old(env.size)
    ensures ok ==> env.Valid() && env.trace == old(env.trace) + [Write(offset, data)] && env.log.lsn == lsn
    ensures ok ==>
      env.disk == old(env.disk)[offset := data] &&
        env.size == if offset == old(env.size) then old(env.size) + env.pagesize else old(env.size)
    ensures !ok ==>
      env.Valid() && env.trace == old(env.trace) && env.disk == old(env.disk) && env.size == old(env.size) &&
        env.log.lsn == old(env.log.lsn)
  {
    hide ExecAll, Holds;
    ghost var act := Write(offset, data);
    ExecSnoc(env.start, env.trace, act, env.pagesize);
    if offset == env.size {
      env.size := env.size + env.pagesize;
    } else if offset !in env.disk {
      return false;
    }
    env.disk := env.disk[offset := data];
    env.log.lsn := lsn;
    env.trace := env.trace + [act];
    ok := true;
  }

  /** Log::recover: replays a complete log backwards, ignores an incomplete one, and clears it. If a
      page cannot be read the log is kept. */
  method Recover(env: Env) returns (ok: bool)
    requires env.Valid()
    modifies env`trace, env`disk, env`size, env.log
    ensures env.Valid()
    ensures ok <==>
      !Complete(old(env.log.records)) || Readable(old(env.disk), old(env.size), old(env.log.records), env.pagesize)
    ensures ok ==> env.trace == old(env.trace) + CrashModel.Recovery(old(env.log.records)) && env.log.records == []
    ensures !ok ==>
      env.log.records == old(env.log.records) && exists k ::
        0 <= k <= |Replay(env.log.records)| && env.trace == old(env.trace) + Replay(env.log.records)[..k]
    ensures var rs := old(env.log.records); ok && Complete(rs) && rs[|rs| - 1].lsn != 0 ==>
      exists n: nat :: StopsAt(rs, n) && n < |rs| && env.log.lsn == rs[n].lsn
    ensures var rs := old(env.log.records); ok && Complete(rs) && (forall k :: 0 <= k < |rs| ==> rs[k].lsn != 0) ==>
      env.log.lsn == rs[0].lsn
    ensures var rs := old(env.log.records); !Complete(rs) || rs[|rs| - 1].lsn == 0 ==> env.log.lsn == old(env.log.lsn)
  {
    hide ExecAll, Holds, Stands, Readable, Replay;
    ghost var rs, tr := env.log.records, env.trace;
    ghost var n: nat := |rs|;
    var it: nat, first := 0, true;
    assert rs[..n] == rs;
    while true
      invariant env.Valid() && env.log.records == rs && n <= |rs|
      invariant if it == 0 then n == |rs| else Stands(env.log.file, rs, n, it)
      invariant !first ==> Complete(rs)
      invariant first ==> n == |rs| && env.trace == tr
      invariant |tr| <= |env.trace| && env.trace[..|tr|] == tr && env.trace[|tr|..] + Replay(rs[..n]) == Replay(rs)
      invariant Readable(env.disk, env.size, rs[..n], env.pagesize) ==
        Readable(old(env.disk), old(env.size), rs, env.pagesize)
      invariant env.log.lsn == if n < |rs| then rs[n].lsn else old(env.log.lsn)
      invariant forall k :: n <= k < |rs| ==> rs[k].lsn != 0
      decreases n
    {
      var entry;
      it, entry := env.log.GetEntry(it, n);
      if first {
        if entry.flags != CHANGESET_IS_COMPLETE {
          break;
        }
        first := false;
      }
      if entry.lsn == 0 {
        break;
      }
      ReplayStep(rs, n);
      ReadableStep(env.disk, env.size, rs, n, env.pagesize);
      ok := RestorePage(env, entry.offset, entry.data, entry.lsn);
      if !ok {
        PrefixOf(tr, env.trace, Replay(rs[..n]), Replay(rs));
        return;
      }
      n := n - 1;
    }
    assert !first && n < |rs| ==> StopsAt(rs, n);
    ReplayEnd(rs, n);
    ReadableEnd(env.disk, env.size, rs, n, env.pagesize);
    assert env.trace == tr + env.trace[|tr|..];
    env.ClearLog();
    ok := true;
  }

  lemma ReplayStep(rs: seq<Record>, n: nat)
    requires 0 < n <= |rs| && rs[n - 1].lsn != 0
    ensures Replay(rs[..n]) == [Write(rs[n - 1].offset, rs[n - 1].data)] + Replay(rs[..n - 1])
  {
    assert rs[..n][..n - 1] == rs[..n - 1];
  }

  lemma ReplayEnd(rs: seq<Record>, n: nat)
    requires n <= |rs|
    ensures n == 0 || rs[n - 1].lsn == 0 ==> Replay(rs[..n]) == []
  {
  }

  lemma ReadableStep(disk: map<nat, Data>, size: nat, rs: seq<Record>, n: nat, ps: nat)
    requires 0 < n <= |rs| && rs[n - 1].lsn != 0
    ensures var r := rs[n - 1];
      Readable(disk, size, rs[..n], ps) <==>
        (r.offset in disk || r.offset == size) &&
          Readable(disk[r.offset := r.data], if r.offset == size then size + ps else size, rs[..n - 1], ps)
  {
    assert rs[..n][..n - 1] == rs[..n - 1];
  }

  lemma ReadableEnd(disk: map<nat, Data>, size: nat, rs: seq<Record>, n: nat, ps: nat)
    requires n <= |rs|
    ensures n == 0 || rs[n - 1].lsn == 0 ==> Readable(disk, size, rs[..n], ps)
  {
  }

  lemma PrefixOf(tr: seq<Action>, trace: seq<Action>, rest: seq<Action>, all: seq<Action>)
    requires |tr| <= |trace| && trace[..|tr|] == tr && trace[|tr|..] + rest == all
    ensures exists k :: 0 <= k <= |all| && trace == tr + all[..k]
  {
    var k := |trace| - |tr|;
    assert all[..k] == trace[|tr|..];
    assert trace == tr + all[..k];
  }

  // ------------------------------------------------------------------------------ crash atomicity

  /** At every crash point, and after every interrupted recovery, recovery can read what it needs. */
  lemma {:induction false} MixedReadable(t: State, s: State, order: seq<nat>, list: seq<nat>, img: map<nat, Data>,
                                         lsn: nat, done: set<nat>, log: seq<Record>, ps: nat)
    requires CanFlush(s, order, list, img, lsn, ps) && Mixed(t, s, img, done, ps)
    requires forall k :: 0 <= k < |log| ==> log[k].offset in img && log[k].data == img[log[k].offset]
    ensures Readable(t.disk, t.size, log, ps)
    decreases |log|
  {
    if log != [] && log[|log| - 1].lsn != 0 {
      var o := log[|log| - 1].offset;
      MixedWrite(t, s, order, list, img, lsn, done, o, ps);
      MixedReadable(Exec(t, Write(o, img[o]), ps), s, order, list, img, lsn, done + {o}, log[..|log| - 1], ps);
    }
  }

  lemma RecoveryNeverFails(s: State, order: seq<nat>, list: seq<nat>, img: map<nat, Data>, lsn: nat, c: nat,
                           cuts: seq<nat>, ps: nat)
    requires CanFlush(s, order, list, img, lsn, ps) && lsn != 0 && c <= |LoggedFlush(order, list, img, lsn)|
    ensures var t := Interrupted(ExecAll(s, LoggedFlush(order, list, img, lsn)[..c], ps), cuts, ps);
      Complete(t.log) ==> Readable(t.disk, t.size, t.log, ps)
  {
    hide Mixed, Readable;
    var crashed := ExecAll(s, LoggedFlush(order, list, img, lsn)[..c], ps);
    FlushPhases(s, order, list, img, lsn, c, ps);
    OutcomeSteps(crashed, s, order, list, img, lsn, c >= |order|, cuts, ps);
    var t := Interrupted(crashed, cuts, ps);
    if Complete(t.log) {
      var done :| Mixed(t, s, img, done, ps);
      MixedReadable(t, s, order, list, img, lsn, done, t.log, ps);
    }
  }

  /** Changeset::flush as a whole: whatever the crash point of a flush that logs, and however often
      recovery is interrupted, the disk ends wholly before or wholly after the changeset. */
  lemma FlushAtomic(s: State, list: seq<nat>, pages: Pages, lsn: nat, c: nat, cuts: seq<nat>, ps: nat)
    requires s.log == [] && ps > 0 && MustLog(list, pages) && lsn != 0 && c <= |FlushSteps(list, pages, lsn)|
    requires forall o :: o in s.disk ==> o + ps <= s.size
    requires forall a :: a in DirtyData(list, pages) ==> a in s.disk || a == s.size
    ensures var crashed := ExecAll(s, FlushSteps(list, pages, lsn)[..c], ps); var t := Interrupted(crashed, cuts, ps);
      && Recovered(t, ps) == (if c >= |Dirty(list, pages)| then AfterImage(s, DirtyData(list, pages), ps) else s)
      && (Complete(t.log) ==> Readable(t.disk, t.size, t.log, ps))
  {
    hide Dirty, InBucket, DirtyData, Mixed, LoggedFlush, CanFlush;
    FlushIsLogged(s, list, pages, lsn, ps);
    Counts(list, pages);
    CrashAtomic(s, LogOrder(list, pages), Dirty(list, pages), DirtyData(list, pages), lsn, c, cuts, ps);
    RecoveryNeverFails(s, LogOrder(list, pages), Dirty(list, pages), DirtyData(list, pages), lsn, c, cuts, ps);
  }

  // -------------------------------------------------------------- exactly when a flush is atomic

  /** A crash after `c` steps and any recoveries after it leave the changeset wholly out or wholly in. */
  ghost predicate WholeAfter(s: State, steps: seq<Action>, img: map<nat, Data>, c: nat, cuts: seq<nat>, ps: nat)
    requires c <= |steps|
  {
    var t := Recovered(Interrupted(ExecAll(s, steps[..c], ps), cuts, ps), ps);
    t == s || t == AfterImage(s, img, ps)
  }

  ghost predicate CrashSafe(s: State, steps: seq<Action>, img: map<nat, Data>, ps: nat) {
    forall c, cuts :: 0 <= c <= |steps| ==> WholeAfter(s, steps, img, c, cuts, ps)
  }

  /** Recovery replays nothing if the log is empty, incomplete or without lsn. */
  lemma {:induction false} NothingReplayed(t: State, cuts: seq<nat>, ps: nat)
    requires Recovery(t.log) == [Truncate]
    ensures var u := Interrupted(t, cuts, ps); (u == t || u == t.(log := [])) && Recovered(u, ps) == t.(log := [])
  {
    ExecSnoc(t, [], Truncate, ps);
    ExecSnoc(t.(log := []), [], Truncate, ps);
    if cuts != [] {
      NothingReplayed(t, cuts[..|cuts| - 1], ps);
      var u := Interrupted(t, cuts[..|cuts| - 1], ps);
      assert Recovery(u.log) == [Truncate];
      assert [Truncate][..0] == [] && [Truncate][..1] == [Truncate];
    }
  }

  lemma {:induction false} WritesKeepLog(s: State, log: seq<Record>, acts: seq<Action>, ps: nat)
    requires forall k :: 0 <= k < |acts| ==> acts[k].Write?
    ensures ExecAll(s.(log := log), acts, ps) == ExecAll(s, acts, ps).(log := log)
  {
    if acts != [] { WritesKeepLog(s, log, acts[..|acts| - 1], ps); }
  }

  /** The pages written at a crash point. */
  function WrittenAt(logged: nat, n: nat, c: nat): (w: nat)
    ensures w <= n
  {
    if c < logged then 0 else if c - logged <= n then c - logged else n
  }

  /** Appending the records of lsn 0, writing the pages, clearing the log: what a crash leaves. */
  lemma CrashPoint(s: State, rs: seq<Record>, W: seq<Action>, c: nat, ps: nat)
    requires s.log == [] && (forall k :: 0 <= k < |rs| ==> rs[k].lsn == 0) && (forall k :: 0 <= k < |W| ==> W[k].Write?)
    requires c <= |Appends(rs) + W + [Truncate]|
    ensures var t := ExecAll(s, (Appends(rs) + W + [Truncate])[..c], ps);
      Recovery(t.log) == [Truncate] && t.(log := []) == ExecAll(s, W[..WrittenAt(|rs|, |W|, c)], ps)
  {
    hide ExecAll;
    var A, all := Appends(rs), Appends(rs) + W + [Truncate];
    var w := WrittenAt(|rs|, |W|, c);
    ExecNone(s, ps);
    WritesKeepLog(s, rs, W[..w], ps);
    WritesKeepLog(s, [], W[..w], ps);
    assert s.(log := []) == s;
    if c < |rs| {
      ExecAppends(s, rs, c, ps);
      assert all[..c] == A[..c] && W[..0] == [];
    } else {
      ExecAppends(s, rs, |rs|, ps);
      assert A[..|rs|] == A && rs[..|rs|] == rs && s.log + rs == rs;
      ExecConcat(s, A, W[..w], ps);
      if c <= |rs| + |W| {
        assert all[..c] == A + W[..w];
      } else {
        assert W[..w] == W && all[..c] == A + W + [Truncate];
        ExecSnoc(s, A + W, Truncate, ps);
      }
    }
  }

  lemma ExecNone(s: State, ps: nat)
    ensures ExecAll(s, [], ps) == s
  {
  }

  /** Without a usable log a flush is as atomic as its page writes. */
  lemma OnlyWrites(s: State, rs: seq<Record>, list: seq<nat>, img: map<nat, Data>, ps: nat)
    requires s.log == [] && (forall k :: 0 <= k < |rs| ==> rs[k].lsn == 0) &&
      (forall k :: 0 <= k < |list| ==> list[k] in img)
    ensures CrashSafe(s, Appends(rs) + Writes(list, img) + [Truncate], img, ps) <==> WritesAtomic(s, list, img, ps)
  {
    hide ExecAll, Interrupted, Recovered, Recovery, Appends, Writes;
    var W := Writes(list, img);
    var steps := Appends(rs) + W + [Truncate];
    WritesAreWrites(list, img);
    forall c, cuts | 0 <= c <= |steps|
      ensures WholeAfter(s, steps, img, c, cuts, ps) <==> WholeAt(s, list, img, WrittenAt(|rs|, |list|, c), ps)
    {
      CrashPoint(s, rs, W, c, ps);
      NothingReplayed(ExecAll(s, steps[..c], ps), cuts, ps);
    }
    if CrashSafe(s, steps, img, ps) {
      forall w | 0 <= w <= |list| ensures WholeAt(s, list, img, w, ps) {
        assert WholeAfter(s, steps, img, |rs| + w, [], ps);
      }
    }
  }

  lemma WritesAreWrites(list: seq<nat>, img: map<nat, Data>)
    requires forall k :: 0 <= k < |list| ==> list[k] in img
    ensures forall k :: 0 <= k < |list| ==> Writes(list, img)[k].Write?
  {
  }

  /** Changeset::flush is atomic for all crash points and interrupted recoveries exactly if it logs,
      with an lsn, or if at most one page differs from the disk. */
  lemma FlushAtomicExactly(s: State, list: seq<nat>, pages: Pages, lsn: nat, ps: nat)
    requires s.log == [] && ps > 0 && ChangesetFlush.Distinct(list)
    requires forall o :: o in s.disk ==> o + ps <= s.size
    requires forall a :: a in DirtyData(list, pages) ==> a in s.disk || a == s.size
    ensures CrashSafe(s, FlushSteps(list, pages, lsn), DirtyData(list, pages), ps)
      <==> (MustLog(list, pages) && lsn != 0) || AtMostOneDiffers(s, DirtyData(list, pages))
  {
    hide Dirty, InBucket, DirtyData, LoggedFlush, CanFlush, ExecAll, Interrupted, Recovered, WritesAtomic,
      AtMostOneDiffers, WholeAfter;
    var img, steps, D := DirtyData(list, pages), FlushSteps(list, pages, lsn), Dirty(list, pages);
    OrderCovers(list, pages);
    if D == [] {
      NothingDirty(s, list, pages, lsn, ps);
    } else if MustLog(list, pages) && lsn != 0 {
      forall c, cuts | 0 <= c <= |steps| ensures WholeAfter(s, steps, img, c, cuts, ps) {
        LoggedWhole(s, list, pages, lsn, c, cuts, ps);
      }
    } else {
      DirtyDistinct(list, pages);
      WritesCanFlush(s, list, pages, lsn, ps);
      UnloggedAtomic(s, D, img, lsn, ps);
      var rs := if MustLog(list, pages) then Records(LogOrder(list, pages), img, lsn) else [];
      OnlyWrites(s, rs, D, img, ps);
      StepsAre(list, pages, lsn, rs);
    }
  }

  /** Two dirty index pages, the header page among them, are flushed atomically. */
  lemma TwoIndexPages(s: State, list: seq<nat>, pages: Pages, lsn: nat, ps: nat, a: nat, b: nat)
    requires s.log == [] && ps > 0 && ChangesetFlush.Distinct(list) && lsn != 0
    requires forall o :: o in s.disk ==> o + ps <= s.size
    requires forall a :: a in DirtyData(list, pages) ==> a in s.disk || a == s.size
    requires a != b && a in list && a in pages && pages[a].dirty && b in list && b in pages && pages[b].dirty
    requires pages[a].header || (!pages[a].noHeader && pages[a].kind in {BRoot, BIndex, HeaderPage})
    requires pages[b].header || (!pages[b].noHeader && pages[b].kind in {BRoot, BIndex, HeaderPage})
    ensures CrashSafe(s, FlushSteps(list, pages, lsn), DirtyData(list, pages), ps)
  {
    hide InBucket, FlushSteps, CrashSafe;
    BucketIs(list, pages, Indices, a);
    BucketIs(list, pages, Indices, b);
    FlushAtomicExactly(s, list, pages, lsn, ps);
  }

  /** So is everything together with one dirty page of unknown kind. */
  lemma UnknownPage(s: State, list: seq<nat>, pages: Pages, lsn: nat, ps: nat, a: nat)
    requires s.log == [] && ps > 0 && ChangesetFlush.Distinct(list) && lsn != 0
    requires forall o :: o in s.disk ==> o + ps <= s.size
    requires forall a :: a in DirtyData(list, pages) ==> a in s.disk || a == s.size
    requires a in list && a in pages && pages[a].dirty
    requires !pages[a].header && !pages[a].noHeader && pages[a].kind == Unknown
    ensures CrashSafe(s, FlushSteps(list, pages, lsn), DirtyData(list, pages), ps)
  {
    hide InBucket, FlushSteps, CrashSafe;
    BucketIs(list, pages, Others, a);
    FlushAtomicExactly(s, list, pages, lsn, ps);
  }

  /** In all other cases nothing is logged. */
  lemma LogsOnlyThen(list: seq<nat>, pages: Pages, lsn: nat, k: nat)
    requires ChangesetFlush.Distinct(list) && k < |FlushSteps(list, pages, lsn)| &&
      FlushSteps(list, pages, lsn)[k].Append?
    ensures (exists a :: a in DirtyData(list, pages) && !pages[a].header && !pages[a].noHeader &&
                pages[a].kind == Unknown) ||
      (exists a, b :: a != b && a in DirtyData(list, pages) && b in DirtyData(list, pages) &&
         (pages[a].header || (!pages[a].noHeader && pages[a].kind in {BRoot, BIndex, HeaderPage})) &&
         (pages[b].header || (!pages[b].noHeader && pages[b].kind in {BRoot, BIndex, HeaderPage})))
  {
    hide InBucket, Dirty, DirtyData, LoggedFlush;
    OrderCovers(list, pages);
    assert MustLog(list, pages) by {
      if !MustLog(list, pages) { WritesAreWrites(Dirty(list, pages), DirtyData(list, pages)); }
    }
    var O, I := InBucket(list, pages, Others), InBucket(list, pages, Indices);
    if |O| > 0 {
      BucketIs(list, pages, Others, O[0]);
    } else {
      BucketDistinct(list, pages, Indices);
      BucketIs(list, pages, Indices, I[0]);
      BucketIs(list, pages, Indices, I[1]);
    }
  }

  lemma NothingDirty(s: State, list: seq<nat>, pages: Pages, lsn: nat, ps: nat)
    requires Dirty(list, pages) == [] && s.log == []
    ensures CrashSafe(s, FlushSteps(list, pages, lsn), DirtyData(list, pages), ps) &&
      AtMostOneDiffers(s, DirtyData(list, pages))
  {
    hide Interrupted, Recovered;
    forall a ensures a !in DirtyData(list, pages) { DirtyIs(list, pages, a); }
    assert DirtyData(list, pages) == map[] && s.disk + map[] == s.disk;
    forall cuts: seq<nat> ensures WholeAfter(s, [], map[], 0, cuts, ps) { NothingReplayed(s, cuts, ps); }
  }

  lemma LoggedWhole(s: State, list: seq<nat>, pages: Pages, lsn: nat, c: nat, cuts: seq<nat>, ps: nat)
    requires s.log == [] && ps > 0 && MustLog(list, pages) && lsn != 0 && c <= |FlushSteps(list, pages, lsn)|
    requires forall o :: o in s.disk ==> o + ps <= s.size
    requires forall a :: a in DirtyData(list, pages) ==> a in s.disk || a == s.size
    ensures WholeAfter(s, FlushSteps(list, pages, lsn), DirtyData(list, pages), c, cuts, ps)
  {
    hide Dirty, InBucket, DirtyData, LoggedFlush, ExecAll, Interrupted, Recovered, Readable;
    FlushAtomic(s, list, pages, lsn, c, cuts, ps);
  }

  lemma WritesCanFlush(s: State, list: seq<nat>, pages: Pages, lsn: nat, ps: nat)
    requires s.log == [] && ps > 0 && Dirty(list, pages) != []
    requires forall o :: o in s.disk ==> o + ps <= s.size
    requires forall a :: a in DirtyData(list, pages) ==> a in s.disk || a == s.size
    ensures CanFlush(s, Dirty(list, pages), Dirty(list, pages), DirtyData(list, pages), lsn, ps)
  {
    hide Dirty, InBucket, DirtyData;
    OrderCovers(list, pages);
  }

  lemma StepsAre(list: seq<nat>, pages: Pages, lsn: nat, rs: seq<Record>)
    requires Dirty(list, pages) != [] &&
      (forall k :: 0 <= k < |LogOrder(list, pages)| ==> LogOrder(list, pages)[k] in DirtyData(list, pages))
    requires rs == if MustLog(list, pages) then Records(LogOrder(list, pages), DirtyData(list, pages), lsn) else []
    ensures forall k :: 0 <= k < |Dirty(list, pages)| ==> Dirty(list, pages)[k] in DirtyData(list, pages)
    ensures FlushSteps(list, pages, lsn) == Appends(rs) + Writes(Dirty(list, pages), DirtyData(list, pages)) +
      [Truncate]
  {
    hide Dirty, InBucket, DirtyData;
    OrderCovers(list, pages);
    assert Appends([]) + Writes(Dirty(list, pages), DirtyData(list, pages)) ==
      Writes(Dirty(list, pages), DirtyData(list, pages));
  }
}
