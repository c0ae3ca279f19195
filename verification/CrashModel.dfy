/** Disk and log as a state machine whose steps are one log append, one page write or one truncation
    of the log; a crash keeps the effect of the steps done so far. */
module CrashModel {
  import opened Bytes
  import opened LogFormat

  /** The database file (pages by file offset, and its size) and the records in the log. */
  datatype State = State(disk: map<nat, Data>, size: nat, log: seq<Record>)

  datatype Action = Append(rec: Record) | Write(offset: nat, data: Data) | Truncate

  /** Writing behind the last page makes the file grow by one page. */
  function Exec(s: State, a: Action, ps: nat): State {
    match a
    case Append(r) => s.(log := s.log + [r])
    case Write(o, d) => s.(disk := s.disk[o := d], size := if o == s.size then s.size + ps else s.size)
    case Truncate => s.(log := [])
  }

  function ExecAll(s: State, acts: seq<Action>, ps: nat): State {
    if acts == [] then s else Exec(ExecAll(s, acts[..|acts| - 1], ps), acts[|acts| - 1], ps)
  }

  lemma ExecSnoc(s: State, acts: seq<Action>, a: Action, ps: nat)
    ensures ExecAll(s, acts + [a], ps) == Exec(ExecAll(s, acts, ps), a, ps)
  {
    assert (acts + [a])[..|acts|] == acts;
  }

  lemma {:induction false} ExecConcat(s: State, A: seq<Action>, B: seq<Action>, ps: nat)
    ensures ExecAll(s, A + B, ps) == ExecAll(ExecAll(s, A, ps), B, ps)
  {
    if B == [] {
      assert A + B == A;
    } else {
      var B' := B[..|B| - 1];
      assert (A + B)[..|A + B| - 1] == A + B';
      ExecConcat(s, A, B', ps);
    }
  }

  // ------------------------------------------------------------------------------ what the code does

  /** Log::append_page for every page, the last one marked complete. */
  function Records(order: seq<nat>, img: map<nat, Data>, lsn: nat): (rs: seq<Record>)
    requires forall k :: 0 <= k < |order| ==> order[k] in img
    ensures |rs| == |order|
  {
    seq(|order|, k requires 0 <= k < |order| => Record(lsn, if k == |order| - 1 then CHANGESET_IS_COMPLETE else 0,
        order[k], img[order[k]]))
  }

  function Appends(rs: seq<Record>): (r: seq<Action>)
    ensures |r| == |rs|
  {
    seq(|rs|, k requires 0 <= k < |rs| => Append(rs[k]))
  }

  function Writes(list: seq<nat>, img: map<nat, Data>): (r: seq<Action>)
    requires forall k :: 0 <= k < |list| ==> list[k] in img
    ensures |r| == |list|
  {
    seq(|list|, k requires 0 <= k < |list| => Write(list[k], img[list[k]]))
  }

  /** Changeset::flush with logging: log in bucket order, write in list order, clear the log. */
  function LoggedFlush(order: seq<nat>, list: seq<nat>, img: map<nat, Data>, lsn: nat): seq<Action>
    requires (forall k :: 0 <= k < |order| ==> order[k] in img) && (forall k :: 0 <= k < |list| ==> list[k] in img)
  {
    Appends(Records(order, img, lsn)) + Writes(list, img) + [Truncate]
  }

  /** The replay loop of Log::recover, from the last record backwards up to a record without lsn. */
  function Replay(log: seq<Record>): seq<Action> {
    if log == [] || log[|log| - 1].lsn == 0 then []
    else [Write(log[|log| - 1].offset, log[|log| - 1].data)] + Replay(log[..|log| - 1])
  }

  /** Log::recover */
  function Recovery(log: seq<Record>): seq<Action> {
    if log == [] || log[|log| - 1].flags != CHANGESET_IS_COMPLETE then [Truncate] else Replay(log) + [Truncate]
  }

  /** Recoveries that are interrupted after `cuts[k]` steps each. */
  function Interrupted(s: State, cuts: seq<nat>, ps: nat): State {
    if cuts == [] then s
    else
      var t := Interrupted(s, cuts[..|cuts| - 1], ps);
      var acts := Recovery(t.log);
      var c := cuts[|cuts| - 1];
      ExecAll(t, if c <= |acts| then acts[..c] else acts, ps)
  }

  function Recovered(s: State, ps: nat): State { ExecAll(s, Recovery(s.log), ps) }

  // ------------------------------------------------------------------------------ the changeset

  /** What a logged flush starts from: an empty log, every page once in both orders, every page in the
      file or right behind its end. */
  ghost predicate CanFlush(s: State, order: seq<nat>, list: seq<nat>, img: map<nat, Data>, lsn: nat, ps: nat) {
    && s.log == [] && ps > 0 && |order| > 0
    && (forall o :: o in s.disk ==> o + ps <= s.size)
    && (forall k :: 0 <= k < |order| ==> order[k] in img) && (forall k :: 0 <= k < |list| ==> list[k] in img)
    && (forall o :: o in img ==> o in order && o in list)
    && (forall o :: o in img ==> o in s.disk || o == s.size)
  }

  /** The after-image: all pages of the changeset written. */
  function AfterImage(s: State, img: map<nat, Data>, ps: nat): State {
    State(s.disk + img, if s.size in img then s.size + ps else s.size, [])
  }

  /** The pages in `done` are written, the others are not. */
  ghost predicate Mixed(t: State, s: State, img: map<nat, Data>, done: set<nat>, ps: nat) {
    && (forall o :: o in done ==> o in img)
    && t.disk == s.disk + (map o | o in img && o in done :: img[o])
    && t.size == if s.size in done then s.size + ps else s.size
  }

  lemma MixedWrite(t: State, s: State, order: seq<nat>, list: seq<nat>, img: map<nat, Data>, lsn: nat, done: set<nat>,
                   o: nat, ps: nat)
    requires CanFlush(s, order, list, img, lsn, ps) && Mixed(t, s, img, done, ps) && o in img
    ensures Mixed(Exec(t, Write(o, img[o]), ps), s, img, done + {o}, ps)
  {
  }

  lemma MixedAll(t: State, s: State, img: map<nat, Data>, done: set<nat>, ps: nat)
    requires Mixed(t, s, img, done, ps) && (forall o :: o in img ==> o in done)
    ensures t.disk == s.disk + img && t.size == AfterImage(s, img, ps).size
  {
    assert (map o | o in img && o in done :: img[o]) == img;
  }

  /** Some writes of changeset pages, in any order and any number of times. */
  ghost predicate PageWrites(acts: seq<Action>, img: map<nat, Data>) {
    forall k :: 0 <= k < |acts| ==> acts[k].Write? && acts[k].offset in img && acts[k].data == img[acts[k].offset]
  }

  ghost function Written(acts: seq<Action>): set<nat> {
    set k | 0 <= k < |acts| && acts[k].Write? :: acts[k].offset
  }

  lemma {:induction false} MixedWrites(t: State, s: State, order: seq<nat>, list: seq<nat>, img: map<nat, Data>,
                                       lsn: nat, done: set<nat>, acts: seq<Action>, ps: nat)
    requires CanFlush(s, order, list, img, lsn, ps) && Mixed(t, s, img, done, ps) && PageWrites(acts, img)
    ensures Mixed(ExecAll(t, acts, ps), s, img, done + Written(acts), ps) && ExecAll(t, acts, ps).log == t.log
  {
    hide Mixed, CanFlush;
    if acts == [] {
      assert done + Written(acts) == done;
    } else {
      var n := |acts| - 1;
      MixedWrites(t, s, order, list, img, lsn, done, acts[..n], ps);
      MixedWrite(ExecAll(t, acts[..n], ps), s, order, list, img, lsn, done + Written(acts[..n]), acts[n].offset, ps);
      assert done + Written(acts) == done + Written(acts[..n]) + {acts[n].offset} by {
        assert Written(acts) == Written(acts[..n]) + {acts[n].offset};
      }
    }
  }

  // ------------------------------------------------------------------------------ crash points

  /** Not everything was logged yet, nothing was written. */
  ghost predicate Early(t: State, s: State, rs: seq<Record>) {
    t.disk == s.disk && t.size == s.size && exists k :: 0 <= k < |rs| && t.log == rs[..k]
  }

  /** Everything was logged, some pages were written. */
  ghost predicate Late(t: State, s: State, rs: seq<Record>, img: map<nat, Data>, ps: nat) {
    t.log == rs && exists done :: Mixed(t, s, img, done, ps)
  }

  lemma {:induction false} ExecAppends(s: State, rs: seq<Record>, k: nat, ps: nat)
    requires k <= |rs|
    ensures ExecAll(s, Appends(rs)[..k], ps) == s.(log := s.log + rs[..k])
  {
    if k > 0 {
      ExecAppends(s, rs, k - 1, ps);
      assert Appends(rs)[..k] == Appends(rs)[..k - 1] + [Append(rs[k - 1])];
      ExecSnoc(s, Appends(rs)[..k - 1], Append(rs[k - 1]), ps);
      assert s.log + rs[..k - 1] + [rs[k - 1]] == s.log + rs[..k];
    } else {
      assert s.log + rs[..0] == s.log;
    }
  }

  lemma WritesAre(list: seq<nat>, img: map<nat, Data>, k: nat)
    requires (forall j :: 0 <= j < |list| ==> list[j] in img) && k <= |list|
    ensures PageWrites(Writes(list, img)[..k], img)
    ensures k == |list| ==> forall o :: o in list ==> o in Written(Writes(list, img)[..k])
  {
    var W := Writes(list, img)[..k];
    if k == |list| {
      forall o | o in list ensures o in Written(W) {
        var j :| 0 <= j < |list| && list[j] == o;
        assert W[j].offset == o && W[j].Write?;
      }
    }
  }

  /** The state at every crash point of a logged flush. */
  lemma FlushPhases(s: State, order: seq<nat>, list: seq<nat>, img: map<nat, Data>, lsn: nat, c: nat, ps: nat)
    requires CanFlush(s, order, list, img, lsn, ps) && c <= |LoggedFlush(order, list, img, lsn)|
    ensures var t := ExecAll(s, LoggedFlush(order, list, img, lsn)[..c], ps); var rs := Records(order, img, lsn);
      && (c < |order| ==> Early(t, s, rs))
      && (|order| <= c < |LoggedFlush(order, list, img, lsn)| ==> Late(t, s, rs, img, ps))
      && (c == |LoggedFlush(order, list, img, lsn)| ==> t == AfterImage(s, img, ps))
  {
    hide Mixed, Written, PageWrites, ExecAll, Records, Appends, Writes, AfterImage;
    var rs, acts := Records(order, img, lsn), LoggedFlush(order, list, img, lsn);
    if c < |order| {
      assert acts[..c] == Appends(rs)[..c];
      ExecAppends(s, rs, c, ps);
      assert s.log + rs[..c] == rs[..c];
    } else {
      var k := if c == |acts| then |list| else c - |order|;
      var W := Writes(list, img)[..k];
      assert Appends(rs)[..|rs|] == Appends(rs);
      ExecAppends(s, rs, |rs|, ps);
      assert s.log + rs[..|rs|] == rs;
      var t := ExecAll(s, Appends(rs), ps);
      NothingWritten(t, s, img, ps);
      WritesAre(list, img, k);
      MixedWrites(t, s, order, list, img, lsn, {}, W, ps);
      ExecConcat(s, Appends(rs), W, ps);
      assert acts[..|order| + k] == Appends(rs) + W;
      if c == |acts| {
        AllDone(ExecAll(t, W, ps), s, order, list, img, lsn, W, ps);
        assert acts == acts[..|order| + k] + [Truncate];
        assert acts[..c] == acts;
        ExecSnoc(s, acts[..|order| + k], Truncate, ps);
      }
    }
  }

  lemma NothingWritten(t: State, s: State, img: map<nat, Data>, ps: nat)
    requires t.disk == s.disk && t.size == s.size
    ensures Mixed(t, s, img, {}, ps)
  {
  }

  lemma AllDone(t: State, s: State, order: seq<nat>, list: seq<nat>, img: map<nat, Data>, lsn: nat, W: seq<Action>,
                ps: nat)
    requires CanFlush(s, order, list, img, lsn, ps) && Mixed(t, s, img, {} + Written(W), ps) && forall o ::
      o in list ==> o in Written(W)
    ensures Exec(t, Truncate, ps) == AfterImage(s, img, ps)
  {
    hide Mixed, Written;
    MixedAll(t, s, img, {} + Written(W), ps);
  }

  // ------------------------------------------------------------------------------ recovery

  /** All records of the flush are replayed. */
  lemma {:induction false} ReplayAll(log: seq<Record>, img: map<nat, Data>)
    requires forall k :: 0 <= k < |log| ==> log[k].lsn != 0 && log[k].offset in img && log[k].data == img[log[k].offset]
    ensures PageWrites(Replay(log), img) && forall k :: 0 <= k < |log| ==> log[k].offset in Written(Replay(log))
  {
    if log != [] {
      var n := |log| - 1;
      ReplayAll(log[..n], img);
      var a := Write(log[n].offset, log[n].data);
      var R := Replay(log[..n]);
      assert Replay(log) == [a] + R;
      forall k | 0 <= k < |log| ensures log[k].offset in Written([a] + R) {
        if k < n {
          assert log[..n][k].offset in Written(R);
          var j :| 0 <= j < |R| && R[j].Write? && R[j].offset == log[k].offset;
          assert ([a] + R)[j + 1] == R[j];
        } else {
          assert ([a] + R)[0] == a;
        }
      }
    }
  }

  lemma EarlyRecovery(t: State, s: State, order: seq<nat>, img: map<nat, Data>, lsn: nat)
    requires (forall k :: 0 <= k < |order| ==> order[k] in img) && |order| > 0 && Early(t, s, Records(order, img, lsn))
    ensures Recovery(t.log) == [Truncate]
  {
  }

  ghost predicate Outcome(t: State, s: State, order: seq<nat>, img: map<nat, Data>, lsn: nat, complete: bool, ps: nat)
    requires forall k :: 0 <= k < |order| ==> order[k] in img
  {
    if complete then Late(t, s, Records(order, img, lsn), img, ps) || t == AfterImage(s, img, ps)
    else Early(t, s, Records(order, img, lsn))
  }

  lemma LateStep(t: State, s: State, order: seq<nat>, list: seq<nat>, img: map<nat, Data>, lsn: nat, c: nat, ps: nat)
    requires CanFlush(s, order, list, img, lsn, ps) && lsn != 0 && Late(t, s, Records(order, img, lsn), img, ps) &&
      c <= |Recovery(t.log)|
    ensures var u := ExecAll(t, Recovery(t.log)[..c], ps);
      if c < |Recovery(t.log)| then Late(u, s, Records(order, img, lsn), img, ps) else u == AfterImage(s, img, ps)
  {
    hide Mixed, PageWrites, Written;
    var rs := Records(order, img, lsn);
    var done :| Mixed(t, s, img, done, ps);
    var R, acts := Replay(rs), Recovery(rs);
    assert acts == R + [Truncate];
    ReplayAll(rs, img);
    var k := if c < |acts| then c else |R|;
    PrefixWrites(R, img, k);
    MixedWrites(t, s, order, list, img, lsn, done, R[..k], ps);
    if c < |acts| {
      assert acts[..c] == R[..c];
    } else {
      assert R[..|R|] == R && acts[..c] == R + [Truncate];
      ExecSnoc(t, R, Truncate, ps);
      forall o | o in img ensures o in done + Written(R) {
        var j :| 0 <= j < |order| && order[j] == o;
        assert rs[j].offset == o;
      }
      MixedAll(ExecAll(t, R, ps), s, img, done + Written(R), ps);
    }
  }

  lemma PrefixWrites(R: seq<Action>, img: map<nat, Data>, k: nat)
    requires PageWrites(R, img) && k <= |R|
    ensures PageWrites(R[..k], img)
  {
  }

  lemma OutcomeStep(t: State, s: State, order: seq<nat>, list: seq<nat>, img: map<nat, Data>, lsn: nat, complete: bool,
                    c: nat, ps: nat)
    requires CanFlush(s, order, list, img, lsn, ps) && lsn != 0 && Outcome(t, s, order, img, lsn, complete, ps) &&
      c <= |Recovery(t.log)|
    ensures var u := ExecAll(t, Recovery(t.log)[..c], ps);
      && Outcome(u, s, order, img, lsn, complete, ps)
      && (c == |Recovery(t.log)| ==> u == if complete then AfterImage(s, img, ps) else s)
  {
    hide Mixed, CanFlush;
    OrderOk(s, order, list, img, lsn, ps);
    var rs := Records(order, img, lsn);
    var acts := Recovery(t.log);
    if complete && t != AfterImage(s, img, ps) {
      LateStep(t, s, order, list, img, lsn, c, ps);
    } else {
      if !complete { EarlyRecovery(t, s, order, img, lsn); }
      assert acts == [Truncate];
      if c == 0 {
        assert acts[..0] == [];
      } else {
        assert acts[..c] == [] + [Truncate];
        ExecSnoc(t, [], Truncate, ps);
        if !complete { StartOk(s, order, list, img, lsn, ps); assert rs[..0] == []; }
      }
    }
  }

  lemma OrderOk(s: State, order: seq<nat>, list: seq<nat>, img: map<nat, Data>, lsn: nat, ps: nat)
    requires CanFlush(s, order, list, img, lsn, ps)
    ensures |order| > 0 && forall k :: 0 <= k < |order| ==> order[k] in img
  {
  }

  lemma StartOk(s: State, order: seq<nat>, list: seq<nat>, img: map<nat, Data>, lsn: nat, ps: nat)
    requires CanFlush(s, order, list, img, lsn, ps)
    ensures s.log == [] && |order| > 0
  {
  }

  lemma {:induction false} OutcomeSteps(t: State, s: State, order: seq<nat>, list: seq<nat>, img: map<nat, Data>,
                                        lsn: nat, complete: bool, cuts: seq<nat>, ps: nat)
    requires CanFlush(s, order, list, img, lsn, ps) && lsn != 0 && Outcome(t, s, order, img, lsn, complete, ps)
    ensures Outcome(Interrupted(t, cuts, ps), s, order, img, lsn, complete, ps)
  {
    hide Mixed, CanFlush, Outcome;
    if cuts != [] {
      var u := Interrupted(t, cuts[..|cuts| - 1], ps);
      OutcomeSteps(t, s, order, list, img, lsn, complete, cuts[..|cuts| - 1], ps);
      var acts, c := Recovery(u.log), cuts[|cuts| - 1];
      assert acts[..|acts|] == acts;
      OutcomeStep(u, s, order, list, img, lsn, complete, if c <= |acts| then c else |acts|, ps);
    }
  }

  /** A logged flush that crashes after `c` steps, then any number of recoveries that crash as well,
      then one that completes: the disk is wholly at the after-image if everything was logged before
      the crash, and wholly at the before-image otherwise. */
  lemma CrashAtomic(s: State, order: seq<nat>, list: seq<nat>, img: map<nat, Data>, lsn: nat, c: nat, cuts: seq<nat>,
                    ps: nat)
    requires CanFlush(s, order, list, img, lsn, ps) && lsn != 0 && c <= |LoggedFlush(order, list, img, lsn)|
    ensures var crashed := ExecAll(s, LoggedFlush(order, list, img, lsn)[..c], ps);
      Recovered(Interrupted(crashed, cuts, ps), ps) == if c >= |order| then AfterImage(s, img, ps) else s
  {
    hide Mixed, Early, Late;
    var crashed := ExecAll(s, LoggedFlush(order, list, img, lsn)[..c], ps);
    FlushPhases(s, order, list, img, lsn, c, ps);
    OutcomeSteps(crashed, s, order, list, img, lsn, c >= |order|, cuts, ps);
    var t := Interrupted(crashed, cuts, ps);
    var acts := Recovery(t.log);
    assert acts[..|acts|] == acts;
    OutcomeStep(t, s, order, list, img, lsn, c >= |order|, |acts|, ps);
  }

  // ------------------------------------------------------------------------------ whole runs

  /** One flush: it completes, or crashes after `cut` steps and is recovered after further crashes. */
  datatype Epoch = Epoch(order: seq<nat>, list: seq<nat>, img: map<nat, Data>, lsn: nat, crashes: bool, cut: nat,
      cuts: seq<nat>) {
    ghost predicate Ok(s: State, ps: nat) {
      CanFlush(s, order, list, img, lsn, ps) && lsn != 0 && (crashes ==> cut <= |LoggedFlush(order, list, img, lsn)|)
    }

    /** Everything was in the log before the crash, if there was one. */
    predicate Committed() { !crashes || cut >= |order| }
  }

  function RunEpoch(s: State, e: Epoch, ps: nat): State
    requires (forall k :: 0 <= k < |e.order| ==> e.order[k] in e.img) &&
      (forall k :: 0 <= k < |e.list| ==> e.list[k] in e.img)
    requires e.crashes ==> e.cut <= |LoggedFlush(e.order, e.list, e.img, e.lsn)|
  {
    var acts := LoggedFlush(e.order, e.list, e.img, e.lsn);
    if e.crashes then Recovered(Interrupted(ExecAll(s, acts[..e.cut], ps), e.cuts, ps), ps) else ExecAll(s, acts, ps)
  }

  lemma EpochAtomic(s: State, e: Epoch, ps: nat)
    requires e.Ok(s, ps)
    ensures RunEpoch(s, e, ps) == if e.Committed() then AfterImage(s, e.img, ps) else s
  {
    hide Mixed, Early, Late;
    var acts := LoggedFlush(e.order, e.list, e.img, e.lsn);
    assert acts[..|acts|] == acts;
    if e.crashes {
      CrashAtomic(s, e.order, e.list, e.img, e.lsn, e.cut, e.cuts, ps);
    } else {
      FlushPhases(s, e.order, e.list, e.img, e.lsn, |acts|, ps);
    }
  }

  lemma StepAtomic(s: State, e: Epoch, t: State, ps: nat)
    requires IsStep(s, e, t, ps)
    ensures t == if e.Committed() then AfterImage(s, e.img, ps) else s
  {
    hide CanFlush, RunEpoch;
    EpochAtomic(s, e, ps);
  }

  /** A run in which every flush starts as it should in the state the run is then in. */
  ghost predicate IsRun(s: State, es: seq<Epoch>, states: seq<State>, ps: nat) {
    && |states| == |es| + 1 && states[0] == s
    && forall k :: 0 <= k < |es| ==> IsStep(states[k], es[k], states[k + 1], ps)
  }

  ghost predicate IsStep(s: State, e: Epoch, t: State, ps: nat) { e.Ok(s, ps) && t == RunEpoch(s, e, ps) }

  /** The reference: the committed changesets, applied one after the other. */
  function Commits(s: State, es: seq<Epoch>, ps: nat): State {
    if es == [] then s
    else
      var t := Commits(s, es[..|es| - 1], ps);
      if es[|es| - 1].Committed() then AfterImage(t, es[|es| - 1].img, ps) else t
  }

  /** After any run of flushes, crashes and recoveries the disk holds exactly the committed changesets. */
  lemma {:induction false} RunIsCommits(s: State, es: seq<Epoch>, states: seq<State>, ps: nat)
    requires IsRun(s, es, states, ps)
    ensures states[|es|] == Commits(s, es, ps)
  {
    hide CanFlush, LoggedFlush, IsStep;
    if es != [] {
      var n := |es| - 1;
      assert IsRun(s, es[..n], states[..n + 1], ps) by {
        forall k | 0 <= k < n ensures IsStep(states[..n + 1][k], es[..n][k], states[..n + 1][k + 1], ps) {
          assert IsStep(states[k], es[k], states[k + 1], ps);
        }
      }
      RunIsCommits(s, es[..n], states[..n + 1], ps);
      assert IsStep(states[n], es[n], states[n + 1], ps);
      StepAtomic(states[n], es[n], states[n + 1], ps);
    }
  }

  // ------------------------------------------------------------------------------ without the log

  ghost predicate Differs(s: State, img: map<nat, Data>, o: nat) { o in img && (o !in s.disk || s.disk[o] != img[o]) }

  ghost predicate AtMostOneDiffers(s: State, img: map<nat, Data>) {
    forall a, b :: Differs(s, img, a) && Differs(s, img, b) ==> a == b
  }

  /** Writing `list` page by page is atomic if a crash never leaves a mixture. */
  ghost predicate WritesAtomic(s: State, list: seq<nat>, img: map<nat, Data>, ps: nat)
    requires forall k :: 0 <= k < |list| ==> list[k] in img
  {
    forall c :: 0 <= c <= |list| ==> WholeAt(s, list, img, c, ps)
  }

  ghost predicate WholeAt(s: State, list: seq<nat>, img: map<nat, Data>, c: nat, ps: nat)
    requires (forall k :: 0 <= k < |list| ==> list[k] in img) && c <= |list|
  {
    var t := ExecAll(s, Writes(list, img)[..c], ps);
    t == s || t == AfterImage(s, img, ps)
  }

  lemma PrefixState(s: State, list: seq<nat>, img: map<nat, Data>, lsn: nat, c: nat, ps: nat)
    requires CanFlush(s, list, list, img, lsn, ps) && c <= |list|
    ensures var t := ExecAll(s, Writes(list, img)[..c], ps);
      Mixed(t, s, img, set k | 0 <= k < c :: list[k], ps) && t.log == []
  {
    hide Mixed;
    NothingWritten(s, s, img, ps);
    WritesAre(list, img, c);
    var W := Writes(list, img)[..c];
    MixedWrites(s, s, list, list, img, lsn, {}, W, ps);
    var D := set k | 0 <= k < c :: list[k];
    forall k | 0 <= k < c ensures list[k] in Written(W) { assert W[k].Write? && W[k].offset == list[k]; }
    assert {} + Written(W) == D;
  }

  /** Without logging (or with an lsn of zero, see below) a flush is atomic exactly if at most one page
      differs from what is on disk. */
  lemma UnloggedAtomic(s: State, list: seq<nat>, img: map<nat, Data>, lsn: nat, ps: nat)
    requires CanFlush(s, list, list, img, lsn, ps) && (forall a, b :: 0 <= a < b < |list| ==> list[a] != list[b])
    ensures WritesAtomic(s, list, img, ps) <==> AtMostOneDiffers(s, img)
  {
    hide Mixed, ExecAll, Writes, WholeAt;
    if AtMostOneDiffers(s, img) {
      forall c | 0 <= c <= |list| ensures WholeAt(s, list, img, c, ps) { OneDiffers(s, list, img, lsn, c, ps); }
    }
    if WritesAtomic(s, list, img, ps) {
      forall a, b | Differs(s, img, a) && Differs(s, img, b) ensures a == b {
        var j :| 0 <= j < |list| && list[j] == a;
        var k :| 0 <= k < |list| && list[k] == b;
        if j < k { TwoDiffer(s, list, img, lsn, j, k, ps); }
        if k < j { TwoDiffer(s, list, img, lsn, k, j, ps); }
      }
    }
  }

  lemma OneDiffers(s: State, list: seq<nat>, img: map<nat, Data>, lsn: nat, c: nat, ps: nat)
    requires CanFlush(s, list, list, img, lsn, ps) && AtMostOneDiffers(s, img) && c <= |list|
    ensures WholeAt(s, list, img, c, ps)
  {
    PrefixState(s, list, img, lsn, c, ps);
    var t := ExecAll(s, Writes(list, img)[..c], ps);
    var D := set k | 0 <= k < c :: list[k];
    if o :| o in D && Differs(s, img, o) {
      forall x | x in img ensures x in t.disk && t.disk[x] == img[x] { assert x != o ==> !Differs(s, img, x); }
      assert t.disk == s.disk + img;
      assert s.size in img ==> Differs(s, img, s.size);
    } else {
      assert t.disk == s.disk;
      assert s.size in img ==> Differs(s, img, s.size);
    }
  }

  lemma TwoDiffer(s: State, list: seq<nat>, img: map<nat, Data>, lsn: nat, j: nat, k: nat, ps: nat)
    requires CanFlush(s, list, list, img, lsn, ps) && (forall a, b :: 0 <= a < b < |list| ==> list[a] != list[b])
    requires j < k < |list| && Differs(s, img, list[j]) && Differs(s, img, list[k])
    ensures !WholeAt(s, list, img, j + 1, ps)
  {
    PrefixState(s, list, img, lsn, j + 1, ps);
    var t := ExecAll(s, Writes(list, img)[..j + 1], ps);
    var D := set x | 0 <= x < j + 1 :: list[x];
    assert list[j] in D && list[k] !in D;
    assert t.disk[list[j]] == img[list[j]];
    assert list[k] in t.disk ==> t.disk[list[k]] != img[list[k]];
    assert AfterImage(s, img, ps).disk[list[k]] == img[list[k]];
  }

  /** A log whose records carry no lsn is complete but not replayed. */
  lemma ZeroLsnNotReplayed(t: State, order: seq<nat>, img: map<nat, Data>, ps: nat)
    requires |order| > 0 && (forall k :: 0 <= k < |order| ==> order[k] in img) && t.log == Records(order, img, 0)
    ensures Recovered(t, ps) == t.(log := [])
  {
    assert Recovery(t.log) == [] + [Truncate];
    ExecSnoc(t, [], Truncate, ps);
  }
}
