/** When the token is taken matters: a Process call as a program of small steps, with the state
    snapshotted between any two of them. The shipped design moves an offset first; the design it
    replaced set a Done flag last. */
module Snapshots {
  import opened GoStrings
  import opened Scans
  import opened Runs

  datatype Op = Advance | CheckDone | Build | Yield | SetDone

  /** The part of the state that a token carries. */
  datatype Persisted = Persisted(scan: ScanState, done: bool)

  datatype Frame = Frame(live: Persisted, window: Option<(nat, nat)>, batch: Option<Batch>, sent: Option<Response>)

  /** cursorBounds, then the batch, then the emit. */
  const OFFSET_DESIGN := [Advance, Build, Yield]

  /** All rows in one batch, and the flag that ends the scan set after the emit. */
  const DONE_DESIGN := [CheckDone, Build, Yield, SetDone]

  predicate IsFrame(f: Frame) {
    InRange(f.live.scan) && (f.window.Some? ==> f.window.value.0 <= f.window.value.1 <= Size(f.live.scan))
  }

  function Do(op: Op, f: Frame): (r: Frame)
    requires IsFrame(f)
    ensures IsFrame(r)
  {
    var scan := f.live.scan;
    match op
    case Advance =>
      if scan.offset >= Size(scan) then f.(sent := Some(Finish))
      else
        var end := Min(scan.offset + ROWS_PER_TICK, Size(scan));
        f.(live := f.live.(scan := scan.(offset := end)), window := Some((scan.offset, end)))
    case CheckDone =>
      if f.live.done then f.(sent := Some(Finish)) else f.(window := Some((0, Size(scan))))
    case Build =>
      if f.window.None? then f else f.(batch := Some(Columns(scan, f.window.value.0, f.window.value.1)))
    case Yield =>
      if f.batch.None? then f else f.(sent := Some(Emit(f.batch.value)))
    case SetDone =>
      if f.batch.None? then f else f.(live := f.live.(done := true))
  }

  /** The frame after the first p steps of a program. */
  function Perform(ops: seq<Op>, p: nat, s: Persisted): (r: Frame)
    requires InRange(s.scan) && p <= |ops|
    ensures IsFrame(r)
  {
    if p == 0 then Frame(s, None, None, None) else Do(ops[p - 1], Perform(ops, p - 1, s))
  }

  /** An exchange whose token is taken after the first p steps. */
  function Exchange(ops: seq<Op>, p: nat, s: Persisted): (r: (Response, Persisted))
    requires InRange(s.scan) && p <= |ops|
    ensures InRange(r.1.scan)
  {
    var sent := Perform(ops, |ops|, s).sent;
    (if sent.Some? then sent.value else Finish, Perform(ops, p, s).live)
  }

  /** The responses of k exchanges, each resuming from the token of the one before. */
  function SnapRun(ops: seq<Op>, p: nat, s: Persisted, k: nat): (responses: seq<Response>)
    requires InRange(s.scan) && p <= |ops|
    ensures |responses| == k
    decreases k
  {
    if k == 0 then [] else
      var (response, next) := Exchange(ops, p, s);
      [response] + SnapRun(ops, p, next, k - 1)
  }

  /** In the offset design the program is one tick, and its first step settles what a token carries. */
  lemma OffsetExchange(p: nat, st: ScanState)
    requires InRange(st) && p <= 3
    ensures var s := Persisted(st, false);
      Exchange(OFFSET_DESIGN, p, s) == (Tick(st).1, if p == 0 then s else Persisted(Tick(st).0, false))
  {
    var s := Persisted(st, false);
    var f1 := Perform(OFFSET_DESIGN, 1, s);
    assert Perform(OFFSET_DESIGN, 0, s) == Frame(s, None, None, None) && OFFSET_DESIGN[0] == Advance;
    var f2 := Perform(OFFSET_DESIGN, 2, s);
    assert f2 == Do(Build, f1);
    var f3 := Perform(OFFSET_DESIGN, 3, s);
    assert f3 == Do(Yield, f2);
    assert f1.live == f2.live == f3.live == Persisted(Tick(st).0, false);
    if st.offset < Size(st) {
      assert Columns(Tick(st).0, st.offset, Tick(st).0.offset) == Columns(st, st.offset, Tick(st).0.offset);
    }
  }

  lemma {:induction false} LateSnapshot(p: nat, st: ScanState, k: nat)
    requires InRange(st) && 1 <= p <= 3
    ensures SnapRun(OFFSET_DESIGN, p, Persisted(st, false), k) == MemRun(st, k)
    decreases k
  {
    if k > 0 {
      OffsetExchange(p, st);
      LateSnapshot(p, Tick(st).0, k - 1);
    }
  }

  lemma {:induction false} EarlySnapshot(st: ScanState, k: nat, i: nat)
    requires InRange(st) && i < k
    ensures SnapRun(OFFSET_DESIGN, 0, Persisted(st, false), k)[i] == Tick(st).1
    decreases k
  {
    OffsetExchange(0, st);
    if i > 0 {
      EarlySnapshot(st, k - 1, i - 1);
    }
  }

  /** The offset design is insensitive to the moment of the snapshot: the token may be taken anywhere
      after cursorBounds. Only a snapshot before it would go wrong, and that on every scan with rows
      left. */
  lemma OffsetDesign(p: nat, st: ScanState)
    requires InRange(st) && p <= 3
    ensures (forall k: nat :: SnapRun(OFFSET_DESIGN, p, Persisted(st, false), k) == MemRun(st, k))
            <==> p >= 1 || st.offset == Size(st)
  {
    var s := Persisted(st, false);
    if p >= 1 {
      forall k: nat
        ensures SnapRun(OFFSET_DESIGN, p, s, k) == MemRun(st, k)
      {
        LateSnapshot(p, st, k);
      }
    } else if st.offset == Size(st) {
      forall k: nat
        ensures SnapRun(OFFSET_DESIGN, p, s, k) == MemRun(st, k)
      {
        forall i | 0 <= i < k
          ensures SnapRun(OFFSET_DESIGN, p, s, k)[i] == MemRun(st, k)[i]
        {
          EarlySnapshot(st, k, i);
          ExactTicks(st, k, i);
        }
      }
    } else {
      var k := EmittingTicks(Size(st) - st.offset) + 1;
      EarlySnapshot(st, k, k - 1);
      ExactTicks(st, k, k - 1);
      assert SnapRun(OFFSET_DESIGN, p, s, k)[k - 1] != MemRun(st, k)[k - 1];
    }
  }

  /** All rows of a scan in one batch. */
  function Whole(st: ScanState): Batch
    requires InRange(st)
  {
    Columns(st, 0, Size(st))
  }

  lemma DoneExchange(p: nat, st: ScanState, done: bool)
    requires InRange(st) && p <= 4
    ensures Exchange(DONE_DESIGN, p, Persisted(st, done))
            == (if done then Finish else Emit(Whole(st)), Persisted(st, done || p == 4))
  {
    var s := Persisted(st, done);
    var f1 := Perform(DONE_DESIGN, 1, s);
    assert Perform(DONE_DESIGN, 0, s) == Frame(s, None, None, None) && DONE_DESIGN[0] == CheckDone;
    var f2 := Perform(DONE_DESIGN, 2, s);
    assert f2 == Do(Build, f1);
    var f3 := Perform(DONE_DESIGN, 3, s);
    assert f3 == Do(Yield, f2);
    var f4 := Perform(DONE_DESIGN, 4, s);
    assert f4 == Do(SetDone, f3);
  }

  lemma {:induction false} DoneResponses(p: nat, st: ScanState, done: bool, k: nat, i: nat)
    requires InRange(st) && p <= 4 && i < k
    ensures SnapRun(DONE_DESIGN, p, Persisted(st, done), k)[i]
            == if done || (p == 4 && i > 0) then Finish else Emit(Whole(st))
    decreases k
  {
    DoneExchange(p, st, done);
    if i > 0 {
      DoneResponses(p, st, done || p == 4, k - 1, i - 1);
    }
  }

  /** Exchange i of a scan in the replaced design finishes. */
  ghost predicate Finishes(p: nat, st: ScanState, i: nat)
    requires InRange(st) && p <= 4
  {
    SnapRun(DONE_DESIGN, p, Persisted(st, false), i + 1)[i] == Finish
  }

  /** The replaced design: with the token taken at the emit, or anywhere before the flag is set, every
      exchange of every scan repeats the same batch and none finishes; it only works when the state is
      kept to the very end of the call, as the transports with live state do. */
  lemma DoneDesign(p: nat, st: ScanState)
    requires InRange(st) && p <= 4
    ensures (exists i: nat :: Finishes(p, st, i)) <==> p == 4
    ensures p < 4 ==> forall k: nat, i: nat ::
      i < k ==> SnapRun(DONE_DESIGN, p, Persisted(st, false), k)[i] == Emit(Whole(st))
  {
    forall k: nat, i: nat | i < k
      ensures SnapRun(DONE_DESIGN, p, Persisted(st, false), k)[i]
              == if p == 4 && i > 0 then Finish else Emit(Whole(st))
    {
      DoneResponses(p, st, false, k, i);
    }
    DoneResponses(p, st, false, 2, 1);
    assert Finishes(p, st, 1) <==> p == 4;
  }
}
