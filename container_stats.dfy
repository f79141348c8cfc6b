/** One container's statistics tracker (containerStats): the snapshot the
    render loop reads, the per-sample update, the watchdog and the terminal
    error, first as values and then as the object whose fields are updated. */
module Tracker {

  import opened Wrappers
  import opened UInt64
  import opened CpuPercent

  /** A Go `error`, kept as the text `%v` prints. */
  datatype Error = Error(message: string)

  /** The six published fields, always replaced together. */
  datatype Snapshot = Snapshot(
    cpuPercentage: real,
    memory: real,
    memoryLimit: real,
    memoryPercentage: real,
    networkRx: real,
    networkTx: real
  )

  /** Everything one tracker holds: the published snapshot, the terminal
      error, and the collection loop's previous counters and first-sample flag. */
  datatype TrackerState = TrackerState(
    snapshot: Snapshot,
    err: Option<Error>,
    previousCPU: uint64,
    previousSystem: uint64,
    start: bool
  )

  /** A line written to the table: the column header, or one container's row
      of five columns (name, CPU %, memory usage/limit, memory %, network rx/tx). */
  datatype Line =
    | Header
    | Row(name: string, cpuPercentage: real, memoryUsageLimit: (real, real),
          memoryPercentage: real, networkIO: (real, real))

  /** What the collection loop can observe next: a decoded record, a decode
      failure (or end of stream), or the 2-second watchdog firing first. */
  datatype Event = Decoded(sample: Sample) | DecodeFailed(error: Error) | Timeout

  /** A freshly created tracker: zero values, no error, first sample pending. */
  const Initial: TrackerState :=
    TrackerState(Snapshot(0.0, 0.0, 0.0, 0.0, 0.0, 0.0), None, 0, 0, true)

  /** The relations that hold between the fields of any snapshot built from a
      single sample (or zeroed by the watchdog): no field is negative and the
      memory percentage is usage over limit times 100. */
  predicate Consistent(s: Snapshot)
  {
    && s.cpuPercentage >= 0.0
    && s.memory >= 0.0
    && s.memoryLimit >= 0.0
    && s.memoryPercentage >= 0.0
    && s.networkRx >= 0.0
    && s.networkTx >= 0.0
    && s.memoryPercentage * s.memoryLimit == s.memory * 100.0
  }

  predicate WellFormed(v: Sample)
  {
    v.memoryLimit > 0
  }

  /** One decoded sample: CPU % is 0 for the first sample and otherwise taken
      against the previous counters; all six fields come from `v`; `v`'s
      counters become the previous ones. */
  function AfterSample(t: TrackerState, v: Sample): TrackerState
    requires WellFormed(v)
  {
    var memPercent := v.memoryUsage as real / v.memoryLimit as real * 100.0;
    var cpuPercent := if t.start then 0.0 else CalculateCPUPercent(t.previousCPU, t.previousSystem, v);
    TrackerState(
      Snapshot(cpuPercent, v.memoryUsage as real, v.memoryLimit as real, memPercent,
               v.rxBytes as real, v.txBytes as real),
      t.err, v.totalUsage, v.systemUsage, false)
  }

  /** The watchdog: no sample for 2 seconds zeroes CPU %, memory and memory %. */
  function AfterWatchdog(t: TrackerState): TrackerState
  {
    t.(snapshot := t.snapshot.(cpuPercentage := 0.0, memory := 0.0, memoryPercentage := 0.0))
  }

  /** A setup or decode error becomes the tracker's terminal error. */
  function AfterFailure(t: TrackerState, e: Error): TrackerState
    requires t.err.None?
  {
    t.(err := Some(e))
  }

  function RowOf(name: string, s: Snapshot): Line
  {
    Row(name, s.cpuPercentage, (s.memory, s.memoryLimit), s.memoryPercentage, (s.networkRx, s.networkTx))
  }

  /** What Display does with a tracker in state `t`: the error and no row, or
      no error and one row appended to `w`. */
  function Render(name: string, t: TrackerState, w: seq<Line>): (seq<Line>, Option<Error>)
  {
    if t.err.Some? then (w, t.err) else (w + [RowOf(name, t.snapshot)], None)
  }

  predicate AllWellFormed(evs: seq<Event>)
  {
    forall i :: 0 <= i < |evs| && evs[i].Decoded? ==> WellFormed(evs[i].sample)
  }

  lemma WellFormedParts(a: seq<Event>, b: seq<Event>)
    requires AllWellFormed(a + b)
    ensures AllWellFormed(a) && AllWellFormed(b)
  {
    assert forall i :: 0 <= i < |a| ==> (a + b)[i] == a[i];
    assert forall i :: 0 <= i < |b| ==> (a + b)[|a| + i] == b[i];
  }

  function Step(t: TrackerState, e: Event): TrackerState
    requires t.err.None?
    requires e.Decoded? ==> WellFormed(e.sample)
  {
    match e
    case Decoded(v) => AfterSample(t, v)
    case DecodeFailed(x) => AfterFailure(t, x)
    case Timeout => AfterWatchdog(t)
  }

  /** The collection loop run over a stream of events: it stops at the first
      decode failure and ignores whatever would have followed. */
  function Replay(t: TrackerState, evs: seq<Event>): TrackerState
    requires t.err.None? && AllWellFormed(evs)
    decreases |evs|
  {
    if evs == [] then t
    else if evs[0].DecodeFailed? then Step(t, evs[0])
    else Replay(Step(t, evs[0]), evs[1..])
  }

  /** Collect's loop starts with zero previous counters and the first-sample
      flag set, whatever the tracker held before. */
  function Restarted(t: TrackerState): TrackerState
  {
    t.(previousCPU := 0, previousSystem := 0, start := true)
  }

  /** The whole of Collect: a setup error fails the tracker at once,
      otherwise the events are replayed from a restarted loop. */
  function Collected(t: TrackerState, setup: Option<Error>, evs: seq<Event>): TrackerState
    requires t.err.None? && AllWellFormed(evs)
  {
    if setup.Some? then AfterFailure(t, setup.value) else Replay(Restarted(t), evs)
  }

  /** The first decode failure in a stream, if any. */
  function FirstError(evs: seq<Event>): Option<Error>
  {
    if evs == [] then None
    else if evs[0].DecodeFailed? then Some(evs[0].error)
    else FirstError(evs[1..])
  }

  /** The last decoded sample in a stream, if any. */
  function LastSample(evs: seq<Event>): Option<Sample>
  {
    if evs == [] then None
    else if evs[|evs| - 1].Decoded? then Some(evs[|evs| - 1].sample)
    else LastSample(evs[..|evs| - 1])
  }

  // ---------------------------------------------------------------------
  // Properties of one update

  lemma SampleIsConsistent(t: TrackerState, v: Sample)
    requires WellFormed(v)
    ensures Consistent(AfterSample(t, v).snapshot)
    ensures AfterSample(t, v).err == t.err
  {
  }

  /** The watchdog zeroes only CPU %, memory and memory %; the limit, the
      network counters, the error and the collection state are untouched, and
      the next sample fully replaces its effect. */
  lemma WatchdogOnlyZeroesVolatileFields(t: TrackerState, v: Sample)
    requires WellFormed(v)
    ensures var z := AfterWatchdog(t).snapshot;
      z.cpuPercentage == 0.0 && z.memory == 0.0 && z.memoryPercentage == 0.0
      && z.memoryLimit == t.snapshot.memoryLimit
      && z.networkRx == t.snapshot.networkRx && z.networkTx == t.snapshot.networkTx
    ensures AfterWatchdog(t).err == t.err
    ensures Consistent(t.snapshot) ==> Consistent(AfterWatchdog(t).snapshot)
    ensures AfterSample(AfterWatchdog(t), v) == AfterSample(t, v)
  {
  }

  /** Display reports the error exactly when one is set, writing nothing then,
      and otherwise writes one row whose memory columns agree with each other. */
  lemma RenderReportsErrorOrOneRow(name: string, t: TrackerState, w: seq<Line>)
    requires Consistent(t.snapshot)
    ensures Render(name, t, w).1 == t.err
    ensures t.err.Some? ==> Render(name, t, w).0 == w
    ensures t.err.None? ==> |Render(name, t, w).0| == |w| + 1 && Render(name, t, w).0[..|w|] == w
    ensures t.err.None? ==>
      var row := Render(name, t, w).0[|w|];
      row.Row? && row.name == name
      && row.memoryPercentage * row.memoryUsageLimit.1 == row.memoryUsageLimit.0 * 100.0
  {
  }

  // ---------------------------------------------------------------------
  // Properties of the collection loop

  /** Every snapshot the loop publishes is internally consistent. */
  lemma {:induction false} ReplayKeepsConsistent(t: TrackerState, evs: seq<Event>)
    requires t.err.None? && AllWellFormed(evs) && Consistent(t.snapshot)
    ensures Consistent(Replay(t, evs).snapshot)
    decreases |evs|
  {
    if evs != [] {
      match evs[0]
      case Decoded(v) =>
        SampleIsConsistent(t, v);
        assert AllWellFormed(evs[1..]);
        ReplayKeepsConsistent(AfterSample(t, v), evs[1..]);
      case DecodeFailed(_) =>
      case Timeout =>
        ReplayKeepsConsistent(AfterWatchdog(t), evs[1..]);
    }
  }

  /** The loop ends with an error exactly when the stream held a decode
      failure, and the error is the first one. */
  lemma {:induction false} ReplayError(t: TrackerState, evs: seq<Event>)
    requires t.err.None? && AllWellFormed(evs)
    ensures Replay(t, evs).err == FirstError(evs)
    decreases |evs|
  {
    if evs != [] && !evs[0].DecodeFailed? {
      assert AllWellFormed(evs[1..]);
      ReplayError(Step(t, evs[0]), evs[1..]);
    }
  }

  /** After a decode failure the loop has returned: nothing later in the stream
      changes the tracker, so the error is never cleared or replaced. */
  lemma {:induction false} NothingAfterFailure(t: TrackerState, evs: seq<Event>, later: seq<Event>)
    requires t.err.None? && AllWellFormed(evs + later)
    requires FirstError(evs).Some?
    ensures AllWellFormed(evs)
    ensures Replay(t, evs + later) == Replay(t, evs)
    decreases |evs|
  {
    WellFormedParts(evs, later);
    assert evs != [];
    assert (evs + later)[0] == evs[0];
    if !evs[0].DecodeFailed? {
      assert (evs + later)[1..] == evs[1..] + later;
      NothingAfterFailure(Step(t, evs[0]), evs[1..], later);
    }
  }

  /** Appending one event to a stream without failures applies one more step. */
  lemma {:induction false} ReplaySnoc(t: TrackerState, evs: seq<Event>, e: Event)
    requires t.err.None? && AllWellFormed(evs + [e]) && FirstError(evs).None?
    ensures AllWellFormed(evs) && Replay(t, evs).err.None?
    ensures e.Decoded? ==> WellFormed(e.sample)
    ensures Replay(t, evs + [e]) == Step(Replay(t, evs), e)
    decreases |evs|
  {
    WellFormedParts(evs, [e]);
    assert [e][0] == e;
    if evs == [] {
      assert evs + [e] == [e];
    } else {
      assert (evs + [e])[0] == evs[0];
      assert (evs + [e])[1..] == evs[1..] + [e];
      ReplaySnoc(Step(t, evs[0]), evs[1..], e);
    }
  }

  /** The loop remembers the counters of the last decoded sample; before any
      sample it keeps the counters and the first-sample flag it started with. */
  lemma {:induction false} ReplayRemembersLastSample(t: TrackerState, evs: seq<Event>)
    requires t.err.None? && AllWellFormed(evs) && FirstError(evs).None?
    ensures match LastSample(evs)
      case None =>
        Replay(t, evs).start == t.start
        && Replay(t, evs).previousCPU == t.previousCPU
        && Replay(t, evs).previousSystem == t.previousSystem
      case Some(v) =>
        !Replay(t, evs).start
        && Replay(t, evs).previousCPU == v.totalUsage
        && Replay(t, evs).previousSystem == v.systemUsage
    decreases |evs|
  {
    if evs != [] {
      var init, last := evs[..|evs| - 1], evs[|evs| - 1];
      assert evs == init + [last];
      FirstErrorOfPrefix(init, [last]);
      ReplaySnoc(t, init, last);
      ReplayRemembersLastSample(t, init);
    }
  }

  lemma {:induction false} FirstErrorOfPrefix(a: seq<Event>, b: seq<Event>)
    requires FirstError(a + b).None?
    ensures FirstError(a).None? && FirstError(b).None?
    decreases |a|
  {
    if a == [] {
      assert a + b == b;
    } else {
      assert (a + b)[0] == a[0];
      assert (a + b)[1..] == a[1..] + b;
      FirstErrorOfPrefix(a[1..], b);
    }
  }

  /** CPU % follows the previous sample: the sample that ends a failure-free
      stream is measured against the last sample before it (timeouts in
      between do not matter), and against the starting counters if there was
      none, unless the tracker had never seen a sample. */
  lemma CpuFollowsPreviousSample(t: TrackerState, evs: seq<Event>, v: Sample)
    requires t.err.None? && AllWellFormed(evs + [Decoded(v)]) && FirstError(evs).None?
    ensures Replay(t, evs + [Decoded(v)]).snapshot.cpuPercentage ==
      match LastSample(evs)
      case Some(u) => CalculateCPUPercent(u.totalUsage, u.systemUsage, v)
      case None => if t.start then 0.0 else CalculateCPUPercent(t.previousCPU, t.previousSystem, v)
  {
    ReplaySnoc(t, evs, Decoded(v));
    ReplayRemembersLastSample(t, evs);
  }

  /** The first decoded sample of a new tracker always publishes CPU % = 0,
      whatever its counters. */
  lemma FirstSampleCpuZero(evs: seq<Event>, v: Sample)
    requires AllWellFormed(evs + [Decoded(v)]) && FirstError(evs).None? && LastSample(evs).None?
    ensures Replay(Initial, evs + [Decoded(v)]).snapshot.cpuPercentage == 0.0
  {
    CpuFollowsPreviousSample(Initial, evs, v);
  }

  /** Each sample replaces memory, limit, memory %, rx and tx from that one
      sample, whatever came before it. */
  lemma SampleSetsAllFields(t: TrackerState, evs: seq<Event>, v: Sample)
    requires t.err.None? && AllWellFormed(evs + [Decoded(v)]) && FirstError(evs).None?
    ensures var s := Replay(t, evs + [Decoded(v)]).snapshot;
      s.memory == v.memoryUsage as real && s.memoryLimit == v.memoryLimit as real
      && s.memoryPercentage * s.memoryLimit == s.memory * 100.0
      && s.networkRx == v.rxBytes as real && s.networkTx == v.txBytes as real
  {
    ReplaySnoc(t, evs, Decoded(v));
    var before := Replay(t, evs);
    SampleIsConsistent(before, v);
    assert Replay(t, evs + [Decoded(v)]) == AfterSample(before, v);
  }

  /** No tearing: after a failure-free stream whose last decoded sample is
      `u`, the published limit, rx and tx are `u`'s, and memory and memory %
      are either `u`'s or zeroed by a later timeout, which also zeroes CPU %. */
  lemma {:induction false} SnapshotFromLastSample(t: TrackerState, evs: seq<Event>, u: Sample)
    requires t.err.None? && AllWellFormed(evs) && FirstError(evs).None?
    requires LastSample(evs) == Some(u)
    ensures WellFormed(u)
    ensures var s := Replay(t, evs).snapshot;
      && s.memoryLimit == u.memoryLimit as real
      && s.networkRx == u.rxBytes as real
      && s.networkTx == u.txBytes as real
      && ((s.memory == u.memoryUsage as real
           && s.memoryPercentage == u.memoryUsage as real / u.memoryLimit as real * 100.0)
          || (s.memory == 0.0 && s.memoryPercentage == 0.0 && s.cpuPercentage == 0.0))
    decreases |evs|
  {
    var init, last := evs[..|evs| - 1], evs[|evs| - 1];
    assert evs == init + [last];
    FirstErrorOfPrefix(init, [last]);
    ReplaySnoc(t, init, last);
    if !last.Decoded? {
      assert [last][1..] == [];
      SnapshotFromLastSample(t, init, u);
    }
  }

  // ---------------------------------------------------------------------
  // The tracker object

  class ContainerStats {
    const name: string
    var cpuPercentage: real
    var memory: real
    var memoryLimit: real
    var memoryPercentage: real
    var networkRx: real
    var networkTx: real
    var err: Option<Error>
    // the collection loop's own state
    var previousCPU: uint64
    var previousSystem: uint64
    var start: bool

    function State(): TrackerState
      reads this
    {
      TrackerState(
        Snapshot(cpuPercentage, memory, memoryLimit, memoryPercentage, networkRx, networkTx),
        err, previousCPU, previousSystem, start)
    }

    predicate Valid()
      reads this
    {
      Consistent(State().snapshot)
    }

    function CurrentRow(): Line
      reads this
    {
      RowOf(name, State().snapshot)
    }

    constructor (name: string)
      ensures this.name == name && State() == Initial && Valid()
    {
      this.name := name;
      cpuPercentage, memory, memoryLimit, memoryPercentage := 0.0, 0.0, 0.0, 0.0;
      networkRx, networkTx := 0.0, 0.0;
      err := None;
      previousCPU, previousSystem, start := 0, 0, true;
    }

    /** The body of the decode loop for one decoded record. */
    method ApplySample(v: Sample)
      requires Valid() && WellFormed(v)
      modifies this
      ensures Valid() && State() == AfterSample(old(State()), v)
    {
      var memPercent := v.memoryUsage as real / v.memoryLimit as real * 100.0;
      var cpuPercent := 0.0;
      if !start {
        cpuPercent := CalculateCPUPercent(previousCPU, previousSystem, v);
      }
      start := false;
      cpuPercentage := cpuPercent;
      memory := v.memoryUsage as real;
      memoryLimit := v.memoryLimit as real;
      memoryPercentage := memPercent;
      networkRx := v.rxBytes as real;
      networkTx := v.txBytes as real;
      previousCPU := v.totalUsage;
      previousSystem := v.systemUsage;
      SampleIsConsistent(old(State()), v);
    }

    /** The timeout branch of Collect's select. */
    method Watchdog()
      requires Valid()
      modifies this
      ensures Valid() && State() == AfterWatchdog(old(State()))
    {
      cpuPercentage := 0.0;
      memory := 0.0;
      memoryPercentage := 0.0;
    }

    /** The setup-error and decode-error branches of Collect. */
    method Fail(e: Error)
      requires Valid() && err.None?
      modifies this
      ensures Valid() && State() == AfterFailure(old(State()), e)
    {
      err := Some(e);
    }

    /** Collect: a setup error ends it at once; otherwise each event is
      handled in turn until a decode failure ends the loop. */
    method Collect(setup: Option<Error>, events: seq<Event>)
      requires Valid() && err.None? && AllWellFormed(events)
      modifies this
      ensures Valid() && State() == Collected(old(State()), setup, events)
    {
      if setup.Some? {
        Fail(setup.value);
        return;
      }
      previousCPU, previousSystem, start := 0, 0, true;
      var i := 0;
      while i < |events|
        invariant 0 <= i <= |events|
        invariant Valid() && err.None?
        invariant AllWellFormed(events[i..])
        invariant Replay(State(), events[i..]) == Replay(Restarted(old(State())), events)
      {
        assert events[i..][1..] == events[i + 1..];
        match events[i] {
          case Timeout =>
            Watchdog();
          case Decoded(v) =>
            ApplySample(v);
          case DecodeFailed(e) =>
            Fail(e);
            return;
        }
        i := i + 1;
      }
    }

    /** Display: the terminal error if there is one, and then nothing is
      written; otherwise one row of the current snapshot is written. */
    method Display(w: seq<Line>) returns (w': seq<Line>, r: Option<Error>)
      ensures r == err
      ensures r.Some? ==> w' == w
      ensures r.None? ==> w' == w + [CurrentRow()]
      ensures (w', r) == Render(name, State(), w)
    {
      if err.Some? {
        return w, err;
      }
      w' := w + [Row(name, cpuPercentage, (memory, memoryLimit), memoryPercentage, (networkRx, networkTx))];
      r := None;
    }
  }
}
