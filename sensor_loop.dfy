/**
  The body of the photocell firmware's `while True` loop: read the light
  sensor on a 20 ms cadence into a buffer, and once a second publish the
  buffer's mean over MQTT and drop the oldest half of the buffer.  Any
  exception ends the current pass of the loop; the next pass starts from
  whatever state the failed pass had reached.

  The clock, the sensor and the publish call are inputs: one `Tick` holds
  what each of them returns during one pass.  `Next` is the pass as a
  function of the state; `Sampler` is the firmware's module-level state
  with `Step` updating it in place.
 */
module SensorLoop {
  import opened Samples

  datatype Option<T> = None | Some(value: T)

  /** `mqtt_publish_frequency_in_seconds`, in milliseconds. */
  const PUBLISH_PERIOD_MS: int := 1000
  /** `sensor_read_frequency_in_seconds`, in milliseconds. */
  const READ_PERIOD_MS: int := 20

  /** `last_publish`, `last_read_sensor` and `light_sensor_samples`. */
  datatype LoopState = LoopState(lastPublish: Option<int>, lastRead: Option<int>, samples: seq<int>)

  /** The state before the first pass: no read, no publish, an empty buffer. */
  function Init(): LoopState
  {
    LoopState(None, None, [])
  }

  /**
    What the outside world supplies to one pass.  Each `time.monotonic()`
    call is its own reading, in milliseconds; a reading is only looked at
    when the code reaches the call that makes it.  `readOk` is false when
    the sensor read or the append raises; `publishOk` is false when the
    sum or the MQTT publish raises.
   */
  datatype Tick = Tick(
    readCheckTime: int,     // clock compared against the last read
    reading: int,           // value returned by the photocell
    readOk: bool,
    readDoneTime: int,      // clock recorded as the last read
    publishCheckTime: int,  // clock compared against the last publish
    publishOk: bool,
    publishDoneTime: int)   // clock recorded as the last publish

  /** The exceptions that can end a pass early. */
  datatype Fault = SensorFault | ZeroDivision | PublishFault

  /** How a pass ended: normally, with the mean it published if any, or by an exception. */
  datatype Outcome = Done(sent: Option<real>) | Failed(fault: Fault)

  datatype Transition = Transition(next: LoopState, outcome: Outcome)

  predicate Published(o: Outcome)
  {
    o.Done? && o.sent.Some?
  }

  /** A read is due on the first pass and whenever more than 20 ms have passed since the last one. */
  predicate ReadDue(s: LoopState, now: int)
  {
    s.lastRead.None? || now > s.lastRead.value + READ_PERIOD_MS
  }

  /** A publish is due on the first pass and whenever more than 1 s has passed since the last one. */
  predicate PublishDue(s: LoopState, now: int)
  {
    s.lastPublish.None? || now > s.lastPublish.value + PUBLISH_PERIOD_MS
  }

  /** The first `if` block: append a reading and record the time. */
  function ReadPhase(s: LoopState, t: Tick): Transition
  {
    if !ReadDue(s, t.readCheckTime) then Transition(s, Done(None))
    else if !t.readOk then Transition(s, Failed(SensorFault))
    else Transition(s.(samples := s.samples + [t.reading], lastRead := Some(t.readDoneTime)), Done(None))
  }

  /** The second `if` block: mean, publish, drop the oldest half, record the time. */
  function PublishPhase(s: LoopState, t: Tick): Transition
  {
    if !PublishDue(s, t.publishCheckTime) then Transition(s, Done(None))
    else if |s.samples| == 0 then Transition(s, Failed(ZeroDivision))
    else if !t.publishOk then Transition(s, Failed(PublishFault))
    else
      Transition(s.(samples := Truncate(s.samples), lastPublish := Some(t.publishDoneTime)),
                 Done(Some(Mean(s.samples))))
  }

  /** One pass of the loop body; an exception in the read block skips the publish block. */
  function Next(s: LoopState, t: Tick): Transition
  {
    var r := ReadPhase(s, t);
    if r.outcome.Failed? then r else PublishPhase(r.next, t)
  }

  /** The state after running the passes `ticks` in order from `s`. */
  function Run(s: LoopState, ticks: seq<Tick>): LoopState
  {
    if ticks == [] then s
    else Next(Run(s, ticks[..|ticks| - 1]), ticks[|ticks| - 1]).next
  }

  /** How many of the passes `ticks`, run from `s`, published a value. */
  function PublishCount(s: LoopState, ticks: seq<Tick>): nat
  {
    if ticks == [] then 0
    else
      var before := ticks[..|ticks| - 1];
      PublishCount(s, before) + if Published(Next(Run(s, before), ticks[|ticks| - 1]).outcome) then 1 else 0
  }

  /**
    How many of the passes `ticks`, run from `s`, read the sensor: the read
    was due at that pass's clock and did not raise.
   */
  function ReadCount(s: LoopState, ticks: seq<Tick>): nat
  {
    if ticks == [] then 0
    else
      var before := ticks[..|ticks| - 1];
      var t := ticks[|ticks| - 1];
      ReadCount(s, before) + if ReadDue(Run(s, before), t.readCheckTime) && t.readOk then 1 else 0
  }

  /**
    A publish cycle that reads at most k times: every pass but the last
    publishes nothing, and the last one publishes.
   */
  predicate PublishCycle(s: LoopState, ticks: seq<Tick>, k: nat)
  {
    0 < |ticks| && ReadCount(s, ticks) <= k &&
    PublishCount(s, ticks[..|ticks| - 1]) == 0 &&
    Published(Next(Run(s, ticks[..|ticks| - 1]), ticks[|ticks| - 1]).outcome)
  }

  /** The passes of consecutive cycles, in order. */
  function Concat(cycles: seq<seq<Tick>>): seq<Tick>
  {
    if cycles == [] then [] else Concat(cycles[..|cycles| - 1]) + cycles[|cycles| - 1]
  }

  /** The buffer is empty exactly until the first successful read. */
  predicate Inv(s: LoopState)
  {
    s.lastRead.None? <==> s.samples == []
  }

  // ---------------------------------------------------------------------
  // Properties of a single pass

  /**
    On the first pass a read and a publish are both due.  A raising read
    leaves the state initial; a successful read followed by a raising
    publish keeps the reading; if both succeed, the reading itself is
    published and kept.
   */
  lemma FirstPass(t: Tick)
    ensures ReadDue(Init(), t.readCheckTime) && PublishDue(Init(), t.publishCheckTime)
    ensures !t.readOk ==> Next(Init(), t) == Transition(Init(), Failed(SensorFault))
    ensures t.readOk && !t.publishOk ==>
      Next(Init(), t) == Transition(LoopState(None, Some(t.readDoneTime), [t.reading]), Failed(PublishFault))
    ensures t.readOk && t.publishOk ==>
      Next(Init(), t) == Transition(LoopState(Some(t.publishDoneTime), Some(t.readDoneTime), [t.reading]),
                                    Done(Some(t.reading as real)))
  {
    assert [t.reading][1..] == [];
    assert Sum([t.reading]) == t.reading;
  }

  /**
    A successful read appends exactly the new reading after every earlier
    one; otherwise the read block changes nothing.
   */
  lemma ReadAppends(s: LoopState, t: Tick)
    ensures var r := ReadPhase(s, t);
      if ReadDue(s, t.readCheckTime) && t.readOk then
        |r.next.samples| == |s.samples| + 1 &&
        r.next.samples[..|s.samples|] == s.samples &&
        r.next.samples[|s.samples|] == t.reading
      else r.next == s
  {
  }

  /**
    Each timestamp moves only when its action succeeded, and then to the
    clock reading taken after the action.  A value is published exactly
    when the read block did not raise, the publish was due (the read block
    leaves `last_publish` alone), the buffer is non-empty and the publish
    call returned.
   */
  lemma TimestampsOnlyOnSuccess(s: LoopState, t: Tick)
    ensures var r := Next(s, t);
      if ReadDue(s, t.readCheckTime) && t.readOk then r.next.lastRead == Some(t.readDoneTime)
      else r.next.lastRead == s.lastRead
    ensures var r := Next(s, t);
      if Published(r.outcome) then r.next.lastPublish == Some(t.publishDoneTime)
      else r.next.lastPublish == s.lastPublish
    ensures Published(Next(s, t).outcome) <==>
      ReadPhase(s, t).outcome.Done? && PublishDue(s, t.publishCheckTime) && t.publishOk &&
      ReadPhase(s, t).next.samples != []
  {
  }

  /**
    A published value is the mean of the buffer as it stood after this
    pass's read, lies between that buffer's smallest and largest reading,
    and the buffer is then cut to its newer half.
   */
  lemma SentIsMean(s: LoopState, t: Tick)
    requires Published(Next(s, t).outcome)
    ensures var buffer := ReadPhase(s, t).next.samples;
      var v := Next(s, t).outcome.sent.value;
      |buffer| > 0 &&
      buffer == (if ReadDue(s, t.readCheckTime) then s.samples + [t.reading] else s.samples) &&
      v == Mean(buffer) &&
      Min(buffer) as real <= v <= Max(buffer) as real &&
      Next(s, t).next.samples == Truncate(buffer)
  {
    var buffer := ReadPhase(s, t).next.samples;
    assert Next(s, t) == PublishPhase(ReadPhase(s, t).next, t);
    MeanWithinRange(buffer);
  }

  /**
    When the publish raises, nothing is deleted and `last_publish` keeps
    its value, so the publish is due again on every later pass with the
    whole buffer still in place.
   */
  lemma PublishFaultRetries(s: LoopState, t: Tick, later: int)
    requires Next(s, t).outcome == Failed(PublishFault)
    requires later >= t.publishCheckTime
    ensures Next(s, t).next == ReadPhase(s, t).next
    ensures Next(s, t).next.lastPublish == s.lastPublish
    ensures PublishDue(Next(s, t).next, later)
  {
  }

  /** From a state satisfying `Inv`, a pass never divides by zero and keeps `Inv`. */
  lemma NoZeroDivision(s: LoopState, t: Tick)
    requires Inv(s)
    ensures Next(s, t).outcome != Failed(ZeroDivision)
    ensures Inv(Next(s, t).next)
  {
  }

  // ---------------------------------------------------------------------
  // Properties of runs of passes

  /** `Inv` holds after any run that starts in it, in particular after any run from `Init`. */
  lemma {:induction false} RunKeepsInv(s: LoopState, ticks: seq<Tick>)
    requires Inv(s)
    ensures Inv(Run(s, ticks))
  {
    if ticks != [] {
      RunKeepsInv(s, ticks[..|ticks| - 1]);
      NoZeroDivision(Run(s, ticks[..|ticks| - 1]), ticks[|ticks| - 1]);
    }
  }

  /** No pass of the firmware, however the passes before it went, ends in a division by zero. */
  lemma NeverDividesByZero(ticks: seq<Tick>, t: Tick)
    ensures Next(Run(Init(), ticks), t).outcome != Failed(ZeroDivision)
  {
    RunKeepsInv(Init(), ticks);
    NoZeroDivision(Run(Init(), ticks), t);
  }

  /** Once the buffer holds a reading it never becomes empty again. */
  lemma {:induction false} NonEmptyStaysNonEmpty(s: LoopState, ticks: seq<Tick>)
    requires s.samples != []
    ensures Run(s, ticks).samples != []
  {
    if ticks != [] {
      NonEmptyStaysNonEmpty(s, ticks[..|ticks| - 1]);
    }
  }

  /**
    Between publishes nothing is deleted: the buffer grows at the end by
    exactly one reading per successful read, and so by at most one per
    pass.  (With publishes failing for good the buffer therefore grows
    without bound.)
   */
  lemma {:induction false} GrowthWithoutPublish(s: LoopState, ticks: seq<Tick>)
    requires PublishCount(s, ticks) == 0
    ensures s.samples <= Run(s, ticks).samples
    ensures |Run(s, ticks).samples| == |s.samples| + ReadCount(s, ticks)
    ensures ReadCount(s, ticks) <= |ticks|
  {
    if ticks != [] {
      var before := ticks[..|ticks| - 1];
      GrowthWithoutPublish(s, before);
      ReadAppends(Run(s, before), ticks[|ticks| - 1]);
    }
  }

  /**
    Bounded buffer: if the buffer holds at most k readings, and at most k
    readings are appended up to and including the pass of the next
    publish, the buffer holds at most k readings right after that publish.
   */
  lemma EpochBound(s: LoopState, ticks: seq<Tick>, k: nat)
    requires PublishCycle(s, ticks, k) && |s.samples| <= k
    ensures |Run(s, ticks).samples| <= k
  {
    var before := ticks[..|ticks| - 1];
    var t := ticks[|ticks| - 1];
    GrowthWithoutPublish(s, before);
    ReadAppends(Run(s, before), t);
    var kept := s.samples;
    var appended := ReadPhase(Run(s, before), t).next.samples[|kept|..];
    assert ReadPhase(Run(s, before), t).next.samples == kept + appended;
    TruncateKeepsBound(kept, appended, k);
  }

  /** Running two stretches of passes one after the other is running them together. */
  lemma {:induction false} RunAppend(s: LoopState, a: seq<Tick>, b: seq<Tick>)
    ensures Run(s, a + b) == Run(Run(s, a), b)
  {
    if b != [] {
      assert (a + b)[..|a + b| - 1] == a + b[..|b| - 1];
      RunAppend(s, a, b[..|b| - 1]);
    } else {
      assert a + b == a;
    }
  }

  /**
    The buffer stays bounded: starting with at most k readings, after any
    number of publish cycles that each append at most k readings, the
    buffer holds at most k readings.
   */
  lemma {:induction false} BoundedOverCycles(s: LoopState, cycles: seq<seq<Tick>>, k: nat)
    requires |s.samples| <= k
    requires forall i :: 0 <= i < |cycles| ==> PublishCycle(Run(s, Concat(cycles[..i])), cycles[i], k)
    ensures |Run(s, Concat(cycles)).samples| <= k
  {
    if cycles != [] {
      var n := |cycles| - 1;
      var earlier := cycles[..n];
      forall i | 0 <= i < |earlier|
        ensures PublishCycle(Run(s, Concat(earlier[..i])), earlier[i], k)
      {
        assert earlier[..i] == cycles[..i];
      }
      BoundedOverCycles(s, earlier, k);
      RunAppend(s, Concat(earlier), cycles[n]);
      EpochBound(Run(s, Concat(earlier)), cycles[n], k);
    }
  }

  /**
    A sensor read that keeps raising (the sensor, or the append once the
    heap is full) stalls the loop: while a read is due and raises on every
    pass, the state never changes and nothing is published.
   */
  lemma {:induction false} ReadFaultStalls(s: LoopState, ticks: seq<Tick>)
    requires forall i :: 0 <= i < |ticks| ==> !ticks[i].readOk && ReadDue(s, ticks[i].readCheckTime)
    ensures Run(s, ticks) == s
    ensures PublishCount(s, ticks) == 0
  {
    if ticks != [] {
      ReadFaultStalls(s, ticks[..|ticks| - 1]);
    }
  }

  // ---------------------------------------------------------------------
  // The firmware's module-level state, updated in place

  class Sampler {
    var lastPublish: Option<int>
    var lastReadSensor: Option<int>
    var samples: seq<int>

    function State(): LoopState
      reads this
    {
      LoopState(lastPublish, lastReadSensor, samples)
    }

    constructor ()
      ensures State() == Init()
    {
      lastPublish := None;
      lastReadSensor := None;
      samples := [];
    }

    /** One pass of the loop body; an exception returns early, keeping what was already done. */
    method Step(t: Tick) returns (outcome: Outcome)
      modifies this
      ensures Transition(State(), outcome) == Next(old(State()), t)
    {
      if lastReadSensor.None? || t.readCheckTime > lastReadSensor.value + READ_PERIOD_MS {
        if !t.readOk {
          return Failed(SensorFault);
        }
        var lightLevel := t.reading;
        samples := samples + [lightLevel];
        lastReadSensor := Some(t.readDoneTime);
      }
      if lastPublish.None? || t.publishCheckTime > lastPublish.value + PUBLISH_PERIOD_MS {
        var n := |samples|;
        var total := Sum(samples);
        if n == 0 {
          return Failed(ZeroDivision);
        }
        var average := total as real / n as real;
        if !t.publishOk {
          return Failed(PublishFault);
        }
        samples := samples[n / 2..];
        lastPublish := Some(t.publishDoneTime);
        return Done(Some(average));
      }
      return Done(None);
    }

    /**
      The `while True` loop, for as many passes as `ticks` supplies.  From
      a state satisfying `Inv` (such as the initial one) no pass ends in a
      division by zero.
     */
    method Loop(ticks: seq<Tick>) returns (outcomes: seq<Outcome>)
      modifies this
      ensures State() == Run(old(State()), ticks)
      ensures |outcomes| == |ticks|
      ensures forall i :: 0 <= i < |ticks| ==>
        outcomes[i] == Next(Run(old(State()), ticks[..i]), ticks[i]).outcome
      ensures Inv(old(State())) ==> Inv(State())
      ensures Inv(old(State())) ==> forall i :: 0 <= i < |outcomes| ==> outcomes[i] != Failed(ZeroDivision)
    {
      ghost var start := State();
      outcomes := [];
      var i := 0;
      while i < |ticks|
        invariant 0 <= i <= |ticks|
        invariant State() == Run(start, ticks[..i])
        invariant |outcomes| == i
        invariant forall j :: 0 <= j < i ==> outcomes[j] == Next(Run(start, ticks[..j]), ticks[j]).outcome
        invariant Inv(start) ==> Inv(State())
        invariant Inv(start) ==> forall j :: 0 <= j < i ==> outcomes[j] != Failed(ZeroDivision)
      {
        if Inv(start) {
          NoZeroDivision(State(), ticks[i]);
        }
        var o := Step(ticks[i]);
        assert ticks[..i + 1][..i] == ticks[..i];
        outcomes := outcomes + [o];
        i := i + 1;
      }
      assert ticks[..i] == ticks;
    }
  }
}
