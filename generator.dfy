/**
 * `SnowflakeGenerator`: construction with its validation, and `generate`,
 * which arbitrates the clock reading against the last timestamp and the
 * per-millisecond sequence, then packs (timestamp, machine id, sequence).
 *
 * `Date.now()` is the parameter `now` of `Generate`, and the value of
 * `Math.floor(Math.random() * MAX_MACHINE_ID)` is the parameter `draw` of
 * `Create`. The pure function `Advance` is the state transition that
 * `Generate` performs; the lemmas about runs of calls are stated over it.
 */
module Generator {
  import opened Wrappers
  import opened BinaryText
  import opened Layout
  import opened Flake

  datatype GeneratorError =
    | InvalidMachineId(machineId: int)
    | InvalidTimeOffset
    | ClockMovedBackwards

  /**
   * `config.timeOffset`: absent or falsy (undefined, 0, NaN), a number of
   * milliseconds, or a truthy value that is not a number (which `isNaN`
   * rejects).
   */
  datatype TimeOffsetSetting = Unset | Offset(ms: int) | NotANumber

  /** The configuration object; None for an absent machine id. */
  datatype Config = Config(machineId: Option<int>, timeOffset: TimeOffsetSetting)

  /**
   * `config.machineId || draw`: an absent or zero machine id is replaced by
   * the random draw, which lies in [0, 1022]; any other is kept as given.
   */
  function ResolveMachineId(configured: Option<int>, draw: nat): (id: int)
    requires draw < MAX_MACHINE_ID
    ensures configured.None? || configured == Some(0) ==> id == draw && 0 <= id < MAX_MACHINE_ID
    ensures configured.Some? && configured.value != 0 ==> id == configured.value
  {
    if configured.None? || configured.value == 0 then draw else configured.value
  }

  /**
   * `config.timeOffset || 0` for a setting that passes the `isNaN` check: an
   * absent, zero or NaN offset becomes 0, any other number is kept.
   */
  function ResolveTimeOffset(setting: TimeOffsetSetting): (offset: int)
    requires !setting.NotANumber?
    ensures setting.Unset? || setting == Offset(0) ==> offset == 0
    ensures setting.Offset? && setting.ms != 0 ==> offset == setting.ms
  {
    if setting.Offset? then setting.ms else 0
  }

  /** The part of a generator that `generate` updates. */
  datatype GenState = GenState(sequence: nat, lastTimestamp: nat)

  predicate ValidState(st: GenState)
  {
    st.sequence <= MAX_SEQUENCE
  }

  /**
   * `Date.now() - EPOCH + timeOffset`: the reading's distance from the
   * custom epoch, shifted by the offset. It is negative exactly when the
   * shifted clock is before the epoch, so a generator's first call fails
   * exactly for such a reading.
   */
  function Timestamp(now: int, timeOffset: int): (t: int)
    ensures t < 0 <==> now + timeOffset < EPOCH
  {
    now - EPOCH + timeOffset
  }

  /**
   * `(sequence + 1) & MAX_SEQUENCE`: the next sequence number, wrapping from
   * 4095 to 0. For the non-negative values below 2^31 that occur here, the
   * 32-bit AND with 2^12 - 1 is the remainder modulo 2^12.
   */
  function NextSequence(sequence: nat): (r: nat)
    requires sequence <= MAX_SEQUENCE
    ensures r <= MAX_SEQUENCE
    ensures r == 0 <==> sequence == MAX_SEQUENCE
    ensures r != 0 ==> r == sequence + 1
  {
    (sequence + 1) % (MAX_SEQUENCE + 1)
  }

  /**
   * The state change of one `generate` call whose clock reading gives
   * `timestamp`: an error when the timestamp is behind the last one; else
   * the timestamp becomes the last one, and the sequence steps on when the
   * timestamp is unchanged and restarts at 0 when it has advanced.
   */
  function Advance(st: GenState, timestamp: int): (r: Result<GenState, GeneratorError>)
    requires ValidState(st)
    ensures r.Failure? <==> timestamp < st.lastTimestamp
    ensures r.Failure? ==> r.error == ClockMovedBackwards
    ensures r.Success? ==> ValidState(r.value) && r.value.lastTimestamp == timestamp >= st.lastTimestamp
    ensures r.Success? && timestamp > st.lastTimestamp ==> r.value.sequence == 0
    ensures r.Success? && timestamp == st.lastTimestamp ==> r.value.sequence == (st.sequence + 1) % (MAX_SEQUENCE + 1)
  {
    if timestamp < st.lastTimestamp then Failure(ClockMovedBackwards)
    else if timestamp == st.lastTimestamp then Success(GenState(NextSequence(st.sequence), st.lastTimestamp))
    else Success(GenState(0, timestamp))
  }

  /** The id a generator in state `st` has just issued. */
  function IdOf(st: GenState, machineId: nat): nat
  {
    Pack(st.lastTimestamp, machineId, st.sequence)
  }

  class SnowflakeGenerator {
    var sequence: nat
    var lastTimestamp: nat
    const machineId: nat
    const timeOffset: int

    ghost predicate Valid()
      reads this
    {
      machineId <= MAX_MACHINE_ID && sequence <= MAX_SEQUENCE
    }

    function State(): GenState
      reads this
    {
      GenState(sequence, lastTimestamp)
    }

    /** The field set-up of the constructor, for a machine id that passed validation. */
    constructor (machineId: nat, timeOffset: int)
      requires machineId <= MAX_MACHINE_ID
      ensures Valid()
      ensures sequence == 0 && lastTimestamp == 0
      ensures this.machineId == machineId && this.timeOffset == timeOffset
    {
      sequence := 0;
      lastTimestamp := 0;
      this.machineId := machineId;
      this.timeOffset := timeOffset;
    }

    /**
     * `new SnowflakeGenerator(config)`: resolves the machine id and rejects
     * one outside [0, 1023], then resolves the time offset and rejects a
     * value that is not a number; a generator that is built starts with
     * sequence 0 and last timestamp 0.
     */
    static method Create(config: Config, draw: nat) returns (r: Result<SnowflakeGenerator, GeneratorError>)
      requires draw < MAX_MACHINE_ID
      ensures var id := ResolveMachineId(config.machineId, draw);
              r.Failure? <==> id < 0 || id > MAX_MACHINE_ID || config.timeOffset.NotANumber?
      ensures var id := ResolveMachineId(config.machineId, draw);
              id < 0 || id > MAX_MACHINE_ID ==> r == Failure(InvalidMachineId(id))
      ensures var id := ResolveMachineId(config.machineId, draw);
              0 <= id <= MAX_MACHINE_ID && config.timeOffset.NotANumber? ==> r == Failure(InvalidTimeOffset)
      ensures r.Success? ==>
                && fresh(r.value)
                && r.value.Valid()
                && r.value.machineId == ResolveMachineId(config.machineId, draw)
                && r.value.timeOffset == ResolveTimeOffset(config.timeOffset)
                && r.value.sequence == 0 && r.value.lastTimestamp == 0
    {
      var machineId := ResolveMachineId(config.machineId, draw);
      if machineId > MAX_MACHINE_ID || machineId < 0 {
        return Failure(InvalidMachineId(machineId));
      }
      if config.timeOffset.NotANumber? {
        return Failure(InvalidTimeOffset);
      }
      var g := new SnowflakeGenerator(machineId, ResolveTimeOffset(config.timeOffset));
      r := Success(g);
    }

    /**
     * `generate()` with the clock reading `now`. A timestamp behind the last
     * one fails and changes nothing. Otherwise the new state is the one
     * `Advance` gives and the result is the Snowflake of the packed
     * (timestamp, machine id, sequence). Only `sequence` and `lastTimestamp`
     * are written.
     */
    method Generate(now: int) returns (r: Result<Snowflake, GeneratorError>)
      requires Valid()
      modifies this`sequence, this`lastTimestamp
      ensures Valid()
      ensures r.Failure? <==> Timestamp(now, timeOffset) < old(lastTimestamp)
      ensures r.Failure? ==> r.error == ClockMovedBackwards && State() == old(State())
      ensures r.Success? ==>
                && Advance(old(State()), Timestamp(now, timeOffset)) == Success(State())
                && r.value == FromBigInt(IdOf(State(), machineId))
    {
      var timestamp := now - EPOCH + timeOffset;
      if timestamp < lastTimestamp {
        return Failure(ClockMovedBackwards);
      }
      if timestamp == lastTimestamp {
        sequence := NextSequence(sequence);
        // When the sequence wraps to 0 the source busy-waits until the clock
        // passes lastTimestamp, but it discards what it reads: `timestamp`
        // keeps its value, so the wait changes nothing modelled here.
      } else {
        sequence := 0;
      }
      lastTimestamp := timestamp;
      var flake := Pack(timestamp, machineId, sequence);
      r := Success(FromBigInt(flake));
    }
  }

  /** A call at `timestamp` that wraps the sequence at an unchanged timestamp. */
  predicate Wraps(st: GenState, timestamp: int)
  {
    timestamp == st.lastTimestamp && st.sequence == MAX_SEQUENCE
  }

  /** `a` comes before `b`: an earlier timestamp, or the same one with a smaller sequence. */
  predicate Before(a: GenState, b: GenState)
  {
    a.lastTimestamp < b.lastTimestamp || (a.lastTimestamp == b.lastTimestamp && a.sequence < b.sequence)
  }

  /** Ids of one machine order like the (timestamp, sequence) they were issued at. */
  lemma IdOrder(a: GenState, b: GenState, machineId: nat)
    requires ValidState(a) && ValidState(b) && machineId <= MAX_MACHINE_ID
    ensures IdOf(a, machineId) < IdOf(b, machineId) <==> Before(a, b)
  {
    PackOrder(a.lastTimestamp, machineId, a.sequence, b.lastTimestamp, machineId, b.sequence);
  }

  /**
   * The states at which successive `generate` calls with clock readings
   * `nows` issue an id, starting from `st`; a failed call issues nothing
   * and leaves the state as it was.
   */
  function Issued(st: GenState, timeOffset: int, nows: seq<int>): (issued: seq<GenState>)
    requires ValidState(st)
    ensures |issued| <= |nows|
    ensures forall i :: 0 <= i < |issued| ==> ValidState(issued[i])
    decreases |nows|
  {
    if nows == [] then []
    else
      var step := Advance(st, Timestamp(nows[0], timeOffset));
      if step.Failure? then Issued(st, timeOffset, nows[1..])
      else [step.value] + Issued(step.value, timeOffset, nows[1..])
  }

  /** The ids those calls return. */
  function Run(st: GenState, machineId: nat, timeOffset: int, nows: seq<int>): (ids: seq<nat>)
    requires ValidState(st)
  {
    var issued := Issued(st, timeOffset, nows);
    seq(|issued|, i requires 0 <= i < |issued| => IdOf(issued[i], machineId))
  }

  /**
   * With a clock that never goes back, starting no earlier than the last
   * timestamp, every call of a run succeeds and issues an id.
   */
  lemma {:induction false} ForwardClockIssuesAll(st: GenState, timeOffset: int, nows: seq<int>)
    requires ValidState(st)
    requires forall i, j :: 0 <= i < j < |nows| ==> nows[i] <= nows[j]
    requires nows != [] ==> st.lastTimestamp <= Timestamp(nows[0], timeOffset)
    decreases |nows|
    ensures |Issued(st, timeOffset, nows)| == |nows|
  {
    if nows != [] {
      var step := Advance(st, Timestamp(nows[0], timeOffset));
      if |nows| > 1 {
        assert nows[0] <= nows[1];
      }
      ForwardClockIssuesAll(step.value, timeOffset, nows[1..]);
    }
  }

  /** No call of the run wraps the sequence at an unchanged timestamp. */
  predicate NoWrap(st: GenState, timeOffset: int, nows: seq<int>)
    requires ValidState(st)
    decreases |nows|
  {
    nows == [] ||
    var step := Advance(st, Timestamp(nows[0], timeOffset));
    && !Wraps(st, Timestamp(nows[0], timeOffset))
    && NoWrap(if step.Failure? then st else step.value, timeOffset, nows[1..])
  }

  /**
   * In a run without a wrap, every call that succeeds moves the state
   * strictly forward: each issuing state comes after the starting state and
   * after every earlier issuing state.
   */
  lemma {:induction false} IssuedIncreasing(st: GenState, timeOffset: int, nows: seq<int>)
    requires ValidState(st) && NoWrap(st, timeOffset, nows)
    decreases |nows|
    ensures forall i :: 0 <= i < |Issued(st, timeOffset, nows)| ==> Before(st, Issued(st, timeOffset, nows)[i])
    ensures forall i, j :: 0 <= i < j < |Issued(st, timeOffset, nows)| ==>
              Before(Issued(st, timeOffset, nows)[i], Issued(st, timeOffset, nows)[j])
  {
    if nows != [] {
      var step := Advance(st, Timestamp(nows[0], timeOffset));
      IssuedIncreasing(if step.Failure? then st else step.value, timeOffset, nows[1..]);
    }
  }

  /**
   * Successive successful calls of a run without a wrap return strictly
   * increasing ids, each above the id of the starting state.
   */
  lemma RunIncreasing(st: GenState, machineId: nat, timeOffset: int, nows: seq<int>)
    requires ValidState(st) && machineId <= MAX_MACHINE_ID
    requires NoWrap(st, timeOffset, nows)
    ensures forall i :: 0 <= i < |Run(st, machineId, timeOffset, nows)| ==>
              IdOf(st, machineId) < Run(st, machineId, timeOffset, nows)[i]
    ensures forall i, j :: 0 <= i < j < |Run(st, machineId, timeOffset, nows)| ==>
              Run(st, machineId, timeOffset, nows)[i] < Run(st, machineId, timeOffset, nows)[j]
  {
    var issued := Issued(st, timeOffset, nows);
    var ids := Run(st, machineId, timeOffset, nows);
    IssuedIncreasing(st, timeOffset, nows);
    forall i | 0 <= i < |ids|
      ensures IdOf(st, machineId) < ids[i]
    {
      IdOrder(st, issued[i], machineId);
    }
    forall i, j | 0 <= i < j < |ids|
      ensures ids[i] < ids[j]
    {
      IdOrder(issued[i], issued[j], machineId);
    }
  }

  /**
   * The ids of a run without a wrap have pairwise distinct decimal texts,
   * the property checked on 5000 generated ids.
   */
  lemma RunDistinctTexts(st: GenState, machineId: nat, timeOffset: int, nows: seq<int>)
    requires ValidState(st) && machineId <= MAX_MACHINE_ID
    requires NoWrap(st, timeOffset, nows)
    ensures forall i, j :: 0 <= i < j < |Run(st, machineId, timeOffset, nows)| ==>
              ToString(FromBigInt(Run(st, machineId, timeOffset, nows)[i]))
              != ToString(FromBigInt(Run(st, machineId, timeOffset, nows)[j]))
  {
    var ids := Run(st, machineId, timeOffset, nows);
    RunIncreasing(st, machineId, timeOffset, nows);
    forall i, j | 0 <= i < j < |ids|
      ensures ToString(FromBigInt(ids[i])) != ToString(FromBigInt(ids[j]))
    {
      ToDecimalValue(ids[i]);
      ToDecimalValue(ids[j]);
    }
  }

  /**
   * Calls that all read the clock at the last timestamp keep the timestamp
   * and step the sequence on modulo 4096.
   */
  lemma {:induction false} SameMillisecondIssued(st: GenState, timeOffset: int, now: int, k: nat)
    requires ValidState(st)
    requires Timestamp(now, timeOffset) == st.lastTimestamp
    decreases k
    ensures Issued(st, timeOffset, seq(k, _ => now))
            == seq(k, i => GenState((st.sequence + i + 1) % (MAX_SEQUENCE + 1), st.lastTimestamp))
  {
    if k > 0 {
      var nows := seq(k, _ => now);
      assert nows[1..] == seq(k - 1, _ => now);
      var next := GenState(NextSequence(st.sequence), st.lastTimestamp);
      assert Advance(st, Timestamp(nows[0], timeOffset)) == Success(next);
      SameMillisecondIssued(next, timeOffset, now, k - 1);
      var expected := seq(k, i => GenState((st.sequence + i + 1) % (MAX_SEQUENCE + 1), st.lastTimestamp));
      var rest := seq(k - 1, i => GenState((next.sequence + i + 1) % (MAX_SEQUENCE + 1), next.lastTimestamp));
      forall i | 0 <= i < k - 1
        ensures rest[i] == expected[i + 1]
      {
        assert (next.sequence + i + 1) % (MAX_SEQUENCE + 1) == (st.sequence + (i + 1) + 1) % (MAX_SEQUENCE + 1);
      }
      assert expected == [next] + rest;
    }
  }

  /**
   * As written, 4097 calls within one millisecond do not give 4097 distinct
   * ids: after the sequence wraps, the busy-wait's reading is discarded and
   * the 4097th call returns the same id as the first.
   */
  lemma SequenceWrapRepeatsId(st: GenState, machineId: nat, timeOffset: int, now: int)
    requires ValidState(st)
    requires st.lastTimestamp < Timestamp(now, timeOffset)
    ensures |Run(st, machineId, timeOffset, seq(4097, _ => now))| == 4097
    ensures Run(st, machineId, timeOffset, seq(4097, _ => now))[4096]
            == Run(st, machineId, timeOffset, seq(4097, _ => now))[0]
  {
    var nows := seq(4097, _ => now);
    var first := GenState(0, Timestamp(now, timeOffset));
    assert Advance(st, Timestamp(nows[0], timeOffset)) == Success(first);
    assert nows[1..] == seq(4096, _ => now);
    SameMillisecondIssued(first, timeOffset, now, 4096);
    var issued := Issued(st, timeOffset, nows);
    assert issued == [first] + Issued(first, timeOffset, nows[1..]);
    assert issued[4096] == first;
  }

  /**
   * The evident intent of the overflow branch: once the sequence wraps,
   * continue with `resumed`, the clock reading (as a timestamp) that ended
   * the busy-wait, which is past the last timestamp.
   */
  function IntendedAdvance(st: GenState, timestamp: int, resumed: int): (r: Result<GenState, GeneratorError>)
    requires ValidState(st) && resumed > st.lastTimestamp
    ensures !Wraps(st, timestamp) ==> r == Advance(st, timestamp)
    ensures Wraps(st, timestamp) ==> r == Success(GenState(0, resumed))
  {
    if timestamp < st.lastTimestamp then Failure(ClockMovedBackwards)
    else if timestamp == st.lastTimestamp then
      if NextSequence(st.sequence) == 0 then Success(GenState(0, resumed))
      else Success(GenState(NextSequence(st.sequence), st.lastTimestamp))
    else Success(GenState(0, timestamp))
  }

  /** With the intended overflow branch, every successful call issues an id above the previous one. */
  lemma IntendedStepIncreases(st: GenState, machineId: nat, timestamp: int, resumed: int)
    requires ValidState(st) && machineId <= MAX_MACHINE_ID && resumed > st.lastTimestamp
    requires IntendedAdvance(st, timestamp, resumed).Success?
    ensures ValidState(IntendedAdvance(st, timestamp, resumed).value)
    ensures IdOf(st, machineId) < IdOf(IntendedAdvance(st, timestamp, resumed).value, machineId)
  {
    IdOrder(st, IntendedAdvance(st, timestamp, resumed).value, machineId);
  }
}
