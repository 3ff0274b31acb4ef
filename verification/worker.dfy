/** The Snowflake-style identifier worker `FastIdWorker`: its configuration
    and masks, the clock quantization, the `next_id` state machine, and the
    packing of (tick, sequence, machine id) into one `i64`.

    The wall clock is a parameter (nanoseconds since the Unix epoch), and
    the retry loop of `next_id` is a sequence of single `Step`s, one per
    clock reading. */
module FastId {
  import opened Bits
  import opened Int64

  /** The reference instant used when no epoch is given: 2018-06-01T00:00:00Z
      in nanoseconds since the Unix epoch. */
  const DEFAULT_EPOCH: int := 1527811200000000000

  /** `>> 20`: a tick lasts 2^20 nanoseconds (about 1.05 ms). */
  const TICK_NANOS: nat := 0x10_0000

  /** 2^83: elapsed times below this give ticks below 2^63, which survive the
      `as i64` truncation unchanged (about 306 million years). */
  const TICK_RANGE: nat := 0x8_0000_0000_0000_0000_0000

  /** The immutable part of a worker. `epoch` is the epoch in nanoseconds
      after the Unix epoch, as the unsigned value `with_bits_and_epoch` converts it to. */
  datatype Config = Config(
    timeBits: int, machineBits: int, sequenceBits: int,
    timeMask: int, machineMask: int, sequenceMask: int,
    machineId: int,
    epoch: int)

  /** The mutable part of a worker: the two fields `next_id` updates together. */
  datatype State = State(lastTimestamp: int, sequence: int)

  datatype Worker = Worker(config: Config, state: State)

  /** What one pass of the `next_id` loop does with one clock reading. */
  datatype StepResult = Spin | Emit(id: int, next: State)

  /** The trace of a run of passes: the ids emitted, in order, and the final state. */
  datatype Trace = Trace(ids: seq<int>, final: State)

  /** A configuration as construction produces it: widths Rust can shift by,
      masks of those widths, and an `i64` machine id. */
  predicate ValidConfig(c: Config) {
    && 0 <= c.timeBits < 64 && 0 <= c.machineBits < 64 && 0 <= c.sequenceBits < 64
    && c.timeMask == Pow2(c.timeBits) - 1
    && c.machineMask == Pow2(c.machineBits) - 1
    && c.sequenceMask == Pow2(c.sequenceBits) - 1
    && IsI64(c.machineId)
    && 0 <= c.epoch < WORD
  }

  /** `next_id` can pack without an out-of-range shift amount. */
  predicate Packable(c: Config) {
    ValidConfig(c) && c.machineBits + c.sequenceBits < 64
  }

  /** The three widths fit in the 63 non-sign bits of an `i64`. */
  predicate FitsI64(c: Config) {
    ValidConfig(c) && c.timeBits + c.machineBits + c.sequenceBits <= 63
  }

  predicate IsI64State(s: State) {
    IsI64(s.lastTimestamp) && IsI64(s.sequence)
  }

  /** The invariant the sequence counter keeps. */
  predicate SequenceInRange(c: Config, s: State) {
    0 <= s.sequence <= c.sequenceMask
  }

  /** `!(-1 << b)`: the mask of width `b`. */
  function Mask(b: int): (m: int)
    requires 0 <= b < 64
    ensures m == Pow2(b) - 1
  {
    Pow2BelowHalf(b);
    assert Shl(-1, b) == -(Pow2(b) as int) by {
      WordIsPow2();
      var p := Pow2(b);
      assert (WORD - 1) * p == (p - 1) * WORD + (WORD - p);
      DivModUnique((WORD - 1) * p, WORD, p - 1, WORD - p);
    }
    BitNot(Shl(-1, b))
  }

  /** `with_bits_and_epoch`: masks from the widths, the epoch reinterpreted as
      unsigned nanoseconds, and a fresh state. */
  function WithBitsAndEpoch(timeBits: int, machineBits: int, sequenceBits: int,
                            machineId: int, timestamp: int): (w: Worker)
    requires 0 <= timeBits < 64 && 0 <= machineBits < 64 && 0 <= sequenceBits < 64
    requires IsI64(machineId) && IsI64(timestamp)
    ensures ValidConfig(w.config)
    ensures w.config.timeBits == timeBits && w.config.machineBits == machineBits
    ensures w.config.sequenceBits == sequenceBits && w.config.machineId == machineId
    ensures w.config.epoch == if timestamp < 0 then timestamp + WORD else timestamp
    ensures w.state == State(0, 0)
  {
    var config := Config(timeBits, machineBits, sequenceBits,
                         Mask(timeBits), Mask(machineBits), Mask(sequenceBits),
                         machineId, Unsigned(timestamp));
    Worker(config, State(0, 0))
  }

  /** `with_bits`: the default epoch. */
  function WithBits(timeBits: int, machineBits: int, sequenceBits: int,
                    machineId: int): (w: Worker)
    requires 0 <= timeBits < 64 && 0 <= machineBits < 64 && 0 <= sequenceBits < 64
    requires IsI64(machineId)
    ensures ValidConfig(w.config) && w.config.epoch == DEFAULT_EPOCH
    ensures w.config.timeBits == timeBits && w.config.machineBits == machineBits
    ensures w.config.sequenceBits == sequenceBits && w.config.machineId == machineId
    ensures w.state == State(0, 0)
  {
    WithBitsAndEpoch(timeBits, machineBits, sequenceBits, machineId, DEFAULT_EPOCH)
  }

  /** `new`: 40 time bits, 16 machine bits, 7 sequence bits, default epoch. */
  function New(machineId: int): (w: Worker)
    requires IsI64(machineId)
    ensures FitsI64(w.config) && Packable(w.config)
    ensures w.config.timeBits == 40 && w.config.machineBits == 16 && w.config.sequenceBits == 7
    ensures w.config.timeMask == 0xFF_FFFF_FFFF
    ensures w.config.machineMask == 0xFFFF && w.config.sequenceMask == 0x7F
    ensures w.config.machineId == machineId && w.config.epoch == DEFAULT_EPOCH
    ensures w.state == State(0, 0)
  {
    KnownPowers();
    WithBits(40, 16, 7, machineId)
  }

  /** `Default::default`: machine id 1 with the `new` widths. */
  function Default(): (w: Worker)
    ensures FitsI64(w.config) && Packable(w.config)
    ensures w.config.timeBits == 40 && w.config.machineBits == 16 && w.config.sequenceBits == 7
    ensures w.config.machineId == 1 && w.config.epoch == DEFAULT_EPOCH
    ensures w.state == State(0, 0)
  {
    New(1)
  }

  /** Nanoseconds from the epoch to `now`, or zero when `now` is earlier
      (`duration_since(..).unwrap_or(0)`). */
  function Elapsed(c: Config, now: int): nat {
    if now < c.epoch then 0 else now - c.epoch
  }

  /** `get_current_timestamp` with the wall-clock reading `now` given:
      the elapsed nanoseconds shifted right by 20, truncated to `i64`. */
  function CurrentTimestamp(c: Config, now: int): (tick: int)
    ensures IsI64(tick)
    ensures now <= c.epoch ==> tick == 0
    ensures Elapsed(c, now) < TICK_RANGE ==>
              0 <= tick && tick * TICK_NANOS <= Elapsed(c, now) < (tick + 1) * TICK_NANOS
  {
    var e := Elapsed(c, now);
    TickFloor(e);
    Signed(e / TICK_NANOS)
  }

  /** Below 2^83 nanoseconds the shifted value fits an `i64` and is the
      floor quotient by the tick length. */
  lemma TickFloor(e: nat)
    ensures e < TICK_RANGE ==>
              var q := e / TICK_NANOS;
              q < HALF && q * TICK_NANOS <= e < (q + 1) * TICK_NANOS
  {
  }

  /** The three fields of an id, read back by arithmetic on its unsigned bit
      pattern: low `machineBits`, then `sequenceBits`, then the rest. */
  datatype Fields = Fields(time: int, sequence: int, machine: int)

  function Unpack(c: Config, id: int): Fields
    requires ValidConfig(c)
  {
    var w := Unsigned(id);
    var rest := w / Pow2(c.machineBits);
    Fields(rest / Pow2(c.sequenceBits), rest % Pow2(c.sequenceBits), w % Pow2(c.machineBits))
  }

  /** The packing of `next_id`:
      `(tick & time_mask) << (machine_bits + sequence_bits)
        | (sequence & sequence_mask) << machine_bits
        | (machine_id & machine_mask)`.
      Whatever the widths, the low `machineBits` bits of the result are the
      machine id's. */
  function Pack(c: Config, tick: int, sequence: int): (id: int)
    requires Packable(c)
    ensures IsI64(id)
    ensures Unsigned(id) % Pow2(c.machineBits) == c.machineId % Pow2(c.machineBits)
  {
    var time := Shl(BitAnd(tick, c.timeMask), c.machineBits + c.sequenceBits);
    var seqField := Shl(BitAnd(sequence, c.sequenceMask), c.machineBits);
    var machine := BitAnd(c.machineId, c.machineMask);
    AndMaskIsMod(c.machineId, c.machineBits);
    LowBitsOfPacking(c.machineBits, c.sequenceBits, BitAnd(tick, c.timeMask),
                     BitAnd(sequence, c.sequenceMask), machine);
    BitOr(BitOr(time, seqField), machine)
  }

  /** The two shifted fields leave the low `mb` bits clear, so OR-ing in a
      value below 2^mb puts exactly that value there. */
  lemma LowBitsOfPacking(mb: int, sb: int, t: int, s: int, m: int)
    requires 0 <= mb && 0 <= sb && mb + sb < 64 && 0 <= m < Pow2(mb)
    ensures Unsigned(BitOr(BitOr(Shl(t, mb + sb), Shl(s, mb)), m)) % Pow2(mb) == m
  {
    var tw, sw := Unsigned(Shl(t, mb + sb)), Unsigned(Shl(s, mb));
    ShlLowBitsClear(t, mb + sb, mb);
    ShlLowBitsClear(s, mb, mb);
    var ab := Or(tw, sw);
    assert ab % Pow2(mb) == 0 by {
      OrMultiple(tw, sw, mb);
    }
    assert ab < WORD by {
      WordIsPow2();
      OrBound(tw, sw, 64);
    }
    assert Unsigned(BitOr(Shl(t, mb + sb), Shl(s, mb))) == ab by {
      UnsignedOfSigned(ab);
    }
    Pow2BelowHalf(mb);
    assert Unsigned(m) == m;
    assert Or(ab, m) == ab + m by {
      OrDisjoint(ab, m, mb);
    }
    assert ab + m < WORD by {
      WordIsPow2();
      OrBound(ab, m, 64);
    }
    assert Unsigned(BitOr(BitOr(Shl(t, mb + sb), Shl(s, mb)), m)) == ab + m by {
      UnsignedOfSigned(ab + m);
    }
    AddBelowMultiple(ab, m, Pow2(mb));
  }

  function Max(a: int, b: int): int {
    if a < b then b else a
  }

  /** One pass of the `next_id` loop with the freshly read `tick`: an
      exhausted sequence at a tick not newer than the last one retries
      without emitting; otherwise a newer tick restarts the sequence at 0 and
      an older or equal one bumps it, and the id packs the fresh `tick` with
      the new sequence. */
  function Step(c: Config, s: State, tick: int): (r: StepResult)
    requires Packable(c) && IsI64State(s) && IsI64(tick)
    ensures r.Spin? <==> tick <= s.lastTimestamp && s.sequence >= c.sequenceMask
    ensures r.Emit? ==> IsI64State(r.next) && r.next.lastTimestamp == Max(s.lastTimestamp, tick)
    ensures r.Emit? && SequenceInRange(c, s) ==> SequenceInRange(c, r.next)
  {
    Pow2BelowHalf(c.sequenceBits);
    if tick <= s.lastTimestamp && s.sequence >= c.sequenceMask then
      Spin
    else
      var next := if tick > s.lastTimestamp then State(tick, 0)
                  else State(s.lastTimestamp, s.sequence + 1);
      Emit(Pack(c, tick, next.sequence), next)
  }

  predicate AllI64(ticks: seq<int>) {
    forall i :: 0 <= i < |ticks| ==> IsI64(ticks[i])
  }

  /** Repeated passes, one per tick read: the ids emitted in order and the
      state left behind. A spin contributes nothing. */
  function Run(c: Config, s: State, ticks: seq<int>): (t: Trace)
    requires Packable(c) && IsI64State(s) && AllI64(ticks)
    ensures |t.ids| <= |ticks|
    ensures IsI64State(t.final) && t.final.lastTimestamp >= s.lastTimestamp
    ensures SequenceInRange(c, s) ==> SequenceInRange(c, t.final)
    decreases |ticks|
  {
    if |ticks| == 0 then Trace([], s)
    else
      match Step(c, s, ticks[0])
      case Spin => Run(c, s, ticks[1..])
      case Emit(id, next) =>
        var rest := Run(c, next, ticks[1..]);
        Trace([id] + rest.ids, rest.final)
  }

  /** The outcome of one `next_id` call over a finite list of clock readings:
      the id, the new state and how many readings spun before it, or
      `Pending` when every reading spun (`next_id` would keep reading the clock). */
  datatype Next = Pending | Issued(id: int, next: State, spins: nat)

  /** The ticks `get_current_timestamp` yields for a list of clock readings:
      a plain map of `CurrentTimestamp` over the readings. */
  function Ticks(c: Config, clock: seq<int>): (ticks: seq<int>)
    ensures |ticks| == |clock| && AllI64(ticks)
  {
    seq(|clock|, j requires 0 <= j < |clock| => CurrentTimestamp(c, clock[j]))
  }

  /** `next_id`: read the clock, step, and repeat until a step emits. The
      call is one `Run` over the readings it consumed: it emits exactly one
      id, or none when every reading spins. */
  method NextId(c: Config, s: State, clock: seq<int>) returns (r: Next)
    requires Packable(c) && IsI64State(s)
    ensures r.Issued? ==>
              && r.spins < |clock|
              && (forall j :: 0 <= j < r.spins ==> Step(c, s, CurrentTimestamp(c, clock[j])).Spin?)
              && Step(c, s, CurrentTimestamp(c, clock[r.spins])) == Emit(r.id, r.next)
              && Run(c, s, Ticks(c, clock[..r.spins + 1])) == Trace([r.id], r.next)
    ensures r.Pending? ==>
              && (forall j :: 0 <= j < |clock| ==> Step(c, s, CurrentTimestamp(c, clock[j])).Spin?)
              && Run(c, s, Ticks(c, clock)) == Trace([], s)
  {
    var i := 0;
    while i < |clock|
      invariant 0 <= i <= |clock|
      invariant forall j :: 0 <= j < i ==> Step(c, s, CurrentTimestamp(c, clock[j])).Spin?
    {
      var tick := CurrentTimestamp(c, clock[i]);
      var result := Step(c, s, tick);
      if result.Emit? {
        ReadingsSpinThenEmit(c, s, clock, i);
        return Issued(result.id, result.next, i);
      }
      i := i + 1;
    }
    ReadingsAllSpin(c, s, clock);
    return Pending;
  }

  /** `RunSpinsThenEmit` for clock readings rather than ticks. */
  lemma ReadingsSpinThenEmit(c: Config, s: State, clock: seq<int>, i: int)
    requires Packable(c) && IsI64State(s) && 0 <= i < |clock|
    requires forall j :: 0 <= j < i ==> Step(c, s, CurrentTimestamp(c, clock[j])).Spin?
    requires Step(c, s, CurrentTimestamp(c, clock[i])).Emit?
    ensures Run(c, s, Ticks(c, clock[..i + 1]))
              == Trace([Step(c, s, CurrentTimestamp(c, clock[i])).id],
                       Step(c, s, CurrentTimestamp(c, clock[i])).next)
  {
    var ticks := Ticks(c, clock[..i + 1]);
    forall j | 0 <= j <= i ensures ticks[j] == CurrentTimestamp(c, clock[j]) {
      assert clock[..i + 1][j] == clock[j];
    }
    RunSpinsThenEmit(c, s, ticks, i);
    assert ticks[..i + 1] == ticks;
  }

  /** `RunAllSpin` for clock readings rather than ticks. */
  lemma ReadingsAllSpin(c: Config, s: State, clock: seq<int>)
    requires Packable(c) && IsI64State(s)
    requires forall j :: 0 <= j < |clock| ==> Step(c, s, CurrentTimestamp(c, clock[j])).Spin?
    ensures Run(c, s, Ticks(c, clock)) == Trace([], s)
  {
    RunAllSpin(c, s, Ticks(c, clock));
  }

  /** Readings that spin and then one that emits make a run that emits
      exactly that one id and ends in its state. */
  lemma {:induction false} RunSpinsThenEmit(c: Config, s: State, ticks: seq<int>, i: int)
    requires Packable(c) && IsI64State(s) && AllI64(ticks) && 0 <= i < |ticks|
    requires forall j :: 0 <= j < i ==> Step(c, s, ticks[j]).Spin?
    requires Step(c, s, ticks[i]).Emit?
    ensures AllI64(ticks[..i + 1])
    ensures Run(c, s, ticks[..i + 1]) == Trace([Step(c, s, ticks[i]).id], Step(c, s, ticks[i]).next)
    decreases i
  {
    var prefix := ticks[..i + 1];
    assert AllI64(prefix) by {
      forall k | 0 <= k < |prefix| ensures IsI64(prefix[k]) {
        assert prefix[k] == ticks[k];
      }
    }
    if i == 0 {
      assert prefix == [ticks[0]];
      assert prefix[1..] == [];
    } else {
      assert prefix[1..] == ticks[1..][..i];
      RunSpinsThenEmit(c, s, ticks[1..], i - 1);
    }
  }

  /** Readings that all spin make a run that emits nothing and leaves the
      state as it was. */
  lemma {:induction false} RunAllSpin(c: Config, s: State, ticks: seq<int>)
    requires Packable(c) && IsI64State(s) && AllI64(ticks)
    requires forall j :: 0 <= j < |ticks| ==> Step(c, s, ticks[j]).Spin?
    ensures Run(c, s, ticks) == Trace([], s)
    decreases |ticks|
  {
    if |ticks| > 0 {
      RunAllSpin(c, s, ticks[1..]);
    }
  }
}
