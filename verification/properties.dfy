/** What the worker guarantees: the layout of a packed id, the effect of each
    branch of a step, the sequence invariant, ordering of the ids of one
    worker, separation of the ids of different machines, and the clock. */
module FastIdProperties {
  import opened Bits
  import opened Int64
  import opened FastId

  /** When the widths fit in 63 bits, a packed id is the mixed-radix numeral
      (time field, sequence field, machine field). */
  lemma PackValue(c: Config, tick: int, sequence: int)
    requires FitsI64(c)
    ensures Packable(c)
    ensures Pack(c, tick, sequence)
              == ((tick % Pow2(c.timeBits)) * Pow2(c.sequenceBits) + sequence % Pow2(c.sequenceBits))
                   * Pow2(c.machineBits)
                 + c.machineId % Pow2(c.machineBits)
  {
    var pt, pm, ps := Pow2(c.timeBits), Pow2(c.machineBits), Pow2(c.sequenceBits);
    AndMaskIsMod(tick, c.timeBits);
    AndMaskIsMod(sequence, c.sequenceBits);
    AndMaskIsMod(c.machineId, c.machineBits);
    var n := PackedNumeral(c.timeBits, c.machineBits, c.sequenceBits,
                           tick % pt, sequence % ps, c.machineId % pm);
    assert Pack(c, tick, sequence) == n;
  }

  /** The shift-and-OR packing of three in-range fields whose widths sum to
      at most 63 is the numeral (t, q, m) in radixes 2^sb and 2^mb. */
  lemma PackedNumeral(tb: int, mb: int, sb: int, t: int, q: int, m: int) returns (n: int)
    requires 0 <= tb && 0 <= mb && 0 <= sb && tb + mb + sb <= 63
    requires 0 <= t < Pow2(tb) && 0 <= q < Pow2(sb) && 0 <= m < Pow2(mb)
    ensures n == (t * Pow2(sb) + q) * Pow2(mb) + m
    ensures BitOr(BitOr(Shl(t, mb + sb), Shl(q, mb)), m) == n
  {
    var x := UpperFieldsBounds(tb, mb, sb, t, q, m);
    var y := UpperFields(tb, mb, sb, t, q);
    assert y == x;
    OrExact(x, m, mb);
    n := x + m;
  }

  /** The time and sequence fields shifted into place and OR-ed together are
      the numeral (t, q) scaled by 2^mb. */
  lemma UpperFields(tb: int, mb: int, sb: int, t: int, q: int) returns (x: int)
    requires 0 <= tb && 0 <= mb && 0 <= sb && tb + mb + sb <= 63
    requires 0 <= t < Pow2(tb) && 0 <= q < Pow2(sb)
    ensures x == (t * Pow2(sb) + q) * Pow2(mb)
    ensures BitOr(Shl(t, mb + sb), Shl(q, mb)) == x
  {
    var a, b := ShiftedFields(tb, mb, sb, t, q);
    OrShifted(t, q, mb + sb, mb, a, b);
    x := a + b;
  }

  /** Two left shifts whose results occupy disjoint bit ranges OR to their sum. */
  lemma OrShifted(t: int, q: int, k: int, s: int, a: int, b: int)
    requires 0 <= s <= k < 64 && 0 <= t && 0 <= q
    requires a == t * Pow2(k) && b == q * Pow2(s)
    requires 0 <= b < Pow2(k) && 0 <= a && a + b < HALF
    ensures BitOr(Shl(t, k), Shl(q, s)) == a + b
  {
    ShlExact(t, k);
    ShlExact(q, s);
    MultipleMod(t, Pow2(k));
    OrExact(a, b, k);
  }

  /** The shifted time and sequence fields as numbers, with the bounds
      `OrShifted` needs. */
  lemma ShiftedFields(tb: int, mb: int, sb: int, t: int, q: int) returns (a: int, b: int)
    requires 0 <= tb && 0 <= mb && 0 <= sb && tb + mb + sb <= 63
    requires 0 <= t < Pow2(tb) && 0 <= q < Pow2(sb)
    ensures a == t * Pow2(mb + sb) && b == q * Pow2(mb)
    ensures a + b == (t * Pow2(sb) + q) * Pow2(mb)
    ensures 0 <= b < Pow2(mb + sb) && 0 <= a && a + b < HALF
  {
    var pm, ps, pk := Pow2(mb), Pow2(sb), Pow2(mb + sb);
    assert pk == ps * pm by {
      Pow2Add(sb, mb);
    }
    NumeralBounds(tb, mb, sb, t, q, 0);
    NumeralArith(t, q, 0, ps, pm, pk, HALF);
    a, b := t * pk, q * pm;
  }

  /** The upper two fields as a number, a multiple of 2^mb that leaves room
      for the machine field below 2^63. */
  lemma UpperFieldsBounds(tb: int, mb: int, sb: int, t: int, q: int, m: int) returns (x: int)
    requires 0 <= tb && 0 <= mb && 0 <= sb && tb + mb + sb <= 63
    requires 0 <= t < Pow2(tb) && 0 <= q < Pow2(sb) && 0 <= m < Pow2(mb)
    ensures x == (t * Pow2(sb) + q) * Pow2(mb)
    ensures 0 <= x && x % Pow2(mb) == 0 && x + m < HALF
  {
    var ps, pm := Pow2(sb), Pow2(mb);
    NumeralBounds(tb, mb, sb, t, q, m);
    MultipleMod(t * ps + q, pm);
    MulNonNegative(t * ps + q, pm);
    x := (t * ps + q) * pm;
  }

  /** The arithmetic behind `PackedNumeral`, free of powers of two: the
      shifted fields, their partial sums and their divisibility. */
  lemma NumeralArith(t: int, q: int, m: int, ps: int, pm: int, pk: int, h: int)
    requires ps > 0 && pm > 0 && pk == ps * pm && 0 <= t && 0 <= q < ps && 0 <= m
    requires (t * ps + q) * pm + m < h
    ensures t * pk + q * pm == (t * ps + q) * pm
    ensures 0 <= t * pk < h && 0 <= q * pm < h && t * pk + q * pm < h
    ensures q * pm < pk
    ensures (t * pk) % pk == 0 && ((t * ps + q) * pm) % pm == 0
  {
    MulAssoc(t, ps, pm);
    MulLess(q, ps, pm);
    MultipleMod(t, pk);
    MultipleMod(t * ps + q, pm);
    assert t * ps * pm >= 0;
  }

  lemma NumeralBounds(tb: int, mb: int, sb: int, t: int, q: int, m: int)
    requires 0 <= tb && 0 <= mb && 0 <= sb && tb + mb + sb <= 63
    requires 0 <= t < Pow2(tb) && 0 <= q < Pow2(sb) && 0 <= m < Pow2(mb)
    ensures 0 <= t * Pow2(sb) + q < Pow2(tb + sb)
    ensures 0 <= (t * Pow2(sb) + q) * Pow2(mb) + m < HALF
  {
    var x := t * Pow2(sb) + q;
    Pow2Add(tb, sb);
    MixedRadixBound(t, q, Pow2(tb), Pow2(sb));
    Pow2Add(tb + sb, mb);
    MixedRadixBound(x, m, Pow2(tb + sb), Pow2(mb));
    Pow2BelowHalf(tb + sb + mb);
  }

  /** With the widths fitting in 63 bits every packed id is non-negative. */
  lemma PackNonNegative(c: Config, tick: int, sequence: int)
    requires FitsI64(c)
    ensures Packable(c)
    ensures 0 <= Pack(c, tick, sequence)
  {
    var pt, pm, ps := Pow2(c.timeBits), Pow2(c.machineBits), Pow2(c.sequenceBits);
    PackValue(c, tick, sequence);
    NumeralNonNegative(tick % pt, sequence % ps, c.machineId % pm, pt, ps, pm);
  }

  lemma NumeralNonNegative(t: int, q: int, m: int, pt: int, ps: int, pm: int)
    requires 0 <= t < pt && 0 <= q < ps && 0 <= m && pm > 0
    ensures 0 <= t * ps + q && 0 <= (t * ps + q) * pm + m
  {
    MixedRadixBound(t, q, pt, ps);
  }

  /** With the widths fitting in 63 bits, reading the fields of a packed id
      back gives `tick & time_mask`, `sequence & sequence_mask` and
      `machine_id & machine_mask`. */
  lemma PackRoundTrip(c: Config, tick: int, sequence: int)
    requires FitsI64(c)
    ensures Packable(c)
    ensures Unpack(c, Pack(c, tick, sequence))
              == Fields(tick % Pow2(c.timeBits), sequence % Pow2(c.sequenceBits),
                        c.machineId % Pow2(c.machineBits))
  {
    var pt, pm, ps := Pow2(c.timeBits), Pow2(c.machineBits), Pow2(c.sequenceBits);
    PackValue(c, tick, sequence);
    PackNonNegative(c, tick, sequence);
    UnpackNumeral(c, Pack(c, tick, sequence), tick % pt, sequence % ps, c.machineId % pm);
  }

  /** Reading the fields of the non-negative numeral (t, q, m) gives its digits. */
  lemma UnpackNumeral(c: Config, id: int, t: int, q: int, m: int)
    requires ValidConfig(c) && 0 <= id < WORD && 0 <= t
    requires 0 <= q < Pow2(c.sequenceBits) && 0 <= m < Pow2(c.machineBits)
    requires id == (t * Pow2(c.sequenceBits) + q) * Pow2(c.machineBits) + m
    ensures Unpack(c, id) == Fields(t, q, m)
  {
    var ps, pm := Pow2(c.sequenceBits), Pow2(c.machineBits);
    var upper := t * ps + q;
    assert Unsigned(id) == id;
    NumeralDigits(id, pm, upper, m);
    NumeralDigits(upper, ps, t, q);
  }

  /** `PackRoundTrip` for a sequence already inside its field. */
  lemma PackRoundTripSequence(c: Config, tick: int, sequence: int)
    requires FitsI64(c) && 0 <= sequence < Pow2(c.sequenceBits)
    ensures Packable(c)
    ensures Unpack(c, Pack(c, tick, sequence))
              == Fields(tick % Pow2(c.timeBits), sequence, c.machineId % Pow2(c.machineBits))
  {
    PackRoundTrip(c, tick, sequence);
    DivModUnique(sequence, Pow2(c.sequenceBits), 0, sequence);
  }

  /** Lexicographic order on (tick, sequence) within the field ranges is
      exactly numeric order on the packed ids. */
  lemma PackOrder(c: Config, t1: int, q1: int, t2: int, q2: int)
    requires FitsI64(c)
    requires 0 <= t1 < Pow2(c.timeBits) && 0 <= t2 < Pow2(c.timeBits)
    requires 0 <= q1 < Pow2(c.sequenceBits) && 0 <= q2 < Pow2(c.sequenceBits)
    ensures Packable(c)
    ensures Pack(c, t1, q1) < Pack(c, t2, q2) <==> t1 < t2 || (t1 == t2 && q1 < q2)
  {
    if t1 < t2 || (t1 == t2 && q1 < q2) {
      PackLess(c, t1, q1, t2, q2);
    } else if t2 < t1 || (t1 == t2 && q2 < q1) {
      PackLess(c, t2, q2, t1, q1);
    }
  }

  lemma PackLess(c: Config, t1: int, q1: int, t2: int, q2: int)
    requires FitsI64(c)
    requires 0 <= t1 < Pow2(c.timeBits) && 0 <= t2 < Pow2(c.timeBits)
    requires 0 <= q1 < Pow2(c.sequenceBits) && 0 <= q2 < Pow2(c.sequenceBits)
    requires t1 < t2 || (t1 == t2 && q1 < q2)
    ensures Packable(c)
    ensures Pack(c, t1, q1) < Pack(c, t2, q2)
  {
    PackInRange(c, t1, q1);
    PackInRange(c, t2, q2);
    NumeralLess(t1, q1, t2, q2, Pow2(c.sequenceBits), Pow2(c.machineBits),
                c.machineId % Pow2(c.machineBits));
  }

  /** `PackValue` for a tick and a sequence already inside their fields. */
  lemma PackInRange(c: Config, t: int, q: int)
    requires FitsI64(c)
    requires 0 <= t < Pow2(c.timeBits) && 0 <= q < Pow2(c.sequenceBits)
    ensures Packable(c)
    ensures Pack(c, t, q)
              == (t * Pow2(c.sequenceBits) + q) * Pow2(c.machineBits) + c.machineId % Pow2(c.machineBits)
  {
    PackValue(c, t, q);
    DivModUnique(t, Pow2(c.timeBits), 0, t);
    DivModUnique(q, Pow2(c.sequenceBits), 0, q);
  }

  /** Lexicographically smaller digits give a smaller mixed-radix numeral. */
  lemma NumeralLess(t1: int, q1: int, t2: int, q2: int, ps: int, pm: int, m: int)
    requires 0 <= q1 < ps && 0 <= q2 < ps && pm > 0
    requires t1 < t2 || (t1 == t2 && q1 < q2)
    ensures (t1 * ps + q1) * pm + m < (t2 * ps + q2) * pm + m
  {
    var x1, x2 := t1 * ps + q1, t2 * ps + q2;
    assert x1 < x2 by {
      if t1 < t2 {
        MulLess(t1 + 1, t2 + 1, ps);
      }
    }
    MulLess(x1, x2, pm);
  }

  /** The low `machine_bits` bits of every id, as an unsigned value, are
      `machine_id & machine_mask`, so two machines whose masked ids differ
      never produce the same id, whatever the ticks and sequences. */
  lemma DistinctMachinesNeverCollide(c1: Config, c2: Config, t1: int, q1: int, t2: int, q2: int)
    requires Packable(c1) && Packable(c2) && c1.machineBits == c2.machineBits
    requires BitAnd(c1.machineId, c1.machineMask) != BitAnd(c2.machineId, c2.machineMask)
    ensures Pack(c1, t1, q1) != Pack(c2, t2, q2)
  {
    AndMaskIsMod(c1.machineId, c1.machineBits);
    AndMaskIsMod(c2.machineId, c2.machineBits);
  }

  /** Advance: a tick newer than the last one emits with sequence 0 and
      records the tick. */
  lemma StepAdvance(c: Config, s: State, tick: int)
    requires Packable(c) && IsI64State(s) && IsI64(tick)
    requires tick > s.lastTimestamp
    ensures Step(c, s, tick).Emit?
    ensures Step(c, s, tick).next == State(tick, 0)
    ensures FitsI64(c) ==>
              Unpack(c, Step(c, s, tick).id)
                == Fields(tick % Pow2(c.timeBits), 0, c.machineId % Pow2(c.machineBits))
  {
    if FitsI64(c) {
      PackRoundTripSequence(c, tick, 0);
    }
  }

  /** Spin: a tick not newer than the last one with the sequence exhausted
      emits nothing, and a run goes on from the same state as if the reading
      had not happened. */
  lemma StepSpin(c: Config, s: State, tick: int, later: seq<int>)
    requires Packable(c) && IsI64State(s) && IsI64(tick) && AllI64(later)
    requires tick <= s.lastTimestamp && s.sequence >= c.sequenceMask
    ensures Step(c, s, tick).Spin?
    ensures Run(c, s, [tick] + later) == Run(c, s, later)
  {
    assert ([tick] + later)[1..] == later;
  }

  /** Reuse: a tick not newer than the last one with room left bumps the
      sequence by one, keeps the last tick, and packs the fresh tick even
      when it is older than the last one. */
  lemma StepReuse(c: Config, s: State, tick: int)
    requires Packable(c) && IsI64State(s) && IsI64(tick)
    requires tick <= s.lastTimestamp && s.sequence < c.sequenceMask
    ensures Step(c, s, tick).Emit?
    ensures Step(c, s, tick).next == State(s.lastTimestamp, s.sequence + 1)
    ensures FitsI64(c) && SequenceInRange(c, s) ==>
              Unpack(c, Step(c, s, tick).id)
                == Fields(tick % Pow2(c.timeBits), s.sequence + 1, c.machineId % Pow2(c.machineBits))
  {
    if FitsI64(c) && SequenceInRange(c, s) {
      PackRoundTripSequence(c, tick, s.sequence + 1);
    }
  }

  /** Whenever the widths fit in 63 bits, every emitted id is non-negative. */
  lemma StepIdNonNegative(c: Config, s: State, tick: int)
    requires FitsI64(c) && IsI64State(s) && IsI64(tick)
    ensures Step(c, s, tick).Emit? ==> Step(c, s, tick).id >= 0
  {
    PackNonNegative(c, tick, 0);
    PackNonNegative(c, tick, s.sequence + 1);
  }

  /** A worker made by `new` (and so by `default`) only emits non-negative ids. */
  lemma NewIdsNonNegative(machineId: int, s: State, tick: int)
    requires IsI64(machineId) && IsI64State(s) && IsI64(tick)
    ensures Step(New(machineId).config, s, tick).Emit? ==> Step(New(machineId).config, s, tick).id >= 0
  {
    StepIdNonNegative(New(machineId).config, s, tick);
  }

  predicate NonDecreasing(xs: seq<int>) {
    forall i, j :: 0 <= i < j < |xs| ==> xs[i] <= xs[j]
  }

  predicate StrictlyIncreasing(xs: seq<int>) {
    forall i, j :: 0 <= i < j < |xs| ==> xs[i] < xs[j]
  }

  /** Every tick fits the time field without truncation. */
  predicate TicksInField(c: Config, ticks: seq<int>) {
    0 <= c.timeBits && forall i :: 0 <= i < |ticks| ==> 0 <= ticks[i] < Pow2(c.timeBits)
  }

  lemma TicksInFieldAreI64(c: Config, ticks: seq<int>)
    requires ValidConfig(c) && TicksInField(c, ticks)
    ensures AllI64(ticks)
  {
    Pow2BelowHalf(c.timeBits);
  }

  /** After an emission with time field `prev` and state `s`, a run over
      ticks no older than `prev` emits only ids above the previous one, in
      increasing order. */
  lemma {:induction false} RunAbove(c: Config, s: State, ticks: seq<int>, prev: int, prevId: int)
    requires FitsI64(c) && IsI64State(s) && SequenceInRange(c, s)
    requires TicksInField(c, ticks) && NonDecreasing(ticks) && AllI64(ticks)
    requires 0 <= prev <= s.lastTimestamp && prev < Pow2(c.timeBits)
    requires forall i :: 0 <= i < |ticks| ==> prev <= ticks[i]
    requires prevId == Pack(c, prev, s.sequence)
    ensures StrictlyIncreasing(Run(c, s, ticks).ids)
    ensures forall i :: 0 <= i < |Run(c, s, ticks).ids| ==> prevId < Run(c, s, ticks).ids[i]
    decreases |ticks|
  {
    if |ticks| != 0 {
      var t, rest := ticks[0], ticks[1..];
      assert forall i :: 0 <= i < |rest| ==> rest[i] == ticks[i + 1];
      match Step(c, s, t)
      case Spin =>
        RunAbove(c, s, rest, prev, prevId);
      case Emit(id, next) =>
        StepAbove(c, s, t, prev, prevId);
        RunAbove(c, next, rest, t, id);
    }
  }

  /** One emitting step with a tick no older than the time field `prev` of
      the previous id emits a larger id, packed from the fresh tick and the
      new sequence. */
  lemma StepAbove(c: Config, s: State, t: int, prev: int, prevId: int)
    requires FitsI64(c) && IsI64State(s) && SequenceInRange(c, s)
    requires 0 <= prev <= s.lastTimestamp && prev <= t < Pow2(c.timeBits) && IsI64(t)
    requires prevId == Pack(c, prev, s.sequence)
    ensures Step(c, s, t).Emit? ==>
              && prevId < Step(c, s, t).id
              && Step(c, s, t).id == Pack(c, t, Step(c, s, t).next.sequence)
              && t <= Step(c, s, t).next.lastTimestamp
  {
    if Step(c, s, t).Emit? {
      var q := Step(c, s, t).next.sequence;
      Pow2BelowHalf(c.sequenceBits);
      assert t > s.lastTimestamp ==> q == 0;
      PackLess(c, prev, s.sequence, t, q);
    }
  }

  /** One worker fed non-decreasing ticks that fit the time field emits
      strictly increasing ids, from any state that keeps the sequence
      invariant. */
  lemma {:induction false} RunIncreasing(c: Config, s: State, ticks: seq<int>)
    requires FitsI64(c) && IsI64State(s) && SequenceInRange(c, s)
    requires TicksInField(c, ticks) && NonDecreasing(ticks)
    ensures Packable(c) && AllI64(ticks)
    ensures StrictlyIncreasing(Run(c, s, ticks).ids)
    decreases |ticks|
  {
    TicksInFieldAreI64(c, ticks);
    if |ticks| != 0 {
      var t, rest := ticks[0], ticks[1..];
      assert forall i :: 0 <= i < |rest| ==> rest[i] == ticks[i + 1];
      match Step(c, s, t)
      case Spin =>
        RunIncreasing(c, s, rest);
      case Emit(id, next) =>
        RunAbove(c, next, rest, t, id);
    }
  }

  /** A run over two lists of readings is the run over the first followed
      by the run over the second from the state the first left behind. */
  lemma {:induction false} RunAppend(c: Config, s: State, a: seq<int>, b: seq<int>)
    requires Packable(c) && IsI64State(s) && AllI64(a) && AllI64(b)
    ensures AllI64(a + b)
    ensures Run(c, s, a + b).ids == Run(c, s, a).ids + Run(c, Run(c, s, a).final, b).ids
    ensures Run(c, s, a + b).final == Run(c, Run(c, s, a).final, b).final
    decreases |a|
  {
    assert AllI64(a + b) by {
      forall k | 0 <= k < |a + b| ensures IsI64((a + b)[k]) {
        if k < |a| { assert (a + b)[k] == a[k]; } else { assert (a + b)[k] == b[k - |a|]; }
      }
    }
    if |a| == 0 {
      assert a + b == b;
    } else {
      assert (a + b)[0] == a[0];
      assert (a + b)[1..] == a[1..] + b;
      match Step(c, s, a[0])
      case Spin =>
        RunAppend(c, s, a[1..], b);
      case Emit(id, next) =>
        RunAppend(c, next, a[1..], b);
        assert [id] + (Run(c, next, a[1..]).ids + Run(c, Run(c, next, a[1..]).final, b).ids)
               == ([id] + Run(c, next, a[1..]).ids) + Run(c, Run(c, next, a[1..]).final, b).ids;
    }
  }

  /** Two successive `next_id` calls, each a run that emits one id, return
      increasing ids when the readings of both calls together give
      non-decreasing ticks that fit the time field. */
  lemma SuccessiveIdsIncrease(c: Config, s: State, first: seq<int>, second: seq<int>,
                              id1: int, mid: State, id2: int, last: State)
    requires FitsI64(c) && IsI64State(s) && SequenceInRange(c, s)
    requires TicksInField(c, first + second) && NonDecreasing(first + second)
    requires AllI64(first) && AllI64(second) && IsI64State(mid)
    requires Run(c, s, first) == Trace([id1], mid)
    requires Run(c, mid, second) == Trace([id2], last)
    ensures id1 < id2
  {
    var both := first + second;
    var ids := Run(c, s, both).ids;
    assert ids == [id1] + [id2] by {
      RunAppend(c, s, first, second);
    }
    assert StrictlyIncreasing(ids) by {
      RunIncreasing(c, s, both);
    }
    assert ids[0] == id1 && ids[1] == id2;
  }

  /** Later wall-clock readings never give earlier ticks. */
  lemma TickMonotone(c: Config, now1: int, now2: int)
    requires now1 <= now2 && Elapsed(c, now2) < TICK_RANGE
    ensures CurrentTimestamp(c, now1) <= CurrentTimestamp(c, now2)
  {
    var t1, t2 := CurrentTimestamp(c, now1), CurrentTimestamp(c, now2);
    if t1 > t2 {
      if t2 + 1 < t1 {
        MulLess(t2 + 1, t1, TICK_NANOS);
      }
    }
  }

  /** The configuration of the scenarios below: widths 10/4/2, machine id 3,
      so an id is tick * 64 + sequence * 16 + 3. */
  predicate ScenarioConfig(c: Config) {
    && FitsI64(c)
    && c.timeBits == 10 && c.machineBits == 4 && c.sequenceBits == 2 && c.machineId == 3
  }

  lemma ScenarioWorker(epoch: int)
    requires IsI64(epoch)
    ensures ScenarioConfig(WithBitsAndEpoch(10, 4, 2, 3, epoch).config)
    ensures WithBitsAndEpoch(10, 4, 2, 3, epoch).state == State(0, 0)
  {
  }

  lemma ScenarioPack(c: Config, t: int, q: int)
    requires ScenarioConfig(c) && 0 <= t < 1024 && 0 <= q < 4
    ensures Pack(c, t, q) == t * 64 + q * 16 + 3
  {
    ScenarioPowers();
    PackInRange(c, t, q);
  }

  /** When the clock steps back, the reuse branch packs the older tick with
      a bumped sequence, so the same worker can emit the same id twice:
      ticks 9, 9, 10, 9 emit (9, 0), (9, 1), (10, 0), (9, 1). */
  lemma RegressionRepeatsId(epoch: int)
    requires IsI64(epoch)
    ensures var w := WithBitsAndEpoch(10, 4, 2, 3, epoch);
            var ids := Run(w.config, w.state, [9, 9, 10, 9]).ids;
            |ids| == 4 && ids[1] == ids[3] == (9 * 64) + 16 + 3
  {
    ScenarioWorker(epoch);
    RegressionRun(WithBitsAndEpoch(10, 4, 2, 3, epoch).config);
  }

  /** The run of `RegressionRepeatsId` over ticks 9, 9, 10, 9 from a fresh
      state. `RegressionRun`, `RegressionFrom`, `RegressionMid` and
      `RegressionTail` each peel off one tick: they evaluate its step with
      `ScenarioPack` and leave the remaining ticks to the next lemma. */
  lemma RegressionRun(c: Config)
    requires ScenarioConfig(c)
    ensures Run(c, State(0, 0), [9, 9, 10, 9]).ids
              == [(9 * 64) + 3, (9 * 64) + 16 + 3, (10 * 64) + 3, (9 * 64) + 16 + 3]
  {
    ScenarioPack(c, 9, 0);
    RegressionFrom(c);
    assert [9, 9, 10, 9][1..] == [9, 10, 9];
  }

  lemma RegressionFrom(c: Config)
    requires ScenarioConfig(c)
    ensures Run(c, State(9, 0), [9, 10, 9]).ids
              == [(9 * 64) + 16 + 3, (10 * 64) + 3, (9 * 64) + 16 + 3]
  {
    ScenarioPack(c, 9, 1);
    RegressionMid(c);
    assert [9, 10, 9][1..] == [10, 9];
  }

  lemma RegressionMid(c: Config)
    requires ScenarioConfig(c)
    ensures Run(c, State(9, 1), [10, 9]).ids == [(10 * 64) + 3, (9 * 64) + 16 + 3]
  {
    ScenarioPack(c, 10, 0);
    RegressionTail(c);
    assert [10, 9][1..] == [9];
  }

  lemma RegressionTail(c: Config)
    requires ScenarioConfig(c)
    ensures Run(c, State(10, 0), [9]).ids == [(9 * 64) + 16 + 3]
  {
    ScenarioPack(c, 9, 1);
  }

  /** A frozen tick with the sequence exhausted: tick 5 from state (5, 3)
      spins, and the next tick, 6, emits (6, 0) and restarts the sequence. */
  lemma ExhaustedThenAdvance(c: Config)
    requires ScenarioConfig(c)
    ensures Run(c, State(5, 3), [5, 6]).ids == [(6 * 64) + 3]
    ensures Run(c, State(5, 3), [5, 6]).final == State(6, 0)
  {
    ScenarioPowers();
    ScenarioPack(c, 6, 0);
    assert [5, 6][1..] == [6];
    assert [6][1..] == [];
  }

  lemma ScenarioPowers()
    ensures Pow2(2) == 4 && Pow2(4) == 16 && Pow2(10) == 1024
  {
    assert Pow2(2) == 4;
    Pow2Add(2, 2);
    Pow2Add(4, 4);
    Pow2Add(8, 2);
  }
}
