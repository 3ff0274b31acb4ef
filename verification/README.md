# FastIdWorker in Dafny

A model of `FastIdWorker`, the Snowflake-style id generator of FastID-rs.
A worker holds three field widths, the masks derived from them, a machine
id, an epoch and the pair (last tick, sequence). Each call to `next_id`
does four things:

- it reads the clock;
- it turns the nanoseconds since the epoch into a tick of 2^20 ns;
- it advances, reuses or spins the sequence;
- it packs (tick, sequence, machine id) into one `i64`.

The project has four modules:

- `Bits` (`bits.dfy`): unbounded naturals with powers of two, and
  bitwise AND and OR defined one binary digit at a time.
- `Int64` (`int64.dfy`): Rust's `i64` as an integer in [-2^63, 2^63).
  `&`, `|`, `!` and `<<` are defined on its 64-bit two's-complement
  pattern, so `<<` loses the bits shifted past bit 63.
- `FastId` (`worker.dfy`): the worker itself.
  - The configuration, the state and the constructors `new`, `with_bits`,
    `with_bits_and_epoch` and `default`.
  - The mask `!(-1 << b)`.
  - `get_current_timestamp`, with the clock reading as a parameter.
  - One pass of the `next_id` loop as the function `Step`. It either emits
    an id and a new state, or spins.
  - `Run`, which repeats `Step` over a list of clock readings.
  - `NextId`, the loop itself over a finite list of clock readings.
- `FastIdProperties` (`properties.dfy`): what the worker guarantees.
  - When the widths sum to at most 63, the packed id is a mixed-radix
    numeral.
  - When the widths sum to at most 63, unpacking a packed id gives the
    masked fields back.
  - When the widths sum to at most 63, ids of in-range fields are ordered
    lexicographically by (tick, sequence).
  - Machines with the same machine width whose masked ids differ never
    collide.
  - The three branches of a step behave as described.
  - When the widths sum to at most 63, ids from one worker increase
    strictly for non-decreasing clock ticks that fit the time field.
  - Ids are non-negative when the widths fit in 63 bits.
  - For the first 2^83 ns after the epoch, the clock quantization is
    monotone.
  - A clock that steps back can make the worker repeat an id.

Three points of the code shape the model:

- **Which tick is packed.** The packed time field is the freshly read tick
  in every branch (src/lib.rs:105), not `last_timestamp`. After the clock
  steps back, the reuse branch keeps `last_timestamp` but packs the older
  tick with a bumped sequence, so one worker can emit the same id twice.
  `RegressionRepeatsId` shows this with concrete readings.
- **Shift widths.** `-1 << b` with `b >= 64` panics in a debug build and
  wraps the shift amount to `b & 63` in a release build. The model accepts
  the widths 0..63, where `Mask(b) = 2^b - 1`.
- **State.** `next_id` takes `&mut self` and the state fields are `i64`;
  there is no lock. The model threads the state through its functions.

## Model

| member | source | states |
|---|---|---|
| FastId.Mask | src/lib.rs:56-60 | `!(-1 << b)` is the all-ones pattern of width b, 2^b - 1, for every width Rust can shift by; width 0 gives mask 0 |
| FastId.WithBitsAndEpoch | src/lib.rs:49-80 | the worker keeps the given widths and machine id, derives each mask as 2^width - 1, stores the epoch as `timestamp as u64` (timestamp + 2^64 when negative), and starts with last tick 0 and sequence 0 |
| FastId.WithBits | src/lib.rs:34-47 | the same as `with_bits_and_epoch` with the epoch fixed to `DEFAULT_EPOCH`; fresh state (0, 0) |
| FastId.New | src/lib.rs:26-32 | widths 40/16/7, masks 0xFF_FFFF_FFFF, 0xFFFF and 0x7F, default epoch, fresh state, and widths that fit the 63 non-sign bits |
| FastId.Default | src/lib.rs:114-118 | `new(1)`: machine id 1 with the `new` widths and the default epoch, fresh state |
| FastId.CurrentTimestamp | src/lib.rs:82-90 | the tick is always an `i64`; it is 0 when the clock is at or before the epoch; and for elapsed times below 2^83 ns it is the floor of the elapsed nanoseconds divided by 2^20 |
| FastIdProperties.TickMonotone | src/lib.rs:82-90 | within the first 2^83 ns after the epoch, a later clock reading never yields a smaller tick |
| FastId.Pack | src/lib.rs:105-107 | the packed id is an `i64`, and for any widths its low `machine_bits` bits are `machine_id & machine_mask` |
| FastIdProperties.PackValue | src/lib.rs:105-107 | when the widths sum to at most 63, the shift-and-OR packing equals the numeral ((tick mod 2^tb) * 2^sb + sequence mod 2^sb) * 2^mb + machine_id mod 2^mb |
| FastIdProperties.PackNonNegative | src/lib.rs:105-107 | when the widths sum to at most 63, every packed id is non-negative |
| FastIdProperties.PackRoundTrip | src/lib.rs:105-107 | when the widths sum to at most 63, unpacking a packed id gives back `tick & time_mask`, `sequence & sequence_mask` and `machine_id & machine_mask` |
| FastIdProperties.PackOrder | src/lib.rs:105-107 | when the widths sum to at most 63, for in-range fields, one packed id is below another exactly when its (tick, sequence) pair is lexicographically smaller |
| FastIdProperties.DistinctMachinesNeverCollide | src/lib.rs:105-107 | two workers with the same machine width whose `machine_id & machine_mask` differ never emit the same id, whatever their ticks and sequences |
| Int64.AndMaskIsMod | src/lib.rs:105-107 | `x & (2^b - 1)` is the Euclidean remainder of x by 2^b, also for negative x, which is how the fields are truncated |
| FastId.Step | src/lib.rs:93-108 | a pass spins exactly when the tick is not newer than the last one and the sequence has reached its mask; an emitting pass records the larger of the old and new tick; the sequence stays within 0..mask |
| FastIdProperties.StepAdvance | src/lib.rs:96-98 | a newer tick emits an id with sequence 0, sets the state to (tick, 0), and, when the widths sum to at most 63, the id unpacks to the fresh tick masked to the time field, sequence 0 and the masked machine id |
| FastIdProperties.StepSpin | src/lib.rs:99-100 | an old tick with an exhausted sequence emits nothing, and the run continues from the unchanged state as if the reading had not happened |
| FastIdProperties.StepReuse | src/lib.rs:101-103 | an old or equal tick with room left keeps the last tick, bumps the sequence by one, and, when the widths sum to at most 63 and the state's sequence is within 0..mask, the id unpacks to the fresh tick masked to the time field (not the kept last tick), the bumped sequence and the masked machine id |
| FastIdProperties.StepIdNonNegative | src/lib.rs:105-107 | when the widths sum to at most 63, every emitted id is non-negative |
| FastIdProperties.NewIdsNonNegative | src/lib.rs:26-32 | a worker made by `new` (and so by `default`) only emits non-negative ids |
| FastId.Run | src/lib.rs:92-111 | repeated passes emit at most one id per reading, never lower the last tick, and keep the sequence within 0..mask |
| FastId.NextId | src/lib.rs:92-111 | `next_id` returns the id of the first reading that does not spin, after spinning on every reading before it, and the call equals a `Run` over the readings it consumed that emits exactly that id and ends in the returned state; it reports Pending only when every reading spins, and then the run emits nothing and keeps the state |
| FastIdProperties.RunIncreasing | src/lib.rs:92-111 | when the widths sum to at most 63, one worker fed non-decreasing ticks that fit the time field emits strictly increasing ids |
| FastIdProperties.SuccessiveIdsIncrease | src/lib.rs:92-111 | when the widths sum to at most 63 and the starting state's sequence is within 0..mask, two successive `next_id` calls on one worker, each emitting one id, return increasing ids when the readings of both calls give non-decreasing ticks that fit the time field |
| FastIdProperties.RegressionRepeatsId | src/lib.rs:96-107 | with widths 10/4/2 and machine id 3, the ticks 9, 9, 10, 9 emit four ids whose second and fourth are both (9, 1, 3) |
| FastIdProperties.ExhaustedThenAdvance | src/lib.rs:96-100 | with widths 10/4/2 and machine id 3, tick 5 from state (5, 3) spins because the sequence is exhausted, and tick 6 then emits (6, 0, 3) and leaves state (6, 0) |

## Left out

- The clock. `SystemTime::now()` is a parameter `now`, in integer
  nanoseconds since the Unix epoch. `UNIX_EPOCH.add(..)` and
  `duration_since` become integer arithmetic. A panic of `add` on a
  platform whose `SystemTime` cannot hold the epoch is not modelled.
- The unbounded retry loop of `next_id`. It is modelled over a finite list
  of clock readings. When every reading spins, the result is `Pending`,
  where `next_id` would keep reading the clock.
- Widths outside 0..63, and `machine_bits + sequence_bits >= 64` in the
  packing shift. A debug build panics on these shifts and a release build
  wraps the shift amount. The model excludes both through its
  preconditions.
- `&mut self`, `#[derive(Debug)]` and the `it_works` test, which only
  prints an id.
- FastId.CurrentTimestamp: describes the tick only for elapsed times below
  2^83 ns, about 306 million years. Beyond that the body models the
  `as i64` truncation, but the contract does not describe it.
- FastIdProperties.PackRoundTrip: stated only when the three widths sum to
  at most 63. With wider fields, the time field reaches the sign bit or
  loses its top bits.
- FastIdProperties.PackValue: stated only when the widths sum to at most
  63, for the same reason.
- FastIdProperties.RunIncreasing: requires ticks that fit the time field.
  Past 2^time_bits ticks the masked time field wraps around and ids
  decrease. With the default widths that is about 36 years after the epoch.
