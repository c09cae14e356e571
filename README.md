# Beats and Bundle channel tables in Dafny

This project models two pieces of Ardour.

**`Temporal::Beats`** (`libs/temporal/temporal/beats.h`) is musical time: a whole number of beats plus ticks, at a fixed resolution of `PPQN` ticks per beat. `PPQN` is `Temporal::ticks_per_beat`, which is defined in `types.h`; that file is not part of this model. Here `PPQN` is an abstract constant, a positive `int32`.

The model of `beats.h` lives in `beats.dfy`, module `Temporal`:

- The value is the datatype `Beats(beats, ticks)`.
- `normalize()` is specified by the function `Normalized`. It is built from `Borrow` (the first loop) and `Carry` (the second loop, on magnitudes). The class `BeatsVar` runs the two loops in place and is proved equal to `Normalized`.
- The `const` members and static factories are functions over `Beats`:
  - comparisons;
  - whole-beat rounding;
  - `+`, `-`, unary `-` and `/`;
  - `beats(n)`, `ticks(t)`, `ticks_at_rate`, `to_ticks`, `to_ticks(ppqn)`, `tick()` and `operator!`.
- Assignment, `+=` and `-=` update a `BeatsVar` in place.
- `round_to_subdivision` is a method on the total tick count, as the code computes it. It calls one helper method per rounding branch.

The model follows the code literally where it differs from the obvious intent:

- **Mixed-sign normalisation.** `normalize()` moves the sign of `beats` onto both magnitudes after borrowing. So `Beats(0, -1)` becomes `(-1, -(PPQN-1))`, not `(-1, PPQN-1)`, and not the intended total of -1 tick.
- **Consequences of that.** Several results hold only away from this case:
  - `Beats::ticks(t)` round-trips only for `t >= 0` or whole beats.
  - Unary minus is exact except strictly between zero and one beat.
  - `x + (-x)` is zero exactly when negation is exact (`AddNegateCancels`).
  - `+ n` and `- n` whole beats move the total by exactly n beats while the sign of beats is kept, and also when a negative value crosses up to non-negative beats, with two exceptions (`AddBeats`, `SubBeats`). A value that crosses below zero ends 2*ticks lower. A negative value with negative ticks that lands on beats 0 becomes (-1, -(ticks+PPQN)).
  - `x + y - y == x` and "add component-wise is add the totals" are proved for non-negative values only (`AddThenSub`, `AddIsSumOfTotals`). The round trip fails for mixed signs (`AddThenSubMixedSignExample`), and also for two negative values whose ticks carry (`AddThenSubNegativeExample`).
- **Round-to-nearest.** When a forward shift lands beyond one beat, it subtracts `ticks_per_beat` from the total. The `++beats` that was meant to compensate is never used.
- **Round-up modes.** These work on the total, so they do carry into the next beat.
- **`RoundDownAlways` at total 0** gives `ticks_per_beat`, i.e. `(1, 0)`.
- **Rounding down a value off the grid**, such as total 100 on a grid of 480, gives the grid line below (here 0); there is no wrap.

**`ARDOUR::Bundle`'s channel table** (`libs/ardour/bundle.cc`) is a sequence of channels. Each channel has a name and a list of full port names (`client:port`). Its model lives in `bundle.dfy`, module `Ardour`:

- The class `Bundle` holds the table as a `seq<Channel>` field. Each editing method states the whole new table with `modifies this`channels`.
- Every method keeps `Valid()`: every port name in the table contains `':'`. This is the condition the code asserts on every insertion.
- `std::find` and `erase` become the loop method `FindPort` and the function `RemoveFirst`.

## Model

| member | source | states |
|---|---|---|
| Temporal.ToTicks | libs/temporal/temporal/beats.h:363 | the total tick count of a pair; for a normalised value it is non-negative when beats is, and at most minus one beat when beats is negative (no normalised total lies in (-PPQN, 0)) |
| Temporal.Borrow | libs/temporal/temporal/beats.h:47-52 | the first loop of normalize in closed form: negative ticks t give (b + t div PPQN, t mod PPQN), non-negative ticks are left alone |
| Temporal.Carry | libs/temporal/temporal/beats.h:59-63 | the second loop of normalize in closed form: (b + t div PPQN, t mod PPQN) for non-negative t |
| Temporal.Normalized | libs/temporal/temporal/beats.h:45-68 | normalize leaves \|ticks\| < PPQN, ticks >= 0 when beats >= 0 and ticks <= 0 when beats < 0 |
| Temporal.NormalizedTicks | libs/temporal/temporal/beats.h:45-68 | the exact total after normalize in each of the three cases (negative beats, non-negative total, borrow into a negative total) |
| Temporal.NormalizePreservesTicks | libs/temporal/temporal/beats.h:47-67 | normalize keeps the total if and only if beats and the total are non-negative, or ticks is a whole number of beats under non-negative beats, or beats is negative and ticks non-positive |
| Temporal.NormalizeMixedSignExample | libs/temporal/temporal/beats.h:71-73 | Beats(0, -1) normalises to (-1, -(PPQN-1)), a total of -2*PPQN+1 |
| Temporal.NormalizeFixesExactlyNormal | libs/temporal/temporal/beats.h:45-68 | a pair is unchanged by normalize if and only if it is normalised; normalize is idempotent |
| Temporal.NormalOrder | libs/temporal/temporal/beats.h:256-258 | on normalised values the lexicographic order of (beats, ticks) is the order of the totals, in both directions |
| Temporal.NormalTicksInjective | libs/temporal/temporal/beats.h:363 | two normalised values with the same total are the same pair |
| Temporal.Equal | libs/temporal/temporal/beats.h:239-241 | operator== holds if and only if the pairs are equal, and on normalised values if and only if the totals are equal |
| Temporal.NotEqual | libs/temporal/temporal/beats.h:252-254 | operator!= is the negation of pair equality |
| Temporal.Less | libs/temporal/temporal/beats.h:256-258 | on normalised values operator< holds if and only if the total is smaller |
| Temporal.LessEq | libs/temporal/temporal/beats.h:260-262 | operator<= is operator< or equality |
| Temporal.Greater | libs/temporal/temporal/beats.h:264-266 | operator> is operator< with the operands swapped |
| Temporal.GreaterEq | libs/temporal/temporal/beats.h:268-270 | operator>= is operator> or equality |
| Temporal.OrderTrichotomy | libs/temporal/temporal/beats.h:239-270 | exactly one of <, ==, > holds for any two values |
| Temporal.EqualsWholeBeats | libs/temporal/temporal/beats.h:248-250 | operator==(int n) holds if and only if rounding down to the beat gives n whole beats; for normalised values and n >= 0, if and only if the total lies in [n*PPQN, (n+1)*PPQN) |
| Temporal.IsZero | libs/temporal/temporal/beats.h:369 | operator! on a normalised value holds if and only if the total is zero |
| Temporal.FromBeats | libs/temporal/temporal/beats.h:85-87 | Beats::beats(n) is the pair (n, 0), a total of n*PPQN |
| Temporal.FromTicks | libs/temporal/temporal/beats.h:90-92 | Beats::ticks(t) is normalised, and for t >= 0 it is (t div PPQN, t mod PPQN) |
| Temporal.FromTicksRoundTrip | libs/temporal/temporal/beats.h:90-92 | to_ticks(ticks(t)) == t if and only if t >= 0 or t is a whole number of beats |
| Temporal.ToTicksRoundTrip | libs/temporal/temporal/beats.h:363 | a normalised value is rebuilt by ticks(to_ticks()) if and only if beats >= 0 or ticks == 0 |
| Temporal.Tick | libs/temporal/temporal/beats.h:371 | tick() is normalised with a total of one tick |
| Temporal.TicksAtRate | libs/temporal/temporal/beats.h:101-103 | ticks_at_rate is normalised, and for a non-negative count it has non-negative beats and the total t*PPQN/ppqn, rounded down |
| Temporal.TicksAtRateNative | libs/temporal/temporal/beats.h:101-103 | ticks_at_rate(t, PPQN) == ticks(t) for t >= 0 |
| Temporal.TicksAtRateOneBeat | libs/temporal/temporal/beats.h:101-103 | ticks_at_rate(n, n) is one beat, e.g. (48000, 48000) gives (1, 0) |
| Temporal.ToTicksAt | libs/temporal/temporal/beats.h:364 | to_ticks(ppqn) as compiled, with the unsigned 32-bit product; where that product does not wrap it is beats*ppqn + ticks*ppqn/PPQN |
| Temporal.ToTicksAtNative | libs/temporal/temporal/beats.h:364 | to_ticks(PPQN) == to_ticks() for non-negative ticks whose product with PPQN fits 32 bits |
| Temporal.ToTicksAtNegativeTicks | libs/temporal/temporal/beats.h:364 | for Beats(-1, -1), to_ticks() is -PPQN-1 but to_ticks(PPQN) is at least -PPQN |
| Temporal.ToTicksAtSigned | libs/temporal/temporal/beats.h:364 | the signed conversion agrees with the compiled one wherever the compiled one does not wrap |
| Temporal.ToTicksAtSignedNative | libs/temporal/temporal/beats.h:364 | the signed conversion at PPQN equals to_ticks() for every value |
| Temporal.RoundToBeat | libs/temporal/temporal/beats.h:120-122 | round_to_beat gives a whole beat; it is beats+1 if and only if ticks >= PPQN/2, and beats otherwise |
| Temporal.RoundToBeatIsNearest | libs/temporal/temporal/beats.h:120-122 | for non-negative normalised values round_to_beat gives a whole beat r with r - (PPQN - PPQN/2) <= total < r + PPQN/2, for every PPQN |
| Temporal.RoundToBeatNearestEvenPpqn | libs/temporal/temporal/beats.h:120-122 | with an even PPQN, round_to_beat on a non-negative normalised value is the nearest whole beat, the midpoint going up |
| Temporal.RoundToBeatOddPpqnExample | libs/temporal/temporal/beats.h:120-122 | with PPQN = 3, (0, 1) rounds up to (1, 0), although it is closer to the beat below |
| Temporal.RoundUpToBeat | libs/temporal/temporal/beats.h:124-126 | round_up_to_beat returns the value itself if and only if ticks == 0, and (beats+1, 0) otherwise |
| Temporal.RoundDownToBeat | libs/temporal/temporal/beats.h:128-130 | round_down_to_beat is (beats, 0), and for non-negative normalised values it lies within one beat at or below the total |
| Temporal.WholeBeatCeilingAndFloor | libs/temporal/temporal/beats.h:124-130 | for non-negative normalised values round_up_to_beat is the ceiling and round_down_to_beat the floor to a whole beat |
| Temporal.WholeBeatRoundingOfNegatives | libs/temporal/temporal/beats.h:124-130 | for negative values off the beat, round_down_to_beat moves up (toward zero) and round_up_to_beat is one beat above it |
| Temporal.PrevBeat | libs/temporal/temporal/beats.h:132-135 | prev_beat is (beats-1, 0), strictly earlier than a normalised value even on a beat |
| Temporal.NextBeat | libs/temporal/temporal/beats.h:137-140 | next_beat is (beats+1, 0), strictly later than a normalised value even on a beat |
| Temporal.Add | libs/temporal/temporal/beats.h:300-302 | operator+ is normalised, and for normalised operands of the same sign its total is the sum of the totals |
| Temporal.Sub | libs/temporal/temporal/beats.h:304-306 | operator- is normalised, and for normalised a >= b its total is the difference of the totals |
| Temporal.ReplaceBeats | libs/temporal/temporal/beats.h:45-68 | normalising a normalised pair with new beats b: unchanged while the sign of beats is kept or ticks is 0; (b, -ticks) when beats turn negative; (b-1, ticks+PPQN) when negative beats turn positive; (-1, -(ticks+PPQN)) when negative beats become 0 |
| Temporal.ReplaceBeatsTicks | libs/temporal/temporal/beats.h:45-68 | the total after replacing beats: exact, except that it is 2*ticks lower when beats turn negative, and -2*PPQN-ticks when negative beats with negative ticks become 0 |
| Temporal.AddBeats | libs/temporal/temporal/beats.h:316-318 | operator+(int) is normalised; while the sign of beats is kept it is (beats+n, ticks), n beats later; crossing below zero gives (beats+n, -ticks), 2*ticks below n beats later; crossing up from negative is exactly n beats later if and only if it does not land on beats 0 with negative ticks, which gives (-1, -(ticks+PPQN)) |
| Temporal.SubBeats | libs/temporal/temporal/beats.h:320-322 | operator-(int), with the same cases as operator+(int) for -n: n beats earlier while the sign is kept, (beats-n, -ticks) when crossing below zero, and (-1, -(ticks+PPQN)) when negative beats with negative ticks reach 0 |
| Temporal.WholeBeatsAcrossZeroExamples | libs/temporal/temporal/beats.h:316-322 | (0, 5) - 1 is (-1, -5), a total of -PPQN-5, and (-1, -5) + 1 is (-1, -(PPQN-5)) |
| Temporal.AddAssignIntSkipsNormalize | libs/temporal/temporal/beats.h:324-327 | operator+=(int) agrees with operator+(int) if and only if the resulting pair is already normalised |
| Temporal.Negate | libs/temporal/temporal/beats.h:334-336 | unary minus is normalised; on normalised values it negates the total if and only if the value is not strictly between zero and one beat, where it gives (-1, ticks-PPQN) |
| Temporal.AddIsSumOfTotals | libs/temporal/temporal/beats.h:300-302 | for non-negative normalised values, x + y is ticks(to_ticks(x) + to_ticks(y)): adding component-wise is adding totals |
| Temporal.AddThenSub | libs/temporal/temporal/beats.h:300-306 | for non-negative normalised values, x + y - y == x |
| Temporal.AddThenSubNegativeExample | libs/temporal/temporal/beats.h:300-306 | with two negative values whose ticks carry the round trip fails: for x = (-1, -(PPQN-1)), x + x is (-3, -(PPQN-2)), and subtracting x gives (-2, -1) |
| Temporal.AddThenSubMixedSignExample | libs/temporal/temporal/beats.h:300-306 | with opposite signs the round trip fails: (0, 5) + (-1, 0) is (-1, -5), and subtracting (-1, 0) gives (-1, -(PPQN-5)) |
| Temporal.AddNegateCancels | libs/temporal/temporal/beats.h:334-336 | x + (-x) is zero for normalised x if and only if x is not strictly between zero and one beat |
| Temporal.Div | libs/temporal/temporal/beats.h:343-346 | operator/ is normalised, and for a non-negative total and positive factor its total is the quotient rounded down |
| Temporal.BeatsVar.Zero | libs/temporal/temporal/beats.h:42 | the default constructor gives (0, 0) |
| Temporal.BeatsVar.constructor | libs/temporal/temporal/beats.h:71-73 | Beats(b, t) holds Normalized(b, t) |
| Temporal.BeatsVar.Normalize | libs/temporal/temporal/beats.h:45-68 | the two loops of normalize leave the fields equal to Normalized of the old fields |
| Temporal.BeatsVar.Assign | libs/temporal/temporal/beats.h:114-118 | assignment copies both fields unchanged |
| Temporal.BeatsVar.AddAssign | libs/temporal/temporal/beats.h:348-353 | operator+=(Beats) leaves the value operator+ computes |
| Temporal.BeatsVar.SubAssign | libs/temporal/temporal/beats.h:355-360 | operator-=(Beats) leaves the value operator- computes |
| Temporal.BeatsVar.AddAssignInt | libs/temporal/temporal/beats.h:324-327 | operator+=(int) adds n to beats only and leaves ticks unnormalised |
| Temporal.BeatsVar.SubAssignInt | libs/temporal/temporal/beats.h:329-332 | operator-=(int) subtracts n from beats only and leaves ticks unnormalised |
| Temporal.NearestGridLine | libs/temporal/temporal/beats.h:195-225 | the grid line nearest to t: a multiple of step within half a step, with a midpoint going down |
| Temporal.RoundUpTicks | libs/temporal/temporal/beats.h:148-169 | the least multiple of step at or above t (RoundUpMaybe) or strictly above t (RoundUpAlways) |
| Temporal.RoundDownTicks | libs/temporal/temporal/beats.h:171-187 | the greatest multiple of step at or below t (RoundDownMaybe) or strictly below t (RoundDownAlways), except RoundDownAlways at 0 gives ticks_per_beat |
| Temporal.RoundNearestTicks | libs/temporal/temporal/beats.h:189-229 | the nearest grid line, minus ticks_per_beat when a forward shift goes beyond ticks_per_beat |
| Temporal.RoundToSubdivision | libs/temporal/temporal/beats.h:142-232 | for a non-negative total, the result is normalised and its total is the rounded total of the chosen mode on a grid of ticks_per_beat/subdivision |
| Ardour.FindPort | libs/ardour/bundle.cc:90 | std::find: the first index holding the port, or the length when the port is absent |
| Ardour.RemoveFirst | libs/ardour/bundle.cc:89-95 | erasing the first occurrence: unchanged when the port is absent, otherwise one element shorter |
| Ardour.RemoveFirstMultiset | libs/ardour/bundle.cc:89-95 | erasing removes exactly one copy of the port when present and keeps every other port with its multiplicity |
| Ardour.RemoveFirstAfterPrefix | libs/ardour/bundle.cc:90-93 | erasing the first occurrence leaves a prefix without the port untouched and erases in the rest |
| Ardour.RemoveFirstAt | libs/ardour/bundle.cc:90-93 | erasing at the index find returns is RemoveFirst: the ports before and after that index, in order |
| Ardour.AddThenRemovePort | libs/ardour/bundle.cc:80-101 | removing a port just appended undoes the append when the port was absent, and otherwise erases the earlier copy |
| Ardour.Bundle.Copy | libs/ardour/bundle.cc:33-40 | the copy has the same channels, name, type and direction, so it compares equal to the original |
| Ardour.Bundle.NChannels | libs/ardour/bundle.cc:42-47 | the number of channels in the table |
| Ardour.Bundle.ChannelPorts | libs/ardour/bundle.cc:49-56 | the ports of channel c, which must exist |
| Ardour.Bundle.AddPortToChannel | libs/ardour/bundle.cc:62-74 | appends a full port name to channel ch only; every other channel and every name stays |
| Ardour.Bundle.RemovePortFromChannel | libs/ardour/bundle.cc:80-101 | erases the first occurrence of the port from channel ch only; nothing changes when it is absent |
| Ardour.Bundle.Equals | libs/ardour/bundle.cc:106-110 | two bundles are equal if and only if their channel tables are equal; name, type and direction play no part |
| Ardour.Bundle.SetPort | libs/ardour/bundle.cc:117-130 | channel ch's ports become exactly [portname]; other channels stay |
| Ardour.Bundle.AddChannel | libs/ardour/bundle.cc:133-142 | appends one channel with the given name and no ports; earlier channels stay |
| Ardour.Bundle.PortAttachedToChannel | libs/ardour/bundle.cc:144-151 | holds if and only if the port is among channel ch's ports |
| Ardour.Bundle.RemoveChannel | libs/ardour/bundle.cc:153-160 | deletes channel ch and keeps the others in order |
| Ardour.Bundle.RemoveChannels | libs/ardour/bundle.cc:162-168 | leaves no channels |
| Ardour.Bundle.UsesPort | libs/ardour/bundle.cc:170-184 | holds if and only if some channel has the port among its ports |
| Ardour.Bundle.OffersPortAlone | libs/ardour/bundle.cc:189-201 | holds if and only if some channel's ports are exactly [p] |
| Ardour.Bundle.ChannelName | libs/ardour/bundle.cc:203-210 | the name of channel ch, which must exist |
| Ardour.Bundle.SetChannelName | libs/ardour/bundle.cc:212-223 | renames channel ch; its ports and every other channel stay |
| Ardour.Bundle.AddChannelsFromBundle | libs/ardour/bundle.cc:229-246 | appends one channel per channel of the other bundle, in order, named "<other name> <channel name>" with that channel's ports in order; the original channels stay |

## Left out

- Everything on `double`:
  - the `Beats(double)` constructor and `operator=(double)`;
  - `operator+(double)` and `operator-(double)`;
  - the tolerance comparisons against `double`;
  - `to_double` and `snap_to`;
  - `operator>>`.
  This is floating point. The `fmod` and `lrint` in round-to-nearest act on integer-valued doubles there, so they are modelled with integer `%`.
- The `operator*` template: it is generic over numeric types, floating point included.
- `numeric_limits<Beats>`: it depends on `int32` overflow.
- `operator<<`: stream output.
- `get_beats` and `get_ticks`: these are the datatype's fields.
- 32-bit overflow of `_beats`, `_ticks` and the `int64_t`/`int32_t` conversions: fields are unbounded integers. Only the unsigned product in `to_ticks(ppqn)` is modelled, because it changes results for ordinary negative values.
- Temporal.RoundToSubdivision: only non-negative totals that stay within `int32` after one step are covered. A negative total goes through `uint32_t` wrap-around in the code. So the step back across a beat and the early `return *this` (beats.h:213-221) are not modelled: a non-negative total never reaches them.
- Temporal.TicksAtRate: for a negative count the contract states only that the result is normalised. The code's truncating division then goes through the mixed-sign normalisation described above.
- Temporal.Div: the quotient is stated only for a non-negative total and a positive factor. Other signs go through `Beats::ticks` on a negative count, which is covered by `FromTicksRoundTrip`. Only signed integer factors are modelled. An unsigned `Number` would make the dividend unsigned. The dividend `_beats * PPQN + _ticks` is computed in `int32_t` at beats.h:345, without the `int64_t` cast that `to_ticks()` has, and its overflow is not modelled.
- Temporal.Add: the total is stated only for normalised operands of the same sign. With mixed signs normalize can change the total (`AddThenSubMixedSignExample`).
- Temporal.Sub: the total is stated only for normalised operands with `a >= b`. Otherwise the difference is negative, and normalize can change it.
- `RoundMode` is declared in `types.h`, which is not part of this model. It is modelled by the five modes and the sign of each.
- The mutex, and the `PortsChanged`, `ConfigurationChanged` and `NameChanged` signals in `bundle.cc`: concurrency and notification.
- `connect` and `disconnect`: they forward port names to the audio engine.
- Ardour.Bundle.AddChannelsFromBundle: a bundle adding its own channels (`other == this`) is not modelled. In the code the loop bound grows with each added channel.
- `bundle.h` is not part of this model. It declares `Channel`, `PortList`, `name()` and the name constructor. The name constructor is modelled only as an empty table. `DataType` is an opaque value that a bundle stores and copies.

## Findings

| source | as written | input that shows it | evidently intended | confidence | as-written member | corrected member |
|---|---|---|---|---|---|---|
| libs/temporal/temporal/beats.h:364 | `_ticks * ppqn / PPQN` multiplies an `int32_t` by a `uint32_t`, so the product and the division are unsigned 32-bit | `Beats(-1, -1).to_ticks(PPQN)`: the wrapped product gives a total of at least -PPQN instead of -PPQN-1 | signed arithmetic, so that `to_ticks(PPQN) == to_ticks()` for every value | high (not executed) | Temporal.ToTicksAtNegativeTicks | Temporal.ToTicksAtSignedNative |
