# snowflakeid in Dafny

This project models `Snowflake.js` of snowflakeid, a JavaScript generator of
64-bit "snowflake" ids. An id packs three fields:

- a 42-bit timestamp, in milliseconds since the custom epoch 1627833600000, which is 2021-08-01 16:00:00 UTC;
- a 10-bit machine id;
- a 12-bit per-millisecond sequence number.

The model has five modules:

- `Wrappers` holds `Option` and `Result`. `None` stands for JavaScript's `NaN` and `Failure` for a thrown `Error`.
- `BinaryText` models the JavaScript conversions the code is built from:
  - `Number.prototype.toString(2)` as `ToBinary`;
  - `padStart` as `PadStart`;
  - `BigInt('0b' + s)` as `BinaryValue`;
  - `BigInt.prototype.toString()` as `ToDecimal`;
  - `parseInt(s, 2)` on decimal text as `ParseIntBinary`.
- `Layout` holds the constants and `Pack`. `Pack` builds an id the way `generate` does, through padded binary text. It is proved equal to `timestamp * 2^22 + machineId * 2^12 + sequence`, and to order and separate ids like their fields.
- `Flake` models the `Snowflake` value and its three extractors as they are written. `Snowflake` does not override `toString`, and `String.prototype.toString` ignores its argument, so `this.toString(2)` is the decimal text. The module also defines the extractors as evidently intended, which read the binary text of the value.
- `Generator` models the `SnowflakeGenerator` class:
  - `Create` is the constructor with its validation;
  - `Generate` is `generate()`, proved against the pure transition `Advance`;
  - the lemmas are about runs of calls: ids increase, and their texts are distinct while the sequence does not wrap within a millisecond. The as-written wrap case is also stated.

`Date.now()` is the parameter `now` of `Generate`. The value of
`Math.floor(Math.random() * MAX_MACHINE_ID)` is the parameter `draw` of
`Create`.

## Model

| member | source | states |
|---|---|---|
| Layout.WidthsAgree | Snowflake.js:6-11 | MAX_SEQUENCE is 2^12 - 1 and MAX_MACHINE_ID is 2^10 - 1; the widths 42, 10 and 12 sum to 64 |
| BinaryText.ToBinary | Snowflake.js:68-70 | `toString(2)` of a non-negative integer yields binary digits only, at least one; "0" for zero; a leading '1' otherwise |
| BinaryText.ToBinaryValue | Snowflake.js:68-74 | reading back the binary text of `n` gives `n` |
| BinaryText.ToBinaryLength | Snowflake.js:68-70 | a number below 2^k has at most k binary digits, so padding to the field width adds zeros only |
| BinaryText.PadStart | Snowflake.js:68-70 | `padStart` yields the maximum of the target length and the input length, keeps the input as its suffix, and fills the prefix with the fill character; it never truncates |
| BinaryText.PadZerosValue | Snowflake.js:68-74 | zero-padding binary text keeps it binary and keeps its value |
| BinaryText.BinaryValue | Snowflake.js:74 | the value of k binary digits is below 2^k |
| BinaryText.BinaryValueAppend | Snowflake.js:72-74 | the value of a concatenation is the left value shifted by the width of the right part, plus the right value |
| BinaryText.ParseIntBinary | Snowflake.js:104 | `parseInt(s, 2)` on decimal digits is a number exactly when the first character is '0' or '1'; it is below 2^\|s\|; it is the value of the longest leading run of '0'/'1' digits, so on all-binary text it is the binary value of the whole text |
| BinaryText.ToDecimal | Snowflake.js:90 | `BigInt.toString()` yields decimal digits only, at least one: "0" for zero and no leading '0' for a value of 1 or more |
| BinaryText.ToDecimalLength | Snowflake.js:90 | a number below 10^k has a text of at most k digits |
| BinaryText.ToDecimalValue | Snowflake.js:90 | reading back the decimal text of `n` gives `n` |
| BinaryText.ToDecimalInjective | Snowflake.js:90 | distinct BigInts have distinct decimal texts |
| Layout.Pack | Snowflake.js:68-74 | the id `generate` packs: the three fields' binary texts, padded to 42, 10 and 12 digits, concatenated and read as one binary number; with the timestamp below 2^42 and the other fields in range the id is below 2^64; its value is stated by Layout.PackValue |
| Layout.PackValue | Snowflake.js:68-74 | with machine id ≤ 1023 and sequence ≤ 4095, the packed id is timestamp·2^22 + machineId·2^12 + sequence, for any timestamp |
| Layout.ComposeOrder | Snowflake.js:68-74 | the composed value orders lexicographically by (timestamp, machine id, sequence), and equal values have equal fields |
| Layout.PackOrder | Snowflake.js:68-74 | packed ids order lexicographically by their fields, in both directions |
| Layout.PackInjective | Snowflake.js:68-74 | two packed ids are equal exactly when all three fields are |
| Flake.FromBigInt | Snowflake.js:89-90 | `new Snowflake(flake)` holds decimal text whose value is `flake` |
| Flake.ToString | tests/Snowflake.test.js:28 | the inherited `toString()` returns the wrapped text, so building a Snowflake from it gives the same Snowflake |
| Flake.Bits | Snowflake.js:102 | the extractors' padded text: decimal digits, 64 long or the text's own length, '0' in front, and the text itself at the end |
| Flake.ExtractTimestamp | Snowflake.js:101-106 | any number it decodes lies in [EPOCH, EPOCH + 2^42); texts under 64 digits always decode; texts of at most 22 digits decode to EPOCH |
| Flake.ExtractMachineId | Snowflake.js:113-117 | any number it decodes is at most 1023; texts under 22 digits always decode; texts of at most 12 digits decode to 0 |
| Flake.ExtractTimeOffset | Snowflake.js:124-129 | any number it decodes is at most 4095; texts under 12 digits always decode |
| Flake.ReparseKeepsFields | tests/Snowflake.test.js:27-31 | rebuilding a Snowflake from its `toString()` decodes to the same three fields |
| Flake.IdDecodesToEpoch | Snowflake.js:101-106 | every id below 2^64 has at most 20 digits, so its decoded timestamp is EPOCH itself |
| Flake.PresentDayIdNotRecovered | Snowflake.js:101-129 | the id of timestamp 160000000000, machine id 420 and sequence 0 is 671088640001720320; it decodes to timestamp EPOCH, machine id 0 and no time offset (NaN) |
| Flake.MachineIdNotRecovered | Snowflake.js:101-129 | the id packed from (0, 420, 0) is 1720320, and its text "1720320" decodes to machine id 0 and time offset 1 |
| Flake.IntendedBits | Snowflake.js:102 | the intended padded text is binary and at least 64 digits long |
| Flake.IntendedExtractTimestamp | Snowflake.js:101-106 | read in binary, the timestamp is always a number in [EPOCH, EPOCH + 2^42) |
| Flake.IntendedExtractMachineId | Snowflake.js:113-117 | read in binary, the machine id is always a number of at most 1023 |
| Flake.IntendedExtractTimeOffset | Snowflake.js:124-129 | read in binary, the time offset is always a number of at most 4095 |
| Flake.IntendedDecode | Snowflake.js:101-129 | read in binary, any value composed of in-range fields decodes to those fields |
| Flake.IntendedRoundTrip | Snowflake.js:68-76 | with the binary reading, every id whose timestamp fits 42 bits decodes back to the timestamp plus EPOCH, the machine id and the sequence |
| Generator.ResolveMachineId | Snowflake.js:27 | `config.machineId \|\| draw`: an absent or zero machine id becomes the draw, in [0, 1022]; any other is kept |
| Generator.ResolveTimeOffset | Snowflake.js:34 | `config.timeOffset \|\| 0`: an absent or zero offset becomes 0, any other number is kept |
| Generator.Timestamp | Snowflake.js:49 | the timestamp is negative exactly when the clock plus the offset is before EPOCH |
| Generator.ForwardClockIssuesAll | Snowflake.js:49-53 | with a clock that never goes back, starting no earlier than the last timestamp, every call of a run succeeds |
| Generator.SnowflakeGenerator.Create | Snowflake.js:21-39 | fails exactly for a machine id outside [0, 1023] or a time offset that is not a number, with the matching error; a new generator starts at sequence 0 and last timestamp 0 |
| Generator.SnowflakeGenerator.constructor | Snowflake.js:21-39 | sets up a generator whose machine id passed validation: sequence 0, last timestamp 0, and the machine id and time offset as constant fields that no later call can change |
| Generator.NextSequence | Snowflake.js:56 | the next sequence is at most 4095, is 0 exactly after 4095, and is otherwise one more |
| Generator.Advance | Snowflake.js:47-66 | a call fails with ClockMovedBackwards exactly when the timestamp is behind the last one; otherwise the timestamp becomes the last one, and the sequence steps on modulo 4096 in the same millisecond and restarts at 0 in a later one |
| Generator.SnowflakeGenerator.Generate | Snowflake.js:47-76 | a failed call changes nothing; a successful one moves to the state `Advance` gives and returns the Snowflake of the packed (timestamp, machine id, sequence); only the sequence and last timestamp change |
| Generator.IdOrder | Snowflake.js:47-76 | ids of one machine compare like the (timestamp, sequence) they were issued at |
| Generator.Issued | Snowflake.js:47-66 | successive calls issue at most one state per clock reading, each with a sequence within 12 bits |
| Generator.IssuedIncreasing | Snowflake.js:47-66 | without a wrap inside a millisecond, each issuing state comes after the start and after every earlier issuing state |
| Generator.RunIncreasing | Snowflake.js:47-76 | without a wrap inside a millisecond, the ids of successive successful calls strictly increase, each above the id of the start |
| Generator.RunDistinctTexts | tests/SnowflakeGenerator.test.js:17-30 | without a wrap inside a millisecond, the ids of a run have pairwise distinct texts |
| Generator.SameMillisecondIssued | Snowflake.js:54-60 | k calls that all read the last timestamp keep the timestamp and step the sequence on modulo 4096 |
| Generator.SequenceWrapRepeatsId | Snowflake.js:56-66 | as written, 4097 calls within one new millisecond all succeed, and the 4097th returns the same id as the first |
| Generator.IntendedAdvance | Snowflake.js:56-66 | the intended transition: the same as Advance except on a wrap at an unchanged timestamp, which continues at sequence 0 and the later reading that ended the wait |
| Generator.IntendedStepIncreases | Snowflake.js:56-60 | when the sequence wrap resumes at the later clock reading, every successful call issues an id above the previous one |

## Left out

- `Date.now()` and `Math.random()` are not modelled. They become the parameters `now` of `Generate` and `draw` of `Create`.
- The busy-wait after a sequence wrap is not modelled as a loop. Its reading is discarded, so it has no effect on the state or the result. Waiting itself (time passing) is outside the model.
- `getGenerator` is not modelled. It calls the unqualified `extractMachineId()`, which is not in scope, so it can only throw a ReferenceError.
- JavaScript coercions in the configuration are not modelled: strings, fractional numbers, `undefined` versus `null`. The time offset is an integer or not a number. A `NaN` offset is falsy and becomes 0, so it is the same as `Unset`.
- Generator.SnowflakeGenerator.constructor: the machine id is a `nat`. The range check for negative ids is in `Create`, which returns the error the source throws.
- The `Snowflake` class's `String` subclass machinery is left out, as are the fields the constructor caches. The constructor stores the three extractor results; the model computes them from the text with the same functions.
- The `Date` object that `extractTimestamp` returns is the millisecond count it is built from.
- The default export is left out.
- The comment on EPOCH at Snowflake.js:6 calls it 2021-08-01 00:00:00 UTC. The constant 1627833600000 is 16:00:00 UTC that day, and the model uses the constant.
- Flake.ExtractTimeOffset returns None (NaN) when the slice does not start with '0' or '1', as the code at Snowflake.js:127-128 does. The comment on line 128 says such an offset becomes 0, but no code does that; the model follows the code.
- `parseInt`'s handling of leading blanks and signs is not modelled. The texts it reads here are always decimal digits.
- Generator.NextSequence: the bitwise AND with 4095 is written as the remainder modulo 4096. The two agree for the non-negative values below 2^31 that the sequence takes.
- Timestamps beyond 2^53 are not modelled. Neither is the loss of precision of JavaScript numbers there; the model's integers are unbounded.
- Concurrent calls on one generator are not modelled. JavaScript runs them one at a time anyway.

## Findings

| source | as written | input that shows it | evidently intended | confidence | as-written member | corrected member |
|---|---|---|---|---|---|---|
| Snowflake.js:101-129 | `this.toString(2)` on a `String` subclass returns the decimal text, so the extractors pad and slice decimal digits and parse them in base 2 | the id of timestamp 0, machine id 420, sequence 0 is 1720320; its text decodes to machine id 0 and time offset 1 (Flake.MachineIdNotRecovered). The present-day id 671088640001720320 of machine 420 decodes to machine id 0 and no offset (Flake.PresentDayIdNotRecovered), and every id below 2^64 decodes to timestamp EPOCH (Flake.IdDecodesToEpoch) | read the binary text of the id's value, which recovers all three fields | not executed | Flake.MachineIdNotRecovered | Flake.IntendedRoundTrip |
| Snowflake.js:56-66 | after the sequence wraps, the busy-wait discards its clock reading and `lastTimestamp` keeps the old timestamp, so the wrapped id has sequence 0 in the same millisecond | 4097 calls whose clock reads the same new millisecond: the 4097th id equals the first | continue with the clock reading that ended the wait, so each id is above the previous one | not executed | Generator.SequenceWrapRepeatsId | Generator.IntendedStepIncreases |
