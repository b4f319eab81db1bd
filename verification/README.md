# Debezium change-event consumer: decimal decoding and event interpretation

The consumer reads change events for a `products` table from Kafka. The
events come from a Debezium PostgreSQL connector. For each event it prints
the raw message and, for a known operation, a summary line. This project
models the two parts of that program that compute something, both in
`main.go`:

- `decodeDecimal` turns a Debezium `DECIMAL`/`NUMERIC` value into a number.
  The value is a base 64 string of big-endian bytes holding the unscaled
  integer, plus a scale.
  - The string is decoded with Go's `base64.StdEncoding`. A decoding error
    gives 0.
  - The bytes are read as an unsigned integer (`big.Int.SetBytes`).
  - The integer is divided by 10 to the power of the scale.
- The body of the consume loop, after `json.Unmarshal`. It reads
  `payload.op` and then one of two row images:
  - for ops `c`, `u` and `r`, it reads `after.id`, `after.name`,
    `after.price.value` and `after.price.scale`;
  - for op `d`, it reads `before.id`.

  It prints a Created, Updated, Read or Deleted line. Any other op prints
  no event line; the raw message and the separator line are printed for
  every op.

Modules:

- `Bytes` (`bytes.dfy`): the byte type shared by the decoder and `SetBytes`.
- `Base64` (`base64.dfy`): Go's non-strict standard decoder, with a
  canonical encoder that the decoder is proved inverse to, in both directions.
- `BigEndian` (`big_endian.dfy`): `big.Int.SetBytes` as the function
  `Unsigned` and a byte-by-byte method `SetBytes`. `big.Int.Bytes` is
  `MinimalBytes`.
- `Decimal` (`decimal.dfy`): `decodeDecimal`, computed as an exact real.
- `Json` (`json.dfy`): decoded JSON values, Go map lookup, type assertions,
  and `int(float64)` truncation.
- `ChangeEvents` (`events.dfy`): the loop body as the pure function
  `Interpret`. A panic is an `Err` that names the field whose type assertion
  failed. Its lemmas compare it with a direct statement of which messages
  the consumer accepts.
- `Wrappers` (`wrappers.dfy`): `Option` and `Result`.

Behaviour of the code that the model keeps as it is:

- Debezium writes the unscaled value in two's complement. `SetBytes` reads
  the bytes as unsigned, so a negative price decodes as a large positive
  number. The model reads them as unsigned too.
- A missing, null or wrong-typed field makes the consumer panic; the message
  is not skipped.
- An operation code other than `c`, `u`, `r` and `d` is ignored without an
  error.

## Model

| member | source | states |
|---|---|---|
| Base64.Decode | main.go:19-22 | A successful `DecodeString` read only alphabet characters and padding, line breaks aside |
| Base64.DecodeEncode | main.go:19 | Decoding the padded standard encoding of any bytes gives the bytes back |
| Base64.EncodeDecode | main.go:19 | A string without line breaks that decodes, and whose unused trailing bits are zero, is the encoding of what it decodes to |
| Base64.DecodeSkipsNewline | main.go:19 | A carriage return or line feed anywhere in the input does not change the decode result |
| Base64.DecodeIgnoresTrailingBits | main.go:19 | After any valid prefix, a final `xy==` quantum decodes the same with the low four bits of `y` cleared; after full quanta of digits it adds the one byte made of `x` and the top two bits of `y`; the strict zero-bits condition fails exactly when those low bits are set |
| Base64.DecodeIgnoresTrailingBitsTwo | main.go:19 | After any valid prefix, a final `xyz=` quantum decodes the same with the low two bits of `z` cleared; after full quanta of digits it adds its two bytes; the strict zero-bits condition fails exactly when those low bits are set |
| Base64.EncodeExample | main.go:19 | The bytes 0x04 0x1A encode as "BBo=" |
| BigEndian.Unsigned | main.go:25 | The unsigned value of k bytes is below 256 to the power k |
| BigEndian.SetBytes | main.go:25 | The byte-by-byte read computes the unsigned big-endian value of the bytes |
| BigEndian.UnsignedAppend | main.go:25 | One more byte multiplies the value so far by 256 and adds the byte |
| BigEndian.UnsignedPrepend | main.go:25 | The first byte weighs 256 to the power of the number of bytes after it |
| BigEndian.UnsignedLowerBound | main.go:25 | The value of bytes with a non-zero first byte is at least that byte's weight, so it is positive |
| BigEndian.UnsignedLeadingZeros | main.go:25 | Leading zero bytes do not change the value |
| BigEndian.MinimalBytes | main.go:25 | The minimal bytes of n are empty exactly for 0 and otherwise start with a non-zero byte |
| BigEndian.UnsignedMinimalBytes | main.go:25 | Reading the minimal bytes of n gives n |
| BigEndian.MinimalBytesUnsigned | main.go:25 | Bytes without a leading zero are the minimal bytes of their value, so that encoding is unique |
| BigEndian.SplitLeadingZeros | main.go:25 | Any bytes are zero bytes followed by the minimal bytes of their value |
| Decimal.Divisor | main.go:31 | 10 to the power of the scale is positive, for negative scales too |
| Decimal.DivisorStep | main.go:31 | Raising the scale by one multiplies the divisor by ten |
| Decimal.Scaled | main.go:28-34 | The result is non-negative, and multiplied by 10 to the power `scale` it gives the unscaled integer |
| Decimal.ScaledUnique | main.go:34 | Any number that times the divisor gives the unscaled integer is the quotient |
| Decimal.ScaledZero | main.go:31-34 | Scale 0 leaves the integer unchanged |
| Decimal.ScaledStep | main.go:31-34 | One more decimal place divides by ten |
| Decimal.DecodeDecimal | main.go:17-39 | The result is never negative. It is 0 when the string is not valid base 64, and otherwise the unscaled integer taken down by `scale` places |
| Decimal.DecodeDecimalScaleZero | main.go:17-39 | With scale 0 the result is the unscaled integer the bytes carry |
| Decimal.DecodeDecimalScaleStep | main.go:17-39 | Raising the scale by one divides the result by ten; an invalid string stays at 0 |
| Decimal.DecodeDecimalRoundTrip | main.go:17-39 | Decoding the encoded minimal bytes of n with scale s gives n taken down by s places |
| Decimal.DecodeDecimalLeadingZeros | main.go:17-39 | Leading zero bytes in the encoded value do not change the result |
| Decimal.DecodeDecimalExample | main.go:17-39 | "BBo=" with scale 2 decodes to 10.5 |
| Decimal.DecodeDecimalSteps | main.go:17-39 | An invalid string gives 0. Otherwise `n` is the unsigned value of the decoded bytes, and `r` times 10 to the power `scale` is `n`; for a negative scale, `r` is `n` times 10 to the power of its magnitude |
| Decimal.TakeDown | main.go:28-34 | The quotient times 10 to the power of a non-negative scale is the integer; for a negative scale it is the integer times 10 to the power of the magnitude |
| Json.ObjectAt | main.go:93 | The object assertion succeeds exactly when the key is present and holds an object; otherwise it panics naming the key |
| Json.StringAt | main.go:94 | The string assertion succeeds exactly when the key is present and holds a string; otherwise it panics naming the key |
| Json.NumberAt | main.go:98 | The float64 assertion succeeds exactly when the key is present and holds a number; otherwise it panics naming the key |
| Json.Trunc | main.go:98 | The result is the integer next to `x` on the side of zero (the `int()` conversions at lines 98, 102 and 114): at most `x` and within 1 of it for `x >= 0`, at least `x` and within 1 of it for `x < 0` |
| Json.TruncNegate | main.go:98 | Truncation is symmetric about zero |
| Json.TruncWhole | main.go:102 | A whole number is kept unchanged |
| ChangeEvents.Interpret | main.go:93-116 | Only a message with an object `payload` holding a string `op` gets through; a panic names one of the fields the loop body reads. The cases are stated by InterpretNoOp, InterpretUpsert, InterpretDelete and InterpretOtherOp |
| ChangeEvents.Upsert | main.go:105-111 | An upsert's line kind matches the op, and it carries the given id, name and price |
| ChangeEvents.InterpretNoOp | main.go:93-94 | No object `payload` panics on `payload`; no string `op` panics on `op` |
| ChangeEvents.InterpretUpsert | main.go:96-111 | For `c`, `u` and `r`, a line is printed exactly when `after` has a numeric id, a string name and a price object with a string value and a numeric scale. The line's kind follows the op and its fields are the row's, with the decoded price. A panic names one of those fields |
| ChangeEvents.InterpretDelete | main.go:112-115 | For `d`, a line is printed exactly when `before` has a numeric id, and it carries that id truncated; a panic names `before` or `id` |
| ChangeEvents.InterpretOtherOp | main.go:96-116 | Any other op prints no event line and does not panic |
| ChangeEvents.InterpretKeepsOp | main.go:96-115 | A printed line's kind is the message's op; Read is not dropped |
| ChangeEvents.DeleteIgnoresAfter | main.go:112-115 | A delete's result does not depend on `after` |
| ChangeEvents.UpsertIgnoresBefore | main.go:96-111 | An upsert's result does not depend on `before` |
| ChangeEvents.InterpretReadsOnlyPayload | main.go:93 | Members of the envelope other than `payload` do not matter |
| ChangeEvents.InterpretNull | main.go:86-93 | A message whose JSON is `null` leaves `root` empty and panics on `payload` |
| ChangeEvents.InterpretCreateExample | main.go:96-106 | A create for product 1 "Widget" with price "BBo=" and scale 2 prints Created 1, Widget, 10.5 |
| ChangeEvents.InterpretDeleteExample | main.go:112-115 | A delete with a null `after` prints Deleted with the id from `before` |

## Left out

- The Kafka consumer is not modelled: its configuration, subscription, the
  100 ms polling loop, and read errors that are skipped. This is I/O.
- Signal handling and the `run` flag are not modelled: they are concurrency
  and I/O.
- Printing is not modelled. `Interpret` returns the event a line would show.
  The `%.2f` formatting of the price is left out too.
- Messages with a nil value are left out. So is `json.Unmarshal`: `Interpret`
  starts from the decoded `root` map, and invalid JSON, which the consumer
  skips, is not modelled.
- Decimal.DecodeDecimal: the result is an exact real. The float64 rounding
  of `math.Pow`, `big.Float` and `Float64()` is not modelled. Neither are
  the overflow to infinity and the underflow to zero for extreme scales.
  In particular, a zero unscaled value with a scale of about -324 or below
  makes `math.Pow` give 0, and `Quo` then panics on 0/0; the model returns
  0 there, so `Interpret` reports a line for such a message.
- Json.Trunc: JSON numbers are exact reals, not float64, so every JSON
  number is taken to be exact. A float64 outside the range of `int` has an
  implementation-defined conversion in Go; `Trunc` truncates it as if `int`
  were unbounded.
- Base64.Decode: the error value and the position Go reports are not
  modelled; any error is `None`, and that is all `decodeDecimal` looks at.
- Panics are results. `Err(Panic(key))` stands for the consumer crashing;
  the process ending is not modelled.
