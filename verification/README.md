# ARINC 429 field packing and parity bit, in Dafny

This project models the bit-level core of a Python ARINC 429 library. An
ARINC 429 data word has 32 bits, numbered 1..32. Bit 32 is the parity bit.

- A **Field** is a run of bits in the word. It is given by the 1-indexed
  position of its least significant bit (`lsb`), its width (`size`) and a
  `name`. Construction checks that the field lies inside bits 1..32. It then
  caches the mask `(2^size - 1) << (lsb - 1)`. `Unpack` reads the field's
  value from a word. `Pack` places a value into the field's bits. Both check
  their ranges first.
- A **ParityBit** has a convention, `"odd"` or `"even"`, and a payload that
  can be changed. `Pack` returns `1 << 31` or `0`, so that the word's count of
  one-bits is odd or even as the convention asks.

Modules:

- `Bits` (bits.dfy) gives Python's `<<`, `>>`, `&` and `|` on unbounded
  integers, and a count of the low one-bits. Each one is defined by
  recursion or arithmetic. Lemmas tie them to their bit-by-bit meaning.
- `A429Exception` (a429_exception.dfy) turns each Python exception into a
  variant of `A429Error`. An operation that can raise returns
  `Result<T> = Ok(value) | Err(error)`.
- `MessageField` (message_field.dfy) models `Field`. The source sets a field's
  attributes once and never changes them. So `Field` is a datatype, built by
  the function `NewField`. `Valid()` is what construction guarantees.
- `A429ParityBit` (a429_parity_bit.dfy) has the pure decision
  `ParityOf(convention, payload)`. It also has a class `ParityBit` whose
  mutable field is `data: Option<int>`, and the factory `NewParityBit`. The
  module implementing `ParityBit` is not part of this model. Its behaviour is
  taken from the assertions of `ARINC429/UnitTests/A429ParityTest.py`.

The source's `pack` (MessageField.py:70-77) compares `abs(value)` with
`2^size - 1` first, and only then checks the sign. `Field.Pack` keeps that
order. So a negative value whose magnitude is too large is reported with the
bound `2^size - 1`, not `0`. The set of accepted values is the same as with
the sign checked first: `pack` succeeds exactly when `0 <= value <= 2^size - 1`.

## Model

| member | source | states |
|---|---|---|
| `MessageField.NewField` | ARINC429/MessageField.py:25-40 | Construction succeeds exactly when `1 <= lsb` and `lsb + size <= 33`. `lsb < 1` fails first, with "LSB cannot be lower than 1". Otherwise `lsb + size > 33` fails with "Field cannot exceed bit 32". A constructed field keeps its lsb, size and name and caches its mask. |
| `MessageField.NewFieldBoundaries` | ARINC429/MessageField.py:31-37 | `lsb=32, size=1` is accepted, with footprint `0x80000000`. `lsb=32, size=2` and `lsb=0` get structure errors. `lsb=1, size=32` covers the whole word. |
| `MessageField.MaskFacts` | ARINC429/MessageField.py:40 | The mask `(2^size - 1) << (lsb - 1)` fits in 32 bits. Its one-bits are exactly bits `lsb .. lsb+size-1`. |
| `MessageField.Field.FootPrint` | ARINC429/MessageField.py:42-46 | The footprint is at most `0xFFFFFFFF`. Its one-bits are exactly the `size` contiguous bits starting at bit `lsb`. |
| `MessageField.Field.Unpack` | ARINC429/MessageField.py:48-60 | A negative word fails with a range error with bound 0. A word above `0xFFFFFFFF` fails with bound `0xFFFFFFFF`. Both errors carry the field name and the word. A word in range gives `(word / 2^(lsb-1)) mod 2^size`, which is below `2^size`. |
| `MessageField.UnpackValue` | ARINC429/MessageField.py:60 | `(w & mask) >> (lsb - 1)` is the arithmetic value `(w / 2^(lsb-1)) mod 2^size`. |
| `MessageField.UnpackBits` | ARINC429/MessageField.py:60 | For a word in range, bit `j` of the unpacked value is word bit `lsb + j` when `j < size`. Every higher bit is clear. |
| `MessageField.Field.Pack` | ARINC429/MessageField.py:62-79 | Pack succeeds exactly when `0 <= value < 2^size`. The reported bound is `2^size - 1` when `abs(value)` exceeds it, and 0 for the other negative values. A result is `value * 2^(lsb-1)`. It has no bits outside the mask and fits in 32 bits. |
| `MessageField.PackFacts` | ARINC429/MessageField.py:79 | An in-range value shifted by `lsb - 1` fits in 32 bits and lies inside the mask. |
| `MessageField.UnpackOfPack` | ARINC429/MessageField.py:48-79 | For every `0 <= v < 2^size`, pack succeeds and unpacking its word gives back `v`. |
| `MessageField.PackOfUnpack` | ARINC429/MessageField.py:48-79 | For every word in range, unpack succeeds and packing its value gives `w & mask`. |
| `MessageField.Field.Equals` | ARINC429/MessageField.py:81-88 | `==` holds exactly when lsb, size and name are all equal. |
| `MessageField.Field.NotEquals` | ARINC429/MessageField.py:90-100 | `!=` holds exactly when lsb, size or name differ. This is the negation of `==`. |
| `MessageField.EqualsIsStructural` | ARINC429/MessageField.py:81-100 | For constructed fields, `==` holds exactly when the fields are identical values, cached mask included, and `!=` holds exactly when they differ. |
| `Bits.BitOfAnd` | ARINC429/MessageField.py:60 | A bit of `a & b` is set exactly when it is set in both `a` and `b`. |
| `Bits.BitOfShr` | ARINC429/MessageField.py:60 | Bit `i` of `x >> k` is bit `i + k` of `x`. |
| `Bits.BitOfShl` | ARINC429/MessageField.py:79 | Bit `i` of `x << k` is bit `i - k` of `x`. The low `k` bits are clear. |
| `Bits.AndShifted` | ARINC429/MessageField.py:40-60 | `a & (y << k) == ((a >> k) & y) << k`. |
| `Bits.AndLowOnes` | ARINC429/MessageField.py:40-60 | `a & (2^s - 1) == a mod 2^s`. |
| `A429ParityBit.ParseConvention` | ARINC429/UnitTests/A429ParityTest.py:13-17 | The only accepted conventions are the strings `"odd"` and `"even"`. Anything else gives a convention error. |
| `A429ParityBit.InvalidConventions` | ARINC429/UnitTests/A429ParityTest.py:13-17 | `"test"`, `""` and the integer `5` are all rejected. |
| `A429ParityBit.NewParityBit` | ARINC429/UnitTests/A429ParityTest.py:13-17 | Construction fails exactly when the convention is rejected. Otherwise it gives a fresh parity bit with that convention and no data. |
| `A429ParityBit.ParityBit.constructor` | ARINC429/UnitTests/A429ParityTest.py:27 | A new parity bit has its convention and no data. |
| `A429ParityBit.ParityBit.SetData` | ARINC429/UnitTests/A429ParityTest.py:75-81 | `setData` replaces the stored payload with the new one. |
| `A429ParityBit.ParityBit.GetData` | ARINC429/UnitTests/A429ParityTest.py:23-28 | `getData` fails with NoData when no payload was set. Otherwise it returns the last payload. |
| `A429ParityBit.ParityBit.Pack` | ARINC429/UnitTests/A429ParityTest.py:30-35 | `pack` fails with NoData when no payload was set. Otherwise it returns `ParityOf(convention, payload)` for the last payload. |
| `A429ParityBit.NoDataScenario` | ARINC429/UnitTests/A429ParityTest.py:19-35 | On a fresh parity bit, both `getData` and `pack` fail with NoData. |
| `A429ParityBit.ParityOf` | ARINC429/UnitTests/A429ParityTest.py:79-81 | The parity bit is always `0` or `1 << 31`. |
| `A429ParityBit.ConventionsComplementary` | ARINC429/UnitTests/A429ParityTest.py:79-81 | For the same payload, `"odd"` and `"even"` choose opposite bits. |
| `A429ParityBit.ParityIsTheOnlyChoice` | ARINC429/UnitTests/A429ParityTest.py:42-81 | Take a 31-bit payload and a candidate bit 32. The word has the convention's parity exactly when the candidate is the bit `pack` returns. |
| `A429ParityBit.WordHasConventionParity` | ARINC429/UnitTests/A429ParityTest.py:66-81 | `payload \| pack()` has an odd number of one-bits under `"odd"` and an even number under `"even"`. |
| `A429ParityBit.HighPayloadBitsIgnored` | ARINC429/UnitTests/A429ParityTest.py:59 | An assumption of this model, since the tests only use payloads of at most 31 bits, such as `0x7FFFFFFF`. Adding any multiple of `2^n` leaves the count of the low `n` bits unchanged. |
| `A429ParityBit.ParityIgnoresHighBits` | ARINC429/UnitTests/A429ParityTest.py:59 | An assumption of this model, for the same reason. The parity bit depends only on payload bits 1..31: adding any multiple of `2^31` to the payload leaves it unchanged. |
| `A429ParityBit.PayloadOnesIgnoresHighBits` | ARINC429/UnitTests/A429ParityTest.py:59 | An assumption of this model, for the same reason. Adding any multiple of `2^31` to the payload leaves its count of one-bits among bits 1..31 unchanged. |
| `A429ParityBit.EmptyMessage` | ARINC429/UnitTests/A429ParityTest.py:42-52 | Payload `0x00`: `"odd"` packs to `1 << 31` and `"even"` packs to `0`. |
| `A429ParityBit.FullMessage` | ARINC429/UnitTests/A429ParityTest.py:54-64 | Payload `0x7FFFFFFF`: `"odd"` packs to `0` and `"even"` packs to `1 << 31`. |
| `A429ParityBit.SampleLabels` | ARINC429/UnitTests/A429ParityTest.py:70-73 | Each of the four sample payloads is labelled with the parity of its own count of one-bits. |
| `A429ParityBit.ReplayFewCases` | ARINC429/UnitTests/A429ParityTest.py:66-81 | One `"odd"` and one `"even"` instance are reused across the samples. Each gets `setData` and then `pack`. `"odd"` gives `1 << 31` exactly for the even-labelled samples, and `"even"` gives it exactly for the odd-labelled ones. |

## Left out

- `Field.serialize` (MessageField.py:102-118) builds an XML element with a foreign library. The name, lsb and size it exports are the datatype's own fields.
- `Field.__repr__` prints the object's identity (`id(self)`). Object identity has no counterpart in a datatype.
- Comparing a `Field` with a value of another type (the `NotImplemented` path) is not modelled. Equality is defined on fields only.
- Negative sizes are excluded by typing `size` as `nat`. The constructor does not check them, and Python would then compute `2**size` as a float.
- The exception module is not part of this model. Errors carry the data the code passes them: a message for structure errors, and name, bound and value for range errors. The convention error and NoData carry nothing.
- The parity bit's implementation module is not part of this model. `ParityOf` counts payload bits 1..31 only. The tests never use a payload with bits above bit 31 set, so ignoring those bits is an assumption. They never use a negative payload either. For one, the model counts two's-complement bits, because `%` and `/` floor; that is an assumption too.
- A429ParityBit.ParseConvention: a Python argument is either a string or an integer (`PyValue`). Other Python types are not modelled.
- The unit-test harness (`assertRaises`, `unittest.main`) is left out. Only the behaviour the tests assert is kept.
- Building a message from several fields, and concurrent use of a mutable `ParityBit`, are left out. Neither is in the modelled files.
