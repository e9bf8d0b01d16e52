# Bytes: byte-level shifts and bitwise operators in Java

`bitHelper.Bytes` (`src/bitHelper/Bytes.java`) is a final class with five
static helpers on Java `byte`s: `shiftRight`, `shiftLeft`,
`unsignedShiftRight`, `and` and `or`. Each one is a single Java expression.
Its `byte` operands are promoted to `int`, one `int` operator is applied,
and the result is cast back to `byte`.

The model follows that chain exactly, as the Java Language Specification
defines it. It does not use an idealised 8-bit version.

- `twos_complement.dfy` (module `TwosComplement`) holds the arithmetic that
  Java's operators are defined by:
  - powers of two;
  - floor division;
  - `Bit(v, i)`, bit i of the infinite two's-complement expansion of an
    integer;
  - `Narrow(v, k)`, the k-bit two's-complement value congruent to v;
  - bitwise AND and OR on unbounded integers.
- `java.dfy` (module `Java`) holds the Java layer:
  - the `byte` and `int` types as ranges of integers;
  - widening (`Promote`), which keeps the value, and bit by bit is sign
    extension;
  - the `(byte)` cast, and the wrap-around of an overflowing `int` result;
  - the `int` operators `>>`, `<<`, `>>>`, `&`, `|`, `~` and `+`.

  The shift operators use the shift distance, which is the count's five
  low bits (`n & 0x1f`, proved to be n mod 32 also for negative n).
  `>>>` is proved to agree with the form JLS 15.19 gives for it. That form
  is `n >> s` for non-negative n, and `(n >> s) + (2 << ~s)` otherwise.
- `bytes.dfy` (module `Bytes`) holds the five helpers and their properties.

Values are mathematical integers: a `byte` is -128 .. 127 and an `int` is
-2^31 .. 2^31 - 1. 32-bit wrap-around and the truncation to 8 bits are
written out through `Narrow`.

The name `unsignedShiftRight` suggests a zero-filling shift of the 8-bit
pattern; the file carries no other statement of intent. That is not what
line 6 computes. The byte is sign-extended to 32 bits before `>>>`, so for
shift distances up to 24 the zero lands above the low 8 bits. The model
follows the code. The zero-filling reading is modelled beside it; see
"## Findings".

## Model

| member | source | states |
|---|---|---|
| Java.PromoteSignExtends | src/bitHelper/Bytes.java:4-8 | promoting a byte to `int` keeps bits 0..6 and copies the sign bit into every higher bit |
| Java.NarrowToByte | src/bitHelper/Bytes.java:4-8 | the `(byte)` cast gives the byte congruent to the `int` modulo 256, and leaves an in-range value unchanged |
| Java.NarrowToByteKeepsLowBits | src/bitHelper/Bytes.java:4-8 | the `(byte)` cast keeps bits 0..7 of the `int`; bit 7 becomes the sign |
| Java.NarrowToInt | src/bitHelper/Bytes.java:5-6 | an overflowing `int` result is the `int` congruent to it modulo 2^32; in-range values are unchanged |
| Java.ShiftDistance | src/bitHelper/Bytes.java:4-6 | the count's five low bits, `n & 0x1f`, equal n mod 32 (also for negative n) and are below 32 |
| Java.IntShr | src/bitHelper/Bytes.java:4 | `v >> n` is the floor of v / 2^s |
| Java.IntShl | src/bitHelper/Bytes.java:5 | `v << n` is congruent to v * 2^s modulo 2^32 |
| Java.IntUshr | src/bitHelper/Bytes.java:6 | `v >>> n` is v for distance 0 and never negative for a positive distance |
| Java.IntUshrMatchesJls | src/bitHelper/Bytes.java:6 | `v >>> n` equals `v >> n` for v >= 0, and `(v >> n) + (2 << ~n)` with `int` wrap-around for v < 0 |
| Bytes.ZeroShiftIsIdentity | src/bitHelper/Bytes.java:4-6 | a count of 0 leaves the byte unchanged for all three shifts |
| Bytes.ShiftsDependOnCountModulo32 | src/bitHelper/Bytes.java:4-6 | counts that are congruent modulo 32, negative ones included, give the same result for all three shifts |
| Bytes.ShiftsUseLowFiveBits | src/bitHelper/Bytes.java:4-6 | masking the count with `and(n, 31)` first changes none of the three shifts |
| Bytes.ShiftRightIsFloorDivision | src/bitHelper/Bytes.java:4 | `shiftRight(x, n)` is x / 2^(n mod 32) rounded down; it is negative exactly when x is |
| Bytes.ShiftRightSaturates | src/bitHelper/Bytes.java:4 | for a distance of 7..31, `shiftRight` gives -1 for a negative byte and 0 otherwise |
| Bytes.ShiftRightBits | src/bitHelper/Bytes.java:4 | bit i of `shiftRight(x, n)` is bit i + s of x, or the sign bit once i + s reaches 7 (sign extension) |
| Bytes.ShiftRightExample | src/bitHelper/Bytes.java:4 | `shiftRight(-128, 1) == -64` |
| Bytes.ShiftLeftIsNarrowedProduct | src/bitHelper/Bytes.java:5 | `shiftLeft(x, n)` is x * 2^(n mod 32) reduced to 8 bits; the `int` overflow in between does not change the result |
| Bytes.ShiftLeftBits | src/bitHelper/Bytes.java:5 | bit i of `shiftLeft(x, n)` is bit i - s of x, and 0 below s |
| Bytes.ShiftLeftClears | src/bitHelper/Bytes.java:5 | for a distance of 8..31, `shiftLeft` gives 0 |
| Bytes.ShiftLeftExample | src/bitHelper/Bytes.java:5 | `shiftLeft(1, 1) == 2` |
| Bytes.UnsignedShiftRightValue | src/bitHelper/Bytes.java:6 | `unsignedShiftRight(x, n)` is the unsigned 32-bit pattern of the sign-extended x, divided by 2^s, reduced to 8 bits |
| Bytes.UnsignedShiftRightMatchesShiftRight | src/bitHelper/Bytes.java:4-6 | for a distance of at most 24, `unsignedShiftRight(x, n) == shiftRight(x, n)` for every byte x |
| Bytes.UnsignedShiftRightZeroFillsLate | src/bitHelper/Bytes.java:6 | for a distance of 25..31 the result is 2^(32 - s) - 1 for a negative byte and 0 otherwise, so it is never negative |
| Bytes.UnsignedShiftRightBits | src/bitHelper/Bytes.java:6 | bit i of the result is bit i + s of the sign-extended x while i + s < 32, and 0 from there on |
| Bytes.UnsignedShiftRightShiftsInOnes | src/bitHelper/Bytes.java:6 | `unsignedShiftRight(-128, 1) == -64` |
| Bytes.UnsignedShiftRightZeroFillExamples | src/bitHelper/Bytes.java:6 | `unsignedShiftRight(-1, 25) == 127` and `unsignedShiftRight(-1, 31) == 1` |
| Bytes.AndIsBitAnd | src/bitHelper/Bytes.java:7 | `and(x, y)` is the bitwise AND of the two values; neither the promotion nor the cast changes it |
| Bytes.OrIsBitOr | src/bitHelper/Bytes.java:8 | `or(x, y)` is the bitwise OR of the two values |
| Bytes.AndIsBitwise | src/bitHelper/Bytes.java:7 | a byte z equals `and(x, y)` if and only if each of its 8 bits is the AND of the corresponding bits of x and y |
| Bytes.OrIsBitwise | src/bitHelper/Bytes.java:8 | a byte z equals `or(x, y)` if and only if each of its 8 bits is the OR of the corresponding bits of x and y |
| Bytes.AndLaws | src/bitHelper/Bytes.java:7 | `and` is commutative and idempotent; 0 absorbs and -1 is neutral |
| Bytes.OrLaws | src/bitHelper/Bytes.java:8 | `or` is commutative and idempotent; 0 is neutral and -1 absorbs |
| Bytes.AndOrExamples | src/bitHelper/Bytes.java:7-8 | `and(0b11001100, 0b10101010) == 0b10001000` and `or(0b11001100, 0b00110011) == -1` (patterns read as signed bytes) |
| Bytes.UnsignedShiftRightOfPatternValue | src/bitHelper/Bytes.java:6 | the zero-filling reading is the pattern of x, read as 0..255, divided by 2^s |
| Bytes.UnsignedShiftRightOfPatternBits | src/bitHelper/Bytes.java:6 | in the zero-filling reading, bit i of the result is bit i + s of x while inside the byte, and 0 above |
| Bytes.UnsignedShiftRightOfPatternIsNonNegative | src/bitHelper/Bytes.java:6 | in the zero-filling reading, any positive distance clears the sign bit |
| Bytes.UnsignedShiftRightOfPatternAgreesOnNonNegative | src/bitHelper/Bytes.java:6 | for a non-negative byte, the zero-filling reading and the code agree |
| Bytes.UnsignedShiftRightSignFills | src/bitHelper/Bytes.java:6 | at x = -128, n = 1 the code gives -64 and the zero-filling reading gives 64 |

## Left out

- The package and class declarations (lines 1-3) carry no behaviour. Access modifiers and `final` are not modelled.
- The inner `(byte)x` casts and the `(byte)n` casts on `byte` operands are identities. The model applies the outer cast and the promotions only.
- The five helpers are modelled as functions whose bodies are the Java expressions. Their properties are stated as the lemmas above, not as `ensures` clauses on the helpers themselves.
- Java's `int` overflow for `<<` and `>>>` is modelled. A `long` left operand never occurs here, so the 6-bit shift distance for `long` is not modelled.
- There is no I/O, state or concurrency in the source, so nothing of that kind is left out.

## Findings

| source | as written | input that shows it | evidently intended | confidence | as-written member | corrected member |
|---|---|---|---|---|---|---|
| src/bitHelper/Bytes.java:6 | `(byte)((byte)x >>> n)` sign-extends x to 32 bits before the zero-filling shift. For distances up to 24 the zero lands above bit 7, so the result equals `shiftRight`. | x = -128, n = 1 gives -64 | as the name `unsignedShiftRight` suggests, a logical shift of the 8-bit pattern, `(byte)((x & 0xFF) >>> n)`, giving 64 | medium; not executed | Bytes.UnsignedShiftRightSignFills | Bytes.UnsignedShiftRightOfPatternBits |
