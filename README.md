# Verified model of a hand-written `atoi` and `strlen`

This project models two small C string primitives, each with its self-test table:

- `strlen` (resources/strlen.c) walks a NUL-terminated byte buffer and returns
  the index of the first NUL.
- `atoi_single` (resources/atoi.c) classifies one character with a bit mask.
- `atoi` (resources/atoi.c) scans a NUL-terminated string from left to right.
  It weights each character by `10^(len-i-1)`, skips `'0'`s and leading
  spaces, and on any other zero-valued character divides the accumulator back
  down by `10^(len-i)` and stops.

Modules:

- `StringLength` (strlen.dfy): C strings as `seq<bv8>` and `array<bv8>`.
  - `Length` is the declarative length (the index of the first NUL).
  - `Strlen` is the loop, proved to compute `Length`.
  - `Literal` gives the buffer a C string literal denotes.
- `StringToInt` (atoi.dfy):
  - `AtoiSingle` is the mask classifier, written over the promoted bits.
  - `Atoi` is the scanning loop, proved against `Converted`, which states
    declaratively what the scan returns.
  - `StopIndex` is where the scan ends.
  - `Value` is the base-10 fold of the per-byte `AtoiSingle` values.
  - `Converted` is `Value` of the bytes before `StopIndex`.
  - The loop invariant is that `ret` is always `10^(len-i)` times the value of
    the bytes consumed so far. That makes the rescale before `break` an exact
    division.
- `StringToIntProperties` (atoi_properties.dfy): what `atoi` promises, for
  all inputs.
  - Digit strings give their decimal value.
  - Leading `'0'`s and spaces are absorbed.
  - A digit run followed by a stopping character yields the run's value.
  - Two garbage bytes at the start yield 0 whatever the byte before the
    string. One does when that byte is not NUL.
  - No intermediate `ret` exceeds the value of all the bytes before the NUL.
    That is a bound, not the result: on "10 hello" `ret` reaches `10^7` and
    the result is 10.
  - A string of spaces, the empty string included, yields 0.
- `StringLengthVectors` and `StringToIntVectors`: the two self-test tables as
  lemmas. Every `atoi` vector is proved for every value of the byte before the
  string.

Two behaviours of the code are worth knowing:

- **Classifier.** The mask test `(c | 0xCF) == 0xFF` accepts ':'..'?'
  (values 10-15) and 'p'..0x7F (values 64-79) as well as '0'..'9'.
  `AtoiSingle` states exactly this.
- **Byte before the string.** At `i == 0` the code reads the byte before the
  string (`s[i-1]`). `Prev` and `Stops` take that byte as the parameter
  `before`. `BeforeMattersOnlyIfNul` shows that only a NUL there changes the
  result, and every vector holds for every value of it.

## Model

| member | source | states |
|---|---|---|
| StringLength.Length | resources/strlen.c:1-10 | the length of a C string is an index inside the buffer holding a NUL, and every byte before it is non-NUL |
| StringLength.Strlen | resources/strlen.c:1-10 | the loop returns the index of the first NUL, strictly less than the buffer length, equal to `Length`; with no `modifies` clause the buffer is left unchanged (`const char *`) |
| StringLength.LengthUnique | resources/strlen.c:4-9 | any index holding a NUL with no NUL before it is the length |
| StringLength.LengthIgnoresTail | resources/strlen.c:4-9 | bytes after the first NUL never change the length |
| StringLength.LengthOfText | resources/strlen.c:13-14 | a NUL-free text followed by a NUL and anything else has the text's length |
| StringLengthVectors.HelloWorld | resources/strlen.c:13-14 | "hello world" has length 11 |
| StringLengthVectors.HelloWorldNewline | resources/strlen.c:13-14 | "hello world\n" has length 12: a control character counts |
| StringLengthVectors.EmptyStrings | resources/strlen.c:13-14 | "" and "\0" have length 0 |
| StringLengthVectors.LeadingNul | resources/strlen.c:13-14 | "\0helloworld" has length 0: bytes after the NUL are ignored |
| StringLengthVectors.TrailingNul | resources/strlen.c:13-14 | "hello world\0" has length 11 |
| StringLengthVectors.OneCharacter | resources/strlen.c:13-14 | "1" has length 1 |
| StringLengthVectors.CopiedBuffer | resources/strlen.c:29-33 | the 12-byte buffer holding "hello world" and its NUL has length 11, one less than its size |
| StringToInt.Promote | resources/atoi.c:1-3 | the integer promotion of a signed `char`: the low byte is kept, bytes below 0x80 stay below 0x80, and bytes from 0x80 sign-extend to 0xFFFFFF80 and above |
| StringToInt.AtoiSingle | resources/atoi.c:1-9 | the result is `c - 0x30` when both bits 0x30 are set in a non-negative `char`, else 0; it is the digit value on '0'..'9'; it is nonzero exactly on '1'..'?' and 'p'..0x7F |
| StringToInt.Pow10 | resources/atoi.c:48-52 | the exact integer that stands for `pow(10, k)`: at least 1, and a multiple of 10 when `k > 0` |
| StringToInt.Value | resources/atoi.c:52-53 | the base-10 fold of the consumed bytes' classifications, one decimal place per byte: no bytes give 0, one byte gives its classification (`ValueAppend` and `ValueBound` state the place-value law and the bound) |
| StringToInt.Zeros | resources/atoi.c:22-31 | the number of '0' bytes consumed, which the loop keeps in `zeros`: at most the number of bytes consumed, and 0 before any |
| StringToInt.Quiet | resources/atoi.c:38 | nothing seen yet, the code's `!zeros && !ret`; `Step` proves the two equal at each loop head; it holds before the first byte and never right after a '0' |
| StringToInt.Prev | resources/atoi.c:35 | the byte the guard `s[i-1]` reads, with `before` at `i == 0`; when every earlier byte is non-NUL it is NUL only at `i == 0` with a NUL before the string |
| StringToInt.Stops | resources/atoi.c:35-43 | the code's condition for the rescale-and-break branch; a byte where the scan stops is never a decimal digit |
| StringToInt.StopFrom | resources/atoi.c:35-49 | the first position at or after `k` where the scan ends, or the NUL: no stop before it, and a stop there unless it is the NUL |
| StringToInt.StopIndex | resources/atoi.c:24-50 | where the scan of the whole string ends: no position before it ends the scan, and it is the NUL or a position that does |
| StringToInt.Converted | resources/atoi.c:16-59 | what `atoi` returns, the value of the bytes consumed before the scan ends; 0 when the scan ends at the first byte |
| StringToInt.Extend | resources/atoi.c:26-31 | consuming one more byte multiplies the value by 10 and adds the byte's value, and counts one more zero if it is '0' |
| StringToInt.ShiftIsProduct | resources/atoi.c:52-53 | the form the loop keeps `ret` in is `10^k` times the consumed value |
| StringToInt.Consume | resources/atoi.c:52-55 | adding `val * 10^(len-i-1)` to `10^(len-i)` times the consumed value gives `10^(len-i-1)` times the value after the byte |
| StringToInt.ScaledZero | resources/atoi.c:38 | with `ret` the consumed value scaled by a power of ten, `ret == 0` exactly when that value is 0 |
| StringToInt.DivExact | resources/atoi.c:48 | the rescale `ret / 10^(len-i)` is exact and yields the consumed value |
| StringToInt.Step | resources/atoi.c:26-55 | one iteration preserves the `zeros` and `ret` invariants; the code's stopping test is exactly `Stops`; on a stop the rescaled `ret` is the consumed value |
| StringToInt.Atoi | resources/atoi.c:16-59 | the loop returns `Converted`; the early return at lines 45-46 cannot fire because `s[i] != 0` gives `i < len`; the loop ends since `len - i` decreases |
| StringToIntProperties.ValueZeroIff | resources/atoi.c:26-53 | the consumed value is 0 exactly when every consumed byte is zero-valued |
| StringToIntProperties.ZerosZeroIff | resources/atoi.c:28-31 | the `zeros` counter is 0 exactly when no '0' was consumed |
| StringToIntProperties.QuietMeansNothingSeen | resources/atoi.c:38 | `!zeros && !ret` holds exactly when no consumed byte was '0' or had a nonzero value |
| StringToIntProperties.ValueAppend | resources/atoi.c:52-53 | the bytes of `q` are the lowest decimal places of `p + q`, one per byte |
| StringToIntProperties.ValueBound | resources/atoi.c:52-53 | each place holds at most 79, so the value of `p` is at most `79 * (10^n - 1) / 9` for `n` bytes |
| StringToIntProperties.ZeroPrefixAbsorbed | resources/atoi.c:28-42 | zero-valued leading bytes do not change the value of what follows |
| StringToIntProperties.IntermediateBound | resources/atoi.c:52-53 | every intermediate `ret` is at most the value of all bytes before the NUL (a bound, not the result) |
| StringToIntProperties.StopIndexUnique | resources/atoi.c:35-49 | a position with no stop before it that stops or is the NUL is where the scan ends |
| StringToIntProperties.DigitNeverStops | resources/atoi.c:28-35 | a digit byte never ends the scan |
| StringToIntProperties.ValueOfDigits | resources/atoi.c:52-53 | on decimal digits the scanner's value is the ordinary decimal value |
| StringToIntProperties.DigitsOnly | resources/atoi.c:16-59 | a string of decimal digits converts to its decimal value |
| StringToIntProperties.DigitRunLength | resources/atoi.c:20 | a digit run and one further non-NUL byte lie before the string's NUL |
| StringToIntProperties.DigitRunEnds | resources/atoi.c:35-49 | a zero-valued byte other than '0' ends the scan after a non-empty digit run, or at the start when it is not a space and the byte before is not NUL |
| StringToIntProperties.DigitPrefix | resources/atoi.c:35-49 | a digit run followed by a stopping character converts to the run's decimal value; nothing after it is read |
| StringToIntProperties.SpacesShiftStops | resources/atoi.c:35-42 | behind a run of spaces each position stops exactly as the matching position of the rest does after a space |
| StringToIntProperties.SpacesLength | resources/strlen.c:4-9 | leading spaces lengthen a C string by their number |
| StringToIntProperties.SpacesNeverStop | resources/atoi.c:37-42 | a space met before anything has been seen never ends the scan |
| StringToIntProperties.SpacesStopIndex | resources/atoi.c:35-49 | behind leading spaces the scan ends where it ends on the rest, shifted by the spaces |
| StringToIntProperties.LeadingSpaces | resources/atoi.c:37-42 | leading spaces are skipped: the string converts as the rest does after a space (so after any non-NUL byte, by `BeforeMattersOnlyIfNul`) |
| StringToIntProperties.BeforeMattersOnlyIfNul | resources/atoi.c:35 | the result does not depend on the byte before the string unless it is NUL |
| StringToIntProperties.GarbageFirst | resources/atoi.c:35-49 | a string starting with two zero-valued non-space characters other than '0' converts to 0, whatever the byte before it |
| StringToIntProperties.AllSpaces | resources/atoi.c:37-42 | a string of spaces of any length, the empty string included, converts to 0 whatever the byte before it |
| StringToIntVectors.CharacterTable | resources/atoi.c:11-13 | '1', '2' and '9' classify as 1, 2 and 9 |
| StringToIntVectors.DigitByte | resources/atoi.c:1-9 | a digit character is a digit byte with the same digit value |
| StringToIntVectors.SpelledDecimal | resources/atoi.c:62-64 | a buffer starting with the bytes of a digit text has that text's decimal value |
| StringToIntVectors.DigitLiteral | resources/atoi.c:62-64 | a literal of digits converts to the number it spells |
| StringToIntVectors.Ten | resources/atoi.c:62-64 | "10" converts to 10 |
| StringToIntVectors.FiftySix | resources/atoi.c:62-64 | "56" converts to 56 |
| StringToIntVectors.SixtyFive | resources/atoi.c:62-64 | "65" converts to 65 |
| StringToIntVectors.SixThousand | resources/atoi.c:62-64 | "6432" converts to 6432 |
| StringToIntVectors.TwoThousand | resources/atoi.c:62-64 | "2000" converts to 2000 |
| StringToIntVectors.LeadingZeros | resources/atoi.c:62-64 | "00010" converts to 10 |
| StringToIntVectors.IntMaxConverts | resources/atoi.c:62-64 | "2147483647" converts to `INT_MAX` |
| StringToIntVectors.IntMaxSpelled | resources/atoi.c:62-64 | "2147483647" is a digit text and spells `INT_MAX` |
| StringToIntVectors.RunBounded | resources/atoi.c:52-53 | if the whole string's value is at most `v`, so is every intermediate `ret` |
| StringToIntVectors.MultiplierFits | resources/atoi.c:52 | the largest multiplier a ten-character string needs, `10^9`, fits in an `int` |
| StringToIntVectors.DigitRunBounded | resources/atoi.c:52-53 | converting a digit literal, every intermediate `ret` is at most the number it spells |
| StringToIntVectors.IntMaxFits | resources/atoi.c:52-64 | converting "2147483647", every intermediate `ret` fits in a 32-bit `int` |
| StringToIntVectors.DigitsThenSpace | resources/atoi.c:35-49 | digits, a space, then anything convert to the digits' value |
| StringToIntVectors.TenHello | resources/atoi.c:62-64 | "10 hello" converts to 10 |
| StringToIntVectors.FourThousandHell | resources/atoi.c:62-64 | "4560 hell" converts to 4560 |
| StringToIntVectors.ZerosThenSpaces | resources/atoi.c:62-64 | "000  255" converts to 0: a space after a '0' ends the scan |
| StringToIntVectors.GarbageLiteral | resources/atoi.c:35-49 | a literal starting with two stopping characters converts to 0 |
| StringToIntVectors.Hello | resources/atoi.c:62-64 | "hello" converts to 0 |
| StringToIntVectors.Punctuation | resources/atoi.c:62-64 | "!!?????" converts to 0 |
| StringToIntVectors.LettersAroundDigits | resources/atoi.c:62-64 | "aa56aa" converts to 0 |
| StringToIntVectors.BangsBeforeDigits | resources/atoi.c:62-64 | "!!64" converts to 0 |
| StringToIntVectors.SpacesThenTen | resources/atoi.c:62-64 | "    10" converts to 10 |
| StringToIntVectors.OnlySpaces | resources/atoi.c:62-64 | "      " converts to 0 |

## Left out

- The two `main` harnesses (resources/atoi.c:67-95, resources/strlen.c:18-41):
  the `printf` reporting, pass counters and exit codes are I/O. Their tables
  are stated as lemmas instead.
- `malloc` and `strncpy` (resources/strlen.c:29-30) are allocation and library
  calls. `CopiedBuffer` states the buffer they produce.
- Floating-point `pow` and its `(int)` casts (resources/atoi.c:48, 52) are
  modelled by the exact integer `Pow10`. For exponents up to 9, which covers
  every test vector, the double result is exact.
- Atoi: integers are unbounded, so 32-bit overflow and wrap-around are not
  modelled. `ret` overflows whenever some `Pow10(len-i) * Value(s[..i])`
  exceeds INT_MAX. That already happens for ten-digit strings above
  "2147483647" and for nine-byte strings of 'p'..0x7F. The multiplier
  `pow(10, len-i-1)` overflows `int` for strings of more than ten
  characters. The rescale divisor `(int)pow(10, len-i)` already overflows
  for a ten-character string whose scan ends at its first byte. That
  `int` suffices is shown only for "2147483647" (`IntMaxFits`,
  `MultiplierFits`).
- The value of the out-of-bounds read `s[-1]` at `i == 0`
  (resources/atoi.c:35) is not modelled. It is the parameter `before` of
  `Atoi`. Every vector holds for every value of it, and
  `BeforeMattersOnlyIfNul` shows that only a NUL changes the result. Some
  general lemmas fix it or constrain it: `DigitPrefix` needs it non-NUL for
  an empty digit run, and `LeadingSpaces` relates the result to the rest
  converted after a space.
- AtoiSingle: `char` is taken to be signed. Bytes 0x80 and above sign-extend
  when promoted to `int`, fail the mask test and classify as 0. With an
  unsigned `char`, bytes 0xB0-0xBF and 0xF0-0xFF would instead classify as
  128-143 and 192-207.
- Atoi: the early return `if (!len && s[i]) return ret;`
  (resources/atoi.c:45-46) is not a branch of the model. Inside the loop
  `s[i]` is not NUL, so `len > i >= 0` and it cannot fire; the method asserts
  `i < len` at that point instead.
- Strlen: the `int` counter and `size_t` result widths are not modelled; the
  length is a `nat`.
