/**
 * Model of resources/atoi.c: a left-to-right decimal scanner over a
 * NUL-terminated byte string.
 *
 * `AtoiSingle` is the bit-mask character classifier; `Atoi` is the scanning
 * loop, proved against `Converted`, which says declaratively where the scan
 * stops (`StopIndex`) and what it returns there (`Value` of the bytes consumed).
 */
module StringToInt {
  import opened StringLength

  /** The characters the scanner treats specially. */
  const ZeroChar: bv8 := 0x30
  const NineChar: bv8 := 0x39
  const Space: bv8 := 0x20

  predicate IsDigit(c: bv8) {
    ZeroChar <= c <= NineChar
  }

  /**
   * C's integer promotion of a (signed) `char` to a 32-bit `int`: bytes of
   * 0x80 and above are negative and sign-extend.
   */
  function Promote(c: bv8): (r: bv32)
    ensures r & 0xFF == c as bv32
    ensures c < 0x80 ==> r < 0x80
    ensures c >= 0x80 ==> r >= 0xFFFF_FF80
  {
    if c < 0x80 then c as bv32 else c as bv32 | 0xFFFF_FF00
  }

  /**
   * `atoi_single`: the mask test `(c | 0xCF) == 0xFF` on the promoted
   * character, returning `c & 0xCF` when it passes and 0 otherwise. The test
   * passes exactly when both bits 0x30 are set (and the byte is not negative),
   * and `c & 0xCF` is then `c - 0x30`. So '0'..'9' map to 0..9, but ':'..'?'
   * map to 10..15 and 'p'..0x7F to 64..79 as well.
   */
  function AtoiSingle(c: bv8): (r: nat)
    ensures r == if c < 0x80 && c & 0x30 == 0x30 then (c - 0x30) as nat else 0
    ensures IsDigit(c) ==> r == (c - ZeroChar) as nat
    ensures r != 0 <==> 0x31 <= c <= 0x3F || 0x70 <= c <= 0x7F
  {
    var p := Promote(c);
    if p | 0xCF == 0xFF then (p & 0xCF) as nat else 0
  }

  /** Exact integer stand-in for the floating-point `pow(10, k)`. */
  function Pow10(k: nat): (r: nat)
    ensures r >= 1
    ensures k > 0 ==> r % 10 == 0
  {
    if k == 0 then 1 else 10 * Pow10(k - 1)
  }

  /**
   * The base-10 value of a run of bytes, each weighted by `AtoiSingle`:
   * every byte the scanner consumes, skipped or not, is one decimal place.
   * No bytes have value 0, and a single byte has its own classification.
   */
  function Value(p: seq<bv8>): (r: nat)
    ensures p == [] ==> r == 0
    ensures |p| == 1 ==> r == AtoiSingle(p[0])
  {
    if p == [] then 0 else 10 * Value(p[..|p| - 1]) + AtoiSingle(p[|p| - 1])
  }

  /**
   * How many '0' bytes `p` holds (the scanner's `zeros` counter): never more
   * than the bytes consumed, and 0 before any.
   */
  function Zeros(p: seq<bv8>): (r: nat)
    ensures r <= |p|
    ensures p == [] ==> r == 0
  {
    if p == [] then 0 else Zeros(p[..|p| - 1]) + (if p[|p| - 1] == ZeroChar then 1 else 0)
  }

  /**
   * Nothing has been seen yet: no '0' and no nonzero value (`!zeros && !ret`).
   * It holds before the first byte, and never right after a '0'.
   */
  predicate Quiet(p: seq<bv8>)
    ensures p == [] ==> Quiet(p)
    ensures Quiet(p) && p != [] ==> p[|p| - 1] != ZeroChar
  {
    Zeros(p) == 0 && Value(p) == 0
  }

  /**
   * The byte the scanner reads as `s[i-1]`. At `i == 0` that read lies before
   * the string; its value is the parameter `before`.
   */
  function Prev(s: seq<bv8>, k: nat, before: bv8): (r: bv8)
    requires k <= |s|
    ensures r == Nul && (forall j :: 0 <= j < k ==> s[j] != Nul) ==> k == 0 && before == Nul
  {
    if k == 0 then before else s[k - 1]
  }

  /**
   * The scan ends at position `k`: the byte there is zero-valued but not '0',
   * the previous byte is not NUL, and it is not a space met while nothing has
   * been seen yet.
   */
  predicate Stops(s: seq<bv8>, k: nat, before: bv8)
    requires k < |s|
    ensures Stops(s, k, before) ==> !IsDigit(s[k])
  {
    && s[k] != ZeroChar
    && AtoiSingle(s[k]) == 0
    && Prev(s, k, before) != Nul
    && !(s[k] == Space && Quiet(s[..k]))
  }

  /** The first position at or after `k` where the scan ends, or the string's length. */
  function StopFrom(s: seq<bv8>, before: bv8, k: nat): (r: nat)
    requires Terminated(s) && k <= Length(s)
    ensures k <= r <= Length(s)
    ensures forall j :: k <= j < r ==> !Stops(s, j, before)
    ensures r < Length(s) ==> Stops(s, r, before)
    decreases Length(s) - k
  {
    if k == Length(s) then k
    else if Stops(s, k, before) then k
    else StopFrom(s, before, k + 1)
  }

  /** Where the scan of the whole string ends: the first stopping position, or the NUL. */
  function StopIndex(s: seq<bv8>, before: bv8): (r: nat)
    requires Terminated(s)
    ensures r <= Length(s)
    ensures forall j :: 0 <= j < r ==> !Stops(s, j, before)
    ensures r < Length(s) ==> Stops(s, r, before)
  {
    StopFrom(s, before, 0)
  }

  /**
   * What `atoi` returns: the value of the bytes consumed before the scan ends.
   * When the scan ends at the first byte, nothing was consumed and it is 0.
   */
  function Converted(s: seq<bv8>, before: bv8): (r: nat)
    requires Terminated(s)
    ensures StopIndex(s, before) == 0 ==> r == 0
  {
    Value(s[..StopIndex(s, before)])
  }

  /** Consuming one more byte adds one decimal place and may count one more '0'. */
  lemma Extend(s: seq<bv8>, i: nat)
    requires i < |s|
    ensures Value(s[..i + 1]) == 10 * Value(s[..i]) + AtoiSingle(s[i])
    ensures Zeros(s[..i + 1]) == Zeros(s[..i]) + (if s[i] == ZeroChar then 1 else 0)
  {
    assert s[..i + 1][..i] == s[..i];
  }

  /**
   * `v` followed by `k` decimal zeros. The loop invariant keeps `ret` in this
   * form, which is `Pow10(k) * v` (`ShiftIsProduct`) but keeps the loop's own
   * proof free of products of two unknowns.
   */
  function Shift(k: nat, v: int): int {
    if k == 0 then v else 10 * Shift(k - 1, v)
  }

  lemma {:induction false} ShiftIsProduct(k: nat, v: int)
    ensures Shift(k, v) == Pow10(k) * v
  {
    if k > 0 {
      ShiftIsProduct(k - 1, v);
      assert Pow10(k) * v == 10 * (Pow10(k - 1) * v);
    }
  }

  /** Appending a decimal place to a value scaled by `10 * p`. */
  lemma AppendPlace(p: nat, v: nat, d: nat)
    ensures (10 * p) * v + d * p == p * (10 * v + d)
  {
  }

  /**
   * One step of the loop: if `ret` is the consumed value scaled by
   * `Pow10(len - i)`, adding the next byte's place value keeps it so.
   */
  lemma Consume(s: seq<bv8>, i: nat, len: nat, ret: int)
    requires i < len && i < |s|
    requires ret == Pow10(len - i) * Value(s[..i])
    ensures ret + AtoiSingle(s[i]) * Pow10(len - i - 1) == Pow10(len - (i + 1)) * Value(s[..i + 1])
    ensures AtoiSingle(s[i]) == 0 ==> ret == Pow10(len - (i + 1)) * Value(s[..i + 1])
  {
    Extend(s, i);
    assert Pow10(len - i) == 10 * Pow10(len - i - 1);
    AppendPlace(Pow10(len - i - 1), Value(s[..i]), AtoiSingle(s[i]));
  }

  /** With `ret` the consumed value scaled by a power of ten, `ret == 0` exactly when that value is 0. */
  lemma ScaledZero(ret: int, p: nat, v: nat)
    requires p >= 1 && ret == p * v
    ensures ret == 0 <==> v == 0
  {
    if v != 0 {
      assert p * v >= p * 1;
    }
  }

  /** A nonzero multiple of `p` is at least `p` away from 0. */
  lemma MulBounds(p: int, d: int)
    requires p >= 1
    ensures d >= 1 ==> p * d >= p
    ensures d <= -1 ==> p * d <= -p
  {
  }

  /** The rescale at the end of the scan is an exact division. */
  lemma DivExact(ret: int, p: nat, v: nat)
    requires p >= 1 && ret == p * v
    ensures ret / p == v
  {
    var q, m := ret / p, ret % p;
    assert ret == p * q + m && 0 <= m < p;
    MulBounds(p, v - q);
    assert p * (v - q) == p * v - p * q;
  }

  /**
   * One iteration of the scanning loop, from a state where `zeros` and `ret`
   * describe the `i` bytes consumed so far: what the next byte does to them and
   * whether the scan ends there.
   */
  lemma Step(s: seq<bv8>, before: bv8, i: nat, len: nat, zeros: int, ret: int)
    requires Terminated(s) && len == Length(s) && i < len
    requires zeros == Zeros(s[..i]) && ret == Shift(len - i, Value(s[..i]))
    ensures Zeros(s[..i + 1]) == zeros + (if s[i] == ZeroChar then 1 else 0)
    ensures ret + AtoiSingle(s[i]) * Pow10(len - i - 1) == Shift(len - (i + 1), Value(s[..i + 1]))
    ensures AtoiSingle(s[i]) == 0 ==> ret == Shift(len - (i + 1), Value(s[..i + 1]))
    ensures Stops(s, i, before) <==>
      && s[i] != ZeroChar && AtoiSingle(s[i]) == 0 && Prev(s, i, before) != Nul
      && !(s[i] == Space && zeros == 0 && ret == 0)
    ensures Stops(s, i, before) ==> ret / Pow10(len - i) == Value(s[..i]) && StopFrom(s, before, i) == i
    ensures !Stops(s, i, before) ==> StopFrom(s, before, i) == StopFrom(s, before, i + 1)
  {
    ShiftIsProduct(len - i, Value(s[..i]));
    ShiftIsProduct(len - (i + 1), Value(s[..i + 1]));
    Extend(s, i);
    Consume(s, i, len, ret);
    ScaledZero(ret, Pow10(len - i), Value(s[..i]));
    DivExact(ret, Pow10(len - i), Value(s[..i]));
  }

  /**
   * `atoi`. The invariant that matters is that `ret` is always
   * `Pow10(len - i)` times the value of the bytes consumed so far, so the
   * division before `break` is exact and yields that value, and at the NUL
   * `ret` is that value already. `ret` is never negative here, so Dafny's
   * division agrees with C's truncating one.
   */
  method Atoi(s: array<bv8>, before: bv8) returns (r: int)
    requires Terminated(s[..])
    ensures r == Converted(s[..], before)
  {
    ghost var a := s[..];
    var ret := 0;
    var i := 0;
    var len := Strlen(s);
    var zeros := 0;
    ShiftIsProduct(len, 0);
    while s[i] != Nul
      invariant 0 <= i <= len == Length(a)
      invariant zeros == Zeros(a[..i])
      invariant ret == Shift(len - i, Value(a[..i]))
      invariant StopFrom(a, before, i) == StopIndex(a, before)
      decreases len - i
    {
      assert a[i] == s[i] != Nul;
      Step(a, before, i, len, zeros, ret);
      var val: int := AtoiSingle(s[i]);
      if val == 0 && s[i] == ZeroChar {
        zeros := zeros + 1;
        i := i + 1;
        continue;
      }
      var prev := if i == 0 then before else s[i - 1];
      if s[i] != ZeroChar && val == 0 && prev != Nul {
        if s[i] == Space {
          if zeros == 0 && ret == 0 {
            i := i + 1;
            continue;
          }
        }
        // Here s[i] is not NUL, so i < len and `if (!len && s[i]) return ret;` cannot fire.
        assert i < len;
        ret := ret / Pow10(len - i);
        break;
      }
      var multiplier: int := Pow10(len - i - 1);
      ret := ret + val * multiplier;
      i := i + 1;
    }
    assert a == s[..];
    r := ret;
  }
}
