/**
 * What the scanner of resources/atoi.c promises, stated about `Converted`,
 * the function `Atoi` is proved to compute: digit strings give their decimal
 * value, leading zeros and spaces are absorbed, a digit run stops at the first
 * character that ends the scan, and no intermediate `ret` exceeds the value of
 * the whole string.
 */
module StringToIntProperties {
  import opened StringLength
  import opened StringToInt

  /** The ordinary value of the decimal numeral formed by the first `n` bytes of `p`. */
  function Decimal(p: seq<bv8>, n: nat): int
    requires n <= |p|
  {
    if n == 0 then 0 else 10 * Decimal(p, n - 1) + (p[n - 1] as int - ZeroChar as int)
  }

  predicate AllDigits(p: seq<bv8>) {
    forall j :: 0 <= j < |p| ==> IsDigit(p[j])
  }

  /** A run of bytes has value 0 exactly when every byte in it is zero-valued. */
  lemma {:induction false} ValueZeroIff(p: seq<bv8>)
    ensures Value(p) == 0 <==> forall j :: 0 <= j < |p| ==> AtoiSingle(p[j]) == 0
  {
    if p != [] {
      var q := p[..|p| - 1];
      ValueZeroIff(q);
      assert forall j :: 0 <= j < |q| ==> q[j] == p[j];
    }
  }

  /** `Zeros` counts '0' bytes: it is 0 exactly when there are none. */
  lemma {:induction false} ZerosZeroIff(p: seq<bv8>)
    ensures Zeros(p) == 0 <==> forall j :: 0 <= j < |p| ==> p[j] != ZeroChar
  {
    if p != [] {
      var q := p[..|p| - 1];
      ZerosZeroIff(q);
      assert forall j :: 0 <= j < |q| ==> q[j] == p[j];
    }
  }

  /**
   * The scanner's test `!zeros && !ret` means that no byte consumed so far was
   * a '0' or had a nonzero value.
   */
  lemma QuietMeansNothingSeen(p: seq<bv8>)
    ensures Quiet(p) <==> forall j :: 0 <= j < |p| ==> p[j] != ZeroChar && AtoiSingle(p[j]) == 0
  {
    ValueZeroIff(p);
    ZerosZeroIff(p);
  }

  lemma TenTimes(w: int, x: int)
    ensures (10 * w) * x == 10 * (w * x)
  {
  }

  /** Place-value arithmetic: the bytes of `q` are the low `|q|` decimal places of `p + q`. */
  lemma {:induction false} ValueAppend(p: seq<bv8>, q: seq<bv8>)
    ensures Value(p + q) == Pow10(|q|) * Value(p) + Value(q)
  {
    if q == [] {
      assert p + q == p;
    } else {
      var q' := q[..|q| - 1];
      assert (p + q)[..|p + q| - 1] == p + q';
      assert (p + q)[|p + q| - 1] == q[|q| - 1];
      ValueAppend(p, q');
      var x, w, a := Value(p), Pow10(|q'|), AtoiSingle(q[|q| - 1]);
      var wx := w * x;
      assert Value(p + q') == wx + Value(q');
      assert Value(p + q) == 10 * Value(p + q') + a;
      assert Value(q) == 10 * Value(q') + a;
      assert Pow10(|q|) == 10 * w;
      TenTimes(w, x);
    }
  }

  /** Each place holds at most 79, so `p` has value at most `79 * (10^|p| - 1) / 9`. */
  lemma {:induction false} ValueBound(p: seq<bv8>)
    ensures 9 * Value(p) <= 79 * (Pow10(|p|) - 1)
  {
    if p != [] {
      ValueBound(p[..|p| - 1]);
    }
  }

  /** Zero-valued leading bytes ('0's, spaces) do not change the value of what follows. */
  lemma ZeroPrefixAbsorbed(z: seq<bv8>, q: seq<bv8>)
    requires forall j :: 0 <= j < |z| ==> AtoiSingle(z[j]) == 0
    ensures Value(z + q) == Value(q)
  {
    ValueZeroIff(z);
    ValueAppend(z, q);
  }

  /**
   * Each `ret` the loop holds, `Pow10(len - i)` times the value of the first
   * `i` bytes, is at most `Value` of all bytes before the NUL. This bounds
   * `ret` by that value, not by the result: on "10 hello" `ret` reaches
   * `10^7` and the result is 10.
   */
  lemma IntermediateBound(s: seq<bv8>, i: nat)
    requires Terminated(s) && i <= Length(s)
    ensures Pow10(Length(s) - i) * Value(s[..i]) <= Value(s[..Length(s)])
  {
    var len := Length(s);
    assert s[..len] == s[..i] + s[i..len];
    ValueAppend(s[..i], s[i..len]);
  }

  /** The scan ends at `k` when it does not end before `k` and does end at `k` (or `k` is the NUL). */
  lemma StopIndexUnique(s: seq<bv8>, before: bv8, k: nat)
    requires Terminated(s) && k <= Length(s)
    requires forall j :: 0 <= j < k ==> !Stops(s, j, before)
    requires k == Length(s) || Stops(s, k, before)
    ensures StopIndex(s, before) == k
  {
  }

  /** A digit byte never ends the scan: it is '0' or has a nonzero value. */
  lemma DigitNeverStops(s: seq<bv8>, j: nat, before: bv8)
    requires j < |s| && IsDigit(s[j])
    ensures !Stops(s, j, before)
  {
  }

  /** On decimal digits, the scanner's value is the ordinary decimal value. */
  lemma {:induction false} ValueOfDigits(p: seq<bv8>, n: nat)
    requires n <= |p| && AllDigits(p[..n])
    ensures Value(p[..n]) == Decimal(p, n)
  {
    if n > 0 {
      assert AllDigits(p[..n - 1]) by {
        assert forall j :: 0 <= j < n - 1 ==> p[..n - 1][j] == p[..n][j];
      }
      ValueOfDigits(p, n - 1);
      Extend(p, n - 1);
      assert p[..n][n - 1] == p[n - 1];
    }
  }

  /** A string made only of decimal digits converts to its decimal value. */
  lemma DigitsOnly(s: seq<bv8>, before: bv8)
    requires Terminated(s) && AllDigits(s[..Length(s)])
    ensures Converted(s, before) == Decimal(s, Length(s))
  {
    var len := Length(s);
    forall j | 0 <= j < len
      ensures !Stops(s, j, before)
    {
      assert s[..len][j] == s[j];
      DigitNeverStops(s, j, before);
    }
    StopIndexUnique(s, before, len);
    ValueOfDigits(s, len);
  }

  /** A digit run and one more non-NUL byte lie inside the C string they start. */
  lemma DigitRunLength(d: seq<bv8>, c: bv8, rest: seq<bv8>)
    requires AllDigits(d) && Terminated(rest) && c != Nul
    ensures Terminated(d + [c] + rest) && |d| < Length(d + [c] + rest)
  {
    var s := d + [c] + rest;
    assert s[|d| + 1 + Length(rest)] == Nul;
    forall j | 0 <= j <= |d|
      ensures s[j] != Nul
    {
      if j < |d| {
        assert s[j] == d[j];
      }
    }
  }

  /** The character after a digit run ends the scan when it is zero-valued and not '0'. */
  lemma DigitRunEnds(d: seq<bv8>, c: bv8, rest: seq<bv8>, before: bv8)
    requires AllDigits(d)
    requires c != Nul && c != ZeroChar && AtoiSingle(c) == 0
    requires |d| > 0 || (c != Space && before != Nul)
    ensures Stops(d + [c] + rest, |d|, before)
  {
    var s := d + [c] + rest;
    assert s[|d|] == c;
    assert s[..|d|] == d;
    if |d| > 0 {
      assert s[|d| - 1] == d[|d| - 1];
      QuietMeansNothingSeen(d);
      assert !Quiet(d) by {
        assert d[0] == ZeroChar || AtoiSingle(d[0]) != 0;
      }
    }
  }

  /**
   * A digit run followed by a character that ends the scan converts to the
   * value of the run; nothing after that character is read. A space ends the
   * scan once a digit ('0' included) has been seen; at the very start it ends
   * it only if it is not a space and the byte before the string is not NUL.
   */
  lemma DigitPrefix(d: seq<bv8>, c: bv8, rest: seq<bv8>, before: bv8)
    requires AllDigits(d) && Terminated(rest)
    requires c != Nul && c != ZeroChar && AtoiSingle(c) == 0
    requires |d| > 0 || (c != Space && before != Nul)
    ensures Terminated(d + [c] + rest)
    ensures Converted(d + [c] + rest, before) == Decimal(d, |d|)
  {
    var s := d + [c] + rest;
    DigitRunLength(d, c, rest);
    DigitRunEnds(d, c, rest, before);
    forall j | 0 <= j < |d|
      ensures !Stops(s, j, before)
    {
      assert s[j] == d[j];
      DigitNeverStops(s, j, before);
    }
    StopIndexUnique(s, before, |d|);
    assert s[..|d|] == d == d[..|d|];
    ValueOfDigits(d, |d|);
  }

  /** Behind a run of spaces, the scanner behaves as on the rest, with a space as the previous byte. */
  lemma SpacesShiftStops(sp: seq<bv8>, t: seq<bv8>, before: bv8, j: nat)
    requires |sp| > 0 && forall k :: 0 <= k < |sp| ==> sp[k] == Space
    requires j < |t|
    ensures Stops(sp + t, |sp| + j, before) == Stops(t, j, Space)
  {
    var s := sp + t;
    assert s[|sp| + j] == t[j];
    assert Prev(s, |sp| + j, before) == Prev(t, j, Space);
    assert s[..|sp| + j] == sp + t[..j];
    QuietMeansNothingSeen(sp + t[..j]);
    QuietMeansNothingSeen(t[..j]);
    assert forall k :: 0 <= k < j ==> (sp + t[..j])[|sp| + k] == t[..j][k];
  }

  /** A run of spaces in front of a C string lengthens it by the run's length. */
  lemma SpacesLength(sp: seq<bv8>, t: seq<bv8>)
    requires forall k :: 0 <= k < |sp| ==> sp[k] == Space
    requires Terminated(t)
    ensures Terminated(sp + t) && Length(sp + t) == |sp| + Length(t)
  {
    var s, n := sp + t, Length(t);
    assert s[|sp| + n] == Nul;
    forall j | 0 <= j < |sp| + n
      ensures s[j] != Nul
    {
      if j >= |sp| {
        assert s[j] == t[j - |sp|];
      }
    }
    LengthUnique(s, |sp| + n);
  }

  /** A space met before anything else has been seen never ends the scan. */
  lemma SpacesNeverStop(sp: seq<bv8>, t: seq<bv8>, before: bv8, j: nat)
    requires forall k :: 0 <= k < |sp| ==> sp[k] == Space
    requires j < |sp|
    ensures !Stops(sp + t, j, before)
  {
    var s := sp + t;
    assert s[..j] == sp[..j];
    QuietMeansNothingSeen(sp[..j]);
  }

  /** Behind a run of spaces the scan ends where it ends on the rest, shifted by the run. */
  lemma SpacesStopIndex(sp: seq<bv8>, t: seq<bv8>, before: bv8)
    requires |sp| > 0 && forall k :: 0 <= k < |sp| ==> sp[k] == Space
    requires Terminated(t)
    ensures Terminated(sp + t)
    ensures StopIndex(sp + t, before) == |sp| + StopIndex(t, Space)
  {
    var s := sp + t;
    SpacesLength(sp, t);
    var k := StopIndex(t, Space);
    forall j | 0 <= j < |sp| + k
      ensures !Stops(s, j, before)
    {
      if j < |sp| {
        SpacesNeverStop(sp, t, before, j);
      } else {
        SpacesShiftStops(sp, t, before, j - |sp|);
      }
    }
    if k < Length(t) {
      SpacesShiftStops(sp, t, before, k);
    }
    StopIndexUnique(s, before, |sp| + k);
  }

  /**
   * Leading spaces are skipped while nothing else has been seen: a string of
   * spaces followed by `t` converts as `t` does after a space.
   */
  lemma LeadingSpaces(sp: seq<bv8>, t: seq<bv8>, before: bv8)
    requires |sp| > 0 && forall k :: 0 <= k < |sp| ==> sp[k] == Space
    requires Terminated(t)
    ensures Terminated(sp + t)
    ensures Converted(sp + t, before) == Converted(t, Space)
  {
    var s := sp + t;
    SpacesStopIndex(sp, t, before);
    var k := StopIndex(t, Space);
    assert s[..|sp| + k] == sp + t[..k];
    ZeroPrefixAbsorbed(sp, t[..k]);
  }

  /**
   * The byte before the string matters only when it is NUL: for any two
   * non-NUL choices the result is the same, because for every later position
   * the previous byte was already checked to be non-NUL.
   */
  lemma BeforeMattersOnlyIfNul(s: seq<bv8>, b1: bv8, b2: bv8)
    requires Terminated(s) && b1 != Nul && b2 != Nul
    ensures Converted(s, b1) == Converted(s, b2)
  {
    var k := StopIndex(s, b1);
    forall j | 0 <= j < Length(s)
      ensures Stops(s, j, b1) == Stops(s, j, b2)
    {
    }
    StopIndexUnique(s, b2, k);
  }

  /**
   * A string that starts with two zero-valued, non-space characters (not '0')
   * converts to 0, whatever the byte before it: if that byte is not NUL the
   * scan ends at once, and if it is NUL the first character is consumed as a 0
   * and the scan ends at the second.
   */
  lemma GarbageFirst(s: seq<bv8>, before: bv8)
    requires |s| >= 2 && Terminated(s)
    requires forall j :: 0 <= j < 2 ==> s[j] != Nul && s[j] != Space && s[j] != ZeroChar && AtoiSingle(s[j]) == 0
    ensures Converted(s, before) == 0
  {
    assert Length(s) >= 2 by {
      assert s[0] != Nul && s[1] != Nul;
    }
    if before != Nul {
      StopIndexUnique(s, before, 0);
    } else {
      assert !Stops(s, 0, before);
      assert Stops(s, 1, before);
      StopIndexUnique(s, before, 1);
      assert s[..1][..0] == [] && s[..1][0] == s[0];
      assert Value(s[..1]) == 10 * Value([]) + AtoiSingle(s[0]);
    }
  }

  /**
   * A string of spaces, of any length including none, converts to 0 whatever
   * the byte before it.
   */
  lemma AllSpaces(sp: seq<bv8>, before: bv8)
    requires forall k :: 0 <= k < |sp| ==> sp[k] == Space
    ensures Terminated(sp + [Nul]) && Converted(sp + [Nul], before) == 0
  {
    LengthUnique([Nul], 0);
    DigitsOnly([Nul], Space);
    if |sp| > 0 {
      LeadingSpaces(sp, [Nul], before);
    } else {
      assert sp + [Nul] == [Nul];
      DigitsOnly([Nul], before);
    }
  }
}
