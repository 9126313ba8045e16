/**
 * The self-test tables of resources/atoi.c (lines 11-13 and 62-64), stated as
 * lemmas about `AtoiSingle` and about `Converted`, which `Atoi` is proved to
 * compute. Every lemma holds for every value of the byte before the string.
 */
module StringToIntVectors {
  import opened StringLength
  import opened StringToInt
  import opened StringToIntProperties

  /** The largest 32-bit `int`, `INT_MAX`. */
  const IntMax: int := 0x7FFF_FFFF

  /** The character table: '1', '2' and '9' classify as 1, 2 and 9. */
  lemma CharacterTable()
    ensures AtoiSingle(Byte('1')) == 1
    ensures AtoiSingle(Byte('2')) == 2
    ensures AtoiSingle(Byte('9')) == 9
  {
  }

  /** A text made of the characters '0' to '9' only. */
  predicate DigitText(t: string) {
    forall i :: 0 <= i < |t| ==> '0' <= t[i] <= '9'
  }

  /** The number the first `n` characters of a digit text spell in base 10. */
  function Spelled(t: string, n: nat): int
    requires n <= |t|
  {
    if n == 0 then 0 else 10 * Spelled(t, n - 1) + (t[n - 1] as int - '0' as int)
  }

  /** A digit character becomes a digit byte with the same digit value. */
  lemma DigitByte(c: char)
    requires '0' <= c <= '9'
    ensures IsDigit(Byte(c)) && Byte(c) as int - ZeroChar as int == c as int - '0' as int
  {
    match c
    case '0' => case '1' => case '2' => case '3' => case '4' =>
    case '5' => case '6' => case '7' => case '8' => case '9' =>
  }

  /** The bytes of a digit text hold no NUL and are all digits. */
  lemma DigitBytes(t: string)
    requires DigitText(t)
    ensures NulFree(t) && AllDigits(Bytes(t))
  {
    forall i | 0 <= i < |t|
      ensures IsDigit(Bytes(t)[i]) && Byte(t[i]) != Nul
    {
      DigitByte(t[i]);
    }
  }

  /** A buffer that starts with the bytes of a digit text has that text's decimal value. */
  lemma {:induction false} SpelledDecimal(t: string, p: seq<bv8>, n: nat)
    requires DigitText(t) && n <= |t| <= |p| && p[..|t|] == Bytes(t)
    ensures Decimal(p, n) == Spelled(t, n)
  {
    if n > 0 {
      SpelledDecimal(t, p, n - 1);
      DigitByte(t[n - 1]);
      assert p[n - 1] == p[..|t|][n - 1] == Byte(t[n - 1]);
    }
  }

  /** A literal made only of digits converts to the number it spells. */
  lemma DigitLiteral(t: string, before: bv8)
    requires DigitText(t)
    ensures Converted(Literal(t), before) == Spelled(t, |t|)
  {
    var s := Literal(t);
    DigitBytes(t);
    LengthOfText(t, []);
    assert s + [] == s;
    assert s[..|t|] == Bytes(t);
    DigitsOnly(s, before);
    SpelledDecimal(t, s, |t|);
  }

  lemma Ten(before: bv8)
    ensures Converted(Literal("10"), before) == 10
  {
    var t := "10";
    DigitLiteral(t, before);
    assert Spelled(t, 2) == 10;
  }

  lemma FiftySix(before: bv8)
    ensures Converted(Literal("56"), before) == 56
  {
    var t := "56";
    DigitLiteral(t, before);
    assert Spelled(t, 2) == 56;
  }

  lemma SixtyFive(before: bv8)
    ensures Converted(Literal("65"), before) == 65
  {
    var t := "65";
    DigitLiteral(t, before);
    assert Spelled(t, 2) == 65;
  }

  lemma SixThousand(before: bv8)
    ensures Converted(Literal("6432"), before) == 6432
  {
    var t := "6432";
    DigitLiteral(t, before);
    assert Spelled(t, 4) == 6432;
  }

  /** Trailing zeros keep their place value. */
  lemma TwoThousand(before: bv8)
    ensures Converted(Literal("2000"), before) == 2000
  {
    var t := "2000";
    DigitLiteral(t, before);
    assert Spelled(t, 4) == 2000;
  }

  /** Leading zeros are absorbed: "00010" converts to 10. */
  lemma LeadingZeros(before: bv8)
    ensures Converted(Literal("00010"), before) == 10
  {
    var t := "00010";
    DigitLiteral(t, before);
    assert Spelled(t, 5) == 10;
  }

  /** "2147483647" converts to `INT_MAX`. */
  lemma IntMaxConverts(before: bv8)
    ensures Converted(Literal("2147483647"), before) == IntMax
  {
    IntMaxSpelled();
    DigitLiteral("2147483647", before);
  }

  /** "2147483647" is a digit text and spells `INT_MAX`. */
  lemma IntMaxSpelled()
    ensures DigitText("2147483647") && Spelled("2147483647", 10) == IntMax
  {
    var t := "2147483647";
    assert Spelled(t, 3) == 214;
    assert Spelled(t, 6) == 214748;
    assert Spelled(t, 8) == 21474836;
  }

  /** If the whole string's value is at most `v`, so is every `ret` the loop holds on the way. */
  lemma RunBounded(s: seq<bv8>, v: int)
    requires Terminated(s) && Value(s[..Length(s)]) <= v
    ensures forall i :: 0 <= i <= Length(s) ==> Pow10(Length(s) - i) * Value(s[..i]) <= v
  {
    forall i | 0 <= i <= Length(s)
      ensures Pow10(Length(s) - i) * Value(s[..i]) <= v
    {
      IntermediateBound(s, i);
    }
  }

  /** The largest multiplier a ten-character string needs, `10^9`, fits a 32-bit `int`. */
  lemma MultiplierFits()
    ensures Pow10(9) <= IntMax
  {
  }

  /**
   * Converting a digit literal, every `ret` the loop holds on the way is at
   * most the final value.
   */
  lemma DigitRunBounded(t: string, s: seq<bv8>)
    requires DigitText(t) && s == Literal(t)
    ensures Terminated(s) && Length(s) == |t|
    ensures forall i :: 0 <= i <= |t| ==> Pow10(|t| - i) * Value(s[..i]) <= Spelled(t, |t|)
  {
    DigitBytes(t);
    LengthOfText(t, []);
    assert s + [] == s;
    assert s[..|t|] == Bytes(t);
    ValueOfDigits(s, |t|);
    SpelledDecimal(t, s, |t|);
    RunBounded(s, Spelled(t, |t|));
  }

  /**
   * Converting "2147483647", every `ret` the loop holds on the way (at most
   * the final value) fits a 32-bit `int`.
   */
  lemma IntMaxFits(s: seq<bv8>)
    requires s == Literal("2147483647")
    ensures Terminated(s) && Length(s) == 10
    ensures forall i :: 0 <= i <= 10 ==> Pow10(10 - i) * Value(s[..i]) <= IntMax
  {
    var t := "2147483647";
    DigitRunBounded(t, s);
    IntMaxSpelled();
  }

  /** A space character is the byte the scanner compares with `Space`. */
  lemma SpaceBytes()
    ensures Byte(' ') == Space && Bytes(" ") == [Space]
  {
  }

  /** A literal with a space in it is the bytes before the space, the space, and the literal after it. */
  lemma DigitsSpaceLiteral(d: string, rest: string)
    ensures Literal(d + " " + rest) == Bytes(d) + [Space] + Literal(rest)
  {
    SpaceBytes();
    LiteralAppend(" ", rest);
    LiteralAppend(d, " " + rest);
    assert d + " " + rest == d + (" " + rest);
  }

  /** A digit literal, a space, then anything: the scan ends at the space. */
  lemma DigitsThenSpace(d: string, rest: string, before: bv8)
    requires DigitText(d) && |d| > 0
    ensures Converted(Literal(d + " " + rest), before) == Spelled(d, |d|)
  {
    var p := Bytes(d);
    DigitsSpaceLiteral(d, rest);
    DigitBytes(d);
    DigitPrefix(p, Space, Literal(rest), before);
    SpelledDecimal(d, p, |d|);
  }

  /** The scan stops at the space: "10 hello" converts to 10. */
  lemma TenHello(before: bv8)
    ensures Converted(Literal("10 hello"), before) == 10
  {
    var d := "10";
    DigitsThenSpace(d, "hello", before);
    assert Spelled(d, 2) == 10;
    assert d + " " + "hello" == "10 hello";
  }

  /** "4560 hell" converts to 4560. */
  lemma FourThousandHell(before: bv8)
    ensures Converted(Literal("4560 hell"), before) == 4560
  {
    var d := "4560";
    DigitsThenSpace(d, "hell", before);
    assert Spelled(d, 4) == 4560;
    assert d + " " + "hell" == "4560 hell";
  }

  /** A space after leading zeros ends the scan: "000  255" converts to 0. */
  lemma ZerosThenSpaces(before: bv8)
    ensures Converted(Literal("000  255"), before) == 0
  {
    var d := "000";
    DigitsThenSpace(d, " 255", before);
    assert Spelled(d, 3) == 0;
    assert d + " " + " 255" == "000  255";
  }

  /** Strings that start with two non-digit characters convert to 0. */
  lemma GarbageLiteral(t: string, before: bv8)
    requires |t| >= 2
    requires forall j :: 0 <= j < 2 ==>
      Byte(t[j]) != Nul && Byte(t[j]) != Space && Byte(t[j]) != ZeroChar && AtoiSingle(Byte(t[j])) == 0
    ensures Converted(Literal(t), before) == 0
  {
    GarbageFirst(Literal(t), before);
  }

  lemma Hello(before: bv8)
    ensures Converted(Literal("hello"), before) == 0
  {
    GarbageLiteral("hello", before);
  }

  /** '?' classifies as 15, but the scan has already ended at the second '!'. */
  lemma Punctuation(before: bv8)
    ensures Converted(Literal("!!?????"), before) == 0
  {
    GarbageLiteral("!!?????", before);
  }

  lemma LettersAroundDigits(before: bv8)
    ensures Converted(Literal("aa56aa"), before) == 0
  {
    GarbageLiteral("aa56aa", before);
  }

  lemma BangsBeforeDigits(before: bv8)
    ensures Converted(Literal("!!64"), before) == 0
  {
    GarbageLiteral("!!64", before);
  }

  /** Leading spaces are skipped: "    10" converts to 10. */
  lemma SpacesThenTen(before: bv8)
    ensures Converted(Literal("    10"), before) == 10
  {
    var sp, t := "    ", "10";
    SpaceBytes();
    assert forall k :: 0 <= k < |sp| ==> sp[k] == ' ';
    LiteralAppend(sp, t);
    assert sp + t == "    10";
    LeadingSpaces(Bytes(sp), Literal(t), before);
    DigitLiteral(t, Space);
    assert Spelled(t, 2) == 10;
  }

  /** A string of spaces converts to 0. */
  lemma OnlySpaces(before: bv8)
    ensures Converted(Literal("      "), before) == 0
  {
    var sp := "      ";
    SpaceBytes();
    assert forall k :: 0 <= k < |sp| ==> sp[k] == ' ';
    LiteralAppend(sp, "");
    assert sp + "" == sp;
    LeadingSpaces(Bytes(sp), Literal(""), before);
  }
}
