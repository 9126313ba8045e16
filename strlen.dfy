/**
 * Model of resources/strlen.c: the length of a NUL-terminated byte string.
 *
 * A C string is a buffer of bytes (`char`, here `bv8`) whose logical end is the
 * first NUL byte; everything after that byte is ignored. `strlen` walks the
 * buffer forward from index 0 and returns the index of that first NUL.
 */
module StringLength {

  /** The terminating sentinel of a C string. */
  const Nul: bv8 := 0

  /** The buffer holds a NUL somewhere, so a scan for it stays inside the buffer. */
  predicate Terminated(s: seq<bv8>) {
    Nul in s
  }

  /**
   * The logical length of the C string held in `s`: the index of its first
   * NUL byte. This is the function the `Strlen` method is proved against.
   */
  function Length(s: seq<bv8>): (n: nat)
    requires Terminated(s)
    ensures n < |s| && s[n] == Nul
    ensures forall j :: 0 <= j < n ==> s[j] != Nul
  {
    if s[0] == Nul then 0 else 1 + Length(s[1..])
  }

  /**
   * `strlen`: count bytes from the start of the buffer until the first NUL.
   * The method has no `modifies` clause, so it leaves the buffer unchanged,
   * as the `const char *` parameter promises.
   */
  method Strlen(s: array<bv8>) returns (n: nat)
    requires Terminated(s[..])
    ensures n < s.Length && s[n] == Nul
    ensures forall j :: 0 <= j < n ==> s[j] != Nul
    ensures n == Length(s[..])
  {
    n := 0;
    while s[n] != Nul
      invariant n <= Length(s[..])
      invariant forall j :: 0 <= j < n ==> s[j] != Nul
      decreases Length(s[..]) - n
    {
      n := n + 1;
    }
  }

  /** Any index holding a NUL with no NUL before it is the length. */
  lemma LengthUnique(s: seq<bv8>, n: nat)
    requires n < |s| && s[n] == Nul
    requires forall j :: 0 <= j < n ==> s[j] != Nul
    ensures Terminated(s) && Length(s) == n
  {
    assert s[n] in s;
  }

  /** Bytes after the first NUL never change the length. */
  lemma {:induction false} LengthIgnoresTail(p: seq<bv8>, tail: seq<bv8>)
    requires Terminated(p)
    ensures Terminated(p + tail) && Length(p + tail) == Length(p)
  {
    var n := Length(p);
    assert (p + tail)[n] == p[n];
    LengthUnique(p + tail, n);
  }

  /**
   * The byte a character of a string literal denotes. The literals used here
   * are ASCII; a character above 0xFF has no one-byte form and maps to NUL,
   * so a text holding one is not `NulFree` and no length lemma applies to it.
   */
  function Byte(c: char): bv8 {
    if c as int < 256 then c as int as bv8 else 0
  }

  /** The bytes of a text, one per character, without a terminator. */
  function Bytes(t: string): (r: seq<bv8>)
    ensures |r| == |t|
  {
    seq(|t|, i requires 0 <= i < |t| => Byte(t[i]))
  }

  /** No character of `t` is the NUL byte. */
  predicate NulFree(t: string) {
    forall i :: 0 <= i < |t| ==> Byte(t[i]) != Nul
  }

  /**
   * The buffer a C string literal denotes: its characters followed by the NUL
   * the compiler appends. An explicit `\0` inside the literal stays a byte of the buffer.
   */
  function Literal(t: string): (r: seq<bv8>)
    ensures Terminated(r)
  {
    assert (Bytes(t) + [Nul])[|t|] == Nul;
    Bytes(t) + [Nul]
  }

  /** The bytes of two texts written one after the other. */
  lemma BytesAppend(a: string, b: string)
    ensures Bytes(a + b) == Bytes(a) + Bytes(b)
  {
  }

  /** A literal is the bytes of its first part followed by the literal of the rest. */
  lemma LiteralAppend(a: string, b: string)
    ensures Literal(a + b) == Bytes(a) + Literal(b)
  {
    BytesAppend(a, b);
  }

  /** A NUL-free text followed by a NUL has the text's length, whatever follows the NUL. */
  lemma LengthOfText(t: string, tail: seq<bv8>)
    requires NulFree(t)
    ensures Terminated(Literal(t) + tail) && Length(Literal(t) + tail) == |t|
  {
    LengthUnique(Literal(t) + tail, |t|);
  }
}
