/**
 * The self-test table of resources/strlen.c (lines 13-14 and 29-33), stated as
 * lemmas about `Length`, which `Strlen` is proved to compute.
 */
module StringLengthVectors {
  import opened StringLength

  /** "hello world" has 11 bytes before its NUL. */
  lemma HelloWorld()
    ensures Length(Literal("hello world")) == 11
  {
    assert NulFree("hello world");
    LengthOfText("hello world", []);
    assert Literal("hello world") + [] == Literal("hello world");
  }

  /** A control character counts like any other non-NUL byte: "hello world\n" has 12. */
  lemma HelloWorldNewline()
    ensures Length(Literal("hello world\n")) == 12
  {
    assert NulFree("hello world\n");
    LengthOfText("hello world\n", []);
    assert Literal("hello world\n") + [] == Literal("hello world\n");
  }

  /** A one-character string has length 1. */
  lemma OneCharacter()
    ensures Length(Literal("1")) == 1
  {
    assert NulFree("1");
    LengthOfText("1", []);
    assert Literal("1") + [] == Literal("1");
  }

  /** The empty string and a string holding only a NUL both have length 0. */
  lemma EmptyStrings()
    ensures Length(Literal("")) == 0
    ensures Length(Literal("\0")) == 0
  {
  }

  /** Bytes after a leading NUL are ignored: "\0helloworld" has length 0. */
  lemma LeadingNul()
    ensures Length(Literal("\0helloworld")) == 0
  {
  }

  /** A NUL written into the literal ends the string early: "hello world\0" has length 11. */
  lemma TrailingNul()
    ensures Length(Literal("hello world\0")) == 11
  {
    assert NulFree("hello world");
    LengthOfText("hello world", [Nul]);
    assert Literal("hello world\0") == Literal("hello world") + [Nul];
  }

  /**
   * The 12-byte heap buffer filled by `strncpy(s, "hello world\0", 12)`:
   * eleven characters and a NUL, so the length is 11, one less than the buffer.
   */
  lemma CopiedBuffer(buffer: seq<bv8>)
    requires buffer == Literal("hello world")
    ensures |buffer| == 12 && Length(buffer) == 11
  {
    HelloWorld();
  }
}
