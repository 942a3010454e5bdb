/** The example exchanges the program's entry point checks, stated over the
    model. Each is derived from the general lemmas; the literal texts are
    only split into the pieces those lemmas speak about. */
module Scenarios {
  import opened Wrappers
  import opened Grammar
  import opened Machine
  import opened Engine
  import opened Driver

  /** A string of ASCII characters as the bytes it encodes (the examples
      use no other characters; wider ones keep their low eight bits). */
  function Ascii(s: string): seq<Byte> {
    seq(|s|, i requires 0 <= i < |s| => s[i] as int % 0x100)
  }

  const Body: seq<Byte> := Ascii("abcdefg")
  const One: Header := FooBar(Ascii("1"))
  const Twelve: Header := FooBar(Ascii("12"))

  // How the example literals split into header lines and the frame's tail.

  lemma TextBothHeaders()
    ensures Ascii("foobar1\r\nfoobaz\r\n\r\nabcdefg\r\n") == Ascii("foobar1\r\n") + Ascii("foobaz\r\n") + Ascii("\r\nabcdefg\r\n")
  {}

  lemma TextSwapped()
    ensures Ascii("foobaz\r\nfoobar1\r\n\r\nabcdefg\r\n") == Ascii("foobaz\r\n") + Ascii("foobar1\r\n") + Ascii("\r\nabcdefg\r\n")
  {}

  lemma TextSingle()
    ensures Ascii("foobar1\r\n\r\nabcdefg\r\n") == Ascii("foobar1\r\n") + Ascii("\r\nabcdefg\r\n")
    ensures Ascii("foobaz\r\n\r\nabcdefg\r\n") == Ascii("foobaz\r\n") + Ascii("\r\nabcdefg\r\n")
  {}

  lemma TextDigitSplit()
    ensures Ascii("foobar12\r\n") == Ascii("foobar1") + Ascii("2\r\n")
  {}

  lemma TextDigitSplitRest()
    ensures Ascii("2\r\nfoobaz\r\n\r\nabcdefg\r\n") == Ascii("2\r\n") + Ascii("foobaz\r\n\r\nabcdefg\r\n")
  {}

  lemma TextMisspelled()
    ensures Ascii("foobac\r\n\r\nabcdefg\r\n") == Ascii("fooba") + Ascii("c") + Ascii("\r\n\r\nabcdefg\r\n")
  {}

  lemma TextStray()
    ensures Ascii("foobar1\r\nj\r\nabcdefg\r\n") == Ascii("foobar1\r\n") + Ascii("j") + Ascii("\r\nabcdefg\r\n")
  {}

  lemma TextSecondTag()
    ensures Ascii("foobaz\r\nfoobcc") == Ascii("foobaz\r\n") + Ascii("foob") + Ascii("c") + Ascii("c")
  {}

  lemma TextPieces()
    ensures HeaderBytes(One) == Ascii("foobar1\r\n")
    ensures HeaderBytes(Twelve) == Ascii("foobar12\r\n")
    ensures HeaderBytes(FooBaz) == Ascii("foobaz\r\n")
    ensures FOOBA == Ascii("fooba") && FOOBA[..4] == Ascii("foob")
  {}

  lemma TextTail()
    ensures CRLF + Body + CRLF == Ascii("\r\nabcdefg\r\n")
  {
    assert Body == [97, 98, 99, 100, 101, 102, 103];
    assert Ascii("\r\nabcdefg\r\n") == [13, 10, 97, 98, 99, 100, 101, 102, 103, 13, 10];
  }

  lemma ExampleFramesValid()
    ensures ValidFrame(Frame([One, FooBaz], Body)) && ValidFrame(Frame([FooBaz, One], Body))
    ensures ValidFrame(Frame([One], Body)) && ValidFrame(Frame([FooBaz], Body))
    ensures ValidFrame(Frame([Twelve, FooBaz], Body))
  {
    assert IsDigit(One.digits[0]);
    assert IsDigit(Twelve.digits[0]) && IsDigit(Twelve.digits[1]);
    assert forall i :: 0 <= i < |Body| ==> Body[i] != CR;
  }

  lemma OneHeader(h: Header)
    ensures HeadersBytes([h]) == HeaderBytes(h)
  {
    HeadersBytesSnoc([], h);
    assert [] + [h] == [h];
  }

  lemma TwoHeaders(h1: Header, h2: Header)
    ensures HeadersBytes([h1, h2]) == HeaderBytes(h1) + HeaderBytes(h2)
  {
    OneHeader(h1);
    HeadersBytesSnoc([h1], h2);
    assert [h1] + [h2] == [h1, h2];
  }

  /** A frame carrying the example body, as header lines followed by the
      blank line, the body and its CRLF. */
  lemma WireText(hs: seq<Header>)
    ensures Serialize(Frame(hs, Body)) == HeadersBytes(hs) + Ascii("\r\nabcdefg\r\n")
  {
    TextTail();
    assert HeadersBytes(hs) + CRLF + Body + CRLF == HeadersBytes(hs) + (CRLF + Body + CRLF);
  }

  /** A literal that is exactly one valid frame decodes to its body and is
      removed whole. */
  lemma DecodesTo(f: Frame, text: seq<Byte>)
    requires ValidFrame(f) && Serialize(f) == text
    ensures Decode(text) == Success(Some(f.body))
    ensures StreamDecode(Init, text) == Success(Progress(Some(f.body), |text|, Init))
  {
    DecodeRoundTrip(f, []);
    assert text + [] == text;
  }

  lemma ExampleText()
    ensures Serialize(Frame([One, FooBaz], Body)) == Ascii("foobar1\r\nfoobaz\r\n\r\nabcdefg\r\n")
    ensures Serialize(Frame([FooBaz, One], Body)) == Ascii("foobaz\r\nfoobar1\r\n\r\nabcdefg\r\n")
  {
    TextPieces();
    TextBothHeaders();
    TextSwapped();
    WireText([One, FooBaz]);
    WireText([FooBaz, One]);
    TwoHeaders(One, FooBaz);
    TwoHeaders(FooBaz, One);
  }

  /** `foobar1` then `foobaz`: decodes to the body and removes all 28 bytes. */
  lemma BothHeadersDecode()
    ensures Decode(Ascii("foobar1\r\nfoobaz\r\n\r\nabcdefg\r\n")) == Success(Some(Body))
    ensures StreamDecode(Init, Ascii("foobar1\r\nfoobaz\r\n\r\nabcdefg\r\n")).value.removed == 28
  {
    ExampleFramesValid();
    ExampleText();
    DecodesTo(Frame([One, FooBaz], Body), Ascii("foobar1\r\nfoobaz\r\n\r\nabcdefg\r\n"));
  }

  /** The same headers in the other order decode to the same body. */
  lemma SwappedHeadersDecode()
    ensures Decode(Ascii("foobaz\r\nfoobar1\r\n\r\nabcdefg\r\n")) == Success(Some(Body))
  {
    ExampleFramesValid();
    ExampleText();
    DecodesTo(Frame([FooBaz, One], Body), Ascii("foobaz\r\nfoobar1\r\n\r\nabcdefg\r\n"));
  }

  /** One header of either kind is enough. */
  lemma SingleHeaderDecode()
    ensures Decode(Ascii("foobar1\r\n\r\nabcdefg\r\n")) == Success(Some(Body))
    ensures Decode(Ascii("foobaz\r\n\r\nabcdefg\r\n")) == Success(Some(Body))
  {
    ExampleFramesValid();
    TextPieces();
    TextSingle();
    WireText([One]);
    WireText([FooBaz]);
    OneHeader(One);
    OneHeader(FooBaz);
    DecodesTo(Frame([One], Body), Ascii("foobar1\r\n\r\nabcdefg\r\n"));
    DecodesTo(Frame([FooBaz], Body), Ascii("foobaz\r\n\r\nabcdefg\r\n"));
  }

  /** `foobac` matches neither tag: the error names the `c` at offset 5. */
  lemma MisspelledTagFails()
    ensures Decode(Ascii("foobac\r\n\r\nabcdefg\r\n")) == Failure(Unexpected(5, 'c' as int))
  {
    TextPieces();
    TextMisspelled();
    assert HeadersBytes([]) + FOOBA[..|FOOBA|] == Ascii("fooba");
    assert Ascii("c") == ['c' as int];
    TagMismatch([], |FOOBA|, 'c' as int, Ascii("\r\n\r\nabcdefg\r\n"));
  }

  /** A `j` where a header or the blank line must start is an error at the `j`. */
  lemma StrayByteAfterHeadersFails()
    ensures Decode(Ascii("foobar1\r\nj\r\nabcdefg\r\n")) == Failure(Unexpected(9, 'j' as int))
  {
    TextPieces();
    TextStray();
    OneHeader(One);
    ExampleFramesValid();
    assert Ascii("j") == ['j' as int];
    SeparatorExpected([One], 'j' as int, Ascii("\r\nabcdefg\r\n"));
  }

  /** `foobcc` in the second slot diverges from `fooba` at offset 12. */
  lemma SecondTagDivergesFails()
    ensures Decode(Ascii("foobaz\r\nfoobcc")) == Failure(Unexpected(12, 'c' as int))
  {
    TextPieces();
    TextSecondTag();
    OneHeader(FooBaz);
    ExampleFramesValid();
    assert Ascii("c") == ['c' as int];
    TagMismatch([FooBaz], 4, 'c' as int, ['c' as int]);
  }

  /** Input cut before the body's CRLF, after the blank line, after the
      headers, after a tag, or inside a tag is incomplete. */
  lemma TruncatedInputSuspends()
    ensures Decode(Ascii("foobar1\r\nfoobaz\r\n\r\nabcdefg")) == Success(None)
    ensures Decode(Ascii("foobar1\r\nfoobaz\r\n\r\n")) == Success(None)
    ensures Decode(Ascii("foobar1\r\nfoobaz\r\n")) == Success(None)
    ensures Decode(Ascii("foobar1\r\nfoobaz")) == Success(None)
    ensures Decode(Ascii("foobaz\r\nfoob")) == Success(None)
  {
    var f := Frame([One, FooBaz], Body);
    var g := Frame([FooBaz, One], Body);
    ExampleFramesValid();
    ExampleText();
    assert Ascii("foobar1\r\nfoobaz\r\n\r\nabcdefg\r\n")[..26] == Ascii("foobar1\r\nfoobaz\r\n\r\nabcdefg");
    assert Ascii("foobar1\r\nfoobaz\r\n\r\nabcdefg\r\n")[..19] == Ascii("foobar1\r\nfoobaz\r\n\r\n");
    assert Ascii("foobar1\r\nfoobaz\r\n\r\nabcdefg\r\n")[..17] == Ascii("foobar1\r\nfoobaz\r\n");
    assert Ascii("foobar1\r\nfoobaz\r\n\r\nabcdefg\r\n")[..15] == Ascii("foobar1\r\nfoobaz");
    assert Ascii("foobaz\r\nfoobar1\r\n\r\nabcdefg\r\n")[..12] == Ascii("foobaz\r\nfoob");
    PrefixSuspends(f, 26);
    PrefixSuspends(f, 19);
    PrefixSuspends(f, 17);
    PrefixSuspends(f, 15);
    PrefixSuspends(g, 12);
  }

  lemma ConcatTwo(a: seq<Byte>, b: seq<Byte>)
    ensures Concat([a]) == a && Concat([a, b]) == a + b
  {
    assert [a, b][..1] == [a];
    assert [a][..0] == [];
  }

  /** The split examples carry the two-digit header `foobar12`. */
  lemma SplitText()
    ensures Serialize(Frame([Twelve, FooBaz], Body)) == Ascii("foobar12\r\n") + Ascii("foobaz\r\n\r\nabcdefg\r\n")
  {
    TextPieces();
    TextSingle();
    WireText([Twelve, FooBaz]);
    TwoHeaders(Twelve, FooBaz);
  }

  /** Cutting inside the digits of `foobar12` gives the same bytes. */
  lemma DigitSplitText()
    ensures Ascii("foobar1") + Ascii("2\r\nfoobaz\r\n\r\nabcdefg\r\n")
            == Ascii("foobar12\r\n") + Ascii("foobaz\r\n\r\nabcdefg\r\n")
  {
    TextDigitSplit();
    TextDigitSplitRest();
  }

  /** Fed whole, or split after a header, or split inside the digit run of
      `foobar12`, the chunked decoder yields the body. */
  method PartialExamples() returns (whole: Result<Option<seq<Byte>>, DecodeError>,
                                    afterHeader: Result<Option<seq<Byte>>, DecodeError>,
                                    insideDigits: Result<Option<seq<Byte>>, DecodeError>)
    ensures whole == Success(Some(Body))
    ensures afterHeader == Success(Some(Body))
    ensures insideDigits == Success(Some(Body))
  {
    var text := Ascii("foobar1\r\nfoobaz\r\n\r\nabcdefg\r\n");
    var a := Ascii("foobar12\r\n");
    var b := Ascii("foobaz\r\n\r\nabcdefg\r\n");
    var c := Ascii("foobar1");
    var d := Ascii("2\r\nfoobaz\r\n\r\nabcdefg\r\n");
    BothHeadersDecode();
    ExampleFramesValid();
    SplitText();
    DigitSplitText();
    DecodesTo(Frame([Twelve, FooBaz], Body), a + b);
    ConcatTwo(text, text);
    ConcatTwo(a, b);
    ConcatTwo(c, d);
    ghost var dropped, failed;
    whole, dropped, failed := DecodePartial([text]);
    afterHeader, dropped, failed := DecodePartial([a, b]);
    insideDigits, dropped, failed := DecodePartial([c, d]);
  }
}
