/** The frame grammar of `base_protocol`, stated declaratively: a frame is one
    or two header lines, a blank line, and a body line.  This is the reference
    definition the byte-level decoder is proved against. */
module Grammar {

  /** A byte of the input stream (Rust's `u8`). */
  type Byte = b: int | 0 <= b < 0x100

  const CR: Byte := 13
  const LF: Byte := 10
  const CRLF: seq<Byte> := [CR, LF]

  /** The five bytes `fooba` that both header tags start with. */
  const FOOBA: seq<Byte> := [102, 111, 111, 98, 97]
  /** `foobar` and `foobaz`: the two header tags. */
  const FOOBAR: seq<Byte> := FOOBA + [114]
  const FOOBAZ: seq<Byte> := FOOBA + [122]

  /** Bounds of `skip_count_min_max(1, 2, ...)`. */
  const MinHeaders: nat := 1
  const MaxHeaders: nat := 2

  predicate IsDigit(b: Byte) {
    '0' as int <= b <= '9' as int
  }

  predicate AllDigits(s: seq<Byte>) {
    forall i :: 0 <= i < |s| ==> IsDigit(s[i])
  }

  predicate NoCr(s: seq<Byte>) {
    forall i :: 0 <= i < |s| ==> s[i] != CR
  }

  /** One header line: `foobar <digits> CRLF` or `foobaz CRLF`.  Each of the
      one or two header slots holds either kind, in any order.  The combinator
      at main.rs:38 is written as a tuple, which in the parser library means
      a sequence (`foobar` then `foobaz` per slot); the program's own checks
      (a lone `foobar1`, a lone `foobaz`, and `foobaz` before `foobar1` all
      decode) require the per-slot choice, and that is what is modelled. */
  datatype Header = FooBar(digits: seq<Byte>) | FooBaz

  predicate ValidHeader(h: Header) {
    h.FooBar? ==> |h.digits| > 0 && AllDigits(h.digits)
  }

  predicate ValidHeaders(hs: seq<Header>) {
    forall i :: 0 <= i < |hs| ==> ValidHeader(hs[i])
  }

  /** A header line without its closing CRLF. */
  function HeaderLead(h: Header): seq<Byte> {
    match h
    case FooBar(ds) => FOOBAR + ds
    case FooBaz => FOOBAZ
  }

  function HeaderBytes(h: Header): seq<Byte> {
    HeaderLead(h) + CRLF
  }

  /** The header lines in order; the last header is the last line. */
  function HeadersBytes(hs: seq<Header>): seq<Byte> {
    if |hs| == 0 then [] else HeadersBytes(hs[..|hs| - 1]) + HeaderBytes(hs[|hs| - 1])
  }

  datatype Frame = Frame(headers: seq<Header>, body: seq<Byte>)

  predicate ValidFrame(f: Frame) {
    && MinHeaders <= |f.headers| <= MaxHeaders
    && ValidHeaders(f.headers)
    && NoCr(f.body)
  }

  /** The wire form of a frame: headers, blank line, body, CRLF. */
  function Serialize(f: Frame): seq<Byte> {
    HeadersBytes(f.headers) + CRLF + f.body + CRLF
  }

  /** Some valid frame starts with `s` and is strictly longer: more input may
      still complete a frame. */
  ghost predicate ViablePrefix(s: seq<Byte>) {
    exists f :: ValidFrame(f) && s < Serialize(f)
  }

  /** `s` starts with a complete valid frame. */
  ghost predicate HasFrame(s: seq<Byte>) {
    exists f :: ValidFrame(f) && Serialize(f) <= s
  }

  lemma HeadersBytesSnoc(hs: seq<Header>, h: Header)
    ensures HeadersBytes(hs + [h]) == HeadersBytes(hs) + HeaderBytes(h)
  {
    assert (hs + [h])[..|hs|] == hs;
  }
}
