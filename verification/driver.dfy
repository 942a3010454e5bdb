/** The two drivers of the decoder in `main.rs`: `decode`, which parses one
    whole buffer, and `decode_partial`, which feeds chunks one at a time into
    an accumulator, carrying the partial state between calls. */
module Driver {
  import opened Wrappers
  import opened Grammar
  import opened Machine
  import opened Engine

  /** `decode`: one call from a fresh state on the whole buffer.
      `Success(None)` asks for more input; `Success(Some(body))` is a decoded
      frame's body. */
  function Decode(src: seq<Byte>): (r: Result<Option<seq<Byte>>, DecodeError>)
    ensures r.Failure? ==> r.error.offset < |src| && src[r.error.offset] == r.error.found
  {
    match StreamDecode(Init, src)
    case Failure(e) => Failure(e)
    case Success(p) => Success(p.output)
  }

  /** Round trip: the wire form of any valid frame, followed by anything,
      decodes to that frame's body, and the decoder reports the frame's whole
      length (up to and including the body's CRLF) as removed. */
  lemma DecodeRoundTrip(f: Frame, rest: seq<Byte>)
    requires ValidFrame(f)
    ensures Decode(Serialize(f) + rest) == Success(Some(f.body))
    ensures StreamDecode(Init, Serialize(f) + rest) == Success(Progress(Some(f.body), |Serialize(f)|, Init))
  {
    RunFrame(f, rest);
  }

  /** A decoded body belongs to a valid frame that is a prefix of the input:
      it holds no CR, it is exactly the bytes between the blank line and the
      next CRLF, and the removed length is the frame's length. */
  lemma DecodeSound(src: seq<Byte>)
    requires Decode(src).Success? && Decode(src).value.Some?
    ensures StreamDecode(Init, src).value.removed <= |src|
    ensures exists f :: ValidFrame(f) && Serialize(f) == src[..StreamDecode(Init, src).value.removed]
                        && f.body == Decode(src).value.value
  {
    RunSoundComplete(Init, src, 0);
    var o := Run(Init, src, 0);
    assert Render(Init) + src[0..o.consumed] == src[..o.consumed];
  }

  /** Decoding is final: once a buffer decodes to a body or to an error,
      appending bytes does not change the result. */
  lemma DecodeFinal(a: seq<Byte>, b: seq<Byte>)
    requires Decode(a) != Success(None)
    ensures Decode(a + b) == Decode(a)
  {
    RunExtend(Init, a, b, 0);
  }

  /** The decoder finds a body exactly when the input starts with a valid
      frame, and then it is that frame's body, whichever frame it is. */
  lemma DecodeCompleteIff(src: seq<Byte>)
    ensures (Decode(src).Success? && Decode(src).value.Some?) <==> HasFrame(src)
    ensures forall f :: ValidFrame(f) && Serialize(f) <= src ==> Decode(src) == Success(Some(f.body))
  {
    forall f | ValidFrame(f) && Serialize(f) <= src
      ensures Decode(src) == Success(Some(f.body))
    {
      assert src == Serialize(f) + src[|Serialize(f)|..];
      DecodeRoundTrip(f, src[|Serialize(f)|..]);
    }
    if Decode(src).Success? && Decode(src).value.Some? {
      DecodeSound(src);
      var n := StreamDecode(Init, src).value.removed;
      assert src[..n] <= src;
    }
  }

  /** The decoder asks for more input exactly when the input is a proper
      prefix of some valid frame: it never reports an error while a frame is
      still possible, and never suspends when none is. */
  lemma DecodeIncompleteIff(src: seq<Byte>)
    ensures Decode(src) == Success(None) <==> ViablePrefix(src)
  {
    if Run(Init, src, 0).Incomplete? {
      SuspendedIsViable(src);
    }
    if ViablePrefix(src) {
      ViableIsSuspended(src);
    }
  }

  lemma SuspendedIsViable(src: seq<Byte>)
    requires Run(Init, src, 0).Incomplete?
    ensures ViablePrefix(src)
  {
    var st := Run(Init, src, 0).state;
    RunSoundSuspended(Init, src, 0);
    assert Render(Init) + src[0..] == src;
    var w := Completable(st);
    WalkSound(st, w);
    var f := Walk(st, w).frame;
    assert src < Serialize(f);
  }

  lemma ViableIsSuspended(src: seq<Byte>)
    requires ViablePrefix(src)
    ensures Run(Init, src, 0).Incomplete?
  {
    var f :| ValidFrame(f) && src < Serialize(f);
    var t := Serialize(f)[|src|..];
    assert src + t == Serialize(f);
    RunFrame(f, []);
    assert Serialize(f) + [] == Serialize(f);
    RunExtend(Init, src, t, 0);
  }

  /** The decoder reports an error exactly when the input neither starts
      with a valid frame nor can still grow into one. */
  lemma DecodeFailureIff(src: seq<Byte>)
    ensures Decode(src).Failure? <==> !HasFrame(src) && !ViablePrefix(src)
  {
    DecodeCompleteIff(src);
    DecodeIncompleteIff(src);
  }

  /** The error names the first byte after which no frame is possible: the
      input before it could still become a frame, the input up to and
      including it cannot, and it is the byte at the reported offset. */
  lemma DecodeFailureAt(src: seq<Byte>)
    requires Decode(src).Failure?
    ensures ViablePrefix(src[..Decode(src).error.offset])
    ensures !ViablePrefix(src[..Decode(src).error.offset + 1])
    ensures !HasFrame(src[..Decode(src).error.offset + 1])
  {
    var off := Decode(src).error.offset;
    RunBeforeFailure(Init, src, 0);
    var pre := src[..off];
    DecodeIncompleteIff(pre);
    var o := Run(Init, pre, 0);
    var upto := src[..off + 1];
    assert upto == pre + [src[off]];
    RunExtend(Init, pre, [src[off]], 0);
    assert Run(Init, upto, 0) == Run(o.state, upto, off);
    assert upto[off] == src[off];
    DecodeFailureIff(upto);
  }

  /** The two header kinds may come in either order: swapping them changes
      nothing about the decoded body. */
  lemma OrderIndependence(h1: Header, h2: Header, body: seq<Byte>, rest: seq<Byte>)
    requires ValidHeader(h1) && ValidHeader(h2) && NoCr(body)
    ensures Decode(Serialize(Frame([h1, h2], body)) + rest) == Success(Some(body))
    ensures Decode(Serialize(Frame([h2, h1], body)) + rest) == Success(Some(body))
  {
    DecodeRoundTrip(Frame([h1, h2], body), rest);
    DecodeRoundTrip(Frame([h2, h1], body), rest);
  }

  /** The header block holds at least one header: input that starts with the
      blank line is rejected at its first byte. */
  lemma AtLeastOneHeader(rest: seq<Byte>)
    ensures Decode(CRLF + rest) == Failure(Unexpected(0, CR))
  {
  }

  /** The header block holds at most `MaxHeaders` headers: the first byte of a
      third header is rejected, even though it would start a valid header. */
  lemma AtMostTwoHeaders(hs: seq<Header>, h: Header, rest: seq<Byte>)
    requires |hs| == MaxHeaders && ValidHeaders(hs)
    ensures Decode(HeadersBytes(hs) + HeaderBytes(h) + rest)
            == Failure(Unexpected(|HeadersBytes(hs)|, FOOBA[0]))
  {
    var tail := HeaderBytes(h)[1..] + rest;
    assert HeaderBytes(h)[0] == FOOBA[0];
    assert HeadersBytes(hs) + HeaderBytes(h) + rest == HeadersBytes(hs) + [] + [FOOBA[0]] + tail;
    RejectAfterHeaders(hs, [], FOOBA[0], tail);
  }

  /** Every proper prefix of a valid frame's wire form asks for more input:
      input that stops inside a header, after the headers, after the blank
      line or inside the body is never an error. */
  lemma PrefixSuspends(f: Frame, n: nat)
    requires ValidFrame(f) && n < |Serialize(f)|
    ensures Decode(Serialize(f)[..n]) == Success(None)
  {
    assert Serialize(f)[..n] < Serialize(f);
    DecodeIncompleteIff(Serialize(f)[..n]);
  }

  /** Feeding a suspended state no new bytes suspends again, removes nothing
      and keeps the state. */
  lemma EmptyChunkNoProgress(st: State)
    ensures StreamDecode(st, PendingBytes(st)) == Success(Progress(None, 0, st))
  {
  }

  /** After valid headers `hs`, the word `w` reaches a state that rejects
      `b`: the error is reported at `b`. */
  lemma RejectAfterHeaders(hs: seq<Header>, w: seq<Byte>, b: Byte, rest: seq<Byte>)
    requires ValidHeaders(hs) && |hs| <= MaxHeaders
    requires Walk(Slot(hs), w).Next? && Step(Walk(Slot(hs), w).state, b).Reject?
    ensures Decode(HeadersBytes(hs) + w + [b] + rest) == Failure(Unexpected(|HeadersBytes(hs)| + |w|, b))
  {
    var lead := HeadersBytes(hs) + w;
    Regroup(HeadersBytes(hs), w, b, rest);
    WalkHeaders(hs);
    WalkAppend(Init, HeadersBytes(hs), w);
    RejectAfterWalk(lead, b, rest);
  }

  lemma Regroup(a: seq<Byte>, w: seq<Byte>, b: Byte, rest: seq<Byte>)
    ensures a + w + [b] + rest == (a + w) + ([b] + rest)
  {
  }

  /** From the start, the word `lead` reaches a state that rejects `b`. */
  lemma RejectAfterWalk(lead: seq<Byte>, b: Byte, rest: seq<Byte>)
    requires Walk(Init, lead).Next? && Step(Walk(Init, lead).state, b).Reject?
    ensures Decode(lead + ([b] + rest)) == Failure(Unexpected(|lead|, b))
  {
    var buf := lead + ([b] + rest);
    assert buf[0..|lead|] == lead;
    RunWalk(Init, lead, buf, 0);
    assert buf[|lead|] == b;
  }

  /** A header tag that leaves `fooba` before its fifth byte, or follows
      `fooba` with neither `r` nor `z`, is an error at the first byte that
      diverges from both tags (`foobac`, `foobcc`). */
  lemma TagMismatch(hs: seq<Header>, k: nat, b: Byte, rest: seq<Byte>)
    requires ValidHeaders(hs) && |hs| < MaxHeaders && 1 <= k <= |FOOBA|
    requires k < |FOOBA| ==> b != FOOBA[k]
    requires k == |FOOBA| ==> b != FOOBAR[|FOOBA|] && b != FOOBAZ[|FOOBA|]
    ensures Decode(HeadersBytes(hs) + FOOBA[..k] + [b] + rest)
            == Failure(Unexpected(|HeadersBytes(hs)| + k, b))
  {
    WalkFoobaPrefix(hs, k);
    RejectAfterHeaders(hs, FOOBA[..k], b, rest);
  }

  /** `foobar` needs at least one digit before its CRLF. */
  lemma DigitRequired(hs: seq<Header>, rest: seq<Byte>)
    requires ValidHeaders(hs) && |hs| < MaxHeaders
    ensures Decode(HeadersBytes(hs) + FOOBAR + [CR] + rest)
            == Failure(Unexpected(|HeadersBytes(hs)| + |FOOBAR|, CR))
  {
    WalkFooba(hs);
    var r := [FOOBAR[|FOOBA|]];
    assert r == r + [];
    WalkCons(Tag(hs, |FOOBA|), FOOBAR[|FOOBA|], []);
    assert FOOBAR == FOOBA + r;
    WalkAppend(Slot(hs), FOOBA, r);
    RejectAfterHeaders(hs, FOOBAR, CR, rest);
  }

  /** After the header slots, a byte that starts neither another header (while
      a slot is free) nor the blank line is an error at that byte. */
  lemma SeparatorExpected(hs: seq<Header>, b: Byte, rest: seq<Byte>)
    requires ValidHeaders(hs) && MinHeaders <= |hs| <= MaxHeaders
    requires b != CR && (|hs| < MaxHeaders ==> b != FOOBA[0])
    ensures Decode(HeadersBytes(hs) + [b] + rest) == Failure(Unexpected(|HeadersBytes(hs)|, b))
  {
    assert HeadersBytes(hs) + [] == HeadersBytes(hs);
    RejectAfterHeaders(hs, [], b, rest);
  }

  /** The CR after the body must be followed by LF. */
  lemma BodyEndNeedsLf(hs: seq<Header>, body: seq<Byte>, b: Byte, rest: seq<Byte>)
    requires ValidHeaders(hs) && MinHeaders <= |hs| <= MaxHeaders && NoCr(body) && b != LF
    ensures Decode(HeadersBytes(hs) + (CRLF + body + [CR]) + [b] + rest)
            == Failure(Unexpected(|HeadersBytes(hs)| + |body| + 3, b))
  {
    var w := CRLF + body + [CR];
    WalkToBodyCr(hs, body);
    RejectAfterHeaders(hs, w, b, rest);
  }

  /** Every byte that arrived in `chunks`, in order. */
  function Concat(chunks: seq<seq<Byte>>): seq<Byte> {
    if |chunks| == 0 then [] else Concat(chunks[..|chunks| - 1]) + chunks[|chunks| - 1]
  }

  lemma {:induction false} ConcatSplit(chunks: seq<seq<Byte>>, k: nat)
    requires k <= |chunks|
    ensures Concat(chunks) == Concat(chunks[..k]) + Concat(chunks[k..])
    decreases |chunks|
  {
    if k < |chunks| {
      var front := chunks[..|chunks| - 1];
      ConcatSplit(front, k);
      assert front[..k] == chunks[..k];
      assert chunks[k..][..|chunks[k..]| - 1] == front[k..];
    } else {
      assert chunks[..k] == chunks;
    }
  }

  /** Resuming from a suspended state on the retained buffer plus a new
      chunk does what a run over everything received would do, with every
      offset counted from the retained buffer instead. */
  lemma ResumeOnRetained(whole: seq<Byte>, st: State, retained: seq<Byte>, dropped: nat, chunk: seq<Byte>)
    requires Run(Init, whole, 0) == Incomplete(st)
    requires dropped <= |whole| && retained == whole[dropped..] && retained == PendingBytes(st)
    ensures Run(Init, whole + chunk, 0) == Shift(Run(st, retained + chunk, Pending(st)), dropped)
  {
    var buf := whole + chunk;
    RunExtend(Init, whole, chunk, 0);
    assert Run(Init, buf, 0) == Run(st, buf, |whole|);
    var tail, j := buf[dropped..], |whole| - dropped;
    SliceAppend(whole, chunk, dropped);
    assert j == |retained|;
    RunSuffix(st, buf, |whole|, dropped);
    assert Run(st, buf, |whole|) == Shift(Run(st, tail, j), dropped);
  }

  lemma SliceAppend(a: seq<Byte>, b: seq<Byte>, d: nat)
    requires d <= |a|
    ensures (a + b)[d..] == a[d..] + b
  {
  }

  lemma ConcatSnoc(chunks: seq<seq<Byte>>, k: nat)
    requires k < |chunks|
    ensures Concat(chunks[..k + 1]) == Concat(chunks[..k]) + chunks[k]
  {
    assert chunks[..k + 1][..k] == chunks[..k];
  }

  lemma SliceTwice(a: seq<Byte>, d: nat, e: nat)
    requires d + e <= |a|
    ensures a[d..][e..] == a[d + e..]
  {
  }

  /** Removing `e` bytes from the accumulator that already lacks the first `d`
      bytes of `a` leaves what is left of `a + b` after `d + e` bytes. */
  lemma DropTwice(a: seq<Byte>, b: seq<Byte>, d: nat, e: nat)
    requires d <= |a| && e <= |a[d..] + b|
    ensures d + e <= |a + b| && (a[d..] + b)[e..] == (a + b)[d + e..]
  {
    SliceAppend(a, b, d);
    SliceTwice(a + b, d, e);
  }

  /** One pass of the `decode_partial` loop that suspends again keeps the
      loop's invariant: everything received so far still runs to the carried
      state, and the accumulator is exactly what that state holds back. */
  lemma SuspendedPass(chunks: seq<seq<Byte>>, k: nat, st: State, retained: seq<Byte>, dropped: nat)
    requires k < |chunks|
    requires Run(Init, Concat(chunks[..k]), 0) == Incomplete(st)
    requires dropped <= |Concat(chunks[..k])| && retained == Concat(chunks[..k])[dropped..]
    requires retained == PendingBytes(st)
    requires StreamDecode(st, retained + chunks[k]).Success? && StreamDecode(st, retained + chunks[k]).value.output.None?
    ensures var p := StreamDecode(st, retained + chunks[k]).value;
            && Run(Init, Concat(chunks[..k + 1]), 0) == Incomplete(p.state)
            && dropped + p.removed <= |Concat(chunks[..k + 1])|
            && (retained + chunks[k])[p.removed..] == Concat(chunks[..k + 1])[dropped + p.removed..]
            && (retained + chunks[k])[p.removed..] == PendingBytes(p.state)
  {
    var whole, chunk := Concat(chunks[..k]), chunks[k];
    ConcatSnoc(chunks, k);
    var cur := retained + chunk;
    var p := StreamDecode(st, cur).value;
    var o := Run(st, cur, Pending(st));
    assert o.Incomplete? && p.state == o.state;
    ResumeOnRetained(whole, st, retained, dropped, chunk);
    DropTwice(whole, chunk, dropped, p.removed);
    RetainedAfterPass(st, retained, chunk);
  }

  /** What a suspending pass leaves in the accumulator is what its new state
      holds back. */
  lemma RetainedAfterPass(st: State, retained: seq<Byte>, chunk: seq<Byte>)
    requires retained == PendingBytes(st)
    requires StreamDecode(st, retained + chunk).Success? && StreamDecode(st, retained + chunk).value.output.None?
    ensures var p := StreamDecode(st, retained + chunk).value;
            (retained + chunk)[p.removed..] == PendingBytes(p.state)
  {
    var cur := retained + chunk;
    assert cur[0..Pending(st)] == PendingBytes(st);
    RunPending(st, cur, Pending(st));
  }

  /** A pass that completes a frame or fails ends the decode: the one-shot
      decode of all bytes, received now or later, gives the same answer. */
  lemma FinalPass(chunks: seq<seq<Byte>>, k: nat, st: State, retained: seq<Byte>, dropped: nat)
    requires k < |chunks|
    requires Run(Init, Concat(chunks[..k]), 0) == Incomplete(st)
    requires dropped <= |Concat(chunks[..k])| && retained == Concat(chunks[..k])[dropped..]
    requires retained == PendingBytes(st)
    requires StreamDecode(st, retained + chunks[k]).Failure? || StreamDecode(st, retained + chunks[k]).value.output.Some?
    ensures var res := StreamDecode(st, retained + chunks[k]);
            && (res.Failure? ==> Decode(Concat(chunks)) == Failure(Unexpected(res.error.offset + dropped, res.error.found)))
            && (res.Success? ==> Decode(Concat(chunks)) == Success(res.value.output))
  {
    var whole := Concat(chunks[..k]);
    ConcatSnoc(chunks, k);
    ResumeOnRetained(whole, st, retained, dropped, chunks[k]);
    ConcatSplit(chunks, k + 1);
    DecodeFinal(Concat(chunks[..k + 1]), Concat(chunks[k + 1..]));
  }

  /** A failing pass fails inside its own chunk: the accumulator it was given
      starts where the bytes held back by the carried state begin. */
  lemma FailedPass(chunks: seq<seq<Byte>>, k: nat, st: State, retained: seq<Byte>, dropped: nat)
    requires k < |chunks|
    requires Run(Init, Concat(chunks[..k]), 0) == Incomplete(st)
    requires dropped <= |Concat(chunks[..k])| && retained == Concat(chunks[..k])[dropped..]
    requires retained == PendingBytes(st)
    requires StreamDecode(st, retained + chunks[k]).Failure?
    ensures dropped == |Concat(chunks[..k])| - Pending(st)
    ensures var e := StreamDecode(st, retained + chunks[k]).error;
            |Concat(chunks[..k])| - dropped <= e.offset < |Concat(chunks[..k + 1])| - dropped
  {
    ConcatSnoc(chunks, k);
  }

  /** `decode_partial`: appends each chunk to the accumulator, decodes it from
      the carried state, and drops the prefix the decoder removed.  It returns
      at the first chunk that completes a frame or fails.

      Chunk invariance: whatever the split, the result is the one-shot
      `Decode` of all bytes received, except that an error offset counts from
      the accumulator of the failing call. That call handles chunk `failed`;
      the chunks before it left the decoder suspended, and the accumulator
      starts `dropped` bytes into the stream, where the bytes that suspended
      state holds back begin. The error lies in the failing chunk. */
  method DecodePartial(chunks: seq<seq<Byte>>)
    returns (r: Result<Option<seq<Byte>>, DecodeError>, ghost dropped: nat, ghost failed: nat)
    ensures r.Success? ==> Decode(Concat(chunks)) == r
    ensures r.Failure? ==> Decode(Concat(chunks)) == Failure(Unexpected(r.error.offset + dropped, r.error.found))
    ensures r.Failure? ==>
              && failed < |chunks|
              && Run(Init, Concat(chunks[..failed]), 0).Incomplete?
              && dropped == |Concat(chunks[..failed])| - Pending(Run(Init, Concat(chunks[..failed]), 0).state)
              && |Concat(chunks[..failed])| - dropped <= r.error.offset < |Concat(chunks[..failed + 1])| - dropped
  {
    var state := Init;
    var current: seq<Byte> := [];
    dropped, failed := 0, 0;
    for k := 0 to |chunks|
      invariant Run(Init, Concat(chunks[..k]), 0) == Incomplete(state)
      invariant dropped <= |Concat(chunks[..k])| && current == Concat(chunks[..k])[dropped..]
      invariant current == PendingBytes(state)
    {
      var res := StreamDecode(state, current + chunks[k]);
      if res.Failure? || res.value.output.Some? {
        FinalPass(chunks, k, state, current, dropped);
        if res.Failure? {
          FailedPass(chunks, k, state, current, dropped);
        }
        failed := k;
        r := if res.Failure? then Failure(res.error) else Success(res.value.output);
        return;
      }
      SuspendedPass(chunks, k, state, current, dropped);
      current := (current + chunks[k])[res.value.removed..];
      dropped := dropped + res.value.removed;
      state := res.value.state;
    }
    assert chunks[..|chunks|] == chunks;
    r := Success(None);
  }
}
