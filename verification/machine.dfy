/** The decoder as an explicit byte-at-a-time state machine.  Each state
    names the grammar position reached and carries what has been recognised so
    far, so a decode suspended at any byte resumes from exactly that position
    (no alternative is ever backtracked). */
module Machine {
  import opened Grammar

  datatype State =
    /** At the start of a header slot, after `hs`; the separator may also
        start here once `MinHeaders` headers are in. */
    | Slot(hs: seq<Header>)
    /** The first `k` bytes of `fooba` of the next header are matched. */
    | Tag(hs: seq<Header>, k: nat)
    /** `foobar` and the digits `ds` are matched. */
    | Digits(hs: seq<Header>, ds: seq<Byte>)
    /** `foobaz` is matched; its CR is next. */
    | BazTail(hs: seq<Header>)
    /** Header `h` is matched up to the CR of its closing CRLF. */
    | HeaderCr(hs: seq<Header>, h: Header)
    /** The CR of the blank separator line is matched. */
    | SepCr(hs: seq<Header>)
    /** Inside the body; `body` holds the bytes scanned so far. */
    | Body(hs: seq<Header>, body: seq<Byte>)
    /** The body is followed by a CR; only its LF is missing. */
    | BodyCr(hs: seq<Header>, body: seq<Byte>)

  /** The state a fresh decode starts from (`AnySendPartialState::default()`). */
  const Init: State := Slot([])

  datatype StepResult = Next(state: State) | Accept(frame: Frame) | Reject

  /** Everything the state stands for: the bytes read since the start of the
      frame to reach it. */
  ghost function Render(st: State): seq<Byte> {
    match st
    case Slot(hs) => HeadersBytes(hs)
    case Tag(hs, k) => HeadersBytes(hs) + FOOBA[..if k <= |FOOBA| then k else |FOOBA|]
    case Digits(hs, ds) => HeadersBytes(hs) + FOOBAR + ds
    case BazTail(hs) => HeadersBytes(hs) + FOOBAZ
    case HeaderCr(hs, h) => HeadersBytes(hs) + HeaderLead(h) + [CR]
    case SepCr(hs) => HeadersBytes(hs) + [CR]
    case Body(hs, body) => HeadersBytes(hs) + CRLF + body
    case BodyCr(hs, body) => HeadersBytes(hs) + CRLF + body + [CR]
  }

  /** The states the machine can reach from `Init`. */
  ghost predicate Valid(st: State) {
    && ValidHeaders(st.hs)
    && match st
       case Slot(hs) => |hs| <= MaxHeaders
       case Tag(hs, k) => |hs| < MaxHeaders && 1 <= k <= |FOOBA|
       case Digits(hs, ds) => |hs| < MaxHeaders && AllDigits(ds)
       case BazTail(hs) => |hs| < MaxHeaders
       case HeaderCr(hs, h) => |hs| < MaxHeaders && ValidHeader(h)
       case SepCr(hs) => MinHeaders <= |hs| <= MaxHeaders
       case Body(hs, body) => MinHeaders <= |hs| <= MaxHeaders && NoCr(body)
       case BodyCr(hs, body) => MinHeaders <= |hs| <= MaxHeaders && NoCr(body)
  }

  /** The bytes of an unterminated body (and its CR) that a suspended decode
      leaves in the caller's buffer instead of removing them. */
  function PendingBytes(st: State): seq<Byte> {
    match st
    case Body(_, body) => body
    case BodyCr(_, body) => body + [CR]
    case _ => []
  }

  function Pending(st: State): nat {
    |PendingBytes(st)|
  }

  /** One input byte.  The header slot tries `foobar` and `foobaz` in the same
      step (they share the prefix `fooba`), so the choice between them never
      has to be undone. */
  function Step(st: State, b: Byte): (r: StepResult)
    // A frame completes only on the LF that closes the body, and it is made
    // of the headers and the body gathered so far.
    ensures r.Accept? <==> st.BodyCr? && b == LF
    ensures r.Accept? ==> r.frame == Frame(st.hs, st.body)
    // The body takes every byte except CR.
    ensures st.Body? && b != CR ==> r == Next(Body(st.hs, st.body + [b]))
  {
    match st
    case Slot(hs) =>
      if b == FOOBA[0] && |hs| < MaxHeaders then Next(Tag(hs, 1))
      else if b == CR && |hs| >= MinHeaders then Next(SepCr(hs))
      else Reject
    case Tag(hs, k) =>
      if k < |FOOBA| then
        if b == FOOBA[k] then Next(Tag(hs, k + 1)) else Reject
      else if b == FOOBAR[|FOOBA|] then Next(Digits(hs, []))
      else if b == FOOBAZ[|FOOBA|] then Next(BazTail(hs))
      else Reject
    case Digits(hs, ds) =>
      if IsDigit(b) then Next(Digits(hs, ds + [b]))
      else if b == CR && |ds| > 0 then Next(HeaderCr(hs, FooBar(ds)))
      else Reject
    case BazTail(hs) =>
      if b == CR then Next(HeaderCr(hs, FooBaz)) else Reject
    case HeaderCr(hs, h) =>
      if b == LF then Next(Slot(hs + [h])) else Reject
    case SepCr(hs) =>
      if b == LF then Next(Body(hs, [])) else Reject
    case Body(hs, body) =>
      if b == CR then Next(BodyCr(hs, body)) else Next(Body(hs, body + [b]))
    case BodyCr(hs, body) =>
      if b == LF then Accept(Frame(hs, body)) else Reject
  }

  /** A step either keeps no bytes back or keeps back one more byte than
      before: only the body and its CR are ever held back. */
  lemma StepPending(st: State, b: Byte)
    requires Step(st, b).Next?
    ensures PendingBytes(Step(st, b).state) == [] || PendingBytes(Step(st, b).state) == PendingBytes(st) + [b]
  {
  }

  /** Soundness of one step: a state reached by reading `Render(st)` moves to
      a state standing for exactly one more byte, and accepts only a valid
      frame whose wire form is everything read. */
  ghost predicate StepSoundAt(st: State, b: Byte) {
    && (Step(st, b).Next? ==> Valid(Step(st, b).state) && Render(Step(st, b).state) == Render(st) + [b])
    && (Step(st, b).Accept? ==> ValidFrame(Step(st, b).frame) && Serialize(Step(st, b).frame) == Render(st) + [b])
  }

  lemma StepSound(st: State, b: Byte)
    requires Valid(st)
    ensures StepSoundAt(st, b)
  {
    if st.HeaderCr? {
      HeaderEndSound(st.hs, st.h, b);
    } else if st.Tag? {
      TagStepSound(st.hs, st.k, b);
    } else if st.Slot? {
      SlotStepSound(st.hs, b);
    } else if st.Digits? {
      DigitsStepSound(st.hs, st.ds, b);
    } else if st.BazTail? {
      BazStepSound(st.hs, b);
    } else {
      BodyStepSound(st, b);
    }
  }

  lemma SlotStepSound(hs: seq<Header>, b: Byte)
    requires Valid(Slot(hs))
    ensures StepSoundAt(Slot(hs), b)
  {
    if b == FOOBA[0] && |hs| < MaxHeaders {
      assert FOOBA[..1] == [b];
    }
  }

  lemma DigitsStepSound(hs: seq<Header>, ds: seq<Byte>, b: Byte)
    requires Valid(Digits(hs, ds))
    ensures StepSoundAt(Digits(hs, ds), b)
  {
    if IsDigit(b) {
      assert HeadersBytes(hs) + FOOBAR + (ds + [b]) == HeadersBytes(hs) + FOOBAR + ds + [b];
      assert AllDigits(ds + [b]) by {
        forall i | 0 <= i < |ds + [b]| ensures IsDigit((ds + [b])[i]) {
          if i < |ds| {
            assert (ds + [b])[i] == ds[i];
          }
        }
      }
    }
  }

  lemma BazStepSound(hs: seq<Header>, b: Byte)
    requires Valid(BazTail(hs))
    ensures StepSoundAt(BazTail(hs), b)
  {
  }

  lemma TagStepSound(hs: seq<Header>, k: nat, b: Byte)
    requires Valid(Tag(hs, k))
    ensures StepSoundAt(Tag(hs, k), b)
  {
    if k < |FOOBA| && b == FOOBA[k] {
      assert FOOBA[..k + 1] == FOOBA[..k] + [b];
    }
  }

  lemma HeaderEndSound(hs: seq<Header>, h: Header, b: Byte)
    requires Valid(HeaderCr(hs, h))
    ensures StepSoundAt(HeaderCr(hs, h), b)
  {
    if b == LF {
      HeadersBytesSnoc(hs, h);
      assert ValidHeaders(hs + [h]) by {
        forall i | 0 <= i < |hs + [h]| ensures ValidHeader((hs + [h])[i]) {
          if i < |hs| {
            assert (hs + [h])[i] == hs[i];
          }
        }
      }
      assert Step(HeaderCr(hs, h), b) == Next(Slot(hs + [h]));
      assert HeaderBytes(h) == HeaderLead(h) + [CR] + [LF];
      assert Render(Slot(hs + [h])) == Render(HeaderCr(hs, h)) + [b];
    }
  }

  lemma BodyStepSound(st: State, b: Byte)
    requires Valid(st) && (st.SepCr? || st.Body? || st.BodyCr?)
    ensures StepSoundAt(st, b)
  {
  }

  /** Feeds a whole word to the machine.  A frame accepted before the last
      byte of the word counts as a rejection of the word. */
  function Walk(st: State, w: seq<Byte>): StepResult
    decreases |w|
  {
    if |w| == 0 then Next(st)
    else
      var r := Step(st, w[0]);
      if r.Next? then Walk(r.state, w[1..])
      else if |w| == 1 then r
      else Reject
  }

  lemma WalkCons(st: State, b: Byte, w: seq<Byte>)
    requires Step(st, b).Next?
    ensures Walk(st, [b] + w) == Walk(Step(st, b).state, w)
  {
    assert ([b] + w)[1..] == w;
  }

  lemma {:induction false} WalkAppend(st: State, u: seq<Byte>, v: seq<Byte>)
    requires Walk(st, u).Next?
    ensures Walk(st, u + v) == Walk(Walk(st, u).state, v)
    decreases |u|
  {
    if |u| > 0 {
      var r := Step(st, u[0]);
      assert r.Next?;
      assert Walk(st, u) == Walk(r.state, u[1..]);
      assert u + v == [u[0]] + (u[1..] + v);
      WalkCons(st, u[0], u[1..] + v);
      WalkAppend(r.state, u[1..], v);
    } else {
      assert u + v == v;
    }
  }

  /** From `k` matched bytes of `fooba` the rest of `fooba` leads to its end. */
  lemma {:induction false} WalkTag(hs: seq<Header>, k: nat)
    requires 1 <= k <= |FOOBA|
    ensures Walk(Tag(hs, k), FOOBA[k..]) == Next(Tag(hs, |FOOBA|))
    decreases |FOOBA| - k
  {
    if k < |FOOBA| {
      assert FOOBA[k..] == [FOOBA[k]] + FOOBA[k + 1..];
      WalkCons(Tag(hs, k), FOOBA[k], FOOBA[k + 1..]);
      WalkTag(hs, k + 1);
    }
  }

  lemma {:induction false} WalkDigits(hs: seq<Header>, ds: seq<Byte>, more: seq<Byte>)
    requires AllDigits(more)
    ensures Walk(Digits(hs, ds), more) == Next(Digits(hs, ds + more))
    decreases |more|
  {
    if |more| == 0 {
      assert ds + more == ds;
    } else {
      var b := more[0];
      assert IsDigit(b);
      assert Step(Digits(hs, ds), b) == Next(Digits(hs, ds + [b]));
      assert more == [b] + more[1..];
      WalkCons(Digits(hs, ds), b, more[1..]);
      assert AllDigits(more[1..]);
      WalkDigits(hs, ds + [b], more[1..]);
      assert ds + [b] + more[1..] == ds + more;
    }
  }

  lemma {:induction false} WalkBody(hs: seq<Header>, body: seq<Byte>, more: seq<Byte>)
    requires NoCr(more)
    ensures Walk(Body(hs, body), more) == Next(Body(hs, body + more))
    decreases |more|
  {
    if |more| == 0 {
      assert body + more == body;
    } else {
      var b := more[0];
      assert b != CR;
      assert Step(Body(hs, body), b) == Next(Body(hs, body + [b]));
      assert more == [b] + more[1..];
      WalkCons(Body(hs, body), b, more[1..]);
      assert NoCr(more[1..]);
      WalkBody(hs, body + [b], more[1..]);
      assert body + [b] + more[1..] == body + more;
    }
  }

  /** `fooba` starts a header in a slot that still has room. */
  lemma WalkFooba(hs: seq<Header>)
    requires |hs| < MaxHeaders
    ensures Walk(Slot(hs), FOOBA) == Next(Tag(hs, |FOOBA|))
  {
    assert FOOBA == [FOOBA[0]] + FOOBA[1..];
    WalkCons(Slot(hs), FOOBA[0], FOOBA[1..]);
    WalkTag(hs, 1);
  }

  /** The first `k` bytes of `fooba`, in a slot that still has room. */
  lemma {:induction false} WalkFoobaPrefix(hs: seq<Header>, k: nat)
    requires |hs| < MaxHeaders && 1 <= k <= |FOOBA|
    ensures Walk(Slot(hs), FOOBA[..k]) == Next(Tag(hs, k))
    decreases k
  {
    if k == 1 {
      assert FOOBA[..1] == [FOOBA[0]] + [];
      WalkCons(Slot(hs), FOOBA[0], []);
    } else {
      WalkFoobaPrefix(hs, k - 1);
      assert FOOBA[..k] == FOOBA[..k - 1] + [FOOBA[k - 1]];
      WalkAppend(Slot(hs), FOOBA[..k - 1], [FOOBA[k - 1]]);
      assert [FOOBA[k - 1]] == [FOOBA[k - 1]] + [];
      WalkCons(Tag(hs, k - 1), FOOBA[k - 1], []);
    }
  }

  /** The part of a header line after `fooba`. */
  lemma WalkHeaderTail(hs: seq<Header>, h: Header)
    requires ValidHeader(h)
    ensures Walk(Tag(hs, |FOOBA|), HeaderBytes(h)[|FOOBA|..]) == Next(Slot(hs + [h]))
  {
    var tag := Tag(hs, |FOOBA|);
    match h
    case FooBar(ds) =>
      var b := FOOBAR[|FOOBA|];
      assert HeaderBytes(h)[|FOOBA|..] == [b] + (ds + CRLF);
      WalkCons(tag, b, ds + CRLF);
      WalkDigits(hs, [], ds);
      assert [] + ds == ds;
      WalkAppend(Digits(hs, []), ds, CRLF);
      assert CRLF == [CR] + [LF];
      WalkCons(Digits(hs, ds), CR, [LF]);
    case FooBaz =>
      var b := FOOBAZ[|FOOBA|];
      assert HeaderBytes(h)[|FOOBA|..] == [b] + CRLF;
      WalkCons(tag, b, CRLF);
      assert CRLF == [CR] + [LF];
      WalkCons(BazTail(hs), CR, [LF]);
  }

  /** A header slot that still has room reads any valid header line. */
  lemma WalkHeader(hs: seq<Header>, h: Header)
    requires |hs| < MaxHeaders && ValidHeader(h)
    ensures Walk(Slot(hs), HeaderBytes(h)) == Next(Slot(hs + [h]))
  {
    WalkFooba(hs);
    WalkHeaderTail(hs, h);
    assert HeaderBytes(h) == FOOBA + HeaderBytes(h)[|FOOBA|..];
    WalkAppend(Slot(hs), FOOBA, HeaderBytes(h)[|FOOBA|..]);
  }

  /** The header lines of up to `MaxHeaders` valid headers lead from `Init`
      to the slot after the last of them. */
  lemma {:induction false} WalkHeaders(hs: seq<Header>)
    requires ValidHeaders(hs) && |hs| <= MaxHeaders
    ensures Walk(Init, HeadersBytes(hs)) == Next(Slot(hs))
    decreases |hs|
  {
    if |hs| > 0 {
      var front, last := hs[..|hs| - 1], hs[|hs| - 1];
      assert ValidHeaders(front) by {
        forall i | 0 <= i < |front| ensures ValidHeader(front[i]) {
          assert front[i] == hs[i];
        }
      }
      WalkHeaders(front);
      WalkAppend(Init, HeadersBytes(front), HeaderBytes(last));
      WalkHeader(front, last);
      assert front + [last] == hs;
    }
  }

  /** From the end of the body, its CRLF completes the frame. */
  lemma WalkBodyEnd(hs: seq<Header>, body: seq<Byte>)
    ensures Walk(Body(hs, body), CRLF) == Accept(Frame(hs, body))
  {
    assert CRLF == [CR] + [LF];
    WalkCons(Body(hs, body), CR, [LF]);
  }

  /** After the header lines: the blank line, the body and the CR that ends
      it leave the machine waiting for the closing LF. */
  lemma WalkToBodyCr(hs: seq<Header>, body: seq<Byte>)
    requires MinHeaders <= |hs| && NoCr(body)
    ensures Walk(Slot(hs), CRLF + body + [CR]) == Next(BodyCr(hs, body))
  {
    assert CRLF + body + [CR] == [CR] + ([LF] + (body + [CR]));
    WalkCons(Slot(hs), CR, [LF] + (body + [CR]));
    WalkCons(SepCr(hs), LF, body + [CR]);
    WalkBody(hs, [], body);
    assert [] + body == body;
    WalkAppend(Body(hs, []), body, [CR]);
    assert [CR] == [CR] + [];
    WalkCons(Body(hs, body), CR, []);
  }

  /** After the header lines: the blank line, the body and its CRLF. */
  lemma WalkAfterHeaders(hs: seq<Header>, body: seq<Byte>)
    requires MinHeaders <= |hs| && NoCr(body)
    ensures Walk(Slot(hs), CRLF + body + CRLF) == Accept(Frame(hs, body))
  {
    assert CRLF + body + CRLF == [CR] + ([LF] + (body + CRLF));
    WalkCons(Slot(hs), CR, [LF] + (body + CRLF));
    WalkCons(SepCr(hs), LF, body + CRLF);
    WalkBody(hs, [], body);
    assert [] + body == body;
    WalkAppend(Body(hs, []), body, CRLF);
    WalkBodyEnd(hs, body);
  }

  /** The machine accepts the wire form of every valid frame. */
  lemma WalkFrame(f: Frame)
    requires ValidFrame(f)
    ensures Walk(Init, Serialize(f)) == Accept(f)
  {
    WalkHeaders(f.headers);
    assert Serialize(f) == HeadersBytes(f.headers) + (CRLF + f.body + CRLF);
    WalkAppend(Init, HeadersBytes(f.headers), CRLF + f.body + CRLF);
    WalkAfterHeaders(f.headers, f.body);
  }

  /** Soundness of a walk, from `StepSound` one byte at a time. */
  lemma {:induction false} WalkSound(st: State, w: seq<Byte>)
    requires Valid(st)
    ensures Walk(st, w).Next? ==> Valid(Walk(st, w).state) && Render(Walk(st, w).state) == Render(st) + w
    ensures Walk(st, w).Accept? ==> ValidFrame(Walk(st, w).frame) && Serialize(Walk(st, w).frame) == Render(st) + w
    decreases |w|
  {
    if |w| == 0 {
      assert Render(st) + w == Render(st);
    } else {
      var r := Step(st, w[0]);
      StepSound(st, w[0]);
      if r.Next? {
        WalkSound(r.state, w[1..]);
        assert Render(st) + [w[0]] + w[1..] == Render(st) + w;
      } else if |w| == 1 {
        assert w == [w[0]];
      }
    }
  }

  /** Every valid state can still reach a complete frame: no reachable state
      is a dead end. */
  lemma Completable(st: State) returns (w: seq<Byte>)
    requires Valid(st)
    ensures |w| > 0 && Walk(st, w).Accept?
  {
    var close := CRLF + [] + CRLF;
    assert close == CRLF + CRLF;
    match st
    case Slot(hs) =>
      if |hs| == 0 {
        WalkHeader(hs, FooBaz);
        WalkAfterHeaders([FooBaz], []);
        assert hs + [FooBaz] == [FooBaz];
        WalkAppend(st, HeaderBytes(FooBaz), close);
        w := HeaderBytes(FooBaz) + close;
      } else {
        WalkAfterHeaders(hs, []);
        w := close;
      }
    case Tag(hs, k) =>
      WalkTag(hs, k);
      var tail := HeaderBytes(FooBaz)[|FOOBA|..];
      WalkHeaderTail(hs, FooBaz);
      WalkAfterHeaders(hs + [FooBaz], []);
      WalkAppend(st, FOOBA[k..], tail);
      WalkAppend(st, FOOBA[k..] + tail, close);
      w := FOOBA[k..] + tail + close;
    case Digits(hs, ds) =>
      var more: seq<Byte> := if |ds| == 0 then ['0' as int] else [];
      WalkDigits(hs, ds, more);
      var h := FooBar(ds + more);
      assert ValidHeader(h);
      assert CRLF == [CR] + [LF];
      WalkCons(Digits(hs, ds + more), CR, [LF]);
      WalkAfterHeaders(hs + [h], []);
      WalkAppend(st, more, CRLF);
      WalkAppend(st, more + CRLF, close);
      w := more + CRLF + close;
    case BazTail(hs) =>
      assert CRLF == [CR] + [LF];
      WalkCons(st, CR, [LF]);
      WalkAfterHeaders(hs + [FooBaz], []);
      WalkAppend(st, CRLF, close);
      w := CRLF + close;
    case HeaderCr(hs, h) =>
      WalkAfterHeaders(hs + [h], []);
      WalkCons(st, LF, close);
      w := [LF] + close;
    case SepCr(hs) =>
      WalkCons(st, LF, CRLF);
      WalkBodyEnd(hs, []);
      w := [LF] + CRLF;
    case Body(hs, body) =>
      WalkBodyEnd(hs, body);
      w := CRLF;
    case BodyCr(hs, body) =>
      w := [LF];
  }
}
