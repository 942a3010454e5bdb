/** The resumable decode engine: runs the state machine over a buffer from a
    carried state, and the observable contract of `combine::stream::decode`
    with a partial state, which reports how many leading bytes the caller may
    drop. */
module Engine {
  import opened Wrappers
  import opened Grammar
  import opened Machine

  /** An unexpected byte and its offset in the buffer that was decoded. */
  datatype DecodeError = Unexpected(offset: nat, found: Byte)

  datatype Outcome =
    /** The buffer ended while a frame was still possible. */
    | Incomplete(state: State)
    | Failed(error: DecodeError)
    /** A frame ends just before offset `consumed`. */
    | Complete(frame: Frame, consumed: nat)

  /** Reads `buf` from offset `i` on, starting in `st`, until a frame is
      complete, a byte is rejected or the buffer ends. */
  function Run(st: State, buf: seq<Byte>, i: nat): (o: Outcome)
    requires i <= |buf|
    ensures o.Failed? ==> i <= o.error.offset < |buf| && buf[o.error.offset] == o.error.found
    ensures o.Complete? ==> i < o.consumed <= |buf|
    decreases |buf| - i
  {
    if i == |buf| then Incomplete(st)
    else
      match Step(st, buf[i])
      case Reject => Failed(Unexpected(i, buf[i]))
      case Accept(f) => Complete(f, i + 1)
      case Next(st') => Run(st', buf, i + 1)
  }

  /** Moves the offsets of an outcome `d` bytes further into the stream. */
  function Shift(o: Outcome, d: nat): Outcome {
    match o
    case Incomplete(_) => o
    case Failed(Unexpected(off, b)) => Failed(Unexpected(off + d, b))
    case Complete(f, n) => Complete(f, n + d)
  }

  /** The run never looks at bytes before its start offset: dropping a prefix
      only moves the reported offsets. */
  lemma {:induction false} RunSuffix(st: State, buf: seq<Byte>, i: nat, j: nat)
    requires j <= i <= |buf|
    ensures Run(st, buf, i) == Shift(Run(st, buf[j..], i - j), j)
    decreases |buf| - i
  {
    if i < |buf| {
      SuffixIndex(buf, i, j);
      var r := Step(st, buf[i]);
      if r.Next? {
        RunSuffix(r.state, buf, i + 1, j);
      }
    }
  }

  lemma SuffixIndex(buf: seq<Byte>, i: nat, j: nat)
    requires j <= i < |buf|
    ensures i - j < |buf[j..]| && buf[j..][i - j] == buf[i]
  {
  }

  /** Appending bytes changes nothing once a run has failed or completed; if
      it was suspended, the longer run carries on from the suspended state. */
  lemma {:induction false} RunExtend(st: State, a: seq<Byte>, b: seq<Byte>, i: nat)
    requires i <= |a|
    ensures Run(st, a, i).Incomplete? ==> Run(st, a + b, i) == Run(Run(st, a, i).state, a + b, |a|)
    ensures !Run(st, a, i).Incomplete? ==> Run(st, a + b, i) == Run(st, a, i)
    decreases |a| - i
  {
    if i < |a| {
      assert (a + b)[i] == a[i];
      match Step(st, a[i])
      case Reject =>
      case Accept(_) =>
      case Next(st') => RunExtend(st', a, b, i + 1);
    }
  }

  /** A run that fails at offset `o` was still suspended on the bytes before
      `o`, and the state it had reached rejects the byte at `o`. */
  lemma RunBeforeFailure(st: State, buf: seq<Byte>, i: nat)
    requires i <= |buf| && Run(st, buf, i).Failed?
    ensures i <= Run(st, buf, i).error.offset
    ensures Run(st, buf[..Run(st, buf, i).error.offset], i).Incomplete?
    ensures Step(Run(st, buf[..Run(st, buf, i).error.offset], i).state, Run(st, buf, i).error.found).Reject?
  {
    var off := Run(st, buf, i).error.offset;
    var pre := buf[..off];
    assert pre + buf[off..] == buf;
    RunExtend(st, pre, buf[off..], i);
    assert buf[off..][0] == buf[off];
  }

  /** Soundness of a run: a suspended run stands for everything read, and a
      completed one found a valid frame whose wire form is exactly the bytes
      read up to `consumed`. */
  lemma {:induction false} RunSound(st: State, buf: seq<Byte>, i: nat)
    requires i <= |buf| && Valid(st)
    ensures Run(st, buf, i).Incomplete? ==>
              Valid(Run(st, buf, i).state) && Render(Run(st, buf, i).state) == Render(st) + buf[i..]
    ensures Run(st, buf, i).Complete? ==>
              ValidFrame(Run(st, buf, i).frame)
              && Serialize(Run(st, buf, i).frame) == Render(st) + buf[i..Run(st, buf, i).consumed]
  {
    if Run(st, buf, i).Incomplete? {
      RunSoundSuspended(st, buf, i);
    } else if Run(st, buf, i).Complete? {
      RunSoundComplete(st, buf, i);
    }
  }

  lemma {:induction false} RunSoundSuspended(st: State, buf: seq<Byte>, i: nat)
    requires i <= |buf| && Valid(st) && Run(st, buf, i).Incomplete?
    ensures Valid(Run(st, buf, i).state) && Render(Run(st, buf, i).state) == Render(st) + buf[i..]
    decreases |buf| - i
  {
    if i == |buf| {
      AppendNothing(Render(st), buf);
    } else {
      var st' := Step(st, buf[i]).state;
      StepSound(st, buf[i]);
      RunSoundSuspended(st', buf, i + 1);
      AppendStep(Render(st), buf, i, |buf|);
      assert buf[i + 1..|buf|] == buf[i + 1..];
    }
  }

  lemma {:induction false} RunSoundComplete(st: State, buf: seq<Byte>, i: nat)
    requires i <= |buf| && Valid(st) && Run(st, buf, i).Complete?
    ensures ValidFrame(Run(st, buf, i).frame)
    ensures Serialize(Run(st, buf, i).frame) == Render(st) + buf[i..Run(st, buf, i).consumed]
    decreases |buf| - i
  {
    var r := Step(st, buf[i]);
    StepSound(st, buf[i]);
    if r.Accept? {
      AppendOne(Render(st), buf, i);
    } else {
      RunSoundComplete(r.state, buf, i + 1);
      AppendStep(Render(st), buf, i, Run(st, buf, i).consumed);
    }
  }

  lemma AppendNothing(seen: seq<Byte>, buf: seq<Byte>)
    ensures seen + buf[|buf|..] == seen
  {
  }

  lemma AppendOne(seen: seq<Byte>, buf: seq<Byte>, i: nat)
    requires i < |buf|
    ensures seen + [buf[i]] == seen + buf[i..i + 1]
  {
    assert buf[i..i + 1] == [buf[i]];
  }

  lemma AppendStep(seen: seq<Byte>, buf: seq<Byte>, i: nat, n: nat)
    requires i < n <= |buf|
    ensures (seen + [buf[i]]) + buf[i + 1..n] == seen + buf[i..n]
  {
    assert buf[i..n] == [buf[i]] + buf[i + 1..n];
  }

  /** A suspended run leaves the bytes its state still needs at the end of the
      buffer, provided the bytes the starting state needed sat just before the
      start offset. */
  lemma {:induction false} RunPending(st: State, buf: seq<Byte>, i: nat)
    requires Pending(st) <= i <= |buf| && buf[i - Pending(st)..i] == PendingBytes(st)
    requires Run(st, buf, i).Incomplete?
    ensures Pending(Run(st, buf, i).state) <= |buf|
    ensures buf[|buf| - Pending(Run(st, buf, i).state)..] == PendingBytes(Run(st, buf, i).state)
    decreases |buf| - i
  {
    if i < |buf| {
      var st' := Step(st, buf[i]).state;
      assert Run(st, buf, i) == Run(st', buf, i + 1);
      StepPending(st, buf[i]);
      PendingStep(buf, i, PendingBytes(st), PendingBytes(st'));
      RunPending(st', buf, i + 1);
    } else {
      assert Run(st, buf, i).state == st;
    }
  }

  /** A suspended run holds back at most the bytes it started holding back
      plus the bytes it read. */
  lemma {:induction false} RunPendingBound(st: State, buf: seq<Byte>, i: nat)
    requires i <= |buf| && Run(st, buf, i).Incomplete?
    ensures Pending(Run(st, buf, i).state) <= Pending(st) + (|buf| - i)
    decreases |buf| - i
  {
    if i < |buf| {
      StepPending(st, buf[i]);
      RunPendingBound(Step(st, buf[i]).state, buf, i + 1);
    }
  }

  lemma PendingStep(buf: seq<Byte>, i: nat, p: seq<Byte>, p': seq<Byte>)
    requires |p| <= i < |buf| && buf[i - |p|..i] == p
    requires p' == [] || p' == p + [buf[i]]
    ensures |p'| <= i + 1 && buf[i + 1 - |p'|..i + 1] == p'
  {
    if p' != [] {
      assert buf[i + 1 - |p'|..i + 1] == buf[i - |p|..i] + [buf[i]];
    }
  }

  /** A run over a buffer that holds the word `w` at offset `i` does what a
      walk over `w` does. */
  lemma {:induction false} RunWalk(st: State, w: seq<Byte>, buf: seq<Byte>, i: nat)
    requires i + |w| <= |buf| && buf[i..i + |w|] == w
    ensures Walk(st, w).Next? ==> Run(st, buf, i) == Run(Walk(st, w).state, buf, i + |w|)
    ensures Walk(st, w).Accept? ==> Run(st, buf, i) == Complete(Walk(st, w).frame, i + |w|)
    decreases |w|
  {
    if |w| > 0 {
      assert buf[i] == w[0];
      var r := Step(st, w[0]);
      if r.Next? {
        assert buf[i + 1..i + 1 + |w[1..]|] == w[1..];
        RunWalk(r.state, w[1..], buf, i + 1);
      }
    }
  }

  /** Round trip: the run from `Init` over the wire form of a valid frame,
      followed by anything, completes with that frame just past its CRLF. */
  lemma RunFrame(f: Frame, rest: seq<Byte>)
    requires ValidFrame(f)
    ensures Run(Init, Serialize(f) + rest, 0) == Complete(f, |Serialize(f)|)
  {
    var buf := Serialize(f) + rest;
    assert buf[0..|Serialize(f)|] == Serialize(f);
    WalkFrame(f);
    RunWalk(Init, Serialize(f), buf, 0);
  }

  /** What one call of `combine::stream::decode` reports: the decoded output
      if a frame completed, how many leading bytes of `buf` the caller may
      drop, and the state to carry into the next call. */
  datatype Progress = Progress(output: Option<seq<Byte>>, removed: nat, state: State)

  /** One decode call from a carried state.  The first `Pending(st)` bytes of
      `buf` are the ones the state left behind last time, so reading resumes
      after them.  A completed frame is removed up to just past its closing
      CRLF; a suspended run removes everything but the unterminated body its
      state still holds. */
  function StreamDecode(st: State, buf: seq<Byte>): (r: Result<Progress, DecodeError>)
    requires Pending(st) <= |buf|
    ensures r.Success? ==> r.value.removed <= |buf|
    ensures r.Success? && r.value.output.None? ==> r.value.removed + Pending(r.value.state) == |buf|
    ensures r.Success? && r.value.output.Some? ==> Pending(st) < r.value.removed
    ensures r.Failure? ==> Pending(st) <= r.error.offset < |buf| && buf[r.error.offset] == r.error.found
  {
    var o := Run(st, buf, Pending(st));
    if o.Incomplete? then
      RunPendingBound(st, buf, Pending(st));
      Success(Progress(None, |buf| - Pending(o.state), o.state))
    else if o.Complete? then
      Success(Progress(Some(o.frame.body), o.consumed, Init))
    else
      Failure(o.error)
  }
}
