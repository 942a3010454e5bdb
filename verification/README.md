# Resumable frame decoder

A model of the frame decoder in `main.rs` and proofs about it. The program
parses a small line-oriented frame format with the `combine` parser
library. A frame is:

- one or two header lines, each either `foobar` followed by one or more ASCII
  digits, or `foobaz`, and each ended by CRLF;
- then a blank line (CRLF);
- then a body, which is every byte up to the next CR;
- then CRLF.

The decoder can be suspended at any byte and resumed when more input
arrives. `decode` runs it once over a whole buffer. `decode_partial` feeds
chunks into an accumulator, calls the decoder after each chunk, carries the
partial state between calls, and drops the prefix the decoder reports as
removed.

The project has six modules:

- `Grammar` (grammar.dfy) defines the reference grammar: `Header`, `Frame`,
  `ValidFrame` and `Serialize`, the wire form. It also defines
  `ViablePrefix` ("more input may still complete a frame") and `HasFrame`
  ("a complete frame is at the front").
- `Machine` (machine.dfy) holds the decoder as a byte-at-a-time state
  machine. Its state records the grammar position and what was matched so
  far, so a decode suspended at any byte resumes where it stopped.
- `Engine` (engine.dfy) runs the machine over a buffer from a carried state.
  `StreamDecode` is one call of the library's partial-state `decode`. It
  returns the output, the removed length and the state to carry.
- `Driver` (driver.dfy) holds `Decode` and `DecodePartial` and the
  properties of both.
- `Scenarios` (scenarios.dfy) derives the checks in `main` from the general
  lemmas.
- `Wrappers` (wrappers.dfy) holds `Option` and `Result`.

The main results:

- `Decode` is exact with respect to the grammar:
  - it returns a body exactly when the input starts with a valid frame;
  - it asks for more input exactly when the input is a proper prefix of a
    valid frame;
  - it fails exactly when neither holds, and the error names the first byte
    after which no frame is possible.
- `DecodePartial` is chunk-invariant. However the input is cut, it gives the
  one-shot result on everything received. The one difference is that an error
  offset counts from the accumulator of the failing call.

These results are stated of the model. The parser library compares each
literal only once all its bytes are present. "## Left out" lists, member by
member, where that makes the program suspend or report a different offset.

Errors are modelled as an offset and the unexpected byte. The program turns
these into a message with `make_err_readable`.

## Model

| member | source | states |
|---|---|---|
| Machine.Step | main.rs:19-51 | One byte of `base_protocol`: a frame completes only on the LF after the body's CR, and it is the headers and body gathered so far; the body takes every byte but CR. `StepSound` and `WalkFrame` state that the machine follows the grammar in both directions |
| Machine.StepSound | main.rs:19-51 | From a reachable state, one byte either reaches another reachable state that stands for exactly one more byte of a valid frame's prefix, or completes a frame that is valid and whose wire form is exactly the bytes read |
| Machine.StepPending | main.rs:45-49 | A step holds back either nothing or the bytes held before plus the new byte; only the unterminated body and its CR are ever held back |
| Machine.WalkFoobaPrefix | main.rs:26-29 | While a header slot is free, any prefix of the shared tag `fooba` is matched without committing to `foobar` or `foobaz` |
| Machine.WalkDigits | main.rs:27 | Any run of digits after `foobar` is absorbed and recorded, however long |
| Machine.WalkHeader | main.rs:26-29 | A valid header line of either kind in a free slot returns to the start of the next slot with that header recorded |
| Machine.WalkHeaders | main.rs:38 | Any one or two valid header lines, in any order, are accepted one after another from the start |
| Machine.WalkBody | main.rs:46 | Any CR-free run of bytes in the body is absorbed into the body |
| Machine.WalkAfterHeaders | main.rs:40-49 | After at least one header: the blank line, a CR-free body and CRLF complete exactly the frame with those headers and that body |
| Machine.WalkFrame | main.rs:19-51 | The wire form of every valid frame is accepted at its last byte, yielding that frame |
| Machine.WalkSound | main.rs:19-51 | Any word read from a reachable state stays a prefix of a valid frame's wire form, and a completion yields a valid frame whose wire form is what was read |
| Machine.Completable | main.rs:19-51 | Every reachable state can still be completed to a frame, so a suspension never hides an input that can no longer succeed |
| Engine.Run | main.rs:72-73 | A failure names a byte inside the unread part of the buffer, and that byte is the one found; a completion ends inside the buffer, after the start |
| Engine.RunSuffix | main.rs:92-97 | A run never looks at bytes before its start offset: dropping a prefix of the buffer only shifts the reported offsets |
| Engine.RunExtend | main.rs:72-73 | Appending input does not change a run that failed or completed; a suspended run continues from its suspended state |
| Engine.RunBeforeFailure | main.rs:72-73 | A run that fails at an offset was suspended on the bytes before it, and its state there rejects the byte found |
| Engine.RunSound | main.rs:19-51 | A suspended run stands for everything read; a completed run found a valid frame whose wire form is exactly the bytes read up to the reported end |
| Engine.RunPending | main.rs:45-49 | If the bytes the starting state holds back sit just before the start offset, a suspended run leaves the bytes its final state holds back at the end of the buffer |
| Engine.RunPendingBound | main.rs:45-49 | A suspended run holds back at most what it held at the start plus what it read |
| Engine.RunFrame | main.rs:19-51 | The run from the initial state over a valid frame's wire form, followed by anything, completes with that frame just past its closing CRLF |
| Engine.StreamDecode | main.rs:72-74 | The removed length never exceeds the buffer. A suspended call removes everything except what its state holds back. A completed call removes past the resumed part. An error names a byte of the buffer after the resumed part |
| Driver.Decode | main.rs:68-81 | An error names a byte inside the input, at the reported offset |
| Driver.DecodeRoundTrip | main.rs:68-81 | The wire form of any valid frame, followed by anything, decodes to that frame's body, and the removed length is the frame's length |
| Driver.DecodeSound | main.rs:45-49 | A decoded body is the body of a valid frame whose wire form is the removed prefix of the input, so it holds no CR and the removed length never exceeds the input |
| Driver.DecodeFinal | main.rs:68-81 | Once an input decodes to a body or an error, appending bytes does not change the result |
| Driver.DecodeCompleteIff | main.rs:68-81 | A body is returned if and only if the input starts with a valid frame, and then it is that frame's body |
| Driver.DecodeIncompleteIff | main.rs:77-78 | `Ok(None)` is returned if and only if the input is a proper prefix of some valid frame |
| Driver.DecodeFailureIff | main.rs:72-73 | An error is returned if and only if the input neither starts with a frame nor can grow into one |
| Driver.DecodeFailureAt | main.rs:72-73 | The error is at the first byte after which no frame is possible: the input before it is a viable prefix, and the input up to and including it is neither viable nor a frame |
| Driver.OrderIndependence | main.rs:38 | Two headers decode to the same body in either order |
| Driver.AtLeastOneHeader | main.rs:38 | Input that starts with the blank line is rejected at its first byte, the CR |
| Driver.AtMostTwoHeaders | main.rs:38 | After two headers, the first byte of a third header is rejected at its offset, although it would start a valid header |
| Driver.PrefixSuspends | main.rs:45-49 | Every proper prefix of a valid frame's wire form decodes to `Ok(None)`, wherever it is cut |
| Driver.EmptyChunkNoProgress | main.rs:88-100 | Resuming on exactly the bytes a state holds back suspends again, removes nothing and keeps the state |
| Driver.RejectAfterHeaders | main.rs:19-51 | After valid headers, a byte rejected by the state reached is reported at its offset |
| Driver.TagMismatch | main.rs:26-29 | A header tag that leaves `fooba`, or that follows `fooba` with neither `r` nor `z`, is an error at the first diverging byte, not a suspension |
| Driver.DigitRequired | main.rs:27 | `foobar` immediately followed by CR is an error at the CR |
| Driver.SeparatorExpected | main.rs:38-43 | After one or two headers, a byte that is neither the blank line's CR nor, while a slot is free, the start of a header is an error at that byte |
| Driver.BodyEndNeedsLf | main.rs:46-48 | A CR after the body must be followed by LF; any other byte is an error at that byte |
| Driver.ConcatSplit | main.rs:87-89 | The bytes of a chunk list are the bytes of any front part followed by those of the rest |
| Driver.ResumeOnRetained | main.rs:87-97 | Resuming on the retained accumulator plus a new chunk gives the run over all bytes received, with offsets counted from the accumulator |
| Driver.SuspendedPass | main.rs:87-100 | A suspending pass of the loop keeps its invariant: all bytes received run to the carried state, and the accumulator is what that state holds back |
| Driver.RetainedAfterPass | main.rs:93-97 | What a suspending pass leaves in the accumulator after `split_off` is exactly what its new state holds back |
| Driver.FinalPass | main.rs:99-102 | A pass that completes or fails gives the one-shot result on all chunks, received now or later; the error offset is shifted by the bytes dropped before |
| Driver.DecodePartial | main.rs:83-106 | Chunk invariance: for any split of the input, the result equals `Decode` of the concatenation. An error offset counts from the failing call's accumulator: the chunks before the failing one leave the decoder suspended, the accumulator starts where the bytes that state holds back begin, and the error lies in the failing chunk |
| Scenarios.BothHeadersDecode | main.rs:117-120 | `foobar1`, `foobaz`, blank line, `abcdefg`: decodes to `abcdefg` and removes all 28 bytes |
| Scenarios.SwappedHeadersDecode | main.rs:121-124 | The same frame with the headers swapped decodes to `abcdefg` |
| Scenarios.SingleHeaderDecode | main.rs:125-132 | A frame with only `foobar1`, or only `foobaz`, decodes to `abcdefg` |
| Scenarios.MisspelledTagFails | main.rs:133-135 | `foobac` is an error, as the program asserts; the model reports it at offset 5 with the byte `c` |
| Scenarios.StrayByteAfterHeadersFails | main.rs:136-138 | `j` after the first header is rejected at offset 9 with the byte `j` |
| Scenarios.TruncatedInputSuspends | main.rs:140-163 | The five truncated inputs decode to `Ok(None)` |
| Scenarios.SecondTagDivergesFails | main.rs:165-167 | `foobcc` in the second slot is an error, as the program asserts; the model reports it at offset 12 with the byte `c` |
| Scenarios.PartialExamples | main.rs:169-182 | The chunked decoder yields `abcdefg` for all three chunk lists: one chunk, a split after a header, and a split inside the digits of `foobar12` |

## Left out

- `make_err_readable` (main.rs:54-66) turns the library's error into a string. The model keeps the error as the offset and the unexpected byte. The string, its rendering of bytes as characters, and the library's list of expected items are left out.
- `println!` calls (main.rs:41, 74, 90, 95) are output only and are left out.
- The internals of `combine` are left out. These are `any_send_partial_state`, `attempt`, `range`, `take_while`, the `easy::Stream` error type and the partial-state encoding. The decoder is modelled as a parser that can be resumed at every byte and that reports an error at the first byte that rules out a frame. The program's checks ask only whether a result is an error and, for one input, which byte is unexpected (main.rs:133-138, 165-167). The library's `range` compares a literal only once all its bytes are present and reports a mismatch at the literal's first byte. The members below state the model's exact behaviour, which differs from the library's in the ways listed next.
- Driver.DecodeRoundTrip: a frame with one header followed by fewer than six further bytes, such as `foobaz\r\n\r\n\r\n`, decodes to its body in the model. The library tries `range("foobar")` on the free second slot, cannot compare fewer than six bytes, and may return `Ok(None)` instead.
- Driver.DecodeCompleteIff: for the same reason, a body is promised on such short one-header frames where the library may still suspend.
- Driver.DecodeIncompleteIff: for the same reason, the library may return `Ok(None)` on some inputs that are not proper prefixes of a frame: short one-header frames, and short tails that diverge from a literal.
- Driver.DecodeFailureAt: the offset is the model's, the first byte that rules out a frame. The library reports a mismatching literal at the literal's first byte instead: `foobac` at 0, `foobaz\r\nfoobcc` at 8, a body CR followed by `x` at the CR.
- Driver.TagMismatch: the offset is the diverging byte; the library names the first byte of the tag, and may suspend instead while fewer than six bytes of the tag have arrived.
- Driver.BodyEndNeedsLf: the offset is the byte after the CR; the library names the CR.
- Driver.DecodeFailureIff: the direction "neither a frame nor a viable prefix, so an error" is the model's. The library may suspend on a short non-viable tail, for example `foobaz\r\n\r\n\rx`, where the free second slot's `range("foobar")` sees only four bytes.
- Driver.AtLeastOneHeader: the error at offset 0 is the model's. With fewer than four bytes after the leading CRLF, the first slot's `range("foobar")` cannot compare, and the library may return `Ok(None)`.
- Driver.RejectAfterHeaders: the offset is the model's rejecting byte. The library reports a mismatch at the first byte of the literal it was comparing, for example the `f` that starts a slot when the separator `range` takes over after `attempt` backtracks, and it may suspend while a literal is incomplete.
- Driver.DigitRequired: in a second slot the library's `attempt` backtracks and the separator `range` reports the slot's `f`, not the CR. In either slot it may suspend while fewer than six tag bytes are present.
- Driver.SeparatorExpected: the library may suspend instead of failing in two cases. One is a single header with fewer than five bytes after the rejected byte, where the free slot's `range("foobar")` cannot compare. The other is two headers with nothing after it, where the separator `range` needs two bytes.
- The removed length of a suspended call is a modelling choice. The library does not document it. The model removes everything read except the unterminated body and its CR. Those stay in the buffer, and the carried state resumes after them.
- Driver.DecodePartial: chunk invariance and the error offsets of `decode_partial`, which count from the accumulator (main.rs:94), both depend on that removed-length choice. A library that removes less on a suspended call reports larger offsets.
- The header slots follow the program's own checks: each slot is `foobar` or `foobaz`. The combinator at main.rs:38 is written as a tuple, which the library reads as a sequence. The checks at main.rs:121-132 require the per-slot choice.
- The program prints the removed length but never checks it. The first example's frame is 28 bytes long and is removed up to its closing CRLF (`Scenarios.BothHeadersDecode`).
- Error offsets from `decode_partial` count from the accumulator of the failing call (main.rs:94), not from the start of the stream. `Driver.DecodePartial` states both offsets and relates them through the number of dropped bytes.
- There is no body size limit and no distinct "missing header" error kind; the code has neither.
- The commented-out parsers and statements (main.rs:33-37, 39, 75, 85, 104, 184 onwards) are not modelled.
