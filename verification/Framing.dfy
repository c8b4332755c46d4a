/** The NDJSON front end: lines framed from a chunked byte stream, and the loop that answers them. */
module Framing {
  import opened Wrappers
  import opened Sequences

  newtype Byte = b: int | 0 <= b < 256

  type Bytes = seq<Byte>

  const NEWLINE: Byte := 10
  const CARRIAGE_RETURN: Byte := 13
  const MAX_ENVELOPE_BYTES := 64 * 1024

  // ---- what a stream of bytes means

  /** Where the first newline stands. */
  function Position(s: Bytes): (p: Option<nat>)
    ensures p.None? ==> NEWLINE !in s
    ensures p.Some? ==> p.value < |s| && s[p.value] == NEWLINE && NEWLINE !in s[..p.value]
  {
    if s == [] then None
    else if s[0] == NEWLINE then Some(0)
    else
      var rest := Position(s[1..]);
      assert s == [s[0]] + s[1..];
      if rest.None? then None
      else
        assert s[..rest.value + 1] == [s[0]] + s[1..][..rest.value];
        Some(rest.value + 1)
  }

  /** The first newline of a stream is met after the part without one. */
  lemma PositionBeyond(s: Bytes, k: nat, p: nat)
    requires k + p < |s| && NEWLINE !in s[..k] && s[k + p] == NEWLINE && NEWLINE !in s[k..k + p]
    ensures Position(s) == Some(k + p)
  {
    forall i | 0 <= i < k + p ensures s[i] != NEWLINE {
      if i < k { assert s[i] == s[..k][i]; } else { assert s[i] == s[k..k + p][i - k]; }
    }
    var q := Position(s).value;
    assert forall i :: 0 <= i < q ==> s[i] == s[..q][i];
  }

  function WithoutReturn(line: Bytes): Bytes {
    if line != [] && line[|line| - 1] == CARRIAGE_RETURN then line[..|line| - 1] else line
  }

  /** The first line's content: a carriage return is dropped only before a newline. */
  function Payload(s: Bytes): Bytes {
    match Position(s)
    case Some(p) => WithoutReturn(s[..p])
    case None => s
  }

  function AfterLine(s: Bytes): Bytes {
    match Position(s)
    case Some(p) => s[p + 1..]
    case None => []
  }

  datatype Frame = Complete(payload: Bytes) | Oversized

  function FrameOf(payload: Bytes): Frame {
    if |payload| > MAX_ENVELOPE_BYTES then Oversized else Complete(payload)
  }

  function FramesOf(lines: seq<Bytes>): seq<Frame> {
    if lines == [] then [] else [FrameOf(lines[0])] + FramesOf(lines[1..])
  }

  /** Every line of the stream, in order. */
  function Frames(s: Bytes): seq<Frame>
    decreases |s|
  {
    if s == [] then [] else [FrameOf(Payload(s))] + Frames(AfterLine(s))
  }

  function Ending(crlf: bool): Bytes {
    if crlf then [CARRIAGE_RETURN, NEWLINE] else [NEWLINE]
  }

  function Encode(lines: seq<Bytes>, crlf: bool): Bytes {
    if lines == [] then [] else lines[0] + Ending(crlf) + Encode(lines[1..], crlf)
  }

  ghost predicate Sendable(line: Bytes, crlf: bool) {
    && NEWLINE !in line
    && (!crlf ==> line == [] || line[|line| - 1] != CARRIAGE_RETURN)
  }

  lemma EncodeOne(line: Bytes, rest: Bytes, crlf: bool)
    requires Sendable(line, crlf)
    ensures Payload(line + Ending(crlf) + rest) == line && AfterLine(line + Ending(crlf) + rest) == rest
  {
    var s := line + Ending(crlf) + rest;
    var p := |line| + |Ending(crlf)| - 1;
    assert s[..p] == line + Ending(crlf)[..|Ending(crlf)| - 1];
    PositionBeyond(s, p, 0);
    assert s[p + 1..] == rest;
    if crlf { assert s[..p][..p - 1] == line; }
  }

  /** Lines written one per row, with either line ending, are read back as they were. */
  lemma {:induction false} FramesOfEncode(lines: seq<Bytes>, crlf: bool)
    requires forall line :: line in lines ==> Sendable(line, crlf)
    ensures Frames(Encode(lines, crlf)) == FramesOf(lines)
  {
    if lines != [] {
      EncodeOne(lines[0], Encode(lines[1..], crlf), crlf);
      FramesOfEncode(lines[1..], crlf);
    }
  }

  /** A line that could not be sent that way is not read back as it was. */
  lemma UnsendableIsChanged(line: Bytes, crlf: bool)
    requires !Sendable(line, crlf)
    ensures Payload(Encode([line], crlf)) != line
  {
    var s := Encode([line], crlf);
    assert Encode([line][1..], crlf) == [];
    assert s == line + Ending(crlf);
    if NEWLINE in line {
      var k :| 0 <= k < |line| && line[k] == NEWLINE;
      var p := Position(s).value;
      assert forall i :: 0 <= i < p ==> s[..p][i] == s[i];
      assert |Payload(s)| <= p < |line|;
    } else {
      PositionBeyond(s, |line|, 0);
      assert s[..|line|] == line;
    }
  }

  // ---- the reader

  function Flatten(chunks: seq<Bytes>): Bytes {
    if chunks == [] then [] else chunks[0] + Flatten(chunks[1..])
  }

  /** A buffered reader: what is still to come, in the chunks it will arrive in. */
  class ChunkReader {
    var chunks: seq<Bytes>

    ghost predicate Valid()
      reads this
    {
      forall c :: c in chunks ==> c != []
    }

    ghost function Remaining(): Bytes
      reads this
    {
      Flatten(chunks)
    }

    constructor (chunks: seq<Bytes>)
      requires forall c :: c in chunks ==> c != []
      ensures Valid() && Remaining() == Flatten(chunks)
    {
      this.chunks := chunks;
    }

    /** The next chunk; empty only at the end. */
    method FillBuf() returns (chunk: Bytes)
      requires Valid()
      ensures chunk <= Remaining() && (chunk == [] <==> Remaining() == [])
      ensures if chunks == [] then chunk == [] else chunk == chunks[0]
    {
      if chunks == [] {
        chunk := [];
      } else {
        assert chunks[0] in chunks;
        chunk := chunks[0];
      }
    }

    /** Drops the front of the chunk last shown. */
    method Consume(n: nat)
      requires Valid() && chunks != [] && n <= |chunks[0]|
      modifies this
      ensures Valid() && old(Remaining()) == old(chunks[0][..n]) + Remaining()
      ensures |Remaining()| == |old(Remaining())| - n
    {
      var first, rest := chunks[0], chunks[1..];
      chunks := if n == |first| then rest else [first[n..]] + rest;
      if n < |first| { assert chunks[1..] == rest; }
      assert forall c :: c in rest ==> c in old(chunks);
      assert first == first[..n] + first[n..];
    }
  }

  /** The retained part of a frame, and the most it ever held. */
  class FrameBuffer {
    var bytes: Bytes
    ghost var peak: nat

    constructor ()
      ensures bytes == [] && peak == 0
    {
      bytes := [];
      peak := 0;
    }

    method Clear()
      modifies this
      ensures bytes == [] && peak == old(peak)
    {
      bytes := [];
    }

    method Extend(more: Bytes)
      modifies this
      ensures bytes == old(bytes) + more
      ensures peak == if |bytes| > old(peak) then |bytes| else old(peak)
    {
      bytes := bytes + more;
      peak := if |bytes| > peak then |bytes| else peak;
    }

    method Pop()
      requires bytes != []
      modifies this
      ensures bytes == old(bytes[..|bytes| - 1]) && peak == old(peak)
    {
      bytes := bytes[..|bytes| - 1];
    }

    /** Drops the newline, and a carriage return before it. */
    method DropEnding()
      requires bytes != []
      modifies this
      ensures bytes == WithoutReturn(old(bytes[..|bytes| - 1])) && peak == old(peak)
    {
      Pop();
      if bytes != [] && bytes[|bytes| - 1] == CARRIAGE_RETURN {
        Pop();
      }
    }
  }

  /** After `k` bytes of a line: the first of them are retained, and the rest only noticed. */
  ghost predicate Retained(s: Bytes, k: nat, bytes: Bytes, oversized: bool) {
    k <= |s| && bytes == s[..Min(k, MAX_ENVELOPE_BYTES + 2)] && (oversized <==> k > MAX_ENVELOPE_BYTES + 2)
  }

  lemma RetainMore(s: Bytes, k: nat, chunk: Bytes, bytes: Bytes, oversized: bool, consumed: nat)
    requires Retained(s, k, bytes, oversized) && consumed <= |chunk| && k + |chunk| <= |s| && chunk == s[k..k + |chunk|]
    ensures var retained := Min(consumed, MAX_ENVELOPE_BYTES + 2 - |bytes|);
      Retained(s, k + consumed, bytes + chunk[..retained], oversized || retained < consumed)
  {
    var retained := Min(consumed, MAX_ENVELOPE_BYTES + 2 - |bytes|);
    assert chunk[..retained] == s[k..k + retained];
    if retained > 0 {
      assert bytes + chunk[..retained] == s[..k + retained];
    } else {
      assert bytes + chunk[..retained] == bytes;
    }
  }

  /** `k` bytes of a line are read and `rest` is to come. */
  ghost predicate Reading(s: Bytes, k: nat, bytes: Bytes, oversized: bool, rest: Bytes) {
    k <= |s| && NEWLINE !in s[..k] && Retained(s, k, bytes, oversized) && rest == s[k..]
  }

  /** `chunk` follows the first `k` bytes, and `consumed` bytes of it are taken. */
  ghost predicate Took(s: Bytes, k: nat, chunk: Bytes, consumed: nat, bytes: Bytes, oversized: bool, rest: Bytes) {
    && k + |chunk| <= |s| && NEWLINE !in s[..k] && chunk == s[k..k + |chunk|] && consumed <= |chunk|
    && Retained(s, k + consumed, bytes, oversized) && rest == s[k + consumed..]
  }

  lemma Takes(s: Bytes, k: nat, chunk: Bytes, consumed: nat, bytes: Bytes, over: bool, rest: Bytes, rest': Bytes)
    requires Reading(s, k, bytes, over, rest) && chunk <= rest && consumed <= |chunk| && rest == chunk[..consumed] + rest'
    ensures |bytes| <= MAX_ENVELOPE_BYTES + 2
    ensures var retained := Min(consumed, MAX_ENVELOPE_BYTES + 2 - |bytes|);
      && Took(s, k, chunk, consumed, bytes + chunk[..retained], over || retained < consumed, rest')
      && |bytes + chunk[..retained]| <= MAX_ENVELOPE_BYTES + 2
  {
    Advance(s, k, chunk, consumed);
    RetainMore(s, k, chunk, bytes, over, consumed);
  }

  /** Takes the front of the chunk off the reader, and keeps as much of it as the limit leaves room for. */
  method Absorb(reader: ChunkReader, frame: FrameBuffer, chunk: Bytes, consumed: nat, over: bool, ghost s: Bytes, ghost k: nat) returns (oversized: bool)
    requires reader.Valid() && reader.chunks != [] && chunk == reader.chunks[0] && consumed <= |chunk| && chunk <= reader.Remaining()
    requires Reading(s, k, frame.bytes, over, reader.Remaining()) && frame.peak <= MAX_ENVELOPE_BYTES + 2
    modifies reader, frame
    ensures reader.Valid() && frame.peak <= MAX_ENVELOPE_BYTES + 2 && |reader.Remaining()| == |old(reader.Remaining())| - consumed
    ensures Took(s, k, chunk, consumed, frame.bytes, oversized, reader.Remaining())
  {
    hide Reading, Took, Flatten;
    AtMostLimit(s, k, frame.bytes, over, reader.Remaining());
    ghost var bytes0, rest0 := frame.bytes, reader.Remaining();
    var retained := Min(consumed, MAX_ENVELOPE_BYTES + 2 - |frame.bytes|);
    reader.Consume(consumed);
    Takes(s, k, chunk, consumed, bytes0, over, rest0, reader.Remaining());
    frame.Extend(chunk[..retained]);
    oversized := over || retained < consumed;
  }

  /**
    What reading one line off `s` comes to: nothing at the end of the stream; otherwise the line's
    content, or the fact that it is too long; and what follows the line is left.
   */
  ghost predicate Framed(s: Bytes, r: Option<bool>, bytes: Bytes, rest: Bytes) {
    && (r.None? <==> s == [])
    && (r.Some? ==> r.value == (|Payload(s)| > MAX_ENVELOPE_BYTES))
    && (r == Some(false) ==> bytes == Payload(s))
    && rest == AfterLine(s)
  }

  /** The stream ends inside a line, or before one. */
  method EndStream(frame: FrameBuffer, oversized: bool, ghost s: Bytes, ghost k: nat) returns (r: Option<bool>)
    requires Reading(s, k, frame.bytes, oversized, [])
    ensures Framed(s, r, frame.bytes, [])
  {
    StreamEnds(s, k, frame.bytes, oversized);
    hide Reading, Payload, AfterLine;
    r := if oversized || frame.bytes != [] then Some(oversized || |frame.bytes| > MAX_ENVELOPE_BYTES) else None;
  }

  method EndLine(frame: FrameBuffer, oversized: bool, ghost s: Bytes, ghost k: nat, ghost chunk: Bytes, ghost p: nat, ghost rest: Bytes) returns (r: Option<bool>)
    requires p < |chunk| && chunk[p] == NEWLINE && NEWLINE !in chunk[..p]
    requires Took(s, k, chunk, p + 1, frame.bytes, oversized, rest)
    modifies frame
    ensures frame.peak == old(frame.peak) && Framed(s, r, frame.bytes, rest)
  {
    LineEnds(s, k, chunk, p, frame.bytes, oversized, rest);
    hide Took, Payload, AfterLine;
    if !oversized {
      frame.DropEnding();
    }
    r := Some(oversized || |frame.bytes| > MAX_ENVELOPE_BYTES);
  }

  /** Reads one line, whatever chunks it arrives in; the buffer never holds more than the limit and a line ending. */
  method ReadFrame(reader: ChunkReader, frame: FrameBuffer) returns (r: Option<bool>)
    requires reader.Valid() && frame.peak <= MAX_ENVELOPE_BYTES + 2
    modifies reader, frame
    ensures reader.Valid() && frame.peak <= MAX_ENVELOPE_BYTES + 2
    ensures Framed(old(reader.Remaining()), r, frame.bytes, reader.Remaining())
  {
    frame.Clear();
    var oversized := false;
    ghost var s, k: nat := reader.Remaining(), 0;
    hide Reading, Took, Flatten, Framed;
    StartsEmpty(s);
    while true
      invariant reader.Valid() && frame.peak <= MAX_ENVELOPE_BYTES + 2
      invariant Reading(s, k, frame.bytes, oversized, reader.Remaining())
      decreases |reader.Remaining()|
    {
      var chunk := reader.FillBuf();
      if chunk == [] {
        r := EndStream(frame, oversized, s, k);
        return;
      }
      var newline := Position(chunk);
      var consumed := if newline.Some? then newline.value + 1 else |chunk|;
      oversized := Absorb(reader, frame, chunk, consumed, oversized, s, k);
      if newline.Some? {
        r := EndLine(frame, oversized, s, k, chunk, newline.value, reader.Remaining());
        return;
      }
      LineGoesOn(s, k, chunk, frame.bytes, oversized, reader.Remaining());
      k := k + |chunk|;
    }
  }

  lemma StartsEmpty(s: Bytes)
    ensures Reading(s, 0, [], false, s)
  {
  }

  lemma AtMostLimit(s: Bytes, k: nat, bytes: Bytes, oversized: bool, rest: Bytes)
    requires Reading(s, k, bytes, oversized, rest)
    ensures |bytes| <= MAX_ENVELOPE_BYTES + 2
  {
  }

  lemma StreamEnds(s: Bytes, k: nat, bytes: Bytes, oversized: bool)
    requires Reading(s, k, bytes, oversized, [])
    ensures Payload(s) == s && AfterLine(s) == []
    ensures oversized || bytes != [] <==> s != []
    ensures oversized || |bytes| > MAX_ENVELOPE_BYTES <==> |s| > MAX_ENVELOPE_BYTES
    ensures |s| <= MAX_ENVELOPE_BYTES ==> bytes == s
  {
    assert k == |s| && s[..k] == s;
  }

  lemma Advance(s: Bytes, k: nat, chunk: Bytes, consumed: nat)
    requires k <= |s| && chunk <= s[k..] && consumed <= |chunk|
    ensures k + |chunk| <= |s| && chunk == s[k..k + |chunk|]
    ensures forall rest: Bytes :: s[k..] == chunk[..consumed] + rest ==> rest == s[k + consumed..]
  {
    forall rest: Bytes | s[k..] == chunk[..consumed] + rest ensures rest == s[k + consumed..] {
      assert rest == s[k..][consumed..];
    }
  }

  lemma LineGoesOn(s: Bytes, k: nat, chunk: Bytes, bytes: Bytes, oversized: bool, rest: Bytes)
    requires Took(s, k, chunk, |chunk|, bytes, oversized, rest) && NEWLINE !in chunk
    ensures Reading(s, k + |chunk|, bytes, oversized, rest)
  {
    hide Retained;
    assert s[..k + |chunk|] == s[..k] + chunk;
  }

  lemma LineEnds(s: Bytes, k: nat, chunk: Bytes, p: nat, bytes: Bytes, oversized: bool, rest: Bytes)
    requires Took(s, k, chunk, p + 1, bytes, oversized, rest)
    requires p < |chunk| && chunk[p] == NEWLINE && NEWLINE !in chunk[..p]
    ensures s != [] && AfterLine(s) == rest
    ensures if oversized then |Payload(s)| > MAX_ENVELOPE_BYTES
      else bytes != [] && Payload(s) == WithoutReturn(bytes[..|bytes| - 1])
  {
    assert s[k..k + p] == chunk[..p] && s[k + p] == chunk[p];
    PositionBeyond(s, k, p);
    hide Position;
    assert Payload(s) == WithoutReturn(s[..k + p]);
    if !oversized { assert bytes[..|bytes| - 1] == s[..k + p]; }
  }

  // ---- the loop that answers

  datatype Response<R> = TooLarge | Answer(answer: R)

  datatype ExitCode = Success | Failure

  /** What one frame is answered with; `handle` is the session, seen from outside. */
  function Respond<S, R>(frame: Frame, state: S, handle: (S, Bytes) -> (S, R)): (S, Response<R>) {
    match frame
    case Oversized => (state, TooLarge)
    case Complete(payload) =>
      var (next, answer) := handle(state, payload);
      (next, Answer(answer))
  }

  predicate Readable(frame: Frame, isText: Bytes -> bool) {
    frame.Complete? ==> isText(frame.payload)
  }

  /** A whole conversation: every frame in turn, until one is not text or the peer stops reading after `writes` responses. */
  function Conversation<S, R>(frames: seq<Frame>, state: S, handle: (S, Bytes) -> (S, R), isText: Bytes -> bool, writes: nat): (seq<Response<R>>, ExitCode) {
    if frames == [] then ([], Success)
    else if !Readable(frames[0], isText) then ([], Failure)
    else if writes == 0 then ([], Success)
    else
      var (next, response) := Respond(frames[0], state, handle);
      var (rest, exit) := Conversation(frames[1..], next, handle, isText, writes - 1);
      ([response] + rest, exit)
  }

  /** The program's loop: its responses depend on the bytes it is sent and not on the chunks they come in. */
  method Serve<S, R>(reader: ChunkReader, initial: S, handle: (S, Bytes) -> (S, R), isText: Bytes -> bool, writes: nat)
    returns (responses: seq<Response<R>>, exit: ExitCode)
    requires reader.Valid()
    modifies reader
    ensures (responses, exit) == Conversation(Frames(old(reader.Remaining())), initial, handle, isText, writes)
  {
    var state := initial;
    responses := [];
    var frame := new FrameBuffer();
    ghost var frames := Frames(reader.Remaining());
    ghost var whole := Conversation(frames, initial, handle, isText, writes);
    hide Flatten, Conversation, Leads, Respond, Payload, AfterLine;
    StartsOnTrack(whole, frames, initial, handle, isText, writes);
    while true
      invariant reader.Valid() && fresh(frame) && frame.peak <= MAX_ENVELOPE_BYTES + 2 && |responses| <= writes
      invariant Leads(whole, responses, Frames(reader.Remaining()), state, handle, isText, writes)
      decreases |reader.Remaining()|
    {
      ghost var s := reader.Remaining();
      var read := ReadFrame(reader, frame);
      if read.None? {
        Ends(whole, responses, [], state, handle, isText, writes);
        return responses, Success;
      }
      ShrinksByALine(s);
      var one := if read.value then Oversized else Complete(frame.bytes);
      frames := Frames(reader.Remaining());
      assert Frames(s) == [one] + frames && frames == ([one] + frames)[1..];
      Ends(whole, responses, [one] + frames, state, handle, isText, writes);
      if !Readable(one, isText) {
        return responses, Failure;
      }
      if |responses| == writes {
        return responses, Success;
      }
      TakesATurn(whole, responses, [one] + frames, state, handle, isText, writes);
      var (next, response) := Respond(one, state, handle);
      state, responses := next, responses + [response];
    }
  }

  /** The whole conversation is the responses so far and then the conversation about the rest. */
  ghost predicate Leads<S, R>(whole: (seq<Response<R>>, ExitCode), responses: seq<Response<R>>,
                              frames: seq<Frame>, state: S, handle: (S, Bytes) -> (S, R), isText: Bytes -> bool, writes: nat) {
    && |responses| <= writes
    && var (rest, exit) := Conversation(frames, state, handle, isText, writes - |responses|);
      whole == (responses + rest, exit)
  }

  lemma StartsOnTrack<S, R>(whole: (seq<Response<R>>, ExitCode), frames: seq<Frame>, state: S, handle: (S, Bytes) -> (S, R), isText: Bytes -> bool, writes: nat)
    requires whole == Conversation(frames, state, handle, isText, writes)
    ensures Leads(whole, [], frames, state, handle, isText, writes)
  {
    assert [] + whole.0 == whole.0;
  }

  lemma Ends<S, R>(whole: (seq<Response<R>>, ExitCode), responses: seq<Response<R>>, frames: seq<Frame>, state: S, handle: (S, Bytes) -> (S, R), isText: Bytes -> bool, writes: nat)
    requires Leads(whole, responses, frames, state, handle, isText, writes)
    ensures frames == [] ==> whole == (responses, Success)
    ensures frames != [] && !Readable(frames[0], isText) ==> whole == (responses, Failure)
    ensures frames != [] && Readable(frames[0], isText) && |responses| == writes ==> whole == (responses, Success)
  {
    assert responses + [] == responses;
  }

  lemma TakesATurn<S, R>(whole: (seq<Response<R>>, ExitCode), responses: seq<Response<R>>, frames: seq<Frame>, state: S, handle: (S, Bytes) -> (S, R), isText: Bytes -> bool, writes: nat)
    requires Leads(whole, responses, frames, state, handle, isText, writes)
    requires frames != [] && Readable(frames[0], isText) && |responses| < writes
    ensures var (next, response) := Respond(frames[0], state, handle);
      Leads(whole, responses + [response], frames[1..], next, handle, isText, writes)
  {
    var (next, response) := Respond(frames[0], state, handle);
    var rest := Conversation(frames[1..], next, handle, isText, writes - |responses| - 1).0;
    assert responses + ([response] + rest) == responses + [response] + rest;
  }

  lemma ShrinksByALine(s: Bytes)
    requires s != []
    ensures |AfterLine(s)| < |s|
    ensures Frames(s) == [FrameOf(Payload(s))] + Frames(AfterLine(s))
  {
  }

  /** With a peer that reads on, every frame is answered once and in order, and the over-long ones are refused. */
  lemma {:induction false} OneResponseEach<S, R>(frames: seq<Frame>, state: S, handle: (S, Bytes) -> (S, R), isText: Bytes -> bool, writes: nat)
    requires |frames| <= writes && forall f :: f in frames ==> Readable(f, isText)
    ensures var (responses, exit) := Conversation(frames, state, handle, isText, writes);
      && exit == Success && |responses| == |frames|
      && forall i :: 0 <= i < |frames| ==> (responses[i] == TooLarge <==> frames[i] == Oversized)
  {
    if frames != [] {
      OneResponseEach(frames[1..], Respond(frames[0], state, handle).0, handle, isText, writes - 1);
    }
  }

  /** Where the session stands once it has handled some payloads, the last of them last. */
  function After<S, R>(handle: (S, Bytes) -> (S, R), initial: S, payloads: seq<Bytes>): S {
    if payloads == [] then initial
    else handle(After(handle, initial, payloads[..|payloads| - 1]), payloads[|payloads| - 1]).0
  }

  /** The payloads of the frames that are not over-long. */
  function Payloads(frames: seq<Frame>): seq<Bytes> {
    if frames == [] then [] else (if frames[0].Oversized? then [] else [frames[0].payload]) + Payloads(frames[1..])
  }

  lemma {:induction false} AfterOneMore<S, R>(handle: (S, Bytes) -> (S, R), initial: S, first: Bytes, payloads: seq<Bytes>)
    ensures After(handle, initial, [first] + payloads) == After(handle, handle(initial, first).0, payloads)
  {
    var all := [first] + payloads;
    if payloads == [] {
      assert all[..0] == [];
    } else {
      assert all[..|all| - 1] == [first] + payloads[..|payloads| - 1];
      AfterOneMore(handle, initial, first, payloads[..|payloads| - 1]);
    }
  }

  /** Each response is what the session answers that frame after all the earlier ones, of which it forgets none. */
  lemma {:induction false} AnswersRestOnTheWholePast<S, R>(frames: seq<Frame>, initial: S, handle: (S, Bytes) -> (S, R), isText: Bytes -> bool, writes: nat, i: nat)
    requires i < |Conversation(frames, initial, handle, isText, writes).0|
    ensures i < |frames| && i < writes
    ensures Conversation(frames, initial, handle, isText, writes).0[i] ==
      if frames[i].Oversized? then TooLarge else Answer(handle(After(handle, initial, Payloads(frames[..i])), frames[i].payload).1)
  {
    if i > 0 {
      var (next, response) := Respond(frames[0], initial, handle);
      var rest := Conversation(frames[1..], next, handle, isText, writes - 1).0;
      var all := Conversation(frames, initial, handle, isText, writes).0;
      assert all == [response] + rest && i < |all|;
      AnswersRestOnTheWholePast(frames[1..], next, handle, isText, writes - 1, i - 1);
      assert all[i] == rest[i - 1] && frames[1..][i - 1] == frames[i];
      var past := Payloads(frames[1..][..i - 1]);
      assert frames[..i][0] == frames[0] && frames[..i][1..] == frames[1..][..i - 1];
      assert Payloads(frames[..i]) == if frames[0].Oversized? then past else [frames[0].payload] + past;
      if frames[0].Complete? { AfterOneMore(handle, initial, frames[0].payload, past); }
    } else {
      assert frames[..i] == [];
    }
  }

  /** Responses stop at the first frame that is not text, or when the peer stops reading. */
  lemma {:induction false} ResponsesStop<S, R>(frames: seq<Frame>, initial: S, handle: (S, Bytes) -> (S, R), isText: Bytes -> bool, writes: nat)
    ensures var bad := FirstUnreadable(frames, isText);
      var all := if bad.Some? then bad.value else |frames|;
      |Conversation(frames, initial, handle, isText, writes).0| == if writes < all then writes else all
  {
    if frames != [] && Readable(frames[0], isText) && writes > 0 {
      ResponsesStop(frames[1..], Respond(frames[0], initial, handle).0, handle, isText, writes - 1);
    }
  }

  function Kept(frames: seq<Frame>): seq<Frame> {
    if frames == [] then [] else (if frames[0].Oversized? then [] else [frames[0]]) + Kept(frames[1..])
  }

  function Answers<R>(responses: seq<Response<R>>): seq<R> {
    if responses == [] then [] else (if responses[0].TooLarge? then [] else [responses[0].answer]) + Answers(responses[1..])
  }

  /** An over-long frame leaves no trace in the session: leaving it out changes no answer. */
  lemma {:induction false} OversizedLeavesNoTrace<S, R>(frames: seq<Frame>, state: S, handle: (S, Bytes) -> (S, R), isText: Bytes -> bool, writes: nat)
    requires |frames| <= writes
    ensures Answers(Conversation(frames, state, handle, isText, writes).0) == Answers(Conversation(Kept(frames), state, handle, isText, |Kept(frames)|).0)
  {
    if frames != [] && Readable(frames[0], isText) {
      assert frames[0].Oversized? ==> Kept(frames) == Kept(frames[1..]);
      var (next, response) := Respond(frames[0], state, handle);
      OversizedLeavesNoTrace(frames[1..], next, handle, isText, writes - 1);
      var rest := Conversation(frames[1..], next, handle, isText, writes - 1).0;
      assert ([response] + rest)[1..] == rest;
      if frames[0].Complete? {
        var kept := Kept(frames);
        assert kept[1..] == Kept(frames[1..]);
        var keptRest := Conversation(kept[1..], next, handle, isText, |kept| - 1).0;
        assert ([response] + keptRest)[1..] == keptRest;
      }
    }
  }

  /** The program fails exactly when it reaches a frame that is not text. */
  lemma {:induction false} FailsOnlyOnBadText<S, R>(frames: seq<Frame>, state: S, handle: (S, Bytes) -> (S, R), isText: Bytes -> bool, writes: nat)
    ensures Conversation(frames, state, handle, isText, writes).1 == Failure
      <==> FirstUnreadable(frames, isText).Some? && FirstUnreadable(frames, isText).value <= writes
  {
    if frames != [] && Readable(frames[0], isText) && writes > 0 {
      FailsOnlyOnBadText(frames[1..], Respond(frames[0], state, handle).0, handle, isText, writes - 1);
    }
  }

  function FirstUnreadable(frames: seq<Frame>, isText: Bytes -> bool): (p: Option<nat>)
    ensures p.None? <==> forall f :: f in frames ==> Readable(f, isText)
    ensures p.Some? ==> p.value < |frames| && !Readable(frames[p.value], isText)
    ensures p.Some? ==> forall j :: 0 <= j < p.value ==> Readable(frames[j], isText)
  {
    if frames == [] then None
    else if !Readable(frames[0], isText) then Some(0)
    else
      var rest := FirstUnreadable(frames[1..], isText);
      assert frames == [frames[0]] + frames[1..];
      if rest.None? then None else Some(rest.value + 1)
  }
}
