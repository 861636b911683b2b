/** How a connection's byte stream is cut into frames, before anything in it is authenticated. */
module Framing {
  import opened Words
  import opened Frames

  /** What one turn of the connection loop does with the bytes from its read position on. */
  datatype ReadStep =
    | NeedHeader
    | BadMagic
    | TooLarge(payloadLen: nat)
    | NeedBody
    | Complete(raw: seq<byte>)

  function ReadNext(stream: seq<byte>, pos: nat): ReadStep
    requires pos <= |stream|
  {
    if |stream| < pos + HEADER_SIZE then NeedHeader else
      var header := stream[pos..pos + HEADER_SIZE];
      if header[0..2] != Magic() then BadMagic else
        var payloadLen := ReadU32(header[19..23]);
        if payloadLen > MAX_PAYLOAD_SIZE then TooLarge(payloadLen) else
          var end := pos + HEADER_SIZE + payloadLen + AUTH_TAG_SIZE;
          if |stream| < end then NeedBody else Complete(stream[pos..end])
  }

  /** What the loop does over its lifetime: headers dropped for a bad magic, slices handed to the frame
      pipeline, and possibly a final refusal. */
  datatype Action = DropHeader(at: nat) | HandOver(start: nat, end: nat) | Refuse(at: nat, payloadLen: nat)

  function Actions(stream: seq<byte>, pos: nat): seq<Action>
    requires pos <= |stream|
    decreases |stream| - pos
  {
    match ReadNext(stream, pos)
    case NeedHeader => []
    case NeedBody => []
    case BadMagic => [DropHeader(pos)] + Actions(stream, pos + HEADER_SIZE)
    case TooLarge(payloadLen) => [Refuse(pos, payloadLen)]
    case Complete(raw) => [HandOver(pos, pos + |raw|)] + Actions(stream, pos + |raw|)
  }

  /** The buffers handed to the frame pipeline, in order. */
  function Handed(stream: seq<byte>, actions: seq<Action>): (frames: seq<seq<byte>>)
    requires forall a :: a in actions && a.HandOver? ==> a.start <= a.end <= |stream|
  {
    if actions == [] then []
    else
      (if actions[0].HandOver? then [stream[actions[0].start..actions[0].end]] else [])
      + Handed(stream, actions[1..])
  }

  /** Actions are made in stream order: each dropped header and each handed slice is a piece of the stream
      that begins no earlier than its predecessor ended, and nothing follows a refusal. */
  ghost predicate InOrder(actions: seq<Action>, from: nat, limit: nat) {
    if actions == [] then from <= limit
    else match actions[0]
      case DropHeader(at) => at == from && InOrder(actions[1..], from + 35, limit)
      case HandOver(start, end) => start == from && 51 <= end - start && InOrder(actions[1..], end, limit)
      case Refuse(at, payloadLen) =>
        at == from && from + 35 <= limit && payloadLen > 512 && actions[1..] == []
  }

  lemma {:induction false} ActionsInOrder(stream: seq<byte>, pos: nat)
    requires pos <= |stream|
    ensures InOrder(Actions(stream, pos), pos, |stream|)
    decreases |stream| - pos
  {
    match ReadNext(stream, pos)
    case NeedHeader =>
    case NeedBody =>
    case TooLarge(_) =>
    case BadMagic => ActionsInOrder(stream, pos + HEADER_SIZE);
    case Complete(raw) => ActionsInOrder(stream, pos + |raw|);
  }

  lemma ReadNextOfPrefix(stream: seq<byte>, more: seq<byte>, pos: nat)
    requires pos <= |stream|
    ensures var step := ReadNext(stream, pos);
            && (!step.NeedHeader? && !step.NeedBody? ==> ReadNext(stream + more, pos) == step)
            && (step.BadMagic? ==> pos + HEADER_SIZE <= |stream|)
            && (step.Complete? ==> step.raw != [] && pos + |step.raw| <= |stream|)
  {
    var whole := stream + more;
    if pos + HEADER_SIZE <= |stream| {
      assert whole[pos..pos + HEADER_SIZE] == stream[pos..pos + HEADER_SIZE];
      if ReadNext(stream, pos).Complete? {
        assert whole[pos..pos + |ReadNext(stream, pos).raw|] == ReadNext(stream, pos).raw;
      }
    }
  }

  /** Later bytes never change what earlier bytes caused. */
  lemma {:induction false} ActionsOfPrefix(stream: seq<byte>, more: seq<byte>, pos: nat)
    requires pos <= |stream|
    ensures Actions(stream, pos) <= Actions(stream + more, pos)
    decreases |stream| - pos
  {
    hide ReadNext;
    ReadNextOfPrefix(stream, more, pos);
    match ReadNext(stream, pos)
    case NeedHeader =>
    case NeedBody =>
    case TooLarge(_) =>
    case BadMagic => ActionsOfPrefix(stream, more, pos + HEADER_SIZE);
    case Complete(raw) => ActionsOfPrefix(stream, more, pos + |raw|);
  }

  /** The checks made on the header before its body is read leave the parser one reason to refuse: every
      buffer handed over is exactly one frame long, its body fits in 528 bytes, and only its version can
      be wrong. */
  lemma PreChecksDischargeParser(stream: seq<byte>, pos: nat)
    requires pos <= |stream| && ReadNext(stream, pos).Complete?
    ensures var raw := ReadNext(stream, pos).raw;
            && raw == stream[pos..pos + |raw|]
            && |raw| - 35 <= 528
            && (match Parse(raw)
                case Ok(frame) => frame.TotalLen() == |raw|
                case Err(e) => e == UnsupportedVersion(raw[2]))
  {
    var raw, header := ReadNext(stream, pos).raw, stream[pos..pos + HEADER_SIZE];
    assert raw[..HEADER_SIZE] == header;
    assert raw[0..2] == header[0..2] && raw[19..23] == header[19..23];
  }

  /** `bytes` lie in the stream at `pos`. */
  ghost predicate At(stream: seq<byte>, pos: nat, bytes: seq<byte>) {
    pos + |bytes| <= |stream| && stream[pos..pos + |bytes|] == bytes
  }

  lemma AtSplit(stream: seq<byte>, pos: nat, a: seq<byte>, b: seq<byte>)
    requires At(stream, pos, a + b)
    ensures At(stream, pos, a) && At(stream, pos + |a|, b)
  {
    var s := stream[pos..pos + |a + b|];
    assert stream[pos..pos + |a|] == s[..|a|];
    assert stream[pos + |a|..pos + |a| + |b|] == s[|a|..];
  }

  /** A printed frame at the read position is taken whole. */
  lemma ReadPrinted(stream: seq<byte>, pos: nat, frame: Frame)
    requires |frame.encryptedPayload| <= 512 && At(stream, pos, frame.Print())
    ensures ReadNext(stream, pos) == Complete(frame.Print())
  {
    hide Header, ToBe, FromBe;
    var h, n := frame.Aad(), |frame.encryptedPayload|;
    HeaderFields(frame.version, frame.deviceId, frame.sequenceNr, frame.timestamp, n, frame.nonce);
    assert frame.Print() == h + (frame.encryptedPayload + frame.authTag);
    AtSplit(stream, pos, h, frame.encryptedPayload + frame.authTag);
    U32RoundTrip(n);
  }

  function PrintAll(frames: seq<Frame>): seq<byte> {
    if frames == [] then [] else frames[0].Print() + PrintAll(frames[1..])
  }

  function Slices(frames: seq<Frame>, pos: nat): (actions: seq<Action>)
    ensures |actions| == |frames|
  {
    if frames == [] then [] else
      [HandOver(pos, pos + frames[0].TotalLen())] + Slices(frames[1..], pos + frames[0].TotalLen())
  }

  lemma ConsAppend(a: Action, s: seq<Action>, t: seq<Action>)
    ensures [a] + (s + t) == ([a] + s) + t
  {
  }

  /** From a frame boundary, printed frames are cut apart again exactly where they were joined. */
  lemma {:induction false} ActionsOfPrinted(stream: seq<byte>, pos: nat, frames: seq<Frame>)
    requires forall f :: f in frames ==> |f.encryptedPayload| <= 512
    requires At(stream, pos, PrintAll(frames))
    ensures Actions(stream, pos) == Slices(frames, pos) + Actions(stream, pos + |PrintAll(frames)|)
    decreases frames
  {
    hide Frame.Print, ReadNext, At;
    if frames != [] {
      var first, rest := frames[0].Print(), PrintAll(frames[1..]);
      var next := pos + |first|;
      AtSplit(stream, pos, first, rest);
      ReadPrinted(stream, pos, frames[0]);
      ActionsOfPrinted(stream, next, frames[1..]);
      var a := HandOver(pos, next);
      assert Actions(stream, pos) == [a] + Actions(stream, next);
      ConsAppend(a, Slices(frames[1..], next), Actions(stream, next + |rest|));
    }
  }

  function Prints(frames: seq<Frame>): seq<seq<byte>> {
    if frames == [] then [] else [frames[0].Print()] + Prints(frames[1..])
  }

  lemma {:induction false} PrintsAppend(frames: seq<Frame>, frame: Frame)
    ensures Prints(frames + [frame]) == Prints(frames) + [frame.Print()]
  {
    if frames != [] {
      assert (frames + [frame])[1..] == frames[1..] + [frame];
      PrintsAppend(frames[1..], frame);
    }
  }

  lemma {:induction false} HandedSlices(stream: seq<byte>, pos: nat, frames: seq<Frame>)
    requires At(stream, pos, PrintAll(frames))
    ensures var slices := Slices(frames, pos);
            && (forall a :: a in slices ==> a.HandOver? && a.start <= a.end <= |stream|)
            && Handed(stream, slices) == Prints(frames)
    decreases frames
  {
    hide Frame.Print;
    if frames != [] {
      var first := frames[0].Print();
      AtSplit(stream, pos, first, PrintAll(frames[1..]));
      HandedSlices(stream, pos + |first|, frames[1..]);
      assert Slices(frames, pos)[1..] == Slices(frames[1..], pos + |first|);
    }
  }

  lemma NothingAtEnd(stream: seq<byte>)
    ensures Actions(stream, |stream|) == []
  {
  }

  /** The connection loop, run on any printed frames one after another, hands exactly those frames, in
      order, to the frame pipeline and does nothing else. */
  lemma FramingRoundTrip(frames: seq<Frame>)
    requires forall f :: f in frames ==> |f.encryptedPayload| <= 512
    ensures var stream := PrintAll(frames);
            && (forall a :: a in Actions(stream, 0) ==> a.HandOver? && a.start <= a.end <= |stream|)
            && Handed(stream, Actions(stream, 0)) == Prints(frames)
  {
    hide PrintAll, Slices, Handed, Prints, Actions;
    var stream := PrintAll(frames);
    ActionsOfPrinted(stream, 0, frames);
    HandedSlices(stream, 0, frames);
    NothingAtEnd(stream);
    assert Actions(stream, 0) == Slices(frames, 0);
  }

  // ---------- every case, from the bytes ----------

  /** A whole header at `at` that begins with the magic. */
  predicate HeaderAt(stream: seq<byte>, at: nat) {
    at + 35 <= |stream| && stream[at] == 0x53 && stream[at + 1] == 0x50
  }

  /** The payload length that it declares. */
  function DeclaredAt(stream: seq<byte>, at: nat): nat {
    if at + 23 <= |stream| then FromBe(stream[at + 19..at + 23]) else 0
  }

  lemma ReadFromBytes(stream: seq<byte>, pos: nat)
    requires pos <= |stream|
    ensures var n := DeclaredAt(stream, pos);
            ReadNext(stream, pos)
            == if |stream| - pos < 35 then NeedHeader
               else if !HeaderAt(stream, pos) then BadMagic
               else if n > 512 then TooLarge(n)
               else if |stream| - pos < 35 + n + 16 then NeedBody
               else Complete(stream[pos..pos + 35 + n + 16])
  {
    if pos + 35 <= |stream| {
      var header := stream[pos..pos + 35];
      assert header[0..2] == [stream[pos], stream[pos + 1]];
      assert forall i :: 0 <= i < 4 ==> header[19..23][i] == stream[pos + 19..pos + 23][i];
      assert header[19..23] == stream[pos + 19..pos + 23];
    }
  }

  /** What the loop does at a position, in terms of the bytes there: it waits, or drops a header, or refuses
      the declared length for good, or hands over one frame. */
  lemma FirstAction(stream: seq<byte>, pos: nat)
    requires pos <= |stream|
    ensures var actions, n := Actions(stream, pos), DeclaredAt(stream, pos);
            && (actions == [] <==> || |stream| - pos < 35
                                   || (HeaderAt(stream, pos) && n <= 512 && |stream| - pos < 51 + n))
            && (actions != [] && actions[0] == DropHeader(pos)
                <==> 35 <= |stream| - pos && !HeaderAt(stream, pos))
            && (actions == [Refuse(pos, n)] <==> HeaderAt(stream, pos) && n > 512)
            && (actions != [] && actions[0] == HandOver(pos, pos + 51 + n)
                <==> HeaderAt(stream, pos) && n <= 512 && 51 + n <= |stream| - pos)
  {
    hide ReadNext, DeclaredAt;
    ReadFromBytes(stream, pos);
  }

  /** Where the loop stands after its actions. */
  function EndOf(actions: seq<Action>, from: nat): nat {
    if actions == [] then from
    else match actions[0]
      case DropHeader(at) => EndOf(actions[1..], at + 35)
      case HandOver(_, end) => EndOf(actions[1..], end)
      case Refuse(at, _) => at
  }

  /** A declared length is refused whatever bytes follow. */
  lemma RefusedWhateverFollows(stream: seq<byte>, pos: nat, more: seq<byte>)
    requires HeaderAt(stream, pos) && DeclaredAt(stream, pos) > 512
    ensures ReadNext(stream + more, pos) == TooLarge(DeclaredAt(stream, pos))
  {
    hide ReadNext;
    assert (stream + more)[pos + 19..pos + 23] == stream[pos + 19..pos + 23];
    ReadFromBytes(stream + more, pos);
  }
}
