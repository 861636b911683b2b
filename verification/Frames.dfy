/** The frame format of the gateway: parser, header printer, and the laws that tie them together. */
module Frames {
  import opened Words

  const PROTOCOL_VERSION: byte := 0x01
  const NONCE_SIZE := 12
  const AUTH_TAG_SIZE := 16
  const HEADER_SIZE := 35
  const MIN_FRAME_SIZE := HEADER_SIZE + AUTH_TAG_SIZE
  const PAYLOAD_SIZE := 8
  const MAX_PAYLOAD_SIZE := 512

  function Magic(): (s: seq<byte>)
    ensures |s| == 2
  {
    [0x53, 0x50]
  }

  type Nonce = s: seq<byte> | |s| == 12 witness [0, 0, 0, 0, 0, 0, 0, 0, 0, 0, 0, 0]

  type Tag = s: seq<byte> | |s| == 16 witness [0, 0, 0, 0, 0, 0, 0, 0, 0, 0, 0, 0, 0, 0, 0, 0]

  /** An encrypted sensor payload, as both senders produce it. */
  type Cipher = s: seq<byte> | |s| == 8 witness [0, 0, 0, 0, 0, 0, 0, 0]

  datatype ProtocolError =
    | FrameTooShort(expected: nat, got: nat)
    | InvalidMagic
    | UnsupportedVersion(version: byte)
    | PayloadTooLarge(max: nat, got: nat)
    | AuthTagInvalid

  datatype Frame = Frame(
    version: byte,
    deviceId: u32,
    sequenceNr: u32,
    timestamp: u64,
    nonce: Nonce,
    encryptedPayload: seq<byte>,
    authTag: Tag)
  {
    function TotalLen(): nat {
      HEADER_SIZE + |encryptedPayload| + AUTH_TAG_SIZE
    }

    /** The header bytes, which the tag authenticates along with the payload. */
    function Aad(): (s: seq<byte>)
      ensures |s| == HEADER_SIZE
    {
      Header(version, deviceId, sequenceNr, timestamp, |encryptedPayload|, nonce)
    }

    function Print(): (s: seq<byte>)
      ensures |s| == TotalLen()
    {
      Aad() + encryptedPayload + authTag
    }

    /** The frames that `Parse` can return. */
    predicate Supported() {
      version == 0x01 && |encryptedPayload| <= 512
    }
  }

  /** The 35 header bytes. The length is printed as a u32, so `ToBe` keeps its four low-order bytes. */
  function Header(version: byte, deviceId: u32, sequenceNr: u32, timestamp: u64, payloadLen: nat,
        nonce: Nonce): (s: seq<byte>)
    ensures |s| == HEADER_SIZE
  {
    Magic() + [version] + ToBe(4, deviceId) + ToBe(4, sequenceNr) + ToBe(8, timestamp) + ToBe(4, payloadLen) + nonce
  }

  /** Where each field of the header lies. */
  lemma HeaderFields(version: byte, deviceId: u32, sequenceNr: u32, timestamp: u64, payloadLen: nat, nonce: Nonce)
    ensures var h := Header(version, deviceId, sequenceNr, timestamp, payloadLen, nonce);
            |h| == 35 && h[0..2] == [0x53, 0x50] && h[2] == version &&
            h[3..7] == ToBe(4, deviceId) && h[7..11] == ToBe(4, sequenceNr) &&
            h[11..19] == ToBe(8, timestamp) && h[19..23] == ToBe(4, payloadLen) && h[23..35] == nonce
  {
    hide ToBe;
  }

  method HeaderAsAad(frame: Frame) returns (aad: seq<byte>)
    ensures aad == frame.Aad()
  {
    aad := [];
    aad := aad + Magic();
    aad := aad + [frame.version];
    aad := aad + ToBe(4, frame.deviceId);
    aad := aad + ToBe(4, frame.sequenceNr);
    aad := aad + ToBe(8, frame.timestamp);
    aad := aad + ToBe(4, |frame.encryptedPayload|);
    aad := aad + frame.nonce;
  }

  function Parse(raw: seq<byte>): Result<Frame, ProtocolError> {
    if |raw| < MIN_FRAME_SIZE then Err(FrameTooShort(MIN_FRAME_SIZE, |raw|))
    else if raw[0..2] != Magic() then Err(InvalidMagic)
    else if raw[2] != PROTOCOL_VERSION then Err(UnsupportedVersion(raw[2]))
    else
      var payloadLen := ReadU32(raw[19..23]);
      var total := HEADER_SIZE + payloadLen + AUTH_TAG_SIZE;
      if payloadLen > MAX_PAYLOAD_SIZE then Err(PayloadTooLarge(MAX_PAYLOAD_SIZE, payloadLen))
      else if |raw| < total then Err(FrameTooShort(total, |raw|))
      else Ok(Frame(
        raw[2],
        ReadU32(raw[3..7]),
        ReadU32(raw[7..11]),
        ReadU64(raw[11..19]),
        raw[23..35],
        raw[35..35 + payloadLen],
        raw[35 + payloadLen..35 + payloadLen + AUTH_TAG_SIZE]))
  }

  /** Parsing undoes printing, whatever bytes follow the frame. */
  lemma ParsePrint(frame: Frame, rest: seq<byte>)
    requires frame.Supported()
    ensures Parse(frame.Print() + rest) == Ok(frame)
  {
    hide Header, ToBe, FromBe;
    var raw, h := frame.Print() + rest, frame.Aad();
    var n := |frame.encryptedPayload|;
    HeaderFields(frame.version, frame.deviceId, frame.sequenceNr, frame.timestamp, n, frame.nonce);
    assert raw[..35] == h;
    assert raw[0..2] == h[0..2] && raw[2] == h[2] && raw[3..7] == h[3..7] && raw[7..11] == h[7..11];
    assert raw[11..19] == h[11..19] && raw[19..23] == h[19..23] && raw[23..35] == h[23..35];
    U32RoundTrip(frame.deviceId);
    U32RoundTrip(frame.sequenceNr);
    U64RoundTrip(frame.timestamp);
    U32RoundTrip(n);
    assert raw[35..35 + n] == frame.encryptedPayload;
    assert raw[35 + n..35 + n + AUTH_TAG_SIZE] == frame.authTag;
  }

  /** Printing undoes parsing: the authenticated header is the one received, and nothing of the frame is
      lost or invented. */
  lemma PrintParse(raw: seq<byte>)
    requires Parse(raw).Ok?
    ensures var frame := Parse(raw).value;
            && frame.Supported()
            && frame.TotalLen() <= |raw|
            && frame.Aad() == raw[..35]
            && frame.Print() == raw[..frame.TotalLen()]
  {
  }

  /** Why the parser refuses: too short for any frame, then the magic, then the version, then the declared
      length, then too short for that length. */
  lemma ParseErrors(raw: seq<byte>)
    ensures var r := Parse(raw);
            var n := if |raw| < 51 then 0 else FromBe(raw[19..23]);
            && (r == Err(FrameTooShort(51, |raw|)) <==> |raw| < 51)
            && (r == Err(InvalidMagic) <==> 51 <= |raw| && (raw[0] != 0x53 || raw[1] != 0x50))
            && (51 <= |raw| ==>
                  (r == Err(UnsupportedVersion(raw[2])) <==> raw[0] == 0x53 && raw[1] == 0x50 && raw[2] != 0x01))
            && (r == Err(PayloadTooLarge(512, n))
                <==> 51 <= |raw| && raw[0] == 0x53 && raw[1] == 0x50 && raw[2] == 0x01 && n > 512)
            && (51 <= |raw| ==>
                  (r == Err(FrameTooShort(51 + n, |raw|))
                   <==> raw[0] == 0x53 && raw[1] == 0x50 && raw[2] == 0x01 && n <= 512 && |raw| < 51 + n))
  {
    if 51 <= |raw| {
      assert raw[0..2] == [raw[0], raw[1]];
    }
  }

  /** The parser accepts exactly the byte strings that begin with a printed frame. */
  lemma ParseAcceptsPrinted(raw: seq<byte>)
    ensures Parse(raw).Ok? <==> exists frame: Frame :: frame.Supported() && frame.Print() <= raw
  {
    if Parse(raw).Ok? {
      PrintParse(raw);
    }
    if exists frame: Frame :: frame.Supported() && frame.Print() <= raw {
      var frame: Frame :| frame.Supported() && frame.Print() <= raw;
      ParsePrint(frame, raw[frame.TotalLen()..]);
      assert raw == frame.Print() + raw[frame.TotalLen()..];
    }
  }

  /** Two headers with the same bytes carry the same fields, so authenticating the bytes authenticates
      the fields. */
  lemma HeaderInjective(f: Frame, g: Frame)
    requires f.Aad() == g.Aad() && f.Supported() && g.Supported()
    ensures f.deviceId == g.deviceId && f.sequenceNr == g.sequenceNr && f.timestamp == g.timestamp
    ensures f.nonce == g.nonce && |f.encryptedPayload| == |g.encryptedPayload|
  {
    HeaderFields(f.version, f.deviceId, f.sequenceNr, f.timestamp, |f.encryptedPayload|, f.nonce);
    HeaderFields(g.version, g.deviceId, g.sequenceNr, g.timestamp, |g.encryptedPayload|, g.nonce);
    U32RoundTrip(f.deviceId);
    U32RoundTrip(g.deviceId);
    U32RoundTrip(f.sequenceNr);
    U32RoundTrip(g.sequenceNr);
    U64RoundTrip(f.timestamp);
    U64RoundTrip(g.timestamp);
    U32RoundTrip(|f.encryptedPayload|);
    U32RoundTrip(|g.encryptedPayload|);
  }
}
