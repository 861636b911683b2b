/** How long the connection loop stays out of step after a damaged magic.

    On a bad magic the loop drops one header, 35 bytes, and looks again. On a stream of frames of length
    `len` it is back at a frame boundary when 35 * k bytes later is a multiple of `len`. */
module Resync {
  import opened Divisibility
  import opened Words
  import opened Frames
  import opened Framing

  /** The number of headers after which reads fall on the same offsets of a frame again. */
  function Period(len: nat): nat
    requires len > 0
  {
    GcdPositive(HEADER_SIZE, len);
    len / Gcd(HEADER_SIZE, len)
  }

  lemma ForwardFactor(len: int, g: int, n: int, h: int, k: int, q: int)
    requires len == g * n && HEADER_SIZE == g * h && k == n * q
    ensures HEADER_SIZE * k == len * (h * q)
  {
    assert g * h * (n * q) == g * n * (h * q);
  }

  lemma BackwardFactor(len: int, g: nat, n: int, u: int, v: int, k: int, q: int)
    requires g > 0 && len == g * n && HEADER_SIZE * u + len * v == g && HEADER_SIZE * k == len * q
    ensures k == n * (q * u + v * k)
  {
    var w := q * u + v * k;
    calc {
      g * k;
      (HEADER_SIZE * u + len * v) * k;
      HEADER_SIZE * k * u + len * (v * k);
      len * q * u + len * (v * k);
      { assert len * q * u == len * (q * u); }
      len * w;
      { assert g * n * w == g * (n * w); }
      g * (n * w);
    }
    CancelFactor(g, k, n * w);
  }

  /** Reading `k` headers from a boundary ends on a boundary exactly when `k` is a multiple of the period. */
  lemma BoundaryAgain(len: nat, k: nat)
    requires len > 0
    ensures Divides(len, HEADER_SIZE * k) <==> Divides(Period(len), k)
  {
    var g, n := Gcd(HEADER_SIZE, len), Period(len);
    GcdPositive(HEADER_SIZE, len);
    var u, v := Bezout(HEADER_SIZE, len);
    var h :| Multiple(HEADER_SIZE, g, h);
    var m :| Multiple(len, g, m);
    ExactQuotient(len, g, m);
    if Divides(n, k) {
      var q :| Multiple(k, n, q);
      ForwardFactor(len, g, n, h, k, q);
      assert Multiple(HEADER_SIZE * k, len, h * q);
    }
    if Divides(len, HEADER_SIZE * k) {
      var q :| Multiple(HEADER_SIZE * k, len, q);
      BackwardFactor(len, g, n, u, v, k, q);
      assert Multiple(k, n, q * u + v * k);
    }
  }

  // ---------- the reader ----------

  function Drops(pos: nat, k: nat): seq<Action>
    decreases k
  {
    if k == 0 then [] else [DropHeader(pos)] + Drops(pos + HEADER_SIZE, k - 1)
  }

  ghost predicate MagicAt(stream: seq<byte>, pos: nat)
    requires pos + HEADER_SIZE <= |stream|
  {
    stream[pos..pos + 2] == Magic()
  }

  lemma DropStep(stream: seq<byte>, pos: nat)
    requires pos + HEADER_SIZE <= |stream| && !MagicAt(stream, pos)
    ensures Actions(stream, pos) == [DropHeader(pos)] + Actions(stream, pos + HEADER_SIZE)
  {
  }

  ghost predicate NoMagicFor(stream: seq<byte>, pos: nat, k: nat)
    decreases k
  {
    k > 0 ==> pos + HEADER_SIZE <= |stream| && !MagicAt(stream, pos) && NoMagicFor(stream, pos + HEADER_SIZE, k - 1)
  }

  lemma {:induction false} NoMagicRun(stream: seq<byte>, pos: nat, k: nat)
    requires pos + HEADER_SIZE * k <= |stream|
    requires forall i :: 0 <= i < k ==> !MagicAt(stream, pos + HEADER_SIZE * i)
    ensures NoMagicFor(stream, pos, k)
    decreases k
  {
    if k > 0 {
      assert !MagicAt(stream, pos + HEADER_SIZE * 0);
      var next := pos + HEADER_SIZE;
      forall i | 0 <= i < k - 1
        ensures !MagicAt(stream, next + HEADER_SIZE * i)
      {
        assert next + HEADER_SIZE * i == pos + HEADER_SIZE * (i + 1);
      }
      NoMagicRun(stream, next, k - 1);
    }
  }

  /** Headers without the magic are dropped one after another. */
  lemma {:induction false} DropRun(stream: seq<byte>, pos: nat, k: nat)
    requires NoMagicFor(stream, pos, k)
    ensures pos + HEADER_SIZE * k <= |stream| || k == 0
    ensures k > 0 ==> Actions(stream, pos) == Drops(pos, k) + Actions(stream, pos + HEADER_SIZE * k)
    decreases k
  {
    hide Actions, MagicAt;
    if k > 0 {
      var next := pos + HEADER_SIZE;
      DropStep(stream, pos);
      DropRun(stream, next, k - 1);
      if k > 1 {
        ConsAppend(DropHeader(pos), Drops(next, k - 1), Actions(stream, pos + HEADER_SIZE * k));
      }
    }
  }

  /** None of the first `k` blocks read from `pos` on starts with the magic. */
  ghost predicate NoMagicRead(stream: seq<byte>, pos: nat, k: nat) {
    pos + HEADER_SIZE * k <= |stream| && forall i :: 0 <= i < k ==> !MagicAt(stream, pos + HEADER_SIZE * i)
  }

  lemma NoMagicNext(stream: seq<byte>, pos: nat, k: nat)
    requires pos + HEADER_SIZE <= |stream| && k > 0
    ensures NoMagicRead(stream, pos, k) <==> !MagicAt(stream, pos) && NoMagicRead(stream, pos + HEADER_SIZE, k - 1)
  {
    hide MagicAt;
    var next := pos + HEADER_SIZE;
    if NoMagicRead(stream, pos, k) {
      assert !MagicAt(stream, pos + HEADER_SIZE * 0);
      forall i | 0 <= i < k - 1
        ensures !MagicAt(stream, next + HEADER_SIZE * i)
      {
        assert next + HEADER_SIZE * i == pos + HEADER_SIZE * (i + 1);
      }
    }
    if !MagicAt(stream, pos) && NoMagicRead(stream, next, k - 1) {
      forall i | 0 <= i < k
        ensures !MagicAt(stream, pos + HEADER_SIZE * i)
      {
        if i > 0 {
          assert next + HEADER_SIZE * (i - 1) == pos + HEADER_SIZE * i;
        }
      }
    }
  }

  lemma FirstAction(stream: seq<byte>, pos: nat)
    requires pos <= |stream| && Actions(stream, pos) != [] && Actions(stream, pos)[0] == DropHeader(pos)
    ensures pos + HEADER_SIZE <= |stream| && !MagicAt(stream, pos)
  {
    var header := stream[pos..pos + HEADER_SIZE];
    assert header[0..2] == stream[pos..pos + 2];
  }

  lemma DropsTail(stream: seq<byte>, pos: nat, k: nat)
    requires pos <= |stream| && k > 0 && Drops(pos, k) <= Actions(stream, pos)
    ensures pos + HEADER_SIZE <= |stream| && !MagicAt(stream, pos)
    ensures Drops(pos + HEADER_SIZE, k - 1) <= Actions(stream, pos + HEADER_SIZE)
  {
    hide MagicAt, ReadNext;
    assert Actions(stream, pos)[0] == Drops(pos, k)[0];
    FirstAction(stream, pos);
    DropStep(stream, pos);
    assert Drops(pos, k)[1..] == Drops(pos + HEADER_SIZE, k - 1);
    assert Actions(stream, pos)[1..] == Actions(stream, pos + HEADER_SIZE);
  }

  lemma DropsCons(stream: seq<byte>, pos: nat, k: nat)
    requires pos + HEADER_SIZE <= |stream| && !MagicAt(stream, pos) && k > 0
    requires Drops(pos + HEADER_SIZE, k - 1) <= Actions(stream, pos + HEADER_SIZE)
    ensures Drops(pos, k) <= Actions(stream, pos)
  {
    hide MagicAt, ReadNext;
    DropStep(stream, pos);
  }

  lemma EnoughRead(stream: seq<byte>, pos: nat, k: nat)
    requires NoMagicRead(stream, pos, k) && k > 0
    ensures pos + HEADER_SIZE <= |stream|
  {
  }

  /** The reader drops the next `k` headers exactly when none of them starts with the magic. */
  lemma {:induction false} DropsExactly(stream: seq<byte>, pos: nat, k: nat)
    requires pos <= |stream|
    ensures Drops(pos, k) <= Actions(stream, pos) <==> NoMagicRead(stream, pos, k)
    decreases k
  {
    hide MagicAt, Actions;
    if k > 0 {
      if Drops(pos, k) <= Actions(stream, pos) {
        DropsTail(stream, pos, k);
        DropsExactly(stream, pos + HEADER_SIZE, k - 1);
        NoMagicNext(stream, pos, k);
      }
      if NoMagicRead(stream, pos, k) {
        EnoughRead(stream, pos, k);
        NoMagicNext(stream, pos, k);
        DropsExactly(stream, pos + HEADER_SIZE, k - 1);
        DropsCons(stream, pos, k);
      }
    }
  }

  lemma OffsetBoundary(len: nat, pos: nat, k: nat)
    requires Divides(len, pos)
    ensures Divides(len, pos + HEADER_SIZE * k) <==> Divides(len, HEADER_SIZE * k)
  {
    var y := HEADER_SIZE * k;
    if Divides(len, pos + y) {
      DividesSum(len, pos + y, pos, 1, -1);
    }
    if Divides(len, y) {
      DividesSum(len, pos, y, 1, 1);
    }
  }

  lemma FirstBoundary(len: nat, pos: nat)
    requires len > 0 && Divides(len, pos)
    ensures Divides(len, pos + HEADER_SIZE * Period(len))
    ensures forall k :: 0 < k < Period(len) ==> !Divides(len, pos + HEADER_SIZE * k)
  {
    var n := Period(len);
    forall k | 0 < k < n
      ensures !Divides(len, pos + HEADER_SIZE * k)
    {
      OffsetBoundary(len, pos, k);
      BoundaryAgain(len, k);
      NoSmallMultiple(n, k);
    }
    assert Multiple(n, n, 1);
    OffsetBoundary(len, pos, n);
    BoundaryAgain(len, n);
  }

  /** A damaged magic at a frame boundary costs exactly one period, as long as no block read meanwhile
      happens to start with the magic: the reader drops `Period(len)` headers, is off every boundary in
      between, and is then at a boundary again. */
  lemma RecoveryFromDamage(stream: seq<byte>, len: nat, pos: nat)
    requires len > 0 && Divides(len, pos) && NoMagicRead(stream, pos, Period(len))
    ensures pos + HEADER_SIZE * Period(len) <= |stream|
    ensures Actions(stream, pos) == Drops(pos, Period(len)) + Actions(stream, pos + HEADER_SIZE * Period(len))
    ensures Divides(len, pos + HEADER_SIZE * Period(len))
    ensures forall k :: 0 < k < Period(len) ==> !Divides(len, pos + HEADER_SIZE * k)
  {
    FirstBoundary(len, pos);
    NoMagicRun(stream, pos, Period(len));
    DropRun(stream, pos, Period(len));
  }

  lemma Realign(len: int, pos: int, g: int, n: int, h: int, u: int, v: int, m: int, q: int)
    requires len == g * n && HEADER_SIZE == g * h && HEADER_SIZE * u + len * v == g && pos == g * m
    ensures pos + HEADER_SIZE * (-(m * u) - n * q) == len * (m * v - h * q)
  {
    calc {
      pos + HEADER_SIZE * (-(m * u) - n * q);
      g * m - HEADER_SIZE * (m * u) - HEADER_SIZE * (n * q);
      { assert (HEADER_SIZE * u + len * v) * m == HEADER_SIZE * (m * u) + len * (m * v); }
      len * (m * v) - HEADER_SIZE * (n * q);
      { assert g * h * (n * q) == g * n * (h * q); }
      len * (m * v) - len * (h * q);
      len * (m * v - h * q);
    }
  }

  /** An offset that the gcd divides leads to a boundary within a period. */
  lemma SomeBoundary(len: nat, pos: nat) returns (k: nat)
    requires len > 0 && Divides(Gcd(HEADER_SIZE, len), pos)
    ensures k < Period(len) && Divides(len, pos + HEADER_SIZE * k)
  {
    var g, n := Gcd(HEADER_SIZE, len), Period(len);
    GcdPositive(HEADER_SIZE, len);
    var u, v := Bezout(HEADER_SIZE, len);
    var m :| Multiple(pos, g, m);
    var h :| Multiple(HEADER_SIZE, g, h);
    var l :| Multiple(len, g, l);
    ExactQuotient(len, g, l);
    PositiveFactor(len, g, n);
    var q;
    k, q := DivMod(-(m * u), n);
    Realign(len, pos, g, n, h, u, v, m, q);
    assert Multiple(pos + HEADER_SIZE * k, len, m * v - h * q);
  }

  lemma BoundaryOffset(len: nat, pos: nat, k: nat)
    requires len > 0 && Divides(len, pos + HEADER_SIZE * k)
    ensures Divides(Gcd(HEADER_SIZE, len), pos)
  {
    var g := Gcd(HEADER_SIZE, len);
    var _, _ := Bezout(HEADER_SIZE, len);
    DividesTrans(g, len, pos + HEADER_SIZE * k);
    DividesSum(g, pos + HEADER_SIZE * k, HEADER_SIZE, 1, 0 - k);
  }

  /** From any byte the reader can reach a boundary at all exactly when the gcd of 35 and the frame length
      divides its offset; it then needs fewer than a period of headers. */
  lemma RealignmentPossible(len: nat, pos: nat)
    requires len > 0
    ensures (exists k: nat :: Divides(len, pos + HEADER_SIZE * k)) <==> Divides(Gcd(HEADER_SIZE, len), pos)
    ensures Divides(Gcd(HEADER_SIZE, len), pos) ==>
              exists k: nat :: k < Period(len) && Divides(len, pos + HEADER_SIZE * k)
  {
    hide Gcd, Divides, Period;
    if exists k: nat :: Divides(len, pos + HEADER_SIZE * k) {
      var k: nat :| Divides(len, pos + HEADER_SIZE * k);
      BoundaryOffset(len, pos, k);
    }
    if Divides(Gcd(HEADER_SIZE, len), pos) {
      var k := SomeBoundary(len, pos);
    }
  }

  /** After `k` headers from `pos` the reader is at a boundary for the first time. */
  ghost predicate IsFirstBoundary(len: nat, pos: nat, k: nat) {
    Divides(len, pos + HEADER_SIZE * k) && forall i :: 0 <= i < k ==> !Divides(len, pos + HEADER_SIZE * i)
  }

  lemma SomeFirstBoundary(len: nat, pos: nat) returns (k: nat)
    requires len > 0 && Divides(Gcd(HEADER_SIZE, len), pos)
    ensures k < Period(len) && IsFirstBoundary(len, pos, k)
  {
    hide Divides, Period, Gcd;
    var bound := SomeBoundary(len, pos);
    k := 0;
    while !Divides(len, pos + HEADER_SIZE * k)
      invariant k <= bound
      invariant forall i :: 0 <= i < k ==> !Divides(len, pos + HEADER_SIZE * i)
      decreases bound - k
    {
      k := k + 1;
    }
  }

  /** The first boundary that can be reached at all is reached after fewer than a period of headers, and as
      long as no block before it happens to start with the magic the reader drops exactly those. */
  lemma RecoveryFromMisalignment(stream: seq<byte>, len: nat, pos: nat, k: nat)
    requires len > 0 && IsFirstBoundary(len, pos, k) && NoMagicRead(stream, pos, k)
    ensures k < Period(len) && pos + HEADER_SIZE * k <= |stream|
    ensures Actions(stream, pos) == Drops(pos, k) + Actions(stream, pos + HEADER_SIZE * k)
  {
    BoundaryOffset(len, pos, k);
    var bound := SomeFirstBoundary(len, pos);
    assert k == bound;
    NoMagicRun(stream, pos, k);
    DropRun(stream, pos, k);
  }

  // ---------- what is lost ----------

  /** Once at a boundary with whole frames ahead, the reader hands over every one of them. */
  lemma FramesAfterRecovery(stream: seq<byte>, pos: nat, k: nat, rest: seq<Frame>)
    requires NoMagicRead(stream, pos, k)
    requires stream[pos + HEADER_SIZE * k..] == PrintAll(rest)
    requires forall f :: f in rest ==> |f.encryptedPayload| <= 512
    ensures Actions(stream, pos) == Drops(pos, k) + Slices(rest, pos + HEADER_SIZE * k)
  {
    hide Frame.Print, PrintAll, Slices;
    var start := pos + HEADER_SIZE * k;
    NoMagicRun(stream, pos, k);
    DropRun(stream, pos, k);
    assert stream[start..start + |PrintAll(rest)|] == PrintAll(rest);
    ActionsOfPrinted(stream, start, rest);
    assert Actions(stream, |stream|) == [];
  }

  const SENSOR_FRAME_SIZE := HEADER_SIZE + PAYLOAD_SIZE + AUTH_TAG_SIZE

  /** The 59-byte frames of both senders: 59 headers per damaged magic, which are the bytes of 35 frames. */
  lemma SensorFramePeriod()
    ensures Period(SENSOR_FRAME_SIZE) == 59 && HEADER_SIZE * 59 == 35 * SENSOR_FRAME_SIZE
    ensures Gcd(HEADER_SIZE, SENSOR_FRAME_SIZE) == 1
    ensures forall pos: nat :: Divides(Gcd(HEADER_SIZE, SENSOR_FRAME_SIZE), pos)
  {
    assert Gcd(35, 59) == Gcd(59, 35) == Gcd(35, 24) == Gcd(24, 11) == Gcd(11, 2) == Gcd(2, 1) == Gcd(1, 0) == 1;
    forall pos: nat
      ensures Divides(1, pos)
    {
      assert Multiple(pos, 1, pos);
    }
  }

  ghost predicate SensorFrames(frames: seq<Frame>) {
    forall f :: f in frames ==> |f.encryptedPayload| == 8
  }

  lemma SensorFramesTail(frames: seq<Frame>)
    requires SensorFrames(frames) && frames != []
    ensures |frames[0].Print()| == SENSOR_FRAME_SIZE && SensorFrames(frames[1..])
  {
    hide Frame.Print;
    assert frames[0] in frames;
  }

  lemma {:induction false} SensorFramesLength(frames: seq<Frame>)
    requires SensorFrames(frames)
    ensures |PrintAll(frames)| == SENSOR_FRAME_SIZE * |frames|
  {
    hide SensorFrames, Frame.Print;
    if frames != [] {
      SensorFramesTail(frames);
      SensorFramesLength(frames[1..]);
    }
  }

  lemma {:induction false} PrintAllSplit(frames: seq<Frame>, n: nat)
    requires n <= |frames|
    ensures PrintAll(frames) == PrintAll(frames[..n]) + PrintAll(frames[n..])
  {
    hide Frame.Print;
    if n == 0 {
      assert frames[0..] == frames;
    } else {
      PrintAllSplit(frames[1..], n - 1);
      assert frames[..n][1..] == frames[1..][..n - 1] && frames[n..] == frames[1..][n - 1..];
    }
  }

  /** The headers dropped for a damaged magic with `n` whole frames after it: the period, or what is left. */
  function DroppedBefore(n: nat): nat {
    if n >= 34 then 59 else SENSOR_FRAME_SIZE * (n + 1) / HEADER_SIZE
  }

  lemma SensorFramesFit(frames: seq<Frame>)
    requires SensorFrames(frames)
    ensures forall f :: f in frames ==> |f.encryptedPayload| <= 512
  {
  }

  lemma NothingLeft(stream: seq<byte>, pos: nat)
    requires pos <= |stream| < pos + HEADER_SIZE
    ensures Actions(stream, pos) == []
  {
  }

  lemma DamageNearEnd(stream: seq<byte>, before: seq<Frame>, pos: nat, k: nat)
    requires SensorFrames(before) && At(stream, 0, PrintAll(before)) && |PrintAll(before)| == pos
    requires NoMagicRead(stream, pos, k) && k > 0 && |stream| < pos + HEADER_SIZE * (k + 1)
    ensures Actions(stream, 0) == Slices(before, 0) + Drops(pos, k)
  {
    hide PrintAll, Slices, Drops, SensorFrames, At;
    SensorFramesFit(before);
    ActionsOfPrinted(stream, 0, before);
    NoMagicRun(stream, pos, k);
    DropRun(stream, pos, k);
    NothingLeft(stream, pos + HEADER_SIZE * k);
    assert Drops(pos, k) + [] == Drops(pos, k);
  }

  lemma DamageAfter(stream: seq<byte>, before: seq<Frame>, pos: nat, rest: seq<Frame>)
    requires SensorFrames(before) && SensorFrames(rest)
    requires At(stream, 0, PrintAll(before)) && |PrintAll(before)| == pos
    requires NoMagicRead(stream, pos, 59) && pos + HEADER_SIZE * 59 <= |stream|
    requires stream[pos + HEADER_SIZE * 59..] == PrintAll(rest)
    ensures Actions(stream, 0) == Slices(before, 0) + (Drops(pos, 59) + Slices(rest, pos + HEADER_SIZE * 59))
  {
    hide PrintAll, Slices, Actions, Drops, NoMagicRead, SensorFrames, At;
    SensorFramesFit(before);
    SensorFramesFit(rest);
    ActionsOfPrinted(stream, 0, before);
    FramesAfterRecovery(stream, pos, 59, rest);
  }

  lemma FourParts(a: seq<byte>, b: seq<byte>, c: seq<byte>, d: seq<byte>)
    ensures a + (b + (c + d)) == a + (b + c + d)
    ensures At(a + (b + c + d), 0, a) && (a + (b + c + d))[|a| + |b + c|..] == d
  {
    assert b + (c + d) == b + c + d;
  }

  lemma SensorFramesSplit(frames: seq<Frame>, n: nat)
    requires SensorFrames(frames) && n <= |frames|
    ensures SensorFrames(frames[..n]) && SensorFrames(frames[n..])
  {
  }

  /** One damaged magic costs a sender 35 frames, the damaged one and the 34 after it: every frame before
      and every later frame is handed over, as long as no misaligned block starts with the magic. A stream
      that ends sooner ends with dropped headers. */
  lemma DamageCosts35Frames(before: seq<Frame>, damaged: seq<byte>, after: seq<Frame>)
    requires SensorFrames(before) && SensorFrames(after) && |damaged| == SENSOR_FRAME_SIZE
    requires NoMagicRead(PrintAll(before) + (damaged + PrintAll(after)), SENSOR_FRAME_SIZE * |before|,
                         DroppedBefore(|after|))
    ensures var pos := SENSOR_FRAME_SIZE * |before|;
            var handed := if |after| >= 34 then Slices(after[34..], pos + 35 * SENSOR_FRAME_SIZE) else [];
            Actions(PrintAll(before) + (damaged + PrintAll(after)), 0)
            == Slices(before, 0) + (Drops(pos, DroppedBefore(|after|)) + handed)
  {
    hide PrintAll, Slices, Actions, Drops, NoMagicRead, SensorFrames, At;
    var pos := SENSOR_FRAME_SIZE * |before|;
    SensorFramesLength(before);
    if |after| >= 34 {
      SensorFramesSplit(after, 34);
      SensorFramesLength(after[..34]);
      PrintAllSplit(after, 34);
      FourParts(PrintAll(before), damaged, PrintAll(after[..34]), PrintAll(after[34..]));
      DamageAfter(PrintAll(before) + (damaged + PrintAll(after)), before, pos, after[34..]);
    } else {
      SensorFramesLength(after);
      FourParts(PrintAll(before), damaged, PrintAll(after), []);
      assert PrintAll(after) + [] == PrintAll(after);
      var k := DroppedBefore(|after|);
      DamageNearEnd(PrintAll(before) + (damaged + PrintAll(after)), before, pos, k);
      assert Drops(pos, k) + [] == Drops(pos, k);
    }
  }
}
