/** CRC-16 with generator x^16 + x^12 + x^5 + 1 (section 2 of ITU-T V.41) and preset 0xFFFF.

    The specification works on the sixteen bits of the register, most significant first; the three
    loops that compute it work on a `bv16` and are tied to it by `WordBits`. */
module Crc16 {
  import opened Words

  // ---------- bit strings ----------

  function Zeros(n: nat): (s: seq<bool>)
    ensures |s| == n
  {
    seq(n, _ => false)
  }

  function Xor(a: seq<bool>, b: seq<bool>): (s: seq<bool>)
    requires |a| == |b|
    ensures |s| == |a| && forall i :: 0 <= i < |a| ==> s[i] == (a[i] != b[i])
  {
    seq(|a|, i requires 0 <= i < |a| => a[i] != b[i])
  }

  type Register = s: seq<bool> | |s| == 16 witness Zeros(16)

  function ByteBits(b: byte): (s: seq<bool>)
    ensures |s| == 8
  {
    [b / 128 % 2 == 1, b / 64 % 2 == 1, b / 32 % 2 == 1, b / 16 % 2 == 1,
     b / 8 % 2 == 1, b / 4 % 2 == 1, b / 2 % 2 == 1, b % 2 == 1]
  }

  type bit = x: int | 0 <= x < 2

  function Digit(c: bool): bit {
    if c then 1 else 0
  }

  function Sum(c7: bit, c6: bit, c5: bit, c4: bit, c3: bit, c2: bit, c1: bit, c0: bit): byte {
    (((((((c7 as int) * 2 + c6) * 2 + c5) * 2 + c4) * 2 + c3) * 2 + c2) * 2 + c1) * 2 + c0
  }

  function BitsByte(c: seq<bool>): byte
    requires |c| == 8
  {
    Sum(Digit(c[0]), Digit(c[1]), Digit(c[2]), Digit(c[3]), Digit(c[4]), Digit(c[5]), Digit(c[6]), Digit(c[7]))
  }

  lemma HalveTwice(n: nat)
    ensures n / 2 / 2 == n / 4 && n / 4 / 2 == n / 8
  {
  }

  lemma HalveLater(n: nat)
    ensures n / 8 / 2 == n / 16 && n / 16 / 2 == n / 32
  {
  }

  lemma HalveLast(n: nat)
    ensures n / 32 / 2 == n / 64 && n / 64 / 2 == n / 128
  {
  }

  /** The quotients of a number whose halves are these: `q1 = q0 / 2`, and so on. */
  ghost predicate Halves(q0: nat, q1: nat, q2: nat, q3: nat, q4: nat, q5: nat, q6: nat, q7: nat) {
    q0 / 2 == q1 && q1 / 2 == q2 && q2 / 2 == q3 && q3 / 2 == q4 && q4 / 2 == q5 && q5 / 2 == q6 && q6 / 2 == q7
  }

  lemma QuotientsHalve(n: nat)
    ensures Halves(n, n / 2, n / 4, n / 8, n / 16, n / 32, n / 64, n / 128)
  {
    HalveTwice(n);
    HalveLater(n);
    HalveLast(n);
  }

  lemma LastDigit(n: nat, h: nat, c: bit)
    requires n == 2 * h + c
    ensures n / 2 == h && n % 2 == c
  {
  }

  lemma HalvesOfSum(c7: bit, c6: bit, c5: bit, c4: bit, c3: bit, c2: bit, c1: bit, c0: bit,
                    q0: nat, q1: nat, q2: nat, q3: nat, q4: nat, q5: nat, q6: nat, q7: nat)
    requires q0 == Sum(c7, c6, c5, c4, c3, c2, c1, c0) && Halves(q0, q1, q2, q3, q4, q5, q6, q7)
    ensures q7 % 2 == c7 && q6 % 2 == c6 && q5 % 2 == c5 && q4 % 2 == c4
    ensures q3 % 2 == c3 && q2 % 2 == c2 && q1 % 2 == c1 && q0 % 2 == c0
  {
    var h2 := (c7 as int) * 2 + c6;
    var h3 := h2 * 2 + c5;
    var h4 := h3 * 2 + c4;
    var h5 := h4 * 2 + c3;
    var h6 := h5 * 2 + c2;
    var h7 := h6 * 2 + c1;
    LastDigit(q0, h7, c0);
    LastDigit(h7, h6, c1);
    LastDigit(h6, h5, c2);
    LastDigit(h5, h4, c3);
    LastDigit(h4, h3, c4);
    LastDigit(h3, h2, c5);
    LastDigit(h2, c7, c6);
  }

  lemma DigitsOfSum(c7: bit, c6: bit, c5: bit, c4: bit, c3: bit, c2: bit, c1: bit, c0: bit)
    ensures var n := Sum(c7, c6, c5, c4, c3, c2, c1, c0);
            n / 128 % 2 == c7 && n / 64 % 2 == c6 && n / 32 % 2 == c5 && n / 16 % 2 == c4 &&
            n / 8 % 2 == c3 && n / 4 % 2 == c2 && n / 2 % 2 == c1 && n % 2 == c0
  {
    hide Sum, Halves;
    var n := Sum(c7, c6, c5, c4, c3, c2, c1, c0);
    QuotientsHalve(n);
    HalvesOfSum(c7, c6, c5, c4, c3, c2, c1, c0, n, n / 2, n / 4, n / 8, n / 16, n / 32, n / 64, n / 128);
  }

  lemma HalfAndDigit(n: nat, h: nat)
    requires n / 2 == h
    ensures n == 2 * h + n % 2
  {
  }

  lemma SumStepwise(d7: bit, d6: bit, d5: bit, d4: bit, d3: bit, d2: bit, d1: bit, d0: bit,
                    q0: nat, q1: nat, q2: nat, q3: nat, q4: nat, q5: nat, q6: nat)
    requires q6 == 2 * d7 + d6 && q5 == 2 * q6 + d5 && q4 == 2 * q5 + d4 && q3 == 2 * q4 + d3
    requires q2 == 2 * q3 + d2 && q1 == 2 * q2 + d1 && q0 == 2 * q1 + d0
    ensures q0 == Sum(d7, d6, d5, d4, d3, d2, d1, d0)
  {
  }

  lemma SumOfHalves(q0: byte, q1: nat, q2: nat, q3: nat, q4: nat, q5: nat, q6: nat, q7: nat)
    requires Halves(q0, q1, q2, q3, q4, q5, q6, q7) && q7 < 2
    ensures q0 == Sum(q7 % 2, q6 % 2, q5 % 2, q4 % 2, q3 % 2, q2 % 2, q1 % 2, q0 % 2)
  {
    hide Sum;
    HalfAndDigit(q0, q1);
    HalfAndDigit(q1, q2);
    HalfAndDigit(q2, q3);
    HalfAndDigit(q3, q4);
    HalfAndDigit(q4, q5);
    HalfAndDigit(q5, q6);
    HalfAndDigit(q6, q7);
    SumStepwise(q7 % 2, q6 % 2, q5 % 2, q4 % 2, q3 % 2, q2 % 2, q1 % 2, q0 % 2, q0, q1, q2, q3, q4, q5, q6);
  }

  lemma SumOfDigits(b: byte)
    ensures b == Sum(b / 128 % 2, b / 64 % 2, b / 32 % 2, b / 16 % 2, b / 8 % 2, b / 4 % 2, b / 2 % 2, b % 2)
  {
    hide Sum, Halves;
    QuotientsHalve(b);
    SumOfHalves(b, b / 2, b / 4, b / 8, b / 16, b / 32, b / 64, b / 128);
  }

  lemma BitsOfDigits(c7: bool, c6: bool, c5: bool, c4: bool, c3: bool, c2: bool, c1: bool, c0: bool)
    ensures ByteBits(Sum(Digit(c7), Digit(c6), Digit(c5), Digit(c4), Digit(c3), Digit(c2), Digit(c1), Digit(c0)))
         == [c7, c6, c5, c4, c3, c2, c1, c0]
  {
    DigitsOfSum(Digit(c7), Digit(c6), Digit(c5), Digit(c4), Digit(c3), Digit(c2), Digit(c1), Digit(c0));
  }

  lemma EightElements(c: seq<bool>)
    requires |c| == 8
    ensures c == [c[0], c[1], c[2], c[3], c[4], c[5], c[6], c[7]]
  {
  }

  lemma ByteBitsBitsByte(c: seq<bool>)
    requires |c| == 8
    ensures ByteBits(BitsByte(c)) == c
  {
    BitsOfDigits(c[0], c[1], c[2], c[3], c[4], c[5], c[6], c[7]);
    EightElements(c);
  }

  lemma DigitOfParity(n: int)
    ensures Digit(n % 2 == 1) == n % 2
  {
  }

  /** A byte is determined by its bits. */
  lemma BitsByteByteBits(b: byte)
    ensures BitsByte(ByteBits(b)) == b
  {
    SumOfDigits(b);
    DigitOfParity(b / 128); DigitOfParity(b / 64); DigitOfParity(b / 32); DigitOfParity(b / 16);
    DigitOfParity(b / 8); DigitOfParity(b / 4); DigitOfParity(b / 2); DigitOfParity(b);
  }

  function Bits(data: seq<byte>): (s: seq<bool>)
    ensures |s| == 8 * |data|
  {
    if data == [] then [] else ByteBits(data[0]) + Bits(data[1..])
  }

  lemma {:induction false} BitsConcat(a: seq<byte>, b: seq<byte>)
    ensures Bits(a + b) == Bits(a) + Bits(b)
  {
    if a == [] {
      assert a + b == b;
    } else {
      assert (a + b)[1..] == a[1..] + b;
      BitsConcat(a[1..], b);
    }
  }

  lemma {:induction false} BitsInjective(a: seq<byte>, b: seq<byte>)
    requires |a| == |b| && Bits(a) == Bits(b)
    ensures a == b
  {
    if a != [] {
      assert ByteBits(a[0]) == Bits(a)[..8] && ByteBits(b[0]) == Bits(b)[..8];
      BitsByteByteBits(a[0]);
      BitsByteByteBits(b[0]);
      assert Bits(a[1..]) == Bits(a)[8..] && Bits(b[1..]) == Bits(b)[8..];
      BitsInjective(a[1..], b[1..]);
    }
  }

  /** `u16::from_be_bytes`. */
  function WordFromBytes(s: seq<byte>): Register
    requires |s| == 2
  {
    ByteBits(s[0]) + ByteBits(s[1])
  }

  /** `crc.to_be_bytes()`. */
  function WordToBytes(r: Register): (s: seq<byte>)
    ensures |s| == 2 && WordFromBytes(s) == r
  {
    ByteBitsBitsByte(r[..8]);
    ByteBitsBitsByte(r[8..]);
    [BitsByte(r[..8]), BitsByte(r[8..])]
  }

  lemma WordBytesRoundTrip(s: seq<byte>)
    requires |s| == 2
    ensures WordToBytes(WordFromBytes(s)) == s
    ensures WordFromBytes(s) == Bits(s)
  {
    var w := WordFromBytes(s);
    assert w[..8] == ByteBits(s[0]) && w[8..] == ByteBits(s[1]);
    BitsByteByteBits(s[0]);
    BitsByteByteBits(s[1]);
    assert Bits(s) == ByteBits(s[0]) + Bits(s[1..]) && Bits(s[1..]) == ByteBits(s[1]) + Bits(s[1..][1..]);
  }

  // ---------- the register ----------

  /** x^12 + x^5 + 1: the generator without its leading term, 0x1021. */
  function Generator(): Register {
    [false, false, false, true, false, false, false, false, false, false, true, false, false, false, false, true]
  }

  function Preset(): Register {
    seq(16, _ => true)
  }

  /** One clock of a bit-serial divider: multiply by x, bring in a message bit, subtract the generator
      when the coefficient of x^16 is one. */
  function Feed(r: Register, bit: bool): Register {
    if r[0] != bit then Xor(r[1..] + [false], Generator()) else r[1..] + [false]
  }

  function FeedBits(r: Register, bits: seq<bool>): Register
    decreases bits
  {
    if bits == [] then r else FeedBits(Feed(r, bits[0]), bits[1..])
  }

  /** The inner loop of the three programs, which shifts without bringing in a bit. */
  function Shift(r: Register): Register {
    if r[0] then Xor(r[1..] + [false], Generator()) else r[1..] + [false]
  }

  function Shifts(r: Register, k: nat): Register
    decreases k
  {
    if k == 0 then r else Shifts(Shift(r), k - 1)
  }

  /** The outer loop: xor the byte into the high half, then shift eight times. */
  function Absorb(r: Register, b: byte): Register {
    Shifts(Xor(r, ByteBits(b) + Zeros(8)), 8)
  }

  function Continue(r: Register, data: seq<byte>): Register
    decreases data
  {
    if data == [] then r else Continue(Absorb(r, data[0]), data[1..])
  }

  function Crc(data: seq<byte>): Register {
    Continue(Preset(), data)
  }

  // ---------- byte-at-a-time equals bit-serial ----------

  lemma ShiftXor(r: Register, w: Register)
    ensures Shift(Xor(r, w)) == Xor(Feed(r, w[0]), w[1..] + [false])
  {
  }

  /** Up to sixteen message bits may be added to the register first and shifted out afterwards. */
  lemma {:induction false} FeedShifts(r: Register, bits: seq<bool>)
    requires |bits| <= 16
    ensures FeedBits(r, bits) == Shifts(Xor(r, bits + Zeros(16 - |bits|)), |bits|)
    decreases bits
  {
    var w := bits + Zeros(16 - |bits|);
    if bits == [] {
      assert Xor(r, w) == r;
    } else {
      ShiftXor(r, w);
      assert w[1..] + [false] == bits[1..] + Zeros(16 - |bits[1..]|);
      FeedShifts(Feed(r, bits[0]), bits[1..]);
    }
  }

  lemma {:induction false} FeedConcat(r: Register, a: seq<bool>, b: seq<bool>)
    ensures FeedBits(r, a + b) == FeedBits(FeedBits(r, a), b)
    decreases a
  {
    if a == [] {
      assert a + b == b;
    } else {
      assert (a + b)[1..] == a[1..] + b;
      FeedConcat(Feed(r, a[0]), a[1..], b);
    }
  }

  /** The byte-at-a-time loops compute what the bit-serial divider computes on the message bits. */
  lemma {:induction false} ContinueIsFeed(r: Register, data: seq<byte>)
    ensures Continue(r, data) == FeedBits(r, Bits(data))
    decreases data
  {
    if data != [] {
      FeedShifts(r, ByteBits(data[0]));
      FeedConcat(r, ByteBits(data[0]), Bits(data[1..]));
      ContinueIsFeed(Absorb(r, data[0]), data[1..]);
    }
  }

  /** The CRC of a concatenation continues from the CRC of its first part. */
  lemma {:induction false} ContinueConcat(r: Register, a: seq<byte>, b: seq<byte>)
    ensures Continue(r, a + b) == Continue(Continue(r, a), b)
    decreases a
  {
    if a == [] {
      assert a + b == b;
    } else {
      assert (a + b)[1..] == a[1..] + b;
      ContinueConcat(Absorb(r, a[0]), a[1..], b);
    }
  }

  // ---------- linearity and invertibility ----------

  lemma FeedLinear(a: Register, b: Register, x: bool, y: bool)
    ensures Feed(Xor(a, b), x != y) == Xor(Feed(a, x), Feed(b, y))
  {
  }

  lemma {:induction false} FeedBitsLinear(a: Register, b: Register, x: seq<bool>, y: seq<bool>)
    requires |x| == |y|
    ensures FeedBits(Xor(a, b), Xor(x, y)) == Xor(FeedBits(a, x), FeedBits(b, y))
    decreases x
  {
    if x != [] {
      FeedLinear(a, b, x[0], y[0]);
      assert Xor(x, y)[1..] == Xor(x[1..], y[1..]);
      FeedBitsLinear(Feed(a, x[0]), Feed(b, y[0]), x[1..], y[1..]);
    }
  }

  /** The generator ends in 1, so the bit that was shifted out can be read off the result. */
  lemma FeedInjective(a: Register, b: Register, bit: bool)
    requires Feed(a, bit) == Feed(b, bit)
    ensures a == b
  {
    var s, t := Feed(a, bit), Feed(b, bit);
    assert s[15] == (a[0] != bit) && t[15] == (b[0] != bit);
    forall i | 0 < i < 16
      ensures a[i] == b[i]
    {
      assert s[i - 1] == t[i - 1];
      assert a[i] == (a[1..] + [false])[i - 1] && b[i] == (b[1..] + [false])[i - 1];
    }
  }

  lemma {:induction false} FeedBitsInjective(a: Register, b: Register, bits: seq<bool>)
    requires FeedBits(a, bits) == FeedBits(b, bits)
    ensures a == b
    decreases bits
  {
    if bits != [] {
      FeedBitsInjective(Feed(a, bits[0]), Feed(b, bits[0]), bits[1..]);
      FeedInjective(a, b, bits[0]);
    }
  }

  lemma {:induction false} FeedZeros(n: nat)
    ensures FeedBits(Zeros(16), Zeros(n)) == Zeros(16)
  {
    if n > 0 {
      assert Zeros(16)[1..] + [false] == Zeros(16);
      assert Zeros(n)[1..] == Zeros(n - 1);
      FeedZeros(n - 1);
    }
  }

  // ---------- residue ----------

  lemma XorZero(a: seq<bool>, b: seq<bool>)
    requires |a| == |b|
    ensures Xor(a, b) == Zeros(|a|) <==> a == b
  {
  }

  lemma XorWithZeros(a: seq<bool>)
    ensures Xor(a, Zeros(|a|)) == a && Xor(Zeros(|a|), a) == a
  {
  }

  /** Feeding sixteen bits is the same as adding them to the register and feeding zeros. */
  lemma FeedWord(r: Register, w: Register)
    ensures FeedBits(r, w) == FeedBits(Xor(r, w), Zeros(16))
  {
    XorWithZeros(Xor(r, w));
    assert w + Zeros(0) == w && Zeros(16) + Zeros(0) == Zeros(16);
    FeedShifts(r, w);
    FeedShifts(Xor(r, w), Zeros(16));
  }

  /** Sixteen more bits leave the register at zero exactly when they equal it. */
  lemma ResidueFrom(r: Register, w: Register)
    ensures FeedBits(r, w) == Zeros(16) <==> w == r
  {
    FeedWord(r, w);
    FeedZeros(16);
    XorZero(r, w);
    if FeedBits(r, w) == Zeros(16) {
      FeedBitsInjective(Xor(r, w), Zeros(16), Zeros(16));
    }
  }

  /** Comparing a received CRC with the computed one is the same test as running the register over the
      whole message and finding it zero. */
  lemma Residue(data: seq<byte>, check: seq<byte>)
    requires |check| == 2
    ensures WordFromBytes(check) == Crc(data) <==> Crc(data + check) == Zeros(16)
    ensures Crc(data + WordToBytes(Crc(data))) == Zeros(16)
  {
    var c := Crc(data);
    ContinueConcat(Preset(), data, check);
    ContinueIsFeed(c, check);
    WordBytesRoundTrip(check);
    ResidueFrom(c, Bits(check));
    var own := WordToBytes(c);
    ContinueConcat(Preset(), data, own);
    ContinueIsFeed(c, own);
    WordBytesRoundTrip(own);
    ResidueFrom(c, Bits(own));
  }

  // ---------- the register as a machine word ----------

  function Top(w: bv16): bool {
    w & 0x8000 != 0
  }

  /** The `k` highest bits of a `u16`. */
  function TopBits(w: bv16, k: nat): (s: seq<bool>)
    ensures |s| == k
    decreases k
  {
    if k == 0 then [] else [Top(w)] + TopBits(w << 1, k - 1)
  }

  function WordBits(w: bv16): Register {
    TopBits(w, 16)
  }

  function EightBits(c7: bool, c6: bool, c5: bool, c4: bool, c3: bool, c2: bool, c1: bool, c0: bool): bv16 {
    (if c7 then 0x80 else 0) | (if c6 then 0x40 else 0) | (if c5 then 0x20 else 0) | (if c4 then 0x10 else 0) |
    (if c3 then 0x08 else 0) | (if c2 then 0x04 else 0) | (if c1 then 0x02 else 0) | (if c0 then 0x01 else 0)
  }

  /** `(byte as u16) << 8`. */
  function HighByte(b: byte): bv16 {
    EightBits(b / 128 % 2 == 1, b / 64 % 2 == 1, b / 32 % 2 == 1, b / 16 % 2 == 1,
              b / 8 % 2 == 1, b / 4 % 2 == 1, b / 2 % 2 == 1, b % 2 == 1) << 8
  }

  function MaskBits(w: bv16): Register {
    [w & 0x8000 != 0, w & 0x4000 != 0, w & 0x2000 != 0, w & 0x1000 != 0,
     w & 0x0800 != 0, w & 0x0400 != 0, w & 0x0200 != 0, w & 0x0100 != 0,
     w & 0x0080 != 0, w & 0x0040 != 0, w & 0x0020 != 0, w & 0x0010 != 0,
     w & 0x0008 != 0, w & 0x0004 != 0, w & 0x0002 != 0, w & 0x0001 != 0]
  }

  lemma MaskLeft(w: bv16)
    ensures MaskBits(w << 1) == MaskBits(w)[1..] + [false]
  {
  }

  lemma MaskLeftEight(w: bv16)
    ensures MaskBits(w << 8) == MaskBits(w)[8..] + Zeros(8)
  {
  }

  lemma MaskEight(c7: bool, c6: bool, c5: bool, c4: bool, c3: bool, c2: bool, c1: bool, c0: bool)
    ensures MaskBits(EightBits(c7, c6, c5, c4, c3, c2, c1, c0))[8..] == [c7, c6, c5, c4, c3, c2, c1, c0]
  {
  }

  lemma MaskHigh(c7: bool, c6: bool, c5: bool, c4: bool, c3: bool, c2: bool, c1: bool, c0: bool)
    ensures MaskBits(EightBits(c7, c6, c5, c4, c3, c2, c1, c0) << 8) == [c7, c6, c5, c4, c3, c2, c1, c0] + Zeros(8)
  {
    hide MaskBits, EightBits;
    MaskLeftEight(EightBits(c7, c6, c5, c4, c3, c2, c1, c0));
    MaskEight(c7, c6, c5, c4, c3, c2, c1, c0);
  }

  lemma MaskGenerator()
    ensures MaskBits(0x1021) == Generator() && MaskBits(0xFFFF) == Preset()
  {
  }

  lemma ShiftedPrefix(s: Register, t: Register, k: nat)
    requires t == s[1..] + [false] && 0 < k <= 16
    ensures [s[0]] + t[..k - 1] == s[..k]
  {
  }

  lemma {:induction false} TopBitsAreMaskBits(w: bv16, k: nat)
    requires k <= 16
    ensures TopBits(w, k) == MaskBits(w)[..k]
    decreases k
  {
    if k > 0 {
      TopBitsAreMaskBits(w << 1, k - 1);
      MaskLeft(w);
      ShiftedPrefix(MaskBits(w), MaskBits(w << 1), k);
    }
  }

  lemma TopXor(v: bv16, w: bv16)
    ensures Top(v ^ w) == (Top(v) != Top(w)) && (v ^ w) << 1 == (v << 1) ^ (w << 1)
  {
  }

  lemma XorCons(c: bool, d: bool, a: seq<bool>, b: seq<bool>)
    requires |a| == |b|
    ensures Xor([c] + a, [d] + b) == [c != d] + Xor(a, b)
  {
  }

  lemma {:induction false} XorTopBits(v: bv16, w: bv16, k: nat)
    ensures TopBits(v ^ w, k) == Xor(TopBits(v, k), TopBits(w, k))
    decreases k
  {
    hide Top;
    if k > 0 {
      TopXor(v, w);
      XorTopBits(v << 1, w << 1, k - 1);
      XorCons(Top(v), Top(w), TopBits(v << 1, k - 1), TopBits(w << 1, k - 1));
    }
  }

  lemma XorWords(v: bv16, w: bv16)
    ensures WordBits(v ^ w) == Xor(WordBits(v), WordBits(w))
  {
    XorTopBits(v, w, 16);
  }

  lemma ConstantWords()
    ensures WordBits(0xFFFF) == Preset() && WordBits(0x1021) == Generator()
  {
    MaskGenerator();
    TopBitsAreMaskBits(0xFFFF, 16);
    TopBitsAreMaskBits(0x1021, 16);
  }

  lemma LeftWord(w: bv16)
    ensures WordBits(w << 1) == WordBits(w)[1..] + [false]
  {
    TopBitsAreMaskBits(w, 16);
    TopBitsAreMaskBits(w << 1, 16);
    MaskLeft(w);
  }

  /** The two branches of the inner loop, on machine words. */
  lemma ShiftWord(w: bv16)
    ensures Top(w) ==> WordBits((w << 1) ^ 0x1021) == Shift(WordBits(w))
    ensures !Top(w) ==> WordBits(w << 1) == Shift(WordBits(w))
  {
    LeftWord(w);
    ConstantWords();
    XorWords(w << 1, 0x1021);
  }

  lemma HighWord(b: byte)
    ensures WordBits(HighByte(b)) == ByteBits(b) + Zeros(8)
  {
    MaskHigh(b / 128 % 2 == 1, b / 64 % 2 == 1, b / 32 % 2 == 1, b / 16 % 2 == 1,
             b / 8 % 2 == 1, b / 4 % 2 == 1, b / 2 % 2 == 1, b % 2 == 1);
    TopBitsAreMaskBits(HighByte(b), 16);
  }

  /** `(word >> 8) & 0xFF` and `word & 0xFF`. */
  function HighOf(w: bv16): byte {
    BitsByte(WordBits(w)[..8])
  }

  function LowOf(w: bv16): byte {
    BitsByte(WordBits(w)[8..])
  }

  method WordOfHighByte(b: byte) returns (w: bv16)
    ensures WordBits(w) == ByteBits(b) + Zeros(8)
  {
    HighWord(b);
    w := HighByte(b);
  }

  /** One turn of the outer loop, with the inner loop of the three programs: xor the byte into the high
      half of the word, then eight times shift left and subtract the generator if a one fell out. */
  method AbsorbByte(word: bv16, b: byte) returns (crc: bv16)
    ensures WordBits(crc) == Absorb(WordBits(word), b)
  {
    hide WordBits, Shift, ByteBits;
    var high := WordOfHighByte(b);
    XorWords(word, high);
    crc := word ^ high;
    for j := 0 to 8
      invariant Shifts(WordBits(crc), 8 - j) == Absorb(WordBits(word), b)
    {
      ShiftWord(crc);
      if crc & 0x8000 != 0 {
        crc := (crc << 1) ^ 0x1021;
      } else {
        crc := crc << 1;
      }
    }
  }
}
