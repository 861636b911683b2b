/** The CRC register as a function on machine words, for arguments that need values. */
module CrcWords {
  import opened Words
  import opened Crc16

  /** One turn of the inner loop. */
  function Step(w: bv16): bv16 {
    if w & 0x8000 != 0 then (w << 1) ^ 0x1021 else w << 1
  }

  function Steps(w: bv16, k: nat): bv16
    decreases k
  {
    if k == 0 then w else Steps(Step(w), k - 1)
  }

  /** One turn of the outer loop; the byte stands in the high half of `high`. */
  function AbsorbWord(w: bv16, high: bv16): bv16 {
    Step(Step(Step(Step(Step(Step(Step(Step(w ^ high))))))))
  }

  lemma StepBits(w: bv16)
    ensures WordBits(Step(w)) == Shift(WordBits(w))
  {
    hide WordBits, Shift;
    ShiftWord(w);
  }

  lemma {:induction false} StepsBits(w: bv16, k: nat)
    ensures WordBits(Steps(w, k)) == Shifts(WordBits(w), k)
    decreases k
  {
    hide WordBits, Step, Shift;
    if k > 0 {
      StepBits(w);
      StepsBits(Step(w), k - 1);
    }
  }

  lemma EightSteps(w: bv16)
    ensures Steps(w, 8) == Step(Step(Step(Step(Step(Step(Step(Step(w))))))))
  {
    hide Step;
    assert Steps(w, 8) == Steps(Step(Step(w)), 6);
    assert Steps(Step(Step(w)), 6) == Steps(Step(Step(Step(Step(w)))), 4);
    assert Steps(Step(Step(Step(Step(w)))), 4) == Steps(Step(Step(Step(Step(Step(Step(w)))))), 2);
  }

  lemma AbsorbWordBits(w: bv16, high: bv16, b: byte)
    requires WordBits(high) == ByteBits(b) + Zeros(8)
    ensures WordBits(AbsorbWord(w, high)) == Absorb(WordBits(w), b)
  {
    hide WordBits, Step, ByteBits, Shifts;
    XorWords(w, high);
    StepsBits(w ^ high, 8);
    EightSteps(w ^ high);
  }

  // ---------- words are determined by their bits ----------

  lemma MaskZero(w: bv16)
    requires MaskBits(w) == Zeros(16)
    ensures w == 0
  {
    var s := MaskBits(w);
    assert forall i :: 0 <= i < 16 ==> !s[i];
    assert !s[0] && !s[1] && !s[2] && !s[3] && !s[4] && !s[5] && !s[6] && !s[7];
    assert !s[8] && !s[9] && !s[10] && !s[11] && !s[12] && !s[13] && !s[14] && !s[15];
  }

  lemma MaskOfZero()
    ensures MaskBits(0) == Zeros(16)
  {
  }

  lemma WordBitsZero(w: bv16)
    ensures WordBits(w) == Zeros(16) <==> w == 0
  {
    hide MaskBits;
    TopBitsAreMaskBits(w, 16);
    assert MaskBits(w)[..16] == MaskBits(w);
    if WordBits(w) == Zeros(16) {
      MaskZero(w);
    }
    MaskOfZero();
  }

  lemma XorIsZero(v: bv16, w: bv16)
    ensures v ^ w == 0 <==> v == w
  {
  }

  lemma WordBitsInjective(v: bv16, w: bv16)
    ensures WordBits(v) == WordBits(w) <==> v == w
  {
    hide WordBits;
    XorWords(v, w);
    XorZero(WordBits(v), WordBits(w));
    WordBitsZero(v ^ w);
    XorIsZero(v, w);
  }

  // ---------- the halves of a word ----------

  lemma MaskHalves(w: bv16)
    ensures MaskBits(w & 0xFF00) == MaskBits(w)[..8] + Zeros(8)
  {
  }

  /** The bytes that the sender prints, each in the high half of a word. */
  lemma HalvesAsBytes(w: bv16)
    ensures WordBits(w & 0xFF00) == ByteBits(HighOf(w)) + Zeros(8)
    ensures WordBits(w << 8) == ByteBits(LowOf(w)) + Zeros(8)
  {
    hide MaskBits, BitsByte, ByteBits;
    TopBitsAreMaskBits(w, 16);
    TopBitsAreMaskBits(w & 0xFF00, 16);
    TopBitsAreMaskBits(w << 8, 16);
    assert MaskBits(w)[..16] == MaskBits(w);
    assert MaskBits(w & 0xFF00)[..16] == MaskBits(w & 0xFF00);
    assert MaskBits(w << 8)[..16] == MaskBits(w << 8);
    MaskHalves(w);
    MaskLeftEight(w);
    ByteBitsBitsByte(WordBits(w)[..8]);
    ByteBitsBitsByte(WordBits(w)[8..]);
  }

  // ---------- messages as words ----------

  /** The bytes of a message, each in the high half of a word. */
  ghost predicate Spells(highs: seq<bv16>, data: seq<byte>) {
    |highs| == |data| && forall i :: 0 <= i < |data| ==> WordBits(highs[i]) == ByteBits(data[i]) + Zeros(8)
  }

  function AbsorbAll(w: bv16, highs: seq<bv16>): bv16
    decreases highs
  {
    if highs == [] then w else AbsorbAll(AbsorbWord(w, highs[0]), highs[1..])
  }

  lemma {:induction false} AbsorbAllBits(w: bv16, highs: seq<bv16>, data: seq<byte>)
    requires Spells(highs, data)
    ensures WordBits(AbsorbAll(w, highs)) == Continue(WordBits(w), data)
    decreases highs
  {
    hide WordBits, AbsorbWord, Absorb, ByteBits;
    if highs != [] {
      AbsorbWordBits(w, highs[0], data[0]);
      AbsorbAllBits(AbsorbWord(w, highs[0]), highs[1..], data[1..]);
    }
  }

  lemma CrcAsWord(highs: seq<bv16>, data: seq<byte>)
    requires Spells(highs, data)
    ensures WordBits(AbsorbAll(0xFFFF, highs)) == Crc(data)
  {
    hide WordBits;
    AbsorbAllBits(0xFFFF, highs, data);
    ConstantWords();
  }

  lemma AbsorbFirst(w: bv16, highs: seq<bv16>, a: bv16, rest: seq<bv16>)
    requires highs == [a] + rest
    ensures AbsorbAll(w, highs) == AbsorbAll(AbsorbWord(w, a), rest)
  {
    hide AbsorbWord;
    assert highs[1..] == rest;
  }

  lemma AbsorbThree(w: bv16, a: bv16, b: bv16, c: bv16)
    ensures AbsorbAll(w, [a, b, c]) == AbsorbWord(AbsorbWord(AbsorbWord(w, a), b), c)
  {
    hide AbsorbWord;
    AbsorbFirst(w, [a, b, c], a, [b, c]);
    AbsorbFirst(AbsorbWord(w, a), [b, c], b, [c]);
    AbsorbFirst(AbsorbWord(AbsorbWord(w, a), b), [c], c, []);
  }

  lemma {:induction false} AbsorbConcat(w: bv16, s: seq<bv16>, t: seq<bv16>)
    ensures AbsorbAll(w, s + t) == AbsorbAll(AbsorbAll(w, s), t)
    decreases s
  {
    hide AbsorbWord;
    if s == [] {
      assert s + t == t;
    } else {
      assert (s + t)[1..] == s[1..] + t;
      AbsorbConcat(AbsorbWord(w, s[0]), s[1..], t);
    }
  }

  lemma AbsorbSeven(w: bv16, a: bv16, b: bv16, c: bv16, d: bv16, e: bv16, f: bv16, g: bv16)
    ensures AbsorbAll(w, [a, b, c, d, e, f, g])
         == AbsorbWord(AbsorbWord(AbsorbWord(AbsorbWord(AbsorbWord(AbsorbWord(AbsorbWord(w, a), b), c), d), e), f), g)
  {
    hide AbsorbWord, AbsorbAll;
    var w3 := AbsorbWord(AbsorbWord(AbsorbWord(w, a), b), c);
    assert [a, b, c, d, e, f, g] == [a, b, c] + [d, e, f, g];
    AbsorbConcat(w, [a, b, c], [d, e, f, g]);
    AbsorbThree(w, a, b, c);
    AbsorbFirst(w3, [d, e, f, g], d, [e, f, g]);
    AbsorbThree(AbsorbWord(w3, d), e, f, g);
  }

  lemma EightBitsLow(c7: bool, c6: bool, c5: bool, c4: bool, c3: bool, c2: bool, c1: bool, c0: bool)
    ensures (EightBits(c7, c6, c5, c4, c3, c2, c1, c0) << 8) & 0xFF == 0
  {
  }

  lemma HighByteLow(b: byte)
    ensures HighByte(b) & 0xFF == 0
  {
    EightBitsLow(b / 128 % 2 == 1, b / 64 % 2 == 1, b / 32 % 2 == 1, b / 16 % 2 == 1,
                 b / 8 % 2 == 1, b / 4 % 2 == 1, b / 2 % 2 == 1, b % 2 == 1);
  }

  /** The bytes that every distance frame contains. */
  lemma ConstantBytes()
    ensures HighByte(0x00) == 0x0000 && HighByte(0x04) == 0x0400 && HighByte(0x55) == 0x5500 && HighByte(0xAA) == 0xAA00
  {
  }
}
