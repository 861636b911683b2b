/** The order of x modulo the generator: 32767. Two wrong bits escape the CRC exactly when their distance is
    a multiple of it. */
module CrcOrder {
  import opened Words
  import opened Crc16
  import opened CrcTheory
  import opened CrcWords
  import opened Divisibility

  // ---------- shifting is multiplication by x ----------

  function Term(c: bool, v: Register): Register {
    if c then v else Zeros(16)
  }

  lemma ShiftOfXor(a: Register, b: Register)
    ensures Shift(Xor(a, b)) == Xor(Shift(a), Shift(b))
  {
    assert Feed(a, false) == Shift(a) && Feed(b, false) == Shift(b) && Feed(Xor(a, b), false) == Shift(Xor(a, b));
    FeedLinear(a, b, false, false);
  }

  lemma ShiftOfZero()
    ensures Shift(Zeros(16)) == Zeros(16)
  {
    assert Zeros(16)[1..] + [false] == Zeros(16);
  }

  lemma ShiftOfTerm(c: bool, v: Register)
    ensures Shift(Term(c, v)) == Term(c, Shift(v))
  {
    ShiftOfZero();
  }

  lemma {:induction false} ShiftsNext(r: Register, k: nat)
    ensures Shifts(r, k + 1) == Shift(Shifts(r, k))
    decreases k
  {
    hide Shift;
    if k > 0 {
      ShiftsNext(Shift(r), k - 1);
    }
  }

  lemma {:induction false} ShiftsAdd(r: Register, a: nat, b: nat)
    ensures Shifts(r, a + b) == Shifts(Shifts(r, a), b)
    decreases a
  {
    hide Shift;
    if a > 0 {
      ShiftsAdd(Shift(r), a - 1, b);
    }
  }

  lemma {:induction false} FeedZerosIsShifts(r: Register, k: nat)
    ensures FeedBits(r, Zeros(k)) == Shifts(r, k)
    decreases k
  {
    hide Generator;
    if k > 0 {
      assert Zeros(k)[1..] == Zeros(k - 1) && Feed(r, false) == Shift(r);
      FeedZerosIsShifts(Shift(r), k - 1);
    }
  }

  lemma ShiftsInjective(a: Register, b: Register, k: nat)
    requires Shifts(a, k) == Shifts(b, k)
    ensures a == b
  {
    FeedZerosIsShifts(a, k);
    FeedZerosIsShifts(b, k);
    FeedBitsInjective(a, b, Zeros(k));
  }

  // ---------- multiplication modulo the generator ----------

  /** acc * x^n + factor * v modulo the generator, for a factor of n coefficients, leading one first. */
  function MulFrom(acc: Register, factor: seq<bool>, v: Register): Register
    decreases factor
  {
    if factor == [] then acc else MulFrom(Xor(Shift(acc), Term(factor[0], v)), factor[1..], v)
  }

  function Mul(w: Register, v: Register): Register {
    MulFrom(Zeros(16), w, v)
  }

  lemma XorSwap(a: Register, b: Register, c: Register, d: Register)
    ensures Xor(Xor(a, b), Xor(c, d)) == Xor(Xor(a, c), Xor(b, d))
  {
  }

  lemma TermOfXor(c: bool, u: Register, v: Register)
    ensures Term(c, Xor(u, v)) == Xor(Term(c, u), Term(c, v))
  {
  }

  lemma {:induction false} MulFromXor(a: Register, b: Register, w: seq<bool>, u: Register, v: Register)
    ensures MulFrom(Xor(a, b), w, Xor(u, v)) == Xor(MulFrom(a, w, u), MulFrom(b, w, v))
    decreases w
  {
    hide Shift, Xor, Term;
    if w != [] {
      ShiftOfXor(a, b);
      TermOfXor(w[0], u, v);
      XorSwap(Shift(a), Shift(b), Term(w[0], u), Term(w[0], v));
      MulFromXor(Xor(Shift(a), Term(w[0], u)), Xor(Shift(b), Term(w[0], v)), w[1..], u, v);
    }
  }

  lemma {:induction false} MulFromShift(a: Register, w: seq<bool>, v: Register)
    ensures MulFrom(Shift(a), w, Shift(v)) == Shift(MulFrom(a, w, v))
    decreases w
  {
    hide Shift, Xor, Term;
    if w != [] {
      ShiftOfXor(Shift(a), Term(w[0], v));
      ShiftOfTerm(w[0], v);
      MulFromShift(Xor(Shift(a), Term(w[0], v)), w[1..], v);
    }
  }

  lemma {:induction false} MulFromZero(w: seq<bool>)
    ensures MulFrom(Zeros(16), w, Zeros(16)) == Zeros(16)
    decreases w
  {
    hide Shift;
    if w != [] {
      ShiftOfZero();
      XorWithZeros(Zeros(16));
      MulFromZero(w[1..]);
    }
  }

  lemma MulXor(w: Register, u: Register, v: Register)
    ensures Mul(w, Xor(u, v)) == Xor(Mul(w, u), Mul(w, v))
  {
    hide MulFrom;
    XorWithZeros(Zeros(16));
    MulFromXor(Zeros(16), Zeros(16), w, u, v);
  }

  lemma MulShift(w: Register, v: Register)
    ensures Mul(w, Shift(v)) == Shift(Mul(w, v))
  {
    hide MulFrom, Shift;
    ShiftOfZero();
    MulFromShift(Zeros(16), w, v);
  }

  lemma {:induction false} MulShifts(w: Register, v: Register, k: nat)
    ensures Mul(w, Shifts(v, k)) == Shifts(Mul(w, v), k)
    decreases k
  {
    hide Mul, Shift;
    if k > 0 {
      MulShift(w, v);
      MulShifts(w, Shift(v), k - 1);
    }
  }

  lemma MulTerm(w: Register, c: bool, v: Register)
    ensures Mul(w, Term(c, v)) == Term(c, Mul(w, v))
  {
    MulFromZero(w);
  }

  lemma {:induction false} MulSwapFrom(b: Register, acc: Register, a: seq<bool>, u: Register)
    ensures MulFrom(Mul(b, acc), a, Mul(b, u)) == Mul(b, MulFrom(acc, a, u))
    decreases a
  {
    hide Mul, Shift, Xor, Term;
    if a != [] {
      MulXor(b, Shift(acc), Term(a[0], u));
      MulShift(b, acc);
      MulTerm(b, a[0], u);
      MulSwapFrom(b, Xor(Shift(acc), Term(a[0], u)), a[1..], u);
    }
  }

  lemma MulSwap(a: Register, b: Register, u: Register)
    ensures Mul(a, Mul(b, u)) == Mul(b, Mul(a, u))
  {
    hide MulFrom;
    MulFromZero(b);
    MulSwapFrom(b, Zeros(16), a, u);
  }

  function One(): Register {
    Zeros(15) + [true]
  }

  lemma ShiftedIn(acc: Register, w: seq<bool>)
    requires 0 < |w| <= 16
    ensures (acc[1..] + [w[0]])[|w| - 1..] + w[1..] == acc[|w|..] + w
  {
  }

  lemma OneStep(acc: Register, c: bool, n: nat)
    requires 0 < n <= 16 && acc[..n] == Zeros(n)
    ensures Xor(Shift(acc), Term(c, One())) == acc[1..] + [c]
    ensures (acc[1..] + [c])[..n - 1] == Zeros(n - 1)
  {
    assert acc[..n][0] == Zeros(n)[0];
    assert forall i :: 0 <= i < n ==> acc[i] == acc[..n][i] == Zeros(n)[i];
  }

  lemma {:induction false} MulFromOne(acc: Register, w: seq<bool>)
    requires |w| <= 16 && acc[..|w|] == Zeros(|w|)
    ensures MulFrom(acc, w, One()) == acc[|w|..] + w
    decreases w
  {
    hide Shift, Xor, Term, One;
    if w == [] {
      assert acc[0..] + w == acc;
    } else {
      OneStep(acc, w[0], |w|);
      MulFromOne(acc[1..] + [w[0]], w[1..]);
      ShiftedIn(acc, w);
    }
  }

  lemma MulOne(v: Register)
    ensures Mul(v, One()) == v
  {
    hide One;
    MulFromOne(Zeros(16), v);
    assert Zeros(16)[16..] + v == v;
    assert Zeros(16)[..16] == Zeros(16);
  }

  /** x^k modulo the generator. */
  function Power(k: nat): Register {
    Shifts(One(), k)
  }

  /** Shifting `k` times is multiplying by x^k. */
  lemma MulPower(k: nat, v: Register)
    ensures Mul(Power(k), v) == Shifts(v, k)
  {
    hide Mul, Shifts, One;
    MulOne(v);
    MulOne(Power(k));
    MulSwap(Power(k), v, One());
    MulShifts(v, One(), k);
  }

  lemma PowerAdd(a: nat, b: nat)
    ensures Power(a + b) == Mul(Power(a), Power(b))
  {
    hide Mul, One;
    MulPower(a, Power(b));
    ShiftsAdd(One(), b, a);
  }

  // ---------- powers with values ----------

  /** One coefficient of a product. */
  function NextWord(acc: bv16, c: bool, v: bv16): bv16 {
    if c then Step(acc) ^ v else Step(acc)
  }

  function MulWord(acc: bv16, factor: seq<bool>, v: bv16): bv16
    decreases factor
  {
    if factor == [] then acc else MulWord(NextWord(acc, factor[0], v), factor[1..], v)
  }

  lemma AddedBits(s: bv16, v: bv16)
    ensures WordBits(s ^ v) == Xor(WordBits(s), Term(true, WordBits(v)))
    ensures WordBits(s) == Xor(WordBits(s), Term(false, WordBits(v)))
  {
    hide WordBits, Xor;
    XorWords(s, v);
    XorWithZeros(WordBits(s));
  }

  lemma NextBits(acc: bv16, c: bool, v: bv16)
    ensures WordBits(NextWord(acc, c, v)) == Xor(Shift(WordBits(acc)), Term(c, WordBits(v)))
  {
    hide WordBits, Step, Shift, Xor, Term;
    StepBits(acc);
    AddedBits(Step(acc), v);
  }

  lemma {:induction false} MulWordBits(acc: bv16, factor: seq<bool>, v: bv16)
    ensures WordBits(MulWord(acc, factor, v)) == MulFrom(WordBits(acc), factor, WordBits(v))
    decreases factor
  {
    hide WordBits, NextWord, Shift, Term, Xor;
    if factor != [] {
      NextBits(acc, factor[0], v);
      MulWordBits(NextWord(acc, factor[0], v), factor[1..], v);
    }
  }

  lemma {:induction false} MulWordConcat(acc: bv16, s: seq<bool>, t: seq<bool>, v: bv16)
    ensures MulWord(acc, s + t, v) == MulWord(MulWord(acc, s, v), t, v)
    decreases s
  {
    hide NextWord;
    if s == [] {
      assert s + t == t;
    } else {
      assert (s + t)[1..] == s[1..] + t;
      MulWordConcat(NextWord(acc, s[0], v), s[1..], t, v);
    }
  }

  /** Four coefficients of a product. */
  function Four(acc: bv16, c3: bool, c2: bool, c1: bool, c0: bool, v: bv16): bv16 {
    NextWord(NextWord(NextWord(NextWord(acc, c3, v), c2, v), c1, v), c0, v)
  }

  lemma FourBits(acc: bv16, c3: bool, c2: bool, c1: bool, c0: bool, v: bv16)
    ensures MulWord(acc, [c3, c2, c1, c0], v) == Four(acc, c3, c2, c1, c0, v)
  {
    hide NextWord;
    assert [c3, c2, c1, c0][1..] == [c2, c1, c0] && [c2, c1, c0][1..] == [c1, c0];
    assert [c1, c0][1..] == [c0] && [c0][1..] == [];
    var b := NextWord(NextWord(acc, c3, v), c2, v);
    assert MulWord(acc, [c3, c2, c1, c0], v) == MulWord(b, [c1, c0], v);
    assert MulWord(b, [c1, c0], v) == MulWord(NextWord(b, c1, v), [c0], v);
    assert MulWord(NextWord(b, c1, v), [c0], v) == MulWord(NextWord(NextWord(b, c1, v), c0, v), [], v);
  }

  function TimesWord(w: bv16, v: bv16): bv16 {
    var a := Four(0, w & 0x8000 != 0, w & 0x4000 != 0, w & 0x2000 != 0, w & 0x1000 != 0, v);
    var b := Four(a, w & 0x0800 != 0, w & 0x0400 != 0, w & 0x0200 != 0, w & 0x0100 != 0, v);
    var c := Four(b, w & 0x0080 != 0, w & 0x0040 != 0, w & 0x0020 != 0, w & 0x0010 != 0, v);
    Four(c, w & 0x0008 != 0, w & 0x0004 != 0, w & 0x0002 != 0, w & 0x0001 != 0, v)
  }

  lemma FourElements(acc: bv16, a: seq<bool>, v: bv16)
    requires |a| == 4
    ensures MulWord(acc, a, v) == Four(acc, a[0], a[1], a[2], a[3], v)
  {
    hide Four, MulWord;
    assert a == [a[0], a[1], a[2], a[3]];
    FourBits(acc, a[0], a[1], a[2], a[3], v);
  }

  lemma FourFours(a: seq<bool>, b: seq<bool>, c: seq<bool>, d: seq<bool>, v: bv16)
    requires |a| == |b| == |c| == |d| == 4
    ensures MulWord(0, a + b + c + d, v)
         == Four(Four(Four(Four(0, a[0], a[1], a[2], a[3], v), b[0], b[1], b[2], b[3], v),
                           c[0], c[1], c[2], c[3], v), d[0], d[1], d[2], d[3], v)
  {
    hide Four, MulWord;
    var p := MulWord(0, a, v);
    var q := MulWord(p, b, v);
    var r := MulWord(q, c, v);
    MulWordConcat(0, a + b + c, d, v);
    MulWordConcat(0, a + b, c, v);
    MulWordConcat(0, a, b, v);
    FourElements(0, a, v);
    FourElements(p, b, v);
    FourElements(q, c, v);
    FourElements(r, d, v);
  }

  /** The four quarters of a word's bits. */
  lemma Quarters(s: Register)
    ensures s == s[..4] + s[4..8] + s[8..12] + s[12..]
  {
  }

  lemma SixteenElements(s: Register, v: bv16)
    ensures MulWord(0, s, v)
         == Four(Four(Four(Four(0, s[0], s[1], s[2], s[3], v), s[4], s[5], s[6], s[7], v),
                           s[8], s[9], s[10], s[11], v), s[12], s[13], s[14], s[15], v)
  {
    hide Four, MulWord;
    Quarters(s);
    FourFours(s[..4], s[4..8], s[8..12], s[12..], v);
  }

  lemma TimesElements(w: bv16, v: bv16)
    ensures TimesWord(w, v) == MulWord(0, MaskBits(w), v)
  {
    hide Four, MulWord;
    SixteenElements(MaskBits(w), v);
  }

  lemma TimesBits(w: bv16, v: bv16)
    ensures WordBits(TimesWord(w, v)) == Mul(WordBits(w), WordBits(v))
  {
    hide TimesWord, MulFrom, MulWord, MaskBits, TopBits;
    TopBitsAreMaskBits(w, 16);
    assert MaskBits(w)[..16] == MaskBits(w);
    TimesElements(w, v);
    MulWordBits(0, MaskBits(w), v);
    WordBitsZero(0);
  }

  lemma EvenPower(k: nat, u: bv16, square: bv16)
    requires Power(k) == WordBits(u) && TimesWord(u, u) == square
    ensures Power(2 * k) == WordBits(square)
  {
    hide Power, Mul, WordBits, TimesWord;
    PowerAdd(k, k);
    TimesBits(u, u);
  }

  lemma OddPower(k: nat, u: bv16, next: bv16)
    requires Power(k) == WordBits(u) && Step(TimesWord(u, u)) == next
    ensures Power(2 * k + 1) == WordBits(next)
  {
    hide Mul, WordBits, TimesWord, One, Shift, Step;
    PowerAdd(k, k);
    TimesBits(u, u);
    ShiftsNext(One(), 2 * k);
    StepBits(TimesWord(u, u));
  }

  lemma MaskOfOne()
    ensures MaskBits(0x0001) == One()
  {
  }

  lemma FirstPower()
    ensures Power(1) == WordBits(0x0002) && Power(0) == WordBits(0x0001)
  {
    hide MaskBits;
    TopBitsAreMaskBits(0x0001, 16);
    MaskOfOne();
    StepBits(0x0001);
    assert Step(0x0001) == 0x0002;
    assert MaskBits(0x0001)[..16] == MaskBits(0x0001);
    assert Shifts(One(), 1) == Shifts(Shift(One()), 0);
  }

  lemma Power32767()
    ensures Power(32767) == WordBits(0x0001)
  {
    hide Power, WordBits;
    FirstPower();
    EvenPower(1, 0x0002, 0x0004);
    EvenPower(2, 0x0004, 0x0010);
    OddPower(1, 0x0002, 0x0008);
    OddPower(3, 0x0008, 0x0080);
    OddPower(7, 0x0080, 0x8000);
    OddPower(15, 0x8000, 0x1B98);
    OddPower(31, 0x1B98, 0xD420);
    OddPower(63, 0xD420, 0x577E);
    OddPower(127, 0x577E, 0xCF04);
    OddPower(255, 0xCF04, 0x09FE);
    OddPower(511, 0x09FE, 0x1B62);
    OddPower(1023, 0x1B62, 0x7EA8);
    OddPower(2047, 0x7EA8, 0x554F);
    OddPower(4095, 0x554F, 0x440E);
    OddPower(8191, 0x440E, 0x222C);
    OddPower(16383, 0x222C, 0x0001);
  }

  lemma Power4681()
    ensures Power(4681) == WordBits(0x2C42)
  {
    hide Power, WordBits;
    FirstPower();
    EvenPower(1, 0x0002, 0x0004);
    EvenPower(2, 0x0004, 0x0010);
    OddPower(4, 0x0010, 0x0200);
    EvenPower(9, 0x0200, 0x4084);
    EvenPower(18, 0x4084, 0x4363);
    OddPower(36, 0x4363, 0x8FA6);
    EvenPower(73, 0x8FA6, 0x4388);
    EvenPower(146, 0x4388, 0x1396);
    OddPower(292, 0x1396, 0x4500);
    EvenPower(585, 0x4500, 0x0163);
    EvenPower(1170, 0x0163, 0x0424);
    OddPower(2340, 0x0424, 0x2C42);
  }

  lemma Power1057()
    ensures Power(1057) == WordBits(0xF2AF)
  {
    hide Power, WordBits;
    FirstPower();
    EvenPower(1, 0x0002, 0x0004);
    EvenPower(2, 0x0004, 0x0010);
    EvenPower(4, 0x0010, 0x0100);
    EvenPower(4, 0x0010, 0x0100);
    EvenPower(8, 0x0100, 0x1021);
    OddPower(16, 0x1021, 0x6E60);
    EvenPower(33, 0x6E60, 0xC1C6);
    EvenPower(66, 0xC1C6, 0x4E8A);
    EvenPower(132, 0x4E8A, 0x5946);
    EvenPower(264, 0x5946, 0x78B3);
    OddPower(528, 0x78B3, 0xF2AF);
  }

  lemma Power217()
    ensures Power(217) == WordBits(0x48E3)
  {
    hide Power, WordBits;
    FirstPower();
    OddPower(1, 0x0002, 0x0008);
    EvenPower(3, 0x0008, 0x0040);
    OddPower(6, 0x0040, 0x2000);
    OddPower(13, 0x2000, 0x89A9);
    EvenPower(27, 0x89A9, 0x1168);
    EvenPower(54, 0x1168, 0x3750);
    OddPower(108, 0x3750, 0x48E3);
  }

  // ---------- the order ----------

  const ORDER := 32767

  lemma FullPower()
    ensures Power(ORDER) == One()
  {
    Power32767();
    FirstPower();
    assert Power(0) == One();
  }

  lemma PowerZero()
    ensures Power(0) == One()
  {
  }

  lemma {:induction false} PowerOfMultiple(k: nat, m: nat)
    requires Power(k) == One()
    ensures Power(k * m) == One()
    decreases m
  {
    hide Power, Mul, One;
    if m == 0 {
      PowerZero();
      assert k * m == 0;
    } else {
      PowerOfMultiple(k, m - 1);
      assert k * m == k * (m - 1) + k;
      PowerAdd(k * (m - 1), k);
      MulOne(One());
    }
  }

  lemma PowerOfDivided(g: nat, d: nat)
    requires g > 0 && Divides(g, d) && Power(g) == One()
    ensures Power(d) == One()
  {
    hide Power;
    var q :| Multiple(d, g, q);
    Grows(g, q);
    PowerOfMultiple(g, q);
  }

  /** Whether 7, 31 and 151 are the only divisors of the order from `low` to `k`. */
  predicate OnlyDivisors(low: nat, k: nat)
    decreases k
  {
    k < low || k == 0 || ((32767 % k == 0 ==> k == 7 || k == 31 || k == 151) && OnlyDivisors(low, k - 1))
  }

  lemma DivisorsTo46()
    ensures OnlyDivisors(2, 46)
  {
    assert OnlyDivisors(2, 12) && OnlyDivisors(2, 22) && OnlyDivisors(2, 32);
  }

  lemma DivisorsTo91()
    ensures OnlyDivisors(47, 91)
  {
    assert OnlyDivisors(47, 57) && OnlyDivisors(47, 67) && OnlyDivisors(47, 77);
  }

  lemma DivisorsTo136()
    ensures OnlyDivisors(92, 136)
  {
    assert OnlyDivisors(92, 102) && OnlyDivisors(92, 112) && OnlyDivisors(92, 122);
  }

  lemma DivisorsTo181()
    ensures OnlyDivisors(137, 181)
  {
    assert OnlyDivisors(137, 147) && OnlyDivisors(137, 157) && OnlyDivisors(137, 167);
  }

  lemma {:induction false} DivisorsBelow(low: nat, k: nat, q: nat)
    requires OnlyDivisors(low, k) && 0 < low <= q <= k && ORDER % q == 0
    ensures q == 7 || q == 31 || q == 151
    decreases k
  {
    if q < k {
      DivisorsBelow(low, k - 1, q);
    }
  }

  lemma SmallDivisors(q: nat)
    requires 2 <= q <= 181 && ORDER % q == 0
    ensures q == 7 || q == 31 || q == 151
  {
    hide OnlyDivisors;
    DivisorsTo46();
    DivisorsTo91();
    DivisorsTo136();
    DivisorsTo181();
    if q <= 46 {
      DivisorsBelow(2, 46, q);
    } else if q <= 91 {
      DivisorsBelow(47, 91, q);
    } else if q <= 136 {
      DivisorsBelow(92, 136, q);
    } else {
      DivisorsBelow(137, 181, q);
    }
  }

  lemma ExactDivisor(q: nat, g: nat)
    requires q > 0 && ORDER == q * g
    ensures ORDER % q == 0
  {
    ExactQuotient(ORDER, q, g);
  }

  lemma BigProduct(a: nat, b: nat)
    ensures a >= 182 && b >= 182 ==> a * b >= 182 * 182
  {
    if a >= 182 && b >= 182 {
      Grows(b, a);
      assert a * b == (a - 182) * b + 182 * b;
      assert (a - 182) * b >= 0;
    }
  }

  lemma FactorBound(g: nat, q: nat)
    requires ORDER == g * q && q >= 182
    ensures g <= 181
  {
    BigProduct(g, q);
  }

  /** 32767 is 7 * 31 * 151, so a proper divisor divides one of three quotients. */
  lemma ProperDivisor(g: nat)
    requires 0 < g < ORDER && Divides(g, ORDER)
    ensures Divides(g, 4681) || Divides(g, 1057) || Divides(g, 217)
  {
    var q :| Multiple(ORDER, g, q);
    Grows(g, q);
    if q <= 181 {
      ExactDivisor(q, g);
      SmallDivisors(q);
      assert q == 7 ==> Multiple(4681, g, 1);
      assert q == 31 ==> Multiple(1057, g, 1);
      assert q == 151 ==> Multiple(217, g, 1);
    } else {
      FactorBound(g, q);
      if g == 1 {
        assert Multiple(217, g, 217);
      } else {
        ExactDivisor(g, q);
        SmallDivisors(g);
        assert g == 7 ==> Multiple(217, g, 31);
        assert g == 31 ==> Multiple(217, g, 7);
        assert g == 151 ==> Multiple(1057, g, 7);
      }
    }
  }

  lemma DivisorBound(g: nat)
    requires 0 < g && Divides(g, ORDER)
    ensures g <= ORDER
  {
    var q :| Multiple(ORDER, g, q);
    Grows(g, q);
  }

  lemma OrderIsFull(g: nat)
    requires 0 < g && Divides(g, ORDER) && Power(g) == One()
    ensures g == ORDER
  {
    hide Power, One, WordBits, Divides;
    DivisorBound(g);
    if g < ORDER {
      ProperDivisor(g);
      FirstPower();
      PowerZero();
      Power4681();
      Power1057();
      Power217();
      WordBitsInjective(0x2C42, 0x0001);
      WordBitsInjective(0xF2AF, 0x0001);
      WordBitsInjective(0x48E3, 0x0001);
      if Divides(g, 4681) {
        PowerOfDivided(g, 4681);
      } else if Divides(g, 1057) {
        PowerOfDivided(g, 1057);
      } else {
        PowerOfDivided(g, 217);
      }
      assert false;
    }
  }

  lemma MoveNegative(d: nat, u: int, v: int, g: int, r: int, t: int)
    requires ORDER * u + d * v == g && r == v - ORDER * t
    ensures d * (r + ORDER) == g + ORDER * (d - u - d * t)
  {
    assert d * (v - ORDER * t + ORDER) == d * v - ORDER * (d * t) + ORDER * d by {
      assert d * (ORDER * t) == ORDER * (d * t);
    }
  }

  lemma AtLeastOrder(d: nat, r: nat)
    requires d > 0
    ensures d * (r + ORDER) >= ORDER
  {
    Grows(r + ORDER, d);
    assert d * (r + ORDER) == (r + ORDER) * d;
  }

  /** A combination of `d` and the order that is their gcd, written without negative numbers. */
  lemma Combination(d: nat) returns (m: nat, k: nat)
    requires d > 0
    ensures d * m == Gcd(ORDER, d) + ORDER * k
  {
    hide Gcd, Divides;
    var g := Gcd(ORDER, d);
    GcdPositive(ORDER, d);
    var u, v := Bezout(ORDER, d);
    DivisorBound(g);
    var r, t := DivMod(v, ORDER);
    MoveNegative(d, u, v, g, r, t);
    AtLeastOrder(d, r);
    var j := d - u - d * t;
    m, k := r + ORDER, j;
  }

  /** x^d is 1 modulo the generator exactly when d is a multiple of 32767. */
  lemma OrderOfX(d: nat)
    ensures Power(d) == One() <==> Divides(ORDER, d)
  {
    hide Power, One, Mul;
    if d == 0 {
      PowerZero();
      assert Multiple(0, ORDER, 0);
    } else {
      if Divides(ORDER, d) {
        FullPower();
        PowerOfDivided(ORDER, d);
      }
      if Power(d) == One() {
        var m, k := Combination(d);
        var g := Gcd(ORDER, d);
        GcdPositive(ORDER, d);
        PowerOfMultiple(d, m);
        FullPower();
        PowerOfMultiple(ORDER, k);
        PowerAdd(g, ORDER * k);
        MulOne(Power(g));
        var _, _ := Bezout(ORDER, d);
        OrderIsFull(g);
      }
    }
  }

  // ---------- two wrong bits ----------

  /** Positions `i` and `j` are wrong and no other. */
  ghost predicate WrongAt(e: seq<bool>, i: nat, j: nat) {
    i < j < |e| && forall k :: 0 <= k < |e| ==> (e[k] <==> k == i || k == j)
  }

  lemma MaskOfTop()
    ensures MaskBits(0x8000) == [true] + Zeros(15)
  {
  }

  lemma TopWord()
    ensures WordBits(0x8000) == [true] + Zeros(15)
  {
    hide MaskBits;
    TopBitsAreMaskBits(0x8000, 16);
    assert MaskBits(0x8000)[..16] == MaskBits(0x8000);
    MaskOfTop();
  }

  lemma LowPowers()
    ensures Power(15) == WordBits(0x8000) && Power(16) == WordBits(0x1021)
  {
    hide Power, WordBits;
    FirstPower();
    EvenPower(1, 0x0002, 0x0004);
    EvenPower(2, 0x0004, 0x0010);
    EvenPower(4, 0x0010, 0x0100);
    EvenPower(8, 0x0100, 0x1021);
    OddPower(1, 0x0002, 0x0008);
    OddPower(3, 0x0008, 0x0080);
    OddPower(7, 0x0080, 0x8000);
  }

  lemma FeedOneToZero()
    ensures Feed(Zeros(16), true) == Generator()
  {
    assert Zeros(16)[1..] + [false] == Zeros(16);
    XorWithZeros(Generator());
  }

  lemma LeadingBit()
    ensures Power(15) == [true] + Zeros(15) && Power(16) == Feed(Zeros(16), true)
  {
    hide Power, WordBits;
    LowPowers();
    TopWord();
    ConstantWords();
    FeedOneToZero();
  }

  /** Feeding a one is adding x^15 and shifting. */
  lemma FeedOne(r: Register)
    ensures Feed(r, true) == Shift(Xor(r, Power(15)))
  {
    hide Power, Shift;
    LeadingBit();
    ShiftXor(r, Power(15));
    assert Power(15)[1..] + [false] == Zeros(16);
    XorWithZeros(Feed(r, true));
  }

  lemma ShiftZero(r: Register)
    ensures Shift(r) == Zeros(16) <==> r == Zeros(16)
  {
    hide Shift;
    ShiftOfZero();
    if Shift(r) == Zeros(16) {
      assert Shifts(r, 1) == Shifts(Shift(r), 0) && Shifts(Zeros(16), 1) == Shifts(Shift(Zeros(16)), 0);
      ShiftsInjective(r, Zeros(16), 1);
    }
  }

  lemma {:induction false} TwoOnesResidue(d: nat)
    requires d > 0
    ensures Feed(Shifts(Power(16), d - 1), true) == Zeros(16) <==> Divides(ORDER, d)
  {
    hide Shift, Divides, One;
    ShiftsAdd(One(), 16, d - 1);
    ShiftsAdd(One(), d, 15);
    assert Shifts(Power(16), d - 1) == Power(15 + d) == Shifts(Power(d), 15);
    FeedOne(Power(15 + d));
    ShiftZero(Xor(Power(15 + d), Power(15)));
    XorZero(Power(15 + d), Power(15));
    if Power(15 + d) == Power(15) {
      ShiftsInjective(Power(d), One(), 15);
    }
    OrderOfX(d);
  }

  lemma ErrorParts(e: seq<bool>, i: nat, j: nat)
    requires WrongAt(e, i, j)
    ensures e == Zeros(i) + ([true] + (Zeros(j - i - 1) + ([true] + Zeros(|e| - j - 1))))
  {
  }

  lemma FeedCons(r: Register, bit: bool, rest: seq<bool>)
    ensures FeedBits(r, [bit] + rest) == FeedBits(Feed(r, bit), rest)
  {
    assert ([bit] + rest)[1..] == rest;
  }

  /** Two wrong bits leave no residue exactly when their distance is a multiple of 32767. */
  lemma TwoBitResidue(e: seq<bool>, i: nat, j: nat)
    requires WrongAt(e, i, j)
    ensures FeedBits(Zeros(16), e) == Zeros(16) <==> Divides(ORDER, j - i)
  {
    hide FeedBits, Feed, Shift, Power, Divides;
    var zero, d, n := Zeros(16), j - i, |e| - j - 1;
    ErrorParts(e, i, j);
    FeedConcat(zero, Zeros(i), [true] + (Zeros(d - 1) + ([true] + Zeros(n))));
    FeedZeros(i);
    FeedCons(zero, true, Zeros(d - 1) + ([true] + Zeros(n)));
    LeadingBit();
    FeedConcat(Power(16), Zeros(d - 1), [true] + Zeros(n));
    FeedZerosIsShifts(Power(16), d - 1);
    FeedCons(Shifts(Power(16), d - 1), true, Zeros(n));
    var last := Feed(Shifts(Power(16), d - 1), true);
    TwoOnesResidue(d);
    FeedZeros(n);
    if FeedBits(last, Zeros(n)) == zero {
      FeedBitsInjective(last, zero, Zeros(n));
    }
  }

  /** Two wrong bits pass the CRC comparison exactly when their distance is a multiple of 32767. */
  lemma TwoBitErrors(data: seq<byte>, received: seq<byte>, i: nat, j: nat)
    requires |received| == |data| + 2
    requires WrongAt(Xor(Bits(data + WordToBytes(Crc(data))), Bits(received)), i, j)
    ensures WordFromBytes(received[|data|..]) == Crc(received[..|data|]) <==> Divides(ORDER, j - i)
  {
    hide Crc, Divides, WordToBytes, WordFromBytes, FeedBits, Bits;
    CorruptionNoticed(data, received);
    TwoBitResidue(Xor(Bits(data + WordToBytes(Crc(data))), Bits(received)), i, j);
  }

  // ---------- one to three wrong bits ----------

  lemma {:induction false} NoOnes(e: seq<bool>)
    requires Weight(e) == 0
    ensures forall k :: 0 <= k < |e| ==> !e[k]
  {
    if e != [] {
      NoOnes(e[1..]);
      assert forall k :: 1 <= k < |e| ==> e[k] == e[1..][k - 1];
    }
  }

  lemma {:induction false} OneOne(e: seq<bool>) returns (i: nat)
    requires Weight(e) == 1
    ensures i < |e| && forall k :: 0 <= k < |e| ==> (e[k] <==> k == i)
  {
    assert forall k :: 1 <= k < |e| ==> e[k] == e[1..][k - 1];
    if e[0] {
      NoOnes(e[1..]);
      i := 0;
    } else {
      i := OneOne(e[1..]);
      i := i + 1;
    }
  }

  lemma {:induction false} TwoOnes(e: seq<bool>) returns (i: nat, j: nat)
    requires Weight(e) == 2
    ensures WrongAt(e, i, j)
  {
    assert forall k :: 1 <= k < |e| ==> e[k] == e[1..][k - 1];
    if e[0] {
      j := OneOne(e[1..]);
      i, j := 0, j + 1;
    } else {
      i, j := TwoOnes(e[1..]);
      i, j := i + 1, j + 1;
    }
  }

  lemma NearBits(e: seq<bool>) returns (i: nat, j: nat)
    requires Weight(e) == 2 && |e| <= ORDER
    ensures WrongAt(e, i, j) && !Divides(ORDER, j - i)
  {
    hide Divides;
    i, j := TwoOnes(e);
    NoSmallMultiple(ORDER, j - i);
  }

  lemma NearBitsDetected(data: seq<byte>, received: seq<byte>)
    requires |received| == |data| + 2 && 8 * |received| <= ORDER
    requires Weight(Xor(Bits(data + WordToBytes(Crc(data))), Bits(received))) == 2
    ensures WordFromBytes(received[|data|..]) != Crc(received[..|data|])
  {
    hide Crc, Divides, WordToBytes, WordFromBytes, Bits, Weight, Xor, WrongAt;
    var i, j := NearBits(Xor(Bits(data + WordToBytes(Crc(data))), Bits(received)));
    TwoBitErrors(data, received, i, j);
  }

  /** Up to 32767 bits, CRC included, every error of one, two or three bits fails the comparison. */
  lemma FewErrorsDetected(data: seq<byte>, received: seq<byte>)
    requires |received| == |data| + 2 && 8 * |received| <= ORDER
    requires 1 <= Weight(Xor(Bits(data + WordToBytes(Crc(data))), Bits(received))) <= 3
    ensures WordFromBytes(received[|data|..]) != Crc(received[..|data|])
  {
    hide Crc, WordToBytes, WordFromBytes, Bits, Weight, Xor, IsBurst;
    if Weight(Xor(Bits(data + WordToBytes(Crc(data))), Bits(received))) == 2 {
      NearBitsDetected(data, received);
    } else {
      ErrorDetected(data, received);
    }
  }

  // ---------- errors that are always caught ----------

  /** A burst of at most sixteen bits, an odd number of wrong bits, or two wrong bits in at most 32767. */
  ghost predicate Caught(error: seq<bool>) {
    IsBurst(error) || Weight(error) % 2 == 1 || (Weight(error) == 2 && |error| <= ORDER)
  }

  lemma CaughtDetected(data: seq<byte>, received: seq<byte>)
    requires |received| == |data| + 2 && Caught(Xor(Bits(data + WordToBytes(Crc(data))), Bits(received)))
    ensures WordFromBytes(received[|data|..]) != Crc(received[..|data|])
  {
    hide Crc, WordToBytes, WordFromBytes, Weight, IsBurst;
    if Weight(Xor(Bits(data + WordToBytes(Crc(data))), Bits(received))) == 2 && 8 * |received| <= ORDER {
      NearBitsDetected(data, received);
    } else {
      ErrorDetected(data, received);
    }
  }

  lemma BurstCut(e: seq<bool>, n: nat)
    requires IsBurst(e + Zeros(n))
    ensures IsBurst(e)
  {
    var whole := e + Zeros(n);
    var i: nat, j: nat :| WrongWithin(whole, i, j) && j - i <= 16;
    assert forall m :: |e| <= m < |whole| ==> whole[m] == Zeros(n)[m - |e|];
    var k := if j <= |e| then j else |e|;
    assert forall m :: 0 <= m < |e| ==> e[m] == whole[m];
    assert WrongWithin(e, i, k) && k - i <= 16;
  }

  /** Correct bits at the end do not matter. */
  lemma CaughtCut(e: seq<bool>, n: nat)
    requires Caught(e + Zeros(n))
    ensures Caught(e)
  {
    hide IsBurst, Weight;
    WeightConcat(e, Zeros(n));
    ZeroWeight(n);
    if IsBurst(e + Zeros(n)) {
      BurstCut(e, n);
    }
  }

  lemma OneByte(b: byte)
    ensures Bits([b]) == ByteBits(b)
  {
    assert [b][1..] == [];
    assert ByteBits(b) + [] == ByteBits(b);
  }

  lemma SameTail(a: seq<bool>, b: seq<bool>, t: seq<bool>)
    requires |a| == |b|
    ensures Xor(a + t, b + t) == Xor(a, b) + Zeros(|t|)
  {
  }

  lemma SameLastByte(a: seq<byte>, b: seq<byte>, last: byte)
    requires |a| == |b|
    ensures Xor(Bits(a + [last]), Bits(b + [last])) == Xor(Bits(a), Bits(b)) + Zeros(8)
  {
    hide Bits, ByteBits;
    BitsConcat(a, [last]);
    BitsConcat(b, [last]);
    OneByte(last);
    SameTail(Bits(a), Bits(b), ByteBits(last));
  }
}
