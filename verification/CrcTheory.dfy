/** What the CRC means and what it detects, for messages of every length. */
module CrcTheory {
  import opened Words
  import opened Crc16

  // ---------- remainder of a polynomial division ----------

  // A polynomial over the two-element field is the string of its coefficients, leading one first.

  function Scale(c: bool, g: seq<bool>): (s: seq<bool>)
    ensures |s| == |g|
  {
    if c then g else Zeros(|g|)
  }

  /** Product of `q` and `g`: (q * x + c) * g == (q * g) * x + c * g. */
  function Product(q: seq<bool>, g: seq<bool>): (s: seq<bool>)
    requires g != []
    ensures |s| == |q| + |g| - 1
  {
    if q == [] then Zeros(|g| - 1)
    else Xor(Product(q[..|q| - 1], g) + [false], Zeros(|q| - 1) + Scale(q[|q| - 1], g))
  }

  /** x^16 + x^12 + x^5 + 1. */
  function Divisor(): (g: seq<bool>)
    ensures |g| == 17 && g[0]
  {
    [true] + Generator()
  }

  /** message * x^16, with the preset added to its sixteen leading coefficients. */
  function Dividend(message: seq<bool>): (s: seq<bool>)
    ensures |s| == |message| + 16
  {
    Xor(message + Zeros(16), Preset() + Zeros(|message|))
  }

  ghost predicate IsQuotient(message: seq<bool>, q: seq<bool>, r: Register) {
    |q| == |message| && Dividend(message) == Xor(Product(q, Divisor()), Zeros(|message|) + r)
  }

  lemma SumElement(d: seq<bool>, p: seq<bool>, n: nat, r: Register, i: nat)
    requires |p| == n + 16 && d == Xor(p, Zeros(n) + r) && i < n + 16
    ensures d[i] == (p[i] != (i >= n && r[i - n]))
  {
    assert (Zeros(n) + r)[i] == (i >= n && r[i - n]);
  }

  lemma DividendAt(message: seq<bool>, q: seq<bool>, r: Register, i: nat)
    requires IsQuotient(message, q, r) && i < |message| + 16
    ensures Dividend(message)[i] == (Product(q, Divisor())[i] != (i >= |message| && r[i - |message|]))
  {
    hide Dividend, Product, Divisor;
    SumElement(Dividend(message), Product(q, Divisor()), |message|, r, i);
  }

  lemma DividendNext(message: seq<bool>, b: bool, i: nat)
    requires i < |message| + 17
    ensures Dividend(message + [b])[i] == (i < |message| + 16 && Dividend(message)[i] != (i == |message| && b))
  {
  }

  lemma ProductNext(q: seq<bool>, c: bool, g: seq<bool>, i: nat)
    requires |g| == 17 && i < |q| + 17
    ensures Product(q + [c], g)[i] == ((i < |q| + 16 && Product(q, g)[i]) != (i >= |q| && c && g[i - |q|]))
  {
    var n := |q|;
    assert (q + [c])[..n] == q;
    var high, low := Product(q, g) + [false], Zeros(n) + Scale(c, g);
    assert Product(q + [c], g) == Xor(high, low);
    assert high[i] == (i < n + 16 && Product(q, g)[i]);
    assert low[i] == (i >= n && c && g[i - n]);
  }

  lemma FeedAt(r: Register, b: bool, j: nat)
    requires j < 16
    ensures Feed(r, b)[j] == ((j < 15 && r[j + 1]) != (r[0] != b && Generator()[j]))
  {
    assert (r[1..] + [false])[j] == (j < 15 && r[j + 1]);
  }

  lemma SumAt(d: seq<bool>, p: seq<bool>, r: Register, n: nat)
    requires |d| == |p| == n + 16
    requires forall i :: 0 <= i < n + 16 ==> d[i] == (p[i] != (i >= n && r[i - n]))
    ensures d == Xor(p, Zeros(n) + r)
  {
  }

  /** One clock of the register is one step of the long division. */
  lemma DivisionStep(message: seq<bool>, b: bool, q: seq<bool>, r: Register)
    requires IsQuotient(message, q, r)
    ensures IsQuotient(message + [b], q + [r[0] != b], Feed(r, b))
  {
    hide Dividend, Product, Feed, Generator;
    var n, c, g := |message|, r[0] != b, Divisor();
    var dividend, product := Dividend(message + [b]), Product(q + [c], g);
    forall i | 0 <= i < n + 17
      ensures dividend[i] == (product[i] != (i > n && Feed(r, b)[i - n - 1]))
    {
      DividendNext(message, b, i);
      ProductNext(q, c, g, i);
      if i < n + 16 {
        DividendAt(message, q, r, i);
      }
      if i > n {
        FeedAt(r, b, i - n - 1);
      }
    }
    SumAt(dividend, product, Feed(r, b), n + 1);
  }

  lemma {:induction false} RegisterIsRemainder(message: seq<bool>) returns (q: seq<bool>)
    ensures IsQuotient(message, q, FeedBits(Preset(), message))
  {
    if message == [] {
      q := [];
      assert Dividend([]) == Preset();
      assert Xor(Product([], Divisor()), Zeros(0) + Preset()) == Preset();
    } else {
      var n := |message| - 1;
      var q0 := RegisterIsRemainder(message[..n]);
      assert message[..n] + [message[n]] == message;
      FeedConcat(Preset(), message[..n], [message[n]]);
      DivisionStep(message[..n], message[n], q0, FeedBits(Preset(), message[..n]));
      q := q0 + [FeedBits(Preset(), message[..n])[0] != message[n]];
    }
  }

  /** A leading coefficient of a multiple of `g`: the last one is where the last coefficient of the quotient
      comes in. */
  lemma ProductAt(q: seq<bool>, g: seq<bool>, i: nat)
    requires |g| > 1 && g[0] && i < |q|
    ensures var n := |q| - 1;
            Product(q, g)[i] == (Product(q[..n], g)[i] != (i == n && q[n]))
  {
  }

  /** The leading coefficients of a multiple of the divisor determine the quotient. */
  lemma {:induction false} QuotientUnique(p: seq<bool>, q: seq<bool>)
    requires |p| == |q|
    requires forall i :: 0 <= i < |p| ==> Product(p, Divisor())[i] == Product(q, Divisor())[i]
    ensures p == q
  {
    hide Product, Divisor;
    if p != [] {
      var n := |p| - 1;
      forall i | 0 <= i < n
        ensures Product(p[..n], Divisor())[i] == Product(q[..n], Divisor())[i]
      {
        ProductAt(p, Divisor(), i);
        ProductAt(q, Divisor(), i);
      }
      QuotientUnique(p[..n], q[..n]);
      ProductAt(p, Divisor(), n);
      ProductAt(q, Divisor(), n);
    }
  }

  lemma RemainderUnique(message: seq<bool>, p: seq<bool>, r: Register, q: seq<bool>, s: Register)
    requires IsQuotient(message, p, r) && IsQuotient(message, q, s)
    ensures p == q && r == s
  {
    hide Product, Divisor, Dividend;
    var n := |message|;
    forall i | 0 <= i < n
      ensures Product(p, Divisor())[i] == Product(q, Divisor())[i]
    {
      DividendAt(message, p, r, i);
      DividendAt(message, q, s, i);
    }
    QuotientUnique(p, q);
    forall i | 0 <= i < 16
      ensures r[i] == s[i]
    {
      DividendAt(message, p, r, n + i);
      DividendAt(message, q, s, n + i);
    }
  }

  /** The byte-at-a-time loops compute the remainder of the polynomial division, and nothing else is
      such a remainder. */
  lemma CrcIsRemainder(data: seq<byte>, r: Register)
    ensures r == Crc(data) <==> exists q :: IsQuotient(Bits(data), q, r)
  {
    hide IsQuotient;
    ContinueIsFeed(Preset(), data);
    var own := RegisterIsRemainder(Bits(data));
    if exists q :: IsQuotient(Bits(data), q, r) {
      var q :| IsQuotient(Bits(data), q, r);
      RemainderUnique(Bits(data), q, r, own, Crc(data));
    }
  }

  // ---------- error detection ----------

  /** Position `i` is wrong and every wrong position is in `i..j`. */
  ghost predicate WrongWithin(e: seq<bool>, i: nat, j: nat) {
    i < j <= |e| && e[i] && (forall k :: 0 <= k < i ==> !e[k]) && (forall k :: j <= k < |e| ==> !e[k])
  }

  /** A nonzero error pattern whose ones lie within sixteen consecutive positions. */
  ghost predicate IsBurst(e: seq<bool>) {
    exists i: nat, j: nat :: WrongWithin(e, i, j) && j - i <= 16
  }

  function Weight(e: seq<bool>): nat {
    if e == [] then 0 else (if e[0] then 1 else 0) + Weight(e[1..])
  }

  /** A burst, started in a zero register, leaves it nonzero. */
  lemma BurstLeavesResidue(e: seq<bool>)
    requires IsBurst(e)
    ensures FeedBits(Zeros(16), e) != Zeros(16)
  {
    var i: nat, j: nat :| WrongWithin(e, i, j) && j - i <= 16;
    var zero, w, tail := Zeros(16), e[i..j] + Zeros(16 - (j - i)), Zeros(|e| - j);
    // appending zeros cannot turn a nonzero register into zero, so the burst may be padded to a word
    var pad := Zeros(16 - (j - i));
    assert e == Zeros(i) + (e[i..j] + tail);
    FeedConcat(zero, Zeros(i), e[i..j] + tail);
    FeedZeros(i);
    FeedConcat(zero, e[i..j], tail);
    if FeedBits(zero, e) == zero {
      FeedZeros(|tail|);
      FeedBitsInjective(FeedBits(zero, e[i..j]), zero, tail);
      FeedConcat(zero, e[i..j], pad);
      FeedZeros(|pad|);
      ResidueFrom(zero, w);
      assert false;
    }
  }

  lemma {:induction false} WeightConcat(a: seq<bool>, b: seq<bool>)
    ensures Weight(a + b) == Weight(a) + Weight(b)
  {
    if a == [] {
      assert a + b == b;
    } else {
      assert (a + b)[1..] == a[1..] + b;
      WeightConcat(a[1..], b);
    }
  }

  lemma LeftWeight(r: Register)
    ensures Weight(r[1..] + [false]) == Weight(r) - (if r[0] then 1 else 0)
  {
    WeightConcat(r[1..], [false]);
    assert Weight([false]) == 0;
  }

  lemma {:induction false} WeightXor(a: seq<bool>, b: seq<bool>)
    requires |a| == |b|
    ensures Weight(Xor(a, b)) % 2 == (Weight(a) + Weight(b)) % 2
  {
    if a != [] {
      assert Xor(a, b)[1..] == Xor(a[1..], b[1..]);
      WeightXor(a[1..], b[1..]);
    }
  }

  lemma FeedParityWith(r: Register, b: bool, g: Register)
    requires Weight(g) == 3
    ensures var t := r[1..] + [false];
            Weight(if r[0] != b then Xor(t, g) else t) % 2 == (Weight(r) + (if b then 1 else 0)) % 2
  {
    LeftWeight(r);
    WeightXor(r[1..] + [false], g);
  }

  lemma GeneratorParts(p: seq<bool>, q: seq<bool>, r: seq<bool>, s: seq<bool>)
    requires p == s == [false, false, false, true]
    requires q == [false, false, false, false] && r == [false, false, true, false]
    ensures Generator() == p + (q + (r + s))
  {
  }

  lemma FourWeight(a: bool, b: bool, c: bool, d: bool)
    ensures Weight([a, b, c, d])
         == (if a then 1 else 0) + (if b then 1 else 0) + (if c then 1 else 0) + (if d then 1 else 0)
  {
    assert [a, b, c, d][1..] == [b, c, d] && [b, c, d][1..] == [c, d] && [c, d][1..] == [d] && [d][1..] == [];
    assert Weight([d]) == (if d then 1 else 0) + Weight([]);
    assert Weight([c, d]) == (if c then 1 else 0) + Weight([d]);
    assert Weight([b, c, d]) == (if b then 1 else 0) + Weight([c, d]);
  }

  lemma GeneratorWeight()
    ensures Weight(Generator()) == 3
  {
    hide Generator, Weight;
    var p, q, r := [false, false, false, true], [false, false, false, false], [false, false, true, false];
    GeneratorParts(p, q, r, p);
    WeightConcat(p, q + (r + p));
    WeightConcat(q, r + p);
    WeightConcat(r, p);
    FourWeight(false, false, false, true);
    FourWeight(false, false, false, false);
    FourWeight(false, false, true, false);
  }

  /** The generator has an even number of terms, so each clock changes the parity of the register by the
      parity of the bit fed. */
  lemma FeedParity(r: Register, b: bool)
    ensures Weight(Feed(r, b)) % 2 == (Weight(r) + (if b then 1 else 0)) % 2
  {
    GeneratorWeight();
    FeedParityWith(r, b, Generator());
  }

  lemma {:induction false} ZeroWeight(n: nat)
    ensures Weight(Zeros(n)) == 0
  {
    if n > 0 {
      assert Zeros(n)[1..] == Zeros(n - 1);
      ZeroWeight(n - 1);
    }
  }

  lemma {:induction false} FeedBitsParity(r: Register, e: seq<bool>)
    ensures Weight(FeedBits(r, e)) % 2 == (Weight(r) + Weight(e)) % 2
    decreases e
  {
    if e != [] {
      FeedParity(r, e[0]);
      FeedBitsParity(Feed(r, e[0]), e[1..]);
    }
  }

  lemma OddErrorLeavesResidue(e: seq<bool>)
    requires Weight(e) % 2 == 1
    ensures FeedBits(Zeros(16), e) != Zeros(16)
  {
    hide FeedBits, Weight;
    FeedBitsParity(Zeros(16), e);
    ZeroWeight(16);
  }

  /** Started at zero and fed the difference of two messages, the register ends with the difference of
      their CRCs. */
  lemma {:induction false} ErrorReachesRegister(sent: seq<byte>, received: seq<byte>)
    requires |sent| == |received|
    ensures FeedBits(Zeros(16), Xor(Bits(sent), Bits(received))) == Xor(Crc(sent), Crc(received))
  {
    ContinueIsFeed(Preset(), sent);
    ContinueIsFeed(Preset(), received);
    assert Xor(Preset(), Preset()) == Zeros(16);
    FeedBitsLinear(Preset(), Preset(), Bits(sent), Bits(received));
  }

  /** Whether a corrupted message is noticed depends on the error alone: it is noticed exactly when the
      register, started at zero, does not divide the error pattern. */
  lemma CorruptionNoticed(data: seq<byte>, received: seq<byte>)
    requires |received| == |data| + 2
    ensures var error := Xor(Bits(data + WordToBytes(Crc(data))), Bits(received));
            WordFromBytes(received[|data|..]) == Crc(received[..|data|]) <==> FeedBits(Zeros(16), error) == Zeros(16)
  {
    hide Crc, FeedBits, Bits;
    var n := |data|;
    Residue(data, received[n..]);
    Residue(received[..n], received[n..]);
    assert received[..n] + received[n..] == received;
    ErrorReachesRegister(data + WordToBytes(Crc(data)), received);
    XorWithZeros(Crc(received));
  }

  /** Every burst of at most sixteen bits and every odd number of flipped bits is rejected by the CRC
      comparison, at every message length. */
  lemma ErrorDetected(data: seq<byte>, received: seq<byte>)
    requires |received| == |data| + 2
    requires var error := Xor(Bits(data + WordToBytes(Crc(data))), Bits(received));
             IsBurst(error) || Weight(error) % 2 == 1
    ensures WordFromBytes(received[|data|..]) != Crc(received[..|data|])
  {
    var error := Xor(Bits(data + WordToBytes(Crc(data))), Bits(received));
    CorruptionNoticed(data, received);
    if IsBurst(error) {
      BurstLeavesResidue(error);
    } else {
      OddErrorLeavesResidue(error);
    }
  }
}
