/** Machine words and their big-endian bytes.

    Words are bounded integers and `ToBe` is the repeated `(x >> 8k) & 0xFF` of the two sketches and
    the `to_be_bytes` of the gateway. Dafny's division by a positive number rounds down, so `ToBe` of a
    negative number is its two's-complement representation. */
module Words {
  datatype Option<+T> = None | Some(value: T)

  datatype Result<+T, +E> = Ok(value: T) | Err(error: E)

  type byte = x: int | 0 <= x < 0x100
  type u32 = x: int | 0 <= x < 0x1_0000_0000
  type u64 = x: int | 0 <= x < 0x1_0000_0000_0000_0000
  type i32 = x: int | -0x8000_0000 <= x < 0x8000_0000

  const U32_MAX: u32 := 0xFFFF_FFFF

  function Pow256(n: nat): nat {
    if n == 0 then 1 else 0x100 * Pow256(n - 1)
  }

  /** The `n` low-order bytes of `x`, most significant first. */
  function ToBe(n: nat, x: int): (s: seq<byte>)
    ensures |s| == n
  {
    if n == 0 then [] else ToBe(n - 1, x / 0x100) + [x % 0x100]
  }

  function FromBe(s: seq<byte>): nat {
    if s == [] then 0 else FromBe(s[..|s| - 1]) * 0x100 + s[|s| - 1] as int
  }

  /** `(x >> 8 * k) & 0xFF`, shifting by eight `k` times. */
  function Octet(x: int, k: nat): byte
    decreases k
  {
    if k == 0 then x % 0x100 else Octet(x / 0x100, k - 1)
  }

  /** `ToBe` undoes `FromBe`: no two byte strings of one length denote the same number. */
  lemma {:induction false} ToBeFromBe(s: seq<byte>)
    ensures ToBe(|s|, FromBe(s)) == s && FromBe(s) < Pow256(|s|)
  {
    if s != [] {
      ToBeFromBe(s[..|s| - 1]);
    }
  }

  lemma {:induction false} OctetsOfToBe(n: nat, x: int)
    ensures forall i :: 0 <= i < n ==> ToBe(n, x)[i] == Octet(x, n - 1 - i)
  {
    if n > 0 {
      OctetsOfToBe(n - 1, x / 0x100);
    }
  }

  lemma Pow256Values()
    ensures Pow256(2) == 0x1_0000 && Pow256(4) == 0x1_0000_0000 && Pow256(8) == 0x1_0000_0000_0000_0000
  {
  }

  // u32::from_be_bytes and u64::from_be_bytes
  function ReadU32(s: seq<byte>): (x: u32)
    requires |s| == 4
    ensures ToBe(4, x) == s
  {
    ToBeFromBe(s);
    Pow256Values();
    FromBe(s)
  }

  function ReadU64(s: seq<byte>): (x: u64)
    requires |s| == 8
    ensures ToBe(8, x) == s
  {
    ToBeFromBe(s);
    Pow256Values();
    FromBe(s)
  }

  /** Only the low-order bytes matter: subtracting the modulus does not change them. */
  lemma {:induction false} ToBeWraps(n: nat, x: int)
    ensures ToBe(n, x - Pow256(n)) == ToBe(n, x)
  {
    if n > 0 {
      ToBeWraps(n - 1, x / 0x100);
      assert (x - Pow256(n)) / 0x100 == x / 0x100 - Pow256(n - 1);
      assert (x - Pow256(n)) % 0x100 == x % 0x100;
    }
  }

  // i32::from_be_bytes, and the shift-and-or of the ESP32 sketch
  function ReadI32(s: seq<byte>): (x: i32)
    requires |s| == 4
    ensures ToBe(4, x) == s
  {
    var u: u32 := ReadU32(s);
    if u < 0x8000_0000 then u else
      ToBeWraps(4, u);
      Pow256Values();
      u - 0x1_0000_0000
  }

  /** Equal bytes mean numbers that agree up to a multiple of the modulus, hence equal numbers when
      they are closer together than that. */
  lemma {:induction false} BeInjective(n: nat, x: int, y: int)
    requires ToBe(n, x) == ToBe(n, y)
    ensures x - y < Pow256(n) && y - x < Pow256(n) ==> x == y
  {
    if n > 0 {
      var s, t := ToBe(n, x), ToBe(n, y);
      assert s[..n - 1] == ToBe(n - 1, x / 0x100) && t[..n - 1] == ToBe(n - 1, y / 0x100);
      assert s[n - 1] == x % 0x100 && t[n - 1] == y % 0x100;
      BeInjective(n - 1, x / 0x100, y / 0x100);
    }
  }

  lemma U32RoundTrip(x: u32)
    ensures ReadU32(ToBe(4, x)) == x
  {
    BeInjective(4, x, ReadU32(ToBe(4, x)));
    Pow256Values();
  }

  lemma U64RoundTrip(x: u64)
    ensures ReadU64(ToBe(8, x)) == x
  {
    BeInjective(8, x, ReadU64(ToBe(8, x)));
    Pow256Values();
  }

  lemma {:induction false} LowFour(x: nat)
    ensures ToBe(4, x) == ToBe(4, x % 0x1_0000_0000)
  {
    hide ToBe, Pow256;
    if x >= 0x1_0000_0000 {
      Pow256Values();
      ToBeWraps(4, x);
      LowFour(x - 0x1_0000_0000);
    }
  }

  /** The low-order bytes of a longer print are the print of the low-order bytes. */
  lemma {:induction false} ToBeSuffix(n: nat, m: nat, x: int)
    requires m <= n
    ensures ToBe(n, x)[n - m..] == ToBe(m, x)
  {
    if m > 0 {
      ToBeSuffix(n - 1, m - 1, x / 0x100);
      assert ToBe(n, x)[n - m..] == ToBe(n - 1, x / 0x100)[n - m..] + [x % 0x100];
    }
  }

  /** Four bytes tell numbers apart exactly when they differ modulo 2^32. */
  lemma FourBytes(x: nat, y: nat)
    ensures ToBe(4, x) == ToBe(4, y) <==> x % 0x1_0000_0000 == y % 0x1_0000_0000
  {
    LowFour(x);
    LowFour(y);
    U32RoundTrip(x % 0x1_0000_0000);
    U32RoundTrip(y % 0x1_0000_0000);
  }

  /** Two's complement survives the wire, negative values included. */
  lemma I32RoundTrip(x: i32)
    ensures ReadI32(ToBe(4, x)) == x
  {
    BeInjective(4, x, ReadI32(ToBe(4, x)));
    Pow256Values();
  }
}
