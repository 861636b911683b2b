/** The device whitelist and its textual form. */
module Registry {
  import opened Words

  datatype DeviceRegistry = Open | Restricted(ids: set<u32>)
  {
    predicate IsAllowed(deviceId: u32) {
      Open? || deviceId in ids
    }
  }

  // ---------- reading ----------

  /** The characters with Unicode's White_Space property. */
  predicate IsSpace(c: char) {
    var n := c as int;
    || 0x09 <= n <= 0x0D || n == 0x20 || n == 0x85 || n == 0xA0 || n == 0x1680
    || 0x2000 <= n <= 0x200A || n == 0x2028 || n == 0x2029 || n == 0x202F || n == 0x205F || n == 0x3000
  }

  function TrimStart(s: string): string {
    if s != "" && IsSpace(s[0]) then TrimStart(s[1..]) else s
  }

  function TrimEnd(s: string): string {
    if s != "" && IsSpace(s[|s| - 1]) then TrimEnd(s[..|s| - 1]) else s
  }

  function Trim(s: string): string {
    TrimEnd(TrimStart(s))
  }

  function DigitValue(c: char, radix: nat): Option<nat> {
    var v := if '0' <= c <= '9' then c as int - '0' as int
             else if 'a' <= c <= 'z' then c as int - 'a' as int + 10
             else if 'A' <= c <= 'Z' then c as int - 'A' as int + 10
             else radix;
    if v < radix then Some(v) else None
  }

  /** Reads digits after the value `acc`, refusing any value beyond a u32. */
  function ReadDigits(s: string, radix: nat, acc: u32): Option<u32> {
    if s == "" then Some(acc)
    else match DigitValue(s[0], radix)
      case None => None
      case Some(d) => if acc * radix + d > U32_MAX then None else ReadDigits(s[1..], radix, acc * radix + d)
  }

  /** `u32::from_str_radix`, which allows one leading plus sign. */
  function FromRadix(s: string, radix: nat): Option<u32> {
    if s == "" || s == "+" || s == "-" then None
    else if s[0] == '+' then ReadDigits(s[1..], radix, 0)
    else ReadDigits(s, radix, 0)
  }

  function ParseDeviceId(s: string): Option<u32> {
    if "0x" <= s || "0X" <= s then FromRadix(s[2..], 16) else FromRadix(s, 10)
  }

  function Split(s: string): (parts: seq<string>)
    ensures |parts| > 0
  {
    if s == "" then [""]
    else if s[0] == ',' then [""] + Split(s[1..])
    else var parts := Split(s[1..]); [[s[0]] + parts[0]] + parts[1..]
  }

  function Ids(parts: seq<string>): set<u32> {
    if parts == [] then {} else
      (match ParseDeviceId(Trim(parts[0])) case Some(id) => {id} case None => {}) + Ids(parts[1..])
  }

  /** The registry configured by the environment variable's value, if it has one. */
  function FromValue(value: Option<string>): DeviceRegistry {
    if value.Some? && Trim(value.value) != "" then Restricted(Ids(Split(value.value))) else Open
  }

  // ---------- writing ----------

  function DigitChar(d: nat, upper: bool): char
    requires d < 16
  {
    if d < 10 then "0123456789"[d] else if upper then "ABCDEF"[d - 10] else "abcdef"[d - 10]
  }

  lemma QuotientAndDigit(n: nat, radix: nat)
    requires radix >= 2
    ensures n / radix * radix + n % radix == n && n / radix <= n && (n >= radix ==> n / radix < n)
    ensures n < radix ==> n / radix == 0
    ensures 0 <= n % radix < radix
  {
  }

  function Numeral(n: nat, radix: nat, upper: bool): (s: string)
    requires 2 <= radix <= 16
    ensures s != ""
    decreases n
  {
    QuotientAndDigit(n, radix);
    (if n < radix then "" else Numeral(n / radix, radix, upper)) + [DigitChar(n % radix, upper)]
  }

  function Padding(k: nat): string {
    if k == 0 then "" else "0" + Padding(k - 1)
  }

  datatype Style = Decimal | Hex(bigX: bool, bigDigits: bool)

  /** One list item: an id, how it is written, with how many leading zeros, and the space around it. */
  datatype Item = Item(id: u32, style: Style, zeros: nat, left: string, right: string)
  {
    function Digits(): (s: string)
      ensures s != ""
    {
      Padding(zeros) + Numeral(id, if style.Decimal? then 10 else 16, style.Hex? && style.bigDigits)
    }

    function Body(): (s: string)
      ensures s != ""
    {
      (if style.Decimal? then "" else if style.bigX then "0X" else "0x") + Digits()
    }

    function Print(): string {
      left + Body() + right
    }

    ghost predicate Spaced() {
      (forall c :: c in left ==> IsSpace(c)) && (forall c :: c in right ==> IsSpace(c))
    }
  }

  function Join(items: seq<Item>): string
    requires items != []
  {
    if |items| == 1 then items[0].Print() else items[0].Print() + "," + Join(items[1..])
  }

  // ---------- reading undoes writing ----------

  lemma {:induction false} ReadAppend(s: string, c: char, radix: nat, acc: u32)
    ensures ReadDigits(s + [c], radix, acc)
         == match ReadDigits(s, radix, acc) case None => None case Some(v) => ReadDigits([c], radix, v)
    decreases s
  {
    if s == "" {
      assert s + [c] == [c];
    } else {
      assert (s + [c])[1..] == s[1..] + [c];
      if DigitValue(s[0], radix).Some? && acc * radix + DigitValue(s[0], radix).value <= U32_MAX {
        ReadAppend(s[1..], c, radix, acc * radix + DigitValue(s[0], radix).value);
      }
    }
  }

  predicate IsDigit(c: char) {
    '0' <= c <= '9' || 'a' <= c <= 'f' || 'A' <= c <= 'F'
  }

  lemma DigitCharValue(d: nat, radix: nat, upper: bool)
    requires d < radix <= 16
    ensures DigitValue(DigitChar(d, upper), radix) == Some(d)
    ensures IsDigit(DigitChar(d, upper)) && (d < 10 ==> '0' <= DigitChar(d, upper) <= '9')
  {
  }

  lemma ReadDigit(d: nat, radix: nat, upper: bool, acc: u32)
    requires d < radix <= 16 && acc * radix + d <= U32_MAX
    ensures ReadDigits([DigitChar(d, upper)], radix, acc) == Some(acc * radix + d)
  {
  }

  lemma {:induction false} ReadNumeral(n: u32, radix: nat, upper: bool)
    requires 2 <= radix <= 16
    ensures ReadDigits(Numeral(n, radix, upper), radix, 0) == Some(n)
    decreases n
  {
    QuotientAndDigit(n, radix);
    ReadDigit(n % radix, radix, upper, n / radix);
    if n < radix {
      assert Numeral(n, radix, upper) == [DigitChar(n % radix, upper)];
    } else {
      ReadNumeral(n / radix, radix, upper);
      ReadAppend(Numeral(n / radix, radix, upper), DigitChar(n % radix, upper), radix, 0);
    }
  }

  lemma {:induction false} NumeralDigits(n: nat, radix: nat, upper: bool)
    requires 2 <= radix <= 16
    ensures forall c :: c in Numeral(n, radix, upper) ==> IsDigit(c) && (radix <= 10 ==> '0' <= c <= '9')
    decreases n
  {
    hide IsDigit, DigitChar, DigitValue;
    var q, d := n / radix, n % radix;
    QuotientAndDigit(n, radix);
    DigitCharValue(d, radix, upper);
    assert Numeral(n, radix, upper) == (if n < radix then "" else Numeral(q, radix, upper)) + [DigitChar(d, upper)];
    if n >= radix {
      NumeralDigits(q, radix, upper);
    }
  }

  lemma ReadZero(s: string, radix: nat)
    requires 2 <= radix <= 16
    ensures ReadDigits("0" + s, radix, 0) == ReadDigits(s, radix, 0)
  {
    assert ("0" + s)[1..] == s;
  }

  lemma {:induction false} ReadPadded(k: nat, s: string, radix: nat)
    requires 2 <= radix <= 16
    ensures ReadDigits(Padding(k) + s, radix, 0) == ReadDigits(s, radix, 0)
    ensures forall c :: c in Padding(k) ==> c == '0'
  {
    hide ReadDigits;
    if k == 0 {
      assert Padding(0) + s == s;
    } else {
      ReadPadded(k - 1, s, radix);
      ReadZero(Padding(k - 1) + s, radix);
      assert Padding(k) + s == "0" + (Padding(k - 1) + s);
    }
  }

  /** The digits of an item are read back, and contain nothing but digits. */
  lemma ReadItemDigits(item: Item)
    ensures FromRadix(item.Digits(), if item.style.Decimal? then 10 else 16) == Some(item.id)
    ensures forall c :: c in item.Digits() ==> IsDigit(c) && (item.style.Decimal? ==> '0' <= c <= '9')
  {
    var radix := if item.style.Decimal? then 10 else 16;
    var upper := item.style.Hex? && item.style.bigDigits;
    ReadNumeral(item.id, radix, upper);
    NumeralDigits(item.id, radix, upper);
    ReadPadded(item.zeros, Numeral(item.id, radix, upper), radix);
    assert item.Digits()[0] in item.Digits();
  }

  lemma ParseBody(item: Item)
    ensures ParseDeviceId(item.Body()) == Some(item.id)
    ensures forall c :: c in item.Body() ==> !IsSpace(c) && c != ','
  {
    ReadItemDigits(item);
    var body, digits := item.Body(), item.Digits();
    if item.style.Decimal? {
      assert body == digits;
      if |body| >= 2 {
        assert body[1] in digits;
      }
    } else {
      assert body[2..] == digits;
    }
  }

  lemma {:induction false} TrimStartSpace(left: string, s: string)
    requires forall c :: c in left ==> IsSpace(c)
    requires s != "" && !IsSpace(s[0])
    ensures TrimStart(left + s) == s
  {
    if left == "" {
      assert left + s == s;
    } else {
      assert (left + s)[1..] == left[1..] + s;
      TrimStartSpace(left[1..], s);
    }
  }

  lemma {:induction false} TrimEndSpace(s: string, right: string)
    requires forall c :: c in right ==> IsSpace(c)
    requires s != "" && !IsSpace(s[|s| - 1])
    ensures TrimEnd(s + right) == s
  {
    if right == "" {
      assert s + right == s;
    } else {
      assert (s + right)[..|s + right| - 1] == s + right[..|right| - 1];
      TrimEndSpace(s, right[..|right| - 1]);
    }
  }

  lemma TrimItem(item: Item)
    requires item.Spaced()
    ensures Trim(item.Print()) == item.Body()
  {
    var body := item.Body();
    ParseBody(item);
    assert body[0] in body && body[|body| - 1] in body;
    assert item.Print() == item.left + (body + item.right);
    TrimStartSpace(item.left, body + item.right);
    TrimEndSpace(body, item.right);
  }

  lemma ItemHasNoComma(item: Item)
    requires item.Spaced()
    ensures ',' !in item.Print()
  {
    ParseBody(item);
  }

  lemma {:induction false} SplitAtComma(a: string, b: string)
    requires ',' !in a
    ensures Split(a + "," + b) == [a] + Split(b)
  {
    if a == "" {
      assert a + "," + b == "," + b;
    } else {
      assert (a + "," + b)[1..] == a[1..] + "," + b;
      SplitAtComma(a[1..], b);
      assert [a[0]] + a[1..] == a;
    }
  }

  lemma {:induction false} SplitWithoutComma(a: string)
    requires ',' !in a
    ensures Split(a) == [a]
  {
    if a != "" {
      SplitWithoutComma(a[1..]);
      assert [a[0]] + a[1..] == a;
    }
  }

  function IdsOf(items: seq<Item>): set<u32> {
    if items == [] then {} else {items[0].id} + IdsOf(items[1..])
  }

  lemma {:induction false} IdsOfJoin(items: seq<Item>)
    requires items != [] && forall item :: item in items ==> item.Spaced()
    ensures Ids(Split(Join(items))) == IdsOf(items)
  {
    var first := items[0].Print();
    TrimItem(items[0]);
    ParseBody(items[0]);
    ItemHasNoComma(items[0]);
    if |items| == 1 {
      SplitWithoutComma(first);
      assert Ids([first]) == {items[0].id} + Ids([first][1..]);
      assert IdsOf(items) == {items[0].id} + IdsOf(items[1..]);
    } else {
      SplitAtComma(first, Join(items[1..]));
      IdsOfJoin(items[1..]);
      var parts := [first] + Split(Join(items[1..]));
      assert parts[1..] == Split(Join(items[1..]));
    }
  }

  lemma {:induction false} TrimStartKeeps(s: string, c: char)
    requires c in s && !IsSpace(c)
    ensures c in TrimStart(s)
  {
    if IsSpace(s[0]) {
      TrimStartKeeps(s[1..], c);
    }
  }

  lemma {:induction false} TrimEndKeeps(s: string, c: char)
    requires c in s && !IsSpace(c)
    ensures c in TrimEnd(s)
  {
    if IsSpace(s[|s| - 1]) {
      TrimEndKeeps(s[..|s| - 1], c);
    }
  }

  lemma {:induction false} MemberOfIds(items: seq<Item>, deviceId: u32)
    ensures deviceId in IdsOf(items) <==> exists i :: 0 <= i < |items| && items[i].id == deviceId
  {
    if items != [] {
      MemberOfIds(items[1..], deviceId);
      if deviceId in IdsOf(items[1..]) {
        var i :| 0 <= i < |items[1..]| && items[1..][i].id == deviceId;
        assert items[i + 1].id == deviceId;
      }
      if i :| 0 <= i < |items| && items[i].id == deviceId && i > 0 {
        assert items[1..][i - 1].id == deviceId;
      }
    }
  }

  /** Any nonempty list of ids, each in decimal or hexadecimal, padded and spaced in any way, configures a
      registry that allows exactly those ids. */
  lemma {:induction false} WhitelistRoundTrip(items: seq<Item>, deviceId: u32)
    requires items != [] && forall item :: item in items ==> item.Spaced()
    ensures FromValue(Some(Join(items))) == Restricted(IdsOf(items))
    ensures FromValue(Some(Join(items))).IsAllowed(deviceId)
       <==> exists i :: 0 <= i < |items| && items[i].id == deviceId
  {
    var raw, c := Join(items), items[0].Body()[0];
    ParseBody(items[0]);
    assert c in items[0].Body();
    assert c in items[0].Print();
    assert c in raw;
    TrimStartKeeps(raw, c);
    TrimEndKeeps(TrimStart(raw), c);
    IdsOfJoin(items);
    MemberOfIds(items, deviceId);
  }

  // ---------- what any text means ----------

  ghost predicate IsNumeral(c: char, d: nat) {
    d < 16 && (c == DigitChar(d, false) || c == DigitChar(d, true))
  }

  ghost predicate DigitsAre(s: string, radix: nat, digits: seq<nat>) {
    |s| == |digits| && forall i :: 0 <= i < |s| ==> digits[i] < radix && IsNumeral(s[i], digits[i])
  }

  /** The number that digits denote in positional notation. */
  function Positional(digits: seq<nat>, radix: nat): nat {
    if digits == [] then 0 else Positional(digits[..|digits| - 1], radix) * radix + digits[|digits| - 1]
  }

  /** A nonempty string of digits of this radix that denotes `n`. */
  ghost predicate Spells(s: string, radix: nat, n: nat) {
    s != "" && exists digits: seq<nat> :: DigitsAre(s, radix, digits) && Positional(digits, radix) == n
  }

  /** The texts that name an id: decimal, or hexadecimal after 0x or 0X, either with a plus sign. */
  ghost predicate NamedBy(s: string, prefix: string, digits: string, id: u32) {
    s == prefix + digits
    && ((prefix in ["", "+"] && Spells(digits, 10, id))
        || (prefix in ["0x", "0X", "0x+", "0X+"] && Spells(digits, 16, id)))
  }

  ghost predicate Names(s: string, id: u32) {
    exists prefix: string, digits: string :: NamedBy(s, prefix, digits, id)
  }

  lemma DigitTable(c: char, radix: nat, d: nat)
    requires 2 <= radix <= 16
    ensures DigitValue(c, radix) == Some(d) <==> d < radix && IsNumeral(c, d)
  {
  }

  lemma ReadOneDigit(c: char, radix: nat, acc: u32, n: u32)
    requires 2 <= radix <= 16
    ensures ReadDigits([c], radix, acc) == Some(n)
       <==> exists d: nat :: d < radix && IsNumeral(c, d) && acc * radix + d == n
  {
    hide IsNumeral;
    var v := DigitValue(c, radix);
    if v.Some? {
      DigitTable(c, radix, v.value);
      assert ReadDigits([c][1..], radix, n) == Some(n);
    }
    forall d: nat | d < radix && IsNumeral(c, d)
      ensures v == Some(d)
    {
      DigitTable(c, radix, d);
    }
  }

  lemma SmallerFactor(m: nat, radix: nat, d: nat, n: nat)
    requires radix >= 2 && n == m * radix + d
    ensures m <= n
  {
  }

  lemma PositionalAppend(digits: seq<nat>, d: nat, radix: nat)
    ensures Positional(digits + [d], radix) == Positional(digits, radix) * radix + d
    ensures Positional([], radix) == 0
  {
    assert (digits + [d])[..|digits|] == digits;
  }

  lemma DigitsAppend(s: string, c: char, digits: seq<nat>, d: nat, radix: nat)
    ensures DigitsAre(s + [c], radix, digits + [d])
       <==> DigitsAre(s, radix, digits) && d < radix && IsNumeral(c, d)
  {
    hide IsNumeral;
    var t, ds := s + [c], digits + [d];
    assert |s| == |digits| ==> t[|s|] == c && ds[|s|] == d;
    assert forall i :: 0 <= i < |s| ==> t[i] == s[i];
    assert forall i :: 0 <= i < |digits| ==> ds[i] == digits[i];
    if DigitsAre(t, radix, ds) {
      assert digits == ds[..|s|];
    }
  }

  lemma SpelledOne(c: char, radix: nat, n: nat)
    ensures Spells([c], radix, n) <==> n < radix && IsNumeral(c, n)
  {
    hide IsNumeral, Positional;
    PositionalAppend([], n, radix);
    assert [] + [n] == [n] && 0 * radix == 0;
    if n < radix && IsNumeral(c, n) {
      assert DigitsAre([c], radix, [n]);
    }
    if Spells([c], radix, n) {
      var digits: seq<nat> :| DigitsAre([c], radix, digits) && Positional(digits, radix) == n;
      PositionalAppend([], digits[0], radix);
      assert digits == [] + [digits[0]];
    }
  }

  lemma SplitDigits(s: string, digits: seq<nat>, radix: nat) returns (before: seq<nat>, d: nat)
    requires s != "" && DigitsAre(s, radix, digits)
    ensures digits == before + [d]
  {
    before, d := digits[..|s| - 1], digits[|s| - 1];
  }

  lemma SpelledNext(front: string, c: char, radix: nat, n: nat)
    requires front != ""
    ensures Spells(front + [c], radix, n)
       <==> exists m: nat, d: nat :: Spells(front, radix, m) && d < radix && IsNumeral(c, d) && n == m * radix + d
  {
    hide IsNumeral, Positional, DigitsAre;
    if Spells(front + [c], radix, n) {
      var digits: seq<nat> :| DigitsAre(front + [c], radix, digits) && Positional(digits, radix) == n;
      var before, d := SplitDigits(front + [c], digits, radix);
      DigitsAppend(front, c, before, d, radix);
      PositionalAppend(before, d, radix);
      assert Spells(front, radix, Positional(before, radix));
    }
    if m: nat, d: nat :| Spells(front, radix, m) && d < radix && IsNumeral(c, d) && n == m * radix + d {
      var digits: seq<nat> :| DigitsAre(front, radix, digits) && Positional(digits, radix) == m;
      DigitsAppend(front, c, digits, d, radix);
      PositionalAppend(digits, d, radix);
    }
  }

  /** The reader accepts exactly the digit strings of the radix that denote a u32, with their value. */
  lemma {:induction false} ReadSpelled(s: string, radix: nat, n: u32)
    requires 2 <= radix <= 16 && s != ""
    ensures ReadDigits(s, radix, 0) == Some(n) <==> Spells(s, radix, n)
    decreases |s|
  {
    hide IsNumeral, ReadDigits;
    var front, c := s[..|s| - 1], s[|s| - 1];
    assert s == front + [c];
    hide Spells;
    if front == "" {
      assert s == [c];
      SpelledOne(c, radix, n);
      ReadOneDigit(c, radix, 0, n);
    } else {
      ReadAppend(front, c, radix, 0);
      SpelledNext(front, c, radix, n);
      if ReadDigits(s, radix, 0) == Some(n) {
        var v := ReadDigits(front, radix, 0).value;
        ReadSpelled(front, radix, v);
        ReadOneDigit(c, radix, v, n);
      }
      if Spells(s, radix, n) {
        var m: nat, d: nat :| Spells(front, radix, m) && d < radix && IsNumeral(c, d) && n == m * radix + d;
        SmallerFactor(m, radix, d, n);
        ReadSpelled(front, radix, m);
        ReadOneDigit(c, radix, m, n);
      }
    }
  }

  lemma NumeralIsDigit(c: char, d: nat)
    requires IsNumeral(c, d)
    ensures IsDigit(c) && (d < 10 ==> '0' <= c <= '9')
  {
  }

  lemma SpelledDigits(s: string, radix: nat, n: nat)
    requires 2 <= radix <= 16 && Spells(s, radix, n)
    ensures forall c :: c in s ==> IsDigit(c) && (radix == 10 ==> '0' <= c <= '9')
  {
    hide IsNumeral, IsDigit, Positional;
    var digits: seq<nat> :| DigitsAre(s, radix, digits) && Positional(digits, radix) == n;
    forall i | 0 <= i < |s|
      ensures IsDigit(s[i]) && (radix == 10 ==> '0' <= s[i] <= '9')
    {
      NumeralIsDigit(s[i], digits[i]);
    }
  }

  lemma NoDigits(radix: nat, n: nat)
    requires 2 <= radix <= 16
    ensures !Spells("", radix, n) && ReadDigits("-", radix, 0) == None
  {
  }

  lemma FromRadixSpelled(s: string, radix: nat, n: u32)
    requires 2 <= radix <= 16
    ensures FromRadix(s, radix) == Some(n)
       <==> Spells(s, radix, n) || ("+" <= s && Spells(s[1..], radix, n))
  {
    hide Spells, DigitValue, ReadDigits;
    NoDigits(radix, n);
    if s != "" {
      ReadSpelled(s, radix, n);
      if Spells(s, radix, n) {
        SpelledDigits(s, radix, n);
        assert s[0] in s;
      }
      if |s| > 1 {
        ReadSpelled(s[1..], radix, n);
      }
    }
  }

  lemma NotHexadecimal(s: string, prefix: string, digits: string)
    requires !("0x" <= s) && !("0X" <= s) && s == prefix + digits
    ensures prefix != "0x" && prefix != "0X" && prefix != "0x+" && prefix != "0X+"
  {
    if |prefix| >= 2 {
      assert s[0] == prefix[0] && s[1] == prefix[1];
    }
  }

  lemma DecimalNames(s: string, id: u32)
    requires !("0x" <= s) && !("0X" <= s)
    ensures Names(s, id) <==> Spells(s, 10, id) || ("+" <= s && Spells(s[1..], 10, id))
  {
    hide Spells;
    if Spells(s, 10, id) {
      assert NamedBy(s, "", s, id);
    }
    if "+" <= s && Spells(s[1..], 10, id) {
      assert NamedBy(s, "+", s[1..], id);
    }
    if Names(s, id) {
      var prefix: string, digits: string :| NamedBy(s, prefix, digits, id);
      NotHexadecimal(s, prefix, digits);
      assert digits == s[|prefix|..];
    }
  }

  lemma HexadecimalNames(s: string, x: string, id: u32)
    requires (x == "0x" || x == "0X") && x <= s
    ensures Names(s, id) <==> Spells(s[2..], 16, id) || ("+" <= s[2..] && Spells(s[3..], 16, id))
  {
    hide Spells, IsDigit;
    assert s == x + s[2..];
    if Spells(s[2..], 16, id) {
      assert NamedBy(s, x, s[2..], id);
    }
    if "+" <= s[2..] && Spells(s[3..], 16, id) {
      assert s[..3] == if x == "0x" then "0x+" else "0X+";
      assert s == s[..3] + s[3..];
      assert NamedBy(s, s[..3], s[3..], id);
    }
    if Names(s, id) {
      var prefix: string, digits: string :| NamedBy(s, prefix, digits, id);
      assert digits == s[|prefix|..];
      if prefix == "" {
        SpelledDigits(digits, 10, id);
        assert s[1] in digits;
      } else {
        assert s[0] == prefix[0];
        if |prefix| == 3 {
          assert s[2] == prefix[2];
        }
      }
    }
  }

  /** A text is read as an id exactly when it names it. */
  lemma ParseNames(s: string, id: u32)
    ensures ParseDeviceId(s) == Some(id) <==> Names(s, id)
  {
    hide Spells, Names, FromRadix;
    if "0x" <= s || "0X" <= s {
      FromRadixSpelled(s[2..], 16, id);
      HexadecimalNames(s, if "0x" <= s then "0x" else "0X", id);
      assert "+" <= s[2..] ==> s[2..][1..] == s[3..];
    } else {
      FromRadixSpelled(s, 10, id);
      DecimalNames(s, id);
    }
  }

  lemma NamesCharacters(s: string, id: u32)
    requires Names(s, id)
    ensures s != "" && forall c :: c in s ==> !IsSpace(c) && c != ','
  {
    var prefix: string, digits: string :| NamedBy(s, prefix, digits, id);
    if Spells(digits, 10, id) {
      SpelledDigits(digits, 10, id);
    } else {
      SpelledDigits(digits, 16, id);
    }
  }

  /** The twenty-five characters that trimming takes off. */
  lemma WhiteSpace(c: char)
    ensures IsSpace(c) <==> c as int in {
              0x09, 0x0A, 0x0B, 0x0C, 0x0D, 0x20, 0x85, 0xA0, 0x1680, 0x2000, 0x2001, 0x2002, 0x2003, 0x2004,
              0x2005, 0x2006, 0x2007, 0x2008, 0x2009, 0x200A, 0x2028, 0x2029, 0x202F, 0x205F, 0x3000}
  {
  }

  // ---------- trimming any text ----------

  ghost predicate AllSpace(s: string) {
    forall c :: c in s ==> IsSpace(c)
  }

  lemma {:induction false} TrimStartSplits(s: string) returns (left: string)
    ensures s == left + TrimStart(s) && AllSpace(left)
    ensures TrimStart(s) == "" <==> AllSpace(s)
  {
    left := "";
    if s != "" && IsSpace(s[0]) {
      left := TrimStartSplits(s[1..]);
      left := [s[0]] + left;
      assert s == [s[0]] + s[1..];
    } else if s != "" {
      assert s[0] in s;
    }
  }

  lemma {:induction false} TrimEndSplits(s: string) returns (right: string)
    ensures s == TrimEnd(s) + right && AllSpace(right)
    ensures TrimEnd(s) == "" <==> AllSpace(s)
  {
    right := "";
    if s != "" && IsSpace(s[|s| - 1]) {
      right := TrimEndSplits(s[..|s| - 1]);
      right := right + [s[|s| - 1]];
      assert s == s[..|s| - 1] + [s[|s| - 1]];
    } else if s != "" {
      assert s[|s| - 1] in s;
    }
  }

  /** Trimming takes off space at both ends and nothing else. */
  lemma TrimSplits(s: string) returns (left: string, right: string)
    ensures s == left + Trim(s) + right && AllSpace(left) && AllSpace(right)
    ensures Trim(s) == "" <==> AllSpace(s)
  {
    left := TrimStartSplits(s);
    right := TrimEndSplits(TrimStart(s));
  }

  lemma TrimNamed(left: string, body: string, right: string, id: u32)
    requires AllSpace(left) && AllSpace(right) && Names(body, id)
    ensures Trim(left + body + right) == body
  {
    hide Names;
    NamesCharacters(body, id);
    assert body[0] in body && body[|body| - 1] in body;
    assert left + body + right == left + (body + right);
    TrimStartSpace(left, body + right);
    TrimEndSpace(body, right);
  }

  /** A piece is read as an id exactly when it names it, with any space around. */
  ghost predicate SpacedName(piece: string, left: string, body: string, right: string, id: u32) {
    piece == left + body + right && AllSpace(left) && AllSpace(right) && Names(body, id)
  }

  lemma PieceNames(piece: string, id: u32)
    ensures ParseDeviceId(Trim(piece)) == Some(id)
       <==> exists left: string, body: string, right: string :: SpacedName(piece, left, body, right, id)
  {
    hide Names, Trim, ParseDeviceId, AllSpace;
    ParseNames(Trim(piece), id);
    if Names(Trim(piece), id) {
      var left, right := TrimSplits(piece);
      assert SpacedName(piece, left, Trim(piece), right, id);
    }
    if left: string, body: string, right: string :| SpacedName(piece, left, body, right, id) {
      TrimNamed(left, body, right, id);
    }
  }

  // ---------- splitting any text ----------

  /** `piece` stands between two commas or an end of the text. */
  ghost predicate PieceAt(s: string, before: string, piece: string, after: string) {
    && s == before + piece + after && ',' !in piece
    && (before == "" || before[|before| - 1] == ',') && (after == "" || after[0] == ',')
  }

  ghost predicate IsPiece(s: string, piece: string) {
    exists before: string, after: string :: PieceAt(s, before, piece, after)
  }

  /** The place of the `i`th piece. */
  lemma {:induction false} SplitAt(s: string, i: nat) returns (before: string, after: string)
    requires i < |Split(s)|
    ensures PieceAt(s, before, Split(s)[i], after) && (before == "" <==> i == 0)
  {
    before, after := "", "";
    if s != "" {
      assert s == [s[0]] + s[1..];
      if s[0] == ',' && i == 0 {
        after := s;
      } else {
        before, after := SplitAt(s[1..], if s[0] == ',' then i - 1 else i);
        if s[0] == ',' || i > 0 {
          before := [s[0]] + before;
        }
      }
    }
  }

  lemma {:induction false} SplitConcat(a: string, b: string)
    ensures Split(a + "," + b) == Split(a) + Split(b)
  {
    if a == "" {
      assert a + "," + b == "," + b;
    } else {
      assert (a + "," + b)[1..] == a[1..] + "," + b;
      SplitConcat(a[1..], b);
    }
  }

  lemma PieceInSplit(s: string, before: string, piece: string, after: string)
    requires PieceAt(s, before, piece, after)
    ensures piece in Split(s)
  {
    hide Split;
    var rest := piece + after;
    if after == "" {
      SplitWithoutComma(piece);
      assert rest == piece;
    } else {
      SplitAtComma(piece, after[1..]);
      assert rest == piece + "," + after[1..];
    }
    if before == "" {
      assert s == rest;
    } else {
      var front := before[..|before| - 1];
      SplitConcat(front, rest);
      assert s == front + "," + rest;
    }
  }

  lemma SplitPieces(s: string, piece: string)
    ensures piece in Split(s) <==> IsPiece(s, piece)
  {
    hide Split, PieceAt;
    if piece in Split(s) {
      var i :| 0 <= i < |Split(s)| && Split(s)[i] == piece;
      var before, after := SplitAt(s, i);
    }
    if before: string, after: string :| PieceAt(s, before, piece, after) {
      PieceInSplit(s, before, piece, after);
    }
  }

  // ---------- the configured registry ----------

  lemma {:induction false} IdsRead(parts: seq<string>, id: u32)
    ensures id in Ids(parts) <==> exists piece :: piece in parts && ParseDeviceId(Trim(piece)) == Some(id)
  {
    hide ParseDeviceId, Trim;
    if parts != [] {
      IdsRead(parts[1..], id);
      assert parts == [parts[0]] + parts[1..];
    }
  }

  /** The value lists the id: one of its comma-separated pieces, apart from space around it, names it. */
  ghost predicate Lists(value: string, id: u32) {
    exists piece: string, left: string, body: string, right: string ::
      IsPiece(value, piece) && SpacedName(piece, left, body, right, id)
  }

  lemma IdsListed(value: string, id: u32)
    ensures id in Ids(Split(value)) <==> Lists(value, id)
  {
    hide Split, ParseDeviceId, Trim, IsPiece, SpacedName, Ids;
    IdsRead(Split(value), id);
    if id in Ids(Split(value)) {
      var piece :| piece in Split(value) && ParseDeviceId(Trim(piece)) == Some(id);
      PieceNames(piece, id);
      SplitPieces(value, piece);
    }
    if Lists(value, id) {
      var piece: string, left: string, body: string, right: string :|
        IsPiece(value, piece) && SpacedName(piece, left, body, right, id);
      PieceNames(piece, id);
      SplitPieces(value, piece);
    }
  }

  /** Which devices a gateway allows, for every value of the environment variable: all of them when it is unset
      or blank, and otherwise exactly those that it lists. */
  lemma AllowedBy(value: Option<string>, id: u32)
    ensures FromValue(value).IsAllowed(id)
       <==> value.None? || AllSpace(value.value) || Lists(value.value, id)
  {
    hide Split, Trim, Ids, Lists, AllSpace;
    if value.Some? {
      var left, right := TrimSplits(value.value);
      IdsListed(value.value, id);
    }
  }

  /** A further piece that names nothing, empty or malformed, adds no device to a list that is not blank. */
  lemma MalformedAddsNothing(value: string, junk: string, id: u32)
    requires !AllSpace(value) && ',' !in junk
    requires forall other: u32 :: !Names(Trim(junk), other)
    ensures FromValue(Some(value + "," + junk)).IsAllowed(id) <==> FromValue(Some(value)).IsAllowed(id)
  {
    hide Split, Trim, Names;
    var left, right := TrimSplits(value);
    var left', right' := TrimSplits(value + "," + junk);
    SplitConcat(value, junk);
    SplitWithoutComma(junk);
    IdsRead(Split(value), id);
    IdsRead(Split(value) + [junk], id);
    ParseNames(Trim(junk), id);
  }
}
