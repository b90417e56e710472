/**
 * The remote-address text of a login entry. The 16-byte `ut_addr_v6` field is four
 * `i32` words; a heuristic on the words picks one of three shapes: empty, IPv4
 * dotted decimal, or eight colon-separated groups of four lowercase hex digits.
 */
module Address {
  import opened Bytes

  // ---------- decimal ----------

  predicate IsDigit(c: char) {
    '0' <= c <= '9'
  }

  function Digit(d: nat): (c: char)
    requires d < 10
    ensures IsDigit(c)
  {
    (0x30 + d) as char
  }

  function DigitValue(c: char): nat {
    if IsDigit(c) then c as int - 0x30 else 0
  }

  /** The decimal digits of `n`, most significant first, without leading zeros. */
  function Decimal(n: nat): (s: string)
    ensures |s| >= 1 && forall i :: 0 <= i < |s| ==> IsDigit(s[i])
    ensures n < 10 <==> |s| == 1
  {
    if n < 10 then [Digit(n)] else Decimal(n / 10) + [Digit(n % 10)]
  }

  function ParseDecimal(s: string): nat {
    if s == [] then 0 else 10 * ParseDecimal(s[..|s| - 1]) + DigitValue(s[|s| - 1])
  }

  lemma {:induction false} ParseDecimalOfDecimal(n: nat)
    ensures ParseDecimal(Decimal(n)) == n
  {
    if n >= 10 {
      var s := Decimal(n);
      assert s[..|s| - 1] == Decimal(n / 10);
      ParseDecimalOfDecimal(n / 10);
    }
  }

  /** Decimal text has no leading zero, and a byte takes at most three digits. */
  lemma {:induction false} DecimalShape(n: nat)
    ensures Decimal(n)[0] == '0' <==> n == 0
    ensures n < 0x100 ==> |Decimal(n)| <= 3
  {
    if n >= 10 {
      DecimalShape(n / 10);
    }
  }

  // ---------- splitting on a separator ----------

  /** The pieces of `s` between occurrences of `sep` (`str::split`). */
  function Split(s: string, sep: char): (parts: seq<string>)
    ensures |parts| >= 1
  {
    if s == [] then [""]
    else
      var rest := Split(s[1..], sep);
      if s[0] == sep then [""] + rest else [[s[0]] + rest[0]] + rest[1..]
  }

  lemma {:induction false} SplitNoSep(a: string, sep: char)
    requires sep !in a
    ensures Split(a, sep) == [a]
  {
    if a != [] {
      SplitNoSep(a[1..], sep);
      assert [a[0]] + a[1..] == a;
    }
  }

  lemma {:induction false} SplitJoin(a: string, sep: char, b: string)
    requires sep !in a
    ensures Split(a + [sep] + b, sep) == [a] + Split(b, sep)
  {
    if a == [] {
      assert a + [sep] + b == [sep] + b;
      assert ([sep] + b)[1..] == b;
    } else {
      assert (a + [sep] + b)[1..] == a[1..] + [sep] + b;
      SplitJoin(a[1..], sep, b);
      assert [a[0]] + a[1..] == a;
    }
  }

  // ---------- IPv4 ----------

  /** The unpadded decimals of the four bytes, in order, joined by '.'. */
  function Ipv4Text(b: seq<Byte>): string
    requires |b| == 4
  {
    Decimal(b[0]) + "." + Decimal(b[1]) + "." + Decimal(b[2]) + "." + Decimal(b[3])
  }

  /** Reads dotted-decimal text back as the numbers between the dots. */
  function ParseIpv4(s: string): seq<nat> {
    var parts := Split(s, '.');
    seq(|parts|, i requires 0 <= i < |parts| => ParseDecimal(parts[i]))
  }

  lemma DecimalHasNoSeparator(n: nat)
    ensures '.' !in Decimal(n) && ':' !in Decimal(n)
  {
  }

  /** Splitting the IPv4 text on '.' gives back the four decimal numbers. */
  lemma Ipv4Split(b: seq<Byte>)
    requires |b| == 4
    ensures Split(Ipv4Text(b), '.') == [Decimal(b[0]), Decimal(b[1]), Decimal(b[2]), Decimal(b[3])]
  {
    var d0, d1, d2, d3 := Decimal(b[0]), Decimal(b[1]), Decimal(b[2]), Decimal(b[3]);
    DecimalHasNoSeparator(b[0]);
    DecimalHasNoSeparator(b[1]);
    DecimalHasNoSeparator(b[2]);
    DecimalHasNoSeparator(b[3]);
    var t3 := d2 + ['.'] + d3;
    var t2 := d1 + ['.'] + t3;
    assert Ipv4Text(b) == d0 + ['.'] + t2;
    SplitNoSep(d3, '.');
    SplitJoin(d2, '.', d3);
    SplitJoin(d1, '.', t3);
    SplitJoin(d0, '.', t2);
  }

  /** Splitting the IPv4 text on '.' and reading each piece gives back exactly the four address bytes. */
  lemma Ipv4RoundTrip(b: seq<Byte>)
    requires |b| == 4
    ensures Split(Ipv4Text(b), '.') == [Decimal(b[0]), Decimal(b[1]), Decimal(b[2]), Decimal(b[3])]
    ensures ParseIpv4(Ipv4Text(b)) == b
  {
    Ipv4Split(b);
    ParseDecimalOfDecimal(b[0]);
    ParseDecimalOfDecimal(b[1]);
    ParseDecimalOfDecimal(b[2]);
    ParseDecimalOfDecimal(b[3]);
  }

  /** IPv4 text is 7 to 15 characters long and uses no colon. */
  lemma Ipv4Shape(b: seq<Byte>)
    requires |b| == 4
    ensures 7 <= |Ipv4Text(b)| <= 15 && ':' !in Ipv4Text(b)
  {
    DecimalShape(b[0]);
    DecimalShape(b[1]);
    DecimalShape(b[2]);
    DecimalShape(b[3]);
    DecimalHasNoSeparator(b[0]);
    DecimalHasNoSeparator(b[1]);
    DecimalHasNoSeparator(b[2]);
    DecimalHasNoSeparator(b[3]);
  }

  // ---------- IPv6 ----------

  predicate IsLowerHex(c: char) {
    '0' <= c <= '9' || 'a' <= c <= 'f'
  }

  function HexDigit(d: nat): (c: char)
    requires d < 16
    ensures IsLowerHex(c)
  {
    if d < 10 then (0x30 + d) as char else (0x57 + d) as char
  }

  function HexValue(c: char): nat {
    if '0' <= c <= '9' then c as int - 0x30
    else if 'a' <= c <= 'f' then c as int - 0x57
    else 0
  }

  /** A byte as two lowercase hex digits, high nibble first, with a leading zero when below 0x10. */
  function Hex2(b: Byte): string {
    [HexDigit(b / 16), HexDigit(b % 16)]
  }

  function HexByte(hi: char, lo: char): nat {
    16 * HexValue(hi) + HexValue(lo)
  }

  /** Two hex digits give back their byte. */
  lemma Hex2RoundTrip(x: Byte)
    ensures HexByte(Hex2(x)[0], Hex2(x)[1]) == x
  {
    var hi, lo := x / 16, x % 16;
    assert HexValue(HexDigit(hi)) == hi && HexValue(HexDigit(lo)) == lo;
  }

  /** Groups of two bytes, four hex digits each, separated by ':'. */
  function HexGroups(b: seq<Byte>): (s: string)
    requires |b| >= 2 && |b| % 2 == 0
    ensures 2 * (|s| + 1) == 5 * |b|
    decreases |b|
  {
    if |b| == 2 then Hex2(b[0]) + Hex2(b[1])
    else Hex2(b[0]) + Hex2(b[1]) + ":" + HexGroups(b[2..])
  }

  /** The 16 bytes in order as eight groups of four lowercase hex digits joined by ':'. */
  function Ipv6Text(b: seq<Byte>): string
    requires |b| == 16
  {
    HexGroups(b)
  }

  /** Reads colon-grouped hex text back as bytes. */
  function ParseHexGroups(s: string): seq<nat>
    decreases |s|
  {
    if |s| < 4 then []
    else [HexByte(s[0], s[1]), HexByte(s[2], s[3])] + (if |s| >= 5 then ParseHexGroups(s[5..]) else [])
  }

  lemma {:induction false} HexGroupsRoundTrip(b: seq<Byte>)
    requires |b| >= 2 && |b| % 2 == 0
    ensures ParseHexGroups(HexGroups(b)) == b
    decreases |b|
  {
    var s := HexGroups(b);
    Hex2RoundTrip(b[0]);
    Hex2RoundTrip(b[1]);
    assert s[0..2] == Hex2(b[0]) && s[2..4] == Hex2(b[1]);
    if |b| > 2 {
      assert s[5..] == HexGroups(b[2..]);
      HexGroupsRoundTrip(b[2..]);
      assert b == [b[0], b[1]] + b[2..];
    }
  }

  /** Every fifth character is ':' and all others are lowercase hex digits. */
  lemma {:induction false} HexGroupsShape(b: seq<Byte>)
    requires |b| >= 2 && |b| % 2 == 0
    ensures forall j :: 0 <= j < |HexGroups(b)| ==>
      (HexGroups(b)[j] == ':' <==> j % 5 == 4) && (j % 5 != 4 ==> IsLowerHex(HexGroups(b)[j]))
    decreases |b|
  {
    var s := HexGroups(b);
    var head := Hex2(b[0]) + Hex2(b[1]);
    if |b| == 2 {
      assert forall j :: 0 <= j < |s| ==> s[j] == head[j] && j % 5 == j;
    } else {
      var rest := HexGroups(b[2..]);
      HexGroupsShape(b[2..]);
      forall j | 0 <= j < |s|
        ensures (s[j] == ':' <==> j % 5 == 4) && (j % 5 != 4 ==> IsLowerHex(s[j]))
      {
        if j < 4 {
          assert s[j] == head[j] && j % 5 == j;
        } else if j == 4 {
          assert s[j] == ':';
        } else {
          assert s[j] == rest[j - 5] && j % 5 == (j - 5) % 5;
        }
      }
    }
  }

  /**
   * The IPv6 text is 39 characters: eight groups of exactly four lowercase hex
   * digits joined by ':', encoding the 16 bytes in order, and it has no '.'.
   */
  lemma Ipv6RoundTrip(b: seq<Byte>)
    requires |b| == 16
    ensures |Ipv6Text(b)| == 39 && '.' !in Ipv6Text(b)
    ensures forall j :: 0 <= j < 39 ==>
      (Ipv6Text(b)[j] == ':' <==> j % 5 == 4) && (j % 5 != 4 ==> IsLowerHex(Ipv6Text(b)[j]))
    ensures ParseHexGroups(Ipv6Text(b)) == b
  {
    HexGroupsShape(b);
    HexGroupsRoundTrip(b);
  }

  // ---------- classification ----------

  /** `transmute::<[i32; 4], [u8; 16]>`: the in-memory bytes of the four words. */
  function AddrBytes(words: seq<I32>): (bs: seq<Byte>)
    requires |words| == 4
    ensures |bs| == 16
  {
    I32Bytes(words[0]) + I32Bytes(words[1]) + I32Bytes(words[2]) + I32Bytes(words[3])
  }

  /** The address heuristic of the decoder. */
  function IpAddr(words: seq<I32>): string
    requires |words| == 4
  {
    if words[0] != 0 && words[1] == 0 && words[2] == 0 && words[3] == 0 then
      Ipv4Text(I32Bytes(words[0]))
    else if words[0] != 0 || words[1] != 0 || words[2] != 0 || words[3] != 0 then
      Ipv6Text(AddrBytes(words))
    else
      ""
  }

  lemma AddrBytesZero(words: seq<I32>)
    requires |words| == 4
    ensures (forall i :: 0 <= i < 4 ==> words[i] == 0) <==> (forall j :: 0 <= j < 16 ==> AddrBytes(words)[j] == 0)
  {
    var bs := AddrBytes(words);
    var w0, w1, w2, w3 := I32Bytes(words[0]), I32Bytes(words[1]), I32Bytes(words[2]), I32Bytes(words[3]);
    I32BytesZero(words[0]);
    I32BytesZero(words[1]);
    I32BytesZero(words[2]);
    I32BytesZero(words[3]);
    assert forall i :: 0 <= i < 4 ==> bs[i] == w0[i];
    assert forall i :: 0 <= i < 4 ==> bs[4 + i] == w1[i];
    assert forall i :: 0 <= i < 4 ==> bs[8 + i] == w2[i];
    assert forall i :: 0 <= i < 4 ==> bs[12 + i] == w3[i];
    if forall j :: 0 <= j < 16 ==> bs[j] == 0 {
      forall i | 0 <= i < 4
        ensures w0[i] == 0 && w1[i] == 0 && w2[i] == 0 && w3[i] == 0
      {
        assert bs[i] == 0 && bs[4 + i] == 0 && bs[8 + i] == 0 && bs[12 + i] == 0;
      }
    }
    if forall i :: 0 <= i < 4 ==> words[i] == 0 {
      forall j | 0 <= j < 16
        ensures bs[j] == 0
      {
        if j < 4 { assert bs[j] == w0[j]; }
        else if j < 8 { assert bs[j] == w1[j - 4]; }
        else if j < 12 { assert bs[j] == w2[j - 8]; }
        else { assert bs[j] == w3[j - 12]; }
      }
    }
  }

  /** The address text is empty exactly when all 16 address bytes are zero. */
  lemma IpAddrEmpty(words: seq<I32>)
    requires |words| == 4
    ensures IpAddr(words) == "" <==> forall j :: 0 <= j < 16 ==> AddrBytes(words)[j] == 0
  {
    AddrBytesZero(words);
  }

  /** Only the first word set: dotted decimal of the first word's bytes, which splitting gives back. */
  lemma IpAddrIpv4(words: seq<I32>)
    requires |words| == 4
    requires words[0] != 0 && words[1] == 0 && words[2] == 0 && words[3] == 0
    ensures IpAddr(words) == Ipv4Text(AddrBytes(words)[..4])
    ensures ParseIpv4(IpAddr(words)) == AddrBytes(words)[..4]
    ensures ':' !in IpAddr(words)
  {
    assert AddrBytes(words)[..4] == I32Bytes(words[0]);
    Ipv4RoundTrip(I32Bytes(words[0]));
    Ipv4Shape(I32Bytes(words[0]));
  }

  /**
   * Any of the last three words set (whatever the first word holds): 39 characters of
   * colon-grouped hex from which all 16 bytes can be read back.
   */
  lemma IpAddrIpv6(words: seq<I32>)
    requires |words| == 4
    requires words[1] != 0 || words[2] != 0 || words[3] != 0
    ensures IpAddr(words) == Ipv6Text(AddrBytes(words))
    ensures |IpAddr(words)| == 39 && '.' !in IpAddr(words)
    ensures ParseHexGroups(IpAddr(words)) == AddrBytes(words)
  {
    Ipv6RoundTrip(AddrBytes(words));
  }

  /**
   * The three shapes never overlap, so the text alone tells which branch produced it:
   * no text is both IPv4 (has no ':', 7 to 15 characters) and IPv6 (39 characters, no '.').
   */
  lemma IpAddrShapes(words: seq<I32>)
    requires |words| == 4
    ensures var ip := IpAddr(words);
      || (ip == "" && forall i :: 0 <= i < 4 ==> words[i] == 0)
      || (words[0] != 0 && words[1] == 0 && words[2] == 0 && words[3] == 0 && 7 <= |ip| <= 15 && ':' !in ip)
      || ((words[1] != 0 || words[2] != 0 || words[3] != 0) && |ip| == 39 && '.' !in ip)
  {
    if words[0] != 0 && words[1] == 0 && words[2] == 0 && words[3] == 0 {
      Ipv4Shape(I32Bytes(words[0]));
    } else if words[1] != 0 || words[2] != 0 || words[3] != 0 {
      IpAddrIpv6(words);
    }
  }

  /** The first word of fe80:: as it lies in memory. */
  lemma LinkLocalWord()
    ensures I32Bytes(0x80fe) == [0xfe, 0x80, 0, 0]
  {
    assert LeBytes(0, 2) == [0, 0];
    assert LeBytes(0x80, 3) == [0x80, 0, 0];
  }

  lemma LinkLocalText()
    ensures Ipv4Text([0xfe, 0x80, 0, 0]) == "254.128.0.0"
  {
    assert Decimal(25) == "25" && Decimal(254) == "254";
    assert Decimal(12) == "12" && Decimal(128) == "128";
  }

  /**
   * The heuristic's known quirk: the IPv6 address fe80:: (link-local prefix, all other
   * bits zero) has only its first word set, so it is rendered as IPv4 text.
   */
  lemma LinkLocalPrefixLooksIpv4()
    ensures IpAddr([0x80fe, 0, 0, 0]) == "254.128.0.0"
  {
    LinkLocalWord();
    LinkLocalText();
  }
}
