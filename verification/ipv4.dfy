/** Dotted-quad IPv4 addresses as Python's `ipaddress.ip_address` reads them,
    and the private / loopback classification the resolver consults. */
module IPv4 {
  import opened Wrappers
  import Text

  type Octet = n: int | 0 <= n < 256

  datatype Address = Address(a: Octet, b: Octet, c: Octet, d: Octet)

  predicate IsDigit(c: char)
  {
    '0' <= c <= '9'
  }

  predicate AllDigits(s: string)
  {
    forall i :: 0 <= i < |s| ==> IsDigit(s[i])
  }

  function DigitChar(n: nat): (c: char)
    requires n < 10
    ensures IsDigit(c) && c as int - '0' as int == n
  {
    ('0' as int + n) as char
  }

  /** The value of a string of decimal digits, most significant first. */
  function DecimalValue(s: string): (v: nat)
    requires AllDigits(s)
  {
    if |s| == 0 then 0
    else DecimalValue(s[..|s| - 1]) * 10 + Digit(s[|s| - 1])
  }

  /** The canonical decimal text of an octet: no leading zero except "0". */
  function FormatOctet(n: Octet): (s: string)
    ensures 1 <= |s| <= 3 && AllDigits(s) && '.' !in s
    ensures s == "0" || s[0] != '0'
    ensures DecimalValue(s) == n
  {
    if n < 10 then
      var s := [DigitChar(n)];
      assert s[..0] == [];
      s
    else if n < 100 then
      var s := [DigitChar(n / 10), DigitChar(n % 10)];
      DecimalValue2(s);
      s
    else
      var s := [DigitChar(n / 100), DigitChar(n / 10 % 10), DigitChar(n % 10)];
      DecimalValue3(s);
      s
  }

  function Digit(c: char): (d: int)
  {
    c as int - '0' as int
  }

  lemma DecimalValue2(s: string)
    requires |s| == 2 && AllDigits(s)
    ensures DecimalValue(s) == Digit(s[0]) * 10 + Digit(s[1])
  {
    var p := s[..1];
    assert p[..0] == [];
    assert DecimalValue(p) == Digit(s[0]);
    assert s[..|s| - 1] == p;
  }

  lemma DecimalValue3(s: string)
    requires |s| == 3 && AllDigits(s)
    ensures DecimalValue(s) == Digit(s[0]) * 100 + Digit(s[1]) * 10 + Digit(s[2])
  {
    var p := s[..2];
    DecimalValue2(p);
    assert s[..|s| - 1] == p;
  }

  lemma DivMod2(h: int, u: int)
    requires 0 <= h < 10 && 0 <= u < 10
    ensures (h * 10 + u) / 10 == h && (h * 10 + u) % 10 == u
  {
  }

  lemma DivMod3(h: int, t: int, u: int)
    requires 0 <= h < 10 && 0 <= t < 10 && 0 <= u < 10
    ensures var v := h * 100 + t * 10 + u; v / 100 == h && v / 10 % 10 == t && v % 10 == u
  {
    var v := h * 100 + t * 10 + u;
    assert v / 10 == h * 10 + t;
  }

  lemma DigitRoundTrip(c: char)
    requires IsDigit(c)
    ensures DigitChar(Digit(c)) == c
  {
  }

  lemma CanonicalDigits2(s: string)
    requires |s| == 2 && AllDigits(s) && s[0] != '0'
    ensures DecimalValue(s) < 256
    ensures FormatOctet(DecimalValue(s)) == s
  {
    var v := DecimalValue(s);
    DecimalValue2(s);
    DivMod2(Digit(s[0]), Digit(s[1]));
    DigitRoundTrip(s[0]);
    DigitRoundTrip(s[1]);
    assert FormatOctet(v) == [DigitChar(Digit(s[0])), DigitChar(Digit(s[1]))];
  }

  lemma CanonicalDigits3(s: string)
    requires |s| == 3 && AllDigits(s) && s[0] != '0'
    requires DecimalValue(s) < 256
    ensures FormatOctet(DecimalValue(s)) == s
  {
    var v := DecimalValue(s);
    DecimalValue3(s);
    DivMod3(Digit(s[0]), Digit(s[1]), Digit(s[2]));
    DigitRoundTrip(s[0]);
    DigitRoundTrip(s[1]);
    DigitRoundTrip(s[2]);
    assert FormatOctet(v) == [DigitChar(Digit(s[0])), DigitChar(Digit(s[1])), DigitChar(Digit(s[2]))];
  }

  /** A canonical digit string of up to three digits is the formatting of its value. */
  lemma CanonicalDigits(s: string)
    requires 1 <= |s| <= 3 && AllDigits(s)
    requires s == "0" || s[0] != '0'
    requires DecimalValue(s) < 256
    ensures FormatOctet(DecimalValue(s)) == s
  {
    if |s| == 1 {
      assert s[..0] == [];
      DigitRoundTrip(s[0]);
      assert FormatOctet(DecimalValue(s)) == [DigitChar(Digit(s[0]))];
    } else if |s| == 2 {
      CanonicalDigits2(s);
    } else {
      CanonicalDigits3(s);
    }
  }

  /** One octet, checked in the order CPython's `_parse_octet` checks it:
      empty, non-digit, more than three digits, leading zero, above 255. */
  function ParseOctet(s: string): (r: Option<Octet>)
    ensures r.Some? <==> exists n: Octet :: FormatOctet(n) == s
    ensures r.Some? ==> FormatOctet(r.value) == s
  {
    if |s| == 0 then None
    else if !AllDigits(s) then None
    else if |s| > 3 then None
    else if s != "0" && s[0] == '0' then None
    else if DecimalValue(s) > 255 then None
    else
      CanonicalDigits(s);
      Some(DecimalValue(s))
  }

  /** The dotted-quad text of an address. */
  function Format(x: Address): (s: string)
  {
    Text.Join([FormatOctet(x.a), FormatOctet(x.b), FormatOctet(x.c), FormatOctet(x.d)], '.')
  }

  /** `ipaddress.ip_address` on IPv4 text: exactly four dot-separated octets. */
  function Parse(s: string): (r: Option<Address>)
    ensures r.Some? ==> Format(r.value) == s
  {
    var fields := Text.Split(s, '.');
    if |fields| != 4 then None
    else
      match (ParseOctet(fields[0]), ParseOctet(fields[1]), ParseOctet(fields[2]), ParseOctet(fields[3]))
      case (Some(a), Some(b), Some(c), Some(d)) =>
        assert fields == [fields[0], fields[1], fields[2], fields[3]];
        Some(Address(a, b, c, d))
      case _ => None
  }

  /** Formatting then parsing gives the address back. */
  lemma ParseFormat(x: Address)
    ensures Parse(Format(x)) == Some(x)
  {
    var fields := [FormatOctet(x.a), FormatOctet(x.b), FormatOctet(x.c), FormatOctet(x.d)];
    Text.SplitJoin(fields, '.');
  }

  /** The text an address parses from is exactly its canonical formatting. */
  lemma ParseIffFormat(s: string, x: Address)
    ensures Parse(s) == Some(x) <==> s == Format(x)
  {
    if s == Format(x) {
      ParseFormat(x);
    }
  }

  /** The loopback literal parses to 127.0.0.1. */
  lemma LoopbackTextParses()
    ensures Parse("127.0.0.1") == Some(Address(127, 0, 0, 1))
  {
    assert FormatOctet(127) == "127" && FormatOctet(0) == "0" && FormatOctet(1) == "1";
    assert Text.Join(["127", "0", "0", "1"], '.') == "127.0.0.1";
    ParseFormat(Address(127, 0, 0, 1));
  }

  /** The home-network address of the resolver's tests parses. */
  lemma HomeTextParses()
    ensures Parse("192.168.0.10") == Some(Address(192, 168, 0, 10))
  {
    assert FormatOctet(192) == "192" && FormatOctet(168) == "168";
    assert FormatOctet(0) == "0" && FormatOctet(10) == "10";
    assert Text.Join(["192", "168", "0", "10"], '.') == "192.168.0.10";
    ParseFormat(Address(192, 168, 0, 10));
  }

  /** The 10/8 address of the resolver's tests parses. */
  lemma CorporateTextParses()
    ensures Parse("10.0.0.1") == Some(Address(10, 0, 0, 1))
  {
    assert FormatOctet(10) == "10" && FormatOctet(0) == "0" && FormatOctet(1) == "1";
    assert Text.Join(["10", "0", "0", "1"], '.') == "10.0.0.1";
    ParseFormat(Address(10, 0, 0, 1));
  }

  /** A public resolver address parses. */
  lemma PublicTextParses()
    ensures Parse("8.8.8.8") == Some(Address(8, 8, 8, 8))
  {
    assert FormatOctet(8) == "8";
    assert Text.Join(["8", "8", "8", "8"], '.') == "8.8.8.8";
    ParseFormat(Address(8, 8, 8, 8));
  }

  /** Text without a dot is never an address. */
  lemma DotlessIsNotAnAddress(s: string)
    requires '.' !in s
    ensures Parse(s) == None
  {
    assert Text.IndexOf(s, '.').None?;
  }

  /** Empty text and non-address text are rejected. */
  lemma MalformedExamples()
    ensures Parse("") == None
    ensures Parse("not_an_ip") == None
  {
    DotlessIsNotAnAddress("");
    DotlessIsNotAnAddress("not_an_ip");
  }

  lemma NinesRejected()
    ensures ParseOctet("999") == None
  {
    DecimalValue3("999");
  }

  /** Four octets out of range are rejected. */
  lemma OutOfRangeExample()
    ensures Parse("999.999.999.999") == None
  {
    var s := "999.999.999.999";
    assert s == "999" + ['.'] + "999.999.999";
    Text.FirstFieldIgnoresLaterFields("999", '.', "999.999.999");
    NinesRejected();
  }

  /** The address as one unsigned 32-bit number, first octet most significant. */
  function Value(x: Address): (v: nat)
    ensures v < 0x1_0000_0000
  {
    ((x.a * 256 + x.b) * 256 + x.c) * 256 + x.d
  }

  /** An inclusive block of addresses. */
  datatype Range = Range(first: Address, last: Address)

  predicate InRange(x: Address, r: Range)
  {
    Value(r.first) <= Value(x) <= Value(r.last)
  }

  predicate InTable(x: Address, table: seq<Range>)
  {
    exists i :: 0 <= i < |table| && InRange(x, table[i])
  }

  /** The IPv4 blocks Python's `ipaddress` (3.13) calls private. */
  const PrivateRanges: seq<Range> := [
    Range(Address(0, 0, 0, 0), Address(0, 255, 255, 255)),           // 0.0.0.0/8
    Range(Address(10, 0, 0, 0), Address(10, 255, 255, 255)),         // 10.0.0.0/8
    Range(Address(127, 0, 0, 0), Address(127, 255, 255, 255)),       // 127.0.0.0/8
    Range(Address(169, 254, 0, 0), Address(169, 254, 255, 255)),     // 169.254.0.0/16
    Range(Address(172, 16, 0, 0), Address(172, 31, 255, 255)),       // 172.16.0.0/12
    Range(Address(192, 0, 0, 0), Address(192, 0, 0, 255)),           // 192.0.0.0/24
    Range(Address(192, 0, 0, 170), Address(192, 0, 0, 171)),         // 192.0.0.170/31
    Range(Address(192, 0, 2, 0), Address(192, 0, 2, 255)),           // 192.0.2.0/24
    Range(Address(192, 168, 0, 0), Address(192, 168, 255, 255)),     // 192.168.0.0/16
    Range(Address(198, 18, 0, 0), Address(198, 19, 255, 255)),       // 198.18.0.0/15
    Range(Address(198, 51, 100, 0), Address(198, 51, 100, 255)),     // 198.51.100.0/24
    Range(Address(203, 0, 113, 0), Address(203, 0, 113, 255)),       // 203.0.113.0/24
    Range(Address(240, 0, 0, 0), Address(255, 255, 255, 255)),       // 240.0.0.0/4
    Range(Address(255, 255, 255, 255), Address(255, 255, 255, 255))  // 255.255.255.255/32
  ]

  /** Blocks inside the private table that Python's `ipaddress` (3.13) exempts. */
  const PrivateExceptions: seq<Range> := [
    Range(Address(192, 0, 0, 9), Address(192, 0, 0, 9)),             // 192.0.0.9/32
    Range(Address(192, 0, 0, 10), Address(192, 0, 0, 10))            // 192.0.0.10/32
  ]

  /** 127.0.0.0/8. */
  const LoopbackRange := Range(Address(127, 0, 0, 0), Address(127, 255, 255, 255))

  /** The private table written as octet patterns, with the two exempted
      addresses left out of 192.0.0.0/24. 192.0.0.170/31 and
      255.255.255.255/32 lie inside blocks already listed. */
  predicate PrivateByOctets(x: Address)
  {
    || x.a == 0
    || x.a == 10
    || x.a == 127
    || (x.a == 169 && x.b == 254)
    || (x.a == 172 && 16 <= x.b <= 31)
    || (x.a == 192 && x.b == 0 && x.c == 0 && x.d != 9 && x.d != 10)
    || (x.a == 192 && x.b == 0 && x.c == 2)
    || (x.a == 192 && x.b == 168)
    || (x.a == 198 && 18 <= x.b <= 19)
    || (x.a == 198 && x.b == 51 && x.c == 100)
    || (x.a == 203 && x.b == 0 && x.c == 113)
    || x.a >= 240
  }

  /** Comparing the numeric values of two addresses is comparing their octets
      from the first. */
  lemma ValueOrder(x: Address, y: Address)
    ensures Value(x) <= Value(y) <==>
      (|| x.a < y.a
       || (x.a == y.a && x.b < y.b)
       || (x.a == y.a && x.b == y.b && x.c < y.c)
       || (x.a == y.a && x.b == y.b && x.c == y.c && x.d <= y.d))
  {
  }

  /** Membership in the private table, one block at a time. */
  lemma PrivateTableUnfold(x: Address)
    ensures InTable(x, PrivateRanges) <==>
      (|| InRange(x, PrivateRanges[0]) || InRange(x, PrivateRanges[1])
       || InRange(x, PrivateRanges[2]) || InRange(x, PrivateRanges[3])
       || InRange(x, PrivateRanges[4]) || InRange(x, PrivateRanges[5])
       || InRange(x, PrivateRanges[6]) || InRange(x, PrivateRanges[7])
       || InRange(x, PrivateRanges[8]) || InRange(x, PrivateRanges[9])
       || InRange(x, PrivateRanges[10]) || InRange(x, PrivateRanges[11])
       || InRange(x, PrivateRanges[12]) || InRange(x, PrivateRanges[13]))
  {
    if InTable(x, PrivateRanges) {
      var i :| 0 <= i < |PrivateRanges| && InRange(x, PrivateRanges[i]);
      assert i in {0, 1, 2, 3, 4, 5, 6, 7, 8, 9, 10, 11, 12, 13};
    }
  }

  /** Private blocks 0 to 2 in terms of octets. */
  lemma Blocks0To2ByOctets(x: Address)
    ensures InRange(x, PrivateRanges[0]) <==> x.a == 0
    ensures InRange(x, PrivateRanges[1]) <==> x.a == 10
    ensures InRange(x, PrivateRanges[2]) <==> x.a == 127
  {
  }

  /** Private blocks 3 to 4 in terms of octets. */
  lemma Blocks3To4ByOctets(x: Address)
    ensures InRange(x, PrivateRanges[3]) <==> x.a == 169 && x.b == 254
    ensures InRange(x, PrivateRanges[4]) <==> x.a == 172 && 16 <= x.b <= 31
  {
  }

  /** Private blocks 5 to 6 in terms of octets. */
  lemma Blocks5To6ByOctets(x: Address)
    ensures InRange(x, PrivateRanges[5]) <==> x.a == 192 && x.b == 0 && x.c == 0
    ensures InRange(x, PrivateRanges[6]) <==> x.a == 192 && x.b == 0 && x.c == 0 && 170 <= x.d <= 171
  {
  }

  /** Private blocks 7 to 8 in terms of octets. */
  lemma Blocks7To8ByOctets(x: Address)
    ensures InRange(x, PrivateRanges[7]) <==> x.a == 192 && x.b == 0 && x.c == 2
    ensures InRange(x, PrivateRanges[8]) <==> x.a == 192 && x.b == 168
  {
  }

  /** Private blocks 9 to 11 in terms of octets. */
  lemma Blocks9To11ByOctets(x: Address)
    ensures InRange(x, PrivateRanges[9]) <==> x.a == 198 && 18 <= x.b <= 19
    ensures InRange(x, PrivateRanges[10]) <==> x.a == 198 && x.b == 51 && x.c == 100
    ensures InRange(x, PrivateRanges[11]) <==> x.a == 203 && x.b == 0 && x.c == 113
  {
  }

  /** Private blocks 12 to 13 in terms of octets. */
  lemma Blocks12To13ByOctets(x: Address)
    ensures InRange(x, PrivateRanges[12]) <==> x.a >= 240
    ensures InRange(x, PrivateRanges[13]) <==> x.a == 255 && x.b == 255 && x.c == 255 && x.d == 255
  {
  }

  /** The exempted blocks are the two addresses 192.0.0.9 and 192.0.0.10. */
  lemma ExceptionsByOctets(x: Address)
    ensures InTable(x, PrivateExceptions) <==>
      x.a == 192 && x.b == 0 && x.c == 0 && (x.d == 9 || x.d == 10)
  {
    var t := PrivateExceptions;
    ValueOrder(t[0].first, x); ValueOrder(x, t[0].last);
    ValueOrder(t[1].first, x); ValueOrder(x, t[1].last);
    if InTable(x, t) {
      var i :| 0 <= i < |t| && InRange(x, t[i]);
      assert i == 0 || i == 1;
    } else {
      assert !InRange(x, t[0]) && !InRange(x, t[1]);
    }
  }

  /** The two tables together are the octet patterns of `PrivateByOctets`. */
  lemma TablesByOctets(x: Address)
    ensures InTable(x, PrivateRanges) && !InTable(x, PrivateExceptions) <==> PrivateByOctets(x)
  {
    PrivateTableUnfold(x);
    Blocks0To2ByOctets(x);
    Blocks3To4ByOctets(x);
    Blocks5To6ByOctets(x);
    Blocks7To8ByOctets(x);
    Blocks9To11ByOctets(x);
    Blocks12To13ByOctets(x);
    ExceptionsByOctets(x);
  }

  /** `ip.is_private`: in some block of the table and in no exempted block.
      Spelled out, that is exactly the octet patterns of `PrivateByOctets`. */
  predicate IsPrivate(x: Address)
    ensures IsPrivate(x) <==> PrivateByOctets(x)
  {
    TablesByOctets(x);
    InTable(x, PrivateRanges) && !InTable(x, PrivateExceptions)
  }

  /** `ip.is_loopback`: exactly the addresses whose first octet is 127. */
  predicate IsLoopback(x: Address)
    ensures IsLoopback(x) <==> x.a == 127
  {
    ValueOrder(LoopbackRange.first, x);
    ValueOrder(x, LoopbackRange.last);
    InRange(x, LoopbackRange)
  }

  /** The resolver's guard, `is_private or is_loopback`. Every loopback
      address is already private, so for IPv4 the guard is `is_private`. */
  predicate IsLocal(x: Address)
    ensures IsLocal(x) <==> IsPrivate(x)
  {
    IsPrivate(x) || IsLoopback(x)
  }

  /** The two addresses exempted from 192.0.0.0/24 are public; the rest of
      that block is private. */
  lemma ExemptedAddressesArePublic(x: Address)
    requires x.a == 192 && x.b == 0 && x.c == 0
    ensures IsLocal(x) <==> x.d != 9 && x.d != 10
  {
  }

  /** The four blocks every private table must cover. */
  lemma CommonBlocksAreLocal(x: Address)
    ensures x.a == 127 ==> IsLocal(x)
    ensures x.a == 10 ==> IsLocal(x)
    ensures x.a == 172 && 16 <= x.b <= 31 ==> IsLocal(x)
    ensures x.a == 192 && x.b == 168 ==> IsLocal(x)
  {
    if x.a == 10 {
      assert InRange(x, PrivateRanges[1]);
    } else if x.a == 172 && 16 <= x.b <= 31 {
      assert InRange(x, PrivateRanges[4]);
    } else if x.a == 192 && x.b == 168 {
      assert InRange(x, PrivateRanges[8]);
    }
  }

  /** A public resolver address is in no private block. */
  lemma PublicExample()
    ensures !IsLocal(Address(8, 8, 8, 8))
  {
    var x := Address(8, 8, 8, 8);
    forall i | 0 <= i < |PrivateRanges| ensures !InRange(x, PrivateRanges[i]) {
    }
  }
}
