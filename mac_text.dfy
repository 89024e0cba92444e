/**
 * MAC address helpers of the routing engine (ZHNetwork.cpp): byte-wise
 * comparison and the conversions between a six-byte MAC and its
 * twelve-character hexadecimal text.
 */
module MacText {
  import opened Records

  /** compare_mac: a six-byte memcmp that reports equality. */
  function CompareMac(a: Mac, b: Mac): (r: bool)
    ensures r <==> a == b
  {
    forall i | 0 <= i < 6 :: a[i] == b[i]
  }

  /** The digit characters macToString writes. */
  const HEX_DIGITS: string := "0123456789ABCDEF"

  /** The digit of a nibble value, as the table lays them out. */
  function HexDigit(n: nat): char
    requires n < 16
  {
    if n < 10 then ('0' as int + n) as char else ('A' as int + n - 10) as char
  }

  lemma NibbleDigit(n: nat)
    requires n < 16
    ensures HEX_DIGITS[n] == HexDigit(n)
  {
    if n < 8 {
      if n < 4 { } else { }
    } else {
      if n < 12 { } else { }
    }
  }

  predicate IsUpperHex(c: char) {
    '0' <= c <= '9' || 'A' <= c <= 'F'
  }

  /** The two characters of one byte, high nibble first. */
  function HexPair(b: byte): (p: string)
    ensures |p| == 2 && IsUpperHex(p[0]) && IsUpperHex(p[1])
  {
    NibbleDigit(b as int / 16);
    NibbleDigit(b as int % 16);
    [HEX_DIGITS[b as int / 16], HEX_DIGITS[b as int % 16]]
  }

  /** The text of a byte sequence: each byte as two uppercase hex digits. */
  function HexOf(bs: seq<byte>): (s: string)
    ensures |s| == 2 * |bs|
    ensures forall i :: 0 <= i < |s| ==> IsUpperHex(s[i])
  {
    if |bs| == 0 then [] else HexOf(bs[..|bs| - 1]) + HexPair(bs[|bs| - 1])
  }

  /** macToString: appends the two digits of each of the six bytes in turn. */
  method MacToString(mac: Mac) returns (s: string)
    ensures s == HexOf(mac)
    ensures |s| == 12 && forall i :: 0 <= i < 12 ==> IsUpperHex(s[i])
  {
    s := "";
    var i := 0;
    while i < 6
      invariant i <= 6
      invariant s == HexOf(mac[..i])
    {
      assert mac[..i + 1][..i] == mac[..i];
      s := s + [HEX_DIGITS[mac[i] as int / 16]];
      s := s + [HEX_DIGITS[mac[i] as int % 16]];
      i := i + 1;
    }
    assert mac[..6] == mac;
  }

  /**
   * The 75-entry lookup table of stringToMac, indexed by `c - '0'`, in its
   * five runs: the ten digits map to 0-9, the 26 uppercase letters and the 26
   * lowercase letters to 10-35, and the seven and six punctuation characters
   * between them to 0.
   */
  const DIGIT_VALUES: seq<nat> := Counting(10, 0) + Blank(7) + Counting(26, 10) + Blank(6) + Counting(26, 10)

  /** `n` table entries counting up from `first`. */
  function Counting(n: nat, first: nat): (r: seq<nat>)
    ensures |r| == n && forall i :: 0 <= i < n ==> r[i] == first + i
  {
    seq(n, i => first + i)
  }

  /** `n` zero table entries. */
  function Blank(n: nat): (r: seq<nat>)
    ensures |r| == n && forall i :: 0 <= i < n ==> r[i] == 0
  {
    seq(n, i => 0)
  }

  /** The characters the table covers; any other character reads outside it. */
  predicate InTable(c: char) {
    '0' <= c <= 'z'
  }

  function DigitValue(c: char): (d: nat)
    requires InTable(c)
    ensures '0' <= c <= '9' ==> d == c as int - '0' as int
    ensures 'A' <= c <= 'Z' ==> d == c as int - 'A' as int + 10
    ensures 'a' <= c <= 'z' ==> d == c as int - 'a' as int + 10
    ensures !('0' <= c <= '9' || 'A' <= c <= 'Z' || 'a' <= c <= 'z') ==> d == 0
  {
    DigitTable(c as int - '0' as int);
    DIGIT_VALUES[c as int - '0' as int]
  }

  lemma DigitTable(k: int)
    requires 0 <= k < 75
    ensures |DIGIT_VALUES| == 75
    ensures k < 10 ==> DIGIT_VALUES[k] == k
    ensures 10 <= k < 17 || 43 <= k < 49 ==> DIGIT_VALUES[k] == 0
    ensures 17 <= k < 43 ==> DIGIT_VALUES[k] == k - 7
    ensures 49 <= k ==> DIGIT_VALUES[k] == k - 39
  {
    var r1, r2, r3, r4, r5 := Counting(10, 0), Blank(7), Counting(26, 10), Blank(6), Counting(26, 10);
    assert DIGIT_VALUES == r1 + r2 + r3 + r4 + r5;
    if k < 10 { assert DIGIT_VALUES[k] == r1[k]; }
    else if k < 17 { assert DIGIT_VALUES[k] == r2[k - 10]; }
    else if k < 43 { assert DIGIT_VALUES[k] == r3[k - 17]; }
    else if k < 49 { assert DIGIT_VALUES[k] == r4[k - 43]; }
    else { assert DIGIT_VALUES[k] == r5[k - 49]; }
  }

  /** One parsed byte: the high digit shifted by four plus the low digit, truncated to eight bits. */
  function ByteOf(hi: char, lo: char): byte
    requires InTable(hi) && InTable(lo)
  {
    ((DigitValue(hi) * 16 + DigitValue(lo)) % 0x100) as byte
  }

  /** What stringToMac reads: the first twelve characters, all inside the table. */
  predicate Parsable(s: string) {
    |s| >= 12 && forall i :: 0 <= i < 12 ==> InTable(s[i])
  }

  /** The MAC that stringToMac writes for `s`. */
  function ParsedMac(s: string): Mac
    requires Parsable(s)
  {
    seq(6, i requires 0 <= i < 6 => ByteOf(s[2 * i], s[2 * i + 1]))
  }

  /** stringToMac: fills the six bytes of `mac` from pairs of characters of `s`. */
  method StringToMac(s: string, mac: array<byte>)
    requires Parsable(s) && mac.Length == 6
    modifies mac
    ensures mac[..] == ParsedMac(s)
  {
    var i := 0;
    while i < 6
      invariant i <= 6
      invariant forall j :: 0 <= j < i ==> mac[j] == ByteOf(s[2 * j], s[2 * j + 1])
    {
      mac[i] := ByteOf(s[i * 2], s[i * 2 + 1]);
      i := i + 1;
    }
  }

  lemma HexPairParses(b: byte)
    ensures ByteOf(HexPair(b)[0], HexPair(b)[1]) == b
  {
    var v := b as int;
    var hi, lo := v / 16, v % 16;
    Nibbles(v);
    NibbleDigit(hi);
    NibbleDigit(lo);
    assert HexPair(b) == [HexDigit(hi), HexDigit(lo)];
    ValueOfDigit(hi);
    ValueOfDigit(lo);
    assert ByteOf(HexDigit(hi), HexDigit(lo)) == ((hi * 16 + lo) % 0x100) as byte;
    IntRoundTrip(b);
  }

  lemma Nibbles(v: int)
    requires 0 <= v < 0x100
    ensures v / 16 < 16 && (v / 16 * 16 + v % 16) % 0x100 == v
  {
  }

  lemma {:induction false} HexOfIndex(bs: seq<byte>, k: nat)
    requires k < |bs|
    ensures HexOf(bs)[2 * k] == HexPair(bs[k])[0]
    ensures HexOf(bs)[2 * k + 1] == HexPair(bs[k])[1]
  {
    if k < |bs| - 1 {
      HexOfIndex(bs[..|bs| - 1], k);
    }
  }

  /** Parsing the text of a MAC gives the MAC back. */
  lemma ParseFormatRoundTrip(m: Mac)
    ensures Parsable(HexOf(m))
    ensures ParsedMac(HexOf(m)) == m
  {
    forall k | 0 <= k < 6
      ensures ParsedMac(HexOf(m))[k] == m[k]
    {
      HexOfIndex(m, k);
      HexPairParses(m[k]);
    }
  }

  /** The uppercase digit with the value of a hex digit of either case. */
  function Upper(c: char): char {
    if 'a' <= c <= 'f' then (c as int - 'a' as int + 'A' as int) as char else c
  }

  /** Lowercase hex digits parse to the same values as their uppercase forms. */
  lemma LowercaseParses(s: string)
    requires Parsable(s)
    ensures Parsable(seq(|s|, i requires 0 <= i < |s| => Upper(s[i])))
    ensures ParsedMac(seq(|s|, i requires 0 <= i < |s| => Upper(s[i]))) == ParsedMac(s)
  {
  }

  lemma ValueOfDigit(n: nat)
    requires n < 16
    ensures InTable(HexDigit(n)) && DigitValue(HexDigit(n)) == n
  {
  }

  lemma DigitOfValue(c: char)
    requires IsUpperHex(c)
    ensures DigitValue(c) < 16 && HexDigit(DigitValue(c)) == c
  {
  }

  /** Two nibbles packed into a byte format as their two digits. */
  lemma HexPairOfNibbles(h: nat, l: nat)
    requires h < 16 && l < 16
    ensures HexPair((h * 16 + l) as byte) == [HexDigit(h), HexDigit(l)]
  {
    var v := h * 16 + l;
    ByteRoundTrip(v);
    assert v / 16 == h && v % 16 == l;
    NibbleDigit(h);
    NibbleDigit(l);
  }

  lemma FormatParsedByte(hi: char, lo: char)
    requires IsUpperHex(hi) && IsUpperHex(lo)
    ensures HexPair(ByteOf(hi, lo)) == [hi, lo]
  {
    DigitOfValue(hi);
    DigitOfValue(lo);
    var h, l := DigitValue(hi), DigitValue(lo);
    assert ByteOf(hi, lo) == (h * 16 + l) as byte;
    HexPairOfNibbles(h, l);
  }

  /** Formatting a parsed string of twelve uppercase hex digits gives those digits back. */
  lemma FormatParseRoundTrip(s: string)
    requires |s| >= 12 && forall i :: 0 <= i < 12 ==> IsUpperHex(s[i])
    ensures Parsable(s)
    ensures HexOf(ParsedMac(s)) == s[..12]
  {
    var m := ParsedMac(s);
    forall j | 0 <= j < 12
      ensures HexOf(m)[j] == s[j]
    {
      var k := j / 2;
      assert j == 2 * k || j == 2 * k + 1;
      HexOfIndex(m, k);
      FormatParsedByte(s[2 * k], s[2 * k + 1]);
      assert HexPair(m[k]) == [s[2 * k], s[2 * k + 1]];
    }
  }
}
