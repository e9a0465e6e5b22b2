/**
 * Wire helpers: length-prefixed, NUL-terminated strings (pack) and the
 * dotted-quad rendering of a packed IPv4 address (int_to_ip).
 */
module Utils {
  import opened Bytes
  import opened Wrappers

  function Min(a: int, b: int): int {
    if a <= b then a else b
  }

  // ---------------------------------------------------------------------
  // pack

  /**
   * chr(cp).encode(): the UTF-8 encoding of a code point up to 255, one byte
   * below 128 and two bytes (110xxxxx 10xxxxxx) from 128 on.
   */
  function Utf8Encode(cp: nat): (r: seq<byte>)
    requires cp <= 0xFF
    ensures |r| == (if cp < 0x80 then 1 else 2)
    ensures |r| == 1 ==> r[0] < 0x80
    ensures |r| == 2 ==> 0xC2 <= r[0] <= 0xC3 && 0x80 <= r[1] < 0xC0
  {
    if cp < 0x80 then [cp]
    else [0xC0 + cp / 0x40, 0x80 + cp % 0x40]
  }

  /**
   * Reads one UTF-8 encoded code point below 0x800 from the front of s:
   * Some((code point, bytes used)), or None when s does not start with one.
   */
  function Utf8Decode(s: seq<byte>): Option<(nat, nat)> {
    if |s| == 0 then None
    else if s[0] < 0x80 then Some((s[0], 1))
    else if 0xC2 <= s[0] < 0xE0 && |s| >= 2 && 0x80 <= s[1] < 0xC0 then
      Some(((s[0] as int - 0xC0) * 0x40 + (s[1] as int - 0x80), 2))
    else None
  }

  /** The length a prefix announces for a payload: the terminated length, capped at 255. */
  function PrefixValue(data: seq<byte>): nat {
    Min(0xFF, |data| + 1)
  }

  /** pack(data): the announced length, then data, then a NUL byte. */
  function Pack(data: seq<byte>): (r: seq<byte>)
    ensures |r| == |data| + (if |data| + 1 < 0x80 then 2 else 3)
    ensures r[|r| - 1] == 0x00
    ensures r[|r| - 1 - |data|..|r| - 1] == data
  {
    var terminated := data + [0x00];
    var r := Utf8Encode(Min(0xFF, |terminated|)) + terminated;
    assert r[|r| - 1 - |data|..|r| - 1] == data;
    r
  }

  /** Splits a packed string into the length its prefix announces and its payload. */
  function Unpack(r: seq<byte>): Option<(nat, seq<byte>)> {
    match Utf8Decode(r)
    case None => None
    case Some((n, k)) =>
      if |r| >= k + 1 && r[|r| - 1] == 0x00 then Some((n, r[k..|r| - 1])) else None
  }

  lemma {:induction false} Utf8RoundTrip(cp: nat, rest: seq<byte>)
    requires cp <= 0xFF
    ensures Utf8Decode(Utf8Encode(cp) + rest) == Some((cp, |Utf8Encode(cp)|))
  {
    var e := Utf8Encode(cp);
    assert (e + rest)[0] == e[0];
    if cp >= 0x80 {
      assert (e + rest)[1] == e[1];
    }
  }

  /** Read back through the UTF-8 decoder, Pack is the code point PrefixValue(data), then data unchanged and in full, then a NUL. */
  lemma PackLayout(data: seq<byte>)
    ensures exists k :: Utf8Decode(Pack(data)) == Some((PrefixValue(data), k)) && Pack(data)[k..] == data + [0x00]
  {
    var p := Utf8Encode(PrefixValue(data));
    Utf8RoundTrip(PrefixValue(data), data + [0x00]);
    assert Pack(data) == p + (data + [0x00]);
    assert Pack(data)[|p|..] == data + [0x00];
  }

  /** Unpack inverts Pack: it recovers the announced length and the payload. */
  lemma {:induction false} UnpackPack(data: seq<byte>)
    ensures Unpack(Pack(data)) == Some((PrefixValue(data), data))
  {
    var p := Utf8Encode(PrefixValue(data));
    var r := Pack(data);
    assert r == p + (data + [0x00]);
    Utf8RoundTrip(PrefixValue(data), data + [0x00]);
    assert r[|p|..|r| - 1] == data;
  }

  /** Different payloads never pack to the same bytes. */
  lemma PackInjective(a: seq<byte>, b: seq<byte>)
    requires Pack(a) == Pack(b)
    ensures a == b
  {
    UnpackPack(a);
    UnpackPack(b);
  }

  /** A terminated length up to 127 is announced in the single byte n. */
  lemma PackShortPrefix(data: seq<byte>)
    requires |data| + 1 <= 0x7F
    ensures Pack(data)[0] == |data| + 1
    ensures |Pack(data)| == |data| + 2
  {
  }

  /** From 128 on the announced length n takes two bytes, C0|(n>>6) and 80|(n&3F). */
  lemma PackLongPrefix(data: seq<byte>)
    requires |data| + 1 >= 0x80
    ensures Pack(data)[0] == 0xC0 + PrefixValue(data) / 0x40
    ensures Pack(data)[1] == 0x80 + PrefixValue(data) % 0x40
    ensures Pack(data)[0] in {0xC2, 0xC3}
    ensures |Pack(data)| == |data| + 3
  {
  }

  /** Every payload of 254 bytes or more gets the prefix C3 BF (255), whatever its length. */
  lemma PackCap(data: seq<byte>)
    requires |data| >= 0xFE
    ensures Pack(data)[..2] == [0xC3, 0xBF]
    ensures Unpack(Pack(data)) == Some((0xFF, data))
  {
    UnpackPack(data);
  }

  /** The prefix tells the true terminated length exactly when the payload is at most 254 bytes. */
  lemma PrefixAccurate(data: seq<byte>)
    ensures Unpack(Pack(data)).Some?
    ensures Unpack(Pack(data)).value.0 == |data| + 1 <==> |data| <= 0xFE
  {
    UnpackPack(data);
  }

  lemma PackEmpty()
    ensures Pack([]) == [0x01, 0x00]
  {
  }

  // ---------------------------------------------------------------------
  // int_to_ip

  /** struct.pack("<I", p): the four bytes of p, least significant first. */
  function LittleEndian32(p: int): (o: seq<byte>)
    requires 0 <= p < 0x1_0000_0000
    ensures |o| == 4
    ensures o[0] as int + 0x100 * (o[1] as int) + 0x1_0000 * (o[2] as int) + 0x100_0000 * (o[3] as int) == p
  {
    var q1 := p / 0x100;
    var q2 := q1 / 0x100;
    [p % 0x100, q1 % 0x100, q2 % 0x100, q2 / 0x100]
  }

  predicate IsDigit(c: char) {
    '0' <= c <= '9'
  }

  predicate IsNumeral(s: string) {
    |s| >= 1 && forall i :: 0 <= i < |s| ==> IsDigit(s[i])
  }

  /** "%d" % n: the decimal numeral for n, without leading zeros. */
  function Decimal(n: nat): (s: string)
    ensures IsNumeral(s) && NoDot(s)
    ensures s[0] == '0' ==> n == 0
  {
    var last := ('0' as int + n % 10) as char;
    if n < 10 then [last] else Decimal(n / 10) + [last]
  }

  function DigitValue(c: char): nat
    requires IsDigit(c)
  {
    c as int - '0' as int
  }

  /** The value of a decimal numeral. */
  function DecimalValue(s: string): nat
    requires forall i :: 0 <= i < |s| ==> IsDigit(s[i])
  {
    if |s| == 0 then 0
    else 10 * DecimalValue(s[..|s| - 1]) + DigitValue(s[|s| - 1])
  }

  lemma {:induction false} DecimalRoundTrip(n: nat)
    ensures DecimalValue(Decimal(n)) == n
  {
    if n >= 10 {
      var s := Decimal(n);
      assert s[..|s| - 1] == Decimal(n / 10);
      DecimalRoundTrip(n / 10);
    }
  }

  /** int_to_ip(p): the four little-endian bytes of p as decimals joined by dots. */
  function IntToIp(p: int): (r: string)
    requires 0 <= p < 0x1_0000_0000
    ensures multiset(r)['.'] == 3
  {
    var o := LittleEndian32(p);
    var d0, d1, d2, d3 := Decimal(o[0]), Decimal(o[1]), Decimal(o[2]), Decimal(o[3]);
    DotsOfQuad(d0, d1, d2, d3);
    Dotted(d0, d1, d2, d3)
  }

  /** The pieces of s between its dots: one more piece than there are dots. */
  function Fields(s: string): (f: seq<string>)
    ensures |f| >= 1
  {
    if |s| == 0 then [""]
    else if s[0] == '.' then [""] + Fields(s[1..])
    else var g := Fields(s[1..]); [[s[0]] + g[0]] + g[1..]
  }

  /** Reads a dotted quad back into the packed integer, or None if s is not one. */
  function IpToInt(s: string): Option<int> {
    var f := Fields(s);
    if |f| == 4 && (forall i :: 0 <= i < 4 ==> IsNumeral(f[i]) && DecimalValue(f[i]) < 0x100) then
      Some(DecimalValue(f[0]) + 0x100 * DecimalValue(f[1])
           + 0x1_0000 * DecimalValue(f[2]) + 0x100_0000 * DecimalValue(f[3]))
    else None
  }

  lemma {:induction false} FieldsNoDot(a: string)
    requires NoDot(a)
    ensures Fields(a) == [a]
  {
    if |a| > 0 {
      FieldsNoDot(a[1..]);
      assert [a[0]] + a[1..] == a;
    }
  }

  lemma {:induction false} FieldsJoin(a: string, rest: string)
    requires NoDot(a)
    ensures Fields(a + "." + rest) == [a] + Fields(rest)
  {
    if |a| == 0 {
      assert a + "." + rest == ['.'] + rest;
      assert (a + "." + rest)[1..] == rest;
    } else {
      var s := a + "." + rest;
      assert s[1..] == a[1..] + "." + rest;
      FieldsJoin(a[1..], rest);
      assert [a[0]] + a[1..] == a;
    }
  }

  predicate NoDot(s: string) {
    forall i :: 0 <= i < |s| ==> s[i] != '.'
  }

  /** "%s.%s.%s.%s": four strings joined by dots. */
  function Dotted(a: string, b: string, c: string, d: string): string {
    a + "." + (b + "." + (c + "." + d))
  }

  lemma {:induction false} FieldsOfQuad(a: string, b: string, c: string, d: string)
    requires NoDot(a) && NoDot(b) && NoDot(c) && NoDot(d)
    ensures Fields(Dotted(a, b, c, d)) == [a, b, c, d]
  {
    FieldsNoDot(d);
    FieldsJoin(c, d);
    FieldsJoin(b, c + "." + d);
    FieldsJoin(a, b + "." + (c + "." + d));
  }

  lemma DotsOfQuad(a: string, b: string, c: string, d: string)
    requires NoDot(a) && NoDot(b) && NoDot(c) && NoDot(d)
    ensures multiset(Dotted(a, b, c, d))['.'] == 3
  {
    assert '.' !in a && '.' !in b && '.' !in c && '.' !in d;
  }

  /** The address is exactly the four octet numerals, in byte order, between three dots. */
  lemma IntToIpFields(p: int)
    requires 0 <= p < 0x1_0000_0000
    ensures Fields(IntToIp(p)) ==
      [Decimal(LittleEndian32(p)[0]), Decimal(LittleEndian32(p)[1]),
       Decimal(LittleEndian32(p)[2]), Decimal(LittleEndian32(p)[3])]
    ensures multiset(IntToIp(p))['.'] == 3
  {
    var o := LittleEndian32(p);
    var d0, d1, d2, d3 := Decimal(o[0]), Decimal(o[1]), Decimal(o[2]), Decimal(o[3]);
    FieldsOfQuad(d0, d1, d2, d3);
    DotsOfQuad(d0, d1, d2, d3);
  }

  lemma IpToIntOfOctets(s: string, o: seq<byte>)
    requires |o| == 4
    requires Fields(s) == [Decimal(o[0]), Decimal(o[1]), Decimal(o[2]), Decimal(o[3])]
    ensures IpToInt(s) == Some(o[0] as int + 0x100 * (o[1] as int) + 0x1_0000 * (o[2] as int) + 0x100_0000 * (o[3] as int))
  {
    var f := Fields(s);
    DecimalRoundTrip(o[0]);
    DecimalRoundTrip(o[1]);
    DecimalRoundTrip(o[2]);
    DecimalRoundTrip(o[3]);
    assert forall i :: 0 <= i < 4 ==> IsNumeral(f[i]) && DecimalValue(f[i]) == o[i] < 0x100;
  }

  /** Reading the address back gives p: the octets reassemble as o0 + 256 o1 + 65536 o2 + 16777216 o3. */
  lemma IpRoundTrip(p: int)
    requires 0 <= p < 0x1_0000_0000
    ensures IpToInt(IntToIp(p)) == Some(p)
  {
    var o := LittleEndian32(p);
    var sum := o[0] as int + 0x100 * (o[1] as int) + 0x1_0000 * (o[2] as int) + 0x100_0000 * (o[3] as int);
    assert sum == p;
    IntToIpFields(p);
    IpToIntOfOctets(IntToIp(p), o);
    assert IpToInt(IntToIp(p)) == Some(sum);
  }

  /** Distinct packed addresses render as distinct strings. */
  lemma IntToIpInjective(p: int, q: int)
    requires 0 <= p < 0x1_0000_0000 && 0 <= q < 0x1_0000_0000
    requires IntToIp(p) == IntToIp(q)
    ensures p == q
  {
    IpRoundTrip(p);
    IpRoundTrip(q);
  }

  lemma IntToIpZero()
    ensures IntToIp(0) == "0.0.0.0"
  {
    assert LittleEndian32(0) == [0, 0, 0, 0];
    assert Decimal(0) == "0";
  }
}
