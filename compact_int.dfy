/**
 * The compact (variable-length, signed) integer codec of the wire protocol.
 *
 * A value v with |v| <= 2^32 - 1 is written in 1 to 5 bytes:
 *   - first byte: bit 7 is the sign, bit 6 says "more bytes follow",
 *     bits 0-5 hold the lowest 6 bits of the magnitude;
 *   - bytes 2, 3 and 4: bit 7 says "more bytes follow", bits 0-6 hold the
 *     next 7 magnitude bits;
 *   - byte 5 holds the last 5 magnitude bits (bits 0-4) and ends the value.
 * Groups are least significant first: 6 + 7 + 7 + 7 + 5 = 32 bits.
 */
module CompactInt {
  import opened Bytes
  import opened Wrappers

  /** The largest magnitude the codec carries. */
  const MaxMagnitude: int := 0x1_0000_0000 - 1

  predicate InRange(v: int) {
    -MaxMagnitude <= v <= MaxMagnitude
  }

  function Abs(v: int): nat {
    if v < 0 then -v else v
  }

  /** Position of the final byte: it carries 5 bits and no continuation flag. */
  const LastIndex: nat := 4

  /**
   * Number of distinct magnitudes that n group bytes, the first of them at
   * byte index k (1 <= k <= 4), can carry.
   */
  function Span(k: nat, n: nat): (r: nat)
    requires 1 <= k && k + n <= LastIndex + 1
    ensures r >= 1
    decreases n
  {
    if n == 0 then 1
    else if k == LastIndex then 32
    else 128 * Span(k + 1, n - 1)
  }

  /** Magnitudes below Bound(n) and no others fit into n bytes. */
  function Bound(n: nat): (r: nat)
    requires 1 <= n <= 5
  {
    64 * Span(1, n - 1)
  }

  /** The number of bytes the codec spends on magnitude m. */
  function EncodedLength(m: nat): (n: nat)
    requires m <= MaxMagnitude
    ensures 1 <= n <= 5
    ensures m < Bound(n)
    ensures n > 1 ==> Bound(n - 1) <= m
  {
    BoundValues();
    if m < 0x40 then 1
    else if m < 0x2000 then 2
    else if m < 0x10_0000 then 3
    else if m < 0x800_0000 then 4
    else 5
  }

  lemma BoundValues()
    ensures Bound(1) == 0x40 && Bound(2) == 0x2000 && Bound(3) == 0x10_0000
    ensures Bound(4) == 0x800_0000 && Bound(5) == 0x1_0000_0000
  {
    assert Span(1, 4) == 128 * Span(2, 3);
    assert Span(2, 3) == 128 * Span(3, 2);
    assert Span(3, 2) == 128 * Span(4, 1);
  }

  // ---------------------------------------------------------------------
  // Encoding (Buffer.write_compact_int)

  /** The group bytes from byte index k on, for the magnitude m that remains. */
  function EncodeGroups(m: nat, k: nat): (r: seq<byte>)
    requires 1 <= k <= LastIndex
    requires m < Span(k, LastIndex + 1 - k)
    ensures 1 <= |r| <= LastIndex + 1 - k
    decreases LastIndex - k
  {
    if k == LastIndex || m < 0x80 then [m]
    else [0x80 + m % 0x80] + EncodeGroups(m / 0x80, k + 1)
  }

  /** write_compact_int's byte string for v: 1 to 5 bytes, sign in bit 7 of the first. */
  function Encode(v: int): (r: seq<byte>)
    requires InRange(v)
    ensures 1 <= |r| <= 5
    ensures r[0] >= 0x80 <==> v < 0
    ensures |r| == 1 <==> Abs(v) < 0x40
  {
    BoundValues();
    var m := Abs(v);
    var sign := if v < 0 then 0x80 else 0;
    if m < 0x40 then [sign + m]
    else [sign + 0x40 + m % 0x40] + EncodeGroups(m / 0x40, 1)
  }

  // ---------------------------------------------------------------------
  // Decoding (Buffer.read_compact_int)

  /**
   * Reads group bytes from byte index k on: Some((magnitude, bytes consumed)),
   * or None when the input ends while a continuation flag is still set.
   */
  function DecodeGroups(s: seq<byte>, k: nat): Option<(nat, nat)>
    requires 1 <= k <= LastIndex
    decreases LastIndex - k
  {
    if |s| == 0 then None
    else if k == LastIndex then Some((s[0] % 0x20, 1))
    else if s[0] < 0x80 then Some((s[0], 1))
    else match DecodeGroups(s[1..], k + 1)
      case None => None
      case Some((m, n)) => Some((s[0] - 0x80 + 0x80 * m, n + 1))
  }

  /**
   * read_compact_int: Some((value, bytes consumed)) read from the front of s,
   * or None if s is too short. A first byte without its continuation flag is
   * the whole value, and a non-zero value is negative exactly when bit 7 of
   * the first byte is set.
   */
  function Decode(s: seq<byte>): (r: Option<(int, nat)>)
    ensures |s| == 0 ==> r == None
    ensures |s| > 0 && s[0] % 0x80 < 0x40 ==> r.Some? && r.value.1 == 1
    ensures r.Some? ==> r.value.1 >= 1
    ensures r.Some? && r.value.0 != 0 ==> (r.value.0 < 0 <==> s[0] >= 0x80)
  {
    if |s| == 0 then None
    else
      var negative := s[0] >= 0x80;
      var low := s[0] % 0x40;
      if s[0] % 0x80 < 0x40 then Some((if negative then -low else low, 1))
      else match DecodeGroups(s[1..], 1)
        case None => None
        case Some((m, n)) =>
          var mag := low + 0x40 * m;
          Some((if negative then -mag else mag, n + 1))
  }

  // ---------------------------------------------------------------------
  // Canonical encodings

  /**
   * The byte strings the encoder produces, described byte by byte: every
   * byte but the last has its continuation flag set, the last has it clear,
   * the last byte of a longer encoding carries a non-zero group (no trailing
   * zero group), and zero is
   * never written with its sign bit set.
   */
  predicate WellFormed(s: seq<byte>) {
    1 <= |s| <= 5 &&
    (|s| == 1 <==> s[0] % 0x80 < 0x40) &&
    (|s| == 1 ==> s[0] != 0x80) &&
    (forall i :: 1 <= i < |s| - 1 ==> s[i] >= 0x80) &&
    (2 <= |s| <= 4 ==> 1 <= s[|s| - 1] < 0x80) &&
    (|s| == 5 ==> 1 <= s[4] < 0x20)
  }

  /** Group bytes in canonical form from byte index k on. */
  predicate GroupsWellFormed(s: seq<byte>, k: nat)
    requires 1 <= k <= LastIndex
  {
    1 <= |s| <= LastIndex + 1 - k &&
    (forall i :: 0 <= i < |s| - 1 ==> s[i] >= 0x80) &&
    (k + |s| - 1 < LastIndex ==> 1 <= s[|s| - 1] < 0x80) &&
    (k + |s| - 1 == LastIndex ==> 1 <= s[|s| - 1] < 0x20)
  }

  // ---------------------------------------------------------------------
  // Group-level lemmas

  /** Splitting off the low 6 bits of a magnitude is undone by putting them back. */
  lemma SplitLow6(q: nat, r: nat)
    requires r < 0x40
    ensures (r + 0x40 * q) % 0x40 == r && (r + 0x40 * q) / 0x40 == q
  {
  }

  /** Splitting off the low 7 bits of a magnitude is undone by putting them back. */
  lemma SplitLow7(q: nat, r: nat)
    requires r < 0x80
    ensures (r + 0x80 * q) % 0x80 == r && (r + 0x80 * q) / 0x80 == q
  {
  }

  lemma {:induction false} GroupsRoundTrip(m: nat, k: nat, rest: seq<byte>)
    requires 1 <= k <= LastIndex
    requires m < Span(k, LastIndex + 1 - k)
    ensures DecodeGroups(EncodeGroups(m, k) + rest, k) == Some((m, |EncodeGroups(m, k)|))
    decreases LastIndex - k
  {
    var e := EncodeGroups(m, k);
    if k == LastIndex || m < 0x80 {
      assert (e + rest)[0] == m;
    } else {
      var tail := EncodeGroups(m / 0x80, k + 1);
      assert (e + rest)[1..] == tail + rest;
      GroupsRoundTrip(m / 0x80, k + 1, rest);
    }
  }

  lemma {:induction false} GroupsCanonical(m: nat, k: nat)
    requires 1 <= k <= LastIndex
    requires 1 <= m < Span(k, LastIndex + 1 - k)
    ensures GroupsWellFormed(EncodeGroups(m, k), k)
    decreases LastIndex - k
  {
    if k == LastIndex || m < 0x80 {
    } else {
      var tail := EncodeGroups(m / 0x80, k + 1);
      GroupsCanonical(m / 0x80, k + 1);
      assert EncodeGroups(m, k) == [0x80 + m % 0x80] + tail;
    }
  }

  lemma {:induction false} GroupsReencode(s: seq<byte>, k: nat)
    requires 1 <= k <= LastIndex
    requires GroupsWellFormed(s, k)
    ensures DecodeGroups(s, k).Some?
    ensures DecodeGroups(s, k).value.1 == |s|
    ensures 1 <= DecodeGroups(s, k).value.0 < Span(k, LastIndex + 1 - k)
    ensures EncodeGroups(DecodeGroups(s, k).value.0, k) == s
    decreases LastIndex - k
  {
    if k == LastIndex || |s| == 1 {
      GroupsSingle(s, k);
    } else {
      GroupsTail(s, k);
      GroupsReencode(s[1..], k + 1);
      GroupsPrepend(s, k, DecodeGroups(s[1..], k + 1).value.0);
    }
  }

  /** A canonical run of one group byte is a non-zero group that re-encodes to itself. */
  lemma GroupsSingle(s: seq<byte>, k: nat)
    requires 1 <= k <= LastIndex
    requires GroupsWellFormed(s, k) && (k == LastIndex || |s| == 1)
    ensures |s| == 1
    ensures DecodeGroups(s, k) == Some((s[0] as nat, 1))
    ensures 1 <= s[0] < Span(k, LastIndex + 1 - k)
    ensures EncodeGroups(s[0], k) == s
  {
    assert s == [s[0]];
  }

  /** Behind the first of several canonical group bytes, flagged, the rest are canonical too. */
  lemma GroupsTail(s: seq<byte>, k: nat)
    requires 1 <= k < LastIndex
    requires GroupsWellFormed(s, k) && |s| > 1
    ensures s[0] >= 0x80 && GroupsWellFormed(s[1..], k + 1)
  {
    var tail := s[1..];
    forall i | 0 <= i < |tail| - 1 ensures tail[i] >= 0x80 {
      assert tail[i] == s[i + 1];
    }
  }

  /** A flagged group byte in front of canonical groups that re-encode: the whole re-encodes too. */
  lemma GroupsPrepend(s: seq<byte>, k: nat, m': nat)
    requires 1 <= k < LastIndex && |s| > 1 && s[0] >= 0x80
    requires DecodeGroups(s[1..], k + 1) == Some((m', |s| - 1))
    requires 1 <= m' < Span(k + 1, LastIndex - k)
    requires EncodeGroups(m', k + 1) == s[1..]
    ensures DecodeGroups(s, k) == Some((s[0] - 0x80 + 0x80 * m', |s|))
    ensures 1 <= s[0] - 0x80 + 0x80 * m' < Span(k, LastIndex + 1 - k)
    ensures EncodeGroups(s[0] - 0x80 + 0x80 * m', k) == s
  {
    var m := s[0] - 0x80 + 0x80 * m';
    SplitLow7(m', s[0] - 0x80);
    assert 0x80 <= m < Span(k, LastIndex + 1 - k);
    assert EncodeGroups(m, k) == [0x80 + m % 0x80] + EncodeGroups(m', k + 1);
    assert s == [s[0]] + s[1..];
  }

  lemma {:induction false} GroupsBound(s: seq<byte>, k: nat)
    requires 1 <= k <= LastIndex
    requires DecodeGroups(s, k).Some?
    ensures 1 <= DecodeGroups(s, k).value.1 <= LastIndex + 1 - k
    ensures DecodeGroups(s, k).value.0 < Span(k, DecodeGroups(s, k).value.1)
    decreases LastIndex - k
  {
    if k == LastIndex || s[0] < 0x80 {
    } else {
      GroupsBound(s[1..], k + 1);
    }
  }

  lemma {:induction false} GroupsLength(m: nat, k: nat, n: nat)
    requires 1 <= k <= LastIndex && 1 <= n && k + n <= LastIndex + 1
    requires m < Span(k, n) && m < Span(k, LastIndex + 1 - k)
    requires n > 1 ==> Span(k, n - 1) <= m
    ensures |EncodeGroups(m, k)| == n
    decreases n
  {
    if n == 1 {
    } else {
      assert k < LastIndex;
      GroupsLength(m / 0x80, k + 1, n - 1);
    }
  }

  /** A decoded value never claims more bytes than the input holds. */
  lemma {:induction false} DecodedWithin(s: seq<byte>)
    requires Decode(s).Some?
    ensures Decode(s).value.1 <= |s|
  {
    if s[0] % 0x80 >= 0x40 {
      GroupsWithin(s[1..], 1);
    }
  }

  lemma {:induction false} GroupsWithin(s: seq<byte>, k: nat)
    requires 1 <= k <= LastIndex
    requires DecodeGroups(s, k).Some?
    ensures DecodeGroups(s, k).value.1 <= |s|
    decreases LastIndex - k
  {
    if k < LastIndex && s[0] >= 0x80 {
      GroupsWithin(s[1..], k + 1);
    }
  }

  // ---------------------------------------------------------------------
  // Properties of the codec

  /** Reading back what was written yields the value and consumes exactly the written bytes. */
  lemma {:induction false} RoundTrip(v: int, rest: seq<byte>)
    requires InRange(v)
    ensures Decode(Encode(v) + rest) == Some((v, |Encode(v)|))
  {
    BoundValues();
    var m := Abs(v);
    var e := Encode(v);
    if m >= 0x40 {
      var g := EncodeGroups(m / 0x40, 1);
      assert (e + rest)[1..] == g + rest;
      GroupsRoundTrip(m / 0x40, 1, rest);
    }
  }

  /** Everything the encoder writes is a canonical encoding. */
  lemma {:induction false} EncodeWellFormed(v: int)
    requires InRange(v)
    ensures WellFormed(Encode(v))
  {
    BoundValues();
    var m := Abs(v);
    if m >= 0x40 {
      var g := EncodeGroups(m / 0x40, 1);
      GroupsCanonical(m / 0x40, 1);
      var e := Encode(v);
      assert e == [e[0]] + g;
      forall i | 1 <= i < |e| - 1 ensures e[i] >= 0x80 {
        assert e[i] == g[i - 1];
      }
    }
  }

  /** An encoding of more than one byte: the flagged first byte, then the groups of the rest. */
  lemma EncodeSeveral(v: int)
    requires InRange(v) && Abs(v) >= 0x40
    ensures Encode(v) == [(if v < 0 then 0x80 else 0) + 0x40 + Abs(v) % 0x40] + EncodeGroups(Abs(v) / 0x40, 1)
  {
    BoundValues();
  }

  /** A first byte with its continuation flag set is its sign bit, that flag and its 6 low bits. */
  lemma FirstByteFields(b: byte)
    requires b % 0x80 >= 0x40
    ensures b == (if b >= 0x80 then 0x80 else 0) + 0x40 + b % 0x40
  {
  }

  /** A canonical encoding of several bytes: its groups re-encode, and Decode combines them with the first byte. */
  lemma {:induction false} DecodeSeveral(s: seq<byte>)
    requires WellFormed(s) && |s| > 1
    ensures DecodeGroups(s[1..], 1).Some?
    ensures 1 <= DecodeGroups(s[1..], 1).value.0 < Span(1, LastIndex)
    ensures EncodeGroups(DecodeGroups(s[1..], 1).value.0, 1) == s[1..]
    ensures var mag := s[0] % 0x40 + 0x40 * DecodeGroups(s[1..], 1).value.0;
      Decode(s) == Some((if s[0] >= 0x80 then -mag else mag, |s|))
  {
    var tail := s[1..];
    assert GroupsWellFormed(tail, 1) by {
      forall i | 0 <= i < |tail| - 1 ensures tail[i] >= 0x80 {
        assert tail[i] == s[i + 1];
      }
    }
    GroupsReencode(tail, 1);
  }

  /** A canonical one-byte encoding is the sign bit and six magnitude bits of a value below 2^6. */
  lemma DecodeOneByte(s: seq<byte>)
    requires WellFormed(s) && |s| == 1
    ensures Decode(s).Some? && Decode(s).value.1 == 1
    ensures InRange(Decode(s).value.0) && Encode(Decode(s).value.0) == s
  {
  }

  /** A canonical encoding of several bytes decodes in full, and the value re-encodes to it. */
  lemma ReencodeSeveral(s: seq<byte>)
    requires WellFormed(s) && |s| > 1
    ensures Decode(s).Some? && Decode(s).value.1 == |s|
    ensures InRange(Decode(s).value.0) && Encode(Decode(s).value.0) == s
  {
    BoundValues();
    var tail := s[1..];
    DecodeSeveral(s);
    var m' := DecodeGroups(tail, 1).value.0;
    var low := s[0] % 0x40;
    var mag := low + 0x40 * m';
    var v := if s[0] >= 0x80 then -mag else mag;
    assert 0x40 <= mag <= MaxMagnitude;
    SplitLow6(m', low);
    assert Abs(v) == mag;
    EncodeSeveral(v);
    FirstByteFields(s[0]);
    assert s == [s[0]] + tail;
  }

  /** Every canonical encoding decodes in full, and re-encoding it gives back the same bytes. */
  lemma DecodeWellFormed(s: seq<byte>)
    requires WellFormed(s)
    ensures Decode(s).Some? && Decode(s).value.1 == |s|
    ensures InRange(Decode(s).value.0) && Encode(Decode(s).value.0) == s
  {
    if |s| == 1 {
      DecodeOneByte(s);
    } else {
      ReencodeSeveral(s);
    }
  }

  /** A byte string is a canonical encoding exactly when it is the encoding of some value. */
  lemma WellFormedIffEncoding(s: seq<byte>)
    ensures WellFormed(s) <==> exists v :: InRange(v) && Encode(v) == s
  {
    if WellFormed(s) {
      DecodeWellFormed(s);
    }
    forall v | InRange(v) && Encode(v) == s ensures WellFormed(s) {
      EncodeWellFormed(v);
    }
  }

  /** Cutting an encoding short makes decoding fail: truncated input never yields a value. */
  lemma TruncatedFails(v: int, k: nat)
    requires InRange(v) && k < |Encode(v)|
    ensures Decode(Encode(v)[..k]) == None
  {
  }

  /** The number of bytes written depends only on the magnitude, through EncodedLength. */
  lemma {:induction false} EncodeLength(v: int)
    requires InRange(v)
    ensures |Encode(v)| == EncodedLength(Abs(v))
  {
    BoundValues();
    var m := Abs(v);
    var n := EncodedLength(m);
    if n > 1 {
      var q := m / 0x40;
      assert Bound(n) == 64 * Span(1, n - 1);
      assert Bound(n - 1) == 64 * Span(1, n - 2);
      GroupsLength(q, 1, n - 1);
    }
  }

  /** No byte string, canonical or not, carries a value in fewer bytes than the encoder uses. */
  lemma {:induction false} EncodeMinimal(s: seq<byte>)
    requires Decode(s).Some?
    ensures InRange(Decode(s).value.0)
    ensures |Encode(Decode(s).value.0)| <= Decode(s).value.1
  {
    BoundValues();
    var v := Decode(s).value.0;
    var n := Decode(s).value.1;
    var m := Abs(v);
    if s[0] % 0x80 < 0x40 {
      assert m < 0x40;
    } else {
      GroupsBound(s[1..], 1);
      var g := DecodeGroups(s[1..], 1).value;
      assert n == g.1 + 1;
      assert m == s[0] % 0x40 + 0x40 * g.0;
      assert m < Bound(n);
    }
    EncodeLength(v);
  }

  /** The encoded length steps at 2^6, 2^13, 2^20 and 2^27. */
  lemma LengthThresholds(v: int)
    requires InRange(v)
    ensures Abs(v) < 0x40 ==> |Encode(v)| == 1
    ensures 0x40 <= Abs(v) < 0x2000 ==> |Encode(v)| == 2
    ensures 0x2000 <= Abs(v) < 0x10_0000 ==> |Encode(v)| == 3
    ensures 0x10_0000 <= Abs(v) < 0x800_0000 ==> |Encode(v)| == 4
    ensures 0x800_0000 <= Abs(v) ==> |Encode(v)| == 5
  {
    EncodeLength(v);
  }

  /** Negating a value only sets bit 7 of the first byte. */
  lemma SignSymmetry(v: int)
    requires 0 < v <= MaxMagnitude
    ensures Encode(v)[0] < 0x80
    ensures Encode(-v) == [Encode(v)[0] + 0x80] + Encode(v)[1..]
  {
  }

  lemma ZeroIsOneByte()
    ensures Encode(0) == [0x00]
    ensures Decode([0x00]) == Some((0, 1))
  {
  }
}
