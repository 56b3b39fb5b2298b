/** Base 64 encoding with the URL- and filename-safe alphabet of section 5 of
    RFC 4648, with `=` padding: the encoding Go's `base64.URLEncoding` applies.
    `Encode` is the operation the session package uses; `Decode` is an
    independent reference inverse, used to state that encoding loses nothing. */
module Base64 {
  import opened Wrappers
  import opened GoTypes

  /** A 6-bit group: the index of one character of the alphabet. */
  type Sextet = i: int | 0 <= i < 64

  const Pad: char := '='

  /** The 64 characters of the URL-safe alphabet: `A-Z a-z 0-9 - _`. */
  predicate IsAlphabetChar(c: char) {
    || 'A' <= c <= 'Z'
    || 'a' <= c <= 'z'
    || '0' <= c <= '9'
    || c == '-'
    || c == '_'
  }

  /** Table 2 of RFC 4648 with the two substitutions of its section 5
      (62 is `-`, 63 is `_`), written out character by character: the value
      of each character is its position in the table. */
  const UpperRow: string := "ABCDEFGHIJKLMNOPQRSTUVWXYZ"
  const LowerRow: string := "abcdefghijklmnopqrstuvwxyz"
  const DigitRow: string := "0123456789"
  const UrlSafeTable: string := UpperRow + LowerRow + DigitRow + "-_"

  /** The character for a 6-bit value: 0-25 are `A-Z`, 26-51 `a-z`, 52-61
      `0-9`, 62 is `-` and 63 is `_`, as the table lists them. */
  function EncodeSextet(i: Sextet): (c: char)
    ensures IsAlphabetChar(c)
  {
    if i < 26 then ('A' as int + i) as char
    else if i < 52 then ('a' as int + (i - 26)) as char
    else if i < 62 then ('0' as int + (i - 52)) as char
    else if i == 62 then '-'
    else '_'
  }

  function DecodeSextet(c: char): (i: Sextet)
    requires IsAlphabetChar(c)
    ensures EncodeSextet(i) == c
  {
    if 'A' <= c <= 'Z' then c as int - 'A' as int
    else if 'a' <= c <= 'z' then c as int - 'a' as int + 26
    else if '0' <= c <= '9' then c as int - '0' as int + 52
    else if c == '-' then 62
    else 63
  }

  /** The encoding of every 6-bit value is the character the table lists at
      that position. */
  lemma EncodeSextetFollowsTable(i: Sextet)
    ensures |UrlSafeTable| == 64
    ensures EncodeSextet(i) == UrlSafeTable[i]
  {
    if i < 26 {
      UpperRowEntry(i);
      assert UrlSafeTable[i] == UpperRow[i];
    } else if i < 52 {
      LowerRowEntry(i - 26);
      assert UrlSafeTable[i] == LowerRow[i - 26];
    } else if i < 62 {
      DigitRowEntry(i - 52);
      assert UrlSafeTable[i] == DigitRow[i - 52];
    }
  }

  /** Entry k of the upper-case row is the k-th letter after `A`. */
  lemma UpperRowEntry(k: int)
    requires 0 <= k < 26
    ensures UpperRow[k] == ('A' as int + k) as char
  {
  }

  /** Entry k of the lower-case row is the k-th letter after `a`. */
  lemma LowerRowEntry(k: int)
    requires 0 <= k < 26
    ensures LowerRow[k] == ('a' as int + k) as char
  {
  }

  /** Entry k of the digit row is the k-th digit after `0`. */
  lemma DigitRowEntry(k: int)
    requires 0 <= k < 10
    ensures DigitRow[k] == ('0' as int + k) as char
  {
  }

  /** The alphabet table is a bijection: decoding undoes encoding. */
  lemma SextetRoundTrip(i: Sextet)
    ensures DecodeSextet(EncodeSextet(i)) == i
  {
  }

  /** Three bytes become four characters, most significant bits first. */
  function EncodeTriple(a: Byte, b: Byte, c: Byte): (s: string)
    ensures |s| == 4 && forall i :: 0 <= i < 4 ==> IsAlphabetChar(s[i])
  {
    [ EncodeSextet(a / 4),
      EncodeSextet((a % 4) * 16 + b / 16),
      EncodeSextet((b % 16) * 4 + c / 64),
      EncodeSextet(c % 64) ]
  }

  /** A final group of two bytes: three characters, the last zero-filled, and one pad. */
  function EncodeTail2(a: Byte, b: Byte): (s: string)
    ensures |s| == 4 && IsAlphabetChar(s[0]) && IsAlphabetChar(s[1]) && IsAlphabetChar(s[2]) && s[3] == Pad
  {
    [ EncodeSextet(a / 4),
      EncodeSextet((a % 4) * 16 + b / 16),
      EncodeSextet((b % 16) * 4),
      Pad ]
  }

  /** A final group of one byte: two characters, the last zero-filled, and two pads. */
  function EncodeTail1(a: Byte): (s: string)
    ensures |s| == 4 && IsAlphabetChar(s[0]) && IsAlphabetChar(s[1]) && s[2] == Pad && s[3] == Pad
  {
    [ EncodeSextet(a / 4),
      EncodeSextet((a % 4) * 16),
      Pad,
      Pad ]
  }

  /** The number of pad characters that end the encoding of `n` bytes. */
  function PadLength(n: nat): nat {
    (3 - n % 3) % 3
  }

  /** Padded encoding: every group of three bytes gives four characters, and
      a final short group is completed with `=`. */
  function Encode(bytes: seq<Byte>): (s: string)
    ensures |s| == 4 * ((|bytes| + 2) / 3)
    decreases |bytes|
  {
    if |bytes| == 0 then ""
    else if |bytes| == 1 then EncodeTail1(bytes[0])
    else if |bytes| == 2 then EncodeTail2(bytes[0], bytes[1])
    else
      assert (|bytes| - 3 + 2) / 3 + 1 == (|bytes| + 2) / 3;
      EncodeTriple(bytes[0], bytes[1], bytes[2]) + Encode(bytes[3..])
  }

  /** The encoding is alphabet characters followed by exactly the padding the
      length of the input calls for: none, `=` or `==`. */
  lemma {:induction false} EncodePadding(bytes: seq<Byte>)
    ensures PaddedWith(Encode(bytes), PadLength(|bytes|))
    decreases |bytes|
  {
    if |bytes| == 1 {
      PaddedTail1(bytes[0]);
    } else if |bytes| == 2 {
      PaddedTail2(bytes[0], bytes[1]);
    } else if |bytes| >= 3 {
      var rest := bytes[3..];
      EncodePadding(rest);
      EncodeGroup(bytes);
      PadLengthStep(|bytes|);
      assert PadLength(|rest|) <= |Encode(rest)|;
      PaddedAfterFullGroup(EncodeTriple(bytes[0], bytes[1], bytes[2]), Encode(rest), PadLength(|rest|));
    }
  }

  /** A full group does not change the padding the length calls for. */
  lemma PadLengthStep(n: nat)
    requires n >= 3
    ensures PadLength(n) == PadLength(n - 3)
  {
    assert (n - 3) % 3 == n % 3;
  }

  lemma PaddedTail1(a: Byte)
    ensures PaddedWith(EncodeTail1(a), 2)
  {
  }

  lemma PaddedTail2(a: Byte, b: Byte)
    ensures PaddedWith(EncodeTail2(a, b), 1)
  {
  }

  /** `s` ends with exactly `pad` pad characters and is alphabet characters before them. */
  ghost predicate PaddedWith(s: string, pad: nat) {
    && (forall i :: 0 <= i < |s| ==> (IsAlphabetChar(s[i]) <==> i < |s| - pad))
    && (forall i :: 0 <= i < |s| ==> (s[i] == Pad <==> |s| - pad <= i))
  }

  lemma PaddedAfterFullGroup(head: string, rest: string, pad: nat)
    requires |head| == 4 && forall i :: 0 <= i < 4 ==> IsAlphabetChar(head[i])
    requires pad <= |rest| && PaddedWith(rest, pad)
    ensures PaddedWith(head + rest, pad)
  {
    var s := head + rest;
    forall i | 0 <= i < |s|
      ensures IsAlphabetChar(s[i]) <==> i < |s| - pad
      ensures s[i] == Pad <==> |s| - pad <= i
    {
      if i < 4 {
        assert s[i] == head[i];
      } else {
        assert s[i] == rest[i - 4];
      }
    }
  }

  /** Decodes one group of four characters; padding may stand only in the last
      one or two places. As in the canonical encoding of section 3.5 of
      RFC 4648, a final group whose unused low bits are not zero is rejected. */
  function DecodeQuad(q: string): (r: Option<seq<Byte>>)
    requires |q| == 4
    ensures r.Some? ==> 1 <= |r.value| <= 3
    ensures r.Some? && |r.value| == 3 ==> forall i :: 0 <= i < 4 ==> IsAlphabetChar(q[i])
    ensures r.Some? && |r.value| == 2 ==>
      IsAlphabetChar(q[0]) && IsAlphabetChar(q[1]) && IsAlphabetChar(q[2]) && q[3] == Pad
    ensures r.Some? && |r.value| == 1 ==>
      IsAlphabetChar(q[0]) && IsAlphabetChar(q[1]) && q[2] == Pad && q[3] == Pad
  {
    if !IsAlphabetChar(q[0]) || !IsAlphabetChar(q[1]) then None
    else
      var i0 := DecodeSextet(q[0]);
      var i1 := DecodeSextet(q[1]);
      var a := i0 * 4 + i1 / 16;
      if q[2] == Pad && q[3] == Pad then
        if i1 % 16 == 0 then Some([a]) else None
      else if !IsAlphabetChar(q[2]) then None
      else
        var i2 := DecodeSextet(q[2]);
        var b := (i1 % 16) * 16 + i2 / 4;
        if q[3] == Pad then
          if i2 % 4 == 0 then Some([a, b]) else None
        else if !IsAlphabetChar(q[3]) then None
        else
          var i3 := DecodeSextet(q[3]);
          Some([a, b, (i2 % 4) * 64 + i3])
  }

  /** Reference decoder for padded URL-safe base 64: None for a length that is
      not a multiple of four, a character outside the alphabet, or padding
      anywhere but the end. */
  function Decode(s: string): (r: Option<seq<Byte>>)
    ensures r.Some? ==> |s| % 4 == 0
    decreases |s|
  {
    if |s| == 0 then Some([])
    else if |s| < 4 then None
    else
      match DecodeQuad(s[..4])
      case None => None
      case Some(q) =>
        if |s| == 4 then Some(q)
        else if |q| < 3 then None
        else
          match Decode(s[4..])
          case None => None
          case Some(rest) => Some(q + rest)
  }

  /** Splitting three bytes into four 6-bit values and regrouping them gives
      the bytes back; a zero last byte leaves the third value's two low bits
      zero, and zero last two bytes leave the second value's four low bits zero. */
  lemma SplitBytes(a: int, b: int, c: int)
    requires 0 <= a < 0x100 && 0 <= b < 0x100 && 0 <= c < 0x100
    ensures var i0 := a / 4;
      var i1 := (a % 4) * 16 + b / 16;
      var i2 := (b % 16) * 4 + c / 64;
      var i3 := c % 64;
      && 0 <= i0 < 64 && 0 <= i1 < 64 && 0 <= i2 < 64 && 0 <= i3 < 64
      && i0 * 4 + i1 / 16 == a && (i1 % 16) * 16 + i2 / 4 == b && (i2 % 4) * 64 + i3 == c
      && (c == 0 ==> i2 % 4 == 0)
      && (b == 0 && c == 0 ==> i1 % 16 == 0)
  {
  }

  /** Four characters of the alphabet decode to the bytes their 6-bit values
      regroup into. */
  lemma DecodeOfSextets(i0: Sextet, i1: Sextet, i2: Sextet, i3: Sextet)
    ensures DecodeQuad([EncodeSextet(i0), EncodeSextet(i1), EncodeSextet(i2), EncodeSextet(i3)])
            == Some([i0 as int * 4 + i1 / 16, (i1 as int % 16) * 16 + i2 / 4, (i2 as int % 4) * 64 + i3])
  {
    var q := [EncodeSextet(i0), EncodeSextet(i1), EncodeSextet(i2), EncodeSextet(i3)];
    SextetRoundTrip(i0);
    SextetRoundTrip(i1);
    SextetRoundTrip(i2);
    SextetRoundTrip(i3);
    DecodeFullQuad(q);
  }

  /** The same for a final group with one pad. */
  lemma DecodeOfTail2Sextets(i0: Sextet, i1: Sextet, i2: Sextet)
    requires i2 % 4 == 0
    ensures DecodeQuad([EncodeSextet(i0), EncodeSextet(i1), EncodeSextet(i2), Pad])
            == Some([i0 as int * 4 + i1 / 16, (i1 as int % 16) * 16 + i2 / 4])
  {
    var q := [EncodeSextet(i0), EncodeSextet(i1), EncodeSextet(i2), Pad];
    SextetRoundTrip(i0);
    SextetRoundTrip(i1);
    SextetRoundTrip(i2);
    DecodeTail2Quad(q);
  }

  /** The same for a final group with two pads. */
  lemma DecodeOfTail1Sextets(i0: Sextet, i1: Sextet)
    requires i1 % 16 == 0
    ensures DecodeQuad([EncodeSextet(i0), EncodeSextet(i1), Pad, Pad]) == Some([i0 as int * 4 + i1 / 16])
  {
    var q := [EncodeSextet(i0), EncodeSextet(i1), Pad, Pad];
    SextetRoundTrip(i0);
    SextetRoundTrip(i1);
    DecodeTail1Quad(q);
  }

  /** Equal byte values make equal byte strings; stated on its own so that the
      arithmetic that produced the values stays out of the way. */
  lemma SameBytes(xs: seq<Byte>, ys: seq<Byte>)
    requires |xs| == |ys| && forall k :: 0 <= k < |xs| ==> xs[k] == ys[k]
    ensures xs == ys
  {
  }

  /** A full group decodes back to its three bytes. */
  lemma TripleRoundTrip(a: Byte, b: Byte, c: Byte)
    ensures DecodeQuad(EncodeTriple(a, b, c)) == Some([a, b, c])
  {
    var i0, i1, i2, i3 := a / 4, (a % 4) * 16 + b / 16, (b % 16) * 4 + c / 64, c % 64;
    SplitBytes(a, b, c);
    DecodeOfSextets(i0, i1, i2, i3);
    SameBytes([i0 as int * 4 + i1 / 16, (i1 as int % 16) * 16 + i2 / 4, (i2 as int % 4) * 64 + i3], [a, b, c]);
  }

  /** A final group of two bytes decodes back to them. */
  lemma Tail2RoundTrip(a: Byte, b: Byte)
    ensures DecodeQuad(EncodeTail2(a, b)) == Some([a, b])
  {
    var i0, i1, i2 := a / 4, (a % 4) * 16 + b / 16, (b % 16) * 4;
    SplitBytes(a, b, 0);
    DecodeOfTail2Sextets(i0, i1, i2);
    SameBytes([i0 as int * 4 + i1 / 16, (i1 as int % 16) * 16 + i2 / 4], [a, b]);
  }

  /** A final group of one byte decodes back to it. */
  lemma Tail1RoundTrip(a: Byte)
    ensures DecodeQuad(EncodeTail1(a)) == Some([a])
  {
    var i0, i1 := a / 4, (a % 4) * 16;
    SplitBytes(a, 0, 0);
    DecodeOfTail1Sextets(i0, i1);
    SameBytes([i0 as int * 4 + i1 / 16], [a]);
  }

  /** Decoding a full group followed by more input decodes the rest on its own. */
  lemma DecodeFullGroup(a: Byte, b: Byte, c: Byte, rest: string, tail: seq<Byte>)
    requires Decode(rest) == Some(tail)
    ensures Decode(EncodeTriple(a, b, c) + rest) == Some([a, b, c] + tail)
  {
    var head := EncodeTriple(a, b, c);
    TripleRoundTrip(a, b, c);
    var s := head + rest;
    assert s[..4] == head;
    if |rest| == 0 {
      assert s == head;
      assert [a, b, c] + tail == [a, b, c];
    } else {
      assert s[4..] == rest;
    }
  }

  /** Decoding a single final group is decoding that group. */
  lemma DecodeLastGroup(s: string)
    requires |s| == 4
    ensures Decode(s) == DecodeQuad(s)
  {
    assert s[..4] == s;
  }

  /** The round trip for an input shorter than a full group. */
  lemma DecodeEncodeShort(bytes: seq<Byte>)
    requires 1 <= |bytes| <= 2
    ensures Decode(Encode(bytes)) == Some(bytes)
  {
    if |bytes| == 1 {
      DecodeEncodeOne(bytes);
    } else {
      DecodeEncodeTwo(bytes);
    }
  }

  lemma DecodeEncodeOne(bytes: seq<Byte>)
    requires |bytes| == 1
    ensures Decode(Encode(bytes)) == Some(bytes)
  {
    assert Encode(bytes) == EncodeTail1(bytes[0]);
    DecodeLastGroup(EncodeTail1(bytes[0]));
    Tail1RoundTrip(bytes[0]);
    assert bytes == [bytes[0]];
  }

  lemma DecodeEncodeTwo(bytes: seq<Byte>)
    requires |bytes| == 2
    ensures Decode(Encode(bytes)) == Some(bytes)
  {
    assert Encode(bytes) == EncodeTail2(bytes[0], bytes[1]);
    DecodeLastGroup(EncodeTail2(bytes[0], bytes[1]));
    Tail2RoundTrip(bytes[0], bytes[1]);
    assert bytes == [bytes[0], bytes[1]];
  }

  /** A byte string of three or more bytes is its first group followed by the rest. */
  lemma SplitGroup(bytes: seq<Byte>)
    requires |bytes| >= 3
    ensures bytes == [bytes[0], bytes[1], bytes[2]] + bytes[3..]
  {
  }

  /** ... and its encoding is that group's four characters followed by the rest's. */
  lemma EncodeGroup(bytes: seq<Byte>)
    requires |bytes| >= 3
    ensures Encode(bytes) == EncodeTriple(bytes[0], bytes[1], bytes[2]) + Encode(bytes[3..])
  {
    assert |bytes| != 0 && |bytes| != 1 && |bytes| != 2;
  }

  /** Encoding is lossless: the reference decoder recovers every byte string. */
  lemma {:induction false} DecodeEncode(bytes: seq<Byte>)
    ensures Decode(Encode(bytes)) == Some(bytes)
    decreases |bytes|
  {
    if |bytes| == 0 {
    } else if |bytes| <= 2 {
      DecodeEncodeShort(bytes);
    } else {
      DecodeEncode(bytes[3..]);
      SplitGroup(bytes);
      EncodeGroup(bytes);
      DecodeFullGroup(bytes[0], bytes[1], bytes[2], Encode(bytes[3..]), bytes[3..]);
    }
  }

  /** Regrouping four 6-bit values into three bytes and back into 6-bit
      values gives the values started from. */
  lemma RegroupSextets(i0: int, i1: int, i2: int, i3: int)
    requires 0 <= i0 < 64 && 0 <= i1 < 64 && 0 <= i2 < 64 && 0 <= i3 < 64
    ensures var a := i0 * 4 + i1 / 16;
      var b := (i1 % 16) * 16 + i2 / 4;
      var c := (i2 % 4) * 64 + i3;
      && 0 <= a < 0x100 && 0 <= b < 0x100 && 0 <= c < 0x100
      && a / 4 == i0 && (a % 4) * 16 + b / 16 == i1
      && (b % 16) * 4 + c / 64 == i2 && c % 64 == i3
  {
  }

  /** Encoding the three bytes regrouped from four 6-bit values gives the
      characters of those values. */
  lemma RegroupedTriple(i0: int, i1: int, i2: int, i3: int, a: Byte, b: Byte, c: Byte)
    requires 0 <= i0 < 64 && 0 <= i1 < 64 && 0 <= i2 < 64 && 0 <= i3 < 64
    requires a == i0 * 4 + i1 / 16 && b == (i1 % 16) * 16 + i2 / 4 && c == (i2 % 4) * 64 + i3
    ensures EncodeTriple(a, b, c) == [EncodeSextet(i0), EncodeSextet(i1), EncodeSextet(i2), EncodeSextet(i3)]
  {
    RegroupSextets(i0, i1, i2, i3);
    SameSextet(a / 4, i0);
    SameSextet((a % 4) * 16 + b / 16, i1);
    SameSextet((b % 16) * 4 + c / 64, i2);
    SameSextet(c % 64, i3);
  }

  /** Equal 6-bit values give equal characters; stated on its own so that the
      arithmetic that produced the values stays out of the way. */
  lemma SameSextet(j: Sextet, i: int)
    requires j == i
    ensures EncodeSextet(j) == EncodeSextet(i)
  {
  }

  /** A group of four alphabet characters is the encoding of its 6-bit values. */
  lemma CharsOfSextets(q: string)
    requires |q| == 4 && forall i :: 0 <= i < 4 ==> IsAlphabetChar(q[i])
    ensures q == [EncodeSextet(DecodeSextet(q[0])), EncodeSextet(DecodeSextet(q[1])),
                  EncodeSextet(DecodeSextet(q[2])), EncodeSextet(DecodeSextet(q[3]))]
  {
  }

  /** Four alphabet characters decode to the three bytes they regroup into. */
  lemma DecodeFullQuad(q: string)
    requires |q| == 4 && forall i :: 0 <= i < 4 ==> IsAlphabetChar(q[i])
    ensures var i0: int, i1: int := DecodeSextet(q[0]), DecodeSextet(q[1]);
      var i2: int, i3: int := DecodeSextet(q[2]), DecodeSextet(q[3]);
      DecodeQuad(q) == Some([i0 * 4 + i1 / 16, (i1 % 16) * 16 + i2 / 4, (i2 % 4) * 64 + i3])
  {
    assert q[2] != Pad && q[3] != Pad;
  }

  /** A full group the decoder accepts is the encoding of its three bytes. */
  lemma QuadRoundTrip3(q: string, v: seq<Byte>)
    requires |q| == 4 && DecodeQuad(q) == Some(v) && |v| == 3
    ensures EncodeTriple(v[0], v[1], v[2]) == q
  {
    DecodeFullQuad(q);
    CharsOfSextets(q);
    TripleFromSextets(q, v, DecodeSextet(q[0]), DecodeSextet(q[1]), DecodeSextet(q[2]), DecodeSextet(q[3]));
  }

  /** The regrouping step of `QuadRoundTrip3`, stated over the 6-bit values
      alone. */
  lemma TripleFromSextets(q: string, v: seq<Byte>, i0: int, i1: int, i2: int, i3: int)
    requires 0 <= i0 < 64 && 0 <= i1 < 64 && 0 <= i2 < 64 && 0 <= i3 < 64
    requires q == [EncodeSextet(i0), EncodeSextet(i1), EncodeSextet(i2), EncodeSextet(i3)]
    requires v == [i0 * 4 + i1 / 16, (i1 % 16) * 16 + i2 / 4, (i2 % 4) * 64 + i3]
    ensures EncodeTriple(v[0], v[1], v[2]) == q
  {
    RegroupedTriple(i0, i1, i2, i3, v[0], v[1], v[2]);
  }

  /** Regrouping three 6-bit values, the last with its two low bits zero, into
      two bytes and back gives the values started from. */
  lemma RegroupedTail2(i0: int, i1: int, i2: int, a: Byte, b: Byte)
    requires 0 <= i0 < 64 && 0 <= i1 < 64 && 0 <= i2 < 64 && i2 % 4 == 0
    requires a == i0 * 4 + i1 / 16 && b == (i1 % 16) * 16 + i2 / 4
    ensures EncodeTail2(a, b) == [EncodeSextet(i0), EncodeSextet(i1), EncodeSextet(i2), Pad]
  {
    assert a / 4 == i0 && (a % 4) * 16 + b / 16 == i1 && (b % 16) * 4 == i2;
    SameSextet(a / 4, i0);
    SameSextet((a % 4) * 16 + b / 16, i1);
    SameSextet((b % 16) * 4, i2);
  }

  /** Regrouping two 6-bit values, the last with its four low bits zero, into
      one byte and back gives the values started from. */
  lemma RegroupedTail1(i0: int, i1: int, a: Byte)
    requires 0 <= i0 < 64 && 0 <= i1 < 64 && i1 % 16 == 0
    requires a == i0 * 4 + i1 / 16
    ensures EncodeTail1(a) == [EncodeSextet(i0), EncodeSextet(i1), Pad, Pad]
  {
    assert a / 4 == i0 && (a % 4) * 16 == i1;
    SameSextet(a / 4, i0);
    SameSextet((a % 4) * 16, i1);
  }

  /** Three alphabet characters and a pad decode to the two bytes they
      regroup into when the unused low bits are zero, and are rejected
      otherwise. */
  lemma DecodeTail2Quad(q: string)
    requires |q| == 4 && IsAlphabetChar(q[0]) && IsAlphabetChar(q[1]) && IsAlphabetChar(q[2]) && q[3] == Pad
    ensures var i0: int, i1: int, i2: int := DecodeSextet(q[0]), DecodeSextet(q[1]), DecodeSextet(q[2]);
      DecodeQuad(q) == if i2 % 4 == 0 then Some([i0 * 4 + i1 / 16, (i1 % 16) * 16 + i2 / 4]) else None
  {
    assert q[2] != Pad;
  }

  /** Two alphabet characters and two pads decode to the byte they regroup
      into when the unused low bits are zero, and are rejected otherwise. */
  lemma DecodeTail1Quad(q: string)
    requires |q| == 4 && IsAlphabetChar(q[0]) && IsAlphabetChar(q[1]) && q[2] == Pad && q[3] == Pad
    ensures var i0: int, i1: int := DecodeSextet(q[0]), DecodeSextet(q[1]);
      DecodeQuad(q) == if i1 % 16 == 0 then Some([i0 * 4 + i1 / 16]) else None
  {
  }

  /** A final group of two bytes the decoder accepts is their encoding. */
  lemma QuadRoundTrip2(q: string, v: seq<Byte>)
    requires |q| == 4 && DecodeQuad(q) == Some(v) && |v| == 2
    ensures EncodeTail2(v[0], v[1]) == q
  {
    var i0: int, i1: int, i2: int := DecodeSextet(q[0]), DecodeSextet(q[1]), DecodeSextet(q[2]);
    DecodeTail2Quad(q);
    RegroupedTail2(i0, i1, i2, v[0], v[1]);
    assert q == [EncodeSextet(i0), EncodeSextet(i1), EncodeSextet(i2), Pad];
  }

  /** A final group of one byte the decoder accepts is its encoding. */
  lemma QuadRoundTrip1(q: string, v: seq<Byte>)
    requires |q| == 4 && DecodeQuad(q) == Some(v) && |v| == 1
    ensures EncodeTail1(v[0]) == q
  {
    var i0: int, i1: int := DecodeSextet(q[0]), DecodeSextet(q[1]);
    DecodeTail1Quad(q);
    RegroupedTail1(i0, i1, v[0]);
    assert q == [EncodeSextet(i0), EncodeSextet(i1), Pad, Pad];
  }

  /** The encoding of the bytes in one accepted final group is that group. */
  lemma EncodeDecodeLastGroup(s: string, b: seq<Byte>)
    requires |s| == 4 && Decode(s) == Some(b)
    ensures Encode(b) == s
  {
    DecodeLastGroup(s);
    if |b| == 3 {
      QuadRoundTrip3(s, b);
      EncodeGroup(b);
      assert b[3..] == [];
    } else if |b| == 2 {
      QuadRoundTrip2(s, b);
    } else {
      QuadRoundTrip1(s, b);
    }
  }

  /** An accepted full group followed by more input: the decoded bytes are
      that group's bytes followed by what the rest decodes to. */
  lemma DecodeSplit(s: string, b: seq<Byte>)
    requires |s| > 4 && Decode(s) == Some(b)
    ensures DecodeQuad(s[..4]).Some? && |DecodeQuad(s[..4]).value| == 3
    ensures Decode(s[4..]).Some?
    ensures b == DecodeQuad(s[..4]).value + Decode(s[4..]).value
  {
  }

  /** Decoding loses nothing either: every string the decoder accepts is the
      encoding of what it decodes to, so each byte string has one encoding. */
  lemma {:induction false} EncodeDecode(s: string, b: seq<Byte>)
    requires Decode(s) == Some(b)
    ensures Encode(b) == s
    decreases |s|
  {
    if |s| == 0 {
    } else if |s| == 4 {
      EncodeDecodeLastGroup(s, b);
    } else {
      DecodeSplit(s, b);
      var q := DecodeQuad(s[..4]).value;
      var rest := Decode(s[4..]).value;
      EncodeDecode(s[4..], rest);
      QuadRoundTrip3(s[..4], q);
      EncodeGroup(b);
      assert b[..3] == q && b[3..] == rest;
      assert s == s[..4] + s[4..];
    }
  }

  /** Distinct byte strings never share an encoding. */
  lemma EncodeInjective(x: seq<Byte>, y: seq<Byte>)
    ensures Encode(x) == Encode(y) <==> x == y
  {
    DecodeEncode(x);
    DecodeEncode(y);
  }
}
