/**
 * UTF-8 as defined by section 4 of RFC 3629: the well-formedness grammar, a
 * decoder from octets to Unicode scalar values (what Foundation's
 * `String(data:encoding: .utf8)` does), the matching encoder, and the two
 * round trips between them.
 */
module Utf8 {
  import opened Wrappers

  /** An octet, Swift's `UInt8`. */
  newtype uint8 = x: int | 0 <= x < 0x100

  /** A Unicode scalar value: a code point that is not a surrogate. */
  predicate IsScalarValue(v: int) {
    0 <= v < 0xD800 || 0xE000 <= v < 0x11_0000
  }

  // The grammar of section 4 of RFC 3629, one predicate per rule.

  /** UTF8-tail = %x80-BF */
  predicate IsTail(b: uint8) {
    0x80 <= b <= 0xBF
  }

  /** UTF8-1 = %x00-7F */
  predicate IsUtf8Char1(c: seq<uint8>) {
    |c| == 1 && c[0] <= 0x7F
  }

  /** UTF8-2 = %xC2-DF UTF8-tail */
  predicate IsUtf8Char2(c: seq<uint8>) {
    |c| == 2 && 0xC2 <= c[0] <= 0xDF && IsTail(c[1])
  }

  /** UTF8-3 = %xE0 %xA0-BF UTF8-tail / %xE1-EC 2( UTF8-tail ) /
               %xED %x80-9F UTF8-tail / %xEE-EF 2( UTF8-tail ) */
  predicate IsUtf8Char3(c: seq<uint8>) {
    && |c| == 3
    && IsTail(c[2])
    && ( || (c[0] == 0xE0 && 0xA0 <= c[1] <= 0xBF)
         || (0xE1 <= c[0] <= 0xEC && IsTail(c[1]))
         || (c[0] == 0xED && 0x80 <= c[1] <= 0x9F)
         || (0xEE <= c[0] <= 0xEF && IsTail(c[1])))
  }

  /** UTF8-4 = %xF0 %x90-BF 2( UTF8-tail ) / %xF1-F3 3( UTF8-tail ) /
               %xF4 %x80-8F 2( UTF8-tail ) */
  predicate IsUtf8Char4(c: seq<uint8>) {
    && |c| == 4
    && IsTail(c[2]) && IsTail(c[3])
    && ( || (c[0] == 0xF0 && 0x90 <= c[1] <= 0xBF)
         || (0xF1 <= c[0] <= 0xF3 && IsTail(c[1]))
         || (c[0] == 0xF4 && 0x80 <= c[1] <= 0x8F))
  }

  /** UTF8-char = UTF8-1 / UTF8-2 / UTF8-3 / UTF8-4 */
  predicate IsUtf8Char(c: seq<uint8>) {
    IsUtf8Char1(c) || IsUtf8Char2(c) || IsUtf8Char3(c) || IsUtf8Char4(c)
  }

  /** UTF8-octets = *( UTF8-char ) */
  predicate IsWellFormed(s: seq<uint8>)
    decreases |s|
  {
    || s == []
    || exists n :: 1 <= n <= 4 && n <= |s| && IsUtf8Char(s[..n]) && IsWellFormed(s[n..])
  }

  /** The length of a UTF8-char as announced by its first octet (0: no char starts so). */
  function LeadLength(b: uint8): (n: nat)
    ensures n <= 4
  {
    if b <= 0x7F then 1
    else if 0xC2 <= b <= 0xDF then 2
    else if 0xE0 <= b <= 0xEF then 3
    else if 0xF0 <= b <= 0xF4 then 4
    else 0
  }

  /** The grammar is prefix-free: the first octet fixes the length of a char. */
  lemma CharLengthIsLeadLength(c: seq<uint8>)
    requires IsUtf8Char(c)
    ensures |c| == LeadLength(c[0])
  {
  }

  /** The scalar value a well-formed UTF8-char stands for, and the range that makes it the shortest form. */
  function ScalarOf(c: seq<uint8>): (v: int)
    requires IsUtf8Char(c)
    ensures IsScalarValue(v)
    ensures |c| == 1 <==> v < 0x80
    ensures |c| == 2 <==> 0x80 <= v < 0x800
    ensures |c| == 3 <==> 0x800 <= v < 0x1_0000
    ensures |c| == 4 <==> 0x1_0000 <= v
  {
    if |c| == 1 then
      c[0] as int
    else if |c| == 2 then
      (c[0] as int - 0xC0) * 0x40 + (c[1] as int - 0x80)
    else if |c| == 3 then
      (c[0] as int - 0xE0) * 0x1000 + (c[1] as int - 0x80) * 0x40 + (c[2] as int - 0x80)
    else
      (c[0] as int - 0xF0) * 0x4_0000 + (c[1] as int - 0x80) * 0x1000
        + (c[2] as int - 0x80) * 0x40 + (c[3] as int - 0x80)
  }

  /** Splitting a value into its quotient and remainder by 0x40, the weight of one 6-bit group. */
  lemma DivMod64(v: int, q: int, r: int)
    requires 0 <= r < 0x40 && v == q * 0x40 + r
    ensures v / 0x40 == q && v % 0x40 == r
  {
  }

  /** The same for 0x1000, the weight of two 6-bit groups. */
  lemma DivMod4096(v: int, q: int, r: int)
    requires 0 <= r < 0x1000 && v == q * 0x1000 + r
    ensures v / 0x1000 == q
  {
  }

  /** The same for 0x4_0000, the weight of three 6-bit groups. */
  lemma DivMod262144(v: int, q: int, r: int)
    requires 0 <= r < 0x4_0000 && v == q * 0x4_0000 + r
    ensures v / 0x4_0000 == q
  {
  }

  /** The 6-bit groups of a value below 0x20_0000, most significant first. */
  lemma SixBitGroups(v: int)
    requires 0 <= v < 0x20_0000
    ensures v == (v / 0x4_0000) * 0x4_0000 + (v / 0x1000 % 0x40) * 0x1000 + (v / 0x40 % 0x40) * 0x40 + v % 0x40
    ensures v / 0x40 / 0x40 == v / 0x1000 && v / 0x1000 / 0x40 == v / 0x4_0000
  {
    var q1, r0 := v / 0x40, v % 0x40;
    var q2, r1 := q1 / 0x40, q1 % 0x40;
    var q3, r2 := q2 / 0x40, q2 % 0x40;
    assert v == q2 * 0x1000 + (r1 * 0x40 + r0);
    DivMod4096(v, q2, r1 * 0x40 + r0);
    assert v == q3 * 0x4_0000 + (r2 * 0x1000 + r1 * 0x40 + r0);
    DivMod262144(v, q3, r2 * 0x1000 + r1 * 0x40 + r0);
  }

  /** A value in 0x80..0x7FF is the value of a two-octet UTF8-char. */
  lemma TwoOctetChar(v: int) returns (c: seq<uint8>)
    requires 0x80 <= v < 0x800
    ensures IsUtf8Char2(c) && ScalarOf(c) == v
  {
    var d0, d1 := v / 0x40, v % 0x40;
    assert 2 <= d0 < 0x20;
    c := [(0xC0 + d0) as uint8, (0x80 + d1) as uint8];
  }

  /** A scalar value in 0x800..0xFFFF is the value of a three-octet UTF8-char. */
  lemma ThreeOctetChar(v: int) returns (c: seq<uint8>)
    requires 0x800 <= v < 0x1_0000 && IsScalarValue(v)
    ensures IsUtf8Char3(c) && ScalarOf(c) == v
  {
    SixBitGroups(v);
    var d0, d1, d2 := v / 0x1000, v / 0x40 % 0x40, v % 0x40;
    assert v == d0 * 0x1000 + d1 * 0x40 + d2;
    assert d0 < 0x10;
    assert d0 == 0 ==> 0x20 <= d1;
    assert d0 == 0xD ==> d1 < 0x20;
    c := [(0xE0 + d0) as uint8, (0x80 + d1) as uint8, (0x80 + d2) as uint8];
  }

  /** A value in 0x10000..0x10FFFF is the value of a four-octet UTF8-char. */
  lemma FourOctetChar(v: int) returns (c: seq<uint8>)
    requires 0x1_0000 <= v < 0x11_0000
    ensures IsUtf8Char4(c) && ScalarOf(c) == v
  {
    SixBitGroups(v);
    var d0, d1, d2, d3 := v / 0x4_0000, v / 0x1000 % 0x40, v / 0x40 % 0x40, v % 0x40;
    assert v == d0 * 0x4_0000 + d1 * 0x1000 + d2 * 0x40 + d3;
    assert d0 <= 4;
    assert d0 == 0 ==> 0x10 <= d1;
    assert d0 == 4 ==> d1 < 0x10;
    c := [(0xF0 + d0) as uint8, (0x80 + d1) as uint8, (0x80 + d2) as uint8, (0x80 + d3) as uint8];
  }

  /** Every scalar value is the value of some UTF8-char: the one cut from its 6-bit groups. */
  lemma ScalarHasUtf8Char(v: int)
    requires IsScalarValue(v)
    ensures exists c :: IsUtf8Char(c) && ScalarOf(c) == v
  {
    var c: seq<uint8>;
    if v < 0x80 {
      c := [v as uint8];
    } else if v < 0x800 {
      c := TwoOctetChar(v);
    } else if v < 0x1_0000 {
      c := ThreeOctetChar(v);
    } else {
      c := FourOctetChar(v);
    }
    assert IsUtf8Char(c) && ScalarOf(c) == v;
  }

  /** The octets of a well-formed UTF8-char are fixed by its value: the 6-bit groups of the value. */
  lemma GroupsOfScalar(c: seq<uint8>)
    requires IsUtf8Char(c)
    ensures var v := ScalarOf(c);
            && c[|c| - 1] as int == (if |c| == 1 then v else 0x80 + v % 0x40)
            && (|c| == 2 ==> c[0] as int == 0xC0 + v / 0x40)
            && (|c| == 3 ==> c[0] as int == 0xE0 + v / 0x1000 && c[1] as int == 0x80 + v / 0x40 % 0x40)
            && (|c| == 4 ==> c[0] as int == 0xF0 + v / 0x4_0000 && c[1] as int == 0x80 + v / 0x1000 % 0x40
                             && c[2] as int == 0x80 + v / 0x40 % 0x40)
  {
    var v := ScalarOf(c);
    if |c| == 2 {
      DivMod64(v, c[0] as int - 0xC0, c[1] as int - 0x80);
    } else if |c| == 3 {
      var hi := (c[0] as int - 0xE0) * 0x40 + (c[1] as int - 0x80);
      DivMod64(v, hi, c[2] as int - 0x80);
      DivMod64(hi, c[0] as int - 0xE0, c[1] as int - 0x80);
      SixBitGroups(v);
    } else if |c| == 4 {
      var hi := (c[0] as int - 0xF0) * 0x40 + (c[1] as int - 0x80);
      var mid := hi * 0x40 + (c[2] as int - 0x80);
      DivMod64(v, mid, c[3] as int - 0x80);
      DivMod64(mid, hi, c[2] as int - 0x80);
      DivMod64(hi, c[0] as int - 0xF0, c[1] as int - 0x80);
      SixBitGroups(v);
    }
  }

  /** Two well-formed UTF8-chars with the same value are the same octets. */
  lemma ScalarOfIsInjective(c: seq<uint8>, d: seq<uint8>)
    requires IsUtf8Char(c) && IsUtf8Char(d) && ScalarOf(c) == ScalarOf(d)
    ensures c == d
  {
    GroupsOfScalar(c);
    GroupsOfScalar(d);
    assert |c| == |d|;
    assert forall i :: 0 <= i < |c| ==> c[i] == d[i];
  }

  /** The UTF8-char of a scalar value (RFC 3629 section 3): the one well-formed char that decodes to it. */
  ghost function EncodeScalar(v: int): (c: seq<uint8>)
    requires IsScalarValue(v)
    ensures IsUtf8Char(c) && ScalarOf(c) == v
  {
    ScalarHasUtf8Char(v);
    var c :| IsUtf8Char(c) && ScalarOf(c) == v; c
  }

  /** Each well-formed UTF8-char is the encoding of the value it decodes to. */
  lemma EncodeScalarOf(c: seq<uint8>)
    requires IsUtf8Char(c)
    ensures EncodeScalar(ScalarOf(c)) == c
  {
    ScalarOfIsInjective(EncodeScalar(ScalarOf(c)), c);
  }

  /** The encoding of a string: its scalar values' UTF8-chars, in order. */
  ghost function Encode(t: string): (s: seq<uint8>)
    ensures |s| >= |t|
  {
    if t == [] then [] else EncodeScalar(t[0] as int) + Encode(t[1..])
  }

  /**
   * Decodes `s` as UTF-8: the string of the UTF8-chars `s` is made of, or
   * `None` when `s` is not well formed.
   */
  function Decode(s: seq<uint8>): (r: Option<string>)
    ensures r.Some? ==> |r.value| <= |s| <= 4 * |r.value|
    decreases |s|
  {
    if s == [] then
      Some([])
    else
      var n := LeadLength(s[0]);
      if 1 <= n <= |s| && IsUtf8Char(s[..n]) then
        match Decode(s[n..])
        case None => None
        case Some(rest) => Some([ScalarOf(s[..n]) as char] + rest)
      else
        None
  }

  /** Decoding succeeds exactly on the octet strings the RFC 3629 grammar accepts. */
  lemma {:induction false} DecodeSucceedsIffWellFormed(s: seq<uint8>)
    ensures Decode(s).Some? <==> IsWellFormed(s)
    decreases |s|
  {
    if s != [] {
      var n := LeadLength(s[0]);
      if 1 <= n <= |s| && IsUtf8Char(s[..n]) {
        DecodeSucceedsIffWellFormed(s[n..]);
      }
      if IsWellFormed(s) {
        var m :| 1 <= m <= 4 && m <= |s| && IsUtf8Char(s[..m]) && IsWellFormed(s[m..]);
        CharLengthIsLeadLength(s[..m]);
        assert m == n;
      }
    }
  }

  /** Encoding then decoding gives the string back. */
  lemma {:induction false} DecodeEncode(t: string)
    ensures Decode(Encode(t)) == Some(t)
  {
    if t != [] {
      var c := EncodeScalar(t[0] as int);
      var s := Encode(t);
      assert s == c + Encode(t[1..]);
      CharLengthIsLeadLength(c);
      assert s[0] == c[0];
      assert s[..|c|] == c;
      assert s[|c|..] == Encode(t[1..]);
      DecodeEncode(t[1..]);
      assert (ScalarOf(c) as char) == t[0];
      assert [t[0]] + t[1..] == t;
    }
  }

  /** Encoding a string that starts with `ch`. */
  lemma EncodeCons(ch: char, rest: string)
    ensures Encode([ch] + rest) == EncodeScalar(ch as int) + Encode(rest)
  {
    var t := [ch] + rest;
    assert t[0] == ch && t[1..] == rest;
  }

  /** One decoding step: a well-formed first char followed by a decodable rest. */
  lemma DecodeStep(s: seq<uint8>)
    requires s != [] && Decode(s).Some?
    ensures var n := LeadLength(s[0]);
            && 1 <= n <= |s| && IsUtf8Char(s[..n]) && Decode(s[n..]).Some?
            && Decode(s) == Some([ScalarOf(s[..n]) as char] + Decode(s[n..]).value)
  {
  }

  /** Encoding one decoded char in front of an encoded rest gives the char's octets in front of the rest. */
  lemma EncodeDecodedChar(c: seq<uint8>, rest: string)
    requires IsUtf8Char(c)
    ensures Encode([ScalarOf(c) as char] + rest) == c + Encode(rest)
  {
    var ch := ScalarOf(c) as char;
    assert ch as int == ScalarOf(c);
    EncodeScalarOf(c);
    EncodeCons(ch, rest);
  }

  /** A sequence is its first `n` elements followed by the rest. */
  lemma TakeDrop(s: seq<uint8>, n: nat)
    requires n <= |s|
    ensures s[..n] + s[n..] == s
  {
  }

  /** The inductive step of the decode-then-encode round trip, stated without the decoder. */
  lemma EncodeDecodeStep(s: seq<uint8>, c: seq<uint8>, tail: seq<uint8>, t: string, rest: string)
    requires IsUtf8Char(c) && t == [ScalarOf(c) as char] + rest && Encode(rest) == tail && s == c + tail
    ensures Encode(t) == s
  {
    EncodeDecodedChar(c, rest);
  }

  /** Encoding gives back the octets a string was decoded from. */
  lemma {:induction false} EncodeDecodeOf(s: seq<uint8>, t: string)
    requires Decode(s) == Some(t)
    ensures Encode(t) == s
    decreases |s|
  {
    if s != [] {
      var n := LeadLength(s[0]);
      DecodeStep(s);
      var rest := Decode(s[n..]).value;
      EncodeDecodeOf(s[n..], rest);
      TakeDrop(s, n);
      EncodeDecodeStep(s, s[..n], s[n..], t, rest);
    }
  }

  /** A successful decode is inverted by encoding: the decoder loses no octet. */
  lemma {:induction false} EncodeDecode(s: seq<uint8>)
    requires Decode(s).Some?
    ensures Encode(Decode(s).value) == s
  {
    EncodeDecodeOf(s, Decode(s).value);
  }

  /** Every string has a well-formed encoding. */
  lemma EncodeIsWellFormed(t: string)
    ensures IsWellFormed(Encode(t))
  {
    DecodeEncode(t);
    DecodeSucceedsIffWellFormed(Encode(t));
  }

  /** Only U+0000 puts a zero octet into an encoding: every other char's octets are non-zero. */
  lemma {:induction false} EncodeHasNulIffStringHasNul(t: string)
    ensures 0 in Encode(t) <==> '\0' in t
  {
    if t != [] {
      EncodeHasNulIffStringHasNul(t[1..]);
      var c := EncodeScalar(t[0] as int);
      assert Encode(t) == c + Encode(t[1..]);
      assert 0 in c <==> t[0] == '\0';
      assert '\0' in t <==> t[0] == '\0' || '\0' in t[1..];
    }
  }

  /** Only the empty string encodes to no octets. */
  lemma EncodeEmptyIffEmpty(t: string)
    ensures Encode(t) == [] <==> t == []
  {
  }
}
