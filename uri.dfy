/**
 * encodeURIComponent and decodeURIComponent, the URI handling functions of
 * ECMA-262 (section 19.2.6): a string is turned into UTF-8 octets and every
 * octet outside a small unescaped set is written as a "%HH" triplet, as in
 * section 2.1 of RFC 3986. Encoding throws a URIError on an unpaired surrogate.
 */
module Uri {
  import opened Results
  import opened Utf16

  type Byte = b: int | 0 <= b < 0x100

  /** The error both functions throw. */
  datatype URIError = URIError

  /**
   * The code units encodeURIComponent copies unchanged: uriAlpha, DecimalDigit
   * and uriMark of section 19.2.6.1 of ECMA-262.
   */
  predicate IsUnescaped(u: CodeUnit) {
    || ('A' as int <= u <= 'Z' as int)
    || ('a' as int <= u <= 'z' as int)
    || ('0' as int <= u <= '9' as int)
    || u == '-' as int || u == '_' as int || u == '.' as int || u == '!' as int
    || u == '~' as int || u == '*' as int || u == '\'' as int || u == '(' as int || u == ')' as int
  }

  predicate IsUpperHexDigit(u: CodeUnit) {
    ('0' as int <= u <= '9' as int) || ('A' as int <= u <= 'F' as int)
  }

  /** The upper-case hexadecimal digit Encode writes for a value below 16. */
  function HexDigit(v: int): (u: CodeUnit)
    requires 0 <= v < 16
    ensures IsUpperHexDigit(u)
  {
    if v < 10 then '0' as int + v else 'A' as int + (v - 10)
  }

  /** The value of a hexadecimal digit of either case, as Decode reads it. */
  function HexValue(u: CodeUnit): (r: Option<int>)
    ensures r.Some? ==> 0 <= r.value < 16
  {
    if '0' as int <= u <= '9' as int then Some(u - '0' as int)
    else if 'A' as int <= u <= 'F' as int then Some(u - 'A' as int + 10)
    else if 'a' as int <= u <= 'f' as int then Some(u - 'a' as int + 10)
    else None
  }

  /** The "%HH" triplet of one octet. */
  function Triplet(b: Byte): JsString
  {
    ['%' as int, HexDigit(b / 16), HexDigit(b % 16)]
  }

  /** The triplets of a sequence of octets, in order. */
  function PercentEncode(bs: seq<Byte>): (r: JsString)
    ensures |r| == 3 * |bs|
  {
    if bs == [] then [] else Triplet(bs[0]) + PercentEncode(bs[1..])
  }

  /** UTF-8 encoding of one code point (the table of section 3 of RFC 3629). */
  function Utf8Encode(c: CodePoint): (bs: seq<Byte>)
  {
    if c < 0x80 then [c]
    else if c < 0x800 then [0xC0 + c / 0x40, 0x80 + c % 0x40]
    else if c < 0x1_0000 then [0xE0 + c / 0x1000, 0x80 + (c / 0x40) % 0x40, 0x80 + c % 0x40]
    else [0xF0 + c / 0x4_0000, 0x80 + (c / 0x1000) % 0x40, 0x80 + (c / 0x40) % 0x40, 0x80 + c % 0x40]
  }

  /**
   * encodeURIComponent (the Encode operation of section 19.2.6.5 of ECMA-262
   * with the unescaped set above): units of the unescaped set are copied, every
   * other code point is written as the triplets of its UTF-8 octets, and an
   * unpaired surrogate throws.
   */
  function Encode(s: JsString): (r: Result<JsString, URIError>)
    decreases |s|
  {
    if s == [] then Ok([])
    else if IsUnescaped(s[0]) then
      match Encode(s[1..])
      case Ok(t) => Ok([s[0]] + t)
      case Err(e) => Err(e)
    else
      var cp := CodePointAt(s, 0);
      if cp.isUnpairedSurrogate then Err(URIError)
      else
        match Encode(s[cp.codeUnitCount..])
        case Ok(t) => Ok(PercentEncode(Utf8Encode(cp.codePoint)) + t)
        case Err(e) => Err(e)
  }

  /** The number of leading one bits of an octet. */
  function LeadingOnes(b: Byte): nat
  {
    if b < 0x80 then 0 else if b < 0xC0 then 1 else if b < 0xE0 then 2 else if b < 0xF0 then 3
    else if b < 0xF8 then 4 else if b < 0xFC then 5 else if b < 0xFE then 6 else if b < 0xFF then 7 else 8
  }

  predicate IsContinuation(b: Byte) { 0x80 <= b < 0xC0 }

  /**
   * The code point a sequence of two to four octets spells, when it is the
   * UTF-8 encoding of a Unicode scalar value (no overlong form, no surrogate,
   * nothing above U+10FFFF), and None otherwise.
   */
  function Utf8Decode(bs: seq<Byte>): (r: Option<CodePoint>)
  {
    if |bs| == 2 && 0xC0 <= bs[0] < 0xE0 && IsContinuation(bs[1]) then
      var c: int := (bs[0] as int - 0xC0) * 0x40 + (bs[1] as int - 0x80);
      if 0x80 <= c then Some(c) else None
    else if |bs| == 3 && 0xE0 <= bs[0] < 0xF0 && IsContinuation(bs[1]) && IsContinuation(bs[2]) then
      var c: int := (bs[0] as int - 0xE0) * 0x1000 + (bs[1] as int - 0x80) * 0x40 + (bs[2] as int - 0x80);
      if 0x800 <= c && !IsSurrogate(c) then Some(c) else None
    else if |bs| == 4 && 0xF0 <= bs[0] < 0xF8 && IsContinuation(bs[1]) && IsContinuation(bs[2])
      && IsContinuation(bs[3]) then
      var c: int := (bs[0] as int - 0xF0) * 0x4_0000 + (bs[1] as int - 0x80) * 0x1000 + (bs[2] as int - 0x80) * 0x40 + (bs[3] as int - 0x80);
      if 0x1_0000 <= c <= 0x10_FFFF then Some(c) else None
    else None
  }

  /** The octets of the first m "%HH" triplets of t, or None when t does not start with m of them. */
  function ReadOctets(t: JsString, m: nat): (r: Option<seq<Byte>>)
    ensures r.Some? ==> |r.value| == m && 3 * m <= |t|
    decreases m
  {
    if m == 0 then Some([])
    else if |t| < 3 || t[0] != '%' as int then None
    else
      match (HexValue(t[1]), HexValue(t[2]))
      case (Some(hi), Some(lo)) =>
        (match ReadOctets(t[3..], m - 1)
         case Some(rest) => Some([hi * 16 + lo] + rest)
         case None => None)
      case _ => None
  }

  function Prepend(u: JsString, r: Option<JsString>): Option<JsString>
  {
    match r
    case Some(t) => Some(u + t)
    case None => None
  }

  /**
   * decodeURIComponent (the Decode operation of section 19.2.6.6 of ECMA-262
   * with an empty reserved set): a unit other than '%' is copied; a triplet
   * below 0x80 stands for itself; a triplet whose octet has n leading ones
   * (n from 2 to 4) starts n triplets that must spell one code point in UTF-8,
   * which is written back in UTF-16. Anything else throws (None).
   */
  function Decode(t: JsString): (r: Option<JsString>)
    decreases |t|
  {
    if t == [] then Some([])
    else if t[0] != '%' as int then Prepend([t[0]], Decode(t[1..]))
    else
      match ReadOctets(t, 1)
      case None => None
      case Some(first) =>
        var b := first[0];
        if b < 0x80 then Prepend([b], Decode(t[3..]))
        else
          var n := LeadingOnes(b);
          if n == 1 || n > 4 then None
          else
            match ReadOctets(t, n)
            case None => None
            case Some(octets) =>
              match Utf8Decode(octets)
              case None => None
              case Some(c) => Prepend(EncodeCodePoint(c), Decode(t[3 * n..]))
  }

  // ----- The shape of encoded text -----

  /**
   * Text made only of unescaped units and "%HH" triplets with upper-case
   * hexadecimal digits.
   */
  predicate IsEncodedForm(t: JsString)
    decreases |t|
  {
    if t == [] then true
    else if IsUnescaped(t[0]) then IsEncodedForm(t[1..])
    else |t| >= 3 && t[0] == '%' as int && IsUpperHexDigit(t[1]) && IsUpperHexDigit(t[2]) && IsEncodedForm(t[3..])
  }

  lemma {:induction false} PercentEncodeForm(bs: seq<Byte>, t: JsString)
    requires IsEncodedForm(t)
    ensures IsEncodedForm(PercentEncode(bs) + t)
    decreases |bs|
  {
    if bs != [] {
      var u := PercentEncode(bs) + t;
      PercentEncodeForm(bs[1..], t);
      assert u[0] == '%' as int && !IsUnescaped(u[0]);
      assert u[3..] == PercentEncode(bs[1..]) + t;
    } else {
      assert PercentEncode(bs) + t == t;
    }
  }

  /** Whatever encodeURIComponent returns is made of unescaped units and upper-case "%HH" triplets. */
  lemma {:induction false} EncodeForm(s: JsString)
    requires Encode(s).Ok?
    ensures IsEncodedForm(Encode(s).value)
    decreases |s|
  {
    if s != [] {
      if IsUnescaped(s[0]) {
        EncodeForm(s[1..]);
        assert ([s[0]] + Encode(s[1..]).value)[1..] == Encode(s[1..]).value;
      } else {
        var cp := CodePointAt(s, 0);
        EncodeForm(s[cp.codeUnitCount..]);
        PercentEncodeForm(Utf8Encode(cp.codePoint), Encode(s[cp.codeUnitCount..]).value);
      }
    }
  }

  /** Every unit of encoded text is unescaped, a '%' or an upper-case hexadecimal digit. */
  lemma {:induction false} EncodedFormAlphabet(t: JsString)
    requires IsEncodedForm(t)
    ensures forall i | 0 <= i < |t| :: IsUnescaped(t[i]) || t[i] == '%' as int || IsUpperHexDigit(t[i])
    decreases |t|
  {
    if t != [] {
      var k := if IsUnescaped(t[0]) then 1 else 3;
      EncodedFormAlphabet(t[k..]);
      forall i | k <= i < |t|
        ensures IsUnescaped(t[i]) || t[i] == '%' as int || IsUpperHexDigit(t[i])
      {
        assert t[i] == t[k..][i - k];
      }
    }
  }

  /**
   * encodeURIComponent never emits a delimiter of a mailto query: no '&', '=',
   * '?' or '#' (nor any other unit outside its alphabet).
   */
  lemma EncodeHasNoDelimiters(s: JsString)
    requires Encode(s).Ok?
    ensures forall i | 0 <= i < |Encode(s).value| ::
      Encode(s).value[i] !in {'&' as int, '=' as int, '?' as int, '#' as int}
  {
    EncodeForm(s);
    EncodedFormAlphabet(Encode(s).value);
  }

  // ----- When encoding throws -----

  /** encodeURIComponent throws exactly when the string holds an unpaired surrogate. */
  lemma {:induction false} EncodeFailsIffIllFormed(s: JsString)
    ensures Encode(s).Err? <==> !IsWellFormed(s)
    decreases |s|
  {
    if s != [] {
      WellFormedFront(s);
      var cp := CodePointAt(s, 0);
      EncodeFailsIffIllFormed(s[cp.codeUnitCount..]);
      if IsUnescaped(s[0]) {
        assert cp.codeUnitCount == 1;
      }
    }
  }

  // ----- Decoding what was encoded -----

  lemma HexRoundTrip(v: int)
    requires 0 <= v < 16
    ensures HexValue(HexDigit(v)) == Some(v)
  {
  }

  /** Reading back |bs| triplets from the front of their encoding gives bs. */
  lemma {:induction false} ReadOctetsOfEncoded(bs: seq<Byte>, rest: JsString)
    ensures ReadOctets(PercentEncode(bs) + rest, |bs|) == Some(bs)
    decreases |bs|
  {
    if bs != [] {
      var t := PercentEncode(bs) + rest;
      var b := bs[0];
      HexRoundTrip(b / 16);
      HexRoundTrip(b % 16);
      assert t[1] == HexDigit(b / 16) && t[2] == HexDigit(b % 16);
      assert t[3..] == PercentEncode(bs[1..]) + rest;
      ReadOctetsOfEncoded(bs[1..], rest);
      assert [b / 16 * 16 + b % 16] + bs[1..] == bs;
    }
  }

  /**
   * The UTF-8 octets of a scalar value: their number is what the leading
   * octet announces, and decoding them gives the value back.
   */
  lemma Utf8RoundTrip(c: CodePoint)
    requires !IsSurrogate(c)
    ensures var bs := Utf8Encode(c);
      && 1 <= |bs| <= 4
      && (|bs| == 1 <==> bs[0] < 0x80)
      && (|bs| > 1 ==> LeadingOnes(bs[0]) == |bs| && Utf8Decode(bs) == Some(c))
      && (|bs| == 1 ==> bs == [c])
  {
    var bs := Utf8Encode(c);
    if c < 0x80 {
    } else if c < 0x800 {
      assert (c / 0x40) * 0x40 + c % 0x40 == c;
    } else if c < 0x1_0000 {
      var q := c / 0x40;
      assert q * 0x40 + c % 0x40 == c;
      assert (q / 0x40) * 0x40 + q % 0x40 == q;
      assert c / 0x1000 == q / 0x40;
    } else {
      var q := c / 0x40;
      var q2 := q / 0x40;
      assert q * 0x40 + c % 0x40 == c;
      assert q2 * 0x40 + q % 0x40 == q;
      assert (q2 / 0x40) * 0x40 + q2 % 0x40 == q2;
      assert c / 0x1000 == q2;
      assert c / 0x4_0000 == q2 / 0x40;
    }
  }

  /**
   * Decoding the triplets of one code point followed by anything gives the
   * UTF-16 units of that code point followed by the decoding of the rest.
   */
  lemma DecodeCodePoint(c: CodePoint, rest: JsString)
    requires !IsSurrogate(c)
    ensures Decode(PercentEncode(Utf8Encode(c)) + rest) == Prepend(EncodeCodePoint(c), Decode(rest))
  {
    var bs := Utf8Encode(c);
    var t := PercentEncode(bs) + rest;
    Utf8RoundTrip(c);
    ReadOctetsOfEncoded(bs, rest);
    ReadOctetsOfEncoded([bs[0]], PercentEncode(bs[1..]) + rest);
    assert t == PercentEncode([bs[0]]) + (PercentEncode(bs[1..]) + rest);
    assert t[0] == '%' as int;
    assert t[3 * |bs|..] == rest;
    if |bs| == 1 {
      assert t[3..] == rest;
    }
  }

  /** decodeURIComponent undoes encodeURIComponent. */
  lemma {:induction false} DecodeEncode(s: JsString)
    requires Encode(s).Ok?
    ensures Decode(Encode(s).value) == Some(s)
    decreases |s|, 1
  {
    if s != [] {
      if IsUnescaped(s[0]) {
        DecodeEncodeUnescaped(s);
      } else {
        DecodeEncodeCodePoint(s);
      }
    }
  }

  /** DecodeEncode when the first unit is copied unchanged. */
  lemma {:induction false} DecodeEncodeUnescaped(s: JsString)
    requires s != [] && IsUnescaped(s[0]) && Encode(s).Ok?
    ensures Decode(Encode(s).value) == Some(s)
    decreases |s|, 0
  {
    var t := Encode(s[1..]).value;
    assert Encode(s).value == [s[0]] + t;
    DecodeEncode(s[1..]);
    assert ([s[0]] + t)[1..] == t;
    assert [s[0]] + s[1..] == s;
  }

  /** DecodeEncode when the first code point is written as triplets. */
  lemma {:induction false} DecodeEncodeCodePoint(s: JsString)
    requires s != [] && !IsUnescaped(s[0]) && Encode(s).Ok?
    ensures Decode(Encode(s).value) == Some(s)
    decreases |s|, 0
  {
    var cp := CodePointAt(s, 0);
    var n := cp.codeUnitCount;
    var t := Encode(s[n..]).value;
    assert Encode(s).value == PercentEncode(Utf8Encode(cp.codePoint)) + t;
    CodePointAtRoundTrip(s, 0);
    DecodeEncode(s[n..]);
    DecodeCodePoint(cp.codePoint, t);
    assert s[..n] + s[n..] == s;
  }
}
