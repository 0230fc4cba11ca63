/** The URI handling functions the client relies on: `encodeURIComponent`
    for each path field and `encodeURI` for the base URL (ECMA-262, section
    19.2.6 "URI Handling Functions", the abstract operation Encode), and
    `decodeURIComponent` (the abstract operation Decode), which undoes them.
    Percent-encoding is that of section 2.1 of RFC 3986: each octet of the
    UTF-8 form of a code point becomes `%` and two upper-case hex digits. */
module UriEncoding {
  import opened Wrappers
  import opened JsStrings

  type Byte = b: int | 0 <= b < 0x100

  /** The exception the URI handling functions throw. */
  datatype UriError = URIError

  // ---------------------------------------------------------------------
  // Character classes

  predicate IsAsciiAlpha(u: CodeUnit) {
    0x41 <= u <= 0x5A || 0x61 <= u <= 0x7A
  }

  /** uriMark: - _ . ! ~ * ' ( ) */
  predicate IsUriMark(u: CodeUnit) {
    u in {0x2D, 0x5F, 0x2E, 0x21, 0x7E, 0x2A, 0x27, 0x28, 0x29}
  }

  /** uriUnreserved: letters, digits and marks. */
  predicate IsUriUnreserved(u: CodeUnit) {
    IsAsciiAlpha(u) || IsDigit(u) || IsUriMark(u)
  }

  /** uriReserved: ; / ? : @ & = + $ , */
  predicate IsUriReserved(u: CodeUnit) {
    u in {0x3B, 0x2F, 0x3F, 0x3A, 0x40, 0x26, 0x3D, 0x2B, 0x24, 0x2C}
  }

  /** Which of the two encoders runs: they differ only in what they leave
      as it is. */
  datatype Mode = Component | WholeUri

  /** The code units an encoder copies unchanged: for `encodeURIComponent`
      only uriUnreserved, for `encodeURI` also uriReserved and `#`. */
  predicate Unescaped(mode: Mode, u: CodeUnit) {
    match mode
    case Component => IsUriUnreserved(u)
    case WholeUri => IsUriUnreserved(u) || IsUriReserved(u) || u == 0x23
  }

  predicate IsUpperHexDigit(u: CodeUnit) {
    IsDigit(u) || 0x41 <= u <= 0x46
  }

  /** What an encoder's output is made of: the code units it leaves alone,
      and `%` (the hex digits of an escape are unreserved themselves). */
  predicate Emitted(mode: Mode, u: CodeUnit) {
    Unescaped(mode, u) || u == Percent
  }

  /** Read from the left, the string is a run of single code units other
      than `%` and escapes, each escape being `%` and two upper-case hex
      digits. */
  predicate EscapesUpperCase(e: JsString)
    decreases |e|
  {
    if |e| == 0 then true
    else if e[0] == Percent then
      |e| >= 3 && IsUpperHexDigit(e[1]) && IsUpperHexDigit(e[2]) && EscapesUpperCase(e[3..])
    else EscapesUpperCase(e[1..])
  }

  lemma {:induction false} EscapesConcat(a: JsString, b: JsString)
    requires EscapesUpperCase(a) && EscapesUpperCase(b)
    ensures EscapesUpperCase(a + b)
    decreases |a|
  {
    if |a| > 0 {
      var k := if a[0] == Percent then 3 else 1;
      assert (a + b)[k..] == a[k..] + b;
      EscapesConcat(a[k..], b);
    } else {
      assert a + b == b;
    }
  }

  // ---------------------------------------------------------------------
  // Octets

  function HexDigit(d: int): (u: CodeUnit)
    requires 0 <= d < 16
    ensures IsUpperHexDigit(u)
  {
    if d < 10 then 0x30 + d else 0x41 + (d - 10)
  }

  /** The value of a hex digit of either case. */
  function HexValue(u: CodeUnit): Option<int> {
    if IsDigit(u) then Some(u as int - 0x30)
    else if 0x41 <= u <= 0x46 then Some(u as int - 0x41 + 10)
    else if 0x61 <= u <= 0x66 then Some(u as int - 0x61 + 10)
    else None
  }

  /** `%XY`, where XY is the octet in upper-case hex. */
  function PercentByte(b: Byte): JsString {
    [Percent, HexDigit(b / 16), HexDigit(b % 16)]
  }

  function PercentBytes(bs: seq<Byte>): (r: JsString)
    ensures |r| == 3 * |bs|
    ensures forall i | 0 <= i < |r| :: r[i] == Percent || IsUpperHexDigit(r[i])
    ensures |bs| > 0 ==> IsUpperHexDigit(r[|r| - 1])
  {
    if |bs| == 0 then [] else PercentByte(bs[0]) + PercentBytes(bs[1..])
  }

  /** The UTF-8 form of a code point (Table 3-6 of the Unicode Standard). */
  function Utf8(cp: CodePoint): (bs: seq<Byte>)
    ensures 1 <= |bs| <= 4
  {
    // q1, q2, q3: the code point shifted right by 6, 12 and 18 bits
    var q1 := cp / 0x40;
    var q2 := q1 / 0x40;
    var q3 := q2 / 0x40;
    if cp < 0x80 then [cp]
    else if cp < 0x800 then [0xC0 + q1, 0x80 + cp % 0x40]
    else if cp < 0x1_0000 then [0xE0 + q2, 0x80 + q1 % 0x40, 0x80 + cp % 0x40]
    else [0xF0 + q3, 0x80 + q2 % 0x40, 0x80 + q1 % 0x40, 0x80 + cp % 0x40]
  }

  // ---------------------------------------------------------------------
  // Encoding

  /** What one code point at the head of the input becomes, and how many
      code units of the input it took. */
  datatype Step = Step(piece: JsString, width: nat)

  /** One iteration of the abstract operation Encode: copy an unescaped
      code unit, turn any other code point (a surrogate pair counts as
      one) into the percent-encoded octets of its UTF-8 form, and throw
      URIError on a surrogate that is not part of a pair. */
  function EncodeHead(mode: Mode, s: JsString): (r: Result<Step, UriError>)
    requires |s| > 0
    ensures r.Success? ==> 1 <= r.value.width <= |s| && |r.value.piece| > 0
    ensures r.Success? ==> forall i | 0 <= i < |r.value.piece| :: Emitted(mode, r.value.piece[i])
  {
    if Unescaped(mode, s[0]) then Success(Step([s[0]], 1))
    else if IsLowSurrogate(s[0]) then Failure(URIError)
    else if IsHighSurrogate(s[0]) then
      if |s| < 2 || !IsLowSurrogate(s[1]) then Failure(URIError)
      else Success(Step(PercentBytes(Utf8(CombineSurrogates(s[0], s[1]))), 2))
    else Success(Step(PercentBytes(Utf8(s[0])), 1))
  }

  /** The abstract operation Encode: the pieces of the code points, in
      order, or the first URIError. */
  function Encode(mode: Mode, s: JsString): (r: Result<JsString, UriError>)
    ensures r.Success? ==> forall i | 0 <= i < |r.value| :: Emitted(mode, r.value[i])
    decreases |s|
  {
    if |s| == 0 then Success([])
    else
      var head :- EncodeHead(mode, s);
      var rest :- Encode(mode, s[head.width..]);
      Success(head.piece + rest)
  }

  /** `encodeURIComponent(s)`. */
  function EncodeUriComponent(s: JsString): Result<JsString, UriError> {
    Encode(Component, s)
  }

  /** `encodeURI(s)`. */
  function EncodeUri(s: JsString): Result<JsString, UriError> {
    Encode(WholeUri, s)
  }

  // ---------------------------------------------------------------------
  // Decoding

  /** The octet written as `%XY` at position i, if that is what is there. */
  function ReadByte(e: JsString, i: nat): (r: Option<Byte>)
    ensures r.Some? ==> i + 2 < |e|
  {
    if i + 2 < |e| && e[i] == Percent then
      match (HexValue(e[i + 1]), HexValue(e[i + 2]))
      case (Some(hi), Some(lo)) => Some(16 * hi + lo)
      case _ => None
    else None
  }

  /** n consecutive `%XY` octets starting at position i. */
  function ReadOctets(e: JsString, i: nat, n: nat): (r: Option<seq<Byte>>)
    ensures r.Some? ==> |r.value| == n
    ensures r.Some? && n > 0 ==> i + 3 * n <= |e|
    ensures r.Some? && n > 0 ==> ReadByte(e, i) == Some(r.value[0])
    decreases n
  {
    if n == 0 then Some([])
    else
      var b :- ReadByte(e, i);
      var rest :- ReadOctets(e, i + 3, n - 1);
      Some([b] + rest)
  }

  /** The number of leading one bits of an octet (5 stands for "more than 4"),
      which is the length of the UTF-8 sequence it starts. */
  function LeadingOnes(b: Byte): nat {
    if b < 0x80 then 0
    else if b < 0xC0 then 1
    else if b < 0xE0 then 2
    else if b < 0xF0 then 3
    else if b < 0xF8 then 4
    else 5
  }

  predicate IsContinuation(b: Byte) {
    0x80 <= b < 0xC0
  }

  /** The code point a multi-octet UTF-8 sequence encodes, or None when the
      octets are not a valid encoding of one (a bad continuation octet, an
      overlong form, a surrogate, or a value past U+10FFFF). */
  function Utf8Decode(bs: seq<Byte>): Option<CodePoint>
    requires 2 <= |bs| <= 4 && LeadingOnes(bs[0]) == |bs|
  {
    if exists k | 1 <= k < |bs| :: !IsContinuation(bs[k]) then None
    else if |bs| == 2 then
      var cp := (bs[0] as int - 0xC0) * 0x40 + (bs[1] as int - 0x80);
      if cp < 0x80 then None else Some(cp)
    else if |bs| == 3 then
      var cp := (bs[0] as int - 0xE0) * 0x1000 + (bs[1] as int - 0x80) * 0x40 + (bs[2] as int - 0x80);
      if cp < 0x800 || 0xD800 <= cp < 0xE000 then None else Some(cp)
    else
      var cp := (bs[0] as int - 0xF0) * 0x4_0000 + (bs[1] as int - 0x80) * 0x1000
        + (bs[2] as int - 0x80) * 0x40 + (bs[3] as int - 0x80);
      if cp < 0x1_0000 || 0x11_0000 <= cp then None else Some(cp)
  }

  function PrependTo(p: JsString, r: Option<JsString>): Option<JsString> {
    match r
    case Some(v) => Some(p + v)
    case None => None
  }

  /** `decodeURIComponent(e)`: the abstract operation Decode with an empty
      reserved set. None is the URIError it throws. */
  function DecodeUriComponent(e: JsString): (r: Option<JsString>)
    decreases |e|
  {
    if |e| == 0 then Some([])
    else if e[0] != Percent then PrependTo([e[0]], DecodeUriComponent(e[1..]))
    else
      var b :- ReadByte(e, 0);
      var n := LeadingOnes(b);
      if n == 0 then PrependTo([b], DecodeUriComponent(e[3..]))
      else if n == 1 || n > 4 then None
      else
        var octets :- ReadOctets(e, 0, n);
        var cp :- Utf8Decode(octets);
        PrependTo(Utf16(cp), DecodeUriComponent(e[3 * n..]))
  }

  // ---------------------------------------------------------------------
  // What encoding guarantees

  /** The two encoders fail exactly on strings with an unpaired surrogate. */
  lemma {:induction false} EncodeSucceedsIffWellFormed(mode: Mode, s: JsString)
    ensures Encode(mode, s).Success? <==> WellFormed(s)
    decreases |s|
  {
    if |s| > 0 {
      if Unescaped(mode, s[0]) || !IsSurrogate(s[0]) {
        WellFormedDropUnit(s);
        EncodeSucceedsIffWellFormed(mode, s[1..]);
      } else if IsHighSurrogate(s[0]) && |s| >= 2 && IsLowSurrogate(s[1]) {
        WellFormedDropPair(s);
        EncodeSucceedsIffWellFormed(mode, s[2..]);
      } else {
        assert !PairedAt(s, 0);
      }
    }
  }

  lemma WellFormedDropUnit(s: JsString)
    requires |s| > 0 && !IsSurrogate(s[0])
    ensures WellFormed(s) <==> WellFormed(s[1..])
  {
    var t := s[1..];
    if WellFormed(s) {
      forall i | 0 <= i < |t|
        ensures PairedAt(t, i)
      {
        assert PairedAt(s, i + 1);
      }
    }
    if WellFormed(t) {
      forall i | 0 <= i < |s|
        ensures PairedAt(s, i)
      {
        if i > 0 {
          assert PairedAt(t, i - 1);
        }
      }
    }
  }

  lemma WellFormedDropPair(s: JsString)
    requires |s| >= 2 && IsHighSurrogate(s[0]) && IsLowSurrogate(s[1])
    ensures WellFormed(s) <==> WellFormed(s[2..])
  {
    var t := s[2..];
    if WellFormed(s) {
      forall i | 0 <= i < |t|
        ensures PairedAt(t, i)
      {
        assert PairedAt(s, i + 2);
      }
    }
    if WellFormed(t) {
      forall i | 0 <= i < |s|
        ensures PairedAt(s, i)
      {
        if i > 1 {
          assert PairedAt(t, i - 2);
        }
      }
    }
  }

  /** An unescaped code unit at the head is copied, and the rest encodes
      on its own. */
  lemma EncodeUnescapedHead(mode: Mode, s: JsString)
    requires |s| > 0 && Unescaped(mode, s[0])
    ensures Encode(mode, s).Success? <==> Encode(mode, s[1..]).Success?
    ensures Encode(mode, s).Success? ==> Encode(mode, s).value == [s[0]] + Encode(mode, s[1..]).value
  {
    assert EncodeHead(mode, s) == Success(Step([s[0]], 1));
  }

  /** A string made only of code units the encoder leaves alone comes out
      unchanged. */
  lemma {:induction false} EncodeUnescapedIsIdentity(mode: Mode, s: JsString)
    requires forall i | 0 <= i < |s| :: Unescaped(mode, s[i])
    ensures Encode(mode, s) == Success(s)
    decreases |s|
  {
    if |s| > 0 {
      EncodeUnescapedHead(mode, s);
      EncodeUnescapedIsIdentity(mode, s[1..]);
      assert [s[0]] + s[1..] == s;
    }
  }

  /** A prefix of code units the encoder leaves alone is copied in front of
      whatever the rest encodes to. */
  lemma {:induction false} EncodePrefix(mode: Mode, p: JsString, t: JsString)
    requires forall i | 0 <= i < |p| :: Unescaped(mode, p[i])
    ensures Encode(mode, p + t).Success? <==> Encode(mode, t).Success?
    ensures Encode(mode, t).Success? ==> Encode(mode, p + t).value == p + Encode(mode, t).value
    decreases |p|
  {
    if |p| == 0 {
      assert p + t == t;
    } else {
      var s := p + t;
      EncodeUnescapedHead(mode, s);
      assert s[1..] == p[1..] + t;
      EncodePrefix(mode, p[1..], t);
      if Encode(mode, t).Success? {
        var v := Encode(mode, t).value;
        AppendAssoc([p[0]], p[1..], v);
        assert [p[0]] + p[1..] == p;
      }
    }
  }

  /** Encoding distributes over concatenation at a code-point boundary:
      a well-formed string encodes on its own, and what follows it encodes
      as if it stood alone. Together with `EncodeHead` this fixes the output
      of the encoders for every input. */
  lemma {:induction false} EncodeConcat(mode: Mode, a: JsString, b: JsString)
    requires WellFormed(a)
    ensures Encode(mode, a).Success?
    ensures Encode(mode, a + b).Success? <==> Encode(mode, b).Success?
    ensures Encode(mode, b).Success? ==>
              Encode(mode, a + b).value == Encode(mode, a).value + Encode(mode, b).value
    decreases |a|, 1
  {
    if |a| == 0 {
      assert a + b == b;
    } else {
      EncodeHeadConcat(mode, a, b);
      EncodeConcatStep(mode, a, b, a + b, a[EncodeHead(mode, a).value.width..]);
    }
  }

  /** The inductive step of `EncodeConcat`, for `c == a + b` and `t` what
      is left of `a` after its first code point. */
  lemma {:induction false} EncodeConcatStep(mode: Mode, a: JsString, b: JsString, c: JsString, t: JsString)
    requires |a| > 0 && WellFormed(a) && EncodeHead(mode, a).Success?
    requires c == a + b && t == a[EncodeHead(mode, a).value.width..]
    ensures Encode(mode, a).Success?
    ensures Encode(mode, c).Success? <==> Encode(mode, b).Success?
    ensures Encode(mode, b).Success? ==>
              Encode(mode, c).value == Encode(mode, a).value + Encode(mode, b).value
    decreases |a|, 0
  {
    EncodeHeadConcat(mode, a, b);
    assert c[EncodeHead(mode, a).value.width..] == t + b;
    EncodeConcat(mode, t, b);
    EncodeStep(mode, a);
    EncodeStep(mode, c);
    if Encode(mode, b).Success? {
      AppendAssoc(EncodeHead(mode, a).value.piece, Encode(mode, t).value, Encode(mode, b).value);
    }
  }

  /** Concatenation is associative. */
  lemma AppendAssoc(p: JsString, x: JsString, y: JsString)
    ensures p + (x + y) == (p + x) + y
  {
  }

  /** One step of Encode: a successful head, then the rest. */
  lemma EncodeStep(mode: Mode, s: JsString)
    requires |s| > 0 && EncodeHead(mode, s).Success?
    ensures var head := EncodeHead(mode, s).value;
      && (Encode(mode, s).Success? <==> Encode(mode, s[head.width..]).Success?)
      && (Encode(mode, s).Success? ==> Encode(mode, s).value == head.piece + Encode(mode, s[head.width..]).value)
  {
  }

  /** The head of a well-formed string does not look past its end. */
  lemma EncodeHeadConcat(mode: Mode, a: JsString, b: JsString)
    requires |a| > 0 && WellFormed(a)
    ensures EncodeHead(mode, a).Success?
    ensures EncodeHead(mode, a + b) == EncodeHead(mode, a)
    ensures WellFormed(a[EncodeHead(mode, a).value.width..])
  {
    assert PairedAt(a, 0);
    assert (a + b)[0] == a[0];
    if |a| >= 2 {
      assert (a + b)[1] == a[1];
    }
    if EncodeHead(mode, a).value.width == 1 {
      WellFormedDropUnit(a);
    } else {
      WellFormedDropPair(a);
    }
  }

  /** `encodeURI` leaves every `/` of a well-formed URL in place and
      encodes the text between them on its own. */
  lemma EncodeUriKeepsSlash(a: JsString, b: JsString)
    requires WellFormed(a) && WellFormed(b)
    ensures EncodeUri(a).Success? && EncodeUri(b).Success? && EncodeUri(a + [Slash] + b).Success?
    ensures EncodeUri(a + [Slash] + b).value == EncodeUri(a).value + [Slash] + EncodeUri(b).value
  {
    EncodeSucceedsIffWellFormed(WholeUri, b);
    EncodeUnescapedHead(WholeUri, [Slash] + b);
    assert ([Slash] + b)[1..] == b;
    EncodeConcat(WholeUri, a, [Slash] + b);
    assert a + [Slash] + b == a + ([Slash] + b);
  }

  /** The octets of a code point are written as `%` and two upper-case hex
      digits each. */
  lemma {:induction false} PercentBytesEscapes(bs: seq<Byte>)
    ensures EscapesUpperCase(PercentBytes(bs))
    decreases |bs|
  {
    if |bs| > 0 {
      PercentBytesEscapes(bs[1..]);
      EscapesConcat(PercentByte(bs[0]), PercentBytes(bs[1..]));
    }
  }

  /** Every `%` an encoder emits starts an escape of two upper-case hex
      digits: `%C3%A9`, never `%c3%a9`. */
  lemma {:induction false} EncodeEscapesUpperCase(mode: Mode, s: JsString)
    requires Encode(mode, s).Success?
    ensures EscapesUpperCase(Encode(mode, s).value)
    decreases |s|
  {
    if |s| > 0 {
      var head := EncodeHead(mode, s).value;
      var rest := Encode(mode, s[head.width..]).value;
      assert Encode(mode, s).value == head.piece + rest;
      if Unescaped(mode, s[0]) {
        assert head.piece == [s[0]];
      } else if IsHighSurrogate(s[0]) {
        PercentBytesEscapes(Utf8(CombineSurrogates(s[0], s[1])));
      } else {
        PercentBytesEscapes(Utf8(s[0]));
      }
      EncodeEscapesUpperCase(mode, s[head.width..]);
      EscapesConcat(head.piece, rest);
    }
  }

  /** `encodeURIComponent` never emits `/`, so an encoded field is always a
      single path segment. */
  lemma ComponentHasNoSlash(s: JsString)
    requires EncodeUriComponent(s).Success?
    ensures Slash !in EncodeUriComponent(s).value
  {
  }

  /** An encoded string ends in `/` exactly when the original did and the
      encoder leaves `/` alone (so `encodeURI` keeps a final `/` and
      `encodeURIComponent` never ends in one). */
  lemma {:induction false} EncodeLastUnit(mode: Mode, s: JsString)
    requires |s| > 0 && Encode(mode, s).Success?
    ensures |Encode(mode, s).value| > 0
    ensures var e := Encode(mode, s).value;
      e[|e| - 1] == Slash <==> s[|s| - 1] == Slash && Unescaped(mode, Slash)
    decreases |s|
  {
    var head := EncodeHead(mode, s).value;
    var t := s[head.width..];
    var rest := Encode(mode, t).value;
    assert Encode(mode, s).value == head.piece + rest;
    if |t| > 0 {
      EncodeLastUnit(mode, t);
    } else {
      HeadLastUnit(mode, s);
    }
  }

  /** The piece of the head code point ends in `/` exactly when that code
      point is `/` and the encoder leaves `/` alone. */
  lemma HeadLastUnit(mode: Mode, s: JsString)
    requires |s| > 0 && EncodeHead(mode, s).Success?
    ensures var head := EncodeHead(mode, s).value;
      head.piece[|head.piece| - 1] == Slash <==> s[head.width - 1] == Slash && Unescaped(mode, Slash)
  {
    if !Unescaped(mode, s[0]) {
      if IsHighSurrogate(s[0]) {
        assert |Utf8(CombineSurrogates(s[0], s[1]))| > 0;
      } else {
        assert |Utf8(s[0])| > 0;
      }
    }
  }

  // ---------------------------------------------------------------------
  // Decoding undoes encoding

  lemma HexDigitValue(d: int)
    requires 0 <= d < 16
    ensures HexValue(HexDigit(d)) == Some(d)
  {
  }

  lemma ReadPercentByte(p: JsString, b: Byte, t: JsString)
    ensures ReadByte(p + PercentByte(b) + t, |p|) == Some(b)
  {
    var e := p + PercentByte(b) + t;
    assert e[|p|] == Percent && e[|p| + 1] == HexDigit(b / 16) && e[|p| + 2] == HexDigit(b % 16);
    HexDigitValue(b / 16);
    HexDigitValue(b % 16);
  }

  lemma {:induction false} ReadPercentOctets(p: JsString, bs: seq<Byte>, t: JsString)
    ensures ReadOctets(p + PercentBytes(bs) + t, |p|, |bs|) == Some(bs)
    decreases |bs|
  {
    if |bs| > 0 {
      var e := p + PercentBytes(bs) + t;
      var p' := p + PercentByte(bs[0]);
      assert e == p + PercentByte(bs[0]) + (PercentBytes(bs[1..]) + t);
      ReadPercentByte(p, bs[0], PercentBytes(bs[1..]) + t);
      assert e == p' + PercentBytes(bs[1..]) + t;
      ReadPercentOctets(p', bs[1..], t);
      assert [bs[0]] + bs[1..] == bs;
    }
  }

  /** Decoding the UTF-8 form of a code point gives the code point back. */
  lemma Utf8RoundTrip(cp: CodePoint)
    requires !(0xD800 <= cp < 0xE000)
    ensures cp < 0x80 ==> Utf8(cp) == [cp] && LeadingOnes(cp) == 0
    ensures 0x80 <= cp ==> LeadingOnes(Utf8(cp)[0]) == |Utf8(cp)|
    ensures 0x80 <= cp ==> Utf8Decode(Utf8(cp)) == Some(cp)
  {
    if 0x80 <= cp < 0x800 {
      Utf8RoundTrip2(cp);
    } else if 0x800 <= cp < 0x1_0000 {
      Utf8RoundTrip3(cp);
    } else if 0x1_0000 <= cp {
      Utf8RoundTrip4(cp);
    }
  }

  lemma Utf8RoundTrip2(cp: CodePoint)
    requires 0x80 <= cp < 0x800
    ensures LeadingOnes(Utf8(cp)[0]) == 2
    ensures Utf8Decode(Utf8(cp)) == Some(cp)
  {
    var bs := Utf8(cp);
    assert bs == [0xC0 + cp / 0x40, 0x80 + cp % 0x40];
    assert IsContinuation(bs[1]);
  }

  lemma Utf8RoundTrip3(cp: CodePoint)
    requires 0x800 <= cp < 0x1_0000 && !(0xD800 <= cp < 0xE000)
    ensures LeadingOnes(Utf8(cp)[0]) == 3
    ensures Utf8Decode(Utf8(cp)) == Some(cp)
  {
    var q1 := cp / 0x40;
    var q2 := q1 / 0x40;
    var bs := Utf8(cp);
    assert bs == [0xE0 + q2, 0x80 + q1 % 0x40, 0x80 + cp % 0x40];
    assert IsContinuation(bs[1]) && IsContinuation(bs[2]);
    assert q1 == q2 * 0x40 + q1 % 0x40;
    assert cp == q1 * 0x40 + cp % 0x40;
  }

  lemma Utf8RoundTrip4(cp: CodePoint)
    requires 0x1_0000 <= cp
    ensures LeadingOnes(Utf8(cp)[0]) == 4
    ensures Utf8Decode(Utf8(cp)) == Some(cp)
  {
    var q1 := cp / 0x40;
    var q2 := q1 / 0x40;
    var q3 := q2 / 0x40;
    var bs := Utf8(cp);
    assert bs == [0xF0 + q3, 0x80 + q2 % 0x40, 0x80 + q1 % 0x40, 0x80 + cp % 0x40];
    assert IsContinuation(bs[1]) && IsContinuation(bs[2]) && IsContinuation(bs[3]);
    assert q2 == q3 * 0x40 + q2 % 0x40;
    assert q1 == q2 * 0x40 + q1 % 0x40;
    assert cp == q1 * 0x40 + cp % 0x40;
  }

  /** Decoding the percent-encoded UTF-8 form of a code point, followed by
      anything, yields its UTF-16 form followed by the decoding of the rest. */
  lemma DecodePercentCodePoint(cp: CodePoint, t: JsString)
    requires !(0xD800 <= cp < 0xE000)
    ensures DecodeUriComponent(PercentBytes(Utf8(cp)) + t)
         == PrependTo(Utf16(cp), DecodeUriComponent(t))
  {
    Utf8RoundTrip(cp);
    if cp < 0x80 {
      DecodeSingleOctet(cp, t);
      assert PercentBytes([cp]) == PercentByte(cp);
    } else {
      DecodeMultiOctet(cp, t);
    }
  }

  /** `%XY` for an octet below 0x80 decodes to that code unit. */
  lemma DecodeSingleOctet(b: Byte, t: JsString)
    requires b < 0x80
    ensures DecodeUriComponent(PercentByte(b) + t) == PrependTo([b], DecodeUriComponent(t))
  {
    var e := PercentByte(b) + t;
    assert [] + PercentByte(b) + t == e;
    ReadPercentByte([], b, t);
    assert e[3..] == t;
  }

  /** The percent-encoded octets of a code point of two or more UTF-8
      octets decode to its UTF-16 form. */
  lemma DecodeMultiOctet(cp: CodePoint, t: JsString)
    requires 0x80 <= cp && !(0xD800 <= cp < 0xE000)
    ensures DecodeUriComponent(PercentBytes(Utf8(cp)) + t)
         == PrependTo(Utf16(cp), DecodeUriComponent(t))
  {
    var bs := Utf8(cp);
    var e := PercentBytes(bs) + t;
    Utf8RoundTrip(cp);
    assert [] + PercentBytes(bs) + t == e;
    ReadPercentOctets([], bs, t);
    assert e[3 * |bs|..] == t;
  }

  /** A code unit other than `%` decodes to itself. */
  lemma DecodePlainUnit(u: CodeUnit, t: JsString)
    requires u != Percent
    ensures DecodeUriComponent([u] + t) == PrependTo([u], DecodeUriComponent(t))
  {
    assert ([u] + t)[1..] == t;
  }

  /** The piece of the head code point, followed by anything, decodes to
      the code units it came from, followed by the decoding of the rest. */
  lemma DecodeHead(mode: Mode, s: JsString, t: JsString)
    requires |s| > 0 && EncodeHead(mode, s).Success?
    ensures var head := EncodeHead(mode, s).value;
      DecodeUriComponent(head.piece + t) == PrependTo(s[..head.width], DecodeUriComponent(t))
  {
    if Unescaped(mode, s[0]) {
      DecodePlainUnit(s[0], t);
      assert s[..1] == [s[0]];
    } else if IsHighSurrogate(s[0]) {
      DecodePercentCodePoint(CombineSurrogates(s[0], s[1]), t);
      Utf16OfPair(s[0], s[1]);
      assert s[..2] == [s[0], s[1]];
    } else {
      DecodePercentCodePoint(s[0], t);
      assert s[..1] == [s[0]];
    }
  }

  /** `decodeURIComponent` undoes both encoders. */
  lemma {:induction false} EncodeThenDecode(mode: Mode, s: JsString)
    requires Encode(mode, s).Success?
    ensures DecodeUriComponent(Encode(mode, s).value) == Some(s)
    decreases |s|
  {
    if |s| > 0 {
      var head := EncodeHead(mode, s).value;
      var t := s[head.width..];
      var rest := Encode(mode, t).value;
      assert Encode(mode, s).value == head.piece + rest;
      EncodeThenDecode(mode, t);
      DecodeHead(mode, s, rest);
      assert s[..head.width] + t == s;
    }
  }

  /** Different strings never encode alike. */
  lemma EncodeInjective(mode: Mode, a: JsString, b: JsString)
    requires Encode(mode, a).Success? && Encode(mode, b).Success?
    ensures Encode(mode, a) == Encode(mode, b) <==> a == b
  {
    if Encode(mode, a) == Encode(mode, b) {
      EncodeThenDecode(mode, a);
      EncodeThenDecode(mode, b);
    }
  }
}
