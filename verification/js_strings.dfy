/** JavaScript strings as the client sees them: sequences of UTF-16 code
    units. `s.length` in JavaScript is `|s|` here, and lone surrogates are
    representable, as they are in JavaScript. */
module JsStrings {

  /** One UTF-16 code unit. */
  type CodeUnit = u: int | 0 <= u < 0x1_0000

  type JsString = seq<CodeUnit>

  /** A Unicode code point (surrogates included, as ECMA-262 does). */
  type CodePoint = c: int | 0 <= c < 0x11_0000

  /** The largest integer a JavaScript number holds exactly (2^53 - 1). */
  const MaxSafeInteger: int := 0x1F_FFFF_FFFF_FFFF

  type SafeInteger = n: nat | n <= MaxSafeInteger

  const Slash: CodeUnit := 0x2F
  const Percent: CodeUnit := 0x25

  predicate IsAscii(s: string) {
    forall i | 0 <= i < |s| :: s[i] as int < 0x80
  }

  /** A string literal of the source, all of whose characters are ASCII. */
  function Ascii(s: string): (r: JsString)
    requires IsAscii(s)
    ensures |r| == |s|
    ensures forall i | 0 <= i < |s| :: r[i] == s[i] as int
  {
    seq(|s|, i requires 0 <= i < |s| => s[i] as int)
  }

  predicate IsHighSurrogate(u: CodeUnit) {
    0xD800 <= u < 0xDC00
  }

  predicate IsLowSurrogate(u: CodeUnit) {
    0xDC00 <= u < 0xE000
  }

  predicate IsSurrogate(u: CodeUnit) {
    IsHighSurrogate(u) || IsLowSurrogate(u)
  }

  /** Every leading surrogate is followed by a trailing one and every
      trailing surrogate is preceded by a leading one (ECMA-262,
      IsStringWellFormedUnicode). */
  predicate WellFormed(s: JsString) {
    forall i | 0 <= i < |s| :: PairedAt(s, i)
  }

  /** The code unit at i is not a surrogate, or is one half of a pair. */
  predicate PairedAt(s: JsString, i: nat)
    requires i < |s|
  {
    && (IsHighSurrogate(s[i]) ==> i + 1 < |s| && IsLowSurrogate(s[i + 1]))
    && (IsLowSurrogate(s[i]) ==> 0 < i && IsHighSurrogate(s[i - 1]))
  }

  /** The code point a surrogate pair stands for. */
  function CombineSurrogates(high: CodeUnit, low: CodeUnit): (cp: CodePoint)
    requires IsHighSurrogate(high) && IsLowSurrogate(low)
    ensures 0x1_0000 <= cp
  {
    0x1_0000 + (high - 0xD800) * 0x400 + (low - 0xDC00)
  }

  /** The UTF-16 encoding of a code point (ECMA-262, UTF16EncodeCodePoint). */
  function Utf16(cp: CodePoint): (r: JsString)
    ensures cp < 0x1_0000 ==> r == [cp]
    ensures 0x1_0000 <= cp ==>
              (|r| == 2 && IsHighSurrogate(r[0]) && IsLowSurrogate(r[1])
               && CombineSurrogates(r[0], r[1]) == cp)
  {
    if cp < 0x1_0000 then [cp]
    else
      var v := cp - 0x1_0000;
      [0xD800 + v / 0x400, 0xDC00 + v % 0x400]
  }

  lemma Utf16OfPair(high: CodeUnit, low: CodeUnit)
    requires IsHighSurrogate(high) && IsLowSurrogate(low)
    ensures Utf16(CombineSurrogates(high, low)) == [high, low]
  {
    var v := (high - 0xD800) * 0x400 + (low - 0xDC00);
    assert v / 0x400 == high - 0xD800;
    assert v % 0x400 == low - 0xDC00;
  }

  // ---------------------------------------------------------------------
  // Decimal rendering of non-negative integers

  predicate IsDigit(u: CodeUnit) {
    0x30 <= u <= 0x39
  }

  function DigitValue(u: CodeUnit): nat
    requires IsDigit(u)
  {
    u as int - 0x30
  }

  /** The numeric value of a string of decimal digits. */
  function DigitsValue(s: JsString): nat
    requires forall i | 0 <= i < |s| :: IsDigit(s[i])
  {
    if |s| == 0 then 0
    else 10 * DigitsValue(s[..|s| - 1]) + DigitValue(s[|s| - 1])
  }

  /** How JavaScript renders a non-negative integer below 10^21 as a string
      (Number::toString): its decimal digits, most significant first, with
      no leading zero. */
  function Decimal(n: nat): (r: JsString)
    ensures |r| >= 1
    ensures forall i | 0 <= i < |r| :: IsDigit(r[i])
    ensures r[0] == 0x30 ==> n == 0 && r == [0x30]
    decreases n
  {
    if n < 10 then [0x30 + n]
    else Decimal(n / 10) + [0x30 + n % 10]
  }

  /** Reading the rendered digits back gives the number. */
  lemma {:induction false} DecimalValue(n: nat)
    ensures DigitsValue(Decimal(n)) == n
    decreases n
  {
    if n >= 10 {
      var d := Decimal(n);
      assert d[..|d| - 1] == Decimal(n / 10);
      DecimalValue(n / 10);
    }
  }

  lemma DecimalInjective(m: nat, n: nat)
    ensures Decimal(m) == Decimal(n) <==> m == n
  {
    if Decimal(m) == Decimal(n) {
      DecimalValue(m);
      DecimalValue(n);
    }
  }

  // ---------------------------------------------------------------------
  // Splitting on, and joining with, a separator

  /** The pieces of `s` between occurrences of `sep`, as JavaScript's
      `s.split(sep)` returns them for a one-unit separator. */
  function Split(s: JsString, sep: CodeUnit): (parts: seq<JsString>)
    ensures |parts| >= 1
    ensures forall k | 0 <= k < |parts| :: sep !in parts[k]
    decreases |s|
  {
    if |s| == 0 then [[]]
    else
      var rest := Split(s[1..], sep);
      if s[0] == sep then [[]] + rest
      else [[s[0]] + rest[0]] + rest[1..]
  }

  /** The pieces, with one `sep` between each two. */
  function Join(parts: seq<JsString>, sep: CodeUnit): JsString
    requires |parts| >= 1
  {
    if |parts| == 1 then parts[0]
    else parts[0] + [sep] + Join(parts[1..], sep)
  }

  lemma {:induction false} SplitNoSep(a: JsString, t: JsString, sep: CodeUnit)
    requires sep !in a
    ensures Split(a + t, sep) == [a + Split(t, sep)[0]] + Split(t, sep)[1..]
    decreases |a|
  {
    if |a| > 0 {
      assert (a + t)[1..] == a[1..] + t;
      SplitNoSep(a[1..], t, sep);
      assert [a[0]] + (a[1..] + Split(t, sep)[0]) == a + Split(t, sep)[0];
    } else {
      assert a + t == t;
      assert a + Split(t, sep)[0] == Split(t, sep)[0];
      assert Split(t, sep) == [Split(t, sep)[0]] + Split(t, sep)[1..];
    }
  }

  /** A piece free of the separator, then the separator, starts a new piece. */
  lemma SplitAfterPiece(a: JsString, t: JsString, sep: CodeUnit)
    requires sep !in a
    ensures Split(a + [sep] + t, sep) == [a] + Split(t, sep)
  {
    SplitNoSep(a, [sep] + t, sep);
    assert a + [sep] + t == a + ([sep] + t);
    assert ([sep] + t)[1..] == t;
    assert a + [] == a;
  }

  /** Splitting undoes joining pieces that do not contain the separator. */
  lemma {:induction false} SplitJoin(parts: seq<JsString>, sep: CodeUnit)
    requires |parts| >= 1
    requires forall k | 0 <= k < |parts| :: sep !in parts[k]
    ensures Split(Join(parts, sep), sep) == parts
    decreases |parts|
  {
    if |parts| == 1 {
      SplitNoSep(parts[0], [], sep);
      assert parts[0] + [] == parts[0];
    } else {
      SplitJoin(parts[1..], sep);
      SplitAfterPiece(parts[0], Join(parts[1..], sep), sep);
      assert [parts[0]] + parts[1..] == parts;
    }
  }

  /** Joining undoes splitting. */
  lemma {:induction false} JoinSplit(s: JsString, sep: CodeUnit)
    ensures Join(Split(s, sep), sep) == s
    decreases |s|
  {
    if |s| > 0 {
      var rest := Split(s[1..], sep);
      JoinSplit(s[1..], sep);
      if s[0] == sep {
        assert Split(s, sep)[1..] == rest;
      } else {
        var parts := Split(s, sep);
        assert parts[1..] == rest[1..];
        if |rest| == 1 {
          assert Join(parts, sep) == [s[0]] + rest[0];
        } else {
          assert rest == [rest[0]] + rest[1..];
          assert Join(rest, sep) == rest[0] + [sep] + Join(rest[1..], sep);
        }
        assert s == [s[0]] + s[1..];
      }
    }
  }

  /** Splitting at one occurrence of the separator splits each side apart. */
  lemma {:induction false} SplitConcat(a: JsString, t: JsString, sep: CodeUnit)
    ensures Split(a + [sep] + t, sep) == Split(a, sep) + Split(t, sep)
    decreases |a|
  {
    if |a| == 0 {
      assert a + [sep] + t == [sep] + t;
      assert ([sep] + t)[1..] == t;
    } else {
      assert (a + [sep] + t)[1..] == a[1..] + [sep] + t;
      SplitConcat(a[1..], t, sep);
    }
  }

  lemma JoinTwo(a: JsString, b: JsString, sep: CodeUnit)
    ensures Join([a, b], sep) == a + [sep] + b
  {
    assert [a, b][1..] == [b];
  }

  lemma JoinCons(a: JsString, rest: seq<JsString>, sep: CodeUnit)
    requires |rest| >= 1
    ensures Join([a] + rest, sep) == a + [sep] + Join(rest, sep)
  {
    assert ([a] + rest)[1..] == rest;
  }
}
