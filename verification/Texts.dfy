/** Go strings and byte slices as sequences of bytes, and the decimal integers
    strconv writes into them and reads out of them. */
module Texts {
  datatype Option<+T> = None | Some(value: T)

  type Byte = b: int | 0 <= b < 256
  type Text = seq<Byte>

  const MINUS: Byte := 45
  const PLUS: Byte := 43
  const DOT: Byte := 46
  const ZERO: Byte := 48
  const UPPER_E: Byte := 69
  const LOWER_E: Byte := 101

  lemma Regroup<T>(a: seq<T>, b: seq<T>, c: seq<T>)
    ensures a + b + c == a + (b + c)
  {
  }

  predicate IsDigit(b: Byte) {
    48 <= b <= 57
  }

  ghost predicate AllDigits(s: Text) {
    forall k :: 0 <= k < |s| ==> IsDigit(s[k])
  }

  // --- UTF-8 -----------------------------------------------------------------

  predicate Continues(s: Text, at: nat, lo: Byte, hi: Byte) {
    at < |s| && lo <= s[at] <= hi
  }

  /** How many bytes the code point at the head of s takes, 0 when it is not one
      (table 3-7 of the Unicode standard, which utf8.Valid keeps). */
  function CodePoint(s: Text): nat
    requires s != []
  {
    var b := s[0];
    if b < 0x80 then 1
    else if 0xC2 <= b <= 0xDF && Continues(s, 1, 0x80, 0xBF) then 2
    else if 0xE0 <= b <= 0xEF
         && Continues(s, 1, if b == 0xE0 then 0xA0 else 0x80, if b == 0xED then 0x9F else 0xBF)
         && Continues(s, 2, 0x80, 0xBF) then 3
    else if 0xF0 <= b <= 0xF4
         && Continues(s, 1, if b == 0xF0 then 0x90 else 0x80, if b == 0xF4 then 0x8F else 0xBF)
         && Continues(s, 2, 0x80, 0xBF) && Continues(s, 3, 0x80, 0xBF) then 4
    else 0
  }

  predicate ValidUtf8(s: Text) {
    s == [] || (CodePoint(s) != 0 && ValidUtf8(s[CodePoint(s)..]))
  }

  lemma {:induction false} AsciiIsUtf8(s: Text)
    requires forall k :: 0 <= k < |s| ==> s[k] < 0x80
    ensures ValidUtf8(s)
  {
    if s != [] {
      AsciiIsUtf8(s[1..]);
    }
  }

  /** A code point that is no surrogate. */
  type ScalarValue = c: nat | c < 0xD800 || 0xE000 <= c < 0x11_0000

  /** The bytes of one scalar value (table 3-6 of the Unicode standard). */
  function Utf8(c: ScalarValue): (s: Text)
    ensures 1 <= |s| <= 4
  {
    if c < 0x80 then [c]
    else if c < 0x800 then [0xC0 + c / 0x40, 0x80 + c % 0x40]
    else if c < 0x1_0000 then [0xE0 + c / 0x1000, 0x80 + c / 0x40 % 0x40, 0x80 + c % 0x40]
    else [0xF0 + c / 0x4_0000, 0x80 + c / 0x1000 % 0x40, 0x80 + c / 0x40 % 0x40, 0x80 + c % 0x40]
  }

  function Utf8Of(cs: seq<ScalarValue>): Text {
    if cs == [] then [] else Utf8(cs[0]) + Utf8Of(cs[1..])
  }

  lemma Utf8IsCodePoint(c: ScalarValue, rest: Text)
    ensures CodePoint(Utf8(c) + rest) == |Utf8(c)|
  {
  }

  /** The low six bits of a byte that continues a code point. */
  function Low(b: Byte): int {
    b - 0x80
  }

  lemma Sextets(a: nat, b: nat, c: nat, d: nat)
    requires b < 0x40 && c < 0x40 && d < 0x40
    ensures var v := 0x4_0000 * a + 0x1000 * b + 0x40 * c + d;
      && v % 0x40 == d && v / 0x40 == 0x1000 * a + 0x40 * b + c && v / 0x40 % 0x40 == c
      && v / 0x1000 == 0x40 * a + b && v / 0x1000 % 0x40 == b && v / 0x4_0000 == a
  {
  }

  lemma OneByte(s: Text) returns (c: ScalarValue)
    requires s != [] && CodePoint(s) == 1
    ensures s[..1] == Utf8(c)
  {
    c := s[0];
  }

  lemma TwoBytes(s: Text) returns (c: ScalarValue)
    requires s != [] && CodePoint(s) == 2
    ensures s[..2] == Utf8(c)
  {
    var high: int := s[0];
    Sextets(0, 0, high - 0xC0, Low(s[1]));
    c := 0x40 * (high - 0xC0) + Low(s[1]);
  }

  lemma ThreeBytes(s: Text) returns (c: ScalarValue)
    requires s != [] && CodePoint(s) == 3
    ensures s[..3] == Utf8(c)
  {
    var high: int := s[0];
    Sextets(0, high - 0xE0, Low(s[1]), Low(s[2]));
    c := 0x1000 * (high - 0xE0) + 0x40 * Low(s[1]) + Low(s[2]);
  }

  lemma FourBytes(s: Text) returns (c: ScalarValue)
    requires s != [] && CodePoint(s) == 4
    ensures s[..4] == Utf8(c)
  {
    var high: int := s[0];
    Sextets(high - 0xF0, Low(s[1]), Low(s[2]), Low(s[3]));
    c := 0x4_0000 * (high - 0xF0) + 0x1000 * Low(s[1]) + 0x40 * Low(s[2]) + Low(s[3]);
  }

  lemma CodePointIsUtf8(s: Text) returns (c: ScalarValue)
    requires s != [] && CodePoint(s) != 0
    ensures CodePoint(s) <= |s| && s[..CodePoint(s)] == Utf8(c)
  {
    hide Utf8;
    match CodePoint(s)
    case 2 => c := TwoBytes(s);
    case 3 => c := ThreeBytes(s);
    case 4 => c := FourBytes(s);
    case _ => c := OneByte(s);
  }

  lemma {:induction false} Utf8IsValid(cs: seq<ScalarValue>)
    ensures ValidUtf8(Utf8Of(cs))
  {
    if cs != [] {
      Utf8IsCodePoint(cs[0], Utf8Of(cs[1..]));
      Utf8IsValid(cs[1..]);
      assert Utf8Of(cs)[|Utf8(cs[0])|..] == Utf8Of(cs[1..]);
    }
  }

  lemma {:induction false} ValidIsUtf8(s: Text) returns (cs: seq<ScalarValue>)
    requires ValidUtf8(s)
    ensures Utf8Of(cs) == s
  {
    if s == [] {
      cs := [];
    } else {
      var c := CodePointIsUtf8(s);
      var rest := ValidIsUtf8(s[CodePoint(s)..]);
      cs := [c] + rest;
      assert s == s[..CodePoint(s)] + s[CodePoint(s)..];
    }
  }

  /** A text is valid if and only if it is the bytes of scalar values, one after another: no
      form longer than it needs to be, no surrogate, nothing past U+10FFFF. */
  lemma {:induction false} Utf8Exactly(s: Text)
    ensures ValidUtf8(s) <==> exists cs: seq<ScalarValue> :: Utf8Of(cs) == s
  {
    if ValidUtf8(s) { var cs := ValidIsUtf8(s); }
    if cs: seq<ScalarValue> :| Utf8Of(cs) == s { Utf8IsValid(cs); }
  }

  // --- decimal integers --------------------------------------------------------

  /** strconv.FormatUint(n, 10). */
  function FormatNat(n: nat): Text {
    if n < 10 then [48 + n] else FormatNat(n / 10) + [48 + n % 10]
  }

  /** strconv.FormatInt(i, 10). */
  function FormatInt(i: int): Text {
    if i < 0 then [MINUS] + FormatNat(-i) else FormatNat(i)
  }

  /** The number a non-empty run of digits spells. */
  function DigitsValue(s: Text): (r: Option<nat>)
    decreases |s|
  {
    if s == [] || !IsDigit(s[|s| - 1]) then None
    else if |s| == 1 then Some(s[0] - 48)
    else match DigitsValue(s[..|s| - 1])
      case None => None
      case Some(n) => Some(10 * n + (s[|s| - 1] - 48))
  }

  /** strconv.ParseInt(s, 10, _) bounded to lo..hi: an optional sign, then digits. */
  function ParseInt(s: Text, lo: int, hi: int): Option<int> {
    var digits := if s != [] && s[0] in [MINUS, PLUS] then s[1..] else s;
    match DigitsValue(digits)
    case None => None
    case Some(n) =>
      var magnitude: int := n;
      var i := if s[0] == MINUS then -magnitude else magnitude;
      if lo <= i <= hi then Some(i) else None
  }

  /** strconv.ParseUint(s, 10, _) bounded to 0..hi: digits, no sign. */
  function ParseUint(s: Text, hi: int): Option<int> {
    match DigitsValue(s)
    case None => None
    case Some(n) => if n <= hi then Some(n) else None
  }

  lemma {:induction false} FormatNatReads(n: nat)
    ensures DigitsValue(FormatNat(n)) == Some(n)
    ensures AllDigits(FormatNat(n))
    ensures FormatNat(n) != [] && (FormatNat(n)[0] == ZERO ==> n == 0)
  {
    if n >= 10 {
      FormatNatReads(n / 10);
      assert FormatNat(n)[..|FormatNat(n)| - 1] == FormatNat(n / 10);
    }
  }

  lemma FormatIntReads(i: int, lo: int, hi: int)
    requires lo <= i <= hi
    ensures ParseInt(FormatInt(i), lo, hi) == Some(i)
    ensures i >= 0 ==> ParseUint(FormatInt(i), hi) == Some(i)
  {
    if i < 0 {
      FormatNatReads(-i);
      assert FormatInt(i)[1..] == FormatNat(-i);
    } else {
      FormatNatReads(i);
    }
  }

  lemma FormatIntInjective(i: int, j: int)
    requires FormatInt(i) == FormatInt(j)
    ensures i == j
  {
    var m := if i < j then i else j;
    var n := if i < j then j else i;
    FormatIntReads(i, m, n);
    FormatIntReads(j, m, n);
  }
}
