/** The scan that says whether a text is a JSON number. */
module Numbers {
  import opened Texts

  // --- section 6 of RFC 8259: number = [ minus ] int [ frac ] [ exp ] -------------

  ghost predicate Digits1(s: Text) {
    s != [] && AllDigits(s)
  }

  ghost predicate Minus(s: Text) {
    s == [] || s == [MINUS]
  }

  ghost predicate Int(s: Text) {
    s == [ZERO] || (Digits1(s) && s[0] != ZERO)
  }

  ghost predicate Frac(s: Text) {
    s == [] || (s[0] == DOT && Digits1(s[1..]))
  }

  ghost predicate Exp(s: Text) {
    s == []
    || (s[0] in [LOWER_E, UPPER_E]
        && (Digits1(s[1..]) || (|s| > 1 && s[1] in [PLUS, MINUS] && Digits1(s[2..]))))
  }

  /** text[..a] is the sign, text[a..b] the integer, text[b..c] the fraction and
      text[c..] the exponent. */
  ghost predicate SplitsAt(text: Text, a: nat, b: nat, c: nat) {
    a <= b <= c <= |text|
    && Minus(text[..a]) && Int(text[a..b]) && Frac(text[b..c]) && Exp(text[c..])
  }

  ghost predicate IsNumber(text: Text) {
    exists a: nat, b: nat, c: nat :: SplitsAt(text, a, b, c)
  }

  // --- where a scan stops ------------------------------------------------------

  /** The end of the run of digits at i. */
  ghost function RunEnd(s: Text, i: nat): (j: nat)
    requires i <= |s|
    ensures i <= j <= |s|
    decreases |s| - i
  {
    if i < |s| && IsDigit(s[i]) then RunEnd(s, i + 1) else i
  }

  lemma {:induction false} RunIsDigits(s: Text, i: nat)
    requires i <= |s|
    ensures AllDigits(s[i..RunEnd(s, i)])
    decreases |s| - i
  {
    if i < |s| && IsDigit(s[i]) {
      RunIsDigits(s, i + 1);
      assert s[i + 1..RunEnd(s, i)] == s[i..RunEnd(s, i)][1..];
    }
  }

  lemma {:induction false} RunEndIsUnique(s: Text, i: nat, j: nat)
    requires i <= j <= |s| && AllDigits(s[i..j]) && (j < |s| ==> !IsDigit(s[j]))
    ensures RunEnd(s, i) == j
    decreases j - i
  {
    if i < j {
      assert s[i] == s[i..j][0];
      assert s[i + 1..j] == s[i..j][1..];
      RunEndIsUnique(s, i + 1, j);
    }
  }

  ghost function SignEnd(t: Text): nat {
    if t != [] && t[0] == MINUS then 1 else 0
  }

  ghost function IntEnd(t: Text, a: nat): nat
    requires a <= |t|
  {
    if a < |t| && t[a] == ZERO then a + 1 else RunEnd(t, a)
  }

  ghost function FracEnd(t: Text, b: nat): nat
    requires b <= |t|
  {
    if b < |t| && t[b] == DOT then RunEnd(t, b + 1) else b
  }

  lemma SliceAt(t: Text, i: nat, j: nat, k: nat)
    requires i <= k < j <= |t|
    ensures t[i..j][k - i] == t[k]
    ensures t[i..j][k - i..] == t[k..j]
  {
  }

  lemma SignIsScanned(t: Text, a: nat, b: nat, c: nat)
    requires SplitsAt(t, a, b, c)
    ensures a == SignEnd(t) && a < b
  {
    SliceAt(t, a, b, a);
    if a > 0 { assert t[0] == t[..a][0]; }
  }

  lemma IntIsScanned(t: Text, a: nat, b: nat, c: nat)
    requires SplitsAt(t, a, b, c)
    ensures b == IntEnd(t, a)
  {
    SignIsScanned(t, a, b, c);
    SliceAt(t, a, b, a);
    if b < c { SliceAt(t, b, c, b); } else if c < |t| { SliceAt(t, c, |t|, c); assert t[c..] == t[c..|t|]; }
    if t[a] != ZERO { RunEndIsUnique(t, a, b); }
  }

  lemma FracIsScanned(t: Text, a: nat, b: nat, c: nat)
    requires SplitsAt(t, a, b, c)
    ensures c == FracEnd(t, b)
  {
    if c < |t| { SliceAt(t, c, |t|, c); assert t[c..] == t[c..|t|]; }
    if b < c {
      SliceAt(t, b, c, b);
      assert t[b..c][1..] == t[b + 1..c];
      RunEndIsUnique(t, b + 1, c);
    }
  }

  lemma ExpIsScanned(t: Text, a: nat, b: nat, c: nat)
    requires SplitsAt(t, a, b, c) && c < |t|
    ensures t[c] in [LOWER_E, UPPER_E] && ExpDigits(t, c) < |t| && RunEnd(t, ExpDigits(t, c)) == |t|
  {
    var e := t[c..];
    assert e[0] == t[c] && e[1..] == t[c + 1..];
    if |e| > 1 { assert e[1] == e[1..][0] && e[2..] == t[c + 2..]; }
    var d := ExpDigits(t, c);
    assert t[d..|t|] == t[d..];
    RunEndIsUnique(t, d, |t|);
  }

  /** A number splits in one way only: where a scan from the left stops. */
  lemma SplitIsTheScan(t: Text, a: nat, b: nat, c: nat)
    requires SplitsAt(t, a, b, c)
    ensures a == SignEnd(t) && a < b == IntEnd(t, a) && c == FracEnd(t, b)
    ensures b < c ==> c > b + 1 && t[b] == DOT
    ensures c < |t| ==> t[c] in [LOWER_E, UPPER_E] && ExpDigits(t, c) < |t| && RunEnd(t, ExpDigits(t, c)) == |t|
  {
    SignIsScanned(t, a, b, c);
    IntIsScanned(t, a, b, c);
    FracIsScanned(t, a, b, c);
    if b < c { assert t[b..c][0] == t[b] && t[b..c][1..] == t[b + 1..c]; }
    if c < |t| { ExpIsScanned(t, a, b, c); }
  }

  /** Where the exponent's digits start, its sign passed over. */
  ghost function ExpDigits(t: Text, c: nat): (d: nat)
    requires c < |t|
    ensures c < d <= |t|
  {
    if c + 1 < |t| && t[c + 1] in [PLUS, MINUS] then c + 2 else c + 1
  }

  lemma ExpIsRead(t: Text, c: nat, start: nat)
    requires c < |t| && t[c] in [LOWER_E, UPPER_E] && start == ExpDigits(t, c)
    requires start < |t| && AllDigits(t[start..|t|])
    ensures Exp(t[c..])
  {
    var e := t[c..];
    assert e[0] == t[c] && e[start - c..] == t[start..|t|];
    if start == c + 2 { assert e[1] == t[c + 1]; }
  }

  ghost predicate ScansWhole(t: Text) {
    var a := SignEnd(t);
    && a < |t| && IsDigit(t[a])
    && var b := IntEnd(t, a);
    && var c := FracEnd(t, b);
    && (b < c ==> b + 1 < c)
    && (c < |t| ==> t[c] in [LOWER_E, UPPER_E] && ExpDigits(t, c) < |t| && RunEnd(t, ExpDigits(t, c)) == |t|)
  }

  lemma NumbersScanWhole(t: Text)
    ensures IsNumber(t) <==> ScansWhole(t)
  {
    if IsNumber(t) {
      var a: nat, b: nat, c: nat :| SplitsAt(t, a, b, c);
      SplitIsTheScan(t, a, b, c);
      assert t[a..b][0] == t[a];
    }
    if ScansWhole(t) {
      var a := SignEnd(t);
      var b := IntEnd(t, a);
      var c := FracEnd(t, b);
      assert Minus(t[..a]);
      RunIsDigits(t, a);
      if t[a] == ZERO { assert t[a..b] == [ZERO]; } else { assert t[a..b][0] == t[a]; }
      if b < c { RunIsDigits(t, b + 1); assert t[b..c][0] == DOT && t[b..c][1..] == t[b + 1..c]; }
      if c < |t| { RunIsDigits(t, ExpDigits(t, c)); ExpIsRead(t, c, ExpDigits(t, c)); }
      assert SplitsAt(t, a, b, c);
    }
  }

  /** isNumber: an index moved over the text, exactly the grammar's number. */
  method ScanNumber(text: Text) returns (ok: bool)
    ensures ok <==> IsNumber(text)
  {
    NumbersScanWhole(text);
    ok := Scan(text);
  }

  method Scan(text: Text) returns (ok: bool)
    ensures ok <==> ScansWhole(text)
  {
    var i, n := 0, |text|;
    if i < n && text[i] == MINUS {
      i := i + 1;
    }
    ghost var a := i;
    assert a == SignEnd(text);
    if i < n && text[i] == ZERO {
      i := i + 1;
    } else if i < n && 49 <= text[i] <= 57 {
      i := Digits(text, i);
    } else {
      return false;
    }
    ghost var b := i;
    assert b == IntEnd(text, a);
    if i < n && text[i] == DOT {
      i := i + 1;
      var start := i;
      i := Digits(text, i);
      if i == start {
        return false;
      }
    }
    ghost var c := i;
    assert c == FracEnd(text, b);
    if i < n && text[i] in [LOWER_E, UPPER_E] {
      i := i + 1;
      if i < n && text[i] in [PLUS, MINUS] {
        i := i + 1;
      }
      var start := i;
      i := Digits(text, i);
      if i == start {
        return false;
      }
    }
    return i == n;
  }

  method Digits(text: Text, from: nat) returns (i: nat)
    requires from <= |text|
    ensures i == RunEnd(text, from) && from <= i <= |text|
  {
    i := from;
    while i < |text| && IsDigit(text[i])
      invariant from <= i <= |text| && RunEnd(text, from) == RunEnd(text, i)
    {
      i := i + 1;
    }
  }

  lemma DigitsAreANumber(s: Text, n: nat)
    requires s == FormatNat(n)
    ensures Int(s)
  {
    FormatNatReads(n);
    if s[0] == ZERO { assert FormatNat(0) == [48]; }
  }

  /** Every integer the encoder writes is in the grammar. */
  lemma IntegersAreNumbers(i: int)
    ensures IsNumber(FormatInt(i))
  {
    var t := FormatInt(i);
    var a := if i < 0 then 1 else 0;
    DigitsAreANumber(t[a..], if i < 0 then -i else i);
    assert t[a..|t|] == t[a..];
    assert SplitsAt(t, a, |t|, |t|);
  }
}
