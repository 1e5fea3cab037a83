/** Decimal text of a C# `long`: `long.ToString(CultureInfo.InvariantCulture)` and
    `long.TryParse(string, out long)`, which accepts `NumberStyles.Integer` (white space
    before and after, an optional leading sign, then decimal digits) and fails on text that
    does not fit in 64 bits. */
module Int64Text {
  import opened Runtime

  predicate IsDigit(c: char) { '0' <= c <= '9' }

  predicate AllDigits(s: string) { forall i | 0 <= i < |s| :: IsDigit(s[i]) }

  /** The white space `NumberStyles.Integer` skips around a number: U+0009 to U+000D and U+0020. */
  predicate IsWhite(c: char) { c == ' ' || '\t' <= c <= '\r' }

  predicate AllWhite(s: string) { forall i | 0 <= i < |s| :: IsWhite(s[i]) }

  function DigitValue(c: char): nat
    requires IsDigit(c)
  {
    c as int - '0' as int
  }

  function DigitChar(n: nat): (c: char)
    requires n < 10
    ensures IsDigit(c) && DigitValue(c) == n
  {
    ('0' as int + n) as char
  }

  /** The number a string of decimal digits denotes, most significant digit first. */
  function DigitsValue(s: string): nat
    requires AllDigits(s)
  {
    if s == [] then 0 else 10 * DigitsValue(s[..|s| - 1]) + DigitValue(s[|s| - 1])
  }

  /** The string without its leading white space. */
  function TrimStart(s: string): (t: string)
    ensures |t| <= |s| && t == s[|s| - |t|..]
    ensures AllWhite(s[..|s| - |t|])
    ensures |t| > 0 ==> !IsWhite(t[0])
  {
    if |s| > 0 && IsWhite(s[0]) then TrimStart(s[1..]) else s
  }

  /** The string without its trailing white space. */
  function TrimEnd(s: string): (t: string)
    ensures |t| <= |s| && t == s[..|t|]
    ensures AllWhite(s[|t|..])
    ensures |t| > 0 ==> !IsWhite(t[|t| - 1])
  {
    if |s| > 0 && IsWhite(s[|s| - 1]) then TrimEnd(s[..|s| - 1]) else s
  }

  /** `long.TryParse(s, out v)`: `Some(v)` when it returns true, `None` when it returns false. */
  function TryParseInt64(s: string): (r: Option<Long>)
    ensures r.Some? ==> HasDigit(s)
    ensures r.Some? && r.value < 0 ==> HasMinus(s)
  {
    ParseWitnesses(s);
    ParseSigned(TrimEnd(TrimStart(s)))
  }

  predicate HasDigit(s: string) { exists i | 0 <= i < |s| :: IsDigit(s[i]) }

  predicate HasMinus(s: string) { exists i | 0 <= i < |s| :: s[i] == '-' }

  /** The text left after trimming is a slice of the original text. */
  lemma TrimmedAt(s: string, k: int)
    requires 0 <= k < |TrimEnd(TrimStart(s))|
    ensures |s| - |TrimStart(s)| + k < |s|
    ensures TrimEnd(TrimStart(s))[k] == s[|s| - |TrimStart(s)| + k]
  {
  }

  /** A successful parse read a digit of the text, and a negative one read its minus sign. */
  lemma ParseWitnesses(s: string)
    ensures ParseSigned(TrimEnd(TrimStart(s))).Some? ==> HasDigit(s)
    ensures ParseSigned(TrimEnd(TrimStart(s))).Some? && ParseSigned(TrimEnd(TrimStart(s))).value < 0 ==>
              HasMinus(s)
  {
    var t := TrimEnd(TrimStart(s));
    if ParseSigned(t).Some? {
      SignedShape(t);
      var k := |s| - |TrimStart(s)|;
      TrimmedAt(s, |t| - 1);
      assert IsDigit(s[k + |t| - 1]);
      if ParseSigned(t).value < 0 {
        TrimmedAt(s, 0);
        assert s[k] == '-';
      }
    }
  }

  /** Text that parses ends in a digit, and starts with `-` when its value is negative. */
  lemma SignedShape(t: string)
    requires ParseSigned(t).Some?
    ensures |t| > 0 && IsDigit(t[|t| - 1])
    ensures ParseSigned(t).value < 0 ==> t[0] == '-'
  {
    var signed := |t| > 0 && (t[0] == '-' || t[0] == '+');
    var digits := if signed then t[1..] else t;
    assert digits[|digits| - 1] == t[|t| - 1];
  }

  /** An optional sign followed by at least one digit, whose value fits in a `long`. */
  function ParseSigned(t: string): Option<Long>
  {
    var signed := |t| > 0 && (t[0] == '-' || t[0] == '+');
    var digits := if signed then t[1..] else t;
    if digits == [] || !AllDigits(digits) then None
    else
      var m: int := if signed && t[0] == '-' then -(DigitsValue(digits) as int) else DigitsValue(digits);
      if LongMin <= m <= LongMax then Some(m) else None
  }

  /** The shortest decimal digits of n. */
  function NatToString(n: nat): (s: string)
    ensures |s| > 0 && AllDigits(s)
    ensures s[0] == '0' ==> n == 0 && |s| == 1
  {
    if n < 10 then [DigitChar(n)] else NatToString(n / 10) + [DigitChar(n % 10)]
  }

  /** `v.ToString(CultureInfo.InvariantCulture)`: a minus sign for negative numbers and no
      other sign, no white space, no group separators and no leading zeros. */
  function LongToString(v: Long): (s: string)
    ensures |s| > 0 && (s[0] == '-' <==> v < 0)
    ensures v < 0 ==> |s| > 1 && AllDigits(s[1..]) && s[1] != '0'
    ensures v >= 0 ==> AllDigits(s) && (s[0] == '0' ==> s == "0")
  {
    if v < 0 then "-" + NatToString(-(v as int)) else NatToString(v)
  }

  lemma {:induction false} NatToStringValue(n: nat)
    ensures DigitsValue(NatToString(n)) == n
  {
    var s := NatToString(n);
    if n < 10 {
      assert s[..0] == [];
    } else {
      assert s[..|s| - 1] == NatToString(n / 10);
      NatToStringValue(n / 10);
    }
  }

  /** Writing a number with one more digit appends that digit. */
  lemma AppendDigit(n: nat, k: nat)
    requires n >= 1 && k < 10
    ensures NatToString(10 * n + k) == NatToString(n) + [DigitChar(k)]
  {
    assert (10 * n + k) / 10 == n && (10 * n + k) % 10 == k;
  }

  /** Reading back what `ToString` wrote gives the same number. */
  lemma LongToStringRoundTrip(v: Long)
    ensures TryParseInt64(LongToString(v)) == Some(v)
  {
    var s := LongToString(v);
    assert !IsWhite(s[0]) && !IsWhite(s[|s| - 1]);
    assert TrimStart(s) == s;
    assert TrimEnd(s) == s;
    ParseSignedOfText(v);
  }

  lemma ParseSignedOfText(v: Long)
    ensures ParseSigned(LongToString(v)) == Some(v)
  {
    var s := LongToString(v);
    if v < 0 {
      var n: nat := -(v as int);
      assert s[1..] == NatToString(n);
      NatToStringValue(n);
    } else {
      assert s == NatToString(v);
      NatToStringValue(v);
    }
  }

  lemma {:induction false} TrimStartOfWhitePrefix(w: string, x: string)
    requires AllWhite(w)
    requires |x| > 0 && !IsWhite(x[0])
    ensures TrimStart(w + x) == x
  {
    if w != [] {
      assert (w + x)[1..] == w[1..] + x;
      TrimStartOfWhitePrefix(w[1..], x);
    }
  }

  lemma {:induction false} TrimEndOfWhiteSuffix(x: string, w: string)
    requires AllWhite(w)
    requires |x| > 0 && !IsWhite(x[|x| - 1])
    ensures TrimEnd(x + w) == x
  {
    if w != [] {
      assert (x + w)[..|x + w| - 1] == x + w[..|w| - 1];
      TrimEndOfWhiteSuffix(x, w[..|w| - 1]);
    }
  }

  /** White space around a number does not change what it parses to. */
  lemma SurroundingWhiteIgnored(before: string, x: string, after: string)
    requires AllWhite(before) && AllWhite(after)
    requires |x| > 0 && !IsWhite(x[0]) && !IsWhite(x[|x| - 1])
    ensures TryParseInt64(before + x + after) == TryParseInt64(x)
  {
    assert before + x + after == before + (x + after);
    TrimStartOfWhitePrefix(before, x + after);
    TrimEndOfWhiteSuffix(x, after);
    assert TrimEnd(TrimStart(before + x + after)) == x;
    assert TrimStart(x) == x;
    assert TrimEnd(x) == x;
  }

  /** A character that is neither white space, a sign nor a digit makes the parse fail. */
  lemma ForeignCharRejected(s: string, i: int)
    requires 0 <= i < |s|
    requires !IsWhite(s[i]) && !IsDigit(s[i]) && s[i] != '-' && s[i] != '+'
    ensures TryParseInt64(s) == None
  {
    ForeignCharUnparsed(s, i);
  }

  lemma ForeignCharUnparsed(s: string, i: int)
    requires 0 <= i < |s|
    requires !IsWhite(s[i]) && !IsDigit(s[i]) && s[i] != '-' && s[i] != '+'
    ensures ParseSigned(TrimEnd(TrimStart(s))) == None
  {
    var k := ForeignCharKept(s, i);
    ForeignCharSigned(TrimEnd(TrimStart(s)), k);
  }

  /** Trimming keeps every character that is not white space. */
  lemma ForeignCharKept(s: string, i: int) returns (k: int)
    requires 0 <= i < |s| && !IsWhite(s[i])
    ensures 0 <= k < |TrimEnd(TrimStart(s))| && TrimEnd(TrimStart(s))[k] == s[i]
  {
    var w1, w2 := TrimSplit(s);
    k := MiddleIndex(s, w1, TrimEnd(TrimStart(s)), w2, i);
  }

  /** A character that is not white space, in text padded with white space, is in the middle part. */
  lemma MiddleIndex(s: string, a: string, b: string, c: string, i: int) returns (k: int)
    requires s == a + b + c && AllWhite(a) && AllWhite(c)
    requires 0 <= i < |s| && !IsWhite(s[i])
    ensures 0 <= k < |b| && b[k] == s[i]
  {
    assert forall j | 0 <= j < |a| :: s[j] == a[j];
    assert forall j | |a| + |b| <= j < |s| :: s[j] == c[j - |a| - |b|];
    k := i - |a|;
  }

  lemma ForeignCharSigned(t: string, k: int)
    requires 0 <= k < |t|
    requires !IsDigit(t[k]) && t[k] != '-' && t[k] != '+'
    ensures ParseSigned(t) == None
  {
    if k > 0 {
      assert t[1..][k - 1] == t[k];
    }
  }

  /** After its first character the trimmed text must be all digits: no second sign and no
      inner white space. */
  lemma InnerNonDigitRejected(t: string, k: int)
    requires 0 < k < |t| && !IsDigit(t[k])
    ensures ParseSigned(t) == None
  {
    assert t[1..][k - 1] == t[k];
  }

  /** Text with no white space at either end is left as it is by the trimming. */
  lemma TrimmedUnchanged(x: string)
    requires |x| > 0 && !IsWhite(x[0]) && !IsWhite(x[|x| - 1])
    ensures TrimEnd(TrimStart(x)) == x
  {
    assert TrimStart(x) == x;
  }

  /** Leading zeros do not change the value. */
  lemma {:induction false} LeadingZeroIgnored(s: string)
    requires AllDigits(s)
    ensures DigitsValue("0" + s) == DigitsValue(s)
  {
    if s != [] {
      assert ("0" + s)[..|"0" + s| - 1] == "0" + s[..|s| - 1];
      LeadingZeroIgnored(s[..|s| - 1]);
    }
  }

  /** A leading zero before the digits does not change what `long.TryParse` reads. */
  lemma LeadingZeroParse(s: string)
    requires s != [] && AllDigits(s)
    ensures TryParseInt64("0" + s) == TryParseInt64(s)
  {
    DigitsUntrimmed(s);
    LeadingZeroSigned(s);
    DigitsUntrimmed("0" + s);
  }

  /** Digits have no white space to trim. */
  lemma DigitsUntrimmed(x: string)
    requires x != [] && AllDigits(x)
    ensures TrimEnd(TrimStart(x)) == x
  {
    assert IsDigit(x[0]) && IsDigit(x[|x| - 1]);
    TrimmedUnchanged(x);
  }

  lemma LeadingZeroSigned(s: string)
    requires s != [] && AllDigits(s)
    ensures AllDigits("0" + s)
    ensures ParseSigned("0" + s) == ParseSigned(s)
  {
    assert AllDigits("0" + s);
    LeadingZeroIgnored(s);
  }

  // The grammar `NumberStyles.Integer` accepts, stated from its parts.

  /** No sign, a plus sign or a minus sign. */
  predicate IsSign(sign: string) { sign == "" || sign == "+" || sign == "-" }

  /** The value of an optional sign followed by digits. */
  function SignedValue(sign: string, ds: string): int
    requires IsSign(sign) && AllDigits(ds)
  {
    if sign == "-" then -(DigitsValue(ds) as int) else DigitsValue(ds)
  }

  /** White space, an optional sign, at least one digit and white space parse to the
      signed value of the digits exactly when it fits in a `long`. */
  lemma IntegerGrammar(w1: string, sign: string, ds: string, w2: string)
    requires AllWhite(w1) && AllWhite(w2) && IsSign(sign) && ds != [] && AllDigits(ds)
    ensures var m := SignedValue(sign, ds);
            TryParseInt64(w1 + sign + ds + w2) == (if LongMin <= m <= LongMax then Some(m) else None)
  {
    var x := sign + ds;
    assert x[|x| - 1] == ds[|ds| - 1] && IsDigit(ds[|ds| - 1]);
    assert x[0] == (if sign == "" then ds[0] else sign[0]) && IsDigit(ds[0]);
    assert w1 + sign + ds + w2 == w1 + x + w2;
    SurroundingWhiteIgnored(w1, x, w2);
    TrimmedUnchanged(x);
    SignedOfParts(sign, ds);
  }

  lemma SignedOfParts(sign: string, ds: string)
    requires IsSign(sign) && ds != [] && AllDigits(ds)
    ensures var m := SignedValue(sign, ds);
            ParseSigned(sign + ds) == (if LongMin <= m <= LongMax then Some(m) else None)
  {
    var x := sign + ds;
    if sign == "" {
      assert x == ds;
    } else {
      assert x[1..] == ds;
    }
  }

  /** Every text that parses is white space, an optional sign, at least one digit and white
      space, and its value is the signed value of those digits. */
  lemma IntegerGrammarComplete(s: string) returns (w1: string, sign: string, ds: string, w2: string)
    requires TryParseInt64(s).Some?
    ensures AllWhite(w1) && AllWhite(w2) && IsSign(sign) && ds != [] && AllDigits(ds)
    ensures s == w1 + sign + ds + w2
    ensures TryParseInt64(s).value == SignedValue(sign, ds)
  {
    var t := TrimEnd(TrimStart(s));
    w1, w2 := TrimSplit(s);
    sign, ds := SignedParts(t);
    Regroup(w1, sign, ds);
  }

  /** The text is its leading white space, the trimmed text and its trailing white space. */
  lemma TrimSplit(s: string) returns (w1: string, w2: string)
    ensures AllWhite(w1) && AllWhite(w2)
    ensures s == w1 + TrimEnd(TrimStart(s)) + w2
  {
    var u := TrimStart(s);
    var t := TrimEnd(u);
    w1 := s[..|s| - |u|];
    w2 := u[|t|..];
    Rejoin(s, |s| - |u|);
    Rejoin(u, |t|);
    Regroup(w1, t, w2);
  }

  lemma Rejoin(s: string, k: nat)
    requires k <= |s|
    ensures s == s[..k] + s[k..]
  {
  }

  lemma Regroup(a: string, b: string, c: string)
    ensures a + (b + c) == a + b + c
  {
  }

  /** Text that `ParseSigned` accepts is an optional sign followed by digits. */
  lemma SignedParts(t: string) returns (sign: string, ds: string)
    requires ParseSigned(t).Some?
    ensures IsSign(sign) && ds != [] && AllDigits(ds)
    ensures t == sign + ds
    ensures ParseSigned(t).value == SignedValue(sign, ds)
  {
    sign := if t[0] == '-' || t[0] == '+' then t[..1] else "";
    ds := t[|sign|..];
    assert t == sign + ds;
  }
}
