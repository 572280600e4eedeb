/** How tokens that are no usual spelling of an amount are read (amountParser.ts, payload_normalization.py). */
module AmountTokens {
  import opened Wrappers
  import opened Decimal
  import opened AmountParser
  import Text

  predicate IsSign(s: string) {
    s == "-" || s == "+"
  }

  lemma {:induction false} DigitsAreKept(s: string)
    requires AllDigits(s)
    ensures AllKept(s)
  {
  }

  /** Digits, a dot or a sign in front: what the reader decides about separators changes nothing. */
  lemma {:induction false} PlainIsItself(s: string)
    requires ',' !in s && (|Text.Split(s, '.')| == 1 || (|Text.Split(s, '.')| == 2 && |Text.Split(s, '.')[1]| != 3))
    ensures Plain(s) == s
  {
    AbsentDoesNotSplit(s, ',');
  }

  lemma {:induction false} SignedDigits(second: string, digits: string)
    requires IsSign(second) && digits != "" && AllDigits(digits)
    ensures Plain(second + digits) == second + digits
    ensures ReadNumber(second + digits) == Some(Number(second == "-", Value(digits), 0))
  {
    var s := second + digits;
    DigitsDoNotSplit(digits, ',');
    DigitsDoNotSplit(digits, '.');
    Text.SplitPrefix(second, '.', digits);
    assert ',' !in s;
    assert Text.Split(s, '.') == [s];
    PlainIsItself(s);
    assert s[1..] == digits && s[0] == second[0];
  }

  lemma {:induction false} TwoSigns(first: string, second: string, digits: string)
    requires IsSign(first) && IsSign(second) && digits != "" && AllDigits(digits)
    ensures var token := first + (second + digits);
      Keep(token) == token && |token| > 1 && token[0] == first[0] && token[1..] == second + digits
  {
    KeepIsIdentity(first + (second + digits));
  }

  /** Of two signs each counts. */
  lemma {:induction false} TwoSignsCount(first: string, second: string, digits: string)
    requires IsSign(first) && IsSign(second) && digits != "" && AllDigits(digits)
    ensures ParseAmountToken(first + (second + digits)) ==
      Some(if first == second then 100 * Value(digits) else 0 - 100 * Value(digits))
  {
    var n := Number(second == "-", Value(digits), 0);
    TwoSigns(first, second, digits);
    SignedDigits(second, digits);
    ParseUnfolds(first + (second + digits), second + digits, n);
  }

  lemma {:induction false} SplitAtDot(a: string, b: string)
    requires AllDigits(a) && AllDigits(b)
    ensures Text.Split(a + "." + b, '.') == [a, b] && ',' !in a + "." + b
  {
    DigitsDoNotSplit(a, '.');
    DigitsDoNotSplit(b, '.');
    DigitsDoNotSplit(a, ',');
    DigitsDoNotSplit(b, ',');
    assert a + "." + b == a + (['.'] + b);
    Text.SplitPrefix(a, '.', ['.'] + b);
    assert (['.'] + b)[1..] == b && a + "" == a;
  }

  lemma {:induction false} ReadAtDot(a: string, b: string)
    requires AllDigits(a) && AllDigits(b) && a + b != ""
    ensures AllDigits(a + b)
    ensures ReadNumber(a + "." + b) == Some(Number(false, Value(a + b), |b|))
  {
    SplitAtDot(a, b);
    ValueConcat(a, b);
    var s := a + "." + b;
    assert s[0] == if a == "" then '.' else a[0];
  }

  lemma {:induction false} DottedShape(a: string, b: string)
    requires AllDigits(a) && AllDigits(b) && a + b != ""
    ensures var s := a + "." + b;
      Keep(s) == s && |s| > 1 && s[0] !in {'-', '+'}
  {
    var s := a + "." + b;
    KeepIsIdentity(s);
    assert s[0] == if a == "" then '.' else a[0];
  }

  lemma {:induction false} DottedNumber(a: string, b: string)
    requires AllDigits(a) && AllDigits(b) && a + b != "" && (a == "" || |b| != 3)
    ensures AllDigits(a + b) && ReadNumber(Plain(a + "." + b)) == Some(Number(false, Value(a + b), |b|))
  {
    ReadAtDot(a, b);
    PlainAtDot(a, b);
  }

  lemma {:induction false} DottedTokenParses(a: string, b: string)
    requires AllDigits(a) && AllDigits(b) && a + b != "" && (a == "" || |b| != 3)
    ensures AllDigits(a + b)
    ensures ParseAmountToken(a + "." + b) == Some(Hundredths(Number(false, Value(a + b), |b|)))
  {
    DottedShape(a, b);
    DottedNumber(a, b);
    ParseUnfolds(a + "." + b, a + "." + b, Number(false, Value(a + b), |b|));
  }

  lemma {:induction false} PlainAtDot(a: string, b: string)
    requires AllDigits(a) && AllDigits(b) && (a == "" || |b| != 3)
    ensures Plain(a + "." + b) == a + "." + b
  {
    SplitAtDot(a, b);
    AbsentDoesNotSplit(a + "." + b, ',');
  }

  /** A fraction alone is less than one: one or two digits as they stand, three rounded, the half up. */
  lemma {:induction false} FractionAloneParses(f: string)
    requires AllDigits(f) && |f| in {1, 2, 3}
    ensures ParseAmountToken("." + f) == Some(if |f| == 1 then 10 * Value(f) else if |f| == 2 then Value(f) else (Value(f) + 5) / 10)
  {
    assert "" + f == f && "" + "." + f == "." + f;
    DottedTokenParses("", f);
    SmallFraction(Value(f));
  }

  lemma {:induction false} SmallFraction(v: nat)
    ensures Hundredths(Number(false, v, 1)) == 10 * v
    ensures Hundredths(Number(false, v, 2)) == v
    ensures Hundredths(Number(false, v, 3)) == (v + 5) / 10
  {
    assert Dropped(v, 0) == v;
  }

  /** A dot at the end changes nothing. */
  lemma {:induction false} TrailingDotParses(digits: string)
    requires AllDigits(digits) && digits != ""
    ensures ParseAmountToken(digits + "." + "") == Some(100 * Value(digits))
  {
    DottedTokenParses(digits, "");
    assert digits + "" == digits;
  }

  /** A dot alone is no amount. */
  lemma {:induction false} DotAloneIsNoAmount(token: string)
    requires token == "."
    ensures ParseAmountToken(token) == None
  {
    KeepIsIdentity(token);
    SplitAtDot("", "");
    assert "" + "." + "" == ".";
    PlainAtDot("", "");
  }

  /** The second reader sees no amount in a token without digits, separators and signs. */
  lemma {:induction false} PythonReadsNothing(token: string, strip: string -> string)
    requires NoneKept(strip(token))
    ensures ParseMinorUnits(token, strip) == None
  {
    KeepNone(strip(token));
    if strip(token) != "" {
      assert !IsDigit(strip(token)[0]);
    }
  }
}
