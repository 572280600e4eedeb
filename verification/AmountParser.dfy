/**
 The two readers of money text: `parseAmountToken` of the backend (amountParser.ts) and
 `parse_minor_units` of the model service (payload_normalization.py). Amounts are in hundredths.
 */
module AmountParser {
  import opened Wrappers
  import opened Decimal
  import Text

  /** The characters both readers keep. */
  function Keep(token: string): string {
    if token == "" then ""
    else (if IsDigit(token[0]) || token[0] in {',', '.', '-', '+'} then [token[0]] else []) + Keep(token[1..])
  }

  function Without(s: string, c: char): string {
    if s == "" then "" else (if s[0] == c then [] else [s[0]]) + Without(s[1..], c)
  }

  function Replaced(s: string, c: char, d: char): string {
    if s == "" then "" else [if s[0] == c then d else s[0]] + Replaced(s[1..], c, d)
  }

  function LastIndex(s: string, c: char): int {
    if s == "" then -1 else if s[|s| - 1] == c then |s| - 1 else LastIndex(s[..|s| - 1], c)
  }

  /** `s.split(c).join("")`. */
  function Concat(parts: seq<string>): string {
    if parts == [] then "" else parts[0] + Concat(parts[1..])
  }

  // ----- the backend's reader

  /** Decides which separators group and which one is decimal, leaving a plain number. */
  function Plain(working: string): string {
    var commaParts, dotParts := Text.Split(working, ','), Text.Split(working, '.');
    if |commaParts| > 1 && |dotParts| > 1 then
      if LastIndex(working, '.') > LastIndex(working, ',') then Without(working, ',')
      else Replaced(Without(working, '.'), ',', '.')
    else if |commaParts| > 1 then AtLastPart(commaParts)
    else if |dotParts| > 2 then AtLastPart(dotParts)
    else if |dotParts| == 2 && |dotParts[1]| == 3 && |dotParts[0]| >= 1 then Concat(dotParts)
    else working
  }

  /** The last part is a fraction if it has at most two characters, a group otherwise. */
  function AtLastPart(parts: seq<string>): string
    requires parts != []
  {
    var n := |parts| - 1;
    if |parts[n]| <= 2 then Concat(parts[..n]) + "." + parts[n] else Concat(parts)
  }

  function ParseAmountToken(token: string): Option<int> {
    ReadKept(Keep(token))
  }

  /** `raw` is what was kept of the token. */
  function ReadKept(raw: string): Option<int> {
    if raw == "" || raw == "-" || raw == "+" then None
    else
      var working := if raw[0] in {'-', '+'} then raw[1..] else raw;
      match ReadNumber(Plain(working))
      case None => None
      case Some(n) => Some(if raw[0] == '-' then 0 - Signed(n) else Signed(n))
  }

  function Signed(n: Number): int {
    if n.negative then 0 - Hundredths(n) else Hundredths(n)
  }

  // ----- the model service's reader

  function WithoutLeadingSigns(s: string): string {
    if s != "" && s[0] in {'-', '+'} then WithoutLeadingSigns(s[1..]) else s
  }

  function PlainPython(s: string): string {
    if ',' in s && '.' in s then
      if LastIndex(s, ',') > LastIndex(s, '.') then Replaced(Without(s, '.'), ',', '.') else Without(s, ',')
    else if ',' in s then
      var parts := Text.Split(s, ',');
      if |parts| == 2 && |parts[1]| <= 2 then Replaced(s, ',', '.') else Without(s, ',')
    else s
  }

  /** `strip` is Python's `str.strip`. */
  function ParseMinorUnits(rawValue: string, strip: string -> string): Option<int> {
    var stripped := strip(rawValue);
    if stripped != "" && AllDigits(stripped) then Some(Value(stripped))
    else
      var cleaned := Keep(stripped);
      if cleaned == "" then None
      else
        var normalized := PlainPython(WithoutLeadingSigns(cleaned));
        if normalized == "" then None
        else match ReadNumber(normalized)
          case None => None
          case Some(n) =>
            if n.negative || n.mantissa == 0 then None
            else Some(if cleaned[0] == '-' then 0 - HalfEvenHundredths(n) else HalfEvenHundredths(n))
  }

  /** Python's `round`: the nearest, and the even one of two. */
  function HalfEvenHundredths(n: Number): nat {
    if n.scale <= 2 then Hundredths(n)
    else
      var shorter := Dropped(n.mantissa, n.scale - 3);
      var q, next := shorter / 10, shorter % 10;
      if next > 5 || (next == 5 && (q % 2 == 1 || !EndsInZeros(n.mantissa, n.scale - 3))) then q + 1 else q
  }

  // ----- spelled amounts

  /**
   A spelled amount: a sign, groups of digits joined by a separator, and an optional fraction of one or two
   digits behind the other separator. Only the last group must have three digits, so Western (1,234,567.89),
   Indian (12,34,567.89), European (1.234.567,89) and ungrouped spellings are all covered.
   */
  datatype Spelling = Spelling(sign: string, groups: seq<string>, separator: char, fraction: Option<string>)

  predicate WellSpelled(a: Spelling) {
    && a.sign in {"", "-", "+"}
    && a.groups != []
    && (forall i | 0 <= i < |a.groups| :: a.groups[i] != "" && AllDigits(a.groups[i]))
    && (|a.groups| > 1 ==> |a.groups[|a.groups| - 1]| == 3)
    && a.separator in {',', '.'}
    && (a.fraction.Some? ==> |a.fraction.value| in {1, 2} && AllDigits(a.fraction.value))
  }

  function Decimalizer(separator: char): char {
    if separator == ',' then '.' else ','
  }

  function Unsigned(a: Spelling): string {
    Text.Join(a.groups, [a.separator])
    + (match a.fraction case None => "" case Some(f) => [Decimalizer(a.separator)] + f)
  }

  function Spell(a: Spelling): string {
    a.sign + Unsigned(a)
  }

  /** What a spelled amount is worth, in hundredths. */
  function Magnitude(a: Spelling): nat
    requires WellSpelled(a)
  {
    ConcatIsDigits(a.groups);
    100 * Value(Concat(a.groups)) + (match a.fraction case None => 0 case Some(f) => FractionWorth(f))
  }

  /** A single digit of fraction is tenths. */
  function FractionWorth(f: string): nat
    requires AllDigits(f) && |f| in {1, 2}
  {
    if |f| == 1 then 10 * Value(f) else Value(f)
  }

  function Worth(a: Spelling): int
    requires WellSpelled(a)
  {
    if a.sign == "-" then 0 - Magnitude(a) else Magnitude(a)
  }

  // ----- facts about the string operations

  lemma {:induction false} ConcatIsDigits(parts: seq<string>)
    requires forall i | 0 <= i < |parts| :: AllDigits(parts[i])
    ensures AllDigits(Concat(parts))
    ensures parts != [] && parts[0] != "" ==> Concat(parts) != ""
  {
    if parts != [] {
      ConcatIsDigits(parts[1..]);
    }
  }

  lemma {:induction false} WithoutAppend(a: string, b: string, c: char)
    ensures Without(a + b, c) == Without(a, c) + Without(b, c)
  {
    if a == "" {
      assert a + b == b;
    } else {
      assert (a + b)[1..] == a[1..] + b;
      WithoutAppend(a[1..], b, c);
    }
  }

  lemma {:induction false} ReplacedAppend(a: string, b: string, c: char, d: char)
    ensures Replaced(a + b, c, d) == Replaced(a, c, d) + Replaced(b, c, d)
  {
    if a == "" {
      assert a + b == b;
    } else {
      assert (a + b)[1..] == a[1..] + b;
      ReplacedAppend(a[1..], b, c, d);
    }
  }

  lemma {:induction false} DigitsAreLeftAlone(s: string, c: char, d: char)
    requires AllDigits(s) && !IsDigit(c)
    ensures Without(s, c) == s && Replaced(s, c, d) == s
  {
    if s != "" {
      DigitsAreLeftAlone(s[1..], c, d);
      assert s == [s[0]] + s[1..];
    }
  }

  predicate AllKept(s: string) {
    forall i | 0 <= i < |s| :: IsDigit(s[i]) || s[i] in {',', '.', '-', '+'}
  }

  lemma {:induction false} KeepIsIdentity(s: string)
    requires AllKept(s)
    ensures Keep(s) == s
  {
    if s != "" {
      KeepIsIdentity(s[1..]);
      assert s == [s[0]] + s[1..];
    }
  }

  lemma {:induction false} WithoutSeparator(groups: seq<string>, c: char)
    requires !IsDigit(c) && forall i | 0 <= i < |groups| :: AllDigits(groups[i])
    ensures Without(Text.Join(groups, [c]), c) == Concat(groups)
  {
    if |groups| > 0 {
      DigitsAreLeftAlone(groups[0], c, c);
      if |groups| > 1 {
        WithoutSeparator(groups[1..], c);
        var rest := Text.Join(groups[1..], [c]);
        WithoutAppend(groups[0] + [c], rest, c);
        WithoutAppend(groups[0], [c], c);
        assert Without([c], c) == "";
      } else {
        assert Concat(groups[1..]) == "";
      }
    }
  }

  lemma {:induction false} JoinChars(groups: seq<string>, c: char, d: char)
    requires !IsDigit(d) && d != c && forall i | 0 <= i < |groups| :: AllDigits(groups[i])
    ensures d !in Text.Join(groups, [c])
  {
    if |groups| > 1 {
      JoinChars(groups[1..], c, d);
    }
  }

  lemma {:induction false} LastIndexIsInside(s: string, c: char)
    ensures -1 <= LastIndex(s, c) < |s|
    ensures LastIndex(s, c) == -1 <==> c !in s
  {
    if s != "" {
      LastIndexIsInside(s[..|s| - 1], c);
      assert s == s[..|s| - 1] + [s[|s| - 1]];
    }
  }

  lemma {:induction false} LastIndexBeforeDigits(a: string, b: string, c: char)
    requires AllDigits(b) && !IsDigit(c)
    ensures LastIndex(a + b, c) == LastIndex(a, c)
  {
    if b == "" {
      assert a + b == a;
    } else {
      var n := |b| - 1;
      assert (a + b)[..|a + b| - 1] == a + b[..n];
      LastIndexBeforeDigits(a, b[..n], c);
    }
  }

  lemma {:induction false} PartsOfGroups(groups: seq<string>, c: char)
    requires groups != [] && !IsDigit(c) && forall i | 0 <= i < |groups| :: AllDigits(groups[i])
    ensures Text.Split(Text.Join(groups, [c]), c) == groups
    ensures |groups| > 1 <==> c in Text.Join(groups, [c])
  {
    forall i | 0 <= i < |groups| ensures c !in groups[i] {
      DigitsDoNotSplit(groups[i], c);
    }
    Text.SplitJoin(groups, c);
    if |groups| == 1 {
      DigitsDoNotSplit(groups[0], c);
    } else {
      assert Text.Join(groups, [c])[|groups[0]|] == c;
    }
  }

  lemma {:induction false} AbsentDoesNotSplit(s: string, c: char)
    requires c !in s
    ensures Text.Split(s, c) == [s]
  {
    if s != "" {
      AbsentDoesNotSplit(s[1..], c);
      assert s == [s[0]] + s[1..];
    }
  }

  lemma {:induction false} PresentSplits(s: string, c: char)
    requires c in s
    ensures |Text.Split(s, c)| > 1
  {
    if s[0] != c {
      assert s == [s[0]] + s[1..];
      PresentSplits(s[1..], c);
    }
  }

  // ----- both readers find the plain number in every spelling

  /** The plain form of a spelled amount: all digits together, and a dot before the fraction. */
  function PlainForm(a: Spelling): string {
    Concat(a.groups) + (match a.fraction case None => "" case Some(f) => "." + f)
  }

  lemma {:induction false} SeparatorsInOrder(a: Spelling)
    requires WellSpelled(a) && a.fraction.Some? && |a.groups| > 1
    ensures var w, c, d := Unsigned(a), a.separator, Decimalizer(a.separator);
      c in w && d in w && LastIndex(w, d) > LastIndex(w, c)
  {
    var c, d, f := a.separator, Decimalizer(a.separator), a.fraction.value;
    var head := Text.Join(a.groups, [c]);
    var w := head + ([d] + f);
    PartsOfGroups(a.groups, c);
    assert w[|head|] == d;
    assert w == head + [d] + f;
    LastIndexBeforeDigits(head + [d], f, c);
    LastIndexBeforeDigits(head + [d], f, d);
    assert (head + [d])[..|head|] == head;
    LastIndexIsInside(head, c);
  }

  /** Dropping the grouping separator leaves the digits and the decimal one. */
  lemma {:induction false} WithoutGrouping(a: Spelling)
    requires WellSpelled(a) && a.fraction.Some?
    ensures Without(Unsigned(a), a.separator) == Concat(a.groups) + ([Decimalizer(a.separator)] + a.fraction.value)
  {
    var c, d, f := a.separator, Decimalizer(a.separator), a.fraction.value;
    var head := Text.Join(a.groups, [c]);
    WithoutSeparator(a.groups, c);
    WithoutAppend(head, [d] + f, c);
    WithoutAppend([d], f, c);
    DigitsAreLeftAlone(f, c, c);
    assert Without([d], c) == [d];
  }

  lemma {:induction false} CommasGroup(a: Spelling)
    requires WellSpelled(a) && a.fraction.Some? && |a.groups| > 1 && a.separator == ','
    ensures var w := Unsigned(a);
      ',' in w && '.' in w && LastIndex(w, '.') > LastIndex(w, ',') && Without(w, ',') == PlainForm(a)
  {
    SeparatorsInOrder(a);
    WithoutGrouping(a);
  }

  lemma {:induction false} DotsGroup(a: Spelling)
    requires WellSpelled(a) && a.fraction.Some? && |a.groups| > 1 && a.separator == '.'
    ensures var w := Unsigned(a);
      ',' in w && '.' in w && LastIndex(w, ',') > LastIndex(w, '.') && Replaced(Without(w, '.'), ',', '.') == PlainForm(a)
  {
    var g, f := Concat(a.groups), a.fraction.value;
    SeparatorsInOrder(a);
    WithoutGrouping(a);
    ConcatIsDigits(a.groups);
    CommaBecomesDot(g, ',', f);
    assert g + ([','] + f) == g + [','] + f;
    assert g + "." + f == g + ("." + f);
  }

  /** With two kinds of separator, dropping the grouping one and turning the other into a dot is the plain form. */
  lemma {:induction false} BothSeparators(a: Spelling)
    requires WellSpelled(a) && a.fraction.Some? && |a.groups| > 1
    ensures var w := Unsigned(a);
      && ',' in w && '.' in w
      && (a.separator == ',' ==> LastIndex(w, '.') > LastIndex(w, ',') && Without(w, ',') == PlainForm(a))
      && (a.separator == '.' ==> LastIndex(w, ',') > LastIndex(w, '.') && Replaced(Without(w, '.'), ',', '.') == PlainForm(a))
  {
    if a.separator == ',' { CommasGroup(a); } else { DotsGroup(a); }
  }

  lemma {:induction false} UngroupedParts(a: Spelling)
    requires WellSpelled(a) && a.fraction.Some? && |a.groups| == 1
    ensures var w, d := Unsigned(a), Decimalizer(a.separator);
      && w == a.groups[0] + [d] + a.fraction.value
      && Text.Split(w, d) == [a.groups[0], a.fraction.value] && d in w
      && a.separator !in w
  {
    var d, g, f := Decimalizer(a.separator), a.groups[0], a.fraction.value;
    var parts := [g, f];
    assert Text.Join(parts, [d]) == g + [d] + f by { assert parts[1..] == [f]; }
    PartsOfGroups(parts, d);
    JoinChars(parts, d, a.separator);
  }

  lemma {:induction false} UngroupedFraction(a: Spelling)
    requires WellSpelled(a) && a.fraction.Some? && |a.groups| == 1
    ensures var w, d := Unsigned(a), Decimalizer(a.separator);
      && Text.Split(w, d) == [a.groups[0], a.fraction.value] && d in w
      && a.separator !in w && Text.Split(w, a.separator) == [w]
      && PlainForm(a) == a.groups[0] + "." + a.fraction.value
      && Replaced(w, ',', '.') == PlainForm(a)
      && (a.separator == ',' ==> w == PlainForm(a))
  {
    var d, g, f := Decimalizer(a.separator), a.groups[0], a.fraction.value;
    UngroupedParts(a);
    AbsentDoesNotSplit(Unsigned(a), a.separator);
    assert a.groups[1..] == [];
    assert Concat(a.groups) == g;
    assert PlainForm(a) == g + "." + f;
    CommaBecomesDot(g, d, f);
  }

  lemma {:induction false} CommaBecomesDot(g: string, d: char, f: string)
    requires AllDigits(g) && AllDigits(f) && d in {',', '.'}
    ensures Replaced(g + [d] + f, ',', '.') == g + "." + f
  {
    DigitsAreLeftAlone(g, ',', '.');
    DigitsAreLeftAlone(f, ',', '.');
    ReplacedAppend(g + [d], f, ',', '.');
    ReplacedAppend(g, [d], ',', '.');
    assert Replaced([d], ',', '.') == ".";
  }

  lemma {:induction false} NoFraction(a: Spelling)
    requires WellSpelled(a) && a.fraction.None?
    ensures var w, d := Unsigned(a), Decimalizer(a.separator);
      && w == Text.Join(a.groups, [a.separator])
      && Text.Split(w, a.separator) == a.groups && (a.separator in w <==> |a.groups| > 1)
      && d !in w && Text.Split(w, d) == [w]
      && PlainForm(a) == Concat(a.groups)
      && Without(w, a.separator) == PlainForm(a)
      && (|a.groups| == 1 ==> w == PlainForm(a))
  {
    PartsOfGroups(a.groups, a.separator);
    JoinChars(a.groups, a.separator, Decimalizer(a.separator));
    AbsentDoesNotSplit(Unsigned(a), Decimalizer(a.separator));
    WithoutSeparator(a.groups, a.separator);
    if |a.groups| == 1 {
      assert a.groups == [a.groups[0]] && Concat(a.groups[1..]) == "";
    }
  }

  lemma {:induction false} PlainOfGroups(a: Spelling)
    requires WellSpelled(a) && a.fraction.None?
    ensures Plain(Unsigned(a)) == PlainForm(a)
  {
    NoFraction(a);
  }

  lemma {:induction false} PlainOfUngroupedFraction(a: Spelling)
    requires WellSpelled(a) && a.fraction.Some? && |a.groups| == 1
    ensures Plain(Unsigned(a)) == PlainForm(a)
  {
    UngroupedFraction(a);
    var parts := [a.groups[0], a.fraction.value];
    assert parts[..1] == [a.groups[0]] && [a.groups[0]][1..] == [];
    assert Concat(parts[..1]) == a.groups[0];
    assert AtLastPart(parts) == a.groups[0] + "." + a.fraction.value;
  }

  lemma {:induction false} PlainOfBothSeparators(a: Spelling)
    requires WellSpelled(a) && a.fraction.Some? && |a.groups| > 1
    ensures Plain(Unsigned(a)) == PlainForm(a)
  {
    BothSeparators(a);
    PresentSplits(Unsigned(a), ',');
    PresentSplits(Unsigned(a), '.');
  }

  lemma {:induction false} BackendFindsThePlainForm(a: Spelling)
    requires WellSpelled(a)
    ensures Plain(Unsigned(a)) == PlainForm(a)
  {
    if a.fraction.None? {
      PlainOfGroups(a);
    } else if |a.groups| == 1 {
      PlainOfUngroupedFraction(a);
    } else {
      PlainOfBothSeparators(a);
    }
  }

  /** The number is `hundredths`, in both runtimes. */
  predicate IsWorth(n: Option<Number>, hundredths: nat) {
    && n.Some? && !n.value.negative && (n.value.mantissa == 0 <==> hundredths == 0)
    && Hundredths(n.value) == HalfEvenHundredths(n.value) == hundredths
  }

  lemma {:induction false} ReadPlainWhole(s: string)
    requires s != "" && AllDigits(s)
    ensures IsWorth(ReadNumber(s), 100 * Value(s))
  {
    ReadDigits(s);
  }

  lemma {:induction false} Scaled(v: nat, p: nat)
    ensures p == 10 ==> v * p == 10 * v
    ensures p == 100 ==> v * p == 100 * v
  {
  }

  lemma {:induction false} TenthsAreWorth(v: nat, f: nat)
    ensures IsWorth(Some(Number(false, 10 * v + f, 1)), 100 * v + 10 * f)
    ensures IsWorth(Some(Number(false, 100 * v + f, 2)), 100 * v + f)
  {
  }

  lemma {:induction false} ReadPlainFraction(s: string, f: string)
    requires s != "" && AllDigits(s) && AllDigits(f) && |f| in {1, 2}
    ensures IsWorth(ReadNumber(s + "." + f), 100 * Value(s) + FractionWorth(f))
  {
    ReadFraction(s, f);
    SmallPowers();
    Scaled(Value(s), Pow10(|f|));
    TenthsAreWorth(Value(s), Value(f));
  }

  lemma {:induction false} ReadPlainForm(a: Spelling)
    requires WellSpelled(a)
    ensures PlainForm(a) != "" && IsDigit(PlainForm(a)[0]) && IsWorth(ReadNumber(PlainForm(a)), Magnitude(a))
  {
    ConcatIsDigits(a.groups);
    match a.fraction {
      case None =>
        assert PlainForm(a) == Concat(a.groups);
        ReadPlainWhole(Concat(a.groups));
      case Some(f) =>
        assert PlainForm(a) == Concat(a.groups) + "." + f;
        ReadPlainFraction(Concat(a.groups), f);
    }
  }

  lemma {:induction false} UnsignedShape(a: Spelling)
    requires WellSpelled(a)
    ensures AllKept(Unsigned(a)) && Unsigned(a) != "" && IsDigit(Unsigned(a)[0])
  {
    JoinIsKept(a.groups, a.separator);
  }

  lemma {:induction false} JoinIsKept(groups: seq<string>, c: char)
    requires c in {',', '.'} && groups != []
    requires forall i | 0 <= i < |groups| :: groups[i] != "" && AllDigits(groups[i])
    ensures AllKept(Text.Join(groups, [c])) && Text.Join(groups, [c]) != "" && IsDigit(Text.Join(groups, [c])[0])
  {
    if |groups| > 1 {
      JoinIsKept(groups[1..], c);
    }
  }

  lemma {:induction false} KeptUnfolds(raw: string, working: string, n: Number)
    requires raw != "" && raw != "-" && raw != "+" && working == (if raw[0] in {'-', '+'} then raw[1..] else raw)
    requires ReadNumber(Plain(working)) == Some(n)
    ensures ReadKept(raw) == Some(if raw[0] == '-' then 0 - Signed(n) else Signed(n))
  {
  }

  /** What the reader does with a token, given what it finds on the way. */
  lemma {:induction false} ParseUnfolds(token: string, working: string, n: Number)
    requires var raw := Keep(token);
      raw != "" && raw != "-" && raw != "+" && working == (if raw[0] in {'-', '+'} then raw[1..] else raw)
    requires ReadNumber(Plain(working)) == Some(n)
    ensures ParseAmountToken(token) == Some(if Keep(token)[0] == '-' then 0 - Signed(n) else Signed(n))
  {
    KeptUnfolds(Keep(token), working, n);
  }

  /** The unsigned part of a spelling reads as its magnitude. */
  lemma {:induction false} UnsignedReads(a: Spelling) returns (n: Number)
    requires WellSpelled(a)
    ensures ReadNumber(Plain(Unsigned(a))) == Some(n) && Signed(n) == Magnitude(a)
  {
    BackendFindsThePlainForm(a);
    ReadPlainForm(a);
    n := ReadNumber(PlainForm(a)).value;
  }

  lemma {:induction false} SignlessSpelling(a: Spelling)
    requires WellSpelled(a) && a.sign == ""
    ensures Keep(Spell(a)) == Unsigned(a) != "" && IsDigit(Unsigned(a)[0])
  {
    UnsignedShape(a);
    KeepIsIdentity(Unsigned(a));
    assert "" + Unsigned(a) == Unsigned(a);
  }

  lemma {:induction false} SignedSpelling(a: Spelling)
    requires WellSpelled(a) && a.sign != ""
    ensures var raw := Keep(Spell(a));
      |raw| > 1 && raw[0] == a.sign[0] && raw[0] in {'-', '+'} && raw[1..] == Unsigned(a)
  {
    UnsignedShape(a);
    KeepIsIdentity(Spell(a));
  }

  lemma {:induction false} SignlessParses(a: Spelling)
    requires WellSpelled(a) && a.sign == ""
    ensures ParseAmountToken(Spell(a)) == Some(Worth(a))
  {
    var n := UnsignedReads(a);
    SignlessSpelling(a);
    ParseUnfolds(Spell(a), Unsigned(a), n);
  }

  lemma {:induction false} SignedParses(a: Spelling)
    requires WellSpelled(a) && a.sign != ""
    ensures ParseAmountToken(Spell(a)) == Some(Worth(a))
  {
    var n := UnsignedReads(a);
    SignedSpelling(a);
    ParseUnfolds(Spell(a), Unsigned(a), n);
  }

  /** Every spelling of an amount, whatever its grouping, parses to what it is worth. */
  lemma {:induction false} SpellingsParse(a: Spelling)
    requires WellSpelled(a)
    ensures ParseAmountToken(Spell(a)) == Some(Worth(a))
  {
    if a.sign == "" { SignlessParses(a); } else { SignedParses(a); }
  }

  /** So two groupings of the same digits and fraction parse to the same amount. */
  lemma {:induction false} GroupingDoesNotMatter(a: Spelling, b: Spelling)
    requires WellSpelled(a) && WellSpelled(b)
    requires a.sign == b.sign && Concat(a.groups) == Concat(b.groups) && a.fraction == b.fraction
    ensures ParseAmountToken(Spell(a)) == ParseAmountToken(Spell(b))
  {
    SpellingsParse(a);
    SpellingsParse(b);
    SameWorth(a, b);
  }

  lemma {:induction false} SameWorth(a: Spelling, b: Spelling)
    requires WellSpelled(a) && WellSpelled(b)
    requires a.sign == b.sign && Concat(a.groups) == Concat(b.groups) && a.fraction == b.fraction
    ensures Worth(a) == Worth(b)
  {
  }

  // ----- the second reader

  /** Python reads a dot-grouped amount without fraction as something else, and a bare numeral as minor units. */
  predicate ReadAlike(a: Spelling)
    requires WellSpelled(a)
  {
    if Magnitude(a) == 0 then a.fraction.None? && |a.groups| == 1 && a.sign == ""
    else a.fraction.Some? || (|a.groups| == 1 && a.sign != "") || (|a.groups| > 1 && a.separator == ',')
  }

  lemma {:induction false} PythonFindsThePlainForm(a: Spelling)
    requires WellSpelled(a) && (a.fraction.Some? || |a.groups| == 1 || a.separator == ',')
    ensures PlainPython(Unsigned(a)) == PlainForm(a)
  {
    var w := Unsigned(a);
    if a.fraction.None? {
      NoFraction(a);
    } else if |a.groups| == 1 {
      UngroupedFraction(a);
    } else {
      BothSeparators(a);
    }
  }

  lemma {:induction false} SignsAreStripped(a: Spelling)
    requires WellSpelled(a)
    ensures WithoutLeadingSigns(Spell(a)) == Unsigned(a)
    ensures Keep(Spell(a)) == Spell(a) && (Spell(a)[0] == '-' <==> a.sign == "-")
    ensures AllDigits(Spell(a)) <==> a.sign == "" && |a.groups| == 1 && a.fraction.None?
  {
    var raw, w := Spell(a), Unsigned(a);
    UnsignedShape(a);
    KeepIsIdentity(raw);
    assert a.sign == "" ==> raw == w;
    assert a.sign != "" ==> raw[1..] == w && raw[0] == a.sign[0];
    if a.fraction.Some? {
      assert raw[|a.sign| + |Text.Join(a.groups, [a.separator])|] == Decimalizer(a.separator);
    } else if |a.groups| > 1 {
      assert w[|a.groups[0]|] == a.separator;
      assert raw[|a.sign| + |a.groups[0]|] == a.separator;
    }
  }

  /** What the second reader does with a token that is no bare numeral, given what it finds on the way. */
  lemma {:induction false} ParsePythonUnfolds(token: string, strip: string -> string, n: Number)
    requires strip(token) == token && !AllDigits(token) && Keep(token) != ""
    requires PlainPython(WithoutLeadingSigns(Keep(token))) != ""
    requires ReadNumber(PlainPython(WithoutLeadingSigns(Keep(token)))) == Some(n)
    ensures ParseMinorUnits(token, strip) ==
      if n.negative || n.mantissa == 0 then None
      else Some(if Keep(token)[0] == '-' then 0 - HalfEvenHundredths(n) else HalfEvenHundredths(n))
  {
  }

  lemma {:induction false} SpellIsNotEmpty(a: Spelling)
    requires WellSpelled(a)
    ensures Spell(a) != ""
  {
    UnsignedShape(a);
  }

  lemma {:induction false} PythonFindsTheNumber(a: Spelling) returns (n: Number)
    requires WellSpelled(a)
    requires a.fraction.Some? || |a.groups| == 1 || a.separator == ','
    ensures var normalized := PlainPython(WithoutLeadingSigns(Keep(Spell(a))));
      normalized != "" && ReadNumber(normalized) == Some(n)
    ensures !n.negative && (n.mantissa == 0 <==> Magnitude(a) == 0) && HalfEvenHundredths(n) == Magnitude(a)
  {
    SignsAreStripped(a);
    PythonFindsThePlainForm(a);
    ReadPlainForm(a);
    n := ReadNumber(PlainForm(a)).value;
  }

  lemma {:induction false} PythonReadsThePlainForm(a: Spelling, strip: string -> string)
    requires WellSpelled(a) && strip(Spell(a)) == Spell(a)
    requires a.fraction.Some? || |a.groups| == 1 || a.separator == ','
    requires !AllDigits(Spell(a))
    ensures ParseMinorUnits(Spell(a), strip) == if Magnitude(a) == 0 then None else Some(Worth(a))
  {
    var n := PythonFindsTheNumber(a);
    SpellIsNotEmpty(a);
    SignsAreStripped(a);
    ParsePythonUnfolds(Spell(a), strip, n);
  }

  lemma {:induction false} PythonOnDots(a: Spelling, strip: string -> string)
    requires WellSpelled(a) && strip(Spell(a)) == Spell(a)
    requires a.fraction.None? && |a.groups| > 1 && a.separator == '.'
    ensures PlainPython(WithoutLeadingSigns(Keep(Spell(a)))) == Text.Join(a.groups, ".")
    ensures !AllDigits(Spell(a)) && Text.Split(Text.Join(a.groups, "."), '.') == a.groups
    ensures Text.Join(a.groups, ".") != "" && IsDigit(Text.Join(a.groups, ".")[0])
  {
    SignsAreStripped(a);
    NoFraction(a);
    UnsignedShape(a);
  }

  lemma {:induction false} OneDotReadsThousandths(g: string, h: string)
    requires g != "" && AllDigits(g) && AllDigits(h) && |h| == 3
    ensures AllDigits(g + h)
    ensures ReadNumber(g + "." + h) == Some(Number(false, Value(g + h), 3))
    ensures var n := Number(false, Value(g + h), 3); n.mantissa > 0 ==> HalfEvenHundredths(n) < 100 * Value(g + h)
  {
    ReadFraction(g, h);
    ValueConcat(g, h);
    SmallPowers();
  }

  lemma {:induction false} ManyDotsReadNothing(s: string)
    requires |Text.Split(s, '.')| > 2 && s != "" && IsDigit(s[0])
    ensures ReadNumber(s) == None
  {
  }

  lemma {:induction false} ConcatOfTwo(groups: seq<string>)
    requires |groups| == 2
    ensures Concat(groups) == groups[0] + groups[1]
    ensures Text.Join(groups, ".") == groups[0] + "." + groups[1]
  {
    assert groups[1..] == [groups[1]] && groups[1..][1..] == [];
    assert Concat(groups[1..]) == groups[1] + Concat([]) == groups[1];
  }

  /** A single dot group reads as thousandths, two or more as no number. */
  lemma {:induction false} PythonMisreadsDotGroups(a: Spelling, strip: string -> string)
    requires WellSpelled(a) && strip(Spell(a)) == Spell(a)
    requires a.fraction.None? && |a.groups| > 1 && a.separator == '.'
    ensures ParseMinorUnits(Spell(a), strip) != Some(Worth(a))
  {
    PythonOnDots(a, strip);
    if |a.groups| == 2 {
      ConcatOfTwo(a.groups);
      OneDotReadsThousandths(a.groups[0], a.groups[1]);
    } else {
      ManyDotsReadNothing(Text.Join(a.groups, "."));
    }
  }

  lemma {:induction false} PythonReadsOthers(a: Spelling, strip: string -> string)
    requires WellSpelled(a) && strip(Spell(a)) == Spell(a)
    requires a.fraction.Some? || |a.groups| == 1 || a.separator == ','
    requires a.fraction.Some? || |a.groups| > 1 || a.sign != ""
    ensures ParseMinorUnits(Spell(a), strip) == if Magnitude(a) == 0 then None else Some(Worth(a))
  {
    SignsAreStripped(a);
    PythonReadsThePlainForm(a, strip);
  }

  lemma {:induction false} BareNumeralUnfolds(token: string, strip: string -> string)
    requires strip(token) == token && token != "" && AllDigits(token)
    ensures ParseMinorUnits(token, strip) == Some(Value(token))
  {
  }

  lemma {:induction false} PythonReadsBareNumerals(a: Spelling, strip: string -> string)
    requires WellSpelled(a) && strip(Spell(a)) == Spell(a)
    requires a.fraction.None? && |a.groups| == 1 && a.sign == ""
    ensures AllDigits(Spell(a)) && Magnitude(a) == 100 * Value(Spell(a))
    ensures ParseMinorUnits(Spell(a), strip) == Some(Value(Spell(a)))
  {
    BareNumeral(a);
    SpellIsNotEmpty(a);
    BareNumeralUnfolds(Spell(a), strip);
  }

  lemma {:induction false} BareNumeral(a: Spelling)
    requires WellSpelled(a) && a.fraction.None? && |a.groups| == 1 && a.sign == ""
    ensures Spell(a) == Concat(a.groups) && AllDigits(Concat(a.groups)) && Magnitude(a) == 100 * Value(Concat(a.groups))
  {
    NoFraction(a);
    ConcatIsDigits(a.groups);
    assert Spell(a) == Unsigned(a) == Concat(a.groups);
  }

  ghost predicate AgreeIff(a: Spelling, strip: string -> string)
    requires WellSpelled(a)
  {
    ParseMinorUnits(Spell(a), strip) == ParseAmountToken(Spell(a)) <==> ReadAlike(a)
  }

  lemma {:induction false} DotGroupsAgreeIff(a: Spelling, strip: string -> string)
    requires WellSpelled(a) && strip(Spell(a)) == Spell(a)
    requires a.fraction.None? && |a.groups| > 1 && a.separator == '.'
    ensures AgreeIff(a, strip)
  {
    SpellingsParse(a);
    PythonMisreadsDotGroups(a, strip);
  }

  lemma {:induction false} BareNumeralsAgreeIff(a: Spelling, strip: string -> string)
    requires WellSpelled(a) && strip(Spell(a)) == Spell(a)
    requires a.fraction.None? && |a.groups| == 1 && a.sign == ""
    ensures AgreeIff(a, strip)
  {
    SpellingsParse(a);
    PythonReadsBareNumerals(a, strip);
  }

  lemma {:induction false} OthersAgreeIff(a: Spelling, strip: string -> string)
    requires WellSpelled(a) && strip(Spell(a)) == Spell(a)
    requires a.fraction.Some? || |a.groups| == 1 || a.separator == ','
    requires a.fraction.Some? || |a.groups| > 1 || a.sign != ""
    ensures AgreeIff(a, strip)
  {
    SpellingsParse(a);
    PythonReadsOthers(a, strip);
  }

  /**
   The exact extent of the agreement between the two readers on spelled amounts: a non-zero amount with
   a two-digit fraction always agrees, one without only when it is comma-grouped, or ungrouped and signed.
   */
  lemma {:induction false} ReadersAgreeIff(a: Spelling, strip: string -> string)
    requires WellSpelled(a) && strip(Spell(a)) == Spell(a)
    ensures ParseMinorUnits(Spell(a), strip) == ParseAmountToken(Spell(a)) <==> ReadAlike(a)
  {
    if a.fraction.None? && |a.groups| > 1 && a.separator == '.' {
      DotGroupsAgreeIff(a, strip);
    } else if a.fraction.None? && |a.groups| == 1 && a.sign == "" {
      BareNumeralsAgreeIff(a, strip);
    } else {
      OthersAgreeIff(a, strip);
    }
  }

  // ----- what stands around an amount, and a separator that is both

  /** No character a reader keeps: no digit, comma, dot or sign. */
  predicate NoneKept(s: string) {
    forall i | 0 <= i < |s| :: !IsDigit(s[i]) && s[i] !in {',', '.', '-', '+'}
  }

  function KeptCharacter(c: char): string {
    if IsDigit(c) || c in {',', '.', '-', '+'} then [c] else []
  }

  lemma {:induction false} KeepCons(c: char, s: string)
    ensures Keep([c] + s) == KeptCharacter(c) + Keep(s)
  {
    assert ([c] + s)[1..] == s;
  }

  lemma {:induction false} KeepAppend(a: string, b: string)
    ensures Keep(a + b) == Keep(a) + Keep(b)
  {
    if a == "" {
      assert a + b == b;
    } else {
      KeepAppend(a[1..], b);
      KeepCons(a[0], a[1..]);
      KeepCons(a[0], a[1..] + b);
      assert a == [a[0]] + a[1..] && a + b == [a[0]] + (a[1..] + b);
    }
  }

  lemma {:induction false} KeepNone(s: string)
    requires NoneKept(s)
    ensures Keep(s) == ""
  {
    if s != "" {
      KeepNone(s[1..]);
    }
  }

  lemma {:induction false} ParseLooksAtKept(token: string, other: string)
    requires Keep(token) == Keep(other)
    ensures ParseAmountToken(token) == ParseAmountToken(other)
  {
  }

  /** A currency name, spaces or brackets around a spelled amount do not matter. */
  lemma {:induction false} SurroundedSpellingParses(before: string, a: Spelling, after: string)
    requires WellSpelled(a) && NoneKept(before) && NoneKept(after)
    ensures ParseAmountToken(before + Spell(a) + after) == Some(Worth(a))
  {
    KeepAppend(before + Spell(a), after);
    KeepAppend(before, Spell(a));
    KeepNone(before);
    KeepNone(after);
    SignsAreStripped(a);
    assert "" + Spell(a) == Spell(a) && Spell(a) + "" == Spell(a);
    ParseLooksAtKept(before + Spell(a) + after, Spell(a));
    SpellingsParse(a);
  }

  lemma {:induction false} JoinedShape(parts: seq<string>, c: char)
    requires c in {',', '.'} && parts != []
    requires forall i | 0 <= i < |parts| :: parts[i] != "" && AllDigits(parts[i])
    ensures var token := Text.Join(parts, [c]); Keep(token) == token != "" && IsDigit(token[0])
  {
    JoinIsKept(parts, c);
    KeepIsIdentity(Text.Join(parts, [c]));
  }

  lemma {:induction false} ShortLastPartReads(groups: seq<string>, f: string, c: char) returns (n: Number)
    requires groups != [] && c in {',', '.'} && |f| in {1, 2} && AllDigits(f)
    requires forall i | 0 <= i < |groups| :: groups[i] != "" && AllDigits(groups[i])
    ensures AllDigits(Concat(groups)) && ReadNumber(Plain(Text.Join(groups + [f], [c]))) == Some(n)
    ensures Signed(n) == 100 * Value(Concat(groups)) + FractionWorth(f)
  {
    ConcatIsDigits(groups);
    ShortLastPartIsPlain(groups, f, c);
    ReadPlainFraction(Concat(groups), f);
    n := ReadNumber(Concat(groups) + "." + f).value;
  }

  /** Where one separator joins all parts, a last part of one or two digits is the fraction. */
  lemma {:induction false} ShortLastPartIsFraction(groups: seq<string>, f: string, c: char)
    requires groups != [] && c in {',', '.'} && |f| in {1, 2} && AllDigits(f)
    requires forall i | 0 <= i < |groups| :: groups[i] != "" && AllDigits(groups[i])
    ensures AllDigits(Concat(groups))
    ensures ParseAmountToken(Text.Join(groups + [f], [c])) == Some(100 * Value(Concat(groups)) + FractionWorth(f))
  {
    var token := Text.Join(groups + [f], [c]);
    var n := ShortLastPartReads(groups, f, c);
    JoinedShape(groups + [f], c);
    ParseUnfolds(token, token, n);
  }

  lemma {:induction false} ShortLastPartIsPlain(groups: seq<string>, f: string, c: char)
    requires groups != [] && c in {',', '.'} && |f| in {1, 2} && AllDigits(f)
    requires forall i | 0 <= i < |groups| :: groups[i] != "" && AllDigits(groups[i])
    ensures Plain(Text.Join(groups + [f], [c])) == Concat(groups) + "." + f
  {
    var parts := groups + [f];
    var token, d := Text.Join(parts, [c]), Decimalizer(c);
    PartsOfGroups(parts, c);
    JoinChars(parts, c, d);
    AbsentDoesNotSplit(token, d);
    assert parts[..|groups|] == groups;
    if c == '.' && |groups| == 1 {
      assert Text.Join(parts, ".") == groups[0] + "." + f by { assert parts[1..] == [f]; }
      assert groups == [groups[0]];
      assert Concat(groups) == groups[0] by { assert groups[1..] == []; }
    }
  }

  lemma {:induction false} SpelledRupees(a: Spelling)
    requires a == Spelling("", ["1", "234"], ',', Some("50"))
    ensures WellSpelled(a) && Spell(a) == "1,234.50"
  {
    assert Text.Join(["1", "234"], ",") == "1" + "," + "234" by { assert ["1", "234"][1..] == ["234"]; }
    assert "1" + "," + "234" == "1,234" && "1,234" + ("." + "50") == "1,234.50";
  }

  lemma {:induction false} ValueOfDigits()
    ensures AllDigits("1234") && Value("1234") == 1234
  {
    ValueSnoc("", '1');
    ValueSnoc("1", '2');
    ValueSnoc("12", '3');
    ValueSnoc("123", '4');
    assert "" + ['1'] == "1" && "1" + ['2'] == "12" && "12" + ['3'] == "123" && "123" + ['4'] == "1234";
  }

  lemma {:induction false} ValueOfFraction()
    ensures AllDigits("50") && Value("50") == 50
  {
    ValueSnoc("", '5');
    ValueSnoc("5", '0');
    assert "" + ['5'] == "5" && "5" + ['0'] == "50";
  }

  lemma {:induction false} ConcatOfGroups()
    ensures Concat(["1", "234"]) == "1234"
  {
    assert ["1", "234"][1..] == ["234"] && ["234"][1..] == [];
    assert Concat(["234"]) == "234" + "" == "234";
    assert "1" + "234" == "1234";
  }

  lemma {:induction false} WorthOfRupees(a: Spelling)
    requires a == Spelling("", ["1", "234"], ',', Some("50")) && WellSpelled(a)
    ensures Worth(a) == 123_450
  {
    ConcatOfGroups();
    ValueOfDigits();
    ValueOfFraction();
  }

  /** An amount behind the currency's name. */
  lemma {:induction false} RupeesWithWordsParse()
    ensures ParseAmountToken("Rs " + "1,234.50" + "") == Some(123_450)
  {
    var a := Spelling("", ["1", "234"], ',', Some("50"));
    SpelledRupees(a);
    WorthOfRupees(a);
    SurroundedSpellingParses("Rs ", a, "");
  }

  /** A token with nothing to read in it is no amount. */
  lemma {:induction false} NothingIsNoAmount(token: string, sign: string)
    requires NoneKept(token) && sign in {"", "-", "+"}
    ensures ParseAmountToken(sign + token) == None
  {
    KeepAppend(sign, token);
    KeepNone(token);
    KeepIsIdentity(sign);
    assert sign + "" == sign;
  }
}
