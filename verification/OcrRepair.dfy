/**
 The repair of amounts to which OCR has prefixed a digit (amountParser.ts): a leading 5 to 9 before a
 four- or five-digit amount with a fraction is dropped.
 */
module OcrRepair {
  import opened Wrappers
  import opened Decimal
  import opened AmountParser
  import opened Currency
  import Text

  /** The token has a dot, and something after its last one. */
  predicate HasFraction(token: string) {
    var parts := Text.Split(Keep(token), '.');
    |parts| > 1 && parts[|parts| - 1] != ""
  }

  /** `recoverOCRLeadingDigitAmount`, on the digits of the printed amount. Amounts are in hundredths. */
  function Recover(token: string, parsed: int): Option<nat> {
    if parsed <= 0 || parsed >= 100_000_000 then None
    else if !HasFraction(token) then None
    else
      var integerPart, fractionPart := ToDigits(parsed / 100), Padded(parsed % 100, 2);
      if |integerPart| < 5 || |integerPart| > 6 || fractionPart == "00" then None
      else if integerPart[0] < '5' || integerPart[0] > '9' then None
      else
        var rest := integerPart[1..];
        var repaired := 100 * Value(rest) + Value(fractionPart);
        if repaired <= 0 then None
        else if parsed < 5 * repaired || parsed > 120 * repaired then None
        else if repaired >= 1_000_000 then None
        else Some(repaired)
  }

  function Repaired(token: string, parsed: int): int {
    match Recover(token, if parsed < 0 then 0 - parsed else parsed)
    case None => parsed
    case Some(repaired) => if parsed >= 0 then repaired else 0 - repaired
  }

  function ParseWithRepair(token: string): Option<int> {
    match ParseAmountToken(token)
    case None => None
    case Some(parsed) => Some(Repaired(token, parsed))
  }

  // ----- the repair as arithmetic

  /** What is left of an amount of five or six integer digits without its leading digit. */
  function Tail(parsed: nat): nat {
    if parsed < 10_000_000 then parsed % 1_000_000 else parsed % 10_000_000
  }

  /**
   Five or six integer digits, the leading one at least 5, a non-zero fraction, and a tail below 10000
   that is at least a 120th of the whole.
   */
  predicate Repairable(parsed: nat) {
    && (5_000_000 <= parsed < 10_000_000 || 50_000_000 <= parsed < 100_000_000)
    && parsed % 100 != 0
    && 0 < Tail(parsed) < 1_000_000
    && parsed <= 120 * Tail(parsed)
  }

  lemma {:induction false} DigitCharOrder(d: nat)
    requires d < 10
    ensures DigitChar(d) < '5' <==> d < 5
    ensures DigitChar(d) <= '9'
  {
  }

  lemma {:induction false} FractionIsZero(n: nat)
    requires n < 100
    ensures Value(Padded(n, 2)) == n && (Padded(n, 2) == "00" <==> n == 0)
  {
    SmallPowers();
    PaddedValue(n, 2);
    PaddedValue(0, 2);
    assert Padded(0, 2) == "00";
  }

  lemma {:induction false} FiveParts(parsed: nat)
    ensures parsed / 100 / 10_000 == parsed / 1_000_000
    ensures 100 * (parsed / 100 % 10_000) + parsed % 100 == parsed % 1_000_000
  {
  }

  lemma {:induction false} SixParts(parsed: nat)
    ensures parsed / 100 / 100_000 == parsed / 10_000_000
    ensures 100 * (parsed / 100 % 100_000) + parsed % 100 == parsed % 10_000_000
  {
  }

  lemma {:induction false} TailOfFive(parsed: nat)
    requires 1_000_000 <= parsed < 10_000_000
    ensures var digits := ToDigits(parsed / 100);
      && |digits| == 5 && digits[0] == DigitChar(parsed / 1_000_000)
      && 100 * Value(digits[1..]) + parsed % 100 == Tail(parsed)
  {
    FiveDigits(parsed / 100);
    FiveParts(parsed);
  }

  lemma {:induction false} TailOfSix(parsed: nat)
    requires 10_000_000 <= parsed < 100_000_000
    ensures var digits := ToDigits(parsed / 100);
      && |digits| == 6 && digits[0] == DigitChar(parsed / 10_000_000)
      && 100 * Value(digits[1..]) + parsed % 100 == Tail(parsed)
  {
    SixDigits(parsed / 100);
    SixParts(parsed);
  }

  /** What `Recover` finds in the digits of five or six integer digits. */
  lemma {:induction false} TailOfDigits(parsed: nat)
    requires 1_000_000 <= parsed < 100_000_000
    ensures var digits := ToDigits(parsed / 100);
      && |digits| == (if parsed < 10_000_000 then 5 else 6)
      && (digits[0] < '5' <==> parsed < (if parsed < 10_000_000 then 5_000_000 else 50_000_000)) && digits[0] <= '9'
      && 100 * Value(digits[1..]) + parsed % 100 == Tail(parsed)
  {
    if parsed < 10_000_000 {
      TailOfFive(parsed);
      DigitCharOrder(parsed / 1_000_000);
    } else {
      TailOfSix(parsed);
      DigitCharOrder(parsed / 10_000_000);
    }
  }

  lemma {:induction false} OtherLengths(n: nat)
    requires n < 10000
    ensures |ToDigits(n)| < 5
  {
    SmallPowers();
    if n >= 1000 { LeadingDigit(n, 3); }
    else if n >= 100 { LeadingDigit(n, 2); }
    else if n >= 10 { LeadingDigit(n, 1); }
  }

  lemma {:induction false} ShortIsNotRecovered(token: string, parsed: nat)
    requires parsed < 1_000_000
    ensures Recover(token, parsed) == None
  {
    OtherLengths(parsed / 100);
  }

  lemma {:induction false} LongIsRecovered(token: string, parsed: nat)
    requires 1_000_000 <= parsed < 100_000_000
    ensures Recover(token, parsed) == if HasFraction(token) && Repairable(parsed) then Some(Tail(parsed)) else None
  {
    FractionIsZero(parsed % 100);
    TailOfDigits(parsed);
  }

  /** The digit-string repair is exactly the arithmetic one. */
  lemma {:induction false} RepairIsArithmetic(token: string, parsed: nat)
    ensures Recover(token, parsed) == if HasFraction(token) && Repairable(parsed) then Some(Tail(parsed)) else None
  {
    if parsed < 1_000_000 {
      ShortIsNotRecovered(token, parsed);
    } else if parsed < 100_000_000 {
      LongIsRecovered(token, parsed);
    }
  }

  lemma {:induction false} MillionsDigit(parsed: nat)
    requires 5_000_000 <= parsed < 10_000_000
    ensures 5 <= parsed / 1_000_000 <= 9 && parsed == parsed % 1_000_000 + 1_000_000 * (parsed / 1_000_000)
    ensures parsed % 1_000_000 % 100 == parsed % 100
  {
  }

  lemma {:induction false} TenMillionsDigit(parsed: nat)
    requires 50_000_000 <= parsed < 100_000_000
    ensures 5 <= parsed / 10_000_000 <= 9 && parsed == parsed % 10_000_000 + 10_000_000 * (parsed / 10_000_000)
    ensures parsed % 10_000_000 % 100 == parsed % 100
  {
  }

  /**
   A repair takes off exactly one digit d in 5..9, at ten thousands or hundred thousands (in hundredths, at
   millions or ten millions), keeps the fraction, and leaves less than 10000 and at least a 120th of the amount.
   */
  lemma {:induction false} RepairIsBounded(parsed: nat) returns (d: nat, place: nat)
    requires Repairable(parsed)
    ensures 5 <= d <= 9 && place in {1_000_000, 10_000_000}
    ensures parsed == Tail(parsed) + (if place == 1_000_000 then 1_000_000 * d else 10_000_000 * d)
    ensures Tail(parsed) % 100 == parsed % 100
    ensures 0 < Tail(parsed) < 1_000_000 && parsed <= 120 * Tail(parsed)
    ensures !Repairable(Tail(parsed))
  {
    if parsed < 10_000_000 {
      MillionsDigit(parsed);
      d, place := parsed / 1_000_000, 1_000_000;
    } else {
      TenMillionsDigit(parsed);
      d, place := parsed / 10_000_000, 10_000_000;
    }
  }

  /** Reading with repair, in terms of the plain reading. */
  lemma {:induction false} RepairedIsArithmetic(token: string, parsed: int)
    ensures var magnitude: nat := if parsed < 0 then 0 - parsed else parsed;
      Repaired(token, parsed) ==
        if HasFraction(token) && Repairable(magnitude)
        then (if parsed >= 0 then Tail(magnitude) else 0 - Tail(magnitude)) else parsed
  {
    RepairIsArithmetic(token, if parsed < 0 then 0 - parsed else parsed);
  }

  /** A changed amount keeps its sign and has a magnitude below 10000. */
  lemma {:induction false} RepairKeepsSign(token: string, parsed: int)
    ensures var result := Repaired(token, parsed);
      result != parsed ==> -1_000_000 < result < 1_000_000 && (parsed > 0 <==> result > 0) && (parsed < 0 <==> result < 0)
  {
    RepairedIsArithmetic(token, parsed);
  }

  lemma {:induction false} RepairedStays(token: string, parsed: int, again: string)
    requires Repaired(token, parsed) != parsed
    ensures Repaired(again, Repaired(token, parsed)) == Repaired(token, parsed)
  {
    RepairedIsArithmetic(token, parsed);
    var d, place := RepairIsBounded(if parsed < 0 then 0 - parsed else parsed);
    RepairedIsArithmetic(again, Repaired(token, parsed));
  }

  /** Re-reading the printed result of a repair repairs nothing further. */
  lemma {:induction false} RepairIsIdempotent(token: string)
    requires ParseWithRepair(token).Some? && ParseWithRepair(token) != ParseAmountToken(token)
    ensures var result := ParseWithRepair(token).value;
      ParseWithRepair(MinorUnitsToMajorString(result, 2)) == Some(result)
  {
    var parsed := ParseAmountToken(token).value;
    var result := Repaired(token, parsed);
    RepairedStays(token, parsed, MinorUnitsToMajorString(result, 2));
    PrintedReadsAs(result, 2);
  }

  // ----- printed amounts

  lemma {:induction false} PrintedIsKept(amountMinor: int)
    ensures Keep(MinorUnitsToMajorString(amountMinor, 2)) == MinorUnitsToMajorString(amountMinor, 2)
  {
    PrintedIsSpelled(amountMinor, 2);
    SignsAreStripped(Spelled(amountMinor, 2));
  }

  lemma {:induction false} PrintedHasFraction(amountMinor: int)
    ensures HasFraction(MinorUnitsToMajorString(amountMinor, 2))
  {
    var minor := Currency.Magnitude(amountMinor);
    var sign, major, rest := if amountMinor < 0 then "-" else "", ToDigits(Major(minor, 2)), Padded(Rest(minor, 2), 2);
    PrintedIsKept(amountMinor);
    assert MinorUnitsToMajorString(amountMinor, 2) == (sign + major) + "." + rest;
    DigitsDoNotSplit(rest, '.');
    LastPart(sign + major, rest);
  }

  /**
   Reading a printed amount with repair gives it back exactly when it is not repairable: the repair
   cannot tell a genuine amount of that shape from a misread one.
   */
  lemma {:induction false} PrintedIsReadBackIff(amountMinor: int)
    ensures ParseWithRepair(MinorUnitsToMajorString(amountMinor, 2)) == Some(amountMinor) <==>
      !Repairable(Currency.Magnitude(amountMinor))
  {
    var token := MinorUnitsToMajorString(amountMinor, 2);
    PrintedReadsAs(amountMinor, 2);
    PrintedHasFraction(amountMinor);
    RepairedIsArithmetic(token, amountMinor);
    if Repairable(Currency.Magnitude(amountMinor)) {
      var d, place := RepairIsBounded(Currency.Magnitude(amountMinor));
    }
  }

  /** 59876.50 is read as 9876.50. */
  lemma {:induction false} GenuineAmountIsRepaired()
    ensures ParseWithRepair(MinorUnitsToMajorString(5_987_650, 2)) == Some(987_650)
  {
    var m := 5_987_650;
    RepairedPrint(m);
    assert Repairable(m) && Tail(m) == 987_650;
  }

  lemma {:induction false} RepairedPrint(amountMinor: nat)
    requires Repairable(amountMinor)
    ensures ParseWithRepair(MinorUnitsToMajorString(amountMinor, 2)) == Some(Tail(amountMinor))
  {
    PrintedReadsAs(amountMinor, 2);
    PrintedHasFraction(amountMinor);
    RepairedIsArithmetic(MinorUnitsToMajorString(amountMinor, 2), amountMinor);
  }

  // ----- which tokens are repaired at all

  /** A token has a fraction exactly when something free of dots stands behind a dot at the end of what is kept of it. */
  lemma {:induction false} HasFractionIff(token: string)
    ensures HasFraction(token) <==>
      exists head: string, tail: string :: tail != "" && '.' !in tail && Keep(token) == head + "." + tail
  {
    if HasFraction(token) {
      var parts := Text.Split(Keep(token), '.');
      var n := |parts| - 1;
      Text.SplitParts(Keep(token), '.');
      Text.JoinAppend(parts[..n], [parts[n]], ".");
      assert parts == parts[..n] + [parts[n]];
      assert Keep(token) == Text.Join(parts[..n], ".") + "." + parts[n];
    }
    forall head: string, tail: string | tail != "" && '.' !in tail && Keep(token) == head + "." + tail
      ensures HasFraction(token)
    {
      AbsentDoesNotSplit(tail, '.');
      LastPart(head, tail);
    }
  }

  lemma {:induction false} LastPart(head: string, tail: string)
    requires '.' !in tail
    ensures var parts := Text.Split(head + "." + tail, '.'); |parts| > 1 && parts[|parts| - 1] == tail
  {
    if head == "" {
      AbsentDoesNotSplit(tail, '.');
      assert head + "." + tail == ['.'] + tail && (['.'] + tail)[1..] == tail;
    } else {
      LastPart(head[1..], tail);
      assert (head + "." + tail)[1..] == head[1..] + "." + tail;
    }
  }

  /** A token without a dot is never repaired. */
  lemma {:induction false} NoDotNoRepair(token: string, parsed: int)
    requires '.' !in token
    ensures Repaired(token, parsed) == parsed
  {
    KeepIsSubset(token, '.');
    AbsentDoesNotSplit(Keep(token), '.');
  }

  lemma {:induction false} KeepIsSubset(token: string, c: char)
    requires c !in token
    ensures c !in Keep(token)
  {
    if token != "" {
      KeepIsSubset(token[1..], c);
    }
  }
}
