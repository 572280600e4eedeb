/** Printing minor units and reading them back (currency.ts with amountParser.ts). */
module Currency {
  import opened Wrappers
  import opened Decimal
  import opened AmountParser

  const ZERO_DIGIT_CODES: set<string> :=
    {"BIF", "CLP", "DJF", "GNF", "ISK", "JPY", "KMF", "KRW", "MGA", "PYG", "RWF", "UGX", "VND", "VUV", "XAF", "XOF", "XPF"}

  const THREE_DIGIT_CODES: set<string> := {"BHD", "IQD", "JOD", "KWD", "LYD", "OMR", "TND"}

  lemma {:induction false} CodesAreDisjoint()
    ensures ZERO_DIGIT_CODES !! THREE_DIGIT_CODES
  {
  }

  /** `upper` is `toUpperCase`; unknown and missing codes have two digits. */
  function MinorUnitDigits(currency: Option<string>, upper: string -> string): (digits: nat)
    ensures digits in {0, 2, 3}
    ensures digits == 0 <==> currency.Some? && currency.value != "" && upper(currency.value) in ZERO_DIGIT_CODES
    ensures digits == 3 <==> currency.Some? && currency.value != "" && upper(currency.value) in THREE_DIGIT_CODES
  {
    CodesAreDisjoint();
    if currency.None? || currency.value == "" then 2
    else if upper(currency.value) in ZERO_DIGIT_CODES then 0
    else if upper(currency.value) in THREE_DIGIT_CODES then 3
    else 2
  }

  function Magnitude(amountMinor: int): nat {
    if amountMinor < 0 then 0 - amountMinor else amountMinor
  }

  /** `Math.floor(minor / 10 ** digits)` and `minor % 10 ** digits`. */
  function Major(minor: nat, digits: nat): nat
    requires digits in {2, 3}
  {
    if digits == 2 then minor / 100 else minor / 1000
  }

  function Rest(minor: nat, digits: nat): nat
    requires digits in {2, 3}
  {
    if digits == 2 then minor % 100 else minor % 1000
  }

  function MinorUnitsToMajorString(amountMinor: int, digits: nat): string
    requires digits in {0, 2, 3}
  {
    var sign, minor := if amountMinor < 0 then "-" else "", Magnitude(amountMinor);
    if digits == 0 then sign + ToDigits(minor)
    else sign + (ToDigits(Major(minor, digits)) + "." + Padded(Rest(minor, digits), digits))
  }

  /** `Math.round(majorAmount * 10 ** digits)` for an amount of `hundredths`: half goes up. */
  function ToMinorUnits(hundredths: int, digits: nat): int
    requires digits in {0, 2, 3}
  {
    var scaled := if digits == 0 then hundredths else if digits == 2 then 100 * hundredths else 1000 * hundredths;
    (2 * scaled + 100) / 200
  }

  function Converted(read: Option<int>, digits: nat): Option<int>
    requires digits in {0, 2, 3}
  {
    match read
    case None => None
    case Some(hundredths) => Some(ToMinorUnits(hundredths, digits))
  }

  /** What printing and re-reading `amountMinor` gives. */
  function PrintedAndRead(amountMinor: int, digits: nat): Option<int>
    requires digits in {0, 2, 3}
  {
    Converted(ParseAmountToken(MinorUnitsToMajorString(amountMinor, digits)), digits)
  }

  /** The printed form as a spelled amount; with three digits the fraction is spelled like a group. */
  function Spelled(amountMinor: int, digits: nat): Spelling
    requires digits in {0, 2, 3}
  {
    var sign, minor := if amountMinor < 0 then "-" else "", Magnitude(amountMinor);
    if digits == 0 then Spelling(sign, [ToDigits(minor)], ',', None)
    else
      var major, rest := ToDigits(Major(minor, digits)), Padded(Rest(minor, digits), digits);
      if digits == 2 then Spelling(sign, [major], ',', Some(rest)) else Spelling(sign, [major, rest], '.', None)
  }

  lemma {:induction false} PrintedIsSpelled(amountMinor: int, digits: nat)
    requires digits in {0, 2, 3}
    ensures WellSpelled(Spelled(amountMinor, digits))
    ensures Spell(Spelled(amountMinor, digits)) == MinorUnitsToMajorString(amountMinor, digits)
  {
    var a := Spelled(amountMinor, digits);
    if digits == 0 {
      assert Unsigned(a) == a.groups[0] + "" == a.groups[0];
    } else if digits == 2 {
      assert Unsigned(a) == a.groups[0] + "." + a.fraction.value;
    } else {
      ConcatOfTwo(a.groups);
      assert Unsigned(a) == Text.Join(a.groups, ".") + "" == Text.Join(a.groups, ".");
    }
  }

  lemma {:induction false} ConcatOfOne(s: string)
    ensures Concat([s]) == s
  {
    assert [s][1..] == [];
    assert s + "" == s;
  }

  lemma {:induction false} WholeWorth(amountMinor: int)
    ensures WellSpelled(Spelled(amountMinor, 0)) && Worth(Spelled(amountMinor, 0)) == 100 * amountMinor
  {
    PrintedIsSpelled(amountMinor, 0);
    ConcatOfOne(ToDigits(Magnitude(amountMinor)));
    DigitsRoundTrip(Magnitude(amountMinor));
  }

  lemma {:induction false} HundredthsWorth(amountMinor: int)
    ensures WellSpelled(Spelled(amountMinor, 2)) && Worth(Spelled(amountMinor, 2)) == amountMinor
  {
    PrintedIsSpelled(amountMinor, 2);
    var minor := Magnitude(amountMinor);
    SmallPowers();
    ConcatOfOne(ToDigits(minor / 100));
    DigitsRoundTrip(minor / 100);
    PaddedValue(minor % 100, 2);
  }

  lemma {:induction false} ThousandthsWorth(amountMinor: int)
    ensures WellSpelled(Spelled(amountMinor, 3)) && Worth(Spelled(amountMinor, 3)) == 100 * amountMinor
  {
    PrintedIsSpelled(amountMinor, 3);
    var minor, a := Magnitude(amountMinor), Spelled(amountMinor, 3);
    SmallPowers();
    DigitsRoundTrip(minor / 1000);
    PaddedValue(minor % 1000, 3);
    ConcatOfTwo(a.groups);
    ValueConcat(a.groups[0], a.groups[1]);
  }

  /** What the printed form is worth: the amount itself, except that three digits multiply it by a thousand. */
  lemma {:induction false} SpelledWorth(amountMinor: int, digits: nat)
    requires digits in {0, 2, 3}
    ensures WellSpelled(Spelled(amountMinor, digits))
    ensures Worth(Spelled(amountMinor, digits)) == if digits == 2 then amountMinor else 100 * amountMinor
  {
    if digits == 0 {
      WholeWorth(amountMinor);
    } else if digits == 2 {
      HundredthsWorth(amountMinor);
    } else {
      ThousandthsWorth(amountMinor);
    }
  }

  lemma {:induction false} PrintedReadsAs(amountMinor: int, digits: nat)
    requires digits in {0, 2, 3}
    ensures ParseAmountToken(MinorUnitsToMajorString(amountMinor, digits)) ==
      Some(if digits == 2 then amountMinor else 100 * amountMinor)
  {
    var a := Spelled(amountMinor, digits);
    SpelledWorth(amountMinor, digits);
    assert ParseAmountToken(Spell(a)) == Some(Worth(a)) by { SpellingsParse(a); }
    assert Spell(a) == MinorUnitsToMajorString(amountMinor, digits) by { PrintedIsSpelled(amountMinor, digits); }
  }

  lemma {:induction false} ConvertedBack(amountMinor: int, digits: nat)
    requires digits in {0, 2, 3}
    ensures Converted(Some(if digits == 2 then amountMinor else 100 * amountMinor), digits) ==
      Some(if digits == 3 then 1000 * amountMinor else amountMinor)
  {
  }

  lemma {:induction false} PrintedAndReadIs(amountMinor: int, digits: nat)
    requires digits in {0, 2, 3}
    ensures PrintedAndRead(amountMinor, digits) == Some(if digits == 3 then 1000 * amountMinor else amountMinor)
  {
    PrintedReadsAs(amountMinor, digits);
    ConvertedBack(amountMinor, digits);
  }

  /**
   Printing an amount and parsing it back gives the amount, for every integer, exactly when the currency
   does not have three minor digits, or the amount is zero: ".ddd" reads as a group.
   */
  lemma {:induction false} PrintParseRoundTripIff(amountMinor: int, digits: nat)
    requires digits in {0, 2, 3}
    ensures PrintedAndRead(amountMinor, digits) == Some(amountMinor) <==> digits != 3 || amountMinor == 0
    ensures digits == 3 ==> PrintedAndRead(amountMinor, digits) == Some(1000 * amountMinor)
  {
    PrintedAndReadIs(amountMinor, digits);
    ThousandfoldIff(PrintedAndRead(amountMinor, digits), amountMinor, digits);
  }

  lemma {:induction false} ThousandfoldIff(read: Option<int>, amountMinor: int, digits: nat)
    requires read == Some(if digits == 3 then 1000 * amountMinor else amountMinor)
    ensures read == Some(amountMinor) <==> digits != 3 || amountMinor == 0
    ensures digits == 3 ==> read == Some(1000 * amountMinor)
  {
  }

  lemma {:induction false} EveryCurrencyRoundTripsIff(amountMinor: int, currency: Option<string>, upper: string -> string)
    ensures var digits := MinorUnitDigits(currency, upper);
      PrintedAndRead(amountMinor, digits) == Some(amountMinor) <==> digits != 3 || amountMinor == 0
  {
    PrintParseRoundTripIff(amountMinor, MinorUnitDigits(currency, upper));
  }
}
