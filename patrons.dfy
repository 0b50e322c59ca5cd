/** A library patron (src/Patron.java): four final fields, set once by a
    constructor that checks them in a fixed order and rejects the record on the
    first failure. The exception it throws is the `Failure` of a `Result`. */
module Patrons {
  import opened Wrappers
  import opened Text
  import opened Decimals

  /** id, name, address and the fine at scale 2. A datatype value never changes,
      as the final fields of the Java object never do; the fields are the getters. */
  datatype Patron = Patron(id: string, name: string, address: string, fine: Decimal)

  /** The four messages of the constructor's IllegalArgumentException. */
  datatype PatronError = InvalidId | InvalidName | InvalidAddress | InvalidFine

  const IdLength: nat := 7
  const Zero: Decimal := Decimal(0, 0)
  const MaxFine: Decimal := Decimal(250, 0)

  /** The reference reading of a valid id: seven characters, each in '0'..'9'. */
  predicate IsIdText(id: string) {
    |id| == IdLength && AllDigits(id)
  }

  /** The reference reading of an acceptable fine: a number in the closed range [0, 250]. */
  ghost predicate FineInRange(fine: Decimal) {
    0.0 <= Value(fine) <= 250.0
  }

  /** What every constructed patron satisfies. */
  predicate WellFormed(p: Patron) {
    && IsIdText(p.id)
    && p.name != []
    && p.address != []
    && p.fine.scale == 2
    && 0 <= p.fine.unscaled <= 25000
  }

  /** `new Patron(id, name, address, fine)`. The id must match `\d{7}`; name and
      address must be non-empty as they are (no trimming, so " " is accepted); the
      fine must compare to neither below 0 nor above 250. The first failing check
      names the error. On success the strings are kept as given and the fine is
      rounded half-up to hundredths. */
  function NewPatron(id: string, name: string, address: string, fine: Decimal): (r: Result<Patron, PatronError>)
    ensures r.Success? <==> IsIdText(id) && name != [] && address != [] && FineInRange(fine)
    ensures r == Failure(InvalidId) <==> !IsIdText(id)
    ensures r == Failure(InvalidName) <==> IsIdText(id) && name == []
    ensures r == Failure(InvalidAddress) <==> IsIdText(id) && name != [] && address == []
    ensures r == Failure(InvalidFine) <==> IsIdText(id) && name != [] && address != [] && !FineInRange(fine)
    ensures r.Success? ==>
      && r.value.id == id && r.value.name == name && r.value.address == address
      && WellFormed(r.value)
      && HalfUpBracket(fine.unscaled, Pow10(fine.scale), r.value.fine.unscaled)
  {
    DigitRunIsFixedLengthDigits(id, IdLength);
    FineCheck(fine);
    if !MatchesDigitRun(id, IdLength) then Failure(InvalidId)
    else if name == [] then Failure(InvalidName)
    else if address == [] then Failure(InvalidAddress)
    else if CompareTo(fine, Zero) < 0 || CompareTo(fine, MaxFine) > 0 then Failure(InvalidFine)
    else
      Accepted(id, name, address, fine);
      Success(Patron(id, name, address, RoundHalfUp(fine)))
  }

  /** The two `compareTo` tests reject exactly the fines outside [0, 250]. */
  lemma FineCheck(fine: Decimal)
    ensures (CompareTo(fine, Zero) < 0 || CompareTo(fine, MaxFine) > 0) <==> !FineInRange(fine)
  {
    CompareToIsValueOrder(fine, Zero);
    CompareToIsValueOrder(fine, MaxFine);
    assert Value(Zero) == 0.0 && Value(MaxFine) == 250.0;
  }

  /** A record that passes every check makes a well-formed patron whose fine is
      the half-up rounding of the given one. */
  lemma Accepted(id: string, name: string, address: string, fine: Decimal)
    requires IsIdText(id) && name != [] && address != [] && FineInRange(fine)
    ensures WellFormed(Patron(id, name, address, RoundHalfUp(fine)))
    ensures HalfUpBracket(fine.unscaled, Pow10(fine.scale), RoundHalfUp(fine).unscaled)
  {
    FineBoundsAsIntegers(fine);
    RoundedFineBound(fine);
  }

  /** A fine in [0, 250] has its unscaled value between 0 and 250 * 10^scale. */
  lemma FineBoundsAsIntegers(fine: Decimal)
    requires FineInRange(fine)
    ensures 0 <= fine.unscaled <= 250 * Pow10(fine.scale)
  {
    CompareToIsValueOrder(fine, Zero);
    CompareToIsValueOrder(fine, MaxFine);
    Pow10Add(0, fine.scale);
  }

  /** The stored fine is within half a cent of the given one, a half cent rounding up. */
  lemma StoredFineIsNearest(id: string, name: string, address: string, fine: Decimal)
    requires NewPatron(id, name, address, fine).Success?
    ensures var stored := NewPatron(id, name, address, fine).value.fine;
            Value(stored) - 0.005 <= Value(fine) < Value(stored) + 0.005
  {
    FineBoundsAsIntegers(fine);
    RoundHalfUpIsNearest(fine);
  }

  /** The fixed order of the checks: an invalid id wins over every other fault,
      and so on down the list. */
  lemma ValidationOrder()
    ensures NewPatron("12345", "", "", Decimal(-1, 0)) == Failure(InvalidId)
    ensures NewPatron("1234567", "", "", Decimal(-1, 0)) == Failure(InvalidName)
    ensures NewPatron("1234567", "Jane", "", Decimal(-1, 0)) == Failure(InvalidAddress)
    ensures NewPatron("1234567", "Jane", "Main St", Decimal(-1, 0)) == Failure(InvalidFine)
    ensures NewPatron("1234567", "Jane", "Main St", Decimal(251, 0)) == Failure(InvalidFine)
  {
    assert !IsIdText("12345");
    assert IsIdText("1234567");
    assert Value(Decimal(-1, 0)) == -1.0;
    assert Value(Decimal(251, 0)) == 251.0;
  }

  /** Only emptiness is checked: a blank name or address, or a name with digits, is accepted. */
  lemma NoTrimOnNameAndAddress()
    ensures NewPatron("1234567", " ", " ", Decimal(0, 0)).Success?
    ensures NewPatron("0000000", "John123", "1 Main St", Decimal(250, 0)).Success?
  {
    assert IsIdText("1234567");
    assert IsIdText("0000000");
    assert Value(Decimal(0, 0)) == 0.0;
    assert Value(Decimal(250, 0)) == 250.0;
  }

  /** 12.345 is stored as 12.35 and 249.995 as 250.00. */
  lemma StoredFineExamples()
    ensures NewPatron("1234567", "Jane", "Main St", Decimal(12345, 3)) == Success(Patron("1234567", "Jane", "Main St", Decimal(1235, 2)))
    ensures NewPatron("1234567", "Jane", "Main St", Decimal(249995, 3)) == Success(Patron("1234567", "Jane", "Main St", Decimal(25000, 2)))
  {
    assert IsIdText("1234567");
    assert Pow10(3) == 1000;
    assert Value(Decimal(12345, 3)) == 12.345;
    assert Value(Decimal(249995, 3)) == 249.995;
    RoundHalfUpExamples();
  }
}
