/** PrintingCompany: the three companies jobs are printed for, with their integer codes. */
module PrintingCompany {

  datatype PrintingCompany = AmericanAccents | AmericanCabinSupply | AmericanYachtSupply

  /** getValue: the code given at declaration. */
  function Value(c: PrintingCompany): (code: int)
    ensures 0 <= code <= 2
  {
    match c
    case AmericanAccents => 0
    case AmericanCabinSupply => 1
    case AmericanYachtSupply => 2
  }

  /** getPrintingCompany: total decoding; any code other than 1 or 2 reads as AMERICAN_ACCENTS. */
  function FromCode(x: int): (c: PrintingCompany)
    ensures x != 1 && x != 2 ==> c == AmericanAccents
    ensures (Value(c) == x) <==> (0 <= x <= 2)
  {
    match x
    case 1 => AmericanCabinSupply
    case 2 => AmericanYachtSupply
    case _ => AmericanAccents
  }

  /** Every company reads back from its own code. */
  lemma CodeRoundTrip(c: PrintingCompany)
    ensures FromCode(Value(c)) == c
  {
  }

  /** Distinct companies have distinct codes. */
  lemma ValueInjective(c: PrintingCompany, d: PrintingCompany)
    requires Value(c) == Value(d)
    ensures c == d
  {
    CodeRoundTrip(c);
    CodeRoundTrip(d);
  }
}
