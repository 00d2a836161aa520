/** PrintType: the seven kinds of printing, their display labels and the integer
    codes stored in the database. The integer codes follow their own order, which
    is not the order of declaration. */
module PrintType {
  import opened Base

  datatype PrintType =
    | ScreenCups | ScreenNapkins | Pad | Hotstamp | OffsetCups | OffsetNapkins | Digital

  /** The values in declaration order. */
  const AllPrintTypes: seq<PrintType> :=
    [ScreenCups, ScreenNapkins, Pad, Hotstamp, OffsetCups, OffsetNapkins, Digital]

  /** getValue: the human-readable label given at declaration. */
  function Value(p: PrintType): (text: string)
    ensures |text| > 0
  {
    match p
    case ScreenCups => "Screen Cups"
    case ScreenNapkins => "Screen Napkins"
    case Pad => "Pad"
    case Hotstamp => "Hotstamp"
    case OffsetCups => "Offset Cups"
    case OffsetNapkins => "Offset Napkins"
    case Digital => "Digital"
  }

  /** getPrintType(String): the type carrying a label, or null for any other string. */
  function FromLabel(x: string): (r: Option<PrintType>)
    ensures r.Some? ==> Value(r.value) == x
    ensures r.None? <==> forall p :: Value(p) != x
  {
    if x == "Screen Cups" then Some(ScreenCups)
    else if x == "Screen Napkins" then Some(ScreenNapkins)
    else if x == "Pad" then Some(Pad)
    else if x == "Hotstamp" then Some(Hotstamp)
    else if x == "Offset Cups" then Some(OffsetCups)
    else if x == "Offset Napkins" then Some(OffsetNapkins)
    else if x == "Digital" then Some(Digital)
    else None
  }

  /** getPrintType(int): the type stored under a code; every unknown code reads as PAD. */
  function FromCode(x: int): (p: PrintType)
    ensures !(0 <= x <= 6) ==> p == Pad
  {
    match x
    case 0 => ScreenCups
    case 1 => Pad
    case 2 => Hotstamp
    case 3 => OffsetCups
    case 4 => OffsetNapkins
    case 5 => Digital
    case 6 => ScreenNapkins
    case _ => Pad
  }

  /** getIntValue: the code a type is stored under. */
  function IntValue(p: PrintType): (code: int)
    ensures 0 <= code <= 6
    ensures FromCode(code) == p
  {
    match p
    case ScreenCups => 0
    case Pad => 1
    case Hotstamp => 2
    case OffsetCups => 3
    case OffsetNapkins => 4
    case Digital => 5
    case ScreenNapkins => 6
  }

  /** Decoding then encoding gives back every code of 0-6, and 1 (PAD's code) for every other integer. */
  lemma CodeRoundTrip(x: int)
    ensures IntValue(FromCode(x)) == if 0 <= x <= 6 then x else 1
  {
  }

  /** Distinct types have distinct codes, so the codes 0-6 are a bijection with the types. */
  lemma IntValueInjective(p: PrintType, q: PrintType)
    requires IntValue(p) == IntValue(q)
    ensures p == q
  {
    assert FromCode(IntValue(p)) == p;
  }

  /** Each label reads back as its own type; labels of distinct types differ. */
  lemma LabelRoundTrip(p: PrintType)
    ensures FromLabel(Value(p)) == Some(p)
  {
  }

  /** The code table, value by value, as declared: 0 SCREEN_CUPS, 1 PAD, 2 HOTSTAMP, 3 OFFSET_CUPS,
      4 OFFSET_NAPKINS, 5 DIGITAL, 6 SCREEN_NAPKINS. */
  lemma CodeTable()
    ensures [FromCode(0), FromCode(1), FromCode(2), FromCode(3), FromCode(4), FromCode(5), FromCode(6)]
         == [ScreenCups, Pad, Hotstamp, OffsetCups, OffsetNapkins, Digital, ScreenNapkins]
    ensures forall k :: 0 <= k < 7 ==> FromCode(k) in AllPrintTypes
  {
  }
}
