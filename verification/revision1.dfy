/** The first revision of the preprocessors (`lib/data-preprocessors.js`):
    its label-to-rule table, the rules it defines differently from the
    second revision, and `callPreprocessor`. */
module Revision1 {
  import opened Wrappers
  import opened JsString
  import opened Numbers
  import opened Dom
  import opened Keys
  import opened Units
  import opened Fields
  import opened Rules

  /** The rules this revision defines. */
  predicate Defines(rule: Rule) {
    rule != FloatCsvRule && rule != LatticeConstantsRule
  }

  /** `preprocessorMappings`: the rule a label names, if any. The entries
      are those of the source table, grouped by the length of their label
      (a label can only equal an entry of its own length) and in table
      order within each group. */
  function Registry(name: string): (r: Option<Rule>)
    ensures r.Some? ==> Defines(r.value)
  {
    if |name| < 15 then ShortLabels(name)
    else if |name| < 18 then MiddleLabels(name)
    else LongLabels(name)
  }

  /** The entries whose label has fewer than 15 characters. */
  function ShortLabels(name: string): (r: Option<Rule>)
    ensures r.Some? ==> Defines(r.value)
  {
    match |name|
    case 5 =>
      (match name
       case "Group" => Some(IntegerRule)
       case _ => None)
    case 6 =>
      (match name
       case "Period" => Some(IntegerRule)
       case _ => None)
    case 7 =>
      (match name
       case "Density" => Some(FloatWithUnitRule)
       case "Valence" => Some(IntegerRule)
       case _ => None)
    case 8 =>
      (match name
       case "% in Sun" => Some(PercentRule)
       case "Lifetime" => Some(FloatWithUnitRule)
       case _ => None)
    case 9 =>
      (match name
       case "Discovery" => Some(DiscoveryRule)
       case "Half-Life" => Some(FloatWithUnitRule)
       case _ => None)
    case 10 =>
      (match name
       case "Neel Point" => Some(FloatWithUnitRule)
       case "Flashpoint" => Some(FloatWithUnitRule)
       case "NFPA Label" => Some(NfpaLabelRule)
       case _ => None)
    case 11 =>
      (match name
       case "DOT Numbers" => Some(IntegerRule)
       case "Resistivity" => Some(FloatWithUnitRule)
       case "Curie Point" => Some(FloatWithUnitRule)
       case "% in Oceans" => Some(PercentRule)
       case "% in Humans" => Some(PercentRule)
       case _ => None)
    case 12 =>
      (match name
       case "Molar Volume" => Some(FloatRule)
       case "Bulk Modulus" => Some(FloatWithUnitRule)
       case _ => None)
    case 13 =>
      (match name
       case "Atomic Number" => Some(IntegerRule)
       case "Atomic Weight" => Some(FloatRule)
       case "Melting Point" => Some(FloatWithUnitRule)
       case "Boiling Point" => Some(FloatWithUnitRule)
       case "Specific Heat" => Some(FloatWithUnitRule)
       case "Mohs Hardness" => Some(FloatWithUnitRule)
       case "Shear Modulus" => Some(FloatWithUnitRule)
       case "Young Modulus" => Some(FloatWithUnitRule)
       case "Poisson Ratio" => Some(FloatRule)
       case "% in Universe" => Some(PercentRule)
       case "Atomic Radius" => Some(FloatWithUnitRule)
       case _ => None)
    case 14 =>
      (match name
       case "Heat of Fusion" => Some(FloatWithUnitRule)
       case "Speed of Sound" => Some(FloatWithUnitRule)
       case "Lattice Angles" => Some(CsvRule)
       case "Known Isotopes" => Some(IsotopesRule)
       case _ => None)
    case _ => None
  }

  /** The entries whose label has 15 to 17 characters. */
  function MiddleLabels(name: string): (r: Option<Rule>)
    ensures r.Some? ==> Defines(r.value)
  {
    match |name|
    case 15 =>
      (match name
       case "Adiabatic Index" => Some(FloatRule)
       case "% in Meteorites" => Some(PercentRule)
       case "Covalent Radius" => Some(FloatWithUnitRule)
       case "Quantum Numbers" => Some(QuantumNumbersRule)
       case "Stable Isotopes" => Some(IsotopesRule)
       case _ => None)
    case 16 =>
      (match name
       case "Density (Liquid)" => Some(FloatWithUnitRule)
       case "Brinell Hardness" => Some(FloatWithUnitRule)
       case "Vickers Hardness" => Some(FloatWithUnitRule)
       case "Refractive Index" => Some(FloatRule)
       case "ElectronAffinity" => Some(FloatWithUnitRule)
       case "NFPA Fire Rating" => Some(IntegerRule)
       case _ => None)
    case 17 =>
      (match name
       case "Critical Pressure" => Some(FloatWithUnitRule)
       case "Thermal Expansion" => Some(FloatWithUnitRule)
       case "Electronegativity" => Some(FloatRule)
       case "Lattice Constants" => Some(FloatCsvWithUnitRule)
       case _ => None)
    case _ => None
  }

  /** The entries whose label has at least 18 characters. */
  function LongLabels(name: string): (r: Option<Rule>)
    ensures r.Some? ==> Defines(r.value)
  {
    match |name|
    case 18 =>
      (match name
       case "Heat of Combustion" => Some(FloatWithUnitRule)
       case "Autoignition Point" => Some(FloatWithUnitRule)
       case "NFPA Health Rating" => Some(IntegerRule)
       case "% in Earth's Crust" => Some(PercentRule)
       case "Space Group Number" => Some(IntegerRule)
       case _ => None)
    case 19 =>
      (match name
       case "Ionization Energies" => Some(FloatCsvWithUnitRule)
       case "Isotopic Abundances" => Some(IsotopicAbundancesRule)
       case _ => None)
    case 20 =>
      (match name
       case "Critical Temperature" => Some(FloatWithUnitRule)
       case "Heat of Vaporization" => Some(FloatWithUnitRule)
       case "Thermal Conductivity" => Some(FloatWithUnitRule)
       case "Van der Waals Radius" => Some(FloatWithUnitRule)
       case _ => None)
    case 21 =>
      (match name
       case "Superconducting Point" => Some(FloatRule)
       case "Neutron Cross Section" => Some(FloatRule)
       case _ => None)
    case 22 =>
      (match name
       case "Absolute Melting Point" => Some(FloatWithUnitRule)
       case "Absolute Boiling Point" => Some(FloatWithUnitRule)
       case "NFPA Reactivity Rating" => Some(IntegerRule)
       case "Electron Configuration" => Some(ElectronConfigurationRule)
       case _ => None)
    case 23 =>
      (match name
       case "Electrical Conductivity" => Some(FloatWithUnitRule)
       case "Neutron Mass Absorption" => Some(FloatRule)
       case _ => None)
    case 28 =>
      (match name
       case "Mass Magnetic Susceptibility" => Some(FloatRule)
       case _ => None)
    case 29 =>
      (match name
       case "Molar Magnetic Susceptibility" => Some(FloatRule)
       case _ => None)
    case 30 =>
      (match name
       case "Volume Magnetic Susceptibility" => Some(FloatRule)
       case _ => None)
    case _ => None
  }

  // ---------------------------------------------------------------------
  // Integer

  /** `integerPreprocessor`: `parseInt` of the number `parseFloat` reads, so
      the result goes through that number's text. */
  function Integer(name: string, cell: Node): (f: Field)
    ensures f.key == CamelCase(name) && f.body.Labelled? && f.body.name == name && f.body.units.None?
    ensures f.body.value.Num?
    ensures var x := ParseFloat(TimesTenAsExponent(TextOf(cell)));
            && (f.body.value.number.NaN? <==> !x.Finite?)
            && (x.Finite? && InDecimalRange(x.value) ==> f.body.value.number == Finite(Trunc(x.value) as real))
  {
    Record(name, Num(IntegerOfNumber(ParseFloat(TimesTenAsExponent(TextOf(cell))))), None)
  }

  /** A cell whose text starts with an integer below 10^21 in magnitude
      reads as that integer, when the text after it cannot continue a number
      and does not start with `×` (a `×10` exponent would scale it; see
      `Agreement.IntegerExponentDiffers`). */
  lemma IntegerReadsInteger(name: string, cell: Node, i: int, rest: string)
    requires TextOf(cell) == IntToString(i) + rest
    requires Stops(IntegerLiteral(i), rest) && (rest == [] || rest[0] != '\U{00D7}')
    requires -1000000000000000000000 < i < 1000000000000000000000
    ensures Integer(name, cell).body.value == Num(Finite(i as real))
  {
    IntegerLiteralReads(i);
    TextReadsLiteral(TextOf(cell), IntegerLiteral(i), rest);
    SmallIntegerIsDecimal(i);
  }

  /** A natural number printed with a `×10<sup>e</sup>` exponent reads as
      the whole number `i`·10^e when that is below 10^21: `parseFloat` reads
      the rewritten `e` as an exponent before `parseInt` truncates. */
  lemma IntegerReadsScientific(name: string, cell: Node, i: nat, e: nat)
    requires TextOf(cell) == IntToString(i) + "\U{00D7}10" + NatToString(e)
    requires i * Pow10(e) < 1000000000000000000000
    ensures Integer(name, cell).body.value == Num(Finite((i * Pow10(e)) as real))
  {
    ScientificTextReads(TextOf(cell), i, e);
    NaturalProduct(i, Pow10(e));
    NaturalReads(name, cell, i * Pow10(e));
  }

  /** A cell whose float read is a natural number below 10^21 keeps it. */
  lemma NaturalReads(name: string, cell: Node, v: nat)
    requires ParseFloat(TimesTenAsExponent(TextOf(cell))) == Finite(v as real)
    requires v < 1000000000000000000000
    ensures Integer(name, cell).body.value == Num(Finite(v as real))
  {
    SmallIntegerIsDecimal(v);
  }

  /** Number::toString writes an integer below 10^21 in magnitude in plain
      decimal, so truncating it changes nothing. */
  lemma SmallIntegerIsDecimal(i: int)
    requires -1000000000000000000000 < i < 1000000000000000000000
    ensures InDecimalRange(i as real) && Trunc(i as real) == i
  {
    if i != 0 {
      assert Abs(i as real) >= 1.0;
    }
  }

  // ---------------------------------------------------------------------
  // Float with unit

  /** `floatWithUnitPreprocessor`: a quantity that does not parse is
      recorded without units; otherwise the text after the number goes
      through `getUnitRepresentation`, whose failure (no denominator after a
      `/`) is the rule's failure. */
  function FloatWithUnit(name: string, cell: Node): (r: Result<Field>)
    ensures var q := Quantity(cell);
            && (q.0.NaN? ==> r == Ok(Record(name, Num(q.0), None)))
            && (!q.0.NaN? ==> (r.Err? <==> GetUnitRepresentation(q.1).Err?))
            && (r.Ok? ==> r.value.key == CamelCase(name) && r.value.body.Labelled? && r.value.body.name == name
                          && r.value.body.value == Num(q.0))
            && (r.Ok? && !q.0.NaN? ==> r.value.body.units == Some(GetUnitRepresentation(q.1).value))
  {
    var q := Quantity(cell);
    if q.0.NaN? then Ok(Record(name, Num(q.0), None))
    else MeasuredRecord(name, q.0, GetUnitRepresentation(q.1))
  }

  /** A cell printed as a literal, a space and a unit reads as the
      literal's value with the unit `getUnitRepresentation` makes of that
      text, and fails exactly when the unit does. */
  lemma FloatWithUnitReads(name: string, cell: Node, l: Literal, u: string)
    requires WellFormed(l) && TextOf(cell) == Render(l) + " " + u
    requires u != [] && !IsWhite(u[|u| - 1])
    ensures var r := FloatWithUnit(name, cell);
            && (r.Err? <==> GetUnitRepresentation(u).Err?)
            && (r.Ok? ==> && r.value.body.value == Num(Finite(LiteralValue(l)))
                          && r.value.body.units == Some(GetUnitRepresentation(u).value))
  {
    QuantityReads(cell, l, u);
  }

  // ---------------------------------------------------------------------
  // Percent

  /** `percentPreprocessor`: the key is `percent` and the place, the value
      `parseFloat` of the text of all the cell's children. */
  function Percent(name: string, cell: Node): (f: Field)
    ensures f.key == PercentKey(name) && f.body.Labelled? && f.body.name == name && f.body.units.None?
    ensures f.body.value == Num(ParseFloat(TimesTenAsExponent(TextOfAll(Contents(cell)))))
  {
    Field(PercentKey(name), Labelled(name, Num(ParseFloat(TimesTenAsExponent(TextOfAll(Contents(cell))))), None))
  }

  /** For a cell element the children's text is the cell's text, so the
      value is the one the float rule reads. */
  lemma PercentReadsWholeCell(name: string, cell: Node)
    requires cell.Element?
    ensures Percent(name, cell).body.value == Float(name, cell).body.value
  {
    assert TextOfAll(Contents(cell)) == TextOf(cell);
  }

  // ---------------------------------------------------------------------
  // NFPA label

  /** `nfpaLabelPreprocessor`: the `src` of the first image below the cell;
      `|| null` turns both a missing and an empty `src` into `null`. */
  function NfpaLabel(name: string, cell: Node): (f: Field)
    ensures f.key == CamelCase(name) && f.body.Labelled? && f.body.name == name && f.body.units.None?
    ensures var imgs := Find(cell, "img");
            && (f.body.value.Str? <==> imgs != [] && imgs[0].Element? && "src" in imgs[0].attributes
                                       && imgs[0].attributes["src"] != "")
            && (f.body.value.Str? ==> f.body.value.text == imgs[0].attributes["src"])
            && (!f.body.value.Str? ==> f.body.value.Null?)
  {
    var src := Attr(First(Find(cell, "img")), "src");
    Record(name, if src.Some? && src.value != "" then Str(src.value) else Null, None)
  }

  // ---------------------------------------------------------------------
  // Quantum numbers

  /** `quantumNumbersPreprocessor`: the term symbol's spin multiplicity,
      total angular momentum and orbital letter, from the first three
      children; a missing child reads as empty text. */
  function QuantumNumbers(name: string, cell: Node): (f: Field)
    ensures f.key == CamelCase(name) && f.body.Labelled? && f.body.name == name && f.body.units.None?
    ensures f.body.value.TermSymbol?
    ensures f.body.value.spinMultiplicity.NaN? <==> !BeginsInteger(TrimStart(ChildText(cell, 0)))
    ensures IsTrimmed(f.body.value.angularMomentum) && IsTrimmed(f.body.value.orbital)
    ensures |Contents(cell)| <= 1 ==> f.body.value.angularMomentum == ""
    ensures |Contents(cell)| <= 2 ==> f.body.value.orbital == ""
  {
    Record(name, TermSymbol(ParseInt(ChildText(cell, 0)), TrimmedChild(cell, 1), TrimmedChild(cell, 2)), None)
  }

  /** `components.eq(i).text().trim()`. */
  function TrimmedChild(cell: Node, i: nat): (r: string)
    ensures IsTrimmed(r)
    ensures i >= |Contents(cell)| ==> r == ""
    ensures i < |Contents(cell)| && IsTrimmed(TextOf(Contents(cell)[i])) ==> r == TextOf(Contents(cell)[i])
  {
    var t := ChildText(cell, i);
    TrimKeepsTrimmed(t);
    Trim(t)
  }

  lemma TrimKeepsTrimmed(t: string)
    ensures IsTrimmed(t) ==> Trim(t) == t
  {
    if IsTrimmed(t) {
      TrimTrimmed(t);
    }
  }

  /** Children that hold an integer and two texts, each with any white
      space around it, read as that integer and those two texts: `parseInt`
      passes over the white space in front and stops at the first non-digit,
      and `.trim()` drops the white space around the other two. */
  lemma QuantumNumbersRead(name: string, cell: Node, w: string, s: int, rest: string,
                           j: string, at1: int, l: string, at2: int)
    requires |Contents(cell)| >= 3
    requires AllWhite(w) && (rest == [] || !IsDigit(rest[0]))
    requires TextOf(Contents(cell)[0]) == w + IntToString(s) + rest
    requires IsTrimmed(j) && WhiteAround(TextOf(Contents(cell)[1]), j, at1)
    requires IsTrimmed(l) && WhiteAround(TextOf(Contents(cell)[2]), l, at2)
    ensures QuantumNumbers(name, cell).body.value == TermSymbol(Finite(s as real), j, l)
  {
    IndentedIntegerReads(w, s, rest);
    TrimOfWhiteAround(ChildText(cell, 1), j, at1);
    TrimOfWhiteAround(ChildText(cell, 2), l, at2);
  }

  // ---------------------------------------------------------------------
  // Isotopic abundances

  /** `isotopicAbundancesPreprocessor`: the object the rows build, or `null`
      when it has no key, which is exactly when the cell has no rows. */
  function IsotopicAbundances(name: string, cell: Node): (f: Field)
    ensures f.key == CamelCase(name) && f.body.Labelled? && f.body.name == name && f.body.units.None?
    ensures f.body.value.Null? <==> Find(cell, "tr") == []
    ensures !f.body.value.Null? ==> f.body.value == NumMap(Abundances(cell))
  {
    AbundancesEmpty(cell);
    var m := Abundances(cell);
    Record(name, if m == map[] then Null else NumMap(m), None)
  }

  // ---------------------------------------------------------------------
  // Comma-separated values

  /** `csvPreprocessor`: the pieces between `, ` separators, or `null` for
      `N/A`. */
  function Csv(name: string, cell: Node): (f: Field)
    ensures f.key == CamelCase(name) && f.body.Labelled? && f.body.name == name && f.body.units.None?
    ensures f.body.value.Null? <==> ListText(cell) == "N/A"
    ensures !f.body.value.Null? ==> f.body.value.StrList?
                                    && Join(f.body.value.strings, ", ") == ListText(cell)
                                    && forall k :: 0 <= k < |f.body.value.strings| ==> !Contains(f.body.value.strings[k], ", ")
  {
    var t := ListText(cell);
    Record(name, if t == "N/A" then Null else StrList(Split(t, ", ")), None)
  }

  /** The unit text of a list: what follows the first space of its last
      piece. */
  function ListUnits(pieces: seq<string>): (u: string)
    requires pieces != []
    ensures Contains(pieces[|pieces| - 1], " ") ==>
              pieces[|pieces| - 1] == pieces[|pieces| - 1][..IndexOf(pieces[|pieces| - 1], " ").value] + " " + u
    ensures !Contains(pieces[|pieces| - 1], " ") ==> u == ""
  {
    SplitOnce(pieces[|pieces| - 1], " ").1
  }

  /** `floatCsvWithUnitPreprocessor`: one number per piece (kept even when
      it does not parse) and the units of the last piece, or `null` for
      `N/A`; a failing unit fails the rule. */
  function FloatCsvWithUnit(name: string, cell: Node): (r: Result<Field>)
    ensures var t := ListText(cell);
            var pieces := Split(t, ", ");
            && (t == "N/A" ==> r == Ok(Record(name, Null, None)))
            && (t != "N/A" ==> (r.Err? <==> GetUnitRepresentation(ListUnits(pieces)).Err?))
            && (r.Ok? ==> r.value.key == CamelCase(name) && r.value.body.Labelled? && r.value.body.name == name)
            && (r.Ok? && t != "N/A" ==>
                  && r.value.body.value.NumList?
                  && |r.value.body.value.numbers| == |pieces|
                  && (forall k :: 0 <= k < |pieces| ==>
                        r.value.body.value.numbers[k] == ParseFloat(TimesTenAsExponent(pieces[k])))
                  && r.value.body.units == Some(GetUnitRepresentation(ListUnits(pieces)).value))
  {
    var t := ListText(cell);
    if t == "N/A" then Ok(Record(name, Null, None))
    else
      var pieces := Split(t, ", ");
      match GetUnitRepresentation(ListUnits(pieces))
      case Err(e) => Err(e)
      case Ok(u) => Ok(Record(name, NumList(ParseFloats(pieces)), Some(u)))
  }

  /** Three literals separated by `, `, the last followed by a space and a
      unit without `, `, read as the three values and that unit. */
  lemma FloatCsvWithUnitReads(name: string, cell: Node, a: Literal, b: Literal, c: Literal, unit: string)
    requires WellFormed(a) && WellFormed(b) && WellFormed(c) && !Contains(unit, ", ")
    requires ListText(cell) == Render(a) + ", " + Render(b) + ", " + Render(c) + " " + unit
    ensures var r := FloatCsvWithUnit(name, cell);
            && (r.Err? <==> GetUnitRepresentation(unit).Err?)
            && (r.Ok? ==> && r.value.body.value
                             == NumList([Finite(LiteralValue(a)), Finite(LiteralValue(b)), Finite(LiteralValue(c))])
                          && r.value.body.units == Some(GetUnitRepresentation(unit).value))
  {
    ListPieces(ListText(cell), a, b, c, unit);
    var pieces := [Render(a), Render(b), Render(c) + " " + unit];
    LastPieceUnits(pieces, c, unit);
    ThreeNumbers(a, b, c, unit);
  }

  lemma LastPieceUnits(pieces: seq<string>, c: Literal, unit: string)
    requires WellFormed(c) && pieces != [] && pieces[|pieces| - 1] == Render(c) + " " + unit
    ensures ListUnits(pieces) == unit
  {
    LiteralLacks(c, ' ');
    SeparableWithout(Render(c), " ");
    SplitOnceAfter(Render(c), " ", unit);
  }

  lemma ThreeNumbers(a: Literal, b: Literal, c: Literal, unit: string)
    requires WellFormed(a) && WellFormed(b) && WellFormed(c)
    ensures ParseFloats([Render(a), Render(b), Render(c) + " " + unit])
            == [Finite(LiteralValue(a)), Finite(LiteralValue(b)), Finite(LiteralValue(c))]
  {
    var pieces := [Render(a), Render(b), Render(c) + " " + unit];
    var xs := ParseFloats(pieces);
    LiteralReads(a);
    LiteralReads(b);
    LiteralThenTextReads(c, unit);
    SeqOfThree(xs, Finite(LiteralValue(a)), Finite(LiteralValue(b)), Finite(LiteralValue(c)));
  }

  // ---------------------------------------------------------------------
  // Dispatch

  /** The preprocessor function a rule names, applied; the float, electron
      configuration, discovery and isotope rules are the shared ones. */
  function Apply(rule: Rule, name: string, cell: Node): (r: Result<Field>)
    requires Defines(rule)
    ensures r.Err? ==> rule == FloatWithUnitRule || rule == FloatCsvWithUnitRule
    ensures r.Ok? ==> r.value.key == (if rule == PercentRule then PercentKey(name) else CamelCase(name))
    ensures r.Ok? ==> r.value.body.name == name
    ensures rule == FloatRule ==> r == Ok(Float(name, cell))
    ensures rule == ElectronConfigurationRule ==> r == Ok(ElectronConfiguration(name, cell))
    ensures rule == DiscoveryRule ==> r == Ok(Discovery(name, cell))
    ensures rule == IsotopesRule ==> r == Ok(Isotopes(name, cell))
  {
    match rule
    case IntegerRule => Ok(Integer(name, cell))
    case FloatRule => Ok(Float(name, cell))
    case FloatWithUnitRule => FloatWithUnit(name, cell)
    case PercentRule => Ok(Percent(name, cell))
    case NfpaLabelRule => Ok(NfpaLabel(name, cell))
    case ElectronConfigurationRule => Ok(ElectronConfiguration(name, cell))
    case DiscoveryRule => Ok(Discovery(name, cell))
    case QuantumNumbersRule => Ok(QuantumNumbers(name, cell))
    case IsotopesRule => Ok(Isotopes(name, cell))
    case IsotopicAbundancesRule => Ok(IsotopicAbundances(name, cell))
    case CsvRule => Ok(Csv(name, cell))
    case FloatCsvWithUnitRule => FloatCsvWithUnit(name, cell)
  }

  /** `callPreprocessor`: the rule the label names, or the default rule for
      a label the table does not know. Only the two unit-aware rules can
      fail. */
  function CallPreprocessor(name: string, cell: Node): (r: Result<Field>)
    ensures Registry(name).None? ==> r == Ok(Default(name, cell))
    ensures Registry(name).Some? ==> r == Apply(Registry(name).value, name, cell)
    ensures r.Err? ==> Registry(name) == Some(FloatWithUnitRule) || Registry(name) == Some(FloatCsvWithUnitRule)
    ensures r.Ok? ==> r.value.body.name == name
  {
    match Registry(name)
    case None => Ok(Default(name, cell))
    case Some(rule) => Apply(rule, name, cell)
  }
}
