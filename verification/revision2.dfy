/** The second revision of the preprocessors (`data-preprocessors.js` at the
    repository root): its label-to-rule table, the rules it defines
    differently from the first revision, and `callPreprocessor`. */
module Revision2 {
  import opened Wrappers
  import opened JsString
  import opened Numbers
  import opened Dom
  import opened Keys
  import opened Units
  import opened Fields
  import opened Rules

  /** The rules this revision defines. */
  predicate Defines(rule: Rule) {
    rule != QuantumNumbersRule && rule != FloatCsvWithUnitRule
  }

  /** `preprocessorMappings`: the rule a label names, if any. The entries
      are those of the source table, grouped by the length of their label
      (a label can only equal an entry of its own length) and in table
      order within each group. */
  function Registry(name: string): (r: Option<Rule>)
    ensures r.Some? ==> Defines(r.value)
  {
    if |name| < 15 then ShortLabels(name)
    else if |name| < 18 then MiddleLabels(name)
    else LongLabels(name)
  }

  /** The entries whose label has fewer than 15 characters. */
  function ShortLabels(name: string): (r: Option<Rule>)
    ensures r.Some? ==> Defines(r.value)
  {
    match |name|
    case 5 =>
      (match name
       case "Group" => Some(IntegerRule)
       case _ => None)
    case 6 =>
      (match name
       case "Period" => Some(IntegerRule)
       case _ => None)
    case 7 =>
      (match name
       case "Density" => Some(FloatWithUnitRule)
       case "Valence" => Some(IntegerRule)
       case _ => None)
    case 8 =>
      (match name
       case "% in Sun" => Some(PercentRule)
       case "Lifetime" => Some(FloatWithUnitRule)
       case _ => None)
    case 9 =>
      (match name
       case "Discovery" => Some(DiscoveryRule)
       case "Half-Life" => Some(FloatWithUnitRule)
       case _ => None)
    case 10 =>
      (match name
       case "Neel Point" => Some(FloatWithUnitRule)
       case "Flashpoint" => Some(FloatWithUnitRule)
       case "NFPA Label" => Some(NfpaLabelRule)
       case _ => None)
    case 11 =>
      (match name
       case "DOT Numbers" => Some(IntegerRule)
       case "Resistivity" => Some(FloatWithUnitRule)
       case "Curie Point" => Some(FloatWithUnitRule)
       case "% in Oceans" => Some(PercentRule)
       case "% in Humans" => Some(PercentRule)
       case _ => None)
    case 12 =>
      (match name
       case "Molar Volume" => Some(FloatRule)
       case "Bulk Modulus" => Some(FloatWithUnitRule)
       case _ => None)
    case 13 =>
      (match name
       case "Atomic Number" => Some(IntegerRule)
       case "Atomic Weight" => Some(FloatRule)
       case "Melting Point" => Some(FloatWithUnitRule)
       case "Boiling Point" => Some(FloatWithUnitRule)
       case "Specific Heat" => Some(FloatWithUnitRule)
       case "Mohs Hardness" => Some(FloatWithUnitRule)
       case "Shear Modulus" => Some(FloatWithUnitRule)
       case "Young Modulus" => Some(FloatWithUnitRule)
       case "Poisson Ratio" => Some(FloatRule)
       case "% in Universe" => Some(PercentRule)
       case "Atomic Radius" => Some(FloatWithUnitRule)
       case _ => None)
    case 14 =>
      (match name
       case "Heat of Fusion" => Some(FloatWithUnitRule)
       case "Speed of Sound" => Some(FloatWithUnitRule)
       case "Lattice Angles" => Some(CsvRule)
       case "Known Isotopes" => Some(IsotopesRule)
       case _ => None)
    case _ => None
  }

  /** The entries whose label has 15 to 17 characters. */
  function MiddleLabels(name: string): (r: Option<Rule>)
    ensures r.Some? ==> Defines(r.value)
  {
    match |name|
    case 15 =>
      (match name
       case "Adiabatic Index" => Some(FloatRule)
       case "% in Meteorites" => Some(PercentRule)
       case "Covalent Radius" => Some(FloatWithUnitRule)
       case "Stable Isotopes" => Some(IsotopesRule)
       case _ => None)
    case 16 =>
      (match name
       case "Density (Liquid)" => Some(FloatWithUnitRule)
       case "Brinell Hardness" => Some(FloatWithUnitRule)
       case "Vickers Hardness" => Some(FloatWithUnitRule)
       case "Refractive Index" => Some(FloatRule)
       case "ElectronAffinity" => Some(FloatWithUnitRule)
       case "NFPA Fire Rating" => Some(IntegerRule)
       case _ => None)
    case 17 =>
      (match name
       case "Critical Pressure" => Some(FloatWithUnitRule)
       case "Thermal Expansion" => Some(FloatWithUnitRule)
       case "Electronegativity" => Some(FloatRule)
       case "Lattice Constants" => Some(LatticeConstantsRule)
       case _ => None)
    case _ => None
  }

  /** The entries whose label has at least 18 characters. */
  function LongLabels(name: string): (r: Option<Rule>)
    ensures r.Some? ==> Defines(r.value)
  {
    match |name|
    case 18 =>
      (match name
       case "Heat of Combustion" => Some(FloatWithUnitRule)
       case "Autoignition Point" => Some(FloatWithUnitRule)
       case "NFPA Health Rating" => Some(IntegerRule)
       case "% in Earth's Crust" => Some(PercentRule)
       case "Space Group Number" => Some(IntegerRule)
       case _ => None)
    case 19 =>
      (match name
       case "Ionization Energies" => Some(FloatCsvRule)
       case "Isotopic Abundances" => Some(IsotopicAbundancesRule)
       case _ => None)
    case 20 =>
      (match name
       case "Critical Temperature" => Some(FloatWithUnitRule)
       case "Heat of Vaporization" => Some(FloatWithUnitRule)
       case "Thermal Conductivity" => Some(FloatWithUnitRule)
       case "Van der Waals Radius" => Some(FloatWithUnitRule)
       case _ => None)
    case 21 =>
      (match name
       case "Superconducting Point" => Some(FloatRule)
       case "Neutron Cross Section" => Some(FloatRule)
       case _ => None)
    case 22 =>
      (match name
       case "Absolute Melting Point" => Some(FloatWithUnitRule)
       case "Absolute Boiling Point" => Some(FloatWithUnitRule)
       case "NFPA Reactivity Rating" => Some(IntegerRule)
       case "Electron Configuration" => Some(ElectronConfigurationRule)
       case _ => None)
    case 23 =>
      (match name
       case "Electrical Conductivity" => Some(FloatWithUnitRule)
       case "Neutron Mass Absorption" => Some(FloatRule)
       case _ => None)
    case 28 =>
      (match name
       case "Mass Magnetic Susceptibility" => Some(FloatRule)
       case _ => None)
    case 29 =>
      (match name
       case "Molar Magnetic Susceptibility" => Some(FloatRule)
       case _ => None)
    case 30 =>
      (match name
       case "Volume Magnetic Susceptibility" => Some(FloatRule)
       case _ => None)
    case _ => None
  }

  // ---------------------------------------------------------------------
  // Integer

  /** `integerPreprocessor`: `parseInt` of the text, `×10` read as an
      exponent marker (which `parseInt` then stops at). */
  function Integer(name: string, cell: Node): (f: Field)
    ensures f.key == CamelCase(name) && f.body.Labelled? && f.body.name == name && f.body.units.None?
    ensures f.body.value.Num?
    ensures var t := TimesTenAsExponent(TextOf(cell));
            && (f.body.value.number.NaN? <==> !BeginsInteger(TrimStart(t)))
            && !f.body.value.number.Infinity?
            && (f.body.value.number.Finite? ==> IsInteger(f.body.value.number.value))
  {
    Record(name, Num(ParseInt(TimesTenAsExponent(TextOf(cell)))), None)
  }

  /** A cell whose text starts with an integer reads as that integer,
      whatever non-digit text follows it. That includes a `×10` exponent
      (`"2×10<sup>3</sup>"` has the text `"2×103"` and reads as 2): the
      rewrite turns it into `e`, where `parseInt` stops. */
  lemma IntegerReadsInteger(name: string, cell: Node, i: int, rest: string)
    requires TextOf(cell) == IntToString(i) + rest
    requires rest == [] || !IsDigit(rest[0])
    ensures Integer(name, cell).body.value == Num(Finite(i as real))
  {
    IntegerLiteralReads(i);
    LiteralLacks(IntegerLiteral(i), '\U{00D7}');
    ReplaceAfterPrefix(IntToString(i), rest, "\U{00D7}10", "e");
    TimesTenKeepsNonDigitHead(rest);
    ParseIntReadsInteger(i, TimesTenAsExponent(rest));
  }

  /** A natural number printed with a `×10<sup>e</sup>` exponent reads as
      the number before the exponent. */
  lemma IntegerIgnoresExponent(name: string, cell: Node, i: nat, e: nat)
    requires TextOf(cell) == IntToString(i) + "\U{00D7}10" + NatToString(e)
    ensures Integer(name, cell).body.value == Num(Finite(i as real))
  {
    var rest := "\U{00D7}10" + NatToString(e);
    assert TextOf(cell) == IntToString(i) + rest;
    IntegerReadsInteger(name, cell, i, rest);
  }

  // ---------------------------------------------------------------------
  // Float with unit

  /** `floatWithUnitPreprocessor`, which spells out the steps of
      `getUnitRepresentation` on the text after the number: trim it, read a
      ratio when it has a `/`, otherwise cut out `[note]` and a
      parenthesised group. */
  function FloatWithUnit(name: string, cell: Node): (r: Result<Field>)
    ensures var q := Quantity(cell);
            var u := Trim(q.1);
            && (q.0.NaN? ==> r == Ok(Record(name, Num(q.0), None)))
            && (!q.0.NaN? ==> (r.Err? <==> Contains(u, "/") && NoWordChar(AfterFirstSlash(u))))
            && (r.Ok? ==> r.value.key == CamelCase(name) && r.value.body.Labelled? && r.value.body.name == name
                          && r.value.body.value == Num(q.0))
            && (r.Ok? && !q.0.NaN? ==> r.value.body.units.Some?
                                       && (r.value.body.units.value.Ratio? <==> Contains(u, "/"))
                                       && UnitReading(q.1, r.value.body.units.value))
  {
    var q := Quantity(cell);
    if q.0.NaN? then Ok(Record(name, Num(q.0), None))
    else
      var rawUnits := Trim(q.1);
      var units := if Contains(rawUnits, "/") then RatioUnit(rawUnits) else Ok(Plain(PlainUnit(rawUnits)));
      MeasuredRecord(name, q.0, units)
  }

  /** A cell printed as a literal, a space and a unit reads as the
      literal's value with that unit's reading, and fails exactly when a
      `/` in the unit has no word after it. */
  lemma FloatWithUnitReads(name: string, cell: Node, l: Literal, u: string)
    requires WellFormed(l) && TextOf(cell) == Render(l) + " " + u
    requires u != [] && !IsWhite(u[|u| - 1])
    ensures var r := FloatWithUnit(name, cell);
            var t := Trim(u);
            && (r.Err? <==> Contains(t, "/") && NoWordChar(AfterFirstSlash(t)))
            && (r.Ok? ==> && r.value.body.value == Num(Finite(LiteralValue(l)))
                          && r.value.body.units.Some? && UnitReading(u, r.value.body.units.value))
  {
    QuantityReads(cell, l, u);
  }

  // ---------------------------------------------------------------------
  // Percent

  /** `percentPreprocessor`: the key is `percent` and the place, the value
      `parseFloat` of the text of the cell's first child only. */
  function Percent(name: string, cell: Node): (f: Field)
    ensures f.key == PercentKey(name) && f.body.Labelled? && f.body.name == name && f.body.units.None?
    ensures f.body.value.Num?
    ensures Contents(cell) == [] ==> f.body.value.number.NaN?
    ensures Contents(cell) != [] ==> f.body.value.number == ParseFloat(TimesTenAsExponent(TextOf(Contents(cell)[0])))
  {
    var t := ChildText(cell, 0);
    assert Contents(cell) == [] ==> ParseFloat(TimesTenAsExponent(t)).NaN? by {
      EmptyIsNotANumber();
    }
    Field(PercentKey(name), Labelled(name, Num(ParseFloat(TimesTenAsExponent(t))), None))
  }

  /** Nothing to read is not a number. */
  lemma EmptyIsNotANumber()
    ensures ParseFloat(TimesTenAsExponent("")).NaN?
  {
    assert !Contains("", "\U{00D7}10");
    assert TrimStart("") == "";
  }

  // ---------------------------------------------------------------------
  // NFPA label

  /** `nfpaLabelPreprocessor`: the `src` of the first image below the cell
      as it is, even when empty; `undefined` when there is none. */
  function NfpaLabel(name: string, cell: Node): (f: Field)
    ensures f.key == CamelCase(name) && f.body.Labelled? && f.body.name == name && f.body.units.None?
    ensures var imgs := Find(cell, "img");
            && (f.body.value.Str? <==> imgs != [] && imgs[0].Element? && "src" in imgs[0].attributes)
            && (f.body.value.Str? ==> f.body.value.text == imgs[0].attributes["src"])
            && (!f.body.value.Str? ==> f.body.value.Undefined?)
  {
    var src := Attr(First(Find(cell, "img")), "src");
    Record(name, if src.Some? then Str(src.value) else Undefined, None)
  }

  // ---------------------------------------------------------------------
  // Lattice constants

  /** `parseFloat` of each piece as it is; this rule does not read `×10`. */
  function ParsePlain(pieces: seq<string>): (r: seq<Number>)
    ensures |r| == |pieces| && forall k :: 0 <= k < |pieces| ==> r[k] == ParseFloat(pieces[k])
  {
    seq(|pieces|, k requires 0 <= k < |pieces| => ParseFloat(pieces[k]))
  }

  /** The text of the lattice-constants cell: trimmed first, then the first
      `[note]` dropped (so white space before the marker stays). */
  function LatticeText(cell: Node): string {
    DropNote(Trim(TextOf(cell)))
  }

  /** `latticeConstantsPreprocessor`: one number per `, `-separated piece,
      kept even when it does not parse, or `null` for `N/A`. */
  function LatticeConstants(name: string, cell: Node): (f: Field)
    ensures f.key == CamelCase(name) && f.body.Labelled? && f.body.name == name && f.body.units.None?
    ensures var t := LatticeText(cell);
            var pieces := Split(t, ", ");
            && (f.body.value.Null? <==> t == "N/A")
            && (!f.body.value.Null? ==>
                  && f.body.value.NumList?
                  && |f.body.value.numbers| == |pieces|
                  && Join(pieces, ", ") == t
                  && forall k :: 0 <= k < |pieces| ==> f.body.value.numbers[k] == ParseFloat(pieces[k]))
  {
    Record(name, LatticeValue(LatticeText(cell)), None)
  }

  function LatticeValue(t: string): Value {
    if t == "N/A" then Null else NumList(ParsePlain(Split(t, ", ")))
  }

  /** Lattice constants printed as `a, b, c pm` read as the three numbers. */
  lemma LatticeConstantsRead(name: string, cell: Node, a: Literal, b: Literal, c: Literal, unit: string)
    requires WellFormed(a) && WellFormed(b) && WellFormed(c)
    requires LatticeText(cell) == Render(a) + ", " + Render(b) + ", " + Render(c) + " " + unit
    requires !Contains(unit, ", ")
    ensures LatticeConstants(name, cell).body.value
            == NumList([Finite(LiteralValue(a)), Finite(LiteralValue(b)), Finite(LiteralValue(c))])
  {
    LatticeValueRead(LatticeText(cell), a, b, c, unit);
  }

  lemma LatticeValueRead(t: string, a: Literal, b: Literal, c: Literal, unit: string)
    requires WellFormed(a) && WellFormed(b) && WellFormed(c)
    requires t == Render(a) + ", " + Render(b) + ", " + Render(c) + " " + unit
    requires !Contains(unit, ", ")
    ensures LatticeValue(t) == NumList([Finite(LiteralValue(a)), Finite(LiteralValue(b)), Finite(LiteralValue(c))])
  {
    ListPieces(t, a, b, c, unit);
    ParsePlainThree(Render(a), Render(b), Render(c) + " " + unit);
    LiteralAlone(a);
    LiteralAlone(b);
    LiteralThenUnit(c, unit);
  }

  lemma LiteralAlone(l: Literal)
    requires WellFormed(l)
    ensures ParseFloat(Render(l)) == Finite(LiteralValue(l))
  {
    ParseFloatReadsLiteral(l, []);
    EmptyTail(Render(l));
  }

  lemma LiteralThenUnit(l: Literal, unit: string)
    requires WellFormed(l)
    ensures ParseFloat(Render(l) + " " + unit) == Finite(LiteralValue(l))
  {
    var rest := " " + unit;
    assert Stops(l, rest);
    ParseFloatReadsLiteral(l, rest);
    assert Render(l) + " " + unit == Render(l) + rest;
  }

  lemma EmptyTail(s: string)
    ensures s + [] == s
  {
  }

  lemma ParsePlainThree(p: string, q: string, r: string)
    ensures ParsePlain([p, q, r]) == [ParseFloat(p), ParseFloat(q), ParseFloat(r)]
  {
    var xs := ParsePlain([p, q, r]);
    assert xs[0] == ParseFloat(p) && xs[1] == ParseFloat(q) && xs[2] == ParseFloat(r);
    SeqOfThree(xs, ParseFloat(p), ParseFloat(q), ParseFloat(r));
  }

  // ---------------------------------------------------------------------
  // Isotopic abundances

  /** `isotopicAbundancesPreprocessor`: the object the rows build, empty or
      not. */
  function IsotopicAbundances(name: string, cell: Node): (f: Field)
    ensures f.key == CamelCase(name) && f.body.Labelled? && f.body.name == name && f.body.units.None?
    ensures f.body.value.NumMap?
    ensures f.body.value.entries == Abundances(cell)
    ensures f.body.value.entries == map[] <==> Find(cell, "tr") == []
  {
    AbundancesEmpty(cell);
    Record(name, NumMap(Abundances(cell)), None)
  }

  // ---------------------------------------------------------------------
  // Comma-separated values

  /** `csvPreprocessor`: the pieces between `, ` separators, with no special
      case for `N/A`. */
  function Csv(name: string, cell: Node): (f: Field)
    ensures f.key == CamelCase(name) && f.body.Labelled? && f.body.name == name && f.body.units.None?
    ensures f.body.value.StrList? && |f.body.value.strings| >= 1
    ensures Join(f.body.value.strings, ", ") == ListText(cell)
    ensures forall k :: 0 <= k < |f.body.value.strings| ==> !Contains(f.body.value.strings[k], ", ")
  {
    Record(name, StrList(Split(ListText(cell), ", ")), None)
  }

  /** The numbers among `xs`, in order. */
  function KeepNumbers(xs: seq<Number>): (r: seq<Number>)
    ensures |r| <= |xs|
    ensures forall x :: x in r <==> x in xs && !x.NaN?
    decreases |xs|
  {
    if xs == [] then []
    else
      var last := xs[|xs| - 1];
      assert xs == xs[..|xs| - 1] + [last];
      KeepNumbers(xs[..|xs| - 1]) + (if last.NaN? then [] else [last])
  }

  /** Every number is kept as often as it occurs, and no `NaN` is. */
  lemma {:induction false} KeepNumbersCounts(xs: seq<Number>)
    ensures multiset(KeepNumbers(xs)) == multiset(xs)[NaN := 0]
    decreases |xs|
  {
    if xs != [] {
      var init := xs[..|xs| - 1];
      var last := xs[|xs| - 1];
      assert xs == init + [last];
      KeepNumbersCounts(init);
      KeepNumbersSnoc(init, last);
    }
  }

  /** Keeping the numbers of a list split in two keeps those of each part,
      in order. */
  lemma {:induction false} KeepNumbersAppend(a: seq<Number>, b: seq<Number>)
    ensures KeepNumbers(a + b) == KeepNumbers(a) + KeepNumbers(b)
    decreases |b|
  {
    if b != [] {
      var init := b[..|b| - 1];
      var last := b[|b| - 1];
      assert a + b == (a + init) + [last] by {
        assert b == init + [last];
      }
      KeepNumbersAppend(a, init);
      KeepNumbersSnoc(a + init, last);
      KeepNumbersSnoc(init, last);
    } else {
      assert a + b == a;
    }
  }

  /** Nothing is dropped from a list without `NaN`. */
  lemma {:induction false} KeepAllNumbers(xs: seq<Number>)
    requires forall k :: 0 <= k < |xs| ==> !xs[k].NaN?
    ensures KeepNumbers(xs) == xs
    decreases |xs|
  {
    if xs != [] {
      var init := xs[..|xs| - 1];
      assert forall k :: 0 <= k < |init| ==> !init[k].NaN? by {
        forall k | 0 <= k < |init| ensures !init[k].NaN? {
          assert init[k] == xs[k];
        }
      }
      var last := xs[|xs| - 1];
      assert xs == init + [last];
      KeepAllNumbers(init);
      KeepNumbersSnoc(init, last);
    }
  }

  /** `floatCsvPreprocessor`: the pieces that parse, `×10` read as an
      exponent marker; the others are dropped. */
  function FloatCsv(name: string, cell: Node): (f: Field)
    ensures f.key == CamelCase(name) && f.body.Labelled? && f.body.name == name && f.body.units.None?
    ensures f.body.value.NumList?
    ensures var xs := ParseFloats(Split(ListText(cell), ", "));
            && |f.body.value.numbers| <= |xs|
            && (forall x :: x in f.body.value.numbers <==> x in xs && !x.NaN?)
            && multiset(f.body.value.numbers) == multiset(xs)[NaN := 0]
  {
    KeepNumbersCounts(ParseFloats(Split(ListText(cell), ", ")));
    Record(name, NumList(KeepNumbers(ParseFloats(Split(ListText(cell), ", ")))), None)
  }

  /** Without an `N/A` guard, a cell reading `N/A` yields the empty list:
      its one piece does not parse. */
  lemma FloatCsvNotAvailable(name: string, cell: Node)
    requires ListText(cell) == "N/A"
    ensures FloatCsv(name, cell).body.value.numbers == []
  {
    var pieces := Split(ListText(cell), ", ");
    assert |pieces| == 1 && pieces[0] == "N/A" by {
      NotAvailableHasNoSeparator();
    }
    LetterIsNotANumber(pieces[0]);
    NoNumberInOnePiece(pieces);
  }

  lemma NoNumberInOnePiece(pieces: seq<string>)
    requires |pieces| == 1 && ParseFloat(TimesTenAsExponent(pieces[0])).NaN?
    ensures KeepNumbers(ParseFloats(pieces)) == []
  {
    var xs := ParseFloats(pieces);
    assert xs[..0] == [];
  }

  /** A piece that starts with a capital letter other than the `I` of
      `Infinity` does not parse. */
  lemma LetterIsNotANumber(t: string)
    requires t != [] && 'A' <= t[0] <= 'Z' && t[0] != 'I'
    ensures ParseFloat(TimesTenAsExponent(t)).NaN?
  {
    var u := TimesTenAsExponent(t);
    assert u != [] && u[0] == t[0] by {
      ReplaceKeepsHead(t, "\U{00D7}10", "e");
    }
    LetterStartIsNaN(u);
  }

  /** The loop of `floatCsvPreprocessor`: push each piece's number unless it
      is `NaN`. */
  method FloatCsvLoop(pieces: seq<string>) returns (numbers: seq<Number>)
    ensures numbers == KeepNumbers(ParseFloats(pieces))
  {
    var xs := ParseFloats(pieces);
    numbers := [];
    var i := 0;
    while i < |pieces|
      invariant 0 <= i <= |pieces|
      invariant numbers == KeepNumbers(xs[..i])
    {
      var value := ParseFloat(TimesTenAsExponent(pieces[i]));
      assert value == xs[i];
      assert KeepNumbers(xs[..i + 1]) == numbers + (if value.NaN? then [] else [value]) by {
        SliceSnoc(xs, i);
        KeepNumbersSnoc(xs[..i], xs[i]);
      }
      if !value.NaN? {
        numbers := numbers + [value];
      }
      i := i + 1;
    }
    assert xs[..i] == xs;
  }

  lemma SliceSnoc<T>(s: seq<T>, i: nat)
    requires i < |s|
    ensures s[..i + 1] == s[..i] + [s[i]]
  {
  }

  /** Filtering a list one element longer. */
  lemma KeepNumbersSnoc(xs: seq<Number>, x: Number)
    ensures KeepNumbers(xs + [x]) == KeepNumbers(xs) + (if x.NaN? then [] else [x])
  {
    assert (xs + [x])[..|xs|] == xs;
  }

  // ---------------------------------------------------------------------
  // Dispatch

  /** The preprocessor function a rule names, applied; the float, electron
      configuration, discovery and isotope rules are the shared ones. */
  function Apply(rule: Rule, name: string, cell: Node): (r: Result<Field>)
    requires Defines(rule)
    ensures r.Err? ==> rule == FloatWithUnitRule
    ensures r.Ok? ==> r.value.key == (if rule == PercentRule then PercentKey(name) else CamelCase(name))
    ensures r.Ok? ==> r.value.body.name == name
    ensures rule == FloatRule ==> r == Ok(Float(name, cell))
    ensures rule == ElectronConfigurationRule ==> r == Ok(ElectronConfiguration(name, cell))
    ensures rule == DiscoveryRule ==> r == Ok(Discovery(name, cell))
    ensures rule == IsotopesRule ==> r == Ok(Isotopes(name, cell))
  {
    match rule
    case IntegerRule => Ok(Integer(name, cell))
    case FloatRule => Ok(Float(name, cell))
    case FloatWithUnitRule => FloatWithUnit(name, cell)
    case PercentRule => Ok(Percent(name, cell))
    case NfpaLabelRule => Ok(NfpaLabel(name, cell))
    case ElectronConfigurationRule => Ok(ElectronConfiguration(name, cell))
    case DiscoveryRule => Ok(Discovery(name, cell))
    case IsotopesRule => Ok(Isotopes(name, cell))
    case IsotopicAbundancesRule => Ok(IsotopicAbundances(name, cell))
    case CsvRule => Ok(Csv(name, cell))
    case FloatCsvRule => Ok(FloatCsv(name, cell))
    case LatticeConstantsRule => Ok(LatticeConstants(name, cell))
  }

  /** `callPreprocessor`: the rule the label names, or the default rule for
      a label the table does not know. Only the unit-aware rule can fail. */
  function CallPreprocessor(name: string, cell: Node): (r: Result<Field>)
    ensures Registry(name).None? ==> r == Ok(Default(name, cell))
    ensures Registry(name).Some? ==> r == Apply(Registry(name).value, name, cell)
    ensures r.Err? ==> Registry(name) == Some(FloatWithUnitRule)
    ensures r.Ok? ==> r.value.body.name == name
  {
    match Registry(name)
    case None => Ok(Default(name, cell))
    case Some(rule) => Apply(rule, name, cell)
  }
}
