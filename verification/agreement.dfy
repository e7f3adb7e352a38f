/** How the two revisions relate: which labels they route alike, and on
    which cells the rules they define differently still agree. */
module Agreement {
  import opened Wrappers
  import opened JsString
  import opened Numbers
  import opened Dom
  import opened Fields
  import opened Rules
  import opened Units
  import Revision1
  import Revision2

  /** The labels whose rule changed between the revisions. */
  predicate Rerouted(name: string) {
    name == "Ionization Energies" || name == "Lattice Constants" || name == "Quantum Numbers"
  }

  /** The tables name the same rule for every label except the three that
      were rerouted. */
  lemma RegistriesAgree(name: string)
    ensures Revision1.Registry(name) == Revision2.Registry(name) <==> !Rerouted(name)
  {
    if Rerouted(name) {
      Rerouting(name);
    } else {
      UnchangedRoutes(name);
    }
  }

  lemma UnchangedRoutes(name: string)
    requires !Rerouted(name)
    ensures Revision1.Registry(name) == Revision2.Registry(name)
  {
  }

  /** The ionization energies and lattice constants left the unit-aware
      list rule, and the quantum numbers lost their rule. */
  lemma Rerouting(name: string)
    requires Rerouted(name)
    ensures name == "Ionization Energies" ==>
              Revision1.Registry(name) == Some(FloatCsvWithUnitRule) && Revision2.Registry(name) == Some(FloatCsvRule)
    ensures name == "Lattice Constants" ==>
              Revision1.Registry(name) == Some(FloatCsvWithUnitRule) && Revision2.Registry(name) == Some(LatticeConstantsRule)
    ensures name == "Quantum Numbers" ==>
              Revision1.Registry(name) == Some(QuantumNumbersRule) && Revision2.Registry(name).None?
  {
    if name == "Ionization Energies" {
      IonizationEnergiesBefore();
      IonizationEnergiesAfter();
    } else if name == "Lattice Constants" {
      LatticeConstantsBefore();
      LatticeConstantsAfter();
    } else {
      QuantumNumbersBefore();
      QuantumNumbersAfter();
    }
  }

  lemma IonizationEnergiesBefore()
    ensures Revision1.Registry("Ionization Energies") == Some(FloatCsvWithUnitRule)
  {
  }

  lemma IonizationEnergiesAfter()
    ensures Revision2.Registry("Ionization Energies") == Some(FloatCsvRule)
  {
  }

  lemma LatticeConstantsBefore()
    ensures Revision1.Registry("Lattice Constants") == Some(FloatCsvWithUnitRule)
  {
  }

  lemma LatticeConstantsAfter()
    ensures Revision2.Registry("Lattice Constants") == Some(LatticeConstantsRule)
  {
  }

  lemma QuantumNumbersBefore()
    ensures Revision1.Registry("Quantum Numbers") == Some(QuantumNumbersRule)
  {
  }

  lemma QuantumNumbersAfter()
    ensures Revision2.Registry("Quantum Numbers") .None?
  {
  }

  /** A label both tables send to a rule both revisions share, or neither
      table knows, is preprocessed identically. */
  lemma SharedRulesAgree(name: string, cell: Node)
    requires Revision1.Registry(name) in
             {None, Some(FloatRule), Some(ElectronConfigurationRule), Some(DiscoveryRule), Some(IsotopesRule)}
    ensures Revision1.CallPreprocessor(name, cell) == Revision2.CallPreprocessor(name, cell)
  {
    var r := Revision1.Registry(name);
    RegistriesAgree(name);
    if Rerouted(name) {
      Rerouting(name);
    }
    assert Revision2.Registry(name) == r;
    if r.Some? {
      SameApply(r.value, name, cell);
    }
  }

  /** The four shared rules are the same functions in both revisions. */
  lemma SameApply(rule: Rule, name: string, cell: Node)
    requires rule in {FloatRule, ElectronConfigurationRule, DiscoveryRule, IsotopesRule}
    ensures Revision1.Apply(rule, name, cell) == Revision2.Apply(rule, name, cell)
  {
  }

  /** The second revision's inline unit steps are `getUnitRepresentation`. */
  lemma FloatWithUnitAgrees(name: string, cell: Node)
    ensures Revision1.FloatWithUnit(name, cell) == Revision2.FloatWithUnit(name, cell)
  {
  }

  /** On a cell that starts with an integer below 10^21 in magnitude,
      followed by text that cannot continue a number and does not start with
      `×`, both integer rules read that integer. */
  lemma IntegerAgrees(name: string, cell: Node, i: int, rest: string)
    requires TextOf(cell) == IntToString(i) + rest
    requires Stops(IntegerLiteral(i), rest) && (rest == [] || rest[0] != '\U{00D7}')
    requires -1000000000000000000000 < i < 1000000000000000000000
    ensures Revision1.Integer(name, cell) == Revision2.Integer(name, cell)
  {
    Revision1.IntegerReadsInteger(name, cell, i, rest);
    Revision2.IntegerReadsInteger(name, cell, i, rest);
  }

  /** Where the integer rules part ways: a natural number `i` printed with a
      `×10<sup>e</sup>` exponent. The first revision reads `i`·10^e, since
      `parseFloat` reads the rewritten `e` as an exponent; the second reads
      `i` alone, since `parseInt` stops at the `e`. */
  lemma IntegerExponentDiffers(name: string, cell: Node, i: nat, e: nat)
    requires TextOf(cell) == IntToString(i) + "\U{00D7}10" + NatToString(e)
    requires i * Pow10(e) < 1000000000000000000000
    ensures Revision1.Integer(name, cell).body.value == Num(Finite((i * Pow10(e)) as real))
    ensures Revision2.Integer(name, cell).body.value == Num(Finite(i as real))
    ensures i != 0 && e != 0 ==> Revision1.Integer(name, cell) != Revision2.Integer(name, cell)
  {
    Revision1.IntegerReadsScientific(name, cell, i, e);
    Revision2.IntegerIgnoresExponent(name, cell, i, e);
    if i != 0 && e != 0 {
      PowerGrows(i, e);
    }
  }

  /** The percent rules agree on a cell with at most one child: the first
      child's text is then the text of all children. */
  lemma PercentAgrees(name: string, cell: Node)
    requires |Contents(cell)| <= 1
    ensures Revision1.Percent(name, cell) == Revision2.Percent(name, cell)
  {
    var kids := Contents(cell);
    if kids == [] {
      Revision2.EmptyIsNotANumber();
    } else {
      assert kids[1..] == [];
      assert TextOfAll(kids) == TextOf(kids[0]) + TextOfAll(kids[1..]);
    }
  }

  /** The NFPA label rules agree exactly when the first image has a
      non-empty `src`: otherwise the first revision records `null`, the
      second `undefined` or the empty text. */
  lemma NfpaLabelAgrees(name: string, cell: Node)
    ensures Revision1.NfpaLabel(name, cell) == Revision2.NfpaLabel(name, cell)
            <==> Revision1.NfpaLabel(name, cell).body.value.Str?
  {
  }

  /** The abundance rules agree exactly when the cell has rows. */
  lemma IsotopicAbundancesAgree(name: string, cell: Node)
    ensures Revision1.IsotopicAbundances(name, cell) == Revision2.IsotopicAbundances(name, cell)
            <==> Find(cell, "tr") != []
  {
  }

  /** The list rules agree except on `N/A`, which only the first revision
      turns into `null`. */
  lemma CsvAgrees(name: string, cell: Node)
    ensures Revision1.Csv(name, cell) == Revision2.Csv(name, cell) <==> ListText(cell) != "N/A"
  {
  }
}
