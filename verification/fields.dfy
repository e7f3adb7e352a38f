/** The records the preprocessors return, `{key, value: {label, ...}}`, and
    the small pieces every rule is built from. */
module Fields {
  import opened Wrappers
  import opened JsString
  import opened Numbers
  import opened Keys
  import opened Units

  /** What a record's `value` property can hold. `Null` is JavaScript's
      `null`; `Undefined` is a property read that found nothing. */
  datatype Value =
    | Null
    | Undefined
    | Str(text: string)
    | Num(number: Number)
    | NumList(numbers: seq<Number>)
    | StrList(strings: seq<string>)
    | NumMap(entries: map<Number, Number>)
    | Config(base: Option<string>, shells: map<string, Number>)
    | TermSymbol(spinMultiplicity: Number, angularMomentum: string, orbital: string)

  /** The object under a record's `value` key: `{label, value}` (the label
      is `name` here, `label` being a Dafny keyword), with `units`
      for the unit-aware rules, or `{label, year, countries}` for discovery. */
  datatype Body =
    | Labelled(name: string, value: Value, units: Option<Unit>)
    | Discovered(name: string, year: Number, countries: Option<seq<string>>)

  datatype Field = Field(key: string, body: Body)

  /** The preprocessor functions a registry can name. */
  datatype Rule =
    | IntegerRule | FloatRule | FloatWithUnitRule | PercentRule | NfpaLabelRule
    | ElectronConfigurationRule | DiscoveryRule | QuantumNumbersRule
    | IsotopesRule | IsotopicAbundancesRule | CsvRule | FloatCsvWithUnitRule
    | FloatCsvRule | LatticeConstantsRule

  /** A record under the camel-cased label, keeping the label verbatim. */
  function Record(name: string, value: Value, units: Option<Unit>): (f: Field)
    ensures f.key == CamelCase(name) && f.body.Labelled? && f.body.name == name
  {
    Field(CamelCase(name), Labelled(name, value, units))
  }

  /** The record of a number and the units read after it, or the unit
      parser's failure. */
  function MeasuredRecord(name: string, x: Number, units: Result<Unit>): (r: Result<Field>)
    ensures r.Err? <==> units.Err?
    ensures r.Ok? ==> r.value == Record(name, Num(x), Some(units.value))
  {
    match units
    case Err(e) => Err(e)
    case Ok(u) => Ok(Record(name, Num(x), Some(u)))
  }

  /** `s.replace('×10', 'e')`: the first `×10` of the cells' scientific
      notation becomes an exponent marker. */
  function TimesTenAsExponent(s: string): string {
    ReplaceFirst(s, "\U{00D7}10", "e")
  }

  /** `s.replace('[note]', '')`. */
  function DropNote(s: string): string {
    ReplaceFirst(s, "[note]", "")
  }

  /** Replacing in `p + q` a pattern whose first character `p` lacks
      leaves `p` alone. */
  lemma ReplaceAfterPrefix(p: string, q: string, pat: string, rep: string)
    requires pat != [] && pat[0] !in p
    ensures ReplaceFirst(p + q, pat, rep) == p + ReplaceFirst(q, pat, rep)
  {
    match IndexOf(q, pat)
    case None => ReplaceAfterPrefixMiss(p, q, pat, rep);
    case Some(i) => ReplaceAfterPrefixHit(p, q, pat, rep, i);
  }

  lemma ReplaceAfterPrefixMiss(p: string, q: string, pat: string, rep: string)
    requires pat != [] && pat[0] !in p && IndexOf(q, pat).None?
    ensures ReplaceFirst(p + q, pat, rep) == p + q == p + ReplaceFirst(q, pat, rep)
  {
    var s := p + q;
    forall j | 0 <= j ensures !OccursAt(s, pat, j) {
      OccursAfterPrefix(p, q, pat, j);
    }
    assert IndexOf(s, pat).None?;
  }

  lemma ReplaceAfterPrefixHit(p: string, q: string, pat: string, rep: string, i: nat)
    requires pat != [] && pat[0] !in p && IndexOf(q, pat) == Some(i)
    ensures ReplaceFirst(p + q, pat, rep) == p + ReplaceFirst(q, pat, rep)
  {
    ReplaceBehindPrefix(p, q, pat, rep, i);
    ReplaceAt(q, pat, rep, i);
    SpliceAfterPrefix(p, q, |pat|, rep, i, ReplaceFirst(p + q, pat, rep), ReplaceFirst(q, pat, rep));
  }

  lemma ReplaceBehindPrefix(p: string, q: string, pat: string, rep: string, i: nat)
    requires pat != [] && pat[0] !in p && IndexOf(q, pat) == Some(i)
    ensures i + |pat| <= |q|
    ensures ReplaceFirst(p + q, pat, rep) == (p + q)[..|p| + i] + rep + (p + q)[|p| + i + |pat|..]
  {
    assert OccursAt(q, pat, i);
    var s := p + q;
    assert IndexOf(s, pat) == Some(|p| + i) by {
      FirstOccurrenceAfterPrefix(p, q, pat, i);
    }
    ReplaceAt(s, pat, rep, |p| + i);
  }

  /** Cutting `n` characters at `|p| + i` out of `p + q` and splicing in
      `rep` is the same as doing so at `i` in `q` behind `p`. */
  lemma SpliceAfterPrefix(p: string, q: string, n: nat, rep: string, i: nat, whole: string, part: string)
    requires i + n <= |q|
    requires whole == (p + q)[..|p| + i] + rep + (p + q)[|p| + i + n..]
    requires part == q[..i] + rep + q[i + n..]
    ensures whole == p + part
  {
    assert (p + q)[..|p| + i] == p + q[..i];
    assert (p + q)[|p| + i + n..] == q[i + n..];
  }

  lemma FirstOccurrenceAfterPrefix(p: string, q: string, pat: string, i: nat)
    requires pat != [] && pat[0] !in p && IndexOf(q, pat) == Some(i)
    ensures IndexOf(p + q, pat) == Some(|p| + i)
  {
    var s := p + q;
    OccursAfterPrefix(p, q, pat, |p| + i);
    forall j | 0 <= j < |p| + i ensures !OccursAt(s, pat, j) {
      OccursAfterPrefix(p, q, pat, j);
    }
    IndexOfAt(s, pat, |p| + i);
  }

  // ---------------------------------------------------------------------
  // Objects filled one property at a time

  /** `m[k] = v` for each pair in order, as the rules that build an object
      in a loop do. */
  function Assign<K, V>(m: map<K, V>, pairs: seq<(K, V)>): map<K, V>
    decreases |pairs|
  {
    if pairs == [] then m else Assign(m[pairs[0].0 := pairs[0].1], pairs[1..])
  }

  /** Pair `i` is the last one that writes key `k`. */
  predicate LastWrite<K(==), V>(pairs: seq<(K, V)>, k: K, i: int) {
    && 0 <= i < |pairs| && pairs[i].0 == k
    && forall j :: i < j < |pairs| ==> pairs[j].0 != k
  }

  predicate Writes<K(==), V>(pairs: seq<(K, V)>, k: K) {
    exists i :: 0 <= i < |pairs| && pairs[i].0 == k
  }

  /** A key ends up in the object exactly when it was there or some pair
      writes it, and the last pair that writes it decides its value. */
  lemma {:induction false} AssignLastWins<K, V>(m: map<K, V>, pairs: seq<(K, V)>, k: K)
    ensures k in Assign(m, pairs) <==> k in m || Writes(pairs, k)
    ensures forall i :: LastWrite(pairs, k, i) ==> k in Assign(m, pairs) && Assign(m, pairs)[k] == pairs[i].1
    ensures !Writes(pairs, k) && k in m ==> Assign(m, pairs)[k] == m[k]
    decreases |pairs|
  {
    if pairs != [] {
      var m' := m[pairs[0].0 := pairs[0].1];
      var tail := pairs[1..];
      AssignLastWins(m', tail, k);
      assert Writes(pairs, k) <==> pairs[0].0 == k || Writes(tail, k) by {
        if Writes(tail, k) {
          var i :| 0 <= i < |tail| && tail[i].0 == k;
          assert pairs[i + 1].0 == k;
        }
        if Writes(pairs, k) && pairs[0].0 != k {
          var i :| 0 <= i < |pairs| && pairs[i].0 == k;
          assert tail[i - 1].0 == k;
        }
      }
      forall i | LastWrite(pairs, k, i)
        ensures k in Assign(m, pairs) && Assign(m, pairs)[k] == pairs[i].1
      {
        if i == 0 {
          assert !Writes(tail, k) by {
            forall j | 0 <= j < |tail| ensures tail[j].0 != k {
              assert tail[j] == pairs[j + 1];
            }
          }
        } else {
          assert LastWrite(tail, k, i - 1) by {
            forall j | i - 1 < j < |tail| ensures tail[j].0 != k {
              assert tail[j] == pairs[j + 1];
            }
          }
        }
      }
    }
  }

  /** The pairs of two equally long columns, row by row. */
  function Zip<K, V>(keys: seq<K>, vals: seq<V>): (pairs: seq<(K, V)>)
    requires |keys| == |vals|
    ensures |pairs| == |keys| && forall i :: 0 <= i < |keys| ==> pairs[i] == (keys[i], vals[i])
  {
    seq(|keys|, i requires 0 <= i < |keys| => (keys[i], vals[i]))
  }

  /** Filling an empty object row by row: a key is present exactly when
      some row carries it, and the last such row decides its value. */
  lemma AssignRowsLastWins<K, V>(keys: seq<K>, vals: seq<V>, k: K)
    requires |keys| == |vals|
    ensures var m := Assign(map[], Zip(keys, vals));
            && (k in m <==> k in keys)
            && forall i :: 0 <= i < |keys| && keys[i] == k && (forall j :: i < j < |keys| ==> keys[j] != k)
                           ==> k in m && m[k] == vals[i]
  {
    var pairs := Zip(keys, vals);
    AssignLastWins(map[], pairs, k);
    assert Writes(pairs, k) <==> k in keys by {
      if Writes(pairs, k) {
        var i :| 0 <= i < |pairs| && pairs[i].0 == k;
        assert keys[i] == k;
      }
      if k in keys {
        var i :| 0 <= i < |keys| && keys[i] == k;
        assert pairs[i].0 == k;
      }
    }
    forall i | 0 <= i < |keys| && keys[i] == k && (forall j :: i < j < |keys| ==> keys[j] != k)
      ensures LastWrite(pairs, k, i)
    {
    }
  }
}
