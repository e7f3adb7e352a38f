/** The rules both revisions define with the same code: the default rule,
    the float rule, the number-and-remainder split of the unit-aware rule,
    the percent key, electron configuration, discovery, isotopes, and the
    reading of the isotopic-abundance table. */
module Rules {
  import opened Wrappers
  import opened JsString
  import opened Numbers
  import opened Dom
  import opened Keys
  import opened Fields

  // ---------------------------------------------------------------------
  // Default

  /** `defaultPreprocessor`: the trimmed text of the cell, or `null` when
      that text is `None` or `N/A`. */
  function Default(name: string, cell: Node): (f: Field)
    ensures f.key == CamelCase(name) && f.body.Labelled? && f.body.name == name && f.body.units.None?
    ensures var t := Trim(TextOf(cell));
            && (f.body.value.Null? <==> t == "None" || t == "N/A")
            && (!f.body.value.Null? ==> f.body.value == Str(t))
  {
    var t := Trim(TextOf(cell));
    Record(name, if t == "None" || t == "N/A" then Null else Str(t), None)
  }

  /** Text that is already trimmed, and is neither `None` nor `N/A`,
      passes through the default rule unchanged. */
  lemma DefaultPassesThrough(name: string, cell: Node)
    requires IsTrimmed(TextOf(cell)) && TextOf(cell) != "None" && TextOf(cell) != "N/A"
    ensures Default(name, cell).body.value == Str(TextOf(cell))
  {
    TrimTrimmed(TextOf(cell));
  }

  // ---------------------------------------------------------------------
  // Float

  /** `floatPreprocessor`: `parseFloat` of the text with its first `×10`
      read as an exponent marker. */
  function Float(name: string, cell: Node): (f: Field)
    ensures f.key == CamelCase(name) && f.body.Labelled? && f.body.name == name && f.body.units.None?
    ensures f.body.value.Num? && f.body.value.number == ParseFloat(TimesTenAsExponent(TextOf(cell)))
  {
    Record(name, Num(ParseFloat(TimesTenAsExponent(TextOf(cell)))), None)
  }

  /** Text that starts with a decimal literal, followed by anything that
      cannot continue it and does not start with `×`, reads as that
      literal's value (the `"6.941"` and `"0.98 (Pauling)"` cells). */
  lemma TextReadsLiteral(text: string, l: Literal, rest: string)
    requires WellFormed(l) && Stops(l, rest) && text == Render(l) + rest
    requires rest == [] || rest[0] != '\U{00D7}'
    ensures ParseFloat(TimesTenAsExponent(text)) == Finite(LiteralValue(l))
  {
    LiteralLacks(l, '\U{00D7}');
    ReplaceAfterPrefix(Render(l), rest, "\U{00D7}10", "e");
    var rest' := ReplaceFirst(rest, "\U{00D7}10", "e");
    ReplaceKeepsHead(rest, "\U{00D7}10", "e");
    assert Stops(l, rest');
    ParseFloatReadsLiteral(l, rest');
  }

  /** White space in front of a cell's text (a line break and indentation
      from the page) changes nothing the float and integer rules read, so
      the read-back lemmas here extend to indented cells. */
  lemma IndentedTextReads(w: string, text: string)
    requires AllWhite(w)
    ensures ParseFloat(TimesTenAsExponent(w + text)) == ParseFloat(TimesTenAsExponent(text))
    ensures ParseInt(TimesTenAsExponent(w + text)) == ParseInt(TimesTenAsExponent(text))
  {
    assert !IsWhite('\U{00D7}');
    ReplaceAfterPrefix(w, text, "\U{00D7}10", "e");
    ParseSkipsWhite(w, TimesTenAsExponent(text));
  }

  /** Scientific notation as the cells print it, a literal without exponent,
      then `×10`, an optional minus and digits, reads as the literal with
      that exponent. */
  lemma TextReadsScientific(text: string, l: Literal, negative: bool, ds: string, rest: string)
    requires WellFormed(l) && l.exponent.None? && AllDigits(ds) && ds != []
    requires text == Render(l) + "\U{00D7}10" + (if negative then "-" else "") + ds + rest
    requires rest == [] || (!IsDigit(rest[0]) && (l.fraction.None? ==> rest[0] != '.'))
    ensures ParseFloat(TimesTenAsExponent(text)) == Finite(LiteralValue(l.(exponent := Some((negative, ds)))))
  {
    var l' := l.(exponent := Some((negative, ds)));
    var sign := if negative then "-" else "";
    var tail := sign + ds + rest;
    var times := "\U{00D7}10";
    Reassociate(Render(l), times, sign, ds, rest);
    LiteralLacks(l, '\U{00D7}');
    ReplaceAfterPrefix(Render(l), times + tail, times, "e");
    ReplaceAtStart(times, tail, "e");
    RenderWithExponent(l, negative, ds);
    Reassociate(Render(l), "e", sign, ds, rest);
    ParseFloatReadsLiteral(l', rest);
  }

  /** The float read of `i×10<sup>e</sup>`. */
  lemma ScientificTextReads(text: string, i: nat, e: nat)
    requires text == IntToString(i) + "\U{00D7}10" + NatToString(e)
    ensures ParseFloat(TimesTenAsExponent(text)) == Finite((i * Pow10(e)) as real)
  {
    var l := IntegerLiteral(i);
    var ds := NatToString(e);
    var l' := l.(exponent := Some((false, ds)));
    IntegerLiteralWithExponent(i, e);
    assert ParseFloat(TimesTenAsExponent(text)) == Finite(LiteralValue(l')) by {
      IntegerLiteralRenders(i);
      PadScientific(text, Render(l), "\U{00D7}10", ds);
      TextReadsScientific(text, l, false, ds, []);
    }
  }

  lemma PadScientific(text: string, r: string, times: string, ds: string)
    requires text == r + times + ds
    ensures text == r + times + "" + ds + []
  {
    assert r + times + "" == r + times;
  }

  lemma Reassociate(a: string, b: string, c: string, d: string, e: string)
    ensures a + b + c + d + e == a + (b + (c + d + e))
  {
  }

  /** Giving an exponent-free literal an exponent appends its text. */
  lemma RenderWithExponent(l: Literal, negative: bool, ds: string)
    requires l.exponent.None?
    ensures Render(l.(exponent := Some((negative, ds)))) == Render(l) + "e" + (if negative then "-" else "") + ds
  {
    var l' := l.(exponent := Some((negative, ds)));
    assert ExponentText(l) == "";
    assert ExponentText(l') == "e" + (if negative then "-" else "") + ds;
  }

  /** Replacing in a text that does not start the pattern keeps its first
      character. */
  lemma ReplaceKeepsHead(s: string, pat: string, rep: string)
    requires pat != [] && (s == [] || s[0] != pat[0])
    ensures var r := ReplaceFirst(s, pat, rep); (r == [] <==> s == []) && (s != [] ==> r[0] == s[0])
  {
    if Contains(s, pat) {
      var r := ReplaceFirst(s, pat, rep);
      var i :| ReplacedAt(s, pat, rep, r, i);
      assert s[i..i + |pat|][0] == s[i];
      assert i > 0;
      assert r[0] == s[..i][0];
    }
  }

  /** The first `×10` rewritten to `e` leaves a text that does not start
      with a digit still not starting with one: either the head is kept, or
      the `×10` it starts with becomes `e`. */
  lemma TimesTenKeepsNonDigitHead(s: string)
    requires s == [] || !IsDigit(s[0])
    ensures var r := TimesTenAsExponent(s); r == [] || !IsDigit(r[0])
  {
    var times := "\U{00D7}10";
    if s != [] && OccursAt(s, times, 0) {
      assert s == times + s[3..];
      ReplaceAtStart(times, s[3..], "e");
    } else if s != [] {
      ReplaceKeepsHeadOffStart(s, times, "e");
    }
  }

  /** Text that does not start with the pattern keeps its first character. */
  lemma ReplaceKeepsHeadOffStart(s: string, pat: string, rep: string)
    requires s != [] && !OccursAt(s, pat, 0)
    ensures var r := ReplaceFirst(s, pat, rep); r != [] && r[0] == s[0]
  {
    if Contains(s, pat) {
      var r := ReplaceFirst(s, pat, rep);
      var i :| ReplacedAt(s, pat, rep, r, i);
      assert i > 0;
      assert r[0] == s[..i][0];
    }
  }

  /** Replacing a pattern the text starts with. */
  lemma ReplaceAtStart(pat: string, tail: string, rep: string)
    ensures ReplaceFirst(pat + tail, pat, rep) == rep + tail
  {
    var s := pat + tail;
    assert s[0..|pat|] == pat;
    assert OccursAt(s, pat, 0);
    IndexOfAt(s, pat, 0);
    ReplaceAt(s, pat, rep, 0);
    assert s[|pat|..] == tail;
  }

  // ---------------------------------------------------------------------
  // The quantity of the unit-aware rule

  /** `s.splitKeep(d, 2)`: the text before the first `d` and everything
      after it, or the whole text and nothing when `d` does not occur. */
  function SplitOnce(s: string, d: string): (r: (string, string))
    requires d != []
    ensures !Contains(r.0, d)
    ensures Contains(s, d) ==> r.0 + d + r.1 == s && r.0 == s[..IndexOf(s, d).value]
    ensures !Contains(s, d) ==> r == (s, "")
  {
    var parts := SplitKeep(s, d, 2);
    SplitKeepTwo(s, d);
    (parts[0], parts[1])
  }

  /** `value.text().trim().splitKeep(' ', 2)` and `parseFloat` of the first
      piece: the number before the first space, and everything after it. */
  function Quantity(cell: Node): (q: (Number, string))
    ensures var t := Trim(TextOf(cell));
            && (Contains(t, " ") ==> t == t[..IndexOf(t, " ").value] + " " + q.1
                                     && q.0 == ParseFloat(TimesTenAsExponent(t[..IndexOf(t, " ").value])))
            && (!Contains(t, " ") ==> q == (ParseFloat(TimesTenAsExponent(t)), ""))
  {
    var pieces := SplitOnce(Trim(TextOf(cell)), " ");
    (ParseFloat(TimesTenAsExponent(pieces.0)), pieces.1)
  }

  /** A cell printed as a literal, a space and a unit ending in a visible
      character reads as the literal's value and that unit text. */
  lemma QuantityReads(cell: Node, l: Literal, u: string)
    requires WellFormed(l) && TextOf(cell) == Render(l) + " " + u
    requires u != [] && !IsWhite(u[|u| - 1])
    ensures Quantity(cell) == (Finite(LiteralValue(l)), u)
  {
    LiteralThenTextPieces(l, u);
    LiteralReads(l);
  }

  lemma LiteralThenTextPieces(l: Literal, u: string)
    requires WellFormed(l) && u != [] && !IsWhite(u[|u| - 1])
    ensures SplitOnce(Trim(Render(l) + " " + u), " ") == (Render(l), u)
  {
    LiteralThenTextTrimmed(l, u);
    LiteralLacks(l, ' ');
    SeparableWithout(Render(l), " ");
    SplitOnceAfter(Render(l), " ", u);
  }

  /** A rendered literal followed by a space and any text reads as its
      value. */
  lemma LiteralThenTextReads(l: Literal, u: string)
    requires WellFormed(l)
    ensures ParseFloat(TimesTenAsExponent(Render(l) + " " + u)) == Finite(LiteralValue(l))
  {
    assert Render(l) + " " + u == Render(l) + (" " + u);
    TextReadsLiteral(Render(l) + " " + u, l, " " + u);
  }

  /** A rendered literal on its own reads as its value. */
  lemma LiteralReads(l: Literal)
    requires WellFormed(l)
    ensures ParseFloat(TimesTenAsExponent(Render(l))) == Finite(LiteralValue(l))
  {
    assert Render(l) == Render(l) + [];
    TextReadsLiteral(Render(l), l, []);
  }

  lemma LiteralThenTextTrimmed(l: Literal, u: string)
    requires WellFormed(l) && u != [] && !IsWhite(u[|u| - 1])
    ensures var t := Render(l) + " " + u; Trim(t) == t
  {
    var t := Render(l) + " " + u;
    var frac := if l.fraction.Some? then "." + l.fraction.value else "";
    assert t == (if l.negative then "-" else "") + l.whole + frac + (ExponentText(l) + " " + u);
    LiteralStart(l.negative, l.whole, frac, ExponentText(l) + " " + u);
    assert t[|t| - 1] == u[|u| - 1];
    TrimTrimmed(t);
  }

  // ---------------------------------------------------------------------
  // Percent key

  /** `_.camelCase('percent ' + key.substring(5).replace("'", ''))`: the
      label's `% in ` prefix gives way to `percent`, and its first
      apostrophe is dropped. */
  function PercentKey(name: string): string {
    CamelCase("percent " + ReplaceFirst(Substring(name, 5), "'", ""))
  }

  /** For the `% in <place>` labels: the key is `percent` followed by the
      place, with the place's first apostrophe dropped. */
  lemma PercentLabelKey(place: string, a: string, b: string)
    requires place == a + b && '\'' !in a
    requires b == [] || b[0] == '\''
    ensures PercentKey("% in " + place) == CamelCase("percent " + a + (if b == [] then [] else b[1..]))
  {
    var name := "% in " + place;
    var rest := a + (if b == [] then [] else b[1..]);
    assert Substring(name, 5) == place;
    DropFirstApostrophe(place, a, b);
    assert "percent " + ReplaceFirst(Substring(name, 5), "'", "") == "percent " + rest;
    assert "percent " + rest == "percent " + a + (if b == [] then [] else b[1..]);
  }

  lemma DropFirstApostrophe(place: string, a: string, b: string)
    requires place == a + b && '\'' !in a
    requires b == [] || b[0] == '\''
    ensures ReplaceFirst(place, "'", "") == a + (if b == [] then [] else b[1..])
  {
    forall i | 0 <= i < |a| ensures !OccursAt(place, "'", i) {
      OccursOneChar(place, '\'', i);
      assert place[i] == a[i];
    }
    if b == [] {
      assert !Contains(place, "'");
      assert place == a + [];
    } else {
      OccursOneChar(place, '\'', |a|);
      assert place[|a|] == b[0];
      IndexOfAt(place, "'", |a|);
      ReplaceAt(place, "'", "", |a|);
      assert place[..|a|] == a && place[|a| + 1..] == b[1..];
    }
  }

  lemma OccursOneChar(s: string, c: char, i: int)
    ensures OccursAt(s, [c], i) <==> 0 <= i < |s| && s[i] == c
  {
    if 0 <= i < |s| {
      assert s[i..i + 1] == [s[i]];
    }
  }

  // ---------------------------------------------------------------------
  // Electron configuration

  /** A child that records an electron count: a `sup` element whose text is
      not the `[note]` marker. */
  predicate IsCount(n: Node) {
    HasTag(n, "sup") && TextOf(n) != "[note]"
  }

  /** The shell label in force after `n`: a count leaves it, anything else
      (text, a `[note]` marker) replaces it with its own text. */
  function NextShell(shell: string, n: Node): string {
    if IsCount(n) then shell else TextOf(n)
  }

  /** The `shells[shell] = count` writes of the loop over `ns`, in order. */
  function ShellWrites(shell: string, ns: seq<Node>): seq<(string, Number)>
    decreases |ns|
  {
    if ns == [] then []
    else if IsCount(ns[0]) then [(shell, ParseInt(TextOf(ns[0])))] + ShellWrites(shell, ns[1..])
    else ShellWrites(TextOf(ns[0]), ns[1..])
  }

  /** The shell label a count at `j` is recorded under: the text of the
      nearest earlier child that is not a count, or `shell` when there is
      none. */
  function LabelBefore(shell: string, ns: seq<Node>, j: nat): string
    requires j <= |ns|
    decreases j
  {
    if j == 0 then shell
    else if !IsCount(ns[j - 1]) then TextOf(ns[j - 1])
    else LabelBefore(shell, ns, j - 1)
  }

  /** Child `j` is a count recorded under `k`. */
  predicate CountUnder(shell: string, ns: seq<Node>, j: int, k: string) {
    0 <= j < |ns| && IsCount(ns[j]) && LabelBefore(shell, ns, j) == k
  }

  /** ... and no later child is. */
  predicate LastCountUnder(shell: string, ns: seq<Node>, j: int, k: string) {
    CountUnder(shell, ns, j, k) && forall j' :: j < j' < |ns| ==> !CountUnder(shell, ns, j', k)
  }

  lemma {:induction false} LabelBeforeShift(shell: string, ns: seq<Node>, j: nat)
    requires j < |ns|
    ensures LabelBefore(shell, ns, j + 1) == LabelBefore(NextShell(shell, ns[0]), ns[1..], j)
    decreases j
  {
    if j > 0 {
      LabelBeforeShift(shell, ns, j - 1);
      assert ns[1..][j - 1] == ns[j];
    }
  }

  lemma CountUnderShift(shell: string, ns: seq<Node>, j: int, k: string)
    requires ns != [] && j >= 0
    ensures CountUnder(shell, ns, j + 1, k) <==> CountUnder(NextShell(shell, ns[0]), ns[1..], j, k)
  {
    if j < |ns| - 1 {
      LabelBeforeShift(shell, ns, j);
      assert ns[1..][j] == ns[j + 1];
    }
  }

  /** Writing the shells the loop finds into `m`: a shell ends up present
      exactly when it was there or some count is recorded under it, and the
      last such count decides its value. */
  lemma ShellsRecorded(m: map<string, Number>, shell: string, ns: seq<Node>, k: string)
    ensures var r := Assign(m, ShellWrites(shell, ns));
            && (k in r <==> k in m || exists j :: CountUnder(shell, ns, j, k))
            && (forall j :: LastCountUnder(shell, ns, j, k) ==> k in r && r[k] == ParseInt(TextOf(ns[j])))
            && ((forall j :: !CountUnder(shell, ns, j, k)) && k in m ==> r[k] == m[k])
  {
    ShellsPresent(m, shell, ns, k);
    ShellsLastWins(m, shell, ns, k);
  }

  /** The map after the first child's write, if it is a count. */
  function FirstWrite(m: map<string, Number>, shell: string, n: Node): map<string, Number> {
    if IsCount(n) then m[shell := ParseInt(TextOf(n))] else m
  }

  lemma WritesStep(m: map<string, Number>, shell: string, ns: seq<Node>)
    requires ns != []
    ensures Assign(m, ShellWrites(shell, ns)) == Assign(FirstWrite(m, shell, ns[0]), ShellWrites(NextShell(shell, ns[0]), ns[1..]))
  {
    if IsCount(ns[0]) {
      var w := [(shell, ParseInt(TextOf(ns[0])))] + ShellWrites(shell, ns[1..]);
      assert w[0] == (shell, ParseInt(TextOf(ns[0]))) && w[1..] == ShellWrites(shell, ns[1..]);
    }
  }

  /** A count is recorded under `k` somewhere in `ns` exactly when the first
      child is one under `k` or one is recorded in the rest. */
  lemma SomeCountShift(shell: string, ns: seq<Node>, k: string)
    requires ns != []
    ensures (exists j :: CountUnder(shell, ns, j, k)) <==>
            (IsCount(ns[0]) && shell == k) || exists j :: CountUnder(NextShell(shell, ns[0]), ns[1..], j, k)
  {
    var next := NextShell(shell, ns[0]);
    assert CountUnder(shell, ns, 0, k) <==> IsCount(ns[0]) && shell == k;
    if exists j :: CountUnder(shell, ns, j, k) {
      var j :| CountUnder(shell, ns, j, k);
      if j > 0 {
        CountUnderShift(shell, ns, j - 1, k);
      }
    }
    if exists j :: CountUnder(next, ns[1..], j, k) {
      var j :| CountUnder(next, ns[1..], j, k);
      CountUnderShift(shell, ns, j, k);
    }
  }

  /** No count under `k` in `ns` means none in its tail either. */
  lemma NoCountShift(shell: string, ns: seq<Node>, k: string, from: int)
    requires ns != [] && from >= -1
    requires forall j :: from < j ==> !CountUnder(shell, ns, j, k)
    ensures forall j :: from - 1 < j ==> !CountUnder(NextShell(shell, ns[0]), ns[1..], j, k)
  {
    forall j | from - 1 < j ensures !CountUnder(NextShell(shell, ns[0]), ns[1..], j, k) {
      if j >= 0 {
        CountUnderShift(shell, ns, j, k);
      }
    }
  }

  lemma {:induction false} ShellsPresent(m: map<string, Number>, shell: string, ns: seq<Node>, k: string)
    ensures var r := Assign(m, ShellWrites(shell, ns));
            && (k in r <==> k in m || exists j :: CountUnder(shell, ns, j, k))
            && ((forall j :: !CountUnder(shell, ns, j, k)) && k in m ==> r[k] == m[k])
    decreases |ns|
  {
    if ns != [] {
      var next := NextShell(shell, ns[0]);
      var m' := FirstWrite(m, shell, ns[0]);
      ShellsPresent(m', next, ns[1..], k);
      WritesStep(m, shell, ns);
      SomeCountShift(shell, ns, k);
      if (forall j :: !CountUnder(shell, ns, j, k)) && k in m {
        NoCountShift(shell, ns, k, -1);
        assert !CountUnder(shell, ns, 0, k);
      }
    }
  }

  lemma {:induction false} ShellsLastWins(m: map<string, Number>, shell: string, ns: seq<Node>, k: string)
    ensures var r := Assign(m, ShellWrites(shell, ns));
            forall j :: LastCountUnder(shell, ns, j, k) ==> k in r && r[k] == ParseInt(TextOf(ns[j]))
    decreases |ns|
  {
    if ns != [] {
      var next := NextShell(shell, ns[0]);
      var tail := ns[1..];
      var m' := FirstWrite(m, shell, ns[0]);
      ShellsLastWins(m', next, tail, k);
      WritesStep(m, shell, ns);
      var r := Assign(m, ShellWrites(shell, ns));
      forall j | LastCountUnder(shell, ns, j, k)
        ensures k in r && r[k] == ParseInt(TextOf(ns[j]))
      {
        NoCountShift(shell, ns, k, j);
        if j == 0 {
          ShellsPresent(m', next, tail, k);
        } else {
          CountUnderShift(shell, ns, j - 1, k);
          assert LastCountUnder(next, tail, j - 1, k);
        }
      }
    }
  }

  /** The first child's text: a `]` splits it into a base (after dropping
      the opening `[`) and the first shell label. */
  function ConfigurationStart(first: string): (r: (Option<string>, string))
    ensures r.0.Some? <==> Contains(first, "]")
    ensures r.0.Some? ==> r.0.value == Substring(first[..IndexOf(first, "]").value], 1)
    ensures r.0.Some? ==> var after := first[IndexOf(first, "]").value + 1..];
                          && !Contains(r.1, "]") && |r.1| <= |after| && r.1 == after[..|r.1|]
                          && (|r.1| == |after| || after[|r.1|] == ']')
    ensures r.0.None? ==> r.1 == first
  {
    if Contains(first, "]") then
      var parts := Split(first, "]");
      SecondPiece(first, "]");
      (Some(Substring(parts[0], 1)), parts[1])
    else (None, first)
  }

  /** The second piece of a split runs from just past the first separator
      to the next one, or to the end. */
  lemma SecondPiece(s: string, d: string)
    requires d != [] && Contains(s, d)
    ensures var parts := Split(s, d);
            var after := s[IndexOf(s, d).value + |d|..];
            && |parts[1]| <= |after| && parts[1] == after[..|parts[1]|]
            && (|parts[1]| == |after| || OccursAt(after, d, |parts[1]|))
  {
    var i := IndexOf(s, d).value;
    var after := s[i + |d|..];
    assert Split(s, d)[1] == Split(after, d)[0];
    if Contains(after, d) {
      var j := IndexOf(after, d).value;
      assert Split(after, d)[0] == after[..j];
    }
  }

  /** `electronConfigurationPreprocessor`. */
  function ElectronConfiguration(name: string, cell: Node): (f: Field)
    ensures f.key == CamelCase(name) && f.body.Labelled? && f.body.name == name && f.body.units.None?
    ensures f.body.value.Config?
    ensures f.body.value.base.Some? <==> Contains(ChildText(cell, 0), "]")
  {
    var start := ConfigurationStart(ChildText(cell, 0));
    Record(name, Config(start.0, Assign(map[], ShellWrites(start.1, Configuration(cell)))), None)
  }

  /** `value.contents().slice(1)`: every child after the first. */
  function Configuration(cell: Node): (ns: seq<Node>)
    ensures |ns| == if Contents(cell) == [] then 0 else |Contents(cell)| - 1
    ensures forall j :: 0 <= j < |ns| ==> ns[j] == Contents(cell)[j + 1]
  {
    if Contents(cell) == [] then [] else Contents(cell)[1..]
  }

  /** The shells of an electron configuration: a label is a shell exactly
      when some count is recorded under it, and the last such count is the
      shell's electron count. */
  lemma ElectronShells(name: string, cell: Node, k: string)
    ensures var shells := ElectronConfiguration(name, cell).body.value.shells;
            var first := ConfigurationStart(ChildText(cell, 0)).1;
            var ns := Configuration(cell);
            && (k in shells <==> exists j :: CountUnder(first, ns, j, k))
            && forall j :: LastCountUnder(first, ns, j, k) ==> k in shells && shells[k] == ParseInt(TextOf(ns[j]))
  {
    ShellsRecorded(map[], ConfigurationStart(ChildText(cell, 0)).1, Configuration(cell), k);
  }

  // ---------------------------------------------------------------------
  // Discovery

  /** JavaScript's unary minus on a number. */
  function Negate(x: Number): (r: Number)
    ensures x.Finite? <==> r.Finite?
    ensures x.Finite? ==> r.value == -x.value
    ensures r.NaN? <==> x.NaN?
  {
    match x
    case Finite(v) => Finite(-v)
    case Infinity(negative) => Infinity(!negative)
    case NaN => NaN
  }

  /** `discoveryPreprocessor`: the year before the first ` in `, negated
      when that part ends with `BC`, and the ` and `-separated countries
      after it; a year that does not parse leaves no countries. */
  function Discovery(name: string, cell: Node): (f: Field)
    ensures var pieces := SplitOnce(Trim(TextOf(cell)), " in ");
            var year := ParseInt(pieces.0);
            && f.key == CamelCase(name) && f.body.Discovered? && f.body.name == name
            && (f.body.year.NaN? <==> !BeginsInteger(TrimStart(pieces.0)))
            && (year.Finite? ==> f.body.year == (if EndsWith(pieces.0, "BC") then Negate(year) else year))
            && (f.body.countries.None? <==> year.NaN? || pieces.1 == "")
            && (f.body.countries.Some? ==> SplitPieces(pieces.1, " and ", f.body.countries.value))
  {
    var pieces := SplitOnce(Trim(TextOf(cell)), " in ");
    SplitCutsPieces(pieces.1, " and ");
    var year := ParseInt(pieces.0);
    var signed := if year.Finite? && EndsWith(pieces.0, "BC") then Negate(year) else year;
    var countries := if year.NaN? || pieces.1 == "" then None else Some(Split(pieces.1, " and "));
    Field(CamelCase(name), Discovered(name, signed, countries))
  }

  /** A cell reading `<y> in <countries>`, or `<y> BC in <countries>`, with
      the countries joined by ` and ` and no ` and ` starting inside one of
      them, gives back the year (negated for `BC`) and the countries. */
  lemma DiscoveryReads(name: string, cell: Node, y: int, bc: bool, cs: seq<string>)
    requires |cs| >= 1 && (forall k :: 0 <= k < |cs| - 1 ==> Separable(cs[k], " and "))
    requires !Contains(cs[|cs| - 1], " and ")
    requires var c := Join(cs, " and "); c != [] && !IsWhite(c[|c| - 1])
    requires TextOf(cell) == IntToString(y) + (if bc then " BC" else "") + " in " + Join(cs, " and ")
    ensures Discovery(name, cell).body.year == Finite(if bc then -(y as real) else y as real)
    ensures Discovery(name, cell).body.countries == Some(cs)
  {
    var era := if bc then " BC" else "";
    var head, c := IntToString(y) + era, Join(cs, " and ");
    DiscoveryPieces(y, era, c);
    ParseIntReadsInteger(y, era);
    DiscoveryOfPieces(name, cell, head, c, y as real);
    EraEnding(y, bc);
    SplitOfJoin(cs, " and ");
  }

  /** Once the cell is cut into a year piece that `parseInt` reads and a
      non-empty country piece, the record holds that year and the country
      piece's split. */
  lemma DiscoveryOfPieces(name: string, cell: Node, head: string, c: string, v: real)
    requires SplitOnce(Trim(TextOf(cell)), " in ") == (head, c)
    requires ParseInt(head) == Finite(v) && c != ""
    ensures Discovery(name, cell).body.year == if EndsWith(head, "BC") then Negate(Finite(v)) else Finite(v)
    ensures Discovery(name, cell).body.countries == Some(Split(c, " and "))
  {
  }

  /** The year piece and the country piece of such a cell. */
  lemma DiscoveryPieces(y: int, era: string, c: string)
    requires era == "" || era == " BC"
    requires c != [] && !IsWhite(c[|c| - 1])
    ensures var t := IntToString(y) + era + " in " + c;
            SplitOnce(Trim(t), " in ") == (IntToString(y) + era, c)
  {
    DiscoveryTextTrimmed(y, era, c);
    EraSeparable(y, era);
    SplitOnceAfter(IntToString(y) + era, " in ", c);
  }

  /** The first cut falls right after a separable piece. */
  lemma SplitOnceAfter(a: string, d: string, rest: string)
    requires d != [] && Separable(a, d)
    ensures SplitOnce(a + d + rest, d) == (a, rest)
  {
    var t := a + d + rest;
    SeparableFirst(a, d, rest);
    assert t[..|a|] == a;
    var r := SplitOnce(t, d);
    assert r.0 == a;
    assert |r.1| == |rest| && r.1 == t[|a| + |d|..] == rest;
  }

  lemma DiscoveryTextTrimmed(y: int, era: string, c: string)
    requires c != [] && !IsWhite(c[|c| - 1])
    ensures var t := IntToString(y) + era + " in " + c; Trim(t) == t
  {
    var t := IntToString(y) + era + " in " + c;
    var n: nat := if y < 0 then -y else y;
    var ds := NatToString(n);
    assert IntToString(y) == (if y < 0 then "-" else "") + ds;
    assert t[0] == IntToString(y)[0];
    assert y >= 0 ==> IntToString(y)[0] == ds[0] && IsDigit(ds[0]);
    LiteralCharNotWhite(t[0]);
    assert t[|t| - 1] == c[|c| - 1];
    TrimTrimmed(t);
  }

  /** The year and its optional ` BC` hold no ` in `. */
  lemma EraSeparable(y: int, era: string)
    requires era == "" || era == " BC"
    ensures Separable(IntToString(y) + era, " in ")
  {
    var ds := IntToString(y);
    IntegerLiteralRenders(y);
    LiteralLacks(IntegerLiteral(y), ' ');
    if era == "" {
      IndexAfterPiece(ds, " in ", []);
      assert ds + " in " + [] == ds + era + " in ";
    } else {
      BeforeCenturySeparable(ds);
    }
  }

  lemma BeforeCenturySeparable(ds: string)
    requires ' ' !in ds
    ensures Separable(ds + " BC", " in ")
  {
    var a := ds + " BC";
    var s := a + " in ";
    assert s[|ds|] == ' ' && s[|ds| + 1] == 'B' && s[|ds| + 2] == 'C' by {
      assert s == ds + " BC in ";
    }
    forall j | 0 <= j < |a| ensures !OccursAt(s, " in ", j) {
      if j < |ds| {
        assert s[j] == ds[j];
      }
      NoInAt(s, j);
    }
    assert s[|a|..|a| + 4] == " in ";
    IndexOfAt(s, " in ", |a|);
  }

  /** ` in ` does not occur where the text holds no space or no `i` after it. */
  lemma NoInAt(s: string, j: nat)
    requires j + 1 < |s| && (s[j] != ' ' || s[j + 1] != 'i')
    ensures !OccursAt(s, " in ", j)
  {
    if j + 4 <= |s| {
      assert s[j..j + 4][0] == s[j] && s[j..j + 4][1] == s[j + 1];
    }
  }

  /** Only the ` BC` era makes the year piece end with `BC`. */
  lemma EraEnding(y: int, bc: bool)
    ensures EndsWith(IntToString(y) + (if bc then " BC" else ""), "BC") == bc
  {
    var head := IntToString(y) + (if bc then " BC" else "");
    if bc {
      assert head[|head| - 2..] == "BC";
    } else {
      var n: nat := if y < 0 then -y else y;
      var ds := NatToString(n);
      assert head == (if y < 0 then "-" else "") + ds;
      assert head[|head| - 1] == ds[|ds| - 1];
      assert IsDigit(ds[|ds| - 1]);
      assert |head| >= 2 ==> head[|head| - 2..][1] == head[|head| - 1];
    }
  }

  // ---------------------------------------------------------------------
  // Isotopes

  /** `parseInt` of the text of each node, in order. */
  function ParseEach(ns: seq<Node>): (r: seq<Number>)
    ensures |r| == |ns| && forall i :: 0 <= i < |ns| ==> r[i] == ParseInt(TextOf(ns[i]))
  {
    seq(|ns|, i requires 0 <= i < |ns| => ParseInt(TextOf(ns[i])))
  }

  /** `isotopesPreprocessor`: one parsed integer per `sup` element below the
      cell, in document order. */
  function Isotopes(name: string, cell: Node): (f: Field)
    ensures f.key == CamelCase(name) && f.body.Labelled? && f.body.name == name && f.body.units.None?
    ensures f.body.value.NumList? && |f.body.value.numbers| == |Find(cell, "sup")|
  {
    Record(name, NumList(ParseEach(Find(cell, "sup"))), None)
  }

  /** Each number of the isotope list is read from a `sup` element below the
      cell, and every such element contributes one. */
  lemma IsotopesFromSups(name: string, cell: Node, d: Node)
    ensures var sups := Find(cell, "sup");
            && (d in sups <==> HasTag(d, "sup") && cell.Element? && WithinAny(d, cell.children))
            && forall i :: 0 <= i < |sups| ==> Isotopes(name, cell).body.value.numbers[i] == ParseInt(TextOf(sups[i]))
  {
    FindExactly(cell, "sup", d);
  }

  // ---------------------------------------------------------------------
  // Isotopic abundances

  /** The mass number of a table row: `parseInt` of the `sup` text in its
      first cell. */
  function RowMass(row: Node): Number {
    ParseInt(TextOfAll(FindBelow(First(Find(row, "td")), "sup")))
  }

  /** The abundance of a table row: `parseFloat` of its last cell's text. */
  function RowAbundance(row: Node): Number {
    ParseFloat(TextOfAll(Last(Find(row, "td"))))
  }

  /** The mass numbers of the rows, in order. */
  function Masses(rows: seq<Node>): (r: seq<Number>)
    ensures |r| == |rows| && forall i :: 0 <= i < |rows| ==> r[i] == RowMass(rows[i])
  {
    seq(|rows|, i requires 0 <= i < |rows| => RowMass(rows[i]))
  }

  /** The abundances of the rows, in order. */
  function RowAbundances(rows: seq<Node>): (r: seq<Number>)
    ensures |r| == |rows| && forall i :: 0 <= i < |rows| ==> r[i] == RowAbundance(rows[i])
  {
    seq(|rows|, i requires 0 <= i < |rows| => RowAbundance(rows[i]))
  }

  /** The object the `tr` rows below the cell build, one
      `value[mass] = abundance` write per row, in order. */
  function Abundances(cell: Node): map<Number, Number> {
    var rows := Find(cell, "tr");
    Assign(map[], Zip(Masses(rows), RowAbundances(rows)))
  }

  /** The object is empty exactly when the cell has no rows. */
  lemma AbundancesEmpty(cell: Node)
    ensures Abundances(cell) == map[] <==> Find(cell, "tr") == []
  {
    var rows := Find(cell, "tr");
    if rows != [] {
      var ms := Masses(rows);
      AssignRowsLastWins(ms, RowAbundances(rows), ms[0]);
      assert ms[0] in Abundances(cell);
    }
  }

  /** A mass number is present exactly when some row has it, and the last
      row that has it decides its abundance. */
  lemma AbundancesLastRowWins(cell: Node, mass: Number)
    ensures var rows := Find(cell, "tr");
            var m := Abundances(cell);
            && (mass in m <==> mass in Masses(rows))
            && forall i :: 0 <= i < |rows| && Masses(rows)[i] == mass
                           && (forall j :: i < j < |rows| ==> Masses(rows)[j] != mass)
                           ==> mass in m && m[mass] == RowAbundance(rows[i])
  {
    var rows := Find(cell, "tr");
    AssignRowsLastWins(Masses(rows), RowAbundances(rows), mass);
  }

  // ---------------------------------------------------------------------
  // Lists

  /** The text of a list cell: the first `[note]` dropped, then trimmed. */
  function ListText(cell: Node): (t: string)
    ensures IsTrimmed(t)
  {
    Trim(DropNote(TextOf(cell)))
  }

  /** `parseFloat` of each piece, `×10` read as an exponent marker. */
  function ParseFloats(pieces: seq<string>): (r: seq<Number>)
    ensures |r| == |pieces| && forall k :: 0 <= k < |pieces| ==> r[k] == ParseFloat(TimesTenAsExponent(pieces[k]))
  {
    seq(|pieces|, k requires 0 <= k < |pieces| => ParseFloat(TimesTenAsExponent(pieces[k])))
  }

  /** A sequence of three numbers, element by element. */
  lemma SeqOfThree(xs: seq<Number>, x: Number, y: Number, z: Number)
    requires |xs| == 3 && xs[0] == x && xs[1] == y && xs[2] == z
    ensures xs == [x, y, z]
  {
  }

  /** The pieces of a text printed as `a, b, c unit`. */
  lemma ListPieces(t: string, a: Literal, b: Literal, c: Literal, unit: string)
    requires WellFormed(a) && WellFormed(b) && WellFormed(c)
    requires t == Render(a) + ", " + Render(b) + ", " + Render(c) + " " + unit
    requires !Contains(unit, ", ")
    ensures Split(t, ", ") == [Render(a), Render(b), Render(c) + " " + unit]
    ensures t != "N/A"
    ensures Stops(c, " " + unit)
  {
    var head := Render(a) + ", " + Render(b) + ", ";
    var last := Render(c) + " " + unit;
    assert t == head + last by {
      Regroup4(head, Render(c), " ", unit);
    }
    assert Split(t, ", ") == [Render(a), Render(b), last] by {
      LiteralLacks(a, ',');
      LiteralLacks(b, ',');
      NoSeparatorInLast(c, unit);
      SplitThree(Render(a), Render(b), last, ", ");
    }
    NotAvailableHasNoSeparator();
  }

  /** `N/A` holds no `, `, so it splits into one piece. */
  lemma NotAvailableHasNoSeparator()
    ensures |Split("N/A", ", ")| == 1
  {
    forall i | 0 <= i ensures !OccursAt("N/A", ", ", i) {
      if i + 2 <= 3 {
        assert "N/A"[i..i + 2][0] == "N/A"[i];
      }
    }
  }

  /** The last piece, a literal, a space and a unit without `, `, holds no
      `, ` either. */
  lemma NoSeparatorInLast(c: Literal, unit: string)
    requires WellFormed(c) && !Contains(unit, ", ")
    ensures !Contains(Render(c) + " " + unit, ", ")
  {
    LiteralLacks(c, ',');
    forall i | 0 <= i ensures !OccursAt(Render(c) + " " + unit, ", ", i) {
      OccursAfterPrefix(Render(c) + " ", unit, ", ", i);
      if i >= |Render(c)| + 1 {
        assert !OccursAt(unit, ", ", i - |Render(c)| - 1);
      }
    }
  }
}
