# ptable-backend field normalisation, modelled in Dafny

ptable-backend scrapes one HTML page per chemical element. Every row of a
page's property table is a label (`"Atomic Weight"`, `"Melting Point"`,
`"Discovery"`, ...) and a cheerio-wrapped cell. The field-normalisation
engine turns each (label, cell) pair into a record:

    { key: camelCase(label), value: { label, value, [units] } }

`callPreprocessor` looks the label up in `preprocessorMappings` and runs the
preprocessor named there; labels missing from the table go to the default
preprocessor. This project models two revisions of that engine:

- **Revision1** is `lib/data-preprocessors.js`. It has a shared unit parser
  `getUnitRepresentation`, a quantum-number rule, a unit-aware list rule and
  a null-for-empty isotopic-abundance rule.
- **Revision2** is the root `data-preprocessors.js`. It inlines the unit
  parsing, adds a lattice-constants rule and a NaN-dropping float-list rule,
  and drops the quantum-number rule.

Modules, in dependency order:

| module | file | what it holds |
|---|---|---|
| `Wrappers` | wrappers.dfy | `Option`, and `Result` with the one fault the engine can raise |
| `JsString` | jsstring.dfy | `trim`, `indexOf`, `replace` with a string pattern, `split`, `join`, `splitKeep`, `substring`, `_.endsWith` |
| `Numbers` | numbers.dfy | `parseFloat` and `parseInt(s, 10)` over exact reals; decimal literals and their read-back; `Number.prototype.toString` for the `parseInt(parseFloat(..))` chain |
| `Dom` | dom.dfy | the cheerio cell as an immutable tree, with `text`, `contents`, `eq`, `find`, `first`, `last` and `attr` |
| `Keys` | keys.dfy | lodash `_.camelCase`, and how it assembles keys from labels made of words |
| `Units` | units.dfy | `getUnitRepresentation` and the regular expressions it uses |
| `Fields` | fields.dfy | the record datatypes; `×10` → `e`; `[note]` removal; JavaScript object assignment |
| `Rules` | rules.dfy | the preprocessors both revisions share (default, float, electron configuration, discovery, isotopes, ...) and the helpers of the others |
| `Revision1`, `Revision2` | revision1.dfy, revision2.dfy | each revision's table, its own rules, its dispatch and `callPreprocessor` |
| `Agreement` | agreement.dfy | where the two revisions route and compute alike, and where they differ |

Design notes:

- **Failure as a value.** A preprocessor that can throw returns
  `Result<Field>`. The only fault is the unit parser's denominator pattern
  `/((\w+\s?)+)/` finding no word character after the `/`. Then `exec`
  returns `null` and `[0]` throws a TypeError
  (lib/data-preprocessors.js:745, data-preprocessors.js:183). That is
  modelled as `Err(DenominatorNotFound)`.
- **Numbers.** A number is `NaN`, `Finite(real)` or `Infinity(negative)`.
- **`×10` replacement.** `.replace('×10', 'e')` rewrites only the first
  occurrence, as the source does (`Fields.TimesTenAsExponent`).
- **Revision1 integers.** The rule computes `parseInt(parseFloat(t), 10)`,
  so the number goes through `Number.prototype.toString`. Decimal notation
  applies for 1e-6 <= |x| < 1e21, where the rule truncates toward zero.
  Outside that range toString uses exponent notation, and `parseInt` reads
  only the leading digit (`Numbers.IntegerOfNumber`).
- **Order of unit steps.** The unit parser tests for `/` before it strips
  `[note]` and the parenthesised group (lib/data-preprocessors.js:741-748).
  So `"(a/b) K"` is a ratio.
- **`splitKeep(d, 2)` round trip.** Joining the pieces with `d` gives back
  the text only when `d` occurs in it. Otherwise the pieces are
  `[text, ""]` (`JsString.SplitKeepTwo`).
- **The two tables** are written out entry by entry in source order. They
  are grouped by label length so that lookup stays cheap to verify.

## Model

| member | source | states |
|---|---|---|
| JsString.SplitKeep | lib/data-preprocessors.js:7-10 | `splitKeep(d, n)` keeps the first n-1 pieces of `split(d)` and re-joins the rest. With too few pieces, it ends in one empty string |
| JsString.SplitKeepTwo | lib/data-preprocessors.js:7-10 | With n = 2 there are exactly two pieces, and the first has no `d`. If `d` occurs, the pieces are the text before its first occurrence and the text after it, and `first + d + second` is the input. If not, the result is `[s, ""]` |
| JsString.Trim | lib/data-preprocessors.js:148 | `.trim()` yields a text with no white space at either end, found inside the input with only white space around it |
| JsString.TrimOfWhiteAround | lib/data-preprocessors.js:541 | `.trim()` returns the one trimmed text that has only white space around it in the input |
| JsString.TrimIdempotent | lib/data-preprocessors.js:738 | Trimming twice is trimming once. This matters because `floatWithUnitPreprocessor` and `getUnitRepresentation` both trim the unit |
| JsString.IndexOf | lib/data-preprocessors.js:741 | `indexOf(p) > -1` is decided by the leftmost occurrence; no occurrence exists before the index it returns |
| JsString.ReplaceFirst | lib/data-preprocessors.js:748 | `replace(string, rep)` changes only the leftmost occurrence, and leaves the text alone when there is none |
| JsString.ReplacedAtUnique | lib/data-preprocessors.js:748 | The leftmost-occurrence replacement is unique |
| JsString.Split | lib/data-preprocessors.js:488 | `split(d)` gives at least one piece, the pieces joined by `d` give back the input, and no piece holds `d` |
| JsString.SplitCutsPieces | lib/data-preprocessors.js:488 | `split(d)` cuts exactly at the leftmost non-overlapping occurrences of `d`: each `d` after a piece is the first one that starts in it |
| JsString.SplitPiecesUnique | lib/data-preprocessors.js:488 | Only one list of pieces cuts a text that way, so the contract determines `split` |
| JsString.SplitOfJoin | lib/data-preprocessors.js:488 | Splitting pieces joined by `d` gives back the pieces, provided no `d` starts inside one of them |
| JsString.Substring | lib/data-preprocessors.js:322 | `substring(k)` is everything after the first k characters, or empty when k passes the end |
| Numbers.ParseFloat | lib/data-preprocessors.js:225 | `parseFloat` is NaN exactly when the text, after leading white space, does not begin a number (a digit, a point followed by a digit, or `Infinity`, each after an optional sign) |
| Numbers.ParseFloatReadsLiteral | lib/data-preprocessors.js:225 | `parseFloat` reads back the value of any decimal literal (sign, digits, fraction, exponent), whatever text that cannot continue the literal follows it |
| Numbers.ParseInt | lib/data-preprocessors.js:467 | `parseInt(s, 10)` is NaN exactly when no digit follows the white space and optional sign. It is never infinite and always integral |
| Numbers.ParseIntReadsInteger | lib/data-preprocessors.js:467 | `parseInt` reads back any integer's decimal text, whatever non-digit text follows it |
| Numbers.ParseSkipsWhite | lib/data-preprocessors.js:467 | `parseFloat` and `parseInt` give the same number for a text with white space in front as for the text alone, so every read-back lemma also covers indented cells |
| Rules.IndentedTextReads | lib/data-preprocessors.js:225 | White space in front of a cell's text changes neither what the float rule nor what the integer rule reads, the `×10` rewrite included |
| Numbers.IntegerOfNumber | lib/data-preprocessors.js:187 | `parseInt(x, 10)` of a number: NaN for NaN and the infinities. Inside toString's decimal range it truncates toward zero; outside it, the result is the exponent form's leading digit with the number's sign |
| Dom.TextOfAllAppend | lib/data-preprocessors.js:323 | The `.text()` of a selection is the concatenation of its nodes' texts, split at any boundary |
| Dom.FindExactly | lib/data-preprocessors.js:571 | `.find(tag)` returns exactly the matching strict descendants |
| Dom.FindAllExactly | lib/data-preprocessors.js:611 | `.find(tag)` on a selection returns exactly the matching descendants of its nodes |
| Dom.Eq | lib/data-preprocessors.js:406 | `.eq(i)` selects the i-th node, or nothing past the end |
| Dom.ChildText | lib/data-preprocessors.js:540 | `contents().eq(i).text()` is the i-th child's text, or empty when there is no such child |
| Dom.Attr | lib/data-preprocessors.js:362 | `.attr(name)` is the first node's attribute when it has one, and absent otherwise |
| Keys.CamelCase | lib/data-preprocessors.js:147 | `_.camelCase`: no separator is left, the key does not start with an upper-case letter, and ignoring case the key is the label's word characters with apostrophes dropped |
| Keys.CamelCaseOfWords | lib/data-preprocessors.js:147 | For a label of words joined by single spaces, the key is the first word in lower case followed by each later word capitalised |
| Keys.TwoWordsKey | lib/data-preprocessors.js:359 | A two-word label becomes the first word lower-cased followed by the second capitalised |
| Keys.NfpaLabelKey | lib/data-preprocessors.js:359 | The label `"NFPA Label"` becomes the key `"nfpaLabel"` |
| Keys.LowerAllAppend | lib/data-preprocessors.js:147 | Lower-casing distributes over concatenation |
| Units.GetUnitRepresentation | lib/data-preprocessors.js:737-752 | It fails exactly when the trimmed text has a `/` with no word character after it. Otherwise it is a ratio exactly when there is a `/`. In every successful case it is the one reading `UnitReading` allows: the trimmed text before the first `/` over the trimmed first greedy `(\w+\s?)+` match in the piece after it; or, without `/`, the trimmed text left after cutting the first `[note]` and then the first, longest `(...)` group |
| Units.UnitReadingUnique | lib/data-preprocessors.js:737-752 | A text has at most one unit reading, so the contract fixes the unit |
| Units.RatioUnit | lib/data-preprocessors.js:741-746 | The numerator is the trimmed text before the first `/`. The denominator is the trimmed first regex match in the second `/`-piece, and is a trimmed run of word characters and white space. It fails exactly when that piece has no word character |
| Units.PlainUnit | lib/data-preprocessors.js:748 | The result is trimmed, has no `/`, and is the plain reading of the text |
| Units.DenominatorMatch | lib/data-preprocessors.js:745 | `/((\w+\s?)+)/.exec(s)` is null exactly when `s` has no word character. Otherwise it is the greedy match starting at the leftmost word character |
| Units.FirstWordsUnique | lib/data-preprocessors.js:745 | That match is unique |
| Units.StripGroup | lib/data-preprocessors.js:748 | `.replace(/\(.+\)/, '')` cuts the first, longest parenthesised group on one line, or leaves the text alone when there is none |
| Units.GroupCutUnique | lib/data-preprocessors.js:748 | That cut is unique |
| Units.NoteCutUnique | lib/data-preprocessors.js:748 | Cutting the first `[note]` is unique |
| Fields.Record | lib/data-preprocessors.js:152-158 | The record's key is the camel-cased label, and it keeps the label verbatim |
| Fields.MeasuredRecord | lib/data-preprocessors.js:285-294 | A measured record fails exactly when its unit fails, and otherwise carries the number and the unit |
| Fields.AssignLastWins | lib/data-preprocessors.js:420 | After a run of `obj[k] = v` writes, a key is present exactly when it was before or some write names it. The last write to it decides its value, and a key no write names keeps its old value |
| Fields.AssignRowsLastWins | lib/data-preprocessors.js:610-616 | The same for an object built from empty by writing row keys paired with row values |
| Rules.Default | lib/data-preprocessors.js:146-159 | The value is `null` exactly when the trimmed text is `None` or `N/A`, and the trimmed text otherwise |
| Rules.DefaultPassesThrough | lib/data-preprocessors.js:146-159 | Trimmed text other than `None` and `N/A` passes through unchanged |
| Rules.TextReadsLiteral | lib/data-preprocessors.js:223-234 | The float rule reads a cell that starts with a decimal literal as that literal's value, when the text after it cannot continue a number and does not start with `×` (`Rules.TextReadsScientific` covers `×10`). Revision 2's rule is the same (data-preprocessors.js:144-155) |
| Rules.TextReadsScientific | lib/data-preprocessors.js:225 | A cell printed as `m×10^e` reads as m times ten to the e: the `×10` becomes the exponent marker |
| Rules.SplitOnce | lib/data-preprocessors.js:466 | `splitKeep(d, 2)`: the text before the first `d` and everything after it, or the whole text and `""` |
| Rules.QuantityReads | lib/data-preprocessors.js:271-273 | A cell printed as literal, space, unit reads as the literal's value and the unit text |
| Rules.PercentLabelKey | lib/data-preprocessors.js:322 | For a `% in <place>` label, the key is `percent` followed by the place, with the place's first apostrophe removed, camel-cased |
| Rules.ConfigurationStart | lib/data-preprocessors.js:406-413 | The base exists exactly when the first child's text has `]`. It is that text before the `]`, minus its first character. The starting shell is the piece after the first `]`, up to the next one |
| Rules.ElectronConfiguration | lib/data-preprocessors.js:396-433 | The record holds a configuration whose base exists exactly when the first child holds `]` |
| Rules.ElectronShells | lib/data-preprocessors.js:415-424 | A shell label is in the shells exactly when some count (a `sup` other than `[note]`) follows it. The last such count decides its electron number |
| Rules.ShellsRecorded | lib/data-preprocessors.js:417-424 | The same statement, for the loop over any run of children from any starting label |
| Rules.Discovery | lib/data-preprocessors.js:462-499 | The year is NaN exactly when the text before the first ` in ` begins no integer. A year that parses is negated exactly when that text ends in `BC`. The countries are null exactly when the year is NaN or nothing follows ` in `. Otherwise they are the ` and `-pieces of the rest, cut at leftmost occurrences |
| Rules.DiscoveryReads | lib/data-preprocessors.js:462-499 | A cell printed as `<year>[ BC] in <c1> and <c2> ...` reads back as that year (negated for BC) and exactly those countries |
| Rules.Isotopes | lib/data-preprocessors.js:568-582 | One number per `sup` found below the cell |
| Rules.IsotopesFromSups | lib/data-preprocessors.js:571-573 | The numbers come from exactly the `sup` descendants, in document order, each read by `parseInt` |
| Rules.AbundancesEmpty | lib/data-preprocessors.js:622 | The abundance object is empty exactly when the cell has no table rows |
| Rules.AbundancesLastRowWins | lib/data-preprocessors.js:610-616 | A mass number is a key exactly when some row has it. The last row with it decides the abundance |
| Rules.ListPieces | lib/data-preprocessors.js:707 | A list printed as `a, b, c unit` splits at `, ` into the three literals, the last followed by the unit |
| Revision1.Registry | lib/data-preprocessors.js:42-123 | The rule the first revision's table names for a label. It never names a rule that only the second revision defines |
| Revision1.Integer | lib/data-preprocessors.js:185-196 | `parseInt(parseFloat(text))`: NaN exactly when the float is not finite, and truncation toward zero inside toString's decimal range |
| Revision1.IntegerReadsInteger | lib/data-preprocessors.js:185-196 | A cell starting with an integer below 10^21 in magnitude reads as that integer, when the text after it cannot continue a number and does not start with `×` |
| Revision1.IntegerReadsScientific | lib/data-preprocessors.js:187 | A natural number `i` printed with a `×10<sup>e</sup>` exponent reads as `i`·10^e when that is below 10^21: `parseFloat` reads the rewritten exponent before `parseInt` truncates |
| Revision1.FloatWithUnit | lib/data-preprocessors.js:269-295 | A NaN value gives a unit-less record. Otherwise the rule fails exactly when the unit parser fails, and else carries the number and the parsed unit of the text after the first space |
| Revision1.FloatWithUnitReads | lib/data-preprocessors.js:269-295 | A cell printed as literal, space, unit reads as the literal's value and `getUnitRepresentation` of the unit, failing exactly when the unit parser does |
| Revision1.PercentReadsWholeCell | lib/data-preprocessors.js:321-332 | The percent rule reads the text of all the cell's children, which is the same value the float rule reads from the cell |
| Revision1.NfpaLabel | lib/data-preprocessors.js:357-365 | The value is the first image's `src` when it is present and non-empty, and `null` otherwise (`|| null`) |
| Revision1.QuantumNumbers | lib/data-preprocessors.js:527-546 | The term symbol: the spin multiplicity is NaN exactly when the first child's text begins no integer. The other two parts are trimmed, and empty when the child is missing |
| Revision1.QuantumNumbersRead | lib/data-preprocessors.js:538-543 | Children whose texts are an integer `s` (white space before it, non-digit text after it) and two texts `J` and `L` with white space around them read back as exactly `s`, `J` and `L`: `parseInt` skips the leading white space and `.trim()` removes the rest |
| Revision1.IsotopicAbundances | lib/data-preprocessors.js:606-625 | `null` exactly when the cell has no rows, and the abundance object otherwise |
| Revision1.Csv | lib/data-preprocessors.js:649-660 | `null` exactly for `N/A`. Otherwise, pieces that join by `, ` to the trimmed note-free text, none of them holding `, ` |
| Revision1.FloatCsvWithUnit | lib/data-preprocessors.js:691-724 | `null` for `N/A`. Otherwise it fails exactly when the unit after the last piece's first space fails. Otherwise it gives one number per piece (NaN kept) and that unit |
| Revision1.FloatCsvWithUnitReads | lib/data-preprocessors.js:691-724 | A list printed as `a, b, c unit` reads as the three literal values and `getUnitRepresentation(unit)`, failing exactly when that does |
| Revision1.Apply | lib/data-preprocessors.js:29-35 | Running a rule: only the two unit-aware rules can fail. The key is the percent key for the percent rule and the camel-cased label otherwise, and the label is kept |
| Revision1.CallPreprocessor | lib/data-preprocessors.js:29-35 | A label the table does not name gets the default rule. Otherwise the named rule runs. Only the unit-aware rules can fail |
| Revision2.Registry | data-preprocessors.js:25-108 | The rule the second revision's table names for a label. It never names the quantum-number or unit-aware list rule |
| Revision2.Integer | data-preprocessors.js:128-139 | `parseInt` of the text after `×10` → `e`: NaN exactly when no digit begins it, never infinite, and always integral |
| Revision2.IntegerReadsInteger | data-preprocessors.js:128-139 | A cell starting with any integer, followed by any text that does not start with a digit, reads as that integer. This includes a `×10` exponent: `"2×103"` reads as 2, because the rewritten `e` stops `parseInt` |
| Revision2.IntegerIgnoresExponent | data-preprocessors.js:130 | A natural number `i` printed with a `×10<sup>e</sup>` exponent reads as `i`: the `×10` becomes `e`, where `parseInt` stops |
| Revision2.FloatWithUnit | data-preprocessors.js:160-197 | A NaN value gives a unit-less record. Otherwise the rule fails exactly when the trimmed unit has a `/` followed by no word character. Otherwise it carries the number and the one unit reading of the text after the first space |
| Revision2.FloatWithUnitReads | data-preprocessors.js:160-197 | A cell printed as literal, space, unit reads as the literal's value and the unit reading of the unit, with the same failure condition |
| Revision2.Percent | data-preprocessors.js:203-213 | The value comes from the first child only. With no child it is NaN |
| Revision2.NfpaLabel | data-preprocessors.js:218-226 | The value is the first image's `src` when present, including an empty `src`, and `undefined` otherwise |
| Revision2.LatticeConstants | data-preprocessors.js:314-342 | `null` exactly for `N/A` after trimming and dropping `[note]`. Otherwise one `parseFloat` per `, `-piece, NaN kept, with no `×10` rewrite |
| Revision2.LatticeConstantsRead | data-preprocessors.js:314-342 | Lattice constants printed as `a, b, c unit` read as the three literal values |
| Revision2.IsotopicAbundances | data-preprocessors.js:363-382 | Always the abundance object that `Rules.AbundancesLastRowWins` describes, empty exactly when the cell has no rows |
| Revision2.Csv | data-preprocessors.js:384-395 | Always the `, `-pieces of the trimmed note-free text (no `N/A` case), none of them holding `, ` |
| Revision2.FloatCsv | data-preprocessors.js:397-416 | The numbers are the pieces' values with every NaN removed: as a multiset, exactly the values minus the NaNs |
| Revision2.KeepNumbersAppend | data-preprocessors.js:402-407 | Dropping NaNs distributes over concatenation, so the kept numbers stay in input order |
| Revision2.KeepNumbersCounts | data-preprocessors.js:402-407 | Dropping NaNs keeps every other value exactly as many times as it occurs |
| Revision2.KeepAllNumbers | data-preprocessors.js:402-407 | A list without NaN is kept whole |
| Revision2.FloatCsvNotAvailable | data-preprocessors.js:397-416 | `N/A` gives an empty list, since revision 2 has no `N/A` case here |
| Revision2.FloatCsvLoop | data-preprocessors.js:402-407 | The source's `for` loop with its `push` computes the NaN-free list of the pieces' values |
| Revision2.Apply | data-preprocessors.js:16-22 | Running a rule: only the unit-aware float rule can fail. The key is the percent key for the percent rule and the camel-cased label otherwise |
| Revision2.CallPreprocessor | data-preprocessors.js:16-22 | A label the table does not name gets the default rule. Otherwise the named rule runs. Only the unit-aware float rule can fail |
| Agreement.RegistriesAgree | data-preprocessors.js:25-108 | The two tables name the same rule for a label exactly when it is not one of the three rerouted labels |
| Agreement.Rerouting | data-preprocessors.js:60 | Ionization energies moved from the unit-aware list rule to the float-list rule. Lattice constants moved to their own rule. Quantum numbers lost their rule |
| Agreement.SharedRulesAgree | data-preprocessors.js:16-22 | A label both tables send to a shared rule, or neither table knows, is preprocessed identically by both revisions |
| Agreement.IntegerAgrees | data-preprocessors.js:128-139 | On a cell starting with an integer below 10^21 in magnitude, followed by text that cannot continue a number and does not start with `×`, both integer rules agree. They differ on `×10` cells (`Agreement.IntegerExponentDiffers`) |
| Agreement.IntegerExponentDiffers | data-preprocessors.js:130 | On a cell `i×10<sup>e</sup>`, revision 1 reads `i`·10^e (lib/data-preprocessors.js:187) and revision 2 reads `i`, so the two differ whenever `i` and `e` are non-zero |
| Agreement.PercentAgrees | data-preprocessors.js:205 | With at most one child, the all-children and first-child percent rules agree |
| Agreement.NfpaLabelAgrees | data-preprocessors.js:223 | The NFPA rules agree exactly when the first image has a non-empty `src` |
| Agreement.IsotopicAbundancesAgree | data-preprocessors.js:363-382 | The abundance rules agree exactly when the cell has rows |
| Agreement.CsvAgrees | data-preprocessors.js:384-395 | The list rules agree exactly when the text is not `N/A` |
| Agreement.FloatWithUnitAgrees | data-preprocessors.js:176-187 | Records that the second revision's inline unit steps are the same text as `getUnitRepresentation`. It holds by construction, since both revisions use the same Dafny functions. The unit evidence is in `Units.UnitReadingUnique` and the `FloatWithUnitReads` lemmas |

## Left out

- **Numbers.** Numbers are exact reals, not IEEE-754 doubles. `parseFloat("1e400")` is `Finite(10^400)` here, where JavaScript gives `Infinity`. Rounding to the nearest double, `-0` and the 2^53 integer limit are not modelled. The `Infinity` literal is modelled.
- **Strings.** Strings are sequences of Unicode scalar values, not UTF-16 code units. `substring(5)` in the percent key counts scalars, so labels outside the Basic Multilingual Plane would differ.
- Keys.CamelCase: this is a simplified `_.camelCase`:
  - There is no deburring (`é` stays `é`).
  - Words split only at separators (ASCII other than letters and digits) and at a lower-case letter followed by an upper-case one. lodash also splits letter/digit runs and acronyms, so `"XMLHttp"` gives `"xmlhttp"` here where lodash gives `"xmlHttp"`.
  - Non-ASCII characters are treated as word characters.
  - The labels in both tables are plain words, where the two agree (`Keys.CamelCaseOfWords`).
- **The regex-null TypeError.** When the denominator pattern matches nothing, the source throws. The model returns `Err(DenominatorNotFound)` from the rule (lib/data-preprocessors.js:745, data-preprocessors.js:183), and the caller's reaction to the exception is not modelled.
- **cheerio.**
  - The cell is an immutable tree of text and element nodes.
  - HTML parsing, comment nodes, CDATA, entity decoding and white-space normalisation are not modelled.
  - `$(this).get(0).tagName` is the element's tag, compared as written (`sup`).
- CallPreprocessor: the source tests `typeof preprocessorMappings[key] === 'function'`, which also sees names inherited from `Object.prototype`:
  - `"toString"` returns `"[object Object]"`.
  - `"constructor"` returns a String object.
  - `"valueOf"` returns the table.
  - `"__defineGetter__"` throws.

  The model's tables hold only their own entries, so those labels get the default rule. No element page has such a label.
- JsString.SplitKeep: modelled for a non-empty delimiter and n >= 1 only, the only way the engine calls it (`' '`, `' in '`, n = 2).
- Numbers.IntegerOfNumber: outside toString's decimal range the contract gives the result's sign and that it is a single leading digit. It does not fix which digit. `LeadingDigit` computes it, but no lemma ties it to a digit string.
- Revision1.Registry, Revision2.Registry: their contracts only rule out rules the revision lacks. Each table is checked entry by entry against the other in `Agreement.RegistriesAgree` and `Agreement.Rerouting`, not against a third listing.
- Rules.ElectronConfiguration: the contract states when the base exists and, through `ElectronShells`, the shells. The base text itself is given by `ConfigurationStart`.
- Rules.Isotopes: the contract gives only the list's length; the values are stated in `Rules.IsotopesFromSups`.
- Keys.NfpaLabelKey: it is the one worked label example. Other labels follow from `Keys.CamelCaseOfWords` by instantiation.
- **I/O.** `get-element-data.js`, which fetches and parses the element pages and calls `callPreprocessor`, is not part of this model, and neither are the module system, `require` or the cheerio and lodash packages themselves.
