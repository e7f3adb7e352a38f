/** How a unit is read from the text that follows a quantity
    (`getUnitRepresentation`): a ratio when the text has a `/`, otherwise
    the text with its first `[note]` marker and a parenthesised restatement
    removed. The two regular expressions involved, `/((\w+\s?)+)/` and
    `/\(.+\)/`, are modelled by what their first match is. */
module Units {
  import opened Wrappers
  import opened JsString

  /** A plain unit such as `pm`, or a ratio such as `m` over `s`. */
  datatype Unit = Plain(text: string) | Ratio(numerator: string, denominator: string)

  // ---------------------------------------------------------------------
  // `/((\w+\s?)+)/.exec(s)[0]`

  /** Word runs separated by single white-space characters, possibly
      followed by one more white-space character: the strings
      `(\w+\s?)+` matches. */
  predicate WordsShape(m: string) {
    && m != [] && IsWordChar(m[0])
    && (forall k :: 0 <= k < |m| ==> IsWordChar(m[k]) || IsWhite(m[k]))
    && (forall k :: 0 <= k < |m| - 1 ==> IsWhite(m[k]) ==> IsWordChar(m[k + 1]))
  }

  /** The greedy match of `(\w+\s?)+` that starts at `i` is `s[i..e]`:
      it has the shape, and the next character could not extend it. */
  predicate WordsMatchAt(s: string, i: int, e: int) {
    && 0 <= i < e <= |s| && WordsShape(s[i..e])
    && (e == |s| || (!IsWordChar(s[e]) && (IsWhite(s[e]) ==> IsWhite(s[e - 1]))))
  }

  /** `m` is what `/((\w+\s?)+)/` finds in `s`, starting at `i`: the greedy
      match at the leftmost word character. */
  predicate FirstWordsAt(s: string, m: string, i: int) {
    WordsMatchAt(s, i, i + |m|) && NoWordChar(s[..i]) && m == s[i..i + |m|]
  }

  predicate NoWordChar(s: string) {
    forall k :: 0 <= k < |s| ==> !IsWordChar(s[k])
  }

  /** Extends a match whose last character, at `j - 1`, is a word character. */
  function WordsEnd(s: string, j: nat): (e: nat)
    requires 0 < j <= |s| && IsWordChar(s[j - 1])
    ensures j <= e <= |s|
    decreases |s| - j
  {
    if j == |s| then j
    else if IsWordChar(s[j]) then WordsEnd(s, j + 1)
    else if !IsWhite(s[j]) then j
    else if j + 1 < |s| && IsWordChar(s[j + 1]) then WordsEnd(s, j + 2)
    else j + 1
  }

  /** `WordsEnd` consumes only word characters and single white-space
      characters between them, and stops where `(\w+\s?)+` must stop. */
  lemma {:induction false} WordsEndConsumes(s: string, j: nat)
    requires 0 < j <= |s| && IsWordChar(s[j - 1])
    ensures forall k :: j <= k < WordsEnd(s, j) ==> IsWordChar(s[k]) || IsWhite(s[k])
    decreases |s| - j
  {
    if j < |s| && IsWordChar(s[j]) {
      WordsEndConsumes(s, j + 1);
    } else if j + 1 < |s| && IsWhite(s[j]) && IsWordChar(s[j + 1]) {
      WordsEndConsumes(s, j + 2);
    }
  }

  lemma {:induction false} WordsEndPairsWhite(s: string, j: nat)
    requires 0 < j <= |s| && IsWordChar(s[j - 1])
    ensures forall k :: j - 1 <= k < WordsEnd(s, j) - 1 ==> IsWhite(s[k]) ==> IsWordChar(s[k + 1])
    decreases |s| - j
  {
    WordCharNotWhite(s[j - 1]);
    if j < |s| && IsWordChar(s[j]) {
      WordsEndPairsWhite(s, j + 1);
    } else if j + 1 < |s| && IsWhite(s[j]) && IsWordChar(s[j + 1]) {
      WordsEndPairsWhite(s, j + 2);
    }
  }

  lemma {:induction false} WordsEndHalts(s: string, j: nat)
    requires 0 < j <= |s| && IsWordChar(s[j - 1])
    ensures var e := WordsEnd(s, j);
            e == |s| || (!IsWordChar(s[e]) && (IsWhite(s[e]) ==> IsWhite(s[e - 1])))
    decreases |s| - j
  {
    if j < |s| && IsWordChar(s[j]) {
      WordsEndHalts(s, j + 1);
    } else if j + 1 < |s| && IsWhite(s[j]) && IsWordChar(s[j + 1]) {
      WordsEndHalts(s, j + 2);
    } else if j < |s| && IsWhite(s[j]) {
      WordCharNotWhite(s[j - 1]);
      assert WordsEnd(s, j) == j + 1;
    }
  }

  /** The first index at or after `i` holding a word character. */
  function FirstWordChar(s: string, i: nat): (r: Option<nat>)
    requires i <= |s|
    ensures r.Some? ==> i <= r.value < |s| && IsWordChar(s[r.value])
    ensures r.Some? ==> forall k :: i <= k < r.value ==> !IsWordChar(s[k])
    ensures r.None? ==> forall k :: i <= k < |s| ==> !IsWordChar(s[k])
    decreases |s| - i
  {
    if i == |s| then None
    else if IsWordChar(s[i]) then Some(i)
    else FirstWordChar(s, i + 1)
  }

  /** `exec` of `/((\w+\s?)+)/` on `s`: nothing when `s` has no word
      character, otherwise the greedy match at the leftmost word character. */
  function DenominatorMatch(s: string): (r: Option<string>)
    ensures r.None? <==> NoWordChar(s)
    ensures r.Some? ==> exists i :: FirstWordsAt(s, r.value, i)
  {
    match FirstWordChar(s, 0)
    case None => None
    case Some(i) =>
      WordsFromFirst(s, i);
      Some(s[i..WordsEnd(s, i + 1)])
  }

  /** The greedy match from the leftmost word character `i`. */
  lemma WordsFromFirst(s: string, i: nat)
    requires i < |s| && IsWordChar(s[i])
    requires forall k :: 0 <= k < i ==> !IsWordChar(s[k])
    ensures FirstWordsAt(s, s[i..WordsEnd(s, i + 1)], i) && !NoWordChar(s)
  {
    assert !NoWordChar(s) by {
      assert IsWordChar(s[i]);
    }
    var e := WordsEnd(s, i + 1);
    WordsMatchFrom(s, i + 1);
    PrefixNoWordChar(s, i);
    FirstWordsIntro(s, i, e);
  }

  /** `exec` has one answer: the leftmost word character fixes where the
      match starts and greediness fixes where it ends. */
  lemma FirstWordsUnique(s: string, m: string, i: int, m': string, i': int)
    requires FirstWordsAt(s, m, i) && FirstWordsAt(s, m', i')
    ensures m == m' && i == i'
  {
    assert IsWordChar(s[i]) by { assert s[i..i + |m|][0] == s[i]; }
    assert IsWordChar(s[i']) by { assert s[i'..i' + |m'|][0] == s[i']; }
    NoWordCharBefore(s, i);
    NoWordCharBefore(s, i');
    WordsMatchInside(s, i, i + |m|, i + |m'|);
    WordsMatchInside(s, i, i + |m'|, i + |m|);
  }

  /** A greedy match cannot stop inside a longer match from the same start. */
  lemma WordsMatchInside(s: string, i: int, e: int, e': int)
    requires WordsMatchAt(s, i, e')
    ensures i < e < e' ==> !WordsMatchAt(s, i, e)
  {
    if i < e < e' {
      var w := s[i..e'];
      assert w[e - i] == s[e] && w[e - 1 - i] == s[e - 1];
      assert IsWordChar(w[e - i]) || IsWhite(w[e - i]);
    }
  }

  /** What `WordsEnd` reaches from a word character at `j - 1` is a match. */
  lemma WordsMatchFrom(s: string, j: nat)
    requires 0 < j <= |s| && IsWordChar(s[j - 1])
    ensures WordsMatchAt(s, j - 1, WordsEnd(s, j))
  {
    WordsEndConsumes(s, j);
    WordsEndPairsWhite(s, j);
    WordsEndHalts(s, j);
    WordsSlice(s, j, WordsEnd(s, j));
  }

  lemma FirstWordsIntro(s: string, i: nat, e: nat)
    requires WordsMatchAt(s, i, e) && NoWordChar(s[..i])
    ensures FirstWordsAt(s, s[i..e], i)
  {
    assert |s[i..e]| == e - i;
  }

  /** The facts `WordsEnd` gives about `s`, read on the slice `s[j - 1..e]`. */
  lemma WordsSlice(s: string, j: nat, e: nat)
    requires 0 < j <= e <= |s| && IsWordChar(s[j - 1])
    requires forall k :: j <= k < e ==> IsWordChar(s[k]) || IsWhite(s[k])
    requires forall k :: j - 1 <= k < e - 1 ==> IsWhite(s[k]) ==> IsWordChar(s[k + 1])
    requires e == |s| || (!IsWordChar(s[e]) && (IsWhite(s[e]) ==> IsWhite(s[e - 1])))
    ensures WordsMatchAt(s, j - 1, e)
  {
    var i := j - 1;
    var m := s[i..e];
    assert m[0] == s[i];
    forall k | 0 <= k < |m| ensures IsWordChar(m[k]) || IsWhite(m[k]) {
      assert m[k] == s[i + k];
    }
    forall k | 0 <= k < |m| - 1 ensures IsWhite(m[k]) ==> IsWordChar(m[k + 1]) {
      assert m[k] == s[i + k] && m[k + 1] == s[i + k + 1];
    }
  }

  lemma NoWordCharBefore(s: string, i: nat)
    requires i <= |s| && NoWordChar(s[..i])
    ensures forall k :: 0 <= k < i ==> !IsWordChar(s[k])
  {
    forall k | 0 <= k < i ensures !IsWordChar(s[k]) {
      assert s[..i][k] == s[k];
    }
  }

  lemma PrefixNoWordChar(s: string, i: nat)
    requires i <= |s| && forall k :: 0 <= k < i ==> !IsWordChar(s[k])
    ensures NoWordChar(s[..i])
  {
    forall k | 0 <= k < i ensures !IsWordChar(s[..i][k]) {
      assert s[..i][k] == s[k];
    }
  }

  // ---------------------------------------------------------------------
  // `.replace(/\(.+\)/, '')`

  /** `s[i..j + 1]` is a match of `\(.+\)`: an opening parenthesis, at least
      one character that is not a line terminator, a closing parenthesis. */
  predicate GroupAt(s: string, i: int, j: int) {
    && 0 <= i && i + 2 <= j < |s| && s[i] == '(' && s[j] == ')'
    && forall k :: i < k < j ==> !IsLineTerminator(s[k])
  }

  /** The first line terminator at or after `k`, or the end of `s`. */
  function LineEnd(s: string, k: nat): (e: nat)
    requires k <= |s|
    ensures k <= e <= |s| && (e == |s| || IsLineTerminator(s[e]))
    ensures forall m :: k <= m < e ==> !IsLineTerminator(s[m])
    decreases |s| - k
  {
    if k == |s| || IsLineTerminator(s[k]) then k else LineEnd(s, k + 1)
  }

  /** The last `)` in `s[lo..hi]`. */
  function LastClose(s: string, lo: nat, hi: nat): (r: Option<nat>)
    requires hi <= |s|
    ensures r.Some? ==> lo <= r.value < hi && s[r.value] == ')'
    ensures r.Some? ==> forall m :: r.value < m < hi ==> s[m] != ')'
    ensures r.None? ==> forall m :: lo <= m < hi ==> s[m] != ')'
    decreases hi
  {
    if hi <= lo then None
    else if s[hi - 1] == ')' then Some(hi - 1)
    else LastClose(s, lo, hi - 1)
  }

  /** The leftmost-starting, then longest, match at or after `i`. */
  function GroupFrom(s: string, i: nat): (r: Option<(nat, nat)>)
    requires i <= |s|
    ensures r.Some? ==> GroupAt(s, r.value.0, r.value.1) && i <= r.value.0
    ensures r.Some? ==> forall i', j' :: i <= i' < r.value.0 ==> !GroupAt(s, i', j')
    ensures r.Some? ==> forall j' :: r.value.1 < j' ==> !GroupAt(s, r.value.0, j')
    ensures r.None? ==> forall i', j' :: i <= i' ==> !GroupAt(s, i', j')
    decreases |s| - i
  {
    if i == |s| then None
    else
      var found := if s[i] == '(' then LastClose(s, i + 2, LineEnd(s, i + 1)) else None;
      if found.Some? then Some((i, found.value))
      else GroupFrom(s, i + 1)
  }

  /** `s.replace(/\(.+\)/, '')`: the leftmost match, extended as far as the
      line allows, is cut out; without a match `s` is unchanged. */
  function StripGroup(s: string): (r: string)
    ensures GroupCut(s, r)
    ensures forall c :: c in r ==> c in s
  {
    match GroupFrom(s, 0)
    case None => s
    case Some((i, j)) =>
      assert FirstLongestGroup(s, i, j);
      s[..i] + s[j + 1..]
  }

  /** `s[i..j + 1]` is the match `exec` reports: no match starts earlier and
      none starting at `i` is longer. */
  ghost predicate FirstLongestGroup(s: string, i: int, j: int) {
    && GroupAt(s, i, j)
    && (forall i', j' :: 0 <= i' < i ==> !GroupAt(s, i', j'))
    && (forall j' :: j < j' ==> !GroupAt(s, i, j'))
  }

  /** `b` is `a` with its first, longest parenthesised group cut out, or
      `a` itself when it has none. */
  ghost predicate GroupCut(a: string, b: string) {
    || ((forall i, j :: !GroupAt(a, i, j)) && b == a)
    || exists i, j :: FirstLongestGroup(a, i, j) && b == a[..i] + a[j + 1..]
  }

  /** Two strings cannot both be the match `exec` reports. */
  lemma FirstLongestGroupUnique(s: string, i: int, j: int, i': int, j': int)
    requires FirstLongestGroup(s, i, j) && FirstLongestGroup(s, i', j')
    ensures i == i' && j == j'
  {
    assert GroupAt(s, i, j) && GroupAt(s, i', j');
  }

  /** What the group replacement leaves is determined by its input. */
  lemma {:induction false} GroupCutUnique(a: string, b: string, b': string)
    requires GroupCut(a, b) && GroupCut(a, b')
    ensures b == b'
  {
    if exists i, j :: GroupAt(a, i, j) {
      var i, j :| FirstLongestGroup(a, i, j) && b == a[..i] + a[j + 1..];
      var i', j' :| FirstLongestGroup(a, i', j') && b' == a[..i'] + a[j' + 1..];
      FirstLongestGroupUnique(a, i, j, i', j');
    }
  }

  // ---------------------------------------------------------------------
  // getUnitRepresentation

  /** The piece of `s` between its first `/` and the next one. */
  function AfterFirstSlash(s: string): string {
    var parts := Split(s, "/");
    if |parts| >= 2 then parts[1] else ""
  }

  /** `d` is the trimmed first match of `/((\w+\s?)+)/` in `s`. */
  ghost predicate DenominatorReading(s: string, d: string) {
    exists m, i :: FirstWordsAt(s, m, i) && d == Trim(m)
  }

  /** `a` is `t` with its first `[note]` cut out, or `t` itself when it has
      none. */
  ghost predicate NoteCut(t: string, a: string) {
    || ((forall j :: !OccursAt(t, "[note]", j)) && a == t)
    || exists i :: ReplacedAt(t, "[note]", "", a, i)
  }

  /** `text` is what is left of `t` once the first `[note]` and then the
      first, longest parenthesised group are cut out, trimmed. */
  ghost predicate PlainReading(t: string, text: string) {
    exists a, b :: NoteCut(t, a) && GroupCut(a, b) && text == Trim(b)
  }

  /** How `getUnitRepresentation` reads `raw`, stated through the first
      matches of its patterns: a ratio of the trimmed text before the first
      `/` over the trimmed word group after it when the trimmed text has a
      `/`, the plain reading otherwise. */
  ghost predicate UnitReading(raw: string, u: Unit) {
    var t := Trim(raw);
    if Contains(t, "/") then
      && u.Ratio? && u.numerator == Trim(t[..IndexOf(t, "/").value])
      && DenominatorReading(AfterFirstSlash(t), u.denominator)
    else
      u.Plain? && PlainReading(t, u.text)
  }

  /** A text has at most one reading as a unit. */
  lemma {:induction false} UnitReadingUnique(raw: string, u: Unit, u': Unit)
    requires UnitReading(raw, u) && UnitReading(raw, u')
    ensures u == u'
  {
    var t := Trim(raw);
    if Contains(t, "/") {
      var s := AfterFirstSlash(t);
      var m, i :| FirstWordsAt(s, m, i) && u.denominator == Trim(m);
      var m', i' :| FirstWordsAt(s, m', i') && u'.denominator == Trim(m');
      FirstWordsUnique(s, m, i, m', i');
    } else {
      var a, b :| NoteCut(t, a) && GroupCut(a, b) && u.text == Trim(b);
      var a', b' :| NoteCut(t, a') && GroupCut(a', b') && u'.text == Trim(b');
      NoteCutUnique(t, a, a');
      GroupCutUnique(a, b, b');
    }
  }

  lemma {:induction false} NoteCutUnique(t: string, a: string, a': string)
    requires NoteCut(t, a) && NoteCut(t, a')
    ensures a == a'
  {
    if exists j :: OccursAt(t, "[note]", j) {
      var i :| ReplacedAt(t, "[note]", "", a, i);
      var i' :| ReplacedAt(t, "[note]", "", a', i');
      ReplacedAtUnique(t, "[note]", "", a, i, a', i');
    }
  }

  /** What a denominator can be: a trimmed, non-empty run of words
      separated by white space. */
  predicate IsDenominator(d: string) {
    && d != [] && IsTrimmed(d) && IsWordChar(d[0])
    && forall k :: 0 <= k < |d| ==> IsWordChar(d[k]) || IsWhite(d[k])
  }

  /** `getUnitRepresentation(rawUnit)`: for a trimmed text containing `/`,
      the trimmed text before the first `/` over the trimmed first word
      group after it (failing when there is no word character there);
      otherwise the trimmed text with the first `[note]` and a parenthesised
      group cut out. */
  function GetUnitRepresentation(raw: string): (r: Result<Unit>)
    ensures var t := Trim(raw);
            && (r.Err? <==> Contains(t, "/") && NoWordChar(AfterFirstSlash(t)))
            && (r.Ok? ==> (r.value.Ratio? <==> Contains(t, "/")))
    ensures r.Ok? && r.value.Ratio? ==>
              var t := Trim(raw);
              && r.value.numerator == Trim(t[..IndexOf(t, "/").value])
              && IsDenominator(r.value.denominator)
    ensures r.Ok? && r.value.Plain? ==> IsTrimmed(r.value.text) && '/' !in r.value.text
    ensures r.Ok? ==> UnitReading(raw, r.value)
  {
    var t := Trim(raw);
    if Contains(t, "/") then RatioUnit(t) else Ok(Plain(PlainUnit(t)))
  }

  /** The ratio branch, for a trimmed text `t` with a `/`. */
  function RatioUnit(t: string): (r: Result<Unit>)
    requires Contains(t, "/")
    ensures r.Err? <==> NoWordChar(AfterFirstSlash(t))
    ensures r.Ok? ==> && r.value.Ratio?
                      && r.value.numerator == Trim(t[..IndexOf(t, "/").value])
                      && IsDenominator(r.value.denominator)
                      && DenominatorReading(AfterFirstSlash(t), r.value.denominator)
  {
    var parts := Split(t, "/");
    assert AfterFirstSlash(t) == parts[1];
    match DenominatorMatch(parts[1])
    case None => Err(DenominatorNotFound)
    case Some(m) =>
      var i :| FirstWordsAt(parts[1], m, i);
      DenominatorTrim(m);
      Ok(Ratio(Trim(parts[0]), Trim(m)))
  }

  /** The plain branch, for a trimmed text `t` without `/`. */
  function PlainUnit(t: string): (r: string)
    requires !Contains(t, "/")
    ensures IsTrimmed(r) && '/' !in r
    ensures PlainReading(t, r)
  {
    NoSlashInPlain(t);
    PlainUnitReads(t);
    Trim(StripGroup(ReplaceFirst(t, "[note]", "")))
  }

  lemma PlainUnitReads(t: string)
    ensures PlainReading(t, Trim(StripGroup(ReplaceFirst(t, "[note]", ""))))
  {
    var a := ReplaceFirst(t, "[note]", "");
    assert NoteCut(t, a);
    var b := StripGroup(a);
    assert NoteCut(t, a) && GroupCut(a, b);
  }

  /** Trimming a matched word group keeps a non-empty text of word
      characters and white space that starts with a word character. */
  lemma DenominatorTrim(m: string)
    requires WordsShape(m)
    ensures IsDenominator(Trim(m))
  {
    var d := Trim(m);
    var i :| WhiteAround(m, d, i);
    WordCharNotWhite(m[0]);
    TrimFromStart(m, d, i);
    PrefixShape(m, |d|);
  }

  /** When `s` does not start with white space, trimming only cuts its end. */
  lemma TrimFromStart(s: string, r: string, i: int)
    requires WhiteAround(s, r, i) && s != [] && !IsWhite(s[0])
    ensures r != [] && r == s[..|r|]
  {
    HeadOfPrefix(s, i);
    assert i == 0;
    NotAllWhite(s);
  }

  lemma HeadOfPrefix(s: string, i: int)
    ensures 0 < i <= |s| ==> s[..i][0] == s[0]
  {
  }

  lemma NotAllWhite(s: string)
    requires s != [] && !IsWhite(s[0])
    ensures !AllWhite(s)
  {
  }

  lemma PrefixShape(m: string, n: nat)
    requires WordsShape(m) && 0 < n <= |m|
    ensures m[..n][0] == m[0]
    ensures forall k :: 0 <= k < n ==> IsWordChar(m[..n][k]) || IsWhite(m[..n][k])
  {
  }

  lemma WordCharNotWhite(c: char)
    requires IsWordChar(c)
    ensures !IsWhite(c)
  {
  }

  /** Cutting `[note]` and a group out of a text without `/`, then trimming,
      leaves no `/`. */
  lemma NoSlashInPlain(t: string)
    requires !Contains(t, "/")
    ensures '/' !in Trim(StripGroup(ReplaceFirst(t, "[note]", "")))
  {
    ContainsChar(t, '/');
    var a := ReplaceFirst(t, "[note]", "");
    ReplaceKeepsOut(t, "[note]", "", '/');
    TrimKeepsOut(StripGroup(a), '/');
  }
}
