/** The key every rule derives from its label with lodash's `_.camelCase`,
    for the labels a periodic-table page uses: apostrophes are dropped, the
    words are the runs of characters other than ASCII punctuation, space
    and control characters, a lower-case letter followed by an upper-case
    one also starts a new word, and the words are joined with the first one
    in lower case and each later one capitalised. */
module Keys {
  import JsString

  predicate IsUpper(c: char) {
    'A' <= c <= 'Z'
  }

  predicate IsLower(c: char) {
    'a' <= c <= 'z'
  }

  /** ASCII letters and digits. */
  predicate IsAsciiAlphanumeric(c: char) {
    IsUpper(c) || IsLower(c) || ('0' <= c <= '9')
  }

  /** A character that never belongs to a word: ASCII other than letters
      and digits (space, punctuation, `_`, control characters). */
  predicate IsSeparator(c: char) {
    c as int < 128 && !IsAsciiAlphanumeric(c)
  }

  predicate IsApostrophe(c: char) {
    c == '\'' || c == '\U{2019}'
  }

  function ToLower(c: char): char {
    if IsUpper(c) then (c as int + 32) as char else c
  }

  function ToUpper(c: char): char {
    if IsLower(c) then (c as int - 32) as char else c
  }

  /** Every character in lower case. */
  function LowerAll(s: string): (r: string)
    ensures |r| == |s|
    ensures forall i :: 0 <= i < |s| ==> r[i] == ToLower(s[i])
  {
    if s == [] then [] else [ToLower(s[0])] + LowerAll(s[1..])
  }

  /** `s` without its apostrophes. */
  function DropApostrophes(s: string): (r: string)
    ensures forall c :: c in r <==> c in s && !IsApostrophe(c)
  {
    DropApostrophesFrom(s, |s|)
  }

  /** `s[..n]` without its apostrophes. */
  function DropApostrophesFrom(s: string, n: nat): (r: string)
    requires n <= |s|
    ensures forall c :: c in r <==> c in s[..n] && !IsApostrophe(c)
  {
    if n == 0 then []
    else
      assert s[..n] == s[..n - 1] + [s[n - 1]];
      DropApostrophesFrom(s, n - 1) + (if IsApostrophe(s[n - 1]) then [] else [s[n - 1]])
  }

  /** The word characters of `s`, in order. */
  function WordChars(s: string): (r: string)
    ensures forall c :: c in r <==> c in s && !IsSeparator(c)
  {
    if s == [] then []
    else (if IsSeparator(s[0]) then [] else [s[0]]) + WordChars(s[1..])
  }

  /** The word character at `i` begins a word: it follows a separator or the
      start, or it is an upper-case letter after a lower-case one. */
  predicate StartsWord(t: string, i: nat)
    requires i < |t|
  {
    i == 0 || IsSeparator(t[i - 1]) || (IsLower(t[i - 1]) && IsUpper(t[i]))
  }

  /** The camel-cased rendering of `t[i..]`; `seen` tells whether a word
      character came before `i`. */
  function Fold(t: string, i: nat, seen: bool): string
    requires i <= |t|
    decreases |t| - i
  {
    if i == |t| then []
    else
      var rest := Fold(t, i + 1, seen || !IsSeparator(t[i]));
      if IsSeparator(t[i]) then rest
      else [if seen && StartsWord(t, i) then ToUpper(t[i]) else ToLower(t[i])] + rest
  }

  /** The rendering holds no separator. */
  lemma {:induction false} FoldHasNoSeparator(t: string, i: nat, seen: bool)
    requires i <= |t|
    ensures forall c :: c in Fold(t, i, seen) ==> !IsSeparator(c)
    decreases |t| - i
  {
    if i < |t| {
      FoldHasNoSeparator(t, i + 1, seen || !IsSeparator(t[i]));
      if !IsSeparator(t[i]) {
        CaseKeepsWordCharacter(t[i]);
      }
    }
  }

  /** Ignoring case, the rendering is the word characters of `t[i..]`. */
  lemma {:induction false} FoldKeepsWords(t: string, i: nat, seen: bool)
    requires i <= |t|
    ensures LowerAll(Fold(t, i, seen)) == LowerAll(WordChars(t[i..]))
    decreases |t| - i
  {
    if i < |t| {
      var seen' := seen || !IsSeparator(t[i]);
      FoldKeepsWords(t, i + 1, seen');
      WordCharsStep(t, i);
      if !IsSeparator(t[i]) {
        var c := if seen && StartsWord(t, i) then ToUpper(t[i]) else ToLower(t[i]);
        LowerStep(t[i], c, Fold(t, i + 1, seen'), WordChars(t[i + 1..]));
      }
    } else {
      assert t[i..] == [];
    }
  }

  /** Before the first word, the rendering starts with no upper-case letter. */
  lemma {:induction false} FoldStartsLower(t: string, i: nat)
    requires i <= |t|
    ensures Fold(t, i, false) != [] ==> !IsUpper(Fold(t, i, false)[0])
    decreases |t| - i
  {
    if i < |t| {
      if IsSeparator(t[i]) {
        FoldStartsLower(t, i + 1);
      } else {
        CaseKeepsWordCharacter(t[i]);
      }
    }
  }

  /** Changing the case of a word character leaves a word character, and
      lower-casing leaves no upper-case letter. */
  lemma CaseKeepsWordCharacter(x: char)
    requires !IsSeparator(x)
    ensures !IsSeparator(ToUpper(x)) && !IsSeparator(ToLower(x)) && !IsUpper(ToLower(x))
  {
  }

  /** The word characters of `t[i..]`: those of `t[i + 1..]`, after `t[i]`
      when it is one. */
  lemma WordCharsStep(t: string, i: nat)
    requires i < |t|
    ensures WordChars(t[i..]) == (if IsSeparator(t[i]) then [] else [t[i]]) + WordChars(t[i + 1..])
  {
    assert t[i..][1..] == t[i + 1..];
  }

  /** Prepending characters equal up to case keeps two strings equal up to
      case. */
  lemma LowerStep(x: char, c: char, rest: string, s: string)
    requires (c == ToUpper(x) || c == ToLower(x)) && LowerAll(rest) == LowerAll(s)
    ensures LowerAll([c] + rest) == LowerAll([x] + s)
  {
    LowerAllAppend([c], rest);
    LowerAllAppend([x], s);
  }

  lemma {:induction false} LowerAllAppend(a: string, b: string)
    ensures LowerAll(a + b) == LowerAll(a) + LowerAll(b)
    decreases |a|
  {
    if a == [] {
      assert a + b == b;
    } else {
      assert (a + b)[0] == a[0];
      assert (a + b)[1..] == a[1..] + b;
      LowerAllAppend(a[1..], b);
    }
  }

  /** `_.camelCase(name)`: no separator is left, the first character is
      not an upper-case letter, and ignoring case the key is the label's
      word characters in order. */
  function CamelCase(name: string): (key: string)
    ensures forall c :: c in key ==> !IsSeparator(c)
    ensures key != [] ==> !IsUpper(key[0])
    ensures LowerAll(key) == LowerAll(WordChars(DropApostrophes(name)))
  {
    var t := DropApostrophes(name);
    assert t[0..] == t;
    FoldHasNoSeparator(t, 0, false);
    FoldKeepsWords(t, 0, false);
    FoldStartsLower(t, 0);
    Fold(t, 0, false)
  }

  // ---------------------------------------------------------------------
  // Labels made of words

  /** A word as `_.camelCase` sees it in a label: word characters without
      apostrophes, and no lower-case letter followed by an upper-case one. */
  predicate IsWord(w: string) {
    && w != []
    && (forall k :: 0 <= k < |w| ==> !IsSeparator(w[k]) && !IsApostrophe(w[k]))
    && (forall k :: 0 < k < |w| ==> !(IsLower(w[k - 1]) && IsUpper(w[k])))
  }

  /** `_.capitalize`: the first character in upper case, the rest in lower
      case. */
  function Capitalize(w: string): string
    requires w != []
  {
    [ToUpper(w[0])] + LowerAll(w[1..])
  }

  /** Every entry is a word. */
  predicate Words(ws: seq<string>) {
    ws == [] || (IsWord(ws[0]) && Words(ws[1..]))
  }

  /** The words, each capitalised, run together. */
  function CapitalizeAll(ws: seq<string>): string
    requires Words(ws)
  {
    if ws == [] then "" else Capitalize(ws[0]) + CapitalizeAll(ws[1..])
  }

  /** For a label of words separated by single spaces, the key is the first
      word in lower case followed by every later word capitalised, which is
      how lodash assembles a camel-cased key from the label's words. */
  lemma CamelCaseOfWords(ws: seq<string>)
    requires |ws| >= 1 && Words(ws)
    ensures IsWord(ws[0]) && CamelCase(JsString.Join(ws, " ")) == LowerAll(ws[0]) + CapitalizeAll(ws[1..])
  {
    var t := JsString.Join(ws, " ");
    JoinWordsNoApostrophe(ws);
    DropNoApostrophes(t, |t|);
    assert t[..|t|] == t && t[0..] == t;
    FoldWords(t, 0, ws, false);
  }

  /** The camel-cased rendering from the start of a word: that word, then
      the later ones capitalised. */
  lemma {:induction false} FoldWords(t: string, i: nat, ws: seq<string>, seen: bool)
    requires i <= |t| && t[i..] == JsString.Join(ws, " ")
    requires |ws| >= 1 && Words(ws)
    requires i == 0 || IsSeparator(t[i - 1])
    ensures IsWord(ws[0])
    ensures Fold(t, i, seen) == (if seen then Capitalize(ws[0]) else LowerAll(ws[0])) + CapitalizeAll(ws[1..])
    decreases |ws|
  {
    var w := ws[0];
    var e := i + |w|;
    FirstWordAt(t, i, ws);
    FoldWord(t, i, w, seen);
    if |ws| >= 2 {
      var rest := ws[1..];
      FoldSkipsSeparator(t, e, true);
      FoldWords(t, e + 1, rest, true);
      CapitalizeAllHead(rest);
    }
  }

  /** A separator renders as nothing. */
  lemma FoldSkipsSeparator(t: string, i: nat, seen: bool)
    requires i < |t| && IsSeparator(t[i])
    ensures Fold(t, i, seen) == Fold(t, i + 1, seen)
  {
  }

  lemma CapitalizeAllHead(ws: seq<string>)
    requires |ws| >= 1 && Words(ws)
    ensures CapitalizeAll(ws) == Capitalize(ws[0]) + CapitalizeAll(ws[1..])
  {
  }

  /** Where the joined words start, the first word is spelled out, followed
      by the end of the text or by a space and the later words. */
  lemma FirstWordAt(t: string, i: nat, ws: seq<string>)
    requires i <= |t| && t[i..] == JsString.Join(ws, " ") && |ws| >= 1
    ensures i + |ws[0]| <= |t| && t[i..i + |ws[0]|] == ws[0]
    ensures |ws| == 1 ==> i + |ws[0]| == |t|
    ensures |ws| >= 2 ==> i + |ws[0]| < |t| && t[i + |ws[0]|] == ' '
                          && t[i + |ws[0]| + 1..] == JsString.Join(ws[1..], " ")
  {
    var w := ws[0];
    if |ws| >= 2 {
      var tail := JsString.Join(ws[1..], " ");
      assert t[i..] == w + " " + tail;
      assert t[i..i + |w|] == t[i..][..|w|];
      assert t[i + |w|..] == t[i..][|w|..];
    }
  }

  /** A word starting at `i` renders as itself lower-cased, or capitalised
      once a word came before it. */
  lemma FoldWord(t: string, i: nat, w: string, seen: bool)
    requires IsWord(w) && i + |w| <= |t| && t[i..i + |w|] == w
    requires i == 0 || IsSeparator(t[i - 1])
    ensures Fold(t, i, seen) == (if seen then Capitalize(w) else LowerAll(w)) + Fold(t, i + |w|, true)
  {
    var e := i + |w|;
    var c := if seen then ToUpper(w[0]) else ToLower(w[0]);
    var inside := LowerAll(w[1..]);
    assert Fold(t, i, seen) == [c] + (inside + Fold(t, e, true)) by {
      assert t[i] == w[0];
      FoldStartsWord(t, i, seen);
      WordInside(t, i, w);
      FoldInside(t, i + 1, e);
      assert t[i + 1..e] == w[1..];
    }
    assert (if seen then Capitalize(w) else LowerAll(w)) == [c] + inside;
  }

  /** The first character of a word is upper-cased exactly when a word came
      before it. */
  lemma FoldStartsWord(t: string, i: nat, seen: bool)
    requires i < |t| && !IsSeparator(t[i]) && StartsWord(t, i)
    ensures Fold(t, i, seen) == [if seen then ToUpper(t[i]) else ToLower(t[i])] + Fold(t, i + 1, true)
  {
  }

  /** From `j` up to `e`, every character continues a word. */
  predicate Inside(t: string, j: nat, e: nat)
    requires e <= |t|
    decreases e - j
  {
    j >= e || (!IsSeparator(t[j]) && !StartsWord(t, j) && Inside(t, j + 1, e))
  }

  /** After its first character, a word only continues itself. */
  lemma WordInside(t: string, i: nat, w: string)
    requires IsWord(w) && i + |w| <= |t| && t[i..i + |w|] == w
    ensures Inside(t, i + 1, i + |w|)
  {
    forall k | i + 1 <= k < i + |w| ensures !IsSeparator(t[k]) && !StartsWord(t, k) {
      assert t[k] == w[k - i] && t[k - 1] == w[k - 1 - i];
    }
    InsideFrom(t, i + 1, i + |w|);
  }

  lemma {:induction false} InsideFrom(t: string, j: nat, e: nat)
    requires 0 < j && e <= |t|
    requires forall k :: j <= k < e ==> !IsSeparator(t[k]) && !StartsWord(t, k)
    ensures Inside(t, j, e)
    decreases e - j
  {
    if j < e {
      InsideFrom(t, j + 1, e);
    }
  }

  /** Inside a word no character starts a new one, so each renders in lower
      case. */
  lemma {:induction false} FoldInside(t: string, j: nat, e: nat)
    requires 0 < j <= e <= |t| && Inside(t, j, e)
    ensures Fold(t, j, true) == LowerAll(t[j..e]) + Fold(t, e, true)
    decreases e - j
  {
    if j < e {
      FoldLowerStep(t, j);
      FoldInside(t, j + 1, e);
      LowerAllStep(t, j, e);
    }
  }

  /** A character inside a word renders in lower case. */
  lemma FoldLowerStep(t: string, j: nat)
    requires j < |t| && !IsSeparator(t[j]) && !StartsWord(t, j)
    ensures Fold(t, j, true) == [ToLower(t[j])] + Fold(t, j + 1, true)
  {
  }

  lemma LowerAllStep(s: string, j: nat, e: nat)
    requires j < e <= |s|
    ensures LowerAll(s[j..e]) == [ToLower(s[j])] + LowerAll(s[j + 1..e])
  {
    assert s[j..e][1..] == s[j + 1..e];
  }

  /** Words joined by spaces hold no apostrophe. */
  lemma {:induction false} JoinWordsNoApostrophe(ws: seq<string>)
    requires Words(ws)
    ensures forall k :: 0 <= k < |JsString.Join(ws, " ")| ==> !IsApostrophe(JsString.Join(ws, " ")[k])
    decreases |ws|
  {
    if |ws| >= 2 {
      var rest := JsString.Join(ws[1..], " ");
      JoinWordsNoApostrophe(ws[1..]);
      var t := ws[0] + " " + rest;
      assert JsString.Join(ws, " ") == t;
      forall k | 0 <= k < |t| ensures !IsApostrophe(t[k]) {
        if k < |ws[0]| {
          assert t[k] == ws[0][k];
        } else if k > |ws[0]| {
          assert t[k] == rest[k - |ws[0]| - 1];
        }
      }
    }
  }

  /** Dropping apostrophes from a text without any changes nothing. */
  lemma {:induction false} DropNoApostrophes(s: string, n: nat)
    requires n <= |s| && forall k :: 0 <= k < |s| ==> !IsApostrophe(s[k])
    ensures DropApostrophesFrom(s, n) == s[..n]
  {
    if n > 0 {
      DropNoApostrophes(s, n - 1);
      assert s[..n] == s[..n - 1] + [s[n - 1]];
    }
  }

  /** Two words joined by a space: the first lower-cased, the second
      capitalised. */
  lemma TwoWordsKey(a: string, b: string)
    requires IsWord(a) && IsWord(b)
    ensures CamelCase(a + " " + b) == LowerAll(a) + Capitalize(b)
  {
    assert JsString.Join([a, b], " ") == a + " " + b;
    CamelCaseOfWords([a, b]);
    assert [a, b][1..] == [b];
    CapitalizeAllHead([b]);
  }

  /** The label of the NFPA rule becomes `nfpaLabel`. */
  lemma NfpaLabelKey(name: string)
    requires name == "NFPA Label"
    ensures CamelCase(name) == "nfpaLabel"
  {
    NfpaLabelWords();
    NfpaKeyParts("NFPA", "Label");
  }

  lemma NfpaKeyParts(a: string, b: string)
    requires a == "NFPA" && b == "Label"
    ensures CamelCase(a + " " + b) == "nfpaLabel"
  {
    NfpaWords();
    TwoWordsKey(a, b);
    LowerNfpa();
    CapitalizedLabel();
    NfpaKeyJoined();
  }

  lemma NfpaKeyJoined()
    ensures "nfpa" + "Label" == "nfpaLabel"
  {
    var s := "nfpa" + "Label";
    assert |s| == 9;
    assert forall k :: 0 <= k < 9 ==> s[k] == "nfpaLabel"[k];
  }

  lemma NfpaWords()
    ensures IsWord("NFPA") && IsWord("Label")
  {
  }

  lemma NfpaLabelWords()
    ensures "NFPA" + " " + "Label" == "NFPA Label"
  {
    var s := "NFPA" + " " + "Label";
    assert |s| == 10;
    assert forall k :: 0 <= k < 10 ==> s[k] == "NFPA Label"[k];
  }

  lemma LowerNfpa()
    ensures LowerAll("NFPA") == "nfpa"
  {
    var r := LowerAll("NFPA");
    assert r[0] == 'n' && r[1] == 'f' && r[2] == 'p' && r[3] == 'a';
  }

  lemma CapitalizedLabel()
    ensures Capitalize("Label") == "Label"
  {
    var r := LowerAll("abel");
    assert r[0] == 'a' && r[1] == 'b' && r[2] == 'e' && r[3] == 'l';
    assert "Label"[1..] == "abel";
  }

}
