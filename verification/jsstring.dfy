/** The JavaScript string operations the preprocessors rely on
    (`trim`, `indexOf`, `replace` with a string pattern, `split`, `join`,
    `substring`, lodash's `endsWith`) and the `splitKeep` extension both
    revisions install on `String.prototype`. Strings are sequences of
    characters; no normalisation or case folding happens anywhere. */
module JsString {
  import opened Wrappers

  /** WhiteSpace (section 12.2 of ECMA-262, including every Zs character) and
      LineTerminator (section 12.3): what `trim`, `parseFloat` and `parseInt`
      skip and what the regular-expression class `\s` matches. */
  predicate IsWhite(c: char) {
    if c <= ' ' then c == ' ' || ('\t' <= c <= '\r') else IsWideWhite(c)
  }

  /** The white-space characters above U+0020. */
  predicate IsWideWhite(c: char) {
    || c == '\U{00A0}' || c == '\U{1680}' || ('\U{2000}' <= c <= '\U{200A}')
    || c == '\U{2028}' || c == '\U{2029}' || c == '\U{202F}' || c == '\U{205F}'
    || c == '\U{3000}' || c == '\U{FEFF}'
  }

  /** LineTerminator (section 12.3 of ECMA-262): the characters the
      regular-expression `.` refuses to match. */
  predicate IsLineTerminator(c: char) {
    c == '\n' || c == '\r' || c == '\U{2028}' || c == '\U{2029}'
  }

  /** The regular-expression class `\w`. */
  predicate IsWordChar(c: char) {
    ('a' <= c <= 'z') || ('A' <= c <= 'Z') || ('0' <= c <= '9') || c == '_'
  }

  predicate AllWhite(s: string) {
    forall i :: 0 <= i < |s| ==> IsWhite(s[i])
  }

  /** Neither end of `s` is white space. */
  predicate IsTrimmed(s: string) {
    s == [] || (!IsWhite(s[0]) && !IsWhite(s[|s| - 1]))
  }

  /** Drops leading white space: what is kept is a suffix of `s`. */
  function TrimStart(s: string): (r: string)
    ensures |r| <= |s| && r == s[|s| - |r|..]
    ensures AllWhite(s[..|s| - |r|])
    ensures r != [] ==> !IsWhite(r[0])
  {
    if s != [] && IsWhite(s[0]) then TrimStart(s[1..]) else s
  }

  /** Drops trailing white space: what is kept is a prefix of `s`. */
  function TrimEnd(s: string): (r: string)
    ensures |r| <= |s| && r == s[..|r|]
    ensures AllWhite(s[|r|..])
    ensures r != [] ==> !IsWhite(r[|r| - 1])
  {
    if s != [] && IsWhite(s[|s| - 1]) then TrimEnd(s[..|s| - 1]) else s
  }

  /** `String.prototype.trim`: the slice of `s` left after removing white
      space from both ends. */
  function Trim(s: string): (r: string)
    ensures IsTrimmed(r)
    ensures exists i :: WhiteAround(s, r, i)
  {
    var t := TrimStart(s);
    var r := TrimEnd(t);
    var i := |s| - |t|;
    TrimWitness(s, t, r, i);
    assert WhiteAround(s, r, i);
    r
  }

  /** `r` occurs in `s` at index `i` with only white space before and after it. */
  predicate WhiteAround(s: string, r: string, i: int) {
    0 <= i <= |s| - |r| && r == s[i..i + |r|] && AllWhite(s[..i]) && AllWhite(s[i + |r|..])
  }

  lemma TrimWitness(s: string, t: string, r: string, i: nat)
    requires i <= |s| && t == s[i..] && AllWhite(s[..i])
    requires |r| <= |t| && r == t[..|r|] && AllWhite(t[|r|..])
    requires t != [] ==> !IsWhite(t[0])
    requires r != [] ==> !IsWhite(r[|r| - 1])
    ensures i + |r| <= |s| && r == s[i..i + |r|] && AllWhite(s[i + |r|..])
    ensures IsTrimmed(r)
  {
    if r != [] {
      assert r[0] == t[0];
    }
    assert s[i + |r|..] == t[|r|..];
  }

  /** Trimming keeps exactly the characters between the first and the last
      non-white ones, so a second trim changes nothing. */
  lemma {:induction false} TrimIdempotent(s: string)
    ensures Trim(Trim(s)) == Trim(s)
  {
    TrimTrimmed(Trim(s));
  }

  lemma {:induction false} TrimTrimmed(s: string)
    requires IsTrimmed(s)
    ensures Trim(s) == s
  {
    assert TrimStart(s) == s;
    assert TrimEnd(s) == s;
  }

  /** A trimmed text with only white space around it in `s` is what `trim`
      returns for `s`. */
  lemma TrimOfWhiteAround(s: string, r: string, i: int)
    requires IsTrimmed(r) && WhiteAround(s, r, i)
    ensures Trim(s) == r
  {
    var t := Trim(s);
    var i' :| WhiteAround(s, t, i');
    TrimmedAroundUnique(s, r, i, t, i');
  }

  /** Two trimmed texts each with only white space around them in `s` are
      the same text at the same place. */
  lemma TrimmedAroundUnique(s: string, r: string, i: int, r': string, i': int)
    requires IsTrimmed(r) && WhiteAround(s, r, i)
    requires IsTrimmed(r') && WhiteAround(s, r', i')
    ensures r == r'
  {
    if r != [] {
      assert s[i] == r[0] && s[i + |r| - 1] == r[|r| - 1];
      WhiteOutside(s, r', i', i);
      WhiteOutside(s, r', i', i + |r| - 1);
    }
    if r' != [] {
      assert s[i'] == r'[0] && s[i' + |r'| - 1] == r'[|r'| - 1];
      WhiteOutside(s, r, i, i');
      WhiteOutside(s, r, i, i' + |r'| - 1);
    }
  }

  /** Every character outside the text that only white space surrounds is
      white space. */
  lemma WhiteOutside(s: string, r: string, i: int, k: int)
    requires WhiteAround(s, r, i) && 0 <= k < |s|
    ensures k < i || k >= i + |r| ==> IsWhite(s[k])
  {
    if k < i {
      assert s[..i][k] == s[k];
    } else if k >= i + |r| {
      assert s[i + |r|..][k - i - |r|] == s[k];
    }
  }

  /** `TrimStart` passes over a prefix of white space. */
  lemma {:induction false} TrimStartSkipsWhite(w: string, s: string)
    requires AllWhite(w)
    ensures TrimStart(w + s) == TrimStart(s)
    decreases |w|
  {
    if w == [] {
      assert w + s == s;
    } else {
      assert IsWhite(w[0]) && (w + s)[0] == w[0];
      assert (w + s)[1..] == w[1..] + s;
      TrimStartSkipsWhite(w[1..], s);
    }
  }

  /** `p` occurs in `s` starting at index `i`. */
  predicate OccursAt(s: string, p: string, i: int) {
    0 <= i && i + |p| <= |s| && s[i..i + |p|] == p
  }

  /** The first occurrence of `p` in `s` at or after `from`. */
  function IndexFrom(s: string, p: string, from: nat): (r: Option<nat>)
    ensures r.Some? ==> from <= r.value && OccursAt(s, p, r.value)
    ensures r.Some? ==> forall j :: from <= j < r.value ==> !OccursAt(s, p, j)
    ensures r.None? ==> forall j :: from <= j ==> !OccursAt(s, p, j)
    decreases |s| - from
  {
    if from + |p| > |s| then None
    else if s[from..from + |p|] == p then Some(from)
    else IndexFrom(s, p, from + 1)
  }

  /** `String.prototype.indexOf`, with `None` for -1: the leftmost
      occurrence of `p`, if any. */
  function IndexOf(s: string, p: string): (r: Option<nat>)
    ensures r.Some? ==> OccursAt(s, p, r.value)
    ensures r.Some? ==> forall j :: 0 <= j < r.value ==> !OccursAt(s, p, j)
    ensures r.None? <==> forall j :: !OccursAt(s, p, j)
  {
    IndexFrom(s, p, 0)
  }

  /** The leftmost occurrence is the one with no occurrence before it. */
  lemma IndexOfAt(s: string, p: string, i: nat)
    requires OccursAt(s, p, i) && forall j :: 0 <= j < i ==> !OccursAt(s, p, j)
    ensures IndexOf(s, p) == Some(i)
  {
    var r := IndexOf(s, p);
    assert r.Some?;
    assert !(r.value < i);
  }

  /** `s.indexOf(p) > -1`. */
  predicate Contains(s: string, p: string) {
    IndexOf(s, p).Some?
  }

  /** A one-character pattern occurs exactly when that character is in the
      string. */
  lemma ContainsChar(s: string, c: char)
    ensures Contains(s, [c]) <==> c in s
  {
    if c in s {
      var i :| 0 <= i < |s| && s[i] == c;
      assert OccursAt(s, [c], i);
    }
    if Contains(s, [c]) {
      var i := IndexOf(s, [c]).value;
      assert s[i] == s[i..i + 1][0];
    }
  }

  /** `s.replace(p, rep)` with a string pattern: only the leftmost
      occurrence is replaced. */
  function ReplaceFirst(s: string, p: string, rep: string): (r: string)
    ensures !Contains(s, p) ==> r == s
    ensures Contains(s, p) ==> exists i :: ReplacedAt(s, p, rep, r, i)
  {
    match IndexOf(s, p)
    case None => s
    case Some(i) =>
      var r := s[..i] + rep + s[i + |p|..];
      assert ReplacedAt(s, p, rep, r, i);
      r
  }

  /** A character in neither `s` nor `rep` is not in the result. */
  lemma ReplaceKeepsOut(s: string, p: string, rep: string, c: char)
    requires c !in s && c !in rep
    ensures c !in ReplaceFirst(s, p, rep)
  {
    var r := ReplaceFirst(s, p, rep);
    if Contains(s, p) {
      var i :| ReplacedAt(s, p, rep, r, i);
      assert forall x :: x in r ==> x in s[..i] || x in rep || x in s[i + |p|..];
    }
  }

  /** Trimming adds no character. */
  lemma TrimKeepsOut(s: string, c: char)
    requires c !in s
    ensures c !in Trim(s)
  {
    var r := Trim(s);
    var i :| WhiteAround(s, r, i);
    assert forall x :: x in r ==> x in s;
  }

  /** Replacing at a known leftmost occurrence. */
  lemma ReplaceAt(s: string, p: string, rep: string, i: nat)
    requires IndexOf(s, p) == Some(i)
    ensures ReplaceFirst(s, p, rep) == s[..i] + rep + s[i + |p|..]
  {
  }

  /** `r` is `s` with its leftmost occurrence of `p`, at `i`, replaced by `rep`. */
  predicate ReplacedAt(s: string, p: string, rep: string, r: string, i: int) {
    && OccursAt(s, p, i) && (forall j :: 0 <= j < i ==> !OccursAt(s, p, j))
    && r == s[..i] + rep + s[i + |p|..]
  }

  /** Only the leftmost occurrence is replaced, so the result is unique. */
  lemma ReplacedAtUnique(s: string, p: string, rep: string, r: string, i: int, r': string, i': int)
    requires ReplacedAt(s, p, rep, r, i) && ReplacedAt(s, p, rep, r', i')
    ensures r == r' && i == i'
  {
  }

  /** An occurrence inside a prefix or a slice is an occurrence in the whole. */
  lemma OccursInSlice(s: string, p: string, lo: nat, hi: nat, j: int)
    requires lo <= hi <= |s|
    ensures OccursAt(s[lo..hi], p, j) ==> OccursAt(s, p, lo + j)
  {
    if OccursAt(s[lo..hi], p, j) {
      var t := s[lo..hi];
      assert forall k | j <= k < j + |p| :: t[k] == s[lo + k];
      assert s[lo..hi][j..j + |p|] == s[lo + j..lo + j + |p|];
    }
  }

  /** `parts.join(d)`. */
  function Join(parts: seq<string>, d: string): string {
    if |parts| == 0 then ""
    else if |parts| == 1 then parts[0]
    else parts[0] + d + Join(parts[1..], d)
  }

  /** `s.split(d)` for a non-empty separator: the pieces between successive
      leftmost non-overlapping occurrences of `d`. */
  function Split(s: string, d: string): (parts: seq<string>)
    requires d != []
    ensures |parts| >= 1
    ensures Join(parts, d) == s
    ensures forall i :: 0 <= i < |parts| ==> !Contains(parts[i], d)
    ensures |parts| == 1 <==> !Contains(s, d)
    ensures Contains(s, d) ==> parts[0] == s[..IndexOf(s, d).value]
    decreases |s|
  {
    match IndexOf(s, d)
    case None => [s]
    case Some(i) =>
      var rest := Split(s[i + |d|..], d);
      SplitStep(s, d, i, rest);
      [s[..i]] + rest
  }

  /** One step of `Split`: the piece before the leftmost occurrence of `d`
      at `i`, followed by the pieces of what comes after it. */
  lemma SplitStep(s: string, d: string, i: nat, rest: seq<string>)
    requires d != [] && IndexOf(s, d) == Some(i)
    requires |rest| >= 1 && Join(rest, d) == s[i + |d|..]
    requires forall j :: 0 <= j < |rest| ==> !Contains(rest[j], d)
    ensures var parts := [s[..i]] + rest;
            && |parts| >= 2 && parts[0] == s[..i]
            && Join(parts, d) == s
            && forall j :: 0 <= j < |parts| ==> !Contains(parts[j], d)
  {
    var head := s[..i];
    var parts := [head] + rest;
    assert !Contains(head, d) by {
      forall j ensures !OccursAt(head, d, j) {
        OccursInSlice(s, d, 0, i, j);
      }
    }
    assert parts[1..] == rest;
    assert Join(parts, d) == head + d + Join(rest, d);
    ThreeSlices(s, i, i + |d|);
    forall j | 0 <= j < |parts| ensures !Contains(parts[j], d) {
      if j > 0 {
        assert parts[j] == rest[j - 1];
      }
    }
  }

  /** No occurrence of `d` starts inside `piece`, not even one running on
      into a `d` that follows it. */
  predicate Separable(piece: string, d: string) {
    IndexOf(piece + d, d) == Some(|piece|)
  }

  /** `parts` are the pieces of `s` between leftmost non-overlapping
      occurrences of `d`: joined by `d` they give `s`, the `d` after each
      piece is the first one that starts in it, and the last piece has
      none. */
  ghost predicate SplitPieces(s: string, d: string, parts: seq<string>) {
    && |parts| >= 1 && Join(parts, d) == s
    && (forall k :: 0 <= k < |parts| - 1 ==> Separable(parts[k], d))
    && !Contains(parts[|parts| - 1], d)
  }

  /** `Split` cuts `s` into its pieces. */
  lemma {:induction false} SplitCutsPieces(s: string, d: string)
    requires d != []
    ensures SplitPieces(s, d, Split(s, d))
    decreases |s|
  {
    var parts := Split(s, d);
    if Contains(s, d) {
      var i := IndexOf(s, d).value;
      var rest := Split(s[i + |d|..], d);
      SplitCutsPieces(s[i + |d|..], d);
      assert parts == [s[..i]] + rest;
      assert Separable(s[..i], d) by {
        FirstOccurrenceInPrefix(s, d, i);
      }
      assert forall k :: 1 <= k < |parts| ==> parts[k] == rest[k - 1];
    }
  }

  /** Cutting `s` just after its first occurrence of `d` keeps that
      occurrence first. */
  lemma FirstOccurrenceInPrefix(s: string, d: string, i: nat)
    requires IndexOf(s, d) == Some(i)
    ensures s[..i] + d == s[..i + |d|] && IndexOf(s[..i + |d|], d) == Some(i)
  {
    var t := s[..i + |d|];
    assert t[i..i + |d|] == s[i..i + |d|];
    forall j | 0 <= j < i ensures !OccursAt(t, d, j) {
      OccursInSlice(s, d, 0, i + |d|, j);
    }
    IndexOfAt(t, d, i);
  }

  /** The first piece fixes where the first occurrence of `d` in `s` is, and
      the other pieces are the pieces of what follows it. */
  lemma SplitPiecesHead(s: string, d: string, parts: seq<string>)
    requires d != [] && SplitPieces(s, d, parts)
    ensures |parts| == 1 <==> !Contains(s, d)
    ensures |parts| >= 2 ==> && IndexOf(s, d) == Some(|parts[0]|) && s[..|parts[0]|] == parts[0]
                             && |parts[0]| + |d| <= |s|
                             && SplitPieces(s[|parts[0]| + |d|..], d, parts[1..])
  {
    if |parts| >= 2 {
      var a := parts[0];
      var rest := parts[1..];
      assert s == a + d + Join(rest, d);
      SeparableFirst(a, d, Join(rest, d));
      assert s[..|a|] == a;
      assert s[|a| + |d|..] == Join(rest, d);
      assert forall k :: 0 <= k < |rest| ==> rest[k] == parts[k + 1];
    }
  }

  /** After a separable piece, the first `d` is the one that follows it. */
  lemma SeparableFirst(a: string, d: string, rest: string)
    requires Separable(a, d)
    ensures IndexOf(a + d + rest, d) == Some(|a|)
  {
    var s := a + d + rest;
    assert s[..|a| + |d|] == a + d;
    forall j | 0 <= j < |a| ensures !OccursAt(s, d, j) {
      OccursInSlice(s, d, 0, |a| + |d|, j);
      assert !OccursAt(a + d, d, j);
    }
    assert s[|a|..|a| + |d|] == d;
    IndexOfAt(s, d, |a|);
  }

  /** A piece without the first character of `d` is separable. */
  lemma SeparableWithout(a: string, d: string)
    requires d != [] && d[0] !in a
    ensures Separable(a, d)
  {
    IndexAfterPiece(a, d, []);
    assert a + d + [] == a + d;
  }

  /** A text has one cutting into pieces. */
  lemma {:induction false} SplitPiecesUnique(s: string, d: string, p: seq<string>, q: seq<string>)
    requires d != [] && SplitPieces(s, d, p) && SplitPieces(s, d, q)
    ensures p == q
    decreases |p|
  {
    SplitPiecesHead(s, d, p);
    SplitPiecesHead(s, d, q);
    if |p| >= 2 {
      var n := |p[0]| + |d|;
      SplitPiecesUnique(s[n..], d, p[1..], q[1..]);
      assert p == [p[0]] + p[1..] && q == [q[0]] + q[1..];
    }
  }

  /** Splitting the join of separable pieces gives the pieces back. */
  lemma SplitOfJoin(parts: seq<string>, d: string)
    requires d != [] && |parts| >= 1
    requires forall k :: 0 <= k < |parts| - 1 ==> Separable(parts[k], d)
    requires !Contains(parts[|parts| - 1], d)
    ensures Split(Join(parts, d), d) == parts
  {
    SplitCutsPieces(Join(parts, d), d);
    SplitPiecesUnique(Join(parts, d), d, parts, Split(Join(parts, d), d));
  }

  /** In `p + q`, a pattern starting with a character `p` lacks occurs only
      inside `q`. */
  lemma OccursAfterPrefix(p: string, q: string, pat: string, j: int)
    requires pat != [] && pat[0] !in p
    ensures j < |p| ==> !OccursAt(p + q, pat, j)
    ensures j >= |p| ==> (OccursAt(p + q, pat, j) <==> OccursAt(q, pat, j - |p|))
  {
    var s := p + q;
    if 0 <= j < |p| && j + |pat| <= |s| {
      assert s[j..j + |pat|][0] == s[j] == p[j];
      assert p[j] in p;
    }
    if j >= |p| && j + |pat| <= |s| {
      assert s[j..j + |pat|] == q[j - |p|..j - |p| + |pat|];
    }
  }

  /** Splitting three pieces, the first two without the separator's first
      character and the last without the separator, gives them back. */
  lemma SplitThree(a: string, b: string, c: string, d: string)
    requires d != [] && d[0] !in a && d[0] !in b && !Contains(c, d)
    ensures Split(a + d + b + d + c, d) == [a, b, c]
  {
    var tail := b + d + c;
    Regroup(a, b, c, d);
    SplitTwo(b, c, d);
    SplitAfterPiece(a, tail, d);
  }

  lemma SplitTwo(b: string, c: string, d: string)
    requires d != [] && d[0] !in b && !Contains(c, d)
    ensures Split(b + d + c, d) == [b, c]
  {
    SplitWhole(c, d);
    SplitAfterPiece(b, c, d);
  }

  lemma Regroup(a: string, b: string, c: string, d: string)
    ensures a + d + b + d + c == a + d + (b + d + c)
  {
  }

  lemma Regroup4(w: string, x: string, y: string, z: string)
    ensures w + x + y + z == w + (x + y + z)
  {
  }

  /** Text without the separator splits into itself. */
  lemma SplitWhole(c: string, d: string)
    requires d != [] && !Contains(c, d)
    ensures Split(c, d) == [c]
  {
    var parts := Split(c, d);
    assert |parts| == 1;
    assert Join(parts, d) == parts[0];
  }

  /** A piece without the separator's first character, the separator, then
      more text: the split starts with that piece. */
  lemma SplitAfterPiece(a: string, rest: string, d: string)
    requires d != [] && d[0] !in a
    ensures Split(a + d + rest, d) == [a] + Split(rest, d)
  {
    var s := a + d + rest;
    IndexAfterPiece(a, d, rest);
    assert s[..|a|] == a;
    assert s[|a| + |d|..] == rest;
  }

  /** The first occurrence of `d` after a piece without its first character
      is the one right after the piece. */
  lemma IndexAfterPiece(a: string, d: string, rest: string)
    requires d != [] && d[0] !in a
    ensures IndexOf(a + d + rest, d) == Some(|a|)
  {
    var s := a + d + rest;
    assert s == a + (d + rest);
    OccursAfterPrefix(a, d + rest, d, |a|);
    assert OccursAt(d + rest, d, 0) by {
      assert (d + rest)[0..|d|] == d;
    }
    forall j | 0 <= j < |a| ensures !OccursAt(s, d, j) {
      OccursAfterPrefix(a, d + rest, d, j);
    }
    IndexOfAt(s, d, |a|);
  }

  lemma ThreeSlices(s: string, i: nat, j: nat)
    requires i <= j <= |s|
    ensures s == s[..i] + s[i..j] + s[j..]
  {
  }

  /** Joining a list whose last element is itself a join gives the join of
      the flattened list. */
  lemma {:induction false} JoinAppendJoin(a: seq<string>, b: seq<string>, d: string)
    requires |b| >= 1
    ensures Join(a + [Join(b, d)], d) == Join(a + b, d)
    decreases |a|
  {
    if |a| == 0 {
      assert a + [Join(b, d)] == [Join(b, d)];
      assert a + b == b;
    } else {
      JoinAppendJoin(a[1..], b, d);
      assert (a + [Join(b, d)])[1..] == a[1..] + [Join(b, d)];
      assert (a + b)[1..] == a[1..] + b;
    }
  }

  /** The `splitKeep(delimiter, n)` extension: split at the first `n - 1`
      delimiters and keep everything after them joined back together as the
      last piece. */
  function SplitKeep(s: string, d: string, n: nat): (r: seq<string>)
    requires d != [] && n >= 1
    ensures var parts := Split(s, d);
            && |r| == (if n - 1 < |parts| then n else |parts| + 1)
            && (forall i :: 0 <= i < |r| - 1 ==> r[i] == parts[i])
            && (n - 1 < |parts| ==> Join(r, d) == s)
            && (n - 1 >= |parts| ==> r[|r| - 1] == "")
  {
    var parts := Split(s, d);
    var k := if n - 1 <= |parts| then n - 1 else |parts|;
    var r := parts[..k] + [Join(parts[k..], d)];
    assert parts[..k] + parts[k..] == parts;
    assert k < |parts| ==> Join(r, d) == Join(parts, d) by {
      if k < |parts| {
        JoinAppendJoin(parts[..k], parts[k..], d);
      }
    }
    r
  }

  /** `splitKeep(d, 2)`, the only form the preprocessors call: exactly two
      pieces, the first free of `d`; when `d` occurs the pieces rejoin to
      `s`, otherwise the second piece is empty. */
  lemma {:induction false} SplitKeepTwo(s: string, d: string)
    requires d != []
    ensures var r := SplitKeep(s, d, 2);
            && |r| == 2
            && !Contains(r[0], d)
            && (Contains(s, d) ==> r[0] + d + r[1] == s && r[0] == s[..IndexOf(s, d).value])
            && (!Contains(s, d) ==> r == [s, ""])
  {
    var r := SplitKeep(s, d, 2);
    var parts := Split(s, d);
    assert r[0] == parts[0];
    if Contains(s, d) {
      assert |parts| >= 2;
      assert Join(r, d) == r[0] + d + Join(r[1..], d);
    } else {
      assert |parts| == 1;
      assert parts == [s];
    }
  }

  /** lodash `_.endsWith(s, suffix)`. */
  predicate EndsWith(s: string, suffix: string) {
    |suffix| <= |s| && s[|s| - |suffix|..] == suffix
  }

  /** `s.substring(k)` for a non-negative start: empty once `k` passes the end. */
  function Substring(s: string, k: nat): (r: string)
    ensures k <= |s| ==> s == s[..k] + r
    ensures k >= |s| ==> r == ""
  {
    if k <= |s| then s[k..] else ""
  }
}
