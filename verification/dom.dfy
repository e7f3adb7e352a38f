/** The read-only view of a table cell the rules get from cheerio: a tree of
    text and element nodes with the handful of traversals the rules use
    (`text`, `contents`, `eq`, `find`, `first`, `last`, `attr`). Parsing HTML
    into this tree is not part of the model. */
module Dom {
  import opened Wrappers

  datatype Node =
    | Text(data: string)
    | Element(tag: string, attributes: map<string, string>, children: seq<Node>)

  /** `.text()` of one node: the concatenation of all descendant text. */
  function TextOf(n: Node): string
    decreases n
  {
    match n
    case Text(data) => data
    case Element(_, _, children) => TextOfAll(children)
  }

  /** `.text()` of a selection: the texts of its nodes, in order. */
  function TextOfAll(ns: seq<Node>): string
    decreases ns
  {
    if ns == [] then "" else TextOf(ns[0]) + TextOfAll(ns[1..])
  }

  /** The text of a selection splits at any boundary between its nodes. */
  lemma {:induction false} TextOfAllAppend(a: seq<Node>, b: seq<Node>)
    ensures TextOfAll(a + b) == TextOfAll(a) + TextOfAll(b)
    decreases |a|
  {
    if a == [] {
      assert a + b == b;
    } else {
      assert (a + b)[1..] == a[1..] + b;
      TextOfAllAppend(a[1..], b);
    }
  }

  /** `.contents()`: the immediate children; a text node has none. */
  function Contents(n: Node): seq<Node> {
    if n.Element? then n.children else []
  }

  /** `.eq(i)` on a selection: the one node at `i`, or nothing. */
  function Eq(ns: seq<Node>, i: nat): (r: seq<Node>)
    ensures i < |ns| ==> r == [ns[i]]
    ensures i >= |ns| ==> r == []
  {
    if i < |ns| then [ns[i]] else []
  }

  /** `.first()` and `.last()` on a selection. */
  function First(ns: seq<Node>): seq<Node> {
    if ns == [] then [] else [ns[0]]
  }

  function Last(ns: seq<Node>): seq<Node> {
    if ns == [] then [] else [ns[|ns| - 1]]
  }

  /** `.text()` of the `i`-th child; the empty string when there is none. */
  function ChildText(n: Node, i: nat): (r: string)
    ensures i < |Contents(n)| ==> r == TextOf(Contents(n)[i])
    ensures i >= |Contents(n)| ==> r == ""
  {
    var sel := Eq(Contents(n), i);
    assert i < |Contents(n)| ==> TextOfAll(sel) == TextOf(sel[0]) + TextOfAll(sel[1..]) && sel[1..] == [];
    TextOfAll(sel)
  }

  /** `n` is an element named `tag`. */
  predicate HasTag(n: Node, tag: string) {
    n.Element? && n.tag == tag
  }

  /** `.find(tag)` on one node: every strict descendant element named `tag`,
      in document (pre-)order. */
  function Find(n: Node, tag: string): seq<Node>
    decreases n
  {
    match n
    case Text(_) => []
    case Element(_, _, children) => FindAll(children, tag)
  }

  /** The matches in each of `ns` and in their descendants, in document order. */
  function FindAll(ns: seq<Node>, tag: string): seq<Node>
    decreases ns
  {
    if ns == [] then []
    else (if HasTag(ns[0], tag) then [ns[0]] else []) + Find(ns[0], tag) + FindAll(ns[1..], tag)
  }

  /** `.find(tag)` on a selection: the matches below each selected node, in
      selection order. */
  function FindBelow(sel: seq<Node>, tag: string): (r: seq<Node>)
    ensures |sel| == 1 ==> r == Find(sel[0], tag)
    decreases |sel|
  {
    if sel == [] then [] else Find(sel[0], tag) + FindBelow(sel[1..], tag)
  }

  /** `d` is `n` itself or lies somewhere below it. */
  predicate Within(d: Node, n: Node)
    decreases n
  {
    d == n || (n.Element? && exists c :: c in n.children && Within(d, c))
  }

  /** `d` lies somewhere below one of `ns`, or is one of them. */
  predicate WithinAny(d: Node, ns: seq<Node>) {
    exists c :: c in ns && Within(d, c)
  }

  /** Everything `Find` returns is a matching strict descendant, and every
      matching strict descendant is returned. */
  lemma {:induction false} FindExactly(n: Node, tag: string, d: Node)
    ensures d in Find(n, tag) <==> HasTag(d, tag) && n.Element? && WithinAny(d, n.children)
    decreases n, 1
  {
    match n
    case Text(_) =>
    case Element(_, _, children) =>
      FindAllExactly(children, tag, d);
  }

  lemma {:induction false} FindAllExactly(ns: seq<Node>, tag: string, d: Node)
    ensures d in FindAll(ns, tag) <==> HasTag(d, tag) && WithinAny(d, ns)
    decreases ns, 0
  {
    if ns != [] {
      var h := ns[0];
      FindExactly(h, tag, d);
      FindAllExactly(ns[1..], tag, d);
      if d in FindAll(ns, tag) {
        if d == h {
          assert Within(d, h);
        } else if d in Find(h, tag) {
          assert Within(d, h);
        } else if d in FindAll(ns[1..], tag) {
          var c :| c in ns[1..] && Within(d, c);
          assert c in ns;
        }
        assert WithinAny(d, ns);
      }
      if HasTag(d, tag) && WithinAny(d, ns) {
        var c :| c in ns && Within(d, c);
        if c == h {
          if d != h {
            assert WithinAny(d, h.children);
          }
        } else {
          assert c in ns[1..];
        }
      }
    }
  }

  /** `.attr(name)` on a selection: the attribute of its first node, absent
      when the selection is empty, the node is text or the attribute is unset. */
  function Attr(ns: seq<Node>, name: string): (r: Option<string>)
    ensures r.Some? <==> ns != [] && ns[0].Element? && name in ns[0].attributes
    ensures r.Some? ==> r.value == ns[0].attributes[name]
  {
    if ns != [] && ns[0].Element? && name in ns[0].attributes then Some(ns[0].attributes[name]) else None
  }
}
