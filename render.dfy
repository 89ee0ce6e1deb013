/**
 * A reference serializer for document trees and the theorem that the
 * grammar reads a serialized tree back as the same tree, whatever bytes
 * follow the root element.
 */
module Render {
  import opened Wrappers
  import opened Dom
  import opened Grammar

  // ---------------------------------------------------------------------
  // Serialization
  // ---------------------------------------------------------------------

  /** Some key of a non-empty map. */
  ghost function SomeKey(m: AttrMap): (k: Str)
    requires m != map[]
    ensures k in m
  {
    var k :| k in m; k
  }

  /** The entries of a map, each key once, in some order. */
  ghost function PairsOf(m: AttrMap): seq<Attr>
    decreases |m|
  {
    if m == map[] then []
    else
      var k := SomeKey(m);
      var smaller := m - {k};
      assert smaller.Keys == m.Keys - {k};
      PairsOf(smaller) + [(k, m[k])]
  }

  /** Inserting the listed entries in order rebuilds the map. */
  lemma {:induction false} PairsOfRebuilds(m: AttrMap)
    ensures AttrMapOf(PairsOf(m)) == m
    ensures m == map[] <==> PairsOf(m) == []
    ensures forall i :: 0 <= i < |PairsOf(m)| ==> PairsOf(m)[i].0 in m && m[PairsOf(m)[i].0] == PairsOf(m)[i].1
    decreases |m|
  {
    if m != map[] {
      var k := SomeKey(m);
      var smaller := m - {k};
      assert smaller.Keys == m.Keys - {k};
      var rest := PairsOf(smaller);
      var ps := rest + [(k, m[k])];
      assert ps[..|ps| - 1] == rest;
      PairsOfRebuilds(smaller);
      assert smaller[k := m[k]] == m;
      assert forall i :: 0 <= i < |rest| ==> ps[i] == rest[i];
    }
  }

  /** One attribute with the space that precedes it: ` key="value"`. */
  function AttrText(a: Attr): Str {
    " " + a.0 + "=\"" + a.1 + "\""
  }

  function AttrSeqText(ps: seq<Attr>): Str {
    if ps == [] then [] else AttrText(ps[0]) + AttrSeqText(ps[1..])
  }

  ghost function AttrsText(m: AttrMap): Str {
    AttrSeqText(PairsOf(m))
  }

  /** The markup of a node: tags around the children, a meta tag, or the text itself. */
  ghost function NodeText(n: Node): Str
    decreases n
  {
    match n.nodeType
    case Text(t) => t
    case Meta(m) =>
      if m.attributes == map[] then "<meta >" else "<meta" + AttrsText(m.attributes) + ">"
    case Element(d) =>
      "<" + d.tagName + AttrsText(d.attributes) + ">" + ChildrenText(n.children) + "</" + d.tagName + ">"
  }

  ghost function ChildrenText(cs: seq<Node>): Str
    decreases cs
  {
    if cs == [] then [] else NodeText(cs[0]) + ChildrenText(cs[1..])
  }

  /**
   * An element child named "meta" with attributes: its open tag starts
   * with `<meta ` and would be read as a meta tag.
   */
  predicate MetaLookalike(n: Node) {
    n.nodeType.Element? && n.nodeType.data.tagName == "meta" && n.nodeType.data.attributes != map[]
  }

  /** No child anywhere below `n` is a meta lookalike. */
  predicate Renderable(n: Node)
    decreases n
  {
    forall i :: 0 <= i < |n.children| ==> !MetaLookalike(n.children[i]) && Renderable(n.children[i])
  }

  // ---------------------------------------------------------------------
  // Positions in the input
  // ---------------------------------------------------------------------

  /** The bytes `s` occur in `input` at `pos`. */
  predicate At(input: Str, pos: nat, s: Str) {
    pos + |s| <= |input| && input[pos..pos + |s|] == s
  }

  lemma AtSplit(input: Str, pos: nat, a: Str, b: Str)
    requires At(input, pos, a + b)
    ensures At(input, pos, a) && At(input, pos + |a|, b)
  {
    assert input[pos..pos + |a|] == input[pos..pos + |a + b|][..|a|];
    assert input[pos + |a|..pos + |a| + |b|] == input[pos..pos + |a + b|][|a|..];
  }

  lemma AtSlice(input: Str, pos: nat, s: Str, i: nat, j: nat)
    requires At(input, pos, s) && i <= j <= |s|
    ensures At(input, pos + i, s[i..j])
  {
    forall k | 0 <= k < j - i
      ensures input[pos + i..pos + j][k] == s[i..j][k]
    {
      assert input[pos + i..pos + j][k] == input[pos..pos + |s|][i + k];
    }
  }

  lemma AtByte(input: Str, pos: nat, s: Str, k: nat)
    requires At(input, pos, s) && k < |s|
    ensures input[pos + k] == s[k]
  {
    assert input[pos..pos + |s|][k] == input[pos + k];
  }

  /** A run of class `cls` that ends at a byte outside the class is what `Span` finds. */
  lemma {:induction false} SpanAt(input: Str, pos: nat, s: Str, cls: ByteClass)
    requires At(input, pos, s) && AllIn(s, cls)
    requires pos + |s| == |input| || !InClass(input[pos + |s|], cls)
    ensures Span(input, pos, cls) == pos + |s|
    decreases s
  {
    if s != [] {
      AtByte(input, pos, s, 0);
      AtSlice(input, pos, s, 1, |s|);
      assert AllIn(s[1..], cls) by {
        assert forall k :: 0 <= k < |s| - 1 ==> s[1..][k] == s[k + 1];
      }
      SpanAt(input, pos + 1, s[1..], cls);
    }
  }

  /** Whitespace followed by a byte that is not whitespace is what the space rule skips. */
  lemma SpaceAt(input: Str, pos: nat, ws: Str)
    requires At(input, pos, ws) && AllIn(ws, Whitespace)
    requires pos + |ws| == |input| || !IsSpace(input[pos + |ws|])
    ensures Space(input, pos) == pos + |ws|
  {
    SpanAt(input, pos, ws, Whitespace);
  }

  /** `Span` stops at once at a byte outside the class. */
  lemma SpanStops(input: Str, pos: nat, cls: ByteClass)
    requires pos < |input| && !InClass(input[pos], cls)
    ensures Span(input, pos, cls) == pos
  {
  }

  // ---------------------------------------------------------------------
  // Attributes
  // ---------------------------------------------------------------------

  /** Whitespace, `key="value"`: the attribute rule reads exactly that pair. */
  lemma AttributeAt(input: Str, pos: nat, ws: Str, key: Str, value: Str)
    requires AllIn(ws, Whitespace) && IsAttrKey(key) && IsAttrValue(value)
    requires At(input, pos, ws) && At(input, pos + |ws|, key)
    requires HasByte(input, pos + |ws| + |key|, '=') && HasByte(input, pos + |ws| + |key| + 1, '"')
    requires At(input, pos + |ws| + |key| + 2, value) && HasByte(input, pos + |ws| + |key| + 2 + |value|, '"')
    ensures Attribute(input, pos) == Some(Parsed((key, value), pos + |ws| + |key| + |value| + 3))
  {
    hide Space, Span;
    var s := pos + |ws|;
    var k := s + |key|;
    AtByte(input, s, key, 0);
    SpaceAt(input, pos, ws);
    SpanAt(input, s, key, Alpha);
    SpanAt(input, k + 2, value, ValueByte);
  }

  /** The layout of ` key="value"`. */
  lemma AttrTextParts(a: Attr)
    ensures |AttrText(a)| == |a.0| + |a.1| + 4
    ensures AttrText(a)[0] == ' ' && AttrText(a)[1..1 + |a.0|] == a.0
    ensures AttrText(a)[1 + |a.0|] == '=' && AttrText(a)[2 + |a.0|] == '"'
    ensures AttrText(a)[3 + |a.0|..3 + |a.0| + |a.1|] == a.1 && AttrText(a)[3 + |a.0| + |a.1|] == '"'
  {
  }

  /** The attribute rule reads ` key="value"` back as the pair. */
  lemma AttrTextAt(input: Str, pos: nat, a: Attr)
    requires IsAttrKey(a.0) && IsAttrValue(a.1)
    requires At(input, pos, AttrText(a))
    ensures Attribute(input, pos) == Some(Parsed(a, pos + |AttrText(a)|))
  {
    hide Attribute, Space, Span, AttrText;
    var t := AttrText(a);
    AttrTextParts(a);
    AtByte(input, pos, t, 0);
    AtSlice(input, pos, t, 1, 1 + |a.0|);
    AtByte(input, pos, t, 1 + |a.0|);
    AtByte(input, pos, t, 2 + |a.0|);
    AtSlice(input, pos, t, 3 + |a.0|, 3 + |a.0| + |a.1|);
    AtByte(input, pos, t, 3 + |a.0| + |a.1|);
    assert AllIn(" ", Whitespace) && At(input, pos, " ");
    AttributeAt(input, pos, " ", a.0, a.1);
  }

  /** The attribute rule fails where whitespace is followed by the end or by a byte that is neither whitespace nor a letter. */
  lemma AttributeFailsAfter(input: Str, pos: nat, ws: Str)
    requires At(input, pos, ws) && AllIn(ws, Whitespace)
    requires pos + |ws| == |input| || (!IsSpace(input[pos + |ws|]) && !IsAlpha(input[pos + |ws|]))
    ensures Attribute(input, pos).None?
  {
    hide Space, Span;
    SpaceAt(input, pos, ws);
    if pos + |ws| < |input| {
      SpanStops(input, pos + |ws|, Alpha);
    }
  }

  /** The attribute rule fails at '>'. */
  lemma AttributeFailsAtGt(input: Str, pos: nat)
    requires HasByte(input, pos, '>')
    ensures Attribute(input, pos).None?
  {
    SpanStops(input, pos, Whitespace);
    SpanStops(input, pos, Alpha);
  }

  /** Leading whitespace does not change what the attribute rule reads. */
  lemma AttributeSkipsSpace(input: Str, pos: nat)
    requires pos < |input| && IsSpace(input[pos])
    ensures Attribute(input, pos) == Attribute(input, pos + 1)
  {
    assert Space(input, pos) == Space(input, pos + 1);
  }

  lemma {:induction false} AttributeListAt(input: Str, pos: nat, ps: seq<Attr>)
    requires forall i :: 0 <= i < |ps| ==> IsAttrKey(ps[i].0) && IsAttrValue(ps[i].1)
    requires At(input, pos, AttrSeqText(ps)) && HasByte(input, pos + |AttrSeqText(ps)|, '>')
    ensures AttributeList(input, pos) == Parsed(ps, pos + |AttrSeqText(ps)|)
    decreases ps
  {
    hide Attribute, Space, Span;
    if ps == [] {
      AttributeFailsAtGt(input, pos);
    } else {
      var a := ps[0];
      AtSplit(input, pos, AttrText(a), AttrSeqText(ps[1..]));
      AttrTextAt(input, pos, a);
      AttributeListAt(input, pos + |AttrText(a)|, ps[1..]);
      assert [a] + ps[1..] == ps;
    }
  }

  /** One attribute, then the attributes after it. */
  lemma AttributeListStep(input: Str, pos: nat, a: Attr, e: nat)
    requires pos <= |input| && Attribute(input, pos) == Some(Parsed(a, e))
    ensures AttributeList(input, pos) == Parsed([a] + AttributeList(input, e).value, AttributeList(input, e).next)
  {
    hide Attribute, Space, Span;
  }

  /** Where no attribute parses the list is empty. */
  lemma AttributeListEnd(input: Str, pos: nat)
    requires pos <= |input| && Attribute(input, pos).None?
    ensures AttributeList(input, pos) == Parsed([], pos)
  {
    hide Attribute, Space, Span;
  }

  /** The attributes rule reads a serialized map back as the same map. */
  lemma AttributesAt(input: Str, pos: nat, m: AttrMap)
    requires ValidAttrs(m)
    requires At(input, pos, AttrsText(m)) && HasByte(input, pos + |AttrsText(m)|, '>')
    ensures Attributes(input, pos) == Parsed(m, pos + |AttrsText(m)|)
    ensures m != map[] ==> Attribute(input, pos).Some?
  {
    hide Attribute, Space, Span;
    PairsOfRebuilds(m);
    AttributeListAt(input, pos, PairsOf(m));
  }

  /** Serialized attributes are empty or start with a space. */
  lemma AttrsTextStart(m: AttrMap)
    ensures m == map[] <==> AttrsText(m) == []
    ensures m != map[] ==> AttrsText(m)[0] == ' '
  {
    PairsOfRebuilds(m);
    var ps := PairsOf(m);
    if ps != [] {
      assert AttrsText(m) == AttrText(ps[0]) + AttrSeqText(ps[1..]);
    }
  }

  // ---------------------------------------------------------------------
  // Tags
  // ---------------------------------------------------------------------

  /** A tag name followed by a byte that cannot continue it. */
  lemma AlphanumAt(input: Str, pos: nat, tag: Str)
    requires IsTagName(tag) && At(input, pos, tag)
    requires pos + |tag| < |input| && !IsAlphanum(input[pos + |tag|])
    ensures AlphanumString(input, pos) == Some(Parsed(tag, pos + |tag|))
  {
    SpanAt(input, pos, tag, Alphanum);
  }

  lemma OpenFromParts(input: Str, pos: nat, tag: Str, m: AttrMap, e: nat)
    requires HasByte(input, pos, '<') && Space(input, pos) == pos
    requires AlphanumString(input, pos + 1) == Some(Parsed(tag, pos + 1 + |tag|))
    requires Attributes(input, pos + 1 + |tag|) == Parsed(m, e) && HasByte(input, e, '>')
    ensures OpenElement(input, pos) == Some(Parsed((tag, m), e + 1))
  {
    hide Attributes, AttributeList, Attribute, AlphanumString, Space, Span;
  }

  /** An open tag whose attributes the attributes rule reads up to a '>'. */
  lemma OpenTagAt(input: Str, pos: nat, tag: Str, m: AttrMap, e: nat)
    requires IsTagName(tag) && HasByte(input, pos, '<') && At(input, pos + 1, tag)
    requires pos + 1 + |tag| < |input| && !IsAlphanum(input[pos + 1 + |tag|])
    requires Attributes(input, pos + 1 + |tag|) == Parsed(m, e) && HasByte(input, e, '>')
    ensures OpenElement(input, pos) == Some(Parsed((tag, m), e + 1))
  {
    hide OpenElement, Attributes, AttributeList, Attribute, AlphanumString, Span;
    SpanStops(input, pos, Whitespace);
    AlphanumAt(input, pos + 1, tag);
    OpenFromParts(input, pos, tag, m, e);
  }

  /** Serialized attributes followed by '>' are read back, and they do not start with an alphanumeric byte. */
  lemma AttrsTextAt(input: Str, pos: nat, m: AttrMap)
    requires ValidAttrs(m)
    requires At(input, pos, AttrsText(m)) && HasByte(input, pos + |AttrsText(m)|, '>')
    ensures pos < |input| && !IsAlphanum(input[pos])
    ensures Attributes(input, pos) == Parsed(m, pos + |AttrsText(m)|)
  {
    hide Attributes, AttributeList, Attribute, Space, Span;
    AttrsTextStart(m);
    if m != map[] {
      AtByte(input, pos, AttrsText(m), 0);
    }
    AttributesAt(input, pos, m);
  }

  lemma OpenElementAt(input: Str, pos: nat, tag: Str, m: AttrMap)
    requires IsTagName(tag) && ValidAttrs(m)
    requires HasByte(input, pos, '<') && At(input, pos + 1, tag) && At(input, pos + 1 + |tag|, AttrsText(m))
    requires HasByte(input, pos + 1 + |tag| + |AttrsText(m)|, '>')
    ensures OpenElement(input, pos) == Some(Parsed((tag, m), pos + |tag| + |AttrsText(m)| + 2))
  {
    hide OpenElement, Attributes, AttributeList, Attribute, AlphanumString, Space, Span, AttrsText;
    AttrsTextAt(input, pos + 1 + |tag|, m);
    OpenTagAt(input, pos, tag, m, pos + 1 + |tag| + |AttrsText(m)|);
  }

  lemma CloseElementAt(input: Str, pos: nat, tag: Str)
    requires IsTagName(tag)
    requires HasByte(input, pos, '<') && HasByte(input, pos + 1, '/')
    requires At(input, pos + 2, tag) && HasByte(input, pos + 2 + |tag|, '>')
    ensures CloseElement(input, pos) == Some(Parsed(tag, pos + |tag| + 3))
  {
    SpanStops(input, pos, Whitespace);
    SpanAt(input, pos + 2, tag, Alphanum);
  }

  // ---------------------------------------------------------------------
  // Meta tags
  // ---------------------------------------------------------------------

  /** `<meta `, attributes read up to a '>': the meta tag rule succeeds with those attributes. */
  lemma MetaFromParts(input: Str, pos: nat, m: AttrMap, e: nat)
    requires At(input, pos, "<meta ")
    requires Attributes(input, pos + 6) == Parsed(m, e) && HasByte(input, e, '>')
    ensures MetaTag(input, pos) == Some(Parsed(Node(Meta(MetaData(m)), []), e + 1))
  {
    hide Attributes, AttributeList, Attribute, Space, Span;
  }

  /** Leading whitespace before a first attribute does not change what the attributes rule reads. */
  lemma AttributesSkipSpace(input: Str, pos: nat)
    requires pos < |input| && IsSpace(input[pos]) && Attribute(input, pos).Some?
    ensures Attributes(input, pos) == Attributes(input, pos + 1)
  {
    hide Attribute, Space, Span;
    AttributeSkipsSpace(input, pos);
    assert AttributeList(input, pos) == AttributeList(input, pos + 1);
  }

  lemma MetaTagAt(input: Str, pos: nat, n: Node)
    requires n.nodeType.Meta? && ValidNode(n)
    requires At(input, pos, NodeText(n))
    ensures MetaTag(input, pos) == Some(Parsed(n, pos + |NodeText(n)|))
  {
    hide MetaTag, Attributes, AttributeList, Attribute, Space, Span;
    var m := n.nodeType.meta.attributes;
    AttrsTextStart(m);
    if m == map[] {
      assert NodeText(n) == "<meta " + ">";
      AtSplit(input, pos, "<meta ", ">");
      AtByte(input, pos + 6, ">", 0);
      AttributesAt(input, pos + 6, m);
      MetaFromParts(input, pos, m, pos + 6);
    } else {
      var t := AttrsText(m);
      assert NodeText(n) == "<meta" + t + ">";
      AtSplit(input, pos, "<meta" + t, ">");
      AtSplit(input, pos, "<meta", t);
      AtByte(input, pos + 5, t, 0);
      AtByte(input, pos + 5 + |t|, ">", 0);
      AttributesAt(input, pos + 5, m);
      AttributesSkipSpace(input, pos + 5);
      assert At(input, pos, "<meta ") by {
        assert input[pos..pos + 6] == input[pos..pos + 5] + [input[pos + 5]];
      }
      MetaFromParts(input, pos, m, pos + 5 + |t|);
    }
  }

  /**
   * An open tag `<tag ` or `<tag>` is no meta tag, unless the name is
   * "meta" and a space follows it.
   */
  lemma NotMetaPrefix(input: Str, pos: nat, tag: Str)
    requires IsTagName(tag) && HasByte(input, pos, '<') && At(input, pos + 1, tag)
    requires HasByte(input, pos + 1 + |tag|, ' ') || HasByte(input, pos + 1 + |tag|, '>')
    requires tag == "meta" ==> HasByte(input, pos + 1 + |tag|, '>')
    ensures MetaTag(input, pos).None?
  {
    hide Attributes, AttributeList, Attribute, Space, Span;
    var lit: Str := "<meta ";
    var k: nat;
    if |tag| >= 5 {
      AtByte(input, pos + 1, tag, 4);
      k := 5;
    } else if |tag| < 4 {
      k := 1 + |tag|;
    } else if tag == "meta" {
      k := 5;
    } else {
      var j :| 0 <= j < 4 && tag[j] != "meta"[j];
      AtByte(input, pos + 1, tag, j);
      k := 1 + j;
    }
    assert pos + k < |input| && input[pos + k] != lit[k];
    if pos + 6 <= |input| {
      assert input[pos..pos + 6][k] != lit[k];
    }
    assert Literal(input, pos, lit).None?;
  }

  /** A meta tag starts with '<'. */
  lemma NoMetaWithoutLt(input: Str, pos: nat)
    requires pos < |input| && input[pos] != '<'
    ensures MetaTag(input, pos).None?
  {
    hide Attributes, AttributeList, Attribute, Space, Span;
    if pos + 6 <= |input| {
      assert input[pos..pos + 6][0] != "<meta "[0];
    }
  }

  // ---------------------------------------------------------------------
  // Text
  // ---------------------------------------------------------------------

  /** A text run followed by '<' is what the text rule reads. */
  lemma TextAt(input: Str, pos: nat, t: Str)
    requires IsText(t) && At(input, pos, t) && HasByte(input, pos + |t|, '<')
    ensures TextContent(input, pos) == Some(Parsed(TextNode(t), pos + |t|))
  {
    SpanAt(input, pos, t, TextByte);
    AtByte(input, pos, t, 0);
    assert TextContent(input, pos).Some?;
  }

  // ---------------------------------------------------------------------
  // Elements
  // ---------------------------------------------------------------------

  /** The markup of a node other than text starts with '<'. */
  lemma NodeTextStart(n: Node)
    requires ValidNode(n)
    ensures |NodeText(n)| >= 1
    ensures n.nodeType.Text? ==> NodeText(n) == n.nodeType.text
    ensures !n.nodeType.Text? ==> NodeText(n)[0] == '<'
  {
    hide AttrsText, ChildrenText;
  }

  /** The markup of a child list starts with the markup of its first child. */
  lemma ChildrenTextStart(cs: seq<Node>)
    requires cs != [] && ValidNode(cs[0])
    ensures ChildrenText(cs) == NodeText(cs[0]) + ChildrenText(cs[1..])
    ensures |ChildrenText(cs)| >= 1 && ChildrenText(cs)[0] == NodeText(cs[0])[0]
  {
    hide NodeText;
    NodeTextStart(cs[0]);
  }

  /** The open tag `<tag attrs>` read off the input. */
  lemma OpenTagTextAt(input: Str, pos: nat, tag: Str, a: Str)
    requires At(input, pos, "<" + tag + a + ">")
    ensures HasByte(input, pos, '<') && At(input, pos + 1, tag) && At(input, pos + 1 + |tag|, a)
    ensures HasByte(input, pos + 1 + |tag| + |a|, '>')
  {
    AtSplit(input, pos, "<" + tag + a, ">");
    AtSplit(input, pos, "<" + tag, a);
    AtSplit(input, pos, "<", tag);
    AtByte(input, pos, "<", 0);
    AtByte(input, pos + 1 + |tag| + |a|, ">", 0);
  }

  /** The close tag `</tag>` read off the input. */
  lemma CloseTagTextAt(input: Str, pos: nat, tag: Str)
    requires At(input, pos, "</" + tag + ">")
    ensures HasByte(input, pos, '<') && HasByte(input, pos + 1, '/') && At(input, pos + 2, tag)
    ensures HasByte(input, pos + 2 + |tag|, '>')
  {
    AtSplit(input, pos, "</" + tag, ">");
    AtSplit(input, pos, "</", tag);
    AtByte(input, pos, "</", 0);
    AtByte(input, pos, "</", 1);
    AtByte(input, pos + 2 + |tag|, ">", 0);
  }

  /** The layout of an element's markup, read off the input that holds it: open tag, children, close tag. */
  lemma ElementTextAt(input: Str, pos: nat, n: Node)
    requires n.nodeType.Element? && At(input, pos, NodeText(n))
    ensures var tag := n.nodeType.data.tagName;
            var a := AttrsText(n.nodeType.data.attributes);
            var kids := ChildrenText(n.children);
            var p := pos + |tag| + |a| + 2;
            var q := p + |kids|;
            && pos + |NodeText(n)| == q + |tag| + 3
            && HasByte(input, pos, '<') && At(input, pos + 1, tag) && At(input, pos + 1 + |tag|, a)
            && HasByte(input, p - 1, '>') && At(input, p, kids)
            && HasByte(input, q, '<') && HasByte(input, q + 1, '/') && At(input, q + 2, tag)
            && HasByte(input, q + 2 + |tag|, '>')
  {
    hide AttrsText, ChildrenText, At;
    var tag := n.nodeType.data.tagName;
    var a := AttrsText(n.nodeType.data.attributes);
    var kids := ChildrenText(n.children);
    var open := "<" + tag + a + ">";
    var close := "</" + tag + ">";
    assert NodeText(n) == open + kids + close;
    AtSplit(input, pos, open + kids, close);
    AtSplit(input, pos, open, kids);
    OpenTagTextAt(input, pos, tag, a);
    CloseTagTextAt(input, pos + |open| + |kids|, tag);
  }

  /** `</` starts no child: no meta tag, no text, no open tag. */
  lemma ElementChildFailsAtClose(input: Str, pos: nat)
    requires HasByte(input, pos, '<') && HasByte(input, pos + 1, '/')
    ensures ElementChild(input, pos).None?
  {
    hide Attributes, AttributeList, Attribute, Span, Children, CloseElement;
    SpanStops(input, pos, Whitespace);
    assert AlphanumString(input, pos + 1).None?;
    assert OpenElement(input, pos).None?;
    if pos + 6 <= |input| {
      assert input[pos..pos + 6][1] != "<meta "[1];
    }
  }

  /**
   * An open tag ending at `o`, whitespace, children from `p` to `q` and a
   * close tag ending at `e` make an element. This is the element rule read
   * backwards, for proofs that hide its body.
   */
  lemma ElementFromParts(input: Str, pos: nat, tag: Str, m: AttrMap, o: nat, p: nat, cs: seq<Node>, q: nat, e: nat)
    requires pos <= |input|
    requires OpenElement(input, pos) == Some(Parsed((tag, m), o)) && o <= |input| && Space(input, o) == p
    requires Children(input, p) == Parsed(cs, q) && q <= |input|
    requires CloseElement(input, Space(input, q)).Some? && CloseElement(input, Space(input, q)).value.next == e
    ensures ParseElement(input, pos) == Some(Parsed(Node(Element(ElementData(tag, m)), cs), e))
  {
    hide OpenElement, CloseElement, Children, ElementChild, Space, Span;
  }

  /** Parsing the markup of a renderable element gives the element back. */
  lemma {:induction false} ElementRoundTrip(input: Str, pos: nat, n: Node)
    requires n.nodeType.Element? && ValidNode(n) && Renderable(n)
    requires At(input, pos, NodeText(n))
    ensures ParseElement(input, pos) == Some(Parsed(n, pos + |NodeText(n)|))
    decreases n, 0
  {
    hide ParseElement, OpenElement, CloseElement, Children, ElementChild, AlphanumString, Attributes, AttributeList,
      Attribute, Span, NodeText, AttrsText, ChildrenText, ValidNode, Renderable, ValidChildren, MetaLookalike,
      IsTagName, ValidAttrs, StartsWithSpace, AllIn;
    var d := n.nodeType.data;
    var tag := d.tagName;
    var a := AttrsText(d.attributes);
    var kids := ChildrenText(n.children);
    var p := pos + |tag| + |a| + 2;
    var q := p + |kids|;
    ElementFacts(n);
    ElementTextAt(input, pos, n);
    OpenElementAt(input, pos, tag, d.attributes);
    // No whitespace is skipped before the first child, nor before the close tag.
    FirstChildByte(input, p, n.children);
    SpanStops(input, p, Whitespace);
    ChildrenRoundTrip(input, p, n.children);
    SpanStops(input, q, Whitespace);
    CloseElementAt(input, q, tag);
    ElementFromParts(input, pos, tag, d.attributes, p, p, n.children, q, q + |tag| + 3);
  }

  /** What a valid, renderable element says about its parts. */
  lemma ElementFacts(n: Node)
    requires n.nodeType.Element? && ValidNode(n) && Renderable(n)
    ensures IsTagName(n.nodeType.data.tagName) && ValidAttrs(n.nodeType.data.attributes)
    ensures ValidChildren(n.children)
    ensures forall i :: 0 <= i < |n.children| ==> !MetaLookalike(n.children[i]) && Renderable(n.children[i])
    ensures n.children != [] ==> !StartsWithSpace(n.children[0])
  {
  }

  /** Children markup followed by '<' does not start with whitespace. */
  lemma FirstChildByte(input: Str, p: nat, cs: seq<Node>)
    requires ValidChildren(cs) && (cs != [] ==> !StartsWithSpace(cs[0]))
    requires At(input, p, ChildrenText(cs)) && HasByte(input, p + |ChildrenText(cs)|, '<')
    ensures p < |input| && !InClass(input[p], Whitespace)
  {
    hide NodeText;
    if cs != [] {
      ChildrenTextStart(cs);
      NodeTextStart(cs[0]);
      AtByte(input, p, ChildrenText(cs), 0);
    }
  }

  /** What the first child and the rest of a valid, renderable child list satisfy. */
  lemma ChildrenTail(cs: seq<Node>)
    requires cs != [] && ValidChildren(cs)
    requires forall i :: 0 <= i < |cs| ==> !MetaLookalike(cs[i]) && Renderable(cs[i])
    ensures ValidNode(cs[0]) && !MetaLookalike(cs[0]) && Renderable(cs[0])
    ensures ValidChildren(cs[1..])
    ensures forall i :: 0 <= i < |cs[1..]| ==> !MetaLookalike(cs[1..][i]) && Renderable(cs[1..][i])
    ensures |cs| > 1 ==> ValidNode(cs[1]) && (cs[0].nodeType.Text? ==> !cs[1].nodeType.Text?)
  {
    hide ValidNode, MetaLookalike, Renderable;
    assert forall i :: 0 <= i < |cs| - 1 ==> cs[1..][i] == cs[i + 1];
  }

  /** The markup of children that do not start with text, followed by '<', starts with '<'. */
  lemma NextChildLt(input: Str, e: nat, rest: seq<Node>)
    requires rest != [] ==> ValidNode(rest[0]) && !rest[0].nodeType.Text?
    requires At(input, e, ChildrenText(rest)) && HasByte(input, e + |ChildrenText(rest)|, '<')
    ensures HasByte(input, e, '<')
  {
    hide NodeText, ValidNode;
    if rest != [] {
      ChildrenTextStart(rest);
      NodeTextStart(rest[0]);
      AtByte(input, e, ChildrenText(rest), 0);
    }
  }

  /** Children followed by a close tag are read back in order, and the repetition stops at the close tag. */
  lemma {:induction false} ChildrenRoundTrip(input: Str, pos: nat, cs: seq<Node>)
    requires ValidChildren(cs)
    requires forall i :: 0 <= i < |cs| ==> !MetaLookalike(cs[i]) && Renderable(cs[i])
    requires At(input, pos, ChildrenText(cs))
    requires HasByte(input, pos + |ChildrenText(cs)|, '<') && HasByte(input, pos + |ChildrenText(cs)| + 1, '/')
    ensures Children(input, pos) == Parsed(cs, pos + |ChildrenText(cs)|)
    decreases cs
  {
    hide Children, ElementChild, ParseElement, MetaTag, TextContent, Space, Span, NodeText,
      ValidChildren, ValidNode, MetaLookalike, Renderable;
    if cs == [] {
      ElementChildFailsAtClose(input, pos);
      ChildrenStop(input, pos);
    } else {
      var c := cs[0];
      var rest := cs[1..];
      ChildrenTail(cs);
      ChildrenTextStart(cs);
      AtSplit(input, pos, NodeText(c), ChildrenText(rest));
      var e := pos + |NodeText(c)|;
      if c.nodeType.Text? {
        NextChildLt(input, e, rest);
      }
      ChildRoundTrip(input, pos, c);
      ChildrenRoundTrip(input, e, rest);
      ChildrenFromParts(input, pos, c, e, rest, pos + |ChildrenText(cs)|);
      assert [c] + rest == cs;
    }
  }

  /** Where no child parses the child list is empty. */
  lemma ChildrenStop(input: Str, pos: nat)
    requires pos <= |input| && ElementChild(input, pos).None?
    ensures Children(input, pos) == Parsed([], pos)
  {
    hide ElementChild, ParseElement, MetaTag, TextContent, Space, Span;
  }

  /** A child and the children after it make the child list. */
  lemma ChildrenFromParts(input: Str, pos: nat, c: Node, e: nat, rest: seq<Node>, f: nat)
    requires pos <= |input|
    requires ElementChild(input, pos) == Some(Parsed(c, e)) && Children(input, e) == Parsed(rest, f)
    ensures Children(input, pos) == Parsed([c] + rest, f)
  {
    hide ElementChild, ParseElement, MetaTag, TextContent, Space, Span;
  }

  /** One child: a meta tag, a text run up to the next '<', or an element. */
  lemma {:induction false} ChildRoundTrip(input: Str, pos: nat, c: Node)
    requires ValidNode(c) && !MetaLookalike(c) && Renderable(c)
    requires At(input, pos, NodeText(c))
    requires c.nodeType.Text? ==> HasByte(input, pos + |NodeText(c)|, '<')
    ensures ElementChild(input, pos) == Some(Parsed(c, pos + |NodeText(c)|))
    decreases c, 1
  {
    hide ParseElement, Children, MetaTag, TextContent, Attributes, AttributeList, Attribute, Space, Span,
      NodeText, ChildrenText, AttrsText, Literal;
    NodeTextStart(c);
    AtByte(input, pos, NodeText(c), 0);
    match c.nodeType
    case Meta(_) =>
      MetaTagAt(input, pos, c);
    case Text(t) =>
      assert input[pos] != '<';
      NoMetaWithoutLt(input, pos);
      TextAt(input, pos, t);
    case Element(d) =>
      var tag := d.tagName;
      ElementTextAt(input, pos, c);
      AttrsTextStart(d.attributes);
      if d.attributes != map[] {
        AtByte(input, pos + 1 + |tag|, AttrsText(d.attributes), 0);
      }
      NotMetaPrefix(input, pos, tag);
      ElementRoundTrip(input, pos, c);
  }

  // ---------------------------------------------------------------------
  // Documents
  // ---------------------------------------------------------------------

  lemma AtJoin(input: Str, pos: nat, a: Str, b: Str)
    requires At(input, pos, a) && At(input, pos + |a|, b)
    ensures At(input, pos, a + b)
  {
    assert input[pos..pos + |a| + |b|] == input[pos..pos + |a|] + input[pos + |a|..pos + |a| + |b|];
  }

  /** The doctype line, when present. */
  function DoctypeText(present: bool): Str {
    if present then "<!DOCTYPE html>" else []
  }

  /** At the root position an element parses: the document rule reads it as the root. */
  lemma DocumentFromParts(input: Str, p: nat, root: Node, e: nat)
    requires Prologue(input, 0) == p && ParseElement(input, p) == Some(Parsed(root, e))
    ensures LoadDocFromBuffer(input) == Some(Document(root, []))
  {
    hide ParseElement, Doctype, Literal, Space, Span;
  }

  /**
   * Whitespace, an optional doctype and whitespace before a '<' that an
   * alphanumeric byte follows: the root is looked for at that '<'.
   */
  lemma PrologueAt(input: Str, ws1: Str, doctype: bool, ws2: Str)
    requires AllIn(ws1, Whitespace) && AllIn(ws2, Whitespace)
    requires At(input, 0, ws1) && At(input, |ws1|, DoctypeText(doctype))
    requires At(input, |ws1| + |DoctypeText(doctype)|, ws2)
    requires var p := |ws1| + |DoctypeText(doctype)| + |ws2|;
             HasByte(input, p, '<') && p + 1 < |input| && IsAlphanum(input[p + 1])
    ensures Prologue(input, 0) == |ws1| + |DoctypeText(doctype)| + |ws2|
  {
    hide Doctype, Literal, Span;
    var p := |ws1| + |DoctypeText(doctype)| + |ws2|;
    if doctype {
      AtByte(input, |ws1|, DoctypeText(doctype), 0);
      SpanAt(input, 0, ws1, Whitespace);
      assert Doctype(input, |ws1|) == Some(|ws1| + 15);
      SpanAt(input, |ws1| + 15, ws2, Whitespace);
    } else {
      AtJoin(input, 0, ws1, ws2);
      SpanAt(input, 0, ws1 + ws2, Whitespace);
      if p + 15 <= |input| {
        assert input[p..p + 15][1] != "<!DOCTYPE html>"[1];
      }
      assert Doctype(input, p).None?;
      SpanStops(input, p, Whitespace);
    }
  }

  /**
   * Whitespace, an optional doctype, whitespace and the markup of a
   * renderable element, followed by anything: the buffer loads as a
   * document with that element as its root and an empty base URL.
   */
  lemma DocumentRoundTrip(input: Str, ws1: Str, doctype: bool, ws2: Str, root: Node)
    requires AllIn(ws1, Whitespace) && AllIn(ws2, Whitespace)
    requires root.nodeType.Element? && ValidNode(root) && Renderable(root)
    requires At(input, 0, ws1) && At(input, |ws1|, DoctypeText(doctype))
    requires At(input, |ws1| + |DoctypeText(doctype)|, ws2)
    requires At(input, |ws1| + |DoctypeText(doctype)| + |ws2|, NodeText(root))
    ensures LoadDocFromBuffer(input) == Some(Document(root, []))
  {
    hide LoadDocFromBuffer, ParseDocument, ParseElement, Prologue, NodeText, AllIn, ValidNode, Renderable, At;
    var p := |ws1| + |DoctypeText(doctype)| + |ws2|;
    ElementRoundTrip(input, p, root);
    LoadAfterPrologue(input, ws1, doctype, ws2, root, p + |NodeText(root)|);
  }

  /** Skipping whitespace from inside a run of it ends where skipping from the run's end does. */
  lemma {:induction false} SpaceThrough(input: Str, pos: nat, ws: Str)
    requires At(input, pos, ws) && AllIn(ws, Whitespace)
    ensures Space(input, pos) == Space(input, pos + |ws|)
    decreases ws
  {
    if ws != [] {
      AtByte(input, pos, ws, 0);
      AtSlice(input, pos, ws, 1, |ws|);
      assert AllIn(ws[1..], Whitespace) by {
        assert forall k :: 0 <= k < |ws| - 1 ==> ws[1..][k] == ws[k + 1];
      }
      SpaceThrough(input, pos + 1, ws[1..]);
    }
  }

  /** An element begins by skipping whitespace, so skipping it first reads the same element. */
  lemma ParseElementAfterSpace(input: Str, pos: nat)
    requires pos <= |input|
    ensures ParseElement(input, pos) == ParseElement(input, Space(input, pos))
  {
    hide AlphanumString, Attributes, Children, CloseElement;
    var s := Space(input, pos);
    SpanStopsAt(input, s);
    assert OpenElement(input, pos) == OpenElement(input, s);
  }

  /** Skipping whitespace where it has already been skipped stays put. */
  lemma SpanStopsAt(input: Str, s: nat)
    requires s <= |input| && (s == |input| || !IsSpace(input[s]))
    ensures Space(input, s) == s
  {
  }

  /** An element at a byte that is not whitespace has a name byte right after its '<'. */
  lemma ElementNeedsName(input: Str, pos: nat)
    requires pos <= |input| && ParseElement(input, pos).Some? && Space(input, pos) == pos
    ensures HasByte(input, pos, '<') && pos + 1 < |input| && IsAlphanum(input[pos + 1])
  {
    hide Attributes, Children, CloseElement;
  }

  /** With a doctype, the prologue ends where whitespace after the doctype's own whitespace ends. */
  lemma PrologueWithDoctype(input: Str, ws1: Str, ws2: Str)
    requires AllIn(ws1, Whitespace) && AllIn(ws2, Whitespace)
    requires At(input, 0, ws1) && At(input, |ws1|, "<!DOCTYPE html>") && At(input, |ws1| + 15, ws2)
    ensures Prologue(input, 0) == Space(input, |ws1| + 15 + |ws2|)
  {
    hide Literal, Span, AllIn;
    AtByte(input, |ws1|, "<!DOCTYPE html>", 0);
    SpaceAt(input, 0, ws1);
    assert Doctype(input, |ws1|) == Some(|ws1| + 15);
    SpaceThrough(input, |ws1| + 15, ws2);
  }

  /**
   * Without a doctype, and with an element after the whitespace, the
   * prologue is that whitespace: a doctype cannot start where an element does.
   */
  lemma PrologueWithoutDoctype(input: Str, ws: Str)
    requires AllIn(ws, Whitespace) && At(input, 0, ws)
    requires ParseElement(input, Space(input, |ws|)).Some?
    ensures Prologue(input, 0) == Space(input, |ws|)
  {
    hide ParseElement, Literal, Span, At, AllIn;
    var s := Space(input, |ws|);
    SpaceThrough(input, 0, ws);
    SpanStopsAt(input, s);
    ElementNeedsName(input, s);
    if s + 15 <= |input| {
      assert input[s..s + 15][1] != "<!DOCTYPE html>"[1];
    }
    assert Doctype(input, s).None?;
  }

  lemma AllInJoin(a: Str, b: Str, cls: ByteClass)
    requires AllIn(a, cls) && AllIn(b, cls)
    ensures AllIn(a + b, cls)
  {
    assert forall k :: 0 <= k < |a + b| ==> (a + b)[k] == if k < |a| then a[k] else b[k - |a|];
  }

  /**
   * Whitespace, an optional doctype and whitespace, then an element, whatever
   * its markup and whatever follows it: the buffer loads with that element
   * as its root.
   */
  lemma LoadAfterPrologue(input: Str, ws1: Str, doctype: bool, ws2: Str, root: Node, e: nat)
    requires AllIn(ws1, Whitespace) && AllIn(ws2, Whitespace)
    requires At(input, 0, ws1) && At(input, |ws1|, DoctypeText(doctype))
    requires At(input, |ws1| + |DoctypeText(doctype)|, ws2)
    requires ParseElement(input, |ws1| + |DoctypeText(doctype)| + |ws2|) == Some(Parsed(root, e))
    ensures LoadDocFromBuffer(input) == Some(Document(root, []))
  {
    hide LoadDocFromBuffer, ParseDocument, ParseElement, Prologue, Space, Span, At, AllIn;
    var p := |ws1| + |DoctypeText(doctype)| + |ws2|;
    ParseElementAfterSpace(input, p);
    if doctype {
      PrologueWithDoctype(input, ws1, ws2);
    } else {
      AtJoin(input, 0, ws1, ws2);
      AllInJoin(ws1, ws2, Whitespace);
      PrologueWithoutDoctype(input, ws1 + ws2);
    }
    DocumentFromParts(input, Space(input, p), root, e);
  }
}
