/**
 * The markup grammar of src/dom/mod.rs, one function per parser rule.
 *
 * A rule reads `input` from position `pos` and either fails (None) or
 * yields a value and the position after what it consumed. Ordered choice
 * tries the next alternative from the same position, a repetition is
 * greedy and stops at its first failing attempt without consuming it,
 * and no rule requires the input to end where it stops.
 */
module Grammar {
  import opened Wrappers
  import opened Dom

  datatype Parsed<+T> = Parsed(value: T, next: nat)

  type Attr = (Str, Str)

  // ---------------------------------------------------------------------
  // Byte classes
  // ---------------------------------------------------------------------

  datatype ByteClass =
    | Whitespace   // space, tab, CR, LF
    | Alpha        // ASCII letters
    | Alphanum     // ASCII letters and digits
    | ValueByte    // anything but backslash and double quote
    | TextByte     // anything but '<'

  predicate IsSpace(c: Byte) { c == ' ' || c == '\t' || c == '\r' || c == '\n' }
  predicate IsAlpha(c: Byte) { 'A' <= c <= 'Z' || 'a' <= c <= 'z' }
  predicate IsAlphanum(c: Byte) { IsAlpha(c) || '0' <= c <= '9' }

  predicate InClass(c: Byte, cls: ByteClass) {
    match cls
    case Whitespace => IsSpace(c)
    case Alpha => IsAlpha(c)
    case Alphanum => IsAlphanum(c)
    case ValueByte => c != '\\' && c != '"'
    case TextByte => c != '<'
  }

  predicate AllIn(s: Str, cls: ByteClass) {
    forall k :: 0 <= k < |s| ==> InClass(s[k], cls)
  }

  /** The shapes of the strings the grammar produces. */
  predicate IsTagName(s: Str) { |s| >= 1 && AllIn(s, Alphanum) }
  predicate IsAttrKey(s: Str) { |s| >= 1 && AllIn(s, Alpha) }
  predicate IsAttrValue(s: Str) { |s| >= 1 && AllIn(s, ValueByte) }
  predicate IsText(s: Str) { |s| >= 1 && AllIn(s, TextByte) }

  predicate ValidAttrs(m: AttrMap) {
    forall k :: k in m ==> IsAttrKey(k) && IsAttrValue(m[k])
  }

  /**
   * What every parsed tree satisfies: text nodes hold a non-empty run of
   * bytes other than '<', text and meta nodes have no children, names and
   * attributes have the shapes above, no two text nodes are neighbours and
   * a first text child does not start with whitespace.
   */
  predicate ValidNode(n: Node)
    decreases n
  {
    match n.nodeType
    case Text(t) => IsText(t) && n.children == []
    case Meta(m) => ValidAttrs(m.attributes) && n.children == []
    case Element(d) =>
      IsTagName(d.tagName) && ValidAttrs(d.attributes) && ValidChildren(n.children)
        && !(n.children != [] && StartsWithSpace(n.children[0]))
  }

  /** A text node whose first byte is whitespace. */
  predicate StartsWithSpace(n: Node) {
    n.nodeType.Text? && |n.nodeType.text| > 0 && IsSpace(n.nodeType.text[0])
  }

  predicate ValidChildren(cs: seq<Node>)
    decreases cs
  {
    && (forall i :: 0 <= i < |cs| ==> ValidNode(cs[i]))
    && (forall i :: 0 <= i < |cs| - 1 && cs[i].nodeType.Text? ==> !cs[i + 1].nodeType.Text?)
  }

  // ---------------------------------------------------------------------
  // Primitives: runs of one byte class, single bytes, literals
  // ---------------------------------------------------------------------

  /** The end of the longest run of bytes of class `cls` starting at `pos`. */
  function Span(input: Str, pos: nat, cls: ByteClass): (end: nat)
    requires pos <= |input|
    ensures pos <= end <= |input|
    ensures AllIn(input[pos..end], cls)
    ensures end == |input| || !InClass(input[end], cls)
    decreases |input| - pos
  {
    if pos < |input| && InClass(input[pos], cls) then Span(input, pos + 1, cls) else pos
  }

  /** `space`: zero or more whitespace bytes; never fails. */
  function Space(input: Str, pos: nat): (end: nat)
    requires pos <= |input|
    ensures pos <= end <= |input|
    ensures AllIn(input[pos..end], Whitespace)
    ensures end == |input| || !IsSpace(input[end])
  {
    Span(input, pos, Whitespace)
  }

  /** `sym(c)`: whether the byte at `pos` is `c`. */
  predicate HasByte(input: Str, pos: nat, c: Byte) {
    pos < |input| && input[pos] == c
  }

  /** `seq(lit)`: the literal bytes `lit` at `pos`. */
  function Literal(input: Str, pos: nat, lit: Str): (r: Option<nat>)
    requires pos <= |input|
    ensures r.Some? <==> pos + |lit| <= |input| && input[pos..pos + |lit|] == lit
    ensures r.Some? ==> r.value == pos + |lit|
  {
    if pos + |lit| <= |input| && input[pos..pos + |lit|] == lit then Some(pos + |lit|) else None
  }

  // ---------------------------------------------------------------------
  // Names and attributes
  // ---------------------------------------------------------------------

  /** `alphanum_string`: one or more ASCII letters or digits. */
  function AlphanumString(input: Str, pos: nat): (r: Option<Parsed<Str>>)
    requires pos <= |input|
    ensures r.None? <==> !(pos < |input| && IsAlphanum(input[pos]))
    ensures r.Some? ==> && pos < r.value.next <= |input|
                        && r.value.value == input[pos..r.value.next]
                        && IsTagName(r.value.value)
                        && (r.value.next == |input| || !IsAlphanum(input[r.value.next]))
  {
    var end := Span(input, pos, Alphanum);
    if end == pos then None else Some(Parsed(input[pos..end], end))
  }

  /** `element_name`: the same rule as `alphanum_string`. */
  function ElementName(input: Str, pos: nat): Option<Parsed<Str>>
    requires pos <= |input|
  {
    AlphanumString(input, pos)
  }

  /**
   * `attribute`: whitespace, a key of one or more ASCII letters, `="`,
   * a value of one or more bytes other than backslash and double quote,
   * and a closing double quote.
   */
  function Attribute(input: Str, pos: nat): (r: Option<Parsed<Attr>>)
    requires pos <= |input|
    ensures r.Some? ==> && pos < r.value.next <= |input|
                        && IsAttrKey(r.value.value.0) && IsAttrValue(r.value.value.1)
  {
    var s := Space(input, pos);
    var k := Span(input, s, Alpha);
    if k == s || !HasByte(input, k, '=') || !HasByte(input, k + 1, '"') then None
    else
      var v := Span(input, k + 2, ValueByte);
      if v == k + 2 || !HasByte(input, v, '"') then None
      else Some(Parsed((input[s..k], input[k + 2..v]), v + 1))
  }

  /** What an attribute consumes: whitespace, then exactly `key="value"`. */
  lemma AttributeConsumes(input: Str, pos: nat)
    requires pos <= |input| && Attribute(input, pos).Some?
    ensures var s := Space(input, pos);
            var r := Attribute(input, pos).value;
            s < r.next && input[s..r.next] == r.value.0 + "=\"" + r.value.1 + "\""
  {
    var s := Space(input, pos);
    var k := Span(input, s, Alpha);
    var v := Span(input, k + 2, ValueByte);
    assert input[s..v + 1] == input[s..k] + "=\"" + input[k + 2..v] + "\"";
  }

  /** `attribute().repeat(0..)`: attributes as long as one parses. */
  function AttributeList(input: Str, pos: nat): (r: Parsed<seq<Attr>>)
    requires pos <= |input|
    ensures pos <= r.next <= |input|
    ensures forall i :: 0 <= i < |r.value| ==> IsAttrKey(r.value[i].0) && IsAttrValue(r.value[i].1)
    decreases |input| - pos
  {
    match Attribute(input, pos)
    case None => Parsed([], pos)
    case Some(a) =>
      var rest := AttributeList(input, a.next);
      Parsed([a.value] + rest.value, rest.next)
  }

  /** The repetition is greedy: no further attribute parses where it stops. */
  lemma {:induction false} AttributeListStops(input: Str, pos: nat)
    requires pos <= |input|
    ensures Attribute(input, AttributeList(input, pos).next).None?
    decreases |input| - pos
  {
    match Attribute(input, pos)
    case None =>
    case Some(a) => AttributeListStops(input, a.next);
  }

  /** The map obtained by inserting the pairs in order into an empty map. */
  function AttrMapOf(pairs: seq<Attr>): AttrMap
  {
    if pairs == [] then map[] else AttrMapOf(pairs[..|pairs| - 1])[pairs[|pairs| - 1].0 := pairs[|pairs| - 1].1]
  }

  /** The keys of the map are the keys of the pairs. */
  lemma {:induction false} AttrMapOfKeys(pairs: seq<Attr>, k: Str)
    ensures k in AttrMapOf(pairs) <==> exists i :: 0 <= i < |pairs| && pairs[i].0 == k
  {
    if pairs != [] {
      var init := pairs[..|pairs| - 1];
      AttrMapOfKeys(init, k);
      assert forall i :: 0 <= i < |init| ==> init[i] == pairs[i];
    }
  }

  /** Each key holds the value of its last pair: a later duplicate overwrites an earlier one. */
  lemma {:induction false} AttrMapOfLastWins(pairs: seq<Attr>, i: nat)
    requires i < |pairs|
    requires forall j :: i < j < |pairs| ==> pairs[j].0 != pairs[i].0
    ensures pairs[i].0 in AttrMapOf(pairs) && AttrMapOf(pairs)[pairs[i].0] == pairs[i].1
  {
    var init := pairs[..|pairs| - 1];
    if i < |pairs| - 1 {
      assert forall j :: 0 <= j < |init| ==> init[j] == pairs[j];
      AttrMapOfLastWins(init, i);
    }
  }

  /** Every entry of the map is one of the pairs. */
  lemma {:induction false} AttrMapOfEntries(pairs: seq<Attr>, k: Str)
    requires k in AttrMapOf(pairs)
    ensures exists i :: 0 <= i < |pairs| && pairs[i] == (k, AttrMapOf(pairs)[k])
  {
    var init := pairs[..|pairs| - 1];
    var last := pairs[|pairs| - 1];
    if k != last.0 {
      AttrMapOfEntries(init, k);
      assert forall j :: 0 <= j < |init| ==> init[j] == pairs[j];
    } else {
      assert pairs[|pairs| - 1] == (k, AttrMapOf(pairs)[k]);
    }
  }

  /** The insert loop of `attributes`. */
  method BuildAttrMap(pairs: seq<Attr>) returns (m: AttrMap)
    ensures m == AttrMapOf(pairs)
  {
    m := map[];
    for i := 0 to |pairs|
      invariant m == AttrMapOf(pairs[..i])
    {
      assert pairs[..i + 1][..i] == pairs[..i];
      m := m[pairs[i].0 := pairs[i].1];
    }
    assert pairs[..|pairs|] == pairs;
  }

  /** `attributes`: zero or more attributes folded into a map; never fails. */
  function Attributes(input: Str, pos: nat): (r: Parsed<AttrMap>)
    requires pos <= |input|
    ensures pos <= r.next <= |input|
    ensures ValidAttrs(r.value)
  {
    var list := AttributeList(input, pos);
    var m := AttrMapOf(list.value);
    assert forall k :: k in m ==> IsAttrKey(k) && IsAttrValue(m[k]) by {
      forall k | k in m ensures IsAttrKey(k) && IsAttrValue(m[k]) {
        AttrMapOfEntries(list.value, k);
      }
    }
    Parsed(m, list.next)
  }

  // ---------------------------------------------------------------------
  // Tags, text and elements
  // ---------------------------------------------------------------------

  /** `open_element`: whitespace, '<', a name, attributes, '>'. */
  function OpenElement(input: Str, pos: nat): (r: Option<Parsed<(Str, AttrMap)>>)
    requires pos <= |input|
    ensures r.Some? ==> && pos < r.value.next <= |input|
                        && IsTagName(r.value.value.0) && ValidAttrs(r.value.value.1)
  {
    var s := Space(input, pos);
    if !HasByte(input, s, '<') then None
    else
      match AlphanumString(input, s + 1)
      case None => None
      case Some(name) =>
        var atts := Attributes(input, name.next);
        if HasByte(input, atts.next, '>') then Some(Parsed((name.value, atts.value), atts.next + 1))
        else None
  }

  /**
   * What an open tag consumes: whitespace, '<' and the name, then attributes
   * up to a final '>'. This unfolds the rule; proofs that hide its body use
   * it as the rule's interface.
   */
  lemma OpenElementConsumes(input: Str, pos: nat)
    requires pos <= |input| && OpenElement(input, pos).Some?
    ensures var s := Space(input, pos);
            var r := OpenElement(input, pos).value;
            var tag := r.value.0;
            && s + 1 + |tag| < r.next && input[s..s + 1 + |tag|] == "<" + tag
            && r.value.1 == Attributes(input, s + 1 + |tag|).value
            && Attributes(input, s + 1 + |tag|).next == r.next - 1 && input[r.next - 1] == '>'
  {
    hide Attributes, AttributeList, Attribute, Span;
    var s := Space(input, pos);
    var name := AlphanumString(input, s + 1).value;
    assert input[s..name.next] == "<" + name.value;
  }

  /** `close_element`: whitespace, '<', '/', a name, '>'; the name is returned and nothing else checks it. */
  function CloseElement(input: Str, pos: nat): (r: Option<Parsed<Str>>)
    requires pos <= |input|
    ensures r.Some? ==> && pos < r.value.next <= |input|
                        && IsTagName(r.value.value)
  {
    var s := Space(input, pos);
    if !HasByte(input, s, '<') || !HasByte(input, s + 1, '/') then None
    else
      match AlphanumString(input, s + 2)
      case None => None
      case Some(name) =>
        if HasByte(input, name.next, '>') then Some(Parsed(name.value, name.next + 1))
        else None
  }

  /** What a close tag consumes: whitespace, then exactly `</name>`. */
  lemma CloseElementConsumes(input: Str, pos: nat)
    requires pos <= |input| && CloseElement(input, pos).Some?
    ensures var s := Space(input, pos);
            var r := CloseElement(input, pos).value;
            s < r.next && input[s..r.next] == "</" + r.value + ">"
  {
    var s := Space(input, pos);
    var name := AlphanumString(input, s + 2).value;
    assert input[s..name.next + 1] == "</" + name.value + ">";
  }

  /** `text_content`: the longest non-empty run of bytes other than '<', kept verbatim. */
  function TextContent(input: Str, pos: nat): (r: Option<Parsed<Node>>)
    requires pos <= |input|
    ensures r.None? <==> pos == |input| || input[pos] == '<'
    ensures r.Some? ==> && pos < r.value.next <= |input|
                        && r.value.value == TextNode(input[pos..r.value.next])
                        && (r.value.next == |input| || input[r.value.next] == '<')
  {
    var end := Span(input, pos, TextByte);
    if end == pos then None else Some(Parsed(TextNode(input[pos..end]), end))
  }

  /** `meta_tag`: exactly `<meta `, attributes, '>'; a childless meta node. */
  function MetaTag(input: Str, pos: nat): (r: Option<Parsed<Node>>)
    requires pos <= |input|
    ensures r.Some? ==> && pos + 6 < r.value.next <= |input|
                        && r.value.value.nodeType.Meta? && r.value.value.children == []
                        && ValidAttrs(r.value.value.nodeType.meta.attributes)
  {
    match Literal(input, pos, "<meta ")
    case None => None
    case Some(q) =>
      var atts := Attributes(input, q);
      if HasByte(input, atts.next, '>') then Some(Parsed(Node(Meta(MetaData(atts.value)), []), atts.next + 1))
      else None
  }

  /**
   * What a meta tag consumes: exactly `<meta `, then attributes up to a final
   * '>'. This unfolds the rule; proofs that hide its body use it as the rule's
   * interface.
   */
  lemma MetaTagConsumes(input: Str, pos: nat)
    requires pos <= |input| && MetaTag(input, pos).Some?
    ensures var r := MetaTag(input, pos).value;
            && input[pos..pos + 6] == "<meta "
            && r.value.nodeType.meta.attributes == Attributes(input, pos + 6).value
            && Attributes(input, pos + 6).next == r.next - 1 && input[r.next - 1] == '>'
  {
  }

  /** `element_child`: a meta tag, else text, else a nested element. */
  function ElementChild(input: Str, pos: nat): (r: Option<Parsed<Node>>)
    requires pos <= |input|
    ensures r.Some? ==> pos < r.value.next <= |input|
    decreases |input| - pos, 1
  {
    match MetaTag(input, pos)
    case Some(m) => Some(m)
    case None =>
      match TextContent(input, pos)
      case Some(t) => Some(t)
      case None => ParseElement(input, pos)
  }

  /** `call(element_child).repeat(0..)`: children as long as one parses; never fails. */
  function Children(input: Str, pos: nat): (r: Parsed<seq<Node>>)
    requires pos <= |input|
    ensures pos <= r.next <= |input|
    decreases |input| - pos, 2
  {
    match ElementChild(input, pos)
    case None => Parsed([], pos)
    case Some(c) =>
      var rest := Children(input, c.next);
      Parsed([c.value] + rest.value, rest.next)
  }

  /** `element`: an open tag, whitespace, children, whitespace, a close tag. */
  function ParseElement(input: Str, pos: nat): (r: Option<Parsed<Node>>)
    requires pos <= |input|
    ensures r.Some? ==> pos < r.value.next <= |input|
    decreases |input| - pos, 0
  {
    match OpenElement(input, pos)
    case None => None
    case Some(open) =>
      var p := Space(input, open.next);
      var kids := Children(input, p);
      match CloseElement(input, Space(input, kids.next))
      case None => None
      case Some(close) =>
        var (tagName, attributes) := open.value;
        Some(Parsed(Node(Element(ElementData(tagName, attributes)), kids.value), close.next))
  }

  /** The child repetition is greedy: no further child parses where it stops. */
  lemma {:induction false} ChildrenStops(input: Str, pos: nat)
    requires pos <= |input|
    ensures ElementChild(input, Children(input, pos).next).None?
    decreases |input| - pos
  {
    match ElementChild(input, pos)
    case None =>
    case Some(c) => ChildrenStops(input, c.next);
  }

  /**
   * The node an element yields takes its name and attributes from the open
   * tag, its children in the order parsed, and needs a close tag whose name
   * is not compared with the open tag's. This unfolds the rule; proofs that
   * hide its body use it as the rule's interface.
   */
  lemma ParseElementParts(input: Str, pos: nat)
    requires pos <= |input| && ParseElement(input, pos).Some?
    ensures var open := OpenElement(input, pos);
            var r := ParseElement(input, pos).value;
            && open.Some?
            && r.value.nodeType == Element(ElementData(open.value.value.0, open.value.value.1))
            && var kids := Children(input, Space(input, open.value.next));
               && r.value.children == kids.value
               && var close := CloseElement(input, Space(input, kids.next));
                  close.Some? && close.value.next == r.next
  {
  }

  /**
   * A child is a meta tag with no children, a text run that ends at '<' or
   * at the end of the input, or an element, and it is valid.
   */
  lemma {:induction false} ElementChildValid(input: Str, pos: nat)
    requires pos <= |input| && ElementChild(input, pos).Some?
    ensures var r := ElementChild(input, pos).value;
            && ValidNode(r.value)
            && (r.value.nodeType.Text? ==>
                  && r.value.nodeType.text == input[pos..r.next]
                  && (r.next == |input| || input[r.next] == '<'))
    decreases |input| - pos, 1
  {
    if MetaTag(input, pos).None? && TextContent(input, pos).None? {
      ParseElementValid(input, pos);
    }
  }

  /**
   * The children are valid, no two text children are neighbours, and a
   * first text child starts with the byte the repetition starts at.
   */
  lemma {:induction false} ChildrenValid(input: Str, pos: nat)
    requires pos <= |input|
    ensures var cs := Children(input, pos).value;
            && ValidChildren(cs)
            && (cs != [] && cs[0].nodeType.Text? ==>
                  pos < |input| && |cs[0].nodeType.text| > 0 && cs[0].nodeType.text[0] == input[pos]
                  && input[pos] != '<')
    decreases |input| - pos, 2
  {
    hide ElementChild, ParseElement, MetaTag, TextContent, OpenElement, CloseElement, Attributes, AttributeList,
      Attribute, Space, Span;
    match ElementChild(input, pos)
    case None =>
    case Some(c) =>
      ElementChildValid(input, pos);
      ChildrenValid(input, c.next);
      var rest := Children(input, c.next).value;
      var cs := [c.value] + rest;
      assert forall i :: 1 <= i < |cs| ==> cs[i] == rest[i - 1];
      if c.value.nodeType.Text? {
        assert InClass(c.value.nodeType.text[0], TextByte);
      }
  }

  /** Every element the grammar reads is valid. */
  lemma {:induction false} ParseElementValid(input: Str, pos: nat)
    requires pos <= |input| && ParseElement(input, pos).Some?
    ensures ValidNode(ParseElement(input, pos).value.value)
    decreases |input| - pos, 0
  {
    var open := OpenElement(input, pos).value;
    ChildrenValid(input, Space(input, open.next));
  }

  // ---------------------------------------------------------------------
  // Documents
  // ---------------------------------------------------------------------

  /** `doctype`: exactly `<!DOCTYPE html>`. */
  function Doctype(input: Str, pos: nat): (r: Option<nat>)
    requires pos <= |input|
    ensures r.Some? <==> pos + 15 <= |input| && input[pos..pos + 15] == "<!DOCTYPE html>"
    ensures r.Some? ==> r.value == pos + 15
  {
    Literal(input, pos, "<!DOCTYPE html>")
  }

  /** `space().opt() + doctype().opt() + space()`: where the root element is looked for; never fails. */
  function Prologue(input: Str, pos: nat): (end: nat)
    requires pos <= |input|
    ensures pos <= end <= |input|
    ensures end == |input| || !IsSpace(input[end])
  {
    var s := Space(input, pos);
    var d := match Doctype(input, s) case Some(e) => e case None => s;
    Space(input, d)
  }

  /** `document`: the prologue and one element, which becomes the root; the base URL is empty. */
  function ParseDocument(input: Str, pos: nat): (r: Option<Parsed<Document>>)
    requires pos <= |input|
    ensures r.Some? ==> r.value.value.baseUrl == [] && Prologue(input, pos) < r.value.next <= |input|
  {
    match ParseElement(input, Prologue(input, pos))
    case None => None
    case Some(root) => Some(Parsed(Document(root.value, []), root.next))
  }

  /** The root of a document is a valid element, the one that parses after the prologue. */
  lemma DocumentValid(input: Str, pos: nat)
    requires pos <= |input| && ParseDocument(input, pos).Some?
    ensures var d := ParseDocument(input, pos).value;
            && d.value.rootNode.nodeType.Element? && ValidNode(d.value.rootNode)
            && ParseElement(input, Prologue(input, pos)) == Some(Parsed(d.value.rootNode, d.next))
  {
    ParseElementValid(input, Prologue(input, pos));
  }

  /** `load_doc_from_buffer`: the document rule from the start; what follows the root is ignored. */
  function LoadDocFromBuffer(buf: Str): (r: Option<Document>)
    ensures r.Some? <==> ParseElement(buf, Prologue(buf, 0)).Some?
    ensures r.Some? ==> r.value.baseUrl == []
  {
    match ParseDocument(buf, 0)
    case None => None
    case Some(d) => Some(d.value)
  }

  /**
   * `load_doc` on the bytes of the file `filename`: the parsed document
   * with its base URL overwritten by the file name.
   */
  method LoadDoc(filename: Str, content: Str) returns (r: Option<Document>)
    ensures r.Some? <==> LoadDocFromBuffer(content).Some?
    ensures r.Some? ==> && r.value.rootNode == LoadDocFromBuffer(content).value.rootNode
                        && r.value.baseUrl == filename
  {
    var parsed := LoadDocFromBuffer(content);
    if parsed.None? {
      return None;
    }
    var doc := parsed.value;
    doc := doc.(baseUrl := filename);
    return Some(doc);
  }
}
