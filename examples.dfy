/**
 * Concrete inputs from the unit tests of src/dom/mod.rs and the edge cases
 * of the grammar, each with what the model reads from it.
 */
module Examples {
  import opened Wrappers
  import opened Dom
  import opened Grammar
  import opened Render

  // ---------------------------------------------------------------------
  // Attributes
  // ---------------------------------------------------------------------

  /** The layout of `key="value"`. */
  lemma PairParts(input: Str, pos: nat, key: Str, value: Str)
    requires At(input, pos, key + "=\"" + value + "\"")
    ensures At(input, pos, key) && HasByte(input, pos + |key|, '=') && HasByte(input, pos + |key| + 1, '"')
    ensures At(input, pos + |key| + 2, value) && HasByte(input, pos + |key| + 2 + |value|, '"')
  {
    hide At;
    AtSplit(input, pos, key + "=\"" + value, "\"");
    AtSplit(input, pos, key + "=\"", value);
    AtSplit(input, pos, key, "=\"");
    AtByte(input, pos + |key|, "=\"", 0);
    AtByte(input, pos + |key|, "=\"", 1);
    AtByte(input, pos + |key| + 2 + |value|, "\"", 0);
  }

  /** `key="value"` in the input, with no whitespace before it, is that attribute. */
  lemma PairAt(input: Str, pos: nat, key: Str, value: Str)
    requires IsAttrKey(key) && IsAttrValue(value)
    requires At(input, pos, key + "=\"" + value + "\"")
    ensures Attribute(input, pos) == Some(Parsed((key, value), pos + |key| + |value| + 3))
  {
    hide Attribute, Space, Span, At;
    PairParts(input, pos, key, value);
    AtEmpty(input, pos);
    AttributeAt(input, pos, [], key, value);
  }

  /** `foo="bar-foo-8"`, written as its key, `="`, its value and `"`. */
  const Complex: Str := "foo" + "=\"" + "bar-foo-8" + "\""

  /** `foo="bar-foo-8"` is one attribute. */
  lemma AttributeComplex()
    ensures Attribute(Complex, 0) == Some(Parsed(("foo", "bar-foo-8"), 15))
  {
    AtWhole(Complex);
    PairAt(Complex, 0, "foo", "bar-foo-8");
  }

  /** A key with a digit in it is no attribute. */
  lemma AttributeKeyWithDigit()
    ensures Attribute("a1=\"x\"", 0).None?
  {
    var input: Str := "a1=\"x\"";
    SpanStops(input, 0, Whitespace);
    SpanStops(input, 1, Alpha);
    assert Span(input, 0, Alpha) == 1;
  }

  /** An empty value is no attribute. */
  lemma AttributeEmptyValue()
    ensures Attribute("a=\"\"", 0).None?
  {
    var input: Str := "a=\"\"";
    SpanStops(input, 0, Whitespace);
    SpanStops(input, 1, Alpha);
    assert Span(input, 0, Alpha) == 1;
    SpanStops(input, 3, ValueByte);
  }

  /** A key with a hyphen in it is no attribute. */
  lemma AttributeKeyWithHyphen()
    ensures Attribute("a-b=\"x\"", 0).None?
  {
    var input: Str := "a-b=\"x\"";
    SpanStops(input, 0, Whitespace);
    SpanStops(input, 1, Alpha);
    assert Span(input, 0, Alpha) == 1;
  }

  /** A value whose closing quote is missing is no attribute. */
  lemma AttributeUnmatchedQuote()
    ensures Attribute("a=\"x", 0).None?
  {
    var input: Str := "a=\"x";
    SpanStops(input, 0, Whitespace);
    SpanStops(input, 1, Alpha);
    assert Span(input, 0, Alpha) == 1;
    assert Span(input, 3, ValueByte) == 4;
  }

  /** `foo="bar" baz="quxx" `: a first pair, a second one after a space, a trailing space. */
  const FooBar: Str := "foo" + "=\"" + "bar" + "\""
  const Several: Str := FooBar + AttrText(("baz", "quxx")) + " "

  lemma SeveralLayout()
    ensures At(Several, 0, FooBar) && At(Several, 9, AttrText(("baz", "quxx"))) && At(Several, 20, " ")
    ensures |Several| == 21
  {
    hide At, AttrText;
    AtWhole(Several);
    AttrTextParts(("baz", "quxx"));
    AtSplit(Several, 0, FooBar + AttrText(("baz", "quxx")), " ");
    AtSplit(Several, 0, FooBar, AttrText(("baz", "quxx")));
  }

  lemma SeveralFirst()
    ensures Attribute(Several, 0) == Some(Parsed(("foo", "bar"), 9))
  {
    hide Attribute, Space, Span, Several;
    SeveralLayout();
    PairAt(Several, 0, "foo", "bar");
  }

  lemma SeveralSecond()
    ensures Attribute(Several, 9) == Some(Parsed(("baz", "quxx"), 20))
  {
    hide Attribute, Space, Span, Several, AttrText;
    SeveralLayout();
    AttrTextParts(("baz", "quxx"));
    AttrTextAt(Several, 9, ("baz", "quxx"));
  }

  lemma SeveralEnd()
    ensures Attribute(Several, 20).None?
  {
    hide Attribute, Space, Span, Several;
    SeveralLayout();
    AttributeFailsAfter(Several, 20, " ");
  }

  /** `foo="bar" baz="quxx" `: both pairs, and the trailing space is left unread. */
  lemma SeveralAttributes()
    ensures Attributes(Several, 0) == Parsed(map["foo" := "bar", "baz" := "quxx"], 20)
  {
    hide Attribute, AttributeList, Space, Span, Several;
    SeveralFirst();
    SeveralSecond();
    SeveralEnd();
    AttributeListEnd(Several, 20);
    AttributeListStep(Several, 9, ("baz", "quxx"), 20);
    AttributeListStep(Several, 0, ("foo", "bar"), 9);
    assert AttributeList(Several, 0).value == [("foo", "bar"), ("baz", "quxx")];
    assert AttrMapOf([("foo", "bar"), ("baz", "quxx")]) == map["foo" := "bar"]["baz" := "quxx"];
  }

  /** `a="1" a="2">`: the same key twice, then the end of a tag. */
  const A1: Str := "a" + "=\"" + "1" + "\""
  const Duplicate: Str := A1 + AttrText(("a", "2")) + ">"

  lemma DuplicateLayout()
    ensures At(Duplicate, 0, A1) && At(Duplicate, 5, AttrText(("a", "2"))) && HasByte(Duplicate, 11, '>')
  {
    hide At, AttrText;
    AtWhole(Duplicate);
    AttrTextParts(("a", "2"));
    AtSplit(Duplicate, 0, A1 + AttrText(("a", "2")), ">");
    AtSplit(Duplicate, 0, A1, AttrText(("a", "2")));
    AtByte(Duplicate, 11, ">", 0);
  }

  lemma DuplicateFirst()
    ensures Attribute(Duplicate, 0) == Some(Parsed(("a", "1"), 5))
  {
    hide Attribute, Space, Span, Duplicate;
    DuplicateLayout();
    PairAt(Duplicate, 0, "a", "1");
  }

  lemma DuplicateSecond()
    ensures Attribute(Duplicate, 5) == Some(Parsed(("a", "2"), 11))
  {
    hide Attribute, Space, Span, Duplicate, AttrText;
    DuplicateLayout();
    AttrTextParts(("a", "2"));
    AttrTextAt(Duplicate, 5, ("a", "2"));
  }

  /** A repeated key keeps the value of its last occurrence. */
  lemma DuplicateKeyLastWins()
    ensures Attributes(Duplicate, 0) == Parsed(map["a" := "2"], 11)
  {
    hide Attribute, AttributeList, Space, Span, Duplicate;
    DuplicateLayout();
    DuplicateFirst();
    DuplicateSecond();
    AttributeFailsAtGt(Duplicate, 11);
    AttributeListEnd(Duplicate, 11);
    AttributeListStep(Duplicate, 5, ("a", "2"), 11);
    AttributeListStep(Duplicate, 0, ("a", "1"), 5);
    assert AttributeList(Duplicate, 0).value == [("a", "1"), ("a", "2")];
    assert AttrMapOf([("a", "1"), ("a", "2")]) == map["a" := "1"]["a" := "2"] == map["a" := "2"];
  }

  // ---------------------------------------------------------------------
  // Names
  // ---------------------------------------------------------------------

  /** `div` and `h3` are names, read in full. */
  lemma ElementNames()
    ensures ElementName("div", 0) == Some(Parsed("div", 3))
    ensures ElementName("h3", 0) == Some(Parsed("h3", 2))
  {
    assert At("div", 0, "div") && At("h3", 0, "h3");
    SpanAt("div", 0, "div", Alphanum);
    SpanAt("h3", 0, "h3", Alphanum);
  }

  // ---------------------------------------------------------------------
  // Tags and elements
  // ---------------------------------------------------------------------

  /** No attributes before a '>': the empty map, nothing consumed. */
  lemma NoAttributes(input: Str, pos: nat)
    requires HasByte(input, pos, '>')
    ensures Attributes(input, pos) == Parsed(map[], pos)
  {
    hide Attribute, AttributeList, Space, Span;
    AttributeFailsAtGt(input, pos);
    AttributeListEnd(input, pos);
  }

  /** `<a></b>`. */
  const Mismatched: Str := "<" + "a" + ">" + "</" + "b" + ">"

  /** The close tag's name is not compared with the open tag's: `<a></b>` is an element a. */
  lemma MismatchedCloseAccepted()
    ensures ParseElement(Mismatched, 0) == Some(Parsed(Node(Element(ElementData("a", map[])), []), 7))
  {
    hide Attributes, AttributeList, Attribute, OpenElement, CloseElement, Children, ElementChild, ParseElement, Space, Span;
    AtWhole(Mismatched);
    AtSplit(Mismatched, 0, "<" + "a" + ">", "</" + "b" + ">");
    PlainOpenTag(Mismatched, 0, "a");
    CloseTagTextAt(Mismatched, 3, "b");
    AtEmpty(Mismatched, 3);
    SpaceAt(Mismatched, 3, []);
    ElementChildFailsAtClose(Mismatched, 3);
    ChildrenStop(Mismatched, 3);
    CloseElementAt(Mismatched, 3, "b");
    ElementFromParts(Mismatched, 0, "a", map[], 3, 3, [], 3, 7);
  }

  /** `<div>`. */
  const Unterminated: Str := "<" + "div" + ">"

  /** An element that is never closed is no element. */
  lemma UnterminatedFails()
    ensures ParseElement(Unterminated, 0).None?
  {
    hide Attributes, AttributeList, Attribute, OpenElement, Space, Span;
    AtWhole(Unterminated);
    PlainOpenTag(Unterminated, 0, "div");
    AtEmpty(Unterminated, 5);
    SpaceAt(Unterminated, 5, []);
    assert ElementChild(Unterminated, 5).None?;
    ChildrenStop(Unterminated, 5);
    assert CloseElement(Unterminated, 5).None?;
  }

  /** Whitespace before the '>' of an open tag is not accepted. */
  lemma SpaceBeforeGtFails()
    ensures OpenElement("<div >", 0).None?
  {
    var input: Str := "<div >";
    SpaceBeforeGt(input);
  }

  /** Nor is an element whose open tag has it. */
  lemma SpaceBeforeGtElementFails()
    ensures ParseElement("<div ></div>", 0).None?
  {
    var input: Str := "<div ></div>";
    SpaceBeforeGt(input);
  }

  lemma SpaceBeforeGt(input: Str)
    requires At(input, 0, "<div >")
    ensures OpenElement(input, 0).None?
  {
    hide Attribute, AttributeList, Span;
    AtSlice(input, 0, "<div >", 1, 4);
    AtByte(input, 0, "<div >", 0);
    AtByte(input, 0, "<div >", 4);
    AtByte(input, 0, "<div >", 5);
    assert "<div >"[1..4] == "div";
    AlphanumAt(input, 1, "div");
    assert At(input, 4, " ");
    AttributeFailsAfter(input, 4, " ");
    AttributeListEnd(input, 4);
    SpanStops(input, 0, Whitespace);
  }

  // ---------------------------------------------------------------------
  // Meta tags
  // ---------------------------------------------------------------------

  /** `<meta charset="UTF-8">`: the prefix `<meta `, one pair and '>'. */
  const CharsetUtf8: Str := "charset" + "=\"" + "UTF-8" + "\""
  const MetaCharset: Str := "<meta " + CharsetUtf8 + ">"

  lemma MetaCharsetLayout(input: Str, pos: nat)
    requires At(input, pos, MetaCharset)
    ensures At(input, pos, "<meta ") && At(input, pos + 6, CharsetUtf8) && HasByte(input, pos + 21, '>')
    ensures input[pos] == '<' && |MetaCharset| == 22
  {
    hide At;
    assert |CharsetUtf8| == 15;
    AtSplit(input, pos, "<meta " + CharsetUtf8, ">");
    AtSplit(input, pos, "<meta ", CharsetUtf8);
    AtByte(input, pos, "<meta ", 0);
    AtByte(input, pos + 21, ">", 0);
  }

  /** `<meta charset="UTF-8">` is a meta node with that one attribute and no children. */
  lemma MetaCharsetParses()
    ensures MetaTag(MetaCharset, 0) == Some(Parsed(Node(Meta(MetaData(map["charset" := "UTF-8"])), []), 22))
  {
    hide Attributes, AttributeList, Attribute, Space, Span, MetaCharset;
    AtWhole(MetaCharset);
    MetaCharsetLayout(MetaCharset, 0);
    MetaCharsetAttribute(MetaCharset, 0);
    MetaFromParts(MetaCharset, 0, map["charset" := "UTF-8"], 21);
  }

  /** The meta tag's attributes, wherever the tag sits in the input. */
  lemma MetaCharsetAttribute(input: Str, pos: nat)
    requires At(input, pos, MetaCharset)
    ensures Attributes(input, pos + 6) == Parsed(map["charset" := "UTF-8"], pos + 21)
  {
    hide AttributeList, Attribute, Space, Span;
    CharsetPair(input, pos);
    MetaCharsetLayout(input, pos);
    AttributeFailsAtGt(input, pos + 21);
    AttributeListEnd(input, pos + 21);
    AttributeListStep(input, pos + 6, ("charset", "UTF-8"), pos + 21);
    assert AttrMapOf([("charset", "UTF-8")]) == map["charset" := "UTF-8"];
  }

  lemma CharsetPair(input: Str, pos: nat)
    requires At(input, pos, MetaCharset)
    ensures Attribute(input, pos + 6) == Some(Parsed(("charset", "UTF-8"), pos + 21))
  {
    hide Attribute, Space, Span, MetaCharset;
    MetaCharsetLayout(input, pos);
    PairAt(input, pos + 6, "charset", "UTF-8");
  }

  /** `<meta>` lacks the space after the name, so it is no meta tag. */
  lemma MetaWithoutSpace()
    ensures MetaTag("<meta>", 0).None?
  {
    var input: Str := "<meta>";
    assert input[5] != "<meta "[5];
  }

  // ---------------------------------------------------------------------
  // Documents
  // ---------------------------------------------------------------------

  /**
   * The document of the `test_simple_doc` unit test, with its line breaks
   * and indentation, built up piece by piece: each constant below extends
   * the one before it.
   */
  const SimpleDocToDoctype: Str := "\n    " + "<!DOCTYPE html>"
  const SimpleDocToHtml: Str := SimpleDocToDoctype + "\n" + "<html>"
  const SimpleDocToHead: Str := SimpleDocToHtml + "\n    " + "<head>"
  const SimpleDocToMeta: Str := SimpleDocToHead + "\n        " + MetaCharset
  const SimpleDocToClose: Str := SimpleDocToMeta + "</head>" + "</html>"
  const SimpleDoc: Str := SimpleDocToClose + "\n    "

  const CharsetMeta: Node := Node(Meta(MetaData(map["charset" := "UTF-8"])), [])
  const Head: Node := Node(Element(ElementData("head", map[])), [CharsetMeta])
  const Html: Node := Node(Element(ElementData("html", map[])), [Head])

  lemma AtWhole(s: Str)
    ensures At(s, 0, s)
  {
  }

  lemma AtEmpty(s: Str, pos: nat)
    requires pos <= |s|
    ensures At(s, pos, [])
  {
  }

  /** Where the pieces of the document sit. */
  lemma SimpleDocLayout()
    ensures At(SimpleDoc, 0, "\n    ") && At(SimpleDoc, 5, "<!DOCTYPE html>") && At(SimpleDoc, 20, "\n")
    ensures At(SimpleDoc, 21, "<html>") && At(SimpleDoc, 27, "\n    ") && At(SimpleDoc, 32, "<head>")
    ensures At(SimpleDoc, 38, "\n        ") && At(SimpleDoc, 47, MetaCharset)
    ensures At(SimpleDoc, 69, "</head>") && At(SimpleDoc, 76, "</html>") && |SimpleDoc| == 88
  {
    hide At;
    var s := SimpleDoc;
    SimpleDocLayoutTail();
    AtSplit(s, 0, SimpleDocToHtml + "\n    ", "<head>");
    AtSplit(s, 0, SimpleDocToHtml, "\n    ");
    AtSplit(s, 0, SimpleDocToDoctype + "\n", "<html>");
    AtSplit(s, 0, SimpleDocToDoctype, "\n");
    AtSplit(s, 0, "\n    ", "<!DOCTYPE html>");
  }

  /** The pieces from the indentation before the meta tag on. */
  lemma SimpleDocLayoutTail()
    ensures At(SimpleDoc, 0, SimpleDocToHead) && |SimpleDocToHead| == 38
    ensures At(SimpleDoc, 38, "\n        ") && At(SimpleDoc, 47, MetaCharset)
    ensures At(SimpleDoc, 69, "</head>") && At(SimpleDoc, 76, "</html>") && |SimpleDoc| == 88
  {
    hide At;
    var s := SimpleDoc;
    AtWhole(s);
    AtSplit(s, 0, SimpleDocToClose, "\n    ");
    AtSplit(s, 0, SimpleDocToMeta + "</head>", "</html>");
    AtSplit(s, 0, SimpleDocToMeta, "</head>");
    AtSplit(s, 0, SimpleDocToHead + "\n        ", MetaCharset);
    AtSplit(s, 0, SimpleDocToHead, "\n        ");
  }

  /** `<tag>` in the input: an open tag without attributes. */
  lemma PlainOpenTag(input: Str, pos: nat, tag: Str)
    requires IsTagName(tag) && At(input, pos, "<" + tag + ">")
    ensures OpenElement(input, pos) == Some(Parsed((tag, map[]), pos + |tag| + 2))
  {
    hide Attributes, AttributeList, Attribute, OpenElement, AlphanumString, Space, Span;
    assert "<" + tag + ">" == "<" + tag + [] + ">";
    OpenTagTextAt(input, pos, tag, []);
    NoAttributes(input, pos + 1 + |tag|);
    OpenTagAt(input, pos, tag, map[], pos + 1 + |tag|);
  }

  /** `</tag>` in the input: a close tag. */
  lemma PlainCloseTag(input: Str, pos: nat, tag: Str)
    requires IsTagName(tag) && At(input, pos, "</" + tag + ">")
    ensures CloseElement(input, pos) == Some(Parsed(tag, pos + |tag| + 3))
  {
    hide CloseElement, AlphanumString, Space, Span;
    CloseTagTextAt(input, pos, tag);
    CloseElementAt(input, pos, tag);
  }

  lemma SimpleDocMeta()
    ensures ElementChild(SimpleDoc, 47) == Some(Parsed(CharsetMeta, 69))
  {
    hide Attributes, AttributeList, Attribute, ParseElement, Space, Span, SimpleDoc;
    SimpleDocLayout();
    MetaCharsetAttribute(SimpleDoc, 47);
    MetaCharsetLayout(SimpleDoc, 47);
    MetaFromParts(SimpleDoc, 47, map["charset" := "UTF-8"], 68);
  }

  lemma SimpleDocHead()
    ensures ParseElement(SimpleDoc, 32) == Some(Parsed(Head, 76))
  {
    hide Attributes, AttributeList, Attribute, OpenElement, CloseElement, Children, ElementChild, ParseElement,
      MetaTag, Space, Span, SimpleDoc;
    SimpleDocLayout();
    assert "<head>" == "<" + "head" + ">" && "</head>" == "</" + "head" + ">";
    PlainOpenTag(SimpleDoc, 32, "head");
    MetaCharsetLayout(SimpleDoc, 47);
    SpaceAt(SimpleDoc, 38, "\n        ");
    SimpleDocMeta();
    AtByte(SimpleDoc, 69, "</head>", 0);
    AtByte(SimpleDoc, 69, "</head>", 1);
    ElementChildFailsAtClose(SimpleDoc, 69);
    ChildrenStop(SimpleDoc, 69);
    ChildrenFromParts(SimpleDoc, 47, CharsetMeta, 69, [], 69);
    assert At(SimpleDoc, 69, []) && [CharsetMeta] + [] == [CharsetMeta];
    SpaceAt(SimpleDoc, 69, []);
    PlainCloseTag(SimpleDoc, 69, "head");
    ElementFromParts(SimpleDoc, 32, "head", map[], 38, 47, [CharsetMeta], 69, 76);
  }

  lemma SimpleDocHtml()
    ensures ParseElement(SimpleDoc, 21) == Some(Parsed(Html, 83))
  {
    hide Attributes, AttributeList, Attribute, OpenElement, CloseElement, Children, ParseElement,
      MetaTag, Space, Span, SimpleDoc;
    SimpleDocLayout();
    assert "<html>" == "<" + "html" + ">" && "</html>" == "</" + "html" + ">";
    assert "<head>" == "<" + "head" + "" + ">";
    PlainOpenTag(SimpleDoc, 21, "html");
    AtByte(SimpleDoc, 32, "<head>", 0);
    SpaceAt(SimpleDoc, 27, "\n    ");
    SimpleDocHead();
    OpenTagTextAt(SimpleDoc, 32, "head", "");
    NotMetaPrefix(SimpleDoc, 32, "head");
    assert ElementChild(SimpleDoc, 32) == Some(Parsed(Head, 76));
    AtByte(SimpleDoc, 76, "</html>", 0);
    AtByte(SimpleDoc, 76, "</html>", 1);
    ElementChildFailsAtClose(SimpleDoc, 76);
    ChildrenStop(SimpleDoc, 76);
    ChildrenFromParts(SimpleDoc, 32, Head, 76, [], 76);
    assert At(SimpleDoc, 76, []) && [Head] + [] == [Head];
    SpaceAt(SimpleDoc, 76, []);
    PlainCloseTag(SimpleDoc, 76, "html");
    ElementFromParts(SimpleDoc, 21, "html", map[], 27, 32, [Head], 76, 83);
  }

  /** `test_simple_doc`: html holding head holding the charset meta tag, with an empty base URL. */
  lemma SimpleDocLoads()
    ensures LoadDocFromBuffer(SimpleDoc) == Some(Document(Html, []))
  {
    hide ParseElement, Doctype, Literal, Space, Span, SimpleDoc;
    SimpleDocLayout();
    assert DoctypeText(true) == "<!DOCTYPE html>";
    AtByte(SimpleDoc, 21, "<html>", 0);
    AtByte(SimpleDoc, 21, "<html>", 1);
    PrologueAt(SimpleDoc, "\n    ", true, "\n");
    SimpleDocHtml();
    DocumentFromParts(SimpleDoc, 21, Html, 83);
  }

  const EmptyP: Node := Node(Element(ElementData("p", map[])), [])

  lemma EmptyPText()
    ensures NodeText(EmptyP) == "<p></p>"
    ensures ValidNode(EmptyP) && Renderable(EmptyP)
  {
    AttrsTextStart(map[]);
  }

  const DoctypeFirst: Str := "<!DOCTYPE html>" + "<p></p>"

  /** A doctype with no whitespace around it. */
  lemma DoctypeFirstLoads()
    ensures LoadDocFromBuffer(DoctypeFirst) == Some(Document(EmptyP, []))
  {
    hide At, NodeText, LoadDocFromBuffer;
    AtWhole(DoctypeFirst);
    AtSplit(DoctypeFirst, 0, "<!DOCTYPE html>", "<p></p>");
    EmptyPText();
    AtEmpty(DoctypeFirst, 0);
    AtEmpty(DoctypeFirst, 15);
    DocumentRoundTrip(DoctypeFirst, [], true, [], EmptyP);
  }

  const NoDoctype: Str := "  " + "<p></p>" + "</p> and more"

  /** No doctype, leading whitespace, and bytes after the root that are never read. */
  lemma NoDoctypeTrailingIgnored()
    ensures LoadDocFromBuffer(NoDoctype) == Some(Document(EmptyP, []))
  {
    hide At, NodeText, LoadDocFromBuffer;
    AtWhole(NoDoctype);
    AtSplit(NoDoctype, 0, "  " + "<p></p>", "</p> and more");
    AtSplit(NoDoctype, 0, "  ", "<p></p>");
    EmptyPText();
    AtEmpty(NoDoctype, 2);
    DocumentRoundTrip(NoDoctype, "  ", false, [], EmptyP);
  }

  /** `<p> </p>`: a blank between the tags. */
  const BlankInside: Str := "<" + "p" + ">" + " " + "</" + "p" + ">"

  /**
   * The whitespace after an open tag is skipped, so `<p> </p>` loads as p
   * with no children even though its markup is not the serialization of p.
   */
  lemma BlankInsideLoads()
    ensures LoadDocFromBuffer(BlankInside) == Some(Document(EmptyP, []))
  {
    hide Attributes, AttributeList, Attribute, OpenElement, CloseElement, Children, ElementChild, ParseElement,
      LoadDocFromBuffer, Space, Span, At;
    AtWhole(BlankInside);
    AtSplit(BlankInside, 0, "<" + "p" + ">" + " ", "</" + "p" + ">");
    AtSplit(BlankInside, 0, "<" + "p" + ">", " ");
    PlainOpenTag(BlankInside, 0, "p");
    CloseTagTextAt(BlankInside, 4, "p");
    SpaceAt(BlankInside, 3, " ");
    ElementChildFailsAtClose(BlankInside, 4);
    ChildrenStop(BlankInside, 4);
    AtEmpty(BlankInside, 4);
    SpaceAt(BlankInside, 4, []);
    PlainCloseTag(BlankInside, 4, "p");
    ElementFromParts(BlankInside, 0, "p", map[], 3, 4, [], 4, 8);
    AtEmpty(BlankInside, 0);
    LoadAfterPrologue(BlankInside, [], false, [], EmptyP, 8);
  }

  const HeadText: Str := "<head>" + " foo " + "</head>"

  /** Where the pieces of `<head> foo </head>` sit. */
  lemma HeadTextLayout()
    ensures At(HeadText, 0, "<" + "head" + ">") && At(HeadText, 6, " ") && At(HeadText, 7, "foo ")
    ensures At(HeadText, 11, "</" + "head" + ">") && At(HeadText, 11, []) && |HeadText| == 18
    ensures HeadText[7] == 'f' && HeadText[11] == '<' && HeadText[12] == '/'
  {
    hide At;
    AtWhole(HeadText);
    AtSplit(HeadText, 0, "<head>" + " foo ", "</head>");
    AtSplit(HeadText, 0, "<head>", " foo ");
    assert "<head>" == "<" + "head" + ">" && "</head>" == "</" + "head" + ">";
    assert " foo "[..1] == " " && " foo "[1..5] == "foo ";
    AtSlice(HeadText, 6, " foo ", 0, 1);
    AtSlice(HeadText, 6, " foo ", 1, 5);
    AtByte(HeadText, 6, " foo ", 1);
    AtByte(HeadText, 11, "</head>", 0);
    AtByte(HeadText, 11, "</head>", 1);
    AtEmpty(HeadText, 11);
  }

  /** `<head> foo </head>`: the space after the open tag is skipped, the rest of the text is kept. */
  lemma TextAfterSpace()
    ensures ParseElement(HeadText, 0) == Some(Parsed(Node(Element(ElementData("head", map[])), [TextNode("foo ")]), 18))
  {
    hide Attributes, AttributeList, Attribute, OpenElement, CloseElement, Children, ParseElement,
      MetaTag, TextContent, Space, Span, At, HeadText;
    HeadTextLayout();
    var text := TextNode("foo ");
    PlainOpenTag(HeadText, 0, "head");
    SpaceAt(HeadText, 6, " ");
    NoMetaWithoutLt(HeadText, 7);
    TextAt(HeadText, 7, "foo ");
    assert ElementChild(HeadText, 7) == Some(Parsed(text, 11));
    ElementChildFailsAtClose(HeadText, 11);
    ChildrenStop(HeadText, 11);
    ChildrenFromParts(HeadText, 7, text, 11, [], 11);
    assert [text] + [] == [text];
    SpaceAt(HeadText, 11, []);
    PlainCloseTag(HeadText, 11, "head");
    ElementFromParts(HeadText, 0, "head", map[], 6, 7, [text], 11, 18);
  }

  /** `load_doc` keeps the tree and replaces the empty base URL with the file name. */
  method LoadDocSetsBaseUrl() returns (r: Option<Document>)
    ensures r == Some(Document(Html, "index.html"))
  {
    hide LoadDocFromBuffer, SimpleDoc, Html;
    SimpleDocLoads();
    r := LoadDoc("index.html", SimpleDoc);
  }

  // ---------------------------------------------------------------------
  // Nesting, read back through the round trip
  // ---------------------------------------------------------------------

  const DivX: Node := Node(Element(ElementData("div", map[])), [TextNode("x")])
  const BodyDiv: Node := Node(Element(ElementData("body", map[])), [DivX])
  const Nested: Node := Node(Element(ElementData("html", map[])), [BodyDiv])

  /** An element without attributes is its tags around its children. */
  lemma PlainElementText(n: Node)
    requires n.nodeType.Element? && n.nodeType.data.attributes == map[]
    ensures NodeText(n) == "<" + n.nodeType.data.tagName + ">" + ChildrenText(n.children)
                           + "</" + n.nodeType.data.tagName + ">"
  {
    PairsOfRebuilds(map[]);
  }

  lemma OneChildText(c: Node)
    ensures ChildrenText([c]) == NodeText(c)
  {
    assert [c][1..] == [];
  }

  /** `<div>x</div>`, `<body>…</body>` around it and `<html>…</html>` around that, tag by tag. */
  const DivMarkup: Str := "<" + "div" + ">" + "x" + "</" + "div" + ">"
  const BodyMarkup: Str := "<" + "body" + ">" + DivMarkup + "</" + "body" + ">"
  const NestedMarkup: Str := "<" + "html" + ">" + BodyMarkup + "</" + "html" + ">"

  lemma DivXText()
    ensures NodeText(DivX) == DivMarkup
  {
    PlainElementText(DivX);
    OneChildText(TextNode("x"));
  }

  lemma BodyDivText()
    ensures NodeText(BodyDiv) == BodyMarkup
  {
    hide DivMarkup;
    PlainElementText(BodyDiv);
    OneChildText(DivX);
    DivXText();
  }

  /** The markup of three nested elements around one text. */
  lemma NestedText()
    ensures NodeText(Nested) == NestedMarkup
  {
    hide BodyMarkup;
    PlainElementText(Nested);
    OneChildText(BodyDiv);
    BodyDivText();
  }

  lemma NestedValid()
    ensures ValidNode(Nested) && Renderable(Nested)
  {
    assert IsText("x");
    assert ValidNode(TextNode("x")) && Renderable(TextNode("x"));
    assert ValidNode(DivX) && Renderable(DivX);
    assert ValidNode(BodyDiv) && Renderable(BodyDiv);
  }

  /** `<html><body><div>x</div></body></html>` reads as a chain of depth three. */
  lemma NestedLoads()
    ensures LoadDocFromBuffer(NestedMarkup) == Some(Document(Nested, []))
  {
    hide NodeText, NestedMarkup;
    NestedText();
    NestedValid();
    var input := NodeText(Nested);
    AtWhole(input);
    AtEmpty(input, 0);
    DocumentRoundTrip(input, [], false, [], Nested);
  }

  // ---------------------------------------------------------------------
  // Accessors and search
  // ---------------------------------------------------------------------

  /** `class="a b"` gives the classes a and b; no class attribute gives none. */
  lemma ClassesExample()
    ensures ElementData("p", map["class" := "a b"]).Classes() == {"a", "b"}
    ensures ElementData("p", map["id" := "x"]).Classes() == {}
    ensures ElementData("p", map["id" := "x"]).Id() == Some("x")
    ensures ElementData("p", map[]).Id() == None
  {
    var pieces: seq<Str> := ["a", "b"];
    assert Join(pieces, ' ') == "a b";
    SplitJoin(pieces, ' ');
  }

  /** Of two div elements, the search finds the first in pre-order. */
  lemma FirstOfTwoDivs()
    ensures var first := Node(Element(ElementData("div", map[])), [TextNode("part 1")]);
            var second := Node(Element(ElementData("div", map[])), [TextNode("part 2")]);
            var body := Node(Element(ElementData("body", map[])), [first, second]);
            && FirstByTagName(body, "div") == Some(first)
            && FirstByTagName(body, "h3") == None
  {
    var first := Node(Element(ElementData("div", map[])), [TextNode("part 1")]);
    var second := Node(Element(ElementData("div", map[])), [TextNode("part 2")]);
    var body := Node(Element(ElementData("body", map[])), [first, second]);
    assert FirstInChildren([first, second], "div") == Some(first);
    assert FirstByTagName(TextNode("part 1"), "h3") == None;
    assert FirstByTagName(TextNode("part 2"), "h3") == None;
    assert FirstByTagName(first, "h3") == None;
    assert FirstByTagName(second, "h3") == None;
    assert FirstInChildren([second], "h3") == None;
  }
}
