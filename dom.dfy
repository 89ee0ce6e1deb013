/**
 * The document tree produced by the parser (src/dom/mod.rs), the
 * `id` / `classes` accessors of an element and the first-match search
 * by tag name.
 *
 * Text is kept as the raw bytes of the input: a byte is a character
 * whose code is below 256, so that markup can be written as literals.
 */
module Dom {
  import opened Wrappers

  type Byte = c: char | c as int < 256
  type Str = seq<Byte>

  /** Attribute names to values; a key occurs once. */
  type AttrMap = map<Str, Str>

  datatype ElementData = ElementData(tagName: Str, attributes: AttrMap)
  {
    /** The "id" attribute, when there is one. */
    function Id(): (r: Option<Str>)
      ensures r.Some? <==> "id" in attributes
      ensures r.Some? ==> r.value == attributes["id"]
    {
      if "id" in attributes then Some(attributes["id"]) else None
    }

    /**
     * The pieces of the "class" attribute split at every single space;
     * no "class" attribute gives the empty set.
     */
    function Classes(): (r: set<Str>)
      ensures "class" !in attributes ==> r == {}
      ensures "class" in attributes ==>
                forall c :: c in r <==> c in Split(attributes["class"], ' ')
    {
      if "class" in attributes then set c | c in Split(attributes["class"], ' ') else {}
    }
  }

  datatype MetaData = MetaData(attributes: AttrMap)

  datatype NodeType =
    | Text(text: Str)
    | Element(data: ElementData)
    | Meta(meta: MetaData)

  datatype Node = Node(nodeType: NodeType, children: seq<Node>)

  datatype Document = Document(rootNode: Node, baseUrl: Str)

  /** A text node; text nodes have no children. */
  function TextNode(data: Str): (n: Node)
    ensures n.nodeType == Text(data) && n.children == []
  {
    Node(Text(data), [])
  }

  // ---------------------------------------------------------------------
  // Splitting at a separator, as Rust's `str::split` with a char pattern
  // ---------------------------------------------------------------------

  /** The pieces of `s` between occurrences of `sep`, empty pieces kept. */
  function Split(s: Str, sep: Byte): (r: seq<Str>)
    ensures |r| >= 1
    ensures forall i :: 0 <= i < |r| ==> sep !in r[i]
    ensures Join(r, sep) == s
    decreases |s|
  {
    if s == [] then [[]]
    else if s[0] == sep then [[]] + Split(s[1..], sep)
    else
      var t := Split(s[1..], sep);
      [[s[0]] + t[0]] + t[1..]
  }

  /** The pieces joined with `sep` between neighbours. */
  function Join(pieces: seq<Str>, sep: Byte): Str
    requires |pieces| >= 1
  {
    if |pieces| == 1 then pieces[0] else pieces[0] + [sep] + Join(pieces[1..], sep)
  }

  /** Splitting a join of separator-free pieces gives the pieces back. */
  lemma {:induction false} SplitJoin(pieces: seq<Str>, sep: Byte)
    requires |pieces| >= 1
    requires forall i :: 0 <= i < |pieces| ==> sep !in pieces[i]
    ensures Split(Join(pieces, sep), sep) == pieces
    decreases |Join(pieces, sep)|, |pieces[0]|
  {
    var p := pieces[0];
    if |pieces| == 1 {
      if p != [] {
        SplitJoin([p[1..]], sep);
        assert Join([p[1..]], sep) == p[1..];
        assert Join(pieces, sep) == p;
      }
    } else {
      var rest := Join(pieces[1..], sep);
      assert Join(pieces, sep) == p + [sep] + rest;
      if p == [] {
        assert Join(pieces, sep) == [sep] + rest;
        assert (p + [sep] + rest)[1..] == rest;
        SplitJoin(pieces[1..], sep);
      } else {
        var shorter := [p[1..]] + pieces[1..];
        assert shorter[1..] == pieces[1..];
        assert Join(shorter, sep) == p[1..] + [sep] + rest;
        assert (p + [sep] + rest)[1..] == p[1..] + [sep] + rest;
        SplitJoin(shorter, sep);
        assert [p[0]] + p[1..] == p;
      }
    }
  }

  // ---------------------------------------------------------------------
  // First element with a given tag name, in pre-order
  // ---------------------------------------------------------------------

  /** Whether `n` is an element whose tag name is `name`. */
  predicate IsElementNamed(n: Node, name: Str) {
    n.nodeType.Element? && n.nodeType.data.tagName == name
  }

  /** The node itself if it matches, otherwise the first match among its children. */
  function FirstByTagName(n: Node, name: Str): Option<Node>
    decreases n
  {
    if IsElementNamed(n, name) then Some(n) else FirstInChildren(n.children, name)
  }

  /** The first match in the first child that has one. */
  function FirstInChildren(cs: seq<Node>, name: Str): Option<Node>
    decreases cs
  {
    if cs == [] then None
    else
      var res := FirstByTagName(cs[0], name);
      if res.Some? then res else FirstInChildren(cs[1..], name)
  }

  /**
   * `getElementsByTagName`: checks the node, then each child in turn,
   * returning as soon as a child's search finds something.
   */
  method GetElementsByTagName(node: Node, name: Str) returns (r: Option<Node>)
    ensures r == FirstByTagName(node, name)
    decreases node
  {
    if IsElementNamed(node, name) {
      return Some(node);
    }
    var i := 0;
    while i < |node.children|
      invariant 0 <= i <= |node.children|
      invariant FirstInChildren(node.children, name) == FirstInChildren(node.children[i..], name)
    {
      var res := GetElementsByTagName(node.children[i], name);
      assert node.children[i..][1..] == node.children[i + 1..];
      if res.Some? {
        return res;
      }
      i := i + 1;
    }
    return None;
  }

  /** All nodes of the subtree of `n`, parents before children, children in order. */
  function PreOrder(n: Node): seq<Node>
    decreases n
  {
    [n] + PreOrderAll(n.children)
  }

  function PreOrderAll(cs: seq<Node>): seq<Node>
    decreases cs
  {
    if cs == [] then [] else PreOrder(cs[0]) + PreOrderAll(cs[1..])
  }

  /** The first node of `s` that is an element named `name`. */
  function FirstMatch(s: seq<Node>, name: Str): (r: Option<Node>)
    ensures r.None? <==> forall k :: 0 <= k < |s| ==> !IsElementNamed(s[k], name)
    ensures r.Some? ==> exists k :: 0 <= k < |s| && s[k] == r.value && IsElementNamed(s[k], name)
                                    && forall j :: 0 <= j < k ==> !IsElementNamed(s[j], name)
  {
    if s == [] then None
    else if IsElementNamed(s[0], name) then Some(s[0])
    else
      var r := FirstMatch(s[1..], name);
      assert forall k :: 1 <= k < |s| ==> s[k] == s[1..][k - 1];
      r
  }

  lemma {:induction false} FirstMatchAppend(a: seq<Node>, b: seq<Node>, name: Str)
    ensures FirstMatch(a + b, name) == if FirstMatch(a, name).Some? then FirstMatch(a, name) else FirstMatch(b, name)
  {
    if a != [] {
      assert (a + b)[1..] == a[1..] + b;
      FirstMatchAppend(a[1..], b, name);
    } else {
      assert a + b == b;
    }
  }

  /** The recursive search returns the first match of the pre-order listing. */
  lemma {:induction false} FirstByTagNameIsPreOrderFirst(n: Node, name: Str)
    ensures FirstByTagName(n, name) == FirstMatch(PreOrder(n), name)
    decreases n
  {
    FirstInChildrenIsPreOrderFirst(n.children, name);
    FirstMatchAppend([n], PreOrderAll(n.children), name);
  }

  lemma {:induction false} FirstInChildrenIsPreOrderFirst(cs: seq<Node>, name: Str)
    ensures FirstInChildren(cs, name) == FirstMatch(PreOrderAll(cs), name)
    decreases cs
  {
    if cs != [] {
      FirstByTagNameIsPreOrderFirst(cs[0], name);
      FirstInChildrenIsPreOrderFirst(cs[1..], name);
      FirstMatchAppend(PreOrder(cs[0]), PreOrderAll(cs[1..]), name);
    }
  }

  /**
   * What `getElementsByTagName` promises: nothing is found exactly when no
   * element of the subtree has that name, and what is found is the first
   * such element in pre-order.
   */
  lemma FirstByTagNameSpec(n: Node, name: Str)
    ensures FirstByTagName(n, name).None? <==>
              forall k :: 0 <= k < |PreOrder(n)| ==> !IsElementNamed(PreOrder(n)[k], name)
    ensures FirstByTagName(n, name).Some? ==>
              exists k :: 0 <= k < |PreOrder(n)| && PreOrder(n)[k] == FirstByTagName(n, name).value
                          && IsElementNamed(PreOrder(n)[k], name)
                          && forall j :: 0 <= j < k ==> !IsElementNamed(PreOrder(n)[j], name)
  {
    FirstByTagNameIsPreOrderFirst(n, name);
  }
}
