# rust-minibrowser: the markup parser and document tree

This project models the document module of rust-minibrowser
(`src/dom/mod.rs`) and proves properties of the model. That module holds a
small grammar for a subset of HTML, built from combinators, and the tree it
produces. The model covers:

- the grammar rules: `space`, `alphanum_string`/`element_name`,
  `attribute`, `attributes`, `open_element`, `close_element`,
  `text_content`, `meta_tag`, `element_child`, `element`, `doctype` and
  `document`;
- the entry points `load_doc_from_buffer` and `load_doc`;
- the tree types `Document`, `Node`, `NodeType`, `ElementData`, `MetaData`
  and `AttrMap`;
- the queries `getElementsByTagName`, `ElementData::id` and
  `ElementData::classes`.

Files:

- `wrappers.dfy` is `Option`.
- `dom.dfy` (module `Dom`) holds the tree types and the queries.
  - Text is raw bytes. A `Byte` is a character whose code is below 256.
  - `AttrMap` is a Dafny `map`. `classes` returns a `set`.
  - `text` is `TextNode`.
  - `getElementsByTagName` is a method with the source's loop and early
    return. It is proved equal to a recursive function, `FirstByTagName`.
  - `FirstByTagName` is then proved to be the first match of a pre-order
    listing of the subtree.
- `grammar.dfy` (module `Grammar`) has one function per grammar rule.
  - A rule takes the input and a position, and gives `None` or the value
    with the position after it.
  - Ordered choice falls back to the next alternative at the same position.
  - Repetitions are greedy. They stop at the first attempt that fails, and
    that attempt consumes nothing.
  - No rule demands the end of the input.
  - The insert loop of `attributes` is the method `BuildAttrMap`. It is
    proved equal to `AttrMapOf`, a fold of the pairs in order.
  - `load_doc` is the method `LoadDoc`. It takes the file's bytes as a
    parameter.
  - Lemmas state what each rule consumes.
  - Others state that the repetitions are greedy and that every parsed tree
    is valid (`ValidNode`).
- `render.dfy` (module `Render`) is the partner of the grammar.
  - It has a reference serializer, `NodeText`.
  - The round-trip theorems say that the grammar reads the serialization of
    a valid tree back as the same tree. They hold whatever bytes follow the
    root, and for any prologue of whitespace and an optional doctype.
  - `Renderable` limits the theorems to trees without a child element named
    `meta` that has attributes. Such a child's open tag starts with
    `<meta `, so the grammar reads it as a meta tag.
- `examples.dfy` (module `Examples`) works concrete inputs from the
  module's unit tests and from the grammar's edge cases.

## Model

| member | source | states |
|---|---|---|
| Dom.ElementData.Id | src/dom/mod.rs:65-67 | the result is present exactly when there is an "id" attribute, and is then its value |
| Dom.ElementData.Classes | src/dom/mod.rs:68-73 | no "class" attribute gives the empty set; otherwise a string is a class exactly when it is one of the pieces of the "class" value split at single spaces |
| Dom.TextNode | src/dom/mod.rs:78-80 | a text node holding the given bytes, with no children |
| Dom.Split | src/dom/mod.rs:70 | splitting at a separator gives at least one piece; no piece holds the separator; joining the pieces with it gives the string back |
| Dom.SplitJoin | src/dom/mod.rs:70 | splitting a join of separator-free pieces gives those pieces back, empty pieces included |
| Dom.GetElementsByTagName | src/dom/mod.rs:22-38 | the loop with early return computes the recursive search: the node itself if it is an element with that name, else the first child's result that is present |
| Dom.FirstMatch | src/dom/mod.rs:22-38 | the first element with the name in a listing: none exactly when no entry matches, else a matching entry with no match before it |
| Dom.FirstMatchAppend | src/dom/mod.rs:32-35 | the first match in a concatenation is the first match of the first part if it has one, else that of the second part |
| Dom.FirstByTagNameIsPreOrderFirst | src/dom/mod.rs:22-38 | the recursive search returns the first match of the pre-order listing of the subtree |
| Dom.FirstInChildrenIsPreOrderFirst | src/dom/mod.rs:32-35 | searching the children in order returns the first match of their concatenated pre-order listings |
| Dom.FirstByTagNameSpec | src/dom/mod.rs:22-38 | nothing is found exactly when no element of the subtree has the name; what is found is an element with the name, and no earlier node in pre-order has it |
| Grammar.Span | src/dom/mod.rs:84 | the longest run of one byte class: everything up to the end is in the class, and the byte at the end is not |
| Grammar.Space | src/dom/mod.rs:83-85 | `space` never fails; it consumes only whitespace and stops at the end or at a byte that is not whitespace |
| Grammar.Literal | src/dom/mod.rs:278 | an exact byte string matches exactly when the input holds it at the position, which then moves past it |
| Grammar.AlphanumString | src/dom/mod.rs:90-97 | fails exactly when the first byte is not an ASCII letter or digit; otherwise yields the whole run of such bytes, which is a non-empty tag name |
| Grammar.Attribute | src/dom/mod.rs:114-126 | an attribute consumes at least one byte and yields a key of ASCII letters and a non-empty value free of backslash and double quote |
| Grammar.AttributeConsumes | src/dom/mod.rs:114-126 | after the leading whitespace, an attribute is exactly `key="value"` |
| Grammar.AttributeList | src/dom/mod.rs:140 | the repetition never fails, stays within the input and yields only well-formed pairs |
| Grammar.AttributeListStops | src/dom/mod.rs:140 | the repetition is greedy: no attribute parses where it stops |
| Grammar.AttrMapOfKeys | src/dom/mod.rs:142-146 | the keys of the folded map are exactly the keys of the pairs |
| Grammar.AttrMapOfLastWins | src/dom/mod.rs:142-146 | a key maps to the value of its last pair: a later duplicate overwrites an earlier one |
| Grammar.AttrMapOfEntries | src/dom/mod.rs:142-146 | every entry of the folded map is one of the pairs |
| Grammar.BuildAttrMap | src/dom/mod.rs:142-146 | the insert loop into an empty map builds the in-order fold of the pairs |
| Grammar.Attributes | src/dom/mod.rs:139-148 | `attributes` never fails, stays within the input, and yields a map whose keys and values have the attribute shapes |
| Grammar.OpenElement | src/dom/mod.rs:157-167 | an open tag consumes at least one byte and yields a tag name and well-formed attributes |
| Grammar.OpenElementConsumes | src/dom/mod.rs:157-167 | after the whitespace, an open tag is '<' and the name, then the attributes, then the final '>' |
| Grammar.CloseElement | src/dom/mod.rs:168-176 | a close tag consumes at least one byte and yields a tag name |
| Grammar.CloseElementConsumes | src/dom/mod.rs:168-176 | after the whitespace, a close tag is exactly `</name>` |
| Grammar.TextContent | src/dom/mod.rs:177-182 | fails exactly at the end of the input or at '<'; otherwise yields a childless text node with the whole run of bytes other than '<', verbatim |
| Grammar.MetaTag | src/dom/mod.rs:296-304 | a meta tag consumes more than `<meta ` and yields a childless meta node with well-formed attributes |
| Grammar.MetaTagConsumes | src/dom/mod.rs:296-304 | a meta tag starts with exactly `<meta `, takes its attributes from what follows, and ends with '>' |
| Grammar.ElementChild | src/dom/mod.rs:183-185 | a child consumes at least one byte |
| Grammar.Children | src/dom/mod.rs:191 | the child repetition never fails and stays within the input |
| Grammar.ParseElement | src/dom/mod.rs:186-204 | an element consumes at least one byte |
| Grammar.ChildrenStops | src/dom/mod.rs:191 | the child repetition is greedy: no child parses where it stops |
| Grammar.ParseElementParts | src/dom/mod.rs:186-204 | the element takes its name and attributes from the open tag and its children in parse order, and ends with a close tag whose name is not compared |
| Grammar.ElementChildValid | src/dom/mod.rs:183-185 | every child is valid; a text child is the input bytes it spans and ends at '<' or at the end |
| Grammar.ChildrenValid | src/dom/mod.rs:186-193 | the children are valid, no two text children are neighbours, and a first text child starts at the position the repetition starts at |
| Grammar.ParseElementValid | src/dom/mod.rs:186-204 | every element the grammar reads is valid; because whitespace is skipped before the children, no first text child starts with whitespace |
| Grammar.Doctype | src/dom/mod.rs:277-279 | the doctype matches exactly when the input holds `<!DOCTYPE html>` at the position |
| Grammar.Prologue | src/dom/mod.rs:281 | the optional whitespace, optional doctype and whitespace never fail, and stop at a byte that is not whitespace |
| Grammar.ParseDocument | src/dom/mod.rs:280-285 | a document has an empty base URL and its root ends after the prologue |
| Grammar.DocumentValid | src/dom/mod.rs:280-285 | the root of a document is a valid element, the one that parses after the prologue |
| Grammar.LoadDocFromBuffer | src/dom/mod.rs:454-456 | a buffer loads exactly when an element parses after the prologue; the base URL is then empty |
| Grammar.LoadDoc | src/dom/mod.rs:446-453 | the file's bytes load exactly when the buffer does; the root is the same and the base URL is the file name |
| Render.PairsOfRebuilds | src/dom/mod.rs:142-146 | inserting a map's listed entries in order rebuilds the map |
| Render.SpanAt | src/dom/mod.rs:84 | a run of class bytes followed by a byte outside the class is exactly what the run consumes |
| Render.SpaceAt | src/dom/mod.rs:83-85 | whitespace followed by a non-space byte is exactly what `space` consumes |
| Render.AttributeAt | src/dom/mod.rs:114-126 | whitespace, a key, `="`, a value and `"` in the input parse as that attribute |
| Render.AttrTextAt | src/dom/mod.rs:114-126 | the serialized attribute ` key="value"`, with a key of ASCII letters and a non-empty value without `\` or `"`, parses back as that pair |
| Render.AttributeFailsAfter | src/dom/mod.rs:117-118 | after whitespace, the end of the input or a byte that is neither whitespace nor a letter gives no attribute |
| Render.AttributeFailsAtGt | src/dom/mod.rs:114-126 | no attribute starts at '>' |
| Render.AttributeSkipsSpace | src/dom/mod.rs:117 | leading whitespace does not change what an attribute parses to |
| Render.AttributeListAt | src/dom/mod.rs:140 | serialized well-formed pairs followed by '>' parse back as the same pairs |
| Render.AttributesAt | src/dom/mod.rs:139-148 | the serialized well-formed map followed by '>' parses back as the same map |
| Render.OpenElementAt | src/dom/mod.rs:157-167 | `<tag attrs>`, with an alphanumeric tag name and a well-formed map, parses back as that open tag |
| Render.CloseElementAt | src/dom/mod.rs:168-176 | `</tag>`, with an alphanumeric tag name, parses back as that close tag |
| Render.MetaTagAt | src/dom/mod.rs:296-304 | the serialization of a valid meta node parses back as that node |
| Render.NotMetaPrefix | src/dom/mod.rs:297 | an open tag that is not `<meta ` fails the meta alternative |
| Render.NoMetaWithoutLt | src/dom/mod.rs:297 | no meta tag starts at a byte other than '<' |
| Render.TextAt | src/dom/mod.rs:177-182 | a text followed by '<' parses back as that text node |
| Render.ElementChildFailsAtClose | src/dom/mod.rs:183-185 | no child starts at `</`, so the child repetition stops at a close tag |
| Render.ElementFromParts | src/dom/mod.rs:186-204 | an open tag, whitespace, children and a close tag make the element, whatever the close tag's name |
| Render.ElementRoundTrip | src/dom/mod.rs:186-204 | the serialization of a valid, renderable element parses back as that element, ending right after it |
| Render.ChildrenRoundTrip | src/dom/mod.rs:191 | valid, renderable children, none of them an element named meta with attributes, serialized and followed by `</`, parse back as the same children |
| Render.ChildRoundTrip | src/dom/mod.rs:183-185 | the serialization of a valid, renderable child that is not an element named meta with attributes, with '<' after it when it is text, parses back as that child through the ordered choice |
| Render.DocumentRoundTrip | src/dom/mod.rs:280-285 | whitespace, an optional doctype, whitespace and the serialization of a valid, renderable root load as a document with that root and an empty base URL, whatever follows |
| Render.LoadAfterPrologue | src/dom/mod.rs:454-456 | whitespace, an optional doctype and whitespace, then any element that parses there, whatever its markup and whatever follows it: the buffer loads with that element as root and an empty base URL |
| Render.SpaceThrough | src/dom/mod.rs:83-85 | skipping whitespace from inside a run of it ends where skipping from the run's end does |
| Render.ParseElementAfterSpace | src/dom/mod.rs:157-160 | an element begins by skipping whitespace, so reading it after skipping whitespace gives the same element |
| Render.PrologueWithDoctype | src/dom/mod.rs:280-281 | with a doctype between whitespace runs, the prologue ends where the whitespace after the doctype ends |
| Render.PrologueWithoutDoctype | src/dom/mod.rs:277-281 | without a doctype, and with an element after the whitespace, the prologue is that whitespace: a doctype cannot start where an element does |
| Examples.AttributeComplex | src/dom/mod.rs:133-137 | `foo="bar-foo-8"` yields the pair (foo, bar-foo-8) |
| Examples.AttributeKeyWithDigit | src/dom/mod.rs:118 | a key with a digit is no attribute |
| Examples.AttributeKeyWithHyphen | src/dom/mod.rs:118 | a key with a hyphen is no attribute |
| Examples.AttributeEmptyValue | src/dom/mod.rs:115 | an empty value is no attribute |
| Examples.AttributeUnmatchedQuote | src/dom/mod.rs:115-122 | a value without its closing quote is no attribute |
| Examples.SeveralAttributes | src/dom/mod.rs:150-154 | `foo="bar" baz="quxx" ` yields both pairs in one map and stops before the trailing space |
| Examples.DuplicateKeyLastWins | src/dom/mod.rs:142-146 | `a="1" a="2"` yields the map with a mapped to 2 |
| Examples.ElementNames | src/dom/mod.rs:98-112 | `div` and `h3` are names, read in full |
| Examples.NoAttributes | src/dom/mod.rs:139-148 | where '>' follows directly there are no attributes, and nothing is consumed |
| Examples.MismatchedCloseAccepted | src/dom/mod.rs:168-176 | `<a></b>` is accepted as an element named a |
| Examples.UnterminatedFails | src/dom/mod.rs:186-193 | `<div>` with no close tag is no element |
| Examples.SpaceBeforeGtFails | src/dom/mod.rs:157-163 | `<div >` is no open tag: the failed attribute gives back its whitespace and '>' is not next |
| Examples.SpaceBeforeGtElementFails | src/dom/mod.rs:186-193 | so `<div ></div>` is no element |
| Examples.MetaCharsetParses | src/dom/mod.rs:306-319 | `<meta charset="UTF-8">` is a childless meta node with charset mapped to UTF-8 |
| Examples.MetaWithoutSpace | src/dom/mod.rs:297 | `<meta>` is no meta tag: the space after the name is required |
| Examples.SimpleDocLoads | src/dom/mod.rs:365-399 | the input of the simple-document test loads as html holding head holding the charset meta node, with an empty base URL |
| Examples.TextAfterSpace | src/dom/mod.rs:218-222 | in `<head> foo </head>` the space after the open tag is skipped and the text child keeps its trailing space |
| Examples.DoctypeFirstLoads | src/dom/mod.rs:280-285 | a doctype directly followed by an element loads |
| Examples.BlankInsideLoads | src/dom/mod.rs:186-193 | `<p> </p>` loads as p with no children: the blank after the open tag is skipped |
| Examples.NoDoctypeTrailingIgnored | src/dom/mod.rs:280-285 | leading whitespace and no doctype load, and what follows the root is ignored |
| Examples.NestedLoads | src/dom/mod.rs:186-204 | `<html><body><div>x</div></body></html>` loads as a chain of three elements around the text x |
| Examples.LoadDocSetsBaseUrl | src/dom/mod.rs:446-453 | loading the simple document from a file named index.html gives its tree with base URL index.html |
| Examples.ClassesExample | src/dom/mod.rs:64-74 | class "a b" gives the classes a and b; no class attribute gives none; id is read when present and absent otherwise |
| Examples.FirstOfTwoDivs | src/dom/mod.rs:22-38 | of two div elements the search finds the first, and a name that does not occur finds nothing |

## Left out

- Grammar.Attribute: does not decode the value as UTF-8. The source's `convert(String::from_utf8)` (src/dom/mod.rs:115) makes the attribute rule fail, and backtrack, on a value that is not valid UTF-8. So for `<meta charset="\xff">` the source finds no meta tag, and the open-element alternative fails too, while the model parses it.
- Decoding text runs as UTF-8 (`v2s` at src/dom/mod.rs:86-88, a panic on invalid input) is left out. Names, values and text stay the input's raw bytes. On input that is valid UTF-8 the model and the source agree: every value and text run the grammar captures ends before an ASCII byte, so it is valid UTF-8 itself.
- The `space()` after an open tag (src/dom/mod.rs:189) skips leading whitespace. So `<t> s</t>` gives the single child `Text("s")`, and `<t></t>` and `<t> </t>` give no child. `Grammar.ValidNode`'s condition on the first child, `Examples.TextAfterSpace` and `Examples.BlankInsideLoads` state this.
- Grammar.LoadDoc: does not open or read the file. The file's contents are a parameter, and a failed parse is `None` where the source panics in `unwrap`. The same holds for `load_doc_from_buffer`.
- `comment` is left out. Its only use outside the tests, in `element` (src/dom/mod.rs:190), is commented out; apart from parsing a comment it only prints.
- `test_style_parse` and `test_file_load` are left out. They need the stylesheet module and a file on disk, which are not part of this model.
- The application entry point, the colour table and the crate's module declarations are not part of this model.
- The combinator library is not modelled itself. Each rule is written out directly, with its backtracking and greedy repetition.
- Grammar.Attribute: a value is one or more bytes (`repeat(1..)` at src/dom/mod.rs:115), so `a=""` is no attribute.
- Render.ElementRoundTrip: holds only for `Renderable` trees, and so do Render.DocumentRoundTrip, Render.ChildrenRoundTrip and Render.ChildRoundTrip. A child element named `meta` with attributes serializes to a tag that the meta alternative claims first. Render.ChildRoundTrip also needs a '<' after a text child, since the text rule reads every byte up to the next '<'.
- Grammar.LoadDocFromBuffer: has no bound on nesting depth. In the source, `element` and `element_child` (src/dom/mod.rs:183-191) recurse on the native stack, so very deeply nested input ends the process with a stack overflow; the model, and Render.LoadAfterPrologue with it, accepts any depth.
- Render.PairsOf: lists a map's entries in an unspecified order. The order of a hash map cannot change the map that insertion builds.
- `HashSet` in `classes` is a Dafny `set`, and `HashMap` is a Dafny `map`.
- Grammar.ElementName: the same rule as `AlphanumString`. It carries no contract of its own and `Examples.ElementNames` exercises it.
