/** The table of contents beside the editor: the headings taken from the
    document's JSON after each update, and the label each one shows. */
module Toc {
  import opened Wrappers

  /** The level attribute bag of a node (`attrs`). */
  datatype NodeAttrs = NodeAttrs(level: Option<int>)

  /** A node of the editor's JSON: its type, its child array (absent for
      leaves), its text (text nodes only) and its attributes. */
  datatype JsonNode = JsonNode(kind: string, content: Option<seq<JsonNode>>, text: Option<string>,
                               attrs: Option<NodeAttrs>)

  /** A table-of-contents entry. `text` is absent when the heading's first
      child carries no text. The random id is not modelled. */
  datatype Heading = Heading(text: Option<string>, level: Option<int>)

  /** Why extraction throws: reading `[0].text` of an empty child array,
      or `.level` of missing attributes. */
  datatype TocError = EmptyHeadingContent | MissingAttrs

  predicate IsHeading(n: JsonNode) { n.kind == "heading" }

  /** The entry for one heading node. */
  function HeadingOf(n: JsonNode): (r: Result<Heading, TocError>)
    ensures r.Ok? <==> (n.content.None? || |n.content.value| > 0) && n.attrs.Some?
    ensures n.content.Some? && |n.content.value| == 0 ==> r == Err(EmptyHeadingContent)
    ensures r.Ok? ==> r.value.level == n.attrs.value.level
    ensures r.Ok? && n.content.None? ==> r.value.text == Some("")
    ensures r.Ok? && n.content.Some? ==> r.value.text == n.content.value[0].text
  {
    var text :=
      match n.content
      case None => Ok(Some(""))
      case Some(children) => if |children| == 0 then Err(EmptyHeadingContent) else Ok(children[0].text);
    if text.Err? then Err(text.error)
    else if n.attrs.None? then Err(MissingAttrs)
    else Ok(Heading(text.value, n.attrs.value.level))
  }

  /** The `forEach` over the top-level nodes. */
  function FromNodes(nodes: seq<JsonNode>): (r: Result<seq<Heading>, TocError>)
    ensures r.Ok? ==> |r.value| <= |nodes|
  {
    if |nodes| == 0 then Ok([])
    else
      var rest := FromNodes(nodes[1..]);
      if !IsHeading(nodes[0]) then rest
      else
        match HeadingOf(nodes[0])
        case Err(e) => Err(e)
        case Ok(h) => if rest.Err? then rest else Ok([h] + rest.value)
  }

  /** `handleEditorUpdate`: a document without `content` has no headings. */
  function ExtractHeadings(content: Option<seq<JsonNode>>): (r: Result<seq<Heading>, TocError>)
    ensures content.None? ==> r == Ok([])
  {
    match content
    case None => Ok([])
    case Some(nodes) => FromNodes(nodes)
  }

  /** The label a heading shows: its text, or "Untitled" when that is
      missing or empty. */
  function Label(h: Heading): (r: string)
    ensures r != ""
    ensures h.text.Some? && h.text.value != "" ==> r == h.text.value
    ensures h.text.None? || h.text.value == "" ==> r == "Untitled"
  {
    if h.text.Some? && h.text.value != "" then h.text.value else "Untitled"
  }

  // ---------------------------------------------------------------------------
  // A reference reading
  // ---------------------------------------------------------------------------

  /** The top-level heading nodes, in document order. */
  function HeadingNodes(nodes: seq<JsonNode>): (r: seq<JsonNode>)
    ensures forall n :: n in r <==> n in nodes && IsHeading(n)
  {
    if |nodes| == 0 then []
    else (if IsHeading(nodes[0]) then [nodes[0]] else []) + HeadingNodes(nodes[1..])
  }

  predicate WellFormed(n: JsonNode) {
    HeadingOf(n).Ok?
  }

  /** Extraction succeeds exactly when every top-level heading is well
      formed, and then lists one entry per heading node, in order. */
  lemma {:induction false} ExtractMatchesHeadingNodes(nodes: seq<JsonNode>)
    ensures FromNodes(nodes).Ok? <==> forall n :: n in HeadingNodes(nodes) ==> WellFormed(n)
    ensures FromNodes(nodes).Ok? ==>
              && |FromNodes(nodes).value| == |HeadingNodes(nodes)|
              && forall i :: 0 <= i < |HeadingNodes(nodes)| ==>
                   HeadingOf(HeadingNodes(nodes)[i]).Ok?
                   && FromNodes(nodes).value[i] == HeadingOf(HeadingNodes(nodes)[i]).value
    decreases |nodes|
  {
    if |nodes| > 0 {
      ExtractMatchesHeadingNodes(nodes[1..]);
      var hs := HeadingNodes(nodes);
      var tail := HeadingNodes(nodes[1..]);
      if IsHeading(nodes[0]) {
        assert hs == [nodes[0]] + tail;
        assert forall n :: n in hs <==> n == nodes[0] || n in tail;
      } else {
        assert hs == tail;
      }
    }
  }

  /** Only top-level nodes are read: replacing a non-heading node, with
      whatever nested headings, by another non-heading node changes
      nothing. */
  lemma {:induction false} NestedNodesIgnored(nodes: seq<JsonNode>, i: nat, other: JsonNode)
    requires i < |nodes| && !IsHeading(nodes[i]) && !IsHeading(other)
    ensures FromNodes(nodes[i := other]) == FromNodes(nodes)
    decreases |nodes|
  {
    if i > 0 {
      assert nodes[i := other][1..] == nodes[1..][i - 1 := other];
      NestedNodesIgnored(nodes[1..], i - 1, other);
    } else {
      assert nodes[i := other][1..] == nodes[1..];
    }
  }

  /** An empty heading gets the "Untitled" label; so does one whose first
      child has no text. */
  lemma UntitledHeadings(level: int, child: JsonNode)
    requires child.text.None?
    ensures var h := JsonNode("heading", None, None, Some(NodeAttrs(Some(level))));
            ExtractHeadings(Some([h])) == Ok([Heading(Some(""), Some(level))])
            && Label(Heading(Some(""), Some(level))) == "Untitled"
    ensures var h := JsonNode("heading", Some([child]), None, Some(NodeAttrs(Some(level))));
            Label(HeadingOf(h).value) == "Untitled"
  {
    var h := JsonNode("heading", None, None, Some(NodeAttrs(Some(level))));
    assert [h][1..] == [];
    assert IsHeading(h);
    assert HeadingOf(h) == Ok(Heading(Some(""), Some(level)));
    assert FromNodes([h]) == Ok([Heading(Some(""), Some(level))] + []);
    assert [Heading(Some(""), Some(level))] + [] == [Heading(Some(""), Some(level))];
    assert ExtractHeadings(Some([h])) == FromNodes([h]);
  }
}
