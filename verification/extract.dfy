/**
 * `parseMarkdown`: one page's syntax tree is visited three times, once for
 * link nodes, once for heading nodes and once for paragraph nodes, collecting
 * the page's internal links and heading anchors into insertion-ordered sets.
 */
module Extract {
  import opened Results
  import opened Collections
  import opened Strings
  import opened Mdast

  /** What one page contributes to the index: its anchors and its internal links, each without duplicates. */
  datatype PageInfo = PageInfo(anchors: seq<string>, links: seq<string>) {
    predicate Valid() {
      Distinct(anchors) && Distinct(links)
    }
  }

  /**
   * Reading `children[0].type` of a heading without children throws a
   * `TypeError`; nothing else in the extraction can fail.
   */
  datatype ParseError = HeadingWithoutChildren

  /** A link is internal when its URL is root-absolute. */
  predicate IsInternal(url: string) {
    StartsWith(url, "/")
  }

  /** A link node whose URL is collected. */
  predicate IsInternalLink(n: Node) {
    n.Link? && IsInternal(n.url)
  }

  /** A heading node on which the heading visitor throws. */
  predicate IsEmptyHeading(n: Node) {
    n.Heading? && |n.children| == 0
  }

  /** A heading node that yields an anchor: its first child is a text node. */
  predicate IsAnchored(n: Node) {
    n.Heading? && |n.children| > 0 && n.children[0].Text?
  }

  /** The URLs of the internal link nodes among `nodes`. */
  function InternalUrls(nodes: seq<Node>): set<string> {
    set n | n in nodes && IsInternalLink(n) :: n.url
  }

  /** The anchors that the headings among `nodes` define. */
  function HeadingAnchors(nodes: seq<Node>, kebab: string -> string): set<string> {
    set n | n in nodes && IsAnchored(n) :: kebab(n.children[0].value)
  }

  lemma InternalUrlsCons(nodes: seq<Node>)
    requires |nodes| > 0
    ensures InternalUrls(nodes)
         == (if IsInternalLink(nodes[0]) then {nodes[0].url} else {}) + InternalUrls(nodes[1..])
  {
    assert forall n :: n in nodes <==> n == nodes[0] || n in nodes[1..];
  }

  lemma HeadingAnchorsCons(nodes: seq<Node>, kebab: string -> string)
    requires |nodes| > 0
    ensures HeadingAnchors(nodes, kebab)
         == (if IsAnchored(nodes[0]) then {kebab(nodes[0].children[0].value)} else {})
            + HeadingAnchors(nodes[1..], kebab)
  {
    assert forall n :: n in nodes <==> n == nodes[0] || n in nodes[1..];
  }

  /** The link visitor: adds the URL of every internal link node, in visiting order. */
  function VisitLinks(nodes: seq<Node>, links: seq<string>): (r: seq<string>)
    requires Distinct(links)
    ensures Distinct(r)
    ensures Elements(r) == Elements(links) + InternalUrls(nodes)
    decreases |nodes|
  {
    if |nodes| == 0 then links
    else
      var n := nodes[0];
      InternalUrlsCons(nodes);
      var next := if IsInternalLink(n) then Add(links, n.url) else links;
      VisitLinks(nodes[1..], next)
  }

  /**
   * The heading visitor: adds the kebab-cased text of every heading whose
   * first child is a text node, and fails at the first heading without
   * children.
   */
  function VisitHeadings(nodes: seq<Node>, anchors: seq<string>, kebab: string -> string)
    : (r: Result<seq<string>, ParseError>)
    requires Distinct(anchors)
    ensures r.Success? <==> forall n :: n in nodes ==> !IsEmptyHeading(n)
    ensures r.Success? ==> Distinct(r.value)
    ensures r.Success? ==> Elements(r.value) == Elements(anchors) + HeadingAnchors(nodes, kebab)
    decreases |nodes|
  {
    if |nodes| == 0 then Success(anchors)
    else
      var n := nodes[0];
      HeadingAnchorsCons(nodes, kebab);
      if IsEmptyHeading(n) then Failure(HeadingWithoutChildren)
      else
        var next := if IsAnchored(n) then Add(anchors, kebab(n.children[0].value)) else anchors;
        VisitHeadings(nodes[1..], next, kebab)
  }

  /**
   * `parseMarkdown` on an already parsed tree. The paragraph visitor has an
   * empty body and contributes nothing, so it does not appear here.
   */
  function ParseMarkdown(tree: Node, kebab: string -> string): (r: Result<PageInfo, ParseError>)
    ensures r.Success? <==> forall n :: n in Preorder(tree) ==> !IsEmptyHeading(n)
    ensures r.Success? ==> r.value.Valid()
    ensures r.Success? ==> Elements(r.value.links) == InternalUrls(Preorder(tree))
    ensures r.Success? ==> Elements(r.value.anchors) == HeadingAnchors(Preorder(tree), kebab)
  {
    var nodes := Preorder(tree);
    var links := VisitLinks(nodes, []);
    var anchors :- VisitHeadings(nodes, [], kebab);
    Success(PageInfo(anchors, links))
  }

  /** The nodes any visitor with an effect looks at: links and headings. */
  function Relevant(nodes: seq<Node>): (r: seq<Node>)
    ensures forall n :: n in r <==> n in nodes && (n.Link? || n.Heading?)
    decreases |nodes|
  {
    if |nodes| == 0 then []
    else if nodes[0].Link? || nodes[0].Heading? then [nodes[0]] + Relevant(nodes[1..])
    else Relevant(nodes[1..])
  }

  lemma {:induction false} RelevantConcat(a: seq<Node>, b: seq<Node>)
    ensures Relevant(a + b) == Relevant(a) + Relevant(b)
    decreases |a|
  {
    if |a| > 0 {
      assert (a + b)[0] == a[0] && (a + b)[1..] == a[1..] + b;
      RelevantConcat(a[1..], b);
    } else {
      assert a + b == b;
    }
  }

  lemma {:induction false} VisitLinksRelevant(nodes: seq<Node>, links: seq<string>)
    requires Distinct(links)
    ensures VisitLinks(nodes, links) == VisitLinks(Relevant(nodes), links)
    decreases |nodes|
  {
    if |nodes| > 0 {
      var n := nodes[0];
      var next := if IsInternalLink(n) then Add(links, n.url) else links;
      VisitLinksRelevant(nodes[1..], next);
      if n.Link? || n.Heading? {
        assert Relevant(nodes)[0] == n && Relevant(nodes)[1..] == Relevant(nodes[1..]);
      }
    }
  }

  lemma {:induction false} VisitHeadingsRelevant(nodes: seq<Node>, anchors: seq<string>, kebab: string -> string)
    requires Distinct(anchors)
    ensures VisitHeadings(nodes, anchors, kebab) == VisitHeadings(Relevant(nodes), anchors, kebab)
    decreases |nodes|
  {
    if |nodes| > 0 {
      var n := nodes[0];
      if !IsEmptyHeading(n) {
        var next := if IsAnchored(n) then Add(anchors, kebab(n.children[0].value)) else anchors;
        VisitHeadingsRelevant(nodes[1..], next, kebab);
      }
      if n.Link? || n.Heading? {
        assert Relevant(nodes)[0] == n && Relevant(nodes)[1..] == Relevant(nodes[1..]);
      }
    }
  }

  /**
   * Extraction depends only on the link and heading nodes a page contains,
   * in visiting order: paragraphs and every other node type are transparent.
   */
  lemma ExtractionSeesOnlyLinksAndHeadings(t1: Node, t2: Node, kebab: string -> string)
    requires Relevant(Preorder(t1)) == Relevant(Preorder(t2))
    ensures ParseMarkdown(t1, kebab) == ParseMarkdown(t2, kebab)
  {
    VisitLinksRelevant(Preorder(t1), []);
    VisitLinksRelevant(Preorder(t2), []);
    VisitHeadingsRelevant(Preorder(t1), [], kebab);
    VisitHeadingsRelevant(Preorder(t2), [], kebab);
  }

  /** A root node is not itself relevant: only its descendants are. */
  lemma RelevantUnderRoot(children: seq<Node>)
    ensures Relevant(Preorder(Root(children))) == Relevant(PreorderAll(children))
  {
    RelevantConcat([Root(children)], PreorderAll(children));
  }

  /** The relevant nodes below three runs of siblings are those below each run, in order. */
  lemma RelevantOfSiblings(a: seq<Node>, b: seq<Node>, c: seq<Node>)
    ensures Relevant(PreorderAll(a + b + c))
         == Relevant(PreorderAll(a)) + Relevant(PreorderAll(b)) + Relevant(PreorderAll(c))
  {
    PreorderAllConcat(a + b, c);
    PreorderAllConcat(a, b);
    RelevantConcat(PreorderAll(a) + PreorderAll(b), PreorderAll(c));
    RelevantConcat(PreorderAll(a), PreorderAll(b));
  }

  /** Unwrapping a top-level paragraph into its children changes neither links nor anchors. */
  lemma ParagraphIsTransparent(before: seq<Node>, inner: seq<Node>, after: seq<Node>, kebab: string -> string)
    ensures ParseMarkdown(Root(before + [Paragraph(inner)] + after), kebab)
         == ParseMarkdown(Root(before + inner + after), kebab)
  {
    var p := Paragraph(inner);
    calc {
      Relevant(PreorderAll([p]));
      { assert [p][1..] == [];
        assert PreorderAll([p]) == Preorder(p) + PreorderAll([]);
        assert Preorder(p) + PreorderAll([]) == [p] + PreorderAll(inner); }
      Relevant([p] + PreorderAll(inner));
      { RelevantConcat([p], PreorderAll(inner)); }
      Relevant(PreorderAll(inner));
    }
    RelevantUnderRoot(before + [p] + after);
    RelevantUnderRoot(before + inner + after);
    RelevantOfSiblings(before, [p], after);
    RelevantOfSiblings(before, inner, after);
    ExtractionSeesOnlyLinksAndHeadings(Root(before + [p] + after), Root(before + inner + after), kebab);
  }
}
