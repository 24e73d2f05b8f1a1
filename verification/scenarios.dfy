/**
 * A small corpus run end to end through the link checker, for any
 * kebab-case function: a link to a missing anchor, a link to a missing page
 * and a same-page link.
 */
module Scenarios {
  import opened Results
  import opened Collections
  import opened Strings
  import opened Mdast
  import opened Extract
  import opened PageIndex
  import opened LinkCheck

  /** A link to the page `/b` and an anchor `/b` does not define. */
  const LinkToB: string := "/b#gone"

  /** A link to the page `/c`, which does not exist. */
  const LinkToC: string := "/c"

  /** A same-page link. */
  const LinkToTop: string := "#top"

  const ParaA: Node := Paragraph([Link(LinkToB, []), Link(LinkToC, []), Link(LinkToTop, [])])

  /** Page `/a`: one paragraph with the three links. */
  const TreeA: Node := Root([ParaA])

  const HeadingB: Node := Heading(1, [Text("Intro")])

  /** Page `/b`: one heading and no links. */
  const TreeB: Node := Root([HeadingB])

  const Corpus: seq<File> := [File("./pages/a.mdx", TreeA), File("./pages/b.mdx", TreeB)]

  /** The links' shapes: which are internal, and where the fragment starts. */
  lemma LinkShapes()
    ensures IsInternal(LinkToB) && IsInternal(LinkToC) && !IsInternal(LinkToTop)
    ensures LinkToB == "/b" + ['#'] + "gone"
    ensures '#' !in LinkToC
    ensures LinkToB != LinkToC
  {
    assert LinkToB[..1] == "/" && LinkToC[..1] == "/";
    assert LinkToTop[..1][0] == '#';
  }

  /** The two files are the pages `/a` and `/b`. */
  lemma CorpusPaths()
    ensures Corpus[0].path == ContentDir + "/a" + PageExtension
    ensures Corpus[1].path == ContentDir + "/b" + PageExtension
  {
  }

  /** One step of the link visitor. */
  lemma VisitLinksStep(n: Node, rest: seq<Node>, links: seq<string>)
    requires Distinct(links)
    ensures VisitLinks([n] + rest, links)
         == VisitLinks(rest, if IsInternalLink(n) then Add(links, n.url) else links)
  {
    assert ([n] + rest)[0] == n && ([n] + rest)[1..] == rest;
  }

  /** One step of the heading visitor, on a node that is not a heading. */
  lemma VisitHeadingsSkip(n: Node, rest: seq<Node>, anchors: seq<string>, kebab: string -> string)
    requires Distinct(anchors) && !n.Heading?
    ensures VisitHeadings([n] + rest, anchors, kebab) == VisitHeadings(rest, anchors, kebab)
  {
    assert ([n] + rest)[0] == n && ([n] + rest)[1..] == rest;
  }

  const L1: Node := Link(LinkToB, [])
  const L2: Node := Link(LinkToC, [])
  const L3: Node := Link(LinkToTop, [])

  lemma PreorderA()
    ensures Preorder(TreeA) == [TreeA] + ([ParaA] + ([L1] + ([L2] + [L3])))
  {
    PreorderAllSingle(ParaA);
    assert Preorder(L1) == [L1] && Preorder(L2) == [L2] && Preorder(L3) == [L3];
    assert PreorderAll([L3]) == [L3] by { PreorderAllSingle(L3); }
    assert PreorderAll([L2, L3]) == [L2, L3] by { assert [L2, L3][1..] == [L3]; }
    assert PreorderAll([L1, L2, L3]) == [L1, L2, L3] by { assert [L1, L2, L3][1..] == [L2, L3]; }
  }

  lemma LinksOfA()
    ensures VisitLinks([TreeA] + ([ParaA] + ([L1] + ([L2] + [L3]))), []) == [LinkToB, LinkToC]
  {
    LinkShapes();
    var both := [LinkToB, LinkToC];
    calc {
      VisitLinks([TreeA] + ([ParaA] + ([L1] + ([L2] + [L3]))), []);
      { VisitLinksStep(TreeA, [ParaA] + ([L1] + ([L2] + [L3])), []); }
      VisitLinks([ParaA] + ([L1] + ([L2] + [L3])), []);
      { VisitLinksStep(ParaA, [L1] + ([L2] + [L3]), []); }
      VisitLinks([L1] + ([L2] + [L3]), []);
      { VisitLinksStep(L1, [L2] + [L3], []);
        assert Add([], LinkToB) == [LinkToB]; }
      VisitLinks([L2] + [L3], [LinkToB]);
      { VisitLinksStep(L2, [L3], [LinkToB]);
        assert Add([LinkToB], LinkToC) == both; }
      VisitLinks([L3], both);
      { VisitLinksStep(L3, [], both);
        assert [L3] == [L3] + []; }
      VisitLinks([], both);
    }
  }

  lemma HeadingsOfA(kebab: string -> string)
    ensures VisitHeadings([TreeA] + ([ParaA] + ([L1] + ([L2] + [L3]))), [], kebab) == Success([])
  {
    VisitHeadingsSkip(L3, [], [], kebab);
    VisitHeadingsSkip(L2, [L3], [], kebab);
    VisitHeadingsSkip(L1, [L2] + [L3], [], kebab);
    VisitHeadingsSkip(ParaA, [L1] + ([L2] + [L3]), [], kebab);
    VisitHeadingsSkip(TreeA, [ParaA] + ([L1] + ([L2] + [L3])), [], kebab);
  }

  /** The same-page link is not collected; the other two are, in order. */
  lemma ParseA(kebab: string -> string)
    ensures ParseMarkdown(TreeA, kebab) == Success(PageInfo([], [LinkToB, LinkToC]))
  {
    PreorderA();
    LinksOfA();
    HeadingsOfA(kebab);
  }

  /** The heading yields one anchor; there are no links. */
  lemma ParseB(kebab: string -> string)
    ensures ParseMarkdown(TreeB, kebab) == Success(PageInfo([kebab("Intro")], []))
  {
    var t := Text("Intro");
    PreorderAllSingle(t);
    PreorderAllSingle(HeadingB);
    assert Preorder(TreeB) == [TreeB] + ([HeadingB] + ([t] + []));
    VisitLinksStep(t, [], []);
    VisitLinksStep(HeadingB, [t], []);
    VisitLinksStep(TreeB, [HeadingB] + [t], []);
    var anchors := [kebab("Intro")];
    VisitHeadingsSkip(t, [], anchors, kebab);
    assert VisitHeadings([HeadingB] + [t], [], kebab) == VisitHeadings([t], anchors, kebab) by {
      assert ([HeadingB] + [t])[1..] == [t];
    }
    VisitHeadingsSkip(TreeB, [HeadingB] + [t], [], kebab);
  }

  /** The page identities involved are pairwise different. */
  lemma IdentitiesDiffer()
    ensures "/a" != "/b" && "/c" != "/a" && "/c" != "/b"
  {
    assert "/a"[1] == 'a' && "/b"[1] == 'b' && "/c"[1] == 'c';
  }

  /** One step of the loading loop, over a page file that extracts. */
  lemma LoadStep(files: seq<File>, pm: PageMap, f: File, info: PageInfo, kebab: string -> string)
    requires Load(files, kebab) == Success(pm)
    requires IsPageFile(f.path) && ParseMarkdown(f.tree, kebab) == Success(info)
    ensures pm.Valid() && info.Valid()
    ensures Load(files + [f], kebab) == Success(SetEntry(pm, Identity(f.path), info))
  {
    assert (files + [f])[..|files|] == files && (files + [f])[|files|] == f;
  }

  /** One page's worth of check generation. */
  lemma ChecksForStep(pm: PageMap, page: string, rest: seq<string>)
    requires page in pm.entries && forall p :: p in rest ==> p in pm.entries
    ensures ChecksFor(pm, [page] + rest) == PageChecks(pm, page) + ChecksFor(pm, rest)
  {
    assert ([page] + rest)[0] == page && ([page] + rest)[1..] == rest;
  }

  /** The index the corpus builds: `/a` first, then `/b`. */
  function CorpusIndex(kebab: string -> string): PageMap {
    PageMap(["/a", "/b"], map["/a" := PageInfo([], [LinkToB, LinkToC]), "/b" := PageInfo([kebab("Intro")], [])])
  }

  lemma LoadNothing(kebab: string -> string)
    ensures Load([], kebab) == Success(EmptyPageMap)
  {
  }

  lemma SetNewEntry(pm: PageMap, k: string, v: PageInfo)
    requires pm.Valid() && v.Valid() && k !in pm.entries
    ensures SetEntry(pm, k, v) == PageMap(pm.order + [k], pm.entries[k := v])
  {
  }

  /** A single page file is indexed under its identity. */
  lemma LoadOnePage(fa: File, infoA: PageInfo, kebab: string -> string)
    requires IsPageFile(fa.path) && ParseMarkdown(fa.tree, kebab) == Success(infoA)
    ensures Load([fa], kebab) == Success(PageMap([Identity(fa.path)], map[Identity(fa.path) := infoA]))
  {
    var ida := Identity(fa.path);
    calc {
      Load([fa], kebab);
      { assert [fa] == [] + [fa]; }
      Load([] + [fa], kebab);
      { LoadNothing(kebab);
        LoadStep([], EmptyPageMap, fa, infoA, kebab); }
      Success(SetEntry(EmptyPageMap, ida, infoA));
      { SetNewEntry(EmptyPageMap, ida, infoA);
        assert [] + [ida] == [ida];
        assert map[][ida := infoA] == map[ida := infoA]; }
      Success(PageMap([ida], map[ida := infoA]));
    }
  }

  /** Two page files with different identities are indexed in enumeration order. */
  lemma LoadTwoPages(fa: File, fb: File, infoA: PageInfo, infoB: PageInfo, kebab: string -> string)
    requires IsPageFile(fa.path) && IsPageFile(fb.path) && Identity(fa.path) != Identity(fb.path)
    requires ParseMarkdown(fa.tree, kebab) == Success(infoA)
    requires ParseMarkdown(fb.tree, kebab) == Success(infoB)
    ensures Load([fa, fb], kebab)
         == Success(PageMap([Identity(fa.path), Identity(fb.path)],
                            map[Identity(fa.path) := infoA, Identity(fb.path) := infoB]))
  {
    var ida, idb := Identity(fa.path), Identity(fb.path);
    var pmA := PageMap([ida], map[ida := infoA]);
    calc {
      Load([fa, fb], kebab);
      { assert [fa, fb] == [fa] + [fb]; }
      Load([fa] + [fb], kebab);
      { LoadOnePage(fa, infoA, kebab);
        LoadStep([fa], pmA, fb, infoB, kebab); }
      Success(SetEntry(pmA, idb, infoB));
      { SetNewEntry(pmA, idb, infoB);
        assert [ida] + [idb] == [ida, idb];
        assert map[ida := infoA][idb := infoB] == map[ida := infoA, idb := infoB]; }
      Success(PageMap([ida, idb], map[ida := infoA, idb := infoB]));
    }
  }

  lemma LoadCorpus(kebab: string -> string)
    ensures Load(Corpus, kebab) == Success(CorpusIndex(kebab))
  {
    ParseA(kebab);
    ParseB(kebab);
    CorpusPaths();
    IdentityOfContentFile("/a");
    IdentityOfContentFile("/b");
    IdentitiesDiffer();
    LoadTwoPages(Corpus[0], Corpus[1], PageInfo([], [LinkToB, LinkToC]), PageInfo([kebab("Intro")], []), kebab);
    assert [Corpus[0], Corpus[1]] == Corpus;
  }

  lemma CorpusIndexValid(kebab: string -> string)
    ensures CorpusIndex(kebab).Valid()
  {
    IdentitiesDiffer();
    LinkShapes();
    assert Elements(CorpusIndex(kebab).order) == {"/a", "/b"};
  }

  lemma ChecksOfFirstPage(kebab: string -> string)
    ensures PageChecks(CorpusIndex(kebab), "/a") == [Check("/a", LinkToB, true), Check("/a", LinkToC, false)]
  {
    var pm := CorpusIndex(kebab);
    IdentitiesDiffer();
    LinkShapes();
    BeforeFirstOfJoin("/b", '#', "gone");
    BeforeFirstWithout(LinkToC, '#');
    assert Resolves(pm, LinkToB);
    assert !Resolves(pm, LinkToC);
    var checksA := PageChecks(pm, "/a");
    assert checksA[0] == Check("/a", LinkToB, true);
    assert checksA[1] == Check("/a", LinkToC, false);
  }

  lemma ChecksOfCorpusIndex(kebab: string -> string)
    ensures CorpusIndex(kebab).Valid()
    ensures GenerateChecks(CorpusIndex(kebab)) == [Check("/a", LinkToB, true), Check("/a", LinkToC, false)]
  {
    var pm := CorpusIndex(kebab);
    CorpusIndexValid(kebab);
    calc {
      GenerateChecks(pm);
      ChecksFor(pm, ["/a"] + ["/b"]);
      { ChecksForStep(pm, "/a", ["/b"]); }
      PageChecks(pm, "/a") + ChecksFor(pm, ["/b"]);
      { ChecksOfFirstPage(kebab); }
      [Check("/a", LinkToB, true), Check("/a", LinkToC, false)] + ChecksFor(pm, ["/b"]);
      { ChecksForStep(pm, "/b", []);
        assert ["/b"] + [] == ["/b"]; }
      [Check("/a", LinkToB, true), Check("/a", LinkToC, false)] + (PageChecks(pm, "/b") + ChecksFor(pm, []));
    }
  }

  /**
   * End to end: the link to the missing anchor passes (only `/b` is looked
   * up), the link to the missing page fails, the same-page link yields no
   * check, and `/b`, having no links, yields no checks.
   */
  lemma CorpusChecks(kebab: string -> string)
    ensures Run(Corpus, kebab) == Success([Check("/a", LinkToB, true), Check("/a", LinkToC, false)])
  {
    LoadCorpus(kebab);
    ChecksOfCorpusIndex(kebab);
  }
}
