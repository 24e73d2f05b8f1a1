/**
 * The second stage of the link checker: once the index is complete, one
 * check is generated per distinct internal link of every page that has
 * links. A check passes iff the link's part before the first `#` is a page
 * identity in the index; fragments and anchors are never consulted.
 */
module LinkCheck {
  import opened Results
  import opened Collections
  import opened Strings
  import opened Mdast
  import opened Extract
  import opened PageIndex

  /** One generated test case: `Should have <link> defined`, under the describe block of `page`. */
  datatype Check = Check(page: string, link: string, passed: bool)

  /** `link.split('#')[0]`: the page a link points to. */
  function TargetPath(link: string): string {
    BeforeFirst(link, '#')
  }

  /** The verdict of a check: the link's target page is a key of the index. */
  predicate Resolves(pm: PageMap, link: string) {
    TargetPath(link) in pm.entries
  }

  /** The checks of one page, one per link in insertion order; none for a page without links. */
  function PageChecks(pm: PageMap, page: string): (r: seq<Check>)
    requires page in pm.entries
    ensures |r| == |pm.entries[page].links|
    ensures forall c :: c in r <==>
              (c.page == page && c.link in pm.entries[page].links && c.passed == Resolves(pm, c.link))
    ensures Distinct(pm.entries[page].links) ==> Distinct(r)
  {
    var links := pm.entries[page].links;
    if |links| == 0 then []
    else
      var r := seq(|links|, i requires 0 <= i < |links| => Check(page, links[i], Resolves(pm, links[i])));
      assert forall l :: l in links ==> Check(page, l, Resolves(pm, l)) in r by {
        forall l | l in links ensures Check(page, l, Resolves(pm, l)) in r {
          var i :| 0 <= i < |links| && links[i] == l;
          assert r[i] == Check(page, l, Resolves(pm, l));
        }
      }
      r
  }

  /** The checks of the given pages, page by page. */
  function ChecksFor(pm: PageMap, pages: seq<string>): (r: seq<Check>)
    requires forall p :: p in pages ==> p in pm.entries
    ensures forall c :: c in r <==>
              (c.page in pages && c.link in pm.entries[c.page].links && c.passed == Resolves(pm, c.link))
    decreases |pages|
  {
    if |pages| == 0 then []
    else
      var head := PageChecks(pm, pages[0]);
      var tail := ChecksFor(pm, pages[1..]);
      assert forall p :: p in pages <==> p == pages[0] || p in pages[1..];
      head + tail
  }

  /** No (page, link) pair is checked twice when pages and each page's links are duplicate-free. */
  lemma {:induction false} ChecksForDistinct(pm: PageMap, pages: seq<string>)
    requires forall p :: p in pages ==> p in pm.entries
    requires Distinct(pages)
    requires forall p :: p in pages ==> Distinct(pm.entries[p].links)
    ensures Distinct(ChecksFor(pm, pages))
    decreases |pages|
  {
    if |pages| > 0 {
      assert forall p :: p in pages[1..] ==> p in pages;
      assert Distinct(pages[1..]);
      ChecksForDistinct(pm, pages[1..]);
      assert pages[0] !in pages[1..];
      DistinctConcat(PageChecks(pm, pages[0]), ChecksFor(pm, pages[1..]));
    }
  }

  /** Check generation over the completed index, pages in insertion order. */
  function GenerateChecks(pm: PageMap): (r: seq<Check>)
    requires pm.Valid()
    ensures forall c :: c in r <==>
              (c.page in pm.entries && c.link in pm.entries[c.page].links && c.passed == Resolves(pm, c.link))
    ensures Distinct(r)
  {
    ChecksForDistinct(pm, pm.order);
    ChecksFor(pm, pm.order)
  }

  /**
   * The whole test file: load every page, then generate the checks. Checks
   * run against the completed index, so a link passes iff its target is the
   * identity of some page file anywhere in the corpus, including files
   * enumerated after the linking page.
   */
  function Run(files: seq<File>, kebab: string -> string): (r: Result<seq<Check>, ParseError>)
    ensures r.Success? <==> AllPagesParse(files, kebab)
    ensures r.Success? ==> Distinct(r.value)
    ensures r.Success? ==> forall c :: c in r.value ==> c.page in Identities(files)
    ensures r.Success? ==> forall c :: c in r.value ==> (c.passed <==> TargetPath(c.link) in Identities(files))
  {
    var pm :- Load(files, kebab);
    Success(GenerateChecks(pm))
  }

  /**
   * Every check belongs to the page file whose record is the index entry
   * for its page (so never to an overwritten file) and to one of the
   * internal links written in that file.
   */
  lemma CheckSource(files: seq<File>, kebab: string -> string, c: Check) returns (g: File)
    requires Run(files, kebab).Success? && c in Run(files, kebab).value
    ensures g in files && IsPageFile(g.path) && Identity(g.path) == c.page
    ensures c.link in InternalUrls(Preorder(g.tree))
    ensures Load(files, kebab).Success? && c.page in Load(files, kebab).value.entries
    ensures Load(files, kebab).value.entries[c.page] == ParseMarkdown(g.tree, kebab).value
  {
    g := EntrySource(files, kebab, c.page);
  }

  /**
   * Every internal link of every page file that no later page file
   * overwrites is checked, with the verdict "its target page exists". A
   * colliding earlier file loses its entry, and with it its checks.
   */
  lemma EveryLinkChecked(files: seq<File>, kebab: string -> string, j: nat, link: string)
    requires Run(files, kebab).Success?
    requires j < |files| && IsPageFile(files[j].path) && link in InternalUrls(Preorder(files[j].tree))
    requires forall i :: (j < i < |files| && IsPageFile(files[i].path))
                         ==> Identity(files[i].path) != Identity(files[j].path)
    ensures Check(Identity(files[j].path), link, TargetPath(link) in Identities(files)) in Run(files, kebab).value
  {
    LastPageWins(files, kebab, j);
    var pm := Load(files, kebab).value;
    var page := Identity(files[j].path);
    assert pm.entries[page] == ParseMarkdown(files[j].tree, kebab).value;
    assert link in Elements(pm.entries[page].links);
    assert Resolves(pm, link) == (TargetPath(link) in Identities(files));
    assert Run(files, kebab).value == GenerateChecks(pm);
  }

  /** A fragment never changes a verdict: only the part before the first `#` is looked up. */
  lemma FragmentNeverConsulted(pm: PageMap, path: string, fragment: string)
    requires '#' !in path
    ensures Resolves(pm, path + "#" + fragment) == (path in pm.entries)
  {
    BeforeFirstOfJoin(path, '#', fragment);
  }

  lemma PageChecksIgnoreAnchors(pm1: PageMap, pm2: PageMap, page: string)
    requires pm1.entries.Keys == pm2.entries.Keys && page in pm1.entries
    requires pm1.entries[page].links == pm2.entries[page].links
    ensures PageChecks(pm1, page) == PageChecks(pm2, page)
  {
    assert forall l :: Resolves(pm1, l) == Resolves(pm2, l);
  }

  lemma {:induction false} ChecksForIgnoreAnchors(pm1: PageMap, pm2: PageMap, pages: seq<string>)
    requires pm1.entries.Keys == pm2.entries.Keys
    requires forall p :: p in pages ==> p in pm1.entries
    requires forall p :: p in pm1.entries ==> pm1.entries[p].links == pm2.entries[p].links
    ensures ChecksFor(pm1, pages) == ChecksFor(pm2, pages)
    decreases |pages|
  {
    if |pages| > 0 {
      assert forall p :: p in pages[1..] ==> p in pages;
      ChecksForIgnoreAnchors(pm1, pm2, pages[1..]);
      PageChecksIgnoreAnchors(pm1, pm2, pages[0]);
    }
  }

  /**
   * Anchors are collected but never consulted: two indexes that differ only
   * in their pages' anchors generate the same checks.
   */
  lemma AnchorsNeverConsulted(pm1: PageMap, pm2: PageMap)
    requires pm1.Valid() && pm2.Valid()
    requires pm1.order == pm2.order
    requires forall p :: p in pm1.entries ==> pm1.entries[p].links == pm2.entries[p].links
    ensures GenerateChecks(pm1) == GenerateChecks(pm2)
  {
    ChecksForIgnoreAnchors(pm1, pm2, pm1.order);
  }

  /**
   * The verdicts do not depend on enumeration order: a reordered corpus
   * fails or succeeds alike, gives the same verdict to any link, and without
   * colliding identities generates the same checks (in another order).
   */
  lemma RunOrderIndependent(files: seq<File>, files': seq<File>, kebab: string -> string)
    requires multiset(files) == multiset(files')
    ensures Run(files, kebab).Success? == Run(files', kebab).Success?
    ensures Run(files, kebab).Success? ==>
              forall c, c' ::
                (c in Run(files, kebab).value && c' in Run(files', kebab).value && c.link == c'.link)
                ==> c.passed == c'.passed
    ensures Run(files, kebab).Success? && DistinctIdentities(files) ==>
              Elements(Run(files, kebab).value) == Elements(Run(files', kebab).value)
  {
    LoadOrderIndependent(files, files', kebab);
    if Run(files, kebab).Success? {
      var pm, pm' := Load(files, kebab).value, Load(files', kebab).value;
      assert pm.entries.Keys == pm'.entries.Keys;
      if DistinctIdentities(files) {
        var cs, cs' := GenerateChecks(pm), GenerateChecks(pm');
        assert pm.entries == pm'.entries;
        assert forall c :: c in cs <==> c in cs';
      }
    }
  }
}
