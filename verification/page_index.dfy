/**
 * The first stage of the link checker: every `.mdx` file under the content
 * directory is parsed and recorded under its page identity in an
 * insertion-ordered map, a later file overwriting an earlier one with the
 * same identity.
 */
module PageIndex {
  import opened Results
  import opened Collections
  import opened Strings
  import opened Mdast
  import opened Extract

  /** The directory the pages are read from, as the walker prefixes it to every path. */
  const ContentDir: string := "./pages"

  /** The only file extension that is indexed. */
  const PageExtension: string := ".mdx"

  /** One file the directory walk yields, with the tree its content parses to. */
  datatype File = File(path: string, tree: Node)

  /** Only `.mdx` files become pages; every other file is skipped. */
  predicate IsPageFile(path: string) {
    EndsWith(path, PageExtension)
  }

  /** The page identity: the first occurrence of the content directory removed, then the last four characters. */
  function Identity(path: string): string {
    SliceDropLast(ReplaceFirst(path, ContentDir, ""), |PageExtension|)
  }

  /**
   * A JavaScript `Map` from page identity to page record: `order` lists the
   * keys in insertion order.
   */
  datatype PageMap = PageMap(order: seq<string>, entries: map<string, PageInfo>) {
    predicate Valid() {
      && Distinct(order)
      && Elements(order) == entries.Keys
      && forall k :: k in entries ==> entries[k].Valid()
    }
  }

  /** `Map.prototype.set`: a new key goes last, an existing key keeps its place and gets the new value. */
  function SetEntry(pm: PageMap, k: string, v: PageInfo): (r: PageMap)
    requires pm.Valid() && v.Valid()
    ensures r.Valid()
    ensures r.entries.Keys == pm.entries.Keys + {k}
    ensures k in r.entries && r.entries[k] == v
    ensures forall j :: j in pm.entries && j != k ==> r.entries[j] == pm.entries[j]
    ensures k in pm.entries ==> r.order == pm.order
    ensures k !in pm.entries ==> r.order == pm.order + [k]
  {
    if k in pm.entries then PageMap(pm.order, pm.entries[k := v])
    else PageMap(pm.order + [k], pm.entries[k := v])
  }

  const EmptyPageMap: PageMap := PageMap([], map[])

  /** The identities of the page files among `files`. */
  function Identities(files: seq<File>): set<string> {
    set f | f in files && IsPageFile(f.path) :: Identity(f.path)
  }

  /** Every page file's tree extracts without error. */
  predicate AllPagesParse(files: seq<File>, kebab: string -> string) {
    forall f :: f in files && IsPageFile(f.path) ==> ParseMarkdown(f.tree, kebab).Success?
  }

  /**
   * The loading loop over the files in enumeration order. The first page
   * whose extraction throws aborts the whole run.
   */
  function Load(files: seq<File>, kebab: string -> string): (r: Result<PageMap, ParseError>)
    ensures r.Success? <==> AllPagesParse(files, kebab)
    ensures r.Success? ==> r.value.Valid()
    ensures r.Success? ==> r.value.entries.Keys == Identities(files)
    decreases |files|
  {
    if |files| == 0 then Success(EmptyPageMap)
    else
      var init := files[..|files| - 1];
      var f := files[|files| - 1];
      assert files == init + [f];
      assert Identities(files) == Identities(init) + Identities([f]);
      var pages :- Load(init, kebab);
      if !IsPageFile(f.path) then Success(pages)
      else
        var info :- ParseMarkdown(f.tree, kebab);
        Success(SetEntry(pages, Identity(f.path), info))
  }

  /**
   * The content directory cannot overlap a trailing `.mdx` ("s" is not a
   * character of ".mdx"), so removing it keeps the extension in place.
   */
  lemma ReplaceKeepsExtension(path: string)
    requires IsPageFile(path)
    ensures IsPageFile(ReplaceFirst(path, ContentDir, ""))
  {
    match IndexOf(path, ContentDir)
    case None =>
    case Some(i) =>
      var n := |path|;
      forall q | n - 4 <= q < n ensures path[q] != 's' {
        assert path[q] == path[n - 4..][q - (n - 4)];
      }
      assert path[i + 6] == path[i..i + 7][6] == 's';
      assert i + |ContentDir| <= n - |PageExtension|;
      var r := path[..i] + path[i + |ContentDir|..];
      assert r[|r| - 4..] == path[n - 4..];
  }

  /** On a page file the identity is exactly what precedes `.mdx` once the content directory is removed. */
  lemma IdentityDropsExtension(path: string)
    requires IsPageFile(path)
    ensures Identity(path) + PageExtension == ReplaceFirst(path, ContentDir, "")
  {
    ReplaceKeepsExtension(path);
    var r := ReplaceFirst(path, ContentDir, "");
    assert r == r[..|r| - 4] + r[|r| - 4..];
  }

  /** A file `./pages<rest>.mdx` is the page `<rest>`: `./pages/a.mdx` is the page `/a`, slash kept. */
  lemma IdentityOfContentFile(rest: string)
    ensures IsPageFile(ContentDir + rest + PageExtension)
    ensures Identity(ContentDir + rest + PageExtension) == rest
  {
    EndsWithAppended(ContentDir + rest, PageExtension);
    StripAround(ContentDir, rest, PageExtension);
  }

  /**
   * `Map.set` overwrites: the entry of an identity is the record of the LAST
   * page file with that identity.
   */
  lemma {:induction false} LastPageWins(files: seq<File>, kebab: string -> string, j: nat)
    requires Load(files, kebab).Success?
    requires j < |files| && IsPageFile(files[j].path)
    requires forall i :: (j < i < |files| && IsPageFile(files[i].path))
                         ==> Identity(files[i].path) != Identity(files[j].path)
    ensures Identity(files[j].path) in Load(files, kebab).value.entries
    ensures Load(files, kebab).value.entries[Identity(files[j].path)]
         == ParseMarkdown(files[j].tree, kebab).value
    decreases |files|
  {
    var init := files[..|files| - 1];
    var f := files[|files| - 1];
    SplitLast(files);
    if j < |files| - 1 {
      assert init[j] == files[j];
      forall i | j < i < |init| && IsPageFile(init[i].path)
        ensures Identity(init[i].path) != Identity(init[j].path)
      {
        assert init[i] == files[i];
      }
      LastPageWins(init, kebab, j);
    }
  }

  /** With no other page file sharing its identity, a page's entry is its own record. */
  lemma {:induction false} UniqueIdentityEntry(files: seq<File>, kebab: string -> string, g: File)
    requires Load(files, kebab).Success?
    requires g in files && IsPageFile(g.path)
    requires forall f :: f in files && IsPageFile(f.path) && Identity(f.path) == Identity(g.path) ==> f == g
    ensures Load(files, kebab).value.entries[Identity(g.path)] == ParseMarkdown(g.tree, kebab).value
    decreases |files|
  {
    var init := files[..|files| - 1];
    var f := files[|files| - 1];
    assert files == init + [f];
    if !(IsPageFile(f.path) && Identity(f.path) == Identity(g.path)) {
      assert g in init;
      UniqueIdentityEntry(init, kebab, g);
    }
  }

  /** Every indexed record is the record of some page file carrying that identity. */
  lemma {:induction false} EntrySource(files: seq<File>, kebab: string -> string, k: string) returns (g: File)
    requires Load(files, kebab).Success? && k in Load(files, kebab).value.entries
    ensures g in files && IsPageFile(g.path) && Identity(g.path) == k
    ensures ParseMarkdown(g.tree, kebab).Success?
    ensures Load(files, kebab).value.entries[k] == ParseMarkdown(g.tree, kebab).value
    decreases |files|
  {
    if |files| == 0 {
      assert false;
    }
    var init := files[..|files| - 1];
    var f := files[|files| - 1];
    SplitLast(files);
    assert AllPagesParse(init, kebab);
    var pages := Load(init, kebab).value;
    if !IsPageFile(f.path) {
      assert Load(files, kebab).value == pages;
      assert k in pages.entries;
      g := EntrySource(init, kebab, k);
    } else {
      var info := ParseMarkdown(f.tree, kebab).value;
      assert Load(files, kebab).value == SetEntry(pages, Identity(f.path), info);
      if Identity(f.path) == k {
        g := f;
      } else {
        assert k in pages.entries;
        g := EntrySource(init, kebab, k);
      }
    }
  }

  /** The page files of `files`, in order. */
  function PageFiles(files: seq<File>): (r: seq<File>)
    ensures forall f :: f in r <==> f in files && IsPageFile(f.path)
    decreases |files|
  {
    if |files| == 0 then []
    else
      var init := files[..|files| - 1];
      var f := files[|files| - 1];
      assert files == init + [f];
      if IsPageFile(f.path) then PageFiles(init) + [f] else PageFiles(init)
  }

  /** Files without the `.mdx` extension have no influence on the index. */
  lemma {:induction false} NonPagesIgnored(files: seq<File>, kebab: string -> string)
    ensures Load(files, kebab) == Load(PageFiles(files), kebab)
    decreases |files|
  {
    if |files| > 0 {
      var init := files[..|files| - 1];
      var f := files[|files| - 1];
      NonPagesIgnored(init, kebab);
      if IsPageFile(f.path) {
        var pf := PageFiles(init) + [f];
        assert pf[..|pf| - 1] == PageFiles(init);
      }
    }
  }

  /** No two different page files share an identity. */
  predicate DistinctIdentities(files: seq<File>) {
    forall f, g ::
      (f in files && g in files && IsPageFile(f.path) && IsPageFile(g.path)
       && Identity(f.path) == Identity(g.path)) ==> f == g
  }

  /** Two orderings of one corpus hold the same files. */
  lemma SameFiles(files: seq<File>, files': seq<File>)
    requires multiset(files) == multiset(files')
    ensures forall f :: f in files <==> f in files'
  {
    forall f ensures f in files <==> f in files' {
      assert f in files <==> f in multiset(files);
      assert f in files' <==> f in multiset(files');
    }
  }

  /**
   * Enumeration order matters only through collisions: a reordered corpus
   * succeeds or fails alike and indexes the same identities, and without
   * colliding identities it indexes the same record under each.
   */
  lemma LoadOrderIndependent(files: seq<File>, files': seq<File>, kebab: string -> string)
    requires multiset(files) == multiset(files')
    ensures Load(files, kebab).Success? == Load(files', kebab).Success?
    ensures Load(files, kebab).Success? ==>
              Load(files, kebab).value.entries.Keys == Load(files', kebab).value.entries.Keys
    ensures Load(files, kebab).Success? && DistinctIdentities(files) ==>
              Load(files, kebab).value.entries == Load(files', kebab).value.entries
  {
    SameFiles(files, files');
    assert AllPagesParse(files, kebab) == AllPagesParse(files', kebab);
    assert Identities(files) == Identities(files');
    if Load(files, kebab).Success? && DistinctIdentities(files) {
      var m := Load(files, kebab).value.entries;
      var m' := Load(files', kebab).value.entries;
      forall k | k in m ensures m[k] == m'[k] {
        var g :| g in files && IsPageFile(g.path) && Identity(g.path) == k;
        UniqueIdentityEntry(files, kebab, g);
        UniqueIdentityEntry(files', kebab, g);
      }
    }
  }
}
