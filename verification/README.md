# Markdown internal-link checker

This project models the internal-link checker of the documentation site
(`tests/links.test.ts`). The checker works in three stages:

1. **Load.** Every `.mdx` file under `./pages` becomes an index entry. Its key
   is the page identity: the path with the first `./pages` removed and the
   last four characters (`.mdx`) dropped. Its value is what `parseMarkdown`
   extracts from the file.
2. **Extract.** `parseMarkdown` visits the syntax tree in pre-order and
   collects two insertion-ordered sets:
   - the URLs of link nodes that start with `/`;
   - the kebab-cased text of every heading whose first child is a text node.

   A heading without children makes `children[0].type` throw, and the throw
   aborts the whole run.
3. **Check.** Checks are generated only after the index is complete. Each
   page that has links gets one check per distinct link. A check passes iff
   the part of the link before the first `#` is a key of the index.

The model is purely functional:

| Module | File | Contents |
|---|---|---|
| `Results` | `results.dfy` | `Option` and `Result` |
| `Collections` | `collections.dfy` | a JavaScript `Set` as a duplicate-free sequence, and `Set.prototype.add` |
| `Strings` | `strings.dfy` | the string operations the checker uses: `startsWith`, `endsWith`, first-occurrence `replace`, `slice(0, -k)` and `split('#')[0]` |
| `Mdast` | `mdast.dfy` | the syntax tree, and the pre-order traversal performed by `visit` |
| `Extract` | `extract.dfy` | `parseMarkdown` |
| `PageIndex` | `page_index.dfy` | the loading loop, and the index as an insertion-ordered `Map` |
| `LinkCheck` | `link_check.dfy` | check generation, and the whole run |
| `Scenarios` | `scenarios.dfy` | a two-page corpus computed end to end |

The code defines this behaviour, and the model follows the code rather than
any broader account of what a link checker should do:

- Anchors are collected but never consulted, so a link to a missing anchor on
  an existing page passes.
- Links made only of a fragment (`#top`) do not start with `/`, so they are
  never collected or checked.
- Two files with the same identity do not cause an error. The later file's
  record replaces the earlier one and keeps the earlier key's position.

## Model

| member | source | states |
|---|---|---|
| `Collections.Add` | tests/links.test.ts:62 | `Set.add` keeps its input duplicate-free and adds exactly `x` to the elements. It keeps the existing order as a prefix, and leaves the set unchanged when `x` is already present. |
| `Collections.DistinctConcat` | tests/links.test.ts:32-42 | Two duplicate-free, disjoint sequences concatenate to a duplicate-free sequence. This is why no (page, link) check is generated twice. |
| `Strings.IndexOf` | tests/links.test.ts:25 | The position `replace` acts on is the first occurrence of the pattern, and `None` means the pattern does not occur at all (both directions). |
| `Strings.SliceDropLast` | tests/links.test.ts:26 | `slice(0, -k)` keeps a prefix that is `k` characters shorter, or is empty when the string is shorter than `k`. |
| `Strings.BeforeFirst` | tests/links.test.ts:37 | `split('#')[0]` is a prefix of the link that contains no `#` and ends at the first `#`, or at the end of the link. |
| `Strings.StartsWith` | tests/links.test.ts:61 | JavaScript `startsWith`: the string's first `\|p\|` characters are `p`. It has no contract of its own: `Extract.IsInternal` uses it, and through it the link contracts of `Extract.VisitLinks` and `Extract.ParseMarkdown`. |
| `Strings.EndsWith` | tests/links.test.ts:21 | JavaScript `endsWith`: the string's last `\|p\|` characters are `p`. It has no contract of its own: `PageIndex.IsPageFile` uses it, and through it `PageIndex.Load`, `PageIndex.PageFiles` and `PageIndex.NonPagesIgnored`. |
| `Strings.ReplaceFirst` | tests/links.test.ts:25 | `String.prototype.replace` with a string pattern: only the first occurrence, as `Strings.IndexOf` finds it, is replaced. It has no contract of its own: `Strings.ReplaceLeading` and `Strings.StripAround` state its effect on the paths the loader sees. |
| `Strings.ReplaceLeading` | tests/links.test.ts:25 | Removing a pattern that the path starts with removes exactly that leading occurrence. |
| `Strings.SliceDropsSuffix` | tests/links.test.ts:26 | Dropping the last `\|suffix\|` characters of `x + suffix` gives back `x`. |
| `Strings.BeforeFirstOfJoin` | tests/links.test.ts:37 | For `p` without `#`, the part of `p#rest` before the first `#` is `p`, whatever `rest` is. |
| `Strings.StripAround` | tests/links.test.ts:24-26 | Removing a leading prefix and then slicing off a suffix inverts `pre + mid + suffix` back to `mid`. |
| `Mdast.Preorder` | tests/links.test.ts:60 | `visit` reaches the node itself first. With `Mdast.VisitReachesDescendants` and `Mdast.PreorderSound` it holds exactly the node and its descendants. |
| `Mdast.PreorderSound` | tests/links.test.ts:60-69 | `visit` reaches nothing but the node itself and the nodes below its children, so the visitors see no node from outside the tree. |
| `Mdast.PreorderAllSound` | tests/links.test.ts:60-69 | Whatever the traversal of a run of siblings reaches lies in the traversal of one of them. |
| `Mdast.PreorderAll` | tests/links.test.ts:60 | `visit` reaches every one of the given sibling trees. |
| `Mdast.VisitReachesDescendants` | tests/links.test.ts:60-69 | `visit` reaches every node below a child, however deeply it is nested. |
| `Mdast.PreorderAllConcat` | tests/links.test.ts:60-69 | Visiting the siblings `a + b` visits all of `a`'s trees, then all of `b`'s. |
| `Extract.IsInternal` | tests/links.test.ts:61 | `linkNode.url.startsWith('/')`. It has no contract of its own: the reference set `InternalUrls` uses it, and `Extract.VisitLinks` and `Extract.ParseMarkdown` are stated against that set. |
| `Extract.IsEmptyHeading` | tests/links.test.ts:67 | A heading with no children, on which `children[0].type` throws. It has no contract of its own: `Extract.VisitHeadings` and `Extract.ParseMarkdown` fail exactly when a visited node satisfies it. |
| `Extract.IsAnchored` | tests/links.test.ts:67 | A heading whose first child is a text node, the `children[0].type === 'text'` test. It has no contract of its own: the reference set `HeadingAnchors` uses it, and `Extract.VisitHeadings` and `Extract.ParseMarkdown` are stated against that set. |
| `Extract.VisitLinks` | tests/links.test.ts:60-64 | The link visitor's set stays duplicate-free. Its elements are the earlier ones plus exactly the URLs of the visited link nodes that start with `/`. |
| `Extract.VisitHeadings` | tests/links.test.ts:66-70 | The heading visitor fails iff some visited heading has no children. Otherwise its set is duplicate-free and gains exactly `kebab(text)` for each heading whose first child is text. |
| `Extract.ParseMarkdown` | tests/links.test.ts:50-87 | Extraction fails iff the tree holds a heading without children. On success, both sets are duplicate-free, the links are exactly the tree's internal link URLs, and the anchors are exactly its text-led headings' kebab-cased texts. |
| `Extract.Relevant` | tests/links.test.ts:60-77 | A node is kept iff it is a link or a heading node. Order is fixed by `Extract.RelevantConcat`. |
| `Extract.RelevantConcat` | tests/links.test.ts:60-77 | Keeping the relevant nodes distributes over concatenation, so the kept nodes stay in their original order. |
| `Extract.VisitLinksRelevant` | tests/links.test.ts:60-64 | The link visitor gives the same result when every node other than links and headings is removed. |
| `Extract.VisitHeadingsRelevant` | tests/links.test.ts:66-70 | The heading visitor gives the same result when every node other than links and headings is removed. |
| `Extract.ExtractionSeesOnlyLinksAndHeadings` | tests/links.test.ts:72-77 | Two trees whose pre-orders have the same link and heading nodes extract to the same result. The paragraph visitor has no effect. |
| `Extract.ParagraphIsTransparent` | tests/links.test.ts:72-77 | Wrapping a run of the root's children in a paragraph directly under the root does not change what is extracted. |
| `PageIndex.IsPageFile` | tests/links.test.ts:21 | `filename.endsWith('.mdx')`. It has no contract of its own: `Strings.EndsWith` defines it, and `PageIndex.PageFiles` and `PageIndex.NonPagesIgnored` state what it filters. |
| `PageIndex.Identity` | tests/links.test.ts:24-26 | The page key: the path with the first `./pages` removed, then the last four characters dropped. It has no contract of its own: `PageIndex.IdentityDropsExtension` and `PageIndex.IdentityOfContentFile` pin it down. |
| `PageIndex.SetEntry` | tests/links.test.ts:23-28 | `Map.set` keeps the index well formed and adds exactly the key, which gets the new value. Other keys are unchanged. An existing key keeps its position and a new key goes last. |
| `PageIndex.Load` | tests/links.test.ts:18-29 | Loading fails iff some page file's extraction fails. On success, the index is well formed and its keys are exactly the identities of the `.mdx` files. |
| `PageIndex.ReplaceKeepsExtension` | tests/links.test.ts:21-25 | Removing the first `./pages` from a path that ends in `.mdx` leaves a path that still ends in `.mdx`. |
| `PageIndex.IdentityDropsExtension` | tests/links.test.ts:23-26 | A page's identity followed by `.mdx` is its path with the first `./pages` removed, so exactly the extension is dropped. |
| `PageIndex.IdentityOfContentFile` | tests/links.test.ts:23-26 | `./pages<rest>.mdx` is a page file, and its identity is `<rest>`. Because the removal of `./pages` keeps the following slash, `./pages/a.mdx` has identity `/a`, which is the shape internal links use. |
| `PageIndex.LastPageWins` | tests/links.test.ts:23-28 | A page file whose identity no later page file shares has its own extracted record as that identity's entry, so later files overwrite earlier ones. |
| `PageIndex.UniqueIdentityEntry` | tests/links.test.ts:23-28 | A page file whose identity no other page file shares has its own record as the entry. |
| `PageIndex.EntrySource` | tests/links.test.ts:20-28 | Every entry of the index is the extracted record of some `.mdx` file with that identity. |
| `PageIndex.PageFiles` | tests/links.test.ts:21 | Exactly the files that end in `.mdx` are kept. |
| `PageIndex.NonPagesIgnored` | tests/links.test.ts:20-21 | Loading a corpus gives the same result, failure included, as loading only its `.mdx` files. |
| `PageIndex.LoadOrderIndependent` | tests/links.test.ts:20-29 | Reordering the corpus preserves failure or success and the set of keys. Without colliding identities, it also preserves every entry. |
| `LinkCheck.TargetPath` | tests/links.test.ts:37 | `link.split('#')[0]`. It has no contract of its own: it is `Strings.BeforeFirst`, and `Strings.BeforeFirstOfJoin` states that the fragment is cut off. |
| `LinkCheck.Resolves` | tests/links.test.ts:38 | `pages.has(path)`: the target path is a key of the index. It has no contract of its own: `LinkCheck.FragmentNeverConsulted` and `LinkCheck.AnchorsNeverConsulted` state what it does not depend on. |
| `LinkCheck.PageChecks` | tests/links.test.ts:33-40 | A page gets exactly one check per link, so a page without links gets none. The checks are exactly its links, each with the verdict "its target is a key", and there are no duplicates. |
| `LinkCheck.ChecksFor` | tests/links.test.ts:32-42 | The checks of a list of pages are exactly the (page, link, verdict) triples of those pages' links. |
| `LinkCheck.ChecksForDistinct` | tests/links.test.ts:32-42 | Distinct pages whose link lists are duplicate-free never produce the same check twice. |
| `LinkCheck.GenerateChecks` | tests/links.test.ts:32-42 | Over a well-formed index, the checks are exactly one per (page, link) pair, and each passes iff the part of the link before the first `#` is a key. There are no duplicates. |
| `LinkCheck.Run` | tests/links.test.ts:16-43 | The run fails iff some page fails to extract. On success, the checks are duplicate-free and belong to page identities. Each passes iff its target is the identity of some page file anywhere in the corpus, including pages enumerated after the linking page. |
| `LinkCheck.CheckSource` | tests/links.test.ts:23-38 | Every check belongs to the `.mdx` file whose record is the index entry for its page, so never to a file a later one overwrote. Its link is an internal link written in that file. |
| `LinkCheck.EveryLinkChecked` | tests/links.test.ts:23-38 | Every internal link of a page file that no later page file overwrites is checked, with the verdict "its target is the identity of some page file". This covers corpora with colliding identities. |
| `LinkCheck.FragmentNeverConsulted` | tests/links.test.ts:37-38 | The verdict for `path#fragment` is the verdict for `path`, whatever the fragment is. |
| `LinkCheck.PageChecksIgnoreAnchors` | tests/links.test.ts:35-39 | A page's checks depend only on the index keys and that page's links, and not on anchors. |
| `LinkCheck.ChecksForIgnoreAnchors` | tests/links.test.ts:32-42 | Indexes that differ only in anchors generate the same checks for any list of pages. |
| `LinkCheck.AnchorsNeverConsulted` | tests/links.test.ts:37-38 | Two indexes that differ only in their pages' anchors generate identical checks. |
| `LinkCheck.RunOrderIndependent` | tests/links.test.ts:20-38 | Reordering the corpus preserves failure or success, and gives every link the same verdict. Without colliding identities, it generates the same set of checks. |
| `Scenarios.LoadCorpus` | tests/links.test.ts:18-29 | Loading `./pages/a.mdx` and `./pages/b.mdx` gives the index with keys `/a` and `/b`, in that order. |
| `Scenarios.ChecksOfFirstPage` | tests/links.test.ts:35-39 | Page `/a` gets two checks: `/b#gone` passes although `/b` has no `gone` anchor, and `/c` fails. `#top` is not checked. |
| `Scenarios.ChecksOfCorpusIndex` | tests/links.test.ts:32-42 | The link-free page `/b` adds no checks to those of `/a`. |
| `Scenarios.CorpusChecks` | tests/links.test.ts:16-43 | The whole run over the two-page corpus gives exactly `[/a: /b#gone passes, /a: /c fails]` for any kebab-case function. |

## Left out

- The file-system walk (`getAllFiles`) and `readFile` are I/O. The corpus is a given sequence of (path, parsed tree) pairs in enumeration order.
- Markdown parsing (`unified` with `remark-parse`, `remark-frontmatter` and `remark-stringify`) is a foreign library. The tree it produces is a given `Mdast.Node`. The tree keeps only the node kinds the checker distinguishes: headings, paragraphs, links, text, and any other node with children.
- `kebab` from the `case` package is code this model cannot see. It is a parameter, an arbitrary deterministic `string -> string`.
- `slash` is taken as the identity. Paths are assumed to use forward slashes already.
- The vitest `describe`/`it`/`expect` harness is modelled as the list of `(page, link, passed)` results it would report.
- `Extract.ParseMarkdown`: the `TypeError` that a heading without children throws carries no payload in the model. It carries neither the message nor the file name, so the model does not distinguish which page aborted the run.
- The three `visit` calls run one after another over one tree. The model runs the link and heading visitors over the same pre-order sequence. The link set is discarded when the heading visitor throws, so the order of the two cannot be observed.
- Strings are sequences of Unicode characters, while JavaScript strings are sequences of UTF-16 code units. The difference cannot be observed here: every pattern the checker uses (`/`, `#`, `./pages`, `.mdx`) is ASCII, and `slice(0, -4)` only ever removes the ASCII `.mdx`.
- The `$` substitution patterns of `String.prototype.replace` are not modelled. The replacement here is the empty string, where they cannot occur.
- Anchor and fragment validation, resolution of same-page `#` links, and errors on colliding identities are not modelled. The code does none of them.
- The rest of the repository is configuration, theme, analytics or React components with no algorithmic content, and is not part of this model.
