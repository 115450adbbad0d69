# pypub `clean.py` in Dafny

This project models the HTML sanitiser of pypub, `pypub/clean.py`. pypub turns web pages into EPUB
chapters, and the sanitiser does the following:

- It wraps a fragment into a full `<html><head></head><body>…</body></html>` document
  (`create_html_from_fragment`).
- It cleans a parsed page (`clean`):
  - wraps fragments;
  - works out the chapter title;
  - keeps only the first `<article>`;
  - prunes every tag outside a whitelist while keeping the tag's element children, and drops
    attributes outside the whitelist;
  - writes the title back into `<head><title>`;
  - drops `<img>` elements without a `src`;
  - serialises the tree and rewrites `<br>` and `&nbsp;`.
- It squeezes the whitespace around tags (`condense`).
- It turns an HTML document into XHTML (`html_to_xhtml`): it adds the XHTML namespace and respells
  the collapsed void tags `<t/>` as `<t />`.

The model is organised as follows:

- **The parse tree** is an arena, the class `Tree.Soup`:
  - It holds a map from handles to nodes, each with a kind, attributes, an ordered child list and a
    parent link.
  - Its methods are the bs4 operations `clean` uses: `new_tag`, `extract`, `append`,
    `insert(0, …)`, `h[k] = v`, the attribute pops, `clear` and `.string = …`. Each method changes
    the map in place and keeps the arena well formed.
  - A ghost rank witnesses that the parent links form a forest. Children have a higher rank than
    their parent.
  - `find_all`, `find` and `.string` are functions over the map. `find_all` follows document
    order, and `find` returns the first match in that order.
- **Whitelist pruning** is the loop of `clean`, proved in `Prune.Prune` against a
  specification:
  - the elements it visits are exactly the parsed elements below the root;
  - the elements left below the root are exactly the visited ones whose tag is whitelisted;
  - each of those keeps exactly its allowed attributes and hangs below its nearest whitelisted
    ancestor, or below the root when there is none;
  - every removed element is detached.
- **Text post-processing** is Python's `str.replace`, modelled as `Text.ReplaceAll`.
  `Text.NoneAfterReplace` is the lemma that makes the text results provable: a pattern that cannot
  overlap the replacement text cannot survive the replacement. From it follow:
  - `<br>` and `&nbsp;` never appear in `clean`'s output;
  - no listed `<t/>` survives `html_to_xhtml`'s loop.
- **The stages of `clean`** are tied together in `Clean.Clean`. Its ghost results are the tree
  after each stage: the first wrap, the pruning, the second wrap and the title write-back. The
  contract says when `clean` succeeds, which error each stage raises, and how each stage's tree
  follows from the one before.
- **Inputs that stay outside the model.** Parsing (`BeautifulSoup(…, 'html.parser')`) yields the
  arena that methods receive. Serialisation (`unicode(root)`, `prettify`) is a function parameter.
  The tag whitelist (`SUPPORTED_TAGS`) and the void-tag list (`SINGLETON_TAG_LIST`) are
  parameters. `pypub/constants.py` is not part of this model.

## Model

| member | source | states |
|---|---|---|
| Text.ReplaceAbsent | pypub/clean.py:137-139 | `s.replace(p, r)`, modelled by `Text.ReplaceAll`, returns `s` unchanged when `p` does not occur in `s` |
| Text.NoneAfterReplace | pypub/clean.py:137-139 | after `str.replace` (`Text.ReplaceAll`, also used by the loop at lines 194-196) of `q` by `rep`, no `p` is left, if `p` cannot overlap `rep` and `p` is `q` or was absent |
| Condense.SkipSpaces | pypub/clean.py:160 | `lstrip`: the result is a suffix, everything dropped is whitespace, and it does not start with whitespace |
| Condense.TrimEnd | pypub/clean.py:160-161 | `rstrip`: the result is a prefix, everything dropped is whitespace, and it does not end with whitespace |
| Condense.Strip | pypub/clean.py:160-161 | `strip()` leaves no whitespace at either end |
| Condense.CollapseAfterGt | pypub/clean.py:160 | `re.sub('>\s+', '>', s)`: no whitespace follows any `>`, the first character is kept, and the result is empty only for empty input |
| Condense.CollapseBeforeLt | pypub/clean.py:161 | `re.sub('\s+<', '<', s)`: no whitespace precedes any `<`, and the first character is kept unless a run before `<` starts the text |
| Condense.Condense | pypub/clean.py:143-162 | the output has no whitespace after a `>`, none before a `<`, and none at either end |
| Condense.CondenseFixes | pypub/clean.py:160-162 | text already in that shape comes back unchanged |
| Condense.CondenseIdempotent | pypub/clean.py:143-162 | `condense(condense(s)) == condense(s)` |
| Tree.ElementsOf | pypub/clean.py:97-100 | `findAll(True, recursive=False)`: exactly the element children, without repeats |
| Tree.Descendants | pypub/clean.py:86 | the nodes `find_all` scans: every entry is in the tree, has a parent and ranks deeper than `h`; the list is empty exactly for a leaf, opens with the first child and holds every child |
| Tree.FindAll | pypub/clean.py:86 | `find_all(name)` holds exactly the descendants that are elements with that name |
| Tree.NamedFirst | pypub/clean.py:93-96 | the first entry of a `find_all` result is the earliest matching node of the scanned list |
| Tree.Find | pypub/clean.py:89 | `h.name` / `find(name)` is None exactly when `find_all` is empty, and otherwise the first element of that name below `h` in document order |
| Tree.StringOf | pypub/clean.py:92 | `.string` is None unless the node has exactly one child, and when present it is the text of a text node below the node |
| Tree.FirstChildFound | pypub/clean.py:117-119 | an element that is the first child of `h` is what `h.find` returns for its name |
| Tree.Restrict | pypub/clean.py:107-110 | the surviving attributes are exactly those in both the tag's attributes and its allowed set, with their values |
| Tree.Soup.constructor | pypub/clean.py:83 | the arena is the well-formed parse result |
| Tree.Soup.NewNode | pypub/clean.py:118-120 | `new_tag`: a fresh detached node, and nothing else changes |
| Tree.Soup.Extract | pypub/clean.py:103 | `extract()`: the node loses its parent, the parent's child list loses only it, and nothing else changes |
| Tree.Soup.Append | pypub/clean.py:105 | `p.append(n)`: `n` moves to the end of `p`'s children and leaves its old parent's list, and nothing else changes |
| Tree.Soup.InsertFirst | pypub/clean.py:118 | `p.insert(0, n)`: `n` moves to the front of `p`'s children, and nothing else changes |
| Tree.Soup.SetAttribute | pypub/clean.py:190 | `h[k] = v` changes that one attribute only |
| Tree.Soup.FilterAttributes | pypub/clean.py:107-110 | the attribute loop leaves exactly `Restrict(attrs, allowed)` and touches no other node |
| Tree.Soup.ClearChildren | pypub/clean.py:121 | `clear()`: `h` has no children left and its old children are detached |
| Tree.Soup.AppendText | pypub/clean.py:121 | a fresh text node becomes the last child of `h` |
| Tree.Soup.SetString | pypub/clean.py:121 | `.string = t` (`Stringed`): `h`'s only child is a fresh text node holding `t`, its old children are detached, and nothing else changes |
| Prune.Promote | pypub/clean.py:102-105 | `x` is detached, and its element children are re-parented, in order, at the end of `x`'s former parent; no other node changes |
| Prune.PruneStart | pypub/clean.py:97 | the loop invariant, and every stacked element hanging below its nearest kept ancestor, hold for the initial stack of the root's element children |
| Prune.KeepStep | pypub/clean.py:106-111 | popping a whitelisted element and filtering its attributes keeps the loop invariant |
| Prune.RemoveStep | pypub/clean.py:101-105 | popping a non-whitelisted element and promoting its children keeps the loop invariant |
| Prune.NearestKeptOfChild | pypub/clean.py:101-105 | the nearest kept ancestor of a child is its parent when the parent is kept, and the parent's own nearest kept ancestor otherwise |
| Prune.KeepHung | pypub/clean.py:106-111 | after the keep branch every stacked and kept element still hangs below its nearest kept ancestor |
| Prune.RemoveHung | pypub/clean.py:101-105 | after promotion every stacked and kept element still hangs below its nearest kept ancestor |
| Prune.ParentIsNearest | pypub/clean.py:101-105 | a parsed parent that is the root or a whitelisted element is the nearest kept ancestor |
| Prune.KeepOrder | pypub/clean.py:106-111 | the keep branch leaves the parsed children of the root and of each kept element, minus the removed ones, as a prefix of their current children |
| Prune.RemoveOrder | pypub/clean.py:101-105 | extracting `x` and appending its element children to its parent keeps that prefix property with `x` counted as removed |
| Prune.RemoveOrderParent | pypub/clean.py:103-105 | the parent drops `x` and gains the promoted children at its end, so its surviving parsed children stay a prefix |
| Prune.RemoveOrderOther | pypub/clean.py:103 | a node whose parsed children never listed `x` keeps its prefix when `x` is removed |
| Prune.OrderedAtEnd | pypub/clean.py:97-111 | when the work-list is empty the removed set is exactly the non-whitelisted elements below the root, so the prefix property is the one `Pruned` states |
| Prune.PruneDone | pypub/clean.py:98 | at the end of the loop the visited set is exactly the parsed element descendants, and the surviving descendants are exactly the kept ones |
| Prune.PrunedAtEnd | pypub/clean.py:97-111 | the loop's final state is the pruned tree (`Pruned`) of the parsed one |
| Prune.PrunedFindAll | pypub/clean.py:113 | after pruning, `find_all(name)` below the root is empty exactly when it was empty before or `name` is not whitelisted |
| Prune.Visit | pypub/clean.py:99-111 | one round of the loop keeps the invariant and adds the popped element's element children to the stack |
| Prune.RemoveNode | pypub/clean.py:101-105 | the remove branch keeps the invariant and the nearest-kept-ancestor links |
| Prune.KeepNode | pypub/clean.py:106-111 | the keep branch keeps the invariant and the nearest-kept-ancestor links |
| Prune.Prune | pypub/clean.py:97-111 | the loop visits every parsed element below the root exactly once; afterwards the element descendants are exactly the visited whitelisted ones, with exactly their allowed attributes, each below its nearest whitelisted ancestor (or the root); removed elements are detached; the root changes only its children; the children of the root and of every kept element begin with their parsed children, in parsed order, less the removed elements |
| Fragment.AddShell | pypub/clean.py:51 | the parsed shell adds exactly four fresh nodes |
| Fragment.AddShellWellFormed | pypub/clean.py:51 | adding the shell keeps the arena a well-formed forest |
| Fragment.ParseShell | pypub/clean.py:51 | `BeautifulSoup('<html><head></head><body></body></html>')`: four fresh nodes document/html/head/body, and old nodes are untouched |
| Fragment.ShellAfterAppend | pypub/clean.py:52 | after `soup.body.append(tag)` the shell holds `tag` as the body's only child and `tag` left its old parent |
| Fragment.Splice | pypub/clean.py:52 | `body.append(doc)` of a parsed document: its children move one by one, in order, to the end of `body`, each re-parented; the document keeps no children; nothing else changes |
| Fragment.SpliceStep | pypub/clean.py:52 | moving the next child keeps the "first `i` children moved" description |
| Fragment.ShellAfterSplice | pypub/clean.py:51-53 | splicing a parsed document into the fresh shell gives a shell whose body holds exactly the document's former children |
| Fragment.WrapTag | pypub/clean.py:51-53 | the result is a new document whose body holds exactly `tag`, or, for a parsed document, exactly its children |
| Fragment.WrapDocument | pypub/clean.py:51-53 | a parsed document's children end up, in order, as the whole body of the new shell |
| Fragment.WrapElement | pypub/clean.py:51-53 | an element ends up as the only child of the new shell's body |
| Fragment.CreateHtmlFromFragment | pypub/clean.py:31-53 | TypeError for a non-Tag, ValueError when a `body` is already below the tag, both with no change; otherwise the tag is wrapped |
| Images.Unsourced | pypub/clean.py:126-128 | exactly the scanned `img` elements without a `src` attribute |
| Images.UnsourcedSnoc | pypub/clean.py:127-128 | scanning one more node adds it exactly when it is an `img` without `src` |
| Images.ExtractAgain | pypub/clean.py:129 | extracting an already extracted node changes nothing |
| Images.ExtractFresh | pypub/clean.py:129 | one more `extract()` moves the tree from "these nodes extracted" to "these nodes and `x` extracted" |
| Images.ExtractAt | pypub/clean.py:129 | the same step for a single node of the tree |
| Images.ExtractIfUnsourced | pypub/clean.py:128-129 | one round of the loop extracts the image exactly when it has no `src` |
| Images.RemoveImagesWithoutSrc | pypub/clean.py:126-129 | the tree afterwards is the original with exactly the `src`-less images below the root extracted |
| Images.NoUnsourcedImageBelow | pypub/clean.py:126-129 | afterwards every `img` below the root has a `src` attribute |
| Images.SourcedImageKept | pypub/clean.py:126-129 | an `img` with a `src`, even an empty one, keeps its parent, its place and its attributes |
| Title.Unicode | pypub/clean.py:92 | `unicode(x)` is the string itself, and reads `'None'` exactly for None or the text "None" |
| Title.HeadOf | pypub/clean.py:89 | `root.html.head` is a `head` element when present |
| Title.ResolveTitle | pypub/clean.py:88-92 | a caller's title wins; otherwise a missing html or head is AttributeError, a head without a title gives 'Ebook Chapter', and a title gives `unicode(title.string)` |
| Title.EmptyTitleGivesNone | pypub/clean.py:92 | an empty `<title></title>` gives the chapter title 'None' |
| Title.ShellTitle | pypub/clean.py:87-90 | in the shell built for a fragment `root.html.head` exists and holds no title, so the chapter title is 'Ebook Chapter' |
| Title.EnsureHead | pypub/clean.py:117-118 | afterwards `html.head` is the old head or a fresh empty head placed first in `html` |
| Title.NewTitle | pypub/clean.py:120-121 | a detached fresh `<title>` whose only child is a fresh text node holding the title; nothing else changes |
| Title.AppendTitle | pypub/clean.py:120-122 | a fresh `<title>` whose `.string` reads the title becomes the last child of the head, and no other node changes |
| Title.EnsureTitle | pypub/clean.py:119-124 | an existing first title gets the new string in place (head unchanged, only its old children detached), otherwise a fresh title is appended; either way no second title is added and other nodes stay |
| Title.WrittenNewHead | pypub/clean.py:117-122 | a new head followed by a new title is the write-back for an html without head |
| Title.WrittenOldHead | pypub/clean.py:119-122 | a new title appended to the head is the write-back for a head without title |
| Title.WrittenOldTitle | pypub/clean.py:123-124 | setting the found title's string is the write-back when head and title exist |
| Title.WriteTitle | pypub/clean.py:116-124 | the tree afterwards is exactly the write-back `TitleWritten` describes, and the title reads the title |
| Title.WriteWithNewHead | pypub/clean.py:117-122 | the same, when `html` has no head |
| Title.WriteIntoHead | pypub/clean.py:118-124 | the same, when `html.head` exists |
| Title.WritableCases | pypub/clean.py:115-124 | the write-back can run to the end exactly when the title is empty, or there is an html and either the root is the document or head and title both exist |
| Title.MaterializeTitle | pypub/clean.py:115-124 | succeeds exactly when `TitleWritable` holds, and then the tree is exactly `TitleWritten`; the errors (AttributeError without html, TypeError from `Tag.new_tag` on a non-document root) change nothing |
| Clean.BrApartFromBrSlash | pypub/clean.py:137 | `<br>` cannot overlap `<br/>` |
| Clean.ApartFromSpace | pypub/clean.py:137-139 | a pattern without spaces cannot overlap `' '` |
| Clean.FixUp | pypub/clean.py:137-139 | the output contains neither `<br>` nor `&nbsp;` |
| Clean.FixUpKeepsClean | pypub/clean.py:137-139 | text free of both patterns is unchanged |
| Clean.FixUpIdempotent | pypub/clean.py:137-139 | applying the fix-ups twice equals applying them once |
| Clean.WrapIfFragment | pypub/clean.py:83-87 | a parse with an `html` is unchanged; otherwise it is wrapped, or ValueError exactly when it has a `body` |
| Clean.ArticleOrRoot | pypub/clean.py:93-96 | the first `article` below the root in document order if any, otherwise the root |
| Clean.Isolate | pypub/clean.py:93-114 | the chosen root is pruned (`Pruned`); ValueError exactly when the pruned root has no `html` but a `body`, which is when the parse had none or `html` is not whitelisted, and a `body` is there and whitelisted; otherwise the result is the pruned root or a new shell around it |
| Clean.Finish | pypub/clean.py:115-140 | succeeds exactly when the title write-back can run; then the tree is the written-back tree with the `src`-less images extracted, the output is the fix-up of its serialisation, and no `img` below the root lacks `src`; errors change nothing |
| Clean.CleanWrapped | pypub/clean.py:93-140 | succeeds exactly when Isolate does and the title write-back can run on the isolated tree, with each stage's tree stated |
| Clean.Clean | pypub/clean.py:56-140 | ValueError with no change exactly when the parse has no html but a body; title resolution fails exactly without a given title, html present and no head (AttributeError); a fragment gets 'Ebook Chapter'; succeeds exactly when wrap, title resolution, isolation and title write-back all do; each stage's tree follows from the previous one; the output never contains `<br>` or `&nbsp;` and no `img` below the final root lacks `src` |
| Xhtml.NamesDiffer | pypub/clean.py:195-196 | two different tag names give `<u />` and `<t/>` that differ at a common index |
| Xhtml.CollapsedApart | pypub/clean.py:195-196 | `<t/>` cannot overlap `<u />` for any tag names `t` and `u` |
| Xhtml.CloseStep | pypub/clean.py:194-196 | one round of the loop leaves no listed `<t/>` if none of the earlier tags was left |
| Xhtml.CloseAll | pypub/clean.py:193-196 | the fold of the replacements in list order; after it no listed tag remains in the form `<t/>` |
| Xhtml.CloseAllKeeps | pypub/clean.py:193-196 | text with no listed `<t/>` comes through the loop unchanged |
| Xhtml.CloseSingletons | pypub/clean.py:193-196 | the loop computes the fold of the replacements in list order, and leaves no listed `<t/>` |
| Xhtml.HtmlToXhtml | pypub/clean.py:165-197 | ValueError with no change when there is no `html`; otherwise only `html`'s `xmlns` becomes the XHTML namespace, and the result is the loop applied to the prettified document |

## Left out

- The `isinstance` checks that raise TypeError for a non-string argument of `clean`, `condense` and
  `html_to_xhtml`. The model takes a parsed arena or a string, so these cannot arise.
- HTML parsing, `unicode(root)` and `prettify`. They are bs4 library code. The model takes the
  parse as its input and the serialisers as function parameters.
- The `debug_use_pretty` branch (lines 130-133). The flag is the constant `False`.
- `pypub/compat.py`, `setup.py` and `pypub/constants.py`. The two constant lists are parameters.
- Fragment.CreateHtmlFromFragment: a `BeautifulSoup` object appended into the body is spliced, as
  bs4 4.9.3 does. Older bs4 versions that kept it as one node are not modelled.
- Title.MaterializeTitle: `root.html` is looked up once and that handle is reused after the head is
  inserted. In bs4 the lookup is repeated, and it finds the same element because the insertion
  happens inside it.
- Title.MaterializeTitle: a root that is an element with a descendant named `new_tag` makes
  `root.new_tag` return that element instead of None. This case is not modelled; the model raises
  TypeError for every non-document root.
- Title.EnsureTitle: does not prove that a later `head.title` lookup finds the written title; it
  states the new tree and that the title element it returns reads the title.
- Condense.IsSpace: whitespace is ASCII space and tab through carriage return, not Python's full
  Unicode `\s`.
- Images.RemoveImagesWithoutSrc: the model does not prove that `find_all` lists each node once. A
  node listed twice is handled by `Images.ExtractAgain`.
- Prune.Prune: the parsed children that survive keep their order and come first, but the order of
  the promoted children after them (set by the last-in, first-out work-list) is not stated.
