// `clean` (pypub/clean.py:56-140): parse, wrap, resolve the title, keep the
// article, prune to the whitelist, wrap again, write the title back, drop
// images without a source, serialise and patch two entities in the text.

module Clean {
  import opened Wrappers
  import opened Text
  import opened Tree
  import opened Fragment
  import opened Prune
  import opened Title
  import opened Images

  /** bs4's `unicode(root)`: the serialisation of the tree below a node. */
  type Render = (map<Handle, Node>, Handle) -> string

  // ---------------------------------------------------------------------------
  // The text fix-ups of lines 137-139.

  /** `<br>` cannot overlap a `<br/>` written in its place. */
  lemma BrApartFromBrSlash()
    ensures NoOverlap("<br>", "<br/>")
  {
    var p, rep := "<br>", "<br/>";
    forall i | 0 <= i < |rep| ensures Disagree(rep[i..], p) {
      DisagreeAt(rep[i..], p, if i == 0 then 3 else 0);
    }
    forall d | 0 < d < |p| ensures Disagree(p[d..], rep) {
      DisagreeAt(p[d..], rep, 0);
    }
  }

  /** A pattern that does not begin with a space and holds none cannot overlap a single space. */
  lemma ApartFromSpace(p: string)
    requires |p| > 0 && forall k :: 0 <= k < |p| ==> p[k] != ' '
    ensures NoOverlap(p, " ")
  {
    forall i | 0 <= i < 1 ensures Disagree(" "[i..], p) {
      DisagreeAt(" "[i..], p, 0);
    }
    forall d | 0 < d < |p| ensures Disagree(p[d..], " ") {
      DisagreeAt(p[d..], " ", 0);
    }
  }

  /**
   * Lines 137-139: `<br>` becomes `<br/>`, then `&nbsp;` becomes a space.
   * Neither pattern survives in the result.
   */
  function FixUp(s: string): (r: string)
    ensures !Occurs(r, "<br>") && !Occurs(r, "&nbsp;")
  {
    var t := ReplaceAll(s, "<br>", "<br/>");
    BrApartFromBrSlash();
    ApartFromSpace("<br>");
    ApartFromSpace("&nbsp;");
    NoneAfterReplace(s, "<br>", "<br/>", "<br>");
    NoneAfterReplace(t, "&nbsp;", " ", "<br>");
    NoneAfterReplace(t, "&nbsp;", " ", "&nbsp;");
    ReplaceAll(t, "&nbsp;", " ")
  }

  /** Text without either pattern passes through the fix-ups unchanged. */
  lemma FixUpKeepsClean(s: string)
    requires !Occurs(s, "<br>") && !Occurs(s, "&nbsp;")
    ensures FixUp(s) == s
  {
    ReplaceAbsent(s, "<br>", "<br/>");
    ReplaceAbsent(s, "&nbsp;", " ");
  }

  /** Applying the fix-ups twice is applying them once. */
  lemma FixUpIdempotent(s: string)
    ensures FixUp(FixUp(s)) == FixUp(s)
  {
    FixUpKeepsClean(FixUp(s));
  }

  // ---------------------------------------------------------------------------
  // The tree stages.

  /**
   * `s.nodes` is a well-formed arena holding `h`.
   */
  ghost predicate Sound(s: Snapshot, h: Handle)
  {
    WellFormed(s.nodes, s.rank, s.height) && h in s.nodes
  }

  /** Lines 83-84 refuse the input: no `html`, but a `body`, below the document. */
  ghost predicate WrapFails(s: Snapshot, doc: Handle)
    requires Sound(s, doc)
  {
    FindAll(s.nodes, s.rank, s.height, doc, "html") == [] && FindAll(s.nodes, s.rank, s.height, doc, "body") != []
  }

  /** Lines 83-84 succeeded on `s`, giving snapshot `w` whose document is `start`. */
  ghost predicate WrapStage(s: Snapshot, doc: Handle, w: Snapshot, start: Handle)
    requires Sound(s, doc)
  {
    Sound(w, start) && w.nodes[start].kind.Element? &&
    if FindAll(s.nodes, s.rank, s.height, doc, "html") != [] then w == s && start == doc
    else Wrapped(s.nodes, w.nodes, start, doc)
  }

  /**
   * Lines 83-87: a parse without an `html` element is wrapped by
   * `create_html_from_fragment`, which refuses (ValueError) a parse that
   * already has a `body`. The result is the node the rest of `clean` calls
   * `root`.
   */
  method WrapIfFragment(soup: Soup, doc: Handle) returns (r: Result<Handle, Error>)
    requires soup.Valid() && doc in soup.nodes && soup.nodes[doc].kind.Element?
    modifies soup
    ensures soup.Valid() && soup.height == old(soup.height)
    ensures forall h :: h in old(soup.nodes) ==> h in soup.nodes && soup.rank[h] == old(soup.rank)[h]
    ensures r.Ok? ==> r.value in soup.nodes && soup.nodes[r.value].kind.Element?
    ensures FindAll(old(soup.nodes), old(soup.rank), old(soup.height), doc, "html") != [] ==>
              r == Ok(doc) && soup.nodes == old(soup.nodes) && soup.rank == old(soup.rank) && soup.next == old(soup.next)
    ensures FindAll(old(soup.nodes), old(soup.rank), old(soup.height), doc, "html") == [] ==>
              if FindAll(old(soup.nodes), old(soup.rank), old(soup.height), doc, "body") != []
              then r == Err(ValueError) && soup.nodes == old(soup.nodes)
              else r.Ok? && Wrapped(old(soup.nodes), soup.nodes, r.value, doc)
    ensures var s := Snapshot(old(soup.nodes), old(soup.rank), old(soup.height), old(soup.next));
            Sound(s, doc) && (r.Ok? <==> !WrapFails(s, doc)) &&
            (r.Ok? ==> WrapStage(s, doc, Snapshot(soup.nodes, soup.rank, soup.height, soup.next), r.value))
  {
    if FindAll(soup.nodes, soup.rank, soup.height, doc, "html") != [] {
      return Ok(doc);
    }
    r := CreateHtmlFromFragment(soup, NodeArg(doc));
  }

  /**
   * Lines 93-96: the first `article` below `root` in document order, if
   * any, becomes the root.
   */
  function ArticleOrRoot(m: map<Handle, Node>, ghost rank: map<Handle, int>, ghost height: int, root: Handle): (r: Handle)
    requires WellFormed(m, rank, height) && root in m
    ensures r in m
    ensures FindAll(m, rank, height, root, "article") == [] ==> r == root
    ensures FindAll(m, rank, height, root, "article") != [] ==>
              var d := Descendants(m, rank, height, root);
              r in d && exists k :: FirstNamed(m, d, "article", k) && d[k] == r
  {
    match Find(m, rank, height, root, "article")
    case None => root
    case Some(a) => a
  }

  /**
   * Lines 93-114: keep the first article if there is one, prune everything
   * below that root to the whitelist, then wrap the root again when no
   * `html` is left below it. `top` is the chosen root and `pruned` the
   * tree right after the whitelist pass. The wrap fails (ValueError)
   * exactly when no `html` but some `body` is left below `top`, that is,
   * when `html` was absent or not whitelisted and `body` was present and
   * whitelisted.
   */
  method Isolate(soup: Soup, root: Handle, dict: TagDictionary) returns (r: Result<Handle, Error>, top: Handle, ghost pruned: map<Handle, Node>)
    requires soup.Valid() && root in soup.nodes && soup.nodes[root].kind.Element?
    modifies soup
    ensures soup.Valid() && soup.height == old(soup.height)
    ensures top == ArticleOrRoot(old(soup.nodes), old(soup.rank), old(soup.height), root)
    ensures Pruned(old(soup.nodes), pruned, old(soup.rank), old(soup.height), top, dict)
    ensures forall h :: h in old(soup.nodes) ==> h in soup.nodes && soup.rank[h] == old(soup.rank)[h]
    ensures r.Err? <==> FindAll(pruned, old(soup.rank), old(soup.height), top, "html") == [] &&
                        FindAll(pruned, old(soup.rank), old(soup.height), top, "body") != []
    ensures r.Err? <==> (FindAll(old(soup.nodes), old(soup.rank), old(soup.height), top, "html") == [] || "html" !in dict) &&
                        FindAll(old(soup.nodes), old(soup.rank), old(soup.height), top, "body") != [] && "body" in dict
    ensures r.Err? ==> r.error == ValueError && soup.nodes == pruned
    ensures FindAll(pruned, old(soup.rank), old(soup.height), top, "html") != [] ==> r == Ok(top) && soup.nodes == pruned
    ensures FindAll(pruned, old(soup.rank), old(soup.height), top, "html") == [] && r.Ok? ==>
              Wrapped(pruned, soup.nodes, r.value, top)
    ensures r.Ok? ==> r.value in soup.nodes && soup.nodes[r.value].kind.Element?
  {
    ghost var m0 := soup.nodes;
    top := ArticleOrRoot(soup.nodes, soup.rank, soup.height, root);
    var order := Prune.Prune(soup, top, dict);
    pruned := soup.nodes;
    PrunedFindAll(m0, pruned, soup.rank, soup.height, top, dict, "html");
    PrunedFindAll(m0, pruned, soup.rank, soup.height, top, dict, "body");
    r := WrapIfFragment(soup, top);
  }

  /**
   * Lines 115-139 ran to the end on snapshot `i` with root `root`: the
   * title write-back turned `i` into `titled`, the image pass turned that
   * into the final snapshot `f`, extracting exactly the `img` elements
   * below `root` without a `src`.
   */
  ghost predicate FinishStage(i: Snapshot, root: Handle, title: string, titled: map<Handle, Node>, f: Snapshot)
    requires Sound(i, root)
  {
    && TitleWritten(i.nodes, i.rank, i.height, i.next, root, title, titled)
    && Sound(f, root) && WellFormed(titled, f.rank, f.height) && root in titled
    && Extracted(titled, f.nodes, Unsourced(titled, FindAll(titled, f.rank, f.height, root, "img")))
  }

  /**
   * Lines 115-139: write a non-empty title back, extract the images without
   * a `src`, serialise `root` and apply the text fix-ups. The write-back
   * decides the outcome: it succeeds exactly when `TitleWritable` holds; a
   * failure leaves the tree as it was. `titled` is the tree between the
   * write-back and the image pass.
   */
  method Finish(soup: Soup, root: Handle, title: string, render: Render) returns (r: Result<string, Error>, ghost titled: map<Handle, Node>)
    requires soup.Valid() && root in soup.nodes
    modifies soup
    ensures soup.Valid()
    ensures r.Ok? <==> TitleWritable(old(soup.nodes), old(soup.rank), old(soup.height), root, title)
    ensures r.Err? ==> r.error != ValueError && soup.nodes == old(soup.nodes)
    ensures r.Ok? ==> FinishStage(Snapshot(old(soup.nodes), old(soup.rank), old(soup.height), old(soup.next)), root, title,
                                  titled, Snapshot(soup.nodes, soup.rank, soup.height, soup.next))
    ensures r.Ok? ==> root in soup.nodes && r.value == FixUp(render(soup.nodes, root))
    ensures r.Ok? ==> forall y :: y in Descendants(soup.nodes, soup.rank, soup.height, root) && soup.nodes[y].kind == Element("img") ==>
                        "src" in soup.nodes[y].attrs
  {
    var t := MaterializeTitle(soup, root, title);
    titled := soup.nodes;
    if t.Err? {
      return Err(t.error), titled;
    }
    RemoveImagesWithoutSrc(soup, root);
    NoUnsourcedImageBelow(titled, soup.nodes, soup.rank, soup.height, root);
    return Ok(FixUp(render(soup.nodes, root))), titled;
  }

  /** Lines 112-114 refuse the pruned tree below the article or root chosen in `w`. */
  ghost predicate IsolateFails(w: Snapshot, start: Handle, dict: TagDictionary)
    requires Sound(w, start)
  {
    var top := ArticleOrRoot(w.nodes, w.rank, w.height, start);
    (FindAll(w.nodes, w.rank, w.height, top, "html") == [] || "html" !in dict) &&
    FindAll(w.nodes, w.rank, w.height, top, "body") != [] && "body" in dict
  }

  /**
   * Lines 93-114 on `w`: the chosen root was pruned into `pruned`; when
   * that did not fail, snapshot `i` with root `root` is the pruned tree
   * itself or the shell wrapped around it.
   */
  ghost predicate IsolateStage(w: Snapshot, start: Handle, dict: TagDictionary, pruned: map<Handle, Node>,
                               i: Snapshot, root: Handle)
    requires Sound(w, start)
  {
    var top := ArticleOrRoot(w.nodes, w.rank, w.height, start);
    Pruned(w.nodes, pruned, w.rank, w.height, top, dict) &&
    (!IsolateFails(w, start, dict) ==>
       Sound(i, root) &&
       if FindAll(pruned, w.rank, w.height, top, "html") != [] then root == top && i.nodes == pruned
       else Wrapped(pruned, i.nodes, root, top))
  }

  /**
   * `clean` on a parsed document `doc`: every step above in order, with the
   * intermediate trees as ghost results. `wrapped` and `start` are the
   * tree and root after lines 83-84, `pruned` the tree after the whitelist
   * pass, `isolated` the tree after lines 112-114 and `titled` the tree
   * after the title write-back. A title given by the caller is used as it
   * is; otherwise it is read from the (possibly wrapped) document before
   * pruning, and a fragment always gets the default title. The result is
   * Ok exactly when the first wrap, the title lookup, the second wrap and
   * the title write-back all succeed; its text never holds `<br>` or
   * `&nbsp;`, and no `img` below the final root lacks a `src` attribute.
   */
  method Clean(soup: Soup, doc: Handle, dict: TagDictionary, title: Option<string>, render: Render)
    returns (r: Result<string, Error>, root: Handle, ghost start: Handle, ghost wrapped: Snapshot,
             ghost pruned: map<Handle, Node>, ghost isolated: Snapshot, ghost titled: map<Handle, Node>)
    requires soup.Valid() && doc in soup.nodes && soup.nodes[doc].kind == Element(DocumentName)
    modifies soup
    ensures soup.Valid()
    ensures var s := Snapshot(old(soup.nodes), old(soup.rank), old(soup.height), old(soup.next));
            Sound(s, doc) && (WrapFails(s, doc) ==> r == Err(ValueError) && soup.nodes == old(soup.nodes))
    ensures var s := Snapshot(old(soup.nodes), old(soup.rank), old(soup.height), old(soup.next));
            !WrapFails(s, doc) ==> WrapStage(s, doc, wrapped, start)
    ensures var s := Snapshot(old(soup.nodes), old(soup.rank), old(soup.height), old(soup.next));
            !WrapFails(s, doc) ==>
              (ResolveTitle(wrapped.nodes, wrapped.rank, wrapped.height, start, title).Ok? <==>
               title.Some? || FindAll(s.nodes, s.rank, s.height, doc, "html") == [] || HeadOf(s.nodes, s.rank, s.height, doc).Some?)
    ensures var s := Snapshot(old(soup.nodes), old(soup.rank), old(soup.height), old(soup.next));
            !WrapFails(s, doc) && FindAll(s.nodes, s.rank, s.height, doc, "html") == [] && title.None? ==>
              ResolveTitle(wrapped.nodes, wrapped.rank, wrapped.height, start, None) == Ok(DefaultTitle)
    ensures var s := Snapshot(old(soup.nodes), old(soup.rank), old(soup.height), old(soup.next));
            !WrapFails(s, doc) && ResolveTitle(wrapped.nodes, wrapped.rank, wrapped.height, start, title).Ok? ==>
              IsolateStage(wrapped, start, dict, pruned, isolated, root)
    ensures var s := Snapshot(old(soup.nodes), old(soup.rank), old(soup.height), old(soup.next));
            r.Ok? <==>
              && !WrapFails(s, doc)
              && ResolveTitle(wrapped.nodes, wrapped.rank, wrapped.height, start, title).Ok?
              && !IsolateFails(wrapped, start, dict)
              && TitleWritable(isolated.nodes, isolated.rank, isolated.height, root,
                               ResolveTitle(wrapped.nodes, wrapped.rank, wrapped.height, start, title).value)
    ensures r.Ok? ==>
              FinishStage(isolated, root, ResolveTitle(wrapped.nodes, wrapped.rank, wrapped.height, start, title).value,
                          titled, Snapshot(soup.nodes, soup.rank, soup.height, soup.next))
    ensures r.Ok? ==> !Occurs(r.value, "<br>") && !Occurs(r.value, "&nbsp;")
    ensures r.Ok? ==> root in soup.nodes && r.value == FixUp(render(soup.nodes, root))
    ensures r.Ok? ==> forall y :: y in Descendants(soup.nodes, soup.rank, soup.height, root) && soup.nodes[y].kind == Element("img") ==>
                        "src" in soup.nodes[y].attrs
    ensures (FindAll(old(soup.nodes), old(soup.rank), old(soup.height), doc, "html") != [] && title.None? &&
             HeadOf(old(soup.nodes), old(soup.rank), old(soup.height), doc).None?) ==> r == Err(AttributeError)
  {
    ghost var s := Snapshot(soup.nodes, soup.rank, soup.height, soup.next);
    root, start, wrapped, pruned, isolated, titled := doc, doc, s, soup.nodes, s, soup.nodes;
    var w := WrapIfFragment(soup, doc);
    if w.Err? {
      return Err(w.error), root, start, wrapped, pruned, isolated, titled;
    }
    root, start := w.value, w.value;
    wrapped := Snapshot(soup.nodes, soup.rank, soup.height, soup.next);
    if FindAll(s.nodes, s.rank, s.height, doc, "html") == [] {
      ShellTitle(soup.nodes, soup.rank, soup.height, start, s.nodes[doc].children);
    }
    var resolved := ResolveTitle(soup.nodes, soup.rank, soup.height, root, title);
    if resolved.Err? {
      return Err(resolved.error), root, start, wrapped, pruned, isolated, titled;
    }
    r, root, pruned, isolated, titled := CleanWrapped(soup, root, dict, resolved.value, render);
  }

  /**
   * Lines 93-139 on the wrapped document `start` with the resolved title:
   * isolate, then finish.
   */
  method CleanWrapped(soup: Soup, start: Handle, dict: TagDictionary, title: string, render: Render)
    returns (r: Result<string, Error>, root: Handle, ghost pruned: map<Handle, Node>, ghost isolated: Snapshot,
             ghost titled: map<Handle, Node>)
    requires soup.Valid() && start in soup.nodes && soup.nodes[start].kind.Element?
    modifies soup
    ensures soup.Valid()
    ensures var w := Snapshot(old(soup.nodes), old(soup.rank), old(soup.height), old(soup.next));
            Sound(w, start) && IsolateStage(w, start, dict, pruned, isolated, root)
    ensures var w := Snapshot(old(soup.nodes), old(soup.rank), old(soup.height), old(soup.next));
            r.Ok? <==> !IsolateFails(w, start, dict) && TitleWritable(isolated.nodes, isolated.rank, isolated.height, root, title)
    ensures r.Ok? ==> FinishStage(isolated, root, title, titled, Snapshot(soup.nodes, soup.rank, soup.height, soup.next))
    ensures r.Err? && IsolateFails(Snapshot(old(soup.nodes), old(soup.rank), old(soup.height), old(soup.next)), start, dict) ==>
              r == Err(ValueError)
    ensures r.Ok? ==> root in soup.nodes && r.value == FixUp(render(soup.nodes, root))
    ensures r.Ok? ==> forall y :: y in Descendants(soup.nodes, soup.rank, soup.height, root) && soup.nodes[y].kind == Element("img") ==>
                        "src" in soup.nodes[y].attrs
  {
    var i, top;
    i, top, pruned := Isolate(soup, start, dict);
    isolated := Snapshot(soup.nodes, soup.rank, soup.height, soup.next);
    titled := soup.nodes;
    if i.Err? {
      return Err(i.error), start, pruned, isolated, titled;
    }
    root := i.value;
    r, titled := Finish(soup, root, title, render);
  }
}
