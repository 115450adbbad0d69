// `create_html_from_fragment` (pypub/clean.py:31-53): wraps a tag into a
// fresh `<html><head></head><body>tag</body></html>` document.

module Fragment {
  import opened Wrappers
  import opened Tree

  /** The Python exceptions the cleaning pipeline can raise. */
  datatype Error = TypeError | ValueError | AttributeError

  /**
   * The argument of `create_html_from_fragment`: a node of the arena (a bs4
   * Tag when it is an element, a NavigableString when it is text) or any
   * other Python value.
   */
  datatype Arg = NodeArg(h: Handle) | OtherValue

  /** The name bs4 gives a `BeautifulSoup` document object. */
  const DocumentName := "[document]"

  /** A node standing for a `BeautifulSoup` object, which bs4 names `[document]`. */
  predicate IsDocument(n: Node)
  {
    n.kind == Element(DocumentName)
  }

  /**
   * `doc` is the document `BeautifulSoup('<html><head></head><body></body></html>')`
   * whose body now holds exactly `content`.
   */
  ghost predicate IsShell(m: map<Handle, Node>, doc: Handle, content: seq<Handle>)
  {
    doc in m && m[doc].kind == Element(DocumentName) && m[doc].attrs == map[] && m[doc].parent.None? &&
    |m[doc].children| == 1 &&
    var html := m[doc].children[0];
    html in m && m[html].kind == Element("html") && m[html].attrs == map[] && m[html].parent == Some(doc) &&
    |m[html].children| == 2 &&
    var head := m[html].children[0];
    var body := m[html].children[1];
    head in m && m[head] == Node(Element("head"), map[], [], Some(html)) &&
    body in m && m[body] == Node(Element("body"), map[], content, Some(html)) &&
    forall c :: c in content ==> c in m && m[c].parent == Some(body)
  }

  /**
   * The arena after parsing `'<html><head></head><body></body></html>'`
   * into a fresh document: four new nodes numbered from `doc`.
   */
  function AddShell(m: map<Handle, Node>, doc: Handle): (r: map<Handle, Node>)
    ensures r.Keys == m.Keys + {doc, doc + 1, doc + 2, doc + 3}
  {
    m[doc := Node(Element(DocumentName), map[], [doc + 1], None)]
     [doc + 1 := Node(Element("html"), map[], [doc + 2, doc + 3], Some(doc))]
     [doc + 2 := Node(Element("head"), map[], [], Some(doc + 1))]
     [doc + 3 := Node(Element("body"), map[], [], Some(doc + 1))]
  }

  /** The shell's ranks: the document at `k - 3`, the html element at `k - 2`, head and body at `k - 1`. */
  function ShellRanks(rank: map<Handle, int>, doc: Handle, k: int): map<Handle, int>
  {
    rank[doc := k - 3][doc + 1 := k - 2][doc + 2 := k - 1][doc + 3 := k - 1]
  }

  /** Adding the closed four-node shell keeps the arena well-formed. */
  lemma AddShellWellFormed(m: map<Handle, Node>, rank: map<Handle, int>, height: int, doc: Handle, k: int)
    requires WellFormed(m, rank, height) && (forall h :: h in m ==> h < doc) && k <= height
    ensures WellFormed(AddShell(m, doc), ShellRanks(rank, doc, k), height)
  {
    var m' := AddShell(m, doc);
    var rank' := ShellRanks(rank, doc, k);
    forall x | x in m' ensures rank'[x] < height {
      if x in m {
        assert x < doc;
      }
    }
    AddShellChildLinks(m, rank, height, doc, k);
    AddShellParentLinks(m, rank, height, doc);
    forall x | x in m' ensures Distinct(m'[x].children) && (m'[x].kind.Text? ==> m'[x].children == []) {
      if x in m {
        assert x < doc;
      }
    }
  }

  lemma AddShellChildLinks(m: map<Handle, Node>, rank: map<Handle, int>, height: int, doc: Handle, k: int)
    requires WellFormed(m, rank, height) && (forall h :: h in m ==> h < doc)
    ensures AddShell(m, doc).Keys <= ShellRanks(rank, doc, k).Keys
    ensures ChildLinks(AddShell(m, doc), ShellRanks(rank, doc, k))
  {
    var m' := AddShell(m, doc);
    var rank' := ShellRanks(rank, doc, k);
    forall x, c | x in m' && c in m'[x].children
      ensures c in m' && m'[c].parent == Some(x) && rank'[x] < rank'[c]
    {
      if x in m {
        assert x < doc && c in m[x].children && c < doc;
      }
    }
  }

  lemma AddShellParentLinks(m: map<Handle, Node>, rank: map<Handle, int>, height: int, doc: Handle)
    requires WellFormed(m, rank, height) && (forall h :: h in m ==> h < doc)
    ensures ParentLinks(AddShell(m, doc))
  {
    var m' := AddShell(m, doc);
    forall x | x in m' && m'[x].parent.Some?
      ensures m'[x].parent.value in m' && x in m'[m'[x].parent.value].children
    {
      if x in m {
        assert x < doc && m[x].parent.value < doc;
      }
    }
  }

  /**
   * Appending `tag` to the body of a freshly parsed shell (described by the
   * contract of `Soup.Append`) yields exactly the shell document around
   * `tag`; the tag's former parent loses it and every other node of `m` is
   * unchanged.
   */
  lemma ShellAfterAppend(m: map<Handle, Node>, w: map<Handle, Node>, doc: Handle, tag: Handle)
    requires (forall h :: h in m ==> h < doc) && tag in m
    requires m[tag].parent.Some? ==> m[tag].parent.value in m
    requires var s := AddShell(m, doc);
             w.Keys == s.Keys && w[tag] == s[tag].(parent := Some(doc + 3)) &&
             w[doc + 3] == s[doc + 3].(children := Without(s[doc + 3].children, tag) + [tag]) &&
             (s[tag].parent.Some? && s[tag].parent.value != doc + 3 ==>
                var q := s[tag].parent.value;
                w[q] == s[q].(children := Without(s[q].children, tag))) &&
             (forall h :: h in s && h != tag && h != doc + 3 && Some(h) != s[tag].parent ==> w[h] == s[h])
    ensures Appended(m, w, doc, tag)
  {
    ShellNodesAfterAppend(m, w, doc, tag);
    ShellFrameAfterAppend(m, w, doc, tag);
  }

  lemma ShellNodesAfterAppend(m: map<Handle, Node>, w: map<Handle, Node>, doc: Handle, tag: Handle)
    requires (forall h :: h in m ==> h < doc) && tag in m
    requires m[tag].parent.Some? ==> m[tag].parent.value in m
    requires var s := AddShell(m, doc);
             w.Keys == s.Keys && w[tag] == s[tag].(parent := Some(doc + 3)) &&
             w[doc + 3] == s[doc + 3].(children := Without(s[doc + 3].children, tag) + [tag]) &&
             (s[tag].parent.Some? && s[tag].parent.value != doc + 3 ==>
                var q := s[tag].parent.value;
                w[q] == s[q].(children := Without(s[q].children, tag))) &&
             (forall h :: h in s && h != tag && h != doc + 3 && Some(h) != s[tag].parent ==> w[h] == s[h])
    ensures IsShell(w, doc, [tag]) && w[tag] == m[tag].(parent := Some(doc + 3))
  {
    var s := AddShell(m, doc);
    assert tag < doc && s[tag] == m[tag];
    assert m[tag].parent.Some? ==> m[tag].parent.value < doc;
    assert w[doc] == Node(Element(DocumentName), map[], [doc + 1], None);
    assert w[doc + 1] == Node(Element("html"), map[], [doc + 2, doc + 3], Some(doc));
    assert w[doc + 2] == Node(Element("head"), map[], [], Some(doc + 1));
    assert Without([], tag) == [];
    assert w[doc + 3] == Node(Element("body"), map[], [tag], Some(doc + 1));
  }

  lemma ShellFrameAfterAppend(m: map<Handle, Node>, w: map<Handle, Node>, doc: Handle, tag: Handle)
    requires (forall h :: h in m ==> h < doc) && tag in m
    requires m[tag].parent.Some? ==> m[tag].parent.value in m
    requires var s := AddShell(m, doc);
             w.Keys == s.Keys && w[tag] == s[tag].(parent := Some(doc + 3)) &&
             w[doc + 3] == s[doc + 3].(children := Without(s[doc + 3].children, tag) + [tag]) &&
             (s[tag].parent.Some? && s[tag].parent.value != doc + 3 ==>
                var q := s[tag].parent.value;
                w[q] == s[q].(children := Without(s[q].children, tag))) &&
             (forall h :: h in s && h != tag && h != doc + 3 && Some(h) != s[tag].parent ==> w[h] == s[h])
    ensures doc !in m && m.Keys <= w.Keys
    ensures m[tag].parent.Some? ==>
              var q := m[tag].parent.value;
              q in m && q in w && w[q] == m[q].(children := Without(m[q].children, tag))
    ensures forall x :: x in m && x != tag && Some(x) != m[tag].parent ==> x in w && w[x] == m[x]
  {
    var s := AddShell(m, doc);
    assert tag < doc && s[tag] == m[tag];
    if m[tag].parent.Some? {
      var q := m[tag].parent.value;
      assert q < doc && s[q] == m[q];
    }
    forall x | x in m && x != tag && Some(x) != m[tag].parent ensures x in w && w[x] == m[x] {
      assert x < doc && s[x] == m[x];
    }
  }

  /** `BeautifulSoup('<html><head></head><body></body></html>', 'html.parser')`. */
  method ParseShell(soup: Soup, ghost k: int) returns (doc: Handle)
    requires soup.Valid() && k <= soup.height
    modifies soup
    ensures soup.Valid() && doc == old(soup.next) && soup.next == doc + 4 && soup.height == old(soup.height)
    ensures soup.nodes == AddShell(old(soup.nodes), doc)
    ensures doc + 3 in soup.nodes && soup.nodes[doc + 3].kind == Element("body")
    ensures soup.rank[doc] == k - 3 && soup.rank[doc + 3] == k - 1
    ensures forall h :: h in old(soup.nodes) ==> h in soup.nodes && soup.rank[h] == old(soup.rank)[h]
  {
    doc := soup.next;
    AddShellWellFormed(soup.nodes, soup.rank, soup.height, doc, k);
    soup.nodes := AddShell(soup.nodes, doc);
    soup.rank := ShellRanks(soup.rank, doc, k);
    soup.next := doc + 4;
  }

  /**
   * `m'` is `m` with `tag` moved into the body of the fresh shell document
   * `doc`: the tag keeps its subtree, its former parent loses it, and no
   * other node of `m` changes.
   */
  ghost predicate Appended(m: map<Handle, Node>, m': map<Handle, Node>, doc: Handle, tag: Handle)
    requires tag in m
  {
    doc !in m && IsShell(m', doc, [tag]) && m.Keys <= m'.Keys &&
    m'[tag] == m[tag].(parent := Some(doc + 3)) &&
    (m[tag].parent.Some? ==>
       var q := m[tag].parent.value;
       q in m && q in m' && m'[q] == m[q].(children := Without(m[q].children, tag))) &&
    (forall x :: x in m && x != tag && Some(x) != m[tag].parent ==> x in m' && m'[x] == m[x])
  }

  /**
   * `m'` is `m` with the children of `src`, in order and with their
   * subtrees, moved to the end of the empty `body`; `src` is left empty and
   * no other node changes.
   */
  ghost predicate Spliced(m: map<Handle, Node>, m': map<Handle, Node>, src: Handle, body: Handle)
    requires src in m && body in m
  {
    SplicedUpTo(m, m', src, body, |m[src].children|)
  }

  /** The links once the first `i` children of `src` have moved to `body`. */
  ghost predicate SplicedUpTo(m: map<Handle, Node>, m': map<Handle, Node>, src: Handle, body: Handle, i: nat)
    requires src in m && body in m && i <= |m[src].children|
  {
    var kids := m[src].children;
    && m'.Keys == m.Keys
    && m'[body] == m[body].(children := m[body].children + kids[..i])
    && m'[src] == m[src].(children := kids[i..])
    && (forall j :: 0 <= j < |kids| ==> kids[j] in m && m'[kids[j]] == if j < i then m[kids[j]].(parent := Some(body)) else m[kids[j]])
    && (forall x :: x in m && x != src && x != body && x !in kids ==> m'[x] == m[x])
  }

  /**
   * `body.append(src)` for a `BeautifulSoup` object `src`: bs4 does not nest
   * one document in another but inserts the document's children one at a
   * time, each after the previous one.
   */
  method Splice(soup: Soup, src: Handle, body: Handle)
    requires soup.Valid() && src in soup.nodes && body in soup.nodes && src != body
    requires soup.nodes[body].kind.Element? && soup.nodes[body].children == [] && soup.rank[body] < soup.rank[src]
    modifies soup
    ensures soup.Valid() && soup.rank == old(soup.rank) && soup.height == old(soup.height) && soup.next == old(soup.next)
    ensures Spliced(old(soup.nodes), soup.nodes, src, body)
  {
    ghost var m := soup.nodes;
    var kids := soup.nodes[src].children;
    SpliceFacts(m, soup.rank, soup.height, src, body);
    for i := 0 to |kids|
      invariant soup.Valid() && soup.rank == old(soup.rank) && soup.height == old(soup.height) && soup.next == old(soup.next)
      invariant SplicedUpTo(m, soup.nodes, src, body, i)
    {
      ghost var before := soup.nodes;
      soup.Append(body, kids[i]);
      SpliceStep(m, before, soup.nodes, src, body, i);
    }
  }

  /** What `Splice` relies on about the children of `src`. */
  lemma SpliceFacts(m: map<Handle, Node>, rank: map<Handle, int>, height: int, src: Handle, body: Handle)
    requires WellFormed(m, rank, height) && src in m && body in m && src != body && rank[body] < rank[src]
    requires m[body].children == []
    ensures SplicedUpTo(m, m, src, body, 0)
    ensures Distinct(m[src].children)
    ensures forall c :: c in m[src].children ==> c in m && m[c].parent == Some(src) && rank[body] < rank[c] && c != body && c != src
  {
    var kids := m[src].children;
    assert kids[0..] == kids;
    forall c | c in kids ensures c in m && m[c].parent == Some(src) && rank[src] < rank[c] {
    }
  }

  /** One `body.insert` of the next child of `src`. */
  lemma SpliceStep(m: map<Handle, Node>, before: map<Handle, Node>, after: map<Handle, Node>, src: Handle, body: Handle, i: nat)
    requires src in m && body in m && src != body && i < |m[src].children| && m[body].children == []
    requires Distinct(m[src].children)
    requires forall c :: c in m[src].children ==> c in m && m[c].parent == Some(src) && c != body && c != src
    requires SplicedUpTo(m, before, src, body, i)
    requires var x := m[src].children[i];
             && after.Keys == before.Keys
             && after[x] == before[x].(parent := Some(body))
             && after[body] == before[body].(children := Without(before[body].children, x) + [x])
             && after[src] == before[src].(children := Without(before[src].children, x))
             && forall h :: h in before && h != x && h != body && h != src ==> after[h] == before[h]
    ensures SplicedUpTo(m, after, src, body, i + 1)
  {
    var kids := m[src].children;
    var x := kids[i];
    SliceStep(kids, i);
    forall j | 0 <= j < |kids| && j != i ensures after[kids[j]] == before[kids[j]] {
      assert kids[j] != x;
    }
  }

  /** Moving the `i`-th of distinct handles from the rest of the list to the done part. */
  lemma SliceStep(kids: seq<Handle>, i: nat)
    requires Distinct(kids) && i < |kids|
    ensures Without(kids[i..], kids[i]) == kids[i + 1..]
    ensures kids[..i + 1] == kids[..i] + [kids[i]]
    ensures kids[i] !in kids[..i] && forall j :: 0 <= j < |kids| && j != i ==> kids[j] != kids[i]
  {
    var x := kids[i];
    assert forall j :: 0 <= j < |kids| && j != i ==> kids[j] != x;
    assert x !in kids[i + 1..];
    assert kids[i..] == [x] + kids[i + 1..];
  }

  /** After the splice, the shell holds the former children of `src` in its body. */
  lemma ShellAfterSplice(m: map<Handle, Node>, w: map<Handle, Node>, doc: Handle, src: Handle)
    requires (forall h :: h in m ==> h < doc) && src in m && IsDocument(m[src])
    requires forall c :: c in m[src].children ==> c in m
    requires Spliced(AddShell(m, doc), w, src, doc + 3)
    ensures Wrapped(m, w, doc, src)
  {
    var s := AddShell(m, doc);
    AddShellFacts(m, doc);
    assert src < doc;
    ShellSpliceNodes(s, w, doc, src);
    ShellSpliceFrame(m, s, w, doc, src);
  }

  /** What the parsed shell looks like, spelled out node by node. */
  lemma AddShellFacts(m: map<Handle, Node>, doc: Handle)
    requires forall h :: h in m ==> h < doc
    ensures var s := AddShell(m, doc);
            && s[doc] == Node(Element(DocumentName), map[], [doc + 1], None)
            && s[doc + 1] == Node(Element("html"), map[], [doc + 2, doc + 3], Some(doc))
            && s[doc + 2] == Node(Element("head"), map[], [], Some(doc + 1))
            && s[doc + 3] == Node(Element("body"), map[], [], Some(doc + 1))
            && forall x :: x in m ==> x in s && s[x] == m[x]
  {
    forall x | x in m ensures AddShell(m, doc)[x] == m[x] {
      assert x < doc;
    }
  }

  lemma ShellSpliceNodes(s: map<Handle, Node>, w: map<Handle, Node>, doc: Handle, src: Handle)
    requires src in s && src != doc && src != doc + 1 && src != doc + 2 && src != doc + 3
    requires doc in s && doc + 1 in s && doc + 2 in s && doc + 3 in s
    requires s[doc] == Node(Element(DocumentName), map[], [doc + 1], None)
    requires s[doc + 1] == Node(Element("html"), map[], [doc + 2, doc + 3], Some(doc))
    requires s[doc + 2] == Node(Element("head"), map[], [], Some(doc + 1))
    requires s[doc + 3] == Node(Element("body"), map[], [], Some(doc + 1))
    requires forall c :: c in s[src].children ==> c != doc && c != doc + 1 && c != doc + 2
    requires Spliced(s, w, src, doc + 3)
    ensures IsShell(w, doc, s[src].children)
  {
    var kids := s[src].children;
    assert kids[|kids|..] == [] && kids[..|kids|] == kids;
    forall c | c in kids ensures c in w && w[c].parent == Some(doc + 3) {
      var j :| 0 <= j < |kids| && kids[j] == c;
    }
    assert w[doc] == s[doc] && w[doc + 1] == s[doc + 1] && w[doc + 2] == s[doc + 2];
    assert w[doc + 3] == Node(Element("body"), map[], kids, Some(doc + 1));
  }

  lemma ShellSpliceFrame(m: map<Handle, Node>, s: map<Handle, Node>, w: map<Handle, Node>, doc: Handle, src: Handle)
    requires doc !in m && doc + 3 !in m && doc + 3 in s && src in m && (forall x :: x in m ==> x in s && s[x] == m[x])
    requires forall c :: c in m[src].children ==> c in m
    requires Spliced(s, w, src, doc + 3)
    ensures m.Keys <= w.Keys && w[src] == m[src].(children := [])
    ensures forall c :: c in m[src].children ==> c in m && w[c] == m[c].(parent := Some(doc + 3))
    ensures forall x :: x in m && x != src && x !in m[src].children ==> x in w && w[x] == m[x]
  {
    var kids := m[src].children;
    assert kids[|kids|..] == [];
    forall c | c in kids ensures w[c] == m[c].(parent := Some(doc + 3)) {
      var j :| 0 <= j < |kids| && kids[j] == c;
    }
  }

  /**
   * `m'` is `m` after line 52 put `tag` into the body of the fresh shell
   * document `doc`: a `BeautifulSoup` document has its children spliced in,
   * any other tag is appended itself.
   */
  ghost predicate Wrapped(m: map<Handle, Node>, m': map<Handle, Node>, doc: Handle, tag: Handle)
    requires tag in m
  {
    if IsDocument(m[tag]) then
      doc !in m && IsShell(m', doc, m[tag].children) && m.Keys <= m'.Keys &&
      m'[tag] == m[tag].(children := []) &&
      (forall c :: c in m[tag].children ==> c in m && m'[c] == m[c].(parent := Some(doc + 3))) &&
      (forall x :: x in m && x != tag && x !in m[tag].children ==> x in m' && m'[x] == m[x])
    else
      Appended(m, m', doc, tag)
  }

  /** Lines 51-53: parse the shell and put `tag` into its body. */
  method WrapTag(soup: Soup, tag: Handle) returns (doc: Handle)
    requires soup.Valid() && tag in soup.nodes
    modifies soup
    ensures soup.Valid() && soup.height == old(soup.height)
    ensures forall h :: h in old(soup.nodes) ==> h in soup.nodes && soup.rank[h] == old(soup.rank)[h]
    ensures Wrapped(old(soup.nodes), soup.nodes, doc, tag) && soup.rank[doc] < soup.rank[tag]
  {
    if IsDocument(soup.nodes[tag]) {
      doc := WrapDocument(soup, tag);
    } else {
      doc := WrapElement(soup, tag);
    }
  }

  /** `soup.body.append(tag)` for a `BeautifulSoup` object `tag`: its children move over. */
  method WrapDocument(soup: Soup, tag: Handle) returns (doc: Handle)
    requires soup.Valid() && tag in soup.nodes && IsDocument(soup.nodes[tag])
    modifies soup
    ensures soup.Valid() && soup.height == old(soup.height)
    ensures forall h :: h in old(soup.nodes) ==> h in soup.nodes && soup.rank[h] == old(soup.rank)[h]
    ensures Wrapped(old(soup.nodes), soup.nodes, doc, tag) && soup.rank[doc] < soup.rank[tag]
  {
    ghost var m0 := soup.nodes;
    assert forall c :: c in m0[tag].children ==> c in m0;
    doc := ParseShell(soup, soup.rank[tag]);
    Splice(soup, tag, doc + 3);
    ShellAfterSplice(m0, soup.nodes, doc, tag);
  }

  /** `soup.body.append(tag)` for any other tag: the tag itself moves over. */
  method WrapElement(soup: Soup, tag: Handle) returns (doc: Handle)
    requires soup.Valid() && tag in soup.nodes && !IsDocument(soup.nodes[tag])
    modifies soup
    ensures soup.Valid() && soup.height == old(soup.height)
    ensures forall h :: h in old(soup.nodes) ==> h in soup.nodes && soup.rank[h] == old(soup.rank)[h]
    ensures Wrapped(old(soup.nodes), soup.nodes, doc, tag) && soup.rank[doc] < soup.rank[tag]
  {
    ghost var m0 := soup.nodes;
    assert m0[tag].parent.Some? ==> m0[tag].parent.value in m0;
    doc := ParseShell(soup, soup.rank[tag]);
    soup.Append(doc + 3, tag);
    ShellAfterAppend(m0, soup.nodes, doc, tag);
  }

  /**
   * `create_html_from_fragment`: a TypeError for anything but a Tag; a
   * ValueError, with nothing changed, when the tag has a `body` descendant;
   * otherwise the tag wrapped into a fresh shell document.
   */
  method CreateHtmlFromFragment(soup: Soup, arg: Arg) returns (r: Result<Handle, Error>)
    requires soup.Valid()
    requires arg.NodeArg? ==> arg.h in soup.nodes
    modifies soup
    ensures soup.Valid() && soup.height == old(soup.height)
    ensures forall h :: h in old(soup.nodes) ==> h in soup.nodes && soup.rank[h] == old(soup.rank)[h]
    ensures arg.OtherValue? || old(soup.nodes)[arg.h].kind.Text? ==> r == Err(TypeError) && soup.nodes == old(soup.nodes)
    ensures arg.NodeArg? && old(soup.nodes)[arg.h].kind.Element? &&
            FindAll(old(soup.nodes), old(soup.rank), old(soup.height), arg.h, "body") != [] ==>
              r == Err(ValueError) && soup.nodes == old(soup.nodes)
    ensures arg.NodeArg? && old(soup.nodes)[arg.h].kind.Element? &&
            FindAll(old(soup.nodes), old(soup.rank), old(soup.height), arg.h, "body") == [] ==>
              r.Ok? && Wrapped(old(soup.nodes), soup.nodes, r.value, arg.h) && soup.rank[r.value] < soup.rank[arg.h]
  {
    if arg.OtherValue? || soup.nodes[arg.h].kind.Text? {
      return Err(TypeError);
    }
    if FindAll(soup.nodes, soup.rank, soup.height, arg.h, "body") != [] {
      return Err(ValueError);
    }
    var doc := WrapTag(soup, arg.h);
    r := Ok(doc);
  }
}
