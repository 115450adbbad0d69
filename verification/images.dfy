// Removal of `img` elements without a `src` attribute (pypub/clean.py:126-129).

module Images {
  import opened Wrappers
  import opened Tree

  /** The `img` elements among `xs` that carry no `src` attribute. */
  function Unsourced(m: map<Handle, Node>, xs: seq<Handle>): (r: set<Handle>)
    requires forall x :: x in xs ==> x in m
    ensures forall x :: x in r <==> x in xs && m[x].kind == Element("img") && "src" !in m[x].attrs
  {
    set x | x in xs && m[x].kind == Element("img") && "src" !in m[x].attrs
  }

  /** Growing the scanned list by one node adds at most that node. */
  lemma UnsourcedSnoc(m: map<Handle, Node>, xs: seq<Handle>, x: Handle)
    requires (forall y :: y in xs ==> y in m) && x in m
    ensures m[x].kind == Element("img") && "src" !in m[x].attrs ==> Unsourced(m, xs + [x]) == Unsourced(m, xs) + {x}
    ensures !(m[x].kind == Element("img") && "src" !in m[x].attrs) ==> Unsourced(m, xs + [x]) == Unsourced(m, xs)
  {
  }

  /**
   * `m` is `m0` after every node of `gone` was extracted from its parent:
   * those nodes lose their parent, every child list loses them, and
   * nothing else changes.
   */
  ghost predicate Extracted(m0: map<Handle, Node>, m: map<Handle, Node>, gone: set<Handle>)
  {
    m.Keys == m0.Keys && forall x :: x in m0 ==> m[x] == Detached(m0[x], x, gone)
  }

  /** Node `x` once every handle of `gone` has been extracted. */
  function Detached(n: Node, x: Handle, gone: set<Handle>): Node
  {
    n.(children := Keep(n.children, gone), parent := if x in gone then None else n.parent)
  }

  /** Adding a member that is already there leaves a set as it was. */
  lemma Absorb(gone: set<Handle>, x: Handle)
    requires x in gone
    ensures gone + {x} == gone
  {
  }

  /** Extracting a node that was already extracted changes nothing. */
  lemma ExtractAgain(m0: map<Handle, Node>, m: map<Handle, Node>, m': map<Handle, Node>, gone: set<Handle>, x: Handle)
    requires x in m0 && x in gone && Extracted(m0, m, gone)
    requires m'.Keys == m.Keys && m'[x] == m[x].(parent := None)
    requires forall h :: h in m && h != x && Some(h) != m[x].parent ==> m'[h] == m[h]
    ensures Extracted(m0, m', gone + {x})
  {
    assert m[x] == Detached(m0[x], x, gone);
    assert m' == m;
    Absorb(gone, x);
  }

  /** One `extract()` of a node not extracted before. */
  lemma ExtractFresh(m0: map<Handle, Node>, rank: map<Handle, int>, m: map<Handle, Node>, m': map<Handle, Node>,
                     gone: set<Handle>, x: Handle)
    requires m.Keys <= rank.Keys && ChildLinks(m, rank) && ParentLinks(m)
    requires x in m0 && x !in gone && Extracted(m0, m, gone)
    requires m'.Keys == m.Keys && m'[x] == m[x].(parent := None)
    requires m[x].parent.Some? ==>
               var q := m[x].parent.value;
               m'[q] == m[q].(children := Without(m[q].children, x))
    requires forall h :: h in m && h != x && Some(h) != m[x].parent ==> m'[h] == m[h]
    ensures Extracted(m0, m', gone + {x})
  {
    forall y | y in m0
      ensures m'[y] == Detached(m0[y], y, gone + {x})
    {
      assert x in m[y].children ==> m[x].parent == Some(y);
      assert m[x].parent == Some(y) ==> x in m[y].children;
      ExtractAt(m0[y], m[y], m'[y], gone, x, y, m[x].parent);
    }
  }

  /**
   * One node `y` of `ExtractFresh`: `n` is its original state, `before` and
   * `after` its state around extracting `x`, whose parent is `up`.
   */
  lemma ExtractAt(n: Node, before: Node, after: Node, gone: set<Handle>, x: Handle, y: Handle, up: Option<Handle>)
    requires x !in gone && before == Detached(n, y, gone)
    requires x in before.children <==> up == Some(y)
    requires y == x ==> after == before.(parent := None)
    requires up == Some(y) ==> after == before.(children := Without(before.children, x))
    requires y != x && up != Some(y) ==> after == before
    ensures after == Detached(n, y, gone + {x})
  {
    if up == Some(y) {
      assert y != x;
      KeepWithout(n.children, gone, x);
    } else {
      KeepUnlisted(n.children, gone, x);
      if y != x {
        assert (y in gone + {x}) == (y in gone);
      }
    }
  }

  /** Lines 128-129 for the `i`-th image: `if not node.has_attr('src'): node.extract()`. */
  method ExtractIfUnsourced(soup: Soup, ghost m0: map<Handle, Node>, images: seq<Handle>, i: nat)
    requires soup.Valid() && i < |images| && (forall y :: y in images ==> y in m0) && m0[images[i]].kind == Element("img")
    requires Extracted(m0, soup.nodes, Unsourced(m0, images[..i]))
    modifies soup
    ensures soup.Valid() && soup.rank == old(soup.rank) && soup.height == old(soup.height) && soup.next == old(soup.next)
    ensures Extracted(m0, soup.nodes, Unsourced(m0, images[..i + 1]))
  {
    var x := images[i];
    TakeNext(images, i);
    UnsourcedSnoc(m0, images[..i], x);
    if "src" !in soup.nodes[x].attrs {
      ghost var m := soup.nodes;
      soup.Extract(x);
      if x in Unsourced(m0, images[..i]) {
        ExtractAgain(m0, m, soup.nodes, Unsourced(m0, images[..i]), x);
      } else {
        ExtractFresh(m0, soup.rank, m, soup.nodes, Unsourced(m0, images[..i]), x);
      }
    }
  }

  /**
   * Lines 126-129: every `img` element below `root` (in document order)
   * without a `src` attribute is extracted; an `img` whose `src` is
   * present, even empty, stays. Nothing else changes.
   */
  method RemoveImagesWithoutSrc(soup: Soup, root: Handle)
    requires soup.Valid() && root in soup.nodes
    modifies soup
    ensures soup.Valid() && soup.rank == old(soup.rank) && soup.height == old(soup.height) && soup.next == old(soup.next)
    ensures Extracted(old(soup.nodes), soup.nodes,
                      Unsourced(old(soup.nodes), FindAll(old(soup.nodes), old(soup.rank), old(soup.height), root, "img")))
  {
    ghost var m0 := soup.nodes;
    var images := FindAll(soup.nodes, soup.rank, soup.height, root, "img");
    assert Extracted(m0, soup.nodes, {});
    for i := 0 to |images|
      invariant soup.Valid() && soup.rank == old(soup.rank) && soup.height == old(soup.height) && soup.next == old(soup.next)
      invariant Extracted(m0, soup.nodes, Unsourced(m0, images[..i]))
    {
      ExtractIfUnsourced(soup, m0, images, i);
    }
    TakeAll(images);
  }

  /** Afterwards no `img` below `root` lacks a `src` attribute. */
  lemma NoUnsourcedImageBelow(m0: map<Handle, Node>, m: map<Handle, Node>, rank: map<Handle, int>, height: int, root: Handle)
    requires WellFormed(m0, rank, height) && WellFormed(m, rank, height) && root in m0
    requires Extracted(m0, m, Unsourced(m0, FindAll(m0, rank, height, root, "img")))
    ensures forall y :: y in Descendants(m, rank, height, root) && m[y].kind == Element("img") ==> "src" in m[y].attrs
  {
    var gone := Unsourced(m0, FindAll(m0, rank, height, root, "img"));
    forall x, c | x in m && c in m[x].children ensures c in m0[x].children {
      assert m[x].children == Keep(m0[x].children, gone);
    }
    forall y | y in Descendants(m, rank, height, root) && m[y].kind == Element("img") ensures "src" in m[y].attrs {
      FewerLinksFewerBelow(m0, m, rank, height, root, 0, y);
      assert m[y].parent.Some? && m[y].kind == m0[y].kind && m[y].attrs == m0[y].attrs;
    }
  }

  /** An `img` that has a `src` attribute, even an empty one, keeps its place and its attributes. */
  lemma SourcedImageKept(m0: map<Handle, Node>, m: map<Handle, Node>, rank: map<Handle, int>, height: int,
                         root: Handle, y: Handle)
    requires WellFormed(m0, rank, height) && root in m0
    requires Extracted(m0, m, Unsourced(m0, FindAll(m0, rank, height, root, "img")))
    requires y in m0 && m0[y].kind == Element("img") && "src" in m0[y].attrs
    ensures m[y].parent == m0[y].parent && m[y].attrs == m0[y].attrs
    ensures m0[y].parent.Some? ==> y in m[m0[y].parent.value].children
  {
    var gone := Unsourced(m0, FindAll(m0, rank, height, root, "img"));
    assert y !in gone;
    if m0[y].parent.Some? {
      var q := m0[y].parent.value;
      assert y in m0[q].children;
      assert m[q].children == Keep(m0[q].children, gone);
    }
  }
}
