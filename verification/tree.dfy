/**
 * The element tree that the HTML parsing library hands to the sanitiser,
 * modelled as an arena: every node lives in one map under a handle and
 * stores its kind (element with a tag name, or a text string), its
 * attribute map, its ordered child handles and its parent handle.
 *
 * Acyclicity is witnessed by a ghost rank: a parent's rank is below each of
 * its children's ranks, and every rank is below a ghost height. Recursion
 * over descendants descends on `height - rank`.
 */
module Tree {
  import opened Wrappers

  type Handle = nat

  datatype Kind = Element(name: string) | Text(data: string)

  datatype Node = Node(kind: Kind, attrs: map<string, string>, children: seq<Handle>, parent: Option<Handle>)

  /**
   * The arena as it stands at one point of a run, with its witness ranks
   * and the next free handle: used to state how one stage of `clean`
   * feeds the next.
   */
  datatype Snapshot = Snapshot(nodes: map<Handle, Node>, rank: map<Handle, int>, height: int, next: Handle)

  predicate Distinct(cs: seq<Handle>)
  {
    forall i, j :: 0 <= i < j < |cs| ==> cs[i] != cs[j]
  }

  /** `cs` with `x` removed (what `extract` does to the parent's child list). */
  function Without(cs: seq<Handle>, x: Handle): (r: seq<Handle>)
    ensures forall y :: y in r <==> y in cs && y != x
    ensures x !in cs ==> r == cs
    ensures Distinct(cs) ==> Distinct(r)
  {
    if cs == [] then []
    else if cs[0] == x then Without(cs[1..], x)
    else
      var rest := Without(cs[1..], x);
      assert Distinct(cs) ==> cs[0] !in cs[1..];
      DistinctCons(cs[0], rest);
      [cs[0]] + rest
  }

  lemma DistinctCons(a: Handle, s: seq<Handle>)
    ensures Distinct([a] + s) <==> a !in s && Distinct(s)
  {
    if a !in s && Distinct(s) {
      forall i, j | 0 <= i < j < |[a] + s| ensures ([a] + s)[i] != ([a] + s)[j] {
        if i > 0 {
          assert ([a] + s)[i] == s[i - 1];
        }
      }
    }
    if Distinct([a] + s) {
      forall k | 0 <= k < |s| ensures s[k] != a {
        assert ([a] + s)[k + 1] == s[k] && ([a] + s)[0] == a;
        assert 0 < k + 1 < |[a] + s|;
      }
      forall i, j | 0 <= i < j < |s| ensures s[i] != s[j] {
        assert s[i] == ([a] + s)[i + 1] && s[j] == ([a] + s)[j + 1];
      }
    }
  }

  /** `cs` with every member of `gone` removed. */
  function Keep(cs: seq<Handle>, gone: set<Handle>): (r: seq<Handle>)
    ensures forall y :: y in r <==> y in cs && y !in gone
    ensures (forall y :: y in cs ==> y !in gone) ==> r == cs
  {
    if cs == [] then []
    else if cs[0] in gone then Keep(cs[1..], gone)
    else [cs[0]] + Keep(cs[1..], gone)
  }

  /** The handles listed in `cs`. */
  function SetOf(cs: seq<Handle>): (r: set<Handle>)
    ensures forall y :: y in r <==> y in cs
  {
    set y | y in cs
  }

  lemma {:induction false} KeepWithout(cs: seq<Handle>, gone: set<Handle>, x: Handle)
    ensures Without(Keep(cs, gone), x) == Keep(cs, gone + {x})
  {
    if cs != [] {
      KeepWithout(cs[1..], gone, x);
    }
  }

  /** Removing `x` from a list and from one of its prefixes keeps the prefix a prefix. */
  lemma {:induction false} PrefixWithout(a: seq<Handle>, b: seq<Handle>, x: Handle)
    requires a <= b
    ensures Without(a, x) <= Without(b, x)
  {
    if a != [] {
      assert a[1..] <= b[1..];
      PrefixWithout(a[1..], b[1..], x);
    }
  }

  /** Taking one more element of a handle list. */
  lemma TakeNext(s: seq<Handle>, i: nat)
    requires i < |s|
    ensures s[..i + 1] == s[..i] + [s[i]]
  {
  }

  /** Taking the whole handle list. */
  lemma TakeAll(s: seq<Handle>)
    ensures s[..|s|] == s
  {
  }

  /** Adding a handle that is not listed to the removed set changes nothing. */
  lemma {:induction false} KeepUnlisted(cs: seq<Handle>, gone: set<Handle>, x: Handle)
    requires x !in cs
    ensures Keep(cs, gone + {x}) == Keep(cs, gone)
  {
    if cs != [] {
      KeepUnlisted(cs[1..], gone, x);
    }
  }

  /**
   * The element children among `cs`, in order: what
   * `findAll(True, recursive=False)` returns.
   */
  function ElementsOf(m: map<Handle, Node>, cs: seq<Handle>): (r: seq<Handle>)
    requires forall c :: c in cs ==> c in m
    ensures forall y :: y in r <==> y in cs && m[y].kind.Element?
    ensures Distinct(cs) ==> Distinct(r)
  {
    if cs == [] then []
    else if m[cs[0]].kind.Element? then [cs[0]] + ElementsOf(m, cs[1..])
    else ElementsOf(m, cs[1..])
  }

  /** Every node has a rank below `height`. */
  ghost predicate Ranked(m: map<Handle, Node>, rank: map<Handle, int>, height: int)
  {
    m.Keys <= rank.Keys && forall h :: h in m ==> rank[h] < height
  }

  /** No child list repeats a handle, and text nodes have no children. */
  ghost predicate ListsProper(m: map<Handle, Node>)
  {
    forall h :: h in m ==> Distinct(m[h].children) && (m[h].kind.Text? ==> m[h].children == [])
  }

  /** Each child names its parent back, and sits above it in rank. */
  ghost predicate ChildLinks(m: map<Handle, Node>, rank: map<Handle, int>)
    requires m.Keys <= rank.Keys
  {
    forall h, c {:trigger c in m[h].children} :: h in m && c in m[h].children ==> c in m && m[c].parent == Some(h) && rank[h] < rank[c]
  }

  /** Each parent lists its child. */
  ghost predicate ParentLinks(m: map<Handle, Node>)
  {
    forall h {:trigger m[h].parent} :: h in m && m[h].parent.Some? ==> m[h].parent.value in m && h in m[m[h].parent.value].children
  }

  /** The arena is a forest whose parent and child links agree. */
  ghost predicate WellFormed(m: map<Handle, Node>, rank: map<Handle, int>, height: int)
  {
    Ranked(m, rank, height) && ListsProper(m) && ChildLinks(m, rank) && ParentLinks(m)
  }

  /** The descendants contributed by children `i..` of `h`, in document order. */
  function SubtreeFrom(m: map<Handle, Node>, ghost rank: map<Handle, int>, ghost height: int,
                       h: Handle, i: nat): (r: seq<Handle>)
    requires WellFormed(m, rank, height) && h in m && i <= |m[h].children|
    ensures forall x :: x in r ==> x in m && m[x].parent.Some? && rank[x] > rank[h]
    decreases height - rank[h], |m[h].children| - i
  {
    if i == |m[h].children| then []
    else
      var c := m[h].children[i];
      assert c in m[h].children;
      [c] + SubtreeFrom(m, rank, height, c, 0) + SubtreeFrom(m, rank, height, h, i + 1)
  }

  /**
   * All nodes strictly below `h`, in document (pre-)order: the list is
   * empty exactly for a leaf, opens with the first child and holds every
   * child.
   */
  function Descendants(m: map<Handle, Node>, ghost rank: map<Handle, int>, ghost height: int,
                       h: Handle): (r: seq<Handle>)
    requires WellFormed(m, rank, height) && h in m
    ensures forall x :: x in r ==> x in m && m[x].parent.Some? && rank[x] > rank[h]
    ensures |r| == 0 <==> |m[h].children| == 0
    ensures |m[h].children| > 0 ==> r[0] == m[h].children[0]
    ensures forall c :: c in m[h].children ==> c in r
  {
    ChildrenInSubtree(m, rank, height, h);
    SubtreeFrom(m, rank, height, h, 0)
  }

  /** The elements named `name` strictly below `h`, in document order: `h.find_all(name)`. */
  function FindAll(m: map<Handle, Node>, ghost rank: map<Handle, int>, ghost height: int,
                   h: Handle, name: string): (r: seq<Handle>)
    requires WellFormed(m, rank, height) && h in m
    ensures forall x :: x in r <==> x in Descendants(m, rank, height, h) && m[x].kind == Element(name)
  {
    Named(m, Descendants(m, rank, height, h), name)
  }

  function Named(m: map<Handle, Node>, xs: seq<Handle>, name: string): (r: seq<Handle>)
    requires forall x :: x in xs ==> x in m
    ensures forall x :: x in r <==> x in xs && m[x].kind == Element(name)
  {
    if xs == [] then []
    else if m[xs[0]].kind == Element(name) then [xs[0]] + Named(m, xs[1..], name)
    else Named(m, xs[1..], name)
  }

  /** `xs[k]` is an element named `name` and no earlier entry of `xs` is. */
  ghost predicate FirstNamed(m: map<Handle, Node>, xs: seq<Handle>, name: string, k: int)
    requires forall x :: x in xs ==> x in m
  {
    0 <= k < |xs| && m[xs[k]].kind == Element(name) && forall j :: 0 <= j < k ==> m[xs[j]].kind != Element(name)
  }

  /** The head of `Named` is the earliest entry of `xs` with that name. */
  lemma {:induction false} NamedFirst(m: map<Handle, Node>, xs: seq<Handle>, name: string)
    requires (forall x :: x in xs ==> x in m) && Named(m, xs, name) != []
    ensures exists k :: FirstNamed(m, xs, name, k) && xs[k] == Named(m, xs, name)[0]
  {
    if m[xs[0]].kind == Element(name) {
      assert FirstNamed(m, xs, name, 0);
    } else {
      var tail := xs[1..];
      NamedFirst(m, tail, name);
      var k :| FirstNamed(m, tail, name, k) && tail[k] == Named(m, tail, name)[0];
      forall j | 0 <= j < k + 1 ensures m[xs[j]].kind != Element(name) {
        if j > 0 {
          assert xs[j] == tail[j - 1];
        }
      }
      assert FirstNamed(m, xs, name, k + 1) && xs[k + 1] == tail[k];
    }
  }

  /**
   * `h.find(name)`, written `h.name` in bs4: the first element named `name`
   * below `h` in document order.
   */
  function Find(m: map<Handle, Node>, ghost rank: map<Handle, int>, ghost height: int,
                h: Handle, name: string): (r: Option<Handle>)
    requires WellFormed(m, rank, height) && h in m
    ensures r.None? <==> FindAll(m, rank, height, h, name) == []
    ensures r.Some? ==> r.value in Descendants(m, rank, height, h) && m[r.value].kind == Element(name)
    ensures r.Some? ==> var d := Descendants(m, rank, height, h);
                        exists k :: FirstNamed(m, d, name, k) && d[k] == r.value
  {
    var all := FindAll(m, rank, height, h, name);
    if all == [] then None
    else
      NamedFirst(m, Descendants(m, rank, height, h), name);
      Some(all[0])
  }

  /**
   * bs4's `Tag.string`: the text of a node whose only child is a string,
   * looked up through a chain of single-element children; None otherwise.
   */
  function StringOf(m: map<Handle, Node>, ghost rank: map<Handle, int>, ghost height: int,
                    h: Handle): (r: Option<string>)
    requires WellFormed(m, rank, height) && h in m
    ensures r.Some? ==> |m[h].children| == 1
    ensures r.Some? ==> exists d :: d in Descendants(m, rank, height, h) && m[d].kind == Text(r.value)
    decreases height - rank[h]
  {
    if |m[h].children| != 1 then None
    else
      var c := m[h].children[0];
      assert c in m[h].children;
      if m[c].kind.Text? then Some(m[c].kind.data)
      else
        DescendantsNest(m, rank, height, h, c);
        StringOf(m, rank, height, c)
  }

  // ---------------------------------------------------------------------------
  // Facts about descendants.

  /** Child `j` of `h` belongs to the descendants contributed by children `i..`. */
  lemma {:induction false} ChildInSubtree(m: map<Handle, Node>, rank: map<Handle, int>, height: int,
                                          h: Handle, i: nat, j: nat)
    requires WellFormed(m, rank, height) && h in m && i <= j < |m[h].children|
    ensures m[h].children[j] in SubtreeFrom(m, rank, height, h, i)
    decreases j - i
  {
    var c := m[h].children[i];
    assert c in m[h].children;
    var rest := SubtreeFrom(m, rank, height, h, i + 1);
    assert SubtreeFrom(m, rank, height, h, i) == [c] + SubtreeFrom(m, rank, height, c, 0) + rest;
    if i < j {
      ChildInSubtree(m, rank, height, h, i + 1, j);
      assert m[h].children[j] in rest;
    }
  }

  /** Below is transitive: the descendants of a descendant are descendants. */
  lemma {:induction false} SubtreeTransitive(m: map<Handle, Node>, rank: map<Handle, int>, height: int,
                                             h: Handle, i: nat, x: Handle, y: Handle)
    requires WellFormed(m, rank, height) && h in m && i <= |m[h].children|
    requires x in SubtreeFrom(m, rank, height, h, i) && y in Descendants(m, rank, height, x)
    ensures y in SubtreeFrom(m, rank, height, h, i)
    decreases height - rank[h], |m[h].children| - i
  {
    var c := m[h].children[i];
    if x == c {
    } else if x in SubtreeFrom(m, rank, height, c, 0) {
      SubtreeTransitive(m, rank, height, c, 0, x, y);
    } else {
      SubtreeTransitive(m, rank, height, h, i + 1, x, y);
    }
  }

  /** Every child of `h` is among the descendants `SubtreeFrom(h, 0)` lists. */
  lemma ChildrenInSubtree(m: map<Handle, Node>, rank: map<Handle, int>, height: int, h: Handle)
    requires WellFormed(m, rank, height) && h in m
    ensures forall c :: c in m[h].children ==> c in SubtreeFrom(m, rank, height, h, 0)
  {
    forall c | c in m[h].children ensures c in SubtreeFrom(m, rank, height, h, 0) {
      var j :| 0 <= j < |m[h].children| && m[h].children[j] == c;
      ChildInSubtree(m, rank, height, h, 0, j);
    }
  }

  /** What lies below a descendant `x` of `h` lies below `h`. */
  lemma DescendantsNest(m: map<Handle, Node>, rank: map<Handle, int>, height: int, h: Handle, x: Handle)
    requires WellFormed(m, rank, height) && h in m && x in Descendants(m, rank, height, h)
    ensures forall y :: y in Descendants(m, rank, height, x) ==> y in Descendants(m, rank, height, h)
  {
    forall y | y in Descendants(m, rank, height, x) ensures y in Descendants(m, rank, height, h) {
      SubtreeTransitive(m, rank, height, h, 0, x, y);
    }
  }

  /** Every child of `root` or of one of its descendants is a descendant of `root`. */
  lemma ChildOfDescendant(m: map<Handle, Node>, rank: map<Handle, int>, height: int,
                          root: Handle, x: Handle, c: Handle)
    requires WellFormed(m, rank, height) && root in m
    requires x == root || x in Descendants(m, rank, height, root)
    requires x in m && c in m[x].children
    ensures c in Descendants(m, rank, height, root)
  {
    var j :| 0 <= j < |m[x].children| && m[x].children[j] == c;
    ChildInSubtree(m, rank, height, x, 0, j);
    if x != root {
      SubtreeTransitive(m, rank, height, root, 0, x, c);
    }
  }

  /**
   * A set of elements closed under element children, starting from `root`,
   * contains every element below `root`.
   */
  lemma {:induction false} ClosedContainsBelow(m: map<Handle, Node>, rank: map<Handle, int>, height: int,
                                               root: Handle, s: set<Handle>, h: Handle, i: nat)
    requires WellFormed(m, rank, height) && root in m
    requires forall x, c :: (x == root || x in s) && x in m && c in m[x].children && m[c].kind.Element? ==> c in s
    requires (h == root || h in s) && h in m && i <= |m[h].children|
    ensures forall y :: y in SubtreeFrom(m, rank, height, h, i) && m[y].kind.Element? ==> y in s
    decreases height - rank[h], |m[h].children| - i
  {
    if i < |m[h].children| {
      var c := m[h].children[i];
      assert c in m[h].children;
      if m[c].kind.Element? {
        ClosedContainsBelow(m, rank, height, root, s, c, 0);
      } else {
        assert SubtreeFrom(m, rank, height, c, 0) == [];
      }
      ClosedContainsBelow(m, rank, height, root, s, h, i + 1);
    }
  }

  /**
   * A set whose members each have `root` or another member as parent lies
   * below `root`.
   */
  lemma {:induction false} ParentChainBelow(m: map<Handle, Node>, rank: map<Handle, int>, height: int,
                                            root: Handle, s: set<Handle>, x: Handle)
    requires WellFormed(m, rank, height) && root in m
    requires forall y :: y in s ==> y in m && m[y].parent.Some? && rank[y] > rank[root] &&
                                    (m[y].parent.value == root || m[y].parent.value in s)
    requires x in s
    ensures x in Descendants(m, rank, height, root)
    decreases rank[x] - rank[root]
  {
    var p := m[x].parent.value;
    if p != root {
      ParentChainBelow(m, rank, height, root, s, p);
    }
    ChildOfDescendant(m, rank, height, root, p, x);
  }

  /** Removing child links only shrinks the set of descendants. */
  lemma {:induction false} FewerLinksFewerBelow(m1: map<Handle, Node>, m2: map<Handle, Node>,
                                                rank: map<Handle, int>, height: int, h: Handle, i: nat, y: Handle)
    requires WellFormed(m1, rank, height) && WellFormed(m2, rank, height)
    requires m2.Keys == m1.Keys
    requires forall x, c :: x in m2 && c in m2[x].children ==> c in m1[x].children
    requires h in m2 && i <= |m2[h].children|
    requires y in SubtreeFrom(m2, rank, height, h, i)
    ensures y in Descendants(m1, rank, height, h)
    decreases height - rank[h], |m2[h].children| - i
  {
    var c := m2[h].children[i];
    ChildOfDescendant(m1, rank, height, h, h, c);
    if y == c {
    } else if y in SubtreeFrom(m2, rank, height, c, 0) {
      FewerLinksFewerBelow(m1, m2, rank, height, c, 0, y);
      SubtreeTransitive(m1, rank, height, h, 0, c, y);
    } else {
      FewerLinksFewerBelow(m1, m2, rank, height, h, i + 1, y);
    }
  }

  /** An element that is the first child of `h` is what `h.find(name)` returns for its name. */
  lemma FirstChildFound(m: map<Handle, Node>, rank: map<Handle, int>, height: int, h: Handle, name: string)
    requires WellFormed(m, rank, height) && h in m && |m[h].children| > 0
    requires m[h].children[0] in m && m[m[h].children[0]].kind == Element(name)
    ensures Find(m, rank, height, h, name) == Some(m[h].children[0])
  {
    var c := m[h].children[0];
    var d := Descendants(m, rank, height, h);
    assert d == [c] + SubtreeFrom(m, rank, height, c, 0) + SubtreeFrom(m, rank, height, h, 1);
    assert d[0] == c;
    assert FindAll(m, rank, height, h, name) == [c] + Named(m, d[1..], name);
  }

  lemma LastNotBefore(a: seq<Handle>, x: Handle)
    requires Distinct(a + [x])
    ensures x !in a && Distinct(a)
  {
    forall i | 0 <= i < |a| ensures a[i] != x {
      assert (a + [x])[i] == a[i] && (a + [x])[|a|] == x;
    }
    forall i, j | 0 <= i < j < |a| ensures a[i] != a[j] {
      assert (a + [x])[i] == a[i] && (a + [x])[j] == a[j];
    }
  }

  lemma DistinctConcat(a: seq<Handle>, b: seq<Handle>)
    requires Distinct(a) && Distinct(b) && forall x :: x in a ==> x !in b
    ensures Distinct(a + b)
  {
    forall i, j | 0 <= i < j < |a + b| ensures (a + b)[i] != (a + b)[j] {
      if j < |a| {
      } else if i >= |a| {
        assert (a + b)[i] == b[i - |a|] && (a + b)[j] == b[j - |a|];
      } else {
        assert (a + b)[i] in a && (a + b)[j] == b[j - |a|];
      }
    }
  }

  /** Keep only the attributes named in `allowed`, with their values. */
  function Restrict(attrs: map<string, string>, allowed: set<string>): (r: map<string, string>)
    ensures r.Keys == attrs.Keys * allowed
    ensures forall k :: k in r ==> r[k] == attrs[k]
  {
    map k | k in attrs && k in allowed :: attrs[k]
  }

  // ---------------------------------------------------------------------------
  // The link updates behind `extract`, `append` and `insert`, on the map.

  /** `n` unlinked from its parent; `n` keeps its own subtree. */
  function Detach(m: map<Handle, Node>, ghost rank: map<Handle, int>, ghost height: int, n: Handle): (r: map<Handle, Node>)
    requires WellFormed(m, rank, height) && n in m
    ensures r.Keys == m.Keys
    ensures r[n] == m[n].(parent := None)
    ensures m[n].parent.Some? ==>
              var q := m[n].parent.value;
              q != n && r[q] == m[q].(children := Without(m[q].children, n))
    ensures forall h :: h in m && h != n && Some(h) != m[n].parent ==> r[h] == m[h]
  {
    var q := m[n].parent;
    var m1 := if q.Some? then m[q.value := m[q.value].(children := Without(m[q.value].children, n))] else m;
    m1[n := m1[n].(parent := None)]
  }

  lemma DetachWellFormed(m: map<Handle, Node>, rank: map<Handle, int>, height: int, n: Handle)
    requires WellFormed(m, rank, height) && n in m
    ensures WellFormed(Detach(m, rank, height, n), rank, height)
  {
    DetachChildLinks(m, rank, height, n);
    DetachParentLinks(m, rank, height, n);
    DetachListsProper(m, rank, height, n);
  }

  lemma DetachChildLinks(m: map<Handle, Node>, rank: map<Handle, int>, height: int, n: Handle)
    requires WellFormed(m, rank, height) && n in m
    ensures ChildLinks(Detach(m, rank, height, n), rank)
  {
    var r := Detach(m, rank, height, n);
    forall h, c | h in r && c in r[h].children
      ensures c in r && r[c].parent == Some(h) && rank[h] < rank[c]
    {
      assert c in m[h].children;
    }
  }

  lemma DetachParentLinks(m: map<Handle, Node>, rank: map<Handle, int>, height: int, n: Handle)
    requires WellFormed(m, rank, height) && n in m
    ensures ParentLinks(Detach(m, rank, height, n))
  {
    var r := Detach(m, rank, height, n);
    forall h | h in r && r[h].parent.Some?
      ensures r[h].parent.value in r && h in r[r[h].parent.value].children
    {
      var p := r[h].parent.value;
      assert h != n && m[h].parent == Some(p) && h in m[p].children;
    }
  }

  lemma DetachListsProper(m: map<Handle, Node>, rank: map<Handle, int>, height: int, n: Handle)
    requires WellFormed(m, rank, height) && n in m
    ensures ListsProper(Detach(m, rank, height, n))
  {
    var r := Detach(m, rank, height, n);
    forall h | h in r ensures Distinct(r[h].children) && (r[h].kind.Text? ==> r[h].children == []) {
      assert Distinct(m[h].children) && (m[h].kind.Text? ==> m[h].children == []);
    }
  }

  /** Detached `n` added to `p`'s children, at the front or at the end. */
  function Attach(m: map<Handle, Node>, ghost rank: map<Handle, int>, ghost height: int,
                  p: Handle, n: Handle, front: bool): (r: map<Handle, Node>)
    requires WellFormed(m, rank, height) && p in m && n in m && m[n].parent.None? && rank[p] < rank[n]
    ensures r.Keys == m.Keys
    ensures r[n] == m[n].(parent := Some(p))
    ensures r[p] == m[p].(children := if front then [n] + m[p].children else m[p].children + [n])
    ensures forall h :: h in m && h != n && h != p ==> r[h] == m[h]
  {
    var cs := m[p].children;
    m[p := m[p].(children := if front then [n] + cs else cs + [n])][n := m[n].(parent := Some(p))]
  }

  lemma AttachWellFormed(m: map<Handle, Node>, rank: map<Handle, int>, height: int, p: Handle, n: Handle, front: bool)
    requires WellFormed(m, rank, height) && p in m && n in m && m[n].parent.None? && rank[p] < rank[n]
    requires m[p].kind.Element?
    ensures WellFormed(Attach(m, rank, height, p, n, front), rank, height)
  {
    AttachChildLinks(m, rank, height, p, n, front);
    AttachParentLinks(m, rank, height, p, n, front);
    AttachListsProper(m, rank, height, p, n, front);
  }

  lemma AttachChildLinks(m: map<Handle, Node>, rank: map<Handle, int>, height: int, p: Handle, n: Handle, front: bool)
    requires WellFormed(m, rank, height) && p in m && n in m && m[n].parent.None? && rank[p] < rank[n]
    ensures ChildLinks(Attach(m, rank, height, p, n, front), rank)
  {
    var r := Attach(m, rank, height, p, n, front);
    forall h, c | h in r && c in r[h].children
      ensures c in r && r[c].parent == Some(h) && rank[h] < rank[c]
    {
      if h != p {
        assert c in m[h].children;
      }
    }
  }

  lemma AttachParentLinks(m: map<Handle, Node>, rank: map<Handle, int>, height: int, p: Handle, n: Handle, front: bool)
    requires WellFormed(m, rank, height) && p in m && n in m && m[n].parent.None? && rank[p] < rank[n]
    ensures ParentLinks(Attach(m, rank, height, p, n, front))
  {
    var r := Attach(m, rank, height, p, n, front);
    forall h | h in r && r[h].parent.Some?
      ensures r[h].parent.value in r && h in r[r[h].parent.value].children
    {
      if h != n {
        assert m[h].parent == r[h].parent;
      }
    }
  }

  lemma AttachListsProper(m: map<Handle, Node>, rank: map<Handle, int>, height: int, p: Handle, n: Handle, front: bool)
    requires WellFormed(m, rank, height) && p in m && n in m && m[n].parent.None? && rank[p] < rank[n]
    requires m[p].kind.Element?
    ensures ListsProper(Attach(m, rank, height, p, n, front))
  {
    var r := Attach(m, rank, height, p, n, front);
    assert n !in m[p].children;
    forall h | h in r ensures Distinct(r[h].children) && (r[h].kind.Text? ==> r[h].children == []) {
      if h == p {
        if front {
          DistinctConcat([n], m[p].children);
        } else {
          DistinctConcat(m[p].children, [n]);
        }
      } else {
        assert Distinct(m[h].children) && (m[h].kind.Text? ==> m[h].children == []);
      }
    }
  }

  /** `n` unlinked from wherever it was and added to `p`'s children. */
  function Move(m: map<Handle, Node>, ghost rank: map<Handle, int>, ghost height: int,
                p: Handle, n: Handle, front: bool): (r: map<Handle, Node>)
    requires WellFormed(m, rank, height) && p in m && n in m && rank[p] < rank[n]
    ensures r.Keys == m.Keys
    ensures r[n] == m[n].(parent := Some(p))
    ensures r[p] == m[p].(children := if front then [n] + Without(m[p].children, n) else Without(m[p].children, n) + [n])
    ensures m[n].parent.Some? && m[n].parent.value != p ==>
              var q := m[n].parent.value;
              r[q] == m[q].(children := Without(m[q].children, n))
    ensures forall h :: h in m && h != n && h != p && Some(h) != m[n].parent ==> r[h] == m[h]
  {
    DetachWellFormed(m, rank, height, n);
    var m1 := Detach(m, rank, height, n);
    assert m[n].parent != Some(p) ==> m1[p] == m[p] && n !in m[p].children;
    Attach(m1, rank, height, p, n, front)
  }

  lemma MoveWellFormed(m: map<Handle, Node>, rank: map<Handle, int>, height: int, p: Handle, n: Handle, front: bool)
    requires WellFormed(m, rank, height) && p in m && n in m && rank[p] < rank[n]
    requires m[p].kind.Element?
    ensures WellFormed(Move(m, rank, height, p, n, front), rank, height)
  {
    DetachWellFormed(m, rank, height, n);
    AttachWellFormed(Detach(m, rank, height, n), rank, height, p, n, front);
  }

  /** Every child of `h` unlinked; each keeps its own subtree. */
  function Cleared(m: map<Handle, Node>, ghost rank: map<Handle, int>, ghost height: int, h: Handle): (r: map<Handle, Node>)
    requires WellFormed(m, rank, height) && h in m
    ensures r.Keys == m.Keys
    ensures r[h] == m[h].(children := [])
    ensures forall c :: c in m[h].children ==> r[c] == m[c].(parent := None)
    ensures forall x :: x in m && x != h && x !in m[h].children ==> r[x] == m[x]
  {
    assert h !in m[h].children;
    map x | x in m :: if x == h then m[h].(children := []) else if x in m[h].children then m[x].(parent := None) else m[x]
  }

  /** A node appears only in the child list of the parent it names. */
  lemma NotListedElsewhere(m: map<Handle, Node>, rank: map<Handle, int>, height: int, h: Handle, c: Handle)
    requires WellFormed(m, rank, height) && h in m && c in m && m[c].parent != Some(h)
    ensures c !in m[h].children
  {
  }

  lemma ClearedWellFormed(m: map<Handle, Node>, rank: map<Handle, int>, height: int, h: Handle)
    requires WellFormed(m, rank, height) && h in m
    ensures WellFormed(Cleared(m, rank, height, h), rank, height)
  {
    ClearedChildLinks(m, rank, height, h);
    ClearedParentLinks(m, rank, height, h);
    ClearedListsProper(m, rank, height, h);
  }

  lemma ClearedChildLinks(m: map<Handle, Node>, rank: map<Handle, int>, height: int, h: Handle)
    requires WellFormed(m, rank, height) && h in m
    ensures ChildLinks(Cleared(m, rank, height, h), rank)
  {
    var r := Cleared(m, rank, height, h);
    forall x, c | x in r && c in r[x].children
      ensures c in r && r[c].parent == Some(x) && rank[x] < rank[c]
    {
      assert x != h;
      assert r[x].children == m[x].children;
      assert m[c].parent == Some(x);
      NotListedElsewhere(m, rank, height, h, c);
      if c != h {
        assert r[c] == m[c];
      }
    }
  }

  lemma ClearedParentLinks(m: map<Handle, Node>, rank: map<Handle, int>, height: int, h: Handle)
    requires WellFormed(m, rank, height) && h in m
    ensures ParentLinks(Cleared(m, rank, height, h))
  {
    var r := Cleared(m, rank, height, h);
    forall x | x in r && r[x].parent.Some?
      ensures r[x].parent.value in r && x in r[r[x].parent.value].children
    {
      assert x !in m[h].children && m[x].parent == r[x].parent;
    }
  }

  lemma ClearedListsProper(m: map<Handle, Node>, rank: map<Handle, int>, height: int, h: Handle)
    requires WellFormed(m, rank, height) && h in m
    ensures ListsProper(Cleared(m, rank, height, h))
  {
    var r := Cleared(m, rank, height, h);
    forall x | x in r ensures Distinct(r[x].children) && (r[x].kind.Text? ==> r[x].children == []) {
      assert Distinct(m[x].children) && (m[x].kind.Text? ==> m[x].children == []);
    }
  }

  /**
   * `m'` is `m` after `h.string = text`: the former children of `h` are
   * detached, the fresh text node `t` holding `text` is its only child, and
   * no other node changes.
   */
  ghost predicate Stringed(m: map<Handle, Node>, m': map<Handle, Node>, h: Handle, t: Handle, text: string)
  {
    && h in m && t !in m && m'.Keys == m.Keys + {t}
    && m'[h] == m[h].(children := [t])
    && m'[t] == Node(Text(text), map[], [], Some(h))
    && (forall c :: c in m[h].children ==> c in m && m'[c] == m[c].(parent := None))
    && (forall x :: x in m && x != h && x !in m[h].children ==> m'[x] == m[x])
  }

  /** A fresh node without links, given rank `r` below `height`. */
  lemma AddLeafWellFormed(m: map<Handle, Node>, rank: map<Handle, int>, height: int,
                          h: Handle, kind: Kind, r: int, height': int)
    requires WellFormed(m, rank, height) && h !in m && height <= height' && r < height'
    ensures WellFormed(m[h := Node(kind, map[], [], None)], rank[h := r], height')
  {
    var m' := m[h := Node(kind, map[], [], None)];
    var rank' := rank[h := r];
    forall x, c | x in m' && c in m'[x].children
      ensures c in m' && m'[c].parent == Some(x) && rank'[x] < rank'[c]
    {
      assert x != h && c in m[x].children && c != h;
    }
    forall x | x in m' && m'[x].parent.Some?
      ensures m'[x].parent.value in m' && x in m'[m'[x].parent.value].children
    {
      assert x != h && m[x].parent.value != h;
    }
    forall x | x in m' ensures Distinct(m'[x].children) {
      if x != h {
        assert Distinct(m[x].children);
      }
    }
  }

  /** Changing a node's attributes leaves the links alone. */
  lemma SetAttrsWellFormed(m: map<Handle, Node>, rank: map<Handle, int>, height: int, h: Handle, a: map<string, string>)
    requires WellFormed(m, rank, height) && h in m
    ensures WellFormed(m[h := m[h].(attrs := a)], rank, height)
  {
    var m' := m[h := m[h].(attrs := a)];
    forall x | x in m' ensures m'[x].children == m[x].children && m'[x].parent == m[x].parent && m'[x].kind == m[x].kind {
    }
  }

  /**
   * The mutable tree the parsing library produces: an arena of nodes
   * addressed by handle, with a counter for fresh handles.
   */
  class Soup {
    var nodes: map<Handle, Node>
    var next: Handle
    ghost var rank: map<Handle, int>
    ghost var height: int

    /**
     * The arena is well formed and every handle is below `next`. Comparing
     * with `true` keeps callers from splitting this into one proof
     * obligation per conjunct of `WellFormed`.
     */
    ghost predicate Valid()
      reads this
    {
      (WellFormed(nodes, rank, height) && (forall h :: h in nodes ==> h < next)) == true
    }

    /** Adopts the arena produced by parsing. */
    constructor (m: map<Handle, Node>, next0: Handle, ghost rank0: map<Handle, int>, ghost height0: int)
      requires WellFormed(m, rank0, height0) && forall h :: h in m ==> h < next0
      ensures Valid() && nodes == m && next == next0 && rank == rank0 && height == height0
    {
      nodes, next, rank, height := m, next0, rank0, height0;
    }

    /** `new_tag(name)` or a new string: a fresh detached node without children. */
    method NewNode(kind: Kind, ghost r: int) returns (h: Handle)
      requires Valid()
      modifies this
      ensures Valid() && h == old(next) && h !in old(nodes) && next == old(next) + 1
      ensures nodes == old(nodes)[h := Node(kind, map[], [], None)]
      ensures rank == old(rank)[h := r] && height >= old(height)
    {
      h := next;
      ghost var height' := if r < height then height else r + 1;
      AddLeafWellFormed(nodes, rank, height, h, kind, r, height');
      nodes := nodes[h := Node(kind, map[], [], None)];
      rank := rank[h := r];
      height := height';
      next := next + 1;
    }

    /** `extract()`: unlink `n` from its parent; `n` keeps its own subtree. */
    method Extract(n: Handle)
      requires Valid() && n in nodes
      modifies this
      ensures Valid() && rank == old(rank) && height == old(height) && next == old(next)
      ensures nodes.Keys == old(nodes).Keys
      ensures nodes[n] == old(nodes[n]).(parent := None)
      ensures old(nodes[n].parent).Some? ==>
                var q := old(nodes[n].parent).value;
                nodes[q] == old(nodes[q]).(children := Without(old(nodes[q].children), n))
      ensures forall h :: h in old(nodes) && h != n && Some(h) != old(nodes[n].parent) ==> nodes[h] == old(nodes[h])
    {
      DetachWellFormed(nodes, rank, height, n);
      nodes := Detach(nodes, rank, height, n);
    }

    /** `p.append(n)`: move `n` (with its subtree) to the end of `p`'s children. */
    method Append(p: Handle, n: Handle)
      requires Valid() && p in nodes && n in nodes && nodes[p].kind.Element? && rank[p] < rank[n]
      modifies this
      ensures Valid() && rank == old(rank) && height == old(height) && next == old(next)
      ensures nodes.Keys == old(nodes).Keys
      ensures nodes[n] == old(nodes[n]).(parent := Some(p))
      ensures nodes[p] == old(nodes[p]).(children := Without(old(nodes[p].children), n) + [n])
      ensures old(nodes[n].parent).Some? && old(nodes[n].parent).value != p ==>
                var q := old(nodes[n].parent).value;
                nodes[q] == old(nodes[q]).(children := Without(old(nodes[q].children), n))
      ensures forall h :: h in old(nodes) && h != n && h != p && Some(h) != old(nodes[n].parent) ==>
                nodes[h] == old(nodes[h])
    {
      MoveWellFormed(nodes, rank, height, p, n, false);
      nodes := Move(nodes, rank, height, p, n, false);
    }

    /** `p.insert(0, n)`: move `n` (with its subtree) to the front of `p`'s children. */
    method InsertFirst(p: Handle, n: Handle)
      requires Valid() && p in nodes && n in nodes && nodes[p].kind.Element? && rank[p] < rank[n]
      modifies this
      ensures Valid() && rank == old(rank) && height == old(height) && next == old(next)
      ensures nodes.Keys == old(nodes).Keys
      ensures nodes[n] == old(nodes[n]).(parent := Some(p))
      ensures nodes[p] == old(nodes[p]).(children := [n] + Without(old(nodes[p].children), n))
      ensures old(nodes[n].parent).Some? && old(nodes[n].parent).value != p ==>
                var q := old(nodes[n].parent).value;
                nodes[q] == old(nodes[q]).(children := Without(old(nodes[q].children), n))
      ensures forall h :: h in old(nodes) && h != n && h != p && Some(h) != old(nodes[n].parent) ==>
                nodes[h] == old(nodes[h])
    {
      MoveWellFormed(nodes, rank, height, p, n, true);
      nodes := Move(nodes, rank, height, p, n, true);
    }

    /** `h[key] = value`. */
    method SetAttribute(h: Handle, key: string, value: string)
      requires Valid() && h in nodes
      modifies this
      ensures Valid() && rank == old(rank) && height == old(height) && next == old(next)
      ensures nodes == old(nodes)[h := old(nodes[h]).(attrs := old(nodes[h].attrs)[key := value])]
    {
      SetAttrsWellFormed(nodes, rank, height, h, nodes[h].attrs[key := value]);
      nodes := nodes[h := nodes[h].(attrs := nodes[h].attrs[key := value])];
    }

    /**
     * The attribute loop of `clean`: pop every attribute of `h` whose name
     * is not in `allowed`; the others keep their values.
     */
    method FilterAttributes(h: Handle, allowed: set<string>)
      requires Valid() && h in nodes
      modifies this
      ensures Valid() && rank == old(rank) && height == old(height) && next == old(next)
      ensures nodes == old(nodes)[h := old(nodes[h]).(attrs := Restrict(old(nodes[h].attrs), allowed))]
    {
      ghost var a0 := nodes[h].attrs;
      var pending := nodes[h].attrs.Keys;
      while pending != {}
        invariant Valid() && rank == old(rank) && height == old(height) && next == old(next)
        invariant h in nodes && pending <= a0.Keys
        invariant nodes == old(nodes)[h := old(nodes[h]).(attrs := nodes[h].attrs)]
        invariant nodes[h].attrs == map k | k in a0 && (k in pending || k in allowed) :: a0[k]
        decreases pending
      {
        var k :| k in pending;
        if k !in allowed {
          SetAttrsWellFormed(nodes, rank, height, h, nodes[h].attrs - {k});
          nodes := nodes[h := nodes[h].(attrs := nodes[h].attrs - {k})];
        }
        pending := pending - {k};
      }
      assert nodes[h].attrs == Restrict(a0, allowed);
    }

    /** `h.clear()`: unlink every child of `h`; each keeps its own subtree. */
    method ClearChildren(h: Handle)
      requires Valid() && h in nodes
      modifies this
      ensures Valid() && rank == old(rank) && height == old(height) && next == old(next)
      ensures nodes.Keys == old(nodes).Keys
      ensures nodes[h] == old(nodes[h]).(children := [])
      ensures forall c :: c in old(nodes[h].children) ==> nodes[c] == old(nodes[c]).(parent := None)
      ensures forall x :: x in old(nodes) && x != h && x !in old(nodes[h].children) ==> nodes[x] == old(nodes[x])
    {
      ClearedWellFormed(nodes, rank, height, h);
      nodes := Cleared(nodes, rank, height, h);
    }

    /** `h.append(text)` for a fresh string: a new text node becomes the last child of `h`. */
    method AppendText(h: Handle, text: string) returns (t: Handle)
      requires Valid() && h in nodes && nodes[h].kind.Element?
      modifies this
      ensures Valid() && t == old(next) && t !in old(nodes) && next == old(next) + 1
      ensures rank == old(rank)[t := old(rank)[h] + 1] && height >= old(height)
      ensures nodes == old(nodes)[h := old(nodes[h]).(children := old(nodes[h].children) + [t])]
                                 [t := Node(Text(text), map[], [], Some(h))]
    {
      ghost var m0 := nodes;
      t := NewNode(Text(text), rank[h] + 1);
      Append(h, t);
      assert Without(m0[h].children, t) == m0[h].children;
      assert nodes == m0[h := m0[h].(children := m0[h].children + [t])][t := Node(Text(text), map[], [], Some(h))];
    }

    /** `h.string = text`: `h.clear()`, then a fresh text node as its only child. */
    method SetString(h: Handle, text: string) returns (t: Handle)
      requires Valid() && h in nodes && nodes[h].kind.Element?
      modifies this
      ensures Valid() && t == old(next) && t !in old(nodes) && next == old(next) + 1
      ensures rank == old(rank)[t := old(rank)[h] + 1] && height >= old(height)
      ensures Stringed(old(nodes), nodes, h, t, text)
    {
      ghost var m0 := nodes;
      ClearChildren(h);
      t := AppendText(h, text);
      forall c | c in m0[h].children ensures c in m0 && nodes[c] == m0[c].(parent := None) {
        assert c != t && c != h;
      }
    }
  }
}
