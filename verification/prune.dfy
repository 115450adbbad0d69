/**
 * The whitelist pass of `clean` (pypub/clean.py, lines 97-111).
 *
 * A LIFO work-list starts with the element children of the root. Each
 * popped element has its element children read first; then, if its tag is
 * not a key of the tag dictionary, it is extracted from its parent and
 * those element children are appended to the end of that parent (its text
 * children go with it); otherwise every attribute outside the tag's allowed
 * set is dropped. Finally the element children read are pushed.
 */
module Prune {
  import opened Wrappers
  import opened Tree

  /** `tag_dictionary`: tag name to the attribute names that tag may keep. */
  type TagDictionary = map<string, set<string>>

  /**
   * The links after the non-whitelisted `x`, child of `p`, is extracted and
   * its element children `kids` are appended to `p`: `p` loses `x` and ends
   * with `kids`, `x` is detached and keeps only its other children, each of
   * `kids` now names `p` as parent, and no other node changes.
   */
  ghost predicate Promoted(m: map<Handle, Node>, m': map<Handle, Node>, x: Handle, p: Handle, kids: seq<Handle>)
    requires x in m && p in m
  {
    PromotedUpTo(m, m', x, p, kids, |kids|)
  }

  /** The links once the first `i` of `kids` have been appended to `p`. */
  ghost predicate PromotedUpTo(m: map<Handle, Node>, m': map<Handle, Node>, x: Handle, p: Handle, kids: seq<Handle>, i: nat)
    requires x in m && p in m && i <= |kids|
  {
    && m'.Keys == m.Keys
    && m'[p] == m[p].(children := Without(m[p].children, x) + kids[..i])
    && m'[x] == m[x].(parent := None, children := Keep(m[x].children, SetOf(kids[..i])))
    && (forall j :: 0 <= j < |kids| ==> kids[j] in m && m'[kids[j]] == if j < i then m[kids[j]].(parent := Some(p)) else m[kids[j]])
    && (forall y :: y in m && y != p && y != x && y !in kids ==> m'[y] == m[y])
  }

  /**
   * Lines 102-105: `parent_node = current_node.parent`,
   * `current_node.extract()`, then `parent_node.append(n)` for each element
   * child `n` read before the extraction.
   */
  method Promote(soup: Soup, x: Handle, p: Handle, kids: seq<Handle>)
    requires soup.Valid() && x in soup.nodes && soup.nodes[x].parent == Some(p)
    requires soup.nodes[p].kind.Element?
    requires kids == ElementsOf(soup.nodes, soup.nodes[x].children)
    modifies soup
    ensures soup.Valid() && soup.rank == old(soup.rank) && soup.height == old(soup.height) && soup.next == old(soup.next)
    ensures p in old(soup.nodes) && Promoted(old(soup.nodes), soup.nodes, x, p, kids)
  {
    ghost var m := soup.nodes;
    ghost var rank := soup.rank;
    PromoteStart(m, rank, soup.height, x, p, kids);
    soup.Extract(x);
    var i := 0;
    while i < |kids|
      invariant 0 <= i <= |kids|
      invariant soup.Valid() && soup.rank == rank && soup.height == old(soup.height) && soup.next == old(soup.next)
      invariant PromotedUpTo(m, soup.nodes, x, p, kids, i)
    {
      PromoteFacts(m, rank, soup.height, x, p, kids, i);
      ghost var before := soup.nodes;
      soup.Append(p, kids[i]);
      PromoteStep(m, x, p, kids, i, before, soup.nodes);
      i := i + 1;
    }
  }

  /** Right after the extraction nothing has been appended yet. */
  lemma PromoteStart(m: map<Handle, Node>, rank: map<Handle, int>, height: int,
                     x: Handle, p: Handle, kids: seq<Handle>)
    requires WellFormed(m, rank, height) && x in m && m[x].parent == Some(p)
    requires kids == ElementsOf(m, m[x].children)
    ensures p in m && x in m[p].children
    ensures PromotedUpTo(m, Detach(m, rank, height, x), x, p, kids, 0)
  {
    assert kids[..0] == [];
    assert Without(m[p].children, x) + [] == Without(m[p].children, x);
  }

  /** One `parent_node.append(n)` extends the promoted prefix by one. */
  lemma PromoteStep(m: map<Handle, Node>, x: Handle, p: Handle, kids: seq<Handle>, i: nat,
                    before: map<Handle, Node>, after: map<Handle, Node>)
    requires x in m && p in m && p != x && i < |kids| && Distinct(kids)
    requires forall j :: 0 <= j < |kids| ==> kids[j] != p && kids[j] != x
    requires kids[i] !in m[p].children && kids[i] !in kids[..i]
    requires PromotedUpTo(m, before, x, p, kids, i)
    requires after.Keys == before.Keys
    requires after[kids[i]] == before[kids[i]].(parent := Some(p))
    requires after[p] == before[p].(children := Without(before[p].children, kids[i]) + [kids[i]])
    requires after[x] == before[x].(children := Without(before[x].children, kids[i]))
    requires forall h :: h in before && h != kids[i] && h != p && h != x ==> after[h] == before[h]
    ensures PromotedUpTo(m, after, x, p, kids, i + 1)
  {
    var k := kids[i];
    PromoteStepParent(m, x, p, kids, i, before[p].children);
    KeepWithout(m[x].children, SetOf(kids[..i]), k);
    assert SetOf(kids[..i + 1]) == SetOf(kids[..i]) + {k};
    forall j | 0 <= j < |kids| && j != i ensures after[kids[j]] == before[kids[j]] {
      assert kids[j] != k;
    }
  }

  lemma PromoteStepParent(m: map<Handle, Node>, x: Handle, p: Handle, kids: seq<Handle>, i: nat, cs: seq<Handle>)
    requires p in m && i < |kids| && kids[i] !in m[p].children && kids[i] !in kids[..i]
    requires cs == Without(m[p].children, x) + kids[..i]
    ensures Without(cs, kids[i]) + [kids[i]] == Without(m[p].children, x) + kids[..i + 1]
  {
    assert kids[i] !in cs;
    assert kids[..i + 1] == kids[..i] + [kids[i]];
  }

  /** What `Promote` relies on about the captured children `kids` of `x`. */
  lemma PromoteFacts(m: map<Handle, Node>, rank: map<Handle, int>, height: int,
                     x: Handle, p: Handle, kids: seq<Handle>, i: nat)
    requires WellFormed(m, rank, height) && x in m && m[x].parent == Some(p)
    requires kids == ElementsOf(m, m[x].children) && i < |kids|
    ensures p in m && p != x && rank[p] < rank[x]
    ensures Distinct(kids) && kids[i] !in kids[..i]
    ensures forall j :: 0 <= j < |kids| ==> kids[j] in m[x].children && m[kids[j]].parent == Some(x) && kids[j] != p && kids[j] != x && rank[x] < rank[kids[j]]
    ensures kids[i] !in m[p].children
  {
    assert x in m[p].children;
    forall j | 0 <= j < |kids|
      ensures kids[j] in m[x].children && m[kids[j]].parent == Some(x) && kids[j] != p && kids[j] != x && rank[x] < rank[kids[j]]
    {
      assert kids[j] in kids;
    }
    NotListedElsewhere(m, rank, height, p, kids[i]);
    forall j | 0 <= j < i ensures kids[..i][j] != kids[i] {
      assert kids[..i][j] == kids[j];
    }
  }

  // ---------------------------------------------------------------------------
  // The loop invariant. `m0` is the tree when the loop starts, `m` the tree
  // now; `popped` holds the elements popped so far and `kept` those among
  // them whose tag is whitelisted.

  /** Tag kinds never change and no node is created or lost. */
  ghost predicate SameNodes(m0: map<Handle, Node>, m: map<Handle, Node>)
  {
    m.Keys == m0.Keys && forall y :: y in m ==> m[y].kind == m0[y].kind
  }

  /**
   * The work-list holds distinct unvisited elements below the root, each
   * hanging from the root or from a kept node, with children and attributes
   * as they were parsed.
   */
  ghost predicate StackOk(m0: map<Handle, Node>, m: map<Handle, Node>, rank: map<Handle, int>, root: Handle,
                          stack: seq<Handle>, popped: set<Handle>, kept: set<Handle>)
  {
    && Distinct(stack)
    && (forall s :: s in stack ==>
          && s in m && s in m0 && s in rank && root in rank && s !in popped
          && m[s].kind.Element? && rank[s] > rank[root]
          && m[s].parent.Some? && (m[s].parent.value == root || m[s].parent.value in kept)
          && m[s].children == m0[s].children && m[s].attrs == m0[s].attrs)
  }

  /**
   * A kept node is a whitelisted element whose attributes are the allowed
   * part of its parsed attributes, hanging from the root or a kept node.
   */
  ghost predicate KeptOk(m0: map<Handle, Node>, m: map<Handle, Node>, rank: map<Handle, int>, root: Handle,
                         dict: TagDictionary, popped: set<Handle>, kept: set<Handle>)
  {
    forall k :: k in kept ==>
      && k in popped && k in m && k in m0 && k in rank && root in rank
      && m[k].kind.Element? && m[k].kind.name in dict
      && m[k].attrs == Restrict(m0[k].attrs, dict[m[k].kind.name]) && rank[k] > rank[root]
      && m[k].parent.Some? && (m[k].parent.value == root || m[k].parent.value in kept)
  }

  /** A popped node that was not kept is a non-whitelisted element, detached. */
  ghost predicate RemovedOk(m: map<Handle, Node>, dict: TagDictionary, popped: set<Handle>, kept: set<Handle>)
  {
    forall y :: y in popped && y !in kept ==>
      y in m && m[y].kind.Element? && m[y].kind.name !in dict && m[y].parent.None?
  }

  /** Every element child of the root or of a kept node is kept or waiting. */
  ghost predicate Closed(m: map<Handle, Node>, root: Handle, stack: seq<Handle>, kept: set<Handle>)
  {
    forall y, c {:trigger c in m[y].children} ::
      (y == root || y in kept) && y in m && c in m[y].children && c in m && m[c].kind.Element? ==>
        c in kept || c in stack
  }

  /** Nodes neither visited nor waiting are as parsed; the root only gains or loses children. */
  ghost predicate Untouched(m0: map<Handle, Node>, m: map<Handle, Node>, root: Handle,
                            stack: seq<Handle>, popped: set<Handle>)
  {
    && root in m && root in m0 && m[root] == m0[root].(children := m[root].children)
    && (forall y :: y in m0 && y != root && y !in popped && y !in stack ==> y in m && m[y] == m0[y])
  }

  /** In the parsed tree, every visited or waiting node is an element whose parent is the root or visited. */
  ghost predicate FromRoot(m0: map<Handle, Node>, rank: map<Handle, int>, root: Handle,
                           stack: seq<Handle>, popped: set<Handle>)
  {
    forall y :: y in popped || y in stack ==>
      && y in m0 && y in rank && root in rank && m0[y].kind.Element? && rank[y] > rank[root]
      && m0[y].parent.Some? && (m0[y].parent.value == root || m0[y].parent.value in popped)
  }

  /** In the parsed tree, every element child of the root or of a visited node is visited or waiting. */
  ghost predicate Frontier(m0: map<Handle, Node>, root: Handle, stack: seq<Handle>, popped: set<Handle>)
  {
    forall y, c {:trigger c in m0[y].children} ::
      (y == root || y in popped) && y in m0 && c in m0[y].children && c in m0 && m0[c].kind.Element? ==>
        c in popped || c in stack
  }

  ghost predicate PruneInv(m0: map<Handle, Node>, m: map<Handle, Node>, rank: map<Handle, int>, root: Handle,
                           dict: TagDictionary, stack: seq<Handle>, popped: set<Handle>, kept: set<Handle>)
  {
    && SameNodes(m0, m)
    && StackOk(m0, m, rank, root, stack, popped, kept)
    && KeptOk(m0, m, rank, root, dict, popped, kept)
    && RemovedOk(m, dict, popped, kept)
    && Closed(m, root, stack, kept)
    && Untouched(m0, m, root, stack, popped)
    && FromRoot(m0, rank, root, stack, popped)
    && Frontier(m0, root, stack, popped)
  }

  /**
   * The closest proper ancestor of `y` in the parsed tree that survives the
   * whitelist pass: the first whitelisted element met on the way up, or
   * `root` when there is none. (The walk stops at `root`; nodes not below
   * `root` are never asked about.)
   */
  ghost function NearestKept(m0: map<Handle, Node>, rank: map<Handle, int>, height: int, root: Handle,
                             dict: TagDictionary, y: Handle): Handle
    requires WellFormed(m0, rank, height) && root in m0 && y in m0 && rank[root] < rank[y]
    decreases rank[y] - rank[root]
  {
    match m0[y].parent
    case None => root
    case Some(q) =>
      assert y in m0[q].children;
      if q == root || rank[q] <= rank[root] then root
      else if m0[q].kind.Element? && m0[q].kind.name in dict then q
      else NearestKept(m0, rank, height, root, dict, q)
  }

  /** One step up: an element child of `x` hangs from `x` if `x` is whitelisted, else where `x` hangs. */
  lemma NearestKeptOfChild(m0: map<Handle, Node>, rank: map<Handle, int>, height: int, root: Handle,
                           dict: TagDictionary, x: Handle, y: Handle)
    requires WellFormed(m0, rank, height) && root in m0 && x in m0 && y in m0 && m0[y].parent == Some(x)
    requires x != root && rank[root] < rank[x] && m0[x].kind.Element?
    ensures rank[root] < rank[y]
    ensures NearestKept(m0, rank, height, root, dict, y) ==
              if m0[x].kind.name in dict then x else NearestKept(m0, rank, height, root, dict, x)
  {
    assert y in m0[x].children;
  }

  /** Every waiting or kept element hangs from its nearest kept ancestor. */
  ghost predicate Hung(m0: map<Handle, Node>, m: map<Handle, Node>, rank: map<Handle, int>, height: int, root: Handle,
                       dict: TagDictionary, stack: seq<Handle>, kept: set<Handle>)
  {
    && WellFormed(m0, rank, height) && root in m0
    && forall y :: y in stack || y in kept ==>
         y in m0 && rank[root] < rank[y] && y in m && m[y].parent == Some(NearestKept(m0, rank, height, root, dict, y))
  }

  /**
   * `k` still lists its parsed children, less those in `gone`, in parsed
   * order and ahead of any child it gained.
   */
  ghost predicate Ordered(m0: map<Handle, Node>, m: map<Handle, Node>, k: Handle, gone: set<Handle>)
  {
    k in m0 && k in m && Keep(m0[k].children, gone) <= m[k].children
  }

  /**
   * The root and every kept node list their parsed children that were not
   * removed first, in parsed order; promoted children only follow them.
   */
  ghost predicate InOrder(m0: map<Handle, Node>, m: map<Handle, Node>, root: Handle, popped: set<Handle>, kept: set<Handle>)
  {
    Ordered(m0, m, root, popped - kept) && forall k :: k in kept ==> Ordered(m0, m, k, popped - kept)
  }

  /** In the parsed tree the parent of `x` is its nearest kept ancestor when it is the root or whitelisted. */
  lemma ParentIsNearest(m0: map<Handle, Node>, rank: map<Handle, int>, height: int, root: Handle,
                        dict: TagDictionary, x: Handle, k: Handle)
    requires WellFormed(m0, rank, height) && root in m0 && x in m0 && rank[root] < rank[x] && m0[x].parent == Some(k)
    requires k == root || (k in m0 && m0[k].kind.Element? && m0[k].kind.name in dict && rank[root] < rank[k])
    ensures NearestKept(m0, rank, height, root, dict, x) == k
  {
  }

  /** Line 97: the work-list starts as the element children of the root. */
  lemma PruneStart(m: map<Handle, Node>, rank: map<Handle, int>, height: int, root: Handle, dict: TagDictionary)
    requires WellFormed(m, rank, height) && root in m
    ensures PruneInv(m, m, rank, root, dict, ElementsOf(m, m[root].children), {}, {})
    ensures Hung(m, m, rank, height, root, dict, ElementsOf(m, m[root].children), {})
    ensures InOrder(m, m, root, {}, {})
  {
    var stack := ElementsOf(m, m[root].children);
    assert Distinct(m[root].children);
    forall s | s in stack ensures s in m && m[s].parent == Some(root) && rank[s] > rank[root] {
      assert s in m[root].children;
    }
  }

  /**
   * What holds once `x` is popped (line 99) and its element children `kids`
   * are read (line 100).
   */
  ghost predicate PopInfo(m0: map<Handle, Node>, m: map<Handle, Node>, rank: map<Handle, int>, root: Handle,
                          stack: seq<Handle>, x: Handle, kids: seq<Handle>, popped: set<Handle>, kept: set<Handle>)
  {
    && x !in stack && x !in popped && x != root && Distinct(stack) && Distinct(stack + kids)
    && x in m && x in m0 && x in rank && root in rank && rank[x] > rank[root]
    && m[x].kind.Element? && m[x].children == m0[x].children && m[x].attrs == m0[x].attrs
    && m[x].parent.Some? && (m[x].parent.value == root || m[x].parent.value in kept)
    && (forall c :: c in kids <==> c in m[x].children && c in m && m[c].kind.Element?)
    && (forall k :: k in kids ==>
          && k in m0[x].children && k in m && k in m0 && k in rank && m0[k].parent == Some(x)
          && m[k].kind.Element? && m0[k].kind.Element? && rank[k] > rank[x]
          && k !in popped && k !in stack && k != x && k != root && m[k] == m0[k])
  }

  lemma PopFacts(m0: map<Handle, Node>, m: map<Handle, Node>, rank: map<Handle, int>, height: int, root: Handle,
                 dict: TagDictionary, stack: seq<Handle>, x: Handle, popped: set<Handle>, kept: set<Handle>)
    requires WellFormed(m0, rank, height) && WellFormed(m, rank, height) && root in m0
    requires PruneInv(m0, m, rank, root, dict, stack + [x], popped, kept)
    ensures x in m && PopInfo(m0, m, rank, root, stack, x, ElementsOf(m, m[x].children), popped, kept)
  {
    assert x in stack + [x];
    LastNotBefore(stack, x);
    var kids := ElementsOf(m, m[x].children);
    assert Distinct(m[x].children);
    forall k | k in kids
      ensures && k in m0[x].children && k in m && k in m0 && k in rank && m0[k].parent == Some(x)
              && m[k].kind.Element? && m0[k].kind.Element? && rank[k] > rank[x]
              && k !in popped && k !in stack && k != x && k != root && m[k] == m0[k]
    {
      assert k in m0[x].children;
      assert k !in popped && k !in stack + [x];
    }
    DistinctConcat(stack, kids);
  }

  /** Lines 106-110: a whitelisted `x` keeps only its allowed attributes and is kept. */
  lemma KeepStep(m0: map<Handle, Node>, m: map<Handle, Node>, m': map<Handle, Node>, rank: map<Handle, int>,
                 root: Handle, dict: TagDictionary, stack: seq<Handle>, x: Handle, kids: seq<Handle>,
                 popped: set<Handle>, kept: set<Handle>)
    requires PruneInv(m0, m, rank, root, dict, stack + [x], popped, kept)
    requires PopInfo(m0, m, rank, root, stack, x, kids, popped, kept)
    requires m[x].kind.name in dict
    requires m' == m[x := m[x].(attrs := Restrict(m[x].attrs, dict[m[x].kind.name]))]
    ensures PruneInv(m0, m', rank, root, dict, stack + kids, popped + {x}, kept + {x})
  {
    KeepStack(m0, m, m', rank, root, stack, x, kids, popped, kept);
    KeepKept(m0, m, m', rank, root, dict, stack, x, kids, popped, kept);
    KeepRest(m0, m, m', rank, root, dict, stack, x, kids, popped, kept);
    KeepClosed(m0, m, m', rank, root, stack, x, kids, popped, kept);
    PopOrigin(m0, m, rank, root, stack, x, kids, popped, kept);
  }

  lemma KeepStack(m0: map<Handle, Node>, m: map<Handle, Node>, m': map<Handle, Node>, rank: map<Handle, int>,
                  root: Handle, stack: seq<Handle>, x: Handle, kids: seq<Handle>, popped: set<Handle>, kept: set<Handle>)
    requires StackOk(m0, m, rank, root, stack + [x], popped, kept) && PopInfo(m0, m, rank, root, stack, x, kids, popped, kept)
    requires m'.Keys == m.Keys && m'[x].kind == m[x].kind && m'[x].children == m[x].children && m'[x].parent == m[x].parent
    requires forall y :: y in m && y != x ==> m'[y] == m[y]
    ensures StackOk(m0, m', rank, root, stack + kids, popped + {x}, kept + {x})
  {
    forall s | s in stack + kids ensures s in m' && s != x && m'[s] == m[s] {
      if s in stack {
        assert s in stack + [x];
      }
    }
  }

  lemma KeepKept(m0: map<Handle, Node>, m: map<Handle, Node>, m': map<Handle, Node>, rank: map<Handle, int>,
                 root: Handle, dict: TagDictionary, stack: seq<Handle>, x: Handle, kids: seq<Handle>,
                 popped: set<Handle>, kept: set<Handle>)
    requires KeptOk(m0, m, rank, root, dict, popped, kept)
    requires PopInfo(m0, m, rank, root, stack, x, kids, popped, kept)
    requires m[x].kind.name in dict
    requires m' == m[x := m[x].(attrs := Restrict(m[x].attrs, dict[m[x].kind.name]))]
    ensures KeptOk(m0, m', rank, root, dict, popped + {x}, kept + {x})
  {
  }

  lemma KeepRest(m0: map<Handle, Node>, m: map<Handle, Node>, m': map<Handle, Node>, rank: map<Handle, int>,
                 root: Handle, dict: TagDictionary, stack: seq<Handle>, x: Handle, kids: seq<Handle>,
                 popped: set<Handle>, kept: set<Handle>)
    requires RemovedOk(m, dict, popped, kept) && SameNodes(m0, m) && Untouched(m0, m, root, stack + [x], popped)
    requires PopInfo(m0, m, rank, root, stack, x, kids, popped, kept)
    requires m'.Keys == m.Keys && m'[x].kind == m[x].kind
    requires forall y :: y in m && y != x ==> m'[y] == m[y]
    ensures RemovedOk(m', dict, popped + {x}, kept + {x}) && SameNodes(m0, m')
    ensures Untouched(m0, m', root, stack + kids, popped + {x})
  {
    forall y | y in m0 && y != root && y !in popped + {x} && y !in stack + kids ensures y in m' && m'[y] == m0[y] {
      assert y !in stack + [x];
    }
  }

  lemma KeepClosed(m0: map<Handle, Node>, m: map<Handle, Node>, m': map<Handle, Node>, rank: map<Handle, int>,
                   root: Handle, stack: seq<Handle>, x: Handle, kids: seq<Handle>, popped: set<Handle>, kept: set<Handle>)
    requires Closed(m, root, stack + [x], kept) && PopInfo(m0, m, rank, root, stack, x, kids, popped, kept)
    requires m'.Keys == m.Keys && m'[x].kind == m[x].kind && m'[x].children == m[x].children
    requires forall y :: y in m && y != x ==> m'[y] == m[y]
    ensures Closed(m', root, stack + kids, kept + {x})
  {
    forall y, c | (y == root || y in kept + {x}) && y in m' && c in m'[y].children && c in m' && m'[c].kind.Element?
      ensures c in kept + {x} || c in stack + kids
    {
      assert m'[c].kind == m[c].kind;
      if y != x {
        assert c in m[y].children;
        assert c in kept || c in stack + [x];
      }
    }
  }

  /** The parsed-tree half of the invariant advances the same way whichever branch runs. */
  lemma PopOrigin(m0: map<Handle, Node>, m: map<Handle, Node>, rank: map<Handle, int>,
                  root: Handle, stack: seq<Handle>, x: Handle, kids: seq<Handle>, popped: set<Handle>, kept: set<Handle>)
    requires FromRoot(m0, rank, root, stack + [x], popped) && Frontier(m0, root, stack + [x], popped)
    requires SameNodes(m0, m) && PopInfo(m0, m, rank, root, stack, x, kids, popped, kept)
    ensures FromRoot(m0, rank, root, stack + kids, popped + {x}) && Frontier(m0, root, stack + kids, popped + {x})
  {
    assert x in stack + [x];
    forall y | y in popped + {x} || y in stack + kids
      ensures && y in m0 && y in rank && m0[y].kind.Element? && rank[y] > rank[root]
              && m0[y].parent.Some? && (m0[y].parent.value == root || m0[y].parent.value in popped + {x})
    {
      if y in stack {
        assert y in stack + [x];
      }
    }
    forall y, c | (y == root || y in popped + {x}) && y in m0 && c in m0[y].children && c in m0 && m0[c].kind.Element?
      ensures c in popped + {x} || c in stack + kids
    {
      if y == x {
        assert c in m[x].children && m[c].kind == m0[c].kind;
      } else {
        assert c in popped || c in stack + [x];
      }
    }
  }

  /**
   * Lines 101-105: a non-whitelisted `x` is extracted and its element
   * children are appended to its former parent `p`; they are pushed next.
   */
  lemma RemoveStep(m0: map<Handle, Node>, m: map<Handle, Node>, m': map<Handle, Node>, rank: map<Handle, int>, height: int,
                   root: Handle, dict: TagDictionary, stack: seq<Handle>, x: Handle, kids: seq<Handle>,
                   popped: set<Handle>, kept: set<Handle>)
    requires WellFormed(m, rank, height)
    requires PruneInv(m0, m, rank, root, dict, stack + [x], popped, kept)
    requires PopInfo(m0, m, rank, root, stack, x, kids, popped, kept)
    requires m[x].kind.name !in dict && m[x].parent.value in m
    requires Promoted(m, m', x, m[x].parent.value, kids)
    ensures PruneInv(m0, m', rank, root, dict, stack + kids, popped + {x}, kept)
  {
    var p := m[x].parent.value;
    RemoveStack(m0, m, m', rank, root, dict, stack, x, p, kids, popped, kept);
    RemoveKept(m0, m, m', rank, root, dict, stack, x, p, kids, popped, kept);
    RemoveRest(m0, m, m', rank, root, dict, stack, x, p, kids, popped, kept);
    RemoveClosed(m0, m, m', rank, height, root, dict, stack, x, p, kids, popped, kept);
    PopOrigin(m0, m, rank, root, stack, x, kids, popped, kept);
  }

  lemma RemoveStack(m0: map<Handle, Node>, m: map<Handle, Node>, m': map<Handle, Node>, rank: map<Handle, int>,
                    root: Handle, dict: TagDictionary, stack: seq<Handle>, x: Handle, p: Handle, kids: seq<Handle>,
                    popped: set<Handle>, kept: set<Handle>)
    requires StackOk(m0, m, rank, root, stack + [x], popped, kept) && KeptOk(m0, m, rank, root, dict, popped, kept)
    requires PopInfo(m0, m, rank, root, stack, x, kids, popped, kept)
    requires p in m && m[x].parent == Some(p) && Promoted(m, m', x, p, kids)
    ensures StackOk(m0, m', rank, root, stack + kids, popped + {x}, kept)
  {
    forall s | s in stack ensures s in m' && m'[s] == m[s] {
      assert s in stack + [x];
    }
  }

  lemma RemoveKept(m0: map<Handle, Node>, m: map<Handle, Node>, m': map<Handle, Node>, rank: map<Handle, int>,
                   root: Handle, dict: TagDictionary, stack: seq<Handle>, x: Handle, p: Handle, kids: seq<Handle>,
                   popped: set<Handle>, kept: set<Handle>)
    requires KeptOk(m0, m, rank, root, dict, popped, kept)
    requires PopInfo(m0, m, rank, root, stack, x, kids, popped, kept)
    requires p in m && m[x].parent == Some(p) && Promoted(m, m', x, p, kids)
    ensures KeptOk(m0, m', rank, root, dict, popped + {x}, kept)
  {
    forall k | k in kept ensures k in m' && m'[k].kind == m[k].kind && m'[k].attrs == m[k].attrs && m'[k].parent == m[k].parent {
      assert k != x && k !in kids;
    }
  }

  lemma RemoveRest(m0: map<Handle, Node>, m: map<Handle, Node>, m': map<Handle, Node>, rank: map<Handle, int>,
                   root: Handle, dict: TagDictionary, stack: seq<Handle>, x: Handle, p: Handle, kids: seq<Handle>,
                   popped: set<Handle>, kept: set<Handle>)
    requires RemovedOk(m, dict, popped, kept) && SameNodes(m0, m) && Untouched(m0, m, root, stack + [x], popped)
    requires KeptOk(m0, m, rank, root, dict, popped, kept) && FromRoot(m0, rank, root, stack + [x], popped)
    requires PopInfo(m0, m, rank, root, stack, x, kids, popped, kept) && m[x].kind.name !in dict
    requires p in m && m[x].parent == Some(p) && Promoted(m, m', x, p, kids)
    ensures RemovedOk(m', dict, popped + {x}, kept) && SameNodes(m0, m')
    ensures Untouched(m0, m', root, stack + kids, popped + {x})
  {
    forall y | y in m' ensures m'[y].kind == m[y].kind {
      if y !in kids {
      }
    }
    forall y | y in popped + {x} && y !in kept
      ensures y in m' && m'[y].kind.Element? && m'[y].kind.name !in dict && m'[y].parent.None?
    {
      if y != x {
        assert y != p && y !in kids;
      }
    }
    forall y | y in m0 && y != root && y !in popped + {x} && y !in stack + kids ensures y in m' && m'[y] == m0[y] {
      assert y !in stack + [x];
    }
  }

  lemma RemoveClosed(m0: map<Handle, Node>, m: map<Handle, Node>, m': map<Handle, Node>, rank: map<Handle, int>, height: int,
                     root: Handle, dict: TagDictionary, stack: seq<Handle>, x: Handle, p: Handle, kids: seq<Handle>,
                     popped: set<Handle>, kept: set<Handle>)
    requires WellFormed(m, rank, height)
    requires Closed(m, root, stack + [x], kept) && KeptOk(m0, m, rank, root, dict, popped, kept)
    requires PopInfo(m0, m, rank, root, stack, x, kids, popped, kept)
    requires p in m && m[x].parent == Some(p) && Promoted(m, m', x, p, kids)
    ensures Closed(m', root, stack + kids, kept)
  {
    forall y, c | (y == root || y in kept) && y in m' && c in m'[y].children && c in m' && m'[c].kind.Element?
      ensures c in kept || c in stack + kids
    {
      assert m'[c].kind == m[c].kind by {
        if c !in kids && c != x && c != p {
        }
      }
      if y == p {
        if c !in kids {
          assert c in m[p].children && c != x;
          assert c in kept || c in stack + [x];
        }
      } else {
        assert y != x && y !in kids;
        assert c in m[y].children;
        assert c != x;
        assert c in kept || c in stack + [x];
      }
    }
  }

  /** A kept `x` stays where it hangs, and its element children now hang from `x` itself. */
  lemma KeepHung(m0: map<Handle, Node>, m: map<Handle, Node>, m': map<Handle, Node>, rank: map<Handle, int>, height: int,
                 root: Handle, dict: TagDictionary, stack: seq<Handle>, x: Handle, kids: seq<Handle>,
                 popped: set<Handle>, kept: set<Handle>)
    requires Hung(m0, m, rank, height, root, dict, stack + [x], kept)
    requires PruneInv(m0, m, rank, root, dict, stack + [x], popped, kept)
    requires PopInfo(m0, m, rank, root, stack, x, kids, popped, kept)
    requires m[x].kind.name in dict
    requires m' == m[x := m[x].(attrs := Restrict(m[x].attrs, dict[m[x].kind.name]))]
    ensures Hung(m0, m', rank, height, root, dict, stack + kids, kept + {x})
  {
    forall y | y in stack + kids || y in kept + {x}
      ensures y in m0 && rank[root] < rank[y] && y in m' && m'[y].parent == Some(NearestKept(m0, rank, height, root, dict, y))
    {
      if y in kids {
        NearestKeptOfChild(m0, rank, height, root, dict, x, y);
      } else if y != x {
        assert y in stack + [x] || y in kept;
      } else {
        assert x in stack + [x];
      }
    }
  }

  /**
   * A removed `x` leaves the others where they hang; its element children
   * move to its parent, which is their nearest kept ancestor too.
   */
  lemma RemoveHung(m0: map<Handle, Node>, m: map<Handle, Node>, m': map<Handle, Node>, rank: map<Handle, int>, height: int,
                   root: Handle, dict: TagDictionary, stack: seq<Handle>, x: Handle, p: Handle, kids: seq<Handle>,
                   popped: set<Handle>, kept: set<Handle>)
    requires Hung(m0, m, rank, height, root, dict, stack + [x], kept) && KeptOk(m0, m, rank, root, dict, popped, kept)
    requires PopInfo(m0, m, rank, root, stack, x, kids, popped, kept)
    requires SameNodes(m0, m) && m[x].kind.name !in dict
    requires p in m && m[x].parent == Some(p) && Promoted(m, m', x, p, kids)
    ensures Hung(m0, m', rank, height, root, dict, stack + kids, kept)
  {
    assert x in stack + [x];
    forall y | y in stack + kids || y in kept
      ensures y in m0 && rank[root] < rank[y] && y in m' && m'[y].parent == Some(NearestKept(m0, rank, height, root, dict, y))
    {
      if y in kids {
        var j :| 0 <= j < |kids| && kids[j] == y;
        NearestKeptOfChild(m0, rank, height, root, dict, x, y);
      } else {
        assert y != x && (y in stack + [x] || y in kept);
        assert m'[y].parent == m[y].parent;
      }
    }
  }

  /** A kept `x` lists exactly its parsed children; nothing else changes its children. */
  lemma KeepOrder(m0: map<Handle, Node>, m: map<Handle, Node>, m': map<Handle, Node>, rank: map<Handle, int>,
                  root: Handle, dict: TagDictionary, stack: seq<Handle>, x: Handle, kids: seq<Handle>,
                  popped: set<Handle>, kept: set<Handle>)
    requires InOrder(m0, m, root, popped, kept)
    requires SameNodes(m0, m) && RemovedOk(m, dict, popped, kept) && (forall k :: k in kept ==> k in popped)
    requires PopInfo(m0, m, rank, root, stack, x, kids, popped, kept)
    requires m[x].kind.name in dict
    requires m' == m[x := m[x].(attrs := Restrict(m[x].attrs, dict[m[x].kind.name]))]
    ensures InOrder(m0, m', root, popped + {x}, kept + {x})
  {
    var gone := popped - kept;
    assert (popped + {x}) - (kept + {x}) == gone;
    forall c | c in m0[x].children ensures c !in gone {
      if c in m && m[c].kind.Element? {
        assert c in kids;
      }
    }
    assert Keep(m0[x].children, gone) == m'[x].children;
  }

  /**
   * A removed `x` leaves its parsed parent's other children in order and
   * appends its element children to its current parent `p`; other kept
   * nodes did not list `x` when parsed.
   */
  lemma RemoveOrder(m0: map<Handle, Node>, m: map<Handle, Node>, m': map<Handle, Node>, rank: map<Handle, int>, height: int,
                    root: Handle, dict: TagDictionary, stack: seq<Handle>, x: Handle, p: Handle, kids: seq<Handle>,
                    popped: set<Handle>, kept: set<Handle>)
    requires InOrder(m0, m, root, popped, kept)
    requires Hung(m0, m, rank, height, root, dict, stack + [x], kept) && KeptOk(m0, m, rank, root, dict, popped, kept)
    requires PopInfo(m0, m, rank, root, stack, x, kids, popped, kept)
    requires SameNodes(m0, m) && m[x].kind.name !in dict
    requires p in m && m[x].parent == Some(p) && Promoted(m, m', x, p, kids)
    ensures InOrder(m0, m', root, popped + {x}, kept)
  {
    var gone := popped - kept;
    assert (popped + {x}) - kept == gone + {x};
    assert x in stack + [x];
    assert p == NearestKept(m0, rank, height, root, dict, x);
    forall k | (k == root || k in kept) ensures Ordered(m0, m', k, gone + {x}) {
      if k == p {
        RemoveOrderParent(m0, m, m', p, gone, x, kids);
      } else {
        assert x !in m0[k].children by {
          if x in m0[k].children {
            assert m0[x].parent == Some(k);
            ParentIsNearest(m0, rank, height, root, dict, x, k);
          }
        }
        assert k != x && k !in kids;
        RemoveOrderOther(m0, m, m', k, gone, x);
      }
    }
  }

  /** The parent of a removed `x` drops `x` and gains the promoted children at its end. */
  lemma RemoveOrderParent(m0: map<Handle, Node>, m: map<Handle, Node>, m': map<Handle, Node>, p: Handle,
                          gone: set<Handle>, x: Handle, kids: seq<Handle>)
    requires Ordered(m0, m, p, gone) && p in m' && m'[p].children == Without(m[p].children, x) + kids
    ensures Ordered(m0, m', p, gone + {x})
  {
    KeepWithout(m0[p].children, gone, x);
    PrefixWithout(Keep(m0[p].children, gone), m[p].children, x);
  }

  /** A node whose parsed children never listed `x` is not affected by its removal. */
  lemma RemoveOrderOther(m0: map<Handle, Node>, m: map<Handle, Node>, m': map<Handle, Node>, k: Handle,
                         gone: set<Handle>, x: Handle)
    requires Ordered(m0, m, k, gone) && x !in m0[k].children && k in m' && m'[k] == m[k]
    ensures Ordered(m0, m', k, gone + {x})
  {
    KeepUnlisted(m0[k].children, gone, x);
  }

  /** Popping the last entry of a work-list leaves the rest in order. */
  lemma SplitLast(s: seq<Handle>)
    requires s != []
    ensures s[..|s| - 1] + [s[|s| - 1]] == s
  {
  }

  /**
   * When the work-list is empty: the popped elements are exactly the
   * elements that were below the root; the elements now below the root are
   * exactly the popped whitelisted ones, each with only its allowed
   * attributes; the others are detached.
   */
  lemma PruneDone(m0: map<Handle, Node>, m: map<Handle, Node>, rank: map<Handle, int>, height: int,
                  root: Handle, dict: TagDictionary, popped: set<Handle>, kept: set<Handle>)
    requires WellFormed(m0, rank, height) && WellFormed(m, rank, height) && root in m0
    requires PruneInv(m0, m, rank, root, dict, [], popped, kept)
    ensures forall y :: y in popped <==> y in Descendants(m0, rank, height, root) && m0[y].kind.Element?
    ensures forall y :: y in Descendants(m, rank, height, root) && m[y].kind.Element? <==> y in kept
    ensures forall y :: y in kept <==> y in popped && m[y].kind.name in dict
  {
    ClosedContainsBelow(m0, rank, height, root, popped, root, 0);
    forall y | y in popped ensures y in Descendants(m0, rank, height, root) {
      ParentChainBelow(m0, rank, height, root, popped, y);
    }
    ClosedContainsBelow(m, rank, height, root, kept, root, 0);
    forall y | y in kept ensures y in Descendants(m, rank, height, root) {
      ParentChainBelow(m, rank, height, root, kept, y);
    }
  }

  /**
   * `m` is `m0` after the whitelist pass below `root`: no node is created
   * or lost and no tag changes; the elements below `root` are exactly the
   * whitelisted elements that were below it, each with its parsed
   * attributes restricted to the allowed set and hanging from its nearest
   * kept ancestor; every other element that was below `root` is detached;
   * `root` changes only its children, and every node that was not an
   * element below `root` is unchanged. The root and every kept element
   * list their parsed children, less the removed elements, first and in
   * parsed order; the children promoted to them come after.
   */
  ghost predicate Pruned(m0: map<Handle, Node>, m: map<Handle, Node>, rank: map<Handle, int>, height: int,
                         root: Handle, dict: TagDictionary)
  {
    && WellFormed(m0, rank, height) && WellFormed(m, rank, height) && root in m0 && SameNodes(m0, m)
    && (forall y :: y in Descendants(m, rank, height, root) && m[y].kind.Element? <==>
                    y in Descendants(m0, rank, height, root) && m0[y].kind.Element? && m0[y].kind.name in dict)
    && (forall y :: y in Descendants(m0, rank, height, root) && m0[y].kind.Element? && m0[y].kind.name in dict ==>
                    && m[y].attrs == Restrict(m0[y].attrs, dict[m0[y].kind.name])
                    && m[y].parent == Some(NearestKept(m0, rank, height, root, dict, y)))
    && (forall y :: y in Descendants(m0, rank, height, root) && m0[y].kind.Element? && m0[y].kind.name !in dict ==>
                    m[y].parent.None?)
    && m[root] == m0[root].(children := m[root].children)
    && (forall y :: y in m0 && y != root && !(y in Descendants(m0, rank, height, root) && m0[y].kind.Element?) ==>
                    m[y] == m0[y])
    && Ordered(m0, m, root, Dropped(m0, rank, height, root, dict))
    && (forall y :: y in Descendants(m0, rank, height, root) && m0[y].kind.Element? && m0[y].kind.name in dict ==>
                    Ordered(m0, m, y, Dropped(m0, rank, height, root, dict)))
  }

  /** The elements below `root` whose tag is not whitelisted: those the pass removes. */
  ghost function Dropped(m0: map<Handle, Node>, rank: map<Handle, int>, height: int, root: Handle,
                         dict: TagDictionary): set<Handle>
    requires WellFormed(m0, rank, height) && root in m0
  {
    set y | y in Descendants(m0, rank, height, root) && m0[y].kind.Element? && m0[y].kind.name !in dict
  }

  /**
   * After the pass, `root.find_all(name)` is empty exactly when it was
   * empty before or `name` is not a whitelisted tag.
   */
  lemma PrunedFindAll(m0: map<Handle, Node>, m: map<Handle, Node>, rank: map<Handle, int>, height: int,
                      root: Handle, dict: TagDictionary, name: string)
    requires Pruned(m0, m, rank, height, root, dict)
    ensures FindAll(m, rank, height, root, name) == [] <==> FindAll(m0, rank, height, root, name) == [] || name !in dict
  {
    var before := FindAll(m0, rank, height, root, name);
    var after := FindAll(m, rank, height, root, name);
    if after != [] {
      assert after[0] in after;
      assert after[0] in before;
    }
    if before != [] && name in dict {
      assert before[0] in before;
      assert before[0] in after;
    }
  }

  /** At the end the removed set is `Dropped`, so the order part of the invariant is that of `Pruned`. */
  lemma OrderedAtEnd(m0: map<Handle, Node>, m: map<Handle, Node>, rank: map<Handle, int>, height: int,
                     root: Handle, dict: TagDictionary, popped: set<Handle>, kept: set<Handle>)
    requires WellFormed(m0, rank, height) && root in m0 && SameNodes(m0, m) && InOrder(m0, m, root, popped, kept)
    requires forall y :: y in popped <==> y in Descendants(m0, rank, height, root) && m0[y].kind.Element?
    requires forall y :: y in kept <==> y in popped && m[y].kind.name in dict
    ensures Ordered(m0, m, root, Dropped(m0, rank, height, root, dict))
    ensures forall y :: y in Descendants(m0, rank, height, root) && m0[y].kind.Element? && m0[y].kind.name in dict ==>
                        Ordered(m0, m, y, Dropped(m0, rank, height, root, dict))
  {
    assert popped - kept == Dropped(m0, rank, height, root, dict);
  }

  /** The invariant with an empty work-list is the `Pruned` relation. */
  lemma PrunedAtEnd(m0: map<Handle, Node>, m: map<Handle, Node>, rank: map<Handle, int>, height: int,
                    root: Handle, dict: TagDictionary, popped: set<Handle>, kept: set<Handle>)
    requires WellFormed(m0, rank, height) && WellFormed(m, rank, height) && root in m0
    requires PruneInv(m0, m, rank, root, dict, [], popped, kept) && Hung(m0, m, rank, height, root, dict, [], kept)
    requires InOrder(m0, m, root, popped, kept)
    ensures forall y :: y in popped <==> y in Descendants(m0, rank, height, root) && m0[y].kind.Element?
    ensures Pruned(m0, m, rank, height, root, dict)
  {
    PruneDone(m0, m, rank, height, root, dict, popped, kept);
    OrderedAtEnd(m0, m, rank, height, root, dict, popped, kept);
    forall y | y in Descendants(m0, rank, height, root) && m0[y].kind.Element? && m0[y].kind.name in dict
      ensures m[y].attrs == Restrict(m0[y].attrs, dict[m0[y].kind.name])
    {
      assert y in kept;
    }
  }

  /**
   * One round of the loop (lines 99-110) on the popped `x`: read its
   * element children, then either extract it and promote them or filter
   * its attributes. The children read are returned for pushing.
   */
  method Visit(soup: Soup, root: Handle, dict: TagDictionary, ghost m0: map<Handle, Node>, stack: seq<Handle>, x: Handle,
               ghost popped: set<Handle>, ghost kept: set<Handle>) returns (kids: seq<Handle>, ghost kept': set<Handle>)
    requires soup.Valid() && WellFormed(m0, soup.rank, soup.height) && root in m0
    requires PruneInv(m0, soup.nodes, soup.rank, root, dict, stack + [x], popped, kept)
    requires Hung(m0, soup.nodes, soup.rank, soup.height, root, dict, stack + [x], kept)
    requires InOrder(m0, soup.nodes, root, popped, kept)
    modifies soup
    ensures soup.Valid() && soup.rank == old(soup.rank) && soup.height == old(soup.height) && soup.next == old(soup.next)
    ensures x in m0 && x !in popped
    ensures PruneInv(m0, soup.nodes, soup.rank, root, dict, stack + kids, popped + {x}, kept')
    ensures Hung(m0, soup.nodes, soup.rank, soup.height, root, dict, stack + kids, kept')
    ensures InOrder(m0, soup.nodes, root, popped + {x}, kept')
  {
    PopFacts(m0, soup.nodes, soup.rank, soup.height, root, dict, stack, x, popped, kept);
    kids := ElementsOf(soup.nodes, soup.nodes[x].children);
    if soup.nodes[x].kind.name !in dict {
      RemoveNode(soup, root, dict, m0, stack, x, kids, popped, kept);
      kept' := kept;
    } else {
      KeepNode(soup, root, dict, m0, stack, x, kids, popped, kept);
      kept' := kept + {x};
    }
  }

  /** Lines 101-105 on a popped `x` whose tag is not whitelisted. */
  method RemoveNode(soup: Soup, root: Handle, dict: TagDictionary, ghost m0: map<Handle, Node>, ghost stack: seq<Handle>,
                    x: Handle, kids: seq<Handle>, ghost popped: set<Handle>, ghost kept: set<Handle>)
    requires soup.Valid() && x in soup.nodes && soup.nodes[x].kind.Element? && soup.nodes[x].kind.name !in dict
    requires PruneInv(m0, soup.nodes, soup.rank, root, dict, stack + [x], popped, kept)
    requires Hung(m0, soup.nodes, soup.rank, soup.height, root, dict, stack + [x], kept)
    requires InOrder(m0, soup.nodes, root, popped, kept)
    requires PopInfo(m0, soup.nodes, soup.rank, root, stack, x, kids, popped, kept)
    requires kids == ElementsOf(soup.nodes, soup.nodes[x].children)
    modifies soup
    ensures soup.Valid() && soup.rank == old(soup.rank) && soup.height == old(soup.height) && soup.next == old(soup.next)
    ensures PruneInv(m0, soup.nodes, soup.rank, root, dict, stack + kids, popped + {x}, kept)
    ensures Hung(m0, soup.nodes, soup.rank, soup.height, root, dict, stack + kids, kept)
    ensures InOrder(m0, soup.nodes, root, popped + {x}, kept)
  {
    ghost var m := soup.nodes;
    var p := soup.nodes[x].parent.value;
    assert p in m && m[p].kind.Element? by {
      assert p == root || p in kept;
    }
    Promote(soup, x, p, kids);
    RemoveStep(m0, m, soup.nodes, soup.rank, soup.height, root, dict, stack, x, kids, popped, kept);
    RemoveHung(m0, m, soup.nodes, soup.rank, soup.height, root, dict, stack, x, p, kids, popped, kept);
    RemoveOrder(m0, m, soup.nodes, soup.rank, soup.height, root, dict, stack, x, p, kids, popped, kept);
  }

  /** Lines 106-110 on a popped `x` whose tag is whitelisted. */
  method KeepNode(soup: Soup, root: Handle, dict: TagDictionary, ghost m0: map<Handle, Node>, ghost stack: seq<Handle>,
                  x: Handle, kids: seq<Handle>, ghost popped: set<Handle>, ghost kept: set<Handle>)
    requires soup.Valid() && x in soup.nodes && soup.nodes[x].kind.Element? && soup.nodes[x].kind.name in dict
    requires PruneInv(m0, soup.nodes, soup.rank, root, dict, stack + [x], popped, kept)
    requires Hung(m0, soup.nodes, soup.rank, soup.height, root, dict, stack + [x], kept)
    requires InOrder(m0, soup.nodes, root, popped, kept)
    requires PopInfo(m0, soup.nodes, soup.rank, root, stack, x, kids, popped, kept)
    modifies soup
    ensures soup.Valid() && soup.rank == old(soup.rank) && soup.height == old(soup.height) && soup.next == old(soup.next)
    ensures PruneInv(m0, soup.nodes, soup.rank, root, dict, stack + kids, popped + {x}, kept + {x})
    ensures Hung(m0, soup.nodes, soup.rank, soup.height, root, dict, stack + kids, kept + {x})
    ensures InOrder(m0, soup.nodes, root, popped + {x}, kept + {x})
  {
    ghost var m := soup.nodes;
    soup.FilterAttributes(x, dict[soup.nodes[x].kind.name]);
    KeepStep(m0, m, soup.nodes, soup.rank, root, dict, stack, x, kids, popped, kept);
    KeepHung(m0, m, soup.nodes, soup.rank, soup.height, root, dict, stack, x, kids, popped, kept);
    KeepOrder(m0, m, soup.nodes, soup.rank, root, dict, stack, x, kids, popped, kept);
  }

  /**
   * Lines 97-111. Returns the elements in the order they were popped: every
   * element that was below `root`, each exactly once. The tree afterwards is
   * the `Pruned` form of the tree before.
   */
  method Prune(soup: Soup, root: Handle, dict: TagDictionary) returns (order: seq<Handle>)
    requires soup.Valid() && root in soup.nodes && soup.nodes[root].kind.Element?
    modifies soup
    ensures soup.Valid() && soup.rank == old(soup.rank) && soup.height == old(soup.height) && soup.next == old(soup.next)
    ensures Distinct(order)
    ensures forall y :: y in order <==> y in Descendants(old(soup.nodes), soup.rank, soup.height, root) && old(soup.nodes)[y].kind.Element?
    ensures Pruned(old(soup.nodes), soup.nodes, soup.rank, soup.height, root, dict)
  {
    ghost var m0 := soup.nodes;
    ghost var popped: set<Handle> := {};
    ghost var kept: set<Handle> := {};
    var stack := ElementsOf(soup.nodes, soup.nodes[root].children);
    order := [];
    PruneStart(m0, soup.rank, soup.height, root, dict);
    while stack != []
      invariant soup.Valid() && soup.rank == old(soup.rank) && soup.height == old(soup.height) && soup.next == old(soup.next)
      invariant WellFormed(m0, soup.rank, soup.height)
      invariant PruneInv(m0, soup.nodes, soup.rank, root, dict, stack, popped, kept)
      invariant Hung(m0, soup.nodes, soup.rank, soup.height, root, dict, stack, kept)
      invariant InOrder(m0, soup.nodes, root, popped, kept)
      invariant Distinct(order) && (forall y :: y in order <==> y in popped) && popped <= m0.Keys
      decreases m0.Keys - popped
    {
      SplitLast(stack);
      var x := stack[|stack| - 1];
      stack := stack[..|stack| - 1];
      var kids;
      kids, kept := Visit(soup, root, dict, m0, stack, x, popped, kept);
      DistinctConcat(order, [x]);
      popped := popped + {x};
      order := order + [x];
      stack := stack + kids;
    }
    PrunedAtEnd(m0, soup.nodes, soup.rank, soup.height, root, dict, popped, kept);
  }
}
