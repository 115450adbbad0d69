// `html_to_xhtml` (pypub/clean.py:165-197): stamp the XHTML namespace on
// the `html` element, serialise, and respell every collapsed void tag
// `<t/>` of the singleton list as `<t />`.

module Xhtml {
  import opened Wrappers
  import opened Text
  import opened Tree
  import opened Fragment

  /** The namespace written into the `xmlns` attribute of `html` (line 190). */
  const XhtmlNamespace := "http://www.w3.org/1999/xhtml"

  /** bs4's `prettify(formatter='html')` of the document below a node. */
  type Prettify = (map<Handle, Node>, Handle) -> string

  /** `<t/>`: how the serialiser writes an empty void element. */
  function Collapsed(t: string): string
  {
    "<" + t + "/>"
  }

  /** `<t />`: the spelling the XHTML readers expect. */
  function Spaced(t: string): string
  {
    "<" + t + " />"
  }

  /** A tag name: non-empty, without `<`, `/`, `>` or a space. */
  predicate Plain(t: string)
  {
    |t| > 0 && forall k :: 0 <= k < |t| ==> t[k] != '<' && t[k] != '/' && t[k] != '>' && t[k] != ' '
  }

  /**
   * Lines 194-197 after the first `|tags|` rounds of the loop: each tag in
   * list order replaces its collapsed form by its spaced form. When every
   * listed tag is a plain name, no listed tag is left collapsed.
   */
  function CloseAll(s: string, tags: seq<string>): (r: string)
    ensures (forall t :: t in tags ==> Plain(t)) ==> forall t :: t in tags ==> !Occurs(r, Collapsed(t))
    decreases |tags|
  {
    if tags == [] then s
    else
      var n := |tags| - 1;
      var prev := CloseAll(s, tags[..n]);
      CloseStep(prev, tags);
      ReplaceAll(prev, Collapsed(tags[n]), Spaced(tags[n]))
  }

  /** The collapsed and spaced spellings of the same tag first differ after the name. */
  lemma SameNameDiffers(t: string)
    ensures Spaced(t)[|t| + 1] == ' ' && Collapsed(t)[|t| + 1] == '/'
  {
  }

  /** Where two different tag names first part, their spelled-out tags part too. */
  lemma NamesDiffer(t: string, u: string) returns (k: nat)
    requires Plain(t) && Plain(u) && t != u
    ensures k < |Spaced(u)| && k < |Collapsed(t)| && Spaced(u)[k] != Collapsed(t)[k]
  {
    var j := 0;
    while j < |t| && j < |u| && t[j] == u[j]
      invariant j <= |t| && j <= |u| && forall i :: 0 <= i < j ==> t[i] == u[i]
    {
      j := j + 1;
    }
    k := j + 1;
    assert j == |t| && j == |u| ==> t == u;
    if j == |t| {
      assert Collapsed(t)[k] == '/' && Spaced(u)[k] == u[j];
    } else if j == |u| {
      assert Spaced(u)[k] == ' ' && Collapsed(t)[k] == t[j];
    } else {
      assert Spaced(u)[k] == u[j] && Collapsed(t)[k] == t[j];
    }
  }

  /** A collapsed tag cannot overlap a spaced tag, whatever the two names. */
  lemma CollapsedApart(t: string, u: string)
    requires Plain(t) && Plain(u)
    ensures NoOverlap(Collapsed(t), Spaced(u))
  {
    var p, rep := Collapsed(t), Spaced(u);
    forall i | 0 <= i < |rep| ensures Disagree(rep[i..], p) {
      if i > 0 {
        assert rep[i..][0] == rep[i] && rep[i] != '<' by {
          if i <= |u| {
            assert rep[i] == u[i - 1];
          }
        }
        DisagreeAt(rep[i..], p, 0);
      } else if t == u {
        SameNameDiffers(t);
        DisagreeAt(rep, p, |t| + 1);
      } else {
        var k := NamesDiffer(t, u);
        DisagreeAt(rep, p, k);
      }
    }
    forall d | 0 < d < |p| ensures Disagree(p[d..], rep) {
      assert p[d..][0] == p[d] && p[d] != '<' by {
        if d <= |t| {
          assert p[d] == t[d - 1];
        }
      }
      DisagreeAt(p[d..], rep, 0);
    }
  }

  /**
   * One round of the loop: if no tag before the last is collapsed in
   * `prev`, replacing the last one leaves no listed tag collapsed.
   */
  lemma CloseStep(prev: string, tags: seq<string>)
    requires |tags| > 0
    ensures var n := |tags| - 1;
            (forall t :: t in tags ==> Plain(t)) && (forall t :: t in tags[..n] ==> !Occurs(prev, Collapsed(t))) ==>
              forall t :: t in tags ==> !Occurs(ReplaceAll(prev, Collapsed(tags[n]), Spaced(tags[n])), Collapsed(t))
  {
    var n := |tags| - 1;
    if (forall t :: t in tags ==> Plain(t)) && (forall t :: t in tags[..n] ==> !Occurs(prev, Collapsed(t))) {
      forall t | t in tags ensures !Occurs(ReplaceAll(prev, Collapsed(tags[n]), Spaced(tags[n])), Collapsed(t)) {
        CollapsedApart(t, tags[n]);
        if t != tags[n] {
          assert t in tags[..n] by {
            var j :| 0 <= j < |tags| && tags[j] == t;
            assert j < n && tags[..n][j] == t;
          }
        }
        NoneAfterReplace(prev, Collapsed(tags[n]), Spaced(tags[n]), Collapsed(t));
      }
    }
  }

  /** A text with no collapsed tag of the list comes out of the loop unchanged. */
  lemma {:induction false} CloseAllKeeps(s: string, tags: seq<string>)
    requires forall t :: t in tags ==> !Occurs(s, Collapsed(t))
    ensures CloseAll(s, tags) == s
    decreases |tags|
  {
    if tags != [] {
      var n := |tags| - 1;
      CloseAllKeeps(s, tags[..n]);
      ReplaceAbsent(s, Collapsed(tags[n]), Spaced(tags[n]));
    }
  }

  /** The loop of lines 194-197. */
  method CloseSingletons(s0: string, tags: seq<string>) returns (s: string)
    ensures s == CloseAll(s0, tags)
    ensures (forall t :: t in tags ==> Plain(t)) ==> forall t :: t in tags ==> !Occurs(s, Collapsed(t))
  {
    s := s0;
    for i := 0 to |tags|
      invariant s == CloseAll(s0, tags[..i])
    {
      assert tags[..i + 1][..i] == tags[..i];
      s := ReplaceAll(s, Collapsed(tags[i]), Spaced(tags[i]));
    }
    assert tags[..|tags|] == tags;
  }

  /**
   * `html_to_xhtml` on a parsed document `doc`: a ValueError (and no change)
   * without an `html` element; otherwise the first `html` gets the XHTML
   * namespace and the prettified document goes through the singleton loop.
   */
  method HtmlToXhtml(soup: Soup, doc: Handle, prettify: Prettify, tags: seq<string>) returns (r: Result<string, Error>)
    requires soup.Valid() && doc in soup.nodes
    modifies soup
    ensures soup.Valid()
    ensures Find(old(soup.nodes), old(soup.rank), old(soup.height), doc, "html").None? ==>
              r == Err(ValueError) && soup.nodes == old(soup.nodes)
    ensures Find(old(soup.nodes), old(soup.rank), old(soup.height), doc, "html").Some? ==>
              var h := Find(old(soup.nodes), old(soup.rank), old(soup.height), doc, "html").value;
              soup.nodes == old(soup.nodes)[h := old(soup.nodes)[h].(attrs := old(soup.nodes)[h].attrs["xmlns" := XhtmlNamespace])] &&
              r == Ok(CloseAll(prettify(soup.nodes, doc), tags))
    ensures r.Ok? && (forall t :: t in tags ==> Plain(t)) ==> forall t :: t in tags ==> !Occurs(r.value, Collapsed(t))
  {
    var html := Find(soup.nodes, soup.rank, soup.height, doc, "html");
    if html.None? {
      return Err(ValueError);
    }
    soup.SetAttribute(html.value, "xmlns", XhtmlNamespace);
    var s := CloseSingletons(prettify(soup.nodes, doc), tags);
    return Ok(s);
  }
}
