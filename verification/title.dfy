// The chapter title in `clean` (pypub/clean.py:88-92 and 115-124): how it is
// read from the document when the caller gives none, and how it is written
// back into `<html><head><title>`.

module Title {
  import opened Wrappers
  import opened Tree
  import opened Fragment

  /** The title used when the document has a head without a `<title>`. */
  const DefaultTitle := "Ebook Chapter"

  /**
   * Python's `unicode(x)` of an optional string: a string is itself, and
   * `None` prints as `'None'`, which no caller can tell from the text "None".
   */
  function Unicode(s: Option<string>): (r: string)
    ensures s.Some? ==> r == s.value
    ensures r == "None" <==> s == None || s == Some("None")
  {
    if s.Some? then s.value else "None"
  }

  /** `root.html.head`, or None when either lookup finds nothing. */
  function HeadOf(m: map<Handle, Node>, ghost rank: map<Handle, int>, ghost height: int, root: Handle): (r: Option<Handle>)
    requires WellFormed(m, rank, height) && root in m
    ensures r.Some? ==> r.value in m && m[r.value].kind == Element("head")
  {
    match Find(m, rank, height, root, "html")
    case None => None
    case Some(html) => Find(m, rank, height, html, "head")
  }

  /**
   * Lines 88-92: the title of the chapter. A title given by the caller is
   * kept as it is. Otherwise `root.html.head.title` is looked up: without an
   * html or a head the attribute lookup on None raises AttributeError; a head
   * without a title gives the default; a title element gives `unicode` of its
   * `.string`, which is `'None'` whenever that string is missing.
   */
  function ResolveTitle(m: map<Handle, Node>, ghost rank: map<Handle, int>, ghost height: int,
                        root: Handle, title: Option<string>): (r: Result<string, Error>)
    requires WellFormed(m, rank, height) && root in m
    ensures title.Some? ==> r == Ok(title.value)
    ensures title.None? ==> (r.Err? <==> HeadOf(m, rank, height, root).None?)
    ensures r.Err? ==> r.error == AttributeError
    ensures title.None? && r.Ok? ==>
              var t := Find(m, rank, height, HeadOf(m, rank, height, root).value, "title");
              r.value == if t.None? then DefaultTitle else Unicode(StringOf(m, rank, height, t.value))
  {
    if title.Some? then Ok(title.value)
    else
      match HeadOf(m, rank, height, root)
      case None => Err(AttributeError)
      case Some(head) =>
        match Find(m, rank, height, head, "title")
        case None => Ok(DefaultTitle)
        case Some(t) => Ok(Unicode(StringOf(m, rank, height, t)))
  }

  /** A `<title></title>` without content yields the title `'None'`, not an empty title. */
  lemma EmptyTitleGivesNone(m: map<Handle, Node>, rank: map<Handle, int>, height: int, root: Handle)
    requires WellFormed(m, rank, height) && root in m
    requires HeadOf(m, rank, height, root).Some?
    requires var t := Find(m, rank, height, HeadOf(m, rank, height, root).value, "title");
             t.Some? && m[t.value].children == []
    ensures ResolveTitle(m, rank, height, root, None) == Ok("None")
  {
    var t := Find(m, rank, height, HeadOf(m, rank, height, root).value, "title");
    assert t.value in m;
    assert StringOf(m, rank, height, t.value) == None;
  }

  /**
   * Lines 116-117: `if root.html.head is None: root.html.insert(0, new head)`.
   * Afterwards `html.head` is `head`: the one found before, or a fresh empty
   * head now first among the children of `html`.
   */
  method EnsureHead(soup: Soup, html: Handle) returns (head: Handle)
    requires soup.Valid() && html in soup.nodes && soup.nodes[html].kind == Element("html")
    modifies soup
    ensures soup.Valid() && soup.height >= old(soup.height)
    ensures forall h :: h in old(soup.nodes) ==> h in soup.nodes && soup.rank[h] == old(soup.rank)[h]
    ensures Find(soup.nodes, soup.rank, soup.height, html, "head") == Some(head)
    ensures var found := Find(old(soup.nodes), old(soup.rank), old(soup.height), html, "head");
            found.Some? ==> head == found.value && soup.nodes == old(soup.nodes) && soup.next == old(soup.next) &&
                            soup.rank == old(soup.rank) && soup.height == old(soup.height)
    ensures var found := Find(old(soup.nodes), old(soup.rank), old(soup.height), html, "head");
            found.None? ==>
              head == old(soup.next) && soup.next == old(soup.next) + 1 &&
              soup.nodes == old(soup.nodes)[html := old(soup.nodes)[html].(children := [head] + old(soup.nodes)[html].children)]
                                           [head := Node(Element("head"), map[], [], Some(html))]
  {
    var found := Find(soup.nodes, soup.rank, soup.height, html, "head");
    if found.Some? {
      return found.value;
    }
    ghost var m0 := soup.nodes;
    head := soup.NewNode(Element("head"), soup.rank[html] + 1);
    soup.InsertFirst(html, head);
    assert Without(m0[html].children, head) == m0[html].children;
    assert soup.nodes == m0[html := m0[html].(children := [head] + m0[html].children)]
                           [head := Node(Element("head"), map[], [], Some(html))];
    FirstChildFound(soup.nodes, soup.rank, soup.height, html, "head");
  }

  /**
   * `m'` is `m` after a fresh `<title>` numbered `t`, holding the fresh text
   * node `t + 1` with `text`, was appended to `head`; no other node changes.
   */
  ghost predicate TitleAppended(m: map<Handle, Node>, m': map<Handle, Node>, head: Handle, t: Handle, text: string)
  {
    && head in m && t !in m && t + 1 !in m && m'.Keys == m.Keys + {t, t + 1}
    && m'[head] == m[head].(children := m[head].children + [t])
    && m'[t] == Node(Element("title"), map[], [t + 1], Some(head))
    && m'[t + 1] == Node(Text(text), map[], [], Some(t))
    && forall x :: x in m && x != head ==> m'[x] == m[x]
  }

  /** `h.string = text` on a childless `h` just adds the text node. */
  lemma StringedLeaf(m1: map<Handle, Node>, m2: map<Handle, Node>, h: Handle, s: Handle, text: string)
    requires Stringed(m1, m2, h, s, text) && m1[h].children == []
    ensures m2 == m1[h := m1[h].(children := [s])][s := Node(Text(text), map[], [], Some(h))]
  {
  }

  /**
   * Lines 119-120: `tmp_tag = root.new_tag('title')`, then
   * `tmp_tag.string = title`: a detached title `t` holding the fresh text
   * node `t + 1`.
   */
  method NewTitle(soup: Soup, title: string, ghost r: int) returns (t: Handle)
    requires soup.Valid()
    modifies soup
    ensures soup.Valid() && soup.height >= old(soup.height) && t == old(soup.next) && soup.next == t + 2
    ensures soup.rank == old(soup.rank)[t := r][t + 1 := r + 1]
    ensures soup.nodes == old(soup.nodes)[t := Node(Element("title"), map[], [t + 1], None)]
                                         [t + 1 := Node(Text(title), map[], [], Some(t))]
  {
    t := soup.NewNode(Element("title"), r);
    ghost var m1 := soup.nodes;
    var s := soup.SetString(t, title);
    StringedLeaf(m1, soup.nodes, t, s, title);
  }

  /** Appending the detached new title to `head` gives `TitleAppended`. */
  lemma AppendTitleSteps(m0: map<Handle, Node>, m2: map<Handle, Node>, m3: map<Handle, Node>,
                         head: Handle, t: Handle, text: string)
    requires head in m0 && (forall h :: h in m0 ==> h < t)
    requires forall c :: c in m0[head].children ==> c in m0
    requires m2 == m0[t := Node(Element("title"), map[], [t + 1], None)][t + 1 := Node(Text(text), map[], [], Some(t))]
    requires m3.Keys == m2.Keys && m3[t] == m2[t].(parent := Some(head))
    requires m3[head] == m2[head].(children := Without(m2[head].children, t) + [t])
    requires forall h :: h in m2 && h != t && h != head && Some(h) != m2[t].parent ==> m3[h] == m2[h]
    ensures TitleAppended(m0, m3, head, t, text)
  {
    assert head != t && head != t + 1;
    assert t !in m0[head].children;
    assert Without(m0[head].children, t) == m0[head].children;
    forall x | x in m0 && x != head ensures m3[x] == m0[x] {
      assert x != t && x != t + 1;
    }
  }

  /** Ranks given to two fresh handles leave the ranks of the older nodes alone. */
  lemma FreshRanks(m0: map<Handle, Node>, r0: map<Handle, int>, r: map<Handle, int>, t: Handle, a: int)
    requires m0.Keys <= r0.Keys && (forall h :: h in m0 ==> h < t)
    requires r == r0[t := a][t + 1 := a + 1]
    ensures forall h :: h in m0 ==> h in r && r[h] == r0[h]
  {
    forall h | h in m0 ensures h in r && r[h] == r0[h] {
      assert h != t && h != t + 1;
    }
  }

  /**
   * Lines 119-122: `tmp_tag = new_tag('title')`, `tmp_tag.string = title`,
   * `head.append(tmp_tag)`: a fresh title holding `title` becomes the last
   * child of `head`, and nothing else changes.
   */
  method AppendTitle(soup: Soup, head: Handle, title: string) returns (t: Handle)
    requires soup.Valid() && head in soup.nodes && soup.nodes[head].kind.Element?
    modifies soup
    ensures soup.Valid() && soup.height >= old(soup.height) && soup.next == old(soup.next) + 2
    ensures forall h :: h in old(soup.nodes) ==> h in soup.nodes && soup.rank[h] == old(soup.rank)[h]
    ensures t == old(soup.next) && TitleAppended(old(soup.nodes), soup.nodes, head, t, title)
    ensures StringOf(soup.nodes, soup.rank, soup.height, t) == Some(title)
  {
    ghost var m0 := soup.nodes;
    ghost var r0 := soup.rank;
    assert m0.Keys <= r0.Keys && (forall h :: h in m0 ==> h < soup.next) && forall c :: c in m0[head].children ==> c in m0;
    t := NewTitle(soup, title, r0[head] + 1);
    FreshRanks(m0, r0, soup.rank, t, r0[head] + 1);
    ghost var m2 := soup.nodes;
    soup.Append(head, t);
    AppendTitleSteps(m0, m2, soup.nodes, head, t, title);
  }

  /**
   * Lines 118-124: the first title below `head` gets `title` as its string
   * (its old children are detached; `head` and every other node stay as
   * they were); without one, a fresh `<title>` holding `title` is appended
   * to `head`. Either way `title` is what the title element's `.string`
   * now reads.
   */
  method EnsureTitle(soup: Soup, head: Handle, title: string) returns (t: Handle)
    requires soup.Valid() && head in soup.nodes && soup.nodes[head].kind == Element("head")
    modifies soup
    ensures soup.Valid() && soup.height >= old(soup.height)
    ensures forall h :: h in old(soup.nodes) ==> h in soup.nodes && soup.rank[h] == old(soup.rank)[h]
    ensures t in soup.nodes && soup.nodes[t].kind == Element("title")
    ensures StringOf(soup.nodes, soup.rank, soup.height, t) == Some(title)
    ensures var found := Find(old(soup.nodes), old(soup.rank), old(soup.height), head, "title");
            found.Some? ==> t == found.value && Stringed(old(soup.nodes), soup.nodes, t, old(soup.next), title) &&
                            soup.nodes[head] == old(soup.nodes)[head]
    ensures var found := Find(old(soup.nodes), old(soup.rank), old(soup.height), head, "title");
            found.None? ==> t == old(soup.next) && TitleAppended(old(soup.nodes), soup.nodes, head, t, title)
  {
    var found := Find(soup.nodes, soup.rank, soup.height, head, "title");
    if found.Some? {
      t := found.value;
      TitleBelowHead(soup.nodes, soup.rank, soup.height, head, t);
      var s := soup.SetString(t, title);
    } else {
      t := AppendTitle(soup, head, title);
    }
  }

  /** A node found below `head` is not `head` and does not have `head` among its children. */
  lemma TitleBelowHead(m: map<Handle, Node>, rank: map<Handle, int>, height: int, head: Handle, t: Handle)
    requires WellFormed(m, rank, height) && head in m && t in Descendants(m, rank, height, head)
    ensures t != head && head !in m[t].children
  {
    assert t in m && rank[t] > rank[head];
  }

  /**
   * Lines 115-124 can run to the end: the title is empty, or there is an
   * html element and either `root` is the document (so `new_tag` exists) or
   * both `html.head` and `head.title` already exist.
   */
  ghost predicate TitleWritable(m: map<Handle, Node>, rank: map<Handle, int>, height: int, root: Handle, title: string)
    requires WellFormed(m, rank, height) && root in m
  {
    title == "" ||
    (Find(m, rank, height, root, "html").Some? &&
     (m[root].kind == Element(DocumentName) ||
      (HeadOf(m, rank, height, root).Some? && Find(m, rank, height, HeadOf(m, rank, height, root).value, "title").Some?)))
  }

  /** `m` with a fresh empty head `h` inserted first among the children of `html`. */
  function WithHead(m: map<Handle, Node>, html: Handle, h: Handle): map<Handle, Node>
    requires html in m
  {
    m[html := m[html].(children := [h] + m[html].children)][h := Node(Element("head"), map[], [], Some(html))]
  }

  /**
   * `m'` is `m` after lines 115-124 ran to the end with fresh handles from
   * `next` on: nothing for an empty title; otherwise the existing title's
   * string is replaced, or a new title is appended to the existing head, or
   * a new head is inserted first in `html` and a new title appended to it.
   */
  ghost predicate TitleWritten(m: map<Handle, Node>, rank: map<Handle, int>, height: int, next: Handle,
                               root: Handle, title: string, m': map<Handle, Node>)
    requires WellFormed(m, rank, height) && root in m
  {
    if title == "" then m' == m
    else match Find(m, rank, height, root, "html")
      case None => false
      case Some(html) =>
        match Find(m, rank, height, html, "head")
        case None => TitleAppended(WithHead(m, html, next), m', next, next + 1, title)
        case Some(head) =>
          match Find(m, rank, height, head, "title")
          case None => TitleAppended(m, m', head, next, title)
          case Some(t) => Stringed(m, m', t, next, title) && m'[head] == m[head]
  }

  /** A node without children has nothing below it to find. */
  lemma LeafFindsNothing(m: map<Handle, Node>, rank: map<Handle, int>, height: int, h: Handle, name: string)
    requires WellFormed(m, rank, height) && h in m && m[h].children == []
    ensures Find(m, rank, height, h, name) == None
  {
    assert Descendants(m, rank, height, h) == [];
  }

  /**
   * In a fresh shell document `root.html.head` is the shell's empty head,
   * so a fragment's title resolves to the default.
   */
  lemma ShellTitle(m: map<Handle, Node>, rank: map<Handle, int>, height: int, doc: Handle, content: seq<Handle>)
    requires WellFormed(m, rank, height) && IsShell(m, doc, content)
    ensures HeadOf(m, rank, height, doc).Some?
    ensures ResolveTitle(m, rank, height, doc, None) == Ok(DefaultTitle)
  {
    var html := m[doc].children[0];
    var head := m[html].children[0];
    FirstChildFound(m, rank, height, doc, "html");
    FirstChildFound(m, rank, height, html, "head");
    LeafFindsNothing(m, rank, height, head, "title");
  }

  /** The three ways lines 116-124 can go, each read as `TitleWritten`. */
  lemma WrittenNewHead(m: map<Handle, Node>, rank: map<Handle, int>, height: int, next: Handle,
                       root: Handle, title: string, html: Handle, m': map<Handle, Node>)
    requires WellFormed(m, rank, height) && root in m && title != ""
    requires Find(m, rank, height, root, "html") == Some(html) && Find(m, rank, height, html, "head").None?
    requires TitleAppended(WithHead(m, html, next), m', next, next + 1, title)
    ensures TitleWritten(m, rank, height, next, root, title, m')
  {
  }

  lemma WrittenOldHead(m: map<Handle, Node>, rank: map<Handle, int>, height: int, next: Handle,
                       root: Handle, title: string, html: Handle, head: Handle, m': map<Handle, Node>)
    requires WellFormed(m, rank, height) && root in m && title != ""
    requires Find(m, rank, height, root, "html") == Some(html) && Find(m, rank, height, html, "head") == Some(head)
    requires Find(m, rank, height, head, "title").None? && TitleAppended(m, m', head, next, title)
    ensures TitleWritten(m, rank, height, next, root, title, m')
  {
  }

  lemma WrittenOldTitle(m: map<Handle, Node>, rank: map<Handle, int>, height: int, next: Handle,
                        root: Handle, title: string, html: Handle, head: Handle, t: Handle, m': map<Handle, Node>)
    requires WellFormed(m, rank, height) && root in m && title != ""
    requires Find(m, rank, height, root, "html") == Some(html) && Find(m, rank, height, html, "head") == Some(head)
    requires Find(m, rank, height, head, "title") == Some(t) && Stringed(m, m', t, next, title) && m'[head] == m[head]
    ensures TitleWritten(m, rank, height, next, root, title, m')
  {
  }

  /**
   * Lines 116-124 once `root.html` is known to be `html`: make sure a head
   * exists, then set or append the title.
   */
  method WriteTitle(soup: Soup, root: Handle, html: Handle, title: string) returns (t: Handle)
    requires soup.Valid() && root in soup.nodes && title != ""
    requires Find(soup.nodes, soup.rank, soup.height, root, "html") == Some(html)
    modifies soup
    ensures soup.Valid() && soup.height >= old(soup.height)
    ensures forall h :: h in old(soup.nodes) ==> h in soup.nodes && soup.rank[h] == old(soup.rank)[h]
    ensures TitleWritten(old(soup.nodes), old(soup.rank), old(soup.height), old(soup.next), root, title, soup.nodes)
    ensures t in soup.nodes && soup.nodes[t].kind == Element("title")
    ensures StringOf(soup.nodes, soup.rank, soup.height, t) == Some(title)
  {
    var head := Find(soup.nodes, soup.rank, soup.height, html, "head");
    if head.None? {
      t := WriteWithNewHead(soup, root, html, title);
    } else {
      t := WriteIntoHead(soup, root, html, head.value, title);
    }
  }

  /** Lines 116-122 when `html` has no head: a new head, then a new title in it. */
  method WriteWithNewHead(soup: Soup, root: Handle, html: Handle, title: string) returns (t: Handle)
    requires soup.Valid() && root in soup.nodes && title != ""
    requires Find(soup.nodes, soup.rank, soup.height, root, "html") == Some(html)
    requires Find(soup.nodes, soup.rank, soup.height, html, "head").None?
    modifies soup
    ensures soup.Valid() && soup.height >= old(soup.height)
    ensures forall h :: h in old(soup.nodes) ==> h in soup.nodes && soup.rank[h] == old(soup.rank)[h]
    ensures TitleWritten(old(soup.nodes), old(soup.rank), old(soup.height), old(soup.next), root, title, soup.nodes)
    ensures t in soup.nodes && soup.nodes[t].kind == Element("title")
    ensures StringOf(soup.nodes, soup.rank, soup.height, t) == Some(title)
  {
    ghost var m0, rank0, height0, next0 := soup.nodes, soup.rank, soup.height, soup.next;
    var h := EnsureHead(soup, html);
    LeafFindsNothing(soup.nodes, soup.rank, soup.height, h, "title");
    t := EnsureTitle(soup, h, title);
    WrittenNewHead(m0, rank0, height0, next0, root, title, html, soup.nodes);
  }

  /** Lines 118-124 when `html.head` is `head`: set its title's string, or append a title. */
  method WriteIntoHead(soup: Soup, root: Handle, html: Handle, head: Handle, title: string) returns (t: Handle)
    requires soup.Valid() && root in soup.nodes && title != ""
    requires Find(soup.nodes, soup.rank, soup.height, root, "html") == Some(html)
    requires Find(soup.nodes, soup.rank, soup.height, html, "head") == Some(head)
    modifies soup
    ensures soup.Valid() && soup.height >= old(soup.height)
    ensures forall h :: h in old(soup.nodes) ==> h in soup.nodes && soup.rank[h] == old(soup.rank)[h]
    ensures TitleWritten(old(soup.nodes), old(soup.rank), old(soup.height), old(soup.next), root, title, soup.nodes)
    ensures t in soup.nodes && soup.nodes[t].kind == Element("title")
    ensures StringOf(soup.nodes, soup.rank, soup.height, t) == Some(title)
  {
    ghost var m0, rank0, height0, next0 := soup.nodes, soup.rank, soup.height, soup.next;
    var found := Find(soup.nodes, soup.rank, soup.height, head, "title");
    t := EnsureTitle(soup, head, title);
    if found.None? {
      WrittenOldHead(m0, rank0, height0, next0, root, title, html, head, soup.nodes);
    } else {
      WrittenOldTitle(m0, rank0, height0, next0, root, title, html, head, t, soup.nodes);
    }
  }

  /** `TitleWritable` spelled out with the lookups `MaterializeTitle` makes. */
  lemma WritableCases(m: map<Handle, Node>, rank: map<Handle, int>, height: int, root: Handle, title: string,
                      html: Option<Handle>, head: Option<Handle>)
    requires WellFormed(m, rank, height) && root in m && title != ""
    requires html == Find(m, rank, height, root, "html")
    requires html.Some? ==> head == Find(m, rank, height, html.value, "head")
    ensures TitleWritable(m, rank, height, root, title) <==>
              html.Some? && (m[root].kind == Element(DocumentName) ||
                             (head.Some? && Find(m, rank, height, head.value, "title").Some?))
  {
  }

  /**
   * Lines 115-124: with a non-empty title, make sure `root.html.head.title`
   * exists and reads `title`. An empty title leaves the tree alone. A
   * missing html raises AttributeError. When `root` is an element rather
   * than the document, `root.new_tag` is bs4's lookup of a child named
   * `new_tag`, which finds nothing, so creating a head or a title raises
   * TypeError; nothing has changed by then. The write succeeds exactly when
   * `TitleWritable` holds, and then changes the tree as `TitleWritten` says.
   */
  method MaterializeTitle(soup: Soup, root: Handle, title: string) returns (r: Result<Option<Handle>, Error>)
    requires soup.Valid() && root in soup.nodes
    modifies soup
    ensures soup.Valid() && soup.height >= old(soup.height)
    ensures forall h :: h in old(soup.nodes) ==> h in soup.nodes && soup.rank[h] == old(soup.rank)[h]
    ensures r.Ok? <==> TitleWritable(old(soup.nodes), old(soup.rank), old(soup.height), root, title)
    ensures r.Ok? ==> TitleWritten(old(soup.nodes), old(soup.rank), old(soup.height), old(soup.next), root, title, soup.nodes)
    ensures title == "" ==> r == Ok(None)
    ensures title != "" && Find(old(soup.nodes), old(soup.rank), old(soup.height), root, "html").None? ==>
              r == Err(AttributeError)
    ensures r.Err? ==> soup.nodes == old(soup.nodes) && r.error != ValueError
    ensures r.Err? && r.error == TypeError ==> old(soup.nodes)[root].kind != Element(DocumentName)
    ensures r.Ok? && r.value.Some? ==>
              var t := r.value.value;
              t in soup.nodes && soup.nodes[t].kind == Element("title") &&
              StringOf(soup.nodes, soup.rank, soup.height, t) == Some(title)
    ensures r.Ok? && title != "" ==> r.value.Some?
  {
    if title == "" {
      return Ok(None);
    }
    var html := Find(soup.nodes, soup.rank, soup.height, root, "html");
    if html.None? {
      return Err(AttributeError);
    }
    var head := Find(soup.nodes, soup.rank, soup.height, html.value, "head");
    WritableCases(soup.nodes, soup.rank, soup.height, root, title, html, head);
    var document := soup.nodes[root].kind == Element(DocumentName);
    if !document && (head.None? || Find(soup.nodes, soup.rank, soup.height, head.value, "title").None?) {
      return Err(TypeError);
    }
    var t := WriteTitle(soup, root, html.value, title);
    return Ok(Some(t));
  }
}
