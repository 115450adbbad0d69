/**
 * `condense`: a lexical normaliser for serialised HTML. It deletes every
 * whitespace run that follows a `>`, strips the ends, deletes every
 * whitespace run that precedes a `<`, and strips the ends again.
 */
module Condense {

  /** The whitespace the model recognises: space and the ASCII controls tab .. carriage return. */
  predicate IsSpace(c: char)
  {
    c == ' ' || '\t' <= c <= '\r'
  }

  predicate NoSpaceAfterGt(s: string)
  {
    forall i :: 0 <= i < |s| - 1 && s[i] == '>' ==> !IsSpace(s[i + 1])
  }

  predicate NoSpaceBeforeLt(s: string)
  {
    forall i :: 0 < i < |s| && s[i] == '<' ==> !IsSpace(s[i - 1])
  }

  predicate Trimmed(s: string)
  {
    s == [] || (!IsSpace(s[0]) && !IsSpace(s[|s| - 1]))
  }

  /** The shape every output of `Condense` has. */
  predicate Condensed(s: string)
  {
    NoSpaceAfterGt(s) && NoSpaceBeforeLt(s) && Trimmed(s)
  }

  /** Drops the leading whitespace run (`lstrip`). */
  function SkipSpaces(s: string): (r: string)
    ensures |r| <= |s| && r == s[|s| - |r|..]
    ensures forall i :: 0 <= i < |s| - |r| ==> IsSpace(s[i])
    ensures r == [] || !IsSpace(r[0])
  {
    if s != [] && IsSpace(s[0]) then SkipSpaces(s[1..]) else s
  }

  /** Drops the trailing whitespace run (`rstrip`). */
  function TrimEnd(s: string): (r: string)
    ensures |r| <= |s| && r == s[..|r|]
    ensures forall i :: |r| <= i < |s| ==> IsSpace(s[i])
    ensures r == [] || !IsSpace(r[|r| - 1])
  {
    if s != [] && IsSpace(s[|s| - 1]) then TrimEnd(s[..|s| - 1]) else s
  }

  /** Python's `strip()` restricted to the model's whitespace. */
  function Strip(s: string): (r: string)
    ensures Trimmed(r)
  {
    TrimEnd(SkipSpaces(s))
  }

  /** `re.sub('>\s+', '>', s)`: every whitespace run right after a `>` is deleted. */
  function CollapseAfterGt(s: string): (r: string)
    ensures |r| <= |s|
    ensures (r == []) == (s == [])
    ensures r != [] ==> r[0] == s[0]
    ensures NoSpaceAfterGt(r)
    decreases |s|
  {
    if s == [] then []
    else if s[0] == '>' then [s[0]] + CollapseAfterGt(SkipSpaces(s[1..]))
    else [s[0]] + CollapseAfterGt(s[1..])
  }

  /** The leading whitespace run of `s` is non-empty and directly followed by `<`. */
  predicate RunBeforeLt(s: string)
  {
    s != [] && IsSpace(s[0]) && SkipSpaces(s) != [] && SkipSpaces(s)[0] == '<'
  }

  /**
   * `re.sub('\s+<', '<', s)`: every whitespace run right before a `<` is
   * deleted. A whitespace character is kept exactly when the run it starts
   * is not followed by `<`.
   */
  function CollapseBeforeLt(s: string): (r: string)
    ensures |r| <= |s|
    ensures (r == []) == (s == [])
    ensures r != [] ==> r[0] == if RunBeforeLt(s) then '<' else s[0]
    ensures NoSpaceBeforeLt(r)
    decreases |s|
  {
    if s == [] then []
    else if RunBeforeLt(s) then CollapseBeforeLt(SkipSpaces(s))
    else [s[0]] + CollapseBeforeLt(s[1..])
  }

  /** `condense(s)`. */
  function Condense(s: string): (r: string)
    ensures Condensed(r)
  {
    var once := Strip(CollapseAfterGt(s));
    NoSpaceAfterGtSlice(CollapseAfterGt(s));
    CollapseBeforeLtKeepsAfterGt(once);
    var twice := CollapseBeforeLt(once);
    NoSpaceAfterGtSlice(twice);
    NoSpaceBeforeLtSlice(twice);
    Strip(twice)
  }

  /** Both gap properties survive taking a contiguous piece, so `Strip` keeps them. */
  lemma GapsInSlice(s: string, lo: nat, hi: nat)
    requires lo <= hi <= |s|
    ensures NoSpaceAfterGt(s) ==> NoSpaceAfterGt(s[lo..hi])
    ensures NoSpaceBeforeLt(s) ==> NoSpaceBeforeLt(s[lo..hi])
  {
    var t := s[lo..hi];
    assert forall i :: 0 <= i < |t| ==> t[i] == s[lo + i];
  }

  lemma NoSpaceAfterGtSlice(s: string)
    requires NoSpaceAfterGt(s)
    ensures NoSpaceAfterGt(SkipSpaces(s)) && NoSpaceAfterGt(Strip(s))
  {
    var a := SkipSpaces(s);
    GapsInSlice(s, |s| - |a|, |s|);
    GapsInSlice(a, 0, |Strip(s)|);
  }

  lemma NoSpaceBeforeLtSlice(s: string)
    requires NoSpaceBeforeLt(s)
    ensures NoSpaceBeforeLt(Strip(s))
  {
    var a := SkipSpaces(s);
    GapsInSlice(s, |s| - |a|, |s|);
    GapsInSlice(a, 0, |Strip(s)|);
  }

  /** Deleting whitespace before `<` never puts whitespace after a `>`. */
  lemma {:induction false} CollapseBeforeLtKeepsAfterGt(s: string)
    requires NoSpaceAfterGt(s)
    ensures NoSpaceAfterGt(CollapseBeforeLt(s))
    decreases |s|
  {
    if s == [] {
    } else if RunBeforeLt(s) {
      NoSpaceAfterGtSlice(s);
      CollapseBeforeLtKeepsAfterGt(SkipSpaces(s));
    } else {
      assert NoSpaceAfterGt(s[1..]);
      CollapseBeforeLtKeepsAfterGt(s[1..]);
      var r := CollapseBeforeLt(s);
      var tail := CollapseBeforeLt(s[1..]);
      assert r == [s[0]] + tail;
      if s[0] == '>' && tail != [] {
        assert !RunBeforeLt(s[1..]);
        assert tail[0] == s[1];
      }
    }
  }

  /** The three rewriting steps leave an already condensed string alone. */
  lemma {:induction false} CollapseAfterGtFixes(s: string)
    requires NoSpaceAfterGt(s)
    ensures CollapseAfterGt(s) == s
    decreases |s|
  {
    if s != [] {
      assert NoSpaceAfterGt(s[1..]);
      if s[0] == '>' {
        assert SkipSpaces(s[1..]) == s[1..];
      }
      CollapseAfterGtFixes(s[1..]);
    }
  }

  lemma {:induction false} CollapseBeforeLtFixes(s: string)
    requires NoSpaceBeforeLt(s)
    ensures CollapseBeforeLt(s) == s
    decreases |s|
  {
    if s != [] {
      NoRunBeforeLt(s);
      assert NoSpaceBeforeLt(s[1..]);
      CollapseBeforeLtFixes(s[1..]);
    }
  }

  lemma NoRunBeforeLt(s: string)
    requires NoSpaceBeforeLt(s)
    ensures !RunBeforeLt(s)
  {
    if s != [] && IsSpace(s[0]) && SkipSpaces(s) != [] {
      var k := |s| - |SkipSpaces(s)|;
      assert k >= 1 && s[k] == SkipSpaces(s)[0] && IsSpace(s[k - 1]);
    }
  }

  lemma StripFixes(s: string)
    requires Trimmed(s)
    ensures Strip(s) == s
  {
  }

  /** A condensed string is a fixed point of `Condense`. */
  lemma CondenseFixes(s: string)
    requires Condensed(s)
    ensures Condense(s) == s
  {
    CollapseAfterGtFixes(s);
    StripFixes(s);
    CollapseBeforeLtFixes(s);
  }

  /** `condense(condense(s)) == condense(s)`. */
  lemma CondenseIdempotent(s: string)
    ensures Condense(Condense(s)) == Condense(s)
  {
    CondenseFixes(Condense(s));
  }
}
