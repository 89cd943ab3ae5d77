/** Text helpers shared by the catalogue and the console (src/util.hpp).

    Case folding and white space follow the "C" locale: only 'A'..'Z' fold, and
    the six ASCII white-space characters are the only spaces. */
module Util {

  /** std::isspace in the "C" locale. */
  predicate IsSpace(c: char)
  {
    c == ' ' || c == '\t' || c == '\n' || c == '\U{0B}' || c == '\U{0C}' || c == '\r'
  }

  predicate AllSpace(s: string)
  {
    forall i :: 0 <= i < |s| ==> IsSpace(s[i])
  }

  /** std::tolower in the "C" locale. */
  function LowerChar(c: char): char
  {
    if 'A' <= c <= 'Z' then (c as int + 32) as char else c
  }

  /** to_lower: a copy of `s` with every upper-case ASCII letter folded. */
  function ToLower(s: string): (r: string)
    ensures |r| == |s|
    ensures forall i :: 0 <= i < |s| ==> r[i] == LowerChar(s[i])
  {
    if s == [] then [] else [LowerChar(s[0])] + ToLower(s[1..])
  }

  /** What folding does to each position: 'A'..'Z' move to 'a'..'z', and every other
      character, including non-ASCII ones, is kept. */
  lemma {:induction false} ToLowerAscii(s: string)
    ensures |ToLower(s)| == |s|
    ensures forall i :: 0 <= i < |s| && 'A' <= s[i] <= 'Z' ==> ToLower(s)[i] as int == s[i] as int + 32
    ensures forall i :: 0 <= i < |s| && !('A' <= s[i] <= 'Z') ==> ToLower(s)[i] == s[i]
  {
  }

  /** A folded string holds no upper-case letter, so folding again changes nothing. */
  lemma {:induction false} ToLowerIdempotent(s: string)
    ensures forall i :: 0 <= i < |s| ==> !('A' <= ToLower(s)[i] <= 'Z')
    ensures ToLower(ToLower(s)) == ToLower(s)
  {
    var r := ToLower(s);
    assert forall i :: 0 <= i < |r| ==> ToLower(r)[i] == r[i];
  }

  /** Folding works character by character, so it distributes over concatenation. */
  lemma {:induction false} ToLowerConcat(a: string, b: string)
    ensures ToLower(a + b) == ToLower(a) + ToLower(b)
    decreases |a|
  {
    if a == [] {
      assert a + b == b;
    } else {
      assert (a + b)[0] == a[0];
      assert (a + b)[1..] == a[1..] + b;
      calc {
        ToLower(a + b);
        [LowerChar(a[0])] + ToLower(a[1..] + b);
        { ToLowerConcat(a[1..], b); }
        [LowerChar(a[0])] + (ToLower(a[1..]) + ToLower(b));
        ([LowerChar(a[0])] + ToLower(a[1..])) + ToLower(b);
        ToLower(a) + ToLower(b);
      }
    }
  }

  /** Folding never turns a space into a non-space or back. */
  lemma {:induction false} LowerCharKeepsSpace(c: char)
    ensures IsSpace(LowerChar(c)) == IsSpace(c)
  {
  }

  /** contains_ci: whether some element of `v` equals `needle` once both are folded.
      The search stops at the first hit; an empty `v` holds nothing. */
  function ContainsCi(v: seq<string>, needle: string): (b: bool)
    ensures b <==> exists x :: x in v && ToLower(x) == ToLower(needle)
    ensures v == [] ==> !b
  {
    if v == [] then false
    else if ToLower(v[0]) == ToLower(needle) then assert v[0] in v; true
    else
      assert forall x :: x in v <==> x == v[0] || x in v[1..];
      ContainsCi(v[1..], needle)
  }

  /** The needle is folded before the search, so folding it in advance changes nothing. */
  lemma {:induction false} ContainsCiFoldedNeedle(v: seq<string>, needle: string)
    ensures ContainsCi(v, ToLower(needle)) == ContainsCi(v, needle)
  {
    ToLowerIdempotent(needle);
  }

  /** A non-empty needle can only match a non-empty element. */
  lemma {:induction false} ContainsCiNonEmpty(v: seq<string>, needle: string)
    requires needle != ""
    ensures ContainsCi(v, needle) <==> exists x :: x in v && x != "" && ToLower(x) == ToLower(needle)
  {
  }

  // ---------------------------------------------------------------------------
  // trim_inplace

  /** Where the first erase of trim_inplace stops: the first non-space, or |s|. */
  function FirstNonSpace(s: string): (lo: nat)
    ensures lo <= |s|
    ensures forall i :: 0 <= i < lo ==> IsSpace(s[i])
    ensures lo < |s| ==> !IsSpace(s[lo])
  {
    if s == [] || !IsSpace(s[0]) then 0 else 1 + FirstNonSpace(s[1..])
  }

  /** Where the second erase of trim_inplace starts: one past the last non-space,
      searching backwards and never passing `lo`. */
  function ContentEnd(s: string, lo: nat): (hi: nat)
    requires lo <= |s|
    ensures lo <= hi <= |s|
    ensures forall i :: hi <= i < |s| ==> IsSpace(s[i])
    ensures hi > lo ==> !IsSpace(s[hi - 1])
  {
    if |s| == lo || !IsSpace(s[|s| - 1]) then |s| else ContentEnd(s[..|s| - 1], lo)
  }

  /** The string trim_inplace leaves behind. */
  function Trim(s: string): (r: string)
    ensures r == [] || (!IsSpace(r[0]) && !IsSpace(r[|r| - 1]))
  {
    var lo := FirstNonSpace(s);
    s[lo..ContentEnd(s, lo)]
  }

  /** trim_inplace keeps one contiguous slice of `s` and removes only spaces around it. */
  lemma {:induction false} TrimIsSlice(s: string)
    ensures var lo := FirstNonSpace(s); var hi := ContentEnd(s, lo);
      && Trim(s) == s[lo..hi]
      && AllSpace(s[..lo]) && AllSpace(s[hi..])
      && s == s[..lo] + Trim(s) + s[hi..]
  {
    var lo := FirstNonSpace(s);
    var hi := ContentEnd(s, lo);
    assert AllSpace(s[..lo]) by {
      forall i | 0 <= i < lo ensures IsSpace(s[..lo][i]) { assert s[..lo][i] == s[i]; }
    }
    assert AllSpace(s[hi..]) by {
      forall i | 0 <= i < |s| - hi ensures IsSpace(s[hi..][i]) { assert s[hi..][i] == s[hi + i]; }
    }
    assert s == s[..lo] + s[lo..hi] + s[hi..];
  }

  /** A string padded with spaces on both sides trims to its core, provided the core
      neither starts nor ends with a space. This pins Trim down completely. */
  lemma {:induction false} TrimOfPadded(pre: string, core: string, post: string)
    requires AllSpace(pre) && AllSpace(post)
    requires core == [] || (!IsSpace(core[0]) && !IsSpace(core[|core| - 1]))
    ensures Trim(pre + core + post) == core
  {
    var s := pre + core + post;
    var lo := FirstNonSpace(s);
    var hi := ContentEnd(s, lo);
    if core == [] {
      assert AllSpace(s) by {
        forall i | 0 <= i < |s| ensures IsSpace(s[i]) {
          if i < |pre| { assert s[i] == pre[i]; } else { assert s[i] == post[i - |pre|]; }
        }
      }
      assert lo == |s|;
    } else {
      assert s[|pre|] == core[0];
      assert forall i :: 0 <= i < |pre| ==> s[i] == pre[i];
      assert lo == |pre|;
      assert s[|pre| + |core| - 1] == core[|core| - 1];
      assert forall i :: |pre| + |core| <= i < |s| ==> s[i] == post[i - |pre| - |core|];
      assert hi == |pre| + |core|;
      assert s[lo..hi] == core;
    }
  }

  /** Trimming twice is trimming once. */
  lemma {:induction false} TrimIdempotent(s: string)
    ensures Trim(Trim(s)) == Trim(s)
  {
    TrimOfPadded([], Trim(s), []);
    assert [] + Trim(s) + [] == Trim(s);
  }

  /** A string trims to nothing exactly when it is all white space. */
  lemma {:induction false} TrimEmptyIffAllSpace(s: string)
    ensures Trim(s) == [] <==> AllSpace(s)
  {
    TrimIsSlice(s);
    var lo := FirstNonSpace(s);
    if lo < |s| {
      assert !IsSpace(s[lo]);
    }
  }

  /** White space followed by white space is white space. */
  lemma {:induction false} AllSpaceConcat(a: string, b: string)
    requires AllSpace(a) && AllSpace(b)
    ensures AllSpace(a + b)
  {
    forall i | 0 <= i < |a + b| ensures IsSpace((a + b)[i]) {
      if i < |a| { assert (a + b)[i] == a[i]; } else { assert (a + b)[i] == b[i - |a|]; }
    }
  }

  /** Extra spaces around a string do not change what it trims to. */
  lemma {:induction false} TrimIgnoresPadding(pre: string, s: string, post: string)
    requires AllSpace(pre) && AllSpace(post)
    ensures Trim(pre + s + post) == Trim(s)
  {
    TrimIsSlice(s);
    var lo := FirstNonSpace(s);
    var hi := ContentEnd(s, lo);
    TrimOfRepadded(pre, s[..lo], Trim(s), s[hi..], post);
  }

  /** More spaces around an already padded core still trim to the core. */
  lemma {:induction false} TrimOfRepadded(pre: string, a: string, c: string, b: string, post: string)
    requires AllSpace(pre) && AllSpace(a) && AllSpace(b) && AllSpace(post)
    requires c == [] || (!IsSpace(c[0]) && !IsSpace(c[|c| - 1]))
    ensures Trim(pre + (a + c + b) + post) == c
  {
    AllSpaceConcat(pre, a);
    AllSpaceConcat(b, post);
    assert pre + (a + c + b) + post == (pre + a) + c + (b + post);
    TrimOfPadded(pre + a, c, b + post);
  }

  /** Folding keeps every space a space and every non-space a non-space. */
  lemma {:induction false} ToLowerKeepsSpaces(u: string)
    ensures AllSpace(ToLower(u)) == AllSpace(u)
    ensures u != [] ==> IsSpace(ToLower(u)[0]) == IsSpace(u[0])
    ensures u != [] ==> IsSpace(ToLower(u)[|u| - 1]) == IsSpace(u[|u| - 1])
  {
    forall i | 0 <= i < |u| ensures IsSpace(ToLower(u)[i]) == IsSpace(u[i]) {
      LowerCharKeepsSpace(u[i]);
    }
  }

  /** Folding case and trimming can be done in either order. */
  lemma {:induction false} TrimToLowerCommute(s: string)
    ensures Trim(ToLower(s)) == ToLower(Trim(s))
  {
    TrimIsSlice(s);
    var lo := FirstNonSpace(s);
    var hi := ContentEnd(s, lo);
    LowerOfPadded(s[..lo], Trim(s), s[hi..]);
  }

  /** Folding a padded core and trimming gives the folded core. */
  lemma {:induction false} LowerOfPadded(a: string, c: string, b: string)
    requires AllSpace(a) && AllSpace(b)
    requires c == [] || (!IsSpace(c[0]) && !IsSpace(c[|c| - 1]))
    ensures Trim(ToLower(a + c + b)) == ToLower(c)
  {
    ToLowerConcat(a, c);
    ToLowerConcat(a + c, b);
    LowerKeepsPadding(a, c, b);
    TrimOfPadded(ToLower(a), ToLower(c), ToLower(b));
  }

  /** Folding keeps padding made of spaces and a core that neither starts nor ends
      with one. */
  lemma {:induction false} LowerKeepsPadding(a: string, c: string, b: string)
    requires AllSpace(a) && AllSpace(b)
    requires c == [] || (!IsSpace(c[0]) && !IsSpace(c[|c| - 1]))
    ensures AllSpace(ToLower(a)) && AllSpace(ToLower(b))
    ensures ToLower(c) == [] || (!IsSpace(ToLower(c)[0]) && !IsSpace(ToLower(c)[|c| - 1]))
  {
    ToLowerKeepsSpaces(a);
    ToLowerKeepsSpaces(b);
    ToLowerKeepsSpaces(c);
  }

  /** trim_inplace as the two erase steps of the source: drop the leading run of
      spaces, then drop the trailing run of what is left. */
  method TrimInPlace(s: string) returns (t: string)
    ensures t == Trim(s)
    ensures t == [] || (!IsSpace(t[0]) && !IsSpace(t[|t| - 1]))
  {
    var lo := 0;
    while lo < |s| && IsSpace(s[lo])
      invariant lo <= |s|
      invariant forall i :: 0 <= i < lo ==> IsSpace(s[i])
    {
      lo := lo + 1;
    }
    assert lo == FirstNonSpace(s);
    t := s[lo..];
    var hi := |t|;
    while hi > 0 && IsSpace(t[hi - 1])
      invariant 0 <= hi <= |t|
      invariant forall i :: hi <= i < |t| ==> IsSpace(t[i])
    {
      hi := hi - 1;
    }
    assert lo + hi == ContentEnd(s, lo);
    t := t[..hi];
  }
}
