/**
 * Python's str.strip() with no argument, as generate_sentence_segments applies
 * it to each segment's text: leading and trailing whitespace removed, the
 * characters in between left untouched.
 */
module Text {

  /** The characters for which Python's str.isspace() holds: the ASCII
      whitespace and separator controls, NEL, no-break space and the Unicode
      space separators, line and paragraph separators. */
  const Whitespace: set<char> := {
    ' ', '\t', '\n', '\r', '\U{000B}', '\U{000C}',
    '\U{001C}', '\U{001D}', '\U{001E}', '\U{001F}',
    '\U{0085}', '\U{00A0}', '\U{1680}',
    '\U{2000}', '\U{2001}', '\U{2002}', '\U{2003}', '\U{2004}', '\U{2005}',
    '\U{2006}', '\U{2007}', '\U{2008}', '\U{2009}', '\U{200A}',
    '\U{2028}', '\U{2029}', '\U{202F}', '\U{205F}', '\U{3000}'
  }

  predicate IsSpace(c: char)
  {
    c in Whitespace
  }

  predicate AllSpace(s: string)
  {
    forall i | 0 <= i < |s| :: IsSpace(s[i])
  }

  /** Neither end of s is whitespace (trivially so for the empty string). */
  predicate IsTrimmed(s: string)
  {
    s == [] || (!IsSpace(s[0]) && !IsSpace(s[|s| - 1]))
  }

  /** r is what remains of s once whitespace is cut from both ends: a slice of
      s with only whitespace before and after it, and no whitespace at its ends. */
  ghost predicate IsStripOf(s: string, r: string)
  {
    IsTrimmed(r) &&
    exists i, j | 0 <= i <= j <= |s| :: r == s[i..j] && AllSpace(s[..i]) && AllSpace(s[j..])
  }

  /** str.strip(): cut whitespace from the front, then from the back, until
      neither end is whitespace. */
  function Strip(s: string): (r: string)
    ensures |r| <= |s|
    ensures IsTrimmed(r)
    decreases |s|
  {
    if s != [] && IsSpace(s[0]) then Strip(s[1..])
    else if s != [] && IsSpace(s[|s| - 1]) then Strip(s[..|s| - 1])
    else s
  }

  /** A slice with whitespace before and after it and none at its ends is a
      strip of s. */
  lemma StripOfSlice(s: string, i: int, j: int)
    requires 0 <= i <= j <= |s| && IsTrimmed(s[i..j])
    requires AllSpace(s[..i]) && AllSpace(s[j..])
    ensures IsStripOf(s, s[i..j])
  {
  }

  /** Strip keeps exactly the middle of s: a slice with only whitespace
      before and after it. */
  lemma {:induction false} StripIsStripOf(s: string)
    ensures IsStripOf(s, Strip(s))
    decreases |s|
  {
    if s != [] && IsSpace(s[0]) {
      StripIsStripOf(s[1..]);
      StripOfLeadingSpace(s, Strip(s[1..]));
    } else if s != [] && IsSpace(s[|s| - 1]) {
      StripIsStripOf(s[..|s| - 1]);
      StripOfTrailingSpace(s, Strip(s[..|s| - 1]));
    } else {
      assert s[0..|s|] == s;
      StripOfSlice(s, 0, |s|);
    }
  }

  /** Whitespace followed by whitespace is whitespace. */
  lemma AllSpaceConcat(a: string, b: string)
    requires AllSpace(a) && AllSpace(b)
    ensures AllSpace(a + b)
  {
    forall k | 0 <= k < |a + b| ensures IsSpace((a + b)[k]) {
      if k < |a| { assert (a + b)[k] == a[k]; } else { assert (a + b)[k] == b[k - |a|]; }
    }
  }

  /** The slices of s[1..], moved one place to the right, are slices of s. */
  lemma TailSlices(s: string, i: int, j: int)
    requires 0 <= i <= j <= |s| - 1
    ensures s[1..][i..j] == s[i + 1..j + 1]
    ensures s[..i + 1] == s[..1] + s[1..][..i]
    ensures s[j + 1..] == s[1..][j..]
  {
  }

  /** Whitespace in front of s does not change its strip. */
  lemma StripOfLeadingSpace(s: string, r: string)
    requires s != [] && IsSpace(s[0])
    requires IsStripOf(s[1..], r)
    ensures IsStripOf(s, r)
  {
    var t := s[1..];
    var i, j :| 0 <= i <= j <= |t| && r == t[i..j] && AllSpace(t[..i]) && AllSpace(t[j..]);
    TailSlices(s, i, j);
    AllSpaceConcat(s[..1], t[..i]);
    StripOfSlice(s, i + 1, j + 1);
  }

  /** The slices of s[..|s| - 1] are slices of s. */
  lemma InitSlices(s: string, i: int, j: int)
    requires 0 <= i <= j <= |s| - 1
    ensures s[..|s| - 1][i..j] == s[i..j]
    ensures s[..i] == s[..|s| - 1][..i]
    ensures s[j..] == s[..|s| - 1][j..] + s[|s| - 1..]
  {
  }

  /** Whitespace at the end of s does not change its strip. */
  lemma StripOfTrailingSpace(s: string, r: string)
    requires s != [] && IsSpace(s[|s| - 1])
    requires IsStripOf(s[..|s| - 1], r)
    ensures IsStripOf(s, r)
  {
    var t := s[..|s| - 1];
    var i, j :| 0 <= i <= j <= |t| && r == t[i..j] && AllSpace(t[..i]) && AllSpace(t[j..]);
    InitSlices(s, i, j);
    AllSpaceConcat(t[j..], s[|s| - 1..]);
    StripOfSlice(s, i, j);
  }

  lemma SpaceBefore(s: string, i: int, k: int)
    requires 0 <= k < i <= |s| && AllSpace(s[..i])
    ensures IsSpace(s[k])
  {
    assert s[..i][k] == s[k];
  }

  lemma SpaceAfter(s: string, j: int, k: int)
    requires 0 <= j <= k < |s| && AllSpace(s[j..])
    ensures IsSpace(s[k])
  {
    assert s[j..][k - j] == s[k];
  }

  /** Two trimmed slices of s, each with only whitespace around it, are the
      same slice's contents. */
  lemma TrimmedSlicesAgree(s: string, i: int, j: int, i': int, j': int)
    requires 0 <= i <= j <= |s| && IsTrimmed(s[i..j]) && AllSpace(s[..i]) && AllSpace(s[j..])
    requires 0 <= i' <= j' <= |s| && IsTrimmed(s[i'..j']) && AllSpace(s[..i']) && AllSpace(s[j'..])
    ensures s[i..j] == s[i'..j']
  {
    // A non-empty slice starts and ends with a character that is not
    // whitespace, so neither can lie in the other slice's surroundings.
    if i < j {
      assert s[i] == s[i..j][0] && s[j - 1] == s[i..j][j - i - 1];
      if i < i' { SpaceBefore(s, i', i); } else if j' <= i { SpaceAfter(s, j', i); }
      if j' < j && i' <= j - 1 { SpaceAfter(s, j', j - 1); } else if j - 1 < i' { SpaceBefore(s, i', j - 1); }
    }
    if i' < j' {
      assert s[i'] == s[i'..j'][0] && s[j' - 1] == s[i'..j'][j' - i' - 1];
      if i' < i { SpaceBefore(s, i, i'); } else if j <= i' { SpaceAfter(s, j, i'); }
      if j < j' && i <= j' - 1 { SpaceAfter(s, j, j' - 1); } else if j' - 1 < i { SpaceBefore(s, i, j' - 1); }
    }
  }

  /** Only one string is a strip of s, so Strip is fully determined by
      IsStripOf. */
  lemma StripOfUnique(s: string, r: string, r': string)
    requires IsStripOf(s, r) && IsStripOf(s, r')
    ensures r == r'
  {
    var i, j :| 0 <= i <= j <= |s| && r == s[i..j] && AllSpace(s[..i]) && AllSpace(s[j..]);
    var i', j' :| 0 <= i' <= j' <= |s| && r' == s[i'..j'] && AllSpace(s[..i']) && AllSpace(s[j'..]);
    TrimmedSlicesAgree(s, i, j, i', j');
  }

  /** A string with no whitespace at either end is left as it is. */
  lemma StripTrimmed(s: string)
    requires IsTrimmed(s)
    ensures Strip(s) == s
  {
  }

  /** Stripping twice is stripping once. */
  lemma StripIdempotent(s: string)
    ensures Strip(Strip(s)) == Strip(s)
  {
    StripTrimmed(Strip(s));
  }

  /** Worked example: surrounding blanks go, inner ones stay. */
  lemma StripExample()
    ensures Strip(" Hello world.\n") == "Hello world."
  {
    var s := " Hello world.\n";
    assert s[1..13] == "Hello world.";
    assert !IsSpace('H') && !IsSpace('.');
    assert AllSpace(s[..1]) && AllSpace(s[13..]);
    StripOfSlice(s, 1, 13);
    StripIsStripOf(s);
    StripOfUnique(s, Strip(s), s[1..13]);
  }

  /** An all-blank text strips to the empty string. */
  lemma StripBlankExample()
    ensures Strip(" \t ") == ""
  {
    var s := " \t ";
    StripIsStripOf(s);
    assert s[0..0] == "" && AllSpace(s[..0]) && AllSpace(s[0..]);
    assert IsStripOf(s, "");
    StripOfUnique(s, Strip(s), "");
  }
}
