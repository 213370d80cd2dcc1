/**
 The three Python string operations the pipeline relies on: `str.strip()` with
 no argument, the substring test `needle in haystack`, and `sep.join(parts)`.
 Each is given an executable definition and an independent characterisation,
 with a lemma tying the two together.
 */
module PyStrings {

  /** The characters Python's `str.isspace()` accepts, which is what `str.strip()`
      with no argument removes from both ends. */
  const Whitespace: set<char> := {
    '\t', '\n', '\U{000B}', '\U{000C}', '\r',
    '\U{001C}', '\U{001D}', '\U{001E}', '\U{001F}', ' ',
    '\U{0085}', '\U{00A0}', '\U{1680}',
    '\U{2000}', '\U{2001}', '\U{2002}', '\U{2003}', '\U{2004}', '\U{2005}',
    '\U{2006}', '\U{2007}', '\U{2008}', '\U{2009}', '\U{200A}',
    '\U{2028}', '\U{2029}', '\U{202F}', '\U{205F}', '\U{3000}'
  }

  predicate IsSpace(c: char) {
    c in Whitespace
  }

  /** Every character of `s` in the index range `[lo, hi)` is whitespace. */
  predicate SpaceBetween(s: string, lo: int, hi: int)
    requires 0 <= lo && hi <= |s|
  {
    forall k :: lo <= k < hi ==> IsSpace(s[k])
  }

  predicate AllSpace(s: string) {
    SpaceBetween(s, 0, |s|)
  }

  /** Neither end of `s` is whitespace (vacuously true of the empty string). */
  predicate IsStripped(s: string) {
    s == [] || (!IsSpace(s[0]) && !IsSpace(s[|s| - 1]))
  }

  /** `r` is what is left of `s` once its leading and trailing whitespace is
      removed: a slice of `s` with only whitespace outside it and none at its ends. */
  ghost predicate IsStripOf(s: string, r: string) {
    exists i, j :: 0 <= i <= j <= |s| && IsSliceWithSpaceAround(s, r, i, j)
  }

  ghost predicate IsSliceWithSpaceAround(s: string, r: string, i: int, j: int)
    requires 0 <= i <= j <= |s|
  {
    r == s[i..j] && SpaceBetween(s, 0, i) && SpaceBetween(s, j, |s|) && IsStripped(r)
  }

  /** The first position at or after `i` that is not whitespace, or `|s|`. */
  function SkipSpaceForward(s: string, i: nat): (b: nat)
    requires i <= |s| && SpaceBetween(s, 0, i)
    ensures i <= b <= |s|
    ensures SpaceBetween(s, 0, b)
    ensures b < |s| ==> !IsSpace(s[b])
    decreases |s| - i
  {
    if i == |s| || !IsSpace(s[i]) then i else SkipSpaceForward(s, i + 1)
  }

  /** The smallest end `e` with `lo <= e <= j` such that `s[e..j]` is all whitespace. */
  function SkipSpaceBackward(s: string, lo: nat, j: nat): (e: nat)
    requires lo <= j <= |s| && SpaceBetween(s, j, |s|)
    ensures lo <= e <= j
    ensures SpaceBetween(s, e, |s|)
    ensures lo < e ==> !IsSpace(s[e - 1])
    decreases j
  {
    if j == lo || !IsSpace(s[j - 1]) then j else SkipSpaceBackward(s, lo, j - 1)
  }

  /** Python's `s.strip()`. */
  function Strip(s: string): (r: string)
    ensures IsStripOf(s, r)
    ensures r == [] <==> AllSpace(s)
  {
    var i := SkipSpaceForward(s, 0);
    var j := SkipSpaceBackward(s, i, |s|);
    assert IsSliceWithSpaceAround(s, s[i..j], i, j) by {
      if i < j {
        assert s[i..j][0] == s[i];
        assert s[i..j][j - i - 1] == s[j - 1];
      }
    }
    s[i..j]
  }

  /** There is only one way to strip a string. */
  lemma StripUnique(s: string, r1: string, r2: string)
    requires IsStripOf(s, r1)
    requires IsStripOf(s, r2)
    ensures r1 == r2
  {
    var i1, j1 :| 0 <= i1 <= j1 <= |s| && IsSliceWithSpaceAround(s, r1, i1, j1);
    var i2, j2 :| 0 <= i2 <= j2 <= |s| && IsSliceWithSpaceAround(s, r2, i2, j2);
    if r1 == [] || r2 == [] {
      StripOfEmpty(s, r1, i1, j1);
      StripOfEmpty(s, r2, i2, j2);
    } else {
      assert s[i1] == r1[0] && s[j1 - 1] == r1[|r1| - 1];
      assert s[i2] == r2[0] && s[j2 - 1] == r2[|r2| - 1];
    }
  }

  /** A string strips to nothing exactly when it is all whitespace. */
  lemma StripOfEmpty(s: string, r: string, i: nat, j: nat)
    requires i <= j <= |s| && IsSliceWithSpaceAround(s, r, i, j)
    ensures r == [] <==> AllSpace(s)
  {
    if r != [] {
      assert s[i] == r[0];
    }
  }

  /** `Strip` computes exactly the stripped form: `Strip(s) == r` holds if and
      only if `r` is `s` without its surrounding whitespace. */
  lemma StripCharacterized(s: string, r: string)
    ensures Strip(s) == r <==> IsStripOf(s, r)
  {
    if IsStripOf(s, r) {
      StripUnique(s, Strip(s), r);
    }
  }

  /** Stripping a second time changes nothing, and a stripped string has no
      whitespace at either end. */
  lemma StripIdempotent(s: string)
    ensures IsStripped(Strip(s))
    ensures Strip(Strip(s)) == Strip(s)
  {
    var r := Strip(s);
    var i, j :| 0 <= i <= j <= |s| && IsSliceWithSpaceAround(s, r, i, j);
    assert IsSliceWithSpaceAround(r, r, 0, |r|);
    StripUnique(r, Strip(r), r);
  }

  /** A string that already has no whitespace at its ends strips to itself. */
  lemma StripOfStripped(s: string)
    requires IsStripped(s)
    ensures Strip(s) == s
  {
    assert IsSliceWithSpaceAround(s, s, 0, |s|);
    StripUnique(s, Strip(s), s);
  }

  /** `needle` occurs in `hay` starting at position `i`. */
  predicate OccursAt(needle: string, hay: string, i: nat) {
    i + |needle| <= |hay| && hay[i..i + |needle|] == needle
  }

  /** Python's substring test `needle in hay`. */
  function Contains(needle: string, hay: string): (b: bool)
    ensures b <==> exists i: nat :: OccursAt(needle, hay, i)
    decreases |hay|
  {
    if |hay| < |needle| then
      assert forall i: nat :: !OccursAt(needle, hay, i);
      false
    else if hay[..|needle|] == needle then
      assert OccursAt(needle, hay, 0);
      true
    else
      var rest := Contains(needle, hay[1..]);
      ContainsShift(needle, hay);
      rest
  }

  /** When `needle` is not a prefix of `hay`, its occurrences in `hay` are those
      in `hay[1..]`, shifted by one. */
  lemma ContainsShift(needle: string, hay: string)
    requires |needle| <= |hay| && hay[..|needle|] != needle
    ensures (exists i: nat :: OccursAt(needle, hay, i)) <==> (exists i: nat :: OccursAt(needle, hay[1..], i))
  {
    if i: nat :| OccursAt(needle, hay, i) {
      assert i != 0;
      assert hay[1..][i - 1..i - 1 + |needle|] == hay[i..i + |needle|];
      assert OccursAt(needle, hay[1..], i - 1);
    }
    if i: nat :| OccursAt(needle, hay[1..], i) {
      assert hay[1..][i..i + |needle|] == hay[i + 1..i + 1 + |needle|];
      assert OccursAt(needle, hay, i + 1);
    }
  }

  /** Python's `sep.join(parts)`: the parts in order with `sep` between
      neighbours and nowhere else. */
  function Join(sep: string, parts: seq<string>): string {
    if parts == [] then ""
    else if |parts| == 1 then parts[0]
    else Join(sep, parts[..|parts| - 1]) + sep + parts[|parts| - 1]
  }

  /** Total length of the parts. */
  function TotalLength(parts: seq<string>): nat {
    if parts == [] then 0 else TotalLength(parts[..|parts| - 1]) + |parts[|parts| - 1]|
  }

  /** Joining two non-empty lists puts exactly one separator between them. */
  lemma {:induction false} JoinAppend(sep: string, a: seq<string>, b: seq<string>)
    ensures Join(sep, a + b) ==
              if a == [] then Join(sep, b)
              else if b == [] then Join(sep, a)
              else Join(sep, a) + sep + Join(sep, b)
    decreases |b|
  {
    if a == [] {
      assert a + b == b;
    } else if b == [] {
      assert a + b == a;
    } else if |b| == 1 {
      assert (a + b)[..|a + b| - 1] == a;
    } else {
      var b' := b[..|b| - 1];
      assert (a + b)[..|a + b| - 1] == a + b';
      JoinAppend(sep, a, b');
    }
  }

  /** A join is as long as its parts plus one separator between each neighbouring pair. */
  lemma {:induction false} JoinLength(sep: string, parts: seq<string>)
    requires parts != []
    ensures |Join(sep, parts)| == TotalLength(parts) + (|parts| - 1) * |sep|
  {
    if |parts| > 1 {
      JoinLength(sep, parts[..|parts| - 1]);
    } else {
      assert parts[..0] == [];
    }
  }

  /** Joining non-empty stripped parts yields a non-empty string that is
      itself stripped, whatever the separator: only the first and last parts
      reach the ends of the join. */
  lemma {:induction false} JoinStripped(sep: string, parts: seq<string>)
    requires parts != []
    requires forall k :: 0 <= k < |parts| ==> parts[k] != [] && IsStripped(parts[k])
    ensures Join(sep, parts) != []
    ensures IsStripped(Join(sep, parts))
  {
    if |parts| > 1 {
      var init := parts[..|parts| - 1];
      JoinStripped(sep, init);
      var last := parts[|parts| - 1];
      assert Join(sep, parts)[0] == Join(sep, init)[0];
      var j := Join(sep, parts);
      assert j[|j| - 1] == last[|last| - 1];
    }
  }
}
