/**
 The three JavaScript string built-ins the user table relies on:
 `String.prototype.toLowerCase`, `String.prototype.includes` and
 `String.prototype.trim`. Strings are sequences of characters.
 */
module Text {

  /** An ASCII capital letter, the only characters `Lower` folds. */
  predicate IsAsciiUpper(c: char) {
    'A' <= c <= 'Z'
  }

  /** Lower-cases one character: capitals move down by 32 code points, everything else stays. */
  function LowerChar(c: char): (d: char)
    ensures !IsAsciiUpper(d)
    ensures !IsAsciiUpper(c) ==> d == c
    ensures IsAsciiUpper(c) ==> d as int == c as int + 32 && 'a' <= d <= 'z'
  {
    if IsAsciiUpper(c) then (c as int + 32) as char else c
  }

  /** `toLowerCase`: the string with every character lower-cased, position by position. */
  function Lower(s: string): (r: string)
    ensures |r| == |s|
    ensures forall i :: 0 <= i < |s| ==> r[i] == LowerChar(s[i])
    ensures forall i :: 0 <= i < |r| ==> !IsAsciiUpper(r[i])
  {
    seq(|s|, i requires 0 <= i < |s| => LowerChar(s[i]))
  }

  /** Lower-casing an already lower-cased string changes nothing. */
  lemma LowerIdempotent(s: string)
    ensures Lower(Lower(s)) == Lower(s)
  {
  }

  /** A string that contains no capital letter is its own lower-case form. */
  lemma LowerFixesUncapitalised(s: string)
    requires forall i :: 0 <= i < |s| ==> !IsAsciiUpper(s[i])
    ensures Lower(s) == s
  {
  }

  /** `needle` occurs in `hay` starting at position `i`. */
  ghost predicate OccursAt(hay: string, needle: string, i: int) {
    0 <= i && i + |needle| <= |hay| && hay[i..i + |needle|] == needle
  }

  /**
   `includes`: whether `needle` occurs somewhere in `hay` as a contiguous
   substring. The empty needle occurs in every string, the empty one included.
   */
  function Contains(hay: string, needle: string): (b: bool)
    ensures b <==> exists i :: OccursAt(hay, needle, i)
    ensures needle == [] ==> b
    decreases |hay|
  {
    if needle <= hay then
      OccursAtStart(hay, needle);
      true
    else if hay == [] then
      false
    else
      OccursInTail(hay, needle);
      Contains(hay[1..], needle)
  }

  /** A prefix occurs at position 0. */
  lemma OccursAtStart(hay: string, needle: string)
    requires needle <= hay
    ensures OccursAt(hay, needle, 0)
  {
    assert hay[..|needle|] == needle;
  }

  /**
   When `needle` is not a prefix of `hay`, it occurs in `hay` exactly when it
   occurs in `hay` without its first character.
   */
  lemma OccursInTail(hay: string, needle: string)
    requires hay != [] && !(needle <= hay)
    ensures (exists i :: OccursAt(hay, needle, i)) <==> (exists j :: OccursAt(hay[1..], needle, j))
  {
    var tail := hay[1..];
    if i :| OccursAt(hay, needle, i) {
      ShiftOccurrence(hay, needle, i - 1);
    }
    if j :| OccursAt(tail, needle, j) {
      ShiftOccurrence(hay, needle, j);
    }
  }

  /** An occurrence at `j` in the tail of `hay` is an occurrence at `j + 1` in `hay`, and back. */
  lemma ShiftOccurrence(hay: string, needle: string, j: int)
    requires hay != [] && 0 <= j
    ensures OccursAt(hay[1..], needle, j) <==> OccursAt(hay, needle, j + 1)
  {
    if j + 1 + |needle| <= |hay| {
      assert hay[1..][j..j + |needle|] == hay[j + 1..j + 1 + |needle|];
    }
  }

  /** Every character of a contained string occurs in the containing one. */
  lemma ContainedCharsOccur(hay: string, needle: string)
    ensures Contains(hay, needle) ==> forall k :: 0 <= k < |needle| ==> needle[k] in hay
  {
    if Contains(hay, needle) {
      var i :| OccursAt(hay, needle, i);
      forall k | 0 <= k < |needle| ensures needle[k] in hay {
        assert needle[k] == hay[i + k];
      }
    }
  }

  /**
   The characters `trim` removes: the WhiteSpace and LineTerminator code points
   of the ECMAScript language specification (tab, line feed, vertical tab, form
   feed, carriage return, space, no-break space, the byte order mark, the line
   and paragraph separators and the Unicode space separators).
   */
  predicate IsWhitespace(c: char) {
    var n := c as int;
    || n == 0x09 || n == 0x0A || n == 0x0B || n == 0x0C || n == 0x0D
    || n == 0x20 || n == 0xA0 || n == 0x1680
    || (0x2000 <= n <= 0x200A)
    || n == 0x2028 || n == 0x2029 || n == 0x202F || n == 0x205F
    || n == 0x3000 || n == 0xFEFF
  }

  /** Every character of `s` is whitespace (vacuously so for the empty string). */
  predicate IsBlank(s: string) {
    forall k :: 0 <= k < |s| ==> IsWhitespace(s[k])
  }

  /** The length of the longest all-whitespace prefix of `s`. */
  function LeadingBlanks(s: string): (n: nat)
    ensures n <= |s|
    ensures IsBlank(s[..n])
    ensures n < |s| ==> !IsWhitespace(s[n])
  {
    if s == [] || !IsWhitespace(s[0]) then 0
    else
      var m := LeadingBlanks(s[1..]);
      assert IsBlank(s[..1]) by { assert s[..1][0] == s[0]; }
      BlankJoin(s[..1], s[1..][..m]);
      assert s[..1 + m] == s[..1] + s[1..][..m];
      assert 1 + m < |s| ==> s[1 + m] == s[1..][m];
      1 + m
  }

  /** The length of the longest all-whitespace suffix of `s`. */
  function TrailingBlanks(s: string): (n: nat)
    ensures n <= |s|
    ensures IsBlank(s[|s| - n..])
    ensures n < |s| ==> !IsWhitespace(s[|s| - n - 1])
  {
    if s == [] || !IsWhitespace(s[|s| - 1]) then 0
    else
      var init := s[..|s| - 1];
      var m := TrailingBlanks(init);
      var last := s[|s| - 1..];
      assert IsBlank(last) by { assert last[0] == s[|s| - 1]; }
      BlankJoin(init[|init| - m..], last);
      assert s[|s| - (1 + m)..] == init[|init| - m..] + last;
      assert 1 + m < |s| ==> s[|s| - (1 + m) - 1] == init[|init| - m - 1];
      1 + m
  }

  /**
   `trim`: `s` with its leading and trailing whitespace removed. The result
   is a contiguous slice of `s`, everything cut off around it is whitespace,
   and a non-empty result starts and ends with a non-whitespace character.
   */
  function Trim(s: string): (r: string)
    ensures |r| <= |s|
    ensures exists a :: CutFrom(s, a, r)
    ensures r != [] ==> !IsWhitespace(r[0]) && !IsWhitespace(r[|r| - 1])
    ensures r == [] <==> IsBlank(s)
  {
    var a := LeadingBlanks(s);
    var rest := s[a..];
    var b := TrailingBlanks(rest);
    TrimCut(s, a, rest, b);
    var r := s[a..|s| - b];
    TrimResult(s, a, b, r);
    r
  }

  /** `r` sits in `s` at position `a` with only whitespace before and after it. */
  ghost predicate CutFrom(s: string, a: int, r: string) {
    0 <= a <= |s| - |r| && s[a..a + |r|] == r && IsBlank(s[..a]) && IsBlank(s[a + |r|..])
  }

  /** The slice `Trim` returns, described by its position in `s`. */
  lemma TrimResult(s: string, a: nat, b: nat, r: string)
    requires a <= |s| - b && r == s[a..|s| - b]
    requires IsBlank(s[..a]) && IsBlank(s[|s| - b..])
    requires a < |s| - b ==> !IsWhitespace(s[a]) && !IsWhitespace(s[|s| - b - 1])
    ensures CutFrom(s, a, r)
    ensures r != [] ==> !IsWhitespace(r[0]) && !IsWhitespace(r[|r| - 1])
    ensures r == [] <==> a == |s| - b
  {
    assert a + |r| == |s| - b;
    if r != [] {
      assert r[0] == s[a] && r[|r| - 1] == s[|s| - b - 1];
    }
  }

  /** The facts about the cut `Trim` makes: `a` characters off the front, then `b` off the back. */
  lemma TrimCut(s: string, a: nat, rest: string, b: nat)
    requires a <= |s| && IsBlank(s[..a]) && (a < |s| ==> !IsWhitespace(s[a]))
    requires rest == s[a..]
    requires b <= |rest| && IsBlank(rest[|rest| - b..]) && (b < |rest| ==> !IsWhitespace(rest[|rest| - b - 1]))
    ensures a <= |s| - b
    ensures IsBlank(s[|s| - b..])
    ensures a < |s| - b ==> !IsWhitespace(s[|s| - b - 1])
    ensures a == |s| - b <==> IsBlank(s)
  {
    assert s[|s| - b..] == rest[|rest| - b..];
    if a < |s| - b {
      assert s[|s| - b - 1] == rest[|rest| - b - 1];
    } else {
      BlankJoin(s[..a], s[|s| - b..]);
      assert s == s[..a] + s[|s| - b..];
    }
  }

  /** Two blank strings make a blank string. */
  lemma BlankJoin(u: string, v: string)
    requires IsBlank(u) && IsBlank(v)
    ensures IsBlank(u + v)
  {
    forall k | 0 <= k < |u + v| ensures IsWhitespace((u + v)[k]) {
      if k < |u| { assert (u + v)[k] == u[k]; } else { assert (u + v)[k] == v[k - |u|]; }
    }
  }
}
