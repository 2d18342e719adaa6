/** The JavaScript string primitives the page script relies on:
    `toLowerCase` (on ASCII letters), `trim`, `indexOf` and `includes`. */
module Text {

  predicate IsUpper(c: char) {
    'A' <= c <= 'Z'
  }

  /** `toLowerCase` on one character, restricted to the ASCII letters. */
  function LowerChar(c: char): (d: char)
    ensures !IsUpper(d)
    ensures IsUpper(c) ==> d as int == c as int + 32
    ensures !IsUpper(c) ==> d == c
  {
    if IsUpper(c) then (c as int + 32) as char else c
  }

  function ToLower(s: string): (r: string)
    ensures |r| == |s|
    ensures forall i :: 0 <= i < |s| ==> r[i] == LowerChar(s[i])
  {
    seq(|s|, i requires 0 <= i < |s| => LowerChar(s[i]))
  }

  /** The characters `trim` removes: the ECMAScript WhiteSpace set (tab,
      vertical tab, form feed, space, no-break space, the byte order mark
      and the Unicode space separators) and the LineTerminator set. */
  predicate IsSpace(c: char) {
    var n := c as int;
    n == 0x09 || n == 0x0A || n == 0x0B || n == 0x0C || n == 0x0D || n == 0x20
    || n == 0xA0 || n == 0x1680 || (0x2000 <= n <= 0x200A) || n == 0x2028
    || n == 0x2029 || n == 0x202F || n == 0x205F || n == 0x3000 || n == 0xFEFF
  }

  predicate Blank(s: string) {
    forall i :: 0 <= i < |s| ==> IsSpace(s[i])
  }

  /** Number of white-space characters at the front of `s`. */
  function LeadingSpace(s: string): (k: nat)
    ensures k <= |s|
    ensures Blank(s[..k])
    ensures k < |s| ==> !IsSpace(s[k])
  {
    if s == [] || !IsSpace(s[0]) then 0 else 1 + LeadingSpace(s[1..])
  }

  /** Number of white-space characters at the back of `s`. */
  function TrailingSpace(s: string): (k: nat)
    ensures k <= |s|
    ensures Blank(s[|s| - k..])
    ensures k < |s| ==> !IsSpace(s[|s| - 1 - k])
  {
    if s == [] || !IsSpace(s[|s| - 1]) then 0 else 1 + TrailingSpace(s[..|s| - 1])
  }

  /** `s` without its leading white space. */
  function TrimStart(s: string): (r: string)
  {
    s[LeadingSpace(s)..]
  }

  /** `s` without its trailing white space. */
  function TrimEnd(s: string): (r: string)
  {
    s[..|s| - TrailingSpace(s)]
  }

  /** `String.prototype.trim`: the slice of `s` left after removing white
      space at both ends. */
  function Trim(s: string): (r: string)
    ensures exists a, b :: 0 <= a <= b <= |s| && r == s[a..b] && Blank(s[..a]) && Blank(s[b..])
    ensures r == [] || (!IsSpace(r[0]) && !IsSpace(r[|r| - 1]))
  {
    var a := LeadingSpace(s);
    var rest := TrimStart(s);
    var b := a + |rest| - TrailingSpace(rest);
    assert TrimEnd(rest) == s[a..b];
    assert s[b..] == rest[|rest| - TrailingSpace(rest)..];
    TrimEnd(rest)
  }

  /** `LeadingSpace` is the index of the first non-white-space character. */
  lemma {:induction false} LeadingSpaceIs(s: string, a: nat)
    requires a <= |s| && Blank(s[..a]) && (a < |s| ==> !IsSpace(s[a]))
    ensures LeadingSpace(s) == a
  {
    if a > 0 {
      assert s[..a][0] == s[0];
      assert s[1..][..a - 1] == s[..a][1..];
      LeadingSpaceIs(s[1..], a - 1);
    }
  }

  /** `TrailingSpace` counts back to the last non-white-space character. */
  lemma {:induction false} TrailingSpaceIs(s: string, t: nat)
    requires t <= |s| && Blank(s[|s| - t..]) && (t < |s| ==> !IsSpace(s[|s| - 1 - t]))
    ensures TrailingSpace(s) == t
  {
    if t > 0 {
      var init := s[..|s| - 1];
      assert s[|s| - t..][t - 1] == s[|s| - 1];
      assert init[|init| - (t - 1)..] == s[|s| - t..][..t - 1];
      assert t - 1 < |init| ==> init[|init| - 1 - (t - 1)] == s[|s| - 1 - t];
      TrailingSpaceIs(init, t - 1);
      assert TrailingSpace(s) == 1 + TrailingSpace(init);
    }
  }

  /** A string of white space only trims to the empty string. */
  lemma TrimBlank(s: string)
    requires Blank(s)
    ensures Trim(s) == []
  {
    assert s[..|s|] == s;
    LeadingSpaceIs(s, |s|);
  }

  /** The two ensures of `Trim` pin its result down: any slice with blank
      surroundings and no white space at its ends is the trimmed string. */
  lemma TrimUnique(s: string, a: nat, b: nat)
    requires a <= b <= |s| && Blank(s[..a]) && Blank(s[b..])
    requires a < b ==> !IsSpace(s[a]) && !IsSpace(s[b - 1])
    ensures Trim(s) == s[a..b]
  {
    if a < b {
      LeadingSpaceIs(s, a);
      var rest := s[a..];
      assert TrimStart(s) == rest;
      var t := |s| - b;
      assert rest[|rest| - t..] == s[b..];
      assert rest[|rest| - 1 - t] == s[b - 1];
      TrailingSpaceIs(rest, t);
      assert TrimEnd(rest) == rest[..b - a] == s[a..b];
    } else {
      forall i | 0 <= i < |s| ensures IsSpace(s[i]) {
        if i < a { assert s[..a][i] == s[i]; } else { assert s[b..][i - b] == s[i]; }
      }
      TrimBlank(s);
    }
  }

  /** `text` holds `pat` starting at index `i`. */
  predicate OccursAt(text: string, pat: string, i: int) {
    0 <= i && i + |pat| <= |text| && text[i..i + |pat|] == pat
  }

  /** An occurrence inside the slice `text[s..e]` is an occurrence in
      `text`, shifted by `s`, that ends within the slice. */
  lemma OccursInSlice(text: string, pat: string, s: nat, e: nat, j: int)
    requires s <= e <= |text|
    ensures OccursAt(text[s..e], pat, j) <==> (0 <= j && s + j + |pat| <= e && OccursAt(text, pat, s + j))
  {
    if 0 <= j && s + j + |pat| <= e {
      var inSlice := text[s..e][j..j + |pat|];
      var inText := text[s + j..s + j + |pat|];
      forall k | 0 <= k < |pat| ensures inSlice[k] == inText[k] {
        assert text[s..e][j + k] == text[s + j + k];
      }
      assert inSlice == inText;
    }
  }

  /** The first occurrence of `pat` at or after `from`, or -1. */
  function IndexFrom(text: string, pat: string, from: nat): (r: int)
    decreases |text| - from
    ensures r == -1 || (from <= r && OccursAt(text, pat, r))
    ensures r == -1 ==> forall j :: from <= j ==> !OccursAt(text, pat, j)
    ensures r >= 0 ==> forall j :: from <= j < r ==> !OccursAt(text, pat, j)
  {
    if from + |pat| > |text| then -1
    else if text[from..from + |pat|] == pat then from
    else IndexFrom(text, pat, from + 1)
  }

  /** `String.prototype.indexOf`: the index of the first occurrence of
      `pat` in `text`, or -1 when there is none. */
  function IndexOf(text: string, pat: string): (r: int)
    ensures r == -1 <==> forall j :: !OccursAt(text, pat, j)
    ensures r >= 0 ==> OccursAt(text, pat, r) && forall j :: 0 <= j < r ==> !OccursAt(text, pat, j)
  {
    IndexFrom(text, pat, 0)
  }

  /** The first-occurrence index is the only index with an occurrence and
      none before it. */
  lemma IndexOfIsFirst(text: string, pat: string, i: int)
    requires OccursAt(text, pat, i)
    requires forall j :: 0 <= j < i ==> !OccursAt(text, pat, j)
    ensures IndexOf(text, pat) == i
  {
  }

  /** `String.prototype.includes`. */
  predicate Contains(text: string, pat: string) {
    IndexOf(text, pat) >= 0
  }
}
