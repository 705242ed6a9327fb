/**
 * The JavaScript string operations the quote store relies on:
 * `toLowerCase` (restricted to ASCII), `trim`, `includes`, `replace` of a
 * fixed prefix/suffix, and the decimal rendering of a number inside a
 * template literal.
 */
module Text {

  /* ---------------- lower-casing ---------------- */

  predicate IsAsciiUpper(c: char) {
    'A' <= c <= 'Z'
  }

  /** ASCII `toLowerCase` of one character; every other character is kept. */
  function LowerChar(c: char): (r: char)
    ensures IsAsciiUpper(c) ==> r as int == c as int + 32
    ensures !IsAsciiUpper(c) ==> r == c
    ensures !IsAsciiUpper(r)
  {
    if IsAsciiUpper(c) then (c as int + 32) as char else c
  }

  /** `s.toLowerCase()`, ASCII letters only. */
  function Lower(s: string): (r: string)
    ensures |r| == |s|
    ensures forall k :: 0 <= k < |s| ==> r[k] == LowerChar(s[k])
    ensures forall k :: 0 <= k < |r| ==> !IsAsciiUpper(r[k])
  {
    seq(|s|, k requires 0 <= k < |s| => LowerChar(s[k]))
  }

  /** Lower-casing twice is lower-casing once. */
  lemma LowerIdempotent(s: string)
    ensures Lower(Lower(s)) == Lower(s)
  {
  }

  /* ---------------- trim ---------------- */

  /**
   * The characters `String.prototype.trim` removes: the ECMAScript
   * WhiteSpace and LineTerminator code points.
   */
  predicate IsWhiteSpace(c: char) {
    c == ' ' || c == '\t' || c == '\n' || c == '\r' || c == '\U{000B}' || c == '\U{000C}'
    || c == '\U{00A0}' || c == '\U{FEFF}' || c == '\U{1680}'
    || ('\U{2000}' <= c <= '\U{200A}')
    || c == '\U{2028}' || c == '\U{2029}' || c == '\U{202F}' || c == '\U{205F}' || c == '\U{3000}'
  }

  predicate AllWhiteSpace(s: string) {
    forall k :: 0 <= k < |s| ==> IsWhiteSpace(s[k])
  }

  /** The number of white-space characters `s` starts with. */
  function LeadingBlanks(s: string): (k: nat)
    ensures k <= |s|
  {
    if s != [] && IsWhiteSpace(s[0]) then 1 + LeadingBlanks(s[1..]) else 0
  }

  /** The number of white-space characters `s` ends with. */
  function TrailingBlanks(s: string): (k: nat)
    ensures k <= |s|
  {
    if s != [] && IsWhiteSpace(s[|s| - 1]) then 1 + TrailingBlanks(s[..|s| - 1]) else 0
  }

  /** `LeadingBlanks` counts the longest all-white prefix. */
  lemma {:induction false} LeadingBlanksMaximal(s: string)
    ensures AllWhiteSpace(s[..LeadingBlanks(s)])
    ensures LeadingBlanks(s) < |s| ==> !IsWhiteSpace(s[LeadingBlanks(s)])
  {
    if s != [] && IsWhiteSpace(s[0]) {
      LeadingBlanksMaximal(s[1..]);
      var k := LeadingBlanks(s[1..]);
      assert s[..k + 1] == [s[0]] + s[1..][..k];
    }
  }

  /** `TrailingBlanks` counts the longest all-white suffix. */
  lemma {:induction false} TrailingBlanksMaximal(s: string)
    ensures AllWhiteSpace(s[|s| - TrailingBlanks(s)..])
    ensures TrailingBlanks(s) < |s| ==> !IsWhiteSpace(s[|s| - TrailingBlanks(s) - 1])
  {
    if s != [] && IsWhiteSpace(s[|s| - 1]) {
      var init := s[..|s| - 1];
      TrailingBlanksMaximal(init);
      var k := TrailingBlanks(init);
      assert TrailingBlanks(s) == k + 1;
      var tail := s[|s| - (k + 1)..];
      forall m | 0 <= m < |tail| ensures IsWhiteSpace(tail[m]) {
        if m < k {
          assert tail[m] == init[|init| - k..][m];
        } else {
          assert tail[m] == s[|s| - 1];
        }
      }
      if k + 1 < |s| {
        assert s[|s| - k - 2] == init[|init| - k - 1];
      }
    }
  }

  /** Removes the leading white space. */
  function TrimStart(s: string): string {
    s[LeadingBlanks(s)..]
  }

  /** Removes the trailing white space. */
  function TrimEnd(s: string): string {
    s[..|s| - TrailingBlanks(s)]
  }

  /** `s.trim()`. */
  function Trim(s: string): (r: string)
  {
    TrimEnd(TrimStart(s))
  }

  /**
   * The result of `Trim` is a slice of its input, everything cut away is
   * white space, and the result neither starts nor ends with white space.
   */
  lemma TrimIsInnerSlice(s: string)
    ensures var r := Trim(s);
      exists i :: 0 <= i <= |s| - |r| && r == s[i..i + |r|]
        && AllWhiteSpace(s[..i]) && AllWhiteSpace(s[i + |r|..])
    ensures Trim(s) != [] ==> !IsWhiteSpace(Trim(s)[0]) && !IsWhiteSpace(Trim(s)[|Trim(s)| - 1])
  {
    TrimSlice(s);
    var i, r := LeadingBlanks(s), Trim(s);
    assert 0 <= i <= |s| - |r| && r == s[i..i + |r|] && AllWhiteSpace(s[..i]) && AllWhiteSpace(s[i + |r|..]);
    TrimEnds(s);
  }

  /** `Trim(s)` is the slice of `s` after its leading blanks, and only white space follows it. */
  lemma TrimSlice(s: string)
    ensures var i, r := LeadingBlanks(s), Trim(s);
      && i + |r| <= |s| && r == s[i..i + |r|]
      && AllWhiteSpace(s[..i]) && AllWhiteSpace(s[i + |r|..])
  {
    var i := LeadingBlanks(s);
    var t := TrimStart(s);
    var j := TrailingBlanks(t);
    assert t == s[i..];
    assert Trim(s) == t[..|t| - j];
    LeadingBlanksMaximal(s);
    TrailingBlanksMaximal(t);
    InnerSlice(s, t, i, j, Trim(s));
  }

  /**
   * Cutting `i` white-space elements from the front of `s` and then `j`
   * from the back leaves `r == s[i..|s| - j]`, with white space on both sides.
   */
  lemma InnerSlice(s: string, t: string, i: nat, j: nat, r: string)
    requires i <= |s| && t == s[i..] && j <= |t| && r == t[..|t| - j]
    requires AllWhiteSpace(s[..i]) && AllWhiteSpace(t[|t| - j..])
    ensures i + |r| <= |s| && r == s[i..i + |r|]
    ensures AllWhiteSpace(s[..i]) && AllWhiteSpace(s[i + |r|..])
  {
    assert t[|t| - j..] == s[i + |r|..];
  }

  lemma TrimEnds(s: string)
    ensures Trim(s) != [] ==> !IsWhiteSpace(Trim(s)[0]) && !IsWhiteSpace(Trim(s)[|Trim(s)| - 1])
  {
    var i := LeadingBlanks(s);
    var t := s[i..];
    var j := TrailingBlanks(t);
    LeadingBlanksMaximal(s);
    TrailingBlanksMaximal(t);
    var r := Trim(s);
    if r != [] {
      assert r[0] == t[0] == s[i];
      assert r[|r| - 1] == t[|t| - j - 1];
    }
  }

  /** A string made only of white space is all leading blanks. */
  lemma {:induction false} LeadingBlanksAll(s: string)
    requires AllWhiteSpace(s)
    ensures LeadingBlanks(s) == |s|
  {
    if s != [] {
      assert AllWhiteSpace(s[1..]) by {
        forall k | 0 <= k < |s[1..]| ensures IsWhiteSpace(s[1..][k]) {
          assert s[1..][k] == s[k + 1];
        }
      }
      LeadingBlanksAll(s[1..]);
    }
  }

  /** Leading blanks followed by nothing but white space are the whole string. */
  lemma LeadingBlanksStop(s: string)
    ensures AllWhiteSpace(s[LeadingBlanks(s)..]) ==> LeadingBlanks(s) == |s|
  {
    var i := LeadingBlanks(s);
    LeadingBlanksMaximal(s);
    if i < |s| {
      assert s[i..][0] == s[i];
    }
  }

  /** `trim` yields the empty string exactly for strings made only of white space. */
  lemma TrimEmptyIffBlank(s: string)
    ensures Trim(s) == [] <==> AllWhiteSpace(s)
  {
    if AllWhiteSpace(s) {
      LeadingBlanksAll(s);
      assert TrimStart(s) == [];
    }
    if Trim(s) == [] {
      TrimSlice(s);
      LeadingBlanksStop(s);
      assert s[..LeadingBlanks(s)] == s;
    }
  }

  /* ---------------- includes ---------------- */

  /** `needle` occurs in `hay` starting at position `i`. */
  ghost predicate OccursAt(hay: string, needle: string, i: int) {
    0 <= i && i + |needle| <= |hay| && hay[i..i + |needle|] == needle
  }

  predicate StartsWith(s: string, prefix: string) {
    |prefix| <= |s| && s[..|prefix|] == prefix
  }

  /** `hay.includes(needle)`: some position of `hay` starts an occurrence of `needle`. */
  function Contains(hay: string, needle: string): (b: bool)
    ensures b <==> exists i :: OccursAt(hay, needle, i)
  {
    if StartsWith(hay, needle) then
      assert OccursAt(hay, needle, 0);
      true
    else if hay == [] then
      assert forall i :: !OccursAt(hay, needle, i);
      false
    else
      var rest := Contains(hay[1..], needle);
      assert forall i :: OccursAt(hay[1..], needle, i) <==> OccursAt(hay, needle, i + 1) by {
        forall i ensures OccursAt(hay[1..], needle, i) <==> OccursAt(hay, needle, i + 1) {
          if 0 <= i && i + |needle| <= |hay[1..]| {
            assert hay[1..][i..i + |needle|] == hay[i + 1..i + 1 + |needle|];
          }
        }
      }
      assert !OccursAt(hay, needle, 0);
      assert (exists i :: OccursAt(hay, needle, i)) ==> exists i :: OccursAt(hay[1..], needle, i) by {
        if exists i :: OccursAt(hay, needle, i) {
          var i :| OccursAt(hay, needle, i);
          assert i > 0;
          assert OccursAt(hay[1..], needle, i - 1);
        }
      }
      rest
  }

  /** Every string includes the empty string. */
  lemma ContainsEmpty(hay: string)
    ensures Contains(hay, "")
  {
    assert OccursAt(hay, "", 0);
  }

  /* ---------------- replace(/^\/|\.json$/g, '') ---------------- */

  const JsonExtension: string := ".json"

  /**
   * `path.replace(/^\/|\.json$/g, '')`: one leading slash and one trailing
   * `.json` are removed (the two cannot overlap, since `.json` does not
   * start with a slash).
   */
  function StripSourcePath(path: string): (name: string)
    ensures path == (if StartsWith(path, "/") then "/" else "") + name
                    + (if EndsWithJson(path) then JsonExtension else "")
  {
    var afterSlash := if StartsWith(path, "/") then path[1..] else path;
    var n := |afterSlash|;
    if EndsWithJson(path) then
      assert path[|path| - 5] == path[|path| - 5..][0] == '.';
      assert StartsWith(path, "/") ==> path[0] == "/"[0] == '/';
      assert afterSlash[n - 5..] == path[|path| - 5..];
      assert afterSlash == afterSlash[..n - 5] + JsonExtension;
      afterSlash[..n - 5]
    else
      afterSlash
  }

  predicate EndsWithJson(s: string) {
    |s| >= |JsonExtension| && s[|s| - |JsonExtension|..] == JsonExtension
  }

  /** Stripping undoes framing a name as `/name.json`. */
  lemma StripFramedName(name: string)
    ensures StripSourcePath("/" + name + JsonExtension) == name
  {
    var path := "/" + name + JsonExtension;
    assert path[..1] == "/";
    assert path[|path| - |JsonExtension|..] == JsonExtension;
    var r := StripSourcePath(path);
    assert path == "/" + r + JsonExtension;
    assert r == path[1..|path| - |JsonExtension|];
    assert name == path[1..|path| - |JsonExtension|];
  }

  /* ---------------- decimal rendering ---------------- */

  predicate IsDigit(c: char) {
    '0' <= c <= '9'
  }

  function DigitChar(d: nat): (c: char)
    requires d < 10
    ensures IsDigit(c) && c as int - '0' as int == d
  {
    ('0' as int + d) as char
  }

  /** The number a string of decimal digits denotes, most significant digit first. */
  function DigitsValue(s: string): nat
    requires forall k :: 0 <= k < |s| ==> IsDigit(s[k])
  {
    if s == [] then 0
    else
      assert IsDigit(s[|s| - 1]);
      DigitsValue(s[..|s| - 1]) * 10 + (s[|s| - 1] as int - '0' as int)
  }

  /**
   * The decimal text of `n`, as a template literal `${n}` renders a
   * non-negative integer: digits that read back as `n`, with no leading zero.
   */
  function Decimal(n: nat): (r: string)
    ensures 1 <= |r|
    ensures forall k :: 0 <= k < |r| ==> IsDigit(r[k])
    ensures DigitsValue(r) == n
    ensures |r| >= 2 ==> r[0] != '0'
    ensures n >= 10 <==> |r| >= 2
  {
    if n < 10 then [DigitChar(n)]
    else
      var init := Decimal(n / 10);
      var r := init + [DigitChar(n % 10)];
      assert r[..|r| - 1] == init;
      assert r[0] == init[0];
      r
  }

  /** Different numbers have different decimal texts. */
  lemma DecimalInjective(a: nat, b: nat)
    requires Decimal(a) == Decimal(b)
    ensures a == b
  {
    assert a == DigitsValue(Decimal(a));
  }
}
