/** String helpers shared by the Python and TypeScript parts of the model.
    Strings are sequences of Unicode scalar values; Python `str` indexes the same way.
    JavaScript counts UTF-16 code units instead, which agree with characters only in
    the Basic Multilingual Plane; the model counts characters throughout. */
module Text {

  // ---------------------------------------------------------------------------
  // Prefixes, suffixes, substrings
  // ---------------------------------------------------------------------------

  predicate StartsWith(s: string, prefix: string) {
    |prefix| <= |s| && s[..|prefix|] == prefix
  }

  predicate EndsWith(s: string, suffix: string) {
    |suffix| <= |s| && s[|s| - |suffix|..] == suffix
  }

  /** `sub in s` (Python) / `s.includes(sub)` (JavaScript). */
  predicate Contains(s: string, sub: string)
    decreases |s|
  {
    StartsWith(s, sub) || (|s| > 0 && Contains(s[1..], sub))
  }

  lemma {:induction false} ContainsAt(s: string, sub: string, i: nat)
    requires i + |sub| <= |s| && s[i..i + |sub|] == sub
    ensures Contains(s, sub)
    decreases i
  {
    if i > 0 {
      assert s[1..][i - 1..i - 1 + |sub|] == sub;
      ContainsAt(s[1..], sub, i - 1);
    }
  }

  lemma {:induction false} ContainsWitness(s: string, sub: string) returns (i: nat)
    requires Contains(s, sub)
    ensures i + |sub| <= |s| && s[i..i + |sub|] == sub
    decreases |s|
  {
    if StartsWith(s, sub) {
      i := 0;
    } else {
      var j := ContainsWitness(s[1..], sub);
      assert s[1..][j..j + |sub|] == s[j + 1..j + 1 + |sub|];
      i := j + 1;
    }
  }

  /** A character occurs in a string. */
  predicate HasChar(s: string, c: char) {
    exists i :: 0 <= i < |s| && s[i] == c
  }

  lemma ConcatLacksChar(a: string, b: string, c: char)
    requires !HasChar(a, c) && !HasChar(b, c)
    ensures !HasChar(a + b, c)
  {
    forall i | 0 <= i < |a + b|
      ensures (a + b)[i] != c
    {
      if i >= |a| {
        assert (a + b)[i] == b[i - |a|];
      }
    }
  }

  /** A text cannot occur across or inside a prefix that lacks its first character. */
  lemma {:induction false} NotContainedPastPrefix(a: string, b: string, sub: string)
    requires |sub| > 0 && !HasChar(a, sub[0]) && !Contains(b, sub)
    ensures !Contains(a + b, sub)
    decreases |a|
  {
    if |a| == 0 {
      assert a + b == b;
    } else {
      var ab := a + b;
      assert ab[0] == a[0] != sub[0];
      if |sub| <= |ab| {
        assert ab[..|sub|][0] == ab[0];
      }
      assert !HasChar(a[1..], sub[0]) by {
        forall i | 0 <= i < |a[1..]| ensures a[1..][i] != sub[0] {
          assert a[1..][i] == a[i + 1];
        }
      }
      NotContainedPastPrefix(a[1..], b, sub);
      assert ab[1..] == a[1..] + b;
    }
  }

  // ---------------------------------------------------------------------------
  // Whitespace and trimming
  // ---------------------------------------------------------------------------

  /** Characters for which Python's `str.isspace()` holds; `str.strip()` removes them. */
  predicate IsPySpace(c: char) {
    ('\t' <= c <= '\r') || ('\U{1C}' <= c <= ' ') || c == '\U{85}' || c == '\U{A0}'
    || c == '\U{1680}' || ('\U{2000}' <= c <= '\U{200A}') || c == '\U{2028}' || c == '\U{2029}'
    || c == '\U{202F}' || c == '\U{205F}' || c == '\U{3000}'
  }

  /** ECMAScript WhiteSpace and LineTerminator: what `String.prototype.trim` removes
      and what the regular-expression class `\s` matches. */
  predicate IsJsSpace(c: char) {
    ('\t' <= c <= '\r') || c == ' ' || c == '\U{A0}' || c == '\U{1680}'
    || ('\U{2000}' <= c <= '\U{200A}') || c == '\U{2028}' || c == '\U{2029}'
    || c == '\U{202F}' || c == '\U{205F}' || c == '\U{3000}' || c == '\U{FEFF}'
  }

  /** ECMAScript LineTerminator: the characters `.` in a regular expression does not match. */
  predicate IsJsLineTerminator(c: char) {
    c == '\n' || c == '\r' || c == '\U{2028}' || c == '\U{2029}'
  }

  ghost predicate AllSatisfy(s: string, p: char -> bool) {
    forall i :: 0 <= i < |s| ==> p(s[i])
  }

  function TrimStart(s: string, ws: char -> bool): (r: string)
    ensures |r| <= |s| && r == s[|s| - |r|..]
    ensures AllSatisfy(s[..|s| - |r|], ws)
    ensures |r| > 0 ==> !ws(r[0])
  {
    if |s| > 0 && ws(s[0]) then
      var r := TrimStart(s[1..], ws);
      TrimStartStep(s, r, ws);
      r
    else s
  }

  lemma TrimStartStep(s: string, r: string, ws: char -> bool)
    requires |s| > 0 && ws(s[0])
    requires |r| <= |s| - 1 && r == s[1..][|s| - 1 - |r|..] && AllSatisfy(s[1..][..|s| - 1 - |r|], ws)
    ensures r == s[|s| - |r|..] && AllSatisfy(s[..|s| - |r|], ws)
  {
    var k := |s| - |r|;
    forall i | 0 <= i < k
      ensures ws(s[..k][i])
    {
      if i > 0 {
        assert s[..k][i] == s[1..][..k - 1][i - 1];
      }
    }
  }

  function TrimEnd(s: string, ws: char -> bool): (r: string)
    ensures |r| <= |s| && r == s[..|r|]
    ensures AllSatisfy(s[|r|..], ws)
    ensures |r| > 0 ==> !ws(r[|r| - 1])
  {
    if |s| > 0 && ws(s[|s| - 1]) then
      var r := TrimEnd(s[..|s| - 1], ws);
      TrimEndStep(s, r, ws);
      r
    else s
  }

  lemma TrimEndStep(s: string, r: string, ws: char -> bool)
    requires |s| > 0 && ws(s[|s| - 1])
    requires |r| <= |s| - 1 && r == s[..|s| - 1][..|r|] && AllSatisfy(s[..|s| - 1][|r|..], ws)
    ensures r == s[..|r|] && AllSatisfy(s[|r|..], ws)
  {
    forall j | 0 <= j < |s| - |r|
      ensures ws(s[|r|..][j])
    {
      if j < |s| - 1 - |r| {
        assert s[|r|..][j] == s[..|s| - 1][|r|..][j];
      }
    }
  }

  /** `r` is a slice of `s` with only `ws` characters before and after it. */
  ghost predicate TrimmedFrom(s: string, r: string, ws: char -> bool) {
    exists i :: (0 <= i <= i + |r| <= |s| && r == s[i..i + |r|]
                 && AllSatisfy(s[..i], ws) && AllSatisfy(s[i + |r|..], ws))
  }

  /** Neither the first nor the last character of `r` is a `ws` character. */
  predicate EdgesNot(r: string, ws: char -> bool) {
    |r| > 0 ==> !ws(r[0]) && !ws(r[|r| - 1])
  }

  /** Removes the longest leading and trailing runs of `ws` characters. */
  function Trim(s: string, ws: char -> bool): (r: string)
    ensures TrimmedFrom(s, r, ws)
    ensures EdgesNot(r, ws)
  {
    TrimSlice(s, ws);
    TrimEnd(TrimStart(s, ws), ws)
  }

  lemma TrimSlice(s: string, ws: char -> bool)
    ensures var r := TrimEnd(TrimStart(s, ws), ws);
            TrimmedFrom(s, r, ws) && EdgesNot(r, ws)
  {
    var t := TrimStart(s, ws);
    var r := TrimEnd(t, ws);
    SliceOfSuffix(s, t, r, ws);
    if |r| > 0 {
      assert |t| > 0 && !ws(t[0]);
      assert r[0] == t[0];
      assert !ws(r[|r| - 1]);
    }
  }

  /** A prefix `r` of a suffix `t` of `s`, with only `ws` characters cut off on either
      side, is trimmed from `s`. */
  lemma SliceOfSuffix(s: string, t: string, r: string, ws: char -> bool)
    requires |t| <= |s| && t == s[|s| - |t|..] && AllSatisfy(s[..|s| - |t|], ws)
    requires |r| <= |t| && r == t[..|r|] && AllSatisfy(t[|r|..], ws)
    ensures TrimmedFrom(s, r, ws)
  {
    var i := |s| - |t|;
    assert r == s[i..i + |r|];
    assert s[i + |r|..] == t[|r|..];
    TrimmedAt(s, r, ws, i);
  }

  lemma TrimmedAt(s: string, r: string, ws: char -> bool, i: nat)
    requires i + |r| <= |s| && r == s[i..i + |r|]
    requires AllSatisfy(s[..i], ws) && AllSatisfy(s[i + |r|..], ws)
    ensures TrimmedFrom(s, r, ws)
  {
  }

  /** Python `str.strip()` with no argument. */
  function PyStrip(s: string): string {
    Trim(s, IsPySpace)
  }

  /** JavaScript `String.prototype.trim()`. */
  function JsTrim(s: string): string {
    Trim(s, IsJsSpace)
  }

  lemma TrimStartOfNonSpace(s: string, ws: char -> bool)
    requires |s| > 0 && !ws(s[0])
    ensures TrimStart(s, ws) == s
  {
  }

  /** Trimming keeps a leading piece whose first and last characters are not whitespace. */
  lemma TrimKeepsLeading(s: string, p: string, ws: char -> bool)
    requires |p| > 0 && StartsWith(s, p) && !ws(p[0]) && !ws(p[|p| - 1])
    ensures StartsWith(Trim(s, ws), p)
  {
    assert s[0] == p[0];
    assert s[|p| - 1] == p[|p| - 1];
    TrimStartOfNonSpace(s, ws);
    var r := TrimEnd(s, ws);
    assert Trim(s, ws) == r;
    forall j | |r| <= j < |s| ensures ws(s[j]) {
      assert s[|r|..][j - |r|] == s[j];
    }
    assert r[..|p|] == s[..|p|];
  }

  /** Trimming keeps a first character that is not whitespace. */
  lemma TrimKeepsFirst(s: string, ws: char -> bool)
    requires |s| > 0 && !ws(s[0])
    ensures |Trim(s, ws)| > 0 && Trim(s, ws)[0] == s[0]
  {
    TrimStartOfNonSpace(s, ws);
    var r := TrimEnd(s, ws);
    assert s[0..] == s;
    assert |s[|r|..]| > 0 ==> ws(s[|r|..][0]);
    assert Trim(s, ws) == r;
  }

  lemma {:induction false} TrimStartPadding(w: string, s: string, ws: char -> bool)
    requires AllSatisfy(w, ws)
    ensures TrimStart(w + s, ws) == TrimStart(s, ws)
    decreases |w|
  {
    if |w| > 0 {
      assert (w + s)[1..] == w[1..] + s;
      TrimStartPadding(w[1..], s, ws);
    } else {
      assert w + s == s;
    }
  }

  lemma {:induction false} TrimEndPadding(s: string, w: string, ws: char -> bool)
    requires AllSatisfy(w, ws)
    ensures TrimEnd(s + w, ws) == TrimEnd(s, ws)
    decreases |w|
  {
    if |w| > 0 {
      assert (s + w)[..|s + w| - 1] == s + w[..|w| - 1];
      TrimEndPadding(s, w[..|w| - 1], ws);
    } else {
      assert s + w == s;
    }
  }

  lemma {:induction false} TrimEndTrimStartPadding(w1: string, s: string, w2: string, ws: char -> bool)
    requires AllSatisfy(w1, ws) && AllSatisfy(w2, ws)
    ensures Trim(w1 + s + w2, ws) == Trim(s, ws)
  {
    assert w1 + s + w2 == w1 + (s + w2);
    calc {
      Trim(w1 + s + w2, ws);
      TrimEnd(TrimStart(w1 + (s + w2), ws), ws);
      { TrimStartPadding(w1, s + w2, ws); }
      TrimEnd(TrimStart(s + w2, ws), ws);
      { TrimAppendPadding(s, w2, ws); }
      TrimEnd(TrimStart(s, ws), ws);
      Trim(s, ws);
    }
  }

  /** Trailing whitespace never survives trimming. */
  lemma {:induction false} TrimAppendPadding(s: string, w: string, ws: char -> bool)
    requires AllSatisfy(w, ws)
    ensures TrimEnd(TrimStart(s + w, ws), ws) == TrimEnd(TrimStart(s, ws), ws)
    decreases |s|
  {
    if |s| == 0 {
      assert s + w == w;
      AllSpaceTrimsToEmpty(w, ws);
    } else if ws(s[0]) {
      assert (s + w)[1..] == s[1..] + w;
      TrimAppendPadding(s[1..], w, ws);
    } else {
      TrimEndPadding(s, w, ws);
    }
  }

  /** Two texts with whitespace at the same positions are trimmed at the same places. */
  lemma {:induction false} TrimStartAligned(a: string, b: string, ws: char -> bool)
    requires |a| == |b| && forall i :: 0 <= i < |a| ==> (ws(a[i]) <==> ws(b[i]))
    ensures |TrimStart(a, ws)| == |TrimStart(b, ws)|
    decreases |a|
  {
    if |a| > 0 && ws(a[0]) {
      assert forall i :: 0 <= i < |a| - 1 ==> a[1..][i] == a[i + 1] && b[1..][i] == b[i + 1];
      TrimStartAligned(a[1..], b[1..], ws);
    }
  }

  lemma {:induction false} TrimEndAligned(a: string, b: string, ws: char -> bool)
    requires |a| == |b| && forall i :: 0 <= i < |a| ==> (ws(a[i]) <==> ws(b[i]))
    ensures |TrimEnd(a, ws)| == |TrimEnd(b, ws)|
    decreases |a|
  {
    if |a| > 0 && ws(a[|a| - 1]) {
      assert forall i :: 0 <= i < |a| - 1 ==> a[..|a| - 1][i] == a[i] && b[..|b| - 1][i] == b[i];
      TrimEndAligned(a[..|a| - 1], b[..|b| - 1], ws);
    }
  }

  lemma TrimAligned(a: string, b: string, ws: char -> bool) returns (o: nat, n: nat)
    requires |a| == |b| && forall i :: 0 <= i < |a| ==> (ws(a[i]) <==> ws(b[i]))
    ensures o + n <= |a| && Trim(a, ws) == a[o..o + n] && Trim(b, ws) == b[o..o + n]
  {
    var ta, tb := TrimStart(a, ws), TrimStart(b, ws);
    TrimStartAligned(a, b, ws);
    o := |a| - |ta|;
    SuffixesAligned(a, b, ws, o);
    assert ta == a[o..] && tb == b[o..];
    TrimEndAligned(ta, tb, ws);
    n := |TrimEnd(ta, ws)|;
    TrimIsSlice(a, ws, o, n);
    TrimIsSlice(b, ws, o, n);
  }

  lemma SuffixesAligned(a: string, b: string, ws: char -> bool, o: nat)
    requires |a| == |b| && forall i :: 0 <= i < |a| ==> (ws(a[i]) <==> ws(b[i]))
    requires o <= |a|
    ensures forall i :: 0 <= i < |a[o..]| ==> (ws(a[o..][i]) <==> ws(b[o..][i]))
  {
    forall i | 0 <= i < |a[o..]|
      ensures ws(a[o..][i]) <==> ws(b[o..][i])
    {
      assert a[o..][i] == a[o + i] && b[o..][i] == b[o + i];
    }
  }

  lemma TrimIsSlice(a: string, ws: char -> bool, o: nat, n: nat)
    requires o == |a| - |TrimStart(a, ws)| && n == |TrimEnd(TrimStart(a, ws), ws)|
    ensures o + n <= |a| && TrimEnd(TrimStart(a, ws), ws) == a[o..o + n]
  {
    var ta := TrimStart(a, ws);
    PrefixOfSuffix(a, o, n, ta, TrimEnd(ta, ws));
  }

  lemma PrefixOfSuffix(a: string, o: nat, n: nat, t: string, r: string)
    requires o <= |a| && t == a[o..] && n <= |t| && r == t[..n]
    ensures o + n <= |a| && r == a[o..o + n]
  {
  }

  lemma {:induction false} AllSpaceTrimsToEmpty(w: string, ws: char -> bool)
    requires AllSatisfy(w, ws)
    ensures TrimStart(w, ws) == []
    decreases |w|
  {
    if |w| > 0 {
      AllSpaceTrimsToEmpty(w[1..], ws);
    }
  }

  /** Python `s.lstrip(c)` / `s.rstrip(c)` for a single character `c`. */
  function LStripChar(s: string, c: char): (r: string)
    ensures |r| <= |s| && r == s[|s| - |r|..]
    ensures forall i :: 0 <= i < |s| - |r| ==> s[i] == c
    ensures |r| > 0 ==> r[0] != c
  {
    if |s| > 0 && s[0] == c then LStripChar(s[1..], c) else s
  }

  function RStripChar(s: string, c: char): (r: string)
    ensures |r| <= |s| && r == s[..|r|]
    ensures forall i :: |r| <= i < |s| ==> s[i] == c
    ensures |r| > 0 ==> r[|r| - 1] != c
  {
    if |s| > 0 && s[|s| - 1] == c then RStripChar(s[..|s| - 1], c) else s
  }

  // ---------------------------------------------------------------------------
  // Case
  // ---------------------------------------------------------------------------

  function AsciiLowerChar(c: char): char {
    if 'A' <= c <= 'Z' then (c as int + 32) as char else c
  }

  /** Lower-cases the ASCII letters `A`-`Z` and leaves every other character alone. */
  function AsciiLower(s: string): (r: string)
    ensures |r| == |s|
    ensures forall i :: 0 <= i < |s| ==> r[i] == AsciiLowerChar(s[i])
  {
    seq(|s|, i requires 0 <= i < |s| => AsciiLowerChar(s[i]))
  }

  /** JavaScript `toLowerCase` on one character, as far as its result can hold ASCII:
      `A`-`Z` become `a`-`z`, the Kelvin sign U+212A becomes `k`, and the capital I with
      dot above U+0130 becomes `i` followed by the combining dot U+0307. Any other
      character is kept. */
  function JsLowerChar(c: char): (r: string)
    ensures 1 <= |r| <= 2
    ensures |r| == 2 <==> c == '\U{0130}'
    ensures c < '\U{80}' ==> r == [AsciiLowerChar(c)]
  {
    if 'A' <= c <= 'Z' then [AsciiLowerChar(c)]
    else if c == '\U{212A}' then "k"
    else if c == '\U{0130}' then "i\U{0307}"
    else [c]
  }

  /** Only a whitespace character lower-cases to whitespace, and it lower-cases to itself. */
  lemma SpaceLowersToItself(c: char, d: char)
    requires JsLowerChar(c) == [d] && IsJsSpace(d)
    ensures c == d
  {
  }

  predicate AllAscii(s: string) {
    forall i :: 0 <= i < |s| ==> s[i] < '\U{80}'
  }

  /** JavaScript `toLowerCase` on a text: each character's lower case, in order. */
  function JsLower(s: string): (r: string)
    ensures |s| <= |r|
    decreases |s|
  {
    if |s| == 0 then "" else JsLowerChar(s[0]) + JsLower(s[1..])
  }

  /** On ASCII text the JavaScript lower case is `AsciiLower`. */
  lemma {:induction false} JsLowerOfAscii(s: string)
    requires AllAscii(s)
    ensures JsLower(s) == AsciiLower(s)
    decreases |s|
  {
    if |s| > 0 {
      assert AllAscii(s[1..]) by {
        forall i | 0 <= i < |s[1..]| ensures s[1..][i] < '\U{80}' {
          assert s[1..][i] == s[i + 1];
        }
      }
      JsLowerOfAscii(s[1..]);
      assert AsciiLower(s) == [AsciiLowerChar(s[0])] + AsciiLower(s[1..]);
    }
  }

  /** Lower-casing works piece by piece. */
  lemma {:induction false} JsLowerConcat(a: string, b: string)
    ensures JsLower(a + b) == JsLower(a) + JsLower(b)
    decreases |a|
  {
    if |a| > 0 {
      var ab := a + b;
      assert ab[0] == a[0] && ab[1..] == a[1..] + b;
      assert JsLower(ab) == JsLowerChar(a[0]) + JsLower(a[1..] + b);
      JsLowerConcat(a[1..], b);
      assert JsLower(a) == JsLowerChar(a[0]) + JsLower(a[1..]);
    } else {
      assert a + b == b;
    }
  }

  /** The lower case of a prefix is a prefix of the lower case. */
  lemma PrefixLowersToPrefix(s: string, p: string)
    requires StartsWith(s, p)
    ensures StartsWith(JsLower(s), JsLower(p))
  {
    assert s == p + s[|p|..];
    JsLowerConcat(p, s[|p|..]);
  }

  /** `a` and `b` differ at most in characters that lower-case alike, place by place. */
  predicate LowerAlike(a: string, b: string) {
    |a| == |b| && forall i :: 0 <= i < |a| ==> JsLowerChar(a[i]) == JsLowerChar(b[i])
  }

  /** Texts that differ only in letter case lower-case to the same text. */
  lemma {:induction false} LowerAlikeLowersAlike(a: string, b: string)
    requires LowerAlike(a, b)
    ensures JsLower(a) == JsLower(b)
    decreases |a|
  {
    if |a| > 0 {
      assert JsLowerChar(a[0]) == JsLowerChar(b[0]);
      assert LowerAlike(a[1..], b[1..]) by {
        forall i | 0 <= i < |a[1..]| ensures JsLowerChar(a[1..][i]) == JsLowerChar(b[1..][i]) {
          assert a[1..][i] == a[i + 1] && b[1..][i] == b[i + 1];
        }
      }
      LowerAlikeLowersAlike(a[1..], b[1..]);
    }
  }

  /** Texts that lower-case alike have their whitespace at the same places. */
  lemma LowerAlikeSpaces(a: string, b: string)
    requires LowerAlike(a, b)
    ensures |a| == |b| && forall i :: 0 <= i < |a| ==> (IsJsSpace(a[i]) <==> IsJsSpace(b[i]))
  {
    forall i | 0 <= i < |a| ensures IsJsSpace(a[i]) <==> IsJsSpace(b[i]) {
      assert JsLowerChar(a[i]) == JsLowerChar(b[i]);
      if IsJsSpace(a[i]) {
        SpaceLowersToItself(b[i], a[i]);
      }
      if IsJsSpace(b[i]) {
        SpaceLowersToItself(a[i], b[i]);
      }
    }
  }

  /** Every slice of texts that lower-case alike lower-cases alike. */
  lemma LowerAlikeSlice(a: string, b: string, o: nat, n: nat)
    requires LowerAlike(a, b) && o + n <= |a|
    ensures LowerAlike(a[o..o + n], b[o..o + n])
  {
    var sa, sb := a[o..o + n], b[o..o + n];
    forall i | 0 <= i < |sa| ensures JsLowerChar(sa[i]) == JsLowerChar(sb[i]) {
      assert sa[i] == a[o + i] && sb[i] == b[o + i];
    }
  }

  // ---------------------------------------------------------------------------
  // Splitting and joining
  // ---------------------------------------------------------------------------

  /** Python `sep.join(parts)` / JavaScript `parts.join(sep)`. */
  function Join(parts: seq<string>, sep: string): string
    decreases |parts|
  {
    if |parts| == 0 then ""
    else if |parts| == 1 then parts[0]
    else parts[0] + sep + Join(parts[1..], sep)
  }

  /** The first and last pieces of a three-piece concatenation are its prefix and suffix. */
  lemma EndsOfConcat(a: string, b: string, c: string)
    ensures StartsWith(a + b + c, a) && EndsWith(a + b + c, c)
  {
    assert (a + b + c)[..|a|] == a;
    assert (a + b + c)[|a + b + c| - |c|..] == c;
  }

  /** Joining five parts puts the separator between each neighbouring pair. */
  lemma JoinFive(a: string, b: string, c: string, d: string, e: string, sep: string)
    ensures Join([a, b, c, d, e], sep) == a + sep + b + sep + c + sep + d + sep + e
  {
    assert Join([d, e], sep) == d + sep + e by {
      assert [d, e][1..] == [e];
    }
    assert Join([c, d, e], sep) == c + sep + Join([d, e], sep) by {
      assert [c, d, e][1..] == [d, e];
    }
    assert Join([b, c, d, e], sep) == b + sep + Join([c, d, e], sep) by {
      assert [b, c, d, e][1..] == [c, d, e];
    }
    assert Join([a, b, c, d, e], sep) == a + sep + Join([b, c, d, e], sep) by {
      assert [a, b, c, d, e][1..] == [b, c, d, e];
    }
  }

  /** Python `s.split(c)` / JavaScript `s.split(c)` for a one-character separator:
      the pieces between consecutive separators, always at least one. */
  function Split(s: string, sep: char): (r: seq<string>)
    ensures |r| >= 1
    ensures forall k :: 0 <= k < |r| ==> !HasChar(r[k], sep)
    ensures Join(r, [sep]) == s
  {
    if |s| == 0 then [""]
    else
      var rest := Split(s[1..], sep);
      if s[0] == sep then
        assert Join([""] + rest, [sep]) == [sep] + Join(rest, [sep]) by {
          assert ([""] + rest)[1..] == rest;
        }
        [""] + rest
      else
        var r := [[s[0]] + rest[0]] + rest[1..];
        assert !HasChar(r[0], sep) by {
          forall i | 0 <= i < |r[0]| ensures r[0][i] != sep {
            if i > 0 { assert r[0][i] == rest[0][i - 1]; }
          }
        }
        assert Join(r, [sep]) == s by {
          if |rest| > 1 {
            assert r[1..] == rest[1..];
          }
        }
        r
  }

  lemma {:induction false} SplitWithoutSeparator(a: string, sep: char)
    requires !HasChar(a, sep)
    ensures Split(a, sep) == [a]
    decreases |a|
  {
    if |a| > 0 {
      assert !HasChar(a[1..], sep) by {
        forall i | 0 <= i < |a| - 1 ensures a[1..][i] != sep {
          assert a[1..][i] == a[i + 1];
        }
      }
      SplitWithoutSeparator(a[1..], sep);
      assert [a[0]] + a[1..] == a;
    }
  }

  lemma {:induction false} SplitAfterPart(a: string, sep: char, rest: string)
    requires !HasChar(a, sep)
    ensures Split(a + [sep] + rest, sep) == [a] + Split(rest, sep)
    decreases |a|
  {
    var s := a + [sep] + rest;
    if |a| == 0 {
      assert s[0] == sep && s[1..] == rest;
    } else {
      assert !HasChar(a[1..], sep) by {
        forall i | 0 <= i < |a| - 1 ensures a[1..][i] != sep {
          assert a[1..][i] == a[i + 1];
        }
      }
      assert s[0] == a[0] && s[0] != sep;
      assert s[1..] == a[1..] + [sep] + rest;
      SplitAfterPart(a[1..], sep, rest);
      assert [a[0]] + a[1..] == a;
    }
  }

  /** Splitting undoes joining when no part contains the separator. */
  lemma {:induction false} SplitJoin(parts: seq<string>, sep: char)
    requires |parts| >= 1 && forall k :: 0 <= k < |parts| ==> !HasChar(parts[k], sep)
    ensures Split(Join(parts, [sep]), sep) == parts
    decreases |parts|
  {
    if |parts| == 1 {
      SplitWithoutSeparator(parts[0], sep);
    } else {
      SplitJoin(parts[1..], sep);
      SplitAfterPart(parts[0], sep, Join(parts[1..], [sep]));
      assert [parts[0]] + parts[1..] == parts;
    }
  }

  /** Removing surrounding whitespace leaves a text alone whose ends are not whitespace. */
  lemma TrimOfUnpadded(s: string, ws: char -> bool)
    requires |s| > 0 && !ws(s[0]) && !ws(s[|s| - 1])
    ensures Trim(s, ws) == s
  {
    TrimStartOfNonSpace(s, ws);
    assert !AllSatisfy(s[|s| - 1..], ws);
  }

  function Repeat(c: char, n: nat): (r: string)
    ensures |r| == n && forall i :: 0 <= i < n ==> r[i] == c
  {
    seq(n, _ => c)
  }

  // ---------------------------------------------------------------------------
  // Bytes and Latin-1 text
  // ---------------------------------------------------------------------------

  type Byte = x: int | 0 <= x < 256

  /** Every character is one byte wide: what `btoa` accepts and `atob` produces. */
  predicate IsLatin1(s: string) {
    forall i :: 0 <= i < |s| ==> s[i] as int < 256
  }

  function CodesOf(s: string): (r: seq<Byte>)
    requires IsLatin1(s)
    ensures |r| == |s| && forall i :: 0 <= i < |s| ==> r[i] == s[i] as int
  {
    seq(|s|, i requires 0 <= i < |s| => s[i] as int)
  }

  function CharsOfBytes(b: seq<Byte>): (r: string)
    ensures |r| == |b| && IsLatin1(r)
    ensures forall i :: 0 <= i < |b| ==> r[i] as int == b[i]
  {
    seq(|b|, i requires 0 <= i < |b| => b[i] as char)
  }

  lemma CharsOfCodes(s: string)
    requires IsLatin1(s)
    ensures CharsOfBytes(CodesOf(s)) == s
  {
    assert forall i :: 0 <= i < |s| ==> CharsOfBytes(CodesOf(s))[i] as int == s[i] as int;
  }

  // ---------------------------------------------------------------------------
  // Decimal rendering of integers (Python `str(n)`, JavaScript template `${n}`)
  // ---------------------------------------------------------------------------

  function DigitChar(d: nat): char
    requires d < 10
  {
    ('0' as int + d) as char
  }

  predicate IsDigit(c: char) {
    '0' <= c <= '9'
  }

  function DecimalValue(s: string): nat
    requires forall i :: 0 <= i < |s| ==> IsDigit(s[i])
  {
    if |s| == 0 then 0
    else
      assert IsDigit(s[|s| - 1]);
      DecimalValue(s[..|s| - 1]) * 10 + (s[|s| - 1] as int - '0' as int) as nat
  }

  /** The shortest decimal rendering of `n`: digits only, no leading zero. */
  function NatToString(n: nat): (r: string)
    ensures |r| > 0 && forall i :: 0 <= i < |r| ==> IsDigit(r[i])
    ensures |r| > 1 ==> r[0] != '0'
    ensures DecimalValue(r) == n
  {
    if n < 10 then [DigitChar(n)]
    else
      var r := NatToString(n / 10) + [DigitChar(n % 10)];
      assert r[..|r| - 1] == NatToString(n / 10);
      r
  }

  /** Rendering of a possibly negative integer. */
  function IntToString(n: int): (r: string)
    ensures |r| > 0
    ensures n >= 0 ==> r == NatToString(n)
    ensures n < 0 ==> r == "-" + NatToString(-n)
  {
    if n >= 0 then NatToString(n) else "-" + NatToString(-n)
  }
}
