/** Python's `fnmatch.fnmatch` on a POSIX system (where `os.path.normcase` is the
    identity, so matching is case-sensitive), following the translation of a shell
    pattern into a regular expression done by `fnmatch.translate` in Python 3.9 and
    later, and the meaning Python's `re` gives to the result: the whole name must match,
    `*` matches any run of characters (including `/`), `?` any one character, and a
    bracket expression one character from (or, with a leading `!`, not from) a set. */
module ShellGlob {
  import opened Wrappers
  import opened Text

  // ---------------------------------------------------------------------------
  // Compiled form
  // ---------------------------------------------------------------------------

  datatype ClassItem = Single(c: char) | Range(lo: char, hi: char)

  /** A translated bracket expression: one that can never match (an empty set),
      one that matches every character (a negated empty set), or a set of items. */
  datatype CharClass = Never | AnyOne | Items(negated: bool, items: seq<ClassItem>)

  datatype Token = Star | AnyChar | Lit(c: char) | Class(cls: CharClass)

  /** One element of the class body `translate` builds: a character that stands for
      itself (written escaped or plain) or the bare `-` placed between two chunks. */
  datatype BodyTok = L(c: char) | Dash

  // ---------------------------------------------------------------------------
  // Bracket expressions
  // ---------------------------------------------------------------------------

  /** First index `>= k` holding `c`, like `str.find(c, k)`. */
  function FindFrom(s: string, c: char, k: nat): (r: Option<nat>)
    ensures r.Some? ==> (k <= r.value < |s| && s[r.value] == c
                         && forall i :: k <= i < r.value ==> s[i] != c)
    ensures r.None? ==> forall i :: k <= i < |s| ==> s[i] != c
    decreases |s| - k
  {
    if k >= |s| then None
    else if s[k] == c then Some(k)
    else FindFrom(s, c, k + 1)
  }

  /** Where a bracket expression that opened just before `rest` closes: a `!` and
      then a `]` right after the opening are part of the set, and the next `]` closes it. */
  function BracketEnd(rest: string): (r: Option<nat>)
    ensures r.Some? ==> 1 <= r.value < |rest| && rest[r.value] == ']'
    ensures r.Some? && rest[0] == '!' ==> r.value >= 2
  {
    var j0 := if |rest| > 0 && rest[0] == '!' then 1 else 0;
    var j1 := if j0 < |rest| && rest[j0] == ']' then j0 + 1 else j0;
    FindFrom(rest, ']', j1)
  }

  /** The chunks `translate` cuts a bracket's contents into at hyphens. The search
      for the next hyphen starts two characters past the previous one, so every chunk
      after the first is at least two characters long, except possibly the last. */
  function RawChunks(content: string, start: nat, k: nat): (r: seq<string>)
    requires start < k && start <= |content|
    ensures |r| >= 1
    ensures |r| > 1 ==> |r[0]| >= k - start
    ensures forall i :: 1 <= i < |r| - 1 ==> |r[i]| >= 2
    ensures r[|r| - 1] == "" ==> |r| >= 2 || start == |content|
    decreases |content| - start
  {
    match FindFrom(content, '-', k)
    case None => [content[start..]]
    case Some(h) => [content[start..h]] + RawChunks(content, h + 1, h + 3)
  }

  /** An empty last chunk means the contents ended in a hyphen: it is glued back
      onto the chunk before it. */
  function Chunks(content: string): (r: seq<string>)
    requires |content| >= 1 && (content[0] == '!' ==> |content| >= 2)
    ensures |r| >= 1
    ensures forall i :: 0 <= i < |r| ==> |r[i]| >= (if i == 0 || i == |r| - 1 then 1 else 2)
    ensures content[0] == '!' && |r| > 1 ==> |r[0]| >= 2
  {
    var k := if content[0] == '!' then 2 else 1;
    var raw := RawChunks(content, 0, k);
    if raw[|raw| - 1] == "" then
      raw[..|raw| - 2] + [raw[|raw| - 2] + "-"]
    else raw
  }

  /** Removes reversed ranges, last boundary first: when the chunk before a boundary
      ends with a character above the one the next chunk starts with, both endpoints
      are dropped and the two chunks are joined. */
  function MergeDown(chunks: seq<string>, k: nat): (r: seq<string>)
    requires k < |chunks|
    requires k > 0 ==> forall i :: 0 <= i <= k ==> |chunks[i]| >= (if i == 0 || i == k then 1 else 2)
    ensures |r| >= 1
    decreases k
  {
    if k == 0 then chunks
    else
      var a := chunks[k - 1];
      var b := chunks[k];
      if a[|a| - 1] > b[0] then
        MergeDown(chunks[..k - 1] + [a[..|a| - 1] + b[1..]] + chunks[k + 1..], k - 1)
      else
        MergeDown(chunks, k - 1)
  }

  /** The class body: the chunks' characters, joined by bare hyphens. */
  function BodyOf(chunks: seq<string>): seq<BodyTok>
    decreases |chunks|
  {
    if |chunks| == 0 then []
    else
      var here := seq(|chunks[0]|, i requires 0 <= i < |chunks[0]| => L(chunks[0][i]));
      if |chunks| == 1 then here else here + [Dash] + BodyOf(chunks[1..])
  }

  function TokChar(t: BodyTok): char {
    match t
    case L(c) => c
    case Dash => '-'
  }

  /** How Python's `re` reads the inside of a character set: `x-y` is a range, and a
      hyphen with nothing after it is a plain character. */
  function ParseItems(body: seq<BodyTok>): seq<ClassItem>
    decreases |body|
  {
    if |body| == 0 then []
    else if |body| >= 2 && body[1] == Dash then
      if |body| == 2 then [Single(TokChar(body[0])), Single('-')]
      else [Range(TokChar(body[0]), TokChar(body[2]))] + ParseItems(body[3..])
    else [Single(TokChar(body[0]))] + ParseItems(body[1..])
  }

  function CompileClass(content: string): CharClass
    requires |content| >= 1 && (content[0] == '!' ==> |content| >= 2)
  {
    var chunks := Chunks(content);
    var body := BodyOf(MergeDown(chunks, |chunks| - 1));
    if body == [] then Never
    else if body == [L('!')] then AnyOne
    else if body[0] == L('!') then Items(true, ParseItems(body[1..]))
    else Items(false, ParseItems(body))
  }

  predicate ItemHas(item: ClassItem, c: char) {
    match item
    case Single(x) => x == c
    case Range(lo, hi) => lo <= c <= hi
  }

  predicate ClassHas(cls: CharClass, c: char) {
    match cls
    case Never => false
    case AnyOne => true
    case Items(negated, items) => (exists i :: 0 <= i < |items| && ItemHas(items[i], c)) != negated
  }

  // ---------------------------------------------------------------------------
  // Translation and matching
  // ---------------------------------------------------------------------------

  /** `fnmatch.translate`, as a token list rather than regular-expression text. */
  function Translate(pat: string): seq<Token>
    decreases |pat|
  {
    if |pat| == 0 then []
    else if pat[0] == '*' then [Star] + Translate(pat[1..])
    else if pat[0] == '?' then [AnyChar] + Translate(pat[1..])
    else if pat[0] == '[' then
      var rest := pat[1..];
      match BracketEnd(rest)
      case None => [Lit('[')] + Translate(rest)
      case Some(j) => [Class(CompileClass(rest[..j]))] + Translate(rest[j + 1..])
    else [Lit(pat[0])] + Translate(pat[1..])
  }

  /** Full match of `s` against a token list (`re.match` of `(?s:...)\Z`). */
  predicate MatchTokens(s: string, toks: seq<Token>)
    decreases |toks|, |s|
  {
    if |toks| == 0 then |s| == 0
    else match toks[0]
      case Star => MatchTokens(s, toks[1..]) || (|s| > 0 && MatchTokens(s[1..], toks))
      case AnyChar => |s| > 0 && MatchTokens(s[1..], toks[1..])
      case Lit(c) => |s| > 0 && s[0] == c && MatchTokens(s[1..], toks[1..])
      case Class(cls) => |s| > 0 && ClassHas(cls, s[0]) && MatchTokens(s[1..], toks[1..])
  }

  predicate FnMatch(name: string, pat: string) {
    MatchTokens(name, Translate(pat))
  }

  // ---------------------------------------------------------------------------
  // Properties
  // ---------------------------------------------------------------------------

  predicate IsMeta(c: char) {
    c == '*' || c == '?' || c == '['
  }

  /** A pattern with no `*`, `?` or `[` matches exactly the name spelled the same way,
      letter case included. */
  lemma {:induction false} PlainPatternMatchesOnlyItself(name: string, pat: string)
    requires forall i :: 0 <= i < |pat| ==> !IsMeta(pat[i])
    ensures FnMatch(name, pat) <==> name == pat
    decreases |pat|
  {
    if |pat| > 0 {
      assert Translate(pat) == [Lit(pat[0])] + Translate(pat[1..]);
      if |name| > 0 {
        PlainPatternMatchesOnlyItself(name[1..], pat[1..]);
        assert name == pat <==> (name[0] == pat[0] && name[1..] == pat[1..]) by {
          if name[0] == pat[0] && name[1..] == pat[1..] {
            assert name == [name[0]] + name[1..];
            assert pat == [pat[0]] + pat[1..];
          }
        }
      }
    }
  }

  lemma {:induction false} StarMatchesTail(s: string)
    ensures MatchTokens(s, [Star])
    decreases |s|
  {
    assert [Star][1..] == [];
    if |s| > 0 {
      StarMatchesTail(s[1..]);
    }
  }

  /** `*` matches every name, slashes included. */
  lemma StarMatchesEverything(name: string)
    ensures FnMatch(name, "*")
  {
    assert Translate("*") == [Star];
    StarMatchesTail(name);
  }

  lemma {:induction false} StarThenSuffix(prefix: string, suffix: string, toks: seq<Token>)
    requires MatchTokens(suffix, toks)
    ensures MatchTokens(prefix + suffix, [Star] + toks)
    decreases |prefix|
  {
    assert ([Star] + toks)[1..] == toks;
    if |prefix| > 0 {
      assert (prefix + suffix)[1..] == prefix[1..] + suffix;
      StarThenSuffix(prefix[1..], suffix, toks);
    } else {
      assert prefix + suffix == suffix;
    }
  }

  lemma {:induction false} PlainSelfMatch(s: string)
    requires forall i :: 0 <= i < |s| ==> !IsMeta(s[i])
    ensures MatchTokens(s, Translate(s))
  {
    PlainPatternMatchesOnlyItself(s, s);
  }

  /** A leading `*` followed by plain text matches any name ending in that text,
      wherever the last `/` falls: `*.log` matches `src/app.log`. */
  lemma StarSuffixMatchesAcrossSlashes(prefix: string, suffix: string)
    requires forall i :: 0 <= i < |suffix| ==> !IsMeta(suffix[i])
    ensures FnMatch(prefix + suffix, "*" + suffix)
  {
    assert ("*" + suffix)[1..] == suffix;
    assert Translate("*" + suffix) == [Star] + Translate(suffix);
    PlainSelfMatch(suffix);
    StarThenSuffix(prefix, suffix, Translate(suffix));
  }

  /** Hyphen-free set contents are read one character per item. */
  lemma {:induction false} ParseItemsOfLiterals(body: seq<BodyTok>)
    requires forall i :: 0 <= i < |body| ==> body[i].L?
    ensures |ParseItems(body)| == |body|
    ensures forall i :: 0 <= i < |body| ==> ParseItems(body)[i] == Single(body[i].c)
    decreases |body|
  {
    if |body| > 0 {
      assert !(|body| >= 2 && body[1] == Dash) by {
        if |body| >= 2 { assert body[1].L?; }
      }
      ParseItemsOfLiterals(body[1..]);
    }
  }

  /** A bracket expression with no `!` in front and no `-` inside matches exactly the
      characters written between the brackets. */
  lemma SimpleClassMembership(content: string, c: char)
    requires |content| >= 1 && content[0] != '!'
    requires forall i :: 0 <= i < |content| ==> content[i] != '-'
    ensures CompileClass(content).Items? && !CompileClass(content).negated
    ensures ClassHas(CompileClass(content), c) <==> c in content
  {
    assert FindFrom(content, '-', 1) == None;
    assert content[0..] == content;
    assert Chunks(content) == [content];
    assert MergeDown([content], 0) == [content];
    var body := BodyOf([content]);
    assert |body| == |content|;
    assert forall i :: 0 <= i < |body| ==> body[i] == L(content[i]);
    assert body[0] != L('!');
    assert body != [L('!')];
    ParseItemsOfLiterals(body);
    var cls := CompileClass(content);
    assert cls == Items(false, ParseItems(body));
    if c in content {
      var k :| 0 <= k < |content| && content[k] == c;
      assert ItemHas(cls.items[k], c);
    }
  }

  lemma {:induction false} StarThenPlainOnlySuffix(s: string, suffix: string)
    requires forall i :: 0 <= i < |suffix| ==> !IsMeta(suffix[i])
    requires MatchTokens(s, [Star] + Translate(suffix))
    ensures EndsWith(s, suffix)
    decreases |s|
  {
    assert ([Star] + Translate(suffix))[1..] == Translate(suffix);
    if MatchTokens(s, Translate(suffix)) {
      PlainPatternMatchesOnlyItself(s, suffix);
    } else {
      StarThenPlainOnlySuffix(s[1..], suffix);
      assert s[1..][|s| - 1 - |suffix|..] == s[|s| - |suffix|..];
    }
  }

  /** `*` followed by plain text matches exactly the names ending in that text. */
  lemma StarSuffixPattern(name: string, suffix: string)
    requires forall i :: 0 <= i < |suffix| ==> !IsMeta(suffix[i])
    ensures FnMatch(name, "*" + suffix) <==> EndsWith(name, suffix)
  {
    assert ("*" + suffix)[1..] == suffix;
    assert Translate("*" + suffix) == [Star] + Translate(suffix);
    if EndsWith(name, suffix) {
      assert name == name[..|name| - |suffix|] + suffix;
      StarSuffixMatchesAcrossSlashes(name[..|name| - |suffix|], suffix);
    }
    if FnMatch(name, "*" + suffix) {
      StarThenPlainOnlySuffix(name, suffix);
    }
  }

  // A consequence of cutting at hyphens and then dropping reversed ranges: in
  // `[b-a!c]` the empty range `b-a` is removed together with both endpoints, which
  // leaves `!c` at the front of the set, and the result is read as "any character
  // except `c`" rather than "`!` or `c`".

  lemma ReversedRangeChunks()
    ensures Chunks("b-a!c") == ["b", "a!c"]
  {
    var content := "b-a!c";
    assert FindFrom(content, '-', 1) == Some(1);
    assert FindFrom(content, '-', 4) == None;
    assert content[2..] == "a!c";
    assert RawChunks(content, 2, 4) == ["a!c"];
    assert content[0..1] == "b";
    assert RawChunks(content, 0, 1) == ["b", "a!c"];
  }
  lemma ReversedRangeMerged()
    ensures MergeDown(["b", "a!c"], 1) == ["!c"]
  {
    var ch := ["b", "a!c"];
    assert ch[0][|ch[0]| - 1] == 'b' && ch[1][0] == 'a';
    assert ch[0][..0] + ch[1][1..] == "!c";
    assert ch[..0] + ["!c"] + ch[2..] == ["!c"];
  }
  lemma ReversedRangeBody()
    ensures BodyOf(["!c"]) == [L('!'), L('c')]
  {
  }
  lemma ReversedRangeClass()
    ensures CompileClass("b-a!c") == Items(true, [Single('c')])
  {
    ReversedRangeChunks();
    ReversedRangeMerged();
    ReversedRangeBody();
    assert [L('!'), L('c')][1..] == [L('c')];
    assert ParseItems([L('c')]) == [Single('c')];
  }
  lemma ReversedRangeEnd()
    ensures BracketEnd("b-a!c]") == Some(5)
  {
    var rest := "b-a!c]";
    assert rest[0] == 'b' && rest[1] == '-' && rest[2] == 'a' && rest[3] == '!' && rest[4] == 'c' && rest[5] == ']';
  }
  lemma TranslateClosedBracket(pat: string, j: nat)
    requires |pat| >= 1 && pat[0] == '[' && BracketEnd(pat[1..]) == Some(j)
    ensures Translate(pat) == [Class(CompileClass(pat[1..][..j]))] + Translate(pat[1..][j + 1..])
  {
  }
  lemma ReversedRangeTranslate()
    ensures Translate("[b-a!c]") == [Class(CompileClass("b-a!c"))]
  {
    var pat := "[b-a!c]";
    assert pat[0] == '[' && pat[1..] == "b-a!c]";
    ReversedRangeEnd();
    TranslateClosedBracket(pat, 5);
    assert pat[1..][..5] == "b-a!c";
    assert pat[1..][6..] == [];
    assert Translate([]) == [];
  }
  lemma ReversedRangeMatch(cls: CharClass)
    requires cls == Items(true, [Single('c')])
    ensures MatchTokens("x", [Class(cls)]) && !MatchTokens("c", [Class(cls)])
  {
    assert ClassHas(cls, 'x');
    assert ItemHas(cls.items[0], 'c');
    assert !ClassHas(cls, 'c');
    assert "x"[1..] == [] && [Class(cls)][1..] == [];
  }
  lemma ReversedRangeBeforeBangNegates()
    ensures FnMatch("x", "[b-a!c]")
    ensures !FnMatch("c", "[b-a!c]")
  {
    ReversedRangeClass();
    ReversedRangeTranslate();
    var cls := Items(true, [Single('c')]);
    ReversedRangeMatch(cls);
  }
}
