/** The ignore rules of the MCP server template copier: reading `.gitignore` into a
    set of patterns, and deciding whether a path below the template root is covered
    by one of them (`parse_gitignore` and `should_ignore_path` in
    `use-cases/mcp-server/copy_template.py`). */
module IgnoreRules {
  import opened Wrappers
  import opened Text
  import opened ShellGlob

  // ---------------------------------------------------------------------------
  // Reading the ignore file
  // ---------------------------------------------------------------------------

  /** What opening `.gitignore` gives: no file, its whole text, or the lines that were
      read before a read or decoding error (the error itself is caught and reported). */
  datatype IgnoreSource = Missing | Readable(content: string) | Unreadable(linesRead: seq<string>)

  /** Python's universal-newline reading: `\r\n` and a lone `\r` both end a line. */
  function NormalizeNewlines(s: string): (r: string)
    ensures !HasChar(r, '\r')
    ensures !HasChar(s, '\r') ==> r == s
    decreases |s|
  {
    if |s| == 0 then ""
    else if s[0] == '\r' then
      "\n" + NormalizeNewlines(if |s| > 1 && s[1] == '\n' then s[2..] else s[1..])
    else
      var rest := NormalizeNewlines(s[1..]);
      assert forall i :: 0 <= i < |s| - 1 ==> s[1..][i] == s[i + 1];
      assert forall i :: 1 <= i < |rest| + 1 ==> ([s[0]] + rest)[i] == rest[i - 1];
      [s[0]] + rest
  }

  /** The lines of a text, without their terminators. A final terminator yields an
      extra empty line, which the parser skips like any blank line. */
  function LinesOf(content: string): (r: seq<string>)
    ensures |r| >= 1
    ensures forall k :: 0 <= k < |r| ==> !HasChar(r[k], '\n')
    ensures !HasChar(content, '\r') ==> Join(r, "\n") == content
  {
    Split(NormalizeNewlines(content), '\n')
  }

  /** A line is kept when, after trimming whitespace, it is neither empty nor a comment. */
  predicate KeptLine(line: string) {
    var t := PyStrip(line);
    |t| > 0 && !StartsWith(t, "#")
  }

  /** The pattern a kept line contributes: trimmed, then every leading `/` removed. */
  function PatternOf(line: string): (p: string)
    ensures |p| > 0 ==> p[0] != '/'
    ensures exists k :: 0 <= k <= |PyStrip(line)| && p == PyStrip(line)[k..]
                        && forall i :: 0 <= i < k ==> PyStrip(line)[i] == '/'
  {
    var t := PyStrip(line);
    var p := LStripChar(t, '/');
    assert p == t[|t| - |p|..];
    p
  }

  function ParseLines(lines: seq<string>): (r: set<string>)
    ensures |r| <= |lines|
    ensures forall p :: p in r ==> |p| == 0 || p[0] != '/'
    decreases |lines|
  {
    if |lines| == 0 then {}
    else
      var rest := ParseLines(lines[1..]);
      if KeptLine(lines[0]) then WithPattern(PatternOf(lines[0]), rest) else rest
  }

  /** One more pattern in the set, which grows by at most one. */
  function WithPattern(p: string, patterns: set<string>): (r: set<string>)
    ensures r == {p} + patterns && |r| <= |patterns| + 1
  {
    SetUnionSize({p}, patterns);
    {p} + patterns
  }

  lemma SetUnionSize<T>(a: set<T>, b: set<T>)
    ensures |a + b| <= |a| + |b|
  {
    assert |a + b| == |a| + |b| - |a * b|;
  }

  function ParseGitignore(src: IgnoreSource): (r: set<string>)
    ensures src.Missing? ==> r == {}
  {
    match src
    case Missing => {}
    case Readable(content) => ParseLines(LinesOf(content))
    case Unreadable(linesRead) => ParseLines(linesRead)
  }

  lemma ParseLinesUnfold(lines: seq<string>)
    requires |lines| > 0
    ensures ParseLines(lines) == ParseLines(lines[1..]) + (if KeptLine(lines[0]) then {PatternOf(lines[0])} else {})
  {
  }

  /** Every line that is neither blank nor a comment contributes its pattern. */
  lemma {:induction false} KeptLineIsParsed(lines: seq<string>, i: nat)
    requires i < |lines| && KeptLine(lines[i])
    ensures PatternOf(lines[i]) in ParseLines(lines)
    decreases i
  {
    ParseLinesUnfold(lines);
    if i > 0 {
      assert lines[1..][i - 1] == lines[i];
      KeptLineIsParsed(lines[1..], i - 1);
    }
  }

  /** Every pattern comes from a line that is neither blank nor a comment. */
  lemma {:induction false} ParsedPatternHasLine(lines: seq<string>, p: string) returns (i: nat)
    requires p in ParseLines(lines)
    ensures i < |lines| && KeptLine(lines[i]) && PatternOf(lines[i]) == p
    decreases |lines|
  {
    if KeptLine(lines[0]) && PatternOf(lines[0]) == p {
      i := 0;
    } else {
      var j := ParsedPatternHasLine(lines[1..], p);
      i := j + 1;
    }
  }

  /** Reading a file in two parts gives the union of the parts' patterns: the order of
      lines does not matter, and blank or comment lines add nothing. */
  lemma {:induction false} ParseLinesAppend(a: seq<string>, b: seq<string>)
    ensures ParseLines(a + b) == ParseLines(a) + ParseLines(b)
    decreases |a|
  {
    if |a| == 0 {
      assert a + b == b;
    } else {
      assert (a + b)[1..] == a[1..] + b;
      ParseLinesAppend(a[1..], b);
    }
  }

  /** Leading slashes are dropped however many there are: `/build`, `//build` and
      `build` all give the pattern `build`. */
  lemma LeadingSlashesDropped(name: string, n: nat)
    requires |name| > 0 && name[0] != '/' && name[0] != '#'
    requires !IsPySpace(name[0]) && !IsPySpace(name[|name| - 1])
    ensures KeptLine(Repeat('/', n) + name)
    ensures ParseLines([Repeat('/', n) + name]) == {name}
  {
    var line := Repeat('/', n) + name;
    SlashesStripped(name, n);
    SingleLine(line, name);
  }

  lemma SingleLine(line: string, name: string)
    requires |line| > 0 && line[0] != '#' && !IsPySpace(line[0]) && !IsPySpace(line[|line| - 1])
    requires LStripChar(line, '/') == name
    ensures KeptLine(line)
    ensures ParseLines([line]) == {name}
  {
    LineKept(line);
    assert PatternOf(line) == name;
    ParseOneLine(line);
  }

  lemma ParseOneLine(line: string)
    requires KeptLine(line)
    ensures ParseLines([line]) == {PatternOf(line)}
  {
    ParseLinesUnfold([line]);
    assert [line][1..] == [];
  }

  lemma LineKept(line: string)
    requires |line| > 0 && line[0] != '#' && !IsPySpace(line[0]) && !IsPySpace(line[|line| - 1])
    ensures PyStrip(line) == line
    ensures KeptLine(line)
  {
    TrimEdgesNonSpace(line);
    assert line[..1] == [line[0]];
  }

  lemma SlashesStripped(name: string, n: nat)
    requires |name| > 0 && name[0] != '/'
    ensures LStripChar(Repeat('/', n) + name, '/') == name
  {
    var line := Repeat('/', n) + name;
    var p := LStripChar(line, '/');
    assert forall i :: 0 <= i < n ==> line[i] == '/';
    assert line[n] == name[0];
    assert line[n..] == name;
  }

  lemma TrimEdgesNonSpace(s: string)
    requires |s| > 0 && !IsPySpace(s[0]) && !IsPySpace(s[|s| - 1])
    ensures PyStrip(s) == s
  {
    TrimStartOfNonSpace(s, IsPySpace);
    var t := TrimEnd(s, IsPySpace);
    assert !AllSatisfy(s[|s| - 1..], IsPySpace);
  }

  // ---------------------------------------------------------------------------
  // Matching a path against the patterns
  // ---------------------------------------------------------------------------

  /** `Path.relative_to`: the components after `root`, when `root` is a prefix of `path`. */
  function RelativeTo(path: seq<string>, root: seq<string>): (r: Option<seq<string>>)
    ensures r.Some? <==> (|root| <= |path| && path[..|root|] == root)
    ensures r.Some? ==> root + r.value == path
  {
    if |root| <= |path| && path[..|root|] == root then Some(path[|root|..]) else None
  }

  function ReplaceChar(s: string, from: char, to: char): (r: string)
    ensures |r| == |s|
    ensures forall i :: 0 <= i < |s| ==> r[i] == (if s[i] == from then to else s[i])
  {
    seq(|s|, i requires 0 <= i < |s| => if s[i] == from then to else s[i])
  }

  /** The relative path as the string the patterns are matched against: components
      joined by `/`, backslashes turned into `/`, and `.` for the root itself. */
  function RelString(rel: seq<string>): string {
    if |rel| == 0 then "." else ReplaceChar(Join(rel, "/"), '\\', '/')
  }

  /** One pattern against one relative path. A pattern ending in `/` names a directory
      (trailing slashes removed): it covers that path and everything below it. Any
      other pattern covers a path it matches as a shell glob, the path spelled the
      same way, and everything below that path. */
  predicate MatchesPattern(rel: string, pat: string) {
    if EndsWith(pat, "/") then
      var dir := RStripChar(pat, '/');
      StartsWith(rel, dir + "/") || rel == dir
    else
      FnMatch(rel, pat) || rel == pat || StartsWith(rel, pat + "/")
  }

  /** The verdict for a relative path: some pattern of the set covers it. */
  predicate Ignored(rel: string, patterns: set<string>) {
    exists pat :: pat in patterns && MatchesPattern(rel, pat)
  }

  /** `should_ignore_path`: paths outside the root are never ignored. */
  function ShouldIgnorePath(path: seq<string>, root: seq<string>, patterns: set<string>): (r: bool)
    ensures !(|root| <= |path| && path[..|root|] == root) ==> !r
    ensures (|root| <= |path| && path[..|root|] == root)
            ==> (r <==> Ignored(RelString(path[|root|..]), patterns))
  {
    match RelativeTo(path, root)
    case None => false
    case Some(rel) => Ignored(RelString(rel), patterns)
  }

  /** The loop of `should_ignore_path`, visiting the patterns in the order `order`
      enumerates them and stopping at the first that covers the path. */
  method FirstMatchingPattern(rel: string, order: seq<string>) returns (ignored: bool, at: nat)
    ensures ignored ==> at < |order| && MatchesPattern(rel, order[at])
                        && forall j :: 0 <= j < at ==> !MatchesPattern(rel, order[j])
    ensures ignored <==> exists j :: 0 <= j < |order| && MatchesPattern(rel, order[j])
  {
    at := 0;
    while at < |order|
      invariant at <= |order|
      invariant forall j :: 0 <= j < at ==> !MatchesPattern(rel, order[j])
    {
      if MatchesPattern(rel, order[at]) {
        return true, at;
      }
      at := at + 1;
    }
    return false, at;
  }

  /** Whatever order the set is enumerated in, the loop reaches the set's verdict. */
  method IgnoredInAnyOrder(rel: string, patterns: set<string>, order: seq<string>) returns (ignored: bool)
    requires forall p :: p in patterns <==> p in order
    ensures ignored <==> Ignored(rel, patterns)
  {
    var at;
    ignored, at := FirstMatchingPattern(rel, order);
    assert Ignored(rel, patterns) ==> exists j :: 0 <= j < |order| && MatchesPattern(rel, order[j]) by {
      if Ignored(rel, patterns) {
        var p :| p in patterns && MatchesPattern(rel, p);
        assert p in order;
      }
    }
  }

  // ---------------------------------------------------------------------------
  // Properties of the individual pattern forms
  // ---------------------------------------------------------------------------

  lemma RStripAfterName(dir: string, n: nat)
    requires |dir| == 0 || dir[|dir| - 1] != '/'
    ensures RStripChar(dir + Repeat('/', n), '/') == dir
  {
    var s := dir + Repeat('/', n);
    var r := RStripChar(s, '/');
    assert forall i :: |dir| <= i < |s| ==> s[i] == '/';
    assert |dir| > 0 ==> s[|dir| - 1] != '/';
  }

  /** A directory pattern `dir/` (any number of trailing slashes) covers exactly `dir`
      and the paths below it. */
  lemma DirectoryPattern(rel: string, dir: string, n: nat)
    requires n >= 1
    requires |dir| == 0 || dir[|dir| - 1] != '/'
    ensures MatchesPattern(rel, dir + Repeat('/', n)) <==> (rel == dir || StartsWith(rel, dir + "/"))
  {
    var pat := dir + Repeat('/', n);
    assert pat[|pat| - 1..] == "/";
    RStripAfterName(dir, n);
  }

  /** `build/` does not cover `build-artifacts/x`: only a `/` may follow the name. */
  lemma DirectoryPatternIsNotAPrefixTest()
    ensures !MatchesPattern("build-artifacts/x", "build/")
    ensures MatchesPattern("build/x", "build/")
  {
    assert "build/" == "build" + Repeat('/', 1);
    DirectoryPattern("build-artifacts/x", "build", 1);
    DirectoryPattern("build/x", "build", 1);
    assert "build-artifacts/x"[..6] != "build/";
    assert "build/x"[..6] == "build/";
  }

  /** A pattern without glob characters or a trailing `/` covers the path spelled the
      same way and everything below it, and nothing else. */
  lemma PlainPattern(rel: string, pat: string)
    requires forall i :: 0 <= i < |pat| ==> !IsMeta(pat[i])
    requires !EndsWith(pat, "/")
    ensures MatchesPattern(rel, pat) <==> (rel == pat || StartsWith(rel, pat + "/"))
  {
    PlainPatternMatchesOnlyItself(rel, pat);
  }

  /** A glob pattern is matched against the whole relative path, and `*` crosses `/`:
      `*.log` covers `logs/app.log`. */
  lemma GlobCrossesDirectories()
    ensures MatchesPattern("logs/app.log", "*.log")
  {
    assert "logs/app.log" == "logs/app" + ".log";
    assert forall i :: 0 <= i < |".log"| ==> !IsMeta(".log"[i]);
    StarSuffixMatchesAcrossSlashes("logs/app", ".log");
    assert !EndsWith("*.log", "/");
  }
}
