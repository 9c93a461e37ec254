/** The SQL checks of the MCP database server (`use-cases/mcp-server/src/database/security.ts`):
    `validateSqlQuery` (a blank check and thirteen dangerous regular expressions),
    `isWriteOperation` (a keyword-prefix test) and `formatDatabaseError`.

    The regular expressions are written out by hand as predicates on the lower-cased
    query. Their `i` flag folds case for ASCII letters only (JavaScript never folds a
    non-ASCII character onto an ASCII one in a non-Unicode expression), so matching the
    ASCII-lower-cased text against lower-case patterns is exact. `\s` is the JavaScript
    whitespace set and `.` any character but a line terminator. */
module SqlGuard {
  import opened Text

  // ---------------------------------------------------------------------------
  // Pieces of the patterns
  // ---------------------------------------------------------------------------

  /** The end of the run of whitespace starting at `i` (greedy `\s*`; exact here since
      every pattern continues with a non-space character). */
  function SkipSpaces(s: string, i: nat): (r: nat)
    requires i <= |s|
    ensures i <= r <= |s|
    ensures forall k :: i <= k < r ==> IsJsSpace(s[k])
    ensures r < |s| ==> !IsJsSpace(s[r])
    decreases |s| - i
  {
    if i < |s| && IsJsSpace(s[i]) then SkipSpaces(s, i + 1) else i
  }

  /** `w` occurs in `s` at position `i`. */
  predicate WordAt(s: string, i: nat, w: string) {
    i + |w| <= |s| && forall k | 0 <= k < |w| :: s[i + k] == w[k]
  }

  predicate SpaceAt(s: string, i: nat) {
    i < |s| && IsJsSpace(s[i])
  }

  /** `;\s*kw\s+` somewhere in `s`. */
  predicate AfterSemicolon(s: string, kw: string) {
    exists i | 0 <= i < |s| :: s[i] == ';' && var j := SkipSpaces(s, i + 1); WordAt(s, j, kw) && SpaceAt(s, j + |kw|)
  }

  /** `^kw\s+`: at the very start of the untrimmed text. */
  predicate AtStart(s: string, kw: string) {
    WordAt(s, 0, kw) && SpaceAt(s, |kw|)
  }

  predicate SpacesIn(s: string, a: nat, b: nat)
    requires a <= b <= |s|
  {
    forall k | a <= k < b :: IsJsSpace(s[k])
  }

  /** `s[a..b]` is matched by `.*`. */
  predicate OneLineIn(s: string, a: nat, b: nat)
    requires a <= b <= |s|
  {
    forall k | a <= k < b :: !IsJsLineTerminator(s[k])
  }

  /** `s[a..b]` matches `\s+.*\s+`: whitespace, then any characters but line
      terminators, then whitespace. */
  predicate Gap(s: string, a: nat, b: nat)
    requires a <= b <= |s|
  {
    exists x | a < x < b :: SpacesIn(s, a, x) && exists y | x <= y < b :: OneLineIn(s, x, y) && SpacesIn(s, y, b)
  }

  /** `where\s+1\s*=\s*1` at position `p`. */
  predicate WhereOneEqualsOne(s: string, p: nat) {
    WordAt(s, p, "where") && SpaceAt(s, p + 5)
    && var a := SkipSpaces(s, p + 5);
       a < |s| && s[a] == '1'
       && var b := SkipSpaces(s, a + 1);
          b < |s| && s[b] == '='
          && var c := SkipSpaces(s, b + 1);
             c < |s| && s[c] == '1'
  }

  /** `;\s*delete\s+.*\s+where\s+1\s*=\s*1`. */
  predicate DeleteEverything(s: string) {
    exists i | 0 <= i < |s| ::
      s[i] == ';'
      && var j := SkipSpaces(s, i + 1);
         WordAt(s, j, "delete")
         && exists p | j + 6 <= p <= |s| :: Gap(s, j + 6, p) && WhereOneEqualsOne(s, p)
  }

  /** `;\s*update\s+.*\s+set\s+.*\s+where\s+1\s*=\s*1`. */
  predicate UpdateEverything(s: string) {
    exists i | 0 <= i < |s| ::
      s[i] == ';'
      && var j := SkipSpaces(s, i + 1);
         WordAt(s, j, "update")
         && exists p, q | j + 6 <= p && p + 3 <= q <= |s| ::
              Gap(s, j + 6, p) && WordAt(s, p, "set") && Gap(s, p + 3, q) && WhereOneEqualsOne(s, q)
  }

  /** The thirteen dangerous patterns, in the order the source lists them, applied to
      the lower-cased query. */
  predicate DangerousPattern(k: nat, s: string)
    requires k < 13
  {
    match k
    case 0 => AfterSemicolon(s, "drop")
    case 1 => AtStart(s, "drop")
    case 2 => DeleteEverything(s)
    case 3 => UpdateEverything(s)
    case 4 => AfterSemicolon(s, "truncate")
    case 5 => AtStart(s, "truncate")
    case 6 => AfterSemicolon(s, "alter")
    case 7 => AtStart(s, "alter")
    case 8 => AfterSemicolon(s, "create")
    case 9 => AfterSemicolon(s, "grant")
    case 10 => AfterSemicolon(s, "revoke")
    case 11 => Contains(s, "xp_cmdshell")
    case _ => Contains(s, "sp_executesql")
  }

  predicate AnyDangerous(sql: string) {
    exists k | 0 <= k < 13 :: DangerousPattern(k, AsciiLower(sql))
  }

  // ---------------------------------------------------------------------------
  // validateSqlQuery
  // ---------------------------------------------------------------------------

  const EmptyQueryError: string := "SQL 查询不能为空"
  const DangerousQueryError: string := "查询包含潜在危险的 SQL 模式"

  datatype SqlValidation = Valid | Invalid(error: string)

  predicate Blank(sql: string) {
    JsTrim(sql) == ""
  }

  /** The blank check runs on the trimmed text; the patterns run on the text as given. */
  function ValidateSqlQuery(sql: string): (r: SqlValidation)
    ensures r.Invalid? ==> r.error == EmptyQueryError || r.error == DangerousQueryError
    ensures r.Valid? <==> !Blank(sql) && !AnyDangerous(sql)
    ensures r == Invalid(EmptyQueryError) <==> Blank(sql)
  {
    if Blank(sql) then Invalid(EmptyQueryError)
    else if AnyDangerous(sql) then Invalid(DangerousQueryError)
    else Valid
  }

  /** Text made only of whitespace is rejected as empty. */
  lemma WhitespaceOnlyIsEmpty(sql: string)
    requires AllSatisfy(sql, IsJsSpace)
    ensures ValidateSqlQuery(sql) == Invalid(EmptyQueryError)
  {
    AllSpaceTrimsToEmpty(sql, IsJsSpace);
  }

  lemma BlankIffAllSpace(s: string)
    ensures Blank(s) <==> AllSatisfy(s, IsJsSpace)
  {
    var t := TrimStart(s, IsJsSpace);
    if AllSatisfy(s, IsJsSpace) {
      AllSpaceTrimsToEmpty(s, IsJsSpace);
    }
    assert |t| == 0 ==> s[..|s| - |t|] == s;
    assert |t| > 0 ==> !IsJsSpace(t[0]);
    assert |TrimEnd(t, IsJsSpace)| == 0 ==> t[0..] == t;
  }

  /** Letter case never changes the verdict. */
  lemma ValidationIgnoresCase(a: string, b: string)
    requires AsciiLower(a) == AsciiLower(b)
    ensures ValidateSqlQuery(a) == ValidateSqlQuery(b)
  {
    BlankUnderCase(a, b);
    assert AnyDangerous(a) <==> AnyDangerous(b);
  }

  lemma BlankUnderCase(a: string, b: string)
    requires AsciiLower(a) == AsciiLower(b)
    ensures Blank(a) <==> Blank(b)
  {
    SameSpacesUnderCase(a, b);
    var o, n := TrimAligned(a, b, IsJsSpace);
  }

  /** Texts that agree up to letter case have their whitespace at the same places. */
  lemma SameSpacesUnderCase(a: string, b: string)
    requires AsciiLower(a) == AsciiLower(b)
    ensures |a| == |b| && forall i :: 0 <= i < |a| ==> (IsJsSpace(a[i]) <==> IsJsSpace(b[i]))
  {
    assert |a| == |AsciiLower(a)|;
    forall i | 0 <= i < |a| ensures IsJsSpace(a[i]) <==> IsJsSpace(b[i]) {
      assert AsciiLower(a)[i] == AsciiLower(b)[i];
    }
  }

  lemma SkipOverSpace(s: string, i: nat)
    requires i < |s| && IsJsSpace(s[i])
    ensures SkipSpaces(s, i) == SkipSpaces(s, i + 1)
  {
  }

  /** A second statement starting with `DROP` (any case, any spacing after the `;`) is
      always rejected, whatever surrounds it. */
  lemma ChainedDropRejected(before: string, after: string)
    ensures ValidateSqlQuery(before + "; DROP " + after) == Invalid(DangerousQueryError)
  {
    var sql := before + "; DROP " + after;
    var i := |before|;
    assert sql[i] == ';' && sql[i + 1] == ' ' && sql[i + 2] == 'D' && sql[i + 3] == 'R'
           && sql[i + 4] == 'O' && sql[i + 5] == 'P' && sql[i + 6] == ' ';
    LoweredDropAt(sql, i);
    RejectedBy(sql, 0, i);
  }

  /** `; DROP ` at position `i`, lower-cased, is a match of the first pattern. */
  lemma LoweredDropAt(sql: string, i: nat)
    requires i + 7 <= |sql|
    requires sql[i] == ';' && sql[i + 1] == ' ' && sql[i + 2] == 'D' && sql[i + 3] == 'R'
             && sql[i + 4] == 'O' && sql[i + 5] == 'P' && sql[i + 6] == ' '
    ensures AfterSemicolon(AsciiLower(sql), "drop")
  {
    var s := AsciiLower(sql);
    var j := i + 2;
    assert s[i] == ';' && s[i + 1] == ' ';
    assert s[j] == 'd' && s[j + 1] == 'r' && s[j + 2] == 'o' && s[j + 3] == 'p' && s[j + 4] == ' ';
    SkipOverSpace(s, i + 1);
    assert SkipSpaces(s, j) == j;
    assert WordAt(s, j, "drop");
    assert SpaceAt(s, j + 4);
  }

  /** A chained `DELETE` (in any letter case) whose condition is `WHERE 1=1` is
      rejected, whatever stands between the two keywords on that line. */
  lemma ChainedDeleteAllRejected(sql: string, before: string, middle: string, after: string)
    requires AsciiLower(sql) == before + "; delete " + middle + " where 1=1" + after
    requires forall k :: 0 <= k < |middle| ==> !IsJsLineTerminator(middle[k])
    ensures ValidateSqlQuery(sql) == Invalid(DangerousQueryError)
  {
    DeleteAllAt(AsciiLower(sql), before, middle, after);
    RejectedBy(sql, 2, |before|);
  }

  lemma DeleteAllAt(s: string, before: string, middle: string, after: string)
    requires s == before + "; delete " + middle + " where 1=1" + after
    requires forall k :: 0 <= k < |middle| ==> !IsJsLineTerminator(middle[k])
    ensures DeleteEverything(s)
  {
    var i, m := |before|, |middle|;
    assert s[i] == ';' && s[i + 1] == ' ' && s[i + 2] == 'd' && s[i + 3] == 'e' && s[i + 4] == 'l'
           && s[i + 5] == 'e' && s[i + 6] == 't' && s[i + 7] == 'e' && s[i + 8] == ' ';
    var p := i + 10 + m;
    assert s[p - 1] == ' ' && s[p] == 'w' && s[p + 1] == 'h' && s[p + 2] == 'e' && s[p + 3] == 'r'
           && s[p + 4] == 'e' && s[p + 5] == ' ' && s[p + 6] == '1' && s[p + 7] == '=' && s[p + 8] == '1';
    forall k | i + 9 <= k < i + 9 + m ensures !IsJsLineTerminator(s[k]) {
      assert s[k] == middle[k - i - 9];
    }
    DeleteAllChars(s, i, m);
  }

  /** The characters of `; delete <middle> where 1=1` at position `i`. */
  lemma DeleteAllChars(s: string, i: nat, m: nat)
    requires i + 19 + m <= |s|
    requires s[i] == ';' && s[i + 1] == ' ' && s[i + 2] == 'd' && s[i + 3] == 'e' && s[i + 4] == 'l'
             && s[i + 5] == 'e' && s[i + 6] == 't' && s[i + 7] == 'e' && s[i + 8] == ' '
    requires forall k :: i + 9 <= k < i + 9 + m ==> !IsJsLineTerminator(s[k])
    requires var p := i + 10 + m;
             s[p - 1] == ' ' && s[p] == 'w' && s[p + 1] == 'h' && s[p + 2] == 'e' && s[p + 3] == 'r'
             && s[p + 4] == 'e' && s[p + 5] == ' ' && s[p + 6] == '1' && s[p + 7] == '=' && s[p + 8] == '1'
    ensures DeleteEverything(s)
  {
    var j := i + 2;
    var p := i + 10 + m;
    SkipOverSpace(s, i + 1);
    assert SkipSpaces(s, j) == j;
    assert WordAt(s, j, "delete");
    WhereOneEqualsOneAt(s, p);
    assert OneLineIn(s, j + 7, p - 1);
    GapAt(s, j + 6, p);
    DeleteEverythingAt(s, i, p);
  }

  lemma DeleteEverythingAt(s: string, i: nat, p: nat)
    requires i < |s| && s[i] == ';' && SkipSpaces(s, i + 1) == i + 2 && WordAt(s, i + 2, "delete")
    requires i + 8 <= p <= |s| && Gap(s, i + 8, p) && WhereOneEqualsOne(s, p)
    ensures DeleteEverything(s)
  {
  }

  lemma WhereOneEqualsOneAt(s: string, p: nat)
    requires p + 9 <= |s|
    requires s[p] == 'w' && s[p + 1] == 'h' && s[p + 2] == 'e' && s[p + 3] == 'r' && s[p + 4] == 'e'
    requires s[p + 5] == ' ' && s[p + 6] == '1' && s[p + 7] == '=' && s[p + 8] == '1'
    ensures WhereOneEqualsOne(s, p)
  {
    assert WordAt(s, p, "where");
    SkipOverSpace(s, p + 5);
    assert SkipSpaces(s, p + 5) == p + 6;
    assert SkipSpaces(s, p + 7) == p + 7;
    assert SkipSpaces(s, p + 8) == p + 8;
  }

  lemma GapAt(s: string, a: nat, b: nat)
    requires a + 2 <= b <= |s| && IsJsSpace(s[a]) && IsJsSpace(s[b - 1]) && OneLineIn(s, a + 1, b - 1)
    ensures Gap(s, a, b)
  {
    assert SpacesIn(s, a, a + 1) && SpacesIn(s, b - 1, b);
  }

  /** A text that is not blank and matches a dangerous pattern is rejected as
      dangerous. */
  lemma RejectedBy(sql: string, k: nat, at: nat)
    requires k < 13 && DangerousPattern(k, AsciiLower(sql))
    requires at < |sql| && !IsJsSpace(AsciiLower(sql)[at])
    ensures ValidateSqlQuery(sql) == Invalid(DangerousQueryError)
  {
    assert !IsJsSpace(sql[at]);
    NotBlankAt(sql, at);
    assert AnyDangerous(sql);
  }

  lemma NotBlankAt(sql: string, at: nat)
    requires at < |sql| && !IsJsSpace(sql[at])
    ensures !Blank(sql)
  {
    BlankIffAllSpace(sql);
  }

  lemma AtStartFirstChar(s: string, kw: string)
    requires |kw| > 0 && AtStart(s, kw)
    ensures s[0] == kw[0]
  {
    assert s[0..|kw|][0] == s[0];
  }

  /** Without a `;`, a procedure name or a leading `DROP`/`TRUNCATE`/`ALTER` followed by
      whitespace, no pattern matches. */
  lemma {:induction false} NothingDangerous(s: string)
    requires !HasChar(s, ';')
    requires !Contains(s, "xp_cmdshell") && !Contains(s, "sp_executesql")
    requires !AtStart(s, "drop") && !AtStart(s, "truncate") && !AtStart(s, "alter")
    ensures forall k | 0 <= k < 13 :: !DangerousPattern(k, s)
  {
    forall kw ensures !AfterSemicolon(s, kw) {
      forall i | 0 <= i < |s| ensures s[i] != ';' {
      }
    }
    forall k | 0 <= k < 13 ensures !DangerousPattern(k, s) {
      if k == 2 {
        forall i | 0 <= i < |s| ensures s[i] != ';' {
        }
      } else if k == 3 {
        forall i | 0 <= i < |s| ensures s[i] != ';' {
        }
      }
    }
  }

  /** The start-anchored `DROP`/`TRUNCATE`/`ALTER` patterns look at the untrimmed text:
      a single statement indented by whitespace, with no `;` and neither procedure
      name, is accepted, even when it is a `DROP`. */
  lemma IndentedStatementPassesAnchors(indent: string, stmt: string)
    requires |indent| > 0 && AllSatisfy(indent, IsJsSpace)
    requires !HasChar(stmt, ';') && !AllSatisfy(stmt, IsJsSpace)
    requires !Contains(AsciiLower(indent + stmt), "xp_cmdshell")
    requires !Contains(AsciiLower(indent + stmt), "sp_executesql")
    ensures ValidateSqlQuery(indent + stmt) == Valid
  {
    var sql := indent + stmt;
    var s := AsciiLower(sql);
    assert IsJsSpace(sql[0]);
    assert IsJsSpace(s[0]);
    assert !AtStart(s, "drop") && !AtStart(s, "truncate") && !AtStart(s, "alter") by {
      if AtStart(s, "drop") { AtStartFirstChar(s, "drop"); }
      if AtStart(s, "truncate") { AtStartFirstChar(s, "truncate"); }
      if AtStart(s, "alter") { AtStartFirstChar(s, "alter"); }
    }
    assert !HasChar(s, ';') by {
      forall k | 0 <= k < |s| ensures s[k] != ';' {
        if k >= |indent| {
          assert sql[k] == stmt[k - |indent|];
        } else {
          assert sql[k] == indent[k];
        }
      }
    }
    NothingDangerous(s);
    assert !Blank(sql) by {
      BlankIffAllSpace(sql);
      var k :| 0 <= k < |stmt| && !IsJsSpace(stmt[k]);
      assert sql[|indent| + k] == stmt[k];
    }
  }

  /** An ordinary single statement is accepted: no `;`, neither procedure name, and no
      `DROP`/`TRUNCATE`/`ALTER` followed by whitespace at the very start. */
  lemma SingleStatementAccepted(sql: string)
    requires !Blank(sql) && !HasChar(sql, ';')
    requires !Contains(AsciiLower(sql), "xp_cmdshell") && !Contains(AsciiLower(sql), "sp_executesql")
    requires !AtStart(AsciiLower(sql), "drop") && !AtStart(AsciiLower(sql), "truncate")
    requires !AtStart(AsciiLower(sql), "alter")
    ensures ValidateSqlQuery(sql) == Valid
  {
    var s := AsciiLower(sql);
    assert !HasChar(s, ';') by {
      forall k | 0 <= k < |s| ensures s[k] != ';' {
        assert sql[k] != ';';
      }
    }
    NothingDangerous(s);
  }

  // ---------------------------------------------------------------------------
  // isWriteOperation
  // ---------------------------------------------------------------------------

  const WriteKeywords: seq<string> := [
    "insert", "update", "delete", "create", "drop", "alter",
    "truncate", "grant", "revoke", "commit", "rollback"
  ]

  /** The trimmed text, lower-cased as JavaScript does it, begins with one of the eleven
      keywords; the keyword need not be a whole word. */
  predicate IsWriteOperation(sql: string) {
    exists k | 0 <= k < |WriteKeywords| :: StartsWith(JsLower(JsTrim(sql)), WriteKeywords[k])
  }

  /** Surrounding whitespace and letter case do not change the classification. */
  lemma WriteClassIgnoresPaddingAndCase(w1: string, a: string, w2: string, b: string)
    requires AllSatisfy(w1, IsJsSpace) && AllSatisfy(w2, IsJsSpace)
    requires LowerAlike(a, b)
    ensures IsWriteOperation(w1 + a + w2) <==> IsWriteOperation(b)
  {
    TrimEndTrimStartPadding(w1, a, w2, IsJsSpace);
    LowerTrimAgree(a, b);
  }

  lemma LowerTrimAgree(a: string, b: string)
    requires LowerAlike(a, b)
    ensures JsLower(JsTrim(a)) == JsLower(JsTrim(b))
  {
    LowerAlikeSpaces(a, b);
    var o, n := TrimAligned(a, b, IsJsSpace);
    LowerAlikeSlice(a, b, o, n);
    LowerAlikeLowersAlike(a[o..o + n], b[o..o + n]);
  }

  /** The Kelvin sign U+212A lower-cases to `k`, so `REVO\u212AE ...` is a `REVOKE` and
      counts as a write. */
  lemma KelvinSignRevokeIsAWrite(rest: string)
    ensures IsWriteOperation("REVO\U{212A}E" + rest)
  {
    var p := "REVO\U{212A}E";
    assert JsLower(p) == WriteKeywords[8] by {
      assert p[1..] == "EVO\U{212A}E";
      assert p[1..][1..] == "VO\U{212A}E";
      assert p[1..][1..][1..] == "O\U{212A}E";
      assert p[1..][1..][1..][1..] == "\U{212A}E";
      assert p[1..][1..][1..][1..][1..] == "E";
    }
    LeadingKeyword(p + rest, p, 8);
  }

  /** The test is a prefix test: `updated_report` counts as a write. */
  lemma KeywordNeedNotBeAWord()
    ensures IsWriteOperation("updated_report")
  {
    var p := "update";
    assert JsLower(p) == WriteKeywords[1] by {
      assert p[1..] == "pdate";
      assert p[1..][1..] == "date";
      assert p[1..][1..][1..] == "ate";
      assert p[1..][1..][1..][1..] == "te";
      assert p[1..][1..][1..][1..][1..] == "e";
    }
    assert "updated_report"[..6] == p;
    LeadingKeyword("updated_report", p, 1);
  }

  /** A text that opens with a word lower-casing to keyword `k` is a write. */
  lemma LeadingKeyword(sql: string, p: string, k: nat)
    requires k < |WriteKeywords| && JsLower(p) == WriteKeywords[k]
    requires |p| > 0 && StartsWith(sql, p) && !IsJsSpace(p[0]) && !IsJsSpace(p[|p| - 1])
    ensures IsWriteOperation(sql)
  {
    TrimKeepsLeading(sql, p, IsJsSpace);
    PrefixLowersToPrefix(JsTrim(sql), p);
    assert StartsWith(JsLower(JsTrim(sql)), WriteKeywords[k]);
  }

  /** A read is not a write. */
  lemma SelectIsNotAWrite(rest: string)
    ensures !IsWriteOperation("SELECT " + rest)
  {
    var sql := "SELECT " + rest;
    assert sql[0] == 'S';
    var t := JsTrim(sql);
    TrimKeepsFirst(sql, IsJsSpace);
    var lt := JsLower(t);
    assert lt == JsLowerChar(t[0]) + JsLower(t[1..]);
    assert lt[0] == 's';
    KeywordsDoNotStartWithS();
    forall k | 0 <= k < |WriteKeywords| ensures !StartsWith(lt, WriteKeywords[k]) {
      if StartsWith(lt, WriteKeywords[k]) {
        StartsWithFirst(lt, WriteKeywords[k]);
      }
    }
  }

  lemma KeywordsDoNotStartWithS()
    ensures forall k | 0 <= k < |WriteKeywords| :: |WriteKeywords[k]| > 0 && WriteKeywords[k][0] != 's'
  {
  }

  lemma StartsWithFirst(s: string, prefix: string)
    requires |prefix| > 0 && StartsWith(s, prefix)
    ensures s[0] == prefix[0]
  {
    assert s[..|prefix|][0] == s[0];
  }

  // ---------------------------------------------------------------------------
  // formatDatabaseError
  // ---------------------------------------------------------------------------

  /** A thrown value: an `Error` with its message, or anything else, with what `String()`
      makes of it. */
  datatype Thrown = ErrorObject(message: string) | OtherValue(shown: string)

  const AuthFailedText: string := "数据库认证失败。请检查您的凭据。"
  const TimeoutText: string := "数据库连接超时。请重试。"
  const ConnectFailedText: string := "无法连接到数据库。请检查您的连接字符串。"
  const GenericPrefix: string := "数据库错误: "
  const UnknownErrorText: string := "发生了未知的数据库错误。"

  /** Messages naming a password, a timeout or a connection are replaced by fixed
      texts, checked in that order; any other message is shown after a prefix. */
  function FormatDatabaseError(e: Thrown): (r: string)
    ensures e.OtherValue? ==> r == UnknownErrorText
    ensures e.ErrorObject? ==> (r == AuthFailedText <==> Contains(e.message, "password"))
    ensures e.ErrorObject? ==> (r == TimeoutText <==> !Contains(e.message, "password") && Contains(e.message, "timeout"))
    ensures e.ErrorObject? ==> (r == ConnectFailedText
                                <==> !Contains(e.message, "password") && !Contains(e.message, "timeout")
                                     && Contains(e.message, "connect"))
    ensures e.ErrorObject? && r == GenericPrefix + e.message
            ==> !Contains(e.message, "password") && !Contains(e.message, "timeout") && !Contains(e.message, "connect")
    ensures e.ErrorObject? ==>
              ((!Contains(e.message, "password") && !Contains(e.message, "timeout") && !Contains(e.message, "connect"))
               ==> r == GenericPrefix + e.message)
  {
    FixedTextsDistinct();
    match e
    case OtherValue(_) => UnknownErrorText
    case ErrorObject(m) =>
      GenericMessageIsDistinct(m);
      if Contains(m, "password") then AuthFailedText
      else if Contains(m, "timeout") then TimeoutText
      else if Contains(m, "connection") || Contains(m, "connect") then
        ConnectionImpliesConnect(m);
        ConnectFailedText
      else
        GenericPrefix + m
  }

  /** The five texts differ from each other (at their fourth character), and a prefixed
      message is none of the fixed ones. */
  lemma GenericMessageIsDistinct(m: string)
    ensures GenericPrefix + m !in {AuthFailedText, TimeoutText, ConnectFailedText, UnknownErrorText}
  {
    assert (GenericPrefix + m)[3] == '错';
    assert AuthFailedText[3] == '认' && TimeoutText[3] == '连';
    assert ConnectFailedText[3] == '接' && UnknownErrorText[3] == '未';
  }

  lemma FixedTextsDistinct()
    ensures |{AuthFailedText, TimeoutText, ConnectFailedText, UnknownErrorText}| == 4
  {
    assert AuthFailedText[3] == '认' && TimeoutText[3] == '连';
    assert ConnectFailedText[3] == '接' && UnknownErrorText[3] == '未';
  }

  /** The `connection` test adds nothing: every message containing `connection`
      contains `connect`. */
  lemma ConnectionImpliesConnect(m: string)
    ensures Contains(m, "connection") ==> Contains(m, "connect")
  {
    if Contains(m, "connection") {
      var i := ContainsWitness(m, "connection");
      assert m[i..i + 7] == "connection"[..7];
      ContainsAt(m, "connect", i);
    }
  }

  /** No text `formatDatabaseError` returns names a password, a timeout or a connection:
      a message naming one is never shown. */
  lemma ErrorTextHidesDetails(e: Thrown, word: string)
    requires word in ["password", "timeout", "connect"]
    ensures !Contains(FormatDatabaseError(e), word)
  {
    assert 'a' <= word[0] <= 'z';
    match e
    case OtherValue(_) =>
      FixedTextHidesDetails(UnknownErrorText, word);
    case ErrorObject(m) =>
      if Contains(m, "password") {
        FixedTextHidesDetails(AuthFailedText, word);
      } else if Contains(m, "timeout") {
        FixedTextHidesDetails(TimeoutText, word);
      } else if Contains(m, "connect") {
        FixedTextHidesDetails(ConnectFailedText, word);
      } else {
        NoLettersNoWord(GenericPrefix, m, word);
      }
  }

  lemma FixedTextHidesDetails(fixed: string, word: string)
    requires fixed in [UnknownErrorText, AuthFailedText, TimeoutText, ConnectFailedText]
    requires |word| > 0 && 'a' <= word[0] <= 'z'
    ensures !Contains(fixed, word)
  {
    NoLettersNoWord(fixed, "", word);
    assert fixed + "" == fixed;
  }

  /** A prefix free of lower-case ASCII letters cannot hold the start of `word`. */
  lemma NoLettersNoWord(fixed: string, rest: string, word: string)
    requires fixed in [UnknownErrorText, AuthFailedText, TimeoutText, ConnectFailedText, GenericPrefix]
    requires |word| > 0 && 'a' <= word[0] <= 'z' && !Contains(rest, word)
    ensures !Contains(fixed + rest, word)
  {
    assert forall i :: 0 <= i < |fixed| ==> !('a' <= fixed[i] <= 'z');
    NotContainedPastPrefix(fixed, rest, word);
  }
}
