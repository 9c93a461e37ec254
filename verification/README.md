# Context-engineering templates: a Dafny model of the deterministic core

This project models the parts of the context-engineering template repository that are
plain, sequential logic over strings, sequences and sets, and proves what they promise:

- **The two template copiers** (`use-cases/mcp-server/copy_template.py` and
  `use-cases/pydantic-ai/copy_template.py`). The MCP copier reads a `.gitignore`, decides
  which paths it ignores, walks the template top-down and prunes ignored directories,
  and renames every `README.md` to `README_TEMPLATE.md`. The PydanticAI copier picks files
  from a fixed list of places. Both copiers then create the parent directories, copy
  file by file while counting successes, check the essential files, and run the guards
  in `main` before writing. Python's `fnmatch` (POSIX, case-sensitive) is modelled in
  full, including the way `translate` reads bracket classes.
- **The SQL guard** (`src/database/security.ts`): the empty check, the 13 dangerous
  patterns as hand-written predicates, the write-keyword classifier and the
  error-message classifier.
- **The OAuth approval cookie** (`src/auth/oauth-utils.ts`):
  - HTML escaping;
  - hex encoding of the HMAC signature, and reading it back with `parseInt(…, 16)`;
  - base64 by section 4 of RFC 4648, with `btoa` and the forgiving `atob` decode;
  - reading the `Cookie` header;
  - the de-duplicating merge of approved client ids;
  - every error path of `parseRedirectApproval`;
  - the round trip from the written `Set-Cookie` value back to the approved list.
- **The MCP tools** (`src/types.ts`, `examples/database-tools.ts`,
  `examples/database-tools-sentry.ts`):
  - the response builders and argument schemas;
  - the write-permission gate;
  - the validate, reject-writes, execute order;
  - the order-preserving grouping of catalogue rows into tables;
  - Sentry's `handleError`.
  The two tool files differ only in how a thrown error is reported. The `Reporting`
  mode covers both.
- **Python helpers of the agent examples**:
  - `format_data`;
  - `search_web` and `summarize_research` of the research agent;
  - the Brave search tool's checks, request, status handling and result mapping;
  - the chat agent's dynamic prompt and turn counter.

The file system, HMAC, JSON text, HTTP and the agent run are parameters of the functions
that need them: a copy oracle, `mac`, `parse`/`stringify`/`pretty`, `http`, `run`. Where a
law matters, such as parse undoing stringify, it is a precondition of the lemma that
needs it. Python exceptions and JavaScript throws are `Failure` values. `null` and
`undefined` are `None`.

Modules, one per file: `Wrappers`, `Text`, `Collections`, `JsonValues` (shared helpers);
`ShellGlob`, `IgnoreRules`, `TemplateWalk`, `CopyRun`, `McpTemplate`, `PydanticTemplate`
(copiers); `SqlGuard`, `Base64`, `HexSignature`, `ApprovalCookie`, `McpResponses`,
`DatabaseTools` (MCP server); `FormatData`, `BraveSearch`, `ResearchAgent`, `ChatAgent`
(agent helpers).

## Model

| member | source | states |
|---|---|---|
| IgnoreRules.ParseGitignore | use-cases/mcp-server/copy_template.py:36-53 | a missing ignore file gives the empty set of patterns |
| IgnoreRules.KeptLineIsParsed | use-cases/mcp-server/copy_template.py:43-49 | every line that is not blank and not a `#` comment after stripping contributes its pattern |
| IgnoreRules.ParsedPatternHasLine | use-cases/mcp-server/copy_template.py:43-49 | every pattern in the set comes from such a line: the stripped line with its leading slashes removed |
| IgnoreRules.PatternOf | use-cases/mcp-server/copy_template.py:44-48 | a pattern is the stripped line minus a run of leading `/`, and never starts with `/` |
| IgnoreRules.LeadingSlashesDropped | use-cases/mcp-server/copy_template.py:48 | any number of leading slashes is removed, not just one |
| IgnoreRules.ParseLinesAppend | use-cases/mcp-server/copy_template.py:43-49 | the patterns of a file are the union over its lines, whatever the order |
| IgnoreRules.ShouldIgnorePath | use-cases/mcp-server/copy_template.py:69-91 | a path outside the template root is never ignored; inside, it is ignored iff some pattern matches its `/`-joined relative path |
| IgnoreRules.FirstMatchingPattern | use-cases/mcp-server/copy_template.py:78-91 | the loop stops at the first matching pattern, and finds one iff any pattern matches |
| IgnoreRules.IgnoredInAnyOrder | use-cases/mcp-server/copy_template.py:78-91 | the verdict does not depend on the iteration order of the pattern set |
| IgnoreRules.DirectoryPattern | use-cases/mcp-server/copy_template.py:80-83 | a pattern ending in `/` matches exactly that directory and what lies below it |
| IgnoreRules.DirectoryPatternIsNotAPrefixTest | use-cases/mcp-server/copy_template.py:80-83 | `build/` matches `build/x` but not `build-artifacts/x` |
| IgnoreRules.PlainPattern | use-cases/mcp-server/copy_template.py:85-89 | a pattern without glob characters matches the path itself or anything under it |
| IgnoreRules.GlobCrossesDirectories | use-cases/mcp-server/copy_template.py:85 | `*.log` matches `logs/app.log`, because `*` also matches `/` |
| ShellGlob.PlainPatternMatchesOnlyItself | use-cases/mcp-server/copy_template.py:85 | a pattern without `*`, `?` or `[` matches exactly itself |
| ShellGlob.StarSuffixPattern | use-cases/mcp-server/copy_template.py:85 | `*` followed by plain text matches exactly the names that end in that text |
| ShellGlob.SimpleClassMembership | use-cases/mcp-server/copy_template.py:85 | a bracket class without `!` or `-` matches exactly its characters |
| ShellGlob.ReversedRangeBeforeBangNegates | use-cases/mcp-server/copy_template.py:85 | `[b-a!c]` is read as a negated class: it matches `x` and not `c` |
| TemplateWalk.WalkMembers | use-cases/mcp-server/copy_template.py:113-124 | the walk emits a file iff neither the file nor any directory above it is ignored |
| TemplateWalk.PrunedDirectoryContributesNothing | use-cases/mcp-server/copy_template.py:117 | nothing below an ignored directory is ever emitted |
| McpTemplate.Rules | use-cases/mcp-server/copy_template.py:106-110 | the script's own name is always added to the parsed patterns |
| McpTemplate.GetTemplateFiles | use-cases/mcp-server/copy_template.py:94-137 | one copy item per walked file, each source below the template root |
| McpTemplate.SelectedIffVisible | use-cases/mcp-server/copy_template.py:113-135 | a file is selected iff it exists and no prefix of its path is ignored |
| McpTemplate.ScriptNeverSelected | use-cases/mcp-server/copy_template.py:110 | the root-level `copy_template.py` is never selected, whatever the ignore file says |
| McpTemplate.NestedScriptNotCoveredByOwnName | use-cases/mcp-server/copy_template.py:110 | the added name does not cover a `copy_template.py` in a subdirectory |
| McpTemplate.ReadmeRenamedAtEveryDepth | use-cases/mcp-server/copy_template.py:129-133 | every `README.md`, at any depth, goes to `README_TEMPLATE.md` in the same parent; other names are kept |
| McpTemplate.RenameCanCollide | use-cases/mcp-server/copy_template.py:129-133 | a `README.md` and a `README_TEMPLATE.md` in one directory get the same destination |
| McpTemplate.TargetsFollowSources | use-cases/mcp-server/copy_template.py:127-135 | each destination is the source's relative path, renamed if it is a README |
| PydanticTemplate.CoreFilesWhenPresent | use-cases/pydantic-ai/copy_template.py:35-45 | `CLAUDE.md` and `README.md` are listed iff they exist, to `CLAUDE.md` and `README_TEMPLATE.md` |
| PydanticTemplate.CommandsAreMarkdownEntries | use-cases/pydantic-ai/copy_template.py:48-52 | the command items are exactly the `*.md` entries of `.claude/commands`, with the same relative path |
| PydanticTemplate.PrpsKeepTheirPaths | use-cases/pydantic-ai/copy_template.py:55-67 | from `PRPs` only `templates/*.md` and `INITIAL.md` are listed, each keeping its path |
| PydanticTemplate.ExamplesAreFilesInSubdirectories | use-cases/pydantic-ai/copy_template.py:70-78 | when the scan succeeds, every file at any depth of a subdirectory of `examples` is listed with its relative path |
| PydanticTemplate.LooseExampleFilesNotListed | use-cases/pydantic-ai/copy_template.py:70-78 | no file directly inside `examples` is listed |
| PydanticTemplate.ExampleItems | use-cases/pydantic-ai/copy_template.py:70-78 | nothing when `examples` is missing; when it is a file, `iterdir()` raises `NotADirectoryError`, and only then |
| PydanticTemplate.GetTemplateFiles | use-cases/pydantic-ai/copy_template.py:24-80 | the scan fails exactly when `examples` is a file; otherwise the core, command and PRP items come first, in that order |
| PydanticTemplate.CopierMain | use-cases/pydantic-ai/copy_template.py:229-257 | a raising scan ends `main` after the target checks, so with a file `examples` nothing is created or copied; otherwise `main` runs on the scanned list |
| PydanticTemplate.SourcesMirrorTargets | use-cases/pydantic-ai/copy_template.py:24-80 | each source is the root plus its destination, except the renamed README |
| CopyRun.DirectoriesToCreate | use-cases/mcp-server/copy_template.py:148-156 | the directories made are the distinct destination parents; the MCP copier leaves out the target root, the PydanticAI copier (use-cases/pydantic-ai/copy_template.py:91-98) keeps it |
| CopyRun.ParentsExistBeforeCopy | use-cases/pydantic-ai/copy_template.py:91-98 | every destination's parent is made before the copy, whichever copier ran |
| CopyRun.CopyTemplateFiles | use-cases/mcp-server/copy_template.py:170-182 | every item is tried; the count is the number of successes, at most the total, equal to it iff no copy fails, and a failure does not stop later copies |
| CopyRun.ValidateTemplateIntegrity | use-cases/mcp-server/copy_template.py:208-219 | the missing list is exactly the essential paths that do not exist, and the check passes iff it is empty |
| CopyRun.FullCopyPassesIntegrity | use-cases/pydantic-ai/copy_template.py:148-159 | when every copy succeeds and every essential path is a destination, the integrity check passes |
| CopyRun.RunMain | use-cases/mcp-server/copy_template.py:303-358 | no arguments shows help; a file target, or a non-empty one without `--force`, stops before any scan or write; `--dry-run` writes nothing and lists the destinations |
| SqlGuard.ValidateSqlQuery | use-cases/mcp-server/src/database/security.ts:7-39 | a query is invalid as empty iff it is blank, invalid as dangerous iff it matches a pattern, and valid otherwise |
| SqlGuard.ValidationIgnoresCase | use-cases/mcp-server/src/database/security.ts:16-35 | the patterns do not depend on letter case |
| SqlGuard.ChainedDropRejected | use-cases/mcp-server/src/database/security.ts:18 | a `DROP` after a semicolon is rejected |
| SqlGuard.ChainedDeleteAllRejected | use-cases/mcp-server/src/database/security.ts:20 | a chained `DELETE … WHERE 1=1` on one line is rejected |
| SqlGuard.SingleStatementAccepted | use-cases/mcp-server/src/database/security.ts:16-38 | a non-blank statement without a semicolon, the two procedure names or a leading DROP/TRUNCATE/ALTER is valid |
| SqlGuard.IndentedStatementPassesAnchors | use-cases/mcp-server/src/database/security.ts:18-24 | the start-anchored patterns test the untrimmed text, so an indented statement passes them |
| SqlGuard.WriteClassIgnoresPaddingAndCase | use-cases/mcp-server/src/database/security.ts:44-52 | the write classifier ignores surrounding whitespace and any difference between characters that lower-case alike onto ASCII (`A`-`Z`, U+212A and U+0130), so the Kelvin sign and `K` are interchangeable |
| Text.JsLowerOfAscii | use-cases/mcp-server/src/database/security.ts:45 | on ASCII text `toLowerCase` maps exactly `A`-`Z` to `a`-`z` |
| Text.LowerAlikeLowersAlike | use-cases/mcp-server/src/database/security.ts:45 | texts whose characters lower-case alike, place by place, have the same `toLowerCase` |
| SqlGuard.KelvinSignRevokeIsAWrite | use-cases/mcp-server/src/database/security.ts:44-52 | `REVO\u212AE ...` lower-cases to `revoke ...` and counts as a write |
| SqlGuard.KeywordNeedNotBeAWord | use-cases/mcp-server/src/database/security.ts:44-52 | the classifier is a prefix test: `updated_report` counts as a write |
| SqlGuard.SelectIsNotAWrite | use-cases/mcp-server/src/database/security.ts:44-52 | a `SELECT` statement is never a write |
| SqlGuard.FormatDatabaseError | use-cases/mcp-server/src/database/security.ts:57-71 | password before timeout before connect; a message naming none of them is shown after the generic prefix, and only such a message; a non-Error value gives the fixed unknown-error text |
| SqlGuard.ErrorTextHidesDetails | use-cases/mcp-server/src/database/security.ts:59-69 | no returned text contains `password`, `timeout` or `connect`: a message naming one is never shown |
| SqlGuard.GenericMessageIsDistinct | use-cases/mcp-server/src/database/security.ts:57-71 | the fallback text never equals one of the fixed texts |
| HexSignature.ToHex | use-cases/mcp-server/src/auth/oauth-utils.ts:80-82 | each byte becomes two lowercase hex digits, so n bytes give 2n characters |
| HexSignature.HexRoundTrip | use-cases/mcp-server/src/auth/oauth-utils.ts:100-102 | reading a signature back in two-character chunks recovers the bytes |
| HexSignature.SignThenVerify | use-cases/mcp-server/src/auth/oauth-utils.ts:76-109 | a signature made with the key verifies against the same data |
| HexSignature.VerifySignature | use-cases/mcp-server/src/auth/oauth-utils.ts:92-109 | verification holds iff the signature's two-character chunks read back as exactly the MAC of the data |
| HexSignature.MinusSignWraps | use-cases/mcp-server/src/auth/oauth-utils.ts:101 | `parseInt` accepts a sign, and `-1` wraps to the same byte as `ff` |
| Base64.AtobBtoa | use-cases/mcp-server/src/auth/oauth-utils.ts:137 | decoding undoes encoding for every Latin-1 text |
| Base64.Btoa | use-cases/mcp-server/src/auth/oauth-utils.ts:579 | encoding succeeds iff every character is Latin-1 |
| Base64.Encode | use-cases/mcp-server/src/auth/oauth-utils.ts:579 | the output is a multiple of four characters from the alphabet and `=` |
| Base64.EncodingIsCookieSafe | use-cases/mcp-server/src/auth/oauth-utils.ts:579 | the encoding never contains `.`, `;`, `,` or whitespace |
| Base64.LoneCharacterRefused | use-cases/mcp-server/src/auth/oauth-utils.ts:137 | a single non-space character is not valid base64 |
| ApprovalCookie.SanitizeIsEscape | use-cases/mcp-server/src/auth/oauth-utils.ts:594-601 | the five chained replacements equal escaping each character once |
| ApprovalCookie.SanitizedHasNoMarkup | use-cases/mcp-server/src/auth/oauth-utils.ts:594-601 | the output contains no `<`, `>`, `"` or `'` |
| ApprovalCookie.UnescapeSanitize | use-cases/mcp-server/src/auth/oauth-utils.ts:594-601 | decoding the five entities returns the input, because `&` is escaped first |
| ApprovalCookie.PlainTextUnchanged | use-cases/mcp-server/src/auth/oauth-utils.ts:594-601 | text without the five characters is unchanged |
| ApprovalCookie.FindCookie | use-cases/mcp-server/src/auth/oauth-utils.ts:123-126 | the first cookie with the approval name is used, and none iff no cookie has it |
| ApprovalCookie.ReadApprovedClients | use-cases/mcp-server/src/auth/oauth-utils.ts:117-163 | null for a missing header or cookie; a list only from a cookie of two parts whose signature verifies over a JSON array of strings; throws only on bad base64 or a missing secret |
| ApprovalCookie.ReadPayload | use-cases/mcp-server/src/auth/oauth-utils.ts:147-162 | a list iff the payload parses to an array of strings, never a throw |
| ApprovalCookie.ClientIdAlreadyApproved | use-cases/mcp-server/src/auth/oauth-utils.ts:175-185 | false for an empty id; true iff a valid cookie's list holds the id; throws iff the reader throws |
| ApprovalCookie.MalformedPayloadThrows | use-cases/mcp-server/src/auth/oauth-utils.ts:136-137 | a cookie whose payload is not base64 makes the check throw instead of answering false |
| ApprovalCookie.MergeApproved | use-cases/mcp-server/src/auth/oauth-utils.ts:569-573 | the new list holds the client id and the existing ids and nothing else, without duplicates |
| ApprovalCookie.MergeAppendsNewClient | use-cases/mcp-server/src/auth/oauth-utils.ts:573 | the merge keeps the existing order and appends the id only when it is new |
| ApprovalCookie.SetCookieHeader | use-cases/mcp-server/src/auth/oauth-utils.ts:582-584 | the header is the cookie name, `=`, the value, then `HttpOnly; Secure; Path=/; SameSite=Lax; Max-Age=31536000` |
| ApprovalCookie.ParseRedirectApproval | use-cases/mcp-server/src/auth/oauth-utils.ts:534-587 | each error message for a non-POST method, a bad form, a missing or undecodable state and a missing client id; on success the value is `hex "." base64(payload)` |
| ApprovalCookie.CookieValuePartsAreSafe | use-cases/mcp-server/src/auth/oauth-utils.ts:576-579 | neither part of the written value contains `.` or `;`, so it always splits into the two parts the reader needs |
| ApprovalCookie.WrittenCookieReadsBack | use-cases/mcp-server/src/auth/oauth-utils.ts:568-584 | with a string client id, the written cookie reads back as exactly the merged list |
| ApprovalCookie.NonStringClientIdForgetsList | use-cases/mcp-server/src/auth/oauth-utils.ts:554-579 | with a client id that is not a string, the written cookie reads back as no list at all |
| McpResponses.CreateSuccessResponse | use-cases/mcp-server/src/types.ts:84-95 | one text item without `isError`, starting with the success heading and the message; the result block is present iff data is defined |
| McpResponses.CreateErrorResponse | use-cases/mcp-server/src/types.ts:97-109 | one text item with `isError` set, starting with the error heading and the message; the details block is present iff details are defined |
| McpResponses.SuccessAndErrorNeverMeet | use-cases/mcp-server/src/types.ts:84-109 | a success text and an error text always differ in their heading |
| McpResponses.CheckSqlArgument | use-cases/mcp-server/src/types.ts:58-70 | a string argument passes `min(1)` exactly when it is non-empty, and is then taken unchanged; otherwise the schema's own message is the error |
| McpResponses.BlankPassesSchemaNotValidation | use-cases/mcp-server/src/types.ts:58-70 | whitespace passes the schema but the SQL validation refuses it as empty |
| DatabaseTools.RegisteredTools | use-cases/mcp-server/examples/database-tools.ts:13-24 | listing and querying are always registered; executing iff the login is allowed (also use-cases/mcp-server/examples/database-tools-sentry.ts:14-18) |
| DatabaseTools.GroupColumns | use-cases/mcp-server/examples/database-tools.ts:42-60 | the loop builds exactly the grouping of the rows |
| DatabaseTools.Grouped | use-cases/mcp-server/examples/database-tools.ts:42-60 | one table per distinct name in order of first appearance, each in schema `public` with its own rows' columns |
| DatabaseTools.ToColumn | use-cases/mcp-server/examples/database-tools.ts:52-57 | a column is nullable iff `is_nullable` is `YES` |
| DatabaseTools.EveryRowGrouped | use-cases/mcp-server/examples/database-tools.ts:42-60 | the tables hold as many columns as there were rows: none lost or duplicated |
| DatabaseTools.RowInItsTable | use-cases/mcp-server/examples/database-tools.ts:52-57 | each row's column is in its own table |
| DatabaseTools.TablesAreDistinctAndOrdered | use-cases/mcp-server/examples/database-tools-sentry.ts:84-102 | table names are distinct and in order of first appearance |
| DatabaseTools.TableCountIsDistinctNames | use-cases/mcp-server/examples/database-tools.ts:60-66 | the reported total is the number of distinct table names |
| DatabaseTools.RunListTables | use-cases/mcp-server/examples/database-tools.ts:25-77 | the schema text with the grouped tables and their count, or the error response on a failure |
| DatabaseTools.RunQueryDatabase | use-cases/mcp-server/examples/database-tools.ts:85-116 | the database is reached iff the SQL is valid and not a write; each rejection has its message; a success ends with the rows-returned line |
| DatabaseTools.OperationType | use-cases/mcp-server/examples/database-tools.ts:136-137 | the label is "Write Operation" iff the SQL is a write |
| DatabaseTools.RunExecuteDatabase | use-cases/mcp-server/examples/database-tools.ts:125-152 | invalid SQL is still rejected before the database; a success names the operation and the user |
| DatabaseTools.HandleError | use-cases/mcp-server/examples/database-tools-sentry.ts:21-45 | one text item with `isError` set, the fixed lines and the event id, then the error detail |
| DatabaseTools.ProductionHidesError | use-cases/mcp-server/examples/database-tools-sentry.ts:29-33 | in production the response does not depend on the error |
| DatabaseTools.TracedSql | use-cases/mcp-server/examples/database-tools-sentry.ts:135 | the traced statement is the first 100 characters of the query |
| FormatData.FormatData | use-cases/pydantic-ai/examples/tool_enabled_agent/agent.py:248-286 | the table, list and JSON branches; a one-line table and an unknown format give the input back unchanged; an exception from `loads` other than a decoding error, or one from `dumps`, gives the fixed error prefix and its text |
| FormatData.TableShowsFirstRows | use-cases/pydantic-ai/examples/tool_enabled_agent/agent.py:250-262 | the table's lines are the framed header, a rule as wide, and the first ten rows in order |
| FormatData.TableReadsBack | use-cases/pydantic-ai/examples/tool_enabled_agent/agent.py:256-262 | cutting the table at newlines gives back each framed line |
| FormatData.Rule | use-cases/pydantic-ai/examples/tool_enabled_agent/agent.py:258 | the rule is bars around dashes, exactly as wide as the framed header |
| FormatData.NonBlankIndices | use-cases/pydantic-ai/examples/tool_enabled_agent/agent.py:268 | the positions of the lines with something besides whitespace, each once, in increasing order |
| FormatData.Bullets | use-cases/pydantic-ai/examples/tool_enabled_agent/agent.py:268 | as many entries as non-blank lines, entry k being the bullet and the k-th non-blank line stripped, so repeated lines are all kept, in line order |
| FormatData.BulletsAppend | use-cases/pydantic-ai/examples/tool_enabled_agent/agent.py:268 | the entries of two blocks of lines are those of the first, then those of the second |
| FormatData.BulletsOfOneLine | use-cases/pydantic-ai/examples/tool_enabled_agent/agent.py:268 | one line gives its bullet entry when it is not blank, and nothing otherwise |
| FormatData.ListShowsNonBlankLines | use-cases/pydantic-ai/examples/tool_enabled_agent/agent.py:266-269 | cut at newlines, a non-empty list gives back `Bullets` of the input lines: line k is the bullet of the k-th non-blank line |
| FormatData.Items | use-cases/pydantic-ai/examples/tool_enabled_agent/agent.py:276-281 | `item_1` to `item_n` map to the stripped lines in order, with distinct keys |
| BraveSearch.SearchWebTool | use-cases/pydantic-ai/examples/main_agent_reference/tools.py:43-118 | a blank key raises first, then a blank query, both before any request; otherwise the reply decides |
| BraveSearch.ClampCount | use-cases/pydantic-ai/examples/main_agent_reference/tools.py:50 | the count is clamped into 1..20 and unchanged inside it |
| BraveSearch.SearchRequest | use-cases/pydantic-ai/examples/main_agent_reference/tools.py:52-66 | the key header, then `q`, `count`, `offset`; `country` and `lang` only when given |
| BraveSearch.HandleReply | use-cases/pydantic-ai/examples/main_agent_reference/tools.py:80-115 | 429 and 401 have their own errors, any other non-200 status the generic one, a transport failure the request error |
| BraveSearch.Hits | use-cases/pydantic-ai/examples/main_agent_reference/tools.py:97-108 | one hit per result in order, missing fields empty, the score at position i is 1.0 - 0.05 i down to the floor 0.1 from position 18 on, so never increasing |
| BraveSearch.SuccessfulSearch | use-cases/pydantic-ai/examples/main_agent_reference/tools.py:43-111 | a successful search sent a count in 1..20, got status 200 and maps every web result |
| ResearchAgent.SearchWeb | use-cases/pydantic-ai/examples/main_agent_reference/research_agent.py:73-88 | the tool is called with the clamped count, and a failure becomes the `Search failed:` record |
| ResearchAgent.SearchWebSendsClampedCount | use-cases/pydantic-ai/examples/main_agent_reference/research_agent.py:74-81 | with a usable key and query the one request asks for 1 to 20 results, `max_results` itself inside that range and the nearer bound outside it, and its reply alone decides the outcome |
| ResearchAgent.SummarizeResearch | use-cases/pydantic-ai/examples/main_agent_reference/research_agent.py:192-239 | no results give the fixed summary; the count is of all sources, the key points the first five descriptions; the text is the heading with topic and focus line, the key points one per line, then the first ten source lines |
| ResearchAgent.OnlyFirstTenSourcesListed | use-cases/pydantic-ai/examples/main_agent_reference/research_agent.py:205-230 | with more than ten sources the text ends with exactly the first ten source lines while the count covers all of them |
| ResearchAgent.Sources | use-cases/pydantic-ai/examples/main_agent_reference/research_agent.py:204-206 | a source line exactly for each result with a title and a URL |
| ResearchAgent.Descriptions | use-cases/pydantic-ai/examples/main_agent_reference/research_agent.py:204-208 | a description exactly for each source that has one |
| ResearchAgent.SourcesAppend | use-cases/pydantic-ai/examples/main_agent_reference/research_agent.py:204-208 | collecting keeps the input order |
| ResearchAgent.KeyPointsComeFromSources | use-cases/pydantic-ai/examples/main_agent_reference/research_agent.py:204-230 | at most five key points, never more than the sources, each the description of a source |
| ResearchAgent.LaterResultsKeepKeyPoints | use-cases/pydantic-ai/examples/main_agent_reference/research_agent.py:211 | results after the fifth description do not change the key points |
| ResearchAgent.FocusText | use-cases/pydantic-ai/examples/main_agent_reference/research_agent.py:214 | the focus line is present iff focus areas are given and not empty |
| ChatAgent.DynamicContextPrompt | use-cases/pydantic-ai/examples/basic_chat_agent/agent.py:97-110 | empty iff there is no name, no earlier turn and the language is English; otherwise exactly the applicable sentences in the order name, count, language, one space between neighbours |
| ChatAgent.ChatTurn | use-cases/pydantic-ai/examples/basic_chat_agent/agent.py:124-131 | a missing context starts afresh; the count goes up by exactly one before the agent runs, nothing else changes |
| ChatAgent.ConverseCounts | use-cases/pydantic-ai/examples/basic_chat_agent/agent.py:166-184 | after n calls sharing the caller's context its count has risen by exactly n and nothing else has changed |
| ChatAgent.ConverseReplies | use-cases/pydantic-ai/examples/basic_chat_agent/agent.py:124-133 | in a shared context, message i is answered with the count raised i + 1 times |
| ChatAgent.FirstMessageIsCalledSecond | use-cases/pydantic-ai/examples/basic_chat_agent/agent.py:104-105 | the prompt for the first message of a fresh conversation already says message #2 |

## Left out

- File-system effects (`os.walk`, `shutil.copy2`, `mkdir`, `exists`, `iterdir`): the tree is a value, copying is an oracle that may fail, existence is a predicate.
- Console output and emoji, `print_next_steps`, `argparse` (only the argument count and the two flags are modelled), and everything in `main_agent_reference/cli.py`.
- `fnmatch`'s cache and `os.path.normcase`: on POSIX the latter is the identity.
- Web Crypto: HMAC-SHA256 is the parameter `mac`, and `importKey` is kept only for its empty-secret throw.
- `JSON.parse`, `JSON.stringify`, `json.loads` and `json.dumps` are parameters. The JSON value type keeps integers only, and an object is a map, so key order and duplicate keys are not modelled.
- `request.formData()` is reduced to what `parseRedirectApproval` reads from it: unreadable, no `state`, a file, or a text value.
- `renderApprovalDialog`, `getUpstreamAuthorizeUrl`, `fetchUpstreamAuthToken`, the GitHub handler, the OAuth provider wiring, `index.ts`, `index_sentry.ts` and `register-tools.ts` are not part of this model.
- The connection pool, `withDatabase` and the database driver: a statement's outcome is the parameter `db`, and the catalogue query's outcome is an argument of `RunListTables`.
- Sentry spans, `setUser`, tags and `captureException`: only the event id it returns is modelled, as an argument.
- `JSON.stringify(tableInfo, null, 2)` and the other pretty-printing are the parameters `render` and `pretty`.
- `substring(0, 100)` counts UTF-16 code units and `z.string().min(1)` counts code units too. The model counts characters, which agree for text in the Basic Multilingual Plane.
- McpResponses.CheckSqlArgument: the argument is already a string, so zod's refusal of an argument that is not a string at all is not modelled.
- The HTTP request in `search_web_tool` is the parameter `http`. An `AttributeError` or `TypeError` raised on a reply body of the wrong shape has its text as the parameter `shapeError`, and the `TypeError` text `join` raises in `summarize_research` is the parameter `joinError`.
- BraveSearch.Hits: scores are whole hundredths. The source's floating-point `1.0 - idx * 0.05` can differ from them in the last bits.
- The agent framework: `Agent` construction, tool decorators, `RunContext`, settings, providers, the models' field constraints, and the agent runs themselves, which are the parameter `run`.
- `format_data`'s outer `except` is modelled only for exceptions from `json.loads` and `json.dumps`, the parameters `loads` and `dumps`. The table and list branches work on a `str` and are taken not to raise.
- The other tools of the tool-enabled agent (`calculate`, `analyze_numerical_data`, `get_current_time`, web search) and `create_email_draft`.
- ResearchAgent.SummarizeResearch: a non-string `title` or `url` is rendered by the parameter `show`, Python's `str`. Every result is taken to be a dict.
- `testing_examples/test_agent_patterns.py`: it tests the framework through mocks.
- SqlGuard.IsWriteOperation: `toLowerCase` is modelled only where its result can hold ASCII: `A`-`Z`, the Kelvin sign U+212A and U+0130. Every other character is kept as it is. The real lower case of such a character is not ASCII either, so it can never match a keyword letter, and U+0130 is the only character whose lower case is longer than one character.
- A general regular-expression engine: the SQL patterns are hand-written predicates. The JavaScript `/i` flag is modelled by ASCII lower-casing. That is exact for these ASCII patterns, because without the `u` flag case-insensitive matching never maps a non-ASCII character onto an ASCII one.

