/** The response shapes of the MCP server (`use-cases/mcp-server/src/types.ts`): every
    tool answers with a single text item, a success under a `**Success**` heading and a
    failure under `**Error**` with `isError` set; each may carry a fenced JSON block. The
    two SQL tool schemas only demand a non-empty argument.

    `JSON.stringify(value, null, 2)` is the parameter `pretty`. */
module McpResponses {
  import opened Wrappers
  import opened Text
  import opened JsonValues
  import opened SqlGuard

  /** One content item. Its `type` is always `text`; `isError` is either absent or set. */
  datatype TextContent = TextContent(text: string, isError: Option<bool>)

  datatype McpResponse = McpResponse(content: seq<TextContent>)

  const SuccessHeading: string := "**Success**\n\n"
  const ErrorHeading: string := "**Error**\n\n"

  /** A fenced JSON block under a bold title, as both builders append it. */
  function JsonBlock(title: string, json: string): (r: string)
    ensures |r| > 0 && EndsWith(r, "\n```")
  {
    var r := "\n\n**" + title + ":**\n```json\n" + json + "\n```";
    assert r[|r| - 4..] == "\n```";
    r
  }

  /** A heading, the message, and the block when there is a value to show. */
  function Report(heading: string, message: string, title: string, value: Option<Json>,
                  pretty: Json -> string): (text: string)
    ensures StartsWith(text, heading + message)
    ensures value.None? <==> |text| == |heading| + |message|
    ensures value.Some? ==> text[|heading| + |message|..] == JsonBlock(title, pretty(value.value))
  {
    var text := heading + message + (if value.Some? then JsonBlock(title, pretty(value.value)) else "");
    assert text[..|heading + message|] == heading + message;
    text
  }

  /** `createSuccessResponse(message, data)`; `None` is an undefined `data`. */
  function CreateSuccessResponse(message: string, data: Option<Json>, pretty: Json -> string): (r: McpResponse)
    ensures |r.content| == 1 && r.content[0].isError.None?
    ensures StartsWith(r.content[0].text, SuccessHeading + message)
    // the result block is there iff data is defined
    ensures data.None? <==> r.content[0].text == SuccessHeading + message
    ensures data.Some? ==> r.content[0].text[|SuccessHeading| + |message|..] == JsonBlock("Result", pretty(data.value))
  {
    var text := Report(SuccessHeading, message, "Result", data, pretty);
    assert data.None? ==> text[..|SuccessHeading + message|] == text;
    McpResponse([TextContent(text, None)])
  }

  /** `createErrorResponse(message, details)`; `None` is an undefined `details`. */
  function CreateErrorResponse(message: string, details: Option<Json>, pretty: Json -> string): (r: McpResponse)
    ensures |r.content| == 1 && r.content[0].isError == Some(true)
    ensures StartsWith(r.content[0].text, ErrorHeading + message)
    // the details block is there iff details are defined
    ensures details.None? <==> r.content[0].text == ErrorHeading + message
    ensures details.Some? ==> r.content[0].text[|ErrorHeading| + |message|..] == JsonBlock("Details", pretty(details.value))
  {
    var text := Report(ErrorHeading, message, "Details", details, pretty);
    assert details.None? ==> text[..|ErrorHeading + message|] == text;
    McpResponse([TextContent(text, Some(true))])
  }

  /** A reader of a response can always tell success from failure, by the flag and by the
      heading, whatever the messages. */
  lemma SuccessAndErrorNeverMeet(m1: string, d1: Option<Json>, m2: string, d2: Option<Json>, pretty: Json -> string)
    ensures var ok := CreateSuccessResponse(m1, d1, pretty).content[0].text;
            var bad := CreateErrorResponse(m2, d2, pretty).content[0].text;
            ok[2] == 'S' && bad[2] == 'E'
  {
    var ok := CreateSuccessResponse(m1, d1, pretty).content[0].text;
    var bad := CreateErrorResponse(m2, d2, pretty).content[0].text;
    assert ok[..|SuccessHeading|] == SuccessHeading by {
      assert StartsWith(ok, SuccessHeading + m1);
      assert ok[..|SuccessHeading|] == (SuccessHeading + m1)[..|SuccessHeading|];
    }
    assert bad[..|ErrorHeading|] == ErrorHeading by {
      assert StartsWith(bad, ErrorHeading + m2);
      assert bad[..|ErrorHeading|] == (ErrorHeading + m2)[..|ErrorHeading|];
    }
    assert ok[2] == ok[..|SuccessHeading|][2];
    assert bad[2] == bad[..|ErrorHeading|][2];
  }

  // ---------------------------------------------------------------------------
  // Argument schemas
  // ---------------------------------------------------------------------------

  const QueryEmptyMessage: string := "SQL query cannot be empty"
  const CommandEmptyMessage: string := "SQL command cannot be empty"

  /** `z.string().min(1, message)`: the argument is taken as it is, or refused when empty. */
  function CheckSqlArgument(sql: string, emptyMessage: string): (r: Result<string, string>)
    ensures r.Success? <==> |sql| >= 1
    ensures r.Success? ==> r.value == sql
    ensures r.Failure? ==> r.error == emptyMessage
  {
    if |sql| >= 1 then Success(sql) else Failure(emptyMessage)
  }

  /** The schema only counts characters: whitespace passes it, and it is the SQL
      validation behind it that refuses such text as empty. Together the two let no blank
      statement through. */
  lemma BlankPassesSchemaNotValidation(sql: string)
    requires AllSatisfy(sql, IsJsSpace)
    ensures CheckSqlArgument(sql, QueryEmptyMessage).Success? <==> |sql| > 0
    ensures ValidateSqlQuery(sql) == Invalid(EmptyQueryError)
  {
    WhitespaceOnlyIsEmpty(sql);
  }
}
