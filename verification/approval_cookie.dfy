/** The approval cookie of the MCP server's OAuth flow
    (`use-cases/mcp-server/src/auth/oauth-utils.ts`): once a user approves a client, the
    client's id joins a list that is stored in a cookie as `hex(HMAC(list)) "." base64(list)`;
    later requests read the list back and skip the approval dialog for the ids on it.

    HMAC-SHA256 is the parameter `mac` (secret, data) -> bytes, and JSON is the pair of
    parameters `stringify` and `parse`; base64 and the hex form of the signature are the
    concrete ones of the `Base64` and `HexSignature` modules. The HTML escaping used by the
    approval dialog is here too. */
module ApprovalCookie {
  import opened Wrappers
  import opened Text
  import opened Base64
  import opened HexSignature
  import opened Collections
  import opened JsonValues

  // ---------------------------------------------------------------------------
  // HTML escaping
  // ---------------------------------------------------------------------------

  /** `s.replace(/c/g, by)` for a one-character pattern. */
  function ReplaceAll(s: string, c: char, with: string): (r: string)
    ensures !HasChar(s, c) ==> r == s
    decreases |s|
  {
    if |s| == 0 then ""
    else (if s[0] == c then with else [s[0]]) + ReplaceAll(s[1..], c, with)
  }

  lemma {:induction false} ReplaceAllAppend(a: string, b: string, c: char, with: string)
    ensures ReplaceAll(a + b, c, with) == ReplaceAll(a, c, with) + ReplaceAll(b, c, with)
    decreases |a|
  {
    if |a| > 0 {
      var head := if a[0] == c then with else [a[0]];
      assert (a + b)[0] == a[0] && (a + b)[1..] == a[1..] + b;
      assert ReplaceAll(a + b, c, with) == head + ReplaceAll(a[1..] + b, c, with);
      ReplaceAllAppend(a[1..], b, c, with);
      assert ReplaceAll(a, c, with) == head + ReplaceAll(a[1..], c, with);
    } else {
      assert a + b == b;
    }
  }

  /** `sanitizeHtml`: the five replacements, `&` first, applied one after the other. */
  function SanitizeHtml(unsafe: string): string {
    ReplaceAll(ReplaceAll(ReplaceAll(ReplaceAll(ReplaceAll(unsafe,
      '&', "&amp;"), '<', "&lt;"), '>', "&gt;"), '"', "&quot;"), '\'', "&#039;")
  }

  /** The entity each character stands for in the escaped text. */
  function EscapeChar(c: char): string {
    if c == '&' then "&amp;"
    else if c == '<' then "&lt;"
    else if c == '>' then "&gt;"
    else if c == '"' then "&quot;"
    else if c == '\'' then "&#039;"
    else [c]
  }

  predicate IsMarkup(c: char) {
    c == '<' || c == '>' || c == '"' || c == '\''
  }

  /** Character-by-character escaping: the reference the chained replacements agree with. */
  function EscapeHtml(s: string): (r: string)
    ensures forall i :: 0 <= i < |r| ==> !IsMarkup(r[i])
    decreases |s|
  {
    if |s| == 0 then "" else EscapeChar(s[0]) + EscapeHtml(s[1..])
  }

  lemma ReplaceInSingle(c: char, d: char, with: string)
    ensures ReplaceAll([c], d, with) == if c == d then with else [c]
  {
    assert [c][1..] == [];
  }

  lemma SanitizeChar(c: char)
    ensures SanitizeHtml([c]) == EscapeChar(c)
  {
    ReplaceInSingle(c, '&', "&amp;");
    if c == '&' {
      assert !HasChar("&amp;", '<') && !HasChar("&amp;", '>') && !HasChar("&amp;", '"') && !HasChar("&amp;", '\'');
      return;
    }
    ReplaceInSingle(c, '<', "&lt;");
    if c == '<' {
      assert !HasChar("&lt;", '>') && !HasChar("&lt;", '"') && !HasChar("&lt;", '\'');
      return;
    }
    ReplaceInSingle(c, '>', "&gt;");
    if c == '>' {
      assert !HasChar("&gt;", '"') && !HasChar("&gt;", '\'');
      return;
    }
    ReplaceInSingle(c, '"', "&quot;");
    if c == '"' {
      assert !HasChar("&quot;", '\'');
      return;
    }
    ReplaceInSingle(c, '\'', "&#039;");
  }

  /** Because `&` is replaced first, no replacement touches the entities an earlier one
      produced: the chain escapes each character exactly once. */
  lemma {:induction false} SanitizeIsEscape(s: string)
    ensures SanitizeHtml(s) == EscapeHtml(s)
    decreases |s|
  {
    if |s| > 0 {
      var c, rest := s[0], s[1..];
      assert s == [c] + rest;
      var t0 := ReplaceAll(s, '&', "&amp;");
      ReplaceAllAppend([c], rest, '&', "&amp;");
      var a1, b1 := ReplaceAll([c], '&', "&amp;"), ReplaceAll(rest, '&', "&amp;");
      ReplaceAllAppend(a1, b1, '<', "&lt;");
      var a2, b2 := ReplaceAll(a1, '<', "&lt;"), ReplaceAll(b1, '<', "&lt;");
      ReplaceAllAppend(a2, b2, '>', "&gt;");
      var a3, b3 := ReplaceAll(a2, '>', "&gt;"), ReplaceAll(b2, '>', "&gt;");
      ReplaceAllAppend(a3, b3, '"', "&quot;");
      var a4, b4 := ReplaceAll(a3, '"', "&quot;"), ReplaceAll(b3, '"', "&quot;");
      ReplaceAllAppend(a4, b4, '\'', "&#039;");
      assert SanitizeHtml(s) == SanitizeHtml([c]) + SanitizeHtml(rest);
      SanitizeChar(c);
      SanitizeIsEscape(rest);
    }
  }

  /** The escaped text carries no character that could open a tag or close an attribute. */
  lemma SanitizedHasNoMarkup(s: string)
    ensures forall i :: 0 <= i < |SanitizeHtml(s)| ==> !IsMarkup(SanitizeHtml(s)[i])
  {
    SanitizeIsEscape(s);
  }

  /** Text without any of the five special characters is left as it is. */
  lemma PlainTextUnchanged(s: string)
    requires forall i :: 0 <= i < |s| ==> !IsMarkup(s[i]) && s[i] != '&'
    ensures SanitizeHtml(s) == s
  {
    assert !HasChar(s, '&') && !HasChar(s, '<') && !HasChar(s, '>') && !HasChar(s, '"') && !HasChar(s, '\'');
  }

  /** Decoding of the five entities, the way a browser reads the escaped text. */
  function UnescapeHtml(s: string): string
    decreases |s|
  {
    if |s| == 0 then ""
    else if s[0] != '&' then [s[0]] + UnescapeHtml(s[1..])
    else if StartsWith(s, "&amp;") then "&" + UnescapeHtml(s[5..])
    else if StartsWith(s, "&lt;") then "<" + UnescapeHtml(s[4..])
    else if StartsWith(s, "&gt;") then ">" + UnescapeHtml(s[4..])
    else if StartsWith(s, "&quot;") then "\"" + UnescapeHtml(s[6..])
    else if StartsWith(s, "&#039;") then "'" + UnescapeHtml(s[6..])
    else [s[0]] + UnescapeHtml(s[1..])
  }

  /** Reading an entity at the front consumes exactly that entity. */
  lemma UnescapeEntity(c: char, ent: string, rest: string)
    requires IsMarkup(c) || c == '&'
    requires ent == EscapeChar(c)
    ensures UnescapeHtml(ent + rest) == [c] + UnescapeHtml(rest)
  {
    var e := ent + rest;
    assert e[..|ent|] == ent && e[|ent|..] == rest;
    assert e[0] == '&';
    if c == '&' {
      assert StartsWith(e, "&amp;");
    } else {
      assert e[1] == ent[1];
      if c == '<' {
        assert StartsWith(e, "&lt;");
      } else if c == '>' {
        assert StartsWith(e, "&gt;");
      } else if c == '"' {
        assert StartsWith(e, "&quot;");
      } else {
        assert StartsWith(e, "&#039;");
      }
    }
  }

  lemma UnescapeOneChar(c: char, rest: string)
    ensures UnescapeHtml(EscapeChar(c) + rest) == [c] + UnescapeHtml(rest)
  {
    if IsMarkup(c) || c == '&' {
      UnescapeEntity(c, EscapeChar(c), rest);
    } else {
      var e := [c] + rest;
      assert e[0] == c && e[1..] == rest;
    }
  }

  /** Decoding the entities gives the original text back: nothing is lost or altered. */
  lemma {:induction false} UnescapeSanitize(s: string)
    ensures UnescapeHtml(SanitizeHtml(s)) == s
  {
    SanitizeIsEscape(s);
    UnescapeEscape(s);
  }

  lemma {:induction false} UnescapeEscape(s: string)
    ensures UnescapeHtml(EscapeHtml(s)) == s
    decreases |s|
  {
    if |s| > 0 {
      UnescapeOneChar(s[0], EscapeHtml(s[1..]));
      UnescapeEscape(s[1..]);
      assert [s[0]] + s[1..] == s;
    }
  }

  // ---------------------------------------------------------------------------
  // The list of approved clients
  // ---------------------------------------------------------------------------

  /** The list the approval writes: the ids already approved and the new client id, each
      once. */
  function MergeApproved(existing: seq<string>, clientId: Json): (r: seq<Json>)
    ensures clientId in r && NoDuplicates(r)
    ensures forall x :: x in r <==> x == clientId || exists i :: 0 <= i < |existing| && x == JString(existing[i])
  {
    var all := AsJson(existing) + [clientId];
    assert all[|existing|] == clientId;
    assert forall x :: x in all <==> x == clientId || exists i :: 0 <= i < |existing| && x == JString(existing[i]) by {
      forall x ensures x in all <==> x == clientId || exists i :: 0 <= i < |existing| && x == JString(existing[i]) {
        if x in all && x != clientId {
          var k :| 0 <= k < |all| && all[k] == x;
          assert x == JString(existing[k]);
        }
        if exists i :: 0 <= i < |existing| && x == JString(existing[i]) {
          var i :| 0 <= i < |existing| && x == JString(existing[i]);
          assert all[i] == x;
        }
      }
    }
    Dedupe(all)
  }

  lemma MergeOfStringsIsStrings(existing: seq<string>, clientId: Json)
    requires clientId.JString?
    ensures AllStrings(MergeApproved(existing, clientId))
  {
    var r := MergeApproved(existing, clientId);
    forall i | 0 <= i < |r| ensures r[i].JString? {
      assert r[i] in r;
    }
  }

  /** For a list the writer produced itself (no repeats), approving appends the id unless it
      is already on the list, which then stays as it was. */
  lemma MergeAppendsNewClient(existing: seq<string>, clientId: string)
    requires NoDuplicates(existing)
    ensures MergeApproved(existing, JString(clientId))
            == if clientId in existing then AsJson(existing) else AsJson(existing) + [JString(clientId)]
  {
    var all := AsJson(existing) + [JString(clientId)];
    assert NoDuplicates(AsJson(existing));
    DedupeOfDistinct(AsJson(existing));
    assert all[..|existing|] == AsJson(existing);
    assert JString(clientId) in AsJson(existing) <==> clientId in existing by {
      if clientId in existing {
        var i :| 0 <= i < |existing| && existing[i] == clientId;
        assert AsJson(existing)[i] == JString(clientId);
      }
    }
  }

  // ---------------------------------------------------------------------------
  // Reading the cookie
  // ---------------------------------------------------------------------------

  const CookieName: string := "mcp-approved-clients"
  const OneYearInSeconds: nat := 31536000

  /** What a matching cookie starts with. */
  const CookiePrefix: string := CookieName + "="

  /** `importKey` refuses an empty secret with this message. */
  const SecretMissing: string := "COOKIE_SECRET is not defined. A secret key is required for signing cookies."

  /** The name of the exception `atob` and `btoa` throw on text they cannot take. */
  const InvalidCharacter: string := "InvalidCharacterError"

  /** The cookies of a `Cookie` header: split at `;`, each piece trimmed. */
  function Cookies(header: string): (r: seq<string>)
    ensures |r| == |Split(header, ';')|
    ensures forall i :: 0 <= i < |r| ==> r[i] == JsTrim(Split(header, ';')[i])
  {
    var parts := Split(header, ';');
    seq(|parts|, i requires 0 <= i < |parts| => JsTrim(parts[i]))
  }

  /** `cookies.find(...)`: the first cookie that starts with the cookie name and `=`. */
  function FindCookie(cookies: seq<string>): (r: Option<string>)
    ensures r.None? <==> forall i :: 0 <= i < |cookies| ==> !StartsWith(cookies[i], CookiePrefix)
    ensures r.Some? ==> exists i :: 0 <= i < |cookies| && cookies[i] == r.value
                                    && StartsWith(cookies[i], CookiePrefix)
                                    && forall j :: 0 <= j < i ==> !StartsWith(cookies[j], CookiePrefix)
    decreases |cookies|
  {
    if |cookies| == 0 then None
    else if StartsWith(cookies[0], CookiePrefix) then Some(cookies[0])
    else
      var r := FindCookie(cookies[1..]);
      assert forall i :: 1 <= i < |cookies| ==> cookies[i] == cookies[1..][i - 1];
      r
  }

  /** What `getApprovedClientsFromCookie` ends with: no list (`null`), a list, or an
      exception it lets escape. */
  datatype Read = NoList | Approved(ids: seq<string>) | Throws(error: string)

  /** The last step of the reader: only a JSON array of strings is a list. */
  function ReadPayload(json: Option<Json>): (r: Read)
    ensures !r.Throws?
    ensures r.Approved? <==> json.Some? && json.value.JArray? && AllStrings(json.value.items)
    ensures r.Approved? ==> json == Some(JArray(AsJson(r.ids)))
  {
    if json.Some? && json.value.JArray? && AllStrings(json.value.items) then Approved(Texts(json.value.items))
    else NoList
  }

  /** The reader once the cookie is found: `signature.payload`, the payload in base64. */
  function ReadCookieValue(value: string, secret: string, mac: (string, string) -> seq<Byte>,
                           parse: string -> Option<Json>): (r: Read)
    ensures r.Throws? ==> r.error in {InvalidCharacter, SecretMissing}
    ensures r.Throws? && r.error == SecretMissing ==> secret == ""
    ensures r.Approved? ==>
              var parts := Split(value, '.');
              |parts| == 2 && Atob(parts[1]).Some? && secret != ""
              && VerifySignature(mac, secret, parts[0], Atob(parts[1]).value)
              && parse(Atob(parts[1]).value) == Some(JArray(AsJson(r.ids)))
  {
    var parts := Split(value, '.');
    if |parts| != 2 then NoList
    else
      match Atob(parts[1])
      case None => Throws(InvalidCharacter)
      case Some(payload) =>
        if secret == "" then Throws(SecretMissing)
        else if !VerifySignature(mac, secret, parts[0], payload) then NoList
        else ReadPayload(parse(payload))
  }

  /** `getApprovedClientsFromCookie(cookieHeader, secret)`. */
  function ReadApprovedClients(header: Option<string>, secret: string,
                               mac: (string, string) -> seq<Byte>,
                               parse: string -> Option<Json>): (r: Read)
    ensures header.None? || header == Some("") ==> r == NoList
    ensures header.Some? && FindCookie(Cookies(header.value)).None? ==> r == NoList
    ensures r.Throws? ==> r.error in {InvalidCharacter, SecretMissing}
    ensures r.Throws? && r.error == SecretMissing ==> secret == ""
    // a list only from a cookie whose signature verifies over a JSON array of strings
    ensures r.Approved? ==>
              header.Some? && FindCookie(Cookies(header.value)).Some?
              && var parts := Split(FindCookie(Cookies(header.value)).value[|CookiePrefix|..], '.');
                 |parts| == 2 && Atob(parts[1]).Some? && secret != ""
                 && VerifySignature(mac, secret, parts[0], Atob(parts[1]).value)
                 && parse(Atob(parts[1]).value) == Some(JArray(AsJson(r.ids)))
  {
    if header.None? || header.value == "" then NoList
    else
      match FindCookie(Cookies(header.value))
      case None => NoList
      case Some(cookie) => ReadCookieValue(cookie[|CookiePrefix|..], secret, mac, parse)
  }

  /** `clientIdAlreadyApproved`: an empty id is never approved; an exception of the reader
      escapes; otherwise the id is approved iff the cookie's list holds it. */
  function ClientIdAlreadyApproved(clientId: string, header: Option<string>, secret: string,
                                   mac: (string, string) -> seq<Byte>,
                                   parse: string -> Option<Json>): (r: Result<bool, string>)
    ensures clientId == "" ==> r == Success(false)
    ensures r == Success(true) <==>
              clientId != "" && var read := ReadApprovedClients(header, secret, mac, parse);
                                read.Approved? && clientId in read.ids
    ensures r.Failure? <==> clientId != "" && ReadApprovedClients(header, secret, mac, parse).Throws?
    ensures r.Failure? ==> r.error == ReadApprovedClients(header, secret, mac, parse).error
  {
    if clientId == "" then Success(false)
    else
      match ReadApprovedClients(header, secret, mac, parse)
      case Throws(e) => Failure(e)
      case NoList => Success(false)
      case Approved(ids) => Success(clientId in ids)
  }

  /** A cookie of the right shape whose payload is not base64 does not count as "not
      approved": the exception of `atob` escapes the reader and the check. */
  lemma MalformedPayloadThrows(clientId: string, secret: string,
                               mac: (string, string) -> seq<Byte>, parse: string -> Option<Json>)
    requires clientId != ""
    ensures ClientIdAlreadyApproved(clientId, Some(CookiePrefix + "00.a"), secret, mac, parse)
            == Failure(InvalidCharacter)
  {
    ReadMalformedPayload(secret, mac, parse);
  }

  lemma ReadMalformedPayload(secret: string, mac: (string, string) -> seq<Byte>, parse: string -> Option<Json>)
    ensures ReadApprovedClients(Some(CookiePrefix + "00.a"), secret, mac, parse) == Throws(InvalidCharacter)
  {
    MalformedValueParts();
    assert !HasChar("00", '.') && !HasChar("00", ';') && !HasChar("a", '.') && !HasChar("a", ';');
    LoneCharacterRefused('a');
    UndecodablePayloadThrows("00", "a", secret, mac, parse);
  }

  lemma MalformedValueParts()
    ensures "00.a" == "00" + "." + "a"
  {
  }

  /** A lone approval cookie whose payload is not base64 makes the reader throw. */
  lemma UndecodablePayloadThrows(sig: string, payload64: string, secret: string,
                                 mac: (string, string) -> seq<Byte>, parse: string -> Option<Json>)
    requires !HasChar(sig, '.') && !HasChar(sig, ';')
    requires !HasChar(payload64, '.') && !HasChar(payload64, ';')
    requires |payload64| > 0 && !IsJsSpace(payload64[|payload64| - 1])
    requires Atob(payload64).None?
    ensures ReadApprovedClients(Some(CookiePrefix + (sig + "." + payload64)), secret, mac, parse) == Throws(InvalidCharacter)
  {
    var h := CookiePrefix + (sig + "." + payload64);
    SingleCookieHeader(sig, payload64);
    assert h != "";
    assert ReadCookieValue(h[|CookiePrefix|..], secret, mac, parse) == Throws(InvalidCharacter);
  }

  /** A header without `;` and without surrounding whitespace is a single cookie. */
  lemma OnlyCookie(h: string)
    requires |h| > 0 && !HasChar(h, ';') && !IsJsSpace(h[0]) && !IsJsSpace(h[|h| - 1])
    ensures Cookies(h) == [h]
  {
    SplitWithoutSeparator(h, ';');
    TrimOfUnpadded(h, IsJsSpace);
  }

  lemma HeaderWithoutSemicolon(sig: string, payload64: string)
    requires !HasChar(sig, ';') && !HasChar(payload64, ';')
    ensures !HasChar(CookiePrefix + (sig + "." + payload64), ';')
  {
    var v := sig + "." + payload64;
    var h := CookiePrefix + v;
    forall i | 0 <= i < |h| ensures h[i] != ';' {
      if i >= |CookiePrefix| {
        assert h[i] == v[i - |CookiePrefix|];
        var k := i - |CookiePrefix|;
        if k < |sig| {
          assert v[k] == sig[k];
        } else if k > |sig| {
          assert v[k] == payload64[k - |sig| - 1];
        }
      }
    }
  }

  /** A header holding just the approval cookie, `name=signature.payload`, is found and
      split into the signature and the payload. */
  lemma SingleCookieHeader(sig: string, payload64: string)
    requires !HasChar(sig, '.') && !HasChar(sig, ';')
    requires !HasChar(payload64, '.') && !HasChar(payload64, ';')
    requires |payload64| > 0 ==> !IsJsSpace(payload64[|payload64| - 1])
    ensures var h := CookiePrefix + (sig + "." + payload64);
            FindCookie(Cookies(h)) == Some(h) && Split(h[|CookiePrefix|..], '.') == [sig, payload64]
  {
    SingleCookieFound(sig, payload64);
    SingleCookieParts(sig, payload64);
  }

  lemma SingleCookieFound(sig: string, payload64: string)
    requires !HasChar(sig, ';') && !HasChar(payload64, ';')
    requires |payload64| > 0 ==> !IsJsSpace(payload64[|payload64| - 1])
    ensures var h := CookiePrefix + (sig + "." + payload64);
            FindCookie(Cookies(h)) == Some(h)
  {
    var v := sig + "." + payload64;
    var h := CookiePrefix + v;
    HeaderWithoutSemicolon(sig, payload64);
    assert h[0] == 'm';
    assert h[|h| - 1] == v[|v| - 1];
    assert v[|v| - 1] == if |payload64| > 0 then payload64[|payload64| - 1] else '.';
    OnlyCookie(h);
    assert h[..|CookiePrefix|] == CookiePrefix;
  }

  lemma SingleCookieParts(sig: string, payload64: string)
    requires !HasChar(sig, '.') && !HasChar(payload64, '.')
    ensures var h := CookiePrefix + (sig + "." + payload64);
            Split(h[|CookiePrefix|..], '.') == [sig, payload64]
  {
    var v := sig + "." + payload64;
    var h := CookiePrefix + v;
    assert h[|CookiePrefix|..] == v;
    SplitJoin([sig, payload64], '.');
  }

  // ---------------------------------------------------------------------------
  // Writing the cookie
  // ---------------------------------------------------------------------------

  /** The attributes of the `Set-Cookie` header, ending with one year as `Max-Age`. */
  const CookieAttributes: string := "; HttpOnly; Secure; Path=/; SameSite=Lax; Max-Age=31536000"

  const MethodError: string := "Invalid request method. Expected POST."
  const FormErrorPrefix: string := "Failed to parse approval form: "
  const StateMissing: string := "Missing or invalid 'state' in form data."
  const StateUndecodable: string := "Could not decode state"
  const ClientIdMissing: string := "Could not extract clientId from state object."

  /** The `state` entry of the submitted form, or why there is none. */
  datatype FormState =
    | FormUnreadable(message: string)   // `request.formData()` throws with this message
    | NoState
    | FileState                         // an uploaded file instead of text
    | TextState(value: string)

  /** What `parseRedirectApproval` returns: the value of the new cookie (the `Set-Cookie`
      header is `SetCookieHeader(cookieValue)`) and the decoded state. */
  datatype Approval = Approval(cookieValue: string, state: Json)

  function SetCookieHeader(cookieValue: string): (r: string)
    ensures StartsWith(r, CookiePrefix) && EndsWith(r, CookieAttributes)
    ensures |r| == |CookiePrefix| + |cookieValue| + |CookieAttributes|
    ensures r[|CookiePrefix|..|r| - |CookieAttributes|] == cookieValue
  {
    var r := CookiePrefix + cookieValue + CookieAttributes;
    assert r[..|CookiePrefix|] == CookiePrefix;
    assert r[|r| - |CookieAttributes|..] == CookieAttributes;
    assert r[|CookiePrefix|..|r| - |CookieAttributes|] == cookieValue;
    r
  }

  /** `decodeState`: base64, then JSON; either failing is the same failure. */
  function DecodeState(encoded: string, parse: string -> Option<Json>): (r: Option<Json>)
    ensures r.Some? <==> Atob(encoded).Some? && parse(Atob(encoded).value).Some?
  {
    match Atob(encoded)
    case None => None
    case Some(text) => parse(text)
  }

  /** `state?.oauthReqInfo?.clientId`. */
  function ClientIdOf(state: Json): Option<Json> {
    Member(Member(Some(state), "oauthReqInfo"), "clientId")
  }

  /** `(await getApprovedClientsFromCookie(...)) || []` once the reader has not thrown. */
  function ExistingIds(read: Read): seq<string> {
    if read.Approved? then read.ids else []
  }

  /** `parseRedirectApproval`, with the request given as its method, the form's `state`
      entry and its `Cookie` header. */
  function ParseRedirectApproval(verb: string, form: FormState, header: Option<string>, secret: string,
                                 mac: (string, string) -> seq<Byte>,
                                 stringify: Json -> string, parse: string -> Option<Json>): (r: Result<Approval, string>)
    ensures verb != "POST" ==> r == Failure(MethodError)
    ensures verb == "POST" && form.FormUnreadable? ==> r == Failure(FormErrorPrefix + form.message)
    ensures verb == "POST" && (form == NoState || form == FileState || form == TextState(""))
            ==> r == Failure(FormErrorPrefix + StateMissing)
    ensures verb == "POST" && form.TextState? && form.value != "" && DecodeState(form.value, parse).None?
            ==> r == Failure(FormErrorPrefix + StateUndecodable)
    ensures verb == "POST" && form.TextState? && form.value != ""
            && DecodeState(form.value, parse).Some? && !Truthy(ClientIdOf(DecodeState(form.value, parse).value))
            ==> r == Failure(FormErrorPrefix + ClientIdMissing)
    // success needs a decodable state naming a client, a reader that did not throw and a secret
    ensures r.Success? ==>
              verb == "POST" && form.TextState? && DecodeState(form.value, parse) == Some(r.value.state)
              && Truthy(ClientIdOf(r.value.state))
              && !ReadApprovedClients(header, secret, mac, parse).Throws? && secret != ""
    // and the cookie value is the signature, a dot and the base64 payload of the new list
    ensures r.Success? ==>
              var updated := MergeApproved(ExistingIds(ReadApprovedClients(header, secret, mac, parse)),
                                           ClientIdOf(r.value.state).value);
              var payload := stringify(JArray(updated));
              IsLatin1(payload)
              && r.value.cookieValue == SignData(mac, secret, payload) + "." + Btoa(payload).value
  {
    if verb != "POST" then Failure(MethodError)
    else if form.FormUnreadable? then Failure(FormErrorPrefix + form.message)
    else if !form.TextState? || form.value == "" then Failure(FormErrorPrefix + StateMissing)
    else
      match DecodeState(form.value, parse)
      case None => Failure(FormErrorPrefix + StateUndecodable)
      case Some(state) =>
        var clientId := ClientIdOf(state);
        if !Truthy(clientId) then Failure(FormErrorPrefix + ClientIdMissing)
        else
          var read := ReadApprovedClients(header, secret, mac, parse);
          if read.Throws? then Failure(read.error)
          else
            var payload := stringify(JArray(MergeApproved(ExistingIds(read), clientId.value)));
            if secret == "" then Failure(SecretMissing)
            else
              match Btoa(payload)
              case None => Failure(InvalidCharacter)
              case Some(encoded) => Success(Approval(SignData(mac, secret, payload) + "." + encoded, state))
  }

  /** Hex digits and the base64 alphabet hold neither `.` nor `;`, and base64 never ends
      in whitespace. */
  lemma CookieValuePartsAreSafe(mac: (string, string) -> seq<Byte>, secret: string, payload: string)
    requires IsLatin1(payload)
    ensures var sig := SignData(mac, secret, payload);
            !HasChar(sig, '.') && !HasChar(sig, ';')
    ensures var b64 := Btoa(payload).value;
            !HasChar(b64, '.') && !HasChar(b64, ';') && (|b64| > 0 ==> !IsJsSpace(b64[|b64| - 1]))
  {
    var sig := ToHex(mac(secret, payload));
    assert forall i :: 0 <= i < |sig| ==> IsLowerHexDigit(sig[i]);
    EncodingIsCookieSafe(CodesOf(payload));
  }

  /** The cookie the approval writes is read back by the next request: if the JSON
      functions round-trip the new list and the MAC is not empty, the reader verifies the
      signature and returns exactly the merged list. */
  lemma WrittenCookieReadsBack(verb: string, form: FormState, header: Option<string>, secret: string,
                               mac: (string, string) -> seq<Byte>,
                               stringify: Json -> string, parse: string -> Option<Json>)
    requires ParseRedirectApproval(verb, form, header, secret, mac, stringify, parse).Success?
    requires var a := ParseRedirectApproval(verb, form, header, secret, mac, stringify, parse).value;
             var clientId := ClientIdOf(a.state).value;
             var updated := MergeApproved(ExistingIds(ReadApprovedClients(header, secret, mac, parse)), clientId);
             clientId.JString?
             && parse(stringify(JArray(updated))) == Some(JArray(updated))
             && |mac(secret, stringify(JArray(updated)))| > 0
    ensures var a := ParseRedirectApproval(verb, form, header, secret, mac, stringify, parse).value;
            var updated := MergeApproved(ExistingIds(ReadApprovedClients(header, secret, mac, parse)),
                                         ClientIdOf(a.state).value);
            var again := ReadApprovedClients(Some(CookiePrefix + a.cookieValue), secret, mac, parse);
            again.Approved? && AsJson(again.ids) == updated
  {
    var a := ParseRedirectApproval(verb, form, header, secret, mac, stringify, parse).value;
    var clientId := ClientIdOf(a.state).value;
    var updated := MergeApproved(ExistingIds(ReadApprovedClients(header, secret, mac, parse)), clientId);
    WrittenCookieOpens(verb, form, header, secret, mac, stringify, parse);
    MergeOfStringsIsStrings(ExistingIds(ReadApprovedClients(header, secret, mac, parse)), clientId);
  }

  /** A state whose client id is truthy but not a string (a number, say) is approved, yet
      the cookie written for it never reads back: the reader refuses a list holding a
      non-string, so every id on it is forgotten. */
  lemma NonStringClientIdForgetsList(verb: string, form: FormState, header: Option<string>, secret: string,
                                     mac: (string, string) -> seq<Byte>,
                                     stringify: Json -> string, parse: string -> Option<Json>)
    requires ParseRedirectApproval(verb, form, header, secret, mac, stringify, parse).Success?
    requires var a := ParseRedirectApproval(verb, form, header, secret, mac, stringify, parse).value;
             var clientId := ClientIdOf(a.state).value;
             var updated := MergeApproved(ExistingIds(ReadApprovedClients(header, secret, mac, parse)), clientId);
             !clientId.JString?
             && parse(stringify(JArray(updated))) == Some(JArray(updated))
             && |mac(secret, stringify(JArray(updated)))| > 0
    ensures var a := ParseRedirectApproval(verb, form, header, secret, mac, stringify, parse).value;
            ReadApprovedClients(Some(CookiePrefix + a.cookieValue), secret, mac, parse) == NoList
  {
    var a := ParseRedirectApproval(verb, form, header, secret, mac, stringify, parse).value;
    var clientId := ClientIdOf(a.state).value;
    var updated := MergeApproved(ExistingIds(ReadApprovedClients(header, secret, mac, parse)), clientId);
    WrittenCookieOpens(verb, form, header, secret, mac, stringify, parse);
    var k :| 0 <= k < |updated| && updated[k] == clientId;
    assert !AllStrings(updated);
  }

  /** The written cookie is found, split, decoded and its signature verifies, so what the
      reader returns is decided by the JSON payload alone. */
  lemma WrittenCookieOpens(verb: string, form: FormState, header: Option<string>, secret: string,
                           mac: (string, string) -> seq<Byte>,
                           stringify: Json -> string, parse: string -> Option<Json>)
    requires ParseRedirectApproval(verb, form, header, secret, mac, stringify, parse).Success?
    requires var a := ParseRedirectApproval(verb, form, header, secret, mac, stringify, parse).value;
             var updated := MergeApproved(ExistingIds(ReadApprovedClients(header, secret, mac, parse)),
                                          ClientIdOf(a.state).value);
             |mac(secret, stringify(JArray(updated)))| > 0
    ensures var a := ParseRedirectApproval(verb, form, header, secret, mac, stringify, parse).value;
            var updated := MergeApproved(ExistingIds(ReadApprovedClients(header, secret, mac, parse)),
                                         ClientIdOf(a.state).value);
            ReadApprovedClients(Some(CookiePrefix + a.cookieValue), secret, mac, parse)
            == ReadPayload(parse(stringify(JArray(updated))))
  {
    var a := ParseRedirectApproval(verb, form, header, secret, mac, stringify, parse).value;
    var clientId := ClientIdOf(a.state).value;
    var updated := MergeApproved(ExistingIds(ReadApprovedClients(header, secret, mac, parse)), clientId);
    var payload := stringify(JArray(updated));
    var sig := SignData(mac, secret, payload);
    var b64 := Btoa(payload).value;
    CookieValuePartsAreSafe(mac, secret, payload);
    SingleCookieHeader(sig, b64);
    AtobBtoa(payload);
    SignThenVerify(mac, secret, payload);
    ReadOfSignedValue(CookiePrefix + (sig + "." + b64), sig, b64, payload, secret, mac, parse);
  }

  lemma ReadOfSignedValue(h: string, sig: string, b64: string, payload: string, secret: string,
                          mac: (string, string) -> seq<Byte>, parse: string -> Option<Json>)
    requires h != "" && FindCookie(Cookies(h)) == Some(h) && Split(h[|CookiePrefix|..], '.') == [sig, b64]
    requires Atob(b64) == Some(payload) && secret != "" && VerifySignature(mac, secret, sig, payload)
    ensures ReadApprovedClients(Some(h), secret, mac, parse) == ReadPayload(parse(payload))
  {
    assert ReadCookieValue(h[|CookiePrefix|..], secret, mac, parse) == ReadPayload(parse(payload));
  }
}
