/** `btoa` and `atob` as the approval cookie uses them: the base64 encoding of section 4
    of RFC 4648 applied to a Latin-1 string, and the forgiving decoder of the WHATWG
    Infra standard (whitespace removed, one or two trailing `=` dropped, anything outside
    the alphabet refused). A refusal is `None` where the browser would throw. */
module Base64 {
  import opened Wrappers
  import opened Text

  // ---------------------------------------------------------------------------
  // The alphabet
  // ---------------------------------------------------------------------------

  predicate IsAlphabetChar(c: char) {
    'A' <= c <= 'Z' || 'a' <= c <= 'z' || '0' <= c <= '9' || c == '+' || c == '/'
  }

  function SextetChar(v: nat): (c: char)
    requires v < 64
    ensures IsAlphabetChar(c)
  {
    if v < 26 then ('A' as int + v) as char
    else if v < 52 then ('a' as int + v - 26) as char
    else if v < 62 then ('0' as int + v - 52) as char
    else if v == 62 then '+'
    else '/'
  }

  function SextetValue(c: char): (v: nat)
    requires IsAlphabetChar(c)
    ensures v < 64 && SextetChar(v) == c
  {
    if 'A' <= c <= 'Z' then c as int - 'A' as int
    else if 'a' <= c <= 'z' then c as int - 'a' as int + 26
    else if '0' <= c <= '9' then c as int - '0' as int + 52
    else if c == '+' then 62
    else 63
  }

  lemma SextetRoundTrip(v: nat)
    requires v < 64
    ensures SextetValue(SextetChar(v)) == v
  {
  }

  predicate AllSextets(v: seq<nat>) {
    forall i :: 0 <= i < |v| ==> v[i] < 64
  }

  function CharsOf(v: seq<nat>): (r: string)
    requires AllSextets(v)
    ensures |r| == |v| && forall i :: 0 <= i < |v| ==> r[i] == SextetChar(v[i])
  {
    seq(|v|, i requires 0 <= i < |v| => SextetChar(v[i]))
  }

  function ValuesOf(s: string): (r: seq<nat>)
    requires forall i :: 0 <= i < |s| ==> IsAlphabetChar(s[i])
    ensures |r| == |s| && AllSextets(r)
    ensures forall i :: 0 <= i < |s| ==> r[i] == SextetValue(s[i])
  {
    seq(|s|, i requires 0 <= i < |s| => SextetValue(s[i]))
  }

  // ---------------------------------------------------------------------------
  // Encoding
  // ---------------------------------------------------------------------------

  /** Four sextets per full group of three bytes; a final group of one or two bytes
      gives two or three sextets, its missing bits zero. */
  function Sextets(b: seq<Byte>): (r: seq<nat>)
    ensures AllSextets(r)
    ensures |r| == 4 * (|b| / 3) + (if |b| % 3 == 0 then 0 else |b| % 3 + 1)
    decreases |b|
  {
    if |b| == 0 then []
    else if |b| == 1 then [b[0] / 4, (b[0] % 4) * 16]
    else if |b| == 2 then [b[0] / 4, (b[0] % 4) * 16 + b[1] / 16, (b[1] % 16) * 4]
    else [b[0] / 4, (b[0] % 4) * 16 + b[1] / 16, (b[1] % 16) * 4 + b[2] / 64, b[2] % 64] + Sextets(b[3..])
  }

  function Padding(n: nat): string {
    if n % 3 == 1 then "==" else if n % 3 == 2 then "=" else ""
  }

  function Encode(b: seq<Byte>): (r: string)
    ensures |r| % 4 == 0
    ensures forall i :: 0 <= i < |r| ==> IsAlphabetChar(r[i]) || r[i] == '='
  {
    CharsOf(Sextets(b)) + Padding(|b|)
  }

  /** `btoa`: refuses a character wider than one byte. */
  function Btoa(s: string): (r: Option<string>)
    ensures r.Some? <==> IsLatin1(s)
  {
    if IsLatin1(s) then Some(Encode(CodesOf(s))) else None
  }

  // ---------------------------------------------------------------------------
  // Forgiving decoding
  // ---------------------------------------------------------------------------

  /** TAB, LF, FF, CR and SPACE. */
  predicate IsAsciiWhitespace(c: char) {
    c == '\t' || c == '\n' || c as int == 12 || c == '\r' || c == ' '
  }

  function RemoveWhitespace(s: string): (r: string)
    ensures |r| <= |s|
    ensures forall i :: 0 <= i < |r| ==> !IsAsciiWhitespace(r[i])
    ensures (forall i :: 0 <= i < |s| ==> !IsAsciiWhitespace(s[i])) ==> r == s
  {
    if |s| == 0 then []
    else (if IsAsciiWhitespace(s[0]) then [] else [s[0]]) + RemoveWhitespace(s[1..])
  }

  /** A length divisible by four loses one or two trailing `=`. */
  function StripPadding(t: string): string {
    if |t| % 4 == 0 && EndsWith(t, "==") then t[..|t| - 2]
    else if |t| % 4 == 0 && EndsWith(t, "=") then t[..|t| - 1]
    else t
  }

  function DecodeSextets(v: seq<nat>): (r: seq<Byte>)
    requires AllSextets(v) && |v| % 4 != 1
    decreases |v|
  {
    if |v| == 0 then []
    else if |v| == 2 then [v[0] * 4 + v[1] / 16]
    else if |v| == 3 then [v[0] * 4 + v[1] / 16, (v[1] % 16) * 16 + v[2] / 4]
    else [v[0] * 4 + v[1] / 16, (v[1] % 16) * 16 + v[2] / 4, (v[2] % 4) * 64 + v[3]] + DecodeSextets(v[4..])
  }

  /** `atob`. */
  function Atob(s: string): (r: Option<string>)
    ensures r.Some? ==> IsLatin1(r.value)
    ensures r.Some? ==> var u := StripPadding(RemoveWhitespace(s));
                        |u| % 4 != 1 && forall i :: 0 <= i < |u| ==> IsAlphabetChar(u[i])
  {
    var u := StripPadding(RemoveWhitespace(s));
    if |u| % 4 == 1 then None
    else if exists i :: 0 <= i < |u| && !IsAlphabetChar(u[i]) then None
    else Some(CharsOfBytes(DecodeSextets(ValuesOf(u))))
  }

  // ---------------------------------------------------------------------------
  // Properties
  // ---------------------------------------------------------------------------

  lemma GroupRoundTrip(b0: Byte, b1: Byte, b2: Byte)
    ensures b0 / 4 * 4 + ((b0 % 4) * 16 + b1 / 16) / 16 == b0
    ensures (((b0 % 4) * 16 + b1 / 16) % 16) * 16 + ((b1 % 16) * 4 + b2 / 64) / 4 == b1
    ensures (((b1 % 16) * 4 + b2 / 64) % 4) * 64 + b2 % 64 == b2
  {
  }

  lemma {:induction false} DecodeOfSextets(b: seq<Byte>)
    ensures DecodeSextets(Sextets(b)) == b
    decreases |b|
  {
    if |b| >= 3 {
      GroupRoundTrip(b[0], b[1], b[2]);
      var v := Sextets(b);
      DecodeOfSextets(b[3..]);
      assert v[4..] == Sextets(b[3..]);
    } else if |b| == 2 {
      GroupRoundTrip(b[0], b[1], 0);
    } else if |b| == 1 {
      GroupRoundTrip(b[0], 0, 0);
    }
  }

  lemma ValuesOfChars(v: seq<nat>)
    requires AllSextets(v)
    ensures ValuesOf(CharsOf(v)) == v
  {
    forall i | 0 <= i < |v| ensures ValuesOf(CharsOf(v))[i] == v[i] {
      SextetRoundTrip(v[i]);
    }
  }

  /** The padding is exactly what the forgiving decoder drops. */
  lemma StripEncodedPadding(b: seq<Byte>)
    ensures StripPadding(Encode(b)) == CharsOf(Sextets(b))
  {
    var body := CharsOf(Sextets(b));
    assert |body| > 0 ==> body[|body| - 1] != '=' by {
      CharsOfInAlphabet(Sextets(b));
      assert |body| > 0 ==> IsAlphabetChar(body[|body| - 1]);
    }
    BodyLengthMod4(|b|);
    assert Encode(b) == body + Padding(|b|);
    if |b| % 3 == 1 {
      StripTwo(body);
    } else if |b| % 3 == 2 {
      StripOne(body);
    } else {
      assert body + Padding(|b|) == body;
      StripNone(body);
    }
  }

  /** The number of sextet characters, modulo four, for `n` bytes. */
  lemma BodyLengthMod4(n: nat)
    ensures var len := 4 * (n / 3) + (if n % 3 == 0 then 0 else n % 3 + 1);
            len % 4 == (if n % 3 == 0 then 0 else n % 3 + 1)
  {
    var k := n / 3;
    var r := if n % 3 == 0 then 0 else n % 3 + 1;
    assert r < 4;
    assert (4 * k + r) % 4 == r;
  }

  lemma StripTwo(body: string)
    requires |body| % 4 == 2
    ensures StripPadding(body + "==") == body
  {
    var t := body + "==";
    assert t[|t| - 2..] == "==";
    assert t[..|t| - 2] == body;
  }

  lemma StripOne(body: string)
    requires |body| % 4 == 3 && body[|body| - 1] != '='
    ensures StripPadding(body + "=") == body
  {
    var t := body + "=";
    assert t[|t| - 2] == body[|body| - 1];
    assert !EndsWith(t, "==") by {
      assert t[|t| - 2..][0] == t[|t| - 2];
    }
    assert t[|t| - 1..] == "=";
    assert t[..|t| - 1] == body;
  }

  lemma StripNone(body: string)
    requires |body| % 4 == 0 && (|body| > 0 ==> body[|body| - 1] != '=')
    ensures StripPadding(body) == body
  {
    if |body| > 0 {
      assert body[|body| - 1..][0] == body[|body| - 1];
      assert body[|body| - 2..][1] == body[|body| - 1];
    }
  }

  /** What the forgiving decoder keeps of an encoding is its sextet characters. */
  lemma DecodeEncode(b: seq<Byte>)
    ensures var u := StripPadding(RemoveWhitespace(Encode(b)));
            u == CharsOf(Sextets(b)) && |u| % 4 != 1 && forall i :: 0 <= i < |u| ==> IsAlphabetChar(u[i])
  {
    EncodingHasNoWhitespace(b);
    StripEncodedPadding(b);
    SextetCountMod4(|b|);
    CharsOfInAlphabet(Sextets(b));
  }

  lemma EncodingHasNoWhitespace(b: seq<Byte>)
    ensures RemoveWhitespace(Encode(b)) == Encode(b)
  {
    var e := Encode(b);
    forall i | 0 <= i < |e| ensures !IsAsciiWhitespace(e[i]) {
      assert IsAlphabetChar(e[i]) || e[i] == '=';
    }
  }

  lemma CharsOfInAlphabet(v: seq<nat>)
    requires AllSextets(v)
    ensures forall i :: 0 <= i < |CharsOf(v)| ==> IsAlphabetChar(CharsOf(v)[i])
  {
    forall i | 0 <= i < |CharsOf(v)| ensures IsAlphabetChar(CharsOf(v)[i]) {
      assert CharsOf(v)[i] == SextetChar(v[i]);
    }
  }

  lemma SextetCountMod4(n: nat)
    ensures (4 * (n / 3) + (if n % 3 == 0 then 0 else n % 3 + 1)) % 4 != 1
  {
    var k := n / 3;
    var r := if n % 3 == 0 then 0 else n % 3 + 1;
    assert r < 4;
    assert (4 * k + r) % 4 == r;
  }

  /** `atob(btoa(s)) == s` for every string `btoa` accepts. */
  lemma AtobBtoa(s: string)
    requires IsLatin1(s)
    ensures Atob(Btoa(s).value) == Some(s)
  {
    var b := CodesOf(s);
    DecodeEncode(b);
    var u := CharsOf(Sextets(b));
    assert ValuesOf(u) == Sextets(b) by {
      ValuesOfChars(Sextets(b));
    }
    assert DecodeSextets(Sextets(b)) == b by {
      DecodeOfSextets(b);
    }
    CharsOfCodes(s);
  }

  /** The encoding never contains `.`, `;`, `,` or whitespace, so it survives being
      joined with `.` into a cookie value and split again. */
  lemma EncodingIsCookieSafe(b: seq<Byte>)
    ensures forall i :: 0 <= i < |Encode(b)| ==> Encode(b)[i] !in {'.', ';', ','} && !IsJsSpace(Encode(b)[i])
  {
  }

  /** Misplaced padding is refused. */
  lemma PaddingInsideRefused()
    ensures Atob("A===") == None
  {
    assert RemoveWhitespace("A===") == "A===";
    assert StripPadding("A===") == "A=";
    assert !IsAlphabetChar("A="[1]);
  }

  /** A character outside the alphabet is refused. */
  lemma ForeignCharacterRefused()
    ensures Atob("ab.c") == None
  {
    assert RemoveWhitespace("ab.c") == "ab.c";
    assert StripPadding("ab.c") == "ab.c";
    assert !IsAlphabetChar("ab.c"[2]);
  }

  /** A lone character can carry no byte and is refused. */
  lemma LoneCharacterRefused(c: char)
    requires !IsAsciiWhitespace(c)
    ensures Atob([c]) == None
  {
    assert RemoveWhitespace([c]) == [c] by {
      assert RemoveWhitespace([c][1..]) == [];
    }
    assert StripPadding([c]) == [c];
  }

  /** Whitespace anywhere is ignored. */
  lemma WhitespaceIgnored()
    ensures Atob("YQ= =") == Some("a")
  {
    SpacedPaddingStripped();
    assert !exists i :: 0 <= i < 2 && !IsAlphabetChar("YQ"[i]);
    assert DecodeSextets(ValuesOf("YQ")) == [97] by {
      assert ValuesOf("YQ") == [24, 16];
    }
    assert CharsOfBytes([97]) == "a" by {
      assert CharsOfBytes([97])[0] as int == 97;
    }
  }

  lemma SpacedPaddingStripped()
    ensures StripPadding(RemoveWhitespace("YQ= =")) == "YQ"
  {
    assert RemoveWhitespace("=") == "=";
    assert RemoveWhitespace(" =") == "=";
    assert RemoveWhitespace("= =") == "==";
    assert RemoveWhitespace("Q= =") == "Q==";
    assert RemoveWhitespace("YQ= =") == "YQ==";
    assert StripPadding("YQ==") == "YQ";
  }
}
