/** The hexadecimal form of the approval cookie's signature
    (`use-cases/mcp-server/src/auth/oauth-utils.ts`): `signData` writes each byte of the
    HMAC as two lower-case hex digits, and `verifySignature` reads the text back by cutting
    it with `/.{1,2}/g` and giving each piece to `parseInt(piece, 16)`, whose result the
    `Uint8Array` constructor reduces modulo 256 (`NaN` becoming 0).

    The HMAC itself (RFC 2104 over SHA-256) is a function parameter `mac` from the secret
    and the signed text to bytes; verification succeeds exactly when the bytes read back
    equal `mac` of the same secret and text. */
module HexSignature {
  import opened Wrappers
  import opened Text

  // ---------------------------------------------------------------------------
  // Writing: `b.toString(16).padStart(2, "0")`, joined
  // ---------------------------------------------------------------------------

  function HexDigit(v: nat): (c: char)
    requires v < 16
    ensures IsHexDigit(c) && HexValue(c) == v
  {
    if v < 10 then ('0' as int + v) as char else ('a' as int + v - 10) as char
  }

  predicate IsLowerHexDigit(c: char) {
    '0' <= c <= '9' || 'a' <= c <= 'f'
  }

  function ByteHex(b: Byte): (r: string)
    ensures |r| == 2 && IsLowerHexDigit(r[0]) && IsLowerHexDigit(r[1])
  {
    [HexDigit(b / 16), HexDigit(b % 16)]
  }

  function ToHex(b: seq<Byte>): (r: string)
    ensures |r| == 2 * |b|
    ensures forall i :: 0 <= i < |r| ==> IsLowerHexDigit(r[i])
  {
    if |b| == 0 then "" else ByteHex(b[0]) + ToHex(b[1..])
  }

  /** `signData`, given the HMAC. */
  function SignData(mac: (string, string) -> seq<Byte>, secret: string, data: string): (r: string)
    ensures |r| == 2 * |mac(secret, data)|
  {
    ToHex(mac(secret, data))
  }

  // ---------------------------------------------------------------------------
  // Reading
  // ---------------------------------------------------------------------------

  /** The matches of `/.{1,2}/g`: each run of characters other than line terminators,
      cut into pieces of two, the last piece of a run possibly of one. */
  function Pieces(s: string): (r: seq<string>)
    ensures forall i :: 0 <= i < |r| ==> 1 <= |r[i]| <= 2
    decreases |s|
  {
    if |s| == 0 then []
    else if IsJsLineTerminator(s[0]) then Pieces(s[1..])
    else if |s| >= 2 && !IsJsLineTerminator(s[1]) then [s[..2]] + Pieces(s[2..])
    else [s[..1]] + Pieces(s[1..])
  }

  predicate IsHexDigit(c: char) {
    '0' <= c <= '9' || 'a' <= c <= 'f' || 'A' <= c <= 'F'
  }

  function HexValue(c: char): (v: nat)
    requires IsHexDigit(c)
    ensures v < 16
  {
    if '0' <= c <= '9' then c as int - '0' as int
    else if 'a' <= c <= 'f' then c as int - 'a' as int + 10
    else c as int - 'A' as int + 10
  }

  /** The longest prefix made of hex digits. */
  function HexRun(s: string): (r: string)
    ensures |r| <= |s| && r == s[..|r|]
    ensures forall i :: 0 <= i < |r| ==> IsHexDigit(r[i])
    ensures |r| < |s| ==> !IsHexDigit(s[|r|])
  {
    if |s| > 0 && IsHexDigit(s[0]) then [s[0]] + HexRun(s[1..]) else ""
  }

  function HexNumber(ds: string): nat
    requires forall i :: 0 <= i < |ds| ==> IsHexDigit(ds[i])
  {
    if |ds| == 0 then 0 else HexNumber(ds[..|ds| - 1]) * 16 + HexValue(ds[|ds| - 1])
  }

  /** `parseInt(t, 16)`: leading whitespace skipped, one sign, an optional `0x`/`0X`,
      then the longest run of hex digits; `None` stands for `NaN`. */
  function ParseIntHex(t: string): Option<int>
  {
    var u := TrimStart(t, IsJsSpace);
    var negative := |u| > 0 && u[0] == '-';
    var v := if |u| > 0 && (u[0] == '+' || u[0] == '-') then u[1..] else u;
    var w := if |v| >= 2 && v[0] == '0' && (v[1] == 'x' || v[1] == 'X') then v[2..] else v;
    var ds := HexRun(w);
    var n: int := if |ds| == 0 then 0 else HexNumber(ds);
    if |ds| == 0 then None
    else Some(if negative then -n else n)
  }

  /** The `Uint8Array` element conversion: `NaN` is 0, anything else is taken modulo 256. */
  function ToUint8(n: Option<int>): (r: Byte)
    ensures n.Some? ==> (r - n.value) % 256 == 0
    ensures n.None? ==> r == 0
  {
    match n
    case None => 0
    case Some(v) => v % 256
  }

  /** The bytes `verifySignature` compares; `None` when the expression matches nothing
      and `match` returns `null` (the following `.map` throws and the signature is
      refused). */
  function SignatureBytes(hex: string): (r: Option<seq<Byte>>)
    ensures r.Some? <==> |Pieces(hex)| > 0
    ensures r.Some? ==> |r.value| == |Pieces(hex)|
  {
    var ps := Pieces(hex);
    if |ps| == 0 then None
    else Some(seq(|ps|, i requires 0 <= i < |ps| => ToUint8(ParseIntHex(ps[i]))))
  }

  /** `verifySignature`, given the HMAC. */
  function VerifySignature(mac: (string, string) -> seq<Byte>, secret: string, hex: string, data: string): (ok: bool)
    ensures ok <==> SignatureBytes(hex) == Some(mac(secret, data))
  {
    match SignatureBytes(hex)
    case None => false
    case Some(b) => b == mac(secret, data)
  }

  // ---------------------------------------------------------------------------
  // Properties
  // ---------------------------------------------------------------------------

  lemma {:induction false} PiecesOfHex(b: seq<Byte>)
    ensures |Pieces(ToHex(b))| == |b|
    ensures forall i :: 0 <= i < |b| ==> Pieces(ToHex(b))[i] == ByteHex(b[i])
    decreases |b|
  {
    if |b| > 0 {
      var h := ToHex(b);
      assert h[..2] == ByteHex(b[0]) && h[2..] == ToHex(b[1..]);
      assert !IsJsLineTerminator(h[0]) && !IsJsLineTerminator(h[1]);
      PiecesOfHex(b[1..]);
      assert forall i :: 1 <= i < |b| ==> b[1..][i - 1] == b[i];
    }
  }

  lemma ParseByteHex(b: Byte)
    ensures ParseIntHex(ByteHex(b)) == Some(b)
  {
    var h := ByteHex(b);
    TrimStartOfNonSpace(h, IsJsSpace);
    assert HexRun(h) == h by {
      assert HexRun(h[1..]) == h[1..];
    }
    assert h[..1] == [h[0]] && h[..1][..0] == "";
    assert HexNumber(h[..1]) == HexValue(h[0]);
    assert HexNumber(h) == HexValue(h[0]) * 16 + HexValue(h[1]);
  }

  lemma ReadByteHex(b: Byte)
    ensures ToUint8(ParseIntHex(ByteHex(b))) == b
  {
    assert ParseIntHex(ByteHex(b)) == Some(b) by {
      ParseByteHex(b);
    }
    ByteIsItsOwnUint8(b);
  }

  lemma ByteIsItsOwnUint8(b: Byte)
    ensures ToUint8(Some(b)) == b
  {
  }

  /** Reading the written signature gives back the bytes. */
  lemma HexRoundTrip(b: seq<Byte>)
    requires |b| > 0
    ensures SignatureBytes(ToHex(b)) == Some(b)
  {
    PiecesOfHex(b);
    var ps := Pieces(ToHex(b));
    var r := seq(|ps|, i requires 0 <= i < |ps| => ToUint8(ParseIntHex(ps[i])));
    assert SignatureBytes(ToHex(b)) == Some(r);
    forall i | 0 <= i < |b| ensures r[i] == b[i] {
      ReadByteHex(b[i]);
    }
    assert |r| == |b|;
    assert r == b;
  }

  /** A signature written by `signData` passes `verifySignature` for the same secret and
      text (an HMAC is never empty). */
  lemma SignThenVerify(mac: (string, string) -> seq<Byte>, secret: string, data: string)
    requires |mac(secret, data)| > 0
    ensures VerifySignature(mac, secret, SignData(mac, secret, data), data)
  {
    HexRoundTrip(mac(secret, data));
  }

  lemma SinglePiece(s: string)
    requires |s| == 2 && !IsJsLineTerminator(s[0]) && !IsJsLineTerminator(s[1])
    ensures SignatureBytes(s) == Some([ToUint8(ParseIntHex(s))])
  {
    var ps := Pieces(s);
    assert ps == [s] by {
      assert s[..2] == s && |s[2..]| == 0;
      assert Pieces(s[2..]) == [];
    }
    var r := seq(|ps|, i requires 0 <= i < |ps| => ToUint8(ParseIntHex(ps[i])));
    assert SignatureBytes(s) == Some(r);
    assert r == [ToUint8(ParseIntHex(s))];
  }

  lemma ParsesAs(t: string, skipSign: bool, n: int)
    requires |t| == 2 && !IsJsSpace(t[0])
    requires skipSign ==> (t[0] == '+' || t[0] == '-') && IsHexDigit(t[1])
                          && n == (if t[0] == '-' then -(HexValue(t[1]) as int) else HexValue(t[1]))
    requires !skipSign ==> IsHexDigit(t[0]) && IsHexDigit(t[1]) && t[1] != 'x' && t[1] != 'X'
                           && n == HexValue(t[0]) * 16 + HexValue(t[1])
    ensures ParseIntHex(t) == Some(n)
  {
    TrimStartOfNonSpace(t, IsJsSpace);
    if skipSign {
      var d := t[1..];
      assert HexRun(d) == d;
      assert d[..0] == "";
      assert HexNumber(d) == HexValue(t[1]);
    } else {
      assert HexRun(t[1..]) == t[1..];
      assert HexRun(t) == t;
      assert t[..1][..0] == "";
      assert HexNumber(t[..1]) == HexValue(t[0]);
    }
  }

  /** The reader is lenient: upper-case digits, a `+` sign or a `-` sign are read as
      well, so several texts verify for the same bytes. */
  lemma UpperCaseDigitsRead()
    ensures SignatureBytes("0A") == SignatureBytes("0a") == Some([10])
  {
    ParsesAs("0a", false, 10);
    ParsesAs("0A", false, 10);
    SinglePiece("0a");
    SinglePiece("0A");
    ByteIsItsOwnUint8(10);
  }

  lemma PlusSignRead()
    ensures SignatureBytes("+a") == Some([10])
  {
    ParsesAs("+a", true, 10);
    SinglePiece("+a");
    ByteIsItsOwnUint8(10);
  }

  /** A negative piece wraps around: `-1` reads as the byte 255, which `signData` would
      have written `ff`. */
  lemma MinusSignWraps()
    ensures SignatureBytes("-1") == SignatureBytes("ff") == Some([255])
  {
    MinusOneRead();
    FfRead();
  }

  lemma MinusOneRead()
    ensures SignatureBytes("-1") == Some([255])
  {
    ParsesAs("-1", true, -1);
    SinglePiece("-1");
    assert ToUint8(Some(-1)) == 255;
  }

  lemma FfRead()
    ensures SignatureBytes("ff") == Some([255])
  {
    ParsesAs("ff", false, 255);
    SinglePiece("ff");
    ByteIsItsOwnUint8(255);
  }
}
