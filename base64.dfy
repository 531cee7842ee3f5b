/** The base64 encoding of section 4 of RFC 4648 as the platform's `btoa` and `atob` provide
    it (`atob` being the forgiving decoder of the WHATWG HTML standard), and the base64url
    variant of section 5 of RFC 4648 that the services derive from it by character
    replacement, padding removal and re-padding. */
module Base64 {

  import opened Wrappers
  import opened Text

  type sextet = n: int | 0 <= n < 64

  // ---------------------------------------------------------------------------------------
  // alphabet

  /** The character of the standard alphabet for a 6-bit value. */
  function EncodeSextet(n: sextet): (c: char)
    ensures InAlphabet(c)
  {
    if n < 26 then (65 + n) as char
    else if n < 52 then (97 + n - 26) as char
    else if n < 62 then (48 + n - 52) as char
    else if n == 62 then '+'
    else '/'
  }

  /** Membership of the standard alphabet: `A-Z`, `a-z`, `0-9`, `+`, `/`. */
  predicate InAlphabet(c: char) {
    ('A' <= c <= 'Z') || ('a' <= c <= 'z') || ('0' <= c <= '9') || c == '+' || c == '/'
  }

  /** The 6-bit value of a character of the standard alphabet. */
  function DecodeSextet(c: char): (n: sextet)
    requires InAlphabet(c)
    ensures EncodeSextet(n) == c
  {
    if 'A' <= c <= 'Z' then c as int - 65
    else if 'a' <= c <= 'z' then c as int - 97 + 26
    else if '0' <= c <= '9' then c as int - 48 + 52
    else if c == '+' then 62
    else 63
  }

  lemma DecodeEncodeSextet(n: sextet)
    ensures DecodeSextet(EncodeSextet(n)) == n
  {
  }

  // ---------------------------------------------------------------------------------------
  // groups of bits

  // The four 6-bit groups of three bytes b0 b1 b2 (most significant bits first) ...
  function G0(b0: byte): sextet { b0 / 4 }
  function G1(b0: byte, b1: byte): sextet { (b0 % 4) * 16 + b1 / 16 }
  function G2(b1: byte, b2: byte): sextet { (b1 % 16) * 4 + b2 / 64 }
  function G3(b2: byte): sextet { b2 % 64 }

  // ... and the three bytes of four 6-bit groups a0 a1 a2 a3.
  function B0(a0: sextet, a1: sextet): byte { a0 * 4 + a1 / 16 }
  function B1(a1: sextet, a2: sextet): byte { (a1 % 16) * 16 + a2 / 4 }
  function B2(a2: sextet, a3: sextet): byte { (a2 % 4) * 64 + a3 }

  /** Each byte is recovered from the groups that hold its bits. */
  lemma RegroupBits(b0: byte, b1: byte, b2: byte)
    ensures B0(G0(b0), G1(b0, b1)) == b0
    ensures B1(G1(b0, b1), G2(b1, b2)) == b1
    ensures B2(G2(b1, b2), G3(b2)) == b2
  {
  }

  /** Splits bytes into 6-bit groups, three bytes to four groups; a final one or two bytes
      give two or three groups, the missing bits taken as zero. */
  function EncodeBytes(b: seq<byte>): (v: seq<sextet>)
    ensures |v| == |b| / 3 * 4 + (if |b| % 3 == 0 then 0 else |b| % 3 + 1)
    decreases |b|
  {
    if |b| == 0 then []
    else if |b| == 1 then [G0(b[0]), G1(b[0], 0)]
    else if |b| == 2 then [G0(b[0]), G1(b[0], b[1]), G2(b[1], 0)]
    else [G0(b[0]), G1(b[0], b[1]), G2(b[1], b[2]), G3(b[2])] + EncodeBytes(b[3..])
  }

  /** Joins 6-bit groups into bytes, four groups to three bytes; a final two or three groups
      give one or two bytes and their leftover low bits are discarded. A single leftover
      group carries no whole byte. */
  function DecodeSextets(v: seq<sextet>): (b: seq<byte>)
    ensures |b| == |v| / 4 * 3 + (if |v| % 4 <= 1 then 0 else |v| % 4 - 1)
    decreases |v|
  {
    if |v| < 2 then []
    else if |v| == 2 then [B0(v[0], v[1])]
    else if |v| == 3 then [B0(v[0], v[1]), B1(v[1], v[2])]
    else [B0(v[0], v[1]), B1(v[1], v[2]), B2(v[2], v[3])] + DecodeSextets(v[4..])
  }

  lemma DecodeEncodeTail1(b0: byte)
    ensures DecodeSextets(EncodeBytes([b0])) == [b0]
  {
    var v := [G0(b0), G1(b0, 0)];
    assert EncodeBytes([b0]) == v;
    assert B0(v[0], v[1]) == b0 by {
      RegroupBits(b0, 0, 0);
    }
    assert DecodeSextets(v) == [B0(v[0], v[1])];
  }

  lemma DecodeEncodeTail2(b0: byte, b1: byte)
    ensures DecodeSextets(EncodeBytes([b0, b1])) == [b0, b1]
  {
    RegroupBits(b0, b1, 0);
  }

  /** Regrouping bits loses nothing. */
  lemma {:induction false} DecodeEncodeBytes(b: seq<byte>)
    ensures DecodeSextets(EncodeBytes(b)) == b
    decreases |b|
  {
    if |b| >= 3 {
      var g := [G0(b[0]), G1(b[0], b[1]), G2(b[1], b[2]), G3(b[2])];
      var v := g + EncodeBytes(b[3..]);
      assert EncodeBytes(b) == v;
      assert v[4..] == EncodeBytes(b[3..]);
      RegroupBits(b[0], b[1], b[2]);
      DecodeEncodeBytes(b[3..]);
      assert b == [b[0], b[1], b[2]] + b[3..];
    } else if |b| == 2 {
      DecodeEncodeTail2(b[0], b[1]);
      assert b == [b[0], b[1]];
    } else if |b| == 1 {
      DecodeEncodeTail1(b[0]);
      assert b == [b[0]];
    }
  }

  // ---------------------------------------------------------------------------------------
  // btoa

  function Chars(v: seq<sextet>): (s: string)
    ensures |s| == |v| && forall i :: 0 <= i < |v| ==> s[i] == EncodeSextet(v[i])
  {
    seq(|v|, i requires 0 <= i < |v| => EncodeSextet(v[i]))
  }

  /** The encoding of `b` without its `=` padding. */
  function Body(b: seq<byte>): (s: string)
    ensures |s| == |EncodeBytes(b)|
    ensures forall i :: 0 <= i < |s| ==> InAlphabet(s[i])
  {
    Chars(EncodeBytes(b))
  }

  /** The `=` padding that brings the encoding of `n` bytes to a multiple of four characters. */
  function Padding(n: nat): string {
    if n % 3 == 1 then "==" else if n % 3 == 2 then "=" else ""
  }

  /** The padded length: whole groups of four characters, one per started group of
      three bytes. */
  lemma PaddedLength(n: nat)
    ensures var m := n / 3 * 4 + (if n % 3 == 0 then 0 else n % 3 + 1) + |Padding(n)|;
      m % 4 == 0 && m == (n + 2) / 3 * 4
  {
    var q := n / 3;
    var k := if n % 3 == 0 then q else q + 1;
    assert n == 3 * q + n % 3;
    assert (n + 2) / 3 == k;
    assert n / 3 * 4 + (if n % 3 == 0 then 0 else n % 3 + 1) + |Padding(n)| == 4 * k;
  }

  /** `btoa` applied to the binary string of `b`. */
  function BtoaBytes(b: seq<byte>): (s: string)
    ensures |s| % 4 == 0 && |s| == (|b| + 2) / 3 * 4
  {
    PaddedLength(|b|);
    Body(b) + Padding(|b|)
  }

  /** `btoa`: None where the platform throws, that is when a character is above 255. */
  function Btoa(s: string): (r: Option<string>)
    ensures r.Some? <==> Latin1Bytes(s).Some?
  {
    match Latin1Bytes(s)
    case Some(b) => Some(BtoaBytes(b))
    case None => None
  }

  // ---------------------------------------------------------------------------------------
  // atob (forgiving base64 decode)

  /** The ASCII whitespace the forgiving decoder removes: TAB, LF, FF, CR and SPACE. */
  predicate IsAsciiWhitespace(c: char) {
    c == '\t' || c == '\n' || c == '\U{C}' || c == '\r' || c == ' '
  }

  function RemoveAsciiWhitespace(s: string): (r: string)
    ensures |r| <= |s|
    ensures forall i :: 0 <= i < |r| ==> !IsAsciiWhitespace(r[i])
    ensures (forall i :: 0 <= i < |s| ==> !IsAsciiWhitespace(s[i])) ==> r == s
  {
    if s == [] then []
    else if IsAsciiWhitespace(s[0]) then RemoveAsciiWhitespace(s[1..])
    else [s[0]] + RemoveAsciiWhitespace(s[1..])
  }

  /** Drops one or two trailing `=` when the length is a multiple of four. */
  function StripPadding(d: string): (r: string)
    ensures |r| <= |d| && r == d[..|r|]
  {
    if |d| % 4 == 0 && |d| >= 2 && d[|d| - 2..] == "==" then d[..|d| - 2]
    else if |d| % 4 == 0 && |d| >= 1 && d[|d| - 1] == '=' then d[..|d| - 1]
    else d
  }

  function Sextets(s: string): (v: seq<sextet>)
    requires forall i :: 0 <= i < |s| ==> InAlphabet(s[i])
    ensures |v| == |s| && forall i :: 0 <= i < |s| ==> v[i] == DecodeSextet(s[i])
  {
    seq(|s|, i requires 0 <= i < |s| => DecodeSextet(s[i]))
  }

  /** The bytes `atob` decodes from `s`, or None where it throws: after whitespace removal
      and padding removal, a length of one more than a multiple of four, or any character
      outside the alphabet (a misplaced `=` included). */
  function AtobBytes(s: string): (r: Option<seq<byte>>)
    ensures r.Some? <==>
      var d := StripPadding(RemoveAsciiWhitespace(s));
      |d| % 4 != 1 && forall i :: 0 <= i < |d| ==> InAlphabet(d[i])
  {
    var d := StripPadding(RemoveAsciiWhitespace(s));
    if |d| % 4 == 1 then None
    else if forall i :: 0 <= i < |d| ==> InAlphabet(d[i]) then Some(DecodeSextets(Sextets(d)))
    else None
  }

  /** `atob`, whose result is a binary string. */
  function Atob(s: string): (r: Option<string>)
    ensures r.Some? <==> AtobBytes(s).Some?
    ensures r.Some? ==> r.value == Latin1String(AtobBytes(s).value)
  {
    match AtobBytes(s)
    case Some(b) => Some(Latin1String(b))
    case None => None
  }

  /** The alphabet characters of an encoding decode back to their groups. */
  lemma SextetsChars(v: seq<sextet>)
    ensures Sextets(Chars(v)) == v
  {
    var s := Chars(v);
    forall i | 0 <= i < |v| ensures Sextets(s)[i] == v[i] {
      DecodeEncodeSextet(v[i]);
    }
  }

  lemma StripPaddingOfEncoding(b: seq<byte>)
    ensures StripPadding(BtoaBytes(b)) == Body(b)
  {
    var body := Body(b);
    var s := BtoaBytes(b);
    if |b| % 3 == 0 {
      assert s == body;
      if |s| >= 1 {
        assert InAlphabet(s[|s| - 1]);
      }
    } else if |b| % 3 == 1 {
      assert s[|s| - 2..] == "==";
      assert s[..|s| - 2] == body;
    } else {
      assert s[|s| - 1] == '=';
      if |s| >= 2 {
        assert InAlphabet(s[|s| - 2]);
        assert s[|s| - 2..] != "==";
      }
      assert s[..|s| - 1] == body;
    }
  }

  /** An encoding holds no whitespace, so `atob` has nothing to remove. */
  lemma EncodingHasNoWhitespace(b: seq<byte>)
    ensures RemoveAsciiWhitespace(BtoaBytes(b)) == BtoaBytes(b)
  {
    var s := BtoaBytes(b);
    var body := Body(b);
    forall i | 0 <= i < |s| ensures !IsAsciiWhitespace(s[i]) {
      if i < |body| {
        assert s[i] == body[i];
        assert InAlphabet(body[i]);
      }
    }
  }

  /** The unpadded encoding never has one more than a multiple of four characters. */
  lemma BodyLength(b: seq<byte>)
    ensures |Body(b)| % 4 != 1
  {
    var q := |b| / 3;
    var k := if |b| % 3 == 0 then 0 else |b| % 3 + 1;
    assert |Body(b)| == q * 4 + k;
    assert k == 0 || k == 2 || k == 3;
  }

  /** `atob` on text whose cleaned form is `d`, of an admissible length and over the
      alphabet, decodes the sextets of `d`. */
  lemma AtobBytesAdmits(s: string, d: string)
    requires StripPadding(RemoveAsciiWhitespace(s)) == d
    requires |d| % 4 != 1 && forall i :: 0 <= i < |d| ==> InAlphabet(d[i])
    ensures AtobBytes(s) == Some(DecodeSextets(Sextets(d)))
  {
  }

  /** Section 4 of RFC 4648: decoding an encoding yields the original bytes. */
  lemma {:induction false} AtobBtoa(b: seq<byte>)
    ensures AtobBytes(BtoaBytes(b)) == Some(b)
  {
    var s := BtoaBytes(b);
    var body := Body(b);
    EncodingHasNoWhitespace(b);
    StripPaddingOfEncoding(b);
    BodyLength(b);
    AtobBytesAdmits(s, body);
    SextetsChars(EncodeBytes(b));
    DecodeEncodeBytes(b);
  }

  // ---------------------------------------------------------------------------------------
  // base64url

  /** The base64url alphabet of section 5 of RFC 4648: `A-Z`, `a-z`, `0-9`, `-`, `_`. */
  predicate InUrlAlphabet(c: char) {
    ('A' <= c <= 'Z') || ('a' <= c <= 'z') || ('0' <= c <= '9') || c == '-' || c == '_'
  }

  /** `replace(/\+/g, "-").replace(/\//g, "_")`. */
  function ToUrlChars(s: string): (r: string)
    ensures |r| == |s|
  {
    ReplaceChar(ReplaceChar(s, '+', '-'), '/', '_')
  }

  /** `replace(/-/g, "+").replace(/_/g, "/")`. */
  function FromUrlChars(s: string): (r: string)
    ensures |r| == |s|
  {
    ReplaceChar(ReplaceChar(s, '-', '+'), '_', '/')
  }

  /** `padEnd(Math.ceil(s.length / 4) * 4, "=")`. */
  function PadToQuad(s: string): (r: string)
    ensures |r| % 4 == 0
  {
    PadEnd(s, (|s| + 3) / 4 * 4, '=')
  }

  lemma ToUrlCharsAppend(x: string, y: string)
    ensures ToUrlChars(x + y) == ToUrlChars(x) + ToUrlChars(y)
  {
    var l := ToUrlChars(x + y);
    var r := ToUrlChars(x) + ToUrlChars(y);
    forall i | 0 <= i < |l| ensures l[i] == r[i] {
      if i < |x| {
        assert (x + y)[i] == x[i];
      } else {
        assert (x + y)[i] == y[i - |x|];
      }
    }
  }

  /** Removing trailing `=` undoes appending padding to text that does not end in `=`. */
  lemma StripPaddingSuffix(x: string, n: nat)
    requires x != [] ==> x[|x| - 1] != '='
    ensures StripTrailing(x + Padding(n), '=') == x
  {
    var p := Padding(n);
    var s := x + p;
    assert forall i :: |s| - |p| <= i < |s| ==> s[i] == '=';
    assert x != [] ==> s[|s| - 1 - |p|] != '=';
    assert TrailingCount(s, '=') == |p|;
    assert s[..|s| - |p|] == x;
  }

  /** The URL replacements leave the padding alone and commute with appending it. */
  lemma UrlEncodingBody(b: seq<byte>)
    ensures StripTrailing(ToUrlChars(BtoaBytes(b)), '=') == ToUrlChars(Body(b))
  {
    var body := Body(b);
    ToUrlCharsAppend(body, Padding(|b|));
    assert ToUrlChars(Padding(|b|)) == Padding(|b|);
    var u := ToUrlChars(body);
    if u != [] {
      assert InAlphabet(body[|body| - 1]);
      assert u[|u| - 1] != '=';
    }
    StripPaddingSuffix(u, |b|);
  }

  /** The URL replacements map the standard alphabet onto the base64url alphabet. */
  lemma ToUrlCharsAlphabet(s: string)
    requires forall i :: 0 <= i < |s| ==> InAlphabet(s[i])
    ensures forall i :: 0 <= i < |ToUrlChars(s)| ==> InUrlAlphabet(ToUrlChars(s)[i])
  {
    var u := ToUrlChars(s);
    forall i | 0 <= i < |u| ensures InUrlAlphabet(u[i]) {
      assert InAlphabet(s[i]);
    }
  }

  /** Base64url encoding of bytes as the services write it: `btoa`, the two character
      replacements, then the trailing `=` removed. The result is the unpadded base64url
      text of the bytes, over the URL-safe alphabet only. */
  function Base64UrlEncode(b: seq<byte>): (r: string)
    ensures r == ToUrlChars(Body(b))
    ensures forall i :: 0 <= i < |r| ==> InUrlAlphabet(r[i])
  {
    UrlEncodingBody(b);
    ToUrlCharsAlphabet(Body(b));
    StripTrailing(ToUrlChars(BtoaBytes(b)), '=')
  }

  /** The `=` that `PadToQuad` appends to text of length `n`. */
  function QuadPadding(n: nat): (pad: string)
    ensures pad in {"", "=", "==", "==="} && (n + |pad|) % 4 == 0
  {
    if n % 4 == 0 then "" else if n % 4 == 3 then "=" else if n % 4 == 2 then "==" else "==="
  }

  /** Padding standard-alphabet text appends `=` only, so no whitespace is removed. */
  lemma PaddedHasNoWhitespace(u: string)
    requires forall i :: 0 <= i < |u| ==> InAlphabet(u[i])
    ensures RemoveAsciiWhitespace(PadToQuad(u)) == u + QuadPadding(|u|)
  {
    var p := PadToQuad(u);
    var pad := QuadPadding(|u|);
    assert Repeat('=', (|u| + 3) / 4 * 4 - |u|) == pad;
    assert p == u + pad;
    forall i | 0 <= i < |p| ensures !IsAsciiWhitespace(p[i]) {
      if i < |u| { assert InAlphabet(u[i]); }
    }
  }

  /** `atob`'s padding removal on standard-alphabet text followed by up to three `=`. */
  lemma StripPaddingAfterAlphabet(u: string, pad: string)
    requires forall i :: 0 <= i < |u| ==> InAlphabet(u[i])
    requires pad in {"", "=", "==", "==="} && (|u| + |pad|) % 4 == 0
    ensures StripPadding(u + pad) == if pad == "===" then u + "=" else u
  {
    var p := u + pad;
    if pad == "" {
      if |u| > 0 { assert p[|p| - 1] == u[|u| - 1] && InAlphabet(u[|u| - 1]); }
    } else if pad == "=" {
      assert p[|p| - 2] == u[|u| - 1] && InAlphabet(u[|u| - 1]);
      assert p[..|p| - 1] == u;
    } else if pad == "==" {
      assert p[|p| - 2..] == "==";
      assert p[..|p| - 2] == u;
    } else {
      assert p[|p| - 2..] == "==";
      assert p[..|p| - 2] == u + "=";
    }
  }

  /** Standard-alphabet text padded to a multiple of four, as `atob` sees it after its own
      padding removal: the text itself, except that a length of one more than a multiple of
      four keeps one `=`. */
  lemma PaddedAlphabetText(u: string)
    requires forall i :: 0 <= i < |u| ==> InAlphabet(u[i])
    ensures StripPadding(RemoveAsciiWhitespace(PadToQuad(u))) == if |u| % 4 == 1 then u + "=" else u
  {
    PaddedHasNoWhitespace(u);
    StripPaddingAfterAlphabet(u, QuadPadding(|u|));
  }

  /** Undoing the URL replacements turns URL-safe text into standard-alphabet text. */
  lemma FromUrlCharsAlphabet(s: string)
    requires forall i :: 0 <= i < |s| ==> InUrlAlphabet(s[i])
    ensures forall i :: 0 <= i < |FromUrlChars(s)| ==> InAlphabet(FromUrlChars(s)[i])
  {
    var u := FromUrlChars(s);
    forall i | 0 <= i < |u| ensures InAlphabet(u[i]) {
      assert InUrlAlphabet(s[i]);
    }
  }

  /** Which URL-safe texts the services' decoding accepts, and how many bytes they give. */
  lemma UrlDecodeAcceptance(s: string)
    ensures (forall i :: 0 <= i < |s| ==> InUrlAlphabet(s[i])) ==>
      var r := AtobBytes(PadToQuad(FromUrlChars(s)));
      && (r.Some? <==> |s| % 4 != 1)
      && (r.Some? ==> |r.value| == |s| / 4 * 3 + (if |s| % 4 <= 1 then 0 else |s| % 4 - 1))
  {
    if forall i :: 0 <= i < |s| ==> InUrlAlphabet(s[i]) {
      var u := FromUrlChars(s);
      FromUrlCharsAlphabet(s);
      PaddedAlphabetText(u);
      var d := StripPadding(RemoveAsciiWhitespace(PadToQuad(u)));
      if |s| % 4 == 1 {
        assert !InAlphabet(d[|d| - 1]);
      } else {
        assert d == u;
        assert AtobBytes(PadToQuad(u)) == Some(DecodeSextets(Sextets(u)));
      }
    }
  }

  /** Base64url decoding as the services write it: the replacements undone, `=` padding
      restored up to a multiple of four, then `atob`. Text over the URL-safe alphabet is
      accepted exactly when its length is not one more than a multiple of four, and then
      decodes to three bytes per four characters plus one byte per character past the
      first of an incomplete group. */
  function Base64UrlDecode(s: string): (r: Option<seq<byte>>)
    ensures (forall i :: 0 <= i < |s| ==> InUrlAlphabet(s[i])) ==>
      && (r.Some? <==> |s| % 4 != 1)
      && (r.Some? ==> |r.value| == |s| / 4 * 3 + (if |s| % 4 <= 1 then 0 else |s| % 4 - 1))
  {
    UrlDecodeAcceptance(s);
    AtobBytes(PadToQuad(FromUrlChars(s)))
  }

  lemma FromToUrlChars(s: string)
    requires forall i :: 0 <= i < |s| ==> InAlphabet(s[i])
    ensures FromUrlChars(ToUrlChars(s)) == s
  {
  }

  /** Section 5 of RFC 4648 as the services use it: the unpadded base64url text of any
      bytes decodes back to those bytes. */
  lemma {:induction false} Base64UrlRoundTrip(b: seq<byte>)
    ensures Base64UrlDecode(Base64UrlEncode(b)) == Some(b)
  {
    var body := Body(b);
    FromToUrlChars(body);
    assert PadToQuad(body) == BtoaBytes(b);
    AtobBtoa(b);
  }

  // ---------------------------------------------------------------------------------------
  // the loops around the codec in the chat and embed_session functions

  /** `toBase64Url`: builds the binary string of `bytes` one character at a time, then
      encodes it. */
  method ToBase64Url(bytes: seq<byte>) returns (r: string)
    ensures r == Base64UrlEncode(bytes)
    ensures Base64UrlDecode(r) == Some(bytes)
  {
    var binary: string := "";
    var i := 0;
    while i < |bytes|
      invariant 0 <= i <= |bytes|
      invariant binary == Latin1String(bytes[..i])
    {
      binary := binary + [bytes[i] as char];
      i := i + 1;
    }
    assert bytes[..i] == bytes;
    Latin1RoundTrip(bytes);
    var encoded := Btoa(binary).value;
    r := StripTrailing(ToUrlChars(encoded), '=');
    Base64UrlRoundTrip(bytes);
  }

  /** `fromBase64Url`: decodes, then copies the characters of the binary string into a byte
      array; None where `atob` throws. */
  method FromBase64Url(value: string) returns (r: Option<seq<byte>>)
    ensures r == Base64UrlDecode(value)
  {
    var padded := PadToQuad(FromUrlChars(value));
    var binary := Atob(padded);
    if binary.None? {
      return None;
    }
    var text := binary.value;
    var out := new byte[|text|];
    var index := 0;
    while index < |text|
      invariant 0 <= index <= |text|
      invariant forall k :: 0 <= k < index ==> out[k] == text[k] as int
    {
      out[index] := text[index] as int;
      index := index + 1;
    }
    assert out[..] == AtobBytes(padded).value;
    r := Some(out[..]);
  }
}
