/** The embed token shared by the issuer (embed_session function) and the gateway (chat
    function): a JSON payload, UTF-8 encoded and written in unpadded base64url (section 5 of
    RFC 4648), a dot, and the unpadded base64url HMAC-SHA256 (RFC 2104) of the first part.

    JSON, UTF-8 and HMAC belong to the platform; they are the fields of `Platform`, and what
    the round trip needs of them is stated where it is used. */
module EmbedToken {

  import opened Wrappers
  import opened Text
  import opened Base64

  /** A parsed JSON value. Objects are maps because `JSON.parse` keeps the last of repeated
      keys and the services only look fields up by name. */
  datatype Json =
    | JNull
    | JBool(b: bool)
    | JNumber(n: real)
    | JString(s: string)
    | JArray(items: seq<Json>)
    | JObject(fields: map<string, Json>)

  /** The platform services the token code calls. `parseJson` is None where `JSON.parse`
      throws; `hmac(key, message)` is HMAC-SHA256. */
  datatype Platform = Platform(
    utf8Encode: string -> seq<byte>,
    utf8Decode: seq<byte> -> string,
    stringify: Json -> string,
    parseJson: string -> Option<Json>,
    hmac: (seq<byte>, seq<byte>) -> seq<byte>)

  /** The claims of an embed token; the version field `v` is always 1. */
  datatype Payload = Payload(projectId: string, projectHandle: string, origin: string,
                             iat: real, exp: real, jti: string)

  /** The JSON object the issuer stringifies. */
  function PayloadJson(p: Payload): Json {
    JObject(map["v" := JNumber(1.0), "project_id" := JString(p.projectId),
                "project_handle" := JString(p.projectHandle), "origin" := JString(p.origin),
                "iat" := JNumber(p.iat), "exp" := JNumber(p.exp), "jti" := JString(p.jti)])
  }

  predicate HasString(fields: map<string, Json>, key: string) {
    key in fields && fields[key].JString?
  }

  predicate HasNumber(fields: map<string, Json>, key: string) {
    key in fields && fields[key].JNumber?
  }

  /** The field's string, as `typeof x.key === "string" ? x.key : null` reads it. */
  function StringAt(fields: map<string, Json>, key: string): Option<string> {
    if HasString(fields, key) then Some(fields[key].s) else None
  }

  /** The field's number, as `typeof x.key === "number" ? x.key : null` reads it. */
  function NumberAt(fields: map<string, Json>, key: string): Option<real> {
    if HasNumber(fields, key) then Some(fields[key].n) else None
  }

  /** The gateway's shape check: an object whose `v` is the number 1 and whose other six
      claims have the declared types. */
  function PayloadFromJson(j: Json): (r: Option<Payload>)
    ensures r.Some? <==>
      j.JObject? && "v" in j.fields && j.fields["v"] == JNumber(1.0)
      && HasString(j.fields, "project_id") && HasString(j.fields, "project_handle")
      && HasString(j.fields, "origin") && HasNumber(j.fields, "iat")
      && HasNumber(j.fields, "exp") && HasString(j.fields, "jti")
  {
    if !j.JObject? then None
    else
      var f := j.fields;
      if !("v" in f && f["v"] == JNumber(1.0)) || !HasString(f, "project_id") || !HasString(f, "project_handle")
         || !HasString(f, "origin") || !HasNumber(f, "iat") || !HasNumber(f, "exp") || !HasString(f, "jti")
      then None
      else Some(Payload(f["project_id"].s, f["project_handle"].s, f["origin"].s,
                        f["iat"].n, f["exp"].n, f["jti"].s))
  }

  /** The issuer's object passes the gateway's shape check unchanged. */
  lemma PayloadJsonRoundTrip(p: Payload)
    ensures PayloadFromJson(PayloadJson(p)) == Some(p)
  {
  }

  /** `signHmac`: the base64url HMAC of the UTF-8 payload part under the UTF-8 secret. */
  function SignHmac(c: Platform, payloadB64: string, secret: string): (r: string)
    ensures forall i :: 0 <= i < |r| ==> InUrlAlphabet(r[i])
    ensures Base64UrlDecode(r) == Some(c.hmac(c.utf8Encode(secret), c.utf8Encode(payloadB64)))
  {
    var mac := c.hmac(c.utf8Encode(secret), c.utf8Encode(payloadB64));
    Base64UrlRoundTrip(mac);
    Base64UrlEncode(mac)
  }

  /** The first part of the token: the base64url UTF-8 JSON text of the payload. */
  function PayloadPart(c: Platform, p: Payload): (r: string)
    ensures forall i :: 0 <= i < |r| ==> InUrlAlphabet(r[i])
    ensures Base64UrlDecode(r) == Some(c.utf8Encode(c.stringify(PayloadJson(p))))
  {
    var bytes := c.utf8Encode(c.stringify(PayloadJson(p)));
    Base64UrlRoundTrip(bytes);
    Base64UrlEncode(bytes)
  }

  /** `signPayload`: `payloadB64 + "." + signatureB64`. Neither part holds a dot, so the
      token splits on its one dot into the payload part and the signature of that part; and
      no `+`, `/` or `=` appears anywhere. */
  function SignPayload(c: Platform, p: Payload, secret: string): (token: string)
    ensures var part := PayloadPart(c, p);
      Split(token, IsDot) == [part, SignHmac(c, part, secret)]
    ensures forall i :: 0 <= i < |token| ==> token[i] != '+' && token[i] != '/' && token[i] != '='
  {
    var part := PayloadPart(c, p);
    var sig := SignHmac(c, part, secret);
    SplitToken(part, sig);
    UrlSafeJoin(part, sig);
    part + "." + sig
  }

  lemma UrlSafeJoin(part: string, sig: string)
    requires forall i :: 0 <= i < |part| ==> InUrlAlphabet(part[i])
    requires forall i :: 0 <= i < |sig| ==> InUrlAlphabet(sig[i])
    ensures var token := part + "." + sig;
      forall i :: 0 <= i < |token| ==> token[i] != '+' && token[i] != '/' && token[i] != '='
  {
    var token := part + "." + sig;
    forall i | 0 <= i < |token| ensures token[i] != '+' && token[i] != '/' && token[i] != '=' {
      if i < |part| {
        assert token[i] == part[i];
      } else if i > |part| {
        assert token[i] == sig[i - |part| - 1];
      }
    }
  }

  /** The wire format splits back into its two parts. */
  lemma SplitToken(part: string, sig: string)
    requires forall i :: 0 <= i < |part| ==> InUrlAlphabet(part[i])
    requires forall i :: 0 <= i < |sig| ==> InUrlAlphabet(sig[i])
    ensures Split(part + "." + sig, IsDot) == [part, sig]
  {
    SplitAfterSep(part, '.', sig, IsDot);
    SplitNoSep(sig, IsDot);
    assert part + "." + sig == part + ['.'] + sig;
  }

  predicate IsDot(c: char) { c == '.' }

  /** Bitwise exclusive or of two non-negative integers, one binary digit at a time. The
      character codes the comparison combines are below 0x110000 (less than 2^21), so the
      32-bit operators of the source never see a sign bit and agree with these. */
  function BitXor(x: nat, y: nat): nat
    decreases x + y
  {
    if x == 0 && y == 0 then 0
    else (if x % 2 == y % 2 then 0 else 1) + 2 * BitXor(x / 2, y / 2)
  }

  /** Bitwise or of two non-negative integers. */
  function BitOr(x: nat, y: nat): nat
    decreases x + y
  {
    if x == 0 && y == 0 then 0
    else (if x % 2 == 0 && y % 2 == 0 then 0 else 1) + 2 * BitOr(x / 2, y / 2)
  }

  /** `x ^ y` is zero exactly when the operands are equal. */
  lemma {:induction false} XorZero(x: nat, y: nat)
    ensures BitXor(x, y) == 0 <==> x == y
    decreases x + y
  {
    if x == 0 && y == 0 {
    } else {
      XorZero(x / 2, y / 2);
    }
  }

  /** `d | z` is zero exactly when both operands are. */
  lemma {:induction false} OrZero(d: nat, z: nat)
    ensures BitOr(d, z) == 0 <==> d == 0 && z == 0
    decreases d + z
  {
    if d == 0 && z == 0 {
    } else {
      OrZero(d / 2, z / 2);
    }
  }

  /** `timingSafeEqual`: compares every position, accumulating `diff |= a[i] ^ b[i]`, so the
      running time depends only on the length. */
  method TimingSafeEqual(a: string, b: string) returns (equal: bool)
    ensures equal <==> a == b
  {
    if |a| != |b| {
      return false;
    }
    var diff: nat := 0;
    var index := 0;
    while index < |a|
      invariant 0 <= index <= |a|
      invariant diff == 0 <==> forall k :: 0 <= k < index ==> a[k] == b[k]
    {
      var x := BitXor(a[index] as int, b[index] as int);
      XorZero(a[index] as int, b[index] as int);
      OrZero(diff, x);
      diff := BitOr(diff, x);
      index := index + 1;
    }
    equal := diff == 0;
  }

  /** `verifyEmbedToken`: exactly two dot-separated parts, both non-empty; the second equal
      to the recomputed signature of the first; the first decoding to UTF-8 JSON that passes
      the shape check. None stands for every rejection. */
  function VerifyEmbedToken(c: Platform, token: string, secret: string): (r: Option<Payload>)
    ensures r.Some? <==>
      var parts := Split(token, IsDot);
      && |parts| == 2 && parts[0] != [] && parts[1] != []
      && parts[1] == SignHmac(c, parts[0], secret)
      && Base64UrlDecode(parts[0]).Some?
      && c.parseJson(c.utf8Decode(Base64UrlDecode(parts[0]).value)).Some?
      && PayloadFromJson(c.parseJson(c.utf8Decode(Base64UrlDecode(parts[0]).value)).value).Some?
  {
    var parts := Split(token, IsDot);
    if |parts| != 2 || parts[0] == [] || parts[1] == [] then None
    else if SignHmac(c, parts[0], secret) != parts[1] then None
    else match Base64UrlDecode(parts[0])
      case None => None
      case Some(bytes) =>
        match c.parseJson(c.utf8Decode(bytes))
        case None => None
        case Some(j) => PayloadFromJson(j)
  }

  /** A token whose signature part is not the signature of its payload part under the
      gateway's secret is rejected, whatever its payload. */
  lemma ForgedSignatureRejected(c: Platform, payloadB64: string, sig: string, secret: string)
    requires forall i :: 0 <= i < |payloadB64| ==> payloadB64[i] != '.'
    requires forall i :: 0 <= i < |sig| ==> sig[i] != '.'
    requires sig != SignHmac(c, payloadB64, secret)
    ensures VerifyEmbedToken(c, payloadB64 + "." + sig, secret) == None
  {
    SplitAfterSep(payloadB64, '.', sig, IsDot);
    SplitNoSep(sig, IsDot);
    assert payloadB64 + "." + sig == payloadB64 + ['.'] + sig;
  }

  /** What the issuer signs, the gateway accepts under the same secret, and it reads back
      the very claims that were issued. The platform must produce a non-empty digest, encode
      the payload text to at least one byte, and read back what it wrote. */
  lemma IssuedTokenVerifies(c: Platform, p: Payload, secret: string)
    requires var text := c.stringify(PayloadJson(p));
      c.utf8Encode(text) != [] && c.parseJson(c.utf8Decode(c.utf8Encode(text))) == Some(PayloadJson(p))
    requires forall key, message :: c.hmac(key, message) != []
    ensures VerifyEmbedToken(c, SignPayload(c, p, secret), secret) == Some(p)
  {
    var part := PayloadPart(c, p);
    var sig := SignHmac(c, part, secret);
    var bytes := c.utf8Encode(c.stringify(PayloadJson(p)));
    var mac := c.hmac(c.utf8Encode(secret), c.utf8Encode(part));
    assert part != [] by {
      assert |EncodeBytes(bytes)| > 0;
    }
    assert sig != [] by {
      assert |EncodeBytes(mac)| > 0;
    }
    SplitToken(part, sig);
    PayloadJsonRoundTrip(p);
  }
}
