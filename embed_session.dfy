/** The embed-session issuer (embed_session function): it checks the request, looks the
    project up by its handle, requires the visitor's origin to be on the project's
    allowlist, and signs a short-lived token the chat gateway accepts. The clock, the
    random token id, the store and the platform services are inputs. */
module EmbedSession {

  import opened Wrappers
  import opened Text
  import opened Base64
  import opened Crypto
  import opened Config
  import opened Origin
  import opened EmbedToken
  import opened RequestBody
  import Chat

  const TOKEN_TTL_SECONDS_DEFAULT: int := 300
  const TOKEN_TTL_SECONDS_MAX: int := 3600

  // ---------------------------------------------------------------------------------------
  // the token lifetime

  /** `Math.min(parsePositiveInt(EMBED_TOKEN_TTL_SECONDS, 300), 3600)`: a positive integer
      setting, capped at one hour; anything else gives five minutes. */
  function TokenTtl(number: string -> Option<real>, setting: Option<string>): (ttl: int)
    ensures 1 <= ttl <= TOKEN_TTL_SECONDS_MAX
    ensures var valid := setting.Some? && setting.value != [] && IsPositiveInteger(number(setting.value));
      && (!valid ==> ttl == TOKEN_TTL_SECONDS_DEFAULT)
      && (valid && number(setting.value).value <= TOKEN_TTL_SECONDS_MAX as real ==> ttl as real == number(setting.value).value)
      && (valid && number(setting.value).value > TOKEN_TTL_SECONDS_MAX as real ==> ttl == TOKEN_TTL_SECONDS_MAX)
  {
    var parsed := ParsePositiveInt(number, setting, TOKEN_TTL_SECONDS_DEFAULT);
    if parsed < TOKEN_TTL_SECONDS_MAX then parsed else TOKEN_TTL_SECONDS_MAX
  }

  // ---------------------------------------------------------------------------------------
  // hex digests

  /** `value.toString(16).padStart(2, "0")` for one byte: one digit below 16, padded with a
      zero, otherwise two digits. */
  function ByteHex(value: byte): (r: string)
    ensures r == [HexDigit(value / 16), HexDigit(value % 16)]
  {
    if value < 16 then "0" + [HexDigit(value)] else [HexDigit(value / 16), HexDigit(value % 16)]
  }

  lemma {:induction false} ToHexSnoc(b: seq<byte>, x: byte)
    ensures ToHex(b + [x]) == ToHex(b) + ByteHex(x)
  {
    if b == [] {
      assert b + [x] == [x];
      assert ToHex([x]) == [HexDigit(x / 16), HexDigit(x % 16)] + ToHex([]);
    } else {
      assert (b + [x])[0] == b[0];
      assert (b + [x])[1..] == b[1..] + [x];
      ToHexSnoc(b[1..], x);
    }
  }

  /** `decodeHex`: the digest written as two lower-case hexadecimal digits per byte. */
  method DecodeHex(values: seq<byte>) returns (output: string)
    ensures output == ToHex(values)
    ensures |output| == 2 * |values| && forall i :: 0 <= i < |output| ==> !('A' <= output[i] <= 'Z')
  {
    output := "";
    var i := 0;
    while i < |values|
      invariant 0 <= i <= |values|
      invariant output == ToHex(values[..i])
    {
      ToHexSnoc(values[..i], values[i]);
      assert values[..i + 1] == values[..i] + [values[i]];
      output := output + ByteHex(values[i]);
      i := i + 1;
    }
    assert values[..i] == values;
    forall j | 0 <= j < |output|
      ensures !('A' <= output[j] <= 'Z')
    {
      var k := j / 2;
      assert 0 <= k < |values|;
      if j == 2 * k {
        assert output[j] == HexDigit(values[k] / 16);
      } else {
        assert output[j] == HexDigit(values[k] % 16);
      }
    }
  }

  // ---------------------------------------------------------------------------------------
  // the allowlist

  /** The issuer's allowlist: the canonical forms of the project's entries, with the
      entries that do not canonicalise dropped. */
  function IssuerAllowedOriginSet(parse: string -> Option<Url>, entries: seq<string>): (s: set<string>)
    ensures forall o :: o in s <==> exists e :: e in entries && IssuerCanonicalizeOrigin(parse, e) == Some(o)
  {
    set e | e in entries && IssuerCanonicalizeOrigin(parse, e).Some? :: IssuerCanonicalizeOrigin(parse, e).value
  }

  /** The issuer and the gateway build the same allowlist from the same entries. */
  lemma AllowlistsAgree(parse: string -> Option<Url>, entries: seq<string>)
    ensures IssuerAllowedOriginSet(parse, entries) == AllowedOriginSet(parse, entries)
  {
    forall o
      ensures o in IssuerAllowedOriginSet(parse, entries) <==> o in AllowedOriginSet(parse, entries)
    {
      forall e | e in entries
        ensures IssuerCanonicalizeOrigin(parse, e) == GatewayCanonicalizeOrigin(parse, e)
      {
        CanonicalizersAgree(parse, e);
      }
    }
  }

  // ---------------------------------------------------------------------------------------
  // the request

  /** The environment the handler reads; an absent or empty value is missing. */
  datatype SessionEnv = SessionEnv(supabaseUrl: Option<string>, serviceRoleKey: Option<string>,
                                   signingSecret: Option<string>, ttlSetting: Option<string>)

  /** The parts of the request the handler reads: the method, the body as `request.json()`
      parses it (None where it throws) and the `Origin` header. */
  datatype SessionRequest = SessionRequest(httpMethod: string, body: Option<Json>, originHeader: Option<string>)

  /** The `projects` query by handle: an error, no row, or the row. */
  datatype ProjectLookup = LookupFailed | NotFound | Found(row: Chat.ProjectRow)

  /** An issued session: the token, its expiry in seconds, the project's handle, the
      lifetime used, and the signed claims. */
  datatype Session = Session(token: string, expiresAt: int, projectHandle: string, ttl: int, claims: Payload)

  /** What the handler answers: the CORS preflight, an error, or a session. */
  datatype Reply = Preflight | Refused(denial: Chat.Denial) | Issued(session: Session)

  predicate Present(v: Option<string>) {
    v.Some? && v.value != []
  }

  /** `project_handle` trimmed and lower-cased, or empty when the body holds no string
      there. */
  function ProjectHandle(body: Json): (r: string)
    ensures StringField(body, "project_handle").Some? ==> r == Lower(Trim(StringField(body, "project_handle").value))
    ensures r == [] <==> StringField(body, "project_handle").None? || Trim(StringField(body, "project_handle").value) == []
  {
    match StringField(body, "project_handle")
    case Some(handle) => Lower(Trim(handle))
    case None => ""
  }

  /** The handler, gate by gate: preflight, the method, the configuration, the body, the
      handle, the request origin, the project, the allowlist; then the payload is built
      and signed. `jti` is the random token id. */
  function IssueSession(c: Platform, parse: string -> Option<Url>, number: string -> Option<real>,
                        env: SessionEnv, lookup: string -> ProjectLookup, req: SessionRequest,
                        nowSeconds: int, jti: string): Reply
  {
    if req.httpMethod == "OPTIONS" then Preflight
    else if req.httpMethod != "POST" then Refused(Chat.Denial(405, "method_not_allowed", false))
    else if !Present(env.supabaseUrl) || !Present(env.serviceRoleKey) || !Present(env.signingSecret)
    then Refused(Chat.Denial(500, "missing_configuration", false))
    else
      var ttl := TokenTtl(number, env.ttlSetting);
      match req.body
      case None => Refused(Chat.Denial(400, "invalid_request", false))
      case Some(body) =>
        var handle := ProjectHandle(body);
        if handle == [] then Refused(Chat.Denial(400, "invalid_request", false))
        else
          var origin := if Present(req.originHeader) then IssuerCanonicalizeOrigin(parse, req.originHeader.value) else None;
          if origin.None? then Refused(Chat.Denial(400, "invalid_origin_format", false))
          else match lookup(handle)
            case LookupFailed => Refused(Chat.Denial(500, "internal_error", false))
            case NotFound => Refused(Chat.Denial(404, "project_not_found", false))
            case Found(project) =>
              if origin.value !in IssuerAllowedOriginSet(parse, project.allowedOrigins)
              then Refused(Chat.Denial(403, "blocked_origin", false))
              else
                var expiresAt := nowSeconds + ttl;
                var claims := Payload(project.id, project.handle, origin.value, nowSeconds as real, expiresAt as real, jti);
                Issued(Session(SignPayload(c, claims, env.signingSecret.value), expiresAt, project.handle, ttl, claims))
  }

  // ---------------------------------------------------------------------------------------
  // what the handler guarantees

  /** An issued session: the request was a POST for a non-empty handle from an origin that
      canonicalises onto the project's allowlist; the claims name the looked-up project and
      that origin, run from now for the lifetime, which is between one second and an hour;
      the token is those claims signed with the configured secret. */
  lemma IssuedSessionClaims(c: Platform, parse: string -> Option<Url>, number: string -> Option<real>,
                            env: SessionEnv, lookup: string -> ProjectLookup, req: SessionRequest,
                            nowSeconds: int, jti: string)
    requires IssueSession(c, parse, number, env, lookup, req, nowSeconds, jti).Issued?
    ensures var s := IssueSession(c, parse, number, env, lookup, req, nowSeconds, jti).session;
      && req.httpMethod == "POST" && req.body.Some? && Present(req.originHeader) && Present(env.signingSecret)
      && ProjectHandle(req.body.value) != []
      && lookup(ProjectHandle(req.body.value)).Found?
      && var project := lookup(ProjectHandle(req.body.value)).row;
         && IssuerCanonicalizeOrigin(parse, req.originHeader.value).Some?
         && var origin := IssuerCanonicalizeOrigin(parse, req.originHeader.value).value;
            && origin in IssuerAllowedOriginSet(parse, project.allowedOrigins)
            && s.claims == Payload(project.id, project.handle, origin, nowSeconds as real, s.expiresAt as real, jti)
            && s.ttl == TokenTtl(number, env.ttlSetting) && 1 <= s.ttl <= TOKEN_TTL_SECONDS_MAX
            && s.expiresAt == nowSeconds + s.ttl
            && s.claims.exp == s.claims.iat + s.ttl as real
            && s.projectHandle == project.handle
            && s.token == SignPayload(c, s.claims, env.signingSecret.value)
  {
  }

  /** Once a POST with the configuration, a handle and a valid origin has found its project,
      it is refused with `blocked_origin` exactly when the canonical origin is not on the
      canonicalised allowlist, and issued otherwise. */
  lemma BlockedOriginIff(c: Platform, parse: string -> Option<Url>, number: string -> Option<real>,
                         env: SessionEnv, lookup: string -> ProjectLookup, req: SessionRequest,
                         nowSeconds: int, jti: string, origin: string, project: Chat.ProjectRow)
    requires req.httpMethod == "POST"
    requires Present(env.supabaseUrl) && Present(env.serviceRoleKey) && Present(env.signingSecret)
    requires req.body.Some? && ProjectHandle(req.body.value) != []
    requires Present(req.originHeader) && IssuerCanonicalizeOrigin(parse, req.originHeader.value) == Some(origin)
    requires lookup(ProjectHandle(req.body.value)) == Found(project)
    ensures var r := IssueSession(c, parse, number, env, lookup, req, nowSeconds, jti);
      && (r == Refused(Chat.Denial(403, "blocked_origin", false)) <==> origin !in IssuerAllowedOriginSet(parse, project.allowedOrigins))
      && (r.Issued? <==> origin in IssuerAllowedOriginSet(parse, project.allowedOrigins))
  {
  }

  /** The refusals before the project is looked up. */
  lemma EarlyRefusals(c: Platform, parse: string -> Option<Url>, number: string -> Option<real>,
                      env: SessionEnv, lookup: string -> ProjectLookup, req: SessionRequest,
                      nowSeconds: int, jti: string)
    ensures var r := IssueSession(c, parse, number, env, lookup, req, nowSeconds, jti);
      && (req.httpMethod != "OPTIONS" && req.httpMethod != "POST" ==> r == Refused(Chat.Denial(405, "method_not_allowed", false)))
      && (req.httpMethod == "POST" && !(Present(env.supabaseUrl) && Present(env.serviceRoleKey) && Present(env.signingSecret))
          ==> r == Refused(Chat.Denial(500, "missing_configuration", false)))
      && (req.httpMethod == "POST" && Present(env.supabaseUrl) && Present(env.serviceRoleKey) && Present(env.signingSecret)
          && (req.body.None? || ProjectHandle(req.body.value) == [])
          ==> r == Refused(Chat.Denial(400, "invalid_request", false)))
      && (req.httpMethod == "POST" && Present(env.supabaseUrl) && Present(env.serviceRoleKey) && Present(env.signingSecret)
          && req.body.Some? && ProjectHandle(req.body.value) != []
          && (!Present(req.originHeader) || IssuerCanonicalizeOrigin(parse, req.originHeader.value).None?)
          ==> r == Refused(Chat.Denial(400, "invalid_origin_format", false)))
  {
  }

  /** A word of the URL-safe alphabet and dots has no whitespace at either end. */
  lemma TokenIsTrimmed(part: string, sig: string)
    requires forall i :: 0 <= i < |part| ==> InUrlAlphabet(part[i])
    requires forall i :: 0 <= i < |sig| ==> InUrlAlphabet(sig[i])
    ensures Trim(part + "." + sig) == part + "." + sig
  {
    var t := part + "." + sig;
    assert !IsSpace(t[0]) by {
      if part != [] {
        assert t[0] == part[0];
      }
    }
    assert !IsSpace(t[|t| - 1]) by {
      if sig != [] {
        assert t[|t| - 1] == sig[|sig| - 1];
      }
    }
    TrimNoEdgeSpace(t);
  }

  /** The issued token is one the chat gateway admits: a later request that carries it with
      a non-empty message, from the same Origin header, before it expires, for a project
      whose row the gateway finds unchanged, passes every gate and is bound to the issued
      claims. The platform must satisfy the laws the token round trip needs. */
  lemma IssuedTokenAdmitted(c: Platform, parse: string -> Option<Url>, number: string -> Option<real>,
                            env: SessionEnv, lookup: string -> ProjectLookup, req: SessionRequest,
                            nowSeconds: int, jti: string,
                            lookupProject: (string, string) -> Option<Chat.ProjectRow>, chat: Chat.ChatRequest)
    requires IssueSession(c, parse, number, env, lookup, req, nowSeconds, jti).Issued?
    requires var p := IssueSession(c, parse, number, env, lookup, req, nowSeconds, jti).session.claims;
      var text := c.stringify(PayloadJson(p));
      c.utf8Encode(text) != [] && c.parseJson(c.utf8Decode(c.utf8Encode(text))) == Some(PayloadJson(p))
    requires forall key, message :: c.hmac(key, message) != []
    requires var s := IssueSession(c, parse, number, env, lookup, req, nowSeconds, jti).session;
      && chat.tokenField == Some(s.token)
      && Chat.PrepareMessage(Chat.FieldOrEmpty(chat.messageField)) != []
      && chat.originHeader == req.originHeader
      && chat.nowSeconds < s.expiresAt
      && req.body.Some? && lookup(ProjectHandle(req.body.value)).Found?
      && lookupProject(s.claims.projectId, s.claims.projectHandle) == Some(lookup(ProjectHandle(req.body.value)).row)
    ensures var s := IssueSession(c, parse, number, env, lookup, req, nowSeconds, jti).session;
      Chat.ChatGate(c, parse, env.signingSecret.value, lookupProject, chat)
      == Ok(Chat.Admission(s.claims, lookup(ProjectHandle(req.body.value)).row,
                           Chat.PrepareMessage(Chat.FieldOrEmpty(chat.messageField)), s.claims.origin))
  {
    IssuedSessionClaims(c, parse, number, env, lookup, req, nowSeconds, jti);
    var s := IssueSession(c, parse, number, env, lookup, req, nowSeconds, jti).session;
    var secret := env.signingSecret.value;
    var project := lookup(ProjectHandle(req.body.value)).row;
    var part := PayloadPart(c, s.claims);
    TokenIsTrimmed(part, SignHmac(c, part, secret));
    assert Trim(Chat.FieldOrEmpty(chat.tokenField)) == s.token;
    IssuedTokenVerifies(c, s.claims, secret);
    CanonicalizersAgree(parse, req.originHeader.value);
    assert Chat.RequestOrigin(parse, chat.originHeader) == Some(s.claims.origin);
    AllowlistsAgree(parse, project.allowedOrigins);
    Chat.GatesPassed(c, parse, secret, lookupProject, chat, s.claims, project);
  }
}
