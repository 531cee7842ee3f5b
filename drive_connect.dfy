/** The drive_connect function: the redirect target of Google's OAuth 2.0 authorization-code
    flow (section 4.1 of RFC 6749). It checks the owner's state parameter and session,
    exchanges the code for tokens (a foreign call whose reply is an input here), checks the
    granted scopes, resolves the Google subject, seals the refresh token under the current
    key and writes one connection row per owner, then redirects back to the owner app. */
module DriveConnect {

  import opened Wrappers
  import opened Text
  import opened Base64
  import opened Crypto
  import opened EmbedToken
  import opened RequestBody
  import Chat

  const DRIVE_FILE_SCOPE: string := "https://www.googleapis.com/auth/drive.file"

  const INVALID_STATE_PAYLOAD: string := "Invalid OAuth state payload."
  const MISSING_STATE_FIELDS: string := "OAuth state payload is missing required fields."

  // ---------------------------------------------------------------------------------------
  // unpadded base64url segments

  /** `(4 - (n % 4 || 4)) % 4`: the number of `=` that completes a quadruple. */
  function PadCount(n: nat): (k: nat)
    ensures k < 4 && (n + k) % 4 == 0
    ensures n + k == (n + 3) / 4 * 4
  {
    (4 - (if n % 4 == 0 then 4 else n % 4)) % 4
  }

  /** `padEnd(length + PadCount(length), "=")`. */
  function RestorePadding(s: string): (r: string)
    ensures |s| <= |r| < |s| + 4 && |r| % 4 == 0
    ensures r[..|s|] == s
    ensures forall i :: |s| <= i < |r| ==> r[i] == '='
  {
    PadEnd(s, |s| + PadCount(|s|), '=')
  }

  /** The decoding both `decodeState` and `extractSubjectFromIdToken` apply to a segment:
      padding restored, the URL-safe characters mapped back, then `atob`. The text is a
      binary string (one character per byte); None where `atob` throws. */
  function DecodeSegment(segment: string): (r: Option<string>)
    ensures r.Some? ==> forall i :: 0 <= i < |r.value| ==> r.value[i] as int < 256
  {
    Atob(FromUrlChars(RestorePadding(segment)))
  }

  /** Padding with `=` commutes with the character mapping, which leaves `=` alone. */
  lemma FromUrlCharsPadding(s: string)
    ensures FromUrlChars(RestorePadding(s)) == PadToQuad(FromUrlChars(s))
  {
    var a := FromUrlChars(RestorePadding(s));
    var b := PadToQuad(FromUrlChars(s));
    assert |a| == |b|;
    forall i | 0 <= i < |a| ensures a[i] == b[i] {
      if i < |s| {
        assert RestorePadding(s)[i] == s[i];
      }
    }
  }

  /** A segment written as unpadded base64url of some bytes decodes to the binary string of
      those bytes. */
  lemma SegmentRoundTrip(b: seq<byte>)
    ensures DecodeSegment(Base64UrlEncode(b)) == Some(Latin1String(b))
  {
    FromUrlCharsPadding(Base64UrlEncode(b));
    Base64UrlRoundTrip(b);
  }

  // ---------------------------------------------------------------------------------------
  // the state parameter

  /** The fields of the state the handler reads; `return_to` is carried but never read. */
  datatype OAuthState = OAuthState(userId: string, sessionToken: string)

  /** The shape `decodeState` demands of the parsed state: a non-null object whose
      `user_id` and `session_token` are strings. */
  predicate StateShaped(j: Json) {
    j.JObject? && HasString(j.fields, "user_id") && HasString(j.fields, "session_token")
  }

  /** `decodeState`: the first message when the text does not decode or does not parse, the
      second when the parsed value is not an object with both string fields. */
  function DecodeState(parseJson: string -> Option<Json>, raw: string): (r: Result<OAuthState, string>)
    ensures r == Err(INVALID_STATE_PAYLOAD) <==>
      DecodeSegment(raw).None? || parseJson(DecodeSegment(raw).value).None?
    ensures r.Err? ==> r.error == INVALID_STATE_PAYLOAD || r.error == MISSING_STATE_FIELDS
    ensures r.Ok? <==>
      DecodeSegment(raw).Some? && parseJson(DecodeSegment(raw).value).Some?
      && StateShaped(parseJson(DecodeSegment(raw).value).value)
    ensures r.Ok? ==>
      var fields := parseJson(DecodeSegment(raw).value).value.fields;
      r.value == OAuthState(fields["user_id"].s, fields["session_token"].s)
  {
    match DecodeSegment(raw)
    case None => Err(INVALID_STATE_PAYLOAD)
    case Some(text) =>
      match parseJson(text)
      case None => Err(INVALID_STATE_PAYLOAD)
      case Some(parsed) =>
        if !StateShaped(parsed) then Err(MISSING_STATE_FIELDS)
        else Ok(OAuthState(parsed.fields["user_id"].s, parsed.fields["session_token"].s))
  }

  /** A state written as unpadded base64url of a one-byte-per-character JSON text that
      parses to a well-shaped object decodes to that object's owner and session token. */
  lemma DecodeEncodedState(parseJson: string -> Option<Json>, text: string, j: Json)
    requires Latin1Bytes(text).Some? && parseJson(text) == Some(j) && StateShaped(j)
    ensures DecodeState(parseJson, Base64UrlEncode(Latin1Bytes(text).value))
            == Ok(OAuthState(j.fields["user_id"].s, j.fields["session_token"].s))
  {
    var b := Latin1Bytes(text).value;
    SegmentRoundTrip(b);
    Latin1BytesRoundTrip(text);
    assert DecodeSegment(Base64UrlEncode(b)) == Some(text);
  }

  // ---------------------------------------------------------------------------------------
  // the id token

  /** `extractSubjectFromIdToken`: the non-empty string `sub` of the JSON in the second
      dot-separated segment; None for an absent or empty token, a token without a dot, a
      segment that does not decode or parse, and a payload without such a `sub`. The
      signature is not checked: the token comes straight from Google's token endpoint. */
  function ExtractSubjectFromIdToken(parseJson: string -> Option<Json>, idToken: Option<string>): (r: Option<string>)
    ensures r.Some? ==> r.value != []
    ensures idToken == None || idToken == Some("") ==> r == None
  {
    if idToken.None? || idToken.value == [] then None
    else
      var parts := Split(idToken.value, IsDot);
      if |parts| < 2 then None
      else
        match DecodeSegment(parts[1])
        case None => None
        case Some(decoded) =>
          match parseJson(decoded)
          case None => None
          case Some(parsed) =>
            if parsed.JObject? && HasString(parsed.fields, "sub") && parsed.fields["sub"].s != []
            then Some(parsed.fields["sub"].s)
            else None
  }

  /** A token with no dot has no payload segment. */
  lemma SubjectNeedsPayloadSegment(parseJson: string -> Option<Json>, token: string)
    requires forall i :: 0 <= i < |token| ==> token[i] != '.'
    ensures ExtractSubjectFromIdToken(parseJson, Some(token)) == None
  {
    SplitNoSep(token, IsDot);
  }

  /** The second dot-separated segment of `header.payload.signature`. */
  lemma SecondSegment(header: string, payload: string, signature: string)
    requires forall i :: 0 <= i < |header| ==> header[i] != '.'
    requires forall i :: 0 <= i < |payload| ==> payload[i] != '.'
    ensures var parts := Split(header + "." + payload + "." + signature, IsDot);
      |parts| >= 2 && parts[1] == payload
  {
    var rest := payload + ['.'] + signature;
    assert header + "." + payload + "." + signature == header + ['.'] + rest;
    SplitAfterSep(payload, '.', signature, IsDot);
    SplitAfterSep(header, '.', rest, IsDot);
  }

  /** A JWS compact token (header, payload, signature) whose payload segment is the unpadded
      base64url of a JSON text with a non-empty string `sub` yields that subject. */
  lemma SubjectFromWellFormedToken(parseJson: string -> Option<Json>, header: string,
                                   text: string, signature: string, sub: string)
    requires forall i :: 0 <= i < |header| ==> header[i] != '.'
    requires Latin1Bytes(text).Some?
    requires parseJson(text).Some? && parseJson(text).value.JObject?
    requires "sub" in parseJson(text).value.fields
    requires parseJson(text).value.fields["sub"] == JString(sub) && sub != []
    ensures
      var payload := Base64UrlEncode(Latin1Bytes(text).value);
      ExtractSubjectFromIdToken(parseJson, Some(header + "." + payload + "." + signature)) == Some(sub)
  {
    var b := Latin1Bytes(text).value;
    var payload := Base64UrlEncode(b);
    assert forall i :: 0 <= i < |payload| ==> payload[i] != '.';
    SecondSegment(header, payload, signature);
    SegmentRoundTrip(b);
    Latin1BytesRoundTrip(text);
  }

  // ---------------------------------------------------------------------------------------
  // Google's error codes (section 5.2 and section 4.1.2.1 of RFC 6749)

  /** The only codes a mapped provider error can carry. */
  predicate MappedCode(code: string) {
    code == "expired_oauth_code" || code == "oauth_client_misconfigured"
    || code == "consent_revoked" || code == "provider_unavailable"
  }

  predicate KnownGoogleError(errorCode: Option<string>) {
    errorCode == Some("invalid_grant") || errorCode == Some("invalid_client")
    || errorCode == Some("access_denied")
  }

  /** `mapGoogleTokenError`: total over every input, null included. */
  function MapGoogleTokenError(errorCode: Option<string>): (m: Chat.Denial)
    ensures MappedCode(m.code)
    ensures m.retryable <==> m.status != 500
    ensures m.code == "provider_unavailable" <==> !KnownGoogleError(errorCode)
  {
    match errorCode
    case Some("invalid_grant") => Chat.Denial(400, "expired_oauth_code", true)
    case Some("invalid_client") => Chat.Denial(500, "oauth_client_misconfigured", false)
    case Some("access_denied") => Chat.Denial(400, "consent_revoked", true)
    case _ => Chat.Denial(503, "provider_unavailable", true)
  }

  /** The mapping, row by row. */
  lemma GoogleErrorTable(other: Option<string>)
    requires !KnownGoogleError(other)
    ensures MapGoogleTokenError(Some("invalid_grant")) == Chat.Denial(400, "expired_oauth_code", true)
    ensures MapGoogleTokenError(Some("invalid_client")) == Chat.Denial(500, "oauth_client_misconfigured", false)
    ensures MapGoogleTokenError(Some("access_denied")) == Chat.Denial(400, "consent_revoked", true)
    ensures MapGoogleTokenError(other) == Chat.Denial(503, "provider_unavailable", true)
  {
  }

  // ---------------------------------------------------------------------------------------
  // the owner-app redirect

  /** The parts of the parsed `OWNER_APP_URL` the redirect touches: the query is the list of
      name/value pairs of `url.searchParams`; everything before the path is `prefix`. */
  datatype OwnerUrl = OwnerUrl(prefix: string, pathname: string, query: seq<(string, string)>, hash: string)

  /** The values of every pair named `key`, in order (`searchParams.getAll`). */
  function ValuesOf(q: seq<(string, string)>, key: string): (r: seq<string>)
    ensures |r| <= |q|
  {
    if q == [] then []
    else (if q[0].0 == key then [q[0].1] else []) + ValuesOf(q[1..], key)
  }

  /** Every pair named `key` removed. */
  function RemoveKey(q: seq<(string, string)>, key: string): (r: seq<(string, string)>)
    ensures ValuesOf(r, key) == []
    ensures forall k :: k != key ==> ValuesOf(r, k) == ValuesOf(q, k)
  {
    if q == [] then []
    else if q[0].0 == key then RemoveKey(q[1..], key)
    else [q[0]] + RemoveKey(q[1..], key)
  }

  /** `searchParams.set`: the first pair named `key` takes the value and later ones are
      removed, or the pair is appended when there is none. */
  function SetParam(q: seq<(string, string)>, key: string, value: string): (r: seq<(string, string)>)
    ensures ValuesOf(r, key) == [value]
    ensures forall k :: k != key ==> ValuesOf(r, k) == ValuesOf(q, k)
  {
    if q == [] then [(key, value)]
    else if q[0].0 == key then [(key, value)] + RemoveKey(q[1..], key)
    else [q[0]] + SetParam(q[1..], key, value)
  }

  /** `redirectToOwner`: the owner app's `/settings` page with `drive_connect` set to the
      status and `reason` set only when a non-empty one is given; the rest of the URL is the
      configured one. */
  function RedirectToOwner(owner: OwnerUrl, status: string, reason: Option<string>): (u: OwnerUrl)
    ensures u.prefix == owner.prefix && u.hash == owner.hash && u.pathname == "/settings"
    ensures ValuesOf(u.query, "drive_connect") == [status]
    ensures reason.Some? && reason.value != [] ==> ValuesOf(u.query, "reason") == [reason.value]
    ensures !(reason.Some? && reason.value != []) ==>
      ValuesOf(u.query, "reason") == ValuesOf(owner.query, "reason")
    ensures forall k :: k != "drive_connect" && k != "reason" ==>
      ValuesOf(u.query, k) == ValuesOf(owner.query, k)
  {
    var q := SetParam(owner.query, "drive_connect", status);
    var q' := if reason.Some? && reason.value != [] then SetParam(q, "reason", reason.value) else q;
    OwnerUrl(owner.prefix, "/settings", q', owner.hash)
  }

  // ---------------------------------------------------------------------------------------
  // the handler

  /** The environment variables the handler requires; None where one is unset. */
  datatype DriveEnv = DriveEnv(clientId: Option<string>, clientSecret: Option<string>,
                               redirectUri: Option<string>, supabaseUrl: Option<string>,
                               serviceRoleKey: Option<string>, anonKey: Option<string>)

  /** The callback request: its method and the `error`, `code` and `state` query values. */
  datatype Callback = Callback(httpMethod: string, error: Option<string>,
                               code: Option<string>, state: Option<string>)

  /** The token endpoint's reply: its `ok` flag and its parsed body (`{}` where the body
      does not parse). */
  datatype TokenReply = TokenReply(ok: bool, body: Json)

  /** The owner's current `google_connections` row, as the read returns it. */
  datatype ExistingConnection =
    | ConnectionReadFailed
    | NoConnection
    | Connection(ciphertext: string, nonce: string, keyVersion: int)

  /** The row the handler upserts, keyed by `user_id`. */
  datatype ConnectionRow = ConnectionRow(userId: string, googleSubject: string,
                                         ciphertext: string, nonce: string, keyVersion: int,
                                         scopes: seq<string>)

  /** A JSON error response, a redirect to the owner app, or an exception the handler does
      not catch (the runtime's own 500). */
  datatype Reply = Failed(denial: Chat.Denial) | Redirect(target: OwnerUrl) | Unhandled

  datatype Outcome = Outcome(reply: Reply, written: Option<ConnectionRow>)

  /** JavaScript truthiness of an optional string. */
  predicate Given(v: Option<string>) {
    v.Some? && v.value != []
  }

  predicate Configured(env: DriveEnv) {
    Given(env.clientId) && Given(env.clientSecret) && Given(env.redirectUri)
    && Given(env.supabaseUrl) && Given(env.serviceRoleKey) && Given(env.anonKey)
  }

  /** The fixed reasons the handler itself writes into error redirects. */
  predicate HandlerReason(reason: string) {
    reason == "insufficient_scopes" || reason == "oauth_missing_tokens"
    || reason == "google_identity_unavailable" || reason == "missing_refresh_token"
  }

  /** `redirectToOwner`, which throws out of the handler when `OWNER_APP_URL` does not
      parse (None here). */
  function RedirectTo(owner: Option<OwnerUrl>, status: string, reason: Option<string>): Reply {
    match owner
    case None => Unhandled
    case Some(u) => Redirect(RedirectToOwner(u, status, reason))
  }

  function ErrorRedirect(owner: Option<OwnerUrl>, reason: string): Outcome {
    Outcome(RedirectTo(owner, "error", Some(reason)), None)
  }

  function Fail(status: int, code: string): Outcome {
    Outcome(Failed(Chat.Denial(status, code, false)), None)
  }

  /** The granted scopes: `scope.split(" ").filter(Boolean)`. */
  function GrantedScopes(body: Json): (r: seq<string>)
    ensures forall k :: 0 <= k < |r| ==> r[k] != []
  {
    var scopeText := match StringField(body, "scope") case Some(s) => s case None => "";
    DropEmpty(Split(scopeText, IsBlankChar))
  }

  /** The subject: from the id token, else from the userinfo endpoint when there is an
      access token. `userinfo` is that foreign call: the string `sub` of its reply, or None. */
  function ResolveSubject(parseJson: string -> Option<Json>, idToken: Option<string>,
                          accessToken: Option<string>, userinfo: string -> Option<string>): Option<string>
  {
    var fromIdToken := ExtractSubjectFromIdToken(parseJson, idToken);
    if !Given(fromIdToken) && Given(accessToken) then userinfo(accessToken.value)
    else fromIdToken
  }

  /** The stored ciphertext, nonce and key version the row gets. */
  datatype CipherChoice = Stored(ciphertext: string, nonce: string, keyVersion: int) | NoRefreshToken | KeyringFailed

  /** A fresh refresh token is sealed under the current key of the keyring built from the
      environment (`keyring`; an error makes the handler throw) with the random `nonce`; with
      none, the existing row's sealed token is kept as it is; with neither, nothing. */
  function ChooseCiphertext(refreshToken: Option<string>, existing: ExistingConnection,
                            keyring: Result<Keyring, KeyError>, nonce: seq<byte>,
                            seal: (seq<byte>, seq<byte>, string) -> seq<byte>): CipherChoice
    requires keyring.Ok? ==> ValidKeyring(keyring.value)
  {
    if Given(refreshToken) then
      match keyring
      case Err(_) => KeyringFailed
      case Ok(k) =>
        var sealed := Encrypt(k, refreshToken.value, nonce, seal);
        Stored(ToPostgresBytea(sealed.ciphertext), ToPostgresBytea(sealed.nonce), sealed.keyVersion)
    else if existing.Connection? then Stored(existing.ciphertext, existing.nonce, existing.keyVersion)
    else NoRefreshToken
  }

  /** Everything after a successful token exchange. */
  function StoreConnection(owner: Option<OwnerUrl>, parseJson: string -> Option<Json>,
                           state: OAuthState, body: Json, userinfo: string -> Option<string>,
                           existing: ExistingConnection, keyring: Result<Keyring, KeyError>,
                           nonce: seq<byte>, seal: (seq<byte>, seq<byte>, string) -> seq<byte>,
                           upsertFails: bool): Outcome
    requires keyring.Ok? ==> ValidKeyring(keyring.value)
  {
    if body.JNull? then Outcome(Unhandled, None)  // `tokenJson.refresh_token` on null throws
    else
      var refreshToken := StringField(body, "refresh_token");
      var accessToken := StringField(body, "access_token");
      var scopes := GrantedScopes(body);
      if DRIVE_FILE_SCOPE !in scopes then ErrorRedirect(owner, "insufficient_scopes")
      else if !Given(refreshToken) && !Given(accessToken) then ErrorRedirect(owner, "oauth_missing_tokens")
      else
        var subject := ResolveSubject(parseJson, StringField(body, "id_token"), accessToken, userinfo);
        if !Given(subject) then ErrorRedirect(owner, "google_identity_unavailable")
        else if existing.ConnectionReadFailed? then Fail(500, "connection_read_failed")
        else
          match ChooseCiphertext(refreshToken, existing, keyring, nonce, seal)
          case KeyringFailed => Outcome(Unhandled, None)
          case NoRefreshToken => ErrorRedirect(owner, "missing_refresh_token")
          case Stored(ciphertext, sealedNonce, keyVersion) =>
            if upsertFails then Fail(500, "connection_write_failed")
            else
              Outcome(RedirectTo(owner, "success", None),
                      Some(ConnectionRow(state.userId, subject.value, ciphertext, sealedNonce, keyVersion, scopes)))
  }

  /** The whole handler, in the order of its checks. `getUser` is the session lookup (the
      user id behind a session token, None on error or no user); `token` is the reply of
      the code exchange; a failed upsert is `upsertFails`. */
  function HandleCallback(owner: Option<OwnerUrl>, parseJson: string -> Option<Json>,
                          env: DriveEnv, req: Callback, getUser: string -> Option<string>,
                          token: TokenReply, userinfo: string -> Option<string>,
                          existing: ExistingConnection, keyring: Result<Keyring, KeyError>,
                          nonce: seq<byte>, seal: (seq<byte>, seq<byte>, string) -> seq<byte>,
                          upsertFails: bool): Outcome
    requires keyring.Ok? ==> ValidKeyring(keyring.value)
  {
    if req.httpMethod != "GET" then Fail(405, "method_not_allowed")
    else if !Configured(env) then Fail(500, "missing_configuration")
    else if Given(req.error) then ErrorRedirect(owner, MapGoogleTokenError(req.error).code)
    else if !Given(req.code) || !Given(req.state) then Fail(400, "invalid_request")
    else
      match DecodeState(parseJson, req.state.value)
      case Err(_) => Fail(400, "invalid_state")
      case Ok(state) =>
        if getUser(state.sessionToken) != Some(state.userId) then Fail(401, "invalid_owner_session")
        else if !token.ok then ErrorRedirect(owner, MapGoogleTokenError(StringField(token.body, "error")).code)
        else StoreConnection(owner, parseJson, state, token.body, userinfo, existing, keyring, nonce, seal, upsertFails)
  }

  // ---------------------------------------------------------------------------------------
  // properties of the handler

  /** Whether the request got past the checks that precede the token exchange. */
  predicate Admitted(parseJson: string -> Option<Json>, env: DriveEnv, req: Callback) {
    req.httpMethod == "GET" && Configured(env) && !Given(req.error)
    && Given(req.code) && Given(req.state) && DecodeState(parseJson, req.state.value).Ok?
  }

  /** What every redirect promises: the `/settings` page; `drive_connect=success` with a
      written row, or `drive_connect=error` with nothing written and a single `reason` that
      is a mapped code or one of the handler's fixed reasons. */
  predicate RedirectWellFormed(o: Outcome) {
    o.reply.Redirect? ==>
      && o.reply.target.pathname == "/settings"
      && ((ValuesOf(o.reply.target.query, "drive_connect") == ["success"] && o.written.Some?)
          || (&& ValuesOf(o.reply.target.query, "drive_connect") == ["error"] && o.written.None?
              && |ValuesOf(o.reply.target.query, "reason")| == 1
              && (MappedCode(ValuesOf(o.reply.target.query, "reason")[0])
                  || HandlerReason(ValuesOf(o.reply.target.query, "reason")[0]))))
  }

  lemma ErrorRedirectWellFormed(owner: Option<OwnerUrl>, reason: string)
    requires MappedCode(reason) || HandlerReason(reason)
    ensures RedirectWellFormed(ErrorRedirect(owner, reason))
  {
    if owner.Some? {
      var u := RedirectToOwner(owner.value, "error", Some(reason));
      assert ValuesOf(u.query, "reason") == [reason];
    }
  }

  lemma StoreConnectionWellFormed(owner: Option<OwnerUrl>, parseJson: string -> Option<Json>,
                                  state: OAuthState, body: Json, userinfo: string -> Option<string>,
                                  existing: ExistingConnection, keyring: Result<Keyring, KeyError>,
                                  nonce: seq<byte>, seal: (seq<byte>, seq<byte>, string) -> seq<byte>,
                                  upsertFails: bool)
    requires keyring.Ok? ==> ValidKeyring(keyring.value)
    ensures RedirectWellFormed(StoreConnection(owner, parseJson, state, body, userinfo, existing, keyring, nonce, seal, upsertFails))
  {
    var o := StoreConnection(owner, parseJson, state, body, userinfo, existing, keyring, nonce, seal, upsertFails);
    if !body.JNull? {
      var refreshToken := StringField(body, "refresh_token");
      var accessToken := StringField(body, "access_token");
      var subject := ResolveSubject(parseJson, StringField(body, "id_token"), accessToken, userinfo);
      if DRIVE_FILE_SCOPE !in GrantedScopes(body) {
        ErrorRedirectWellFormed(owner, "insufficient_scopes");
      } else if !Given(refreshToken) && !Given(accessToken) {
        ErrorRedirectWellFormed(owner, "oauth_missing_tokens");
      } else if !Given(subject) {
        ErrorRedirectWellFormed(owner, "google_identity_unavailable");
      } else if !existing.ConnectionReadFailed? {
        var c := ChooseCiphertext(refreshToken, existing, keyring, nonce, seal);
        if c.NoRefreshToken? {
          ErrorRedirectWellFormed(owner, "missing_refresh_token");
        } else if c.Stored? && !upsertFails && owner.Some? {
          assert o.reply == Redirect(RedirectToOwner(owner.value, "success", None));
        }
      }
    }
  }

  /** Provider text never reaches the owner: every redirect the handler answers with is
      well formed in the sense above. */
  lemma {:induction false} RedirectReasonsFixed(owner: Option<OwnerUrl>, parseJson: string -> Option<Json>,
                             env: DriveEnv, req: Callback, getUser: string -> Option<string>,
                             token: TokenReply, userinfo: string -> Option<string>,
                             existing: ExistingConnection, keyring: Result<Keyring, KeyError>,
                             nonce: seq<byte>, seal: (seq<byte>, seq<byte>, string) -> seq<byte>,
                             upsertFails: bool)
    requires keyring.Ok? ==> ValidKeyring(keyring.value)
    ensures RedirectWellFormed(HandleCallback(owner, parseJson, env, req, getUser, token, userinfo, existing, keyring, nonce, seal, upsertFails))
  {
    var o := HandleCallback(owner, parseJson, env, req, getUser, token, userinfo, existing, keyring, nonce, seal, upsertFails);
    if req.httpMethod != "GET" || !Configured(env) {
    } else if Given(req.error) {
      assert o == ErrorRedirect(owner, MapGoogleTokenError(req.error).code);
      ErrorRedirectWellFormed(owner, MapGoogleTokenError(req.error).code);
    } else if Admitted(parseJson, env, req) {
      var state := DecodeState(parseJson, req.state.value).value;
      if getUser(state.sessionToken) != Some(state.userId) {
      } else if !token.ok {
        assert o == ErrorRedirect(owner, MapGoogleTokenError(StringField(token.body, "error")).code);
        ErrorRedirectWellFormed(owner, MapGoogleTokenError(StringField(token.body, "error")).code);
      } else {
        assert o == StoreConnection(owner, parseJson, state, token.body, userinfo, existing, keyring, nonce, seal, upsertFails);
        StoreConnectionWellFormed(owner, parseJson, state, token.body, userinfo, existing, keyring, nonce, seal, upsertFails);
      }
    }
  }

  /** The session behind the state's token must be the state's owner: otherwise 401, and
      nothing is written. */
  lemma OwnerSessionRequired(owner: Option<OwnerUrl>, parseJson: string -> Option<Json>,
                             env: DriveEnv, req: Callback, getUser: string -> Option<string>,
                             token: TokenReply, userinfo: string -> Option<string>,
                             existing: ExistingConnection, keyring: Result<Keyring, KeyError>,
                             nonce: seq<byte>, seal: (seq<byte>, seq<byte>, string) -> seq<byte>,
                             upsertFails: bool)
    requires keyring.Ok? ==> ValidKeyring(keyring.value)
    requires Admitted(parseJson, env, req)
    requires var state := DecodeState(parseJson, req.state.value).value;
      getUser(state.sessionToken) != Some(state.userId)
    ensures HandleCallback(owner, parseJson, env, req, getUser, token, userinfo, existing, keyring, nonce, seal, upsertFails)
      == Outcome(Failed(Chat.Denial(401, "invalid_owner_session", false)), None)
  {
  }

  /** The row stored after the exchange: the state's owner, the resolved (non-empty)
      subject, the chosen sealed token and the granted scopes, which include drive.file;
      and it is stored only when the token reply is not null, the read succeeded and the
      upsert did not fail. */
  lemma StoredRow(owner: Option<OwnerUrl>, parseJson: string -> Option<Json>,
                  state: OAuthState, body: Json, userinfo: string -> Option<string>,
                  existing: ExistingConnection, keyring: Result<Keyring, KeyError>,
                  nonce: seq<byte>, seal: (seq<byte>, seq<byte>, string) -> seq<byte>,
                  upsertFails: bool)
    requires keyring.Ok? ==> ValidKeyring(keyring.value)
    ensures
      var o := StoreConnection(owner, parseJson, state, body, userinfo, existing, keyring, nonce, seal, upsertFails);
      var subject := ResolveSubject(parseJson, StringField(body, "id_token"), StringField(body, "access_token"), userinfo);
      var c := ChooseCiphertext(StringField(body, "refresh_token"), existing, keyring, nonce, seal);
      o.written.Some? ==>
        && !body.JNull? && !upsertFails && !existing.ConnectionReadFailed?
        && DRIVE_FILE_SCOPE in GrantedScopes(body) && Given(subject) && c.Stored?
        && o.written.value == ConnectionRow(state.userId, subject.value, c.ciphertext, c.nonce,
                                            c.keyVersion, GrantedScopes(body))
  {
  }

  /** A row is written only for an admitted callback whose session matched the state's
      owner and whose exchange succeeded, and it is the row `StoredRow` describes. */
  lemma WrittenRowChecked(owner: Option<OwnerUrl>, parseJson: string -> Option<Json>,
                          env: DriveEnv, req: Callback, getUser: string -> Option<string>,
                          token: TokenReply, userinfo: string -> Option<string>,
                          existing: ExistingConnection, keyring: Result<Keyring, KeyError>,
                          nonce: seq<byte>, seal: (seq<byte>, seq<byte>, string) -> seq<byte>,
                          upsertFails: bool)
    requires keyring.Ok? ==> ValidKeyring(keyring.value)
    ensures
      var o := HandleCallback(owner, parseJson, env, req, getUser, token, userinfo, existing, keyring, nonce, seal, upsertFails);
      o.written.Some? ==>
        && Admitted(parseJson, env, req) && token.ok
        && var state := DecodeState(parseJson, req.state.value).value;
        && getUser(state.sessionToken) == Some(state.userId)
        && o == StoreConnection(owner, parseJson, state, token.body, userinfo, existing, keyring, nonce, seal, upsertFails)
  {
  }

  /** Where the subject comes from: the id token when it names one; the userinfo endpoint
      only when it does not and there is an access token. */
  lemma SubjectSource(parseJson: string -> Option<Json>, idToken: Option<string>,
                      accessToken: Option<string>, userinfo: string -> Option<string>)
    ensures var fromIdToken := ExtractSubjectFromIdToken(parseJson, idToken);
      && (fromIdToken.Some? ==> ResolveSubject(parseJson, idToken, accessToken, userinfo) == fromIdToken)
      && (fromIdToken.None? && Given(accessToken) ==>
            ResolveSubject(parseJson, idToken, accessToken, userinfo) == userinfo(accessToken.value))
      && (fromIdToken.None? && !Given(accessToken) ==>
            ResolveSubject(parseJson, idToken, accessToken, userinfo) == None)
  {
  }

  /** The sealed refresh token a row gets: a fresh refresh token sealed under the current
      key version, which then opens back to that token (given a cipher whose opening undoes
      sealing); without one, the existing row's ciphertext, nonce and key version unchanged. */
  lemma CiphertextSelection(refreshToken: Option<string>, existing: ExistingConnection,
                            keyring: Result<Keyring, KeyError>, nonce: seq<byte>,
                            seal: (seq<byte>, seq<byte>, string) -> seq<byte>,
                            open: (seq<byte>, seq<byte>, seq<byte>) -> Option<string>)
    requires keyring.Ok? ==> ValidKeyring(keyring.value)
    requires CipherRoundTrip(seal, open)
    ensures var c := ChooseCiphertext(refreshToken, existing, keyring, nonce, seal);
      && (Given(refreshToken) && keyring.Ok? ==>
            && c.Stored? && c.keyVersion == CurrentVersion(keyring.value)
            && c.nonce == ToPostgresBytea(nonce)
            && ByteaDecode(c.ciphertext).Some?
            && Decrypt(keyring.value, ByteaDecode(c.ciphertext).value, ByteaDecode(c.nonce).value,
                       c.keyVersion, open) == Ok(refreshToken.value))
      && (!Given(refreshToken) && existing.Connection? ==>
            c == Stored(existing.ciphertext, existing.nonce, existing.keyVersion))
      && (!Given(refreshToken) && !existing.Connection? ==> c == NoRefreshToken)
  {
    if Given(refreshToken) && keyring.Ok? {
      var k := keyring.value;
      var sealed := Encrypt(k, refreshToken.value, nonce, seal);
      ByteaRoundTrip(sealed.ciphertext);
      ByteaRoundTrip(sealed.nonce);
      EncryptDecrypt(k, refreshToken.value, nonce, seal, open);
    }
  }

  /** Past the exchange, with drive.file granted, a reply holding neither token ends in the
      `oauth_missing_tokens` redirect. */
  lemma MissingTokensRedirect(owner: OwnerUrl, parseJson: string -> Option<Json>,
                              state: OAuthState, body: Json, userinfo: string -> Option<string>,
                              existing: ExistingConnection, keyring: Result<Keyring, KeyError>,
                              nonce: seq<byte>, seal: (seq<byte>, seq<byte>, string) -> seq<byte>,
                              upsertFails: bool)
    requires keyring.Ok? ==> ValidKeyring(keyring.value)
    requires !body.JNull? && DRIVE_FILE_SCOPE in GrantedScopes(body)
    requires !Given(StringField(body, "refresh_token")) && !Given(StringField(body, "access_token"))
    ensures
      var o := StoreConnection(Some(owner), parseJson, state, body, userinfo, existing, keyring, nonce, seal, upsertFails);
      o.written.None? && o.reply.Redirect?
      && ValuesOf(o.reply.target.query, "reason") == ["oauth_missing_tokens"]
  {
  }
}
