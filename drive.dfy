/** The owner app's Google Drive helpers: recognising a Drive file id in what the owner
    pastes, the source types and their MIME types, and the state parameter of the consent
    URL, which the drive_connect function decodes. */
module Drive {

  import opened Wrappers
  import opened Text
  import opened Base64
  import opened EmbedToken
  import opened Origin
  import opened DriveConnect

  // ---------------------------------------------------------------------------------------
  // file ids

  const DOCS_DOCUMENT_PATH: string := "/document/d/"
  const DOCS_PRESENTATION_PATH: string := "/presentation/d/"
  const DRIVE_FILE_PATH: string := "/file/d/"

  /** The prefixes in the order the loop tries them. */
  const ID_PREFIXES: seq<string> := [DOCS_DOCUMENT_PATH, DOCS_PRESENTATION_PATH, DRIVE_FILE_PATH]

  /** `[a-zA-Z0-9_-]` is the base64url alphabet. */
  predicate IdText(s: string) {
    forall i :: 0 <= i < |s| ==> InUrlAlphabet(s[i])
  }

  /** The id that starts at `start`: the text up to the next `/` (or the end), accepted when
      it is non-empty and over the id alphabet. */
  function IdAt(path: string, start: nat): (r: Option<string>)
    requires start <= |path|
    ensures r.Some? ==> r.value != [] && IdText(r.value) && OccursAt(path, r.value, start)
    ensures r.Some? ==> start + |r.value| == |path| || path[start + |r.value|] == '/'
  {
    var rest := path[start..];
    var end := IndexOf(rest, "/");
    var id := if end == -1 then rest else rest[..end];
    assert end != -1 ==> rest[end] == '/' by {
      if end != -1 { assert OccursAt(rest, "/", end); }
    }
    if id != [] && IdText(id) then Some(id) else None
  }

  /** The prefix loop: the first prefix that occurs anywhere in the path decides, and a bad
      id there gives None without trying the later prefixes. */
  function IdAfterFirstPrefix(path: string, prefixes: seq<string>): (r: Option<string>)
    ensures r.Some? ==> r.value != [] && IdText(r.value)
  {
    if prefixes == [] then None
    else
      var i := IndexOf(path, prefixes[0]);
      if i == -1 then IdAfterFirstPrefix(path, prefixes[1..])
      else IdAt(path, i + |prefixes[0]|)
  }

  /** `extractDriveFileId`: for an http(s) URL, the id after the first known prefix in its
      path (None where `new URL` throws); otherwise the trimmed input itself when it is at
      least 20 characters over the id alphabet. `parse` is the platform's URL parser. */
  function ExtractDriveFileId(parse: string -> Option<Url>, input: string): (r: Option<string>)
    ensures r.Some? ==> r.value != [] && IdText(r.value)
    ensures Trim(input) == [] ==> r == None
  {
    var trimmed := Trim(input);
    if trimmed == [] then None
    else if StartsWith(trimmed, "http://") || StartsWith(trimmed, "https://") then
      match parse(trimmed)
      case None => None
      case Some(url) => IdAfterFirstPrefix(url.pathname, ID_PREFIXES)
    else if |trimmed| >= 20 && IdText(trimmed) then Some(trimmed)
    else None
  }

  predicate LooksLikeUrl(s: string) {
    StartsWith(s, "http://") || StartsWith(s, "https://")
  }

  /** Text that is not a URL is accepted exactly when, trimmed, it is a raw id of at least
      20 characters, and then it is returned unchanged. */
  lemma RawIdAccepted(parse: string -> Option<Url>, input: string)
    requires !LooksLikeUrl(Trim(input))
    ensures ExtractDriveFileId(parse, input).Some? <==> |Trim(input)| >= 20 && IdText(Trim(input))
    ensures ExtractDriveFileId(parse, input).Some? ==> ExtractDriveFileId(parse, input).value == Trim(input)
  {
  }

  /** For a URL the prefixes are tried in order: the document prefix wins wherever it
      occurs; the presentation prefix decides only without it; the file prefix only
      without either. */
  lemma {:induction false} PrefixOrder(path: string)
    ensures Contains(path, DOCS_DOCUMENT_PATH) ==>
      IdAfterFirstPrefix(path, ID_PREFIXES) == IdAt(path, IndexOf(path, DOCS_DOCUMENT_PATH) + |DOCS_DOCUMENT_PATH|)
    ensures !Contains(path, DOCS_DOCUMENT_PATH) && Contains(path, DOCS_PRESENTATION_PATH) ==>
      IdAfterFirstPrefix(path, ID_PREFIXES) == IdAt(path, IndexOf(path, DOCS_PRESENTATION_PATH) + |DOCS_PRESENTATION_PATH|)
    ensures !Contains(path, DOCS_DOCUMENT_PATH) && !Contains(path, DOCS_PRESENTATION_PATH) ==>
      IdAfterFirstPrefix(path, ID_PREFIXES) ==
        if Contains(path, DRIVE_FILE_PATH) then IdAt(path, IndexOf(path, DRIVE_FILE_PATH) + |DRIVE_FILE_PATH|) else None
  {
    assert ID_PREFIXES[0] == DOCS_DOCUMENT_PATH;
    assert ID_PREFIXES[1..][0] == DOCS_PRESENTATION_PATH;
    assert ID_PREFIXES[1..][1..][0] == DRIVE_FILE_PATH;
    assert ID_PREFIXES[1..][1..][1..] == [];
    if !Contains(path, DOCS_DOCUMENT_PATH) {
      assert IdAfterFirstPrefix(path, ID_PREFIXES) == IdAfterFirstPrefix(path, ID_PREFIXES[1..]);
      if !Contains(path, DOCS_PRESENTATION_PATH) {
        assert IdAfterFirstPrefix(path, ID_PREFIXES[1..]) == IdAfterFirstPrefix(path, ID_PREFIXES[1..][1..]);
        if !Contains(path, DRIVE_FILE_PATH) {
          assert IdAfterFirstPrefix(path, ID_PREFIXES[1..][1..]) == IdAfterFirstPrefix(path, []);
        }
      }
    }
  }

  /** No `/` occurs where the text holds another character. */
  lemma SlashNotAt(s: string, j: nat)
    requires j < |s| && s[j] != '/'
    ensures !OccursAt(s, "/", j)
  {
    assert s[j..j + 1][0] == s[j];
  }

  /** The URL a Docs editor shows, `.../document/d/<id>/edit`, yields its id. */
  lemma {:induction false} DocumentPathId(id: string, tail: string)
    requires id != [] && IdText(id)
    requires tail == [] || tail[0] == '/'
    ensures IdAfterFirstPrefix(DOCS_DOCUMENT_PATH + id + tail, ID_PREFIXES) == Some(id)
  {
    var path := DOCS_DOCUMENT_PATH + id + tail;
    assert OccursAt(path, DOCS_DOCUMENT_PATH, 0);
    assert IndexOf(path, DOCS_DOCUMENT_PATH) == 0;
    PrefixOrder(path);
    var start := |DOCS_DOCUMENT_PATH|;
    var rest := path[start..];
    assert rest == id + tail;
    var end := IndexOf(rest, "/");
    assert forall j :: 0 <= j < |id| ==> !OccursAt(rest, "/", j) by {
      forall j | 0 <= j < |id| ensures !OccursAt(rest, "/", j) {
        assert rest[j] == id[j];
        assert InUrlAlphabet(id[j]);
        SlashNotAt(rest, j);
      }
    }
    if tail == [] {
      assert rest == id;
      assert end == -1;
    } else {
      assert OccursAt(rest, "/", |id|);
      assert end == |id| by {
        if end != -1 && end > |id| {
          assert false;
        }
      }
      assert rest[..end] == id;
    }
  }

  // ---------------------------------------------------------------------------------------
  // source types

  datatype SourceType = GDoc | GSlides | GPdf

  const DOCUMENT_MIME: string := "application/vnd.google-apps.document"
  const PRESENTATION_MIME: string := "application/vnd.google-apps.presentation"
  const PDF_MIME: string := "application/pdf"

  /** `inferSourceTypeFromUrl`: `gdoc` when the text holds the document prefix, which
      takes priority, `gslides` for the presentation prefix, and null otherwise, a Drive
      file URL included. */
  function InferSourceTypeFromUrl(input: string): (r: Option<SourceType>)
    ensures r == Some(GDoc) <==> Contains(Trim(input), DOCS_DOCUMENT_PATH)
    ensures r == Some(GSlides) <==>
      !Contains(Trim(input), DOCS_DOCUMENT_PATH) && Contains(Trim(input), DOCS_PRESENTATION_PATH)
    ensures r != Some(GPdf)
  {
    var trimmed := Trim(input);
    if Contains(trimmed, DOCS_DOCUMENT_PATH) then Some(GDoc)
    else if Contains(trimmed, DOCS_PRESENTATION_PATH) then Some(GSlides)
    else None
  }

  /** `mapMimeTypeToSourceType`. */
  function MapMimeTypeToSourceType(mimeType: string): (r: Option<SourceType>)
  {
    if mimeType == DOCUMENT_MIME then Some(GDoc)
    else if mimeType == PRESENTATION_MIME then Some(GSlides)
    else if mimeType == PDF_MIME then Some(GPdf)
    else None
  }

  /** `sourceTypeToMimeType`. */
  function SourceTypeToMimeType(t: SourceType): string {
    match t
    case GDoc => DOCUMENT_MIME
    case GSlides => PRESENTATION_MIME
    case GPdf => PDF_MIME
  }

  /** The two mappings are inverse: every source type maps to a MIME type that maps back,
      and the only MIME strings that map to a type are those three. */
  lemma MimeTypesRoundTrip(t: SourceType, mimeType: string)
    ensures MapMimeTypeToSourceType(SourceTypeToMimeType(t)) == Some(t)
    ensures MapMimeTypeToSourceType(mimeType).Some? ==>
      SourceTypeToMimeType(MapMimeTypeToSourceType(mimeType).value) == mimeType
    ensures MapMimeTypeToSourceType(mimeType).None? <==>
      mimeType != DOCUMENT_MIME && mimeType != PRESENTATION_MIME && mimeType != PDF_MIME
  {
  }

  // ---------------------------------------------------------------------------------------
  // the consent URL and its state

  /** `encodeState`: `btoa` of the JSON text made URL-safe, trailing `=` removed; None where
      `btoa` throws on a character above 255. */
  function EncodeState(stringify: Json -> string, payload: Json): (r: Option<string>)
    ensures r.Some? <==> Latin1Bytes(stringify(payload)).Some?
    ensures r.Some? ==> r.value == Base64UrlEncode(Latin1Bytes(stringify(payload)).value)
    ensures r.Some? ==> forall i :: 0 <= i < |r.value| ==> InUrlAlphabet(r.value[i])
  {
    match Btoa(stringify(payload))
    case None => None
    case Some(encoded) => Some(StripTrailing(ToUrlChars(encoded), '='))
  }

  /** The object the owner app encodes. */
  function StatePayload(userId: string, sessionToken: string, returnTo: string): Json {
    JObject(map["user_id" := JString(userId), "session_token" := JString(sessionToken),
                "return_to" := JString(returnTo)])
  }

  /** What the owner app encodes, drive_connect decodes: given a JSON text of one byte per
      character (so that `btoa` accepts it) that `JSON.parse` reads back as the object,
      the owner and session token come back unchanged. */
  lemma StateRoundTrip(stringify: Json -> string, parseJson: string -> Option<Json>,
                       userId: string, sessionToken: string, returnTo: string)
    requires Latin1Bytes(stringify(StatePayload(userId, sessionToken, returnTo))).Some?
    requires parseJson(stringify(StatePayload(userId, sessionToken, returnTo)))
             == Some(StatePayload(userId, sessionToken, returnTo))
    ensures EncodeState(stringify, StatePayload(userId, sessionToken, returnTo)).Some?
    ensures DecodeState(parseJson, EncodeState(stringify, StatePayload(userId, sessionToken, returnTo)).value)
            == Ok(OAuthState(userId, sessionToken))
  {
    var j := StatePayload(userId, sessionToken, returnTo);
    assert StateShaped(j) && j.fields["user_id"].s == userId && j.fields["session_token"].s == sessionToken;
    DecodeEncodedState(parseJson, stringify(j), j);
  }

  /** The variables `getDriveConnectUrl` reads; `redirectUri` falls back to the drive_connect
      function under the project URL only when it is unset. */
  datatype ConnectEnv = ConnectEnv(supabaseUrl: Option<string>, clientId: Option<string>,
                                   redirectUri: Option<string>)

  /** Why `getDriveConnectUrl` throws. */
  datatype ConnectUrlError = MissingEnv | StateNotEncodable

  /** `VITE_GOOGLE_OAUTH_REDIRECT_URI ?? `${supabaseUrl}/functions/v1/drive_connect``. */
  function RedirectUri(env: ConnectEnv): Option<string> {
    if env.redirectUri.Some? then env.redirectUri
    else if Given(env.supabaseUrl) then Some(env.supabaseUrl.value + "/functions/v1/drive_connect")
    else None
  }

  /** The parameters set on the fresh authorization URL, in order. The state is the last
      one set, so it is the only `state` value; the requested scope is drive.file alone. */
  function ConsentQuery(clientId: string, redirectUri: string, state: string): (q: seq<(string, string)>)
    ensures ValuesOf(q, "state") == [state]
    ensures ValuesOf(q, "scope") == [DRIVE_FILE_SCOPE]
  {
    var q := SetParam([], "client_id", clientId);
    var q := SetParam(q, "redirect_uri", redirectUri);
    var q := SetParam(q, "response_type", "code");
    var q := SetParam(q, "access_type", "offline");
    var q := SetParam(q, "scope", DRIVE_FILE_SCOPE);
    var q := SetParam(q, "include_granted_scopes", "true");
    var q := SetParam(q, "prompt", "consent");
    SetParam(q, "state", state)
  }

  /** `getDriveConnectUrl`: the query of Google's authorization endpoint, in the order the
      parameters are set, with the encoded state last. */
  function DriveConnectQuery(stringify: Json -> string, env: ConnectEnv, sessionToken: string,
                             userId: string, windowOrigin: string): (r: Result<seq<(string, string)>, ConnectUrlError>)
    ensures r.Err? && r.error == MissingEnv <==>
      !Given(env.supabaseUrl) || !Given(env.clientId) || (env.redirectUri.Some? && env.redirectUri.value == [])
    ensures r.Ok? ==> EncodeState(stringify, StatePayload(userId, sessionToken, windowOrigin + "/settings")).Some?
    ensures r.Ok? ==>
      r.value == ConsentQuery(env.clientId.value, RedirectUri(env).value,
                              EncodeState(stringify, StatePayload(userId, sessionToken, windowOrigin + "/settings")).value)
  {
    var redirectUri := RedirectUri(env);
    if !Given(env.supabaseUrl) || !Given(env.clientId) || !Given(redirectUri) then Err(MissingEnv)
    else
      match EncodeState(stringify, StatePayload(userId, sessionToken, windowOrigin + "/settings"))
      case None => Err(StateNotEncodable)
      case Some(state) =>
        Ok(ConsentQuery(env.clientId.value, redirectUri.value, state))
  }

  /** The consent URL carries one state, and drive_connect reads back from it the owner and
      the session token the URL was built for. */
  lemma ConsentStateDecodes(stringify: Json -> string, parseJson: string -> Option<Json>,
                            env: ConnectEnv, sessionToken: string, userId: string, windowOrigin: string)
    requires var j := StatePayload(userId, sessionToken, windowOrigin + "/settings");
      Latin1Bytes(stringify(j)).Some? && parseJson(stringify(j)) == Some(j)
    requires Given(env.supabaseUrl) && Given(env.clientId) && !(env.redirectUri == Some(""))
    ensures var r := DriveConnectQuery(stringify, env, sessionToken, userId, windowOrigin);
      && r.Ok? && |ValuesOf(r.value, "state")| == 1
      && DecodeState(parseJson, ValuesOf(r.value, "state")[0]) == Ok(OAuthState(userId, sessionToken))
  {
    StateRoundTrip(stringify, parseJson, userId, sessionToken, windowOrigin + "/settings");
  }
}
