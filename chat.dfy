/** The chat gateway's decisions (chat function): cleaning and bounding the visitor's
    message, the token estimate used for quota accounting, which reset time a quota refusal
    reports, the citations an answer may carry, and the order of the authentication gates
    that run before any model is called. */
module Chat {

  import opened Wrappers
  import opened Text
  import opened Normalize
  import opened Origin
  import opened EmbedToken

  const INPUT_MAX_CHARS: nat := 4000
  const MAX_CITATIONS_RETURNED: nat := 8

  // ---------------------------------------------------------------------------------------
  // the visitor's message

  /** `normalizeInputText`: NUL to space, CRLF and lone CR to LF, runs of three or more
      line breaks to two, then `trim`. */
  function NormalizeInputText(value: string): (r: string)
    ensures Lacks(r, '\0') && Lacks(r, '\r')
    ensures NoTripleNewline(r)
    ensures Trimmed(r)
  {
    var u := UnifyLineEnds(value);
    var c := CollapseNewlines(u);
    CollapseClean(u);
    CollapseChars(u);
    CharsFromLacks(c, u, '\0');
    CharsFromLacks(c, u, '\r');
    TrimKeeps(c);
    Trim(c)
  }

  /** Normalising twice is normalising once. */
  lemma NormalizeIdempotent(value: string)
    ensures NormalizeInputText(NormalizeInputText(value)) == NormalizeInputText(value)
  {
    var r := NormalizeInputText(value);
    assert UnifyLineEnds(r) == r;
    CollapseIdentity(r);
    TrimNoEdgeSpace(r);
  }

  /** `normalizeInputText(messageRaw).slice(0, INPUT_MAX_CHARS)`: at most 4000 characters,
      a prefix of the normalised text, empty exactly when the normalised text is, and still
      free of NUL, CR and runs of three line breaks (the cut may end on whitespace). */
  function PrepareMessage(raw: string): (r: string)
    ensures |r| <= INPUT_MAX_CHARS && |r| <= |NormalizeInputText(raw)|
    ensures r == NormalizeInputText(raw)[..|r|]
    ensures |NormalizeInputText(raw)| <= INPUT_MAX_CHARS ==> r == NormalizeInputText(raw)
    ensures r == [] <==> NormalizeInputText(raw) == []
    ensures Lacks(r, '\0') && Lacks(r, '\r') && NoTripleNewline(r)
  {
    var t := NormalizeInputText(raw);
    var n := if |t| <= INPUT_MAX_CHARS then |t| else INPUT_MAX_CHARS;
    InfixKeeps(t, 0, n);
    t[..n]
  }

  // ---------------------------------------------------------------------------------------
  // token estimate and quota reset

  /** `estimateTokens`: `max(1, ceil(length / 4))`, the least positive count of
      four-character blocks that covers the text. */
  function EstimateTokens(text: string): (n: nat)
    ensures n >= 1 && |text| <= 4 * n
    ensures n == 1 || 4 * (n - 1) < |text|
  {
    if |text| == 0 then 1 else (|text| + 3) / 4
  }

  /** A longer text never has a smaller estimate, so the post-answer charge
      `max(0, estimateTokens(message + context) - estimateTokens(message))` never needs
      its clamp. */
  lemma EstimateTokensMonotone(a: string, b: string)
    ensures EstimateTokens(a) <= EstimateTokens(a + b)
  {
  }

  /** The part of the usage procedure's answer that `quotaResetAt` reads. */
  datatype UsageResult = UsageResult(allowed: bool, reason: string,
                                     dailyResetAt: string, monthlyResetAt: string)

  /** `quotaResetAt`: the monthly reset time for a `monthly_` reason, the daily reset time
      otherwise (for `daily_` reasons and unknown ones alike). */
  function QuotaResetAt(usage: UsageResult): (r: string)
  {
    if StartsWith(usage.reason, "daily_") then usage.dailyResetAt
    else if StartsWith(usage.reason, "monthly_") then usage.monthlyResetAt
    else usage.dailyResetAt
  }

  /** No reason starts with both prefixes, so the daily test first is never the one that
      decides a monthly reason. */
  lemma QuotaResetAtChoice(usage: UsageResult)
    ensures QuotaResetAt(usage) ==
      if StartsWith(usage.reason, "monthly_") then usage.monthlyResetAt else usage.dailyResetAt
  {
    if StartsWith(usage.reason, "monthly_") {
      assert usage.reason[0] == 'm';
    }
  }

  // ---------------------------------------------------------------------------------------
  // citations

  /** A retrieved chunk as `match_source_chunks` returns it. */
  datatype ChunkRow = ChunkRow(id: int, sourceId: string, chunkIndex: int, content: string,
                               metadata: map<string, Json>, similarity: real)

  datatype Citation = Citation(sourceId: string, title: string, chunkId: int, chunkIndex: real,
                               page: Option<real>, slide: Option<real>, fileId: Option<string>)

  /** `citationFromChunk`: the chunk's own ids, and the trimmed metadata title when it
      is a non-blank string, `"Source"` otherwise. */
  function CitationFromChunk(chunk: ChunkRow): (c: Citation)
    ensures c.chunkId == chunk.id && c.sourceId == chunk.sourceId
    ensures c.chunkIndex == chunk.chunkIndex as real
    ensures c.title != [] && Trimmed(c.title)
    ensures c.title == match StringAt(chunk.metadata, "title")
                       case Some(t) => if Trim(t) != [] then Trim(t) else "Source"
                       case None => "Source"
    ensures c.page == NumberAt(chunk.metadata, "page")
    ensures c.slide == NumberAt(chunk.metadata, "slide")
    ensures c.fileId == StringAt(chunk.metadata, "file_id")
  {
    var md := chunk.metadata;
    var title := if "title" in md && md["title"].JString? && Trim(md["title"].s) != []
                 then Trim(md["title"].s) else "Source";
    Citation(chunk.sourceId, title, chunk.id, chunk.chunkIndex as real,
             NumberAt(md, "page"), NumberAt(md, "slide"), StringAt(md, "file_id"))
  }

  /** A property of a row as `data.key` reads it: only objects carry named fields (an
      array row is an object too, but has none of these). */
  function Field(row: Json, key: string): Option<Json> {
    if row.JObject? && key in row.fields then Some(row.fields[key]) else None
  }

  /** The row's `chunk_id` as a number: the number itself, or what `Number(...)` makes of
      any other present value (None standing for a non-finite result); absent is NaN. */
  function ChunkIdOf(row: Json, number: Json -> Option<real>): Option<real> {
    match Field(row, "chunk_id")
    case None => None
    case Some(JNumber(n)) => Some(n)
    case Some(v) => number(v)
  }

  /** The citation `validateCitationsFromModel` builds from one row of the model's answer,
      or None when the row is skipped: not an object, or a chunk id that is not one of the
      allowed (integer) ids. The title is kept untrimmed when it is not blank. */
  function ModelCitation(row: Json, allowed: set<int>, number: Json -> Option<real>): (r: Option<Citation>)
    ensures r.Some? ==> r.value.chunkId in allowed
  {
    if !(row.JObject? || row.JArray?) then None
    else match ChunkIdOf(row, number)
      case None => None
      case Some(id) =>
        if id != id.Floor as real || id.Floor !in allowed then None
        else
          var fields := if row.JObject? then row.fields else map[];
          var title := match StringAt(fields, "title")
            case Some(t) => if Trim(t) != [] then t else "Source"
            case None => "Source";
          var sourceId := match StringAt(fields, "source_id") case Some(s) => s case None => "";
          var chunkIndex := match NumberAt(fields, "chunk_index") case Some(n) => n case None => 0.0;
          Some(Citation(sourceId, title, id.Floor, chunkIndex, NumberAt(fields, "page"),
                        NumberAt(fields, "slide"), StringAt(fields, "file_id")))
  }

  /** The values `f` yields for the elements of `xs`, in order, skipping None. */
  function Kept<A, B>(xs: seq<A>, f: A -> Option<B>): (r: seq<B>)
    ensures |r| <= |xs|
  {
    if xs == [] then []
    else
      var front := Kept(xs[..|xs| - 1], f);
      match f(xs[|xs| - 1])
      case None => front
      case Some(y) => front + [y]
  }

  /** A value is kept exactly when some element yields it. */
  lemma {:induction false} KeptMembers<A, B>(xs: seq<A>, f: A -> Option<B>, y: B)
    ensures y in Kept(xs, f) <==> exists i :: 0 <= i < |xs| && f(xs[i]) == Some(y)
  {
    if xs != [] {
      var front := xs[..|xs| - 1];
      KeptMembers(front, f, y);
      if exists i :: 0 <= i < |front| && f(front[i]) == Some(y) {
        var i :| 0 <= i < |front| && f(front[i]) == Some(y);
        assert xs[i] == front[i];
      }
      if exists i :: 0 <= i < |xs| && f(xs[i]) == Some(y) {
        var i :| 0 <= i < |xs| && f(xs[i]) == Some(y);
        if i < |front| {
          assert front[i] == xs[i];
        }
      }
    }
  }

  /** The citations of the accepted rows, in row order. */
  function ModelCitations(rows: seq<Json>, allowed: set<int>, number: Json -> Option<real>): (r: seq<Citation>)
    ensures |r| <= |rows|
    ensures forall k :: 0 <= k < |r| ==> r[k].chunkId in allowed
  {
    var r := Kept(rows, row => ModelCitation(row, allowed, number));
    assert forall k :: 0 <= k < |r| ==> r[k].chunkId in allowed by {
      forall k | 0 <= k < |r| ensures r[k].chunkId in allowed {
        KeptMembers(rows, row => ModelCitation(row, allowed, number), r[k]);
      }
    }
    r
  }

  /** A citation is kept exactly when some row yields it. */
  lemma ModelCitationsMembers(rows: seq<Json>, allowed: set<int>, number: Json -> Option<real>, c: Citation)
    ensures c in ModelCitations(rows, allowed, number) <==>
      exists i :: 0 <= i < |rows| && ModelCitation(rows[i], allowed, number) == Some(c)
  {
    KeptMembers(rows, row => ModelCitation(row, allowed, number), c);
  }

  /** One more row: its citation, if it yields one, is appended. */
  lemma ModelCitationsSnoc(rows: seq<Json>, index: nat, allowed: set<int>, number: Json -> Option<real>)
    requires index < |rows|
    ensures var m := ModelCitation(rows[index], allowed, number);
      ModelCitations(rows[..index + 1], allowed, number)
      == ModelCitations(rows[..index], allowed, number) + (if m.Some? then [m.value] else [])
  {
    var prefix := rows[..index + 1];
    assert prefix[..|prefix| - 1] == rows[..index] && prefix[|prefix| - 1] == rows[index];
  }

  function Take<T>(s: seq<T>, n: nat): (r: seq<T>)
    ensures |r| <= n && |r| <= |s| && r == s[..|r|]
    ensures |s| <= n ==> r == s
  {
    if |s| <= n then s else s[..n]
  }

  /** `validateCitationsFromModel`: a non-array yields none; otherwise the accepted rows'
      citations, cut to `MAX_CITATIONS_RETURNED`. */
  method ValidateCitationsFromModel(modelCitations: Json, allowed: set<int>, number: Json -> Option<real>)
    returns (r: seq<Citation>)
    ensures !modelCitations.JArray? ==> r == []
    ensures modelCitations.JArray? ==>
      r == Take(ModelCitations(modelCitations.items, allowed, number), MAX_CITATIONS_RETURNED)
    ensures |r| <= MAX_CITATIONS_RETURNED
    ensures forall k :: 0 <= k < |r| ==> r[k].chunkId in allowed
  {
    if !modelCitations.JArray? {
      return [];
    }
    var rows := modelCitations.items;
    var valid: seq<Citation> := [];
    var index := 0;
    while index < |rows|
      invariant 0 <= index <= |rows|
      invariant valid == ModelCitations(rows[..index], allowed, number)
    {
      var row := rows[index];
      ModelCitationsSnoc(rows, index, allowed, number);
      if row.JObject? || row.JArray? {
        var chunkId := ChunkIdOf(row, number);
        if chunkId.Some? && chunkId.value == chunkId.value.Floor as real && chunkId.value.Floor in allowed {
          var c := ModelCitation(row, allowed, number);
          valid := valid + [c.value];
        }
      }
      index := index + 1;
    }
    assert rows[..|rows|] == rows;
    r := Take(valid, MAX_CITATIONS_RETURNED);
  }

  /** `finalChunks.map(citationFromChunk).slice(0, MAX_CITATIONS_RETURNED)`. */
  function DefaultCitations(finalChunks: seq<ChunkRow>): (r: seq<Citation>)
    ensures |r| <= MAX_CITATIONS_RETURNED && |r| <= |finalChunks|
    ensures forall k :: 0 <= k < |r| ==> r[k] == CitationFromChunk(finalChunks[k])
  {
    Take(seq(|finalChunks|, k requires 0 <= k < |finalChunks| => CitationFromChunk(finalChunks[k])),
         MAX_CITATIONS_RETURNED)
  }

  /** The ids the model may cite: `new Set(finalChunks.map((row) => row.id))`. */
  function ChunkIds(finalChunks: seq<ChunkRow>): set<int> {
    set k | 0 <= k < |finalChunks| :: finalChunks[k].id
  }

  /** The answer's citations: the model's surviving citations, or the default ones when
      none survive (and on a failed generation). */
  function AnswerCitations(parsed: seq<Citation>, finalChunks: seq<ChunkRow>): seq<Citation> {
    if |parsed| > 0 then parsed else DefaultCitations(finalChunks)
  }

  /** Whatever the model returns, an answer carries at most eight citations, and every one
      names a chunk that was retrieved for this request. */
  lemma AnswerCitationsGrounded(modelCitations: Json, finalChunks: seq<ChunkRow>, number: Json -> Option<real>)
    ensures var parsed := if modelCitations.JArray?
          then Take(ModelCitations(modelCitations.items, ChunkIds(finalChunks), number), MAX_CITATIONS_RETURNED)
          else [];
      var r := AnswerCitations(parsed, finalChunks);
      |r| <= MAX_CITATIONS_RETURNED && forall k :: 0 <= k < |r| ==> r[k].chunkId in ChunkIds(finalChunks)
  {
    var d := DefaultCitations(finalChunks);
    forall k | 0 <= k < |d| ensures d[k].chunkId in ChunkIds(finalChunks) {
      assert d[k].chunkId == finalChunks[k].id;
    }
  }

  // ---------------------------------------------------------------------------------------
  // the authentication gates

  /** The project row fields the gates read. */
  datatype ProjectRow = ProjectRow(id: string, handle: string, allowedOrigins: seq<string>)

  /** An error response: HTTP status, stable code, retryable flag. */
  datatype Denial = Denial(status: int, code: string, retryable: bool)

  /** What passes the gates: the verified claims, the project, the prepared message and
      the canonical request origin. */
  datatype Admission = Admission(claims: Payload, project: ProjectRow, message: string, origin: string)

  /** The inputs the gates read from the request and the store. `tokenField` and
      `messageField` are the body fields when they are strings; `lookupProject` is the
      `projects` query by id and handle (None for an error or no row). */
  datatype ChatRequest = ChatRequest(tokenField: Option<string>, messageField: Option<string>,
                                     originHeader: Option<string>, nowSeconds: int)

  function FieldOrEmpty(f: Option<string>): string {
    match f case Some(s) => s case None => ""
  }

  /** The canonical request origin; an absent or empty header is no origin. */
  function RequestOrigin(parse: string -> Option<Url>, header: Option<string>): Option<string> {
    match header
    case None => None
    case Some(h) => if h == "" then None else GatewayCanonicalizeOrigin(parse, h)
  }

  /** The handler's gates, in order: both fields present, token signature and shape,
      expiry, a valid request origin, the origin the token was issued for, the project row,
      and the project's live allowlist. */
  function ChatGate(c: Platform, parse: string -> Option<Url>, secret: string,
                    lookupProject: (string, string) -> Option<ProjectRow>, req: ChatRequest): Result<Admission, Denial>
  {
    var token := Trim(FieldOrEmpty(req.tokenField));
    var message := PrepareMessage(FieldOrEmpty(req.messageField));
    if token == [] || message == [] then Err(Denial(400, "invalid_request", false))
    else match VerifyEmbedToken(c, token, secret)
      case None => Err(Denial(401, "invalid_embed_token", false))
      case Some(claims) =>
        if claims.exp <= req.nowSeconds as real then Err(Denial(401, "expired_embed_token", true))
        else match RequestOrigin(parse, req.originHeader)
          case None => Err(Denial(400, "invalid_origin_format", false))
          case Some(origin) =>
            if origin != claims.origin then Err(Denial(403, "blocked_origin", false))
            else match lookupProject(claims.projectId, claims.projectHandle)
              case None => Err(Denial(404, "project_not_found", false))
              case Some(project) =>
                if origin !in AllowedOriginSet(parse, project.allowedOrigins)
                then Err(Denial(403, "blocked_origin", false))
                else Ok(Admission(claims, project, message, origin))
  }

  /** The converse of `AdmissionIsBound`: a request whose token verifies and has not
      expired, whose origin is the token's and on the project's allowlist, for a project
      that exists, and with a non-empty message, is admitted with those claims. */
  lemma GatesPassed(c: Platform, parse: string -> Option<Url>, secret: string,
                    lookupProject: (string, string) -> Option<ProjectRow>, req: ChatRequest,
                    claims: Payload, project: ProjectRow)
    requires VerifyEmbedToken(c, Trim(FieldOrEmpty(req.tokenField)), secret) == Some(claims)
    requires PrepareMessage(FieldOrEmpty(req.messageField)) != []
    requires claims.exp > req.nowSeconds as real
    requires RequestOrigin(parse, req.originHeader) == Some(claims.origin)
    requires lookupProject(claims.projectId, claims.projectHandle) == Some(project)
    requires claims.origin in AllowedOriginSet(parse, project.allowedOrigins)
    ensures ChatGate(c, parse, secret, lookupProject, req)
      == Ok(Admission(claims, project, PrepareMessage(FieldOrEmpty(req.messageField)), claims.origin))
  {
  }

  /** An admitted request carries a token that verifies under the gateway's secret and has
      not expired, comes from exactly the origin the token names, that origin is on the
      project's allowlist, and the message is the prepared, non-empty text. */
  lemma AdmissionIsBound(c: Platform, parse: string -> Option<Url>, secret: string,
                         lookupProject: (string, string) -> Option<ProjectRow>, req: ChatRequest)
    requires ChatGate(c, parse, secret, lookupProject, req).Ok?
    ensures var a := ChatGate(c, parse, secret, lookupProject, req).value;
      && VerifyEmbedToken(c, Trim(FieldOrEmpty(req.tokenField)), secret) == Some(a.claims)
      && a.claims.exp > req.nowSeconds as real
      && req.originHeader.Some?
      && GatewayCanonicalizeOrigin(parse, req.originHeader.value) == Some(a.origin)
      && a.origin == a.claims.origin
      && lookupProject(a.claims.projectId, a.claims.projectHandle) == Some(a.project)
      && (exists e :: e in a.project.allowedOrigins && GatewayCanonicalizeOrigin(parse, e) == Some(a.origin))
      && a.message == PrepareMessage(FieldOrEmpty(req.messageField)) && a.message != []
      && |a.message| <= INPUT_MAX_CHARS
  {
    var token := Trim(FieldOrEmpty(req.tokenField));
    var message := PrepareMessage(FieldOrEmpty(req.messageField));
    assert token != [] && message != [];
    var claims := VerifyEmbedToken(c, token, secret).value;
    assert claims.exp > req.nowSeconds as real;
    var origin := RequestOrigin(parse, req.originHeader).value;
    assert origin == claims.origin;
    var project := lookupProject(claims.projectId, claims.projectHandle).value;
    assert origin in AllowedOriginSet(parse, project.allowedOrigins);
    assert ChatGate(c, parse, secret, lookupProject, req) == Ok(Admission(claims, project, message, origin));
  }

  /** A token that does not verify is refused as invalid, whatever the origin and the
      project. */
  lemma UnverifiedTokenRefused(c: Platform, parse: string -> Option<Url>, secret: string,
                               lookupProject: (string, string) -> Option<ProjectRow>, req: ChatRequest)
    requires Trim(FieldOrEmpty(req.tokenField)) != [] && PrepareMessage(FieldOrEmpty(req.messageField)) != []
    requires VerifyEmbedToken(c, Trim(FieldOrEmpty(req.tokenField)), secret) == None
    ensures ChatGate(c, parse, secret, lookupProject, req) == Err(Denial(401, "invalid_embed_token", false))
  {
  }

  /** A valid token used from a different origin than it was issued for is blocked before
      the project is looked up, even when that origin is on the project's allowlist. */
  lemma ForeignOriginBlocked(c: Platform, parse: string -> Option<Url>, secret: string,
                             lookupProject: (string, string) -> Option<ProjectRow>, req: ChatRequest, claims: Payload)
    requires Trim(FieldOrEmpty(req.tokenField)) != [] && PrepareMessage(FieldOrEmpty(req.messageField)) != []
    requires VerifyEmbedToken(c, Trim(FieldOrEmpty(req.tokenField)), secret) == Some(claims)
    requires claims.exp > req.nowSeconds as real
    requires RequestOrigin(parse, req.originHeader).Some?
    requires RequestOrigin(parse, req.originHeader).value != claims.origin
    ensures ChatGate(c, parse, secret, lookupProject, req) == Err(Denial(403, "blocked_origin", false))
  {
  }

  /** An expired token is refused as retryable, before the origin is looked at. */
  lemma ExpiredTokenRefused(c: Platform, parse: string -> Option<Url>, secret: string,
                            lookupProject: (string, string) -> Option<ProjectRow>, req: ChatRequest, claims: Payload)
    requires Trim(FieldOrEmpty(req.tokenField)) != [] && PrepareMessage(FieldOrEmpty(req.messageField)) != []
    requires VerifyEmbedToken(c, Trim(FieldOrEmpty(req.tokenField)), secret) == Some(claims)
    requires claims.exp <= req.nowSeconds as real
    ensures ChatGate(c, parse, secret, lookupProject, req) == Err(Denial(401, "expired_embed_token", true))
  {
  }
}
