/** Web origins as the server functions canonicalise them. URL parsing is the platform's
    (`new URL`), so it is a parameter: a function from text to the parsed record, None where
    the constructor throws. The origin of a parsed URL is its ASCII serialisation in the
    sense of section 6.2 of RFC 6454: scheme, `://`, host, and the port only when it is not
    the scheme's default (which the parser already leaves empty). */
module Origin {

  import opened Wrappers
  import opened Text

  /** The fields of a parsed URL that the services read. `protocol` keeps its trailing
      colon (`"https:"`), `search` and `hash` are empty or start with `?` and `#`. */
  datatype Url = Url(protocol: string, username: string, password: string,
                     hostname: string, port: string, pathname: string,
                     search: string, hash: string)

  /** `url.origin`. */
  function SerializedOrigin(u: Url): string {
    u.protocol + "//" + u.hostname + (if u.port == "" then "" else ":" + u.port)
  }

  predicate IsWebScheme(protocol: string) {
    protocol == "https:" || protocol == "http:"
  }

  /** The hosts for which plain http is allowed (local development). */
  predicate IsLoopbackHost(hostname: string) {
    hostname == "localhost" || hostname == "127.0.0.1" || hostname == "[::1]"
  }

  /** What both server copies demand of an origin: https, or http on a loopback host; no
      user name or password; the root path and no query or fragment. */
  predicate AcceptableOrigin(u: Url) {
    && IsWebScheme(u.protocol)
    && (u.protocol == "http:" ==> IsLoopbackHost(u.hostname))
    && u.username == [] && u.password == []
    && u.pathname == "/" && u.search == [] && u.hash == []
  }

  /** The gateway's `canonicalizeOrigin` (chat function): scheme first, then the http host,
      then user info, then path, query and fragment; the lower-cased origin on success. */
  function GatewayCanonicalizeOrigin(parse: string -> Option<Url>, value: string): (r: Option<string>)
    ensures r.Some? <==> parse(value).Some? && AcceptableOrigin(parse(value).value)
    ensures r.Some? ==> r.value == Lower(SerializedOrigin(parse(value).value))
  {
    match parse(value)
    case None => None
    case Some(url) =>
      if url.protocol != "https:" && url.protocol != "http:" then None
      else if url.protocol == "http:" && !IsLoopbackHost(url.hostname) then None
      else if url.username != [] || url.password != [] then None
      else if url.pathname != "/" || url.search != [] || url.hash != [] then None
      else Some(Lower(SerializedOrigin(url)))
  }

  /** The issuer's `canonicalizeOrigin` (embed_session function): the http host is checked
      before the scheme. */
  function IssuerCanonicalizeOrigin(parse: string -> Option<Url>, value: string): (r: Option<string>)
    ensures r.Some? <==> parse(value).Some? && AcceptableOrigin(parse(value).value)
    ensures r.Some? ==> r.value == Lower(SerializedOrigin(parse(value).value))
  {
    match parse(value)
    case None => None
    case Some(url) =>
      if url.protocol == "http:" && !IsLoopbackHost(url.hostname) then None
      else if url.protocol != "https:" && url.protocol != "http:" then None
      else if url.username != [] || url.password != [] then None
      else if url.pathname != "/" || url.search != [] || url.hash != [] then None
      else Some(Lower(SerializedOrigin(url)))
  }

  /** The two copies reorder their checks but accept and produce the same origins, so an
      origin the issuer writes into a token is one the gateway recomputes. */
  lemma CanonicalizersAgree(parse: string -> Option<Url>, value: string)
    ensures GatewayCanonicalizeOrigin(parse, value) == IssuerCanonicalizeOrigin(parse, value)
  {
  }

  /** `new Set(entries.map(canonicalizeOrigin).filter(isString))`: the canonical forms of
      the allowlist entries; entries that do not canonicalise are dropped. */
  function AllowedOriginSet(parse: string -> Option<Url>, entries: seq<string>): (s: set<string>)
    ensures forall o :: o in s <==> exists e :: e in entries && GatewayCanonicalizeOrigin(parse, e) == Some(o)
  {
    set e | e in entries && GatewayCanonicalizeOrigin(parse, e).Some? :: GatewayCanonicalizeOrigin(parse, e).value
  }
}
