# chat-kb core, modelled in Dafny

chat-kb lets a site owner publish a chat widget that answers from the owner's Google Drive
documents. The owner app (`owner-app`) connects Drive through Google's OAuth 2.0 consent
and validates the project handle and allowed origins. Five server functions do the rest:

- `drive_connect` stores the owner's Google connection. The refresh token is sealed under a
  versioned AES keyring (`_shared/crypto.ts`).
- `kb_resync` queues ingestion jobs.
- `ingest_runner` extracts text from each source, splits it into chunks and stores them.
- `embed_session` issues a short-lived HMAC-signed embed token to a visitor on an allowed
  origin.
- `chat` admits a visitor only with such a token. It cleans the message, ranks the
  retrieved chunks for source diversity and returns only citations grounded in those
  chunks.

This project models those decisions and proves what they promise. Each module follows one
source file or one concern of it:

- `Crypto`: the keyring, the bytea hex codec and key decoding (`_shared/crypto.ts`)
- `Base64`: `btoa`/`atob` and the unpadded base64url codec (section 5 of RFC 4648) used by tokens and OAuth state
- `Text`, `Normalize`: `trim`, `toLowerCase`, `split`/`join`, and the regex rewrites the text cleaners chain
- `Config`: `parsePositiveInt`, shared by every function
- `Origin`: the two `canonicalizeOrigin` copies (chat, embed_session) and the allowlist set
- `EmbedToken`: the embed token: its payload, `signHmac`/`signPayload`, `timingSafeEqual`, `verifyEmbedToken`
- `RequestBody`: reading a string field of a parsed request body
- `Chat`: `normalizeInputText`, `estimateTokens`, `quotaResetAt`, citations, and the gateway's authentication gates
- `Ranking`: `rankChunksWithDiversity`
- `EmbedSession`: the embed_session handler, its TTL and hex helpers
- `IngestText`, `Chunking`: `sanitizeText`, printable-run PDF text extraction, `isLowTextPdf`, `chunkText`
- `IngestJobs`: the job decisions: retry and back-off, chunk budget, extraction strategy and the shared fallback counter, the per-invocation job loop, chunk metadata
- `Resync`: `extractBearerToken` and the kb_resync handler over a store value
- `Drive`: `owner-app/src/lib/drive.ts`: file-id extraction, source types, OAuth state encoding and the consent query
- `DriveConnect`: the drive_connect handler: state decoding, id-token subject, Google error mapping, owner redirects, the connection row
- `Validation`: `owner-app/src/lib/validation.ts`: handles and origin lists

Platform services are parameters or fields of the `Platform` datatype: the WHATWG URL
parser, `Number()`, `JSON.parse`/`JSON.stringify`, UTF-8, HMAC-SHA256 and AES-GCM
seal/open. Where a proof needs one of them to behave, the lemma states that as a
precondition; for example, `Crypto.CipherRoundTrip` says that open undoes seal. `btoa`,
`atob`, hex and the string operations are defined concretely.

Loops in the source are methods proved equal to a recursive specification function. For
example, `Crypto.FromPostgresBytea` equals `ByteaDecode`, `Ranking.RankChunksWithDiversity`
equals `Rank`, `Chunking.ChunkText` equals `ChunkContents`, and
`Validation.ValidateOrigins` equals `OriginErrors`. The properties are lemmas about those
functions. Handlers are total functions from their inputs (environment, request, store
answers, foreign replies) to a reply. Kb_resync also returns the new store.

## Model

| member | source | states |
|---|---|---|
| `Crypto.ToHex` | supabase/functions/_shared/crypto.ts:30-32 | two lowercase hex digits per byte, high nibble first, each decoding back to its nibble |
| `Crypto.ToPostgresBytea` | supabase/functions/_shared/crypto.ts:132-134 | `\x` followed by 2·n lowercase hex digits |
| `Crypto.ByteaDecode` | supabase/functions/_shared/crypto.ts:136-146 | accepts exactly an even number of hex digits (either case) after an optional `\x`; byte k is the value of digit pair k |
| `Crypto.FromPostgresBytea` | supabase/functions/_shared/crypto.ts:136-146 | the loop decodes the pairs exactly as `ByteaDecode` specifies, with the same rejections |
| `Crypto.ByteaRoundTrip` | supabase/functions/_shared/crypto.ts:132-146 | decoding the bytea text of any byte string gives the byte string back |
| `Crypto.ByteaExample` | supabase/functions/_shared/crypto.test.ts:73-78 | `[0,1,15,16,255]` encodes to `\x00010f10ff` |
| `Crypto.ByteaRejectsNonHex` | supabase/functions/_shared/crypto.test.ts:91-93 | `\x0g` is rejected |
| `Crypto.DecodeKey` | supabase/functions/_shared/crypto.ts:15-42 | a key is accepted iff its trimmed text is valid base64 of exactly 32 bytes; invalid base64 and wrong length are distinct errors |
| `Crypto.ParseEntry` | supabase/functions/_shared/crypto.ts:54-67 | one keyset entry: split at the first colon, a positive-integer version and a decodable key, else the malformed-keyset or key error (stated by `Crypto.ParseEntryAccepts`) |
| `Crypto.ParseEntryAccepts` | supabase/functions/_shared/crypto.ts:54-67 | a keyset entry is accepted iff its version is a positive integer, the key text after the first colon is non-empty, and that key decodes; the record carries that version and those bytes |
| `Crypto.ParseEntries` | supabase/functions/_shared/crypto.ts:49-68 | when all entries parse, one record per entry, in order |
| `Crypto.PushEntryRecords` | supabase/functions/_shared/crypto.ts:54-68 | the entry loop returns the first entry's error, or all records, as `ParseEntries` specifies |
| `Crypto.ConfiguredRecords` | supabase/functions/_shared/crypto.ts:46-87 | a non-blank keyset wins over the legacy key; with neither present the error is the missing-key error |
| `Crypto.FirstRepeat` | supabase/functions/_shared/crypto.ts:89-95 | reports no repeat iff all versions are distinct (and unseen); a reported version occurs in the records |
| `Crypto.FindDuplicateVersion` | supabase/functions/_shared/crypto.ts:89-95 | the Set loop finds the first repeated version, as `FirstRepeat` specifies |
| `Crypto.KeyringRecords` | supabase/functions/_shared/crypto.ts:44-95 | an accepted configuration yields a non-empty list of records with distinct versions; configuration errors pass through unchanged |
| `Crypto.SortByVersion` | supabase/functions/_shared/crypto.ts:97 | sorts the records in place by version and keeps them a permutation of the input |
| `Crypto.InsertAt` | supabase/functions/_shared/crypto.ts:97 | one insertion step extends the sorted prefix by one and permutes nothing else |
| `Crypto.SortedKeyring` | supabase/functions/_shared/crypto.ts:97-102 | sorting distinct positive versions gives a valid keyring: strictly increasing versions, 32-byte keys, same records |
| `Crypto.CreateKeyringFromEnv` | supabase/functions/_shared/crypto.ts:44-102 | fails exactly when the configuration is rejected, with that error; otherwise the keyring is valid and holds exactly the configured records |
| `Crypto.Versions` | supabase/functions/_shared/crypto.ts:102 | `versions` lists each record's version in keyring order |
| `Crypto.CurrentIsMaximum` | supabase/functions/_shared/crypto.ts:97-102 | in a valid keyring versions strictly increase and `currentVersion` is the largest of them |
| `Crypto.FindRecord` | supabase/functions/_shared/crypto.ts:118-121 | finds a record with the requested version, or reports that none has it |
| `Crypto.Encrypt` | supabase/functions/_shared/crypto.ts:103-116 | seals with the current (newest) key, returns the nonce used and tags the result with the current version |
| `Crypto.Decrypt` | supabase/functions/_shared/crypto.ts:117-128 | an unknown version is refused with that version; otherwise the record with that version opens the ciphertext, and a failed open is a decryption error |
| `Crypto.EncryptDecrypt` | supabase/functions/_shared/crypto.test.ts:12-28 | whatever a valid keyring encrypts, it decrypts back to the same plaintext |
| `Crypto.OlderVersionsReadable` | supabase/functions/_shared/crypto.test.ts:30-59 | text sealed under any older key of the ring still decrypts under that version |
| `Crypto.LegacyVersionDefaultsToOne` | supabase/functions/_shared/crypto.ts:69-87 | with only a legacy key and no version variable, the keyring holds that key as version 1 |
| `Crypto.KeysetOverridesLegacy` | supabase/functions/_shared/crypto.ts:46-48 | when the keyset is set, the legacy variables have no effect |
| `Crypto.DuplicateRejected` | supabase/functions/_shared/crypto.ts:89-95 | two configured records with the same version make the keyring fail with a duplicate-version error |
| `Base64.BtoaBytes` | supabase/functions/ingest_runner/index.ts:76-82 | the padded encoding is 4·⌈n/3⌉ characters long |
| `Base64.Btoa` | owner-app/src/lib/drive.ts:80-83 | `btoa` succeeds iff every character is below 256 |
| `Base64.AtobBytes` | supabase/functions/_shared/crypto.ts:15-28 | `atob` accepts a string iff, after removing ASCII whitespace and trailing padding, it is in the alphabet and its length is not 1 mod 4 |
| `Base64.Atob` | supabase/functions/_shared/crypto.ts:19-26 | the decoded string has one character per decoded byte |
| `Base64.DecodeEncodeBytes` | supabase/functions/ingest_runner/index.ts:76-82 | regrouping 6-bit groups back into bytes inverts the encoding |
| `Base64.AtobBtoa` | supabase/functions/_shared/crypto.test.ts:13-17 | `atob(btoa(b))` is `b` for every byte string |
| `Base64.Base64UrlEncode` | supabase/functions/chat/index.ts:169-175 | the unpadded URL-safe form of the padded encoding; only URL-alphabet characters |
| `Base64.Base64UrlDecode` | supabase/functions/chat/index.ts:177-189 | text over the URL-safe alphabet is accepted iff its length is not one more than a multiple of four, and then decodes to 3 bytes per 4 characters plus one byte per character past the first of a final partial group |
| `Base64.Base64UrlRoundTrip` | supabase/functions/chat/index.ts:169-189 | decoding the base64url text of any byte string gives it back |
| `Base64.ToBase64Url` | supabase/functions/embed_session/index.ts:81-87 | the byte loop yields the base64url text, which decodes back to the input |
| `Base64.FromBase64Url` | supabase/functions/chat/index.ts:177-189 | the decoding loop equals `Base64UrlDecode`, rejection included |
| `Text.Trim` | supabase/functions/_shared/crypto.ts:16 | the result is the slice between the leading and trailing whitespace; it is empty iff the text is all whitespace |
| `Text.TrimIdempotent` | owner-app/src/lib/validation.ts:22 | trimming twice is trimming once |
| `Text.Lower` | owner-app/src/lib/validation.ts:5 | lowercases each character in place, length unchanged |
| `Text.LowerIdempotent` | supabase/functions/embed_session/index.ts:265 | lowercasing twice is lowercasing once |
| `Text.SplitJoin` | supabase/functions/_shared/crypto.ts:49-55 | splitting the join of separator-free pieces on that separator gives the pieces back |
| `Text.Fields` | supabase/functions/_shared/crypto.ts:49-52 | split, trim each, drop empties: every field is non-empty, trimmed and separator-free |
| `Text.IndexOf` | owner-app/src/lib/drive.ts:29-33 | the first occurrence of the pattern, or -1 when it occurs nowhere |
| `Text.Latin1RoundTrip` | supabase/functions/_shared/crypto.ts:23-26 | bytes to characters and back is the identity |
| `Normalize.UnifyLineEnds` | supabase/functions/ingest_runner/index.ts:68-70 | after NUL→space and CRLF/CR→LF the text holds no NUL and no CR; clean text is unchanged |
| `Normalize.StripBlanksClean` | supabase/functions/ingest_runner/index.ts:71 | after removing blanks before line breaks no space or tab precedes a line break |
| `Normalize.StripBlanksIdentity` | supabase/functions/ingest_runner/index.ts:71 | text already in that form is unchanged |
| `Normalize.CollapseClean` | supabase/functions/ingest_runner/index.ts:72 | after collapsing, no three line breaks are consecutive |
| `Normalize.CollapseKeepsNoBlank` | supabase/functions/ingest_runner/index.ts:71-72 | collapsing line breaks does not reintroduce a blank before a line break |
| `Normalize.CollapseIdentity` | supabase/functions/ingest_runner/index.ts:72 | text without three consecutive line breaks is unchanged |
| `Normalize.TrimKeeps` | supabase/functions/ingest_runner/index.ts:73 | trimming preserves each of the four cleanliness properties |
| `Config.ParsePositiveInt` | supabase/functions/chat/index.ts:154-159 | a non-empty setting that `Number()` reads as a positive integer gives that integer; anything else gives the fallback |
| `Config.ParsePositiveIntPositive` | supabase/functions/kb_resync/index.ts:52-57 | with a positive fallback the result is always at least 1 |
| `Origin.GatewayCanonicalizeOrigin` | supabase/functions/chat/index.ts:200-218 | accepts exactly https URLs, or http on a loopback host, without credentials, path, query or fragment; the result is the lowercased serialized origin |
| `Origin.IssuerCanonicalizeOrigin` | supabase/functions/embed_session/index.ts:120-144 | the issuer's copy, with its checks in the other order, accepts the same URLs with the same result |
| `Origin.CanonicalizersAgree` | supabase/functions/embed_session/index.ts:120-144 | the issuer's and the gateway's canonical origins coincide on every input, so a token's origin is what the gateway will compute |
| `Origin.AllowedOriginSet` | supabase/functions/chat/index.ts:688-692 | an origin is allowed iff some allowlist entry canonicalizes to it |
| `EmbedToken.PayloadFromJson` | supabase/functions/chat/index.ts:269-282 | a payload is accepted iff `v` is 1 and the three id strings, two numbers and the `jti` string are present |
| `EmbedToken.PayloadJsonRoundTrip` | supabase/functions/embed_session/index.ts:345-353 | every payload the issuer builds passes the gateway's shape check unchanged |
| `EmbedToken.SignHmac` | supabase/functions/chat/index.ts:248-258 | the signature part is URL-safe text that decodes to the HMAC of the UTF-8 payload part under the UTF-8 secret |
| `EmbedToken.PayloadPart` | supabase/functions/embed_session/index.ts:103-104 | the payload part is URL-safe text that decodes to the UTF-8 JSON of the payload |
| `EmbedToken.SignPayload` | supabase/functions/embed_session/index.ts:102-118 | the token splits on its dot into exactly the payload part and its signature, and holds no `+`, `/` or `=` |
| `EmbedToken.SplitToken` | supabase/functions/chat/index.ts:261-263 | a dot between two dot-free parts splits back into exactly those two parts |
| `EmbedToken.UrlSafeJoin` | supabase/functions/embed_session/index.ts:117 | joining two base64url parts with a dot introduces none of `+`, `/`, `=` |
| `EmbedToken.XorZero` | supabase/functions/chat/index.ts:195 | the xor of two character codes is zero iff they are equal |
| `EmbedToken.OrZero` | supabase/functions/chat/index.ts:195 | the accumulated or stays zero iff both operands are zero |
| `EmbedToken.TimingSafeEqual` | supabase/functions/chat/index.ts:191-198 | the constant-time comparison answers true iff the strings are equal |
| `EmbedToken.VerifyEmbedToken` | supabase/functions/chat/index.ts:260-286 | a token verifies iff it has exactly two non-empty dot parts, the second is the HMAC signature of the first, and the first decodes to well-shaped JSON claims |
| `EmbedToken.ForgedSignatureRejected` | supabase/functions/chat/index.ts:265-266 | any signature other than the expected one is refused |
| `EmbedToken.IssuedTokenVerifies` | supabase/functions/chat/index.ts:260-286 | a token signed by the issuer verifies under the same secret to exactly the signed claims |
| `RequestBody.FieldAsWritten` | supabase/functions/chat/index.ts:620-621 | the handlers' read fails (throws) exactly for a `null` body; it yields a string exactly when the body is an object holding one |
| `RequestBody.StringField` | supabase/functions/chat/index.ts:620-621 | the intended read: a string exactly when the body is an object with that string field |
| `RequestBody.NullBodyThrows` | supabase/functions/chat/index.ts:610-621 | the two reads differ only on `null`, where the handlers throw and the intended read finds no field |
| `Chat.NormalizeInputText` | supabase/functions/chat/index.ts:220-227 | the result has no NUL, no CR, no three consecutive line breaks and no edge whitespace |
| `Chat.NormalizeIdempotent` | supabase/functions/chat/index.ts:220-227 | normalizing a normalized message changes nothing |
| `Chat.PrepareMessage` | supabase/functions/chat/index.ts:622 | the message is the first at most 4000 characters of the normalized text, all of it when short enough, empty iff that text is empty, and still clean |
| `Chat.EstimateTokens` | supabase/functions/chat/index.ts:229-231 | at least 1, and the least n with length ≤ 4n |
| `Chat.EstimateTokensMonotone` | supabase/functions/chat/index.ts:748 | a longer message never gets a smaller estimate |
| `Chat.QuotaResetAt` | supabase/functions/chat/index.ts:233-237 | `quotaResetAt`: the daily reset for a `daily_` reason, the monthly one for a `monthly_` reason, the daily one otherwise (stated by `Chat.QuotaResetAtChoice`) |
| `Chat.QuotaResetAtChoice` | supabase/functions/chat/index.ts:233-237 | a `monthly_` reason reports the monthly reset, every other reason the daily one |
| `Chat.CitationFromChunk` | supabase/functions/chat/index.ts:477-494 | a citation carries the chunk's own ids; its title is the trimmed metadata title when that is a non-blank string and `Source` otherwise; page and slide are the metadata's numbers and the file id its string, each absent when the field is missing or of another type |
| `Chat.ModelCitation` | supabase/functions/chat/index.ts:512-525 | a model citation is kept only when its chunk id is one of the retrieved chunks |
| `Chat.ModelCitations` | supabase/functions/chat/index.ts:511-526 | at most one citation per row, each with an allowed chunk id |
| `Chat.ModelCitationsMembers` | supabase/functions/chat/index.ts:511-526 | a citation is kept iff some row of the model's list yields it |
| `Chat.ValidateCitationsFromModel` | supabase/functions/chat/index.ts:509-528 | a non-array gives none; otherwise the kept citations in order, cut to 8, each citing a retrieved chunk |
| `Chat.DefaultCitations` | supabase/functions/chat/index.ts:905 | the fallback citations are those of the first up-to-8 ranked chunks, in order |
| `Chat.AnswerCitations` | supabase/functions/chat/index.ts:940-946 | the model's validated citations when there are any, otherwise the default citations of the ranked chunks (stated by `Chat.AnswerCitationsGrounded`) |
| `Chat.AnswerCitationsGrounded` | supabase/functions/chat/index.ts:940-946 | whichever list the answer carries has at most 8 citations, all of retrieved chunks |
| `Chat.ChatGate` | supabase/functions/chat/index.ts:620-703 | the gateway's gates in order: a missing token or message (400), token verification (401), expiry (401, retryable), origin format (400), the token's origin (403), project lookup (404), allowlist (403); the first failing gate's denial, else the admission (stated by `Chat.AdmissionIsBound` and the three refusal lemmas) |
| `Chat.AdmissionIsBound` | supabase/functions/chat/index.ts:620-703 | an admitted request has a verified, unexpired token, a request origin equal to the token's origin and on the project's allowlist, the project the token names, and a non-empty prepared message |
| `Chat.GatesPassed` | supabase/functions/chat/index.ts:620-703 | conversely, a request whose token verifies and is unexpired, whose origin is the token's and on the allowlist of the project that exists, and whose message is non-empty, is admitted with exactly those claims, that project and the prepared message |
| `Chat.UnverifiedTokenRefused` | supabase/functions/chat/index.ts:630-636 | a token that fails verification gets 401 `invalid_embed_token` |
| `Chat.ExpiredTokenRefused` | supabase/functions/chat/index.ts:638-644 | a verified token whose expiry is not after now gets 401 `expired_embed_token`, retryable |
| `Chat.ForeignOriginBlocked` | supabase/functions/chat/index.ts:660-665 | a valid token used from any origin other than its own gets 403 `blocked_origin` |
| `Ranking.RankChunksWithDiversity` | supabase/functions/chat/index.ts:438-475 | the selection loop computes exactly `Rank` |
| `Ranking.ScanRound` | supabase/functions/chat/index.ts:452-463 | the inner scan finds the first eligible chunk of highest penalized score, with its score and penalty |
| `Ranking.BestSpec` | supabase/functions/chat/index.ts:452-465 | no winner iff no chunk is under its source cap; the winner is eligible, scores at least every eligible chunk and strictly more than earlier ones |
| `Ranking.RankFromPrefix` | supabase/functions/chat/index.ts:447-473 | each round only appends to the selection, which never exceeds `maxFinal` |
| `Ranking.RankFromTakes` | supabase/functions/chat/index.ts:445-473 | the selection is a sub-multiset of the input, and the loop stops only when full or no unpicked chunk is eligible |
| `Ranking.RankFromEligible` | supabase/functions/chat/index.ts:455 | every pick was under its source cap when made |
| `Ranking.RankFromGreedy` | supabase/functions/chat/index.ts:452-472 | every pick was a best-scoring eligible chunk among those not yet picked, with the recorded penalty and score |
| `Ranking.CapRespected` | supabase/functions/chat/index.ts:455 | no source contributes more than `maxPerSource` chunks |
| `Ranking.RankSpec` | supabase/functions/chat/index.ts:438-475 | the ranking is bounded by input and cap, drawn from the input, source-capped, greedy and stopped only for a reason |
| `Ranking.TwoPerSourceExample` | supabase/functions/chat/index.ts:9-10 | with the default cap of 2, three chunks of one source and one of another yield two of the first and then the other, with penalty 0.08 on the second pick |
| `EmbedSession.TokenTtl` | supabase/functions/embed_session/index.ts:249-252 | the TTL is the configured positive integer capped at 3600, or 300 when unset or invalid |
| `EmbedSession.ByteHex` | supabase/functions/embed_session/index.ts:97 | a byte is its two lowercase hex digits, high first |
| `EmbedSession.DecodeHex` | supabase/functions/embed_session/index.ts:93-100 | the loop's output is the hex text of the bytes: twice as long, lowercase |
| `EmbedSession.ToHexSnoc` | supabase/functions/embed_session/index.ts:96-98 | appending one byte appends its two hex digits, as each loop step does |
| `EmbedSession.IssuerAllowedOriginSet` | supabase/functions/embed_session/index.ts:312-316 | an origin is allowed iff some entry canonicalizes to it under the issuer's rules |
| `EmbedSession.AllowlistsAgree` | supabase/functions/embed_session/index.ts:312-316 | issuer and gateway derive the same allowed set from the same allowlist |
| `EmbedSession.ProjectHandle` | supabase/functions/embed_session/index.ts:264-266 | the handle is the trimmed, lowercased string field; empty iff missing, not a string or blank |
| `EmbedSession.IssueSession` | supabase/functions/embed_session/index.ts:212-375 | the session handler: preflight, method (405), configuration (500), body and handle (400), origin format (400), project lookup (500, 404) and allowlist (403), then the signed token, its claims and its expiry (stated by `EmbedSession.IssuedSessionClaims`, `BlockedOriginIff`, `EarlyRefusals`) |
| `EmbedSession.IssuedSessionClaims` | supabase/functions/embed_session/index.ts:212-375 | a session is issued only after every gate passes, and its claims carry the project, the canonical origin, `iat` = now and `exp` = now + TTL; the token is their signature |
| `EmbedSession.BlockedOriginIff` | supabase/functions/embed_session/index.ts:312-341 | past the earlier gates, the request is refused 403 `blocked_origin` iff its origin is off the allowlist, and issued iff it is on it |
| `EmbedSession.EarlyRefusals` | supabase/functions/embed_session/index.ts:227-285 | wrong method 405, missing configuration 500, missing handle 400 and a missing or invalid origin 400, in that order |
| `EmbedSession.TokenIsTrimmed` | supabase/functions/chat/index.ts:620 | trimming an issued token, as the gateway does, leaves it unchanged |
| `EmbedSession.IssuedTokenAdmitted` | supabase/functions/embed_session/index.ts:343-355 | a token just issued, presented before expiry from the same origin with a non-empty message, passes every chat gate and is bound to that project and origin |
| `IngestText.SanitizeText` | supabase/functions/ingest_runner/index.ts:66-74 | the result has no NUL, no CR, no blank before a line break, no three consecutive line breaks and no edge whitespace |
| `IngestText.SanitizeFixesClean` | supabase/functions/ingest_runner/index.ts:66-74 | clean text is a fixed point |
| `IngestText.SanitizeIdempotent` | supabase/functions/ingest_runner/index.ts:66-74 | sanitizing twice is sanitizing once |
| `IngestText.CollapseSpace` | supabase/functions/ingest_runner/index.ts:88 | every character of the result is a space or a non-whitespace character of the input; it is no longer, keeps a leading non-space character, and leaves text without whitespace unchanged |
| `IngestText.CollapseSpaceSingle` | supabase/functions/ingest_runner/index.ts:88 | the result has no two consecutive spaces and no other whitespace |
| `IngestText.ExtractPrintableTextFromPdf` | supabase/functions/ingest_runner/index.ts:84-107 | the byte loop with its flushes computes exactly `PdfText` |
| `IngestText.PdfTextIsKeptRuns` | supabase/functions/ingest_runner/index.ts:84-107 | the text is the kept runs of printable bytes (each at least 24 characters long) joined by line breaks |
| `IngestText.PlainLinesSanitized` | supabase/functions/ingest_runner/index.ts:106 | lines of single-spaced printable text joined by line breaks are already sanitized |
| `IngestText.ShortRunsDropped` | supabase/functions/ingest_runner/index.ts:89-91 | runs shorter than 24 characters contribute nothing |
| `IngestText.ShortPdfHasNoText` | supabase/functions/ingest_runner/index.ts:84-107 | a file shorter than 24 bytes yields no text |
| `IngestText.OneWordPdf` | supabase/functions/ingest_runner/index.ts:84-107 | a file of at least 24 visible non-space bytes yields exactly those characters |
| `IngestText.IsLowTextPdf` | supabase/functions/ingest_runner/index.ts:119-122 | low text iff fewer than the threshold non-whitespace characters |
| `IngestText.LowTextIgnoresSpace` | supabase/functions/ingest_runner/index.ts:119-122 | inserting whitespace anywhere never changes the verdict |
| `Chunking.SplitParagraphsJoin` | supabase/functions/ingest_runner/index.ts:133 | for sanitized text, splitting on blank lines and re-joining with one blank line gives the text back |
| `Chunking.Paragraphs` | supabase/functions/ingest_runner/index.ts:133 | every paragraph is non-empty |
| `Chunking.Step` | supabase/functions/ingest_runner/index.ts:168 | the cursor always advances, by at least one and at least size minus overlap |
| `Chunking.ChunkText` | supabase/functions/ingest_runner/index.ts:124-182 | the chunk rows are numbered 0, 1, … and their contents are exactly `ChunkContents` |
| `Chunking.PackParagraphs` | supabase/functions/ingest_runner/index.ts:137-181 | the paragraph loop yields numbered rows whose contents are `PackFrom` |
| `Chunking.SliceParagraph` | supabase/functions/ingest_runner/index.ts:158-169 | the slicing loop appends numbered slices as `SliceFrom` specifies, and reports whether the cap was hit |
| `Chunking.ChunksBounded` | supabase/functions/ingest_runner/index.ts:137-181 | every chunk is non-empty and at most `chunkSize` characters |
| `Chunking.ChunksCapped` | supabase/functions/ingest_runner/index.ts:145-179 | never more than `maxChunks` chunks |
| `Chunking.SliceOffsets` | supabase/functions/ingest_runner/index.ts:158-169 | slice k is the paragraph text at offset k·step, full-length except possibly the last |
| `Chunking.BlankTextHasNoChunks` | supabase/functions/ingest_runner/index.ts:130-131 | whitespace-only text yields no chunks |
| `IngestJobs.RetryDecision` | supabase/functions/ingest_runner/index.ts:381-411 | a failed job is requeued iff its attempts are below the maximum, otherwise marked failed |
| `IngestJobs.RetryDelayMs` | supabase/functions/ingest_runner/index.ts:383 | the back-off is between 250 and 5000 ms |
| `IngestJobs.RetryDelayDoubles` | supabase/functions/ingest_runner/index.ts:383 | from the first attempt on, each further attempt doubles the delay up to the 5000 ms cap |
| `IngestJobs.RetryDelayMonotone` | supabase/functions/ingest_runner/index.ts:383 | more attempts never shorten the delay |
| `IngestJobs.RetryExamples` | supabase/functions/ingest_runner/index.ts:381-383 | attempt 2 of 5 is requeued after 500 ms, attempt 5 of 5 fails; delays 250, 250, 4000, 5000 for attempts 0, 1, 5, 6 |
| `IngestJobs.SourceErrorText` | supabase/functions/ingest_runner/index.ts:666 | the stored source error is the message's first 500 characters, the whole message when shorter |
| `IngestJobs.ChunkBudget` | supabase/functions/ingest_runner/index.ts:564-576 | refused iff other sources already reach the project cap; otherwise the per-source limit is the smaller of the setting and the remaining budget, audited iff the budget is the smaller |
| `IngestJobs.BudgetRespected` | supabase/functions/ingest_runner/index.ts:553-576 | the chunks written keep the project within `max_total_chunks` and the source within its setting |
| `IngestJobs.StrategyNamesDistinct` | supabase/functions/ingest_runner/index.ts:498-531 | the four extraction strategies are recorded under four distinct names |
| `IngestJobs.PdfChoice` | supabase/functions/ingest_runner/index.ts:509-546 | the PDF decision on the baseline text: the fallback gate, its failure, the longer-text choice and the OCR-cap audit (stated by `IngestJobs.PdfChoiceFacts`) |
| `IngestJobs.PdfChoiceFacts` | supabase/functions/ingest_runner/index.ts:509-546 | the PDF step fails, with `OpenAI PDF extraction failed.`, iff the fallback ran and its call failed; otherwise it keeps the baseline text unless the fallback returned longer text, and the cap audit happens iff low text was not retried because of the page cap |
| `IngestJobs.PdfOutcomeErrors` | supabase/functions/ingest_runner/index.ts:304-306 | a PDF within the size limit fails iff the fallback ran and its call failed (that message) or the chosen text is blank (the no-text message) |
| `IngestJobs.PdfOutcomeText` | supabase/functions/ingest_runner/index.ts:509-551 | a successful PDF extraction keeps the chosen non-blank text, had no failed fallback call, and records the fallback strategy iff the fallback returned longer text |
| `IngestJobs.SourceExtraction` | supabase/functions/ingest_runner/index.ts:497-551 | `extractSourceText` as a value: exported text, or the size check, `PdfChoice` and the emptiness check for a PDF (stated by the three `SourceExtraction…` lemmas) |
| `IngestJobs.SourceExtractionErrors` | supabase/functions/ingest_runner/index.ts:505-551 | extraction fails iff the PDF is too large, the fallback ran and its call failed, or the chosen text is blank; the error is the size message, then `OpenAI PDF extraction failed.`, then the no-text message, in that order of precedence |
| `IngestJobs.SourceExtractionText` | supabase/functions/ingest_runner/index.ts:497-551 | a successful extraction returns the chosen non-blank text and had no failed fallback call; exported documents use the export strategy, and the fallback strategy is recorded iff the fallback ran, returned text and that text was longer |
| `IngestJobs.SourceExtractionAudit` | supabase/functions/ingest_runner/index.ts:530-546 | the OCR-cap audit is written iff a low-text PDF was over the page cap and the fallback did not run |
| `IngestJobs.FallbackCounter.constructor` | supabase/functions/ingest_runner/index.ts:719 | a fresh invocation starts with no fallbacks used |
| `IngestJobs.ExtractSourceText` | supabase/functions/ingest_runner/index.ts:497-551 | the extraction result against the shared counter, which rises by one exactly when the fallback runs and its call returns; a failed call leaves it unchanged |
| `IngestJobs.ExtractPdf` | supabase/functions/ingest_runner/index.ts:509-529 | the PDF branch's outcome: the failure when the fallback call fails, otherwise its text, strategy and audit flag; the counter rises by one iff the gate opens and the call returns |
| `IngestJobs.JobsRun` | supabase/functions/ingest_runner/index.ts:718-726 | the loop runs at most `maxJobsPerRun` jobs, all claimed, and stops early only at the first empty claim |
| `IngestJobs.CounterBounded` | supabase/functions/ingest_runner/index.ts:513-529 | the fallback counter grows by at most one per job and never passes its maximum |
| `IngestJobs.RunBatch` | supabase/functions/ingest_runner/index.ts:718-731 | the invocation reports the number of jobs processed and fallbacks used, and each job's extraction sees the counter its predecessors left |
| `IngestJobs.BatchResultsMatch` | supabase/functions/ingest_runner/index.ts:718-726 | the results of the first n jobs are each job's extraction under the counter the jobs before it left |
| `IngestJobs.BatchFallbacksBounded` | supabase/functions/ingest_runner/index.ts:493-529 | one invocation never uses more than `PDF_MAX_FALLBACKS_PER_RUN` fallbacks |
| `IngestJobs.ChunkMetadata` | supabase/functions/ingest_runner/index.ts:606-617 | the metadata stored with every chunk: title, Drive file id, source type, citation anchor (`page_unknown` for a PDF, else `document`) and strategy name (stated by `IngestJobs.IngestedChunkCitation`) |
| `IngestJobs.IngestedChunkCitation` | supabase/functions/ingest_runner/index.ts:606-617 | a chunk stored with the ingestion metadata is cited with the source title (or `Source`), its Drive file id, and no page or slide |
| `Resync.ExtractBearerToken` | supabase/functions/kb_resync/index.ts:59-65 | a token is found iff the first space-separated word is `bearer` in any case and the second is non-empty; the token is that word |
| `Resync.BearerRoundTrip` | supabase/functions/kb_resync/index.ts:59-65 | `Bearer <token>` gives back the token, whatever follows after a space |
| `Resync.SelectedSources` | supabase/functions/kb_resync/index.ts:191-198 | exactly the project's sources, narrowed to the requested id when one is given |
| `Resync.WithoutInFlight` | supabase/functions/kb_resync/index.ts:293-294 | the sources to enqueue are exactly the selected ones without a queued or running job |
| `Resync.InFlightPartition` | supabase/functions/kb_resync/index.ts:344-346 | enqueued plus skipped equals selected |
| `Resync.NewJobs` | supabase/functions/kb_resync/index.ts:293-301 | one queued job with zero attempts per source to enqueue, in order |
| `Resync.MarkPending` | supabase/functions/kb_resync/index.ts:317-327 | exactly the enqueued sources of the project become pending with no error; all other rows are unchanged |
| `Resync.Enqueue` | supabase/functions/kb_resync/index.ts:212-334 | from the backlog guards on: the running guard, the queued guard, the in-flight filter, the job insert and the pending update, each store error a 500 (stated by `Resync.BacklogGuards`, `AcceptedEnqueue`, `NothingLeft`) |
| `Resync.BacklogGuards` | supabase/functions/kb_resync/index.ts:228-271 | with no store faults, the request is refused 409 `resync_in_progress`, retryable, iff running or queued jobs reach their limits; a refusal writes nothing |
| `Resync.AcceptedEnqueue` | supabase/functions/kb_resync/index.ts:287-357 | an accepted request appends one job per source without in-flight work, marks exactly those sources pending, and reports consistent counts |
| `Resync.NothingLeft` | supabase/functions/kb_resync/index.ts:293-294 | when every selected source already has a job in flight, nothing is enqueued |
| `Resync.ProjectIdOf` | supabase/functions/kb_resync/index.ts:163-164 | for an object body with a string `project_id` the result is that string; the result is empty iff the body is not an object, has no string `project_id`, or that string is empty |
| `Resync.RetriggerChangesNothing` | supabase/functions/kb_resync/index.ts:287-334 | repeating an accepted resync adds no job and changes no row; every source is reported skipped |
| `Resync.HandleResync` | supabase/functions/kb_resync/index.ts:80-357 | the resync handler: preflight, method (405), configuration (500), bearer token and user (401), body and project id (400), project query and readability (500, 404), source query and selection (500, 404), then `Enqueue` (stated by `Resync.EarlyRefusals`, `RetriggerChangesNothing` and the `Enqueue` lemmas) |
| `Resync.EarlyRefusals` | supabase/functions/kb_resync/index.ts:122-210 | no bearer token 401, no project id 400, no matching source 404, each leaving the store unchanged |
| `Resync.DefaultLimits` | supabase/functions/kb_resync/index.ts:4-5 | unset limits are 3 running and 100 queued jobs |
| `Drive.ExtractDriveFileId` | owner-app/src/lib/drive.ts:20-47 | an extracted id is non-empty and made of letters, digits, `-` and `_`; blank input yields none |
| `Drive.RawIdAccepted` | owner-app/src/lib/drive.ts:42-43 | input that is not a URL is accepted iff it is at least 20 id characters, and then it is the id |
| `Drive.PrefixOrder` | owner-app/src/lib/drive.ts:28-39 | the document prefix is tried first, then presentation, then file; the first present one decides |
| `Drive.DocumentPathId` | owner-app/src/lib/drive.ts:28-36 | the id after `/document/d/` is found up to the next slash |
| `Drive.InferSourceTypeFromUrl` | owner-app/src/lib/drive.ts:55-60 | a document path gives gdoc, else a presentation path gives gslides; never gpdf |
| `Drive.MapMimeTypeToSourceType` | owner-app/src/lib/drive.ts:62-67 | the source type of the three Drive MIME strings, none for any other (stated by `Drive.MimeTypesRoundTrip`) |
| `Drive.SourceTypeToMimeType` | owner-app/src/lib/drive.ts:69-78 | the Drive MIME string of each source type (stated by `Drive.MimeTypesRoundTrip`) |
| `Drive.MimeTypesRoundTrip` | owner-app/src/lib/drive.ts:62-78 | the two mime mappings are inverse on the three known types, and only those are recognised |
| `Drive.EncodeState` | owner-app/src/lib/drive.ts:80-83 | the state is the unpadded base64url of the JSON text, defined iff that text is Latin-1 |
| `Drive.StateRoundTrip` | owner-app/src/lib/drive.ts:80-83 | drive_connect decodes the state the owner app encodes to the same user id and session token |
| `Drive.ConsentQuery` | owner-app/src/lib/drive.ts:104-112 | the consent URL carries exactly one `state` and the Drive file scope |
| `Drive.DriveConnectQuery` | owner-app/src/lib/drive.ts:85-115 | fails on missing configuration; otherwise the consent query with the encoded state for this user |
| `Drive.ConsentStateDecodes` | owner-app/src/lib/drive.ts:85-115 | the one state parameter of the consent URL decodes in drive_connect to this user and session |
| `DriveConnect.PadCount` | supabase/functions/drive_connect/index.ts:60 | the padding brings the length to the next multiple of four |
| `DriveConnect.RestorePadding` | supabase/functions/drive_connect/index.ts:60 | appends fewer than four `=` to reach a multiple of four |
| `DriveConnect.DecodeSegment` | supabase/functions/drive_connect/index.ts:84-86 | a decoded id-token segment is Latin-1 text, one character per byte |
| `DriveConnect.SegmentRoundTrip` | supabase/functions/drive_connect/index.ts:57-62 | a base64url segment decodes back to the Latin-1 text that was encoded |
| `DriveConnect.DecodeState` | supabase/functions/drive_connect/index.ts:57-77 | undecodable or unparsable state is the payload error; a state without string `user_id` and `session_token` is the missing-fields error; otherwise those two fields |
| `DriveConnect.DecodeEncodedState` | supabase/functions/drive_connect/index.ts:57-77 | encoding well-shaped state JSON and decoding it gives its user id and session token |
| `DriveConnect.ExtractSubjectFromIdToken` | supabase/functions/drive_connect/index.ts:79-95 | a subject is never empty; no id token gives none |
| `DriveConnect.SubjectNeedsPayloadSegment` | supabase/functions/drive_connect/index.ts:81-82 | a token with no dot has no subject |
| `DriveConnect.SubjectFromWellFormedToken` | supabase/functions/drive_connect/index.ts:79-95 | an id token whose second segment encodes JSON with a non-empty `sub` yields that subject |
| `DriveConnect.MapGoogleTokenError` | supabase/functions/drive_connect/index.ts:97-133 | the code is one of the four mapped ones, retryable iff not a 500, and `provider_unavailable` iff the error is not one of the three known ones |
| `DriveConnect.GoogleErrorTable` | supabase/functions/drive_connect/index.ts:103-131 | the full table of status, code and retryable for each case |
| `DriveConnect.RedirectToOwner` | supabase/functions/drive_connect/index.ts:47-55 | the owner URL with path `/settings`, one `drive_connect` parameter, one `reason` when given, and every other parameter kept |
| `DriveConnect.GrantedScopes` | supabase/functions/drive_connect/index.ts:259-260 | the granted scopes are the non-empty space-separated words |
| `DriveConnect.SubjectSource` | supabase/functions/drive_connect/index.ts:270-273 | the subject comes from the id token, else from userinfo with the access token, else none |
| `DriveConnect.CiphertextSelection` | supabase/functions/drive_connect/index.ts:296-312 | a new refresh token is sealed under the current key and decrypts back to itself; without one the stored ciphertext is kept; with neither the row is not written |
| `DriveConnect.OwnerSessionRequired` | supabase/functions/drive_connect/index.ts:216-229 | a session token that does not belong to the state's user gets 401 and nothing is written |
| `DriveConnect.StoredRow` | supabase/functions/drive_connect/index.ts:255-324 | a written row has the Drive scope, a resolved subject and a stored ciphertext, and is exactly the state's user, subject, ciphertext, nonce, version and scopes |
| `DriveConnect.StoreConnection` | supabase/functions/drive_connect/index.ts:248-335 | after a successful token exchange: the granted scopes, the tokens, the subject, the stored-connection read, the ciphertext choice, the upsert and the redirect; a `null` reply body throws (stated by `DriveConnect.StoredRow`, `MissingTokensRedirect`, `StoreConnectionWellFormed`) |
| `DriveConnect.HandleCallback` | supabase/functions/drive_connect/index.ts:149-336 | the OAuth callback: method (405), configuration (500), provider error (redirect), code and state (400), state decoding (400), owner session (401), a failed token reply (redirect), then `StoreConnection` (stated by `DriveConnect.WrittenRowChecked`, `OwnerSessionRequired`, `RedirectReasonsFixed`) |
| `DriveConnect.WrittenRowChecked` | supabase/functions/drive_connect/index.ts:149-324 | a row is written only for an admitted callback with an ok token reply and an owner session matching the state |
| `DriveConnect.MissingTokensRedirect` | supabase/functions/drive_connect/index.ts:266-268 | with neither token the owner is redirected with reason `oauth_missing_tokens` and nothing is written |
| `DriveConnect.ErrorRedirectWellFormed` | supabase/functions/drive_connect/index.ts:181-185 | every error redirect carries `drive_connect=error` and one of the fixed reasons |
| `DriveConnect.StoreConnectionWellFormed` | supabase/functions/drive_connect/index.ts:248-335 | every redirect after the token exchange is well formed |
| `DriveConnect.RedirectReasonsFixed` | supabase/functions/drive_connect/index.ts:149-336 | every redirect the handler produces carries a status and, on error, a reason from the fixed set |
| `Validation.NormalizeHandle` | owner-app/src/lib/validation.ts:3-10 | `normalizeHandle`: lowercase, trim, each run of other characters to one hyphen, hyphen runs collapsed, edge hyphens dropped (stated by `Validation.NormalizeHandleShape`, `NormalizeNormal`, `NormalizeHandleIdempotent`) |
| `Validation.NormalizeHandleShape` | owner-app/src/lib/validation.ts:3-10 | a normalized handle is lowercase letters, digits and single hyphens, with no hyphen at either end |
| `Validation.NormalizeNormal` | owner-app/src/lib/validation.ts:3-10 | a handle already in that shape is unchanged |
| `Validation.NormalizeHandleIdempotent` | owner-app/src/lib/validation.ts:3-10 | normalizing twice is normalizing once |
| `Validation.ValidateHandle` | owner-app/src/lib/validation.ts:1-17 | no error iff the handle matches `^[a-z0-9][a-z0-9-]{2,62}$`; otherwise the fixed message |
| `Validation.NormalizedHandleValid` | owner-app/src/lib/validation.ts:3-17 | a normalized handle of 3 to 63 characters passes validation |
| `Validation.ParseOrigins` | owner-app/src/lib/validation.ts:19-24 | entries are non-empty, trimmed and free of commas and line breaks |
| `Validation.ParseOriginsJoin` | owner-app/src/lib/validation.ts:19-24 | such entries joined by a comma or line break parse back to themselves |
| `Validation.ValidateOrigin` | owner-app/src/lib/validation.ts:26-44 | no error iff the URL parses, is http(s), has no path, query or fragment and equals its own origin; the invalid-URL message iff it does not parse |
| `Validation.OwnerLooserThanServer` | owner-app/src/lib/validation.ts:26-44 | every origin the servers accept in exact form passes the owner check, but the owner check also passes non-loopback http origins that the servers reject |
| `Validation.AcceptedOrigins` | owner-app/src/lib/validation.ts:46-61 | the accepted set is exactly the valid origins of the list |
| `Validation.ValidateOrigins` | owner-app/src/lib/validation.ts:46-64 | the loop reports exactly `OriginErrors`: one error per invalid or repeated entry, in order |
| `Validation.OriginErrorsCount` | owner-app/src/lib/validation.ts:46-64 | errors plus distinct accepted origins equals the number of entries |
| `Validation.NoErrorsIffValidAndDistinct` | owner-app/src/lib/validation.ts:46-64 | no errors iff every entry is valid and no entry repeats |

## Left out

- I/O: HTTP serving, CORS headers and the response envelopes (`json`, `buildResponse`, `buildError`, `withCors`) are not modelled. A handler's reply is modelled as a status, a code and a retryable flag, or as the data the envelope would carry.
- Database and Supabase: the store is a value or a parameter.
  - Kb_resync's queries become a `Store` with fault flags.
  - Chat and embed_session look projects up through a function parameter.
  - Ingest_runner's job claims are a sequence of `Claim` values.
  - The RPCs `claim_ingest_job`, `replace_source_chunks`, `consume_rate_limit` and the usage procedure are not modelled.
  - Source status updates and `markJobDone` are not modelled.
  - Audit-log inserts are left out, except that the model states when ingest_runner writes its two guardrail audits.
- Foreign services:
  - The OpenAI calls (`openAiJsonRequest`, `createQueryEmbedding`, `extractPdfTextWithOpenAI`, `createEmbeddings`) are left out. The fallback's reply is an input: the text it returns, or `None` for a call that throws.
  - The Google Drive fetches are left out: the document text and the PDF bytes are inputs.
  - Google's token endpoint is an input. Its reply is a `TokenReply`.
  - `fetchGoogleSubject` is a `userinfo` function parameter.
- Platform primitives are parameters, with the properties a proof needs stated where it needs them:
  - AES-GCM seal and open;
  - HMAC-SHA256;
  - `JSON.parse` and `JSON.stringify`;
  - UTF-8 encode and decode;
  - the WHATWG URL parser;
  - `Number()`.
- `crypto.randomUUID`, `crypto.getRandomValues` and `Date.now` are parameters. These are the token `jti`, the nonce and the clock.
- `sha256Hex`, `extractClientIp`, `insertAuditEvent`, `extractResponseText`, `secondsUntil`, `toVectorLiteral` and `enforceUsageOrThrow` are not modelled. They only format, hash or log.
- Chat handler steps outside the model:
  - the method, configuration and JSON-body checks that precede the gates;
  - the rate limit, quota enforcement, retrieval, input/output validation prompts and answer text after the gates.

  The model covers the gates, the token estimate, `quotaResetAt`, ranking and the citation choice.
- `isLikelyInjection` and `buildUntrustedContext` are not modelled. The first is a list of case-insensitive regular expressions; the second only formats the prompt.
- `estimatePdfPageCount` is not modelled. It counts a regular expression over Latin-1 text. The page estimate is an input of the extraction step.
- `Text.Lower`: lowercases ASCII letters only; `toLowerCase` also lowercases non-ASCII letters.
- Strings are sequences of Unicode scalar values, not of UTF-16 code units. A lone surrogate cannot be represented, and a character outside the Basic Multilingual Plane counts once where JavaScript's `length` counts it twice. The members whose contracts depend on a length or a slice are listed below.
- `Chat.PrepareMessage`: the 4000 limit counts characters; `slice(0, 4000)` counts UTF-16 code units, and may keep fewer characters or split a surrogate pair.
- `Chat.EstimateTokens`: the estimate divides the number of characters by 4, not the number of UTF-16 code units.
- `Chunking.ChunkText`: chunk size, overlap and slice bounds count characters, not UTF-16 code units; so does `Chunking.ChunkContents`.
- `IngestJobs.SourceErrorText`: the 500 limit counts characters, not UTF-16 code units.
- `IngestJobs.PdfChoice`: the "longer text" comparison between the fallback and the baseline counts characters, not UTF-16 code units; the same holds for `IngestJobs.ExtractPdf` and `IngestJobs.ChosenPdf`.
- `Ranking.RankChunksWithDiversity`: similarity, penalties and scores are mathematical reals, not IEEE doubles. `Number.NEGATIVE_INFINITY` is modelled as "no winner yet".
- `Crypto.SortByVersion`: `Array.prototype.sort` is modelled as an in-place insertion sort. Its specification is sortedness plus permutation, and with distinct versions that determines the order.
- `Crypto.CreateKeyringFromEnv`: a thrown error is an `Err` value, not an exception. The key import (`importAesKey`) is reduced to its 32-byte check.
- `Chunking.ChunkText`: requires `chunkSize ≥ 1`. With `chunkSize` 0 the source would emit empty slices up to `maxChunks`, but its callers always pass a positive size from `parsePositiveInt`.
- `Chat.ChatGate`: the project lookup's query error and its missing row are one `None`. The source answers 404 to both.
- `DriveConnect.HandleCallback`: an unknown owner-app URL (a `new URL` that throws) is `None`, and a redirect to it is `Unhandled`.
- `Drive.DriveConnectQuery`: returns the consent query as key–value pairs, not the serialized URL string.
- `IngestJobs.RunBatch`: the job claims are a given sequence, read one by one. The lease and claim RPC are not modelled.

## Findings

| source | as written | input that shows it | evidently intended | confidence | as-written member | corrected member |
|---|---|---|---|---|---|---|
| supabase/functions/chat/index.ts:610-621 (likewise embed_session/index.ts:254-265, kb_resync/index.ts:153-164) | after `request.json()` succeeds, `payload.embed_token` is read without checking that `payload` is an object; the JSON body `null` parses, then the property read throws a TypeError that nothing catches | request body `null` | a `null` body is a request without the fields, answered 400 `invalid_request` like any other non-object body | medium, not executed | `RequestBody.FieldAsWritten`, with `RequestBody.NullBodyThrows` | `RequestBody.StringField` (used by `EmbedSession.ProjectHandle` and `Resync.ProjectIdOf`) |
