/** The envelope-encryption keyring of the shared crypto helper: parsing of the
    `version:base64Key` key set (or the single legacy key), rejection of malformed entries,
    of keys that are not 32 bytes and of repeated versions, ordering by version, encryption
    under the newest key and decryption by exact version; and the `\x`-hex codec through
    which ciphertexts are stored in Postgres `bytea` columns.

    AES-256-GCM (NIST SP 800-38D) is not interpreted: encryption and decryption are
    function parameters, and the round trip is a stated property of them. `Number()` is a
    parameter too. */
module Crypto {

  import opened Wrappers
  import opened Text
  import opened Base64

  /** Length of an AES-256 key. */
  const KEY_BYTES := 32

  // ---------------------------------------------------------------------------------------
  // hex and bytea

  type nibble = n: int | 0 <= n < 16

  /** Lower-case hexadecimal digit, as `toString(16)` writes it. */
  function HexDigit(n: nibble): (c: char)
    ensures IsHexDigit(c) && HexValue(c) == n
    ensures !('A' <= c <= 'Z')
  {
    if n < 10 then (48 + n) as char else (97 + n - 10) as char
  }

  /** The characters the case-insensitive class `[0-9a-f]` accepts. */
  predicate IsHexDigit(c: char) {
    ('0' <= c <= '9') || ('a' <= c <= 'f') || ('A' <= c <= 'F')
  }

  /** The value `parseInt(_, 16)` gives a hexadecimal digit of either case. */
  function HexValue(c: char): nibble
    requires IsHexDigit(c)
  {
    if '0' <= c <= '9' then c as int - 48
    else if 'a' <= c <= 'f' then c as int - 97 + 10
    else c as int - 65 + 10
  }

  /** `toHex`: two lower-case digits per byte, high nibble first (`padStart(2, "0")`). */
  function ToHex(b: seq<byte>): (r: string)
    ensures |r| == 2 * |b|
    ensures forall i :: 0 <= i < |b| ==> r[2 * i] == HexDigit(b[i] / 16) && r[2 * i + 1] == HexDigit(b[i] % 16)
  {
    if b == [] then [] else [HexDigit(b[0] / 16), HexDigit(b[0] % 16)] + ToHex(b[1..])
  }

  /** `toPostgresBytea`: the `\x` prefix followed by the hex digits. */
  function ToPostgresBytea(b: seq<byte>): (r: string)
    ensures |r| == 2 + 2 * |b|
    ensures r[..2] == "\\x"
    ensures forall i :: 2 <= i < |r| ==> IsHexDigit(r[i]) && !('A' <= r[i] <= 'Z')
  {
    var h := ToHex(b);
    forall i | 0 <= i < |h| ensures IsHexDigit(h[i]) && !('A' <= h[i] <= 'Z') {
      var k := i / 2;
      assert i == 2 * k || i == 2 * k + 1;
      assert h[2 * k] == HexDigit(b[k] / 16) && h[2 * k + 1] == HexDigit(b[k] % 16);
    }
    "\\x" + h
  }

  /** The digits of a bytea literal: the input without an optional leading `\x`. */
  function ByteaDigits(value: string): (d: string)
    ensures d == if StartsWith(value, "\\x") then value[2..] else value
  {
    if StartsWith(value, "\\x") then value[2..] else value
  }

  function PairValue(d: string, k: nat): byte
    requires 2 * k + 1 < |d| && IsHexDigit(d[2 * k]) && IsHexDigit(d[2 * k + 1])
  {
    HexValue(d[2 * k]) * 16 + HexValue(d[2 * k + 1])
  }

  /** What `fromPostgresBytea` decodes: None (the thrown error) for an odd number of digits
      or any non-hex character; otherwise one byte per pair of digits, either case. */
  function ByteaDecode(value: string): (r: Option<seq<byte>>)
    ensures var d := ByteaDigits(value);
      r.Some? <==> |d| % 2 == 0 && forall i :: 0 <= i < |d| ==> IsHexDigit(d[i])
    ensures r.Some? ==> 2 * |r.value| == |ByteaDigits(value)|
    ensures r.Some? ==> forall k :: 0 <= k < |r.value| ==> r.value[k] == PairValue(ByteaDigits(value), k)
  {
    var d := ByteaDigits(value);
    if |d| % 2 != 0 || !(forall i :: 0 <= i < |d| ==> IsHexDigit(d[i])) then None
    else Some(seq(|d| / 2, k requires 0 <= k < |d| / 2 => PairValue(d, k)))
  }

  /** `fromPostgresBytea`: checks the digits, then fills a byte array two digits at a
      time. None stands for the thrown "invalid bytea" error. */
  method FromPostgresBytea(value: string) returns (r: Option<seq<byte>>)
    ensures r == ByteaDecode(value)
  {
    var normalized := if StartsWith(value, "\\x") then value[2..] else value;
    if |normalized| % 2 != 0 || exists i :: 0 <= i < |normalized| && !IsHexDigit(normalized[i]) {
      return None;
    }
    var bytes := new byte[|normalized| / 2];
    var index := 0;
    while index < |normalized|
      invariant 0 <= index <= |normalized| && index % 2 == 0
      invariant forall k :: 0 <= k < index / 2 ==> bytes[k] == PairValue(normalized, k)
    {
      bytes[index / 2] := HexValue(normalized[index]) * 16 + HexValue(normalized[index + 1]);
      index := index + 2;
    }
    assert normalized == ByteaDigits(value);
    assert bytes[..] == ByteaDecode(value).value;
    r := Some(bytes[..]);
  }

  /** Decoding the bytea text of any bytes gives them back. */
  lemma ByteaRoundTrip(b: seq<byte>)
    ensures ByteaDecode(ToPostgresBytea(b)) == Some(b)
  {
    var s := ToPostgresBytea(b);
    assert StartsWith(s, "\\x");
    var d := ByteaDigits(s);
    assert d == ToHex(b);
    forall i | 0 <= i < |d| ensures IsHexDigit(d[i]) {
      assert d[i] == s[i + 2];
    }
    var r := ByteaDecode(s);
    assert r.Some? && |r.value| == |b|;
    forall k | 0 <= k < |b| ensures r.value[k] == b[k] {
      assert d[2 * k] == HexDigit(b[k] / 16);
      assert d[2 * k + 1] == HexDigit(b[k] % 16);
      assert r.value[k] == PairValue(d, k);
    }
    assert r.value == b;
  }

  /** The bytes 0, 1, 15, 16, 255 are stored as `\x00010f10ff`. */
  lemma ByteaExample()
    ensures ToPostgresBytea([0, 1, 15, 16, 255]) == "\\x00010f10ff"
  {
  }

  /** A stray non-hex digit, as in `\x0g`, is rejected. */
  lemma ByteaRejectsNonHex()
    ensures ByteaDecode("\\x0g") == None
  {
    assert !IsHexDigit(ByteaDigits("\\x0g")[1]);
  }

  // ---------------------------------------------------------------------------------------
  // keyring

  /** A configured key: its version and the 32 raw key bytes (from which the platform key
      object is imported). */
  datatype KeyRecord = KeyRecord(version: int, raw: seq<byte>)

  /** The key records in ascending version order; the last one is current. */
  datatype Keyring = Keyring(records: seq<KeyRecord>)

  /** The configuration errors `createKeyringFromEnv` throws, and the one `decrypt` throws. */
  datatype KeyError =
    | MalformedKeyset            // an entry is not `version:key` with a positive integer version
    | InvalidBase64              // a key is not base64
    | WrongKeyLength             // a key does not decode to 32 bytes
    | MissingKey                 // neither variable holds a key
    | InvalidLegacyVersion       // the legacy version is not a positive integer
    | DuplicateVersion(v: int)   // two entries carry the same version
    | NoRecords                  // only blank entries: reading the last record fails at run time
    | UnknownKeyVersion(v: int)  // decrypt asked for a version the keyring lacks
    | DecryptionFailed           // the cipher rejected the ciphertext

  /** The three environment variables the keyring reads. */
  datatype KeyEnv = KeyEnv(keys: Option<string>, legacyKey: Option<string>, legacyVersion: Option<string>)

  /** `Number.isInteger(x) && x > 0` for the value `Number()` produced; None stands for NaN. */
  predicate IsPositiveInteger(x: Option<real>) {
    x.Some? && x.value == x.value.Floor as real && x.value > 0.0
  }

  /** `decodeBase64` then `importAesKey`: the trimmed value decoded by `atob`, which must
      yield exactly 32 bytes. */
  function DecodeKey(value: string): (r: Result<seq<byte>, KeyError>)
    ensures r.Ok? <==> AtobBytes(Trim(value)).Some? && |AtobBytes(Trim(value)).value| == KEY_BYTES
    ensures r.Ok? ==> r.value == AtobBytes(Trim(value)).value
    ensures r.Err? ==> r.error == (if AtobBytes(Trim(value)).None? then InvalidBase64 else WrongKeyLength)
  {
    match AtobBytes(Trim(value))
    case None => Err(InvalidBase64)
    case Some(b) => if |b| != KEY_BYTES then Err(WrongKeyLength) else Ok(b)
  }

  predicate IsColon(c: char) { c == ':' }
  predicate IsComma(c: char) { c == ',' }

  /** One keyset entry: `entry.split(":", 2)` gives the version text and the key text (the
      piece after the first colon, up to any second colon). */
  function ParseEntry(entry: string, number: string -> Option<real>): Result<KeyRecord, KeyError> {
    var parts := Split(entry, IsColon);
    var version := number(parts[0]);
    var rawKey := EntryKey(parts);
    if !IsPositiveInteger(version) || rawKey == [] then Err(MalformedKeyset)
    else match DecodeKey(rawKey)
      case Err(e) => Err(e)
      case Ok(raw) => Ok(KeyRecord(version.value.Floor, raw))
  }

  /** The key text of an entry's colon-separated pieces; a missing piece reads as empty. */
  function EntryKey(parts: seq<string>): string {
    if |parts| >= 2 then parts[1] else ""
  }

  /** An entry is accepted iff its version text is a positive integer, its key text is
      non-empty and the key decodes to 32 bytes; the record then carries that version and
      those bytes. A bad version or missing key is reported before any key problem. */
  lemma ParseEntryAccepts(entry: string, number: string -> Option<real>)
    ensures var parts := Split(entry, IsColon);
      var version := number(parts[0]);
      var rawKey := EntryKey(parts);
      && (ParseEntry(entry, number).Ok? <==> IsPositiveInteger(version) && rawKey != [] && DecodeKey(rawKey).Ok?)
      && (!IsPositiveInteger(version) || rawKey == [] ==> ParseEntry(entry, number) == Err(MalformedKeyset))
      && (ParseEntry(entry, number).Ok? ==>
            var rec := ParseEntry(entry, number).value;
            rec.version > 0 && rec.version as real == version.value
            && rec.raw == DecodeKey(rawKey).value && |rec.raw| == KEY_BYTES)
  {
  }

  /** The values of the results in order, or the first error among them. */
  function Collect<T, E>(rs: seq<Result<T, E>>): (r: Result<seq<T>, E>)
    ensures r.Ok? ==> |r.value| == |rs| && forall k :: 0 <= k < |rs| ==> rs[k] == Ok(r.value[k])
  {
    if rs == [] then Ok([])
    else match rs[0]
      case Err(e) => Err(e)
      case Ok(v) =>
        match Collect(rs[1..])
        case Err(e) => Err(e)
        case Ok(rest) => Ok([v] + rest)
  }

  /** Every result is Ok: the values, in order. */
  lemma {:induction false} CollectAllOk<T, E>(rs: seq<Result<T, E>>, values: seq<T>)
    requires |values| == |rs| && forall k :: 0 <= k < |rs| ==> rs[k] == Ok(values[k])
    ensures Collect(rs) == Ok(values)
  {
    if rs != [] {
      CollectAllOk(rs[1..], values[1..]);
      assert values == [values[0]] + values[1..];
    }
  }

  /** The first failing result decides. */
  lemma {:induction false} CollectFirstError<T, E>(rs: seq<Result<T, E>>, n: nat)
    requires n < |rs| && rs[n].Err? && forall k :: 0 <= k < n ==> rs[k].Ok?
    ensures Collect(rs) == Err(rs[n].error)
  {
    if n > 0 {
      CollectFirstError(rs[1..], n - 1);
    }
  }

  /** The outcome of each entry, in order. */
  function ParsedEntries(entries: seq<string>, number: string -> Option<real>): (r: seq<Result<KeyRecord, KeyError>>)
    ensures |r| == |entries| && forall k :: 0 <= k < |entries| ==> r[k] == ParseEntry(entries[k], number)
  {
    seq(|entries|, k requires 0 <= k < |entries| => ParseEntry(entries[k], number))
  }

  /** The records of the entries in order, or the error of the first entry that fails. */
  function ParseEntries(entries: seq<string>, number: string -> Option<real>): (r: Result<seq<KeyRecord>, KeyError>)
    ensures r.Ok? ==> |r.value| == |entries|
    ensures r.Ok? ==> forall k :: 0 <= k < |entries| ==> ParseEntry(entries[k], number) == Ok(r.value[k])
  {
    Collect(ParsedEntries(entries, number))
  }

  /** The key-set entries: split on commas, trimmed, blanks dropped. */
  function KeysetEntries(keyset: string): seq<string> {
    Fields(keyset, IsComma)
  }

  /** The keyset variable, trimmed, when it is set and not blank. */
  function ActiveKeyset(env: KeyEnv): (r: Option<string>)
    ensures r.Some? ==> r.value != [] && env.keys.Some?
  {
    if env.keys.Some? && Trim(env.keys.value) != [] then Some(Trim(env.keys.value)) else None
  }

  /** The records before the duplicate check: from the key set when it is set and not
      blank, otherwise the single legacy key whose version defaults to "1". */
  function ConfiguredRecords(env: KeyEnv, number: string -> Option<real>): (r: Result<seq<KeyRecord>, KeyError>)
    ensures ActiveKeyset(env).Some? ==> r == ParseEntries(KeysetEntries(ActiveKeyset(env).value), number)
    ensures ActiveKeyset(env).None? && (env.legacyKey.None? || Trim(env.legacyKey.value) == []) ==> r == Err(MissingKey)
  {
    match ActiveKeyset(env)
    case Some(keyset) => ParseEntries(KeysetEntries(keyset), number)
    case None =>
      if env.legacyKey.None? || Trim(env.legacyKey.value) == [] then Err(MissingKey)
      else
        var version := number(if env.legacyVersion.Some? then env.legacyVersion.value else "1");
        if !IsPositiveInteger(version) then Err(InvalidLegacyVersion)
        else match DecodeKey(Trim(env.legacyKey.value))
          case Err(e) => Err(e)
          case Ok(raw) => Ok([KeyRecord(version.value.Floor, raw)])
  }

  predicate DistinctVersions(rs: seq<KeyRecord>) {
    forall i, j :: 0 <= i < j < |rs| ==> rs[i].version != rs[j].version
  }

  /** The version of the first record whose version was already seen (in `seen` or earlier
      in `rs`), as the `Set` loop reports it. */
  function FirstRepeat(rs: seq<KeyRecord>, seen: set<int>): (r: Option<int>)
    ensures r.None? <==> DistinctVersions(rs) && forall i :: 0 <= i < |rs| ==> rs[i].version !in seen
    ensures r.Some? ==> exists i :: 0 <= i < |rs| && rs[i].version == r.value
  {
    if rs == [] then None
    else if rs[0].version in seen then Some(rs[0].version)
    else
      var r := FirstRepeat(rs[1..], seen + {rs[0].version});
      assert r.None? ==> DistinctVersions(rs) by {
        if r.None? {
          forall i, j | 0 <= i < j < |rs| ensures rs[i].version != rs[j].version {
            if i == 0 { assert rs[j] == rs[1..][j - 1]; }
            else { assert rs[i] == rs[1..][i - 1] && rs[j] == rs[1..][j - 1]; }
          }
        }
      }
      assert r.Some? ==> exists i :: 0 <= i < |rs| && rs[i].version == r.value by {
        if r.Some? {
          var i :| 0 <= i < |rs[1..]| && rs[1..][i].version == r.value;
          assert rs[i + 1].version == r.value;
        }
      }
      r
  }

  /** The whole construction before ordering: the configured records, provided some exist
      and no version repeats. */
  function KeyringRecords(env: KeyEnv, number: string -> Option<real>): (r: Result<seq<KeyRecord>, KeyError>)
    ensures r.Ok? ==> ConfiguredRecords(env, number) == r
    ensures r.Ok? ==> |r.value| > 0 && DistinctVersions(r.value)
    ensures ConfiguredRecords(env, number).Err? ==> r == ConfiguredRecords(env, number)
  {
    match ConfiguredRecords(env, number)
    case Err(e) => Err(e)
    case Ok(rs) =>
      match FirstRepeat(rs, {})
      case Some(v) => Err(DuplicateVersion(v))
      case None => if rs == [] then Err(NoRecords) else Ok(rs)
  }

  predicate Ascending(rs: seq<KeyRecord>) {
    forall i, j :: 0 <= i < j < |rs| ==> rs[i].version < rs[j].version
  }

  /** A keyring as construction leaves it: non-empty, versions positive and strictly
      ascending, every key 32 bytes. */
  predicate ValidKeyring(k: Keyring) {
    |k.records| > 0 && Ascending(k.records)
    && forall i :: 0 <= i < |k.records| ==> k.records[i].version > 0 && |k.records[i].raw| == KEY_BYTES
  }

  lemma ConfiguredRecordsValid(env: KeyEnv, number: string -> Option<real>)
    requires ConfiguredRecords(env, number).Ok?
    ensures forall rec :: rec in ConfiguredRecords(env, number).value ==> rec.version > 0 && |rec.raw| == KEY_BYTES
  {
    var rs := ConfiguredRecords(env, number).value;
    forall rec | rec in rs ensures rec.version > 0 && |rec.raw| == KEY_BYTES {
      if ActiveKeyset(env).Some? {
        var entries := KeysetEntries(ActiveKeyset(env).value);
        var k :| 0 <= k < |rs| && rs[k] == rec;
        assert ParseEntry(entries[k], number) == Ok(rec);
        ParseEntryAccepts(entries[k], number);
      }
    }
  }

  /** Versions ascend (not strictly) over `a[..n]`. */
  ghost predicate SortedPrefix(a: array<KeyRecord>, n: int)
    reads a
  {
    forall p, q :: 0 <= p < q < n && q < a.Length ==> a[p].version <= a[q].version
  }

  /** Insertion sort by version, in place, with the comparator `left.version - right.version`. */
  method SortByVersion(a: array<KeyRecord>)
    modifies a
    ensures forall i, j :: 0 <= i < j < a.Length ==> a[i].version <= a[j].version
    ensures multiset(a[..]) == multiset(old(a[..]))
  {
    var i := 1;
    while i < a.Length
      invariant 1 <= i || a.Length == 0
      invariant i <= a.Length || a.Length == 0
      invariant SortedPrefix(a, i)
      invariant multiset(a[..]) == multiset(old(a[..]))
    {
      InsertAt(a, i);
      i := i + 1;
    }
  }

  /** One pass of the insertion sort: `a[i]` moves down to its place in the sorted prefix. */
  method InsertAt(a: array<KeyRecord>, i: nat)
    modifies a
    requires i < a.Length && SortedPrefix(a, i)
    ensures SortedPrefix(a, i + 1)
    ensures multiset(a[..]) == multiset(old(a[..]))
  {
    var j := i;
    while j > 0 && a[j - 1].version > a[j].version
      invariant 0 <= j <= i < a.Length
      invariant forall p, q :: 0 <= p < q <= i && q != j ==> a[p].version <= a[q].version
      invariant multiset(a[..]) == multiset(old(a[..]))
    {
      a[j - 1], a[j] := a[j], a[j - 1];
      j := j - 1;
    }
  }

  /** The entry loop of `createKeyringFromEnv`: one record pushed per entry, stopping at
      the first entry that fails. */
  method PushEntryRecords(entries: seq<string>, number: string -> Option<real>)
    returns (r: Result<seq<KeyRecord>, KeyError>)
    ensures r == ParseEntries(entries, number)
  {
    ghost var outcomes := ParsedEntries(entries, number);
    var records: seq<KeyRecord> := [];
    var n := 0;
    while n < |entries|
      invariant 0 <= n <= |entries| && |records| == n
      invariant forall k :: 0 <= k < n ==> outcomes[k] == Ok(records[k])
    {
      var parsed := ParseEntry(entries[n], number);
      assert parsed == outcomes[n];
      if parsed.Err? {
        CollectFirstError(outcomes, n);
        return Err(parsed.error);
      }
      records := records + [parsed.value];
      n := n + 1;
    }
    CollectAllOk(outcomes, records);
    r := Ok(records);
  }

  /** The `Set` loop of `createKeyringFromEnv`: the first repeated version, if any. */
  method FindDuplicateVersion(records: seq<KeyRecord>) returns (dup: Option<int>)
    ensures dup == FirstRepeat(records, {})
  {
    var seen: set<int> := {};
    var m := 0;
    while m < |records|
      invariant 0 <= m <= |records|
      invariant FirstRepeat(records, {}) == FirstRepeat(records[m..], seen)
    {
      assert records[m..][1..] == records[m + 1..];
      if records[m].version in seen {
        return Some(records[m].version);
      }
      seen := seen + {records[m].version};
      m := m + 1;
    }
    return None;
  }

  /** `createKeyringFromEnv`: pushes one record per entry (or the legacy record), rejects a
      repeated version with a `Set`, then sorts the records by version. */
  method CreateKeyringFromEnv(env: KeyEnv, number: string -> Option<real>) returns (r: Result<Keyring, KeyError>)
    ensures r.Err? <==> KeyringRecords(env, number).Err?
    ensures r.Err? ==> r.error == KeyringRecords(env, number).error
    ensures r.Ok? ==> ValidKeyring(r.value)
    ensures r.Ok? ==> multiset(r.value.records) == multiset(KeyringRecords(env, number).value)
  {
    var configured: Result<seq<KeyRecord>, KeyError>;
    var keyset := ActiveKeyset(env);
    if keyset.Some? {
      configured := PushEntryRecords(KeysetEntries(keyset.value), number);
    } else {
      configured := ConfiguredRecords(env, number);
    }
    assert configured == ConfiguredRecords(env, number);
    if configured.Err? {
      return Err(configured.error);
    }
    var records := configured.value;
    var dup := FindDuplicateVersion(records);
    if dup.Some? {
      return Err(DuplicateVersion(dup.value));
    }
    if records == [] {
      return Err(NoRecords);
    }
    ConfiguredRecordsValid(env, number);
    var keyring := SortedKeyring(records);
    r := Ok(keyring);
  }

  /** The closing step of `createKeyringFromEnv`: the checked records, sorted by version
      into a fresh array. */
  method SortedKeyring(records: seq<KeyRecord>) returns (k: Keyring)
    requires |records| > 0 && DistinctVersions(records)
    requires forall rec :: rec in records ==> rec.version > 0 && |rec.raw| == KEY_BYTES
    ensures ValidKeyring(k)
    ensures multiset(k.records) == multiset(records)
  {
    var a := new KeyRecord[|records|](i requires 0 <= i < |records| => records[i]);
    assert a[..] == records;
    SortByVersion(a);
    var sorted := a[..];
    SortedKeyringValid(records, sorted);
    k := Keyring(sorted);
  }

  /** Ordering distinct, valid records gives a valid keyring. */
  lemma SortedKeyringValid(records: seq<KeyRecord>, sorted: seq<KeyRecord>)
    requires |records| > 0 && DistinctVersions(records)
    requires forall rec :: rec in records ==> rec.version > 0 && |rec.raw| == KEY_BYTES
    requires multiset(sorted) == multiset(records)
    requires forall i, j :: 0 <= i < j < |sorted| ==> sorted[i].version <= sorted[j].version
    ensures ValidKeyring(Keyring(sorted))
  {
    assert |sorted| == |records| by {
      assert |multiset(sorted)| == |multiset(records)|;
    }
    forall i | 0 <= i < |sorted| ensures sorted[i] in records {
      assert sorted[i] in multiset(sorted);
    }
    forall i, j | 0 <= i < j < |sorted| ensures sorted[i].version < sorted[j].version {
      if sorted[i].version == sorted[j].version {
        assert sorted[i] in multiset(records) && sorted[j] in multiset(records);
        var p :| 0 <= p < |records| && records[p] == sorted[i];
        var q :| 0 <= q < |records| && records[q] == sorted[j];
        assert p == q;
        MultiplicityTwo(sorted, i, j);
        MultiplicityOne(records, p);
        assert false;
      }
    }
  }

  lemma MultiplicityTwo(s: seq<KeyRecord>, i: int, j: int)
    requires 0 <= i < j < |s| && s[i] == s[j]
    ensures multiset(s)[s[i]] >= 2
  {
    assert s == s[..i] + [s[i]] + s[i + 1..j] + [s[j]] + s[j + 1..];
    assert multiset(s) == multiset(s[..i]) + multiset{s[i]} + multiset(s[i + 1..j]) + multiset{s[j]} + multiset(s[j + 1..]);
  }

  lemma MultiplicityOne(s: seq<KeyRecord>, p: int)
    requires DistinctVersions(s) && 0 <= p < |s|
    ensures multiset(s)[s[p]] == 1
  {
    assert s == s[..p] + [s[p]] + s[p + 1..];
    assert s[p] !in s[..p];
    assert s[p] !in s[p + 1..];
    assert multiset(s) == multiset(s[..p]) + multiset{s[p]} + multiset(s[p + 1..]);
  }

  // ---------------------------------------------------------------------------------------
  // the keyring's interface

  function CurrentVersion(k: Keyring): int
    requires |k.records| > 0
  {
    k.records[|k.records| - 1].version
  }

  function Versions(k: Keyring): (vs: seq<int>)
    ensures |vs| == |k.records| && forall i :: 0 <= i < |vs| ==> vs[i] == k.records[i].version
  {
    seq(|k.records|, i requires 0 <= i < |k.records| => k.records[i].version)
  }

  /** `versions` is strictly ascending and `currentVersion` is its maximum. */
  lemma CurrentIsMaximum(k: Keyring)
    requires ValidKeyring(k)
    ensures forall i, j :: 0 <= i < j < |Versions(k)| ==> Versions(k)[i] < Versions(k)[j]
    ensures CurrentVersion(k) in Versions(k)
    ensures forall v :: v in Versions(k) ==> v <= CurrentVersion(k)
  {
    var vs := Versions(k);
    assert vs[|vs| - 1] == CurrentVersion(k);
  }

  /** The record whose version equals `version` (`records.find`). */
  function FindRecord(rs: seq<KeyRecord>, version: int): (r: Option<KeyRecord>)
    ensures r.Some? ==> r.value in rs && r.value.version == version
    ensures r.None? <==> forall i :: 0 <= i < |rs| ==> rs[i].version != version
  {
    if rs == [] then None
    else if rs[0].version == version then Some(rs[0])
    else FindRecord(rs[1..], version)
  }

  datatype Sealed = Sealed(ciphertext: seq<byte>, nonce: seq<byte>, keyVersion: int)

  /** `encrypt`: the plaintext sealed under the current key with the given random nonce
      (twelve bytes from `getRandomValues` in the service, any bytes here), tagged with the current version. `seal` is AES-256-GCM over the UTF-8 text. */
  function Encrypt(k: Keyring, plaintext: string, nonce: seq<byte>,
                   seal: (seq<byte>, seq<byte>, string) -> seq<byte>): (r: Sealed)
    requires |k.records| > 0
    ensures r.keyVersion == CurrentVersion(k) && r.nonce == nonce
    ensures r.ciphertext == seal(k.records[|k.records| - 1].raw, nonce, plaintext)
  {
    var current := k.records[|k.records| - 1];
    Sealed(seal(current.raw, nonce, plaintext), nonce, current.version)
  }

  /** `decrypt`: opens the ciphertext with the key of exactly `keyVersion`; an absent
      version is an error, and so is a ciphertext the cipher rejects. */
  function Decrypt(k: Keyring, ciphertext: seq<byte>, nonce: seq<byte>, keyVersion: int,
                   open: (seq<byte>, seq<byte>, seq<byte>) -> Option<string>): (r: Result<string, KeyError>)
    ensures (forall i :: 0 <= i < |k.records| ==> k.records[i].version != keyVersion) ==> r == Err(UnknownKeyVersion(keyVersion))
    ensures DistinctVersions(k.records) ==>
      forall i :: 0 <= i < |k.records| && k.records[i].version == keyVersion ==>
        r == match open(k.records[i].raw, nonce, ciphertext)
             case None => Err(DecryptionFailed)
             case Some(p) => Ok(p)
  {
    match FindRecord(k.records, keyVersion)
    case None => Err(UnknownKeyVersion(keyVersion))
    case Some(rec) =>
      match open(rec.raw, nonce, ciphertext)
      case None => Err(DecryptionFailed)
      case Some(p) => Ok(p)
  }

  /** The property assumed of the cipher: opening what was sealed under the same key and
      nonce yields the plaintext. */
  ghost predicate CipherRoundTrip(seal: (seq<byte>, seq<byte>, string) -> seq<byte>,
                            open: (seq<byte>, seq<byte>, seq<byte>) -> Option<string>) {
    forall key, nonce, p :: open(key, nonce, seal(key, nonce, p)) == Some(p)
  }

  /** What `encrypt` returns, `decrypt` opens. */
  lemma EncryptDecrypt(k: Keyring, plaintext: string, nonce: seq<byte>,
                       seal: (seq<byte>, seq<byte>, string) -> seq<byte>,
                       open: (seq<byte>, seq<byte>, seq<byte>) -> Option<string>)
    requires ValidKeyring(k) && CipherRoundTrip(seal, open)
    ensures var s := Encrypt(k, plaintext, nonce, seal);
      Decrypt(k, s.ciphertext, s.nonce, s.keyVersion, open) == Ok(plaintext)
  {
    var s := Encrypt(k, plaintext, nonce, seal);
    var last := |k.records| - 1;
    assert open(k.records[last].raw, nonce, s.ciphertext) == Some(plaintext);
  }

  /** Rotation keeps old data readable: a ciphertext sealed under any configured key,
      current or not, opens with that key's version. */
  lemma OlderVersionsReadable(k: Keyring, i: int, plaintext: string, nonce: seq<byte>,
                              seal: (seq<byte>, seq<byte>, string) -> seq<byte>,
                              open: (seq<byte>, seq<byte>, seq<byte>) -> Option<string>)
    requires ValidKeyring(k) && CipherRoundTrip(seal, open) && 0 <= i < |k.records|
    ensures Decrypt(k, seal(k.records[i].raw, nonce, plaintext), nonce, k.records[i].version, open) == Ok(plaintext)
  {
    assert open(k.records[i].raw, nonce, seal(k.records[i].raw, nonce, plaintext)) == Some(plaintext);
  }

  /** The legacy single key, with no version variable set, becomes version 1. */
  lemma LegacyVersionDefaultsToOne(env: KeyEnv, number: string -> Option<real>)
    requires ActiveKeyset(env).None? && env.legacyKey.Some? && env.legacyVersion.None?
    requires DecodeKey(Trim(env.legacyKey.value)).Ok?
    requires number("1") == Some(1.0)
    ensures ConfiguredRecords(env, number) == Ok([KeyRecord(1, DecodeKey(Trim(env.legacyKey.value)).value)])
  {
    assert (1.0).Floor == 1;
    TrimIdempotent(env.legacyKey.value);
  }

  /** A set key set takes precedence: the legacy variables are not consulted. */
  lemma KeysetOverridesLegacy(env: KeyEnv, legacyKey: Option<string>, legacyVersion: Option<string>,
                              number: string -> Option<real>)
    requires ActiveKeyset(env).Some?
    ensures ConfiguredRecords(env, number) == ConfiguredRecords(KeyEnv(env.keys, legacyKey, legacyVersion), number)
  {
  }

  /** Two entries with one version are rejected. */
  lemma DuplicateRejected(env: KeyEnv, number: string -> Option<real>, i: int, j: int)
    requires ConfiguredRecords(env, number).Ok?
    requires 0 <= i < j < |ConfiguredRecords(env, number).value|
    requires ConfiguredRecords(env, number).value[i].version == ConfiguredRecords(env, number).value[j].version
    ensures KeyringRecords(env, number).Err? && KeyringRecords(env, number).error.DuplicateVersion?
  {
  }
}
