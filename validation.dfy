/** The owner app's form validation: project handles and the allowed-origins list. */
module Validation {

  import opened Wrappers
  import opened Text
  import opened Origin

  // ---------------------------------------------------------------------------------------
  // handles

  /** `[a-z0-9-]`. */
  predicate HandleChar(c: char) {
    ('a' <= c <= 'z') || ('0' <= c <= '9') || c == '-'
  }

  predicate NotHandleChar(c: char) { !HandleChar(c) }

  predicate IsHyphen(c: char) { c == '-' }

  /** The text after the run of `inRun` characters that starts `s`. */
  function DropRun(s: string, inRun: char -> bool): (r: string)
    ensures |r| <= |s| && r == s[|s| - |r|..]
    ensures r != [] ==> !inRun(r[0])
    ensures forall i :: 0 <= i < |s| - |r| ==> inRun(s[i])
  {
    if s != [] && inRun(s[0]) then DropRun(s[1..], inRun) else s
  }

  /** `replace(/[...]+/g, "-")`: every maximal run of characters matching `inRun` becomes a
      single hyphen; other characters stay. */
  function ReplaceRuns(s: string, inRun: char -> bool): (r: string)
    decreases |s|
  {
    if s == [] then []
    else if !inRun(s[0]) then [s[0]] + ReplaceRuns(s[1..], inRun)
    else "-" + ReplaceRuns(DropRun(s[1..], inRun), inRun)
  }

  /** `replace(/^-|-$/g, "")`: one leading and one trailing hyphen removed. */
  function StripEdgeHyphens(s: string): (r: string)
    ensures |r| <= |s|
  {
    var t := if s != [] && s[0] == '-' then s[1..] else s;
    if t != [] && t[|t| - 1] == '-' then t[..|t| - 1] else t
  }

  /** `normalizeHandle`: lower-cased, trimmed, every run of characters outside `[a-z0-9-]`
      turned into one hyphen, hyphen runs collapsed, and an edge hyphen removed. */
  function NormalizeHandle(value: string): (r: string)
  {
    StripEdgeHyphens(ReplaceRuns(ReplaceRuns(Trim(Lower(value)), NotHandleChar), IsHyphen))
  }

  predicate NoDoubleHyphen(s: string) {
    forall i :: 0 <= i < |s| - 1 ==> !(s[i] == '-' && s[i + 1] == '-')
  }

  /** What a normalised handle looks like: only `[a-z0-9-]`, no `--`, no edge hyphen. */
  predicate NormalHandle(s: string) {
    && (forall i :: 0 <= i < |s| ==> HandleChar(s[i]))
    && NoDoubleHyphen(s)
    && (s != [] ==> s[0] != '-' && s[|s| - 1] != '-')
  }

  /** A class of characters that holds of the input and of `-` holds of the output. */
  lemma {:induction false} ReplaceRunsKeeps(s: string, inRun: char -> bool, p: char -> bool)
    requires forall i :: 0 <= i < |s| ==> p(s[i])
    requires p('-')
    ensures forall i :: 0 <= i < |ReplaceRuns(s, inRun)| ==> p(ReplaceRuns(s, inRun)[i])
    decreases |s|
  {
    if s != [] {
      if !inRun(s[0]) {
        ReplaceRunsKeeps(s[1..], inRun, p);
      } else {
        var rest := DropRun(s[1..], inRun);
        assert forall i :: 0 <= i < |rest| ==> rest[i] == s[1..][|s[1..]| - |rest| + i];
        ReplaceRunsKeeps(rest, inRun, p);
      }
    }
  }

  /** The output holds no character of a run: each one became a hyphen. */
  lemma {:induction false} ReplaceRunsRemoves(s: string, inRun: char -> bool)
    requires !inRun('-')
    ensures forall i :: 0 <= i < |ReplaceRuns(s, inRun)| ==>
      !inRun(ReplaceRuns(s, inRun)[i]) || ReplaceRuns(s, inRun)[i] == '-'
    decreases |s|
  {
    if s != [] {
      if !inRun(s[0]) {
        ReplaceRunsRemoves(s[1..], inRun);
      } else {
        ReplaceRunsRemoves(DropRun(s[1..], inRun), inRun);
      }
    }
  }

  /** Replacing hyphen runs leaves no two hyphens in a row; the first character of the
      output is a hyphen only when the input starts with one. */
  lemma {:induction false} CollapseLeavesNoDoubleHyphen(s: string)
    ensures NoDoubleHyphen(ReplaceRuns(s, IsHyphen))
    ensures ReplaceRuns(s, IsHyphen) != [] ==> (ReplaceRuns(s, IsHyphen)[0] == '-' <==> s[0] == '-')
    decreases |s|
  {
    var r := ReplaceRuns(s, IsHyphen);
    if s != [] {
      if !IsHyphen(s[0]) {
        CollapseLeavesNoDoubleHyphen(s[1..]);
        assert r == [s[0]] + ReplaceRuns(s[1..], IsHyphen);
      } else {
        var rest := DropRun(s[1..], IsHyphen);
        CollapseLeavesNoDoubleHyphen(rest);
        var tail := ReplaceRuns(rest, IsHyphen);
        assert r == "-" + tail;
        assert tail != [] ==> tail[0] != '-';
        assert forall i :: 0 <= i < |tail| - 1 ==> r[i + 1] == tail[i];
      }
    }
  }

  /** Removing an edge hyphen from text without `--` leaves no edge hyphen. */
  lemma StripEdgeHyphensNormal(s: string)
    requires forall i :: 0 <= i < |s| ==> HandleChar(s[i])
    requires NoDoubleHyphen(s)
    ensures NormalHandle(StripEdgeHyphens(s))
  {
    var t := if s != [] && s[0] == '-' then s[1..] else s;
    assert forall i :: 0 <= i < |t| ==> t[i] == s[|s| - |t| + i];
    var r := StripEdgeHyphens(s);
    assert forall i :: 0 <= i < |r| ==> r[i] == t[i];
    if r != [] {
      assert r[0] != '-' by {
        if s[0] == '-' { assert s[1] == t[0]; }
      }
      assert r[|r| - 1] != '-' by {
        if t[|t| - 1] == '-' {
          assert |t| >= 2 && r[|r| - 1] == t[|t| - 2];
          assert s[|s| - 1] == t[|t| - 1] && s[|s| - 2] == t[|t| - 2];
        }
      }
    }
  }

  /** `normalizeHandle` always yields text over `[a-z0-9-]` with no `--` and no leading
      or trailing hyphen. */
  lemma NormalizeHandleShape(value: string)
    ensures NormalHandle(NormalizeHandle(value))
  {
    var a := ReplaceRuns(Trim(Lower(value)), NotHandleChar);
    ReplaceRunsRemoves(Trim(Lower(value)), NotHandleChar);
    assert forall i :: 0 <= i < |a| ==> HandleChar(a[i]);
    var b := ReplaceRuns(a, IsHyphen);
    ReplaceRunsKeeps(a, IsHyphen, HandleChar);
    CollapseLeavesNoDoubleHyphen(a);
    StripEdgeHyphensNormal(b);
  }

  /** Text with no run character passes through unchanged. */
  lemma {:induction false} ReplaceRunsNone(s: string, inRun: char -> bool)
    requires forall i :: 0 <= i < |s| ==> !inRun(s[i])
    ensures ReplaceRuns(s, inRun) == s
    decreases |s|
  {
    if s != [] {
      ReplaceRunsNone(s[1..], inRun);
      assert [s[0]] + s[1..] == s;
    }
  }

  /** Text with single hyphens passes through hyphen collapsing unchanged. */
  lemma {:induction false} CollapseSingleHyphens(s: string)
    requires NoDoubleHyphen(s)
    ensures ReplaceRuns(s, IsHyphen) == s
    decreases |s|
  {
    if s != [] {
      assert NoDoubleHyphen(s[1..]) by {
        forall i | 0 <= i < |s[1..]| - 1 ensures !(s[1..][i] == '-' && s[1..][i + 1] == '-') {
          assert s[1..][i] == s[i + 1] && s[1..][i + 1] == s[i + 2];
        }
      }
      CollapseSingleHyphens(s[1..]);
      if IsHyphen(s[0]) {
        assert DropRun(s[1..], IsHyphen) == s[1..] by {
          if s[1..] != [] { assert s[1] != '-'; }
        }
      }
      assert [s[0]] + s[1..] == s;
    }
  }

  /** A normal handle is a fixed point of `normalizeHandle`. */
  lemma NormalizeNormal(s: string)
    requires NormalHandle(s)
    ensures NormalizeHandle(s) == s
  {
    var a := Trim(Lower(s));
    assert a == s by { LowerTrimHandle(s); }
    var b := ReplaceRuns(a, NotHandleChar);
    assert b == s by {
      assert forall i :: 0 <= i < |s| ==> !NotHandleChar(s[i]);
      ReplaceRunsNone(s, NotHandleChar);
    }
    var c := ReplaceRuns(b, IsHyphen);
    assert c == s by { CollapseSingleHyphens(s); }
    StripEdgeNone(s);
  }

  /** Text with no edge hyphen is left alone by `StripEdgeHyphens`. */
  lemma StripEdgeNone(s: string)
    requires s != [] ==> s[0] != '-' && s[|s| - 1] != '-'
    ensures StripEdgeHyphens(s) == s
  {
  }

  /** Lower-casing and trimming leave text over `[a-z0-9-]` alone. */
  lemma LowerTrimHandle(s: string)
    requires forall i :: 0 <= i < |s| ==> HandleChar(s[i])
    ensures Trim(Lower(s)) == s
  {
    assert Lower(s) == s by {
      forall i | 0 <= i < |s| ensures Lower(s)[i] == s[i] { assert HandleChar(s[i]); }
    }
    if s != [] { assert HandleChar(s[0]) && HandleChar(s[|s| - 1]); }
    TrimNoEdgeSpace(s);
  }

  /** `normalizeHandle` is idempotent. */
  lemma NormalizeHandleIdempotent(value: string)
    ensures NormalizeHandle(NormalizeHandle(value)) == NormalizeHandle(value)
  {
    NormalizeHandleShape(value);
    NormalizeNormal(NormalizeHandle(value));
  }

  const HANDLE_MESSAGE: string :=
    "Handle must be 3-63 chars, lowercase letters/numbers/hyphens, and start with a letter or number."

  /** `^[a-z0-9][a-z0-9-]{2,62}$`. */
  predicate HandlePattern(v: string) {
    3 <= |v| <= 63 && HandleChar(v[0]) && v[0] != '-'
    && forall i :: 1 <= i < |v| ==> HandleChar(v[i])
  }

  /** `validateHandle`: the message exactly when the pattern does not match. */
  function ValidateHandle(value: string): (r: Option<string>)
    ensures r.None? <==> HandlePattern(value)
    ensures r.Some? ==> r.value == HANDLE_MESSAGE
  {
    if HandlePattern(value) then None else Some(HANDLE_MESSAGE)
  }

  /** A normalised handle of the right length always validates. */
  lemma NormalizedHandleValid(value: string)
    requires 3 <= |NormalizeHandle(value)| <= 63
    ensures ValidateHandle(NormalizeHandle(value)) == None
  {
    NormalizeHandleShape(value);
  }

  // ---------------------------------------------------------------------------------------
  // allowed origins

  predicate IsOriginSeparator(c: char) { c == '\n' || c == ',' }

  /** `parseOrigins`: split on newlines and commas, trimmed, empty entries dropped, in
      order; no entry holds a separator. */
  function ParseOrigins(input: string): (r: seq<string>)
    ensures forall k :: 0 <= k < |r| ==> r[k] != [] && Trim(r[k]) == r[k]
    ensures forall k, i :: 0 <= k < |r| && 0 <= i < |r[k]| ==> r[k][i] != ',' && r[k][i] != '\n'
  {
    Fields(input, IsOriginSeparator)
  }

  lemma {:induction false} DropEmptyNone(parts: seq<string>)
    requires forall k :: 0 <= k < |parts| ==> parts[k] != []
    ensures DropEmpty(parts) == parts
  {
    if parts != [] {
      DropEmptyNone(parts[1..]);
      assert [parts[0]] + parts[1..] == parts;
    }
  }

  /** Entries written one per line or comma-separated come back as they were, in order. */
  lemma ParseOriginsJoin(entries: seq<string>, sep: char)
    requires IsOriginSeparator(sep)
    requires forall k :: 0 <= k < |entries| ==> entries[k] != [] && Trim(entries[k]) == entries[k]
    requires forall k, i :: 0 <= k < |entries| && 0 <= i < |entries[k]| ==> !IsOriginSeparator(entries[k][i])
    ensures ParseOrigins(Join(entries, [sep])) == entries
  {
    if entries == [] {
      assert Split(Join(entries, [sep]), IsOriginSeparator) == [[]];
      assert TrimEach([[]]) == [[]];
    } else {
      SplitJoin(entries, sep, IsOriginSeparator);
      assert TrimEach(entries) == entries;
      DropEmptyNone(entries);
    }
  }

  const INVALID_URL_MESSAGE: string := "Invalid URL format."
  const SCHEME_MESSAGE: string := "Only http:// or https:// origins are allowed."
  const EXACT_MESSAGE: string := "Origin must be exact and include only scheme + host (+ optional port)."
  const FORMAT_MESSAGE: string := "Origin must exactly match URL origin format (e.g. https://example.com)."

  /** What `validateOrigin` accepts of a parsed URL: an http or https scheme over any host,
      the root path, no query, no fragment. */
  predicate OwnerAcceptable(u: Url) {
    IsWebScheme(u.protocol) && u.pathname == "/" && u.search == [] && u.hash == []
  }

  /** `validateOrigin`: None for an exact origin, else the message of the first failed
      check. `parse` is `new URL`. */
  function ValidateOrigin(parse: string -> Option<Url>, value: string): (r: Option<string>)
    ensures r.None? <==>
      parse(value).Some? && OwnerAcceptable(parse(value).value) && SerializedOrigin(parse(value).value) == value
    ensures r == Some(INVALID_URL_MESSAGE) <==> parse(value).None?
  {
    match parse(value)
    case None => Some(INVALID_URL_MESSAGE)
    case Some(url) =>
      if url.protocol != "https:" && url.protocol != "http:" then Some(SCHEME_MESSAGE)
      else if url.pathname != "/" || url.search != [] || url.hash != [] then Some(EXACT_MESSAGE)
      else if SerializedOrigin(url) != value then Some(FORMAT_MESSAGE)
      else None
  }

  /** The owner app is looser than the server: every origin the gateway accepts and that is
      already written exactly is accepted here, but plain http on a non-loopback host
      passes here and is refused by the gateway. */
  lemma OwnerLooserThanServer(parse: string -> Option<Url>, value: string)
    ensures GatewayCanonicalizeOrigin(parse, value).Some? && SerializedOrigin(parse(value).value) == value
      ==> ValidateOrigin(parse, value).None?
    ensures ValidateOrigin(parse, value).None? && parse(value).value.protocol == "http:"
      && !IsLoopbackHost(parse(value).value.hostname)
      ==> GatewayCanonicalizeOrigin(parse, value).None?
  {
  }

  /** The valid entries among `origins`: the ones `validateOrigins` puts into `seen`. */
  function AcceptedOrigins(parse: string -> Option<Url>, origins: seq<string>): (s: set<string>)
    ensures forall o :: o in s <==> o in origins && ValidateOrigin(parse, o).None?
  {
    set o | o in origins && ValidateOrigin(parse, o).None?
  }

  /** The error, if any, for the next entry given the ones accepted so far. */
  function EntryError(parse: string -> Option<Url>, origin: string, seen: set<string>): Option<string> {
    match ValidateOrigin(parse, origin)
    case Some(err) => Some(origin + ": " + err)
    case None => if origin in seen then Some(origin + ": duplicate origin") else None
  }

  /** The errors `validateOrigins` reports for `origins`, in order. */
  function OriginErrors(parse: string -> Option<Url>, origins: seq<string>): seq<string> {
    if origins == [] then []
    else
      var init := origins[..|origins| - 1];
      var e := EntryError(parse, origins[|origins| - 1], AcceptedOrigins(parse, init));
      OriginErrors(parse, init) + (if e.Some? then [e.value] else [])
  }

  /** `validateOrigins`. */
  method ValidateOrigins(parse: string -> Option<Url>, origins: seq<string>) returns (errors: seq<string>)
    ensures errors == OriginErrors(parse, origins)
  {
    errors := [];
    var seen: set<string> := {};
    for i := 0 to |origins|
      invariant errors == OriginErrors(parse, origins[..i])
      invariant seen == AcceptedOrigins(parse, origins[..i])
    {
      var origin := origins[i];
      OriginsStep(parse, origins, i);
      var err := ValidateOrigin(parse, origin);
      if err.Some? {
        errors := errors + [origin + ": " + err.value];
      } else if origin in seen {
        errors := errors + [origin + ": duplicate origin"];
      } else {
        seen := seen + {origin};
      }
    }
    assert origins[..|origins|] == origins;
  }

  /** What one more entry adds to the errors and to the accepted set. */
  lemma OriginsStep(parse: string -> Option<Url>, origins: seq<string>, i: nat)
    requires i < |origins|
    ensures var e := EntryError(parse, origins[i], AcceptedOrigins(parse, origins[..i]));
      OriginErrors(parse, origins[..i + 1]) == OriginErrors(parse, origins[..i]) + (if e.Some? then [e.value] else [])
    ensures AcceptedOrigins(parse, origins[..i + 1]) ==
      AcceptedOrigins(parse, origins[..i]) + (if ValidateOrigin(parse, origins[i]).None? then {origins[i]} else {})
  {
    assert origins[..i + 1] == origins[..i] + [origins[i]];
    OriginErrorsSnoc(parse, origins[..i], origins[i]);
    AcceptedSnoc(parse, origins[..i], origins[i]);
  }

  /** Every entry is valid and distinct from the earlier ones exactly when there are no
      errors. */
  predicate AllValidAndDistinct(parse: string -> Option<Url>, origins: seq<string>) {
    && (forall i :: 0 <= i < |origins| ==> ValidateOrigin(parse, origins[i]).None?)
    && (forall i, j :: 0 <= i < j < |origins| ==> origins[i] != origins[j])
  }

  lemma AcceptedSnoc(parse: string -> Option<Url>, init: seq<string>, last: string)
    ensures AcceptedOrigins(parse, init + [last]) ==
      AcceptedOrigins(parse, init) + (if ValidateOrigin(parse, last).None? then {last} else {})
  {
  }

  lemma OriginErrorsSnoc(parse: string -> Option<Url>, init: seq<string>, last: string)
    ensures var e := EntryError(parse, last, AcceptedOrigins(parse, init));
      OriginErrors(parse, init + [last]) == OriginErrors(parse, init) + (if e.Some? then [e.value] else [])
  {
    assert (init + [last])[..|init|] == init;
  }

  /** One error per invalid entry and per repeat of an accepted one: the number of errors
      is the number of entries less the number of distinct valid ones. */
  lemma {:induction false} OriginErrorsCount(parse: string -> Option<Url>, origins: seq<string>)
    ensures |OriginErrors(parse, origins)| == |origins| - |AcceptedOrigins(parse, origins)|
  {
    if origins != [] {
      var init := origins[..|origins| - 1];
      var last := origins[|origins| - 1];
      assert origins == init + [last];
      OriginErrorsCount(parse, init);
      OriginErrorsSnoc(parse, init, last);
      AcceptedSnoc(parse, init, last);
      var before := AcceptedOrigins(parse, init);
      if ValidateOrigin(parse, last).None? {
        if last in before {
          assert before + {last} == before;
        } else {
          assert |before + {last}| == |before| + 1;
        }
      }
    }
  }

  lemma AllValidSnoc(parse: string -> Option<Url>, init: seq<string>, last: string)
    ensures AllValidAndDistinct(parse, init + [last]) <==>
      AllValidAndDistinct(parse, init) && ValidateOrigin(parse, last).None? && last !in init
  {
    var s := init + [last];
    assert s[|init|] == last;
    if AllValidAndDistinct(parse, s) {
      forall i, j | 0 <= i < j < |init| ensures init[i] != init[j] {
        assert init[i] == s[i] && init[j] == s[j];
      }
      forall i | 0 <= i < |init| ensures ValidateOrigin(parse, init[i]).None? && init[i] != last {
        assert init[i] == s[i];
      }
    }
    if AllValidAndDistinct(parse, init) && ValidateOrigin(parse, last).None? && last !in init {
      forall i | 0 <= i < |s| ensures ValidateOrigin(parse, s[i]).None? {
        if i < |init| { assert s[i] == init[i]; } else { assert s[i] == last; }
      }
      forall i, j | 0 <= i < j < |s| ensures s[i] != s[j] {
        assert s[i] == init[i] && init[i] in init;
        if j < |init| { assert s[j] == init[j]; } else { assert s[j] == last; }
      }
    }
  }

  /** There are no errors exactly when every entry is valid and no entry repeats. */
  lemma {:induction false} NoErrorsIffValidAndDistinct(parse: string -> Option<Url>, origins: seq<string>)
    ensures OriginErrors(parse, origins) == [] <==> AllValidAndDistinct(parse, origins)
  {
    if origins != [] {
      var init := origins[..|origins| - 1];
      var last := origins[|origins| - 1];
      assert origins == init + [last];
      NoErrorsIffValidAndDistinct(parse, init);
      OriginErrorsSnoc(parse, init, last);
      AllValidSnoc(parse, init, last);
      if AllValidAndDistinct(parse, init) {
        assert last in AcceptedOrigins(parse, init) <==> last in init;
      }
    }
  }
}
