/** The regular-expression rewrites the gateway (`normalizeInputText`) and the ingestion
    runner (`sanitizeText`) chain together to clean text: line-ending normalisation, blanks
    before line breaks, and runs of blank lines. Each rewrite is a left-to-right scan, as a
    global `replace` is, and states what its output no longer contains, what it keeps, and
    that it leaves already clean text alone. */
module Normalize {

  import opened Text

  /** The characters of `[ \t]`. */
  predicate IsBlank(c: char) {
    c == ' ' || c == '\t'
  }

  predicate Lacks(s: string, c: char) {
    forall i :: 0 <= i < |s| ==> s[i] != c
  }

  /** No match of `\n{3,}`. */
  predicate NoTripleNewline(s: string) {
    forall i :: 0 <= i < |s| - 2 ==> !(s[i] == '\n' && s[i + 1] == '\n' && s[i + 2] == '\n')
  }

  /** No match of `[ \t]+\n`. */
  predicate NoBlankBeforeNewline(s: string) {
    forall i :: 0 <= i < |s| - 1 ==> !(IsBlank(s[i]) && s[i + 1] == '\n')
  }

  /** Every character of `r` occurs in `s`: a rewrite that satisfies this adds no character
      the input did not already hold. */
  predicate CharsFrom(r: string, s: string) {
    forall i :: 0 <= i < |r| ==> r[i] in s
  }

  /** Length of the leading run of `\n`. */
  function NewlineRun(s: string): (n: nat)
    ensures n <= |s|
    ensures forall i :: 0 <= i < n ==> s[i] == '\n'
    ensures n < |s| ==> s[n] != '\n'
  {
    if s != [] && s[0] == '\n' then 1 + NewlineRun(s[1..]) else 0
  }

  /** Length of the leading run of blanks. */
  function BlankRun(s: string): (n: nat)
    ensures n <= |s|
    ensures forall i :: 0 <= i < n ==> IsBlank(s[i])
    ensures n < |s| ==> !IsBlank(s[n])
  {
    if s != [] && IsBlank(s[0]) then 1 + BlankRun(s[1..]) else 0
  }

  /** `replace(/\r\n/g, "\n")`. */
  function ReplaceCrLf(s: string): (r: string)
    ensures |r| <= |s|
    ensures Lacks(s, '\r') ==> r == s
  {
    if s == [] then []
    else if |s| >= 2 && s[0] == '\r' && s[1] == '\n' then "\n" + ReplaceCrLf(s[2..])
    else [s[0]] + ReplaceCrLf(s[1..])
  }

  /** A concatenation has no `\n{3,}` match when neither part has one and the one
      crossing the join is ruled out by a non-newline at the join. */
  lemma JoinNoTriple(a: string, b: string)
    requires NoTripleNewline(a) && NoTripleNewline(b)
    requires (b == [] || b[0] != '\n') || (a == [] || a[|a| - 1] != '\n')
    ensures NoTripleNewline(a + b)
  {
    var t := a + b;
    forall i | 0 <= i < |t| - 2 ensures !(t[i] == '\n' && t[i + 1] == '\n' && t[i + 2] == '\n') {
      if i >= |a| {
        assert t[i] == b[i - |a|] && t[i + 1] == b[i - |a| + 1] && t[i + 2] == b[i - |a| + 2];
      } else if i + 2 < |a| {
        assert t[i] == a[i] && t[i + 1] == a[i + 1] && t[i + 2] == a[i + 2];
      }
    }
  }

  /** The same for `[ \t]+\n`. */
  lemma JoinNoBlank(a: string, b: string)
    requires NoBlankBeforeNewline(a) && NoBlankBeforeNewline(b)
    requires a == [] || b == [] || !(IsBlank(a[|a| - 1]) && b[0] == '\n')
    ensures NoBlankBeforeNewline(a + b)
  {
    var t := a + b;
    forall i | 0 <= i < |t| - 1 ensures !(IsBlank(t[i]) && t[i + 1] == '\n') {
      if i >= |a| {
        assert t[i] == b[i - |a|] && t[i + 1] == b[i - |a| + 1];
      } else if i + 1 < |a| {
        assert t[i] == a[i] && t[i + 1] == a[i + 1];
      }
    }
  }

  /** Where the `[ \t]+\n` scan resumes after the start of `s`: past a blank run and the
      line break that ends it, past a blank run not followed by one (no position inside
      such a run can start a match), or past one other character. */
  function StripNext(s: string): (n: nat)
    requires s != []
    ensures 1 <= n <= |s|
  {
    if IsBlank(s[0]) then
      var k := BlankRun(s);
      if k < |s| && s[k] == '\n' then k + 1 else k
    else 1
  }

  /** What the scan emits for `s[..StripNext(s)]`: the line break alone for a match, the
      text itself otherwise. */
  function StripPiece(s: string): (p: string)
    requires s != []
  {
    if IsBlank(s[0]) then
      var k := BlankRun(s);
      if k < |s| && s[k] == '\n' then "\n" else s[..k]
    else [s[0]]
  }

  /** `replace(/[ \t]+\n/g, "\n")`. */
  function StripBlanksBeforeNewline(s: string): (r: string)
    ensures s != [] && !IsBlank(s[0]) ==> r != [] && r[0] == s[0]
    decreases |s|
  {
    if s == [] then [] else StripPiece(s) + StripBlanksBeforeNewline(s[StripNext(s)..])
  }

  /** A piece has no match, adds no character, and ends in a blank only when the text
      after it is empty or starts with a character that is neither blank nor a line
      break. */
  lemma StripPieceFacts(s: string)
    requires s != []
    ensures NoBlankBeforeNewline(StripPiece(s))
    ensures CharsFrom(StripPiece(s), s[..StripNext(s)])
    ensures StripPiece(s) != [] && IsBlank(StripPiece(s)[|StripPiece(s)| - 1]) ==>
      StripNext(s) == |s| || (!IsBlank(s[StripNext(s)]) && s[StripNext(s)] != '\n')
  {
    if IsBlank(s[0]) {
      var k := BlankRun(s);
      if !(k < |s| && s[k] == '\n') {
        assert NoBlankBeforeNewline(s[..k]);
      }
    }
  }

  /** On text without a match, a piece is the text it was made from. */
  lemma StripPieceClean(s: string)
    requires s != [] && NoBlankBeforeNewline(s)
    ensures StripPiece(s) == s[..StripNext(s)]
    ensures NoBlankBeforeNewline(s[StripNext(s)..])
  {
    if IsBlank(s[0]) {
      var k := BlankRun(s);
      if k < |s| {
        assert IsBlank(s[k - 1]);
      }
    }
    InfixNoBlank(s, StripNext(s), |s|);
  }

  /** No blank is left directly before a line break. */
  lemma {:induction false} StripBlanksClean(s: string)
    ensures NoBlankBeforeNewline(StripBlanksBeforeNewline(s))
    decreases |s|
  {
    if s != [] {
      var n := StripNext(s);
      StripPieceFacts(s);
      StripBlanksClean(s[n..]);
      JoinNoBlank(StripPiece(s), StripBlanksBeforeNewline(s[n..]));
    }
  }

  /** Text without a match is left unchanged. */
  lemma {:induction false} StripBlanksIdentity(s: string)
    requires NoBlankBeforeNewline(s)
    ensures StripBlanksBeforeNewline(s) == s
    decreases |s|
  {
    if s != [] {
      var n := StripNext(s);
      StripPieceClean(s);
      StripBlanksIdentity(s[n..]);
      assert s == s[..n] + s[n..];
    }
  }

  /** `replace(/\n{3,}/g, "\n\n")`. */
  function CollapseNewlines(s: string): (r: string)
    ensures s != [] ==> r != [] && r[0] == s[0]
  {
    if s == [] then []
    else if s[0] == '\n' then
      var k := NewlineRun(s);
      (if k >= 3 then "\n\n" else s[..k]) + CollapseNewlines(s[k..])
    else [s[0]] + CollapseNewlines(s[1..])
  }

  /** No run of three line breaks is left. */
  lemma {:induction false} CollapseClean(s: string)
    ensures NoTripleNewline(CollapseNewlines(s))
  {
    if s == [] {
    } else if s[0] == '\n' {
      var k := NewlineRun(s);
      CollapseClean(s[k..]);
      JoinNoTriple(if k >= 3 then "\n\n" else s[..k], CollapseNewlines(s[k..]));
    } else {
      CollapseClean(s[1..]);
      JoinNoTriple([s[0]], CollapseNewlines(s[1..]));
    }
  }

  /** Collapsing creates no blank before a line break: each run is replaced by line
      breaks, and what follows a run is not a line break. */
  lemma {:induction false} CollapseKeepsNoBlank(s: string)
    requires NoBlankBeforeNewline(s)
    ensures NoBlankBeforeNewline(CollapseNewlines(s))
  {
    if s == [] {
    } else if s[0] == '\n' {
      var k := NewlineRun(s);
      InfixKeeps(s, k, |s|);
      CollapseKeepsNoBlank(s[k..]);
      JoinNoBlank(if k >= 3 then "\n\n" else s[..k], CollapseNewlines(s[k..]));
    } else {
      InfixKeeps(s, 1, |s|);
      CollapseKeepsNoBlank(s[1..]);
      if |s| > 1 {
        assert !(IsBlank(s[0]) && s[0 + 1] == '\n');
      }
      JoinNoBlank([s[0]], CollapseNewlines(s[1..]));
    }
  }

  lemma RunOfThree(s: string)
    ensures NewlineRun(s) >= 3 ==> |s| >= 3 && s[0] == '\n' && s[1] == '\n' && s[2] == '\n'
  {
  }

  /** Text without a run of three line breaks is left unchanged. */
  lemma {:induction false} CollapseIdentity(s: string)
    requires NoTripleNewline(s)
    ensures CollapseNewlines(s) == s
  {
    if s == [] {
    } else if s[0] == '\n' {
      var k := NewlineRun(s);
      assert k < 3 by {
        RunOfThree(s);
      }
      assert NoTripleNewline(s[k..]) by {
        InfixNoTriple(s, k, |s|);
      }
      CollapseIdentity(s[k..]);
      assert s == s[..k] + s[k..];
    } else {
      assert NoTripleNewline(s[1..]) by {
        InfixNoTriple(s, 1, |s|);
      }
      CollapseIdentity(s[1..]);
      assert s == [s[0]] + s[1..];
    }
  }

  /** The four properties are about neighbouring characters only, so every infix keeps
      them; in particular the result of `trim` and of `slice(0, n)` does. */
  lemma InfixKeeps(s: string, a: nat, b: nat)
    requires a <= b <= |s|
    ensures Lacks(s, '\0') ==> Lacks(s[a..b], '\0')
    ensures Lacks(s, '\r') ==> Lacks(s[a..b], '\r')
    ensures NoTripleNewline(s) ==> NoTripleNewline(s[a..b])
    ensures NoBlankBeforeNewline(s) ==> NoBlankBeforeNewline(s[a..b])
  {
    if NoTripleNewline(s) {
      InfixNoTriple(s, a, b);
    }
    if NoBlankBeforeNewline(s) {
      InfixNoBlank(s, a, b);
    }
    var t := s[a..b];
    assert forall i :: 0 <= i < |t| ==> t[i] == s[a + i];
  }

  lemma InfixNoTriple(s: string, a: nat, b: nat)
    requires a <= b <= |s|
    requires NoTripleNewline(s)
    ensures NoTripleNewline(s[a..b])
  {
    var t := s[a..b];
    forall i | 0 <= i < |t| - 2 ensures !(t[i] == '\n' && t[i + 1] == '\n' && t[i + 2] == '\n') {
      assert t[i] == s[a + i] && t[i + 1] == s[a + i + 1] && t[i + 2] == s[a + i + 2];
    }
  }

  lemma InfixNoBlank(s: string, a: nat, b: nat)
    requires a <= b <= |s|
    requires NoBlankBeforeNewline(s)
    ensures NoBlankBeforeNewline(s[a..b])
  {
    var t := s[a..b];
    forall i | 0 <= i < |t| - 1 ensures !(IsBlank(t[i]) && t[i + 1] == '\n') {
      assert t[i] == s[a + i] && t[i + 1] == s[a + i + 1];
    }
  }

  /** What `trim` leaves has no whitespace at either end. */
  predicate Trimmed(s: string) {
    s != [] ==> !IsSpace(s[0]) && !IsSpace(s[|s| - 1])
  }

  /** The steps both services share, in their order: NUL to space, CRLF to LF, lone CR to
      LF. */
  function UnifyLineEnds(s: string): (r: string)
    ensures Lacks(r, '\0') && Lacks(r, '\r')
    ensures Lacks(s, '\0') && Lacks(s, '\r') ==> r == s
  {
    var t := ReplaceCrLf(ReplaceChar(s, '\0', ' '));
    ReplaceCrLfChars(ReplaceChar(s, '\0', ' '));
    CharsFromLacks(t, ReplaceChar(s, '\0', ' '), '\0');
    ReplaceChar(t, '\r', '\n')
  }

  /** Pieces drawn from consecutive parts of `s` make a whole drawn from `s`. */
  lemma CharsFromAppend(p: string, q: string, s: string, k: nat)
    requires k <= |s| && CharsFrom(p, s[..k]) && CharsFrom(q, s[k..])
    ensures CharsFrom(p + q, s)
  {
    forall i | 0 <= i < |p + q| ensures (p + q)[i] in s {
      if i < |p| {
        var j :| 0 <= j < k && s[..k][j] == p[i];
        assert s[j] == (p + q)[i];
      } else {
        var j :| 0 <= j < |s| - k && s[k..][j] == q[i - |p|];
        assert s[k + j] == (p + q)[i];
      }
    }
  }

  /** `\r\n` to `\n` adds no character. */
  lemma {:induction false} ReplaceCrLfChars(s: string)
    ensures CharsFrom(ReplaceCrLf(s), s)
  {
    if s != [] {
      if |s| >= 2 && s[0] == '\r' && s[1] == '\n' {
        ReplaceCrLfChars(s[2..]);
        assert s[..2][1] == '\n';
        CharsFromAppend("\n", ReplaceCrLf(s[2..]), s, 2);
      } else {
        ReplaceCrLfChars(s[1..]);
        assert s[..1][0] == s[0];
        CharsFromAppend([s[0]], ReplaceCrLf(s[1..]), s, 1);
      }
    }
  }

  /** Dropping blanks before a line break adds no character. */
  lemma {:induction false} StripBlanksChars(s: string)
    ensures CharsFrom(StripBlanksBeforeNewline(s), s)
    decreases |s|
  {
    if s != [] {
      var n := StripNext(s);
      StripPieceFacts(s);
      StripBlanksChars(s[n..]);
      CharsFromAppend(StripPiece(s), StripBlanksBeforeNewline(s[n..]), s, n);
    }
  }

  /** Collapsing runs of line breaks adds no character. */
  lemma {:induction false} CollapseChars(s: string)
    ensures CharsFrom(CollapseNewlines(s), s)
  {
    if s != [] {
      if s[0] == '\n' {
        var k := NewlineRun(s);
        CollapseChars(s[k..]);
        assert s[..k][0] == '\n';
        CharsFromAppend(if k >= 3 then "\n\n" else s[..k], CollapseNewlines(s[k..]), s, k);
      } else {
        CollapseChars(s[1..]);
        assert s[..1][0] == s[0];
        CharsFromAppend([s[0]], CollapseNewlines(s[1..]), s, 1);
      }
    }
  }

  /** A rewrite that adds no character keeps a character out. */
  lemma CharsFromLacks(r: string, s: string, c: char)
    requires CharsFrom(r, s) && Lacks(s, c)
    ensures Lacks(r, c)
  {
  }

  /** The result of `trim` is an infix, so it keeps what holds of neighbouring
      characters. */
  lemma TrimKeeps(s: string)
    ensures Lacks(s, '\0') ==> Lacks(Trim(s), '\0')
    ensures Lacks(s, '\r') ==> Lacks(Trim(s), '\r')
    ensures NoTripleNewline(s) ==> NoTripleNewline(Trim(s))
    ensures NoBlankBeforeNewline(s) ==> NoBlankBeforeNewline(Trim(s))
  {
    var t := Trim(s);
    var a := LeadingSpace(s);
    InfixKeeps(s, a, a + |t|);
  }
}
