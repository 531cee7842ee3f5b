/** The ingestion runner's text handling (ingest_runner function): `sanitizeText`, the
    baseline PDF text scanner that keeps long runs of printable bytes, and the low-text test
    that decides whether a PDF is worth a fallback extraction. */
module IngestText {

  import opened Wrappers
  import opened Text
  import opened Normalize

  // ---------------------------------------------------------------------------------------
  // sanitizeText

  /** What `sanitizeText` guarantees of its output. */
  predicate Sanitized(s: string) {
    && Lacks(s, '\0') && Lacks(s, '\r')
    && NoBlankBeforeNewline(s) && NoTripleNewline(s)
    && Trimmed(s)
  }

  /** `sanitizeText`: NUL to space, CRLF and lone CR to LF, blanks before a line break
      dropped, runs of three or more line breaks to two, then `trim`. */
  function SanitizeText(value: string): (r: string)
    ensures Sanitized(r)
  {
    var u := UnifyLineEnds(value);
    var b := StripBlanksBeforeNewline(u);
    var c := CollapseNewlines(b);
    StripBlanksClean(u);
    CollapseKeepsNoBlank(b);
    CollapseClean(b);
    StripBlanksChars(u);
    CollapseChars(b);
    CharsFromLacks(b, u, '\0');
    CharsFromLacks(b, u, '\r');
    CharsFromLacks(c, b, '\0');
    CharsFromLacks(c, b, '\r');
    TrimKeeps(c);
    Trim(c)
  }

  /** Text that already has every property is left unchanged. */
  lemma SanitizeFixesClean(s: string)
    requires Sanitized(s)
    ensures SanitizeText(s) == s
  {
    assert UnifyLineEnds(s) == s;
    StripBlanksIdentity(s);
    CollapseIdentity(s);
    TrimNoEdgeSpace(s);
  }

  /** Sanitising twice is sanitising once. */
  lemma SanitizeIdempotent(value: string)
    ensures SanitizeText(SanitizeText(value)) == SanitizeText(value)
  {
    SanitizeFixesClean(SanitizeText(value));
  }

  // ---------------------------------------------------------------------------------------
  // the printable-run scanner

  /** The bytes the scanner keeps: printable ASCII, TAB, LF and CR. */
  predicate IsPrintable(b: byte) {
    (32 <= b <= 126) || b == 9 || b == 10 || b == 13
  }

  predicate NotPrintable(b: byte) {
    !IsPrintable(b)
  }

  /** The shortest run, after whitespace collapsing and trimming, that is kept. */
  const MIN_RUN_CHARS: nat := 24

  /** `replace(/\s+/g, " ")`: every run of whitespace becomes one space. What is left is
      single spaces and the input's other characters. */
  function CollapseSpace(s: string): (r: string)
    ensures |r| <= |s|
    ensures forall i :: 0 <= i < |r| ==> r[i] == ' ' || (!IsSpace(r[i]) && r[i] in s)
    ensures s != [] && !IsSpace(s[0]) ==> r != [] && r[0] == s[0]
    ensures NoSpace(s) ==> r == s
  {
    if s == [] then []
    else if IsSpace(s[0]) then " " + CollapseSpace(s[LeadingSpace(s)..])
    else [s[0]] + CollapseSpace(s[1..])
  }

  predicate SingleSpaced(r: string) {
    forall i :: 0 <= i < |r| - 1 ==> !(r[i] == ' ' && r[i + 1] == ' ')
  }

  /** No two spaces are left next to each other. */
  lemma {:induction false} CollapseSpaceSingle(s: string)
    ensures SingleSpaced(CollapseSpace(s))
  {
    if s == [] {
    } else {
      var k := if IsSpace(s[0]) then LeadingSpace(s) else 1;
      CollapseSpaceSingle(s[k..]);
      var t := CollapseSpace(s[k..]);
      var r := CollapseSpace(s);
      assert r == (if IsSpace(s[0]) then " " else [s[0]]) + t;
      forall i | 0 <= i < |r| - 1 ensures !(r[i] == ' ' && r[i + 1] == ' ') {
        if i > 0 {
          assert r[i] == t[i - 1] && r[i + 1] == t[i];
        } else if IsSpace(s[0]) {
          assert k < |s| && s[k..][0] == s[k];
          assert r[1] == t[0] == s[k];
        } else {
          assert r[0] == s[0];
        }
      }
    }
  }

  /** The closure `flush` computes: the run with its whitespace collapsed and trimmed. */
  function FlushRun(run: seq<byte>): (t: string)
    ensures |t| <= |run|
  {
    Trim(CollapseSpace(Latin1String(run)))
  }

  /** The runs `flush` keeps, in order: those whose flushed text has at least 24
      characters. */
  function KeptRuns(runs: seq<seq<byte>>): (r: seq<string>)
    ensures |r| <= |runs|
    ensures forall k :: 0 <= k < |r| ==> |r[k]| >= MIN_RUN_CHARS
    decreases |runs|
  {
    if runs == [] then []
    else
      var t := FlushRun(runs[|runs| - 1]);
      KeptRuns(runs[..|runs| - 1]) + (if |t| >= MIN_RUN_CHARS then [t] else [])
  }

  /** The baseline text of a PDF: the maximal runs of printable bytes (the pieces between
      non-printable bytes), flushed and filtered, one per line, sanitised. */
  function PdfText(bytes: seq<byte>): string {
    SanitizeText(Join(KeptRuns(Split(bytes, NotPrintable)), "\n"))
  }

  /** The runs after one more byte: a non-printable byte closes the current run and opens
      an empty one, a printable byte extends the current run. */
  lemma ScanStep(prefix: seq<byte>, b: byte, done: seq<seq<byte>>, run: seq<byte>)
    requires Split(prefix, NotPrintable) == done + [run]
    ensures Split(prefix + [b], NotPrintable) ==
      if NotPrintable(b) then (done + [run]) + [[]] else done + [run + [b]]
  {
    SplitSnoc(prefix, b, NotPrintable);
    var p := done + [run];
    assert p[..|p| - 1] == done;
  }

  /** Flushing one more run appends it when it is long enough. */
  lemma KeptRunsSnoc(done: seq<seq<byte>>, run: seq<byte>)
    ensures KeptRuns(done + [run]) ==
      KeptRuns(done) + (if |FlushRun(run)| >= MIN_RUN_CHARS then [FlushRun(run)] else [])
  {
    assert (done + [run])[..|done|] == done;
  }

  lemma Latin1Snoc(run: seq<byte>, b: byte)
    ensures Latin1String(run + [b]) == Latin1String(run) + [b as char]
  {
  }

  /** `extractPrintableTextFromPdf`: one pass over the bytes that grows the current run
      and flushes it at every non-printable byte and at the end. */
  method ExtractPrintableTextFromPdf(bytes: seq<byte>) returns (text: string)
    ensures text == PdfText(bytes)
  {
    var runs: seq<string> := [];
    var current: string := "";
    ghost var done: seq<seq<byte>> := [];
    ghost var run: seq<byte> := [];
    var i := 0;
    while i < |bytes|
      invariant 0 <= i <= |bytes|
      invariant Split(bytes[..i], NotPrintable) == done + [run]
      invariant current == Latin1String(run)
      invariant runs == KeptRuns(done)
    {
      var b := bytes[i];
      ScanStep(bytes[..i], b, done, run);
      assert bytes[..i + 1] == bytes[..i] + [b];
      if IsPrintable(b) {
        assert Split(bytes[..i + 1], NotPrintable) == done + [run + [b]];
        Latin1Snoc(run, b);
        current := current + [b as char];
        run := run + [b];
      } else {
        var normalized := Trim(CollapseSpace(current));
        KeptRunsSnoc(done, run);
        if |normalized| >= MIN_RUN_CHARS {
          runs := runs + [normalized];
        }
        current := "";
        assert Split(bytes[..i + 1], NotPrintable) == (done + [run]) + [[]];
        done := done + [run];
        run := [];
      }
      i := i + 1;
    }
    var normalized := Trim(CollapseSpace(current));
    KeptRunsSnoc(done, run);
    if |normalized| >= MIN_RUN_CHARS {
      runs := runs + [normalized];
    }
    assert bytes[..|bytes|] == bytes;
    assert runs == KeptRuns(Split(bytes, NotPrintable));
    text := SanitizeText(Join(runs, "\n"));
  }

  /** A line the scanner can emit: non-empty, no whitespace at either end, and only
      printable ASCII characters (TAB, LF and CR having become spaces). */
  predicate PlainLine(t: string) {
    && t != [] && !IsSpace(t[0]) && !IsSpace(t[|t| - 1])
    && forall i :: 0 <= i < |t| ==> 32 <= t[i] as int <= 126
  }

  /** A flushed run of printable bytes, when not empty, is a plain line. */
  lemma FlushRunPlain(run: seq<byte>)
    requires forall i :: 0 <= i < |run| ==> IsPrintable(run[i])
    requires FlushRun(run) != []
    ensures PlainLine(FlushRun(run))
  {
    var t := FlushRun(run);
    var s := Latin1String(run);
    var c := CollapseSpace(s);
    var a := LeadingSpace(c);
    forall i | 0 <= i < |t| ensures 32 <= t[i] as int <= 126 {
      assert t[i] == c[a + i];
      if c[a + i] != ' ' {
        var j :| 0 <= j < |s| && s[j] == c[a + i];
        assert IsPrintable(run[j]);
      }
    }
  }

  /** Every kept run is a plain line. */
  lemma {:induction false} KeptRunsPlain(runs: seq<seq<byte>>)
    requires forall k, i :: 0 <= k < |runs| && 0 <= i < |runs[k]| ==> IsPrintable(runs[k][i])
    ensures forall k :: 0 <= k < |KeptRuns(runs)| ==> PlainLine(KeptRuns(runs)[k])
    decreases |runs|
  {
    if runs != [] {
      var done := runs[..|runs| - 1];
      var last := runs[|runs| - 1];
      assert runs == done + [last];
      KeptRunsPlain(done);
      KeptRunsSnoc(done, last);
      if |FlushRun(last)| >= MIN_RUN_CHARS {
        FlushRunPlain(last);
      }
    }
  }

  /** Plain lines joined with single line breaks are already sanitised, so the final
      `sanitizeText` of the scanner changes nothing. */
  lemma {:induction false} PlainLinesSanitized(lines: seq<string>)
    requires forall k :: 0 <= k < |lines| ==> PlainLine(lines[k])
    ensures Sanitized(Join(lines, "\n"))
    ensures lines != [] ==> Join(lines, "\n") != [] && Join(lines, "\n")[0] == lines[0][0]
  {
    if |lines| == 1 {
      PlainLineSanitized(lines[0]);
    } else if |lines| > 1 {
      var head := lines[0];
      var rest := Join(lines[1..], "\n");
      PlainLinesSanitized(lines[1..]);
      PlainLineSanitized(head);
      assert Join(lines, "\n") == (head + "\n") + rest;
      JoinNoTriple(head, "\n");
      JoinNoBlank(head, "\n");
      JoinNoTriple(head + "\n", rest);
      JoinNoBlank(head + "\n", rest);
      JoinLacks(head + "\n", rest);
      assert rest[|rest| - 1] == Join(lines, "\n")[|Join(lines, "\n")| - 1];
    }
  }

  lemma PlainLineSanitized(t: string)
    requires PlainLine(t)
    ensures Sanitized(t)
  {
  }

  lemma JoinLacks(a: string, b: string)
    requires Lacks(a, '\0') && Lacks(a, '\r') && Lacks(b, '\0') && Lacks(b, '\r')
    ensures Lacks(a + b, '\0') && Lacks(a + b, '\r')
  {
    var t := a + b;
    forall i | 0 <= i < |t| ensures t[i] != '\0' && t[i] != '\r' {
      if i < |a| {
        assert t[i] == a[i];
      } else {
        assert t[i] == b[i - |a|];
      }
    }
  }

  /** The scanner's output is exactly its kept runs, one per line. */
  lemma PdfTextIsKeptRuns(bytes: seq<byte>)
    ensures PdfText(bytes) == Join(KeptRuns(Split(bytes, NotPrintable)), "\n")
  {
    var runs := Split(bytes, NotPrintable);
    KeptRunsPlain(runs);
    PlainLinesSanitized(KeptRuns(runs));
    SanitizeFixesClean(Join(KeptRuns(runs), "\n"));
  }

  /** No piece of a split is longer than what was split. */
  lemma {:induction false} SplitPiecesShorter<T>(s: seq<T>, isSep: T -> bool)
    ensures forall k :: 0 <= k < |Split(s, isSep)| ==> |Split(s, isSep)[k]| <= |s|
  {
    if s != [] {
      SplitPiecesShorter(s[1..], isSep);
    }
  }

  /** Runs too short to reach 24 characters are all dropped. */
  lemma {:induction false} ShortRunsDropped(runs: seq<seq<byte>>)
    requires forall k :: 0 <= k < |runs| ==> |runs[k]| < MIN_RUN_CHARS
    ensures KeptRuns(runs) == []
    decreases |runs|
  {
    if runs != [] {
      ShortRunsDropped(runs[..|runs| - 1]);
    }
  }

  /** A file of fewer than 24 bytes has no baseline text. */
  lemma ShortPdfHasNoText(bytes: seq<byte>)
    requires |bytes| < MIN_RUN_CHARS
    ensures PdfText(bytes) == ""
  {
    SplitPiecesShorter(bytes, NotPrintable);
    ShortRunsDropped(Split(bytes, NotPrintable));
  }

  /** A file that is one run of at least 24 visible ASCII characters (no whitespace) is
      its own baseline text. */
  lemma OneWordPdf(bytes: seq<byte>)
    requires |bytes| >= MIN_RUN_CHARS
    requires forall i :: 0 <= i < |bytes| ==> 33 <= bytes[i] <= 126
    ensures PdfText(bytes) == Latin1String(bytes)
  {
    SplitNoSep(bytes, NotPrintable);
    var s := Latin1String(bytes);
    OneWordLine(bytes);
    assert KeptRuns([bytes]) == [s] by {
      KeptRunsSnoc([], bytes);
    }
    PlainLineSanitized(s);
    SanitizeFixesClean(s);
  }

  lemma OneWordLine(bytes: seq<byte>)
    requires |bytes| >= 1
    requires forall i :: 0 <= i < |bytes| ==> 33 <= bytes[i] <= 126
    ensures FlushRun(bytes) == Latin1String(bytes)
    ensures PlainLine(Latin1String(bytes))
  {
    var s := Latin1String(bytes);
    assert NoSpace(s) by {
      forall i | 0 <= i < |s| ensures !IsSpace(s[i]) {
        VisibleNotSpace(s[i]);
      }
    }
    assert CollapseSpace(s) == s;
    assert FlushRun(bytes) == Trim(s);
    TrimNoEdgeSpace(s);
  }

  /** A visible ASCII character is not whitespace. */
  lemma VisibleNotSpace(c: char)
    requires 33 <= c as int <= 126
    ensures !IsSpace(c)
  {
  }

  // ---------------------------------------------------------------------------------------
  // isLowTextPdf

  /** `replace(/\s+/g, "")`: the text without its whitespace. */
  function StripSpace(s: string): (r: string)
    ensures |r| <= |s| && NoSpace(r)
    ensures NoSpace(s) ==> r == s
  {
    if s == [] then []
    else (if IsSpace(s[0]) then [] else [s[0]]) + StripSpace(s[1..])
  }

  lemma {:induction false} StripSpaceAppend(a: string, b: string)
    ensures StripSpace(a + b) == StripSpace(a) + StripSpace(b)
  {
    if a == [] {
      assert a + b == b;
    } else {
      var h := if IsSpace(a[0]) then "" else [a[0]];
      assert StripSpace(a + b) == h + StripSpace(a[1..] + b) by {
        assert (a + b)[0] == a[0];
        assert (a + b)[1..] == a[1..] + b;
      }
      StripSpaceAppend(a[1..], b);
      assert h + (StripSpace(a[1..]) + StripSpace(b)) == (h + StripSpace(a[1..])) + StripSpace(b);
    }
  }

  /** `isLowTextPdf`: fewer than `minChars` non-whitespace characters (the `trim` after
      removing all whitespace has nothing left to remove). */
  function IsLowTextPdf(text: string, minChars: int): (low: bool)
    ensures low <==> |StripSpace(text)| < minChars
  {
    var compact := StripSpace(text);
    TrimNoEdgeSpace(compact);
    |Trim(compact)| < minChars
  }

  /** Whitespace never counts: inserting a whitespace character anywhere does not change
      the verdict. */
  lemma LowTextIgnoresSpace(a: string, c: char, b: string, minChars: int)
    requires IsSpace(c)
    ensures IsLowTextPdf(a + [c] + b, minChars) == IsLowTextPdf(a + b, minChars)
  {
    StripSpaceAppend(a + [c], b);
    StripSpaceAppend(a, [c]);
    StripSpaceAppend(a, b);
    assert StripSpace([c]) == [];
  }
}
