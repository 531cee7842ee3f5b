/** The ingestion runner's job decisions (ingest_runner function): whether a failed job is
    requeued and after how long, how many chunks a source may still add to its project,
    which extraction a file gets (including the OCR fallback and the per-batch counter that
    bounds it), and the bounded loop that runs the jobs of one invocation. */
module IngestJobs {

  import opened Wrappers
  import opened Text
  import opened IngestText
  import opened Chunking
  import opened EmbedToken
  import Chat

  // ---------------------------------------------------------------------------------------
  // retrying a failed job

  datatype RetryState = Queued | Failed

  /** The retry decision of `markJobRetryOrFailed`: requeue while attempts remain. */
  function RetryDecision(attempts: int, maxAttempts: int): (s: RetryState)
    ensures s == Queued <==> attempts < maxAttempts
  {
    if attempts < maxAttempts then Queued else Failed
  }

  function Pow2(n: nat): (p: nat)
    ensures p >= 1
  {
    if n == 0 then 1 else 2 * Pow2(n - 1)
  }

  /** `Math.min(5000, 250 * 2 ** Math.max(0, attempts - 1))`, the wait before a job is
      requeued: 250 ms after the first attempt, doubling with each further attempt, and
      never more than five seconds. */
  function RetryDelayMs(attempts: int): (ms: nat)
    ensures 250 <= ms <= 5000
  {
    var exponent := if attempts - 1 > 0 then attempts - 1 else 0;
    var raw := 250 * Pow2(exponent);
    if raw < 5000 then raw else 5000
  }

  /** Each further attempt doubles the wait until it reaches the ceiling. */
  lemma RetryDelayDoubles(attempts: int)
    requires attempts >= 1
    ensures RetryDelayMs(attempts + 1) == Chunking.Min(5000, 2 * RetryDelayMs(attempts))
  {
  }

  lemma {:induction false} Pow2Monotone(a: nat, b: nat)
    requires a <= b
    ensures Pow2(a) <= Pow2(b)
    decreases b
  {
    if a < b {
      Pow2Monotone(a, b - 1);
    }
  }

  /** A later attempt never waits less. */
  lemma RetryDelayMonotone(a: int, b: int)
    requires a <= b
    ensures RetryDelayMs(a) <= RetryDelayMs(b)
  {
    var ea := if a - 1 > 0 then a - 1 else 0;
    var eb := if b - 1 > 0 then b - 1 else 0;
    Pow2Monotone(ea, eb);
  }

  /** With the default of five attempts: the second failure is requeued after 500 ms, the
      fifth is final; from the sixth attempt on the wait is at its ceiling. */
  lemma RetryExamples()
    ensures RetryDecision(2, 5) == Queued && RetryDelayMs(2) == 500
    ensures RetryDecision(5, 5) == Failed
    ensures RetryDelayMs(0) == 250 && RetryDelayMs(1) == 250 && RetryDelayMs(5) == 4000
    ensures RetryDelayMs(6) == 5000
  {
    assert Pow2(4) == 16;
    assert Pow2(5) == 32;
  }

  /** `errorMessage.slice(0, 500)`: the error recorded on the source. */
  function SourceErrorText(message: string): (r: string)
    ensures |r| <= 500 && |r| <= |message| && r == message[..|r|]
    ensures |message| <= 500 ==> r == message
  {
    Chat.Take(message, 500)
  }

  // ---------------------------------------------------------------------------------------
  // the project chunk budget

  /** The effective chunk cap for the source, and whether the guardrail audit is
      written. */
  datatype Budget = Budget(effectiveMaxChunks: int, audit: bool)

  const CAP_REACHED: string := "Project reached max_total_chunks cap."

  /** The budget clamp of `runSingleJob`: what the project may still hold besides the
      chunks of other sources (`existingChunkCount ?? 0`), which must be positive, and no
      more than the per-source cap. The audit is written exactly when the project budget
      is the tighter of the two. */
  function ChunkBudget(maxChunks: int, maxTotalChunks: int, existing: Option<int>): (r: Result<Budget, string>)
    ensures var other := if existing.Some? then existing.value else 0;
      && (r.Ok? <==> other < maxTotalChunks)
      && (r.Err? ==> r.error == CAP_REACHED)
      && (r.Ok? ==>
            && r.value.effectiveMaxChunks <= maxChunks
            && r.value.effectiveMaxChunks <= maxTotalChunks - other
            && (r.value.effectiveMaxChunks == maxChunks || r.value.effectiveMaxChunks == maxTotalChunks - other)
            && (r.value.audit <==> maxTotalChunks - other < maxChunks))
  {
    var other := if existing.Some? then existing.value else 0;
    var remaining := if maxTotalChunks - other > 0 then maxTotalChunks - other else 0;
    if remaining <= 0 then Err(CAP_REACHED)
    else
      var effective := if maxChunks < remaining then maxChunks else remaining;
      Ok(Budget(effective, effective < maxChunks))
  }

  /** With a positive per-source cap, the source never pushes the project past
      `max_total_chunks`, nor itself past the per-source cap. */
  lemma BudgetRespected(text: string, chunkSize: nat, chunkOverlap: int,
                        maxChunks: int, maxTotalChunks: int, existing: Option<int>)
    requires maxChunks >= 1
    requires ChunkBudget(maxChunks, maxTotalChunks, existing).Ok?
    ensures var b := ChunkBudget(maxChunks, maxTotalChunks, existing).value;
      var other := if existing.Some? then existing.value else 0;
      var n := |ChunkContents(text, chunkSize, chunkOverlap, b.effectiveMaxChunks)|;
      n <= maxChunks && other + n <= maxTotalChunks
  {
    var b := ChunkBudget(maxChunks, maxTotalChunks, existing).value;
    ChunksCapped(text, chunkSize, chunkOverlap, b.effectiveMaxChunks);
  }

  // ---------------------------------------------------------------------------------------
  // choosing the text of a source

  datatype Strategy = DriveExportText | PdfBaseline | PdfOpenAiFallback | PdfBaselineOcrCapEnforced

  /** The `extraction_strategy` recorded with each chunk. */
  function StrategyName(s: Strategy): string {
    match s
    case DriveExportText => "drive_export_text"
    case PdfBaseline => "pdf_baseline"
    case PdfOpenAiFallback => "pdf_openai_fallback"
    case PdfBaselineOcrCapEnforced => "pdf_baseline_ocr_cap_enforced"
  }

  lemma StrategyNamesDistinct(a: Strategy, b: Strategy)
    requires a != b
    ensures StrategyName(a) != StrategyName(b)
  {
  }

  /** A source as the runner fetches it: the exported text of a document or slide deck, or
      a PDF's bytes together with its page estimate and the reply of the fallback extraction
      service for it: its text, or `None` when the call fails (a non-OK reply throws). */
  datatype SourceFile =
    | ExportedText(text: string)
    | PdfFile(bytes: seq<byte>, pages: int, fallbackText: Option<string>)

  /** The settings the extraction reads. */
  datatype PdfSettings = PdfSettings(minTextChars: int, maxPdfBytes: int, maxFallbacks: int,
                                     hasApiKey: bool, maxOcrPagesPerSync: int)

  /** When the fallback extraction runs for a PDF whose baseline text is `baseline`: low
      baseline text, an API key, a fallback left in this batch, and a page estimate within
      the project's OCR cap. */
  predicate FallbackGate(counter: int, cfg: PdfSettings, baseline: string, pages: int) {
    && IsLowTextPdf(baseline, cfg.minTextChars)
    && cfg.hasApiKey && counter < cfg.maxFallbacks
    && pages <= cfg.maxOcrPagesPerSync
  }

  /** The fallback runs for a source: a PDF within the size limit whose baseline passes the gate. */
  predicate FallbackRuns(counter: int, cfg: PdfSettings, f: SourceFile) {
    && f.PdfFile? && |f.bytes| <= cfg.maxPdfBytes
    && FallbackGate(counter, cfg, PdfText(f.bytes), f.pages)
  }

  /** The fallback runs and its call fails, which fails the job. */
  predicate FallbackFails(counter: int, cfg: PdfSettings, f: SourceFile) {
    FallbackRuns(counter, cfg, f) && f.fallbackText.None?
  }

  /** The fallback runs and returns text: the only case in which the batch counter rises. */
  predicate FallbackUsed(counter: int, cfg: PdfSettings, f: SourceFile) {
    FallbackRuns(counter, cfg, f) && f.fallbackText.Some?
  }

  /** The text chosen for a source and how it was obtained; `ocrCapAudit` marks that the
      page cap kept a low-text PDF from the fallback (and an audit row is written). */
  datatype Extraction = Extraction(text: string, strategy: Strategy, ocrCapAudit: bool)

  const PDF_TOO_LARGE: string := "PDF exceeds configured max size for ingestion."
  const NO_TEXT: string := "No extractable text found for source."
  const FALLBACK_FAILED: string := "OpenAI PDF extraction failed."

  /** Text that is empty after `trim` is an error. */
  function NonBlank(e: Extraction): Result<Extraction, string> {
    if e.text == [] || Trim(e.text) == [] then Err(NO_TEXT) else Ok(e)
  }

  /** The choice for a PDF within the size limit, given its baseline text. A failed
      fallback call is an error; the fallback's text replaces the baseline only when it is
      strictly longer. */
  function PdfChoice(counter: int, cfg: PdfSettings, baseline: string, pages: int, fallbackText: Option<string>)
    : Result<Extraction, string>
  {
    var low := IsLowTextPdf(baseline, cfg.minTextChars);
    if FallbackGate(counter, cfg, baseline, pages) then
      match fallbackText
      case None => Err(FALLBACK_FAILED)
      case Some(text) =>
        if |text| > |baseline| then Ok(Extraction(text, PdfOpenAiFallback, false))
        else Ok(Extraction(baseline, PdfBaseline, false))
    else if low && pages > cfg.maxOcrPagesPerSync then Ok(Extraction(baseline, PdfBaselineOcrCapEnforced, true))
    else Ok(Extraction(baseline, PdfBaseline, false))
  }

  /** What the choice for a PDF is, stated without its branches. */
  lemma PdfChoiceFacts(counter: int, cfg: PdfSettings, baseline: string, pages: int, fallbackText: Option<string>)
    ensures var r := PdfChoice(counter, cfg, baseline, pages, fallbackText);
      var gate := FallbackGate(counter, cfg, baseline, pages);
      && (r.Err? <==> gate && fallbackText.None?)
      && (r.Err? ==> r.error == FALLBACK_FAILED)
      && (r.Ok? ==>
            var e := r.value;
            var replaced := gate && |fallbackText.value| > |baseline|;
            && e.text == (if replaced then fallbackText.value else baseline)
            && (e.strategy == PdfOpenAiFallback <==> replaced)
            && e.strategy != DriveExportText
            && (e.ocrCapAudit <==> IsLowTextPdf(baseline, cfg.minTextChars) && !gate
                                   && pages > cfg.maxOcrPagesPerSync))
  {
  }

  /** The extraction step of `runSingleJob`, given the value of the batch's fallback counter. */
  function SourceExtraction(counter: int, cfg: PdfSettings, f: SourceFile): Result<Extraction, string>
  {
    match f
    case ExportedText(text) => NonBlank(Extraction(text, DriveExportText, false))
    case PdfFile(bytes, pages, fallbackText) =>
      if |bytes| > cfg.maxPdfBytes then Err(PDF_TOO_LARGE)
      else PdfOutcome(counter, cfg, PdfText(bytes), pages, fallbackText)
  }

  /** The extraction of a PDF within the size limit whose baseline text is `baseline`. */
  function PdfOutcome(counter: int, cfg: PdfSettings, baseline: string, pages: int, fallbackText: Option<string>)
    : Result<Extraction, string>
  {
    match PdfChoice(counter, cfg, baseline, pages, fallbackText)
    case Err(message) => Err(message)
    case Ok(e) => NonBlank(e)
  }

  /** The text a PDF within the size limit keeps: the fallback's when it ran, returned and
      is strictly longer, else the baseline. */
  function ChosenPdf(counter: int, cfg: PdfSettings, baseline: string, pages: int, fallbackText: Option<string>): string {
    if FallbackGate(counter, cfg, baseline, pages) && fallbackText.Some? && |fallbackText.value| > |baseline|
    then fallbackText.value else baseline
  }

  /** The text the extraction picks before the emptiness check, when no call failed. */
  function Chosen(counter: int, cfg: PdfSettings, f: SourceFile): string {
    match f
    case ExportedText(text) => text
    case PdfFile(bytes, pages, fallbackText) =>
      if |bytes| <= cfg.maxPdfBytes then ChosenPdf(counter, cfg, PdfText(bytes), pages, fallbackText)
      else PdfText(bytes)
  }

  /** The errors: a PDF over the size limit, a failed fallback call, and a source without
      text, checked in that order. */
  lemma SourceExtractionErrors(counter: int, cfg: PdfSettings, f: SourceFile)
    ensures var r := SourceExtraction(counter, cfg, f);
      var tooLarge := f.PdfFile? && |f.bytes| > cfg.maxPdfBytes;
      && (r.Err? <==> tooLarge || FallbackFails(counter, cfg, f) || Trim(Chosen(counter, cfg, f)) == [])
      && (r.Err? ==> r.error == (if tooLarge then PDF_TOO_LARGE
                                 else if FallbackFails(counter, cfg, f) then FALLBACK_FAILED
                                 else NO_TEXT))
  {
    if f.PdfFile? && |f.bytes| <= cfg.maxPdfBytes {
      var baseline := PdfText(f.bytes);
      assert SourceExtraction(counter, cfg, f) == PdfOutcome(counter, cfg, baseline, f.pages, f.fallbackText);
      PdfOutcomeErrors(counter, cfg, baseline, f.pages, f.fallbackText);
      assert FallbackRuns(counter, cfg, f) == FallbackGate(counter, cfg, baseline, f.pages);
    }
  }

  /** The errors of a PDF within the size limit: a failed fallback call, else blank text. */
  lemma PdfOutcomeErrors(counter: int, cfg: PdfSettings, baseline: string, pages: int, fallbackText: Option<string>)
    ensures var r := PdfOutcome(counter, cfg, baseline, pages, fallbackText);
      var failed := FallbackGate(counter, cfg, baseline, pages) && fallbackText.None?;
      && (r.Err? <==> failed || Trim(ChosenPdf(counter, cfg, baseline, pages, fallbackText)) == [])
      && (r.Err? ==> r.error == (if failed then FALLBACK_FAILED else NO_TEXT))
  {
    PdfChoiceFacts(counter, cfg, baseline, pages, fallbackText);
  }

  /** Exported documents keep their text; a PDF keeps its baseline text unless the
      fallback ran and returned strictly more. */
  lemma SourceExtractionText(counter: int, cfg: PdfSettings, f: SourceFile)
    requires SourceExtraction(counter, cfg, f).Ok?
    ensures var e := SourceExtraction(counter, cfg, f).value;
      && e.text == Chosen(counter, cfg, f) && Trim(e.text) != []
      && (f.ExportedText? ==> e.strategy == DriveExportText && !e.ocrCapAudit)
      && !FallbackFails(counter, cfg, f)
      && (e.strategy == PdfOpenAiFallback <==>
            FallbackUsed(counter, cfg, f) && |f.fallbackText.value| > |PdfText(f.bytes)|)
  {
    match f {
      case ExportedText(text) =>
        assert SourceExtraction(counter, cfg, f) == NonBlank(Extraction(text, DriveExportText, false));
      case PdfFile(bytes, pages, fallbackText) =>
        PdfExtractionText(counter, cfg, bytes, pages, fallbackText);
    }
  }

  /** The PDF case of `SourceExtractionText`. */
  lemma PdfExtractionText(counter: int, cfg: PdfSettings, bytes: seq<byte>, pages: int, fallbackText: Option<string>)
    requires SourceExtraction(counter, cfg, PdfFile(bytes, pages, fallbackText)).Ok?
    ensures var f := PdfFile(bytes, pages, fallbackText);
      var e := SourceExtraction(counter, cfg, f).value;
      && e.text == Chosen(counter, cfg, f) && Trim(e.text) != []
      && !FallbackFails(counter, cfg, f)
      && (e.strategy == PdfOpenAiFallback <==>
            FallbackUsed(counter, cfg, f) && |fallbackText.value| > |PdfText(bytes)|)
  {
    var f := PdfFile(bytes, pages, fallbackText);
    var baseline := PdfText(bytes);
    assert SourceExtraction(counter, cfg, f) == PdfOutcome(counter, cfg, baseline, pages, fallbackText);
    PdfOutcomeText(counter, cfg, baseline, pages, fallbackText);
    assert FallbackRuns(counter, cfg, f) == FallbackGate(counter, cfg, baseline, pages);
  }

  /** A PDF extraction that succeeds keeps the chosen non-blank text, had no failed call,
      and records the fallback exactly when its text won. */
  lemma PdfOutcomeText(counter: int, cfg: PdfSettings, baseline: string, pages: int, fallbackText: Option<string>)
    requires PdfOutcome(counter, cfg, baseline, pages, fallbackText).Ok?
    ensures var e := PdfOutcome(counter, cfg, baseline, pages, fallbackText).value;
      var gate := FallbackGate(counter, cfg, baseline, pages);
      && e.text == ChosenPdf(counter, cfg, baseline, pages, fallbackText) && Trim(e.text) != []
      && !(gate && fallbackText.None?)
      && (e.strategy == PdfOpenAiFallback <==> gate && fallbackText.Some? && |fallbackText.value| > |baseline|)
  {
    PdfChoiceFacts(counter, cfg, baseline, pages, fallbackText);
  }

  /** The audit row is written exactly when a low-text PDF was kept from the fallback by
      the page cap. */
  lemma SourceExtractionAudit(counter: int, cfg: PdfSettings, f: SourceFile)
    requires SourceExtraction(counter, cfg, f).Ok?
    ensures var e := SourceExtraction(counter, cfg, f).value;
      e.ocrCapAudit <==>
        f.PdfFile? && IsLowTextPdf(PdfText(f.bytes), cfg.minTextChars) && !FallbackRuns(counter, cfg, f)
        && f.pages > cfg.maxOcrPagesPerSync
  {
    if f.PdfFile? {
      var baseline := PdfText(f.bytes);
      PdfChoiceFacts(counter, cfg, baseline, f.pages, f.fallbackText);
      assert SourceExtraction(counter, cfg, f) == PdfOutcome(counter, cfg, baseline, f.pages, f.fallbackText);
    }
  }

  /** `pdfFallbackCounter`, the `{ value }` object shared by all jobs of one invocation. */
  class FallbackCounter {
    var value: int

    constructor ()
      ensures value == 0
    {
      value := 0;
    }
  }

  /** The extraction step of `runSingleJob` against the shared counter, which rises by one
      exactly when the fallback runs and its call returns. */
  method ExtractSourceText(counter: FallbackCounter, cfg: PdfSettings, f: SourceFile)
    returns (r: Result<Extraction, string>)
    modifies counter
    ensures r == SourceExtraction(old(counter.value), cfg, f)
    ensures counter.value == old(counter.value) + (if FallbackUsed(old(counter.value), cfg, f) then 1 else 0)
  {
    var extracted: string;
    var strategy: Strategy;
    var ocrCapAudit := false;
    match f {
      case ExportedText(text) =>
        extracted := text;
        strategy := DriveExportText;
      case PdfFile(bytes, pages, fallbackText) =>
        if |bytes| > cfg.maxPdfBytes {
          return Err(PDF_TOO_LARGE);
        }
        var c := ExtractPdf(counter, cfg, bytes, pages, fallbackText);
        if c.Err? {
          return Err(c.error);
        }
        extracted, strategy, ocrCapAudit := c.value.text, c.value.strategy, c.value.ocrCapAudit;
    }
    if extracted == [] || Trim(extracted) == [] {
      return Err(NO_TEXT);
    }
    r := Ok(Extraction(extracted, strategy, ocrCapAudit));
  }

  /** The PDF branch of the extraction step, for a PDF within the size limit. A failed
      fallback call leaves the counter as it was, since the increment follows the call. */
  method ExtractPdf(counter: FallbackCounter, cfg: PdfSettings, bytes: seq<byte>, pages: int,
                    fallbackText: Option<string>)
    returns (r: Result<Extraction, string>)
    modifies counter
    ensures r == PdfChoice(old(counter.value), cfg, PdfText(bytes), pages, fallbackText)
    ensures counter.value == old(counter.value) +
      (if FallbackGate(old(counter.value), cfg, PdfText(bytes), pages) && fallbackText.Some? then 1 else 0)
  {
    var extracted := ExtractPrintableTextFromPdf(bytes);
    var strategy := PdfBaseline;
    var ocrCapAudit := false;
    var lowText := IsLowTextPdf(extracted, cfg.minTextChars);
    if lowText && cfg.hasApiKey && counter.value < cfg.maxFallbacks && pages <= cfg.maxOcrPagesPerSync {
      if fallbackText.None? {
        return Err(FALLBACK_FAILED);
      }
      if |fallbackText.value| > |extracted| {
        extracted := fallbackText.value;
        strategy := PdfOpenAiFallback;
      }
      counter.value := counter.value + 1;
    } else if lowText && pages > cfg.maxOcrPagesPerSync {
      strategy := PdfBaselineOcrCapEnforced;
      ocrCapAudit := true;
    }
    r := Ok(Extraction(extracted, strategy, ocrCapAudit));
  }

  // ---------------------------------------------------------------------------------------
  // the batch

  /** What `claim_ingest_job` hands the runner in turn: a job for a source, or nothing
      (no claimable job, or a job without a source), which ends the batch. */
  datatype Claim = NoJob | Job(file: SourceFile)

  /** The number of jobs before the first `no_jobs`, bounded by the per-invocation cap. */
  function JobsRun(maxJobsPerRun: int, claims: seq<Claim>): (n: nat)
    ensures n <= |claims| && (n >= 1 ==> n <= maxJobsPerRun)
    ensures forall k :: 0 <= k < n ==> claims[k].Job?
    ensures n < |claims| && n < maxJobsPerRun ==> claims[n].NoJob?
    decreases |claims|
  {
    if claims == [] || maxJobsPerRun <= 0 || claims[0].NoJob? then 0
    else 1 + JobsRun(maxJobsPerRun - 1, claims[1..])
  }

  /** The counter after one more claim: up by one when it is a job whose fallback ran and
      returned. */
  function Bump(counter: int, cfg: PdfSettings, claim: Claim): int {
    if claim.Job? && FallbackUsed(counter, cfg, claim.file) then counter + 1 else counter
  }

  /** The counter after the given jobs ran in order from `counter`. */
  function CounterAfter(counter: int, cfg: PdfSettings, jobs: seq<Claim>): int
    decreases |jobs|
  {
    if jobs == [] then counter
    else
      CounterAfter(Bump(counter, cfg, jobs[0]), cfg, jobs[1..])
  }

  lemma {:induction false} CounterAfterSnoc(counter: int, cfg: PdfSettings, jobs: seq<Claim>, job: Claim)
    ensures CounterAfter(counter, cfg, jobs + [job]) ==
      Bump(CounterAfter(counter, cfg, jobs), cfg, job)
    decreases |jobs|
  {
    if jobs == [] {
      assert [] + [job] == [job];
    } else {
      assert (jobs + [job])[1..] == jobs[1..] + [job];
      CounterAfterSnoc(Bump(counter, cfg, jobs[0]), cfg, jobs[1..], job);
    }
  }

  /** The fallback never runs more than `maxFallbacks` times in a batch that starts within
      the limit, and at most once per job. */
  lemma {:induction false} CounterBounded(counter: int, cfg: PdfSettings, jobs: seq<Claim>)
    requires counter <= cfg.maxFallbacks || counter <= 0
    ensures var c := CounterAfter(counter, cfg, jobs);
      counter <= c <= counter + |jobs| && (c <= cfg.maxFallbacks || c == counter)
    decreases |jobs|
  {
    if jobs != [] {
      CounterBounded(Bump(counter, cfg, jobs[0]), cfg, jobs[1..]);
    }
  }

  /** Each result is the extraction of the job at its position, against the counter left
      by the jobs before it. */
  predicate ResultsMatch(cfg: PdfSettings, claims: seq<Claim>, results: seq<Result<Extraction, string>>) {
    && |results| <= |claims|
    && forall k :: 0 <= k < |results| ==>
         claims[k].Job? && results[k] == SourceExtraction(CounterAfter(0, cfg, claims[..k]), cfg, claims[k].file)
  }

  /** The results of running `jobs` in order from a fresh counter. */
  function BatchResults(cfg: PdfSettings, jobs: seq<Claim>): (r: seq<Result<Extraction, string>>)
    requires forall k :: 0 <= k < |jobs| ==> jobs[k].Job?
    ensures |r| == |jobs|
    decreases |jobs|
  {
    if jobs == [] then []
    else
      var init := jobs[..|jobs| - 1];
      BatchResults(cfg, init) + [SourceExtraction(CounterAfter(0, cfg, init), cfg, jobs[|jobs| - 1].file)]
  }

  /** The results of a run of jobs match the claims they came from. */
  lemma {:induction false} BatchResultsMatch(cfg: PdfSettings, claims: seq<Claim>, n: nat)
    requires n <= |claims| && forall k :: 0 <= k < n ==> claims[k].Job?
    ensures ResultsMatch(cfg, claims, BatchResults(cfg, claims[..n]))
  {
    if n > 0 {
      BatchResultsMatch(cfg, claims, n - 1);
      assert claims[..n][..n - 1] == claims[..n - 1];
      var prev := BatchResults(cfg, claims[..n - 1]);
      var next := BatchResults(cfg, claims[..n]);
      forall k | 0 <= k < n
        ensures claims[k].Job? && next[k] == SourceExtraction(CounterAfter(0, cfg, claims[..k]), cfg, claims[k].file)
      {
        if k < n - 1 {
          assert next[k] == prev[k];
        }
      }
    }
  }

  /** One more turn of the loop: none when the claims ran out or the next one is empty,
      else one job and the rest after it. */
  lemma JobsRunStep(maxJobsPerRun: int, claims: seq<Claim>, index: nat)
    requires index <= |claims| && index < maxJobsPerRun
    ensures var rest := JobsRun(maxJobsPerRun - index, claims[index..]);
      if index == |claims| || claims[index].NoJob? then rest == 0
      else rest == 1 + JobsRun(maxJobsPerRun - (index + 1), claims[index + 1..])
  {
    if index < |claims| {
      assert claims[index..][0] == claims[index] && claims[index..][1..] == claims[index + 1..];
    }
  }

  /** One more job run: its result is appended and the counter rises when its fallback ran. */
  lemma BatchStep(cfg: PdfSettings, claims: seq<Claim>, index: nat)
    requires index < |claims| && forall k :: 0 <= k <= index ==> claims[k].Job?
    ensures var c := CounterAfter(0, cfg, claims[..index]);
      && BatchResults(cfg, claims[..index + 1])
         == BatchResults(cfg, claims[..index]) + [SourceExtraction(c, cfg, claims[index].file)]
      && CounterAfter(0, cfg, claims[..index + 1]) == Bump(c, cfg, claims[index])
  {
    var done := claims[..index + 1];
    assert done[..|done| - 1] == claims[..index] && done[|done| - 1] == claims[index];
    assert done == claims[..index] + [claims[index]];
    CounterAfterSnoc(0, cfg, claims[..index], claims[index]);
  }

  /** The handler's loop: up to `maxJobsPerRun` jobs, stopping at the first `no_jobs`,
      all sharing one fresh fallback counter. It reports how many jobs ran, how many
      fallbacks they used, and each job's extraction. */
  method RunBatch(cfg: PdfSettings, maxJobsPerRun: int, claims: seq<Claim>)
    returns (processedJobs: nat, pdfFallbacksUsed: int, results: seq<Result<Extraction, string>>)
    ensures processedJobs == JobsRun(maxJobsPerRun, claims) && |results| == processedJobs
    ensures pdfFallbacksUsed == CounterAfter(0, cfg, claims[..processedJobs])
    ensures processedJobs <= |claims| && results == BatchResults(cfg, claims[..processedJobs])
    ensures ResultsMatch(cfg, claims, results)
  {
    var counter := new FallbackCounter();
    processedJobs := 0;
    results := [];
    var index := 0;
    while index < maxJobsPerRun
      invariant 0 <= processedJobs == index <= |claims|
      invariant JobsRun(maxJobsPerRun, claims) == index + JobsRun(maxJobsPerRun - index, claims[index..])
      invariant counter.value == CounterAfter(0, cfg, claims[..index])
      invariant |results| == index
      invariant forall k :: 0 <= k < index ==> claims[k].Job?
      invariant results == BatchResults(cfg, claims[..index])
    {
      JobsRunStep(maxJobsPerRun, claims, index);
      if index >= |claims| || claims[index].NoJob? {
        break;
      }
      var r := ExtractSourceText(counter, cfg, claims[index].file);
      BatchStep(cfg, claims, index);
      results := results + [r];
      processedJobs := processedJobs + 1;
      index := index + 1;
    }
    pdfFallbacksUsed := counter.value;
    BatchResultsMatch(cfg, claims, processedJobs);
  }

  /** However many jobs a batch runs and whatever they hold, it uses no more than
      `maxFallbacks` fallbacks (when that limit is not negative). */
  lemma BatchFallbacksBounded(cfg: PdfSettings, maxJobsPerRun: int, claims: seq<Claim>)
    requires cfg.maxFallbacks >= 0
    ensures var n := JobsRun(maxJobsPerRun, claims);
      0 <= CounterAfter(0, cfg, claims[..n]) <= cfg.maxFallbacks
  {
    var n := JobsRun(maxJobsPerRun, claims);
    CounterBounded(0, cfg, claims[..n]);
  }

  // ---------------------------------------------------------------------------------------
  // the chunk rows written for a source

  /** `citation_anchor`: PDFs have no page mapping, other sources anchor to the document. */
  function CitationAnchor(isPdf: bool): string {
    if isPdf then "page_unknown" else "document"
  }

  /** The metadata every chunk of a source carries. */
  function ChunkMetadata(title: string, driveFileId: string, sourceType: string, s: Strategy): map<string, Json> {
    map["title" := JString(title), "file_id" := JString(driveFileId), "source_type" := JString(sourceType),
        "citation_anchor" := JString(CitationAnchor(sourceType == "gpdf")),
        "extraction_strategy" := JString(StrategyName(s))]
  }

  /** What the gateway cites for an ingested chunk: the source's title (trimmed, or
      "Source" when blank), its Drive file id, and no page or slide, which ingestion never
      records. */
  lemma IngestedChunkCitation(row: Chat.ChunkRow, title: string, driveFileId: string, sourceType: string, s: Strategy)
    requires row.metadata == ChunkMetadata(title, driveFileId, sourceType, s)
    ensures var c := Chat.CitationFromChunk(row);
      && c.title == (if Trim(title) != [] then Trim(title) else "Source")
      && c.fileId == Some(driveFileId)
      && c.page.None? && c.slide.None?
  {
    var md := row.metadata;
    assert md["title"] == JString(title);
    assert md["file_id"] == JString(driveFileId);
    assert "page" !in md && "slide" !in md;
    assert StringAt(md, "title") == Some(title);
    assert StringAt(md, "file_id") == Some(driveFileId);
  }
}
