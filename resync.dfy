/** The resync trigger (kb_resync function): an owner asks for one source, or all sources
    of a project, to be ingested again. After the owner's session and the project are
    checked, two backlog guards may refuse the request; otherwise one queued job is added
    for each selected source that has no queued or running job yet, and those sources are
    marked pending. The store is a value: the handler maps it to its new state. */
module Resync {

  import opened Wrappers
  import opened Text
  import opened Config
  import opened EmbedToken
  import opened RequestBody
  import Chat

  const DEFAULT_MAX_RUNNING_PER_PROJECT: int := 3
  const DEFAULT_MAX_QUEUED_PER_PROJECT: int := 100

  // ---------------------------------------------------------------------------------------
  // the owner's bearer token

  /** `extractBearerToken`: `split(" ", 2)` keeps the first two space-separated pieces;
      the first must be `bearer` in any case and the second must be non-empty. */
  function ExtractBearerToken(header: Option<string>): (r: Option<string>)
    ensures header.None? || header.value == [] ==> r.None?
    ensures r.Some? <==>
      && header.Some? && header.value != []
      && var parts := Split(header.value, IsBlankChar);
         Lower(parts[0]) == "bearer" && |parts| >= 2 && parts[1] != []
    ensures r.Some? ==>
      r.value == Split(header.value, IsBlankChar)[1] && r.value != [] && forall i :: 0 <= i < |r.value| ==> r.value[i] != ' '
  {
    if header.None? || header.value == [] then None
    else
      var parts := Split(header.value, IsBlankChar);
      var token := if |parts| >= 2 then parts[1] else "";
      if Lower(parts[0]) != "bearer" || token == [] then None else Some(token)
  }

  /** A header `<scheme> <token>`, optionally followed by more space-separated text, gives
      the token back when the scheme is `bearer` in any case. */
  lemma BearerRoundTrip(scheme: string, token: string, tail: string)
    requires forall i :: 0 <= i < |scheme| ==> scheme[i] != ' '
    requires Lower(scheme) == "bearer"
    requires token != [] && forall i :: 0 <= i < |token| ==> token[i] != ' '
    requires tail == [] || tail[0] == ' '
    ensures ExtractBearerToken(Some(scheme + " " + token + tail)) == Some(token)
  {
    var header := scheme + " " + token + tail;
    assert header == scheme + [' '] + (token + tail);
    SplitAfterSep(scheme, ' ', token + tail, IsBlankChar);
    if tail == [] {
      assert token + tail == token;
      SplitNoSep(token, IsBlankChar);
    } else {
      assert token + tail == token + [' '] + tail[1..];
      SplitAfterSep(token, ' ', tail[1..], IsBlankChar);
    }
  }

  // ---------------------------------------------------------------------------------------
  // the store

  /** `ingest_jobs.status`. */
  datatype JobStatus = JobQueued | JobRunning | JobDone | JobFailed

  /** `project_sources.status`. */
  datatype SourceStatus = Pending | Processing | Ready | SourceFailed

  datatype SourceRow = SourceRow(id: string, projectId: string, status: SourceStatus, error: Option<string>)

  /** A job row; `sourceId` is None where the column is null. */
  datatype JobRow = JobRow(id: string, projectId: string, sourceId: Option<string>, status: JobStatus,
                           attempts: int, error: Option<string>)

  datatype Store = Store(sources: seq<SourceRow>, jobs: seq<JobRow>)

  /** Which of the handler's store calls fail. */
  datatype Faults = Faults(projectQuery: bool, sourceQuery: bool, runningCount: bool, queuedCount: bool,
                           existingJobs: bool, insert: bool, sourceUpdate: bool)

  predicate NoFaults(f: Faults) {
    !f.projectQuery && !f.sourceQuery && !f.runningCount && !f.queuedCount
    && !f.existingJobs && !f.insert && !f.sourceUpdate
  }

  /** The project's sources, narrowed to `sourceId` when one is given, in store order. */
  function SelectedSources(sources: seq<SourceRow>, projectId: string, sourceId: Option<string>): (r: seq<SourceRow>)
    ensures |r| <= |sources|
    ensures forall s :: s in r <==> s in sources && s.projectId == projectId && (sourceId.Some? && sourceId.value != [] ==> s.id == sourceId.value)
  {
    if sources == [] then []
    else
      var rest := SelectedSources(sources[1..], projectId, sourceId);
      var s := sources[0];
      if s.projectId == projectId && (sourceId.Some? && sourceId.value != [] ==> s.id == sourceId.value)
      then [s] + rest else rest
  }

  function Ids(rows: seq<SourceRow>): (ids: seq<string>)
    ensures |ids| == |rows| && forall k :: 0 <= k < |rows| ==> ids[k] == rows[k].id
  {
    seq(|rows|, k requires 0 <= k < |rows| => rows[k].id)
  }

  /** The exact count of the project's jobs in the given status. */
  function CountStatus(jobs: seq<JobRow>, projectId: string, status: JobStatus): (n: nat)
    ensures n <= |jobs|
  {
    if jobs == [] then 0
    else (if jobs[0].projectId == projectId && jobs[0].status == status then 1 else 0)
         + CountStatus(jobs[1..], projectId, status)
  }

  /** `sourceIdsWithInFlightJobs`: the selected sources with a queued or running job of the
      project. */
  function InFlight(jobs: seq<JobRow>, projectId: string, sourceIds: seq<string>): set<string> {
    set j | j in jobs && j.projectId == projectId && (j.status == JobQueued || j.status == JobRunning)
                      && j.sourceId.Some? && j.sourceId.value in sourceIds :: j.sourceId.value
  }

  /** The ids kept by `filter((id) => !inFlight.has(id))`. */
  function WithoutInFlight(ids: seq<string>, inFlight: set<string>): (r: seq<string>)
    ensures |r| <= |ids|
    ensures forall x :: x in r <==> x in ids && x !in inFlight
  {
    if ids == [] then []
    else
      var rest := WithoutInFlight(ids[1..], inFlight);
      if ids[0] in inFlight then rest else [ids[0]] + rest
  }

  /** How many of the ids have an in-flight job. */
  function CountInFlight(ids: seq<string>, inFlight: set<string>): (n: nat)
    ensures n <= |ids|
  {
    if ids == [] then 0
    else (if ids[0] in inFlight then 1 else 0) + CountInFlight(ids[1..], inFlight)
  }

  /** Every id is either enqueued or counted as skipped. */
  lemma {:induction false} InFlightPartition(ids: seq<string>, inFlight: set<string>)
    ensures |WithoutInFlight(ids, inFlight)| + CountInFlight(ids, inFlight) == |ids|
  {
    if ids != [] {
      InFlightPartition(ids[1..], inFlight);
    }
  }

  /** `rowsToInsert`, with the ids the store gives the inserted rows: one queued job per
      id, with no attempts and no error. */
  function NewJobs(projectId: string, ids: seq<string>, newJobId: nat -> string): (r: seq<JobRow>)
    ensures |r| == |ids|
    ensures forall k :: 0 <= k < |ids| ==> r[k] == JobRow(newJobId(k), projectId, Some(ids[k]), JobQueued, 0, None)
  {
    seq(|ids|, k requires 0 <= k < |ids| => JobRow(newJobId(k), projectId, Some(ids[k]), JobQueued, 0, None))
  }

  function JobIds(jobs: seq<JobRow>): (ids: seq<string>)
    ensures |ids| == |jobs| && forall k :: 0 <= k < |jobs| ==> ids[k] == jobs[k].id
  {
    seq(|jobs|, k requires 0 <= k < |jobs| => jobs[k].id)
  }

  /** The sources update: the project's sources among `ids` become pending with no error. */
  function MarkPending(sources: seq<SourceRow>, projectId: string, ids: seq<string>): (r: seq<SourceRow>)
    ensures |r| == |sources|
    ensures forall k :: 0 <= k < |sources| ==>
      r[k] == if sources[k].projectId == projectId && sources[k].id in ids
              then sources[k].(status := Pending, error := None) else sources[k]
  {
    seq(|sources|, k requires 0 <= k < |sources| =>
      if sources[k].projectId == projectId && sources[k].id in ids
      then sources[k].(status := Pending, error := None) else sources[k])
  }

  // ---------------------------------------------------------------------------------------
  // the guards and the enqueue

  /** The response data of an accepted resync. */
  datatype Summary = Summary(projectId: string, jobIds: seq<string>, enqueuedCount: nat,
                             skippedExistingCount: int, selectedSourceCount: nat)

  /** What the handler answers: the CORS preflight, an error, or the summary. */
  datatype Reply = Preflight | Refused(denial: Chat.Denial) | Accepted(summary: Summary)

  /** The handler's answer and the store after it. */
  datatype Outcome = Outcome(reply: Reply, store: Store)

  /** From the backlog guards on, for the selected source ids: the running guard, then the
      queued guard, then the in-flight filter, the insert and the sources update. */
  function Enqueue(projectId: string, sourceIds: seq<string>, maxRunning: int, maxQueued: int,
                   faults: Faults, store: Store, newJobId: nat -> string): Outcome
  {
    var running := CountStatus(store.jobs, projectId, JobRunning);
    var queued := CountStatus(store.jobs, projectId, JobQueued);
    if faults.runningCount then Outcome(Refused(Chat.Denial(500, "internal_error", false)), store)
    else if running >= maxRunning then Outcome(Refused(Chat.Denial(409, "resync_in_progress", true)), store)
    else if faults.queuedCount then Outcome(Refused(Chat.Denial(500, "internal_error", false)), store)
    else if queued >= maxQueued then Outcome(Refused(Chat.Denial(409, "resync_in_progress", true)), store)
    else if faults.existingJobs then Outcome(Refused(Chat.Denial(500, "internal_error", false)), store)
    else
      var toEnqueue := WithoutInFlight(sourceIds, InFlight(store.jobs, projectId, sourceIds));
      var inserted := NewJobs(projectId, toEnqueue, newJobId);
      if toEnqueue != [] && faults.insert then Outcome(Refused(Chat.Denial(500, "internal_error", false)), store)
      else
        var jobs := store.jobs + inserted;
        if toEnqueue != [] && faults.sourceUpdate
        then Outcome(Refused(Chat.Denial(500, "internal_error", false)), Store(store.sources, jobs))
        else
          var sources := if toEnqueue != [] then MarkPending(store.sources, projectId, toEnqueue) else store.sources;
          Outcome(Accepted(Summary(projectId, JobIds(inserted), |inserted|, |sourceIds| - |inserted|, |sourceIds|)),
                  Store(sources, jobs))
  }

  /** The running guard comes first: a project at its running limit is refused as
      retryable whatever its queue; below it, a full queue is refused the same way. Neither
      refusal changes the store. */
  lemma BacklogGuards(projectId: string, sourceIds: seq<string>, maxRunning: int, maxQueued: int,
                      faults: Faults, store: Store, newJobId: nat -> string)
    requires NoFaults(faults)
    ensures var o := Enqueue(projectId, sourceIds, maxRunning, maxQueued, faults, store, newJobId);
      var running := CountStatus(store.jobs, projectId, JobRunning);
      var queued := CountStatus(store.jobs, projectId, JobQueued);
      && (running >= maxRunning || queued >= maxQueued <==> o.reply == Refused(Chat.Denial(409, "resync_in_progress", true)))
      && (o.reply.Refused? ==> o.store == store)
  {
  }

  /** An accepted resync adds exactly one queued job, with no attempts and no error, for
      each selected source without an in-flight job, in selection order, after the jobs
      already there; marks exactly those sources pending with the error cleared; and counts
      every selected source as either enqueued or skipped. */
  lemma AcceptedEnqueue(projectId: string, sourceIds: seq<string>, maxRunning: int, maxQueued: int,
                        faults: Faults, store: Store, newJobId: nat -> string)
    requires Enqueue(projectId, sourceIds, maxRunning, maxQueued, faults, store, newJobId).reply.Accepted?
    ensures var o := Enqueue(projectId, sourceIds, maxRunning, maxQueued, faults, store, newJobId);
      var s := o.reply.summary;
      var inFlight := InFlight(store.jobs, projectId, sourceIds);
      var toEnqueue := WithoutInFlight(sourceIds, inFlight);
      && o.store.jobs == store.jobs + NewJobs(projectId, toEnqueue, newJobId)
      && (forall x :: x in toEnqueue <==> x in sourceIds && x !in inFlight)
      && |o.store.sources| == |store.sources|
      && (forall k :: 0 <= k < |store.sources| ==>
            o.store.sources[k] == if store.sources[k].projectId == projectId && store.sources[k].id in toEnqueue
                                  then store.sources[k].(status := Pending, error := None) else store.sources[k])
      && s.projectId == projectId && s.selectedSourceCount == |sourceIds|
      && s.enqueuedCount == |toEnqueue| && |s.jobIds| == s.enqueuedCount
      && s.enqueuedCount + s.skippedExistingCount == s.selectedSourceCount
      && s.skippedExistingCount == CountInFlight(sourceIds, inFlight)
  {
    InFlightPartition(sourceIds, InFlight(store.jobs, projectId, sourceIds));
  }

  /** After an accepted resync every selected source has a queued job, so triggering the
      same selection again, with the store calls succeeding, changes nothing: it is refused
      by a guard, or accepted with nothing enqueued and every source skipped. */
  lemma RetriggerChangesNothing(projectId: string, sourceIds: seq<string>, maxRunning: int, maxQueued: int,
                                faults: Faults, store: Store, newJobId: nat -> string, newJobId2: nat -> string)
    requires NoFaults(faults)
    requires Enqueue(projectId, sourceIds, maxRunning, maxQueued, faults, store, newJobId).reply.Accepted?
    ensures var once := Enqueue(projectId, sourceIds, maxRunning, maxQueued, faults, store, newJobId).store;
      var twice := Enqueue(projectId, sourceIds, maxRunning, maxQueued, faults, once, newJobId2);
      && twice.store == once
      && (twice.reply.Accepted? ==> twice.reply.summary.enqueuedCount == 0
                                    && twice.reply.summary.skippedExistingCount == |sourceIds|)
  {
    var once := Enqueue(projectId, sourceIds, maxRunning, maxQueued, faults, store, newJobId).store;
    var inFlight := InFlight(store.jobs, projectId, sourceIds);
    var toEnqueue := WithoutInFlight(sourceIds, inFlight);
    var inserted := NewJobs(projectId, toEnqueue, newJobId);
    assert once.jobs == store.jobs + inserted;
    var inFlight' := InFlight(once.jobs, projectId, sourceIds);
    forall x | x in sourceIds
      ensures x in inFlight'
    {
      if x in inFlight {
        var j :| j in store.jobs && j.projectId == projectId && (j.status == JobQueued || j.status == JobRunning)
                 && j.sourceId.Some? && j.sourceId.value in sourceIds && j.sourceId.value == x;
        assert j in once.jobs;
      } else {
        assert x in toEnqueue;
        var k :| 0 <= k < |toEnqueue| && toEnqueue[k] == x;
        assert inserted[k] in once.jobs;
      }
    }
    NothingLeft(sourceIds, inFlight');
  }

  lemma {:induction false} NothingLeft(ids: seq<string>, inFlight: set<string>)
    requires forall x :: x in ids ==> x in inFlight
    ensures WithoutInFlight(ids, inFlight) == []
  {
    if ids != [] {
      NothingLeft(ids[1..], inFlight);
    }
  }

  // ---------------------------------------------------------------------------------------
  // the handler

  /** The environment the handler reads; an absent or empty value is missing. */
  datatype ResyncEnv = ResyncEnv(supabaseUrl: Option<string>, anonKey: Option<string>, serviceRoleKey: Option<string>,
                                 maxRunningSetting: Option<string>, maxQueuedSetting: Option<string>)

  /** The parts of the request the handler reads: the method, the `authorization` header
      and the body as `request.json()` parses it (None where it throws). */
  datatype ResyncRequest = ResyncRequest(httpMethod: string, authorization: Option<string>, body: Option<Json>)

  predicate Present(v: Option<string>) {
    v.Some? && v.value != []
  }

  /** `project_id` when the body holds a string there, and empty otherwise. */
  function ProjectIdOf(body: Json): (r: string)
    ensures body.JObject? && HasString(body.fields, "project_id") ==> r == body.fields["project_id"].s
    ensures r != [] ==> body.JObject? && HasString(body.fields, "project_id") && r == body.fields["project_id"].s
    ensures r == [] <==> !(body.JObject? && HasString(body.fields, "project_id")) || body.fields["project_id"].s == []
  {
    match StringField(body, "project_id") case Some(p) => p case None => ""
  }

  /** The handler. `getUser` is the auth service (the user id for a session token, None for
      an error or no user); `readableProjects` are the project ids the owner's query can
      read. */
  function HandleResync(number: string -> Option<real>, env: ResyncEnv, req: ResyncRequest,
                        getUser: string -> Option<string>, readableProjects: set<string>,
                        faults: Faults, store: Store, newJobId: nat -> string): Outcome
  {
    if req.httpMethod == "OPTIONS" then Outcome(Preflight, store)
    else if req.httpMethod != "POST" then Outcome(Refused(Chat.Denial(405, "method_not_allowed", false)), store)
    else if !Present(env.supabaseUrl) || !Present(env.anonKey) || !Present(env.serviceRoleKey)
    then Outcome(Refused(Chat.Denial(500, "missing_configuration", false)), store)
    else
      var maxRunning := ParsePositiveInt(number, env.maxRunningSetting, DEFAULT_MAX_RUNNING_PER_PROJECT);
      var maxQueued := ParsePositiveInt(number, env.maxQueuedSetting, DEFAULT_MAX_QUEUED_PER_PROJECT);
      match ExtractBearerToken(req.authorization)
      case None => Outcome(Refused(Chat.Denial(401, "invalid_owner_session", false)), store)
      case Some(token) =>
        if getUser(token).None? then Outcome(Refused(Chat.Denial(401, "invalid_owner_session", false)), store)
        else match req.body
          case None => Outcome(Refused(Chat.Denial(400, "invalid_request", false)), store)
          case Some(body) =>
            var projectId := ProjectIdOf(body);
            var sourceId := StringField(body, "source_id");
            if projectId == [] then Outcome(Refused(Chat.Denial(400, "invalid_request", false)), store)
            else if faults.projectQuery then Outcome(Refused(Chat.Denial(500, "internal_error", false)), store)
            else if projectId !in readableProjects then Outcome(Refused(Chat.Denial(404, "project_not_found", false)), store)
            else if faults.sourceQuery then Outcome(Refused(Chat.Denial(500, "internal_error", false)), store)
            else
              var selected := SelectedSources(store.sources, projectId, sourceId);
              if selected == [] then Outcome(Refused(Chat.Denial(404, "source_not_found", false)), store)
              else Enqueue(projectId, Ids(selected), maxRunning, maxQueued, faults, store, newJobId)
  }

  /** The refusals before the guards, none of which changes the store: no bearer token,
      a body without a string `project_id`, and a selection with no source. */
  lemma EarlyRefusals(number: string -> Option<real>, env: ResyncEnv, req: ResyncRequest,
                      getUser: string -> Option<string>, readableProjects: set<string>,
                      faults: Faults, store: Store, newJobId: nat -> string)
    requires req.httpMethod == "POST" && Present(env.supabaseUrl) && Present(env.anonKey) && Present(env.serviceRoleKey)
    ensures var o := HandleResync(number, env, req, getUser, readableProjects, faults, store, newJobId);
      && (ExtractBearerToken(req.authorization).None? ==> o == Outcome(Refused(Chat.Denial(401, "invalid_owner_session", false)), store))
      && (ExtractBearerToken(req.authorization).Some? && getUser(ExtractBearerToken(req.authorization).value).Some?
          && req.body.Some? && ProjectIdOf(req.body.value) == []
          ==> o == Outcome(Refused(Chat.Denial(400, "invalid_request", false)), store))
      && (ExtractBearerToken(req.authorization).Some? && getUser(ExtractBearerToken(req.authorization).value).Some?
          && req.body.Some? && ProjectIdOf(req.body.value) != [] && !faults.projectQuery && !faults.sourceQuery
          && ProjectIdOf(req.body.value) in readableProjects
          && SelectedSources(store.sources, ProjectIdOf(req.body.value), StringField(req.body.value, "source_id")) == []
          ==> o == Outcome(Refused(Chat.Denial(404, "source_not_found", false)), store))
  {
  }

  /** The guards use the configured limits, defaulting to 3 running and 100 queued jobs. */
  lemma DefaultLimits(number: string -> Option<real>)
    ensures ParsePositiveInt(number, None, DEFAULT_MAX_RUNNING_PER_PROJECT) == 3
    ensures ParsePositiveInt(number, None, DEFAULT_MAX_QUEUED_PER_PROJECT) == 100
  {
  }
}
