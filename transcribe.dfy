/** The transcription stage: checks that the uploaded audio exists, submits a
    transcription job that writes its JSON output to a key of our choosing,
    polls the job until it completes or fails, and then replaces the JSON
    output with its plain transcript text. */
module Transcribe {
  import opened Common
  import opened Naming

  /** The fields of the invocation event the handler reads. */
  datatype Event = Event(bucket: Option<string>, key: Option<string>)

  /** What `get_transcription_job` reports about a job. */
  datatype JobSnapshot = JobSnapshot(status: string, transcriptFileUri: Option<string>, failureReason: Option<string>)

  /** The arguments of `start_transcription_job`. */
  datatype JobRequest = JobRequest(
    jobName: string,
    mediaUri: string,
    mediaFormat: string,
    languageCode: string,
    outputBucket: string,
    outputKey: string)

  /** Where polling stops: at the first terminal snapshot, at the first failed
      call, or never within the polls supplied. */
  datatype PollEnd = Terminal(at: nat, snapshot: JobSnapshot) | PollFault(at: nat, fault: Fault) | Exhausted
  {
    /** The same outcome, seen from `n` polls earlier. */
    function Shift(n: nat): PollEnd
    {
      match this
      case Terminal(i, s) => Terminal(i + n, s)
      case PollFault(i, f) => PollFault(i + n, f)
      case Exhausted => Exhausted
    }

    /** How many polls were answered without stopping. */
    function Stop(polls: nat): nat
    {
      if Exhausted? then polls else at
    }
  }

  datatype Response =
    | MissingEventKey                  // 400 'Missing required key in event data.'
    | Transcribed(jobName: string, transcriptUri: string, bucket: string, originalFilename: string)
    | S3ClientError(message: string)   // 500 'S3 ClientError'
    | JobFailed(reason: string)        // 500 'Transcription job failed'
    | InternalServerError(message: string)
    | StillPolling                     // the poll loop has not returned yet
  {
    /** The HTTP status code of a response that was returned. */
    function StatusCode(): (code: int)
      requires !StillPolling?
      ensures code == 200 <==> Transcribed?
      ensures code == 400 <==> MissingEventKey?
      ensures code == 500 || code == 200 || code == 400
    {
      match this
      case MissingEventKey => 400
      case Transcribed(_, _, _, _) => 200
      case _ => 500
    }
  }

  predicate IsTerminal(status: string)
  {
    status == "COMPLETED" || status == "FAILED"
  }

  /** A poll the loop goes past: the call succeeded and the job is neither
      completed nor failed. */
  predicate Pending(p: Result<JobSnapshot>)
  {
    p.Ok? && !IsTerminal(p.value.status)
  }

  /** The outcome of polling through the engine's successive answers. */
  function PollOutcome(polls: seq<Result<JobSnapshot>>): (r: PollEnd)
    ensures r.Stop(|polls|) <= |polls|
  {
    if polls == [] then Exhausted
    else if polls[0].Err? then PollFault(0, polls[0].fault)
    else if IsTerminal(polls[0].value.status) then Terminal(0, polls[0].value)
    else PollOutcome(polls[1..]).Shift(1)
  }

  /** Polling stops exactly at the first answer that is a failed call or a
      terminal status; every earlier answer was a non-terminal status. */
  lemma {:induction false} PollStopsAtFirstTerminal(polls: seq<Result<JobSnapshot>>)
    ensures var r := PollOutcome(polls);
      (r.Terminal? ==> r.at < |polls| && polls[r.at] == Ok(r.snapshot) && IsTerminal(r.snapshot.status)) &&
      (r.PollFault? ==> r.at < |polls| && polls[r.at] == Err(r.fault)) &&
      (forall k :: 0 <= k < r.Stop(|polls|) ==> Pending(polls[k]))
  {
    if polls != [] && Pending(polls[0]) {
      PollStopsAtFirstTerminal(polls[1..]);
      var r := PollOutcome(polls[1..]);
      forall k | 1 <= k < r.Stop(|polls[1..]|) + 1 ensures Pending(polls[k]) {
        assert polls[k] == polls[1..][k - 1];
      }
    }
  }

  /** The `while True` loop of the handler: asks for the job's status until
      it is COMPLETED or FAILED. A failing call leaves the loop through the
      handler's exception handlers. */
  method PollUntilTerminal(polls: seq<Result<JobSnapshot>>) returns (r: PollEnd)
    ensures r == PollOutcome(polls)
  {
    var i := 0;
    while i < |polls|
      invariant i <= |polls|
      invariant PollOutcome(polls) == PollOutcome(polls[i..]).Shift(i)
    {
      assert polls[i..][1..] == polls[i + 1..];
      var answer := polls[i];
      if answer.Err? {
        return PollFault(i, answer.fault);
      }
      if IsTerminal(answer.value.status) {
        return Terminal(i, answer.value);
      }
      i := i + 1;
    }
    return Exhausted;
  }

  /** The job the handler submits for an audio object. */
  function Request(bucket: string, key: string, epoch: nat, ts: string): (req: JobRequest)
    ensures req.mediaUri == S3Uri(bucket, key) && req.outputBucket == bucket
    ensures req.jobName == JobName(Stem(OriginalFilename(key)), epoch)
    ensures req.outputKey == TranscriptKey(Stem(OriginalFilename(key)), ts)
  {
    var stem := Stem(OriginalFilename(key));
    JobRequest(JobName(stem, epoch), S3Uri(bucket, key), "mp3", TranscriptLanguage, bucket, TranscriptKey(stem, ts))
  }

  /** How the handler's exception handlers report a failed call. */
  function Failure(f: Fault): (resp: Response)
    ensures resp.S3ClientError? <==> f.ClientError?
    ensures resp.InternalServerError? <==> f.OtherError?
    ensures resp.S3ClientError? || resp.InternalServerError?
    ensures resp.message == f.message
  {
    match f
    case ClientError(_, msg) => S3ClientError(msg)
    case OtherError(msg) => InternalServerError(msg)
  }

  /** The event names an object, it exists, the job was accepted, and the
      first terminal answer reports COMPLETED with a transcript URI. */
  predicate Completed(event: Event, st: Store, start: Result<()>, polls: seq<Result<JobSnapshot>>)
  {
    event.bucket.Some? && event.key.Some? && Head(st, event.key.value).Ok? && start.Ok? &&
    PollOutcome(polls).Terminal? && PollOutcome(polls).snapshot.status == "COMPLETED" &&
    PollOutcome(polls).snapshot.transcriptFileUri.Some?
  }

  /** The last step on a completed job: read the engine's JSON output, take
      the first transcript, and store it under the same key. A successful
      save replaces exactly that object with the plain transcript and reports
      its `s3://` URI; anything else leaves the store as it was.
      `decode` stands for `json.loads(...)['results']['transcripts']`
      followed by the `transcript` field of each entry; its errors are the
      parser's and the lookups' exceptions. */
  function SaveTranscript(st: Store, bucket: string, key: string, req: JobRequest,
                          decode: string -> Result<seq<string>>): (out: (Response, Store))
    ensures out.0.Transcribed? || out.0.S3ClientError? || out.0.InternalServerError?
    ensures !out.0.Transcribed? ==> out.1 == st
    ensures out.0.Transcribed? ==>
      out.0 == Transcribed(req.jobName, S3Uri(bucket, req.outputKey), bucket, OriginalFilename(key)) &&
      Get(st, req.outputKey).Ok? &&
      decode(Get(st, req.outputKey).value).Ok? &&
      |decode(Get(st, req.outputKey).value).value| > 0 &&
      Get(out.1, req.outputKey) == Ok(decode(Get(st, req.outputKey).value).value[0]) &&
      (forall k :: k != req.outputKey ==> Get(out.1, k) == Get(st, k))
  {
    match Get(st, req.outputKey)
    case Err(f) => (Failure(f), st)
    case Ok(json) =>
      match decode(json)
      case Err(f) => (InternalServerError(f.message), st)
      case Ok(transcripts) =>
        if |transcripts| == 0 then (InternalServerError("list index out of range"), st)
        else match Put(st, req.outputKey, transcripts[0])
          case Err(f) => (Failure(f), st)
          case Ok(st') => (Transcribed(req.jobName, S3Uri(bucket, req.outputKey), bucket, OriginalFilename(key)), st')
  }

  /** When the save succeeds and how it fails: it succeeds exactly when the
      output reads, decodes to at least one transcript, and the first one can
      be written back; a failed read or write is reported through the
      exception handlers, and an envelope without transcripts is an
      unexpected error. */
  lemma SaveTranscriptOutcome(st: Store, bucket: string, key: string, req: JobRequest,
                              decode: string -> Result<seq<string>>)
    ensures var out := SaveTranscript(st, bucket, key, req, decode);
      var got := Get(st, req.outputKey);
      (out.0.Transcribed? <==>
         got.Ok? && decode(got.value).Ok? && |decode(got.value).value| > 0 &&
         Put(st, req.outputKey, decode(got.value).value[0]).Ok?) &&
      (got.Err? ==> out.0 == Failure(got.fault)) &&
      (got.Ok? && decode(got.value).Ok? && |decode(got.value).value| > 0 &&
       Put(st, req.outputKey, decode(got.value).value[0]).Err? ==>
         out.0 == Failure(Put(st, req.outputKey, decode(got.value).value[0]).fault)) &&
      (got.Ok? && decode(got.value).Err? ==> out.0 == InternalServerError(decode(got.value).fault.message)) &&
      (got.Ok? && decode(got.value) == Ok([]) ==> out.0 == InternalServerError("list index out of range"))
  {
  }

  /** The get, decode and put of a completed job, in the handler's order. */
  method StoreTranscript(st: Store, bucket: string, key: string, req: JobRequest,
                         decode: string -> Result<seq<string>>)
    returns (resp: Response, st': Store)
    ensures (resp, st') == SaveTranscript(st, bucket, key, req, decode)
  {
    st' := st;
    var got := Get(st, req.outputKey);
    if got.Err? {
      return Failure(got.fault), st';
    }
    var decoded := decode(got.value);
    if decoded.Err? {
      return InternalServerError(decoded.fault.message), st';
    }
    if |decoded.value| == 0 {
      return InternalServerError("list index out of range"), st';
    }
    var put := Put(st, req.outputKey, decoded.value[0]);
    if put.Err? {
      return Failure(put.fault), st';
    }
    st' := put.value;
    resp := Transcribed(req.jobName, S3Uri(bucket, req.outputKey), bucket, OriginalFilename(key));
  }

  /** The handler. `epoch` and `ts` are the clock readings, `start` the
      outcome of `start_transcription_job`, `polls` the successive answers of
      `get_transcription_job`. Returns the response, the job submitted if
      any, and the store afterwards. */
  method Handle(event: Event, st: Store, epoch: nat, ts: string, start: Result<()>,
                polls: seq<Result<JobSnapshot>>, decode: string -> Result<seq<string>>)
    returns (resp: Response, submitted: Option<JobRequest>, st': Store)
    ensures resp == MissingEventKey <==> event.bucket.None? || event.key.None?
    ensures submitted.Some? <==> event.bucket.Some? && event.key.Some? && Head(st, event.key.value).Ok?
    ensures submitted.Some? ==> submitted.value == Request(event.bucket.value, event.key.value, epoch, ts)
    ensures event.bucket.Some? && event.key.Some? && Head(st, event.key.value).Err? ==>
              resp == Failure(Head(st, event.key.value).fault)
    ensures submitted.Some? && start.Err? ==> resp == Failure(start.fault)
    ensures submitted.Some? && start.Ok? && PollOutcome(polls).PollFault? ==>
              resp == Failure(PollOutcome(polls).fault)
    ensures submitted.Some? && start.Ok? && PollOutcome(polls).Exhausted? ==> resp == StillPolling
    ensures resp.JobFailed? <==>
              submitted.Some? && start.Ok? && PollOutcome(polls).Terminal? &&
              PollOutcome(polls).snapshot.status != "COMPLETED"
    ensures resp.JobFailed? ==> resp.reason == PollOutcome(polls).snapshot.failureReason.GetOr("Unknown error")
    ensures submitted.Some? && start.Ok? && PollOutcome(polls).Terminal? &&
            PollOutcome(polls).snapshot.status == "COMPLETED" &&
            PollOutcome(polls).snapshot.transcriptFileUri.None? ==>
              resp == InternalServerError("'TranscriptFileUri'")
    ensures Completed(event, st, start, polls) ==>
              (resp, st') == SaveTranscript(st, event.bucket.value, event.key.value, submitted.value, decode)
    ensures resp.Transcribed? ==> Completed(event, st, start, polls) && resp.jobName == submitted.value.jobName
    ensures !resp.Transcribed? ==> st' == st
  {
    st' := st;
    submitted := None;
    if event.bucket.None? || event.key.None? {
      return MissingEventKey, submitted, st';
    }
    var bucket, key := event.bucket.value, event.key.value;
    var originalFilename := OriginalFilename(key);
    var baseName := Stem(originalFilename);
    var jobName := JobName(baseName, epoch);

    var head := Head(st, key);
    if head.Err? {
      return Failure(head.fault), submitted, st';
    }
    var transcriptKey := TranscriptKey(baseName, ts);
    submitted := Some(Request(bucket, key, epoch, ts));
    if start.Err? {
      return Failure(start.fault), submitted, st';
    }

    var end := PollUntilTerminal(polls);
    match end
    case Exhausted =>
      resp := StillPolling;
    case PollFault(_, f) =>
      resp := Failure(f);
    case Terminal(_, snapshot) =>
      if snapshot.status != "COMPLETED" {
        resp := JobFailed(snapshot.failureReason.GetOr("Unknown error"));
      } else if snapshot.transcriptFileUri.None? {
        resp := InternalServerError("'TranscriptFileUri'");
      } else {
        resp, st' := StoreTranscript(st, bucket, key, submitted.value, decode);
      }
  }
}
