/** The transcription status check: guard clauses on the job name and on an
    error reported by the previous stage, then one query of the job, whose
    status it passes through together with the transcript URI and the names
    the next stage needs. */
module StatusTranscription {
  import opened Common
  import opened Naming
  import Transcribe

  /** The JSON body the previous stage produced, as far as `'error' in body`
      and `body['message']` tell it apart: an object, with whether it has an
      `error` key and its `message`, or an array or a string, with whether
      `'error'` is one of its elements or a substring of it (indexing it by
      `'message'` then raises). A number, a boolean or null, on which `in`
      raises, is `NotAnObject`. */
  datatype UpstreamBody =
    | Object(hasError: bool, message: Option<string>)
    | Sequence(hasError: bool)

  /** `event['transcriptionResult']`: the job name and the body; a missing
      body reads as `'{}'`. */
  datatype TranscriptionResult = TranscriptionResult(jobName: Option<string>, body: Option<Parsed<UpstreamBody>>)

  datatype Event = Event(transcriptionResult: Option<TranscriptionResult>, bucket: Option<string>, key: Option<string>)

  datatype Response =
    | Failed(message: string)        // {'status': 'FAILED', 'message': ...}
    | Reported(status: string, transcriptUri: Option<string>, bucket: Option<string>,
               originalFilename: Option<string>, jobName: string)
    | Raised                         // an exception escapes the handler

  /** The response and the job name the engine was asked about, if any. */
  datatype Outcome = Outcome(response: Response, queried: Option<string>)

  const JobNameRequired: string := "Job name is required."
  const EngineClientFailure: string := "An error occurred while checking the transcription job."
  const EngineUnexpectedFailure: string := "An unexpected error occurred."

  /** The body after `json.loads(transcription_result.get('body', '{}'))`. */
  function BodyOf(result: TranscriptionResult): (body: Parsed<UpstreamBody>)
    ensures result.body.None? ==> body == Decoded(Object(false, None))
    ensures result.body.Some? ==> body == result.body.value
  {
    result.body.GetOr(Decoded(Object(false, None)))
  }

  /** `key.split('/')[-1] if key else None`. */
  function FilenameOf(key: Option<string>): (name: Option<string>)
    ensures name.Some? <==> Truthy(key)
    ensures name.Some? ==> '/' !in name.value
    // the name is the last `/`-separated segment of the key: all of it, or
    // the suffix right after its last `/`
    ensures name.Some? && '/' !in key.value ==> name.value == key.value
    ensures name.Some? && '/' in key.value ==>
      |name.value| < |key.value| && key.value[|key.value| - |name.value|..] == name.value &&
      key.value[|key.value| - |name.value| - 1] == '/'
  {
    if Truthy(key) then
      OriginalFilenameIsLastSegment(key.value);
      Some(OriginalFilename(key.value))
    else None
  }

  /** The handler. `engine` is the answer `get_transcription_job` gives for
      the job name, used only when the handler asks. */
  function Check(event: Event, engine: Result<Transcribe.JobSnapshot>): (out: Outcome)
    // the job name is required, and nothing is asked without one
    ensures var result := event.transcriptionResult.GetOr(TranscriptionResult(None, None));
      !Truthy(result.jobName) ==> out == Outcome(Failed(JobNameRequired), None)
    // the engine is asked only past both guards, and about that job name
    ensures out.queried.Some? ==>
      var result := event.transcriptionResult.value;
      Truthy(result.jobName) && out.queried.value == result.jobName.value &&
      BodyOf(result).Decoded? && !BodyOf(result).value.hasError
    // ... and it is asked whenever both guards pass, even about a body that
    // is an array or a string
    ensures var result := event.transcriptionResult.GetOr(TranscriptionResult(None, None));
      Truthy(result.jobName) && BodyOf(result).Decoded? && !BodyOf(result).value.hasError ==>
        out.queried == Some(result.jobName.value)
    // a body `json.loads` rejects, or one `in` cannot search, raises unasked
    ensures var result := event.transcriptionResult.GetOr(TranscriptionResult(None, None));
      Truthy(result.jobName) && !BodyOf(result).Decoded? ==> out == Outcome(Raised, None)
    // an error from the previous stage is reported with its message, unasked;
    // an error body with no `message`, or one that is not an object, raises
    ensures var result := event.transcriptionResult.GetOr(TranscriptionResult(None, None));
      Truthy(result.jobName) && BodyOf(result).Decoded? && BodyOf(result).value.hasError ==>
        out.queried.None? &&
        out.response == (if BodyOf(result).value.Object? && BodyOf(result).value.message.Some?
                         then Failed(BodyOf(result).value.message.value) else Raised)
    // a failing engine call is reported with a fixed message
    ensures out.queried.Some? && engine.Err? ==>
      out.response == Failed(if engine.fault.ClientError? then EngineClientFailure else EngineUnexpectedFailure)
    // the engine's status is passed through unchanged ...
    ensures out.response.Reported? ==>
      out.queried.Some? && engine.Ok? && out.response.status == engine.value.status &&
      out.response.jobName == out.queried.value
    // ... with a transcript URI exactly when the job is COMPLETED ...
    ensures out.response.Reported? ==>
      (out.response.transcriptUri.Some? <==> out.response.status == "COMPLETED") &&
      (out.response.transcriptUri.Some? ==> out.response.transcriptUri == engine.value.transcriptFileUri)
    // ... and the names of the event
    ensures out.response.Reported? ==>
      out.response.bucket == event.bucket && out.response.originalFilename == FilenameOf(event.key)
    // a COMPLETED job without a transcript URI is an unexpected error
    ensures out.queried.Some? && engine.Ok? && engine.value.status == "COMPLETED" &&
            engine.value.transcriptFileUri.None? ==>
      out.response == Failed(EngineUnexpectedFailure)
    // the only way to be asked and not report is a failed call or a COMPLETED job without a URI
    ensures out.queried.Some? && !out.response.Reported? ==>
      engine.Err? || (engine.value.status == "COMPLETED" && engine.value.transcriptFileUri.None?)
  {
    var result := event.transcriptionResult.GetOr(TranscriptionResult(None, None));
    if !Truthy(result.jobName) then Outcome(Failed(JobNameRequired), None)
    else
      var jobName := result.jobName.value;
      match BodyOf(result)
      case BadJson => Outcome(Raised, None)
      case NotAnObject => Outcome(Raised, None)
      case Decoded(body) =>
        if body.hasError then
          Outcome(if body.Object? && body.message.Some? then Failed(body.message.value) else Raised, None)
        else
          var response :=
            match engine
            case Err(ClientError(_, _)) => Failed(EngineClientFailure)
            case Err(OtherError(_)) => Failed(EngineUnexpectedFailure)
            case Ok(job) =>
              if job.status == "COMPLETED" && job.transcriptFileUri.None? then Failed(EngineUnexpectedFailure)
              else
                var uri := if job.status == "COMPLETED" then job.transcriptFileUri else None;
                Reported(job.status, uri, event.bucket, FilenameOf(event.key), jobName);
          Outcome(response, Some(jobName))
  }
}
