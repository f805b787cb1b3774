/** The synthesis status check: for each language the synthesis stage
    reported, turns the recorded audio key (or `s3://` URI) into a key and asks
    the store whether that object exists. It reports one status per language
    and no overall status. */
module StatusSynthesis {
  import opened Common
  import opened Naming

  /** The fields of the JSON body the check reads: `results`, by language. */
  datatype Body = Body(results: Option<map<string, string>>)

  /** `event.get('synthesisResult', {})`: a value that is not a dict, or a
      dict with or without a `body`. */
  datatype SynthesisResult = NotADict | Dict(body: Option<Parsed<Body>>)

  datatype Event = Event(bucket: Option<string>, synthesisResult: Option<SynthesisResult>)

  datatype Response =
    | MissingBucket                    // 400 'No bucket name provided'
    | InvalidFormat                    // 400 'Invalid synthesisResult format'
    | InvalidJson                      // 400 'Invalid JSON in synthesisResult body'
    | Raised                           // an exception escapes the handler
    | Complete(audioStatuses: map<string, string>) // {'synthesisComplete': {'statusCode': 200, ...}}

  const StatusExists: string := "EXISTS"
  const StatusNotFound: string := "NOT_FOUND"
  const ErrorPrefix: string := "ERROR: "

  /** The status of one recorded audio key, `keyOf` turning it into a key, or
      `None` when the check raises on it. */
  function AudioStatus(st: Store, keyOf: string -> Option<string>, audioKey: string): Option<string>
  {
    match keyOf(audioKey)
    case None => None
    case Some(key) =>
      match Head(st, key)
      case Ok(_) => Some(StatusExists)
      case Err(ClientError(code, message)) =>
        if code == NotFoundCode then Some(StatusNotFound) else Some(ErrorPrefix + message)
      case Err(OtherError(_)) => None
  }

  /** A status is `EXISTS` exactly when the parsed key is stored, `NOT_FOUND`
      exactly when the store answers 404, and `ERROR: ` followed by the text
      of any other `ClientError`; the check raises exactly when the key cannot
      be parsed or the store fails with something other than a `ClientError`. */
  lemma AudioStatusMeaning(st: Store, keyOf: string -> Option<string>, audioKey: string)
    ensures var status := AudioStatus(st, keyOf, audioKey);
      (status == Some(StatusExists) <==> keyOf(audioKey).Some? && Head(st, keyOf(audioKey).value).Ok?) &&
      (status == Some(StatusNotFound) <==> keyOf(audioKey).Some? && IsNotFound(Head(st, keyOf(audioKey).value))) &&
      (status.None? <==>
         keyOf(audioKey).None? ||
         (Head(st, keyOf(audioKey).value).Err? && Head(st, keyOf(audioKey).value).fault.OtherError?)) &&
      (status.Some? && status.value != StatusExists && status.value != StatusNotFound ==>
         var head := Head(st, keyOf(audioKey).value);
         head.Err? && head.fault.ClientError? && head.fault.code != NotFoundCode &&
         status.value == ErrorPrefix + head.fault.message)
  {
    if keyOf(audioKey).Some? {
      var head := Head(st, keyOf(audioKey).value);
      if head.Err? && head.fault.ClientError? && head.fault.code != NotFoundCode {
        var text := ErrorPrefix + head.fault.message;
        assert text[1] == 'R' && StatusExists[1] == 'X' && StatusNotFound[1] == 'O';
      }
    }
  }

  /** The check of one recorded audio key against the store. */
  function Checker(st: Store): string -> Option<string>
  {
    audioKey => AudioStatus(st, AudioKeyOf, audioKey)
  }

  /** The loop over the recorded results, in the dict's order, which the
      outcome does not depend on: it raises exactly when `check` raises on
      some language's key, and otherwise every language, and no other, has
      its own status. */
  method CheckAll(check: string -> Option<string>, results: map<string, string>)
    returns (raised: bool, statuses: map<string, string>)
    ensures raised <==> exists lang | lang in results :: check(results[lang]).None?
    ensures !raised ==>
      statuses.Keys == results.Keys &&
      forall lang | lang in results :: Some(statuses[lang]) == check(results[lang])
  {
    statuses := map[];
    var remaining := results.Keys;
    while remaining != {}
      invariant remaining <= results.Keys
      invariant statuses.Keys == results.Keys - remaining
      invariant forall lang | lang in statuses :: Some(statuses[lang]) == check(results[lang])
      decreases |remaining|
    {
      var lang :| lang in remaining;
      var status := check(results[lang]);
      if status.None? {
        return true, statuses;
      }
      statuses := statuses[lang := status.value];
      remaining := remaining - {lang};
    }
    raised := false;
  }

  /** The handler. */
  method Handle(event: Event, st: Store) returns (resp: Response)
    ensures resp == MissingBucket <==> !Truthy(event.bucket)
    ensures resp == InvalidFormat <==>
      Truthy(event.bucket) && event.synthesisResult.GetOr(Dict(None)) in {NotADict, Dict(None)}
    ensures resp == InvalidJson <==> Truthy(event.bucket) && event.synthesisResult.GetOr(Dict(None)) == Dict(Some(BadJson))
    ensures resp.Complete? ==>
      event.synthesisResult.Some? && event.synthesisResult.value.Dict? &&
      event.synthesisResult.value.body.Some? && event.synthesisResult.value.body.value.Decoded? &&
      var results := event.synthesisResult.value.body.value.value.results.GetOr(map[]);
      resp.audioStatuses.Keys == results.Keys &&
      forall lang | lang in results :: Some(resp.audioStatuses[lang]) == AudioStatus(st, AudioKeyOf, results[lang])
    ensures resp == Raised <==>
      Truthy(event.bucket) &&
      match event.synthesisResult.GetOr(Dict(None))
      case Dict(Some(NotAnObject)) => true
      case Dict(Some(Decoded(body))) =>
        var results := body.results.GetOr(map[]);
        exists lang | lang in results :: AudioStatus(st, AudioKeyOf, results[lang]).None?
      case _ => false
  {
    if !Truthy(event.bucket) {
      return MissingBucket;
    }
    var body;
    match event.synthesisResult.GetOr(Dict(None))
    case NotADict => return InvalidFormat;
    case Dict(None) => return InvalidFormat;
    case Dict(Some(BadJson)) => return InvalidJson;
    case Dict(Some(NotAnObject)) => return Raised;
    case Dict(Some(Decoded(b))) => body := b;
    var raised, statuses := CheckAll(Checker(st), body.results.GetOr(map[]));
    resp := if raised then Raised else Complete(statuses);
  }
}
