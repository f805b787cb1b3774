/** The translation status check: for each target language, looks up the URI
    the translation stage recorded, turns it back into a key and asks the
    store whether that object exists. The overall status is COMPLETED exactly
    when every target language's translation exists, and IN_PROGRESS
    otherwise. */
module StatusTranslation {
  import opened Common
  import opened Naming

  /** The fields of the JSON body the handler reads; `targetLanguages` is
      `Some` exactly when the body has that key. */
  datatype Body = Body(originalFilename: Option<string>, results: Option<map<string, string>>,
                       targetLanguages: Option<seq<string>>)

  /** The fields of the invocation event; a missing body reads as `'{}'`. */
  datatype Event = Event(bucket: Option<string>, targetLanguages: Option<seq<string>>, body: Option<Parsed<Body>>)

  datatype Response =
    | InvalidBody                     // 400 'Invalid body format.'
    | Raised                          // the body is JSON but not an object
    | MissingParameters               // 400 'Bucket, original filename, and target languages are required.'
    | UnexpectedError                 // 500 'An unexpected error occurred.'
    | Checked(bucket: string, key: string, targetLanguages: seq<string>,
              results: map<string, string>, originalFilename: string, status: string)

  /** What the check finds for one language. `Aborted` is a failure that is
      not a `ClientError`, which ends the whole check. */
  datatype Verdict = Exists | Missing | CheckFailed | Aborted

  const Completed: string := "COMPLETED"
  const InProgress: string := "IN_PROGRESS"

  function BodyOf(event: Event): Parsed<Body>
  {
    event.body.GetOr(Decoded(Body(None, None, None)))
  }

  /** `target_languages` in the body, when present, replaces the event's. */
  function LanguagesOf(event: Event, body: Body): (langs: seq<string>)
    ensures body.targetLanguages.Some? ==> langs == body.targetLanguages.value
    ensures body.targetLanguages.None? ==> langs == event.targetLanguages.GetOr([])
  {
    match body.targetLanguages
    case Some(langs) => langs
    case None => event.targetLanguages.GetOr([])
  }

  /** `url.replace(f"s3://{bucket}/", "")`, the key a recorded URL names. */
  function KeyParser(bucket: string): string -> string
  {
    url => TranslationKeyOf(url, bucket)
  }

  /** The check of one language against the recorded URIs, `keyOf` turning a
      URI into a key. */
  function VerdictFor(st: Store, keyOf: string -> string, results: map<string, string>, lang: string): Verdict
  {
    if lang !in results || results[lang] == "" then Missing
    else match Head(st, keyOf(results[lang]))
      case Ok(_) => Exists
      case Err(ClientError(code, _)) => if code == NotFoundCode then Missing else CheckFailed
      case Err(OtherError(_)) => Aborted
  }

  /** The message recorded for a language. */
  function Message(v: Verdict, lang: string): (msg: string)
    requires v != Aborted
    ensures v == Exists ==> msg == "Translation exists for " + lang + "."
    ensures v == Missing ==> msg == "Translation not found for " + lang + "."
    ensures v == CheckFailed ==> msg == "Error checking status for " + lang + "."
  {
    match v
    case Exists => "Translation exists for " + lang + "."
    case Missing => "Translation not found for " + lang + "."
    case CheckFailed => "Error checking status for " + lang + "."
  }

  /** Some language among `langs` aborts the check. */
  function Stopped(st: Store, keyOf: string -> string, results: map<string, string>, langs: seq<string>): bool
  {
    langs != [] &&
    (Stopped(st, keyOf, results, langs[..|langs| - 1]) || VerdictFor(st, keyOf, results, langs[|langs| - 1]) == Aborted)
  }

  /** The messages recorded for `langs`, the later of two equal languages
      overwriting the earlier. */
  function Messages(st: Store, keyOf: string -> string, results: map<string, string>, langs: seq<string>): map<string, string>
    requires !Stopped(st, keyOf, results, langs)
  {
    if langs == [] then map[]
    else
      var last := langs[|langs| - 1];
      Messages(st, keyOf, results, langs[..|langs| - 1])[last := Message(VerdictFor(st, keyOf, results, last), last)]
  }

  /** The flag after `langs`: no language has lowered it. */
  function AllFound(st: Store, keyOf: string -> string, results: map<string, string>, langs: seq<string>): bool
  {
    langs == [] ||
    (AllFound(st, keyOf, results, langs[..|langs| - 1]) && VerdictFor(st, keyOf, results, langs[|langs| - 1]) == Exists)
  }

  /** The check aborts exactly when some language's verdict does. */
  lemma {:induction false} StoppedIff(st: Store, keyOf: string -> string, results: map<string, string>, langs: seq<string>)
    ensures Stopped(st, keyOf, results, langs) <==>
      exists i | 0 <= i < |langs| :: VerdictFor(st, keyOf, results, langs[i]) == Aborted
  {
    if langs != [] {
      var prefix := langs[..|langs| - 1];
      StoppedIff(st, keyOf, results, prefix);
      assert forall i | 0 <= i < |prefix| :: prefix[i] == langs[i];
    }
  }

  /** Every language gets a message, and nothing else does. */
  lemma {:induction false} MessagesKeys(st: Store, keyOf: string -> string, results: map<string, string>,
                                        langs: seq<string>)
    requires !Stopped(st, keyOf, results, langs)
    ensures forall lang :: lang in Messages(st, keyOf, results, langs) <==> lang in langs
  {
    if langs != [] {
      var prefix := langs[..|langs| - 1];
      MessagesKeys(st, keyOf, results, prefix);
      assert langs == prefix + [langs[|langs| - 1]];
    }
  }

  /** Each language's message is the one its verdict calls for. */
  lemma {:induction false} MessagesValues(st: Store, keyOf: string -> string, results: map<string, string>,
                                          langs: seq<string>)
    requires !Stopped(st, keyOf, results, langs)
    ensures forall i | 0 <= i < |langs| ::
      var m := Messages(st, keyOf, results, langs);
      langs[i] in m && VerdictFor(st, keyOf, results, langs[i]) != Aborted &&
      m[langs[i]] == Message(VerdictFor(st, keyOf, results, langs[i]), langs[i])
  {
    if langs != [] {
      var prefix := langs[..|langs| - 1];
      MessagesValues(st, keyOf, results, prefix);
      assert forall i | 0 <= i < |prefix| :: prefix[i] == langs[i];
    }
  }

  /** The flag stays up exactly when every language's translation exists. */
  lemma {:induction false} AllFoundIff(st: Store, keyOf: string -> string, results: map<string, string>, langs: seq<string>)
    ensures AllFound(st, keyOf, results, langs) <==>
      forall i | 0 <= i < |langs| :: VerdictFor(st, keyOf, results, langs[i]) == Exists
  {
    if langs != [] {
      var prefix := langs[..|langs| - 1];
      AllFoundIff(st, keyOf, results, prefix);
      assert forall i | 0 <= i < |prefix| :: prefix[i] == langs[i];
    }
  }

  /** The `for` loop over the target languages: fills in the messages and
      lowers the flag on every language whose translation is not found. */
  method CheckAll(st: Store, keyOf: string -> string, results: map<string, string>, langs: seq<string>)
    returns (aborted: bool, messages: map<string, string>, allExist: bool)
    ensures aborted == Stopped(st, keyOf, results, langs)
    ensures !aborted ==> messages == Messages(st, keyOf, results, langs)
    ensures !aborted ==> allExist == AllFound(st, keyOf, results, langs)
  {
    aborted, messages, allExist := false, map[], true;
    for n := 0 to |langs|
      invariant !Stopped(st, keyOf, results, langs[..n])
      invariant messages == Messages(st, keyOf, results, langs[..n])
      invariant allExist == AllFound(st, keyOf, results, langs[..n])
    {
      var lang := langs[n];
      assert langs[..n + 1][..n] == langs[..n];
      var stop, msg, found := CheckOne(st, keyOf, results, lang);
      if stop {
        StoppedLater(st, keyOf, results, langs, n + 1);
        return true, messages, allExist;
      }
      messages := messages[lang := msg];
      allExist := allExist && found;
    }
    assert langs[..|langs|] == langs;
  }

  /** Once some prefix stops the check, the whole list does. */
  lemma {:induction false} StoppedLater(st: Store, keyOf: string -> string, results: map<string, string>,
                                        langs: seq<string>, n: nat)
    requires n <= |langs| && Stopped(st, keyOf, results, langs[..n])
    ensures Stopped(st, keyOf, results, langs)
    decreases |langs| - n
  {
    if n < |langs| {
      assert langs[..n + 1][..n] == langs[..n];
      StoppedLater(st, keyOf, results, langs, n + 1);
    } else {
      assert langs[..n] == langs;
    }
  }

  /** The loop body for one language: the lookup of its URI and the
      `head_object` call with its `except ClientError` handler. `stop` is an
      exception that escapes to the handler's outer `except Exception`. */
  method CheckOne(st: Store, keyOf: string -> string, results: map<string, string>, lang: string)
    returns (stop: bool, msg: string, found: bool)
    ensures stop <==> VerdictFor(st, keyOf, results, lang) == Aborted
    ensures !stop ==> msg == Message(VerdictFor(st, keyOf, results, lang), lang)
    ensures found <==> VerdictFor(st, keyOf, results, lang) == Exists
  {
    stop, msg, found := false, "", false;
    if lang in results && results[lang] != "" {
      var key := keyOf(results[lang]);
      var head := Head(st, key);
      match head
      case Ok(_) =>
        msg, found := "Translation exists for " + lang + ".", true;
      case Err(ClientError(code, _)) =>
        if code == NotFoundCode {
          msg := "Translation not found for " + lang + ".";
        } else {
          msg := "Error checking status for " + lang + ".";
        }
      case Err(OtherError(_)) =>
        stop := true;
    } else {
      msg := "Translation not found for " + lang + ".";
    }
  }

  /** The handler. */
  method Handle(event: Event, st: Store) returns (resp: Response)
    ensures resp == InvalidBody <==> BodyOf(event).BadJson?
    ensures resp == Raised <==> BodyOf(event).NotAnObject?
    ensures resp == MissingParameters <==>
      BodyOf(event).Decoded? &&
      (!Truthy(event.bucket) || !Truthy(BodyOf(event).value.originalFilename) ||
       LanguagesOf(event, BodyOf(event).value) == [])
    ensures resp.UnexpectedError? || resp.Checked? ==>
      var body := BodyOf(event).value;
      var langs := LanguagesOf(event, body);
      var results := body.results.GetOr(map[]);
      (resp.UnexpectedError? <==>
         exists i | 0 <= i < |langs| :: VerdictFor(st, KeyParser(event.bucket.value), results, langs[i]) == Aborted) &&
      (resp.Checked? ==>
         resp.bucket == event.bucket.value && resp.targetLanguages == langs &&
         resp.originalFilename == body.originalFilename.value &&
         resp.key == "audio_inputs/" + body.originalFilename.value &&
         (forall lang :: lang in resp.results <==> lang in langs) &&
         (forall i | 0 <= i < |langs| ::
            resp.results[langs[i]] == Message(VerdictFor(st, KeyParser(event.bucket.value), results, langs[i]), langs[i])) &&
         (resp.status == Completed <==>
            forall i | 0 <= i < |langs| :: VerdictFor(st, KeyParser(event.bucket.value), results, langs[i]) == Exists) &&
         (resp.status == Completed || resp.status == InProgress))
  {
    var body;
    match BodyOf(event)
    case BadJson => return InvalidBody;
    case NotAnObject => return Raised;
    case Decoded(b) => body := b;
    var langs := LanguagesOf(event, body);
    if !Truthy(event.bucket) || !Truthy(body.originalFilename) || langs == [] {
      return MissingParameters;
    }
    var bucket, filename := event.bucket.value, body.originalFilename.value;
    var results := body.results.GetOr(map[]);
    var aborted, messages, allExist := CheckAll(st, KeyParser(bucket), results, langs);
    StoppedIff(st, KeyParser(bucket), results, langs);
    if aborted {
      return UnexpectedError;
    }
    MessagesKeys(st, KeyParser(bucket), results, langs);
    MessagesValues(st, KeyParser(bucket), results, langs);
    AllFoundIff(st, KeyParser(bucket), results, langs);
    var status := if allExist then Completed else InProgress;
    resp := Checked(bucket, "audio_inputs/" + filename, langs, messages, filename, status);
  }
}
