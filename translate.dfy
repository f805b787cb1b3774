/** The translation stage: recovers the transcript's key from the URL the
    transcription engine reported, reads the transcript once, and translates
    it into each target language in turn. Each language gets one entry in
    the results, either the `s3://` URI of its stored translation or the
    text of the error it met; no language's failure stops the others. */
module Translate {
  import opened Common
  import opened Naming

  /** The fields of the invocation event the handler reads. */
  datatype Event = Event(
    transcriptUri: Option<string>,
    targetLanguages: Option<seq<string>>,
    bucket: Option<string>,
    originalFilename: Option<string>)

  datatype Response =
    | Raised                               // `KeyError` on a missing event field
    | InvalidTranscriptUri                 // 400 'Invalid transcript URI.'
    | TranscriptUnavailable(message: string) // 500 {'error': str(e)}
    | UnexpectedError                      // 500 'An unexpected error occurred'
    | Translated(bucket: string, key: string, targetLanguages: seq<string>,
                 results: map<string, string>, originalFilename: Option<string>)

  /** `translate_text(Text=text, SourceLanguageCode='en', TargetLanguageCode=lang)['TranslatedText']`. */
  type Translator = (string, string) -> Result<string>

  /** The text `str(e)` of the `AttributeError` that `None.split` raises. */
  const NoneSplitError: string := "'NoneType' object has no attribute 'split'"

  /** How the per-language handlers record an error. */
  function FailureEntry(f: Fault, lang: string): (entry: string)
    ensures f.ClientError? ==> entry == "Translation failed for " + lang + ". Error: " + f.message
    ensures f.OtherError? ==> entry == "Translation not found for " + lang + ". Error: " + f.message
  {
    match f
    case ClientError(_, msg) => "Translation failed for " + lang + ". Error: " + msg
    case OtherError(msg) => "Translation not found for " + lang + ". Error: " + msg
  }

  /** The key under which the translation into `lang` is stored, or `None`
      when the original file name is missing and `None.split` raises. */
  function TranslationKeyFor(filename: Option<string>, lang: string, ts: string): (key: Option<string>)
    ensures key.Some? <==> filename.Some?
    ensures key.Some? ==> key.value != ""
  {
    if filename.None? then None else Some(TranslationKey(Stem(filename.value), lang, ts))
  }

  /** What one language's attempt records, determined by the translator and
      by which keys refuse writes, and by nothing the other languages did. */
  function Entry(writeFaults: map<string, Fault>, bucket: string, filename: Option<string>, text: string,
                 lang: string, ts: string, translate: Translator): string
  {
    match translate(text, lang)
    case Err(f) => FailureEntry(f, lang)
    case Ok(_) =>
      match TranslationKeyFor(filename, lang, ts)
      case None => "Translation not found for " + lang + ". Error: " + NoneSplitError
      case Some(key) =>
        if key in writeFaults then FailureEntry(writeFaults[key], lang) else S3Uri(bucket, key)
  }

  /** One pass of the loop body: translate, name the object, store it. */
  function Attempt(st: Store, bucket: string, filename: Option<string>, text: string,
                   lang: string, ts: string, translate: Translator): (out: (string, Store))
    ensures out.1.readFaults == st.readFaults && out.1.writeFaults == st.writeFaults
    ensures out.0 == Entry(st.writeFaults, bucket, filename, text, lang, ts, translate)
    ensures var key := TranslationKeyFor(filename, lang, ts);
      if translate(text, lang).Ok? && key.Some? && key.value !in st.writeFaults
      then Put(st, key.value, translate(text, lang).value) == Ok(out.1)
      else out.1 == st
  {
    match translate(text, lang)
    case Err(f) => (FailureEntry(f, lang), st)
    case Ok(translated) =>
      match TranslationKeyFor(filename, lang, ts)
      case None => ("Translation not found for " + lang + ". Error: " + NoneSplitError, st)
      case Some(key) =>
        match Put(st, key, translated)
        case Err(f) => (FailureEntry(f, lang), st)
        case Ok(st') => (S3Uri(bucket, key), st')
  }

  /** The results and the store after the first `n` languages; the `i`-th
      language is stamped with the clock's `i`-th reading. */
  function FanOut(st: Store, bucket: string, filename: Option<string>, text: string, langs: seq<string>,
                  clock: nat -> string, translate: Translator, n: nat): (out: (map<string, string>, Store))
    requires n <= |langs|
    ensures out.1.readFaults == st.readFaults && out.1.writeFaults == st.writeFaults
  {
    if n == 0 then (map[], st)
    else
      var (results, st') := FanOut(st, bucket, filename, text, langs, clock, translate, n - 1);
      var (entry, st'') := Attempt(st', bucket, filename, text, langs[n - 1], clock(n - 1), translate);
      (results[langs[n - 1] := entry], st'')
  }

  /** Every language tried has exactly one entry, and there are no others. */
  lemma {:induction false} FanOutKeys(st: Store, bucket: string, filename: Option<string>, text: string,
                                      langs: seq<string>, clock: nat -> string, translate: Translator, n: nat)
    requires n <= |langs|
    ensures FanOut(st, bucket, filename, text, langs, clock, translate, n).0.Keys == set i | 0 <= i < n :: langs[i]
  {
    if n > 0 {
      FanOutKeys(st, bucket, filename, text, langs, clock, translate, n - 1);
      assert (set i | 0 <= i < n :: langs[i]) == (set i | 0 <= i < n - 1 :: langs[i]) + {langs[n - 1]};
    }
  }

  /** Every one of the first `n` languages not tried again later has the
      entry its own attempt gives. */
  predicate AllEntries(st: Store, bucket: string, filename: Option<string>, text: string,
                       langs: seq<string>, clock: nat -> string, translate: Translator, n: nat)
    requires n <= |langs|
  {
    var out := FanOut(st, bucket, filename, text, langs, clock, translate, n);
    forall i | 0 <= i < n && (forall j | i < j < n :: langs[j] != langs[i]) ::
      langs[i] in out.0 && out.0[langs[i]] == Entry(st.writeFaults, bucket, filename, text, langs[i], clock(i), translate)
  }

  /** The `n`-th pass keeps the entries of the languages it does not retry
      and adds its own. */
  lemma FanOutEntriesStep(st: Store, bucket: string, filename: Option<string>, text: string,
                          langs: seq<string>, clock: nat -> string, translate: Translator, n: nat)
    requires 0 < n <= |langs|
    requires AllEntries(st, bucket, filename, text, langs, clock, translate, n - 1)
    ensures AllEntries(st, bucket, filename, text, langs, clock, translate, n)
  {
    var before := FanOut(st, bucket, filename, text, langs, clock, translate, n - 1);
    var last := langs[n - 1];
    var attempt := Attempt(before.1, bucket, filename, text, last, clock(n - 1), translate);
    var after := FanOut(st, bucket, filename, text, langs, clock, translate, n);
    assert after.0 == before.0[last := attempt.0];
    forall i | 0 <= i < n && (forall j | i < j < n :: langs[j] != langs[i])
      ensures langs[i] in after.0 &&
              after.0[langs[i]] == Entry(st.writeFaults, bucket, filename, text, langs[i], clock(i), translate)
    {
      if i < n - 1 {
        assert langs[n - 1] != langs[i];
      }
    }
  }

  /** A language's entry is what its own last attempt gives, whatever the
      attempts for the other languages met. */
  lemma {:induction false} FanOutEntries(st: Store, bucket: string, filename: Option<string>, text: string,
                                         langs: seq<string>, clock: nat -> string, translate: Translator, n: nat)
    requires n <= |langs|
    ensures AllEntries(st, bucket, filename, text, langs, clock, translate, n)
  {
    if n > 0 {
      FanOutEntries(st, bucket, filename, text, langs, clock, translate, n - 1);
      FanOutEntriesStep(st, bucket, filename, text, langs, clock, translate, n);
    }
  }

  /** The translation into `lang` was stored: if the attempt could succeed,
      the entry is the URI of an object holding the translated text. */
  predicate Recorded(results: map<string, string>, objects: map<string, string>, writeFaults: map<string, Fault>,
                     bucket: string, filename: Option<string>, text: string, lang: string, ts: string,
                     translate: Translator)
  {
    var key := TranslationKeyFor(filename, lang, ts);
    translate(text, lang).Ok? && key.Some? && key.value !in writeFaults ==>
      lang in results && results[lang] == S3Uri(bucket, key.value) &&
      key.value in objects && objects[key.value] == translate(text, lang).value
  }

  /** An attempt for `last` keeps what was recorded for a different language
      stored under a different key. */
  lemma AttemptKeepsRecorded(results: map<string, string>, st: Store, writeFaults: map<string, Fault>,
                             bucket: string, filename: Option<string>, text: string, lang: string, ts: string,
                             last: string, lastTs: string, translate: Translator)
    requires st.writeFaults == writeFaults
    requires Recorded(results, st.objects, writeFaults, bucket, filename, text, lang, ts, translate)
    requires lang != last
    requires filename.Some? ==>
      TranslationKey(Stem(filename.value), lang, ts) != TranslationKey(Stem(filename.value), last, lastTs)
    ensures var attempt := Attempt(st, bucket, filename, text, last, lastTs, translate);
      Recorded(results[last := attempt.0], attempt.1.objects, writeFaults, bucket, filename, text, lang, ts, translate)
  {
  }

  /** An attempt that can succeed records itself. */
  lemma AttemptRecords(results: map<string, string>, st: Store, writeFaults: map<string, Fault>,
                       bucket: string, filename: Option<string>, text: string, last: string, lastTs: string,
                       translate: Translator)
    requires st.writeFaults == writeFaults
    ensures var attempt := Attempt(st, bucket, filename, text, last, lastTs, translate);
      Recorded(results[last := attempt.0], attempt.1.objects, writeFaults, bucket, filename, text, last, lastTs, translate)
  {
  }

  /** One more attempt, for the `n`-th language, keeps every earlier record
      and adds its own. */
  lemma RecordedStep(results: map<string, string>, st: Store, writeFaults: map<string, Fault>,
                     bucket: string, filename: Option<string>, text: string, langs: seq<string>,
                     clock: nat -> string, translate: Translator, n: nat)
    requires 0 < n <= |langs| && st.writeFaults == writeFaults
    requires forall i, j | 0 <= i < j < |langs| :: langs[i] != langs[j]
    requires forall i: nat :: |clock(i)| == TimestampWidth
    requires forall i | 0 <= i < n - 1 ::
      Recorded(results, st.objects, writeFaults, bucket, filename, text, langs[i], clock(i), translate)
    ensures var attempt := Attempt(st, bucket, filename, text, langs[n - 1], clock(n - 1), translate);
      forall i | 0 <= i < n ::
        Recorded(results[langs[n - 1] := attempt.0], attempt.1.objects, writeFaults, bucket, filename, text,
                 langs[i], clock(i), translate)
  {
    var last := langs[n - 1];
    AttemptRecords(results, st, writeFaults, bucket, filename, text, last, clock(n - 1), translate);
    forall i | 0 <= i < n - 1
      ensures var attempt := Attempt(st, bucket, filename, text, last, clock(n - 1), translate);
        Recorded(results[last := attempt.0], attempt.1.objects, writeFaults, bucket, filename, text,
                 langs[i], clock(i), translate)
    {
      if filename.Some? {
        TranslationKeysDiffer(Stem(filename.value), langs[i], clock(i), last, clock(n - 1));
      }
      AttemptKeepsRecorded(results, st, writeFaults, bucket, filename, text, langs[i], clock(i), last, clock(n - 1), translate);
    }
  }

  /** Every one of the first `n` languages whose translation could be
      stored has its URI recorded, naming an object holding its translation. */
  predicate AllRecorded(st: Store, bucket: string, filename: Option<string>, text: string,
                        langs: seq<string>, clock: nat -> string, translate: Translator, n: nat)
    requires n <= |langs|
  {
    var out := FanOut(st, bucket, filename, text, langs, clock, translate, n);
    forall i | 0 <= i < n ::
      Recorded(out.0, out.1.objects, st.writeFaults, bucket, filename, text, langs[i], clock(i), translate)
  }

  /** `RecordedStep` for the loop's `n`-th pass. */
  lemma FanOutStoredStep(st: Store, bucket: string, filename: Option<string>, text: string,
                         langs: seq<string>, clock: nat -> string, translate: Translator, n: nat)
    requires 0 < n <= |langs|
    requires forall i, j | 0 <= i < j < |langs| :: langs[i] != langs[j]
    requires forall i: nat :: |clock(i)| == TimestampWidth
    requires AllRecorded(st, bucket, filename, text, langs, clock, translate, n - 1)
    ensures AllRecorded(st, bucket, filename, text, langs, clock, translate, n)
  {
    var before := FanOut(st, bucket, filename, text, langs, clock, translate, n - 1);
    RecordedStep(before.0, before.1, st.writeFaults, bucket, filename, text, langs, clock, translate, n);
    var attempt := Attempt(before.1, bucket, filename, text, langs[n - 1], clock(n - 1), translate);
    assert FanOut(st, bucket, filename, text, langs, clock, translate, n) == (before.0[langs[n - 1] := attempt.0], attempt.1);
  }

  /** With distinct languages and fixed-width timestamps, every language
      whose translation could be stored has its URI recorded, and that URI
      names an object holding its translation. */
  lemma {:induction false} FanOutStored(st: Store, bucket: string, filename: Option<string>, text: string,
                                        langs: seq<string>, clock: nat -> string, translate: Translator, n: nat)
    requires n <= |langs|
    requires forall i, j | 0 <= i < j < |langs| :: langs[i] != langs[j]
    requires forall i: nat :: |clock(i)| == TimestampWidth
    ensures AllRecorded(st, bucket, filename, text, langs, clock, translate, n)
  {
    if n > 0 {
      FanOutStored(st, bucket, filename, text, langs, clock, translate, n - 1);
      FanOutStoredStep(st, bucket, filename, text, langs, clock, translate, n);
    }
  }

  /** The `for` loop over the target languages, filling `results` in place. */
  method TranslateAll(st: Store, bucket: string, filename: Option<string>, text: string, langs: seq<string>,
                      clock: nat -> string, translate: Translator)
    returns (results: map<string, string>, st': Store)
    ensures (results, st') == FanOut(st, bucket, filename, text, langs, clock, translate, |langs|)
  {
    results := map[];
    st' := st;
    for i := 0 to |langs|
      invariant (results, st') == FanOut(st, bucket, filename, text, langs, clock, translate, i)
    {
      var lang := langs[i];
      var ts := clock(i);
      var attempt := translate(text, lang);
      if attempt.Err? {
        results := results[lang := FailureEntry(attempt.fault, lang)];
        continue;
      }
      if filename.None? {
        results := results[lang := "Translation not found for " + lang + ". Error: " + NoneSplitError];
        continue;
      }
      var key := TranslationKey(Stem(filename.value), lang, ts);
      var put := Put(st', key, attempt.value);
      if put.Err? {
        results := results[lang := FailureEntry(put.fault, lang)];
        continue;
      }
      st' := put.value;
      results := results[lang := S3Uri(bucket, key)];
    }
  }

  /** The handler. `translate` is the translation engine and `clock(i)` the
      timestamp taken in the `i`-th pass of the loop. */
  method Handle(event: Event, st: Store, clock: nat -> string, translate: Translator)
    returns (resp: Response, st': Store)
    ensures resp == Raised <==> event.transcriptUri.None? || event.targetLanguages.None? || event.bucket.None?
    ensures !resp.Translated? ==> st' == st
    ensures resp.InvalidTranscriptUri? <==>
      !resp.Raised? && TranscriptKeyOf(event.transcriptUri.value, event.bucket.value) == ""
    ensures resp.TranscriptUnavailable? || resp.UnexpectedError? <==>
      !resp.Raised? && !resp.InvalidTranscriptUri? &&
      Get(st, TranscriptKeyOf(event.transcriptUri.value, event.bucket.value)).Err?
    ensures resp.TranscriptUnavailable? ==>
      var got := Get(st, TranscriptKeyOf(event.transcriptUri.value, event.bucket.value));
      got.fault.ClientError? && resp.message == got.fault.message
    ensures resp.UnexpectedError? ==>
      Get(st, TranscriptKeyOf(event.transcriptUri.value, event.bucket.value)).fault.OtherError?
    ensures resp.Translated? ==>
      var bucket := event.bucket.value;
      var langs := event.targetLanguages.value;
      var transcript := Get(st, TranscriptKeyOf(event.transcriptUri.value, bucket)).value;
      resp.bucket == bucket && resp.targetLanguages == langs &&
      resp.originalFilename == event.originalFilename &&
      resp.key == "audio_inputs/" + event.originalFilename.GetOr("None") &&
      (resp.results, st') == FanOut(st, bucket, event.originalFilename, transcript, langs, clock, translate, |langs|)
  {
    st' := st;
    if event.transcriptUri.None? || event.targetLanguages.None? || event.bucket.None? {
      return Raised, st';
    }
    var bucket, langs := event.bucket.value, event.targetLanguages.value;
    var key := TranscriptKeyOf(event.transcriptUri.value, bucket);
    if key == "" {
      return InvalidTranscriptUri, st';
    }
    var got := Get(st, key);
    if got.Err? {
      resp := if got.fault.ClientError? then TranscriptUnavailable(got.fault.message) else UnexpectedError;
      return resp, st';
    }
    var results;
    results, st' := TranslateAll(st, bucket, event.originalFilename, got.value, langs, clock, translate);
    resp := Translated(bucket, "audio_inputs/" + event.originalFilename.GetOr("None"), langs, results,
                       event.originalFilename);
  }
}
