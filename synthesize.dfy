/** The synthesis stage: reads the translations into the three supported
    languages from the body, and for each language with a non-empty text asks
    the speech engine for audio in that language's voice and stores it under
    an `audio_outputs/` key. The first error aborts the stage; the audio of the
    languages before it stays stored. */
module Synthesize {
  import opened Common
  import opened Naming

  /** The fields of the JSON body the handler reads. */
  datatype Body = Body(originalFilename: Option<string>, results: Option<map<string, string>>)

  /** The fields of the invocation event; a missing body reads as `'{}'`. */
  datatype Event = Event(bucket: Option<string>, body: Option<Parsed<Body>>)

  datatype Response =
    | InvalidJson                        // 400 'Invalid JSON in body'
    | Raised                             // the body is JSON but not an object
    | MissingBucket                      // 400 'Bucket name is required.'
    | MissingFilename                    // 400 'Original filename is required.'
    | NoTranslations                     // 400 'No translations available'
    | SynthesisClientError(language: string) // 500 'Client error occurred while synthesizing for <language>'
    | UnexpectedError                    // 500 'An unexpected error occurred'
    | Synthesized(results: map<string, string>, originalFilename: string, bucket: string)

  /** `synthesize_speech(Text=text, OutputFormat='mp3', VoiceId=voice)['AudioStream'].read()`. */
  type Synthesizer = (string, string) -> Result<string>

  /** The voice of each supported language. */
  function VoiceFor(lang: string): (voice: Option<string>)
    ensures voice.Some? <==> lang in SupportedLanguages
    ensures voice.Some? ==> voice.value != ""
  {
    if lang == "es" then Some("Lucia")
    else if lang == "fr" then Some("Celine")
    else if lang == "de" then Some("Marlene")
    else None
  }

  /** `body.get('results', {}).get(lang, '')`. */
  function TextOf(results: map<string, string>, lang: string): string
  {
    if lang in results then results[lang] else ""
  }

  /** How the handler reports the fault that aborts the stage for `lang`:
      a `ClientError` by its own handler, anything else by the outer one. */
  function Failure(f: Fault, lang: string): Response
  {
    if f.ClientError? then SynthesisClientError(lang) else UnexpectedError
  }

  /** The fault one language's attempt meets, if any: none for an empty text
      (it is skipped), else the engine's, else the one the store gives for
      writing its key. It depends on nothing the other languages did. */
  function AttemptFault(writeFaults: map<string, Fault>, stem: string, results: map<string, string>,
                        lang: string, ts: string, synth: Synthesizer): Option<Fault>
    requires lang in SupportedLanguages
  {
    var text := TextOf(results, lang);
    if text == "" then None
    else match synth(text, VoiceFor(lang).value)
      case Err(f) => Some(f)
      case Ok(_) =>
        var key := AudioKey(stem, lang, ts);
        if key in writeFaults then Some(writeFaults[key]) else None
  }

  /** The state of the loop: the audio keys recorded so far, the store, and
      the response that ended the loop, if one did. */
  datatype Progress = Progress(audio: map<string, string>, st: Store, failure: Option<Response>)

  /** One pass of the loop body, for `lang`. */
  function Step(p: Progress, stem: string, results: map<string, string>, lang: string, ts: string,
                synth: Synthesizer): (q: Progress)
    requires lang in SupportedLanguages && p.failure.None?
    ensures q.st.readFaults == p.st.readFaults && q.st.writeFaults == p.st.writeFaults
    ensures var fault := AttemptFault(p.st.writeFaults, stem, results, lang, ts, synth);
      q.failure == (if fault.Some? then Some(Failure(fault.value, lang)) else None)
    ensures q.failure.Some? || TextOf(results, lang) == "" ==> q.audio == p.audio && q.st == p.st
    ensures q.failure.None? && TextOf(results, lang) != "" ==>
      var key := AudioKey(stem, lang, ts);
      synth(TextOf(results, lang), VoiceFor(lang).value).Ok? &&
      q.audio == p.audio[lang := key] &&
      q.st.objects == p.st.objects[key := synth(TextOf(results, lang), VoiceFor(lang).value).value]
  {
    var text := TextOf(results, lang);
    if text == "" then p
    else match synth(text, VoiceFor(lang).value)
      case Err(f) => Progress(p.audio, p.st, Some(Failure(f, lang)))
      case Ok(stream) =>
        match Put(p.st, AudioKey(stem, lang, ts), stream)
        case Err(f) => Progress(p.audio, p.st, Some(Failure(f, lang)))
        case Ok(st') => Progress(p.audio[lang := AudioKey(stem, lang, ts)], st', None)
  }

  /** The loop after the first `n` supported languages, in the order es, fr, de. */
  function Synthesis(st: Store, stem: string, results: map<string, string>, ts: string, synth: Synthesizer,
                     n: nat): (p: Progress)
    requires n <= |SupportedLanguages|
    ensures p.st.readFaults == st.readFaults && p.st.writeFaults == st.writeFaults
    ensures p.failure.Some? ==> p.failure.value.SynthesisClientError? || p.failure.value.UnexpectedError?
  {
    if n == 0 then Progress(map[], st, None)
    else
      var p := Synthesis(st, stem, results, ts, synth, n - 1);
      if p.failure.Some? then p else Step(p, stem, results, SupportedLanguages[n - 1], ts, synth)
  }

  /** Once a language has aborted the loop, nothing after it changes anything. */
  lemma {:induction false} SynthesisStops(st: Store, stem: string, results: map<string, string>, ts: string,
                                          synth: Synthesizer, k: nat, n: nat)
    requires k <= n <= |SupportedLanguages|
    requires Synthesis(st, stem, results, ts, synth, k).failure.Some?
    ensures Synthesis(st, stem, results, ts, synth, n) == Synthesis(st, stem, results, ts, synth, k)
  {
    if k < n {
      SynthesisStops(st, stem, results, ts, synth, k, n - 1);
    }
  }

  /** The loop runs through exactly when no language meets a fault, and
      then every language with a text, and no other, has its audio recorded. */
  lemma {:induction false} SynthesisRunsThrough(st: Store, stem: string, results: map<string, string>, ts: string,
                                                synth: Synthesizer, n: nat)
    requires n <= |SupportedLanguages|
    ensures var p := Synthesis(st, stem, results, ts, synth, n);
      p.failure.None? <==>
        forall i | 0 <= i < n :: AttemptFault(st.writeFaults, stem, results, SupportedLanguages[i], ts, synth).None?
    ensures var p := Synthesis(st, stem, results, ts, synth, n);
      p.failure.None? ==>
        forall i | 0 <= i < n :: SupportedLanguages[i] in p.audio <==> TextOf(results, SupportedLanguages[i]) != ""
  {
    if n > 0 {
      SynthesisRunsThrough(st, stem, results, ts, synth, n - 1);
      var p := Synthesis(st, stem, results, ts, synth, n - 1);
      if p.failure.None? {
        var lang := SupportedLanguages[n - 1];
        SynthesisPrefix(st, stem, results, ts, synth, n - 1);
        NextNotRecorded(p.audio, n - 1);
        assert forall i | 0 <= i < n - 1 :: SupportedLanguages[i] != lang;
      }
    }
  }

  /** When a language meets a fault, the response names the first such
      language's fault, and every language before it with a text has its
      audio recorded. */
  lemma {:induction false} SynthesisFirstFault(st: Store, stem: string, results: map<string, string>, ts: string,
                                               synth: Synthesizer, n: nat)
    requires n <= |SupportedLanguages|
    ensures var p := Synthesis(st, stem, results, ts, synth, n);
      p.failure.Some? ==>
        exists i | 0 <= i < n ::
          AttemptFault(st.writeFaults, stem, results, SupportedLanguages[i], ts, synth).Some? &&
          p.failure.value ==
            Failure(AttemptFault(st.writeFaults, stem, results, SupportedLanguages[i], ts, synth).value,
                    SupportedLanguages[i]) &&
          forall j | 0 <= j < i ::
            AttemptFault(st.writeFaults, stem, results, SupportedLanguages[j], ts, synth).None? &&
            (SupportedLanguages[j] in p.audio <==> TextOf(results, SupportedLanguages[j]) != "")
  {
    if n > 0 {
      SynthesisFirstFault(st, stem, results, ts, synth, n - 1);
      var p := Synthesis(st, stem, results, ts, synth, n - 1);
      if p.failure.None? {
        SynthesisRunsThrough(st, stem, results, ts, synth, n - 1);
        var q := Step(p, stem, results, SupportedLanguages[n - 1], ts, synth);
        if q.failure.Some? {
          assert q.audio == p.audio;
          var i := n - 1;
          assert AttemptFault(st.writeFaults, stem, results, SupportedLanguages[i], ts, synth).Some?;
        }
      }
    }
  }

  /** Every recorded language is a supported one with text, recorded under
      its own audio key, whose object holds what the engine synthesized. */
  predicate AllStored(p: Progress, stem: string, results: map<string, string>, ts: string, synth: Synthesizer)
  {
    forall lang | lang in p.audio ::
      lang in SupportedLanguages && TextOf(results, lang) != "" &&
      p.audio[lang] == AudioKey(stem, lang, ts) &&
      synth(TextOf(results, lang), VoiceFor(lang).value).Ok? &&
      p.audio[lang] in p.st.objects &&
      p.st.objects[p.audio[lang]] == synth(TextOf(results, lang), VoiceFor(lang).value).value
  }

  /** One pass keeps what was stored and stores its own language. */
  lemma StoredStep(p: Progress, stem: string, results: map<string, string>, lang: string, ts: string,
                   synth: Synthesizer)
    requires lang in SupportedLanguages && p.failure.None?
    requires AllStored(p, stem, results, ts, synth)
    ensures AllStored(Step(p, stem, results, lang, ts, synth), stem, results, ts, synth)
  {
    var q := Step(p, stem, results, lang, ts, synth);
    if q.failure.None? && TextOf(results, lang) != "" {
      AudioKeysApart(p.audio, stem, lang, ts);
    }
  }

  /** Every language in the recorded audio has a text, its key is its audio
      key, and the store holds the engine's audio for that text under that
      key. This holds also when a later language aborts the stage. */
  lemma {:induction false} SynthesisStored(st: Store, stem: string, results: map<string, string>, ts: string,
                                           synth: Synthesizer, n: nat)
    requires n <= |SupportedLanguages|
    ensures AllStored(Synthesis(st, stem, results, ts, synth, n), stem, results, ts, synth)
  {
    if n > 0 {
      SynthesisStored(st, stem, results, ts, synth, n - 1);
      var p := Synthesis(st, stem, results, ts, synth, n - 1);
      if p.failure.None? {
        StoredStep(p, stem, results, SupportedLanguages[n - 1], ts, synth);
      }
    }
  }

  /** A recorded language other than `lang` has a key other than `lang`'s. */
  lemma AudioKeysApart(audio: map<string, string>, stem: string, lang: string, ts: string)
    ensures forall other | other in audio && other != lang && audio[other] == AudioKey(stem, other, ts) ::
      audio[other] != AudioKey(stem, lang, ts)
  {
    forall other | other in audio && other != lang && audio[other] == AudioKey(stem, other, ts)
      ensures audio[other] != AudioKey(stem, lang, ts)
    {
      if AudioKey(stem, other, ts) == AudioKey(stem, lang, ts) {
        AudioKeyInjective(stem, other, ts, lang, ts);
      }
    }
  }

  /** Only languages among the first `n` are recorded. */
  lemma {:induction false} SynthesisPrefix(st: Store, stem: string, results: map<string, string>, ts: string,
                                           synth: Synthesizer, n: nat)
    requires n <= |SupportedLanguages|
    ensures forall lang | lang in Synthesis(st, stem, results, ts, synth, n).audio :: lang in SupportedLanguages[..n]
  {
    if n > 0 {
      SynthesisPrefix(st, stem, results, ts, synth, n - 1);
      assert SupportedLanguages[..n] == SupportedLanguages[..n - 1] + [SupportedLanguages[n - 1]];
    }
  }

  /** The language after the first `n` is not among those recorded for them. */
  lemma NextNotRecorded(audio: map<string, string>, n: nat)
    requires n < |SupportedLanguages|
    requires forall lang | lang in audio :: lang in SupportedLanguages[..n]
    ensures SupportedLanguages[n] !in audio
  {
    assert forall j | 0 <= j < n :: SupportedLanguages[..n][j] != SupportedLanguages[n];
  }

  /** Recording a value under a new key adds exactly that value. */
  lemma ValuesOfFreshUpdate(m: map<string, string>, k: string, v: string)
    requires k !in m
    ensures m[k := v].Values == m.Values + {v}
  {
    forall w | w in m[k := v].Values
      ensures w in m.Values + {v}
    {
      var j :| j in m[k := v] && m[k := v][j] == w;
      if j != k {
        assert m[j] == w;
      }
    }
    forall w | w in m.Values
      ensures w in m[k := v].Values
    {
      var j :| j in m && m[j] == w;
      assert m[k := v][j] == w;
    }
    assert m[k := v][k] == v;
  }

  /** The keys written since `st` are exactly the recorded audio keys; every
      other object is as it was in `st`. */
  predicate Framed(st: Store, p: Progress)
  {
    p.st.objects.Keys == st.objects.Keys + p.audio.Values &&
    forall k | k in st.objects && k !in p.audio.Values :: p.st.objects[k] == st.objects[k]
  }

  /** One pass that records a language not recorded before keeps the frame. */
  lemma FramedStep(st: Store, p: Progress, stem: string, results: map<string, string>, lang: string, ts: string,
                   synth: Synthesizer)
    requires lang in SupportedLanguages && p.failure.None? && lang !in p.audio
    requires Framed(st, p)
    ensures Framed(st, Step(p, stem, results, lang, ts, synth))
  {
    var q := Step(p, stem, results, lang, ts, synth);
    if q.failure.None? && TextOf(results, lang) != "" {
      var key := AudioKey(stem, lang, ts);
      ValuesOfFreshUpdate(p.audio, lang, key);
      forall k | k in st.objects && k !in q.audio.Values
        ensures q.st.objects[k] == st.objects[k]
      {
        assert k != key && k !in p.audio.Values;
      }
    }
  }

  /** The keys written are exactly the recorded audio keys; every other
      object is as it was. */
  lemma {:induction false} SynthesisFrame(st: Store, stem: string, results: map<string, string>, ts: string,
                                          synth: Synthesizer, n: nat)
    requires n <= |SupportedLanguages|
    ensures Framed(st, Synthesis(st, stem, results, ts, synth, n))
  {
    if n > 0 {
      SynthesisFrame(st, stem, results, ts, synth, n - 1);
      var p := Synthesis(st, stem, results, ts, synth, n - 1);
      if p.failure.None? {
        SynthesisPrefix(st, stem, results, ts, synth, n - 1);
        NextNotRecorded(p.audio, n - 1);
        FramedStep(st, p, stem, results, SupportedLanguages[n - 1], ts, synth);
      }
    }
  }

  /** The loop that fills `translated_texts`. */
  method CollectTexts(results: map<string, string>) returns (texts: map<string, string>)
    ensures texts.Keys == set lang | lang in SupportedLanguages
    ensures forall lang | lang in SupportedLanguages :: texts[lang] == TextOf(results, lang)
  {
    texts := map[];
    for i := 0 to |SupportedLanguages|
      invariant texts.Keys == set lang | lang in SupportedLanguages[..i]
      invariant forall lang | lang in SupportedLanguages[..i] :: texts[lang] == TextOf(results, lang)
    {
      var lang := SupportedLanguages[i];
      assert SupportedLanguages[..i + 1] == SupportedLanguages[..i] + [lang];
      texts := texts[lang := if lang in results then results[lang] else ""];
    }
    assert SupportedLanguages[..|SupportedLanguages|] == SupportedLanguages;
  }

  /** The loop over the texts: skips the empty ones, synthesizes and stores
      the others, and stops at the first failure. */
  method SynthesizeAll(st: Store, stem: string, results: map<string, string>, texts: map<string, string>,
                       ts: string, synth: Synthesizer)
    returns (failure: Option<Response>, audio: map<string, string>, st': Store)
    requires forall lang | lang in SupportedLanguages :: lang in texts && texts[lang] == TextOf(results, lang)
    ensures Progress(audio, st', failure) == Synthesis(st, stem, results, ts, synth, |SupportedLanguages|)
  {
    audio, st' := map[], st;
    for i := 0 to |SupportedLanguages|
      invariant Synthesis(st, stem, results, ts, synth, i) == Progress(audio, st', None)
    {
      var lang := SupportedLanguages[i];
      var text := texts[lang];
      if text == "" {
        continue;
      }
      var voice := VoiceFor(lang).value;
      var key := AudioKey(stem, lang, ts);
      var stream := synth(text, voice);
      if stream.Err? {
        SynthesisStops(st, stem, results, ts, synth, i + 1, |SupportedLanguages|);
        return Some(Failure(stream.fault, lang)), audio, st';
      }
      var put := Put(st', key, stream.value);
      if put.Err? {
        SynthesisStops(st, stem, results, ts, synth, i + 1, |SupportedLanguages|);
        return Some(Failure(put.fault, lang)), audio, st';
      }
      st' := put.value;
      audio := audio[lang := key];
    }
    failure := None;
  }

  function BodyOf(event: Event): Parsed<Body>
  {
    event.body.GetOr(Decoded(Body(None, None)))
  }

  /** The event passes every guard before the loop. */
  predicate Ready(event: Event)
  {
    BodyOf(event).Decoded? && Truthy(event.bucket) && Truthy(BodyOf(event).value.originalFilename) &&
    exists lang | lang in SupportedLanguages :: TextOf(BodyOf(event).value.results.GetOr(map[]), lang) != ""
  }

  /** The handler. `ts` is the one timestamp shared by every language and
      `synth` the speech engine. */
  method Handle(event: Event, st: Store, ts: string, synth: Synthesizer) returns (resp: Response, st': Store)
    ensures resp == InvalidJson <==> BodyOf(event).BadJson?
    ensures resp == Raised <==> BodyOf(event).NotAnObject?
    ensures resp == MissingBucket <==> BodyOf(event).Decoded? && !Truthy(event.bucket)
    ensures resp == MissingFilename <==>
      BodyOf(event).Decoded? && Truthy(event.bucket) && !Truthy(BodyOf(event).value.originalFilename)
    ensures resp == NoTranslations <==>
      BodyOf(event).Decoded? && Truthy(event.bucket) && Truthy(BodyOf(event).value.originalFilename) &&
      forall lang | lang in SupportedLanguages :: TextOf(BodyOf(event).value.results.GetOr(map[]), lang) == ""
    ensures !Ready(event) ==> st' == st
    ensures Ready(event) ==>
      var filename := BodyOf(event).value.originalFilename.value;
      var p := Synthesis(st, Stem(filename), BodyOf(event).value.results.GetOr(map[]), ts, synth,
                         |SupportedLanguages|);
      st' == p.st &&
      resp == (if p.failure.Some? then p.failure.value else Synthesized(p.audio, filename, event.bucket.value))
  {
    st' := st;
    var body;
    match BodyOf(event)
    case BadJson => return InvalidJson, st';
    case NotAnObject => return Raised, st';
    case Decoded(b) => body := b;
    if !Truthy(event.bucket) {
      return MissingBucket, st';
    }
    if !Truthy(body.originalFilename) {
      return MissingFilename, st';
    }
    var bucket, filename := event.bucket.value, body.originalFilename.value;
    var results := body.results.GetOr(map[]);
    var texts := CollectTexts(results);
    if forall lang | lang in SupportedLanguages :: texts[lang] == "" {
      return NoTranslations, st';
    }
    var failure, audio;
    failure, audio, st' := SynthesizeAll(st, Stem(filename), results, texts, ts, synth);
    resp := if failure.Some? then failure.value else Synthesized(audio, filename, bucket);
  }
}
