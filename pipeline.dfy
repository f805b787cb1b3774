/** What consecutive stages promise each other: the key a stage stores is the
    key the next stage, or the status check after it, recovers from the URI
    or key the stage reports, and finds. */
module Pipeline {
  import opened Common
  import opened Text
  import opened Naming
  import Translate
  import StatusTranslation
  import Synthesize
  import StatusSynthesis

  /** The translation stage reads the transcript the transcription engine
      wrote under the transcript key, given the regional URL it reports. */
  lemma TranscriptReadBack(bucket: string, stem: string, ts: string)
    requires '/' !in stem && '/' !in ts
    ensures TranscriptKeyOf(RegionalUrl(bucket, TranscriptKey(stem, ts)), bucket) == TranscriptKey(stem, ts)
  {
    var marker := RegionalHost + bucket + "/";
    TranscriptKeyOneSlash(stem, ts);
    assert marker[|RegionalHost| - 1] == '/' && marker[|marker| - 1] == '/';
    NotContainsTwice(TranscriptKey(stem, ts), marker, '/', |RegionalHost| - 1, |marker| - 1);
    TranscriptKeyOfRegionalUrl(bucket, TranscriptKey(stem, ts));
  }

  /** The translation status check turns the URI recorded for a translation
      back into its key. */
  lemma TranslationUriReadBack(bucket: string, stem: string, lang: string, ts: string)
    requires '/' !in stem && '/' !in lang && '/' !in ts
    ensures StatusTranslation.KeyParser(bucket)(S3Uri(bucket, TranslationKey(stem, lang, ts))) ==
            TranslationKey(stem, lang, ts)
  {
    var marker := "s3://" + bucket + "/";
    TranslationKeyOneSlash(stem, lang, ts);
    assert marker[3] == '/' && marker[4] == '/';
    NotContainsTwice(TranslationKey(stem, lang, ts), marker, '/', 3, 4);
    TranslationKeyOfS3Uri(bucket, TranslationKey(stem, lang, ts));
  }

  /** When every translation succeeds and every translation key can be
      written and read, the status check after the translation stage finds
      every target language's translation, so it reports COMPLETED. */
  lemma TranslationsFound(st: Store, bucket: string, filename: string, text: string, langs: seq<string>,
                          clock: nat -> string, translate: Translate.Translator)
    requires forall i, j | 0 <= i < j < |langs| :: langs[i] != langs[j]
    requires forall i: nat :: |clock(i)| == TimestampWidth && '/' !in clock(i)
    requires '/' !in filename && forall i | 0 <= i < |langs| :: '/' !in langs[i]
    requires forall i | 0 <= i < |langs| ::
      translate(text, langs[i]).Ok? &&
      TranslationKey(Stem(filename), langs[i], clock(i)) !in st.writeFaults &&
      TranslationKey(Stem(filename), langs[i], clock(i)) !in st.readFaults
    ensures var out := Translate.FanOut(st, bucket, Some(filename), text, langs, clock, translate, |langs|);
      forall i | 0 <= i < |langs| ::
        StatusTranslation.VerdictFor(out.1, StatusTranslation.KeyParser(bucket), out.0, langs[i]) ==
        StatusTranslation.Exists
  {
    var out := Translate.FanOut(st, bucket, Some(filename), text, langs, clock, translate, |langs|);
    Translate.FanOutStored(st, bucket, Some(filename), text, langs, clock, translate, |langs|);
    StemNoSlash(filename);
    forall i | 0 <= i < |langs|
      ensures StatusTranslation.VerdictFor(out.1, StatusTranslation.KeyParser(bucket), out.0, langs[i]) ==
              StatusTranslation.Exists
    {
      var key := TranslationKey(Stem(filename), langs[i], clock(i));
      TranslationUriReadBack(bucket, Stem(filename), langs[i], clock(i));
      assert out.0[langs[i]] == S3Uri(bucket, key);
      assert Head(out.1, key).Ok?;
    }
  }

  /** Every audio file the synthesis stage records, also when a later
      language aborts it, is found by the status check after it, provided its
      key can be read. */
  lemma AudioFound(st: Store, stem: string, results: map<string, string>, ts: string,
                   synth: Synthesize.Synthesizer)
    requires forall lang | lang in SupportedLanguages :: AudioKey(stem, lang, ts) !in st.readFaults
    ensures var p := Synthesize.Synthesis(st, stem, results, ts, synth, |SupportedLanguages|);
      forall lang | lang in p.audio ::
        StatusSynthesis.AudioStatus(p.st, AudioKeyOf, p.audio[lang]) == Some(StatusSynthesis.StatusExists)
  {
    var p := Synthesize.Synthesis(st, stem, results, ts, synth, |SupportedLanguages|);
    Synthesize.SynthesisStored(st, stem, results, ts, synth, |SupportedLanguages|);
    forall lang | lang in p.audio
      ensures StatusSynthesis.AudioStatus(p.st, AudioKeyOf, p.audio[lang]) == Some(StatusSynthesis.StatusExists)
    {
      AudioKeyOfAudioKey(stem, lang, ts);
      assert Head(p.st, p.audio[lang]).Ok?;
    }
  }
}
