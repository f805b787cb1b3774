/** How the stages name things: the file name and stem taken from an object
    key, the transcription job name, the three object-key templates, the
    `s3://` URIs the stages hand to each other, and the three different ways
    the consuming stages turn a URI back into a key. */
module Naming {
  import opened Common
  import opened Text

  /** The fixed source language of the transcription stage. */
  const TranscriptLanguage: string := "en-US"

  /** The languages the pipeline is started with and the only ones the
      synthesis stage reads, in this order. */
  const SupportedLanguages: seq<string> := ["es", "fr", "de"]

  /** Length of a timestamp `YYYYMMDD_HHMMSS.mmm`. */
  const TimestampWidth: nat := 19

  /** The host part that precedes `{bucket}/{key}` in the transcript URL the
      transcription engine reports. */
  const RegionalHost: string := "s3.us-east-1.amazonaws.com/"

  /** `key.split('/')[-1]`: the last path segment of an object key. */
  function OriginalFilename(key: string): string
  {
    AfterLast(key, "/")
  }

  /** `filename.split('.')[0]`: the file name up to its first dot. */
  function Stem(filename: string): string
  {
    BeforeFirst(filename, ".")
  }

  /** `f"{base_name}-{int(time.time())}"`. */
  function JobName(stem: string, epoch: nat): string
  {
    stem + "-" + Decimal(epoch)
  }

  function TranscriptKey(stem: string, ts: string): string
  {
    "transcripts/" + stem + "_transcript_" + TranscriptLanguage + "-" + ts + ".txt"
  }

  function TranslationKey(stem: string, lang: string, ts: string): string
  {
    "translations/" + stem + "_translation_" + lang + "-" + ts + ".txt"
  }

  function AudioKey(stem: string, lang: string, ts: string): string
  {
    "audio_outputs/" + stem + "_" + lang + "-" + ts + ".mp3"
  }

  function S3Uri(bucket: string, key: string): string
  {
    "s3://" + bucket + "/" + key
  }

  /** The URL form `https://s3.us-east-1.amazonaws.com/{bucket}/{key}` in which
      the transcription engine reports where it wrote its output. */
  function RegionalUrl(bucket: string, key: string): string
  {
    "https://" + RegionalHost + bucket + "/" + key
  }

  /** The translation stage's parser: the text after the last
      `s3.us-east-1.amazonaws.com/{bucket}/`, or the whole URI when that
      marker is absent. */
  function TranscriptKeyOf(uri: string, bucket: string): string
  {
    AfterLast(uri, RegionalHost + bucket + "/")
  }

  /** The translation status check's parser: every `s3://{bucket}/` removed. */
  function TranslationKeyOf(url: string, bucket: string): string
  {
    RemoveAll(url, "s3://" + bucket + "/")
  }

  /** The synthesis status check's parser: `s3://bucket/rest` becomes `rest`;
      a key without the `s3://` prefix is used as it is. `None` stands for the
      `IndexError` of `split('/', 1)[1]` on `s3://` followed by no `/`. */
  function AudioKeyOf(audioKey: string): (key: Option<string>)
    ensures !StartsWith(audioKey, "s3://") ==> key == Some(audioKey)
    ensures StartsWith(audioKey, "s3://") ==>
              (key.None? <==> IndexOf(audioKey[5..], "/").None?)
  {
    if StartsWith(audioKey, "s3://") then AfterFirst(audioKey[5..], "/") else Some(audioKey)
  }

  // ---------------------------------------------------------------------
  // Names derived from an object key

  /** The file name holds no `/` and is what follows the last `/` of the key,
      or the whole key when it has none. */
  lemma OriginalFilenameIsLastSegment(key: string)
    ensures '/' !in OriginalFilename(key)
    ensures '/' !in key ==> OriginalFilename(key) == key
    ensures '/' in key ==>
              var name := OriginalFilename(key);
              |name| < |key| && key[|key| - |name| - 1] == '/' && key[|key| - |name|..] == name
  {
    var name := OriginalFilename(key);
    AfterLastPiece(key, "/");
    ContainsChar(name, '/');
    ContainsChar(key, '/');
    if '/' in key {
      AfterLastPreceded(key, "/");
      assert key[|key| - |name| - 1 + 0] == "/"[0];
    }
  }

  /** A directory path, a `/` and a file name: the file name comes back. */
  lemma OriginalFilenameOfPath(dir: string, name: string)
    requires '/' !in name
    ensures OriginalFilename(dir + "/" + name) == name
  {
    AfterLastOfJoin(dir, '/', name);
  }

  /** The stem holds no `.`; it is the whole name when the name has none and
      otherwise the name up to its first `.`. */
  lemma StemIsFirstPart(filename: string)
    ensures '.' !in Stem(filename)
    ensures '.' !in filename ==> Stem(filename) == filename
    ensures '.' in filename ==>
              var stem := Stem(filename);
              |stem| < |filename| && filename[..|stem|] == stem && filename[|stem|] == '.'
  {
    var stem := Stem(filename);
    BeforeFirstPiece(filename, ".");
    ContainsChar(stem, '.');
    ContainsChar(filename, '.');
    if '.' in filename {
      assert filename[|stem| + 0] == "."[0];
    }
  }

  /** A base name without dots, a `.` and an extension: the base name comes
      back, whatever the extension holds. */
  lemma StemOfName(base: string, ext: string)
    requires '.' !in base
    ensures Stem(base + "." + ext) == base
  {
    BeforeFirstOfJoin(base, '.', ext);
  }

  // ---------------------------------------------------------------------
  // Job names

  /** The epoch is what follows the last `-` of the job name. */
  lemma JobNameEpoch(stem: string, epoch: nat)
    ensures AfterLast(JobName(stem, epoch), "-") == Decimal(epoch)
  {
    var d := Decimal(epoch);
    assert forall i :: 0 <= i < |d| ==> IsDigit(d[i]);
    AfterLastOfJoin(stem, '-', d);
  }

  /** Two submissions of the same file at different epoch seconds get
      different job names; equal job names mean equal stems and epochs. */
  lemma JobNameInjective(stem1: string, epoch1: nat, stem2: string, epoch2: nat)
    requires JobName(stem1, epoch1) == JobName(stem2, epoch2)
    ensures stem1 == stem2 && epoch1 == epoch2
  {
    JobNameEpoch(stem1, epoch1);
    JobNameEpoch(stem2, epoch2);
    DecimalInjective(epoch1, epoch2);
    CancelRight(stem1 + "-", Decimal(epoch1), stem2 + "-", Decimal(epoch2));
    assert stem1 == (stem1 + "-")[..|stem1|];
  }

  // ---------------------------------------------------------------------
  // Object keys never collide within a stem

  /** `x1 + y1 == x2 + y2` with `|y1| == |y2|` splits the same way. */
  lemma CancelRight(x1: string, y1: string, x2: string, y2: string)
    requires x1 + y1 == x2 + y2 && |y1| == |y2|
    ensures x1 == x2 && y1 == y2
  {
    assert x1 == (x1 + y1)[..|x1|];
    assert x2 == (x2 + y2)[..|x2|];
    assert y1 == (x1 + y1)[|x1|..];
    assert y2 == (x2 + y2)[|x2|..];
  }

  /** `a + b + c` with the same `a` and `c` on both sides has the same `b`. */
  lemma CancelEnds(a: string, b1: string, b2: string, c: string)
    requires a + b1 + c == a + b2 + c
    ensures b1 == b2
  {
    CancelRight(a + b1, c, a + b2, c);
    CancelRight(a, b1, a, b2);
  }

  /** Two transcripts of the same file get different keys unless they were
      written at the same timestamp. */
  lemma TranscriptKeyInjective(stem: string, ts1: string, ts2: string)
    requires TranscriptKey(stem, ts1) == TranscriptKey(stem, ts2)
    ensures ts1 == ts2
  {
    var a := "transcripts/" + stem + "_transcript_" + TranscriptLanguage + "-";
    assert TranscriptKey(stem, ts1) == a + ts1 + ".txt";
    assert TranscriptKey(stem, ts2) == a + ts2 + ".txt";
    CancelEnds(a, ts1, ts2, ".txt");
  }

  /** Two translations of the same file with fixed-width timestamps share a
      key only when they are for the same language at the same timestamp. */
  lemma TranslationKeyInjective(stem: string, lang1: string, ts1: string, lang2: string, ts2: string)
    requires |ts1| == |ts2|
    requires TranslationKey(stem, lang1, ts1) == TranslationKey(stem, lang2, ts2)
    ensures lang1 == lang2 && ts1 == ts2
  {
    var a := "translations/" + stem + "_translation_";
    assert TranslationKey(stem, lang1, ts1) == a + (lang1 + "-" + ts1) + ".txt";
    assert TranslationKey(stem, lang2, ts2) == a + (lang2 + "-" + ts2) + ".txt";
    CancelEnds(a, lang1 + "-" + ts1, lang2 + "-" + ts2, ".txt");
    CancelRight(lang1 + "-", ts1, lang2 + "-", ts2);
    assert lang1 == (lang1 + "-")[..|lang1|];
  }

  /** Translations into two different languages never share a key. */
  lemma TranslationKeysDiffer(stem: string, lang1: string, ts1: string, lang2: string, ts2: string)
    requires |ts1| == |ts2| && lang1 != lang2
    ensures TranslationKey(stem, lang1, ts1) != TranslationKey(stem, lang2, ts2)
  {
    if TranslationKey(stem, lang1, ts1) == TranslationKey(stem, lang2, ts2) {
      TranslationKeyInjective(stem, lang1, ts1, lang2, ts2);
    }
  }

  /** The same for the audio files of one original file. */
  lemma AudioKeyInjective(stem: string, lang1: string, ts1: string, lang2: string, ts2: string)
    requires |ts1| == |ts2|
    requires AudioKey(stem, lang1, ts1) == AudioKey(stem, lang2, ts2)
    ensures lang1 == lang2 && ts1 == ts2
  {
    var a := "audio_outputs/" + stem + "_";
    assert AudioKey(stem, lang1, ts1) == a + (lang1 + "-" + ts1) + ".mp3";
    assert AudioKey(stem, lang2, ts2) == a + (lang2 + "-" + ts2) + ".mp3";
    CancelEnds(a, lang1 + "-" + ts1, lang2 + "-" + ts2, ".mp3");
    CancelRight(lang1 + "-", ts1, lang2 + "-", ts2);
    assert lang1 == (lang1 + "-")[..|lang1|];
  }

  // ---------------------------------------------------------------------
  // The consumers' parsers invert the producers' URIs

  /** A URI without the marker is taken as the key itself. */
  lemma TranscriptKeyOfUnmarked(uri: string, bucket: string)
    requires !Contains(uri, RegionalHost + bucket + "/")
    ensures TranscriptKeyOf(uri, bucket) == uri
  {
    AfterLastPiece(uri, RegionalHost + bucket + "/");
  }

  /** A URL without the prefix is taken as the key itself. */
  lemma TranslationKeyOfUnprefixed(url: string, bucket: string)
    requires !Contains(url, "s3://" + bucket + "/")
    ensures TranslationKeyOf(url, bucket) == url
  {
    RemoveAllAbsent(url, "s3://" + bucket + "/");
  }

  /** The translation stage recovers the transcript key from the engine's
      URL, provided the key does not itself hold the marker. */
  lemma TranscriptKeyOfRegionalUrl(bucket: string, key: string)
    requires !Contains(key, RegionalHost + bucket + "/")
    ensures TranscriptKeyOf(RegionalUrl(bucket, key), bucket) == key
  {
    var marker := RegionalHost + bucket + "/";
    var url := RegionalUrl(bucket, key);
    assert url == "https://" + marker + key;
    var n := |"https://"|;
    assert url[n..] == marker + key;
    assert marker[0] == 's' && marker[1] == '3';
    assert forall k :: 0 <= k < n ==> url[k] == "https://"[k];
    forall k: nat | k < n ensures !OccursAt(url, marker, k) {
      assert url[k + 0] != marker[0] || url[k + 1] != marker[1];
    }
    assert OccursAt(url[n..], marker, 0);
    OccursInSuffix(url, marker, n, 0);
    IndexOfIsFirst(url, marker, n);
    AfterLastUnfold(url, marker, n);
    assert url[n + |marker|..] == key;
    AfterLastPiece(key, marker);
  }

  /** The translation status check recovers the key from the `s3://` URI
      the translation stage recorded, provided the key does not itself hold
      `s3://{bucket}/`. */
  lemma TranslationKeyOfS3Uri(bucket: string, key: string)
    requires !Contains(key, "s3://" + bucket + "/")
    ensures TranslationKeyOf(S3Uri(bucket, key), bucket) == key
  {
    var prefix := "s3://" + bucket + "/";
    assert S3Uri(bucket, key) == prefix + key;
    RemoveAllLeading(prefix, key);
    RemoveAllAbsent(key, prefix);
  }

  /** The synthesis status check recovers the key from an `s3://` URI whose
      bucket holds no `/`. */
  lemma AudioKeyOfS3Uri(bucket: string, key: string)
    requires '/' !in bucket
    ensures AudioKeyOf(S3Uri(bucket, key)) == Some(key)
  {
    var uri := S3Uri(bucket, key);
    assert StartsWith(uri, "s3://");
    assert uri[5..] == bucket + ['/'] + key;
    BeforeFirstOfJoin(bucket, '/', key);
    var r := AfterFirst(uri[5..], "/");
    assert OccursAt(uri[5..], "/", |bucket|);
    IndexOfFirst(uri[5..], "/");
    CancelRight(bucket + "/", r.value, bucket + "/", key);
  }

  /** The keys the synthesis stage records are used by its status check as
      they are. */
  lemma AudioKeyOfAudioKey(stem: string, lang: string, ts: string)
    ensures AudioKeyOf(AudioKey(stem, lang, ts)) == Some(AudioKey(stem, lang, ts))
  {
    var k := AudioKey(stem, lang, ts);
    assert k[0] == 'a';
  }

  // ---------------------------------------------------------------------
  // Keys with a single `/`

  /** A directory name, one `/`, and a name: the text holds `/` at most once. */
  lemma OneSlash(dir: string, name: string)
    requires '/' !in dir && '/' !in name
    ensures var s := dir + "/" + name;
      forall a, b | 0 <= a < b < |s| && s[a] == '/' :: s[b] != '/'
  {
    var s := dir + "/" + name;
    assert forall a | 0 <= a < |dir| :: s[a] == dir[a];
    assert forall b | |dir| < b < |s| :: s[b] == name[b - |dir| - 1];
  }

  /** A translation key holds `/` at most once when the stem, the language
      and the timestamp hold none. */
  lemma TranslationKeyOneSlash(stem: string, lang: string, ts: string)
    requires '/' !in stem && '/' !in lang && '/' !in ts
    ensures var s := TranslationKey(stem, lang, ts);
      forall a, b | 0 <= a < b < |s| && s[a] == '/' :: s[b] != '/'
  {
    var name := stem + "_translation_" + lang + "-" + ts + ".txt";
    assert TranslationKey(stem, lang, ts) == "translations" + "/" + name;
    OneSlash("translations", name);
  }

  /** The same for a transcript key. */
  lemma TranscriptKeyOneSlash(stem: string, ts: string)
    requires '/' !in stem && '/' !in ts
    ensures var s := TranscriptKey(stem, ts);
      forall a, b | 0 <= a < b < |s| && s[a] == '/' :: s[b] != '/'
  {
    var name := stem + "_transcript_" + TranscriptLanguage + "-" + ts + ".txt";
    assert TranscriptKey(stem, ts) == "transcripts" + "/" + name;
    OneSlash("transcripts", name);
  }

  /** The stem of a name without `/` has none either. */
  lemma StemNoSlash(filename: string)
    requires '/' !in filename
    ensures '/' !in Stem(filename)
  {
    var stem := Stem(filename);
    assert forall j | 0 <= j < |stem| :: stem[j] == filename[j];
  }
}
