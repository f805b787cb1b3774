# Speech pipeline stage handlers, modelled in Dafny

The repository is a set of AWS Lambda handlers. Together they turn an uploaded
audio file into translated speech:

1. **transcribe** checks that the uploaded object exists and submits a
   transcription job. It polls the job until it is COMPLETED or FAILED, then
   replaces the engine's JSON output with the plain transcript text.
2. **status_transcription** passes the engine's job status through, behind
   two guard clauses.
3. **translate** recovers the transcript's key from the URL the engine
   reported and reads the transcript once. It then translates it into each
   target language, recording a URI or an error text per language.
4. **status_translation** asks the store, for every target language, whether
   the recorded translation exists. It reports COMPLETED exactly when all of
   them do, and IN_PROGRESS otherwise.
5. **synthesize** synthesizes speech for the es/fr/de texts that are not
   empty, in that order, and stores the audio. The first error aborts the
   stage.
6. **status_synthesis** reports EXISTS, NOT_FOUND or `ERROR: …` for every
   recorded audio key.

The model keeps each handler's branches, guard order, messages, key templates
and store effects. What lies outside the repository becomes a parameter:

- The object store (S3) is a value `Store`: the objects by key, plus the keys
  on which reads or writes fail with a given fault. `Head`, `Get` and `Put`
  are functions on it, and handlers return the new store.
- The three engines are function-typed parameters (`Translator`,
  `Synthesizer`) or given outcomes (`start`, the list of poll answers).
- Clock readings are parameters: an epoch number and timestamp strings. The
  translation stage reads the clock once per successful translation, so it
  takes a `clock: nat -> string`; the model gives the `i`-th language the
  `i`-th reading, whether or not its translation succeeds. Only the readings
  of successful translations are used.
- JSON bodies arrive already parsed, as `Parsed<T>`: undecodable, a value
  the handler's next access raises on, or the fields the handler reads.
- An exception that escapes a handler is the response `Raised`.

Python's `split`, `replace` and `startswith` are modelled with their exact
semantics in module `Text`. That module also has `str(n)` and its inverse.

The loops the source writes as loops are methods with invariants:

- the poll loop;
- the translation fan-out, which fills `results` in place;
- the per-language checks of both status handlers;
- the text collection and the synthesis loop.

Three loops are proved equal to a recursive specification function:
`Transcribe.PollUntilTerminal` to `PollOutcome`, `Translate.TranslateAll` to
`FanOut`, and `Synthesize.SynthesizeAll` to `Synthesis`.
`StatusTranslation.CheckAll` is proved equal to three functions: `Stopped`,
`Messages` and `AllFound`. The promised properties are proved as lemmas about
those functions. `Synthesize.CollectTexts` and `StatusSynthesis.CheckAll`
state their outcome directly, by quantified postconditions over the
languages. Each `Handle` method ties its response to these functions and to
the store operations, clause by clause. Module
`Pipeline` proves what consecutive stages promise each other: the key a stage
stores is the key the next stage recovers from the URI it is handed, and
finds.

Some behaviours of the code are kept as written:

- The transcription stage polls the job in a loop inside a single
  invocation. It does not return and leave the polling to the status check.
- The translation status check never reports FAILED. A language whose
  translation failed is missing from the store, so the status stays
  IN_PROGRESS.

## Model

| member | source | states |
|---|---|---|
| Common.Head | lambda/transcribe.py:65 | `head_object` succeeds exactly on a non-empty key that is stored and not faulted; a missing key gives a ClientError with code 404 |
| Common.Get | lambda/translate.py:74-75 | `get_object` succeeds exactly when `head_object` would, and then returns the stored content |
| Common.Put | lambda/translate.py:101 | `put_object` succeeds exactly on a non-empty key that is not write-faulted, and fails with that key's fault otherwise; afterwards the key reads back as the body and every other key reads as before |
| Text.IndexOfFirst | lambda/translate.py:56 | the scan `split` performs finds an occurrence exactly when the separator occurs, and then the leftmost one |
| Text.AfterLastPiece | lambda/transcribe.py:43 | `s.split(sep)[-1]` is a suffix of `s` with no separator in it, and is all of `s` when `sep` does not occur |
| Text.AfterLastPreceded | lambda/transcribe.py:43 | when `sep` occurs, a separator stands right before the last piece |
| Text.AfterLastOfJoin | lambda/transcribe.py:43 | `(p + c + q).split(c)[-1] == q` whenever `q` holds no `c` |
| Text.BeforeFirstPiece | lambda/transcribe.py:58 | `s.split(sep)[0]` holds no separator, is all of `s` when `sep` does not occur, and is followed by `sep` otherwise |
| Text.BeforeFirstOfJoin | lambda/transcribe.py:58 | `(p + c + q).split(c)[0] == p` whenever `p` holds no `c` |
| Text.AfterFirst | lambda/status_synthesis.py:119 | `s.split(sep, 1)[1]` exists exactly when `sep` occurs, and the first piece, `sep` and it rebuild `s` |
| Text.RemoveAllAbsent | lambda/status_translation.py:97 | `replace(pat, "")` leaves a text without `pat` unchanged |
| Text.RemoveAllLeading | lambda/status_translation.py:97 | `replace(pat, "")` on `pat + rest` drops the leading copy and goes on with `rest` |
| Text.Decimal | lambda/transcribe.py:59 | `str(n)` is a non-empty string of digits with no leading zero |
| Text.DecimalRoundTrip | lambda/transcribe.py:59 | reading `str(n)` back gives `n` |
| Text.DecimalInjective | lambda/transcribe.py:59 | different numbers print differently |
| Naming.OriginalFilenameIsLastSegment | lambda/transcribe.py:43 | the file name holds no `/`; it is the whole key when the key has none, and otherwise the text after the last `/` |
| Naming.OriginalFilenameOfPath | lambda/transcribe.py:43 | `dir/name` with `name` free of `/` yields `name` |
| Naming.StemIsFirstPart | lambda/transcribe.py:58 | the base name holds no `.`; it is the whole name when the name has none, and otherwise the part before the first `.` |
| Naming.StemOfName | lambda/transcribe.py:58 | `base.ext` with `base` free of `.` yields `base`, whatever `ext` holds |
| Naming.JobNameEpoch | lambda/transcribe.py:59 | the epoch seconds are what follows the last `-` of the job name |
| Naming.JobNameInjective | lambda/transcribe.py:59 | equal job names mean equal base names and equal epoch seconds |
| Naming.TranscriptKeyInjective | lambda/transcribe.py:85 | two transcript keys of one base name coincide only at equal timestamps |
| Naming.TranslationKeyInjective | lambda/translate.py:98 | with fixed-width timestamps, two translation keys of one base name coincide only for the same language and timestamp |
| Naming.TranslationKeysDiffer | lambda/translate.py:98 | translations into different languages never share a key |
| Naming.AudioKeyInjective | lambda/synthesize.py:156 | with equal-width timestamps, two audio keys of one base name coincide only for the same language and timestamp |
| Naming.AudioKeyOf | lambda/status_synthesis.py:115-119 | a key without `s3://` is used as it is; after `s3://` the parse raises exactly when no `/` follows |
| Naming.TranscriptKeyOfUnmarked | lambda/translate.py:56 | a URI without the regional marker is taken whole as the key |
| Naming.TranslationKeyOfUnprefixed | lambda/status_translation.py:97 | a URL without `s3://{bucket}/` is taken whole as the key |
| Naming.TranscriptKeyOfRegionalUrl | lambda/translate.py:56 | the translation stage's parser recovers `key` from `https://s3.us-east-1.amazonaws.com/{bucket}/{key}` when the key does not hold the marker |
| Naming.TranslationKeyOfS3Uri | lambda/status_translation.py:97 | the translation status parser recovers `key` from `s3://{bucket}/{key}` when the key does not hold that prefix |
| Naming.AudioKeyOfS3Uri | lambda/status_synthesis.py:115-119 | the synthesis status parser recovers `key` from `s3://{bucket}/{key}` when the bucket holds no `/` |
| Naming.AudioKeyOfAudioKey | lambda/status_synthesis.py:115 | the audio keys the synthesis stage records are used unchanged by its status check |
| Naming.TranslationKeyOneSlash | lambda/translate.py:98 | a translation key holds `/` only once when its parts hold none |
| Naming.TranscriptKeyOneSlash | lambda/transcribe.py:115 | a transcript key holds `/` only once when its parts hold none |
| Naming.StemNoSlash | lambda/translate.py:98 | the base name of a file name without `/` has no `/` either |
| Transcribe.Response.StatusCode | lambda/transcribe.py:139-184 | a returned response has status 200 exactly on success and 400 exactly on a missing event field; every other response has 500 |
| Transcribe.PollStopsAtFirstTerminal | lambda/transcribe.py:89-102 | polling stops at the first answer that is COMPLETED or FAILED, or a failed call; every earlier answer was a non-terminal status |
| Transcribe.PollUntilTerminal | lambda/transcribe.py:89-102 | the `while True` loop ends where the polling specification says |
| Transcribe.Request | lambda/transcribe.py:79-86 | the submitted job is named `{base}-{epoch}`, reads `s3://{bucket}/{key}`, and writes `transcripts/{base}_transcript_en-US-{ts}.txt` in the same bucket |
| Transcribe.Failure | lambda/transcribe.py:168-184 | a ClientError is reported as 'S3 ClientError' and anything else as 'Internal Server Error', both with the fault's text |
| Transcribe.SaveTranscript | lambda/transcribe.py:115-156 | on success the transcript key is overwritten with the first transcript of the engine's JSON, every other key is unchanged, and the job name, the URI `s3://{bucket}/{transcript key}`, the bucket and the original file name are reported; any failure leaves the store unchanged |
| Transcribe.SaveTranscriptOutcome | lambda/transcribe.py:119-184 | the save succeeds exactly when the engine's output reads, decodes to at least one transcript, and the first transcript can be written back; a failed read or write gives the 500 of its fault kind (S3ClientError for a ClientError), and a bad envelope or an empty transcript list gives InternalServerError |
| Transcribe.StoreTranscript | lambda/transcribe.py:119-156 | the get, decode and put in the handler's order compute what the save specification says |
| Transcribe.Handle | lambda/transcribe.py:38-184 | a missing bucket or key gives 400 and no job; a missing source gives the store's fault and no job; otherwise exactly the named job is submitted; FAILED gives its reason or 'Unknown error'; only a completed job changes the store |
| StatusTranscription.FilenameOf | lambda/status_transcription.py:82 | the file name is present exactly when the key is non-empty; it holds no `/`, and it is the whole key or the suffix right after the key's last `/` |
| StatusTranscription.Check | lambda/status_transcription.py:35-112 | without a job name the response is 'Job name is required.' and the engine is not asked; a body `json.loads` rejects, or one `in` cannot search, raises unasked; an upstream error is reported with its message, unasked; the engine is asked exactly when both guards pass, also for an array or string body; its status passes through unchanged, with a transcript URI exactly when it is COMPLETED; engine failures and a COMPLETED job without a URI give fixed messages |
| Translate.FailureEntry | lambda/translate.py:110-125 | a ClientError is recorded as 'Translation failed for {lang}. Error: …' and any other fault as 'Translation not found for {lang}. Error: …' |
| Translate.TranslationKeyFor | lambda/translate.py:98 | a translation key exists exactly when the original file name does, and is never empty |
| Translate.Attempt | lambda/translate.py:87-125 | one language records the entry its own outcome determines; the store changes exactly by the translation's put, and only when translation, naming and writing all succeed |
| Translate.FanOutKeys | lambda/translate.py:81-125 | every target language gets exactly one entry in the results, and no other key appears |
| Translate.FanOutEntries | lambda/translate.py:81-125 | the entry of each language is what its own last attempt gives, whatever the other languages met |
| Translate.FanOutStored | lambda/translate.py:97-107 | with distinct languages and fixed-width timestamps, every language whose translation can be stored is recorded as `s3://{bucket}/translations/…`, and that object holds its translation |
| Translate.TranslateAll | lambda/translate.py:81-125 | the `for` loop fills the results and the store exactly as the fan-out specification says |
| Translate.Handle | lambda/translate.py:37-164 | a missing event field raises; an empty parsed key gives 400 before any read; a failed transcript read gives 500 with no results, carrying `str(e)` exactly when the fault is a ClientError; otherwise 200 with one entry per language, echoing the languages and `audio_inputs/{original_filename}` |
| StatusTranslation.LanguagesOf | lambda/status_translation.py:38-53 | `target_languages` in the body, when present, replaces the event's |
| StatusTranslation.Message | lambda/status_translation.py:107-141 | the message for a language is 'exists', 'not found' or 'error checking status', as its verdict says |
| StatusTranslation.StoppedIff | lambda/status_translation.py:85-195 | the check aborts exactly when some language meets a fault other than a ClientError |
| StatusTranslation.MessagesKeys | lambda/status_translation.py:88-147 | every target language gets a message, and no other language does |
| StatusTranslation.MessagesValues | lambda/status_translation.py:88-147 | each target language's message is the one its verdict calls for |
| StatusTranslation.AllFoundIff | lambda/status_translation.py:79-150 | the flag stays up exactly when every target language's translation exists |
| StatusTranslation.CheckAll | lambda/status_translation.py:79-147 | the loop aborts, fills the messages and lowers the flag exactly as the specification functions say |
| StatusTranslation.CheckOne | lambda/status_translation.py:90-147 | one language's lookup and `head_object` call give the message, the found flag and the abort of its verdict |
| StatusTranslation.Handle | lambda/status_translation.py:35-195 | bad JSON gives 400 'Invalid body format.'; missing parameters give 400; otherwise the status is COMPLETED exactly when every target language's URL is non-empty and its key exists, else IN_PROGRESS, with one message per target language |
| Synthesize.VoiceFor | lambda/synthesize.py:13-17 | a voice exists exactly for es, fr and de, so the 'No voice available' branch is never taken |
| Synthesize.Step | lambda/synthesize.py:129-191 | one language fails exactly with the fault its own attempt meets; an empty text changes nothing; a success records `audio_outputs/{base}_{lang}-{ts}.mp3` and stores the audio there |
| Synthesize.Synthesis | lambda/synthesize.py:126-191 | the loop keeps the store's faults, and a failure is either a client error naming the language or the unexpected error |
| Synthesize.SynthesisStops | lambda/synthesize.py:182-191 | once a language aborts the loop, the later languages change nothing |
| Synthesize.SynthesisRunsThrough | lambda/synthesize.py:126-191 | the loop runs through exactly when no language's attempt meets a fault, and then records exactly the languages with a non-empty text |
| Synthesize.SynthesisFirstFault | lambda/synthesize.py:182-191 | an aborted loop reports the fault of the first failing language; every earlier language ran and recorded exactly when its text was non-empty |
| Synthesize.SynthesisStored | lambda/synthesize.py:156-179 | every recorded language has a text and is recorded under its own audio key, which holds the engine's audio, also when a later language aborts |
| Synthesize.SynthesisFrame | lambda/synthesize.py:173 | the keys written are exactly the recorded audio keys, and every other object is as it was |
| Synthesize.CollectTexts | lambda/synthesize.py:95-101 | exactly es, fr and de get a text, the one in the results or '' |
| Synthesize.SynthesizeAll | lambda/synthesize.py:126-191 | the loop computes what the synthesis specification says |
| Synthesize.Handle | lambda/synthesize.py:44-216 | bad JSON, a missing bucket, a missing file name and no texts are rejected in that order with no write; otherwise the store and the response are those of the synthesis over es, fr, de |
| StatusSynthesis.AudioStatusMeaning | lambda/status_synthesis.py:123-153 | EXISTS exactly when the key is stored, NOT_FOUND exactly on a 404, `ERROR: ` and the text of any other ClientError, and an escape exactly when the key cannot be parsed or the fault is not a ClientError |
| StatusSynthesis.CheckAll | lambda/status_synthesis.py:106-153 | the loop raises exactly when some language's check raises; otherwise every recorded language, and no other, has its own status |
| StatusSynthesis.Handle | lambda/status_synthesis.py:41-176 | a missing bucket, a malformed or missing `synthesisResult` body, and bad JSON give 400 in that order; otherwise the statuses of exactly the parsed results |
| Pipeline.TranscriptReadBack | lambda/translate.py:56 | the translation stage recovers the transcript key the transcription job wrote from the regional URL the engine reports |
| Pipeline.TranslationUriReadBack | lambda/status_translation.py:97 | the translation status check turns each recorded `s3://` URI back into the translation's key |
| Pipeline.TranslationsFound | lambda/status_translation.py:94-150 | when every translation succeeds and its key can be written and read, the status check finds every target language's translation |
| Pipeline.AudioFound | lambda/status_synthesis.py:115-130 | every audio key the synthesis stage records is found by the status check after it, when its key can be read |

## Left out

- The AWS clients (S3, Transcribe, Translate, Polly) are not modelled. Their behaviour is given by the `Store` value and by engine parameters.
- JSON encoding and decoding are not modelled. Bodies arrive parsed, and the transcript's JSON envelope is a `decode` parameter.
- Fields the handlers read are modelled as strings, lists of strings and maps of strings. A value of another JSON type (a number in place of a string, say) is not represented.
- Text and audio are strings. Bytes and UTF-8 decoding are not modelled.
- `datetime.now()` and `time.time()` formatting are not modelled. Clock readings are parameters.
- Transcribe.Handle: the transcription engine writes its JSON output to the transcript key while the job runs. That write is not modelled as a step: it is folded into the store the handler starts from, which already holds the output that `SaveTranscript` reads.
- Transcribe.Handle: the `while True` poll loop has no bound. It is modelled over a finite list of engine answers, and `StillPolling` stands for a loop that has not returned within them.
- The logger (`lambda/helpers/logger.py`), the datetime serializer and `lambda/trigger.py` are not modelled. Only trigger's language list es/fr/de is used, as `SupportedLanguages`.
- The `finally` clauses only log, so they are not modelled.
- Each store holds one bucket. A handler is never asked about a second bucket.
- StatusTranslation.Handle: a body that is valid JSON but not an object raises `AttributeError` on `.get`. It is modelled as `Raised`, and so is the same case in the synthesis and synthesis status handlers. The transcription status check does not call `.get` on its body. There, an array or a string gets past `'error' in body` and the engine is asked, while a number, a boolean or null raises.
- StatusTranslation.Handle: an undecodable body returns 400 'Invalid body format.'. The `finally` clause that reads `original_filename` belongs to a later `try`, which is never entered on that path.
- StatusTranslation.LanguagesOf: a `target_languages` field holding null is read as an empty list.
- StatusSynthesis.CheckAll: the dict's iteration order is left arbitrary. The proved outcome does not depend on it.
- Synthesize.VoiceFor: the 'No voice available' response is not a `Response` variant, because its branch cannot be taken.
