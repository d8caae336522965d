# Segment normalisation of the video-to-script backend, in Dafny

The backend takes an uploaded video, runs Whisper speech recognition on it and
returns the recognised text as a list of segments, with or without timestamps.
Its logic lives in `whisper_utils.py`. This project models that file:

- `format_timestamp`: a time in seconds rendered as `HH:MM:SS`. The fields come
  from Python's floor division, modulo and `int()`, so fractions of a second are
  dropped, not rounded. Each field is zero-padded to two characters.
  Module `Timestamp` (`timestamp.dfy`).
- The `str.strip()` applied to each segment's text. Module `Text` (`text.dfy`).
- `generate_sentence_segments`: one output record per recogniser segment, in
  order. Each record holds the stripped text and, when asked, the formatted start
  and end. Module `Segments` (`segments.dfy`). The loop is a method proved equal to
  the recursive function `Sentences`. The function's docstring promises to "split
  transcription into sentences", but the code never splits a segment: it maps
  segments to records one to one. The model follows the code.
- `load_model_cached` and `transcribe_video`: the lazy, load-once model cache and
  the composition cache, then recogniser, then normaliser. Module `WhisperUtils`
  (`whisper_utils.dfy`). The module-level dict `_model_cache` is a `ModelCache`
  object with an optional `model` field and a ghost count of loader calls.

Python floats are modelled as exact reals. The model follows Python's
arithmetic for every real input, negative ones included. For a negative time,
floor division gives a negative hour, printed with its sign: -0.5 s prints as
"-1:59:59". Recogniser times are never negative in practice; the code does not
reject negative ones, so the model covers them too.

The endpoint in `app.py` does not call `whisper_utils.py` at all: it loads its
own model eagerly (`app.py` line 26) and prints times as `.2f` floats
(lines 50-51). The lazy load in
`whisper_utils.py` has no lock. This model follows `whisper_utils.py` as
written.

## Model

| member | source | states |
|---|---|---|
| `Timestamp.FloorDiv` | whisper_utils.py:17-18 | Python's float `//`: the floor of the exact quotient; FloorDivOfWhole pins it for the divisors used |
| `Timestamp.FloorMod` | whisper_utils.py:18-19 | Python's float `%`: what remains after `//`, so its sign follows the divisor; FloorModOfWhole pins it |
| `Timestamp.Truncate` | whisper_utils.py:17-19 | `int()` on a float: rounding toward zero, not flooring; FieldsTruncate shows the fields it produces are ClockOf(floor t) |
| `Timestamp.FloorDivOfWhole` | whisper_utils.py:17-18 | for the divisors 60 and 3600, float `t // d` equals integer division of the whole seconds of `t` |
| `Timestamp.FloorModOfWhole` | whisper_utils.py:18-19 | float `t % d` is the whole seconds' remainder plus the same fraction, so it lies in [0, d) even for negative `t` |
| `Timestamp.FieldsOf` | whisper_utils.py:17-19 | the three fields exactly as lines 17-19 compute them; FieldsTruncate equates them with ClockOf(floor t) for every real t |
| `Timestamp.ClockOf` | whisper_utils.py:17-19 | the whole-second fields: minutes and seconds in 0..59, hours*3600 + minutes*60 + seconds equals the input, hours non-negative exactly when the input is |
| `Timestamp.ClockOfUnique` | whisper_utils.py:17-19 | any hours/minutes/seconds with minutes and seconds below 60 that add up to n are the fields of n |
| `Timestamp.FieldsTruncate` | whisper_utils.py:17-19 | the three fields computed from a real `t` depend only on `floor(t)`: truncation, not rounding |
| `Timestamp.DecimalString` | whisper_utils.py:20 | decimal rendering of a natural number: digits only, no leading zero, one digit below 10, at most two below 100 |
| `Timestamp.ZeroPad2` | whisper_utils.py:20 | the `:02` format spec on an int; ZeroPad2Shape gives its shape and ZeroPad2RoundTrip shows it loses nothing |
| `Timestamp.Render` | whisper_utils.py:20 | the f-string: three padded fields joined by ':'; RenderSlices locates each field in the result |
| `Timestamp.RenderSlices` | whisper_utils.py:20 | with two-character minutes and seconds, the hours are all but the last six characters and the minutes and seconds sit between and after the two ':' |
| `Timestamp.FormatTimestamp` | whisper_utils.py:16-20 | `format_timestamp` itself; FormatTimestampTruncates reduces it to the whole seconds and FormatTimestampSameIff shows two times print alike exactly when their whole seconds agree |
| `Timestamp.ZeroPad2Shape` | whisper_utils.py:20 | the `02` format spec: at least two characters, a leading '-' exactly for negatives, exactly two digits exactly for 0..99 |
| `Timestamp.FormatSecondsShape` | whisper_utils.py:16-20 | the rendering of whole seconds always ends in ":MM:SS" with two-digit minutes and seconds; it has exactly the shape DD:DD:DD exactly when 0 <= n < 100 hours |
| `Timestamp.FormatTimestampTruncates` | whisper_utils.py:16-20 | `format_timestamp(t)` is the rendering of the whole seconds `floor(t)` |
| `Timestamp.DecimalStringRoundTrip` | whisper_utils.py:20 | reading the decimal rendering back gives the number |
| `Timestamp.ZeroPad2RoundTrip` | whisper_utils.py:20 | reading a padded field back, sign included, gives the field |
| `Timestamp.FormatSecondsRoundTrip` | whisper_utils.py:16-20 | reading "H:MM:SS" back gives the number of seconds rendered, so distinct whole seconds render distinctly |
| `Timestamp.FormatTimestampReadsBackFloor` | whisper_utils.py:16-20 | what `format_timestamp(t)` prints reads back as `floor(t)` |
| `Timestamp.FormatTimestampSameIff` | whisper_utils.py:16-20 | two times print the same string if and only if they have the same whole seconds |
| `Timestamp.Example3725` | whisper_utils.py:16-20 | 3725 whole seconds render as "01:02:05" |
| `Timestamp.ExampleFractionDropped` | whisper_utils.py:16-20 | every time from 3725 s up to 3726 s, 3725.9 included, prints "01:02:05" |
| `Timestamp.Example59` | whisper_utils.py:16-20 | 59 whole seconds render as "00:00:59" |
| `Timestamp.ExampleNeverRoundsUp` | whisper_utils.py:16-20 | every time in [59, 60), 59.999 included, prints "00:00:59": never rounded up to a minute |
| `Timestamp.Example0` | whisper_utils.py:16-20 | 0 whole seconds render as "00:00:00" |
| `Timestamp.ExampleZero` | whisper_utils.py:16-20 | every time in [0, 1), 0 included, prints "00:00:00" |
| `Timestamp.OneDigitSeconds` | whisper_utils.py:16-20 | a time below ten seconds prints as "00:00:0" followed by its whole-second digit |
| `Timestamp.ExampleMinus1` | whisper_utils.py:16-20 | -1 whole seconds render as "-1:59:59" |
| `Timestamp.ExampleNegative` | whisper_utils.py:16-20 | every time in [-1, 0), -0.5 included, prints "-1:59:59" under Python's floor semantics |
| `Text.IsSpace` | whisper_utils.py:31 | Python's `str.isspace` on one character: membership in the set `Whitespace` of the 29 characters CPython treats as whitespace |
| `Text.Strip` | whisper_utils.py:31 | `str.strip()`: the result is no longer than the input and has no whitespace at either end |
| `Text.StripOfLeadingSpace` | whisper_utils.py:31 | a whitespace character in front of a text leaves what `strip` may return unchanged |
| `Text.StripOfTrailingSpace` | whisper_utils.py:31 | a whitespace character at the end of a text leaves what `strip` may return unchanged |
| `Text.StripIsStripOf` | whisper_utils.py:31 | the result is a slice of the input with only whitespace before and after it |
| `Text.StripOfUnique` | whisper_utils.py:31 | only one string has that property, so it determines `strip` completely |
| `Text.StripTrimmed` | whisper_utils.py:31 | a text with no whitespace at its ends is returned unchanged |
| `Text.StripIdempotent` | whisper_utils.py:31 | stripping twice is stripping once |
| `Text.StripExample` | whisper_utils.py:31 | " Hello world.\n" strips to "Hello world.", keeping the inner blank |
| `Text.StripBlankExample` | whisper_utils.py:31 | an all-whitespace text strips to "" |
| `Segments.SentenceOf` | whisper_utils.py:29-39 | the loop body for one segment; SentencesAt shows record i of the output is SentenceOf of segment i |
| `Segments.Sentences` | whisper_utils.py:27-40 | the list the loop builds has one record per segment |
| `Segments.SentencesAt` | whisper_utils.py:27-40 | record i is built from segment i alone: no merging, filtering or reordering |
| `Segments.SentencesMatch` | whisper_utils.py:27-40 | every record of `Sentences` has the strip of its segment's text, and start and end formatted from its segment's times exactly when the flag is set |
| `Segments.SentencesSnoc` | whisper_utils.py:27-40 | one more segment appends its own record at the end and changes none before it |
| `Segments.GenerateSentenceSegments` | whisper_utils.py:22-40 | the loop returns `Sentences(segments, flag)`: same length as the input (so empty gives empty), record i's text is the strip of segment i's text, it is timed exactly when the flag is set, and then its start and end are `format_timestamp` of segment i's start and end |
| `Segments.SentencesAppend` | whisper_utils.py:27-40 | the records of two runs of segments are the records of each run, concatenated in order |
| `Segments.SentenceTextsTrimmed` | whisper_utils.py:31 | every record's text has no whitespace at its ends and is left unchanged by a second strip |
| `Segments.TimestampsPresentIff` | whisper_utils.py:32-39 | every record has start and end when the flag is set, and none has them when it is not |
| `Segments.AsDict` | whisper_utils.py:33-39 | a record as a dict always has "text" holding the record's text; it has "start" and "end" exactly for timed records, holding the record's start and end; it has no other keys |
| `Segments.DictsOfSentences` | whisper_utils.py:27-40 | dict i of the returned list holds the strip of segment i's text; with timestamps it has exactly the keys start, end and text, with start and end as `format_timestamp` prints segment i's times; without, it has the key text alone |
| `Segments.SentencesOfTwo` | whisper_utils.py:27-40 | two segments give their two records, in order |
| `Segments.ExampleTimedRecord` | whisper_utils.py:29-35 | a segment "a" from within second 0 to within second 1 gives the timed record ("00:00:00", "00:00:01", "a") |
| `Segments.ExampleTwoSegmentsUntimed` | whisper_utils.py:22-40 | segments "a" and " b " without timestamps give the text-only records "a" and "b", whatever their times |
| `WhisperUtils.LoadModel` | whisper_utils.py:13 | the foreign loader returns a newly allocated model for the given path |
| `WhisperUtils.ModelCache.constructor` | whisper_utils.py:5 | the cache starts empty, with no load performed |
| `WhisperUtils.ModelCache.LoadModelCached` | whisper_utils.py:11-14 | after a call the cache holds the returned model and exactly one load has happened; if it was already full, the same object is returned and no load happens; otherwise a fresh model for MODEL_PATH is loaded |
| `WhisperUtils.LoadTwice` | whisper_utils.py:11-14 | two successive calls return the same object, with one load in total |
| `WhisperUtils.TranscribeVideo` | whisper_utils.py:42-49 | the result is the normalised records of the recogniser's segments for the cached model; at most one load ever happens and a model already cached is kept |

## Left out

- `app.py` as a whole: the FastAPI app, CORS set-up, the upload endpoint, the debug exception handler and the health route are HTTP plumbing.
- Upload-file handling: creating the upload directory, writing the upload and deleting it afterwards. These are filesystem side effects.
- The random `uuid4` upload names. Their uniqueness is a property of randomness, not of the code.
- The `.2f` float rendering of times in `app.py`.
- Rounding of floating-point arithmetic: times are exact reals, so inputs where a float `%` or `//` rounds differently from exact arithmetic are not covered.
- `whisper.load_model` and `model.transcribe` are foreign. The loader is a method that allocates a fresh model object. The recogniser is a function passed to `TranscribeVideo` that returns the `"segments"` list. The other keys of its result dict are not modelled.
- Computing `MODEL_PATH` from the module's own file location (lines 7-9) is environment I/O. The path is a constructor parameter of `ModelCache`.
- Exceptions are not modelled: a loader or recogniser that raises, a segment missing one of its keys, or a non-string text.
- Concurrency: `load_model_cached` has no lock. Two threads could both see an empty cache and load twice. The model is single-threaded.
- The unused `import time`.
- Non-finite floats: `format_timestamp` of an infinite or NaN time raises ValueError in `int(...)`. Exact reals cannot express either value.
- `if with_timestamp:` (line 32) tests truthiness, so any truthy value selects timestamps. The model takes a `bool`.
- `AsDict`: a Dafny map has no order, so the insertion order `start`, `end`, `text` of the dict built on lines 33-37 is not modelled.
