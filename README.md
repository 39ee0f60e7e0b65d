# Whisper Transcriber: a Dafny model of its core

The Transcriber is a small web front end around the Whisper speech model. This
project models the two parts of `app.py` that hold logic of their own.

- **Choosing the model size.** At start-up the program picks the largest Whisper
  model that the free memory allows (`recommend_model_size`). The choice is
  `tiny` below 4 GB, `base` below 8 GB, `small` below 16 GB and `medium` from
  16 GB up. One gigabyte is 10^9 bytes.
- **Handling a request.** The `transcribe` handler answers with a fixed pair of
  strings when nothing was uploaded. Otherwise it passes the audio to the model
  and formats the result into two strings:
  - a summary that names the detected language and gives the full text with its
    surrounding whitespace stripped;
  - a transcript with one `[MM:SS - MM:SS] text` line per segment, in order.

Modules:

- `Wrappers` (wrappers.dfy): the `Option` type.
- `Text` (text.dfy): Python's `str.strip()` over the exact whitespace set of
  `str.isspace()`, decimal rendering of natural numbers, and a first-occurrence
  search.
- `ModelSize` (model_size.dfy): the ordered tiers and the recommendation.
- `Transcriber` (transcriber.dfy): the time fields, the per-segment line, the
  transcript, the summary, and the `Transcribe` handler.

`Transcribe` is a method. Like the source, it builds the transcript in a loop
that appends one line per segment. Its loop invariant ties the growing string
to the recursive definition `Timestamped`, so its contract states its two
results in terms of the recognised result.

Every formatter has an inverse parser in the model, with a round-trip lemma:

- `ParseTime` for `FormatTime`;
- `ParseLine` for `Line`;
- `Lines` for `Timestamped`;
- `ParseSummary` for `Summary`;
- `DigitsValue` for `Decimal`.

`Strip` is characterised independently of its definition: what it keeps is the
input minus a leading and a trailing run of whitespace, and nothing more is
removed.

## Model

| member | source | states |
|---|---|---|
| ModelSize.RecommendModelSize | app.py:14-19 | The chosen tier's memory threshold is met, and no tier with a met threshold ranks higher: the largest model the memory allows. |
| ModelSize.Thresholds | app.py:16-19 | Both directions for each tier: tiny exactly below 4 GB, base exactly from 4 GB to below 8 GB, small exactly from 8 GB to below 16 GB, medium exactly from 16 GB. Each threshold belongs to the higher tier. |
| ModelSize.Monotone | app.py:16-19 | More available memory never yields a smaller model. |
| ModelSize.Name | app.py:16-19 | The name handed to the loader is one of `tiny`, `base`, `small`, `medium`. |
| ModelSize.NameInjective | app.py:16-19 | Distinct tiers have distinct model names. |
| Text.LeadingSpaces | app.py:31 | Counts the leading characters of a string that are whitespace, up to the first one that is not. |
| Text.TrailingSpacesStart | app.py:31 | The position after which every character is whitespace, with the character before it not whitespace. |
| Text.StripSpec | app.py:31 | `strip()` returns a contiguous slice of its input. Only whitespace lies before and after that slice, and neither end of the slice is whitespace. |
| Text.StripOfPadded | app.py:31 | The converse: text whose ends are not whitespace, surrounded by any whitespace, strips back to exactly that text. Together with StripSpec this fixes `strip()` uniquely. |
| Text.StripIdempotent | app.py:31 | Stripping an already stripped string changes nothing. |
| Text.Decimal | app.py:41 | The decimal form of a number: only digits, at least one, a leading `0` only for zero, one digit exactly below 10, at most two exactly below 100. |
| Text.DecimalRoundTrip | app.py:41 | The decimal form reads back as the number. |
| Transcriber.PadTwo | app.py:41 | The `:02d` field: only digits, at least two, exactly two below 100, and no leading zero from 10 on. With PadTwoRoundTrip this fixes the string for every number. |
| Transcriber.PadTwoRoundTrip | app.py:41 | The zero-padded field reads back as the number. |
| Transcriber.FormatTime | app.py:41 | `MM:SS` is exactly five characters below 6000 seconds and longer from there on. From 600 seconds on the minute field has no leading zero, so 6000 s is `100:00`. |
| Transcriber.FormatTimeRoundTrip | app.py:41 | Parsing `MM:SS` gives back the seconds. So the minutes are `s // 60`, the seconds `s % 60`, and the seconds field is below 60. |
| Transcriber.FormatTimeChars | app.py:41 | A time field holds only digits and the colon. |
| Transcriber.NoMinuteWrap | app.py:41 | Minutes are not wrapped into hours: 3661 s shows as `61:01` and 65 s as `01:05`. |
| Transcriber.ParseLineRoundTrip | app.py:38-41 | A segment's line reads back as its start and end seconds and its stripped text. An end earlier than the start is passed through unchanged. |
| Transcriber.Timestamped | app.py:35-41 | The transcript is empty exactly when there are no segments. |
| Transcriber.TimestampedAppend | app.py:37-41 | The transcript of two runs of segments is the first transcript followed by the second. Each line depends on its own segment only. |
| Transcriber.TimestampedCons | app.py:37-41 | The transcript starts with the first segment's line and a newline. |
| Transcriber.TimestampedEndsWithNewline | app.py:41 | A non-empty transcript ends with a newline, the last line included. |
| Transcriber.TimestampedLines | app.py:35-41 | Split at newlines, the transcript gives exactly one line per segment, in segment order, each equal to that segment's line. This assumes no stripped segment text contains a newline. |
| Transcriber.LineHasNoNewline | app.py:41 | A line contains a newline only when the stripped segment text does. |
| Transcriber.TwoSegmentExample | app.py:35-41 | Segments (5, 12, " hi ") and (65, 70, "bye") give `[00:05 - 00:12] hi\n[01:05 - 01:10] bye\n`. |
| Transcriber.NoUploadSkipsModel | app.py:26-27 | A model that accepts no input at all, given no upload, still yields `("No file uploaded", "")`. |
| Transcriber.ParseSummaryRoundTrip | app.py:31-43 | The summary reads back as the language code and the stripped full text, for a language code without a newline. |
| Transcriber.Transcribe | app.py:25-43 | Without an upload (absent or empty path), returns `("No file uploaded", "")` and never calls the model: the model is a partial function that need accept the path only when there is one. Otherwise the summary is `Summary(language, text)` and the transcript is `Timestamped(segments)` of the model's result, built by the loop one line per segment. |

## Left out

- The device check (`check_device`, app.py:8-11) is not modelled. It only chooses where the speech model runs (app.py:22). Any effect it has on the recognition result lies inside the `recognize` parameter, and the formatting does not depend on it.
- The memory reading (app.py:15) is not modelled: the available memory is the parameter of `RecommendModelSize`.
- `RecommendModelSize` takes memory in whole bytes, as natural numbers, rather than as the float `available / 1e9`. Byte counts below 2^53 are exact in a float, and then both comparisons agree.
- ModelSize.RecommendModelSize: negative and non-finite memory readings cannot be expressed. A negative reading would be a caller error, and the code returns `tiny` for one. No memory reading is negative, so `RecommendModelSize` takes a `nat`.
- The model loading and speech recognition calls (`whisper.load_model`, `model.transcribe`, app.py:22 and 29) are not modelled. Recognition is the partial function parameter `recognize` of `Transcribe`. Exceptions it may raise are not modelled, and the handler does not catch them.
- The recognised result is a typed record. A result missing its `text` or `language` key, which raises `KeyError` in the source, cannot be expressed. An absent `segments` key is the empty sequence, as `.get("segments", [])` makes it.
- `int()` on segment times (app.py:38-39) is not modelled: segment times are the whole seconds after that truncation. Negative times, which Whisper does not produce, cannot be expressed.
- Transcriber.TimestampedLines: it assumes that no stripped segment text contains an internal newline. Without that assumption a segment can span several lines of the transcript, and the one-line-per-segment reading only holds in that sense.
- Transcriber.ParseSummaryRoundTrip: it assumes the language code contains no newline. Whisper's language codes never do.
- The Gradio user interface and the server launch (app.py:46-62) are not modelled.
- The module-level globals (`device`, `model_size`, `model`, app.py:11 and 21-22) are not modelled. Each is computed once at start-up and then only read.
