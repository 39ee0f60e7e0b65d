/**
 * The request handler `transcribe` of app.py without the speech model itself:
 * the short-circuit for a missing upload, the summary string, and the
 * transcript with one `[MM:SS - MM:SS] text` line per segment. The speech model
 * is a parameter that maps an audio path to its recognition result.
 */
module Transcriber {

  import opened Wrappers
  import opened Text

  /** A recognised span of speech; times are whole seconds (after `int()`). */
  datatype Segment = Segment(start: nat, end: nat, text: string)

  /** What the speech model returns for one audio file. An absent segment
      list is the empty sequence, as `result.get("segments", [])` makes it. */
  datatype TranscriptionResult = TranscriptionResult(text: string, language: string, segments: seq<Segment>)

  const NoFileMessage := "No file uploaded"
  const LanguageLabel := "\U{1F30D} Language: "
  const TranscriptionLabel := "\n\n\U{1F4DD} Transcription:\n"

  /** Python's `f"{n:02d}"` for a natural number: its decimal form, zero-padded
      on the left to at least two digits; exactly two digits below 100, and no
      leading zero from 10 on. */
  function PadTwo(n: nat): (r: string)
    ensures AllDigits(r)
    ensures |r| >= 2
    ensures |r| == 2 <==> n < 100
    ensures 10 <= n ==> r[0] != '0'
  {
    if n < 10 then "0" + Decimal(n) else Decimal(n)
  }

  /** The padded field reads back as the number itself. */
  lemma PadTwoRoundTrip(n: nat)
    ensures DigitsValue(PadTwo(n)) == n
  {
    DecimalRoundTrip(n);
    var r := PadTwo(n);
    if n < 10 {
      assert r[..|r| - 1] == "0";
    }
  }

  /** Reads back a `MM:SS` field: at least two minute digits, a colon and two
      second digits denoting less than 60. */
  function ParseTime(t: string): Option<nat> {
    if |t| < 5 || t[|t| - 3] != ':' then None
    else
      var minutes, seconds := t[..|t| - 3], t[|t| - 2..];
      if AllDigits(minutes) && AllDigits(seconds) && DigitsValue(seconds) < 60 then
        Some(DigitsValue(minutes) * 60 + DigitsValue(seconds))
      else
        None
  }

  /** A time in whole seconds as `MM:SS`: minutes are not wrapped at 60, so the
      minute field grows past two digits from 100 minutes (6000 seconds) on. */
  function FormatTime(s: nat): (r: string)
    ensures |r| >= 5
    ensures |r| == 5 <==> s < 6000
    ensures 600 <= s ==> r[0] != '0'
  {
    PadTwo(s / 60) + ":" + PadTwo(s % 60)
  }

  /** A formatted time reads back as the same number of seconds; since the
      parser insists on a two-digit seconds field below 60, the seconds are
      `s % 60` and the minutes `s / 60`. */
  lemma FormatTimeRoundTrip(s: nat)
    ensures ParseTime(FormatTime(s)) == Some(s)
  {
    var minutes, seconds := PadTwo(s / 60), PadTwo(s % 60);
    var r := FormatTime(s);
    assert r[..|r| - 3] == minutes && r[|r| - 2..] == seconds;
    PadTwoRoundTrip(s / 60);
    PadTwoRoundTrip(s % 60);
  }

  /** A formatted time holds only digits and one colon. */
  lemma FormatTimeChars(s: nat)
    ensures forall c | c in FormatTime(s) :: IsDigit(c) || c == ':'
  {
    var minutes, seconds := PadTwo(s / 60), PadTwo(s % 60);
    assert FormatTime(s) == minutes + [':'] + seconds;
  }

  /** The line shown for one segment, without its terminating newline. */
  function Line(seg: Segment): string {
    "[" + FormatTime(seg.start) + " - " + FormatTime(seg.end) + "] " + Strip(seg.text)
  }

  /** Reads back the start time, end time and text of a line. */
  function ParseLine(l: string): Option<(nat, nat, string)> {
    if |l| == 0 || l[0] != '[' then None else ParseStamp(l[1..])
  }

  /** The part of a line after `[`: the start field runs up to the first space
      and is followed by ` - `. */
  function ParseStamp(body: string): Option<(nat, nat, string)> {
    var i := IndexOf(body, ' ');
    if |body| < i + 3 || body[i..i + 3] != " - " then None
    else ParseEnd(body[..i], body[i + 3..])
  }

  /** The end field runs up to the first `]`, which is followed by a space and
      the text. */
  function ParseEnd(start: string, rest: string): Option<(nat, nat, string)> {
    var j := IndexOf(rest, ']');
    if |rest| < j + 2 || rest[j..j + 2] != "] " then None
    else
      match (ParseTime(start), ParseTime(rest[..j]))
      case (Some(s), Some(e)) => Some((s, e, rest[j + 2..]))
      case _ => None
  }

  /** The transcript the loop of `transcribe` builds: every segment's line
      followed by a newline, in input order. */
  function Timestamped(segments: seq<Segment>): (r: string)
    ensures r == [] <==> segments == []
  {
    if segments == [] then ""
    else Timestamped(segments[..|segments| - 1]) + (Line(segments[|segments| - 1]) + "\n")
  }

  /** Splits text into its newline-terminated lines (without the newlines); a
      last piece without a newline counts as a line too. */
  function Lines(s: string): seq<string>
    decreases |s|
  {
    if s == [] then []
    else
      var k := IndexOf(s, '\n');
      if k == |s| then [s] else [s[..k]] + Lines(s[k + 1..])
  }

  /** The summary: the detected language, then the trimmed transcription. */
  function Summary(language: string, text: string): string {
    LanguageLabel + language + TranscriptionLabel + Strip(text)
  }

  /** Reads back the language and the transcription of a summary. */
  function ParseSummary(s: string): Option<(string, string)> {
    if |s| < |LanguageLabel| || s[..|LanguageLabel|] != LanguageLabel then None
    else
      var rest := s[|LanguageLabel|..];
      var k := IndexOf(rest, '\n');
      if |rest| < k + |TranscriptionLabel| || rest[k..k + |TranscriptionLabel|] != TranscriptionLabel then None
      else Some((rest[..k], rest[k + |TranscriptionLabel|..]))
  }

  /** `not audio_path` in Python: no upload, or an empty path. */
  predicate NoAudio(audioPath: Option<string>) {
    audioPath == None || audioPath == Some("")
  }

  /** The handler: without audio it answers with the fixed sentinel pair and
      never consults the speech model, which therefore need not accept any input
      in that case; otherwise it formats the model's result. */
  method Transcribe(audioPath: Option<string>, recognize: string --> TranscriptionResult)
    returns (summary: string, timestamped: string)
    requires !NoAudio(audioPath) ==> recognize.requires(audioPath.value)
    ensures NoAudio(audioPath) ==> summary == NoFileMessage && timestamped == ""
    ensures !NoAudio(audioPath) ==>
              var result := recognize(audioPath.value);
              && summary == Summary(result.language, result.text)
              && timestamped == Timestamped(result.segments)
  {
    if NoAudio(audioPath) {
      return NoFileMessage, "";
    }
    var result := recognize(audioPath.value);
    var text := Strip(result.text);
    var lang := result.language;
    var segments := result.segments;
    timestamped := "";
    for n := 0 to |segments|
      invariant timestamped == Timestamped(segments[..n])
    {
      var seg := segments[n];
      var s, e := seg.start, seg.end;
      var txt := Strip(seg.text);
      TimestampedPrefix(segments, n);
      timestamped := timestamped + ("[" + FormatTime(s) + " - " + FormatTime(e) + "] " + txt + "\n");
    }
    assert segments[..|segments|] == segments;
    summary := LanguageLabel + lang + TranscriptionLabel + text;
  }

  /** Without an upload the speech model is never consulted: even a model that
      accepts no input at all yields the sentinel pair. */
  method NoUploadSkipsModel() returns (summary: string, timestamped: string)
    ensures summary == NoFileMessage && timestamped == ""
  {
    var rejectAll := (path: string) requires false => TranscriptionResult("", "", []);
    summary, timestamped := Transcribe(None, rejectAll);
  }

  // ---- Properties of the formatted transcript ----

  // Proof scaffolding: two facts about string concatenation, kept as lemmas of
  // their own so that the proofs using them stay small.

  lemma ConcatAssoc(x: string, y: string, z: string)
    ensures (x + y) + z == x + (y + z)
  {
  }

  lemma ConcatEmpty(x: string)
    ensures "" + x == x
  {
  }

  /** Appending a segment appends its line. */
  lemma TimestampedSnoc(segments: seq<Segment>, seg: Segment)
    ensures Timestamped(segments + [seg]) == Timestamped(segments) + (Line(seg) + "\n")
  {
    assert (segments + [seg])[..|segments|] == segments;
  }

  /** One more segment of the same list adds one more line. */
  lemma TimestampedPrefix(segments: seq<Segment>, n: nat)
    requires n < |segments|
    ensures Timestamped(segments[..n + 1]) == Timestamped(segments[..n]) + (Line(segments[n]) + "\n")
  {
    assert segments[..n + 1] == segments[..n] + [segments[n]];
    TimestampedSnoc(segments[..n], segments[n]);
  }

  /** The transcript of two runs of segments is the transcript of the first
      followed by that of the second: nothing is carried between lines. */
  lemma {:induction false} TimestampedAppend(a: seq<Segment>, b: seq<Segment>)
    ensures Timestamped(a + b) == Timestamped(a) + Timestamped(b)
  {
    if b == [] {
      assert a + b == a;
    } else {
      var b', seg := b[..|b| - 1], b[|b| - 1];
      assert a + b == (a + b') + [seg];
      assert b == b' + [seg];
      TimestampedAppend(a, b');
      TimestampedSnoc(a + b', seg);
      TimestampedSnoc(b', seg);
      ConcatAssoc(Timestamped(a), Timestamped(b'), Line(seg) + "\n");
    }
  }

  /** The transcript starts with the line of the first segment. */
  lemma TimestampedCons(seg: Segment, rest: seq<Segment>)
    ensures Timestamped([seg] + rest) == (Line(seg) + "\n") + Timestamped(rest)
  {
    TimestampedAppend([seg], rest);
    assert Timestamped([seg]) == Line(seg) + "\n" by {
      assert [] + [seg] == [seg];
      TimestampedSnoc([], seg);
      ConcatEmpty(Line(seg) + "\n");
    }
  }

  /** Every line, the last one included, is terminated by a newline. */
  lemma TimestampedEndsWithNewline(segments: seq<Segment>)
    requires segments != []
    ensures var r := Timestamped(segments); r[|r| - 1] == '\n'
  {
  }

  /** The segment's trimmed text holds no newline of its own. */
  predicate SingleLine(seg: Segment) {
    '\n' !in Strip(seg.text)
  }

  /** Neither the time fields nor the surrounding punctuation contain a newline. */
  lemma LineHasNoNewline(seg: Segment)
    requires '\n' !in Strip(seg.text)
    ensures '\n' !in Line(seg)
  {
    FormatTimeChars(seg.start);
    FormatTimeChars(seg.end);
    NoNewlineInLine(FormatTime(seg.start), FormatTime(seg.end), Strip(seg.text));
  }

  lemma NoNewlineInLine(t1: string, t2: string, txt: string)
    requires '\n' !in t1 && '\n' !in t2 && '\n' !in txt
    ensures '\n' !in "[" + t1 + " - " + t2 + "] " + txt
  {
  }

  /** Splitting text that starts with one newline-free line. */
  lemma LinesCons(x: string, y: string)
    requires '\n' !in x
    ensures Lines(x + "\n" + y) == [x] + Lines(y)
  {
    var s := x + "\n" + y;
    IndexOfAfter(x, '\n', y);
    assert s[..|x|] == x && s[|x| + 1..] == y;
  }

  /** Splitting a transcript peels off the first segment's line. */
  lemma LinesOfCons(seg: Segment, rest: seq<Segment>)
    requires '\n' !in Line(seg)
    ensures Lines(Timestamped([seg] + rest)) == [Line(seg)] + Lines(Timestamped(rest))
  {
    TimestampedCons(seg, rest);
    LinesCons(Line(seg), Timestamped(rest));
  }

  /** Split at its newlines, the transcript gives back exactly one line per
      segment, in input order — provided no segment text keeps a newline inside
      it after trimming. */
  lemma {:induction false} TimestampedLines(segments: seq<Segment>)
    requires forall seg | seg in segments :: SingleLine(seg)
    ensures |Lines(Timestamped(segments))| == |segments|
    ensures forall i | 0 <= i < |segments| :: Lines(Timestamped(segments))[i] == Line(segments[i])
  {
    if segments != [] {
      var seg, rest := segments[0], segments[1..];
      assert segments == [seg] + rest;
      assert seg in segments;
      LineHasNoNewline(seg);
      LinesOfCons(seg, rest);
      TimestampedLines(rest);
      var all, tail := Lines(Timestamped(segments)), Lines(Timestamped(rest));
      assert all == [Line(seg)] + tail;
      forall i | 0 <= i < |segments|
        ensures all[i] == Line(segments[i])
      {
        if i > 0 {
          assert all[i] == tail[i - 1] && rest[i - 1] == segments[i];
        }
      }
    }
  }

  lemma ParseEndOf(t1: string, t2: string, txt: string, s1: nat, s2: nat)
    requires ParseTime(t1) == Some(s1) && ParseTime(t2) == Some(s2)
    requires ']' !in t2
    ensures ParseEnd(t1, t2 + "] " + txt) == Some((s1, s2, txt))
  {
    var rest := t2 + "] " + txt;
    assert rest == t2 + [']'] + (" " + txt);
    IndexOfAfter(t2, ']', " " + txt);
    assert rest[|t2|..|t2| + 2] == "] " && rest[..|t2|] == t2 && rest[|t2| + 2..] == txt;
  }

  lemma ParseStampOf(t1: string, rest: string)
    requires ' ' !in t1
    ensures ParseStamp(t1 + " - " + rest) == ParseEnd(t1, rest)
  {
    var body := t1 + " - " + rest;
    assert body == t1 + [' '] + ("- " + rest);
    IndexOfAfter(t1, ' ', "- " + rest);
    assert body[|t1|..|t1| + 3] == " - " && body[..|t1|] == t1 && body[|t1| + 3..] == rest;
  }

  /** A line built from two time fields and a text reads back as their values. */
  lemma ParseLineOf(t1: string, t2: string, txt: string, s1: nat, s2: nat)
    requires ParseTime(t1) == Some(s1) && ParseTime(t2) == Some(s2)
    requires ' ' !in t1 && ']' !in t2
    ensures ParseLine("[" + t1 + " - " + t2 + "] " + txt) == Some((s1, s2, txt))
  {
    var rest := t2 + "] " + txt;
    var l := "[" + t1 + " - " + t2 + "] " + txt;
    assert l[1..] == t1 + " - " + rest;
    ParseStampOf(t1, rest);
    ParseEndOf(t1, t2, txt, s1, s2);
  }

  /** A line reads back as the segment's own start and end times, passed
      through unchanged (an end before the start included), and its trimmed text. */
  lemma ParseLineRoundTrip(seg: Segment)
    ensures ParseLine(Line(seg)) == Some((seg.start, seg.end, Strip(seg.text)))
  {
    FormatTimeChars(seg.start);
    FormatTimeChars(seg.end);
    FormatTimeRoundTrip(seg.start);
    FormatTimeRoundTrip(seg.end);
    ParseLineOf(FormatTime(seg.start), FormatTime(seg.end), Strip(seg.text), seg.start, seg.end);
  }

  /** A summary built from a newline-free language code and a body reads back as both. */
  lemma ParseSummaryOf(language: string, body: string)
    requires '\n' !in language
    ensures ParseSummary(LanguageLabel + language + TranscriptionLabel + body) == Some((language, body))
  {
    var s := LanguageLabel + language + TranscriptionLabel + body;
    var rest := s[|LanguageLabel|..];
    assert s[..|LanguageLabel|] == LanguageLabel;
    assert rest == language + ['\n'] + (TranscriptionLabel[1..] + body);
    IndexOfAfter(language, '\n', TranscriptionLabel[1..] + body);
    var k := IndexOf(rest, '\n');
    assert rest[k..k + |TranscriptionLabel|] == TranscriptionLabel;
    assert rest[..k] == language && rest[k + |TranscriptionLabel|..] == body;
  }

  /** The summary reads back as the language code and the trimmed text, as long
      as the language code holds no newline. */
  lemma ParseSummaryRoundTrip(language: string, text: string)
    requires '\n' !in language
    ensures ParseSummary(Summary(language, text)) == Some((language, Strip(text)))
  {
    ParseSummaryOf(language, Strip(text));
  }

  // ---- Worked examples ----

  /** Minutes are not wrapped at 60: 3661 seconds is shown as 61:01. */
  lemma NoMinuteWrap()
    ensures FormatTime(3661) == "61:01"
    ensures FormatTime(65) == "01:05"
  {
    assert Decimal(61) == "61";
  }

  lemma ExampleStrips()
    ensures Strip(" hi ") == "hi" && Strip("bye") == "bye"
  {
    assert Strip(" hi ") == "hi" by {
      assert " hi " == " " + "hi" + " ";
      PrintableIsNotSpace('h');
      PrintableIsNotSpace('i');
      StripOfPadded(" ", "hi", " ");
    }
    assert Strip("bye") == "bye" by {
      assert [] + "bye" + [] == "bye";
      PrintableIsNotSpace('b');
      PrintableIsNotSpace('e');
      StripOfPadded([], "bye", []);
    }
  }

  lemma ExampleTimes()
    ensures FormatTime(5) == "00:05" && FormatTime(12) == "00:12"
    ensures FormatTime(65) == "01:05" && FormatTime(70) == "01:10"
  {
  }

  // Proof scaffolding for the example below: the literal strings it assembles,
  // computed apart from the model so that the example's proof stays small.

  lemma ExampleLineTexts()
    ensures "[" + "00:05" + " - " + "00:12" + "] " + "hi" == "[00:05 - 00:12] hi"
    ensures "[" + "01:05" + " - " + "01:10" + "] " + "bye" == "[01:05 - 01:10] bye"
  {
  }

  lemma ExampleTranscriptText()
    ensures ("[00:05 - 00:12] hi" + "\n") + (("[01:05 - 01:10] bye" + "\n") + "")
         == "[00:05 - 00:12] hi\n[01:05 - 01:10] bye\n"
  {
  }

  /** Two segments give two lines, times truncated to whole seconds and texts trimmed. */
  lemma TwoSegmentExample()
    ensures Timestamped([Segment(5, 12, " hi "), Segment(65, 70, "bye")])
         == "[00:05 - 00:12] hi\n[01:05 - 01:10] bye\n"
  {
    var first, second := Segment(5, 12, " hi "), Segment(65, 70, "bye");
    ExampleStrips();
    ExampleTimes();
    ExampleLineTexts();
    ExampleTranscriptText();
    assert Line(first) == "[00:05 - 00:12] hi";
    assert Line(second) == "[01:05 - 01:10] bye";
    TimestampedCons(first, [second]);
    TimestampedCons(second, []);
    assert [first] + [second] == [first, second] && [second] + [] == [second];
  }
}
