/**
 * generate_sentence_segments of whisper_utils.py: the recogniser's segments,
 * one output record per input segment, in the same order, with the text
 * stripped and, when asked for, the start and end times formatted.
 */
module Segments {
  import opened Timestamp
  import opened Text

  /** One segment as the recogniser reports it: {"start", "end", "text"}. */
  datatype RawSegment = RawSegment(start: real, end: real, text: string)

  /** One output record. The timed form is the dict with the keys "start",
      "end" and "text"; the untimed form is the dict with "text" alone, so its
      start and end are absent, not empty. */
  datatype Sentence =
    | Timed(start: string, end: string, text: string)
    | Untimed(text: string)

  /** The body of the loop for one segment (lines 29-39). */
  function SentenceOf(seg: RawSegment, withTimestamp: bool): Sentence
  {
    var text := Strip(seg.text);
    if withTimestamp then Timed(FormatTimestamp(seg.start), FormatTimestamp(seg.end), text)
    else Untimed(text)
  }

  /** The list the loop builds: the records of the segments, appended in order. */
  function Sentences(segs: seq<RawSegment>, withTimestamp: bool): (r: seq<Sentence>)
    ensures |r| == |segs|
  {
    if segs == [] then []
    else Sentences(segs[..|segs| - 1], withTimestamp) + [SentenceOf(segs[|segs| - 1], withTimestamp)]
  }

  /** One to one and in order: record i is made from segment i alone. */
  lemma {:induction false} SentencesAt(segs: seq<RawSegment>, withTimestamp: bool, i: int)
    requires 0 <= i < |segs|
    ensures Sentences(segs, withTimestamp)[i] == SentenceOf(segs[i], withTimestamp)
    decreases |segs|
  {
    var init := segs[..|segs| - 1];
    if i < |init| {
      SentencesAt(init, withTimestamp, i);
      assert init[i] == segs[i];
    }
  }

  /** What the records promise, segment by segment: record i's text is the
      strip of segment i's text, and it carries start and end, formatted from
      segment i's, exactly when timestamps were asked for. */
  ghost predicate RecordsMatch(segs: seq<RawSegment>, withTimestamp: bool, r: seq<Sentence>)
  {
    && |r| == |segs|
    && forall i | 0 <= i < |segs| ::
      && IsStripOf(segs[i].text, r[i].text)
      && (r[i].Timed? <==> withTimestamp)
      && (withTimestamp ==>
            r[i].start == FormatTimestamp(segs[i].start) &&
            r[i].end == FormatTimestamp(segs[i].end))
  }

  /** The records of Sentences keep those promises. */
  lemma SentencesMatch(segs: seq<RawSegment>, withTimestamp: bool)
    ensures RecordsMatch(segs, withTimestamp, Sentences(segs, withTimestamp))
  {
    var r := Sentences(segs, withTimestamp);
    forall i | 0 <= i < |segs|
      ensures IsStripOf(segs[i].text, r[i].text)
      ensures r[i].Timed? <==> withTimestamp
      ensures withTimestamp ==>
        r[i].start == FormatTimestamp(segs[i].start) && r[i].end == FormatTimestamp(segs[i].end)
    {
      SentencesAt(segs, withTimestamp, i);
      StripIsStripOf(segs[i].text);
    }
  }

  /** generate_sentence_segments (whisper_utils.py lines 22-40): a loop that
      appends one record per segment. */
  method GenerateSentenceSegments(segments: seq<RawSegment>, withTimestamp: bool := true)
    returns (sentences: seq<Sentence>)
    ensures sentences == Sentences(segments, withTimestamp)
    ensures RecordsMatch(segments, withTimestamp, sentences)
  {
    sentences := [];
    var k := 0;
    while k < |segments|
      invariant 0 <= k <= |segments|
      invariant sentences == Sentences(segments[..k], withTimestamp)
    {
      var seg := segments[k];
      var text := Strip(seg.text);
      var record: Sentence;
      if withTimestamp {
        record := Timed(FormatTimestamp(seg.start), FormatTimestamp(seg.end), text);
      } else {
        record := Untimed(text);
      }
      assert record == SentenceOf(seg, withTimestamp);
      SentencesSnoc(segments, k, withTimestamp);
      sentences := sentences + [record];
      k := k + 1;
    }
    assert segments[..k] == segments;
    SentencesMatch(segments, withTimestamp);
  }

  /** One more segment adds its record at the end. */
  lemma SentencesSnoc(segs: seq<RawSegment>, k: int, withTimestamp: bool)
    requires 0 <= k < |segs|
    ensures Sentences(segs[..k + 1], withTimestamp)
         == Sentences(segs[..k], withTimestamp) + [SentenceOf(segs[k], withTimestamp)]
  {
    assert segs[..k + 1][..k] == segs[..k];
  }

  /** No merging and no reordering: the records of two runs of segments are the
      records of each run, one after the other. */
  lemma {:induction false} SentencesAppend(a: seq<RawSegment>, b: seq<RawSegment>, withTimestamp: bool)
    ensures Sentences(a + b, withTimestamp) == Sentences(a, withTimestamp) + Sentences(b, withTimestamp)
    decreases |b|
  {
    if b != [] {
      var b' := b[..|b| - 1];
      assert (a + b)[..|a + b| - 1] == a + b';
      SentencesAppend(a, b', withTimestamp);
    } else {
      assert a + b == a;
    }
  }

  /** Every record's text has no whitespace at either end, and a second strip
      would leave it as it is. */
  lemma SentenceTextsTrimmed(segs: seq<RawSegment>, withTimestamp: bool, i: int)
    requires 0 <= i < |segs|
    ensures IsTrimmed(Sentences(segs, withTimestamp)[i].text)
    ensures Strip(Sentences(segs, withTimestamp)[i].text) == Sentences(segs, withTimestamp)[i].text
  {
    SentencesAt(segs, withTimestamp, i);
    StripIdempotent(segs[i].text);
  }

  /** Without timestamps no record has a start or an end; with them every
      record has both. */
  lemma TimestampsPresentIff(segs: seq<RawSegment>, withTimestamp: bool)
    ensures forall i | 0 <= i < |segs| :: Sentences(segs, withTimestamp)[i].Timed? == withTimestamp
  {
    forall i | 0 <= i < |segs| ensures Sentences(segs, withTimestamp)[i].Timed? == withTimestamp {
      SentencesAt(segs, withTimestamp, i);
    }
  }

  /** The dict a record stands for. */
  function AsDict(s: Sentence): (d: map<string, string>)
    ensures "text" in d && d["text"] == s.text
    ensures "start" in d <==> s.Timed?
    ensures "end" in d <==> s.Timed?
    ensures s.Timed? ==> d["start"] == s.start && d["end"] == s.end
    ensures d.Keys <= {"start", "end", "text"}
  {
    match s
    case Timed(start, end, text) => map["start" := start, "end" := end, "text" := text]
    case Untimed(text) => map["text" := text]
  }

  /** The records of two segments are their two records, in order. */
  lemma SentencesOfTwo(x: RawSegment, y: RawSegment, withTimestamp: bool)
    ensures Sentences([x, y], withTimestamp) == [SentenceOf(x, withTimestamp), SentenceOf(y, withTimestamp)]
  {
    assert [x, y][..1] == [x];
    assert [x][..0] == [];
  }

  /** The dicts the program returns: with timestamps, dict i holds segment
      i's stripped text and its start and end as format_timestamp prints them;
      without, dict i holds the stripped text alone. */
  lemma DictsOfSentences(segs: seq<RawSegment>, withTimestamp: bool, i: int)
    requires 0 <= i < |segs|
    ensures var d := AsDict(Sentences(segs, withTimestamp)[i]);
      && d["text"] == Strip(segs[i].text)
      && (withTimestamp ==>
            d.Keys == {"start", "end", "text"} &&
            d["start"] == FormatTimestamp(segs[i].start) &&
            d["end"] == FormatTimestamp(segs[i].end))
      && (!withTimestamp ==> d.Keys == {"text"})
  {
    SentencesAt(segs, withTimestamp, i);
  }

  /** Worked example, with timestamps: a segment "a" from within the first
      second to within the next one gives a timed record of the whole seconds. */
  lemma ExampleTimedRecord(seg: RawSegment)
    requires 0.0 <= seg.start < 1.0 && 1.0 <= seg.end < 2.0 && seg.text == "a"
    ensures SentenceOf(seg, true) == Timed("00:00:00", "00:00:01", "a")
  {
    assert seg.start.Floor == 0 && seg.end.Floor == 1;
    OneDigitSeconds(seg.start);
    OneDigitSeconds(seg.end);
    StripTrimmed("a");
  }

  /** Worked example, without timestamps: two segments give two text-only
      records, whatever their times. */
  lemma ExampleTwoSegmentsUntimed(s0: real, e0: real, s1: real, e1: real)
    ensures Sentences([RawSegment(s0, e0, "a"), RawSegment(s1, e1, " b ")], false)
         == [Untimed("a"), Untimed("b")]
  {
    var x, y := RawSegment(s0, e0, "a"), RawSegment(s1, e1, " b ");
    SentencesOfTwo(x, y, false);
    StripTrimmed("a");
    assert Strip(" b ") == "b" by {
      assert Strip(" b ") == Strip("b ");
      assert Strip("b ") == Strip("b");
      StripTrimmed("b");
    }
  }
}
