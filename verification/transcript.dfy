/**
 The timestamped text `transcribe_audio` returns: one line per sentence,
 `"start end text\n"`, and the parser that reads it back.
 */
module Transcript {
  import opened Wrappers
  import opened Text
  import opened Numerals
  import opened Segments
  import opened Segmentation
  import opened Segmenter

  /** The exception `transcribe_audio`'s `split()[-1][-1]` raises on a segment with blank text. */
  datatype Error = IndexError

  /** One output line: start, end and text separated by single spaces. */
  function Line(s: Sentence): (r: string) {
    Decimal(s.start) + " " + Decimal(s.end) + " " + s.text + "\n"
  }

  /** The lines of all sentences, in order. */
  function Serialize(sentences: seq<Sentence>): (r: string) {
    if |sentences| == 0 then "" else Line(sentences[0]) + Serialize(sentences[1..])
  }

  /** `transcribe_audio` after the speech recogniser: the segmentation loop,
      the flush and the serialisation, or the `IndexError` that a blank
      segment text raises. */
  function Transcribe(segs: seq<Segment>, maxLen: int): (r: Result<string, Error>)
    ensures r.Failure? <==> exists i :: 0 <= i < |segs| && Blank(segs[i].text)
    ensures |segs| == 0 ==> r == Success("")
    ensures r.Success? ==> AllSpoken(segs) && r.value == Serialize(SegmentSentences(segs, maxLen))
  {
    if AllSpoken(segs) then Success(Serialize(SegmentSentences(segs, maxLen)))
    else Failure(IndexError)
  }

  /** The position of the first `c` in `s`, if any. */
  function IndexOf(s: string, c: char): (r: Option<nat>)
    ensures r.Some? ==> r.value < |s| && s[r.value] == c && c !in s[..r.value]
    ensures r.None? ==> c !in s
  {
    if |s| == 0 then None
    else if s[0] == c then Some(0)
    else match IndexOf(s[1..], c)
      case None => None
      case Some(i) =>
        assert s[..i + 1] == [s[0]] + s[1..][..i];
        Some(i + 1)
  }

  /** Reads one line without its newline: two decimal numbers, each followed
      by a space, then the text. */
  function ParseLine(line: string): (r: Option<Sentence>) {
    match IndexOf(line, ' ')
    case None => None
    case Some(i) =>
      var rest := line[i + 1..];
      match IndexOf(rest, ' ')
      case None => None
      case Some(j) =>
        match (ParseDecimal(line[..i]), ParseDecimal(rest[..j]))
        case (Some(start), Some(end)) => Some(Sentence(rest[j + 1..], start, end))
        case _ => None
  }

  /** Reads newline-terminated lines back into sentences. */
  function Parse(out: string): (r: Option<seq<Sentence>>)
    decreases |out|
  {
    if |out| == 0 then Some([])
    else match IndexOf(out, '\n')
      case None => None
      case Some(k) =>
        match (ParseLine(out[..k]), Parse(out[k + 1..]))
        case (Some(s), Some(rest)) => Some([s] + rest)
        case _ => None
  }

  /** The first `c` in `a + [c] + b` when `a` holds none. */
  lemma IndexOfFirst(a: string, c: char, b: string)
    requires c !in a
    ensures IndexOf(a + [c] + b, c) == Some(|a|)
  {
    assert (a + [c] + b)[|a|] == c;
  }

  lemma DecimalHasNoNonDigit(n: nat, c: char)
    requires !IsDigit(c)
    ensures c !in Decimal(n)
  {
  }

  /** A line reads back as the sentence it was written from. */
  lemma ParseLineRoundTrip(s: Sentence)
    ensures ParseLine(Decimal(s.start) + " " + Decimal(s.end) + " " + s.text) == Some(s)
  {
    var a, b := Decimal(s.start), Decimal(s.end);
    var line := a + " " + b + " " + s.text;
    var rest := b + " " + s.text;
    DecimalHasNoNonDigit(s.start, ' ');
    DecimalHasNoNonDigit(s.end, ' ');
    assert line == a + [' '] + rest;
    IndexOfFirst(a, ' ', rest);
    assert line[..|a|] == a;
    assert line[|a| + 1..] == rest;
    assert rest == b + [' '] + s.text;
    IndexOfFirst(b, ' ', s.text);
    assert rest[..|b|] == b;
    assert rest[|b| + 1..] == s.text;
    DecimalRoundTrip(s.start);
    DecimalRoundTrip(s.end);
  }

  /** Reading the output back gives the sentences it was written from, as long
      as no sentence text holds a newline. */
  lemma {:induction false} ParseSerialize(sentences: seq<Sentence>)
    requires forall k :: 0 <= k < |sentences| ==> '\n' !in sentences[k].text
    ensures Parse(Serialize(sentences)) == Some(sentences)
    decreases |sentences|
  {
    if |sentences| > 0 {
      var s := sentences[0];
      var body := Decimal(s.start) + " " + Decimal(s.end) + " " + s.text;
      var rest := Serialize(sentences[1..]);
      var out := Serialize(sentences);
      assert out == body + ['\n'] + rest;
      DecimalHasNoNonDigit(s.start, '\n');
      DecimalHasNoNonDigit(s.end, '\n');
      assert '\n' !in body;
      IndexOfFirst(body, '\n', rest);
      assert out[..|body|] == body;
      assert out[|body| + 1..] == rest;
      ParseLineRoundTrip(s);
      ParseSerialize(sentences[1..]);
      assert [s] + sentences[1..] == sentences;
    }
  }

  /** The number of occurrences of `c` in `s`. */
  function Count(s: string, c: char): (r: nat) {
    if |s| == 0 then 0 else (if s[0] == c then 1 else 0) + Count(s[1..], c)
  }

  lemma {:induction false} CountAppend(a: string, b: string, c: char)
    ensures Count(a + b, c) == Count(a, c) + Count(b, c)
    decreases |a|
  {
    if |a| > 0 {
      assert (a + b)[1..] == a[1..] + b;
      CountAppend(a[1..], b, c);
    } else {
      assert a + b == b;
    }
  }

  lemma {:induction false} CountAbsent(s: string, c: char)
    requires c !in s
    ensures Count(s, c) == 0
    decreases |s|
  {
    if |s| > 0 {
      CountAbsent(s[1..], c);
    }
  }

  /** The output holds exactly one newline per sentence when no sentence text
      holds one. */
  lemma {:induction false} OneLinePerSentence(sentences: seq<Sentence>)
    requires forall k :: 0 <= k < |sentences| ==> '\n' !in sentences[k].text
    ensures Count(Serialize(sentences), '\n') == |sentences|
    ensures |sentences| > 0 ==> Serialize(sentences)[|Serialize(sentences)| - 1] == '\n'
    decreases |sentences|
  {
    if |sentences| > 0 {
      var s := sentences[0];
      var body := Decimal(s.start) + " " + Decimal(s.end) + " " + s.text;
      DecimalHasNoNonDigit(s.start, '\n');
      DecimalHasNoNonDigit(s.end, '\n');
      assert '\n' !in body;
      CountAbsent(body, '\n');
      CountAppend(body, "\n", '\n');
      CountAppend(Line(s), Serialize(sentences[1..]), '\n');
      OneLinePerSentence(sentences[1..]);
    }
  }

  /** A buffer of newline-free texts holds no newline. */
  lemma {:induction false} BufferNoNewline(run: seq<Segment>)
    requires forall i :: 0 <= i < |run| ==> '\n' !in run[i].text
    ensures '\n' !in Buffer(run)
    decreases |run|
  {
    if |run| > 0 {
      BufferNoNewline(run[..|run| - 1]);
    }
  }

  /** When no segment text holds a newline, the returned text reads back as
      exactly the segmenter's sentences. */
  lemma TranscribeRoundTrip(segs: seq<Segment>, maxLen: int)
    requires forall i :: 0 <= i < |segs| ==> '\n' !in segs[i].text
    requires Transcribe(segs, maxLen).Success?
    ensures Parse(Transcribe(segs, maxLen).value) == Some(SegmentSentences(segs, maxLen))
    ensures Count(Transcribe(segs, maxLen).value, '\n') == |SegmentSentences(segs, maxLen)| <= |segs|
  {
    var runs := Runs(segs, maxLen);
    var out := SegmentSentences(segs, maxLen);
    forall k | 0 <= k < |out| ensures '\n' !in out[k].text {
      SentencesAt(runs, k);
      FlattenMember(runs, k);
      BufferNoNewline(runs[k]);
      StripSubset(Buffer(runs[k]), '\n');
    }
    ParseSerialize(out);
    OneLinePerSentence(out);
  }
}
