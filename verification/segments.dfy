/**
 The entities of the sentence segmenter in audio_to_text.py and the facts a
 single segment contributes: its text, whether that text ends a sentence, and
 the buffer a run of segments builds.
 */
module Segments {
  import opened Text

  /** One speech-recognition segment, `{"text", "start", "end"}`, with times in whole seconds. */
  datatype Segment = Segment(text: string, start: nat, end: nat)

  /** One emitted sentence, `{"text", "start", "end"}`. */
  datatype Sentence = Sentence(text: string, start: nat, end: nat)

  /** `EOS_TOKENS`: the characters that end a sentence. */
  const EosTokens: set<char> := {'.', '!', '?'}

  /** The text holds a non-space character: exactly when `text.strip().split()`
      has a last word, so that `transcribe_audio`'s `split()[-1][-1]` does not raise. */
  predicate Spoken(text: string) {
    !Blank(text)
  }

  predicate AllSpoken(segs: seq<Segment>) {
    forall i :: 0 <= i < |segs| ==> Spoken(segs[i].text)
  }

  /** `text.strip().split()[-1][-1]`, the character `transcribe_audio` tests for end-of-sentence punctuation. */
  function LastToken(text: string): (c: char)
    requires Spoken(text)
    ensures c == LastNonSpace(text)
  {
    StripKeepsLastNonSpace(text);
    LastWordEndsAtLastNonSpace(Strip(text));
    LastWordChar(Words(Strip(text)))
  }

  /** The segment ends a sentence: its last non-space character is an
      end-of-sentence mark. */
  predicate EndsSentence(text: string) {
    Spoken(text) && LastNonSpace(text) in EosTokens
  }

  /** The text buffer `snt` a run of segments builds: each text followed by one space. */
  function Buffer(run: seq<Segment>): (r: string)
    ensures |r| >= |run|
  {
    if |run| == 0 then "" else Buffer(run[..|run| - 1]) + run[|run| - 1].text + " "
  }

  /** The buffer of two consecutive runs is the two buffers one after the other. */
  lemma {:induction false} BufferAppend(a: seq<Segment>, b: seq<Segment>)
    ensures Buffer(a + b) == Buffer(a) + Buffer(b)
    decreases |b|
  {
    if |b| > 0 {
      assert (a + b)[..|a + b| - 1] == a + b[..|b| - 1];
      BufferAppend(a, b[..|b| - 1]);
    } else {
      assert a + b == a;
    }
  }

  /** A buffer ends on the last non-space character of its last segment's text. */
  lemma BufferLastNonSpace(run: seq<Segment>)
    requires |run| > 0 && Spoken(run[|run| - 1].text)
    ensures !Blank(Buffer(run))
    ensures LastNonSpace(Buffer(run)) == LastNonSpace(run[|run| - 1].text)
  {
    var a, t := Buffer(run[..|run| - 1]), run[|run| - 1].text;
    assert Blank(" ") by { assert " "[0] == ' '; }
    LastNonSpaceSuffix(a, t);
    LastNonSpaceBlankSuffix(a + t, " ");
  }

  /** Appending `seg` to the buffer `buf` closes the sentence: the segment ends
      in punctuation, or the grown buffer is longer than `maxLen`. */
  predicate Closes(seg: Segment, buf: string, maxLen: int) {
    EndsSentence(seg.text) || |buf + seg.text + " "| > maxLen
  }

  /** The start a run's sentence carries (see `RunStartSpec`). */
  function RunStart(run: seq<Segment>): (r: nat) {
    if |run| == 0 then 0
    else if run[0].start != 0 then run[0].start
    else RunStart(run[1..])
  }

  /** A run's sentence starts at the first non-zero segment start, or at 0
      when every start in the run is 0. */
  lemma {:induction false} RunStartSpec(run: seq<Segment>)
    ensures RunStart(run) == 0 <==> forall i :: 0 <= i < |run| ==> run[i].start == 0
    ensures RunStart(run) != 0 ==>
      exists i :: 0 <= i < |run| && run[i].start == RunStart(run) &&
                  forall j :: 0 <= j < i ==> run[j].start == 0
    decreases |run|
  {
    if |run| > 0 && run[0].start == 0 {
      RunStartSpec(run[1..]);
      assert forall i :: 0 < i < |run| ==> run[i] == run[1..][i - 1];
      if RunStart(run) != 0 {
        var i :| 0 <= i < |run[1..]| && run[1..][i].start == RunStart(run) &&
                 forall j :: 0 <= j < i ==> run[1..][j].start == 0;
        assert run[i + 1].start == RunStart(run);
        assert forall j :: 0 <= j < i + 1 ==> run[j].start == 0;
      }
    }
  }

  /** The sentence a run of segments makes. */
  function SentenceOf(run: seq<Segment>): (r: Sentence)
    requires |run| > 0
  {
    Sentence(Strip(Buffer(run)), RunStart(run), run[|run| - 1].end)
  }
}
