/**
 The sentence segmentation loop of `transcribe_audio` in audio_to_text.py:
 a fold over the speech-recognition segments that threads the text buffer
 `snt` and the pending start `snt_start`, followed by the final flush.
 */
module Segmenter {
  import opened Wrappers
  import opened Text
  import opened Segments
  import opened Segmentation

  /** The loop state: the sentences emitted so far, the buffer `snt`, and the
      pending start `snt_start` (`None` before a sentence has begun). */
  datatype Acc = Acc(sentences: seq<Sentence>, buf: string, pending: Option<nat>)

  /** Python's `not snt_start`: both `None` and a start of 0 are falsy. */
  predicate Unset(pending: Option<nat>) {
    pending.None? || pending.value == 0
  }

  /** The buffer is empty exactly when no start is pending. */
  predicate Consistent(acc: Acc) {
    |acc.buf| == 0 <==> acc.pending.None?
  }

  /** One iteration of the loop over `result["segments"]`. */
  function Step(acc: Acc, seg: Segment, maxLen: int): (r: Acc)
    requires Spoken(seg.text)
  {
    var buf := acc.buf + seg.text + " ";
    var pending := if Unset(acc.pending) then Some(seg.start) else acc.pending;
    if LastToken(seg.text) in EosTokens || |buf| > maxLen then
      Acc(acc.sentences + [Sentence(Strip(buf), pending.value, seg.end)], "", None)
    else
      Acc(acc.sentences, buf, pending)
  }

  /** The whole loop. */
  function Fold(acc: Acc, segs: seq<Segment>, maxLen: int): (r: Acc)
    requires AllSpoken(segs)
    ensures Consistent(acc) ==> Consistent(r)
    ensures |acc.sentences| <= |r.sentences| <= |acc.sentences| + |segs|
    decreases |segs|
  {
    if |segs| == 0 then acc
    else
      assert AllSpoken(segs[1..]) by {
        assert forall i :: 0 <= i < |segs| - 1 ==> segs[1..][i] == segs[i + 1];
      }
      Fold(Step(acc, segs[0], maxLen), segs[1..], maxLen)
  }

  /** The sentences `transcribe_audio` collects: the loop, then the flush of a
      non-empty buffer with the end of the last segment. */
  function SegmentSentences(segs: seq<Segment>, maxLen: int): (r: seq<Sentence>)
    requires AllSpoken(segs)
    ensures r == Sentences(Runs(segs, maxLen))
    ensures |r| <= |segs|
  {
    FlushMatchesRuns(segs, maxLen);
    var acc := Fold(Acc([], "", None), segs, maxLen);
    if |acc.buf| > 0 then
      acc.sentences + [Sentence(Strip(acc.buf), acc.pending.value, segs[|segs| - 1].end)]
    else
      acc.sentences
  }

  /** The flush after the loop emits the open run, if any, as the last sentence. */
  lemma FlushMatchesRuns(segs: seq<Segment>, maxLen: int)
    requires AllSpoken(segs)
    ensures var acc := Fold(Acc([], "", None), segs, maxLen);
      var runs := Runs(segs, maxLen);
      && |Sentences(runs)| <= |segs|
      && (|acc.buf| == 0 ==> acc.sentences == Sentences(runs))
      && (|acc.buf| > 0 ==>
            && |segs| > 0 && acc.pending.Some?
            && acc.sentences + [Sentence(Strip(acc.buf), acc.pending.value, segs[|segs| - 1].end)]
               == Sentences(runs))
  {
    FlattenLength(Runs(segs, maxLen));
    if |SplitFrom([], segs, maxLen).open| > 0 {
      FlushOpenRun(segs, maxLen);
    } else {
      FoldFromStart(segs, maxLen);
    }
  }

  lemma FlushOpenRun(segs: seq<Segment>, maxLen: int)
    requires AllSpoken(segs)
    requires |SplitFrom([], segs, maxLen).open| > 0
    ensures var acc := Fold(Acc([], "", None), segs, maxLen);
      && |acc.buf| > 0 && |segs| > 0 && acc.pending.Some?
      && acc.sentences + [Sentence(Strip(acc.buf), acc.pending.value, segs[|segs| - 1].end)]
         == Sentences(Runs(segs, maxLen))
  {
    FoldFromStart(segs, maxLen);
    var s := SplitFrom([], segs, maxLen);
    LastOfAppend(Flatten(s.closed), s.open, segs);
    FlushSentence(Fold(Acc([], "", None), segs, maxLen), s.closed, s.open, segs[|segs| - 1].end);
  }

  /** From the initial state, the loop ends holding the closed runs' sentences
      and the open run. */
  lemma FoldFromStart(segs: seq<Segment>, maxLen: int)
    requires AllSpoken(segs)
    ensures var s := SplitFrom([], segs, maxLen);
      Fold(Acc([], "", None), segs, maxLen) == Acc(Sentences(s.closed), Buffer(s.open), PendingOf(s.open))
  {
    FoldSplit([], [], segs, maxLen);
    var s := SplitFrom([], segs, maxLen);
    assert [] + Sentences(s.closed) == Sentences(s.closed);
  }

  /** Flushing the open run appends its sentence to those of the closed runs. */
  lemma FlushSentence(acc: Acc, closed: seq<seq<Segment>>, open: seq<Segment>, end: nat)
    requires forall k :: 0 <= k < |closed| ==> |closed[k]| > 0
    requires |open| > 0 && open[|open| - 1].end == end
    requires acc == Acc(Sentences(closed), Buffer(open), PendingOf(open))
    ensures |acc.buf| > 0 && acc.pending.Some?
    ensures acc.sentences + [Sentence(Strip(acc.buf), acc.pending.value, end)]
            == Sentences(closed + [open])
  {
    SentencesSnoc(closed, open);
  }

  lemma LastOfAppend<T>(a: seq<T>, b: seq<T>, c: seq<T>)
    requires a + b == c && |b| > 0
    ensures b[|b| - 1] == c[|c| - 1]
  {
    assert c[|c| - 1] == (a + b)[|a| + |b| - 1];
  }

  /** The pending start of a partly built run. */
  function PendingOf(run: seq<Segment>): (r: Option<nat>) {
    if |run| == 0 then None else Some(RunStart(run))
  }

  /** The truthiness rule of `if not snt_start` keeps the first non-zero start. */
  lemma {:induction false} RunStartSnoc(run: seq<Segment>, seg: Segment)
    ensures RunStart(run + [seg]) == if RunStart(run) == 0 then seg.start else RunStart(run)
    decreases |run|
  {
    if |run| > 0 {
      assert (run + [seg])[1..] == run[1..] + [seg];
      RunStartSnoc(run[1..], seg);
    } else {
      assert run + [seg] == [seg];
    }
  }

  /** One step of the loop extends the pending run or closes it. */
  lemma StepSplit(done: seq<Sentence>, pending: seq<Segment>, seg: Segment, maxLen: int)
    requires Spoken(seg.text)
    ensures var r := Step(Acc(done, Buffer(pending), PendingOf(pending)), seg, maxLen);
      var run := pending + [seg];
      if Closes(seg, Buffer(pending), maxLen)
      then r == Acc(done + [SentenceOf(run)], Buffer([]), PendingOf([]))
      else r == Acc(done, Buffer(run), PendingOf(run))
  {
    var run := pending + [seg];
    RunStartSnoc(pending, seg);
    assert run[..|run| - 1] == pending;
  }

  /** The loop emits the sentences of the runs it closes and leaves the open
      run in the buffer and the pending start. */
  lemma {:induction false} FoldSplit(done: seq<Sentence>, pending: seq<Segment>, segs: seq<Segment>, maxLen: int)
    requires AllSpoken(segs)
    ensures var s := SplitFrom(pending, segs, maxLen);
      Fold(Acc(done, Buffer(pending), PendingOf(pending)), segs, maxLen)
        == Acc(done + Sentences(s.closed), Buffer(s.open), PendingOf(s.open))
    decreases |segs|
  {
    var a0 := Acc(done, Buffer(pending), PendingOf(pending));
    if |segs| == 0 {
      assert done + [] == done;
    } else {
      var seg := segs[0];
      StepSplit(done, pending, seg, maxLen);
      assert AllSpoken(segs[1..]) by {
        assert forall i :: 0 <= i < |segs| - 1 ==> segs[1..][i] == segs[i + 1];
      }
      assert Fold(a0, segs, maxLen) == Fold(Step(a0, seg, maxLen), segs[1..], maxLen);
      var run := pending + [seg];
      if Closes(seg, Buffer(pending), maxLen) {
        FoldClosing(done, pending, segs, maxLen);
      } else {
        FoldSplit(done, run, segs[1..], maxLen);
        assert SplitFrom(pending, segs, maxLen) == SplitFrom(run, segs[1..], maxLen);
      }
    }
  }

  /** `FoldSplit` when the first segment closes the pending run. */
  lemma {:induction false} FoldClosing(done: seq<Sentence>, pending: seq<Segment>, segs: seq<Segment>, maxLen: int)
    requires AllSpoken(segs) && |segs| > 0
    requires Closes(segs[0], Buffer(pending), maxLen)
    ensures var s := SplitFrom(pending, segs, maxLen);
      Fold(Step(Acc(done, Buffer(pending), PendingOf(pending)), segs[0], maxLen), segs[1..], maxLen)
        == Acc(done + Sentences(s.closed), Buffer(s.open), PendingOf(s.open))
    decreases |segs|, 0
  {
    var seg := segs[0];
    var run := pending + [seg];
    StepSplit(done, pending, seg, maxLen);
    assert AllSpoken(segs[1..]) by {
      assert forall i :: 0 <= i < |segs| - 1 ==> segs[1..][i] == segs[i + 1];
    }
    var done' := done + [SentenceOf(run)];
    FoldSplit(done', [], segs[1..], maxLen);
    var rest := SplitFrom([], segs[1..], maxLen);
    assert SplitFrom(pending, segs, maxLen) == Split([run] + rest.closed, rest.open);
    assert ([run] + rest.closed)[1..] == rest.closed;
    assert Sentences([run] + rest.closed) == [SentenceOf(run)] + Sentences(rest.closed);
    ConsAssoc(done, SentenceOf(run), Sentences(rest.closed));
  }

  lemma ConsAssoc<T>(a: seq<T>, x: T, b: seq<T>)
    ensures a + [x] + b == a + ([x] + b)
  {
  }

  /** The segmenter's sentences are the sentences of any segmentation of the
      segments: the runs are cut where the first closing segment falls. */
  lemma SentencesFollowSegmentation(segs: seq<Segment>, maxLen: int, runs: seq<seq<Segment>>)
    requires AllSpoken(segs)
    requires IsSegmentation(segs, maxLen, runs)
    ensures forall k :: 0 <= k < |runs| ==> |runs[k]| > 0
    ensures SegmentSentences(segs, maxLen) == Sentences(runs)
  {
    RunsIsSegmentation(segs, maxLen);
    SegmentationUnique(segs, maxLen, runs, Runs(segs, maxLen));
  }

  /** Sentence `k` carries the stripped buffer of its run, the end of the run's
      last segment, and the run's first non-zero start (0 if there is none). */
  lemma SentenceOfItsRun(segs: seq<Segment>, maxLen: int, k: nat)
    requires AllSpoken(segs)
    requires k < |SegmentSentences(segs, maxLen)|
    ensures var run := Runs(segs, maxLen)[k];
      var s := SegmentSentences(segs, maxLen)[k];
      && |run| > 0
      && s.text == Strip(Buffer(run))
      && s.end == run[|run| - 1].end
      && (run[0].start != 0 ==> s.start == run[0].start)
      && (s.start == 0 <==> forall i :: 0 <= i < |run| ==> run[i].start == 0)
  {
    var runs := Runs(segs, maxLen);
    SentencesAt(runs, k);
    RunStartSpec(runs[k]);
  }

  /** With at least one segment there is a sentence, and the last sentence
      ends where the last segment ends. */
  lemma LastSentenceEnd(segs: seq<Segment>, maxLen: int)
    requires AllSpoken(segs) && |segs| > 0
    ensures var out := SegmentSentences(segs, maxLen);
      |out| > 0 && out[|out| - 1].end == segs[|segs| - 1].end
  {
    var runs := Runs(segs, maxLen);
    var out := SegmentSentences(segs, maxLen);
    FlattenLength(runs);
    LastRunEnds(runs);
    var last := runs[|runs| - 1];
    SentencesAt(runs, |runs| - 1);
    assert out[|out| - 1] == SentenceOf(last);
  }

  /** No sentence text is blank, and each ends on the last non-space character
      of its run's last segment; so a sentence closed by punctuation ends in it. */
  lemma SentenceTextEnds(segs: seq<Segment>, maxLen: int, k: nat)
    requires AllSpoken(segs)
    requires k < |SegmentSentences(segs, maxLen)|
    ensures var run := Runs(segs, maxLen)[k];
      var text := SegmentSentences(segs, maxLen)[k].text;
      && |run| > 0 && Spoken(run[|run| - 1].text)
      && !Blank(text)
      && LastNonSpace(text) == LastNonSpace(run[|run| - 1].text)
  {
    var runs := Runs(segs, maxLen);
    RunsIsSegmentation(segs, maxLen);
    var run := runs[k];
    assert Run(run, maxLen);
    SentencesAt(runs, k);
    BufferLastNonSpace(run);
    StripKeepsLastNonSpace(Buffer(run));
  }

  /** Every sentence but the last was closed by its last segment: that
      segment's text ends in `.`, `!` or `?`, or the buffer outgrew `maxLen`. */
  lemma EarlierSentencesClosed(segs: seq<Segment>, maxLen: int, k: nat)
    requires AllSpoken(segs)
    requires k + 1 < |SegmentSentences(segs, maxLen)|
    ensures var run := Runs(segs, maxLen)[k];
      && |run| > 0
      && (EndsSentence(run[|run| - 1].text) || |Buffer(run)| > maxLen)
  {
    RunsIsSegmentation(segs, maxLen);
    var run := Runs(segs, maxLen)[k];
    assert ClosedRun(run, maxLen);
  }

  /** No run outgrows the bound before its last segment: every buffer of a
      proper prefix of a run has at most `maxLen` characters. */
  lemma BufferBoundBeforeClose(segs: seq<Segment>, maxLen: int, k: nat, j: nat)
    requires AllSpoken(segs)
    requires k < |Runs(segs, maxLen)| && 0 < j < |Runs(segs, maxLen)[k]|
    ensures |Buffer(Runs(segs, maxLen)[k][..j])| <= maxLen
  {
    RunsIsSegmentation(segs, maxLen);
    RunPrefixBound(Runs(segs, maxLen)[k], maxLen, j);
  }

  /** The runs' buffers, one after the other. */
  function Buffers(runs: seq<seq<Segment>>): (r: string) {
    if |runs| == 0 then "" else Buffer(runs[0]) + Buffers(runs[1..])
  }

  lemma {:induction false} BuffersFlatten(runs: seq<seq<Segment>>)
    ensures Buffers(runs) == Buffer(Flatten(runs))
    decreases |runs|
  {
    if |runs| > 0 {
      BuffersFlatten(runs[1..]);
      BufferAppend(runs[0], Flatten(runs[1..]));
    }
  }

  /** The runs' buffers laid end to end are the buffer of all the segments:
      no text is lost, repeated or reordered. */
  lemma BufferStream(segs: seq<Segment>, maxLen: int)
    ensures Buffers(Runs(segs, maxLen)) == Buffer(segs)
  {
    BuffersFlatten(Runs(segs, maxLen));
  }
}
