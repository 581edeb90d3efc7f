/**
 What the sentence segmenter of audio_to_text.py computes, stated without its
 loop: the segments are cut into consecutive runs, a run ends at the first
 segment that closes it, and each run becomes one sentence.
 */
module Segmentation {
  import opened Text
  import opened Segments

  /** The runs laid end to end. */
  function Flatten(runs: seq<seq<Segment>>): (r: seq<Segment>) {
    if |runs| == 0 then [] else runs[0] + Flatten(runs[1..])
  }

  lemma {:induction false} FlattenSnoc(runs: seq<seq<Segment>>, last: seq<Segment>)
    ensures Flatten(runs + [last]) == Flatten(runs) + last
    decreases |runs|
  {
    if |runs| == 0 {
      assert runs + [last] == [last];
    } else {
      assert (runs + [last])[1..] == runs[1..] + [last];
      FlattenSnoc(runs[1..], last);
    }
  }

  /** Runs that are all non-empty are no more numerous than their segments. */
  lemma {:induction false} FlattenLength(runs: seq<seq<Segment>>)
    requires forall k :: 0 <= k < |runs| ==> |runs[k]| > 0
    ensures |runs| <= |Flatten(runs)|
    decreases |runs|
  {
    if |runs| > 0 {
      FlattenLength(runs[1..]);
    }
  }

  /** No segment of `run` closes the sentence begun at the run's first segment. */
  ghost predicate Open(run: seq<Segment>, maxLen: int) {
    forall j :: 0 <= j < |run| ==> Spoken(run[j].text) && !Closes(run[j], Buffer(run[..j]), maxLen)
  }

  /** One sentence's worth of segments: nothing before its last segment closes it. */
  ghost predicate Run(run: seq<Segment>, maxLen: int) {
    && |run| > 0
    && Open(run[..|run| - 1], maxLen)
    && Spoken(run[|run| - 1].text)
  }

  /** A run whose last segment closes it. */
  ghost predicate ClosedRun(run: seq<Segment>, maxLen: int) {
    && Run(run, maxLen)
    && Closes(run[|run| - 1], Buffer(run[..|run| - 1]), maxLen)
  }

  /** `runs` cuts `segs` into consecutive runs, each cut made at the first
      segment that closes the sentence; only the last run may stay unclosed. */
  ghost predicate IsSegmentation(segs: seq<Segment>, maxLen: int, runs: seq<seq<Segment>>) {
    && Flatten(runs) == segs
    && (forall k :: 0 <= k < |runs| ==> Run(runs[k], maxLen))
    && (forall k :: 0 <= k < |runs| - 1 ==> ClosedRun(runs[k], maxLen))
  }

  /** The sentences the runs make, one per run, in order. */
  function Sentences(runs: seq<seq<Segment>>): (r: seq<Sentence>)
    requires forall k :: 0 <= k < |runs| ==> |runs[k]| > 0
    ensures |r| == |runs|
  {
    if |runs| == 0 then [] else [SentenceOf(runs[0])] + Sentences(runs[1..])
  }

  /** Sentence `k` is the sentence of run `k`. */
  lemma {:induction false} SentencesAt(runs: seq<seq<Segment>>, k: nat)
    requires forall k :: 0 <= k < |runs| ==> |runs[k]| > 0
    requires k < |runs|
    ensures Sentences(runs)[k] == SentenceOf(runs[k])
    decreases k
  {
    if k > 0 {
      SentencesAt(runs[1..], k - 1);
    }
  }

  lemma {:induction false} SentencesSnoc(runs: seq<seq<Segment>>, run: seq<Segment>)
    requires |run| > 0 && forall k :: 0 <= k < |runs| ==> |runs[k]| > 0
    ensures Sentences(runs + [run]) == Sentences(runs) + [SentenceOf(run)]
    decreases |runs|
  {
    if |runs| > 0 {
      assert (runs + [run])[1..] == runs[1..] + [run];
      SentencesSnoc(runs[1..], run);
    } else {
      assert runs + [run] == [run];
    }
  }

  /** The runs closed so far and the run still open. */
  datatype Split = Split(closed: seq<seq<Segment>>, open: seq<Segment>)

  /** Cuts `segs` into runs, continuing the open run `pending`. */
  function SplitFrom(pending: seq<Segment>, segs: seq<Segment>, maxLen: int): (r: Split)
    ensures forall k :: 0 <= k < |r.closed| ==> |r.closed[k]| > 0
    ensures Flatten(r.closed) + r.open == pending + segs
    decreases |segs|
  {
    if |segs| == 0 then
      Split([], pending)
    else if Closes(segs[0], Buffer(pending), maxLen) then
      var rest := SplitFrom([], segs[1..], maxLen);
      var run := pending + [segs[0]];
      assert ([run] + rest.closed)[1..] == rest.closed;
      assert Flatten([run] + rest.closed) == run + Flatten(rest.closed);
      assert run + segs[1..] == pending + segs;
      assert run + Flatten(rest.closed) + rest.open == run + (Flatten(rest.closed) + rest.open);
      Split([run] + rest.closed, rest.open)
    else
      var r := SplitFrom(pending + [segs[0]], segs[1..], maxLen);
      assert pending + [segs[0]] + segs[1..] == pending + segs;
      r
  }

  /** The runs of `segs`: the closed ones, then the open one if it is not empty. */
  function Runs(segs: seq<Segment>, maxLen: int): (runs: seq<seq<Segment>>)
    ensures forall k :: 0 <= k < |runs| ==> |runs[k]| > 0
    ensures Flatten(runs) == segs
  {
    var s := SplitFrom([], segs, maxLen);
    if |s.open| == 0 then
      assert Flatten(s.closed) + [] == Flatten(s.closed);
      s.closed
    else
      FlattenSnoc(s.closed, s.open);
      s.closed + [s.open]
  }

  lemma OpenPrefix(run: seq<Segment>, n: nat, maxLen: int)
    requires Open(run, maxLen) && n <= |run|
    ensures Open(run[..n], maxLen)
  {
    forall j | 0 <= j < n
      ensures Spoken(run[..n][j].text) && !Closes(run[..n][j], Buffer(run[..n][..j]), maxLen)
    {
      assert run[..n][..j] == run[..j];
    }
  }

  lemma OpenSnoc(run: seq<Segment>, seg: Segment, maxLen: int)
    requires Open(run, maxLen) && Spoken(seg.text) && !Closes(seg, Buffer(run), maxLen)
    ensures Open(run + [seg], maxLen)
  {
    var r := run + [seg];
    forall j | 0 <= j < |r|
      ensures Spoken(r[j].text) && !Closes(r[j], Buffer(r[..j]), maxLen)
    {
      if j < |run| {
        assert r[..j] == run[..j];
      } else {
        assert r[..j] == run;
      }
    }
  }

  /** Every run `SplitFrom` closes is closed at its last segment and open before it,
      and the run it leaves open is open throughout. */
  lemma {:induction false} SplitFromRuns(pending: seq<Segment>, segs: seq<Segment>, maxLen: int)
    requires Open(pending, maxLen) && AllSpoken(segs)
    ensures var r := SplitFrom(pending, segs, maxLen);
      && (forall k :: 0 <= k < |r.closed| ==> ClosedRun(r.closed[k], maxLen))
      && Open(r.open, maxLen)
    decreases |segs|
  {
    if |segs| > 0 {
      var seg := segs[0];
      assert AllSpoken(segs[1..]) by {
        assert forall i :: 0 <= i < |segs| - 1 ==> segs[1..][i] == segs[i + 1];
      }
      if Closes(seg, Buffer(pending), maxLen) {
        var run := pending + [seg];
        assert run[..|run| - 1] == pending;
        SplitFromRuns([], segs[1..], maxLen);
        var rest := SplitFrom([], segs[1..], maxLen);
        assert ClosedRun(run, maxLen);
        var closed := [run] + rest.closed;
        assert forall k :: 0 < k < |closed| ==> closed[k] == rest.closed[k - 1];
      } else {
        OpenSnoc(pending, seg, maxLen);
        SplitFromRuns(pending + [seg], segs[1..], maxLen);
      }
    }
  }

  /** The runs of `segs` are a segmentation of it. */
  lemma RunsIsSegmentation(segs: seq<Segment>, maxLen: int)
    requires AllSpoken(segs)
    ensures IsSegmentation(segs, maxLen, Runs(segs, maxLen))
  {
    var s := SplitFrom([], segs, maxLen);
    SplitFromRuns([], segs, maxLen);
    var runs := Runs(segs, maxLen);
    var o := s.open;
    if |o| > 0 {
      OpenPrefix(o, |o| - 1, maxLen);
      assert Run(o, maxLen);
    }
    forall k | 0 <= k < |runs| ensures Run(runs[k], maxLen) {
      if k < |s.closed| {
        assert runs[k] == s.closed[k];
      } else {
        assert runs[k] == o;
      }
    }
    forall k | 0 <= k < |runs| - 1 ensures ClosedRun(runs[k], maxLen) {
      assert runs[k] == s.closed[k];
    }
  }

  /** After its first run, a segmentation goes on as a segmentation of the rest. */
  lemma SegmentationTail(segs: seq<Segment>, maxLen: int, runs: seq<seq<Segment>>)
    requires IsSegmentation(segs, maxLen, runs) && |runs| > 0
    ensures |runs[0]| <= |segs| && segs[..|runs[0]|] == runs[0]
    ensures IsSegmentation(segs[|runs[0]|..], maxLen, runs[1..])
  {
    assert segs == runs[0] + Flatten(runs[1..]);
    var rest := runs[1..];
    forall k | 0 <= k < |rest| ensures Run(rest[k], maxLen) {
      assert rest[k] == runs[k + 1];
    }
    forall k | 0 <= k < |rest| - 1 ensures ClosedRun(rest[k], maxLen) {
      assert rest[k] == runs[k + 1];
    }
  }

  /** No closed run is a proper prefix of a run: the first closing segment ends it. */
  lemma ClosedRunNotPrefix(a: seq<Segment>, b: seq<Segment>, maxLen: int)
    requires Run(b, maxLen) && 0 < |a| < |b| && a == b[..|a|]
    ensures !ClosedRun(a, maxLen)
  {
    var j := |a| - 1;
    var open := b[..|b| - 1];
    assert open[j] == a[j];
    assert open[..j] == a[..j];
  }

  /** Two segmentations of the same segments agree on their first run. */
  lemma FirstRunUnique(segs: seq<Segment>, maxLen: int, r1: seq<seq<Segment>>, r2: seq<seq<Segment>>)
    requires IsSegmentation(segs, maxLen, r1) && IsSegmentation(segs, maxLen, r2)
    requires |r1| > 0 && |r2| > 0
    ensures |r1[0]| <= |r2[0]|
  {
    SegmentationTail(segs, maxLen, r1);
    SegmentationTail(segs, maxLen, r2);
    if |r2[0]| < |r1[0]| {
      var a, b := r2[0], r1[0];
      assert a == b[..|a|];
      if |r2| > 1 {
        assert ClosedRun(a, maxLen);
        ClosedRunNotPrefix(a, b, maxLen);
      }
    }
  }

  /** A segmentation is determined by the segments and the length bound. */
  lemma {:induction false} SegmentationUnique(segs: seq<Segment>, maxLen: int,
                                              r1: seq<seq<Segment>>, r2: seq<seq<Segment>>)
    requires IsSegmentation(segs, maxLen, r1) && IsSegmentation(segs, maxLen, r2)
    ensures r1 == r2
    decreases |segs|
  {
    FlattenLength(r1);
    FlattenLength(r2);
    if |r1| > 0 && |r2| > 0 {
      FirstRunUnique(segs, maxLen, r1, r2);
      FirstRunUnique(segs, maxLen, r2, r1);
      SegmentationTail(segs, maxLen, r1);
      SegmentationTail(segs, maxLen, r2);
      var n := |r1[0]|;
      assert r1[0] == r2[0];
      SegmentationUnique(segs[n..], maxLen, r1[1..], r2[1..]);
      assert r1 == [r1[0]] + r1[1..];
      assert r2 == [r2[0]] + r2[1..];
    }
  }

  /** Inside a run, the buffer of every proper prefix is within the bound. */
  lemma RunPrefixBound(run: seq<Segment>, maxLen: int, j: nat)
    requires Run(run, maxLen) && 0 < j < |run|
    ensures |Buffer(run[..j])| <= maxLen
  {
    var open := run[..|run| - 1];
    var prefix := run[..j];
    assert open[..j - 1] == run[..j - 1] == prefix[..j - 1];
    assert open[j - 1] == run[j - 1] == prefix[j - 1];
    assert !Closes(run[j - 1], Buffer(run[..j - 1]), maxLen);
    assert Buffer(prefix) == Buffer(run[..j - 1]) + run[j - 1].text + " ";
  }

  /** Every segment of a run is one of the flattened segments. */
  lemma {:induction false} FlattenMember(runs: seq<seq<Segment>>, k: nat)
    requires k < |runs|
    ensures forall i :: 0 <= i < |runs[k]| ==> runs[k][i] in Flatten(runs)
    decreases k
  {
    if k > 0 {
      FlattenMember(runs[1..], k - 1);
    }
  }

  /** The last segment of the last run is the last segment overall. */
  lemma LastRunEnds(runs: seq<seq<Segment>>)
    requires |runs| > 0 && |runs[|runs| - 1]| > 0
    ensures var last := runs[|runs| - 1];
      |Flatten(runs)| > 0 && last[|last| - 1] == Flatten(runs)[|Flatten(runs)| - 1]
  {
    var n := |runs|;
    var last := runs[n - 1];
    assert runs == runs[..n - 1] + [last];
    FlattenSnoc(runs[..n - 1], last);
  }
}
