/** A worked example: a single segment ending in a full stop. */
module Example {
  import opened Wrappers
  import opened Text
  import opened Numerals
  import opened Segments
  import opened Segmenter
  import opened Transcript

  const Hello := "Hello world."

  lemma HelloText()
    ensures !Blank(Hello) && LastNonSpace(Hello) == '.'
    ensures Strip(Hello + " ") == Hello
  {
    assert |Hello| == 12 && Hello[11] == '.' && Hello[0] == 'H';
    assert !IsSpace(Hello[11]) && !IsSpace(Hello[0]);
    var b := Hello + " ";
    assert IsSpace(b[12]);
    assert b[..12] == Hello;
    assert TrimStart(b) == b;
    assert TrimEnd(Hello) == Hello;
    assert TrimEnd(b) == TrimEnd(b[..12]);
  }

  lemma HelloToken()
    ensures Spoken(Hello) && LastToken(Hello) == '.'
  {
    HelloText();
  }

  lemma HelloStep()
    ensures Spoken(Hello)
    ensures Step(Acc([], "", None), Segment(Hello, 1, 2), 100) == Acc([Sentence(Hello, 1, 2)], "", None)
  {
    HelloText();
    HelloToken();
    var buf := "" + Hello + " ";
    assert buf == Hello + " ";
    assert Strip(buf) == Hello && |buf| == 13;
    var e: seq<Sentence> := [];
    assert e + [Sentence(Hello, 1, 2)] == [Sentence(Hello, 1, 2)];
  }

  lemma HelloSentences()
    ensures AllSpoken([Segment(Hello, 1, 2)])
    ensures SegmentSentences([Segment(Hello, 1, 2)], 100) == [Sentence(Hello, 1, 2)]
  {
    HelloStep();
    var seg := Segment(Hello, 1, 2);
    assert [seg][1..] == [];
    assert Fold(Acc([], "", None), [seg], 100) == Acc([Sentence(Hello, 1, 2)], "", None);
  }

  lemma HelloLine()
    ensures Serialize([Sentence(Hello, 1, 2)]) == "1 2 Hello world.\n"
  {
    assert Decimal(1) == "1" && Decimal(2) == "2";
    var line := "1" + " " + "2" + " " + Hello + "\n";
    forall i | 0 <= i < 17 ensures line[i] == "1 2 Hello world.\n"[i] {}
    assert Serialize([Sentence(Hello, 1, 2)]) == Line(Sentence(Hello, 1, 2)) + Serialize([]);
  }

  /** One segment that ends in a full stop becomes one line. */
  lemma HelloWorld()
    ensures Transcribe([Segment(Hello, 1, 2)], 100) == Success("1 2 Hello world.\n")
  {
    HelloSentences();
    HelloLine();
  }
}
