# Sentence segmentation and time labels of the YouTube summarizer

The summarizer transcribes a video's audio with a speech recogniser and then,
in `transcribe_audio`, turns the recogniser's timestamped segments into
sentences. One pass over the segments keeps a text buffer (`snt`) and a pending
start time (`snt_start`). It appends each segment's text plus a space. It closes
a sentence when the segment's stripped text ends in `.`, `!` or `?`, or when the
buffer has grown past `max_snt_len`. It flushes whatever is left after the
loop. Each sentence is then written as one line `start end text`. The app labels
chapter start and end times with `convert_seconds` (`HH:MM:SS`). It chooses between
aligning the video's own chapter list and generating chapters from the
transcript in `retrieve_chapters`.

The Dafny modules follow that structure:

- `Text`: Python's `str.strip()` and `str.split()` over CPython's whitespace
  set, and the fact that `strip().split()[-1][-1]` is the last non-space
  character.
- `Numerals`: decimal rendering of timestamps and its parser.
- `Segments`: segments, sentences, the buffer a run of segments builds, the
  closing test and a run's start time.
- `Segmentation`: the segmenter's result stated without its loop. The segments
  are cut into consecutive runs, each run ends at the first segment that closes
  it, and each run becomes one sentence. Such a cutting exists, and it is
  unique.
- `Segmenter`: the loop itself as a fold over an accumulator, the final flush,
  and the proof that it computes exactly the sentences of that cutting.
- `Transcript`: the serialised output, a parser for it, the round trip, and the
  `IndexError` a blank segment raises.
- `Clock`: `convert_seconds` and its inverse.
- `Chapters`: the dispatch in `retrieve_chapters`.
- `Example`: one concrete transcript worked through.

Two quirks of the code are modelled as written:

- **Start time 0 counts as unset.** `if not snt_start` treats a pending start of
  `0` as unset, so the next segment's start replaces it. A sentence therefore
  starts at the first non-zero start in its run, or at 0 when every start in
  the run is 0.
- **The length test sees the buffer after the append.** `len(snt)` is
  measured once the current segment's text and its trailing space are in the
  buffer.

Two behaviours of the code that a caller might not expect; the model follows
the code:

- **Empty segment list.** An empty list of segments yields no sentences and the
  empty string.
- **Blank segment text.** A segment whose text is blank makes `split()[-1]`
  raise `IndexError`. `Transcript.Transcribe` returns `Failure(IndexError)`
  exactly when some segment text is blank. The segmenter functions require
  every text to be non-blank.

## Model

| member | source | states |
|---|---|---|
| `Text.TrimStartSpec` | audio_to_text.py:22 | leading-whitespace removal drops exactly a blank prefix and stops at a non-space character; the result is empty iff the text is blank |
| `Text.TrimEndSpec` | audio_to_text.py:22 | trailing-whitespace removal drops exactly a blank suffix and stops at a non-space character; the result is empty iff the text is blank |
| `Text.LastWordEndsAtLastNonSpace` | audio_to_text.py:18 | a stripped non-blank text splits into at least one word; the last character of its last word is the text's last non-space character |
| `Text.StripKeepsLastNonSpace` | audio_to_text.py:18 | stripping leaves a text blank exactly when it was blank, and keeps its last non-space character |
| `Segments.LastToken` | audio_to_text.py:18 | `text.strip().split()[-1][-1]` is defined for every non-blank text and is its last non-space character |
| `Segments.BufferAppend` | audio_to_text.py:14 | the buffer of two consecutive stretches of segments is the first buffer followed by the second |
| `Segments.BufferLastNonSpace` | audio_to_text.py:14 | a buffer whose last segment is non-blank is non-blank, and ends on that segment's last non-space character |
| `Segments.RunStartSpec` | audio_to_text.py:15-16 | a run's start is 0 iff every start in it is 0; otherwise it is the first non-zero start and every earlier start is 0 |
| `Segmentation.Runs` | audio_to_text.py:13-32 | the runs are non-empty and, laid end to end, give back the input segments in order |
| `Segmentation.SplitFromRuns` | audio_to_text.py:13-25 | every run the scan closes is open before its last segment and closed by it; the leftover run is open throughout |
| `Segmentation.RunsIsSegmentation` | audio_to_text.py:13-32 | the runs satisfy the segmentation predicate: a partition of the segments, each run cut at its first closing segment, only the last possibly unclosed |
| `Segmentation.SegmentationUnique` | audio_to_text.py:13-32 | two cuttings that both satisfy the segmentation predicate are equal |
| `Segmenter.StepSplit` | audio_to_text.py:14-25 | one iteration with the pending run's buffer and start in the accumulator: when the segment closes the run (its text ends in `.`, `!` or `?`, or the grown buffer exceeds `max_snt_len`) it emits the run's sentence (stripped buffer, run start, this segment's end) and resets buffer and start; otherwise it appends the segment to the run |
| `Segmenter.Fold` | audio_to_text.py:13-25 | the loop keeps the accumulator consistent (an empty buffer iff no pending start) and emits at most one sentence per segment |
| `Segmenter.SegmentSentences` | audio_to_text.py:10-32 | the loop with its flush yields exactly one sentence per run of the cutting, in order, and no more sentences than segments |
| `Segmenter.SentencesFollowSegmentation` | audio_to_text.py:10-32 | for ANY runs satisfying the segmentation predicate, the segmenter's output is the sentences of those runs |
| `Segmenter.SentenceOfItsRun` | audio_to_text.py:15-16 | sentence k has its run's stripped buffer as text and the end of the run's last segment as end; its start is the first segment's start when that is non-zero, and 0 iff all starts in the run are 0 |
| `Segmenter.SentenceTextEnds` | audio_to_text.py:18-22 | no sentence text is blank; each ends on the last non-space character of its run's last segment |
| `Segmenter.LastSentenceEnd` | audio_to_text.py:27-30 | a non-empty segment list gives at least one sentence, and the last one ends at the last segment's end |
| `Segmenter.EarlierSentencesClosed` | audio_to_text.py:17-20 | every sentence but the last was closed by a segment ending in `.`, `!` or `?` or by its buffer exceeding `max_snt_len` |
| `Segmenter.BufferBoundBeforeClose` | audio_to_text.py:19 | inside a run, the buffer of every proper prefix has at most `max_snt_len` characters |
| `Segmenter.BufferStream` | audio_to_text.py:13-14 | the runs' buffers laid end to end are the buffer of all segments: no text is lost, repeated or reordered |
| `Transcript.Transcribe` | audio_to_text.py:10-39 | fails with `IndexError` iff some segment text is blank; an empty segment list gives the empty string; otherwise the output is the serialised sentences |
| `Transcript.ParseLineRoundTrip` | audio_to_text.py:37 | one `start end text` line reads back as the sentence it was written from |
| `Transcript.ParseSerialize` | audio_to_text.py:34-38 | the output of newline-free sentences parses back to exactly those sentences, in order |
| `Transcript.OneLinePerSentence` | audio_to_text.py:34-38 | the output holds exactly one newline per sentence and ends with one when there is a sentence |
| `Transcript.TranscribeRoundTrip` | audio_to_text.py:10-39 | for newline-free segment texts, the returned text parses back to the segmenter's sentences, with one line per sentence and no more lines than segments |
| `Numerals.DecimalRoundTrip` | audio_to_text.py:37 | the decimal rendering of a timestamp parses back to it |
| `Clock.ToHms` | app.py:70-72 | minutes and seconds are below 60 and `hours*3600 + minutes*60 + seconds` is the input |
| `Clock.HmsUnique` | app.py:70-72 | that breakdown is the only one with minutes and seconds below 60 |
| `Clock.Pad2` | app.py:74 | the `02d` field is two digits for 0..99 and starts with `-` for negative values |
| `Clock.ConvertSeconds` | app.py:69-74 | the label has `:` three and six characters from its end, and is exactly 8 characters below 100 hours |
| `Clock.ConvertSecondsRoundTrip` | app.py:69-74 | the label parses back to the number of seconds it was made from |
| `Clock.ConvertSecondsInjective` | app.py:69-74 | distinct times get distinct labels |
| `Example.HelloWorld` | audio_to_text.py:10-39 | one segment "Hello world." from 1 to 2 becomes the single line `1 2 Hello world.` |

## Left out

- Speech recognition (`whisper.load_model` and `transcribe`, audio_to_text.py:7-8) is a foreign library call. The model takes the recogniser's segment list as input.
- Timestamps are natural numbers, and each is rendered in decimal. The recogniser reports floats, and the code renders them with Python's float `repr`. Float formatting and float arithmetic are not modelled.
- Transcript.ParseSerialize: the round trip needs sentence texts without `\n`. A segment text holding a newline would add lines to the output.
- Clock.ConvertSeconds: the input is a whole number of seconds, and negative values use Python's floor division. The `int()` truncation of a float argument is not modelled.
- Chapters.RetrieveChapters: `align_chapters` and `get_automatic_chapters` are not part of this model. They are parameters, so only the dispatch between them is stated.
- `summarize_chapters`, the YouTube download and chapter metadata fetch, the Streamlit interface, the timing decorator, and the temporary directory are left out. They are network, user-interface, clock and filesystem side effects with no logic of their own to state.
- The hyperlink and markdown assembly in `summarize_video` is presentation only.
