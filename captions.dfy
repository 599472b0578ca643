/** The caption assembler of `mp3_to_sbv`: the fallback to one span covering
    the whole track, one SBV record per span in order (timing line, then the
    transcript or an error caption, then a blank line), and the temporary
    clip that exists only while one span is being transcribed. */
module Captions {
  import opened Decimal
  import opened SbvTime
  import SbvPath

  /** A non-silent range `[start, end)` of the track, in milliseconds. */
  datatype Span = Span(start: nat, end: nat)

  /** What the recognizer gives for one clip: the transcript, or the message
      of the exception it raised. */
  datatype Transcription = Transcribed(text: string) | Failed(message: string)

  const ERROR_PREFIX := "Transcription error: "

  /** Spans as a silence detector delivers them: each non-empty and inside
      the track, each ending no later than the next one starts. */
  predicate WellFormedSpans(spans: seq<Span>, trackLength: nat) {
    (forall i :: 0 <= i < |spans| ==> spans[i].start < spans[i].end <= trackLength)
    && (forall i :: 0 < i < |spans| ==> spans[i - 1].end <= spans[i].start)
  }

  /** The spans are processed as detected; when none were detected, the whole
      track is one span. */
  function EffectiveSpans(detected: seq<Span>, trackLength: nat): (spans: seq<Span>)
    ensures |spans| >= 1
    ensures detected != [] ==> spans == detected
    ensures detected == [] ==> spans == [Span(0, trackLength)]
    ensures trackLength > 0 && WellFormedSpans(detected, trackLength) ==> WellFormedSpans(spans, trackLength)
  {
    if detected == [] then [Span(0, trackLength)] else detected
  }

  /** The caption line of a record. */
  function Caption(t: Transcription): string {
    match t
    case Transcribed(text) => text
    case Failed(message) => ERROR_PREFIX + message
  }

  /** `{start},{end}` with both ends formatted as SBV timestamps. */
  function TimingLine(s: Span): string {
    FormatTime(s.start) + "," + FormatTime(s.end)
  }

  /** One SBV record: timing line, caption line, blank separator line. */
  function Record(s: Span, t: Transcription): string {
    TimingLine(s) + "\n" + Caption(t) + "\n\n"
  }

  /** The SBV document for `spans`: their records, one after another in
      span order. */
  function Document(spans: seq<Span>, transcribe: Span -> Transcription): string {
    RenderAll(spans, s => Record(s, transcribe(s)))
  }

  /** The renderings of `xs`, concatenated in order. */
  function RenderAll<A>(xs: seq<A>, render: A -> string): string {
    if xs == [] then "" else render(xs[0]) + RenderAll(xs[1..], render)
  }

  lemma {:induction false} RenderAllAppend<A>(a: seq<A>, b: seq<A>, render: A -> string)
    ensures RenderAll(a + b, render) == RenderAll(a, render) + RenderAll(b, render)
  {
    if a == [] {
      assert a + b == b;
    } else {
      assert (a + b)[1..] == a[1..] + b;
      RenderAllAppend(a[1..], b, render);
    }
  }

  /** Rendering one more element appends exactly its rendering. */
  lemma {:induction false} RenderAllExtend<A>(xs: seq<A>, render: A -> string, k: nat)
    requires k < |xs|
    ensures RenderAll(xs[..k + 1], render) == RenderAll(xs[..k], render) + render(xs[k])
  {
    assert xs[..k + 1] == xs[..k] + [xs[k]];
    RenderAllAppend(xs[..k], [xs[k]], render);
    assert RenderAll([xs[k]], render) == render(xs[k]) + RenderAll([], render);
  }

  /** The rendering of `xs` has the rendering of its first k elements, then
      that of element k, then that of the rest. */
  lemma {:induction false} RenderAllAround<A>(xs: seq<A>, render: A -> string, k: nat)
    requires k < |xs|
    ensures RenderAll(xs, render) == RenderAll(xs[..k], render) + render(xs[k]) + RenderAll(xs[k + 1..], render)
  {
    var front, back := xs[..k + 1], xs[k + 1..];
    calc {
      RenderAll(xs, render);
      { assert xs == front + back; }
      RenderAll(front + back, render);
      { RenderAllAppend(front, back, render); }
      RenderAll(front, render) + RenderAll(back, render);
      { RenderAllExtend(xs, render, k); }
      RenderAll(xs[..k], render) + render(xs[k]) + RenderAll(back, render);
    }
  }

  /** The document of two runs of spans is the two documents one after the
      other: the file is written in one pass, and what is written for the
      first spans is never revised. */
  lemma {:induction false} DocumentAppend(a: seq<Span>, b: seq<Span>, transcribe: Span -> Transcription)
    ensures Document(a + b, transcribe) == Document(a, transcribe) + Document(b, transcribe)
  {
    RenderAllAppend(a, b, s => Record(s, transcribe(s)));
  }

  /** Processing one more span appends exactly that span's record. */
  lemma {:induction false} DocumentExtend(spans: seq<Span>, transcribe: Span -> Transcription, k: nat)
    requires k < |spans|
    ensures Document(spans[..k + 1], transcribe)
      == Document(spans[..k], transcribe) + Record(spans[k], transcribe(spans[k]))
  {
    RenderAllExtend(spans, s => Record(s, transcribe(s)), k);
  }

  /** The document is the N records one after another, in span order: the
      k-th record occupies the characters from the length of the first k
      records' document on. */
  lemma {:induction false} RecordAt(spans: seq<Span>, transcribe: Span -> Transcription, k: nat)
    requires k < |spans|
    ensures var offset, rec := |Document(spans[..k], transcribe)|, Record(spans[k], transcribe(spans[k]));
      |Document(spans[..k + 1], transcribe)| == offset + |rec|
      && offset + |rec| <= |Document(spans, transcribe)|
      && Document(spans, transcribe)[offset..offset + |rec|] == rec
  {
    var render := s => Record(s, transcribe(s));
    RenderAllExtend(spans, render, k);
    RenderAllAround(spans, render, k);
    var before, rec, after := RenderAll(spans[..k], render), render(spans[k]), RenderAll(spans[k + 1..], render);
    assert RenderAll(spans, render) == before + rec + after;
    assert (before + rec + after)[|before|..|before| + |rec|] == rec;
  }

  /** Index of the first `c` in `s`, or -1. */
  function IndexOf(s: string, c: char): (r: int)
    ensures -1 <= r < |s|
    ensures r >= 0 ==> s[r] == c
    ensures forall j :: 0 <= j < |s| && (r < 0 || j < r) ==> s[j] != c
  {
    if s == [] then -1
    else if s[0] == c then 0
    else
      var r := IndexOf(s[1..], c);
      if r < 0 then -1 else r + 1
  }

  /** Reads a timing line `{start},{end}` back into its span. */
  function ParseTimingLine(line: string): Option<Span> {
    var comma := IndexOf(line, ',');
    if comma < 0 then None
    else
      match (ParseTime(line[..comma]), ParseTime(line[comma + 1..]))
      case (Some(start), Some(end)) => Some(Span(start, end))
      case _ => None
  }

  /** A timing line reads back as the span it was written for. */
  lemma TimingLineRoundTrip(s: Span)
    ensures ParseTimingLine(TimingLine(s)) == Some(s)
  {
    FormatTimeAlphabet(s.start);
    FormatTimeRoundTrip(s.start);
    FormatTimeRoundTrip(s.end);
    ParseJoined(FormatTime(s.start), FormatTime(s.end), s.start, s.end);
  }

  /** Two timestamps joined by ',' read back as the span between them, when
      the first contains no ','. */
  lemma ParseJoined(a: string, b: string, start: nat, end: nat)
    requires forall j :: 0 <= j < |a| ==> a[j] != ','
    requires ParseTime(a) == Some(start) && ParseTime(b) == Some(end)
    ensures ParseTimingLine(a + "," + b) == Some(Span(start, end))
  {
    var line := a + "," + b;
    assert forall j :: 0 <= j < |a| ==> line[j] == a[j];
    assert line[|a|] == ',';
    assert IndexOf(line, ',') == |a|;
    assert line[..|a|] == a && line[|a| + 1..] == b;
  }

  /** Whatever the recognizer does, the k-th record lies in the document at
      its place and consists of the k-th timing line, a newline, the transcript
      verbatim or `Transcription error: ` and the message, and a blank line. */
  lemma {:induction false} RecordLines(spans: seq<Span>, transcribe: Span -> Transcription, k: nat)
    requires k < |spans|
    ensures var doc, offset := Document(spans, transcribe), |Document(spans[..k], transcribe)|;
      var timing := TimingLine(spans[k]);
      var caption := match transcribe(spans[k])
        case Transcribed(text) => text
        case Failed(message) => ERROR_PREFIX + message;
      offset + |timing| + 1 + |caption| + 2 <= |doc|
      && doc[offset..offset + |timing|] == timing
      && doc[offset + |timing|] == '\n'
      && doc[offset + |timing| + 1..offset + |timing| + 1 + |caption|] == caption
      && doc[offset + |timing| + 1 + |caption|..offset + |timing| + 1 + |caption| + 2] == "\n\n"
  {
    RecordAt(spans, transcribe, k);
    var doc, offset := Document(spans, transcribe), |Document(spans[..k], transcribe)|;
    var rec := Record(spans[k], transcribe(spans[k]));
    var timing, caption := TimingLine(spans[k]), Caption(transcribe(spans[k]));
    assert doc[offset..offset + |rec|] == rec;
    assert rec == timing + "\n" + caption + "\n\n";
    assert |rec| == |timing| + |caption| + 3;
    RecordLayout(doc, offset, timing, caption);
    assert offset + |timing| + 1 + |caption| + 2 <= |doc|
      && doc[offset..offset + |timing|] == timing
      && doc[offset + |timing|] == '\n'
      && doc[offset + |timing| + 1..offset + |timing| + 1 + |caption|] == caption
      && doc[offset + |timing| + 1 + |caption|..offset + |timing| + 1 + |caption| + 2] == "\n\n";
  }

  /** The first line of the k-th record reads back as the k-th span. */
  lemma {:induction false} EveryRecordHasItsTimingLine(spans: seq<Span>, transcribe: Span -> Transcription, k: nat)
    requires k < |spans|
    ensures |Document(spans[..k], transcribe)| + |TimingLine(spans[k])| <= |Document(spans, transcribe)|
    ensures ParseTimingLine(Document(spans, transcribe)[|Document(spans[..k], transcribe)|..|Document(spans[..k], transcribe)| + |TimingLine(spans[k])|])
      == Some(spans[k])
  {
    RecordLines(spans, transcribe, k);
    ParseTimingAt(Document(spans, transcribe), |Document(spans[..k], transcribe)|, spans[k]);
  }

  /** A timing line found inside a longer text reads back as its span. */
  lemma ParseTimingAt(doc: string, offset: nat, s: Span)
    requires offset + |TimingLine(s)| <= |doc|
    requires doc[offset..offset + |TimingLine(s)|] == TimingLine(s)
    ensures ParseTimingLine(doc[offset..offset + |TimingLine(s)|]) == Some(s)
  {
    TimingLineRoundTrip(s);
  }

  /** Where the three lines of a record lie inside the text holding it. */
  lemma {:induction false} RecordLayout(doc: string, offset: nat, timing: string, caption: string)
    requires offset + |timing| + |caption| + 3 <= |doc|
    requires doc[offset..offset + |timing| + |caption| + 3] == timing + "\n" + caption + "\n\n"
    ensures doc[offset..offset + |timing|] == timing
    ensures doc[offset + |timing|] == '\n'
    ensures doc[offset + |timing| + 1..offset + |timing| + 1 + |caption|] == caption
    ensures doc[offset + |timing| + 1 + |caption|..offset + |timing| + 1 + |caption| + 2] == "\n\n"
  {
    var rec := timing + "\n" + caption + "\n\n";
    var n, c := |timing|, |caption|;
    var len := n + c + 3;
    SliceOfSlice(doc, offset, len, 0, n);
    assert rec[..n] == timing;
    assert doc[offset + n] == doc[offset..offset + len][n] == rec[n];
    SliceOfSlice(doc, offset, len, n + 1, n + 1 + c);
    assert rec[n + 1..n + 1 + c] == caption;
    SliceOfSlice(doc, offset, len, n + 1 + c, len);
    assert rec[n + 1 + c..len] == "\n\n";
  }

  /** A slice of a slice is a slice of the whole. */
  lemma {:induction false} SliceOfSlice(s: string, lo: nat, len: nat, i: nat, j: nat)
    requires lo + len <= |s| && i <= j <= len
    ensures s[lo..lo + len][i..j] == s[lo + i..lo + j]
  {
    var inner, direct := s[lo..lo + len][i..j], s[lo + i..lo + j];
    assert |inner| == |direct|;
    forall m | 0 <= m < |inner|
      ensures inner[m] == direct[m]
    {
      assert inner[m] == s[lo + i + m];
    }
  }

  /** The output file `sbv_file`, opened with mode 'w' (so empty) at `path`,
      and written to only at its end. */
  class SbvFile {
    const path: string
    var contents: string

    constructor Open(path: string)
      ensures this.path == path && contents == ""
    {
      this.path := path;
      contents := "";
    }

    method Write(s: string)
      modifies this
      ensures contents == old(contents) + s
    {
      contents := contents + s;
    }
  }

  /** The scratch file `temp_segment.wav` in the working directory: whether it
      is on disk, and which span of the track it holds. */
  class TempClip {
    ghost var present: bool
    ghost var clip: Span

    /** `audio[start:end].export(wav_segment)`: creates or overwrites it. */
    method Export(s: Span)
      modifies this
      ensures present && clip == s
    {
      present, clip := true, s;
    }

    /** `os.remove(wav_segment)`, which needs the file to be there. */
    method Remove()
      requires present
      modifies this
      ensures !present && clip == old(clip)
    {
      present := false;
    }

    /** `transcribe_audio(wav_segment)`: the recognizer reads the clip on disk. */
    method Recognize(transcribe: Span -> Transcription, s: Span) returns (t: Transcription)
      requires present && clip == s
      ensures t == transcribe(s)
    {
      t := transcribe(s);
    }
  }

  /** The timing line with its newline, then the caption with the blank
      line, appended in two writes, append one record. */
  lemma WritesMakeRecord(before: string, s: Span, t: Transcription)
    ensures before + (TimingLine(s) + "\n") + (Caption(t) + "\n\n") == before + Record(s, t)
  {
    assert Record(s, t) == TimingLine(s) + "\n" + Caption(t) + "\n\n";
    TwoWrites(before, TimingLine(s), Caption(t));
  }

  /** Associativity of the two writes, over plain strings so that the
      solver has no timing line to unfold. */
  lemma TwoWrites(before: string, timing: string, caption: string)
    ensures before + (timing + "\n") + (caption + "\n\n") == before + (timing + "\n" + caption + "\n\n")
  {
  }

  /** `mp3_to_sbv` after the track is decoded (it lasts `trackLength` ms) and
      its non-silent spans are detected: writes one record per span, keeping
      the temporary clip only around each recognizer call. */
  method Mp3ToSbv(mp3Path: string, trackLength: nat, detected: seq<Span>,
                  transcribe: Span -> Transcription, temp: TempClip)
    returns (sbv: SbvFile)
    modifies temp
    ensures fresh(sbv)
    ensures sbv.path == SbvPath.SbvPath(mp3Path)
    ensures sbv.contents == Document(EffectiveSpans(detected, trackLength), transcribe)
    ensures !temp.present
  {
    var sbvPath := SbvPath.SbvPath(mp3Path);
    var spans := detected;
    if |spans| == 0 {
      spans := [Span(0, trackLength)];
    }
    sbv := new SbvFile.Open(sbvPath);
    for i := 0 to |spans|
      invariant sbv.contents == Document(spans[..i], transcribe)
      invariant i > 0 ==> !temp.present
    {
      var span := spans[i];
      ghost var before := sbv.contents;
      sbv.Write(TimingLine(span) + "\n");
      temp.Export(span);
      var outcome := temp.Recognize(transcribe, span);
      match outcome {
        case Transcribed(text) =>
          sbv.Write(text + "\n\n");
        case Failed(message) =>
          sbv.Write(ERROR_PREFIX + message + "\n\n");
      }
      WritesMakeRecord(before, span, outcome);
      temp.Remove();
      DocumentExtend(spans, transcribe, i);
    }
    assert spans[..|spans|] == spans;
  }
}
