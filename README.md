# mp3_to_sbv in Dafny

`mp3_to_sbv.py` turns an MP3 recording into a YouTube SBV caption file. It
decodes the track, finds its non-silent ranges, and writes one caption
record per range into `<input without extension>.sbv`. Each range is cut
out into the scratch file `temp_segment.wav` and sent to a speech
recognizer. A record is:

- the timing line `H:MM:SS.mmm,H:MM:SS.mmm`;
- the transcript, or `Transcription error: <message>` when the recognizer
  raised;
- a blank line.

If no non-silent range is found, the whole track is one range.

This project models four parts of that program:

- `Decimal` (decimal.dfy): `str(n)` and the zero-padded format
  specifiers as digit strings, with the value a digit string denotes.
- `SbvTime` (sbv_time.dfy): `ms_to_sbv_time` computed by exact integer
  division (`ToClock`, `FormatTime`), and a reader `ParseTime` as its
  inverse.
- `SbvPath` (sbv_path.dfy): the output path
  `os.path.splitext(path)[0] + '.sbv'`, with POSIX `splitext`. The last
  extension of the final component is replaced. A component's leading dots
  never start an extension.
- `Captions` (captions.dfy): the assembler loop of `mp3_to_sbv`.
  - `SbvFile` is the output file, an append-only string.
  - `TempClip` is the scratch WAV file, whose existence and content are ghost
    state.
  - The method `Mp3ToSbv` is proved to write exactly `Document(spans)`. That
    is every span's record, in order, whether its transcription succeeded or
    failed, and the scratch file is gone at the end.
  - Lemmas locate each record in the document and read its timing line back
    as its span.

The recognizer is a parameter `transcribe: Span -> Transcription`. Its
outcome is `Transcribed(text)` or `Failed(message)`, where `message` stands
for `str(e)`. The decoded track enters only through its length in
milliseconds. The detector's output is an input sequence of spans.

## Model

| member | source | states |
|---|---|---|
| Decimal.ZeroPad | mp3_to_sbv.py:32 | `{n:02}` / `{n:03}`; no contract of its own, specified by ZeroPadValue and ZeroPadExact |
| Decimal.NoLeadingZero | mp3_to_sbv.py:32 | `str(n)` starts with '0' exactly when n is 0 |
| Decimal.NatToString | mp3_to_sbv.py:32 | `str(n)` is a non-empty string of decimal digits |
| Decimal.ValueOfNatToString | mp3_to_sbv.py:32 | the digits of `str(n)` denote `n` |
| Decimal.ZeroPadValue | mp3_to_sbv.py:32 | `{n:0w}` has at least `w` digits and still denotes `n` |
| Decimal.ZeroPadExact | mp3_to_sbv.py:32 | a number below 10^w is padded to exactly `w` digits |
| SbvTime.FormatTime | mp3_to_sbv.py:23-32 | `ms_to_sbv_time`; no contract of its own, specified by FormatTimeRoundTrip, FormatTimeShape, FormatTimeHoursUnpadded, FormatTimeAlphabet, FormatTimeInjective and FormatTimeExample |
| SbvTime.ToClock | mp3_to_sbv.py:25-30 | minutes and seconds are below 60, milliseconds below 1000, and hours·3600000 + minutes·60000 + seconds·1000 + milliseconds equals the input |
| SbvTime.ClockUnique | mp3_to_sbv.py:25-30 | any in-range fields that add up to `ms` are the fields ToClock computes |
| SbvTime.ParseTime | mp3_to_sbv.py:32 | a string accepted as a timestamp has ':' , ':' and '.' at the fixed places of `H:MM:SS.mmm` |
| SbvTime.FormatTimeRoundTrip | mp3_to_sbv.py:23-32 | reading the formatted timestamp back gives the millisecond offset it was made from |
| SbvTime.FormatTimeShape | mp3_to_sbv.py:32 | the timestamp is the unpadded hour count followed by exactly ten characters, with ':' , ':' and '.' at fixed places |
| SbvTime.FormatTimeHoursUnpadded | mp3_to_sbv.py:23-32 | the text before the last ten characters is exactly `str(hours)`, and the timestamp starts with '0' exactly when the offset is below one hour |
| SbvTime.FormatTimeAlphabet | mp3_to_sbv.py:32 | a timestamp holds only digits, ':' and '.' (so never the ',' of a timing line) |
| SbvTime.FormatTimeInjective | mp3_to_sbv.py:23-32 | distinct offsets give distinct timestamps |
| SbvTime.FormatTimeExample | mp3_to_sbv.py:23-32 | 3725007 ms is `1:02:05.007` |
| SbvPath.SplitExt | mp3_to_sbv.py:51 | POSIX `os.path.splitext`; no contract of its own, specified by SplitExtCorrect and SplitExtUnique |
| SbvPath.LastIndexOf | mp3_to_sbv.py:51 | the result is -1 or an index holding `c`, and no later index holds `c` |
| SbvPath.SplitExtCorrect | mp3_to_sbv.py:51 | `splitext` gives root + ext == path, with ext empty or a dot and no later dot or separator, starting after a non-leading-dot character of the final component |
| SbvPath.SplitExtUnique | mp3_to_sbv.py:51 | any split with those properties is the one `splitext` returns |
| SbvPath.SbvPath | mp3_to_sbv.py:51 | the output path ends in `.sbv` and is the root of the input followed by `.sbv` |
| SbvPath.SbvPathReplacesExtension | mp3_to_sbv.py:51 | stated on the input's characters alone: if every dot of the final component is a leading dot, `.sbv` is appended to the whole input; if some dot of the final component follows a non-dot character, everything from the input's last dot on is replaced by `.sbv` |
| SbvPath.SbvPathIdempotent | mp3_to_sbv.py:51 | when the root's final component holds a non-dot character, `.sbv` is the output path's own extension, and deriving the path again changes nothing |
| SbvPath.SbvPathExampleExtension | mp3_to_sbv.py:51 | `talk.mp3` becomes `talk.sbv` |
| SbvPath.SbvPathExampleLeadingDot | mp3_to_sbv.py:51 | `.hidden` has no extension and becomes `.hidden.sbv` |
| SbvPath.SbvPathExampleDottedDirectory | mp3_to_sbv.py:51 | a dot in a directory name is not an extension: `v1.2/talk` becomes `v1.2/talk.sbv` |
| Captions.EffectiveSpans | mp3_to_sbv.py:61-62 | detected ranges are used as they are and in order; none gives the single span `[0, length)`; there is always at least one span, and on a non-empty track well-formed detected ranges stay well-formed (on a zero-length track the fallback `[0, 0)` is empty) |
| Captions.Caption | mp3_to_sbv.py:78-81 | the caption line; no contract of its own, its two cases are pinned by RecordLines |
| Captions.TimingLine | mp3_to_sbv.py:67-71 | the timing line; no contract of its own, specified by TimingLineRoundTrip |
| Captions.Record | mp3_to_sbv.py:71-81 | one record; no contract of its own, its layout is stated by RecordLines |
| Captions.Document | mp3_to_sbv.py:64-83 | the file contents; no contract of its own, specified by DocumentAppend, DocumentExtend, RecordAt, RecordLines and EveryRecordHasItsTimingLine, and written by Mp3ToSbv |
| Captions.DocumentAppend | mp3_to_sbv.py:64-83 | the document of two runs of spans is their documents concatenated, so output once written is never revised |
| Captions.DocumentExtend | mp3_to_sbv.py:65-83 | processing one more span appends exactly that span's record |
| Captions.RecordAt | mp3_to_sbv.py:65-83 | the k-th record occupies the document from the length of the first k records on |
| Captions.RecordLines | mp3_to_sbv.py:67-81 | the k-th record is its timing line, a newline, then the transcript verbatim or `Transcription error: ` with the message, then a blank line, whatever the recognizer returned for the other spans |
| Captions.TimingLineRoundTrip | mp3_to_sbv.py:67-71 | a timing line reads back as the span it was written for |
| Captions.EveryRecordHasItsTimingLine | mp3_to_sbv.py:67-71 | the first line of the k-th record in the document reads back as the k-th span |
| Captions.SbvFile.Open | mp3_to_sbv.py:64 | opening with mode 'w' gives an empty file at the path |
| Captions.SbvFile.Write | mp3_to_sbv.py:71 | a write appends its text and changes nothing else |
| Captions.TempClip.Export | mp3_to_sbv.py:74-76 | after the export the scratch file exists and holds the span |
| Captions.TempClip.Recognize | mp3_to_sbv.py:77-78 | recognition needs the scratch file on disk holding this span, and its outcome is the recognizer's |
| Captions.TempClip.Remove | mp3_to_sbv.py:82-83 | removal needs the file to exist and leaves it absent |
| Captions.Mp3ToSbv | mp3_to_sbv.py:50-83 | the output goes to the derived `.sbv` path, its contents are exactly the records of the effective spans in order, one per span whether its transcription succeeded or failed, and no scratch file is left behind |

## Left out

- SbvTime.FormatTime: uses exact integer arithmetic. The source computes
  with floats (`ms / 1000.0`, then `%` on floats and `int(...)`, lines
  25-30). That version can lose a millisecond: for 1001 ms,
  `1.001 - int(1.001)` is slightly below 0.001 in binary, so the source
  writes `0:00:01.000` where this model writes `0:00:01.001`. Floating point
  is not modelled. For every input the model uses the intended integer
  breakdown.
- MP3 decoding and WAV export through pydub (lines 12-14, 45, 75-76) are
  left out. The track is represented only by its length, and the exported
  clip only by its span.
- Silence detection (`detect_nonsilent`, line 55) is an external library
  call. Its result is an input, and `WellFormedSpans` states what it is
  expected to satisfy.
- Speech recognition (`transcribe_audio`, lines 16-21) calls the Google
  service. It is a function parameter, so repeated calls on the same span
  are taken to give the same outcome. Network nondeterminism is not modelled.
- Captions.TempClip.Recognize: an exception raised by the recognizer is the
  outcome `Failed`. Exceptions raised elsewhere inside the `try` are not
  modelled (see the write below).
- Captions.TempClip.Export: the export cannot fail. An exception raised by
  the export (line 76), which sits outside the `try` and would end the
  program, is not modelled.
- Captions.SbvFile.Write: a write cannot fail, and the text is stored as
  characters. The output file is opened in text mode (line 64), so the
  source encodes with the locale's encoding and translates newlines. A
  transcript the encoding cannot represent raises inside the `try` of
  lines 77-81. The source then writes `Transcription error: ...` after the
  part of the line already written, where the model writes the transcript
  verbatim. Output encoding and newline translation are not modelled.
- The load-error path (lines 44-48: message and `sys.exit(1)`) is not
  modelled. The model starts from a decoded track.
- Progress output (tqdm, `print`, lines 53, 58, 65), the command-line entry
  point (lines 85-93) and the operating system's file handling behind
  `open`/`os.remove` are left out. The files are the two classes' states.
- SbvPath.SplitExt: POSIX `splitext` only. The Windows flavour, with '\\'
  and drive letters, is not modelled.
