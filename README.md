# live-transcriber, modelled in Dafny

The live transcriber records audio from an input device, picking a Focusrite
interface when one is present. A recording thread appends the raw bytes to a
shared buffer. The main loop takes a fixed-size window off the front of that
buffer, has a speech engine transcribe it, tidies the returned text and appends
it to a transcript. Before appending, it removes any repeat of the previous
entry's tail. The window then slides forward. When the session stops, the
transcript is written out as its entries separated by blank lines.

This project models the logic of `main.py` around those steps:

- `pystr.dfy` (module `PyStr`): the Python string built-ins the code relies on.
  These are `strip`, `lstrip`, `rstrip`, `lower`, `upper` of one character,
  `startswith` (the sequence prefix `<=`) and the substring test `in`.
  Whitespace is exactly the set `str.isspace()` accepts.
- `stitcher.dfy` (module `Stitcher`): the text step of the loop as pure
  functions. `Normalize` trims, capitalises and punctuates. `Probe` takes the
  last at most 30 characters of the previous entry. `Cut` removes that probe.
  `Stitch` composes them. `StitchAll` gives the transcript of a whole session:
  the engine texts, stitched one after the other. Lemmas state the guarantees of
  each piece, and worked examples pin down concrete outputs.
- `session.dfy` (module `Transcriber`): the `Session` class.
  - It holds the byte buffer and the transcript.
  - `Record` and `RecordLoop` are the recording side.
  - `Step` is one pass of the processing loop. It is built from `AppendEntry`
    and `Slide`.
  - `Saved` is the text written at the end.
  - Ghost state (`recorded`, `dropped`, `texts`) lets the invariant say that
    the buffer is the not-yet-consumed tail of everything recorded. It also
    says that the transcript is `StitchAll` of the engine texts seen so far.
- `devices.dfy` (module `Devices`): the device search, as a loop with an early
  return.

The engine's text is a parameter of `Step`. Recording and stepping are separate
atomic methods.

Where the code's behaviour is easy to misread, the model follows the code:

- An entry that is empty after stitching is still appended (`main.py:144`).
- After a cut, the rest of the text is left-stripped but not re-capitalised.
- The probe is taken from the previous entry as stored, and that entry already
  carries the `.` the loop added. So a new text that repeats the previous
  words without the full stop is not cut. `ExampleOverlapMissed` shows this,
  and `ExampleOverlapCut` shows a case that is cut.
- `chunk_size` counts frames (`SAMPLE_RATE * CHUNK_DURATION`), but the loop
  compares and slices the buffer with it as a number of bytes. Each
  `stream.read` of 16-bit mono audio delivers two bytes per frame. The model
  keeps `chunkSize` and `chunkStride` as plain byte counts, as the code uses
  them.
- `audio_buffer[chunk_stride:]` on a buffer shorter than the stride yields an
  empty buffer (`DropFront`). No precondition excludes that case.

## Model

| member | source | states |
|---|---|---|
| PyStr.Lower | main.py:133 | `lower()` keeps the length and lower-cases every character |
| PyStr.LStrip | main.py:140 | `lstrip()` returns a suffix; everything it drops is whitespace, and the result does not start with whitespace |
| PyStr.RStrip | main.py:125 | `rstrip()` returns a prefix; everything it drops is whitespace, and the result does not end with whitespace |
| PyStr.Strip | main.py:125 | `strip()` is empty exactly when the text is all whitespace; otherwise it neither starts nor ends with whitespace |
| PyStr.StripIsSlice | main.py:125 | `strip()` is a contiguous slice of the text with only whitespace on either side |
| PyStr.ContainsAt | main.py:40 | an occurrence of the keyword at any offset makes `keyword in name` true |
| PyStr.ContainsOffset | main.py:40 | conversely, `keyword in name` means the keyword occurs at some offset |
| Stitcher.NormalizeCapitalizes | main.py:125-128 | for non-blank text, the first trimmed character is upper-cased and the rest of the trimmed text is kept |
| Stitcher.NormalizeEmpty | main.py:125-130 | the normalised text is empty exactly when the engine's text is empty or whitespace only |
| Stitcher.NormalizeTerminal | main.py:129-130 | non-empty normalised text ends in `.`, `!` or `?` |
| Stitcher.NormalizePunctuates | main.py:129-130 | a single `.` is added exactly when the trimmed text does not already end in a terminal mark; otherwise the capitalised text is untouched |
| Stitcher.CapitalizeKeepsMarks | main.py:127-128 | capitalising keeps the length and never creates or removes a terminal mark |
| Stitcher.NormalizeIdempotent | main.py:125-130 | normalising normalised text changes nothing |
| Stitcher.ProbeShape | main.py:132-137 | the probe is the tail of the previous entry after `strip().lower()`, exactly `min(30, len)` long, and empty only with no previous entry or a blank one |
| Stitcher.CutIsSuffix | main.py:139-140 | a cut keeps a suffix of the text, never longer than it |
| Stitcher.CutOverlap | main.py:139-140 | when `t.lower()` starts with the probe, the cut head is the probe (ignoring case) plus whitespace only, and the rest is `t[len(p):].lstrip()` |
| Stitcher.OverlapsIff | main.py:132-139 | a cut happens exactly when there is a previous entry, it is non-blank after trimming, and the lower-cased text starts with the probe |
| Stitcher.StitchOverlap | main.py:132-140 | in the cut case the entry is `text[len(probe):].lstrip()`, the probe is 1 to 30 characters, and what is removed is the probe (ignoring case) followed by whitespace |
| Stitcher.StitchNoOverlap | main.py:132-140 | in every other case the entry is the normalised text |
| Stitcher.StitchFirstChunk | main.py:132 | with an empty transcript the entry is only normalised |
| Stitcher.StitchIsSuffix | main.py:125-140 | the entry is a suffix of the normalised text, no longer than it |
| Stitcher.StitchBlank | main.py:125-130 | blank engine text yields the empty entry |
| Stitcher.StitchTerminal | main.py:125-140 | every non-empty entry ends in `.`, `!` or `?` |
| Stitcher.ProbeEndsTerminal | main.py:133-137 | the probe of an entry ending in a terminal mark ends in that mark |
| Stitcher.CutAtSoleMark | main.py:139-140 | a probe ending in a terminal mark either removes all of a text whose only mark is its final `.`, or none of it |
| Stitcher.NoMarkAfterCapitalize | main.py:125-128 | trimming and capitalising add no terminal mark |
| Stitcher.UnmarkedTextNotPartlyCut | main.py:125-140 | engine text without `.`, `!`, `?`, stitched after a punctuated entry, is kept whole or dropped entirely, never partly cut |
| Stitcher.Fold | main.py:144 | the loop appends exactly one entry per processed chunk |
| Stitcher.FoldSnoc | main.py:144 | one more chunk appends one entry, computed from the entries so far |
| Stitcher.FoldPrefix | main.py:144 | earlier entries are never revised: the transcript after `k` chunks is a prefix of the later transcript |
| Stitcher.StitchAllEntry | main.py:125-144 | the `k`-th entry is the `k`-th engine text stitched against the entries before it |
| Stitcher.StitchAllPunctuated | main.py:125-144 | every non-empty entry of a session's transcript ends in a terminal mark |
| Stitcher.NormalizeTrimmed | main.py:125-130 | already-trimmed text without a terminal mark becomes its upper-cased first character, the rest, and `.` |
| Stitcher.NormalizedHiThere | main.py:125-130 | `"hi there"` normalises to `"Hi there."` |
| Stitcher.NormalizedHiYo | main.py:125-130 | `"hi. yo"` normalises to `"Hi. yo."` |
| Stitcher.NormalizedHiYoUnstopped | main.py:125-130 | `"hi yo"` normalises to `"Hi yo."` |
| Stitcher.ProbeOfHi | main.py:133-137 | after the entry `"Hi."` the probe is `"hi."`, full stop included |
| Stitcher.ExampleFirstChunk | main.py:125-144 | the first chunk's `"hi there"` becomes the entry `"Hi there."` |
| Stitcher.ExampleOverlapCut | main.py:125-140 | after `"Hi."`, the text `"hi. yo"` becomes `"yo."`, lower case kept |
| Stitcher.ExampleOverlapMissed | main.py:125-140 | after `"Hi."`, the text `"hi yo"` is not cut (the probe needs the full stop) and becomes `"Hi yo."` |
| Transcriber.ConcatSnoc | main.py:50-52 | reading one more block extends the concatenation of blocks by exactly that block |
| Transcriber.JoinSnoc | main.py:164 | appending an entry adds the separator and the entry to the saved text (just the entry when it is the first) |
| Transcriber.Session.constructor | main.py:101-102 | a session starts with an empty buffer and an empty transcript, and the invariant holds |
| Transcriber.Session.Record | main.py:52 | `extend`: the new buffer is the old buffer followed by the block; the transcript is untouched |
| Transcriber.Session.RecordLoop | main.py:50-52 | after the loop, the buffer is the old buffer followed by every block read, in order |
| Transcriber.Session.AppendEntry | main.py:144 | exactly one entry, the stitched text, is appended even when empty; earlier entries are unchanged, the transcript stays `StitchAll` of the engine texts, and the text saved at the end gains a blank line and the entry (just the entry when it is the first) |
| Transcriber.Session.Slide | main.py:147 | the buffer loses its first `chunkStride` bytes, or all of them when fewer are buffered |
| Transcriber.Session.Step | main.py:104-149 | with at least `chunkSize` bytes buffered, the chunk is the first `chunkSize` bytes (the next unconsumed part of the recording), one stitched entry is appended and the buffer slides; otherwise nothing changes |
| Devices.DetectDevice | main.py:38-44 | returns the smallest index whose lower-cased name contains the lower-cased keyword and that has an input channel, and `None` exactly when no device qualifies |

## Left out

- Speech recognition (`whisper.load_model`, `model.transcribe`) is foreign code. Its text is a parameter of `Step`.
- PyAudio stream set-up, reads, stop, close and terminate are device I/O. `RecordLoop` takes the blocks the stream returned as a parameter.
- WAV writing of each chunk, removing the temporary file and writing the transcript file are file I/O. Only the written text (`Saved`, `JoinSnoc`) is modelled.
- The recording thread, the spinner thread, `time.sleep`, the stop flag and `KeyboardInterrupt` are concurrency and control flow around the steps. Recording and stepping are separate atomic methods, so the unsynchronised `extend` against the slice-and-reassign of the shared buffer (a race that can lose recorded bytes) is not modelled.
- The `input()` prompt, `print` output, `datetime` timestamps and torch device detection are environment and console I/O.
- PyStr.Lower: only ASCII letters are case-mapped. Python's full Unicode `lower()` can change a string's length, which would make `text[len(overlap):]` cut at a different place.
- PyStr.ToUpper: only ASCII letters are case-mapped, for the same reason. Python's `upper()` of one character can yield several.
