/**
 * The capture buffer and the consumer step of main.py: recording appends raw
 * bytes to the shared buffer (lines 47-52); each step of the processing loop
 * (lines 104-149) takes the first `chunk_size` bytes once that many are
 * buffered, appends the stitched engine text to the transcript and slides the
 * buffer forward by `chunk_stride` bytes. At the end the transcript is saved as
 * its entries joined by a blank line (lines 163-164).
 */
module Transcriber {
  import opened Wrappers
  import Stitcher

  type byte = bv8

  const SampleRate: nat := 16000
  const ChunkDuration: nat := 30
  const OverlapDuration: nat := 0

  /**
   * `int(SAMPLE_RATE * CHUNK_DURATION)`: a number of frames, which the loop
   * compares against and slices by as a number of bytes.
   */
  const ChunkSize: nat := SampleRate * ChunkDuration

  /** `paInt16` mono audio: `stream.read(n)` returns two bytes for each of its `n` frames. */
  const BytesPerFrame: nat := 2

  /** `int(SAMPLE_RATE * (CHUNK_DURATION - OVERLAP_DURATION))`. */
  const ChunkStride: nat := SampleRate * (ChunkDuration - OverlapDuration)

  /** The separator placed between entries in the saved transcript. */
  const EntrySeparator: string := "\n\n"

  /** Python's `b[n:]`: the bytes after the first `n`, or nothing when there are fewer than `n`. */
  function DropFront(b: seq<byte>, n: nat): seq<byte>
  {
    if n <= |b| then b[n..] else []
  }

  /** The concatenation of the blocks read, in order. */
  function Concat(blocks: seq<seq<byte>>): seq<byte>
  {
    if blocks == [] then [] else blocks[0] + Concat(blocks[1..])
  }

  /** Reading one more block extends the concatenation by exactly that block. */
  lemma {:induction false} ConcatSnoc(blocks: seq<seq<byte>>, b: seq<byte>)
    ensures Concat(blocks + [b]) == Concat(blocks) + b
  {
    if blocks == [] {
      assert [] + [b] == [b];
    } else {
      assert (blocks + [b])[1..] == blocks[1..] + [b];
      ConcatSnoc(blocks[1..], b);
    }
  }

  /** `sep.join(parts)`. */
  function Join(parts: seq<string>, sep: string): string
  {
    if parts == [] then ""
    else if |parts| == 1 then parts[0]
    else parts[0] + sep + Join(parts[1..], sep)
  }

  /** Appending an entry to a non-empty transcript appends the separator and the entry to its saved form. */
  lemma {:induction false} JoinSnoc(parts: seq<string>, sep: string, x: string)
    ensures Join(parts + [x], sep) == if parts == [] then x else Join(parts, sep) + sep + x
  {
    if parts == [] {
      assert [] + [x] == [x];
    } else if |parts| == 1 {
      assert parts + [x] == [parts[0], x];
    } else {
      assert (parts + [x])[1..] == parts[1..] + [x];
      JoinSnoc(parts[1..], sep, x);
    }
  }

  /**
   * One transcription session. `buffer` is the shared capture buffer and
   * `transcript` the list of entries. The ghost `recorded` holds every byte ever
   * recorded and `dropped` how many of them the window has slid past, so the
   * buffer is always the not yet dropped tail of the recording; `texts` holds
   * the engine's text for each processed chunk, in order, so the transcript is
   * always those texts stitched one after the other.
   */
  class Session {
    var buffer: seq<byte>
    var transcript: seq<string>
    const chunkSize: nat
    const chunkStride: nat
    ghost var recorded: seq<byte>
    ghost var dropped: nat
    ghost var texts: seq<string>

    /** The buffer is what has been recorded minus what the window has slid past. */
    ghost predicate Buffered()
      reads this`buffer, this`recorded, this`dropped
    {
      dropped <= |recorded| && buffer == recorded[dropped..]
    }

    /** The transcript is the engine texts stitched in chunk order. */
    ghost predicate Stitched()
      reads this`transcript, this`texts
    {
      transcript == Stitcher.StitchAll(texts)
    }

    /** Both invariants of a session. */
    ghost predicate Valid()
      reads this
    {
      Buffered() && Stitched()
    }

    /** The text written to the transcript file at the end of the session. */
    function Saved(): string
      reads this`transcript
    {
      Join(transcript, EntrySeparator)
    }

    constructor (chunkSize: nat, chunkStride: nat)
      ensures Valid()
      ensures this.chunkSize == chunkSize && this.chunkStride == chunkStride
      ensures buffer == [] && transcript == [] && recorded == [] && dropped == 0 && texts == []
    {
      this.chunkSize := chunkSize;
      this.chunkStride := chunkStride;
      buffer := [];
      transcript := [];
      recorded := [];
      dropped := 0;
      texts := [];
    }

    /**
     * `audio_buffer.extend(data)`: the block is appended behind the buffered
     * bytes; the transcript is not touched, so `Valid()` is kept as well.
     */
    method Record(data: seq<byte>)
      requires Buffered()
      modifies this
      ensures Buffered()
      ensures buffer == old(buffer) + data
      ensures recorded == old(recorded) + data && dropped == old(dropped)
      ensures transcript == old(transcript) && texts == old(texts)
    {
      buffer := buffer + data;
      recorded := recorded + data;
    }

    /**
     * `record_audio_loop`: reads blocks until the stop flag is raised; `blocks`
     * are the blocks the stream returned before that, in order.
     */
    method RecordLoop(blocks: seq<seq<byte>>)
      requires Buffered()
      modifies this
      ensures Buffered()
      ensures buffer == old(buffer) + Concat(blocks)
      ensures recorded == old(recorded) + Concat(blocks) && dropped == old(dropped)
      ensures transcript == old(transcript) && texts == old(texts)
    {
      var i := 0;
      while i < |blocks|
        invariant 0 <= i <= |blocks|
        invariant Buffered()
        invariant recorded == old(recorded) + Concat(blocks[..i]) && dropped == old(dropped)
        invariant transcript == old(transcript) && texts == old(texts)
      {
        ConcatSnoc(blocks[..i], blocks[i]);
        assert blocks[..i + 1] == blocks[..i] + [blocks[i]];
        Record(blocks[i]);
        i := i + 1;
      }
      assert blocks[..i] == blocks;
      assert (old(recorded) + Concat(blocks))[dropped..] == old(recorded)[dropped..] + Concat(blocks);
    }

    /**
     * `transcript.append(text)` after the text step: the engine's text for the
     * chunk is stitched against the transcript so far and appended, even when
     * the result is empty.
     */
    method AppendEntry(engineText: string)
      requires Stitched()
      modifies this`transcript, this`texts
      ensures Stitched()
      ensures texts == old(texts) + [engineText]
      ensures transcript == old(transcript) + [Stitcher.Stitch(old(transcript), engineText)]
      ensures var e := transcript[|transcript| - 1];
        Saved() == if old(transcript) == [] then e else old(Saved()) + EntrySeparator + e
    {
      var text := Stitcher.Stitch(transcript, engineText);
      Stitcher.FoldSnoc(Stitcher.Stitch, texts, engineText);
      JoinSnoc(transcript, EntrySeparator, text);
      transcript := transcript + [text];
      texts := texts + [engineText];
    }

    /**
     * `audio_buffer = audio_buffer[chunk_stride:]`: the window slides forward by
     * `chunkStride` bytes, or past everything when fewer are buffered.
     */
    method Slide()
      requires Buffered()
      modifies this`buffer, this`dropped
      ensures Buffered()
      ensures buffer == DropFront(old(buffer), chunkStride)
      ensures dropped == old(dropped) + (if chunkStride <= old(|buffer|) then chunkStride else old(|buffer|))
    {
      if chunkStride <= |buffer| {
        dropped := dropped + chunkStride;
      } else {
        dropped := dropped + |buffer|;
      }
      buffer := DropFront(buffer, chunkStride);
    }

    /**
     * One pass of the processing loop. With at least `chunkSize` bytes buffered,
     * the first `chunkSize` bytes are taken as the chunk, the engine's text for it
     * is stitched against the transcript and appended (even when empty), and the
     * window slides forward by `chunkStride` bytes. Otherwise nothing changes
     * (the loop sleeps).
     */
    method Step(engineText: string) returns (chunk: Option<seq<byte>>)
      requires Valid()
      modifies this
      ensures Valid()
      ensures recorded == old(recorded)
      ensures old(|buffer|) >= chunkSize ==>
        && chunk == Some(old(buffer)[..chunkSize])
        && chunk.value == recorded[old(dropped)..old(dropped) + chunkSize]
        && texts == old(texts) + [engineText]
        && transcript == old(transcript) + [Stitcher.Stitch(old(transcript), engineText)]
        && buffer == DropFront(old(buffer), chunkStride)
        && dropped == old(dropped) + (if chunkStride <= old(|buffer|) then chunkStride else old(|buffer|))
      ensures old(|buffer|) < chunkSize ==>
        && chunk == None && buffer == old(buffer) && transcript == old(transcript)
        && dropped == old(dropped) && texts == old(texts)
    {
      if |buffer| >= chunkSize {
        assert buffer[..chunkSize] == recorded[dropped..dropped + chunkSize];
        chunk := Some(buffer[..chunkSize]);
        AppendEntry(engineText);
        Slide();
      } else {
        chunk := None;
      }
    }
  }
}
