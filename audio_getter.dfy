/**
 * The sequential logic of AudioGetter/main.cpp around the ring buffer: the
 * stream format set up at start-up, the render-notify callback that forwards
 * each rendered block to the ring, and the export routine that copies a
 * window out of the ring and hands it to the sound-file encoder.
 *
 * The encoder is not modelled: opening the file and writing frames are
 * function parameters whose results the routine reacts to.
 */
module AudioGetter {
  import opened RingBuffers

  datatype Option<T> = None | Some(value: T)

  /** kAudioFormatLinearPCM, the four-character code 'lpcm'. */
  const LinearPcm: nat := 0x6C70_636D
  /** kAudioFormatFlagIsFloat and kAudioFormatFlagIsPacked. */
  const FlagIsFloat: bv32 := 0x1
  const FlagIsPacked: bv32 := 0x8
  /** kAudioUnitRenderAction_PostRender. */
  const PostRender: bv32 := 0x8
  /** noErr. */
  const NoErr: int := 0
  /** libsndfile's SF_FORMAT_WAV and SF_FORMAT_FLOAT. */
  const SfFormatWav: bv32 := 0x1_0000
  const SfFormatFloat: bv32 := 0x0006

  /** Capacity of the process-wide ring buffer (main.cpp:43). */
  const RingCapacity: nat := 882000
  /** Length of the exported window in seconds. */
  const ExportSeconds: nat := 10

  // ---------------------------------------------------------------------------
  // Stream format
  // ---------------------------------------------------------------------------

  /** The fields of the global AudioStreamBasicDescription that the program sets. */
  class StreamDescription {
    var sampleRate: nat
    var formatId: nat
    var formatFlags: bv32
    var bitsPerChannel: nat
    var channelsPerFrame: nat
    var framesPerPacket: nat
    var bytesPerFrame: nat
    var bytesPerPacket: nat

    /** A global struct starts zero-initialised. */
    constructor ()
      ensures sampleRate == 0 && formatId == 0 && formatFlags == 0 && bitsPerChannel == 0
      ensures channelsPerFrame == 0 && framesPerPacket == 0 && bytesPerFrame == 0 && bytesPerPacket == 0
    {
      sampleRate, formatId, formatFlags, bitsPerChannel := 0, 0, 0, 0;
      channelsPerFrame, framesPerPacket, bytesPerFrame, bytesPerPacket := 0, 0, 0, 0;
    }
  }

  /** The format `SetupGlobalStreamFormat` leaves behind: 44.1 kHz stereo packed 32-bit float. */
  ghost predicate IsGlobalStreamFormat(f: StreamDescription)
    reads f
  {
    && f.sampleRate == 44100
    && f.formatId == LinearPcm
    && f.formatFlags == FlagIsFloat | FlagIsPacked
    && f.bitsPerChannel == 32
    && f.channelsPerFrame == 2
    && f.framesPerPacket == 1
    && f.bytesPerFrame == 8
    && f.bytesPerPacket == 8
  }

  /**
   * Fills in the global stream format; the frame and packet sizes are
   * derived from the bit depth, channel count and frames per packet.
   */
  method SetupGlobalStreamFormat(format: StreamDescription)
    modifies format
    ensures IsGlobalStreamFormat(format)
    ensures format.bytesPerFrame == (format.bitsPerChannel / 8) * format.channelsPerFrame
    ensures format.bytesPerPacket == format.bytesPerFrame * format.framesPerPacket
    ensures format.bytesPerFrame == SampleBytes * format.channelsPerFrame
  {
    format.sampleRate := 44100;
    format.formatId := LinearPcm;
    format.formatFlags := FlagIsFloat | FlagIsPacked;
    format.bitsPerChannel := 32;
    format.channelsPerFrame := 2;
    format.framesPerPacket := 1;
    format.bytesPerFrame := (format.bitsPerChannel / 8) * format.channelsPerFrame;
    format.bytesPerPacket := format.bytesPerFrame * format.framesPerPacket;
  }

  // ---------------------------------------------------------------------------
  // Render-notify callback
  // ---------------------------------------------------------------------------

  /** One AudioBuffer: its byte size and its data pointer (None for null). */
  datatype AudioBuffer = AudioBuffer(numberChannels: nat, dataByteSize: nat, data: Option<seq<Sample>>)

  /** An AudioBufferList; mNumberBuffers is the number of buffers. */
  datatype AudioBufferList = AudioBufferList(buffers: seq<AudioBuffer>)

  /** The audio unit's promise: a non-null data pointer holds at least mDataByteSize bytes of samples. */
  predicate WellFormed(io: AudioBufferList)
  {
    forall b :: b in io.buffers && b.data.Some? ==> SamplesIn(b.dataByteSize) <= |b.data.value|
  }

  /** The callback forwards a block only after rendering, and only if there is a first buffer with data. */
  predicate Forwards(actionFlags: bv32, io: AudioBufferList)
  {
    actionFlags & PostRender != 0 && |io.buffers| > 0 && io.buffers[0].data.Some?
  }

  /**
   * The byte count the callback passes to the ring: its sample count times
   * sizeof(float).  The ring divides by sizeof(float) again, so it stores
   * exactly the whole samples in the block; a trailing partial sample is dropped.
   */
  function CallbackWriteSize(dataByteSize: nat): (size: nat)
    ensures SamplesIn(size) == SamplesIn(dataByteSize)
    ensures size <= dataByteSize && size % SampleBytes == 0
    ensures dataByteSize - size < SampleBytes
  {
    (dataByteSize / SampleBytes) * SampleBytes
  }

  /**
   * MyAURenderCallback: on a post-render notification with a usable first
   * buffer, writes that buffer's whole samples into the ring; otherwise the
   * ring is left alone.  It reports noErr either way and never moves the read
   * cursor.
   */
  method RenderNotify(ring: RingBuffer, actionFlags: bv32, io: AudioBufferList) returns (status: int)
    requires ring.Valid() && WellFormed(io)
    modifies ring`writePos, ring.buffer
    ensures ring.Valid()
    ensures status == NoErr
    ensures ring.readPos == old(ring.readPos)
    ensures Forwards(actionFlags, io) ==>
      var b := io.buffers[0];
      && ring.buffer[..] == Overwrite(old(ring.buffer[..]), old(ring.writePos), b.data.value[..SamplesIn(b.dataByteSize)])
      && ring.writePos == (old(ring.writePos) + SamplesIn(b.dataByteSize)) % ring.buffer.Length
    ensures !Forwards(actionFlags, io) ==>
      ring.buffer[..] == old(ring.buffer[..]) && ring.writePos == old(ring.writePos)
  {
    if actionFlags & PostRender != 0 {
      if |io.buffers| > 0 && io.buffers[0].data.Some? {
        var b := io.buffers[0];
        assert b in io.buffers;
        ring.Write(b.data.value, CallbackWriteSize(b.dataByteSize));
      }
    }
    status := NoErr;
  }

  // ---------------------------------------------------------------------------
  // Export to a sound file
  // ---------------------------------------------------------------------------

  /** The SF_INFO the export opens the file with. */
  datatype FileInfo = FileInfo(sampleRate: nat, channels: nat, format: bv32)

  /** What the export ends with (the program only logs it). */
  datatype ExportOutcome = OpenFailed | WriteFailed(count: int) | Wrote(frames: int)

  /** Entries of the export window: ten seconds of interleaved samples. */
  function ExportWindowLength(sampleRate: nat, channels: nat): nat
  {
    sampleRate * channels * ExportSeconds
  }

  /**
   * The window handed to the encoder.  The routine passes the window's
   * ENTRY count n where the ring's read expects a byte count, so only n / 4
   * samples are copied from the read cursor on; the rest stay zero.
   */
  function ExportWindow(s: seq<Sample>, r: nat, n: nat): (window: seq<Sample>)
    requires r < |s|
    ensures |window| == n
  {
    ReadWindow(s, r, SamplesIn(n)) + seq(n - SamplesIn(n), _ => 0)
  }

  /**
   * writeRingBufferToFile: opens the file with the stream's rate and channel
   * count; on failure stops before touching the ring.  Otherwise reads the
   * window from the ring, asks the encoder to write n / channels frames of it
   * and reports a positive frame count as success, anything else as failure.
   */
  method WriteRingBufferToFile(ring: RingBuffer, format: StreamDescription,
                               open: FileInfo -> bool, writef: (seq<Sample>, nat) -> int)
    returns (outcome: ExportOutcome)
    requires ring.Valid() && format.channelsPerFrame > 0
    modifies ring`readPos
    ensures ring.Valid()
    ensures var info := FileInfo(format.sampleRate, format.channelsPerFrame, SfFormatWav | SfFormatFloat);
      !open(info) ==> outcome == OpenFailed && ring.readPos == old(ring.readPos)
    ensures var info := FileInfo(format.sampleRate, format.channelsPerFrame, SfFormatWav | SfFormatFloat);
      open(info) ==>
        var n := ExportWindowLength(format.sampleRate, format.channelsPerFrame);
        var count := writef(ExportWindow(old(ring.buffer[..]), old(ring.readPos), n), n / format.channelsPerFrame);
        && ring.readPos == (old(ring.readPos) + SamplesIn(n)) % ring.buffer.Length
        && outcome == (if count <= 0 then WriteFailed(count) else Wrote(count))
    ensures ring.buffer[..] == old(ring.buffer[..]) && ring.writePos == old(ring.writePos)
  {
    var info := FileInfo(format.sampleRate, format.channelsPerFrame, SfFormatWav | SfFormatFloat);
    if !open(info) {
      return OpenFailed;
    }
    var n := format.sampleRate * format.channelsPerFrame * ExportSeconds;
    var window := new Sample[n](_ => 0);
    assert window[SamplesIn(n)..] == seq(n - SamplesIn(n), _ => 0);
    ring.Read(window, n);
    assert window[..] == window[..SamplesIn(n)] + window[SamplesIn(n)..];
    assert window[..] == ExportWindow(old(ring.buffer[..]), old(ring.readPos), n);
    var count := writef(window[..], n / format.channelsPerFrame);
    if count <= 0 {
      outcome := WriteFailed(count);
    } else {
      outcome := Wrote(count);
    }
  }

  /**
   * With the global format, the export window has 882000 entries, exactly the
   * ring's capacity; the read copies 220500 of them and the encoder is asked
   * for 441000 frames.
   */
  lemma GlobalExportSizing(format: StreamDescription)
    requires IsGlobalStreamFormat(format)
    ensures ExportWindowLength(format.sampleRate, format.channelsPerFrame) == RingCapacity
    ensures SamplesIn(RingCapacity) == 220500
    ensures RingCapacity / format.channelsPerFrame == 441000
  {
  }

  /**
   * Layout of the exported window for the global format: entries 0..220499
   * are the ring's samples from the read cursor on, entries 220500..881999
   * are zero, and the read cursor ends 220500 slots further on.
   */
  lemma ExportCopiesQuarter(s: seq<Sample>, r: nat)
    requires |s| == RingCapacity && r < |s|
    ensures var window := ExportWindow(s, r, RingCapacity);
      && (forall i :: 0 <= i < 220500 ==> window[i] == s[(r + i) % |s|])
      && (forall i :: 220500 <= i < RingCapacity ==> window[i] == 0)
  {
    var window := ExportWindow(s, r, RingCapacity);
    forall i | 0 <= i < 220500
      ensures window[i] == s[(r + i) % |s|]
    {
      assert window[i] == ReadWindow(s, r, 220500)[i];
    }
  }

  /**
   * A block the callback forwards while the two cursors coincide is what a
   * following export finds at the start of its window, as long as the block
   * fits in the quarter of the window the export actually copies.
   */
  lemma ForwardedBlockReachesExport(s: seq<Sample>, w: nat, block: seq<Sample>)
    requires |s| == RingCapacity && w < |s|
    requires |block| <= SamplesIn(RingCapacity)
    ensures ExportWindow(Overwrite(s, w, block), w, RingCapacity)[..|block|] == block
  {
    var t := Overwrite(s, w, block);
    var k := |block|;
    ReadCompose(t, w, k, SamplesIn(RingCapacity) - k);
    WriteThenRead(s, w, block);
    assert ExportWindow(t, w, RingCapacity)[..k] == ReadWindow(t, w, SamplesIn(RingCapacity))[..k];
  }
}
