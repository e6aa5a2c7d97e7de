# AudioGetter ring buffer and capture/export path, in Dafny

AudioGetter captures the audio a Mac renders, keeps it in a ring buffer and
writes the buffered audio to `audio_staged.wav` when the user presses a hotkey.
This project models the part of it that handles the data:

- `ring_buffer.dfy`, module `RingBuffers`: the `RingBuffer` class of
  `AudioGetter/GlobalVars.h`. It is a fixed-capacity array of samples with a
  write cursor and a read cursor, both wrapping modulo the capacity.
  - `Write` and `Read` both take a size in bytes. Each stores or copies
    `size / 4` samples and moves its own cursor one slot per sample.
  - `Write` never refuses data and overwrites whatever is in its way.
  - `Read` never consults the write cursor.
  - What the storage holds after a write is given by the function
    `Overwrite`, and what a read returns by `ReadWindow`. Both methods are
    proved against these functions with loop invariants. The lemmas state the
    properties of the two functions: which slot receives which sample, which
    slots keep their samples, that an overrun keeps the most recent
    `capacity` samples, that writes and reads compose, and the write-then-read
    round trip.
- `audio_getter.dfy`, module `AudioGetter`: the sequential logic of
  `AudioGetter/main.cpp` around the ring.
  - The global stream format that `setupGlobalStreamFormat` fills in.
  - The render-notify callback `MyAURenderCallback`: when it forwards a block
    to the ring, when it drops it, and how many samples it writes.
  - The export routine `writeRingBufferToFile`. The file open and the frame
    writer are function parameters. The routine reacts to their results, and
    the outcome it logs is returned as an `ExportOutcome`.

The model follows the code as written. In particular:

- The export passes the window's entry count (882000) where `read` expects a
  byte count. So only 882000 / 4 = 220500 samples are copied from the read
  cursor on, and the other 661500 entries of the window stay zero.
  `ExportWindow` and `ExportCopiesQuarter` state exactly this.
- The export reads from the free-running read cursor, not from the most recent
  samples behind the write cursor. It can therefore return stale samples, or
  zeros that were never written.
- There is no window-size validation and no "most recent window" read. The
  code has neither, so neither is modelled.

Samples are 32-bit floats in the program. Here they are `int`, because they
are only copied and never computed on. The sample rate is the integer 44100.

## Model

| member | source | states |
|---|---|---|
| `RingBuffers.RingBuffer.constructor` | AudioGetter/GlobalVars.h:13 | a ring of the given positive capacity; every slot is 0 and both cursors are at slot 0 |
| `RingBuffers.RingBuffer.Write` | AudioGetter/GlobalVars.h:15-22 | stores exactly the first `size / 4` samples of the input; the storage becomes `Overwrite(old storage, old writePos, those samples)`; `writePos` becomes `(old writePos + size / 4) mod capacity` and stays below the capacity; `readPos` is unchanged |
| `RingBuffers.RingBuffer.Read` | AudioGetter/GlobalVars.h:27-35 | `out[i]` becomes `storage[(readPos + i) mod capacity]` for every `i < size / 4`; the rest of `out` is unchanged; `readPos` becomes `(old readPos + size / 4) mod capacity`; the storage and `writePos` are unchanged |
| `RingBuffers.Overwrite` | AudioGetter/GlobalVars.h:19-22 | a write never changes the number of slots; what each slot holds is stated by the lemmas that follow |
| `RingBuffers.OverwriteOne` | AudioGetter/GlobalVars.h:20-21 | writing one sample changes exactly the slot under the write cursor |
| `RingBuffers.OverwriteStep` | AudioGetter/GlobalVars.h:19-22 | one iteration of the write loop: appending a sample to a write sets slot `(w + n) mod capacity` and nothing else |
| `RingBuffers.OverwriteCompose` | AudioGetter/GlobalVars.h:19-22 | two writes, the second starting at the cursor the first left, leave the same storage as one write of both blocks, so successive callback blocks accumulate as one stream |
| `RingBuffers.WriteLoop` | AudioGetter/GlobalVars.h:19-22 | the loop of `write` taken sample by sample (store under the cursor, advance it modulo the capacity); the storage keeps its number of slots |
| `RingBuffers.WriteLoopIsOverwrite` | AudioGetter/GlobalVars.h:19-22 | the sample-by-sample loop and the closed form `Overwrite` leave the same storage for every start cursor and every input |
| `RingBuffers.LastWriteWins` | AudioGetter/GlobalVars.h:19-22 | sample `i` of a write is found in slot `(w + i) mod capacity` whenever no later sample of that write lands on the same slot (`k <= i + capacity`) |
| `RingBuffers.UntouchedSlot` | AudioGetter/GlobalVars.h:19-22 | a slot whose offset from the write start, `(j - w) mod capacity`, is at least `k` keeps its old sample |
| `RingBuffers.WriteWithinCapacity` | AudioGetter/GlobalVars.h:19-22 | for `k <= capacity`: slot `(w + i) mod capacity` holds `data[i]` for every `i < k`, and every other slot is unchanged |
| `RingBuffers.KeepsMostRecent` | AudioGetter/GlobalVars.h:19-22 | for `k >= capacity`: reading one full turn from the new write cursor gives the last `capacity` input samples, oldest first |
| `RingBuffers.OverrunForgetsOld` | AudioGetter/GlobalVars.h:19-22 | for `k >= capacity`: the storage after the write does not depend on what it held before |
| `RingBuffers.ReadWindow` | AudioGetter/GlobalVars.h:31-34 | a read of `k` samples returns exactly `k` samples |
| `RingBuffers.ReadCompose` | AudioGetter/GlobalVars.h:31-34 | two consecutive reads return the same samples as one read of their combined length |
| `RingBuffers.ReadCursorCycles` | AudioGetter/GlobalVars.h:33 | reading a whole number of turns of the ring returns `readPos` to its starting slot |
| `RingBuffers.ReadFullTurn` | AudioGetter/GlobalVars.h:31-34 | reading exactly `capacity` samples returns the storage rotated to start at `readPos` |
| `RingBuffers.WriteThenRead` | AudioGetter/GlobalVars.h:15-35 | round trip: if `readPos == writePos` and `k <= capacity`, reading `k` samples right after writing `k` samples returns exactly the written samples |
| `AudioGetter.StreamDescription.constructor` | AudioGetter/main.cpp:44 | the global format struct starts with every field zero |
| `AudioGetter.SetupGlobalStreamFormat` | AudioGetter/main.cpp:32-41 | the format becomes 44100 Hz, linear PCM, float and packed, 32 bits, 2 channels, 1 frame per packet; `mBytesPerFrame = (32 / 8) * 2 = 8`; `mBytesPerPacket = mBytesPerFrame * 1 = 8`; a frame is one 4-byte sample per channel |
| `AudioGetter.CallbackWriteSize` | AudioGetter/main.cpp:125-135 | the byte count the callback passes makes `Write` store exactly `mDataByteSize / 4` samples; it is a whole number of samples, and less than 4 bytes of the block are dropped |
| `AudioGetter.RenderNotify` | AudioGetter/main.cpp:111-141 | when the PostRender flag is set, there is at least one buffer, and buffer 0's data is non-null, the ring receives exactly that buffer's `mDataByteSize / 4` samples from the write cursor on; otherwise the storage and both cursors are unchanged; the read cursor never moves; the result is `noErr` on every path |
| `AudioGetter.ExportWindow` | AudioGetter/main.cpp:177-181 | the window handed to the encoder has as many entries as were allocated |
| `AudioGetter.WriteRingBufferToFile` | AudioGetter/main.cpp:162-198 | the file is opened with the stream's sample rate and channel count as a float WAV; if it fails to open, the outcome is `OpenFailed` and `readPos` is unchanged; otherwise the encoder receives `ExportWindow(storage, readPos, n)` with `n = rate * channels * 10`, and `n / channels` frames are requested; `readPos` advances by `n / 4` modulo the capacity; a count `<= 0` is `WriteFailed` and a positive count is `Wrote(count)`; the storage and `writePos` are unchanged |
| `AudioGetter.GlobalExportSizing` | AudioGetter/main.cpp:178-189 | with the global format, the window has 44100 * 2 * 10 = 882000 entries, which equals the ring capacity of main.cpp:43; the read copies 220500 samples; the encoder is asked for 441000 frames |
| `AudioGetter.ExportCopiesQuarter` | AudioGetter/main.cpp:178-181 | with the global format, entries 0..220499 of the window are the ring's samples from the read cursor on, and entries 220500..881999 are 0 |
| `AudioGetter.ForwardedBlockReachesExport` | AudioGetter/main.cpp:135-181 | if a block of at most 220500 samples is forwarded while the two cursors coincide, a following export's window starts with exactly that block |

## Left out

- Locking: the ring's `std::mutex`, `renderMutex` and the key-monitoring thread exist for concurrency. Every operation is modelled as sequential and atomic.
- Console output: the sample printing in the callback, the log line in `write`, the sample logging in the export, and `verifyBuffer`, which only prints.
- Device discovery and AudioUnit setup (`getDefaultOutputDevice`, `getBlackHoleDevice`, and the format comparison and unit init/start/stop in `main`). These are calls into CoreAudio.
- The CGEvent hotkey callback and the permission checks. They only decide when the export runs.
- libsndfile: opening the file and `writef` are function parameters of `WriteRingBufferToFile`. Their success and frame count are whatever those functions return.
- Floating point: samples are copied as opaque values, and `mSampleRate` is the integer 44100.
- AudioGetter/FunctionsAndVars.h holds only forward declarations.
- Global state: `globalRingBuffer`, `globalStreamFormat` and the callback's context struct become explicit parameters. The context's audio unit and format copy are not used by the callback and are not modelled.
- Integer widths: `size_t` and `UInt32` are unbounded here. Both cursors stay below the capacity, so the cursor arithmetic cannot wrap in the program either.
- RingBuffers.RingBuffer.constructor: requires a positive capacity. The program accepts 0, but any non-empty `write` or `read` would then take a remainder modulo zero. The only instance has capacity 882000.
- RingBuffers.RingBuffer.Read: requires that the output array is not the ring's own storage. The storage is private, so no caller can pass it.
- AudioGetter.WriteRingBufferToFile: requires a non-zero channel count, because the frame count divides by it. The program returns `void` and only logs its outcome, which the model returns as a value instead.
