/**
 * The fixed-capacity circular store of audio samples declared in
 * AudioGetter/GlobalVars.h: one array of samples and two independent
 * cursors.  `Write` overwrites from the write cursor and never refuses data;
 * `Read` copies out from the read cursor and never looks at the write cursor.
 *
 * The buffer contents are specified by two functions on sequences:
 * `Overwrite` (what the storage holds after a write) and `ReadWindow` (what a
 * read returns).  The lemmas below state what the source promises about them.
 */
module RingBuffers {

  /** A 32-bit float in the source; samples are only copied, never computed on. */
  type Sample = int

  /** sizeof(float): both operations take a size in BYTES and divide it by this. */
  const SampleBytes: nat := 4

  /** Number of whole samples in `size` bytes; trailing bytes are ignored. */
  function SamplesIn(size: nat): nat
  {
    size / SampleBytes
  }

  // ---------------------------------------------------------------------------
  // Arithmetic helpers on Euclidean remainder
  // ---------------------------------------------------------------------------

  lemma {:induction false} MulAtLeast(a: int, c: int)
    requires a >= 1 && c > 0
    ensures a * c >= c
  {
    if a > 1 {
      MulAtLeast(a - 1, c);
      assert a * c == (a - 1) * c + c;
    }
  }

  /** The remainder is the unique r in [0, c) that differs from x by a multiple of c. */
  lemma ModUnique(x: int, q: int, r: int, c: int)
    requires c > 0 && 0 <= r < c && x == q * c + r
    ensures x % c == r
  {
    var q0, r0 := x / c, x % c;
    assert x == q0 * c + r0;
    assert (q - q0) * c == r0 - r;
    if q > q0 {
      MulAtLeast(q - q0, c);
    } else if q < q0 {
      MulAtLeast(q0 - q, c);
    }
  }

  lemma ModSmall(x: int, c: int)
    requires 0 <= x < c
    ensures x % c == x
  {
    ModUnique(x, 0, x, c);
  }

  lemma ModAddTurn(y: int, c: int)
    requires c > 0
    ensures (y + c) % c == y % c
  {
    assert y == (y / c) * c + y % c;
    ModUnique(y + c, y / c + 1, y % c, c);
  }

  lemma ModAddLeft(x: int, y: int, c: int)
    requires c > 0
    ensures (x % c + y) % c == (x + y) % c
  {
    var t := (x % c + y) % c;
    var q2 := (x % c + y) / c;
    assert x % c + y == q2 * c + t;
    assert x == (x / c) * c + x % c;
    assert x + y == (x / c + q2) * c + t;
    ModUnique(x + y, x / c + q2, t, c);
  }

  /** z - z % c is a multiple of c, so adding r in [0, c) to it leaves remainder r. */
  lemma ModDropRem(z: int, r: int, c: int)
    requires 0 <= r < c
    ensures (z - z % c + r) % c == r
  {
    assert z == (z / c) * c + z % c;
    ModUnique(z - z % c + r, z / c, r, c);
  }

  /** The same with the multiple subtracted. */
  lemma ModNegDropRem(z: int, r: int, c: int)
    requires 0 <= r < c
    ensures (r - (z - z % c)) % c == r
  {
    assert z == (z / c) * c + z % c;
    ModUnique(r - (z - z % c), -(z / c), r, c);
  }

  // ---------------------------------------------------------------------------
  // Specification of the storage after a write
  // ---------------------------------------------------------------------------

  /**
   * The storage `s` after the samples `data` are written one by one from slot
   * `w`, wrapping at |s|.  Slot j lies d = (w + |data| - 1 - j) mod |s| places
   * behind the last slot written; it holds the sample written d steps before
   * the last one if there is such a sample, and its old value otherwise.
   */
  function Overwrite(s: seq<Sample>, w: nat, data: seq<Sample>): (r: seq<Sample>)
    requires w < |s|
    ensures |r| == |s|
  {
    seq(|s|, j requires 0 <= j < |s| =>
      var d := (w + |data| - 1 - j) % |s|;
      if d < |data| then data[|data| - 1 - d] else s[j])
  }

  /** Writing a single sample updates exactly the slot under the cursor. */
  lemma OverwriteOne(s: seq<Sample>, w: nat, x: Sample)
    requires w < |s|
    ensures Overwrite(s, w, [x]) == s[w := x]
  {
    var c := |s|;
    forall j | 0 <= j < c
      ensures Overwrite(s, w, [x])[j] == s[w := x][j]
    {
      if j <= w {
        ModSmall(w - j, c);
      } else {
        ModAddTurn(w - j, c);
        ModSmall(w - j + c, c);
      }
    }
  }

  /** Slot j of a write, given its distance d behind the last slot written. */
  lemma OverwriteAt(s: seq<Sample>, w: nat, data: seq<Sample>, j: nat, d: int)
    requires w < |s| && j < |s|
    requires d == (w + |data| - 1 - j) % |s|
    ensures Overwrite(s, w, data)[j] == if d < |data| then data[|data| - 1 - d] else s[j]
  {
  }

  /** One slot of `OverwriteCompose`. */
  lemma ComposeSlot(s: seq<Sample>, w: nat, a: seq<Sample>, b: seq<Sample>, j: nat)
    requires w < |s| && j < |s|
    ensures Overwrite(Overwrite(s, w, a), (w + |a|) % |s|, b)[j] == Overwrite(s, w, a + b)[j]
  {
    var c, n, m := |s|, |a|, |b|;
    var mid := Overwrite(s, w, a);
    var x := w + n + m - 1 - j;
    var d2 := x % c;
    ModAddLeft(w + n, m - 1 - j, c);
    OverwriteAt(mid, (w + n) % c, b, j, d2);
    OverwriteAt(s, w, a + b, j, d2);
    if d2 < m {
      assert (a + b)[n + m - 1 - d2] == b[m - 1 - d2];
    } else {
      ModDropRem(x, d2 - m, c);
      OverwriteAt(s, w, a, j, d2 - m);
      if d2 < n + m {
        assert (a + b)[n + m - 1 - d2] == a[n - 1 - (d2 - m)];
      }
    }
  }

  /**
   * Two consecutive writes, the second starting where the first left the
   * cursor, leave the same storage as one write of both blocks: the callback
   * blocks accumulate as one stream.
   */
  lemma OverwriteCompose(s: seq<Sample>, w: nat, a: seq<Sample>, b: seq<Sample>)
    requires w < |s|
    ensures Overwrite(Overwrite(s, w, a), (w + |a|) % |s|, b) == Overwrite(s, w, a + b)
  {
    forall j | 0 <= j < |s|
      ensures Overwrite(Overwrite(s, w, a), (w + |a|) % |s|, b)[j] == Overwrite(s, w, a + b)[j]
    {
      ComposeSlot(s, w, a, b, j);
    }
  }

  /** One loop step of `Write`: writing one more sample updates one slot. */
  lemma OverwriteStep(s: seq<Sample>, w: nat, data: seq<Sample>, i: nat)
    requires w < |s| && i < |data|
    ensures Overwrite(s, w, data[..i + 1]) == Overwrite(s, w, data[..i])[(w + i) % |s| := data[i]]
  {
    assert data[..i + 1] == data[..i] + [data[i]];
    OverwriteCompose(s, w, data[..i], [data[i]]);
    OverwriteOne(Overwrite(s, w, data[..i]), (w + i) % |s|, data[i]);
  }

  /**
   * The write loop of GlobalVars.h taken literally: store the first sample
   * under the cursor, advance the cursor modulo the capacity, and carry on
   * with the rest.
   */
  function WriteLoop(s: seq<Sample>, w: nat, data: seq<Sample>): (r: seq<Sample>)
    requires w < |s|
    ensures |r| == |s|
    decreases |data|
  {
    if |data| == 0 then s
    else WriteLoop(s[w := data[0]], (w + 1) % |s|, data[1..])
  }

  /** The closed form `Overwrite` is exactly what the sample-by-sample loop leaves. */
  lemma {:induction false} WriteLoopIsOverwrite(s: seq<Sample>, w: nat, data: seq<Sample>)
    requires w < |s|
    ensures WriteLoop(s, w, data) == Overwrite(s, w, data)
    decreases |data|
  {
    if |data| == 0 {
      forall j | 0 <= j < |s|
        ensures Overwrite(s, w, data)[j] == s[j]
      {
        OverwriteAt(s, w, data, j, (w - 1 - j) % |s|);
      }
    } else {
      var rest := data[1..];
      WriteLoopIsOverwrite(s[w := data[0]], (w + 1) % |s|, rest);
      OverwriteOne(s, w, data[0]);
      OverwriteCompose(s, w, [data[0]], rest);
      assert [data[0]] + rest == data;
    }
  }

  /**
   * A sample that no later sample of the same write lands on (at most one
   * full turn of the ring follows it) is the one found in its slot.  For
   * |data| <= |s| this holds for every sample.
   */
  lemma LastWriteWins(s: seq<Sample>, w: nat, data: seq<Sample>, i: nat)
    requires w < |s|
    requires i < |data| <= i + |s|
    ensures Overwrite(s, w, data)[(w + i) % |s|] == data[i]
  {
    var c, k := |s|, |data|;
    ModDropRem(w + i, k - 1 - i, c);
    OverwriteAt(s, w, data, (w + i) % c, k - 1 - i);
  }

  /**
   * A write of k samples from slot w lands on the slots at offsets 0..k-1
   * from w; a slot at a larger offset keeps its old sample.
   */
  lemma UntouchedSlot(s: seq<Sample>, w: nat, data: seq<Sample>, j: nat)
    requires w < |s| && j < |s|
    requires |data| <= (j - w) % |s|
    ensures Overwrite(s, w, data)[j] == s[j]
  {
    var c, k := |s|, |data|;
    var e := (j - w) % c;
    ModNegDropRem(j - w, c + k - 1 - e, c);
    ModAddTurn(w + k - 1 - j, c);
    OverwriteAt(s, w, data, j, c + k - 1 - e);
  }

  /** The write of at most |s| samples, slot by slot. */
  lemma WriteWithinCapacity(s: seq<Sample>, w: nat, data: seq<Sample>)
    requires w < |s| && |data| <= |s|
    ensures forall i :: 0 <= i < |data| ==> Overwrite(s, w, data)[(w + i) % |s|] == data[i]
    ensures forall j :: 0 <= j < |s| && |data| <= (j - w) % |s| ==> Overwrite(s, w, data)[j] == s[j]
  {
    forall i | 0 <= i < |data|
      ensures Overwrite(s, w, data)[(w + i) % |s|] == data[i]
    {
      LastWriteWins(s, w, data, i);
    }
    forall j | 0 <= j < |s| && |data| <= (j - w) % |s|
      ensures Overwrite(s, w, data)[j] == s[j]
    {
      UntouchedSlot(s, w, data, j);
    }
  }

  // ---------------------------------------------------------------------------
  // Specification of what a read returns
  // ---------------------------------------------------------------------------

  /** The k samples found from slot r onwards, wrapping at |s|. */
  function ReadWindow(s: seq<Sample>, r: nat, k: nat): (out: seq<Sample>)
    requires r < |s|
    ensures |out| == k
  {
    seq(k, i requires 0 <= i < k => s[(r + i) % |s|])
  }

  /** Two consecutive reads return the same samples as one read of both lengths. */
  lemma ReadCompose(s: seq<Sample>, r: nat, a: nat, b: nat)
    requires r < |s|
    ensures ReadWindow(s, r, a) + ReadWindow(s, (r + a) % |s|, b) == ReadWindow(s, r, a + b)
  {
    var c := |s|;
    var lhs := ReadWindow(s, r, a) + ReadWindow(s, (r + a) % c, b);
    forall i | 0 <= i < a + b
      ensures lhs[i] == ReadWindow(s, r, a + b)[i]
    {
      if i >= a {
        ModAddLeft(r + a, i - a, c);
      }
    }
  }

  /**
   * Reading a whole number of turns of the ring puts the read cursor back
   * where it started.
   */
  lemma ReadCursorCycles(r: nat, m: nat, c: nat)
    requires r < c
    ensures (r + m * c) % c == r
  {
    ModUnique(r + m * c, m, r, c);
  }

  /** Reading one full turn returns the storage rotated to start at r. */
  lemma ReadFullTurn(s: seq<Sample>, r: nat)
    requires r < |s|
    ensures ReadWindow(s, r, |s|) == s[r..] + s[..r]
  {
    var c := |s|;
    forall i | 0 <= i < c
      ensures ReadWindow(s, r, c)[i] == (s[r..] + s[..r])[i]
    {
      if r + i < c {
        ModSmall(r + i, c);
      } else {
        ModAddTurn(r + i - c, c);
        ModSmall(r + i - c, c);
      }
    }
  }

  /**
   * Round trip: with both cursors on the same slot, reading back as many
   * samples as were just written (at most the capacity) returns them exactly.
   */
  lemma WriteThenRead(s: seq<Sample>, w: nat, data: seq<Sample>)
    requires w < |s| && |data| <= |s|
    ensures ReadWindow(Overwrite(s, w, data), w, |data|) == data
  {
    forall i | 0 <= i < |data|
      ensures ReadWindow(Overwrite(s, w, data), w, |data|)[i] == data[i]
    {
      LastWriteWins(s, w, data, i);
    }
  }

  /**
   * After a write of at least |s| samples, the slot i places after the new
   * write cursor holds the i-th of the last |s| samples.
   */
  lemma NewestTurnSlot(s: seq<Sample>, w: nat, data: seq<Sample>, i: nat)
    requires w < |s| <= |data| && i < |s|
    ensures Overwrite(s, w, data)[((w + |data|) % |s| + i) % |s|] == data[|data| - |s| + i]
  {
    var c, k := |s|, |data|;
    ModAddLeft(w + k, i, c);
    ModAddTurn(w + (k - c + i), c);
    LastWriteWins(s, w, data, k - c + i);
  }

  /**
   * A write of at least |s| samples leaves exactly the most recent |s| of
   * them, oldest first from the new write cursor, whatever was stored before.
   */
  lemma KeepsMostRecent(s: seq<Sample>, w: nat, data: seq<Sample>)
    requires w < |s| <= |data|
    ensures ReadWindow(Overwrite(s, w, data), (w + |data|) % |s|, |s|) == data[|data| - |s|..]
  {
    var c, k := |s|, |data|;
    var t := Overwrite(s, w, data);
    var tail := data[k - c..];
    var window := ReadWindow(t, (w + k) % c, c);
    forall i | 0 <= i < c
      ensures window[i] == tail[i]
    {
      NewestTurnSlot(s, w, data, i);
      assert window[i] == t[((w + k) % c + i) % c];
    }
    assert |window| == |tail|;
  }

  /** A write of at least |s| samples forgets everything stored before it. */
  lemma OverrunForgetsOld(s: seq<Sample>, t: seq<Sample>, w: nat, data: seq<Sample>)
    requires w < |s| == |t| <= |data|
    ensures Overwrite(s, w, data) == Overwrite(t, w, data)
  {
    var c, k := |s|, |data|;
    var w' := (w + k) % c;
    KeepsMostRecent(s, w, data);
    KeepsMostRecent(t, w, data);
    ReadFullTurn(Overwrite(s, w, data), w');
    ReadFullTurn(Overwrite(t, w, data), w');
    var a, b := Overwrite(s, w, data), Overwrite(t, w, data);
    assert a[w'..] + a[..w'] == b[w'..] + b[..w'];
    assert a == a[..w'] + a[w'..] && b == b[..w'] + b[w'..];
    assert a[w'..] == (a[w'..] + a[..w'])[..c - w'];
    assert b[w'..] == (b[w'..] + b[..w'])[..c - w'];
    assert a[..w'] == (a[w'..] + a[..w'])[c - w'..];
    assert b[..w'] == (b[w'..] + b[..w'])[c - w'..];
  }

  // ---------------------------------------------------------------------------
  // The buffer object
  // ---------------------------------------------------------------------------

  class RingBuffer {
    /** The sample storage; allocated once and never resized. */
    const buffer: array<Sample>
    /** Next slot `Write` overwrites. */
    var writePos: nat
    /** Next slot `Read` returns. */
    var readPos: nat

    ghost predicate Valid()
      reads this
    {
      0 < buffer.Length && writePos < buffer.Length && readPos < buffer.Length
    }

    /** Capacity `size` slots, all zero; both cursors at slot 0. */
    constructor (size: nat)
      requires size > 0
      ensures Valid() && fresh(buffer)
      ensures buffer.Length == size
      ensures forall i :: 0 <= i < size ==> buffer[i] == 0
      ensures writePos == 0 && readPos == 0
    {
      buffer := new Sample[size](_ => 0);
      writePos := 0;
      readPos := 0;
    }

    /**
     * Stores the first size / 4 samples of `data` from the write cursor on,
     * wrapping at the capacity and overwriting whatever is there.
     */
    method Write(data: seq<Sample>, size: nat)
      requires Valid()
      requires SamplesIn(size) <= |data|
      modifies this`writePos, buffer
      ensures Valid()
      ensures buffer[..] == Overwrite(old(buffer[..]), old(writePos), data[..SamplesIn(size)])
      ensures writePos == (old(writePos) + SamplesIn(size)) % buffer.Length
      ensures readPos == old(readPos)
    {
      var floatSize := size / SampleBytes;
      ghost var start := buffer[..];
      ghost var w0 := writePos;
      for i := 0 to floatSize
        invariant writePos == (w0 + i) % buffer.Length
        invariant buffer[..] == Overwrite(start, w0, data[..i])
      {
        OverwriteStep(start, w0, data, i);
        ghost var before := buffer[..];
        buffer[writePos] := data[i];
        assert buffer[..] == before[writePos := data[i]];
        ModAddLeft(w0 + i, 1, buffer.Length);
        writePos := (writePos + 1) % buffer.Length;
      }
    }

    /**
     * Copies size / 4 samples from the read cursor on into `out`, wrapping at
     * the capacity; the write cursor is not consulted.
     */
    method Read(out: array<Sample>, size: nat)
      requires Valid()
      requires SamplesIn(size) <= out.Length
      requires out != buffer
      modifies this`readPos, out
      ensures Valid()
      ensures out[..SamplesIn(size)] == ReadWindow(buffer[..], old(readPos), SamplesIn(size))
      ensures out[SamplesIn(size)..] == old(out[SamplesIn(size)..])
      ensures readPos == (old(readPos) + SamplesIn(size)) % buffer.Length
      ensures buffer[..] == old(buffer[..]) && writePos == old(writePos)
    {
      var floatSize := size / SampleBytes;
      ghost var r0 := readPos;
      for i := 0 to floatSize
        invariant readPos == (r0 + i) % buffer.Length
        invariant out[..i] == ReadWindow(buffer[..], r0, i)
        invariant out[floatSize..] == old(out[floatSize..])
      {
        out[i] := buffer[readPos];
        ModAddLeft(r0 + i, 1, buffer.Length);
        readPos := (readPos + 1) % buffer.Length;
        assert out[..i + 1] == out[..i] + [out[i]];
      }
    }
  }
}
