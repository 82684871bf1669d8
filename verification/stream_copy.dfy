/**
 `saveStream`: copying an input stream into a destination file through a
 1024-byte buffer.

 The input stream is a sequence of read steps: a chunk of 1 to 1024 bytes
 (what one `read(buf)` delivers), or a read that throws. Past the end of the
 sequence every read returns -1 (end of stream).

 The loop as written calls `bos.write(buf)`, which writes the whole buffer
 whatever `read` returned. The first read's result is ignored, and the
 do/while writes before it tests the next read. So the file receives one full
 buffer per chunk (one zero-filled buffer for an empty stream), and the bytes a
 short chunk did not overwrite are left over from the previous chunk.
 `CopyToFile` states this as a function, the method `SaveStream` computes it
 with a buffer variable, and the lemmas below describe the layout.
 */
module StreamCopy {
  import opened Base

  /** The size of `buf`. */
  const BufferSize: nat := 1024

  datatype ReadStep = Chunk(data: seq<byte>) | ReadFailure

  /** `InputStream.read(byte[1024])` never delivers 0 or more than 1024 bytes. */
  predicate ValidStream(input: seq<ReadStep>) {
    forall i :: 0 <= i < |input| && input[i].Chunk? ==> 1 <= |input[i].data| <= BufferSize
  }

  /** No read throws. */
  predicate AllChunks(input: seq<ReadStep>) {
    forall i :: 0 <= i < |input| ==> input[i].Chunk?
  }

  /** The bytes each read delivers, in order. */
  function Chunks(input: seq<ReadStep>): (cs: seq<seq<byte>>)
    requires AllChunks(input)
    ensures |cs| == |input|
    ensures forall i :: 0 <= i < |input| ==> cs[i] == input[i].data
  {
    ChunksFrom(input, 0)
  }

  /** The bytes reads `i`, `i + 1`, ... deliver. */
  function ChunksFrom(input: seq<ReadStep>, i: nat): (cs: seq<seq<byte>>)
    requires AllChunks(input)
    ensures |cs| == Remaining(input, i)
    ensures forall j :: 0 <= j < |cs| ==> cs[j] == input[i + j].data
    decreases Remaining(input, i)
  {
    if i < |input| then [input[i].data] + ChunksFrom(input, i + 1) else []
  }

  datatype ReadResult = Got(data: seq<byte>) | EndOfStream | Thrown

  /** The `i`-th call of `read`. */
  function Read(input: seq<ReadStep>, i: nat): ReadResult {
    if i < |input| then
      match input[i]
      case Chunk(d) => Got(d)
      case ReadFailure => Thrown
    else EndOfStream
  }

  /** The buffer after `read` has put `data` at its start (`read` never
      delivers more than the buffer holds). */
  function Fill(buf: seq<byte>, data: seq<byte>): (r: seq<byte>)
    ensures |r| == |buf|
  {
    if |data| <= |buf| then data + buf[|data|..] else data[..|buf|]
  }

  /** After the read, the buffer starts with the data; the rest is stale. */
  lemma FillKeepsRest(buf: seq<byte>, data: seq<byte>)
    requires |data| <= |buf|
    ensures Fill(buf, data)[..|data|] == data
    ensures Fill(buf, data)[|data|..] == buf[|data|..]
  {
  }

  /** `ByteArray(1024)`. */
  function Zeros(): (z: seq<byte>)
    ensures |z| == BufferSize
  {
    seq(BufferSize, _ => 0)
  }

  /** The loop's outcome: whether it ended without an exception, the bytes
      handed to `write`, and how many writes returned normally. */
  datatype Pumped = Pumped(ok: bool, written: seq<byte>, writes: nat)

  /** Reads at index `i` and later that the loop still has to make. */
  function Remaining(input: seq<ReadStep>, i: nat): nat {
    if i < |input| then |input| - i else 0
  }

  /** The do/while loop, entered with `buf` about to be written, `i` the
      index of the next read and `k` writes already done. */
  function Pump(input: seq<ReadStep>, i: nat, buf: seq<byte>, failingWrite: Option<nat>, k: nat): (p: Pumped)
    requires ValidStream(input) && |buf| == BufferSize
    ensures |p.written| % BufferSize == 0
    ensures p.writes >= k
    decreases Remaining(input, i)
  {
    if failingWrite == Some(k) then Pumped(false, [], k)
    else
      match Read(input, i)
      case Thrown => Pumped(false, buf, k + 1)
      case EndOfStream => Pumped(true, buf, k + 1)
      case Got(d) =>
        var rest := Pump(input, i + 1, Fill(buf, d), failingWrite, k + 1);
        Pumped(rest.ok, buf + rest.written, rest.writes)
  }

  /** What one call of `saveStream` leaves behind. */
  datatype Saved = Saved(success: bool, fs: FileSystem, writes: nat)

  /** `saveStream(bis, dest)`: create the file when absent, open it for
      writing (discarding what it held), read once, then write the buffer
      and read again until `read` returns -1. Any `IOException` before the
      end leaves the result `false`; a failing `close` is logged only. */
  function CopyToFile(fs: FileSystem, dest: Path, input: seq<ReadStep>, faults: Faults): (r: Saved)
    requires ValidStream(input)
    ensures r.success ==> OutputOpens(fs, dest, faults)
    ensures OnlyTouches(fs, r.fs, dest)
  {
    if dest !in fs && faults.createFails then Saved(false, fs, 0)
    else
      var created := CreateIfAbsent(fs, dest);
      if faults.openFails then Saved(false, created, 0)
      else
        var p :=
          match Read(input, 0)
          case Thrown => Pumped(false, [], 0)
          case EndOfStream => Pump(input, 1, Zeros(), faults.failingWrite, 0)
          case Got(d) => Pump(input, 1, Fill(Zeros(), d), faults.failingWrite, 0);
        Saved(p.ok, created[dest := Binary(p.written)], p.writes)
  }

  /** `saveStream`. `closes` counts the calls of `bos.close()` in the
      `finally` block. */
  method SaveStream(fs: FileSystem, dest: Path, input: seq<ReadStep>, faults: Faults)
    returns (success: bool, fs': FileSystem, writes: nat, closes: nat)
    requires ValidStream(input)
    ensures Saved(success, fs', writes) == CopyToFile(fs, dest, input, faults)
    ensures closes == if OutputOpens(fs, dest, faults) then 1 else 0
  {
    success := false;
    fs' := fs;
    writes := 0;
    closes := 0;
    var isOpen := false;
    // try
    if dest !in fs' && faults.createFails {
      // createNewFile throws
    } else {
      fs' := CreateIfAbsent(fs', dest);
      if !faults.openFails {
        isOpen := true;
        // the first read, whose result is not looked at
        var written: seq<byte> := [];
        match Read(input, 0) {
          case Thrown =>
          case EndOfStream =>
            success, written, writes := WriteLoop(input, Zeros(), faults.failingWrite);
          case Got(d) =>
            success, written, writes := WriteLoop(input, Fill(Zeros(), d), faults.failingWrite);
        }
        fs' := fs'[dest := Binary(written)];
      }
    }
    // finally
    if isOpen {
      closes := closes + 1;
    }
  }

  /** The do/while loop of `saveStream` on the buffer `buf0` the first read
      left: write the whole buffer, then read into it again, until `read`
      returns -1 or a read or write throws. */
  method WriteLoop(input: seq<ReadStep>, buf0: seq<byte>, failingWrite: Option<nat>)
    returns (ok: bool, written: seq<byte>, writes: nat)
    requires ValidStream(input) && |buf0| == BufferSize
    ensures Pumped(ok, written, writes) == Pump(input, 1, buf0, failingWrite, 0)
  {
    var buf := buf0;
    ok, written, writes := true, [], 0;
    ghost var goal := Pump(input, 1, buf0, failingWrite, 0);
    var i := 1;
    var more := true;
    while more
      invariant |buf| == BufferSize
      invariant more ==> ok && Resume(written, Pump(input, i, buf, failingWrite, writes)) == goal
      invariant !more ==> Pumped(ok, written, writes) == goal
      decreases more, Remaining(input, i)
    {
      ghost var p := Pump(input, i, buf, failingWrite, writes);
      ghost var before := written;
      if failingWrite == Some(writes) {
        assert p == Pumped(false, [], writes);
        assert before + [] == before;
        ok, more := false, false;
      } else {
        written := written + buf;
        writes := writes + 1;
        match Read(input, i) {
          case Thrown =>
            assert p == Pumped(false, buf, writes);
            ok, more := false, false;
          case EndOfStream =>
            assert p == Pumped(true, buf, writes);
            more := false;
          case Got(d) =>
            var next := Fill(buf, d);
            ghost var rest := Pump(input, i + 1, next, failingWrite, writes);
            assert p == Pumped(rest.ok, buf + rest.written, rest.writes);
            assert before + (buf + rest.written) == written + rest.written;
            buf := next;
            i := i + 1;
        }
      }
    }
  }

  /** The loop's outcome once `written` has already been handed to `write`. */
  ghost function Resume(written: seq<byte>, p: Pumped): Pumped {
    Pumped(p.ok, written + p.written, p.writes)
  }

  /** The bytes written by the loop when nothing throws: each chunk is read
      into the buffer, and the whole buffer is written after each read. */
  function Blocks(buf: seq<byte>, chunks: seq<seq<byte>>): seq<byte>
    requires |buf| == BufferSize
    decreases |chunks|
  {
    if |chunks| == 0 then []
    else
      var next := Fill(buf, chunks[0]);
      next + Blocks(next, chunks[1..])
  }

  /** What a successful `saveStream` leaves in the file. */
  function Padded(chunks: seq<seq<byte>>): seq<byte>
  {
    if |chunks| == 0 then Zeros() else Blocks(Zeros(), chunks)
  }

  /** The bytes the chunks actually hold, back to back. */
  function Concat(chunks: seq<seq<byte>>): seq<byte> {
    if |chunks| == 0 then [] else chunks[0] + Concat(chunks[1..])
  }

  function Max1(n: nat): nat {
    if n == 0 then 1 else n
  }

  /** The loop without faults: it writes the buffer it holds, then one
      buffer per remaining chunk. */
  lemma {:induction false} PumpWithoutFaults(input: seq<ReadStep>, i: nat, buf: seq<byte>, failingWrite: Option<nat>, k: nat)
    requires ValidStream(input) && AllChunks(input) && |buf| == BufferSize
    requires failingWrite.None? || failingWrite.value < k || failingWrite.value > k + Remaining(input, i)
    ensures Pump(input, i, buf, failingWrite, k) ==
      Pumped(true, buf + Blocks(buf, ChunksFrom(input, i)), k + 1 + Remaining(input, i))
    decreases Remaining(input, i)
  {
    if i < |input| {
      var d := input[i].data;
      var next := Fill(buf, d);
      assert Read(input, i) == Got(d);
      PumpWithoutFaults(input, i + 1, next, failingWrite, k + 1);
      var later := ChunksFrom(input, i + 1);
      assert ChunksFrom(input, i) == [d] + later;
      assert ([d] + later)[1..] == later;
      assert Blocks(buf, [d] + later) == next + Blocks(next, later);
      assert buf + (next + Blocks(next, later)) == (buf + next) + Blocks(next, later);
    } else {
      assert Read(input, i) == EndOfStream;
    }
  }

  /** The first read and the loop without faults produce the padded blocks
      in max(1, number of chunks) writes. */
  lemma LoopWithoutFaults(input: seq<ReadStep>, failingWrite: Option<nat>)
    requires ValidStream(input) && AllChunks(input)
    requires failingWrite.None? || failingWrite.value >= Max1(|input|)
    ensures Read(input, 0).Got? ==>
      Pump(input, 1, Fill(Zeros(), Read(input, 0).data), failingWrite, 0) == Pumped(true, Padded(Chunks(input)), Max1(|input|))
    ensures Read(input, 0).EndOfStream? ==>
      Pump(input, 1, Zeros(), failingWrite, 0) == Pumped(true, Padded(Chunks(input)), Max1(|input|))
  {
    if |input| == 0 {
      PumpWithoutFaults(input, 1, Zeros(), failingWrite, 0);
      assert ChunksFrom(input, 1) == [];
    } else {
      var d := input[0].data;
      var first := Fill(Zeros(), d);
      PumpWithoutFaults(input, 1, first, failingWrite, 0);
      var later := ChunksFrom(input, 1);
      assert Chunks(input) == [d] + later;
      assert ([d] + later)[1..] == later;
      assert Blocks(Zeros(), [d] + later) == first + Blocks(first, later);
    }
  }

  /** When nothing throws, the file holds the padded blocks after exactly
      max(1, number of chunks) writes. */
  lemma CopyWithoutFaults(fs: FileSystem, dest: Path, input: seq<ReadStep>, faults: Faults)
    requires ValidStream(input) && AllChunks(input)
    requires OutputOpens(fs, dest, faults)
    requires faults.failingWrite.None? || faults.failingWrite.value >= Max1(|input|)
    ensures CopyToFile(fs, dest, input, faults) ==
      Saved(true, CreateIfAbsent(fs, dest)[dest := Binary(Padded(Chunks(input)))], Max1(|input|))
  {
    LoopWithoutFaults(input, faults.failingWrite);
  }

  /** The loop succeeds exactly when none of its remaining reads and none of
      its remaining writes throws. */
  lemma {:induction false} PumpSucceedsIff(input: seq<ReadStep>, i: nat, buf: seq<byte>, failingWrite: Option<nat>, k: nat)
    requires ValidStream(input) && |buf| == BufferSize
    ensures Pump(input, i, buf, failingWrite, k).ok <==>
      && (forall j :: i <= j < |input| ==> input[j].Chunk?)
      && (failingWrite.None? || failingWrite.value < k || failingWrite.value > k + Remaining(input, i))
    decreases Remaining(input, i)
  {
    if failingWrite != Some(k) {
      match Read(input, i)
      case Thrown =>
      case EndOfStream =>
      case Got(d) =>
        PumpSucceedsIff(input, i + 1, Fill(buf, d), failingWrite, k + 1);
    }
  }

  /** `saveStream` returns true exactly when no `IOException` is thrown
      before the `finally` block: the file can be created and opened, no read
      throws, and none of the max(1, chunks) writes throws. A failing close
      does not matter. */
  lemma SaveStreamSucceedsIff(fs: FileSystem, dest: Path, input: seq<ReadStep>, faults: Faults)
    requires ValidStream(input)
    ensures CopyToFile(fs, dest, input, faults).success <==>
      && OutputOpens(fs, dest, faults)
      && AllChunks(input)
      && (faults.failingWrite.None? || faults.failingWrite.value >= Max1(|input|))
  {
    if OutputOpens(fs, dest, faults) {
      match Read(input, 0)
      case Thrown =>
      case EndOfStream =>
        PumpSucceedsIff(input, 1, Zeros(), faults.failingWrite, 0);
      case Got(d) =>
        PumpSucceedsIff(input, 1, Fill(Zeros(), d), faults.failingWrite, 0);
    }
  }

  /** Every chunk becomes exactly one full block. */
  lemma {:induction false} BlocksLength(buf: seq<byte>, chunks: seq<seq<byte>>)
    requires |buf| == BufferSize
    ensures |Blocks(buf, chunks)| == BufferSize * |chunks|
    decreases |chunks|
  {
    if |chunks| > 0 {
      BlocksLength(Fill(buf, chunks[0]), chunks[1..]);
    }
  }

  /** The `j`-th 1024-byte block of `out`: the buffer as the `j`-th write
      handed it over. */
  function Block(out: seq<byte>, j: nat): (b: seq<byte>)
    requires (j + 1) * BufferSize <= |out|
    ensures |b| == BufferSize
  {
    out[j * BufferSize .. (j + 1) * BufferSize]
  }

  lemma BlockOfAppend(a: seq<byte>, rest: seq<byte>, j: nat)
    requires |a| == BufferSize && (j + 1) * BufferSize <= |rest|
    ensures Block(a + rest, j + 1) == Block(rest, j)
  {
    assert (a + rest)[BufferSize..] == rest;
  }

  /** Block `j` of the output is block `j - 1` (the starting buffer for
      `j = 0`) with chunk `j` read over its start. */
  lemma {:induction false} BlocksLayout(buf: seq<byte>, chunks: seq<seq<byte>>, j: nat)
    requires |buf| == BufferSize
    requires j < |chunks|
    ensures |Blocks(buf, chunks)| == BufferSize * |chunks|
    ensures Block(Blocks(buf, chunks), j) ==
      Fill(if j == 0 then buf else Block(Blocks(buf, chunks), j - 1), chunks[j])
    decreases |chunks|
  {
    BlocksLength(buf, chunks);
    var next := Fill(buf, chunks[0]);
    var rest := Blocks(next, chunks[1..]);
    assert Blocks(buf, chunks) == next + rest;
    BlocksLength(next, chunks[1..]);
    if j == 0 {
      assert Block(next + rest, 0) == next;
    } else {
      BlocksLayout(next, chunks[1..], j - 1);
      assert chunks[1..][j - 1] == chunks[j];
      BlockOfAppend(next, rest, j - 1);
      if j > 1 {
        BlockOfAppend(next, rest, j - 2);
      }
    }
  }

  /** A successful copy writes max(1, chunks) full buffers, so the file's
      length is a positive multiple of 1024. Block `j` is block `j - 1` (the
      zero buffer for `j = 0`) with chunk `j` at its start: the chunk is
      there in full, and the rest of the block is stale. */
  lemma PaddedLayout(chunks: seq<seq<byte>>)
    requires forall i :: 0 <= i < |chunks| ==> 1 <= |chunks[i]| <= BufferSize
    ensures |Padded(chunks)| == BufferSize * Max1(|chunks|)
    ensures |chunks| == 0 ==> Padded(chunks) == Zeros()
    ensures forall j :: 0 <= j < |chunks| ==>
      Block(Padded(chunks), j) == Fill(if j == 0 then Zeros() else Block(Padded(chunks), j - 1), chunks[j])
    ensures forall j :: 0 <= j < |chunks| ==> Block(Padded(chunks), j)[..|chunks[j]|] == chunks[j]
  {
    if |chunks| > 0 {
      BlocksLength(Zeros(), chunks);
      forall j | 0 <= j < |chunks|
        ensures Block(Padded(chunks), j) == Fill(if j == 0 then Zeros() else Block(Padded(chunks), j - 1), chunks[j])
        ensures Block(Padded(chunks), j)[..|chunks[j]|] == chunks[j]
      {
        BlocksLayout(Zeros(), chunks, j);
        FillKeepsRest(if j == 0 then Zeros() else Block(Padded(chunks), j - 1), chunks[j]);
      }
    }
  }

  /** Full-size chunks leave nothing stale: the blocks are the chunks. */
  lemma {:induction false} FullBlocksAreChunks(buf: seq<byte>, chunks: seq<seq<byte>>)
    requires |buf| == BufferSize
    requires forall i :: 0 <= i < |chunks| ==> |chunks[i]| == BufferSize
    ensures Blocks(buf, chunks) == Concat(chunks)
    decreases |chunks|
  {
    if |chunks| > 0 {
      assert Fill(buf, chunks[0]) == chunks[0];
      FullBlocksAreChunks(chunks[0], chunks[1..]);
    }
  }

  lemma {:induction false} ConcatLength(chunks: seq<seq<byte>>)
    requires forall i :: 0 <= i < |chunks| ==> |chunks[i]| <= BufferSize
    ensures |Concat(chunks)| <= BufferSize * |chunks|
    ensures |Concat(chunks)| == BufferSize * |chunks| ==> forall i :: 0 <= i < |chunks| ==> |chunks[i]| == BufferSize
  {
    if |chunks| > 0 {
      ConcatLength(chunks[1..]);
      assert forall i :: 1 <= i < |chunks| ==> chunks[1..][i - 1] == chunks[i];
    }
  }

  /** The file is a byte-for-byte copy of the stream exactly when the stream
      is non-empty and every read fills the whole buffer. */
  lemma PaddedIsCopyIff(chunks: seq<seq<byte>>)
    requires forall i :: 0 <= i < |chunks| ==> 1 <= |chunks[i]| <= BufferSize
    ensures Padded(chunks) == Concat(chunks) <==>
      |chunks| > 0 && forall i :: 0 <= i < |chunks| ==> |chunks[i]| == BufferSize
  {
    ConcatLength(chunks);
    if |chunks| > 0 {
      BlocksLength(Zeros(), chunks);
      if forall i :: 0 <= i < |chunks| ==> |chunks[i]| == BufferSize {
        FullBlocksAreChunks(Zeros(), chunks);
      }
    }
  }

  /** A one-byte stream is saved as a 1024-byte file: the byte, then 1023
      zeros from the fresh buffer. */
  lemma OneByteStreamExample(fs: FileSystem, dest: Path)
    ensures CopyToFile(fs, dest, [Chunk([7])], NoFaults).fs[dest] == Binary([7] + Zeros()[1..])
    ensures CopyToFile(fs, dest, [Chunk([7])], NoFaults).fs[dest] != Binary([7])
  {
    var input := [Chunk([7])];
    assert AllChunks(input);
    CopyWithoutFaults(fs, dest, input, NoFaults);
    assert Chunks(input) == [[7]];
    var first := Fill(Zeros(), [7]);
    assert Blocks(Zeros(), [[7]]) == first + Blocks(first, []);
  }
}
