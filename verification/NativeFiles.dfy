/** The file layer: a position and a cached length over a kernel file, refining a stream of bytes with a cursor.

Kernel reads and writes take an explicit offset. They may fail, and a write may be accepted only in part; which of these
happens is an argument of each operation. */
module NativeFiles {
  import opened Helpers

  /** The values of a C int. */
  type Int32 = x: int | -0x8000_0000 <= x < 0x8000_0000

  /** Conversion of a 64-bit value to a C int keeps its low 32 bits. */
  function ToInt32(x: int): Int32 {
    var low := x % 0x1_0000_0000;
    if low < 0x8000_0000 then low else low - 0x1_0000_0000
  }

  datatype Origin = SeekSet | SeekCur | SeekEnd

  /** What the kernel does with a request: fail, or transfer at most `limit` bytes. */
  datatype Outcome = Failure | Success(limit: nat)

  datatype Op =
    | ReadOp(count: Int32, fails: bool)
    | WriteOp(data: seq<bv8>, outcome: Outcome)
    | SeekOp(offset: Int32, origin: Origin)

  /** What an operation returns to its caller: a number, and the bytes read. */
  datatype Reply = Reply(result: int, bytes: seq<bv8>)

  // ---- The stream ----

  datatype ByteStream = ByteStream(bytes: seq<bv8>, cursor: nat)

  /** Bytes with `data` stored at an offset; a gap before it is filled with zeros. */
  function Splice(bytes: seq<bv8>, at: nat, data: seq<bv8>): (r: seq<bv8>)
    ensures data != [] ==> at + |data| <= |r| && r[at..at + |data|] == data
  {
    if data == [] then bytes
    else seq(Max(|bytes|, at + |data|), i requires 0 <= i => SplicedByte(bytes, at, data, i))
  }

  function SplicedByte(bytes: seq<bv8>, at: nat, data: seq<bv8>, i: nat): bv8 {
    if at <= i < at + |data| then data[i - at] else if i < |bytes| then bytes[i] else 0
  }

  function StreamStep(s: ByteStream, op: Op): (ByteStream, Reply) {
    match op
    case ReadOp(count, fails) =>
      if count <= 0 || fails || s.cursor >= |s.bytes| then (s, Reply(0, []))
      else
        var end := Min(s.cursor + count, |s.bytes|);
        (s.(cursor := end), Reply(end - s.cursor, s.bytes[s.cursor..end]))
    case WriteOp(data, Failure) => (s, Reply(0, []))
    case WriteOp(data, Success(limit)) =>
      var n := Min(|data|, limit);
      (ByteStream(Splice(s.bytes, s.cursor, data[..n]), s.cursor + n), Reply(n, []))
    case SeekOp(offset, origin) =>
      var target := offset + (match origin case SeekSet => 0 case SeekCur => s.cursor case SeekEnd => |s.bytes|);
      if target < 0 then (s, Reply(-1, [])) else (s.(cursor := target), Reply(0, []))
  }

  // ---- The file ----

  datatype FileState = FileState(bytes: seq<bv8>, position: int, length: int) {
    /** What holds whatever the length query returned and whoever else writes. */
    ghost predicate Valid() { 0 <= position && 0 <= length }

    /** The length query succeeded and no one else has written. */
    ghost predicate Synced() { 0 <= position && length == |bytes| }

    function Stream(): ByteStream
      requires position >= 0
    {
      ByteStream(bytes, position)
    }
  }

  function FileStep(f: FileState, op: Op): (FileState, Reply)
    requires f.position >= 0
  {
    match op
    case ReadOp(count, fails) =>
      if count <= 0 || fails || f.position >= |f.bytes| then (f, Reply(0, []))
      else
        var end := Min(f.position + count, |f.bytes|);
        (f.(position := end), Reply(end - f.position, f.bytes[f.position..end]))
    case WriteOp(data, outcome) =>
      if data == [] || outcome.Failure? then (f, Reply(0, []))
      else
        var n := Min(|data|, outcome.limit);
        var end := f.position + n;
        (FileState(Splice(f.bytes, f.position, data[..n]), end, if end > f.length then end else f.length), Reply(n, []))
    case SeekOp(offset, origin) =>
      var target := offset + (match origin case SeekSet => 0 case SeekCur => f.position case SeekEnd => f.length);
      if target < 0 then (f, Reply(-1, [])) else (f.(position := target), Reply(0, []))
  }

  function Eof(f: FileState): bool { f.position >= f.length }

  function Tell(f: FileState): Int32 { ToInt32(f.position) }

  /** A kernel file: its bytes, read and written at explicit offsets. */
  class KernelFile {
    var bytes: seq<bv8>

    constructor (content: seq<bv8>)
      ensures bytes == content
    {
      bytes := content;
    }

    /** Fails at or past the end of the file, and whenever `fails` says so. */
    method NtReadFile(buffer: array<bv8>, length: nat, offset: nat, fails: bool) returns (ok: bool, information: nat)
      requires 0 < length <= buffer.Length
      modifies buffer
      ensures ok == (!fails && offset < |bytes|)
      ensures if ok then information == Min(length, |bytes| - offset) else information == 0
      ensures buffer[..] == bytes[if ok then offset else 0..if ok then offset + information else 0] +
                            old(buffer[..])[information..]
    {
      ok, information := !fails && offset < |bytes|, 0;
      if ok {
        information := Min(length, |bytes| - offset);
        forall i | 0 <= i < information {
          buffer[i] := bytes[offset + i];
        }
      }
    }

    method NtWriteFile(data: seq<bv8>, offset: nat, outcome: Outcome) returns (ok: bool, information: nat)
      modifies this
      ensures ok == outcome.Success?
      ensures information == if ok then Min(|data|, outcome.limit) else 0
      ensures bytes == Splice(old(bytes), offset, data[..information])
    {
      ok, information := outcome.Success?, 0;
      if ok {
        information := Min(|data|, outcome.limit);
      }
      bytes := Splice(bytes, offset, data[..information]);
    }
  }

  class NativeFile {
    const handle: KernelFile
    var position: int
    var length: int

    ghost function State(): FileState
      reads this, handle
    {
      FileState(handle.bytes, position, length)
    }

    /** What opening leaves: the length is zero if it could not be queried; appending starts at the end. */
    constructor (file: KernelFile, queried: bool, append: bool)
      ensures handle == file && State().Valid() && (queried ==> State().Synced())
      ensures length == (if queried then |file.bytes| else 0) && position == (if append then length else 0)
    {
      handle := file;
      length := if queried then |file.bytes| else 0;
      position := if append then (if queried then |file.bytes| else 0) else 0;
    }

    method Read(buffer: array<bv8>, count: Int32, fails: bool) returns (result: int)
      requires State().Valid() && count <= buffer.Length
      modifies this`position, buffer
      ensures var (state, reply) := FileStep(old(State()), ReadOp(count, fails));
              && State() == state && result == reply.result
              && buffer[..] == reply.bytes + old(buffer[..])[|reply.bytes|..]
    {
      if count <= 0 {
        return 0;
      }
      var ok, information := handle.NtReadFile(buffer, count, position, fails);
      if !ok {
        return 0;
      }
      position := position + information;
      result := information;
    }

    method Write(data: seq<bv8>, outcome: Outcome) returns (result: int)
      requires State().Valid()
      modifies this`position, this`length, handle
      ensures var (state, reply) := FileStep(old(State()), WriteOp(data, outcome));
              State() == state && result == reply.result
    {
      if data == [] {
        return 0;
      }
      var ok, information := handle.NtWriteFile(data, position, outcome);
      if !ok {
        return 0;
      }
      position := position + information;
      if position > length {
        length := position;
      }
      result := information;
    }

    method Seek(offset: Int32, origin: Origin) returns (result: int)
      requires State().Valid()
      modifies this`position
      ensures var (state, reply) := FileStep(old(State()), SeekOp(offset, origin));
              State() == state && result == reply.result
    {
      var target := if origin == SeekSet then 0 else if origin == SeekCur then position else length;
      target := target + offset;
      if target < 0 {
        return -1;
      }
      position := target;
      result := 0;
    }
  }

  // ---- Runs ----

  function RunFile(f: FileState, ops: seq<Op>): (FileState, seq<Reply>)
    requires f.Valid()
    decreases |ops|
  {
    if ops == [] then (f, [])
    else
      StepKeepsValid(f, ops[0]);
      var (next, reply) := FileStep(f, ops[0]);
      var (last, replies) := RunFile(next, ops[1..]);
      (last, [reply] + replies)
  }

  function RunStream(s: ByteStream, ops: seq<Op>): (ByteStream, seq<Reply>)
    decreases |ops|
  {
    if ops == [] then (s, [])
    else
      var (next, reply) := StreamStep(s, ops[0]);
      var (last, replies) := RunStream(next, ops[1..]);
      (last, [reply] + replies)
  }

  /** Whatever happens, the position is never negative, and a rejected seek changes nothing. */
  lemma StepKeepsValid(f: FileState, op: Op)
    requires f.Valid()
    ensures FileStep(f, op).0.Valid()
    ensures FileStep(f, op).1.result < 0 ==> op.SeekOp? && FileStep(f, op).0 == f
  {
  }

  /** What a read returns, byte by byte: the bytes from the position on, as many as are asked for unless the file ends
      first; and none if it fails. */
  lemma ReadReturns(f: FileState, count: Int32, fails: bool)
    requires f.Valid()
    ensures var (file, reply) := FileStep(f, ReadOp(count, fails));
            && reply.result == |reply.bytes| && file == f.(position := f.position + reply.result)
            && (forall i | 0 <= i < |reply.bytes| ::
                  f.position + i < |f.bytes| && reply.bytes[i] == f.bytes[f.position + i])
            && (fails || count <= 0 ==> reply.bytes == [])
            && (!fails && count > 0 ==>
                  reply.result <= count && (reply.result == count || file.position >= |f.bytes|))
  {
  }

  /** What a write stores, byte by byte: the data from the position on, as much of it as the kernel takes; every other
      byte stays, and a gap before the data is filled with zeros. A failed write changes nothing. */
  lemma WriteStores(f: FileState, data: seq<bv8>, outcome: Outcome)
    requires f.Valid()
    ensures var (file, reply) := FileStep(f, WriteOp(data, outcome));
            var n := reply.result;
            && 0 <= n <= |data| && (outcome.Failure? ==> file == f && n == 0)
            && (outcome.Success? ==> n == |data| || n == outcome.limit < |data|)
            && file.position == f.position + n
            && |file.bytes| == (if n > 0 && f.position + n > |f.bytes| then f.position + n else |f.bytes|)
            && (forall k | 0 <= k < |file.bytes| ::
                  file.bytes[k] == if f.position <= k < f.position + n then data[k - f.position]
                                   else if k < |f.bytes| then f.bytes[k] else 0)
            && (outcome.Success? && data != [] ==>
                  file.length == if file.position > f.length then file.position else f.length)
  {
  }

  /** Where a seek goes: counted from the start, from the position or from the cached length; a target before the start
      is refused and nothing moves. */
  lemma SeekGoes(f: FileState, offset: Int32)
    requires f.Valid()
    ensures forall origin :: FileStep(f, SeekOp(offset, origin)).1.bytes == []
    ensures FileStep(f, SeekOp(offset, SeekSet)).0 == if offset >= 0 then f.(position := offset) else f
    ensures FileStep(f, SeekOp(offset, SeekCur)).0 ==
            if f.position + offset >= 0 then f.(position := f.position + offset) else f
    ensures FileStep(f, SeekOp(offset, SeekEnd)).0 ==
            if f.length + offset >= 0 then f.(position := f.length + offset) else f
    ensures FileStep(f, SeekOp(offset, SeekSet)).1.result == (if offset < 0 then -1 else 0)
    ensures FileStep(f, SeekOp(offset, SeekCur)).1.result == (if f.position + offset < 0 then -1 else 0)
    ensures FileStep(f, SeekOp(offset, SeekEnd)).1.result == (if f.length + offset < 0 then -1 else 0)
  {
  }

  /** A write that succeeds although the kernel takes none of its bytes. */
  predicate WritesNothing(op: Op) { op.WriteOp? && op.data != [] && op.outcome == Success(0) }

  /** A synced file replies as the stream does and moves as the stream does. It stays synced except in one case: a write
      that transfers nothing, at a position past the end, makes the cached length too large. */
  lemma StepRefines(f: FileState, op: Op)
    requires f.Synced()
    ensures var (file, reply) := FileStep(f, op);
            && file.position >= 0 && (file.Stream(), reply) == StreamStep(f.Stream(), op)
            && (file.Synced() <==> !(WritesNothing(op) && f.position > f.length))
  {
  }

  /** The cached length is the real one now and after every operation of the run. */
  ghost predicate SyncedThroughout(f: FileState, ops: seq<Op>)
    requires f.Valid()
    decreases |ops|
  {
    && f.Synced()
    && (ops == [] ||
        (StepKeepsValid(f, ops[0]);
         SyncedThroughout(FileStep(f, ops[0]).0, ops[1..])))
  }

  /** Over a run of the stream, no write that transfers nothing happens past the end of the bytes. */
  ghost predicate NeverOverreaches(s: ByteStream, ops: seq<Op>)
    decreases |ops|
  {
    ops == [] ||
    (!(WritesNothing(ops[0]) && s.cursor > |s.bytes|) && NeverOverreaches(StreamStep(s, ops[0]).0, ops[1..]))
  }

  /** The file layer refines the stream: the cached length is the real one all through a run exactly when the same run
      of the stream never makes an empty write past the end, and then every reply, the bytes and the cursor are the
      stream's. */
  lemma {:induction false} FilesRefineStreams(f: FileState, ops: seq<Op>)
    requires f.Synced()
    ensures SyncedThroughout(f, ops) <==> NeverOverreaches(f.Stream(), ops)
    ensures NeverOverreaches(f.Stream(), ops) ==>
              var (file, replies) := RunFile(f, ops);
              file.Synced() && (file.Stream(), replies) == RunStream(f.Stream(), ops)
    decreases |ops|
  {
    if ops != [] {
      StepRefines(f, ops[0]);
      if !(WritesNothing(ops[0]) && f.position > f.length) {
        FilesRefineStreams(FileStep(f, ops[0]).0, ops[1..]);
      }
    }
  }

  /** The named case occurs: a write past the end that transfers nothing leaves a cached length that is not the real
      one, and seeking to the end then goes elsewhere than in the stream. */
  lemma AnEmptyWriteUnsyncs()
    ensures var f := FileState([], 1, 0);
            var op := WriteOp([0], Success(0));
            && f.Synced() && !FileStep(f, op).0.Synced()
            && RunFile(f, [op, SeekOp(0, SeekEnd)]).0.position == 1
            && RunStream(f.Stream(), [op, SeekOp(0, SeekEnd)]).0.cursor == 0
  {
    var f, op, seek := FileState([], 1, 0), WriteOp([0], Success(0)), SeekOp(0, SeekEnd);
    var next := FileStep(f, op).0;
    assert next == FileState([], 1, 1);
    RunUnfolds(f, op, [seek]);
    RunUnfolds(next, seek, []);
    assert RunStream(f.Stream(), [op, seek]).0 == RunStream(f.Stream(), [seek]).0;
  }

  /** Reading a positive count at the current position would return nothing even if the read does not fail. */
  ghost predicate ReadsNothing(f: FileState)
    requires f.Valid()
  {
    forall count: Int32 | count > 0 :: FileStep(f, ReadOp(count, false)).1.result == 0
  }

  /** End of file is reported exactly when a read would return nothing, if and only if the position is not between the
      cached and the real length; so it always is in a synced file. */
  lemma EofIsExact(f: FileState)
    requires f.Valid()
    ensures (Eof(f) <==> ReadsNothing(f)) <==>
            !(Min(f.length, |f.bytes|) <= f.position < Max(f.length, |f.bytes|))
    ensures f.Synced() ==> (Eof(f) <==> ReadsNothing(f))
  {
    assert ReadsNothing(f) <==> f.position >= |f.bytes| by {
      var one: Int32 := 1;
      assert FileStep(f, ReadOp(one, false)).1.result == if f.position >= |f.bytes| then 0 else 1;
    }
  }

  /** A file with bytes whose length could not be queried is at its end from the start, yet a read returns a byte. */
  lemma UnqueriedFileLooksEmpty(bytes: seq<bv8>)
    requires bytes != []
    ensures var f := FileState(bytes, 0, 0);
            Eof(f) && !ReadsNothing(f) && FileStep(f, ReadOp(1, false)).1 == Reply(1, bytes[..1])
  {
    var one: Int32 := 1;
    assert FileStep(FileState(bytes, 0, 0), ReadOp(one, false)).1.result == 1;
  }

  /** Telling a position and later seeking to it, from anywhere, succeeds and restores it exactly when it fits in 31
      bits. */
  lemma TellThenSeek(f: FileState, later: FileState)
    requires f.Valid() && later.Valid()
    ensures var (back, reply) := FileStep(later, SeekOp(Tell(f), SeekSet));
            reply.result == 0 && back.position == f.position <==> f.position < 0x8000_0000
  {
  }

  /** A file can be taken beyond 31 bits in two seeks, and what is told there cannot be sought. */
  lemma ToldPositionIsLost(f: FileState)
    requires f.Valid()
    ensures var far := FileStep(FileStep(f, SeekOp(0x7fff_ffff, SeekSet)).0, SeekOp(1, SeekCur)).0;
            far.position == 0x8000_0000 && FileStep(far, SeekOp(Tell(far), SeekSet)) == (far, Reply(-1, []))
  {
    var half := FileStep(f, SeekOp(0x7fff_ffff, SeekSet)).0;
    assert half.position == 0x7fff_ffff;
    var far := FileStep(half, SeekOp(1, SeekCur)).0;
    assert Tell(far) == -0x8000_0000;
  }

  /** Each operation moves the position and the length up by less than 2^31 in all, so no run of fewer than 2^32 - 1
      operations on a file shorter than 2^31 bytes leaves the range of a signed 64-bit integer. */
  lemma {:induction false} PositionIsBounded(f: FileState, ops: seq<Op>, bound: nat)
    requires f.Valid() && f.position <= bound && f.length <= bound
    requires forall i | 0 <= i < |ops| && ops[i].WriteOp? :: |ops[i].data| < 0x8000_0000
    ensures var file := RunFile(f, ops).0;
            0 <= file.position <= bound + |ops| * 0x8000_0000 && file.length <= bound + |ops| * 0x8000_0000
    decreases |ops|
  {
    if ops != [] {
      StepKeepsValid(f, ops[0]);
      PositionIsBounded(FileStep(f, ops[0]).0, ops[1..], bound + 0x8000_0000);
    }
  }

  // ---- Chunks ----

  function Concat(chunks: seq<seq<bv8>>): seq<bv8> { if chunks == [] then [] else chunks[0] + Concat(chunks[1..]) }

  /** Writes of which the kernel takes every byte. */
  function Writes(chunks: seq<seq<bv8>>): seq<Op> {
    if chunks == [] then [] else [WriteOp(chunks[0], Success(|chunks[0]|))] + Writes(chunks[1..])
  }

  function Reads(counts: seq<Int32>): seq<Op> {
    if counts == [] then [] else [ReadOp(counts[0], false)] + Reads(counts[1..])
  }

  /** The first step of a run. */
  lemma RunUnfolds(f: FileState, op: Op, ops: seq<Op>)
    requires f.Valid()
    ensures FileStep(f, op).0.Valid()
    ensures RunFile(f, [op] + ops).0 == RunFile(FileStep(f, op).0, ops).0
    ensures RunFile(f, [op] + ops).1 == [FileStep(f, op).1] + RunFile(FileStep(f, op).0, ops).1
  {
  }

  /** How much these reads ask for; a count that is not positive asks for nothing. */
  function Total(counts: seq<Int32>): nat {
    if counts == [] then 0 else (if counts[0] > 0 then counts[0] else 0) + Total(counts[1..])
  }

  function Received(replies: seq<Reply>): seq<bv8> {
    if replies == [] then [] else replies[0].bytes + Received(replies[1..])
  }

  lemma SplicedTwice(bytes: seq<bv8>, at: nat, a: seq<bv8>, b: seq<bv8>, i: nat)
    requires a != []
    ensures SplicedByte(Splice(bytes, at, a), at + |a|, b, i) == SplicedByte(bytes, at, a + b, i)
  {
  }

  lemma SpliceTwice(bytes: seq<bv8>, at: nat, a: seq<bv8>, b: seq<bv8>)
    ensures Splice(Splice(bytes, at, a), at + |a|, b) == Splice(bytes, at, a + b)
  {
    if a == [] {
      assert a + b == b;
    } else if b == [] {
      assert a + b == a;
    } else {
      var two, both := Splice(Splice(bytes, at, a), at + |a|, b), Splice(bytes, at, a + b);
      assert |two| == |both|;
      forall i: nat | i < |two| ensures two[i] == both[i] {
        SplicedTwice(bytes, at, a, b, i);
      }
      hide Splice;
      assert two == both;
    }
  }

  /** However data is cut into writes, what is stored is the data at the position where writing began. */
  lemma {:induction false} ChunksAreWritten(f: FileState, chunks: seq<seq<bv8>>)
    requires f.Valid()
    ensures var file, data := RunFile(f, Writes(chunks)).0, Concat(chunks);
            file.bytes == Splice(f.bytes, f.position, data) && file.position == f.position + |data|
    decreases |chunks|
  {
    hide RunFile, Writes, Splice, Concat;
    ConcatUnfolds(chunks);
    if chunks == [] {
      NothingIsWritten(f);
    } else {
      var next := FirstChunkIsWritten(f, chunks);
      ChunksAreWritten(next, chunks[1..]);
      SpliceTwice(f.bytes, f.position, chunks[0], Concat(chunks[1..]));
    }
  }

  lemma ConcatUnfolds(chunks: seq<seq<bv8>>)
    ensures Concat(chunks) == if chunks == [] then [] else chunks[0] + Concat(chunks[1..])
  {
  }

  lemma NothingIsWritten(f: FileState)
    requires f.Valid()
    ensures RunFile(f, Writes([])).0 == f && Splice(f.bytes, f.position, []) == f.bytes
  {
  }

  lemma FirstChunkIsWritten(f: FileState, chunks: seq<seq<bv8>>) returns (next: FileState)
    requires f.Valid() && chunks != []
    ensures next.Valid() && RunFile(f, Writes(chunks)).0 == RunFile(next, Writes(chunks[1..])).0
    ensures next.bytes == Splice(f.bytes, f.position, chunks[0]) && next.position == f.position + |chunks[0]|
  {
    var op := WriteOp(chunks[0], Success(|chunks[0]|));
    RunUnfolds(f, op, Writes(chunks[1..]));
    assert chunks[0][..|chunks[0]|] == chunks[0];
    next := FileStep(f, op).0;
  }

  /** However reads are cut, what they return, put together, is the bytes from the position on. */
  lemma {:induction false} ChunksAreRead(f: FileState, counts: seq<Int32>)
    requires f.Valid() && f.position + Total(counts) <= |f.bytes|
    ensures Received(RunFile(f, Reads(counts)).1) == f.bytes[f.position..f.position + Total(counts)]
    decreases |counts|
  {
    if counts != [] {
      var next := FirstChunkIsRead(f, counts);
      hide RunFile, Reads, Received, Total;
      ChunksAreRead(next, counts[1..]);
      TwoSlices(f.bytes, f.position, next.position, f.position + Total(counts));
    }
  }

  lemma TwoSlices(bytes: seq<bv8>, from: nat, at: nat, to: nat)
    requires from <= at <= to <= |bytes|
    ensures bytes[from..at] + bytes[at..to] == bytes[from..to]
  {
  }

  lemma FirstChunkIsRead(f: FileState, counts: seq<Int32>) returns (next: FileState)
    requires f.Valid() && counts != [] && f.position + Total(counts) <= |f.bytes|
    ensures next.Valid() && next.bytes == f.bytes
    ensures f.position <= next.position && next.position + Total(counts[1..]) == f.position + Total(counts)
    ensures Received(RunFile(f, Reads(counts)).1) ==
            f.bytes[f.position..next.position] + Received(RunFile(next, Reads(counts[1..])).1)
  {
    var op := ReadOp(counts[0], false);
    RunUnfolds(f, op, Reads(counts[1..]));
    next := FileStep(f, op).0;
  }

  /** Writing data in any chunks, seeking back to where writing began and reading it in any other chunks returns it. */
  lemma WriteSeekRead(f: FileState, chunks: seq<seq<bv8>>, counts: seq<Int32>)
    requires f.Valid() && f.position < 0x8000_0000 && Total(counts) == |Concat(chunks)|
    ensures var written := RunFile(f, Writes(chunks)).0;
            written.Valid() &&
            var back := FileStep(written, SeekOp(Tell(f), SeekSet)).0;
            back.Valid() && Received(RunFile(back, Reads(counts)).1) == Concat(chunks)
  {
    RunKeepsValid(f, Writes(chunks));
    ChunksAreWritten(f, chunks);
    var written := RunFile(f, Writes(chunks)).0;
    TellThenSeek(f, written);
    var back := FileStep(written, SeekOp(Tell(f), SeekSet)).0;
    if Concat(chunks) != [] {
      ChunksAreRead(back, counts);
    } else {
      NothingIsRead(back, counts);
    }
  }

  lemma {:induction false} RunKeepsValid(f: FileState, ops: seq<Op>)
    requires f.Valid()
    ensures RunFile(f, ops).0.Valid()
    decreases |ops|
  {
    if ops != [] {
      StepKeepsValid(f, ops[0]);
      RunKeepsValid(FileStep(f, ops[0]).0, ops[1..]);
    }
  }

  lemma {:induction false} NothingIsRead(f: FileState, counts: seq<Int32>)
    requires f.Valid() && Total(counts) == 0
    ensures Received(RunFile(f, Reads(counts)).1) == []
    decreases |counts|
  {
    if counts != [] {
      RunUnfolds(f, ReadOp(counts[0], false), Reads(counts[1..]));
      NothingIsRead(f, counts[1..]);
    }
  }
}
