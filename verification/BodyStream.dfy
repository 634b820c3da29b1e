/** The replayable request body of common/body_storage.go as one abstract stream, with the two ways its
    implementations read and seek. */
module BodyStream {
  import opened ByteTypes

  datatype Kind = Memory | Disk

  /** What a caller sees of a failed or finished call. */
  datatype Err = Nil | Eof | StorageClosed | FileClosed | BadSeek | BadRead | NoReader

  /** A cursor over content that never changes: a storage's own, or that of a reader it handed out. */
  datatype Cursor = Cursor(pos: nat, closed: bool)

  datatype Chunk = Chunk(bytes: seq<Byte>, err: Err)

  function AtMost(a: nat, b: nat): nat {
    if a < b then a else b
  }

  /** The most that Go asks the system for in one read of a file. */
  const MAX_READ := 0x4000_0000

  /** Up to `n` bytes from `pos`. At the end a `bytes.Reader` reports end of file even for an empty buffer.
      An `os.File` answers a read into an empty buffer without looking, cuts longer buffers to `MAX_READ`,
      and is refused by Linux when position and length add up to more than a 64-bit position. */
  function ReadAt(kind: Kind, content: seq<Byte>, pos: nat, n: nat): Chunk {
    if kind.Disk? && n == 0 then Chunk([], Nil)
    else if kind.Disk? && pos + Asked(kind, n) > MAX_INT64 then Chunk([], BadRead)
    else if pos >= |content| then Chunk([], Eof)
    else Chunk(content[pos..AtMost(pos + Asked(kind, n), |content|)], Nil)
  }

  function Asked(kind: Kind, n: nat): nat {
    if kind.Disk? then AtMost(n, MAX_READ) else n
  }

  function Advance(pos: nat, c: Chunk): nat {
    pos + |c.bytes|
  }

  /** Where a seek leads, negative if it fails. Whence 0, 1 and 2 count from the start, the cursor and the
      end, in 64-bit arithmetic. A `bytes.Reader` knows no other whence; an `os.File` passes 3 and 4 on to
      Linux, which looks for data and for a hole from the offset on: a file written in one piece has data
      up to its end and its only hole there. */
  function SeekTarget(kind: Kind, content: seq<Byte>, pos: nat, offset: Int64, whence: int): int {
    if whence == 0 then offset
    else if whence == 1 then Wrap(pos + offset)
    else if whence == 2 then Wrap(|content| + offset)
    else if SeeksHoles(kind, content, offset, whence) then (if whence == 3 then offset else |content|)
    else -1
  }

  predicate SeeksHoles(kind: Kind, content: seq<Byte>, offset: Int64, whence: int) {
    kind.Disk? && (whence == 3 || whence == 4) && 0 <= offset < |content|
  }

  // ----- two implementations of one interface -----

  datatype Op =
    | Read(n: nat)
    | Seek(offset: Int64, whence: int)
    | Bytes
    | NewReader
    | Close
    | ReadFrom(reader: nat, n: nat)
    | CloseReader(reader: nat)

  datatype Out =
    | Data(chunk: Chunk) | At(pos: nat) | All(bytes: seq<Byte>) | Opened(reader: nat) | Done | Failed(err: Err)

  datatype State = State(content: seq<Byte>, own: Cursor, readers: seq<Cursor>)

  function Step(kind: Kind, s: State, op: Op): (State, Out) {
    if op.Close? then (s.(own := s.own.(closed := true)), Done)
    else if op.ReadFrom? || op.CloseReader? then ReaderStep(kind, s, op)
    else if s.own.closed then (s, Failed(StorageClosed))
    else if op.Read? then
      var c := ReadAt(kind, s.content, s.own.pos, op.n);
      (s.(own := s.own.(pos := Advance(s.own.pos, c))), Data(c))
    else if op.Seek? then
      var target := SeekTarget(kind, s.content, s.own.pos, op.offset, op.whence);
      if target < 0 then (s, Failed(BadSeek)) else (s.(own := s.own.(pos := target)), At(target))
    else if op.Bytes? then (s, All(s.content))
    else (s.(readers := s.readers + [Cursor(0, false)]), Opened(|s.readers|))
  }

  /** A call on a reader. Closing a memory reader does nothing; a closed file can be neither read nor closed. */
  function ReaderStep(kind: Kind, s: State, op: Op): (State, Out)
    requires op.ReadFrom? || op.CloseReader?
  {
    var i := op.reader;
    if i >= |s.readers| then (s, Failed(NoReader))
    else if kind.Disk? && s.readers[i].closed then (s, Failed(FileClosed))
    else if op.CloseReader? then (s.(readers := s.readers[i := s.readers[i].(closed := true)]), Done)
    else
      var c := ReadAt(kind, s.content, s.readers[i].pos, op.n);
      (s.(readers := s.readers[i := s.readers[i].(pos := Advance(s.readers[i].pos, c))]), Data(c))
  }

  /** The answers to a sequence of calls. */
  function Answers(kind: Kind, s: State, ops: seq<Op>): seq<Out>
    decreases |ops|
  {
    if ops == [] then [] else [Step(kind, s, ops[0]).1] + Answers(kind, Step(kind, s, ops[0]).0, ops[1..])
  }

  /** The reads on which a `bytes.Reader` and an `os.File` differ: into an empty buffer at the end, of more
      than `MAX_READ` bytes that are there, and beyond the last 64-bit position. */
  predicate ReadDiffers(content: seq<Byte>, pos: nat, n: nat) {
    || (n == 0 && pos >= |content|)
    || (n > MAX_READ && |content| - pos > MAX_READ)
    || (n > 0 && pos + AtMost(n, MAX_READ) > MAX_INT64)
  }

  /** The calls on which the implementations differ: those reads, any call on a reader the caller has closed,
      and a seek for data or a hole inside the content. */
  predicate Differs(s: State, op: Op) {
    match op
    case Read(n) => !s.own.closed && ReadDiffers(s.content, s.own.pos, n)
    case Seek(offset, whence) => !s.own.closed && SeeksHoles(Disk, s.content, offset, whence)
    case ReadFrom(i, n) =>
      i < |s.readers| && (s.readers[i].closed || ReadDiffers(s.content, s.readers[i].pos, n))
    case CloseReader(i) => i < |s.readers| && s.readers[i].closed
    case _ => false
  }

  predicate NeverDiffers(s: State, ops: seq<Op>)
    decreases |ops|
  {
    ops == [] || (!Differs(s, ops[0]) && NeverDiffers(Step(Memory, s, ops[0]).0, ops[1..]))
  }

  lemma ReadsAgree(content: seq<Byte>, pos: nat, n: nat)
    ensures ReadAt(Memory, content, pos, n) == ReadAt(Disk, content, pos, n) <==> !ReadDiffers(content, pos, n)
  {
    if pos < |content| && n > MAX_READ && |content| - pos > MAX_READ {
      assert |ReadAt(Memory, content, pos, n).bytes| > MAX_READ;
      assert |ReadAt(Disk, content, pos, n).bytes| <= MAX_READ;
    }
  }

  lemma StepsAgree(s: State, op: Op)
    ensures Differs(s, op) ==> Step(Memory, s, op).1 != Step(Disk, s, op).1
    ensures !Differs(s, op) ==> Step(Memory, s, op) == Step(Disk, s, op)
  {
    hide ReadAt, ReadDiffers;
    match op
    case Read(n) => ReadsAgree(s.content, s.own.pos, n);
    case ReadFrom(i, n) =>
      if i < |s.readers| {
        ReadsAgree(s.content, s.readers[i].pos, n);
      }
    case _ =>
  }

  /** For every sequence of calls the two storages answer alike exactly when no call is one of those. */
  lemma {:induction false} StoragesAgree(s: State, ops: seq<Op>)
    ensures Answers(Memory, s, ops) == Answers(Disk, s, ops) <==> NeverDiffers(s, ops)
    decreases |ops|
  {
    if ops != [] {
      StepsAgree(s, ops[0]);
      var m, d := Answers(Memory, s, ops), Answers(Disk, s, ops);
      assert m[0] == Step(Memory, s, ops[0]).1 && d[0] == Step(Disk, s, ops[0]).1;
      if !Differs(s, ops[0]) {
        var next := Step(Memory, s, ops[0]).0;
        StoragesAgree(next, ops[1..]);
        assert m[1..] == Answers(Memory, next, ops[1..]) && d[1..] == Answers(Disk, next, ops[1..]);
      }
    }
  }

  /** Each kind of differing call on concrete storages: an empty read of an empty body, a read from a
      closed reader, a search for a hole, and a read of a body larger than `MAX_READ`. */
  lemma DifferingExamples(big: seq<Byte>)
    requires |big| == MAX_READ + 1
    ensures var empty, one := State([], Cursor(0, false), []), State([7], Cursor(0, false), []);
      && Answers(Memory, empty, [Read(0)]) != Answers(Disk, empty, [Read(0)])
      && (var ops := [NewReader, CloseReader(0), ReadFrom(0, 1)]; Answers(Memory, one, ops) != Answers(Disk, one, ops))
      && Answers(Memory, one, [Seek(0, 4)]) != Answers(Disk, one, [Seek(0, 4)])
      && (var s := State(big, Cursor(0, false), []);
          Answers(Memory, s, [Read(|big|)]) != Answers(Disk, s, [Read(|big|)]))
  {
    var empty, one := State([], Cursor(0, false), []), State([7], Cursor(0, false), []);
    var s := State(big, Cursor(0, false), []);
    assert Differs(empty, Read(0)) && Differs(one, Seek(0, 4)) && Differs(s, Read(|big|));
    StoragesAgree(empty, [Read(0)]);
    StoragesAgree(one, [Seek(0, 4)]);
    StoragesAgree(s, [Read(|big|)]);
    var ops := [NewReader, CloseReader(0), ReadFrom(0, 1)];
    var handed := Step(Memory, one, NewReader).0;
    var shut := Step(Memory, handed, CloseReader(0)).0;
    assert Differs(shut, ReadFrom(0, 1));
    assert ops[1..] == [CloseReader(0), ReadFrom(0, 1)] && ops[1..][1..] == [ReadFrom(0, 1)];
    assert !NeverDiffers(shut, [ReadFrom(0, 1)]);
    assert !NeverDiffers(handed, ops[1..]);
    StoragesAgree(one, ops);
  }

  /** The state after a sequence of calls. */
  function After(kind: Kind, s: State, ops: seq<Op>): State
    decreases |ops|
  {
    if ops == [] then s else After(kind, Step(kind, s, ops[0]).0, ops[1..])
  }

  /** A call that concerns reader `i`. */
  predicate Touches(op: Op, i: nat) {
    (op.ReadFrom? || op.CloseReader?) && op.reader == i
  }

  /** Readers are independent: whatever is called on the storage or on other readers, closing the storage
      included, reader `i` keeps its cursor, and the content never changes. */
  lemma {:induction false} ReadersIndependent(kind: Kind, s: State, ops: seq<Op>, i: nat)
    requires i < |s.readers| && forall j :: 0 <= j < |ops| ==> !Touches(ops[j], i)
    ensures var r := After(kind, s, ops);
            r.content == s.content && i < |r.readers| && r.readers[i] == s.readers[i]
    decreases |ops|
  {
    if ops != [] {
      assert !Touches(ops[0], i);
      ReadersIndependent(kind, Step(kind, s, ops[0]).0, ops[1..], i);
    }
  }

  // ----- reading to the end -----

  /** What reads with buffers of these sizes return, put together. */
  ghost function Collected(kind: Kind, content: seq<Byte>, pos: nat, sizes: seq<nat>): seq<Byte>
    decreases |sizes|
  {
    if sizes == [] then []
    else
      var c := ReadAt(kind, content, pos, sizes[0]);
      c.bytes + Collected(kind, content, Advance(pos, c), sizes[1..])
  }

  /** What those reads ask for altogether. */
  function Total(kind: Kind, sizes: seq<nat>): nat {
    if sizes == [] then 0 else Asked(kind, sizes[0]) + Total(kind, sizes[1..])
  }

  /** No read inside the content can pass the last 64-bit position. */
  predicate WithinPositions(kind: Kind, content: seq<Byte>) {
    kind.Memory? || |content| + MAX_READ <= MAX_INT64
  }

  /** However a body is read in pieces, the pieces are the content from the cursor on, in order; and they are
      as much of it as was asked for unless a read passes the last 64-bit position. */
  lemma {:induction false} CollectedIsContent(kind: Kind, content: seq<Byte>, pos: nat, sizes: seq<nat>)
    requires pos <= |content|
    ensures var got := Collected(kind, content, pos, sizes);
      && pos + |got| <= |content| && got == content[pos..pos + |got|]
      && (WithinPositions(kind, content) ==> pos + |got| == AtMost(pos + Total(kind, sizes), |content|))
    decreases |sizes|
  {
    if sizes != [] {
      var c := ReadAt(kind, content, pos, sizes[0]);
      var mid := Advance(pos, c);
      OnePiece(kind, content, pos, sizes[0]);
      CollectedIsContent(kind, content, mid, sizes[1..]);
      var rest := Collected(kind, content, mid, sizes[1..]);
      assert Collected(kind, content, pos, sizes) == c.bytes + rest;
      assert Total(kind, sizes) == Asked(kind, sizes[0]) + Total(kind, sizes[1..]);
      hide Collected, ReadAt, Total, Asked;
      Glue(content, pos, mid, mid + |rest|);
    }
  }

  lemma Glue(content: seq<Byte>, a: nat, b: nat, c: nat)
    requires a <= b <= c <= |content|
    ensures content[a..b] + content[b..c] == content[a..c]
  {
  }

  lemma OnePiece(kind: Kind, content: seq<Byte>, pos: nat, n: nat)
    requires pos <= |content|
    ensures var c := ReadAt(kind, content, pos, n);
      && Advance(pos, c) <= |content| && c.bytes == content[pos..Advance(pos, c)]
      && (WithinPositions(kind, content) ==> Advance(pos, c) == AtMost(pos + Asked(kind, n), |content|))
  {
  }
}
