/** What callers rely on when they replay a stored body, whatever calls came before: the whole content on request, the
    same bytes again after a rewind, a reader of their own at the first byte, and nothing after the close. */
module BodyStreamLaws {
  import opened ByteTypes
  import opened BodyStream

  /** A storage just created with `data`. */
  function Created(data: seq<Byte>): State {
    State(data, Cursor(0, false), [])
  }

  lemma {:induction false} ContentStays(kind: Kind, s: State, ops: seq<Op>)
    ensures After(kind, s, ops).content == s.content
    decreases |ops|
  {
    if ops != [] {
      ContentStays(kind, Step(kind, s, ops[0]).0, ops[1..]);
    }
  }

  /** Only a close closes a storage, and it stays closed. */
  lemma {:induction false} ClosedExactly(kind: Kind, s: State, ops: seq<Op>)
    ensures After(kind, s, ops).own.closed <==> s.own.closed || Close in ops
    decreases |ops|
  {
    if ops != [] {
      ClosedExactly(kind, Step(kind, s, ops[0]).0, ops[1..]);
      assert ops == [ops[0]] + ops[1..];
    }
  }

  /** After any calls `Bytes` returns the data the storage was created with and disturbs no cursor, unless a close came
      before; then it fails, as do reads, seeks and new readers, and a further close changes nothing. */
  lemma BytesIsData(kind: Kind, data: seq<Byte>, ops: seq<Op>)
    ensures var s := After(kind, Created(data), ops);
      if Close !in ops then Step(kind, s, Bytes) == (s, All(data))
      else
        && Step(kind, s, Close) == (s, Done)
        && forall op: Op :: op.Read? || op.Seek? || op.Bytes? || op.NewReader? ==>
             Step(kind, s, op) == (s, Failed(StorageClosed))
  {
    ContentStays(kind, Created(data), ops);
    ClosedExactly(kind, Created(data), ops);
  }

  // ----- reading in pieces -----

  /** The bytes in these answers, put together. */
  function BytesIn(outs: seq<Out>): seq<Byte> {
    if outs == [] then [] else (if outs[0].Data? then outs[0].chunk.bytes else []) + BytesIn(outs[1..])
  }

  function Reads(sizes: seq<nat>): (ops: seq<Op>)
    ensures |ops| == |sizes|
  {
    seq(|sizes|, i requires 0 <= i < |sizes| => Op.Read(sizes[i]))
  }

  function ReadsFrom(reader: nat, sizes: seq<nat>): (ops: seq<Op>)
    ensures |ops| == |sizes|
  {
    seq(|sizes|, i requires 0 <= i < |sizes| => Op.ReadFrom(reader, sizes[i]))
  }

  lemma {:induction false} ReadsCollect(kind: Kind, s: State, sizes: seq<nat>)
    requires !s.own.closed
    ensures BytesIn(Answers(kind, s, Reads(sizes))) == Collected(kind, s.content, s.own.pos, sizes)
    decreases |sizes|
  {
    if sizes != [] {
      var ops := Reads(sizes);
      assert ops[1..] == Reads(sizes[1..]) && ops[0] == Op.Read(sizes[0]);
      ReadsCollect(kind, Step(kind, s, ops[0]).0, sizes[1..]);
      hide ReadAt;
      var outs := Answers(kind, s, ops);
      assert outs[1..] == Answers(kind, Step(kind, s, ops[0]).0, ops[1..]);
    }
  }

  /** A reader that can be read: a memory reader always, a file until it is closed. */
  predicate Readable(kind: Kind, s: State, i: nat) {
    i < |s.readers| && (kind.Memory? || !s.readers[i].closed)
  }

  lemma {:induction false} ReaderCollects(kind: Kind, s: State, i: nat, sizes: seq<nat>)
    requires Readable(kind, s, i)
    ensures BytesIn(Answers(kind, s, ReadsFrom(i, sizes))) == Collected(kind, s.content, s.readers[i].pos, sizes)
    decreases |sizes|
  {
    if sizes != [] {
      var ops := ReadsFrom(i, sizes);
      assert ops[1..] == ReadsFrom(i, sizes[1..]) && ops[0] == Op.ReadFrom(i, sizes[0]);
      ReaderCollects(kind, Step(kind, s, ops[0]).0, i, sizes[1..]);
      hide ReadAt;
      var outs := Answers(kind, s, ops);
      assert outs[1..] == Answers(kind, Step(kind, s, ops[0]).0, ops[1..]);
    }
  }

  /** The first bytes of `data` that reads of these sizes ask for. */
  function FirstBytes(kind: Kind, data: seq<Byte>, sizes: seq<nat>): seq<Byte> {
    data[..AtMost(Total(kind, sizes), |data|)]
  }

  lemma CollectedFromStart(kind: Kind, data: seq<Byte>, sizes: seq<nat>)
    requires WithinPositions(kind, data)
    ensures Collected(kind, data, 0, sizes) == FirstBytes(kind, data, sizes)
  {
    CollectedIsContent(kind, data, 0, sizes);
  }

  /** A rewound body reads from its first byte again, whatever calls came before. */
  lemma RewindReplays(kind: Kind, data: seq<Byte>, ops: seq<Op>, sizes: seq<nat>)
    requires Close !in ops && WithinPositions(kind, data)
    ensures var s := After(kind, Created(data), ops);
      var rewound := Step(kind, s, Seek(0, 0));
      rewound.1 == At(0) && BytesIn(Answers(kind, rewound.0, Reads(sizes))) == FirstBytes(kind, data, sizes)
  {
    ContentStays(kind, Created(data), ops);
    ClosedExactly(kind, Created(data), ops);
    var s := After(kind, Created(data), ops);
    hide After, Answers, Collected, Total;
    ReadsCollect(kind, Step(kind, s, Seek(0, 0)).0, sizes);
    CollectedFromStart(kind, data, sizes);
  }

  /** A new reader delivers the body from its first byte, whatever was called before it was handed out and whatever is
      called on the storage and other readers after, closing the storage included. */
  lemma NewReaderReplays(kind: Kind, data: seq<Byte>, before: seq<Op>, between: seq<Op>, sizes: seq<nat>)
    requires Close !in before && WithinPositions(kind, data)
    requires var i := |After(kind, Created(data), before).readers|;
      forall j :: 0 <= j < |between| ==> !Touches(between[j], i)
    ensures var s := After(kind, Created(data), before);
      var (handed, out) := Step(kind, s, NewReader);
      && out == Opened(|s.readers|)
      && BytesIn(Answers(kind, After(kind, handed, between), ReadsFrom(|s.readers|, sizes)))
         == FirstBytes(kind, data, sizes)
  {
    ContentStays(kind, Created(data), before);
    ClosedExactly(kind, Created(data), before);
    var s := After(kind, Created(data), before);
    var handed, i := Step(kind, s, NewReader).0, |s.readers|;
    ReadersIndependent(kind, handed, between, i);
    hide After, Answers, Collected, Total;
    ReaderCollects(kind, After(kind, handed, between), i, sizes);
    CollectedFromStart(kind, data, sizes);
  }

  // ----- the end of the content -----

  /** A read into a buffer reports the end of the file exactly at the end, and else delivers a byte at least. */
  lemma EndExactly(kind: Kind, content: seq<Byte>, pos: nat, n: nat)
    requires n > 0 && (kind.Memory? || pos + AtMost(n, MAX_READ) <= MAX_INT64)
    ensures var c := ReadAt(kind, content, pos, n);
      && (c.err == Eof <==> pos >= |content|) && (c.err == Nil <==> c.bytes != [])
      && (c.err == Eof || c.err == Nil)
  {
  }

  /** What reading with one buffer until the end of the file returns, as `io.ReadAll` does. */
  ghost function ReadToEnd(kind: Kind, content: seq<Byte>, pos: nat, n: nat): seq<Byte>
    decreases if pos < |content| then |content| - pos else 0
  {
    var c := ReadAt(kind, content, pos, n);
    if c.err != Nil || c.bytes == [] then [] else c.bytes + ReadToEnd(kind, content, Advance(pos, c), n)
  }

  lemma {:induction false} ReadToEndIsRest(kind: Kind, content: seq<Byte>, pos: nat, n: nat)
    requires n > 0 && pos <= |content| && WithinPositions(kind, content)
    ensures ReadToEnd(kind, content, pos, n) == content[pos..]
    decreases |content| - pos
  {
    EndExactly(kind, content, pos, n);
    if pos < |content| {
      var c := ReadAt(kind, content, pos, n);
      OnePiece(kind, content, pos, n);
      ReadToEndIsRest(kind, content, Advance(pos, c), n);
      hide ReadAt;
      Glue(content, pos, Advance(pos, c), |content|);
      assert content[pos..] == content[pos..|content|];
      assert content[Advance(pos, c)..] == content[Advance(pos, c)..|content|];
    }
  }

  // ----- seeking -----

  lemma {:induction false} PositionFits(kind: Kind, s: State, ops: seq<Op>)
    requires |s.content| <= MAX_INT64 && s.own.pos <= MAX_INT64
    ensures After(kind, s, ops).own.pos <= MAX_INT64
    decreases |ops|
  {
    if ops != [] {
      PositionFits(kind, Step(kind, s, ops[0]).0, ops[1..]);
    }
  }

  lemma WrapSum(a: nat, offset: Int64)
    requires a <= MAX_INT64
    ensures if 0 <= a + offset <= MAX_INT64 then Wrap(a + offset) == a + offset else Wrap(a + offset) < 0
  {
  }

  /** What whence 0, 1 and 2 count from. */
  function Base(s: State, whence: int): nat {
    if whence == 0 then 0 else if whence == 1 then s.own.pos else |s.content|
  }

  ghost predicate SeekLaw(kind: Kind, s: State, offset: Int64, whence: int) {
    var (r, out) := Step(kind, s, Seek(offset, whence));
    var target := Base(s, whence) + offset;
    if 0 <= whence <= 2 && 0 <= target <= MAX_INT64 then out == At(target) && r == s.(own := Cursor(target, false))
    else if 0 <= whence <= 2 || !SeeksHoles(kind, s.content, offset, whence) then out == Failed(BadSeek) && r == s
    else out == At(if whence == 3 then offset else |s.content|)
  }

  lemma SeekHolds(kind: Kind, s: State, offset: Int64, whence: int)
    requires |s.content| <= MAX_INT64 && s.own.pos <= MAX_INT64 && !s.own.closed
    ensures SeekLaw(kind, s, offset, whence)
  {
    WrapSum(s.own.pos, offset);
    WrapSum(|s.content|, offset);
    hide Wrap;
  }

  lemma ReadsFromCursor(kind: Kind, s: State, n: nat)
    requires !s.own.closed
    ensures Step(kind, s, Op.Read(n)).1 == Data(ReadAt(kind, s.content, s.own.pos, n))
  {
  }

  /** After any calls a seek from the start, the cursor or the end leads to that point plus the offset, so that the next
      read delivers the bytes from there on; a seek to before the start or beyond the last 64-bit position fails and
      leaves the cursor; and any other whence fails, but for the search for data or a hole in a file. */
  lemma SeekThenRead(kind: Kind, data: Payload, ops: seq<Op>, offset: Int64, whence: int, n: nat)
    requires Close !in ops
    ensures var s := After(kind, Created(data), ops);
      && SeekLaw(kind, s, offset, whence)
      && var target := Base(s, whence) + offset;
         (0 <= whence <= 2 && 0 <= target <= MAX_INT64 ==>
            Step(kind, Step(kind, s, Seek(offset, whence)).0, Op.Read(n)).1 == Data(ReadAt(kind, data, target, n)))
  {
    ContentStays(kind, Created(data), ops);
    ClosedExactly(kind, Created(data), ops);
    PositionFits(kind, Created(data), ops);
    var s := After(kind, Created(data), ops);
    hide After, ReadAt, Step;
    SeekHolds(kind, s, offset, whence);
    var target := Base(s, whence) + offset;
    if 0 <= whence <= 2 && 0 <= target <= MAX_INT64 {
      ReadsFromCursor(kind, s.(own := Cursor(target, false)), n);
    }
  }
}
