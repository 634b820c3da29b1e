/** The two body storages of common/body_storage.go in their own form: cursors, closed flags and file
    positions changed by methods, with the usage counters updated on create and close. The mutexes make
    each method one atomic step; files are modelled by their content and descriptors on it. */
module BodyStorage {
  import opened ByteTypes
  import opened OrderedSets
  import opened BodyStream
  import opened UsageCounters

  class UsageStats {
    var counters: Counters
    var diskHits: int
    var memoryHits: int

    constructor ()
      ensures counters == Counters(0, 0, 0, 0) && diskHits == 0 && memoryHits == 0
    {
      counters, diskHits, memoryHits := Counters(0, 0, 0, 0), 0, 0;
    }

    method IncrementDiskFiles(size: nat)
      modifies `counters
      ensures counters == Increment(old(counters), Disk, size)
    {
      counters := counters.(diskFiles := counters.diskFiles + 1);
      counters := counters.(diskBytes := counters.diskBytes + size);
    }

    method DecrementDiskFiles(size: nat)
      modifies `counters
      ensures counters == Decrement(old(counters), Disk, size)
    {
      counters := counters.(diskFiles := counters.diskFiles - 1);
      if counters.diskFiles < 0 {
        counters := counters.(diskFiles := 0);
      }
      counters := counters.(diskBytes := counters.diskBytes - size);
      if counters.diskBytes < 0 {
        counters := counters.(diskBytes := 0);
      }
    }

    method IncrementMemoryBuffers(size: nat)
      modifies `counters
      ensures counters == Increment(old(counters), Memory, size)
    {
      counters := counters.(memoryBuffers := counters.memoryBuffers + 1);
      counters := counters.(memoryBytes := counters.memoryBytes + size);
    }

    method DecrementMemoryBuffers(size: nat)
      modifies `counters
      ensures counters == Decrement(old(counters), Memory, size)
    {
      counters := counters.(memoryBuffers := counters.memoryBuffers - 1);
      counters := counters.(memoryBytes := counters.memoryBytes - size);
    }
  }

  /** `bytes.Reader` (kind Memory, handed out inside an `io.NopCloser`) or `os.File` (kind Disk) over fixed
      content. For a `bytes.Reader` `closed` only notes that the caller closed it: no read looks at it. */
  class Descriptor {
    const kind: Kind
    const content: Payload
    var pos: nat
    var closed: bool

    constructor (kind: Kind, content: Payload)
      ensures this.kind == kind && this.content == content && pos == 0 && !closed
    {
      this.kind := kind;
      this.content := content;
      pos, closed := 0, false;
    }

    method Read(n: nat) returns (out: Out)
      modifies `pos
      ensures kind.Disk? && closed ==> out == Failed(FileClosed) && pos == old(pos)
      ensures !(kind.Disk? && closed) ==>
        && out == Data(ReadAt(kind, content, old(pos), n))
        && pos == Advance(old(pos), ReadAt(kind, content, old(pos), n))
    {
      if kind.Disk? && closed {
        return Failed(FileClosed);
      }
      if kind.Disk? && n == 0 {
        return Data(Chunk([], Nil));
      }
      if kind.Disk? && pos + Asked(kind, n) > MAX_INT64 {
        return Data(Chunk([], BadRead));
      }
      if pos >= |content| {
        return Data(Chunk([], Eof));
      }
      var end := AtMost(pos + Asked(kind, n), |content|);
      out := Data(Chunk(content[pos..end], Nil));
      pos := end;
    }

    method Seek(offset: Int64, whence: int) returns (at: int)
      requires !closed
      modifies `pos
      ensures at == SeekTarget(kind, content, old(pos), offset, whence)
      ensures pos == if at < 0 then old(pos) else at
    {
      at := SeekTarget(kind, content, pos, offset, whence);
      if at >= 0 {
        pos := at;
      }
    }

    method Close() returns (out: Out)
      modifies `closed
      ensures closed && out == if kind.Disk? && old(closed) then Failed(FileClosed) else Done
    {
      if kind.Disk? && closed {
        return Failed(FileClosed);
      }
      closed := true;
      return Done;
    }

    /** `io.ReadFull`: reads until `n` bytes are there or the content ends. */
    method ReadFull(n: nat) returns (bytes: seq<Byte>)
      requires !closed && pos + n <= |content|
      modifies `pos
      ensures bytes == content[old(pos)..old(pos) + n] && pos == old(pos) + n
    {
      bytes := [];
      while |bytes| < n
        invariant |bytes| <= n && pos == old(pos) + |bytes|
        invariant bytes == content[old(pos)..pos]
      {
        ghost var mid := pos;
        var out := Read(n - |bytes|);
        assert out.chunk.bytes == content[mid..pos];
        assert content[old(pos)..pos] == content[old(pos)..mid] + content[mid..pos];
        bytes := bytes + out.chunk.bytes;
      }
    }
  }

  /** The cursors of the readers handed out. */
  ghost function Cursors(readers: seq<Descriptor>): (s: seq<Cursor>)
    reads readers
    ensures |s| == |readers|
  {
    seq(|readers|, i requires 0 <= i < |readers| reads readers => Cursor(readers[i].pos, readers[i].closed))
  }

  /** Readers that share nothing but the content. */
  ghost predicate HandedOut(readers: seq<Descriptor>, kind: Kind, content: seq<Byte>) {
    Distinct(readers) && forall r :: r in readers ==> r.kind == kind && r.content == content
  }

  class MemoryStorage {
    const data: Payload
    const reader: Descriptor
    const size: nat
    var closed: bool
    const stats: UsageStats
    ghost var readers: seq<Descriptor>

    ghost predicate Valid()
      reads this, reader
    {
      && reader.kind == Memory && reader.content == data && size == |data| && !reader.closed
      && HandedOut(readers, Memory, data) && reader !in readers
    }

    ghost function View(): State
      reads this, reader, readers
    {
      State(data, Cursor(reader.pos, closed), Cursors(readers))
    }

    constructor (data: Payload, stats: UsageStats)
      modifies stats`counters
      ensures Valid() && fresh(reader) && readers == [] && this.stats == stats
      ensures View() == State(data, Cursor(0, false), [])
      ensures stats.counters == Increment(old(stats.counters), Memory, |data|)
    {
      this.data := data;
      this.stats := stats;
      size := |data|;
      reader := new Descriptor(Memory, data);
      closed := false;
      readers := [];
      new;
      stats.IncrementMemoryBuffers(|data|);
    }

    method Read(n: nat) returns (out: Out)
      requires Valid()
      modifies reader`pos
      ensures Valid() && (View(), out) == Step(Memory, old(View()), Op.Read(n))
    {
      if closed {
        return Failed(StorageClosed);
      }
      out := reader.Read(n);
      assert Cursors(readers) == old(Cursors(readers));
    }

    method Seek(offset: Int64, whence: int) returns (out: Out)
      requires Valid()
      modifies reader`pos
      ensures Valid() && (View(), out) == Step(Memory, old(View()), Op.Seek(offset, whence))
    {
      if closed {
        return Failed(StorageClosed);
      }
      var at := reader.Seek(offset, whence);
      assert Cursors(readers) == old(Cursors(readers));
      return if at < 0 then Failed(BadSeek) else At(at);
    }

    /** The first close gives the bytes back to the counters; later ones do nothing. */
    method Close() returns (out: Out)
      requires Valid()
      modifies `closed, stats`counters
      ensures Valid() && (View(), out) == Step(Memory, old(View()), Op.Close)
      ensures stats.counters
           == if old(closed) then old(stats.counters) else Decrement(old(stats.counters), Memory, size)
    {
      if !closed {
        closed := true;
        stats.DecrementMemoryBuffers(size);
      }
      assert Cursors(readers) == old(Cursors(readers));
      return Done;
    }

    method Bytes() returns (out: Out)
      requires Valid()
      ensures (View(), out) == Step(Memory, View(), Op.Bytes)
    {
      return if closed then Failed(StorageClosed) else All(data);
    }

    /** A reader of its own over the same bytes; null once the storage is closed. */
    method NewReader() returns (r: Descriptor?, ghost out: Out)
      requires Valid()
      modifies `readers
      ensures Valid() && (View(), out) == Step(Memory, old(View()), Op.NewReader)
      ensures r == null <==> closed
      ensures r != null ==> fresh(r) && readers == old(readers) + [r]
    {
      if closed {
        return null, Failed(StorageClosed);
      }
      r := new Descriptor(Memory, data);
      out := Opened(|readers|);
      readers := readers + [r];
      assert Cursors(readers) == old(Cursors(readers)) + [Cursor(0, false)];
    }

    /** A caller's read from reader number `i`, also after the storage or that reader was closed. */
    method ReadFrom(r: Descriptor, ghost i: nat, n: nat) returns (out: Out)
      requires Valid() && i < |readers| && readers[i] == r
      modifies r`pos
      ensures Valid() && (View(), out) == Step(Memory, old(View()), Op.ReadFrom(i, n))
    {
      out := r.Read(n);
      assert Cursors(readers) == old(Cursors(readers))[i := Cursor(r.pos, r.closed)];
    }

    method CloseReader(r: Descriptor, ghost i: nat) returns (out: Out)
      requires Valid() && i < |readers| && readers[i] == r
      modifies r`closed
      ensures Valid() && (View(), out) == Step(Memory, old(View()), Op.CloseReader(i))
    {
      out := r.Close();
      assert Cursors(readers) == old(Cursors(readers))[i := Cursor(r.pos, r.closed)];
    }
  }

  /** The cache directory: the content behind each path that is still linked. */
  class CacheDir {
    var files: map<string, Payload>
  }

  class DiskStorage {
    const file: Descriptor
    const path: string
    const size: nat
    var closed: bool
    const stats: UsageStats
    const dir: CacheDir
    ghost var readers: seq<Descriptor>

    ghost predicate Valid()
      reads this, file, dir
    {
      && file.kind == Disk && size == |file.content| && file.pos <= MAX_INT64
      && (!closed ==> !file.closed && path in dir.files && dir.files[path] == file.content)
      && HandedOut(readers, Disk, file.content) && file !in readers
    }

    ghost function View(): State
      reads this, file, readers
    {
      State(file.content, Cursor(file.pos, closed), Cursors(readers))
    }

    /** Creation without a fault: the file is written, rewound and counted. */
    constructor (data: Payload, path: string, dir: CacheDir, stats: UsageStats)
      requires path !in dir.files
      modifies stats`counters, dir
      ensures Valid() && fresh(file) && readers == [] && View() == State(data, Cursor(0, false), [])
      ensures this.path == path && this.dir == dir && this.stats == stats
      ensures dir.files == old(dir.files)[path := data]
      ensures stats.counters == Increment(old(stats.counters), Disk, |data|)
    {
      this.path := path;
      this.dir := dir;
      this.stats := stats;
      size := |data|;
      file := new Descriptor(Disk, data);
      closed := false;
      readers := [];
      new;
      dir.files := dir.files[path := data];
      stats.IncrementDiskFiles(|data|);
    }

    method Read(n: nat) returns (out: Out)
      requires Valid()
      modifies file`pos
      ensures Valid() && (View(), out) == Step(Disk, old(View()), Op.Read(n))
    {
      if closed {
        return Failed(StorageClosed);
      }
      out := file.Read(n);
      assert Cursors(readers) == old(Cursors(readers));
    }

    method Seek(offset: Int64, whence: int) returns (out: Out)
      requires Valid()
      modifies file`pos
      ensures Valid() && (View(), out) == Step(Disk, old(View()), Op.Seek(offset, whence))
    {
      if closed {
        return Failed(StorageClosed);
      }
      var at := file.Seek(offset, whence);
      assert Cursors(readers) == old(Cursors(readers));
      return if at < 0 then Failed(BadSeek) else At(at);
    }

    /** The first close closes and unlinks the file and counts it out; later ones do nothing. Readers
        handed out before stay usable. */
    method Close() returns (out: Out)
      requires Valid()
      modifies `closed, file`closed, dir, stats`counters
      ensures Valid() && (View(), out) == Step(Disk, old(View()), Op.Close)
      ensures stats.counters == if old(closed) then old(stats.counters) else Decrement(old(stats.counters), Disk, size)
      ensures dir.files == if old(closed) then old(dir.files) else old(dir.files) - {path}
    {
      if !closed {
        closed := true;
        file.closed := true;
        dir.files := dir.files - {path};
        stats.DecrementDiskFiles(size);
      }
      assert Cursors(readers) == old(Cursors(readers));
      return Done;
    }

    /** Remembers the position, reads the whole file from the start, and goes back. */
    method Bytes() returns (out: Out)
      requires Valid()
      modifies file`pos
      ensures Valid() && (View(), out) == Step(Disk, old(View()), Op.Bytes)
    {
      if closed {
        return Failed(StorageClosed);
      }
      WrapFits(file.pos);
      hide Wrap, HandedOut;
      var currentPos := file.Seek(0, 1);
      var start := file.Seek(0, 0);
      var data := file.ReadFull(size);
      var back := file.Seek(currentPos, 0);
      assert data == file.content;
      assert Cursors(readers) == old(Cursors(readers));
      return All(data);
    }

    /** A descriptor of its own on the same file; null once the storage is closed. */
    method NewReader() returns (r: Descriptor?, ghost out: Out)
      requires Valid()
      modifies `readers
      ensures Valid() && (View(), out) == Step(Disk, old(View()), Op.NewReader)
      ensures r == null <==> closed
      ensures r != null ==> fresh(r) && readers == old(readers) + [r]
    {
      if closed {
        return null, Failed(StorageClosed);
      }
      r := new Descriptor(Disk, dir.files[path]);
      out := Opened(|readers|);
      readers := readers + [r];
      assert Cursors(readers) == old(Cursors(readers)) + [Cursor(0, false)];
    }

    /** A caller's read from reader number `i`, also after the storage was closed and its file unlinked. */
    method ReadFrom(r: Descriptor, ghost i: nat, n: nat) returns (out: Out)
      requires Valid() && i < |readers| && readers[i] == r
      modifies r`pos
      ensures Valid() && (View(), out) == Step(Disk, old(View()), Op.ReadFrom(i, n))
    {
      out := r.Read(n);
      assert Cursors(readers) == old(Cursors(readers))[i := Cursor(r.pos, r.closed)];
    }

    method CloseReader(r: Descriptor, ghost i: nat) returns (out: Out)
      requires Valid() && i < |readers| && readers[i] == r
      modifies r`closed
      ensures Valid() && (View(), out) == Step(Disk, old(View()), Op.CloseReader(i))
    {
      out := r.Close();
      assert Cursors(readers) == old(Cursors(readers))[i := Cursor(r.pos, r.closed)];
    }
  }

  // ----- choosing a storage -----

  datatype CacheConfig = CacheConfig(enabled: bool, threshold: int, maxSize: int)

  /** `IsDiskCacheAvailable`. */
  predicate Available(config: CacheConfig, counters: Counters, requestSize: int) {
    config.enabled && Wrap(counters.diskBytes + requestSize) <= config.maxSize
  }

  /** What the cache decides for a body of this size: on disk when the cache is on, the body is large enough and fits
      the budget beside what is stored. */
  predicate GoesToDisk(config: CacheConfig, counters: Counters, size: int) {
    size >= config.threshold && Available(config, counters, size)
  }

  /** A body that announces such a size is streamed to disk. */
  predicate Streams(config: CacheConfig, counters: Counters, contentLength: int) {
    contentLength > 0 && GoesToDisk(config, counters, contentLength)
  }

  /** The cache is available exactly when it is on and the new total is within the budget, or so large that it wraps
      around: a total beyond 64 bits passes the check. */
  lemma AvailableExactly(config: CacheConfig, counters: Counters, size: Int64)
    requires 0 <= counters.diskBytes <= MAX_INT64 && 0 <= size
    ensures var total := counters.diskBytes + size;
      && (total <= MAX_INT64 ==> (Available(config, counters, size) <==> config.enabled && total <= config.maxSize))
      && (total > MAX_INT64 && config.maxSize >= 0 ==> (Available(config, counters, size) <==> config.enabled))
  {
    WrapTotal(counters.diskBytes, size);
    hide Wrap;
  }

  lemma WrapTotal(a: Int64, b: Int64)
    requires 0 <= a && 0 <= b
    ensures Wrap(a + b) == if a + b <= MAX_INT64 then a + b else a + b - 2 * MAX_INT64 - 2
  {
  }

  datatype Storage = InMemory(m: MemoryStorage) | OnDisk(d: DiskStorage)

  function KindOf(s: Storage): Kind {
    if s.InMemory? then Memory else Disk
  }

  ghost predicate Holds(s: Storage, content: seq<Byte>)
    reads match s { case InMemory(m) => {m, m.reader} + (set r | r in m.readers)
                    case OnDisk(d) => {d, d.file, d.dir} + (set r | r in d.readers) }
  {
    match s
    case InMemory(m) => m.Valid() && m.View() == State(content, Cursor(0, false), [])
    case OnDisk(d) => d.Valid() && d.View() == State(content, Cursor(0, false), [])
  }

  /** `CreateBodyStorage`: large bodies go to disk while there is room; a disk fault falls back to memory. */
  method CreateBodyStorage(data: Payload, config: CacheConfig, path: string, dir: CacheDir, stats: UsageStats,
                           diskWorks: bool)
    returns (s: Storage)
    requires path !in dir.files
    modifies stats`counters, dir
    ensures Holds(s, data)
    ensures s.OnDisk? <==> diskWorks && GoesToDisk(config, old(stats.counters), |data|)
    ensures stats.counters == Increment(old(stats.counters), KindOf(s), |data|)
    ensures dir.files == if s.OnDisk? then old(dir.files)[path := data] else old(dir.files)
  {
    if config.enabled && |data| >= config.threshold && Available(config, stats.counters, |data|) {
      if diskWorks {
        var d := new DiskStorage(data, path, dir, stats);
        return OnDisk(d);
      }
    }
    var m := new MemoryStorage(data, stats);
    return InMemory(m);
  }

  datatype Result = Ok(s: Storage) | TooLarge | ReadFault | DiskFault

  /** `io.LimitReader`: the bytes that pass a limit, none for a limit that is not positive. */
  function Limited(body: seq<Byte>, limit: int): seq<Byte> {
    if limit <= 0 then [] else body[..AtMost(|body|, limit)]
  }

  /** A body is kept whole exactly when it is no longer than `maxBytes`; the one exception is the largest
      64-bit `maxBytes`, whose successor wraps around so that nothing is read. */
  predicate KeptWhole(body: seq<Byte>, maxBytes: int) {
    |body| <= maxBytes && (maxBytes < MAX_INT64 || body == [])
  }

  /** `CreateBodyStorageFromReader` on a request body of the declared length `contentLength`. */
  method CreateFromReader(body: seq<Byte>, contentLength: Int64, maxBytes: Int64, config: CacheConfig,
                          path: string, dir: CacheDir, stats: UsageStats, readWorks: bool, diskWorks: bool)
    returns (r: Result, ghost stored: seq<Byte>)
    requires path !in dir.files
    modifies stats, dir
    ensures r.Ok? ==> stored <= body && Holds(r.s, stored)
    ensures r.ReadFault? <==> !readWorks
    ensures r.DiskFault? <==> readWorks && !diskWorks && Streams(config, old(stats.counters), contentLength)
    ensures !r.ReadFault? && !r.DiskFault? && KeptWhole(body, maxBytes) ==> r.Ok? && Holds(r.s, body)
    ensures r.Ok? && Holds(r.s, body) ==> KeptWhole(body, maxBytes)
    ensures r.TooLarge? ==> |body| > maxBytes
    ensures !r.ReadFault? && !r.DiskFault? && |body| > maxBytes && maxBytes < MAX_INT64 ==> r.TooLarge?
    ensures maxBytes < MAX_INT64 && r.Ok? ==> Holds(r.s, body)
    ensures !r.ReadFault? && !r.DiskFault? && maxBytes == MAX_INT64 ==> r.Ok? && stored == []
    ensures !r.Ok? ==> stats.counters == old(stats.counters) && dir.files == old(dir.files)
    ensures r.Ok? ==> stats.counters == Increment(old(stats.counters), KindOf(r.s), |stored|)
    ensures r.Ok? ==> (r.s.OnDisk? <==>
      || Streams(config, old(stats.counters), contentLength)
      || (diskWorks && GoesToDisk(config, old(stats.counters), |stored|)))
    ensures stats.diskHits == old(stats.diskHits) + if r.Ok? && r.s.OnDisk? then 1 else 0
    ensures stats.memoryHits == old(stats.memoryHits) + if r.Ok? && r.s.InMemory? then 1 else 0
  {
    var limit := Wrap(maxBytes + 1);
    WrapSuccessor(maxBytes);
    if !readWorks {
      return ReadFault, [];
    }
    var data := Limited(body, limit);
    if config.enabled && contentLength > 0 && contentLength >= config.threshold
       && Available(config, stats.counters, contentLength) {
      if !diskWorks {
        return DiskFault, [];
      }
      if |data| > maxBytes {
        return TooLarge, [];
      }
      var d := new DiskStorage(data, path, dir, stats);
      stats.diskHits := stats.diskHits + 1;
      return Ok(OnDisk(d)), data;
    }
    if |data| > maxBytes {
      return TooLarge, [];
    }
    var s := CreateBodyStorage(data, config, path, dir, stats, diskWorks);
    if s.InMemory? {
      stats.memoryHits := stats.memoryHits + 1;
    } else {
      stats.diskHits := stats.diskHits + 1;
    }
    return Ok(s), data;
  }

  lemma WrapFits(n: Int64)
    ensures Wrap(n) == n
  {
  }

  lemma WrapSuccessor(n: Int64)
    ensures Wrap(n + 1) == if n == MAX_INT64 then -MAX_INT64 - 1 else n + 1
  {
  }
}
