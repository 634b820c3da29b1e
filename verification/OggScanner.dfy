/** getOpusDuration of common/audio.go: a cursor that scans Ogg pages, stepping one byte at a time
    until a capture pattern, and keeps the largest granule position. Page layout as in section 6 of RFC 3533. */
module OggScanner {
  import opened ByteTypes

  const HEADER := 27
  const CAPTURE: seq<Byte> := [0x4f, 0x67, 0x67, 0x53]  // "OggS"
  const TWO_63 := 0x8000_0000_0000_0000
  const TWO_64 := 0x1_0000_0000_0000_0000

  /** A little-endian number. */
  function FromLE(s: seq<Byte>): nat {
    if s == [] then 0 else s[0] + 256 * FromLE(s[1..])
  }

  /** Conversion of an unsigned 64-bit number to a signed one. */
  function Signed(u: nat): int {
    if u < TWO_63 then u else u - TWO_64
  }

  function Sum(s: seq<Byte>): nat {
    if s == [] then 0 else Sum(s[..|s| - 1]) + s[|s| - 1]
  }

  function Max(a: int, b: int): int {
    if a < b then b else a
  }

  function GranuleAt(data: seq<Byte>): int
    requires |data| >= HEADER
  {
    Signed(FromLE(data[6..14]))
  }

  /** What the scanner makes of the bytes from its cursor on, given the largest position so far. */
  function Scan(data: seq<Byte>, best: int): int
    decreases |data|
  {
    if |data| < HEADER then best
    else if data[..4] != CAPTURE then Scan(data[1..], best)
    else
      var found := Max(best, GranuleAt(data));
      var table := HEADER + data[26];
      if table > |data| then found
      else
        var end := table + Sum(data[HEADER..table]);
        if end > |data| then found else Scan(data[end..], found)
  }

  /** The same when only the first `answered` header reads are answered in full and the next comes back short,
      which ends the scan. */
  function ScanUpTo(data: seq<Byte>, best: int, answered: nat): int
    decreases |data|
  {
    if |data| < HEADER || answered == 0 then best
    else if data[..4] != CAPTURE then ScanUpTo(data[1..], best, answered - 1)
    else
      var found := Max(best, GranuleAt(data));
      var table := HEADER + data[26];
      if table > |data| then found
      else
        var end := table + Sum(data[HEADER..table]);
        if end > |data| then found else ScanUpTo(data[end..], found, answered - 1)
  }

  /** How many header reads a scan makes of a reader that delivers what is there, the last one included that
      meets the end. A page cut short in its segment table ends the scan without another one. */
  function HeaderReads(data: seq<Byte>): nat
    decreases |data|
  {
    if |data| < HEADER then 1
    else if data[..4] != CAPTURE then 1 + HeaderReads(data[1..])
    else
      var table := HEADER + data[26];
      if table > |data| then 1
      else
        var end := table + Sum(data[HEADER..table]);
        if end > |data| then 2 else 1 + HeaderReads(data[end..])
  }

  /** A short read can only lose positions, and a reader that delivers what is there loses none. */
  lemma {:induction false} ShortReads(data: seq<Byte>, best: int, answered: nat)
    ensures best <= ScanUpTo(data, best, answered) <= Scan(data, best)
    ensures answered >= |data| ==> ScanUpTo(data, best, answered) == Scan(data, best)
    decreases |data|
  {
    hide Sum, GranuleAt;
    if |data| < HEADER {
    } else if answered == 0 {
      ScanGrows(data, best);
    } else if data[..4] != CAPTURE {
      assert Scan(data, best) == Scan(data[1..], best);
      assert ScanUpTo(data, best, answered) == ScanUpTo(data[1..], best, answered - 1);
      hide Scan, ScanUpTo;
      ShortReads(data[1..], best, answered - 1);
    } else {
      var found, table := Max(best, GranuleAt(data)), HEADER + data[26];
      if table <= |data| {
        var end := table + Sum(data[HEADER..table]);
        if end <= |data| {
          assert Scan(data, best) == Scan(data[end..], found);
          assert ScanUpTo(data, best, answered) == ScanUpTo(data[end..], found, answered - 1);
          hide Scan, ScanUpTo;
          ShortReads(data[end..], found, answered - 1);
        }
      }
    }
  }

  /** A reader that answers every header read the scan makes loses nothing, and the scan makes at most one per byte
      and one more. */
  lemma {:induction false} ReadsSuffice(data: seq<Byte>, best: int, answered: nat)
    ensures 1 <= HeaderReads(data) <= |data| + 1
    ensures answered >= HeaderReads(data) ==> ScanUpTo(data, best, answered) == Scan(data, best)
    decreases |data|
  {
    hide Sum, GranuleAt;
    if |data| < HEADER {
    } else if data[..4] != CAPTURE {
      ReadsSuffice(data[1..], best, if answered > 0 then answered - 1 else 0);
    } else {
      var found, table := Max(best, GranuleAt(data)), HEADER + data[26];
      if table <= |data| {
        var end := table + Sum(data[HEADER..table]);
        if end <= |data| {
          ReadsSuffice(data[end..], found, if answered > 0 then answered - 1 else 0);
        }
      }
    }
  }

  lemma {:induction false} ScanGrows(data: seq<Byte>, best: int)
    ensures best <= Scan(data, best)
    decreases |data|
  {
    if |data| < HEADER {
    } else if data[..4] != CAPTURE {
      ScanGrows(data[1..], best);
    } else {
      var found, table := Max(best, GranuleAt(data)), HEADER + data[26];
      if table <= |data| {
        var end := table + Sum(data[HEADER..table]);
        if end <= |data| {
          ScanGrows(data[end..], found);
        }
      }
    }
  }

  /** The loop over the segment table. */
  method PageSize(segmentTable: seq<Byte>) returns (size: nat)
    ensures size == Sum(segmentTable)
  {
    size := 0;
    for i := 0 to |segmentTable|
      invariant size == Sum(segmentTable[..i])
    {
      assert segmentTable[..i + 1][..i] == segmentTable[..i];
      size := size + segmentTable[i];
    }
    assert segmentTable[..|segmentTable|] == segmentTable;
  }

  /** What the scanner makes of the header at `pos`: a step of one byte, or a page. */
  lemma AtHeader(data: seq<Byte>, pos: nat, best: int, left: nat)
    requires pos + HEADER <= |data| && left > 0
    ensures data[pos..pos + 4] != CAPTURE ==>
      && ScanUpTo(data[pos..], best, left) == ScanUpTo(data[pos + 1..], best, left - 1)
      && HeaderReads(data[pos..]) == 1 + HeaderReads(data[pos + 1..])
    ensures data[pos..pos + 4] == CAPTURE ==>
      var found, table := Max(best, Signed(FromLE(data[pos + 6..pos + 14]))), pos + HEADER + data[pos + 26];
      if table > |data| then ScanUpTo(data[pos..], best, left) == found && HeaderReads(data[pos..]) == 1
      else
        var end := table + Sum(data[pos + HEADER..table]);
        if end > |data| then ScanUpTo(data[pos..], best, left) == found && HeaderReads(data[pos..]) == 2
        else
          && ScanUpTo(data[pos..], best, left) == ScanUpTo(data[end..], found, left - 1)
          && HeaderReads(data[pos..]) == 1 + HeaderReads(data[end..])
  {
    hide Sum, FromLE;
    var rest := data[pos..];
    assert rest[..4] == data[pos..pos + 4] && rest[6..14] == data[pos + 6..pos + 14] && rest[26] == data[pos + 26];
    var table := HEADER + rest[26];
    if rest[..4] != CAPTURE {
      assert rest[1..] == data[pos + 1..];
    } else if table <= |rest| {
      assert rest[HEADER..table] == data[pos + HEADER..pos + table];
      var end := table + Sum(rest[HEADER..table]);
      assert end <= |rest| ==> rest[end..] == data[pos + end..];
    }
  }

  lemma Subslice(data: seq<Byte>, a: nat, b: nat, i: nat, j: nat)
    requires i <= j && a + j <= b <= |data|
    ensures data[a..b][i..j] == data[a + i..a + j]
  {
    var s, t := data[a..b][i..j], data[a + i..a + j];
    assert forall k :: 0 <= k < j - i ==> s[k] == data[a..b][i + k] == data[a + i + k] == t[k];
  }

  /** Too few bytes, or a short read, end the scan. */
  lemma AtEnd(data: seq<Byte>, pos: nat, best: int, left: nat)
    requires pos <= |data|
    ensures |data| - pos < HEADER || left == 0 ==> ScanUpTo(data[pos..], best, left) == best
    ensures |data| - pos < HEADER ==> HeaderReads(data[pos..]) == 1
    ensures HeaderReads(data[pos..]) >= 1
  {
  }

  /** The loop, with its read position and backward seek. Only the first `answered` header reads are answered in
      full; the next one, if it comes to that, fails when `faulty` and else comes back short. It ends on every
      input. */
  method LargestGranule(data: seq<Byte>, answered: nat, faulty: bool) returns (total: int, failed: bool)
    ensures failed <==> faulty && answered < HeaderReads(data)
    ensures !failed ==> total == ScanUpTo(data, 0, answered)
  {
    hide Sum, FromLE, ScanUpTo, Signed, HeaderReads;
    total, failed := 0, false;
    var pos: int, left: nat := 0, answered;
    assert data[0..] == data;
    while true
      invariant pos >= 0 && !failed && left <= answered
      invariant pos <= |data| ==> ScanUpTo(data[pos..], total, left) == ScanUpTo(data, 0, answered)
      invariant pos > |data| ==> total == ScanUpTo(data, 0, answered)
      invariant pos <= |data| ==> HeaderReads(data) == answered - left + HeaderReads(data[pos..])
      invariant pos > |data| ==> HeaderReads(data) == answered - left + 1
      decreases |data| + 1 - pos
    {
      if pos <= |data| {
        AtEnd(data, pos, total, left);
      }
      if left == 0 {
        failed := faulty;
        return;
      }
      if pos >= |data| {
        return;
      }
      var n := if |data| - pos < HEADER then |data| - pos else HEADER;
      var buf := data[pos..pos + n];
      if n < HEADER {
        return;
      }
      AtHeader(data, pos, total, left);
      Subslice(data, pos, pos + n, 0, 4);
      Subslice(data, pos, pos + n, 6, 14);
      pos := pos + n;
      left := left - 1;
      if buf[0..4] != CAPTURE {
        pos := pos - 26;
        continue;
      }
      var granule := Signed(FromLE(buf[6..14]));
      if granule > total {
        total := granule;
      }
      var numSegments := buf[26];
      if pos + numSegments > |data| {
        return;
      }
      var pageSize := PageSize(data[pos..pos + numSegments]);
      pos := pos + numSegments + pageSize;
    }
  }

  datatype Duration = Seconds(s: real) | ReadFailed

  /** The duration in seconds at the fixed 48 kHz of Opus; `fl` is how float64 arithmetic rounds. */
  method OpusDuration(data: seq<Byte>, answered: nat, faulty: bool, fl: real -> real) returns (r: Duration)
    ensures r.ReadFailed? <==> faulty && answered < HeaderReads(data)
    ensures r.Seconds? ==> r.s == fl(fl(ScanUpTo(data, 0, answered) as real) / 48000.0)
    ensures r.Seconds? && answered >= |data| ==> r.s == fl(fl(Scan(data, 0) as real) / 48000.0)
  {
    ShortReads(data, 0, answered);
    var total, failed := LargestGranule(data, answered, faulty);
    r := if failed then ReadFailed else Seconds(fl(fl(total as real) / 48000.0));
  }

  // ----- the pages it is meant for -----

  /** A page: `other` is its serial number, sequence number and checksum. */
  datatype Page = Page(version: Byte, flags: Byte, granule: int, other: seq<Byte>, segments: seq<Byte>, body: seq<Byte>)

  ghost predicate ValidPage(p: Page) {
    && -TWO_63 <= p.granule < TWO_63
    && |p.other| == 12
    && |p.segments| <= 255
    && |p.body| == Sum(p.segments)
  }

  function ToLE(n: nat, width: nat): seq<Byte> {
    if width == 0 then [] else [n % 256] + ToLE(n / 256, width - 1)
  }

  function Unsigned(g: int): nat
    requires -TWO_63 <= g < TWO_63
  {
    if g < 0 then g + TWO_64 else g
  }

  function Header(p: Page): seq<Byte>
    requires ValidPage(p)
  {
    CAPTURE + [p.version, p.flags] + ToLE(Unsigned(p.granule), 8) + p.other + [|p.segments|]
  }

  function Encode(p: Page): seq<Byte>
    requires ValidPage(p)
  {
    Header(p) + p.segments + p.body
  }

  function Pow256(width: nat): nat {
    if width == 0 then 1 else 256 * Pow256(width - 1)
  }

  lemma {:induction false} LERoundTrip(n: nat, width: nat)
    requires n < Pow256(width)
    ensures |ToLE(n, width)| == width && FromLE(ToLE(n, width)) == n
  {
    if width > 0 {
      assert n / 256 < Pow256(width - 1);
      LERoundTrip(n / 256, width - 1);
      assert ToLE(n, width)[1..] == ToLE(n / 256, width - 1);
    }
  }

  lemma HeaderSpec(p: Page)
    requires ValidPage(p)
    ensures var h := Header(p);
            && |h| == HEADER && h[..4] == CAPTURE && GranuleAt(h) == p.granule && h[26] == |p.segments|
  {
    var u := Unsigned(p.granule);
    assert Pow256(8) == TWO_64 by {
      assert Pow256(2) == 0x1_0000 && Pow256(4) == 0x1_0000_0000 && Pow256(6) == 0x1_0000_0000_0000;
    }
    LERoundTrip(u, 8);
    assert Header(p)[6..14] == ToLE(u, 8);
  }

  /** At a page the scanner takes its granule position and jumps exactly to its end, whatever the body holds. */
  lemma ScanPage(p: Page, rest: seq<Byte>, best: int)
    requires ValidPage(p)
    ensures Scan(Encode(p) + rest, best) == Scan(rest, Max(best, p.granule))
  {
    HeaderSpec(p);
    var h, data := Header(p), Encode(p) + rest;
    hide Header;
    var table := HEADER + |p.segments|;
    assert data[..HEADER] == h;
    assert data[..4] == h[..4] && data[6..14] == h[6..14] && data[26] == h[26];
    assert data[HEADER..table] == p.segments;
    assert data[table + |p.body|..] == rest;
  }

  /** A page cut short after its header still counts, and ends the scan. */
  lemma ScanCutPage(p: Page, m: nat, best: int)
    requires ValidPage(p) && HEADER <= m < |Encode(p)|
    ensures Scan(Encode(p)[..m], best) == Max(best, p.granule)
  {
    HeaderSpec(p);
    var h, data := Header(p), Encode(p)[..m];
    hide Header;
    var table := HEADER + |p.segments|;
    assert data[..HEADER] == h;
    assert data[..4] == h[..4] && data[6..14] == h[6..14] && data[26] == h[26];
    if table <= m {
      assert data[HEADER..table] == p.segments;
    }
  }

  /** No capture pattern starts inside `junk` when `next` follows it. */
  ghost predicate Quiet(junk: seq<Byte>, next: seq<Byte>) {
    forall k :: 0 <= k < |junk| ==> !CaptureAt(junk + next, k)
  }

  predicate CaptureAt(data: seq<Byte>, k: nat) {
    k + 4 <= |data| && data[k..k + 4] == CAPTURE
  }

  /** Bytes without a capture pattern are stepped over. */
  lemma {:induction false} ScanJunk(junk: seq<Byte>, next: seq<Byte>, best: int)
    requires Quiet(junk, next) && (|next| >= HEADER || next == [])
    ensures Scan(junk + next, best) == Scan(next, best)
  {
    var data := junk + next;
    if junk == [] {
      assert data == next;
    } else if |data| >= HEADER {
      assert !CaptureAt(data, 0);
      assert data[..4] == data[0..4];
      assert Scan(data, best) == Scan(data[1..], best);
      hide Scan;
      QuietTail(junk, next);
      ScanJunk(junk[1..], next, best);
    }
  }

  lemma QuietTail(junk: seq<Byte>, next: seq<Byte>)
    requires junk != [] && Quiet(junk, next)
    ensures (junk + next)[1..] == junk[1..] + next && Quiet(junk[1..], next)
  {
    var data := junk + next;
    var rest := junk[1..] + next;
    assert data[1..] == rest;
    forall k | 0 <= k < |junk| - 1
      ensures !CaptureAt(rest, k)
    {
      assert !CaptureAt(data, k + 1);
      assert k + 4 <= |rest| ==> rest[k..k + 4] == data[k + 1..k + 5];
    }
  }

  // ----- whole streams -----

  /** What a stream ends with: bytes without a capture pattern, or a page cut short after its header. */
  datatype Tail = Noise(bytes: seq<Byte>) | Cut(page: Page, length: nat)

  datatype Stream = End(tail: Tail) | Next(junk: seq<Byte>, page: Page, rest: Stream)

  ghost predicate ValidStream(s: Stream) {
    match s
    case End(Noise(bytes)) => Quiet(bytes, [])
    case End(Cut(page, length)) => ValidPage(page) && HEADER <= length < |Encode(page)|
    case Next(junk, page, rest) => ValidPage(page) && ValidStream(rest) && Quiet(junk, Encode(page) + Bytes(rest))
  }

  ghost function Bytes(s: Stream): seq<Byte> {
    match s
    case End(Noise(bytes)) => bytes
    case End(Cut(page, length)) =>
      if ValidPage(page) && length <= |Encode(page)| then Encode(page)[..length] else []
    case Next(junk, page, rest) => if ValidPage(page) then junk + (Encode(page) + Bytes(rest)) else []
  }

  /** The largest granule position of the stream's pages, and at least `best`. */
  ghost function Largest(s: Stream, best: int): int {
    match s
    case End(Noise(_)) => best
    case End(Cut(page, _)) => Max(best, page.granule)
    case Next(_, page, rest) => Largest(rest, Max(best, page.granule))
  }

  /** On every stream of well-formed pages, with noise between and after them, the scanner finds the
      maximum of 0 and the signed granule positions. */
  lemma {:induction false} ScanStream(s: Stream, best: int)
    requires ValidStream(s)
    ensures Scan(Bytes(s), best) == Largest(s, best)
    decreases s
  {
    hide Scan;
    match s
    case End(Noise(bytes)) =>
      assert bytes + [] == bytes;
      ScanJunk(bytes, [], best);
      ScanNothing(best);
    case End(Cut(page, length)) => ScanCutPage(page, length, best);
    case Next(junk, page, rest) =>
      HeaderSpec(page);
      ScanJunk(junk, Encode(page) + Bytes(rest), best);
      ScanPage(page, Bytes(rest), best);
      ScanStream(rest, Max(best, page.granule));
  }

  lemma ScanNothing(best: int)
    ensures Scan([], best) == best
  {
  }
}
