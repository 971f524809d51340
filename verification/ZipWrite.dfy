/** Writing a zip archive, and that the scan of what was written finds each file. */
module ZipWrite {
  import opened Bytes
  import opened ZipScan

  function Le16(n: nat): (r: seq<byte>)
    requires n < 0x1_0000
    ensures |r| == 2 && U16(r, 0) == n
  {
    [n % 256, n / 256]
  }

  function Le32(n: nat): (r: seq<byte>)
    requires n < 0x1_0000_0000
    ensures |r| == 4 && U32(r, 0) == n
  {
    var lo, hi := Le16(n % 0x1_0000), Le16(n / 0x1_0000);
    [lo[0], lo[1], hi[0], hi[1]]
  }

  predicate Writable(e: Entry)
  {
    var h := e.hdr;
    && |e.name| == h.filenameLen < 0x1_0000 && h.extra < 0x1_0000 && h.comment < 0x1_0000 && h.method_ < 0x1_0000
    && h.crc32 < 0x1_0000_0000 && h.compSize < 0x1_0000_0000 && h.uncompSize < 0x1_0000_0000
    && h.offset < 0x1_0000_0000 && h.modTime < 0x1_0000_0000
  }

  function Zeros(n: nat): (r: seq<byte>) ensures |r| == n { seq(n, _ => 0) }

  const SIGNATURE: seq<byte> := [0x50, 0x4B, 1, 2, 20, 0, 20, 0, 0, 0]

  function Sums(h: Hdr): (r: seq<byte>)
    requires h.method_ < 0x1_0000 && h.modTime < 0x1_0000_0000 && h.crc32 < 0x1_0000_0000
    ensures |r| == 10 && U16(r, 0) == h.method_ && U32(r, 2) == h.modTime && U32(r, 6) == h.crc32
  {
    var m, t, c := Le16(h.method_), Le32(h.modTime), Le32(h.crc32);
    [m[0], m[1], t[0], t[1], t[2], t[3], c[0], c[1], c[2], c[3]]
  }

  function Sizes(h: Hdr): (r: seq<byte>)
    requires h.compSize < 0x1_0000_0000 && h.uncompSize < 0x1_0000_0000
    ensures |r| == 8 && U32(r, 0) == h.compSize && U32(r, 4) == h.uncompSize
  {
    var c, u := Le32(h.compSize), Le32(h.uncompSize);
    [c[0], c[1], c[2], c[3], u[0], u[1], u[2], u[3]]
  }

  function Lengths(h: Hdr): (r: seq<byte>)
    requires h.filenameLen < 0x1_0000 && h.extra < 0x1_0000 && h.comment < 0x1_0000
    ensures |r| == 6 && U16(r, 0) == h.filenameLen && U16(r, 2) == h.extra && U16(r, 4) == h.comment
  {
    Le16(h.filenameLen) + Le16(h.extra) + Le16(h.comment)
  }

  /** The fixed part of a central directory entry. */
  function Header(e: Entry): (r: seq<byte>)
    requires Writable(e)
    ensures |r| == CENTRAL_LENGTH
  {
    SIGNATURE + Sums(e.hdr) + Sizes(e.hdr) + Lengths(e.hdr) + Zeros(8) + Le32(e.hdr.offset)
  }

  function EntryBytes(e: Entry): (r: seq<byte>)
    requires Writable(e)
    ensures |r| == EntrySize(e)
  {
    Header(e) + e.name + Zeros(e.hdr.extra) + Zeros(e.hdr.comment)
  }

  function Directory(entries: seq<Entry>): seq<byte>
    requires forall k | 0 <= k < |entries| :: Writable(entries[k])
  {
    if entries == [] then []
    else Directory(entries[..|entries| - 1]) + EntryBytes(entries[|entries| - 1])
  }

  /** The fields of an end record that the scan looks at. */
  datatype End = End(magic: seq<byte>, disk: nat, central: nat, here: nat, count: nat, start: nat)

  predicate ValidEnd(e: End)
  {
    && |e.magic| == 4 && e.disk < 0x1_0000 && e.central < 0x1_0000 && e.here < 0x1_0000 && e.count < 0x1_0000
    && e.start < 0x1_0000_0000
  }

  function EndRecord(e: End): (r: seq<byte>)
    requires ValidEnd(e)
    ensures |r| == END_LENGTH
  {
    var m, d, c, h, n, s := e.magic, Le16(e.disk), Le16(e.central), Le16(e.here), Le16(e.count), Le32(e.start);
    [m[0], m[1], m[2], m[3], d[0], d[1], c[0], c[1], h[0], h[1], n[0], n[1], 0, 0, 0, 0, s[0], s[1], s[2], s[3], 0, 0]
  }

  /** One disk, which has all the entries. */
  function GoodEnd(count: nat, start: nat): End { End([0x50, 0x4B, 5, 6], 0, 0, count, count, start) }

  /** An archive: local headers and contents, then the directory, then the end record. */
  function Write(body: seq<byte>, entries: seq<Entry>): seq<byte>
    requires |body| < 0x1_0000_0000 && |entries| < 0x1_0000
    requires forall k | 0 <= k < |entries| :: Writable(entries[k])
  {
    body + Directory(entries) + EndRecord(GoodEnd(|entries|, |body|))
  }

  // ----- reading back -----

  lemma Shift(a: seq<byte>, b: seq<byte>, c: seq<byte>, i: nat)
    ensures i + 2 <= |b| ==> U16(a + b + c, |a| + i) == U16(b, i)
    ensures i + 4 <= |b| ==> U32(a + b + c, |a| + i) == U32(b, i)
  {
  }

  lemma HeaderReads(e: Entry)
    requires Writable(e)
    ensures U32(Header(e), 0) == 0x0201_4B50 && HdrAt(Header(e), 0) == e.hdr
  {
    hide Sums, Sizes, Lengths, Le32, Zeros;
    var h, b := e.hdr, Header(e);
    var p1 := SIGNATURE + Sums(h);
    var p2 := p1 + Sizes(h);
    var p3 := p2 + Lengths(h) + Zeros(8);
    SignatureReads(b);
    assert b == SIGNATURE + Sums(h) + b[20..];
    Shift(SIGNATURE, Sums(h), b[20..], 0);
    Shift(SIGNATURE, Sums(h), b[20..], 2);
    Shift(SIGNATURE, Sums(h), b[20..], 6);
    assert b == p1 + Sizes(h) + b[28..];
    Shift(p1, Sizes(h), b[28..], 0);
    Shift(p1, Sizes(h), b[28..], 4);
    assert b == p2 + Lengths(h) + b[34..];
    Shift(p2, Lengths(h), b[34..], 0);
    Shift(p2, Lengths(h), b[34..], 2);
    Shift(p2, Lengths(h), b[34..], 4);
    assert b == p3 + Le32(h.offset) + [];
    Shift(p3, Le32(h.offset), [], 0);
  }

  lemma SignatureReads(b: seq<byte>)
    requires SIGNATURE <= b
    ensures U32(b, 0) == 0x0201_4B50
  {
    assert b[0] == SIGNATURE[0] && b[1] == SIGNATURE[1] && b[2] == SIGNATURE[2] && b[3] == SIGNATURE[3];
    assert U16(b, 0) == 0x4B50 && U16(b, 2) == 0x0201;
  }

  lemma EntryReads(e: Entry, before: seq<byte>, after: seq<byte>)
    requires Writable(e)
    ensures EntryAt(before + EntryBytes(e) + after, |before|, e)
  {
    hide U16, U32, Header;
    var file := before + EntryBytes(e) + after;
    var rest := e.name + Zeros(e.hdr.extra) + Zeros(e.hdr.comment) + after;
    assert file == before + Header(e) + rest;
    HeaderReads(e);
    forall i | 0 <= i <= 44
      ensures U16(file, |before| + i) == U16(Header(e), i)
      ensures i <= 42 ==> U32(file, |before| + i) == U32(Header(e), i)
    {
      Shift(before, Header(e), rest, i);
    }
    assert HdrAt(file, |before|) == HdrAt(Header(e), 0);
  }

  lemma {:induction false} DirectoryAt(entries: seq<Entry>, k: nat, start: nat)
    requires k < |entries| && forall j | 0 <= j < |entries| :: Writable(entries[j])
    ensures start + |Directory(entries[..k])| == EntryPos(entries, start, k)
    ensures Directory(entries[..k + 1]) == Directory(entries[..k]) + EntryBytes(entries[k])
    ensures Directory(entries[..k + 1]) <= Directory(entries)
    decreases |entries|
  {
    hide EntryBytes;
    assert entries[..k + 1][..k] == entries[..k];
    DirectoryLength(entries, k, start);
    var last := |entries| - 1;
    if k < last {
      DirectoryAt(entries[..last], k, start);
      assert entries[..last][..k + 1] == entries[..k + 1];
    } else {
      assert entries[..k + 1] == entries;
    }
  }

  lemma {:induction false} DirectoryLength(entries: seq<Entry>, k: nat, start: nat)
    requires k <= |entries| && forall j | 0 <= j < |entries| :: Writable(entries[j])
    ensures start + |Directory(entries[..k])| == EntryPos(entries, start, k)
    decreases k
  {
    hide EntryBytes;
    if k > 0 {
      assert entries[..k][..k - 1] == entries[..k - 1];
      DirectoryLength(entries, k - 1, start);
    }
  }

  /** An end record is accepted, exactly if it has its signature, one disk, and all entries on it. */
  lemma EndReads(e: End, before: seq<byte>)
    requires ValidEnd(e)
    ensures var file := before + EndRecord(e);
      && (EndMagic(file) <==> e.magic == [0x50, 0x4B, 5, 6])
      && (EndSane(file) <==> e.disk == 0 && e.central == 0 && e.here == e.count)
      && Announced(file) == e.count && CentralStart(file) == e.start
  {
    var file, b := before + EndRecord(e), EndRecord(e);
    assert file == before + b + [];
    Shift(before, b, [], 4);
    Shift(before, b, [], 6);
    Shift(before, b, [], 8);
    Shift(before, b, [], 10);
    Shift(before, b, [], 16);
    assert file[|before|..|before| + 4] == b[..4] == e.magic;
    EndFields(e);
  }

  lemma EndFields(e: End)
    requires ValidEnd(e)
    ensures var b := EndRecord(e);
      && U16(b, 4) == e.disk && U16(b, 6) == e.central && U16(b, 8) == e.here && U16(b, 10) == e.count
      && U32(b, 16) == e.start
  {
  }

  lemma WrittenEntry(body: seq<byte>, entries: seq<Entry>, end: seq<byte>, k: nat)
    requires k < |entries| && forall j | 0 <= j < |entries| :: Writable(entries[j])
    ensures EntryAt(body + Directory(entries) + end, EntryPos(entries, |body|, k), entries[k])
  {
    hide EntryBytes, EntryAt, Directory;
    DirectoryAt(entries, k, |body|);
    var a, b, dir := Directory(entries[..k]), EntryBytes(entries[k]), Directory(entries);
    var before, after := body + a, dir[|a + b|..] + end;
    assert |before| == EntryPos(entries, |body|, k);
    Insert(body, a, b, dir, end);
    EntryReads(entries[k], before, after);
    assert body + dir + end == before + b + after;
  }

  /** Whatever is written is an archive with those entries, so the scan of it does what ScanCode says. */
  lemma WrittenIsArchive(body: seq<byte>, entries: seq<Entry>)
    requires |body| < 0x1_0000_0000 && |entries| < 0x1_0000
    requires forall k | 0 <= k < |entries| :: Writable(entries[k])
    ensures Archive(Write(body, entries), entries)
  {
    hide EndRecord, EntryAt, EndMagic, EndSane, U16, U32, Directory, Writable;
    var end := EndRecord(GoodEnd(|entries|, |body|));
    EndReads(GoodEnd(|entries|, |body|), body + Directory(entries));
    forall k | 0 <= k < |entries|
      ensures EntryAt(Write(body, entries), EntryPos(entries, CentralStart(Write(body, entries)), k), entries[k])
    {
      WrittenEntry(body, entries, end, k);
    }
  }

  lemma Insert(body: seq<byte>, a: seq<byte>, b: seq<byte>, dir: seq<byte>, end: seq<byte>)
    requires a + b <= dir
    ensures body + dir + end == (body + a) + b + (dir[|a + b|..] + end)
  {
    assert dir == a + b + dir[|a + b|..];
  }
}
