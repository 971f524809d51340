/**
  * A deflated file inside a zip archive, served as a standalone gzip file (section 2.3.1 of RFC 1952): a canned
  * header, the compressed content straight from the archive, and a prepared trailer.
  */
module GzipView {
  import opened Bytes
  import ZipScan
  import ZipWrite

  /** The hd table. */
  const HEAD: seq<byte> := [31, 139, 8, 0, 0, 0, 0, 0, 0, 3]
  const HEAD_LENGTH := 10
  const TRAILER_LENGTH := 8

  /** The open file: its size in the archive, where its content starts there, and the prepared trailer. */
  datatype Source = Source(file: seq<byte>, start: nat, compSize: nat, trailer: seq<byte>)

  predicate ValidSource(s: Source)
  {
    s.start <= |s.file| && |s.trailer| == TRAILER_LENGTH
  }

  /** The part of the content that the archive file has. */
  function Available(s: Source): nat
    requires ValidSource(s)
  {
    if s.start + s.compSize <= |s.file| then s.compSize else |s.file| - s.start
  }

  /** The gzip file; in an archive cut short inside the content, it ends there. */
  function Gzip(s: Source): (r: seq<byte>)
    requires ValidSource(s)
    ensures |r| == HEAD_LENGTH + Available(s) + if Available(s) == s.compSize then TRAILER_LENGTH else 0
  {
    assert |HEAD| == HEAD_LENGTH;
    HEAD + s.file[s.start..s.start + Available(s)] + if Available(s) == s.compSize then s.trailer else []
  }

  /** fop_fd.len as opened. */
  function DeclaredLength(s: Source): nat { HEAD_LENGTH + s.compSize + TRAILER_LENGTH }

  /** The position in the archive that belongs to a position in the gzip file. */
  function ZipPos(s: Source, pos: nat): nat
  {
    s.start + if pos <= HEAD_LENGTH then 0
              else if pos <= HEAD_LENGTH + s.compSize then pos - HEAD_LENGTH else s.compSize
  }

  /** The four little-endian bytes of each, crc first. */
  function Trailer(crc32: nat, uncompSize: nat): (r: seq<byte>)
    requires crc32 < 0x1_0000_0000 && uncompSize < 0x1_0000_0000
    ensures |r| == TRAILER_LENGTH
    ensures ZipScan.U32(r, 0) == crc32 && ZipScan.U32(r, 4) == uncompSize
  {
    var r := ZipWrite.Le32(crc32) + ZipWrite.Le32(uncompSize);
    assert r == [] + ZipWrite.Le32(crc32) + ZipWrite.Le32(uncompSize);
    assert r == ZipWrite.Le32(crc32) + ZipWrite.Le32(uncompSize) + [];
    ZipWrite.Shift([], ZipWrite.Le32(crc32), ZipWrite.Le32(uncompSize), 0);
    ZipWrite.Shift(ZipWrite.Le32(crc32), ZipWrite.Le32(uncompSize), [], 0);
    r
  }

  function Min(a: nat, b: nat): nat { if a < b then a else b }

  class Fd {
    const src: Source
    var pos: nat          // fd->pos, in the gzip file
    var zipPos: nat       // zip_fop_fd->pos

    ghost predicate Valid()
      reads this
    {
      ValidSource(src) && pos <= |Gzip(src)| && zipPos == ZipPos(src, pos)
    }

    /** The gzip branch of lws_fops_zip_open, after the scan has found the file. */
    constructor (file: seq<byte>, start: nat, hdr: ZipScan.Hdr)
      requires start <= |file| && hdr.crc32 < 0x1_0000_0000 && hdr.uncompSize < 0x1_0000_0000
      ensures Valid() && pos == 0
      ensures src == Source(file, start, hdr.compSize, Trailer(hdr.crc32, hdr.uncompSize))
    {
      src := Source(file, start, hdr.compSize, Trailer(hdr.crc32, hdr.uncompSize));
      pos, zipPos := 0, start;
    }

    /** lws_vfs_file_read on the archive; a read may come up short, at the end of the file or at `cap`. */
    method ReadZip(len: nat, cap: nat) returns (data: seq<byte>)
      requires zipPos <= |src.file|
      modifies this`zipPos
      ensures zipPos == old(zipPos) + Min(len, Min(cap, |src.file| - old(zipPos)))
      ensures data == src.file[old(zipPos)..zipPos]
    {
      var end := zipPos + Min(len, Min(cap, |src.file| - zipPos));
      data := src.file[zipPos..end];
      zipPos := end;
    }

    /** The part of a read that the header serves. */
    method FromHead(buf: array<byte>, len: nat) returns (amount: nat)
      requires Valid() && len <= buf.Length
      modifies this`pos, buf
      ensures Valid() && pos == old(pos) + amount && amount <= len
      ensures buf[..amount] == Gzip(src)[old(pos)..pos]
      ensures amount == if old(pos) < HEAD_LENGTH then Min(len, HEAD_LENGTH - old(pos)) else 0
    {
      hide Gzip;
      amount := 0;
      if len > 0 && pos < HEAD_LENGTH {
        amount := Min(len, HEAD_LENGTH - pos);
        HeadSlice(src, pos, amount);
        CopyInto(buf, 0, HEAD[pos..pos + amount]);
        pos := pos + amount;
      }
    }

    /** The part that the content serves, after the first `done` bytes. */
    method FromContent(buf: array<byte>, done: nat, len: nat, cap: nat) returns (amount: nat)
      requires Valid() && done + len <= buf.Length
      modifies this, buf
      ensures Valid() && pos == old(pos) + amount && amount <= len
      ensures buf[..done + amount] == old(buf[..done]) + Gzip(src)[old(pos)..pos]
      ensures amount == if old(pos) < HEAD_LENGTH then 0
                        else Min(len, Min(cap, Content(src, old(pos))))
    {
      hide Gzip;
      amount := 0;
      if len > 0 && pos >= HEAD_LENGTH && pos < src.compSize + HEAD_LENGTH {
        var rlen := Min(len, src.compSize - (zipPos - src.start));
        if rlen > 0 && zipPos < src.compSize + src.start {
          var data := ReadZip(rlen, cap);
          amount := |data|;
          CopyInto(buf, done, data);
          ContentSlice(src, pos, amount);
          pos := pos + amount;
        }
      }
    }

    /** The part that the trailer serves. */
    method FromTrailer(buf: array<byte>, done: nat, len: nat) returns (amount: nat)
      requires Valid() && done + len <= buf.Length
      modifies this`pos, buf
      ensures Valid() && pos == old(pos) + amount && amount <= len
      ensures buf[..done + amount] == old(buf[..done]) + Gzip(src)[old(pos)..pos]
      ensures amount == if old(pos) < HEAD_LENGTH + src.compSize then 0 else Min(len, |Gzip(src)| - old(pos))
    {
      hide Gzip;
      amount := 0;
      if len > 0 && pos >= src.compSize + HEAD_LENGTH && pos < src.compSize + HEAD_LENGTH + TRAILER_LENGTH {
        var cur := pos - src.compSize - HEAD_LENGTH;
        amount := Min(len, TRAILER_LENGTH - cur);
        TrailerSlice(src, cur, amount);
        CopyInto(buf, done, src.trailer[cur..cur + amount]);
        pos := pos + amount;
      }
    }

    /** The gzip branch of lws_fops_zip_read. */
    method Read(buf: array<byte>, len: nat, cap: nat) returns (amount: nat)
      requires Valid() && len <= buf.Length
      modifies this, buf
      ensures Valid() && pos == old(pos) + amount && amount <= len
      ensures buf[..amount] == Gzip(src)[old(pos)..pos]
      ensures cap >= src.compSize ==> amount == Min(len, |Gzip(src)| - old(pos))
    {
      hide Gzip, ZipPos;
      ghost var g, p0 := Gzip(src), pos;
      amount := FromHead(buf, len);
      ghost var p1 := pos;
      var n := FromContent(buf, amount, len - amount, cap);
      ghost var p2 := pos;
      Joined(g, p0, p1, p2);
      amount := amount + n;
      n := FromTrailer(buf, amount, len - amount);
      Joined(g, p0, p2, pos);
      amount := amount + n;
    }

    /** Any sequence of reads: the bytes read, joined, are the gzip file up to the position reached. */
    method ReadAll(buf: array<byte>, lens: seq<nat>, caps: seq<nat>) returns (data: seq<byte>)
      requires Valid() && |caps| == |lens| && forall i | 0 <= i < |lens| :: lens[i] <= buf.Length
      modifies this, buf
      ensures Valid() && old(pos) <= pos && data == Gzip(src)[old(pos)..pos]
      ensures old(pos) == 0 ==> data <= Gzip(src) && |data| <= DeclaredLength(src)
    {
      data := [];
      for i := 0 to |lens|
        invariant Valid() && old(pos) <= pos && data == Gzip(src)[old(pos)..pos]
      {
        ghost var before := pos;
        var n := Read(buf, lens[i], caps[i]);
        data := data + buf[..n];
        Joined(Gzip(src), old(pos), before, pos);
      }
    }
  }

  function LowFirst(a: int, b: int, c: int, d: int): int { a + 0x100 * b + 0x1_0000 * c + 0x100_0000 * d }

  /**
    * The gzip file by section 2.3 of RFC 1952: the two identification bytes, deflate as the method, no flags, no time,
    * no extra flags, Unix; then the content; then, unless the archive is cut short, crc and size, low bytes first.
    */
  lemma GzipFile(file: seq<byte>, start: nat, hdr: ZipScan.Hdr)
    requires start <= |file| && hdr.crc32 < 0x1_0000_0000 && hdr.uncompSize < 0x1_0000_0000
    ensures var g := Gzip(Source(file, start, hdr.compSize, Trailer(hdr.crc32, hdr.uncompSize)));
      var head := [0x1f, 0x8b, 8, 0, 0, 0, 0, 0, 0, 3];
      if start + hdr.compSize > |file| then g == head + file[start..]
      else
        && |g| == 10 + hdr.compSize + 8 && g[..10 + hdr.compSize] == head + file[start..start + hdr.compSize]
        && var t := g[10 + hdr.compSize..];
           LowFirst(t[0], t[1], t[2], t[3]) == hdr.crc32 && LowFirst(t[4], t[5], t[6], t[7]) == hdr.uncompSize
  {
    var t := Trailer(hdr.crc32, hdr.uncompSize);
    hide Trailer;
    var s := Source(file, start, hdr.compSize, t);
    var body := HEAD + file[start..start + Available(s)];
    if start + hdr.compSize > |file| {
      assert body + [] == body;
    } else {
      assert (body + t)[..|body|] == body && (body + t)[|body|..] == t;
    }
  }

  /** The content left from position `pos` on. */
  function Content(s: Source, pos: nat): nat
    requires ValidSource(s)
  {
    if pos < HEAD_LENGTH + Available(s) then HEAD_LENGTH + Available(s) - pos else 0
  }

  lemma HeadSlice(s: Source, pos: nat, n: nat)
    requires ValidSource(s) && pos + n <= HEAD_LENGTH
    ensures |HEAD| == HEAD_LENGTH && Gzip(s)[pos..pos + n] == HEAD[pos..pos + n]
  {
    assert |HEAD| == HEAD_LENGTH;
  }

  lemma ContentSlice(s: Source, pos: nat, n: nat)
    requires ValidSource(s) && HEAD_LENGTH <= pos && pos + n <= HEAD_LENGTH + Available(s)
    ensures Gzip(s)[pos..pos + n] == s.file[s.start + pos - HEAD_LENGTH..s.start + pos - HEAD_LENGTH + n]
  {
    assert |HEAD| == HEAD_LENGTH;
    var body, off := s.file[s.start..s.start + Available(s)], pos - HEAD_LENGTH;
    Middle(HEAD, body, if Available(s) == s.compSize then s.trailer else [], off, n);
    Within(s.file, s.start, Available(s), off, n);
  }

  lemma Middle(a: seq<byte>, b: seq<byte>, c: seq<byte>, i: nat, n: nat)
    requires i + n <= |b|
    ensures (a + b + c)[|a| + i..|a| + i + n] == b[i..i + n]
  {
  }

  lemma Within(s: seq<byte>, start: nat, len: nat, i: nat, n: nat)
    requires start + len <= |s| && i + n <= len
    ensures s[start..start + len][i..i + n] == s[start + i..start + i + n]
  {
    var a, b := s[start..start + len][i..i + n], s[start + i..start + i + n];
    assert forall k | 0 <= k < n :: a[k] == b[k];
  }

  lemma TrailerSlice(s: Source, cur: nat, n: nat)
    requires ValidSource(s) && Available(s) == s.compSize && cur + n <= TRAILER_LENGTH
    ensures var pos := HEAD_LENGTH + s.compSize + cur; Gzip(s)[pos..pos + n] == s.trailer[cur..cur + n]
  {
    assert |HEAD| == HEAD_LENGTH;
  }

  lemma Joined(s: seq<byte>, a: nat, b: nat, c: nat)
    requires a <= b <= c <= |s|
    ensures s[a..c] == s[a..b] + s[b..c]
  {
  }
}
