/**
  * Finding a file in a zip archive (lws_fops_zip_scan): the end record, then the central directory, entry
  * by entry, then the local header, whose end is where the content starts.
  */
module ZipScan {
  import opened Bytes

  function U16(b: seq<byte>, i: nat): nat
    requires i + 2 <= |b|
  {
    b[i] as int + 256 * b[i + 1] as int
  }

  function U32(b: seq<byte>, i: nat): nat
    requires i + 4 <= |b|
  {
    U16(b, i) + 0x1_0000 * U16(b, i + 2)
  }

  const END_LENGTH := 22       // ZE_DIRECTORY_LENGTH
  const CENTRAL_LENGTH := 46   // ZC_DIRECTORY_LENGTH
  const LOCAL_LENGTH := 30     // ZL_HEADER_LENGTH
  const BUF_LENGTH := 64

  /** 0, or one of the LWS_FZ_ERR_ codes. */
  datatype Code =
    | Found
    | ReadEndRecord
    | EndRecordMagic
    | EndRecordSanity
    | CentralRead
    | CentralSanity
    | NameTooLong
    | NameRead
    | ContentSanity
    | NotFound

  /** lws_fops_zip_hdr_t. */
  datatype Hdr = Hdr(method_: nat, crc32: nat, compSize: nat, uncompSize: nat, offset: nat, modTime: nat,
                     filenameLen: nat, extra: nat, comment: nat)

  // ----- an archive, after the zip format's own layout -----

  datatype Entry = Entry(name: seq<byte>, hdr: Hdr)

  function HdrAt(file: seq<byte>, p: nat): Hdr
    requires p + CENTRAL_LENGTH <= |file|
  {
    Hdr(U16(file, p + 10), U32(file, p + 16), U32(file, p + 20), U32(file, p + 24), U32(file, p + 42),
        U32(file, p + 12), U16(file, p + 28), U16(file, p + 30), U16(file, p + 32))
  }

  function EntrySize(e: Entry): nat
  {
    CENTRAL_LENGTH + e.hdr.filenameLen + e.hdr.extra + e.hdr.comment
  }

  /** A central directory entry at `p`. */
  predicate EntryAt(file: seq<byte>, p: nat, e: Entry)
  {
    && p + EntrySize(e) <= |file|
    && U32(file, p) == 0x0201_4B50
    && HdrAt(file, p) == e.hdr
    && |e.name| == e.hdr.filenameLen
    && file[p + CENTRAL_LENGTH..p + CENTRAL_LENGTH + |e.name|] == e.name
  }

  function EntryPos(entries: seq<Entry>, start: nat, k: nat): nat
    requires k <= |entries|
  {
    if k == 0 then start else EntryPos(entries, start, k - 1) + EntrySize(entries[k - 1])
  }

  predicate EndMagic(file: seq<byte>)
    requires |file| >= END_LENGTH
  {
    file[|file| - END_LENGTH..|file| - END_LENGTH + 4] == [0x50, 0x4B, 5, 6]
  }

  /** A single disk, whose entries are all here. */
  predicate EndSane(file: seq<byte>)
    requires |file| >= END_LENGTH
  {
    var p := |file| - END_LENGTH;
    U16(file, p + 4) == 0 && U16(file, p + 6) == 0 && U16(file, p + 10) == U16(file, p + 8)
  }

  /** An end record at the very end, and where it says, `entries`: all that it announces, or the first of them. */
  ghost predicate Opens(file: seq<byte>, entries: seq<Entry>)
  {
    && |file| >= END_LENGTH && EndMagic(file) && EndSane(file)
    && |entries| <= Announced(file)
    && forall k | 0 <= k < |entries| :: EntryAt(file, EntryPos(entries, CentralStart(file), k), entries[k])
  }

  function Announced(file: seq<byte>): nat
    requires |file| >= END_LENGTH
  {
    U16(file, |file| - END_LENGTH + 10)
  }

  /** A single-disk archive without comment: the end record and all the entries it announces. */
  ghost predicate Archive(file: seq<byte>, entries: seq<Entry>)
  {
    Opens(file, entries) && |entries| == Announced(file)
  }

  /** Why there is no entry to read at `p`, if so: the header is cut short or none, or its name is cut short. */
  function Damage(file: seq<byte>, p: nat, name: seq<byte>): Option<Code>
  {
    if p + 46 > |file| then Some(CentralRead)
    else if file[p..p + 4] != [0x50, 0x4B, 1, 2] then Some(CentralSanity)
    else if U16(file, p + 28) == |name| < 63 && p + 46 + |name| > |file| then Some(NameRead)
    else None
  }

  /** `entries` are all there is to find: all that is announced, or all up to a damaged one. */
  ghost predicate Readable(file: seq<byte>, entries: seq<Entry>, name: seq<byte>)
  {
    && Opens(file, entries)
    && (|entries| < Announced(file) ==> Damage(file, EntryPos(entries, CentralStart(file), |entries|), name).Some?)
  }

  function CentralStart(file: seq<byte>): nat
    requires |file| >= END_LENGTH
  {
    U32(file, |file| - END_LENGTH + 16)
  }

  // ----- what the scan should find -----

  function FirstNamed(entries: seq<Entry>, name: seq<byte>): (r: Option<nat>)
    ensures r.Some? ==> r.value < |entries| && entries[r.value].name == name
    ensures r.Some? ==> forall k | 0 <= k < r.value :: entries[k].name != name
    ensures r.None? ==> forall k | 0 <= k < |entries| :: entries[k].name != name
  {
    if entries == [] then None
    else if entries[0].name == name then Some(0)
    else
      var r := FirstNamed(entries[1..], name);
      assert forall k | 1 <= k < |entries| :: entries[k] == entries[1..][k - 1];
      if r.Some? then Some(r.value + 1) else None
  }

  /** Where the content starts, by the lengths in the local header. */
  function ContentStart(file: seq<byte>, h: Hdr): nat
    requires h.offset + LOCAL_LENGTH <= |file|
  {
    h.offset + LOCAL_LENGTH + h.filenameLen + U16(file, h.offset + 28)
  }

  function LocalCode(file: seq<byte>, h: Hdr): Code
  {
    if h.offset + LOCAL_LENGTH > |file| then NameRead
    else if ContentStart(file, h) > |file| then ContentSanity
    else Found
  }

  /**
    * The code for a directory: a name of 63 bytes or more is refused at the first entry with a name as long; damage
    * counts only where the name has not been found before it.
    */
  ghost function ScanCode(file: seq<byte>, entries: seq<Entry>, name: seq<byte>): Code
    requires Readable(file, entries, name)
  {
    if |name| >= 63 && exists k | 0 <= k < |entries| :: |entries[k].name| == |name| then NameTooLong
    else
      var r := FirstNamed(entries, name);
      if r.Some? then LocalCode(file, entries[r.value].hdr)
      else if |entries| == Announced(file) then NotFound
      else Damage(file, EntryPos(entries, CentralStart(file), |entries|), name).value
  }

  // ----- the scan -----

  class Zip {
    const file: seq<byte>
    var pos: nat                // zip_fop_fd->pos
    var contentStart: nat
    var hdr: Hdr

    constructor (file: seq<byte>)
      ensures this.file == file && pos == 0
    {
      this.file := file;
      pos, contentStart, hdr := 0, 0, Hdr(0, 0, 0, 0, 0, 0, 0, 0, 0);
    }

    /** lws_vfs_file_seek_set on a plain file: never beyond its end. */
    method SeekSet(p: int)
      modifies this`pos
      ensures pos == if p < 0 then 0 else if p > |file| then |file| else p
    {
      pos := if p < 0 then 0 else if p > |file| then |file| else p;
    }

    /** lws_vfs_file_read on a plain file: fewer bytes than asked for only at its end. */
    method Read(len: nat) returns (buf: seq<byte>)
      requires pos <= |file|
      modifies this`pos
      ensures pos == if old(pos) + len <= |file| then old(pos) + len else |file|
      ensures buf == file[old(pos)..pos]
    {
      var end := if pos + len <= |file| then pos + len else |file|;
      buf := file[pos..end];
      pos := end;
    }

    /** The end record: its code, and the number of entries left to look at. */
    method ReadEnd() returns (code: Code, i: nat)
      requires pos == 0
      modifies this`pos
      ensures pos <= |file|
      ensures |file| < END_LENGTH <==> code == ReadEndRecord
      ensures |file| >= END_LENGTH ==> code == if !EndMagic(file) then EndRecordMagic
                                               else if !EndSane(file) then EndRecordSanity else Found
      ensures code == Found ==> i == U16(file, |file| - END_LENGTH + 10)
      ensures code == Found ==> pos == if CentralStart(file) <= |file| then CentralStart(file) else |file|
    {
      i := 0;
      SeekSet(|file| - END_LENGTH);
      ghost var p := pos;
      var buf := Read(END_LENGTH);
      if |buf| != END_LENGTH {
        return ReadEndRecord, i;
      }
      assert forall k | 0 <= k < END_LENGTH :: buf[k] == file[p + k];
      assert file[p..p + 4] == buf[..4];
      if buf[0] != 0x50 || buf[1] != 0x4B || buf[2] != 5 || buf[3] != 6 {
        return EndRecordMagic, i;
      }
      i := U16(buf, 10);
      if U16(buf, 4) != 0 || U16(buf, 6) != 0 || i != U16(buf, 8) {
        return EndRecordSanity, i;
      }
      SeekSet(U32(buf, 16));
      code := Found;
    }

    /** One central directory header at the current position. */
    method ReadCentral() returns (code: Code)
      requires pos <= |file|
      modifies this
      ensures pos <= |file| && contentStart == old(pos)
      ensures old(pos) + CENTRAL_LENGTH > |file| ==> code == CentralRead
      ensures old(pos) + CENTRAL_LENGTH <= |file| ==>
        code == if U32(file, old(pos)) != 0x0201_4B50 then CentralSanity else Found
      ensures code == Found ==> pos == old(pos) + CENTRAL_LENGTH && hdr == HdrAt(file, old(pos))
    {
      contentStart := pos;
      var buf := Read(CENTRAL_LENGTH);
      if |buf| != CENTRAL_LENGTH {
        return CentralRead;
      }
      assert forall k | 0 <= k < CENTRAL_LENGTH :: buf[k] == file[contentStart + k];
      if U32(buf, 0) != 0x0201_4B50 {
        return CentralSanity;
      }
      hdr := Hdr(U16(buf, 10), U32(buf, 16), U32(buf, 20), U32(buf, 24), U32(buf, 42),
                 U32(buf, 12), U16(buf, 28), U16(buf, 30), U16(buf, 32));
      return Found;
    }

    /** The name that follows the header, where it is as long as `name`. */
    method CompareName(name: seq<byte>) returns (code: Code)
      requires pos <= |file| && hdr.filenameLen == |name|
      modifies this`pos
      ensures pos <= |file|
      ensures |name| >= BUF_LENGTH - 1 <==> code == NameTooLong
      ensures |name| < BUF_LENGTH - 1 ==>
        code == if old(pos) + |name| > |file| then NameRead
                else if file[old(pos)..old(pos) + |name|] == name then Found else NotFound
    {
      if |name| >= BUF_LENGTH - 1 {
        return NameTooLong;
      }
      var buf := Read(|name|);
      if |buf| != |name| {
        return NameRead;
      }
      return if buf == name then Found else NotFound;
    }

    /** A match: the local header tells where the content starts. */
    method EnterContent() returns (code: Code)
      requires pos <= |file|
      modifies this`pos, this`contentStart
      ensures pos <= |file| && code == LocalCode(file, hdr)
      ensures code == Found ==> contentStart == pos == ContentStart(file, hdr)
    {
      SeekSet(hdr.offset);
      ghost var p := pos;
      var buf := Read(LOCAL_LENGTH);
      if |buf| != LOCAL_LENGTH {
        return NameRead;
      }
      assert forall k | 0 <= k < LOCAL_LENGTH :: buf[k] == file[p + k];
      contentStart := hdr.offset + LOCAL_LENGTH + hdr.filenameLen + U16(buf, 28);
      if contentStart > |file| {
        return ContentSanity;
      }
      SeekSet(contentStart);
      return Found;
    }

    /** lws_fops_zip_scan; `entries` are those that the file has. */
    method Scan(name: seq<byte>, ghost entries: seq<Entry>) returns (code: Code)
      requires pos == 0
      modifies this
      ensures pos <= |file|
      ensures code == Found ==> pos == contentStart
      ensures |file| < END_LENGTH ==> code == ReadEndRecord
      ensures |file| >= END_LENGTH && !EndMagic(file) ==> code == EndRecordMagic
      ensures |file| >= END_LENGTH && EndMagic(file) && !EndSane(file) ==> code == EndRecordSanity
      ensures Readable(file, entries, name) ==> code == ScanCode(file, entries, name)
      ensures Readable(file, entries, name) && code == Found ==>
        var e := entries[FirstNamed(entries, name).value];
        hdr == e.hdr && contentStart == ContentStart(file, e.hdr)
    {
      hide ScanCode, FirstNamed, EntryAt, EndMagic, EndSane, Damage;
      var i;
      code, i := ReadEnd();
      if code == Found {
        code := ScanDirectory(i, name, entries, Readable(file, entries, name));
      }
    }

    /** The loop over the directory; `good` says that it starts at the first of `entries`. */
    method ScanDirectory(count: nat, name: seq<byte>, ghost entries: seq<Entry>, ghost good: bool) returns (code: Code)
      requires pos <= |file| && (good ==> Readable(file, entries, name) && count == Announced(file))
      requires good ==> pos == Clamped(file, CentralStart(file))
      modifies this
      ensures pos <= |file|
      ensures code == Found ==> pos == contentStart
      ensures good ==> code == ScanCode(file, entries, name)
      ensures good && code == Found ==>
        var e := entries[FirstNamed(entries, name).value];
        hdr == e.hdr && contentStart == ContentStart(file, e.hdr)
    {
      hide ScanCode, FirstNamed, EntryAt, EndMagic, EndSane, U16, U32, ContentStart, Damage, EntryPos;
      ghost var k := 0;
      var i := count;
      if good {
        AtStart(file, entries);
      }
      while i > 0
        invariant pos <= |file| && i + k == count
        invariant good ==> NoneYet(entries, name, k)
        invariant good && i > 0 ==> pos == Clamped(file, EntryPos(entries, CentralStart(file), k))
      {
        i := i - 1;
        if good && k < |entries| {
          InFile(file, entries, k);
        }
        ghost var p := pos;
        code := OneEntry(name);
        if code != NotFound {
          if good && k == |entries| {
            DamageFound(file, entries, name, p, code);
          } else {
            SettleScan(file, entries, name, k, code, good);
          }
          return;
        }
        if good {
          if k == |entries| {
            DamageFound(file, entries, name, p, code);
          }
          StillNone(file, entries, name, k);
        }
        if i > 0 {
          SeekSet(contentStart + CENTRAL_LENGTH + hdr.filenameLen + hdr.extra + hdr.comment);
        }
        k := k + 1;
      }
      code := NotFound;
      NothingFound(file, entries, name, good);
    }

    /** One entry of the directory: not the one, the one, or an error. */
    method OneEntry(name: seq<byte>) returns (code: Code)
      requires pos <= |file|
      modifies this
      ensures pos <= |file|
      ensures code == Found ==> pos == contentStart
      ensures forall e: Entry | EntryAt(file, old(pos), e) ::
        && code == EntryCode(file, e, name)
        && hdr == e.hdr
        && (code == NotFound ==> contentStart == old(pos))
        && (code == Found ==> contentStart == ContentStart(file, e.hdr))
      ensures Damage(file, old(pos), name).Some? ==> code == Damage(file, old(pos), name).value
    {
      ghost var p := pos;
      if p + CENTRAL_LENGTH <= |file| {
        SignatureIs(file, p);
      }
      code := ReadCentral();
      if code != Found {
        return;
      }
      if hdr.filenameLen != |name| {
        return NotFound;
      }
      code := CompareName(name);
      if code == Found {
        code := EnterContent();
      }
    }
  }

  function EntryCode(file: seq<byte>, e: Entry, name: seq<byte>): Code
  {
    if |e.name| != |name| then NotFound
    else if |name| >= BUF_LENGTH - 1 then NameTooLong
    else if e.name == name then LocalCode(file, e.hdr)
    else NotFound
  }

  /** None of the first `k` entries ends the scan. */
  ghost predicate NoneYet(entries: seq<Entry>, name: seq<byte>, k: nat)
  {
    && k <= |entries|
    && forall j | 0 <= j < k ::
      entries[j].name != name && (|name| >= BUF_LENGTH - 1 ==> |entries[j].name| != |name|)
  }

  /** Where a seek to `p` ends. */
  function Clamped(file: seq<byte>, p: nat): nat { if p <= |file| then p else |file| }

  lemma AtStart(file: seq<byte>, entries: seq<Entry>)
    requires |file| >= END_LENGTH
    ensures EntryPos(entries, CentralStart(file), 0) == CentralStart(file)
  {
  }

  /** The signature as a number is the four bytes. */
  lemma SignatureIs(file: seq<byte>, p: nat)
    requires p + 4 <= |file|
    ensures U32(file, p) == 0x0201_4B50 <==> file[p..p + 4] == [0x50, 0x4B, 1, 2]
  {
    var s := file[p..p + 4];
    assert s == [file[p], file[p + 1], file[p + 2], file[p + 3]];
  }

  lemma DamageFound(file: seq<byte>, entries: seq<Entry>, name: seq<byte>, p: nat, code: Code)
    requires Readable(file, entries, name) && |entries| < Announced(file) && NoneYet(entries, name, |entries|)
    requires p == Clamped(file, EntryPos(entries, CentralStart(file), |entries|))
    requires Damage(file, p, name).Some? ==> code == Damage(file, p, name).value
    ensures code == ScanCode(file, entries, name) && code != NotFound && code != Found
  {
    hide LocalCode, EntryAt, EntryPos, EndMagic, EndSane;
  }

  lemma InFile(file: seq<byte>, entries: seq<Entry>, k: nat)
    requires Opens(file, entries) && k < |entries|
    ensures var p := EntryPos(entries, CentralStart(file), k); p <= |file| && EntryAt(file, p, entries[k])
    ensures EntryPos(entries, CentralStart(file), k + 1)
         == EntryPos(entries, CentralStart(file), k) + EntrySize(entries[k])
  {
  }

  lemma StillNone(file: seq<byte>, entries: seq<Entry>, name: seq<byte>, k: nat)
    requires k < |entries| && NoneYet(entries, name, k) && EntryCode(file, entries[k], name) == NotFound
    ensures NoneYet(entries, name, k + 1)
  {
  }

  lemma NothingFound(file: seq<byte>, entries: seq<Entry>, name: seq<byte>, good: bool)
    requires good ==> Readable(file, entries, name) && NoneYet(entries, name, |entries|) && |entries| == Announced(file)
    ensures good ==> ScanCode(file, entries, name) == NotFound
  {
  }

  lemma SettleScan(file: seq<byte>, entries: seq<Entry>, name: seq<byte>, k: nat, code: Code, good: bool)
    requires good ==> Readable(file, entries, name)
    requires good ==>
      k < |entries| && NoneYet(entries, name, k) && code == EntryCode(file, entries[k], name) != NotFound
    ensures good ==> code == ScanCode(file, entries, name)
    ensures good && code == Found ==> FirstNamed(entries, name) == Some(k)
  {
    hide Opens, Damage, LocalCode, EntryPos, Announced;
    if good && |name| < BUF_LENGTH - 1 {
      var r := FirstNamed(entries, name);
      assert entries[k].name == name;
      assert r.Some? && r.value == k;
    }
  }
}
