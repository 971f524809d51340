/** Archives written with their local headers and contents: a name that is scanned for leads to its data. */
module ZipContents {
  import opened Bytes
  import opened ZipScan
  import opened ZipWrite

  /** A file to put into an archive; `data` is as stored there, `localExtra` is only in the local header. */
  datatype File = File(name: seq<byte>, data: seq<byte>, localExtra: seq<byte>, method_: nat, crc32: nat,
                       uncompSize: nat, modTime: nat, extra: nat, comment: nat)

  predicate FileFits(f: File)
  {
    && |f.name| < 0x1_0000 && |f.localExtra| < 0x1_0000 && f.method_ < 0x1_0000 && f.extra < 0x1_0000
    && f.comment < 0x1_0000 && |f.data| < 0x1_0000_0000
    && f.crc32 < 0x1_0000_0000 && f.uncompSize < 0x1_0000_0000 && f.modTime < 0x1_0000_0000
  }

  predicate AllFit(files: seq<File>) { forall k | 0 <= k < |files| :: FileFits(files[k]) }

  /** The central directory header of a file whose local header is at `offset`. */
  function HdrOf(f: File, offset: nat): Hdr
  {
    Hdr(f.method_, f.crc32, |f.data|, f.uncompSize, offset, f.modTime, |f.name|, f.extra, f.comment)
  }

  const LOCAL_SIGNATURE: seq<byte> := [0x50, 0x4B, 3, 4, 20, 0, 0, 0]

  function LocalHeader(f: File): (r: seq<byte>)
    requires FileFits(f)
    ensures |r| == LOCAL_LENGTH && U16(r, 28) == |f.localExtra|
  {
    var h := HdrOf(f, 0);
    var front := LOCAL_SIGNATURE + Sums(h) + Sizes(h) + Le16(|f.name|);
    var r := front + Le16(|f.localExtra|);
    assert r == front + Le16(|f.localExtra|) + [];
    Shift(front, Le16(|f.localExtra|), [], 0);
    r
  }

  /** The local header, the name, the extra field and the data. */
  function Record(f: File): seq<byte>
    requires FileFits(f)
  {
    LocalHeader(f) + f.name + f.localExtra + f.data
  }

  function Body(files: seq<File>): seq<byte>
    requires AllFit(files)
  {
    if files == [] then [] else Body(files[..|files| - 1]) + Record(files[|files| - 1])
  }

  function EntriesOf(files: seq<File>): (es: seq<Entry>)
    requires AllFit(files)
    ensures |es| == |files|
  {
    if files == [] then []
    else
      var most, f := files[..|files| - 1], files[|files| - 1];
      EntriesOf(most) + [Entry(f.name, HdrOf(f, |Body(most)|))]
  }

  predicate Fits(files: seq<File>) { AllFit(files) && |files| < 0x1_0000 && |Body(files)| < 0x1_0000_0000 }

  function WriteFiles(files: seq<File>): seq<byte>
    requires Fits(files)
  {
    WritableEntries(files);
    Write(Body(files), EntriesOf(files))
  }

  lemma {:induction false} FileAt(files: seq<File>, k: nat)
    requires AllFit(files) && k < |files|
    ensures EntriesOf(files)[k] == Entry(files[k].name, HdrOf(files[k], |Body(files[..k])|))
    ensures Body(files[..k]) + Record(files[k]) <= Body(files)
    decreases |files|
  {
    hide Record;
    var last := |files| - 1;
    if k < last {
      FileAt(files[..last], k);
      assert files[..last][..k] == files[..k];
    }
  }

  lemma WritableEntries(files: seq<File>)
    requires Fits(files)
    ensures forall k | 0 <= k < |files| :: Writable(EntriesOf(files)[k])
  {
    hide EntriesOf, Body;
    forall k | 0 <= k < |files| ensures Writable(EntriesOf(files)[k]) {
      FileAt(files, k);
    }
  }

  /** Where the data of a file lies behind its local header. */
  lemma RecordReads(f: File, before: seq<byte>, after: seq<byte>)
    requires FileFits(f)
    ensures var file := before + Record(f) + after;
      var h := HdrOf(f, |before|);
      && LocalCode(file, h) == Found
      && ContentStart(file, h) + |f.data| <= |file|
      && file[ContentStart(file, h)..ContentStart(file, h) + |f.data|] == f.data
  {
    hide LocalHeader;
    var file, head := before + Record(f) + after, LocalHeader(f);
    var rest := f.name + f.localExtra + f.data + after;
    assert file == before + head + rest;
    Shift(before, head, rest, 28);
    var front := before + head + f.name + f.localExtra;
    assert file == front + f.data + after;
    assert ContentStart(file, HdrOf(f, |before|)) == |front|;
  }

  /** A file that ends inside a local header, or before the data, is refused; one that ends inside the data is not. */
  lemma RecordCut(f: File, before: seq<byte>, n: nat)
    requires FileFits(f) && n <= |Record(f)|
    ensures LocalCode(before + Record(f)[..n], HdrOf(f, |before|))
         == if n < 30 then NameRead else if n < 30 + |f.name| + |f.localExtra| then ContentSanity else Found
  {
    hide LocalHeader;
    var head := LocalHeader(f);
    if n >= 30 {
      var rest := Record(f)[..n][30..];
      assert Record(f)[..n] == head + rest;
      assert before + Record(f)[..n] == before + head + rest;
      Shift(before, head, rest, 28);
    }
  }

  /** In the archive of some files, each entry leads to the data of its file. */
  lemma DataFound(files: seq<File>, k: nat)
    requires Fits(files) && k < |files|
    ensures var file, h := WriteFiles(files), EntriesOf(files)[k].hdr;
      && h.compSize == |files[k].data|
      && LocalCode(file, h) == Found
      && ContentStart(file, h) + h.compSize <= |file|
      && file[ContentStart(file, h)..ContentStart(file, h) + h.compSize] == files[k].data
  {
    hide EntriesOf, Body, Record, ContentStart, LocalCode, Directory, EndRecord;
    WritableEntries(files);
    FileAt(files, k);
    var body, es := Body(files), EntriesOf(files);
    var before, record := Body(files[..k]), Record(files[k]);
    var after := body[|before + record|..] + Directory(es) + EndRecord(GoodEnd(|es|, |body|));
    assert body == before + record + body[|before + record|..];
    assert WriteFiles(files) == before + record + after;
    RecordReads(files[k], before, after);
  }

  function FirstFile(files: seq<File>, name: seq<byte>): (r: Option<nat>)
    ensures r.Some? ==> r.value < |files|
  {
    if files == [] then None
    else if files[0].name == name then Some(0)
    else
      var r := FirstFile(files[1..], name);
      if r.Some? then Some(r.value + 1) else None
  }

  lemma {:induction false} SameFirst(files: seq<File>, es: seq<Entry>, name: seq<byte>)
    requires |es| == |files| && forall k | 0 <= k < |files| :: es[k].name == files[k].name
    ensures FirstNamed(es, name) == FirstFile(files, name)
    decreases |files|
  {
    if files != [] {
      SameFirst(files[1..], es[1..], name);
    }
  }

  /**
    * Writing an archive and opening a name in it: the data stored there is that of the first file with the name, and
    * not-found is reported exactly if no file has it; a name of 63 bytes or more is refused if a file's is as long.
    */
  method Fetch(files: seq<File>, name: seq<byte>) returns (code: Code, data: seq<byte>)
    requires Fits(files)
    ensures var r := FirstFile(files, name);
      if |name| >= 63 && exists k | 0 <= k < |files| :: |files[k].name| == |name| then code == NameTooLong && data == []
      else if r.Some? then code == Found && data == files[r.value].data
      else code == NotFound && data == []
  {
    hide Readable, ScanCode, WriteFiles, EntriesOf, ContentStart, FirstFile, FirstNamed, Body, AllFit;
    ScanFinds(files, name);
    var zip := new Zip(WriteFiles(files));
    code := zip.Scan(name, EntriesOf(files));
    data := if code == Found then zip.file[zip.pos..zip.pos + zip.hdr.compSize] else [];
  }

  lemma ScanFinds(files: seq<File>, name: seq<byte>)
    requires Fits(files)
    ensures var file, es, r := WriteFiles(files), EntriesOf(files), FirstFile(files, name);
      && Readable(file, es, name) && FirstNamed(es, name) == r
      && ScanCode(file, es, name)
         == (if |name| >= 63 && exists k | 0 <= k < |files| :: |files[k].name| == |name| then NameTooLong
             else if r.Some? then Found else NotFound)
      && (r.Some? ==>
            var h := es[r.value].hdr;
            && h.offset + LOCAL_LENGTH <= |file| && ContentStart(file, h) + h.compSize <= |file|
            && file[ContentStart(file, h)..ContentStart(file, h) + h.compSize] == files[r.value].data)
  {
    hide EntriesOf, WriteFiles, ContentStart, Opens, Damage;
    FilesAreArchive(files);
    var es := EntriesOf(files);
    forall k | 0 <= k < |files| ensures es[k].name == files[k].name {
      FileAt(files, k);
    }
    SameFirst(files, es, name);
    assert (exists k | 0 <= k < |files| :: |files[k].name| == |name|)
      <==> (exists k | 0 <= k < |es| :: |es[k].name| == |name|);
    var r := FirstFile(files, name);
    if r.Some? {
      DataFound(files, r.value);
    }
  }

  lemma FilesAreArchive(files: seq<File>)
    requires Fits(files)
    ensures Archive(WriteFiles(files), EntriesOf(files))
  {
    WritableEntries(files);
    WrittenIsArchive(Body(files), EntriesOf(files));
  }
}
