/**
 * store/store.go: serving the bytes of one block. A reference "path-offset" is
 * split on '-', the last piece is read as the offset and the other pieces name
 * the file under the root; one BlockSize buffer is read at that offset.
 */
module Store {
  import opened Results
  import opened Text
  import opened FilePaths
  import opened Os
  import opened Upspin
  import LocalStorage
  import Packing

  datatype Store = Store(root: string)

  /** The upspin error kinds Get returns. */
  datatype StoreError = NotExist | IO

  /** A decoded reference: the file under the root and the offset to read at. */
  datatype BlockAddress = BlockAddress(relativePath: string, offset: nat)

  /** The last piece of `ref` split on '-' is the text after the last dash; the
      earlier pieces joined with "" are the text before it without its dashes, and
      joined with "-" they are that text itself. */
  lemma DecodePieces(ref: string)
    ensures var split := Split(ref, '-'); var k := LastIndexOf(ref, '-');
      split[|split| - 1] == ref[k + 1..]
      && Concat(split[..|split| - 1]) == (if k < 0 then "" else Without(ref[..k], '-'))
      && Join(split[..|split| - 1], "-") == (if k < 0 then "" else ref[..k])
  {
    SplitLast(ref, '-');
    var k := LastIndexOf(ref, '-');
    var split := Split(ref, '-');
    if k >= 0 {
      var front := split[..|split| - 1];
      assert front == Split(ref[..k], '-');
      ConcatSplit(ref[..k], '-');
      JoinSplit(ref[..k], '-');
      assert Join(front, "-") == ref[..k];
    } else {
      assert split[..|split| - 1] == [];
    }
  }

  /** The text after the last dash of `ref`: all of it when it has none. */
  function AfterLastDash(ref: string): string
  {
    ref[LastIndexOf(ref, '-') + 1..]
  }

  /** The text before the last dash of `ref`, or "" when it has none. */
  function BeforeLastDash(ref: string): string
  {
    var k := LastIndexOf(ref, '-');
    if k < 0 then "" else ref[..k]
  }

  /** The offset text follows the last dash, so it holds no '-' and never
      parses to a negative number. */
  lemma OffsetNeverNegative(ref: string)
    ensures ParseInt64(AfterLastDash(ref)).Some? ==> ParseInt64(AfterLastDash(ref)).value >= 0
  {
    AfterLast(ref, '-', LastIndexOf(ref, '-'));
  }

  /** The offset piece both decoders parse is the text after the last dash,
      and it never parses negative. */
  lemma OffsetPiece(ref: string)
    ensures var split := Split(ref, '-');
      ParseInt64(split[|split| - 1]) == ParseInt64(AfterLastDash(ref))
      && (ParseInt64(split[|split| - 1]).Some? ==> ParseInt64(split[|split| - 1]).value >= 0)
  {
    SplitLast(ref, '-');
    OffsetNeverNegative(ref);
  }

  /** The pieces before the last one, rejoined with "-", are the text before the
      last dash. */
  lemma FrontRejoined(ref: string)
    ensures var split := Split(ref, '-');
      Join(split[..|split| - 1], "-") == BeforeLastDash(ref)
  {
    DecodePieces(ref);
  }

  /** The pieces before the last one, joined with "", are the text before the
      last dash without its dashes. */
  lemma FrontConcatenated(ref: string)
    ensures var split := Split(ref, '-');
      Concat(split[..|split| - 1]) == Without(BeforeLastDash(ref), '-')
  {
    DecodePieces(ref);
  }

  /** Get's decoding as written: the pieces before the last one are joined with
      "" (so every '-' of the path is lost), the last one is parsed as an int64. */
  function DecodeRef(ref: string): (r: Option<BlockAddress>)
    ensures r.Some? <==> ParseInt64(AfterLastDash(ref)).Some?
    ensures r.Some? ==> r.value.offset == ParseInt64(AfterLastDash(ref)).value
    ensures r.Some? ==> r.value.relativePath == Without(BeforeLastDash(ref), '-')
  {
    var split := Split(ref, '-');
    OffsetPiece(ref);
    FrontConcatenated(ref);
    match ParseInt64(split[|split| - 1])
    case None => None
    case Some(offset) => Some(BlockAddress(Concat(split[..|split| - 1]), offset))
  }

  /** The decoding the encoder of packing/plain.go calls for: the pieces before
      the last one rejoined with '-', i.e. the text before the last dash. */
  function DecodeRefIntended(ref: string): (r: Option<BlockAddress>)
    ensures r.Some? <==> ParseInt64(AfterLastDash(ref)).Some?
    ensures r.Some? ==> r.value.offset == ParseInt64(AfterLastDash(ref)).value
    ensures r.Some? ==> r.value.relativePath == BeforeLastDash(ref)
  {
    var split := Split(ref, '-');
    OffsetPiece(ref);
    FrontRejoined(ref);
    match ParseInt64(split[|split| - 1])
    case None => None
    case Some(offset) => Some(BlockAddress(Join(split[..|split| - 1], "-"), offset))
  }

  /** The BlockSize buffer after ReadAt: the file's bytes from `offset` on, and
      zeros past the end of the file. */
  function ReadBlock(data: seq<byte>, offset: nat): (b: seq<byte>)
    ensures |b| == BlockSize
    ensures forall i :: 0 <= i < BlockSize && offset + i < |data| ==> b[i] == data[offset + i]
    ensures forall i :: 0 <= i < BlockSize && offset + i >= |data| ==> b[i] == 0
  {
    seq(BlockSize, i requires 0 <= i < BlockSize => if offset + i < |data| then data[offset + i] else 0)
  }

  /** The part of Get after decoding: open the file under the root, read one
      block at the offset; a failing read is an IO error. */
  function Serve(fs: FileSystem, st: Store, ref: string, addr: Option<BlockAddress>): (r: Result<(seq<byte>, Refdata), StoreError>)
  {
    if ref == HTTPBaseMetadata then Err(NotExist)
    else match addr
      case None => Err(NotExist)
      case Some(a) =>
        var path := JoinPath(st.root, a.relativePath);
        if path !in fs then Err(NotExist)
        else if fs[path].readFails then Err(IO)
        else Ok((ReadBlock(fs[path].data, a.offset), Refdata(ref)))
  }

  /** Store.Get. */
  function Get(fs: FileSystem, st: Store, ref: string): (r: Result<(seq<byte>, Refdata), StoreError>)
    ensures ref == HTTPBaseMetadata ==> r == Err(NotExist)
    ensures ref != HTTPBaseMetadata && DecodeRef(ref).None? ==> r == Err(NotExist)
    ensures ref != HTTPBaseMetadata && DecodeRef(ref).Some? ==>
      var a := DecodeRef(ref).value;
      var path := JoinPath(st.root, a.relativePath);
      (path !in fs ==> r == Err(NotExist))
      && (path in fs && fs[path].readFails ==> r == Err(IO))
      && (path in fs && !fs[path].readFails ==> r == Ok((ReadBlock(fs[path].data, a.offset), Refdata(ref))))
  {
    Serve(fs, st, ref, DecodeRef(ref))
  }

  /** Get with the intended decoding. */
  function GetIntended(fs: FileSystem, st: Store, ref: string): (r: Result<(seq<byte>, Refdata), StoreError>)
    ensures DecodeRefIntended(ref) == DecodeRef(ref) ==> r == Get(fs, st, ref)
  {
    Serve(fs, st, ref, DecodeRefIntended(ref))
  }

  // ---------------------------------------------------------------------------
  // Properties
  // ---------------------------------------------------------------------------

  /** The sentinel reference is refused whatever the filesystem holds. */
  lemma SentinelRefused(fs1: FileSystem, fs2: FileSystem, st: Store)
    ensures Get(fs1, st, HTTPBaseMetadata) == Get(fs2, st, HTTPBaseMetadata) == Err(NotExist)
  {
  }

  /** A successful Get always returns a whole BlockSize buffer holding the file's
      bytes from the offset, zeros past the end (all zeros when the offset is at
      or past the end), and a receipt echoing the reference. */
  lemma GetContents(fs: FileSystem, st: Store, ref: string)
    requires Get(fs, st, ref).Ok?
    ensures var a := DecodeRef(ref).value; var data := fs[JoinPath(st.root, a.relativePath)].data;
      var (bytes, receipt) := Get(fs, st, ref).value;
      |bytes| == BlockSize && receipt == Refdata(ref) && a.offset >= 0
      && (forall i :: 0 <= i < BlockSize && a.offset + i < |data| ==> bytes[i] == data[a.offset + i])
      && (forall i :: 0 <= i < BlockSize && a.offset + i >= |data| ==> bytes[i] == 0)
      && (a.offset >= |data| ==> forall i :: 0 <= i < BlockSize ==> bytes[i] == 0)
  {
    var a := DecodeRef(ref).value;
    var path := JoinPath(st.root, a.relativePath);
    assert path in fs && a.offset >= 0;
    ServedBlock(fs[path].data, a.offset, Get(fs, st, ref).value.0);
  }

  lemma ServedBlock(data: seq<byte>, offset: nat, bytes: seq<byte>)
    requires bytes == ReadBlock(data, offset)
    ensures |bytes| == BlockSize
    ensures forall i :: 0 <= i < BlockSize && offset + i < |data| ==> bytes[i] == data[offset + i]
    ensures forall i :: 0 <= i < BlockSize && offset + i >= |data| ==> bytes[i] == 0
    ensures offset >= |data| ==> forall i :: 0 <= i < BlockSize ==> bytes[i] == 0
  {
  }

  /** Decoding a reference packing/plain.go wrote gives the offset back and the
      filename with its dashes removed. */
  lemma DecodeBlockRef(f: string, offset: nat)
    requires offset <= Int64Max
    ensures DecodeRef(Packing.BlockRef(f, offset)) == Some(BlockAddress(Without(f, '-'), offset))
    ensures DecodeRefIntended(Packing.BlockRef(f, offset)) == Some(BlockAddress(f, offset))
  {
    var ref := Packing.BlockRef(f, offset);
    var d := Decimal(offset);
    assert '-' !in d by {
      forall i | 0 <= i < |d| ensures d[i] != '-' {
        assert IsDigit(d[i]);
      }
    }
    assert ref == f + ['-'] + d;
    LastSlashFree(f, d);
    assert ref[|f| + 1..] == d;
    assert ref[..|f|] == f;
    ParseDecimal(offset);
  }

  lemma LastSlashFree(f: string, d: string)
    requires '-' !in d
    ensures LastIndexOf(f + ['-'] + d, '-') == |f|
  {
    var s := f + ['-'] + d;
    assert s[|f|] == '-';
    assert s[|f| + 1..] == d;
    LastIndexOfAt(s, '-', |f|);
  }

  /** For a dash-free filename the written decoding is exact: the round trip
      with the encoder holds. */
  lemma DecodeDashFree(f: string, offset: nat)
    requires offset <= Int64Max && '-' !in f
    ensures DecodeRef(Packing.BlockRef(f, offset)) == Some(BlockAddress(f, offset))
  {
    DecodeBlockRef(f, offset);
    WithoutAbsent(f, '-');
  }

  /** The written decoding loses the dashes: for a filename with a dash, the
      decoded path has none, so it names another file. */
  lemma DashedNameMisread(f: string, offset: nat)
    requires offset <= Int64Max && '-' in f
    ensures DecodeRef(Packing.BlockRef(f, offset)).Some?
    ensures '-' !in DecodeRef(Packing.BlockRef(f, offset)).value.relativePath
    ensures DecodeRef(Packing.BlockRef(f, offset)).value.relativePath != f
  {
    DecodeBlockRef(f, offset);
  }

  /** The block "/my-file" stores at offset 0 is looked up elsewhere. */
  lemma DashDroppedWitness(f: string)
    requires f == "/my-file"
    ensures DecodeRef(Packing.BlockRef(f, 0)).Some?
    ensures DecodeRef(Packing.BlockRef(f, 0)).value.relativePath != f
  {
    assert f[3] == '-';
    DashedNameMisread(f, 0);
  }

  /** The text after the last dash must be an int64: "bogus-ref" is NotExist. */
  lemma BogusRefNotExist(fs: FileSystem, st: Store, ref: string)
    requires ref == "bogus-ref"
    ensures Get(fs, st, ref) == Err(NotExist)
  {
    assert ref == "bogus" + ['-'] + "ref";
    LastSlashFree("bogus", "ref");
    assert ref[6..] == "ref";
  }

  /** The scenario "report.bin-1048576" over a 1,500,000-byte file: the block
      starts at byte 1048576 and its first 451424 bytes are the rest of the file. */
  lemma ReportScenario(fs: FileSystem, st: Store, ref: string)
    requires ref == Packing.BlockRef("report.bin", 1048576)
    requires JoinPath(st.root, "report.bin") in fs
    requires !fs[JoinPath(st.root, "report.bin")].readFails
    requires |fs[JoinPath(st.root, "report.bin")].data| == 1500000
    ensures Get(fs, st, ref).Ok?
    ensures var data := fs[JoinPath(st.root, "report.bin")].data; var bytes := Get(fs, st, ref).value.0;
      (forall i :: 0 <= i < 451424 ==> bytes[i] == data[1048576 + i])
      && (forall i :: 451424 <= i < BlockSize ==> bytes[i] == 0)
  {
    GetDashFree(fs, st, "report.bin", 1048576);
    ServedBlock(fs[JoinPath(st.root, "report.bin")].data, 1048576, Get(fs, st, ref).value.0);
  }

  /** Getting a block of a dash-free file that is readable under the root
      yields the bytes at the block's offset. */
  lemma GetDashFree(fs: FileSystem, st: Store, f: string, offset: nat)
    requires offset <= Int64Max && '-' !in f
    requires JoinPath(st.root, f) in fs && !fs[JoinPath(st.root, f)].readFails
    ensures Get(fs, st, Packing.BlockRef(f, offset))
      == Ok((ReadBlock(fs[JoinPath(st.root, f)].data, offset), Refdata(Packing.BlockRef(f, offset))))
  {
    DecodeDashFree(f, offset);
    BlockRefNotSentinel(f, offset);
  }

  /** No block reference is the sentinel: a block reference ends in a digit. */
  lemma BlockRefNotSentinel(f: string, offset: nat)
    ensures Packing.BlockRef(f, offset) != HTTPBaseMetadata
  {
    var ref := Packing.BlockRef(f, offset);
    var d := Decimal(offset);
    assert ref[|ref| - 1] == d[|d| - 1];
    assert IsDigit(ref[|ref| - 1]);
    assert !IsDigit(HTTPBaseMetadata[|HTTPBaseMetadata| - 1]);
  }

  // ---------------------------------------------------------------------------
  // From the entry to the bytes
  // ---------------------------------------------------------------------------

  /** The bytes of block i of the file at `path`. */
  function BlockBytes(fs: FileSystem, path: string, b: DirBlock): seq<byte>
    requires path in fs && b.offset >= 0
  {
    ReadBlock(fs[path].data, b.offset)
  }

  /** Serving a decoded block of a readable file yields the block's bytes. */
  lemma ServeBlock(fs: FileSystem, st: Store, f: string, path: string, b: DirBlock)
    requires b.offset >= 0 && b.location.reference != HTTPBaseMetadata
    requires path == JoinPath(st.root, f) && path in fs && !fs[path].readFails
    ensures Serve(fs, st, b.location.reference, Some(BlockAddress(f, b.offset)))
      == Ok((BlockBytes(fs, path, b), Refdata(b.location.reference)))
  {
  }

  /** The reference of block i of a record names the record's file at the
      block's offset, and is not the sentinel. */
  lemma BlockReference(fi: LocalStorage.FileInfo, i: nat)
    requires fi.size <= Int64Max && i < |Packing.Blocks(fi)|
    ensures var b := Packing.Blocks(fi)[i];
      0 <= b.offset <= Int64Max && b.location.reference == Packing.BlockRef(fi.filename, b.offset)
      && b.location.reference != HTTPBaseMetadata
  {
    var b := Packing.Blocks(fi)[i];
    BlockOffsetInRange(fi, i);
    BlockRefNotSentinel(fi.filename, b.offset);
  }

  /** Under a proper root, the name Stat reports is the file under the root. */
  lemma StatNamesFile(fs: FileSystem, ls: LocalStorage.Storage, name: string)
    requires LocalStorage.ProperRoot(ls.root) && LocalStorage.Stat(fs, ls, name).Ok?
    ensures JoinPath(ls.root, LocalStorage.Stat(fs, ls, name).value.filename) == LocalStorage.Filename(ls, name)
    ensures LocalStorage.Filename(ls, name) in fs
  {
    LocalStorage.RootRelativeMatchesProperRoots(ls, name);
  }

  /** A block of a file's entry (a record from Stat under a proper root, whose
      filename has no dash), fetched from a store on the same root, comes from
      the file Stat looked at, at the block's own offset. */
  lemma BlockRoundTrip(fs: FileSystem, ls: LocalStorage.Storage, st: Store, name: string, i: nat)
    requires st.root == ls.root && LocalStorage.ProperRoot(ls.root)
    requires LocalStorage.Stat(fs, ls, name).Ok?
    requires var fi := LocalStorage.Stat(fs, ls, name).value;
      fi.size <= Int64Max && i < |Packing.Blocks(fi)| && '-' !in fi.filename
    requires !fs[LocalStorage.Filename(ls, name)].readFails
    ensures var fi := LocalStorage.Stat(fs, ls, name).value; var b := Packing.Blocks(fi)[i];
      var path := LocalStorage.Filename(ls, name);
      path in fs && b.offset >= 0
      && Get(fs, st, b.location.reference) == Ok((BlockBytes(fs, path, b), Refdata(b.location.reference)))
  {
    var fi := LocalStorage.Stat(fs, ls, name).value;
    StatNamesFile(fs, ls, name);
    BlockReference(fi, i);
    var b := Packing.Blocks(fi)[i];
    DecodeDashFree(fi.filename, b.offset);
    ServeBlock(fs, st, fi.filename, LocalStorage.Filename(ls, name), b);
  }

  /** With the intended decoding the round trip holds for every filename and,
      reporting root-relative names, under every non-empty root. */
  lemma BlockRoundTripIntended(fs: FileSystem, ls: LocalStorage.Storage, st: Store, name: string, i: nat)
    requires st.root == ls.root && ls.root != ""
    requires LocalStorage.StatRooted(fs, ls, name).Ok?
    requires var fi := LocalStorage.StatRooted(fs, ls, name).value;
      fi.size <= Int64Max && i < |Packing.Blocks(fi)|
    requires !fs[LocalStorage.Filename(ls, name)].readFails
    ensures var fi := LocalStorage.StatRooted(fs, ls, name).value; var b := Packing.Blocks(fi)[i];
      var path := LocalStorage.Filename(ls, name);
      path in fs && b.offset >= 0
      && GetIntended(fs, st, b.location.reference) == Ok((BlockBytes(fs, path, b), Refdata(b.location.reference)))
  {
    var fi := LocalStorage.StatRooted(fs, ls, name).value;
    BlockReference(fi, i);
    var b := Packing.Blocks(fi)[i];
    DecodeBlockRef(fi.filename, b.offset);
    ServeBlock(fs, st, fi.filename, LocalStorage.Filename(ls, name), b);
  }

  /** Block i of a file starts at i * BlockSize, inside the file, so its offset
      fits in an int64 whenever the size does. */
  lemma BlockOffsetInRange(fi: LocalStorage.FileInfo, i: nat)
    requires i < |Packing.Blocks(fi)|
    ensures Packing.Blocks(fi)[i].offset == i * BlockSize < fi.size
  {
    assert i * BlockSize <= (|Packing.Blocks(fi)| - 1) * BlockSize;
  }
}
