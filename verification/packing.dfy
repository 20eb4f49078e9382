/**
 * packing/plain.go: turning a local file record into a plain-packed upspin
 * directory entry. A file is cut into BlockSize chunks, each stored under the
 * reference "filename-offset" at the server's own endpoint; a directory gets no
 * blocks. The entry is signed with a zero key and a zero checksum; the signer
 * (the factotum of the configuration) is a parameter.
 */
module Packing {
  import opened Results
  import opened Text
  import opened Os
  import opened Upspin
  import LocalStorage

  /** The user every entry is named under and written by. */
  const Owner: string := "gildaschbt+local@gmail.com"

  /** The network address of the store every block points at. */
  const NetAddr: string := "usl.gildas.ch"

  /** aesKeyLen: the length of the zero data key that is signed. */
  const AesKeyLen: nat := 32

  /** sha256.Size: the length of the zero checksum that is signed. */
  const Sha256Size: nat := 32

  /** The arguments handed to the factotum's DirEntryHash. */
  datatype HashInput = HashInput(
    signedName: string,
    link: string,
    attr: Attribute,
    packing: Packing,
    time: int,
    dkey: seq<byte>,
    sum: seq<byte>)

  /** upspin.Config, reduced to what PlainDirEntry uses: the factotum's FileSign
      applied to a DirEntryHash, which yields a signature or an error. */
  datatype Config = Config(fileSign: HashInput -> Result<Signature, string>)

  /** A Go panic inside the packing step. */
  datatype PackError = Panic(message: string)

  function Min(a: int, b: int): int
  {
    if a <= b then a else b
  }

  // ---------------------------------------------------------------------------
  // Block chunking
  // ---------------------------------------------------------------------------

  /** The number of blocks of a file of `size` bytes: none for a size of zero or
      less, otherwise the size divided by BlockSize, rounded up. */
  function CeilBlocks(size: int): (n: nat)
    ensures size <= 0 ==> n == 0
    ensures size > 0 ==> (n - 1) * BlockSize < size <= n * BlockSize
  {
    if size <= 0 then 0 else (size + BlockSize - 1) / BlockSize
  }

  /** The block count is the only count with the rounding-up property. */
  lemma CeilUnique(size: int, k: nat)
    requires size > 0 && (k - 1) * BlockSize < size <= k * BlockSize
    ensures CeilBlocks(size) == k
  {
  }

  /** The reference of the block at `offset`: fmt's "%s-%d". */
  function BlockRef(filename: string, offset: nat): string
  {
    filename + "-" + Decimal(offset)
  }

  /** Block i of a file: it starts at i * BlockSize, inside the file, and
      holds BlockSize bytes or what is left of the file; it is named after its
      offset at the server's address. */
  function BlockAt(fi: LocalStorage.FileInfo, i: nat): (b: DirBlock)
    requires i < CeilBlocks(fi.size)
    ensures b.offset == i * BlockSize && 0 <= b.offset < fi.size
    ensures 1 <= b.size <= BlockSize
    ensures i < CeilBlocks(fi.size) - 1 ==> b.size == BlockSize && b.offset + b.size == (i + 1) * BlockSize
    ensures b.location == Location(Endpoint(Remote, NetAddr), BlockRef(fi.filename, b.offset))
  {
    BlockGeometry(fi.size, i);
    DirBlock(Location(Endpoint(Remote, NetAddr), BlockRef(fi.filename, i * BlockSize)), i * BlockSize,
      Min(BlockSize, fi.size - i * BlockSize))
  }

  /** The arithmetic of block i of a file of `size` bytes. */
  lemma BlockGeometry(size: int, i: nat)
    requires i < CeilBlocks(size)
    ensures 0 <= i * BlockSize < size
    ensures 1 <= Min(BlockSize, size - i * BlockSize) <= BlockSize
    ensures i < CeilBlocks(size) - 1 ==> Min(BlockSize, size - i * BlockSize) == BlockSize
    ensures (i + 1) * BlockSize == i * BlockSize + BlockSize
  {
    var n := CeilBlocks(size);
    assert i * BlockSize <= (n - 1) * BlockSize;
    if i < n - 1 {
      assert (i + 1) * BlockSize <= (n - 1) * BlockSize;
    }
  }

  /** The blocks of a file, in closed form. The first block starts at 0 and
      each later one where the previous one ends; every block holds between 1
      and BlockSize bytes, all but the last exactly BlockSize, and is named
      after its offset at the server's address. */
  function Blocks(fi: LocalStorage.FileInfo): (dbs: seq<DirBlock>)
    ensures |dbs| == CeilBlocks(fi.size)
    ensures |dbs| > 0 ==> dbs[0].offset == 0
    ensures forall i :: 0 < i < |dbs| ==> dbs[i].offset == dbs[i - 1].offset + dbs[i - 1].size
    ensures forall i :: 0 < i < |dbs| ==> dbs[i - 1].offset < dbs[i].offset
    ensures forall i :: 0 <= i < |dbs| ==> 1 <= dbs[i].size <= BlockSize
    ensures forall i :: 0 <= i < |dbs| - 1 ==> dbs[i].size == BlockSize
    ensures forall i :: 0 <= i < |dbs| ==>
      dbs[i].offset >= 0 && dbs[i].location == Location(Endpoint(Remote, NetAddr), BlockRef(fi.filename, dbs[i].offset))
  {
    seq(CeilBlocks(fi.size), i requires 0 <= i < CeilBlocks(fi.size) => BlockAt(fi, i))
  }

  /** blocksFromFileInfo: the loop of the source, taking BlockSize bytes (or the
      rest) per step and naming each block after its offset. */
  method BlocksFromFileInfo(fi: LocalStorage.FileInfo) returns (dbs: seq<DirBlock>)
    ensures dbs == Blocks(fi)
  {
    var size := fi.size;
    var offset := 0;
    dbs := [];
    while size > 0
      invariant 0 <= offset && size == fi.size - offset
      invariant |dbs| <= CeilBlocks(fi.size)
      invariant size > 0 ==> offset == |dbs| * BlockSize
      invariant size <= 0 ==> |dbs| == CeilBlocks(fi.size)
      invariant forall i :: 0 <= i < |dbs| ==> dbs[i] == Blocks(fi)[i]
      decreases size
    {
      var s := BlockSize;
      if s > size {
        s := size;
      }
      assert |dbs| < CeilBlocks(fi.size);
      if size - s <= 0 {
        CeilUnique(fi.size, |dbs| + 1);
      }
      size := size - s;
      var ref := BlockRef(fi.filename, offset);
      dbs := dbs + [DirBlock(Location(Endpoint(Remote, NetAddr), ref), offset, s)];
      offset := offset + s;
    }
  }

  /** The sum of the block sizes. */
  function SumSizes(dbs: seq<DirBlock>): int
    decreases |dbs|
  {
    if |dbs| == 0 then 0 else SumSizes(dbs[..|dbs| - 1]) + dbs[|dbs| - 1].size
  }

  lemma {:induction false} PrefixSum(fi: LocalStorage.FileInfo, k: nat)
    requires fi.size > 0 && k <= |Blocks(fi)|
    ensures SumSizes(Blocks(fi)[..k]) == Min(k * BlockSize, fi.size)
  {
    var b := Blocks(fi);
    if k > 0 {
      PrefixSum(fi, k - 1);
      assert b[..k][..k - 1] == b[..k - 1];
      assert (k - 1) * BlockSize <= (|b| - 1) * BlockSize;
    }
  }

  /** The block sizes add up to the file size. */
  lemma BlocksSum(fi: LocalStorage.FileInfo)
    ensures SumSizes(Blocks(fi)) == (if fi.size <= 0 then 0 else fi.size)
  {
    var b := Blocks(fi);
    if fi.size > 0 {
      PrefixSum(fi, |b|);
      assert b[..|b|] == b;
    }
  }

  // ---------------------------------------------------------------------------
  // Entries
  // ---------------------------------------------------------------------------

  /** dirEntryFromFileInfo: the entry before signing. The name is the owner
      followed directly by the filename (no separator is added), so trimming the
      owner gives the filename back; the signed name, link, time and packdata
      stay at their zero values. A directory gets the directory attribute and no
      blocks; a file gets no attribute and the chunking of Blocks, which covers
      it exactly. */
  function DirEntryFromFileInfo(fi: LocalStorage.FileInfo): (e: DirEntry)
    ensures e.name == Owner + fi.filename && TrimPrefix(e.name, Owner) == fi.filename
    ensures e.writer == Owner && e.packing == PlainPack
    ensures e.signedName == "" && e.link == "" && e.time == 0 && e.packdata == []
    ensures fi.isDir ==> e.attr == AttrDirectory && e.blocks == []
    ensures !fi.isDir ==> (e.attr == AttrNone && e.blocks == Blocks(fi)
      && SumSizes(e.blocks) == (if fi.size <= 0 then 0 else fi.size))
  {
    assert Owner <= Owner + fi.filename;
    assert (Owner + fi.filename)[|Owner|..] == fi.filename;
    BlocksSum(fi);
    DirEntry(
      name := Owner + fi.filename,
      signedName := "",
      link := "",
      attr := if fi.isDir then AttrDirectory else AttrNone,
      packing := PlainPack,
      time := 0,
      blocks := if fi.isDir then [] else Blocks(fi),
      packdata := [],
      writer := Owner)
  }

  function Zeros(n: nat): (z: seq<byte>)
    ensures |z| == n && forall i :: 0 <= i < n ==> z[i] == 0
  {
    seq(n, i => 0)
  }

  /** What is signed for an entry: its signed name, link, attribute, packing and
      time, with an all-zero 32-byte key and an all-zero checksum. */
  function SignedFields(e: DirEntry): (h: HashInput)
    ensures h.signedName == e.signedName && h.link == e.link && h.attr == e.attr
    ensures h.packing == e.packing && h.time == e.time
    ensures |h.dkey| == AesKeyLen && forall i :: 0 <= i < |h.dkey| ==> h.dkey[i] == 0
    ensures |h.sum| == Sha256Size && forall i :: 0 <= i < |h.sum| ==> h.sum[i] == 0
  {
    HashInput(e.signedName, e.link, e.attr, e.packing, e.time, Zeros(AesKeyLen), Zeros(Sha256Size))
  }

  /** pdMarshal: the four signature integers in order. A second signature with a
      nil R is replaced by (0, 0); any other nil component panics (calling Bytes
      on a nil big.Int). */
  function PdMarshal(sig: Signature, sig2: Signature): (r: Result<seq<nat>, PackError>)
    ensures r.Ok? <==> sig.r.Some? && sig.s.Some? && (sig2.r.None? || sig2.s.Some?)
    ensures r.Ok? ==> |r.value| == 4 && r.value[0] == sig.r.value && r.value[1] == sig.s.value
    ensures r.Ok? && sig2.r.None? ==> r.value[2] == 0 && r.value[3] == 0
    ensures r.Ok? && sig2.r.Some? ==> r.value[2] == sig2.r.value && r.value[3] == sig2.s.value
  {
    if sig.r.None? || sig.s.None? then Err(Panic("nil signature component"))
    else
      var second := if sig2.r.None? then Signature(Some(0), Some(0)) else sig2;
      if second.s.None? then Err(Panic("nil signature component"))
      else Ok([sig.r.value, sig.s.value, second.r.value, second.s.value])
  }

  /** PlainDirEntry: the unsigned entry, signed by the configuration's factotum;
      a signing error panics, and the packdata holds the signature followed by
      the (0, 0) default for the absent second signature. */
  function PlainDirEntry(fi: LocalStorage.FileInfo, cfg: Config): (r: Result<DirEntry, PackError>)
    ensures var sig := cfg.fileSign(SignedFields(DirEntryFromFileInfo(fi)));
      r.Ok? <==> sig.Ok? && sig.value.r.Some? && sig.value.s.Some?
    ensures var sig := cfg.fileSign(SignedFields(DirEntryFromFileInfo(fi)));
      r.Ok? ==> r.value == DirEntryFromFileInfo(fi).(packdata := [sig.value.r.value, sig.value.s.value, 0, 0])
    ensures var sig := cfg.fileSign(SignedFields(DirEntryFromFileInfo(fi)));
      sig.Err? ==> r == Err(Panic(sig.error))
  {
    var e := DirEntryFromFileInfo(fi);
    match cfg.fileSign(SignedFields(e))
    case Err(msg) => Err(Panic(msg))
    case Ok(sig) =>
      match PdMarshal(sig, Signature(None, None))
      case Err(p) => Err(p)
      case Ok(pd) => Ok(e.(packdata := pd))
  }

}
