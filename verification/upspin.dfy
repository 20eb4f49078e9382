/**
 * The upspin.io types and constants the server builds and returns. Only the
 * fields the server sets or reads are modelled.
 */
module Upspin {
  import opened Results

  /** upspin.BlockSize: the largest block a client reads in one request (1 MiB). */
  const BlockSize: int := 1048576

  /** upspin.HTTPBaseMetadata: the reserved reference a client sends to probe
      an HTTP-based store for its base URL. */
  const HTTPBaseMetadata: string := "metadata:HTTP-Base"

  datatype Transport = Remote

  datatype Endpoint = Endpoint(transport: Transport, netAddr: string)

  datatype Location = Location(endpoint: Endpoint, reference: string)

  /** upspin.DirBlock: where one block of a file lives and which byte range it is. */
  datatype DirBlock = DirBlock(location: Location, offset: int, size: int)

  datatype Attribute = AttrNone | AttrDirectory

  datatype Packing = PlainPack

  /** upspin.Signature: the two big integers of an ECDSA signature; None stands
      for a nil *big.Int. */
  datatype Signature = Signature(r: Option<nat>, s: Option<nat>)

  /** upspin.DirEntry. `time` is upspin.Time (seconds); `packdata` holds the
      integers pdMarshal writes, in order (their byte encoding is not modelled). */
  datatype DirEntry = DirEntry(
    name: string,
    signedName: string,
    link: string,
    attr: Attribute,
    packing: Packing,
    time: int,
    blocks: seq<DirBlock>,
    packdata: seq<nat>,
    writer: string)

  /** upspin.Refdata: the receipt a store returns with the bytes. */
  datatype Refdata = Refdata(reference: string)
}
