/** The layout of a bootloader update payload (BUP) blob: header, accessory, entry table, images. */
module BupFormat {
  import opened Bytes

  const HEADER_SIZE := 40
  const BLOB_SIZE_POS := 20
  const UNCOMP_SIZE_POS := 36
  const ENTRY_SIZE := 184
  const NAME_WIDTH := 40
  const SPEC_WIDTH := 128
  const GPT_PART_NAME_LEN_MAX := 36
  const UPDATE_TYPE := 0

  /** "NVIDIA__BLOB__V3" */
  const BUP_MAGIC: seq<byte> :=
    [0x4E, 0x56, 0x49, 0x44, 0x49, 0x41, 0x5F, 0x5F, 0x42, 0x4C, 0x4F, 0x42, 0x5F, 0x5F, 0x56, 0x33]

  /** gen_version(): release year and month, revision and format version, in binary coded decimal. */
  const BUP_VERSION := 0x22 + 0x6 * 0x100 + 0x0 * 0x4000 + 0x3 * 0x1_0000 + 0x1 * 0x100_0000

  /** One entry tuple, with the content of the binary it names. */
  datatype EntryInfo = EntryInfo(image: seq<byte>, partName: seq<byte>, version: int, opMode: int, spec: seq<byte>)

  /** What parse_entry_list lets through. */
  predicate WellFormed(info: EntryInfo) {
    |info.partName| <= GPT_PART_NAME_LEN_MAX && |info.spec| <= SPEC_WIDTH
  }

  predicate IsWord(n: int) {
    0 <= n < U32_LIMIT
  }

  predicate HasWords(info: EntryInfo) {
    IsWord(info.version) && IsWord(info.opMode)
  }

  /** struct.pack of an `Ns` field: cut or padded with zeros. */
  function PackText(s: seq<byte>, width: nat): (r: seq<byte>)
    ensures |r| == width
  {
    if |s| >= width then s[..width] else s + Zeroed(width - |s|)
  }

  function PackHeader(blobSize: nat, headerSize: nat, count: nat, uncompSize: nat): (r: seq<byte>)
    ensures |r| == HEADER_SIZE
  {
    BUP_MAGIC + PackLE(BUP_VERSION, 4) + PackLE(blobSize, 4) + PackLE(headerSize, 4) + PackLE(count, 4)
    + PackLE(UPDATE_TYPE, 4) + PackLE(uncompSize, 4)
  }

  function PackEntry(partName: seq<byte>, offset: nat, size: nat, version: nat, opMode: nat,
      spec: seq<byte>): (r: seq<byte>)
    ensures |r| == ENTRY_SIZE
  {
    PackText(partName, NAME_WIDTH) + PackLE(offset, 4) + PackLE(size, 4) + PackLE(version, 4) + PackLE(opMode, 4)
    + PackText(spec, SPEC_WIDTH)
  }

  // --- the finished blob ------------------------------------------------------------------------------

  /** The entry table, when the first image starts at `offset`. */
  function EntryTable(infos: seq<EntryInfo>, offset: nat): (r: seq<byte>)
    requires forall i :: 0 <= i < |infos| ==> HasWords(infos[i])
    ensures |r| == ENTRY_SIZE * |infos|
  {
    if infos == [] then [] else
      var info := infos[0];
      assert HasWords(info);
      PackEntry(info.partName, offset, |info.image|, info.version, info.opMode, info.spec)
      + EntryTable(infos[1..], offset + |info.image|)
  }

  function Images(infos: seq<EntryInfo>): seq<byte> {
    if infos == [] then [] else infos[0].image + Images(infos[1..])
  }

  /** Where the images start. */
  function ImagesStart(accessory: seq<byte>, infos: seq<EntryInfo>): nat {
    HEADER_SIZE + |accessory| + ENTRY_SIZE * |infos|
  }

  function BlobSize(accessory: seq<byte>, infos: seq<EntryInfo>): nat {
    ImagesStart(accessory, infos) + |Images(infos)|
  }

  /** Everything fits in its field. */
  predicate Fits(accessory: seq<byte>, infos: seq<EntryInfo>) {
    && BlobSize(accessory, infos) < U32_LIMIT
    && forall i :: 0 <= i < |infos| ==> HasWords(infos[i])
  }

  function Blob(accessory: seq<byte>, infos: seq<EntryInfo>): (r: seq<byte>)
    requires Fits(accessory, infos)
    ensures |r| == BlobSize(accessory, infos)
  {
    var size := BlobSize(accessory, infos);
    PackHeader(size, HEADER_SIZE + |accessory|, |infos|, size) + accessory
    + EntryTable(infos, ImagesStart(accessory, infos)) + Images(infos)
  }
}
