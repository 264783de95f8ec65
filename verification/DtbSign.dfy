/** The DTB header and the signer and verifier of dtbcheck.py. */
module DtbSign {
  import opened Bytes
  import opened Crc32
  import opened DtbTokens

  const HEADER_LENGTH := 40
  const DTB_MAGIC := 0xd00dfeed
  const DTB_VERSION := 17
  const DTB_LAST_COMP_VERSION := 16
  const DTB_ALIGNMENT := 64
  const DTBCHECK_MAGIC := 0x44544243
  const METADATA_LENGTH := 16
  const TRAILER_LENGTH := 20
  const MAX_SIZE := 0x8000_0000

  // --- the header -------------------------------------------------------------------------------------

  /** The ten header words (section 5.2 of the Devicetree Specification v0.4), by value. */
  datatype Header = Header(
    magic: nat, totalsize: nat, offDtStruct: nat, offDtStrings: nat, offMemRsvmap: nat,
    version: nat, lastCompVersion: nat, bootCpuidPhys: nat, sizeDtStrings: nat, sizeDtStruct: nat)

  function WordsOf(h: Header): seq<nat> {
    [h.magic, h.totalsize, h.offDtStruct, h.offDtStrings, h.offMemRsvmap,
     h.version, h.lastCompVersion, h.bootCpuidPhys, h.sizeDtStrings, h.sizeDtStruct]
  }

  /** struct.unpack of n big-endian words. */
  function UnpackWords(s: seq<byte>): (words: seq<nat>)
    requires |s| % 4 == 0
    ensures |words| == |s| / 4
  {
    seq(|s| / 4, i requires 0 <= i < |s| / 4 => ReadU32(s[4 * i..]))
  }

  /** struct.pack of big-endian words; a word that does not fit in 32 bits raises. */
  function PackWords(words: seq<nat>): (r: Option<seq<byte>>)
    ensures r.Some? <==> forall i :: 0 <= i < |words| ==> words[i] < U32_LIMIT
    ensures r.Some? ==> |r.value| == 4 * |words|
  {
    if words == [] then Some([]) else
      var rest := PackWords(words[1..]);
      if words[0] >= U32_LIMIT || rest.None? then None else Some(PackU32(words[0]) + rest.value)
  }

  function HeaderOf(words: seq<nat>): Header
    requires |words| == 10
  {
    Header(words[0], words[1], words[2], words[3], words[4], words[5], words[6], words[7], words[8], words[9])
  }

  function ParsedHeader(s: seq<byte>): Header
    requires |s| == HEADER_LENGTH
  {
    HeaderOf(UnpackWords(s))
  }

  /** The assertions of FdtHeader.check, for data of the given length. */
  predicate Passes(h: Header, length: nat) {
    && h.magic == DTB_MAGIC && h.version == DTB_VERSION && h.lastCompVersion == DTB_LAST_COMP_VERSION
    && HEADER_LENGTH <= h.totalsize <= MAX_SIZE
    && HEADER_LENGTH <= h.offDtStruct && h.offDtStruct + h.sizeDtStruct <= h.totalsize && h.offDtStruct % 4 == 0
    && HEADER_LENGTH <= h.offDtStrings && h.offDtStrings + h.sizeDtStrings <= h.totalsize
    && HEADER_LENGTH <= h.offMemRsvmap <= h.totalsize && h.offMemRsvmap % 8 == 0
    && length == h.totalsize
  }

  class FdtHeader {
    var magic: nat
    var totalsize: nat
    var offDtStruct: nat
    var offDtStrings: nat
    var offMemRsvmap: nat
    var version: nat
    var lastCompVersion: nat
    var bootCpuidPhys: nat
    var sizeDtStrings: nat
    var sizeDtStruct: nat

    constructor ()
      ensures Value() == HeaderOf([0, 0, 0, 0, 0, 0, 0, 0, 0, 0])
    {
      magic, totalsize, offDtStruct, offDtStrings, offMemRsvmap := 0, 0, 0, 0, 0;
      version, lastCompVersion, bootCpuidPhys, sizeDtStrings, sizeDtStruct := 0, 0, 0, 0, 0;
    }

    function Value(): Header
      reads this
    {
      Header(magic, totalsize, offDtStruct, offDtStrings, offMemRsvmap,
             version, lastCompVersion, bootCpuidPhys, sizeDtStrings, sizeDtStruct)
    }

    predicate Check(data: seq<byte>)
      reads this
    {
      Passes(Value(), |data|)
    }

    method Pad(size: nat)
      modifies this
      ensures Value() == old(Value()).(totalsize := old(totalsize) + size)
    {
      totalsize := totalsize + size;
    }

    method Pack() returns (r: Option<seq<byte>>)
      ensures r == PackWords(WordsOf(Value()))
    {
      r := PackWords([magic, totalsize, offDtStruct, offDtStrings, offMemRsvmap,
                      version, lastCompVersion, bootCpuidPhys, sizeDtStrings, sizeDtStruct]);
    }
  }

  method ParseHeader(data: seq<byte>) returns (header: FdtHeader)
    requires |data| == HEADER_LENGTH
    ensures fresh(header) && header.Value() == ParsedHeader(data)
  {
    hide ReadU32, UnpackWords;
    header := new FdtHeader();
    var values := UnpackWords(data);
    header.magic := values[0];
    header.totalsize := values[1];
    header.offDtStruct := values[2];
    header.offDtStrings := values[3];
    header.offMemRsvmap := values[4];
    header.version := values[5];
    header.lastCompVersion := values[6];
    header.bootCpuidPhys := values[7];
    header.sizeDtStrings := values[8];
    header.sizeDtStruct := values[9];
  }

  lemma UnpackStep(word: nat, rest: seq<byte>)
    requires word < U32_LIMIT && |rest| % 4 == 0
    ensures UnpackWords(PackU32(word) + rest) == [word] + UnpackWords(rest)
  {
    ReadPackedU32(word, rest);
    hide ReadU32, PackU32;
    var s := PackU32(word) + rest;
    forall i | 0 <= i < |rest| / 4 ensures ReadU32(s[4 * (i + 1)..]) == ReadU32(rest[4 * i..]) {
      assert s[4 * (i + 1)..] == rest[4 * i..];
    }
    assert s[4 * 0..] == s;
  }

  /** Packed words unpack to themselves. */
  lemma {:induction false} UnpackPacked(words: seq<nat>)
    requires PackWords(words).Some?
    ensures UnpackWords(PackWords(words).value) == words
    decreases |words|
  {
    hide UnpackWords, PackU32;
    if words != [] {
      UnpackPacked(words[1..]);
      UnpackStep(words[0], PackWords(words[1..]).value);
    } else {
      assert |UnpackWords([])| == 0;
    }
  }

  /** Unpacked words pack back to the bytes they came from. */
  lemma {:induction false} PackUnpacked(s: seq<byte>)
    requires |s| % 4 == 0
    ensures PackWords(UnpackWords(s)) == Some(s)
    decreases |s|
  {
    if s != [] {
      hide ReadU32, PackU32;
      PackReadU32(s);
      var words := UnpackWords(s);
      assert words[0] == ReadU32(s) by { assert s[4 * 0..] == s; }
      forall i | 0 <= i < |s[4..]| / 4 ensures UnpackWords(s[4..])[i] == words[1..][i] {
        assert s[4..][4 * i..] == s[4 * (i + 1)..];
      }
      assert UnpackWords(s[4..]) == words[1..];
      PackUnpacked(s[4..]);
      assert s == s[..4] + s[4..];
    }
  }

  // --- signing ----------------------------------------------------------------------------------------

  /** What the tool was told to sign for. */
  datatype Chip = Chip(version: nat, chipid: nat, majorrev: nat)

  function Metadata(chip: Chip): (r: Option<seq<byte>>)
    ensures r.Some? ==> |r.value| == METADATA_LENGTH
  {
    PackWords([chip.majorrev, chip.chipid, chip.version, DTBCHECK_MAGIC])
  }

  function AlignedLength(length: nat): (n: nat)
    ensures length + TRAILER_LENGTH <= n < length + TRAILER_LENGTH + DTB_ALIGNMENT && n % DTB_ALIGNMENT == 0
  {
    Align(length + TRAILER_LENGTH, DTB_ALIGNMENT)
  }

  function Padding(length: nat): (p: seq<byte>)
    ensures |p| == AlignedLength(length) - length - TRAILER_LENGTH
  {
    Zeroed(AlignedLength(length) - length - TRAILER_LENGTH)
  }

  /** An image and the checksum of everything before the checksum. */
  function Sealed(body: seq<byte>): (r: seq<byte>)
    ensures |r| == |body| + 4
  {
    CrcBound(body, 0);
    body + PackU32(Crc(body, 0))
  }

  /** What `__sign` returns: None stands for a failed assertion or a word that does not fit. */
  ghost function SignedImage(chip: Chip, h: Header, data: seq<byte>): Option<seq<byte>> {
    var grown := h.(totalsize := h.totalsize + AlignedLength(|data|) - |data|);
    var metadata, packed := Metadata(chip), PackWords(WordsOf(grown));
    if metadata.None? || packed.None? then None else
      var image := Sealed(packed.value + Drop(data, HEADER_LENGTH) + Padding(|data|) + metadata.value);
      if |image| == AlignedLength(|data|) && Passes(grown, |image|) then Some(image) else None
  }

  lemma CrcOfParts(a: seq<byte>, b: seq<byte>, c: seq<byte>, d: seq<byte>)
    ensures Crc(d, Crc(c, Crc(b, Crc(a, 0)))) == Crc(a + b + c + d, 0)
  {
    hide Crc;
    CrcStreams(a, b, 0);
    CrcStreams(a + b, c, 0);
    CrcStreams(a + b + c, d, 0);
  }

  method Sign(chip: Chip, header: FdtHeader, data: seq<byte>) returns (r: Option<seq<byte>>)
    modifies header
    ensures r == SignedImage(chip, old(header.Value()), data)
    ensures Metadata(chip).Some? ==>
              header.Value()
              == old(header.Value()).(totalsize := old(header.totalsize) + AlignedLength(|data|) - |data|)
  {
    hide Crc, PackWords, PackU32, Passes;
    var metadata := Metadata(chip);
    if metadata.None? { return None; }
    var unalignedLength := |data| + METADATA_LENGTH + 4;
    var alignedLength := Align(unalignedLength, DTB_ALIGNMENT);
    header.Pad(alignedLength - |data|);
    var headerData := header.Pack();
    if headerData.None? { return None; }
    var dtbData := Drop(data, HEADER_LENGTH);
    var padding := Zeroed(alignedLength - unalignedLength);
    var crc := Crc(headerData.value, 0);
    crc := Crc(dtbData, crc);
    crc := Crc(padding, crc);
    crc := Crc(metadata.value, crc);
    CrcOfParts(headerData.value, dtbData, padding, metadata.value);
    var body := headerData.value + dtbData + padding + metadata.value;
    CrcBound(body, 0);
    var signedData := body + PackU32(crc);
    assert signedData == Sealed(body);
    if |signedData| != alignedLength || !header.Check(signedData) { return None; }
    r := Some(signedData);
  }

  // --- verifying --------------------------------------------------------------------------------------

  /** `__verify`: does it get past every assertion? */
  predicate Verify(chip: Chip, signed: seq<byte>, unsigned: seq<byte>) {
    && |signed| % DTB_ALIGNMENT == 0
    && var diff := |signed| - |unsigned|;
    && TRAILER_LENGTH <= diff < TRAILER_LENGTH + DTB_ALIGNMENT
    && PySlice(signed, 0, 4) == PySlice(unsigned, 0, 4)
    && (if |signed| - diff <= 8 then [] else signed[8..|signed| - diff]) == Drop(unsigned, 8)
    && var n := |signed|;
    && var headerData, dtbData := signed[..HEADER_LENGTH], signed[HEADER_LENGTH..n - TRAILER_LENGTH];
    && var metadata, signature := signed[n - TRAILER_LENGTH..n - 4], signed[n - 4..];
    && [chip.majorrev, chip.chipid, chip.version, DTBCHECK_MAGIC] == UnpackWords(metadata)
    && Crc(metadata, Crc(dtbData, Crc(headerData, 0))) % U32_LIMIT == ReadU32(signature)
  }

  /** The images that are accepted for an unsigned DTB: its bytes with some totalsize, any padding that fills
      the last block, the metadata, and the checksum of all that. */
  predicate IsSignedForm(chip: Chip, signed: seq<byte>, unsigned: seq<byte>, size: seq<byte>, padding: seq<byte>)
    requires |unsigned| >= 8
  {
    && |size| == 4 && |padding| < DTB_ALIGNMENT && |signed| % DTB_ALIGNMENT == 0
    && Metadata(chip).Some?
    && signed == Sealed(unsigned[..4] + size + unsigned[8..] + padding + Metadata(chip).value)
  }

  lemma CutInThree(s: seq<byte>, i: nat, j: nat, k: nat)
    requires i <= j <= k <= |s|
    ensures s[..i] + s[i..j] + s[j..k] == s[..k]
  {}

  lemma CrcOfVerified(signed: seq<byte>)
    requires |signed| >= 60
    ensures var n := |signed|;
            Crc(signed[n - 20..n - 4], Crc(signed[40..n - 20], Crc(signed[..40], 0))) == Crc(signed[..n - 4], 0)
  {
    var n := |signed|;
    var a, b, d := signed[..40], signed[40..n - 20], signed[n - 20..n - 4];
    hide *;
    CrcStreams(a, b, 0);
    CrcStreams(a + b, d, 0);
    CutInThree(signed, 40, n - 20, n - 4);
  }

  /** A verified image carries the checksum of everything before the checksum. */
  lemma VerifiedIsSealed(chip: Chip, signed: seq<byte>, unsigned: seq<byte>)
    requires Verify(chip, signed, unsigned)
    ensures |signed| >= 64 && signed == Sealed(signed[..|signed| - 4])
  {
    var n := |signed|;
    hide Crc, PackU32, ReadU32, UnpackWords;
    CrcOfVerified(signed);
    CrcBound(signed[..n - 4], 0);
    PackReadU32(signed[n - 4..]);
    assert signed[n - 4..][..4] == signed[n - 4..];
    assert signed == signed[..n - 4] + signed[n - 4..];
  }

  lemma PartsOf(s: seq<byte>, a: seq<byte>, size: seq<byte>, c: seq<byte>, rest: seq<byte>, metadata: seq<byte>,
      crc: seq<byte>)
    requires |a| == |size| == |crc| == 4 && |metadata| == METADATA_LENGTH
    requires s == (a + size + c + rest + metadata) + crc
    ensures s[..4] == a && s[8..8 + |c|] == c
    ensures s[|s| - 20..|s| - 4] == metadata && s[|s| - 4..] == crc && s[..|s| - 4] == a + size + c + rest + metadata
  {}

  lemma FromParts(s: seq<byte>, m: nat)
    requires 8 <= m && m + 20 <= |s|
    ensures s[..|s| - 4] == s[..4] + s[4..8] + s[8..m] + s[m..|s| - 20] + s[|s| - 20..|s| - 4]
  {}

  lemma VerifiedSlices(chip: Chip, signed: seq<byte>, unsigned: seq<byte>)
    requires Verify(chip, signed, unsigned) && |unsigned| >= 8
    ensures var n, m := |signed|, |unsigned|;
            && m + 20 <= n < m + 84 && n % DTB_ALIGNMENT == 0
            && signed[..4] == unsigned[..4] && signed[8..m] == unsigned[8..]
            && Metadata(chip) == Some(signed[n - 20..n - 4])
  {
    hide Crc, PackU32, ReadU32, UnpackWords, PackWords;
    PackUnpacked(signed[|signed| - 20..|signed| - 4]);
  }

  /** Exactly the images of that form are verified. */
  lemma VerifiedForm(chip: Chip, signed: seq<byte>, unsigned: seq<byte>) returns (size: seq<byte>, padding: seq<byte>)
    requires Verify(chip, signed, unsigned) && |unsigned| >= 8
    ensures IsSignedForm(chip, signed, unsigned, size, padding)
  {
    hide Verify, Metadata, Sealed;
    var n, m := |signed|, |unsigned|;
    VerifiedSlices(chip, signed, unsigned);
    VerifiedIsSealed(chip, signed, unsigned);
    size, padding := signed[4..8], signed[m..n - 20];
    FromParts(signed, m);
  }

  lemma FormIsVerified(chip: Chip, signed: seq<byte>, unsigned: seq<byte>, size: seq<byte>, padding: seq<byte>)
    requires |unsigned| >= 8 && IsSignedForm(chip, signed, unsigned, size, padding)
    ensures Verify(chip, signed, unsigned)
  {
    hide Crc, PackU32, ReadU32, UnpackWords, Metadata, Verify;
    var crc := FormSlices(chip, signed, unsigned, size, padding);
    CrcOfVerified(signed);
    SlicesVerify(chip, signed, unsigned, crc);
  }

  lemma FormSlices(chip: Chip, signed: seq<byte>, unsigned: seq<byte>, size: seq<byte>,
      padding: seq<byte>) returns (crc: nat)
    requires |unsigned| >= 8 && IsSignedForm(chip, signed, unsigned, size, padding)
    ensures var n, m := |signed|, |unsigned|;
            && m + 20 <= n < m + 84
            && signed[..4] == unsigned[..4] && signed[8..m] == unsigned[8..]
            && UnpackWords(signed[n - 20..n - 4]) == [chip.majorrev, chip.chipid, chip.version, DTBCHECK_MAGIC]
            && crc == Crc(signed[..n - 4], 0) < U32_LIMIT && ReadU32(signed[n - 4..]) == crc
  {
    MetadataReads(chip);
    hide Crc, PackU32, ReadU32, UnpackWords, Metadata;
    var metadata := Metadata(chip).value;
    var body := unsigned[..4] + size + unsigned[8..] + padding + metadata;
    crc := Crc(body, 0);
    CrcBound(body, 0);
    ReadPackedU32(crc, []);
    PartsOf(signed, unsigned[..4], size, unsigned[8..], padding, metadata, PackU32(crc));
  }

  lemma SlicesVerify(chip: Chip, signed: seq<byte>, unsigned: seq<byte>, crc: nat)
    requires var n, m := |signed|, |unsigned|;
            && m >= 8 && m + 20 <= n < m + 84 && n % DTB_ALIGNMENT == 0
            && signed[..4] == unsigned[..4] && signed[8..m] == unsigned[8..]
            && UnpackWords(signed[n - 20..n - 4]) == [chip.majorrev, chip.chipid, chip.version, DTBCHECK_MAGIC]
            && Crc(signed[n - 20..n - 4], Crc(signed[40..n - 20], Crc(signed[..40], 0))) == crc
            && crc < U32_LIMIT && ReadU32(signed[n - 4..]) == crc
    ensures Verify(chip, signed, unsigned)
  {
    hide Crc, ReadU32, UnpackWords;
  }

  lemma MetadataReads(chip: Chip)
    requires Metadata(chip).Some?
    ensures UnpackWords(Metadata(chip).value) == [chip.majorrev, chip.chipid, chip.version, DTBCHECK_MAGIC]
  {
    UnpackPacked([chip.majorrev, chip.chipid, chip.version, DTBCHECK_MAGIC]);
  }
}
