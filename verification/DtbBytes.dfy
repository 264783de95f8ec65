/** Header, trailer and a small blob, byte by byte: what the header check and the signer mean for a file. */
module DtbBytes {
  import opened Bytes
  import opened Crc32
  import opened CrcRemainder
  import opened DtbTree
  import opened DtbTokens
  import opened DtbLayout
  import opened DtbParser
  import opened DtbSerializer
  import opened DtbSign
  import opened DtbSignTheorems
  import opened DtbImage
  import opened DtbNames

  /** The word at `offset`. */
  function WordAtByte(data: seq<byte>, offset: nat): nat
    requires offset + 4 <= |data|
  {
    ReadU32(data[offset..offset + 4])
  }

  // --- the header -----------------------------------------------------------------------------------------

  /** The header check, on the bytes of the file: magic, version 17 and 16, sizes and offsets. */
  predicate HeaderIsRight(data: seq<byte>)
    requires |data| >= 40
  {
    && WordAtByte(data, 0) == 0xD00D_FEED && WordAtByte(data, 20) == 17 && WordAtByte(data, 24) == 16
    && WordAtByte(data, 4) == |data| <= 0x8000_0000
    && 40 <= WordAtByte(data, 8) && WordAtByte(data, 8) + WordAtByte(data, 36) <= |data| && WordAtByte(data, 8) % 4 == 0
    && 40 <= WordAtByte(data, 12) && WordAtByte(data, 12) + WordAtByte(data, 32) <= |data|
    && 40 <= WordAtByte(data, 16) <= |data| && WordAtByte(data, 16) % 8 == 0
  }

  lemma ReadPrefix(s: seq<byte>, t: seq<byte>)
    requires |s| >= 4 && |t| >= 4 && s[..4] == t[..4]
    ensures ReadU32(s) == ReadU32(t)
  {
    assert forall i :: 0 <= i < 4 ==> s[i] == s[..4][i] && t[i] == t[..4][i];
  }

  lemma HeaderWord(data: seq<byte>, i: nat)
    requires |data| >= 40 && i < 10
    ensures UnpackWords(data[..40])[i] == WordAtByte(data, 4 * i)
  {
    ReadPrefix(data[..40][4 * i..], data[4 * i..4 * i + 4]);
  }

  lemma HeaderExactly(data: seq<byte>)
    requires |data| >= 40
    ensures Passes(ParsedHeader(data[..40]), |data|) <==> HeaderIsRight(data)
    ensures var h := ParsedHeader(data[..40]);
            && h.offDtStruct == WordAtByte(data, 8) && h.offDtStrings == WordAtByte(data, 12)
  {
    forall i: nat | i < 10 ensures UnpackWords(data[..40])[i] == WordAtByte(data, 4 * i) { HeaderWord(data, i); }
    hide UnpackWords, WordAtByte;
    var w := UnpackWords(data[..40]);
    assert w[0] == WordAtByte(data, 4 * 0) && w[1] == WordAtByte(data, 4 * 1) && w[2] == WordAtByte(data, 4 * 2);
    assert w[3] == WordAtByte(data, 4 * 3) && w[4] == WordAtByte(data, 4 * 4) && w[5] == WordAtByte(data, 4 * 5);
    assert w[6] == WordAtByte(data, 4 * 6) && w[8] == WordAtByte(data, 4 * 8) && w[9] == WordAtByte(data, 4 * 9);
  }

  // --- the trailer ----------------------------------------------------------------------------------------

  /** The last twenty bytes: major revision, chip, version of the checker, "DTBC", and the checksum, which is the
      inverted remainder of everything before it. */
  predicate TrailerIs(chip: Chip, image: seq<byte>)
    requires |image| >= 20
  {
    var n := |image|;
    && WordAtByte(image, n - 20) == chip.majorrev && WordAtByte(image, n - 16) == chip.chipid
    && WordAtByte(image, n - 12) == chip.version && WordAtByte(image, n - 8) == 0x4454_4243
  }

  ghost predicate ChecksumIs(image: seq<byte>)
    requires |image| >= 4
  {
    var n := |image|;
    IsRemainder(MessagePolynomial(image[..n - 4]), Not(BitsOf(WordAtByte(image, n - 4), 32)))
  }

  lemma TrailerWord(image: seq<byte>, i: nat)
    requires |image| >= 20 && i < 4
    ensures UnpackWords(image[|image| - 20..|image| - 4])[i] == WordAtByte(image, |image| - 20 + 4 * i)
  {
    var n := |image|;
    var s := image[n - 20..n - 4];
    assert s[4 * i..][..4] == image[n - 20 + 4 * i..n - 20 + 4 * i + 4];
    ReadPrefix(s[4 * i..], image[n - 20 + 4 * i..n - 20 + 4 * i + 4]);
  }

  lemma ChecksumOfSealed(body: seq<byte>)
    ensures ChecksumIs(Sealed(body))
  {
    hide Crc, IsRemainder, PackU32, ReadU32, MessagePolynomial;
    CrcBound(body, 0);
    CrcIsRemainder(body);
    ReadPackedU32(Crc(body, 0), []);
    var image := Sealed(body);
    assert image[..|image| - 4] == body && image[|image| - 4..|image|] == PackU32(Crc(body, 0));
  }

  lemma VerifiedWords(chip: Chip, signed: seq<byte>, unsigned: seq<byte>, trailer: seq<byte>)
    requires |signed| >= 64 && trailer == signed[|signed| - 20..|signed| - 4]
    requires Verify(chip, signed, unsigned)
    ensures |signed| % 64 == 0 && |trailer| == 16
    ensures UnpackWords(trailer) == [chip.majorrev, chip.chipid, chip.version, 0x4454_4243]
  {
    hide Crc, UnpackWords, ReadU32, PySlice, Drop;
  }

  /** Every verified image ends like that. */
  lemma VerifiedTrailer(chip: Chip, signed: seq<byte>, unsigned: seq<byte>)
    requires Verify(chip, signed, unsigned)
    ensures |signed| >= 64 && |signed| % 64 == 0 && TrailerIs(chip, signed) && ChecksumIs(signed)
  {
    hide Crc, Sealed, Verify, ChecksumIs;
    VerifiedIsSealed(chip, signed, unsigned);
    VerifiedWords(chip, signed, unsigned, signed[|signed| - 20..|signed| - 4]);
    ChecksumOfSealed(signed[..|signed| - 4]);
    forall i: nat | i < 4
      ensures UnpackWords(signed[|signed| - 20..|signed| - 4])[i] == WordAtByte(signed, |signed| - 20 + 4 * i)
    {
      TrailerWord(signed, i);
    }
    var w, n := UnpackWords(signed[|signed| - 20..|signed| - 4]), |signed|;
    hide UnpackWords, WordAtByte;
    assert w[0] == WordAtByte(signed, n - 20 + 4 * 0) && w[1] == WordAtByte(signed, n - 20 + 4 * 1);
    assert w[2] == WordAtByte(signed, n - 20 + 4 * 2) && w[3] == WordAtByte(signed, n - 20 + 4 * 3);
  }

  /** What the signer makes of a file: the new size in its header, zeros up to the last block, and the trailer. */
  lemma SignedBytes(chip: Chip, data: seq<byte>)
    requires |data| >= 40 && Passes(ParsedHeader(data[..40]), |data|)
    requires SignedImage(chip, ParsedHeader(data[..40]), data).Some?
    ensures var image := SignedImage(chip, ParsedHeader(data[..40]), data).value;
            && |data| + 20 <= |image| < |data| + 84 && |image| % 64 == 0
            && image[..4] == data[..4] && WordAtByte(image, 4) == |image| && image[8..|data|] == data[8..]
            && (forall i :: |data| <= i < |image| - 20 ==> image[i] == 0)
            && TrailerIs(chip, image) && ChecksumIs(image)
  {
    hide Passes, ParsedHeader, Crc, ChecksumIs, TrailerIs, AlignedLength, WordAtByte, Verify, IsSignedForm, PackWords;
    SignedNeedsMetadata(chip, ParsedHeader(data[..40]), data);
    SizeIsAllowed(chip, data);
    SignedIsForm(chip, data);
    SigningIsComplete(chip, data);
    var image := SignedImage(chip, ParsedHeader(data[..40]), data).value;
    VerifiedTrailer(chip, image, data);
    FormBytes(chip, data, image);
  }

  lemma SizeIsAllowed(chip: Chip, data: seq<byte>)
    requires |data| >= 40 && Passes(ParsedHeader(data[..40]), |data|)
    requires SignedImage(chip, ParsedHeader(data[..40]), data).Some?
    ensures AlignedLength(|data|) <= MAX_SIZE
  {
    hide ParsedHeader, PackWords, Crc, Metadata, Sealed;
  }

  lemma FormBytes(chip: Chip, data: seq<byte>, image: seq<byte>)
    requires |data| >= 40 && LooksSigned(chip, data, image)
    ensures |image| == AlignedLength(|data|) && |data| + 20 <= |image| < |data| + 84 && |image| % 64 == 0
    ensures image[..4] == data[..4] && WordAtByte(image, 4) == |image| && image[8..|data|] == data[8..]
    ensures forall i :: |data| <= i < |image| - 20 ==> image[i] == 0
  {
    hide Crc, Metadata, PackU32, ReadU32, AlignedLength;
    var n := AlignedLength(|data|);
    var size, padding, metadata := PackU32(n), Padding(|data|), Metadata(chip).value;
    var body := data[..4] + size + data[8..] + padding + metadata;
    ReadPackedU32(n, []);
    hide Padding;
    PartsOfBody(data, size, padding, metadata);
    assert image[..|body|] == body;
    assert image[4..8] == body[4..8] == size && image[..4] == body[..4] && image[8..|data|] == body[8..|data|];
    forall i | |data| <= i < n - 20 ensures image[i] == 0 { assert image[i] == body[i] == padding[i - |data|]; }
  }

  lemma PartsOfBody(data: seq<byte>, size: seq<byte>, padding: seq<byte>, metadata: seq<byte>)
    requires |data| >= 8 && |size| == 4
    ensures var body := data[..4] + size + data[8..] + padding + metadata;
            && body[..4] == data[..4] && body[4..8] == size && body[8..|data|] == data[8..]
            && forall i :: 0 <= i < |padding| ==> body[|data| + i] == padding[i]
  {}

  // --- a small blob ----------------------------------------------------------------------------------------

  /** The file of a root with one 4-byte property: header, no reservations, and the blocks. */
  function PropertyBlob(name: Name, value: seq<byte>, cpu: nat): seq<byte>
    requires |name| < 0x1_0000 && cpu < U32_LIMIT
  {
    var header := PackU32(0xD00D_FEED) + (PackU32(89 + |name|) + (PackU32(56) + (PackU32(88) + (PackU32(40)
                  + (PackU32(17) + (PackU32(16) + (PackU32(cpu) + (PackU32(1 + |name|) + (PackU32(32) + [])))))))));
    header + Zeroed(16) + PropertyStructure(value) + (name + [0])
  }

  /** Begin, an empty name, property, its length, its name's place, its value, end, end of the block. */
  function PropertyStructure(value: seq<byte>): seq<byte> {
    (PackU32(1) + [0, 0, 0, 0])
    + ((PackU32(3) + PackU32(4) + PackU32(0) + value) + (PackU32(2) + PackU32(9)))
  }

  lemma PropertyTokens(name: Name, value: seq<byte>)
    ensures TokensOf(WithProperty(name, value), []) == [BeginNode([]), Property(name, value), EndNode]
  {
    SingleItem(Attribute(name, value));
    assert Flatten(WithProperty(name, value)) == [BeginNode([]), Property(name, value), EndNode];
    hide Flatten;
    var a: seq<Token> := [BeginNode([]), Property(name, value), EndNode];
    var b: seq<Token>, c: seq<Token> := [Property(name, value), EndNode], [EndNode];
    assert a[1..] == b && b[1..] == c && c[1..] == [];
    assert Nops(0) == [] && WithNops([], []) == [] && WithNops(c, []) == c && WithNops(b, []) == b;
  }

  lemma StructureIs(name: Name, value: seq<byte>)
    requires |name| < 0x1_0000 && |value| == 4
    ensures var tokens := [BeginNode([]), Property(name, value), EndNode];
            && StringsOf(tokens) == name + [0] && SizesFit(tokens, 0)
            && StructureOf(tokens, 0) == PropertyStructure(value)
  {
    hide PackU32, StringsOf, StructureOf, SizesFit, Encode, Padded, Align;
    StringsAre(name, value);
    EncodedBegin();
    EncodedProperty(name, value);
    EncodedEnd(1 + |name|);
    Tails(BeginNode([]), Property(name, value));
    StructureHead([BeginNode([]), Property(name, value), EndNode], 0);
    StructureHead([Property(name, value), EndNode], 0);
    StructureHead([EndNode], 1 + |name|);
    StructureEnd(1 + |name|);
  }

  lemma Tails(x: Token, y: Token)
    ensures var none: seq<Token> := [];
            && [x, y, EndNode][1..] == [y, EndNode] && [y, EndNode][1..] == [EndNode] && [EndNode][1..] == none
  {}

  lemma EncodedBegin()
    ensures Encode(BeginNode([]), 0) == PackU32(1) + [0, 0, 0, 0]
  {
    hide PackU32, Padded, Align;
    PaddedParts([0, 0, 0, 0]);
  }

  lemma EncodedProperty(name: Name, value: seq<byte>)
    requires |value| == 4
    ensures Encode(Property(name, value), 0) == PackU32(3) + PackU32(4) + PackU32(0) + value
  {
    hide PackU32, Padded, Align;
    PaddedParts(value);
  }

  lemma EncodedEnd(at: nat)
    requires at < U32_LIMIT
    ensures Encode(EndNode, at) == PackU32(2) && Encode(Nop, at) == PackU32(4)
  {}

  lemma StringsAre(name: Name, value: seq<byte>)
    requires |name| < 0x1_0000 && |value| == 4
    ensures var a, b: seq<Token> := [BeginNode([]), Property(name, value), EndNode], [Property(name, value), EndNode];
            && StringsOf(a) == name + [0] && SizesFit(a, 0) && SizesFit(b, 0)
            && SizesFit([EndNode], 1 + |name|) && SizesFit([], 1 + |name|)
  {
    var a: seq<Token> := [BeginNode([]), Property(name, value), EndNode];
    var b: seq<Token>, c: seq<Token> := [Property(name, value), EndNode], [EndNode];
    assert a[1..] == b && b[1..] == c && c[1..] == [];
    assert StringsOf(c) == [] && StringsOf(b) == name + [0] + [] && StringsOf(a) == [] + StringsOf(b);
  }

  lemma StructureHead(tokens: seq<Token>, at: nat)
    requires tokens != [] && SizesFit(tokens, at)
    ensures SizesFit(tokens[1..], NextName(tokens[0], at)) && at < U32_LIMIT
    ensures tokens[0].Property? ==> |tokens[0].value| < U32_LIMIT
    ensures StructureOf(tokens, at) == Encode(tokens[0], at) + StructureOf(tokens[1..], NextName(tokens[0], at))
  {
    SizesFitNext(tokens, at);
    hide StringsOf, Encode;
  }

  lemma StructureEnd(at: nat)
    requires SizesFit([], at)
    ensures StructureOf([], at) == PackU32(9)
  {}

  lemma PaddedParts(value: seq<byte>)
    requires |value| == 4
    ensures Padded([] + [0]) == [0, 0, 0, 0] && Padded(value) == value
  {}

  /** What is written for such a root, and parsed exactly if the name is allowed. */
  lemma PropertyImage(name: Name, value: seq<byte>, cpu: nat)
    requires |name| < 0x1_0000 && |value| == 4 && cpu < U32_LIMIT
    ensures ImageFits(WithProperty(name, value), [], cpu)
    ensures Image(WithProperty(name, value), [], cpu) == PropertyBlob(name, value, cpu)
  {
    hide PackU32, SizesFit, StructureOf, StringsOf, TokensOf, WithProperty;
    PropertyTokens(name, value);
    StructureIs(name, value);
    TenWords(WordsOf(HeaderFor(32, 1 + |name|, cpu)));
  }

  lemma PackNext(w: seq<nat>, i: nat)
    requires i < |w| && forall k :: 0 <= k < |w| ==> w[k] < U32_LIMIT
    ensures PackWords(w[i..]).Some? && PackWords(w[i + 1..]).Some?
    ensures PackWords(w[i..]).value == PackU32(w[i]) + PackWords(w[i + 1..]).value
    ensures PackWords(w[|w|..]) == Some([])
  {
    hide PackU32;
    assert w[i..][1..] == w[i + 1..] && w[i..][0] == w[i];
    forall k | 0 <= k < |w| - i ensures w[i..][k] < U32_LIMIT {}
  }

  lemma TenWords(w: seq<nat>)
    requires |w| == 10 && forall k :: 0 <= k < |w| ==> w[k] < U32_LIMIT
    ensures PackWords(w)
         == Some(PackU32(w[0]) + (PackU32(w[1]) + (PackU32(w[2]) + (PackU32(w[3]) + (PackU32(w[4])
                 + (PackU32(w[5]) + (PackU32(w[6]) + (PackU32(w[7]) + (PackU32(w[8]) + (PackU32(w[9]) + []))))))))))
  {
    hide PackU32, PackWords;
    PackNext(w, 0);
    PackNext(w, 1);
    PackNext(w, 2);
    PackNext(w, 3);
    PackNext(w, 4);
    PackNext(w, 5);
    PackNext(w, 6);
    PackNext(w, 7);
    PackNext(w, 8);
    PackNext(w, 9);
    assert w[0..] == w;
  }

  /** Spelled out: the file of a root with one 4-byte property is accepted exactly if the name is of the alphabet. */
  lemma PropertyBlobExactly(name: Name, value: seq<byte>, cpu: nat)
    requires |name| < 0x1_0000 && |value| == 4 && cpu < U32_LIMIT && 0 !in name
    requires name != [0x70, 0x68, 0x61, 0x6E, 0x64, 0x6C, 0x65]
    ensures Sane(BEGIN) && |PropertyBlob(name, value, cpu)| >= 40
    ensures IsParsed(PropertyBlob(name, value, cpu)) <==> IsPropertyText(Cut(name))
  {
    hide PropertyBlob, IsParsed, IsPropertyText, ImageFits, Image, WithProperty;
    PropertyImage(name, value, cpu);
    PropertyNamesExactly(name, value, [], cpu);
  }
}
