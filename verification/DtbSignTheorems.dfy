/** What signing a DTB guarantees: it succeeds and verifies whenever the size allows, it keeps the tree, and a
    verified image that is changed anywhere no longer verifies. */
module DtbSignTheorems {
  import opened Bytes
  import opened Crc32
  import opened DtbTokens
  import opened DtbLayout
  import opened DtbParser
  import opened DtbSign

  // --- signing is complete ----------------------------------------------------------------------------

  /** The header of data, with room for the trailer. */
  function GrownHeader(data: seq<byte>): Header
    requires |data| >= HEADER_LENGTH
  {
    ParsedHeader(data[..HEADER_LENGTH]).(totalsize := AlignedLength(|data|))
  }

  lemma PackedHeader(data: seq<byte>)
    requires |data| >= HEADER_LENGTH && AlignedLength(|data|) < U32_LIMIT
    ensures PackWords(WordsOf(GrownHeader(data)))
         == Some(data[..4] + PackU32(AlignedLength(|data|)) + data[8..HEADER_LENGTH])
  {
    hide PackU32, PackWords, UnpackWords, AlignedLength, WordsOf, GrownHeader;
    var n := AlignedLength(|data|);
    PackUnpacked(data[..4] + PackU32(n) + data[8..HEADER_LENGTH]);
    WordsOfPatched(data, n);
    WordsOfGrown(data);
  }

  lemma WordsOfPatched(data: seq<byte>, n: nat)
    requires |data| >= HEADER_LENGTH && n < U32_LIMIT
    ensures UnpackWords(data[..4] + PackU32(n) + data[8..HEADER_LENGTH]) == UnpackWords(data[..HEADER_LENGTH])[1 := n]
  {
    hide ReadU32, PackU32;
    var s, t := data[..HEADER_LENGTH], data[..4] + PackU32(n) + data[8..HEADER_LENGTH];
    ReadPackedU32(n, data[8..HEADER_LENGTH]);
    assert t[4 * 1..] == PackU32(n) + data[8..HEADER_LENGTH];
    forall i | 0 <= i < 10 ensures UnpackWords(t)[i] == UnpackWords(s)[1 := n][i] {
      if i != 1 { WordUnchanged(s, t, i); }
    }
  }

  lemma WordsOfGrown(data: seq<byte>)
    requires |data| >= HEADER_LENGTH
    ensures WordsOf(GrownHeader(data)) == UnpackWords(data[..HEADER_LENGTH])[1 := AlignedLength(|data|)]
  {
    hide UnpackWords, AlignedLength;
  }

  lemma WordUnchanged(s: seq<byte>, t: seq<byte>, i: nat)
    requires |s| == |t| == HEADER_LENGTH && s[..4] == t[..4] && s[8..] == t[8..] && i < 10 && i != 1
    ensures UnpackWords(s)[i] == UnpackWords(t)[i]
  {
    assert forall j :: 0 <= j < 4 || 8 <= j < 40 ==> s[j] == t[j] by {
      forall j | 0 <= j < 4 || 8 <= j < 40 ensures s[j] == t[j] {
        if j < 4 { assert s[..4][j] == t[..4][j]; } else { assert s[8..][j - 8] == t[8..][j - 8]; }
      }
    }
  }

  lemma Regrouped(data: seq<byte>, size: seq<byte>, padding: seq<byte>, metadata: seq<byte>)
    requires |data| >= HEADER_LENGTH && |size| == 4
    ensures var body := (data[..4] + size + data[8..HEADER_LENGTH]) + Drop(data, HEADER_LENGTH) + padding + metadata;
            && body == data[..4] + size + data[8..] + padding + metadata
            && |body| == |data| + |padding| + |metadata|
            && body[..4] == data[..4] && body[8..|data|] == data[8..]
  {
    assert data[8..HEADER_LENGTH] + Drop(data, HEADER_LENGTH) == data[8..];
  }

  /** totalsize, padding, metadata and checksum are all that is new in the image. */
  predicate LooksSigned(chip: Chip, data: seq<byte>, image: seq<byte>)
    requires |data| >= 8
  {
    var n := AlignedLength(|data|);
    && n < U32_LIMIT
    && |image| == n
    && IsSignedForm(chip, image, data, PackU32(n), Padding(|data|))
    && image[..4] == data[..4]
    && image[8..|data|] == data[8..]
  }

  lemma SignedIsForm(chip: Chip, data: seq<byte>)
    requires |data| >= HEADER_LENGTH && Passes(ParsedHeader(data[..HEADER_LENGTH]), |data|)
    requires Metadata(chip).Some? && AlignedLength(|data|) <= MAX_SIZE
    ensures var r := SignedImage(chip, ParsedHeader(data[..HEADER_LENGTH]), data);
            r.Some? && LooksSigned(chip, data, r.value)
  {
    hide PackWords, PackU32, Metadata, Sealed, UnpackWords, AlignedLength, Padding, Drop, LooksSigned, SignedImage;
    hide ParsedHeader, WordsOf, Passes;
    PackedHeader(data);
    var packed := data[..4] + PackU32(AlignedLength(|data|)) + data[8..HEADER_LENGTH];
    Regrouped(data, PackU32(AlignedLength(|data|)), Padding(|data|), Metadata(chip).value);
    SignedImageOf(chip, ParsedHeader(data[..HEADER_LENGTH]), data, packed, Metadata(chip).value);
    SealedLooksSigned(chip, data, packed + Drop(data, HEADER_LENGTH) + Padding(|data|) + Metadata(chip).value);
  }

  lemma SignedImageOf(chip: Chip, h: Header, data: seq<byte>, packed: seq<byte>, metadata: seq<byte>)
    requires |data| >= HEADER_LENGTH && Passes(h, |data|) && AlignedLength(|data|) <= MAX_SIZE
    requires Metadata(chip) == Some(metadata)
    requires PackWords(WordsOf(h.(totalsize := AlignedLength(|data|)))) == Some(packed)
    ensures SignedImage(chip, h, data) == Some(Sealed(packed + Drop(data, HEADER_LENGTH) + Padding(|data|) + metadata))
  {
    hide PackWords, Sealed, AlignedLength;
    assert |packed| == HEADER_LENGTH;
  }

  lemma SealedLooksSigned(chip: Chip, data: seq<byte>, body: seq<byte>)
    requires |data| >= HEADER_LENGTH && AlignedLength(|data|) < U32_LIMIT && Metadata(chip).Some?
    requires body == data[..4] + PackU32(AlignedLength(|data|)) + data[8..] + Padding(|data|) + Metadata(chip).value
    requires |body| == AlignedLength(|data|) - 4 && body[..4] == data[..4] && body[8..|data|] == data[8..]
    ensures LooksSigned(chip, data, Sealed(body))
  {
    hide PackU32, Metadata, Sealed, AlignedLength, Padding;
    SealedKeeps(body, |data|);
    Prefixes(Sealed(body), body, |data|);
  }

  lemma Prefixes(s: seq<byte>, t: seq<byte>, n: nat)
    requires 8 <= n <= |s| && n <= |t| && s[..n] == t[..n]
    ensures s[..4] == t[..4] && s[8..n] == t[8..n]
  {
    assert s[..4] == s[..n][..4] && t[..4] == t[..n][..4];
    assert s[8..n] == s[..n][8..] && t[8..n] == t[..n][8..];
  }

  lemma SealedKeeps(body: seq<byte>, n: nat)
    requires n <= |body|
    ensures Sealed(body)[..n] == body[..n]
  {}

  /** Signing a DTB whose header passes the check succeeds exactly when the aligned length is at most 2^31, and
      what it returns is verified. */
  lemma SigningIsComplete(chip: Chip, data: seq<byte>)
    requires |data| >= HEADER_LENGTH && Passes(ParsedHeader(data[..HEADER_LENGTH]), |data|) && Metadata(chip).Some?
    ensures var r := SignedImage(chip, ParsedHeader(data[..HEADER_LENGTH]), data);
            && (r.Some? <==> AlignedLength(|data|) <= MAX_SIZE)
            && (r.Some? ==> Verify(chip, r.value, data))
  {
    hide Verify, IsSignedForm;
    if AlignedLength(|data|) <= MAX_SIZE {
      SignedIsForm(chip, data);
      var image := SignedImage(chip, ParsedHeader(data[..HEADER_LENGTH]), data).value;
      FormIsVerified(chip, image, data, PackU32(AlignedLength(|data|)), Padding(|data|));
    } else {
      hide PackWords, PackU32, Metadata, Sealed;
    }
  }

  // --- signing keeps the tree -------------------------------------------------------------------------

  /** The two byte strings agree from the end of the header to the end of the shorter one. */
  predicate Extends(data: seq<byte>, longer: seq<byte>) {
    HEADER_LENGTH <= |data| <= |longer| && forall i :: HEADER_LENGTH <= i < |data| ==> data[i] == longer[i]
  }

  lemma {:induction false} StringEndExtends(data: seq<byte>, longer: seq<byte>, offset: nat)
    requires Extends(data, longer) && offset >= HEADER_LENGTH && StringEnd(data, offset).Some?
    ensures StringEnd(longer, offset) == StringEnd(data, offset)
    decreases |data| - offset
  {
    if data[offset] != 0 { StringEndExtends(data, longer, offset + 1); }
  }

  lemma ParseStringExtends(data: seq<byte>, longer: seq<byte>, offset: nat)
    requires Extends(data, longer) && offset >= HEADER_LENGTH && ParseString(data, offset).Some?
    ensures ParseString(longer, offset) == ParseString(data, offset)
  {
    StringEndExtends(data, longer, offset);
    var end := StringEnd(data, offset).value;
    assert data[offset..end] == longer[offset..end];
  }

  lemma WordExtends(data: seq<byte>, longer: seq<byte>, offset: nat)
    requires Extends(data, longer) && HEADER_LENGTH <= offset && offset + 4 <= |data|
    ensures ReadU32(data[offset..]) == ReadU32(longer[offset..])
  {}

  /** A token that ends inside the data reads the same in the longer data. */
  lemma ScanExtends(data: seq<byte>, longer: seq<byte>, strings: nat, offset: nat)
    requires Extends(data, longer) && offset >= HEADER_LENGTH && strings >= HEADER_LENGTH
    requires var r := ScanToken(data, strings, offset); r.Finished? || (r.Scanned? && r.next <= |data|)
    ensures ScanToken(longer, strings, offset) == ScanToken(data, strings, offset)
  {
    hide ReadU32, CodePoints, ParseString, Align;
    WordExtends(data, longer, offset);
    var token := ReadU32(data[offset..]);
    if token == FDT_BEGIN_NODE {
      ParseStringExtends(data, longer, offset + 4);
    } else if token == FDT_PROP {
      WordExtends(data, longer, offset + 4);
      WordExtends(data, longer, offset + 8);
      var length, nameoff := ReadU32(data[offset + 4..]), ReadU32(data[offset + 8..]);
      ParseStringExtends(data, longer, strings + nameoff);
      SliceExtends(data, longer, offset + 12, length);
    }
  }

  lemma SliceExtends(data: seq<byte>, longer: seq<byte>, lo: nat, length: nat)
    requires Extends(data, longer) && HEADER_LENGTH <= lo && Align(lo + length, 4) <= |data|
    ensures PySlice(data, lo, lo + length) == PySlice(longer, lo, lo + length)
  {}

  /** A structure block that parses, parses to the same tree in data that goes on after it. */
  lemma {:induction false} ParseExtends(data: seq<byte>, longer: seq<byte>, strings: nat, offset: nat, s: State)
    requires Extends(data, longer) && offset >= HEADER_LENGTH && strings >= HEADER_LENGTH
    requires Sane(s) && ParseFrom(data, strings, offset, s).Some?
    ensures offset < |data| && ParseFrom(longer, strings, offset, s) == ParseFrom(data, strings, offset, s)
    decreases |data| - offset
  {
    hide Advance;
    match ScanToken(data, strings, offset) {
      case Malformed =>
      case Finished => StartsInside(data, strings, offset); ScanExtends(data, longer, strings, offset);
      case Scanned(token, next) =>
        AdvanceKeepsSane(s, token);
        ParseExtends(data, longer, strings, next, Advance(s, token).value);
        StartsInside(data, strings, offset);
        ScanExtends(data, longer, strings, offset);
    }
  }

  lemma StartsInside(data: seq<byte>, strings: nat, offset: nat)
    requires !ScanToken(data, strings, offset).Malformed?
    ensures offset < |data|
  {}

  /** A signed DTB passes the header check and parses to the tree of the unsigned one. */
  lemma SigningKeepsTheTree(chip: Chip, data: seq<byte>)
    requires |data| >= HEADER_LENGTH && Sane(BEGIN) && Metadata(chip).Some? && AlignedLength(|data|) <= MAX_SIZE
    requires var h := ParsedHeader(data[..HEADER_LENGTH]);
             Passes(h, |data|) && ParseFrom(data, h.offDtStrings, h.offDtStruct, BEGIN).Some?
    ensures var h := ParsedHeader(data[..HEADER_LENGTH]);
            && SignedImage(chip, h, data).Some?
            && var image := SignedImage(chip, h, data).value;
            && |image| >= HEADER_LENGTH
            && var g := ParsedHeader(image[..HEADER_LENGTH]);
            && g == h.(totalsize := |image|) && Passes(g, |image|)
            && ParseFrom(image, g.offDtStrings, g.offDtStruct, BEGIN)
               == ParseFrom(data, h.offDtStrings, h.offDtStruct, BEGIN)
  {
    hide Metadata, UnpackWords, ParsedHeader, ParseFrom, IsSignedForm, AlignedLength, SignedImage;
    var h := ParsedHeader(data[..HEADER_LENGTH]);
    SignedIsForm(chip, data);
    SignedHeader(chip, data);
    var image := SignedImage(chip, h, data).value;
    forall i | HEADER_LENGTH <= i < |data| ensures data[i] == image[i] {
      assert image[8..|data|][i - 8] == data[8..][i - 8];
    }
    ParseExtends(data, image, h.offDtStrings, h.offDtStruct, BEGIN);
  }

  lemma SignedHeader(chip: Chip, data: seq<byte>)
    requires |data| >= HEADER_LENGTH && Passes(ParsedHeader(data[..HEADER_LENGTH]), |data|)
    requires Metadata(chip).Some? && AlignedLength(|data|) <= MAX_SIZE
    ensures var r := SignedImage(chip, ParsedHeader(data[..HEADER_LENGTH]), data);
            r.Some? && |r.value| >= HEADER_LENGTH && ParsedHeader(r.value[..HEADER_LENGTH]) == GrownHeader(data)
  {
    hide PackWords, UnpackWords, Metadata, AlignedLength, SignedImage, Passes;
    HeaderComesFirst(chip, data);
    UnpackPacked(WordsOf(GrownHeader(data)));
  }

  lemma HeaderComesFirst(chip: Chip, data: seq<byte>)
    requires |data| >= HEADER_LENGTH && Passes(ParsedHeader(data[..HEADER_LENGTH]), |data|)
    requires Metadata(chip).Some? && AlignedLength(|data|) <= MAX_SIZE
    ensures var r := SignedImage(chip, ParsedHeader(data[..HEADER_LENGTH]), data);
            && r.Some? && |r.value| >= HEADER_LENGTH
            && Some(r.value[..HEADER_LENGTH]) == PackWords(WordsOf(GrownHeader(data)))
  {
    hide PackWords, PackU32, Metadata, UnpackWords, IsSignedForm, Sealed, AlignedLength, WordsOf, Padding;
    SignedIsForm(chip, data);
    PackedHeader(data);
    var packed := PackWords(WordsOf(GrownHeader(data))).value;
    var body := packed + Drop(data, HEADER_LENGTH) + Padding(|data|) + Metadata(chip).value;
    SealedKeeps(body, HEADER_LENGTH);
    assert body[..HEADER_LENGTH] == packed;
  }

  // --- verification is exact --------------------------------------------------------------------------

  /** What `__verify` accepts: any totalsize and any padding, everything else as signed. */
  lemma VerifiedExactly(chip: Chip, signed: seq<byte>, unsigned: seq<byte>)
    requires |unsigned| >= 8
    ensures Verify(chip, signed, unsigned)
            <==> exists size, padding :: IsSignedForm(chip, signed, unsigned, size, padding)
  {
    hide Verify, IsSignedForm;
    if Verify(chip, signed, unsigned) {
      var size, padding := VerifiedForm(chip, signed, unsigned);
    }
    if size, padding :| IsSignedForm(chip, signed, unsigned, size, padding) {
      FormIsVerified(chip, signed, unsigned, size, padding);
    }
  }

  /** A verified image changed within four consecutive bytes, wherever they are, is verified for no unsigned image and
      no chip: also when only totalsize or padding bytes change. */
  lemma TamperingIsDetected(chip: Chip, signed: seq<byte>, unsigned: seq<byte>, tampered: seq<byte>, at: nat, k: nat)
    requires Verify(chip, signed, unsigned)
    requires k <= 4 && at + k <= |signed|
    requires |tampered| == |signed| && tampered != signed
    requires tampered[..at] == signed[..at] && tampered[at + k..] == signed[at + k..]
    ensures forall c, u :: !Verify(c, tampered, u)
  {
    hide Verify;
    VerifiedIsSealed(chip, signed, unsigned);
    MagicOfVerified(chip, signed, unsigned);
    forall c, u ensures !Verify(c, tampered, u) {
      if Verify(c, tampered, u) {
        VerifiedIsSealed(c, tampered, u);
        MagicOfVerified(c, tampered, u);
        SealedApart(signed, tampered, at, k);
      }
    }
  }

  /** The word before the checksum is the same in all verified images. */
  lemma MagicOfVerified(chip: Chip, signed: seq<byte>, unsigned: seq<byte>)
    requires Verify(chip, signed, unsigned)
    ensures |signed| >= 64 && signed[|signed| - 8..|signed| - 4] == PackU32(DTBCHECK_MAGIC)
  {
    hide Crc, ReadU32, PackU32;
    var n := |signed|;
    var metadata := signed[n - TRAILER_LENGTH..n - 4];
    assert UnpackWords(metadata)[3] == ReadU32(metadata[4 * 3..]);
    PackReadU32(metadata[4 * 3..]);
    assert metadata[4 * 3..][..4] == signed[n - 8..n - 4];
  }

  /** Two sealed images with the same word before the checksum do not differ in four consecutive bytes only. */
  lemma SealedApart(s: seq<byte>, t: seq<byte>, at: nat, k: nat)
    requires |s| == |t| >= 64 && k <= 4 && at + k <= |s|
    requires t[..at] == s[..at] && t[at + k..] == s[at + k..]
    requires s == Sealed(s[..|s| - 4]) && t == Sealed(t[..|t| - 4])
    requires s[|s| - 8..|s| - 4] == t[|t| - 8..|t| - 4]
    ensures s == t
  {
    hide Sealed;
    var n := |s| - 4;
    if at >= n {
      assert s[..n] == s[..at][..n] == t[..at][..n] == t[..n];
    } else if at + k > n {
      SameFront(s, t, at, n);
    } else {
      var a, x, y, b := s[..at], s[at..at + k], t[at..at + k], s[at + k..n];
      assert b == s[at + k..][..n - at - k] == t[at + k..][..n - at - k] == t[at + k..n];
      assert s[..n] == a + x + b && t[..n] == a + y + b;
      assert s[n..] == s[at + k..][n - at - k..] == t[at + k..][n - at - k..] == t[n..];
      SameChecksum(s[..n], t[..n], s, t);
      if x != y { CrcDetectsBurst(a, x, y, b, 0); }
    }
  }

  lemma SameFront(s: seq<byte>, t: seq<byte>, at: nat, n: nat)
    requires 4 <= n <= |s| == |t| && n - 4 <= at <= n && s[..at] == t[..at] && s[n - 4..n] == t[n - 4..n]
    ensures s[..n] == t[..n]
  {
    forall i | 0 <= i < n ensures s[i] == t[i] {
      if i < at {
        assert s[..at][i] == t[..at][i];
      } else {
        assert s[n - 4..n][i - (n - 4)] == t[n - 4..n][i - (n - 4)];
      }
    }
  }

  lemma SameChecksum(x: seq<byte>, y: seq<byte>, s: seq<byte>, t: seq<byte>)
    requires |x| == |y| && s == Sealed(x) && t == Sealed(y) && s[|x|..] == t[|y|..]
    ensures Crc(x, 0) == Crc(y, 0)
  {
    CrcBound(x, 0);
    CrcBound(y, 0);
    hide Crc;
    ReadPackedU32(Crc(x, 0), []);
    ReadPackedU32(Crc(y, 0), []);
    hide PackU32, ReadU32;
    assert s[|x|..] == PackU32(Crc(x, 0)) && t[|y|..] == PackU32(Crc(y, 0));
  }

  // --- the tool ---------------------------------------------------------------------------------------

  /** What the tool writes, if it gets that far. The tree is a function of the bytes, and so is what the rules say
      about it: `rules` is true for the bytes whose tree meets them. */
  ghost function CheckedAndSigned(chip: Chip, rules: seq<byte> -> bool, data: seq<byte>): Option<seq<byte>>
    requires Sane(BEGIN)
  {
    if |data| < HEADER_LENGTH then None else
      var h := ParsedHeader(data[..HEADER_LENGTH]);
      if Passes(h, |data|) && ParseFrom(data, h.offDtStrings, h.offDtStruct, BEGIN).Some? && rules(data)
      then SignedImage(chip, h, data) else None
  }

  /** `__main`: header check, parse, rules, sign, verify. */
  method CheckAndSign(chip: Chip, rules: seq<byte> -> bool, data: seq<byte>) returns (r: Option<seq<byte>>)
    ensures Sane(BEGIN) && r == CheckedAndSigned(chip, rules, data)
  {
    hide ParseFrom, Verify, SignedImage, PackWords, UnpackWords;
    if |data| < HEADER_LENGTH { return None; }
    var header := ParseHeader(data[..HEADER_LENGTH]);
    if !header.Check(data) { return None; }
    var h := header.Value();
    var ok, root, nodes, s := ParseDtStruct(header.offDtStrings, data, header.offDtStruct);
    if !ok || !rules(data) { return None; }
    assert header.Value() == h;
    r := Sign(chip, header, data);
    if r.Some? {
      SignedNeedsMetadata(chip, h, data);
      SigningIsComplete(chip, data);
      if !Verify(chip, r.value, data) { r := None; }
    }
  }

  lemma SignedNeedsMetadata(chip: Chip, h: Header, data: seq<byte>)
    requires SignedImage(chip, h, data).Some?
    ensures Metadata(chip).Some?
  {}
}
