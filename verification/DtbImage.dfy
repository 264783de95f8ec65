/** A whole device tree blob: header, empty memory reservation block, structure block, strings block. */
module DtbImage {
  import opened Bytes
  import opened Sequences
  import opened DtbTree
  import opened DtbTokens
  import opened DtbLayout
  import opened DtbParser
  import opened DtbSerializer
  import opened DtbSign
  import opened DtbSignTheorems

  const RESERVATIONS := 16
  const STRUCTURE_START := 56

  function HeaderFor(structure: nat, strings: nat, cpu: nat): Header {
    Header(DTB_MAGIC, STRUCTURE_START + structure + strings, STRUCTURE_START, STRUCTURE_START + structure,
           HEADER_LENGTH, DTB_VERSION, DTB_LAST_COMP_VERSION, cpu, strings, structure)
  }

  /** The sizes the header check and the words allow. */
  predicate ImageFits(root: Node, nops: seq<nat>, cpu: nat) {
    var tokens := TokensOf(root, nops);
    && SizesFit(tokens, 0) && cpu < U32_LIMIT
    && STRUCTURE_START + |StructureOf(tokens, 0)| + |StringsOf(tokens)| <= MAX_SIZE
  }

  function Image(root: Node, nops: seq<nat>, cpu: nat): seq<byte>
    requires ImageFits(root, nops, cpu)
  {
    var tokens := TokensOf(root, nops);
    var structure, strings := StructureOf(tokens, 0), StringsOf(tokens);
    PackWords(WordsOf(HeaderFor(|structure|, |strings|, cpu))).value + Zeroed(RESERVATIONS) + structure + strings
  }

  lemma HeaderPacks(structure: nat, strings: nat, cpu: nat)
    requires cpu < U32_LIMIT && STRUCTURE_START + structure + strings <= MAX_SIZE
    ensures var h := HeaderFor(structure, strings, cpu);
            PackWords(WordsOf(h)).Some? && |PackWords(WordsOf(h)).value| == HEADER_LENGTH
            && ParsedHeader(PackWords(WordsOf(h)).value) == h
  {
    var h := HeaderFor(structure, strings, cpu);
    assert forall i :: 0 <= i < 10 ==> WordsOf(h)[i] < U32_LIMIT;
    UnpackPacked(WordsOf(h));
    hide PackWords, UnpackWords;
  }

  /** What Image returns has this header, and the blocks where the header says. */
  lemma ImageHoldsTree(root: Node, nops: seq<nat>, cpu: nat)
    requires ImageFits(root, nops, cpu)
    ensures var image, tokens := Image(root, nops, cpu), TokensOf(root, nops);
            var h := HeaderFor(|StructureOf(tokens, 0)|, |StringsOf(tokens)|, cpu);
            && |image| == h.totalsize && ParsedHeader(image[..HEADER_LENGTH]) == h && Passes(h, |image|)
            && HoldsTree(image, h.offDtStrings, h.offDtStruct, root, nops)
  {
    var tokens := TokensOf(root, nops);
    var structure, strings := StructureOf(tokens, 0), StringsOf(tokens);
    HeaderPacks(|structure|, |strings|, cpu);
    hide PackWords, UnpackWords, StructureOf, StringsOf, TokensOf, ParsedHeader, WordsOf, SizesFit;
    var front := PackWords(WordsOf(HeaderFor(|structure|, |strings|, cpu))).value;
    PartsAreHeld(front, Zeroed(RESERVATIONS), structure, strings);
  }

  lemma PartsAreHeld(front: seq<byte>, gap: seq<byte>, structure: seq<byte>, strings: seq<byte>)
    ensures var image, at := front + gap + structure + strings, |front| + |gap|;
            image[..|front|] == front && Holds(image, at, structure) && Holds(image, at + |structure|, strings)
  {
    SliceOfMiddle(front + gap, structure, strings, 0, |structure|);
  }

  /** Header check and parser accept the blob of a legal tree exactly if its root name is UTF-8 and takes as many
      words in code points as in bytes, and then they give the tree back. */
  lemma ImageIsParsed(root: Node, nops: seq<nat>, cpu: nat)
    requires ImageFits(root, nops, cpu) && LegalTree(root) && 0 !in root.name
    ensures Sane(BEGIN)
    ensures var image := Image(root, nops, cpu);
            && |image| >= HEADER_LENGTH
            && var h := ParsedHeader(image[..HEADER_LENGTH]);
            && Passes(h, |image|)
            && var r := ParseFrom(image, h.offDtStrings, h.offDtStruct, BEGIN);
            && (r.Some? <==> Aligned(root.name))
            && (r.Some? ==> r.value.nodes == LayoutNode(root, 0, NO_NODE))
  {
    hide Image, LegalTree, HoldsTree, ParseFrom, Aligned, ParsedHeader;
    ImageHoldsTree(root, nops, cpu);
    var image := Image(root, nops, cpu);
    var h := ParsedHeader(image[..HEADER_LENGTH]);
    WrittenTreeExactly(image, h.offDtStrings, h.offDtStruct, root, nops);
  }

  /** The blob of a tree that is legal but for its accented root name passes the header check and is not parsed. */
  lemma AccentedImageIsRejected()
    ensures LegalTree(Node(ACCENTED, [])) && ImageFits(Node(ACCENTED, []), [], 0) && Sane(BEGIN)
    ensures var image := Image(Node(ACCENTED, []), [], 0);
            && |image| >= HEADER_LENGTH
            && var h := ParsedHeader(image[..HEADER_LENGTH]);
            Passes(h, |image|) && ParseFrom(image, h.offDtStrings, h.offDtStruct, BEGIN).None?
  {
    hide Aligned, Image, ImageFits, LegalTree, ParseFrom, ParsedHeader, Passes;
    AccentedIsNotAligned();
    AccentedImageFits();
    ImageIsParsed(Node(ACCENTED, []), [], 0);
  }

  lemma AccentedImageFits()
    ensures LegalTree(Node(ACCENTED, [])) && ImageFits(Node(ACCENTED, []), [], 0)
  {
    hide Align, Flatten, WithNops, StructureOf, StringsOf, SizesFit;
    TokensOfLeaf(ACCENTED);
    LeafFits(ACCENTED);
  }

  lemma TokensOfLeaf(name: Name)
    ensures TokensOf(Node(name, []), []) == [BeginNode(name), EndNode]
  {
    assert FlattenItems([]) == [];
    assert Flatten(Node(name, [])) == [BeginNode(name), EndNode];
    hide Flatten;
    var last: seq<Token> := [EndNode];
    assert [BeginNode(name), EndNode][1..] == last && last[1..] == [];
    assert Nops(0) == [] && WithNops([], []) == [] && WithNops(last, []) == last;
  }

  lemma LeafFits(name: Name)
    ensures var tokens := [BeginNode(name), EndNode];
            && StringsOf(tokens) == [] && SizesFit(tokens, 0)
            && |StructureOf(tokens, 0)| <= |name| + 16
  {
    hide PackU32, Align, CodePoints;
    var tokens, last: seq<Token> := [BeginNode(name), EndNode], [EndNode];
    assert tokens[1..] == last && last[1..] == [];
    assert StringsOf([]) == [] && StringsOf(last) == [] && SizesFit(last, 0) && SizesFit([], 0);
    assert |StructureOf([], 0)| == 4 && |StructureOf(last, 0)| == 8;
  }

  /** The whole tool signs the blob of a legal tree with such a root name, if the rules are met and the signed size is
      allowed; the signed blob parses to the same tree. */
  lemma ImageIsSigned(chip: Chip, rules: seq<byte> -> bool, root: Node, nops: seq<nat>, cpu: nat)
    requires ImageFits(root, nops, cpu) && LegalTree(root) && 0 !in root.name && Aligned(root.name)
    requires Metadata(chip).Some? && rules(Image(root, nops, cpu))
    requires AlignedLength(|Image(root, nops, cpu)|) <= MAX_SIZE
    ensures Sane(BEGIN)
    ensures var image := Image(root, nops, cpu);
            var signed := CheckedAndSigned(chip, rules, image);
            && signed.Some? && Verify(chip, signed.value, image) && |signed.value| >= HEADER_LENGTH
            && var g := ParsedHeader(signed.value[..HEADER_LENGTH]);
            && Passes(g, |signed.value|)
            && var r := ParseFrom(signed.value, g.offDtStrings, g.offDtStruct, BEGIN);
            r.Some? && r.value.nodes == LayoutNode(root, 0, NO_NODE)
  {
    hide Image, LegalTree, HoldsTree, ParseFrom, Aligned, ParsedHeader, Verify, SignedImage, Metadata, AlignedLength;
    ImageIsParsed(root, nops, cpu);
    var image := Image(root, nops, cpu);
    SigningIsComplete(chip, image);
    SigningKeepsTheTree(chip, image);
  }
}
