/** The inspector of BUP_generator.py: what it reads back from a blob. */
module BupInspector {
  import opened Bytes
  import opened Sequences
  import opened BlobFile
  import opened BupFormat
  import opened BupWriter

  datatype BlobHeader = BlobHeader(
    magic: seq<byte>, version: nat, blobSize: nat, headerSize: nat, entryCount: nat, blobType: nat, uncompBlobSize: nat)

  /** One row of the entry table; the texts still carry their padding. */
  datatype Entry = Entry(partName: seq<byte>, offset: nat, partSize: nat, version: nat, opMode: nat, tnspec: seq<byte>)

  function UnpackHeader(s: seq<byte>): BlobHeader
    requires |s| == HEADER_SIZE
  {
    BlobHeader(s[..16], ReadLE(s[16..20]), ReadLE(s[20..24]), ReadLE(s[24..28]), ReadLE(s[28..32]), ReadLE(s[32..36]),
               ReadLE(s[36..40]))
  }

  function UnpackEntry(s: seq<byte>): Entry
    requires |s| == ENTRY_SIZE
  {
    Entry(s[..40], ReadLE(s[40..44]), ReadLE(s[44..48]), ReadLE(s[48..52]), ReadLE(s[52..56]), s[56..])
  }

  predicate Blank(b: byte) {
    b == 0x20 || b == 0x09 || b == 0x0A || b == 0x00
  }

  /** s.strip(' \t\n\0') */
  function Strip(s: seq<byte>): seq<byte> {
    Stripped(s, Blank)
  }

  /** Row i of the table, if the file holds all of it. */
  function EntryAt(data: seq<byte>, headerSize: nat, i: nat): Option<Entry> {
    var at := headerSize + ENTRY_SIZE * i;
    if at + ENTRY_SIZE <= |data| then Some(UnpackEntry(data[at..at + ENTRY_SIZE])) else None
  }

  function EntryList(data: seq<byte>, headerSize: nat, n: nat): (r: seq<Option<Entry>>)
    ensures |r| == n
  {
    seq(n, i requires 0 <= i < n => EntryAt(data, headerSize, i))
  }

  datatype Inspection = Inspection(header: BlobHeader, accessory: Option<nat>, entries: seq<Option<Entry>>)

  /** What the inspector holds after it has read a blob; None if it raises. */
  function Inspected(data: seq<byte>, maxEntries: nat): Option<Inspection> {
    if |data| < HEADER_SIZE then None else
      var h := UnpackHeader(data[..HEADER_SIZE]);
      if h.headerSize > HEADER_SIZE && |data| < HEADER_SIZE + 8 then None else
        Some(Inspection(
          h,
          if h.headerSize > HEADER_SIZE then Some(ReadLE(data[HEADER_SIZE..HEADER_SIZE + 8])) else None,
          EntryList(data, h.headerSize, if h.entryCount > maxEntries then maxEntries else h.entryCount)))
  }

  class InspectUpdatePayload {
    const blobFile: File
    var header: BlobHeader
    var accessory: Option<nat>
    var entries: seq<Option<Entry>>
    var ok: bool

    function Result(): Option<Inspection>
      reads this
    {
      if ok then Some(Inspection(header, accessory, entries)) else None
    }

    constructor (blob: File, maxEntries: nat)
      requires blob.pos == 0
      modifies blob
      ensures blobFile == blob && blob.data == old(blob.data)
      ensures Result() == Inspected(blob.data, maxEntries)
    {
      blobFile := blob;
      header, accessory, entries, ok := BlobHeader([], 0, 0, 0, 0, 0, 0), None, [], false;
      new;
      hide UnpackHeader, UnpackEntry, ReadLE;
      var s := blob.Read(HEADER_SIZE);
      if |s| == HEADER_SIZE {
        header := UnpackHeader(s);
        ok := true;
        if header.headerSize > HEADER_SIZE {
          s := blob.Read(8);
          ok := |s| == 8;
          accessory := if ok then Some(ReadLE(s)) else None;
        }
        if ok {
          blob.Seek(header.headerSize);
          GenerateEntryList(if header.entryCount > maxEntries then maxEntries else header.entryCount);
        }
      }
    }

    method GenerateEntryList(count: nat)
      requires blobFile.pos == header.headerSize
      modifies `entries, blobFile`pos
      ensures entries == EntryList(blobFile.data, header.headerSize, count)
    {
      hide UnpackEntry;
      entries := [];
      var data := blobFile.data;
      for i := 0 to count
        invariant entries == EntryList(data, header.headerSize, i)
        invariant blobFile.pos == header.headerSize + ENTRY_SIZE * i
               || (blobFile.pos >= |data| && header.headerSize + ENTRY_SIZE * i > |data|)
      {
        var s := blobFile.Read(ENTRY_SIZE);
        entries := entries + [if |s| == ENTRY_SIZE then Some(UnpackEntry(s)) else None];
      }
    }
  }

  // --- the round trip ---------------------------------------------------------------------------------

  lemma ThreeWords(front: seq<byte>, a: seq<byte>, b: seq<byte>, c: seq<byte>)
    requires |a| == |b| == |c| == 4
    ensures var s, n := front + a + b + c, |front|;
            s[..n] == front && s[n..n + 4] == a && s[n + 4..n + 8] == b && s[n + 8..n + 12] == c
  {}

  lemma UnpackPackedHeader(blobSize: nat, headerSize: nat, count: nat, uncompSize: nat)
    requires blobSize < U32_LIMIT && headerSize < U32_LIMIT && count < U32_LIMIT && uncompSize < U32_LIMIT
    ensures UnpackHeader(PackHeader(blobSize, headerSize, count, uncompSize))
         == BlobHeader(BUP_MAGIC, BUP_VERSION, blobSize, headerSize, count, UPDATE_TYPE, uncompSize)
  {
    WordFits(BUP_VERSION);
    WordFits(blobSize);
    WordFits(headerSize);
    WordFits(count);
    WordFits(UPDATE_TYPE);
    WordFits(uncompSize);
    HeaderWords(blobSize, headerSize, count, uncompSize);
    hide PackLE, ReadLE, PackHeader;
  }

  lemma HeaderWords(blobSize: nat, headerSize: nat, count: nat, uncompSize: nat)
    ensures var s := PackHeader(blobSize, headerSize, count, uncompSize);
            && s[..16] == BUP_MAGIC && s[16..20] == PackLE(BUP_VERSION, 4) && s[20..24] == PackLE(blobSize, 4)
            && s[24..28] == PackLE(headerSize, 4) && s[28..32] == PackLE(count, 4)
            && s[32..36] == PackLE(UPDATE_TYPE, 4) && s[36..40] == PackLE(uncompSize, 4)
  {
    hide PackLE;
    var s, magic := PackHeader(blobSize, headerSize, count, uncompSize), BUP_MAGIC;
    var v, b, h, c, t, u := PackLE(BUP_VERSION, 4), PackLE(blobSize, 4), PackLE(headerSize, 4), PackLE(count, 4),
      PackLE(UPDATE_TYPE, 4), PackLE(uncompSize, 4);
    hide BUP_MAGIC, PackHeader;
    var x := magic + v + b + h;
    ThreeWords(magic, v, b, h);
    ThreeWords(x, c, t, u);
    assert s[..28] == x by { HeaderIs(blobSize, headerSize, count, uncompSize); }
    assert s[28..32] == c && s[32..36] == t && s[36..40] == u by { HeaderIs(blobSize, headerSize, count, uncompSize); }
    Within(s, x, 0, 16);
    Within(s, x, 16, 20);
    Within(s, x, 20, 24);
    Within(s, x, 24, 28);
  }

  lemma Within(s: seq<byte>, x: seq<byte>, lo: nat, hi: nat)
    requires lo <= hi <= |x| <= |s| && s[..|x|] == x
    ensures s[lo..hi] == x[lo..hi]
  {
    assert forall i :: lo <= i < hi ==> s[i] == s[..|x|][i];
  }

  lemma HeaderIs(blobSize: nat, headerSize: nat, count: nat, uncompSize: nat)
    ensures PackHeader(blobSize, headerSize, count, uncompSize)
         == (BUP_MAGIC + PackLE(BUP_VERSION, 4) + PackLE(blobSize, 4) + PackLE(headerSize, 4)) + PackLE(count, 4)
            + PackLE(UPDATE_TYPE, 4) + PackLE(uncompSize, 4)
  {
    hide PackLE, BUP_MAGIC;
  }

  lemma UnpackPackedEntry(partName: seq<byte>, offset: nat, size: nat, version: nat, opMode: nat, spec: seq<byte>)
    requires offset < U32_LIMIT && size < U32_LIMIT && version < U32_LIMIT && opMode < U32_LIMIT
    ensures UnpackEntry(PackEntry(partName, offset, size, version, opMode, spec))
         == Entry(PackText(partName, NAME_WIDTH), offset, size, version, opMode, PackText(spec, SPEC_WIDTH))
  {
    WordFits(offset);
    WordFits(size);
    WordFits(version);
    WordFits(opMode);
    hide PackLE, ReadLE, PackText;
    var s := PackEntry(partName, offset, size, version, opMode, spec);
    var name, rest := PackText(partName, NAME_WIDTH), PackText(spec, SPEC_WIDTH);
    EntryParts(name, PackLE(offset, 4), PackLE(size, 4), PackLE(version, 4), PackLE(opMode, 4), rest);
  }

  lemma EntryParts(name: seq<byte>, a: seq<byte>, b: seq<byte>, c: seq<byte>, d: seq<byte>, rest: seq<byte>)
    requires |name| == 40 && |a| == |b| == |c| == |d| == 4
    ensures var s := name + a + b + c + d + rest;
            && s[..40] == name && s[40..44] == a && s[44..48] == b && s[48..52] == c && s[52..56] == d && s[56..] == rest
  {
    ThreeWords(name, a, b, c);
    var x := name + a + b + c;
    var s := x + d + rest;
    assert s[..52] == x;
    Within(s, x, 0, 40);
    Within(s, x, 40, 44);
    Within(s, x, 44, 48);
    Within(s, x, 48, 52);
  }

  /** The padding of a text field is stripped off again. */
  lemma StripPacked(s: seq<byte>, width: nat)
    requires |s| <= width
    ensures Strip(PackText(s, width)) == Strip(s)
  {
    var pad := Zeroed(width - |s|);
    assert PackText(s, width) == s + pad;
    StrippedExactly(s, Strip(s), Blank);
    var a, b :| IsPadded(s, a, Strip(s), b, Blank);
    assert IsPadded(s + pad, a, Strip(s), b + pad, Blank);
    StrippedExactly(s + pad, Strip(s), Blank);
  }

  /** Exactly spaces, tabs, line ends and NULs at the ends of a text go. */
  ghost predicate IsText(s: seq<byte>, a: seq<byte>, t: seq<byte>, b: seq<byte>) {
    && s == a + t + b && (forall x :: x in a || x in b ==> x in {0x20, 0x09, 0x0A, 0x00})
    && (t != [] ==> t[0] !in {0x20, 0x09, 0x0A, 0x00} && t[|t| - 1] !in {0x20, 0x09, 0x0A, 0x00})
  }

  lemma StripExactly(s: seq<byte>, t: seq<byte>)
    ensures Strip(s) == t <==> exists a, b :: IsText(s, a, t, b)
  {
    hide Stripped;
    StrippedExactly(s, t, Blank);
    if a, b :| IsPadded(s, a, t, b, Blank) { assert IsText(s, a, t, b); }
    if a, b :| IsText(s, a, t, b) {
      assert forall i :: 0 <= i < |a| ==> a[i] in a;
      assert forall i :: 0 <= i < |b| ==> b[i] in b;
      assert IsPadded(s, a, t, b, Blank);
    }
  }

  /** Row i of the entry table. */
  lemma {:induction false} TableRow(infos: seq<EntryInfo>, start: nat, i: nat)
    requires i < |infos| && forall k :: 0 <= k < |infos| ==> HasWords(infos[k])
    ensures var info := infos[i];
            && ENTRY_SIZE * i + ENTRY_SIZE <= ENTRY_SIZE * |infos|
            && EntryTable(infos, start)[ENTRY_SIZE * i..ENTRY_SIZE * i + ENTRY_SIZE]
               == PackEntry(info.partName, start + |Images(infos[..i])|, |info.image|, info.version, info.opMode,
                            info.spec)
    decreases i
  {
    hide PackEntry;
    var table := EntryTable(infos, start);
    if i > 0 {
      TableRow(infos[1..], start + |infos[0].image|, i - 1);
      assert infos[1..][..i - 1] == infos[..i][1..];
      var rest := EntryTable(infos[1..], start + |infos[0].image|);
      assert table[ENTRY_SIZE..] == rest;
      assert table[ENTRY_SIZE * i..ENTRY_SIZE * i + ENTRY_SIZE]
          == rest[ENTRY_SIZE * (i - 1)..ENTRY_SIZE * (i - 1) + ENTRY_SIZE];
    } else {
      assert infos[..0] == [];
    }
  }

  /** Where the image of entry i lies in the blob. */
  function ImageOffset(accessory: seq<byte>, infos: seq<EntryInfo>, i: nat): nat
    requires i < |infos|
  {
    ImagesStart(accessory, infos) + |Images(infos[..i])|
  }

  lemma ImageInBlob(accessory: seq<byte>, infos: seq<EntryInfo>, i: nat)
    requires Fits(accessory, infos) && i < |infos|
    ensures var at, n := ImageOffset(accessory, infos, i), |infos[i].image|;
            at + n <= |Blob(accessory, infos)| && Blob(accessory, infos)[at..at + n] == infos[i].image
  {
    hide PackHeader, EntryTable, Images;
    ImagesSplit(infos, i);
    var size := BlobSize(accessory, infos);
    var front := PackHeader(size, HEADER_SIZE + |accessory|, |infos|, size) + accessory
                 + EntryTable(infos, ImagesStart(accessory, infos));
    var before, after := Images(infos[..i]), Images(infos[i + 1..]);
    assert Blob(accessory, infos) == (front + before) + infos[i].image + after;
  }

  lemma RowInBlob(accessory: seq<byte>, infos: seq<EntryInfo>, i: nat)
    requires Fits(accessory, infos) && i < |infos|
    ensures var blob, info := Blob(accessory, infos), infos[i];
            EntryAt(blob, HEADER_SIZE + |accessory|, i)
            == Some(Entry(PackText(info.partName, NAME_WIDTH), ImageOffset(accessory, infos, i), |info.image|,
                          info.version, info.opMode, PackText(info.spec, SPEC_WIDTH)))
  {
    hide PackHeader, EntryTable, Images, PackEntry, UnpackEntry;
    var start, size, info := ImagesStart(accessory, infos), BlobSize(accessory, infos), infos[i];
    ImagesSplit(infos, i);
    TableRow(infos, start, i);
    var front := PackHeader(size, HEADER_SIZE + |accessory|, |infos|, size) + accessory;
    var table := EntryTable(infos, start);
    var at := HEADER_SIZE + |accessory| + ENTRY_SIZE * i;
    SliceOfMiddle(front, table, Images(infos), ENTRY_SIZE * i, ENTRY_SIZE);
    UnpackPackedEntry(info.partName, ImageOffset(accessory, infos, i), |info.image|, info.version, info.opMode,
                      info.spec);
  }

  /** What the inspector shows of entry i is what was packed, and its offset and size select its image. */
  predicate ReadsBack(blob: seq<byte>, row: Option<Entry>, info: EntryInfo) {
    && row.Some?
    && Strip(row.value.partName) == Strip(info.partName)
    && Strip(row.value.tnspec) == Strip(info.spec)
    && row.value.version == info.version
    && row.value.opMode == info.opMode
    && ReadAt(blob, row.value.offset, row.value.partSize) == info.image
  }

  /** The inspector reads back what the writer packed: the header, the accessory and every entry. It fails on a
      written blob only when a short accessory has fewer than eight bytes behind it. */
  lemma InspectUndoesGenerate(accessory: seq<byte>, infos: seq<EntryInfo>, maxEntries: nat)
    requires Fits(accessory, infos) && forall i :: 0 <= i < |infos| ==> WellFormed(infos[i])
    ensures var blob := Blob(accessory, infos);
            var r, n := Inspected(blob, maxEntries), if |infos| > maxEntries then maxEntries else |infos|;
            && (r.None? <==> accessory != [] && |blob| < HEADER_SIZE + 8)
            && (r.Some? ==>
                  && r.value.header == BlobHeader(BUP_MAGIC, BUP_VERSION, |blob|, HEADER_SIZE + |accessory|, |infos|,
                                                  UPDATE_TYPE, |blob|)
                  && (r.value.accessory.Some? <==> accessory != [])
                  && (|accessory| >= 8 ==> r.value.accessory == Some(ReadLE(accessory[..8])))
                  && |r.value.entries| == n
                  && forall i :: 0 <= i < n ==> ReadsBack(blob, r.value.entries[i], infos[i]))
  {
    var blob := Blob(accessory, infos);
    HeaderInBlob(accessory, infos);
    hide Blob, ReadLE, UnpackHeader, EntryAt, BlobSize;
    forall i | 0 <= i < |infos| ensures ReadsBack(blob, EntryAt(blob, HEADER_SIZE + |accessory|, i), infos[i]) {
      RowIsReadBack(accessory, infos, i);
    }
    hide ReadsBack;
  }

  lemma RowIsReadBack(accessory: seq<byte>, infos: seq<EntryInfo>, i: nat)
    requires Fits(accessory, infos) && i < |infos| && WellFormed(infos[i])
    ensures var blob := Blob(accessory, infos);
            ReadsBack(blob, EntryAt(blob, HEADER_SIZE + |accessory|, i), infos[i])
  {
    hide Blob, PackText, Strip, EntryAt, Fits, ImageOffset;
    RowInBlob(accessory, infos, i);
    ImageInBlob(accessory, infos, i);
    StripPacked(infos[i].partName, NAME_WIDTH);
    StripPacked(infos[i].spec, SPEC_WIDTH);
  }

  lemma HeaderInBlob(accessory: seq<byte>, infos: seq<EntryInfo>)
    requires Fits(accessory, infos)
    ensures var blob := Blob(accessory, infos);
            && |blob| >= HEADER_SIZE + |accessory|
            && UnpackHeader(blob[..HEADER_SIZE])
               == BlobHeader(BUP_MAGIC, BUP_VERSION, |blob|, HEADER_SIZE + |accessory|, |infos|, UPDATE_TYPE, |blob|)
            && (|accessory| >= 8 ==> blob[HEADER_SIZE..HEADER_SIZE + 8] == accessory[..8])
  {
    hide PackHeader, UnpackHeader, EntryTable, Images;
    var size := BlobSize(accessory, infos);
    UnpackPackedHeader(size, HEADER_SIZE + |accessory|, |infos|, size);
    var header := PackHeader(size, HEADER_SIZE + |accessory|, |infos|, size);
    var rest := EntryTable(infos, ImagesStart(accessory, infos)) + Images(infos);
    assert Blob(accessory, infos) == header + accessory + rest;
    assert Blob(accessory, infos)[..HEADER_SIZE] == header;
    if |accessory| >= 8 { SliceOfMiddle(header, accessory, rest, 0, 8); }
  }
}
