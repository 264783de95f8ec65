/** The writer of BUP_generator.py: the blob is laid out with placeholders and then patched in place. */
module BupWriter {
  import opened Bytes
  import opened Sequences
  import opened BlobFile
  import opened BupFormat

  function Placeholders(n: nat): (r: seq<byte>)
    ensures |r| == ENTRY_SIZE * n
  {
    if n == 0 then [] else Placeholders(n - 1) + PackEntry([], 0, 0, 0, 0, [])
  }

  /** Offset and length of every image, when the first one starts at `offset`. */
  function Placements(infos: seq<EntryInfo>, offset: nat): (r: seq<(nat, nat)>)
    ensures |r| == |infos|
  {
    if infos == [] then [] else [(offset, |infos[0].image|)] + Placements(infos[1..], offset + |infos[0].image|)
  }

  class UpdatePayload {
    const accessory: seq<byte>
    const entryInfoList: seq<EntryInfo>
    var headerSize: nat
    var entryUpdateList: seq<(nat, nat)>
    var blobSize: nat

    constructor (accessory: seq<byte>, infos: seq<EntryInfo>)
      ensures this.accessory == accessory && entryInfoList == infos
    {
      this.accessory, entryInfoList := accessory, infos;
      headerSize, entryUpdateList, blobSize := 0, [], 0;
    }

    method FillHeader(blob: File) returns (ok: bool)
      requires blob.data == [] && blob.pos == 0
      modifies `headerSize, blob
      ensures headerSize == HEADER_SIZE + |accessory|
      ensures ok <==> headerSize < U32_LIMIT && |entryInfoList| < U32_LIMIT
      ensures ok ==> blob.data == PackHeader(0, headerSize, |entryInfoList|, 0) + accessory && blob.pos == |blob.data|
    {
      hide PackHeader, Overwritten;
      headerSize := HEADER_SIZE + |accessory|;
      if headerSize >= U32_LIMIT || |entryInfoList| >= U32_LIMIT { return false; }
      blob.Write(PackHeader(0, headerSize, |entryInfoList|, 0));
      blob.Write(accessory);
      ok := true;
    }

    method FillEntry(blob: File)
      requires blob.pos == |blob.data|
      modifies blob
      ensures blob.data == old(blob.data) + Placeholders(|entryInfoList|) && blob.pos == |blob.data|
    {
      hide PackEntry, Overwritten;
      var emptyEntry := PackEntry([], 0, 0, 0, 0, []);
      for i := 0 to |entryInfoList|
        invariant blob.data == old(blob.data) + Placeholders(i) && blob.pos == |blob.data|
      {
        blob.Write(emptyEntry);
      }
    }

    method FillImage(blob: File)
      requires blob.pos == |blob.data|
      modifies `entryUpdateList, `blobSize, blob
      ensures blob.data == old(blob.data) + Images(entryInfoList)
      ensures entryUpdateList == Placements(entryInfoList, old(blob.pos)) && blobSize == |blob.data|
    {
      hide Overwritten;
      entryUpdateList := [];
      for i := 0 to |entryInfoList|
        invariant blob.pos == |blob.data|
        invariant blob.data + Images(entryInfoList[i..]) == old(blob.data) + Images(entryInfoList)
        invariant entryUpdateList + Placements(entryInfoList[i..], blob.pos) == Placements(entryInfoList, old(blob.pos))
      {
        var info := entryInfoList[i];
        var length, offset := |info.image|, blob.pos;
        assert entryInfoList[i..][1..] == entryInfoList[i + 1..];
        blob.Write(info.image);
        entryUpdateList := entryUpdateList + [(offset, length)];
      }
      blobSize := blob.pos;
    }

    method UpdateBlobSize(blob: File) returns (ok: bool)
      modifies blob
      ensures ok <==> blobSize < U32_LIMIT
      ensures ok ==> var word := PackLE(blobSize, 4);
                     blob.data == Overwritten(Overwritten(old(blob.data), BLOB_SIZE_POS, word), UNCOMP_SIZE_POS, word)
    {
      blob.Seek(BLOB_SIZE_POS);
      if blobSize >= U32_LIMIT { return false; }
      var word := PackLE(blobSize, 4);
      blob.Write(word);
      blob.Seek(UNCOMP_SIZE_POS);
      blob.Write(word);
      ok := true;
    }

    method UpdateEntry(blob: File, ghost start: nat) returns (ok: bool)
      requires entryUpdateList == Placements(entryInfoList, start)
      requires start + |Images(entryInfoList)| < U32_LIMIT && headerSize <= |blob.data|
      modifies blob
      ensures ok <==> forall i :: 0 <= i < |entryInfoList| ==> HasWords(entryInfoList[i])
      ensures ok ==> blob.data == Overwritten(old(blob.data), headerSize, EntryTable(entryInfoList, start))
    {
      hide PackEntry, Overwritten, EntryTable, Placements;
      blob.Seek(headerSize);
      ghost var infos := entryInfoList;
      for i := 0 to |entryInfoList|
        invariant forall k :: 0 <= k < i ==> HasWords(infos[k])
        invariant blob.data == Overwritten(old(blob.data), headerSize, EntryTable(infos[..i], start))
        invariant blob.pos == headerSize + ENTRY_SIZE * i
      {
        var info, update := entryInfoList[i], entryUpdateList[i];
        PlacementAt(infos, start, i);
        ImagesSplit(infos, i);
        if !IsWord(info.version) || !IsWord(info.opMode) || !IsWord(update.0) || !IsWord(update.1) {
          assert !HasWords(info);
          return false;
        }
        blob.Write(PackEntry(info.partName, update.0, update.1, info.version, info.opMode, info.spec));
        EntryTableSnoc(infos, i, start);
        OverwriteMore(old(blob.data), headerSize, EntryTable(infos[..i], start),
                      PackEntry(info.partName, update.0, update.1, info.version, info.opMode, info.spec));
      }
      ok := true;
      assert infos[..|infos|] == infos;
    }
  }

  // --- entry tables and images, one entry at a time ---------------------------------------------------

  lemma {:induction false} PlacementAt(infos: seq<EntryInfo>, offset: nat, i: nat)
    requires i < |infos|
    ensures Placements(infos, offset)[i] == (offset + |Images(infos[..i])|, |infos[i].image|)
    decreases |infos|
  {
    if i > 0 {
      PlacementAt(infos[1..], offset + |infos[0].image|, i - 1);
      assert infos[1..][..i - 1] == infos[..i][1..];
    } else {
      assert infos[..0] == [];
    }
  }

  lemma {:induction false} ImagesSplit(infos: seq<EntryInfo>, i: nat)
    requires i < |infos|
    ensures Images(infos) == Images(infos[..i]) + infos[i].image + Images(infos[i + 1..])
    decreases |infos|
  {
    if i > 0 {
      ImagesSplit(infos[1..], i - 1);
      assert infos[1..][..i - 1] == infos[..i][1..] && infos[1..][i..] == infos[i + 1..];
      AssociateThree(infos[0].image, Images(infos[..i][1..]), infos[i].image, Images(infos[i + 1..]));
    } else {
      assert infos[..0] == [];
    }
  }

  lemma {:induction false} EntryTableSnoc(infos: seq<EntryInfo>, i: nat, start: nat)
    requires i < |infos| && forall k :: 0 <= k <= i ==> HasWords(infos[k])
    ensures var info := infos[i];
            EntryTable(infos[..i + 1], start)
            == EntryTable(infos[..i], start)
               + PackEntry(info.partName, start + |Images(infos[..i])|, |info.image|, info.version, info.opMode,
                           info.spec)
    decreases i
  {
    hide PackEntry;
    if i > 0 {
      EntryTableSnoc(infos[1..], i - 1, start + |infos[0].image|);
      assert infos[1..][..i] == infos[..i + 1][1..] && infos[1..][..i - 1] == infos[..i][1..];
    } else {
      assert infos[..1][1..] == [] && infos[..0] == [];
    }
  }

  lemma OverwriteMore(data: seq<byte>, pos: nat, s: seq<byte>, t: seq<byte>)
    requires pos <= |data|
    ensures Overwritten(Overwritten(data, pos, s), pos + |s|, t) == Overwritten(data, pos, s + t)
  {}

  // --- the whole run ----------------------------------------------------------------------------------

  lemma PatchHeader(size: nat, headerSize: nat, count: nat, rest: seq<byte>)
    ensures var word := PackLE(size, 4);
            var once := Overwritten(PackHeader(0, headerSize, count, 0) + rest, BLOB_SIZE_POS, word);
            Overwritten(once, UNCOMP_SIZE_POS, word)
            == PackHeader(size, headerSize, count, size) + rest
  {
    hide PackLE;
  }

  lemma PatchTable(front: seq<byte>, holes: seq<byte>, table: seq<byte>, rest: seq<byte>)
    requires |holes| == |table|
    ensures Overwritten(front + holes + rest, |front|, table) == front + table + rest
  {}

  /** The placeholders are all patched. */
  lemma PatchBlob(size: nat, headerSize: nat, count: nat, accessory: seq<byte>, holes: seq<byte>, table: seq<byte>,
      images: seq<byte>)
    requires headerSize == HEADER_SIZE + |accessory| && |holes| == |table|
    ensures var word, laidOut := PackLE(size, 4), PackHeader(0, headerSize, count, 0) + accessory + holes + images;
            var sized := Overwritten(Overwritten(laidOut, BLOB_SIZE_POS, word), UNCOMP_SIZE_POS, word);
            && |sized| == |laidOut|
            && Overwritten(sized, headerSize, table)
               == PackHeader(size, headerSize, count, size) + accessory + table + images
  {
    hide PackHeader, Overwritten, PackLE;
    AssociateThree(PackHeader(0, headerSize, count, 0), accessory, holes, images);
    PatchHeader(size, headerSize, count, accessory + holes + images);
    AssociateThree(PackHeader(size, headerSize, count, size), accessory, holes, images);
    PatchTable(PackHeader(size, headerSize, count, size) + accessory, holes, table, images);
  }

  /** `generate_BUP` after the entry list has been parsed. */
  method Generate(accessory: seq<byte>, infos: seq<EntryInfo>) returns (ok: bool, blob: File)
    ensures fresh(blob)
    ensures ok <==> Fits(accessory, infos)
    ensures ok ==> blob.data == Blob(accessory, infos)
  {
    hide PackHeader, PackEntry, Overwritten, Images, Placeholders, EntryTable;
    var payload := new UpdatePayload(accessory, infos);
    blob := new File([]);
    ok := payload.FillHeader(blob);
    if !ok { return; }
    payload.FillEntry(blob);
    payload.FillImage(blob);
    ok := payload.UpdateBlobSize(blob);
    if !ok { return; }
    ghost var start, size := ImagesStart(accessory, infos), payload.blobSize;
    if forall i :: 0 <= i < |infos| ==> HasWords(infos[i]) {
      PatchBlob(size, payload.headerSize, |infos|, accessory, Placeholders(|infos|), EntryTable(infos, start),
                Images(infos));
    }
    ok := payload.UpdateEntry(blob, start);
  }
}
