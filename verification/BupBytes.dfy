/** A BUP blob byte by byte, and the files an extraction leaves, by their names. */
module BupBytes {
  import opened Bytes
  import opened Sequences
  import opened BlobFile
  import opened BupFormat
  import opened BupInspector
  import opened BupCheck
  import opened BupExtract

  // --- the blob -----------------------------------------------------------------------------------------

  /** "NVIDIA__BLOB__V3", version, sizes, count and type, and the accessory behind them. */
  lemma HeaderBytes(accessory: seq<byte>, infos: seq<EntryInfo>)
    requires Fits(accessory, infos)
    ensures var blob := Blob(accessory, infos);
            && 40 + |accessory| <= |blob| && blob[40..40 + |accessory|] == accessory
            && blob[0..8] == [0x4E, 0x56, 0x49, 0x44, 0x49, 0x41, 0x5F, 0x5F]
            && blob[8..16] == [0x42, 0x4C, 0x4F, 0x42, 0x5F, 0x5F, 0x56, 0x33]
            && ReadLE(blob[16..20]) == 0x0103_0622 && ReadLE(blob[20..24]) == |blob| == ReadLE(blob[36..40])
            && ReadLE(blob[24..28]) == 40 + |accessory| && ReadLE(blob[28..32]) == |infos| && ReadLE(blob[32..36]) == 0
  {
    HeaderInBlob(accessory, infos);
    AccessoryInBlob(accessory, infos);
    hide Blob, ReadLE, BlobSize;
    var blob := Blob(accessory, infos);
    SlicesOfFront(blob, blob[..40]);
    MagicIs(blob);
  }

  lemma MagicIs(blob: seq<byte>)
    requires |blob| >= 16 && blob[..16] == BUP_MAGIC
    ensures blob[0..8] == [0x4E, 0x56, 0x49, 0x44, 0x49, 0x41, 0x5F, 0x5F]
    ensures blob[8..16] == [0x42, 0x4C, 0x4F, 0x42, 0x5F, 0x5F, 0x56, 0x33]
  {
    var s := blob[..16];
    assert blob[0..8] == s[..8] && blob[8..16] == s[8..];
  }

  lemma SlicesOfFront(blob: seq<byte>, s: seq<byte>)
    requires |blob| >= 40 && s == blob[..40]
    ensures s[..16] == blob[..16] && s[16..20] == blob[16..20] && s[20..24] == blob[20..24]
    ensures s[24..28] == blob[24..28] && s[28..32] == blob[28..32] && s[32..36] == blob[32..36]
    ensures s[36..40] == blob[36..40]
  {}

  lemma AccessoryInBlob(accessory: seq<byte>, infos: seq<EntryInfo>)
    requires Fits(accessory, infos)
    ensures var blob := Blob(accessory, infos);
            40 + |accessory| <= |blob| && blob[40..40 + |accessory|] == accessory
  {
    hide PackHeader, EntryTable, Images;
    var size := BlobSize(accessory, infos);
    var header := PackHeader(size, HEADER_SIZE + |accessory|, |infos|, size);
    var rest := EntryTable(infos, ImagesStart(accessory, infos)) + Images(infos);
    assert Blob(accessory, infos) == header + accessory + rest;
    SliceOfMiddle(header, accessory, rest, 0, |accessory|);
  }

  /** The text, cut or filled up with zeros. */
  predicate IsField(field: seq<byte>, text: seq<byte>, width: nat) {
    |field| == width && forall k :: 0 <= k < width ==> field[k] == if k < |text| then text[k] else 0
  }

  /** Name, place and size of the image, version, op mode and tnspec. */
  predicate IsRow(blob: seq<byte>, row: seq<byte>, info: EntryInfo)
    requires |row| == 184
  {
    var place, size := ReadLE(row[40..44]), ReadLE(row[44..48]);
    && IsField(row[..40], info.partName, 40) && IsField(row[56..], info.spec, 128)
    && place + size <= |blob| && blob[place..place + size] == info.image
    && ReadLE(row[48..52]) == info.version && ReadLE(row[52..56]) == info.opMode
  }

  /** Row i of the table. */
  lemma RowBytes(accessory: seq<byte>, infos: seq<EntryInfo>, i: nat)
    requires Fits(accessory, infos) && i < |infos|
    ensures var blob, at := Blob(accessory, infos), 40 + |accessory| + 184 * i;
            at + 184 <= |blob| && IsRow(blob, blob[at..at + 184], infos[i])
  {
    hide Blob, ReadLE, PackText, ImageOffset, Fits;
    RowInBlob(accessory, infos, i);
    ImageInBlob(accessory, infos, i);
    FieldIs(infos[i].partName, 40);
    FieldIs(infos[i].spec, 128);
  }

  lemma FieldIs(text: seq<byte>, width: nat)
    ensures IsField(PackText(text, width), text, width)
  {}

  /** The sizes and words that a blob allows. */
  lemma FitsExactly(accessory: seq<byte>, infos: seq<EntryInfo>)
    ensures Fits(accessory, infos)
            <==> && 40 + |accessory| + 184 * |infos| + |Images(infos)| < 0x1_0000_0000
                 && forall i :: 0 <= i < |infos| ==>
                      0 <= infos[i].version < 0x1_0000_0000 && 0 <= infos[i].opMode < 0x1_0000_0000
  {}

  /** What the inspector reads from any file: where the table starts, how many rows it reads, and which of them
      are whole. With an accessory, the eight bytes behind the header must be there. */
  lemma InspectedBytes(data: seq<byte>, maxEntries: nat)
    ensures Inspected(data, maxEntries).None? <==> |data| < 40 || (|data| < 48 && ReadLE(data[24..28]) > 40)
    ensures Inspected(data, maxEntries).Some? ==>
              var r, start, count := Inspected(data, maxEntries).value, ReadLE(data[24..28]), ReadLE(data[28..32]);
              && |r.entries| == (if count > maxEntries then maxEntries else count)
              && (r.accessory == if start > 40 then Some(ReadLE(data[40..48])) else None)
              && forall i :: 0 <= i < |r.entries| ==>
                   var at := start + 184 * i;
                   r.entries[i] == if at + 184 > |data| then None else Some(RowAt(data[at..at + 184]))
  {
    hide ReadLE;
    if |data| >= 40 {
      SlicesOfFront(data, data[..40]);
      if Inspected(data, maxEntries).Some? {
        var r, start := Inspected(data, maxEntries).value, ReadLE(data[24..28]);
        forall i: nat | i < |r.entries|
          ensures r.entries[i] == if start + 184 * i + 184 > |data| then None
                                  else Some(RowAt(data[start + 184 * i..start + 184 * i + 184]))
        {
          if start + 184 * i + 184 <= |data| { UnpackIs(data[start + 184 * i..start + 184 * i + 184]); }
        }
      }
    }
  }

  lemma UnpackIs(row: seq<byte>)
    requires |row| == 184
    ensures UnpackEntry(row) == RowAt(row)
  {
    assert row[..40] == row[0..40] && row[56..] == row[56..184];
  }

  function RowAt(row: seq<byte>): Entry
    requires |row| == 184
  {
    Entry(row[0..40], ReadLE(row[40..44]), ReadLE(row[44..48]), ReadLE(row[48..52]), ReadLE(row[52..56]), row[56..184])
  }

  // --- file names -----------------------------------------------------------------------------------------

  /** The parts of a name with "_" between them, and ".raw.bin" behind. */
  predicate IsFileName(file: Text, e: Entry) {
    var mode: Text :=
      if e.opMode == 1 then [0x64, 0x65, 0x76] else if e.opMode == 2 then [0x70, 0x72, 0x6F, 0x64] else [];
    var spec: Text := if SpecOf(e) == [0x63, 0x6F, 0x6D, 0x6D, 0x6F, 0x6E] then [] else SpecOf(e);
    var name := NameOf(e);
    var first := if name == [] || mode == [] then name + mode else name + [0x5F] + mode;
    var all := if first == [] || spec == [] then first + spec else first + [0x5F] + spec;
    file == all + [0x2E, 0x72, 0x61, 0x77, 0x2E, 0x62, 0x69, 0x6E]
  }

  lemma FileNameIs(e: Entry, file: Text)
    ensures FileName(e) == Some(file) <==> e.opMode <= 2 && IsFileName(file, e)
  {
    hide NameOf, SpecOf;
    var mode: Text := if e.opMode == 1 then DEV else if e.opMode == 2 then PROD else [];
    var spec := if SpecOf(e) == COMMON then [] else SpecOf(e);
    JoinedThree(NameOf(e), mode, spec);
  }

  lemma JoinedThree(a: Text, b: Text, c: Text)
    ensures var first := if a == [] || b == [] then a + b else a + [0x5F] + b;
            Joined([a, b, c]) == if first == [] || c == [] then first + c else first + [0x5F] + c
  {
    assert [a, b, c][1..] == [b, c] && [b, c][1..] == [c] && [c][1..] == [];
    assert Joined([]) == [] && Joined([c]) == c;
    hide Joined;
    assert a + [] == a && b + [] == b && [] + b == b && [] + c == c;
  }

  /** The row is asked for, by its name or by "all". */
  predicate IsWanted(e: Entry, wanted: set<Text>) {
    NameOf(e) in wanted || [0x61, 0x6C, 0x6C] in wanted
  }

  /** A file is there exactly if some wanted row has its name; it holds the image of the last such row. */
  lemma FilesExactly(data: seq<byte>, table: seq<Option<Entry>>, wanted: set<Text>, file: Text)
    requires Saved(data, table, |table|, wanted).Some?
    ensures forall i :: 0 <= i < |table| ==> table[i].Some?
    ensures var out := Saved(data, table, |table|, wanted).value;
            && (file in out <==>
                  exists i :: 0 <= i < |table| && IsWanted(table[i].value, wanted) && IsFileName(file, table[i].value))
            && forall i :: 0 <= i < |table| && IsWanted(table[i].value, wanted) && IsFileName(file, table[i].value)
                 && (forall j :: i < j < |table|
                       ==> !(IsWanted(table[j].value, wanted) && IsFileName(file, table[j].value)))
                 ==> file in out && out[file] == ReadAt(data, table[i].value.offset, table[i].value.partSize)
  {
    hide NameOf, SpecOf, ReadAt, Saved;
    ExtractsExactly(data, table, |table|, wanted);
    forall i | 0 <= i < |table|
      ensures SavesAs(table[i], wanted, file)
              <==> IsWanted(table[i].value, wanted) && IsFileName(file, table[i].value)
    {
      FileNameIs(table[i].value, file);
    }
    hide SavesAs, IsWanted, IsFileName;
    forall i: nat | i < |table| && IsLast(table, |table|, wanted, file, i)
      ensures var out := Saved(data, table, |table|, wanted).value;
              file in out && out[file] == ReadAt(data, table[i].value.offset, table[i].value.partSize)
    {
      LastRowWins(data, table, |table|, wanted, file, i);
    }
    LastRowWins(data, table, |table|, wanted, file, |table|);
    if i :| 0 <= i < |table| && SavesAs(table[i], wanted, file) {
      var k := LastOf(table, wanted, file, i);
    }
  }

  lemma {:induction false} LastOf(table: seq<Option<Entry>>, wanted: set<Text>, file: Text, i: nat) returns (k: nat)
    requires i < |table| && SavesAs(table[i], wanted, file)
    ensures IsLast(table, |table|, wanted, file, k)
    decreases |table| - i
  {
    hide SavesAs;
    k := i;
    if j :| i < j < |table| && SavesAs(table[j], wanted, file) { k := LastOf(table, wanted, file, j); }
  }

  // --- the check of a generated blob --------------------------------------------------------------------

  /** The table of a generated blob, read back: what `check_entry_table` asks of it is answered by the entries that
      went into it, with their names and tnspecs stripped. */
  lemma GeneratedTable(accessory: seq<byte>, infos: seq<EntryInfo>, maxEntries: nat, p: Text, s: Text)
    requires Fits(accessory, infos) && (forall k :: 0 <= k < |infos| ==> WellFormed(infos[k]))
    requires |infos| <= maxEntries && Inspected(Blob(accessory, infos), maxEntries).Some?
    ensures var table := Inspected(Blob(accessory, infos), maxEntries).value.entries;
            && |table| == |infos| && (forall i :: 0 <= i < |table| ==> table[i].Some?)
            && var rows := Rows(table);
            && (HasEntry(rows, p, s) <==>
                  exists i :: 0 <= i < |infos| && Strip(infos[i].partName) == p && Strip(infos[i].spec) == s)
            && (IsSpecific(rows, p) <==>
                  exists i :: 0 <= i < |infos| && Strip(infos[i].partName) == p && Strip(infos[i].spec) != [])
            && (IsUsed(rows, s) <==> s != [] && exists i :: 0 <= i < |infos| && Strip(infos[i].spec) == s)
  {
    InspectUndoesGenerate(accessory, infos, maxEntries);
    hide Blob, Inspected, Fits, Strip;
    var blob := Blob(accessory, infos);
    var table := Inspected(blob, maxEntries).value.entries;
    assert forall i :: 0 <= i < |table| ==> ReadsBack(blob, table[i], infos[i]);
    hide ReadAt;
    NamesAreRead(blob, table, infos, p, s);
  }

  lemma NamesAreRead(blob: seq<byte>, table: seq<Option<Entry>>, infos: seq<EntryInfo>, p: Text, s: Text)
    requires |table| == |infos| && forall i :: 0 <= i < |table| ==> ReadsBack(blob, table[i], infos[i])
    ensures forall i :: 0 <= i < |table| ==> table[i].Some?
    ensures var rows := Rows(table);
            && (HasEntry(rows, p, s) <==>
                  exists i :: 0 <= i < |infos| && Strip(infos[i].partName) == p && Strip(infos[i].spec) == s)
            && (IsSpecific(rows, p) <==>
                  exists i :: 0 <= i < |infos| && Strip(infos[i].partName) == p && Strip(infos[i].spec) != [])
            && (IsUsed(rows, s) <==> s != [] && exists i :: 0 <= i < |infos| && Strip(infos[i].spec) == s)
  {
    hide Strip, ReadAt;
    var rows := Rows(table);
    assert forall i :: 0 <= i < |infos| ==>
      NameOf(rows[i]) == Strip(infos[i].partName) && SpecOf(rows[i]) == Strip(infos[i].spec);
  }
}
