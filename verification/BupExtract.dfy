/** Extracting images from a BUP blob. */
module BupExtract {
  import opened Bytes
  import opened BlobFile
  import opened BupFormat
  import opened BupInspector
  import opened BupCheck

  /** "all" */
  const ALL: Text := [0x61, 0x6C, 0x6C]
  /** "common" */
  const COMMON: Text := [0x63, 0x6F, 0x6D, 0x6D, 0x6F, 0x6E]
  /** "dev" */
  const DEV: Text := [0x64, 0x65, 0x76]
  /** "prod" */
  const PROD: Text := [0x70, 0x72, 0x6F, 0x64]
  /** ".raw.bin" */
  const EXTENSION: Text := [0x2E, 0x72, 0x61, 0x77, 0x2E, 0x62, 0x69, 0x6E]
  const UNDERSCORE: byte := 0x5F

  /** "_".join(filter(None, parts)) */
  function Joined(parts: seq<Text>): Text {
    if parts == [] then []
    else if parts[0] == [] then Joined(parts[1..])
    else
      var rest := Joined(parts[1..]);
      if rest == [] then parts[0] else parts[0] + [UNDERSCORE] + rest
  }

  /** The name of the file an entry is saved to. An op mode above 2 is not a string and cannot be joined. */
  function FileName(e: Entry): Option<Text> {
    if e.opMode > 2 then None else
      var opStr := if e.opMode == 0 then [] else if e.opMode == 1 then DEV else PROD;
      var spec := if SpecOf(e) == COMMON then [] else SpecOf(e);
      Some(Joined([NameOf(e), opStr, spec]) + EXTENSION)
  }

  predicate Selected(e: Entry, wanted: set<Text>) {
    NameOf(e) in wanted || ALL in wanted
  }

  /** The directory after the first n rows have been saved, None once a row could not be. */
  function Saved(data: seq<byte>, table: seq<Option<Entry>>, n: nat, wanted: set<Text>): Option<map<Text, seq<byte>>>
    requires n <= |table|
  {
    if n == 0 then Some(map[]) else
      var out, row := Saved(data, table, n - 1, wanted), table[n - 1];
      if out.None? || row.None? then None
      else if !Selected(row.value, wanted) then out
      else if FileName(row.value).None? then None
      else Some(out.value[FileName(row.value).value := ReadAt(data, row.value.offset, row.value.partSize)])
  }

  predicate Occurs(table: seq<Option<Entry>>, n: nat, name: Text)
    requires n <= |table|
  {
    exists i :: 0 <= i < n && table[i].Some? && NameOf(table[i].value) == name
  }

  /** `extract_binaries`: the files saved, and the names that no row has. */
  method ExtractBinaries(blob: File, table: seq<Option<Entry>>, wanted: set<Text>)
    returns (out: Option<map<Text, seq<byte>>>, missing: set<Text>)
    modifies blob`pos
    ensures out == Saved(blob.data, table, |table|, wanted)
    ensures out.Some? ==> forall t :: t in missing <==> t in wanted && t != ALL && !Occurs(table, |table|, t)
  {
    hide NameOf, FileName, ReadAt;
    var files: map<Text, seq<byte>> := map[];
    missing := wanted;
    for i := 0 to |table|
      invariant Saved(blob.data, table, i, wanted) == Some(files)
      invariant forall t :: t in missing <==> t in wanted && !Occurs(table, i, t)
    {
      if table[i].None? {
        SavedStaysNone(blob.data, table, i + 1, |table|, wanted);
        return None, missing;
      }
      var e := table[i].value;
      assert forall t :: Occurs(table, i + 1, t) <==> Occurs(table, i, t) || t == NameOf(e);
      if NameOf(e) in wanted || ALL in wanted {
        var name := FileName(e);
        if name.None? {
          SavedStaysNone(blob.data, table, i + 1, |table|, wanted);
          return None, missing;
        }
        blob.Seek(e.offset);
        var image := blob.Read(e.partSize);
        files := files[name.value := image];
        missing := missing - {NameOf(e)};
      }
    }
    missing := missing - {ALL};
    out := Some(files);
  }

  lemma {:induction false} SavedStaysNone(data: seq<byte>, table: seq<Option<Entry>>, i: nat, n: nat, wanted: set<Text>)
    requires i <= n <= |table| && Saved(data, table, i, wanted).None?
    ensures Saved(data, table, n, wanted).None?
    decreases n
  {
    if i < n { SavedStaysNone(data, table, i, n - 1, wanted); }
  }

  // --- what extraction yields -------------------------------------------------------------------------

  /** The rows of a table that can be extracted. */
  predicate Extractable(table: seq<Option<Entry>>, n: nat, wanted: set<Text>)
    requires n <= |table|
  {
    forall i :: 0 <= i < n ==> table[i].Some? && (Selected(table[i].value, wanted) ==> table[i].value.opMode <= 2)
  }

  predicate SavesAs(row: Option<Entry>, wanted: set<Text>, name: Text) {
    row.Some? && Selected(row.value, wanted) && FileName(row.value) == Some(name)
  }

  /** Extraction goes through exactly if every row was readable and no selected one has an op mode above 2. */
  lemma {:induction false} ExtractsExactly(data: seq<byte>, table: seq<Option<Entry>>, n: nat, wanted: set<Text>)
    requires n <= |table|
    ensures Saved(data, table, n, wanted).Some? <==> Extractable(table, n, wanted)
    decreases n
  {
    hide NameOf, ReadAt;
    if n > 0 { ExtractsExactly(data, table, n - 1, wanted); }
  }

  /** Row i is the last of the first n that is saved under the name. */
  predicate IsLast(table: seq<Option<Entry>>, n: nat, wanted: set<Text>, name: Text, i: nat)
    requires n <= |table|
  {
    i < n && SavesAs(table[i], wanted, name) && forall j :: i < j < n ==> !SavesAs(table[j], wanted, name)
  }

  lemma SavedStep(data: seq<byte>, table: seq<Option<Entry>>, n: nat, wanted: set<Text>, name: Text)
    requires 0 < n <= |table| && Saved(data, table, n, wanted).Some?
    ensures Saved(data, table, n - 1, wanted).Some?
    ensures var out, before := Saved(data, table, n, wanted).value, Saved(data, table, n - 1, wanted).value;
            if SavesAs(table[n - 1], wanted, name)
            then name in out && out[name] == ReadAt(data, table[n - 1].value.offset, table[n - 1].value.partSize)
            else (name in out <==> name in before) && (name in out ==> out[name] == before[name])
  {
    hide NameOf, ReadAt, FileName;
  }

  /** Every file holds the image of the last selected row with its name, and there are no other files. */
  lemma {:induction false} LastRowWins(data: seq<byte>, table: seq<Option<Entry>>, n: nat, wanted: set<Text>,
      name: Text, i: nat)
    requires n <= |table| && Saved(data, table, n, wanted).Some?
    ensures var out := Saved(data, table, n, wanted).value;
            && (IsLast(table, n, wanted, name, i) ==>
                  name in out && out[name] == ReadAt(data, table[i].value.offset, table[i].value.partSize))
            && (name in out ==> exists k :: 0 <= k < n && SavesAs(table[k], wanted, name))
    decreases n
  {
    hide ReadAt, SavesAs;
    if n > 0 {
      SavedStep(data, table, n, wanted, name);
      hide Saved;
      LastRowWins(data, table, n - 1, wanted, name, i);
    }
  }

  /** Extracting from a written blob gives back the images: entry i's file holds entry i's image, unless a later
      selected entry has the same file name. */
  lemma ExtractUndoesGenerate(accessory: seq<byte>, infos: seq<EntryInfo>, maxEntries: nat,
      wanted: set<Text>, i: nat)
    requires Fits(accessory, infos) && (forall k :: 0 <= k < |infos| ==> WellFormed(infos[k]))
    requires i < |infos| <= maxEntries && Inspected(Blob(accessory, infos), maxEntries).Some?
    requires var table := Inspected(Blob(accessory, infos), maxEntries).value.entries;
             && |table| == |infos| && Extractable(table, |table|, wanted)
             && table[i].Some? && Selected(table[i].value, wanted)
             && forall j :: i < j < |table| && table[j].Some? && Selected(table[j].value, wanted) ==>
                  FileName(table[j].value) != FileName(table[i].value)
    ensures var blob := Blob(accessory, infos);
            var table := Inspected(blob, maxEntries).value.entries;
            var out := Saved(blob, table, |table|, wanted);
            && out.Some? && FileName(table[i].value).Some?
            && FileName(table[i].value).value in out.value
            && out.value[FileName(table[i].value).value] == infos[i].image
  {
    var blob := Blob(accessory, infos);
    InspectUndoesGenerate(accessory, infos, maxEntries);
    hide Blob, Inspected, NameOf, SpecOf, Strip;
    var table := Inspected(blob, maxEntries).value.entries;
    ExtractsExactly(blob, table, |table|, wanted);
    LastRowWins(blob, table, |table|, wanted, FileName(table[i].value).value, i);
    assert SavesAs(table[i], wanted, FileName(table[i].value).value);
    assert ReadsBack(blob, table[i], infos[i]);
  }
}
