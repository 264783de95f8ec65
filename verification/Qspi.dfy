/** The sparse update of a QSPI device in tegraflash_internal.py. */
module Qspi {
  import opened Bytes
  import opened FlashIndex

  const SECONDARY_GPT := "secondary_gpt"

  // --- the device -------------------------------------------------------------------------------------

  datatype Operation = Erase(name: string) | Write(name: string, data: seq<byte>)

  /** A partition after an erase: every byte is 0xFF. */
  function Blank(n: nat): (r: seq<byte>)
    ensures |r| == n
  {
    seq(n, i => 0xFF)
  }

  /** The partitions of one QSPI device, and what has been done to them. */
  datatype Flash = Flash(contents: map<string, seq<byte>>, log: seq<Operation>)

  function Erased(d: Flash, name: string): Flash
    requires name in d.contents
  {
    Flash(d.contents[name := Blank(|d.contents[name]|)], d.log + [Erase(name)])
  }

  function Written(d: Flash, name: string, data: seq<byte>): Flash
    requires name in d.contents && |data| <= |d.contents[name]|
  {
    Flash(d.contents[name := data + d.contents[name][|data|..]], d.log + [Write(name, data)])
  }

  /** The devices by their keys. */
  type Devices = map<string, Flash>

  /** A device that is not there has no partitions. */
  function DeviceAt(b: Devices, key: string): Flash {
    if key in b then b[key] else Flash(map[], [])
  }

  function WithDevice(b: Devices, key: string, d: Flash): Devices {
    if key in b then b[key := d] else b
  }

  /** The board behind tegradevflash: an unknown partition or an image that is too long is an error. */
  class Board {
    var devices: Devices

    constructor (devices: Devices)
      ensures this.devices == devices
    {
      this.devices := devices;
    }

    method ReadPartition(key: string, name: string) returns (data: Option<seq<byte>>)
      ensures var d := DeviceAt(devices, key); data == if name in d.contents then Some(d.contents[name]) else None
    {
      var d := DeviceAt(devices, key);
      data := if name in d.contents then Some(d.contents[name]) else None;
    }

    method ErasePartition(key: string, name: string) returns (ok: bool)
      modifies this
      ensures var d := DeviceAt(old(devices), key);
              && (ok <==> name in d.contents)
              && devices == if ok then old(devices)[key := Erased(d, name)] else old(devices)
    {
      var d := DeviceAt(devices, key);
      if name !in d.contents { return false; }
      devices := devices[key := Erased(d, name)];
      ok := true;
    }

    method WritePartition(key: string, name: string, data: seq<byte>) returns (ok: bool)
      modifies this
      ensures var d := DeviceAt(old(devices), key);
              && (ok <==> name in d.contents && |data| <= |d.contents[name]|)
              && devices == if ok then old(devices)[key := Written(d, name, data)] else old(devices)
    {
      var d := DeviceAt(devices, key);
      if name !in d.contents || |data| > |d.contents[name]| { return false; }
      devices := devices[key := Written(d, name, data)];
      ok := true;
    }
  }

  // --- the sparse update ------------------------------------------------------------------------------

  type Files = map<string, seq<byte>>

  /** The image a line asks for: nothing for an empty column. */
  predicate HasImage(p: Part) {
    p.file.Some? && p.file.value != ""
  }

  /** How the device is left, and whether there was no exception. */
  datatype Outcome = Outcome(flash: Flash, ok: bool)

  /** One line of the update. An image that is too long is refused after the partition has been erased. */
  function SparseStep(d: Flash, p: Part, files: Files): Outcome {
    if p.file.None? then Outcome(d, false)
    else if p.name == SECONDARY_GPT then Outcome(d, true)
    else if p.name !in d.contents then Outcome(d, false)
    else if !HasImage(p) then Outcome(Erased(d, p.name), true)
    else if p.file.value !in files then Outcome(d, false)
    else
      var image := files[p.file.value];
      if image == PySlice(d.contents[p.name], 0, |image|) then Outcome(d, true)
      else if |image| > |d.contents[p.name]| then Outcome(Erased(d, p.name), false)
      else Outcome(Written(Erased(d, p.name), p.name, image), true)
  }

  /** All lines, up to the first that fails. */
  function SparseAll(d: Flash, parts: seq<Part>, files: Files): Outcome {
    if parts == [] then Outcome(d, true) else
      var before, n := SparseAll(d, parts[..|parts| - 1], files), |parts| - 1;
      if !before.ok then before else SparseStep(before.flash, parts[n], files)
  }

  /** The body of the loop. */
  method UpdatePartition(board: Board, key: string, p: Part, files: Files) returns (ok: bool)
    modifies board
    ensures var e := SparseStep(DeviceAt(old(board.devices), key), p, files);
            && ok == e.ok && board.devices == WithDevice(old(board.devices), key, e.flash)
            && DeviceAt(board.devices, key) == e.flash
  {
    hide Written;
    if p.file.None? { return false; }
    if p.name == SECONDARY_GPT { return true; }
    if p.file.value != "" {
      var read := board.ReadPartition(key, p.name);
      if read.None? || p.file.value !in files { return false; }
      var image := files[p.file.value];
      if image == PySlice(read.value, 0, |image|) { return true; }
      ok := board.ErasePartition(key, p.name);
      if !ok { return; }
      ok := board.WritePartition(key, p.name, image);
    } else {
      ok := board.ErasePartition(key, p.name);
    }
  }

  /** sparseUpdateQspi */
  method SparseUpdate(board: Board, key: string, parts: seq<Part>, files: Files) returns (ok: bool)
    modifies board
    ensures var e := SparseAll(DeviceAt(old(board.devices), key), parts, files);
            ok == e.ok && board.devices == WithDevice(old(board.devices), key, e.flash)
  {
    hide SparseStep;
    ghost var start := DeviceAt(board.devices, key);
    for k := 0 to |parts|
      invariant var e := SparseAll(start, parts[..k], files);
                && e.ok && board.devices == WithDevice(old(board.devices), key, e.flash)
                && DeviceAt(board.devices, key) == e.flash
    {
      assert parts[..k + 1][..k] == parts[..k];
      ok := UpdatePartition(board, key, parts[k], files);
      if !ok {
        SparseStops(start, parts, files, k + 1);
        return;
      }
    }
    assert parts[..|parts|] == parts;
    ok := true;
  }

  /** Nothing happens after a line that fails. */
  lemma {:induction false} SparseStops(d: Flash, parts: seq<Part>, files: Files, k: nat)
    requires k <= |parts| && !SparseAll(d, parts[..k], files).ok
    ensures SparseAll(d, parts, files) == SparseAll(d, parts[..k], files)
    decreases |parts| - k
  {
    hide SparseStep;
    if k < |parts| {
      assert parts[..k + 1][..k] == parts[..k];
      SparseStops(d, parts, files, k + 1);
    } else {
      assert parts[..k] == parts;
    }
  }

  // --- the plain update -------------------------------------------------------------------------------

  /** Erasing every listed partition and writing its image, whatever it held before. */
  function FullStep(d: Flash, p: Part, files: Files): Outcome {
    if p.file.None? then Outcome(d, false)
    else if p.name == SECONDARY_GPT then Outcome(d, true)
    else if p.name !in d.contents then Outcome(d, false)
    else if !HasImage(p) then Outcome(Erased(d, p.name), true)
    else if p.file.value !in files then Outcome(d, false)
    else if |files[p.file.value]| > |d.contents[p.name]| then Outcome(Erased(d, p.name), false)
    else Outcome(Written(Erased(d, p.name), p.name, files[p.file.value]), true)
  }

  function FullAll(d: Flash, parts: seq<Part>, files: Files): Outcome {
    if parts == [] then Outcome(d, true) else
      var before, n := FullAll(d, parts[..|parts| - 1], files), |parts| - 1;
      if !before.ok then before else FullStep(before.flash, parts[n], files)
  }

  /** Same partitions of the same sizes. */
  predicate SameShape(a: Flash, b: Flash) {
    && a.contents.Keys == b.contents.Keys
    && forall name :: name in a.contents ==> name in b.contents && |a.contents[name]| == |b.contents[name]|
  }

  lemma StepsKeepShape(d: Flash, e: Flash, p: Part, files: Files)
    requires SameShape(d, e)
    ensures SparseStep(d, p, files).ok <==> FullStep(e, p, files).ok
    ensures SparseStep(d, p, files).ok ==> SameShape(SparseStep(d, p, files).flash, FullStep(e, p, files).flash)
    ensures SparseStep(d, p, files).ok ==> SameShape(SparseStep(d, p, files).flash, d)
  {}

  /** The sparse update goes through exactly when the plain one does. */
  lemma {:induction false} SparseGoesThrough(d: Flash, parts: seq<Part>, files: Files)
    ensures SparseAll(d, parts, files).ok <==> FullAll(d, parts, files).ok
    ensures SparseAll(d, parts, files).ok ==>
              SameShape(SparseAll(d, parts, files).flash, FullAll(d, parts, files).flash)
    ensures SparseAll(d, parts, files).ok ==> SameShape(SparseAll(d, parts, files).flash, d)
    decreases |parts|
  {
    hide SparseStep, FullStep;
    if parts != [] {
      var n := |parts| - 1;
      SparseGoesThrough(d, parts[..n], files);
      if SparseAll(d, parts[..n], files).ok {
        StepsKeepShape(SparseAll(d, parts[..n], files).flash, FullAll(d, parts[..n], files).flash, parts[n], files);
      }
    }
  }

  predicate DistinctNames(parts: seq<Part>) {
    forall i, j :: 0 <= i < j < |parts| ==> parts[i].name != parts[j].name
  }

  /** Some line is about the partition, and not skipped. */
  predicate Updated(parts: seq<Part>, name: string) {
    name != SECONDARY_GPT && exists i :: 0 <= i < |parts| && parts[i].name == name
  }

  /** What a listed line leaves in its partition: the image in front, or nothing but erased bytes. */
  predicate Installed(d: Flash, p: Part, files: Files) {
    p.name == SECONDARY_GPT ||
    (&& p.name in d.contents
     && if HasImage(p)
        then p.file.value in files && files[p.file.value] <= d.contents[p.name]
        else d.contents[p.name] == Blank(|d.contents[p.name]|))
  }

  lemma StepInstalls(d: Flash, p: Part, files: Files)
    requires SparseStep(d, p, files).ok
    ensures Installed(SparseStep(d, p, files).flash, p, files)
    ensures forall name :: name != p.name || p.name == SECONDARY_GPT ==>
              (name in d.contents <==> name in SparseStep(d, p, files).flash.contents)
              && (name in d.contents ==> SparseStep(d, p, files).flash.contents[name] == d.contents[name])
  {}

  /** With distinct names, every listed partition ends up installed, and no other partition changes. */
  lemma {:induction false} SparseInstalls(d: Flash, parts: seq<Part>, files: Files)
    requires DistinctNames(parts) && SparseAll(d, parts, files).ok
    ensures var e := SparseAll(d, parts, files).flash;
            && (forall i :: 0 <= i < |parts| ==> Installed(e, parts[i], files))
            && (forall name :: name in d.contents && !Updated(parts, name) ==>
                  name in e.contents && e.contents[name] == d.contents[name])
    decreases |parts|
  {
    hide SparseStep;
    if parts != [] {
      var n := |parts| - 1;
      SparseInstalls(d, parts[..n], files);
      StepInstalls(SparseAll(d, parts[..n], files).flash, parts[n], files);
      assert forall i :: 0 <= i < n ==> parts[..n][i] == parts[i];
    }
  }

  /** Spelled out: a partition with an image starts with it, one without is all 0xFF, and secondary_gpt stays. */
  lemma SparseLeaves(d: Flash, parts: seq<Part>, files: Files, i: nat)
    requires DistinctNames(parts) && SparseAll(d, parts, files).ok && i < |parts|
    ensures var e, p := SparseAll(d, parts, files).flash.contents, parts[i];
            && p.file.Some?
            && (p.name == "secondary_gpt" && p.name in d.contents ==> p.name in e && e[p.name] == d.contents[p.name])
            && (p.name != "secondary_gpt" ==>
                  && p.name in e
                  && (p.file.value == "" ==> forall k :: 0 <= k < |e[p.name]| ==> e[p.name][k] == 0xFF)
                  && (p.file.value != "" ==>
                        && p.file.value in files && |files[p.file.value]| <= |e[p.name]|
                        && e[p.name][..|files[p.file.value]|] == files[p.file.value]))
  {
    hide SparseStep;
    SparseInstalls(d, parts, files);
    OkHasFile(d, parts, files, i);
  }

  lemma {:induction false} OtherPartsStay(d: Flash, parts: seq<Part>, files: Files, name: string)
    requires SparseAll(d, parts, files).ok && forall i :: 0 <= i < |parts| ==> parts[i].name != name
    ensures var e := SparseAll(d, parts, files).flash.contents;
            (name in e <==> name in d.contents) && (name in e ==> e[name] == d.contents[name])
    decreases |parts|
  {
    hide SparseStep;
    if parts != [] {
      var n := |parts| - 1;
      OtherPartsStay(d, parts[..n], files, name);
      StepInstalls(SparseAll(d, parts[..n], files).flash, parts[n], files);
    }
  }

  /** A partition that starts with its image is left alone; any other becomes the image and nothing but 0xFF
      behind it. */
  lemma {:induction false} SparseExactly(d: Flash, parts: seq<Part>, files: Files, i: nat)
    requires DistinctNames(parts) && SparseAll(d, parts, files).ok && i < |parts|
    requires parts[i].name != "secondary_gpt" && parts[i].file.Some? && parts[i].file.value != ""
    ensures var e, p := SparseAll(d, parts, files).flash.contents, parts[i];
            && p.name in e && p.name in d.contents && p.file.value in files
            && var image, old_ := files[p.file.value], d.contents[p.name];
            if image <= old_ then e[p.name] == old_
            else |image| <= |old_| && e[p.name] == image + seq(|old_| - |image|, k => 0xFF)
    decreases |parts|
  {
    hide SparseStep;
    var n, p := |parts| - 1, parts[i];
    var before := SparseAll(d, parts[..n], files).flash;
    if i < n {
      SparseExactly(d, parts[..n], files, i);
      StepInstalls(before, parts[n], files);
    } else {
      OtherPartsStay(d, parts[..n], files, p.name);
      StepExactly(before, p, files);
    }
  }

  lemma StepExactly(d: Flash, p: Part, files: Files)
    requires SparseStep(d, p, files).ok && p.name != "secondary_gpt" && HasImage(p)
    ensures p.name in d.contents && p.file.value in files && p.name in SparseStep(d, p, files).flash.contents
    ensures var image, old_ := files[p.file.value], d.contents[p.name];
            var e := SparseStep(d, p, files).flash.contents[p.name];
            if image <= old_ then e == old_
            else |image| <= |old_| && e == image + seq(|old_| - |image|, k => 0xFF)
  {
    var image, old_ := files[p.file.value], d.contents[p.name];
    if image <= old_ { assert PySlice(old_, 0, |image|) == image; }
    if image == PySlice(old_, 0, |image|) { assert image <= old_; }
  }

  lemma {:induction false} OkHasFile(d: Flash, parts: seq<Part>, files: Files, i: nat)
    requires SparseAll(d, parts, files).ok && i < |parts|
    ensures parts[i].file.Some?
    decreases |parts|
  {
    if i < |parts| - 1 { OkHasFile(d, parts[..|parts| - 1], files, i); }
  }

  /** What a line needs: the column, and unless it is skipped, the partition, the image and room for it. */
  predicate CanBeDone(d: Flash, p: Part, files: Files) {
    && p.file.Some?
    && (p.name != "secondary_gpt" ==>
          && p.name in d.contents
          && (p.file.value != "" ==> p.file.value in files && |files[p.file.value]| <= |d.contents[p.name]|))
  }

  lemma StepSucceedsExactly(d: Flash, p: Part, files: Files)
    ensures SparseStep(d, p, files).ok <==> CanBeDone(d, p, files)
  {}

  lemma {:induction false} SizesStay(d: Flash, parts: seq<Part>, files: Files)
    ensures var e := SparseAll(d, parts, files).flash.contents;
            e.Keys == d.contents.Keys && forall name :: name in e ==> |e[name]| == |d.contents[name]|
    decreases |parts|
  {
    if parts != [] { SizesStay(d, parts[..|parts| - 1], files); }
  }

  /** An update succeeds exactly if every line can be carried out on the device as it was at the start. */
  lemma {:induction false} SucceedsExactly(d: Flash, parts: seq<Part>, files: Files)
    ensures SparseAll(d, parts, files).ok <==> forall i :: 0 <= i < |parts| ==> CanBeDone(d, parts[i], files)
    decreases |parts|
  {
    hide SparseStep;
    if parts != [] {
      var n := |parts| - 1;
      var before := SparseAll(d, parts[..n], files).flash;
      SucceedsExactly(d, parts[..n], files);
      SizesStay(d, parts[..n], files);
      StepSucceedsExactly(before, parts[n], files);
      assert CanBeDone(before, parts[n], files) <==> CanBeDone(d, parts[n], files);
      assert forall i :: 0 <= i < n ==> parts[..n][i] == parts[i];
    }
  }

  /** Every write in the log comes right after an erase of the same partition. */
  predicate WritesFollowErases(log: seq<Operation>) {
    forall k :: 0 <= k < |log| && log[k].Write? ==> k > 0 && log[k - 1] == Erase(log[k].name)
  }

  lemma {:induction false} SparseErasesBeforeWriting(d: Flash, parts: seq<Part>, files: Files)
    requires WritesFollowErases(d.log)
    ensures WritesFollowErases(SparseAll(d, parts, files).flash.log)
    decreases |parts|
  {
    if parts != [] { SparseErasesBeforeWriting(d, parts[..|parts| - 1], files); }
  }

  /** The line on which an update fails. */
  predicate FailsOn(d: Flash, parts: seq<Part>, files: Files, k: nat)
    requires k < |parts|
  {
    SparseAll(d, parts[..k], files).ok && !SparseStep(SparseAll(d, parts[..k], files).flash, parts[k], files).ok
  }

  /** An update fails on one line. All earlier lines have been carried out, later ones not; of the failing line, only
      the erase may have happened, and that exactly if its image is there but too long for its partition. */
  lemma {:induction false} FailureLeaves(d: Flash, parts: seq<Part>, files: Files) returns (k: nat)
    requires !SparseAll(d, parts, files).ok
    ensures k < |parts| && FailsOn(d, parts, files, k)
    ensures var before, p := SparseAll(d, parts[..k], files).flash, parts[k];
            var tooLong := p.name != SECONDARY_GPT && p.name in before.contents && HasImage(p)
              && p.file.value in files && |files[p.file.value]| > |before.contents[p.name]|;
            SparseAll(d, parts, files).flash == if tooLong then Erased(before, p.name) else before
    decreases |parts|
  {
    var n := |parts| - 1;
    if SparseAll(d, parts[..n], files).ok {
      k := n;
    } else {
      hide SparseStep;
      k := FailureLeaves(d, parts[..n], files);
      assert parts[..n][..k] == parts[..k];
    }
  }

  lemma FullStepInstalls(d: Flash, p: Part, files: Files)
    requires FullStep(d, p, files).ok
    ensures Installed(FullStep(d, p, files).flash, p, files)
    ensures forall name :: name != p.name || p.name == SECONDARY_GPT ==>
              (name in d.contents <==> name in FullStep(d, p, files).flash.contents)
              && (name in d.contents ==> FullStep(d, p, files).flash.contents[name] == d.contents[name])
  {}

  lemma {:induction false} FullInstalls(d: Flash, parts: seq<Part>, files: Files)
    requires DistinctNames(parts) && FullAll(d, parts, files).ok
    ensures var e := FullAll(d, parts, files).flash;
            && (forall i :: 0 <= i < |parts| ==> Installed(e, parts[i], files))
            && (forall name :: name in d.contents && !Updated(parts, name) ==>
                  name in e.contents && e.contents[name] == d.contents[name])
    decreases |parts|
  {
    hide FullStep;
    if parts != [] {
      var n := |parts| - 1;
      FullInstalls(d, parts[..n], files);
      FullStepInstalls(FullAll(d, parts[..n], files).flash, parts[n], files);
      assert forall i :: 0 <= i < n ==> parts[..n][i] == parts[i];
    }
  }

  /** The sparse update refines erasing and writing everything: it succeeds on the same inputs, and afterwards both
      hold the same image bytes in every listed partition, the same bytes in every erased one and in all others. */
  lemma SparseRefinesFull(d: Flash, parts: seq<Part>, files: Files)
    requires DistinctNames(parts)
    ensures SparseAll(d, parts, files).ok <==> FullAll(d, parts, files).ok
    ensures SparseAll(d, parts, files).ok ==>
              var sparse, full := SparseAll(d, parts, files).flash.contents, FullAll(d, parts, files).flash.contents;
              && sparse.Keys == full.Keys == d.contents.Keys
              && (forall i :: 0 <= i < |parts| && parts[i].name != SECONDARY_GPT ==>
                    var name := parts[i].name;
                    && name in sparse && |sparse[name]| == |full[name]|
                    && if HasImage(parts[i])
                       then parts[i].file.value in files
                            && files[parts[i].file.value] <= sparse[name] && files[parts[i].file.value] <= full[name]
                       else sparse[name] == full[name] == Blank(|d.contents[name]|))
              && (forall name :: name in d.contents && !Updated(parts, name) ==>
                    sparse[name] == full[name] == d.contents[name])
  {
    SparseGoesThrough(d, parts, files);
    if SparseAll(d, parts, files).ok {
      SparseInstalls(d, parts, files);
      FullInstalls(d, parts, files);
    }
  }

  // --- a second update --------------------------------------------------------------------------------

  predicate NoWrites(log: seq<Operation>) {
    forall k :: 0 <= k < |log| ==> log[k].Erase?
  }

  lemma IdleStep(d: Flash, p: Part, files: Files)
    requires p.file.Some? && Installed(d, p, files)
    ensures var e := SparseStep(d, p, files);
            && e.ok && e.flash.contents == d.contents
            && (e.flash.log == d.log || e.flash.log == d.log + [Erase(p.name)])
  {}

  /** Updating again right after an update writes nothing and changes no byte. */
  lemma {:induction false} SecondUpdateIsIdle(d: Flash, parts: seq<Part>, files: Files)
    requires forall i :: 0 <= i < |parts| ==> parts[i].file.Some? && Installed(d, parts[i], files)
    ensures var e := SparseAll(d, parts, files);
            && e.ok && e.flash.contents == d.contents
            && d.log <= e.flash.log && NoWrites(e.flash.log[|d.log|..])
    decreases |parts|
  {
    hide SparseStep;
    if parts != [] {
      var n := |parts| - 1;
      assert forall i :: 0 <= i < n ==> parts[..n][i] == parts[i];
      SecondUpdateIsIdle(d, parts[..n], files);
      var before := SparseAll(d, parts[..n], files).flash;
      SameContents(d, before, parts[n], files);
      IdleStep(before, parts[n], files);
      var e := SparseAll(d, parts, files).flash;
      assert || e.log[|d.log|..] == before.log[|d.log|..]
             || e.log[|d.log|..] == before.log[|d.log|..] + [Erase(parts[n].name)];
    }
  }

  lemma SameContents(d: Flash, e: Flash, p: Part, files: Files)
    requires d.contents == e.contents
    ensures Installed(d, p, files) <==> Installed(e, p, files)
  {}
}
