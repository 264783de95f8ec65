/** The flashing of all devices of an index in tegraflash_internal.py. */
module FlashRun {
  import opened Bytes
  import opened FlashIndex
  import opened Qspi

  // --- all devices ------------------------------------------------------------------------------------

  datatype Action = FlashAll | FlashDevice(number: int) | UpdateSparsely(index: int)

  /** Devices, what has been done, and whether there was no exception. */
  datatype Progress = Progress(devices: Devices, actions: seq<Action>, ok: bool)

  datatype Flashed = Flashed(devices: Devices, ok: bool)

  /** The comparison of the partition tables, and the plain flashing of one device by its number, or of all. */
  datatype Tool = Tool(
    sameGpt: (int, Flash) -> bool,
    flashDevice: (int, Flash) -> Outcome,
    flashAll: Devices -> Flashed)

  /** Is the device of group i, holding d, updated sparsely? */
  predicate IsSparse(i: int, groups: seq<Group>, d: Flash, tool: Tool)
    requires 0 <= i < |groups|
  {
    groups[i].device == QSPI_DEVICE && tool.sameGpt(i, d)
  }

  /** What is done for group i with its device, holding d. */
  function ActionFor(i: int, groups: seq<Group>, d: Flash, tool: Tool): Action
    requires 0 <= i < |groups|
  {
    if IsSparse(i, groups, d, tool) then UpdateSparsely(i) else FlashDevice(i + 1)
  }

  /** How that leaves it. */
  function Handled(i: int, groups: seq<Group>, d: Flash, files: Files, tool: Tool): Outcome
    requires 0 <= i < |groups|
  {
    if IsSparse(i, groups, d, tool) then SparseAll(d, groups[i].parts, files) else tool.flashDevice(i + 1, d)
  }

  /** The first n groups in order, up to the first that fails. */
  function HandleGroups(b: Devices, n: nat, groups: seq<Group>, files: Files, tool: Tool): Progress
    requires n <= |groups|
  {
    if n == 0 then Progress(b, [], true) else
      var before := HandleGroups(b, n - 1, groups, files, tool);
      if !before.ok then before else
        var key := GroupKey(groups[n - 1]);
        var d := DeviceAt(before.devices, key);
        var e := Handled(n - 1, groups, d, files, tool);
        Progress(WithDevice(before.devices, key, e.flash), before.actions + [ActionFor(n - 1, groups, d, tool)], e.ok)
  }

  predicate HasQspi(groups: seq<Group>) {
    exists i :: 0 <= i < |groups| && groups[i].device == QSPI_DEVICE
  }

  /** An index without a QSPI device is flashed at once. */
  function HandleIndex(b: Devices, groups: seq<Group>, files: Files, tool: Tool): Progress {
    if HasQspi(groups) then HandleGroups(b, |groups|, groups, files, tool)
    else var e := tool.flashAll(b); Progress(e.devices, [FlashAll], e.ok)
  }

  /** tegraflash_just_flash for one device */
  method JustFlash(board: Board, key: string, number: int, tool: Tool) returns (ok: bool)
    modifies board
    ensures var e := tool.flashDevice(number, DeviceAt(old(board.devices), key));
            ok == e.ok && board.devices == WithDevice(old(board.devices), key, e.flash)
  {
    var e := tool.flashDevice(number, DeviceAt(board.devices, key));
    board.devices, ok := WithDevice(board.devices, key, e.flash), e.ok;
  }

  /** tegraflash_flash_partitions with a sparse update: the index is read, and its groups are handled in order, up to
      the first that fails. */
  method FlashPartitions(lines: seq<string>, board: Board, files: Files, tool: Tool)
    returns (ok: bool, actions: seq<Action>, ghost groups: seq<Group>)
    modifies board
    ensures ParsedLines(lines).None? ==> !ok && actions == [] && board.devices == old(board.devices)
    ensures ParsedLines(lines).Some? ==>
              && AreRuns(groups) && AllParts(groups) == ParsedLines(lines).value
              && Progress(board.devices, actions, ok) == HandleIndex(old(board.devices), groups, files, tool)
  {
    hide SparseAll, ParsedLines, AreRuns, AllParts;
    ok, actions, groups := false, [], [];
    var index := ParseIndex(lines);
    if index.None? { return; }
    var (qspi, _, info) := index.value;
    groups := info;
    if qspi == [] {
      NoQspi(groups, qspi);
      var e := tool.flashAll(board.devices);
      board.devices, actions, ok := e.devices, [FlashAll], e.ok;
      return;
    }
    assert qspi[0] in qspi;
    ok := true;
    for i := 0 to |info|
      invariant HandleGroups(old(board.devices), i, groups, files, tool) == Progress(board.devices, actions, true) && ok
    {
      var key := GroupKey(info[i]);
      ghost var before := board.devices;
      if i in qspi && tool.sameGpt(i, DeviceAt(board.devices, key)) {
        actions := actions + [UpdateSparsely(i)];
        ok := SparseUpdate(board, key, info[i].parts, files);
      } else {
        actions := actions + [FlashDevice(i + 1)];
        ok := JustFlash(board, key, i + 1, tool);
      }
      if !ok {
        GroupsStop(old(board.devices), i + 1, groups, files, tool);
        return;
      }
    }
  }

  lemma NoQspi(groups: seq<Group>, qspi: seq<int>)
    requires qspi == [] && forall i :: i in qspi <==> 0 <= i < |groups| && groups[i].device == QSPI_DEVICE
    ensures !HasQspi(groups)
  {
    forall i | 0 <= i < |groups| ensures groups[i].device != QSPI_DEVICE { assert i !in qspi; }
  }

  /** Nothing happens after a group that fails. */
  lemma {:induction false} GroupsStop(b: Devices, n: nat, groups: seq<Group>, files: Files, tool: Tool)
    requires n <= |groups| && !HandleGroups(b, n, groups, files, tool).ok
    ensures HandleGroups(b, |groups|, groups, files, tool) == HandleGroups(b, n, groups, files, tool)
    decreases |groups| - n
  {
    hide Handled, ActionFor;
    if n < |groups| { GroupsStop(b, n + 1, groups, files, tool); }
  }

  /** An index without a line for a QSPI device is flashed at once, and nothing else is done; any other never is. */
  lemma FlashedAtOnce(b: Devices, lines: seq<string>, groups: seq<Group>, files: Files, tool: Tool)
    requires AreRuns(groups) && ParsedLines(lines) == Some(AllParts(groups))
    ensures var p := HandleIndex(b, groups, files, tool);
            if exists j :: 0 <= j < |AllParts(groups)| && AllParts(groups)[j].device == "3"
            then forall k :: 0 <= k < |p.actions| ==> !p.actions[k].FlashAll?
            else p == Progress(tool.flashAll(b).devices, [FlashAll], tool.flashAll(b).ok)
  {
    hide HandleGroups, PartKey, GroupKey, ParsedLines, AllParts;
    GroupsAreDevices(lines, groups);
    if i :| 0 <= i < |groups| && groups[i].device == QSPI_DEVICE { PartIsListed(groups, i, 0); }
    if j :| 0 <= j < |AllParts(groups)| && AllParts(groups)[j].device == "3" {
      var i, k := GroupOfPart(groups, j);
      NeverAtOnce(b, |groups|, groups, files, tool);
    }
  }

  lemma {:induction false} NeverAtOnce(b: Devices, n: nat, groups: seq<Group>, files: Files, tool: Tool)
    requires n <= |groups|
    ensures forall k :: 0 <= k < |HandleGroups(b, n, groups, files, tool).actions| ==>
              !HandleGroups(b, n, groups, files, tool).actions[k].FlashAll?
  {
    hide Handled;
    if n > 0 { NeverAtOnce(b, n - 1, groups, files, tool); }
  }

  /** What becomes of one device, holding d: its own groups among the first n are handled in order, up to the first that
      fails. */
  function HandledBy(n: nat, groups: seq<Group>, key: string, d: Flash, files: Files, tool: Tool): Outcome
    requires n <= |groups|
  {
    if n == 0 then Outcome(d, true) else
      var before := HandledBy(n - 1, groups, key, d, files, tool);
      if before.ok && GroupKey(groups[n - 1]) == key then Handled(n - 1, groups, before.flash, files, tool) else before
  }

  /** Devices do not affect each other: after m actions, every device is as its own groups among the first m leave it,
      and the device of the group that failed, if any, is the only one with a failure. */
  lemma {:induction false} DevicesApart(b: Devices, n: nat, groups: seq<Group>, files: Files, tool: Tool)
    requires n <= |groups|
    ensures var p := HandleGroups(b, n, groups, files, tool);
            var m := |p.actions|;
            && p.devices.Keys == b.Keys && m <= n && (p.ok ==> m == n) && (!p.ok ==> m > 0)
            && forall key :: key in b ==>
                 var e := HandledBy(m, groups, key, b[key], files, tool);
                 && p.devices[key] == e.flash
                 && (e.ok <==> p.ok || key != GroupKey(groups[m - 1]))
  {
    hide Handled, ActionFor, GroupKey;
    if n > 0 { DevicesApart(b, n - 1, groups, files, tool); }
  }

  /** If every device instance has one group, each device is handled for that group, and only for that. */
  lemma {:induction false} HandledOnce(n: nat, groups: seq<Group>, i: nat, d: Flash, files: Files, tool: Tool)
    requires KeysDistinct(groups) && i < |groups| && n <= |groups|
    ensures HandledBy(n, groups, GroupKey(groups[i]), d, files, tool)
            == if i < n then Handled(i, groups, d, files, tool) else Outcome(d, true)
    decreases n
  {
    hide Handled, GroupKey;
    if n > 0 { HandledOnce(n - 1, groups, i, d, files, tool); }
  }

  /** Flashing a device as a whole installs what its group lists. */
  ghost predicate FlashingInstalls(i: int, groups: seq<Group>, files: Files, tool: Tool)
    requires 0 <= i < |groups|
  {
    forall d {:trigger tool.flashDevice(i + 1, d)} :: tool.flashDevice(i + 1, d).ok ==>
      forall j :: 0 <= j < |groups[i].parts| ==> Installed(tool.flashDevice(i + 1, d).flash, groups[i].parts[j], files)
  }

  /** If plain flashing installs what is listed, so does handling a device either way. */
  lemma HandledInstalls(i: int, groups: seq<Group>, d: Flash, files: Files, tool: Tool)
    requires 0 <= i < |groups| && DistinctNames(groups[i].parts) && Handled(i, groups, d, files, tool).ok
    requires FlashingInstalls(i, groups, files, tool)
    ensures forall j :: 0 <= j < |groups[i].parts| ==>
              Installed(Handled(i, groups, d, files, tool).flash, groups[i].parts[j], files)
  {
    hide Installed, SparseAll;
    if IsSparse(i, groups, d, tool) { SparseInstalls(d, groups[i].parts, files); }
  }

  /** A whole run that succeeds on an index whose lines for each device stand together: every device ends as its one
      group leaves it, with everything installed that is listed for it. */
  lemma IndexIsInstalled(b: Devices, groups: seq<Group>, files: Files, tool: Tool, i: nat)
    requires AreRuns(groups) && Together(AllParts(groups)) && HasQspi(groups)
    requires i < |groups| && GroupKey(groups[i]) in b
    requires HandleIndex(b, groups, files, tool).ok
    requires DistinctNames(groups[i].parts) && FlashingInstalls(i, groups, files, tool)
    ensures var key, p := GroupKey(groups[i]), HandleIndex(b, groups, files, tool);
            && |p.actions| == |groups|
            && p.actions[i] == (if groups[i].device == "3" && tool.sameGpt(i, b[key]) then UpdateSparsely(i)
                                else FlashDevice(i + 1))
            && key in p.devices
            && p.devices[key] == (if groups[i].device == "3" && tool.sameGpt(i, b[key])
                                  then SparseAll(b[key], groups[i].parts, files).flash
                                  else tool.flashDevice(i + 1, b[key]).flash)
            && forall j :: 0 <= j < |groups[i].parts| ==> Installed(p.devices[key], groups[i].parts[j], files)
  {
    hide AreRuns, AllParts, Together, HasQspi, Installed, SparseAll;
    DistinctExactly(groups);
    var key, n := GroupKey(groups[i]), |groups|;
    DevicesApart(b, n, groups, files, tool);
    HandledOnce(n, groups, i, b[key], files, tool);
    ActionOnce(b, n, groups, files, tool, i);
    HandledInstalls(i, groups, b[key], files, tool);
  }

  /** What is done for a device that has one group is decided by what it held at the start. */
  lemma {:induction false} ActionOnce(b: Devices, n: nat, groups: seq<Group>, files: Files, tool: Tool, i: nat)
    requires KeysDistinct(groups) && i < n <= |groups| && GroupKey(groups[i]) in b
    requires HandleGroups(b, n, groups, files, tool).ok
    ensures var p := HandleGroups(b, n, groups, files, tool);
            |p.actions| == n && p.actions[i] == ActionFor(i, groups, b[GroupKey(groups[i])], tool)
    decreases n
  {
    hide Handled, ActionFor, GroupKey, KeysDistinct;
    DevicesApart(b, n - 1, groups, files, tool);
    if i < n - 1 {
      ActionOnce(b, n - 1, groups, files, tool, i);
    } else {
      HandledOnce(n - 1, groups, i, b[GroupKey(groups[i])], files, tool);
    }
  }

  /** The index with two runs for one device: the device is handled for both, the second time as the first left it. */
  lemma HandledTwice(d: Flash, files: Files, tool: Tool)
    ensures var groups := RepeatedGroups();
            var first := Handled(0, groups, d, files, tool);
            HandledBy(3, groups, GroupKey(groups[0]), d, files, tool)
            == if first.ok then Handled(2, groups, first.flash, files, tool) else first
  {
    hide Handled;
    var groups := RepeatedGroups();
    assert GroupKey(groups[0]) == GroupKey(groups[2]) == "3:0" && GroupKey(groups[1]) == "1:3";
    assert HandledBy(1, groups, "3:0", d, files, tool) == Handled(0, groups, d, files, tool);
    assert HandledBy(2, groups, "3:0", d, files, tool) == HandledBy(1, groups, "3:0", d, files, tool);
  }
}
