/** The flash index of tegraflash_internal.py: its groups of lines, and when each device has only one. */
module FlashIndex {
  import opened Bytes
  import opened Sequences
  import opened Strings

  const QSPI_DEVICE := "3"

  // --- the index file ---------------------------------------------------------------------------------

  /** White space as `str.strip` of Python 3 takes it. */
  predicate IsSpace(c: char) {
    var n := c as int;
    || 0x09 <= n <= 0x0D || 0x1C <= n <= 0x20 || n == 0x85 || n == 0xA0 || n == 0x1680
    || 0x2000 <= n <= 0x200A || n == 0x2028 || n == 0x2029 || n == 0x202F || n == 0x205F || n == 0x3000
  }

  /** s.strip() */
  function Strip(s: string): string {
    Stripped(s, IsSpace)
  }

  /** One line: where the partition is, and the image to write, if the line has that column. */
  datatype Part = Part(device: string, instance: string, name: string, file: Option<string>)

  /** None if the second column is missing or is not device:instance:name. */
  function ParsePart(line: string): Option<Part> {
    var columns := Split(line, ',');
    if |columns| < 2 then None else
      var address := Split(Strip(columns[1]), ':');
      if |address| != 3 then None else
        Some(Part(address[0], address[1], address[2], if |columns| > 4 then Some(Strip(columns[4])) else None))
  }

  datatype Group = Group(device: string, instance: string, parts: seq<Part>)

  function Key(device: string, instance: string): string {
    device + ":" + instance
  }

  /** The device instance a line, or a group of lines, is about. */
  function PartKey(p: Part): string {
    Key(p.device, p.instance)
  }

  function GroupKey(g: Group): string {
    Key(g.device, g.instance)
  }

  function AllParts(groups: seq<Group>): seq<Part> {
    if groups == [] then [] else AllParts(groups[..|groups| - 1]) + groups[|groups| - 1].parts
  }

  /** The lines that can be parsed, up to the first that cannot. */
  function ParsedLines(lines: seq<string>): Option<seq<Part>> {
    if lines == [] then Some([]) else
      var rest, part := ParsedLines(lines[..|lines| - 1]), ParsePart(lines[|lines| - 1]);
      if rest.None? || part.None? then None else Some(rest.value + [part.value])
  }

  /** The groups are the maximal runs of lines for the same device instance. */
  predicate AreRuns(groups: seq<Group>) {
    && (forall i :: 0 <= i < |groups| ==>
          && groups[i].parts != []
          && groups[i].device == groups[i].parts[0].device && groups[i].instance == groups[i].parts[0].instance)
    && (forall i, j :: 0 <= i < |groups| && 0 <= j < |groups[i].parts| ==>
          PartKey(groups[i].parts[j]) == GroupKey(groups[i]))
    && (forall i :: 0 < i < |groups| ==> GroupKey(groups[i - 1]) != GroupKey(groups[i]))
  }

  /** The key of the last group. */
  function LastKey(groups: seq<Group>): string {
    if groups == [] then "" else GroupKey(groups[|groups| - 1])
  }

  /** The part goes to the last group; before that, a new group is started if the key has changed. */
  lemma RunsGrow(groups: seq<Group>, p: Part)
    requires AreRuns(groups)
    ensures var key := PartKey(p);
            var grown := if LastKey(groups) != key then groups + [Group(p.device, p.instance, [])] else groups;
            && grown != []
            && var last := |grown| - 1;
            var r := grown[last := grown[last].(parts := grown[last].parts + [p])];
            AreRuns(r) && AllParts(r) == AllParts(groups) + [p] && LastKey(r) == PartKey(p)
  {
    var key := PartKey(p);
    var grown := if LastKey(groups) != key then groups + [Group(p.device, p.instance, [])] else groups;
    KeyIsNotEmpty(p.device, p.instance);
    hide Key;
    if LastKey(groups) != key {
      NewRun(groups, Group(p.device, p.instance, [p]));
    } else {
      LongerRun(groups, p);
    }
  }

  lemma NewRun(groups: seq<Group>, g: Group)
    requires AreRuns(groups) && LastKey(groups) != GroupKey(g)
    requires |g.parts| == 1 && g.device == g.parts[0].device && g.instance == g.parts[0].instance
    ensures AreRuns(groups + [g]) && AllParts(groups + [g]) == AllParts(groups) + g.parts
  {
    hide Key;
    assert (groups + [g])[..|groups|] == groups;
  }

  lemma LongerRun(groups: seq<Group>, p: Part)
    requires AreRuns(groups) && groups != [] && LastKey(groups) == PartKey(p)
    ensures var last := |groups| - 1;
            var r := groups[last := groups[last].(parts := groups[last].parts + [p])];
            AreRuns(r) && AllParts(r) == AllParts(groups) + [p] && LastKey(r) == LastKey(groups)
  {
    hide Key;
    var last := |groups| - 1;
    var r := groups[last := groups[last].(parts := groups[last].parts + [p])];
    assert r[..last] == groups[..last];
  }

  lemma KeyIsNotEmpty(device: string, instance: string)
    ensures Key(device, instance) != ""
  {
    assert |Key(device, instance)| > 0;
  }

  /** parse_indexfile_for_qspi; None for the exception a malformed line raises. */
  method ParseIndex(lines: seq<string>) returns (r: Option<(seq<int>, seq<Part>, seq<Group>)>)
    ensures r.None? <==> ParsedLines(lines).None?
    ensures r.Some? ==>
              var (qspi, partitions, groups) := r.value;
              && Some(partitions) == ParsedLines(lines) && AllParts(groups) == partitions && AreRuns(groups)
              && (forall i :: i in qspi <==> 0 <= i < |groups| && groups[i].device == QSPI_DEVICE)
              && (forall i, j :: 0 <= i < j < |qspi| ==> qspi[i] < qspi[j])
              && (KeysDistinct(groups) <==> Together(partitions))
  {
    hide ParsePart, Key, AreRuns, AllParts, KeysDistinct, Together;
    var partitions: seq<Part>, groups: seq<Group>, qspi: seq<int>, prev := [], [], [], "";
    NoRuns();
    for k := 0 to |lines|
      invariant ParsedLines(lines[..k]) == Some(partitions)
      invariant AllParts(groups) == partitions && AreRuns(groups) && prev == LastKey(groups)
      invariant forall i :: i in qspi <==> 0 <= i < |groups| && groups[i].device == QSPI_DEVICE
      invariant forall i :: 0 <= i < |qspi| ==> 0 <= qspi[i] < |groups|
      invariant forall i, j :: 0 <= i < j < |qspi| ==> qspi[i] < qspi[j]
    {
      assert lines[..k + 1][..k] == lines[..k];
      var part := ParsePart(lines[k]);
      if part.None? {
        StaysUnparsed(lines, k + 1);
        return None;
      }
      var p := part.value;
      RunsGrow(groups, p);
      if prev != PartKey(p) {
        prev := PartKey(p);
        if p.device == QSPI_DEVICE { qspi := qspi + [|groups|]; }
        groups := groups + [Group(p.device, p.instance, [])];
      }
      var last := |groups| - 1;
      groups := groups[last := groups[last].(parts := groups[last].parts + [p])];
      partitions := partitions + [p];
    }
    assert lines[..|lines|] == lines;
    DistinctExactly(groups);
    r := Some((qspi, partitions, groups));
  }

  lemma NoRuns()
    ensures AreRuns([]) && AllParts([]) == []
  {}

  lemma {:induction false} StaysUnparsed(lines: seq<string>, k: nat)
    requires k <= |lines| && ParsedLines(lines[..k]).None?
    ensures ParsedLines(lines).None?
    decreases |lines| - k
  {
    hide ParsePart;
    if k < |lines| {
      assert lines[..k + 1][..k] == lines[..k];
      StaysUnparsed(lines, k + 1);
    } else {
      assert lines[..k] == lines;
    }
  }

  // --- keys and devices -------------------------------------------------------------------------------

  /** For a device without a colon, the key gives device and instance back. */
  lemma KeysExactly(a: string, b: string, c: string, d: string)
    requires ':' !in a && ':' !in c
    ensures Key(a, b) == Key(c, d) <==> a == c && b == d
  {
    hide Split;
    SplitAt(a, ':', b);
    SplitAt(c, ':', d);
    if Key(a, b) == Key(c, d) {
      assert Split(Key(a, b), ':')[0] == a && Split(Key(c, d), ':')[0] == c;
      assert Key(a, b)[|a| + 1..] == b && Key(c, d)[|c| + 1..] == d;
    }
  }

  lemma {:induction false} ParsedHaveNoColon(lines: seq<string>)
    requires ParsedLines(lines).Some?
    ensures forall p :: p in ParsedLines(lines).value ==> ':' !in p.device && ':' !in p.instance
    decreases |lines|
  {
    if lines != [] {
      var n := |lines| - 1;
      ParsedHaveNoColon(lines[..n]);
      SplitHasNone(Strip(Split(lines[n], ',')[1]), ':');
    }
  }

  lemma SameKeyExactly(lines: seq<string>, a: nat, b: nat)
    requires ParsedLines(lines).Some? && a < |ParsedLines(lines).value| && b < |ParsedLines(lines).value|
    ensures var parts := ParsedLines(lines).value;
            PartKey(parts[a]) == PartKey(parts[b])
            <==> parts[a].device == parts[b].device && parts[a].instance == parts[b].instance
  {
    hide ParsedLines, Key;
    ParsedHaveNoColon(lines);
    var p, q := ParsedLines(lines).value[a], ParsedLines(lines).value[b];
    KeysExactly(p.device, p.instance, q.device, q.instance);
  }

  /** What a line that is read looks like: columns without commas, of which the second is, apart from white space,
      device, instance and name with colons between them, and the fifth is the image, if there is one. */
  lemma ReadLineIs(line: string) returns (columns: seq<string>)
    requires ParsePart(line).Some?
    ensures |columns| >= 2 && line == Joined(columns, ',') && forall i :: 0 <= i < |columns| ==> ',' !in columns[i]
    ensures var p := ParsePart(line).value;
            && Strip(columns[1]) == p.device + ":" + p.instance + ":" + p.name
            && ':' !in p.device && ':' !in p.instance && ':' !in p.name
            && p.file == if |columns| >= 5 then Some(Strip(columns[4])) else None
  {
    hide Split, Joined, Strip;
    columns := Split(line, ',');
    JoinedSplit(line, ',');
    SplitHasNone(line, ',');
    var address := Split(Strip(columns[1]), ':');
    JoinedSplit(Strip(columns[1]), ':');
    SplitHasNone(Strip(columns[1]), ':');
    assert |address| == 3 && address == [address[0], address[1], address[2]];
    JoinedThree(address[0], address[1], address[2]);
  }

  lemma JoinedThree(a: string, b: string, c: string)
    ensures Joined([a, b, c], ':') == a + ":" + b + ":" + c
  {
    assert [a, b, c][1..] == [b, c] && [b, c][1..] == [c];
    assert Joined([c], ':') == c && Joined([b, c], ':') == b + [':'] + c;
    assert Joined([a, b, c], ':') == a + [':'] + (b + [':'] + c);
  }

  /** And every such line is read. */
  lemma LineLikeThatIsRead(columns: seq<string>, device: string, instance: string, name: string)
    requires |columns| >= 2 && forall i :: 0 <= i < |columns| ==> ',' !in columns[i]
    requires Strip(columns[1]) == device + ":" + instance + ":" + name
    requires ':' !in device && ':' !in instance && ':' !in name
    ensures ParsePart(Joined(columns, ','))
            == Some(Part(device, instance, name, if |columns| >= 5 then Some(Strip(columns[4])) else None))
  {
    hide Split, Joined, Strip, Address;
    SplitJoined(columns, ',');
    AddressIs(device, instance, name);
    AddressIsRead(device, instance, name);
  }

  lemma AddressIs(device: string, instance: string, name: string)
    ensures device + ":" + instance + ":" + name == Address(device, instance, name)
  {}

  /** The lines of a group are all for its device and instance, and the next group is for another. */
  lemma GroupsAreDevices(lines: seq<string>, groups: seq<Group>)
    requires AreRuns(groups) && ParsedLines(lines) == Some(AllParts(groups))
    ensures forall i, j :: 0 <= i < |groups| && 0 <= j < |groups[i].parts| ==>
              groups[i].parts[j].device == groups[i].device && groups[i].parts[j].instance == groups[i].instance
    ensures forall i :: 0 < i < |groups| ==>
              groups[i - 1].device != groups[i].device || groups[i - 1].instance != groups[i].instance
  {
    hide ParsedLines, Key;
    ParsedHaveNoColon(lines);
    forall i, j | 0 <= i < |groups| && 0 <= j < |groups[i].parts|
      ensures groups[i].parts[j].device == groups[i].device && groups[i].parts[j].instance == groups[i].instance
    {
      PartIsListed(groups, i, j);
      PartIsListed(groups, i, 0);
      var p := groups[i].parts[j];
      KeysExactly(p.device, p.instance, groups[i].device, groups[i].instance);
    }
    forall i | 0 < i < |groups|
      ensures groups[i - 1].device != groups[i].device || groups[i - 1].instance != groups[i].instance
    {
      assert GroupKey(groups[i - 1]) != GroupKey(groups[i]);
    }
  }

  /** Every line is in some group. */
  lemma {:induction false} GroupOfPart(groups: seq<Group>, j: nat) returns (i: nat, k: nat)
    requires j < |AllParts(groups)|
    ensures i < |groups| && k < |groups[i].parts| && groups[i].parts[k] == AllParts(groups)[j]
    decreases |groups|
  {
    var n := |groups| - 1;
    var before := |AllParts(groups[..n])|;
    if j < before {
      i, k := GroupOfPart(groups[..n], j);
    } else {
      i, k := n, j - before;
    }
  }

  lemma {:induction false} PartIsListed(groups: seq<Group>, i: nat, j: nat)
    requires i < |groups| && j < |groups[i].parts|
    ensures groups[i].parts[j] in AllParts(groups)
    decreases |groups|
  {
    if i < |groups| - 1 { PartIsListed(groups[..|groups| - 1], i, j); }
  }

  /** Exactly white space goes at the ends of a column. */
  predicate IsWhite(n: int) {
    n in {9, 10, 11, 12, 13, 28, 29, 30, 31, 32, 133, 160, 5760, 8192, 8193, 8194, 8195, 8196, 8197, 8198, 8199, 8200,
          8201, 8202, 8232, 8233, 8239, 8287, 12288}
  }

  predicate IsColumn(s: string, a: string, t: string, b: string) {
    && s == a + t + b && (forall i :: 0 <= i < |a| ==> IsWhite(a[i] as int))
    && (forall i :: 0 <= i < |b| ==> IsWhite(b[i] as int))
    && (t != "" ==> !IsWhite(t[0] as int) && !IsWhite(t[|t| - 1] as int))
  }

  lemma StripExactly(s: string, t: string)
    ensures Strip(s) == t <==> exists a, b :: IsColumn(s, a, t, b)
  {
    hide Stripped;
    StrippedExactly(s, t, IsSpace);
    forall c: char ensures IsSpace(c) <==> IsWhite(c as int) {}
    hide IsSpace, IsWhite;
    if a, b :| IsPadded(s, a, t, b, IsSpace) { assert IsColumn(s, a, t, b); }
    if a, b :| IsColumn(s, a, t, b) { assert IsPadded(s, a, t, b, IsSpace); }
  }

  // --- devices that are listed once -------------------------------------------------------------------

  /** No two groups are about the same device instance. */
  predicate KeysDistinct(groups: seq<Group>) {
    forall i, j :: 0 <= i < j < |groups| ==> GroupKey(groups[i]) != GroupKey(groups[j])
  }

  /** All lines about one device instance stand together. */
  predicate Together(parts: seq<Part>) {
    forall a, b, c :: 0 <= a < b < c < |parts| && PartKey(parts[a]) == PartKey(parts[c]) ==>
      PartKey(parts[b]) == PartKey(parts[a])
  }

  predicate HasGroup(groups: seq<Group>, key: string) {
    exists i :: 0 <= i < |groups| && GroupKey(groups[i]) == key
  }

  predicate HasLine(parts: seq<Part>, key: string) {
    exists i :: 0 <= i < |parts| && PartKey(parts[i]) == key
  }

  /** The devices of the groups are those of the lines, and the last group is that of the last line. */
  lemma {:induction false} GroupsAndLines(groups: seq<Group>)
    requires AreRuns(groups)
    ensures forall key :: HasGroup(groups, key) <==> HasLine(AllParts(groups), key)
    ensures var parts := AllParts(groups);
            (groups == [] <==> parts == []) && (parts != [] ==> PartKey(parts[|parts| - 1]) == LastKey(groups))
  {
    hide PartKey, GroupKey;
    if groups != [] {
      var n := |groups| - 1;
      var before, last := AllParts(groups[..n]), groups[n].parts;
      GroupsAndLines(groups[..n]);
      forall key ensures HasGroup(groups, key) <==> HasLine(AllParts(groups), key) {
        assert HasGroup(groups, key) <==> HasGroup(groups[..n], key) || GroupKey(groups[n]) == key;
        LinesOfSum(before, last, key);
        assert HasLine(last, key) <==> GroupKey(groups[n]) == key by { assert PartKey(last[0]) == GroupKey(groups[n]); }
      }
    }
  }

  lemma LinesOfSum(a: seq<Part>, b: seq<Part>, key: string)
    ensures HasLine(a + b, key) <==> HasLine(a, key) || HasLine(b, key)
  {
    hide PartKey;
    if HasLine(a, key) {
      var i :| 0 <= i < |a| && PartKey(a[i]) == key;
      assert PartKey((a + b)[i]) == key;
    }
    if HasLine(b, key) {
      var i :| 0 <= i < |b| && PartKey(b[i]) == key;
      assert PartKey((a + b)[|a| + i]) == key;
    }
  }

  /** One more run leaves the lines together exactly if its device has not occurred. */
  lemma OneMoreRun(a: seq<Part>, b: seq<Part>, key: string)
    requires b != [] && forall i :: 0 <= i < |b| ==> PartKey(b[i]) == key
    requires a != [] ==> PartKey(a[|a| - 1]) != key
    ensures Together(a + b) <==> Together(a) && !HasLine(a, key)
  {
    hide PartKey;
    var all := a + b;
    assert forall i :: 0 <= i < |all| ==> all[i] == if i < |a| then a[i] else b[i - |a|];
    if Together(all) {
      forall i, j, k | 0 <= i < j < k < |a| && PartKey(a[i]) == PartKey(a[k]) ensures PartKey(a[j]) == PartKey(a[i]) {
        assert all[i] == a[i] && all[j] == a[j] && all[k] == a[k];
      }
      forall i | 0 <= i < |a| ensures PartKey(a[i]) != key {
        assert all[i] == a[i] && all[|a| - 1] == a[|a| - 1] && PartKey(all[|a|]) == key;
      }
    }
  }

  /** Each device instance has one group exactly if its lines stand together. */
  lemma {:induction false} DistinctExactly(groups: seq<Group>)
    requires AreRuns(groups)
    ensures KeysDistinct(groups) <==> Together(AllParts(groups))
  {
    hide PartKey, GroupKey;
    if groups != [] {
      var n := |groups| - 1;
      var before, key := groups[..n], GroupKey(groups[n]);
      DistinctExactly(before);
      GroupsAndLines(before);
      OneMoreRun(AllParts(before), groups[n].parts, key);
      OneMoreGroup(groups);
    }
  }

  lemma OneMoreGroup(groups: seq<Group>)
    requires groups != []
    ensures var n := |groups| - 1;
            KeysDistinct(groups) <==> KeysDistinct(groups[..n]) && !HasGroup(groups[..n], GroupKey(groups[n]))
  {
    hide GroupKey;
    var n := |groups| - 1;
    var before := groups[..n];
    if KeysDistinct(before) && !HasGroup(before, GroupKey(groups[n])) {
      forall i, j | 0 <= i < j < |groups| ensures GroupKey(groups[i]) != GroupKey(groups[j]) {
        assert groups[i] == before[i] && (j < n ==> groups[j] == before[j]);
      }
    }
  }

  // --- an index that lists a device twice -------------------------------------------------------------

  function Address(device: string, instance: string, name: string): string {
    device + ":" + (instance + ":" + name)
  }

  /** A line with the columns that the reader looks at. */
  function IndexLine(number: string, address: string, start: string, size: string, file: string): string {
    number + "," + (address + "," + (start + "," + (size + "," + file)))
  }

  lemma AddressIsRead(device: string, instance: string, name: string)
    requires ':' !in device && ':' !in instance && ':' !in name
    ensures Split(Address(device, instance, name), ':') == [device, instance, name]
  {
    hide Split;
    SplitAt(device, ':', instance + ":" + name);
    SplitAt(instance, ':', name);
    SplitWhole(name, ':');
  }

  lemma ColumnsAreRead(number: string, address: string, start: string, size: string, file: string)
    requires forall s :: s in [number, address, start, size, file] ==> ',' !in s
    ensures Split(IndexLine(number, address, start, size, file), ',') == [number, address, start, size, file]
  {
    hide Split;
    var columns := [number, address, start, size, file];
    assert columns[0] == number && columns[1] == address && columns[2] == start;
    assert columns[3] == size && columns[4] == file;
    SplitAt(number, ',', address + "," + (start + "," + (size + "," + file)));
    SplitAt(address, ',', start + "," + (size + "," + file));
    SplitAt(start, ',', size + "," + file);
    SplitAt(size, ',', file);
    SplitWhole(file, ',');
  }

  lemma NothingToStrip(s: string)
    requires s != "" ==> !IsSpace(s[0]) && !IsSpace(s[|s| - 1])
    ensures Strip(s) == s
  {}

  /** A line that is written for a partition is read back. */
  lemma LineIsRead(number: string, p: Part, start: string, size: string)
    requires p.file.Some? && ':' !in p.device && ':' !in p.instance && ':' !in p.name
    requires var address := Address(p.device, p.instance, p.name);
             forall s :: s in [number, address, start, size, p.file.value] ==> ',' !in s
    requires p.device != "" && p.name != "" && !IsSpace(p.device[0]) && !IsSpace(p.name[|p.name| - 1])
    requires Strip(p.file.value) == p.file.value
    ensures ParsePart(IndexLine(number, Address(p.device, p.instance, p.name), start, size, p.file.value)) == Some(p)
  {
    hide Split, Strip, IndexLine, IsSpace;
    var address := Address(p.device, p.instance, p.name);
    ColumnsAreRead(number, address, start, size, p.file.value);
    assert address[0] == p.device[0] && address[|address| - 1] == p.name[|p.name| - 1];
    NothingToStrip(address);
    AddressIsRead(p.device, p.instance, p.name);
  }

  function RepeatedPart(device: string, instance: string, name: string): Part {
    Part(device, instance, name, Some(""))
  }

  /** The lines of device 3:0 with one of device 1:3 between them. */
  function RepeatedIndex(): seq<string> {
    [IndexLine("0", Address("3", "0", "a"), "0", "1", ""),
     IndexLine("1", Address("1", "3", "b"), "0", "1", ""),
     IndexLine("2", Address("3", "0", "c"), "0", "1", "")]
  }

  function RepeatedGroups(): seq<Group> {
    [Group("3", "0", [RepeatedPart("3", "0", "a")]),
     Group("1", "3", [RepeatedPart("1", "3", "b")]),
     Group("3", "0", [RepeatedPart("3", "0", "c")])]
  }

  /** Its groups are runs, but the first and the last are about the same device. */
  lemma RepeatedDevice()
    ensures var parts := AllParts(RepeatedGroups());
            && ParsedLines(RepeatedIndex()) == Some(parts) && AreRuns(RepeatedGroups())
            && !Together(parts) && !KeysDistinct(RepeatedGroups())
  {
    RepeatedLines();
    RepeatedParts();
    hide ParsedLines, AllParts;
    var groups := RepeatedGroups();
    assert GroupKey(groups[0]) == GroupKey(groups[2]) == "3:0" && GroupKey(groups[1]) == "1:3";
    DistinctExactly(groups);
  }

  lemma RepeatedParts()
    ensures AllParts(RepeatedGroups())
         == [RepeatedPart("3", "0", "a"), RepeatedPart("1", "3", "b"), RepeatedPart("3", "0", "c")]
  {
    var groups := RepeatedGroups();
    assert groups[..2][..1] == groups[..1] && groups[..1][..0] == [];
    assert AllParts(groups[..1]) == groups[0].parts && AllParts(groups[..2]) == groups[0].parts + groups[1].parts;
  }

  lemma RepeatedLines()
    ensures ParsedLines(RepeatedIndex())
         == Some([RepeatedPart("3", "0", "a"), RepeatedPart("1", "3", "b"), RepeatedPart("3", "0", "c")])
  {
    hide ParsePart, IndexLine, Address, ParsedLines;
    var a, b, c := RepeatedPart("3", "0", "a"), RepeatedPart("1", "3", "b"), RepeatedPart("3", "0", "c");
    RepeatedLineIsRead("0", a);
    RepeatedLineIsRead("1", b);
    RepeatedLineIsRead("2", c);
    var lines := RepeatedIndex();
    ThreeLines(lines[0], lines[1], lines[2], a, b, c);
  }

  lemma ThreeLines(x: string, y: string, z: string, a: Part, b: Part, c: Part)
    requires ParsePart(x) == Some(a) && ParsePart(y) == Some(b) && ParsePart(z) == Some(c)
    ensures ParsedLines([x, y, z]) == Some([a, b, c])
  {
    hide ParsedLines, ParsePart;
    ParsedSnoc([], x, a);
    assert [] + [x] == [x] && [] + [a] == [a];
    ParsedSnoc([x], y, b);
    assert [x] + [y] == [x, y] && [a] + [b] == [a, b];
    ParsedSnoc([x, y], z, c);
    assert [x, y] + [z] == [x, y, z] && [a, b] + [c] == [a, b, c];
  }

  lemma ParsedSnoc(lines: seq<string>, line: string, p: Part)
    requires (lines == [] || ParsedLines(lines).Some?) && ParsePart(line) == Some(p)
    ensures lines == [] ==> ParsedLines(lines) == Some([])
    ensures ParsedLines(lines + [line]) == Some(ParsedLines(lines).value + [p])
  {
    hide ParsePart;
    assert (lines + [line])[..|lines|] == lines;
  }

  lemma RepeatedLineIsRead(number: string, p: Part)
    requires number in ["0", "1", "2"] && p.file == Some("")
    requires p.device in ["1", "3"] && p.instance in ["0", "3"] && p.name in ["a", "b", "c"]
    ensures ParsePart(IndexLine(number, Address(p.device, p.instance, p.name), "0", "1", "")) == Some(p)
  {
    LineIsRead(number, p, "0", "1");
  }
}
