/** The braces of the text against the scanner's count of lines: when the intervals the trimmer finds, and the text it
    leaves, are balanced brace by brace. */
module DtsBraces {
  import opened Bytes
  import opened DtsTrim
  import opened DtsTrimDocument

  // --- counting braces --------------------------------------------------------------------------------

  function Count(s: string, c: char): nat {
    if s == "" then 0 else (if s[0] == c then 1 else 0) + Count(s[1..], c)
  }

  /** Opening braces minus closing braces. */
  function Braces(line: string): int {
    Count(line, '{') - Count(line, '}')
  }

  function TextBalance(lines: seq<string>): int {
    if lines == [] then 0 else TextBalance(lines[..|lines| - 1]) + Braces(lines[|lines| - 1])
  }

  /** What the scanner misses: the braces of each line beyond the first of a kind. */
  function Missed(line: string): int {
    Braces(line) - BraceDelta(line)
  }

  function MissedIn(lines: seq<string>): int {
    if lines == [] then 0 else MissedIn(lines[..|lines| - 1]) + Missed(lines[|lines| - 1])
  }

  /** The line has at most one brace of each kind. */
  predicate OneOfEach(line: string) {
    Count(line, '{') <= 1 && Count(line, '}') <= 1
  }

  predicate AllOneOfEach(lines: seq<string>) {
    forall i :: 0 <= i < |lines| ==> OneOfEach(lines[i])
  }

  lemma {:induction false} ContainsCounts(s: string, c: char)
    ensures Contains(s, [c]) <==> Count(s, c) > 0
    decreases |s|
  {
    if s != "" {
      ContainsCounts(s[1..], c);
      assert [c] <= s <==> s[0] == c;
    }
  }

  /** On such a line the scanner misses nothing. */
  lemma NothingMissed(line: string)
    requires OneOfEach(line)
    ensures Missed(line) == 0
  {
    ContainsCounts(line, '{');
    ContainsCounts(line, '}');
    hide Count, Contains;
  }

  /** The balance of a text is what the scanner counts plus what it misses. */
  lemma {:induction false} BalanceIsCountedAndMissed(lines: seq<string>)
    ensures TextBalance(lines) == LineBalance(lines) + MissedIn(lines)
    decreases |lines|
  {
    hide Braces, BraceDelta;
    if lines != [] { BalanceIsCountedAndMissed(lines[..|lines| - 1]); }
  }

  lemma {:induction false} NothingMissedIn(lines: seq<string>)
    requires AllOneOfEach(lines)
    ensures MissedIn(lines) == 0 && TextBalance(lines) == LineBalance(lines)
    decreases |lines|
  {
    hide Missed, OneOfEach, TextBalance;
    BalanceIsCountedAndMissed(lines);
    if lines != [] {
      NothingMissedIn(lines[..|lines| - 1]);
      NothingMissed(lines[|lines| - 1]);
    }
  }

  // --- the intervals found ----------------------------------------------------------------------------

  /** Every line that names a block opens exactly one brace more than it closes, directly under the root. */
  predicate TablesUnderRoot(lines: seq<string>) {
    forall i {:trigger lines[i]} :: 0 <= i < |lines| && NamesBlock(lines[i]) ==>
      Braces(lines[i]) == 1 && TextBalance(lines[..i]) == 1
  }

  /** Lines a to b - 1 open a block on the first line and close it on the last, brace by brace. */
  predicate IsBalancedBlock(lines: seq<string>, a: nat, b: nat) {
    && a < b <= |lines| && NamesBlock(lines[a]) && TextBalance(lines[a..b]) == 0
    && forall j :: a < j < b ==> TextBalance(lines[a..j]) > 0
  }

  /** For any text with its blocks under the root by the scanner's count: the balance of a recorded interval is what
      the scanner misses in it. */
  lemma {:induction false} FoundBalance(lines: seq<string>)
    requires BlocksUnderRoot(lines) && Found(ScanFrom(SCAN_START, 0, lines)).Some?
    ensures var (starts, ends) := Found(ScanFrom(SCAN_START, 0, lines)).value;
            forall k :: 0 <= k < |starts| ==>
              && starts[k] < ends[k] <= |lines|
              && TextBalance(lines[starts[k]..ends[k]]) == MissedIn(lines[starts[k]..ends[k]])
  {
    hide ScanFrom, TextBalance, LineBalance, MissedIn;
    FoundAreBlocks(lines);
    var (starts, ends) := Found(ScanFrom(SCAN_START, 0, lines)).value;
    forall k | 0 <= k < |starts|
      ensures starts[k] < ends[k] <= |lines|
      ensures TextBalance(lines[starts[k]..ends[k]]) == MissedIn(lines[starts[k]..ends[k]])
    {
      assert IsBlock(lines, starts[k], ends[k]);
      BalanceIsCountedAndMissed(lines[starts[k]..ends[k]]);
    }
  }

  lemma SameCounts(lines: seq<string>, a: nat, b: nat)
    requires AllOneOfEach(lines) && TablesUnderRoot(lines) && a <= b <= |lines|
    ensures TextBalance(lines[a..b]) == LineBalance(lines[a..b]) == ScanBalance(lines[a..b])
  {
    hide OneOfEach, TextBalance, LineBalance, ScanBalance, BraceDelta, Braces, NamesBlock;
    NothingMissedIn(lines[a..b]);
    forall i | a <= i < b ensures ScanDelta(lines[i]) == BraceDelta(lines[i]) { NothingMissed(lines[i]); }
    SameBalance(lines[a..b]);
  }

  /** In a text with at most one brace of each kind on a line and with its tables directly under the root, every
      recorded interval is one balanced block. */
  lemma FoundAreBalanced(lines: seq<string>)
    requires AllOneOfEach(lines) && TablesUnderRoot(lines) && Found(ScanFrom(SCAN_START, 0, lines)).Some?
    ensures var (starts, ends) := Found(ScanFrom(SCAN_START, 0, lines)).value;
            forall k :: 0 <= k < |starts| ==> IsBalancedBlock(lines, starts[k], ends[k])
  {
    hide ScanFrom, OneOfEach, TextBalance, LineBalance, ScanBalance, NamesBlock;
    forall i | 0 <= i < |lines| && NamesBlock(lines[i])
      ensures BraceDelta(lines[i]) == 1 && ScanBalance(lines[..i]) == 1
    {
      NothingMissed(lines[i]);
      SameCounts(lines, 0, i);
      assert lines[0..i] == lines[..i];
    }
    FoundAreBlocks(lines);
    var (starts, ends) := Found(ScanFrom(SCAN_START, 0, lines)).value;
    forall k | 0 <= k < |starts| ensures IsBalancedBlock(lines, starts[k], ends[k]) {
      assert IsBlock(lines, starts[k], ends[k]);
      forall j | starts[k] <= j <= ends[k]
        ensures TextBalance(lines[starts[k]..j]) == ScanBalance(lines[starts[k]..j])
      {
        SameCounts(lines, starts[k], j);
      }
    }
  }

  // --- the text that is left --------------------------------------------------------------------------

  predicate IsDropped(item: Item, selected: string) {
    item.Table? && item.handle != selected
  }

  /** What the scanner misses in the tables that are dropped. */
  function MissedInDropped(items: seq<Item>, selected: string): int {
    if items == [] then 0 else
      var last := items[|items| - 1];
      MissedInDropped(items[..|items| - 1], selected) + if IsDropped(last, selected) then MissedIn(LinesOf(last)) else 0
  }

  lemma {:induction false} TextBalanceAppend(a: seq<string>, b: seq<string>)
    ensures TextBalance(a + b) == TextBalance(a) + TextBalance(b)
    decreases |b|
  {
    hide Braces;
    if b == [] {
      assert a + b == a;
    } else {
      assert (a + b)[..|a + b| - 1] == a + b[..|b| - 1];
      TextBalanceAppend(a, b[..|b| - 1]);
    }
  }

  /** A table is balanced exactly if the scanner misses nothing in it. */
  lemma TableBalance(item: Item)
    requires LegalItem(item)
    ensures TextBalance(LinesOf(item)) == MissedIn(LinesOf(item))
  {
    ItemIsBalanced(item);
    BalanceIsCountedAndMissed(LinesOf(item));
  }

  lemma {:induction false} SelectedBalance(items: seq<Item>, selected: string)
    requires forall i :: 0 <= i < |items| ==> LegalItem(items[i])
    ensures TextBalance(Render(Select(items, selected)))
         == TextBalance(Render(items)) - MissedInDropped(items, selected)
    decreases |items|
  {
    hide LegalItem, TextBalance, MissedIn, LinesOf;
    if items != [] {
      var n := |items| - 1;
      SelectedBalance(items[..n], selected);
      TableBalance(items[n]);
      SelectSnoc(items, selected);
      TextBalanceAppend(Render(items[..n]), LinesOf(items[n]));
      TextBalanceAppend(Render(Select(items[..n], selected)), LinesOf(items[n]));
      assert Render(Select(items[..n], selected)) + [] == Render(Select(items[..n], selected));
    }
  }

  /** Trimming changes the balance of the text by what the scanner misses in the tables it drops: the trimmed text is
      as balanced as the original exactly if that is zero. */
  lemma TrimmedBalance(d: Document, selected: string)
    requires Legal(d)
    ensures TextBalance(Text(d.(items := Select(d.items, selected))))
         == TextBalance(Text(d)) - MissedInDropped(d.items, selected)
  {
    hide LegalItem, TextBalance, Render, Select, MissedInDropped;
    SelectedBalance(d.items, selected);
    var kept := Select(d.items, selected);
    TextBalanceAppend(d.prefix + Render(d.items), d.suffix);
    TextBalanceAppend(d.prefix, Render(d.items));
    TextBalanceAppend(d.prefix + Render(kept), d.suffix);
    TextBalanceAppend(d.prefix, Render(kept));
  }

  lemma {:induction false} NothingMissedInDropped(items: seq<Item>, selected: string)
    requires forall i :: 0 <= i < |items| && IsDropped(items[i], selected) ==> AllOneOfEach(LinesOf(items[i]))
    ensures MissedInDropped(items, selected) == 0
    decreases |items|
  {
    hide AllOneOfEach, MissedIn, LinesOf, IsDropped;
    if items != [] {
      var n := |items| - 1;
      NothingMissedInDropped(items[..n], selected);
      if IsDropped(items[n], selected) { NothingMissedIn(LinesOf(items[n])); }
    }
  }

  /** The trimmed text is as balanced as the original, if no line of a dropped table has two braces of one kind. */
  lemma TrimKeepsBalance(d: Document, selected: string)
    requires Legal(d)
    requires forall i :: 0 <= i < |d.items| && IsDropped(d.items[i], selected) ==> AllOneOfEach(LinesOf(d.items[i]))
    ensures TextBalance(Text(d.(items := Select(d.items, selected)))) == TextBalance(Text(d))
  {
    hide Legal, TextBalance, Text, AllOneOfEach;
    TrimmedBalance(d, selected);
    NothingMissedInDropped(d.items, selected);
  }

  // --- a text for which it fails ----------------------------------------------------------------------

  lemma {:induction false} MissingChar(s: string, sub: string, c: char)
    requires c in sub && c !in s
    ensures !Contains(s, sub)
    decreases |s|
  {
    var k :| 0 <= k < |sub| && sub[k] == c;
    if s != "" { MissingChar(s[1..], sub, c); }
    assert |sub| <= |s| ==> s[k] != sub[k];
  }

  lemma {:induction false} CountAppend(a: string, b: string, c: char)
    ensures Count(a + b, c) == Count(a, c) + Count(b, c)
    decreases |a|
  {
    if a == "" {
      assert a + b == b;
    } else {
      assert (a + b)[1..] == a[1..] + b;
      CountAppend(a[1..], b, c);
    }
  }

  lemma {:induction false} CountAbsent(s: string, c: char)
    requires c !in s
    ensures Count(s, c) == 0
    decreases |s|
  {
    if s != "" { CountAbsent(s[1..], c); }
  }

  /** A table with two nodes opened on its second line, alone in the root node. */
  function CrowdedTable(opens: string, two: string, phandle: string, closes: string): Item {
    Table([opens, two, phandle, closes, closes], "0xa", "")
  }

  function Crowded(root: string, opens: string, two: string, phandle: string, closes: string): Document {
    Document([root], [CrowdedTable(opens, two, phandle, closes)], [closes, closes])
  }

  /** What the scanner sees of the lines. */
  predicate SeenAs(root: string, opens: string, two: string, phandle: string, closes: string) {
    && BraceDelta(root) == 1 && BraceDelta(opens) == 1 && BraceDelta(two) == 1 && BraceDelta(phandle) == 0
    && BraceDelta(closes) == -1 && BraceDelta("") == 0
    && NamesBlock(opens) && NoNames([root, two, phandle, closes, ""])
    && HasPhandle(phandle) && Handle(phandle) == Some("0xa")
    && !HasPhandle(opens) && !HasPhandle(two) && !HasPhandle(closes)
  }

  lemma OneLine(line: string)
    ensures LineBalance([line]) == BraceDelta(line) && TextBalance([line]) == Braces(line)
  {
    assert [line][..0] == [];
  }

  lemma CrowdedIsBlock(root: string, opens: string, two: string, phandle: string, closes: string)
    requires SeenAs(root, opens, two, phandle, closes)
    ensures IsBlock([opens, two, phandle, closes, closes], 0, 5)
  {
    var lines, names := [opens, two, phandle, closes, closes], [root, two, phandle, closes, ""];
    assert !NamesBlock(names[1]) && !NamesBlock(names[2]) && !NamesBlock(names[3]);
    hide NamesBlock, BraceDelta, HasPhandle, Handle;
    BalanceTo(lines, 0, 0);
    BalanceTo(lines, 0, 1);
    BalanceTo(lines, 0, 2);
    BalanceTo(lines, 0, 3);
    BalanceTo(lines, 0, 4);
    assert lines[0..0] == [] && ScanBalance([]) == 0;
    hide ScanBalance;
    assert ScanBalance(lines[0..1]) > 0 && ScanBalance(lines[0..2]) > 0;
    assert ScanBalance(lines[0..3]) > 0 && ScanBalance(lines[0..4]) > 0;
  }

  lemma CrowdedHasOneHandle(root: string, opens: string, two: string, phandle: string, closes: string)
    requires SeenAs(root, opens, two, phandle, closes)
    ensures Handles([opens, two, phandle, closes, closes]) == [Some("0xa")]
  {
    hide HasPhandle, Handle, NamesBlock, BraceDelta;
    var a, b, c, d := [opens], [opens, two], [opens, two, phandle], [opens, two, phandle, closes];
    HandlesSnoc([], opens);
    HandlesSnoc(a, two);
    HandlesSnoc(b, phandle);
    HandlesSnoc(c, closes);
    HandlesSnoc(d, closes);
    hide Handles;
    assert [] + [opens] == a && a + [two] == b && b + [phandle] == c && c + [closes] == d;
    assert d + [closes] == [opens, two, phandle, closes, closes];
  }

  lemma HandlesSnoc(lines: seq<string>, last: string)
    ensures Handles(lines + [last]) == if HasPhandle(last) then Handles(lines) + [Handle(last)] else Handles(lines)
    ensures lines == [] ==> Handles(lines) == []
  {
    assert (lines + [last])[..|lines|] == lines;
  }

  lemma CrowdedIsLegal(root: string, opens: string, two: string, phandle: string, closes: string)
    requires SeenAs(root, opens, two, phandle, closes)
    ensures Legal(Crowded(root, opens, two, phandle, closes))
  {
    CrowdedIsBlock(root, opens, two, phandle, closes);
    CrowdedHasOneHandle(root, opens, two, phandle, closes);
    OneLine(root);
    var names := [root, two, phandle, closes, ""];
    assert !NamesBlock(names[0]) && !NamesBlock(names[1]) && !NamesBlock(names[2]) && !NamesBlock(names[3]);
    assert !NamesBlock(names[4]);
    hide HasPhandle, Handle, NamesBlock, BraceDelta, LineBalance, IsBlock, Handles;
  }

  lemma SumOfThree(a: string, b: string, c: string)
    ensures TextBalance([a, b, c]) == Braces(a) + Braces(b) + Braces(c)
  {
    OneLine(a);
    OneLine(b);
    OneLine(c);
    hide Braces, TextBalance;
    TextBalanceAppend([a], [b]);
    TextBalanceAppend([a, b], [c]);
    assert [a] + [b] == [a, b] && [a, b] + [c] == [a, b, c];
  }

  lemma CrowdedBalance(root: string, opens: string, two: string, phandle: string, closes: string)
    ensures var d := Crowded(root, opens, two, phandle, closes);
            && TextBalance(d.items[0].lines) == Braces(opens) + Braces(two) + Braces(phandle) + 2 * Braces(closes)
            && TextBalance(Text(d)) == Braces(root) + TextBalance(d.items[0].lines) + Braces("") + 2 * Braces(closes)
            && TextBalance(Text(d.(items := Select(d.items, "0xb")))) == Braces(root) + 2 * Braces(closes)
  {
    var d, lines := Crowded(root, opens, two, phandle, closes), [opens, two, phandle, closes, closes];
    assert d.items[..0] == [] && Select(d.items, "0xb") == [] && Render(d.items) == [] + LinesOf(d.items[0]);
    assert Text(d.(items := Select(d.items, "0xb"))) == [root, closes, closes];
    assert Text(d) == [root] + lines + ["", closes, closes];
    OneLine(root);
    SumOfThree(root, closes, closes);
    SumOfThree("", closes, closes);
    SumOfThree(opens, two, phandle);
    SumOfThree(phandle, closes, closes);
    OneLine(phandle);
    hide Braces, TextBalance, Text;
    TextBalanceAppend([opens, two], [phandle]);
    TextBalanceAppend([opens, two], [phandle, closes, closes]);
    TextBalanceAppend([root], lines);
    TextBalanceAppend([root] + lines, ["", closes, closes]);
    assert [opens, two] + [phandle] == [opens, two, phandle];
    assert [opens, two] + [phandle, closes, closes] == lines;
  }

  /** A line of a part without braces, at most one brace, and a rest. */
  lemma {:induction false} BracesOf(line: string, a: string, brace: string, b: string)
    requires line == a + brace + b && '{' !in a && '}' !in a && brace in ["", "{", "}"]
    ensures Count(line, '{') == (if brace == "{" then 1 else 0) + Count(b, '{')
    ensures Count(line, '}') == (if brace == "}" then 1 else 0) + Count(b, '}')
    ensures Contains(line, "{") <==> Count(line, '{') > 0
    ensures Contains(line, "}") <==> Count(line, '}') > 0
    ensures b == "" ==> Count(b, '{') == Count(b, '}') == 0
  {
    ContainsCounts(line, '{');
    ContainsCounts(line, '}');
    forall c | c in ['{', '}']
      ensures Count(line, c) == Count(a, c) + Count(brace, c) + Count(b, c) && Count(a, c) == 0
    {
      CountAppend(a + brace, b, c);
      CountAppend(a, brace, c);
      CountAbsent(a, c);
    }
    hide Contains;
    assert Count("{", '{') == 1 && Count("{", '}') == 0 && Count("}", '{') == 0 && Count("}", '}') == 1;
  }

  lemma BracesOfOpening()
    ensures Braces("/ {") == 1 && Braces("external-memory-0 {") == 1 && Braces("x { y {") == 2
    ensures BraceDelta("/ {") == 1 && BraceDelta("external-memory-0 {") == 1 && BraceDelta("x { y {") == 1
  {
    hide Count, Contains;
    BracesOf("/ {", "/ ", "{", "");
    BracesOf("external-memory-0 {", "external-memory-0 ", "{", "");
    BracesOf("x { y {", "x ", "{", " y {");
    BracesOf(" y {", " y ", "{", "");
  }

  lemma BracesOfOthers()
    ensures Braces("phandle = <0xa>;") == 0 && Braces("};") == -1 && Braces("") == 0
    ensures BraceDelta("phandle = <0xa>;") == 0 && BraceDelta("};") == -1 && BraceDelta("") == 0
  {
    hide Count, Contains;
    BracesOf("phandle = <0xa>;", "phandle = <0xa>;", "", "");
    BracesOf("};", "", "}", ";");
    BracesOf(";", ";", "", "");
    BracesOf("", "", "", "");
  }

  lemma StartsContain(s: string, sub: string)
    requires sub <= s
    ensures Contains(s, sub)
  {}

  lemma NamesOfLines()
    ensures NamesBlock("external-memory-0 {") && NoNames(["/ {", "x { y {", "phandle = <0xa>;", "};", ""])
    ensures HasPhandle("phandle = <0xa>;")
    ensures !HasPhandle("external-memory-0 {") && !HasPhandle("x { y {") && !HasPhandle("};")
  {
    hide Contains;
    StartsContain("external-memory-0 {", "external-memory-");
    StartsContain("phandle = <0xa>;", "phandle");
    MissingChar("phandle = <0xa>;", "linux", 'u');
    MissingChar("external-memory-0 {", "phandle", 'p');
    MissingChar("x { y {", "phandle", 'p');
    MissingChar("};", "phandle", 'p');
    MissingChar("/ {", "external-memory-", 'm');
    MissingChar("x { y {", "external-memory-", 'm');
    MissingChar("phandle = <0xa>;", "external-memory-", 'm');
    MissingChar("};", "external-memory-", 'm');
    MissingChar("", "external-memory-", 'm');
  }

  lemma HandleOfLine()
    ensures Handle("phandle = <0xa>;") == Some("0xa")
  {
    hide Handle, Closing;
    assert "phandle = <0xa>;" == "phandle = " + "<0xa>;";
    HandleSkips("phandle = ", "<0xa>;");
    HandleHere("<0xa>;");
  }

  lemma HandleHere(s: string)
    requires s == "<0xa>;"
    ensures Handle(s) == Some("0xa")
  {
    assert Closing(s, 4) == Some(4) && Closing(s, 3) == Some(4) && Closing(s, 2) == Some(4);
    assert s[1..4] == "0xa";
  }

  /** A balanced text that is laid out as `Legal` asks, apart from two braces on one line: its table is not balanced
      brace by brace, and dropping the table leaves one closing brace too many. */
  lemma TrimBreaksBalance()
    ensures var d := Crowded("/ {", "external-memory-0 {", "x { y {", "phandle = <0xa>;", "};");
            && Legal(d) && TextBalance(Text(d)) == 0 && TextBalance(d.items[0].lines) == 1
            && TextBalance(Text(d.(items := Select(d.items, "0xb")))) == -1
  {
    hide Braces, BraceDelta, NamesBlock, NoNames, HasPhandle, Handle, Legal, Text, TextBalance, Select;
    BracesOfOpening();
    BracesOfOthers();
    NamesOfLines();
    HandleOfLine();
    CrowdedIsLegal("/ {", "external-memory-0 {", "x { y {", "phandle = <0xa>;", "};");
    CrowdedBalance("/ {", "external-memory-0 {", "x { y {", "phandle = <0xa>;", "};");
  }
}
