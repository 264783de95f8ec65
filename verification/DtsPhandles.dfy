/** Which lines of a device tree source the trimmer looks at, in terms of where text stands in them. */
module DtsPhandles {
  import opened Bytes
  import opened DtsTrim
  import opened DtsTrimDocument
  import opened DtsBraces
  import opened DtsStraps

  /** sub stands at some place in s. */
  ghost predicate Occurs(s: string, sub: string) {
    exists i: nat :: StandsAt(s, sub, i)
  }

  predicate StandsAt(s: string, sub: string, i: nat) {
    i + |sub| <= |s| && s[i..i + |sub|] == sub
  }

  lemma {:induction false} ContainsExactly(s: string, sub: string)
    ensures Contains(s, sub) <==> Occurs(s, sub)
    decreases |s|
  {
    if s != "" {
      ContainsExactly(s[1..], sub);
      if i: nat :| StandsAt(s, sub, i) {
        if i > 0 { assert StandsAt(s[1..], sub, i - 1); }
      }
      if sub <= s { assert StandsAt(s, sub, 0); }
      if i: nat :| StandsAt(s[1..], sub, i) { assert StandsAt(s, sub, i + 1); }
    } else {
      if sub <= s { assert StandsAt(s, sub, 0); }
    }
  }

  /** What the trimmer sees of a line: "phandle" without "linux", "external-memory-", and braces. */
  lemma LinesExactly(line: string)
    ensures HasPhandle(line) <==> Occurs(line, "phandle") && !Occurs(line, "linux")
    ensures NamesBlock(line) <==> Occurs(line, "external-memory-")
    ensures BraceDelta(line) == (if Occurs(line, "{") then 1 else 0) - if Occurs(line, "}") then 1 else 0
  {
    hide Contains, Occurs;
    ContainsExactly(line, "phandle");
    ContainsExactly(line, "linux");
    ContainsExactly(line, "external-memory-");
    ContainsExactly(line, "{");
    ContainsExactly(line, "}");
  }

  /** The scanner starts a block on every line with "external-memory-", and on no other, in order. */
  lemma {:induction false} StartsExactly(s: Scan, i: nat, lines: seq<string>)
    ensures var r := ScanFrom(s, i, lines).starts;
            && s.starts <= r
            && (forall k :: |s.starts| <= k < |r|
                  ==> i <= r[k] < i + |lines| && Occurs(lines[r[k] - i], "external-memory-"))
            && (forall k, l :: |s.starts| <= k < l < |r| ==> r[k] < r[l])
            && (forall j :: i <= j < i + |lines| && Occurs(lines[j - i], "external-memory-") ==> j in r)
    decreases |lines|
  {
    hide BraceDelta, NamesBlock, Occurs;
    if lines != [] {
      LinesExactly(lines[0]);
      var t := Step(s, i, lines[0]);
      StartsExactly(t, i + 1, lines[1..]);
      var r := ScanFrom(s, i, lines).starts;
      assert s.starts <= t.starts <= r;
      forall j | i <= j < i + |lines| && Occurs(lines[j - i], "external-memory-") ensures j in r {
        if j == i {
          assert t.starts[|s.starts|] == i == r[|s.starts|];
        } else {
          assert lines[1..][j - i - 1] == lines[j - i];
        }
      }
      forall k | |s.starts| <= k < |r| ensures i <= r[k] < i + |lines| && Occurs(lines[r[k] - i], "external-memory-") {
        if k >= |t.starts| {
          assert lines[1..][r[k] - i - 1] == lines[r[k] - i];
        } else {
          assert r[k] == t.starts[k] == i;
        }
      }
    }
  }

  // --- old and new phandle lines ------------------------------------------------------------------------

  function OldLine(w: string): string {
    "linux,phandle = <" + w + ">;"
  }

  function NewLine(w: string): string {
    "phandle = <" + w + ">;"
  }

  lemma MissingFrom(w: string, c: char)
    requires IsPrinted(w) && c in ['u', 'm', '{', '}']
    ensures c !in NewLine(w) && (c != 'u' ==> c !in OldLine(w))
  {
    assert c !in w;
  }

  lemma OldLineIs(w: string)
    requires IsPrinted(w)
    ensures !HasPhandle(OldLine(w)) && !NamesBlock(OldLine(w)) && BraceDelta(OldLine(w)) == 0
  {
    hide Contains;
    var line := OldLine(w);
    assert "linux" <= line;
    StartsContain(line, "linux");
    MissingFrom(w, 'm');
    MissingFrom(w, '{');
    MissingFrom(w, '}');
    hide OldLine;
    MissingChar(line, "external-memory-", 'm');
    MissingChar(line, "{", '{');
    MissingChar(line, "}", '}');
  }

  lemma NewLineIs(w: string)
    requires IsPrinted(w)
    ensures HasPhandle(NewLine(w)) && Handle(NewLine(w)) == Some(w)
    ensures !NamesBlock(NewLine(w)) && BraceDelta(NewLine(w)) == 0
  {
    hide Contains, Handle;
    var line := NewLine(w);
    assert "phandle" <= line;
    StartsContain(line, "phandle");
    MissingFrom(w, 'u');
    MissingFrom(w, 'm');
    MissingFrom(w, '{');
    MissingFrom(w, '}');
    HandleSkips("phandle = ", "<" + (w + ">" + ";"));
    HandleOfBrackets(w, ";");
    assert line == "phandle = " + ("<" + (w + ">" + ";"));
    hide NewLine;
    MissingChar(line, "linux", 'u');
    MissingChar(line, "external-memory-", 'm');
    MissingChar(line, "{", '{');
    MissingChar(line, "}", '}');
  }

  /** Of an old and a new phandle line, only the new one counts. */
  lemma OldLinesAreSkipped(w: string, v: string)
    requires IsPrinted(w)
    ensures Choices([OldLine(w), NewLine(w)], Some(v)) == Some([w == v])
  {
    hide HasPhandle, Handle, OldLine, NewLine;
    OldLineIs(w);
    NewLineIs(w);
    ChoicesSnoc([], OldLine(w), Some(v));
    ChoicesSnoc([OldLine(w)], NewLine(w), Some(v));
    hide Choices;
    assert [] + [OldLine(w)] == [OldLine(w)] && [OldLine(w)] + [NewLine(w)] == [OldLine(w), NewLine(w)];
    assert [] + [w == v] == [w == v];
  }

  lemma ChoicesSnoc(lines: seq<string>, line: string, selected: Option<string>)
    ensures lines == [] ==> Choices(lines, selected) == Some([])
    ensures var before := Choices(lines, selected);
            Choices(lines + [line], selected)
            == if before.None? || !HasPhandle(line) then before
               else if Handle(line).None? || selected.None? then None
               else Some(before.value + [Handle(line) == selected])
  {
    assert (lines + [line])[..|lines|] == lines;
  }

  // --- a table with both lines ----------------------------------------------------------------------------

  const OPENS := "external-memory-0 {"
  const CLOSES := "};"

  function TableOf(w: string): Item {
    Table([OPENS, OldLine(w), NewLine(w), CLOSES], w, "")
  }

  lemma FrameOfTable()
    ensures NamesBlock(OPENS) && BraceDelta(OPENS) == 1 && !HasPhandle(OPENS)
    ensures !NamesBlock(CLOSES) && BraceDelta(CLOSES) == -1 && !HasPhandle(CLOSES)
    ensures !NamesBlock("") && BraceDelta("") == 0
    ensures !NamesBlock("/ {") && BraceDelta("/ {") == 1
  {
    hide NamesBlock, HasPhandle, BraceDelta, NoNames;
    BracesOfOpening();
    BracesOfOthers();
    NamesOfLines();
    NoNamesAt(["/ {", "x { y {", "phandle = <0xa>;", "};", ""]);
  }

  lemma NoNamesAt(lines: seq<string>)
    requires |lines| == 5 && NoNames(lines)
    ensures !NamesBlock(lines[0]) && !NamesBlock(lines[3]) && !NamesBlock(lines[4])
  {}

  lemma FourLines(a: string, b: string, c: string, d: string, w: string)
    requires NamesBlock(a) && !NamesBlock(b) && !NamesBlock(c) && !NamesBlock(d)
    requires BraceDelta(a) == 1 && BraceDelta(b) == 0 && BraceDelta(c) == 0 && BraceDelta(d) == -1
    requires !HasPhandle(a) && !HasPhandle(b) && HasPhandle(c) && !HasPhandle(d) && Handle(c) == Some(w)
    ensures IsBlock([a, b, c, d], 0, 4) && Handles([a, b, c, d]) == [Some(w)]
  {
    hide NamesBlock, BraceDelta, HasPhandle, Handle;
    var lines := [a, b, c, d];
    BalanceTo(lines, 0, 0);
    BalanceTo(lines, 0, 1);
    BalanceTo(lines, 0, 2);
    BalanceTo(lines, 0, 3);
    assert lines[0..0] == [] && ScanBalance([]) == 0;
    HandlesSnoc([], a);
    HandlesSnoc([a], b);
    HandlesSnoc([a, b], c);
    HandlesSnoc([a, b, c], d);
    hide ScanBalance, Handles;
    assert [] + [a] == [a] && [a] + [b] == [a, b] && [a, b] + [c] == [a, b, c] && [a, b, c] + [d] == lines;
    assert ScanBalance(lines[0..1]) > 0 && ScanBalance(lines[0..2]) > 0 && ScanBalance(lines[0..3]) > 0;
  }

  /** Such a table is legal, with its one handle. */
  lemma TableIsLegal(w: string)
    requires IsPrinted(w)
    ensures LegalItem(TableOf(w))
  {
    hide NamesBlock, BraceDelta, HasPhandle, Handle, OldLine, NewLine, IsBlock, Handles;
    FrameOfTable();
    OldLineIs(w);
    NewLineIs(w);
    FourLines(OPENS, OldLine(w), NewLine(w), CLOSES, w);
  }

  /** Of two such tables, the one that is not selected goes. */
  lemma OtherTableGoes(w: string, v: string)
    requires IsPrinted(w) && IsPrinted(v) && w != v
    ensures var d := Document(["/ {"], [TableOf(w), TableOf(v)], [CLOSES]);
            && Legal(d) && HasTable(d)
            && Text(d.(items := Select(d.items, w)))
               == ["/ {", OPENS, OldLine(w), NewLine(w), CLOSES, "", CLOSES]
  {
    hide NamesBlock, BraceDelta, OldLine, NewLine, LegalItem, LineBalance, Select, Render;
    var a, b := TableOf(w), TableOf(v);
    TableIsLegal(w);
    TableIsLegal(v);
    FrameOfTable();
    OneLine("/ {");
    TwoTablesAreLegal("/ {", a, b, CLOSES);
    SelectOfTwo(a, b, w);
    RenderOfOne(a);
    LinesOfTable(w);
  }

  lemma LinesOfTable(w: string)
    ensures ["/ {"] + LinesOf(TableOf(w)) + [CLOSES] == ["/ {", OPENS, OldLine(w), NewLine(w), CLOSES, "", CLOSES]
  {
    hide OldLine, NewLine;
  }

  lemma TwoTablesAreLegal(root: string, a: Item, b: Item, closes: string)
    requires !NamesBlock(root) && LineBalance([root]) == 1 && !NamesBlock(closes)
    requires LegalItem(a) && LegalItem(b) && a.Table?
    ensures Legal(Document([root], [a, b], [closes])) && HasTable(Document([root], [a, b], [closes]))
  {
    hide NamesBlock, LegalItem, LineBalance;
    assert [a, b][0].Table?;
  }

  lemma SelectOfTwo(a: Item, b: Item, w: string)
    requires a.Table? && b.Table? && a.handle == w != b.handle
    ensures Select([a, b], w) == [a]
  {
    assert [a, b][..1] == [a] && [a][..0] == [];
    assert Select([a], w) == [] + [a];
  }

  lemma RenderOfOne(a: Item)
    ensures Render([a]) == LinesOf(a)
  {
    assert [a][..0] == [];
  }
}
