/** Trimming a device tree source that is laid out as `dtc` writes it: the external-memory tables lie directly under
    the root, have one phandle line each and are followed by a blank line. */
module DtsTrimDocument {
  import opened Bytes
  import opened Sequences
  import opened DtsTrim

  // --- documents --------------------------------------------------------------------------------------

  datatype Item =
    | Other(lines: seq<string>)
    | Table(lines: seq<string>, handle: string, blank: string)

  function LinesOf(item: Item): seq<string> {
    match item
    case Other(lines) => lines
    case Table(lines, _, blank) => lines + [blank]
  }

  function Render(items: seq<Item>): seq<string> {
    if items == [] then [] else Render(items[..|items| - 1]) + LinesOf(items[|items| - 1])
  }

  predicate NoNames(lines: seq<string>) {
    forall i :: 0 <= i < |lines| ==> !NamesBlock(lines[i])
  }

  /** The handles of the phandle lines. */
  function Handles(lines: seq<string>): seq<Option<string>> {
    if lines == [] then [] else
      var before, last := Handles(lines[..|lines| - 1]), lines[|lines| - 1];
      if HasPhandle(last) then before + [Handle(last)] else before
  }

  predicate LegalItem(item: Item) {
    match item
    case Other(lines) => NoNames(lines) && LineBalance(lines) == 0
    case Table(lines, handle, blank) =>
      && IsBlock(lines, 0, |lines|) && NoNames(lines[1..]) && BraceDelta(lines[0]) == 1
      && Handles(lines) == [Some(handle)]
      && !NamesBlock(blank) && BraceDelta(blank) == 0
  }

  /** The root node is opened before the items and closed after them. */
  datatype Document = Document(prefix: seq<string>, items: seq<Item>, suffix: seq<string>)

  predicate Legal(d: Document) {
    && NoNames(d.prefix) && LineBalance(d.prefix) == 1
    && (forall i :: 0 <= i < |d.items| ==> LegalItem(d.items[i]))
    && NoNames(d.suffix)
  }

  function Text(d: Document): seq<string> {
    d.prefix + Render(d.items) + d.suffix
  }

  /** The tables with the wanted handle, and everything that is not a table. */
  function Select(items: seq<Item>, selected: string): seq<Item> {
    if items == [] then [] else
      var before, last := Select(items[..|items| - 1], selected), items[|items| - 1];
      if last.Table? && last.handle != selected then before else before + [last]
  }

  // --- where the tables are ---------------------------------------------------------------------------

  function Starts(items: seq<Item>, offset: nat): seq<nat> {
    if items == [] then [] else
      var n := |items| - 1;
      var before := Starts(items[..n], offset);
      if items[n].Table? then before + [offset + |Render(items[..n])|] else before
  }

  function Ends(items: seq<Item>, offset: nat): (r: seq<nat>)
    ensures |r| == |Starts(items, offset)|
  {
    if items == [] then [] else
      var n := |items| - 1;
      var before := Ends(items[..n], offset);
      if items[n].Table? then before + [offset + |Render(items[..n])| + |items[n].lines|] else before
  }

  function Chosen(items: seq<Item>, offset: nat, selected: string): (r: seq<bool>)
    ensures |r| == |Starts(items, offset)|
  {
    if items == [] then [] else
      var n := |items| - 1;
      var before := Chosen(items[..n], offset, selected);
      if items[n].Table? then before + [items[n].handle == selected] else before
  }

  // --- the scan ---------------------------------------------------------------------------------------

  lemma {:induction false} ScanNoNames(s: Scan, i: nat, lines: seq<string>)
    requires NoNames(lines) && |s.starts| == |s.ends|
    ensures ScanFrom(s, i, lines) == s.(count := s.count + LineBalance(lines))
    decreases |lines|
  {
    hide NamesBlock, BraceDelta;
    if lines != [] {
      ScanNoNames(Step(s, i, lines[0]), i + 1, lines[1..]);
      BalanceHead(lines);
    }
  }

  lemma BalanceHead(lines: seq<string>)
    requires lines != []
    ensures LineBalance(lines) == BraceDelta(lines[0]) + LineBalance(lines[1..])
  {
    assert lines == [lines[0]] + lines[1..];
    BalanceAppend([lines[0]], lines[1..]);
    assert [lines[0]][..0] == [];
  }

  /** From inside a table the scan runs to its last line. */
  lemma {:induction false} ScanInside(s: Scan, lines: seq<string>, offset: nat, j: nat)
    requires 0 < j < |lines| && IsBlock(lines, 0, |lines|) && NoNames(lines[1..])
    requires s.count == ScanBalance(lines[..j]) && |s.starts| == |s.ends| + 1
    ensures ScanFrom(s, offset + j, lines[j..]) == Scan(0, s.starts, s.ends + [offset + |lines|])
    decreases |lines| - j
  {
    assert !NamesBlock(lines[1..][j - 1]);
    hide NamesBlock, BraceDelta;
    BalanceTo(lines, 0, j);
    assert lines[0..j + 1] == lines[..j + 1] && lines[0..|lines|] == lines;
    assert lines[j..][1..] == lines[j + 1..];
    if j + 1 < |lines| {
      assert ScanBalance(lines[0..j + 1]) > 0;
      ScanInside(Step(s, offset + j, lines[j]), lines, offset, j + 1);
    }
  }

  lemma ScanItem(s: Scan, offset: nat, item: Item)
    requires LegalItem(item) && s.count == 0 && |s.starts| == |s.ends|
    ensures ScanFrom(s, offset, LinesOf(item))
         == match item
            case Other(_) => s
            case Table(lines, _, _) => Scan(0, s.starts + [offset], s.ends + [offset + |lines|])
  {
    match item {
      case Other(lines) => ScanNoNames(s, offset, lines);
      case Table(lines, _, blank) =>
        hide NamesBlock, BraceDelta;
        TableIsLong(lines);
        ScanAppend(s, offset, lines, [blank]);
        assert lines[1..] == lines[1..|lines|];
        ScanInside(Step(s, offset, lines[0]), lines, offset, 1);
        assert [blank][1..] == [];
    }
  }

  lemma TableIsLong(lines: seq<string>)
    requires IsBlock(lines, 0, |lines|)
    ensures |lines| > 1 && ScanBalance(lines[..1]) == 1
  {
    assert lines[..1][..0] == [] && ScanBalance(lines[..1]) == 1;
    assert lines[0..1] == lines[..1];
  }

  lemma {:induction false} ScanItems(items: seq<Item>, s: Scan, offset: nat)
    requires (forall i :: 0 <= i < |items| ==> LegalItem(items[i])) && s == Scan(0, [], [])
    ensures ScanFrom(s, offset, Render(items)) == Scan(0, Starts(items, offset), Ends(items, offset))
    decreases |items|
  {
    hide LegalItem, Step, LinesOf;
    if items != [] {
      var n := |items| - 1;
      ScanItems(items[..n], s, offset);
      ScanAppend(s, offset, Render(items[..n]), LinesOf(items[n]));
      ScanItem(Scan(0, Starts(items[..n], offset), Ends(items[..n], offset)), offset + |Render(items[..n])|, items[n]);
    }
  }

  /** The scanner finds exactly the tables. */
  lemma ScanFindsTables(d: Document)
    requires Legal(d)
    ensures var s := ScanFrom(SCAN_START, 0, Text(d));
            s.starts == Starts(d.items, |d.prefix|) && s.ends == Ends(d.items, |d.prefix|)
  {
    hide LegalItem, Step, Render, Starts, Ends;
    ScanAppend(SCAN_START, 0, d.prefix + Render(d.items), d.suffix);
    ScanAppend(SCAN_START, 0, d.prefix, Render(d.items));
    ScanNoNames(SCAN_START, 0, d.prefix);
    ScanItems(d.items, Scan(0, [], []), |d.prefix|);
    ScanNoNames(Scan(0, Starts(d.items, |d.prefix|), Ends(d.items, |d.prefix|)), |d.prefix| + |Render(d.items)|,
                d.suffix);
  }

  // --- the choice -------------------------------------------------------------------------------------

  lemma {:induction false} NoHandles(lines: seq<string>, selected: string)
    requires Handles(lines) == []
    ensures Choices(lines, Some(selected)) == Some([])
    decreases |lines|
  {
    hide HasPhandle, Handle;
    if lines != [] { NoHandles(lines[..|lines| - 1], selected); }
  }

  lemma {:induction false} OneHandle(lines: seq<string>, handle: string, selected: string)
    requires Handles(lines) == [Some(handle)]
    ensures Choices(lines, Some(selected)) == Some([handle == selected])
    decreases |lines|
  {
    hide HasPhandle, Handle;
    var n := |lines| - 1;
    if HasPhandle(lines[n]) {
      assert |Handles(lines[..n])| == 0;
      assert Handles(lines)[0] == Handle(lines[n]);
      NoHandles(lines[..n], selected);
      assert [] + [handle == selected] == [handle == selected];
    } else {
      OneHandle(lines[..n], handle, selected);
    }
  }

  /** One more item: the earlier tables keep their places. */
  lemma PlacesSnoc(items: seq<Item>, offset: nat, selected: string)
    requires items != []
    ensures var n := |items| - 1;
            var starts, ends, chosen := Starts(items, offset), Ends(items, offset), Chosen(items, offset, selected);
            var c := |Starts(items[..n], offset)|;
            && |starts| == (if items[n].Table? then c + 1 else c)
            && starts[..c] == Starts(items[..n], offset) && ends[..c] == Ends(items[..n], offset)
            && chosen[..c] == Chosen(items[..n], offset, selected)
            && (items[n].Table? ==>
                  && starts[c] == offset + |Render(items[..n])|
                  && ends[c] == offset + |Render(items[..n])| + |items[n].lines|
                  && chosen[c] == (items[n].handle == selected))
            && |Render(items)| == |Render(items[..n])| + |LinesOf(items[n])|
  {}

  lemma {:induction false} PositionsInText(items: seq<Item>, offset: nat)
    ensures var starts, ends := Starts(items, offset), Ends(items, offset);
            forall k :: 0 <= k < |starts| ==> offset <= starts[k] <= ends[k] < offset + |Render(items)|
    decreases |items|
  {
    if items != [] {
      var n := |items| - 1;
      PlacesSnoc(items, offset, "");
      PositionsInText(items[..n], offset);
      hide Starts, Ends, Render, Chosen;
      var starts, ends, c := Starts(items, offset), Ends(items, offset), |Starts(items[..n], offset)|;
      forall k | 0 <= k < |starts| ensures offset <= starts[k] <= ends[k] < offset + |Render(items)| {
        if k < c { assert starts[k] == starts[..c][k] && ends[k] == ends[..c][k]; }
      }
    }
  }

  lemma {:induction false} ChoicesOfItems(prefix: seq<string>, items: seq<Item>, suffix: seq<string>, selected: string)
    requires forall i :: 0 <= i < |items| ==> LegalItem(items[i])
    ensures forall k :: 0 <= k < |Starts(items, |prefix|)| ==>
              Starts(items, |prefix|)[k] <= Ends(items, |prefix|)[k] <= |prefix + Render(items) + suffix|
    ensures AllChoices(prefix + Render(items) + suffix, Starts(items, |prefix|), Ends(items, |prefix|), Some(selected))
         == Some(Chosen(items, |prefix|, selected))
    decreases |items|
  {
    hide LegalItem, Choices, LinesOf, Starts, Ends, Chosen, Render;
    PositionsInText(items, |prefix|);
    NoPlaces(|prefix|, selected);
    if items != [] {
      PlacesAre(items, |prefix|, selected);
      RenderSnoc(items);
      hide AllChoices;
      var n, o := |items| - 1, |prefix|;
      var front, text := prefix + Render(items[..n]), prefix + Render(items) + suffix;
      PositionsInText(items[..n], o);
      AssociateMiddle(prefix, Render(items[..n]), LinesOf(items[n]), suffix);
      ChoicesOfItems(prefix, items[..n], LinesOf(items[n]) + suffix, selected);
      if items[n].Table? {
        ChoiceOfTable(front, items[n], suffix, selected);
        TableLength(items[n]);
        OneMoreChoice(text, Starts(items[..n], o), Ends(items[..n], o), |front|, |front| + |items[n].lines|, selected,
                      Chosen(items[..n], o, selected), items[n].handle == selected);
      }
    }
  }

  lemma TableLength(item: Item)
    requires item.Table?
    ensures |LinesOf(item)| == |item.lines| + 1
  {}

  lemma NoPlaces(offset: nat, selected: string)
    ensures Starts([], offset) == [] && Ends([], offset) == [] && Chosen([], offset, selected) == []
  {}

  lemma PlacesAre(items: seq<Item>, offset: nat, selected: string)
    requires items != []
    ensures var n, at := |items| - 1, offset + |Render(items[..|items| - 1])|;
            var starts, ends := Starts(items[..n], offset), Ends(items[..n], offset);
            var chosen := Chosen(items[..n], offset, selected);
            && Starts(items, offset) == (if items[n].Table? then starts + [at] else starts)
            && Ends(items, offset) == (if items[n].Table? then ends + [at + |items[n].lines|] else ends)
            && Chosen(items, offset, selected)
               == (if items[n].Table? then chosen + [items[n].handle == selected] else chosen)
  {}

  lemma OneMoreChoice(lines: seq<string>, starts: seq<nat>, ends: seq<nat>, start: nat,
      end: nat, selected: string,
                                         before: seq<bool>, last: bool)
    requires |starts| == |ends| && (forall k :: 0 <= k < |starts| ==> starts[k] <= ends[k] <= |lines|)
    requires start <= end <= |lines|
    requires AllChoices(lines, starts, ends, Some(selected)) == Some(before)
    requires Choices(lines[start..end], Some(selected)) == Some([last])
    ensures AllChoices(lines, starts + [start], ends + [end], Some(selected)) == Some(before + [last])
  {
    hide Choices;
    assert (starts + [start])[..|starts|] == starts && (ends + [end])[..|ends|] == ends;
  }

  lemma ChoiceOfTable(front: seq<string>, item: Item, suffix: seq<string>, selected: string)
    requires LegalItem(item) && item.Table?
    ensures var text := front + (LinesOf(item) + suffix);
            Choices(text[|front|..|front| + |item.lines|], Some(selected)) == Some([item.handle == selected])
  {
    hide Choices, IsBlock, NoNames, Handles, BraceDelta, NamesBlock;
    OneHandle(item.lines, item.handle, selected);
    SliceOfMiddle(front, item.lines, [item.blank] + suffix, 0, |item.lines|);
    assert front + (LinesOf(item) + suffix) == front + item.lines + ([item.blank] + suffix);
  }

  // --- the output -------------------------------------------------------------------------------------

  /** Where item m stands among the tables of the document. */
  lemma {:induction false} Place(items: seq<Item>, offset: nat, selected: string, m: nat)
    requires m < |items|
    ensures var starts, ends, c := Starts(items, offset), Ends(items, offset), |Starts(items[..m], offset)|;
            var at := offset + |Render(items[..m])|;
            && c <= |starts|
            && (forall k :: 0 <= k < c ==> ends[k] < at)
            && (forall k :: c <= k < |starts| && !(k == c && items[m].Table?) ==> starts[k] >= at + |LinesOf(items[m])|)
            && (items[m].Table? ==>
                  && c < |starts| && starts[c] == at && ends[c] == at + |items[m].lines|
                  && Chosen(items, offset, selected)[c] == (items[m].handle == selected))
    decreases |items|
  {
    hide Starts, Ends, Chosen, Render, LinesOf;
    var n := |items| - 1;
    PlacesSnoc(items, offset, selected);
    var starts, ends, before := Starts(items, offset), Ends(items, offset), |Starts(items[..n], offset)|;
    assert forall k :: 0 <= k < before ==> starts[k] == starts[..before][k] && ends[k] == ends[..before][k];
    if m < n {
      Place(items[..n], offset, selected, m);
      assert items[..n][..m] == items[..m];
      RenderGrows(items[..n], m);
      if items[m].Table? {
        var c := |Starts(items[..m], offset)|;
        assert Chosen(items, offset, selected)[c] == Chosen(items, offset, selected)[..before][c];
      }
    } else {
      PositionsInText(items[..n], offset);
    }
  }

  lemma {:induction false} RenderGrows(items: seq<Item>, m: nat)
    requires m < |items|
    ensures |Render(items[..m])| + |LinesOf(items[m])| <= |Render(items)|
    decreases |items|
  {
    hide LinesOf;
    var n := |items| - 1;
    if m < n {
      RenderGrows(items[..n], m);
      assert items[..n][..m] == items[..m];
    }
  }

  lemma VisibleItem(items: seq<Item>, offset: nat, selected: string, m: nat)
    requires m < |items|
    ensures var at := offset + |Render(items[..m])|;
            Visible(at, LinesOf(items[m]), Starts(items, offset), Ends(items, offset), Chosen(items, offset, selected))
            == if items[m].Table? && items[m].handle != selected then [] else LinesOf(items[m])
  {
    Place(items, offset, selected, m);
    hide Starts, Ends, Chosen, Render;
    var at, lines := offset + |Render(items[..m])|, LinesOf(items[m]);
    var starts, ends, valid := Starts(items, offset), Ends(items, offset), Chosen(items, offset, selected);
    if items[m].Table? && items[m].handle != selected {
      var c := |Starts(items[..m], offset)|;
      forall j | at <= j < at + |lines| ensures Hidden(j, starts, ends, valid) {
        assert starts[c] <= j <= ends[c] && !valid[c];
      }
      NoneVisible(at, lines, starts, ends, valid);
    } else {
      forall j | at <= j < at + |lines| ensures !Hidden(j, starts, ends, valid) {
        forall k | 0 <= k < |starts| && starts[k] <= j <= ends[k] ensures valid[k] {}
      }
      AllVisible(at, lines, starts, ends, valid);
    }
  }

  lemma {:induction false} VisibleItems(items: seq<Item>, offset: nat, selected: string, m: nat)
    requires m <= |items|
    ensures Visible(offset, Render(items[..m]), Starts(items, offset), Ends(items, offset),
                    Chosen(items, offset, selected))
         == Render(Select(items[..m], selected))
    decreases m
  {
    hide Visible, Starts, Ends, Chosen, Render, Select, LinesOf;
    NothingRendered(selected);
    if m > 0 {
      VisibleItems(items, offset, selected, m - 1);
      VisibleItem(items, offset, selected, m - 1);
      assert items[..m][..m - 1] == items[..m - 1];
      RenderSnoc(items[..m]);
      VisibleAppend(offset, Render(items[..m - 1]), LinesOf(items[m - 1]), Starts(items, offset), Ends(items, offset),
                    Chosen(items, offset, selected));
      SelectSnoc(items[..m], selected);
    }
  }

  lemma NothingRendered(selected: string)
    ensures Render([]) == [] && Select([], selected) == []
    ensures forall i, starts, ends, valid :: |starts| == |ends| ==> Visible(i, [], starts, ends, valid) == []
  {}

  lemma RenderSnoc(items: seq<Item>)
    requires items != []
    ensures Render(items) == Render(items[..|items| - 1]) + LinesOf(items[|items| - 1])
  {}

  lemma SelectSnoc(items: seq<Item>, selected: string)
    requires items != []
    ensures var n := |items| - 1;
            Render(Select(items, selected))
            == Render(Select(items[..n], selected))
               + if items[n].Table? && items[n].handle != selected then [] else LinesOf(items[n])
  {
    var n, before := |items| - 1, Select(items[..|items| - 1], selected);
    assert (before + [items[n]])[..|before|] == before;
    assert Render(before) + [] == Render(before);
  }

  predicate HasTable(d: Document) {
    exists i :: 0 <= i < |d.items| && d.items[i].Table?
  }

  /** Trimming a document removes exactly the tables that were not chosen, each with the blank line behind it. */
  lemma {:induction false} TrimSelects(d: Document, selected: string)
    requires Legal(d) && HasTable(d)
    ensures var found := Found(ScanFrom(SCAN_START, 0, Text(d)));
            && found.Some?
            && var (starts, ends) := found.value;
            && (forall k :: 0 <= k < |starts| ==> starts[k] <= ends[k] <= |Text(d)|)
            && var valid := AllChoices(Text(d), starts, ends, Some(selected));
            && valid.Some? && |valid.value| == |starts|
            && Visible(0, Text(d), starts, ends, valid.value) == Text(d.(items := Select(d.items, selected)))
  {
    ScanFindsTables(d);
    ChoicesOfItems(d.prefix, d.items, d.suffix, selected);
    hide ScanFrom, AllChoices, Legal;
    var i :| 0 <= i < |d.items| && d.items[i].Table?;
    Place(d.items, |d.prefix|, selected, i);
    VisibleText(d, selected);
  }

  lemma VisibleText(d: Document, selected: string)
    ensures var o := |d.prefix|;
            Visible(0, Text(d), Starts(d.items, o), Ends(d.items, o), Chosen(d.items, o, selected))
            == Text(d.(items := Select(d.items, selected)))
  {
    hide Hidden, Visible, Starts, Ends, Chosen, Render, Select;
    var o := |d.prefix|;
    var starts, ends, valid := Starts(d.items, o), Ends(d.items, o), Chosen(d.items, o, selected);
    VisibleAppend(0, d.prefix + Render(d.items), d.suffix, starts, ends, valid);
    VisibleAppend(0, d.prefix, Render(d.items), starts, ends, valid);
    VisibleItems(d.items, o, selected, |d.items|);
    assert d.items[..|d.items|] == d.items;
    OutsideIsVisible(d.items, o, selected);
    AllVisible(0, d.prefix, starts, ends, valid);
    AllVisible(o + |Render(d.items)|, d.suffix, starts, ends, valid);
  }

  lemma OutsideIsVisible(items: seq<Item>, offset: nat, selected: string)
    ensures forall j: nat :: j < offset || offset + |Render(items)| <= j ==>
              !Hidden(j, Starts(items, offset), Ends(items, offset), Chosen(items, offset, selected))
  {
    PositionsInText(items, offset);
    hide Starts, Ends, Chosen, Render;
  }

  // --- balance ----------------------------------------------------------------------------------------

  lemma ItemIsBalanced(item: Item)
    requires LegalItem(item)
    ensures LineBalance(LinesOf(item)) == 0
  {
    match item {
      case Other(_) =>
      case Table(lines, _, blank) =>
        hide BraceDelta, NamesBlock;
        forall i | 0 <= i < |lines| ensures ScanDelta(lines[i]) == BraceDelta(lines[i]) {
          if i > 0 { assert !NamesBlock(lines[1..][i - 1]); }
        }
        SameBalance(lines);
        assert lines[0..|lines|] == lines;
        BalanceAppend(lines, [blank]);
        assert [blank][..0] == [];
    }
  }

  lemma {:induction false} ItemsAreBalanced(items: seq<Item>)
    requires forall i :: 0 <= i < |items| ==> LegalItem(items[i])
    ensures LineBalance(Render(items)) == 0
    decreases |items|
  {
    hide LegalItem, LinesOf;
    if items != [] {
      var n := |items| - 1;
      ItemsAreBalanced(items[..n]);
      ItemIsBalanced(items[n]);
      BalanceAppend(Render(items[..n]), LinesOf(items[n]));
    }
  }

  lemma {:induction false} SelectedAreLegal(items: seq<Item>, selected: string)
    requires forall i :: 0 <= i < |items| ==> LegalItem(items[i])
    ensures forall i :: 0 <= i < |Select(items, selected)| ==> LegalItem(Select(items, selected)[i])
    decreases |items|
  {
    hide LegalItem;
    if items != [] { SelectedAreLegal(items[..|items| - 1], selected); }
  }

  /** By the scanner's count, the trimmed text is as balanced as the original. */
  lemma TrimKeepsLineBalance(d: Document, selected: string)
    requires Legal(d)
    ensures Legal(d.(items := Select(d.items, selected)))
    ensures LineBalance(Text(d.(items := Select(d.items, selected)))) == LineBalance(Text(d))
    ensures LineBalance(Text(d)) == 1 + LineBalance(d.suffix)
  {
    hide LegalItem;
    var kept := Select(d.items, selected);
    SelectedAreLegal(d.items, selected);
    ItemsAreBalanced(d.items);
    ItemsAreBalanced(kept);
    hide Render, Select, LineBalance;
    BalanceAppend(d.prefix + Render(d.items), d.suffix);
    BalanceAppend(d.prefix, Render(d.items));
    BalanceAppend(d.prefix + Render(kept), d.suffix);
    BalanceAppend(d.prefix, Render(kept));
  }
}
