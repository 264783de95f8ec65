/** The whole trimming run on a BPMP device tree source: straps, tables, choices, rewriting, writing. */
module DtsTrimRun {
  import opened Bytes
  import opened Strings
  import opened DtsTrim
  import opened DtsTrimDocument
  import opened DtsStraps

  /** What the writing loop leaves: everything visible, or everything visible before the first line that raises. */
  predicate IsWritten(lines: seq<string>, starts: seq<nat>, ends: seq<nat>, valid: seq<bool>, written: seq<string>,
      stop: nat)
    requires |starts| == |ends|
  {
    && stop <= |lines| && written == Visible(0, lines[..stop], starts, ends, valid)
    && (forall i :: 0 <= i < stop ==> !Raises(i, starts, ends, valid))
    && (stop < |lines| ==> Raises(stop, starts, ends, valid))
  }

  /** What the strap line becomes; None for an exception. */
  function NewStrapLine(sub: Sub, straps: Straps, ramcode: nat, lines: seq<string>): Option<string>
    requires straps.line < |lines|
  {
    if ramcode < |straps.handles|
    then Rewritten(sub, straps.handles, straps.handles[ramcode], lines[straps.line]) else None
  }

  lemma {:induction false} StrapsAreFound(lines: seq<string>, i: nat, k: nat)
    requires i <= k && k + 1 < |lines| && Contains(lines[k], STRAP) && Handle(lines[k + 1]).Some?
    requires forall j :: i <= j < k ==> !Contains(lines[j], STRAP)
    ensures StrapsFrom(lines, i) == Some(Straps(k + 1, Split(Handle(lines[k + 1]).value, ' ')))
    decreases k - i
  {
    hide Contains, Handle, Split;
    if i < k { StrapsAreFound(lines, i + 1, k); }
  }

  /** A strap node as it is printed. */
  lemma StrapNodeIsFound(handles: seq<string>)
    requires AllPrinted(handles) && handles != []
    ensures StrapsFrom(["emc-strap {", StrapLine("select = ", handles, ";")], 0) == Some(Straps(1, handles))
  {
    hide StrapLine, Handle, Split, AllPrinted;
    assert STRAP <= "emc-strap {";
    StrapLineIsRead("select = ", handles, ";");
    StrapsAreFound(["emc-strap {", StrapLine("select = ", handles, ";")], 0, 0);
  }

  /** Behind the first strap node, a line of printed handles is read, and is left with the selected one alone exactly if
      no handle that goes is in front of one that stays or goes later. */
  lemma StrapsAreTrimmed(sub: Sub, ramcode: nat, lines: seq<string>, k: nat, front: string, handles: seq<string>,
      back: string)
    requires k + 1 < |lines| && Contains(lines[k], STRAP) && forall j :: 0 <= j < k ==> !Contains(lines[j], STRAP)
    requires lines[k + 1] == StrapLine(front, handles, back)
    requires ValidSub(sub) && AllPrinted(handles) && ramcode < |handles|
    requires '<' !in front && 'x' !in front && 'x' !in back
    ensures StrapsFrom(lines, 0) == Some(Straps(k + 1, handles))
    ensures (NewStrapLine(sub, Straps(k + 1, handles), ramcode, lines)
             == Some(StrapLine(front, OneLeft(handles, handles[ramcode]), back)))
        <==> LongerGoFirst(handles, handles[ramcode])
  {
    hide StrapsFrom, Contains, Handle, Split, Rewritten, StrapLine, ValidSub, AllPrinted, LongerGoFirst, OneLeft;
    StrapLineIsRead(front, handles, back);
    StrapsAreFound(lines, 0, k);
    StrapLineExactly(sub, handles, ramcode, front, back);
  }

  /** The texts differ in what line k has become, if that line is not dropped. */
  predicate SameBut(a: seq<string>, b: seq<string>, lines: seq<string>, starts: seq<nat>, ends: seq<nat>,
      valid: seq<bool>, k: nat, x: string)
    requires |starts| == |ends| && k < |lines|
  {
    var at := |Visible(0, lines[..k], starts, ends, valid)|;
    if Hidden(k, starts, ends, valid) then a == b else at < |b| && b[at] == lines[k] && a == b[at := x]
  }

  /** The trimming steps in order, and the source that is then compiled; None if an exception ends them. The caller
      compares the positions, and the outcome of the writing step, with the text "-1", which they never equal: a
      source without usable tables raises, and a partly written one is compiled. */
  method Trim(sub: Sub, ramcode: nat, lines: seq<string>)
    returns (r: Option<seq<string>>, ghost starts: seq<nat>, ghost ends: seq<nat>, ghost stop: nat)
    ensures StrapsFrom(lines, 0).None? || Found(ScanFrom(SCAN_START, 0, lines)).None? ==> r.None?
    ensures StrapsFrom(lines, 0).Some? && Found(ScanFrom(SCAN_START, 0, lines)).Some? ==>
              && (starts, ends) == Found(ScanFrom(SCAN_START, 0, lines)).value
              && |starts| == |ends| && (forall k :: 0 <= k < |starts| ==> starts[k] <= ends[k] <= |lines|)
              && var straps := StrapsFrom(lines, 0).value;
              var valid := AllChoices(lines, starts, ends, StrapHandle(straps.handles, ramcode));
              var line := NewStrapLine(sub, straps, ramcode, lines);
              && (r.Some? <==> valid.Some? && line.Some?)
              && (r.Some? ==> IsWritten(lines[straps.line := line.value], starts, ends, valid.value, r.value, stop))
              && forall d: Document :: Legal(d) && Text(d) == lines && HasTable(d) && line.Some? ==>
                   && r.Some?
                   && SameBut(r.value, Text(d.(items := Select(d.items, straps.handles[ramcode]))), lines, starts, ends,
                              valid.value, straps.line, line.value)
  {
    hide ScanFrom, StrapsFrom, AllChoices, Visible, Ordered, Raises, Legal, Text, Hidden, HasTable, Rewritten;
    hide SameBut, IsWritten;
    r, starts, ends, stop := None, [], [], 0;
    var straps := GetStrapHandles(lines);
    if straps.None? { return; }
    var found := SaveTablePos(lines);
    if found.None? { return; }
    FoundAreOrdered(lines);
    var (first, last) := found.value;
    starts, ends := first, last;
    OrderedBounds(first, last, |lines|);
    var Straps(k, handles) := straps.value;
    ghost var choices := AllChoices(lines, first, last, StrapHandle(handles, ramcode));
    forall d: Document | Legal(d) && Text(d) == lines && HasTable(d) && ramcode < |handles| ensures choices.Some? {
      TrimSelects(d, handles[ramcode]);
    }
    var valid := UpdateValidEntries(ramcode, lines, first, last, handles);
    if valid.None? { return; }
    var line := RewriteStraps(sub, handles, ramcode, lines[k]);
    if line.None? { return; }
    var ok, written;
    ok, written, stop := RemoveUnused(lines[k := line.value], first, last, valid.value);
    WrittenIs(lines[k := line.value], first, last, valid.value, written, stop);
    r := Some(written);
    forall d: Document | Legal(d) && Text(d) == lines && HasTable(d)
      ensures SameBut(written, Text(d.(items := Select(d.items, handles[ramcode]))), lines, first, last, valid.value, k,
                      line.value)
    {
      TrimSelects(d, handles[ramcode]);
      AllWritten(lines[k := line.value], first, last, valid.value, written, stop);
      VisibleUpdate(lines, k, line.value, first, last, valid.value);
    }
  }

  lemma WrittenIs(lines: seq<string>, starts: seq<nat>, ends: seq<nat>, valid: seq<bool>, written: seq<string>,
      stop: nat)
    requires |starts| == |ends| && stop <= |lines| && written == Visible(0, lines[..stop], starts, ends, valid)
    requires forall i :: 0 <= i < stop ==> !Raises(i, starts, ends, valid)
    requires stop < |lines| ==> Raises(stop, starts, ends, valid)
    ensures IsWritten(lines, starts, ends, valid, written, stop)
  {}

  /** Changing a line changes it where it stays visible. */
  lemma VisibleUpdate(lines: seq<string>, k: nat, x: string, starts: seq<nat>, ends: seq<nat>, valid: seq<bool>)
    requires |starts| == |ends| && k < |lines|
    ensures SameBut(Visible(0, lines[k := x], starts, ends, valid), Visible(0, lines, starts, ends, valid),
                    lines, starts, ends, valid, k, x)
  {
    hide Visible, Hidden;
    var front, back := lines[..k], lines[k + 1..];
    VisibleAround(front, lines[k], back, starts, ends, valid);
    VisibleAround(front, x, back, starts, ends, valid);
    assert lines == front + [lines[k]] + back && lines[k := x] == front + [x] + back;
  }

  lemma VisibleAround(front: seq<string>, line: string, back: seq<string>, starts: seq<nat>, ends: seq<nat>,
      valid: seq<bool>)
    requires |starts| == |ends|
    ensures Visible(0, front + [line] + back, starts, ends, valid)
         == Visible(0, front, starts, ends, valid) + (if Hidden(|front|, starts, ends, valid) then [] else [line])
            + Visible(|front| + 1, back, starts, ends, valid)
  {
    hide Hidden, Visible;
    VisibleAppend(0, front + [line], back, starts, ends, valid);
    VisibleAppend(0, front, [line], starts, ends, valid);
    VisibleLine(|front|, line, starts, ends, valid);
  }

  lemma VisibleLine(i: nat, line: string, starts: seq<nat>, ends: seq<nat>, valid: seq<bool>)
    requires |starts| == |ends|
    ensures Visible(i, [line], starts, ends, valid) == if Hidden(i, starts, ends, valid) then [] else [line]
  {
    hide Hidden;
    assert [line][1..] == [];
  }

  lemma AllWritten(lines: seq<string>, starts: seq<nat>, ends: seq<nat>, valid: seq<bool>,
      written: seq<string>, stop: nat)
    requires |starts| == |ends| == |valid| && IsWritten(lines, starts, ends, valid, written, stop)
    ensures written == Visible(0, lines, starts, ends, valid)
  {
    hide Visible, Hidden;
    assert lines[..|lines|] == lines;
  }

  lemma OrderedBounds(starts: seq<nat>, ends: seq<nat>, n: nat)
    requires Ordered(starts, ends, n)
    ensures |starts| == |ends| && forall k :: 0 <= k < |starts| ==> starts[k] <= ends[k] <= n
  {}
}
