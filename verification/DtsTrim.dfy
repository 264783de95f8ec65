/** The brace-counting DTS trimmer of tegraflash_internal.py. */
module DtsTrim {
  import opened Bytes

  // --- lines ------------------------------------------------------------------------------------------

  /** sub in s */
  predicate Contains(s: string, sub: string) {
    sub <= s || (s != [] && Contains(s[1..], sub))
  }

  predicate NamesBlock(line: string) {
    Contains(line, "external-memory-")
  }

  predicate HasPhandle(line: string) {
    Contains(line, "phandle") && !Contains(line, "linux")
  }

  /** Where the first '>' at or after i is, before any line end. */
  function Closing(s: string, i: nat): (r: Option<nat>)
    ensures r.Some? ==> i <= r.value < |s|
    decreases |s| - i
  {
    if i >= |s| then None else if s[i] == '>' then Some(i) else if s[i] == '\n' then None else Closing(s, i + 1)
  }

  /** re.search('<(.+?)>', s).group(1): the shortest non-empty text after the leftmost '<' that has one. */
  function Handle(s: string): Option<string> {
    if s == [] then None
    else if s[0] == '<' && |s| > 2 && s[1] != '\n' && Closing(s, 2).Some? then Some(s[1..Closing(s, 2).value])
    else Handle(s[1..])
  }

  lemma {:induction false} HandleSkips(a: string, b: string)
    requires '<' !in a
    ensures Handle(a + b) == Handle(b)
    decreases |a|
  {
    hide Closing;
    if a == "" {
      assert a + b == b;
    } else {
      assert (a + b)[1..] == a[1..] + b;
      HandleSkips(a[1..], b);
    }
  }

  /** How a line changes the depth; several braces of one kind on a line count once. */
  function BraceDelta(line: string): int {
    (if Contains(line, "{") then 1 else 0) - (if Contains(line, "}") then 1 else 0)
  }

  /** How the scanner counts: a line that names a block is taken to open one brace. */
  function ScanDelta(line: string): int {
    if NamesBlock(line) then 1 else BraceDelta(line)
  }

  // --- finding the blocks -----------------------------------------------------------------------------

  datatype Scan = Scan(count: int, starts: seq<nat>, ends: seq<nat>)

  const SCAN_START := Scan(-1, [], [])

  predicate Odd(s: Scan) {
    (|s.starts| + |s.ends|) % 2 == 1
  }

  /** Line number i. */
  function Step(s: Scan, i: nat, line: string): Scan {
    if NamesBlock(line) then Scan(s.count + 1, s.starts + [i], s.ends)
    else
      var count := s.count + BraceDelta(line);
      if count == 0 && Odd(s) then Scan(count, s.starts, s.ends + [i + 1]) else Scan(count, s.starts, s.ends)
  }

  function ScanFrom(s: Scan, i: nat, lines: seq<string>): Scan
    decreases |lines|
  {
    if lines == [] then s else ScanFrom(Step(s, i, lines[0]), i + 1, lines[1..])
  }

  /** The positions are used if there are any, and as many starts as ends. */
  function Found(s: Scan): Option<(seq<nat>, seq<nat>)> {
    if s.starts == [] || s.ends == [] || |s.starts| != |s.ends| then None else Some((s.starts, s.ends))
  }

  /** tegraflash_bpmp_save_table_pos; None stands for the pair (-1, -1). */
  method SaveTablePos(lines: seq<string>) returns (r: Option<(seq<nat>, seq<nat>)>)
    ensures r == Found(ScanFrom(SCAN_START, 0, lines))
  {
    hide Contains;
    var starts: seq<nat>, ends: seq<nat>, count := [], [], -1;
    for i := 0 to |lines|
      invariant ScanFrom(Scan(count, starts, ends), i, lines[i..]) == ScanFrom(SCAN_START, 0, lines)
    {
      assert lines[i..][1..] == lines[i + 1..];
      if Contains(lines[i], "external-memory-") {
        starts := starts + [i];
        count := count + 1;
        continue;
      }
      if Contains(lines[i], "{") { count := count + 1; }
      if Contains(lines[i], "}") { count := count - 1; }
      if count == 0 && (|starts| + |ends|) % 2 == 1 {
        ends := ends + [i + 1];
      }
    }
    if |starts| == 0 || |ends| == 0 || |starts| != |ends| { return None; }
    r := Some((starts, ends));
  }

  lemma {:induction false} ScanAppend(s: Scan, i: nat, a: seq<string>, b: seq<string>)
    ensures ScanFrom(s, i, a + b) == ScanFrom(ScanFrom(s, i, a), i + |a|, b)
    decreases |a|
  {
    hide Step;
    if a == [] {
      assert a + b == b;
    } else {
      assert (a + b)[1..] == a[1..] + b;
      ScanAppend(Step(s, i, a[0]), i + 1, a[1..], b);
    }
  }

  // --- what the positions mean, for any text ----------------------------------------------------------

  /** As long as no two starts have been seen without an end between them, starts and ends alternate. */
  predicate Alternates(s: Scan, i: nat) {
    && |s.ends| <= |s.starts| <= |s.ends| + 1
    && (forall k :: 0 <= k < |s.ends| ==> s.starts[k] < s.ends[k] <= i)
    && (forall k :: 0 <= k < |s.ends| && k + 1 < |s.starts| ==> s.ends[k] <= s.starts[k + 1])
    && (forall k :: 0 <= k < |s.starts| ==> s.starts[k] < i)
  }

  lemma {:induction false} ScanAlternates(s: Scan, i: nat, lines: seq<string>)
    requires Alternates(s, i) || |s.starts| > |s.ends| + 1
    ensures var r := ScanFrom(s, i, lines); Alternates(r, i + |lines|) || |r.starts| > |r.ends| + 1
    decreases |lines|
  {
    hide NamesBlock, BraceDelta;
    if lines != [] { ScanAlternates(Step(s, i, lines[0]), i + 1, lines[1..]); }
  }

  /** Every block ends behind its start and before the next start. */
  predicate Ordered(starts: seq<nat>, ends: seq<nat>, n: nat) {
    && |starts| == |ends|
    && (forall k :: 0 <= k < |starts| ==> starts[k] < ends[k] <= n)
    && (forall k :: 0 <= k < |starts| - 1 ==> ends[k] <= starts[k + 1])
  }

  /** Whatever the text: if positions are returned, they are ordered and disjoint. */
  lemma FoundAreOrdered(lines: seq<string>)
    requires Found(ScanFrom(SCAN_START, 0, lines)).Some?
    ensures var r := Found(ScanFrom(SCAN_START, 0, lines)).value; r.0 != [] && Ordered(r.0, r.1, |lines|)
  {
    StartAlternates();
    hide ScanFrom, NamesBlock, Contains, Alternates;
    ScanAlternates(SCAN_START, 0, lines);
    EqualMeansOrdered(ScanFrom(SCAN_START, 0, lines), |lines|);
  }

  lemma StartAlternates()
    ensures Alternates(SCAN_START, 0)
  {}

  lemma EqualMeansOrdered(s: Scan, n: nat)
    requires (Alternates(s, n) || |s.starts| > |s.ends| + 1) && |s.starts| == |s.ends|
    ensures Ordered(s.starts, s.ends, n)
  {}

  /** The depth the lines add as the scanner counts: several braces of one kind on a line count once. */
  function LineBalance(lines: seq<string>): int {
    if lines == [] then 0 else LineBalance(lines[..|lines| - 1]) + BraceDelta(lines[|lines| - 1])
  }

  function ScanBalance(lines: seq<string>): int {
    if lines == [] then 0 else ScanBalance(lines[..|lines| - 1]) + ScanDelta(lines[|lines| - 1])
  }

  lemma {:induction false} BalanceAppend(a: seq<string>, b: seq<string>)
    ensures LineBalance(a + b) == LineBalance(a) + LineBalance(b)
    decreases |b|
  {
    hide BraceDelta;
    if b == [] {
      assert a + b == a;
    } else {
      assert (a + b)[..|a + b| - 1] == a + b[..|b| - 1];
      BalanceAppend(a, b[..|b| - 1]);
    }
  }

  lemma {:induction false} ScanBalanceAppend(a: seq<string>, b: seq<string>)
    ensures ScanBalance(a + b) == ScanBalance(a) + ScanBalance(b)
    decreases |b|
  {
    hide ScanDelta;
    if b == [] {
      assert a + b == a;
    } else {
      assert (a + b)[..|a + b| - 1] == a + b[..|b| - 1];
      ScanBalanceAppend(a, b[..|b| - 1]);
    }
  }

  /** Every line that names a block opens exactly one brace, and is at the top level of the root node. */
  predicate BlocksUnderRoot(lines: seq<string>) {
    forall i {:trigger lines[i]} :: 0 <= i < |lines| && NamesBlock(lines[i]) ==>
      BraceDelta(lines[i]) == 1 && ScanBalance(lines[..i]) == 1
  }

  /** Lines a to b - 1 are a block: it opens on line a, closes on line b - 1, and not before. */
  predicate IsBlock(lines: seq<string>, a: nat, b: nat) {
    && a < b <= |lines| && NamesBlock(lines[a]) && ScanBalance(lines[a..b]) == 0
    && forall j :: a < j < b ==> ScanBalance(lines[a..j]) > 0
  }

  /** A block has been opened on line a and is still open before line i. */
  predicate IsOpen(lines: seq<string>, a: nat, i: nat) {
    && a < i <= |lines| && NamesBlock(lines[a]) && ScanBalance(lines[..a]) == 1
    && forall j :: a < j <= i ==> ScanBalance(lines[a..j]) > 0
  }

  predicate FollowsText(s: Scan, lines: seq<string>, i: nat)
    requires i <= |lines|
  {
    && |s.ends| <= |s.starts| <= |s.ends| + 1 && s.count == ScanBalance(lines[..i]) - 1
    && (forall k :: 0 <= k < |s.ends| ==> IsBlock(lines, s.starts[k], s.ends[k]))
    && (|s.starts| > |s.ends| ==> IsOpen(lines, s.starts[|s.ends|], i))
  }

  lemma {:induction false} ScanFollowsText(s: Scan, lines: seq<string>, i: nat)
    requires i <= |lines| && BlocksUnderRoot(lines) && FollowsText(s, lines, i)
    ensures FollowsText(ScanFrom(s, i, lines[i..]), lines, |lines|)
    decreases |lines| - i
  {
    hide Step, FollowsText;
    if i < |lines| {
      StepFollowsText(s, lines, i);
      assert lines[i..][1..] == lines[i + 1..];
      ScanFollowsText(Step(s, i, lines[i]), lines, i + 1);
    }
  }

  lemma BalanceTo(lines: seq<string>, start: nat, i: nat)
    requires start <= i < |lines|
    ensures ScanBalance(lines[start..i + 1]) == ScanBalance(lines[start..i]) + ScanDelta(lines[i])
    ensures ScanBalance(lines[..i]) == ScanBalance(lines[..start]) + ScanBalance(lines[start..i])
    ensures ScanBalance(lines[..i + 1]) == ScanBalance(lines[..i]) + ScanDelta(lines[i])
  {
    hide ScanDelta;
    assert lines[start..i + 1][..i - start] == lines[start..i];
    assert lines[..i + 1][..i] == lines[..i];
    ScanBalanceAppend(lines[..start], lines[start..i]);
    assert lines[..start] + lines[start..i] == lines[..i];
  }

  /** One line of an open block: it closes there exactly if the depth gets back to zero. */
  lemma OpenStep(lines: seq<string>, a: nat, i: nat)
    requires i < |lines| && BlocksUnderRoot(lines) && IsOpen(lines, a, i)
    ensures !NamesBlock(lines[i])
    ensures ScanBalance(lines[..i + 1]) == 1 + ScanBalance(lines[a..i + 1])
    ensures if ScanBalance(lines[a..i + 1]) == 0 then IsBlock(lines, a, i + 1) else IsOpen(lines, a, i + 1)
  {
    hide NamesBlock, BraceDelta, ScanBalance;
    BalanceTo(lines, a, i);
    DeltaBounds(lines[i]);
  }

  lemma DeltaBounds(line: string)
    ensures -1 <= BraceDelta(line) <= 1 && -1 <= ScanDelta(line) <= 1
  {}

  lemma OpensHere(lines: seq<string>, i: nat)
    requires i < |lines| && BlocksUnderRoot(lines) && NamesBlock(lines[i])
    ensures IsOpen(lines, i, i + 1)
  {
    hide NamesBlock;
    BalanceTo(lines, i, i);
    assert lines[i..i] == [];
  }

  lemma StepFollowsText(s: Scan, lines: seq<string>, i: nat)
    requires i < |lines| && BlocksUnderRoot(lines) && FollowsText(s, lines, i)
    ensures FollowsText(Step(s, i, lines[i]), lines, i + 1)
  {
    hide NamesBlock, BraceDelta, IsBlock, IsOpen, BlocksUnderRoot, ScanBalance;
    BalanceTo(lines, i, i);
    if |s.starts| > |s.ends| { OpenStep(lines, s.starts[|s.ends|], i); }
    if NamesBlock(lines[i]) { OpensHere(lines, i); }
  }

  lemma {:induction false} SameBalance(lines: seq<string>)
    requires forall i :: 0 <= i < |lines| ==> ScanDelta(lines[i]) == BraceDelta(lines[i])
    ensures ScanBalance(lines) == LineBalance(lines)
    decreases |lines|
  {
    hide ScanDelta, BraceDelta;
    if lines != [] { SameBalance(lines[..|lines| - 1]); }
  }

  /** With the blocks directly under the root, every recorded interval is one block by the scanner's count. */
  lemma FoundAreBlocks(lines: seq<string>)
    requires BlocksUnderRoot(lines) && Found(ScanFrom(SCAN_START, 0, lines)).Some?
    ensures var (starts, ends) := Found(ScanFrom(SCAN_START, 0, lines)).value;
            forall k :: 0 <= k < |starts| ==>
              IsBlock(lines, starts[k], ends[k]) && LineBalance(lines[starts[k]..ends[k]]) == 0
  {
    hide ScanFrom, NamesBlock, BraceDelta;
    assert lines[..0] == [] && lines[0..] == lines;
    ScanFollowsText(SCAN_START, lines, 0);
    var (starts, ends) := Found(ScanFrom(SCAN_START, 0, lines)).value;
    forall k | 0 <= k < |starts| ensures LineBalance(lines[starts[k]..ends[k]]) == 0 {
      assert IsBlock(lines, starts[k], ends[k]);
      forall i | 0 <= i < |lines| ensures ScanDelta(lines[i]) == BraceDelta(lines[i]) {}
      SameBalance(lines[starts[k]..ends[k]]);
    }
  }

  // --- choosing the blocks ----------------------------------------------------------------------------

  /** strap_ids_ph_str[ramcode]: None for the exception of an index that is too large. */
  function StrapHandle(straps: seq<string>, ramcode: nat): Option<string> {
    if ramcode < |straps| then Some(straps[ramcode]) else None
  }

  /** One truth value for every phandle line of the lines; None if such a line has no value in brackets, or there is
      no handle to compare it with. */
  function Choices(lines: seq<string>, selected: Option<string>): Option<seq<bool>> {
    if lines == [] then Some([]) else
      var before, line := Choices(lines[..|lines| - 1], selected), lines[|lines| - 1];
      if before.None? then None
      else if !HasPhandle(line) then before
      else if Handle(line).None? || selected.None? then None
      else Some(before.value + [Handle(line) == selected])
  }

  /** The choices of all blocks, one after the other. */
  function AllChoices(lines: seq<string>, starts: seq<nat>, ends: seq<nat>, selected: Option<string>): Option<seq<bool>>
    requires |starts| == |ends| && forall k :: 0 <= k < |starts| ==> starts[k] <= ends[k] <= |lines|
  {
    if starts == [] then Some([]) else
      var n := |starts| - 1;
      var before := AllChoices(lines, starts[..n], ends[..n], selected);
      var block := Choices(lines[starts[n]..ends[n]], selected);
      if before.None? || block.None? then None else Some(before.value + block.value)
  }

  lemma {:induction false} ChoicesStayNone(lines: seq<string>, selected: Option<string>, j: nat)
    requires j <= |lines| && Choices(lines[..j], selected).None?
    ensures Choices(lines, selected).None?
    decreases |lines| - j
  {
    hide HasPhandle, Handle;
    if j < |lines| {
      assert lines[..j + 1][..j] == lines[..j];
      ChoicesStayNone(lines, selected, j + 1);
    } else {
      assert lines[..j] == lines;
    }
  }

  lemma {:induction false} AllChoicesStayNone(lines: seq<string>, starts: seq<nat>, ends: seq<nat>,
      selected: Option<string>, k: nat)
    requires |starts| == |ends| && forall k :: 0 <= k < |starts| ==> starts[k] <= ends[k] <= |lines|
    requires k <= |starts| && AllChoices(lines, starts[..k], ends[..k], selected).None?
    ensures AllChoices(lines, starts, ends, selected).None?
    decreases |starts| - k
  {
    hide Choices;
    if k < |starts| {
      assert starts[..k + 1][..k] == starts[..k] && ends[..k + 1][..k] == ends[..k];
      AllChoicesStayNone(lines, starts, ends, selected, k + 1);
    } else {
      assert starts[..k] == starts && ends[..k] == ends;
    }
  }

  /** The phandle lines of one block. */
  method ChooseBlock(lines: seq<string>, start: nat, end: nat, selected: Option<string>) returns (r: Option<seq<bool>>)
    requires start <= end <= |lines|
    ensures r == Choices(lines[start..end], selected)
  {
    hide HasPhandle, Handle;
    var entries: seq<bool> := [];
    ghost var block := lines[start..end];
    for i := start to end
      invariant Choices(block[..i - start], selected) == Some(entries)
    {
      assert block[..i - start + 1][..i - start] == block[..i - start] && block[i - start] == lines[i];
      if HasPhandle(lines[i]) {
        var handle := Handle(lines[i]);
        if handle.None? || selected.None? {
          ChoicesStayNone(block, selected, i - start + 1);
          return None;
        }
        entries := entries + [handle == selected];
      }
    }
    assert block[..end - start] == block;
    r := Some(entries);
  }

  /** tegraflash_bpmp_update_valid_entries */
  method UpdateValidEntries(ramcode: nat, lines: seq<string>, starts: seq<nat>, ends: seq<nat>, straps: seq<string>)
    returns (r: Option<seq<bool>>)
    requires |starts| == |ends| && forall k :: 0 <= k < |starts| ==> starts[k] <= ends[k] <= |lines|
    ensures r == AllChoices(lines, starts, ends, StrapHandle(straps, ramcode))
  {
    hide Choices;
    var entries: seq<bool>, selected := [], StrapHandle(straps, ramcode);
    for k := 0 to |starts|
      invariant AllChoices(lines, starts[..k], ends[..k], selected) == Some(entries)
    {
      assert starts[..k + 1][..k] == starts[..k] && ends[..k + 1][..k] == ends[..k];
      var block := ChooseBlock(lines, starts[k], ends[k], selected);
      if block.None? {
        AllChoicesStayNone(lines, starts, ends, selected, k + 1);
        return None;
      }
      entries := entries + block.value;
    }
    assert starts[..|starts|] == starts && ends[..|ends|] == ends;
    r := Some(entries);
  }

  // --- removing the others ----------------------------------------------------------------------------

  /** Line i belongs to a block, or follows one, that was not chosen. */
  predicate Hidden(i: nat, starts: seq<nat>, ends: seq<nat>, valid: seq<bool>)
    requires |starts| == |ends|
  {
    exists k :: 0 <= k < |starts| && k < |valid| && starts[k] <= i <= ends[k] && !valid[k]
  }

  /** Line i belongs to a block, or follows one, for which there is no entry, and no dropped block hides it. */
  predicate Raises(i: nat, starts: seq<nat>, ends: seq<nat>, valid: seq<bool>)
    requires |starts| == |ends|
  {
    !Hidden(i, starts, ends, valid) && exists k :: |valid| <= k < |starts| && starts[k] <= i <= ends[k]
  }

  /** The lines from number i on that stay. */
  function Visible(i: nat, lines: seq<string>, starts: seq<nat>, ends: seq<nat>, valid: seq<bool>): (r: seq<string>)
    requires |starts| == |ends|
    decreases |lines|
  {
    if lines == [] then [] else
      (if Hidden(i, starts, ends, valid) then [] else [lines[0]]) + Visible(i + 1, lines[1..], starts, ends, valid)
  }

  /** The flag for line i: set by the first dropped block that covers it, cleared by all others. A block without
      an entry raises when a line of it is reached. */
  method Flag(i: nat, starts: seq<nat>, ends: seq<nat>, valid: seq<bool>, before: bool)
    returns (ok: bool, invalid: bool)
    requires |starts| == |ends|
    ensures ok <==> !Raises(i, starts, ends, valid)
    ensures ok ==> invalid == if starts == [] then before else Hidden(i, starts, ends, valid)
    ensures starts == [] ==> !Hidden(i, starts, ends, valid)
  {
    ok, invalid := true, before;
    for k := 0 to |starts|
      invariant ok && (invalid == if k == 0 then before else false)
      invariant forall j :: 0 <= j < k && starts[j] <= i <= ends[j] ==> j < |valid| && valid[j]
    {
      if i >= starts[k] && i <= ends[k] {
        if k >= |valid| { return false, invalid; }
        if !valid[k] {
          invalid := true;
          break;
        }
      }
      invalid := false;
    }
  }

  /** The writing loop of tegraflash_bpmp_remove_unused_phandles; the flag survives from line to line. When a line
      raises, the file holds what was written before it. */
  method RemoveUnused(lines: seq<string>, starts: seq<nat>, ends: seq<nat>, valid: seq<bool>)
    returns (ok: bool, written: seq<string>, ghost stop: nat)
    requires |starts| == |ends|
    ensures ok <==> forall i :: 0 <= i < |lines| ==> !Raises(i, starts, ends, valid)
    ensures ok ==> written == Visible(0, lines, starts, ends, valid)
    ensures stop <= |lines| && written == Visible(0, lines[..stop], starts, ends, valid)
    ensures forall i :: 0 <= i < stop ==> !Raises(i, starts, ends, valid)
    ensures if ok then stop == |lines| else stop < |lines| && Raises(stop, starts, ends, valid)
  {
    hide Hidden, Raises;
    written, ok := [], true;
    var invalid := false;
    for i := 0 to |lines|
      invariant ok && written == Visible(0, lines[..i], starts, ends, valid) && (starts == [] ==> !invalid)
      invariant forall j :: 0 <= j < i ==> !Raises(j, starts, ends, valid)
    {
      stop := i;
      ok, invalid := Flag(i, starts, ends, valid, invalid);
      if !ok { return; }
      VisibleSnoc(lines, i, starts, ends, valid);
      if !invalid { written := written + [lines[i]]; }
    }
    stop := |lines|;
    assert lines[..|lines|] == lines;
  }

  lemma VisibleSnoc(lines: seq<string>, i: nat, starts: seq<nat>, ends: seq<nat>, valid: seq<bool>)
    requires |starts| == |ends| && i < |lines|
    ensures Visible(0, lines[..i + 1], starts, ends, valid)
         == Visible(0, lines[..i], starts, ends, valid) + if Hidden(i, starts, ends, valid) then [] else [lines[i]]
  {
    hide Hidden;
    assert lines[..i + 1] == lines[..i] + [lines[i]];
    VisibleAppend(0, lines[..i], [lines[i]], starts, ends, valid);
    assert [lines[i]][1..] == [];
  }

  lemma {:induction false} VisibleAppend(i: nat, a: seq<string>, b: seq<string>, starts: seq<nat>, ends: seq<nat>,
      valid: seq<bool>)
    requires |starts| == |ends|
    ensures Visible(i, a + b, starts, ends, valid)
         == Visible(i, a, starts, ends, valid) + Visible(i + |a|, b, starts, ends, valid)
    decreases |a|
  {
    hide Hidden;
    if a == [] {
      assert a + b == b;
    } else {
      assert (a + b)[1..] == a[1..] + b;
      VisibleAppend(i + 1, a[1..], b, starts, ends, valid);
    }
  }

  lemma {:induction false} AllVisible(i: nat, lines: seq<string>, starts: seq<nat>, ends: seq<nat>, valid: seq<bool>)
    requires |starts| == |ends| && forall j :: i <= j < i + |lines| ==> !Hidden(j, starts, ends, valid)
    ensures Visible(i, lines, starts, ends, valid) == lines
    decreases |lines|
  {
    hide Hidden;
    if lines != [] { AllVisible(i + 1, lines[1..], starts, ends, valid); }
  }

  lemma {:induction false} NoneVisible(i: nat, lines: seq<string>, starts: seq<nat>, ends: seq<nat>, valid: seq<bool>)
    requires |starts| == |ends| && forall j :: i <= j < i + |lines| ==> Hidden(j, starts, ends, valid)
    ensures Visible(i, lines, starts, ends, valid) == []
    decreases |lines|
  {
    hide Hidden;
    if lines != [] { NoneVisible(i + 1, lines[1..], starts, ends, valid); }
  }

  /** For ordered blocks, a chosen block survives whole exactly if no block before it was dropped right up to its
      first line: the line after a dropped block goes too. */
  lemma ChosenBlockSurvives(starts: seq<nat>, ends: seq<nat>, valid: seq<bool>, k: nat, n: nat)
    requires |starts| == |ends| == |valid| && k < |starts| && valid[k] && Ordered(starts, ends, n)
    ensures (forall i :: starts[k] <= i < ends[k] ==> !Hidden(i, starts, ends, valid))
            <==> (k > 0 && !valid[k - 1] ==> ends[k - 1] < starts[k])
  {
    OrderedThroughout(starts, ends, n);
    if k > 0 && !valid[k - 1] && ends[k - 1] >= starts[k] {
      assert Hidden(starts[k], starts, ends, valid);
    }
  }

  lemma OrderedThroughout(starts: seq<nat>, ends: seq<nat>, m: nat)
    requires Ordered(starts, ends, m)
    ensures forall i, j :: 0 <= i < j < |starts| ==> ends[i] <= starts[j]
    ensures forall i, j :: 0 <= i && i + 1 < j < |starts| ==> ends[i] < starts[j]
  {
    forall i: nat, j: nat | i < j < |starts|
      ensures ends[i] <= starts[j] && (i + 1 < j ==> ends[i] < starts[j])
    {
      OrderedPair(starts, ends, m, i, j);
    }
  }

  lemma {:induction false} OrderedPair(starts: seq<nat>, ends: seq<nat>, m: nat, i: nat, j: nat)
    requires Ordered(starts, ends, m) && i < j < |starts|
    ensures ends[i] <= starts[j] && (i + 1 < j ==> ends[i] < starts[j])
    decreases j
  {
    assert ends[j - 1] <= starts[j - 1 + 1];
    if i + 1 < j { OrderedPair(starts, ends, m, i, j - 1); }
  }
}
