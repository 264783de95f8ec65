/** The strap line of the BPMP device tree source: which handles it lists, and what is left of them when all but one
    are replaced. */
module DtsStraps {
  import opened Bytes
  import opened Strings
  import opened DtsTrim

  const STRAP := "emc-strap"
  const NO_HANDLE := "0x0"

  // --- reading ----------------------------------------------------------------------------------------

  datatype Straps = Straps(line: nat, handles: seq<string>)

  /** The first strap node from line i on, and the handles in brackets on the next line. None for the exceptions: that
      there is no such node, no next line, or nothing in brackets on it. */
  function StrapsFrom(lines: seq<string>, i: nat): (r: Option<Straps>)
    requires i <= |lines|
    ensures r.Some? ==> i < r.value.line < |lines| && r.value.handles != []
    decreases |lines| - i
  {
    if i == |lines| then None
    else if !Contains(lines[i], STRAP) then StrapsFrom(lines, i + 1)
    else if i + 1 == |lines| || Handle(lines[i + 1]).None? then None
    else Some(Straps(i + 1, Split(Handle(lines[i + 1]).value, ' ')))
  }

  /** tegraflash_bpmp_get_strap_handles */
  method GetStrapHandles(lines: seq<string>) returns (r: Option<Straps>)
    ensures r == StrapsFrom(lines, 0)
  {
    hide Contains, Handle;
    for i := 0 to |lines|
      invariant StrapsFrom(lines, 0) == StrapsFrom(lines, i)
    {
      if Contains(lines[i], STRAP) {
        if i + 1 >= |lines| { return None; }
        var handle := Handle(lines[i + 1]);
        if handle.None? { return None; }
        return Some(Straps(i + 1, Split(handle.value, ' ')));
      }
    }
    r := None;
  }

  // --- rewriting --------------------------------------------------------------------------------------

  /** Every occurrence of p, from the left, becomes the handle of nothing. */
  function Replaced(p: string, s: string): string
    requires p != ""
    decreases |s|
  {
    if s == "" then ""
    else if p <= s then NO_HANDLE + Replaced(p, s[|p|..])
    else [s[0]] + Replaced(p, s[1..])
  }

  /** re.sub(pattern, "0x0", s): None for a pattern that raises. */
  type Sub = (string, string) -> Option<string>

  predicate IsPlainChar(c: char) {
    '0' <= c <= '9' || 'a' <= c <= 'z' || 'A' <= c <= 'Z'
  }

  /** A pattern that stands for itself. */
  predicate IsPlain(p: string) {
    p != "" && forall i :: 0 <= i < |p| ==> IsPlainChar(p[i])
  }

  ghost predicate ValidSub(sub: Sub) {
    forall p, s {:trigger sub(p, s)} :: IsPlain(p) ==> sub(p, s) == Some(Replaced(p, s))
  }

  /** There is such a function. */
  lemma SubExists() returns (sub: Sub)
    ensures ValidSub(sub)
  {
    sub := (p, s) => if p != "" then Some(Replaced(p, s)) else None;
  }

  /** The line after the handles other than the selected one have been replaced, one after the other. */
  function Rewritten(sub: Sub, handles: seq<string>, selected: string, line: string): Option<string> {
    if handles == [] then Some(line) else
      var n := |handles| - 1;
      var before := Rewritten(sub, handles[..n], selected, line);
      if before.None? || handles[n] == selected then before else sub(handles[n], before.value)
  }

  /** The first loop of tegraflash_bpmp_remove_unused_phandles; None for an exception. */
  method RewriteStraps(sub: Sub, handles: seq<string>, ramcode: nat, line: string) returns (r: Option<string>)
    requires handles != []
    ensures r == if ramcode < |handles| then Rewritten(sub, handles, handles[ramcode], line) else None
  {
    r := Some(line);
    if ramcode >= |handles| { return None; }
    for i := 0 to |handles|
      invariant r.Some? && r == Rewritten(sub, handles[..i], handles[ramcode], line)
    {
      assert handles[..i + 1][..i] == handles[..i];
      if handles[i] != handles[ramcode] {
        r := sub(handles[i], r.value);
        if r.None? {
          StaysNone(sub, handles, handles[ramcode], line, i + 1);
          return;
        }
      }
    }
    assert handles[..|handles|] == handles;
  }

  lemma {:induction false} StaysNone(sub: Sub, handles: seq<string>, selected: string, line: string, k: nat)
    requires k <= |handles| && Rewritten(sub, handles[..k], selected, line).None?
    ensures Rewritten(sub, handles, selected, line).None?
    decreases |handles| - k
  {
    if k < |handles| {
      assert handles[..k + 1][..k] == handles[..k];
      StaysNone(sub, handles, selected, line, k + 1);
    } else {
      assert handles[..k] == handles;
    }
  }

  // --- word by word -----------------------------------------------------------------------------------

  predicate AllPlain(handles: seq<string>) {
    forall i :: 0 <= i < |handles| ==> IsPlain(handles[i])
  }

  /** What the replacements make of a text. */
  function Left(handles: seq<string>, selected: string, s: string): string
    requires AllPlain(handles)
  {
    if handles == [] then s else
      var n := |handles| - 1;
      var before := Left(handles[..n], selected, s);
      if handles[n] == selected then before else Replaced(handles[n], before)
  }

  function LeftOfEach(handles: seq<string>, selected: string, words: seq<string>): (r: seq<string>)
    requires AllPlain(handles)
    ensures |r| == |words|
  {
    seq(|words|, i requires 0 <= i < |words| => Left(handles, selected, words[i]))
  }

  lemma {:induction false} RewrittenIsLeft(sub: Sub, handles: seq<string>, selected: string, line: string)
    requires ValidSub(sub) && AllPlain(handles)
    ensures Rewritten(sub, handles, selected, line) == Some(Left(handles, selected, line))
    decreases |handles|
  {
    hide IsPlain;
    if handles != [] {
      var n := |handles| - 1;
      RewrittenIsLeft(sub, handles[..n], selected, line);
    }
  }

  /** No occurrence goes across a character that p does not have. */
  lemma {:induction false} ReplacedAround(p: string, a: string, c: char, b: string)
    requires p != "" && c !in p
    ensures Replaced(p, a + [c] + b) == Replaced(p, a) + [c] + Replaced(p, b)
    decreases |a|
  {
    var s := a + [c] + b;
    FrontAround(p, a, c, b);
    if a == "" {
      assert s == [c] + b && s[1..] == b;
    } else if p <= s {
      assert s[|p|..] == a[|p|..] + [c] + b;
      ReplacedAround(p, a[|p|..], c, b);
    } else {
      assert s[1..] == a[1..] + [c] + b;
      ReplacedAround(p, a[1..], c, b);
    }
  }

  lemma FrontAround(p: string, a: string, c: char, b: string)
    requires c !in p
    ensures p <= a + [c] + b <==> p <= a
  {
    var s := a + [c] + b;
    assert s[|a|] == c && s[..|a|] == a;
    assert p <= s ==> forall i :: 0 <= i < |p| ==> p[i] == s[i];
  }

  lemma {:induction false} LeftAround(handles: seq<string>, selected: string, a: string, c: char, b: string)
    requires AllPlain(handles) && !IsPlainChar(c)
    ensures Left(handles, selected, a + [c] + b) == Left(handles, selected, a) + [c] + Left(handles, selected, b)
    decreases |handles|
  {
    hide Replaced, IsPlainChar;
    if handles != [] {
      var n := |handles| - 1;
      LeftAround(handles[..n], selected, a, c, b);
      ReplacedAround(handles[n], Left(handles[..n], selected, a), c, Left(handles[..n], selected, b));
    }
  }

  lemma {:induction false} LeftOfJoined(handles: seq<string>, selected: string, words: seq<string>)
    requires AllPlain(handles) && words != []
    ensures Left(handles, selected, Joined(words, ' ')) == Joined(LeftOfEach(handles, selected, words), ' ')
    decreases |words|
  {
    hide Left;
    var each := LeftOfEach(handles, selected, words);
    if |words| > 1 {
      LeftOfJoined(handles, selected, words[1..]);
      LeftAround(handles, selected, words[0], ' ', Joined(words[1..], ' '));
      assert each[1..] == LeftOfEach(handles, selected, words[1..]);
    }
  }

  function StrapLine(front: string, words: seq<string>, back: string): string {
    front + "<" + (Joined(words, ' ') + ">" + back)
  }

  /** The line is rewritten word by word, and apart from the brackets. */
  lemma LineIsRewritten(sub: Sub, handles: seq<string>, selected: string, front: string, words: seq<string>,
      back: string)
    requires ValidSub(sub) && AllPlain(handles) && words != []
    ensures Rewritten(sub, handles, selected, StrapLine(front, words, back))
            == Some(StrapLine(Left(handles, selected, front), LeftOfEach(handles, selected, words),
                              Left(handles, selected, back)))
  {
    hide Rewritten, Left, Joined, ValidSub, AllPlain;
    RewrittenIsLeft(sub, handles, selected, StrapLine(front, words, back));
    LeftAround(handles, selected, front, '<', Joined(words, ' ') + ">" + back);
    LeftAround(handles, selected, Joined(words, ' '), '>', back);
    LeftOfJoined(handles, selected, words);
  }

  // --- handles as they are printed --------------------------------------------------------------------

  predicate IsHexDigit(c: char) {
    '0' <= c <= '9' || 'a' <= c <= 'f'
  }

  /** "0x" and at least one digit. */
  predicate IsWord(w: string) {
    |w| > 2 && w[0] == '0' && w[1] == 'x' && forall i :: 2 <= i < |w| ==> IsHexDigit(w[i])
  }

  /** The decompiler prints no leading zeros. */
  predicate IsPrinted(w: string) {
    IsWord(w) && (|w| > 3 ==> w[2] != '0')
  }

  predicate AllPrinted(handles: seq<string>) {
    forall i :: 0 <= i < |handles| ==> IsPrinted(handles[i])
  }

  lemma PrintedIsPlain(handles: seq<string>)
    requires AllPrinted(handles)
    ensures AllPlain(handles)
  {}

  lemma {:induction false} NothingReplaced(p: string, s: string)
    requires 'x' in p && 'x' !in s
    ensures Replaced(p, s) == s
    decreases |s|
  {
    if s != "" {
      assert !(p <= s);
      NothingReplaced(p, s[1..]);
    }
  }

  /** A handle occurs in a word at most at the front. */
  lemma ReplacedInWord(p: string, w: string)
    requires IsPrinted(p) && IsWord(w)
    ensures Replaced(p, w) == if p <= w then NO_HANDLE + w[|p|..] else w
    ensures IsWord(Replaced(p, w))
  {
    if p <= w {
      NothingReplaced(p, w[|p|..]);
    } else {
      assert p[0] != w[1..][0];
      NothingReplaced(p, w[1..][1..]);
    }
  }

  /** handles[i] is replaced in w: it is in front of w, and neither selected nor the handle of nothing. */
  predicate Hits(handles: seq<string>, selected: string, w: string, i: nat)
    requires i < |handles|
  {
    handles[i] != selected && handles[i] != NO_HANDLE && handles[i] <= w
  }

  predicate IsFirstHit(handles: seq<string>, selected: string, w: string, j: nat) {
    j < |handles| && Hits(handles, selected, w, j) && forall i: nat :: i < j ==> !Hits(handles, selected, w, i)
  }

  /** Only the first hit changes the word. */
  lemma {:induction false} LeftOfWord(handles: seq<string>, selected: string, w: string)
    requires AllPrinted(handles) && AllPlain(handles) && IsPrinted(w)
    ensures IsWord(Left(handles, selected, w))
    ensures (forall i: nat :: i < |handles| ==> !Hits(handles, selected, w, i)) ==> Left(handles, selected, w) == w
    ensures forall j: nat :: IsFirstHit(handles, selected, w, j) ==>
              Left(handles, selected, w) == NO_HANDLE + w[|handles[j]|..]
    decreases |handles|
  {
    hide Replaced, Left, IsPlain;
    LeftSnoc(handles, selected, w);
    if handles != [] {
      var n := |handles| - 1;
      var before := Left(handles[..n], selected, w);
      LeftOfWord(handles[..n], selected, w);
      SameHits(handles, selected, w);
      LastHandle(handles[n], selected, w, before);
      assert Hits(handles, selected, w, n)
          <==> handles[n] != selected && handles[n] != NO_HANDLE && handles[n] <= w;
      hide IsWord, IsPrinted;
      forall j: nat | IsFirstHit(handles, selected, w, j)
        ensures Left(handles, selected, w) == NO_HANDLE + w[|handles[j]|..]
      {
        if j < n { assert NO_HANDLE <= before; }
      }
    }
  }

  lemma LeftSnoc(handles: seq<string>, selected: string, s: string)
    requires AllPlain(handles)
    ensures handles == [] ==> Left(handles, selected, s) == s
    ensures handles != [] ==>
              var n := |handles| - 1;
              var before := Left(handles[..n], selected, s);
              Left(handles, selected, s) == if handles[n] == selected then before else Replaced(handles[n], before)
  {}

  lemma SameHits(handles: seq<string>, selected: string, w: string)
    requires handles != []
    ensures var n := |handles| - 1;
            forall i: nat :: i < n ==>
              && Hits(handles[..n], selected, w, i) == Hits(handles, selected, w, i)
              && IsFirstHit(handles[..n], selected, w, i) == IsFirstHit(handles, selected, w, i)
  {
    var n := |handles| - 1;
    forall i: nat | i < n ensures Hits(handles[..n], selected, w, i) == Hits(handles, selected, w, i) {
      assert handles[..n][i] == handles[i];
    }
  }

  /** Another handle changes nothing in a word that has been changed, nor does the handle of nothing. */
  lemma LastHandle(p: string, selected: string, w: string, v: string)
    requires IsPrinted(p) && IsWord(v) && IsPrinted(w)
    ensures IsWord(Replaced(p, v))
    ensures v == w ==> Replaced(p, v) == if p != NO_HANDLE && p <= w then NO_HANDLE + w[|p|..] else w
    ensures NO_HANDLE <= v ==> Replaced(p, v) == v
  {
    ReplacedInWord(p, v);
    if p <= v && NO_HANDLE <= v {
      assert v[2] == NO_HANDLE[2] == '0' && p[2] == v[2];
      assert p == NO_HANDLE;
      assert NO_HANDLE + v[3..] == v;
    }
  }

  // --- exactly one handle left ------------------------------------------------------------------------

  /** handles[i] is to be replaced, and is a shorter handle in front of handles[j]. */
  predicate IsBefore(handles: seq<string>, selected: string, i: nat, j: nat)
    requires i < |handles| && j < |handles|
  {
    Hits(handles, selected, handles[j], i) && handles[i] != handles[j]
  }

  lemma {:induction false} FirstHit(handles: seq<string>, selected: string, w: string, i: nat) returns (j: nat)
    requires i < |handles| && Hits(handles, selected, w, i)
    ensures j <= i && IsFirstHit(handles, selected, w, j)
    decreases i
  {
    j := i;
    if k: nat :| k < i && Hits(handles, selected, w, k) { j := FirstHit(handles, selected, w, k); }
  }

  lemma SelectedStays(handles: seq<string>, selected: string)
    requires AllPrinted(handles) && AllPlain(handles) && IsPrinted(selected)
    ensures Left(handles, selected, selected) == selected
            <==> forall i: nat :: i < |handles| ==> !Hits(handles, selected, selected, i)
  {
    hide Left, AllPlain;
    LeftOfWord(handles, selected, selected);
    if i: nat :| i < |handles| && Hits(handles, selected, selected, i) {
      var j := FirstHit(handles, selected, selected, i);
      var p := handles[j];
      assert IsPrinted(p) && p != NO_HANDLE && p[2] == selected[2];
      assert (NO_HANDLE + selected[|p|..])[2] == '0' && |selected| > |p|;
    }
  }

  lemma OtherVanishes(handles: seq<string>, selected: string, m: nat)
    requires AllPrinted(handles) && AllPlain(handles) && m < |handles| && handles[m] != selected
    ensures Left(handles, selected, handles[m]) == NO_HANDLE
            <==> forall i: nat :: i < |handles| && IsBefore(handles, selected, i, m) ==> handles[m] in handles[..i]
  {
    hide Left, AllPlain;
    var h := handles[m];
    LeftOfWord(handles, selected, h);
    if h == NO_HANDLE {
      forall i: nat | i < |handles| ensures !Hits(handles, selected, h, i) { assert IsPrinted(handles[i]); }
    } else {
      var j := FirstHit(handles, selected, h, m);
      if handles[j] == h {
        forall i: nat | i < |handles| && IsBefore(handles, selected, i, m) ensures h in handles[..i] {
          assert j < i && handles[..i][j] == h;
        }
      } else {
        assert |NO_HANDLE + h[|handles[j]|..]| > 3 && IsBefore(handles, selected, j, m);
        forall k | 0 <= k < j ensures handles[k] != h {
          assert !Hits(handles, selected, h, k);
        }
      }
    }
  }

  /** What is promised: the selected handle stays, all others become the handle of nothing. */
  function OneLeft(handles: seq<string>, selected: string): (r: seq<string>)
    ensures |r| == |handles|
  {
    seq(|handles|, i requires 0 <= i < |handles| => if handles[i] == selected then selected else NO_HANDLE)
  }

  /** A handle in front of a longer one does no harm only if the longer one is to go as well, and goes first. */
  predicate LongerGoFirst(handles: seq<string>, selected: string) {
    forall i: nat, j: nat :: i < |handles| && j < |handles| && IsBefore(handles, selected, i, j) ==>
      handles[j] != selected && handles[j] in handles[..i]
  }

  lemma OneIsLeftExactly(handles: seq<string>, selected: string)
    requires AllPrinted(handles) && AllPlain(handles)
    ensures LeftOfEach(handles, selected, handles) == OneLeft(handles, selected) <==> LongerGoFirst(handles, selected)
  {
    hide Left, AllPlain, Hits, IsPrinted;
    var each, one := LeftOfEach(handles, selected, handles), OneLeft(handles, selected);
    forall j: nat | j < |handles|
      ensures each[j] == one[j]
              <==> forall i: nat :: i < |handles| && IsBefore(handles, selected, i, j) ==>
                     handles[j] != selected && handles[j] in handles[..i]
    {
      if handles[j] == selected {
        SelectedStays(handles, selected);
        forall i: nat | i < |handles|
          ensures IsBefore(handles, selected, i, j) <==> Hits(handles, selected, handles[j], i)
        {
          HitIsOther(handles, selected, handles[j], i);
        }
      } else {
        OtherVanishes(handles, selected, j);
      }
    }
    if each == one {
      forall i: nat, j: nat | i < |handles| && j < |handles| && IsBefore(handles, selected, i, j)
        ensures handles[j] != selected && handles[j] in handles[..i] { assert each[j] == one[j]; }
    }
  }

  lemma HitIsOther(handles: seq<string>, selected: string, w: string, i: nat)
    requires i < |handles|
    ensures Hits(handles, selected, w, i) ==> handles[i] != selected
  {}

  // --- the line ---------------------------------------------------------------------------------------

  lemma {:induction false} ClosingAhead(s: string, i: nat, k: nat)
    requires i <= k < |s| && s[k] == '>' && forall j :: i <= j < k ==> s[j] != '>' && s[j] != '\n'
    ensures Closing(s, i) == Some(k)
    decreases k - i
  {
    if i < k { ClosingAhead(s, i + 1, k); }
  }

  lemma HandleOfBrackets(text: string, back: string)
    requires text != "" && forall i :: 0 <= i < |text| ==> text[i] != '>' && text[i] != '\n'
    ensures Handle("<" + (text + ">" + back)) == Some(text)
  {
    var s := "<" + (text + ">" + back);
    assert forall i :: 1 <= i < |text| + 1 ==> s[i] == text[i - 1];
    assert s[|text| + 1] == '>' && s[1..|text| + 1] == text;
    ClosingAhead(s, 2, |text| + 1);
  }

  lemma {:induction false} CharOfJoined(words: seq<string>, i: nat)
    requires AllPrinted(words) && i < |Joined(words, ' ')|
    ensures IsPlainChar(Joined(words, ' ')[i]) || Joined(words, ' ')[i] == ' '
    decreases |words|
  {
    if |words| > 1 && i > |words[0]| {
      assert Joined(words, ' ')[i] == Joined(words[1..], ' ')[i - |words[0]| - 1];
      CharOfJoined(words[1..], i - |words[0]| - 1);
    }
  }

  /** The handles on a strap line are read back. */
  lemma StrapLineIsRead(front: string, words: seq<string>, back: string)
    requires '<' !in front && words != [] && AllPrinted(words)
    ensures Handle(StrapLine(front, words, back)) == Some(Joined(words, ' ')) && Split(Joined(words, ' '), ' ') == words
  {
    var text := Joined(words, ' ');
    assert IsPrinted(words[0]) && text != "";
    assert forall i :: 0 <= i < |words| ==> ' ' !in words[i] by {
      forall i | 0 <= i < |words| ensures ' ' !in words[i] { assert IsPrinted(words[i]); }
    }
    SplitJoined(words, ' ');
    forall i | 0 <= i < |text| ensures text[i] != '>' && text[i] != '\n' { CharOfJoined(words, i); }
    hide Joined, Handle, AllPrinted, Split;
    HandleSkips(front, "<" + (text + ">" + back));
    HandleOfBrackets(text, back);
    assert StrapLine(front, words, back) == front + ("<" + (text + ">" + back));
  }

  lemma {:induction false} LeftUntouched(handles: seq<string>, selected: string, s: string)
    requires AllPrinted(handles) && AllPlain(handles) && 'x' !in s
    ensures Left(handles, selected, s) == s
    decreases |handles|
  {
    hide Replaced;
    if handles != [] {
      var n := |handles| - 1;
      LeftUntouched(handles[..n], selected, s);
      assert handles[n][1] == 'x';
      NothingReplaced(handles[n], s);
    }
  }

  lemma SameWords(front: string, a: seq<string>, b: seq<string>, back: string)
    requires |a| == |b| > 0 && StrapLine(front, a, back) == StrapLine(front, b, back)
    requires forall i :: 0 <= i < |a| ==> ' ' !in a[i] && ' ' !in b[i]
    ensures a == b
  {
    hide Joined;
    var x, y, f := Joined(a, ' '), Joined(b, ' '), front + "<";
    assert f + (x + (">" + back)) == StrapLine(front, a, back) && f + (y + (">" + back)) == StrapLine(front, b, back);
    assert (f + (x + (">" + back)))[|f|..|f| + |x|] == x && (f + (y + (">" + back)))[|f|..|f| + |y|] == y;
    SplitJoined(a, ' ');
    SplitJoined(b, ' ');
  }

  /** On a strap line of printed handles exactly the selected handle is left if and only if no handle that goes is in
      front of one that stays or goes later. */
  lemma StrapLineExactly(sub: Sub, handles: seq<string>, ramcode: nat, front: string, back: string)
    requires ValidSub(sub) && AllPrinted(handles) && ramcode < |handles| && 'x' !in front && 'x' !in back
    ensures var selected := handles[ramcode];
            && (Rewritten(sub, handles, selected, StrapLine(front, handles, back))
                == Some(StrapLine(front, OneLeft(handles, selected), back))
                <==> LongerGoFirst(handles, selected))
  {
    hide Rewritten, Left, Joined, ValidSub, LongerGoFirst, StrapLine, IsPrinted, IsPlain, LeftOfEach, OneLeft;
    var selected := handles[ramcode];
    PrintedIsPlain(handles);
    LineIsRewritten(sub, handles, selected, front, handles, back);
    LeftUntouched(handles, selected, front);
    LeftUntouched(handles, selected, back);
    OneIsLeftExactly(handles, selected);
    NoSpaces(handles, selected);
    var each, one := LeftOfEach(handles, selected, handles), OneLeft(handles, selected);
    if StrapLine(front, each, back) == StrapLine(front, one, back) { SameWords(front, each, one, back); }
  }

  lemma NoSpaces(handles: seq<string>, selected: string)
    requires AllPrinted(handles) && AllPlain(handles)
    ensures var each, one := LeftOfEach(handles, selected, handles), OneLeft(handles, selected);
            forall i :: 0 <= i < |handles| ==> ' ' !in each[i] && ' ' !in one[i]
  {
    hide Left, AllPlain, IsWord;
    forall i | 0 <= i < |handles|
      ensures ' ' !in LeftOfEach(handles, selected, handles)[i] && ' ' !in OneLeft(handles, selected)[i]
    {
      assert IsPrinted(handles[i]);
      LeftOfWord(handles, selected, handles[i]);
      WordHasNoSpace(handles[i]);
      WordHasNoSpace(Left(handles, selected, handles[i]));
    }
  }

  lemma WordHasNoSpace(w: string)
    requires IsWord(w)
    ensures ' ' !in w && ' ' !in NO_HANDLE
  {}

  /** A shorter handle in front of the selected one spoils it: 0xab becomes 0x0b. */
  lemma SelectedIsSpoilt(sub: Sub)
    requires ValidSub(sub)
    ensures Rewritten(sub, ["0xa", "0xab"], "0xab", "select = <0xa 0xab>;") == Some("select = <0x0 0x0b>;")
  {
    hide Rewritten, Left, Joined, ValidSub, Hits, IsPrinted;
    var short, long := "0xa", "0xab";
    var handles := [short, long];
    TwoHandles(short, long);
    PrintedIsPlain(handles);
    LineIsRewritten(sub, handles, long, "select = ", handles, ";");
    LeftUntouched(handles, long, "select = ");
    LeftUntouched(handles, long, ";");
    LeftOfWord(handles, long, short);
    LeftOfWord(handles, long, long);
    assert LeftOfEach(handles, long, handles) == ["0x0", "0x0b"];
    TwoWords("select = ", short, long, ";", "select = <0xa 0xab>;");
    TwoWords("select = ", "0x0", "0x0b", ";", "select = <0x0 0x0b>;");
  }

  lemma TwoHandles(short: string, long: string)
    requires short == "0xa" && long == "0xab"
    ensures AllPrinted([short, long]) && IsPrinted(short) && IsPrinted(long)
    ensures IsFirstHit([short, long], long, short, 0) && IsFirstHit([short, long], long, long, 0)
    ensures NO_HANDLE + short[3..] == "0x0" && NO_HANDLE + long[3..] == "0x0b"
  {
    assert short <= long && short <= short;
  }

  lemma TwoWords(front: string, a: string, b: string, back: string, line: string)
    requires line == front + "<" + a + " " + b + ">" + back
    ensures StrapLine(front, [a, b], back) == line
  {
    assert Joined([a, b][1..], ' ') == b;
  }
}
