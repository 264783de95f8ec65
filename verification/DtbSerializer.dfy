/** A serializer for devicetrees after the standard (Devicetree Specification v0.4, sections 5.4 and 5.5): the blocks
    of a legal tree, with NOP tokens wherever one likes, are parsed back into that tree. */
module DtbSerializer {
  import opened Bytes
  import opened Sequences
  import opened DtbTree
  import opened DtbTokens
  import opened DtbLayout
  import opened DtbParser
  import opened DtbTheorems

  // --- the blocks -------------------------------------------------------------------------------------

  /** s followed by zeros up to a multiple of four bytes. */
  function Padded(s: seq<byte>): (r: seq<byte>)
    ensures |r| == Align(|s|, 4)
  {
    s + Zeroed(Align(|s|, 4) - |s|)
  }

  function Nops(n: nat): seq<Token> {
    if n == 0 then [] else [Nop] + Nops(n - 1)
  }

  /** Before token i come nops[i] NOPs. */
  function WithNops(tokens: seq<Token>, nops: seq<nat>): seq<Token>
    decreases |tokens|
  {
    var n, rest := if nops == [] then 0 else nops[0], if nops == [] then [] else nops[1..];
    if tokens == [] then Nops(n) else Nops(n) + [tokens[0]] + WithNops(tokens[1..], rest)
  }

  /** The property names, each with its NUL, in the order of the tokens. */
  function StringsOf(tokens: seq<Token>): seq<byte> {
    if tokens == [] then []
    else (if tokens[0].Property? then tokens[0].name + [0] else []) + StringsOf(tokens[1..])
  }

  /** Values and string offsets fit in their words; the next name is at `at` in the strings block. */
  predicate SizesFit(tokens: seq<Token>, at: nat) {
    && at + |StringsOf(tokens)| < U32_LIMIT
    && forall i :: 0 <= i < |tokens| && tokens[i].Property? ==> |tokens[i].value| < U32_LIMIT
  }

  function Encode(token: Token, at: nat): (r: seq<byte>)
    requires at < U32_LIMIT && (token.Property? ==> |token.value| < U32_LIMIT)
    ensures |r| == TokenLength(token)
  {
    match token
    case BeginNode(name) => PackU32(FDT_BEGIN_NODE) + Padded(name + [0])
    case EndNode => PackU32(FDT_END_NODE)
    case Property(_, value) => PackU32(FDT_PROP) + PackU32(|value|) + PackU32(at) + Padded(value)
    case Nop => PackU32(FDT_NOP)
  }

  function NextName(token: Token, at: nat): nat {
    if token.Property? then at + |token.name| + 1 else at
  }

  lemma SizesFitNext(tokens: seq<Token>, at: nat)
    requires tokens != [] && SizesFit(tokens, at)
    ensures SizesFit(tokens[1..], NextName(tokens[0], at))
    ensures at < U32_LIMIT && (tokens[0].Property? ==> |tokens[0].value| < U32_LIMIT)
  {}

  /** The structure block. */
  function StructureOf(tokens: seq<Token>, at: nat): seq<byte>
    requires SizesFit(tokens, at)
    decreases |tokens|
  {
    if tokens == [] then PackU32(FDT_END) else
      SizesFitNext(tokens, at);
      Encode(tokens[0], at) + StructureOf(tokens[1..], NextName(tokens[0], at))
  }

  // --- what the blocks hold ---------------------------------------------------------------------------

  /** data holds e at `offset`. */
  predicate Holds(data: seq<byte>, offset: nat, e: seq<byte>) {
    offset + |e| <= |data| && data[offset..offset + |e|] == e
  }

  lemma HoldsParts(data: seq<byte>, offset: nat, a: seq<byte>, b: seq<byte>)
    requires Holds(data, offset, a + b)
    ensures Holds(data, offset, a) && Holds(data, offset + |a|, b)
  {
    var e := a + b;
    assert data[offset..offset + |a|] == e[..|a|] == a;
    assert data[offset + |a|..offset + |a| + |b|] == e[|a|..] == b;
  }

  lemma WordHeld(data: seq<byte>, offset: nat, n: nat)
    requires n < U32_LIMIT && Holds(data, offset, PackU32(n))
    ensures WordAt(data, offset, n)
  {
    hide PackU32;
    ReadPackedU32(n, data[offset + 4..]);
    assert data[offset..] == PackU32(n) + data[offset + 4..];
  }

  lemma StringHeld(data: seq<byte>, offset: nat, name: Name, rest: seq<byte>)
    requires 0 !in name && Holds(data, offset, name + ([0] + rest))
    ensures StringAt(data, offset, name)
  {
    HoldsParts(data, offset, name, [0] + rest);
    HoldsParts(data, offset + |name|, [0], rest);
    assert data[offset + |name|..offset + |name| + 1][0] == [0][0];
  }

  /** The token can be read back: its name is UTF-8 without NUL. */
  predicate Readable(token: Token) {
    match token
    case BeginNode(name) => 0 !in name && CodePoints(name).Some?
    case Property(name, _) => 0 !in name && CodePoints(name).Some?
    case _ => true
  }

  lemma BeginIsHeld(data: seq<byte>, strings: nat, offset: nat, name: Name)
    requires Readable(BeginNode(name)) && Holds(data, offset, Encode(BeginNode(name), 0))
    ensures TokenAt(data, strings, offset, BeginNode(name))
  {
    hide ReadU32, PackU32, Align, CodePoints, Holds, StringAt;
    var pad := Zeroed(Align(|name| + 1, 4) - |name| - 1);
    assert Encode(BeginNode(name), 0) == PackU32(FDT_BEGIN_NODE) + (name + ([0] + pad));
    HoldsParts(data, offset, PackU32(FDT_BEGIN_NODE), name + ([0] + pad));
    StringHeld(data, offset + 4, name, pad);
    WordHeld(data, offset, FDT_BEGIN_NODE);
  }

  lemma PropertyIsHeld(data: seq<byte>, strings: nat, offset: nat, token: Token, at: nat,
      rest: seq<byte>)
    requires token.Property? && Readable(token) && at < U32_LIMIT && |token.value| < U32_LIMIT
    requires Holds(data, offset, Encode(token, at)) && Holds(data, strings + at, (token.name + [0]) + rest)
    ensures TokenAt(data, strings, offset, token)
  {
    hide ReadU32, PackU32, Align, CodePoints, StringAt;
    var value := token.value;
    var w0, w1, w2, pad := PackU32(FDT_PROP), PackU32(|value|), PackU32(at), Zeroed(Align(|value|, 4) - |value|);
    assert Encode(token, at) == w0 + (w1 + (w2 + (value + pad)));
    HoldsParts(data, offset, w0, w1 + (w2 + (value + pad)));
    HoldsParts(data, offset + 4, w1, w2 + (value + pad));
    HoldsParts(data, offset + 8, w2, value + pad);
    HoldsParts(data, offset + 12, value, pad);
    WordHeld(data, offset, FDT_PROP);
    WordHeld(data, offset + 4, |value|);
    WordHeld(data, offset + 8, at);
    Associate(token.name, [0], rest);
    StringHeld(data, strings + at, token.name, rest);
  }

  lemma TokenIsHeld(data: seq<byte>, strings: nat, offset: nat, token: Token, at: nat,
      rest: seq<byte>)
    requires at < U32_LIMIT && (token.Property? ==> |token.value| < U32_LIMIT) && Readable(token)
    requires Holds(data, offset, Encode(token, at))
    requires token.Property? ==> Holds(data, strings + at, (token.name + [0]) + rest)
    ensures TokenAt(data, strings, offset, token)
  {
    hide Holds, PackU32, CodePoints;
    match token {
      case BeginNode(name) => BeginIsHeld(data, strings, offset, name);
      case Property(_, _) => PropertyIsHeld(data, strings, offset, token, at, rest);
      case EndNode => WordHeld(data, offset, FDT_END_NODE);
      case Nop => WordHeld(data, offset, FDT_NOP);
    }
  }

  /** The first token of the blocks, and the blocks of the others behind it. */
  lemma FirstIsHeld(data: seq<byte>, strings: nat, offset: nat, tokens: seq<Token>, at: nat)
    requires tokens != [] && SizesFit(tokens, at) && Readable(tokens[0])
    requires Holds(data, offset, StructureOf(tokens, at)) && Holds(data, strings + at, StringsOf(tokens))
    ensures TokenAt(data, strings, offset, tokens[0]) && SizesFit(tokens[1..], NextName(tokens[0], at))
    ensures Holds(data, offset + TokenLength(tokens[0]), StructureOf(tokens[1..], NextName(tokens[0], at)))
    ensures Holds(data, strings + NextName(tokens[0], at), StringsOf(tokens[1..]))
  {
    hide Holds, PackU32, CodePoints, Encode, TokenAt, TokenLength, Readable;
    SizesFitNext(tokens, at);
    var token, names := tokens[0], StringsOf(tokens[1..]);
    HoldsParts(data, offset, Encode(token, at), StructureOf(tokens[1..], NextName(token, at)));
    HoldsParts(data, strings + at, if token.Property? then token.name + [0] else [], names);
    TokenIsHeld(data, strings, offset, token, at, names);
  }

  /** A node name that takes as many words in code points as in bytes: every ASCII name, for one. */
  predicate Aligned(name: Name) {
    CodePoints(name).Some? && Align(CodePoints(name).value + 1, 4) == Align(|name| + 1, 4)
  }

  /** A name of ASCII characters is aligned, so the round trip never fails for it. */
  lemma AsciiIsAligned(name: Name)
    requires forall i :: 0 <= i < |name| ==> name[i] < 0x80
    ensures Aligned(name)
  {
    AsciiCodePoints(name);
  }

  /** The blocks of readable tokens hold these tokens, if the node names are aligned. */
  lemma {:induction false} BlocksHold(data: seq<byte>, strings: nat, offset: nat, tokens: seq<Token>, at: nat)
    requires SizesFit(tokens, at)
    requires forall t :: t in tokens ==> Readable(t) && (t.BeginNode? ==> Aligned(t.name))
    requires Holds(data, offset, StructureOf(tokens, at)) && Holds(data, strings + at, StringsOf(tokens))
    ensures BlockAt(data, strings, offset, tokens)
    decreases |tokens|
  {
    hide Holds, TokenAt, CodePoints, PackU32;
    if tokens == [] {
      WordHeld(data, offset, FDT_END);
    } else {
      FirstIsHeld(data, strings, offset, tokens, at);
      BlocksHold(data, strings, offset + TokenLength(tokens[0]), tokens[1..], NextName(tokens[0], at));
      assert tokens[0] in tokens && Advanced(tokens[0]) == TokenLength(tokens[0]);
    }
  }

  // --- names of a legal tree --------------------------------------------------------------------------

  lemma ValidNameIsAscii(name: Name)
    requires ValidNodeName(name) || ValidPropertyName(name)
    ensures 0 !in name && Aligned(name)
  {
    var s := BeforeFinalNewline(name);
    forall i | 0 <= i < |name| ensures 0 < name[i] < 0x80 {
      if i < |s| {
        assert name[i] == s[i];
        CharOfName(name, s, i);
      }
    }
    AsciiIsAligned(name);
  }

  lemma CharOfName(name: Name, s: Name, i: nat)
    requires s == BeforeFinalNewline(name) && i < |s| && (ValidNodeName(name) || ValidPropertyName(name))
    ensures PropertyChar(s[i]) || s[i] == AT
  {
    if !ValidPropertyName(name) && !NodeChars(s) {
      var k :| 0 <= k < |s| && s[k] == AT && NodeChars(s[..k]) && NodeChars(s[k + 1..]);
      if i < k { assert s[i] == s[..k][i]; }
      if i > k { assert s[i] == s[k + 1..][i - k - 1]; }
    }
  }

  predicate NamesAreValid(tokens: seq<Token>) {
    forall t :: t in tokens ==> (t.BeginNode? ==> ValidNodeName(t.name)) && (t.Property? ==> ValidPropertyName(t.name))
  }

  lemma {:induction false} ItemsHaveValidNames(items: seq<Item>)
    requires LegalItems(items)
    ensures NamesAreValid(FlattenItems(items))
    decreases items, 1
  {
    hide ValidNodeName, ValidPropertyName, Distinct;
    if items != [] {
      LegalTail(items);
      ItemHasValidNames(items[0]);
      ItemsHaveValidNames(items[1..]);
    }
  }

  lemma LegalTail(items: seq<Item>)
    requires items != [] && LegalItems(items)
    ensures LegalItem(items[0]) && LegalItems(items[1..])
  {
    hide ValidNodeName, ValidPropertyName;
    assert items[0] in items;
    DistinctTail(ChildNames(items), ChildNames(items[1..]));
    DistinctTail(AttributeNames(items), AttributeNames(items[1..]));
  }

  lemma DistinctTail(s: seq<Name>, t: seq<Name>)
    requires Distinct(s) && (s == [] + t || (s != [] && s == [s[0]] + t))
    ensures Distinct(t)
  {
    var k := |s| - |t|;
    forall i, j | 0 <= i < j < |t| ensures t[i] != t[j] { assert s[i + k] == t[i] && s[j + k] == t[j]; }
  }

  lemma {:induction false} ItemHasValidNames(item: Item)
    requires LegalItem(item)
    ensures NamesAreValid(FlattenItem(item))
    decreases item, 1
  {
    hide ValidNodeName, ValidPropertyName;
    match item {
      case Attribute(_, _) =>
      case Child(node) => ItemsHaveValidNames(node.items);
    }
  }

  // --- NOPs -------------------------------------------------------------------------------------------

  lemma {:induction false} NopsVanish(n: nat, rest: seq<Token>)
    ensures WithoutNops(Nops(n) + rest) == WithoutNops(rest)
  {
    if n == 0 {
      assert [] + rest == rest;
    } else {
      assert (Nops(n) + rest)[1..] == Nops(n - 1) + rest;
      NopsVanish(n - 1, rest);
    }
  }

  lemma {:induction false} WithoutWithNops(tokens: seq<Token>, nops: seq<nat>)
    requires forall t :: t in tokens ==> !t.Nop?
    ensures WithoutNops(WithNops(tokens, nops)) == tokens
    decreases |tokens|
  {
    var n, rest := if nops == [] then 0 else nops[0], if nops == [] then [] else nops[1..];
    if tokens == [] {
      NopsVanish(n, []);
      assert Nops(n) + [] == Nops(n);
    } else {
      var more := [tokens[0]] + WithNops(tokens[1..], rest);
      WithoutWithNops(tokens[1..], rest);
      NopsVanish(n, more);
      assert Nops(n) + more == Nops(n) + [tokens[0]] + WithNops(tokens[1..], rest);
      assert more[1..] == WithNops(tokens[1..], rest) && tokens[0] in tokens;
    }
  }

  lemma {:induction false} OnlyNopsAreNew(tokens: seq<Token>, nops: seq<nat>, t: Token)
    requires t in WithNops(tokens, nops)
    ensures t.Nop? || t in tokens
    decreases |tokens|
  {
    var n, rest := if nops == [] then 0 else nops[0], if nops == [] then [] else nops[1..];
    AllNops(n, t);
    if tokens != [] && t in WithNops(tokens[1..], rest) {
      OnlyNopsAreNew(tokens[1..], rest, t);
    }
  }

  lemma {:induction false} AllNops(n: nat, t: Token)
    ensures t in Nops(n) ==> t.Nop?
  {
    if n > 0 { AllNops(n - 1, t); }
  }

  lemma {:induction false} ItemsHaveNoNops(items: seq<Item>)
    ensures forall t :: t in FlattenItems(items) ==> !t.Nop?
    decreases items, 1
  {
    if items != [] {
      ItemHasNoNops(items[0]);
      ItemsHaveNoNops(items[1..]);
    }
  }

  lemma {:induction false} ItemHasNoNops(item: Item)
    ensures forall t :: t in FlattenItem(item) ==> !t.Nop?
    decreases item, 1
  {
    match item {
      case Attribute(_, _) =>
      case Child(node) => ItemsHaveNoNops(node.items);
    }
  }

  // --- the round trip ---------------------------------------------------------------------------------

  /** The tokens of a tree, with NOPs. */
  function TokensOf(root: Node, nops: seq<nat>): seq<Token> {
    WithNops(Flatten(root), nops)
  }

  /** data holds the structure block of the tree at `offset` and its strings block at `strings`. */
  predicate HoldsTree(data: seq<byte>, strings: nat, offset: nat, root: Node, nops: seq<nat>) {
    var tokens := TokensOf(root, nops);
    SizesFit(tokens, 0) && Holds(data, offset, StructureOf(tokens, 0)) && Holds(data, strings, StringsOf(tokens))
  }

  predicate LegalTree(root: Node) {
    LegalItems(root.items) && Distinct(Phandles(root.items))
  }

  lemma TokensOfTree(root: Node, nops: seq<nat>)
    requires LegalTree(root)
    ensures WithoutNops(TokensOf(root, nops)) == Flatten(root)
    ensures forall t :: t in TokensOf(root, nops) ==>
              (t == BeginNode(root.name)) || (Readable(t) && (t.BeginNode? ==> Aligned(t.name)))
  {
    hide LegalItems, Distinct, WithoutNops, Readable, Aligned, ValidNodeName, ValidPropertyName, Phandles;
    ItemsHaveNoNops(root.items);
    ItemsHaveValidNames(root.items);
    WithoutWithNops(Flatten(root), nops);
    forall t | t in TokensOf(root, nops) && t != BeginNode(root.name)
      ensures Readable(t) && (t.BeginNode? ==> Aligned(t.name))
    {
      OnlyNopsAreNew(Flatten(root), nops, t);
      assert t.Nop? || t == EndNode || t in FlattenItems(root.items);
      ValidTokenIsReadable(t);
    }
  }

  lemma ValidTokenIsReadable(t: Token)
    requires (t.BeginNode? ==> ValidNodeName(t.name)) && (t.Property? ==> ValidPropertyName(t.name))
    ensures Readable(t) && (t.BeginNode? ==> Aligned(t.name))
  {
    if t.BeginNode? || t.Property? { ValidNameIsAscii(t.name); }
  }

  /** A legal tree whose root name is aligned, written in blocks, is parsed into exactly that tree. */
  lemma WrittenTreeIsParsed(data: seq<byte>, strings: nat, offset: nat, root: Node, nops: seq<nat>)
    requires offset % 4 == 0 && LegalTree(root) && HoldsTree(data, strings, offset, root, nops)
    requires 0 !in root.name && Aligned(root.name)
    ensures Sane(BEGIN) && ParseFrom(data, strings, offset, BEGIN).Some?
    ensures ParseFrom(data, strings, offset, BEGIN).value.nodes == LayoutNode(root, 0, NO_NODE)
  {
    hide Holds, LegalItems, Distinct, Phandles, TokensOf, StructureOf, StringsOf, SizesFit, ParseFrom;
    hide Align, CodePoints;
    TokensOfTree(root, nops);
    BlocksHold(data, strings, offset, TokensOf(root, nops), 0);
    ParsingUndoesFlattening(data, strings, offset, TokensOf(root, nops), root);
  }

  // --- a root name that is not aligned ----------------------------------------------------------------

  /** Apart from NOPs, the node with this name comes first. */
  predicate StartsWith(tokens: seq<Token>, name: Name) {
    tokens != [] && (tokens[0] == BeginNode(name) || (tokens[0] == Nop && StartsWith(tokens[1..], name)))
  }

  lemma {:induction false} NopsThenName(n: nat, name: Name, rest: seq<Token>)
    ensures StartsWith(Nops(n) + ([BeginNode(name)] + rest), name)
    decreases n
  {
    var tokens := Nops(n) + ([BeginNode(name)] + rest);
    if n > 0 {
      assert tokens[1..] == Nops(n - 1) + ([BeginNode(name)] + rest);
      NopsThenName(n - 1, name, rest);
    }
  }

  lemma TreeStartsWithRoot(root: Node, nops: seq<nat>)
    ensures StartsWith(TokensOf(root, nops), root.name)
  {
    hide StartsWith, FlattenItems;
    var tokens, more := Flatten(root), if nops == [] then [] else nops[1..];
    var n := if nops == [] then 0 else nops[0];
    NopsThenName(n, root.name, WithNops(tokens[1..], more));
    Associate(Nops(n), [tokens[0]], WithNops(tokens[1..], more));
  }

  lemma HighWord(s: seq<byte>)
    requires |s| >= 4 && (s[0] != 0 || (s[1] == 0 && s[2] == 0 && s[3] == 0))
    ensures ReadU32(s) == 0 || ReadU32(s) >= 0x100_0000
  {}

  /** Where the code points end, four bytes of the name or of its padding are read as the next token. */
  lemma NextTokenIsMalformed(data: seq<byte>, strings: nat, offset: nat, name: Name)
    requires Holds(data, offset, Encode(BeginNode(name), 0)) && 0 !in name && CodePoints(name).Some? && !Aligned(name)
    ensures ScanToken(data, strings, offset + Advanced(BeginNode(name))) == Malformed
  {
    hide CodePoints, PackU32, ReadU32, ParseString, Align, Padded, Aligned;
    var j, s := Align(CodePoints(name).value + 1, 4), Padded(name + [0]);
    HoldsParts(data, offset, PackU32(FDT_BEGIN_NODE), s);
    WordInName(name);
    assert forall k :: j <= k < j + 4 ==> data[offset + 4..offset + 4 + |s|][k] == s[k];
    HighWord(data[offset + 4 + j..]);
  }

  lemma WordInName(name: Name)
    requires 0 !in name && CodePoints(name).Some? && !Aligned(name)
    ensures var j, s := Align(CodePoints(name).value + 1, 4), Padded(name + [0]);
            j + 4 <= |s| && (s[j] != 0 || (s[j + 1] == 0 && s[j + 2] == 0 && s[j + 3] == 0))
  {
    hide CodePoints, Align;
    NextMultiple(CodePoints(name).value, |name|);
  }

  lemma NextMultiple(m: nat, n: nat)
    requires m <= n && Align(m + 1, 4) != Align(n + 1, 4)
    ensures Align(m + 1, 4) <= n && Align(m + 1, 4) + 4 <= Align(n + 1, 4)
  {}

  lemma {:induction false} MisalignedIsRejected(data: seq<byte>, strings: nat, offset: nat, tokens: seq<Token>, at: nat,
      name: Name, s: State)
    requires offset % 4 == 0 && StartsWith(tokens, name) && SizesFit(tokens, at) && Sane(s)
    requires Holds(data, offset, StructureOf(tokens, at)) && Holds(data, strings + at, StringsOf(tokens))
    requires 0 !in name && !Aligned(name)
    ensures ParseFrom(data, strings, offset, s).None?
    decreases |tokens|
  {
    hide CodePoints, PackU32, Align, Holds, ScanToken, Aligned;
    SizesFitNext(tokens, at);
    HoldsParts(data, offset, Encode(tokens[0], at), StructureOf(tokens[1..], NextName(tokens[0], at)));
    if tokens[0] == BeginNode(name) {
      NameIsRejected(data, strings, offset, name, s);
    } else {
      FirstIsHeld(data, strings, offset, tokens, at);
      TokenIsScanned(data, strings, offset, Nop);
      MisalignedIsRejected(data, strings, offset + 4, tokens[1..], at, name, s);
    }
  }

  lemma NameIsRejected(data: seq<byte>, strings: nat, offset: nat, name: Name, s: State)
    requires offset % 4 == 0 && Sane(s) && Holds(data, offset, Encode(BeginNode(name), 0))
    requires 0 !in name && !Aligned(name)
    ensures ParseFrom(data, strings, offset, s).None?
  {
    if CodePoints(name).Some? {
      hide CodePoints, PackU32, Holds, ScanToken, Aligned, Align, ParseFrom, Sane;
      TokenIsHeld(data, strings, offset, BeginNode(name), 0, []);
      TokenIsScanned(data, strings, offset, BeginNode(name));
      NextTokenIsMalformed(data, strings, offset, name);
      StopsBehind(data, strings, offset, s, BeginNode(name));
    } else {
      UndecodableIsMalformed(data, strings, offset, name);
    }
  }

  lemma StopsBehind(data: seq<byte>, strings: nat, offset: nat, s: State, token: Token)
    requires Sane(s) && ScanToken(data, strings, offset) == Scanned(token, offset + Advanced(token))
    requires ScanToken(data, strings, offset + Advanced(token)) == Malformed
    ensures ParseFrom(data, strings, offset, s).None?
  {
    hide ScanToken, Advanced, Advance, Sane;
  }

  lemma {:induction false} UndecodableIsMalformed(data: seq<byte>, strings: nat, offset: nat, name: Name)
    requires Holds(data, offset, Encode(BeginNode(name), 0)) && 0 !in name && CodePoints(name).None?
    ensures ScanToken(data, strings, offset) == Malformed
  {
    hide ReadU32, PackU32, Align, CodePoints, Holds;
    var pad := Zeroed(Align(|name| + 1, 4) - |name| - 1);
    assert Encode(BeginNode(name), 0) == PackU32(FDT_BEGIN_NODE) + (name + ([0] + pad));
    HoldsParts(data, offset, PackU32(FDT_BEGIN_NODE), name + ([0] + pad));
    StringHeld(data, offset + 4, name, pad);
    WordHeld(data, offset, FDT_BEGIN_NODE);
    StringAtEnd(data, offset + 4, name, 0);
  }

  /** The blocks of a legal tree whose root name has no NUL are accepted exactly if the root name is UTF-8 and takes
      as many words in code points as in bytes, and then the tree comes back. */
  lemma WrittenTreeExactly(data: seq<byte>, strings: nat, offset: nat, root: Node, nops: seq<nat>)
    requires offset % 4 == 0 && LegalTree(root) && HoldsTree(data, strings, offset, root, nops) && 0 !in root.name
    ensures Sane(BEGIN)
    ensures ParseFrom(data, strings, offset, BEGIN).Some? <==> Aligned(root.name)
    ensures Aligned(root.name) ==>
              ParseFrom(data, strings, offset, BEGIN).value.nodes == LayoutNode(root, 0, NO_NODE)
  {
    hide Holds, LegalTree, Aligned, ParseFrom, LayoutNode, Sane, TokensOf, StructureOf, StringsOf, SizesFit, StartsWith;
    BeginFollowsStart();
    if Aligned(root.name) {
      WrittenTreeIsParsed(data, strings, offset, root, nops);
    } else {
      TreeStartsWithRoot(root, nops);
      MisalignedIsRejected(data, strings, offset, TokensOf(root, nops), 0, root.name, BEGIN);
    }
  }

  /** Two e with acute accent: four bytes, two code points. */
  const ACCENTED: Name := [0xC3, 0xA9, 0xC3, 0xA9]

  lemma AccentedIsNotAligned()
    ensures CodePoints(ACCENTED) == Some(2) && !Aligned(ACCENTED) && 0 !in ACCENTED
  {
    assert Utf8SequenceLength(ACCENTED) == 2 && ACCENTED[2..] == [0xC3, 0xA9];
    assert Utf8SequenceLength([0xC3, 0xA9]) == 2;
    assert CodePoints(ACCENTED[2..]) == Some(1);
  }

  /** A tree that is legal but for its accented root name, for which the round trip fails. */
  lemma AccentedRootIsRejected(data: seq<byte>, strings: nat, offset: nat)
    requires offset % 4 == 0 && HoldsTree(data, strings, offset, Node(ACCENTED, []), [])
    ensures LegalTree(Node(ACCENTED, []))
    ensures Sane(BEGIN) && ParseFrom(data, strings, offset, BEGIN).None?
  {
    AccentedIsNotAligned();
    hide Aligned, HoldsTree;
    assert LegalTree(Node(ACCENTED, []));
    WrittenTreeExactly(data, strings, offset, Node(ACCENTED, []), []);
  }
}
