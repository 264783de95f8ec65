/** Which written trees are accepted: exactly the legal ones, whatever their names, and what that means for a name. */
module DtbNames {
  import opened Bytes
  import opened Sequences
  import opened DtbTree
  import opened DtbTreeSound
  import opened DtbTokens
  import opened DtbLayout
  import opened DtbParser
  import opened DtbTheorems
  import opened DtbSerializer
  import opened DtbSign
  import opened DtbImage

  // --- a flattening is the flattening of one tree ------------------------------------------------------

  /** Up to the end token of its node, a list of items can be read back in one way only. */
  lemma {:induction false} ItemsFromTokens(a: seq<Item>, b: seq<Item>, x: seq<Token>, y: seq<Token>)
    requires FlattenItems(a) + [EndNode] + x == FlattenItems(b) + [EndNode] + y
    ensures a == b && x == y
    decreases |FlattenItems(a)|
  {
    var s, t := FlattenItems(a) + [EndNode] + x, FlattenItems(b) + [EndNode] + y;
    if a == [] || b == [] {
      FirstToken(a, x);
      FirstToken(b, y);
      assert s[0] == t[0] && s[1..] == t[1..];
      assert ([] + [EndNode] + x)[1..] == x && ([] + [EndNode] + y)[1..] == y;
    } else {
      FirstToken(a, x);
      FirstToken(b, y);
      ItemThenRest(a, x);
      ItemThenRest(b, y);
      assert s[0] == t[0] && s[1..] == t[1..];
      match a[0] {
        case Attribute(_, _) => ItemsFromTokens(a[1..], b[1..], x, y);
        case Child(n) =>
          var rest, other := FlattenItems(a[1..]) + [EndNode] + x, FlattenItems(b[1..]) + [EndNode] + y;
          ItemsFromTokens(n.items, b[0].node.items, rest, other);
          ItemsFromTokens(a[1..], b[1..], x, y);
      }
      assert a == [a[0]] + a[1..] && b == [b[0]] + b[1..];
    }
  }

  lemma FirstToken(a: seq<Item>, x: seq<Token>)
    ensures (FlattenItems(a) + [EndNode] + x)[0]
         == if a == [] then EndNode
            else if a[0].Attribute? then Property(a[0].name, a[0].value)
            else BeginNode(a[0].node.name)
  {
    if a == [] {
      assert FlattenItems(a) == [];
    } else {
      assert FlattenItem(a[0]) != [] && (FlattenItems(a) + [EndNode] + x)[0] == FlattenItem(a[0])[0];
    }
  }

  /** What follows the first token. */
  lemma ItemThenRest(a: seq<Item>, x: seq<Token>)
    requires a != []
    ensures var rest := FlattenItems(a[1..]) + [EndNode] + x;
            (FlattenItems(a) + [EndNode] + x)[1..]
            == if a[0].Attribute? then rest else FlattenItems(a[0].node.items) + [EndNode] + rest
  {
    var rest := FlattenItems(a[1..]) + [EndNode] + x;
    assert FlattenItems(a) + [EndNode] + x == FlattenItem(a[0]) + rest;
    hide FlattenItems;
    match a[0] {
      case Attribute(name, value) => assert ([Property(name, value)] + rest)[1..] == rest;
      case Child(n) => NodeThenRest(n, rest);
    }
  }

  lemma NodeThenRest(n: Node, rest: seq<Token>)
    ensures (Flatten(n) + rest)[1..] == FlattenItems(n.items) + [EndNode] + rest
  {
    hide FlattenItems;
    var items := FlattenItems(n.items);
    assert Flatten(n) + rest == [BeginNode(n.name)] + (items + [EndNode] + rest);
  }

  lemma ForestFromTokens(forest: seq<Node>, root: Node)
    requires FlattenForest(forest) == Flatten(root)
    ensures forest == [root]
  {
    assert forest != [];
    var rest := FlattenForest(forest[1..]);
    var n := forest[0];
    assert Flatten(n) + rest == [BeginNode(n.name)] + (FlattenItems(n.items) + [EndNode] + rest);
    assert Flatten(root) == [BeginNode(root.name)] + (FlattenItems(root.items) + [EndNode] + []);
    assert (Flatten(n) + rest)[1..] == FlattenItems(n.items) + [EndNode] + rest;
    assert Flatten(root)[1..] == FlattenItems(root.items) + [EndNode] + [];
    ItemsFromTokens(n.items, root.items, rest, []);
    assert forest[1..] == [];
    assert forest == [n];
  }

  // --- names that cannot be read ----------------------------------------------------------------------

  predicate HasNoNul(t: Token) {
    t.BeginNode? || t.Property? ==> 0 !in t.name
  }

  predicate IsRead(t: Token) {
    Readable(t) && (t.BeginNode? ==> Aligned(t.name))
  }

  lemma UndecodableProperty(data: seq<byte>, strings: nat, offset: nat, token: Token, at: nat, rest: seq<byte>)
    requires token.Property? && 0 !in token.name && CodePoints(token.name).None?
    requires at < U32_LIMIT && |token.value| < U32_LIMIT
    requires Holds(data, offset, Encode(token, at)) && Holds(data, strings + at, (token.name + [0]) + rest)
    ensures ScanToken(data, strings, offset) == Malformed
  {
    hide ReadU32, PackU32, Align, CodePoints, Holds, StringAt, StringEnd, Padded;
    var w0, w1, w2, body := PackU32(FDT_PROP), PackU32(|token.value|), PackU32(at), Padded(token.value);
    assert Encode(token, at) == w0 + (w1 + (w2 + body));
    HoldsParts(data, offset, w0, w1 + (w2 + body));
    HoldsParts(data, offset + 4, w1, w2 + body);
    HoldsParts(data, offset + 8, w2, body);
    WordHeld(data, offset, FDT_PROP);
    WordHeld(data, offset + 8, at);
    Associate(token.name, [0], rest);
    StringHeld(data, strings + at, token.name, rest);
    StringAtEnd(data, strings + at, token.name, 0);
    FieldsAreInside(data, offset, w0 + (w1 + (w2 + body)));
  }

  lemma FieldsAreInside(data: seq<byte>, offset: nat, e: seq<byte>)
    requires Holds(data, offset, e)
    ensures offset + |e| <= |data|
  {}

  /** A token that cannot be read makes the blocks malformed, wherever it stands. */
  lemma {:induction false} UnreadIsMalformed(data: seq<byte>, strings: nat, offset: nat, tokens: seq<Token>, at: nat)
    requires offset % 4 == 0 && SizesFit(tokens, at)
    requires Holds(data, offset, StructureOf(tokens, at)) && Holds(data, strings + at, StringsOf(tokens))
    requires (forall t :: t in tokens ==> HasNoNul(t)) && exists t :: t in tokens && !IsRead(t)
    ensures ScanAll(data, strings, offset).None?
    decreases |tokens|
  {
    hide Holds, CodePoints, ScanToken, TokenAt, IsRead, Readable, Encode, Advanced, TokenLength;
    var token, names := tokens[0], StringsOf(tokens[1..]);
    assert token in tokens;
    SizesFitNext(tokens, at);
    HoldsParts(data, offset, Encode(token, at), StructureOf(tokens[1..], NextName(token, at)));
    HoldsParts(data, strings + at, if token.Property? then token.name + [0] else [], names);
    if IsRead(token) {
      ReadIsReadable(token);
      FirstIsHeld(data, strings, offset, tokens, at);
      TokenIsScanned(data, strings, offset, token);
      var t :| t in tokens && !IsRead(t);
      assert t in tokens[1..];
      UnreadIsMalformed(data, strings, offset + TokenLength(token), tokens[1..], NextName(token, at));
    } else if token.Property? {
      UnreadToken(token, at);
      UndecodableProperty(data, strings, offset, token, at, names);
    } else {
      UnreadToken(token, at);
      NameIsUnread(data, strings, offset, token.name);
    }
  }

  lemma UnreadToken(t: Token, at: nat)
    requires HasNoNul(t) && !IsRead(t)
    ensures t.BeginNode? || t.Property?
    ensures 0 !in t.name && (t.Property? ==> CodePoints(t.name).None?) && (t.BeginNode? ==> !Aligned(t.name))
    ensures t.BeginNode? && at < U32_LIMIT ==> Encode(t, at) == Encode(BeginNode(t.name), 0)
  {}

  lemma ReadIsReadable(t: Token)
    requires IsRead(t)
    ensures Readable(t) && Advanced(t) == TokenLength(t)
  {}

  lemma NameIsUnread(data: seq<byte>, strings: nat, offset: nat, name: Name)
    requires offset % 4 == 0 && Holds(data, offset, Encode(BeginNode(name), 0)) && 0 !in name && !Aligned(name)
    ensures ScanAll(data, strings, offset).None?
  {
    hide PackU32, Holds, ScanToken, TokenAt, Encode, Advanced, ScanAll;
    if CodePoints(name).Some? {
      hide CodePoints, Aligned, Align;
      TokenIsHeld(data, strings, offset, BeginNode(name), 0, []);
      TokenIsScanned(data, strings, offset, BeginNode(name));
      NextTokenIsMalformed(data, strings, offset, name);
      ScanStops(data, strings, offset, BeginNode(name));
    } else {
      UndecodableIsMalformed(data, strings, offset, name);
      MalformedScan(data, strings, offset);
    }
  }

  lemma MalformedScan(data: seq<byte>, strings: nat, offset: nat)
    requires ScanToken(data, strings, offset) == Malformed
    ensures ScanAll(data, strings, offset).None?
  {
    hide ScanToken;
  }

  lemma ScanStops(data: seq<byte>, strings: nat, offset: nat, token: Token)
    requires ScanToken(data, strings, offset) == Scanned(token, offset + Advanced(token))
    requires ScanToken(data, strings, offset + Advanced(token)) == Malformed
    ensures ScanAll(data, strings, offset).None?
  {
    hide ScanToken, Advanced;
    MalformedScan(data, strings, offset + Advanced(token));
  }

  // --- every written tree -------------------------------------------------------------------------------

  /** No name in the tree holds a NUL, which would end it in the blocks. */
  predicate NulFree(root: Node) {
    forall t :: t in Flatten(root) ==> HasNoNul(t)
  }

  /** A written tree is accepted exactly if it is legal and its root name takes as many words in code points as in
      bytes: no other tree gets through, and every legal one comes back. */
  lemma WrittenExactly(data: seq<byte>, strings: nat, offset: nat, root: Node, nops: seq<nat>)
    requires offset % 4 == 0 && HoldsTree(data, strings, offset, root, nops) && NulFree(root)
    ensures Sane(BEGIN)
    ensures ParseFrom(data, strings, offset, BEGIN).Some? <==> LegalTree(root) && Aligned(root.name)
    ensures ParseFrom(data, strings, offset, BEGIN).Some? ==>
              ParseFrom(data, strings, offset, BEGIN).value.nodes == LayoutNode(root, 0, NO_NODE)
  {
    hide Holds, LegalTree, Aligned, ParseFrom, LayoutNode, Sane, StructureOf, StringsOf, SizesFit, HasNoNul, Flatten;
    BeginFollowsStart();
    RootHasNoNul(root);
    if LegalTree(root) {
      WrittenTreeExactly(data, strings, offset, root, nops);
    } else if ParseFrom(data, strings, offset, BEGIN).Some? {
      AcceptedIsLegal(data, strings, offset, root, nops);
    }
  }

  lemma RootHasNoNul(root: Node)
    requires NulFree(root)
    ensures 0 !in root.name
  {
    assert Flatten(root)[0] == BeginNode(root.name);
    assert HasNoNul(BeginNode(root.name));
  }

  lemma AcceptedIsLegal(data: seq<byte>, strings: nat, offset: nat, root: Node, nops: seq<nat>)
    requires offset % 4 == 0 && HoldsTree(data, strings, offset, root, nops) && NulFree(root)
    requires Sane(BEGIN) && ParseFrom(data, strings, offset, BEGIN).Some?
    ensures LegalTree(root)
  {
    hide Holds, LegalItems, Distinct, Phandles, ParseFrom, Sane, StructureOf, StringsOf, SizesFit, HasNoNul, IsRead;
    hide BlockAt, LegalNodes, Run, FlattenItems;
    var tokens := TokensOf(root, nops);
    var forest, scanned := AcceptedIsLayout(data, strings, offset);
    ScannedExactly(data, strings, offset, scanned);
    TokensOfAnyTree(root, nops);
    if t :| t in tokens && !IsRead(t) {
      UnreadIsMalformed(data, strings, offset, tokens, 0);
    }
    AllRead(data, strings, offset, tokens);
    ScannedExactly(data, strings, offset, tokens);
    ForestFromTokens(forest, root);
    LegalForestOfOne(root);
  }

  lemma AllRead(data: seq<byte>, strings: nat, offset: nat, tokens: seq<Token>)
    requires SizesFit(tokens, 0) && forall t :: t in tokens ==> IsRead(t)
    requires Holds(data, offset, StructureOf(tokens, 0)) && Holds(data, strings, StringsOf(tokens))
    ensures BlockAt(data, strings, offset, tokens)
  {
    hide Holds, BlockAt, StructureOf, StringsOf, SizesFit, Readable, Aligned;
    BlocksHold(data, strings, offset, tokens, 0);
  }

  lemma LegalForestOfOne(root: Node)
    requires LegalForest([root])
    ensures LegalTree(root)
  {
    hide LegalItems, Phandles;
    assert [root][0] == root && [root][1..] == [];
    assert ForestPhandles([]) == [] && Phandles(root.items) + [] == Phandles(root.items);
  }

  lemma TokensOfAnyTree(root: Node, nops: seq<nat>)
    requires NulFree(root)
    ensures WithoutNops(TokensOf(root, nops)) == Flatten(root)
    ensures forall t :: t in TokensOf(root, nops) ==> HasNoNul(t)
  {
    hide WithoutNops, HasNoNul;
    ItemsHaveNoNops(root.items);
    WithoutWithNops(Flatten(root), nops);
    forall t | t in TokensOf(root, nops) ensures HasNoNul(t) {
      OnlyNopsAreNew(Flatten(root), nops, t);
      if t.Nop? { NopHasNoNul(t); }
    }
  }

  lemma NopHasNoNul(t: Token)
    requires t.Nop?
    ensures HasNoNul(t)
  {}

  // --- names, spelled out -------------------------------------------------------------------------------

  /** The name without one newline at its end. */
  function Cut(name: Name): Name {
    if name != [] && name[|name| - 1] == 10 then name[..|name| - 1] else name
  }

  /** Digits, letters, "+", ",", "-", "." and "_". */
  predicate InNodeAlphabet(b: byte) {
    0x30 <= b <= 0x39 || 0x41 <= b <= 0x5A || 0x61 <= b <= 0x7A || b in {0x2B, 0x2C, 0x2D, 0x2E, 0x5F}
  }

  /** A property name: these, "#" and "?". */
  predicate IsPropertyText(s: Name) {
    s != [] && forall i :: 0 <= i < |s| ==> InNodeAlphabet(s[i]) || s[i] == 0x23 || s[i] == 0x3F
  }

  /** A node name: these, and at most one "@", which has text on both sides. */
  predicate IsNodeText(s: Name) {
    && s != [] && (forall i :: 0 <= i < |s| ==> InNodeAlphabet(s[i]) || s[i] == 0x40)
    && (forall i, j :: 0 <= i < j < |s| ==> s[i] != 0x40 || s[j] != 0x40)
    && s[0] != 0x40 && s[|s| - 1] != 0x40
  }

  lemma PropertyNameIs(name: Name)
    ensures ValidPropertyName(name) <==> IsPropertyText(Cut(name))
  {}

  lemma NodeNameIs(name: Name)
    ensures ValidNodeName(name) <==> IsNodeText(Cut(name))
  {
    var s := Cut(name);
    if IsNodeText(s) && !NodeChars(s) {
      var i :| 0 <= i < |s| && !NodeChar(s[i]);
      assert s[i] == 0x40;
      forall k | 0 <= k < |s| && k != i ensures NodeChar(s[k]) {
        assert s[k] != 0x40;
      }
      assert NodeChars(s[..i]) && NodeChars(s[i + 1..]);
    }
    if i :| 0 <= i < |s| && s[i] == AT && NodeChars(s[..i]) && NodeChars(s[i + 1..]) {
      forall k | 0 <= k < |s| && k != i ensures NodeChar(s[k]) {
        if k < i { assert s[k] == s[..i][k]; } else { assert s[k] == s[i + 1..][k - i - 1]; }
      }
    }
  }

  /** Header check and parser, on a whole blob. */
  predicate IsParsed(image: seq<byte>)
    requires |image| >= HEADER_LENGTH && Sane(BEGIN)
  {
    var h := ParsedHeader(image[..HEADER_LENGTH]);
    Passes(h, |image|) && ParseFrom(image, h.offDtStrings, h.offDtStruct, BEGIN).Some?
  }

  lemma ImageExactly(root: Node, nops: seq<nat>, cpu: nat)
    requires ImageFits(root, nops, cpu) && NulFree(root)
    ensures Sane(BEGIN) && |Image(root, nops, cpu)| >= HEADER_LENGTH
    ensures IsParsed(Image(root, nops, cpu)) <==> LegalTree(root) && Aligned(root.name)
  {
    hide Image, LegalTree, HoldsTree, ParseFrom, Aligned, ParsedHeader, NulFree;
    BeginFollowsStart();
    ImageHoldsTree(root, nops, cpu);
    var image := Image(root, nops, cpu);
    var h := ParsedHeader(image[..HEADER_LENGTH]);
    WrittenExactly(image, h.offDtStrings, h.offDtStruct, root, nops);
  }

  /** The root node of a blob has no name. */
  function WithProperty(name: Name, value: seq<byte>): Node {
    Node([], [Attribute(name, value)])
  }

  function WithChild(name: Name): Node {
    Node([], [Child(Node(name, []))])
  }

  lemma EmptyIsAligned()
    ensures Aligned([])
  {
    AsciiIsAligned([]);
  }

  lemma NoItems(items: seq<Item>)
    requires items == []
    ensures FlattenItems(items) == [] && LegalItems(items)
  {}

  lemma OnlyItem(item: Item)
    ensures LegalItems([item]) <==> LegalItem(item)
  {
    hide LegalItem;
    SingleItem(item);
    assert [item][0] == item && item in [item];
  }

  lemma OnePropertyIsLegal(name: Name, value: seq<byte>)
    ensures LegalTree(WithProperty(name, value)) <==> ValidPropertyName(name) && (name == PHANDLE ==> |value| == 4)
    ensures NulFree(WithProperty(name, value)) <==> 0 !in name
  {
    hide ValidPropertyName;
    SingleItem(Attribute(name, value));
    OnlyItem(Attribute(name, value));
    var items := [Attribute(name, value)];
    assert FlattenItem(items[0]) == [Property(name, value)];
    hide FlattenItems, AttributeNames, ChildNames, Phandles;
    assert Flatten(WithProperty(name, value)) == [BeginNode([]), Property(name, value), EndNode];
    assert Property(name, value) in Flatten(WithProperty(name, value));
    assert HasNoNul(Property(name, value)) <==> 0 !in name;
  }

  lemma OneChildIsLegal(name: Name)
    ensures LegalTree(WithChild(name)) <==> ValidNodeName(name)
    ensures NulFree(WithChild(name)) <==> 0 !in name
  {
    hide ValidNodeName;
    SingleItem(Child(Node(name, [])));
    OnlyItem(Child(Node(name, [])));
    NoItems([]);
    var items := [Child(Node(name, []))];
    hide FlattenItems, AttributeNames, ChildNames, Phandles;
    assert FlattenItem(items[0]) == Flatten(Node(name, [])) == [BeginNode(name), EndNode];
    assert Flatten(WithChild(name)) == [BeginNode([]), BeginNode(name), EndNode, EndNode];
    assert BeginNode(name) in Flatten(WithChild(name));
    assert HasNoNul(BeginNode(name)) <==> 0 !in name;
  }

  /** A blob whose root has one property, not "phandle", is parsed exactly if the name is of the alphabet. */
  lemma PropertyNamesExactly(name: Name, value: seq<byte>, nops: seq<nat>, cpu: nat)
    requires ImageFits(WithProperty(name, value), nops, cpu) && 0 !in name
    requires name != [0x70, 0x68, 0x61, 0x6E, 0x64, 0x6C, 0x65]
    ensures Sane(BEGIN) && |Image(WithProperty(name, value), nops, cpu)| >= HEADER_LENGTH
    ensures IsParsed(Image(WithProperty(name, value), nops, cpu)) <==> IsPropertyText(Cut(name))
  {
    hide ValidPropertyName, IsPropertyText, ImageFits, Image, LegalTree, NulFree, IsParsed, Aligned, WithProperty;
    OnePropertyIsLegal(name, value);
    PropertyNameIs(name);
    EmptyIsAligned();
    RootIsUnnamed(name, value);
    ImageExactly(WithProperty(name, value), nops, cpu);
  }

  lemma RootIsUnnamed(name: Name, value: seq<byte>)
    ensures WithProperty(name, value).name == WithChild(name).name == []
  {}

  /** With the name "phandle", exactly if the value has four bytes. */
  lemma PhandleExactly(value: seq<byte>, nops: seq<nat>, cpu: nat)
    requires ImageFits(WithProperty([0x70, 0x68, 0x61, 0x6E, 0x64, 0x6C, 0x65], value), nops, cpu)
    ensures var root := WithProperty([0x70, 0x68, 0x61, 0x6E, 0x64, 0x6C, 0x65], value);
            && Sane(BEGIN) && |Image(root, nops, cpu)| >= HEADER_LENGTH
            && (IsParsed(Image(root, nops, cpu)) <==> |value| == 4)
  {
    hide ValidPropertyName, IsPropertyText, ImageFits, Image, LegalTree, NulFree, IsParsed, Aligned, WithProperty;
    var name: Name := [0x70, 0x68, 0x61, 0x6E, 0x64, 0x6C, 0x65];
    OnePropertyIsLegal(name, value);
    PhandleIsText(name);
    PropertyNameIs(name);
    EmptyIsAligned();
    RootIsUnnamed(name, value);
    ImageExactly(WithProperty(name, value), nops, cpu);
  }

  lemma PhandleIsText(name: Name)
    requires name == [0x70, 0x68, 0x61, 0x6E, 0x64, 0x6C, 0x65]
    ensures IsPropertyText(Cut(name)) && name == PHANDLE && 0 !in name
  {}

  /** A blob whose root has one child is parsed exactly if the child's name is of the alphabet of node names. */
  lemma NodeNamesExactly(name: Name, nops: seq<nat>, cpu: nat)
    requires ImageFits(WithChild(name), nops, cpu) && 0 !in name
    ensures Sane(BEGIN) && |Image(WithChild(name), nops, cpu)| >= HEADER_LENGTH
    ensures IsParsed(Image(WithChild(name), nops, cpu)) <==> IsNodeText(Cut(name))
  {
    hide ValidNodeName, IsNodeText, ImageFits, Image, LegalTree, NulFree, IsParsed, Aligned, WithChild;
    OneChildIsLegal(name);
    NodeNameIs(name);
    EmptyIsAligned();
    RootIsUnnamed(name, []);
    ImageExactly(WithChild(name), nops, cpu);
  }

  // --- names and phandles that occur twice ----------------------------------------------------------------

  lemma TwoItems(a: Item, b: Item)
    ensures FlattenItems([a, b]) == FlattenItem(a) + FlattenItem(b)
    ensures Phandles([a, b]) == PhandlesOf(a) + PhandlesOf(b)
    ensures ChildNames([a, b]) == ChildNames([a]) + ChildNames([b])
    ensures AttributeNames([a, b]) == AttributeNames([a]) + AttributeNames([b])
  {
    SingleItem(a);
    SingleItem(b);
    assert [a, b][1..] == [b];
  }

  lemma TwoAreLegal(a: Item, b: Item)
    ensures LegalItems([a, b]) <==>
              && LegalItem(a) && LegalItem(b)
              && (a.Attribute? && b.Attribute? ==> a.name != b.name)
              && (a.Child? && b.Child? ==> a.node.name != b.node.name)
  {
    TwoItems(a, b);
    SingleItem(a);
    SingleItem(b);
    hide ChildNames, AttributeNames, Distinct;
    DistinctTwo(AttributeNames([a]), AttributeNames([b]));
    DistinctTwo(ChildNames([a]), ChildNames([b]));
    hide LegalItem;
    assert [a, b][0] == a && [a, b][1] == b && a in [a, b] && b in [a, b];
  }

  lemma DistinctTwo(s: seq<Name>, t: seq<Name>)
    requires |s| <= 1 && |t| <= 1
    ensures Distinct(s + t) <==> !(s != [] && t != [] && s[0] == t[0])
  {
    if s != [] && t != [] { assert (s + t)[0] == s[0] && (s + t)[1] == t[0]; }
  }

  /** Two properties of the root: accepted exactly if both names are of the alphabet, and they differ. */
  lemma TwoPropertiesExactly(a: Name, b: Name, value: seq<byte>, nops: seq<nat>, cpu: nat)
    requires ImageFits(Node([], [Attribute(a, value), Attribute(b, value)]), nops, cpu) && 0 !in a && 0 !in b
    requires a != [0x70, 0x68, 0x61, 0x6E, 0x64, 0x6C, 0x65] && b != [0x70, 0x68, 0x61, 0x6E, 0x64, 0x6C, 0x65]
    ensures var image := Image(Node([], [Attribute(a, value), Attribute(b, value)]), nops, cpu);
            && Sane(BEGIN) && |image| >= HEADER_LENGTH
            && (IsParsed(image) <==> IsPropertyText(Cut(a)) && IsPropertyText(Cut(b)) && a != b)
  {
    hide ValidPropertyName, IsPropertyText, ImageFits, Image, IsParsed, Aligned, HasNoNul;
    var root := Node([], [Attribute(a, value), Attribute(b, value)]);
    PropertyNameIs(a);
    PropertyNameIs(b);
    EmptyIsAligned();
    TwoItems(Attribute(a, value), Attribute(b, value));
    TwoAreLegal(Attribute(a, value), Attribute(b, value));
    NoNulInTwo(root, [Property(a, value), Property(b, value)]);
    assert Phandles(root.items) == [];
    hide LegalItems, Phandles;
    ImageExactly(root, nops, cpu);
  }

  lemma NoNulInTwo(root: Node, tokens: seq<Token>)
    requires root.name == [] && FlattenItems(root.items) == tokens
    requires forall t :: t in tokens ==> t.EndNode? || ((t.BeginNode? || t.Property?) && 0 !in t.name)
    ensures NulFree(root)
  {
    hide FlattenItems;
    forall t | t in Flatten(root) ensures HasNoNul(t) { assert t == BeginNode([]) || t == EndNode || t in tokens; }
  }

  /** Two children of the root: accepted exactly if both names are of the alphabet, and they differ. */
  lemma TwoChildrenExactly(a: Name, b: Name, nops: seq<nat>, cpu: nat)
    requires ImageFits(Node([], [Child(Node(a, [])), Child(Node(b, []))]), nops, cpu) && 0 !in a && 0 !in b
    ensures var image := Image(Node([], [Child(Node(a, [])), Child(Node(b, []))]), nops, cpu);
            && Sane(BEGIN) && |image| >= HEADER_LENGTH
            && (IsParsed(image) <==> IsNodeText(Cut(a)) && IsNodeText(Cut(b)) && a != b)
  {
    hide ValidNodeName, IsNodeText, ImageFits, Image, IsParsed, Aligned, HasNoNul;
    var root := Node([], [Child(Node(a, [])), Child(Node(b, []))]);
    NodeNameIs(a);
    NodeNameIs(b);
    EmptyIsAligned();
    NoItems([]);
    TwoItems(Child(Node(a, [])), Child(Node(b, [])));
    TwoAreLegal(Child(Node(a, [])), Child(Node(b, [])));
    NoNulInTwo(root, [BeginNode(a), EndNode, BeginNode(b), EndNode]);
    assert Phandles([]) == [] && Phandles(root.items) == [];
    hide LegalItems, Phandles;
    ImageExactly(root, nops, cpu);
  }

  /** The phandle of a child. */
  function Carrier(name: Name, value: seq<byte>): Item {
    Child(Node(name, [Attribute([0x70, 0x68, 0x61, 0x6E, 0x64, 0x6C, 0x65], value)]))
  }

  lemma CarrierIsLegal(name: Name, value: seq<byte>)
    requires |value| == 4
    ensures LegalItem(Carrier(name, value)) <==> ValidNodeName(name)
    ensures PhandlesOf(Carrier(name, value)) == [ReadU32(value)]
    ensures FlattenItem(Carrier(name, value)) == [BeginNode(name), Property(PHANDLE, value), EndNode]
  {
    hide ValidNodeName, ValidPropertyName, ReadU32;
    PhandleIsText(PHANDLE);
    PropertyNameIs(PHANDLE);
    SingleItem(Attribute(PHANDLE, value));
    OnlyItem(Attribute(PHANDLE, value));
    hide LegalItems, Phandles, FlattenItems;
  }

  /** Two children with allowed names and phandles: accepted exactly if names and phandles differ. */
  lemma TwoPhandlesExactly(a: Name, b: Name, v: seq<byte>, w: seq<byte>, nops: seq<nat>, cpu: nat)
    requires ImageFits(Node([], [Carrier(a, v), Carrier(b, w)]), nops, cpu) && 0 !in a && 0 !in b && |v| == |w| == 4
    requires IsNodeText(Cut(a)) && IsNodeText(Cut(b))
    ensures var image := Image(Node([], [Carrier(a, v), Carrier(b, w)]), nops, cpu);
            && Sane(BEGIN) && |image| >= HEADER_LENGTH
            && (IsParsed(image) <==> a != b && v != w)
  {
    hide ValidNodeName, IsNodeText, ImageFits, Image, IsParsed, Aligned;
    hide HasNoNul, LegalItem, ReadU32, FlattenItem, PhandlesOf;
    var root := Node([], [Carrier(a, v), Carrier(b, w)]);
    NodeNameIs(a);
    NodeNameIs(b);
    EmptyIsAligned();
    CarrierIsLegal(a, v);
    CarrierIsLegal(b, w);
    TwoItems(Carrier(a, v), Carrier(b, w));
    TwoAreLegal(Carrier(a, v), Carrier(b, w));
    SameWord(v, w);
    hide LegalItems, Phandles, FlattenItems, Carrier;
    CarriersAreNulFree(a, b, v, w);
    TwoNumbers(ReadU32(v), ReadU32(w));
    CarrierNames(a, b, v, w);
    ImageExactly(root, nops, cpu);
  }

  lemma CarrierNames(a: Name, b: Name, v: seq<byte>, w: seq<byte>)
    ensures Carrier(a, v).Child? && Carrier(b, w).Child? && Carrier(a, v).node.name == a && Carrier(b, w).node.name == b
  {}

  lemma TwoNumbers(x: nat, y: nat)
    ensures Distinct([x] + [y]) <==> x != y
  {
    assert ([x] + [y])[0] == x && ([x] + [y])[1] == y;
  }

  lemma CarriersAreNulFree(a: Name, b: Name, v: seq<byte>, w: seq<byte>)
    requires 0 !in a && 0 !in b && |v| == |w| == 4
    ensures NulFree(Node([], [Carrier(a, v), Carrier(b, w)]))
  {
    hide LegalItem, ReadU32, PhandlesOf, FlattenItem, Carrier;
    CarrierIsLegal(a, v);
    CarrierIsLegal(b, w);
    TwoItems(Carrier(a, v), Carrier(b, w));
    PhandleIsText(PHANDLE);
    var first := [BeginNode(a), Property(PHANDLE, v), EndNode];
    NoNulInTwo(Node([], [Carrier(a, v), Carrier(b, w)]), first + [BeginNode(b), Property(PHANDLE, w), EndNode]);
  }

  lemma SameWord(v: seq<byte>, w: seq<byte>)
    requires |v| == |w| == 4
    ensures ReadU32(v) == ReadU32(w) <==> v == w
  {
    hide ReadU32, PackU32;
    PackReadU32(v);
    PackReadU32(w);
    assert v[..4] == v && w[..4] == w;
  }
}
