/** Devicetrees as values, their flattening into tokens (Devicetree Specification v0.4, section 5.4), and a
    parser on values that is proved to accept exactly the flattenings of legal trees. */
module DtbTree {
  import opened Bytes
  import opened Sequences

  type Name = seq<byte>

  /** What a node contains, in the order of the structure block. */
  datatype Item =
    | Attribute(name: Name, value: seq<byte>)
    | Child(node: Node)

  datatype Node = Node(name: Name, items: seq<Item>)

  /** A structure block token, with the property name already looked up in the strings block. */
  datatype Token =
    | BeginNode(name: Name)
    | EndNode
    | Property(name: Name, value: seq<byte>)
    | Nop

  // --- names ----------------------------------------------------------------------------------------

  const PHANDLE: Name := [112, 104, 97, 110, 100, 108, 101]
  const NEWLINE: byte := 10
  const AT: byte := 64

  /** [0-9A-Za-z\+,\-\._] */
  predicate NodeChar(b: byte) {
    48 <= b <= 57 || 65 <= b <= 90 || 97 <= b <= 122 || b == 43 || b == 44 || b == 45 || b == 46 || b == 95
  }

  /** [0-9A-Za-z#\+,\-\.\?_] */
  predicate PropertyChar(b: byte) {
    NodeChar(b) || b == 35 || b == 63
  }

  predicate NodeChars(s: Name) {
    |s| > 0 && forall i :: 0 <= i < |s| ==> NodeChar(s[i])
  }

  /** `$` also matches just before a final newline. */
  function BeforeFinalNewline(s: Name): Name {
    if |s| > 0 && s[|s| - 1] == NEWLINE then s[..|s| - 1] else s
  }

  predicate ValidNodeName(name: Name) {
    var s := BeforeFinalNewline(name);
    NodeChars(s) || exists i :: 0 <= i < |s| && s[i] == AT && NodeChars(s[..i]) && NodeChars(s[i + 1..])
  }

  predicate ValidPropertyName(name: Name) {
    var s := BeforeFinalNewline(name);
    |s| > 0 && forall i :: 0 <= i < |s| ==> PropertyChar(s[i])
  }

  // --- flattening -----------------------------------------------------------------------------------

  function Flatten(node: Node): seq<Token>
    decreases node, 0
  {
    [BeginNode(node.name)] + FlattenItems(node.items) + [EndNode]
  }

  function FlattenItems(items: seq<Item>): seq<Token>
    decreases items, 1
  {
    if items == [] then [] else FlattenItem(items[0]) + FlattenItems(items[1..])
  }

  function FlattenItem(item: Item): seq<Token>
    decreases item, 1
  {
    match item
    case Attribute(name, value) => [Property(name, value)]
    case Child(node) => Flatten(node)
  }

  function FlattenForest(forest: seq<Node>): seq<Token> {
    if forest == [] then [] else Flatten(forest[0]) + FlattenForest(forest[1..])
  }

  function WithoutNops(tokens: seq<Token>): seq<Token> {
    if tokens == [] then [] else (if tokens[0].Nop? then [] else [tokens[0]]) + WithoutNops(tokens[1..])
  }

  // --- legal trees ----------------------------------------------------------------------------------

  function ChildNames(items: seq<Item>): seq<Name> {
    if items == [] then [] else (if items[0].Child? then [items[0].node.name] else []) + ChildNames(items[1..])
  }

  function AttributeNames(items: seq<Item>): seq<Name> {
    if items == [] then [] else (if items[0].Attribute? then [items[0].name] else []) + AttributeNames(items[1..])
  }

  /** The phandles of a subtree, in document order. */
  function Phandles(items: seq<Item>): seq<nat>
    decreases items, 1
  {
    if items == [] then [] else PhandlesOf(items[0]) + Phandles(items[1..])
  }

  function PhandlesOf(item: Item): seq<nat>
    decreases item, 1
  {
    match item
    case Attribute(name, value) => if name == PHANDLE && |value| == 4 then [ReadU32(value)] else []
    case Child(node) => Phandles(node.items)
  }

  function ForestPhandles(forest: seq<Node>): seq<nat> {
    if forest == [] then [] else Phandles(forest[0].items) + ForestPhandles(forest[1..])
  }

  predicate LegalAttribute(item: Item)
    requires item.Attribute?
  {
    ValidPropertyName(item.name) && (item.name == PHANDLE ==> |item.value| == 4)
  }

  /** The contents of one node: valid and distinct names, 4-byte phandles, legal children. */
  predicate LegalItems(items: seq<Item>)
    decreases items, 1
  {
    && Distinct(ChildNames(items))
    && Distinct(AttributeNames(items))
    && forall item :: item in items ==> LegalItem(item)
  }

  predicate LegalItem(item: Item)
    decreases item, 1
  {
    match item
    case Attribute(_, _) => LegalAttribute(item)
    case Child(node) => ValidNodeName(node.name) && LegalItems(node.items)
  }

  /** The name of the very first node is not checked. */
  predicate LegalForest(forest: seq<Node>) {
    && (forall k :: 0 <= k < |forest| ==> LegalItems(forest[k].items))
    && (forall k :: 1 <= k < |forest| ==> ValidNodeName(forest[k].name))
    && Distinct(ForestPhandles(forest))
  }

  // --- the parser on values ---------------------------------------------------------------------------

  /** A node that has been begun but not ended. */
  datatype Frame = Frame(name: Name, items: seq<Item>)

  /** The finished top-level nodes, the open nodes from the outermost in, and the phandles seen. */
  datatype Zipper = Zipper(forest: seq<Node>, frames: seq<Frame>, phandles: set<nat>)

  const START := Zipper([], [], {})

  function Extend(z: Zipper, item: Item): Zipper
    requires z.frames != []
  {
    var last := z.frames[|z.frames| - 1];
    z.(frames := z.frames[..|z.frames| - 1] + [last.(items := last.items + [item])])
  }

  /** Attach a finished node where the parser stands. */
  function Attach(z: Zipper, node: Node): Zipper {
    if z.frames == [] then z.(forest := z.forest + [node]) else Extend(z, Child(node))
  }

  function Step(z: Zipper, token: Token): Option<Zipper> {
    match token
    case BeginNode(name) =>
      if (z.forest != [] || z.frames != []) && !ValidNodeName(name) then None
      else if z.frames != [] && name in ChildNames(z.frames[|z.frames| - 1].items) then None
      else Some(z.(frames := z.frames + [Frame(name, [])]))
    case EndNode =>
      if z.frames == [] then None else
        var last := z.frames[|z.frames| - 1];
        Some(Attach(z.(frames := z.frames[..|z.frames| - 1]), Node(last.name, last.items)))
    case Property(name, value) =>
      if z.frames == [] || !ValidPropertyName(name) || name in AttributeNames(z.frames[|z.frames| - 1].items) then None
      else if name == PHANDLE then
        if |value| != 4 || ReadU32(value) in z.phandles then None
        else Some(Extend(z, Attribute(name, value)).(phandles := z.phandles + {ReadU32(value)}))
      else Some(Extend(z, Attribute(name, value)))
    case Nop => Some(z)
  }

  function Run(z: Zipper, tokens: seq<Token>): Option<Zipper>
    decreases |tokens|
  {
    if tokens == [] then Some(z) else
      match Step(z, tokens[0])
      case None => None
      case Some(next) => Run(next, tokens[1..])
  }

  lemma {:induction false} RunAppend(z: Zipper, s: seq<Token>, t: seq<Token>)
    ensures Run(z, s + t) == match Run(z, s) { case None => None case Some(y) => Run(y, t) }
    decreases |s|
  {
    if s == [] {
      assert s + t == t;
    } else {
      assert (s + t)[1..] == s[1..] + t;
      match Step(z, s[0]) {
        case None =>
        case Some(next) => RunAppend(next, s[1..], t);
      }
    }
  }

  lemma {:induction false} RunIgnoresNops(z: Zipper, tokens: seq<Token>)
    ensures Run(z, WithoutNops(tokens)) == Run(z, tokens)
    decreases |tokens|
  {
    if tokens != [] {
      if tokens[0].Nop? {
        assert WithoutNops(tokens) == WithoutNops(tokens[1..]);
        RunIgnoresNops(z, tokens[1..]);
      } else {
        assert WithoutNops(tokens)[1..] == WithoutNops(tokens[1..]);
        match Step(z, tokens[0]) {
          case None =>
          case Some(next) => RunIgnoresNops(next, tokens[1..]);
        }
      }
    }
  }

  // --- completeness: flattenings of legal trees are accepted --------------------------------------------

  function ToSet(s: seq<nat>): set<nat> {
    set x | x in s
  }

  /** The zipper after a whole list of items has been read into the innermost open node. */
  function ExtendAll(z: Zipper, items: seq<Item>): Zipper
    requires z.frames != []
  {
    var last := z.frames[|z.frames| - 1];
    Zipper(z.forest, z.frames[..|z.frames| - 1] + [last.(items := last.items + items)],
           z.phandles + ToSet(Phandles(items)))
  }

  lemma {:induction false} ChildNamesAppend(a: seq<Item>, b: seq<Item>)
    ensures ChildNames(a + b) == ChildNames(a) + ChildNames(b)
  {
    if a == [] {
      assert a + b == b;
    } else {
      assert (a + b)[1..] == a[1..] + b;
      ChildNamesAppend(a[1..], b);
    }
  }

  lemma {:induction false} AttributeNamesAppend(a: seq<Item>, b: seq<Item>)
    ensures AttributeNames(a + b) == AttributeNames(a) + AttributeNames(b)
  {
    if a == [] {
      assert a + b == b;
    } else {
      assert (a + b)[1..] == a[1..] + b;
      AttributeNamesAppend(a[1..], b);
    }
  }

  lemma {:induction false} PhandlesAppend(a: seq<Item>, b: seq<Item>)
    ensures Phandles(a + b) == Phandles(a) + Phandles(b)
  {
    if a == [] {
      assert a + b == b;
    } else {
      assert (a + b)[1..] == a[1..] + b;
      PhandlesAppend(a[1..], b);
    }
  }

  lemma {:induction false} FlattenItemsAppend(a: seq<Item>, b: seq<Item>)
    ensures FlattenItems(a + b) == FlattenItems(a) + FlattenItems(b)
  {
    if a == [] {
      assert a + b == b;
    } else {
      assert (a + b)[1..] == a[1..] + b;
      FlattenItemsAppend(a[1..], b);
    }
  }

  lemma SingleItem(item: Item)
    ensures ChildNames([item]) == if item.Child? then [item.node.name] else []
    ensures AttributeNames([item]) == if item.Attribute? then [item.name] else []
    ensures Phandles([item]) == PhandlesOf(item)
    ensures FlattenItems([item]) == FlattenItem(item)
  {}

  lemma DistinctParts<T>(s: seq<T>, t: seq<T>)
    requires Distinct(s + t)
    ensures Distinct(s) && Distinct(t) && forall x :: x in s ==> x !in t
  {
    forall i, j | 0 <= i < j < |s| ensures s[i] != s[j] { assert (s + t)[i] == s[i] && (s + t)[j] == s[j]; }
    forall i, j | 0 <= i < j < |t| ensures t[i] != t[j] { assert (s + t)[|s| + i] == t[i] && (s + t)[|s| + j] == t[j]; }
    forall i, j | 0 <= i < |s| && 0 <= j < |t| ensures s[i] != t[j] {
      assert (s + t)[i] == s[i] && (s + t)[|s| + j] == t[j];
    }
  }

  lemma ExtendOne(z: Zipper, item: Item)
    requires z.frames != []
    ensures ExtendAll(z, [item]) == Extend(z, item).(phandles := z.phandles + ToSet(PhandlesOf(item)))
  {
    SingleItem(item);
  }

  lemma ExtendMore(z: Zipper, item: Item, rest: seq<Item>)
    requires z.frames != []
    ensures ExtendAll(ExtendAll(z, [item]), rest) == ExtendAll(z, [item] + rest)
  {
    PhandlesAppend([item], rest);
    var last := z.frames[|z.frames| - 1];
    assert (last.items + [item]) + rest == last.items + ([item] + rest);
    assert ToSet(Phandles([item] + rest)) == ToSet(Phandles([item])) + ToSet(Phandles(rest));
  }

  lemma ExtendNone(z: Zipper)
    requires z.frames != []
    ensures ExtendAll(z, []) == z
  {
    var last := z.frames[|z.frames| - 1];
    assert last.items + [] == last.items;
    assert z.frames[..|z.frames| - 1] + [last] == z.frames;
    assert z.phandles + ToSet([]) == z.phandles;
  }

  lemma RunOne(z: Zipper, token: Token)
    ensures Run(z, [token]) == Step(z, token)
  {
    match Step(z, token) {
      case None =>
      case Some(next) => assert Run(next, [token][1..]) == Some(next);
    }
  }

  /** Distinct phandles, none of them seen before, split into two such lists read one after the other. */
  lemma SplitPhandles(seen: set<nat>, s: seq<nat>, t: seq<nat>)
    requires Distinct(s + t) && ToSet(s + t) !! seen
    ensures Distinct(s) && Distinct(t) && ToSet(s) !! seen && ToSet(t) !! seen + ToSet(s)
    ensures seen + ToSet(s + t) == seen + ToSet(s) + ToSet(t)
  {
    DistinctParts(s, t);
    assert ToSet(s + t) == ToSet(s) + ToSet(t);
  }

  /** Reading the flattening of a list of legal items appends them to the innermost open node. */
  lemma {:induction false} RunItems(z: Zipper, items: seq<Item>)
    requires z.frames != [] && LegalItems(z.frames[|z.frames| - 1].items + items)
    requires Distinct(Phandles(items)) && ToSet(Phandles(items)) !! z.phandles
    ensures Run(z, FlattenItems(items)) == Some(ExtendAll(z, items))
    decreases items, 2
  {
    if items == [] {
      ExtendNone(z);
    } else {
      var before, item, rest := z.frames[|z.frames| - 1].items, items[0], items[1..];
      assert items == [item] + rest;
      assert before + items == (before + [item]) + rest;
      SplitPhandles(z.phandles, PhandlesOf(item), Phandles(rest));
      RunItem(z, item, rest);
      SingleItem(item);
      RunItems(ExtendAll(z, [item]), rest);
      RunAppend(z, FlattenItem(item), FlattenItems(rest));
      ExtendMore(z, item, rest);
    }
  }

  /** Reading one legal item appends it. */
  lemma {:induction false} RunItem(z: Zipper, item: Item, rest: seq<Item>)
    requires z.frames != [] && LegalItems((z.frames[|z.frames| - 1].items + [item]) + rest)
    requires Distinct(PhandlesOf(item)) && ToSet(PhandlesOf(item)) !! z.phandles
    ensures Run(z, FlattenItem(item)) == Some(ExtendAll(z, [item]))
    decreases item, 2
  {
    FreshName(z.frames[|z.frames| - 1].items, item, rest);
    ExtendOne(z, item);
    match item {
      case Attribute(name, value) =>
        RunOne(z, Property(name, value));
        if name == PHANDLE {
          assert PhandlesOf(item) == [ReadU32(value)];
          assert ReadU32(value) in ToSet(PhandlesOf(item));
          assert ToSet(PhandlesOf(item)) == {ReadU32(value)};
        } else {
          assert z.phandles + ToSet(PhandlesOf(item)) == z.phandles;
        }
      case Child(node) =>
        RunNode(z, node);
    }
  }

  /** In a legal list of items no item repeats the name of an earlier one. */
  lemma FreshName(before: seq<Item>, item: Item, rest: seq<Item>)
    requires LegalItems((before + [item]) + rest)
    ensures LegalItem(item)
    ensures item.Attribute? ==> item.name !in AttributeNames(before)
    ensures item.Child? ==> item.node.name !in ChildNames(before)
  {
    assert ((before + [item]) + rest)[|before|] == item;
    ChildNamesAppend(before + [item], rest);
    ChildNamesAppend(before, [item]);
    AttributeNamesAppend(before + [item], rest);
    AttributeNamesAppend(before, [item]);
    SingleItem(item);
    DistinctParts(ChildNames(before) + ChildNames([item]), ChildNames(rest));
    DistinctParts(ChildNames(before), ChildNames([item]));
    DistinctParts(AttributeNames(before) + AttributeNames([item]), AttributeNames(rest));
    DistinctParts(AttributeNames(before), AttributeNames([item]));
    match item {
      case Attribute(name, _) => assert AttributeNames([item])[0] == name;
      case Child(node) => assert ChildNames([item])[0] == node.name;
    }
  }

  /** Reading the flattening of a node attaches the node. */
  lemma {:induction false} RunNode(z: Zipper, node: Node)
    requires LegalItems(node.items)
    requires (z.forest == [] && z.frames == []) || ValidNodeName(node.name)
    requires z.frames != [] ==> node.name !in ChildNames(z.frames[|z.frames| - 1].items)
    requires Distinct(Phandles(node.items)) && ToSet(Phandles(node.items)) !! z.phandles
    ensures Run(z, Flatten(node)) == Some(Attach(z, node).(phandles := z.phandles + ToSet(Phandles(node.items))))
    decreases node, 2
  {
    var inner := z.(frames := z.frames + [Frame(node.name, [])]);
    assert [] + node.items == node.items;
    RunItems(inner, node.items);
    EndFull(z, node);
    RunBracketed(z, BeginNode(node.name), FlattenItems(node.items), EndNode, inner, ExtendAll(inner, node.items));
  }

  lemma RunBracketed(z: Zipper, first: Token, middle: seq<Token>, last: Token, y: Zipper, x: Zipper)
    requires Step(z, first) == Some(y) && Run(y, middle) == Some(x)
    ensures Run(z, [first] + middle + [last]) == Step(x, last)
  {
    RunOne(z, first);
    RunOne(x, last);
    RunAppend(z, [first], middle);
    RunAppend(z, [first] + middle, [last]);
  }

  lemma EndFull(z: Zipper, node: Node)
    ensures var inner := z.(frames := z.frames + [Frame(node.name, [])]);
            Step(ExtendAll(inner, node.items), EndNode)
            == Some(Attach(z, node).(phandles := z.phandles + ToSet(Phandles(node.items))))
  {
    var inner := z.(frames := z.frames + [Frame(node.name, [])]);
    var full := ExtendAll(inner, node.items);
    assert [] + node.items == node.items;
    assert full.frames[..|full.frames| - 1] == z.frames;
  }

  lemma LegalParts(forest: seq<Node>)
    requires LegalForest(forest) && forest != []
    ensures LegalItems(forest[0].items) && LegalForest(forest[1..])
    ensures Distinct(Phandles(forest[0].items) + ForestPhandles(forest[1..]))
    ensures |forest| > 1 ==> ValidNodeName(forest[1].name)
  {
    DistinctParts(Phandles(forest[0].items), ForestPhandles(forest[1..]));
  }

  lemma {:induction false} RunForest(z: Zipper, forest: seq<Node>)
    requires z.frames == [] && LegalForest(forest) && (z.forest != [] && forest != [] ==> ValidNodeName(forest[0].name))
    requires ToSet(ForestPhandles(forest)) !! z.phandles
    ensures Run(z, FlattenForest(forest))
            == Some(Zipper(z.forest + forest, [], z.phandles + ToSet(ForestPhandles(forest))))
    decreases |forest|
  {
    hide LegalForest, LegalItems, ValidNodeName, Distinct, ToSet, Phandles, Run, Flatten;
    if forest == [] {
      RunNothing(z);
    } else {
      var node, rest := forest[0], forest[1..];
      LegalParts(forest);
      SplitPhandles(z.phandles, Phandles(node.items), ForestPhandles(rest));
      RunNode(z, node);
      RunAppend(z, Flatten(node), FlattenForest(rest));
      RunForest(Zipper(z.forest + [node], [], z.phandles + ToSet(Phandles(node.items))), rest);
      assert (z.forest + [node]) + rest == z.forest + forest;
    }
  }

  lemma RunNothing(z: Zipper)
    requires z.frames == []
    ensures Run(z, []) == Some(Zipper(z.forest + [], [], z.phandles + ToSet([])))
  {
    assert z.forest + [] == z.forest;
    assert z.phandles + ToSet([]) == z.phandles;
  }
}
