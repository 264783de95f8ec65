/** The converse: whatever the parser on values accepts is the flattening of a legal forest. */
module DtbTreeSound {
  import opened Bytes
  import opened Sequences
  import opened DtbTree

  /** The tokens of the nodes that are still open. */
  function OpenLog(frames: seq<Frame>): seq<Token> {
    if frames == [] then [] else [BeginNode(frames[0].name)] + FlattenItems(frames[0].items) + OpenLog(frames[1..])
  }

  function FramePhandles(frames: seq<Frame>): seq<nat> {
    if frames == [] then [] else Phandles(frames[0].items) + FramePhandles(frames[1..])
  }

  /** The tokens a zipper has been built from. */
  function Log(z: Zipper): seq<Token> {
    FlattenForest(z.forest) + OpenLog(z.frames)
  }

  function AllPhandles(z: Zipper): seq<nat> {
    ForestPhandles(z.forest) + FramePhandles(z.frames)
  }

  predicate LegalFrames(forest: seq<Node>, frames: seq<Frame>) {
    && (forall k :: 0 <= k < |frames| ==> LegalItems(frames[k].items))
    && (forall k :: 0 <= k < |frames| && (k > 0 || forest != []) ==> ValidNodeName(frames[k].name))
    && (forall k :: 0 < k < |frames| ==> frames[k].name !in ChildNames(frames[k - 1].items))
  }

  predicate LegalNodes(forest: seq<Node>) {
    && (forall k :: 0 <= k < |forest| ==> LegalItems(forest[k].items))
    && (forall k :: 1 <= k < |forest| ==> ValidNodeName(forest[k].name))
  }

  predicate LegalZipper(z: Zipper) {
    && LegalNodes(z.forest)
    && LegalFrames(z.forest, z.frames)
    && Distinct(AllPhandles(z))
    && ToSet(AllPhandles(z)) == z.phandles
  }

  // --- appending at the end ---------------------------------------------------------------------------

  lemma {:induction false} OpenLogAppend(frames: seq<Frame>, f: Frame)
    ensures OpenLog(frames + [f]) == OpenLog(frames) + ([BeginNode(f.name)] + FlattenItems(f.items))
  {
    hide FlattenItems;
    if frames == [] {
      assert [f][1..] == [];
      assert [] + [f] == [f];
    } else {
      assert (frames + [f])[1..] == frames[1..] + [f];
      OpenLogAppend(frames[1..], f);
    }
  }

  lemma {:induction false} FramePhandlesAppend(frames: seq<Frame>, f: Frame)
    ensures FramePhandles(frames + [f]) == FramePhandles(frames) + Phandles(f.items)
  {
    hide Phandles;
    if frames == [] {
      assert [f][1..] == [];
      assert [] + [f] == [f];
    } else {
      assert (frames + [f])[1..] == frames[1..] + [f];
      FramePhandlesAppend(frames[1..], f);
    }
  }

  lemma {:induction false} ForestAppend(forest: seq<Node>, node: Node)
    ensures FlattenForest(forest + [node]) == FlattenForest(forest) + Flatten(node)
    ensures ForestPhandles(forest + [node]) == ForestPhandles(forest) + Phandles(node.items)
  {
    hide Flatten, Phandles;
    if forest == [] {
      assert [node][1..] == [];
      assert [] + [node] == [node];
    } else {
      assert (forest + [node])[1..] == forest[1..] + [node];
      ForestAppend(forest[1..], node);
    }
  }

  lemma SplitLast(frames: seq<Frame>)
    requires frames != []
    ensures frames == frames[..|frames| - 1] + [frames[|frames| - 1]]
  {}

  lemma DistinctSnoc<T>(s: seq<T>, x: T)
    requires Distinct(s) && x !in s
    ensures Distinct(s + [x])
  {}

  lemma LegalItemsSnoc(items: seq<Item>, item: Item)
    requires LegalItems(items) && LegalItem(item)
    requires item.Attribute? ==> item.name !in AttributeNames(items)
    requires item.Child? ==> item.node.name !in ChildNames(items)
    ensures LegalItems(items + [item])
  {
    ChildNamesAppend(items, [item]);
    AttributeNamesAppend(items, [item]);
    SingleItem(item);
    match item {
      case Attribute(name, _) =>
        DistinctSnoc(AttributeNames(items), name);
        assert ChildNames(items) + [] == ChildNames(items);
      case Child(node) =>
        DistinctSnoc(ChildNames(items), node.name);
        assert AttributeNames(items) + [] == AttributeNames(items);
    }
  }

  /** Adding an item to the innermost open node adds its tokens and its phandles at the end. */
  lemma ExtendLog(z: Zipper, item: Item)
    requires z.frames != []
    ensures Log(Extend(z, item)) == Log(z) + FlattenItem(item)
  {
    hide FlattenForest, FlattenItems, OpenLog;
    var outer, last := z.frames[..|z.frames| - 1], z.frames[|z.frames| - 1];
    SplitLast(z.frames);
    OpenLogAppend(outer, last);
    OpenLogAppend(outer, last.(items := last.items + [item]));
    FlattenItemsAppend(last.items, [item]);
    SingleItem(item);
  }

  lemma ExtendPhandles(z: Zipper, item: Item)
    requires z.frames != []
    ensures AllPhandles(Extend(z, item)) == AllPhandles(z) + PhandlesOf(item)
  {
    hide ForestPhandles, FramePhandles, Phandles;
    var outer, last := z.frames[..|z.frames| - 1], z.frames[|z.frames| - 1];
    SplitLast(z.frames);
    FramePhandlesAppend(outer, last);
    FramePhandlesAppend(outer, last.(items := last.items + [item]));
    PhandlesAppend(last.items, [item]);
    SingleItem(item);
  }

  lemma {:induction false} ExtendLegal(z: Zipper, item: Item)
    requires z.frames != [] && LegalFrames(z.forest, z.frames) && LegalItem(item)
    requires item.Attribute? ==> item.name !in AttributeNames(z.frames[|z.frames| - 1].items)
    requires item.Child? ==> item.node.name !in ChildNames(z.frames[|z.frames| - 1].items)
    ensures LegalFrames(z.forest, Extend(z, item).frames)
  {
    LegalItemsSnoc(z.frames[|z.frames| - 1].items, item);
  }

  // --- every step keeps the invariant -----------------------------------------------------------------

  lemma StepBegin(z: Zipper, name: Name)
    requires LegalZipper(z) && Step(z, BeginNode(name)).Some?
    ensures var y := Step(z, BeginNode(name)).value; LegalZipper(y) && Log(y) == Log(z) + [BeginNode(name)]
  {
    hide Distinct, LegalItems, ValidNodeName, FlattenForest, ForestPhandles;
    BeginLegal(z, name);
    OpenLogAppend(z.frames, Frame(name, []));
    FramePhandlesAppend(z.frames, Frame(name, []));
    assert FramePhandles(z.frames) + [] == FramePhandles(z.frames);
  }

  lemma BeginLegal(z: Zipper, name: Name)
    requires LegalFrames(z.forest, z.frames) && Step(z, BeginNode(name)).Some?
    ensures LegalFrames(z.forest, z.frames + [Frame(name, [])])
  {
    hide LegalItems, ValidNodeName;
    NothingIsLegal();
  }

  lemma NothingIsLegal()
    ensures LegalItems([])
  {}

  lemma StepProperty(z: Zipper, name: Name, value: seq<byte>)
    requires LegalZipper(z) && Step(z, Property(name, value)).Some?
    ensures var y := Step(z, Property(name, value)).value; LegalZipper(y) && Log(y) == Log(z) + [Property(name, value)]
  {
    var item := Attribute(name, value);
    ExtendLog(z, item);
    ExtendPhandles(z, item);
    ExtendLegal(z, item);
    if name == PHANDLE {
      DistinctSnoc(AllPhandles(z), ReadU32(value));
    } else {
      assert AllPhandles(z) + [] == AllPhandles(z);
    }
  }

  /** Closing the innermost node adds its end token ... */
  lemma EndLog(z: Zipper)
    requires z.frames != []
    ensures Log(Step(z, EndNode).value) == Log(z) + [EndNode]
  {
    hide FlattenForest, FlattenItems;
    var outer, last := z.frames[..|z.frames| - 1], z.frames[|z.frames| - 1];
    var node := Node(last.name, last.items);
    SplitLast(z.frames);
    OpenLogAppend(outer, last);
    if outer == [] {
      ForestAppend(z.forest, node);
    } else {
      ExtendLog(z.(frames := outer), Child(node));
    }
  }

  /** ... and no phandle. */
  lemma EndPhandles(z: Zipper)
    requires z.frames != []
    ensures AllPhandles(Step(z, EndNode).value) == AllPhandles(z)
  {
    hide ForestPhandles, Phandles;
    var outer, last := z.frames[..|z.frames| - 1], z.frames[|z.frames| - 1];
    var node := Node(last.name, last.items);
    SplitLast(z.frames);
    FramePhandlesAppend(outer, last);
    if outer == [] {
      ForestAppend(z.forest, node);
    } else {
      ExtendPhandles(z.(frames := outer), Child(node));
    }
  }

  lemma EndLegal(z: Zipper)
    requires z.frames != [] && LegalNodes(z.forest) && LegalFrames(z.forest, z.frames)
    ensures var y := Step(z, EndNode).value; LegalNodes(y.forest) && LegalFrames(y.forest, y.frames)
  {
    hide LegalItems, ValidNodeName, ChildNames;
    var outer, last := z.frames[..|z.frames| - 1], z.frames[|z.frames| - 1];
    var node := Node(last.name, last.items);
    if outer == [] {
      assert Step(z, EndNode).value.forest == z.forest + [node];
    } else {
      ChildIsLegal(node);
      ExtendLegal(z.(frames := outer), Child(node));
    }
  }

  lemma ChildIsLegal(node: Node)
    requires ValidNodeName(node.name) && LegalItems(node.items)
    ensures LegalItem(Child(node))
  {}

  lemma StepEnd(z: Zipper)
    requires LegalZipper(z) && Step(z, EndNode).Some?
    ensures var y := Step(z, EndNode).value; LegalZipper(y) && Log(y) == Log(z) + [EndNode]
  {
    EndLog(z);
    EndPhandles(z);
    EndLegal(z);
    hide LegalNodes, LegalFrames, Log, AllPhandles, Distinct;
  }

  lemma StepKeepsInvariant(z: Zipper, token: Token)
    requires LegalZipper(z) && Step(z, token).Some?
    ensures var y := Step(z, token).value; LegalZipper(y) && Log(y) == Log(z) + WithoutNops([token])
  {
    match token {
      case BeginNode(name) => StepBegin(z, name);
      case Property(name, value) => StepProperty(z, name, value);
      case EndNode => StepEnd(z);
      case Nop =>
    }
  }

  lemma {:induction false} RunKeepsInvariant(z: Zipper, tokens: seq<Token>)
    requires LegalZipper(z) && Run(z, tokens).Some?
    ensures var y := Run(z, tokens).value; LegalZipper(y) && Log(y) == Log(z) + WithoutNops(tokens)
    decreases |tokens|
  {
    hide LegalZipper, Step, Log, WithoutNops;
    if tokens == [] {
      assert Log(z) + [] == Log(z);
      NoNops(tokens);
    } else {
      StepKeepsInvariant(z, tokens[0]);
      RunKeepsInvariant(Step(z, tokens[0]).value, tokens[1..]);
      NopsApart(tokens);
    }
  }

  lemma NoNops(tokens: seq<Token>)
    requires tokens == []
    ensures WithoutNops(tokens) == []
  {}

  lemma NopsApart(tokens: seq<Token>)
    requires tokens != []
    ensures WithoutNops(tokens) == WithoutNops([tokens[0]]) + WithoutNops(tokens[1..])
  {}

  lemma StartIsLegal()
    ensures LegalZipper(START) && Log(START) == []
  {}

  /** What is accepted with every node closed is the flattening of the forest returned, which is legal. */
  lemma AcceptedIsFlattening(tokens: seq<Token>, z: Zipper)
    requires Run(START, tokens) == Some(z) && z.frames == []
    ensures LegalForest(z.forest) && FlattenForest(z.forest) == WithoutNops(tokens)
  {
    hide Run;
    StartIsLegal();
    RunKeepsInvariant(START, tokens);
    assert AllPhandles(z) == ForestPhandles(z.forest);
    assert Log(z) == FlattenForest(z.forest);
  }

  /** The flattening of a legal forest is accepted, whatever NOPs are in it, and gives the forest back. */
  lemma FlatteningIsAccepted(tokens: seq<Token>, forest: seq<Node>)
    requires LegalForest(forest) && FlattenForest(forest) == WithoutNops(tokens)
    ensures Run(START, tokens) == Some(Zipper(forest, [], ToSet(ForestPhandles(forest))))
  {
    hide Run, LegalForest;
    RunForest(START, forest);
    RunIgnoresNops(START, tokens);
    assert [] + forest == forest && {} + ToSet(ForestPhandles(forest)) == ToSet(ForestPhandles(forest));
  }
}
