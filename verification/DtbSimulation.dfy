/** The linked parser state follows the parser on values, step by step. */
module DtbSimulation {
  import opened Bytes
  import opened Sequences
  import opened DtbTree
  import opened DtbLayout

  // --- appending an item ------------------------------------------------------------------------------

  lemma {:induction false} PropsAppend(items: seq<Item>, item: Item)
    ensures Props(items + [item]) == Props(items) + if item.Attribute? then [(item.name, item.value)] else []
  {
    if items == [] {
      assert [] + [item] == [item];
      assert [item][1..] == [];
    } else {
      assert (items + [item])[1..] == items[1..] + [item];
      PropsAppend(items[1..], item);
    }
  }

  lemma {:induction false} KidsAppend(items: seq<Item>, item: Item, at: nat)
    ensures Kids(items + [item], at)
            == Kids(items, at) + if item.Child? then [(item.node.name, at + SizeItems(items))] else []
    decreases |items|
  {
    hide SizeItem;
    if items == [] {
      assert [] + [item] == [item];
      assert [item][1..] == [];
    } else {
      var rest, next := items[1..], at + SizeItem(items[0]);
      assert (items + [item])[1..] == rest + [item] && (items + [item])[0] == items[0];
      KidsAppend(rest, item, next);
      var first := if items[0].Child? then [(items[0].node.name, at)] else [];
      var last := if item.Child? then [(item.node.name, next + SizeItems(rest))] else [];
      assert Kids(items + [item], at) == first + Kids(rest + [item], next);
      assert Kids(items, at) == first + Kids(rest, next);
      assert at + SizeItems(items) == next + SizeItems(rest);
      hide Kids, SizeItems;
      Associate(first, Kids(rest, next), last);
    }
  }

  lemma {:induction false} LayoutAppend(items: seq<Item>, item: Item, at: nat, parent: int)
    ensures LayoutItems(items + [item], at, parent)
            == LayoutItems(items, at, parent) + LayoutItem(item, at + SizeItems(items), parent)
    decreases |items|
  {
    hide LayoutItem, SizeItem;
    if items == [] {
      assert [] + [item] == [item];
      assert [item][1..] == [];
    } else {
      var rest, next := items[1..], at + SizeItem(items[0]);
      assert (items + [item])[1..] == rest + [item] && (items + [item])[0] == items[0];
      LayoutAppend(rest, item, next, parent);
      Associate(LayoutItem(items[0], at, parent), LayoutItems(rest, next, parent),
                LayoutItem(item, next + SizeItems(rest), parent));
    }
  }

  lemma {:induction false} KidNames(items: seq<Item>, at: nat)
    ensures Keys(Kids(items, at)) == ChildNames(items)
    decreases |items|
  {
    if items != [] {
      KidNames(items[1..], at + SizeItem(items[0]));
    }
  }

  lemma {:induction false} PropNames(items: seq<Item>)
    ensures Keys(Props(items)) == AttributeNames(items)
  {
    if items != [] {
      PropNames(items[1..]);
    }
  }

  lemma {:induction false} ForestLayoutAppend(forest: seq<Node>, node: Node, at: nat)
    ensures LayoutForest(forest + [node], at)
         == LayoutForest(forest, at) + LayoutNode(node, at + SizeForest(forest), NO_NODE)
    ensures SizeForest(forest + [node]) == SizeForest(forest) + Size(node)
    decreases |forest|
  {
    hide LayoutNode, Size;
    if forest == [] {
      assert [] + [node] == [node];
      assert [node][1..] == [];
    } else {
      assert (forest + [node])[1..] == forest[1..] + [node];
      ForestLayoutAppend(forest[1..], node, at + Size(forest[0]));
    }
  }

  // --- the innermost open node ------------------------------------------------------------------------

  function Last(frames: seq<Frame>): Frame
    requires frames != []
  {
    frames[|frames| - 1]
  }

  function Outer(frames: seq<Frame>): seq<Frame>
    requires frames != []
  {
    frames[..|frames| - 1]
  }

  lemma TailOf(frames: seq<Frame>)
    requires |frames| > 1
    ensures Last(frames[1..]) == Last(frames)
    ensures Outer(frames)[0] == frames[0] && Outer(frames)[1..] == Outer(frames[1..])
  {}

  lemma SingleFrame(f: Frame, at: nat, parent: int)
    ensures LayoutFrames([f], at, parent) == LayoutFrame(f, at, parent, [])
    ensures Innermost([f], at, parent) == at
  {
    assert [f][1..] == [];
  }

  lemma FrameRecord(f: Frame, at: nat, parent: int, link: seq<(Name, nat)>)
    ensures LayoutFrame(f, at, parent, link)[0] == Record(f.name, parent, Props(f.items), Kids(f.items, at + 1) + link)
  {}

  lemma UpdateTail<T>(head: seq<T>, tail: seq<T>, i: nat, x: T)
    requires i < |tail|
    ensures (head + tail)[|head| + i := x] == head + tail[i := x]
  {}

  lemma UpdateAndAppend<T>(head: seq<T>, tail: seq<T>, i: nat, x: T, last: T)
    requires i < |tail|
    ensures (head + tail)[|head| + i] == tail[i]
    ensures (head + tail)[|head| + i := x] + [last] == head + (tail[i := x] + [last])
  {
    UpdateTail(head, tail, i, x);
    Associate(head, tail[i := x], [last]);
  }

  lemma FramesUnfold(frames: seq<Frame>, at: nat, parent: int)
    requires frames != []
    ensures var rest, next := frames[1..], Next(frames[0], at);
            && LayoutFrames(frames, at, parent)
               == LayoutFrame(frames[0], at, parent, Link(rest, next)) + LayoutFrames(rest, next, at)
            && Innermost(frames, at, parent) == Innermost(rest, next, at)
  {}

  /** The record of the innermost open node; everything below it is laid out last. */
  lemma {:induction false} InnermostRecord(frames: seq<Frame>, at: nat, parent: int)
    requires frames != []
    ensures var k, l := Innermost(frames, at, parent), LayoutFrames(frames, at, parent);
            && at <= k && Next(Last(frames), k) == at + |l|
            && l[k - at] == Record(Last(frames).name, Innermost(Outer(frames), at, parent),
                                   Props(Last(frames).items), Kids(Last(frames).items, k + 1))
    decreases |frames|
  {
    hide LayoutFrame, Props, Kids;
    if |frames| > 1 {
      TailOf(frames);
      InnermostRecord(frames[1..], Next(frames[0], at), at);
    } else {
      assert frames == [frames[0]] && Outer(frames) == [];
      SingleFrame(frames[0], at, parent);
      FrameRecord(frames[0], at, parent, []);
      assert Kids(Last(frames).items, at + 1) + [] == Kids(Last(frames).items, at + 1);
    }
  }

  // --- a property -------------------------------------------------------------------------------------

  function WithItem(f: Frame, item: Item): Frame {
    f.(items := f.items + [item])
  }

  function Longer(frames: seq<Frame>, item: Item): seq<Frame>
    requires frames != []
  {
    Outer(frames) + [WithItem(Last(frames), item)]
  }

  lemma LongerTail(frames: seq<Frame>, item: Item)
    requires |frames| > 1
    ensures |Longer(frames, item)| == |frames| && Longer(frames, item)[0] == frames[0]
    ensures Longer(frames, item)[1..] == Longer(frames[1..], item)
    ensures Link(Longer(frames[1..], item), 0) == Link(frames[1..], 0)
  {
    TailOf(frames);
  }

  lemma ExtendFrame(f: Frame, name: Name, value: seq<byte>, at: nat, parent: int)
    ensures var l := LayoutFrame(f, at, parent, []);
            LayoutFrame(WithItem(f, Attribute(name, value)), at, parent, []) == l[0 := AddProperty(l[0], name, value)]
  {
    hide Props, Kids, LayoutItems;
    var item := Attribute(name, value);
    PropsAppend(f.items, item);
    KidsAppend(f.items, item, at + 1);
    LayoutAppend(f.items, item, at + 1, at);
    FrameRecord(f, at, parent, []);
    assert Kids(f.items, at + 1) + [] == Kids(f.items, at + 1);
  }

  /** Reading a property changes the record of the innermost open node only. */
  lemma {:induction false} ExtendFrames(frames: seq<Frame>, name: Name, value: seq<byte>, at: nat, parent: int)
    requires frames != []
    ensures var k, l := Innermost(frames, at, parent), LayoutFrames(frames, at, parent);
            var longer := Longer(frames, Attribute(name, value));
            && at <= k < at + |l|
            && LayoutFrames(longer, at, parent) == l[k - at := AddProperty(l[k - at], name, value)]
            && Innermost(longer, at, parent) == k
    decreases |frames|
  {
    hide LayoutFrame, SizeItems, Longer, WithItem, AddProperty, LayoutFrames, Innermost;
    var item, rest := Attribute(name, value), frames[1..];
    if |frames| > 1 {
      var next := Next(frames[0], at);
      LongerTail(frames, item);
      LinkSame(Longer(rest, item), rest, next);
      InnermostRecord(frames, at, parent);
      InnermostRecord(rest, next, at);
      ExtendFrames(rest, name, value, next, at);
      FramesUnfold(frames, at, parent);
      FramesUnfold(Longer(frames, item), at, parent);
      var l, k := LayoutFrames(rest, next, at), Innermost(rest, next, at);
      var head := LayoutFrame(frames[0], at, parent, Link(rest, next));
      assert at + |head| == next;
      UpdateTail(head, l, k - next, AddProperty(l[k - next], name, value));
      assert (head + l)[|head| + (k - next)] == l[k - next];
    } else {
      assert frames == [frames[0]];
      ExtendOnly(frames[0], name, value, at, parent);
    }
  }

  lemma LinkSame(a: seq<Frame>, b: seq<Frame>, at: nat)
    requires Link(a, 0) == Link(b, 0)
    ensures Link(a, at) == Link(b, at)
  {
    if a != [] && b != [] { assert Link(a, 0)[0] == Link(b, 0)[0]; }
  }

  lemma ExtendOnly(f: Frame, name: Name, value: seq<byte>, at: nat, parent: int)
    ensures Longer([f], Attribute(name, value)) == [WithItem(f, Attribute(name, value))]
    ensures var l := LayoutFrames([f], at, parent);
            && |l| > 0
            && LayoutFrames([WithItem(f, Attribute(name, value))], at, parent) == l[0 := AddProperty(l[0], name, value)]
            && Innermost([WithItem(f, Attribute(name, value))], at, parent) == Innermost([f], at, parent) == at
  {
    hide LayoutFrame;
    SingleFrame(f, at, parent);
    SingleFrame(WithItem(f, Attribute(name, value)), at, parent);
    ExtendFrame(f, name, value, at, parent);
    assert Outer([f]) == [];
  }

  // --- opening a node ---------------------------------------------------------------------------------

  lemma BeginOnly(f: Frame, name: Name, at: nat, parent: int)
    ensures var l := LayoutFrames([f], at, parent);
            && |l| > 0 && at + |l| == Next(f, at)
            && LayoutFrames([f, Frame(name, [])], at, parent)
               == l[0 := AddChild(l[0], name, at + |l|)] + [Record(name, at, [], [])]
            && Innermost([f, Frame(name, [])], at, parent) == at + |l|
            && Innermost([f], at, parent) == at
  {
    var g, next := Frame(name, []), Next(f, at);
    SingleFrame(f, at, parent);
    SingleFrame(g, next, at);
    assert [f, g][1..] == [g];
    FrameRecord(f, at, parent, []);
    var l := LayoutFrame(f, at, parent, []);
    var kids := Kids(f.items, at + 1);
    assert (kids + []) + [(name, next)] == kids + [(name, next)];
    assert LayoutFrame(f, at, parent, [(name, next)]) == l[0 := AddChild(l[0], name, next)];
    EmptyFrame(name, next, at);
  }

  /** Opening a node links it to the innermost open one and puts its record last. */
  lemma {:induction false} BeginFrames(frames: seq<Frame>, name: Name, at: nat, parent: int)
    requires frames != []
    ensures var k, l := Innermost(frames, at, parent), LayoutFrames(frames, at, parent);
            && at <= k < at + |l|
            && LayoutFrames(frames + [Frame(name, [])], at, parent)
               == l[k - at := AddChild(l[k - at], name, at + |l|)] + [Record(name, k, [], [])]
            && Innermost(frames + [Frame(name, [])], at, parent) == at + |l|
    decreases |frames|
  {
    hide LayoutFrame, SizeItems, AddChild, LayoutFrames, Innermost;
    var g, rest := Frame(name, []), frames[1..];
    if |frames| > 1 {
      var next := Next(frames[0], at);
      InnermostRecord(frames, at, parent);
      InnermostRecord(rest, next, at);
      BeginFrames(rest, name, next, at);
      assert (frames + [g])[1..] == rest + [g] && (frames + [g])[0] == frames[0];
      FramesUnfold(frames, at, parent);
      FramesUnfold(frames + [g], at, parent);
      var l, k := LayoutFrames(rest, next, at), Innermost(rest, next, at);
      var head := LayoutFrame(frames[0], at, parent, Link(rest, next));
      assert at + |head| == next && Link(rest + [g], next) == Link(rest, next);
      UpdateAndAppend(head, l, k - next, AddChild(l[k - next], name, next + |l|), Record(name, k, [], []));
    } else {
      assert frames == [frames[0]] && frames + [g] == [frames[0], g];
      BeginOnly(frames[0], name, at, parent);
    }
  }

  // --- closing a node ---------------------------------------------------------------------------------

  function Closed(frames: seq<Frame>): seq<Frame>
    requires |frames| > 1
  {
    Longer(Outer(frames), Child(Node(Last(frames).name, Last(frames).items)))
  }

  /** An open child and a finished one are laid out alike. */
  lemma FinishedChild(f: Frame, node: Node, at: nat, parent: int)
    ensures LayoutFrame(WithItem(f, Child(node)), at, parent, [])
            == LayoutFrame(f, at, parent, [(node.name, Next(f, at))]) + LayoutNode(node, Next(f, at), at)
  {
    hide Props, Kids, LayoutItems, LayoutNode;
    var kids, next := Kids(f.items, at + 1), Next(f, at);
    PropsAppend(f.items, Child(node));
    KidsAppend(f.items, Child(node), at + 1);
    LayoutAppend(f.items, Child(node), at + 1, at);
    assert (kids + [(node.name, next)]) + [] == kids + [(node.name, next)];
    assert Props(f.items) + [] == Props(f.items);
    assert LayoutItem(Child(node), next, at) == LayoutNode(node, next, at);
  }

  lemma CloseOnly(f: Frame, g: Frame, at: nat, parent: int)
    ensures LayoutFrames([WithItem(f, Child(Node(g.name, g.items)))], at, parent) == LayoutFrames([f, g], at, parent)
    ensures Innermost([WithItem(f, Child(Node(g.name, g.items)))], at, parent) == Innermost([f], at, parent)
  {
    hide LayoutFrame, LayoutNode, SizeItems;
    var node := Node(g.name, g.items);
    SingleFrame(f, at, parent);
    SingleFrame(g, Next(f, at), at);
    SingleFrame(WithItem(f, Child(node)), at, parent);
    assert [f, g][1..] == [g];
    LayoutFrameIsNode(g, Next(f, at), at);
    FinishedChild(f, node, at, parent);
  }

  lemma LayoutFrameIsNode(f: Frame, at: nat, parent: int)
    ensures LayoutFrame(f, at, parent, []) == LayoutNode(Node(f.name, f.items), at, parent)
  {
    assert Kids(f.items, at + 1) + [] == Kids(f.items, at + 1);
  }

  lemma ClosedTail(frames: seq<Frame>)
    requires |frames| > 2
    ensures |Closed(frames)| > 1 && Closed(frames)[0] == frames[0] && Closed(frames)[1..] == Closed(frames[1..])
    ensures Link(Closed(frames[1..]), 0) == Link(frames[1..], 0)
  {
    TailOf(frames);
    TailOf(Outer(frames));
  }

  /** Closing a node below another one moves no record. */
  lemma {:induction false} CloseFrames(frames: seq<Frame>, at: nat, parent: int)
    requires |frames| > 1
    ensures LayoutFrames(Closed(frames), at, parent) == LayoutFrames(frames, at, parent)
    ensures Innermost(Closed(frames), at, parent) == Innermost(Outer(frames), at, parent)
    decreases |frames|
  {
    hide LayoutFrame, SizeItems, Closed;
    if |frames| > 2 {
      var next := Next(frames[0], at);
      TailOf(frames);
      ClosedTail(frames);
      LinkSame(Closed(frames[1..]), frames[1..], next);
      CloseFrames(frames[1..], next, at);
    } else {
      CloseOnly(frames[0], frames[1], at, parent);
      ClosedPair(frames);
    }
  }

  lemma ClosedPair(frames: seq<Frame>)
    requires |frames| == 2
    ensures frames == [frames[0], frames[1]] && Outer(frames) == [frames[0]]
    ensures Closed(frames) == [WithItem(frames[0], Child(Node(frames[1].name, frames[1].items)))]
  {}

  // --- the simulation ---------------------------------------------------------------------------------

  /** What `__parse_dt_struct` relies on: the current node exists, and refers to an earlier one as its parent. */
  lemma CurrentNodeExists(s: State, z: Zipper)
    requires Follows(s, z)
    ensures z.frames == [] ==> s.node == NO_NODE
    ensures z.frames != [] ==>
      && 0 <= s.node < |s.nodes|
      && s.nodes[s.node] == Record(Last(z.frames).name, Innermost(Outer(z.frames), SizeForest(z.forest), NO_NODE),
                                   Props(Last(z.frames).items), Kids(Last(z.frames).items, s.node + 1))
      && NO_NODE <= s.nodes[s.node].parent < s.node
  {
    hide Props, Kids, SizeItems;
    if z.frames != [] {
      var at := SizeForest(z.forest);
      InnermostRecord(z.frames, at, NO_NODE);
      InnermostIsEarlier(z.frames, at, NO_NODE);
    }
  }

  lemma {:induction false} InnermostIsEarlier(frames: seq<Frame>, at: nat, parent: int)
    requires frames != [] && parent < at
    ensures parent <= Innermost(Outer(frames), at, parent) < Innermost(frames, at, parent)
    ensures at <= Innermost(frames, at, parent)
    decreases |frames|
  {
    if |frames| > 1 {
      TailOf(frames);
      InnermostIsEarlier(frames[1..], Next(frames[0], at), at);
    } else {
      assert frames[1..] == [] && Outer(frames) == [];
    }
  }

  /** A node has been created exactly when the parser on values has begun one. */
  lemma AnyNode(z: Zipper)
    ensures Layout(z) == [] <==> (z.forest == [] && z.frames == [])
  {
    if z.frames != [] {
      InnermostRecord(z.frames, SizeForest(z.forest), NO_NODE);
    }
  }

  lemma BeginSimulates(s: State, z: Zipper, name: Name)
    requires Follows(s, z) && NO_NODE <= s.node < |s.nodes| && (s.node >= 0 ==> NO_NODE <= s.nodes[s.node].parent)
    ensures Advance(s, BeginNode(name)).Some? <==> Step(z, BeginNode(name)).Some?
    ensures Advance(s, BeginNode(name)).Some? ==>
              Follows(Advance(s, BeginNode(name)).value, Step(z, BeginNode(name)).value)
  {
    hide ValidNodeName, ChildNames, Props, Kids, LayoutFrames, LayoutForest, Innermost, SizeItems, AddChild;
    var at := SizeForest(z.forest);
    var old_, g := LayoutForest(z.forest, 0), Frame(name, []);
    AnyNode(z);
    CurrentNodeExists(s, z);
    if z.frames == [] {
      assert [] + [g] == [g];
      FirstFrame(name, at);
      NoFrames(at);
    } else {
      KidNames(Last(z.frames).items, s.node + 1);
      BeginFrames(z.frames, name, at, NO_NODE);
      var l := LayoutFrames(z.frames, at, NO_NODE);
      UpdateTail(old_, l, s.node - at, AddChild(l[s.node - at], name, at + |l|));
    }
  }

  lemma NoFrames(at: nat)
    ensures LayoutFrames([], at, NO_NODE) == []
  {}

  lemma EmptyFrame(name: Name, at: nat, parent: int)
    ensures LayoutFrame(Frame(name, []), at, parent, []) == [Record(name, parent, [], [])]
  {
    assert Kids([], at + 1) + [] == [];
    assert LayoutItems([], at + 1, at) == [];
  }

  lemma FirstFrame(name: Name, at: nat)
    ensures LayoutFrames([Frame(name, [])], at, NO_NODE) == [Record(name, NO_NODE, [], [])]
    ensures Innermost([Frame(name, [])], at, NO_NODE) == at
  {
    SingleFrame(Frame(name, []), at, NO_NODE);
    EmptyFrame(name, at, NO_NODE);
  }

  lemma PropertySimulates(s: State, z: Zipper, name: Name, value: seq<byte>)
    requires Follows(s, z) && NO_NODE <= s.node < |s.nodes| && (s.node >= 0 ==> NO_NODE <= s.nodes[s.node].parent)
    ensures var t := Property(name, value);
            && (Advance(s, t).Some? <==> Step(z, t).Some?)
            && (Advance(s, t).Some? ==> Follows(Advance(s, t).value, Step(z, t).value))
  {
    hide ValidPropertyName, AttributeNames, Props, Kids, LayoutFrames, LayoutForest, Innermost, SizeItems, AddProperty;
    CurrentNodeExists(s, z);
    if z.frames != [] {
      var at := SizeForest(z.forest);
      PropNames(Last(z.frames).items);
      ExtendFrames(z.frames, name, value, at, NO_NODE);
      var l := LayoutFrames(z.frames, at, NO_NODE);
      UpdateTail(LayoutForest(z.forest, 0), l, s.node - at, AddProperty(l[s.node - at], name, value));
      assert Extend(z, Attribute(name, value)).frames == Longer(z.frames, Attribute(name, value));
    }
  }

  lemma EndSimulates(s: State, z: Zipper)
    requires Follows(s, z) && NO_NODE <= s.node < |s.nodes| && (s.node >= 0 ==> NO_NODE <= s.nodes[s.node].parent)
    ensures Advance(s, EndNode).Some? <==> Step(z, EndNode).Some?
    ensures Advance(s, EndNode).Some? ==> Follows(Advance(s, EndNode).value, Step(z, EndNode).value)
  {
    hide Props, Kids, LayoutFrames, LayoutForest, LayoutNode, LayoutFrame, SizeItems;
    CurrentNodeExists(s, z);
    if |z.frames| > 1 {
      CloseFrames(z.frames, SizeForest(z.forest), NO_NODE);
      assert Step(z, EndNode).value.frames == Closed(z.frames);
    } else if |z.frames| == 1 {
      var f, at := z.frames[0], SizeForest(z.forest);
      assert z.frames == [f];
      SingleFrame(f, at, NO_NODE);
      LayoutFrameIsNode(f, at, NO_NODE);
      ForestLayoutAppend(z.forest, Node(f.name, f.items), 0);
      NoFrames(at + Size(Node(f.name, f.items)));
    }
  }

  /** One step of the linked parser is one step of the parser on values. */
  lemma AdvanceSimulates(s: State, z: Zipper, token: Token)
    requires Follows(s, z)
    ensures NO_NODE <= s.node < |s.nodes| && (s.node >= 0 ==> NO_NODE <= s.nodes[s.node].parent)
    ensures Advance(s, token).Some? <==> Step(z, token).Some?
    ensures Advance(s, token).Some? ==> Follows(Advance(s, token).value, Step(z, token).value)
  {
    CurrentNodeExists(s, z);
    hide Follows;
    match token {
      case BeginNode(name) => BeginSimulates(s, z, name);
      case Property(name, value) => PropertySimulates(s, z, name, value);
      case EndNode => EndSimulates(s, z);
      case Nop =>
    }
  }
}