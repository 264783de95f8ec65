/** The parser's state as `__parse_dt_struct` keeps it: nodes in the order they are created, linked by parent and
    child references, a current node, a depth and a phandle index. Every step is shown to follow the parser on
    values, so the linked nodes are always the layout of the tree read so far. */
module DtbLayout {
  import opened Bytes
  import opened DtbTree

  const NO_NODE := -1

  /** One FdtNode: nodes refer to each other by creation number. */
  datatype Record = Record(name: Name, parent: int, props: seq<(Name, seq<byte>)>, children: seq<(Name, nat)>)

  datatype State = State(nodes: seq<Record>, node: int, depth: nat, phandles: map<nat, nat>)

  const BEGIN := State([], NO_NODE, 0, map[])

  function Keys<V>(entries: seq<(Name, V)>): (names: seq<Name>)
    ensures |names| == |entries|
    ensures forall i :: 0 <= i < |entries| ==> names[i] == entries[i].0
  {
    seq(|entries|, i requires 0 <= i < |entries| => entries[i].0)
  }

  function AddChild(r: Record, name: Name, child: nat): Record {
    r.(children := r.children + [(name, child)])
  }

  function AddProperty(r: Record, name: Name, value: seq<byte>): Record {
    r.(props := r.props + [(name, value)])
  }

  /** One iteration of the loop, after its token has been read. */
  function Advance(s: State, token: Token): Option<State>
    requires NO_NODE <= s.node < |s.nodes|
    requires s.node >= 0 ==> NO_NODE <= s.nodes[s.node].parent
  {
    match token
    case BeginNode(name) =>
      if s.nodes != [] && !ValidNodeName(name) then None
      else if s.node >= 0 && name in Keys(s.nodes[s.node].children) then None
      else
        var linked := if s.node >= 0 then s.nodes[s.node := AddChild(s.nodes[s.node], name, |s.nodes|)] else s.nodes;
        Some(s.(nodes := linked + [Record(name, s.node, [], [])], node := |s.nodes|, depth := s.depth + 1))
    case EndNode =>
      if s.node < 0 || s.depth == 0 then None
      else Some(s.(node := s.nodes[s.node].parent, depth := s.depth - 1))
    case Property(name, value) =>
      if s.node < 0 || !ValidPropertyName(name) || name in Keys(s.nodes[s.node].props) then None
      else
        var nodes := s.nodes[s.node := AddProperty(s.nodes[s.node], name, value)];
        if name == PHANDLE then
          if |value| != 4 || ReadU32(value) in s.phandles then None
          else Some(s.(nodes := nodes, phandles := s.phandles[ReadU32(value) := s.node]))
        else Some(s.(nodes := nodes))
    case Nop => Some(s)
  }

  // --- the layout of a tree ---------------------------------------------------------------------------

  function Size(node: Node): (n: nat)
    ensures n >= 1
    decreases node, 0
  {
    1 + SizeItems(node.items)
  }

  function SizeItems(items: seq<Item>): nat
    decreases items, 1
  {
    if items == [] then 0 else SizeItem(items[0]) + SizeItems(items[1..])
  }

  function SizeItem(item: Item): nat
    decreases item, 1
  {
    match item
    case Attribute(_, _) => 0
    case Child(node) => Size(node)
  }

  /** node.props.items() */
  function Props(items: seq<Item>): seq<(Name, seq<byte>)> {
    if items == [] then [] else
      (match items[0] case Attribute(name, value) => [(name, value)] case Child(_) => []) + Props(items[1..])
  }

  /** node.children.items(), where the first child is node number `at`. */
  function Kids(items: seq<Item>, at: nat): seq<(Name, nat)>
    decreases |items|
  {
    if items == [] then [] else
      (if items[0].Child? then [(items[0].node.name, at)] else []) + Kids(items[1..], at + SizeItem(items[0]))
  }

  /** The records of a node and everything below it, when the node is number `at`. */
  function LayoutNode(node: Node, at: nat, parent: int): (r: seq<Record>)
    ensures |r| == Size(node)
    decreases node, 0
  {
    [Record(node.name, parent, Props(node.items), Kids(node.items, at + 1))] + LayoutItems(node.items, at + 1, at)
  }

  function LayoutItems(items: seq<Item>, at: nat, parent: int): (r: seq<Record>)
    ensures |r| == SizeItems(items)
    decreases items, 1
  {
    if items == [] then []
    else LayoutItem(items[0], at, parent) + LayoutItems(items[1..], at + SizeItem(items[0]), parent)
  }

  function LayoutItem(item: Item, at: nat, parent: int): (r: seq<Record>)
    ensures |r| == SizeItem(item)
    decreases item, 1
  {
    match item
    case Attribute(_, _) => []
    case Child(node) => LayoutNode(node, at, parent)
  }

  function SizeForest(forest: seq<Node>): nat {
    if forest == [] then 0 else Size(forest[0]) + SizeForest(forest[1..])
  }

  function LayoutForest(forest: seq<Node>, at: nat): (r: seq<Record>)
    ensures |r| == SizeForest(forest)
    decreases |forest|
  {
    if forest == [] then [] else LayoutNode(forest[0], at, NO_NODE) + LayoutForest(forest[1..], at + Size(forest[0]))
  }

  /** The records of an open node and the finished nodes below it; `link` is the child still open, if any. */
  function LayoutFrame(f: Frame, at: nat, parent: int, link: seq<(Name, nat)>): (r: seq<Record>)
    ensures |r| == 1 + SizeItems(f.items)
  {
    [Record(f.name, parent, Props(f.items), Kids(f.items, at + 1) + link)] + LayoutItems(f.items, at + 1, at)
  }

  function Next(f: Frame, at: nat): nat {
    at + 1 + SizeItems(f.items)
  }

  function Link(frames: seq<Frame>, at: nat): seq<(Name, nat)> {
    if frames == [] then [] else [(frames[0].name, at)]
  }

  /** The records of the open nodes: each but the last has the next one as its latest child. */
  function LayoutFrames(frames: seq<Frame>, at: nat, parent: int): seq<Record>
    decreases |frames|
  {
    if frames == [] then [] else
      var f, rest := frames[0], frames[1..];
      LayoutFrame(f, at, parent, Link(rest, Next(f, at))) + LayoutFrames(rest, Next(f, at), at)
  }

  /** The number of the innermost open node. */
  function Innermost(frames: seq<Frame>, at: nat, parent: int): int
    decreases |frames|
  {
    if frames == [] then parent else Innermost(frames[1..], Next(frames[0], at), at)
  }

  function Layout(z: Zipper): seq<Record> {
    LayoutForest(z.forest, 0) + LayoutFrames(z.frames, SizeForest(z.forest), NO_NODE)
  }

  /** The state that goes with a zipper. */
  predicate Follows(s: State, z: Zipper) {
    && s.nodes == Layout(z)
    && s.node == Innermost(z.frames, SizeForest(z.forest), NO_NODE)
    && s.depth == |z.frames|
    && s.phandles.Keys == z.phandles
  }
}
