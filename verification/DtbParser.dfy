/** `__parse_dt_struct` on linked FdtNode objects, proved against the parser state of DtbLayout. */
module DtbParser {
  import opened Bytes
  import opened DtbTree
  import opened DtbTokens
  import opened DtbLayout

  // --- what the loop computes -------------------------------------------------------------------------

  /** Parents come before their children, and the current node exists. */
  predicate Sane(s: State) {
    && NO_NODE <= s.node < |s.nodes|
    && (forall i :: 0 <= i < |s.nodes| ==> NO_NODE <= s.nodes[i].parent < i)
    && (forall i, j :: 0 <= i < |s.nodes| && 0 <= j < |s.nodes[i].children| ==> s.nodes[i].children[j].1 < |s.nodes|)
    && (forall v :: v in s.phandles ==> s.phandles[v] < |s.nodes|)
  }

  lemma AdvanceKeepsSane(s: State, token: Token)
    requires Sane(s) && Advance(s, token).Some?
    ensures Sane(Advance(s, token).value)
  {
    hide ValidNodeName, ValidPropertyName, Keys;
  }

  /** The rest of the loop, from `offset` on. A rejection is any exception the source raises. */
  function ParseFrom(data: seq<byte>, strings: nat, offset: nat, s: State): (r: Option<State>)
    requires Sane(s)
    ensures r.Some? ==> Sane(r.value)
    decreases |data| - offset
  {
    match ScanToken(data, strings, offset)
    case Malformed => None
    case Finished => if s.depth == 0 then Some(s) else None
    case Scanned(token, next) =>
      match Advance(s, token)
      case None => None
      case Some(t) => AdvanceKeepsSane(s, token); ParseFrom(data, strings, next, t)
  }

  /** How many ancestors node number i has. */
  function Level(nodes: seq<Record>, i: int): nat
    requires NO_NODE <= i < |nodes| && forall k :: 0 <= k < |nodes| ==> NO_NODE <= nodes[k].parent < k
    decreases i + 1
  {
    if i < 0 || nodes[i].parent < 0 then 0 else 1 + Level(nodes, nodes[i].parent)
  }

  /** The number of the outermost ancestor of node i. */
  function Top(nodes: seq<Record>, i: nat): (t: nat)
    requires i < |nodes| && forall k :: 0 <= k < |nodes| ==> NO_NODE <= nodes[k].parent < k
    ensures t <= i && nodes[t].parent < 0
  {
    if nodes[i].parent < 0 then i else Top(nodes, nodes[i].parent)
  }

  /** Where `get_by_phandle` ends when asked from node i: only the first top-level node keeps an index. */
  function Lookup(s: State, i: nat, v: nat): (r: int)
    requires Sane(s) && i < |s.nodes|
    ensures NO_NODE <= r < |s.nodes|
  {
    if Top(s.nodes, i) == 0 && v in s.phandles then s.phandles[v] else NO_NODE
  }

  // --- linked nodes -----------------------------------------------------------------------------------

  class FdtNode {
    const name: Name
    const parent: FdtNode?
    var children: seq<(Name, FdtNode)>
    var props: seq<(Name, seq<byte>)>
    var phandles: map<nat, FdtNode>
    var depth: nat

    constructor (name: Name, parent: FdtNode?, ghost nodes: seq<FdtNode>, ghost records: seq<Record>, ghost p: int)
      requires |nodes| == |records| && forall i :: 0 <= i < |records| ==> NO_NODE <= records[i].parent < i
      requires forall i :: 0 <= i < |records| ==> nodes[i].parent == Ref(nodes, records[i].parent)
      requires NO_NODE <= p < |records| && parent == Ref(nodes, p)
      ensures this.name == name && this.parent == parent
      ensures children == [] && props == [] && phandles == map[]
      ensures depth == if p < 0 then 0 else 1 + Level(records, p)
    {
      this.name := name;
      this.parent := parent;
      children := [];
      props := [];
      phandles := map[];
      depth := 0;
      new;
      var node: FdtNode := this;
      ghost var k := p;
      while node.parent != null
        invariant NO_NODE <= k < |records| && node.parent == Ref(nodes, k)
        invariant children == [] && props == [] && phandles == map[]
        invariant depth + (if k < 0 then 0 else 1 + Level(records, k)) == if p < 0 then 0 else 1 + Level(records, p)
        decreases k + 1
      {
        node := node.parent;
        depth := depth + 1;
        k := records[k].parent;
      }
    }

    /** `get_by_phandle`: null stands for the failed assertion. */
    method GetByPhandle(phandle: nat, ghost nodes: seq<FdtNode>, ghost s: State, ghost i: nat) returns (r: FdtNode?)
      requires Sane(s) && Mirrors(nodes, s) && i < |nodes| && nodes[i] == this
      ensures r == Ref(nodes, Lookup(s, i, phandle))
    {
      var node: FdtNode := this;
      ghost var k: nat := i;
      while node.parent != null
        invariant k < |nodes| && node == nodes[k] && Top(s.nodes, k) == Top(s.nodes, i)
        decreases k
      {
        node := node.parent;
        k := s.nodes[k].parent;
      }
      if phandle in node.phandles {
        r := node.phandles[phandle];
      } else {
        r := null;
      }
    }
  }

  function Ref(nodes: seq<FdtNode>, i: int): FdtNode?
    requires NO_NODE <= i < |nodes|
  {
    if i < 0 then null else nodes[i]
  }

  /** The object holds what the record says. */
  ghost predicate MirrorsNode(nodes: seq<FdtNode>, n: FdtNode, r: Record, level: nat)
    requires NO_NODE <= r.parent < |nodes| && forall j :: 0 <= j < |r.children| ==> r.children[j].1 < |nodes|
    reads n
  {
    && n.name == r.name
    && n.parent == Ref(nodes, r.parent)
    && n.props == r.props
    && |n.children| == |r.children|
    && (forall j :: 0 <= j < |r.children| ==> n.children[j] == (r.children[j].0, nodes[r.children[j].1]))
    && n.depth == level
  }

  /** Only the first object has a phandle index; it is the state's. */
  ghost predicate HoldsIndex(nodes: seq<FdtNode>, phandles: map<nat, nat>)
    requires forall v :: v in phandles ==> phandles[v] < |nodes|
    reads nodes
  {
    && (forall i :: 1 <= i < |nodes| ==> nodes[i].phandles == map[])
    && (|nodes| > 0 ==>
          && nodes[0].phandles.Keys == phandles.Keys
          && forall v :: v in phandles ==> nodes[0].phandles[v] == nodes[phandles[v]])
  }

  ghost predicate AllDifferent(nodes: seq<FdtNode>) {
    forall i, j :: 0 <= i < j < |nodes| ==> nodes[i] != nodes[j]
  }

  /** The objects, in order of creation, hold the state. */
  ghost predicate Mirrors(nodes: seq<FdtNode>, s: State)
    requires Sane(s)
    reads nodes
  {
    && |nodes| == |s.nodes|
    && AllDifferent(nodes)
    && (forall i :: 0 <= i < |nodes| ==> MirrorsNode(nodes, nodes[i], s.nodes[i], Level(s.nodes, i)))
    && HoldsIndex(nodes, s.phandles)
  }

  ghost predicate Ready(nodes: seq<FdtNode>, s: State, node: FdtNode?)
    reads nodes
  {
    Sane(s) && |nodes| == |s.nodes| && Mirrors(nodes, s) && node == Ref(nodes, s.node)
  }

  // --- the loop ---------------------------------------------------------------------------------------

  method ParseStringAt(data: seq<byte>, offset: nat) returns (r: Option<Name>)
    ensures r == ParseString(data, offset)
  {
    var end := offset;
    while end < |data| && data[end] != 0
      invariant offset <= end && StringEnd(data, offset) == StringEnd(data, end)
      decreases |data| - end
    {
      end := end + 1;
    }
    if end >= |data| || CodePoints(data[offset..end]).None? {
      r := None;
    } else {
      r := Some(data[offset..end]);
    }
  }

  /** One token, read at `offset`; the offset moves behind it. */
  method ReadToken(data: seq<byte>, strings: nat, offset: nat) returns (r: Scan)
    ensures r == ScanToken(data, strings, offset)
  {
    hide ReadU32, Align, CodePoints, ParseString, PySlice;
    if offset + 4 > |data| { return Malformed; }
    var token, after := ReadU32(data[offset..]), offset + 4;
    if token == FDT_BEGIN_NODE {
      var name := ParseStringAt(data, after);
      r := if name.None? then Malformed
           else Scanned(BeginNode(name.value), Align(after + CodePoints(name.value).value + 1, 4));
    } else if token == FDT_END_NODE {
      r := Scanned(EndNode, after);
    } else if token == FDT_PROP {
      if offset + 12 > |data| { return Malformed; }
      var length, nameoff := ReadU32(data[after..]), ReadU32(data[after + 4..]);
      after := after + 8;
      var name := ParseStringAt(data, strings + nameoff);
      r := if name.None? then Malformed
           else Scanned(Property(name.value, PySlice(data, after, after + length)), Align(after + length, 4));
    } else if token == FDT_NOP {
      r := Scanned(Nop, after);
    } else if token == FDT_END {
      r := Finished;
    } else {
      r := Malformed;
    }
  }

  // --- one node at a time -----------------------------------------------------------------------------

  /** b extends a without changing any parent. */
  predicate SameParents(a: seq<Record>, b: seq<Record>) {
    && |a| <= |b|
    && (forall i :: 0 <= i < |a| ==> a[i].parent == b[i].parent)
    && (forall i :: 0 <= i < |b| ==> NO_NODE <= b[i].parent < i)
  }

  lemma {:induction false} LevelSame(a: seq<Record>, b: seq<Record>, i: int)
    requires SameParents(a, b) && NO_NODE <= i < |a|
    ensures Level(a, i) == Level(b, i)
    decreases i + 1
  {
    if i >= 0 && a[i].parent >= 0 { LevelSame(a, b, a[i].parent); }
  }

  lemma LevelsSame(a: seq<Record>, b: seq<Record>)
    requires SameParents(a, b)
    ensures forall i :: 0 <= i < |a| ==> Level(a, i) == Level(b, i)
  {
    forall i | 0 <= i < |a| ensures Level(a, i) == Level(b, i) { LevelSame(a, b, i); }
  }

  lemma ChildKeys(nodes: seq<FdtNode>, s: State, i: nat)
    requires Sane(s) && Mirrors(nodes, s) && i < |nodes|
    ensures Keys(nodes[i].children) == Keys(s.nodes[i].children)
    ensures Keys(nodes[i].props) == Keys(s.nodes[i].props)
  {
    assert MirrorsNode(nodes, nodes[i], s.nodes[i], Level(s.nodes, i));
  }

  lemma AdvanceKeepsParents(s: State, token: Token)
    requires Sane(s) && Advance(s, token).Some?
    ensures SameParents(s.nodes, Advance(s, token).value.nodes)
  {
    AdvanceKeepsSane(s, token);
    hide ValidNodeName, ValidPropertyName, Keys;
  }

  /** n is the node the state has just gained: nothing below it yet. */
  ghost predicate IsNew(nodes: seq<FdtNode>, n: FdtNode, r: Record, level: nat)
    requires NO_NODE <= r.parent < |nodes|
    reads n
  {
    && n !in nodes
    && n.name == r.name && n.parent == Ref(nodes, r.parent) && n.depth == level
    && n.children == [] && n.props == [] && n.phandles == map[]
    && r.children == [] && r.props == []
  }

  /** What `Begin` does to the state. */
  lemma BegunState(s: State, name: Name)
    requires Sane(s) && Advance(s, BeginNode(name)).Some?
    ensures var t, n := Advance(s, BeginNode(name)).value, |s.nodes|;
            && Sane(t) && t.node == n && |t.nodes| == n + 1 && t.phandles == s.phandles
            && t.nodes[n] == Record(name, s.node, [], [])
            && Level(t.nodes, n) == (if s.node < 0 then 0 else 1 + Level(s.nodes, s.node))
            && (forall i :: 0 <= i < n ==> Level(t.nodes, i) == Level(s.nodes, i))
            && (forall i :: 0 <= i < n ==>
                  t.nodes[i] == if i == s.node then AddChild(s.nodes[i], name, n) else s.nodes[i])
  {
    AdvanceKeepsSane(s, BeginNode(name));
    AdvanceKeepsParents(s, BeginNode(name));
    var t := Advance(s, BeginNode(name)).value;
    LevelsSame(s.nodes, t.nodes);
    LevelOfNew(s.nodes, t.nodes);
    hide Level, ValidNodeName, Keys;
  }

  /** The grown list of objects holds the grown state if every object does. */
  lemma Grown(nodes: seq<FdtNode>, n: FdtNode, t: State)
    requires Sane(t) && |t.nodes| == |nodes| + 1 && AllDifferent(nodes) && n !in nodes && n.phandles == map[]
    requires forall v :: v in t.phandles ==> t.phandles[v] < |nodes|
    requires HoldsIndex(nodes, t.phandles)
    requires forall i :: 0 <= i < |nodes| ==> MirrorsNode(nodes + [n], nodes[i], t.nodes[i], Level(t.nodes, i))
    requires MirrorsNode(nodes + [n], n, t.nodes[|nodes|], Level(t.nodes, |nodes|))
    ensures Mirrors(nodes + [n], t)
  {
    hide MirrorsNode, Level;
    if nodes == [] { assert t.phandles == map[]; }
  }

  /** A node without a parent joins the nodes. */
  lemma BegunTop(nodes: seq<FdtNode>, s: State, n: FdtNode, name: Name)
    requires Sane(s) && Mirrors(nodes, s) && s.node == NO_NODE && Advance(s, BeginNode(name)).Some?
    requires IsNew(nodes, n, Record(name, s.node, [], []), 0)
    ensures Sane(Advance(s, BeginNode(name)).value) && Mirrors(nodes + [n], Advance(s, BeginNode(name)).value)
  {
    BegunState(s, name);
    hide Level, Advance, HoldsIndex, AllDifferent;
    var t := Advance(s, BeginNode(name)).value;
    forall i | 0 <= i < |nodes| ensures MirrorsNode(nodes + [n], nodes[i], t.nodes[i], Level(t.nodes, i)) {
      assert MirrorsNode(nodes, nodes[i], s.nodes[i], Level(s.nodes, i));
    }
    Grown(nodes, n, t);
  }

  lemma StillMirrors(nodes: seq<FdtNode>, n: FdtNode, x: FdtNode, r: Record, level: nat)
    requires NO_NODE <= r.parent < |nodes| && forall j :: 0 <= j < |r.children| ==> r.children[j].1 < |nodes|
    requires MirrorsNode(nodes, x, r, level)
    ensures MirrorsNode(nodes + [n], x, r, level)
  {}

  /** A new node is linked to its parent. */
  method LinkChild(name: Name, node: FdtNode, n: FdtNode, ghost nodes: seq<FdtNode>, ghost s: State)
    requires Ready(nodes, s, node) && Advance(s, BeginNode(name)).Some?
    requires IsNew(nodes, n, Record(name, s.node, [], []), 1 + Level(s.nodes, s.node))
    modifies node
    ensures Ready(nodes + [n], Advance(s, BeginNode(name)).value, n)
  {
    BegunState(s, name);
    hide Level, Advance;
    ghost var t, all := Advance(s, BeginNode(name)).value, nodes + [n];
    forall i | 0 <= i < |nodes| ensures MirrorsNode(all, nodes[i], s.nodes[i], Level(s.nodes, i)) {
      StillMirrors(nodes, n, nodes[i], s.nodes[i], Level(s.nodes, i));
    }
    node.children := node.children + [(name, n)];
    assert MirrorsNode(all, node, t.nodes[s.node], Level(t.nodes, s.node));
    assert MirrorsNode(all, n, t.nodes[|nodes|], Level(t.nodes, |nodes|));
    hide MirrorsNode;
    Grown(nodes, n, t);
  }

  /** A node is created, checked against its siblings and linked. */
  method Begin(name: Name, node: FdtNode?, isFirst: bool, ghost nodes: seq<FdtNode>,
      ghost s: State) returns (n: FdtNode?)
    requires Ready(nodes, s, node) && isFirst == (nodes == [])
    modifies node
    ensures n == null <==> Advance(s, BeginNode(name)).None?
    ensures n != null ==> fresh(n) && Ready(nodes + [n], Advance(s, BeginNode(name)).value, n)
  {
    hide Level, ValidNodeName, Keys;
    if !isFirst && !ValidNodeName(name) { return null; }
    n := new FdtNode(name, node, nodes, s.nodes, s.node);
    if node == null {
      BegunTop(nodes, s, n, name);
    } else {
      ChildKeys(nodes, s, s.node);
      if name in Keys(node.children) { return null; }
      LinkChild(name, node, n, nodes, s);
    }
  }

  lemma LevelOfNew(a: seq<Record>, b: seq<Record>)
    requires SameParents(a, b) && |b| == |a| + 1
    ensures var p := b[|a|].parent; Level(b, |a|) == if p < 0 then 0 else 1 + Level(a, p)
  {
    var p := b[|a|].parent;
    if p >= 0 { LevelSame(a, b, p); }
  }

  // --- a property -------------------------------------------------------------------------------------

  /** The property is entered into its node, and a phandle into the index of the first node. */
  method AddProp(name: Name, value: seq<byte>, node: FdtNode?, root: FdtNode?, ghost nodes: seq<FdtNode>,
      ghost s: State)
    returns (ok: bool)
    requires Ready(nodes, s, node) && (nodes != [] ==> root == nodes[0])
    modifies node, root
    ensures ok <==> Advance(s, Property(name, value)).Some?
    ensures ok ==> Ready(nodes, Advance(s, Property(name, value)).value, node)
  {
    hide Level, ValidPropertyName, Keys;
    if node == null { return false; }
    if !ValidPropertyName(name) { return false; }
    ChildKeys(nodes, s, s.node);
    if name in Keys(node.props) { return false; }
    ghost var t := s.(nodes := s.nodes[s.node := AddProperty(s.nodes[s.node], name, value)]);
    EnterProp(name, value, node, nodes, s, t);
    if name == PHANDLE {
      if |value| != 4 { return false; }
      var phandle := ReadU32(value);
      if phandle in root.phandles { return false; }
      EnterPhandle(phandle, node, root, nodes, t);
    }
    ok := true;
  }

  method EnterProp(name: Name, value: seq<byte>, node: FdtNode, ghost nodes: seq<FdtNode>, ghost s: State,
      ghost t: State)
    requires Ready(nodes, s, node)
    requires t == s.(nodes := s.nodes[s.node := AddProperty(s.nodes[s.node], name, value)])
    modifies node`props
    ensures Ready(nodes, t, node)
  {
    assert SameParents(s.nodes, t.nodes);
    LevelsSame(s.nodes, t.nodes);
    hide Level;
    assert MirrorsNode(nodes, node, s.nodes[s.node], Level(s.nodes, s.node));
    node.props := node.props + [(name, value)];
    assert MirrorsNode(nodes, node, t.nodes[s.node], Level(t.nodes, s.node));
    hide MirrorsNode;
    SameObjects(nodes, t);
  }

  lemma SameObjects(nodes: seq<FdtNode>, t: State)
    requires Sane(t) && |nodes| == |t.nodes| && AllDifferent(nodes) && HoldsIndex(nodes, t.phandles)
    requires forall i :: 0 <= i < |nodes| ==> MirrorsNode(nodes, nodes[i], t.nodes[i], Level(t.nodes, i))
    ensures Mirrors(nodes, t)
  {}

  method EnterPhandle(phandle: nat, node: FdtNode, root: FdtNode, ghost nodes: seq<FdtNode>, ghost s: State)
    requires Ready(nodes, s, node) && nodes != [] && root == nodes[0]
    modifies root
    ensures Ready(nodes, s.(phandles := s.phandles[phandle := s.node]), node)
  {
    hide Level;
    root.phandles := root.phandles[phandle := node];
    forall i | 0 <= i < |nodes| ensures MirrorsNode(nodes, nodes[i], s.nodes[i], Level(s.nodes, i)) {
      assert old(MirrorsNode(nodes, nodes[i], s.nodes[i], Level(s.nodes, i)));
    }
  }

  // --- the whole loop ---------------------------------------------------------------------------------

  lemma AdvanceCounts(s: State, token: Token)
    requires Sane(s)
    ensures token.Nop? ==> Advance(s, token).Some?
    ensures Advance(s, EndNode).Some? <==> s.node >= 0 && s.depth > 0
    ensures Advance(s, token).Some? ==>
      var t := Advance(s, token).value;
      && Sane(t)
      && t.depth == (if token.BeginNode? then s.depth + 1 else if token.EndNode? then s.depth - 1 else s.depth)
      && |t.nodes| == |s.nodes| + (if token.BeginNode? then 1 else 0)
      && (token.Nop? ==> t == s)
  {
    if Advance(s, token).Some? { AdvanceKeepsSane(s, token); }
  }

  /** Ending a node moves to its parent and changes nothing else. */
  lemma EndedState(nodes: seq<FdtNode>, s: State, node: FdtNode)
    requires Ready(nodes, s, node) && Advance(s, EndNode).Some?
    ensures Ready(nodes, Advance(s, EndNode).value, node.parent)
  {
    AdvanceKeepsSane(s, EndNode);
    assert MirrorsNode(nodes, node, s.nodes[s.node], Level(s.nodes, s.node));
    hide Level, HoldsIndex, AllDifferent, Sane;
  }

  /** `__parse_dt_struct`: on success the objects, in order of creation, hold the final state. */
  method ParseDtStruct(strings: nat, data: seq<byte>, start: nat)
    returns (ok: bool, root: FdtNode?, ghost nodes: seq<FdtNode>, ghost s: State)
    ensures ok <==> ParseFrom(data, strings, start, BEGIN).Some?
    ensures ok ==> ParseFrom(data, strings, start, BEGIN) == Some(s)
    ensures ok ==> Sane(s) && Mirrors(nodes, s) && root == Ref(nodes, if nodes == [] then NO_NODE else 0)
    ensures forall n :: n in nodes ==> fresh(n)
  {
    hide ScanToken, Advance, Mirrors;
    root := null;
    nodes, s := [], BEGIN;
    var node: FdtNode? := null;
    var depth, offset := 0, start;
    NothingMirrored();
    while true
      invariant Ready(nodes, s, node)
      invariant depth == s.depth && root == Ref(nodes, if nodes == [] then NO_NODE else 0)
      invariant forall n :: n in nodes ==> fresh(n)
      invariant ParseFrom(data, strings, start, BEGIN) == ParseFrom(data, strings, offset, s)
      decreases |data| - offset
    {
      var scan := ReadToken(data, strings, offset);
      match scan {
        case Malformed => return false, root, nodes, s;
        case Finished => return depth == 0, root, nodes, s;
        case Scanned(token, next) =>
          offset := next;
          AdvanceCounts(s, token);
          assert (node == null || node in nodes) && (root == null || root in nodes);
          match token {
            case BeginNode(name) =>
              var n := Begin(name, node, root == null, nodes, s);
              if n == null { return false, root, nodes, s; }
              node, nodes := n, nodes + [n];
              if root == null { root := node; }
              depth := depth + 1;
            case EndNode =>
              if node == null || depth == 0 { return false, root, nodes, s; }
              EndedState(nodes, s, node);
              node := node.parent;
              depth := depth - 1;
            case Property(name, value) =>
              var entered := AddProp(name, value, node, root, nodes, s);
              if !entered { return false, root, nodes, s; }
            case Nop =>
          }
          s := Advance(s, token).value;
      }
    }
  }

  lemma NothingMirrored()
    ensures Ready([], BEGIN, null)
  {}
}