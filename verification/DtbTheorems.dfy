/** What `__parse_dt_struct` guarantees: it inverts the flattening of the standard, it accepts nothing else, its
    links and depths are consistent in every reachable state, and its phandle index is exact. */
module DtbTheorems {
  import opened Bytes
  import opened Sequences
  import opened DtbTree
  import opened DtbTreeSound
  import opened DtbTokens
  import opened DtbLayout
  import opened DtbSimulation
  import opened DtbParser

  // --- parsing and flattening -------------------------------------------------------------------------

  /** The loop on bytes is the scanner followed by the parser on values. */
  lemma {:induction false} ParseIsScanThenRun(data: seq<byte>, strings: nat, offset: nat, s: State, z: Zipper)
    requires Sane(s) && Follows(s, z)
    ensures var p, tokens := ParseFrom(data, strings, offset, s), ScanAll(data, strings, offset);
            && (p.Some? <==> tokens.Some? && Run(z, tokens.value).Some? && Run(z, tokens.value).value.frames == [])
            && (p.Some? ==> Follows(p.value, Run(z, tokens.value).value))
    decreases |data| - offset
  {
    hide ScanToken, Advance, Step, Sane;
    match ScanToken(data, strings, offset) {
      case Malformed =>
      case Finished =>
      case Scanned(token, next) =>
        AdvanceSimulates(s, z, token);
        match Advance(s, token) {
          case None => RunHead(z, token, data, strings, next);
          case Some(t) =>
            AdvanceKeepsSane(s, token);
            ParseIsScanThenRun(data, strings, next, t, Step(z, token).value);
            RunHead(z, token, data, strings, next);
        }
    }
  }

  lemma RunHead(z: Zipper, token: Token, data: seq<byte>, strings: nat, next: nat)
    ensures var rest := ScanAll(data, strings, next);
            rest.Some? ==>
              Run(z, [token] + rest.value)
              == match Step(z, token) { case None => None case Some(y) => Run(y, rest.value) }
  {
    var rest := ScanAll(data, strings, next);
    if rest.Some? {
      assert ([token] + rest.value)[1..] == rest.value;
    }
  }

  lemma BeginFollowsStart()
    ensures Sane(BEGIN) && Follows(BEGIN, START)
  {}

  /** Parsing undoes flattening: a structure block that holds the flattening of a legal tree, with NOPs anywhere
      and any padding, is parsed into the layout of exactly that tree. */
  lemma ParsingUndoesFlattening(data: seq<byte>, strings: nat, offset: nat, tokens: seq<Token>,
      root: Node)
    requires offset % 4 == 0 && BlockAt(data, strings, offset, tokens)
    requires WithoutNops(tokens) == Flatten(root)
    requires LegalItems(root.items) && Distinct(Phandles(root.items))
    ensures Sane(BEGIN) && ParseFrom(data, strings, offset, BEGIN).Some?
    ensures ParseFrom(data, strings, offset, BEGIN).value.nodes == LayoutNode(root, 0, NO_NODE)
  {
    ScannedExactly(data, strings, offset, tokens);
    OneTree(root);
    FlatteningIsAccepted(tokens, [root]);
    BeginFollowsStart();
    ParseIsScanThenRun(data, strings, offset, BEGIN, START);
    LayoutOfOneTree(root);
  }

  lemma {:induction false} OneTree(root: Node)
    requires LegalItems(root.items) && Distinct(Phandles(root.items))
    ensures LegalForest([root]) && FlattenForest([root]) == Flatten(root)
  {
    assert [root][1..] == [];
    assert FlattenForest([]) == [] && ForestPhandles([]) == [];
    assert Flatten(root) + [] == Flatten(root);
    assert Phandles(root.items) + [] == Phandles(root.items);
  }

  lemma LayoutOfOneTree(root: Node)
    ensures LayoutForest([root], 0) + [] == LayoutNode(root, 0, NO_NODE)
  {
    assert [root][1..] == [];
    assert LayoutForest([], Size(root)) == [];
  }

  /** data holds the flattening of the forest at `offset`, as these tokens. */
  predicate Encodes(data: seq<byte>, strings: nat, offset: nat, forest: seq<Node>, tokens: seq<Token>) {
    LegalForest(forest) && WithoutNops(tokens) == FlattenForest(forest) && BlockAt(data, strings, offset, tokens)
  }

  /** Nothing else is accepted: the bytes from `offset` on are the flattening of a legal forest, with NOPs and any
      padding, every property name lies in the strings block, and the nodes are the layout of that forest. */
  lemma AcceptedIsLayout(data: seq<byte>, strings: nat, offset: nat)
    returns (forest: seq<Node>, tokens: seq<Token>)
    requires offset % 4 == 0 && Sane(BEGIN) && ParseFrom(data, strings, offset, BEGIN).Some?
    ensures Encodes(data, strings, offset, forest, tokens)
    ensures ParseFrom(data, strings, offset, BEGIN).value.nodes == LayoutForest(forest, 0)
  {
    BeginFollowsStart();
    ParseIsScanThenRun(data, strings, offset, BEGIN, START);
    tokens := ScanAll(data, strings, offset).value;
    ScannedExactly(data, strings, offset, tokens);
    var z := Run(START, tokens).value;
    AcceptedIsFlattening(tokens, z);
    forest := z.forest;
    assert LayoutFrames([], SizeForest(forest), NO_NODE) == [];
    assert LayoutForest(forest, 0) + [] == LayoutForest(forest, 0);
  }

  /** What is laid out like that is accepted, as the layout of the forest. */
  lemma LaidOutIsAccepted(data: seq<byte>, strings: nat, offset: nat, forest: seq<Node>, tokens: seq<Token>)
    requires offset % 4 == 0 && Sane(BEGIN) && Encodes(data, strings, offset, forest, tokens)
    ensures ParseFrom(data, strings, offset, BEGIN).Some?
    ensures ParseFrom(data, strings, offset, BEGIN).value.nodes == LayoutForest(forest, 0)
  {
    ScannedExactly(data, strings, offset, tokens);
    FlatteningIsAccepted(tokens, forest);
    BeginFollowsStart();
    ParseIsScanThenRun(data, strings, offset, BEGIN, START);
    assert LayoutFrames([], SizeForest(forest), NO_NODE) == [];
    assert LayoutForest(forest, 0) + [] == LayoutForest(forest, 0);
  }

  /** Both directions: a structure block is accepted exactly if it encodes a legal forest. */
  lemma AcceptedExactly(data: seq<byte>, strings: nat, offset: nat)
    requires offset % 4 == 0 && Sane(BEGIN)
    ensures ParseFrom(data, strings, offset, BEGIN).Some?
            <==> exists forest, tokens :: Encodes(data, strings, offset, forest, tokens)
  {
    hide Encodes, ParseFrom;
    if ParseFrom(data, strings, offset, BEGIN).Some? {
      var forest, tokens := AcceptedIsLayout(data, strings, offset);
    }
    if forest, tokens :| Encodes(data, strings, offset, forest, tokens) {
      LaidOutIsAccepted(data, strings, offset, forest, tokens);
    }
  }

  // --- reachable states -------------------------------------------------------------------------------

  /** The state after a list of tokens. */
  function AdvanceAll(s: State, tokens: seq<Token>): Option<State>
    requires Sane(s)
    decreases |tokens|
  {
    if tokens == [] then Some(s) else
      match Advance(s, tokens[0])
      case None => None
      case Some(t) => AdvanceKeepsSane(s, tokens[0]); AdvanceAll(t, tokens[1..])
  }

  /** The current node is null exactly at depth 0, and otherwise one level less deep than `depth`. */
  predicate DepthAgrees(s: State)
    requires Sane(s)
  {
    if s.node < 0 then s.depth == 0 else s.depth == Level(s.nodes, s.node) + 1
  }

  /** Every child has the node as its parent, and is known there by its own name. */
  predicate ChildrenAgree(s: State)
    requires Sane(s)
  {
    forall i, j :: 0 <= i < |s.nodes| && 0 <= j < |s.nodes[i].children| ==>
      var c := s.nodes[i].children[j].1; s.nodes[c].parent == i && s.nodes[c].name == s.nodes[i].children[j].0
  }

  /** Every node with a parent is among the parent's children. */
  predicate ParentsAgree(s: State)
    requires Sane(s)
  {
    forall c :: 0 <= c < |s.nodes| && s.nodes[c].parent >= 0 ==>
      (s.nodes[c].name, c) in s.nodes[s.nodes[c].parent].children
  }

  /** Child references and parent references are inverse to each other. */
  predicate LinksAgree(s: State)
    requires Sane(s)
  {
    ChildrenAgree(s) && ParentsAgree(s)
  }

  /** The node has a 4-byte `phandle` property with this value. */
  predicate HasPhandle(r: Record, v: nat) {
    exists j :: 0 <= j < |r.props| && r.props[j].0 == PHANDLE && |r.props[j].1| == 4 && ReadU32(r.props[j].1) == v
  }

  /** The index maps every phandle to the one node that has it, and nothing else. */
  ghost predicate IndexAgrees(s: State)
    requires Sane(s)
  {
    forall i, v: nat :: 0 <= i < |s.nodes| ==> (HasPhandle(s.nodes[i], v) <==> v in s.phandles && s.phandles[v] == i)
  }

  lemma AdvanceKeepsDepth(s: State, token: Token)
    requires Sane(s) && DepthAgrees(s) && Advance(s, token).Some?
    ensures Sane(Advance(s, token).value) && DepthAgrees(Advance(s, token).value)
  {
    AdvanceKeepsSane(s, token);
    AdvanceKeepsParents(s, token);
    var t := Advance(s, token).value;
    LevelsSame(s.nodes, t.nodes);
    if token.BeginNode? { LevelOfNew(s.nodes, t.nodes); }
    hide ValidNodeName, ValidPropertyName, Keys, SameParents;
  }

  lemma BeginKeepsChildren(s: State, name: Name)
    requires Sane(s) && ChildrenAgree(s) && Advance(s, BeginNode(name)).Some?
    ensures Sane(Advance(s, BeginNode(name)).value) && ChildrenAgree(Advance(s, BeginNode(name)).value)
  {
    BegunState(s, name);
    AdvanceKeepsSane(s, BeginNode(name));
    hide Advance, Level;
  }

  lemma BeginKeepsParents(s: State, name: Name)
    requires Sane(s) && ParentsAgree(s) && Advance(s, BeginNode(name)).Some?
    ensures Sane(Advance(s, BeginNode(name)).value) && ParentsAgree(Advance(s, BeginNode(name)).value)
  {
    BegunState(s, name);
    AdvanceKeepsSane(s, BeginNode(name));
    hide Advance, Level;
    var t, n := Advance(s, BeginNode(name)).value, |s.nodes|;
    if s.node >= 0 {
      assert t.nodes[s.node].children[|s.nodes[s.node].children|] == (name, n);
    }
    forall c | 0 <= c < |t.nodes| && t.nodes[c].parent >= 0
      ensures (t.nodes[c].name, c) in t.nodes[t.nodes[c].parent].children
    {
      if c < n { assert (s.nodes[c].name, c) in s.nodes[s.nodes[c].parent].children; }
    }
  }

  lemma AdvanceKeepsLinks(s: State, token: Token)
    requires Sane(s) && LinksAgree(s) && Advance(s, token).Some?
    ensures Sane(Advance(s, token).value) && LinksAgree(Advance(s, token).value)
  {
    hide ValidNodeName, ValidPropertyName, Keys;
    AdvanceKeepsSane(s, token);
    if token.BeginNode? {
      BeginKeepsChildren(s, token.name);
      BeginKeepsParents(s, token.name);
    }
  }

  lemma {:induction false} AdvanceKeepsIndex(s: State, token: Token)
    requires Sane(s) && IndexAgrees(s) && Advance(s, token).Some?
    ensures Sane(Advance(s, token).value) && IndexAgrees(Advance(s, token).value)
  {
    hide ValidNodeName, ValidPropertyName, Keys;
    AdvanceKeepsSane(s, token);
    var t := Advance(s, token).value;
    match token {
      case BeginNode(name) =>
        forall i, v: nat | 0 <= i < |t.nodes|
          ensures HasPhandle(t.nodes[i], v) <==> v in t.phandles && t.phandles[v] == i
        {
          if i < |s.nodes| { SamePhandles(s.nodes[i], t.nodes[i], v); }
        }
      case Property(name, value) =>
        forall i, v: nat | 0 <= i < |t.nodes|
          ensures HasPhandle(t.nodes[i], v) <==> v in t.phandles && t.phandles[v] == i
        {
          if i == s.node { PhandleAdded(s.nodes[i], name, value, v); }
        }
      case EndNode =>
      case Nop =>
    }
  }

  lemma SamePhandles(a: Record, b: Record, v: nat)
    requires a.props == b.props
    ensures HasPhandle(a, v) <==> HasPhandle(b, v)
  {}

  lemma PhandleAdded(r: Record, name: Name, value: seq<byte>, v: nat)
    ensures HasPhandle(AddProperty(r, name, value), v)
            <==> HasPhandle(r, v) || (name == PHANDLE && |value| == 4 && ReadU32(value) == v)
  {
    var b := AddProperty(r, name, value);
    hide ReadU32;
    if HasPhandle(r, v) {
      var j :| 0 <= j < |r.props| && r.props[j].0 == PHANDLE && |r.props[j].1| == 4 && ReadU32(r.props[j].1) == v;
      assert b.props[j] == r.props[j];
    }
    assert b.props[|r.props|] == (name, value);
  }

  /** Every state the parser can reach is consistent. */
  lemma {:induction false} ReachableIsConsistent(s: State, tokens: seq<Token>)
    requires Sane(s) && DepthAgrees(s) && LinksAgree(s) && IndexAgrees(s) && AdvanceAll(s, tokens).Some?
    ensures var t := AdvanceAll(s, tokens).value; Sane(t) && DepthAgrees(t) && LinksAgree(t) && IndexAgrees(t)
    decreases |tokens|
  {
    hide Advance, DepthAgrees, LinksAgree, IndexAgrees;
    if tokens != [] {
      AdvanceKeepsDepth(s, tokens[0]);
      AdvanceKeepsLinks(s, tokens[0]);
      AdvanceKeepsIndex(s, tokens[0]);
      ReachableIsConsistent(Advance(s, tokens[0]).value, tokens[1..]);
    }
  }

  /** In particular the state a successful parse ends in. */
  lemma {:induction false} ParsedIsReachable(data: seq<byte>, strings: nat, offset: nat, s: State)
    requires Sane(s) && ParseFrom(data, strings, offset, s).Some?
    ensures ScanAll(data, strings, offset).Some?
    ensures ParseFrom(data, strings, offset, s) == AdvanceAll(s, ScanAll(data, strings, offset).value)
    decreases |data| - offset
  {
    hide ScanToken, Advance;
    match ScanToken(data, strings, offset) {
      case Malformed =>
      case Finished =>
      case Scanned(token, next) =>
        AdvanceKeepsSane(s, token);
        ParsedIsReachable(data, strings, next, Advance(s, token).value);
        var rest := ScanAll(data, strings, next).value;
        assert ([token] + rest)[1..] == rest;
    }
  }

  lemma ParsedIsConsistent(data: seq<byte>, strings: nat, offset: nat)
    requires Sane(BEGIN) && ParseFrom(data, strings, offset, BEGIN).Some?
    ensures var t := ParseFrom(data, strings, offset, BEGIN).value;
            Sane(t) && DepthAgrees(t) && LinksAgree(t) && IndexAgrees(t)
  {
    ParsedIsReachable(data, strings, offset, BEGIN);
    ReachableIsConsistent(BEGIN, ScanAll(data, strings, offset).value);
  }

  // --- looking up a phandle ---------------------------------------------------------------------------

  lemma {:induction false} TopOfOneTree(nodes: seq<Record>, i: nat)
    requires i < |nodes| && forall k :: 0 <= k < |nodes| ==> NO_NODE <= nodes[k].parent < k
    requires forall k :: 1 <= k < |nodes| ==> nodes[k].parent >= 0
    ensures Top(nodes, i) == 0
  {
    if nodes[i].parent >= 0 { TopOfOneTree(nodes, nodes[i].parent); }
  }

  /** With one top-level node, a lookup from any node finds the one node with that phandle, and fails exactly
      when there is none. */
  lemma LookupIsExact(s: State, i: nat, v: nat)
    requires Sane(s) && IndexAgrees(s) && i < |s.nodes|
    requires forall k :: 1 <= k < |s.nodes| ==> s.nodes[k].parent >= 0
    ensures Lookup(s, i, v) == NO_NODE <==> forall j :: 0 <= j < |s.nodes| ==> !HasPhandle(s.nodes[j], v)
    ensures forall j :: 0 <= j < |s.nodes| && HasPhandle(s.nodes[j], v) ==> j == Lookup(s, i, v)
  {
    hide HasPhandle;
    TopOfOneTree(s.nodes, i);
    if v in s.phandles { assert HasPhandle(s.nodes[s.phandles[v]], v); }
  }

  /** A node under a second top-level node finds nothing, although the phandle may exist: the index is kept in
      the first top-level node only. */
  lemma LookupNeedsFirstTree(s: State, i: nat, j: nat, v: nat)
    requires Sane(s) && IndexAgrees(s) && i < |s.nodes| && j < |s.nodes| && HasPhandle(s.nodes[j], v)
    ensures Lookup(s, i, v) == if Top(s.nodes, i) == 0 then j else NO_NODE
  {
    hide HasPhandle;
  }
}
