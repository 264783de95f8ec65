/** The raw request files of tegrasign_v3: size words, then the data, with the payload found again by counting back
    from the end. */
module Framing {
  import opened Bytes
  import opened BlobFile
  import opened Sequences

  // --- integers as bytes ------------------------------------------------------------------------------

  /** int_2bytes: the low n bytes, least significant first. */
  method Int2Bytes(n: nat, value: nat) returns (s: seq<byte>)
    requires n > 0
    ensures s == PackLE(value, n)
  {
    var arr := new byte[n](i => 0);
    var v := value;
    for i := 0 to n - 1
      invariant arr[..i] + PackLE(v, n - i) == PackLE(value, n)
    {
      ghost var before := arr[..i];
      arr[i] := v % 256;
      assert arr[..i + 1] == before + [v % 256];
      v := v / 256;
    }
    ghost var before := arr[..n - 1];
    arr[n - 1] := v % 256;
    assert PackLE(v, 1) == [v % 256];
    assert arr[..] == before + [v % 256];
    s := arr[..];
  }

  function HexDigits(value: nat): (n: nat)
    ensures n >= 1
  {
    if value < 16 then 1 else 1 + HexDigits(value / 16)
  }

  /** int_2byte_cnt, as Python 3 divides: a half is left over for an odd number of digits. */
  function ByteCountReal(value: nat): real {
    var n := HexDigits(value);
    if n % 2 == 0 then n as real / 2.0 else n as real / 2.0 + 1.0
  }

  /** What int() makes of it, and what Python 2 returns. */
  function ByteCount(value: nat): nat {
    (HexDigits(value) + 1) / 2
  }

  /** int() takes the half away, and nothing else. */
  lemma CountIsCut(value: nat)
    ensures ByteCountReal(value).Floor == ByteCount(value)
    ensures ByteCountReal(value) == ByteCount(value) as real <==> HexDigits(value) % 2 == 0
  {}

  lemma ByteCountStep(value: nat)
    requires value >= 256
    ensures ByteCount(value) == 1 + ByteCount(value / 256)
  {
    assert HexDigits(value) == 2 + HexDigits(value / 16 / 16);
    assert value / 16 / 16 == value / 256;
  }

  /** The byte count is the smallest number of bytes, at least one, that holds the value. */
  lemma {:induction false} ByteCountIsMinimal(value: nat)
    ensures value < Pow256(ByteCount(value))
    ensures ByteCount(value) > 1 ==> value >= Pow256(ByteCount(value) - 1)
    decreases value
  {
    if value >= 256 {
      ByteCountStep(value);
      ByteCountIsMinimal(value / 256);
      if ByteCount(value / 256) > 1 {
        assert Pow256(ByteCount(value) - 1) == 256 * Pow256(ByteCount(value / 256) - 1);
      } else {
        assert Pow256(1) == 256 && ByteCount(value) == 2;
      }
    } else {
      assert Pow256(1) == 256;
      assert value / 16 < 16 && HexDigits(value) <= 2 && ByteCount(value) == 1;
    }
  }

  /** A value written with its own byte count reads back. */
  lemma ReadsBack(value: nat)
    ensures ReadLE(PackLE(value, ByteCount(value))) == value
  {
    ByteCountIsMinimal(value);
    ReadPackedLE(value, ByteCount(value));
  }

  // --- frames -----------------------------------------------------------------------------------------

  type Field = seq<byte>

  function Sizes(fields: seq<Field>): (r: seq<byte>)
    ensures |r| == 4 * |fields|
  {
    if fields == [] then [] else Sizes(fields[..|fields| - 1]) + PackLE(|fields[|fields| - 1]|, 4)
  }

  function Data(fields: seq<Field>): seq<byte> {
    if fields == [] then [] else Data(fields[..|fields| - 1]) + fields[|fields| - 1]
  }

  /** All size words, then all the data. */
  function Frame(fields: seq<Field>): seq<byte> {
    Sizes(fields) + Data(fields)
  }

  predicate FieldsFit(fields: seq<Field>) {
    forall i :: 0 <= i < |fields| ==> |fields[i]| < U32_LIMIT
  }

  /** Where the data of field i starts, according to the size words of a frame of n fields. */
  function OffsetIn(raw: seq<byte>, n: nat, i: nat): nat
    requires i <= n && 4 * n <= |raw|
  {
    if i == 0 then 4 * n else OffsetIn(raw, n, i - 1) + ReadLE(raw[4 * (i - 1)..4 * (i - 1) + 4])
  }

  /** Field i, as long as its size word says. */
  function FieldAt(raw: seq<byte>, n: nat, i: nat): seq<byte>
    requires i < n && 4 * n <= |raw|
  {
    var at := OffsetIn(raw, n, i);
    PySlice(raw, at, at + ReadLE(raw[4 * i..4 * i + 4]))
  }

  /** Reading a frame of n fields: every field is cut out at the place the size words give. */
  function Unframe(raw: seq<byte>, n: nat): Option<seq<Field>> {
    if |raw| < 4 * n || OffsetIn(raw, n, n) != |raw| then None else
      Some(seq(n, i requires 0 <= i < n => FieldAt(raw, n, i)))
  }

  lemma {:induction false} SizesAt(fields: seq<Field>, i: nat)
    requires i < |fields|
    ensures Sizes(fields)[4 * i..4 * i + 4] == PackLE(|fields[i]|, 4)
    decreases |fields|
  {
    hide PackLE;
    var n := |fields| - 1;
    if i < n {
      SizesAt(fields[..n], i);
      assert Sizes(fields)[4 * i..4 * i + 4] == Sizes(fields[..n])[4 * i..4 * i + 4];
    }
  }

  lemma {:induction false} DataSplit(fields: seq<Field>, i: nat)
    requires i <= |fields|
    ensures Data(fields) == Data(fields[..i]) + Data(fields[i..])
    decreases |fields|
  {
    if i == |fields| {
      assert fields[..i] == fields;
    } else {
      var n := |fields| - 1;
      DataSplit(fields[..n], i);
      assert fields[..n][..i] == fields[..i] && fields[i..][..n - i] == fields[..n][i..];
    }
  }

  /** The size words lead to where each field is. */
  lemma {:induction false} OffsetOf(fields: seq<Field>, i: nat)
    requires FieldsFit(fields) && i <= |fields|
    ensures OffsetIn(Frame(fields), |fields|, i) == 4 * |fields| + |Data(fields[..i])|
    decreases i
  {
    hide PackLE, ReadLE, Sizes, Data, Frame;
    FrameSizes(fields);
    StartOfFields(fields);
    if i > 0 {
      OffsetOf(fields, i - 1);
      SizeWord(fields, i - 1);
      DataSnoc(fields, i - 1);
    }
  }

  lemma SizeWord(fields: seq<Field>, i: nat)
    requires FieldsFit(fields) && i < |fields|
    ensures 4 * i + 4 <= |Frame(fields)| && ReadLE(Frame(fields)[4 * i..4 * i + 4]) == |fields[i]|
  {
    hide PackLE, ReadLE, Sizes, Frame;
    SizesAt(fields, i);
    WordFits(|fields[i]|);
    FrameSize(fields, i);
  }

  lemma FrameSizes(fields: seq<Field>)
    ensures |Frame(fields)| == 4 * |fields| + |Data(fields)|
  {}

  lemma FrameSize(fields: seq<Field>, i: nat)
    requires i < |fields|
    ensures 4 * i + 4 <= |Frame(fields)| && Frame(fields)[4 * i..4 * i + 4] == Sizes(fields)[4 * i..4 * i + 4]
  {
    hide Sizes, Data;
  }

  lemma FieldInFrame(fields: seq<Field>, i: nat)
    requires i < |fields|
    ensures var at := 4 * |fields| + |Data(fields[..i])|;
            && at + |fields[i]| == 4 * |fields| + |Data(fields[..i + 1])| <= |Frame(fields)|
            && Frame(fields)[at..at + |fields[i]|] == fields[i]
  {
    DataSplit(fields, i + 1);
    assert fields[..i + 1][..i] == fields[..i];
    hide Sizes;
    Associate(Sizes(fields), Data(fields[..i]) + fields[i], Data(fields[i + 1..]));
    Associate(Sizes(fields), Data(fields[..i]), fields[i]);
    SliceOfMiddle(Sizes(fields) + Data(fields[..i]), fields[i], Data(fields[i + 1..]), 0, |fields[i]|);
  }

  /** A frame can be read in one way only: unframing gives back the fields. */
  lemma UnframeFrame(fields: seq<Field>)
    requires FieldsFit(fields)
    ensures Unframe(Frame(fields), |fields|) == Some(fields)
  {
    var raw, n := Frame(fields), |fields|;
    FrameSizes(fields);
    OffsetOf(fields, n);
    assert fields[..n] == fields;
    hide Frame, OffsetIn, Data, FieldsFit, FieldAt;
    forall i | 0 <= i < n ensures FieldAt(raw, n, i) == fields[i] { FieldCutOut(fields, i); }
    assert Unframe(raw, n).value == fields;
  }

  lemma FieldCutOut(fields: seq<Field>, i: nat)
    requires FieldsFit(fields) && i < |fields|
    ensures 4 * |fields| <= |Frame(fields)| && FieldAt(Frame(fields), |fields|, i) == fields[i]
  {
    hide Frame, OffsetIn, Data, FieldsFit, ReadLE;
    FrameSizes(fields);
    OffsetOf(fields, i);
    SizeWord(fields, i);
    FieldInFrame(fields, i);
  }

  /** Two requests of as many fields with the same bytes are the same request. */
  lemma FrameIsInjective(a: seq<Field>, b: seq<Field>)
    requires FieldsFit(a) && FieldsFit(b) && |a| == |b| && Frame(a) == Frame(b)
    ensures a == b
  {
    UnframeFrame(a);
    UnframeFrame(b);
  }

  /** Counting back from the end over the result name, the flag and the payload itself leads to the payload exactly
      if no other data stands between payload, flag and result name. */
  lemma {:induction false} SlotFromEnd(fields: seq<Field>, i: nat, behind: nat)
    requires i < |fields|
    ensures var at := |Frame(fields)| - |fields[i]| - behind;
            at == 4 * |fields| + |Data(fields[..i])| <==> behind == |Data(fields[i + 1..])|
  {
    FrameSizes(fields);
    DataSplit(fields, i + 1);
    assert fields[..i + 1][..i] == fields[..i];
  }

  // --- the requests -----------------------------------------------------------------------------------

  const TAG := 2
  const SRC := 3
  const FLAG := 4
  const DKSTR := 5

  /** The external tool: it decrypts the payload in place and writes a result file, or gives up without one. */
  datatype Tool = Tool(payload: seq<Field> -> seq<byte>, result: seq<Field> -> Option<seq<byte>>)

  ghost predicate ValidTool(t: Tool, payloadIndex: nat) {
    forall fields {:trigger t.payload(fields)} :: payloadIndex < |fields| ==>
      |t.payload(fields)| == |fields[payloadIndex]|
  }

  /** The request file after the tool has run: the payload is replaced where the size words place it. */
  function AfterTool(t: Tool, raw: seq<byte>, n: nat, payloadIndex: nat): seq<byte>
    requires payloadIndex < n
  {
    var fields := Unframe(raw, n);
    if fields.None? then raw else
      Patched(raw, OffsetIn(raw, n, payloadIndex), OffsetIn(raw, n, payloadIndex + 1), t.payload(fields.value))
  }

  /** A parameter that is not there is written as an empty field. */
  function ParamField(p: Option<Field>): Field {
    if p.Some? then p.value else []
  }

  function ParamFields(params: seq<Option<Field>>): (r: seq<Field>)
    ensures |r| == |params|
  {
    seq(|params|, i requires 0 <= i < |params| => ParamField(params[i]))
  }

  function Request(params: seq<Option<Field>>, items: seq<Field>, resultName: seq<byte>): (r: seq<Field>)
    ensures |r| == |params| + |items| + 1
  {
    ParamFields(params) + items + [resultName + [0]]
  }

  /** The request file: for every parameter (nothing for a missing one), every item, and the result name with its NUL, a
      size word at the front, and the bytes behind all size words, in the same order. */
  lemma RequestBytes(params: seq<Option<Field>>, items: seq<Field>, resultName: seq<byte>, i: nat)
    requires FieldsFit(Request(params, items, resultName)) && i <= |params| + |items|
    ensures var raw, n, k := Frame(Request(params, items, resultName)), |params| + |items| + 1, |params|;
            var field := if i == n - 1 then resultName + [0]
                         else if i >= k then items[i - k]
                         else if params[i].Some? then params[i].value
                         else [];
            var at := 4 * n + |Data(Request(params, items, resultName)[..i])|;
            && 4 * i + 4 <= |raw| && ReadLE(raw[4 * i..4 * i + 4]) == |field|
            && at + |field| <= |raw| && raw[at..at + |field|] == field
            && (i == n - 1 ==> at + |field| == |raw|)
  {
    hide Frame, ReadLE, Data, PackLE;
    var fields := Request(params, items, resultName);
    SizeWord(fields, i);
    FieldInFrame(fields, i);
    FrameSizes(fields);
    if i == |params| + |items| { assert fields[..i + 1] == fields; }
  }

  /** The list of derivation inputs, which the callers share and update in place. */
  class KdfList {
    var items: seq<Field>

    constructor (items: seq<Field>)
      ensures this.items == items
    {
      this.items := items;
    }

    /** Pop what is no longer needed. */
    method PopTo(n: nat)
      modifies this
      ensures items == if |old(items)| < n then old(items) else old(items)[..n]
    {
      assert items[..|items|] == items;
      while |items| > n
        invariant items == old(items)[..|items|] && (|old(items)| <= n ==> items == old(items))
        invariant |items| <= |old(items)| && (|old(items)| > n ==> |items| >= n)
      {
        items := items[..|items| - 1];
      }
    }

    /** The size words. */
    method WriteSizes(params: seq<Option<Field>>, resultName: seq<byte>, raw: File)
      requires raw.data == [] && raw.pos == 0
      modifies raw
      ensures raw.data == Sizes(Request(params, items, resultName)) && raw.pos == |raw.data|
    {
      hide PackLE, Overwritten, Sizes;
      ghost var fields, k := Request(params, items, resultName), |params|;
      StartOfFields(fields);
      for i := 0 to |params|
        invariant raw.pos == |raw.data| && raw.data == Sizes(fields[..i])
      {
        SizesSnoc(fields, i);
        var arr := Int2Bytes(4, if params[i].None? then 0 else |params[i].value|);
        raw.Write(arr);
      }
      for i := 0 to |items|
        invariant raw.pos == |raw.data| && raw.data == Sizes(fields[..k + i])
      {
        SizesSnoc(fields, k + i);
        var arr := Int2Bytes(4, |items[i]|);
        raw.Write(arr);
      }
      SizesSnoc(fields, k + |items|);
      var arr := Int2Bytes(4, |resultName| + 1);
      raw.Write(arr);
      assert fields[..|fields|] == fields;
    }

    /** The data. */
    method WriteData(params: seq<Option<Field>>, resultName: seq<byte>, raw: File)
      requires raw.pos == |raw.data|
      modifies raw
      ensures raw.data == old(raw.data) + Data(Request(params, items, resultName))
    {
      hide Overwritten, Data;
      ghost var fields, k := Request(params, items, resultName), |params|;
      StartOfFields(fields);
      for i := 0 to |params|
        invariant raw.pos == |raw.data| && raw.data == old(raw.data) + Data(fields[..i])
      {
        DataSnoc(fields, i);
        if params[i].Some? { raw.Write(params[i].value); }
      }
      for i := 0 to |items|
        invariant raw.pos == |raw.data| && raw.data == old(raw.data) + Data(fields[..k + i])
      {
        DataSnoc(fields, k + i);
        raw.Write(items[i]);
      }
      DataSnoc(fields, k + |items|);
      raw.Write(resultName);
      raw.Write([0]);
      assert fields[..|fields|] == fields;
    }

    /** The request file: sizes first, then data, field by field. */
    method WriteRequest(params: seq<Option<Field>>, resultName: seq<byte>) returns (raw: File)
      ensures fresh(raw) && raw.data == Frame(Request(params, items, resultName))
    {
      raw := new File([]);
      WriteSizes(params, resultName, raw);
      WriteData(params, resultName, raw);
    }

    /** Run the tool on the request, then take the result and the payload back. */
    method Exchange(params: seq<Option<Field>>, resultName: seq<byte>, tool: Tool, flagBytes: nat) returns (ok: bool)
      requires |items| > SRC && flagBytes == |Data(items[SRC + 1..])|
      requires ValidTool(tool, |params| + SRC) && FieldsFit(Request(params, items, resultName))
      modifies this
      ensures var fields := Request(params, old(items), resultName);
              && (ok <==> tool.result(fields).Some?)
              && items
                 == if ok then old(items)[TAG := tool.result(fields).value][SRC := tool.payload(fields)] else old(items)
    {
      hide Frame, Unframe, Data, AfterTool, ValidTool, FieldsFit;
      ghost var fields := Request(params, items, resultName);
      var n := |params| + |items| + 1;
      var raw := WriteRequest(params, resultName);
      UnframeFrame(fields);
      PayloadComesBack(tool, params, items, resultName, flagBytes);
      var result := tool.result(Unframe(raw.data, n).value);
      var after := AfterTool(tool, raw.data, n, |params| + SRC);
      if result.None? { return false; }
      items := items[TAG := result.value];
      var srcBytes, resultBytes := |items[SRC]|, |resultName| + 1;
      var payloadOffset: int := |after| - srcBytes - resultBytes - flagBytes;
      items := items[SRC := after[payloadOffset..payloadOffset + srcBytes]];
      ok := true;
    }

    /** do_kdf, behind the popping of the parameters' code: tag and payload are the last two of four items. */
    method DoKdf(params: seq<Option<Field>>, resultName: seq<byte>, tool: Tool) returns (ok: bool)
      requires |items| > 3 && ValidTool(tool, |params| + 3)
      requires FieldsFit(Request(params, items[..4], resultName))
      modifies this
      ensures var fields := Request(params, old(items)[..4], resultName);
              && (ok <==> tool.result(fields).Some?)
              && items == if ok then old(items)[..2] + [tool.result(fields).value, tool.payload(fields)]
                          else old(items)[..4]
    {
      PopTo(FLAG);
      ok := Exchange(params, resultName, tool, 0);
    }

    /** do_kdf_oem without a security module: the flag stands behind the payload. */
    method DoKdfOem(params: seq<Option<Field>>, resultName: seq<byte>, tool: Tool) returns (ok: bool)
      requires |items| > 4 && ValidTool(tool, |params| + 3)
      requires FieldsFit(Request(params, items[..5], resultName))
      modifies this
      ensures var fields := Request(params, old(items)[..5], resultName);
              && (ok <==> tool.result(fields).Some?)
              && items == if ok then old(items)[..2] + [tool.result(fields).value, tool.payload(fields), old(items)[4]]
                          else old(items)[..5]
    {
      PopTo(DKSTR);
      assert items[SRC + 1..][..0] == [] && Data([]) == [];
      assert Data(items[SRC + 1..]) == [] + items[FLAG];
      ok := Exchange(params, resultName, tool, |items[FLAG]|);
    }
  }

  lemma StartOfFields(fields: seq<Field>)
    ensures Sizes(fields[..0]) == [] && Data(fields[..0]) == []
  {}

  lemma SizesSnoc(fields: seq<Field>, i: nat)
    requires i < |fields|
    ensures Sizes(fields[..i + 1]) == Sizes(fields[..i]) + PackLE(|fields[i]|, 4)
  {
    hide PackLE;
    assert fields[..i + 1][..i] == fields[..i];
  }

  lemma DataSnoc(fields: seq<Field>, i: nat)
    requires i < |fields|
    ensures Data(fields[..i + 1]) == Data(fields[..i]) + fields[i]
  {
    assert fields[..i + 1][..i] == fields[..i];
  }

  /** The slot counted from the end holds what the tool has put into the payload's place. */
  lemma PayloadComesBack(tool: Tool, params: seq<Option<Field>>, items: seq<Field>, resultName: seq<byte>,
      flagBytes: nat)
    requires |items| > SRC && flagBytes == |Data(items[SRC + 1..])|
    requires ValidTool(tool, |params| + SRC) && FieldsFit(Request(params, items, resultName))
    ensures var fields, i := Request(params, items, resultName), |params| + SRC;
            var after := AfterTool(tool, Frame(fields), |fields|, i);
            var slot := |after| - |items[SRC]| - (|resultName| + 1) - flagBytes;
            && 0 <= slot && slot + |items[SRC]| <= |after| && after[slot..slot + |items[SRC]|] == tool.payload(fields)
  {
    var fields, i := Request(params, items, resultName), |params| + SRC;
    UnframeFrame(fields);
    OffsetOf(fields, i);
    OffsetOf(fields, i + 1);
    FieldInFrame(fields, i);
    DataBehind(params, items, resultName);
    SlotFromEnd(fields, i, |resultName| + 1 + flagBytes);
    PayloadSize(tool, fields, i);
    hide Frame, Unframe, Data, FieldsFit, ValidTool, OffsetIn;
    PatchedReads(Frame(fields), OffsetIn(Frame(fields), |fields|, i), tool.payload(fields));
  }

  lemma PayloadSize(tool: Tool, fields: seq<Field>, i: nat)
    requires ValidTool(tool, i) && i < |fields|
    ensures |tool.payload(fields)| == |fields[i]|
  {}

  lemma PatchedReads(raw: seq<byte>, at: nat, s: seq<byte>)
    requires at + |s| <= |raw|
    ensures var r := Patched(raw, at, at + |s|, s); |r| == |raw| && r[at..at + |s|] == s
  {}

  lemma DataBehind(params: seq<Option<Field>>, items: seq<Field>, resultName: seq<byte>)
    requires |items| > SRC
    ensures var fields, i := Request(params, items, resultName), |params| + SRC;
            fields[i] == items[SRC] && |Data(fields[i + 1..])| == |Data(items[SRC + 1..])| + |resultName| + 1
  {
    var fields, rest := Request(params, items, resultName), items[SRC + 1..];
    assert fields[|params| + SRC + 1..] == rest + [resultName + [0]];
    assert (rest + [resultName + [0]])[..|rest|] == rest;
  }
}
