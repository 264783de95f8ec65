/** The bytes of the structure block: reading one token, and writing it the way the standard lays it out
    (Devicetree Specification v0.4, sections 5.4.1 and 5.5). */
module DtbTokens {
  import opened Bytes
  import opened DtbTree

  const FDT_BEGIN_NODE := 1
  const FDT_END_NODE := 2
  const FDT_PROP := 3
  const FDT_NOP := 4
  const FDT_END := 9

  /** n rounded up to a multiple of b. */
  function Align(n: nat, b: nat): (r: nat)
    requires b > 0
    ensures n <= r < n + b && r % b == 0
  {
    AlignBounds(n, b);
    (n + b - 1) / b * b
  }

  lemma AlignBounds(n: nat, b: nat)
    requires b > 0
    ensures n <= (n + b - 1) / b * b < n + b && (n + b - 1) / b * b % b == 0
  {
    var k := (n + b - 1) / b;
    assert n + b - 1 == k * b + (n + b - 1) % b;
    MultipleOf(k, b);
  }

  lemma MultipleOf(k: int, b: int)
    requires b > 0
    ensures k * b % b == 0
  {
    var n: int := k * b;
    var j: int := k - n / b;
    assert n == n / b * b + n % b;
    assert j * b == n % b;
    assert j >= 1 ==> j * b >= b;
    assert j <= -1 ==> j * b <= -b;
  }

  // --- strings ----------------------------------------------------------------------------------------

  /** Where the NUL that ends the string at `offset` is, if there is one. */
  function StringEnd(data: seq<byte>, offset: nat): (end: Option<nat>)
    ensures end.Some? ==> offset <= end.value < |data| && data[end.value] == 0 && 0 !in data[offset..end.value]
    ensures end.None? ==> offset >= |data| || 0 !in data[offset..]
    decreases |data| - offset
  {
    if offset >= |data| then None
    else if data[offset] == 0 then Some(offset)
    else StringEnd(data, offset + 1)
  }

  predicate Continuation(b: byte) {
    0x80 <= b < 0xC0
  }

  /** The length of the UTF-8 sequence at the front of s, as Python's strict decoder accepts it; 0 if malformed. */
  function Utf8SequenceLength(s: seq<byte>): (n: nat)
    requires s != []
    ensures n <= |s| && n <= 4
  {
    var a := s[0];
    if a < 0x80 then 1
    else if |s| >= 2 && 0xC2 <= a < 0xE0 && Continuation(s[1]) then 2
    else if |s| >= 3 && 0xE0 <= a < 0xF0 && Continuation(s[1]) && Continuation(s[2])
            && (a == 0xE0 ==> s[1] >= 0xA0) && (a == 0xED ==> s[1] < 0xA0) then 3
    else if |s| >= 4 && 0xF0 <= a < 0xF5 && Continuation(s[1]) && Continuation(s[2]) && Continuation(s[3])
            && (a == 0xF0 ==> s[1] >= 0x90) && (a == 0xF4 ==> s[1] < 0x90) then 4
    else 0
  }

  /** len(s.decode()): the number of code points, if s is well-formed UTF-8. */
  function CodePoints(s: seq<byte>): (n: Option<nat>)
    ensures n.Some? ==> n.value <= |s|
    decreases |s|
  {
    if s == [] then Some(0) else
      var k := Utf8SequenceLength(s);
      if k == 0 then None else
        match CodePoints(s[k..])
        case None => None
        case Some(n) => Some(n + 1)
  }

  lemma {:induction false} AsciiCodePoints(s: seq<byte>)
    requires forall i :: 0 <= i < |s| ==> s[i] < 0x80
    ensures CodePoints(s) == Some(|s|)
    decreases |s|
  {
    if s != [] {
      AsciiCodePoints(s[1..]);
    }
  }

  /** `__parse_string`: the bytes up to the NUL, if they decode. */
  function ParseString(data: seq<byte>, offset: nat): (name: Option<Name>)
    ensures name.Some? ==> CodePoints(name.value).Some?
  {
    match StringEnd(data, offset)
    case None => None
    case Some(end) => if CodePoints(data[offset..end]).Some? then Some(data[offset..end]) else None
  }

  // --- reading a token --------------------------------------------------------------------------------

  datatype Scan = Malformed | Finished | Scanned(token: Token, next: nat)

  function ScanToken(data: seq<byte>, strings: nat, offset: nat): (r: Scan)
    ensures r.Scanned? ==> offset + 4 <= |data| && offset + 4 <= r.next && (offset % 4 == 0 ==> r.next % 4 == 0)
  {
    if offset + 4 > |data| then Malformed else
      var token, after := ReadU32(data[offset..]), offset + 4;
      if token == FDT_BEGIN_NODE then
        match ParseString(data, after)
        case None => Malformed
        case Some(name) => Scanned(BeginNode(name), Align(after + CodePoints(name).value + 1, 4))
      else if token == FDT_END_NODE then Scanned(EndNode, after)
      else if token == FDT_PROP then
        if offset + 12 > |data| then Malformed else
          var length, nameoff := ReadU32(data[offset + 4..]), ReadU32(data[offset + 8..]);
          match ParseString(data, strings + nameoff)
          case None => Malformed
          case Some(name) =>
            Scanned(Property(name, PySlice(data, offset + 12, offset + 12 + length)), Align(offset + 12 + length, 4))
      else if token == FDT_NOP then Scanned(Nop, after)
      else if token == FDT_END then Finished
      else Malformed
  }

  /** The tokens from `offset` to the end token. */
  function ScanAll(data: seq<byte>, strings: nat, offset: nat): Option<seq<Token>>
    decreases |data| - offset
  {
    match ScanToken(data, strings, offset)
    case Malformed => None
    case Finished => Some([])
    case Scanned(token, next) =>
      match ScanAll(data, strings, next)
      case None => None
      case Some(rest) => Some([token] + rest)
  }

  // --- the bytes of a token ---------------------------------------------------------------------------

  predicate WordAt(data: seq<byte>, offset: nat, n: nat) {
    offset + 4 <= |data| && ReadU32(data[offset..]) == n
  }

  /** data has the NUL-terminated string `name` at `offset`. */
  predicate StringAt(data: seq<byte>, offset: nat, name: Name) {
    && offset + |name| < |data|
    && data[offset..offset + |name|] == name
    && data[offset + |name|] == 0
    && 0 !in name
  }

  /** The token is laid out at `offset`, as the standard lays it out, apart from the padding behind it. */
  predicate TokenAt(data: seq<byte>, strings: nat, offset: nat, token: Token) {
    match token
    case BeginNode(name) =>
      WordAt(data, offset, FDT_BEGIN_NODE) && StringAt(data, offset + 4, name) && CodePoints(name).Some?
    case EndNode => WordAt(data, offset, FDT_END_NODE)
    case Property(name, value) =>
      && WordAt(data, offset, FDT_PROP) && WordAt(data, offset + 4, |value|)
      && offset + 12 + |value| <= |data| && data[offset + 12..offset + 12 + |value|] == value
      && StringAt(data, strings + ReadU32(data[offset + 8..]), name) && CodePoints(name).Some?
    case Nop => WordAt(data, offset, FDT_NOP)
  }

  /** How far the parser moves over a token: the length of a node name is taken in code points. */
  function Advanced(token: Token): (n: nat)
    ensures n >= 4 && n % 4 == 0
  {
    hide Align, CodePoints;
    match token
    case BeginNode(name) =>
      var size := Align((if CodePoints(name).Some? then CodePoints(name).value else 0) + 1, 4);
      WordsMore(size);
      4 + size
    case Property(_, value) =>
      WordsMore(Align(|value|, 4));
      12 + Align(|value|, 4)
    case _ => 4
  }

  lemma WordsMore(n: nat)
    requires n % 4 == 0
    ensures (4 + n) % 4 == 0 && (12 + n) % 4 == 0
  {}

  /** How long the token is by the standard: padded to a multiple of four bytes. */
  function TokenLength(token: Token): nat {
    match token
    case BeginNode(name) => 4 + Align(|name| + 1, 4)
    case Property(_, value) => 12 + Align(|value|, 4)
    case _ => 4
  }

  /** From `offset` on, data holds exactly these tokens, with any padding, and then the end token. */
  predicate BlockAt(data: seq<byte>, strings: nat, offset: nat, tokens: seq<Token>)
    decreases |tokens|
  {
    if tokens == [] then WordAt(data, offset, FDT_END)
    else TokenAt(data, strings, offset, tokens[0]) && BlockAt(data, strings, offset + Advanced(tokens[0]), tokens[1..])
  }

  // --- reading is exact -------------------------------------------------------------------------------

  lemma {:induction false} StringAtEnd(data: seq<byte>, offset: nat, name: Name, k: nat)
    requires StringAt(data, offset, name) && k <= |name|
    ensures StringEnd(data, offset + k) == Some(offset + |name|)
    decreases |name| - k
  {
    if k < |name| {
      assert data[offset + k] == data[offset..offset + |name|][k] == name[k];
      StringAtEnd(data, offset, name, k + 1);
    }
  }

  /** A string is parsed exactly where it is. */
  lemma StringIsParsed(data: seq<byte>, offset: nat, name: Name)
    ensures ParseString(data, offset) == Some(name) <==> StringAt(data, offset, name) && CodePoints(name).Some?
  {
    hide CodePoints;
    if StringAt(data, offset, name) {
      StringAtEnd(data, offset, name, 0);
    }
    if ParseString(data, offset).Some? {
      assert StringAt(data, offset, ParseString(data, offset).value);
    }
  }

  lemma AlignShift(base: nat, n: nat)
    requires base % 4 == 0
    ensures Align(base + n, 4) == base + Align(n, 4)
  {}

  /** A token laid out at `offset` is read, and the parser moves over it. */
  lemma TokenIsScanned(data: seq<byte>, strings: nat, offset: nat, token: Token)
    requires offset % 4 == 0 && TokenAt(data, strings, offset, token)
    ensures ScanToken(data, strings, offset) == Scanned(token, offset + Advanced(token))
  {
    hide ReadU32, Align, CodePoints, StringAt, ParseString;
    match token {
      case BeginNode(name) =>
        StringIsParsed(data, offset + 4, name);
        AlignShift(offset + 4, CodePoints(name).value + 1);
      case Property(name, value) =>
        StringIsParsed(data, strings + ReadU32(data[offset + 8..]), name);
        AlignShift(offset + 12, |value|);
      case EndNode =>
      case Nop =>
    }
  }

  /** Conversely, a token that is read and ends inside the data is laid out there. */
  lemma ScannedIsToken(data: seq<byte>, strings: nat, offset: nat)
    requires offset % 4 == 0
    requires var r := ScanToken(data, strings, offset); r.Scanned? && r.next <= |data|
    ensures var r := ScanToken(data, strings, offset);
            TokenAt(data, strings, offset, r.token) && r.next == offset + Advanced(r.token)
  {
    hide ReadU32, Align, CodePoints, StringAt, ParseString;
    match ScanToken(data, strings, offset) {
      case Scanned(token, next) =>
        match token {
          case BeginNode(name) =>
            StringIsParsed(data, offset + 4, name);
            AlignShift(offset + 4, CodePoints(name).value + 1);
          case Property(name, value) =>
            StringIsParsed(data, strings + ReadU32(data[offset + 8..]), name);
            AlignShift(offset + 12, ReadU32(data[offset + 4..]));
          case EndNode =>
          case Nop =>
        }
    }
  }

  lemma ScanStartsInside(data: seq<byte>, strings: nat, offset: nat)
    requires ScanAll(data, strings, offset).Some?
    ensures offset + 4 <= |data|
  {}

  /** The scanner yields exactly the tokens that are laid out. */
  lemma ScannedExactly(data: seq<byte>, strings: nat, offset: nat, tokens: seq<Token>)
    requires offset % 4 == 0
    ensures ScanAll(data, strings, offset) == Some(tokens) <==> BlockAt(data, strings, offset, tokens)
    decreases |data| - offset
  {
    if ScanAll(data, strings, offset) == Some(tokens) {
      ScannedIsBlock(data, strings, offset);
    }
    if BlockAt(data, strings, offset, tokens) {
      BlockIsScanned(data, strings, offset, tokens);
    }
  }

  lemma {:induction false} ScannedIsBlock(data: seq<byte>, strings: nat, offset: nat)
    requires offset % 4 == 0 && ScanAll(data, strings, offset).Some?
    ensures BlockAt(data, strings, offset, ScanAll(data, strings, offset).value)
    decreases |data| - offset
  {
    hide TokenAt, Advanced;
    match ScanToken(data, strings, offset) {
      case Malformed =>
      case Finished =>
      case Scanned(token, next) =>
        ScanStartsInside(data, strings, next);
        ScannedIsToken(data, strings, offset);
        ScannedIsBlock(data, strings, next);
        var rest := ScanAll(data, strings, next).value;
        assert ([token] + rest)[1..] == rest;
    }
  }

  lemma {:induction false} BlockIsScanned(data: seq<byte>, strings: nat, offset: nat, tokens: seq<Token>)
    requires offset % 4 == 0 && BlockAt(data, strings, offset, tokens)
    ensures ScanAll(data, strings, offset) == Some(tokens)
    decreases |tokens|
  {
    hide TokenAt, Advanced;
    if tokens != [] {
      hide ScanToken;
      TokenIsScanned(data, strings, offset, tokens[0]);
      BlockIsScanned(data, strings, offset + Advanced(tokens[0]), tokens[1..]);
      assert [tokens[0]] + tokens[1..] == tokens;
    }
  }
}
