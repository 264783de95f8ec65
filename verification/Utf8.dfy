/** What the parser counts: the code points of a name, by the encoding of section 3 of RFC 3629. */
module Utf8 {
  import opened Bytes
  import opened DtbTokens

  predicate IsScalar(c: nat) {
    c < 0xD800 || 0xE000 <= c < 0x11_0000
  }

  function Encoded(c: nat): (r: seq<byte>)
    requires IsScalar(c)
    ensures 1 <= |r| <= 4
  {
    if c < 0x80 then [c]
    else if c < 0x800 then [0xC0 + c / 64, 0x80 + c % 64]
    else if c < 0x1_0000 then [0xE0 + c / 4096, 0x80 + c / 64 % 64, 0x80 + c % 64]
    else [0xF0 + c / 262144, 0x80 + c / 4096 % 64, 0x80 + c / 64 % 64, 0x80 + c % 64]
  }

  predicate AreScalars(text: seq<nat>) {
    forall i :: 0 <= i < |text| ==> IsScalar(text[i])
  }

  function EncodedAll(text: seq<nat>): seq<byte>
    requires AreScalars(text)
  {
    if text == [] then [] else Encoded(text[0]) + EncodedAll(text[1..])
  }

  lemma EncodedIsSequence(c: nat, rest: seq<byte>)
    requires IsScalar(c)
    ensures Utf8SequenceLength(Encoded(c) + rest) == |Encoded(c)|
  {
    var s := Encoded(c) + rest;
    assert forall i :: 0 <= i < |Encoded(c)| ==> s[i] == Encoded(c)[i];
  }

  lemma Digits64(x: nat, y: nat)
    requires y < 64
    ensures (x * 64 + y) / 64 == x && (x * 64 + y) % 64 == y
  {}

  lemma HigherDigits(c: nat)
    ensures c / 4096 == c / 64 / 64 && c / 262144 == c / 64 / 64 / 64
  {}

  lemma SequenceIsEncoded(s: seq<byte>) returns (c: nat)
    requires s != [] && Utf8SequenceLength(s) > 0
    ensures IsScalar(c) && Encoded(c) == s[..Utf8SequenceLength(s)]
  {
    match Utf8SequenceLength(s) {
      case 1 => c := s[0];
      case 2 => c := PairIsEncoded(s);
      case 3 => c := TripleIsEncoded(s);
      case _ => c := QuadrupleIsEncoded(s);
    }
  }

  lemma PairIsEncoded(s: seq<byte>) returns (c: nat)
    requires s != [] && Utf8SequenceLength(s) == 2
    ensures IsScalar(c) && Encoded(c) == s[..2]
  {
    c := (s[0] as int - 0xC0) * 64 + (s[1] as int - 0x80);
  }

  lemma TripleIsEncoded(s: seq<byte>) returns (c: nat)
    requires s != [] && Utf8SequenceLength(s) == 3
    ensures IsScalar(c) && Encoded(c) == s[..3]
  {
    var x, y, z := s[0] as int - 0xE0, s[1] as int - 0x80, s[2] as int - 0x80;
    var b := x * 64 + y;
    c := b * 64 + z;
    Digits64(x, y);
    Digits64(b, z);
    HigherDigits(c);
    hide Utf8SequenceLength;
    assert 0x800 <= c < 0x1_0000;
  }

  lemma QuadrupleIsEncoded(s: seq<byte>) returns (c: nat)
    requires s != [] && Utf8SequenceLength(s) == 4
    ensures IsScalar(c) && Encoded(c) == s[..4]
  {
    var x, y, z, w := s[0] as int - 0xF0, s[1] as int - 0x80, s[2] as int - 0x80, s[3] as int - 0x80;
    var a := x * 64 + y;
    var b := a * 64 + z;
    c := b * 64 + w;
    Digits64(x, y);
    Digits64(a, z);
    Digits64(b, w);
    HigherDigits(c);
    hide Utf8SequenceLength;
    assert 0x1_0000 <= c < 0x11_0000;
  }

  lemma {:induction false} EncodedIsCounted(text: seq<nat>)
    requires AreScalars(text)
    ensures CodePoints(EncodedAll(text)) == Some(|text|)
    decreases |text|
  {
    hide Utf8SequenceLength, Encoded, IsScalar;
    if text != [] {
      assert IsScalar(text[0]);
      var rest := EncodedAll(text[1..]);
      EncodedIsSequence(text[0], rest);
      EncodedIsCounted(text[1..]);
      assert (Encoded(text[0]) + rest)[|Encoded(text[0])|..] == rest;
    }
  }

  lemma {:induction false} CountedIsEncoded(s: seq<byte>) returns (text: seq<nat>)
    requires CodePoints(s).Some?
    ensures AreScalars(text) && EncodedAll(text) == s && |text| == CodePoints(s).value
    decreases |s|
  {
    hide Utf8SequenceLength, Encoded, IsScalar;
    if s == [] {
      text := [];
    } else {
      var k := Utf8SequenceLength(s);
      var c := SequenceIsEncoded(s);
      var rest := CountedIsEncoded(s[k..]);
      text := [c] + rest;
      assert text[1..] == rest && s == s[..k] + s[k..];
    }
  }

  /** The name decodes to n code points exactly if it is the encoding of n of them. */
  lemma CodePointsExactly(s: seq<byte>, n: nat)
    ensures CodePoints(s) == Some(n) <==> exists text :: |text| == n && AreScalars(text) && EncodedAll(text) == s
  {
    hide AreScalars, EncodedAll;
    if CodePoints(s) == Some(n) {
      var text := CountedIsEncoded(s);
    }
    if text :| |text| == n && AreScalars(text) && EncodedAll(text) == s { EncodedIsCounted(text); }
  }
}
