/** Bytes, byte strings, the big- and little-endian words of `struct`, and Python's slices. */
module Bytes {
  type byte = n: int | 0 <= n < 256

  datatype Option<+T> = None | Some(value: T)

  const U32_LIMIT := 0x1_0000_0000

  /** The big-endian 32-bit word at the front of s. */
  function ReadU32(s: seq<byte>): (n: nat)
    requires |s| >= 4
    ensures n < U32_LIMIT
  {
    var a: int, b: int, c: int, d: int := s[0], s[1], s[2], s[3];
    a * 0x100_0000 + b * 0x1_0000 + c * 0x100 + d
  }

  function PackU32(n: nat): (s: seq<byte>)
    requires n < U32_LIMIT
    ensures |s| == 4
  {
    [n / 0x100_0000, n / 0x1_0000 % 0x100, n / 0x100 % 0x100, n % 0x100]
  }

  lemma ReadPackedU32(n: nat, rest: seq<byte>)
    requires n < U32_LIMIT
    ensures ReadU32(PackU32(n)) == n && ReadU32(PackU32(n) + rest) == n
  {
    assert n / 0x1_0000 == n / 0x100_0000 * 0x100 + n / 0x1_0000 % 0x100;
    assert n / 0x100 == n / 0x1_0000 * 0x100 + n / 0x100 % 0x100;
  }

  lemma PackReadU32(s: seq<byte>)
    requires |s| >= 4
    ensures PackU32(ReadU32(s)) == s[..4]
  {
    var n := ReadU32(s);
    var a: int, b: int, c: int := s[0], s[1], s[2];
    assert n / 0x100 == a * 0x1_0000 + b * 0x100 + c;
    assert n / 0x1_0000 == a * 0x100 + b;
  }

  // --- little-endian ----------------------------------------------------------------------------------

  /** The number of values that n bytes can hold. */
  function Pow256(n: nat): (r: nat)
    ensures r >= 1
  {
    if n == 0 then 1 else 256 * Pow256(n - 1)
  }

  function PackLE(n: nat, width: nat): (s: seq<byte>)
    ensures |s| == width
    decreases width
  {
    if width == 0 then [] else [n % 256] + PackLE(n / 256, width - 1)
  }

  function ReadLE(s: seq<byte>): nat {
    if s == [] then 0 else
      var low: int := s[0];
      low + 256 * ReadLE(s[1..])
  }

  /** A number that fits is read back. */
  lemma {:induction false} ReadPackedLE(n: nat, width: nat)
    requires n < Pow256(width)
    ensures ReadLE(PackLE(n, width)) == n
    decreases width
  {
    if width > 0 {
      ReadPackedLE(n / 256, width - 1);
    }
  }

  /** Bytes that are read are written again. */
  lemma {:induction false} PackReadLE(s: seq<byte>)
    ensures PackLE(ReadLE(s), |s|) == s && ReadLE(s) < Pow256(|s|)
    decreases |s|
  {
    if s != [] {
      PackReadLE(s[1..]);
      var low: int := s[0];
      assert ReadLE(s) % 256 == low && ReadLE(s) / 256 == ReadLE(s[1..]);
    }
  }

  /** Words of device trees have their highest byte first. */
  lemma BigEndian(s: seq<byte>)
    requires |s| >= 4
    ensures ReadU32(s) == ReadLE([s[3], s[2], s[1], s[0]])
  {
    var t, u, v, w := [s[3], s[2], s[1], s[0]], [s[2], s[1], s[0]], [s[1], s[0]], [s[0]];
    assert t[1..] == u && u[1..] == v && v[1..] == w && w[1..] == [];
    assert ReadLE(w) == s[0] as int;
    assert ReadLE(v) == s[1] as int + 256 * ReadLE(w) && ReadLE(u) == s[2] as int + 256 * ReadLE(v);
  }

  lemma WordFits(n: nat)
    requires n < U32_LIMIT
    ensures ReadLE(PackLE(n, 4)) == n
  {
    assert Pow256(1) == 0x100 && Pow256(2) == 0x1_0000 && Pow256(3) == 0x100_0000;
    ReadPackedLE(n, 4);
  }

  function Zeroed(n: nat): (s: seq<byte>)
    ensures |s| == n && forall i :: 0 <= i < n ==> s[i] == 0
  {
    seq(n, i => 0)
  }

  // --- Python's slices --------------------------------------------------------------------------------

  function Clamp(i: nat, n: nat): nat {
    if i <= n then i else n
  }

  /** data[lo:hi] */
  function PySlice(data: seq<byte>, lo: nat, hi: nat): seq<byte>
    requires lo <= hi
  {
    data[Clamp(lo, |data|)..Clamp(hi, |data|)]
  }

  /** data[n:] */
  function Drop(data: seq<byte>, n: nat): seq<byte> {
    if n <= |data| then data[n..] else []
  }

  /** data after data[lo:hi] = s */
  function Patched(data: seq<byte>, lo: nat, hi: nat, s: seq<byte>): (r: seq<byte>)
    requires lo <= hi
    ensures hi <= |data| ==> r == data[..lo] + s + data[hi..]
    ensures |r| == |data| - (Clamp(hi, |data|) - Clamp(lo, |data|)) + |s|
  {
    data[..Clamp(lo, |data|)] + s + data[Clamp(hi, |data|)..]
  }
}
