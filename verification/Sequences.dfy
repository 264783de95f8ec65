/** Sequences without repetition, slices of concatenations, and stripping. */
module Sequences {
  predicate Distinct<T(==)>(s: seq<T>) {
    forall i, j :: 0 <= i < j < |s| ==> s[i] != s[j]
  }

  lemma Associate<T>(a: seq<T>, b: seq<T>, c: seq<T>)
    ensures a + b + c == a + (b + c)
  {}

  lemma AssociateThree<T>(a: seq<T>, b: seq<T>, c: seq<T>, d: seq<T>)
    ensures a + (b + c + d) == a + b + c + d
  {}

  lemma AssociateMiddle<T>(a: seq<T>, b: seq<T>, c: seq<T>, d: seq<T>)
    ensures a + (b + c) + d == a + b + (c + d)
  {}

  /** A slice of a part is a slice of the whole. */
  lemma SliceOfMiddle<T>(a: seq<T>, b: seq<T>, c: seq<T>, lo: nat, n: nat)
    requires lo + n <= |b|
    ensures (a + b + c)[|a| + lo..|a| + lo + n] == b[lo..lo + n]
  {}

  lemma SliceOfFront<T>(a: seq<T>, b: seq<T>, lo: nat, hi: nat)
    requires lo <= hi <= |a|
    ensures (a + b)[lo..hi] == a[lo..hi]
  {}

  // --- stripping ----------------------------------------------------------------------------------------

  function StrippedLeft<T>(s: seq<T>, blank: T -> bool): seq<T> {
    if s == [] || !blank(s[0]) then s else StrippedLeft(s[1..], blank)
  }

  function StrippedRight<T>(s: seq<T>, blank: T -> bool): seq<T> {
    if s == [] || !blank(s[|s| - 1]) then s else StrippedRight(s[..|s| - 1], blank)
  }

  /** s without what is blank at its ends. */
  function Stripped<T>(s: seq<T>, blank: T -> bool): seq<T> {
    StrippedRight(StrippedLeft(s, blank), blank)
  }

  predicate AllBlank<T>(s: seq<T>, blank: T -> bool) {
    forall i :: 0 <= i < |s| ==> blank(s[i])
  }

  predicate HasBareEnds<T>(s: seq<T>, blank: T -> bool) {
    s != [] ==> !blank(s[0]) && !blank(s[|s| - 1])
  }

  /** s is t between blanks, and t does not start or end with one. */
  predicate IsPadded<T(==)>(s: seq<T>, a: seq<T>, t: seq<T>, b: seq<T>, blank: T -> bool) {
    s == a + t + b && AllBlank(a, blank) && AllBlank(b, blank) && HasBareEnds(t, blank)
  }

  lemma {:induction false} LeftIsDropped<T>(a: seq<T>, s: seq<T>, blank: T -> bool)
    requires AllBlank(a, blank)
    ensures StrippedLeft(a + s, blank) == StrippedLeft(s, blank)
    decreases |a|
  {
    if a == [] {
      assert a + s == s;
    } else {
      assert (a + s)[1..] == a[1..] + s && (a + s)[0] == a[0];
      LeftIsDropped(a[1..], s, blank);
    }
  }

  lemma {:induction false} RightIsDropped<T>(s: seq<T>, b: seq<T>, blank: T -> bool)
    requires AllBlank(b, blank)
    ensures StrippedRight(s + b, blank) == StrippedRight(s, blank)
    decreases |b|
  {
    if b == [] {
      assert s + b == s;
    } else {
      var n := |b| - 1;
      assert (s + b)[..|s| + n] == s + b[..n] && (s + b)[|s| + n] == b[n];
      RightIsDropped(s, b[..n], blank);
    }
  }

  lemma {:induction false} LeftPart<T>(s: seq<T>, blank: T -> bool) returns (a: seq<T>)
    ensures var r := StrippedLeft(s, blank); s == a + r && AllBlank(a, blank) && (r != [] ==> !blank(r[0]))
    decreases |s|
  {
    if s == [] || !blank(s[0]) {
      a := [];
    } else {
      a := LeftPart(s[1..], blank);
      a := [s[0]] + a;
    }
  }

  lemma {:induction false} RightPart<T>(s: seq<T>, blank: T -> bool) returns (b: seq<T>)
    ensures var r := StrippedRight(s, blank); s == r + b && AllBlank(b, blank) && (r != [] ==> !blank(r[|r| - 1]))
    decreases |s|
  {
    if s == [] || !blank(s[|s| - 1]) {
      b := [];
    } else {
      b := RightPart(s[..|s| - 1], blank);
      b := b + [s[|s| - 1]];
    }
  }

  /** Exactly the blanks at the ends go. */
  lemma StrippedExactly<T>(s: seq<T>, t: seq<T>, blank: T -> bool)
    ensures Stripped(s, blank) == t <==> exists a, b :: IsPadded(s, a, t, b, blank)
  {
    if Stripped(s, blank) == t {
      var a := LeftPart(s, blank);
      var b := RightPart(StrippedLeft(s, blank), blank);
      if t != [] { assert StrippedLeft(s, blank)[0] == t[0]; }
      assert s == a + (t + b) == a + t + b;
      assert IsPadded(s, a, t, b, blank);
    }
    if a, b :| IsPadded(s, a, t, b, blank) {
      Associate(a, t, b);
      LeftIsDropped(a, t + b, blank);
      if t == [] {
        LeftIsDropped(b, [], blank);
        assert b + [] == b == t + b;
      } else {
        assert (t + b)[0] == t[0];
        RightIsDropped(t, b, blank);
      }
    }
  }
}
