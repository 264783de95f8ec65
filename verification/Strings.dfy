/** Splitting and joining strings. */
module Strings {
  /** s.split(c) */
  function Split(s: string, c: char): (r: seq<string>)
    ensures r != []
  {
    if s == [] then [[]] else
      var rest := Split(s[1..], c);
      if s[0] == c then [[]] + rest else [[s[0]] + rest[0]] + rest[1..]
  }

  lemma {:induction false} SplitAt(a: string, c: char, b: string)
    requires c !in a
    ensures Split(a + [c] + b, c) == [a] + Split(b, c)
    decreases |a|
  {
    if a == "" {
      assert ([c] + b)[1..] == b && a + [c] + b == [c] + b;
    } else {
      var s := a + [c] + b;
      assert s[1..] == a[1..] + [c] + b && s[0] == a[0] != c;
      SplitAt(a[1..], c, b);
      var rest := Split(s[1..], c);
      assert rest[0] == a[1..] && rest[1..] == Split(b, c) && [a[0]] + a[1..] == a;
    }
  }

  lemma {:induction false} SplitWhole(a: string, c: char)
    requires c !in a
    ensures Split(a, c) == [a]
    decreases |a|
  {
    if a != "" {
      SplitWhole(a[1..], c);
      assert [a[0]] + a[1..] == a;
    }
  }

  /** No part has the character at which the text is split. */
  lemma {:induction false} SplitHasNone(s: string, c: char)
    ensures forall i :: 0 <= i < |Split(s, c)| ==> c !in Split(s, c)[i]
    decreases |s|
  {
    if s != "" { SplitHasNone(s[1..], c); }
  }

  /** c.join(words) */
  function Joined(words: seq<string>, c: char): string {
    if words == [] then "" else if |words| == 1 then words[0] else words[0] + [c] + Joined(words[1..], c)
  }

  /** Splitting loses nothing. */
  lemma {:induction false} JoinedSplit(s: string, c: char)
    ensures Joined(Split(s, c), c) == s
    decreases |s|
  {
    if s != "" {
      var rest := Split(s[1..], c);
      JoinedSplit(s[1..], c);
      if s[0] == c {
        assert ([[]] + rest)[1..] == rest && s == [] + [c] + s[1..];
      } else {
        var parts := [[s[0]] + rest[0]] + rest[1..];
        assert parts[1..] == rest[1..];
        if |rest| > 1 {
          assert s == [s[0]] + (rest[0] + [c] + Joined(rest[1..], c));
        }
      }
    }
  }

  lemma {:induction false} SplitJoined(words: seq<string>, c: char)
    requires words != [] && forall i :: 0 <= i < |words| ==> c !in words[i]
    ensures Split(Joined(words, c), c) == words
    decreases |words|
  {
    hide Split;
    if |words| == 1 {
      SplitWhole(words[0], c);
    } else {
      SplitJoined(words[1..], c);
      SplitAt(words[0], c, Joined(words[1..], c));
    }
  }
}
