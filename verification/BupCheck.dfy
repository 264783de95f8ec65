/** Checking and extracting the entry table of a BUP blob. */
module BupCheck {
  import opened Bytes
  import opened Sequences
  import opened BupInspector

  type Text = seq<byte>

  function NameOf(e: Entry): Text {
    Strip(e.partName)
  }

  function SpecOf(e: Entry): Text {
    Strip(e.tnspec)
  }

  // --- the check --------------------------------------------------------------------------------------

  predicate HasEntry(entries: seq<Entry>, part: Text, spec: Text) {
    exists i :: 0 <= i < |entries| && NameOf(entries[i]) == part && SpecOf(entries[i]) == spec
  }

  /** Some entry for the partition has a tnspec. */
  predicate IsSpecific(entries: seq<Entry>, part: Text) {
    exists i :: 0 <= i < |entries| && NameOf(entries[i]) == part && SpecOf(entries[i]) != []
  }

  /** The tnspec occurs in the table. */
  predicate IsUsed(entries: seq<Entry>, spec: Text) {
    spec != [] && exists i :: 0 <= i < |entries| && SpecOf(entries[i]) == spec
  }

  /** The deduplicating scan: x is appended when the last element has been passed without finding it. */
  method AddOnce(list: seq<Text>, x: Text) returns (r: seq<Text>)
    ensures r == if x in list then list else list + [x]
  {
    r := list;
    if |list| > 0 {
      for idx := 0 to |list|
        invariant r == list && x !in list[..idx] && (idx == |list| ==> x in list)
      {
        if list[idx] == x {
          break;
        } else if idx == |list| - 1 {
          r := r + [x];
          break;
        }
      }
    } else {
      r := r + [x];
    }
  }

  /** list.remove(x): the first element equal to x goes. */
  function Removed(list: seq<Entry>, x: Entry): (r: seq<Entry>) {
    if list == [] then [] else if list[0] == x then list[1..] else [list[0]] + Removed(list[1..], x)
  }

  predicate HasSpec(list: seq<Entry>, spec: Text) {
    exists i :: 0 <= i < |list| && SpecOf(list[i]) == spec
  }

  /** Removing an entry never loses a match for another tnspec. */
  lemma {:induction false} RemovedKeepsOthers(list: seq<Entry>, x: Entry, spec: Text)
    requires spec != SpecOf(x)
    ensures HasSpec(Removed(list, x), spec) <==> HasSpec(list, spec)
    decreases |list|
  {
    hide SpecOf;
    if list != [] {
      HasSpecHead(list, spec);
      if list[0] != x {
        RemovedKeepsOthers(list[1..], x, spec);
        HasSpecHead([list[0]] + Removed(list[1..], x), spec);
        assert ([list[0]] + Removed(list[1..], x))[1..] == Removed(list[1..], x);
      }
    }
  }

  lemma HasSpecHead(list: seq<Entry>, spec: Text)
    requires list != []
    ensures HasSpec(list, spec) <==> SpecOf(list[0]) == spec || HasSpec(list[1..], spec)
  {
    hide SpecOf;
    if i :| 0 <= i < |list[1..]| && SpecOf(list[1..][i]) == spec { assert SpecOf(list[i + 1]) == spec; }
    if i :| 0 < i < |list| && SpecOf(list[i]) == spec { assert SpecOf(list[1..][i - 1]) == spec; }
  }

  /** The partitions and the tnspecs of the table, each once. */
  method Collect(entries: seq<Entry>) returns (parts: seq<Text>, specs: seq<Text>)
    ensures Distinct(parts) && forall p :: p in parts <==> IsSpecific(entries, p)
    ensures Distinct(specs) && forall s :: s in specs <==> IsUsed(entries, s)
  {
    hide SpecOf, NameOf;
    parts, specs := [], [];
    for i := 0 to |entries|
      invariant Distinct(parts) && forall p :: p in parts <==> IsSpecific(entries[..i], p)
      invariant Distinct(specs) && forall s :: s in specs <==> IsUsed(entries[..i], s)
    {
      var e := entries[i];
      ghost var next := entries[..i + 1];
      assert next[i] == e && next[..i] == entries[..i];
      assert forall p :: IsSpecific(next, p) <==> IsSpecific(entries[..i], p) || (NameOf(e) == p && SpecOf(e) != [])
        by { SpecificSnoc(next); }
      assert forall s :: IsUsed(next, s) <==> IsUsed(entries[..i], s) || (SpecOf(e) == s && s != [])
        by { UsedSnoc(next); }
      if SpecOf(e) != [] {
        parts := AddOnce(parts, NameOf(e));
        specs := AddOnce(specs, SpecOf(e));
      }
    }
    assert entries[..|entries|] == entries;
  }

  lemma SpecificSnoc(s: seq<Entry>)
    requires s != []
    ensures var n := |s| - 1;
            forall p :: IsSpecific(s, p) <==> IsSpecific(s[..n], p) || (NameOf(s[n]) == p && SpecOf(s[n]) != [])
  {
    hide SpecOf, NameOf;
    var n := |s| - 1;
    assert forall i :: 0 <= i < n ==> s[..n][i] == s[i];
  }

  lemma UsedSnoc(s: seq<Entry>)
    requires s != []
    ensures var n := |s| - 1;
            forall t :: IsUsed(s, t) <==> IsUsed(s[..n], t) || (SpecOf(s[n]) == t && t != [])
  {
    hide SpecOf;
    var n := |s| - 1;
    assert forall i :: 0 <= i < n ==> s[..n][i] == s[i];
  }

  /** filter(lambda entry: name == part, entries) */
  function EntriesOf(entries: seq<Entry>, part: Text): seq<Entry> {
    if entries == [] then []
    else (if NameOf(entries[0]) == part then [entries[0]] else []) + EntriesOf(entries[1..], part)
  }

  lemma {:induction false} EntriesOfHas(entries: seq<Entry>, part: Text, spec: Text)
    ensures HasSpec(EntriesOf(entries, part), spec) <==> HasEntry(entries, part, spec)
    decreases |entries|
  {
    hide SpecOf, NameOf;
    if entries != [] {
      var rest := EntriesOf(entries[1..], part);
      EntriesOfHas(entries[1..], part, spec);
      HasEntryHead(entries, part, spec);
      if NameOf(entries[0]) == part {
        HasSpecHead([entries[0]] + rest, spec);
        assert ([entries[0]] + rest)[1..] == rest;
      } else {
        assert [] + rest == rest;
      }
    }
  }

  lemma HasEntryHead(entries: seq<Entry>, part: Text, spec: Text)
    requires entries != []
    ensures HasEntry(entries, part, spec)
            <==> (NameOf(entries[0]) == part && SpecOf(entries[0]) == spec) || HasEntry(entries[1..], part, spec)
  {
    hide SpecOf, NameOf;
    var rest := entries[1..];
    if i :| 0 <= i < |rest| && NameOf(rest[i]) == part && SpecOf(rest[i]) == spec {
      assert NameOf(entries[i + 1]) == part && SpecOf(entries[i + 1]) == spec;
    }
    if i :| 0 < i < |entries| && NameOf(entries[i]) == part && SpecOf(entries[i]) == spec {
      assert NameOf(rest[i - 1]) == part && SpecOf(rest[i - 1]) == spec;
    }
  }

  /** Which of the tnspecs the partition misses; matched entries are taken off its list. */
  method MissingSpecs(entries: seq<Entry>, part: Text, specs: seq<Text>) returns (missing: seq<Text>)
    requires Distinct(specs)
    ensures forall s :: s in missing <==> s in specs && !HasEntry(entries, part, s)
  {
    hide SpecOf, NameOf, EntriesOf, Removed, HasEntry, HasSpec;
    var blobEntry := EntriesOf(entries, part);
    forall s ensures HasSpec(blobEntry, s) <==> HasEntry(entries, part, s) { EntriesOfHas(entries, part, s); }
    missing := [];
    for k := 0 to |specs|
      invariant forall s :: s in missing <==> s in specs[..k] && !HasEntry(entries, part, s)
      invariant forall j :: k <= j < |specs| ==> (HasSpec(blobEntry, specs[j]) <==> HasEntry(entries, part, specs[j]))
    {
      var spec := specs[k];
      var found := false;
      ghost var before := blobEntry;
      NoneYet(blobEntry, spec);
      for idx := 0 to |blobEntry|
        invariant !found && blobEntry == before && !HasSpec(blobEntry[..idx], spec)
      {
        var entry := blobEntry[idx];
        FoundNow(blobEntry, spec, idx);
        if spec == SpecOf(entry) {
          found := true;
          forall j | k < j < |specs|
            ensures HasSpec(Removed(blobEntry, entry), specs[j]) <==> HasSpec(blobEntry, specs[j])
          {
            RemovedKeepsOthers(blobEntry, entry, specs[j]);
          }
          blobEntry := Removed(blobEntry, entry);
          break;
        }
      }
      if !found {
        assert before[..|before|] == before;
        missing := missing + [spec];
      }
      assert specs[..k + 1] == specs[..k] + [spec];
    }
    assert specs[..|specs|] == specs;
  }

  lemma NoneYet(list: seq<Entry>, spec: Text)
    ensures !HasSpec(list[..0], spec)
  {}

  lemma FoundNow(list: seq<Entry>, spec: Text, idx: nat)
    requires idx < |list|
    ensures HasSpec(list[..idx + 1], spec) <==> HasSpec(list[..idx], spec) || SpecOf(list[idx]) == spec
    ensures SpecOf(list[idx]) == spec ==> HasSpec(list, spec)
  {
    hide SpecOf;
    assert forall i :: 0 <= i < idx ==> list[..idx + 1][i] == list[i] == list[..idx][i];
    assert list[..idx + 1][idx] == list[idx];
  }

  /** `check_entry_table`: the missing (partition, tnspec) pairs, or None if a row of the table was not readable. */
  method CheckEntryTable(table: seq<Option<Entry>>) returns (missing: Option<seq<(Text, Text)>>)
    ensures missing.None? <==> exists i :: 0 <= i < |table| && table[i].None?
    ensures missing.Some? ==> var entries := Rows(table);
              forall p, s :: (p, s) in missing.value <==>
                IsSpecific(entries, p) && IsUsed(entries, s) && !HasEntry(entries, p, s)
    ensures missing.Some? ==> var entries := Rows(table);
              missing.value == [] <==>
                forall p, s :: IsSpecific(entries, p) && IsUsed(entries, s) ==> HasEntry(entries, p, s)
  {
    hide HasEntry, IsSpecific, IsUsed;
    for i := 0 to |table|
      invariant forall k :: 0 <= k < i ==> table[k].Some?
    {
      if table[i].None? { return None; }
    }
    var entries := Rows(table);
    var parts, specs := Collect(entries);
    var pairs: seq<(Text, Text)> := [];
    for i := 0 to |parts|
      invariant forall p, s :: (p, s) in pairs <==> p in parts[..i] && s in specs && !HasEntry(entries, p, s)
    {
      var part := parts[i];
      var specsMissing := MissingSpecs(entries, part, specs);
      ghost var before := pairs;
      for k := 0 to |specsMissing|
        invariant forall p, s :: (p, s) in pairs <==> (p, s) in before || (p == part && s in specsMissing[..k])
      {
        pairs := pairs + [(part, specsMissing[k])];
        assert specsMissing[..k + 1] == specsMissing[..k] + [specsMissing[k]];
      }
      assert specsMissing[..|specsMissing|] == specsMissing;
      assert parts[..i + 1] == parts[..i] + [part];
    }
    assert parts[..|parts|] == parts;
    missing := Some(pairs);
    if pairs != [] { assert (pairs[0].0, pairs[0].1) in pairs; }
  }

  function Rows(table: seq<Option<Entry>>): (r: seq<Entry>)
    requires forall i :: 0 <= i < |table| ==> table[i].Some?
    ensures |r| == |table| && forall i :: 0 <= i < |r| ==> r[i] == table[i].value
  {
    seq(|table|, i requires 0 <= i < |table| => table[i].value)
  }
}
