/** The line-level change engine: a file is a map from its stringified line
    index to the line, a change record carries such a map, a history is the
    sequence of records of one file, and its join replays them in order.
    Each dictionary-building routine is a method with a loop, proved equal to
    a specification function; the properties of the engine are lemmas about
    those functions. */
module LineMaps {
  import Decimal

  /** Line index (as `str(i)`) to line content. */
  type LineMap = map<string, string>

  /** One change record as stored in a file's history. The author fields are
      written empty; `hashFile` is the digest of the whole current line map;
      `file` is the full line map on the first change and the delta after. */
  datatype Change = Change(
    author: string,
    authorEmail: string,
    date: string,
    comment: string,
    hashFile: string,
    file: LineMap)

  /** The key under which line i is stored. */
  function LineKey(i: nat): (k: string)
  {
    Decimal.NatToString(i)
  }

  // ---------------------------------------------------------------------
  // Enumerating the lines of a file
  // ---------------------------------------------------------------------

  /** The line map of `lines`, built one line at a time from the first. */
  function Enumerate(lines: seq<string>): (m: LineMap)
  {
    if lines == [] then map[]
    else Enumerate(lines[..|lines| - 1])[LineKey(|lines| - 1) := lines[|lines| - 1]]
  }

  /** The keys of the enumerated map are exactly str(0) .. str(|lines|-1), and
      line i sits under str(i). */
  lemma {:induction false} EnumerateAt(lines: seq<string>)
    ensures Enumerate(lines).Keys == set i | 0 <= i < |lines| :: LineKey(i)
    ensures forall i :: 0 <= i < |lines| ==> Enumerate(lines)[LineKey(i)] == lines[i]
  {
    if lines != [] {
      var n := |lines| - 1;
      var init := lines[..n];
      EnumerateAt(init);
      forall i | 0 <= i < n
        ensures LineKey(i) != LineKey(n)
      {
        Decimal.NatToStringInjective(i, n);
      }
      assert forall i :: 0 <= i < n ==> init[i] == lines[i];
    }
  }

  /** A file of n lines has n entries: no two lines share a key. */
  lemma {:induction false} EnumerateSize(lines: seq<string>)
    ensures |Enumerate(lines)| == |lines|
  {
    if lines != [] {
      var n := |lines| - 1;
      EnumerateSize(lines[..n]);
      EnumerateAt(lines[..n]);
      if LineKey(n) in Enumerate(lines[..n]) {
        var i :| 0 <= i < n && LineKey(i) == LineKey(n);
        Decimal.NatToStringInjective(i, n);
      }
    }
  }

  /** `_enumerate_lines`: the map built by the `for i, line in enumerate(lines)`
      loop. */
  method EnumerateLines(lines: seq<string>) returns (result: LineMap)
    ensures result == Enumerate(lines)
    ensures forall k :: k in result ==> exists i :: 0 <= i < |lines| && k == LineKey(i)
    ensures forall i :: 0 <= i < |lines| ==> LineKey(i) in result && result[LineKey(i)] == lines[i]
  {
    result := map[];
    for i := 0 to |lines|
      invariant result == Enumerate(lines[..i])
    {
      assert lines[..i + 1][..i] == lines[..i];
      result := result[LineKey(i) := lines[i]];
    }
    assert lines[..|lines|] == lines;
    EnumerateAt(lines);
  }

  // ---------------------------------------------------------------------
  // Joining a history
  // ---------------------------------------------------------------------

  /** The join of a history: every record's map laid over the accumulator in
      order, so a later record wins at a key they share. */
  function Join(changes: seq<Change>): (joined: LineMap)
  {
    if changes == [] then map[]
    else Join(changes[..|changes| - 1]) + changes[|changes| - 1].file
  }

  /** Joining one more record overlays its map on the join of the others. */
  lemma JoinSnoc(changes: seq<Change>, c: Change)
    ensures Join(changes + [c]) == Join(changes) + c.file
  {
    assert (changes + [c])[..|changes|] == changes;
  }

  /** A key is in the join exactly when some record has it, and its value is
      the one of the last record that has it. */
  lemma {:induction false} JoinLastWriter(changes: seq<Change>, k: string)
    ensures k in Join(changes) <==> exists i :: 0 <= i < |changes| && k in changes[i].file
    ensures forall i :: 0 <= i < |changes| && k in changes[i].file &&
                        (forall j :: i < j < |changes| ==> k !in changes[j].file) ==>
                        k in Join(changes) && Join(changes)[k] == changes[i].file[k]
  {
    if changes != [] {
      var n := |changes| - 1;
      var init := changes[..n];
      JoinLastWriter(init, k);
      assert forall i :: 0 <= i < n ==> init[i] == changes[i];
      if k in Join(changes) && k !in changes[n].file {
        var i :| 0 <= i < n && k in init[i].file;
        assert k in changes[i].file;
      }
    }
  }

  /** `join_changes`: the outer loop walks the records, the inner loop copies
      each record's entries into the accumulator. */
  method JoinChanges(changes: seq<Change>) returns (joined: LineMap)
    ensures joined == Join(changes)
  {
    joined := map[];
    for i := 0 to |changes|
      invariant joined == Join(changes[..i])
    {
      var file := changes[i].file;
      var pending := file.Keys;
      while pending != {}
        invariant pending <= file.Keys
        invariant joined == Join(changes[..i]) + map k | k in file.Keys - pending :: file[k]
        decreases pending
      {
        var k :| k in pending;
        joined := joined[k := file[k]];
        pending := pending - {k};
      }
      assert (map k | k in file.Keys - {} :: file[k]) == file;
      assert changes[..i + 1] == changes[..i] + [changes[i]];
      JoinSnoc(changes[..i], changes[i]);
    }
    assert changes[..|changes|] == changes;
  }

  // ---------------------------------------------------------------------
  // Computing the delta
  // ---------------------------------------------------------------------

  /** Whether the delta keeps a current line: the joined map has no truthy
      value at that index (it is missing, or holds the empty string), or it
      holds a different one. */
  predicate Emitted(joined: LineMap, k: string, content: string)
  {
    k !in joined || joined[k] == "" || joined[k] != content
  }

  /** The delta of `current` against `joined`. */
  function Diff(joined: LineMap, current: LineMap): (delta: LineMap)
  {
    map k | k in current && Emitted(joined, k, current[k]) :: current[k]
  }

  /** `check_diff`: the loop over the current entries. Every entry of the
      result is an entry of the current map; a current line is left out only
      when the joined map holds the same non-empty line; lines only in the
      joined map never appear. */
  method CheckDiff(joined: LineMap, current: LineMap) returns (diff: LineMap)
    ensures diff == Diff(joined, current)
    ensures forall k :: k in diff ==> k in current && diff[k] == current[k]
    ensures forall k :: k in current ==>
              (k !in diff <==> k in joined && joined[k] == current[k] && current[k] != "")
    ensures forall k :: k in joined && k !in current ==> k !in diff
  {
    diff := map[];
    var pending := current.Keys;
    while pending != {}
      invariant pending <= current.Keys
      invariant diff == map k | k in current.Keys - pending && Emitted(joined, k, current[k]) :: current[k]
      decreases pending
    {
      var k :| k in pending;
      if Emitted(joined, k, current[k]) {
        diff := diff[k := current[k]];
      }
      pending := pending - {k};
    }
  }

  /** Reconstruction: appending a record whose map is the delta against the
      join of a history makes the new join equal the old join overlaid with
      the whole current map. */
  lemma JoinDiffOverlay(changes: seq<Change>, current: LineMap, c: Change)
    requires c.file == Diff(Join(changes), current)
    ensures Join(changes + [c]) == Join(changes) + current
  {
    JoinSnoc(changes, c);
    var j := Join(changes);
    assert j + Diff(j, current) == j + current;
  }

  /** The round trip spelled out: the new join agrees with the current map on
      every current line, and every line only the old join had (the stale
      lines past a shrink) survives unchanged. */
  lemma ReconstructionRoundTrip(changes: seq<Change>, current: LineMap, c: Change)
    requires c.file == Diff(Join(changes), current)
    ensures forall k :: k in current ==>
              k in Join(changes + [c]) && Join(changes + [c])[k] == current[k]
    ensures forall k :: k in Join(changes) && k !in current ==>
              k in Join(changes + [c]) && Join(changes + [c])[k] == Join(changes)[k]
    ensures Join(changes + [c]).Keys == Join(changes).Keys + current.Keys
  {
    JoinDiffOverlay(changes, current, c);
  }

  /** Stability: once the delta is joined, diffing the same file again gives
      nothing, provided no line is the empty string. */
  lemma DeltaStable(changes: seq<Change>, current: LineMap, c: Change)
    requires c.file == Diff(Join(changes), current)
    requires forall k :: k in current ==> current[k] != ""
    ensures Diff(Join(changes + [c]), current) == map[]
  {
    JoinDiffOverlay(changes, current, c);
  }

  /** The truthiness test re-emits an empty line whatever the joined map
      holds, so with an empty line the delta is never empty. */
  lemma EmptyLineAlwaysEmitted(joined: LineMap, current: LineMap, k: string)
    requires k in current && current[k] == ""
    ensures k in Diff(joined, current) && Diff(joined, current) != map[]
  {
  }

  /** The delta against an empty join is the whole current map, so a first
      delta and a full copy coincide. */
  lemma DiffAgainstNothing(current: LineMap)
    ensures Diff(map[], current) == current
  {
  }

  // ---------------------------------------------------------------------
  // Concrete histories
  // ---------------------------------------------------------------------

  /** The history built by the repository's own test: ten one-line files
      submitted, then "More lines here!" appended and submitted again. The
      second record holds only line "1", and the join is the two-line map
      the test expects. */
  lemma AppendedLineExample(first: Change, second: Change)
    requires first.file == Enumerate(["Welcome to my file!\n"])
    requires second.file ==
             Diff(Join([first]), Enumerate(["Welcome to my file!\n", "More lines here!"]))
    ensures second.file == map["1" := "More lines here!"]
    ensures Join([first, second]) == map["0" := "Welcome to my file!\n", "1" := "More lines here!"]
  {
    assert LineKey(0) == "0" && LineKey(1) == "1";
    assert [first, second] == [first] + [second];
    JoinSnoc([first], second);
    assert [first] == [] + [first];
    JoinSnoc([], first);
  }

  /** Three submits of a file that goes "a\n", "b\n", "a\n", when the
      history reads back as its first record alone, as an unseparated
      history does once the first token ends in base64 padding: the second
      and third deltas are both taken against the first record's join. The
      third is then empty, and the three records join to "b\n" instead of
      the file's current "a\n". */
  lemma FirstRecordOnlyLosesRevert(first: Change, second: Change, third: Change)
    requires first.file == Enumerate(["a\n"])
    requires second.file == Diff(Join([first]), Enumerate(["b\n"]))
    requires third.file == Diff(Join([first]), Enumerate(["a\n"]))
    ensures third.file == map[]
    ensures Join([first, second, third]) == map["0" := "b\n"]
    ensures Join([first, second, third]) != Enumerate(["a\n"])
  {
    assert LineKey(0) == "0";
    assert [first] == [] + [first];
    JoinSnoc([], first);
    assert [first, second] == [first] + [second];
    JoinSnoc([first], second);
    assert [first, second, third] == [first, second] + [third];
    JoinSnoc([first, second], third);
    assert Enumerate(["a\n"])["0"] == "a\n" != "b\n";
  }

  /** Shrinking a three-line file to one line records only what changed and
      leaves the two dropped lines in the join. */
  lemma ShrinkExample(first: Change, second: Change)
    requires first.file == Enumerate(["a\n", "b\n", "c\n"])
    requires second.file == Diff(Join([first]), Enumerate(["z\n"]))
    ensures second.file == map["0" := "z\n"]
    ensures Join([first, second]) == map["0" := "z\n", "1" := "b\n", "2" := "c\n"]
  {
    var before := map["0" := "a\n", "1" := "b\n", "2" := "c\n"];
    var now := map["0" := "z\n"];
    assert Join([first]) == before by {
      assert LineKey(0) == "0" && LineKey(1) == "1" && LineKey(2) == "2";
      assert ["a\n", "b\n", "c\n"][..2] == ["a\n", "b\n"];
      assert ["a\n", "b\n"][..1] == ["a\n"];
      assert [first] == [] + [first];
      JoinSnoc([], first);
    }
    assert Enumerate(["z\n"]) == now by {
      assert LineKey(0) == "0";
    }
    assert second.file == now by {
      assert "a\n"[0] != "z\n"[0];
      assert Emitted(before, "0", "z\n");
    }
    assert [first, second] == [first] + [second];
    JoinSnoc([first], second);
  }
}
