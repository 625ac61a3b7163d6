/** The tracked-file list kept by `add_files`: the loop that decides which of
    the requested paths join the list and which are reported as not found.
    Membership is always tested against the list as it was before the call,
    so a path given twice in one request is appended twice. */
module Tracking {

  /** The paths of `files`, in request order, that are appended: not in the
      tracked list and present on disk. */
  function NewPaths(tracked: seq<string>, files: seq<string>, disk: set<string>): (added: seq<string>)
  {
    if files == [] then []
    else
      var f := files[|files| - 1];
      NewPaths(tracked, files[..|files| - 1], disk) + (if f !in tracked && f in disk then [f] else [])
  }

  /** The paths of `files`, in request order, reported as not found: not in
      the tracked list and absent from disk. */
  function Missing(tracked: seq<string>, files: seq<string>, disk: set<string>): (missing: seq<string>)
  {
    if files == [] then []
    else
      var f := files[|files| - 1];
      Missing(tracked, files[..|files| - 1], disk) + (if f !in tracked && f !in disk then [f] else [])
  }

  /** The loop of `add_files` that fills `to_add` and reports missing paths. */
  method CollectNewPaths(tracked: seq<string>, files: seq<string>, disk: set<string>)
    returns (toAdd: seq<string>, notFound: seq<string>)
    ensures toAdd == NewPaths(tracked, files, disk)
    ensures notFound == Missing(tracked, files, disk)
  {
    toAdd, notFound := [], [];
    for i := 0 to |files|
      invariant toAdd == NewPaths(tracked, files[..i], disk)
      invariant notFound == Missing(tracked, files[..i], disk)
    {
      var file := files[i];
      assert files[..i + 1][..i] == files[..i];
      if file !in tracked {
        if file in disk {
          toAdd := toAdd + [file];
        } else {
          notFound := notFound + [file];
        }
      }
    }
    assert files[..|files|] == files;
  }

  /** Selection distributes over concatenation of requests: the appended
      paths keep the request's order. */
  lemma {:induction false} NewPathsAppend(tracked: seq<string>, xs: seq<string>, ys: seq<string>, disk: set<string>)
    ensures NewPaths(tracked, xs + ys, disk) == NewPaths(tracked, xs, disk) + NewPaths(tracked, ys, disk)
    decreases |ys|
  {
    if ys != [] {
      var n := |ys| - 1;
      NewPathsAppend(tracked, xs, ys[..n], disk);
      assert (xs + ys)[..|xs + ys| - 1] == xs + ys[..n];
    } else {
      assert xs + ys == xs;
    }
  }

  /** A path is appended exactly when it was requested, was not tracked and
      exists on disk. */
  lemma {:induction false} NewPathsMembers(tracked: seq<string>, files: seq<string>, disk: set<string>)
    ensures forall p :: p in NewPaths(tracked, files, disk) <==> p in files && p !in tracked && p in disk
  {
    if files != [] {
      var n := |files| - 1;
      NewPathsMembers(tracked, files[..n], disk);
      assert files == files[..n] + [files[n]];
    }
  }

  /** A path is reported exactly when it was requested, was not tracked and
      does not exist on disk. */
  lemma {:induction false} MissingMembers(tracked: seq<string>, files: seq<string>, disk: set<string>)
    ensures forall p :: p in Missing(tracked, files, disk) <==> p in files && p !in tracked && p !in disk
  {
    if files != [] {
      var n := |files| - 1;
      MissingMembers(tracked, files[..n], disk);
      assert files == files[..n] + [files[n]];
    }
  }

  /** Nothing is appended when every requested path is tracked or absent. */
  lemma {:induction false} NewPathsNone(tracked: seq<string>, files: seq<string>, disk: set<string>)
    requires forall i :: 0 <= i < |files| ==> files[i] in tracked || files[i] !in disk
    ensures NewPaths(tracked, files, disk) == []
  {
    if files != [] {
      NewPathsNone(tracked, files[..|files| - 1], disk);
    }
  }

  /** Adding the same request a second time appends nothing. */
  lemma AddTwiceAppendsNothing(tracked: seq<string>, files: seq<string>, disk: set<string>)
    ensures NewPaths(tracked + NewPaths(tracked, files, disk), files, disk) == []
  {
    var added := NewPaths(tracked, files, disk);
    NewPathsMembers(tracked, files, disk);
    forall i | 0 <= i < |files|
      ensures files[i] in tracked + added || files[i] !in disk
    {
      assert files[i] in files;
    }
    NewPathsNone(tracked + added, files, disk);
  }

  /** A request naming an untracked, existing path twice appends it twice:
      membership is tested against the list as it was before the call. */
  lemma DuplicateRequestAppendsTwice(tracked: seq<string>, p: string, disk: set<string>)
    requires p !in tracked && p in disk
    ensures NewPaths(tracked, [p, p], disk) == [p, p]
  {
    assert [p, p][..1] == [p];
    assert [p][..0] == [];
    assert NewPaths(tracked, [p], disk) == [p];
  }
}
