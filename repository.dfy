/** The repository: whether its `.vestory` directory exists, the tracked-file
    list of its configuration, and the changes directory, seen as one history
    of records per history id. `add_files` grows the tracked list;
    `submit_change` appends one record to the history of every tracked path
    it is given. Both do nothing when the directory is missing.

    The working tree is a parameter: a map from each existing file's path to
    the lines `readlines()` returns for it. The md5 digests are the two
    function constants of a repository: `pathId` names a path's history file
    (the digest of the path, assumed injective) and `hashLines` fingerprints a
    line map (the digest of its text form). The clock is a parameter that
    gives the timestamp read while handling the i-th requested path. */
module Repository {
  import opened LineMaps
  import opened Optional
  import Tracking

  /** Path to the lines of the file there. */
  type WorkingTree = map<string, seq<string>>

  /** History id to the records of that history, oldest first. */
  type Histories = map<string, seq<Change>>

  datatype AddOutcome = AddNoRepository | Added(notFound: seq<string>)

  datatype SubmitOutcome = SubmitNoRepository | Submitted | FileNotFound(path: string)

  /** Everything a submit reads besides the histories. */
  datatype Context = Context(
    tracked: seq<string>,
    tree: WorkingTree,
    comment: string,
    clock: nat -> string,
    pathId: string -> string,
    hashLines: LineMap -> string)

  datatype SubmitResult = SubmitResult(histories: Histories, outcome: SubmitOutcome)

  ghost predicate Injective(f: string -> string)
  {
    forall p, q :: f(p) == f(q) ==> p == q
  }

  ghost predicate NonEmptyHistories(histories: Histories)
  {
    forall id :: id in histories ==> histories[id] != []
  }

  // ---------------------------------------------------------------------
  // One path of a submit
  // ---------------------------------------------------------------------

  /** The record stored for a file with these lines: the full line map if
      its history is new, else the delta against the join of the history. */
  function NewRecord(histories: Histories, id: string, lines: seq<string>, comment: string,
                     date: string, hashLines: LineMap -> string): (record: Change)
  {
    var fileLines := Enumerate(lines);
    var info := Change("", "", date, comment, hashLines(fileLines), fileLines);
    if id !in histories then info else info.(file := Diff(Join(histories[id]), fileLines))
  }

  /** The histories after `path` is handled; None when the tracked path is
      not on disk, where reading it fails. */
  function SubmitPath(histories: Histories, ctx: Context, path: string, date: string): (next: Option<Histories>)
  {
    if path !in ctx.tracked then Some(histories)
    else if path !in ctx.tree then None
    else
      var id := ctx.pathId(path);
      var record := NewRecord(histories, id, ctx.tree[path], ctx.comment, date, ctx.hashLines);
      Some(histories[id := (if id in histories then histories[id] else []) + [record]])
  }

  /** The outcome of handling `files` in order, the first of them being the
      k-th requested path; the first tracked path missing from disk stops the
      submit, keeping what the paths before it stored. */
  function SubmitFiles(histories: Histories, ctx: Context, files: seq<string>, k: nat): (r: SubmitResult)
    decreases |files|
  {
    if files == [] then SubmitResult(histories, Submitted)
    else
      match SubmitPath(histories, ctx, files[0], ctx.clock(k))
      case None => SubmitResult(histories, FileNotFound(files[0]))
      case Some(next) => SubmitFiles(next, ctx, files[1..], k + 1)
  }

  /** One step of a submit, from the i-th requested path on. */
  lemma SubmitFilesStep(histories: Histories, ctx: Context, files: seq<string>, i: nat)
    requires i < |files|
    ensures SubmitFiles(histories, ctx, files[i..], i) ==
            match SubmitPath(histories, ctx, files[i], ctx.clock(i))
            case None => SubmitResult(histories, FileNotFound(files[i]))
            case Some(next) => SubmitFiles(next, ctx, files[i + 1..], i + 1)
  {
    assert files[i..][0] == files[i] && files[i..][1..] == files[i + 1..];
  }

  /** Per-path behaviour of a submit: an untracked path is skipped; a tracked
      path with no history gets a one-record history holding its full line
      map; otherwise one record holding the delta against the join of its
      history is appended. Every record carries the comment, the date and the
      fingerprint of the full line map. */
  lemma SubmitPathEffect(histories: Histories, ctx: Context, path: string, date: string)
    ensures path !in ctx.tracked ==> SubmitPath(histories, ctx, path, date) == Some(histories)
    ensures path in ctx.tracked && path !in ctx.tree ==> SubmitPath(histories, ctx, path, date) == None
    ensures path in ctx.tracked && path in ctx.tree ==>
              var id := ctx.pathId(path);
              var lines := Enumerate(ctx.tree[path]);
              var r := SubmitPath(histories, ctx, path, date);
              && r.Some? && id in r.value
              && |r.value[id]| == (if id in histories then |histories[id]| else 0) + 1
              && (id in histories ==> r.value[id][..|histories[id]|] == histories[id])
              && var record := r.value[id][|r.value[id]| - 1];
              && record.comment == ctx.comment && record.date == date
              && record.hashFile == ctx.hashLines(lines)
              && record.author == "" && record.authorEmail == ""
              && record.file == (if id in histories then Diff(Join(histories[id]), lines) else lines)
  {
  }

  /** Handling one path leaves every other path's history as it was. */
  lemma SubmitPathOthersUnchanged(histories: Histories, ctx: Context, path: string, date: string, other: string)
    requires Injective(ctx.pathId)
    requires other != path
    requires SubmitPath(histories, ctx, path, date).Some?
    ensures var r := SubmitPath(histories, ctx, path, date).value;
            var id := ctx.pathId(other);
            (id in r <==> id in histories) && (id in histories ==> r[id] == histories[id])
  {
  }

  /** Lines `lines` are recovered from the join of a history: every line
      index of the file maps to its line. */
  ghost predicate Reconstructs(histories: Histories, id: string, lines: seq<string>)
  {
    id in histories &&
    forall i :: 0 <= i < |lines| ==> LineKey(i) in Join(histories[id]) && Join(histories[id])[LineKey(i)] == lines[i]
  }

  /** The central property of a submit: after a tracked path is handled, the
      join of its history is the previous join overlaid with the file's whole
      line map, so it agrees with the file on every line it has and keeps the
      lines past its end that earlier records stored. */
  lemma SubmitPathReconstructs(histories: Histories, ctx: Context, path: string, date: string)
    requires path in ctx.tracked && path in ctx.tree
    ensures var id := ctx.pathId(path);
            var r := SubmitPath(histories, ctx, path, date);
            && r.Some? && id in r.value
            && Join(r.value[id]) == (if id in histories then Join(histories[id]) else map[]) + Enumerate(ctx.tree[path])
            && Reconstructs(r.value, id, ctx.tree[path])
  {
    var id := ctx.pathId(path);
    var lines := ctx.tree[path];
    var record := NewRecord(histories, id, lines, ctx.comment, date, ctx.hashLines);
    var prior := if id in histories then histories[id] else [];
    if id in histories {
      JoinDiffOverlay(prior, Enumerate(lines), record);
    } else {
      assert [record] == [] + [record];
      JoinSnoc([], record);
    }
    EnumerateAt(lines);
  }

  // ---------------------------------------------------------------------
  // A whole submit
  // ---------------------------------------------------------------------

  /** A submit keeps every history non-empty. */
  lemma {:induction false} SubmitFilesNonEmpty(histories: Histories, ctx: Context, files: seq<string>, k: nat)
    requires NonEmptyHistories(histories)
    ensures NonEmptyHistories(SubmitFiles(histories, ctx, files, k).histories)
    decreases |files|
  {
    if files != [] {
      var r := SubmitPath(histories, ctx, files[0], ctx.clock(k));
      if r.Some? {
        SubmitFilesNonEmpty(r.value, ctx, files[1..], k + 1);
      }
    }
  }

  /** The history of a path that was not requested, or is not tracked, is
      untouched by a submit. */
  lemma {:induction false} SubmitFilesUntouched(histories: Histories, ctx: Context, files: seq<string>, k: nat, other: string)
    requires Injective(ctx.pathId)
    requires other !in files || other !in ctx.tracked
    ensures var h := SubmitFiles(histories, ctx, files, k).histories;
            var id := ctx.pathId(other);
            (id in h <==> id in histories) && (id in histories ==> h[id] == histories[id])
    decreases |files|
  {
    if files != [] {
      var r := SubmitPath(histories, ctx, files[0], ctx.clock(k));
      if r.Some? {
        if files[0] != other {
          SubmitPathOthersUnchanged(histories, ctx, files[0], ctx.clock(k), other);
        }
        assert other in files[1..] ==> other in files;
        SubmitFilesUntouched(r.value, ctx, files[1..], k + 1, other);
      }
    }
  }

  /** After a submit that completes, every tracked path it was given can be
      rebuilt from its history: the join agrees with the file on every line. */
  lemma {:induction false} SubmitFilesReconstructs(histories: Histories, ctx: Context, files: seq<string>, k: nat, path: string)
    requires Injective(ctx.pathId)
    requires path in files && path in ctx.tracked
    requires SubmitFiles(histories, ctx, files, k).outcome == Submitted
    ensures path in ctx.tree
    ensures Reconstructs(SubmitFiles(histories, ctx, files, k).histories, ctx.pathId(path), ctx.tree[path])
    decreases |files|
  {
    var r := SubmitPath(histories, ctx, files[0], ctx.clock(k));
    assert r.Some?;
    if files[0] == path {
      SubmitPathReconstructs(histories, ctx, path, ctx.clock(k));
      if path in files[1..] {
        SubmitFilesReconstructs(r.value, ctx, files[1..], k + 1, path);
      } else {
        SubmitFilesUntouched(r.value, ctx, files[1..], k + 1, path);
      }
    } else {
      assert path in files[1..];
      SubmitFilesReconstructs(r.value, ctx, files[1..], k + 1, path);
    }
  }

  /** A submit only appends: every history that existed before it still
      exists and keeps its old records as a prefix, whether the submit
      completes or stops at a missing file. */
  lemma {:induction false} SubmitFilesAppendOnly(histories: Histories, ctx: Context, files: seq<string>, k: nat, id: string)
    requires id in histories
    ensures var h := SubmitFiles(histories, ctx, files, k).histories;
            id in h && histories[id] <= h[id]
    decreases |files|
  {
    if files != [] {
      var r := SubmitPath(histories, ctx, files[0], ctx.clock(k));
      if r.Some? {
        SubmitFilesAppendOnly(r.value, ctx, files[1..], k + 1, id);
      }
    }
  }

  /** A submit reports a missing file only for a requested, tracked path that
      is not on disk, the first such path of the request, and never reports
      a missing repository. */
  lemma {:induction false} SubmitFilesFailure(histories: Histories, ctx: Context, files: seq<string>, k: nat)
    ensures SubmitFiles(histories, ctx, files, k).outcome != SubmitNoRepository
    ensures var out := SubmitFiles(histories, ctx, files, k).outcome;
            out.FileNotFound? ==> out.path in files && out.path in ctx.tracked && out.path !in ctx.tree
    ensures var out := SubmitFiles(histories, ctx, files, k).outcome;
            out.FileNotFound? ==>
              exists i :: 0 <= i < |files| && files[i] == out.path &&
                          forall j :: 0 <= j < i ==> files[j] !in ctx.tracked || files[j] in ctx.tree
    decreases |files|
  {
    if files != [] {
      var r := SubmitPath(histories, ctx, files[0], ctx.clock(k));
      if r.Some? {
        var rest := files[1..];
        SubmitFilesFailure(r.value, ctx, rest, k + 1);
        var out := SubmitFiles(r.value, ctx, rest, k + 1).outcome;
        if out.FileNotFound? {
          var i :| 0 <= i < |rest| && rest[i] == out.path &&
                   forall j :: 0 <= j < i ==> rest[j] !in ctx.tracked || rest[j] in ctx.tree;
          assert files[i + 1] == out.path;
          forall j | 0 <= j < i + 1
            ensures files[j] !in ctx.tracked || files[j] in ctx.tree
          {
            if j > 0 {
              assert files[j] == rest[j - 1];
            }
          }
          assert out.path in files;
        }
      } else {
        assert files[0] in files;
      }
    }
  }

  /** Submitting a file again unchanged, when none of its lines is empty,
      stores a record whose delta is empty. */
  lemma ResubmitUnchangedStoresNothing(histories: Histories, ctx: Context, path: string, d1: string, d2: string)
    requires path in ctx.tracked && path in ctx.tree
    requires forall i :: 0 <= i < |ctx.tree[path]| ==> ctx.tree[path][i] != ""
    ensures var id := ctx.pathId(path);
            var once := SubmitPath(histories, ctx, path, d1);
            && once.Some?
            && var twice := SubmitPath(once.value, ctx, path, d2);
            && twice.Some? && id in twice.value && twice.value[id] != []
            && twice.value[id][|twice.value[id]| - 1].file == map[]
  {
    var id := ctx.pathId(path);
    var lines := ctx.tree[path];
    var current := Enumerate(lines);
    SubmitPathReconstructs(histories, ctx, path, d1);
    var h1 := SubmitPath(histories, ctx, path, d1).value;
    SubmitPathEffect(h1, ctx, path, d2);
    EnumerateAt(lines);
    forall k | k in current
      ensures !Emitted(Join(h1[id]), k, current[k])
    {
      var i :| 0 <= i < |lines| && k == LineKey(i);
    }
    assert Diff(Join(h1[id]), current) == map[];
  }

  /** A submit whose paths are all untracked changes nothing. */
  lemma {:induction false} SubmitUntrackedOnly(histories: Histories, ctx: Context, files: seq<string>, k: nat)
    requires forall i :: 0 <= i < |files| ==> files[i] !in ctx.tracked
    ensures SubmitFiles(histories, ctx, files, k) == SubmitResult(histories, Submitted)
    decreases |files|
  {
    if files != [] {
      SubmitUntrackedOnly(histories, ctx, files[1..], k + 1);
    }
  }

  /** The repository's own test sequence for one file: a first submit of the
      one-line file, then a submit after "More lines here!" was appended. The
      history then holds two records, the second holding only line "1", and
      its join is the two-line map the test expects. */
  lemma TwoSubmitsOfOneFile(histories: Histories, first: Context, second: Context, path: string)
    requires path in first.tracked && path in second.tracked
    requires first.pathId == second.pathId && first.pathId(path) !in histories
    requires path in first.tree && first.tree[path] == ["Welcome to my file!\n"]
    requires path in second.tree && second.tree[path] == ["Welcome to my file!\n", "More lines here!"]
    ensures var after := SubmitFiles(histories, first, [path], 0);
            var final := SubmitFiles(after.histories, second, [path], 0);
            var id := first.pathId(path);
            && after.outcome == Submitted && final.outcome == Submitted
            && id in final.histories && |final.histories[id]| == 2
            && final.histories[id][1].file == map["1" := "More lines here!"]
            && Join(final.histories[id]) == map["0" := "Welcome to my file!\n", "1" := "More lines here!"]
  {
    var id := first.pathId(path);
    var after := SubmitFiles(histories, first, [path], 0);
    assert [path][0] == path && [path][1..] == [];
    assert SubmitPath(histories, first, path, first.clock(0)).Some?;
    var h1 := SubmitPath(histories, first, path, first.clock(0)).value;
    assert [path][0..] == [path];
    SubmitFilesStep(histories, first, [path], 0);
    assert after == SubmitFiles(h1, first, [], 1);
    assert SubmitPath(h1, second, path, second.clock(0)).Some?;
    var r1 := NewRecord(histories, id, first.tree[path], first.comment, first.clock(0), first.hashLines);
    assert h1[id] == [] + [r1];
    var h2 := SubmitPath(h1, second, path, second.clock(0)).value;
    SubmitFilesStep(h1, second, [path], 0);
    assert SubmitFiles(h1, second, [path], 0) == SubmitFiles(h2, second, [], 1);
    var r2 := NewRecord(h1, id, second.tree[path], second.comment, second.clock(0), second.hashLines);
    assert h2[id] == [r1] + [r2];
    AppendedLineExample(r1, r2);
  }

  // ---------------------------------------------------------------------
  // The repository object
  // ---------------------------------------------------------------------

  class Repo {
    /** Whether the `.vestory` directory exists (`_check_repo_exists`). */
    var repoExists: bool
    /** The `tracking_files` list of the configuration. */
    var tracked: seq<string>
    /** The changes directory, one history per history id. */
    var histories: Histories
    const pathId: string -> string
    const hashLines: LineMap -> string

    ghost predicate Valid()
      reads this
    {
      Injective(pathId) && NonEmptyHistories(histories)
    }

    /** A repository in the state it was persisted in. */
    constructor (repoExists: bool, tracked: seq<string>, histories: Histories,
                 pathId: string -> string, hashLines: LineMap -> string)
      requires Injective(pathId) && NonEmptyHistories(histories)
      ensures Valid()
      ensures this.repoExists == repoExists && this.tracked == tracked && this.histories == histories
      ensures this.pathId == pathId && this.hashLines == hashLines
    {
      this.repoExists := repoExists;
      this.tracked := tracked;
      this.histories := histories;
      this.pathId := pathId;
      this.hashLines := hashLines;
    }

    /** `add_files`: with no repository nothing changes; otherwise the paths
        chosen by the loop are appended to the tracked list, whose old
        contents stay as its prefix, and the missing ones are reported. */
    method AddFiles(files: seq<string>, tree: WorkingTree) returns (outcome: AddOutcome)
      requires Valid()
      modifies this
      ensures Valid()
      ensures repoExists == old(repoExists) && histories == old(histories)
      ensures !repoExists ==> outcome == AddNoRepository && tracked == old(tracked)
      ensures repoExists ==>
                && tracked == old(tracked) + Tracking.NewPaths(old(tracked), files, tree.Keys)
                && outcome == Added(Tracking.Missing(old(tracked), files, tree.Keys))
    {
      if !repoExists {
        return AddNoRepository;
      }
      var toAdd, notFound := Tracking.CollectNewPaths(tracked, files, tree.Keys);
      tracked := tracked + toAdd;
      outcome := Added(notFound);
    }

    /** `submit_change`: with no repository nothing changes; otherwise the
        paths are handled in order as `SubmitFiles` describes, each tracked
        one enumerated, joined against its history and diffed. */
    method SubmitChange(files: seq<string>, comment: string, tree: WorkingTree, clock: nat -> string)
      returns (outcome: SubmitOutcome)
      requires Valid()
      modifies this
      ensures Valid()
      ensures repoExists == old(repoExists) && tracked == old(tracked)
      ensures !repoExists ==> outcome == SubmitNoRepository && histories == old(histories)
      ensures repoExists ==>
                SubmitResult(histories, outcome) ==
                SubmitFiles(old(histories), Context(tracked, tree, comment, clock, pathId, hashLines), files, 0)
    {
      if !repoExists {
        return SubmitNoRepository;
      }
      ghost var ctx := Context(tracked, tree, comment, clock, pathId, hashLines);
      ghost var goal := SubmitFiles(histories, ctx, files, 0);
      assert files[0..] == files;
      var i := 0;
      while i < |files|
        invariant 0 <= i <= |files|
        invariant tracked == ctx.tracked && repoExists
        invariant NonEmptyHistories(histories)
        invariant SubmitFiles(histories, ctx, files[i..], i) == goal
        decreases |files| - i
      {
        var file := files[i];
        ghost var prior := histories;
        ghost var step := SubmitPath(prior, ctx, file, ctx.clock(i));
        SubmitFilesStep(prior, ctx, files, i);
        if file !in tracked {
          assert step == Some(prior);
          i := i + 1;
          continue;
        }
        if file !in tree {
          assert step == None;
          return FileNotFound(file);
        }
        var id := pathId(file);
        var fileLines := EnumerateLines(tree[file]);
        var info := Change("", "", clock(i), comment, hashLines(fileLines), fileLines);
        if id !in histories {
          assert [] + [info] == [info];
          histories := histories[id := [info]];
        } else {
          var allChanges := histories[id];
          var joined := JoinChanges(allChanges);
          var difference := CheckDiff(joined, fileLines);
          info := info.(file := difference);
          histories := histories[id := histories[id] + [info]];
        }
        assert info == NewRecord(prior, id, tree[file], comment, clock(i), hashLines);
        assert histories == prior[id := (if id in prior then prior[id] else []) + [info]];
        assert step == Some(histories);
        i := i + 1;
      }
      assert files[i..] == [];
      outcome := Submitted;
    }
  }
}
