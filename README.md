# vestory change engine in Dafny

This project models the line-level change engine of vestory, a local,
single-user version-control tool (`vestory/version_control.py`). It tracks a
list of files. Each submit stores one change record per tracked file in that
file's history. A file can be rebuilt by joining its history.

- A file is a **line map**. Its keys are `str(i)` and its values are the lines
  `readlines()` returns. See `LineMaps.Enumerate` and the loop method
  `LineMaps.EnumerateLines`.
- A **change record** (`LineMaps.Change`) carries the author fields (written
  empty), the date, the comment, the digest of the full line map, and a line
  map `file`.
- On a file's first submit, `file` is the full line map. On every later
  submit, it is the **delta** (`LineMaps.Diff`, loop method
  `LineMaps.CheckDiff`) against the **join** of all earlier records
  (`LineMaps.Join`, loop method `LineMaps.JoinChanges`).
- The join lays each record's map over an accumulator, in order.
- The delta keeps a current line when the join has no truthy value at its
  index, or has a different value there. Python's `not d.get(k)` counts a
  missing key and an empty string alike, so an empty line is always
  re-emitted. A line that exists only in the join is never emitted, so a
  delta cannot express a deletion. `readlines` never returns an empty line,
  so through `submit_change` this re-emission does not happen; the model's
  working tree does not exclude empty lines.
  `Repository.ResubmitUnchangedStoresNothing` states what the delta is
  instead: an unchanged file of non-empty lines, submitted again, stores an
  empty delta, which the code as written does when the first of the two
  submits created the history (see "## Left out").
- The history file's text is modelled in `HistoryFile`:
  - the first token is written as the whole file (`_write_file`);
  - later tokens are appended (`_update_file`);
  - reading splits the text with `readlines` and decodes each line (`get_changes`).
- `Tracking` models the loop of `add_files` that picks the paths to append.
- `Repository.Repo` is the repository object. It holds:
  - whether the `.vestory` directory exists (the `_check_repo_exists` guard);
  - the tracked list;
  - one record sequence per history id.
  `AddFiles` and `SubmitChange` change nothing when the directory is missing.

Several things come in from outside, as parameters:

- The working tree is a map from each existing path to its lines. `path.isfile`
  is membership in that map.
- The two md5 digests are function constants of a repository: `pathId` (the
  history file name of a path, assumed injective) and `hashLines` (the
  fingerprint of a line map).
- The JSON + base64 token codec is a pair `encode`/`decode`. The model assumes
  only `HistoryFile.Codec` of it: a token is non-empty, has no line break
  `\n` or `\r` (the base64 alphabet of section 4 of RFC 4648 has neither),
  and decodes to its record.
- `datetime.now()` is a clock indexed by the position of the path in the
  request.

## Model

| member | source | states |
|---|---|---|
| `Decimal.ParseNatToString` | vestory/version_control.py:52-53 | reading back the key `str(i)` of a line gives `i` |
| `Decimal.NatToStringInjective` | vestory/version_control.py:52-53 | two different line indices never share a key |
| `LineMaps.EnumerateLines` | vestory/version_control.py:49-55 | the loop builds `Enumerate(lines)`; its keys are exactly `str(0)`..`str(n-1)` and line i sits under `str(i)` |
| `LineMaps.EnumerateAt` | vestory/version_control.py:49-55 | the enumerated map has exactly the keys `str(i)` for every line index i, with line i under `str(i)` |
| `LineMaps.EnumerateSize` | vestory/version_control.py:49-55 | a file of n lines gives a map of n entries |
| `LineMaps.JoinChanges` | vestory/version_control.py:136-145 | the nested loops compute the fold `Join` of the history |
| `LineMaps.JoinSnoc` | vestory/version_control.py:141-143 | joining `cs + [c]` is the join of `cs` overlaid with `c.file` |
| `LineMaps.JoinLastWriter` | vestory/version_control.py:136-145 | a key is in the join iff some record has it, and its value comes from the last record that has it |
| `LineMaps.CheckDiff` | vestory/version_control.py:148-161 | the loop computes `Diff`; every result entry is a current entry; a current line is omitted iff the join holds the same non-empty line; keys only in the join never appear |
| `LineMaps.JoinDiffOverlay` | vestory/version_control.py:208-212 | appending the delta against the join makes the new join equal the old join overlaid with the whole current map |
| `LineMaps.ReconstructionRoundTrip` | vestory/version_control.py:208-212 | the new join agrees with the current file on every current line, and keeps every line past a shrink unchanged |
| `LineMaps.DeltaStable` | vestory/version_control.py:158 | with no empty line, diffing the same file against the new join yields an empty delta |
| `LineMaps.EmptyLineAlwaysEmitted` | vestory/version_control.py:158 | an empty current line is in the delta whatever the join holds, so the delta is never empty |
| `LineMaps.DiffAgainstNothing` | vestory/version_control.py:148-161 | the delta against an empty join is the whole current map |
| `LineMaps.AppendedLineExample` | tests/test_vestory.py:96-104 | submitting a one-line file and then the file with "More lines here!" appended stores only line "1" in the second record, and the join is the two-line map the test expects |
| `LineMaps.ShrinkExample` | vestory/version_control.py:157-159 | shrinking a three-line file to one changed line stores only line "0", and the two dropped lines remain in the join |
| `HistoryFile.WriteFile` | vestory/version_control.py:15-17 | the named file's text becomes exactly the content, the file is created if missing, and every other file is unchanged |
| `HistoryFile.UpdateFile` | vestory/version_control.py:20-25 | append mode creates a missing file; the old text stays as a prefix and the content ends the new text; one newline comes between them iff `new_line` is set; every other file is unchanged |
| `HistoryFile.Store` | vestory/version_control.py:200-217 | storing a history's tokens submit by submit (the first written, the later ones appended) gives a text that starts with the first token and ends with the last, whatever the file held before, and leaves every other file unchanged |
| `HistoryFile.ReadLinesSplit` | vestory/version_control.py:124-125 | `readlines` loses nothing: the lines concatenate to the text, none is empty, and each line except the last ends in its only newline |
| `HistoryFile.GetChanges` | vestory/version_control.py:120-133 | the loop decodes every line of the history in order, and fails if the file is missing or any line fails to decode |
| `HistoryFile.UnseparatedHistoryIsOneLine` | vestory/version_control.py:217 | stored as submitted, without a separator, a history's text is the bare concatenation of its tokens and reads back as one line |
| `HistoryFile.UnseparatedHistoryLosesRecords` | vestory/version_control.py:217 | after two submits stored without a separator, reading the history does not give back the two records |
| `HistoryFile.SeparatedHistoryRoundTrip` | vestory/version_control.py:20-25 | with `new_line` set on every append, reading the history gives back exactly the stored records, in order |
| `Tracking.CollectNewPaths` | vestory/version_control.py:106-114 | the loop collects `to_add` (untracked paths present on disk) and the not-found paths, in request order |
| `Tracking.NewPathsAppend` | vestory/version_control.py:109-112 | path selection distributes over concatenation of the request, so the appended paths keep the request order |
| `Tracking.NewPathsMembers` | vestory/version_control.py:109-112 | a path is appended iff it was requested, was not tracked, and exists on disk |
| `Tracking.MissingMembers` | vestory/version_control.py:109-114 | a path is reported not found iff it was requested, was not tracked, and is absent from disk |
| `Tracking.NewPathsNone` | vestory/version_control.py:109-112 | nothing is appended when each requested path is tracked or absent |
| `Tracking.AddTwiceAppendsNothing` | vestory/version_control.py:106-117 | repeating the same request after `add_files` appends nothing |
| `Tracking.DuplicateRequestAppendsTwice` | vestory/version_control.py:109-112 | an untracked, existing path named twice in one request is appended twice, because `to_add` is not consulted |
| `Repository.TwoSubmitsOfOneFile` | tests/test_vestory.py:59-104 | the test sequence of a first submit and a submit after appending a line leaves two records in the history, the second holding only line "1", and their join is the two-line map the test expects; the test's own readback gives these two records only with the separator fix (see Findings) |
| `Repository.Repo.AddFiles` | vestory/version_control.py:93-117 | with no repository nothing changes; otherwise the old list stays as the prefix and the collected paths follow it; missing paths are reported |
| `Repository.Repo.SubmitChange` | vestory/version_control.py:164-217 | with no repository nothing changes; otherwise the histories and outcome are those of `SubmitFiles` on the old histories |
| `Repository.SubmitPathEffect` | vestory/version_control.py:179-217 | an untracked path is skipped; a tracked path missing from disk fails; otherwise one record is appended and the old records stay as a prefix; the record carries the comment, the date and the digest of the full map; its `file` is the full map for a new history, else the diff against the join |
| `Repository.SubmitPathOthersUnchanged` | vestory/version_control.py:184-185 | handling one path leaves the history of every other path unchanged |
| `Repository.SubmitPathReconstructs` | vestory/version_control.py:200-217 | after a tracked path is handled, its join is the previous join overlaid with the file's line map, so it agrees with the file on every line |
| `Repository.SubmitFilesNonEmpty` | vestory/version_control.py:201-217 | a history exists only once a record has been stored in it |
| `Repository.SubmitFilesUntouched` | vestory/version_control.py:179-182 | a submit leaves alone the history of any path it was not given, or that is not tracked |
| `Repository.SubmitFilesReconstructs` | vestory/version_control.py:179-217 | after a submit that completes, every tracked path it was given rebuilds from its history to the file's current lines |
| `Repository.SubmitFilesAppendOnly` | vestory/version_control.py:179-217 | a submit, completed or stopped by a missing file, keeps every existing history and its old records as a prefix |
| `Repository.SubmitFilesFailure` | vestory/version_control.py:179-190 | a submit reports a missing file only for a requested, tracked path that is not on disk, and it is the first such path of the request, where `open()` raises |
| `LineMaps.FirstRecordOnlyLosesRevert` | vestory/version_control.py:208-217 | when a history reads back as its first record alone, a file that goes "a\n", "b\n", "a\n" over three submits gets an empty third delta, and its records join to "b\n", not the file |
| `Repository.ResubmitUnchangedStoresNothing` | vestory/version_control.py:208-217 | submitting a file of non-empty lines twice without a change stores an empty delta the second time |
| `Repository.SubmitUntrackedOnly` | vestory/version_control.py:179-182 | a submit whose paths are all untracked changes nothing and succeeds |

## Left out

- `init_repo` is not modelled. It creates directories, reads the author with `input()`, and prints. A `Repository.Repo` is constructed from a persisted state instead.
- `_get_files_tracked` and `_update_tracked_files` are not modelled as JSON I/O. They are reading and assigning the `tracked` field.
- md5 hashing, JSON (de)serialisation and base64 are library calls. They are function parameters, and the model assumes only that `pathId` is injective and that `HistoryFile.Codec` holds.
- `datetime.now()` is the `clock` parameter.
- Console output and colour codes are not modelled. `AddFiles` returns the not-found paths, and the no-repository message becomes an outcome.
- Reading a working file is taken as given: the tree maps a path to its `readlines()` result. Only the history files' `readlines` is modelled.
- `Repository.Repo` keeps each history as a sequence of records. The text form with its readback is modelled separately in `HistoryFile`. The two agree only with the corrected separator (see Findings).
- `Repository.Repo.SubmitChange`: holds for the separator-fixed readback only. As written, from the third submit of a file on, `get_changes` reads one merged line. Non-strict base64 decoding stops at the first token's padding and gives the first record alone, so the delta is taken against that record's join (`LineMaps.FirstRecordOnlyLosesRevert`). Where the first token has no padding, the decoded bytes hold several JSON objects, `json.loads` raises, and the submit stops.
- `Repository.SubmitFilesReconstructs`: holds for the separator-fixed readback only. As written, from the third submit on, the delta is taken against the first record alone or the submit raises, as for `Repository.Repo.SubmitChange`. A file that goes "a\n", "b\n", "a\n" then joins to "b\n".
- `Repository.SubmitPathEffect`: the delta it states is against the join of every earlier record, which holds for the separator-fixed readback only. As written, once a history holds two records, the delta is taken against the first record's join, or reading the history raises (`LineMaps.FirstRecordOnlyLosesRevert`).
- `Repository.ResubmitUnchangedStoresNothing`: holds for the separator-fixed readback only once the history already holds a record before the two submits. As written, the second submit then reads that earlier record alone, or the read raises. A history holding the map of "a\n", followed by two submits of "b\n", stores `{"0":"b\n"}` the second time. When the first of the two submits creates the history, the code as written stores the empty delta the lemma states.
- `Repository.SubmitPathReconstructs`: holds for the separator-fixed readback only. As written, once a history holds two records, the join it extends is that of the first record alone, or reading the history raises, as for `Repository.Repo.SubmitChange`.
- `HistoryFile.GetChanges`: non-strict base64 decoding drops every character outside the alphabet and stops at the first complete padding group. The model drops only the line terminator before decoding, and the codec is a parameter, so what a merged line of several tokens decodes to is not computed.
- `HistoryFile.ReadLinesSplit`: `ReadLines` splits at `\n` only. Python's text-mode `readlines` also splits at `\r` and `\r\n`, so the model is `readlines` on text without `\r`. History files hold base64 tokens and newlines only; `HistoryFile.Codec` excludes both characters from a token.
- Decode errors from `b64decode` and `json.loads` are exceptions in the source. Here they are the `None` of `GetChanges`.
- A tracked path missing from disk makes `open()` raise in `submit_change`. The model aborts the submit with `FileNotFound` and keeps what earlier paths stored.
- Nothing in `vestory/version_control.py` signs tokens or keeps a repository key, a tracked-hash index or a change log, so none of these is modelled.
- The repository's tests call `check_file_has_changed` and a two-argument `init_repo`. Neither exists in this version of the code.
- `vestory/integrity.py`, `vestory/vestory_config.py`, `vestory/__main__.py`, `vestory/exceptions.py` and `setup.py` are not part of this model. They are a wrapper over the external `utoken` library, configuration I/O, CLI wiring, unused exception classes and packaging.
- Concurrent writers and filesystem failures other than a missing file are not modelled.

## Findings

| source | as written | input that shows it | evidently intended | confidence | as-written member | corrected member |
|---|---|---|---|---|---|---|
| vestory/version_control.py:217 | later tokens are appended with `_update_file(..., new_line=False)`, so no separator comes between two tokens | submit a tracked file, change it, and submit it again: the history is one line holding both tokens, while tests/test_vestory.py:77-84 expects two lines, tests/test_vestory.py:90-94 expects two changes read back and tests/test_vestory.py:96-104 expects their two-line join | `_update_file(change_info_base64, file_history_path, new_line=True)`, one token per line, so `get_changes` reads every record | not executed; high | `HistoryFile.UnseparatedHistoryLosesRecords` | `HistoryFile.SeparatedHistoryRoundTrip` |
