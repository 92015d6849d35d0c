# optICA file pipeline: a Dafny model

This project models the parallel post-processing stages of the optICA pipeline. These
stages run after the independent component analysis (ICA) runs and before clustering.
All of them work on the files of one shared temporary directory `<output>/tmp`:

- **Distance stage** (`compute_distance.py`):
  - It builds the upper-triangular grid of block tasks and deals it round-robin to the workers.
  - Every worker selects the per-run S tables `proc_<n>_S.csv` and orders them by run number.
  - Each worker computes the absolute correlation of every ordered pair of tables.
  - Entries below 0.5 become 0, the rest is clipped to [0, 1], and each result is saved as `dist_<a>_<b>.npz`.
- **Merge stage** (`merge_csv_MPI.py`):
  - The per-run tables `proc_tmp_<n>_<type>.csv` are ordered by run number.
  - They are cut into equal contiguous slices, one per rank.
  - Each slice is concatenated column-wise into `proc_<rank>_<type>.csv`.
  - The run aborts when there are fewer tables than ranks.
  - The remainder is left unmerged, and the merged inputs are deleted.
  - Each rank then divides its S table by sqrt(rows) and multiplies its A table by the same factor.
- **Adjustment stage** (`adjust_csv_MPI.py`):
  - Rank 0 deletes every empty CSV together with its S/A counterpart.
  - The remaining S and A tables are split over the ranks in near-equal slices.
  - Each table is rescaled by the square root of its own row count.
  - Rank 0 renumbers the A tables, and then the S tables, to `proc_0 ..`, in ascending id order.
- **Older merge script** (`.ipynb_checkpoints/Merge_components_files-checkpoint.py`):
  - The selected tables are sorted as strings and cut into ceiling-sized groups, one per core.
  - Each group is merged into `proc_<core>_<type>.csv`.
  - Each core's S/A pair is rescaled by the S table's row count.
  - Every regular file whose path contains `proc_tmp_` is deleted.

The directory is a `map<string, Entry>`. An entry is a folder or a file holding
`Empty`, `Unparseable`, `Csv(Table)` or `Npz(..)`. A table is its shape:
- a row count;
- its columns, each with its header and the list of
rescalings applied to it (`DivSqrt(n)`, `MulSqrt(n)`).

So "divided by sqrt(n)" is
recorded exactly instead of being computed in floating point. A write (`to_csv`, `save_npz`) onto a name that is a folder
raises `IsADirectory`, as `open` does in the source. `os.listdir` is
a sequence passed in with the directory, and `IsListing` says when it lists that directory.

A script that raises is an `Outcome(dir, Some(error))`: `dir` holds what it had done before the
exception. Python's string functions have their own modules in the model (`Strings`, `Lists`):
- `split`, `rsplit`, `in` and `endswith`;
- `int()` of a field, `\d+` and `str` ordering;
- the clipped slice `s[a:b]`;
- the stable `sorted` with a key.

Every loop of the source is a `method` whose `ensures` ties its
result to a recursive function. The properties are lemmas about those functions.

Modules, one per file:
- `Wrappers`: `Option`, `Result`.
- `Strings`, `Lists`, `Arith`: Python semantics and arithmetic helpers.
- `FileSystem`: directory, tables, `read_csv`/`to_csv`/`remove`/`rename`, id sort, `proc_` names.
- `Frames`: loading a group of CSV files and `pd.concat(axis=1)`.
- `ComputeDistance`, `MergeCsv`, `AdjustCsv`, `MergeCheckpoint`: the four scripts.

## Model

| member | source | states |
|---|---|---|
| ComputeDistance.Tasks | optICA_updated/compute_distance.py:82 | the upper-triangular block grid `(i, j)`, `i <= j < n`; its count, members and order are in `TaskList` |
| ComputeDistance.Assigned | optICA_updated/compute_distance.py:86-90 | worker `w`'s round-robin share of the tasks; its size, members and order are in `AssignedCount`, `AssignedMembers`, `AssignedAt` |
| ComputeDistance.Row | optICA_updated/compute_distance.py:82 | the inner comprehension yields `(i, j0)`, `(i, j0+1)` .. `(i, n-1)`, `n - j0` tasks |
| ComputeDistance.TasksFrom | optICA_updated/compute_distance.py:82 | every task has `i0 <= i <= j < n` and the list is in strictly increasing row-major order |
| ComputeDistance.TasksFromLength | optICA_updated/compute_distance.py:82 | twice the number of tasks from row `i0` is `(n-i0)(n-i0+1)` |
| ComputeDistance.TasksFromMembers | optICA_updated/compute_distance.py:82 | a task is in the list iff `i0 <= i <= j < n` |
| ComputeDistance.TaskList | optICA_updated/compute_distance.py:82 | the grid has `n(n+1)/2` tasks, holds exactly the pairs `i <= j < n`, is row-major ordered and has no duplicates |
| ComputeDistance.AssignedCount | optICA_updated/compute_distance.py:86-90 | worker `w` receives `|ts| div n` tasks, plus one when `w < |ts| mod n` |
| ComputeDistance.AssignedAt | optICA_updated/compute_distance.py:86-90 | the `j`-th task of worker `w` is global task `j*n + w`, so each worker keeps the global order |
| ComputeDistance.AssignedMembers | optICA_updated/compute_distance.py:86-90 | a task belongs to worker `w` iff it sits at a position `k` with `k mod n == w` |
| ComputeDistance.Balanced | optICA_updated/compute_distance.py:86-90 | any two workers' loads differ by at most one task |
| ComputeDistance.LoadStep | optICA_updated/compute_distance.py:88-90 | appending one task adds one to the load of workers `0..m-1` exactly when it goes to one of them |
| ComputeDistance.LoadsAddUp | optICA_updated/compute_distance.py:86-90 | the loads of all workers add up to the number of tasks: none lost, none duplicated |
| ComputeDistance.LoadOfNone | optICA_updated/compute_distance.py:86 | with no tasks every load is zero |
| ComputeDistance.OwnedOnce | optICA_updated/compute_distance.py:86-90 | grid task `k` is held by worker `k mod n` and by no other worker |
| ComputeDistance.Workers | optICA_updated/compute_distance.py:86 | the dictionary keys are exactly `0..n-1` |
| ComputeDistance.AssignedExtend | optICA_updated/compute_distance.py:88-90 | one more loop turn appends task `k` to worker `k mod n` only |
| ComputeDistance.AssignStep | optICA_updated/compute_distance.py:88-90 | one append to `worker_tasks[w_idx]` keeps every worker's list equal to its round-robin share of the tasks seen so far |
| ComputeDistance.AssignTasks | optICA_updated/compute_distance.py:86-90 | the loop builds a dictionary with keys `0..n-1`, and worker `w`'s list is its round-robin share of the task grid |
| ComputeDistance.SFileSeparator | optICA_updated/compute_distance.py:103 | a selected S table name contains `_` |
| ComputeDistance.SelectSFiles | optICA_updated/compute_distance.py:103-106 | it succeeds iff every selected name has an integer second field; the result then holds the selected names (same multiset) in ascending id order; otherwise the error names a selected name without an integer id |
| ComputeDistance.Product | optICA_updated/compute_distance.py:109 | `itertools.product` has `|xs|*|ys|` pairs |
| ComputeDistance.ProductAt | optICA_updated/compute_distance.py:109 | pair number `i*|ys| + j` is `(xs[i], ys[j])` |
| ComputeDistance.ProductMembers | optICA_updated/compute_distance.py:109 | a pair is in the product iff its parts are members, `(f, f)` included |
| ComputeDistance.DistFileFields | optICA_updated/compute_distance.py:121 | `dist_<a>_<b>.npz` splits on `_` back into `dist`, `a`, `b.npz` |
| ComputeDistance.DistFileNameInjective | optICA_updated/compute_distance.py:121 | two id pairs give the same distance file name iff they are equal |
| ComputeDistance.DistFileNotSFile | optICA_updated/compute_distance.py:103-121 | a saved distance file is never selected as an S table |
| ComputeDistance.PairDistance | optICA_updated/compute_distance.py:113-117 | reads both S tables and pairs them, failing on an unreadable table or unequal row counts; `ReadsUnaffected` and `SameTables` say what it depends on |
| ComputeDistance.PairError | optICA_updated/compute_distance.py:113-125 | a pair meets no error iff its distance can be computed and its file name is not a folder; otherwise the distance error, or `IsADirectory` for the file |
| ComputeDistance.DistancePass | optICA_updated/compute_distance.py:112-125 | the pair loop, saving each distance in turn and stopping at the first error; `DistancePassSucceeds`, `DistancePassFails`, `DistancePassFiles` and `DistancePassFrame` state what it does |
| ComputeDistance.WriteDistances | optICA_updated/compute_distance.py:112-125 | the pair loop computes the same pass as the recursive definition: saving each pair's distance in turn, stopping at the first error |
| ComputeDistance.DistancePassFrame | optICA_updated/compute_distance.py:112-125 | the pass only writes distance files: every other entry is unchanged and every new name is a pair's file |
| ComputeDistance.DistancePassKeepsName | optICA_updated/compute_distance.py:112-125 | an entry whose name is no pair's distance file is present and unchanged after the pass, whether or not the pass fails |
| ComputeDistance.SPairsNameable | optICA_updated/compute_distance.py:121 | both names of a pair of S tables have an id field |
| ComputeDistance.ReadsUnaffected | optICA_updated/compute_distance.py:113-125 | saving a distance file does not change what any later pair reads |
| ComputeDistance.TailReads | optICA_updated/compute_distance.py:112-125 | after the first pair is saved, the rest of the pairs read what they would have read before |
| ComputeDistance.TailErrors | optICA_updated/compute_distance.py:112-125 | after the first pair is saved, every later pair meets the error, or none, it would have met before |
| ComputeDistance.DistancePassSucceeds | optICA_updated/compute_distance.py:112-125 | the pass succeeds iff every pair's distance can be computed (both tables readable, equal row counts) and no pair's `dist_<a>_<b>.npz` is a folder |
| ComputeDistance.DistancePassNoError | optICA_updated/compute_distance.py:112-125 | the pass succeeds iff no pair meets an error (`PairError` is `None` for every pair) |
| ComputeDistance.NoErrorAt | optICA_updated/compute_distance.py:112-125 | in a successful pass, no pair meets an error |
| ComputeDistance.NoErrorIf | optICA_updated/compute_distance.py:112-125 | when no pair meets an error, the pass succeeds |
| ComputeDistance.ErrorUnaffected | optICA_updated/compute_distance.py:113-125 | saving one pair's distance over a writable name does not change what stops another pair of S tables |
| ComputeDistance.PassStep | optICA_updated/compute_distance.py:112-125 | when the first pair meets no error, the pass saves its distance and goes on with the remaining pairs from the updated directory |
| ComputeDistance.DistancePassFails | optICA_updated/compute_distance.py:112-125 | a failed pass stops with the error of the first pair whose distance cannot be computed or whose file is a folder (`IsADirectory`) |
| ComputeDistance.DistancePassFiles | optICA_updated/compute_distance.py:112-125 | after a successful pass with distinct file names, each pair's file holds that pair's distance, computed from the tables before the pass |
| ComputeDistance.DistancePassFileAt | optICA_updated/compute_distance.py:112-125 | after a successful pass with distinct file names, pair `k`'s file holds pair `k`'s distance, computed from the tables before the pass |
| ComputeDistance.FileAtHead | optICA_updated/compute_distance.py:117-125 | the first pair's file, under a name no later pair uses, still holds its distance at the end of the pass |
| ComputeDistance.SelectedPairs | optICA_updated/compute_distance.py:103-109 | the product of selected tables is a list of S-table pairs, all nameable |
| ComputeDistance.ProductIndex | optICA_updated/compute_distance.py:109 | pair `k` of `xs × xs` is `(xs[k div m], xs[k mod m])` |
| ComputeDistance.ProductNamesDistinct | optICA_updated/compute_distance.py:109-121 | with distinct run ids, the `m*m` pairs have `m*m` distinct file names |
| ComputeDistance.ProductNamesDiffer | optICA_updated/compute_distance.py:109-121 | two different positions of the product give different file names |
| ComputeDistance.DistanceStageFiles | optICA_updated/compute_distance.py:100-125 | after a successful stage over tables with distinct ids, every ordered pair `(a, b)` of selected tables, `(a, a)` included, has its distance in `dist_<id a>_<id b>.npz` |
| ComputeDistance.DistanceStage | optICA_updated/compute_distance.py:100-125 | select and order the S tables, then save the distance of every ordered pair; `DistanceStageFiles` and `DistanceStageRepeats` state what it does |
| ComputeDistance.DistancePassStable | optICA_updated/compute_distance.py:112-125 | a pass over a directory that already holds every pair's distance, computed from that directory, succeeds and changes nothing |
| ComputeDistance.StageKeepsSFiles | optICA_updated/compute_distance.py:100-125 | the stage never writes over, creates or removes an S table name |
| ComputeDistance.DistanceStageRepeats | optICA_updated/compute_distance.py:100-125 | running the stage again on its own successful output, with a listing of the same S tables, succeeds and leaves the directory unchanged; so the ranks after the first, each running the whole loop, change nothing |
| ComputeDistance.StoredAgain | optICA_updated/compute_distance.py:113-125 | after a successful stage, the distance of two selected tables read from its output is the one it saved |
| ComputeDistance.SameTables | optICA_updated/compute_distance.py:113-117 | two directories with the same entries under both names give a pair the same distance |
| ComputeDistance.RelistedSFiles | optICA_updated/compute_distance.py:103 | a listing of the stage's output names the same S tables as a listing of its input |
| ComputeDistance.Threshold | optICA_updated/compute_distance.py:118 | one entry: below 0.5 becomes 0; `Sparsify` states the combined effect with `Clip` |
| ComputeDistance.Clip | optICA_updated/compute_distance.py:124 | `np.clip` on one entry; `Sparsify` states the combined effect with `Threshold` |
| ComputeDistance.Sparsify | optICA_updated/compute_distance.py:117-124 | a saved entry is 0 or lies in [0.5, 1]; inputs below 0.5 become 0, inputs in [0.5, 1] are kept, larger ones become 1 |
| ComputeDistance.SparsifyIdempotent | optICA_updated/compute_distance.py:118-124 | thresholding and clipping an already saved entry again changes nothing: `Sparsify(Sparsify(x)) == Sparsify(x)` |
| ComputeDistance.ThresholdInPlace | optICA_updated/compute_distance.py:118 | every entry of the matrix below 0.5 is overwritten with 0 in place; the others are kept |
| ComputeDistance.SavedEntries | optICA_updated/compute_distance.py:117-125 | the matrix is thresholded in place and the saved copy has its shape, each entry being the sparsified original |
| Lists.FirstFailingIsFirst | optICA_updated/compute_distance.py:106 | the name the key scan stops at is the first one that fails; every name before it has a key |
| FileSystem.SortById | optICA_updated/compute_distance.py:106 | `sort(key=int(x.split('_')[1]))` succeeds iff every key parses; then the result is a permutation of the names in ascending key order; otherwise the error names the first name in list order whose key does not parse |
| FileSystem.IdField | optICA_updated/compute_distance.py:106 | the second `_`-field holds no `_` |
| FileSystem.ReadCsv | optICA_updated/compute_distance.py:113 | a successful read returns the table stored under the name, with at least one column; a missing name, a folder, an empty or an unparseable file raise |
| FileSystem.Save | optICA_updated_scripts/merge_csv_MPI.py:65 | `to_csv`/`save_npz` on a name: it succeeds iff the name is missing or a regular file, and then creates or overwrites exactly that name; onto a folder it raises `IsADirectory` |
| FileSystem.WriteCsv | optICA_updated_scripts/merge_csv_MPI.py:18-21 | writing a table back over the regular file it was just read from is a successful `Save`: exactly that name changes, to the new table |
| FileSystem.ScaleData | optICA_updated_scripts/merge_csv_MPI.py:18-21 | with the first column as index, every data column gets the factor; rows, column count and index column are kept |
| FileSystem.RescaleFile | optICA_updated_scripts/adjust_csv_MPI.py:36-39 | read, rescale and write back succeeds iff the read does, and then writes the rescaled table under the same name |
| FileSystem.Remove | optICA_updated_scripts/merge_csv_MPI.py:73 | `os.remove` succeeds iff the name is a regular file and deletes only it; otherwise it raises FileNotFound or IsADirectory |
| FileSystem.Rename | optICA_updated_scripts/adjust_csv_MPI.py:56 | `os.rename` succeeds iff the source exists and the move is not onto or from a folder over an existing name; the target then holds the source's entry, the source is gone, others are unchanged |
| FileSystem.JoinContains | optICA_updated_scripts/adjust_csv_MPI.py:35 | a pattern without `/` occurs in `tmp_dir/name` iff it occurs in one of the two parts |
| FileSystem.ProcFileFields | optICA_updated_scripts/merge_csv_MPI.py:64 | `proc_<n>_<type>.csv` splits on `_` into `proc`, `n`, `<type>.csv` |
| FileSystem.ProcFileId | optICA_updated_scripts/adjust_csv_MPI.py:50-55 | the second field of `proc_<n>_<type>.csv` parses back to `n` |
| FileSystem.ProcFileSuffix | optICA_updated_scripts/adjust_csv_MPI.py:50-55 | `proc_<n>_<type>.csv` ends in `_<type>.csv` |
| FileSystem.ProcFileInjective | optICA_updated_scripts/merge_csv_MPI.py:64 | two merged names are equal iff their numbers and types are |
| Frames.LoadFrom | optICA_updated_scripts/merge_csv_MPI.py:55-60 | loads files `i..` in turn, dropping the first column after the first file; `LoadFromFrames`, `LoadFromError` and `LoadFromUnaffected` state what it does |
| Frames.MergedTable | optICA_updated_scripts/merge_csv_MPI.py:55-61 | loading a group and concatenating it column-wise; its shape and error cases are in `MergedTableShape` |
| Frames.Prepend | optICA_updated_scripts/merge_csv_MPI.py:55-60 | the frames already collected, placed in front of the rest of the load; an error of the rest passes through unchanged |
| Frames.PrependStep | optICA_updated_scripts/merge_csv_MPI.py:55-60 | appending the frame of file `i` to the collected frames and loading from `i+1` gives the same result as loading from `i` |
| Frames.LoadFrames | optICA_updated_scripts/merge_csv_MPI.py:55-60 | the loading loop (first column dropped from all files but the first) computes the recursive load |
| Frames.ReadTables | optICA_updated_scripts/merge_csv_MPI.py:57 | one table per file, each with at least one column |
| Frames.LoadFromFrames | optICA_updated_scripts/merge_csv_MPI.py:55-60 | loading succeeds iff every file reads; frame `k` is file `k`'s table, its first column dropped unless it is the first file |
| Frames.MaxRows | optICA_updated_scripts/merge_csv_MPI.py:61 | the row count of the concatenation is at least each frame's and equal to some frame's |
| Frames.Concat | optICA_updated_scripts/merge_csv_MPI.py:61 | `pd.concat` raises iff there are no frames |
| Frames.AllColumnsPrefix | optICA_updated_scripts/merge_csv_MPI.py:61 | the first frame's columns come first in the concatenation |
| Frames.AllColumnsCount | optICA_updated_scripts/merge_csv_MPI.py:61 | the concatenation has as many columns as all frames together |
| Frames.FramesColumnCount | optICA_updated_scripts/merge_csv_MPI.py:58-60 | dropping one column from every frame but the first removes `n - 1` columns in all |
| Frames.MergedTableShape | optICA_updated_scripts/merge_csv_MPI.py:55-61 | merging succeeds iff there is a file and every file reads; the result has all the files' columns minus one per later file, starts with the first file's columns, and has the largest row count |
| Frames.FramesShape | optICA_updated_scripts/merge_csv_MPI.py:57-61 | frames placed side by side keep the first table's columns in front, lose one index column per later table, and are as long as the longest table |
| Frames.LoadFromError | optICA_updated_scripts/merge_csv_MPI.py:57 | a failed load carries the read error of one of the files |
| Frames.LoadFromUnaffected | optICA_updated_scripts/merge_csv_MPI.py:61-65 | writing a name outside the group does not change what the group loads |
| MergeCsv.PatternIsLoose | optICA_updated_scripts/merge_csv_MPI.py:37 | the unanchored-end regex also selects `proc_tmp_7_S.csv.bak` and `proc_tmp_7_SXcsv` |
| MergeCsv.PatternRejects | optICA_updated_scripts/merge_csv_MPI.py:37 | a name without a run number, or not starting with `proc_tmp_`, is not selected |
| MergeCsv.RunNumberOfMatch | optICA_updated_scripts/merge_csv_MPI.py:37-38 | for a selected name, `re.search(r'(\d+)')` finds exactly the digits right after `proc_tmp_` |
| MergeCsv.SelectTmpFiles | optICA_updated_scripts/merge_csv_MPI.py:37-38 | the result holds exactly the matching names (same multiset), ordered by run number |
| MergeCsv.MergePlan | optICA_updated_scripts/merge_csv_MPI.py:40-49 | it aborts iff there are fewer files than ranks (and divides by zero for no ranks); otherwise `total div size` files per rank, `size` times that merged, fewer than `size` left over |
| MergeCsv.RankFilesExact | optICA_updated_scripts/merge_csv_MPI.py:51-54 | each rank's slice is exactly `files[r*p .. r*p+p)`, never clipped |
| MergeCsv.MergedPositionOwner | optICA_updated_scripts/merge_csv_MPI.py:48-54 | merged position `k` lies in rank `k div p`'s slice and no other's, at offset `k mod p` |
| MergeCsv.RowBelow | optICA_updated_scripts/merge_csv_MPI.py:48-54 | a merged position's rank is below `size` |
| MergeCsv.JoinedSlicesArePrefix | optICA_updated_scripts/merge_csv_MPI.py:48-54 | the slices in rank order make up exactly the merged prefix of the files |
| MergeCsv.NoEmptyConcat | optICA_updated_scripts/merge_csv_MPI.py:54-63 | once the plan holds, no rank's slice is empty, so the concatenation never sees an empty list |
| MergeCsv.OutputNotTmp | optICA_updated_scripts/merge_csv_MPI.py:64 | a merged output never matches the input pattern |
| MergeCsv.RankFilesMembers | optICA_updated_scripts/merge_csv_MPI.py:54 | every name in a slice is a selected file |
| MergeCsv.MergeRank | optICA_updated_scripts/merge_csv_MPI.py:54-65 | one rank merges its slice and saves it as `proc_<rank>_<type>.csv`; `MergeRanksResult` states the result for all ranks |
| MergeCsv.MergeRanks | optICA_updated_scripts/merge_csv_MPI.py:51-65 | the ranks merge their slices in turn, stopping at the first error; `MergeRanksResult`, `MergeRanksOkAt`, `MergeRanksOkIf` state what it does |
| MergeCsv.MergeRanksResult | optICA_updated_scripts/merge_csv_MPI.py:54-65 | the rank merges succeed iff each slice merges and no output name is a folder; each output then holds its slice's merge of the original files, and only outputs are written |
| MergeCsv.MergeRanksOkAt | optICA_updated_scripts/merge_csv_MPI.py:54-65 | in a successful run, every rank's slice merges from the files as they were before the run, and its output name was not a folder |
| MergeCsv.MergeRanksOkIf | optICA_updated_scripts/merge_csv_MPI.py:54-65 | when every slice merges from the original files and no output name is a folder, the run of the ranks succeeds |
| MergeCsv.RemoveAll | optICA_updated_scripts/merge_csv_MPI.py:71-73 | the merged inputs are removed one by one; `RemoveAllResult` and `RemoveAllError` state what it does |
| MergeCsv.RemoveMerged | optICA_updated_scripts/merge_csv_MPI.py:71-73 | rank 0's loop removes `files[0 .. merged)` one by one, stopping at the first failure |
| MergeCsv.RemoveAllResult | optICA_updated_scripts/merge_csv_MPI.py:72-73 | removing distinct names succeeds iff each is a regular file, and then deletes exactly those |
| MergeCsv.MergedInputsAreFiles | optICA_updated_scripts/merge_csv_MPI.py:54-73 | after the ranks merged, every merged input is a regular file |
| MergeCsv.Owner | optICA_updated_scripts/merge_csv_MPI.py:48-54 | every merged position lies in some rank's slice |
| MergeCsv.ReadInSlice | optICA_updated_scripts/merge_csv_MPI.py:56-57 | a file of a slice that merged is a regular file |
| MergeCsv.MergeAborts | optICA_updated_scripts/merge_csv_MPI.py:40-46 | the run aborts iff fewer files match than there are ranks |
| MergeCsv.MergeRanksError | optICA_updated_scripts/merge_csv_MPI.py:54-65 | a failing rank reports a read or concatenation error, never an abort |
| MergeCsv.RemoveAllError | optICA_updated_scripts/merge_csv_MPI.py:73 | removing fails only on a missing name or a folder |
| MergeCsv.MergeAndCleanup | optICA_updated_scripts/merge_csv_MPI.py:31-73 | select, order, split, merge per rank and delete; `MergeAndCleanupResult` and `MergeAborts` state what it does |
| MergeCsv.MergeAndCleanupResult | optICA_updated_scripts/merge_csv_MPI.py:36-73 | the stage fails iff some rank's merge fails or its output name is a folder; on success each output holds its slice's merge, the merged inputs are gone, the `total mod size` last files are untouched, and nothing else changes |
| MergeCsv.FilesNotOutputs | optICA_updated_scripts/merge_csv_MPI.py:64 | no selected input has an output's name |
| MergeCsv.RemovedPrefix | optICA_updated_scripts/merge_csv_MPI.py:72-73 | deleting a prefix of distinct regular files leaves the rest in place |
| MergeCsv.AdjustMatricesResult | optICA_updated_scripts/merge_csv_MPI.py:10-29 | an existing S table is divided by sqrt(its rows); an existing A table is multiplied by sqrt(the S table's rows); an A table without an S table raises the unbound `num_rows` error; only the two tables change |
| MergeCsv.AdjustA | optICA_updated_scripts/merge_csv_MPI.py:24-29 | the A table's half of the rescaling; `AdjustMatricesResult` states it |
| MergeCsv.AdjustMatrices | optICA_updated_scripts/merge_csv_MPI.py:10-29 | one rank's rescaling of its S and A tables; `AdjustMatricesResult` states it |
| MergeCsv.AdjustRanks | optICA_updated_scripts/merge_csv_MPI.py:96-98 | every rank rescales its own tables, in rank order; `AdjustRanksResult` states what it does |
| MergeCsv.OtherRankTables | optICA_updated_scripts/merge_csv_MPI.py:10-29 | two different ranks have four different table names |
| MergeCsv.AdjustMatricesLocal | optICA_updated_scripts/merge_csv_MPI.py:10-29 | a rank's rescaling depends only on its own two tables and changes them the same way in any directory that holds the same two entries |
| MergeCsv.AdjustRanksKeepsName | optICA_updated_scripts/merge_csv_MPI.py:96-98 | a name that is no rank's S or A table is left as it was |
| MergeCsv.AdjustRanksKeys | optICA_updated_scripts/merge_csv_MPI.py:96-98 | the rescaling neither adds nor removes a name |
| MergeCsv.EarlierRankKeeps | optICA_updated_scripts/merge_csv_MPI.py:96-98 | a rank's rescaling leaves every other rank's tables as they were |
| MergeCsv.AdjustRanksOkAt | optICA_updated_scripts/merge_csv_MPI.py:96-98 | in a successful run every rank's rescaling, applied to the tables as they were before the run, succeeds, and the run leaves that rank's tables as that rescaling does |
| MergeCsv.AdjustRanksOkIf | optICA_updated_scripts/merge_csv_MPI.py:96-98 | when every rank's rescaling succeeds on the tables as they were, the run succeeds |
| MergeCsv.AdjustRanksFails | optICA_updated_scripts/merge_csv_MPI.py:96-98 | a failed run carries the error of the first rank whose rescaling fails |
| MergeCsv.ShiftAdjustFailure | optICA_updated_scripts/merge_csv_MPI.py:96-98 | a first failure among the ranks after a successful rank is a first failure counted from that rank |
| MergeCsv.LaterErrors | optICA_updated_scripts/merge_csv_MPI.py:96-98 | after one rank rescaled its tables, each later rank fails, or not, as before |
| MergeCsv.AdjustRanksResult | optICA_updated_scripts/merge_csv_MPI.py:96-98 | the run succeeds iff every rank's rescaling of the original tables succeeds; it then leaves each rank's tables as that rescaling does and every other name as it was, keeps the key set, and a failure carries the first failing rank's error |
| MergeCsv.MergeMain | optICA_updated_scripts/merge_csv_MPI.py:93-98 | merge the S files, then the A files, then rescale; `MergeMainResult` states what it does |
| MergeCsv.MergeMainResult | optICA_updated_scripts/merge_csv_MPI.py:93-98 | the script stops with the error of the first stage that fails (for the rescaling, the first failing rank's); on success each rank's S table is the merge of its slice divided by sqrt(that merge's rows), and its A table the merge of its A slice multiplied by the same factor |
| MergeCsv.MergeMainOutputs | optICA_updated_scripts/merge_csv_MPI.py:93-98 | after a successful script every rank holds its rescaled S and A merges |
| MergeCsv.MergeMainRank | optICA_updated_scripts/merge_csv_MPI.py:93-98 | after a successful script rank `q` holds its rescaled S and A merges |
| MergeCsv.STableNotA | optICA_updated_scripts/merge_csv_MPI.py:37-64 | a rank's S table is neither an A input nor any rank's A output, so the A merge leaves it alone |
| MergeCsv.MergedS | optICA_updated_scripts/merge_csv_MPI.py:54-65 | after a successful S merge, rank `q`'s output holds its slice's merge |
| MergeCsv.MergedA | optICA_updated_scripts/merge_csv_MPI.py:54-73 | after a successful A merge, rank `q`'s output holds its slice's merge, and a name that is neither an A input nor an A output is unchanged |
| MergeCsv.RescaledAt | optICA_updated_scripts/merge_csv_MPI.py:10-29 | rescaling after both merges turns rank `q`'s merged S and A tables into their rescaled forms |
| AdjustCsv.ContainsSnoc | optICA_updated_scripts/adjust_csv_MPI.py:24 | an occurrence in `s + [c]` not ending in `c` lies inside `s` |
| AdjustCsv.AFileContainsS | optICA_updated_scripts/adjust_csv_MPI.py:24 | `X_A.csv` contains `_S.csv` only where `X` does |
| AdjustCsv.Counterpart | optICA_updated_scripts/adjust_csv_MPI.py:23-25 | the partner name of an S or A table; `CounterpartOfS`, `CounterpartOfA` and `CounterpartInvolution` state it |
| AdjustCsv.CounterpartOfS | optICA_updated_scripts/adjust_csv_MPI.py:23-25 | the counterpart of `X_S.csv` is `X_A.csv` |
| AdjustCsv.CounterpartOfA | optICA_updated_scripts/adjust_csv_MPI.py:23-25 | the counterpart of `X_A.csv` is `X_S.csv`, unless `X` itself contains `_S.csv` |
| AdjustCsv.CounterpartInvolution | optICA_updated_scripts/adjust_csv_MPI.py:23-25 | on well-formed run names, taking the counterpart twice gives the name back |
| AdjustCsv.PruneStep | optICA_updated_scripts/adjust_csv_MPI.py:17-28 | one iteration only deletes; a non-CSV or non-empty name changes nothing; a `.csv` name that is gone raises FileNotFound; an empty file is deleted with its counterpart |
| AdjustCsv.Prune | optICA_updated_scripts/adjust_csv_MPI.py:15-28 | the pruning loop over the listing; `PruneOnlyDeletes`, `PruneDeletesOnlyEmpty`, `PruneDeletesAllEmpty` and `PruneErrors` state what it does |
| AdjustCsv.PruneSmallFiles | optICA_updated_scripts/adjust_csv_MPI.py:15-28 | the loop computes the pruning pass over the listing |
| AdjustCsv.PruneOnlyDeletes | optICA_updated_scripts/adjust_csv_MPI.py:16-28 | what is left after pruning is unchanged and nothing new appears |
| AdjustCsv.PruneDeletesOnlyEmpty | optICA_updated_scripts/adjust_csv_MPI.py:16-28 | every deleted name is a listed empty CSV or its counterpart |
| AdjustCsv.PruneFindsListed | optICA_updated_scripts/adjust_csv_MPI.py:16-19 | a completed pass found each listed CSV still present at its turn |
| AdjustCsv.PruneDeletesAllEmpty | optICA_updated_scripts/adjust_csv_MPI.py:16-28 | a completed pass leaves no listed empty CSV and none of their counterparts |
| AdjustCsv.PruneErrors | optICA_updated_scripts/adjust_csv_MPI.py:16-28 | the pass fails only by `getsize` on a listed CSV that is gone (deleted earlier in the pass, for a true listing) or by a counterpart that is a folder |
| AdjustCsv.PruneDependsOnOrder | optICA_updated_scripts/adjust_csv_MPI.py:16-28 | an empty `_S` listed before its non-empty `_A` deletes both and then raises on the A table's size; the other order deletes both and succeeds |
| AdjustCsv.RankBoundsClosedForm | optICA_updated_scripts/adjust_csv_MPI.py:94-99 | both branches are one formula: rank `rank` starts at `rank*q + min(rank, r)` and takes `q` names, plus one when `rank < r` |
| AdjustCsv.RankSlicesTile | optICA_updated_scripts/adjust_csv_MPI.py:94-99 | rank 0 starts at 0, each slice ends where the next starts, the last ends at `n`, and a slice has `q+1` names below rank `r` and `q` from there |
| AdjustCsv.RankSlicesOrdered | optICA_updated_scripts/adjust_csv_MPI.py:94-99 | a later rank's slice starts after an earlier rank's ends |
| AdjustCsv.OwnerFrom | optICA_updated_scripts/adjust_csv_MPI.py:94-99 | a position at or after rank `i`'s start lies in the slice of a rank at or after `i` |
| AdjustCsv.RankOwner | optICA_updated_scripts/adjust_csv_MPI.py:94-99 | every position below `n` lies in exactly one rank's slice |
| AdjustCsv.KindOfJoin | optICA_updated_scripts/adjust_csv_MPI.py:35-40 | when the directory path holds neither pattern, the test on the path is the test on the name |
| AdjustCsv.Rescaled | optICA_updated_scripts/adjust_csv_MPI.py:35-44 | an S table's data columns are divided, and an A table's multiplied, by sqrt(its own row count); rows, headers and the index column are kept |
| AdjustCsv.AdjustMatrix | optICA_updated_scripts/adjust_csv_MPI.py:35-44 | a path with neither pattern is skipped; otherwise it succeeds iff the table reads and writes back the rescaled table |
| AdjustCsv.AdjustAll | optICA_updated_scripts/adjust_csv_MPI.py:102-103 | rescale each named table in turn; `AdjustAllResult` states what it does |
| AdjustCsv.AdjustRanksFrom | optICA_updated_scripts/adjust_csv_MPI.py:90-103 | every rank from the given one adjusts its slice; `RanksAdjustEachOnce` and `AdjustMainIsSequential` state what it does |
| AdjustCsv.AdjustMyFiles | optICA_updated_scripts/adjust_csv_MPI.py:102-103 | the loop computes the adjusting pass over the rank's names |
| AdjustCsv.AdjustAllAppend | optICA_updated_scripts/adjust_csv_MPI.py:102-103 | adjusting `xs + ys` is adjusting `xs` and then, if that succeeded, `ys` |
| AdjustCsv.AdjustRanksFromSuffix | optICA_updated_scripts/adjust_csv_MPI.py:94-103 | the ranks from `rank` on adjust the names from that rank's start on |
| AdjustCsv.RanksAdjustEachOnce | optICA_updated_scripts/adjust_csv_MPI.py:94-103 | all ranks in turn make one pass over all names in listing order |
| AdjustCsv.AdjustAllResult | optICA_updated_scripts/adjust_csv_MPI.py:102-103 | over distinct names the pass succeeds iff every name is adjustable; then each is rescaled once from its original contents and nothing else changes; a failure is one name's read error |
| AdjustCsv.Group | optICA_updated_scripts/adjust_csv_MPI.py:50-51 | the group holds exactly the listed names ending in `_<type>.csv`, each once when the listing is distinct |
| AdjustCsv.RenameGroup | optICA_updated_scripts/adjust_csv_MPI.py:54-61 | the renaming loop computes the recursive renaming, stopping at the first failure |
| AdjustCsv.RenameFilesSequentially | optICA_updated_scripts/adjust_csv_MPI.py:46-61 | the method sorts both groups before any rename, then runs the A loop, then the S loop |
| AdjustCsv.RenameFrom | optICA_updated_scripts/adjust_csv_MPI.py:54-61 | rename the tables of one type to `proc_<i>_<type>.csv` in order; `RenameFromResult` states what it does |
| AdjustCsv.RenumberOverwrites | optICA_updated_scripts/adjust_csv_MPI.py:50-56 | with ids -1 and 0, `p_-1_A.csv` sorts first, is renamed onto the existing `proc_0_A.csv` and then on to `proc_1_A.csv`: the table first stored as `proc_0_A.csv` is lost without an error |
| AdjustCsv.SortTwo | optICA_updated_scripts/adjust_csv_MPI.py:50 | two names with integer ids, the smaller listed second, come out of the id sort swapped |
| AdjustCsv.RenameOnto | optICA_updated_scripts/adjust_csv_MPI.py:54-56 | renaming onto an existing regular file replaces it, and the next rename carries the moved entry on |
| AdjustCsv.RenameFromResult | optICA_updated_scripts/adjust_csv_MPI.py:54-61 | given distinct regular files, no earlier target naming a later file and no folder target, renaming succeeds; `proc_<j>` holds the `j`-th file's original contents, and others are untouched or gone |
| AdjustCsv.IdsAtLeastPosition | optICA_updated_scripts/adjust_csv_MPI.py:50-51 | distinct non-negative ids in ascending order are each at least their position |
| AdjustCsv.NoTargetClash | optICA_updated_scripts/adjust_csv_MPI.py:50-61 | with distinct non-negative ids, no target `proc_<j>` is a table still waiting to be renamed |
| AdjustCsv.TypeSuffixesExclusive | optICA_updated_scripts/adjust_csv_MPI.py:50-51 | no name ends in both `_A.csv` and `_S.csv` |
| AdjustCsv.RenumberGroup | optICA_updated_scripts/adjust_csv_MPI.py:54-61 | renumbering a sorted group succeeds; the tables of that type are then exactly `proc_0 .. proc_<m-1>`, in id order, and no other name changes |
| AdjustCsv.RenumberableElsewhere | optICA_updated_scripts/adjust_csv_MPI.py:58-61 | a group stays renumberable in a directory that agrees on its type |
| AdjustCsv.SortedGroup | optICA_updated_scripts/adjust_csv_MPI.py:50-51 | the sorted group of a well-numbered type can be renumbered |
| AdjustCsv.RenumberBoth | optICA_updated_scripts/adjust_csv_MPI.py:53-61 | the A loop then the S loop renumber both groups and keep every other name |
| AdjustCsv.ChainPasses | optICA_updated_scripts/adjust_csv_MPI.py:53-61 | renumbering A and then S composes: both sets of targets hold the original tables, only targets of each type remain, and other names are unchanged |
| AdjustCsv.RenameSequentially | optICA_updated_scripts/adjust_csv_MPI.py:46-61 | renumber the A tables, then the S tables, by id; `RenameSequentiallyResult` and `ChainPasses` state what it does |
| AdjustCsv.RenameSequentiallyResult | optICA_updated_scripts/adjust_csv_MPI.py:46-61 | on well-numbered A and S tables both loops succeed; table `j` of each type in id order becomes `proc_<j>_<type>.csv`, and every other name is unchanged |
| AdjustCsv.AdjustMain | optICA_updated_scripts/adjust_csv_MPI.py:78-110 | prune, adjust on every rank, renumber; `AdjustMainIsSequential` and `AdjustMainResult` state what it does |
| AdjustCsv.AdjustMainIsSequential | optICA_updated_scripts/adjust_csv_MPI.py:78-110 | for any number of ranks, the script is the pruning pass, one adjusting pass over the listed tables and the renumbering |
| AdjustCsv.TypedIsMatrix | optICA_updated_scripts/adjust_csv_MPI.py:90 | a name ending in `_A.csv` or `_S.csv`, which renumbering picks up, is one the rescaling pass selected |
| AdjustCsv.AdjustedWellNumbered | optICA_updated_scripts/adjust_csv_MPI.py:90-103 | rescaling keeps every name and leaves regular files regular, so well-numbered A and S tables stay well numbered |
| AdjustCsv.AdjustedMember | optICA_updated_scripts/adjust_csv_MPI.py:90-103 | every A or S table of the pruned directory holds, after the rescaling pass, its own contents rescaled once |
| AdjustCsv.AdjustMainPruned | optICA_updated_scripts/adjust_csv_MPI.py:10-28 | in a successful run, pruning succeeds, keeps what it does not delete unchanged, deletes every listed empty `.csv` file with its counterpart, and deletes nothing else |
| AdjustCsv.AdjustPass | optICA_updated_scripts/adjust_csv_MPI.py:90-103 | a successful rescaling pass could read every selected table, keeps every name, rescales each selected name once from its pruned contents and leaves the rest as they were |
| AdjustCsv.RenumberAdjusted | optICA_updated_scripts/adjust_csv_MPI.py:46-61 | renumbering the rescaled directory succeeds and `proc_<j>_<type>.csv` holds the `j`-th table of that type by id, rescaled |
| AdjustCsv.RenumberAdjustedFrame | optICA_updated_scripts/adjust_csv_MPI.py:46-61 | after renumbering the only A and S tables are the renumbered ones; every other name holds its rescaled or its old contents |
| AdjustCsv.SameKeysListing | optICA_updated_scripts/adjust_csv_MPI.py:50-51 | a listing of the names of one directory lists every directory with the same names |
| AdjustCsv.RenamedType | optICA_updated_scripts/adjust_csv_MPI.py:54-61 | the renumbered tables of one type hold the rescaled contents of the tables they were renamed from |
| AdjustCsv.AdjustMainResult | optICA_updated_scripts/adjust_csv_MPI.py:78-117 | end to end, a successful run whose pruned A and S tables are well numbered could read every selected table; `proc_<j>_<type>.csv` then holds the `j`-th table of that type by id, rescaled once by its own row count; no other A or S table is left, and every other name holds its rescaled or its old contents |
| MergeCheckpoint.SelectFiles | optICA_updated_scripts/.ipynb_checkpoints/Merge_components_files-checkpoint.py:30 | the names containing `proc_tmp_` and ending in `_<type>.csv` (same multiset), in `str` order |
| MergeCheckpoint.SortIsTextual | optICA_updated_scripts/.ipynb_checkpoints/Merge_components_files-checkpoint.py:30 | `proc_tmp_10_S.csv` sorts before `proc_tmp_2_S.csv` and not after it |
| MergeCheckpoint.TmpFileName | optICA_updated_scripts/.ipynb_checkpoints/Merge_components_files-checkpoint.py:30 | `proc_tmp_<rest>` with rest ending in `_<type>.csv` is selected |
| MergeCheckpoint.SelectTwo | optICA_updated_scripts/.ipynb_checkpoints/Merge_components_files-checkpoint.py:30 | two selected names come out in text order, whichever order they were listed in |
| MergeCheckpoint.SelectedTextually | optICA_updated_scripts/.ipynb_checkpoints/Merge_components_files-checkpoint.py:30 | listing runs 2 and 10, in either order, selects run 10's table first |
| MergeCheckpoint.FilesPerCore | optICA_updated_scripts/.ipynb_checkpoints/Merge_components_files-checkpoint.py:33 | it raises iff there are no cores; otherwise the least `k` with `k*cores >= n` |
| MergeCheckpoint.CoreFilesEmpty | optICA_updated_scripts/.ipynb_checkpoints/Merge_components_files-checkpoint.py:36-38 | a core's group is empty iff it starts at or past the end of the list |
| MergeCheckpoint.JoinedGroupsPrefix | optICA_updated_scripts/.ipynb_checkpoints/Merge_components_files-checkpoint.py:35-38 | the first `c` groups in order are `files[..min(c*k, n)]` |
| MergeCheckpoint.GroupsCoverFiles | optICA_updated_scripts/.ipynb_checkpoints/Merge_components_files-checkpoint.py:33-38 | with ceiling-sized groups the groups in core order are exactly the list: none left over, none repeated |
| MergeCheckpoint.GroupOwner | optICA_updated_scripts/.ipynb_checkpoints/Merge_components_files-checkpoint.py:33-38 | each position lies in the group of exactly one core, below the core count |
| MergeCheckpoint.GroupsNonEmpty | optICA_updated_scripts/.ipynb_checkpoints/Merge_components_files-checkpoint.py:33-38 | every group is non-empty iff the last one starts inside the list |
| MergeCheckpoint.EmptyGroupRaises | optICA_updated_scripts/.ipynb_checkpoints/Merge_components_files-checkpoint.py:33-42 | five tables on four cores gives groups of two, an empty group for core 3, and `pd.concat([])` raising |
| MergeCheckpoint.ProcFileNotTmp | optICA_updated_scripts/.ipynb_checkpoints/Merge_components_files-checkpoint.py:45-53 | a merged name `proc_<core>_<type>.csv` never contains `proc_tmp_` |
| MergeCheckpoint.MergeCore | optICA_updated_scripts/.ipynb_checkpoints/Merge_components_files-checkpoint.py:38-46 | one core merges its group and saves it as `proc_<core>_<type>.csv`; `MergeCoresFromResult` states it for all cores |
| MergeCheckpoint.MergeCoresFrom | optICA_updated_scripts/.ipynb_checkpoints/Merge_components_files-checkpoint.py:35-46 | the cores merge their groups in turn; `MergeCoresFromResult`, `MergeCoresOkAt` and `MergeCoresOkIf` state what it does |
| MergeCheckpoint.MergeFiles | optICA_updated_scripts/.ipynb_checkpoints/Merge_components_files-checkpoint.py:22-46 | select, sort, group and merge; `MergeFilesSucceeds`, `MergeFilesOutputs` and `MergeFilesKeys` state what it does |
| MergeCheckpoint.MergeFilesLoop | optICA_updated_scripts/.ipynb_checkpoints/Merge_components_files-checkpoint.py:22-46 | the core loop computes the recursive merge of every core's group, stopping at the first failure |
| MergeCheckpoint.MergeCoresFromResult | optICA_updated_scripts/.ipynb_checkpoints/Merge_components_files-checkpoint.py:35-46 | the cores succeed iff each group merges from the original files and no output name is a folder; each output then holds its group's table, other names are unchanged, and nothing else is created |
| MergeCheckpoint.MergeCoresOkAt | optICA_updated_scripts/.ipynb_checkpoints/Merge_components_files-checkpoint.py:35-46 | in a successful run, every core's group merges from the files as they were before the run, and its output name was not a folder |
| MergeCheckpoint.MergeCoresOkIf | optICA_updated_scripts/.ipynb_checkpoints/Merge_components_files-checkpoint.py:35-46 | when every group merges from the original files and no output name is a folder, the run of the cores succeeds |
| MergeCheckpoint.GroupsMergeable | optICA_updated_scripts/.ipynb_checkpoints/Merge_components_files-checkpoint.py:33-42 | every group merges iff the last group is non-empty and every file reads |
| MergeCheckpoint.MergeFilesSucceeds | optICA_updated_scripts/.ipynb_checkpoints/Merge_components_files-checkpoint.py:27-46 | merging succeeds iff there is a core, the last group is non-empty, every selected table reads and no core's output name is a folder |
| MergeCheckpoint.MergeFilesOutputs | optICA_updated_scripts/.ipynb_checkpoints/Merge_components_files-checkpoint.py:35-46 | each output holds its group's merged table, with one index column plus every table's data columns; other names are unchanged |
| MergeCheckpoint.MergeFilesKeys | optICA_updated_scripts/.ipynb_checkpoints/Merge_components_files-checkpoint.py:35-46 | a successful merge keeps every name and adds each core's output |
| MergeCheckpoint.AdjustMatrices | optICA_updated_scripts/.ipynb_checkpoints/Merge_components_files-checkpoint.py:7-20 | the core loop computes the recursive rescaling |
| MergeCheckpoint.AdjustCore | optICA_updated_scripts/.ipynb_checkpoints/Merge_components_files-checkpoint.py:9-20 | one core rescales its S/A pair; `AdjustCoreResult` states it |
| MergeCheckpoint.AdjustFrom | optICA_updated_scripts/.ipynb_checkpoints/Merge_components_files-checkpoint.py:7-20 | the cores from the given one rescale in turn; `AdjustFromSucceeds` and `AdjustFromTables` state what it does |
| MergeCheckpoint.AdjustCoreResult | optICA_updated_scripts/.ipynb_checkpoints/Merge_components_files-checkpoint.py:9-20 | one core succeeds iff its S and A tables read; S is then divided and A multiplied by sqrt(S's rows) |
| MergeCheckpoint.LaterCoreTables | optICA_updated_scripts/.ipynb_checkpoints/Merge_components_files-checkpoint.py:8-17 | a later core's tables are neither of this core's |
| MergeCheckpoint.AdjustFromSucceeds | optICA_updated_scripts/.ipynb_checkpoints/Merge_components_files-checkpoint.py:7-20 | rescaling succeeds iff every core's S and A tables read |
| MergeCheckpoint.AdjustFromOkAt | optICA_updated_scripts/.ipynb_checkpoints/Merge_components_files-checkpoint.py:7-20 | in a successful rescaling, every core's S and A tables could be read before the pass |
| MergeCheckpoint.AdjustFromOkIf | optICA_updated_scripts/.ipynb_checkpoints/Merge_components_files-checkpoint.py:7-20 | when every core's S and A tables read, the rescaling succeeds |
| MergeCheckpoint.AdjustFromTables | optICA_updated_scripts/.ipynb_checkpoints/Merge_components_files-checkpoint.py:7-20 | after success each core's S is divided and A multiplied by sqrt of the S table's original row count; keys and other names are unchanged |
| MergeCheckpoint.DeleteTempFiles | optICA_updated_scripts/.ipynb_checkpoints/Merge_components_files-checkpoint.py:48-56 | the loop computes the recursive deletion, which never fails |
| MergeCheckpoint.DeleteFrom | optICA_updated_scripts/.ipynb_checkpoints/Merge_components_files-checkpoint.py:48-56 | delete the marked regular files of the listing; `DeleteFromResult` states what it does |
| MergeCheckpoint.DeleteFromResult | optICA_updated_scripts/.ipynb_checkpoints/Merge_components_files-checkpoint.py:50-56 | exactly the listed regular files whose path contains `proc_tmp_` are deleted; every other entry is kept as it was |
| MergeCheckpoint.DeleteLooksAtPath | optICA_updated_scripts/.ipynb_checkpoints/Merge_components_files-checkpoint.py:51-53 | a directory path without the marker makes the test one on the name; a path with it dooms every listed regular file |
| MergeCheckpoint.FiveOnFourFails | optICA_updated_scripts/.ipynb_checkpoints/Merge_components_files-checkpoint.py:63-68 | five S tables on four cores always stop the script |
| MergeCheckpoint.CheckpointMain | optICA_updated_scripts/.ipynb_checkpoints/Merge_components_files-checkpoint.py:63-74 | merge S, merge A, rescale, delete; `CheckpointTables`, `CheckpointOutputs` and `FiveOnFourFails` state what it does |
| MergeCheckpoint.CheckpointOutputs | optICA_updated_scripts/.ipynb_checkpoints/Merge_components_files-checkpoint.py:63-74 | a successful run keeps every core's S and A tables, and leaves no listed marker name as a regular file |
| MergeCheckpoint.MergedGroup | optICA_updated_scripts/.ipynb_checkpoints/Merge_components_files-checkpoint.py:33-46 | after a successful merge, core `c`'s output reads back as the merge of its ceiling-sized group |
| MergeCheckpoint.AMergeKeepsS | optICA_updated_scripts/.ipynb_checkpoints/Merge_components_files-checkpoint.py:67-68 | merging the A tables leaves every core's S output as the S merge left it |
| MergeCheckpoint.AdjustedCore | optICA_updated_scripts/.ipynb_checkpoints/Merge_components_files-checkpoint.py:7-20 | after a successful rescaling, core `c`'s S table is its old S divided and its A table its old A multiplied by the square root of the old S row count |
| MergeCheckpoint.DeleteKeepsPair | optICA_updated_scripts/.ipynb_checkpoints/Merge_components_files-checkpoint.py:48-56 | the deletion step neither removes nor changes a core's rescaled S and A outputs |
| MergeCheckpoint.CheckpointCore | optICA_updated_scripts/.ipynb_checkpoints/Merge_components_files-checkpoint.py:63-74 | in a successful run, core `c`'s S table is the merge of its S group divided by the square root of that merge's row count, and its A table the merge of its A group multiplied by the same factor |
| MergeCheckpoint.CheckpointTables | optICA_updated_scripts/.ipynb_checkpoints/Merge_components_files-checkpoint.py:63-74 | the same for every core below the core count: each core's final S and A tables are its merged groups, rescaled by the merged S table's row count |

## Left out

- MPI: ranks run one after the other in rank order, with barriers as sequencing. `comm.Abort()` is an `Aborted` error; `bcast` and the unused `n_tasks` are left out. Concurrency, races between ranks and hung workers are not modelled.
- The numerics are left out: the dot product, the absolute value and their floating-point values. A distance file records which tables it came from and its shape. The sqrt factors are symbols. Only thresholding and clipping are modelled on `real`.
- File I/O is left out. Each `os.listdir` call is a sequence parameter; `abspath` is the identity. The temporary directory path is a parameter that is never empty and never ends in `/`.
- Tables have no cells. `pd.concat(axis=1)` is given the largest row count; the checkpoint aligns rows on the index, and the union of indices is not modelled.
- Argument parsing, `print`, `timeit` and the usage checks are left out. This includes the `size != num_cores` exit in the two MPI scripts and the `sys.argv` check in the checkpoint.
- Python's `int()` also accepts spaces, `_` separators and non-ASCII digits, and regex `\d` accepts Unicode digits. Only ASCII digits with an optional sign are modelled.
- A folder is assumed never to have size 0 (`getsize < 1` is tested only on files).
- FileSystem.Rename: a move onto or from a folder over an existing name is IsADirectory. Finer POSIX cases (an empty folder target, `EXDEV`, permissions) are left out.
- MergeCheckpoint.FilesPerCore: the core count is a natural number. A negative count (`range` empty, ceil of a negative ratio) and float rounding of `ceil` beyond 2^53 files are not modelled.
- MergeCheckpoint.DeleteFrom: an `unlink` that fails (permissions) is caught and printed in the source, so the file stays. The model has no such failure.
- NaN is not modelled. `pd.concat(axis=1)` pads shorter frames with NaN, and the model keeps only the largest row count. A NaN distance is neither below 0.5 nor changed by `np.clip`, so `Sparsify`'s "0 or in [0.5, 1]" does not hold of such an entry.
- Lists.SortBy: insertion sort is stable. Stability is not stated as a contract, only order, permutation and distinctness.

Behaviour of the code worth knowing (the model follows it):
- Pruning (`adjust_csv_MPI.py:11-14`, documented as deleting files under 1 byte with their S or A partner) catches no error. An empty `_S` listed before its partner deletes that partner, and `getsize` then fails on it when the loop reaches it (`AdjustCsv.PruneDependsOnOrder`).
- Renumbering (`adjust_csv_MPI.py:47-49`, documented as renaming to a sequential order) overwrites an existing target name silently when the ids do not start at 0 (`AdjustCsv.RenumberOverwrites`).
- The merge stage leaves the remainder unprocessed, as its docstring says (`merge_csv_MPI.py:32-35`): the last `total mod size` files stay unmerged and undeleted.
- In `merge_csv_MPI.py`, an A table without an S table raises on the unbound `num_rows`.
- In the distance stage every worker computes every pair; the round-robin task lists are built but never used. Only the first worker's pass changes the directory (`ComputeDistance.DistanceStageRepeats`), so the ranks are modelled as one pass.
- The older merge script sorts names as text, so `proc_tmp_10` comes before `proc_tmp_2`. Its ceiling-sized groups can leave a core with nothing, and `pd.concat([])` then raises.
