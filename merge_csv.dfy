/**
  The merge stage (optICA_updated_scripts/merge_csv_MPI.py): the per-run files
  `proc_tmp_<n>_<type>.csv` are ordered by run number, split into equal
  contiguous groups, one per rank, and each group is concatenated column-wise
  into `proc_<rank>_<type>.csv`; the merged inputs are then deleted and every
  rank rescales its S and A tables by the row count of its S table.

  The ranks are run one after the other, in rank order.
 */
module MergeCsv {
  import opened Wrappers
  import opened Strings
  import opened Lists
  import opened FileSystem
  import opened Frames
  import opened Arith

  // ---------------------------------------------------------------------------
  // Selecting and ordering the per-run files

  const TmpPrefix: string := "proc_tmp_"

  /** What follows the digits: `_`, the type, any character but a newline, then `csv`. */
  predicate TailMatches(s: string, fileType: string) {
    && |s| >= |fileType| + 5
    && s[0] == '_'
    && s[1..1 + |fileType|] == fileType
    && s[1 + |fileType|] != '\n'
    && s[2 + |fileType|..5 + |fileType|] == "csv"
  }

  /**
    Line 37: `re.match(f"proc_tmp_\\d+_{file_type}.csv", f)`. The match is
    anchored at the start only and the `.` before `csv` stands for any
    character. `\d+` is followed by `_`, which is not a digit, so it can only
    succeed by taking the whole run of digits.
   */
  predicate MatchesTmp(f: string, fileType: string) {
    && StartsWith(f, TmpPrefix)
    && var rest := f[|TmpPrefix|..];
       var d := LeadingDigits(rest);
       d >= 1 && TailMatches(rest[d..], fileType)
  }

  /** The pattern accepts names with anything after `csv` and any character before it. */
  lemma PatternIsLoose()
    ensures MatchesTmp("proc_tmp_7_S.csv.bak", "S")
    ensures MatchesTmp("proc_tmp_7_SXcsv", "S")
  {
    MatchesTmpShape("proc_tmp_7_S.csv.bak");
    MatchesTmpShape("proc_tmp_7_SXcsv");
  }

  /** `proc_tmp_<digit>_S<c>csv...` matches for any character `c` but a newline. */
  lemma MatchesTmpShape(f: string)
    requires |f| >= 16 && f[..9] == TmpPrefix && IsDigit(f[9]) && f[10] == '_' && f[11] == 'S' && f[12] != '\n'
    requires f[13..16] == "csv"
    ensures MatchesTmp(f, "S")
  {
    var rest := f[9..];
    assert rest[1..][0] == '_';
    assert LeadingDigits(rest[1..]) == 0;
    var tail := rest[1..];
    assert tail[0] == '_' && tail[1..2] == "S" && tail[3..6] == f[13..16];
  }

  /** A run number is required, and the name must start with the prefix. */
  lemma PatternRejects()
    ensures !MatchesTmp("proc_tmp__S.csv", "S")
    ensures !MatchesTmp("old_proc_tmp_7_S.csv", "S")
  {
    assert "proc_tmp__S.csv"[9..] == "_S.csv";
    assert "old_proc_tmp_7_S.csv"[..9][0] == 'o';
  }

  /** Line 38: `int(re.search(r'(\d+)', x).group())`, the first number in the name. */
  function RunNumber(f: string): int {
    match FirstDigitRun(f)
    case Some(ds) => DigitsValue(ds)
    case None => 0
  }

  /** For a selected file the first number is the one right after `proc_tmp_`. */
  lemma RunNumberOfMatch(f: string, fileType: string)
    requires MatchesTmp(f, fileType)
    ensures var rest := f[|TmpPrefix|..];
      FirstDigitRun(f) == Some(rest[..LeadingDigits(rest)]) &&
      RunNumber(f) == DigitsValue(rest[..LeadingDigits(rest)])
  {
    var rest := f[|TmpPrefix|..];
    assert f == TmpPrefix + rest;
    FirstDigitRunAfter(TmpPrefix, rest);
  }

  /**
    Lines 37-38: the matching names of the listing, ordered by run number; a
    stable sort, so equal run numbers keep their listing order.
   */
  function SelectTmpFiles(listing: seq<string>, fileType: string): (files: seq<string>)
    ensures forall f :: f in files <==> f in listing && MatchesTmp(f, fileType)
    ensures multiset(files) == multiset(Filter(listing, f => MatchesTmp(f, fileType)))
    ensures forall i, j :: 0 <= i < j < |files| ==> RunNumber(files[i]) <= RunNumber(files[j])
    ensures Distinct(listing) ==> Distinct(files)
  {
    var matching := Filter(listing, f => MatchesTmp(f, fileType));
    ByKeyTotalPreorder(RunNumber);
    var sorted := SortBy(matching, ByKey(RunNumber));
    SameMembers(sorted, matching);
    SortedByKey(sorted, RunNumber);
    sorted
  }

  // ---------------------------------------------------------------------------
  // The partition

  /** How many files are merged in all, and how many by each rank. */
  datatype Plan = Plan(merged: nat, perRank: nat)

  /**
    Lines 40-49: with fewer files than ranks the run is aborted; otherwise
    the largest multiple of `size` files is merged, the same number per rank,
    and the remaining `total % size` files are left alone.
   */
  function MergePlan(fileType: string, total: nat, size: nat): (r: Result<Plan, Error>)
    ensures (r.Err? && r.error.Aborted?) <==> total < size
    ensures r.Err? && !r.error.Aborted? ==> size == 0 && r.error == DivisionByZero
    ensures r.Ok? ==> && size >= 1
                      && r.value.merged <= total && r.value.merged % size == 0
                      && total - r.value.merged < size
                      && r.value.merged == r.value.perRank * size
                      && r.value.perRank == total / size && r.value.perRank >= 1
  {
    if total < size then Err(Aborted(fileType, total, size))
    else if size == 0 then Err(DivisionByZero)
    else
      var merged := total - total % size;
      DivMultiple(total, size);
      DivAtLeastOne(total, size);
      Ok(Plan(merged, merged / size))
  }

  /** Lines 51-54: `files[rank * p : rank * p + p]`. */
  function RankFiles(files: seq<string>, rank: nat, perRank: nat): seq<string> {
    Slice(files, rank * perRank, rank * perRank + perRank)
  }

  /** Every rank gets exactly its `perRank` files, none clipped away. */
  lemma RankFilesExact(files: seq<string>, rank: nat, size: nat, perRank: nat)
    requires rank < size && perRank * size <= |files|
    ensures rank * perRank + perRank <= |files|
    ensures RankFiles(files, rank, perRank) == files[rank * perRank..rank * perRank + perRank]
  {
    MulMonotone(size, rank + 1, perRank);
    assert (rank + 1) * perRank == rank * perRank + perRank;
    assert perRank * size == size * perRank;
  }

  /**
    Merged position k belongs to rank k / p and to no other: the slices are
    pairwise disjoint and every merged position is in one of them.
   */
  lemma MergedPositionOwner(files: seq<string>, size: nat, perRank: nat, k: nat, rank: nat)
    requires perRank >= 1 && perRank * size <= |files| && k < perRank * size && rank < size
    ensures k / perRank < size
    ensures rank * perRank <= k < rank * perRank + perRank <==> rank == k / perRank
    ensures k % perRank < |RankFiles(files, k / perRank, perRank)| &&
            RankFiles(files, k / perRank, perRank)[k % perRank] == files[k]
  {
    OwnerBelow(size, perRank, k);
    SliceOwner(k, perRank, rank);
    OwnerOffset(files, size, perRank, k);
  }

  lemma OwnerBelow(size: nat, perRank: nat, k: nat)
    requires perRank >= 1 && k < perRank * size
    ensures k / perRank < size
  {
    RowBelow(k / perRank, k % perRank, size, perRank);
  }

  lemma OwnerOffset(files: seq<string>, size: nat, perRank: nat, k: nat)
    requires perRank >= 1 && perRank * size <= |files| && k < perRank * size
    ensures k / perRank < size
    ensures k % perRank < |RankFiles(files, k / perRank, perRank)| &&
            RankFiles(files, k / perRank, perRank)[k % perRank] == files[k]
  {
    var q := k / perRank;
    OwnerBelow(size, perRank, k);
    SliceOwner(k, perRank, q);
    RowOf(k, perRank, q);
    RankFilesExact(files, q, size, perRank);
    SliceAt(files, q * perRank, perRank, k);
  }

  lemma SliceAt(files: seq<string>, start: nat, len: nat, k: nat)
    requires start + len <= |files| && start <= k < start + len
    ensures Slice(files, start, start + len)[k - start] == files[k]
  {
  }

  lemma SliceOwner(k: nat, perRank: nat, rank: nat)
    requires perRank >= 1
    ensures rank * perRank <= k < rank * perRank + perRank <==> rank == k / perRank
  {
    if rank * perRank <= k < rank * perRank + perRank {
      RowOf(k, perRank, rank);
    }
    if rank == k / perRank {
      assert k == rank * perRank + k % perRank;
    }
  }

  lemma RowBelow(q: nat, r: nat, size: nat, perRank: nat)
    requires q * perRank + r < perRank * size
    ensures q < size
  {
    if q >= size {
      MulMonotone(q, size, perRank);
    }
  }

  /** The slices of ranks 0 .. n-1, one after the other. */
  function JoinedSlices(files: seq<string>, perRank: nat, n: nat): seq<string> {
    if n == 0 then [] else JoinedSlices(files, perRank, n - 1) + RankFiles(files, n - 1, perRank)
  }

  /** In rank order the slices make up exactly the merged prefix of the files. */
  lemma {:induction false} JoinedSlicesArePrefix(files: seq<string>, perRank: nat, n: nat)
    requires perRank * n <= |files|
    ensures JoinedSlices(files, perRank, n) == files[..perRank * n]
  {
    if n > 0 {
      assert perRank * n == perRank * (n - 1) + perRank;
      JoinedSlicesArePrefix(files, perRank, n - 1);
      RankFilesExact(files, n - 1, n, perRank);
      assert (n - 1) * perRank == perRank * (n - 1);
      assert files[..perRank * n] == files[..perRank * (n - 1)] + files[perRank * (n - 1)..perRank * n];
    }
  }

  /** With the plan in force no rank's slice is empty, so line 61 never raises. */
  lemma NoEmptyConcat(dir: Directory, files: seq<string>, fileType: string, size: nat, rank: nat)
    requires MergePlan(fileType, |files|, size).Ok? && rank < size
    ensures var p := MergePlan(fileType, |files|, size).value.perRank;
      MergedTable(dir, RankFiles(files, rank, p)) != Err(NothingToConcatenate)
  {
    var plan := MergePlan(fileType, |files|, size).value;
    RankFilesExact(files, rank, size, plan.perRank);
    var mine := RankFiles(files, rank, plan.perRank);
    LoadFromFrames(dir, mine, 0);
    if LoadFrom(dir, mine, 0).Err? {
      LoadFromError(dir, mine, 0);
    }
  }

  // ---------------------------------------------------------------------------
  // Writing the merged tables and deleting the inputs

  /** An output never matches the input pattern: its sixth character is a digit. */
  lemma OutputNotTmp(rank: nat, fileType: string, other: string)
    ensures !MatchesTmp(ProcFile(rank, fileType), other)
  {
    var n := ProcFile(rank, fileType);
    assert n[5] == NatToString(rank)[0];
    assert IsDigit(n[5]);
    assert TmpPrefix[5] == 't';
  }

  /**
    Lines 54-65 on rank `rank`: merge its slice and write the result, without
    an index, to the rank's output. `pd.concat` runs before the `if dfs` test,
    so an empty slice raises there, and a concat that succeeds had frames to
    merge, so its result is always written, unless the output name is a folder.
   */
  function MergeRank(dir: Directory, files: seq<string>, fileType: string, rank: nat, perRank: nat)
    : Result<Directory, Error>
  {
    var merged :- MergedTable(dir, RankFiles(files, rank, perRank));
    Save(dir, ProcFile(rank, fileType), Csv(merged))
  }

  /** Ranks `rank` .. `size - 1` merge their slices one after the other. */
  function MergeRanks(dir: Directory, files: seq<string>, fileType: string, perRank: nat, rank: nat, size: nat)
    : Outcome
    decreases size - rank
  {
    if rank >= size then Outcome(dir, None)
    else match MergeRank(dir, files, fileType, rank, perRank)
      case Err(e) => Outcome(dir, Some(e))
      case Ok(d) => MergeRanks(d, files, fileType, perRank, rank + 1, size)
  }

  /** Every name in a rank's slice is one of the selected files. */
  lemma RankFilesMembers(files: seq<string>, rank: nat, perRank: nat)
    ensures forall f :: f in RankFiles(files, rank, perRank) ==> f in files
  {
    var mine := RankFiles(files, rank, perRank);
    forall f | f in mine ensures f in files {
      var k :| 0 <= k < |mine| && mine[k] == f;
      assert files[rank * perRank + k] == f;
    }
  }

  /** The name is one of the outputs of ranks `rank` .. `size - 1`. */
  predicate IsOutput(name: string, fileType: string, rank: nat, size: nat) {
    exists q :: rank <= q < size && name == ProcFile(q, fileType)
  }

  /**
    Running the ranks in turn succeeds exactly when every rank's slice merges
    and no rank's output name is a folder; each output then holds its rank's
    merge of the files as they were, and nothing but the outputs is written.
   */
  lemma MergeRanksResult(dir: Directory, files: seq<string>, fileType: string, perRank: nat,
                         rank: nat, size: nat)
    requires forall f :: f in files ==> MatchesTmp(f, fileType)
    requires '_' !in fileType
    ensures var out := MergeRanks(dir, files, fileType, perRank, rank, size);
      && (out.error.None? <==>
            forall q :: rank <= q < size ==>
              MergedTable(dir, RankFiles(files, q, perRank)).Ok? && Writable(dir, ProcFile(q, fileType)))
      && (out.error.None? ==>
            forall q :: rank <= q < size ==>
              MergedTable(dir, RankFiles(files, q, perRank)).Ok? &&
              ProcFile(q, fileType) in out.dir &&
              out.dir[ProcFile(q, fileType)] == File(Csv(MergedTable(dir, RankFiles(files, q, perRank)).value)))
      && (forall name :: name in dir && !IsOutput(name, fileType, rank, size) ==>
            name in out.dir && out.dir[name] == dir[name])
      && (forall name :: name in out.dir ==> name in dir || IsOutput(name, fileType, rank, size))
  {
    MergeRanksSucceeds(dir, files, fileType, perRank, rank, size);
    MergeRanksOutputs(dir, files, fileType, perRank, rank, size);
    MergeRanksFrame(dir, files, fileType, perRank, rank, size);
  }

  /**
    Writing rank `rank`'s output leaves the merges of the later slices, and
    whether their outputs can be written, as they were.
   */
  lemma MergeRankKeepsLater(dir: Directory, files: seq<string>, fileType: string, perRank: nat, rank: nat,
                            size: nat)
    requires forall f :: f in files ==> MatchesTmp(f, fileType)
    requires '_' !in fileType
    requires MergeRank(dir, files, fileType, rank, perRank).Ok?
    ensures forall q :: rank < q < size ==>
      MergedTable(MergeRank(dir, files, fileType, rank, perRank).value, RankFiles(files, q, perRank))
        == MergedTable(dir, RankFiles(files, q, perRank))
    ensures forall q :: rank < q < size ==>
      Writable(MergeRank(dir, files, fileType, rank, perRank).value, ProcFile(q, fileType))
        == Writable(dir, ProcFile(q, fileType))
  {
    var here := ProcFile(rank, fileType);
    var m := MergedTable(dir, RankFiles(files, rank, perRank)).value;
    assert MergeRank(dir, files, fileType, rank, perRank).value == dir[here := File(Csv(m))];
    assert here !in files by {
      OutputNotTmp(rank, fileType, fileType);
    }
    forall q | rank < q < size
      ensures MergedTable(dir[here := File(Csv(m))], RankFiles(files, q, perRank))
        == MergedTable(dir, RankFiles(files, q, perRank))
    {
      RankFilesMembers(files, q, perRank);
      LoadFromUnaffected(dir, RankFiles(files, q, perRank), 0, here, File(Csv(m)));
    }
    forall q | rank < q < size ensures here != ProcFile(q, fileType) {
      ProcFileInjective(rank, fileType, q, fileType);
    }
  }

  /**
    Running the ranks in turn succeeds exactly when every rank's slice merges
    and no rank's output name is a folder.
   */
  lemma MergeRanksSucceeds(dir: Directory, files: seq<string>, fileType: string, perRank: nat,
                            rank: nat, size: nat)
    requires forall f :: f in files ==> MatchesTmp(f, fileType)
    requires '_' !in fileType
    ensures MergeRanks(dir, files, fileType, perRank, rank, size).error.None? <==>
            forall q :: rank <= q < size ==>
              MergedTable(dir, RankFiles(files, q, perRank)).Ok? && Writable(dir, ProcFile(q, fileType))
  {
    if MergeRanks(dir, files, fileType, perRank, rank, size).error.None? {
      forall q | rank <= q < size
        ensures MergedTable(dir, RankFiles(files, q, perRank)).Ok? && Writable(dir, ProcFile(q, fileType))
      {
        MergeRanksOkAt(dir, files, fileType, perRank, rank, size, q);
      }
    } else if forall q :: rank <= q < size ==>
                MergedTable(dir, RankFiles(files, q, perRank)).Ok? && Writable(dir, ProcFile(q, fileType)) {
      MergeRanksOkIf(dir, files, fileType, perRank, rank, size);
    }
  }

  /** In a successful run, rank `q`'s slice merges from the original files and its output was no folder. */
  lemma {:induction false} MergeRanksOkAt(dir: Directory, files: seq<string>, fileType: string, perRank: nat,
                                          rank: nat, size: nat, q: nat)
    requires forall f :: f in files ==> MatchesTmp(f, fileType)
    requires '_' !in fileType
    requires MergeRanks(dir, files, fileType, perRank, rank, size).error.None? && rank <= q < size
    ensures MergedTable(dir, RankFiles(files, q, perRank)).Ok? && Writable(dir, ProcFile(q, fileType))
    decreases size - rank
  {
    var r := MergeRank(dir, files, fileType, rank, perRank);
    if q > rank {
      MergeRankKeepsLater(dir, files, fileType, perRank, rank, size);
      MergeRanksOkAt(r.value, files, fileType, perRank, rank + 1, size, q);
    }
  }

  /** When every slice merges from the original files and no output is a folder, the run succeeds. */
  lemma {:induction false} MergeRanksOkIf(dir: Directory, files: seq<string>, fileType: string, perRank: nat,
                                          rank: nat, size: nat)
    requires forall f :: f in files ==> MatchesTmp(f, fileType)
    requires '_' !in fileType
    requires forall q :: rank <= q < size ==>
      MergedTable(dir, RankFiles(files, q, perRank)).Ok? && Writable(dir, ProcFile(q, fileType))
    ensures MergeRanks(dir, files, fileType, perRank, rank, size).error.None?
    decreases size - rank
  {
    if rank < size {
      var r := MergeRank(dir, files, fileType, rank, perRank);
      assert MergedTable(dir, RankFiles(files, rank, perRank)).Ok? && Writable(dir, ProcFile(rank, fileType));
      MergeRankKeepsLater(dir, files, fileType, perRank, rank, size);
      MergeRanksOkIf(r.value, files, fileType, perRank, rank + 1, size);
    }
  }

  /**
    Only the outputs of ranks `rank` .. `size - 1` are written: every other name
    keeps its entry, and nothing else appears.
   */
  lemma {:induction false} MergeRanksFrame(dir: Directory, files: seq<string>, fileType: string, perRank: nat,
                                           rank: nat, size: nat)
    ensures var out := MergeRanks(dir, files, fileType, perRank, rank, size);
      && (forall name :: name in dir && !IsOutput(name, fileType, rank, size) ==>
            name in out.dir && out.dir[name] == dir[name])
      && (forall name :: name in out.dir ==> name in dir || IsOutput(name, fileType, rank, size))
    decreases size - rank
  {
    if rank < size {
      var r := MergeRank(dir, files, fileType, rank, perRank);
      if r.Ok? {
        var here := ProcFile(rank, fileType);
        MergeRanksFrame(r.value, files, fileType, perRank, rank + 1, size);
        var out := MergeRanks(dir, files, fileType, perRank, rank, size);
        forall name | name in dir && !IsOutput(name, fileType, rank, size)
          ensures name in out.dir && out.dir[name] == dir[name]
        {
          assert name != here;
          assert !IsOutput(name, fileType, rank + 1, size);
        }
        forall name | name in out.dir ensures name in dir || IsOutput(name, fileType, rank, size) {
          if name !in dir && name != here {
            var q :| rank + 1 <= q < size && name == ProcFile(q, fileType);
          }
        }
      }
    }
  }

  /** On success each rank's output holds the merge of its slice of the files as they were. */
  lemma {:induction false} MergeRanksOutputs(dir: Directory, files: seq<string>, fileType: string, perRank: nat,
                                             rank: nat, size: nat)
    requires forall f :: f in files ==> MatchesTmp(f, fileType)
    requires '_' !in fileType
    ensures var out := MergeRanks(dir, files, fileType, perRank, rank, size);
      out.error.None? ==>
        forall q :: rank <= q < size ==>
          MergedTable(dir, RankFiles(files, q, perRank)).Ok? &&
          ProcFile(q, fileType) in out.dir &&
          out.dir[ProcFile(q, fileType)] == File(Csv(MergedTable(dir, RankFiles(files, q, perRank)).value))
    decreases size - rank
  {
    if rank < size {
      var r := MergeRank(dir, files, fileType, rank, perRank);
      if r.Ok? {
        var here := ProcFile(rank, fileType);
        MergeRankKeepsLater(dir, files, fileType, perRank, rank, size);
        MergeRanksOutputs(r.value, files, fileType, perRank, rank + 1, size);
        MergeRanksFrame(r.value, files, fileType, perRank, rank + 1, size);
        assert here in r.value;
        assert !IsOutput(here, fileType, rank + 1, size) by {
          forall q | rank + 1 <= q < size ensures here != ProcFile(q, fileType) {
            ProcFileInjective(rank, fileType, q, fileType);
          }
        }
      }
    }
  }

  /** `os.remove` on each name in turn; the first failure stops the loop. */
  function RemoveAll(dir: Directory, names: seq<string>): Outcome {
    if names == [] then Outcome(dir, None)
    else match Remove(dir, names[0])
      case Err(e) => Outcome(dir, Some(e))
      case Ok(d) => RemoveAll(d, names[1..])
  }

  /** Lines 72-73: rank 0 deletes `files[0 .. merged - 1]`. */
  method RemoveMerged(dir: Directory, files: seq<string>, merged: nat) returns (out: Outcome)
    requires merged <= |files|
    ensures out == RemoveAll(dir, files[..merged])
  {
    var d := dir;
    var i := 0;
    while i < merged
      invariant i <= merged
      invariant RemoveAll(d, files[i..merged]) == RemoveAll(dir, files[..merged])
    {
      assert files[i..merged][0] == files[i] && files[i..merged][1..] == files[i + 1..merged];
      var r := Remove(d, files[i]);
      if r.Err? {
        return Outcome(d, Some(r.error));
      }
      d := r.value;
      i := i + 1;
    }
    out := Outcome(d, None);
  }

  /**
    Removing distinct names succeeds exactly when each is a regular file, and
    then it deletes those names and nothing else.
   */
  lemma RemoveAllResult(dir: Directory, names: seq<string>)
    requires Distinct(names)
    ensures RemoveAll(dir, names).error.None? <==>
            forall k :: 0 <= k < |names| ==> names[k] in dir && dir[names[k]].File?
    ensures RemoveAll(dir, names).error.None? ==> RemoveAll(dir, names).dir == dir - (set n | n in names)
  {
    RemoveAllSucceeds(dir, names);
    RemoveAllRemoves(dir, names);
  }

  lemma {:induction false} RemoveAllSucceeds(dir: Directory, names: seq<string>)
    requires Distinct(names)
    ensures RemoveAll(dir, names).error.None? <==>
            forall k :: 0 <= k < |names| ==> names[k] in dir && dir[names[k]].File?
  {
    if names != [] {
      var r := Remove(dir, names[0]);
      if r.Ok? {
        var tail := names[1..];
        DistinctTail(names);
        RemoveAllSucceeds(r.value, tail);
        if forall k :: 0 <= k < |tail| ==> tail[k] in r.value && r.value[tail[k]].File? {
          forall k | 0 <= k < |names| ensures names[k] in dir && dir[names[k]].File? {
            if k > 0 {
              assert names[k] == tail[k - 1];
            }
          }
        }
        if forall k :: 0 <= k < |names| ==> names[k] in dir && dir[names[k]].File? {
          forall k | 0 <= k < |tail| ensures tail[k] in r.value && r.value[tail[k]].File? {
            assert tail[k] == names[k + 1];
          }
        }
      }
    }
  }

  lemma {:induction false} RemoveAllRemoves(dir: Directory, names: seq<string>)
    ensures RemoveAll(dir, names).error.None? ==> RemoveAll(dir, names).dir == dir - (set n | n in names)
  {
    if names != [] {
      var r := Remove(dir, names[0]);
      if r.Ok? {
        var tail := names[1..];
        RemoveAllRemoves(r.value, tail);
        assert (set n | n in names) == {names[0]} + (set n | n in tail) by {
          assert names == [names[0]] + tail;
        }
      }
    }
  }

  /**
    Lines 36-73 for one file type: select and order the files, check the
    plan, let every rank merge its slice, then delete the merged inputs.
   */
  function MergeAndCleanup(dir: Directory, listing: seq<string>, fileType: string, size: nat): Outcome {
    var files := SelectTmpFiles(listing, fileType);
    match MergePlan(fileType, |files|, size)
    case Err(e) => Outcome(dir, Some(e))
    case Ok(plan) =>
      var ranks := MergeRanks(dir, files, fileType, plan.perRank, 0, size);
      if ranks.error.Some? then ranks
      else RemoveAll(ranks.dir, files[..plan.merged])
  }

  /** Every merged input was read by its rank, so it is a regular file. */
  lemma MergedInputsAreFiles(dir: Directory, files: seq<string>, perRank: nat, size: nat, k: nat)
    requires perRank >= 1 && perRank * size <= |files| && k < perRank * size
    requires forall q :: 0 <= q < size ==> MergedTable(dir, RankFiles(files, q, perRank)).Ok?
    ensures files[k] in dir && dir[files[k]].File?
  {
    var q, j := Owner(files, size, perRank, k);
    ReadInSlice(dir, RankFiles(files, q, perRank), j);
  }

  lemma Owner(files: seq<string>, size: nat, perRank: nat, k: nat) returns (q: nat, j: nat)
    requires perRank >= 1 && perRank * size <= |files| && k < perRank * size
    ensures q < size && j < |RankFiles(files, q, perRank)| && RankFiles(files, q, perRank)[j] == files[k]
  {
    MergedPositionOwner(files, size, perRank, k, 0);
    q, j := k / perRank, k % perRank;
    RankFilesExact(files, q, size, perRank);
  }

  /** A file of a slice whose merge succeeded is a regular file. */
  lemma ReadInSlice(dir: Directory, mine: seq<string>, j: nat)
    requires MergedTable(dir, mine).Ok? && j < |mine|
    ensures mine[j] in dir && dir[mine[j]].File?
  {
    LoadFromFrames(dir, mine, 0);
    assert ReadCsv(dir, mine[j]).Ok?;
  }

  /** The merge of one file type aborts exactly when there are fewer matching files than ranks. */
  lemma MergeAborts(dir: Directory, listing: seq<string>, fileType: string, size: nat)
    ensures var out := MergeAndCleanup(dir, listing, fileType, size);
      (out.error.Some? && out.error.value.Aborted?) <==> |SelectTmpFiles(listing, fileType)| < size
  {
    var files := SelectTmpFiles(listing, fileType);
    var pl := MergePlan(fileType, |files|, size);
    if pl.Ok? {
      var ranks := MergeRanks(dir, files, fileType, pl.value.perRank, 0, size);
      if ranks.error.Some? {
        MergeRanksError(dir, files, fileType, pl.value.perRank, 0, size);
      } else {
        RemoveAllError(ranks.dir, files[..pl.value.merged]);
      }
    }
  }

  /** A failing rank fails with an error from reading or concatenating, never an abort. */
  lemma {:induction false} MergeRanksError(dir: Directory, files: seq<string>, fileType: string, perRank: nat,
                                           rank: nat, size: nat)
    ensures var out := MergeRanks(dir, files, fileType, perRank, rank, size);
      out.error.Some? ==> !out.error.value.Aborted?
    decreases size - rank
  {
    if rank < size {
      var r := MergeRank(dir, files, fileType, rank, perRank);
      var mine := RankFiles(files, rank, perRank);
      if r.Err? && LoadFrom(dir, mine, 0).Err? {
        LoadFromError(dir, mine, 0);
      }
      if r.Ok? {
        MergeRanksError(r.value, files, fileType, perRank, rank + 1, size);
      }
    }
  }

  /** Removing fails only with a missing name or a folder. */
  lemma {:induction false} RemoveAllError(dir: Directory, names: seq<string>)
    ensures var out := RemoveAll(dir, names);
      out.error.Some? ==> out.error.value.FileNotFound? || out.error.value.IsADirectory?
  {
    if names != [] && Remove(dir, names[0]).Ok? {
      RemoveAllError(Remove(dir, names[0]).value, names[1..]);
    }
  }

  /**
    One file type end to end, once the plan is in force: the run fails exactly
    when some rank's slice cannot be merged or its output name is a folder, and
    on success each rank's output holds the
    merge of its slice, the merged inputs are gone, the `total % size` last
    files in run order are left as they were, and nothing else changes.
   */
  lemma MergeAndCleanupResult(dir: Directory, listing: seq<string>, fileType: string, size: nat,
                              files: seq<string>, plan: Plan)
    requires IsListing(dir, listing) && '_' !in fileType
    requires files == SelectTmpFiles(listing, fileType)
    requires MergePlan(fileType, |files|, size) == Ok(plan)
    ensures var out := MergeAndCleanup(dir, listing, fileType, size);
      && (out.error.None? <==>
            forall q :: 0 <= q < size ==>
              MergedTable(dir, RankFiles(files, q, plan.perRank)).Ok? && Writable(dir, ProcFile(q, fileType)))
      && (out.error.None? ==>
            && (forall q :: 0 <= q < size ==>
                  MergedTable(dir, RankFiles(files, q, plan.perRank)).Ok? &&
                  ProcFile(q, fileType) in out.dir &&
                  out.dir[ProcFile(q, fileType)] == File(Csv(MergedTable(dir, RankFiles(files, q, plan.perRank)).value)))
            && (forall k :: 0 <= k < plan.merged ==> files[k] !in out.dir)
            && (forall k :: plan.merged <= k < |files| ==> files[k] in out.dir && out.dir[files[k]] == dir[files[k]])
            && (forall name :: name in dir && name !in files && !IsOutput(name, fileType, 0, size) ==>
                  name in out.dir && out.dir[name] == dir[name])
            && (forall name :: name in out.dir ==> name in dir || IsOutput(name, fileType, 0, size)))
  {
    var p := plan.perRank;
    assert p * size == plan.merged;
    assert forall f :: f in files ==> MatchesTmp(f, fileType);
    MergeRanksResult(dir, files, fileType, p, 0, size);
    var ranks := MergeRanks(dir, files, fileType, p, 0, size);
    var out := MergeAndCleanup(dir, listing, fileType, size);
    if ranks.error.None? {
      assert out == RemoveAll(ranks.dir, files[..plan.merged]);
      FilesNotOutputs(files, fileType, size);
      MergedInputsStayFiles(dir, ranks.dir, files, fileType, p, size);
      CleanupKeeps(dir, ranks.dir, listing, files, fileType, size, plan.merged);
    } else {
      assert out == ranks;
    }
  }

  /** The merged inputs are regular files, and the ranks' writes leave them so. */
  lemma MergedInputsStayFiles(dir: Directory, d: Directory, files: seq<string>, fileType: string,
                              perRank: nat, size: nat)
    requires perRank >= 1 && perRank * size <= |files|
    requires forall q :: 0 <= q < size ==> MergedTable(dir, RankFiles(files, q, perRank)).Ok?
    requires forall f :: f in files ==> !IsOutput(f, fileType, 0, size)
    requires forall name :: name in dir && !IsOutput(name, fileType, 0, size) ==> name in d && d[name] == dir[name]
    ensures forall k :: 0 <= k < perRank * size ==> files[k] in d && d[files[k]].File?
  {
    forall k | 0 <= k < perRank * size ensures files[k] in d && d[files[k]].File? {
      MergedInputsAreFiles(dir, files, perRank, size, k);
      assert files[k] in files;
    }
  }

  /**
    Deleting the merged prefix of the selected files after the ranks wrote
    `d`: the outputs stay, the merged inputs go, and every other name keeps
    what it had before the merge.
   */
  lemma CleanupKeeps(dir: Directory, d: Directory, listing: seq<string>, files: seq<string>, fileType: string,
                     size: nat, merged: nat)
    requires IsListing(dir, listing) && files == SelectTmpFiles(listing, fileType) && merged <= |files|
    requires forall k :: 0 <= k < merged ==> files[k] in d && d[files[k]].File?
    requires forall f :: f in files ==> !IsOutput(f, fileType, 0, size)
    requires forall name :: name in dir && !IsOutput(name, fileType, 0, size) ==> name in d && d[name] == dir[name]
    requires forall name :: name in d ==> name in dir || IsOutput(name, fileType, 0, size)
    ensures var out := RemoveAll(d, files[..merged]);
      && out.error.None?
      && (forall q :: 0 <= q < size && ProcFile(q, fileType) in d ==>
            ProcFile(q, fileType) in out.dir && out.dir[ProcFile(q, fileType)] == d[ProcFile(q, fileType)])
      && (forall k :: 0 <= k < merged ==> files[k] !in out.dir)
      && (forall k :: merged <= k < |files| ==> files[k] in out.dir && out.dir[files[k]] == dir[files[k]])
      && (forall name :: name in dir && name !in files && !IsOutput(name, fileType, 0, size) ==>
            name in out.dir && out.dir[name] == dir[name])
      && (forall name :: name in out.dir ==> name in dir || IsOutput(name, fileType, 0, size))
  {
    assert Distinct(listing);
    assert Distinct(files);
    RemovedPrefix(d, files, merged);
    var out := RemoveAll(d, files[..merged]);
    var gone := set f | f in files[..merged];
    assert out.dir == d - gone;
    forall k | merged <= k < |files| ensures files[k] in out.dir && out.dir[files[k]] == dir[files[k]] {
      assert files[k] !in gone;
      assert files[k] in listing;
    }
    forall q | 0 <= q < size ensures ProcFile(q, fileType) !in gone {
      assert IsOutput(ProcFile(q, fileType), fileType, 0, size);
    }
  }

  /** None of the selected files is an output name. */
  lemma FilesNotOutputs(files: seq<string>, fileType: string, size: nat)
    requires forall f :: f in files ==> MatchesTmp(f, fileType)
    ensures forall f :: f in files ==> !IsOutput(f, fileType, 0, size)
  {
    forall f, q | f in files && 0 <= q < size ensures f != ProcFile(q, fileType) {
      OutputNotTmp(q, fileType, fileType);
    }
  }

  /** Deleting a prefix of distinct files, each a regular file, leaves the rest in place. */
  lemma RemovedPrefix(dir: Directory, files: seq<string>, n: nat)
    requires n <= |files| && Distinct(files)
    requires forall k :: 0 <= k < n ==> files[k] in dir && dir[files[k]].File?
    ensures var out := RemoveAll(dir, files[..n]);
      && out.error.None?
      && out.dir == dir - (set f | f in files[..n])
      && (forall k :: 0 <= k < n ==> files[k] !in out.dir)
      && (forall k :: n <= k < |files| ==> files[k] !in files[..n])
  {
    var merged := files[..n];
    assert Distinct(merged);
    RemoveAllResult(dir, merged);
    forall k | n <= k < |files| ensures files[k] !in merged {
      assert forall j :: 0 <= j < |merged| ==> merged[j] == files[j];
    }
    forall k | 0 <= k < n ensures files[k] in merged {
      assert merged[k] == files[k];
    }
  }

  // ---------------------------------------------------------------------------
  // Rescaling each rank's tables

  /**
    Lines 24-29: if the A table exists it is read and rescaled by the row
    count taken from the S table; with no S table `num_rows` was never
    assigned and the multiplication raises.
   */
  function AdjustA(dir: Directory, aFile: string, numRows: Option<nat>): Outcome {
    if !Exists(dir, aFile) then Outcome(dir, None)
    else match ReadCsv(dir, aFile)
      case Err(e) => Outcome(dir, Some(e))
      case Ok(a) =>
        match numRows
        case None => Outcome(dir, Some(UnboundNumRows))
        case Some(n) => Outcome(WriteCsv(dir, aFile, ScaleData(a, MulSqrt(n))), None)
  }

  /** Lines 10-29 on rank `rank`: S is divided by sqrt of its rows, then A is multiplied by it. */
  function AdjustMatrices(dir: Directory, rank: nat): Outcome {
    var sFile, aFile := ProcFile(rank, "S"), ProcFile(rank, "A");
    if !Exists(dir, sFile) then AdjustA(dir, aFile, None)
    else match ReadCsv(dir, sFile)
      case Err(e) => Outcome(dir, Some(e))
      case Ok(s) => AdjustA(WriteCsv(dir, sFile, ScaleData(s, DivSqrt(s.rows))), aFile, Some(s.rows))
  }

  /**
    The A table is rescaled by the S table's row count, not its own, and only
    when the S table exists; an A table without an S table is the unbound
    `num_rows` error. Only the rank's two tables change.
   */
  lemma AdjustMatricesResult(dir: Directory, rank: nat)
    ensures var sFile, aFile := ProcFile(rank, "S"), ProcFile(rank, "A");
      var out := AdjustMatrices(dir, rank);
      && sFile != aFile
      && (out.error == Some(UnboundNumRows) <==> sFile !in dir && aFile in dir && ReadCsv(dir, aFile).Ok?)
      && (out.error.None? && sFile in dir ==>
            ReadCsv(dir, sFile).Ok? &&
            out.dir[sFile] == File(Csv(ScaleData(ReadCsv(dir, sFile).value, DivSqrt(ReadCsv(dir, sFile).value.rows)))))
      && (out.error.None? && aFile in dir ==>
            sFile in dir && ReadCsv(dir, sFile).Ok? && ReadCsv(dir, aFile).Ok? &&
            out.dir[aFile] == File(Csv(ScaleData(ReadCsv(dir, aFile).value, MulSqrt(ReadCsv(dir, sFile).value.rows)))))
      && out.dir.Keys == dir.Keys
      && (forall name :: name in dir && name != sFile && name != aFile ==> out.dir[name] == dir[name])
  {
    ProcFileInjective(rank, "S", rank, "A");
  }

  /** Every rank from `rank` on rescales its own tables, in rank order. */
  function AdjustRanks(dir: Directory, rank: nat, size: nat): Outcome
    decreases size - rank
  {
    if rank >= size then Outcome(dir, None)
    else
      var out := AdjustMatrices(dir, rank);
      if out.error.Some? then out else AdjustRanks(out.dir, rank + 1, size)
  }

  /** One of the tables of ranks `rank` .. `size - 1`. */
  predicate IsRankTable(n: string, rank: nat, size: nat) {
    exists r :: rank <= r < size && (n == ProcFile(r, "S") || n == ProcFile(r, "A"))
  }

  /** Two different ranks have four different table names. */
  lemma OtherRankTables(r: nat, rank: nat)
    requires r != rank
    ensures ProcFile(r, "S") != ProcFile(rank, "S") && ProcFile(r, "S") != ProcFile(rank, "A")
    ensures ProcFile(r, "A") != ProcFile(rank, "S") && ProcFile(r, "A") != ProcFile(rank, "A")
  {
    ProcFileInjective(r, "S", rank, "S");
    ProcFileInjective(r, "S", rank, "A");
    ProcFileInjective(r, "A", rank, "S");
    ProcFileInjective(r, "A", rank, "A");
  }

  /** A rank's rescaling looks only at its own two tables, and its effect on them depends on nothing else. */
  lemma AdjustMatricesLocal(d1: Directory, d2: Directory, rank: nat)
    requires SameAt(d1, d2, ProcFile(rank, "S")) && SameAt(d1, d2, ProcFile(rank, "A"))
    ensures AdjustMatrices(d1, rank).error == AdjustMatrices(d2, rank).error
    ensures SameAt(AdjustMatrices(d1, rank).dir, AdjustMatrices(d2, rank).dir, ProcFile(rank, "S"))
    ensures SameAt(AdjustMatrices(d1, rank).dir, AdjustMatrices(d2, rank).dir, ProcFile(rank, "A"))
  {
    var sFile, aFile := ProcFile(rank, "S"), ProcFile(rank, "A");
    ProcFileInjective(rank, "S", rank, "A");
    assert ReadCsv(d1, sFile) == ReadCsv(d2, sFile);
    if sFile in d1 && ReadCsv(d1, sFile).Ok? {
      var s := ReadCsv(d1, sFile).value;
      var w1, w2 := WriteCsv(d1, sFile, ScaleData(s, DivSqrt(s.rows))), WriteCsv(d2, sFile, ScaleData(s, DivSqrt(s.rows)));
      assert SameAt(w1, w2, aFile) && SameAt(w1, w2, sFile);
      assert ReadCsv(w1, aFile) == ReadCsv(w2, aFile);
    } else {
      assert ReadCsv(d1, aFile) == ReadCsv(d2, aFile);
    }
  }

  /** The ranks' rescaling keeps every name that is not one of their tables. */
  lemma {:induction false} AdjustRanksKeepsName(dir: Directory, rank: nat, size: nat, n: string)
    requires !IsRankTable(n, rank, size)
    ensures SameAt(AdjustRanks(dir, rank, size).dir, dir, n)
    decreases size - rank
  {
    if rank < size {
      var first := AdjustMatrices(dir, rank);
      AdjustMatricesResult(dir, rank);
      assert n != ProcFile(rank, "S") && n != ProcFile(rank, "A");
      if first.error.None? {
        AdjustRanksKeepsName(first.dir, rank + 1, size, n);
      }
    }
  }

  /** The ranks' rescaling neither adds nor removes a name. */
  lemma {:induction false} AdjustRanksKeys(dir: Directory, rank: nat, size: nat)
    ensures AdjustRanks(dir, rank, size).dir.Keys == dir.Keys
    decreases size - rank
  {
    if rank < size {
      AdjustMatricesResult(dir, rank);
      if AdjustMatrices(dir, rank).error.None? {
        AdjustRanksKeys(AdjustMatrices(dir, rank).dir, rank + 1, size);
      }
    }
  }

  /** The ranks before `r` leave rank `r`'s tables as they found them. */
  lemma EarlierRankKeeps(dir: Directory, rank: nat, r: nat)
    requires r != rank
    ensures SameAt(AdjustMatrices(dir, rank).dir, dir, ProcFile(r, "S"))
    ensures SameAt(AdjustMatrices(dir, rank).dir, dir, ProcFile(r, "A"))
  {
    AdjustMatricesResult(dir, rank);
    OtherRankTables(r, rank);
  }

  /**
    In a successful run every rank's rescaling, applied to the tables as they
    were before the run, succeeds, and the run leaves that rank's tables as
    that rescaling does.
   */
  lemma {:induction false} AdjustRanksOkAt(dir: Directory, rank: nat, size: nat, r: nat)
    requires AdjustRanks(dir, rank, size).error.None? && rank <= r < size
    ensures AdjustMatrices(dir, r).error.None?
    ensures SameAt(AdjustRanks(dir, rank, size).dir, AdjustMatrices(dir, r).dir, ProcFile(r, "S"))
    ensures SameAt(AdjustRanks(dir, rank, size).dir, AdjustMatrices(dir, r).dir, ProcFile(r, "A"))
    decreases size - rank
  {
    var d1 := AdjustMatrices(dir, rank).dir;
    if r == rank {
      forall t | t == "S" || t == "A" ensures !IsRankTable(ProcFile(rank, t), rank + 1, size) {
        forall r' | rank + 1 <= r' < size ensures ProcFile(rank, t) != ProcFile(r', "S") && ProcFile(rank, t) != ProcFile(r', "A") {
          OtherRankTables(r', rank);
        }
      }
      AdjustRanksKeepsName(d1, rank + 1, size, ProcFile(rank, "S"));
      AdjustRanksKeepsName(d1, rank + 1, size, ProcFile(rank, "A"));
    } else {
      EarlierRankKeeps(dir, rank, r);
      AdjustMatricesLocal(d1, dir, r);
      AdjustRanksOkAt(d1, rank + 1, size, r);
    }
  }

  /** When every rank's rescaling succeeds on the tables as they were, the run succeeds. */
  lemma {:induction false} AdjustRanksOkIf(dir: Directory, rank: nat, size: nat)
    requires forall r :: rank <= r < size ==> AdjustMatrices(dir, r).error.None?
    ensures AdjustRanks(dir, rank, size).error.None?
    decreases size - rank
  {
    if rank < size {
      var d1 := AdjustMatrices(dir, rank).dir;
      forall r | rank < r < size ensures AdjustMatrices(d1, r).error.None? {
        EarlierRankKeeps(dir, rank, r);
        AdjustMatricesLocal(d1, dir, r);
      }
      AdjustRanksOkIf(d1, rank + 1, size);
    }
  }

  /** A failed run stops with the error of the first rank whose rescaling fails. */
  lemma {:induction false} AdjustRanksFails(dir: Directory, rank: nat, size: nat)
    ensures var out := AdjustRanks(dir, rank, size);
      out.error.Some? ==>
        exists r :: rank <= r < size && AdjustMatrices(dir, r).error == out.error &&
                    forall r' :: rank <= r' < r ==> AdjustMatrices(dir, r').error.None?
    decreases size - rank
  {
    var out := AdjustRanks(dir, rank, size);
    if rank < size && AdjustMatrices(dir, rank).error.None? {
      var d1 := AdjustMatrices(dir, rank).dir;
      assert out == AdjustRanks(d1, rank + 1, size);
      AdjustRanksFails(d1, rank + 1, size);
      if out.error.Some? {
        var r :| rank + 1 <= r < size && AdjustMatrices(d1, r).error == out.error &&
                 forall r' :: rank + 1 <= r' < r ==> AdjustMatrices(d1, r').error.None?;
        ShiftAdjustFailure(dir, d1, rank, r, out.error);
      }
    }
  }

  /** A first failure among the ranks after `rank`, once `rank` succeeded, is a first failure from `rank` on. */
  lemma ShiftAdjustFailure(dir: Directory, d1: Directory, rank: nat, r: nat, e: Option<Error>)
    requires rank < r
    requires AdjustMatrices(dir, rank).error.None? && d1 == AdjustMatrices(dir, rank).dir
    requires AdjustMatrices(d1, r).error == e
    requires forall r' :: rank + 1 <= r' < r ==> AdjustMatrices(d1, r').error.None?
    ensures AdjustMatrices(dir, r).error == e
    ensures forall r' :: rank <= r' < r ==> AdjustMatrices(dir, r').error.None?
  {
    LaterErrors(dir, rank, r);
  }

  /** After rank `rank` rescaled its tables, each later rank would fail, or not, as before. */
  lemma LaterErrors(dir: Directory, rank: nat, r: nat)
    requires rank < r
    ensures forall r' :: rank < r' <= r ==>
      AdjustMatrices(AdjustMatrices(dir, rank).dir, r').error == AdjustMatrices(dir, r').error
  {
    var d1 := AdjustMatrices(dir, rank).dir;
    forall r' | rank < r' <= r ensures AdjustMatrices(d1, r').error == AdjustMatrices(dir, r').error {
      EarlierRankKeeps(dir, rank, r');
      AdjustMatricesLocal(d1, dir, r');
    }
  }

  /**
    Lines 96-98: the ranks rescale in turn. The run succeeds exactly when every
    rank's rescaling of the tables as they were succeeds, and then leaves each
    rank's tables as its own rescaling does and every other name as it was; a
    failed run carries the error of the first rank that failed.
   */
  lemma AdjustRanksResult(dir: Directory, rank: nat, size: nat)
    ensures var out := AdjustRanks(dir, rank, size);
      && out.dir.Keys == dir.Keys
      && (out.error.None? <==> forall r :: rank <= r < size ==> AdjustMatrices(dir, r).error.None?)
      && (out.error.None? ==> forall r :: rank <= r < size ==>
            SameAt(out.dir, AdjustMatrices(dir, r).dir, ProcFile(r, "S")) &&
            SameAt(out.dir, AdjustMatrices(dir, r).dir, ProcFile(r, "A")))
      && (out.error.Some? ==>
            exists r :: rank <= r < size && AdjustMatrices(dir, r).error == out.error &&
                        forall r' :: rank <= r' < r ==> AdjustMatrices(dir, r').error.None?)
      && (forall n :: !IsRankTable(n, rank, size) ==> SameAt(out.dir, dir, n))
  {
    AdjustRanksKeys(dir, rank, size);
    var out := AdjustRanks(dir, rank, size);
    if out.error.None? {
      forall r | rank <= r < size
        ensures AdjustMatrices(dir, r).error.None?
        ensures SameAt(out.dir, AdjustMatrices(dir, r).dir, ProcFile(r, "S"))
        ensures SameAt(out.dir, AdjustMatrices(dir, r).dir, ProcFile(r, "A"))
      {
        AdjustRanksOkAt(dir, rank, size, r);
      }
    } else if forall r :: rank <= r < size ==> AdjustMatrices(dir, r).error.None? {
      AdjustRanksOkIf(dir, rank, size);
    }
    AdjustRanksFails(dir, rank, size);
    forall n | !IsRankTable(n, rank, size) ensures SameAt(out.dir, dir, n) {
      AdjustRanksKeepsName(dir, rank, size, n);
    }
  }

  /**
    Lines 93-98: merge the S files, then the A files, then rescale. Each merge
    lists the directory afresh, so each gets its own listing.
   */
  function MergeMain(dir: Directory, listingS: seq<string>, listingA: seq<string>, size: nat): Outcome {
    var s := MergeAndCleanup(dir, listingS, "S", size);
    if s.error.Some? then s
    else
      var a := MergeAndCleanup(s.dir, listingA, "A", size);
      if a.error.Some? then a else AdjustRanks(a.dir, 0, size)
  }

  /**
    Lines 93-98 end to end. The script stops at the first stage that fails,
    with that stage's error (for the rescaling, the first failing rank's). On
    success each rank's S table is the merge of its slice of the S files, and
    its A table the merge of its slice of the A files as listed after the S
    merge, both rescaled as `AdjustMatrices` does.
   */
  lemma MergeMainResult(dir: Directory, listingS: seq<string>, listingA: seq<string>, size: nat)
    requires IsListing(dir, listingS)
    requires IsListing(MergeAndCleanup(dir, listingS, "S", size).dir, listingA)
    ensures var s := MergeAndCleanup(dir, listingS, "S", size);
      var a := MergeAndCleanup(s.dir, listingA, "A", size);
      var out := MergeMain(dir, listingS, listingA, size);
      && (s.error.Some? ==> out == s)
      && (s.error.None? && a.error.Some? ==> out == a)
      && (s.error.None? && a.error.None? && out.error.Some? ==>
            exists r :: 0 <= r < size && AdjustMatrices(a.dir, r).error == out.error &&
                        forall r' :: 0 <= r' < r ==> AdjustMatrices(a.dir, r').error.None?)
      && (out.error.None? ==>
            var filesS, filesA := SelectTmpFiles(listingS, "S"), SelectTmpFiles(listingA, "A");
            && MergePlan("S", |filesS|, size).Ok? && MergePlan("A", |filesA|, size).Ok?
            && forall q :: 0 <= q < size ==>
                 var sliceS := RankFiles(filesS, q, MergePlan("S", |filesS|, size).value.perRank);
                 var sliceA := RankFiles(filesA, q, MergePlan("A", |filesA|, size).value.perRank);
                 && MergedTable(dir, sliceS).Ok? && MergedTable(s.dir, sliceA).Ok?
                 && PairRescaled(out.dir, MergedTable(dir, sliceS).value, MergedTable(s.dir, sliceA).value, q))
  {
    var s := MergeAndCleanup(dir, listingS, "S", size);
    var a := MergeAndCleanup(s.dir, listingA, "A", size);
    if s.error.None? && a.error.None? {
      AdjustRanksFails(a.dir, 0, size);
    }
    if MergeMain(dir, listingS, listingA, size).error.None? {
      MergeMainOutputs(dir, listingS, listingA, size);
    }
  }

  /** Every rank's two tables after a successful run of the script. */
  lemma MergeMainOutputs(dir: Directory, listingS: seq<string>, listingA: seq<string>, size: nat)
    requires IsListing(dir, listingS)
    requires IsListing(MergeAndCleanup(dir, listingS, "S", size).dir, listingA)
    requires MergeMain(dir, listingS, listingA, size).error.None?
    ensures var filesS, filesA := SelectTmpFiles(listingS, "S"), SelectTmpFiles(listingA, "A");
      var sDir := MergeAndCleanup(dir, listingS, "S", size).dir;
      && MergePlan("S", |filesS|, size).Ok? && MergePlan("A", |filesA|, size).Ok?
      && forall q :: 0 <= q < size ==>
           var sliceS := RankFiles(filesS, q, MergePlan("S", |filesS|, size).value.perRank);
           var sliceA := RankFiles(filesA, q, MergePlan("A", |filesA|, size).value.perRank);
           && MergedTable(dir, sliceS).Ok? && MergedTable(sDir, sliceA).Ok?
           && PairRescaled(MergeMain(dir, listingS, listingA, size).dir,
                           MergedTable(dir, sliceS).value, MergedTable(sDir, sliceA).value, q)
  {
    var s := MergeAndCleanup(dir, listingS, "S", size);
    assert s.error.None?;
    assert MergeAndCleanup(s.dir, listingA, "A", size).error.None?;
    forall q | 0 <= q < size
      ensures var filesS, filesA := SelectTmpFiles(listingS, "S"), SelectTmpFiles(listingA, "A");
        && MergePlan("S", |filesS|, size).Ok? && MergePlan("A", |filesA|, size).Ok?
        && var sliceS := RankFiles(filesS, q, MergePlan("S", |filesS|, size).value.perRank);
           var sliceA := RankFiles(filesA, q, MergePlan("A", |filesA|, size).value.perRank);
           && MergedTable(dir, sliceS).Ok? && MergedTable(s.dir, sliceA).Ok?
           && PairRescaled(MergeMain(dir, listingS, listingA, size).dir,
                           MergedTable(dir, sliceS).value, MergedTable(s.dir, sliceA).value, q)
    {
      MergeMainRank(dir, listingS, listingA, size, q);
    }
  }

  /** Rank `q`'s two tables after a successful run of the script. */
  lemma MergeMainRank(dir: Directory, listingS: seq<string>, listingA: seq<string>, size: nat, q: nat)
    requires IsListing(dir, listingS)
    requires IsListing(MergeAndCleanup(dir, listingS, "S", size).dir, listingA)
    requires MergeMain(dir, listingS, listingA, size).error.None? && q < size
    ensures var filesS, filesA := SelectTmpFiles(listingS, "S"), SelectTmpFiles(listingA, "A");
      && MergePlan("S", |filesS|, size).Ok? && MergePlan("A", |filesA|, size).Ok?
      && var sliceS := RankFiles(filesS, q, MergePlan("S", |filesS|, size).value.perRank);
         var sliceA := RankFiles(filesA, q, MergePlan("A", |filesA|, size).value.perRank);
         var sDir := MergeAndCleanup(dir, listingS, "S", size).dir;
         && MergedTable(dir, sliceS).Ok? && MergedTable(sDir, sliceA).Ok?
         && PairRescaled(MergeMain(dir, listingS, listingA, size).dir,
                         MergedTable(dir, sliceS).value, MergedTable(sDir, sliceA).value, q)
  {
    var s := MergeAndCleanup(dir, listingS, "S", size);
    assert s.error.None?;
    var a := MergeAndCleanup(s.dir, listingA, "A", size);
    assert a.error.None?;
    var mS := MergedS(dir, listingS, size, q);
    STableNotA(q, size);
    var mA := MergedA(s.dir, listingA, size, q, ProcFile(q, "S"));
    RescaledAt(a.dir, size, q, mS, mA);
  }

  /** A rank's S table is neither an A input nor any rank's A output. */
  lemma STableNotA(q: nat, size: nat)
    ensures !MatchesTmp(ProcFile(q, "S"), "A") && forall r :: 0 <= r < size ==> ProcFile(q, "S") != ProcFile(r, "A")
  {
    OutputNotTmp(q, "S", "A");
    forall r | 0 <= r < size ensures ProcFile(q, "S") != ProcFile(r, "A") {
      ProcFileInjective(q, "S", r, "A");
    }
  }

  /** After a successful merge of one file type, rank `q`'s output holds its slice's merge. */
  lemma MergedS(dir: Directory, listing: seq<string>, size: nat, q: nat) returns (m: Table)
    requires IsListing(dir, listing)
    requires MergeAndCleanup(dir, listing, "S", size).error.None? && q < size
    ensures var files := SelectTmpFiles(listing, "S");
      && MergePlan("S", |files|, size).Ok?
      && MergedTable(dir, RankFiles(files, q, MergePlan("S", |files|, size).value.perRank)) == Ok(m)
      && var out := MergeAndCleanup(dir, listing, "S", size).dir;
         ProcFile(q, "S") in out && out[ProcFile(q, "S")] == File(Csv(m))
  {
    var files := SelectTmpFiles(listing, "S");
    var plan := MergePlan("S", |files|, size).value;
    MergeAndCleanupResult(dir, listing, "S", size, files, plan);
    m := MergedTable(dir, RankFiles(files, q, plan.perRank)).value;
  }

  /**
    After a successful merge of the A files, rank `q`'s A output holds its
    slice's merge, and a table `keep` that is neither an A input nor an A
    output is left as it was.
   */
  lemma MergedA(dir: Directory, listing: seq<string>, size: nat, q: nat, keep: string) returns (m: Table)
    requires IsListing(dir, listing)
    requires MergeAndCleanup(dir, listing, "A", size).error.None? && q < size
    requires !MatchesTmp(keep, "A") && forall r :: 0 <= r < size ==> keep != ProcFile(r, "A")
    ensures var files := SelectTmpFiles(listing, "A");
      && MergePlan("A", |files|, size).Ok?
      && MergedTable(dir, RankFiles(files, q, MergePlan("A", |files|, size).value.perRank)) == Ok(m)
      && var out := MergeAndCleanup(dir, listing, "A", size).dir;
         && ProcFile(q, "A") in out && out[ProcFile(q, "A")] == File(Csv(m))
         && (keep in dir ==> keep in out && out[keep] == dir[keep])
  {
    var files := SelectTmpFiles(listing, "A");
    var plan := MergePlan("A", |files|, size).value;
    MergeAndCleanupResult(dir, listing, "A", size, files, plan);
    m := MergedTable(dir, RankFiles(files, q, plan.perRank)).value;
    assert keep !in files;
    assert !IsOutput(keep, "A", 0, size);
  }

  /** Rescaling the ranks' merged tables: rank `q` ends up with its tables rescaled by its S table's row count. */
  lemma RescaledAt(dir: Directory, size: nat, q: nat, mS: Table, mA: Table)
    requires AdjustRanks(dir, 0, size).error.None? && q < size
    requires ProcFile(q, "S") in dir && dir[ProcFile(q, "S")] == File(Csv(mS))
    requires ProcFile(q, "A") in dir && dir[ProcFile(q, "A")] == File(Csv(mA))
    ensures PairRescaled(AdjustRanks(dir, 0, size).dir, mS, mA, q)
  {
    AdjustRanksOkAt(dir, 0, size, q);
    AdjustMatricesResult(dir, q);
  }
}
