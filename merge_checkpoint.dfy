/**
  The older merge script (optICA_updated_scripts/.ipynb_checkpoints/
  Merge_components_files-checkpoint.py): the per-run tables of each type are
  sorted as strings and cut into `core_count` groups of ceil(n / core_count),
  each group is concatenated into `proc_<core>_<type>.csv`, each core's S and A
  tables are rescaled by the S table's row count, and every regular file whose
  path contains `proc_tmp_` is deleted.
 */
module MergeCheckpoint {
  import opened Wrappers
  import opened Strings
  import opened Lists
  import opened FileSystem
  import opened Frames
  import opened Arith

  const TmpMarker: string := "proc_tmp_"

  // ---------------------------------------------------------------------------
  // Selecting and grouping the per-run tables (lines 27-38)

  /** Line 30: a name containing `proc_tmp_` and ending in `_<type>.csv`. */
  predicate IsTmpFile(f: string, fileType: string) {
    Contains(f, TmpMarker) && EndsWith(f, "_" + fileType + ".csv")
  }

  /** Line 30: the matching names, sorted with the default order on `str`. */
  function SelectFiles(listing: seq<string>, fileType: string): (files: seq<string>)
    ensures multiset(files) == multiset(Filter(listing, f => IsTmpFile(f, fileType)))
    ensures forall f :: f in files <==> f in listing && IsTmpFile(f, fileType)
    ensures forall i, j :: 0 <= i < j < |files| ==> LexLe(files[i], files[j])
    ensures Distinct(listing) ==> Distinct(files)
  {
    ByTextTotalPreorder();
    var fs := Filter(listing, f => IsTmpFile(f, fileType));
    var sorted := SortBy(fs, ByText());
    SameMembers(sorted, fs);
    assert forall i, j :: 0 <= i < j < |sorted| ==> ByText()(sorted[i], sorted[j]);
    sorted
  }

  /** The order is on characters, not on run numbers: run 10 sorts before run 2. */
  lemma SortIsTextual()
    ensures LexLe("proc_tmp_10_S.csv", "proc_tmp_2_S.csv")
    ensures !LexLe("proc_tmp_2_S.csv", "proc_tmp_10_S.csv")
  {
    assert "proc_tmp_10_S.csv" == TmpMarker + "10_S.csv";
    assert "proc_tmp_2_S.csv" == TmpMarker + "2_S.csv";
    LexLePrefix(TmpMarker, "10_S.csv", "2_S.csv");
    LexLePrefix(TmpMarker, "2_S.csv", "10_S.csv");
  }

  /** A per-run table name `proc_tmp_<run>_<type>.csv` is selected for its type. */
  lemma TmpFileName(rest: string, fileType: string)
    requires EndsWith(rest, "_" + fileType + ".csv")
    ensures IsTmpFile(TmpMarker + rest, fileType)
  {
    var suffix := "_" + fileType + ".csv";
    var f := TmpMarker + rest;
    assert f[..|TmpMarker|] == TmpMarker;
    assert OccursAt(f, TmpMarker, 0);
    assert f[|f| - |suffix|..] == rest[|rest| - |suffix|..];
  }

  /** Two selected names come out in text order, whichever order they are listed in. */
  lemma SelectTwo(x: string, y: string, fileType: string, listing: seq<string>)
    requires IsTmpFile(x, fileType) && IsTmpFile(y, fileType) && x != y && LexLe(x, y)
    requires listing == [x, y] || listing == [y, x]
    ensures SelectFiles(listing, fileType) == [x, y]
  {
    var files := SelectFiles(listing, fileType);
    assert x in listing && y in listing;
    assert |files| <= 2 by {
      assert |multiset(files)| == |multiset(Filter(listing, f => IsTmpFile(f, fileType)))|;
    }
    SortedPair(files, x, y);
  }

  /** A text-sorted list of at most two names holding `x` and `y` is `[x, y]` when `x` sorts first. */
  lemma SortedPair(files: seq<string>, x: string, y: string)
    requires x != y && LexLe(x, y) && |files| <= 2 && x in files && y in files
    requires forall i, j :: 0 <= i < j < |files| ==> LexLe(files[i], files[j])
    ensures files == [x, y]
  {
    assert files == [files[0], files[1]];
    if files[0] == y {
      LexLeAntisymmetric(x, y);
    }
  }

  /** Listed in either order, run 10's table is selected before run 2's. */
  lemma SelectedTextually(listing: seq<string>)
    requires listing == ["proc_tmp_2_S.csv", "proc_tmp_10_S.csv"] || listing == ["proc_tmp_10_S.csv", "proc_tmp_2_S.csv"]
    ensures SelectFiles(listing, "S") == ["proc_tmp_10_S.csv", "proc_tmp_2_S.csv"]
  {
    var ten, two := "proc_tmp_10_S.csv", "proc_tmp_2_S.csv";
    assert ten == TmpMarker + "10_S.csv";
    assert two == TmpMarker + "2_S.csv";
    assert "10_S.csv"[2..] == "_S.csv" && "2_S.csv"[1..] == "_S.csv";
    TmpFileName("10_S.csv", "S");
    TmpFileName("2_S.csv", "S");
    SortIsTextual();
    SelectTwo(ten, two, "S", listing);
  }

  /** `k` groups of `cores` files is the least size that holds all `n` files. */
  predicate IsCeiling(k: nat, n: nat, cores: nat) {
    k * cores >= n && (k == 0 || (k - 1) * cores < n)
  }

  /**
    Line 33: `int(math.ceil(len(files) / float(core_count)))`, the least group
    size whose `core_count` groups hold every file. Dividing by zero raises.
   */
  function FilesPerCore(n: nat, cores: nat): (r: Result<nat, Error>)
    ensures r.Err? <==> cores == 0
    ensures r.Err? ==> r.error == DivisionByZero
    ensures r.Ok? ==> IsCeiling(r.value, n, cores)
  {
    if cores == 0 then Err(DivisionByZero)
    else
      CeilDiv(n, cores);
      Ok((n + cores - 1) / cores)
  }

  /** Lines 36-38: `files[core * k : core * k + k]`, clipped to the list. */
  function CoreFiles(files: seq<string>, k: nat, core: nat): seq<string> {
    Slice(files, core * k, core * k + k)
  }

  /** A core's group is empty exactly when it starts at or past the end of the list. */
  lemma CoreFilesEmpty(files: seq<string>, k: nat, core: nat)
    requires k >= 1
    ensures CoreFiles(files, k, core) == [] <==> core * k >= |files|
  {
  }

  /** The groups of cores 0 .. c-1, one after the other. */
  function JoinedGroups(files: seq<string>, k: nat, c: nat): seq<string> {
    if c == 0 then [] else JoinedGroups(files, k, c - 1) + CoreFiles(files, k, c - 1)
  }

  lemma {:induction false} JoinedGroupsPrefix(files: seq<string>, k: nat, c: nat)
    ensures JoinedGroups(files, k, c) == files[..Min(c * k, |files|)]
  {
    if c > 0 {
      JoinedGroupsPrefix(files, k, c - 1);
      assert (c - 1) * k + k == c * k;
      var lo, hi := Min((c - 1) * k, |files|), Min(c * k, |files|);
      assert files[..lo] + files[lo..hi] == files[..hi];
    }
  }

  /**
    With ceiling-sized groups, their concatenation in core order is the whole
    sorted list: nothing is left over and nothing repeats.
   */
  lemma GroupsCoverFiles(files: seq<string>, k: nat, cores: nat)
    requires IsCeiling(k, |files|, cores)
    ensures JoinedGroups(files, k, cores) == files
  {
    JoinedGroupsPrefix(files, k, cores);
  }

  /** Position `i` belongs to the group of exactly one core. */
  lemma GroupOwner(files: seq<string>, k: nat, cores: nat, i: nat) returns (core: nat)
    requires IsCeiling(k, |files|, cores) && i < |files|
    ensures && core < cores && core * k <= i < core * k + k
            && CoreFiles(files, k, core)[i - core * k] == files[i]
            && forall other: nat :: other * k <= i < other * k + k ==> other == core
  {
    assert k >= 1;
    core := i / k;
    RowOf(i, k, core);
    forall other: nat | other * k <= i < other * k + k ensures other == core {
      RowOf(i, k, other);
    }
  }

  /**
    With ceiling-sized groups only the last core can be left without files:
    every group is non-empty exactly when the last one starts inside the list.
   */
  lemma {:induction false} GroupsNonEmpty(files: seq<string>, k: nat, cores: nat)
    requires IsCeiling(k, |files|, cores) && cores >= 1
    ensures (forall c :: 0 <= c < cores ==> CoreFiles(files, k, c) != []) <==> (cores - 1) * k < |files|
  {
    if (cores - 1) * k < |files| {
      assert k >= 1;
      forall c | 0 <= c < cores ensures CoreFiles(files, k, c) != [] {
        MulMonotone(cores - 1, c, k);
        CoreFilesEmpty(files, k, c);
      }
    } else {
      if k >= 1 {
        CoreFilesEmpty(files, k, cores - 1);
      }
      assert CoreFiles(files, k, cores - 1) == [];
    }
  }

  /**
    Five tables on four cores: groups of two leave the fourth core nothing, and
    `pd.concat` of an empty list raises.
   */
  lemma EmptyGroupRaises(dir: Directory, files: seq<string>)
    requires |files| == 5
    ensures FilesPerCore(5, 4) == Ok(2)
    ensures CoreFiles(files, 2, 3) == []
    ensures MergedTable(dir, CoreFiles(files, 2, 3)) == Err(NothingToConcatenate)
  {
    assert (5 + 4 - 1) / 4 == 2;
  }

  // ---------------------------------------------------------------------------
  // Writing one merged table per core (lines 35-46)

  /** The merged name `proc_<core>_<type>.csv` never holds the marker: it has no `m`. */
  lemma ProcFileNotTmp(core: nat, fileType: string)
    requires fileType == "S" || fileType == "A"
    ensures !Contains(ProcFile(core, fileType), TmpMarker)
  {
    var p := ProcFile(core, fileType);
    assert p == "proc_" + NatToString(core) + "_" + fileType + ".csv";
    forall j | 0 <= j < |p| ensures p[j] != 'm' {
      var d := NatToString(core);
      if j < 5 {
      } else if j < 5 + |d| {
        assert p[j] == d[j - 5];
      } else {
        assert p[j] == ("_" + fileType + ".csv")[j - 5 - |d|];
      }
    }
    forall i | 0 <= i <= |p| - |TmpMarker| ensures !OccursAt(p, TmpMarker, i) {
      assert p[i..i + |TmpMarker|][7] == p[i + 7];
    }
  }

  /**
    Lines 38-46 for one core: read and concatenate its group, then write the
    result, which raises if the output name is a folder.
   */
  function MergeCore(dir: Directory, files: seq<string>, fileType: string, k: nat, core: nat): (r: Result<Directory, Error>)
  {
    var merged :- MergedTable(dir, CoreFiles(files, k, core));
    Save(dir, ProcFile(core, fileType), Csv(merged))
  }

  /** The loop of lines 35-46 from `core` on; the first failure stops the script. */
  function MergeCoresFrom(dir: Directory, files: seq<string>, fileType: string, k: nat, core: nat, cores: nat): Outcome
    decreases cores - core
  {
    if core >= cores then Outcome(dir, None)
    else match MergeCore(dir, files, fileType, k, core)
      case Err(e) => Outcome(dir, Some(e))
      case Ok(d) => MergeCoresFrom(d, files, fileType, k, core + 1, cores)
  }

  /** `merge_files(core_count, tmp_dir, file_type)` on the listing taken at line 27. */
  function MergeFiles(dir: Directory, listing: seq<string>, fileType: string, cores: nat): Outcome {
    var files := SelectFiles(listing, fileType);
    match FilesPerCore(|files|, cores)
    case Err(e) => Outcome(dir, Some(e))
    case Ok(k) => MergeCoresFrom(dir, files, fileType, k, 0, cores)
  }

  method MergeFilesLoop(dir: Directory, listing: seq<string>, fileType: string, cores: nat) returns (out: Outcome)
    ensures out == MergeFiles(dir, listing, fileType, cores)
  {
    var files := SelectFiles(listing, fileType);
    var perCore := FilesPerCore(|files|, cores);
    if perCore.Err? {
      return Outcome(dir, Some(perCore.error));
    }
    var k := perCore.value;
    var d := dir;
    for core := 0 to cores
      invariant MergeCoresFrom(d, files, fileType, k, core, cores) == MergeCoresFrom(dir, files, fileType, k, 0, cores)
    {
      var merged := MergedTable(d, CoreFiles(files, k, core));
      if merged.Err? {
        return Outcome(d, Some(merged.error));
      }
      var saved := Save(d, ProcFile(core, fileType), Csv(merged.value));
      if saved.Err? {
        return Outcome(d, Some(saved.error));
      }
      d := saved.value;
    }
    out := Outcome(d, None);
  }

  /** `name` is the output of one of the cores `core .. cores-1`. */
  predicate IsCoreOutput(name: string, fileType: string, core: nat, cores: nat) {
    exists c: nat :: core <= c < cores && name == ProcFile(c, fileType)
  }

  /**
    The cores from `core` on succeed exactly when each of their groups can be
    merged from the original files and none of their output names is a folder;
    then each core's output holds its group's merged table and no other name
    changes.
   */
  lemma MergeCoresFromResult(dir: Directory, files: seq<string>, fileType: string, k: nat, core: nat, cores: nat)
    requires fileType == "S" || fileType == "A"
    requires forall f :: f in files ==> Contains(f, TmpMarker)
    ensures var out := MergeCoresFrom(dir, files, fileType, k, core, cores);
            out.error.None? <==>
              forall c :: core <= c < cores ==>
                MergedTable(dir, CoreFiles(files, k, c)).Ok? && Writable(dir, ProcFile(c, fileType))
    ensures var out := MergeCoresFrom(dir, files, fileType, k, core, cores);
            out.error.None? ==>
              && (forall c :: core <= c < cores ==>
                    ProcFile(c, fileType) in out.dir &&
                    out.dir[ProcFile(c, fileType)] == File(Csv(MergedTable(dir, CoreFiles(files, k, c)).value)))
              && (forall n :: n in dir && !IsCoreOutput(n, fileType, core, cores) ==> n in out.dir && out.dir[n] == dir[n])
              && (forall n :: n in out.dir ==> n in dir || IsCoreOutput(n, fileType, core, cores))
  {
    MergeCoresSucceeds(dir, files, fileType, k, core, cores);
    MergeCoresOutputs(dir, files, fileType, k, core, cores);
    MergeCoresFrame(dir, files, fileType, k, core, cores);
  }

  /**
    Writing core `core`'s output leaves the merges of the later groups, and
    whether their outputs can be written, as they were.
   */
  lemma MergeCoreKeepsLater(dir: Directory, d: Directory, files: seq<string>, fileType: string, k: nat, core: nat,
                            cores: nat)
    requires fileType == "S" || fileType == "A"
    requires forall f :: f in files ==> Contains(f, TmpMarker)
    requires MergeCore(dir, files, fileType, k, core) == Ok(d)
    ensures forall c :: core < c < cores ==> MergedTable(d, CoreFiles(files, k, c)) == MergedTable(dir, CoreFiles(files, k, c))
    ensures forall c :: core < c < cores ==> Writable(d, ProcFile(c, fileType)) == Writable(dir, ProcFile(c, fileType))
  {
    var here := ProcFile(core, fileType);
    ProcFileNotTmp(core, fileType);
    var m := MergedTable(dir, CoreFiles(files, k, core)).value;
    assert d == dir[here := File(Csv(m))];
    forall c | core < c < cores
      ensures MergedTable(d, CoreFiles(files, k, c)) == MergedTable(dir, CoreFiles(files, k, c))
    {
      assert here !in CoreFiles(files, k, c);
      LoadFromUnaffected(dir, CoreFiles(files, k, c), 0, here, File(Csv(m)));
    }
    forall c | core < c < cores ensures here != ProcFile(c, fileType) {
      ProcFileInjective(core, fileType, c, fileType);
    }
  }

  /**
    The cores from `core` on succeed exactly when each of their groups merges
    from the original files and none of their output names is a folder.
   */
  lemma MergeCoresSucceeds(dir: Directory, files: seq<string>, fileType: string, k: nat,
                                              core: nat, cores: nat)
    requires fileType == "S" || fileType == "A"
    requires forall f :: f in files ==> Contains(f, TmpMarker)
    ensures MergeCoresFrom(dir, files, fileType, k, core, cores).error.None? <==>
            forall c :: core <= c < cores ==>
              MergedTable(dir, CoreFiles(files, k, c)).Ok? && Writable(dir, ProcFile(c, fileType))
  {
    if MergeCoresFrom(dir, files, fileType, k, core, cores).error.None? {
      forall c | core <= c < cores
        ensures MergedTable(dir, CoreFiles(files, k, c)).Ok? && Writable(dir, ProcFile(c, fileType))
      {
        MergeCoresOkAt(dir, files, fileType, k, core, cores, c);
      }
    } else if forall c :: core <= c < cores ==>
                MergedTable(dir, CoreFiles(files, k, c)).Ok? && Writable(dir, ProcFile(c, fileType)) {
      MergeCoresOkIf(dir, files, fileType, k, core, cores);
    }
  }

  /** In a successful run, core `c`'s group merges from the original files and its output was no folder. */
  lemma {:induction false} MergeCoresOkAt(dir: Directory, files: seq<string>, fileType: string, k: nat,
                                          core: nat, cores: nat, c: nat)
    requires fileType == "S" || fileType == "A"
    requires forall f :: f in files ==> Contains(f, TmpMarker)
    requires MergeCoresFrom(dir, files, fileType, k, core, cores).error.None? && core <= c < cores
    ensures MergedTable(dir, CoreFiles(files, k, c)).Ok? && Writable(dir, ProcFile(c, fileType))
    decreases cores - core
  {
    var r := MergeCore(dir, files, fileType, k, core);
    if c > core {
      MergeCoreKeepsLater(dir, r.value, files, fileType, k, core, cores);
      MergeCoresOkAt(r.value, files, fileType, k, core + 1, cores, c);
    }
  }

  /** When every group merges from the original files and no output is a folder, the run succeeds. */
  lemma {:induction false} MergeCoresOkIf(dir: Directory, files: seq<string>, fileType: string, k: nat,
                                          core: nat, cores: nat)
    requires fileType == "S" || fileType == "A"
    requires forall f :: f in files ==> Contains(f, TmpMarker)
    requires forall c :: core <= c < cores ==>
      MergedTable(dir, CoreFiles(files, k, c)).Ok? && Writable(dir, ProcFile(c, fileType))
    ensures MergeCoresFrom(dir, files, fileType, k, core, cores).error.None?
    decreases cores - core
  {
    if core < cores {
      var r := MergeCore(dir, files, fileType, k, core);
      assert MergedTable(dir, CoreFiles(files, k, core)).Ok? && Writable(dir, ProcFile(core, fileType));
      MergeCoreKeepsLater(dir, r.value, files, fileType, k, core, cores);
      MergeCoresOkIf(r.value, files, fileType, k, core + 1, cores);
    }
  }

  /** Only the outputs of cores `core .. cores-1` are written, whether or not the run succeeds. */
  lemma {:induction false} MergeCoresFrame(dir: Directory, files: seq<string>, fileType: string, k: nat,
                                           core: nat, cores: nat)
    ensures var out := MergeCoresFrom(dir, files, fileType, k, core, cores);
            && (forall n :: n in dir && !IsCoreOutput(n, fileType, core, cores) ==> n in out.dir && out.dir[n] == dir[n])
            && (forall n :: n in out.dir ==> n in dir || IsCoreOutput(n, fileType, core, cores))
    decreases cores - core
  {
    if core < cores {
      var r := MergeCore(dir, files, fileType, k, core);
      if r.Ok? {
        var here := ProcFile(core, fileType);
        MergeCoresFrame(r.value, files, fileType, k, core + 1, cores);
        var out := MergeCoresFrom(r.value, files, fileType, k, core + 1, cores);
        forall n | n in dir && !IsCoreOutput(n, fileType, core, cores)
          ensures n in out.dir && out.dir[n] == dir[n]
        {
          assert n != here;
          assert !IsCoreOutput(n, fileType, core + 1, cores);
        }
        forall n | n in out.dir ensures n in dir || IsCoreOutput(n, fileType, core, cores) {
          if n == here {
            assert IsCoreOutput(n, fileType, core, cores);
          } else if IsCoreOutput(n, fileType, core + 1, cores) {
            var c: nat :| core + 1 <= c < cores && n == ProcFile(c, fileType);
            assert IsCoreOutput(n, fileType, core, cores);
          }
        }
      }
    }
  }

  /** On success each core's output holds its group's merge of the original files. */
  lemma {:induction false} MergeCoresOutputs(dir: Directory, files: seq<string>, fileType: string, k: nat,
                                             core: nat, cores: nat)
    requires fileType == "S" || fileType == "A"
    requires forall f :: f in files ==> Contains(f, TmpMarker)
    ensures var out := MergeCoresFrom(dir, files, fileType, k, core, cores);
            out.error.None? ==>
              forall c :: core <= c < cores ==>
                MergedTable(dir, CoreFiles(files, k, c)).Ok? &&
                ProcFile(c, fileType) in out.dir &&
                out.dir[ProcFile(c, fileType)] == File(Csv(MergedTable(dir, CoreFiles(files, k, c)).value))
    decreases cores - core
  {
    if core < cores {
      var r := MergeCore(dir, files, fileType, k, core);
      if r.Ok? {
        var here := ProcFile(core, fileType);
        MergeCoreKeepsLater(dir, r.value, files, fileType, k, core, cores);
        MergeCoresOutputs(r.value, files, fileType, k, core + 1, cores);
        MergeCoresFrame(r.value, files, fileType, k, core + 1, cores);
        assert here in r.value;
        assert !IsCoreOutput(here, fileType, core + 1, cores) by {
          forall c | core + 1 <= c < cores ensures here != ProcFile(c, fileType) {
            ProcFileInjective(core, fileType, c, fileType);
          }
        }
      }
    }
  }

  /**
    With ceiling-sized groups, every core's group can be merged exactly when
    the last group is not empty and every file can be read.
   */
  lemma GroupsMergeable(dir: Directory, files: seq<string>, k: nat, cores: nat)
    requires IsCeiling(k, |files|, cores) && cores >= 1
    ensures (forall c :: 0 <= c < cores ==> MergedTable(dir, CoreFiles(files, k, c)).Ok?) <==>
            (cores - 1) * k < |files| && forall f :: f in files ==> ReadCsv(dir, f).Ok?
  {
    GroupsNonEmpty(files, k, cores);
    forall c | 0 <= c < cores
      ensures MergedTable(dir, CoreFiles(files, k, c)).Ok? <==>
              CoreFiles(files, k, c) != [] && forall j :: 0 <= j < |CoreFiles(files, k, c)| ==> ReadCsv(dir, CoreFiles(files, k, c)[j]).Ok?
    {
      MergedTableShape(dir, CoreFiles(files, k, c));
    }
    GroupsReadable(dir, files, k, cores);
  }

  /** Every file in every group can be read exactly when every selected file can. */
  lemma GroupsReadable(dir: Directory, files: seq<string>, k: nat, cores: nat)
    requires IsCeiling(k, |files|, cores)
    ensures (forall c, j :: 0 <= c < cores && 0 <= j < |CoreFiles(files, k, c)| ==> ReadCsv(dir, CoreFiles(files, k, c)[j]).Ok?) <==>
            forall f :: f in files ==> ReadCsv(dir, f).Ok?
  {
    if exists f :: f in files && ReadCsv(dir, f).Err? {
      var f :| f in files && ReadCsv(dir, f).Err?;
      var i :| 0 <= i < |files| && files[i] == f;
      var c := GroupOwner(files, k, cores, i);
      assert CoreFiles(files, k, c)[i - c * k] == f;
    } else {
      forall c, j | 0 <= c < cores && 0 <= j < |CoreFiles(files, k, c)| ensures ReadCsv(dir, CoreFiles(files, k, c)[j]).Ok? {
        CoreFileIn(files, k, c, j);
      }
    }
  }

  lemma CoreFileIn(files: seq<string>, k: nat, c: nat, j: nat)
    requires j < |CoreFiles(files, k, c)|
    ensures CoreFiles(files, k, c)[j] in files
  {
    var start := c * k;
    assert CoreFiles(files, k, c)[j] == files[start + j];
  }

  /**
    Lines 27-46: merging succeeds exactly when there is at least one core, the
    last core's group is not empty (with ceiling-sized groups it is the only
    one that can be), every selected table can be read and no core's output
    name is a folder.
   */
  lemma MergeFilesSucceeds(dir: Directory, listing: seq<string>, fileType: string, cores: nat)
    requires fileType == "S" || fileType == "A"
    ensures var files := SelectFiles(listing, fileType);
            MergeFiles(dir, listing, fileType, cores).error.None? <==>
              && cores >= 1
              && (cores - 1) * FilesPerCore(|files|, cores).value < |files|
              && (forall f :: f in files ==> ReadCsv(dir, f).Ok?)
              && forall c :: 0 <= c < cores ==> Writable(dir, ProcFile(c, fileType))
  {
    if cores >= 1 {
      var files := SelectFiles(listing, fileType);
      var k := FilesPerCore(|files|, cores).value;
      MergeCoresFromResult(dir, files, fileType, k, 0, cores);
      GroupsMergeable(dir, files, k, cores);
    }
  }

  /**
    After a successful merge each core's output holds its group's columns: one
    index column plus the data columns of every table in the group; no other
    name changes.
   */
  lemma MergeFilesOutputs(dir: Directory, listing: seq<string>, fileType: string, cores: nat)
    requires fileType == "S" || fileType == "A"
    requires MergeFiles(dir, listing, fileType, cores).error.None?
    ensures var files := SelectFiles(listing, fileType);
            var out := MergeFiles(dir, listing, fileType, cores);
            var k := FilesPerCore(|files|, cores).value;
            && (forall c :: 0 <= c < cores ==>
                  && MergedTable(dir, CoreFiles(files, k, c)).Ok?
                  && var m := MergedTable(dir, CoreFiles(files, k, c)).value;
                  && ProcFile(c, fileType) in out.dir && out.dir[ProcFile(c, fileType)] == File(Csv(m))
                  && (forall j :: 0 <= j < |CoreFiles(files, k, c)| ==> ReadCsv(dir, CoreFiles(files, k, c)[j]).Ok?)
                  && |m.columns| == 1 + TotalColumns(ReadTables(dir, CoreFiles(files, k, c))) - |CoreFiles(files, k, c)|)
            && (forall n :: n in dir && !IsCoreOutput(n, fileType, 0, cores) ==> n in out.dir && out.dir[n] == dir[n])
  {
    var files := SelectFiles(listing, fileType);
    var k := FilesPerCore(|files|, cores).value;
    MergeCoresFromResult(dir, files, fileType, k, 0, cores);
    forall c | 0 <= c < cores
      ensures forall j :: 0 <= j < |CoreFiles(files, k, c)| ==> ReadCsv(dir, CoreFiles(files, k, c)[j]).Ok?
      ensures var m := MergedTable(dir, CoreFiles(files, k, c)).value;
              |m.columns| == 1 + TotalColumns(ReadTables(dir, CoreFiles(files, k, c))) - |CoreFiles(files, k, c)|
    {
      MergedTableShape(dir, CoreFiles(files, k, c));
    }
  }

  // ---------------------------------------------------------------------------
  // Rescaling each core's S and A tables (lines 7-20)

  /**
    Lines 9-20 for one core: S is read, divided by the square root of its row
    count and written; A is then read and multiplied by the square root of
    that same count. Both files must exist.
   */
  function AdjustCore(dir: Directory, core: nat): Outcome {
    var sFile, aFile := ProcFile(core, "S"), ProcFile(core, "A");
    match ReadCsv(dir, sFile)
    case Err(e) => Outcome(dir, Some(e))
    case Ok(s) =>
      var d := WriteCsv(dir, sFile, ScaleData(s, DivSqrt(s.rows)));
      match ReadCsv(d, aFile)
      case Err(e) => Outcome(d, Some(e))
      case Ok(a) => Outcome(WriteCsv(d, aFile, ScaleData(a, MulSqrt(s.rows))), None)
  }

  /** The loop of line 8 from `core` on. */
  function AdjustFrom(dir: Directory, core: nat, cores: nat): Outcome
    decreases cores - core
  {
    if core >= cores then Outcome(dir, None)
    else
      var o := AdjustCore(dir, core);
      if o.error.Some? then o else AdjustFrom(o.dir, core + 1, cores)
  }

  /** `adjust_matrices(core_count, tmp_dir)` */
  method AdjustMatrices(dir: Directory, cores: nat) returns (out: Outcome)
    ensures out == AdjustFrom(dir, 0, cores)
  {
    var d := dir;
    for core := 0 to cores
      invariant AdjustFrom(d, core, cores) == AdjustFrom(dir, 0, cores)
    {
      var sFile, aFile := ProcFile(core, "S"), ProcFile(core, "A");
      var s := ReadCsv(d, sFile);
      if s.Err? {
        return Outcome(d, Some(s.error));
      }
      var numRows := s.value.rows;
      d := WriteCsv(d, sFile, ScaleData(s.value, DivSqrt(numRows)));
      var a := ReadCsv(d, aFile);
      if a.Err? {
        return Outcome(d, Some(a.error));
      }
      d := WriteCsv(d, aFile, ScaleData(a.value, MulSqrt(numRows)));
    }
    out := Outcome(d, None);
  }

  /** `name` is the S or A table of one of the cores `core .. cores-1`. */
  predicate IsCoreTable(name: string, core: nat, cores: nat) {
    exists c: nat :: core <= c < cores && (name == ProcFile(c, "S") || name == ProcFile(c, "A"))
  }

  /** One core's step: both reads come from the tables as they were before it. */
  lemma AdjustCoreResult(dir: Directory, core: nat)
    ensures var sFile, aFile := ProcFile(core, "S"), ProcFile(core, "A");
            var o := AdjustCore(dir, core);
            && (o.error.None? <==> ReadCsv(dir, sFile).Ok? && ReadCsv(dir, aFile).Ok?)
            && (o.error.None? ==>
                  var s, a := ReadCsv(dir, sFile).value, ReadCsv(dir, aFile).value;
                  o.dir == dir[sFile := File(Csv(ScaleData(s, DivSqrt(s.rows))))][aFile := File(Csv(ScaleData(a, MulSqrt(s.rows))))])
  {
    ProcFileInjective(core, "S", core, "A");
  }

  lemma AdjustCoreSucceeds(dir: Directory, core: nat)
    ensures AdjustCore(dir, core).error.None? <==> ReadCsv(dir, ProcFile(core, "S")).Ok? && ReadCsv(dir, ProcFile(core, "A")).Ok?
  {
    AdjustCoreResult(dir, core);
  }

  /** The tables of the cores after `core` are neither of this core's tables. */
  lemma LaterCoreTables(core: nat, cores: nat, n: string)
    requires IsCoreTable(n, core + 1, cores)
    ensures n != ProcFile(core, "S") && n != ProcFile(core, "A") && IsCoreTable(n, core, cores)
  {
    var c: nat :| core + 1 <= c < cores && (n == ProcFile(c, "S") || n == ProcFile(c, "A"));
    ProcFileInjective(c, "S", core, "S");
    ProcFileInjective(c, "S", core, "A");
    ProcFileInjective(c, "A", core, "S");
    ProcFileInjective(c, "A", core, "A");
  }

  /**
    A successful step of core `core` changes only its own two tables, so the
    later cores read their tables as they were.
   */
  lemma AdjustCoreKeeps(dir: Directory, d: Directory, core: nat, cores: nat)
    requires AdjustCore(dir, core) == Outcome(d, None)
    ensures d.Keys == dir.Keys
    ensures forall n :: n in dir && n != ProcFile(core, "S") && n != ProcFile(core, "A") ==> d[n] == dir[n]
    ensures forall c :: core < c < cores ==>
              ReadCsv(d, ProcFile(c, "S")) == ReadCsv(dir, ProcFile(c, "S")) &&
              ReadCsv(d, ProcFile(c, "A")) == ReadCsv(dir, ProcFile(c, "A"))
  {
    AdjustCoreResult(dir, core);
    forall c | core < c < cores
      ensures ProcFile(c, "S") != ProcFile(core, "S") && ProcFile(c, "S") != ProcFile(core, "A")
      ensures ProcFile(c, "A") != ProcFile(core, "S") && ProcFile(c, "A") != ProcFile(core, "A")
    {
      ProcFileInjective(c, "S", core, "S");
      ProcFileInjective(c, "S", core, "A");
      ProcFileInjective(c, "A", core, "S");
      ProcFileInjective(c, "A", core, "A");
    }
  }

  /** Rescaling succeeds exactly when every core's S and A tables can be read. */
  lemma AdjustFromSucceeds(dir: Directory, core: nat, cores: nat)
    ensures AdjustFrom(dir, core, cores).error.None? <==>
            forall c :: core <= c < cores ==> ReadCsv(dir, ProcFile(c, "S")).Ok? && ReadCsv(dir, ProcFile(c, "A")).Ok?
  {
    if AdjustFrom(dir, core, cores).error.None? {
      forall c | core <= c < cores ensures ReadCsv(dir, ProcFile(c, "S")).Ok? && ReadCsv(dir, ProcFile(c, "A")).Ok? {
        AdjustFromOkAt(dir, core, cores, c);
      }
    } else if forall c :: core <= c < cores ==> ReadCsv(dir, ProcFile(c, "S")).Ok? && ReadCsv(dir, ProcFile(c, "A")).Ok? {
      AdjustFromOkIf(dir, core, cores);
    }
  }

  /** In a successful pass, core `c`'s two tables could be read before it. */
  lemma {:induction false} AdjustFromOkAt(dir: Directory, core: nat, cores: nat, c: nat)
    requires AdjustFrom(dir, core, cores).error.None? && core <= c < cores
    ensures ReadCsv(dir, ProcFile(c, "S")).Ok? && ReadCsv(dir, ProcFile(c, "A")).Ok?
    decreases cores - core, 2
  {
    if c == core {
      AdjustFromStep(dir, core, cores);
      AdjustCoreSucceeds(dir, core);
    } else {
      AdjustFromOkNext(dir, core, cores, c);
    }
  }

  /** A later core's tables are read in the rest of the pass as the first step leaves them. */
  lemma {:induction false} AdjustFromOkNext(dir: Directory, core: nat, cores: nat, c: nat)
    requires AdjustFrom(dir, core, cores).error.None? && core < c < cores
    ensures ReadCsv(dir, ProcFile(c, "S")).Ok? && ReadCsv(dir, ProcFile(c, "A")).Ok?
    decreases cores - core, 1
  {
    var d, next := AdjustFromHead(dir, core, cores, c);
    AdjustFromOkLater(dir, d, next, cores, c);
  }

  /**
    After a successful first step, the rest of the pass, from core `next` on,
    succeeds and reads core `c`'s tables unchanged.
   */
  lemma AdjustFromHead(dir: Directory, core: nat, cores: nat, c: nat) returns (d: Directory, next: nat)
    requires AdjustFrom(dir, core, cores).error.None? && core < c < cores
    ensures core < next <= c
    ensures AdjustFrom(d, next, cores).error.None?
    ensures ReadCsv(d, ProcFile(c, "S")) == ReadCsv(dir, ProcFile(c, "S"))
    ensures ReadCsv(d, ProcFile(c, "A")) == ReadCsv(dir, ProcFile(c, "A"))
  {
    AdjustFromStep(dir, core, cores);
    d, next := AdjustCore(dir, core).dir, core + 1;
    AdjustCoreKeepsAt(dir, d, core, c);
    ProcFileInjective(c, "S", next, "S");
    ProcFileInjective(c, "A", next, "A");
  }

  /** The rest of the pass, from core `next` on `d`, reads core `c`'s tables as `dir` holds them. */
  lemma {:induction false} AdjustFromOkLater(dir: Directory, d: Directory, next: nat, cores: nat, c: nat)
    requires AdjustFrom(d, next, cores).error.None? && next <= c < cores
    requires ReadCsv(d, ProcFile(c, "S")) == ReadCsv(dir, ProcFile(c, "S"))
    requires ReadCsv(d, ProcFile(c, "A")) == ReadCsv(dir, ProcFile(c, "A"))
    ensures ReadCsv(dir, ProcFile(c, "S")).Ok? && ReadCsv(dir, ProcFile(c, "A")).Ok?
    decreases cores - next + 1, 0
  {
    AdjustFromOkAt(d, next, cores, c);
  }

  /** A successful step of core `core` leaves a later core's two tables as they were. */
  lemma AdjustCoreKeepsAt(dir: Directory, d: Directory, core: nat, c: nat)
    requires AdjustCore(dir, core) == Outcome(d, None) && core < c
    ensures ReadCsv(d, ProcFile(c, "S")) == ReadCsv(dir, ProcFile(c, "S"))
    ensures ReadCsv(d, ProcFile(c, "A")) == ReadCsv(dir, ProcFile(c, "A"))
  {
    AdjustCoreKeeps(dir, d, core, c + 1);
  }

  /** A successful pass is a successful step of its first core followed by the rest of the pass. */
  lemma AdjustFromStep(dir: Directory, core: nat, cores: nat)
    requires AdjustFrom(dir, core, cores).error.None? && core < cores
    ensures AdjustCore(dir, core).error.None?
    ensures AdjustFrom(AdjustCore(dir, core).dir, core + 1, cores).error.None?
  {
  }

  /** When every core's two tables can be read, the pass succeeds. */
  lemma {:induction false} AdjustFromOkIf(dir: Directory, core: nat, cores: nat)
    requires forall c :: core <= c < cores ==> ReadCsv(dir, ProcFile(c, "S")).Ok? && ReadCsv(dir, ProcFile(c, "A")).Ok?
    ensures AdjustFrom(dir, core, cores).error.None?
    decreases cores - core
  {
    if core < cores {
      AdjustCoreSucceeds(dir, core);
      var o := AdjustCore(dir, core);
      AdjustCoreKeeps(dir, o.dir, core, cores);
      AdjustFromOkIf(o.dir, core + 1, cores);
    }
  }

  /** A successful pass keeps the names, and changes no name but the cores' tables. */
  lemma {:induction false} AdjustFromFrame(dir: Directory, core: nat, cores: nat)
    requires AdjustFrom(dir, core, cores).error.None?
    ensures var out := AdjustFrom(dir, core, cores);
            && out.dir.Keys == dir.Keys
            && (forall n :: n in dir && !IsCoreTable(n, core, cores) ==> out.dir[n] == dir[n])
    decreases cores - core
  {
    if core < cores {
      var o := AdjustCore(dir, core);
      AdjustCoreKeeps(dir, o.dir, core, cores);
      AdjustFromFrame(o.dir, core + 1, cores);
      forall n | n in dir && !IsCoreTable(n, core, cores)
        ensures n != ProcFile(core, "S") && n != ProcFile(core, "A") && !IsCoreTable(n, core + 1, cores)
      {
        assert IsCoreTable(ProcFile(core, "S"), core, cores) && IsCoreTable(ProcFile(core, "A"), core, cores);
        if IsCoreTable(n, core + 1, cores) {
          LaterCoreTables(core, cores, n);
        }
      }
    }
  }

  /**
    After a successful pass every core's S table is divided, and its A table
    multiplied, by the square root of the S table's row count, both read
    before the loop started.
   */
  lemma {:induction false} AdjustFromScaled(dir: Directory, core: nat, cores: nat)
    requires AdjustFrom(dir, core, cores).error.None?
    ensures var out := AdjustFrom(dir, core, cores);
            forall c :: core <= c < cores ==>
              ReadCsv(dir, ProcFile(c, "S")).Ok? && ReadCsv(dir, ProcFile(c, "A")).Ok? &&
              var s, a := ReadCsv(dir, ProcFile(c, "S")).value, ReadCsv(dir, ProcFile(c, "A")).value;
              && ProcFile(c, "S") in out.dir && ProcFile(c, "A") in out.dir
              && out.dir[ProcFile(c, "S")] == File(Csv(ScaleData(s, DivSqrt(s.rows))))
              && out.dir[ProcFile(c, "A")] == File(Csv(ScaleData(a, MulSqrt(s.rows))))
    decreases cores - core
  {
    AdjustFromSucceeds(dir, core, cores);
    if core < cores {
      var sFile, aFile := ProcFile(core, "S"), ProcFile(core, "A");
      AdjustCoreResult(dir, core);
      var o := AdjustCore(dir, core);
      AdjustCoreKeeps(dir, o.dir, core, cores);
      AdjustFromScaled(o.dir, core + 1, cores);
      AdjustFromFrame(o.dir, core + 1, cores);
      assert !IsCoreTable(sFile, core + 1, cores) && !IsCoreTable(aFile, core + 1, cores) by {
        if IsCoreTable(sFile, core + 1, cores) {
          LaterCoreTables(core, cores, sFile);
        }
        if IsCoreTable(aFile, core + 1, cores) {
          LaterCoreTables(core, cores, aFile);
        }
      }
      ProcFileInjective(core, "S", core, "A");
    }
  }

  /**
    After a successful pass every core's S table is divided, and its A table
    multiplied, by the square root of the S table's row count, both taken from
    the tables as they were before the loop; nothing else changes.
   */
  lemma AdjustFromTables(dir: Directory, core: nat, cores: nat)
    requires AdjustFrom(dir, core, cores).error.None?
    ensures var out := AdjustFrom(dir, core, cores);
            && out.dir.Keys == dir.Keys
            && (forall c :: core <= c < cores ==>
                  ReadCsv(dir, ProcFile(c, "S")).Ok? && ReadCsv(dir, ProcFile(c, "A")).Ok? &&
                  var s, a := ReadCsv(dir, ProcFile(c, "S")).value, ReadCsv(dir, ProcFile(c, "A")).value;
                  && out.dir[ProcFile(c, "S")] == File(Csv(ScaleData(s, DivSqrt(s.rows))))
                  && out.dir[ProcFile(c, "A")] == File(Csv(ScaleData(a, MulSqrt(s.rows)))))
            && (forall n :: n in dir && !IsCoreTable(n, core, cores) ==> out.dir[n] == dir[n])
  {
    AdjustFromFrame(dir, core, cores);
    AdjustFromScaled(dir, core, cores);
  }

  // ---------------------------------------------------------------------------
  // Deleting the per-run tables (lines 48-56)

  /**
    The loop of lines 50-56: a listed name is unlinked when it is a regular file
    and its joined path contains `proc_tmp_`. A failing unlink is caught and
    printed, so the loop never stops early.
   */
  function DeleteFrom(dir: Directory, tmpDir: string, listing: seq<string>): Directory
    decreases |listing|
  {
    if listing == [] then dir
    else
      var f := listing[0];
      var d := if f in dir && dir[f].File? && Contains(Join(tmpDir, f), TmpMarker) then dir - {f} else dir;
      DeleteFrom(d, tmpDir, listing[1..])
  }

  /** `delete_temp_files(tmp_dir)` */
  method DeleteTempFiles(dir: Directory, tmpDir: string, listing: seq<string>) returns (d: Directory)
    ensures d == DeleteFrom(dir, tmpDir, listing)
  {
    d := dir;
    for k := 0 to |listing|
      invariant DeleteFrom(d, tmpDir, listing[k..]) == DeleteFrom(dir, tmpDir, listing)
    {
      assert listing[k..][0] == listing[k] && listing[k..][1..] == listing[k + 1..];
      var f := listing[k];
      if f in d && d[f].File? && Contains(Join(tmpDir, f), TmpMarker) {
        d := d - {f};
      }
    }
    assert listing[|listing|..] == [];
  }

  /** Deleting is decided name by name: a listed regular file whose path holds the marker. */
  predicate Doomed(dir: Directory, tmpDir: string, listing: seq<string>, n: string)
    requires n in dir
  {
    n in listing && dir[n].File? && Contains(Join(tmpDir, n), TmpMarker)
  }

  /** Exactly the doomed names are gone; everything else is kept as it was. */
  lemma {:induction false} DeleteFromResult(dir: Directory, tmpDir: string, listing: seq<string>)
    ensures DeleteFrom(dir, tmpDir, listing).Keys == set n | n in dir && !Doomed(dir, tmpDir, listing, n)
    ensures forall n :: n in DeleteFrom(dir, tmpDir, listing) ==> DeleteFrom(dir, tmpDir, listing)[n] == dir[n]
    decreases |listing|
  {
    if listing != [] {
      var f := listing[0];
      var d := if f in dir && dir[f].File? && Contains(Join(tmpDir, f), TmpMarker) then dir - {f} else dir;
      DeleteFromResult(d, tmpDir, listing[1..]);
      assert listing == [f] + listing[1..];
      var r := DeleteFrom(d, tmpDir, listing[1..]);
      forall n ensures n in r <==> n in dir && !Doomed(dir, tmpDir, listing, n) {
        if n in dir && n != f {
          assert Doomed(dir, tmpDir, listing, n) == Doomed(d, tmpDir, listing[1..], n);
        }
      }
    }
  }

  /**
    The marker is looked for in the whole path: with a temporary directory
    whose path holds none, a name is deleted by its own text; with one whose
    path holds it, every listed regular file goes, merged outputs included.
   */
  lemma DeleteLooksAtPath(tmpDir: string, name: string)
    ensures !Contains(tmpDir, TmpMarker) ==> (Contains(Join(tmpDir, name), TmpMarker) <==> Contains(name, TmpMarker))
    ensures Contains(tmpDir, TmpMarker) ==> Contains(Join(tmpDir, name), TmpMarker)
  {
    JoinContains(tmpDir, name, TmpMarker);
  }

  // ---------------------------------------------------------------------------
  // The whole script (lines 63-75)

  /**
    S tables are merged, then A tables, then every core's pair is rescaled, and
    the per-run tables are deleted. Each listing is what `os.listdir` returns at
    that point.
   */
  function CheckpointMain(dir: Directory, tmpDir: string, listingS: seq<string>, listingA: seq<string>,
                          listingDelete: seq<string>, cores: nat): Outcome
  {
    var s := MergeFiles(dir, listingS, "S", cores);
    if s.error.Some? then s
    else
      var a := MergeFiles(s.dir, listingA, "A", cores);
      if a.error.Some? then a
      else
        var m := AdjustFrom(a.dir, 0, cores);
        if m.error.Some? then m
        else Outcome(DeleteFrom(m.dir, tmpDir, listingDelete), None)
  }

  /** Five S tables on four cores always stop the script: an unreadable table or the empty fourth group. */
  lemma FiveOnFourFails(dir: Directory, tmpDir: string, listingS: seq<string>, listingA: seq<string>,
                        listingDelete: seq<string>)
    requires |SelectFiles(listingS, "S")| == 5
    ensures CheckpointMain(dir, tmpDir, listingS, listingA, listingDelete, 4).error.Some?
  {
    MergeFilesSucceeds(dir, listingS, "S", 4);
    assert FilesPerCore(5, 4) == Ok(2);
  }

  /** A successful merge keeps every name and adds each core's output. */
  lemma MergeFilesKeys(dir: Directory, listing: seq<string>, fileType: string, cores: nat)
    requires fileType == "S" || fileType == "A"
    requires MergeFiles(dir, listing, fileType, cores).error.None?
    ensures var out := MergeFiles(dir, listing, fileType, cores);
            && (forall n :: n in dir ==> n in out.dir)
            && (forall c :: 0 <= c < cores ==> ProcFile(c, fileType) in out.dir)
  {
    var files := SelectFiles(listing, fileType);
    var k := FilesPerCore(|files|, cores).value;
    MergeCoresFromResult(dir, files, fileType, k, 0, cores);
  }

  /**
    With a temporary directory whose path does not hold the marker, a
    successful run keeps every core's S and A tables, and no listed name
    holding the marker is left as a regular file.
   */
  lemma CheckpointOutputs(dir: Directory, tmpDir: string, listingS: seq<string>, listingA: seq<string>,
                          listingDelete: seq<string>, cores: nat)
    requires !Contains(tmpDir, TmpMarker)
    requires CheckpointMain(dir, tmpDir, listingS, listingA, listingDelete, cores).error.None?
    ensures var out := CheckpointMain(dir, tmpDir, listingS, listingA, listingDelete, cores);
            forall c :: 0 <= c < cores ==> ProcFile(c, "S") in out.dir && ProcFile(c, "A") in out.dir
    ensures var out := CheckpointMain(dir, tmpDir, listingS, listingA, listingDelete, cores);
            forall n :: n in out.dir && n in listingDelete && Contains(n, TmpMarker) ==> out.dir[n] == Folder
  {
    var s := MergeFiles(dir, listingS, "S", cores);
    var a := MergeFiles(s.dir, listingA, "A", cores);
    var m := AdjustFrom(a.dir, 0, cores);
    assert forall c :: 0 <= c < cores ==> ProcFile(c, "S") in m.dir && ProcFile(c, "A") in m.dir by {
      MergeFilesKeys(dir, listingS, "S", cores);
      MergeFilesKeys(s.dir, listingA, "A", cores);
      AdjustFromTables(a.dir, 0, cores);
    }
    DeleteFromResult(m.dir, tmpDir, listingDelete);
    var out := DeleteFrom(m.dir, tmpDir, listingDelete);
    forall c | 0 <= c < cores ensures ProcFile(c, "S") in out && ProcFile(c, "A") in out {
      ProcFileNotTmp(c, "S");
      ProcFileNotTmp(c, "A");
      DeleteLooksAtPath(tmpDir, ProcFile(c, "S"));
      DeleteLooksAtPath(tmpDir, ProcFile(c, "A"));
    }
    forall n | n in out && n in listingDelete && Contains(n, TmpMarker) ensures out[n] == Folder {
      DeleteLooksAtPath(tmpDir, n);
    }
  }

  /**
    After a successful merge of one file type, core `c`'s output holds the
    merge of its group, and reading it back gives that table.
   */
  lemma MergedGroup(dir: Directory, listing: seq<string>, fileType: string, cores: nat, c: nat) returns (m: Table)
    requires fileType == "S" || fileType == "A"
    requires MergeFiles(dir, listing, fileType, cores).error.None? && c < cores
    ensures var files := SelectFiles(listing, fileType);
            && FilesPerCore(|files|, cores).Ok?
            && MergedTable(dir, CoreFiles(files, FilesPerCore(|files|, cores).value, c)) == Ok(m)
            && ReadCsv(MergeFiles(dir, listing, fileType, cores).dir, ProcFile(c, fileType)) == Ok(m)
  {
    var files := SelectFiles(listing, fileType);
    var k := FilesPerCore(|files|, cores).value;
    MergeFilesOutputs(dir, listing, fileType, cores);
    m := MergedTable(dir, CoreFiles(files, k, c)).value;
    MergedTableShape(dir, CoreFiles(files, k, c));
  }

  /** Merging the A tables leaves a core's S output as it was. */
  lemma AMergeKeepsS(dir: Directory, listing: seq<string>, cores: nat, c: nat)
    requires MergeFiles(dir, listing, "A", cores).error.None?
    ensures ReadCsv(MergeFiles(dir, listing, "A", cores).dir, ProcFile(c, "S")) == ReadCsv(dir, ProcFile(c, "S"))
  {
    var files := SelectFiles(listing, "A");
    var k := FilesPerCore(|files|, cores).value;
    MergeCoresFrame(dir, files, "A", k, 0, cores);
    if IsCoreOutput(ProcFile(c, "S"), "A", 0, cores) {
      var r: nat :| r < cores && ProcFile(c, "S") == ProcFile(r, "A");
      ProcFileInjective(c, "S", r, "A");
    }
  }

  /** After a successful rescaling pass, core `c`'s tables as `AdjustFromTables` gives them. */
  lemma AdjustedCore(dir: Directory, cores: nat, c: nat, mergedS: Table, mergedA: Table)
    requires AdjustFrom(dir, 0, cores).error.None? && c < cores
    requires ReadCsv(dir, ProcFile(c, "S")) == Ok(mergedS) && ReadCsv(dir, ProcFile(c, "A")) == Ok(mergedA)
    ensures PairRescaled(AdjustFrom(dir, 0, cores).dir, mergedS, mergedA, c)
  {
    AdjustFromTables(dir, 0, cores);
    assert ProcFile(c, "S") in dir && ProcFile(c, "A") in dir;
  }

  /** The deletion step never removes a core's output or changes it. */
  lemma DeleteKeepsPair(dir: Directory, tmpDir: string, listing: seq<string>, mergedS: Table, mergedA: Table, c: nat)
    requires !Contains(tmpDir, TmpMarker) && PairRescaled(dir, mergedS, mergedA, c)
    ensures PairRescaled(DeleteFrom(dir, tmpDir, listing), mergedS, mergedA, c)
  {
    DeleteFromResult(dir, tmpDir, listing);
    ProcFileNotTmp(c, "S");
    ProcFileNotTmp(c, "A");
    DeleteLooksAtPath(tmpDir, ProcFile(c, "S"));
    DeleteLooksAtPath(tmpDir, ProcFile(c, "A"));
  }

  /**
    Core `c`'s two tables after a successful run: S is the merge of its S group
    divided by the square root of that merge's row count, and A is the merge of
    its A group (read after the S merge) multiplied by the square root of the
    same S row count.
   */
  lemma CheckpointCore(dir: Directory, tmpDir: string, listingS: seq<string>, listingA: seq<string>,
                       listingDelete: seq<string>, cores: nat, c: nat) returns (mergedS: Table, mergedA: Table)
    requires !Contains(tmpDir, TmpMarker)
    requires CheckpointMain(dir, tmpDir, listingS, listingA, listingDelete, cores).error.None? && c < cores
    ensures var filesS, filesA := SelectFiles(listingS, "S"), SelectFiles(listingA, "A");
            && FilesPerCore(|filesS|, cores).Ok? && FilesPerCore(|filesA|, cores).Ok?
            && MergedTable(dir, CoreFiles(filesS, FilesPerCore(|filesS|, cores).value, c)) == Ok(mergedS)
            && MergedTable(MergeFiles(dir, listingS, "S", cores).dir,
                           CoreFiles(filesA, FilesPerCore(|filesA|, cores).value, c)) == Ok(mergedA)
            && PairRescaled(CheckpointMain(dir, tmpDir, listingS, listingA, listingDelete, cores).dir, mergedS, mergedA, c)
  {
    var s := MergeFiles(dir, listingS, "S", cores);
    var a := MergeFiles(s.dir, listingA, "A", cores);
    var m := AdjustFrom(a.dir, 0, cores);
    mergedS := MergedGroup(dir, listingS, "S", cores, c);
    mergedA := MergedGroup(s.dir, listingA, "A", cores, c);
    AMergeKeepsS(s.dir, listingA, cores, c);
    AdjustedCore(a.dir, cores, c, mergedS, mergedA);
    DeleteKeepsPair(m.dir, tmpDir, listingDelete, mergedS, mergedA, c);
  }

  /**
    The checkpoint script end to end, when it succeeds: every core's S table
    is the merge of its ceiling-sized group of S tables, divided by the square
    root of that merge's row count, and its A table is the merge of its group
    of A tables, multiplied by the square root of the same count.
   */
  lemma CheckpointTables(dir: Directory, tmpDir: string, listingS: seq<string>, listingA: seq<string>,
                         listingDelete: seq<string>, cores: nat)
    requires !Contains(tmpDir, TmpMarker)
    requires CheckpointMain(dir, tmpDir, listingS, listingA, listingDelete, cores).error.None?
    ensures var filesS, filesA := SelectFiles(listingS, "S"), SelectFiles(listingA, "A");
            && FilesPerCore(|filesS|, cores).Ok? && FilesPerCore(|filesA|, cores).Ok?
            && forall c :: 0 <= c < cores ==>
                 var groupS := CoreFiles(filesS, FilesPerCore(|filesS|, cores).value, c);
                 var groupA := CoreFiles(filesA, FilesPerCore(|filesA|, cores).value, c);
                 var sDir := MergeFiles(dir, listingS, "S", cores).dir;
                 && MergedTable(dir, groupS).Ok? && MergedTable(sDir, groupA).Ok?
                 && PairRescaled(CheckpointMain(dir, tmpDir, listingS, listingA, listingDelete, cores).dir,
                                 MergedTable(dir, groupS).value, MergedTable(sDir, groupA).value, c)
  {
    var s := MergeFiles(dir, listingS, "S", cores);
    assert s.error.None?;
    assert MergeFiles(s.dir, listingA, "A", cores).error.None?;
    forall c | 0 <= c < cores
      ensures var filesS, filesA := SelectFiles(listingS, "S"), SelectFiles(listingA, "A");
              var groupS := CoreFiles(filesS, FilesPerCore(|filesS|, cores).value, c);
              var groupA := CoreFiles(filesA, FilesPerCore(|filesA|, cores).value, c);
              && MergedTable(dir, groupS).Ok? && MergedTable(s.dir, groupA).Ok?
              && PairRescaled(CheckpointMain(dir, tmpDir, listingS, listingA, listingDelete, cores).dir,
                              MergedTable(dir, groupS).value, MergedTable(s.dir, groupA).value, c)
    {
      var mS, mA := CheckpointCore(dir, tmpDir, listingS, listingA, listingDelete, cores, c);
    }
  }
}
