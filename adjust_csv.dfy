/**
  The adjustment stage (optICA_updated_scripts/adjust_csv_MPI.py): rank 0
  deletes every empty CSV together with its S/A counterpart; the S and A tables
  left are split over the ranks in near-equal contiguous slices and each one is
  rescaled by the square root of its own row count; rank 0 then renumbers the A
  and the S tables `proc_0_<type>.csv`, `proc_1_<type>.csv`, ... in the order
  of their run ids.

  The ranks are run one after the other, in rank order.
 */
module AdjustCsv {
  import opened Wrappers
  import opened Strings
  import opened Lists
  import opened FileSystem
  import opened Arith

  // ---------------------------------------------------------------------------
  // Deleting empty tables and their counterparts (lines 10-28)

  /**
    Lines 23-25: the name up to its last `_`, followed by `_A.csv` when the
    name contains `_S.csv` and by `_S.csv` otherwise.
   */
  function Counterpart(f: string): string {
    BeforeLast(f, '_') + "_" + (if Contains(f, "_S.csv") then "A.csv" else "S.csv")
  }

  /** An occurrence of `p` in `s + [c]` that does not end in `c` lies inside `s`. */
  lemma ContainsSnoc(s: string, c: char, p: string)
    requires p != [] && p[|p| - 1] != c
    ensures Contains(s + [c], p) ==> Contains(s, p)
  {
    if Contains(s + [c], p) {
      var i :| 0 <= i <= |s| + 1 - |p| && OccursAt(s + [c], p, i);
      assert s[i..i + |p|] == (s + [c])[i..i + |p|];
      assert OccursAt(s, p, i);
    }
  }

  /** `X_A.csv` contains `_S.csv` only where `X` does. */
  lemma AFileContainsS(x: string)
    ensures Contains(x + "_A.csv", "_S.csv") <==> Contains(x, "_S.csv")
  {
    assert x + "_A.csv" == (x + "_") + ['A'] + ".csv";
    ContainsAcross(x + "_", 'A', ".csv", "_S.csv");
    assert !Contains(".csv", "_S.csv");
    ContainsSnoc(x, '_', "_S.csv");
    if Contains(x, "_S.csv") {
      var i :| 0 <= i <= |x| - 6 && OccursAt(x, "_S.csv", i);
      assert (x + "_A.csv")[i..i + 6] == x[i..i + 6];
      assert OccursAt(x + "_A.csv", "_S.csv", i);
    }
  }

  /** The S table of a run has its A table as counterpart. */
  lemma CounterpartOfS(x: string)
    ensures Counterpart(x + "_S.csv") == x + "_A.csv"
  {
    var f := x + "_S.csv";
    assert f == x + ['_'] + "S.csv";
    BeforeLastAt(x, '_', "S.csv");
    assert f[|f| - 6..] == "_S.csv";
    EndsWithContains(f, "_S.csv");
    assert Counterpart(f) == x + "_" + "A.csv";
    assert x + "_" + "A.csv" == x + "_A.csv";
  }

  /** The A table of a run has its S table as counterpart, unless the run's name already contains `_S.csv`. */
  lemma CounterpartOfA(x: string)
    ensures Counterpart(x + "_A.csv") == (if Contains(x, "_S.csv") then x + "_A.csv" else x + "_S.csv")
  {
    assert x + "_A.csv" == x + ['_'] + "A.csv";
    BeforeLastAt(x, '_', "A.csv");
    AFileContainsS(x);
  }

  /** On well-formed run names the counterpart relation is an involution. */
  lemma CounterpartInvolution(x: string)
    requires !Contains(x, "_S.csv")
    ensures Counterpart(Counterpart(x + "_S.csv")) == x + "_S.csv"
    ensures Counterpart(Counterpart(x + "_A.csv")) == x + "_A.csv"
  {
    CounterpartOfS(x);
    CounterpartOfA(x);
  }

  /**
    One iteration of lines 16-28 for the listed name `f`, on the directory as
    the earlier iterations left it. `getsize` is only called on a `.csv` name
    and fails if that file has meanwhile been deleted as a counterpart; an empty
    file is deleted, then its counterpart if it exists.
   */
  function PruneStep(dir: Directory, f: string): (out: Outcome)
    ensures out.dir.Keys <= dir.Keys
    ensures forall n :: n in out.dir ==> out.dir[n] == dir[n]
  {
    if !EndsWith(f, ".csv") then Outcome(dir, None)
    else if f !in dir then Outcome(dir, Some(FileNotFound(f)))
    else if dir[f] != File(Empty) then Outcome(dir, None)
    else
      var d := dir - {f};
      var c := Counterpart(f);
      if !Exists(d, c) then Outcome(d, None)
      else match Remove(d, c)
        case Err(e) => Outcome(d, Some(e))
        case Ok(d') => Outcome(d', None)
  }

  /** The loop of lines 16-28 over the listing taken at line 15. */
  function Prune(dir: Directory, listing: seq<string>): Outcome
    decreases |listing|
  {
    if listing == [] then Outcome(dir, None)
    else
      var o := PruneStep(dir, listing[0]);
      if o.error.Some? then o else Prune(o.dir, listing[1..])
  }

  /** `check_and_delete_small_files`, deleting in place. */
  method PruneSmallFiles(dir: Directory, listing: seq<string>) returns (out: Outcome)
    ensures out == Prune(dir, listing)
  {
    var d := dir;
    var k := 0;
    while k < |listing|
      invariant 0 <= k <= |listing|
      invariant Prune(d, listing[k..]) == Prune(dir, listing)
    {
      var f := listing[k];
      assert listing[k..][0] == f && listing[k..][1..] == listing[k + 1..];
      if EndsWith(f, ".csv") {
        if f !in d {
          return Outcome(d, Some(FileNotFound(f)));
        }
        if d[f] == File(Empty) {
          d := d - {f};
          var c := Counterpart(f);
          if c in d {
            if d[c].Folder? {
              return Outcome(d, Some(IsADirectory(c)));
            }
            d := d - {c};
          }
        }
      }
      k := k + 1;
    }
    assert listing[k..] == [];
    out := Outcome(d, None);
  }

  /** The listed name at `k` was an empty CSV of `dir` and `n` is that name or its counterpart. */
  predicate DeletedFor(dir: Directory, listing: seq<string>, k: int, n: string) {
    && 0 <= k < |listing|
    && EndsWith(listing[k], ".csv")
    && listing[k] in dir && dir[listing[k]] == File(Empty)
    && (n == listing[k] || n == Counterpart(listing[k]))
  }

  /** Pruning only deletes: what is left is unchanged. */
  lemma {:induction false} PruneOnlyDeletes(dir: Directory, listing: seq<string>)
    ensures Prune(dir, listing).dir.Keys <= dir.Keys
    ensures forall n :: n in Prune(dir, listing).dir ==> Prune(dir, listing).dir[n] == dir[n]
    decreases |listing|
  {
    if listing != [] {
      var o := PruneStep(dir, listing[0]);
      if o.error.None? {
        PruneOnlyDeletes(o.dir, listing[1..]);
      }
    }
  }

  /** Every deleted name is a listed empty CSV or the counterpart of one. */
  lemma {:induction false} PruneDeletesOnlyEmpty(dir: Directory, listing: seq<string>)
    ensures forall n :: n in dir && n !in Prune(dir, listing).dir ==>
              exists k :: DeletedFor(dir, listing, k, n)
    decreases |listing|
  {
    if listing != [] {
      var o := PruneStep(dir, listing[0]);
      forall n | n in dir && n !in Prune(dir, listing).dir
        ensures exists k :: DeletedFor(dir, listing, k, n)
      {
        if n !in o.dir {
          assert DeletedFor(dir, listing, 0, n);
        } else {
          PruneDeletesOnlyEmpty(o.dir, listing[1..]);
          var k :| DeletedFor(o.dir, listing[1..], k, n);
          assert DeletedFor(dir, listing, k + 1, n);
        }
      }
    }
  }

  /** A pass that completes found every listed CSV still present at its turn. */
  lemma {:induction false} PruneFindsListed(dir: Directory, listing: seq<string>)
    requires Prune(dir, listing).error.None?
    ensures forall k :: 0 <= k < |listing| && EndsWith(listing[k], ".csv") ==> listing[k] in dir
    decreases |listing|
  {
    if listing != [] {
      var o := PruneStep(dir, listing[0]);
      PruneFindsListed(o.dir, listing[1..]);
      forall k | 0 < k < |listing| && EndsWith(listing[k], ".csv") ensures listing[k] in dir {
        assert listing[1..][k - 1] == listing[k];
      }
    }
  }

  /**
    When pruning completes, every listed empty CSV is gone, and so is its
    counterpart.
   */
  lemma {:induction false} PruneDeletesAllEmpty(dir: Directory, listing: seq<string>)
    requires Prune(dir, listing).error.None?
    ensures forall k :: (0 <= k < |listing| && EndsWith(listing[k], ".csv") &&
                         listing[k] in dir && dir[listing[k]] == File(Empty)) ==>
              listing[k] !in Prune(dir, listing).dir && Counterpart(listing[k]) !in Prune(dir, listing).dir
    decreases |listing|
  {
    if listing != [] {
      var o := PruneStep(dir, listing[0]);
      var out := Prune(o.dir, listing[1..]);
      PruneOnlyDeletes(o.dir, listing[1..]);
      PruneDeletesAllEmpty(o.dir, listing[1..]);
      PruneFindsListed(o.dir, listing[1..]);
      forall k | 0 <= k < |listing| && EndsWith(listing[k], ".csv") &&
                 listing[k] in dir && dir[listing[k]] == File(Empty)
        ensures listing[k] !in out.dir && Counterpart(listing[k]) !in out.dir
      {
        if k > 0 {
          assert listing[1..][k - 1] == listing[k];
        }
      }
    }
  }

  /**
    Pruning fails in two ways: `getsize` on a listed CSV that is no longer
    there (when `dir` is what the listing lists, one deleted earlier in the
    same pass), or the counterpart of an empty CSV being a folder.
   */
  lemma {:induction false} PruneErrors(dir: Directory, listing: seq<string>)
    ensures var out := Prune(dir, listing);
            out.error.Some? ==>
              || (&& out.error.value.FileNotFound?
                  && out.error.value.name in listing && EndsWith(out.error.value.name, ".csv")
                  && (out.error.value.name !in dir || exists k :: DeletedFor(dir, listing, k, out.error.value.name)))
              || (&& out.error.value.IsADirectory?
                  && out.error.value.name in dir && dir[out.error.value.name] == Folder
                  && exists k :: DeletedFor(dir, listing, k, out.error.value.name))
    decreases |listing|
  {
    if listing != [] {
      var o := PruneStep(dir, listing[0]);
      if o.error.Some? {
        if o.error.value.IsADirectory? {
          assert DeletedFor(dir, listing, 0, o.error.value.name);
        }
      } else {
        PruneErrors(o.dir, listing[1..]);
        var out := Prune(o.dir, listing[1..]);
        if out.error.Some? {
          var n := out.error.value.name;
          if out.error.value.FileNotFound? && n !in o.dir && n in dir {
            assert DeletedFor(dir, listing, 0, n);
          } else if exists k :: DeletedFor(o.dir, listing[1..], k, n) {
            var k :| DeletedFor(o.dir, listing[1..], k, n);
            assert DeletedFor(dir, listing, k + 1, n);
          }
        }
      }
    }
  }

  /**
    The result depends on the listing order: listing an empty S table before
    its non-empty A table deletes both and then fails on the A table's size;
    the other order deletes both and succeeds.
   */
  lemma PruneDependsOnOrder()
    ensures var s, a := "proc_1_S.csv", "proc_1_A.csv";
            var dir := map[s := File(Empty), a := File(Csv(Table(3, [Column("", [])])))];
            && Prune(dir, [s, a]) == Outcome(map[], Some(FileNotFound(a)))
            && Prune(dir, [a, s]) == Outcome(map[], None)
  {
    var s, a := "proc_1_S.csv", "proc_1_A.csv";
    CounterpartOfS("proc_1");
    assert EndsWith(s, ".csv") && EndsWith(a, ".csv");
    assert s != a;
    var dir := map[s := File(Empty), a := File(Csv(Table(3, [Column("", [])])))];
    assert "proc_1" + "_S.csv" == s && "proc_1" + "_A.csv" == a;
    assert Counterpart(s) == a;
    assert (dir - {s}) - {a} == map[];
    assert PruneStep(dir, s) == Outcome(map[], None);
    assert PruneStep(map[], a) == Outcome(map[], Some(FileNotFound(a)));
    assert PruneStep(dir, a) == Outcome(dir, None);
    assert [s, a][1..] == [a] && [a, s][1..] == [s];
    assert Prune(map[], [a]) == Outcome(map[], Some(FileNotFound(a)));
    assert Prune(dir, [s]) == Outcome(map[], None);
  }

  // ---------------------------------------------------------------------------
  // Splitting the tables over the ranks (lines 90-99)

  /** Line 90: a `.csv` name containing `_S.csv` or `_A.csv`. */
  predicate IsMatrixFile(f: string) {
    EndsWith(f, ".csv") && (Contains(f, "_S.csv") || Contains(f, "_A.csv"))
  }

  /**
    Lines 94-99: the bounds of the slice of `n` names that rank `rank` takes
    when there are `size` ranks; the first `n % size` ranks take one more.
   */
  function RankBounds(n: nat, size: nat, rank: nat): (nat, nat)
    requires size >= 1
  {
    SliceBounds(n / size, n % size, rank)
  }

  /** The two branches of lines 96-99 for `q` names per rank and `r` left over. */
  function SliceBounds(q: nat, r: nat, rank: nat): (nat, nat) {
    MulMonotone(q + 1, 0, rank);
    MulMonotone(q + 1, 0, rank + 1);
    MulMonotone(q, 0, rank);
    MulMonotone(q, 0, rank + 1);
    if rank < r then ((q + 1) * rank, (q + 1) * (rank + 1))
    else (q * rank + r, q * (rank + 1) + r)
  }

  /** Both branches are one formula: rank `rank` starts after `rank` slices of `q` and `min(rank, r)` extra names. */
  lemma RankBoundsClosedForm(n: nat, size: nat, rank: nat)
    requires size >= 1
    ensures var q, r := n / size, n % size;
            && RankBounds(n, size, rank).0 == q * rank + Min(rank, r)
            && RankBounds(n, size, rank).1 == RankBounds(n, size, rank).0 + q + (if rank < r then 1 else 0)
  {
    SliceClosedForm(n / size, n % size, rank);
  }

  lemma SliceClosedForm(q: nat, r: nat, rank: nat)
    ensures SliceBounds(q, r, rank).0 == q * rank + Min(rank, r)
    ensures SliceBounds(q, r, rank).1 == SliceBounds(q, r, rank).0 + q + (if rank < r then 1 else 0)
  {
    assert (q + 1) * rank == q * rank + rank;
    assert (q + 1) * (rank + 1) == q * rank + rank + q + 1;
    assert q * (rank + 1) == q * rank + q;
  }

  lemma SliceNext(q: nat, r: nat, rank: nat)
    ensures SliceBounds(q, r, rank).1 == SliceBounds(q, r, rank + 1).0
  {
    SliceClosedForm(q, r, rank);
    SliceClosedForm(q, r, rank + 1);
    assert q * (rank + 1) == q * rank + q;
  }

  lemma SlicesOrdered(q: nat, r: nat, i: nat, j: nat)
    requires i < j
    ensures SliceBounds(q, r, i).1 <= SliceBounds(q, r, j).0
  {
    SliceClosedForm(q, r, i);
    SliceClosedForm(q, r, j);
    MulLeft(q, i + 1, j);
  }

  /**
    The slices of ranks 0 .. size-1 tile the names: the first starts at 0, each
    ends where the next starts, the last ends at `n`, and rank `rank` gets
    `n / size + 1` names when it is below `n % size` and `n / size` otherwise.
   */
  lemma RankSlicesTile(n: nat, size: nat, rank: nat)
    requires size >= 1
    ensures RankBounds(n, size, 0).0 == 0
    ensures RankBounds(n, size, size).0 == n && RankBounds(n, size, size - 1).1 == n
    ensures RankBounds(n, size, rank).1 == RankBounds(n, size, rank + 1).0
    ensures RankBounds(n, size, rank).1 - RankBounds(n, size, rank).0 ==
            if rank < n % size then n / size + 1 else n / size
  {
    FirstSliceStart(n, size);
    LastSliceEnd(n, size);
    NextSliceStart(n, size, rank);
    RankBoundsClosedForm(n, size, rank);
  }

  lemma FirstSliceStart(n: nat, size: nat)
    requires size >= 1
    ensures RankBounds(n, size, 0).0 == 0
  {
    SliceClosedForm(n / size, n % size, 0);
  }

  lemma LastSliceEnd(n: nat, size: nat)
    requires size >= 1
    ensures RankBounds(n, size, size).0 == n && RankBounds(n, size, size - 1).1 == n
  {
    var q, r := n / size, n % size;
    SliceClosedForm(q, r, size);
    SliceNext(q, r, size - 1);
    assert n == q * size + r;
  }

  lemma NextSliceStart(n: nat, size: nat, rank: nat)
    requires size >= 1
    ensures RankBounds(n, size, rank).1 == RankBounds(n, size, rank + 1).0
  {
    SliceNext(n / size, n % size, rank);
  }

  /** Slices start in rank order: a later rank's slice starts after an earlier one's ends. */
  lemma RankSlicesOrdered(n: nat, size: nat, i: nat, j: nat)
    requires size >= 1 && i < j
    ensures RankBounds(n, size, i).1 <= RankBounds(n, size, j).0
  {
    SlicesOrdered(n / size, n % size, i, j);
  }

  lemma {:induction false} OwnerFrom(n: nat, size: nat, k: nat, from: nat) returns (rank: nat)
    requires size >= 1 && from < size && RankBounds(n, size, from).0 <= k < n
    ensures from <= rank < size && RankBounds(n, size, rank).0 <= k < RankBounds(n, size, rank).1
    decreases size - from
  {
    RankSlicesTile(n, size, from);
    if k < RankBounds(n, size, from).1 {
      rank := from;
    } else {
      rank := OwnerFrom(n, size, k, from + 1);
    }
  }

  /** Every position `k < n` lies in the slice of exactly one rank: no name is skipped or adjusted twice. */
  lemma RankOwner(n: nat, size: nat, k: nat) returns (rank: nat)
    requires size >= 1 && k < n
    ensures rank < size && RankBounds(n, size, rank).0 <= k < RankBounds(n, size, rank).1
    ensures forall other: nat :: other < size && RankBounds(n, size, other).0 <= k < RankBounds(n, size, other).1
              ==> other == rank
  {
    RankSlicesTile(n, size, 0);
    rank := OwnerFrom(n, size, k, 0);
    forall other: nat | other < size && RankBounds(n, size, other).0 <= k < RankBounds(n, size, other).1
      ensures other == rank
    {
      if other < rank {
        RankSlicesOrdered(n, size, other, rank);
      } else if rank < other {
        RankSlicesOrdered(n, size, rank, other);
      }
    }
  }

  /** Lines 96-99: `all_files[lo:hi]` for rank `rank`. */
  function MyFiles(names: seq<string>, size: nat, rank: nat): seq<string>
    requires size >= 1
  {
    var b := RankBounds(|names|, size, rank);
    Slice(names, b.0, b.1)
  }

  // ---------------------------------------------------------------------------
  // Rescaling one table (lines 30-44)

  datatype Kind = STable | ATable | Neither

  /** Lines 35 and 40: the test is on the whole path, and `_S.csv` is tested first. */
  function KindOf(path: string): Kind {
    if Contains(path, "_S.csv") then STable
    else if Contains(path, "_A.csv") then ATable
    else Neither
  }

  /** With a temporary directory whose path holds neither pattern, the path test is a test of the name. */
  lemma KindOfJoin(tmpDir: string, name: string)
    requires !Contains(tmpDir, "_S.csv") && !Contains(tmpDir, "_A.csv")
    ensures KindOf(Join(tmpDir, name)) == KindOf(name)
  {
    JoinContains(tmpDir, name, "_S.csv");
    JoinContains(tmpDir, name, "_A.csv");
  }

  /**
    Lines 36-39 and 41-44: the table read with its index column, its data
    columns divided (S) or multiplied (A) by the square root of the table's own
    row count, written back with the index.
   */
  function Rescaled(t: Table, kind: Kind): (r: Table)
    requires |t.columns| >= 1 && kind != Neither
    ensures r.rows == t.rows && |r.columns| == |t.columns| && r.columns[0] == t.columns[0]
    ensures forall k :: 1 <= k < |t.columns| ==>
              && r.columns[k].header == t.columns[k].header
              && r.columns[k].scaling == t.columns[k].scaling + [if kind == STable then DivSqrt(t.rows) else MulSqrt(t.rows)]
  {
    ScaleData(t, if kind == STable then DivSqrt(t.rows) else MulSqrt(t.rows))
  }

  /** `adjust_matrix(os.path.join(tmp_dir, name))` */
  function AdjustMatrix(dir: Directory, tmpDir: string, name: string): (r: Result<Directory, Error>)
    ensures KindOf(Join(tmpDir, name)) == Neither ==> r == Ok(dir)
    ensures KindOf(Join(tmpDir, name)) != Neither ==> (r.Ok? <==> ReadCsv(dir, name).Ok?)
    ensures r.Ok? && KindOf(Join(tmpDir, name)) != Neither ==>
              r.value == dir[name := File(Csv(Rescaled(ReadCsv(dir, name).value, KindOf(Join(tmpDir, name)))))]
    ensures r.Err? ==> r.error == ReadCsv(dir, name).error
  {
    var kind := KindOf(Join(tmpDir, name));
    if kind == Neither then Ok(dir)
    else
      var t :- ReadCsv(dir, name);
      Ok(WriteCsv(dir, name, Rescaled(t, kind)))
  }

  /** Lines 102-103: the names adjusted one after the other; the first failure stops the rank. */
  function AdjustAll(dir: Directory, tmpDir: string, names: seq<string>): Outcome
    decreases |names|
  {
    if names == [] then Outcome(dir, None)
    else match AdjustMatrix(dir, tmpDir, names[0])
      case Err(e) => Outcome(dir, Some(e))
      case Ok(d) => AdjustAll(d, tmpDir, names[1..])
  }

  /** The loop of lines 102-103. */
  method AdjustMyFiles(dir: Directory, tmpDir: string, myFiles: seq<string>) returns (out: Outcome)
    ensures out == AdjustAll(dir, tmpDir, myFiles)
  {
    var d := dir;
    for k := 0 to |myFiles|
      invariant AdjustAll(d, tmpDir, myFiles[k..]) == AdjustAll(dir, tmpDir, myFiles)
    {
      assert myFiles[k..][0] == myFiles[k] && myFiles[k..][1..] == myFiles[k + 1..];
      var kind := KindOf(Join(tmpDir, myFiles[k]));
      if kind != Neither {
        var t := ReadCsv(d, myFiles[k]);
        if t.Err? {
          return Outcome(d, Some(t.error));
        }
        d := WriteCsv(d, myFiles[k], Rescaled(t.value, kind));
      }
    }
    assert myFiles[|myFiles|..] == [];
    out := Outcome(d, None);
  }

  /** Adjusting `xs + ys` is adjusting `xs`, then, if that succeeded, `ys`. */
  lemma {:induction false} AdjustAllAppend(dir: Directory, tmpDir: string, xs: seq<string>, ys: seq<string>)
    ensures AdjustAll(dir, tmpDir, xs + ys) ==
            var o := AdjustAll(dir, tmpDir, xs);
            if o.error.Some? then o else AdjustAll(o.dir, tmpDir, ys)
    decreases |xs|
  {
    if xs == [] {
      assert xs + ys == ys;
    } else {
      assert (xs + ys)[0] == xs[0] && (xs + ys)[1..] == xs[1..] + ys;
      match AdjustMatrix(dir, tmpDir, xs[0])
      case Err(_) =>
      case Ok(d) => AdjustAllAppend(d, tmpDir, xs[1..], ys);
    }
  }

  /** The ranks from `rank` on, one after the other, each adjusting its own slice. */
  function AdjustRanksFrom(dir: Directory, tmpDir: string, names: seq<string>, size: nat, rank: nat): Outcome
    requires size >= 1
    decreases size - rank
  {
    if rank >= size then Outcome(dir, None)
    else
      var o := AdjustAll(dir, tmpDir, MyFiles(names, size, rank));
      if o.error.Some? then o else AdjustRanksFrom(o.dir, tmpDir, names, size, rank + 1)
  }

  /** Rank `rank`'s slice lies within the names and ends where the next rank's begins. */
  lemma RankSliceWithin(n: nat, size: nat, rank: nat)
    requires size >= 1 && rank <= size
    ensures RankBounds(n, size, rank).0 <= n
    ensures rank == size ==> RankBounds(n, size, rank).0 == n
    ensures rank < size ==> && RankBounds(n, size, rank).0 <= RankBounds(n, size, rank).1 <= n
                            && RankBounds(n, size, rank).1 == RankBounds(n, size, rank + 1).0
  {
    RankSlicesTile(n, size, rank);
    if rank < size {
      RankSlicesOrdered(n, size, rank, size);
    }
  }

  lemma {:induction false} AdjustRanksFromSuffix(dir: Directory, tmpDir: string, names: seq<string>, size: nat, rank: nat)
    requires size >= 1 && rank <= size
    ensures RankBounds(|names|, size, rank).0 <= |names|
    ensures AdjustRanksFrom(dir, tmpDir, names, size, rank) ==
            AdjustAll(dir, tmpDir, names[RankBounds(|names|, size, rank).0..])
    decreases size - rank
  {
    var n := |names|;
    RankSliceWithin(n, size, rank);
    if rank == size {
      assert names[n..] == [];
    } else {
      var lo, hi := RankBounds(n, size, rank).0, RankBounds(n, size, rank).1;
      assert MyFiles(names, size, rank) == names[lo..hi];
      assert names[lo..] == names[lo..hi] + names[hi..];
      AdjustAllAppend(dir, tmpDir, names[lo..hi], names[hi..]);
      var o := AdjustAll(dir, tmpDir, MyFiles(names, size, rank));
      if o.error.None? {
        AdjustRanksFromSuffix(o.dir, tmpDir, names, size, rank + 1);
      }
    }
  }

  /**
    Running every rank's slice, rank after rank, is one pass over all the names
    in listing order.
   */
  lemma RanksAdjustEachOnce(dir: Directory, tmpDir: string, names: seq<string>, size: nat)
    requires size >= 1
    ensures AdjustRanksFrom(dir, tmpDir, names, size, 0) == AdjustAll(dir, tmpDir, names)
  {
    AdjustRanksFromSuffix(dir, tmpDir, names, size, 0);
    RankSlicesTile(|names|, size, 0);
    assert names[0..] == names;
  }

  /** Whether adjusting `name` can succeed: it is not a matrix path, or it reads as a CSV. */
  predicate Adjustable(dir: Directory, tmpDir: string, name: string) {
    KindOf(Join(tmpDir, name)) == Neither || ReadCsv(dir, name).Ok?
  }

  /** What the entry `name` holds once it has been adjusted. */
  function Adjusted(dir: Directory, tmpDir: string, name: string): Entry
    requires name in dir
  {
    var kind := KindOf(Join(tmpDir, name));
    if kind == Neither || ReadCsv(dir, name).Err? then dir[name]
    else File(Csv(Rescaled(ReadCsv(dir, name).value, kind)))
  }

  /**
    A pass over distinct names succeeds exactly when every one of them can be
    adjusted; it then rescales each once, from its original contents, and
    touches nothing else. A failure is the read error of one of the names.
   */
  lemma {:induction false} AdjustAllResult(dir: Directory, tmpDir: string, names: seq<string>)
    requires Distinct(names)
    ensures var out := AdjustAll(dir, tmpDir, names);
            out.error.None? <==> forall n :: n in names ==> Adjustable(dir, tmpDir, n)
    ensures var out := AdjustAll(dir, tmpDir, names);
            out.error.None? ==>
              && out.dir.Keys == dir.Keys
              && forall n :: n in dir ==> out.dir[n] == if n in names then Adjusted(dir, tmpDir, n) else dir[n]
    ensures var out := AdjustAll(dir, tmpDir, names);
            out.error.Some? ==> exists n :: n in names && !Adjustable(dir, tmpDir, n) && out.error.value == ReadCsv(dir, n).error
    decreases |names|
  {
    if names != [] {
      var x := names[0];
      assert names == [x] + names[1..];
      match AdjustMatrix(dir, tmpDir, x)
      case Err(e) =>
        assert !Adjustable(dir, tmpDir, x);
      case Ok(d) =>
        forall i, j | 0 <= i < j < |names[1..]| ensures names[1..][i] != names[1..][j] {
          assert names[1..][i] == names[i + 1] && names[1..][j] == names[j + 1];
        }
        assert x !in names[1..];
        assert forall n :: n != x ==> ReadCsv(d, n) == ReadCsv(dir, n);
        assert forall n :: n != x ==> Adjustable(d, tmpDir, n) == Adjustable(dir, tmpDir, n);
        assert forall n :: n in dir && n != x ==> Adjusted(d, tmpDir, n) == Adjusted(dir, tmpDir, n);
        AdjustAllResult(d, tmpDir, names[1..]);
    }
  }

  // ---------------------------------------------------------------------------
  // Renumbering (lines 46-61)

  /** `_<type>.csv`, the ending that marks a table of that type. */
  function TypeSuffix(fileType: string): string {
    "_" + fileType + ".csv"
  }

  /** Lines 50-51: the listed names ending in `_<type>.csv`, in listing order. */
  function Group(listing: seq<string>, fileType: string): (r: seq<string>)
    ensures forall f :: f in r <==> f in listing && EndsWith(f, TypeSuffix(fileType))
    ensures Distinct(listing) ==> Distinct(r)
  {
    Filter(listing, f => EndsWith(f, TypeSuffix(fileType)))
  }

  /** Lines 54-56 or 59-61 from position `i` on: `files[i]` becomes `proc_<i>_<type>.csv`. */
  function RenameFrom(dir: Directory, files: seq<string>, fileType: string, i: nat): Outcome
    requires i <= |files|
    decreases |files| - i
  {
    if i == |files| then Outcome(dir, None)
    else match Rename(dir, files[i], ProcFile(i, fileType))
      case Err(e) => Outcome(dir, Some(e))
      case Ok(d) => RenameFrom(d, files, fileType, i + 1)
  }

  /**
    Renumbering overwrites silently when the ids do not start at 0. With ids
    -1 and 0, `p_-1_A.csv` sorts first and is renamed onto the existing
    `proc_0_A.csv`, which is then renamed to `proc_1_A.csv`: the table first
    stored as `proc_0_A.csv` is lost and the loop reports nothing. (The name
    prefixes are parameters so that the proof never splits a string literal.)
   */
  lemma RenumberOverwrites(x: string, t1: Table, t2: Table)
    requires x == "p"
    ensures var a, b := x + "_-1_A.csv", ProcFile(0, "A");
            var dir := map[a := File(Csv(t1)), b := File(Csv(t2))];
            && SortById([b, a]) == Ok([a, b])
            && RenameFrom(dir, [a, b], "A", 0) == Outcome(map[ProcFile(1, "A") := File(Csv(t1))], None)
  {
    var a, b := x + "_-1_A.csv", ProcFile(0, "A");
    IdOf(a, x, "-1", "A.csv", -1);
    ProcFileId(0, "A");
    SortTwo(a, b);
    RenameOnto(a, b, ProcFile(1, "A"), File(Csv(t1)), File(Csv(t2)));
  }

  /** Two names with integer ids, the smaller listed second, come out swapped. */
  lemma SortTwo(a: string, b: string)
    requires HasIntegerId(a) && HasIntegerId(b) && SortKey(a) < SortKey(b)
    ensures SortById([b, a]) == Ok([a, b])
  {
    assert Distinct([b, a]);
    var v := SortById([b, a]).value;
    assert |v| == 2 by { assert |multiset(v)| == |multiset([b, a])|; }
    OrderedPair(v, a, b);
  }

  /** Two distinct names from `{a, b}` in ascending key order, with `a`'s key the smaller, are `[a, b]`. */
  lemma OrderedPair(v: seq<string>, a: string, b: string)
    requires |v| == 2 && (v[0] == a || v[0] == b) && (v[1] == a || v[1] == b) && v[0] != v[1]
    requires SortKey(v[0]) <= SortKey(v[1]) && SortKey(a) < SortKey(b)
    ensures v == [a, b]
  {
  }

  /**
    Renaming `a` to `proc_0_A.csv` while `b` already holds that name, then `b`
    to `c`: only `c` is left, holding `a`'s entry.
   */
  lemma RenameOnto(a: string, b: string, c: string, ea: Entry, eb: Entry)
    requires b == ProcFile(0, "A") && c == ProcFile(1, "A") && a != b && ea.File? && eb.File?
    ensures RenameFrom(map[a := ea, b := eb], [a, b], "A", 0) == Outcome(map[c := ea], None)
  {
    ProcFileInjective(0, "A", 1, "A");
    var dir := map[a := ea, b := eb];
    var d1 := map[b := ea];
    assert (dir - {a})[b := dir[a]] == d1;
    assert Rename(dir, a, b) == Ok(d1);
    assert (d1 - {b})[c := d1[b]] == map[c := ea];
    assert Rename(d1, b, c) == Ok(map[c := ea]);
    assert RenameFrom(d1, [a, b], "A", 1) == RenameFrom(map[c := ea], [a, b], "A", 2);
  }

  /** The sort key of `<x>_<id>_<z>` when `id` parses to `v`. */
  lemma IdOf(n: string, x: string, id: string, z: string, v: int)
    requires '_' !in x && '_' !in id && '_' !in z
    requires n == x + ['_'] + id + ['_'] + z
    requires ParseInt(id) == Some(v)
    ensures HasIntegerId(n) && SortKey(n) == v
  {
    SplitThree(x, '_', id, z);
    assert n[|x|] == '_';
  }

  /** One of the two renaming loops. */
  method RenameGroup(dir: Directory, files: seq<string>, fileType: string) returns (out: Outcome)
    ensures out == RenameFrom(dir, files, fileType, 0)
  {
    var d := dir;
    for i := 0 to |files|
      invariant RenameFrom(d, files, fileType, i) == RenameFrom(dir, files, fileType, 0)
    {
      var src, dst := files[i], ProcFile(i, fileType);
      if src !in d {
        return Outcome(d, Some(FileNotFound(src)));
      }
      if src != dst {
        if dst in d && (d[src].Folder? || d[dst].Folder?) {
          return Outcome(d, Some(IsADirectory(dst)));
        }
        d := (d - {src})[dst := d[src]];
      }
    }
    out := Outcome(d, None);
  }

  /** `rename_files_sequentially`: both lists are sorted before anything is renamed. */
  function RenameSequentially(dir: Directory, listing: seq<string>): Outcome {
    match SortById(Group(listing, "A"))
    case Err(e) => Outcome(dir, Some(e))
    case Ok(aFiles) =>
      match SortById(Group(listing, "S"))
      case Err(e) => Outcome(dir, Some(e))
      case Ok(sFiles) =>
        var a := RenameFrom(dir, aFiles, "A", 0);
        if a.error.Some? then a else RenameFrom(a.dir, sFiles, "S", 0)
  }

  method RenameFilesSequentially(dir: Directory, listing: seq<string>) returns (out: Outcome)
    ensures out == RenameSequentially(dir, listing)
  {
    var aSorted := SortById(Group(listing, "A"));
    if aSorted.Err? {
      return Outcome(dir, Some(aSorted.error));
    }
    var sSorted := SortById(Group(listing, "S"));
    if sSorted.Err? {
      return Outcome(dir, Some(sSorted.error));
    }
    out := RenameGroup(dir, aSorted.value, "A");
    if out.error.None? {
      out := RenameGroup(out.dir, sSorted.value, "S");
    }
  }

  /** `n` is one of `files[i..]`. */
  predicate IsSource(n: string, files: seq<string>, i: nat) {
    exists k :: i <= k < |files| && files[k] == n
  }

  /** `n` is `proc_<j>_<type>.csv` for some position `j` in `[i, m)`. */
  predicate IsTarget(n: string, fileType: string, i: nat, m: nat) {
    exists j: nat :: i <= j < m && n == ProcFile(j, fileType)
  }

  /**
    Renaming distinct regular files, no one of them named like the target of an
    earlier position and no target a folder, succeeds: position `j`'s target
    holds the `j`-th file's original contents, names that are neither sources
    nor targets are untouched, and a source that is not itself a target is gone.
   */
  lemma RenameFromResult(dir: Directory, files: seq<string>, fileType: string, i: nat)
    requires '_' !in fileType && i <= |files| && Distinct(files)
    requires forall k :: i <= k < |files| ==> files[k] in dir && dir[files[k]].File?
    requires forall j, k :: i <= j < k < |files| ==> ProcFile(j, fileType) != files[k]
    requires forall j: nat :: i <= j < |files| && ProcFile(j, fileType) in dir ==> dir[ProcFile(j, fileType)].File?
    ensures var out := RenameFrom(dir, files, fileType, i);
            && out.error.None?
            && (forall j :: i <= j < |files| ==> ProcFile(j, fileType) in out.dir && out.dir[ProcFile(j, fileType)] == dir[files[j]])
            && (forall n :: n in dir && !IsSource(n, files, i) && !IsTarget(n, fileType, i, |files|) ==> n in out.dir && out.dir[n] == dir[n])
            && (forall n :: n in out.dir ==> n in dir || IsTarget(n, fileType, i, |files|))
            && (forall k :: i <= k < |files| && !IsTarget(files[k], fileType, i, |files|) ==> files[k] !in out.dir)
  {
    RenameFromFrame(dir, files, fileType, i);
    RenameFromTargets(dir, files, fileType, i);
    RenameFromGone(dir, files, fileType, i);
  }

  /** What the requirements of `RenameFromResult` give for one rename and the directory it leaves. */
  predicate RenameReady(dir: Directory, files: seq<string>, fileType: string, i: nat) {
    && '_' !in fileType && i <= |files| && Distinct(files)
    && (forall k :: i <= k < |files| ==> files[k] in dir && dir[files[k]].File?)
    && (forall j, k :: i <= j < k < |files| ==> ProcFile(j, fileType) != files[k])
    && (forall j: nat :: i <= j < |files| && ProcFile(j, fileType) in dir ==> dir[ProcFile(j, fileType)].File?)
  }

  /**
    The first rename succeeds, moves the first file to the first target,
    leaves the later targets unclaimed by it, and the rest of the run starts
    ready again.
   */
  lemma RenameStep(dir: Directory, files: seq<string>, fileType: string, i: nat)
    requires RenameReady(dir, files, fileType, i) && i < |files|
    ensures Rename(dir, files[i], ProcFile(i, fileType)).Ok?
    ensures RenameReady(Rename(dir, files[i], ProcFile(i, fileType)).value, files, fileType, i + 1)
    ensures forall j: nat :: i < j < |files| ==> ProcFile(j, fileType) != ProcFile(i, fileType)
    ensures forall k :: i < k < |files| ==> files[k] != files[i]
  {
    var src, dst := files[i], ProcFile(i, fileType);
    forall j: nat | i < j < |files| ensures ProcFile(j, fileType) != dst {
      ProcFileInjective(j, fileType, i, fileType);
    }
    assert forall k :: i < k < |files| ==> files[k] != src;
  }

  /** The run succeeds, names that are neither sources nor targets are untouched, and nothing else appears. */
  lemma {:induction false} RenameFromFrame(dir: Directory, files: seq<string>, fileType: string, i: nat)
    requires RenameReady(dir, files, fileType, i)
    ensures var out := RenameFrom(dir, files, fileType, i);
            && out.error.None?
            && (forall n :: n in dir && !IsSource(n, files, i) && !IsTarget(n, fileType, i, |files|) ==> n in out.dir && out.dir[n] == dir[n])
            && (forall n :: n in out.dir ==> n in dir || IsTarget(n, fileType, i, |files|))
    decreases |files| - i
  {
    if i < |files| {
      var src, dst := files[i], ProcFile(i, fileType);
      RenameStep(dir, files, fileType, i);
      var d := Rename(dir, src, dst).value;
      RenameFromFrame(d, files, fileType, i + 1);
      var out := RenameFrom(d, files, fileType, i + 1);
      forall n | n in dir && !IsSource(n, files, i) && !IsTarget(n, fileType, i, |files|)
        ensures n in out.dir && out.dir[n] == dir[n]
      {
        assert n != dst && n != src;
      }
      forall n | n in out.dir ensures n in dir || IsTarget(n, fileType, i, |files|) {
        if IsTarget(n, fileType, i + 1, |files|) {
          var j: nat :| i + 1 <= j < |files| && n == ProcFile(j, fileType);
          assert IsTarget(n, fileType, i, |files|);
        } else if n == dst {
          assert IsTarget(n, fileType, i, |files|);
        }
      }
    }
  }

  /** Position `j`'s target ends up with the `j`-th file's original contents. */
  lemma {:induction false} RenameFromTargets(dir: Directory, files: seq<string>, fileType: string, i: nat)
    requires RenameReady(dir, files, fileType, i)
    ensures var out := RenameFrom(dir, files, fileType, i);
            forall j :: i <= j < |files| ==> ProcFile(j, fileType) in out.dir && out.dir[ProcFile(j, fileType)] == dir[files[j]]
    decreases |files| - i
  {
    if i < |files| {
      var src, dst := files[i], ProcFile(i, fileType);
      RenameStep(dir, files, fileType, i);
      var d := Rename(dir, src, dst).value;
      RenameFromTargets(d, files, fileType, i + 1);
      RenameFromFrame(d, files, fileType, i + 1);
      assert !IsSource(dst, files, i + 1);
      assert !IsTarget(dst, fileType, i + 1, |files|);
    }
  }

  /** A source that is not itself one of the targets is gone afterwards. */
  lemma {:induction false} RenameFromGone(dir: Directory, files: seq<string>, fileType: string, i: nat)
    requires RenameReady(dir, files, fileType, i)
    ensures var out := RenameFrom(dir, files, fileType, i);
            forall k :: i <= k < |files| && !IsTarget(files[k], fileType, i, |files|) ==> files[k] !in out.dir
    decreases |files| - i
  {
    if i < |files| {
      var src, dst := files[i], ProcFile(i, fileType);
      RenameStep(dir, files, fileType, i);
      var d := Rename(dir, src, dst).value;
      RenameFromGone(d, files, fileType, i + 1);
      RenameFromFrame(d, files, fileType, i + 1);
      var out := RenameFrom(d, files, fileType, i + 1);
      forall k | i <= k < |files| && !IsTarget(files[k], fileType, i, |files|)
        ensures files[k] !in out.dir
      {
        if k == i {
          assert src != dst by {
            assert IsTarget(dst, fileType, i, |files|);
          }
          assert src !in d;
        }
      }
    }
  }

  /** Distinct non-negative ids in ascending order are each at least their position. */
  lemma {:induction false} IdsAtLeastPosition(files: seq<string>, k: nat)
    requires forall i, j :: 0 <= i < j < |files| ==> SortKey(files[i]) < SortKey(files[j])
    requires forall i :: 0 <= i < |files| ==> SortKey(files[i]) >= 0
    requires k < |files|
    ensures SortKey(files[k]) >= k
  {
    if k > 0 {
      IdsAtLeastPosition(files, k - 1);
    }
  }

  /**
    With distinct non-negative ids, no target `proc_<j>_<type>.csv` is the name
    of a table still waiting to be renamed: such a table's id is larger than `j`.
   */
  lemma NoTargetClash(files: seq<string>, fileType: string)
    requires '_' !in fileType
    requires forall i, j :: 0 <= i < j < |files| ==> SortKey(files[i]) < SortKey(files[j])
    requires forall i :: 0 <= i < |files| ==> SortKey(files[i]) >= 0
    ensures forall j, k :: 0 <= j < k < |files| ==> ProcFile(j, fileType) != files[k]
  {
    forall j, k | 0 <= j < k < |files| ensures ProcFile(j, fileType) != files[k] {
      IdsAtLeastPosition(files, k);
      ProcFileId(j, fileType);
    }
  }

  /**
    The tables of one type are well numbered: each is a regular file with an
    integer id that is non-negative, and no two share an id.
   */
  ghost predicate WellNumbered(dir: Directory, fileType: string) {
    forall f, g :: f in dir && g in dir && EndsWith(f, TypeSuffix(fileType)) && EndsWith(g, TypeSuffix(fileType)) ==>
      && dir[f].File? && HasIntegerId(f) && SortKey(f) >= 0
      && (f != g ==> SortKey(f) != SortKey(g))
  }

  /** No name ends both in `_A.csv` and in `_S.csv`. */
  lemma TypeSuffixesExclusive(n: string)
    ensures EndsWith(n, TypeSuffix("A")) ==> !EndsWith(n, TypeSuffix("S"))
  {
    if EndsWith(n, TypeSuffix("A")) {
      assert n[|n| - 5] == 'A';
    }
  }

  /**
    `files` is the sorted group of type `fileType` in `dir`: every table of that
    type once, in strictly ascending non-negative id order, and every name of
    that type a regular file.
   */
  ghost predicate Renumberable(dir: Directory, files: seq<string>, fileType: string) {
    && Distinct(files)
    && (forall i, j :: 0 <= i < j < |files| ==> SortKey(files[i]) < SortKey(files[j]))
    && (forall i :: 0 <= i < |files| ==> SortKey(files[i]) >= 0)
    && (forall f :: f in files <==> f in dir && EndsWith(f, TypeSuffix(fileType)))
    && (forall f :: f in dir && EndsWith(f, TypeSuffix(fileType)) ==> dir[f].File?)
  }

  /**
    Renumbering a sorted group succeeds; afterwards the tables of that type are
    exactly `proc_0_<type>.csv` .. `proc_<m-1>_<type>.csv`, the `j`-th holding
    the table with the `j`-th smallest id, and no other name has changed.
   */
  lemma RenumberGroup(dir: Directory, files: seq<string>, fileType: string)
    requires fileType == "A" || fileType == "S"
    requires Renumberable(dir, files, fileType)
    ensures var out := RenameFrom(dir, files, fileType, 0);
            && out.error.None?
            && (forall j :: 0 <= j < |files| ==> ProcFile(j, fileType) in out.dir && out.dir[ProcFile(j, fileType)] == dir[files[j]])
            && (forall n :: n in out.dir && EndsWith(n, TypeSuffix(fileType)) ==> IsTarget(n, fileType, 0, |files|))
            && (forall n :: n in dir && !EndsWith(n, TypeSuffix(fileType)) ==> n in out.dir && out.dir[n] == dir[n])
            && (forall n :: n in out.dir && !EndsWith(n, TypeSuffix(fileType)) ==> n in dir)
  {
    var suffix := TypeSuffix(fileType);
    NoTargetClash(files, fileType);
    forall j: nat | 0 <= j < |files| && ProcFile(j, fileType) in dir ensures dir[ProcFile(j, fileType)].File? {
      ProcFileSuffix(j, fileType);
    }
    assert forall k :: 0 <= k < |files| ==> files[k] in files;
    RenameFromResult(dir, files, fileType, 0);
    var out := RenameFrom(dir, files, fileType, 0);
    forall n | IsTarget(n, fileType, 0, |files|) ensures EndsWith(n, suffix) {
      var j: nat :| 0 <= j < |files| && n == ProcFile(j, fileType);
      ProcFileSuffix(j, fileType);
    }
    forall n | n in out.dir && EndsWith(n, suffix) ensures IsTarget(n, fileType, 0, |files|) {
      if n in dir {
        var k :| 0 <= k < |files| && files[k] == n;
      }
    }
  }

  /** A group stays renumberable in a directory that agrees on every name of its type. */
  lemma RenumberableElsewhere(dir: Directory, d: Directory, files: seq<string>, fileType: string)
    requires Renumberable(dir, files, fileType)
    requires forall n :: EndsWith(n, TypeSuffix(fileType)) ==> (n in d <==> n in dir)
    requires forall n :: n in d && EndsWith(n, TypeSuffix(fileType)) ==> d[n] == dir[n]
    ensures Renumberable(d, files, fileType)
  {
  }

  /** The group of one type in a listing of `dir`, once sorted, can be renumbered. */
  lemma SortedGroup(dir: Directory, listing: seq<string>, fileType: string)
    requires fileType == "A" || fileType == "S"
    requires IsListing(dir, listing) && WellNumbered(dir, fileType)
    ensures SortById(Group(listing, fileType)).Ok?
    ensures Renumberable(dir, SortById(Group(listing, fileType)).value, fileType)
  {
    var group := Group(listing, fileType);
    assert Distinct(listing);
    var files := SortById(group).value;
    forall i, j | 0 <= i < j < |files| ensures SortKey(files[i]) < SortKey(files[j]) {
      GroupMember(dir, listing, fileType, files[i]);
      GroupMember(dir, listing, fileType, files[j]);
    }
    forall i | 0 <= i < |files| ensures SortKey(files[i]) >= 0 {
      GroupMember(dir, listing, fileType, files[i]);
    }
    forall f | f in dir && EndsWith(f, TypeSuffix(fileType)) ensures f in files && dir[f].File? {
      assert f in listing;
      GroupMember(dir, listing, fileType, f);
    }
  }

  /** A member of a listed group is a table of that type in `dir`, with a non-negative id. */
  lemma GroupMember(dir: Directory, listing: seq<string>, fileType: string, f: string)
    requires IsListing(dir, listing) && WellNumbered(dir, fileType)
    requires f in Group(listing, fileType)
    ensures f in dir && EndsWith(f, TypeSuffix(fileType)) && dir[f].File? && HasIntegerId(f) && SortKey(f) >= 0
  {
  }

  /**
    The A loop followed by the S loop on two renumberable groups: the A tables
    become `proc_<j>_A.csv`, then the S tables `proc_<j>_S.csv`, and every other
    name is kept.
   */
  lemma RenumberBoth(dir: Directory, aFiles: seq<string>, sFiles: seq<string>)
    requires Renumberable(dir, aFiles, "A") && Renumberable(dir, sFiles, "S")
    ensures var a := RenameFrom(dir, aFiles, "A", 0);
            var out := RenameFrom(a.dir, sFiles, "S", 0);
            && a.error.None? && out.error.None?
            && (forall j :: 0 <= j < |aFiles| ==> ProcFile(j, "A") in out.dir && out.dir[ProcFile(j, "A")] == dir[aFiles[j]])
            && (forall j :: 0 <= j < |sFiles| ==> ProcFile(j, "S") in out.dir && out.dir[ProcFile(j, "S")] == dir[sFiles[j]])
            && (forall n :: n in out.dir && EndsWith(n, TypeSuffix("A")) ==> IsTarget(n, "A", 0, |aFiles|))
            && (forall n :: n in out.dir && EndsWith(n, TypeSuffix("S")) ==> IsTarget(n, "S", 0, |sFiles|))
            && (forall n :: n in dir && !EndsWith(n, TypeSuffix("A")) && !EndsWith(n, TypeSuffix("S")) ==> n in out.dir && out.dir[n] == dir[n])
  {
    RenumberPass(dir, aFiles, "A");
    var a := RenameFrom(dir, aFiles, "A", 0);
    SGroupAfterA(dir, aFiles, sFiles);
    RenumberPass(a.dir, sFiles, "S");
    ChainPasses(dir, a.dir, RenameFrom(a.dir, sFiles, "S", 0).dir, aFiles, sFiles);
  }

  /**
    `after` is what renumbering `files` of type `fileType` in `before` leaves:
    the `j`-th table is `proc_<j>_<type>.csv`, no other name of that type is
    left, and every name of another type is kept.
   */
  ghost predicate RenumberedFrom(before: Directory, after: Directory, files: seq<string>, fileType: string) {
    && (forall j :: 0 <= j < |files| ==> files[j] in before)
    && (forall j :: 0 <= j < |files| ==> ProcFile(j, fileType) in after && after[ProcFile(j, fileType)] == before[files[j]])
    && (forall n :: n in after && EndsWith(n, TypeSuffix(fileType)) ==> IsTarget(n, fileType, 0, |files|))
    && (forall n :: n in before && !EndsWith(n, TypeSuffix(fileType)) ==> n in after && after[n] == before[n])
    && (forall n :: n in after && !EndsWith(n, TypeSuffix(fileType)) ==> n in before)
  }

  /** RenumberGroup, stated as one relation between the directories. */
  lemma RenumberPass(dir: Directory, files: seq<string>, fileType: string)
    requires fileType == "A" || fileType == "S"
    requires Renumberable(dir, files, fileType)
    ensures RenameFrom(dir, files, fileType, 0).error.None?
    ensures RenumberedFrom(dir, RenameFrom(dir, files, fileType, 0).dir, files, fileType)
  {
    RenumberGroup(dir, files, fileType);
  }

  /** What the A pass and then the S pass each promise, composed. */
  lemma ChainPasses(dir: Directory, a: Directory, out: Directory, aFiles: seq<string>, sFiles: seq<string>)
    requires RenumberedFrom(dir, a, aFiles, "A") && RenumberedFrom(a, out, sFiles, "S")
    requires forall j :: 0 <= j < |sFiles| ==> sFiles[j] in dir && EndsWith(sFiles[j], TypeSuffix("S"))
    ensures forall j :: 0 <= j < |aFiles| ==> ProcFile(j, "A") in out && out[ProcFile(j, "A")] == dir[aFiles[j]]
    ensures forall j :: 0 <= j < |sFiles| ==> ProcFile(j, "S") in out && out[ProcFile(j, "S")] == dir[sFiles[j]]
    ensures forall n :: n in out && EndsWith(n, TypeSuffix("A")) ==> IsTarget(n, "A", 0, |aFiles|)
    ensures forall n :: n in out && EndsWith(n, TypeSuffix("S")) ==> IsTarget(n, "S", 0, |sFiles|)
    ensures forall n :: n in dir && !EndsWith(n, TypeSuffix("A")) && !EndsWith(n, TypeSuffix("S")) ==> n in out && out[n] == dir[n]
  {
    forall j | 0 <= j < |aFiles| ensures ProcFile(j, "A") in out && out[ProcFile(j, "A")] == dir[aFiles[j]] {
      ProcFileSuffix(j, "A");
      TypeSuffixesExclusive(ProcFile(j, "A"));
    }
    forall n | n in out && EndsWith(n, TypeSuffix("A")) ensures IsTarget(n, "A", 0, |aFiles|) {
      TypeSuffixesExclusive(n);
    }
    forall j | 0 <= j < |sFiles| ensures ProcFile(j, "S") in out && out[ProcFile(j, "S")] == dir[sFiles[j]] {
      TypeSuffixesExclusive(sFiles[j]);
    }
  }

  /** Renaming the A tables leaves the S group renumberable. */
  lemma SGroupAfterA(dir: Directory, aFiles: seq<string>, sFiles: seq<string>)
    requires Renumberable(dir, aFiles, "A") && Renumberable(dir, sFiles, "S")
    ensures Renumberable(RenameFrom(dir, aFiles, "A", 0).dir, sFiles, "S")
  {
    RenumberGroup(dir, aFiles, "A");
    var a := RenameFrom(dir, aFiles, "A", 0);
    forall n ensures EndsWith(n, TypeSuffix("A")) ==> !EndsWith(n, TypeSuffix("S")) {
      TypeSuffixesExclusive(n);
    }
    RenumberableElsewhere(dir, a.dir, sFiles, "S");
  }

  /**
    Lines 46-61 on a directory whose A and S tables are well numbered: both
    renaming loops succeed, the A tables become `proc_0_A.csv`, `proc_1_A.csv`,
    ... in ascending id order, then the S tables likewise, and every name that
    is neither an A nor an S table is left as it was.
   */
  lemma RenameSequentiallyResult(dir: Directory, listing: seq<string>)
    requires IsListing(dir, listing) && WellNumbered(dir, "A") && WellNumbered(dir, "S")
    ensures SortById(Group(listing, "A")).Ok? && SortById(Group(listing, "S")).Ok?
    ensures var aFiles, sFiles := SortById(Group(listing, "A")).value, SortById(Group(listing, "S")).value;
            var out := RenameSequentially(dir, listing);
            && out.error.None?
            && (forall j :: 0 <= j < |aFiles| ==> ProcFile(j, "A") in out.dir && out.dir[ProcFile(j, "A")] == dir[aFiles[j]])
            && (forall j :: 0 <= j < |sFiles| ==> ProcFile(j, "S") in out.dir && out.dir[ProcFile(j, "S")] == dir[sFiles[j]])
            && (forall n :: n in out.dir && EndsWith(n, TypeSuffix("A")) ==> IsTarget(n, "A", 0, |aFiles|))
            && (forall n :: n in out.dir && EndsWith(n, TypeSuffix("S")) ==> IsTarget(n, "S", 0, |sFiles|))
            && (forall n :: n in dir && !EndsWith(n, TypeSuffix("A")) && !EndsWith(n, TypeSuffix("S")) ==> n in out.dir && out.dir[n] == dir[n])
  {
    SortedGroup(dir, listing, "A");
    SortedGroup(dir, listing, "S");
    var aFiles, sFiles := SortById(Group(listing, "A")).value, SortById(Group(listing, "S")).value;
    RenumberBoth(dir, aFiles, sFiles);
    var a := RenameFrom(dir, aFiles, "A", 0);
    assert RenameSequentially(dir, listing) == RenameFrom(a.dir, sFiles, "S", 0);
  }

  // ---------------------------------------------------------------------------
  // The whole script (lines 78-117)

  /**
    Rank 0 prunes, every rank adjusts its slice of the tables listed after the
    pruning, and rank 0 renumbers what is then listed. The three listings are
    what `os.listdir` returns at lines 15, 90 and 50-51. `len(all_files) // size`
    raises ZeroDivisionError for an empty communicator.
   */
  function AdjustMain(dir: Directory, tmpDir: string, pruneListing: seq<string>, adjustListing: seq<string>,
                      renameListing: seq<string>, size: nat): Outcome
  {
    var p := Prune(dir, pruneListing);
    if p.error.Some? then p
    else if size == 0 then Outcome(p.dir, Some(DivisionByZero))
    else
      var a := AdjustRanksFrom(p.dir, tmpDir, Filter(adjustListing, IsMatrixFile), size, 0);
      if a.error.Some? then a else RenameSequentially(a.dir, renameListing)
  }

  /**
    However many ranks share the work, the script is the pruning pass, one
    adjusting pass over the listed tables in listing order, and the renumbering.
   */
  lemma AdjustMainIsSequential(dir: Directory, tmpDir: string, pruneListing: seq<string>, adjustListing: seq<string>,
                               renameListing: seq<string>, size: nat)
    requires size >= 1
    ensures AdjustMain(dir, tmpDir, pruneListing, adjustListing, renameListing, size) ==
            var p := Prune(dir, pruneListing);
            if p.error.Some? then p
            else
              var a := AdjustAll(p.dir, tmpDir, Filter(adjustListing, IsMatrixFile));
              if a.error.Some? then a else RenameSequentially(a.dir, renameListing)
  {
    var p := Prune(dir, pruneListing);
    RanksAdjustEachOnce(p.dir, tmpDir, Filter(adjustListing, IsMatrixFile), size);
  }

  /** A table named for its type is one of the names line 90 selects for rescaling. */
  lemma TypedIsMatrix(n: string, fileType: string)
    requires (fileType == "A" || fileType == "S") && EndsWith(n, TypeSuffix(fileType))
    ensures IsMatrixFile(n)
  {
    var t := TypeSuffix(fileType);
    EndsWithContains(n, t);
    assert t == if fileType == "A" then "_A.csv" else "_S.csv";
    assert t[2..] == ".csv";
    assert n[|n| - 4..] == n[|n| - 6..][2..];
  }

  /**
    `a` is what one rescaling pass over the names of `adjustListing` that
    line 90 selects makes of `p`: the same names, each selected name rescaled
    once from its contents in `p`, every other name as it was.
   */
  ghost predicate AdjustedFrom(p: Directory, a: Directory, tmpDir: string, adjustListing: seq<string>) {
    && a.Keys == p.Keys
    && forall n :: n in p ==> a[n] == if n in Filter(adjustListing, IsMatrixFile) then Adjusted(p, tmpDir, n) else p[n]
  }

  /** `proc_<j>_<type>.csv` in `r` holds the rescaled contents of `files[j]` in `p`. */
  ghost predicate RenamedAdjusted(p: Directory, r: Directory, tmpDir: string, files: seq<string>, fileType: string) {
    forall j :: 0 <= j < |files| ==>
      files[j] in p && ProcFile(j, fileType) in r && r[ProcFile(j, fileType)] == Adjusted(p, tmpDir, files[j])
  }

  /** Rescaling leaves regular files regular, so a well-numbered type stays well numbered. */
  lemma AdjustedWellNumbered(p: Directory, a: Directory, tmpDir: string, adjustListing: seq<string>, fileType: string)
    requires AdjustedFrom(p, a, tmpDir, adjustListing) && WellNumbered(p, fileType)
    ensures WellNumbered(a, fileType)
  {
    forall f, g | f in a && g in a && EndsWith(f, TypeSuffix(fileType)) && EndsWith(g, TypeSuffix(fileType))
      ensures a[f].File? && HasIntegerId(f) && SortKey(f) >= 0 && (f != g ==> SortKey(f) != SortKey(g))
    {
      assert f in p && g in p;
      assert p[f].File?;
      if f in Filter(adjustListing, IsMatrixFile) {
        AdjustedKeepsFile(p, tmpDir, f);
      }
    }
  }

  /** Rescaling a regular file leaves a regular file. */
  lemma AdjustedKeepsFile(p: Directory, tmpDir: string, f: string)
    requires f in p && p[f].File?
    ensures Adjusted(p, tmpDir, f).File?
  {
  }

  /** A table of either type was selected for rescaling, and the pass rescaled it. */
  lemma AdjustedMember(p: Directory, a: Directory, tmpDir: string, adjustListing: seq<string>, fileType: string, f: string)
    requires IsListing(p, adjustListing)
    requires fileType == "A" || fileType == "S"
    requires AdjustedFrom(p, a, tmpDir, adjustListing)
    requires f in p && EndsWith(f, TypeSuffix(fileType))
    ensures a[f] == Adjusted(p, tmpDir, f)
  {
    TypedIsMatrix(f, fileType);
  }

  /**
    What the pruning at the head of the script leaves: only deletions, every
    listed empty CSV gone together with its counterpart, and every deleted name
    such a CSV or its counterpart.
   */
  lemma AdjustMainPruned(dir: Directory, tmpDir: string, pruneListing: seq<string>, adjustListing: seq<string>,
                         renameListing: seq<string>, size: nat)
    requires AdjustMain(dir, tmpDir, pruneListing, adjustListing, renameListing, size).error.None?
    ensures var p := Prune(dir, pruneListing);
            && p.error.None?
            && p.dir.Keys <= dir.Keys && (forall n :: n in p.dir ==> p.dir[n] == dir[n])
            && (forall k :: (0 <= k < |pruneListing| && EndsWith(pruneListing[k], ".csv") &&
                             pruneListing[k] in dir && dir[pruneListing[k]] == File(Empty)) ==>
                  pruneListing[k] !in p.dir && Counterpart(pruneListing[k]) !in p.dir)
            && (forall n :: n in dir && n !in p.dir ==> exists k :: DeletedFor(dir, pruneListing, k, n))
  {
    PruneOnlyDeletes(dir, pruneListing);
    PruneDeletesAllEmpty(dir, pruneListing);
    PruneDeletesOnlyEmpty(dir, pruneListing);
  }

  /** The rescaling pass over the selected names of a listing, when it succeeds. */
  lemma AdjustPass(p: Directory, tmpDir: string, adjustListing: seq<string>) returns (a: Directory)
    requires IsListing(p, adjustListing)
    requires AdjustAll(p, tmpDir, Filter(adjustListing, IsMatrixFile)).error.None?
    ensures a == AdjustAll(p, tmpDir, Filter(adjustListing, IsMatrixFile)).dir
    ensures forall n :: n in adjustListing && IsMatrixFile(n) ==> Adjustable(p, tmpDir, n)
    ensures AdjustedFrom(p, a, tmpDir, adjustListing)
  {
    AdjustAllResult(p, tmpDir, Filter(adjustListing, IsMatrixFile));
    a := AdjustAll(p, tmpDir, Filter(adjustListing, IsMatrixFile)).dir;
  }

  /**
    Renumbering the rescaled directory succeeds, and `proc_<j>_<type>.csv`
    holds the `j`-th table of that type, in ascending id order, rescaled from
    its contents in `p`.
   */
  lemma RenumberAdjusted(p: Directory, a: Directory, tmpDir: string, adjustListing: seq<string>, renameListing: seq<string>)
    requires IsListing(p, adjustListing) && IsListing(p, renameListing)
    requires WellNumbered(p, "A") && WellNumbered(p, "S")
    requires AdjustedFrom(p, a, tmpDir, adjustListing)
    ensures SortById(Group(renameListing, "A")).Ok? && SortById(Group(renameListing, "S")).Ok?
    ensures RenameSequentially(a, renameListing).error.None?
    ensures RenamedAdjusted(p, RenameSequentially(a, renameListing).dir, tmpDir, SortById(Group(renameListing, "A")).value, "A")
    ensures RenamedAdjusted(p, RenameSequentially(a, renameListing).dir, tmpDir, SortById(Group(renameListing, "S")).value, "S")
  {
    AdjustedWellNumbered(p, a, tmpDir, adjustListing, "A");
    AdjustedWellNumbered(p, a, tmpDir, adjustListing, "S");
    SameKeysListing(p, a, renameListing);
    SortedGroup(a, renameListing, "A");
    SortedGroup(a, renameListing, "S");
    RenameSequentiallyResult(a, renameListing);
    var r := RenameSequentially(a, renameListing).dir;
    RenamedType(p, a, r, tmpDir, adjustListing, "A", SortById(Group(renameListing, "A")).value);
    RenamedType(p, a, r, tmpDir, adjustListing, "S", SortById(Group(renameListing, "S")).value);
  }

  /**
    After renumbering the rescaled directory the only A and S tables are the
    renumbered ones, and every name of neither type holds its rescaled
    contents if line 90 selected it and its old contents otherwise.
   */
  lemma RenumberAdjustedFrame(p: Directory, a: Directory, tmpDir: string, adjustListing: seq<string>, renameListing: seq<string>)
    requires IsListing(p, adjustListing) && IsListing(p, renameListing)
    requires WellNumbered(p, "A") && WellNumbered(p, "S")
    requires AdjustedFrom(p, a, tmpDir, adjustListing)
    ensures SortById(Group(renameListing, "A")).Ok? && SortById(Group(renameListing, "S")).Ok?
    ensures var aFiles, sFiles := SortById(Group(renameListing, "A")).value, SortById(Group(renameListing, "S")).value;
            var r := RenameSequentially(a, renameListing).dir;
            && (forall n :: n in r && EndsWith(n, TypeSuffix("A")) ==> IsTarget(n, "A", 0, |aFiles|))
            && (forall n :: n in r && EndsWith(n, TypeSuffix("S")) ==> IsTarget(n, "S", 0, |sFiles|))
            && (forall n :: n in p && !EndsWith(n, TypeSuffix("A")) && !EndsWith(n, TypeSuffix("S")) ==>
                  n in r && r[n] == if IsMatrixFile(n) then Adjusted(p, tmpDir, n) else p[n])
  {
    AdjustedWellNumbered(p, a, tmpDir, adjustListing, "A");
    AdjustedWellNumbered(p, a, tmpDir, adjustListing, "S");
    SameKeysListing(p, a, renameListing);
    RenameSequentiallyResult(a, renameListing);
  }

  /** A listing of one directory lists every directory with the same names. */
  lemma SameKeysListing(p: Directory, a: Directory, listing: seq<string>)
    requires a.Keys == p.Keys && IsListing(p, listing)
    ensures IsListing(a, listing)
  {
    forall name ensures name in a <==> name in listing {
      assert name in a <==> name in p;
    }
  }

  /** The renamed tables of one type hold their rescaled contents. */
  lemma RenamedType(p: Directory, a: Directory, r: Directory, tmpDir: string, adjustListing: seq<string>,
                    fileType: string, files: seq<string>)
    requires IsListing(p, adjustListing)
    requires fileType == "A" || fileType == "S"
    requires AdjustedFrom(p, a, tmpDir, adjustListing)
    requires forall f :: f in files ==> f in a && EndsWith(f, TypeSuffix(fileType))
    requires forall j :: 0 <= j < |files| ==> ProcFile(j, fileType) in r && r[ProcFile(j, fileType)] == a[files[j]]
    ensures RenamedAdjusted(p, r, tmpDir, files, fileType)
  {
    forall j | 0 <= j < |files| ensures files[j] in p && a[files[j]] == Adjusted(p, tmpDir, files[j]) {
      assert files[j] in files;
      AdjustedMember(p, a, tmpDir, adjustListing, fileType, files[j]);
    }
  }

  /**
    Lines 78-117 end to end, on a run that succeeds and whose pruned directory
    has well-numbered A and S tables: `AdjustMainPruned` says what pruning
    leaves, and then every table listed for
    rescaling could be read, and the A and S tables, each rescaled once by its
    own row count, are renumbered `proc_0_<type>.csv`, `proc_1_<type>.csv`, ...
    in ascending id order.
   */
  lemma AdjustMainResult(dir: Directory, tmpDir: string, pruneListing: seq<string>, adjustListing: seq<string>,
                         renameListing: seq<string>, size: nat)
    requires size >= 1
    requires IsListing(Prune(dir, pruneListing).dir, adjustListing) && IsListing(Prune(dir, pruneListing).dir, renameListing)
    requires WellNumbered(Prune(dir, pruneListing).dir, "A") && WellNumbered(Prune(dir, pruneListing).dir, "S")
    requires AdjustMain(dir, tmpDir, pruneListing, adjustListing, renameListing, size).error.None?
    ensures var p := Prune(dir, pruneListing).dir;
            forall n :: n in adjustListing && IsMatrixFile(n) ==> Adjustable(p, tmpDir, n)
    ensures SortById(Group(renameListing, "A")).Ok? && SortById(Group(renameListing, "S")).Ok?
    ensures var p := Prune(dir, pruneListing).dir;
            var aFiles, sFiles := SortById(Group(renameListing, "A")).value, SortById(Group(renameListing, "S")).value;
            var out := AdjustMain(dir, tmpDir, pruneListing, adjustListing, renameListing, size).dir;
            && (forall j :: 0 <= j < |aFiles| ==>
                  aFiles[j] in p && ProcFile(j, "A") in out && out[ProcFile(j, "A")] == Adjusted(p, tmpDir, aFiles[j]))
            && (forall j :: 0 <= j < |sFiles| ==>
                  sFiles[j] in p && ProcFile(j, "S") in out && out[ProcFile(j, "S")] == Adjusted(p, tmpDir, sFiles[j]))
            && (forall n :: n in out && EndsWith(n, TypeSuffix("A")) ==> IsTarget(n, "A", 0, |aFiles|))
            && (forall n :: n in out && EndsWith(n, TypeSuffix("S")) ==> IsTarget(n, "S", 0, |sFiles|))
            && (forall n :: n in p && !EndsWith(n, TypeSuffix("A")) && !EndsWith(n, TypeSuffix("S")) ==>
                  n in out && out[n] == if IsMatrixFile(n) then Adjusted(p, tmpDir, n) else p[n])
  {
    var p := Prune(dir, pruneListing).dir;
    AdjustMainIsSequential(dir, tmpDir, pruneListing, adjustListing, renameListing, size);
    var a := AdjustPass(p, tmpDir, adjustListing);
    RenumberAdjusted(p, a, tmpDir, adjustListing, renameListing);
    RenumberAdjustedFrame(p, a, tmpDir, adjustListing, renameListing);
  }
}
