/**
  Reading a group of per-run tables and putting them side by side, as both
  merge scripts do: the first table keeps all its columns, the leading (index)
  column of every later one is dropped, and `pd.concat(..., axis=1)` of no
  tables raises.
 */
module Frames {
  import opened Wrappers
  import opened FileSystem

  function DropFirstColumn(t: Table): Table
    requires |t.columns| >= 1
  {
    Table(t.rows, t.columns[1..])
  }

  /**
    File number i of a group, without its first column unless it is the first
    (merge_csv_MPI.py lines 57-59). The checkpoint merge reads every file with
    `index_col=0` and writes one index back, which gives the same shape.
   */
  function Frame(t: Table, i: nat): Table
    requires |t.columns| >= 1
  {
    if i > 0 then DropFirstColumn(t) else t
  }

  /** The frames of `files[i..]`, read in order; the first unreadable file stops the loop. */
  function LoadFrom(dir: Directory, files: seq<string>, i: nat): Result<seq<Table>, Error>
    decreases |files| - i
  {
    if i >= |files| then Ok([])
    else
      var t :- ReadCsv(dir, files[i]);
      var rest :- LoadFrom(dir, files, i + 1);
      Ok([Frame(t, i)] + rest)
  }

  /**
    The frames already collected in `dfs`, placed in front of what the rest of
    the load gives; an error of the rest passes through unchanged.
   */
  function Prepend(xs: seq<Table>, r: Result<seq<Table>, Error>): (p: Result<seq<Table>, Error>)
    ensures p.Ok? <==> r.Ok?
    ensures r.Ok? ==> |p.value| == |xs| + |r.value| && p.value[..|xs|] == xs && p.value[|xs|..] == r.value
    ensures r.Err? ==> p == r
  {
    match r
    case Ok(ys) =>
      assert (xs + ys)[..|xs|] == xs && (xs + ys)[|xs|..] == ys;
      Ok(xs + ys)
    case Err(e) => Err(e)
  }

  /**
    Collecting the frame of file `i` and then loading from `i + 1` is loading
    from `i`: the step of the loop at lines 55-60 keeps the collected frames in
    front of what remains to be read.
   */
  lemma PrependStep(dir: Directory, files: seq<string>, i: nat, dfs: seq<Table>)
    requires i < |files| && ReadCsv(dir, files[i]).Ok?
    ensures Prepend(dfs, LoadFrom(dir, files, i)) ==
            Prepend(dfs + [Frame(ReadCsv(dir, files[i]).value, i)], LoadFrom(dir, files, i + 1))
  {
    var frame := Frame(ReadCsv(dir, files[i]).value, i);
    match LoadFrom(dir, files, i + 1) {
      case Ok(ys) => assert dfs + ([frame] + ys) == (dfs + [frame]) + ys;
      case Err(_) =>
    }
  }

  /** merge_csv_MPI.py lines 55-60: the loop that reads a slice and collects the frames in `dfs`. */
  method LoadFrames(dir: Directory, files: seq<string>) returns (r: Result<seq<Table>, Error>)
    ensures r == LoadFrom(dir, files, 0)
  {
    var dfs: seq<Table> := [];
    var i := 0;
    while i < |files|
      invariant i <= |files|
      invariant LoadFrom(dir, files, 0) == Prepend(dfs, LoadFrom(dir, files, i))
      decreases |files| - i
    {
      var df := ReadCsv(dir, files[i]);
      if df.Err? {
        return Err(df.error);
      }
      var frame := if i > 0 then DropFirstColumn(df.value) else df.value;
      PrependStep(dir, files, i, dfs);
      dfs := dfs + [frame];
      i := i + 1;
    }
    assert dfs + [] == dfs;
    r := Ok(dfs);
  }

  /** The tables of `files`, when every one of them can be read. */
  function ReadTables(dir: Directory, files: seq<string>): (ts: seq<Table>)
    requires forall k :: 0 <= k < |files| ==> ReadCsv(dir, files[k]).Ok?
    ensures |ts| == |files| && forall k :: 0 <= k < |ts| ==> |ts[k].columns| >= 1
  {
    seq(|files|, k requires 0 <= k < |files| => ReadCsv(dir, files[k]).value)
  }

  /**
    Loading succeeds exactly when every file can be read, and then frame k is
    file i+k's table, its first column dropped unless i+k is 0.
   */
  lemma {:induction false} LoadFromFrames(dir: Directory, files: seq<string>, i: nat)
    requires i <= |files|
    ensures LoadFrom(dir, files, i).Ok? <==> forall k :: i <= k < |files| ==> ReadCsv(dir, files[k]).Ok?
    ensures LoadFrom(dir, files, i).Ok? ==>
      var frames := LoadFrom(dir, files, i).value;
      |frames| == |files| - i &&
      forall k :: 0 <= k < |frames| ==> frames[k] == Frame(ReadCsv(dir, files[i + k]).value, i + k)
    decreases |files| - i
  {
    if i < |files| {
      LoadFromFrames(dir, files, i + 1);
      var r := LoadFrom(dir, files, i);
      if r.Ok? {
        var rest := LoadFrom(dir, files, i + 1).value;
        assert r.value == [Frame(ReadCsv(dir, files[i]).value, i)] + rest;
        forall k | 0 <= k < |r.value|
          ensures r.value[k] == Frame(ReadCsv(dir, files[i + k]).value, i + k)
        {
          if k > 0 {
            assert r.value[k] == rest[k - 1];
          }
        }
      }
    }
  }

  function MaxRows(ts: seq<Table>): (m: nat)
    ensures forall k :: 0 <= k < |ts| ==> ts[k].rows <= m
    ensures ts != [] ==> exists k :: 0 <= k < |ts| && ts[k].rows == m
  {
    if ts == [] then 0
    else
      var m := MaxRows(ts[..|ts| - 1]);
      if ts[|ts| - 1].rows > m then ts[|ts| - 1].rows else m
  }

  /** The columns of all frames, one frame after the other. */
  function AllColumns(ts: seq<Table>): seq<Column> {
    if ts == [] then [] else AllColumns(ts[..|ts| - 1]) + ts[|ts| - 1].columns
  }

  function TotalColumns(ts: seq<Table>): nat {
    if ts == [] then 0 else TotalColumns(ts[..|ts| - 1]) + |ts[|ts| - 1].columns|
  }

  /**
    `pd.concat(dfs, axis=1)` puts the frames side by side and has as many rows
    as the longest frame (merge_csv_MPI.py reads without an index, so rows are
    matched by position). Concatenating no frames raises.
   */
  function Concat(frames: seq<Table>): (r: Result<Table, Error>)
    ensures r.Err? <==> frames == []
    ensures r.Err? ==> r.error == NothingToConcatenate
  {
    if frames == [] then Err(NothingToConcatenate)
    else Ok(Table(MaxRows(frames), AllColumns(frames)))
  }

  /** The table a rank or a core builds from its group of files. */
  function MergedTable(dir: Directory, files: seq<string>): Result<Table, Error> {
    var frames :- LoadFrom(dir, files, 0);
    Concat(frames)
  }

  lemma {:induction false} AllColumnsPrefix(ts: seq<Table>)
    requires ts != []
    ensures |ts[0].columns| <= |AllColumns(ts)| && AllColumns(ts)[..|ts[0].columns|] == ts[0].columns
  {
    if |ts| > 1 {
      AllColumnsPrefix(ts[..|ts| - 1]);
    } else {
      assert ts[..|ts| - 1] == [];
    }
  }

  lemma {:induction false} AllColumnsCount(ts: seq<Table>)
    ensures |AllColumns(ts)| == TotalColumns(ts)
  {
    if ts != [] {
      AllColumnsCount(ts[..|ts| - 1]);
    }
  }

  /** Dropping the first column of every frame but the first loses one column per later frame. */
  lemma {:induction false} FramesColumnCount(ts: seq<Table>, n: nat)
    requires n <= |ts| && forall k :: 0 <= k < |ts| ==> |ts[k].columns| >= 1
    ensures TotalColumns(seq(n, k requires 0 <= k < n => Frame(ts[k], k))) + (if n > 0 then n - 1 else 0)
         == TotalColumns(ts[..n])
  {
    var frames := seq(n, k requires 0 <= k < n => Frame(ts[k], k));
    if n > 0 {
      FramesColumnCount(ts, n - 1);
      var before := seq(n - 1, k requires 0 <= k < n - 1 => Frame(ts[k], k));
      assert frames[..n - 1] == before;
      assert ts[..n][..n - 1] == ts[..n - 1];
    }
  }

  /**
    A group's merge succeeds exactly when the group is non-empty
    and every file in it can be read. The result keeps the first file's
    columns in front, including its leading column, adds the columns of the
    later files minus their first, and is as long as the longest file.
   */
  lemma MergedTableShape(dir: Directory, files: seq<string>)
    ensures MergedTable(dir, files).Ok? <==>
            files != [] && forall k :: 0 <= k < |files| ==> ReadCsv(dir, files[k]).Ok?
    ensures MergedTable(dir, files).Ok? ==>
      var m := MergedTable(dir, files).value;
      var ts := ReadTables(dir, files);
      && |m.columns| + (|files| - 1) == TotalColumns(ts)
      && |ts[0].columns| <= |m.columns| && m.columns[..|ts[0].columns|] == ts[0].columns
      && (forall k :: 0 <= k < |ts| ==> ts[k].rows <= m.rows)
      && (exists k :: 0 <= k < |ts| && ts[k].rows == m.rows)
  {
    LoadFromFrames(dir, files, 0);
    if MergedTable(dir, files).Ok? {
      var ts := ReadTables(dir, files);
      var frames := seq(|ts|, k requires 0 <= k < |ts| => Frame(ts[k], k));
      assert LoadFrom(dir, files, 0).value == frames;
      FramesShape(ts);
    }
  }

  /** Side by side, the frames of tables `ts` have the shape MergedTableShape states. */
  lemma FramesShape(ts: seq<Table>)
    requires ts != [] && forall k :: 0 <= k < |ts| ==> |ts[k].columns| >= 1
    ensures var frames := seq(|ts|, k requires 0 <= k < |ts| => Frame(ts[k], k));
      && |AllColumns(frames)| + (|ts| - 1) == TotalColumns(ts)
      && |ts[0].columns| <= |AllColumns(frames)| && AllColumns(frames)[..|ts[0].columns|] == ts[0].columns
      && (forall k :: 0 <= k < |ts| ==> ts[k].rows <= MaxRows(frames))
      && (exists k :: 0 <= k < |ts| && ts[k].rows == MaxRows(frames))
  {
    var frames := seq(|ts|, k requires 0 <= k < |ts| => Frame(ts[k], k));
    FramesColumnCount(ts, |ts|);
    assert ts[..|ts|] == ts;
    AllColumnsCount(frames);
    AllColumnsPrefix(frames);
    forall k | 0 <= k < |ts| ensures ts[k].rows == frames[k].rows {
    }
  }

  /** A failed load carries the error of a file it could not read. */
  lemma {:induction false} LoadFromError(dir: Directory, files: seq<string>, i: nat)
    requires LoadFrom(dir, files, i).Err?
    ensures exists k :: i <= k < |files| && ReadCsv(dir, files[k]) == Err(LoadFrom(dir, files, i).error)
    decreases |files| - i
  {
    if ReadCsv(dir, files[i]).Ok? {
      LoadFromError(dir, files, i + 1);
    }
  }

  /** Writing a file outside the group does not change what the group loads. */
  lemma {:induction false} LoadFromUnaffected(dir: Directory, files: seq<string>, i: nat, name: string, e: Entry)
    requires name !in files
    ensures LoadFrom(dir[name := e], files, i) == LoadFrom(dir, files, i)
    decreases |files| - i
  {
    if i < |files| {
      assert files[i] != name;
      LoadFromUnaffected(dir, files, i + 1, name, e);
    }
  }
}
