/**
  The shared temporary directory all workers read and write, and the shapes of
  the tables kept in it.

  A directory is a finite map from file name to entry; the order in which
  `os.listdir` reports the names is a separate sequence given to each operation.
  A CSV table is kept as its shape: a row count and its columns in order. A
  column carries its header and the rescalings applied to it, so "divided by the
  square root of n" is recorded as a value rather than computed in floating point.
 */
module FileSystem {
  import opened Wrappers
  import opened Strings
  import opened Lists

  /** One rescaling of a column: values divided or multiplied by sqrt(n). */
  datatype Factor = DivSqrt(n: nat) | MulSqrt(n: nat)

  datatype Column = Column(header: string, scaling: seq<Factor>)

  datatype Table = Table(rows: nat, columns: seq<Column>)

  /**
    What a file holds. `getsize(f) < 1` holds exactly of `Empty`; a file pandas
    cannot parse as CSV is `Unparseable`; `Npz` is a saved sparse distance
    matrix between the data columns of two S tables.
   */
  datatype Content =
    | Empty
    | Unparseable
    | Csv(table: Table)
    | Npz(left: string, right: string, height: nat, width: nat)

  /** A directory entry; sub-directories are never empty-sized. */
  datatype Entry = File(content: Content) | Folder

  type Directory = map<string, Entry>

  datatype Error =
    | FileNotFound(name: string)           // os.remove / getsize / read_csv / os.rename
    | IsADirectory(name: string)           // os.remove or read_csv on a folder
    | EmptyData(name: string)              // read_csv: no columns to parse
    | ParserError(name: string)            // read_csv on a file that is not a CSV
    | NotAnInteger(name: string)           // int() of a name field: ValueError
    | ShapeMismatch(left: string, right: string) // np.dot of tables with different row counts
    | NothingToConcatenate                 // pd.concat([])
    | UnboundNumRows                       // `num_rows` read before assignment
    | DivisionByZero                       // len(files) / float(0)
    | Aborted(fileType: string, total: nat, size: nat) // comm.Abort() after the shortage message

  /**
    How a run of the script ended: the directory as the script left it and the
    exception that stopped it, if any. A failed step leaves what the steps before
    it did in place.
   */
  datatype Outcome = Outcome(dir: Directory, error: Option<Error>)

  /** `listing` is what `os.listdir` returns for `dir`: each name once. */
  ghost predicate IsListing(dir: Directory, listing: seq<string>) {
    && (forall i, j :: 0 <= i < j < |listing| ==> listing[i] != listing[j])
    && (forall name :: name in dir <==> name in listing)
  }

  /**
    `os.path.join(tmp_dir, name)`. The temporary directory is
    `<output_folder>/tmp`, so it never ends in a separator, and a listed name
    never holds one.
   */
  function Join(tmpDir: string, name: string): string {
    tmpDir + "/" + name
  }

  /** A pattern without `/` occurs in a joined path exactly when it occurs in one of the parts. */
  lemma JoinContains(tmpDir: string, name: string, p: string)
    requires '/' !in p
    ensures Contains(Join(tmpDir, name), p) <==> Contains(tmpDir, p) || Contains(name, p)
  {
    assert Join(tmpDir, name) == tmpDir + ['/'] + name;
    ContainsAcross(tmpDir, '/', name, p);
  }

  /** `pd.read_csv(name)`: every column, the first one included. */
  function ReadCsv(dir: Directory, name: string): (r: Result<Table, Error>)
    ensures r.Ok? <==> name in dir && dir[name].File? && dir[name].content.Csv? && |dir[name].content.table.columns| >= 1
    ensures r.Ok? ==> dir[name] == File(Csv(r.value))
    ensures name !in dir ==> r == Err(FileNotFound(name))
    ensures name in dir && dir[name].Folder? ==> r == Err(IsADirectory(name))
    ensures name in dir && dir[name].File? && r.Err? ==>
              r.error == (if dir[name].content.Empty? || dir[name].content.Csv? then EmptyData(name) else ParserError(name))
  {
    if name !in dir then Err(FileNotFound(name))
    else match dir[name]
      case Folder => Err(IsADirectory(name))
      case File(Empty) => Err(EmptyData(name))
      case File(Csv(t)) => if |t.columns| == 0 then Err(EmptyData(name)) else Ok(t)
      case File(_) => Err(ParserError(name))
  }

  /** A name can be opened for writing unless it is a folder. */
  predicate Writable(dir: Directory, name: string) {
    name in dir ==> dir[name].File?
  }

  /**
    `df.to_csv(name)` or `sparse.save_npz(name, m)`: creates the file or
    overwrites it; opening a folder for writing raises.
   */
  function Save(dir: Directory, name: string, c: Content): (r: Result<Directory, Error>)
    ensures r.Ok? <==> Writable(dir, name)
    ensures r.Err? ==> r.error == IsADirectory(name)
    ensures r.Ok? ==> r.value.Keys == dir.Keys + {name} && r.value[name] == File(c)
    ensures r.Ok? ==> forall other :: other in dir && other != name ==> r.value[other] == dir[other]
  {
    if Writable(dir, name) then Ok(dir[name := File(c)]) else Err(IsADirectory(name))
  }

  /**
    `df.to_csv(name)` writing a table back over the regular file it was just
    read from, so the write cannot meet a folder.
   */
  function WriteCsv(dir: Directory, name: string, t: Table): (d: Directory)
    requires name in dir && dir[name].File?
    ensures Save(dir, name, Csv(t)) == Ok(d)
    ensures d.Keys == dir.Keys && d[name] == File(Csv(t))
    ensures forall other :: other in dir && other != name ==> d[other] == dir[other]
  {
    dir[name := File(Csv(t))]
  }

  function ScaleColumn(c: Column, f: Factor): Column {
    c.(scaling := c.scaling + [f])
  }

  /**
    `df /= sqrt(n)` or `df *= sqrt(n)` on a frame read with `index_col=0`:
    every column but the leading index column gets the factor; written back with
    its index, the table keeps its rows and its column order.
   */
  function ScaleData(t: Table, f: Factor): (r: Table)
    requires |t.columns| >= 1
    ensures r.rows == t.rows && |r.columns| == |t.columns| && r.columns[0] == t.columns[0]
    ensures forall k :: 1 <= k < |t.columns| ==> r.columns[k] == ScaleColumn(t.columns[k], f)
  {
    Table(t.rows, [t.columns[0]] + seq(|t.columns| - 1, k requires 0 <= k < |t.columns| - 1 =>
      ScaleColumn(t.columns[k + 1], f)))
  }

  /**
    Read a CSV with its leading column as index, rescale its data columns and
    write it back under the same name.
   */
  function RescaleFile(dir: Directory, name: string, f: Factor): (r: Result<Directory, Error>)
    ensures r.Ok? ==>
              ReadCsv(dir, name).Ok? &&
              r.value == WriteCsv(dir, name, ScaleData(ReadCsv(dir, name).value, f))
    ensures r.Err? ==> ReadCsv(dir, name).Err? && r.error == ReadCsv(dir, name).error
  {
    var t :- ReadCsv(dir, name);
    Ok(WriteCsv(dir, name, ScaleData(t, f)))
  }

  /** `os.remove(name)`: fails on a missing name and on a folder. */
  function Remove(dir: Directory, name: string): (r: Result<Directory, Error>)
    ensures r.Ok? <==> name in dir && dir[name].File?
    ensures r.Ok? ==> r.value == dir - {name}
    ensures r.Err? ==> r.error == (if name in dir then IsADirectory(name) else FileNotFound(name))
  {
    if name !in dir then Err(FileNotFound(name))
    else if dir[name].Folder? then Err(IsADirectory(name))
    else Ok(dir - {name})
  }

  /**
    `os.rename(src, dst)` on POSIX: a missing source fails, renaming a name to
    itself does nothing, and an existing regular file at `dst` is replaced.
    Moving a folder onto an existing name, or anything onto a folder, is
    reported as IsADirectory.
   */
  function Rename(dir: Directory, src: string, dst: string): (r: Result<Directory, Error>)
    ensures r.Ok? <==> src in dir && (src == dst || dst !in dir || (dir[src].File? && dir[dst].File?))
    ensures r.Ok? ==> dst in r.value && r.value[dst] == dir[src]
    ensures r.Ok? ==> r.value.Keys == (if src == dst then dir.Keys else dir.Keys - {src} + {dst})
    ensures r.Ok? ==> forall n :: n in dir && n != src && n != dst ==> r.value[n] == dir[n]
    ensures r.Err? ==> r.error == (if src in dir then IsADirectory(dst) else FileNotFound(src))
  {
    if src !in dir then Err(FileNotFound(src))
    else if src == dst then Ok(dir)
    else if dst in dir && (dir[src].Folder? || dir[dst].Folder?) then Err(IsADirectory(dst))
    else Ok((dir - {src})[dst := dir[src]])
  }

  /** `n` has the same entry in both directories, or is missing from both. */
  predicate SameAt(d1: Directory, d2: Directory, n: string) {
    (n in d1 <==> n in d2) && (n in d1 ==> d1[n] == d2[n])
  }

  /** `os.path.exists(name)` */
  predicate Exists(dir: Directory, name: string) {
    name in dir
  }

  // ---------------------------------------------------------------------------
  // Per-run file names: `<prefix>_<id>_<rest>` and `proc_<n>_<type>.csv`

  /** `f.split('_')[1]`, the run id field of a per-run file name. */
  function IdField(f: string): (id: string)
    requires '_' in f
    ensures '_' !in id
  {
    Split(f, '_')[1]
  }

  /** `int(f.split('_')[1])` succeeds. */
  predicate HasIntegerId(f: string) {
    '_' in f && ParseInt(IdField(f)).Some?
  }

  /** `int(f.split('_')[1])` where it is defined (0 elsewhere): the sort key. */
  function SortKey(f: string): int {
    if HasIntegerId(f) then ParseInt(IdField(f)).value else 0
  }

  /**
    `sorted(names, key=lambda x: int(x.split('_')[1]))`. Python computes every
    key before it sorts, so one name without an integer second field makes the
    whole call raise ValueError; otherwise the result is the same names, stably
    ordered by that integer.
   */
  function SortById(names: seq<string>): (r: Result<seq<string>, Error>)
    ensures r.Ok? <==> forall f :: f in names ==> HasIntegerId(f)
    ensures r.Ok? ==> multiset(r.value) == multiset(names)
    ensures r.Ok? ==> forall f :: f in r.value <==> f in names
    ensures r.Ok? ==> forall i, j :: 0 <= i < j < |r.value| ==> SortKey(r.value[i]) <= SortKey(r.value[j])
    ensures r.Ok? && Distinct(names) ==> Distinct(r.value)
    ensures r.Err? ==> r.error.NotAnInteger? && r.error.name in names && !HasIntegerId(r.error.name)
    ensures r.Err? ==> exists k :: 0 <= k < |names| && names[k] == r.error.name && forall m :: 0 <= m < k ==> HasIntegerId(names[m])
  {
    match FirstFailing(names, HasIntegerId)
    case Some(bad) =>
      FirstFailingIsFirst(names, HasIntegerId);
      Err(NotAnInteger(bad))
    case None =>
      ByKeyTotalPreorder(SortKey);
      var sorted := SortBy(names, ByKey(SortKey));
      SameMembers(sorted, names);
      SortedByKey(sorted, SortKey);
      Ok(sorted)
  }

  /** `f"proc_{n}_{file_type}.csv"`, the name of a merged or renumbered table. */
  function ProcFile(n: nat, fileType: string): string {
    "proc_" + NatToString(n) + "_" + fileType + ".csv"
  }

  /** The number and the type can be read back from the name. */
  lemma ProcFileFields(n: nat, fileType: string)
    requires '_' !in fileType
    ensures Split(ProcFile(n, fileType), '_') == ["proc", NatToString(n), fileType + ".csv"]
  {
    NatToStringNoSeparator(n, '_');
    assert ProcFile(n, fileType) == "proc" + ['_'] + NatToString(n) + ['_'] + (fileType + ".csv");
    SplitThree("proc", '_', NatToString(n), fileType + ".csv");
  }

  /** The id field of `proc_<n>_<type>.csv` parses back to `n`. */
  lemma ProcFileId(n: nat, fileType: string)
    requires '_' !in fileType
    ensures HasIntegerId(ProcFile(n, fileType)) && SortKey(ProcFile(n, fileType)) == n
  {
    ProcFileFields(n, fileType);
    assert ProcFile(n, fileType)[4] == '_';
    ParseNatToString(n);
  }

  lemma ProcFileSuffix(n: nat, fileType: string)
    ensures EndsWith(ProcFile(n, fileType), "_" + fileType + ".csv")
  {
    var p := ProcFile(n, fileType);
    assert p == ("proc_" + NatToString(n)) + ("_" + fileType + ".csv");
  }

  lemma ProcFileInjective(n: nat, t: string, n': nat, t': string)
    requires '_' !in t && '_' !in t'
    ensures ProcFile(n, t) == ProcFile(n', t') <==> n == n' && t == t'
  {
    if ProcFile(n, t) == ProcFile(n', t') {
      ProcFileFields(n, t);
      ProcFileFields(n', t');
      NatToStringInjective(n, n');
      assert t + ".csv" == t' + ".csv";
      assert t == (t + ".csv")[..|t|];
      assert t' == (t' + ".csv")[..|t'|];
    }
  }

  /**
    Worker `n`'s tables at the end of a merge script: the merged S table
    divided by the square root of its row count, and the merged A table
    multiplied by the square root of that same count.
   */
  ghost predicate PairRescaled(out: Directory, mergedS: Table, mergedA: Table, n: nat) {
    && |mergedS.columns| >= 1 && |mergedA.columns| >= 1
    && ProcFile(n, "S") in out && out[ProcFile(n, "S")] == File(Csv(ScaleData(mergedS, DivSqrt(mergedS.rows))))
    && ProcFile(n, "A") in out && out[ProcFile(n, "A")] == File(Csv(ScaleData(mergedA, MulSqrt(mergedS.rows))))
  }
}
