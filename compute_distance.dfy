/**
  The distance stage (optICA_updated/compute_distance.py): the upper-triangular
  grid of block tasks and its round-robin split over the workers, the choice and
  ordering of the per-run S tables, the ordered product of those tables, the name
  of each distance file, and the 0.5 threshold followed by clipping to [0, 1].
 */
module ComputeDistance {
  import opened Wrappers
  import opened Strings
  import opened Lists
  import opened FileSystem
  import opened Arith

  // ---------------------------------------------------------------------------
  // Task grid and round-robin assignment

  /** A block task `(i, j)`: compare worker i's components with worker j's. */
  type Task = (nat, nat)

  /** Row-major order on tasks. */
  predicate TaskBefore(a: Task, b: Task) {
    a.0 < b.0 || (a.0 == b.0 && a.1 < b.1)
  }

  /** `[(i, j) for j in range(j0, n)]` */
  function Row(i: nat, j0: nat, n: nat): (r: seq<Task>)
    ensures |r| == if j0 <= n then n - j0 else 0
    ensures forall k :: 0 <= k < |r| ==> r[k] == (i, j0 + k)
    decreases n - j0
  {
    if j0 >= n then [] else [(i, j0)] + Row(i, j0 + 1, n)
  }

  /** `[(i, j) for i in range(i0, n) for j in range(i, n)]` */
  function TasksFrom(i0: nat, n: nat): (r: seq<Task>)
    ensures forall k :: 0 <= k < |r| ==> i0 <= r[k].0 <= r[k].1 < n
    ensures forall p, q :: 0 <= p < q < |r| ==> TaskBefore(r[p], r[q])
    decreases n - i0
  {
    if i0 >= n then []
    else
      var row, rest := Row(i0, i0, n), TasksFrom(i0 + 1, n);
      assert forall p, q :: 0 <= p < |row| <= q < |row| + |rest| ==>
        TaskBefore((row + rest)[p], (row + rest)[q]);
      row + rest
  }

  /** The task list of line 82 for `nWorkers` workers. */
  function Tasks(nWorkers: nat): seq<Task> {
    TasksFrom(0, nWorkers)
  }

  lemma {:induction false} TasksFromLength(i0: nat, n: nat)
    requires i0 <= n
    ensures 2 * |TasksFrom(i0, n)| == (n - i0) * (n - i0 + 1)
    decreases n - i0
  {
    if i0 < n {
      TasksFromLength(i0 + 1, n);
    }
  }

  lemma {:induction false} TasksFromMembers(i0: nat, n: nat, t: Task)
    ensures t in TasksFrom(i0, n) <==> i0 <= t.0 <= t.1 < n
    decreases n - i0
  {
    if i0 < n {
      TasksFromMembers(i0 + 1, n, t);
      var row := Row(i0, i0, n);
      if t.0 == i0 && t.0 <= t.1 < n {
        assert row[t.1 - i0] == t;
      }
      assert TasksFrom(i0, n) == row + TasksFrom(i0 + 1, n);
    }
  }

  /**
    The task list has n(n+1)/2 entries, holds exactly the pairs 0 <= i <= j < n,
    and is strictly increasing in row-major order, hence free of duplicates.
   */
  lemma TaskList(n: nat)
    ensures |Tasks(n)| == n * (n + 1) / 2
    ensures forall t :: t in Tasks(n) <==> t.0 <= t.1 < n
    ensures forall p, q :: 0 <= p < q < |Tasks(n)| ==> TaskBefore(Tasks(n)[p], Tasks(n)[q])
    ensures Distinct(Tasks(n))
  {
    TasksFromLength(0, n);
    forall t: Task ensures t in Tasks(n) <==> t.0 <= t.1 < n {
      TasksFromMembers(0, n, t);
    }
  }

  /**
    The tasks worker `w` holds once the loop of lines 88-90 has handed out `ts`:
    the loop appends task k to the list of worker k mod n.
   */
  function Assigned(ts: seq<Task>, n: nat, w: nat): seq<Task> {
    if ts == [] then []
    else
      var k := |ts| - 1;
      Assigned(ts[..k], n, w) + (if n > 0 && k % n == w then [ts[k]] else [])
  }

  /** Worker w holds |ts| div n tasks, one more when w < |ts| mod n. */
  lemma {:induction false} AssignedCount(ts: seq<Task>, n: nat, w: nat)
    requires 0 <= w < n
    ensures |Assigned(ts, n, w)| == |ts| / n + (if w < |ts| % n then 1 else 0)
  {
    if ts != [] {
      var k := |ts| - 1;
      AssignedCount(ts[..k], n, w);
      DivModNext(k, n);
    }
  }

  /** The j-th task of worker w is task j*n + w: the list keeps the global order. */
  lemma {:induction false} AssignedAt(ts: seq<Task>, n: nat, w: nat, j: nat)
    requires 0 <= w < n && j < |Assigned(ts, n, w)|
    ensures j * n + w < |ts| && Assigned(ts, n, w)[j] == ts[j * n + w]
  {
    var k := |ts| - 1;
    var prev := Assigned(ts[..k], n, w);
    if j < |prev| {
      AssignedAt(ts[..k], n, w, j);
    } else {
      AssignedCount(ts[..k], n, w);
      assert k % n == w && j == k / n;
    }
  }

  lemma {:induction false} AssignedMembers(ts: seq<Task>, n: nat, w: nat, t: Task)
    requires 0 <= w < n
    ensures t in Assigned(ts, n, w) <==> exists k :: 0 <= k < |ts| && k % n == w && ts[k] == t
  {
    if ts != [] {
      var k := |ts| - 1;
      AssignedMembers(ts[..k], n, w, t);
      if exists k' :: 0 <= k' < |ts| && k' % n == w && ts[k'] == t {
        var k' :| 0 <= k' < |ts| && k' % n == w && ts[k'] == t;
        if k' < k {
          assert ts[..k][k'] == t;
        }
      }
      if exists k' :: 0 <= k' < k && k' % n == w && ts[..k][k'] == t {
        var k' :| 0 <= k' < k && k' % n == w && ts[..k][k'] == t;
        assert ts[k'] == t;
      }
    }
  }

  /** Per-worker loads differ by at most one task. */
  lemma Balanced(ts: seq<Task>, n: nat, v: nat, w: nat)
    requires v < n && w < n
    ensures |Assigned(ts, n, v)| <= |Assigned(ts, n, w)| + 1
  {
    AssignedCount(ts, n, v);
    AssignedCount(ts, n, w);
  }

  /** Sum of the loads of workers 0 .. m-1. */
  function Load(ts: seq<Task>, n: nat, m: nat): nat {
    if m == 0 then 0 else Load(ts, n, m - 1) + |Assigned(ts, n, m - 1)|
  }

  lemma {:induction false} LoadStep(ts: seq<Task>, n: nat, m: nat)
    requires ts != [] && 0 < n && m <= n
    ensures Load(ts, n, m) == Load(ts[..|ts| - 1], n, m) + (if (|ts| - 1) % n < m then 1 else 0)
  {
    if m > 0 {
      LoadStep(ts, n, m - 1);
    }
  }

  /** Every task is handed to some worker and none twice: the loads add up to |ts|. */
  lemma {:induction false} LoadsAddUp(ts: seq<Task>, n: nat)
    requires n > 0
    ensures Load(ts, n, n) == |ts|
  {
    if ts == [] {
      LoadOfNone(n, n);
    } else {
      LoadStep(ts, n, n);
      assert (|ts| - 1) % n < n;
      LoadsAddUp(ts[..|ts| - 1], n);
    }
  }

  lemma {:induction false} LoadOfNone(n: nat, m: nat)
    ensures Load([], n, m) == 0
  {
    if m > 0 {
      LoadOfNone(n, m - 1);
    }
  }

  /** Task k of the grid belongs to worker k mod n and to no other worker. */
  lemma OwnedOnce(n: nat, k: nat, w: nat)
    requires k < |Tasks(n)| && w < n
    ensures Tasks(n)[k] in Assigned(Tasks(n), n, w) <==> w == k % n
  {
    var ts := Tasks(n);
    TaskList(n);
    AssignedMembers(ts, n, w, ts[k]);
    if w == k % n {
      assert 0 <= k < |ts| && k % n == w && ts[k] == ts[k];
    }
  }

  /** `range(n)` as a set. */
  function Workers(n: nat): (r: set<nat>)
    ensures forall w :: w in r <==> 0 <= w < n
  {
    if n == 0 then {} else Workers(n - 1) + {n - 1}
  }

  lemma AssignedExtend(ts: seq<Task>, n: nat, w: nat, k: nat)
    requires k < |ts|
    ensures Assigned(ts[..k + 1], n, w) == Assigned(ts[..k], n, w) + (if n > 0 && k % n == w then [ts[k]] else [])
  {
    assert ts[..k + 1][..k] == ts[..k];
  }

  /** One turn of the loop below keeps its invariant. */
  lemma AssignStep(before: map<nat, seq<Task>>, after: map<nat, seq<Task>>, tasks: seq<Task>, n: nat, k: nat)
    requires k < |tasks| && n > 0 && before.Keys == Workers(n)
    requires forall w :: 0 <= w < n ==> before[w] == Assigned(tasks[..k], n, w)
    requires after == before[k % n := before[k % n] + [tasks[k]]]
    ensures forall w :: 0 <= w < n ==> after[w] == Assigned(tasks[..k + 1], n, w)
  {
    forall w | 0 <= w < n
      ensures after[w] == Assigned(tasks[..k + 1], n, w)
    {
      AssignedExtend(tasks, n, w, k);
    }
  }

  /**
    Lines 86-90: the dictionary of per-worker task lists, built by appending
    each task to the worker `w_idx` and advancing `w_idx` modulo the worker
    count; `w_idx` stays a worker index throughout.
   */
  method AssignTasks(nWorkers: nat) returns (workerTasks: map<nat, seq<Task>>)
    ensures workerTasks.Keys == Workers(nWorkers)
    ensures forall w :: 0 <= w < nWorkers ==> workerTasks[w] == Assigned(Tasks(nWorkers), nWorkers, w)
  {
    var tasks := Tasks(nWorkers);
    workerTasks := map w | w in Workers(nWorkers) :: [];
    var wIdx := 0;
    var k := 0;
    while k < |tasks|
      invariant k <= |tasks|
      invariant k < |tasks| ==> 0 <= wIdx < nWorkers && wIdx == k % nWorkers
      invariant workerTasks.Keys == Workers(nWorkers)
      invariant forall w :: 0 <= w < nWorkers ==> workerTasks[w] == Assigned(tasks[..k], nWorkers, w)
    {
      ghost var before := workerTasks;
      workerTasks := workerTasks[wIdx := workerTasks[wIdx] + [tasks[k]]];
      AssignStep(before, workerTasks, tasks, nWorkers, k);
      DivModNext(k, nWorkers);
      if wIdx + 1 < nWorkers {
        DivModUnique(wIdx + 1, nWorkers, 0, wIdx + 1);
      } else {
        DivModUnique(wIdx + 1, nWorkers, 1, 0);
      }
      wIdx := (wIdx + 1) % nWorkers;
      k := k + 1;
    }
    assert tasks[..k] == tasks;
  }

  // ---------------------------------------------------------------------------
  // The S tables, their ordered pairs and the distance files

  /** Line 103: a name containing `proc_` and ending in `_S.csv`. */
  predicate IsSFile(f: string) {
    Contains(f, "proc_") && EndsWith(f, "_S.csv")
  }

  lemma SFileSeparator(f: string)
    requires IsSFile(f)
    ensures '_' in f
  {
    assert f[|f| - 6..][0] == '_';
  }

  /**
    Lines 103-106: keep the S tables in listing order, then sort them by the
    integer second field. Python computes every key before sorting, so one
    non-integer field makes the sort raise ValueError.
   */
  function SelectSFiles(listing: seq<string>): (r: Result<seq<string>, Error>)
    ensures r.Ok? <==> forall f :: f in listing && IsSFile(f) ==> HasIntegerId(f)
    ensures r.Ok? ==> forall f :: f in r.value <==> f in listing && IsSFile(f)
    ensures r.Ok? ==> multiset(r.value) == multiset(Filter(listing, IsSFile))
    ensures r.Ok? ==> forall i, j :: 0 <= i < j < |r.value| ==> SortKey(r.value[i]) <= SortKey(r.value[j])
    ensures r.Err? ==> r.error.NotAnInteger? && r.error.name in listing && IsSFile(r.error.name)
                       && !HasIntegerId(r.error.name)
  {
    SortById(Filter(listing, IsSFile))
  }


  /** `itertools.product(xs, ys)`: every `(x, y)`, row after row. */
  function Product<T>(xs: seq<T>, ys: seq<T>): (r: seq<(T, T)>)
    ensures |r| == |xs| * |ys|
  {
    if xs == [] then []
    else
      var rest := Product(xs[1..], ys);
      assert |xs| * |ys| == |ys| + (|xs| - 1) * |ys|;
      seq(|ys|, j requires 0 <= j < |ys| => (xs[0], ys[j])) + rest
  }

  /** Pair number i*|ys| + j is `(xs[i], ys[j])`. */
  lemma {:induction false} ProductAt<T>(xs: seq<T>, ys: seq<T>, i: nat, j: nat)
    requires i < |xs| && j < |ys|
    ensures i * |ys| + j < |xs| * |ys|
    ensures Product(xs, ys)[i * |ys| + j] == (xs[i], ys[j])
  {
    if i == 0 {
    } else {
      ProductAt(xs[1..], ys, i - 1, j);
      assert i * |ys| + j == |ys| + ((i - 1) * |ys| + j);
      assert |xs| * |ys| == |ys| + (|xs| - 1) * |ys|;
    }
  }

  /** The product holds exactly the pairs of members, `(f, f)` included. */
  lemma {:induction false} ProductMembers<T>(xs: seq<T>, ys: seq<T>, p: (T, T))
    ensures p in Product(xs, ys) <==> p.0 in xs && p.1 in ys
  {
    if xs != [] {
      ProductMembers(xs[1..], ys, p);
      var row := seq(|ys|, j requires 0 <= j < |ys| => (xs[0], ys[j]));
      assert Product(xs, ys) == row + Product(xs[1..], ys);
      if p.0 == xs[0] && p.1 in ys {
        var j :| 0 <= j < |ys| && ys[j] == p.1;
        assert row[j] == p;
      }
      assert xs == [xs[0]] + xs[1..];
    }
  }

  /** Line 121: `"dist_{}_{}.npz".format(a, b)`. */
  function DistFileName(a: string, b: string): string {
    "dist_" + a + "_" + b + ".npz"
  }

  lemma DistFileFields(a: string, b: string)
    requires '_' !in a && '_' !in b
    ensures Split(DistFileName(a, b), '_') == ["dist", a, b + ".npz"]
  {
    assert DistFileName(a, b) == "dist" + ['_'] + a + ['_'] + (b + ".npz");
    SplitThree("dist", '_', a, b + ".npz");
  }

  /** Different id pairs name different files. */
  lemma DistFileNameInjective(a: string, b: string, c: string, d: string)
    requires '_' !in a && '_' !in b && '_' !in c && '_' !in d
    ensures DistFileName(a, b) == DistFileName(c, d) <==> a == c && b == d
  {
    if DistFileName(a, b) == DistFileName(c, d) {
      DistFileFields(a, b);
      DistFileFields(c, d);
      assert b + ".npz" == d + ".npz";
      assert b == (b + ".npz")[..|b|];
      assert d == (d + ".npz")[..|d|];
    }
  }

  /** A distance file is never one of the S tables the loop reads. */
  lemma DistFileNotSFile(a: string, b: string)
    ensures !IsSFile(DistFileName(a, b))
  {
    var n := DistFileName(a, b);
    assert n[|n| - 1] == 'z';
  }

  /** Both names of the pair have a second field. */
  predicate Nameable(p: (string, string)) {
    '_' in p.0 && '_' in p.1
  }

  /** The distance file written for a pair of S tables. */
  function DistName(p: (string, string)): string
    requires Nameable(p)
  {
    DistFileName(IdField(p.0), IdField(p.1))
  }

  /**
    Lines 113-117 for one pair: both tables are read with their first column as
    the index, and `S1.T @ S2` exists when they have the same number of rows;
    its shape is (data columns of S1) x (data columns of S2).
   */
  function PairDistance(dir: Directory, a: string, b: string): Result<Content, Error> {
    var s1 :- ReadCsv(dir, a);
    var s2 :- ReadCsv(dir, b);
    if s1.rows != s2.rows then Err(ShapeMismatch(a, b))
    else Ok(Npz(a, b, |s1.columns| - 1, |s2.columns| - 1))
  }

  /** Lines 112-125: compute and save the distance of every pair in turn. */
  function DistancePass(dir: Directory, pairs: seq<(string, string)>): Outcome
    requires forall k :: 0 <= k < |pairs| ==> Nameable(pairs[k])
    decreases |pairs|
  {
    if pairs == [] then Outcome(dir, None)
    else match PairDistance(dir, pairs[0].0, pairs[0].1)
      case Err(e) => Outcome(dir, Some(e))
      case Ok(c) =>
        match Save(dir, DistName(pairs[0]), c)
        case Err(e) => Outcome(dir, Some(e))
        case Ok(d) => DistancePass(d, pairs[1..])
  }

  /**
    What stops the loop at pair `p`, if anything: a read or shape error while
    computing its distance, or a folder where its file is to be saved.
   */
  function PairError(dir: Directory, p: (string, string)): (e: Option<Error>)
    requires Nameable(p)
    ensures e.None? <==> PairDistance(dir, p.0, p.1).Ok? && Writable(dir, DistName(p))
    ensures PairDistance(dir, p.0, p.1).Err? ==> e == Some(PairDistance(dir, p.0, p.1).error)
    ensures PairDistance(dir, p.0, p.1).Ok? && !Writable(dir, DistName(p)) ==> e == Some(IsADirectory(DistName(p)))
  {
    match PairDistance(dir, p.0, p.1)
    case Err(e) => Some(e)
    case Ok(c) => if Writable(dir, DistName(p)) then None else Some(IsADirectory(DistName(p)))
  }

  /** The loop of lines 112-125 over the shared directory. */
  method WriteDistances(dir: Directory, pairs: seq<(string, string)>) returns (out: Outcome)
    requires forall k :: 0 <= k < |pairs| ==> Nameable(pairs[k])
    ensures out == DistancePass(dir, pairs)
  {
    var d := dir;
    var k := 0;
    while k < |pairs|
      invariant k <= |pairs|
      invariant DistancePass(d, pairs[k..]) == DistancePass(dir, pairs)
    {
      assert pairs[k..][0] == pairs[k] && pairs[k..][1..] == pairs[k + 1..];
      var r := PairDistance(d, pairs[k].0, pairs[k].1);
      if r.Err? {
        return Outcome(d, Some(r.error));
      }
      var saved := Save(d, DistName(pairs[k]), r.value);
      if saved.Err? {
        return Outcome(d, Some(saved.error));
      }
      d := saved.value;
      k := k + 1;
    }
    out := Outcome(d, None);
  }

  /** The pass only writes distance files: every other entry is left as it was. */
  lemma DistancePassFrame(dir: Directory, pairs: seq<(string, string)>)
    requires forall k :: 0 <= k < |pairs| ==> Nameable(pairs[k])
    ensures var out := DistancePass(dir, pairs);
      && (forall name :: name in out.dir ==> name in dir || exists k :: 0 <= k < |pairs| && name == DistName(pairs[k]))
      && (forall name :: name in dir && (forall k :: 0 <= k < |pairs| ==> name != DistName(pairs[k])) ==>
            name in out.dir && out.dir[name] == dir[name])
  {
    DistancePassNew(dir, pairs);
    DistancePassKeeps(dir, pairs);
  }

  /** Every name the pass adds is the file of one of the pairs. */
  lemma {:induction false} DistancePassNew(dir: Directory, pairs: seq<(string, string)>)
    requires forall k :: 0 <= k < |pairs| ==> Nameable(pairs[k])
    ensures forall name :: name in DistancePass(dir, pairs).dir ==>
      name in dir || exists k :: 0 <= k < |pairs| && name == DistName(pairs[k])
    decreases |pairs|
  {
    if pairs != [] {
      var r := PairDistance(dir, pairs[0].0, pairs[0].1);
      if r.Ok? && Writable(dir, DistName(pairs[0])) {
        var d' := dir[DistName(pairs[0]) := File(r.value)];
        var tail := pairs[1..];
        DistancePassNew(d', tail);
        forall name | name in DistancePass(d', tail).dir && name !in d'
          ensures exists k :: 0 <= k < |pairs| && name == DistName(pairs[k])
        {
          var k :| 0 <= k < |tail| && name == DistName(tail[k]);
          assert tail[k] == pairs[k + 1];
        }
      }
    }
  }

  /** An entry the pass does not name is still there, unchanged, after it. */
  lemma DistancePassKeeps(dir: Directory, pairs: seq<(string, string)>)
    requires forall k :: 0 <= k < |pairs| ==> Nameable(pairs[k])
    ensures forall name :: name in dir && (forall k :: 0 <= k < |pairs| ==> name != DistName(pairs[k])) ==>
      name in DistancePass(dir, pairs).dir && DistancePass(dir, pairs).dir[name] == dir[name]
  {
    forall name | name in dir && (forall k :: 0 <= k < |pairs| ==> name != DistName(pairs[k]))
      ensures name in DistancePass(dir, pairs).dir && DistancePass(dir, pairs).dir[name] == dir[name]
    {
      DistancePassKeepsName(dir, pairs, name);
    }
  }

  lemma {:induction false} DistancePassKeepsName(dir: Directory, pairs: seq<(string, string)>, name: string)
    requires forall k :: 0 <= k < |pairs| ==> Nameable(pairs[k])
    requires name in dir && forall k :: 0 <= k < |pairs| ==> name != DistName(pairs[k])
    ensures name in DistancePass(dir, pairs).dir && DistancePass(dir, pairs).dir[name] == dir[name]
    decreases |pairs|
  {
    if pairs != [] {
      var r := PairDistance(dir, pairs[0].0, pairs[0].1);
      if r.Ok? && Writable(dir, DistName(pairs[0])) {
        var d' := dir[DistName(pairs[0]) := File(r.value)];
        var tail := pairs[1..];
        assert name != DistName(pairs[0]);
        forall k | 0 <= k < |tail| ensures name != DistName(tail[k]) {
          assert tail[k] == pairs[k + 1];
        }
        DistancePassKeepsName(d', tail, name);
      }
    }
  }

  /** All pairs are pairs of S tables. */
  predicate SPairs(pairs: seq<(string, string)>) {
    forall k :: 0 <= k < |pairs| ==> IsSFile(pairs[k].0) && IsSFile(pairs[k].1)
  }

  lemma SPairsNameable(pairs: seq<(string, string)>)
    requires SPairs(pairs)
    ensures forall k :: 0 <= k < |pairs| ==> Nameable(pairs[k])
  {
    forall k | 0 <= k < |pairs| ensures Nameable(pairs[k]) {
      SFileSeparator(pairs[k].0);
      SFileSeparator(pairs[k].1);
    }
  }

  /** Saving a distance file does not change what is read for any pair of S tables. */
  lemma ReadsUnaffected(dir: Directory, p: (string, string), c: Content, a: string, b: string)
    requires Nameable(p) && IsSFile(a) && IsSFile(b)
    ensures PairDistance(dir[DistName(p) := File(c)], a, b) == PairDistance(dir, a, b)
  {
    DistFileNotSFile(IdField(p.0), IdField(p.1));
  }

  /**
    After the first pair is saved, every later pair meets the same error, or
    none, as it would have met before: its tables are not distance files, and a
    name that could be written still can.
   */
  lemma TailErrors(dir: Directory, pairs: seq<(string, string)>, c: Content)
    requires SPairs(pairs) && pairs != []
    requires Nameable(pairs[0]) && Writable(dir, DistName(pairs[0]))
    ensures SPairs(pairs[1..]) && forall k :: 0 <= k < |pairs| ==> Nameable(pairs[k])
    ensures forall k :: 1 <= k < |pairs| ==>
      PairError(dir[DistName(pairs[0]) := File(c)], pairs[k]) == PairError(dir, pairs[k])
  {
    TailReads(dir, pairs, c);
    SPairsNameable(pairs);
    var d' := dir[DistName(pairs[0]) := File(c)];
    forall k | 1 <= k < |pairs| ensures PairError(d', pairs[k]) == PairError(dir, pairs[k]) {
      assert Writable(d', DistName(pairs[k])) == Writable(dir, DistName(pairs[k]));
    }
  }

  /** Pair k is the first pair whose distance cannot be computed or saved. */
  predicate FirstFailure(dir: Directory, pairs: seq<(string, string)>, k: int)
    requires forall k :: 0 <= k < |pairs| ==> Nameable(pairs[k])
  {
    && 0 <= k < |pairs|
    && PairError(dir, pairs[k]).Some?
    && forall k' :: 0 <= k' < k ==> PairError(dir, pairs[k']).None?
  }

  /** After the first pair is saved, the rest of the pass reads what it would have read. */
  lemma TailReads(dir: Directory, pairs: seq<(string, string)>, c: Content)
    requires SPairs(pairs) && pairs != []
    ensures SPairs(pairs[1..]) && Nameable(pairs[0])
    ensures forall k :: 1 <= k < |pairs| ==>
      PairDistance(dir[DistName(pairs[0]) := File(c)], pairs[k].0, pairs[k].1)
      == PairDistance(dir, pairs[k].0, pairs[k].1)
  {
    SPairsNameable(pairs);
    var tail := pairs[1..];
    forall k | 0 <= k < |tail| ensures IsSFile(tail[k].0) && IsSFile(tail[k].1) {
      assert tail[k] == pairs[k + 1];
    }
    forall k | 1 <= k < |pairs|
      ensures PairDistance(dir[DistName(pairs[0]) := File(c)], pairs[k].0, pairs[k].1)
           == PairDistance(dir, pairs[k].0, pairs[k].1)
    {
      ReadsUnaffected(dir, pairs[0], c, pairs[k].0, pairs[k].1);
    }
  }

  /**
    The pass succeeds exactly when every pair's distance can be computed and
    none of the pairs' file names is a folder.
   */
  lemma {:induction false} DistancePassSucceeds(dir: Directory, pairs: seq<(string, string)>)
    requires SPairs(pairs)
    ensures SPairs(pairs) && forall k :: 0 <= k < |pairs| ==> Nameable(pairs[k])
    ensures DistancePass(dir, pairs).error.None? <==>
            forall k :: 0 <= k < |pairs| ==>
              PairDistance(dir, pairs[k].0, pairs[k].1).Ok? && Writable(dir, DistName(pairs[k]))
  {
    SPairsNameable(pairs);
    DistancePassNoError(dir, pairs);
  }

  /** The pass succeeds exactly when no pair meets an error. */
  lemma DistancePassNoError(dir: Directory, pairs: seq<(string, string)>)
    requires SPairs(pairs) && forall k :: 0 <= k < |pairs| ==> Nameable(pairs[k])
    ensures DistancePass(dir, pairs).error.None? <==> forall k :: 0 <= k < |pairs| ==> PairError(dir, pairs[k]).None?
  {
    if DistancePass(dir, pairs).error.None? {
      forall k | 0 <= k < |pairs| ensures PairError(dir, pairs[k]).None? {
        NoErrorAt(dir, pairs, k);
      }
    } else if forall k :: 0 <= k < |pairs| ==> PairError(dir, pairs[k]).None? {
      NoErrorIf(dir, pairs);
    }
  }

  /** In a successful pass no pair meets an error. */
  lemma {:induction false} NoErrorAt(dir: Directory, pairs: seq<(string, string)>, k: nat)
    requires SPairs(pairs) && forall k :: 0 <= k < |pairs| ==> Nameable(pairs[k])
    requires DistancePass(dir, pairs).error.None? && k < |pairs|
    ensures PairError(dir, pairs[k]).None?
    decreases |pairs|
  {
    if k == 0 {
      var _, _ := PassHead(dir, pairs);
    } else {
      var d', tail := PassTail(dir, pairs, k);
      NoErrorAt(d', tail, k - 1);
    }
  }

  /** What a successful pass goes on with after the first pair, as seen by pair `k`. */
  lemma PassTail(dir: Directory, pairs: seq<(string, string)>, k: nat) returns (d': Directory, tail: seq<(string, string)>)
    requires SPairs(pairs) && forall k :: 0 <= k < |pairs| ==> Nameable(pairs[k])
    requires DistancePass(dir, pairs).error.None? && 0 < k < |pairs|
    ensures tail == pairs[1..] && SPairs(tail) && forall k :: 0 <= k < |tail| ==> Nameable(tail[k])
    ensures DistancePass(d', tail).error.None?
    ensures PairError(d', tail[k - 1]) == PairError(dir, pairs[k])
  {
    d', tail := PassHead(dir, pairs);
    SPairsTail(pairs);
    ErrorShift(dir, pairs, d', k);
  }

  /** Pair `k`, after the first, meets the same error before and after the first pair is saved. */
  lemma ErrorShift(dir: Directory, pairs: seq<(string, string)>, d': Directory, k: nat)
    requires SPairs(pairs) && forall k :: 0 <= k < |pairs| ==> Nameable(pairs[k])
    requires 0 < k < |pairs| && Writable(dir, DistName(pairs[0])) && PairDistance(dir, pairs[0].0, pairs[0].1).Ok?
    requires d' == dir[DistName(pairs[0]) := File(PairDistance(dir, pairs[0].0, pairs[0].1).value)]
    ensures PairError(d', pairs[1..][k - 1]) == PairError(dir, pairs[k])
  {
    assert pairs[1..][k - 1] == pairs[k];
    ErrorUnaffected(dir, pairs[0], PairDistance(dir, pairs[0].0, pairs[0].1).value, pairs[k]);
  }

  /** The pairs after the first are S-table pairs the pass can name. */
  lemma SPairsTail(pairs: seq<(string, string)>)
    requires pairs != [] && SPairs(pairs) && forall k :: 0 <= k < |pairs| ==> Nameable(pairs[k])
    ensures SPairs(pairs[1..]) && forall k :: 0 <= k < |pairs[1..]| ==> Nameable(pairs[1..][k])
  {
    var tail := pairs[1..];
    forall k | 0 <= k < |tail| ensures tail[k] == pairs[k + 1] {}
  }

  /** Saving one pair's distance over a name that could be written does not change what stops another pair of S tables. */
  lemma ErrorUnaffected(dir: Directory, p0: (string, string), c: Content, p: (string, string))
    requires Nameable(p0) && Writable(dir, DistName(p0))
    requires Nameable(p) && IsSFile(p.0) && IsSFile(p.1)
    ensures PairError(dir[DistName(p0) := File(c)], p) == PairError(dir, p)
  {
    ReadsUnaffected(dir, p0, c, p.0, p.1);
  }

  /** When no pair meets an error, the pass succeeds. */
  lemma {:induction false} NoErrorIf(dir: Directory, pairs: seq<(string, string)>)
    requires SPairs(pairs) && forall k :: 0 <= k < |pairs| ==> Nameable(pairs[k])
    requires forall k :: 0 <= k < |pairs| ==> PairError(dir, pairs[k]).None?
    ensures DistancePass(dir, pairs).error.None?
    decreases |pairs|
  {
    if pairs != [] {
      var d', tail := PassStep(dir, pairs);
      SPairsTail(pairs);
      forall k | 0 <= k < |tail| ensures PairError(d', tail[k]).None? {
        assert tail[k] == pairs[k + 1];
        ErrorUnaffected(dir, pairs[0], d'[DistName(pairs[0])].content, tail[k]);
      }
      NoErrorIf(d', tail);
    }
  }

  /**
    A failed pass stops with the error of the first pair whose distance cannot
    be computed or saved.
   */
  lemma {:induction false} DistancePassFails(dir: Directory, pairs: seq<(string, string)>)
    requires SPairs(pairs)
    ensures SPairs(pairs) && forall k :: 0 <= k < |pairs| ==> Nameable(pairs[k])
    ensures DistancePass(dir, pairs).error.Some? ==>
      exists k :: FirstFailure(dir, pairs, k) && PairError(dir, pairs[k]) == DistancePass(dir, pairs).error
    decreases |pairs|
  {
    SPairsNameable(pairs);
    if pairs != [] {
      var r := PairDistance(dir, pairs[0].0, pairs[0].1);
      if r.Err? || !Writable(dir, DistName(pairs[0])) {
        assert FirstFailure(dir, pairs, 0);
      } else {
        var tail := pairs[1..];
        var d' := dir[DistName(pairs[0]) := File(r.value)];
        TailErrors(dir, pairs, r.value);
        DistancePassFails(d', tail);
        var out := DistancePass(dir, pairs);
        if out.error.Some? {
          var k :| FirstFailure(d', tail, k) && PairError(d', tail[k]) == out.error;
          FirstFailureShift(dir, pairs, r.value, k);
        }
      }
    }
  }

  /** A first failure in the rest of the pass, after pair 0 was saved, is a first failure of the whole pass. */
  lemma FirstFailureShift(dir: Directory, pairs: seq<(string, string)>, c: Content, k: nat)
    requires SPairs(pairs) && pairs != [] && forall k :: 0 <= k < |pairs| ==> Nameable(pairs[k])
    requires PairError(dir, pairs[0]).None?
    requires FirstFailure(dir[DistName(pairs[0]) := File(c)], pairs[1..], k)
    ensures FirstFailure(dir, pairs, k + 1)
    ensures PairError(dir, pairs[k + 1]) == PairError(dir[DistName(pairs[0]) := File(c)], pairs[1..][k])
  {
    var d' := dir[DistName(pairs[0]) := File(c)];
    var tail := pairs[1..];
    TailErrors(dir, pairs, c);
    forall k' | 0 <= k' < k + 1 ensures PairError(dir, pairs[k']).None? {
      if k' > 0 {
        assert tail[k' - 1] == pairs[k'];
        assert PairError(d', tail[k' - 1]).None?;
      }
    }
    assert tail[k] == pairs[k + 1];
  }

  /** `after` holds, under the pair's name, the distance computed from `before`. */
  predicate StoredDistance(before: Directory, after: Directory, p: (string, string))
    requires Nameable(p)
  {
    && DistName(p) in after && after[DistName(p)].File?
    && PairDistance(before, p.0, p.1) == Ok(after[DistName(p)].content)
  }

  /**
    When the pass succeeds and the pairs have distinct file names, each pair's
    file holds that pair's distance, computed from the tables as they were
    before the pass.
   */
  lemma DistancePassFiles(dir: Directory, pairs: seq<(string, string)>)
    requires SPairs(pairs)
    ensures SPairs(pairs) && forall k :: 0 <= k < |pairs| ==> Nameable(pairs[k])
    ensures var out := DistancePass(dir, pairs);
      out.error.None? && (forall i, j :: 0 <= i < j < |pairs| ==> DistName(pairs[i]) != DistName(pairs[j])) ==>
        forall k :: 0 <= k < |pairs| ==> StoredDistance(dir, out.dir, pairs[k])
  {
    SPairsNameable(pairs);
    if DistancePass(dir, pairs).error.None? &&
       forall i, j :: 0 <= i < j < |pairs| ==> DistName(pairs[i]) != DistName(pairs[j])
    {
      forall k | 0 <= k < |pairs| ensures StoredDistance(dir, DistancePass(dir, pairs).dir, pairs[k]) {
        DistancePassFileAt(dir, pairs, k);
      }
    }
  }

  /** Pair `k`'s file, under distinct names, holds pair `k`'s distance after a successful pass. */
  lemma {:induction false} DistancePassFileAt(dir: Directory, pairs: seq<(string, string)>, k: nat)
    requires SPairs(pairs) && forall k :: 0 <= k < |pairs| ==> Nameable(pairs[k])
    requires DistancePass(dir, pairs).error.None?
    requires forall i, j :: 0 <= i < j < |pairs| ==> DistName(pairs[i]) != DistName(pairs[j])
    requires k < |pairs|
    ensures StoredDistance(dir, DistancePass(dir, pairs).dir, pairs[k])
    decreases |pairs|
  {
    if k == 0 {
      var d', tail := PassHead(dir, pairs);
      FileAtHead(dir, pairs, d', tail);
    } else {
      var d', tail := FileTail(dir, pairs, k);
      DistancePassFileAt(d', tail, k - 1);
      StoredFromEarlier(dir, d', DistancePass(d', tail).dir, pairs[k]);
    }
  }

  /** What a successful pass goes on with after the first pair, as seen by pair `k`'s file. */
  lemma FileTail(dir: Directory, pairs: seq<(string, string)>, k: nat) returns (d': Directory, tail: seq<(string, string)>)
    requires SPairs(pairs) && forall k :: 0 <= k < |pairs| ==> Nameable(pairs[k])
    requires DistancePass(dir, pairs).error.None?
    requires forall i, j :: 0 <= i < j < |pairs| ==> DistName(pairs[i]) != DistName(pairs[j])
    requires 0 < k < |pairs|
    ensures tail == pairs[1..] && SPairs(tail) && forall k :: 0 <= k < |tail| ==> Nameable(tail[k])
    ensures forall i, j :: 0 <= i < j < |tail| ==> DistName(tail[i]) != DistName(tail[j])
    ensures DistancePass(d', tail) == DistancePass(dir, pairs) && tail[k - 1] == pairs[k]
    ensures PairDistance(d', pairs[k].0, pairs[k].1) == PairDistance(dir, pairs[k].0, pairs[k].1)
  {
    d', tail := PassHead(dir, pairs);
    SPairsTail(pairs);
    TailPairs(pairs);
    ReadsUnaffected(dir, pairs[0], d'[DistName(pairs[0])].content, pairs[k].0, pairs[k].1);
  }

  /** The pairs after the first have distinct file names too. */
  lemma TailPairs(pairs: seq<(string, string)>)
    requires pairs != [] && forall k :: 0 <= k < |pairs| ==> Nameable(pairs[k])
    requires forall i, j :: 0 <= i < j < |pairs| ==> DistName(pairs[i]) != DistName(pairs[j])
    ensures forall i, j :: 0 <= i < j < |pairs[1..]| ==> DistName(pairs[1..][i]) != DistName(pairs[1..][j])
  {
    var tail := pairs[1..];
    forall k | 0 <= k < |tail| ensures tail[k] == pairs[k + 1] {}
  }

  /** A distance stored from one directory is stored from any other that gives the pair the same distance. */
  lemma StoredFromEarlier(dir: Directory, d': Directory, out: Directory, p: (string, string))
    requires Nameable(p) && StoredDistance(d', out, p)
    requires PairDistance(d', p.0, p.1) == PairDistance(dir, p.0, p.1)
    ensures StoredDistance(dir, out, p)
  {
  }

  /** A successful pass saves the first pair's distance and goes on with the rest. */
  lemma PassHead(dir: Directory, pairs: seq<(string, string)>) returns (d': Directory, tail: seq<(string, string)>)
    requires pairs != [] && forall k :: 0 <= k < |pairs| ==> Nameable(pairs[k])
    requires DistancePass(dir, pairs).error.None?
    ensures PairDistance(dir, pairs[0].0, pairs[0].1).Ok? && Writable(dir, DistName(pairs[0]))
    ensures d' == dir[DistName(pairs[0]) := File(PairDistance(dir, pairs[0].0, pairs[0].1).value)]
    ensures tail == pairs[1..] && DistancePass(dir, pairs) == DistancePass(d', tail)
    ensures PairError(dir, pairs[0]).None? && DistancePass(d', tail).error.None?
  {
    d', tail := PassStep(dir, pairs);
  }

  /** When the first pair meets no error, the pass saves its distance and goes on with the rest. */
  lemma PassStep(dir: Directory, pairs: seq<(string, string)>) returns (d': Directory, tail: seq<(string, string)>)
    requires pairs != [] && forall k :: 0 <= k < |pairs| ==> Nameable(pairs[k])
    requires PairError(dir, pairs[0]).None?
    ensures PairDistance(dir, pairs[0].0, pairs[0].1).Ok? && Writable(dir, DistName(pairs[0])) &&
            d' == dir[DistName(pairs[0]) := File(PairDistance(dir, pairs[0].0, pairs[0].1).value)]
    ensures tail == pairs[1..] && DistancePass(dir, pairs) == DistancePass(d', tail)
  {
    d' := dir[DistName(pairs[0]) := File(PairDistance(dir, pairs[0].0, pairs[0].1).value)];
    tail := pairs[1..];
  }

  /** The first pair's file, under a name no later pair uses, keeps the distance saved for it. */
  lemma FileAtHead(dir: Directory, pairs: seq<(string, string)>, d': Directory, tail: seq<(string, string)>)
    requires pairs != [] && forall k :: 0 <= k < |pairs| ==> Nameable(pairs[k])
    requires forall j :: 1 <= j < |pairs| ==> DistName(pairs[0]) != DistName(pairs[j])
    requires PairDistance(dir, pairs[0].0, pairs[0].1).Ok?
    requires d' == dir[DistName(pairs[0]) := File(PairDistance(dir, pairs[0].0, pairs[0].1).value)]
    requires tail == pairs[1..] && DistancePass(dir, pairs) == DistancePass(d', tail)
    ensures StoredDistance(dir, DistancePass(dir, pairs).dir, pairs[0])
  {
    forall j | 0 <= j < |tail| ensures DistName(pairs[0]) != DistName(tail[j]) {
      assert tail[j] == pairs[j + 1];
    }
    DistancePassKeepsName(d', tail, DistName(pairs[0]));
  }

  /** Pairs of selected S tables are pairs the pass can name. */
  lemma SelectedPairs(fs: seq<string>)
    requires forall f :: f in fs ==> IsSFile(f)
    ensures SPairs(Product(fs, fs))
    ensures forall k :: 0 <= k < |Product(fs, fs)| ==> Nameable(Product(fs, fs)[k])
  {
    var ps := Product(fs, fs);
    forall k | 0 <= k < |ps| ensures IsSFile(ps[k].0) && IsSFile(ps[k].1) {
      ProductMembers(fs, fs, ps[k]);
    }
    SPairsNameable(ps);
  }

  /**
    Lines 100-125 on one rank: select and order the S tables, then save the
    distance of every ordered pair of them. Nothing here depends on the rank:
    every rank writes every pair, and the rank's share of the task grid
    (lines 86-92) is never consulted.
   */
  function DistanceStage(dir: Directory, listing: seq<string>): Outcome {
    match SelectSFiles(listing)
    case Err(e) => Outcome(dir, Some(e))
    case Ok(fs) =>
      SelectedPairs(fs);
      DistancePass(dir, Product(fs, fs))
  }

  /** No two of the tables share a run id. */
  predicate DistinctIds(fs: seq<string>) {
    forall i, j :: 0 <= i < j < |fs| && '_' in fs[i] && '_' in fs[j] ==> IdField(fs[i]) != IdField(fs[j])
  }

  /** Pair k of the product of `xs` with itself is `(xs[i], xs[j])` where k = i*|xs| + j. */
  lemma ProductIndex<T>(xs: seq<T>, k: nat) returns (i: nat, j: nat)
    requires k < |xs| * |xs|
    ensures i < |xs| && j < |xs| && k == i * |xs| + j
    ensures Product(xs, xs)[k] == (xs[i], xs[j])
  {
    var m := |xs|;
    i, j := k / m, k % m;
    assert k == i * m + j;
    if i >= m {
      MulMonotone(i, m, m);
    }
    ProductAt(xs, xs, i, j);
  }

  /** With distinct run ids, the m*m pairs of the product have m*m distinct file names. */
  lemma ProductNamesDistinct(fs: seq<string>)
    requires forall f :: f in fs ==> IsSFile(f)
    requires DistinctIds(fs)
    ensures SPairs(Product(fs, fs))
    ensures forall k :: 0 <= k < |Product(fs, fs)| ==> Nameable(Product(fs, fs)[k])
    ensures var ps := Product(fs, fs);
      forall k, k' :: 0 <= k < k' < |ps| ==> DistName(ps[k]) != DistName(ps[k'])
  {
    SelectedPairs(fs);
    var ps := Product(fs, fs);
    var m := |fs|;
    forall k, k' | 0 <= k < k' < |ps| ensures DistName(ps[k]) != DistName(ps[k']) {
      ProductNamesDiffer(fs, k, k');
    }
  }

  lemma ProductNamesDiffer(fs: seq<string>, k: nat, k': nat)
    requires forall f :: f in fs ==> IsSFile(f)
    requires DistinctIds(fs)
    requires k < k' < |fs| * |fs|
    ensures SPairs(Product(fs, fs))
    ensures forall k :: 0 <= k < |Product(fs, fs)| ==> Nameable(Product(fs, fs)[k])
    ensures DistName(Product(fs, fs)[k]) != DistName(Product(fs, fs)[k'])
  {
    SelectedPairs(fs);
    var i, j := ProductIndex(fs, k);
    var i', j' := ProductIndex(fs, k');
    SFileSeparator(fs[i]);
    SFileSeparator(fs[j]);
    SFileSeparator(fs[i']);
    SFileSeparator(fs[j']);
    DistFileNameInjective(IdField(fs[i]), IdField(fs[j]), IdField(fs[i']), IdField(fs[j']));
    if i == i' {
      assert j != j';
    }
  }

  /**
    A successful distance stage over S tables with distinct run ids leaves, for
    every ordered pair (a, b) of them, `a`'s and `b`'s distance in the file
    `dist_{id a}_{id b}.npz`.
   */
  lemma DistanceStageFiles(dir: Directory, listing: seq<string>, fs: seq<string>)
    requires SelectSFiles(listing) == Ok(fs)
    requires DistinctIds(fs)
    requires DistanceStage(dir, listing).error.None?
    ensures forall a, b :: a in fs && b in fs ==>
      IsSFile(a) && IsSFile(b) && Nameable((a, b)) && StoredDistance(dir, DistanceStage(dir, listing).dir, (a, b))
  {
    ProductNamesDistinct(fs);
    var ps := Product(fs, fs);
    DistancePassFiles(dir, ps);
    forall a, b | a in fs && b in fs
      ensures IsSFile(a) && IsSFile(b) && Nameable((a, b)) && StoredDistance(dir, DistanceStage(dir, listing).dir, (a, b))
    {
      ProductMembers(fs, fs, (a, b));
      var k :| 0 <= k < |ps| && ps[k] == (a, b);
      assert StoredDistance(dir, DistancePass(dir, ps).dir, ps[k]);
    }
  }

  /**
    The pass on a directory that already holds every pair's distance, computed
    from that same directory, saves each of them again over itself and so
    succeeds without changing anything.
   */
  lemma {:induction false} DistancePassStable(dir: Directory, pairs: seq<(string, string)>)
    requires forall k :: 0 <= k < |pairs| ==> Nameable(pairs[k])
    requires forall k :: 0 <= k < |pairs| ==> StoredDistance(dir, dir, pairs[k])
    ensures DistancePass(dir, pairs) == Outcome(dir, None)
    decreases |pairs|
  {
    if pairs != [] {
      var name := DistName(pairs[0]);
      assert StoredDistance(dir, dir, pairs[0]);
      assert dir[name := File(dir[name].content)] == dir;
      var tail := pairs[1..];
      forall k | 0 <= k < |tail| ensures Nameable(tail[k]) && StoredDistance(dir, dir, tail[k]) {
        assert tail[k] == pairs[k + 1];
      }
      DistancePassStable(dir, tail);
    }
  }

  /** A successful stage leaves every S table, and every missing one, as it was. */
  lemma StageKeepsSFiles(dir: Directory, listing: seq<string>, fs: seq<string>, f: string)
    requires SelectSFiles(listing) == Ok(fs) && IsSFile(f)
    ensures SameAt(DistanceStage(dir, listing).dir, dir, f)
  {
    SelectedPairs(fs);
    var ps := Product(fs, fs);
    DistancePassFrame(dir, ps);
    forall k | 0 <= k < |ps| ensures f != DistName(ps[k]) {
      DistFileNotSFile(IdField(ps[k].0), IdField(ps[k].1));
    }
  }

  /**
    Running the stage again on its own successful output, with a listing that
    names the same S tables (the listing taken before the first run, or any
    listing of the directory that run left), saves the same distances over
    themselves: it succeeds and changes nothing. Every rank runs the whole
    loop, so the ranks after the first leave the directory as the first one
    left it.
   */
  lemma DistanceStageRepeats(dir: Directory, listing: seq<string>, fs: seq<string>, again: seq<string>)
    requires SelectSFiles(listing) == Ok(fs)
    requires DistinctIds(fs)
    requires DistanceStage(dir, listing).error.None?
    requires forall f :: IsSFile(f) ==> (f in again <==> f in listing)
    ensures var out := DistanceStage(dir, listing).dir;
      DistanceStage(out, again) == Outcome(out, None)
  {
    var out := DistanceStage(dir, listing).dir;
    var fs' := SelectSFiles(again).value;
    assert forall f :: f in fs' ==> f in fs;
    SelectedPairs(fs');
    var ps := Product(fs', fs');
    forall k | 0 <= k < |ps| ensures StoredDistance(out, out, ps[k]) {
      ProductMembers(fs', fs', ps[k]);
      StoredAgain(dir, listing, fs, ps[k]);
    }
    DistancePassStable(out, ps);
  }

  /** After a successful stage, the distance of two selected tables read from its output is the one it saved. */
  lemma StoredAgain(dir: Directory, listing: seq<string>, fs: seq<string>, p: (string, string))
    requires SelectSFiles(listing) == Ok(fs)
    requires DistinctIds(fs)
    requires DistanceStage(dir, listing).error.None?
    requires p.0 in fs && p.1 in fs
    ensures Nameable(p) && StoredDistance(DistanceStage(dir, listing).dir, DistanceStage(dir, listing).dir, p)
  {
    var out := DistanceStage(dir, listing).dir;
    DistanceStageFiles(dir, listing, fs);
    assert IsSFile(p.0) && IsSFile(p.1) && StoredDistance(dir, out, p);
    StageKeepsSFiles(dir, listing, fs, p.0);
    StageKeepsSFiles(dir, listing, fs, p.1);
    SameTables(out, dir, p.0, p.1);
  }

  /** Two directories with the same entries (or none) under `a` and `b` give the pair the same distance. */
  lemma SameTables(d1: Directory, d2: Directory, a: string, b: string)
    requires SameAt(d1, d2, a) && SameAt(d1, d2, b)
    ensures PairDistance(d1, a, b) == PairDistance(d2, a, b)
  {
    assert ReadCsv(d1, a) == ReadCsv(d2, a) && ReadCsv(d1, b) == ReadCsv(d2, b);
  }

  /** A listing of the stage's own output names the same S tables as a listing of its input. */
  lemma RelistedSFiles(dir: Directory, listing: seq<string>, fs: seq<string>, again: seq<string>)
    requires SelectSFiles(listing) == Ok(fs)
    requires IsListing(dir, listing) && IsListing(DistanceStage(dir, listing).dir, again)
    ensures forall f :: IsSFile(f) ==> (f in again <==> f in listing)
  {
    forall f | IsSFile(f) ensures f in again <==> f in listing {
      StageKeepsSFiles(dir, listing, fs, f);
    }
  }

  // ---------------------------------------------------------------------------
  // Threshold and clip

  /** Line 118 on one entry: distances below 0.5 become 0. */
  function Threshold(x: real): real {
    if x < 0.5 then 0.0 else x
  }

  /** `np.clip(x, lo, hi)` on one entry. */
  function Clip(x: real, lo: real, hi: real): real {
    if x < lo then lo else if x > hi then hi else x
  }

  /**
    Lines 118 and 124 on one entry: the value saved for a distance `x` is 0 or
    lies in [0.5, 1]; small distances vanish, distances in [0.5, 1] are kept
    and larger ones are capped at 1.
   */
  function Sparsify(x: real): (r: real)
    ensures r == 0.0 || 0.5 <= r <= 1.0
    ensures x < 0.5 ==> r == 0.0
    ensures 0.5 <= x <= 1.0 ==> r == x
    ensures x > 1.0 ==> r == 1.0
  {
    Clip(Threshold(x), 0.0, 1.0)
  }

  /** Thresholding and clipping a second time changes nothing. */
  lemma SparsifyIdempotent(x: real)
    ensures Sparsify(Sparsify(x)) == Sparsify(x)
  {
  }

  /** Line 118: `dist[dist < 0.5] = 0` overwrites the small entries of the matrix in place. */
  method ThresholdInPlace(dist: array2<real>)
    modifies dist
    ensures forall i, j :: 0 <= i < dist.Length0 && 0 <= j < dist.Length1 ==>
      dist[i, j] == Threshold(old(dist[i, j]))
  {
    var i := 0;
    while i < dist.Length0
      invariant i <= dist.Length0
      invariant forall i', j :: 0 <= i' < dist.Length0 && 0 <= j < dist.Length1 ==>
        dist[i', j] == if i' < i then Threshold(old(dist[i', j])) else old(dist[i', j])
    {
      var j := 0;
      while j < dist.Length1
        invariant j <= dist.Length1
        invariant forall i', j' :: 0 <= i' < dist.Length0 && 0 <= j' < dist.Length1 ==>
          dist[i', j'] == if i' < i || (i' == i && j' < j) then Threshold(old(dist[i', j'])) else old(dist[i', j'])
      {
        if dist[i, j] < 0.5 {
          dist[i, j] := 0.0;
        }
        j := j + 1;
      }
      i := i + 1;
    }
  }

  /**
    Lines 118-124: threshold the distance matrix in place, then take the copy
    clipped to [0, 1] that is saved.
   */
  method SavedEntries(dist: array2<real>) returns (saved: seq<seq<real>>)
    modifies dist
    ensures |saved| == dist.Length0
    ensures forall i :: 0 <= i < |saved| ==> |saved[i]| == dist.Length1
    ensures forall i, j :: 0 <= i < dist.Length0 && 0 <= j < dist.Length1 ==>
      dist[i, j] == Threshold(old(dist[i, j])) && saved[i][j] == Sparsify(old(dist[i, j]))
  {
    ThresholdInPlace(dist);
    saved := seq(dist.Length0, i requires 0 <= i < dist.Length0 reads dist =>
      seq(dist.Length1, j requires 0 <= j < dist.Length1 reads dist => Clip(dist[i, j], 0.0, 1.0)));
  }
}
