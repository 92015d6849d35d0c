/**
  List comprehensions with a condition, and Python's `sorted` / `list.sort`: a
  stable sort under a total preorder, used both with an integer sort key
  (`key=lambda x: int(...)`) and with the default order on strings.
 */
module Lists {
  import opened Wrappers
  import opened Strings

  predicate Distinct<T(==)>(s: seq<T>) {
    forall i, j :: 0 <= i < j < |s| ==> s[i] != s[j]
  }

  function Min(a: int, b: int): int {
    if a <= b then a else b
  }

  /** Python's `s[a:b]` for non-negative bounds: both are clipped to the length. */
  function Slice<T>(s: seq<T>, a: nat, b: nat): (r: seq<T>)
    ensures a <= b <= |s| ==> r == s[a..b]
    ensures |r| == if Min(a, |s|) <= Min(b, |s|) then Min(b, |s|) - Min(a, |s|) else 0
    ensures forall k :: 0 <= k < |r| ==> a + k < |s| && r[k] == s[a + k]
  {
    var lo := Min(a, |s|);
    var hi := Min(b, |s|);
    if lo <= hi then s[lo..hi] else []
  }

  /** `[x for x in s if p(x)]` */
  function Filter<T(!new)>(s: seq<T>, p: T -> bool): (r: seq<T>)
    ensures |r| <= |s|
    ensures forall x :: x in r <==> x in s && p(x)
    ensures Distinct(s) ==> Distinct(r)
  {
    if s == [] then []
    else
      assert s == [s[0]] + s[1..];
      (if p(s[0]) then [s[0]] else []) + Filter(s[1..], p)
  }

  /** The first element of `s` that fails `p`, if any. */
  function FirstFailing<T(!new)>(s: seq<T>, p: T -> bool): (r: Option<T>)
    ensures r.None? <==> forall x :: x in s ==> p(x)
    ensures r.Some? ==> r.value in s && !p(r.value)
  {
    if s == [] then None
    else if !p(s[0]) then Some(s[0])
    else FirstFailing(s[1..], p)
  }

  /** What `FirstFailing` finds is the first failing element: everything before it passes. */
  lemma {:induction false} FirstFailingIsFirst<T(!new)>(s: seq<T>, p: T -> bool)
    requires FirstFailing(s, p).Some?
    ensures exists k :: 0 <= k < |s| && s[k] == FirstFailing(s, p).value && forall m :: 0 <= m < k ==> p(s[m])
  {
    if !p(s[0]) {
      assert s[0] == FirstFailing(s, p).value;
    } else {
      FirstFailingIsFirst(s[1..], p);
      var k :| 0 <= k < |s[1..]| && s[1..][k] == FirstFailing(s[1..], p).value && forall m :: 0 <= m < k ==> p(s[1..][m]);
      assert s[k + 1] == FirstFailing(s, p).value;
      assert forall m :: 0 <= m < k + 1 ==> p(s[m]) by {
        forall m | 0 <= m < k + 1 ensures p(s[m]) {
          if m > 0 { assert s[m] == s[1..][m - 1]; }
        }
      }
    }
  }

  /** `le` is total and transitive: what a sort key or `str` comparison gives. */
  ghost predicate TotalPreorder<T(!new)>(le: (T, T) -> bool) {
    && (forall a, b :: le(a, b) || le(b, a))
    && (forall a, b, c :: le(a, b) && le(b, c) ==> le(a, c))
  }

  predicate SortedBy<T>(s: seq<T>, le: (T, T) -> bool) {
    forall i, j :: 0 <= i < j < |s| ==> le(s[i], s[j])
  }

  /**
    Puts `x` in front of the first element it is `le` to, so that `x` stays
    before the equal elements of `s`: the step of a stable insertion sort.
   */
  function Insert<T(!new)>(x: T, s: seq<T>, le: (T, T) -> bool): (r: seq<T>)
    requires TotalPreorder(le) && SortedBy(s, le)
    ensures SortedBy(r, le)
    ensures multiset(r) == multiset(s) + multiset{x}
    ensures Distinct(s) && x !in s ==> Distinct(r)
  {
    if s == [] then [x]
    else if le(x, s[0]) then [x] + s
    else
      var rest := Insert(x, s[1..], le);
      assert s == [s[0]] + s[1..];
      InsertHeadBelow(x, s, rest, le);
      ConsSorted(s[0], rest, le);
      InsertHeadDistinct(x, s, rest);
      [s[0]] + rest
  }

  /** When `x` goes after the head of `s`, the head is `le` to everything inserted behind it. */
  lemma InsertHeadBelow<T(!new)>(x: T, s: seq<T>, rest: seq<T>, le: (T, T) -> bool)
    requires TotalPreorder(le) && SortedBy(s, le) && s != [] && !le(x, s[0])
    requires multiset(rest) == multiset(s[1..]) + multiset{x}
    ensures forall k :: 0 <= k < |rest| ==> le(s[0], rest[k])
  {
    forall k | 0 <= k < |rest| ensures le(s[0], rest[k]) {
      assert rest[k] in multiset(rest);
      if rest[k] != x {
        assert rest[k] in multiset(s[1..]);
        var m :| 0 <= m < |s[1..]| && s[1..][m] == rest[k];
        assert s[m + 1] == rest[k];
      }
    }
  }

  /** The head of distinct `s`, put back in front of the insertion into its tail, repeats nothing. */
  lemma InsertHeadDistinct<T>(x: T, s: seq<T>, rest: seq<T>)
    requires s != [] && multiset(rest) == multiset(s[1..]) + multiset{x}
    requires Distinct(s[1..]) && x !in s[1..] ==> Distinct(rest)
    ensures Distinct(s) && x !in s ==> Distinct([s[0]] + rest)
  {
    if Distinct(s) && x !in s {
      assert s == [s[0]] + s[1..];
      DistinctTail(s);
      assert s[0] !in multiset(rest) by {
        assert s[0] != x;
      }
      DistinctCons(s[0], rest);
    }
  }

  /** The tail of a list without repeats has none, and does not hold the head. */
  lemma DistinctTail<T>(s: seq<T>)
    requires Distinct(s) && s != []
    ensures Distinct(s[1..]) && s[0] !in s[1..]
  {
    forall i, j | 0 <= i < j < |s[1..]| ensures s[1..][i] != s[1..][j] {
      assert s[1..][i] == s[i + 1] && s[1..][j] == s[j + 1];
    }
    forall i | 0 <= i < |s[1..]| ensures s[1..][i] != s[0] {
      assert s[1..][i] == s[i + 1];
    }
  }

  lemma ConsSorted<T>(h: T, s: seq<T>, le: (T, T) -> bool)
    requires SortedBy(s, le) && forall k :: 0 <= k < |s| ==> le(h, s[k])
    ensures SortedBy([h] + s, le)
  {
    forall i, j | 0 <= i < j < |s| + 1 ensures le(([h] + s)[i], ([h] + s)[j]) {
      assert ([h] + s)[j] == s[j - 1];
      if i > 0 {
        assert ([h] + s)[i] == s[i - 1];
      }
    }
  }

  lemma DistinctCons<T>(x: T, s: seq<T>)
    requires Distinct(s) && x !in multiset(s)
    ensures Distinct([x] + s)
  {
    forall i, j | 0 <= i < j < |s| + 1 ensures ([x] + s)[i] != ([x] + s)[j] {
      if i > 0 {
        assert ([x] + s)[i] == s[i - 1];
      }
      assert ([x] + s)[j] == s[j - 1];
    }
  }

  /** The sorted arrangement of `s`; equal elements keep their order. */
  function SortBy<T(!new)>(s: seq<T>, le: (T, T) -> bool): (r: seq<T>)
    requires TotalPreorder(le)
    ensures SortedBy(r, le)
    ensures multiset(r) == multiset(s)
    ensures Distinct(s) ==> Distinct(r)
  {
    if s == [] then []
    else
      assert s == [s[0]] + s[1..];
      var sorted := SortBy(s[1..], le);
      assert Distinct(s) ==> s[0] !in s[1..] && s[0] !in multiset(sorted);
      Insert(s[0], sorted, le)
  }

  /** Rearrangements have the same members. */
  lemma SameMembers<T>(a: seq<T>, b: seq<T>)
    requires multiset(a) == multiset(b)
    ensures forall x :: x in a <==> x in b
  {
    forall x ensures x in a <==> x in b {
      assert x in a <==> x in multiset(a);
      assert x in b <==> x in multiset(b);
    }
  }

  /** The order induced by an integer sort key. */
  function ByKey<T>(key: T -> int): (T, T) -> bool {
    (a: T, b: T) => key(a) <= key(b)
  }

  /** Sorted by a key: the keys ascend. */
  lemma SortedByKey<T>(s: seq<T>, key: T -> int)
    requires SortedBy(s, ByKey(key))
    ensures forall i, j :: 0 <= i < j < |s| ==> key(s[i]) <= key(s[j])
  {
    forall i, j | 0 <= i < j < |s| ensures key(s[i]) <= key(s[j]) {
      assert ByKey(key)(s[i], s[j]);
    }
  }

  lemma ByKeyTotalPreorder<T(!new)>(key: T -> int)
    ensures TotalPreorder(ByKey(key))
  {
  }

  /** Python's order on `str`. */
  function ByText(): (string, string) -> bool {
    (a: string, b: string) => LexLe(a, b)
  }

  lemma ByTextTotalPreorder()
    ensures TotalPreorder(ByText())
  {
    forall a: string, b: string ensures LexLe(a, b) || LexLe(b, a) {
      LexLeTotal(a, b);
    }
    forall a: string, b: string, c: string | LexLe(a, b) && LexLe(b, c)
      ensures LexLe(a, c)
    {
      LexLeTransitive(a, b, c);
    }
  }
}
