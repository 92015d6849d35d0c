/**
  The few pieces of Python's `str` behaviour the pipeline relies on: substring
  tests, `split`, `rsplit(_, 1)`, decimal formatting of a natural number,
  `int()` on a decimal field, the regex `\d+` and the order `<=` on strings.
 */
module Strings {
  import opened Wrappers

  /** `s.startswith(p)` */
  predicate StartsWith(s: string, p: string) {
    |p| <= |s| && s[..|p|] == p
  }

  /** `s.endswith(p)` */
  predicate EndsWith(s: string, p: string) {
    |p| <= |s| && s[|s| - |p|..] == p
  }

  /** `p in s` for two strings: `p` occurs in `s` at some position. */
  predicate Contains(s: string, p: string) {
    exists i :: 0 <= i <= |s| - |p| && OccursAt(s, p, i)
  }

  predicate OccursAt(s: string, p: string, i: int)
    requires 0 <= i <= |s| - |p|
  {
    s[i..i + |p|] == p
  }

  /** Every character within an occurrence belongs to the pattern. */
  lemma OccurrenceAt(s: string, p: string, i: int, j: int)
    requires 0 <= i <= |s| - |p| && OccursAt(s, p, i)
    requires i <= j < i + |p|
    ensures s[j] in p
  {
    assert p[j - i] == s[j];
  }

  lemma EndsWithContains(s: string, p: string)
    requires EndsWith(s, p)
    ensures Contains(s, p)
  {
    assert OccursAt(s, p, |s| - |p|);
  }

  /**
    An occurrence of `p` in `x + [c] + y` lies inside `x` or inside `y` when `c`
    does not occur in `p`.
   */
  lemma ContainsAcross(x: string, c: char, y: string, p: string)
    requires c !in p
    ensures Contains(x + [c] + y, p) <==> Contains(x, p) || Contains(y, p)
  {
    var s := x + [c] + y;
    if Contains(s, p) {
      var i :| 0 <= i <= |s| - |p| && OccursAt(s, p, i);
      if i + |p| <= |x| {
        assert x[i..i + |p|] == s[i..i + |p|];
        assert OccursAt(x, p, i);
      } else {
        if i <= |x| {
          OccurrenceAt(s, p, i, |x|);
        }
        assert y[i - |x| - 1..i - |x| - 1 + |p|] == s[i..i + |p|];
        assert OccursAt(y, p, i - |x| - 1);
      }
    }
    if Contains(x, p) {
      var i :| 0 <= i <= |x| - |p| && OccursAt(x, p, i);
      assert s[i..i + |p|] == x[i..i + |p|];
      assert OccursAt(s, p, i);
    }
    if Contains(y, p) {
      var i :| 0 <= i <= |y| - |p| && OccursAt(y, p, i);
      assert s[|x| + 1..] == y;
      assert s[|x| + 1 + i..|x| + 1 + i + |p|] == s[|x| + 1..][i..i + |p|];
      assert OccursAt(s, p, |x| + 1 + i);
    }
  }

  /** Position of the first `c` in `s`. */
  function IndexOf(s: string, c: char): (i: nat)
    requires c in s
    ensures i < |s| && s[i] == c && c !in s[..i]
  {
    if s[0] == c then 0 else 1 + IndexOf(s[1..], c)
  }

  /** `s.split(c)`: the fields between the occurrences of `c`, at least one. */
  function Split(s: string, c: char): (fields: seq<string>)
    ensures |fields| >= 1
    ensures c in s ==> |fields| >= 2
    ensures forall k :: 0 <= k < |fields| ==> c !in fields[k]
    decreases |s|
  {
    if c !in s then [s]
    else
      var i := IndexOf(s, c);
      [s[..i]] + Split(s[i + 1..], c)
  }

  /** Splitting at a first separator: the text before it is the first field. */
  lemma {:induction false} SplitAt(x: string, c: char, y: string)
    requires c !in x
    ensures Split(x + [c] + y, c) == [x] + Split(y, c)
  {
    var s := x + [c] + y;
    assert s[..|x|] == x;
    assert s[|x|] == c;
    var i := IndexOf(s, c);
    assert s[..i] == x;
    assert s[i + 1..] == y;
  }

  /** Three fields joined by the separator split back into those fields. */
  lemma SplitThree(x: string, c: char, y: string, z: string)
    requires c !in x && c !in y && c !in z
    ensures Split(x + [c] + y + [c] + z, c) == [x, y, z]
  {
    assert x + [c] + y + [c] + z == x + [c] + (y + [c] + z);
    SplitAt(x, c, y + [c] + z);
    SplitAt(y, c, z);
  }

  /** `s.rsplit(c, 1)[0]`: the text before the last `c`, or `s` itself. */
  function BeforeLast(s: string, c: char): (r: string)
    ensures |r| <= |s|
  {
    if c !in s then s
    else if s[|s| - 1] == c then s[..|s| - 1]
    else BeforeLast(s[..|s| - 1], c)
  }

  /** The last separator is the one that ends `x`. */
  lemma {:induction false} BeforeLastAt(x: string, c: char, y: string)
    requires c !in y
    ensures BeforeLast(x + [c] + y, c) == x
    decreases |y|
  {
    var s := x + [c] + y;
    assert s[|x|] == c;
    if y == [] {
      assert s[..|s| - 1] == x;
    } else {
      assert s[|s| - 1] == y[|y| - 1];
      assert s[..|s| - 1] == x + [c] + y[..|y| - 1];
      BeforeLastAt(x, c, y[..|y| - 1]);
    }
  }

  predicate IsDigit(ch: char) {
    '0' <= ch <= '9'
  }

  /** A non-empty run of ASCII decimal digits. */
  predicate AllDigits(s: string) {
    |s| >= 1 && forall k :: 0 <= k < |s| ==> IsDigit(s[k])
  }

  function DigitChar(d: nat): (ch: char)
    requires d < 10
    ensures IsDigit(ch) && ch as int - '0' as int == d
  {
    ('0' as int + d) as char
  }

  /** Value of a string of decimal digits, most significant first. */
  function DigitsValue(s: string): nat
    requires forall k :: 0 <= k < |s| ==> IsDigit(s[k])
  {
    if s == [] then 0
    else
      assert IsDigit(s[|s| - 1]);
      10 * DigitsValue(s[..|s| - 1]) + (s[|s| - 1] as int - '0' as int)
  }

  /** `str(n)` / `"{}".format(n)` for a natural number. */
  function NatToString(n: nat): (s: string)
    ensures AllDigits(s)
  {
    if n < 10 then [DigitChar(n)] else NatToString(n / 10) + [DigitChar(n % 10)]
  }

  /**
    `int(s)` on a decimal field: an optional sign followed by one or more
    ASCII digits, leading zeros allowed; anything else raises ValueError.
   */
  function ParseInt(s: string): (r: Option<int>)
    ensures r.Some? && s != [] && IsDigit(s[0]) ==> AllDigits(s)
  {
    if |s| >= 1 && (s[0] == '-' || s[0] == '+') && AllDigits(s[1..]) then
      var v: int := DigitsValue(s[1..]);
      Some(if s[0] == '-' then -v else v)
    else if AllDigits(s) then Some(DigitsValue(s))
    else None
  }

  lemma {:induction false} DigitsValueOfNat(n: nat)
    ensures DigitsValue(NatToString(n)) == n
  {
    var s := NatToString(n);
    if n >= 10 {
      DigitsValueOfNat(n / 10);
      assert s[..|s| - 1] == NatToString(n / 10);
    }
  }

  /** Formatting a natural number and parsing it back gives the number. */
  lemma ParseNatToString(n: nat)
    ensures ParseInt(NatToString(n)) == Some(n)
  {
    DigitsValueOfNat(n);
    var s := NatToString(n);
    assert IsDigit(s[0]);
  }

  lemma NatToStringInjective(m: nat, n: nat)
    requires NatToString(m) == NatToString(n)
    ensures m == n
  {
    ParseNatToString(m);
    ParseNatToString(n);
  }

  lemma NatToStringNoSeparator(n: nat, c: char)
    requires !IsDigit(c)
    ensures c !in NatToString(n)
  {
  }

  /** Length of the run of digits that starts `s`. */
  function LeadingDigits(s: string): (d: nat)
    ensures d <= |s|
    ensures forall k :: 0 <= k < d ==> IsDigit(s[k])
    ensures d < |s| ==> !IsDigit(s[d])
  {
    if s != [] && IsDigit(s[0]) then 1 + LeadingDigits(s[1..]) else 0
  }

  /** `re.search(r'(\d+)', s).group()`: the leftmost maximal run of digits. */
  function FirstDigitRun(s: string): (r: Option<string>)
    ensures r.Some? ==> AllDigits(r.value)
  {
    if s == [] then None
    else if IsDigit(s[0]) then Some(s[..LeadingDigits(s)])
    else FirstDigitRun(s[1..])
  }

  /** A prefix without digits is skipped by the search for the first run. */
  lemma {:induction false} FirstDigitRunAfter(x: string, y: string)
    requires forall k :: 0 <= k < |x| ==> !IsDigit(x[k])
    requires y != [] && IsDigit(y[0])
    ensures FirstDigitRun(x + y) == Some(y[..LeadingDigits(y)])
    decreases |x|
  {
    if x == [] {
      assert x + y == y;
    } else {
      assert (x + y)[1..] == x[1..] + y;
      FirstDigitRunAfter(x[1..], y);
    }
  }

  /** Python's `a <= b` on `str`: code-point lexicographic order. */
  predicate LexLe(a: string, b: string) {
    if a == [] then true
    else if b == [] then false
    else if a[0] != b[0] then a[0] < b[0]
    else LexLe(a[1..], b[1..])
  }

  lemma {:induction false} LexLeTotal(a: string, b: string)
    ensures LexLe(a, b) || LexLe(b, a)
  {
    if a != [] && b != [] && a[0] == b[0] {
      LexLeTotal(a[1..], b[1..]);
    }
  }

  lemma {:induction false} LexLeTransitive(a: string, b: string, c: string)
    requires LexLe(a, b) && LexLe(b, c)
    ensures LexLe(a, c)
  {
    if a != [] && b != [] && c != [] && a[0] == b[0] && b[0] == c[0] {
      LexLeTransitive(a[1..], b[1..], c[1..]);
    }
  }

  lemma {:induction false} LexLeAntisymmetric(a: string, b: string)
    requires LexLe(a, b) && LexLe(b, a)
    ensures a == b
  {
    if a != [] && b != [] {
      if a[0] == b[0] {
        LexLeAntisymmetric(a[1..], b[1..]);
        assert a == [a[0]] + a[1..];
        assert b == [b[0]] + b[1..];
      }
    }
  }

  /** A common prefix does not change the order. */
  lemma {:induction false} LexLePrefix(p: string, a: string, b: string)
    ensures LexLe(p + a, p + b) == LexLe(a, b)
  {
    if p != [] {
      assert (p + a)[1..] == p[1..] + a;
      assert (p + b)[1..] == p[1..] + b;
      LexLePrefix(p[1..], a, b);
    } else {
      assert p + a == a;
      assert p + b == b;
    }
  }
}
