/**
 * Sequence rules shared by the scripts: duplicate-free sequences,
 * `list(dict.fromkeys(xs))` (first-occurrence de-duplication), `sorted` of a
 * set of strings, `list` of a set (an order the program does not control)
 * and the prefix slice `xs[:k]`.
 */
module Lists {

  import opened Text

  predicate Distinct<T(==)>(s: seq<T>) {
    forall i, j :: 0 <= i < j < |s| ==> s[i] != s[j]
  }

  /** `list(dict.fromkeys(s))`: each element once, where it first occurs. */
  function Dedup<T(==,!new)>(s: seq<T>): (r: seq<T>)
    ensures Distinct(r)
    ensures |r| <= |s|
    ensures forall x :: x in r <==> x in s
    decreases |s|
  {
    if s == [] then []
    else
      var d := Dedup(s[..|s| - 1]);
      if s[|s| - 1] in d then d else d + [s[|s| - 1]]
  }

  /** The position of the first occurrence of `x` in `s`. */
  function FirstIndex<T(==)>(s: seq<T>, x: T): (i: nat)
    requires x in s
    ensures i < |s| && s[i] == x && x !in s[..i]
  {
    if s[0] == x then 0 else 1 + FirstIndex(s[1..], x)
  }

  lemma {:induction false} FirstIndexInPrefix<T>(s: seq<T>, x: T)
    requires s != [] && x in s[..|s| - 1]
    ensures FirstIndex(s, x) == FirstIndex(s[..|s| - 1], x)
    decreases |s|
  {
    if s[0] != x {
      assert s[1..][..|s| - 2] == s[..|s| - 1][1..];
      FirstIndexInPrefix(s[1..], x);
    }
  }

  /** The first occurrence comes no later than any occurrence. */
  lemma {:induction false} FirstIndexLeast<T>(s: seq<T>, x: T, k: int)
    requires 0 <= k < |s| && s[k] == x
    ensures FirstIndex(s, x) <= k
    decreases k
  {
    if s[0] != x {
      FirstIndexLeast(s[1..], x, k - 1);
    }
  }

  /** De-duplication keeps elements in the order of their first occurrences. */
  lemma {:induction false} DedupKeepsFirstOrder<T(!new)>(s: seq<T>, i: int, j: int)
    requires 0 <= i < j < |Dedup(s)|
    ensures FirstIndex(s, Dedup(s)[i]) < FirstIndex(s, Dedup(s)[j])
    decreases |s|
  {
    var p := s[..|s| - 1];
    var d := Dedup(p);
    var r := Dedup(s);
    FirstIndexInPrefix(s, r[i]);
    if j < |d| {
      assert r[i] == d[i] && r[j] == d[j];
      FirstIndexInPrefix(s, r[j]);
      DedupKeepsFirstOrder(p, i, j);
    } else {
      assert r == d + [s[|s| - 1]] && r[j] == s[|s| - 1];
      assert r[j] !in s[..|s| - 1];
    }
  }

  predicate StrictlySorted(s: seq<string>) {
    forall i, j :: 0 <= i < j < |s| ==> Below(s[i], s[j])
  }

  lemma SortedDistinct(s: seq<string>)
    requires StrictlySorted(s)
    ensures Distinct(s)
  {
    forall i, j | 0 <= i < j < |s| ensures s[i] != s[j] {
      BelowIrreflexive(s[i]);
    }
  }

  /** Every non-empty finite set of strings has a least element. */
  lemma {:induction false} LeastExists(s: set<string>) returns (m: string)
    requires s != {}
    ensures m in s && forall y :: y in s && y != m ==> Below(m, y)
    decreases s
  {
    var x :| x in s;
    if s == {x} {
      m := x;
    } else {
      var m' := LeastExists(s - {x});
      BelowTotal(x, m');
      if Below(x, m') {
        m := x;
        forall y | y in s && y != m ensures Below(m, y) {
          if y != m' { BelowTransitive(x, m', y); }
        }
      } else {
        m := m';
      }
    }
  }

  /** Two strictly sorted sequences with the same elements are equal. */
  lemma {:induction false} SortedUnique(a: seq<string>, b: seq<string>)
    requires StrictlySorted(a) && StrictlySorted(b)
    requires forall x :: x in a <==> x in b
    ensures a == b
    decreases |a|
  {
    assert a != [] ==> a[0] in b;
    assert b != [] ==> b[0] in a;
    if a != [] {
      if a[0] != b[0] {
        var i :| 0 <= i < |a| && a[i] == b[0];
        var j :| 0 <= j < |b| && b[j] == a[0];
        assert Below(a[0], b[0]) && Below(b[0], a[0]);
        BelowTransitive(a[0], b[0], a[0]);
        BelowIrreflexive(a[0]);
      }
      SortedDistinct(a);
      SortedDistinct(b);
      forall x ensures x in a[1..] <==> x in b[1..] {
        if x in a[1..] {
          var i :| 1 <= i < |a| && a[i] == x;
          assert x != a[0];
          assert x in b;
        }
        if x in b[1..] {
          var i :| 1 <= i < |b| && b[i] == x;
          assert x != b[0];
          assert x in a;
        }
      }
      SortedUnique(a[1..], b[1..]);
      assert a == [a[0]] + a[1..] && b == [b[0]] + b[1..];
    }
  }

  /** `sorted(s)` for a set of strings: ascending, each element once. */
  method SortedList(s: set<string>) returns (r: seq<string>)
    ensures StrictlySorted(r)
    ensures forall x :: x in r <==> x in s
    ensures |r| == |s|
  {
    r := [];
    var rest := s;
    while rest != {}
      invariant rest <= s
      invariant forall x :: x in r <==> x in s && x !in rest
      invariant StrictlySorted(r)
      invariant forall x, y :: x in r && y in rest ==> Below(x, y)
      invariant |r| + |rest| == |s|
      decreases |rest|
    {
      ghost var least := LeastExists(rest);
      var m :| m in rest && forall y :: y in rest && y != m ==> Below(m, y);
      assert forall i :: 0 <= i < |r| ==> Below(r[i], m);
      r := r + [m];
      rest := rest - {m};
    }
  }

  /** `list(s)` for a set: each element once, in an order the program does not fix. */
  method ListOfSet<T>(s: set<T>) returns (r: seq<T>)
    ensures Distinct(r)
    ensures forall x :: x in r <==> x in s
    ensures |r| == |s|
  {
    r := [];
    var rest := s;
    while rest != {}
      invariant rest <= s
      invariant forall x :: x in r <==> x in s && x !in rest
      invariant Distinct(r)
      invariant |r| + |rest| == |s|
      decreases |rest|
    {
      var x :| x in rest;
      r := r + [x];
      rest := rest - {x};
    }
  }

  /** The length of `xs[:k]` for a list of length `n`, negative `k` counting from the end. */
  function PrefixLength(n: nat, k: int): (m: nat)
    ensures m <= n
    ensures 0 <= k ==> m == if k < n then k else n
    ensures k < 0 ==> m == if n + k > 0 then n + k else 0
  {
    if 0 <= k then (if k < n then k else n) else if n + k > 0 then n + k else 0
  }

  /** Python's `xs[:k]`. */
  function Take<T>(xs: seq<T>, k: int): (r: seq<T>)
    ensures |r| <= |xs| && r == xs[..|r|]
    ensures 0 <= k <= |xs| ==> |r| == k
    ensures |xs| <= k ==> r == xs
    ensures k < 0 && -k < |xs| ==> |xs| - |r| == -k
    ensures k < 0 && |xs| <= -k ==> r == []
    ensures |r| == PrefixLength(|xs|, k)
  {
    xs[..PrefixLength(|xs|, k)]
  }

  /** A prefix of a duplicate-free sequence is duplicate-free, and the whole of it when it is as long. */
  lemma TakeDistinct<T>(xs: seq<T>, k: int)
    requires Distinct(xs)
    ensures Distinct(Take(xs, k))
    ensures forall x :: x in Take(xs, k) ==> x in xs
    ensures |Take(xs, k)| == |xs| ==> Take(xs, k) == xs
  {
    var r := Take(xs, k);
    assert forall i :: 0 <= i < |r| ==> r[i] == xs[i];
  }
}
