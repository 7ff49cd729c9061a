/** Sequence operations the two tables are queried with: a filtered scan,
    the first row matching a condition, and ORDER BY on an integer key. */
module Seqs {

  datatype Option<+T> = None | Some(value: T)

  /** Pairwise ascending by `key`; equal keys allowed. */
  ghost predicate Ascending<T>(xs: seq<T>, key: T -> int) {
    forall i, j :: 0 <= i < j < |xs| ==> key(xs[i]) <= key(xs[j])
  }

  /** Pairwise strictly ascending by `key`: in particular no two elements
      share a key. */
  ghost predicate StrictlyAscending<T>(xs: seq<T>, key: T -> int) {
    forall i, j :: 0 <= i < j < |xs| ==> key(xs[i]) < key(xs[j])
  }

  /** The elements of `xs` that satisfy `keep`, in their original order
      (a `WHERE` clause over a table scan). */
  function Filter<T(!new)>(xs: seq<T>, keep: T -> bool): (r: seq<T>)
    ensures |r| <= |xs|
    ensures forall y :: y in r <==> y in xs && keep(y)
    ensures multiset(r) <= multiset(xs)
    ensures (forall y :: y in xs ==> keep(y)) ==> r == xs
    ensures (exists y :: y in xs && !keep(y)) ==> |r| < |xs|
  {
    if |xs| == 0 then []
    else
      assert xs == [xs[0]] + xs[1..];
      if keep(xs[0]) then [xs[0]] + Filter(xs[1..], keep)
      else Filter(xs[1..], keep)
  }

  /** Filtering keeps the relative order of what it keeps. */
  lemma {:induction false} FilterKeepsOrder<T(!new)>(xs: seq<T>, keep: T -> bool, key: T -> int)
    requires StrictlyAscending(xs, key)
    ensures StrictlyAscending(Filter(xs, keep), key)
  {
    if |xs| > 0 {
      StrictTail(xs, key);
      FilterKeepsOrder(xs[1..], keep, key);
      if keep(xs[0]) {
        var t := Filter(xs[1..], keep);
        forall y | y in t ensures key(xs[0]) < key(y) {
          var k :| 0 <= k < |xs[1..]| && xs[1..][k] == y;
          assert xs[k + 1] == y;
        }
        PrependKeepsOrder(xs[0], t, key);
      }
    }
  }

  /** Prepending an element whose key is below every key keeps the order. */
  lemma PrependKeepsOrder<T>(x: T, xs: seq<T>, key: T -> int)
    requires StrictlyAscending(xs, key)
    requires forall y :: y in xs ==> key(x) < key(y)
    ensures StrictlyAscending([x] + xs, key)
  {
    var r := [x] + xs;
    forall i, j | 0 <= i < j < |r| ensures key(r[i]) < key(r[j]) {
      assert r[j] == xs[j - 1];
      if i > 0 {
        assert r[i] == xs[i - 1];
      }
    }
  }

  /** `ys` is `xs` with the element at index `k` taken out. */
  ghost predicate RemovedAt<T>(xs: seq<T>, ys: seq<T>, k: nat) {
    && k < |xs|
    && |ys| == |xs| - 1
    && (forall i :: 0 <= i < k ==> ys[i] == xs[i])
    && (forall i :: k <= i < |ys| ==> ys[i] == xs[i + 1])
  }

  /** Filtering out exactly the element at index `k` leaves the rest in
      place: everything before `k` stays, everything after moves up by one. */
  lemma {:induction false} FilterRemovesOne<T(!new)>(xs: seq<T>, keep: T -> bool, k: nat)
    requires k < |xs|
    requires forall i :: 0 <= i < |xs| ==> (keep(xs[i]) <==> i != k)
    ensures RemovedAt(xs, Filter(xs, keep), k)
  {
    if k == 0 {
      assert forall y :: y in xs[1..] ==> keep(y);
      assert Filter(xs, keep) == xs[1..];
    } else {
      var t := xs[1..];
      FilterRemovesOne(t, keep, k - 1);
      var r := Filter(xs, keep);
      assert r == [xs[0]] + Filter(t, keep);
      forall i | 0 < i < |xs| - 1 ensures r[i] == Filter(t, keep)[i - 1] {
      }
    }
  }

  /** Appending an element whose key exceeds every key keeps the order. */
  lemma AppendKeepsOrder<T>(xs: seq<T>, x: T, key: T -> int)
    requires StrictlyAscending(xs, key)
    requires forall y :: y in xs ==> key(y) < key(x)
    ensures StrictlyAscending(xs + [x], key)
  {
    var r := xs + [x];
    forall i, j | 0 <= i < j < |r| ensures key(r[i]) < key(r[j]) {
      assert r[i] == xs[i];
      if j < |xs| {
        assert r[j] == xs[j];
      }
    }
  }

  /** The first element of `xs` satisfying `p`, if any (`.first()` over a
      table scan). */
  function FindFirst<T(!new)>(xs: seq<T>, p: T -> bool): (r: Option<T>)
    ensures r.None? <==> forall y :: y in xs ==> !p(y)
    ensures r.Some? ==> r.value in xs && p(r.value)
    ensures r.Some? ==> exists i :: 0 <= i < |xs| && xs[i] == r.value && forall j :: 0 <= j < i ==> !p(xs[j])
  {
    if |xs| == 0 then None
    else if p(xs[0]) then Some(xs[0])
    else
      var r := FindFirst(xs[1..], p);
      assert r.Some? ==> exists i :: 0 <= i < |xs[1..]| && xs[1..][i] == r.value && forall j :: 0 <= j < i ==> !p(xs[1..][j]);
      assert r.Some? ==> exists i :: 0 <= i < |xs| && xs[i] == r.value && forall j :: 0 <= j < i ==> !p(xs[j]) by {
        if r.Some? {
          var i :| 0 <= i < |xs[1..]| && xs[1..][i] == r.value && forall j :: 0 <= j < i ==> !p(xs[1..][j]);
          assert xs[i + 1] == r.value;
          forall j | 0 <= j < i + 1 ensures !p(xs[j]) {
            if j > 0 {
              assert xs[j] == xs[1..][j - 1];
            }
          }
        }
      }
      r
  }

  /** Inserts `x` into an ascending sequence before the first element whose
      key is not smaller. */
  function Insert<T>(x: T, xs: seq<T>, key: T -> int): (r: seq<T>)
    requires Ascending(xs, key)
    ensures multiset(r) == multiset(xs) + multiset{x}
    ensures Ascending(r, key)
  {
    if |xs| == 0 then [x]
    else if key(x) <= key(xs[0]) then [x] + xs
    else
      var t := Insert(x, xs[1..], key);
      InsertBehindHead(x, xs, t, key);
      [xs[0]] + t
  }

  /** The step of Insert that keeps the head of `xs` in front. */
  lemma InsertBehindHead<T>(x: T, xs: seq<T>, t: seq<T>, key: T -> int)
    requires |xs| > 0 && Ascending(xs, key) && key(xs[0]) < key(x)
    requires multiset(t) == multiset(xs[1..]) + multiset{x}
    requires Ascending(t, key)
    ensures multiset([xs[0]] + t) == multiset(xs) + multiset{x}
    ensures Ascending([xs[0]] + t, key)
  {
    assert xs == [xs[0]] + xs[1..];
    var r := [xs[0]] + t;
    forall j | 0 <= j < |t| ensures key(xs[0]) <= key(t[j]) {
      assert t[j] in multiset(t);
      if t[j] != x {
        assert t[j] in multiset(xs[1..]);
        var k :| 0 <= k < |xs[1..]| && xs[1..][k] == t[j];
        assert xs[k + 1] == t[j];
      }
    }
    forall i, j | 0 <= i < j < |r| ensures key(r[i]) <= key(r[j]) {
      assert r[j] == t[j - 1];
      if i > 0 {
        assert r[i] == t[i - 1];
      }
    }
  }

  /** ORDER BY `key`: a permutation of `xs` in ascending key order. */
  function SortBy<T>(xs: seq<T>, key: T -> int): (r: seq<T>)
    ensures multiset(r) == multiset(xs)
    ensures |r| == |xs|
    ensures Ascending(r, key)
  {
    if |xs| == 0 then []
    else
      assert xs == [xs[0]] + xs[1..];
      Insert(xs[0], SortBy(xs[1..], key), key)
  }

  /** An ascending permutation of a sequence whose keys strictly ascend is
      that sequence itself: with no ties, ORDER BY has only one answer. */
  lemma {:induction false} SortedPermutationUnique<T>(xs: seq<T>, ys: seq<T>, key: T -> int)
    requires StrictlyAscending(xs, key)
    requires Ascending(ys, key)
    requires multiset(xs) == multiset(ys)
    ensures xs == ys
  {
    assert |xs| == |multiset(xs)| == |multiset(ys)| == |ys|;
    if |xs| > 0 {
      SameLeast(xs, ys, key);
      assert multiset(xs) == multiset{xs[0]} + multiset(xs[1..]) by {
        assert xs == [xs[0]] + xs[1..];
      }
      assert multiset(ys) == multiset{ys[0]} + multiset(ys[1..]) by {
        assert ys == [ys[0]] + ys[1..];
      }
      assert multiset(xs[1..]) == multiset(xs) - multiset{xs[0]};
      assert multiset(ys[1..]) == multiset(ys) - multiset{ys[0]};
      StrictTail(xs, key);
      AscendingTail(ys, key);
      SortedPermutationUnique(xs[1..], ys[1..], key);
      assert xs == [xs[0]] + xs[1..];
      assert ys == [ys[0]] + ys[1..];
    }
  }

  /** Both sequences start with the element of least key. */
  lemma SameLeast<T>(xs: seq<T>, ys: seq<T>, key: T -> int)
    requires StrictlyAscending(xs, key)
    requires Ascending(ys, key)
    requires multiset(xs) == multiset(ys)
    requires |xs| > 0 && |ys| > 0
    ensures xs[0] == ys[0]
  {
    assert xs[0] in multiset(ys);
    var k :| 0 <= k < |ys| && ys[k] == xs[0];
    assert ys[0] in multiset(xs);
    var m :| 0 <= m < |xs| && xs[m] == ys[0];
    if m > 0 {
      assert false;
    }
  }

  lemma StrictTail<T>(xs: seq<T>, key: T -> int)
    requires |xs| > 0 && StrictlyAscending(xs, key)
    ensures StrictlyAscending(xs[1..], key)
  {
    forall i, j | 0 <= i < j < |xs[1..]| ensures key(xs[1..][i]) < key(xs[1..][j]) {
      assert xs[1..][i] == xs[i + 1] && xs[1..][j] == xs[j + 1];
    }
  }

  lemma AscendingTail<T>(xs: seq<T>, key: T -> int)
    requires |xs| > 0 && Ascending(xs, key)
    ensures Ascending(xs[1..], key)
  {
    forall i, j | 0 <= i < j < |xs[1..]| ensures key(xs[1..][i]) <= key(xs[1..][j]) {
      assert xs[1..][i] == xs[i + 1] && xs[1..][j] == xs[j + 1];
    }
  }

  /** `xs` back to front. */
  function Reverse<T>(xs: seq<T>): (r: seq<T>)
    ensures |r| == |xs|
    ensures multiset(r) == multiset(xs)
    ensures forall i :: 0 <= i < |xs| ==> r[i] == xs[|xs| - 1 - i]
  {
    if |xs| == 0 then []
    else
      assert xs == [xs[0]] + xs[1..];
      Reverse(xs[1..]) + [xs[0]]
  }

  /** Reversing a sequence whose keys strictly ascend gives one whose
      negated keys strictly ascend. */
  lemma ReverseFlipsOrder<T>(xs: seq<T>, key: T -> int, negKey: T -> int)
    requires forall x :: negKey(x) == -key(x)
    requires StrictlyAscending(xs, key)
    ensures StrictlyAscending(Reverse(xs), negKey)
  {
    var r := Reverse(xs);
    forall i, j | 0 <= i < j < |r| ensures negKey(r[i]) < negKey(r[j]) {
      assert r[i] == xs[|xs| - 1 - i] && r[j] == xs[|xs| - 1 - j];
    }
  }

  /** The largest key in `xs`, or 0 when no key is positive (`max()` over a
      column, with an empty table counting as 0). */
  function MaxKey<T>(xs: seq<T>, key: T -> int): (m: int)
    ensures 0 <= m
    ensures forall y :: y in xs ==> key(y) <= m
    ensures m == 0 || exists y :: y in xs && key(y) == m
  {
    if |xs| == 0 then 0
    else
      var rest := MaxKey(xs[1..], key);
      assert forall y :: y in xs[1..] ==> y in xs;
      if key(xs[0]) >= rest then key(xs[0]) else rest
  }

  /** Taking a prefix of at most `n` elements (LIMIT `n`). */
  function Take<T>(xs: seq<T>, n: nat): (r: seq<T>)
    ensures |r| == if |xs| < n then |xs| else n
    ensures forall i :: 0 <= i < |r| ==> r[i] == xs[i]
  {
    if |xs| <= n then xs else xs[..n]
  }
}
