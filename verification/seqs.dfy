/** Sequence operations the table code is built from: filtering (pandas
    boolean-mask indexing), first-occurrence search, and order-preserving
    removal of repeats (`drop_duplicates` with its default `keep="first"`). */
module Seqs {
  import opened Results

  /** Elements of `s` satisfying `p`, in their original order. */
  function Filter<T(!new)>(p: T -> bool, s: seq<T>): (r: seq<T>)
    ensures |r| <= |s|
    ensures forall x :: x in r <==> x in s && p(x)
    ensures forall i :: 0 <= i < |r| ==> p(r[i])
  {
    if |s| == 0 then [] else (if p(s[0]) then [s[0]] else []) + Filter(p, s[1..])
  }

  /** Filtering distributes over concatenation: the kept elements of a prefix
      come before the kept elements of the rest, i.e. source order is kept. */
  lemma {:induction false} FilterAppend<T(!new)>(p: T -> bool, a: seq<T>, b: seq<T>)
    ensures Filter(p, a + b) == Filter(p, a) + Filter(p, b)
    decreases |a|
  {
    if |a| == 0 {
      assert a + b == b;
    } else {
      assert (a + b)[0] == a[0];
      assert (a + b)[1..] == a[1..] + b;
      FilterAppend(p, a[1..], b);
    }
  }

  /** Every element satisfying `p` keeps its multiplicity; the others vanish. */
  lemma {:induction false} FilterMultiset<T(!new)>(p: T -> bool, s: seq<T>, x: T)
    ensures multiset(Filter(p, s))[x] == if p(x) then multiset(s)[x] else 0
    decreases |s|
  {
    if |s| > 0 {
      FilterMultiset(p, s[1..], x);
      var head := if p(s[0]) then [s[0]] else [];
      assert multiset(Filter(p, s)) == multiset(head) + multiset(Filter(p, s[1..]));
      assert s == [s[0]] + s[1..];
      assert multiset(s) == multiset([s[0]]) + multiset(s[1..]);
    }
  }

  /** The test passed by what passes both `p` and `q`. */
  function Both<T>(p: T -> bool, q: T -> bool): T -> bool {
    x => p(x) && q(x)
  }

  /** Two successive filters select the same elements as one filter by the
      conjunction of both tests. */
  lemma {:induction false} FilterFilter<T(!new)>(p: T -> bool, q: T -> bool, s: seq<T>)
    ensures Filter(q, Filter(p, s)) == Filter(Both(p, q), s)
    decreases |s|
  {
    if |s| > 0 {
      FilterFilter(p, q, s[1..]);
      var head := if p(s[0]) then [s[0]] else [];
      FilterAppend(q, head, Filter(p, s[1..]));
      if p(s[0]) {
        assert Filter(q, head) == if q(s[0]) then [s[0]] else [];
      }
    }
  }

  /** Filtering depends only on what the test answers, not on how it is
      written. */
  lemma {:induction false} FilterSameTest<T(!new)>(p: T -> bool, q: T -> bool, s: seq<T>)
    requires forall x :: p(x) == q(x)
    ensures Filter(p, s) == Filter(q, s)
    decreases |s|
  {
    if |s| > 0 {
      FilterSameTest(p, q, s[1..]);
    }
  }

  /** The first index at or after `from` whose element satisfies `p`. */
  function FirstFrom<T>(s: seq<T>, p: T -> bool, from: nat): (r: Option<nat>)
    ensures r.None? ==> forall k :: from <= k < |s| ==> !p(s[k])
    ensures r.Some? ==> from <= r.value < |s| && p(s[r.value])
    ensures r.Some? ==> forall k :: from <= k < r.value ==> !p(s[k])
    decreases |s| - from
  {
    if from >= |s| then None
    else if p(s[from]) then Some(from)
    else FirstFrom(s, p, from + 1)
  }

  /** The values of `rs` when every one is `Ok`, else the first error: a
      loop that raises at its first failing step. */
  function AllOk<T, E>(rs: seq<Result<T, E>>): (r: Result<seq<T>, E>)
    ensures r.Ok? <==> forall k :: 0 <= k < |rs| ==> rs[k].Ok?
    ensures r.Ok? ==> |r.value| == |rs|
    ensures r.Ok? ==> forall k :: 0 <= k < |rs| ==> rs[k] == Ok(r.value[k])
    ensures r.Err? ==>
              exists k :: 0 <= k < |rs| && rs[k] == Err(r.error) &&
                (forall m :: 0 <= m < k ==> rs[m].Ok?)
  {
    match FirstFrom(rs, (x: Result<T, E>) => x.Err?, 0)
    case Some(k) => Err(rs[k].error)
    case None => Ok(seq(|rs|, k requires 0 <= k < |rs| => rs[k].value))
  }

  /** Where `AllOk` stops: the first error, every step before it `Ok`. */
  lemma FirstError<T, E>(rs: seq<Result<T, E>>) returns (k: nat)
    requires AllOk(rs).Err?
    ensures k < |rs| && rs[k] == Err(AllOk(rs).error)
    ensures forall m :: 0 <= m < k ==> rs[m].Ok?
  {
    k :| 0 <= k < |rs| && rs[k] == Err(AllOk(rs).error) && (forall m :: 0 <= m < k ==> rs[m].Ok?);
  }

  /** Position of the first occurrence of `x` in `s`, or `|s|` when absent. */
  function IndexOf<T(==)>(s: seq<T>, x: T): (k: nat)
    ensures k <= |s|
    ensures k < |s| <==> x in s
    ensures k < |s| ==> s[k] == x && x !in s[..k]
  {
    if |s| == 0 then 0
    else if s[0] == x then 0
    else
      var k := 1 + IndexOf(s[1..], x);
      assert k < |s| ==> s[..k] == [s[0]] + s[1..][..k - 1];
      k
  }

  lemma IndexOfPrefix<T>(s: seq<T>, n: nat, x: T)
    requires n <= |s| && x in s[..n]
    ensures IndexOf(s, x) == IndexOf(s[..n], x)
  {
    var k := IndexOf(s[..n], x);
    assert s[..n][..k] == s[..k];
  }

  predicate NoDuplicates<T(==)>(s: seq<T>) {
    forall i, j :: 0 <= i < j < |s| ==> s[i] != s[j]
  }

  /** `s` with every element that repeats an earlier one removed. */
  function Distinct<T(==,!new)>(s: seq<T>): (r: seq<T>)
    ensures |r| <= |s|
    ensures forall x :: x in r <==> x in s
    ensures NoDuplicates(r)
    ensures forall i, j :: 0 <= i < j < |r| ==> IndexOf(s, r[i]) < IndexOf(s, r[j])
    decreases |s|
  {
    if |s| == 0 then []
    else
      var n := |s| - 1;
      var front := s[..n];
      var p := Distinct(front);
      if s[n] in front then
        DistinctOrderExtends(s, p);
        p
      else
        DistinctOrderExtends(s, p);
        var r := p + [s[n]];
        assert IndexOf(s, s[n]) == n by {
          assert s[..n] == front;
        }
        assert forall i :: 0 <= i < |p| ==> IndexOf(s, r[i]) < n by {
          forall i | 0 <= i < |p|
            ensures IndexOf(s, r[i]) < n
          {
            assert p[i] in front;
            IndexOfPrefix(s, n, p[i]);
          }
        }
        r
  }

  /** Helper for `Distinct`: order of first occurrences in the front of `s`
      carries over to `s` itself. */
  lemma DistinctOrderExtends<T(!new)>(s: seq<T>, p: seq<T>)
    requires |s| > 0
    requires forall x :: x in p ==> x in s[..|s| - 1]
    requires forall i, j :: 0 <= i < j < |p| ==> IndexOf(s[..|s| - 1], p[i]) < IndexOf(s[..|s| - 1], p[j])
    ensures forall i, j :: 0 <= i < j < |p| ==> IndexOf(s, p[i]) < IndexOf(s, p[j])
  {
    forall i, j | 0 <= i < j < |p|
      ensures IndexOf(s, p[i]) < IndexOf(s, p[j])
    {
      assert p[i] in p && p[j] in p;
      IndexOfPrefix(s, |s| - 1, p[i]);
      IndexOfPrefix(s, |s| - 1, p[j]);
    }
  }

  /** Removing repeats a second time changes nothing. */
  lemma {:induction false} DistinctIdempotent<T(!new)>(s: seq<T>)
    ensures Distinct(Distinct(s)) == Distinct(s)
  {
    DistinctOfDistinct(Distinct(s));
  }

  lemma {:induction false} DistinctOfDistinct<T(!new)>(s: seq<T>)
    requires NoDuplicates(s)
    ensures Distinct(s) == s
    decreases |s|
  {
    if |s| > 0 {
      var n := |s| - 1;
      assert NoDuplicates(s[..n]);
      DistinctOfDistinct(s[..n]);
      assert s[n] !in s[..n];
      assert s[..n] + [s[n]] == s;
    }
  }

  /** Filtering with a test every element passes keeps everything. */
  lemma {:induction false} FilterKeepsAll<T(!new)>(p: T -> bool, s: seq<T>)
    requires forall i :: 0 <= i < |s| ==> p(s[i])
    ensures Filter(p, s) == s
    decreases |s|
  {
    if |s| > 0 {
      FilterKeepsAll(p, s[1..]);
    }
  }

  /** Filtering a sequence without repeats gives one without repeats. */
  lemma {:induction false} FilterNoDuplicates<T(!new)>(p: T -> bool, s: seq<T>)
    requires NoDuplicates(s)
    ensures NoDuplicates(Filter(p, s))
    decreases |s|
  {
    if |s| > 0 {
      assert NoDuplicates(s[1..]);
      FilterNoDuplicates(p, s[1..]);
      assert s[0] !in s[1..];
    }
  }

  /** `drop_duplicates()` as pandas runs it: one pass, remembering the rows
      already seen, keeping a row only on its first occurrence. */
  method DropDuplicates<T(==,!new)>(s: seq<T>) returns (r: seq<T>)
    ensures r == Distinct(s)
  {
    r := [];
    var seen: set<T> := {};
    var i := 0;
    while i < |s|
      invariant 0 <= i <= |s|
      invariant r == Distinct(s[..i])
      invariant forall x :: x in seen <==> x in s[..i]
    {
      assert s[..i + 1][..i] == s[..i];
      if s[i] !in seen {
        r := r + [s[i]];
        seen := seen + {s[i]};
      }
      i := i + 1;
    }
    assert s[..i] == s;
  }
}
