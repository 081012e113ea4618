/** Order-preserving selection over sequences: the shape of every SQL `WHERE`
    that the issuable scopes add to a relation. */
module Seqs {

  /** The elements of `s` that satisfy `p`, in their original order. Each kept
      element keeps its multiplicity; nothing is added. */
  function Filter<T(==,!new)>(s: seq<T>, p: T -> bool): (r: seq<T>)
    ensures |r| <= |s|
    ensures forall i :: 0 <= i < |r| ==> p(r[i])
  {
    if s == [] then []
    else (if p(s[0]) then [s[0]] else []) + Filter(s[1..], p)
  }

  /** Every element that satisfies `p` is kept as often as it occurs in `s`;
      every other element is dropped. */
  lemma {:induction false} FilterMultiplicity<T(!new)>(s: seq<T>, p: T -> bool, x: T)
    ensures multiset(Filter(s, p))[x] == if p(x) then multiset(s)[x] else 0
  {
    if s != [] {
      assert s == [s[0]] + s[1..];
      FilterMultiplicity(s[1..], p, x);
    }
  }

  lemma FilterMembership<T(!new)>(s: seq<T>, p: T -> bool, x: T)
    ensures x in Filter(s, p) <==> x in s && p(x)
  {
    FilterMultiplicity(s, p, x);
    assert x in Filter(s, p) <==> multiset(Filter(s, p))[x] > 0;
    assert x in s <==> multiset(s)[x] > 0;
  }

  /** Filtering distributes over concatenation, so the relative order of the
      kept elements is the order they had in the input. */
  lemma {:induction false} FilterAppend<T(!new)>(a: seq<T>, b: seq<T>, p: T -> bool)
    ensures Filter(a + b, p) == Filter(a, p) + Filter(b, p)
  {
    if a != [] {
      var h := if p(a[0]) then [a[0]] else [];
      assert (a + b)[0] == a[0];
      assert (a + b)[1..] == a[1..] + b;
      FilterAppend(a[1..], b, p);
      calc {
        Filter(a + b, p);
        h + Filter(a[1..] + b, p);
        h + (Filter(a[1..], p) + Filter(b, p));
        (h + Filter(a[1..], p)) + Filter(b, p);
        Filter(a, p) + Filter(b, p);
      }
    } else {
      assert a + b == b;
    }
  }

  lemma FilterSingleton<T(!new)>(x: T, p: T -> bool)
    ensures Filter([x], p) == if p(x) then [x] else []
  {
    assert [x][1..] == [];
  }

  /** Everything kept is a member of the input. */
  lemma FilterMembershipAll<T(!new)>(s: seq<T>, p: T -> bool)
    ensures forall x :: x in Filter(s, p) <==> x in s && p(x)
  {
    forall x ensures x in Filter(s, p) <==> x in s && p(x) {
      FilterMembership(s, p, x);
    }
  }

  /** `r` holds the elements of `s` that satisfy `p`, each as often as in `s`,
      and nothing else. */
  ghost predicate Selects<T(!new)>(r: seq<T>, s: seq<T>, p: T -> bool)
  {
    forall x :: multiset(r)[x] == if p(x) then multiset(s)[x] else 0
  }

  /** Multiplicities of every value, as `FilterMultiplicity` states for one. */
  lemma FilterMultiset<T(!new)>(s: seq<T>, p: T -> bool)
    ensures Selects(Filter(s, p), s, p)
  {
    forall x ensures multiset(Filter(s, p))[x] == if p(x) then multiset(s)[x] else 0 {
      FilterMultiplicity(s, p, x);
    }
  }

  /** A filter that keeps everything yields its input unchanged. */
  lemma {:induction false} FilterAll<T(!new)>(s: seq<T>, p: T -> bool)
    requires forall k :: 0 <= k < |s| ==> p(s[k])
    ensures Filter(s, p) == s
  {
    if s != [] {
      FilterAll(s[1..], p);
    }
  }

  /** A filter that keeps nothing yields the empty sequence. */
  lemma FilterNone<T(!new)>(s: seq<T>, p: T -> bool)
    requires forall k :: 0 <= k < |s| ==> !p(s[k])
    ensures Filter(s, p) == []
  {
    if Filter(s, p) != [] {
      var x := Filter(s, p)[0];
      FilterMembership(s, p, x);
    }
  }

  /** `n` copies of `x`. */
  function Repeat<T>(x: T, n: nat): (r: seq<T>)
    ensures |r| == n
  {
    seq(n, _ => x)
  }

  lemma {:induction false} RepeatMultiset<T>(x: T, n: nat, y: T)
    ensures multiset(Repeat(x, n))[y] == if x == y then n else 0
  {
    if n > 0 {
      assert Repeat(x, n) == Repeat(x, n - 1) + [x];
      RepeatMultiset(x, n - 1, y);
    }
  }

  /** Each element `x` of `s` repeated `m(x)` times, in order: the rows of an
      inner join where `x` meets `m(x)` partner rows. */
  function Replicate<T>(s: seq<T>, m: T -> nat): seq<T>
  {
    if s == [] then [] else Repeat(s[0], m(s[0])) + Replicate(s[1..], m)
  }

  lemma {:induction false} ReplicateCount<T(!new)>(s: seq<T>, m: T -> nat, x: T)
    ensures multiset(Replicate(s, m))[x] == multiset(s)[x] * m(x)
  {
    if s != [] {
      var head, rest := Repeat(s[0], m(s[0])), Replicate(s[1..], m);
      ReplicateCount(s[1..], m, x);
      RepeatMultiset(s[0], m(s[0]), x);
      assert s == [s[0]] + s[1..];
      assert multiset(head + rest) == multiset(head) + multiset(rest);
      var k, n := multiset(s[1..])[x], m(x);
      if s[0] == x {
        assert multiset(s)[x] == k + 1;
        SuccTimes(k, n);
      } else {
        assert multiset(s)[x] == k;
      }
    }
  }

  lemma SuccTimes(k: nat, n: nat)
    ensures (k + 1) * n == n + k * n
  {
  }

  lemma MultPositive(a: nat, b: nat)
    ensures a * b > 0 <==> a > 0 && b > 0
  {
    if a > 0 && b > 0 {
      assert a * b >= b;
    }
  }

  /** Number of elements of `s` satisfying `p` (an SQL `COUNT` over a `WHERE`). */
  function Count<T(==,!new)>(s: seq<T>, p: T -> bool): (n: nat)
    ensures n <= |s|
  {
    |Filter(s, p)|
  }

  /** When every element satisfies `p`, all of them are counted. */
  lemma {:induction false} CountAll<T(!new)>(s: seq<T>, p: T -> bool)
    requires forall k :: 0 <= k < |s| ==> p(s[k])
    ensures Count(s, p) == |s|
  {
    if s != [] {
      CountAll(s[1..], p);
    }
  }

  lemma CountAppend<T(!new)>(a: seq<T>, b: seq<T>, p: T -> bool)
    ensures Count(a + b, p) == Count(a, p) + Count(b, p)
  {
    FilterAppend(a, b, p);
  }

  /** Replacing one counted element by an uncounted one lowers the count by
      exactly one. */
  lemma CountReplace<T(!new)>(s: seq<T>, i: nat, y: T, p: T -> bool)
    requires i < |s| && p(s[i]) && !p(y)
    ensures Count(s[i := y], p) == Count(s, p) - 1
  {
    assert s == s[..i] + [s[i]] + s[i + 1..];
    assert s[i := y] == s[..i] + [y] + s[i + 1..];
    CountAppend(s[..i] + [s[i]], s[i + 1..], p);
    CountAppend(s[..i], [s[i]], p);
    CountAppend(s[..i] + [y], s[i + 1..], p);
    CountAppend(s[..i], [y], p);
  }

  /** No value occurs at two positions of `s`. */
  predicate Distinct<T(==,!new)>(s: seq<T>) {
    forall i, j :: 0 <= i < j < |s| ==> s[i] != s[j]
  }

  /** The elements of a sequence as a set, SQL `DISTINCT`. */
  function Elements<T(!new)>(s: seq<T>): set<T> {
    set x | x in s
  }

  /** The set of a sequence has as many members as the sequence has positions
      exactly when no value repeats. */
  lemma {:induction false} ElementsCard<T(!new)>(s: seq<T>)
    ensures |Elements(s)| <= |s|
    ensures |Elements(s)| == |s| <==> Distinct(s)
  {
    if s != [] {
      var t := s[1..];
      ElementsCard(t);
      assert Elements(s) == {s[0]} + Elements(t);
      if s[0] in t {
        assert Elements(s) == Elements(t);
        var k :| 0 <= k < |t| && t[k] == s[0];
        assert s[0] == s[k + 1];
      } else {
        assert |Elements(s)| == |Elements(t)| + 1;
        if Distinct(t) {
          forall i, j | 0 <= i < j < |s| ensures s[i] != s[j] {
            if i == 0 { assert s[j] == t[j - 1]; } else { assert s[i] == t[i - 1] && s[j] == t[j - 1]; }
          }
        }
        if Distinct(s) {
          forall i, j | 0 <= i < j < |t| ensures t[i] != t[j] {
            assert t[i] == s[i + 1] && t[j] == s[j + 1];
          }
        }
      }
    }
  }

  /** A subset as large as its finite superset is the superset. */
  lemma SubsetCard<T>(a: set<T>, b: set<T>)
    requires a <= b
    ensures |a| <= |b|
    ensures |a| == |b| ==> a == b
  {
    assert b == a + (b - a);
    assert |b| == |a| + |b - a|;
    if |a| == |b| {
      assert |b - a| == 0;
      assert b - a == {};
    }
  }
}
