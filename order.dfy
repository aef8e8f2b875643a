/**
 * Python's ordering of `str` values (code point by code point, a proper
 * prefix first) and `sorted` on a list of strings, as used for the
 * `unreferenced_nodes` listing in backend/analysis.py.
 */
module Order {
  import opened Json

  /** `a < b` on Python strings. */
  predicate Below(a: string, b: string) {
    if a == [] then b != []
    else if b == [] then false
    else a[0] < b[0] || (a[0] == b[0] && Below(a[1..], b[1..]))
  }

  /** `a <= b` on Python strings. */
  predicate AtMost(a: string, b: string) {
    a == b || Below(a, b)
  }

  lemma {:induction false} BelowIrreflexive(a: string)
    ensures !Below(a, a)
  {
    if a != [] {
      BelowIrreflexive(a[1..]);
    }
  }

  lemma {:induction false} BelowTransitive(a: string, b: string, c: string)
    requires Below(a, b) && Below(b, c)
    ensures Below(a, c)
  {
    if a != [] && a[0] == b[0] && b[0] == c[0] {
      BelowTransitive(a[1..], b[1..], c[1..]);
    }
  }

  /** Any two different strings are ordered one way or the other. */
  lemma {:induction false} BelowTotal(a: string, b: string)
    requires a != b
    ensures Below(a, b) || Below(b, a)
  {
    if a != [] && b != [] && a[0] == b[0] {
      assert a == [a[0]] + a[1..] && b == [b[0]] + b[1..];
      BelowTotal(a[1..], b[1..]);
    }
  }

  /** Never both ways round. */
  lemma BelowAsymmetric(a: string, b: string)
    requires Below(a, b)
    ensures !Below(b, a)
  {
    if Below(b, a) {
      BelowTransitive(a, b, a);
      BelowIrreflexive(a);
    }
  }

  lemma AtMostTransitive(a: string, b: string, c: string)
    requires AtMost(a, b) && AtMost(b, c)
    ensures AtMost(a, c)
  {
    if a != b && b != c {
      BelowTransitive(a, b, c);
    }
  }

  /** Non-decreasing, as `sorted` leaves a list. */
  ghost predicate Ordered(r: seq<string>) {
    forall i, j :: 0 <= i < j < |r| ==> AtMost(r[i], r[j])
  }

  /** Increasing: sorted with no repeats. */
  ghost predicate StrictlyOrdered(r: seq<string>) {
    forall i, j :: 0 <= i < j < |r| ==> Below(r[i], r[j])
  }

  /** Putting in front of a sorted list an element no greater than any of its elements keeps it sorted. */
  lemma ConsOrdered(y: string, rest: seq<string>)
    requires Ordered(rest)
    requires forall j :: 0 <= j < |rest| ==> AtMost(y, rest[j])
    ensures Ordered([y] + rest)
  {
    forall i, j | 0 <= i < j < |[y] + rest| ensures AtMost(([y] + rest)[i], ([y] + rest)[j]) {
      if i > 0 {
        assert ([y] + rest)[i] == rest[i - 1] && ([y] + rest)[j] == rest[j - 1];
      }
    }
  }

  /** A lower bound of `x` and of every element of `tail` bounds any rearrangement of them. */
  lemma BoundRearranged(y: string, x: string, tail: seq<string>, rest: seq<string>)
    requires multiset(rest) == multiset(tail) + multiset{x}
    requires AtMost(y, x) && forall j :: 0 <= j < |tail| ==> AtMost(y, tail[j])
    ensures forall j :: 0 <= j < |rest| ==> AtMost(y, rest[j])
  {
    forall j | 0 <= j < |rest| ensures AtMost(y, rest[j]) {
      assert rest[j] in multiset(rest);
      if rest[j] != x {
        assert rest[j] in multiset(tail);
        assert rest[j] in tail;
      }
    }
  }

  /** Inserting `x` into a sorted list, before the first element not below it. */
  function Insert(x: string, xs: seq<string>): (r: seq<string>)
    requires Ordered(xs)
    ensures Ordered(r)
    ensures multiset(r) == multiset(xs) + multiset{x}
  {
    if xs == [] then [x]
    else if !Below(xs[0], x) then
      assert AtMost(x, xs[0]) by {
        if x != xs[0] { BelowTotal(x, xs[0]); }
      }
      forall j | 0 <= j < |xs| ensures AtMost(x, xs[j]) {
        if j > 0 { AtMostTransitive(x, xs[0], xs[j]); }
      }
      ConsOrdered(x, xs);
      [x] + xs
    else
      var tail := xs[1..];
      assert xs == [xs[0]] + tail;
      assert Ordered(tail) by {
        forall i, j | 0 <= i < j < |tail| ensures AtMost(tail[i], tail[j]) {
          assert tail[i] == xs[i + 1] && tail[j] == xs[j + 1];
        }
      }
      var rest := Insert(x, tail);
      assert forall j :: 0 <= j < |tail| ==> AtMost(xs[0], tail[j]) by {
        forall j | 0 <= j < |tail| ensures AtMost(xs[0], tail[j]) {
          assert tail[j] == xs[j + 1];
        }
      }
      BoundRearranged(xs[0], x, tail, rest);
      ConsOrdered(xs[0], rest);
      [xs[0]] + rest
  }

  /** `sorted(xs)`: a non-decreasing rearrangement of `xs`. */
  function Sort(xs: seq<string>): (r: seq<string>)
    ensures Ordered(r)
    ensures multiset(r) == multiset(xs)
  {
    if xs == [] then []
    else
      assert xs == [xs[0]] + xs[1..];
      Insert(xs[0], Sort(xs[1..]))
  }

  /** Sorting a list without repeats gives an increasing list of the same strings. */
  lemma SortDistinct(xs: seq<string>)
    requires Distinct(xs)
    ensures StrictlyOrdered(Sort(xs))
    ensures forall x :: x in Sort(xs) <==> x in xs
  {
    var r := Sort(xs);
    assert forall x :: x in r <==> x in multiset(r);
    assert forall x :: x in xs <==> x in multiset(xs);
    forall i, j | 0 <= i < j < |r| ensures Below(r[i], r[j]) {
      if r[i] == r[j] {
        MultiplicityTwo(r, i, j);
        DistinctMultiplicity(xs, r[i]);
        assert false;
      }
    }
  }

  lemma {:induction false} MultiplicityTwo(r: seq<string>, i: nat, j: nat)
    requires i < j < |r| && r[i] == r[j]
    ensures multiset(r)[r[i]] >= 2
  {
    assert r == r[..i] + [r[i]] + r[i + 1..j] + [r[j]] + r[j + 1..];
  }

  lemma {:induction false} DistinctMultiplicity(xs: seq<string>, x: string)
    requires Distinct(xs)
    ensures multiset(xs)[x] <= 1
  {
    if xs != [] {
      assert xs == [xs[0]] + xs[1..];
      assert Distinct(xs[1..]) by {
        forall i, j | 0 <= i < j < |xs[1..]| ensures xs[1..][i] != xs[1..][j] {
          assert xs[1..][i] == xs[i + 1] && xs[1..][j] == xs[j + 1];
        }
      }
      DistinctMultiplicity(xs[1..], x);
      if xs[0] == x {
        assert x !in xs[1..];
      }
    }
  }

  /** The first element of an increasing list is its least. */
  lemma FirstIsLeast(a: seq<string>, x: string)
    requires StrictlyOrdered(a) && x in a
    ensures AtMost(a[0], x)
  {
    var k :| 0 <= k < |a| && a[k] == x;
    if k > 0 {
      assert Below(a[0], a[k]);
    }
  }

  lemma AtMostAntisymmetric(a: string, b: string)
    requires AtMost(a, b) && AtMost(b, a)
    ensures a == b
  {
    if a != b {
      BelowAsymmetric(a, b);
    }
  }

  /** An increasing list is determined by its elements: the sorted listing is unique. */
  lemma {:induction false} StrictlyOrderedUnique(a: seq<string>, b: seq<string>)
    requires StrictlyOrdered(a) && StrictlyOrdered(b)
    requires forall x :: x in a <==> x in b
    ensures a == b
  {
    assert a != [] ==> a[0] in b;
    assert b != [] ==> b[0] in a;
    if a != [] && b != [] {
      FirstIsLeast(a, b[0]);
      FirstIsLeast(b, a[0]);
      AtMostAntisymmetric(a[0], b[0]);
      BelowIrreflexive(a[0]);
      assert b == [b[0]] + b[1..] && a == [a[0]] + a[1..];
      forall x | x in a[1..] ensures x in b[1..] {
        var k :| 0 <= k < |a[1..]| && a[1..][k] == x;
        assert Below(a[0], a[k + 1]);
        assert x in b && x != b[0];
      }
      forall x | x in b[1..] ensures x in a[1..] {
        var k :| 0 <= k < |b[1..]| && b[1..][k] == x;
        assert Below(b[0], b[k + 1]);
        assert x in a && x != a[0];
      }
      StrictlyOrderedUnique(a[1..], b[1..]);
    }
  }
}
