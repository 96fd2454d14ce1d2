/** lodash's `_.union`, which the resolver uses to merge path lists: the
    distinct values of its arguments, in the order they first occur. */
module OrderedUnion {
  predicate NoDuplicates<T(==,!new)>(s: seq<T>) {
    forall i, j :: 0 <= i < j < |s| ==> s[i] != s[j]
  }

  /** `s` scanned from the front, keeping each value the first time it appears. */
  function Dedup<T(==,!new)>(s: seq<T>): (r: seq<T>)
    ensures NoDuplicates(r)
    ensures forall x :: x in r <==> x in s
    decreases |s|
  {
    if s == [] then []
    else
      var r := Dedup(s[..|s| - 1]);
      if s[|s| - 1] in r then r else r + [s[|s| - 1]]
  }

  /** `_.union(a, b)`. */
  function Union<T(==,!new)>(a: seq<T>, b: seq<T>): (r: seq<T>)
    ensures NoDuplicates(r)
    ensures forall x :: x in r <==> x in a || x in b
  {
    Dedup(a + b)
  }

  /** The position of the first occurrence of `x` in `s`. */
  function IndexOf<T(==,!new)>(s: seq<T>, x: T): (i: nat)
    requires x in s
    ensures i < |s| && s[i] == x && x !in s[..i]
  {
    if s[0] == x then 0 else 1 + IndexOf(s[1..], x)
  }

  lemma IndexOfUnique<T(!new)>(s: seq<T>, x: T, i: nat)
    requires i < |s| && s[i] == x && x !in s[..i]
    ensures IndexOf(s, x) == i
  {
  }

  /** Appending to a sequence does not move the first occurrence of an old value. */
  lemma IndexOfExtended<T(!new)>(s: seq<T>, e: T, x: T)
    requires x in s
    ensures IndexOf(s + [e], x) == IndexOf(s, x)
  {
    var k := IndexOf(s, x);
    assert (s + [e])[..k] == s[..k];
    IndexOfUnique(s + [e], x, k);
  }

  /** The values Dedup keeps appear in the order of their first occurrence in `s`. */
  lemma {:induction false} DedupFirstOccurrenceOrder<T(!new)>(s: seq<T>)
    ensures forall i, j :: 0 <= i < j < |Dedup(s)| ==> IndexOf(s, Dedup(s)[i]) < IndexOf(s, Dedup(s)[j])
    decreases |s|
  {
    if s != [] {
      var s', e := s[..|s| - 1], s[|s| - 1];
      assert s == s' + [e];
      DedupFirstOccurrenceOrder(s');
      var r', r := Dedup(s'), Dedup(s);
      forall x | x in s' ensures IndexOf(s, x) == IndexOf(s', x) {
        IndexOfExtended(s', e, x);
      }
      if e !in r' {
        assert e !in s' && s[..|s'|] == s';
        IndexOfUnique(s, e, |s'|);
        forall i, j | 0 <= i < j < |r| ensures IndexOf(s, r[i]) < IndexOf(s, r[j]) {
          assert r[i] == r'[i] && r[i] in s';
          if j < |r'| {
            assert r[j] == r'[j] && r[j] in s';
          }
        }
      }
    }
  }

  /** Any sequence without duplicates, holding the values of `s`, in the order
      of their first occurrence in `s`, is Dedup(s). */
  lemma {:induction false} DedupUnique<T(!new)>(s: seq<T>, r: seq<T>)
    requires NoDuplicates(r)
    requires forall x :: x in r <==> x in s
    requires forall i, j :: 0 <= i < j < |r| ==> IndexOf(s, r[i]) < IndexOf(s, r[j])
    ensures r == Dedup(s)
  {
    DedupFirstOccurrenceOrder(s);
    SameOrderedValues(s, r, Dedup(s));
  }

  lemma {:induction false} SameOrderedValues<T(!new)>(s: seq<T>, a: seq<T>, b: seq<T>)
    requires forall x :: x in a ==> x in s
    requires forall x :: x in a <==> x in b
    requires forall i, j :: 0 <= i < j < |a| ==> IndexOf(s, a[i]) < IndexOf(s, a[j])
    requires forall i, j :: 0 <= i < j < |b| ==> IndexOf(s, b[i]) < IndexOf(s, b[j])
    ensures a == b
    decreases |a| + |b|
  {
    assert a != [] ==> a[0] in a && a[0] in b;
    assert b != [] ==> b[0] in b && b[0] in a;
    if a != [] {
      SameFirstValue(s, a, b);
      SameTailValues(s, a, b);
      SameOrderedValues(s, a[1..], b[1..]);
      assert a == [a[0]] + a[1..] && b == [b[0]] + b[1..];
    }
  }

  /** Both sequences start with the value of smallest first-occurrence index. */
  lemma SameFirstValue<T(!new)>(s: seq<T>, a: seq<T>, b: seq<T>)
    requires a != [] && b != []
    requires forall x :: x in a ==> x in s
    requires forall x :: x in a <==> x in b
    requires forall i, j :: 0 <= i < j < |a| ==> IndexOf(s, a[i]) < IndexOf(s, a[j])
    requires forall i, j :: 0 <= i < j < |b| ==> IndexOf(s, b[i]) < IndexOf(s, b[j])
    ensures a[0] == b[0]
  {
    assert a[0] in a && b[0] in b;
    var i :| 0 <= i < |b| && b[i] == a[0];
    var j :| 0 <= j < |a| && a[j] == b[0];
    assert IndexOf(s, a[0]) <= IndexOf(s, a[j]);
    assert IndexOf(s, b[0]) <= IndexOf(s, b[i]);
    assert a[0] == s[IndexOf(s, a[0])] == s[IndexOf(s, b[0])] == b[0];
  }

  lemma SameTailValues<T(!new)>(s: seq<T>, a: seq<T>, b: seq<T>)
    requires a != [] && b != [] && a[0] == b[0]
    requires forall x :: x in a ==> x in s
    requires forall x :: x in a <==> x in b
    requires forall i, j :: 0 <= i < j < |a| ==> IndexOf(s, a[i]) < IndexOf(s, a[j])
    requires forall i, j :: 0 <= i < j < |b| ==> IndexOf(s, b[i]) < IndexOf(s, b[j])
    ensures forall x :: x in a[1..] <==> x in b[1..]
  {
    forall x ensures x in a[1..] <==> x in b[1..] {
      if x in a[1..] {
        var k :| 1 <= k < |a| && a[k] == x;
        assert IndexOf(s, a[0]) < IndexOf(s, x);
        assert x in b && x != b[0];
      }
      if x in b[1..] {
        var k :| 1 <= k < |b| && b[k] == x;
        assert IndexOf(s, b[0]) < IndexOf(s, x);
        assert x in a && x != a[0];
      }
    }
  }

  /** A sequence without duplicates is left as it is. */
  lemma {:induction false} DedupOfDistinct<T(!new)>(s: seq<T>)
    requires NoDuplicates(s)
    ensures Dedup(s) == s
    decreases |s|
  {
    if s != [] {
      var s' := s[..|s| - 1];
      DedupOfDistinct(s');
      assert s[|s| - 1] !in s';
    }
  }

  /** Dedup on a sequence extended by one value. */
  lemma DedupSnoc<T(!new)>(s: seq<T>, e: T)
    ensures Dedup(s + [e]) == if e in Dedup(s) then Dedup(s) else Dedup(s) + [e]
  {
  }

  /** Merging a deduplicated prefix with more values is merging the raw prefix. */
  lemma {:induction false} DedupAppend<T(!new)>(x: seq<T>, y: seq<T>)
    ensures Dedup(Dedup(x) + y) == Dedup(x + y)
    decreases |y|
  {
    if y == [] {
      assert Dedup(x) + y == Dedup(x) && x + y == x;
      DedupOfDistinct(Dedup(x));
    } else {
      var y', e := y[..|y| - 1], y[|y| - 1];
      assert y == y' + [e];
      DedupAppend(x, y');
      assert Dedup(x) + y == (Dedup(x) + y') + [e];
      assert x + y == (x + y') + [e];
      DedupSnoc(Dedup(x) + y', e);
      DedupSnoc(x + y', e);
    }
  }

  /** `_.union(a, b)` keeps `a` in front when `a` has no duplicates, and adds
      the values of `b` not yet present. */
  lemma {:induction false} UnionExtends<T(!new)>(a: seq<T>, b: seq<T>)
    requires NoDuplicates(a)
    ensures a <= Union(a, b)
    ensures forall x :: x in Union(a, b) <==> x in a || x in b
    decreases |b|
  {
    if b == [] {
      assert a + b == a;
      DedupOfDistinct(a);
    } else {
      UnionExtends(a, b[..|b| - 1]);
      assert (a + b)[..|a + b| - 1] == a + b[..|b| - 1];
    }
  }
}
