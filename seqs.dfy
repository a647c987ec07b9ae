/** Sequence idioms of the router: list comprehensions with a filter, membership-checked
    appends (`if x not in xs: xs.append(x)`) and what they guarantee. */
module Seqs {

  /** `[x for x in s if p(x)]` */
  function Filter<T>(s: seq<T>, p: T -> bool): (r: seq<T>)
    ensures |r| <= |s|
  {
    if s == [] then []
    else Filter(s[..|s| - 1], p) + (if p(s[|s| - 1]) then [s[|s| - 1]] else [])
  }

  /** The filter keeps exactly the elements that pass. */
  lemma {:induction false} FilterMembers<T>(s: seq<T>, p: T -> bool)
    ensures forall i :: 0 <= i < |Filter(s, p)| ==> Filter(s, p)[i] in s && p(Filter(s, p)[i])
    ensures forall i :: 0 <= i < |s| && p(s[i]) ==> s[i] in Filter(s, p)
  {
    if s != [] {
      var s' := s[..|s| - 1];
      FilterMembers(s', p);
      assert s == s' + [s[|s| - 1]];
    }
  }

  lemma {:induction false} FilterAppend<T>(a: seq<T>, b: seq<T>, p: T -> bool)
    ensures Filter(a + b, p) == Filter(a, p) + Filter(b, p)
    decreases |b|
  {
    if b != [] {
      var b' := b[..|b| - 1];
      assert (a + b)[..|a + b| - 1] == a + b';
      FilterAppend(a, b', p);
    } else {
      assert a + b == a;
    }
  }

  /** Every element passes the filter exactly when nothing is dropped. */
  lemma {:induction false} FilterKeepsAll<T>(s: seq<T>, p: T -> bool)
    ensures |Filter(s, p)| == |s| <==> forall i :: 0 <= i < |s| ==> p(s[i])
  {
    if s != [] {
      var s' := s[..|s| - 1];
      FilterKeepsAll(s', p);
      assert forall i :: 0 <= i < |s'| ==> s'[i] == s[i];
    }
  }

  /** A filter that every element passes returns its input. */
  lemma {:induction false} FilterAll<T>(s: seq<T>, p: T -> bool)
    requires forall i :: 0 <= i < |s| ==> p(s[i])
    ensures Filter(s, p) == s
  {
    if s != [] {
      var s' := s[..|s| - 1];
      FilterAll(s', p);
      assert s == s' + [s[|s| - 1]];
    }
  }

  /** `a` is obtained from `b` by deleting elements (order kept). */
  predicate IsSubseq<T(==)>(a: seq<T>, b: seq<T>)
    decreases |b|
  {
    || a == []
    || (&& b != []
        && ((a[|a| - 1] == b[|b| - 1] && IsSubseq(a[..|a| - 1], b[..|b| - 1]))
            || IsSubseq(a, b[..|b| - 1])))
  }

  lemma {:induction false} FilterIsSubseq<T>(s: seq<T>, p: T -> bool)
    ensures IsSubseq(Filter(s, p), s)
  {
    if s != [] {
      var s' := s[..|s| - 1];
      FilterIsSubseq(s', p);
      var r := Filter(s, p);
      if p(s[|s| - 1]) {
        assert r == Filter(s', p) + [s[|s| - 1]];
        assert r[..|r| - 1] == Filter(s', p) && r[|r| - 1] == s[|s| - 1];
        assert IsSubseq(r[..|r| - 1], s[..|s| - 1]);
        assert r != [] && s != [];
      } else {
        assert r == Filter(s', p);
      }
    }
  }

  /** No element occurs twice. */
  predicate NoDup<T(==)>(s: seq<T>) {
    forall i, j :: 0 <= i < j < |s| ==> s[i] != s[j]
  }

  lemma {:induction false} NoDupCount<T>(s: seq<T>, x: T)
    requires NoDup(s)
    ensures multiset(s)[x] <= 1
  {
    if s != [] {
      var s' := s[..|s| - 1];
      assert s == s' + [s[|s| - 1]];
      NoDupCount(s', x);
      if x == s[|s| - 1] {
        assert x !in s';
      }
    }
  }

  /** A reordering of a list without duplicates has none either. */
  lemma NoDupPermutation<T>(a: seq<T>, b: seq<T>)
    requires NoDup(a) && multiset(a) == multiset(b)
    ensures NoDup(b)
  {
    forall i, j | 0 <= i < j < |b| ensures b[i] != b[j] {
      if b[i] == b[j] {
        var x := b[i];
        assert b == b[..i] + [x] + b[i + 1..j] + [x] + b[j + 1..];
        assert multiset(b)[x] >= 2;
        NoDupCount(a, x);
      }
    }
  }

  /** The list after `for x in xs: if x not in acc: acc.append(x)`. */
  function AppendNew<T(==)>(acc: seq<T>, xs: seq<T>): (r: seq<T>)
    ensures acc <= r
    ensures NoDup(acc) ==> NoDup(r)
  {
    if xs == [] then acc
    else
      var x := xs[|xs| - 1];
      var prev := AppendNew(acc, xs[..|xs| - 1]);
      if x in prev then prev else prev + [x]
  }

  /** After the loop the list holds the old items and every item of `xs`, and nothing else. */
  lemma {:induction false} AppendNewMembers<T>(acc: seq<T>, xs: seq<T>)
    ensures var r := AppendNew(acc, xs);
      && (forall i :: 0 <= i < |r| ==> r[i] in acc || r[i] in xs)
      && (forall i :: 0 <= i < |acc| ==> acc[i] in r)
      && (forall i :: 0 <= i < |xs| ==> xs[i] in r)
  {
    if xs != [] {
      var xs' := xs[..|xs| - 1];
      AppendNewMembers(acc, xs');
      assert xs == xs' + [xs[|xs| - 1]];
    }
  }

  /** One membership-checked append. */
  lemma AppendNewOne<T>(acc: seq<T>, x: T)
    ensures AppendNew(acc, [x]) == if x in acc then acc else acc + [x]
  {
    assert [x][..0] == [];
  }

  /** Two membership-checked append loops in a row are one loop over both lists. */
  lemma {:induction false} AppendNewConcat<T>(acc: seq<T>, xs: seq<T>, ys: seq<T>)
    ensures AppendNew(AppendNew(acc, xs), ys) == AppendNew(acc, xs + ys)
    decreases |ys|
  {
    if ys == [] {
      assert xs + ys == xs;
    } else {
      AppendNewConcat(acc, xs, ys[..|ys| - 1]);
      assert (xs + ys)[..|xs + ys| - 1] == xs + ys[..|ys| - 1];
    }
  }

  /** Some occurrence of `x` in `src` comes before every occurrence of `y`. */
  ghost predicate OccursBefore<T>(src: seq<T>, x: T, y: T) {
    exists a :: 0 <= a < |src| && src[a] == x && forall b :: 0 <= b < |src| && src[b] == y ==> a < b
  }

  /** `r` lists elements in the order in which they are first seen in `src`. */
  ghost predicate FirstSeenOrder<T>(r: seq<T>, src: seq<T>) {
    forall i, j :: 0 <= i < j < |r| ==> OccursBefore(src, r[i], r[j])
  }

  lemma {:induction false} AppendNewFirstSeen<T>(xs: seq<T>)
    ensures FirstSeenOrder(AppendNew([], xs), xs)
  {
    if xs != [] {
      var x := xs[|xs| - 1];
      var xs' := xs[..|xs| - 1];
      var prev := AppendNew([], xs');
      AppendNewFirstSeen(xs');
      AppendNewMembers([], xs');
      var r := AppendNew([], xs);
      forall i, j | 0 <= i < j < |r|
        ensures OccursBefore(xs, r[i], r[j])
      {
        if j < |prev| {
          assert OccursBefore(xs', prev[i], prev[j]);
          var a :| 0 <= a < |xs'| && xs'[a] == prev[i] && forall b :: 0 <= b < |xs'| && xs'[b] == prev[j] ==> a < b;
          forall b | 0 <= b < |xs| && xs[b] == r[j]
            ensures a < b
          {
            if b < |xs'| {
              assert xs'[b] == prev[j];
            }
          }
          assert xs[a] == r[i];
        } else {
          assert x !in prev && r[j] == x;
          assert r[i] in xs';
          var a :| 0 <= a < |xs'| && xs'[a] == r[i];
          assert forall b :: 0 <= b < |xs'| ==> xs'[b] != x;
          forall b | 0 <= b < |xs| && xs[b] == r[j]
            ensures a < b
          {
          }
          assert xs[a] == r[i];
        }
      }
    }
  }
}
