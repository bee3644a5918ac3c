/** Sequence operations shared by the pages: `Array.prototype.filter`, the
    insertion-ordered de-duplication of `Array.from(new Set(xs))`, `flatMap`,
    and the predicates used to state what they keep. */
module Lists {

  /** No value occurs twice. */
  predicate NoDups<T(==,!new)>(xs: seq<T>)
  {
    forall i, j :: 0 <= i < j < |xs| ==> xs[i] != xs[j]
  }

  /** `a` is obtained from `b` by deleting elements: order is kept. */
  predicate IsSubseq<T(==,!new)>(a: seq<T>, b: seq<T>)
    decreases |b|
  {
    a == [] || (b != [] && ((a[0] == b[0] && IsSubseq(a[1..], b[1..])) || IsSubseq(a, b[1..])))
  }

  /** `xs.filter(p)`: the elements satisfying `p`, each as often as in `xs`,
      in their original order. */
  function Filter<T(==,!new)>(xs: seq<T>, p: T -> bool): (r: seq<T>)
    ensures forall x :: x in r <==> x in xs && p(x)
    ensures IsSubseq(r, xs)
    decreases |xs|
  {
    if xs == [] then []
    else
      var rest := Filter(xs[1..], p);
      assert xs == [xs[0]] + xs[1..];
      if p(xs[0]) then [xs[0]] + rest else rest
  }

  /** Filtering keeps each satisfying value as often as it occurs, and drops
      every other value. */
  lemma {:induction false} FilterCount<T(!new)>(xs: seq<T>, p: T -> bool)
    ensures forall x :: multiset(Filter(xs, p))[x] == if p(x) then multiset(xs)[x] else 0
    decreases |xs|
  {
    if xs != [] {
      FilterCount(xs[1..], p);
      assert xs == [xs[0]] + xs[1..];
      assert multiset(xs) == multiset{xs[0]} + multiset(xs[1..]);
    }
  }

  /** Filtering with a predicate every element satisfies keeps everything. */
  lemma {:induction false} FilterAll<T(!new)>(xs: seq<T>, p: T -> bool)
    requires forall x :: x in xs ==> p(x)
    ensures Filter(xs, p) == xs
    decreases |xs|
  {
    if xs != [] {
      FilterAll(xs[1..], p);
    }
  }

  /** Filtering with a predicate no element satisfies keeps nothing. */
  lemma FilterNone<T(!new)>(xs: seq<T>, p: T -> bool)
    requires forall x :: x in xs ==> !p(x)
    ensures Filter(xs, p) == []
  {
    if Filter(xs, p) != [] {
      assert Filter(xs, p)[0] in Filter(xs, p);
    }
  }

  /** Only the predicate's values on the elements of `xs` matter. */
  lemma {:induction false} FilterExt<T(!new)>(xs: seq<T>, p: T -> bool, q: T -> bool)
    requires forall x :: x in xs ==> p(x) == q(x)
    ensures Filter(xs, p) == Filter(xs, q)
    decreases |xs|
  {
    if xs != [] {
      FilterExt(xs[1..], p, q);
    }
  }

  /** Filtering distributes over concatenation. */
  lemma {:induction false} FilterConcat<T(!new)>(a: seq<T>, b: seq<T>, p: T -> bool)
    ensures Filter(a + b, p) == Filter(a, p) + Filter(b, p)
    decreases |a|
  {
    if a == [] {
      assert a + b == b;
    } else {
      var head := if p(a[0]) then [a[0]] else [];
      calc {
        Filter(a + b, p);
      == { FilterCons(a + b, p); assert (a + b)[0] == a[0] && (a + b)[1..] == a[1..] + b; }
        head + Filter(a[1..] + b, p);
      == { FilterConcat(a[1..], b, p); }
        head + (Filter(a[1..], p) + Filter(b, p));
      ==
        (head + Filter(a[1..], p)) + Filter(b, p);
      == { FilterCons(a, p); }
        Filter(a, p) + Filter(b, p);
      }
    }
  }

  /** Filtering a non-empty sequence decides its first element, then
      filters the rest. */
  lemma FilterCons<T(!new)>(xs: seq<T>, p: T -> bool)
    requires xs != []
    ensures Filter(xs, p) == (if p(xs[0]) then [xs[0]] else []) + Filter(xs[1..], p)
  {
  }

  /** Deleting elements from `b` keeps `a` a subsequence of what is left. */
  lemma SubseqCons<T(!new)>(a: seq<T>, x: T, b: seq<T>)
    requires IsSubseq(a, b)
    ensures IsSubseq(a, [x] + b)
  {
    assert ([x] + b)[1..] == b;
  }

  /** A subsequence of a subsequence is a subsequence. */
  lemma {:induction false} SubseqTransitive<T(!new)>(a: seq<T>, b: seq<T>, c: seq<T>)
    requires IsSubseq(a, b) && IsSubseq(b, c)
    ensures IsSubseq(a, c)
    decreases |c|
  {
    if a != [] {
      if b[0] == c[0] && IsSubseq(b[1..], c[1..]) {
        if a[0] == b[0] && IsSubseq(a[1..], b[1..]) {
          SubseqTransitive(a[1..], b[1..], c[1..]);
        } else {
          SubseqTransitive(a, b[1..], c[1..]);
          SubseqCons(a, c[0], c[1..]);
          assert c == [c[0]] + c[1..];
        }
      } else {
        SubseqTransitive(a, b, c[1..]);
        SubseqCons(a, c[0], c[1..]);
        assert c == [c[0]] + c[1..];
      }
    }
  }

  /** Appending a value not yet present keeps a sequence duplicate-free. */
  lemma NoDupsAppend<T(!new)>(xs: seq<T>, x: T)
    requires NoDups(xs) && x !in xs
    ensures NoDups(xs + [x])
  {
    var r := xs + [x];
    forall i, j | 0 <= i < j < |r| ensures r[i] != r[j] {
      assert r[i] == xs[i];
      if j == |xs| {
        assert xs[i] in xs;
      } else {
        assert r[j] == xs[j];
      }
    }
  }

  /** A weaker predicate keeps at least what a stronger one keeps, in order. */
  lemma {:induction false} FilterMonotone<T(!new)>(xs: seq<T>, p: T -> bool, q: T -> bool)
    requires forall x :: x in xs && p(x) ==> q(x)
    ensures IsSubseq(Filter(xs, p), Filter(xs, q))
    decreases |xs|
  {
    if xs != [] {
      FilterMonotone(xs[1..], p, q);
      var a := Filter(xs[1..], p);
      var b := Filter(xs[1..], q);
      if p(xs[0]) {
        assert ([xs[0]] + a)[1..] == a && ([xs[0]] + b)[1..] == b;
      } else if q(xs[0]) {
        SubseqCons(a, xs[0], b);
      }
    }
  }

  lemma NoDupsCons<T(!new)>(x: T, xs: seq<T>)
    ensures NoDups([x] + xs) <==> x !in xs && NoDups(xs)
  {
    if NoDups([x] + xs) {
      assert forall i, j :: 0 <= i < j < |xs| ==> xs[i] == ([x] + xs)[i + 1] && xs[j] == ([x] + xs)[j + 1];
      forall k | 0 <= k < |xs| ensures xs[k] != x {
        assert ([x] + xs)[0] == x && ([x] + xs)[k + 1] == xs[k];
      }
    }
  }

  /** Filtering a duplicate-free sequence leaves it duplicate-free. */
  lemma {:induction false} FilterNoDups<T(!new)>(xs: seq<T>, p: T -> bool)
    requires NoDups(xs)
    ensures NoDups(Filter(xs, p))
    decreases |xs|
  {
    if xs != [] {
      assert xs == [xs[0]] + xs[1..];
      NoDupsCons(xs[0], xs[1..]);
      FilterNoDups(xs[1..], p);
      NoDupsCons(xs[0], Filter(xs[1..], p));
    }
  }

  /** `xs.filter(y => y !== x)`: every occurrence of `x` is dropped and
      everything else is kept, in order and with its multiplicity. */
  function RemoveAll<T(==,!new)>(xs: seq<T>, x: T): (r: seq<T>)
    ensures x !in r
    ensures forall y :: y != x ==> multiset(r)[y] == multiset(xs)[y]
    ensures IsSubseq(r, xs)
    ensures NoDups(xs) ==> NoDups(r)
  {
    var r := Filter(xs, y => y != x);
    FilterCount(xs, y => y != x);
    if NoDups(xs) then FilterNoDups(xs, y => y != x); r else r
  }

  /** Removing a value that was appended to a sequence without it gives the
      sequence back. */
  lemma RemoveAllAppended<T(!new)>(xs: seq<T>, x: T)
    requires x !in xs
    ensures RemoveAll(xs + [x], x) == xs
  {
    FilterConcat(xs, [x], y => y != x);
    FilterAll(xs, y => y != x);
    FilterNone([x], y => y != x);
  }

  /** The position of the first occurrence of `x`. */
  function IndexOf<T(==,!new)>(xs: seq<T>, x: T): (r: nat)
    requires x in xs
    ensures r < |xs| && xs[r] == x && x !in xs[..r]
  {
    if xs[0] == x then 0
    else
      var r := IndexOf(xs[1..], x);
      assert xs[..r + 1] == [xs[0]] + xs[1..][..r];
      r + 1
  }

  /** The first-occurrence position is determined by the two facts above. */
  lemma IndexOfUnique<T(!new)>(xs: seq<T>, x: T, k: nat)
    requires k < |xs| && xs[k] == x && x !in xs[..k]
    ensures IndexOf(xs, x) == k
  {
  }

  /** The values of `r` appear in `r` in the order of their first
      occurrence in `xs`. */
  predicate FirstOccurrenceOrder<T(==,!new)>(r: seq<T>, xs: seq<T>)
    requires forall x :: x in r ==> x in xs
  {
    forall i, j :: 0 <= i < j < |r| ==> IndexOf(xs, r[i]) < IndexOf(xs, r[j])
  }

  /** `Array.from(new Set(xs))`: each distinct value once, in order of first
      occurrence. */
  function Dedup<T(==,!new)>(xs: seq<T>): (r: seq<T>)
    ensures NoDups(r)
    ensures forall x :: x in r <==> x in xs
    ensures FirstOccurrenceOrder(r, xs)
    decreases |xs|
  {
    if xs == [] then []
    else
      var init := xs[..|xs| - 1];
      var x := xs[|xs| - 1];
      assert xs == init + [x];
      DedupAppend(init, x, Dedup(init));
      if x in Dedup(init) then Dedup(init) else Dedup(init) + [x]
  }

  /** Appending a value leaves the first occurrence of every earlier value
      where it was. */
  lemma IndexOfAppend<T(!new)>(init: seq<T>, x: T)
    ensures forall y :: y in init ==> IndexOf(init + [x], y) == IndexOf(init, y)
  {
    var xs := init + [x];
    forall y | y in init ensures IndexOf(xs, y) == IndexOf(init, y) {
      var k := IndexOf(init, y);
      assert xs[..k] == init[..k];
      IndexOfUnique(xs, y, k);
    }
  }

  /** One step of `Dedup`: a deduplicated `init` extends to `init + [x]` by
      appending `x` exactly when `x` is new. */
  lemma DedupAppend<T(!new)>(init: seq<T>, x: T, d: seq<T>)
    requires NoDups(d)
    requires forall y :: y in d <==> y in init
    requires FirstOccurrenceOrder(d, init)
    ensures var e := if x in d then d else d + [x];
            && NoDups(e)
            && (forall y :: y in e <==> y in init + [x])
            && FirstOccurrenceOrder(e, init + [x])
  {
    var xs := init + [x];
    IndexOfAppend(init, x);
    if x !in d {
      assert xs[..|init|] == init;
      IndexOfUnique(xs, x, |init|);
      NoDupsAppend(d, x);
      var e := d + [x];
      forall i, j | 0 <= i < j < |e| ensures IndexOf(xs, e[i]) < IndexOf(xs, e[j]) {
        assert e[i] == d[i] && d[i] in d;
        if j < |d| {
          assert e[j] == d[j];
        }
      }
    }
  }

  /** `xs.flatMap(f)`: the concatenation of `f` over `xs`. */
  function FlatMap<T(!new), U(!new)>(xs: seq<T>, f: T -> seq<U>): (r: seq<U>)
    ensures forall y :: y in r <==> exists x :: x in xs && y in f(x)
    decreases |xs|
  {
    if xs == [] then []
    else
      var rest := FlatMap(xs[1..], f);
      assert forall x :: x in xs <==> x == xs[0] || x in xs[1..];
      f(xs[0]) + rest
  }
}
