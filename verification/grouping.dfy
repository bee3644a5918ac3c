/** Group-by-day, shared by the timeline and the legacy portal: items are
    bucketed by the calendar day they belong to, each bucket keeps the input
    order, and the buckets are listed most recent day first. A day is an
    abstract integer key (larger is later), standing for the formatted date
    label the pages use as the bucket key. */
module Grouping {
  import opened Lists

  datatype Group<T> = Group(day: int, items: seq<T>)

  /** Every day occurs once and days strictly decrease: newest first. */
  predicate StrictlyDescending(ds: seq<int>)
  {
    forall i, j :: 0 <= i < j < |ds| ==> ds[i] > ds[j]
  }

  /** Adds `d` to a newest-first list of days, unless it is already there. */
  function InsertDay(d: int, ds: seq<int>): (r: seq<int>)
    requires StrictlyDescending(ds)
    ensures StrictlyDescending(r)
    ensures forall x :: x in r <==> x == d || x in ds
    decreases |ds|
  {
    if ds == [] then [d]
    else
      DescendingTail(ds);
      if d > ds[0] then
        PrependDescending(d, ds);
        [d] + ds
      else if d == ds[0] then ds
      else
        var rest := InsertDay(d, ds[1..]);
        PrependDescending(ds[0], rest);
        [ds[0]] + rest
  }

  /** The tail of a newest-first list is newest-first and older than its head. */
  lemma DescendingTail(ds: seq<int>)
    requires StrictlyDescending(ds) && ds != []
    ensures StrictlyDescending(ds[1..])
    ensures forall x :: x in ds[1..] ==> x < ds[0]
  {
  }

  /** A day newer than every listed day can go in front. */
  lemma PrependDescending(d: int, ds: seq<int>)
    requires StrictlyDescending(ds)
    requires forall x :: x in ds ==> x < d
    ensures StrictlyDescending([d] + ds)
  {
    var r := [d] + ds;
    forall i, j | 0 <= i < j < |r| ensures r[i] > r[j] {
      assert r[j] == ds[j - 1];
      if i > 0 {
        assert r[i] == ds[i - 1];
      } else {
        assert r[j] in ds;
      }
    }
  }

  /** The distinct values of `ds`, newest first. */
  function SortDescending(ds: seq<int>): (r: seq<int>)
    ensures StrictlyDescending(r)
    ensures forall x :: x in r <==> x in ds
    decreases |ds|
  {
    if ds == [] then [] else InsertDay(ds[0], SortDescending(ds[1..]))
  }

  /** Two newest-first lists with the same days are the same list. */
  lemma {:induction false} DescendingUnique(a: seq<int>, b: seq<int>)
    requires StrictlyDescending(a) && StrictlyDescending(b)
    requires forall x :: x in a <==> x in b
    ensures a == b
    decreases |a|
  {
    if a != [] {
      assert a[0] in a;
    }
    if b != [] {
      assert b[0] in b;
    }
    if a != [] && b != [] {
      assert a[0] in b && b[0] in a;
      assert a[0] == b[0];
      forall x ensures x in a[1..] <==> x in b[1..] {
        assert x in a[1..] <==> x in a && x < a[0];
        assert x in b[1..] <==> x in b && x < b[0];
      }
      DescendingUnique(a[1..], b[1..]);
      assert a == [a[0]] + a[1..] && b == [b[0]] + b[1..];
    }
  }

  /** The items of `ms` that belong to day `d`, in input order. */
  function OnDay<T(==,!new)>(ms: seq<T>, dayOf: T -> int, d: int): (r: seq<T>)
    ensures forall m :: m in r <==> m in ms && dayOf(m) == d
    ensures forall m :: multiset(r)[m] == if dayOf(m) == d then multiset(ms)[m] else 0
    ensures IsSubseq(r, ms)
  {
    FilterCount(ms, m => dayOf(m) == d);
    Filter(ms, m => dayOf(m) == d)
  }

  lemma OnDayConcat<T(!new)>(a: seq<T>, b: seq<T>, dayOf: T -> int, d: int)
    ensures OnDay(a + b, dayOf, d) == OnDay(a, dayOf, d) + OnDay(b, dayOf, d)
  {
    FilterConcat(a, b, m => dayOf(m) == d);
  }

  /** The day of every item, in input order. */
  function DaysOf<T>(ms: seq<T>, dayOf: T -> int): seq<int>
  {
    seq(|ms|, i requires 0 <= i < |ms| => dayOf(ms[i]))
  }

  lemma DaysOfMembers<T(!new)>(ms: seq<T>, dayOf: T -> int)
    ensures forall d :: d in DaysOf(ms, dayOf) <==> exists m :: m in ms && dayOf(m) == d
  {
    var ds := DaysOf(ms, dayOf);
    forall d | d in ds ensures exists m :: m in ms && dayOf(m) == d {
      var k :| 0 <= k < |ds| && ds[k] == d;
      assert ms[k] in ms;
    }
    forall m | m in ms ensures dayOf(m) in ds {
      var k :| 0 <= k < |ms| && ms[k] == m;
      assert ds[k] == dayOf(m);
    }
  }

  /** One group per listed day, holding that day's items. */
  function BuildGroups<T(==,!new)>(ms: seq<T>, dayOf: T -> int, ds: seq<int>): seq<Group<T>>
  {
    seq(|ds|, i requires 0 <= i < |ds| => Group(ds[i], OnDay(ms, dayOf, ds[i])))
  }

  /** The concatenation of the groups' items. */
  function Flatten<T>(gs: seq<Group<T>>): seq<T>
    decreases |gs|
  {
    if gs == [] then [] else gs[0].items + Flatten(gs[1..])
  }

  /** The source's `reduce` into a label-keyed record followed by sorting the
      entries by date, newest first. */
  function GroupByDay<T(==,!new)>(ms: seq<T>, dayOf: T -> int): (gs: seq<Group<T>>)
    ensures forall i, j :: 0 <= i < j < |gs| ==> gs[i].day > gs[j].day
    ensures forall i :: 0 <= i < |gs| ==>
              gs[i].items == OnDay(ms, dayOf, gs[i].day) && gs[i].items != []
    ensures forall m :: m in ms ==> exists i :: 0 <= i < |gs| && gs[i].day == dayOf(m)
    ensures gs == [] <==> ms == []
  {
    var ds := SortDescending(DaysOf(ms, dayOf));
    DaysOfMembers(ms, dayOf);
    BuildGroupsFacts(ms, dayOf, ds);
    BuildGroups(ms, dayOf, ds)
  }

  /** Building one group per day that some item has, and for no other day,
      newest first, gives newest-first non-empty groups that hold each day's
      items and cover every item. */
  lemma BuildGroupsFacts<T(!new)>(ms: seq<T>, dayOf: T -> int, ds: seq<int>)
    requires StrictlyDescending(ds)
    requires forall d :: d in ds <==> exists m :: m in ms && dayOf(m) == d
    ensures var gs := BuildGroups(ms, dayOf, ds);
            forall i, j :: 0 <= i < j < |gs| ==> gs[i].day > gs[j].day
    ensures var gs := BuildGroups(ms, dayOf, ds);
            forall i :: 0 <= i < |gs| ==> gs[i].items == OnDay(ms, dayOf, gs[i].day) && gs[i].items != []
    ensures var gs := BuildGroups(ms, dayOf, ds);
            forall m :: m in ms ==> exists i :: 0 <= i < |gs| && gs[i].day == dayOf(m)
    ensures BuildGroups(ms, dayOf, ds) == [] <==> ms == []
  {
    BuildGroupsOrder(ms, dayOf, ds);
    BuildGroupsNonEmpty(ms, dayOf, ds);
    BuildGroupsCover(ms, dayOf, ds);
    BuildGroupsNone(ms, dayOf, ds);
  }

  /** Groups come in the order of their days, with each day's items. */
  lemma BuildGroupsOrder<T(!new)>(ms: seq<T>, dayOf: T -> int, ds: seq<int>)
    requires StrictlyDescending(ds)
    ensures var gs := BuildGroups(ms, dayOf, ds);
            forall i, j :: 0 <= i < j < |gs| ==> gs[i].day > gs[j].day
    ensures var gs := BuildGroups(ms, dayOf, ds);
            forall i :: 0 <= i < |gs| ==> gs[i].items == OnDay(ms, dayOf, gs[i].day)
  {
  }

  /** There are no groups exactly when there are no items. */
  lemma BuildGroupsNone<T(!new)>(ms: seq<T>, dayOf: T -> int, ds: seq<int>)
    requires forall d :: d in ds <==> exists m :: m in ms && dayOf(m) == d
    ensures BuildGroups(ms, dayOf, ds) == [] <==> ms == []
  {
    if ms != [] {
      assert ms[0] in ms;
      assert exists m :: m in ms && dayOf(m) == dayOf(ms[0]);
      assert dayOf(ms[0]) in ds;
    }
    if ds != [] {
      assert ds[0] in ds;
    }
  }

  /** A listed day that some item has gets a non-empty group. */
  lemma BuildGroupsNonEmpty<T(!new)>(ms: seq<T>, dayOf: T -> int, ds: seq<int>)
    requires forall d :: d in ds ==> exists m :: m in ms && dayOf(m) == d
    ensures var gs := BuildGroups(ms, dayOf, ds);
            forall i :: 0 <= i < |gs| ==> gs[i].items != []
  {
    var gs := BuildGroups(ms, dayOf, ds);
    forall i | 0 <= i < |gs| ensures gs[i].items != [] {
      assert ds[i] in ds;
      var m :| m in ms && dayOf(m) == ds[i];
      assert m in gs[i].items;
    }
  }

  /** Every item's day is listed, so it has a group. */
  lemma BuildGroupsCover<T(!new)>(ms: seq<T>, dayOf: T -> int, ds: seq<int>)
    requires forall d :: (exists m :: m in ms && dayOf(m) == d) ==> d in ds
    ensures var gs := BuildGroups(ms, dayOf, ds);
            forall m :: m in ms ==> exists i :: 0 <= i < |gs| && gs[i].day == dayOf(m)
  {
    var gs := BuildGroups(ms, dayOf, ds);
    forall m | m in ms ensures exists i :: 0 <= i < |gs| && gs[i].day == dayOf(m) {
      assert exists m' :: m' in ms && dayOf(m') == dayOf(m);
      assert dayOf(m) in ds;
      var i :| 0 <= i < |ds| && ds[i] == dayOf(m);
      assert gs[i].day == dayOf(m);
    }
  }

  /** Every item lies in exactly one group, the group of its own day. */
  lemma MemberInExactlyOneGroup<T(!new)>(ms: seq<T>, dayOf: T -> int, m: T)
    requires m in ms
    ensures var gs := GroupByDay(ms, dayOf);
            exists i :: 0 <= i < |gs| && gs[i].day == dayOf(m) && m in gs[i].items
    ensures var gs := GroupByDay(ms, dayOf);
            forall i, j :: 0 <= i < |gs| && 0 <= j < |gs| && m in gs[i].items && m in gs[j].items ==> i == j
  {
    var gs := GroupByDay(ms, dayOf);
    var i :| 0 <= i < |gs| && gs[i].day == dayOf(m);
    assert m in gs[i].items;
  }

  /** The groups' items in order are the groups' contents followed by the
      rest; the listed days' groups are built one day at a time. */
  lemma BuildGroupsTail<T(!new)>(ms: seq<T>, dayOf: T -> int, ds: seq<int>)
    requires ds != []
    ensures BuildGroups(ms, dayOf, ds) == [Group(ds[0], OnDay(ms, dayOf, ds[0]))] + BuildGroups(ms, dayOf, ds[1..])
  {
  }

  /** How often `m` occurs among the groups of the (distinct) days `ds`. */
  lemma {:induction false} BuildGroupsCount<T(!new)>(ms: seq<T>, dayOf: T -> int, ds: seq<int>, m: T)
    requires NoDups(ds)
    ensures multiset(Flatten(BuildGroups(ms, dayOf, ds)))[m] == if dayOf(m) in ds then multiset(ms)[m] else 0
    decreases |ds|
  {
    if ds != [] {
      BuildGroupsTail(ms, dayOf, ds);
      var gs := BuildGroups(ms, dayOf, ds);
      assert gs[1..] == BuildGroups(ms, dayOf, ds[1..]);
      assert Flatten(gs) == OnDay(ms, dayOf, ds[0]) + Flatten(BuildGroups(ms, dayOf, ds[1..]));
      assert NoDups(ds[1..]) && ds[0] !in ds[1..] by {
        assert ds == [ds[0]] + ds[1..];
        NoDupsCons(ds[0], ds[1..]);
      }
      BuildGroupsCount(ms, dayOf, ds[1..], m);
      assert dayOf(m) in ds <==> dayOf(m) == ds[0] || dayOf(m) in ds[1..];
    }
  }

  /** Grouping neither loses nor duplicates an item: the groups' items,
      read in order, are a rearrangement of the input. */
  lemma GroupingIsPermutation<T(!new)>(ms: seq<T>, dayOf: T -> int)
    ensures multiset(Flatten(GroupByDay(ms, dayOf))) == multiset(ms)
  {
    var ds := SortDescending(DaysOf(ms, dayOf));
    DaysOfMembers(ms, dayOf);
    var f := Flatten(GroupByDay(ms, dayOf));
    forall m ensures multiset(f)[m] == multiset(ms)[m] {
      BuildGroupsCount(ms, dayOf, ds, m);
      if m in ms {
        assert dayOf(m) in ds;
      }
    }
  }

  /** Every item of a group belongs to that group's day. */
  predicate DayUniform<T(==,!new)>(gs: seq<Group<T>>, dayOf: T -> int)
  {
    forall i, m :: 0 <= i < |gs| && m in gs[i].items ==> dayOf(m) == gs[i].day
  }

  /** Re-filtering the flattened groups by a day gives back that day's group,
      or nothing for a day without a group. */
  lemma {:induction false} OnDayOfFlatten<T(!new)>(gs: seq<Group<T>>, dayOf: T -> int, d: int)
    requires DayUniform(gs, dayOf)
    requires forall i, j :: 0 <= i < j < |gs| ==> gs[i].day > gs[j].day
    ensures forall i :: 0 <= i < |gs| && gs[i].day == d ==> OnDay(Flatten(gs), dayOf, d) == gs[i].items
    ensures (forall i :: 0 <= i < |gs| ==> gs[i].day != d) ==> OnDay(Flatten(gs), dayOf, d) == []
    decreases |gs|
  {
    if gs == [] {
      FilterNone([], (m: T) => dayOf(m) == d);
    } else {
      var g := gs[0];
      var rest := gs[1..];
      assert DayUniform(rest, dayOf) by {
        forall i, m | 0 <= i < |rest| && m in rest[i].items ensures dayOf(m) == rest[i].day {
          assert rest[i] == gs[i + 1];
        }
      }
      OnDayOfFlatten(rest, dayOf, d);
      OnDayConcat(g.items, Flatten(rest), dayOf, d);
      if g.day == d {
        FilterAll(g.items, m => dayOf(m) == d);
        assert forall i :: 0 <= i < |rest| ==> rest[i].day != d by {
          forall i | 0 <= i < |rest| ensures rest[i].day != d {
            assert rest[i] == gs[i + 1];
          }
        }
        forall i | 0 <= i < |gs| && gs[i].day == d ensures i == 0 {
        }
      } else {
        FilterNone(g.items, m => dayOf(m) == d);
        forall i | 0 <= i < |gs| && gs[i].day == d
          ensures OnDay(Flatten(gs), dayOf, d) == gs[i].items
        {
          assert i != 0 && rest[i - 1] == gs[i];
        }
      }
    }
  }

  /** Grouping is idempotent: grouping the flattened groups again yields the
      same groups. */
  lemma GroupingIdempotent<T(!new)>(ms: seq<T>, dayOf: T -> int)
    ensures GroupByDay(Flatten(GroupByDay(ms, dayOf)), dayOf) == GroupByDay(ms, dayOf)
  {
    var gs := GroupByDay(ms, dayOf);
    var fs := Flatten(gs);
    SameDaysAfterFlatten(ms, dayOf);
    assert DayUniform(gs, dayOf);
    var hs := GroupByDay(fs, dayOf);
    assert |hs| == |gs|;
    forall i | 0 <= i < |gs| ensures hs[i] == gs[i] {
      OnDayOfFlatten(gs, dayOf, gs[i].day);
    }
  }

  /** Flattening the groups keeps the same set of days. */
  lemma SameDaysAfterFlatten<T(!new)>(ms: seq<T>, dayOf: T -> int)
    ensures SortDescending(DaysOf(Flatten(GroupByDay(ms, dayOf)), dayOf)) == SortDescending(DaysOf(ms, dayOf))
  {
    var fs := Flatten(GroupByDay(ms, dayOf));
    GroupingIsPermutation(ms, dayOf);
    assert forall m :: m in fs <==> m in ms by {
      forall m ensures m in fs <==> m in ms {
        assert m in fs <==> multiset(fs)[m] > 0;
        assert m in ms <==> multiset(ms)[m] > 0;
      }
    }
    DaysOfMembers(ms, dayOf);
    DaysOfMembers(fs, dayOf);
    DescendingUnique(SortDescending(DaysOf(fs, dayOf)), SortDescending(DaysOf(ms, dayOf)));
  }
}
