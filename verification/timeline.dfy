/** The timeline page: a search box and a tag picker narrow the memory list,
    and the survivors are shown grouped by day, newest day first. */
module Timeline {
  import opened Text
  import opened Lists
  import opened Grouping

  /** A timeline entry. `day` stands for the `date` field ("2025-01-15") as an
      abstract day number; `time`, `emotion` and `kind` are display-only. */
  datatype Memory = Memory(
    id: int,
    title: string,
    content: string,
    day: int,
    time: string,
    emotion: string,
    tags: seq<string>,
    kind: string)

  /** The page's filter state: the search text and the selected tags. */
  datatype View = View(searchQuery: string, selectedTags: seq<string>)

  const InitialView := View("", [])

  function DayKey(m: Memory): int
  {
    m.day
  }

  function TagsOf(m: Memory): seq<string>
  {
    m.tags
  }

  /** The search predicate: an empty query, or the lower-cased query occurring
      in the lower-cased content or the lower-cased title. In particular a
      query that occurs verbatim in the content or the title matches. */
  predicate MatchesSearch(query: string, m: Memory)
    ensures query == "" ==> MatchesSearch(query, m)
    ensures Contains(m.content, query) || Contains(m.title, query) ==> MatchesSearch(query, m)
  {
    LowerKeepsContains(m.content, query);
    LowerKeepsContains(m.title, query);
    || query == ""
    || Contains(Lower(m.content), Lower(query))
    || Contains(Lower(m.title), Lower(query))
  }

  /** The tag predicate: nothing selected, or some selected tag on the memory.
      With a selection, an untagged memory never matches. */
  predicate MatchesTags(selected: seq<string>, m: Memory)
    ensures selected == [] ==> MatchesTags(selected, m)
    ensures forall t :: t in selected && t in m.tags ==> MatchesTags(selected, m)
    ensures selected != [] && MatchesTags(selected, m) ==> m.tags != []
  {
    |selected| == 0 || exists t :: t in selected && t in m.tags
  }

  predicate Matches(query: string, selected: seq<string>, m: Memory)
  {
    MatchesSearch(query, m) && MatchesTags(selected, m)
  }

  /** `filteredMemories`: exactly the memories passing both predicates, each
      as often as in the input, in input order. */
  function FilterMemories(ms: seq<Memory>, query: string, selected: seq<string>): (r: seq<Memory>)
    ensures forall m :: m in r <==> m in ms && Matches(query, selected, m)
    ensures forall m :: multiset(r)[m] == if Matches(query, selected, m) then multiset(ms)[m] else 0
    ensures IsSubseq(r, ms)
  {
    FilterCount(ms, m => Matches(query, selected, m));
    Filter(ms, m => Matches(query, selected, m))
  }

  /** With no query and no selected tag every memory is shown, unchanged. */
  lemma NoCriteriaShowsAll(ms: seq<Memory>)
    ensures FilterMemories(ms, "", []) == ms
  {
    FilterAll(ms, m => Matches("", [], m));
  }

  /** The empty-query shortcut changes nothing: a memory passes the search iff
      the lower-cased query occurs in its lower-cased content or title. */
  lemma SearchIsSubstringMatch(query: string, m: Memory)
    ensures MatchesSearch(query, m) <==>
              (exists i :: OccursAt(Lower(m.content), Lower(query), i))
              || (exists i :: OccursAt(Lower(m.title), Lower(query), i))
  {
    if query == "" {
      assert Lower(query) == "";
      assert OccursAt(Lower(m.content), Lower(query), 0);
    }
  }

  /** Queries that differ only in letter case select the same memories. */
  lemma SearchIsCaseInsensitive(ms: seq<Memory>, q1: string, q2: string, selected: seq<string>)
    requires Lower(q1) == Lower(q2)
    ensures FilterMemories(ms, q1, selected) == FilterMemories(ms, q2, selected)
  {
    assert |q1| == |Lower(q1)| && |q2| == |Lower(q2)|;
    FilterExt(ms, m => Matches(q1, selected, m), m => Matches(q2, selected, m));
  }

  /** Selected tags combine with OR: selecting the tags of `a` and of `b`
      shows what either selection alone shows. */
  lemma TagSelectionIsUnion(ms: seq<Memory>, query: string, a: seq<string>, b: seq<string>, m: Memory)
    requires a != [] && b != []
    ensures m in FilterMemories(ms, query, a + b) <==>
              m in FilterMemories(ms, query, a) || m in FilterMemories(ms, query, b)
  {
    assert forall t :: t in a + b <==> t in a || t in b;
  }

  /** Once some tag is selected, selecting one more never hides a memory. */
  lemma ExtraTagKeepsResults(ms: seq<Memory>, query: string, selected: seq<string>, t: string)
    requires selected != []
    ensures IsSubseq(FilterMemories(ms, query, selected), FilterMemories(ms, query, selected + [t]))
  {
    forall m | Matches(query, selected, m) ensures Matches(query, selected + [t], m) {
      var u :| u in selected && u in m.tags;
      assert u in selected + [t];
    }
    FilterMonotone(ms, m => Matches(query, selected, m), m => Matches(query, selected + [t], m));
  }

  /** The first selected tag can hide memories: a memory without tags is
      shown with no tag selected and hidden once one tag is selected. */
  lemma FirstTagCanNarrow()
    ensures var m := Memory(1, "", "", 0, "", "", [], "");
            FilterMemories([m], "", []) == [m] && FilterMemories([m], "", ["work"]) == []
  {
    var m := Memory(1, "", "", 0, "", "", [], "");
    NoCriteriaShowsAll([m]);
    assert !Matches("", ["work"], m);
  }

  /** `allTags`: every tag of every memory, once each, in order of first
      appearance when reading memories and their tags in order. */
  function AllTags(ms: seq<Memory>): (r: seq<string>)
    ensures NoDups(r)
    ensures forall t :: t in r <==> exists m :: m in ms && t in m.tags
    ensures FirstOccurrenceOrder(r, FlatMap(ms, TagsOf))
  {
    Dedup(FlatMap(ms, TagsOf))
  }

  /** `toggleTag`: a selected tag is deselected (every copy removed, the
      others kept in order); an unselected tag is appended. */
  function ToggleTag(selected: seq<string>, t: string): (r: seq<string>)
    ensures t in r <==> t !in selected
    ensures forall u :: u != t ==> (u in r <==> u in selected)
    ensures t !in selected ==> r == selected + [t]
    ensures t in selected ==> IsSubseq(r, selected)
    ensures NoDups(selected) ==> NoDups(r)
  {
    if t in selected then
      RemoveAll(selected, t)
    else
      assert NoDups(selected) ==> NoDups(selected + [t]);
      selected + [t]
  }

  /** Toggling an unselected tag twice restores the selection exactly. */
  lemma ToggleAbsentTwiceRestores(selected: seq<string>, t: string)
    requires t !in selected
    ensures ToggleTag(ToggleTag(selected, t), t) == selected
  {
    assert t in selected + [t];
    RemoveAllAppended(selected, t);
  }

  /** Toggling a selected tag twice restores which tags are selected; the tag
      moves to the end of the list. */
  lemma TogglePresentTwiceMovesToEnd(selected: seq<string>, t: string)
    requires t in selected
    ensures ToggleTag(ToggleTag(selected, t), t) == RemoveAll(selected, t) + [t]
    ensures forall u :: u in ToggleTag(ToggleTag(selected, t), t) <==> u in selected
  {
  }

  /** Events of the filter panel: typing a query, clicking a tag badge,
      "Clear Filters". */
  datatype ViewEvent = SetQuery(query: string) | ClickTag(tag: string) | ClearFilters

  /** The filter panel's events: typing a query changes only the query;
      clicking a tag flips whether it is selected and keeps the selection
      duplicate-free; "Clear Filters" empties the selection and keeps the
      query. */
  function Step(v: View, e: ViewEvent): (r: View)
    ensures e.SetQuery? ==> r.searchQuery == e.query && r.selectedTags == v.selectedTags
    ensures e.ClickTag? ==>
              && r.searchQuery == v.searchQuery
              && (e.tag in r.selectedTags <==> e.tag !in v.selectedTags)
              && (forall t :: t != e.tag ==> (t in r.selectedTags <==> t in v.selectedTags))
    ensures e.ClearFilters? ==> r.selectedTags == [] && r.searchQuery == v.searchQuery
    ensures NoDups(v.selectedTags) ==> NoDups(r.selectedTags)
  {
    match e
    case SetQuery(q) => v.(searchQuery := q)
    case ClickTag(t) => v.(selectedTags := ToggleTag(v.selectedTags, t))
    case ClearFilters => v.(selectedTags := [])
  }

  function Run(v: View, es: seq<ViewEvent>): View
    decreases |es|
  {
    if es == [] then v else Run(Step(v, es[0]), es[1..])
  }

  /** The selected-tag list never holds a tag twice. */
  lemma {:induction false} SelectionStaysDuplicateFree(v: View, es: seq<ViewEvent>)
    requires NoDups(v.selectedTags)
    ensures NoDups(Run(v, es).selectedTags)
    decreases |es|
  {
    if es != [] {
      SelectionStaysDuplicateFree(Step(v, es[0]), es[1..]);
    }
  }

  /** `groupedMemories`: the filtered memories grouped by day, newest first. */
  function GroupedMemories(v: View, ms: seq<Memory>): (gs: seq<Group<Memory>>)
    ensures forall i, j :: 0 <= i < j < |gs| ==> gs[i].day > gs[j].day
    ensures forall i :: 0 <= i < |gs| ==>
              && gs[i].items != [] && IsSubseq(gs[i].items, ms)
              && (forall m :: m in gs[i].items <==>
                    m in ms && m.day == gs[i].day && Matches(v.searchQuery, v.selectedTags, m))
    ensures forall m :: m in ms && Matches(v.searchQuery, v.selectedTags, m) ==>
              exists i :: 0 <= i < |gs| && m in gs[i].items
    ensures forall i :: 0 <= i < |gs| ==>
              gs[i].items == OnDay(FilterMemories(ms, v.searchQuery, v.selectedTags), DayKey, gs[i].day)
    ensures forall m :: multiset(Flatten(gs))[m] ==
              if Matches(v.searchQuery, v.selectedTags, m) then multiset(ms)[m] else 0
  {
    var fs := FilterMemories(ms, v.searchQuery, v.selectedTags);
    GroupsOfFiltered(fs, ms);
    GroupingIsPermutation(fs, DayKey);
    GroupByDay(fs, DayKey)
  }

  /** Grouping a subsequence of `ms` gives groups that are subsequences of
      `ms` and that together hold every grouped memory. */
  lemma GroupsOfFiltered(fs: seq<Memory>, ms: seq<Memory>)
    requires IsSubseq(fs, ms)
    ensures var gs := GroupByDay(fs, DayKey);
            forall i :: 0 <= i < |gs| ==> IsSubseq(gs[i].items, ms)
    ensures var gs := GroupByDay(fs, DayKey);
            forall m :: m in fs ==> exists i :: 0 <= i < |gs| && m in gs[i].items
  {
    var gs := GroupByDay(fs, DayKey);
    forall i | 0 <= i < |gs| ensures IsSubseq(gs[i].items, ms) {
      SubseqTransitive(gs[i].items, fs, ms);
    }
    forall m | m in fs ensures exists i :: 0 <= i < |gs| && m in gs[i].items {
      MemberInExactlyOneGroup(fs, DayKey, m);
    }
  }

  /** "No memories found" is shown exactly when no memory passes the filter. */
  lemma EmptyStateIffNoMatch(v: View, ms: seq<Memory>)
    ensures GroupedMemories(v, ms) == [] <==>
              forall m :: m in ms ==> !Matches(v.searchQuery, v.selectedTags, m)
  {
    var gs := GroupedMemories(v, ms);
    if gs != [] {
      assert gs[0].items != [];
      assert gs[0].items[0] in gs[0].items;
    }
  }
}
