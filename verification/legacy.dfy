/** The legacy portal page: a token is sent to two remote procedures (the
    portal lookup, then the shared-memories listing), and the memories are
    shown grouped by day, newest first. The remote calls are not modelled;
    their replies are inputs. */
module Legacy {
  import opened Options
  import opened Grouping

  /** A portal row. `isActive` is carried but never consulted by the page. */
  datatype Portal = Portal(userId: string, memorialName: string, memorialQuote: Option<string>, isActive: bool)

  /** A shared memory. `createdDay` stands for `created_at` as an abstract
      day number. */
  datatype LegacyMemory = LegacyMemory(
    id: string,
    title: string,
    content: Option<string>,
    emotion: Option<string>,
    tags: Option<seq<string>>,
    createdDay: int,
    kind: string)

  /** What the portal lookup may return: a list of rows or a single value
      (a row or nothing). */
  datatype PortalData = RowList(rows: seq<Portal>) | SingleRow(row: Option<Portal>)

  datatype PortalReply = PortalFailed(portalError: string) | PortalOk(data: PortalData)

  datatype MemoriesReply = MemoriesFailed(memoriesError: string) | MemoriesOk(rows: seq<LegacyMemory>)

  /** The page's state: the token box, the portal shown, its memories and the
      loading flag. */
  datatype LegacyPage = LegacyPage(token: string, portal: Option<Portal>, memories: seq<LegacyMemory>, loading: bool)

  const InitialPage := LegacyPage("", None, [], false)

  /** The portal row in a lookup reply: the first element of a list (none for
      an empty list), otherwise the value itself. */
  function PortalRow(d: PortalData): (r: Option<Portal>)
    ensures d.RowList? ==> (r.Some? <==> d.rows != []) && (r.Some? ==> r.value == d.rows[0])
    ensures d.SingleRow? ==> r == d.row
  {
    match d
    case RowList(rows) => if rows == [] then None else Some(rows[0])
    case SingleRow(row) => row
  }

  /** `loadPortal` as written. A failed lookup leaves portal and memories as
      they were; a lookup without a row clears both without consulting the
      memories reply; a row is shown at once and the memories are replaced
      only if their listing succeeds. Loading always ends. */
  function LoadPortalAsWritten(s: LegacyPage, pr: PortalReply, mr: MemoriesReply): (r: LegacyPage)
    ensures !r.loading && r.token == s.token
    ensures pr.PortalFailed? ==> r.portal == s.portal && r.memories == s.memories
    ensures pr.PortalOk? && PortalRow(pr.data).None? ==> r.portal == None && r.memories == []
    ensures pr.PortalOk? && PortalRow(pr.data).Some? ==>
              && r.portal == PortalRow(pr.data)
              && r.memories == if mr.MemoriesOk? then mr.rows else s.memories
  {
    match pr
    case PortalFailed(_) => s.(loading := false)
    case PortalOk(data) =>
      match PortalRow(data)
      case None => s.(portal := None, memories := [], loading := false)
      case Some(row) =>
        match mr
        case MemoriesFailed(_) => s.(portal := Some(row), loading := false)
        case MemoriesOk(rows) => s.(portal := Some(row), memories := rows, loading := false)
  }

  /** As written, a failed memories listing after a successful lookup of a
      different portal shows the new portal beside the previous portal's
      memories. */
  lemma StaleMemoriesAsWritten()
    ensures var portalA := Portal("a", "A", None, true);
            var portalB := Portal("b", "B", None, true);
            var m := LegacyMemory("1", "from A", None, None, None, 0, "memory");
            var s := LegacyPage("tokenB", Some(portalA), [m], false);
            var r := LoadPortalAsWritten(s, PortalOk(SingleRow(Some(portalB))), MemoriesFailed("timeout"));
            r.portal == Some(portalB) && r.memories == [m]
  {
  }

  /** `loadPortal` with the memories of a newly shown portal always coming from
      that portal's own listing: a failed listing shows no memories rather
      than the previous portal's. Otherwise as written. */
  function LoadPortal(s: LegacyPage, pr: PortalReply, mr: MemoriesReply): (r: LegacyPage)
    ensures !r.loading && r.token == s.token
    ensures pr.PortalFailed? ==> r.portal == s.portal && r.memories == s.memories
    ensures pr.PortalOk? && PortalRow(pr.data).None? ==> r.portal == None && r.memories == []
    ensures pr.PortalOk? && PortalRow(pr.data).Some? ==>
              && r.portal == PortalRow(pr.data)
              && r.memories == if mr.MemoriesOk? then mr.rows else []
  {
    var r := LoadPortalAsWritten(s, pr, mr);
    if pr.PortalOk? && PortalRow(pr.data).Some? && mr.MemoriesFailed? then r.(memories := []) else r
  }

  /** After any load the memories shown belong to the portal shown: either the
      lookup failed and nothing changed, or they are exactly what the listing
      returned for the row now shown, or there are none. */
  lemma MemoriesMatchPortal(s: LegacyPage, pr: PortalReply, mr: MemoriesReply)
    ensures var r := LoadPortal(s, pr, mr);
            || (r.portal == s.portal && r.memories == s.memories)
            || r.memories == []
            || (mr.MemoriesOk? && r.memories == mr.rows && r.portal == PortalRow(pr.data))
  {
  }

  /** Without a portal row the memories reply is never consulted: the outcome
      is the same whatever it would have been, as written and corrected. */
  lemma NoRowIgnoresMemories(s: LegacyPage, pr: PortalReply, mr1: MemoriesReply, mr2: MemoriesReply)
    requires pr.PortalOk? && PortalRow(pr.data).None?
    ensures LoadPortalAsWritten(s, pr, mr1) == LoadPortalAsWritten(s, pr, mr2)
    ensures LoadPortal(s, pr, mr1) == LoadPortal(s, pr, mr2)
  {
  }

  /** A failed lookup never consults the memories reply either, and only
      ends loading. */
  lemma FailedLookupIgnoresMemories(s: LegacyPage, e: string, mr1: MemoriesReply, mr2: MemoriesReply)
    ensures LoadPortalAsWritten(s, PortalFailed(e), mr1) == LoadPortalAsWritten(s, PortalFailed(e), mr2) == s.(loading := false)
    ensures LoadPortal(s, PortalFailed(e), mr1) == LoadPortal(s, PortalFailed(e), mr2) == s.(loading := false)
  {
  }

  /** The page does not check `isActive`: an inactive row is shown like any
      other. */
  lemma InactiveRowIsShown(s: LegacyPage, p: Portal, mr: MemoriesReply)
    requires !p.isActive
    ensures LoadPortalAsWritten(s, PortalOk(SingleRow(Some(p))), mr).portal == Some(p)
    ensures LoadPortal(s, PortalOk(SingleRow(Some(p))), mr).portal == Some(p)
  {
  }

  /** The Load button is enabled iff a token is entered and no load is under
      way. */
  predicate CanLoad(s: LegacyPage)
  {
    s.token != "" && !s.loading
  }

  /** Pressing Load, as written: a disabled button does nothing; an enabled
      one runs `loadPortal` on the token in the box. */
  function PressLoad(s: LegacyPage, pr: PortalReply, mr: MemoriesReply): (r: LegacyPage)
    ensures !CanLoad(s) ==> r == s
    ensures CanLoad(s) ==> r == LoadPortalAsWritten(s, pr, mr)
  {
    if CanLoad(s) then LoadPortalAsWritten(s, pr, mr) else s
  }

  /** Pressing Load with the corrected `loadPortal`. */
  function PressLoadCorrected(s: LegacyPage, pr: PortalReply, mr: MemoriesReply): (r: LegacyPage)
    ensures !CanLoad(s) ==> r == s
    ensures CanLoad(s) ==> r == LoadPortal(s, pr, mr)
  {
    if CanLoad(s) then LoadPortal(s, pr, mr) else s
  }

  /** The page as written and the corrected page differ exactly on the stale
      case: an enabled press finds a row, its listing fails, and memories of
      an earlier portal are on screen. */
  lemma PressLoadDiffersOnlyWhenStale(s: LegacyPage, pr: PortalReply, mr: MemoriesReply)
    ensures PressLoad(s, pr, mr) != PressLoadCorrected(s, pr, mr) <==>
              CanLoad(s) && pr.PortalOk? && PortalRow(pr.data).Some? && mr.MemoriesFailed? && s.memories != []
  {
  }

  /** Pressing Load again with the same replies changes nothing more: the
      button is enabled again after a load, and the second load reproduces
      the first one's outcome. */
  lemma PressLoadTwiceIsOnce(s: LegacyPage, pr: PortalReply, mr: MemoriesReply)
    ensures PressLoad(PressLoad(s, pr, mr), pr, mr) == PressLoad(s, pr, mr)
  {
  }

  /** Opening the page, as written: the `token` query parameter ("" when
      absent) fills the token box, and a non-empty one is loaded at once. */
  function Open(param: string, pr: PortalReply, mr: MemoriesReply): (r: LegacyPage)
    ensures r.token == param && !r.loading
    ensures param == "" ==> r == InitialPage
    ensures param != "" ==> r == LoadPortalAsWritten(InitialPage.(token := param), pr, mr)
  {
    var s := InitialPage.(token := param);
    if param != "" then LoadPortalAsWritten(s, pr, mr) else s
  }

  /** On opening there are no earlier memories, so the stale case cannot
      arise: the page as written already shows only the memories listed for
      the portal shown, and agrees with the corrected load. */
  lemma OpenShowsOwnMemories(param: string, pr: PortalReply, mr: MemoriesReply)
    ensures var r := Open(param, pr, mr);
            r.memories == [] || (mr.MemoriesOk? && r.memories == mr.rows && r.portal == PortalRow(pr.data))
    ensures param != "" ==> Open(param, pr, mr) == LoadPortal(InitialPage.(token := param), pr, mr)
  {
  }

  function CreatedDay(m: LegacyMemory): int
  {
    m.createdDay
  }

  /** `grouped`: the memories by day, newest first, input order kept inside
      a day, every memory in exactly one group. */
  function Grouped(s: LegacyPage): (gs: seq<Group<LegacyMemory>>)
    ensures forall i, j :: 0 <= i < j < |gs| ==> gs[i].day > gs[j].day
    ensures forall i :: 0 <= i < |gs| ==>
              gs[i].items != [] && gs[i].items == OnDay(s.memories, CreatedDay, gs[i].day)
    ensures multiset(Flatten(gs)) == multiset(s.memories)
    ensures gs == [] <==> s.memories == []
  {
    GroupingIsPermutation(s.memories, CreatedDay);
    GroupByDay(s.memories, CreatedDay)
  }

  /** "No public legacy memories yet." is shown for a found portal exactly when
      the listing returned no memories. */
  lemma EmptyNoticeIffNoMemories(s: LegacyPage, pr: PortalReply, rows: seq<LegacyMemory>)
    requires pr.PortalOk? && PortalRow(pr.data).Some?
    ensures var r := LoadPortalAsWritten(s, pr, MemoriesOk(rows));
            r.portal.Some? && (Grouped(r) == [] <==> rows == [])
    ensures var r := LoadPortal(s, pr, MemoriesOk(rows));
            r.portal.Some? && (Grouped(r) == [] <==> rows == [])
  {
  }
}
