# mind-memory-weave page logic in Dafny

This project models the small pieces of sequential logic inside the pages of
the "digital memory" web front end. They are:

- the **timeline query engine**: search and tag filtering, the tag list,
  tag toggling, and grouping by day with the newest day first;
- the **add-a-thought form**: a duplicate-free tag editor, a three-way
  emotion selector and the record toggle;
- the **chat page**: a keyword classifier choosing one of four canned
  replies, and an append-only message log;
- the **voice recorder**: a three-field state machine;
- the **legacy portal**: the load decision over the two remote replies,
  and the same day grouping.

Everything is immutable datatypes plus pure functions. Page events are
state-transition functions, and lemmas carry the invariants over any
sequence of events. Dates are abstract integer day keys, where a larger key
means a later day.

Modules:

- `Options`: the optional-value datatype.
- `Text`: lower-casing, substring search (`includes`) and `trim`.
- `Lists`: filter, removal, the de-duplication done by
  `Array.from(new Set(..))`, and `flatMap`.
- `Grouping`: group-by-day, newest first.
- `Timeline`, `AddThought`, `Chat`, `VoiceRecorder`, `Legacy`: one module per page.

## Model

| member | source | states |
|---|---|---|
| Text.Contains | src/pages/Timeline.tsx:107-108 | `includes` is true exactly when the needle occurs at some index of the haystack as a contiguous block |
| Text.ContainsEmpty | src/pages/Timeline.tsx:106-108 | every string includes the empty string |
| Text.Lower | src/pages/Timeline.tsx:107-108 | `toLowerCase` restricted to ASCII: the length is kept, no letter A-Z is left, each of A-Z becomes its lower-case partner a-z, and every other character is kept |
| Text.LowerIdempotent | src/pages/Timeline.tsx:107-108 | lower-casing an already lower-cased string changes nothing |
| Text.LowerSlice | src/pages/Timeline.tsx:107-108 | lower-casing a slice is slicing the lower-cased string |
| Text.LowerKeepsContains | src/pages/Timeline.tsx:107-108 | an exact occurrence is still found once both sides are lower-cased |
| Text.TrimStart | src/pages/AddThought.tsx:29 | the result is a suffix of the input, only whitespace was dropped, and the result does not start with whitespace |
| Text.TrimEnd | src/pages/AddThought.tsx:29 | the result is a prefix of the input, only whitespace was dropped, and the result does not end with whitespace |
| Text.Trim | src/pages/AddThought.tsx:29 | the result is no longer than the input and neither starts nor ends with whitespace |
| Text.TrimSplits | src/pages/AddThought.tsx:29 | the input is whitespace, then the trimmed result, then whitespace |
| Text.TrimFixedIffTrimmed | src/pages/AddThought.tsx:29 | `trim()` leaves a string unchanged exactly when it has no whitespace at either end |
| Text.TrimEmptyIffBlank | src/pages/Chat.tsx:44 | `trim()` is empty exactly when the input is all whitespace, which is the blank-input guard |
| Text.TrimIdempotent | src/pages/AddThought.tsx:29-30 | trimming a trimmed tag changes nothing |
| Lists.Filter | src/pages/Timeline.tsx:105 | `filter` keeps exactly the elements that satisfy the predicate, in input order |
| Lists.FilterCount | src/pages/Timeline.tsx:105 | `filter` keeps every satisfying element as many times as it occurs and drops every other |
| Lists.FilterMonotone | src/pages/Timeline.tsx:110-111 | a weaker predicate keeps, in order, everything a stronger one keeps |
| Lists.RemoveAll | src/pages/AddThought.tsx:36 | `filter(t => t !== x)` removes every copy of x and keeps the others in order, with their multiplicities; the result stays duplicate-free |
| Lists.RemoveAllAppended | src/pages/Timeline.tsx:118-120 | removing a value just appended to a list that lacked it gives the list back |
| Lists.Dedup | src/pages/Timeline.tsx:78 | `Array.from(new Set(xs))` has no duplicates, the same members as xs, and lists them in first-occurrence order |
| Lists.FlatMap | src/pages/Timeline.tsx:78 | `flatMap` contains exactly the elements of the mapped sub-lists |
| Grouping.GroupByDay | src/pages/Timeline.tsx:124-138 | groups are non-empty, strictly newest day first, each holds exactly that day's items in input order, every item's day has a group, and there are no groups iff there are no items |
| Grouping.MemberInExactlyOneGroup | src/pages/Timeline.tsx:131-134 | every item is in exactly one group, the group of its own day |
| Grouping.GroupingIsPermutation | src/pages/Timeline.tsx:125-136 | the groups' items, read in order, are a rearrangement of the input: nothing lost, nothing duplicated |
| Grouping.GroupingIdempotent | src/pages/Timeline.tsx:124-138 | grouping the flattened groups again yields the same groups |
| Grouping.DescendingUnique | src/pages/Timeline.tsx:138 | the sort order is fixed by the set of days: two newest-first lists of the same days are equal |
| Timeline.MatchesSearch | src/pages/Timeline.tsx:106-108 | the empty query matches every memory, and a query found verbatim in the content or the title matches |
| Timeline.MatchesTags | src/pages/Timeline.tsx:110-111 | with no tag selected every memory matches; a memory carrying any selected tag matches; with a selection, an untagged memory never matches |
| Timeline.FilterMemories | src/pages/Timeline.tsx:105-114 | the result is exactly the memories that pass both the search and the tag predicate, with multiplicities, in input order |
| Timeline.NoCriteriaShowsAll | src/pages/Timeline.tsx:105-114 | with an empty query and no selected tag, every memory is shown unchanged |
| Timeline.SearchIsSubstringMatch | src/pages/Timeline.tsx:106-108 | a memory passes the search iff the lower-cased query occurs in the lower-cased content or title; the empty-query shortcut changes nothing |
| Timeline.SearchIsCaseInsensitive | src/pages/Timeline.tsx:106-108 | queries that differ only in letter case select the same memories |
| Timeline.TagSelectionIsUnion | src/pages/Timeline.tsx:110-111 | selected tags combine with OR: two non-empty selections together show what either shows |
| Timeline.ExtraTagKeepsResults | src/pages/Timeline.tsx:110-111 | once a tag is selected, selecting one more never hides a memory, and the order is kept |
| Timeline.FirstTagCanNarrow | src/pages/Timeline.tsx:110-111 | selecting the first tag can hide a memory, e.g. one without tags |
| Timeline.AllTags | src/pages/Timeline.tsx:78 | `allTags` has every tag of every memory, no duplicates, in first-appearance order |
| Timeline.ToggleTag | src/pages/Timeline.tsx:116-121 | a selected tag is deselected, every copy of it removed and the rest kept in order; an unselected tag is appended; other tags keep their membership; no duplicates are introduced |
| Timeline.ToggleAbsentTwiceRestores | src/pages/Timeline.tsx:116-121 | toggling an unselected tag twice restores the selection exactly |
| Timeline.TogglePresentTwiceMovesToEnd | src/pages/Timeline.tsx:116-121 | toggling a selected tag twice restores which tags are selected, but moves the tag to the end |
| Timeline.SelectionStaysDuplicateFree | src/pages/Timeline.tsx:116-121 | under any sequence of query edits, tag clicks and "Clear Filters", the selection never holds a tag twice |
| Timeline.Step | src/pages/Timeline.tsx:182-207 | typing a query (182) changes only the query; clicking a tag (196) flips whether it is selected and leaves the other tags' selection alone; "Clear Filters" (207) empties the selection and keeps the query; no event introduces a duplicate |
| Timeline.GroupedMemories | src/pages/Timeline.tsx:124-141 | the displayed groups are newest first and non-empty; each holds exactly the filtered memories of its day, in input order; every passing memory is shown, each as often as it occurs in the input and failing ones never |
| Timeline.GroupsOfFiltered | src/pages/Timeline.tsx:141 | grouping the filtered memories keeps each group a subsequence of all memories and shows every filtered memory |
| Timeline.EmptyStateIffNoMatch | src/pages/Timeline.tsx:228-232 | "No memories found" is shown iff no memory passes the filter |
| AddThought.AddTag | src/pages/AddThought.tsx:28-33 | the trimmed text is appended iff it is non-blank and not yet a tag, and the box is then cleared; otherwise nothing changes; no duplicates are introduced |
| AddThought.RemoveTag | src/pages/AddThought.tsx:35-37 | every copy of the tag is removed, other tags keep order and multiplicity, and the rest of the form is unchanged |
| AddThought.SuggestTag | src/pages/AddThought.tsx:220-224 | the suggested tag, untrimmed, is appended only if absent; the tag box and the rest of the form are unchanged |
| AddThought.PressEmotion | src/pages/AddThought.tsx:150-173 | the result is no emotion or the pressed one, and it is no emotion iff the pressed one was already selected |
| AddThought.PressTwiceRestores | src/pages/AddThought.tsx:153 | pressing a button twice restores the prior choice when that choice was nothing or the same emotion |
| AddThought.PressTwiceFromOtherClears | src/pages/AddThought.tsx:150-173 | when another emotion was chosen, pressing a button twice leaves no emotion, not the prior one |
| AddThought.SelectEmotion | src/pages/AddThought.tsx:150-173 | an emotion click changes only the emotion: it clears it iff that emotion was selected, and otherwise selects it |
| AddThought.ToggleRecording | src/pages/AddThought.tsx:124 | the record button flips `isRecording` and changes nothing else |
| AddThought.SuggestedTagsTrimmed | src/pages/AddThought.tsx:215 | the suggested tags are non-empty and have no surrounding whitespace, so trimming leaves them unchanged |
| AddThought.AppendWellFormed | src/pages/AddThought.tsx:30 | appending a fresh, non-empty, trimmed tag keeps the tag list well formed |
| AddThought.AddKeepsTagsWellFormed | src/pages/AddThought.tsx:28-33 | adding from the tag box keeps the tags distinct, non-empty and trimmed |
| AddThought.SuggestKeepsTagsWellFormed | src/pages/AddThought.tsx:220-224 | clicking a suggested badge keeps the tags distinct, non-empty and trimmed |
| AddThought.RemoveKeepsTagsWellFormed | src/pages/AddThought.tsx:35-37 | removing a tag keeps the tags distinct, non-empty and trimmed |
| AddThought.StepKeepsTagsWellFormed | src/pages/AddThought.tsx:28-37 | each form event keeps the tags distinct, non-empty and trimmed |
| AddThought.Step | src/pages/AddThought.tsx:124-221 | each form event touches only its own field: title and content never change; typing in the tag box (188) sets it; the tags change only on add (192), remove (205) and suggest (221); the emotion only on an emotion click (153-169); the recording flag flips exactly on a record press (124); no event introduces a duplicate tag |
| AddThought.TagsStayWellFormed | src/pages/AddThought.tsx:28-37 | under any sequence of typing, adding, suggesting, removing, emotion clicks and record presses, the tags stay distinct, non-empty and trimmed |
| AddThought.FromInitialTagsWellFormed | src/pages/AddThought.tsx:23-37 | starting from the empty tag list, no sequence of form events produces a duplicate tag |
| Chat.Classify | src/pages/Chat.tsx:66-77 | the bucket is Fear iff the lower-cased question contains "fear"; otherwise Parenting iff it contains "child" or "parenting"; otherwise Growth iff it contains "lesson" or "learn"; otherwise General |
| Chat.GenerateResponse | src/pages/Chat.tsx:66-77 | a question mentioning "fear" gets the fear reply; otherwise one mentioning "child" or "parenting" the parenting reply; otherwise one mentioning "lesson" or "learn" the growth reply; any other the general reply |
| Chat.ReplyIgnoresCase | src/pages/Chat.tsx:66-77 | questions that differ only in letter case get the same reply |
| Chat.RepliesDistinct | src/pages/Chat.tsx:68-76 | the four replies differ, so a reply identifies its bucket |
| Chat.FearWins | src/pages/Chat.tsx:68-69 | any question containing "fear" gets the fear reply, whatever else it contains |
| Chat.FirstSuggestionGetsFearReply | src/pages/Chat.tsx:35 | "What do I believe about fear?", in any letter case, gets the fear reply |
| Chat.CanSend | src/pages/Chat.tsx:216-220 | the send button is enabled exactly when the input has a character that is not whitespace |
| Chat.Send | src/pages/Chat.tsx:43-64 | a blank input changes nothing; otherwise the untrimmed user message with id len+1 and the brain reply with id len+2 and the two fixed sources are appended after the unchanged log, and the input is cleared |
| Chat.SendAppendsExchange | src/pages/Chat.tsx:46-62 | a non-blank send appends the user's question and the reply to it, numbered next |
| Chat.SendActsIffEnabled | src/pages/Chat.tsx:216-220 | sending changes the page iff the send button is enabled |
| Chat.SendOnlyAppends | src/pages/Chat.tsx:43-64 | a send, blank or not, never rewrites the log: the old log is a prefix of the new one |
| Chat.Step | src/pages/Chat.tsx:142-218 | typing or clicking a suggested question (142, 213) changes only the input box; sending (218) changes the page exactly when the send button is enabled; no event rewrites the log |
| Chat.AppendExchange | src/pages/Chat.tsx:62 | appending a question and its answer, numbered next, keeps the log well formed |
| Chat.SendKeepsLogWellFormed | src/pages/Chat.tsx:43-64 | a send keeps the log as greeting, then question-answer pairs, with ids 1..n |
| Chat.IdsIncrease | src/pages/Chat.tsx:46-55 | in a well-formed log, ids are distinct and increasing |
| Chat.ShowSuggestions | src/pages/Chat.tsx:129 | the suggested questions are shown while the log holds a single message |
| Chat.SuggestionsIffNoQuestion | src/pages/Chat.tsx:129 | the suggested questions are shown iff no user message is in the log |
| Chat.StepAppendOnly | src/pages/Chat.tsx:43-64 | typing or sending keeps the log well formed and only appends to it |
| Chat.LogAppendOnly | src/pages/Chat.tsx:62 | under any events the log only grows at its end and stays well formed |
| Chat.ReachableLogsWellFormed | src/pages/Chat.tsx:25-32 | every log reachable from the greeting is well formed, and once hidden the suggestions never return |
| VoiceRecorder.Toggle | src/pages/VoiceRecorder.tsx:21-34 | stopping gives (false, true, mock text); starting gives (true, false, "") |
| VoiceRecorder.Discard | src/pages/VoiceRecorder.tsx:41-45 | discarding gives (false, false, "") from any state |
| VoiceRecorder.EditTranscription | src/pages/VoiceRecorder.tsx:144-151 | the transcription can be edited only while a recording is held |
| VoiceRecorder.DiscardIdempotent | src/pages/VoiceRecorder.tsx:16-18 | discarding twice is discarding once, which is the initial state |
| VoiceRecorder.PhaseDeterminesState | src/pages/VoiceRecorder.tsx:16-45 | in a reachable state, ready means the initial state and recording means (true, false, "") |
| VoiceRecorder.ToggleCycle | src/pages/VoiceRecorder.tsx:164 | the toggle cycles ready, recording, review, recording; "Record Again" starts a fresh recording and clears the old transcription |
| VoiceRecorder.Step | src/pages/VoiceRecorder.tsx:21-45 | every event keeps the state consistent |
| VoiceRecorder.ReachableConsistent | src/pages/VoiceRecorder.tsx:21-45 | after any events it never records while holding a recording, and the transcription is empty while recording |
| VoiceRecorder.FromInitialConsistent | src/pages/VoiceRecorder.tsx:16-18 | every state reachable from the initial one is consistent |
| Legacy.PortalRow | src/pages/Legacy.tsx:45 | an array reply yields its first element (none if empty); any other reply is the row itself |
| Legacy.LoadPortalAsWritten | src/pages/Legacy.tsx:39-62 | lookup error: portal and memories unchanged; no row: both cleared; row: shown, and memories replaced only on a successful listing; loading always ends false |
| Legacy.StaleMemoriesAsWritten | src/pages/Legacy.tsx:52-58 | as written, a new portal can be shown beside the previous portal's memories |
| Legacy.LoadPortal | src/pages/Legacy.tsx:39-62 | as written, except that a failed listing after a found row shows no memories |
| Legacy.MemoriesMatchPortal | src/pages/Legacy.tsx:52-58 | after a load, the memories shown are unchanged with the portal, empty, or exactly the listing for the row shown |
| Legacy.NoRowIgnoresMemories | src/pages/Legacy.tsx:46-51 | without a portal row the memories reply is not consulted, as written and corrected |
| Legacy.FailedLookupIgnoresMemories | src/pages/Legacy.tsx:42-44 | a failed lookup keeps portal and memories and only ends loading, as written and corrected |
| Legacy.InactiveRowIsShown | src/pages/Legacy.tsx:45-52 | a row with `is_active` false is shown like any other, as written and corrected |
| Legacy.CanLoad | src/pages/Legacy.tsx:116 | the Load button is enabled iff a token is entered and no load is under way |
| Legacy.PressLoad | src/pages/Legacy.tsx:116 | a disabled Load does nothing; an enabled one is the load as written on the token in the box |
| Legacy.PressLoadCorrected | src/pages/Legacy.tsx:116 | the same button over the corrected load |
| Legacy.PressLoadDiffersOnlyWhenStale | src/pages/Legacy.tsx:52-58 | the page as written and the corrected page differ exactly when an enabled press finds a row, its listing fails, and earlier memories are on screen |
| Legacy.PressLoadTwiceIsOnce | src/pages/Legacy.tsx:116 | pressing Load again with the same replies changes nothing more |
| Legacy.Open | src/pages/Legacy.tsx:64-71 | opening the page fills the token box from the query parameter; an empty one leaves the initial page, a non-empty one is loaded as written |
| Legacy.OpenShowsOwnMemories | src/pages/Legacy.tsx:64-71 | on opening no earlier memories exist, so the page shows none or exactly the listing for the portal shown, and agrees with the corrected load |
| Legacy.Grouped | src/pages/Legacy.tsx:73-83 | the groups are newest first and non-empty; each holds exactly that day's memories in order; together they are a rearrangement of the memories; there are none iff there are no memories |
| Legacy.EmptyNoticeIffNoMemories | src/pages/Legacy.tsx:137-141 | for a found portal, "No public legacy memories yet." is shown iff the listing returned none, as written and corrected |

## Findings

| source | as written | input that shows it | evidently intended | confidence | as-written member | corrected member |
|---|---|---|---|---|---|---|
| src/pages/Legacy.tsx:52-58 | `setPortal(portalRow)` runs before the memories listing. When that listing fails, `memories` keeps its previous value. | The page shows portal A with memory m. Loading token B returns row B, then the listing fails. Result: portal B beside memory m of A. | The memories shown belong to the portal shown, so there are none when its listing fails. | medium, not executed | Legacy.LoadPortalAsWritten | Legacy.LoadPortal |

`Legacy.StaleMemoriesAsWritten` exhibits the input above against the code as
written; `Legacy.MemoriesMatchPortal` proves the intended property of the
corrected `Legacy.LoadPortal`. The page operations `Legacy.PressLoad` and
`Legacy.Open` follow the code as written; `Legacy.PressLoadCorrected` is the
Load button over the corrected load, and `Legacy.PressLoadDiffersOnlyWhenStale`
shows that the two pages differ exactly on the input above. Opening the page
cannot hit the defect, since no earlier memories exist then
(`Legacy.OpenShowsOwnMemories`).

## Notes on behaviour

- The emotion buttons act like radio buttons that can be cleared.
  Pressing the same button twice restores the earlier choice only if that
  choice was nothing or the same emotion. From Happy, two presses of Calm
  leave no emotion (`PressTwiceFromOtherClears`).
- Tag selection on the timeline is an inclusive OR. Adding a tag never hides
  a memory once some tag is selected. The first selected tag does narrow the
  list (`FirstTagCanNarrow`).
- Toggling a selected tag twice does not restore the list order. The tag
  moves to the end.
- The legacy page never checks `is_active`. It shows whatever row the
  lookup returns, and leaves inactive portals to the remote procedure. The
  model follows the code (`InactiveRowIsShown`).
- Chat citations are the same two fixed strings for every reply, whatever the
  question. The model follows the code.
- The timeline sorts groups by re-parsing their date labels. Different days
  have different labels, so this is a strict newest-first order on day keys.
  The model sorts the day keys. The legacy page does the same with labels in
  the browser's default locale (see `Legacy.Grouped` under "Left out").

## Left out

- Rendering, styling, icons, and the colour/icon lookups (`getEmotionIcon`,
  `getTypeColor`, `getEmotionColor`): presentation only.
- The hard-coded sample memories of the timeline: the memory list is a parameter.
- `Date` parsing and `toLocaleDateString`/`toLocaleTimeString` formatting:
  these depend on locale and timezone. For example, "2025-01-15" is parsed as
  UTC midnight and can show as the 14th locally. Days are abstract integer keys.
- Message timestamps (`new Date()`).
- Legacy.Grouped: the newest-first order assumes that each date label parses
  back to its day. The labels come from `toLocaleDateString(undefined, ..)`
  in the browser's default locale (Legacy.tsx:76), and the sort re-parses
  them with `new Date(label)` (Legacy.tsx:82). In a locale whose long dates
  `Date` cannot parse, every comparison is NaN and the order is whatever the
  sort leaves. The model sorts the day keys.
- Text.Lower: maps only the ASCII letters A-Z. JavaScript's `toLowerCase` also lowers other capitals ('É' to 'é') and can lengthen a string ('İ' becomes two code units). So the query "é" finds "École" on the page but not in the model. The gap carries into `Timeline.MatchesSearch`, `Chat.Classify` and `Chat.GenerateResponse`, which lower-case through `Text.Lower`.
- SearchIsCaseInsensitive: lower-casing maps only the ASCII letters A-Z, not the full Unicode `toLowerCase`.
- ReplyIgnoresCase: the same ASCII-only lower-casing applies to the chat classifier.
- The remote procedures `get_legacy_portal` and `get_legacy_memories`: their
  replies are inputs. A listing that returns no data and no error makes the
  page fail while grouping. That case is not modelled: a successful reply
  always carries a list.
- Asynchrony: a load runs to completion in one step. The moment between
  showing the new portal and receiving its memories is not modelled, nor are
  overlapping loads. The `loading` flag is kept only for the Load button's rule.
- React's stale closure in `handleSendMessage`: ids come from the captured
  log. Two sends before a re-render are not modelled; sends are sequential.
- Toasts, `navigate` (including "Save as Thought"), `setParams`, and
  `document.title`.
- The keyboard handlers: Enter runs the same add or send operation. Clicking
  a suggested chat question puts it in the input box, which is a `Type` event.
- The plain title and content text fields of the add-a-thought form. The
  "Save to Brain" button has no handler.
- Authentication, profile, dashboard, welcome page and heir access panel:
  static markup, or calls into a remote client whose behaviour is not visible.
