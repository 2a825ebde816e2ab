# Availability ledger of bm-matches, in Dafny

bm-matches is a small team-scheduling app. A roster of players is kept, along with a list of
upcoming matches. Each match carries a map from player id to that player's answer: `IN`,
`OUT`, or no answer yet (null). This project models the part of the app that keeps that
ledger right:

- **Retention policy.** A match is kept only while its calendar day is today or later. See
  `Dates`, and `LocalStorage`, where the browser's stored match list is a field of the
  `Storage` class.
- **Browser ledger** (`MatchManager`). Every match's map is reconciled with the roster.
  Matches can be added, re-dated and deleted, and one status can be set or cleared. All lists
  are kept sorted by date.
- **Match card** (`MatchCard`). The IN/OUT toggle, the in/out/pending grouping, and the
  11-player threshold.
- **Input checks** (`Validation`, with the form classes `AddPlayerForm`, `PlayerList` and
  `AddMatchForm`). Names are trimmed, empty names are refused, and duplicates are refused up
  to letter case. Match dates must be present and not already taken.
- **Roster screen** (`PlayerManager`). Add, rename, delete and search.
- **Server side** (`Db`, `MatchesApi`, `PlayersApi`). The Postgres tables are maps keyed as
  the tables are keyed:
  - players and matches by id;
  - availability records by the (match, player) pair.

  On top of them sit the server rules: the formatting of query rows into availability maps,
  duplicate-date refusal, placeholder records that never overwrite, delete-on-null /
  upsert-otherwise, and the deletion of past matches.
- **The browser API client's** post-fetch sort (`ClientApi`).

The following are parameters:
- "Now": an `Instant`, i.e. a day number plus milliseconds into the day. On the server it is
  `today`, a day number for `CURRENT_DATE`.
- Generated ids and timestamps.
- The answer to a confirmation prompt.

React callbacks become method results; for example, `HandleSubmit` returns the name that
`onAddPlayer` receives.

Browser dates are strings. `Dates.ParseDate` reads exactly `YYYY-MM-DD` naming a real calendar
date; anything else, including the empty string used for a missing date, is invalid. Sorting
by date uses the parsed instant as key, and invalid dates sort first.

## Model

| member | source | states |
|---|---|---|
| Dates.GetTodayAtMidnight | bm-matches/src/utils/localStorage.js:11-15 | the result is the same day as `now` with the time of day zeroed, and lies at most one day before `now` (the server's copy in `api/db.js`, lines 7-11, is the same) |
| Dates.IsFutureOrToday | bm-matches/src/utils/localStorage.js:22-36 | true iff the date parses and its day is today's day or later; an unparseable date gives false (the copies in `src/utils/api.js`, lines 179-190, and `api/db.js`, lines 14-24, behave the same) |
| Dates.TimeOfDayIgnored | bm-matches/src/utils/localStorage.js:22-31 | two instants on the same day give the same answer for every date, in this copy and in the server's |
| Dates.TodayKeptYesterdayNot | bm-matches/src/utils/localStorage.js:25-31 | a match dated today is kept whatever the time of day; one dated yesterday never is, in this copy and in the server's |
| Dates.ParseDate | bm-matches/src/utils/localStorage.js:25 | a string parses iff it is `YYYY-MM-DD` naming a real Gregorian day, and then gives midnight of that day's number; the empty (missing) date does not parse |
| Dates.DaysWithinMonth | bm-matches/src/utils/localStorage.js:25 | within a month the day number grows by one per day |
| Dates.NextMonthFollows | bm-matches/src/utils/localStorage.js:25 | the 1st of every month is one day after the last day of the month before, 29 February included in leap years |
| Dates.NextYearFollows | bm-matches/src/utils/localStorage.js:25 | 1 January is one day after the 31 December before it |
| Dates.MarchYearLength | bm-matches/src/utils/localStorage.js:25 | the year up to 1 March of `y` has 366 days iff `y` is a Gregorian leap year, and 365 otherwise |
| Dates.CalendarOrder | bm-matches/src/utils/localStorage.js:25-31 | for valid dates, one day number is below another iff its date is earlier in the calendar, and they are equal iff the dates are the same |
| Dates.ParsedDayOrder | bm-matches/src/utils/localStorage.js:25-31 | for two strings that parse, the first names an earlier day iff it sorts first as a string, and the same day iff the strings are equal |
| Dates.LaterDateTextAlsoKept | bm-matches/src/utils/localStorage.js:22-36 | a well-formed date whose text sorts after a kept date's text is kept as well |
| Dates.EpochParses | bm-matches/src/utils/localStorage.js:25 | "1970-01-01" parses to day 0 at midnight |
| LocalStorage.FilterPastMatches | bm-matches/src/utils/localStorage.js:43-57 | a non-array gives []; otherwise a match is in the result iff it is a non-null entry with a non-empty date that is today or later (the API client's copy in `src/utils/api.js`, lines 197-207, is the same filter) |
| LocalStorage.FilterPastMatchesSelects | bm-matches/src/utils/localStorage.js:48-56 | the result is the subsequence, in input order, at exactly the positions of the retained entries |
| LocalStorage.FilterPastMatchesOfMatches | bm-matches/src/utils/localStorage.js:48-56 | on a list without nulls the filter is the plain filter by "has a date that is today or later" |
| LocalStorage.SavedIsRetained | bm-matches/src/utils/localStorage.js:132-142 | `saveMatches` stores exactly the retained matches in order, so no stored entry is past or null |
| LocalStorage.FutureMatchesAfterSave | bm-matches/src/utils/localStorage.js:122-138 | reading back with `getFutureMatches` on the same day gives the retained part of what was saved |
| LocalStorage.CleanupSplits | bm-matches/src/utils/localStorage.js:64-76 | cleanup returns the past matches; kept plus removed sizes add up to the list; storage is written only when something was removed, and then holds the kept part |
| LocalStorage.CleanupKeepsVisible | bm-matches/src/utils/localStorage.js:64-81 | cleanup never changes which matches `getFutureMatches` returns |
| LocalStorage.CleanupIdempotent | bm-matches/src/utils/localStorage.js:66-76 | a second cleanup on the same day returns [] and writes nothing |
| LocalStorage.Storage.GetFutureMatches | bm-matches/src/utils/localStorage.js:122-125 | returns the filter of the stored value, and every returned match is retained |
| LocalStorage.Storage.SaveMatches | bm-matches/src/utils/localStorage.js:132-142 | the stored match list becomes the retained part of the argument; players are untouched |
| LocalStorage.Storage.CleanupPastMatches | bm-matches/src/utils/localStorage.js:64-81 | the new stored value and the result are what `CleanupResult` gives for the old stored value, including the caught error for a non-array or a null entry |
| LocalStorage.Storage.GetMatches | bm-matches/src/utils/localStorage.js:107-115 | returns the stored value |
| LocalStorage.Storage.GetPlayers | bm-matches/src/utils/localStorage.js:84-92 | returns the stored players |
| LocalStorage.Storage.SavePlayers | bm-matches/src/utils/localStorage.js:94-100 | the stored players become the argument |
| Ledger.Reconciled | bm-matches/src/components/MatchManager/MatchManager.jsx:71-84 | the keys are exactly the roster ids, and each keeps the status it had (null if it was missing) |
| Ledger.ReconciledUnchangedIff | bm-matches/src/components/MatchManager/MatchManager.jsx:71-84 | reconciling returns the map unchanged iff its keys already are the roster ids |
| Ledger.ReconciledIdempotent | bm-matches/src/components/MatchManager/MatchManager.jsx:71-84 | reconciling twice is reconciling once |
| Ledger.WithStatus | bm-matches/src/components/MatchManager/MatchManager.jsx:134-139 | afterwards the player's status is the given one, the key exists iff the status is not null, and every other key is as before |
| Ledger.WithStatusLastWins | bm-matches/src/components/MatchManager/MatchManager.jsx:134-139 | of two status writes for the same player, the last wins |
| Ledger.SortByDate | bm-matches/src/components/MatchManager/MatchManager.jsx:121-123 | the result is a permutation of the input, sorted ascending by date, and matches with the same date key keep their input order |
| Sorting.SortStable | bm-matches/src/components/MatchManager/MatchManager.jsx:121-123 | for every key, the elements with that key appear in the sorted list in their input order, as `Array.prototype.sort` guarantees |
| MatchManager.ReconcileAvailability | bm-matches/src/components/MatchManager/MatchManager.jsx:71-84 | the add-missing loop followed by the delete-others loop computes `Reconciled` for the roster's ids |
| MatchManager.InitialAvailability | bm-matches/src/components/MatchManager/MatchManager.jsx:115-118 | a new match's map has one null entry per roster player and nothing else |
| MatchManager.ReconcileAllMatchesRoster | bm-matches/src/components/MatchManager/MatchManager.jsx:70-88 | after reconciliation every match's keys are the roster ids; roster players keep their status; id, date and creation time are unchanged |
| MatchManager.ReconcileAllUnchangedIff | bm-matches/src/components/MatchManager/MatchManager.jsx:90-102 | the list is unchanged iff every match already has exactly the roster's keys |
| MatchManager.ChangedIff | bm-matches/src/components/MatchManager/MatchManager.jsx:91-97 | comparing maps position by position detects exactly whether reconciliation changed the list |
| MatchManager.MatchManager.ReconcileWithRoster | bm-matches/src/components/MatchManager/MatchManager.jsx:67-105 | the state becomes the reconciled list; storage is written, with the retained part, only if the list changed; players are untouched |
| MatchManager.MatchManager.Mount | bm-matches/src/components/MatchManager/MatchManager.jsx:12-25 | storage is cleaned, and the state becomes the retained stored matches sorted by date |
| MatchManager.MatchManager.CheckForPastMatches | bm-matches/src/components/MatchManager/MatchManager.jsx:32-53 | storage is cleaned; the state is reloaded and sorted only if cleanup removed something |
| MatchManager.MatchManager.AddMatch | bm-matches/src/components/MatchManager/MatchManager.jsx:107-129 | the state is the old matches plus the new one (null for every player), as a permutation sorted by date; storage gets its retained part |
| MatchManager.SetStatusInChangesOnlyTarget | bm-matches/src/components/MatchManager/MatchManager.jsx:131-146 | only the given player's entry in the matches with that id changes: null removes the key, a status sets it |
| MatchManager.MatchManager.UpdateAvailability | bm-matches/src/components/MatchManager/MatchManager.jsx:131-152 | the state is the list with that status set or cleared; storage gets its retained part |
| MatchManager.WithDateChangesOnlyDate | bm-matches/src/components/MatchManager/MatchManager.jsx:155-163 | editing changes only the date of the matches with that id |
| MatchManager.MatchManager.EditMatch | bm-matches/src/components/MatchManager/MatchManager.jsx:154-180 | storage gets the retained part of the re-dated, re-sorted list; the state is that retained part, sorted, with only retained matches |
| MatchManager.DeleteRemovesExactly | bm-matches/src/components/MatchManager/MatchManager.jsx:182-183 | deleting removes exactly the matches with that id and keeps the rest in their order |
| MatchManager.MatchManager.DeleteMatch | bm-matches/src/components/MatchManager/MatchManager.jsx:182-188 | the state is the list without that id; storage gets its retained part |
| MatchCard.ToggledStatus | bm-matches/src/components/MatchManager/MatchCard.jsx:12-16 | the new status is null or the clicked one, and null exactly when the clicked status is the current one |
| MatchCard.ClickSelectsOrClears | bm-matches/src/components/MatchManager/MatchCard.jsx:12-16 | a click clears an already selected status, otherwise selects it, and leaves other players alone |
| MatchCard.ClickTwice | bm-matches/src/components/MatchManager/MatchCard.jsx:12-16 | two clicks on the same button restore whether that status is selected |
| MatchCard.Summarize | bm-matches/src/components/MatchManager/MatchCard.jsx:47-70 | the three lists are the players with status IN, OUT and anything else, in roster order, and each counter is its list's length |
| MatchCard.GroupsAddUp | bm-matches/src/components/MatchManager/MatchCard.jsx:48-70 | in + out + not responded equals the number of players |
| MatchCard.EachPlayerInOneGroup | bm-matches/src/components/MatchManager/MatchCard.jsx:58-69 | a player is in IN iff its status is IN, in OUT iff OUT, in not-responded iff null or missing, and in exactly one group |
| MatchCard.InCount | bm-matches/src/components/MatchManager/MatchCard.jsx:58-61 | the `stats.in` counter counts exactly the players the IN group lists |
| MatchCard.Indicators | bm-matches/src/components/MatchManager/MatchCard.jsx:166-259 | the "Confirmed" badge shows iff at least `REQUIRED_PLAYERS` (11) players are IN; the warning (lines 254-259) sits inside the details (line 201), so it shows iff the details are open and fewer than 11 are IN, and never with the badge |
| MatchCard.ClickInKeepsBadge | bm-matches/src/components/MatchManager/MatchCard.jsx:12-16 | clicking IN for a player who is not IN never takes the "Confirmed" badge away |
| MatchCard.ClickOutNeverConfirms | bm-matches/src/components/MatchManager/MatchCard.jsx:12-16 | clicking OUT never makes the "Confirmed" badge appear |
| Text.Trim | bm-matches/src/components/PlayerManager/AddPlayerForm.jsx:11 | `trim` leaves no whitespace at either end and never lengthens the string |
| Text.TrimIsInfix | bm-matches/src/components/PlayerManager/AddPlayerForm.jsx:11 | the trimmed name is an infix of the input, and everything cut off either side is whitespace |
| Text.TrimEmptyIffBlank | bm-matches/src/components/PlayerManager/AddPlayerForm.jsx:11-14 | the trimmed name is empty iff the input is all whitespace |
| Text.TrimIdempotent | bm-matches/src/components/PlayerManager/PlayerList.jsx:22 | trimming an already trimmed name changes nothing |
| Text.ToLower | bm-matches/src/components/PlayerManager/AddPlayerForm.jsx:21 | `toLowerCase` keeps the length and leaves no upper-case ASCII letter |
| Text.ToLowerIdempotent | bm-matches/src/components/PlayerManager/PlayerManager.jsx:51 | lower-casing twice is lower-casing once |
| Validation.NameTaken | bm-matches/src/components/PlayerManager/AddPlayerForm.jsx:20-22 | true iff some player other than the excluded one has the name up to letter case |
| Validation.ValidateName | bm-matches/src/components/PlayerManager/AddPlayerForm.jsx:11-30 | accepted iff the trimmed input is non-empty and no other player's untrimmed name equals it up to case; an accepted name is the trimmed input; the empty-name message appears iff the input is all whitespace |
| Validation.AcceptedNameIsTrimmed | bm-matches/src/components/PlayerManager/AddPlayerForm.jsx:11-17 | an accepted name is non-empty and has no whitespace at either end |
| Validation.ValidateIgnoresSurroundingWhitespace | bm-matches/src/components/PlayerManager/AddPlayerForm.jsx:11 | whitespace around the input never changes the verdict |
| Validation.ExistingNamesNotTrimmed | bm-matches/src/components/PlayerManager/AddPlayerForm.jsx:20-22 | existing names are compared untrimmed: "Bob " does not block "Bob" |
| Validation.ExcludingSelfOnlyWidens | bm-matches/src/components/PlayerManager/PlayerList.jsx:30-34 | leaving the renamed player out of the duplicate test never refuses a name the add check accepts |
| Validation.OwnCaseVariant | bm-matches/src/components/PlayerManager/PlayerList.jsx:30-39 | with distinct names, renaming a player to a case variant of its own name is accepted, while adding it is refused as a duplicate |
| Validation.DateTaken | bm-matches/src/components/MatchManager/AddMatchForm.jsx:17-19 | true iff some match has exactly that date string |
| Validation.ValidateMatchDate | bm-matches/src/components/MatchManager/AddMatchForm.jsx:11-28 | accepted iff the date is non-empty and no match has it; the message is the missing-date one for an empty date, otherwise the duplicate one |
| Validation.AcceptedDateKeepsDatesDistinct | bm-matches/src/components/MatchManager/AddMatchForm.jsx:17-28 | appending a match whose date was accepted keeps match dates pairwise different |
| AddPlayerForm.AddPlayerForm.HandleSubmit | bm-matches/src/components/PlayerManager/AddPlayerForm.jsx:7-32 | an accepted submit yields the trimmed name and clears input and error; a rejected one yields nothing, keeps the input and shows the message |
| AddPlayerForm.AddPlayerForm.Type | bm-matches/src/components/PlayerManager/AddPlayerForm.jsx:40-43 | typing stores the text and clears the error |
| PlayerList.PlayerList.StartEdit | bm-matches/src/components/PlayerManager/PlayerList.jsx:8-12 | opens the player's row with its id and current name and no error |
| PlayerList.PlayerList.CancelEdit | bm-matches/src/components/PlayerManager/PlayerList.jsx:14-18 | resets id, text and error, and yields no rename |
| PlayerList.PlayerList.Type | bm-matches/src/components/PlayerManager/PlayerList.jsx:66-69 | typing stores the text and clears the error |
| PlayerList.PlayerList.SaveEdit | bm-matches/src/components/PlayerManager/PlayerList.jsx:20-45 | an accepted rename (self excluded) yields the trimmed name and resets the edit state; a rejected one yields nothing and keeps the row open with the message |
| AddMatchForm.AddMatchForm.HandleSubmit | bm-matches/src/components/MatchManager/AddMatchForm.jsx:7-29 | an accepted submit yields the date and clears input and error; a rejected one yields nothing, keeps the date and shows the message |
| AddMatchForm.AddMatchForm.Pick | bm-matches/src/components/MatchManager/AddMatchForm.jsx:40-43 | picking stores the date and clears the error |
| PlayerManager.RenamedChangesOnlyName | bm-matches/src/components/PlayerManager/PlayerManager.jsx:33-36 | only the name of the players with that id changes; ids, order, length and the id set stay |
| PlayerManager.WithoutRemovesExactly | bm-matches/src/components/PlayerManager/PlayerManager.jsx:41-43 | deleting keeps, in order, exactly the players without that id |
| PlayerManager.SearchSelects | bm-matches/src/components/PlayerManager/PlayerManager.jsx:50-52 | the search keeps, in order, exactly the players whose lower-cased name includes the lower-cased query |
| PlayerManager.EmptyQueryKeepsEveryone | bm-matches/src/components/PlayerManager/PlayerManager.jsx:50-52 | an empty query shows every player |
| PlayerManager.SearchIgnoresQueryCase | bm-matches/src/components/PlayerManager/PlayerManager.jsx:50-52 | the letter case of the query does not change the results |
| PlayerManager.AddKeepsNamesDistinct | bm-matches/src/components/PlayerManager/PlayerManager.jsx:23-30 | adding a name accepted against the whole roster keeps names distinct up to case |
| PlayerManager.RenameKeepsNamesDistinct | bm-matches/src/components/PlayerManager/PlayerManager.jsx:33-38 | with distinct ids, renaming to a name accepted against the whole roster keeps names distinct up to case |
| PlayerManager.PlayerManager.AddPlayer | bm-matches/src/components/PlayerManager/PlayerManager.jsx:23-31 | the state is the old list plus one player with the given name, and the same list is persisted |
| PlayerManager.PlayerManager.EditPlayer | bm-matches/src/components/PlayerManager/PlayerManager.jsx:33-39 | the state is the renamed list, and the same list is persisted |
| PlayerManager.PlayerManager.DeletePlayer | bm-matches/src/components/PlayerManager/PlayerManager.jsx:41-47 | a confirmed delete removes that id and persists the list; an unconfirmed one changes nothing |
| PlayerManager.PlayerManager.Search | bm-matches/src/components/PlayerManager/PlayerManager.jsx:62 | typing in the search box sets the query and leaves the roster alone |
| PlayerManager.PlayerManager.FilteredPlayers | bm-matches/src/components/PlayerManager/PlayerManager.jsx:50-52 | returns the search results for the current query, all drawn from the roster |
| PlayerManager.PlayerManager.Mount | bm-matches/src/components/PlayerManager/PlayerManager.jsx:11-14 | the state becomes the stored roster |
| PlayerManager.PlayerManager.SubmitNewPlayer | bm-matches/src/components/PlayerManager/PlayerManager.jsx:67 | the add form is checked against the whole roster and then the player is added; distinct names stay distinct |
| PlayerManager.PlayerManager.SubmitRename | bm-matches/src/components/PlayerManager/PlayerManager.jsx:68-71 | the rename is checked against the whole roster and then applied; distinct names stay distinct |
| PlayerManager.AsWrittenRenameCreatesDuplicate | bm-matches/src/components/PlayerManager/PlayerManager.jsx:68-70 | with the search results as the list to check, a rename can create two players with the same name |
| ClientApi.ReceivedMatches | bm-matches/src/utils/api.js:60-68 | a failed request gives []; otherwise a permutation of the fetched list, sorted by date, with matches of equal date in the order received |
| ClientApi.ReceivedSortedListUnchanged | bm-matches/src/utils/api.js:62-64 | a list already in date order comes back unchanged |
| Db.OrderBy | bm-matches/api/lib/players.js:10 | `ORDER BY`: every key once, in ascending rank; the same holds for `ORDER BY m.match_date ASC` in `api/lib/matches.js`, line 23 |
| Db.HasLeast | bm-matches/api/lib/players.js:10 | every non-empty ranked set has a least-ranked key, so ordering always makes progress |
| Db.Database.InsertPlaceholder | bm-matches/api/lib/matches.js:86-90 | a NULL record is added for the pair only if it has none |
| Db.Database.InsertPlaceholders | bm-matches/api/lib/matches.js:84-93 | one placeholder insert per pair gives `WithPlaceholders` of the set of pairs |
| Db.PlaceholdersNeverOverwrite | bm-matches/api/lib/matches.js:89 | placeholders add a NULL record for each new pair and never change an existing one |
| Db.PlaceholdersIdempotent | bm-matches/api/lib/players.js:84 | repeating the placeholder inserts changes nothing |
| Db.PlaceholdersCompose | bm-matches/api/lib/matches.js:84-93 | placeholder inserts for two sets of pairs, one after the other, are the inserts for their union |
| MatchesApi.AvailabilityOf | bm-matches/api/lib/matches.js:31-37 | the keys are exactly the player ids of items that are non-null with a non-empty id |
| MatchesApi.AvailabilityOfLastWins | bm-matches/api/lib/matches.js:32-35 | a counted item not overridden later gives its player's status |
| MatchesApi.FormatAvailability | bm-matches/api/lib/matches.js:28-37 | the loop builds `AvailabilityOf` of the aggregate, or {} when the aggregate is null |
| MatchesApi.FormatMatch | bm-matches/api/lib/matches.js:39-44 | `id`, `match_date` and `created_at` become `matchId`, `matchDate` and `createdAt`, with the formatted availability |
| MatchesApi.Aggregate | bm-matches/api/lib/matches.js:13-20 | the aggregate lists every record of the match once, with its status |
| MatchesApi.FormattedIsRecorded | bm-matches/api/lib/matches.js:13-37 | formatting such an aggregate gives exactly the match's recorded availability |
| MatchesApi.GetMatches | bm-matches/api/lib/matches.js:5-52 | exactly the matches dated today or later, each once, in ascending date order, each with its renamed fields and recorded availability |
| MatchesApi.RethrownMessage | bm-matches/api/lib/matches.js:105-108 | a message including "relation" or "does not exist" becomes the "tables not found" message; any other passes unchanged |
| MatchesApi.RethrownMessageIdempotent | bm-matches/api/lib/matches.js:105-108 | rewriting twice is rewriting once |
| MatchesApi.DuplicateDateMessagePassesThrough | bm-matches/api/lib/matches.js:63 | the duplicate-date message is not rewritten |
| MatchesApi.CreateMatch | bm-matches/api/lib/matches.js:55-110 | a taken date fails with the duplicate-date message and nothing is written; otherwise one match row is added, every player gets a NULL placeholder without overwriting, and the result has an empty map |
| MatchesApi.CreatedMatchAllPending | bm-matches/api/lib/matches.js:80-101 | a new match shows every player (with a non-empty id) as not responded |
| MatchesApi.UpdateMatch | bm-matches/api/lib/matches.js:113-126 | only the date of that match row changes |
| MatchesApi.DeleteMatch | bm-matches/api/lib/matches.js:129-141 | only that match row is removed |
| MatchesApi.UpdateAvailability | bm-matches/api/lib/matches.js:144-169 | null deletes the pair's record; a status upserts it, one record per pair |
| MatchesApi.WithRecordIsWithStatus | bm-matches/api/lib/matches.js:148-161 | the server edit changes the match's shown map exactly as the browser's `handleUpdateAvailability` does |
| MatchesApi.WithRecordKeepsOtherMatches | bm-matches/api/lib/matches.js:148-161 | no other match's shown map changes |
| MatchesApi.CleanupPastMatches | bm-matches/api/lib/matches.js:172-185 | exactly the matches dated before today are deleted, and the count is their number |
| MatchesApi.CleanupIsComplementOfShown | bm-matches/api/lib/matches.js:174-180 | the deleted and the shown matches split the table; what remains is what `getMatches` shows |
| PlayersApi.GetPlayers | bm-matches/api/lib/players.js:5-21 | every player row once, projected to id and name, in ascending creation time |
| PlayersApi.CreatePlayer | bm-matches/api/lib/players.js:24-38 | one row with the given name is added and returned with its id |
| PlayersApi.UpdatePlayer | bm-matches/api/lib/players.js:41-54 | only the name of that row changes |
| PlayersApi.DeletePlayer | bm-matches/api/lib/players.js:57-69 | only that row is removed |
| PlayersApi.InitializePlayerAvailability | bm-matches/api/lib/players.js:72-96 | a NULL placeholder is inserted for the player in every match dated today or later, never overwriting |
| PlayersApi.InitializeCoversUpcomingOnly | bm-matches/api/lib/players.js:74-86 | afterwards every upcoming match has a record for the player; past matches gain none; existing records are unchanged |

## Left out

- Time zones: `new Date('YYYY-MM-DD')` parses as UTC while `setHours` works in local time, so the effective day can shift. Dates are whole days here.
- Other date formats: `Dates.ParseDate` accepts only `YYYY-MM-DD`. Other strings that `Date` would accept count as invalid.
- Server date format: on the server, dates are day numbers. The client receives whatever text form the database driver produces, and `ClientApi.ReceivedMatches` sorts it with the same key as everywhere else.
- Sorting invalid dates: the comparator `new Date(a) - new Date(b)` returns NaN for an invalid date, and the resulting order depends on the engine. `Ledger.SortByDate` puts invalid dates first, in their original order.
- A JSON `null` match date is not modelled. A missing date is the empty string.
- Reading storage: `JSON.parse` failure and the key being absent are not modelled apart from `[]`. The stored value is either not an array or an array of possibly-null matches.
- LocalStorage.Storage.SaveMatches: the source catches a failing `setItem` (quota exceeded, storage disabled) and only logs it, leaving the old list stored. The model assumes every write succeeds, so it cannot express `handleEditMatch` showing the old list after a failed save.
- LocalStorage.Storage.SavePlayers: a failing `setItem` is likewise only logged, and the old roster stays stored. The model assumes the write succeeds.
- Text: `trim` uses the ECMAScript whitespace set. `toLowerCase` is modelled for ASCII letters only; other Unicode case mappings are not modelled.
- Id generation from `Date.now()` and `Math.random()`: ids are parameters, and freshness is a precondition of `MatchesApi.CreateMatch` and `PlayersApi.CreatePlayer`.
- The surrogate `id` column of `player_availability` is not modelled, and neither is `updated_at` on a conflicting placeholder.
- Timers and focus events that trigger cleanup are not modelled. `CheckForPastMatches` is the body they run.
- React state scheduling and rendering are not modelled, nor the `maxLength` and `min` input attributes.
- The MatchCard date-edit handlers (start, cancel, save with "Please select a date") are not modelled. They only forward to `handleEditMatch`, which is modelled.
- `window.confirm` becomes the `confirmed` parameter of `PlayerManager.PlayerManager.DeletePlayer`.
- Presentational components (`AvailabilityToggle.jsx`, `MatchList.jsx`, `PlayerAvailabilityRow.jsx`, `App.jsx`) are not modelled, nor progress percentages or locale date formatting.
- HTTP handlers, CORS, status codes, `parseBody` and the `fetch` wrappers are not modelled.
- SQL syntax, foreign keys and any cascades belong to a schema that is not part of this model. `DeleteMatch` and `DeletePlayer` claim nothing about availability records.
- `MatchesApi.UpdateAvailability`: statuses are limited to IN, OUT and null. The handler passes any string through unchecked.
- `MatchesApi.CreateMatch`: the "Failed to create match" branch is not modelled, because an insert with `RETURNING` always returns its row. A database error is modelled only on the first statement, through `dbError`, and `createdAt` is always `now`.
- `Promise.all` fan-out: the placeholder inserts run one after another here, with no partial failure.
- `json_agg` item order is left unspecified. `MatchesApi.Aggregate` picks any order, and the formatted map does not depend on it.
- Errors from the other API operations (`getMatches`, `updateMatch`, …) are rethrown unchanged and are not modelled.
- The `JSON.stringify` change check in reconciliation is modelled as map equality. That is the same test here, because reconciliation copies the map and keeps the order of existing keys.

## Findings

| source | as written | input that shows it | evidently intended | confidence | as-written member | corrected member |
|---|---|---|---|---|---|---|
| bm-matches/src/components/PlayerManager/PlayerManager.jsx:68-70 | The list component receives `filteredPlayers`, so the rename duplicate check sees only the players the current search shows. | Players "A" (id a) and "B" (id b). Search "A", then rename "A" to "B": accepted, leaving two players named "B". | Renames are checked against the whole roster, as the add form is (line 67), so names stay distinct up to case. | medium, not executed | PlayerManager.AsWrittenRenameCreatesDuplicate | PlayerManager.PlayerManager.SubmitRename |
