# voids-discord-bot: the verified core

A Dafny model of the table logic and pure helpers behind a community Discord
bot and its web dashboard. The bot runs art challenges: a moderator starts a
challenge, and members submit an image while it is in "Submissions". The
finalized entries of a challenge in "Voting" are then ranked by 👍
reactions, and the challenge is closed. Moderators also keep a list of
predefined warnings and issue them to members. A forum monitor posts new
Steam discussions to Discord. The dashboard edits the bot's `.env` file and
shows challenges and audit logs.

The model keeps every table as a Dafny value, and the commands are operations
on it:

- **Challenge commands.** `ChallengeDatabase.Database` is a class over the
  `challenges` and `submissions` tables. Its methods cover:
  - start, submit, update, delete challenge and delete submission;
  - end voting and stop voting;
  - the dashboard's soft delete and insert.
- **Warning commands.** `Warnings.WarningStore` is a class over
  `predefined_warnings` and `warnings`. Its methods are warn, add, edit,
  delete, clear and list.
- **Forum monitor.** `ForumMonitor.Monitor` holds the set of known links and
  the first-run flag.

Each table class keeps an invariant, `Valid()`: primary keys are unique and
below the next auto-increment value, and each member has at most one
submission per challenge. Every method keeps it, each method being taken
as one atomic step (see "Left out").

The pure parts are datatypes, functions and lemmas over them:

- the vote tally and stable ranking;
- the reminder schedule;
- the SET-clause construction and field labels of the update command;
- warning pagination and truncation;
- the Steam text helpers (`cleanHtml`, `decodeHtml`, `parseTimeAgo`,
  `getMonthNumber`);
- the `.env` parser and updater;
- the dashboard helpers.

Everything outside the tables is a parameter of the operation that depends on
it:

- **Discord:**
  - the member's role ids, as a set, and the MODERATOR_ROLE_ID setting, as
    text;
  - whether a thread could be created or fetched;
  - whether posts and direct messages went through;
  - what each submission's message fetch showed.
- **Clock:** the current instant and the parsed close time, as integer
  milliseconds.
- **Files:** the `.env` file's text, or None when it cannot be read, and
  whether the write succeeds.
- **Scraping:** the topics scraped off the Steam page.

Two moderator checks occur in the code, and the model keeps them apart:

- `Roles.HasListedRole`: the comma-split setting, where any one listed role
  suffices.
- `Roles.HasRole`: the whole setting taken as one role id.

A `LIMIT 1` query returns the first matching row in table order (`Seqs.FirstIndex`).

## Model

| member | source | states |
|---|---|---|
| Roles.ListedRoleIff | commands/startchallenge.js:88-96 | for a setting that is a comma-joined list of ids, the list check admits exactly the members holding one of the listed roles |
| Roles.SingleIdChecksAgree | commands/endvoting.js:12-18 | with one id configured, the single-id check and the list check agree |
| Roles.SingleIdCheckRejectsLists | commands/deletesubmission.js:19-26 | a setting listing two or more ids rejects every member under the single-id check |
| Reminders.Schedule | commands/startchallenge.js:16-20 | every scheduled timer has a strictly positive delay and fires at `now + delay`; there are at most as many as offsets |
| Reminders.ScheduledIffFuture | commands/startchallenge.js:17-20 | the timer of an offset is scheduled iff the offset is listed and `closeTime - offset > now` |
| Reminders.ScheduledFromOffset | commands/startchallenge.js:9-21 | every scheduled timer fires at `closeTime` minus one listed offset and carries that offset's message |
| Reminders.ScheduleIncreasing | commands/startchallenge.js:9-20 | offsets in decreasing order give timers in increasing order of fire instant |
| Reminders.NamesDistinct | commands/startchallenge.js:9-14 | the four reminder messages differ |
| Reminders.ScheduledIff | commands/startchallenge.js:9-20 | for each of the four offsets, a reminder with its message is scheduled iff its fire instant is still in the future; an elapsed offset is dropped, not fired at once |
| Reminders.FireInstants | commands/startchallenge.js:9-21 | at most four reminders, each firing at close minus 24h, 6h, 1h or 30m whatever `now` is, in strictly increasing order, so each offset at most once |
| Reminders.TwoHoursBeforeClose | commands/startchallenge.js:16-20 | a close two hours away schedules exactly the 1 hour and 30 minutes reminders, with delays of 1h and 1.5h |
| ChallengeTables.OrDefault | commands/startchallenge.js:114-115 | `value \|\| fallback` on text: the fallback when the value is empty, the value itself otherwise |
| ChallengeTables.OptionOrDefault | commands/submit.js:26 | an absent or empty option gives the fallback, a non-empty one is kept |
| ChallengeTables.OfChallenge | commands/stopvoting.js:37-40 | the query returns exactly the submissions of that challenge |
| ChallengeTables.Finalized | commands/endvoting.js:51-54 | the query returns exactly the submissions of that challenge with `submitted = 1` |
| ChallengeTables.WithoutChallenge | commands/deletechallenge.js:58-61 | the delete keeps exactly the challenges with another id |
| ChallengeTables.WithoutEntriesOf | commands/deletechallenge.js:63-66 | the delete keeps exactly the submissions of other challenges |
| ChallengeTables.WithoutSubmission | commands/deletesubmission.js:43 | the delete keeps exactly the submissions with another id |
| ChallengeTables.CascadeKeepsWellFormed | commands/deletechallenge.js:58-66 | the cascade delete keeps the table invariant |
| ChallengeTables.SubmissionDeleteKeepsWellFormed | commands/deletesubmission.js:43 | deleting one submission keeps the table invariant |
| ChallengeTables.RowUpdateKeepsWellFormed | commands/endvoting.js:103 | rewriting one challenge row without changing its id keeps the table invariant |
| ChallengeTables.AppendOpenKeepsOne | commands/startchallenge.js:106-112 | appending an open challenge keeps at most one open iff none was open, so the start guard is what keeps that property |
| ChallengeDatabase.Database.StartChallenge | commands/startchallenge.js:88-176 | a non-moderator, an existing "Submissions" challenge, or a failed thread creation leaves the tables unchanged; a challenge in "Voting" does not block. Otherwise exactly one row is appended: state "Submissions", active 1, the given times and thread, empty theme and description defaulted. Reminders are scheduled only on success; at most one challenge stays open |
| ChallengeDatabase.Database.Submit | commands/submit.js:24-115 | a missing image or content type, or a type outside the four allowed, is refused before any table access. No "Submissions" challenge writes nothing. An existing unfinalized entry is updated in place; a finalized one is refused unchanged; otherwise one row with `submitted = 0` is appended. A missing description defaults. The challenges are never touched, and no (member, challenge) pair ever appears twice |
| ChallengeUpdates.CollectUpdates | commands/updatechallenge.js:63-69 | the loop yields the updates of `Collected`, the specification of the `forEach` |
| ChallengeUpdates.CollectedExactly | commands/updatechallenge.js:63-69 | an update is collected exactly for each examined field whose option is truthy, with that option's value, and the columns keep the fields' order |
| ChallengeUpdates.CollectedKeysDistinct | commands/updatechallenge.js:64-69 | no column occurs twice among the updates |
| ChallengeUpdates.CollectedAppend | commands/updatechallenge.js:66-69 | examining more fields appends their updates |
| ChallengeUpdates.Columns | commands/updatechallenge.js:79 | the updated columns, one per update, in order |
| ChallengeUpdates.Keys | commands/updatechallenge.js:79 | `Object.keys(updates)`: each update's column name, in order |
| ChallengeUpdates.Values | commands/updatechallenge.js:82 | `Object.values(updates)`: each update's value, in order |
| ChallengeUpdates.BoundValues | commands/updatechallenge.js:82 | the bound values are the update values followed by the id |
| ChallengeUpdates.SetClausePlaceholders | commands/updatechallenge.js:79-81 | the SET clause holds one placeholder per key |
| ChallengeUpdates.QueryPlaceholders | commands/updatechallenge.js:86 | the statement adds the one placeholder of the WHERE clause |
| ChallengeUpdates.PlaceholdersMatchValues | commands/updatechallenge.js:79-88 | for every combination of options, the statement's placeholders and its bound values agree in number |
| ChallengeUpdates.Lookup | commands/updatechallenge.js:91 | the value given for a column, if any: found only when an update of that column is present |
| ChallengeUpdates.AppliedKeepsIdentity | commands/updatechallenge.js:85-88 | the UPDATE never changes the id, thread, state or active flag |
| ChallengeUpdates.AppliedChangesOnlyListed | commands/updatechallenge.js:85-88 | with distinct keys, each listed column takes its new value and every other column keeps its own |
| ChallengeUpdates.UpdatedRow | commands/updatechallenge.js:63-88 | after the command's UPDATE, a column has the option's value when that option is truthy and its old value otherwise; the identity columns are unchanged |
| ChallengeUpdates.RenameIffTheme | commands/updatechallenge.js:91-100 | the thread is renamed iff the theme option is truthy |
| ChallengeUpdates.CapitalizeWordsShape | commands/updatechallenge.js:110 | `replace(/\b\w/g, toUpperCase)`: the text is kept up to ASCII case, only the first character of each word may change, and no word starts with a lower-case letter |
| ChallengeUpdates.FieldLabelShape | commands/updatechallenge.js:110 | the label of a key, stated against the key: same length, no underscore, and each underscore a space. The first letter or digit of each word is upper-cased, and every other character is kept as it is |
| ChallengeUpdates.FieldLabelsOfFields | commands/updatechallenge.js:64 | the five labels are "Theme", "Description", "Submissions Close", "Voting Begins" and "Voting Ends" |
| ChallengeUpdates.LabelOfOneWord | commands/updatechallenge.js:110 | a lower-case word is labelled with its first letter capitalised |
| ChallengeUpdates.LabelOfTwoWords | commands/updatechallenge.js:110 | `a_b` is labelled `A B` |
| ChallengeDatabase.Database.UpdateChallenge | commands/updatechallenge.js:28-100 | a non-moderator, an id naming no challenge in "Submissions", or no truthy option leaves the table unchanged. Otherwise exactly that row takes the collected updates. The rename is attempted iff the theme is among them, and the update stands whether or not the posts go through |
| ChallengeDatabase.Database.DeleteChallenge | commands/deletechallenge.js:13-84 | a non-moderator or an unknown id deletes nothing. Otherwise the row, in any state, and all of its submissions are removed and nothing else is. The thread delete is attempted exactly when the thread id is truthy, and its failure does not stop the deletes |
| ChallengeDatabase.Database.DeleteSubmission | commands/deletesubmission.js:16-85 | a member without the single moderator role, or an unknown id, deletes nothing. Otherwise exactly the rows with that id are removed, whatever their state. A direct message is attempted only when notifyuser is true, and the delete stands either way |
| VoteTally.Votes | commands/endvoting.js:63-64 | with a 👍 reaction the votes are its count minus one; without one they are 0 |
| VoteTally.TallyEntries | commands/endvoting.js:59-69 | the tally holds exactly the fetched submissions with their votes; a failed fetch is left out, not counted as 0 |
| VoteTally.TallyAllFetched | commands/stopvoting.js:59-80 | when every fetch succeeds, every submission is tallied |
| VoteTally.MisKeyedTally | commands/stopvoting.js:59-80 | under the mis-encoded reaction key of stopvoting.js:69, the tally is exactly the fetched submissions in query order, each with 0 votes |
| VoteTally.UnvotedIsRanked | commands/stopvoting.js:83 | sorting entries that all have 0 votes leaves them in query order |
| VoteTally.StopVotingPlacesFirstFetched | commands/stopvoting.js:59-86 | `/stopvoting` places the first min(3, n) of its n fetched submissions, in query order, each with 0 votes, whatever reactions the messages carry |
| VoteTally.CollectVotes | commands/endvoting.js:59-69 | the loop yields the tally of `Tally`, its specification |
| VoteTally.TopThree | commands/endvoting.js:85-93 | at most three entries, numbered 1..k from the front of the ranking |
| VoteTally.ResultsAreTopThree | commands/endvoting.js:71-93 | the results are ranks 1..k, where k = min(3, number tallied), in non-increasing order of votes; no tallied entry left out has more votes than a placed one; the ranking is a permutation of the tally |
| VoteTally.RankIsStable | commands/stopvoting.js:83 | among entries with equal votes, the ranking keeps the query order |
| VoteTally.ThreeSubmissionsExample | commands/endvoting.js:59-93 | three submissions with 4, 6 and 2 👍 reactions place the second first with 5 votes, then the first with 3, then the third with 1 |
| VoteTally.FailedFetchExample | commands/endvoting.js:66-68 | when the third fetch fails, only the other two are placed |
| Ranking.Insert | commands/endvoting.js:71 | insertion adds exactly one element and keeps the others |
| Ranking.SortDesc | commands/endvoting.js:71 | the sort is a permutation of its input |
| Ranking.SortDescOrders | commands/endvoting.js:71 | the sorted list is in non-increasing order of the key |
| Ranking.SortDescStable | commands/stopvoting.js:83 | elements with the same key keep their input order (a stable sort) |
| Ranking.Take | commands/stopvoting.js:86 | `slice(0, n)`: the first min(n, length) elements |
| ChallengeDatabase.Database.EndVoting | commands/endvoting.js:15-103 | a member without the single moderator role, no challenge in "Voting", an unreachable thread, or no finalized submission changes nothing. Otherwise the results are the top three finalized entries. Only after the posts does that challenge alone become "Closed" with active 0 |
| ChallengeDatabase.Database.StopVoting | commands/stopvoting.js:17-109 | the target is the first challenge with active = 1; none, or one with no submissions at all, changes nothing. A failed notice in the challenge channel, sent before the tally, stops the command with no results. Otherwise every submission is tallied, whatever its submitted flag, with no reaction ever found, so the results are `Results` under `MisKeyed` (see `VoteTally.StopVotingPlacesFirstFetched`). After the audit post only its active flag becomes 0, and its state is kept |
| ChallengeApi.Status | pages/api/challenges.js:22 | "Inactive" when active is 0; otherwise the stored state, or "Submissions" when that is empty |
| ChallengeApi.Project | pages/api/challenges.js:16-25 | each listed element carries the row's id and theme, its status, the raw `active` column kept by the spread, `isActive` iff active is non-zero, and the close time or the current time when that is empty |
| ChallengeApi.List | pages/api/challenges.js:15-25 | one listed element per row |
| ChallengeApi.ListedByIdDescending | pages/api/challenges.js:15-17 | with unique ids the listing is in strictly decreasing id order |
| ChallengeApi.ListedIsTable | pages/api/challenges.js:15-25 | every row is listed, and every listed element is the projection of a row |
| ChallengeApi.Deactivated | pages/api/challenges.js:33-36 | the soft delete keeps every row |
| ChallengeApi.DeactivatedListing | pages/api/challenges.js:29-36 | no row is removed: the row with that id is listed as "Inactive" and changes only its active flag, and every other row is unchanged |
| ChallengeApi.CreateCanOpenSecond | pages/api/challenges.js:50-53 | the dashboard insert does not look for an open challenge: on a table with one, it leaves two open |
| ChallengeDatabase.Database.Deactivate | pages/api/challenges.js:29-36 | the table becomes `Deactivated` of the id read from the request |
| ChallengeDatabase.Database.Create | pages/api/challenges.js:46-53 | one row in "Submissions", active 1, no thread, is appended under the next id |
| WarningTables.LookupText | commands/warn.js:57-61 | the lookup finds a row only when the typed id is a decimal numeral equal to that row's id; otherwise no row has that id |
| WarningTables.ContextOrNull | commands/warn.js:27 | an absent or empty context is stored as null, and any other is kept |
| WarningTables.Described | commands/editwarning.js:52-55 | the update keeps every row's id, changes the description of the rows with that id and leaves the others alone |
| WarningTables.DescribedIsPointUpdate | commands/editwarning.js:40-55 | with unique ids the update changes exactly the row the lookup found |
| WarningTables.DescribedKeepsWellFormed | commands/editwarning.js:52-55 | the description update keeps the table invariant |
| WarningTables.WithoutPredefined | commands/deletewarning.js:39 | the delete keeps exactly the rows with another id |
| WarningTables.DeletedCountIffPresent | commands/deletewarning.js:39-41 | the delete reports affected rows exactly when the table holds the id |
| WarningTables.DeleteOfPresentIdAffectsRows | commands/deletewarning.js:33-41 | deleting an id the table holds affects at least one row, so the success reply is given |
| WarningTables.DeleteOfAbsentIdKeepsTable | commands/deletewarning.js:33-39 | deleting an id the table does not hold changes nothing and affects no row |
| WarningTables.DeleteKeepsWellFormed | commands/deletewarning.js:39 | the delete keeps the table invariant |
| WarningTables.ClearedFor | commands/clearwarnings.js:34 | the delete keeps exactly the warnings of other members |
| WarningTables.ClearKeepsOthersInOrder | commands/clearwarnings.js:34 | the other members' warnings are all kept, in order, and none of the cleared member's remain |
| WarningTables.ClearIdempotent | commands/clearwarnings.js:34-39 | clearing twice is clearing once |
| WarningTables.ClearWithoutWarningsKeepsTable | commands/clearwarnings.js:34-39 | clearing a member without warnings leaves the table as it was |
| WarningTables.ClearKeepsWellFormed | commands/clearwarnings.js:34 | clearing keeps the table invariant |
| WarningTables.PredefinedInsertKeepsWellFormed | commands/addwarning.js:33-36 | inserting under the next id keeps the invariant |
| WarningTables.IssuedInsertKeepsWellFormed | commands/warn.js:65-68 | issuing under the next id keeps the invariant |
| Warnings.WarningStore.Warn | commands/warn.js:24-124 | an empty warning id is refused before the role check; a non-moderator or an unknown predefined id inserts nothing. Otherwise one warning is appended, holding the member, the typed id, the description copied at issue time, the context or null, and the moderator. A failed direct message only changes the status text, and an unreachable moderator channel leaves the warning recorded. The predefined table is unchanged |
| Warnings.WarningStore.AddWarning | commands/addwarning.js:14-46 | a member without the role inserts nothing; otherwise exactly one predefined warning with the description is appended, and its new id is reported |
| Warnings.WarningStore.EditWarning | commands/editwarning.js:17-75 | a non-moderator or an unknown id changes nothing; otherwise only that row's description changes, and the audit record carries the old and the new description |
| Warnings.WarningStore.DeleteWarning | commands/deletewarning.js:14-51 | a member without the role or an unknown id deletes nothing; otherwise only that predefined id is removed, issued warnings are kept, and the success reply follows from the affected rows |
| Warnings.WarningStore.ClearWarnings | commands/clearwarnings.js:14-39 | a member without the role deletes nothing; otherwise all warnings of the target member, and only those, are removed, and the predefined table is unchanged |
| Warnings.WarningStore.ListWarnings | commands/listwarnings.js:12-60 | a non-moderator is refused, and an empty table gives the message and no pages; otherwise the reply is a non-empty pagination of the table |
| WarningPages.Truncate | commands/listwarnings.js:45-47 | a description of at most 1024 characters is unchanged; a longer one becomes its first 1021 characters followed by "...", exactly 1024 in all |
| WarningPages.Listings | commands/listwarnings.js:44-54 | one field per warning of the slice, in order |
| WarningPages.ListingsAppend | commands/listwarnings.js:44-54 | the fields of two runs are the fields of each, one after the other |
| WarningPages.PageCount | commands/listwarnings.js:41 | `Math.ceil(n / 25)`: the least count whose pages hold n warnings |
| WarningPages.PageCountUnique | commands/listwarnings.js:41 | exactly one count satisfies those bounds |
| WarningPages.BuildPages | commands/listwarnings.js:32-57 | the loop yields a pagination: ceil(n / 25) pages, page p holding the fields of warnings 25p to 25p+24 and labelled p+1 of the page count |
| WarningPages.AddFields | commands/listwarnings.js:44-54 | the inner loop yields the fields of its slice |
| WarningPages.PagesHoldAtMostPerPage | commands/listwarnings.js:35-36 | every page holds between one and 25 warnings |
| WarningPages.PageLabels | commands/listwarnings.js:41 | page p is labelled p+1 of the number of pages |
| WarningPages.NoPagesIffEmpty | commands/listwarnings.js:27-35 | there are no pages iff the table is empty |
| WarningPages.PagesConcatenate | commands/listwarnings.js:35-56 | reading the pages one after another gives the fields of every warning of the table, in order |
| SteamText.DecodeWithoutAmpersand | modules/steamForumMonitor.js:55-61 | text without an ampersand is left alone |
| SteamText.DecodeIsSinglePass | modules/steamForumMonitor.js:55-61 | `&amp;` before ampersand-free text becomes `&`, and the text after it is not decoded again |
| SteamText.EscapedEntityStaysEscaped | modules/steamForumMonitor.js:55-61 | "&amp;lt;" decodes to "&lt;", not "<" |
| SteamText.StripTags | modules/steamForumMonitor.js:16 | the shape of the result: it adds no character, holds no '<' followed later by '>', and is unchanged when there was no '<' (what survives is `SteamText.StripTagsContent`) |
| SteamText.StripTagsKeepsPlainPrefix | modules/steamForumMonitor.js:16 | the text before the first '<' is kept unchanged |
| SteamText.StripTagsDropsTag | modules/steamForumMonitor.js:16 | a tag, '<' up to the first '>' after it, is dropped whole and the text after it is stripped in turn |
| SteamText.StripTagsContent | modules/steamForumMonitor.js:16 | `a<t>b`, with no '<' in `a` and no '>' in `t`, strips to `a` followed by the stripped `b`, so "a<b>c" gives "ac" |
| SteamText.StripTagsWithoutClose | modules/steamForumMonitor.js:16 | text with no '>' is kept whole, a lone '<' included |
| SteamText.RemoveCharFacts | modules/steamForumMonitor.js:17 | dropping every tab leaves no tab, adds nothing and keeps the text free of tags |
| SteamText.CleanHtml | modules/steamForumMonitor.js:10-20 | the shape of the cleaned text: no tab or line break, no tag, and no whitespace at either end (what survives is `SteamText.CleanHtmlOfPlainMarkup`) |
| SteamText.CleanHtmlOfPlainMarkup | modules/steamForumMonitor.js:10-20 | for text with no `&`, tab or line break, cleaning is exactly stripping the tags and trimming |
| SteamText.CleanHtmlOfCleanText | modules/steamForumMonitor.js:10-20 | text with no `&`, `<`, tab or line break and no whitespace at either end is returned unchanged |
| SteamText.CleanHtmlIsTrimmed | modules/steamForumMonitor.js:19 | trimming the cleaned text again changes nothing |
| SteamText.ParseTimeAgo | modules/steamForumMonitor.js:22-45 | "just now" in any case is 0, and any text with a value passes the recency test |
| SteamText.NoDigitsNoTime | modules/steamForumMonitor.js:29-44 | a text with no digit, other than "just now", has no value |
| SteamText.RelativeTextParses | modules/steamForumMonitor.js:29-41 | "N minute(s) ago" reads as N and "N hour(s) ago" as 60·N |
| SteamText.StartsWithCIPointwise | modules/steamForumMonitor.js:29 | the case-insensitive comparison, character by character |
| SteamText.DigitRun | modules/steamForumMonitor.js:29 | `\d+` is greedy: the run is all digits and ends before a non-digit |
| SteamText.SkipSpace | modules/steamForumMonitor.js:29 | `\s*` is greedy: the run is all whitespace and ends before a non-space |
| SteamText.FirstSome | modules/steamForumMonitor.js:29 | the match is the leftmost position where the pattern matches, or none when it matches nowhere |
| SteamText.Prefix3 | modules/steamForumMonitor.js:52 | `substring(0, 3)`: at most three characters, a prefix of the name |
| SteamText.GetMonthNumber | modules/steamForumMonitor.js:47-53 | always in 0..11; the position of the month whose key is the lower-cased first three letters, and 0 for an unknown name |
| SteamText.MonthsDistinct | modules/steamForumMonitor.js:48-51 | each month key occurs at one position only |
| ForumMonitor.Candidate | modules/steamForumMonitor.js:82-121 | a topic yields a discussion only with a non-empty title and a recent time that parses, and the discussion keeps the topic's link |
| ForumMonitor.Candidates | modules/steamForumMonitor.js:81-83 | one candidate per scraped topic, in page order |
| ForumMonitor.Fresh | modules/steamForumMonitor.js:111 | no queued discussion has a known link |
| ForumMonitor.FreshKeepsUnknown | modules/steamForumMonitor.js:111-121 | every candidate with an unknown link is queued |
| ForumMonitor.FreshFromCandidates | modules/steamForumMonitor.js:111-121 | everything queued is a candidate |
| ForumMonitor.QueuedIffQualifies | modules/steamForumMonitor.js:81-121 | a discussion is queued exactly when its topic has a non-empty title, a recent time that parses and a link not seen before |
| ForumMonitor.LinksOfIsTheLinks | modules/steamForumMonitor.js:140 | the remembered links are exactly the links of the discussions |
| ForumMonitor.LinksOfAppend | modules/steamForumMonitor.js:140 | the links of two runs are the union of their links |
| ForumMonitor.SecondCheckQueuesNothing | modules/steamForumMonitor.js:111-147 | once the queued links are known, the same candidates queue nothing |
| ForumMonitor.SamePageTwice | modules/steamForumMonitor.js:111-147 | checking the same page again after remembering queues nothing: each discussion is posted once |
| ForumMonitor.CollectNew | modules/steamForumMonitor.js:80-133 | the scan yields `NewDiscussions`, its specification |
| ForumMonitor.Monitor.Check | modules/steamForumMonitor.js:63-153 | a failed fetch changes nothing. Otherwise the new discussions are posted and their links added to the known set, which only grows. The first-run flag is cleared by the first check that posts something, and the first run is otherwise handled like any later one |
| ForumMonitor.Monitor.Remember | modules/steamForumMonitor.js:140 | the known set gains exactly the links of the posted discussions |
| EnvFile.EntryOfPair | pages/api/env.js:13-16 | a line `k=v` with no `=` in either piece gives an entry iff it does not start with '#' and both untrimmed pieces are non-empty, so "=v" and "k=" give none; the entry is the trimmed key and the trimmed value |
| EnvFile.SplitHasMoreOnlyWithSeparator | pages/api/env.js:14 | a line splits into two or more pieces only when it contains '=' |
| EnvFile.ParsedKeys | pages/api/env.js:12-19 | a key is read iff some line carries it |
| EnvFile.LastLineWins | pages/api/env.js:16 | the value of a key is the one on the last line that carries it |
| EnvFile.IgnoredLine | pages/api/env.js:13 | empty lines and comments add nothing |
| EnvFile.PlainLine | pages/api/env.js:14-16 | `k=v` with a plain key and value reads as exactly that entry |
| EnvFile.SecondSeparatorDropsRest | pages/api/env.js:14 | text after a second '=' is dropped: `k=v=w` reads as `k=v` |
| EnvFile.ReadEnv | pages/api/env.js:7-24 | a failed read is an error; otherwise the map is the one `Parsed` builds from the lines |
| EnvFile.UpsertTouchesOneLine | pages/api/env.js:32-42 | the line count stays the same iff some line starts with `key=`, and grows by one otherwise. The written line replaces the first such line or is appended, and every other line stays where it was |
| EnvFile.SetThenGet | pages/api/env.js:12-44 | setting a plain key to a plain value and reading the file back gives that value, when the line POST overwrites is the only one that can carry the key |
| EnvFile.UpdateEnv | pages/api/env.js:27-53 | a failed read writes nothing; otherwise the text written is the upserted lines joined by line breaks. The reply is a success exactly when the write succeeds and no socket.io server is attached: with one attached, the emit at env.js:45-50 throws after the write |
| Text.JoinSplit | pages/api/env.js:32-44 | joining the lines of a split gives back the file, so only the upserted line differs |
| Text.SplitJoin | commands/startchallenge.js:88 | splitting a joined list whose pieces hold no comma gives back the pieces |
| Text.SplitPiecesHaveNoSeparator | pages/api/env.js:14 | no piece of a split holds the separator |
| Text.TrimIsSlice | pages/api/env.js:16 | `trim` keeps a slice, cuts only whitespace, and leaves none at either end |
| Text.ContainsIff | pages/dashboard.js:285 | `includes` holds iff the text occurs at some position |
| Text.ParseDecimal | commands/deletesubmission.js:36 | the model's reading of a text id: a number exactly when the text is a non-empty run of ASCII digits (MySQL's wider coercion is under "Left out") |
| Seqs.FirstIndex | commands/startchallenge.js:106-110 | `LIMIT 1`: the first matching row, or none when no row matches |
| Seqs.FilterIsSubsequence | pages/dashboard.js:763 | `filter` keeps the order of what it keeps |
| Dashboard.SensitiveIffOccurs | pages/dashboard.js:284-286 | a key is masked exactly when "TOKEN" or "PASSWORD" occurs in it |
| Dashboard.StatusColor | pages/dashboard.js:289-304 | gray whenever the challenge is inactive; otherwise blue, purple or green exactly for "submissions", "voting" or "completed" in any case, and gray for anything else |
| Dashboard.StatusColorIgnoresCase | pages/dashboard.js:294 | the badge does not depend on the case of the status |
| Dashboard.SliceBound | pages/dashboard.js:357-360 | `slice` bounds: a negative one counts from the end, and both are clamped to the length |
| Dashboard.PageIsWindow | pages/dashboard.js:357-360 | from page 1 up, the page holds items (p−1)·n up to, but not including, min(p·n, length), at most n of them |
| Dashboard.TotalPages | pages/dashboard.js:307 | `Math.ceil(total / n)`: the least count whose pages hold every item |
| Dashboard.TotalPagesBounds | pages/dashboard.js:307 | no items make zero pages, and any item makes at least one |
| Dashboard.ShowingMatchesPage | pages/dashboard.js:330-331 | on every page the count allows, the "Showing a to b" line names a non-empty range within the list, with as many numbers as the page has items |
| Dashboard.FilteredLogsAreTheMatching | pages/dashboard.js:762-777 | the filtered logs keep their order, and a log is among them iff its action type matches the filter and its time lies within the date bounds that are set |
| Dashboard.NoFilterShowsAll | pages/dashboard.js:765-775 | with 'all' and no date bounds every log is shown, in order |
| Dashboard.UnknownFilterShowsNothing | pages/dashboard.js:765-768 | a filter value other than the four known ones shows nothing |
| Dashboard.ChangedKeys | pages/dashboard.js:220-221 | only edited keys are sent, and a key is left out only when its loaded value equals its edited one |
| Dashboard.UneditedSendsNothing | pages/dashboard.js:220-221 | nothing is sent when nothing was edited |
| Dashboard.ChangedKeysSuffice | pages/dashboard.js:220-226 | sending only the changed keys leaves the settings as sending every edited key would |

## Left out

- Discord, MySQL and HTTP plumbing are left out: embeds, replies, deferrals, channel and thread fetches, direct messages and socket.io emits. Each outcome that changes what the code does is a parameter.
- Text.ParseDecimal, ChallengeDatabase.Database.DeleteSubmission, WarningTables.LookupText, Warnings.WarningStore.Warn, ChallengeDatabase.Database.Deactivate: MySQL's coercion of a text id to a number is left out. `/deletesubmission` (deletesubmission.js:36-43), `/warn` (warn.js:57-61) and the dashboard's DELETE (challenges.js:29-36, the raw `req.query.id`) bind a text id against an integer column. The model matches only a decimal numeral, so `12abc` or ` 12`, which MySQL reads as 12, match no row in the model.
- Database errors (the `catch` branches) are left out. Every statement is assumed to succeed, apart from the outside steps given as parameters.
- The timers are left out. `setTimeout` in the reminder schedule and `setInterval` in the forum monitor are replaced by the returned delays, and reminders have no durability or cancellation.
- Reminders.Schedule, Reminders.FireInstants: Node's clamp of a timer delay is left out. `setTimeout` (startchallenge.js:21) runs any delay above 2147483647 ms, about 24.8 days, after 1 ms instead. So for a challenge closing 30 days out, all four reminders fire right after the start and not at close minus their offsets, while the model states the computed instants.
- Warnings.WarningStore.ListWarnings: Discord's limits on a reply are left out. A reply with more than 10 embeds, or with an embed holding more than 6000 characters, is refused. So listwarnings.js:60 falls into the error reply of :64 for a table of more than 250 warnings, or for a page of 25 long descriptions, while the model always returns the pagination.
- Date parsing is left out. Instants are integer milliseconds, given as parameters, and an invalid date (NaN) is not modelled.
- Dashboard.TotalPages: it requires a positive page size, because `Math.ceil(n / 0)` would be Infinity.
- `parseInt` precision is left out. A digit run reads as an unbounded natural number.
- Text.ToLower: only ASCII letters are folded, unlike `toLowerCase`.
- The Steam page's `topicPattern` regex, the tooltip extraction and the HTTP fetch are left out. The monitor checks an already-captured list of topics.
- `postDiscussionsToDiscord` is left out. Posting is taken to go through, since its failures are logged and not raised.
- ForumMonitor.Check: two topics in one page that share a link are both queued, as in the source, which checks only the links known before the scan.
- Tables are kept in primary-key order. A `LIMIT 1` without `ORDER BY` is taken to return the first row in that order.
- A state change to "Voting" and `submitted = 1` appear nowhere in the modelled commands. `/startvoting` only posts. Such rows enter through the `Database` constructor, which accepts any well-formed table.
- The POST of `pages/api/challenges.js` emits the connection's thread id as the new challenge's id. The emit is left out.
- `/stopvoting` fetches each message by the submission id. The model leaves the fetch opaque, as a function from a submission to whether it succeeded.
- The `.env` POST emit calls `isSensitiveField`, which `pages/api/env.js` does not define. The event itself is left out; its failure is modelled, since it turns the reply into the error once a socket.io server is attached (`socketAttached` of EnvFile.UpdateEnv).
- `pages/dashboard.js` is left out apart from the modelled helpers: React rendering, state, effects, modals and charts. So are its `setItemsPerPage` call, which names no defined function, and the PUT it sends that no modelled route handles.
- `pages/api/challenges/[id].js` is not part of this model.
- ChallengeDatabase.Database.StartChallenge, ChallengeDatabase.Database.Submit: each operation is modelled as one atomic step. The source awaits Discord calls between its check and its write: startchallenge.js:106 checks for an open challenge, then creates the thread, then inserts at :133; submit.js:61 looks up the entry, then fetches the audit channel, then inserts at :112. Two concurrent calls can both pass the check and insert a second open challenge or a second entry of one member. The invariant kept by every method holds only for calls that do not overlap.
- WarningPages.Truncate: lengths count Unicode scalar values, not UTF-16 code units. `listwarnings.js:45` tests `length > 1024` in code units, so a description with characters outside the Basic Multilingual Plane (an emoji counts 2) can be cut by the source while the model keeps it whole, and the 1024 bound is proved in scalar values.
- Text: every string length and index is in Unicode scalar values. Where the source measures or slices in UTF-16 code units (`substring`, `slice`, `length`), the two agree only on text inside the Basic Multilingual Plane.
- The audit-channel posts are left out. Where their failure changes the reply, whether they went through is a parameter; the rows written before them stay.

## Notes on the code

- **Failed fetches.** `/endvoting` leaves a submission whose message fetch fails out of the ranking instead of giving it 0 votes (endvoting.js:66-68, `VoteTally.FailedFetchExample`).
- **Vote floor.** In `/endvoting` the vote count is the 👍 count minus one, with no floor at 0 (endvoting.js:64).
- **Reaction key of `/stopvoting`.** stopvoting.js:69 looks the reaction up under the text U+00F0 U+0178 U+2018, the first three bytes of 👍 (F0 9F 91) read as Windows-1252; endvoting.js:63 has the real emoji. Discord caches a Unicode reaction under its emoji, so the lookup never finds one and every fetched submission gets 0 votes (:70). The sort then keeps query order, and the "top 3" are the first three fetched rows (`VoteTally.StopVotingPlacesFirstFetched`).
- **Start guard.** `/startchallenge` is blocked only by a challenge in "Submissions" (startchallenge.js:106-112). A challenge in "Voting" does not block a new start.
- **Dashboard insert.** The insert of `pages/api/challenges.js` performs no single-open check at all (challenges.js:46-53, `ChallengeApi.CreateCanOpenSecond`).

- **`.env` round trip.** A `.env` POST overwrites the first line that starts with `key=` (env.js:34-42), while a GET reads the last line that carries the key (env.js:12-16). When the same key occurs twice, setting it does not change what is read back, so `EnvFile.SetThenGet` states its condition.
- **Title check.** The monitor's `!title.trim()` test (steamForumMonitor.js:86-89) is the same as testing for the empty title, because the cleaned title is already trimmed (`SteamText.CleanHtmlIsTrimmed`). Its recency regex is implied by `parseTimeAgo` returning a value (`SteamText.ParseTimeAgo`).
