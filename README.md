# Code by vote: a Dafny model

This project models the core of a Telegram bot that writes a program one line at a time.
The chat votes on each line:

- A language model proposes drafts.
- The bot offers four of them in a poll.
- When the poll closes, the votes are counted.
- The winning draft becomes the next code line of the chat's current history.
- Clearing the history starts a new history version.

The model covers these parts:

- **The ledger** (modules `Models`, `Tables`, `Repositories`, `Crud`). It holds the database rows, the repository operations on them, and the `DataManager` transactions that compose those operations.
  - `Repositories.Database` is a class whose fields are the tables: chats by Telegram id, and polls, options, votes, code lines, completed snapshots, the scheduler row and logs as sequences. A poll's id is its position, counted from 1.
  - Each repository mutator is a method with a `modifies` frame. Each read-only query is a function in module `Tables`.
  - Every `DataManager` method is one unit of work. When an exception escapes, every table is rolled back (`Database.Rollback`).
  - `datetime.now()` is an abstract clock. Every call whose value the model keeps (the poll creation, closing, answer, snapshot, scheduler and log times) advances it. The `updated_at` stamps are not kept, so the calls that only set them do not advance it.
  - The invariant `Database.Consistent` ties polls to chats, code lines to their polls, and the numbering of each chat's current lines together.
- **The poll registry** (`PollRegistry`). This is the in-memory `PollManager`: its two dictionaries are map fields, and `extract_winner` picks the first option with the most votes.
- **The candidate choice** (`Llm`, with `Sorting`). This is `pick_best_4`: filter by length, deduplicate, score, stable sort from high to low, take four. It also covers `route_by_mode`.
- **Small helpers.**
  - `Settings` models `ensure_list`, which normalises the admin ids.
  - `Keyboards` models the command tables, `chunk_list` and the keyboard rows.
  - `Roles` models `get_user_role`.
  - `Strings` models `split` and `join`.

The model follows the code as written, including these behaviours a reader might not expect:

- **Line numbering.** `append_code_line_from_poll` numbers a new line after the lines of the chat's *current* history version. It does not use the poll's own version. A line won by a poll of an older version is still filed under that older version through its `poll_id`.
  - `Tables.LateAppendReusesLineNumber` exhibits the consequence. Two lines of version 1 carry number 1 when the second comes from a version-1 poll that finishes after the history was cleared.
- **No status check.** `finishing_poll_process` does not look at the poll's status. `close_poll` overwrites status and closing time unconditionally.

## Model

| member | source | states |
|---|---|---|
| Models.ParseStatus | src/app/db/models.py:44-51 | a status string is accepted exactly when it names one of active, closed, failed, rejected |
| Models.StatusNamesAccepted | src/app/db/models.py:44-51 | the name of every status passes the check constraint and reads back as that status |
| Models.NewChat | src/app/db/models.py:20-26 | a new chat is active, has no last poll and has history version 1 |
| Models.NewOption | src/app/db/models.py:69-76 | a new option has the given poll, index and text, and 0 votes |
| Tables.GetPollById | src/app/db/repositories.py:151-159 | a poll comes back exactly when the id is a stored poll's id, and it is that poll |
| Tables.GetPollByTgId | src/app/db/repositories.py:134-138 | the first poll with the Telegram id, and None exactly when no poll has it |
| Tables.GetActivePollForChat | src/app/db/repositories.py:161-171 | an active poll of the chat created no earlier than any other active poll of the chat; None exactly when the chat has no active poll |
| Tables.CloseAt | src/app/db/repositories.py:182-190 | the poll gets the status and closing time whatever its status was; every other poll, and every poll's chat and version, are unchanged |
| Tables.RejectIfActive | src/app/db/repositories.py:173-179 | only an active poll with the id becomes rejected; a missing or non-active poll changes nothing |
| Tables.OptionRows | src/app/db/repositories.py:118-126 | one option per text, with index equal to its position, the same text and 0 votes |
| Tables.FindOption | src/app/db/repositories.py:321-331 | the stored option with the poll and index, or None exactly when there is none |
| Tables.GetWinner | src/app/db/repositories.py:284-298 | an option of the poll whose votes are maximal among the poll's options; None exactly when the poll has no options |
| Tables.FindWinner | src/app/db/repositories.py:321-329 | looking up the winner's index finds the winner itself, because options are keyed by poll and index |
| Tables.UpsertVote | src/app/db/repositories.py:204-226 | an existing row of the user for the poll takes the new index and time in place, otherwise one row is appended; either way the lookup then finds the new vote, and every other row is unchanged |
| Tables.FindVote | src/app/db/repositories.py:204-212 | the position of the user's vote row for the poll, the first one; None exactly when there is none |
| Tables.GroupCounts | src/app/db/repositories.py:243-251 | the `GROUP BY option_index` map: an index is present exactly when it has votes, and it maps to its tally |
| Tables.Recount | src/app/db/repositories.py:237-260 | every option of the poll gets its tally; every other column and every other poll's option stay as they were |
| Tables.TallyZero | src/app/db/repositories.py:259-260 | an index with no matching vote row counts 0 |
| Tables.TallyUpdate | src/app/db/repositories.py:224-226 | overwriting a vote's index moves one vote from the old index to the new one |
| Tables.VoterRowsAtMostOne | src/app/db/repositories.py:204-226 | with unique vote keys, a user has one row for a poll if the lookup finds one, and none otherwise |
| Tables.UpsertKeepsKeysUnique | src/app/db/repositories.py:204-226 | a vote upsert keeps at most one row per poll and user |
| Tables.UpsertSingleRow | src/app/db/repositories.py:204-226 | after the upsert the user has exactly one row for the poll, holding the new index; a row is added only when none existed |
| Tables.UpsertLastWins | src/app/db/repositories.py:204-226 | a second vote by the same user overwrites the first: two upserts equal the last one alone |
| Tables.UpsertTally | src/app/db/repositories.py:204-226 | an upsert adds one vote to the new index and removes the user's earlier vote from its index |
| Tables.RecountIdempotent | src/app/db/repositories.py:237-260 | recounting twice gives the same options as recounting once |
| Tables.RecountIgnoresUnmatchedVote | src/app/db/repositories.py:243-260 | a vote whose index matches no option of the poll, or of another poll, changes no count |
| Tables.RecountKeepsKeysUnique | src/app/db/repositories.py:237-260 | a recount keeps options keyed by poll and index |
| Tables.RecountWinner | src/app/db/repositories.py:284-298 | after a recount the winner exists exactly when the poll has options, and its count is its tally and no other option's tally is higher |
| Tables.HistoryLines | src/app/db/repositories.py:335-342 | every joined row is a line of the chat whose poll has the version, and there are no more rows than lines |
| Tables.HistoryLinesSelected | src/app/db/repositories.py:335-342 | the join keeps exactly the chat's lines whose poll has the version |
| Tables.MaxLineNumber | src/app/db/repositories.py:335-343 | the largest line number of the rows, None exactly when there are no rows |
| Tables.NextLineNumber | src/app/db/repositories.py:335-344 | the new number exceeds every number among the chat's lines of the version, and is 1 when there are none |
| Tables.NextLineNumberIsNext | src/app/db/repositories.py:335-344 | the next number exceeds every number of the version's lines and is 1 more than the largest, or 1 when there are none |
| Tables.FinalLines | src/app/db/repositories.py:370 | exactly the rows with `is_final` set are kept |
| Tables.Texts | src/app/db/repositories.py:374 | the text of each line, in order |
| Tables.GetCurrentCode | src/app/db/repositories.py:356-374 | every text returned is the text of a final line of the chat whose poll has the version, and there are no more texts than lines |
| Tables.CurrentLinesSelected | src/app/db/repositories.py:356-374 | the current code is a permutation of the chat's final lines of the version, sorted by line number |
| Tables.CurrentCodeInAppendOrder | src/app/db/repositories.py:356-374 | under the ledger invariant, the current lines are numbered 1, 2, ... and the current code is their texts in append order |
| Tables.NewChatKeepsHistory | src/app/db/repositories.py:34-43 | adding a new chat keeps the ledger invariant |
| Tables.ResetKeepsHistory | src/app/db/repositories.py:51-65 | after a version bump the chat has no lines of its new version, and the invariant holds |
| Tables.SameHistoryKeepsHistory | src/app/db/repositories.py:173-190 | changing polls' status or closing time keeps the invariant |
| Tables.CreatePollKeepsHistory | src/app/db/repositories.py:104-130 | a new poll stamped with the chat's version, with the chat's last poll updated, keeps the invariant |
| Tables.AppendKeepsHistory | src/app/db/repositories.py:335-354 | appending the winner's line keeps the invariant; for a poll of the current version the line is numbered one past the current lines and joins them at the end, and otherwise the current lines are untouched |
| Tables.AppendLineKeepsHistory | src/app/db/repositories.py:335-354 | a line of its poll's chat, numbered by the next-number rule, keeps the invariant |
| Tables.LateAppendReusesLineNumber | src/app/db/repositories.py:335-342 | a line won by an older-version poll after a reset is numbered 1 and repeats a line number within the old version |
| Tables.LinesWithoutChat | src/app/db/repositories.py:376-383 | exactly the other chats' lines remain |
| Tables.HistoryLinesWithoutChat | src/app/db/repositories.py:376-383 | after the delete the chat has no lines in any version, and every other chat's history is unchanged |
| Tables.DeleteKeepsHistory | src/app/db/repositories.py:376-383 | deleting a chat's lines keeps the ledger invariant |
| Tables.LastPollKeepsHistory | src/app/db/repositories.py:67-72 | changing a chat's last poll keeps the ledger invariant |
| Tables.GetLastCompletedForChat | src/app/db/repositories.py:413-423 | the chat's most recent snapshot, None exactly when the chat has none |
| Tables.GetLastLogs | src/app/db/repositories.py:490-501 | the last `limit` entries in order, or all of them when `limit` is negative or at least the count |
| Repositories.Database.constructor | src/app/db/models.py:14-130 | an empty database satisfies the ledger invariant |
| Repositories.Database.Rollback | src/app/crud.py:108-134 | every table is as in the snapshot the unit of work started from |
| Repositories.Database.Now | src/app/db/models.py:17 | a `datetime.now()` whose value the model keeps returns the clock and advances it; the calls that only set `updated_at` do not call it |
| Repositories.Database.GetChat | src/app/db/repositories.py:45-49 | a chat comes back exactly when one is stored under the id, and it is that chat |
| Repositories.Database.GetOrCreateChat | src/app/db/repositories.py:34-43 | a stored chat comes back unchanged; a missing one is added with the defaults; the invariant holds |
| Repositories.Database.ResetHistory | src/app/db/repositories.py:51-65 | the chat (created if absent) gets version + 1 and no last poll; the chat has no lines of the new version |
| Repositories.Database.SetLastPoll | src/app/db/repositories.py:67-72 | a stored chat's last poll is set; a missing chat changes nothing; the ledger invariant holds |
| Repositories.Database.CreatePoll | src/app/db/repositories.py:90-132 | one active poll stamped with the chat's version, its options with indices 0..n-1 and 0 votes, and the chat's last poll set to it |
| Repositories.Database.RejectPollIfActiveByPollId | src/app/db/repositories.py:173-179 | the polls become `RejectIfActive` of the old polls; the invariant holds |
| Repositories.Database.ClosePoll | src/app/db/repositories.py:182-190 | None changes nothing; a poll gets the status and the current time whatever its status was |
| Repositories.Database.AddOrUpdateVote | src/app/db/repositories.py:194-234 | a truthy user's vote is upserted; an anonymous or zero user raises UnboundLocalError and no row is stored |
| Repositories.Database.RecalcVotesForPoll | src/app/db/repositories.py:237-260 | the options become the recount of the poll's votes; the invariant holds |
| Repositories.Database.UpdateTelegramIds | src/app/db/repositories.py:262-282 | a stored poll gets the new Telegram ids; a missing poll changes nothing and reports so; the ledger invariant holds |
| Repositories.Database.AppendCodeLineFromPoll | src/app/db/repositories.py:310-354 | a missing option raises ValueError and adds nothing; otherwise one final line with the option's text is appended, numbered after the current version's lines |
| Repositories.Database.DeleteAllCodeForChat | src/app/db/repositories.py:376-383 | the chat's lines are removed and the others kept; the ledger invariant holds |
| Repositories.Database.SaveCompletedCode | src/app/db/repositories.py:395-411 | one snapshot stamped with the chat's current version is appended |
| Repositories.Database.GetState | src/app/db/repositories.py:436-454 | the singleton row comes back unchanged if present, and is otherwise created with both times set to now |
| Repositories.Database.AddLog | src/app/db/repositories.py:475-488 | one entry stamped with now is appended |
| Crud.DataManager.constructor | src/app/crud.py:8-13 | the manager works on the given database |
| Crud.DataManager.ClearChatHistory | src/app/crud.py:15-30 | the chat (created if absent) has its last poll rejected if still active, moves to the next version with no last poll, and has no current code |
| Crud.DataManager.RegisterPoll | src/app/crud.py:32-46 | for a stored chat the poll and its options are created; for a missing chat the call raises and nothing changes |
| Crud.DataManager.GetCurrentCode | src/app/crud.py:48-63 | (False, message) for a missing chat or no current lines; otherwise (True, the current texts joined by newlines) |
| Crud.DataManager.CurrentCodeSplitsBack | src/app/crud.py:57-60 | when no line holds a newline, splitting the returned text gives the current lines back |
| Crud.DataManager.ClosePoll | src/app/crud.py:65-72 | an empty Telegram id or an unknown poll changes nothing; a known poll is closed whatever its status |
| Crud.DataManager.GetLastPollTgIdByChatId | src/app/crud.py:74-82 | the Telegram id of the chat's last poll, None when the chat, the last poll, the poll or its id is missing |
| Crud.DataManager.SaveCompleteCode | src/app/crud.py:85-100 | a stored chat gets one snapshot with its version and the success message; a missing chat gets the failure message and nothing is stored |
| Crud.DataManager.FinishingPollProcess | src/app/crud.py:108-134 | an unknown poll changes nothing; a poll with no options raises at `winner.index` and every table is rolled back; otherwise the poll is closed, the tallies recounted, and exactly one line with the winner's text appended, whatever the poll's prior status; the scheduler row and the logs are never touched |
| Crud.DataManager.CloseAndAppendWinner | src/app/crud.py:117-131 | the poll is closed, its options recounted, and the winner's text, if there is a winner, appended as the chat's next line; nothing else changes |
| Crud.DataManager.CloseAndRecount | src/app/crud.py:117-120 | the poll is closed and its options recounted |
| Crud.DataManager.AppendWinningLine | src/app/crud.py:126-131 | the winner's text is appended as the chat's next line |
| Crud.DataManager.RegisterPollAnswer | src/app/crud.py:136-139 | an unknown poll raises and stores nothing; otherwise the vote is upserted with no status or index check |
| PollRegistry.PollManager.constructor | src/app/polls.py:8-10 | the registry starts empty |
| PollRegistry.PollManager.Get | src/app/polls.py:32-33 | the stored record, None exactly when the id is not registered |
| PollRegistry.PollManager.GetLastPollIdByChatId | src/app/polls.py:35-37 | the chat's last registered poll, None exactly when there is none |
| PollRegistry.PollManager.RegisterPoll | src/app/polls.py:12-30 | the record, with an empty payload for None, replaces any earlier one, and the poll becomes the chat's last poll |
| PollRegistry.PollManager.Pop | src/app/polls.py:39-40 | the stored record comes back and is removed, so a second pop gives None; the chats' last polls are unchanged |
| PollRegistry.PollManager.StopTarget | src/app/polls.py:42-53 | an unregistered poll gives None; a registered one gives the chat and message to stop |
| PollRegistry.BestOptionIndex | src/app/polls.py:62-65 | an index with the greatest voter count, and no earlier index has as many |
| PollRegistry.ExtractWinner | src/app/polls.py:57-66 | no options raises ValueError; otherwise the text of the first option with the greatest voter count |
| Llm.Short | src/app/llm/llm.py:61 | only drafts of length at most 95 are kept |
| Llm.ShortKeepsShortDrafts | src/app/llm/llm.py:61 | the kept drafts are exactly the drafts of length at most 95 |
| Llm.Dedupe | src/app/llm/llm.py:63-70 | every kept draft comes from the input (with Llm.DedupeDistinct and Llm.DedupeCount: each distinct draft once) |
| Llm.DedupeDistinct | src/app/llm/llm.py:63-70 | the deduplicated list has no repeats |
| Llm.DedupeCount | src/app/llm/llm.py:63-70 | the deduplicated list has one element per distinct draft |
| Llm.DedupeDrafts | src/app/llm/llm.py:63-70 | the loop with the seen set keeps the first copy of each draft, in order |
| Llm.ScoreAll | src/app/llm/llm.py:73-78 | each draft is paired with its LLM score (0 when missing) plus 20 when its syntax is valid |
| Llm.ScoreDrafts | src/app/llm/llm.py:73-78 | the scoring loop builds exactly those pairs, in order |
| Llm.Take | src/app/llm/llm.py:84 | the first n elements, or all when there are fewer |
| Llm.Drafts | src/app/llm/llm.py:84 | the drafts of the pairs, in order |
| Llm.PickBest4 | src/app/llm/llm.py:59-84 | the method's result is the length-filtered, deduplicated, scored, stably sorted list cut to four |
| Llm.RankedPairs | src/app/llm/llm.py:73-81 | the sorted list has one pair per candidate, each with its draft's score, with no repeats |
| Llm.Best4 | src/app/llm/llm.py:59-84 | at most four drafts are returned |
| Llm.Best4Drafts | src/app/llm/llm.py:59-84 | the chosen drafts are distinct, each comes from the input and has length at most 95 |
| Llm.Best4Count | src/app/llm/llm.py:59-84 | four drafts are chosen, or all distinct short drafts when there are fewer |
| Llm.Best4ScoresDescend | src/app/llm/llm.py:73-84 | scores do not increase along the result |
| Llm.Best4Stable | src/app/llm/llm.py:81-84 | drafts of equal score appear in the result in their first-occurrence order |
| Llm.Best4Top | src/app/llm/llm.py:73-84 | a candidate left out scores no higher than any draft chosen |
| Llm.RouteByMode | src/app/llm/llm.py:150-156 | "zero", "next" and "complete" map to zero_history, next_line and auto_complete; any other mode has no route |
| Llm.RoutesMatchStartEdges | src/app/llm/llm.py:167-171 | every route is a key of the conditional edges out of the graph's start, and each key is the route of exactly one mode |
| Sorting.SortBy | src/app/llm/llm.py:81 | the sort is a permutation of its input |
| Sorting.SortBySorted | src/app/llm/llm.py:81 | the sort orders by the key |
| Sorting.SortByStable | src/app/llm/llm.py:81 | elements with equal keys keep their relative order |
| Sorting.SortBySortedIsIdentity | src/app/db/repositories.py:372 | sorting a list already in key order changes nothing |
| Settings.IntOf | src/app/settings.py:33 | a value passes `isinstance(v, int)` exactly when it is an int or a bool |
| Settings.IntsOfSelects | src/app/settings.py:31-36 | every int the list gives is one of its elements, every int element is given, and nothing is given exactly when there is no int element |
| Settings.IntsOfAppend | src/app/settings.py:31-36 | an appended element adds its int, if it is one, at the end; from the empty list, a single element gives its int or nothing |
| Settings.IntsOfConcat | src/app/settings.py:31-36 | the ints of a concatenation are those of the first part followed by those of the second, so order and repeats are kept |
| Settings.EnsureList | src/app/settings.py:27-42 | a list gives its int elements, a string its digit-only tokens, an int itself, and anything else nothing |
| Settings.StripLeft | src/app/settings.py:38 | leading whitespace is removed and nothing else |
| Settings.StripRight | src/app/settings.py:38 | trailing whitespace is removed and nothing else |
| Settings.ParseTokens | src/app/settings.py:38 | at most one id per token, and every id is non-negative |
| Settings.ParseAdminIds | src/app/settings.py:37-38 | ids parsed from a string are non-negative |
| Settings.BlankInputGivesNothing | src/app/settings.py:38 | a string of commas and whitespace gives no ids |
| Settings.NoDigitTokens | src/app/settings.py:38 | tokens none of which is all digits after stripping give no ids |
| Settings.ParseTokensConcat | src/app/settings.py:38 | the ids of a concatenation of tokens are those of the first part followed by those of the second |
| Settings.TokenKeptOrDropped | src/app/settings.py:38 | wherever it stands, a token that is not all digits after stripping is dropped and the rest parse as before; a token that is contributes its value in its place |
| Settings.AdminIdsRoundTrip | src/app/settings.py:37-38 | ids written as "id1,id2,..." are read back as the same list |
| Keyboards.CommandTablesNested | src/app/keyboards.py:5-7 | the admin table begins with the user table and the owner table with the admin table |
| Keyboards.RoleCommands | src/app/keyboards.py:10-14 | each role's table is a prefix of the owner table, and only Owner gets no commands |
| Keyboards.RoleCommandsNested | src/app/keyboards.py:10-14 | admin, group admin and user get the owner, admin and user tables; owner gets none |
| Keyboards.ChunkList | src/app/keyboards.py:16-17 | size 0 raises ValueError, a negative size gives no chunks, and a positive size gives the chunks |
| Keyboards.ChunksFlatten | src/app/keyboards.py:17 | concatenating the chunks gives the list back |
| Keyboards.ChunksShape | src/app/keyboards.py:17 | every chunk has 1 to size elements, all but the last exactly size, and only the empty list has no chunks |
| Keyboards.Buttons | src/app/keyboards.py:20 | one button per command of the role's table, "/" + the command's text, in order |
| Keyboards.GetKeyboardForRole | src/app/keyboards.py:19-25 | the rows hold the role's buttons in order, 1 to 3 to a row, and only a role with no table gets no rows |
| Roles.GetUserRole | src/app/utils.py:3-15 | a fixed id is Admin; otherwise an administrator of a non-private chat is GroupAdmin; otherwise User; never Owner |
| Roles.PrivateChatIgnoresChatAdmins | src/app/utils.py:9 | in a private chat the chat's administrators make no difference |
| Strings.Join | src/app/crud.py:60 | the join starts with the first part, followed by the separator when there are more parts (Strings.SplitJoin and Strings.JoinSplit are its round trips with Split) |
| Strings.Split | src/app/settings.py:38 | at least one piece, and no piece holds the separator |
| Strings.SplitJoin | src/app/crud.py:60 | splitting the join of separator-free pieces gives the pieces back |
| Strings.JoinSplit | src/app/crud.py:60 | joining the pieces of a split gives the string back |

## Left out

- Markdown rendering is not modelled. `to_markdown` is not part of this model, so `Crud.DataManager.GetCurrentCode` is the `markdown=False` path.
- The Telegram calls are not modelled: `bot.stop_poll` in `PollManager.close_poll`, and the `get_administrators()` call of `get_user_role`. `PollRegistry.PollManager.StopTarget` gives the arguments of the stop call, and the chat's administrators are a parameter of `Roles.GetUserRole`.
- The language-model calls, JSON decoding and `ast.parse` are not modelled. Scores are a map and `is_syntax_ok` is a predicate parameter.
- The graph build is not modelled, except the keys of the conditional edges out of its start (`Llm.StartEdges`). `route_by_mode` must produce one of those keys, and `Llm.RoutesMatchStartEdges` states that it does.
- JSON blobs (`llm_request`, `llm_response`, `admin_ids`, `active_jobs`, log context) are not represented.
- `updated_at` columns, and the clock values themselves, are not represented beyond their order.
- The `PollManager` payload dictionary is a map from strings to strings.
- The commands enumeration lives in `app/enums.py`, which is not part of this model. Each command's text is a parameter of `Keyboards.Buttons`.
- `get_poll_with_options`, `set_admin_ids`, `update_next_run`, `set_active_jobs` and `get_all_logs` are outside the modelled core.
- `DataManager.get_poll_by_tg_poll_id` is `Tables.GetPollByTgId` read in its own unit of work.
- The `_polls` and `_chats` fields of `DataManager` are never used, so they are not modelled.
- SQL mechanics are not modelled: sessions, flushes and autoincrement. Ids are positions in the tables. A duplicate `tg_poll_id`, where `scalar_one_or_none` would raise, is not modelled: the lookup takes the first match.
- Tables.GetWinner: the query leaves ties unordered, so the contract only promises *an* option with the most votes. The body happens to return the earliest such row.
- Repositories.Database.RejectPollIfActiveByPollId: the mid-unit-of-work `commit` is not modelled. The whole `clear_chat_history` is one unit of work.
- Repositories.Database.ClosePoll: the `status` argument ranges over the four statuses. Any other string would be refused by `poll_status_check` at commit.
- Settings.IsSpace: `str.strip` and `str.isdigit` are modelled for ASCII only. Unicode whitespace and non-ASCII digits are not.
- Settings.EnsureList: the warning logged for a non-int list element is not modelled.
- Keyboards.ChunksShape: the number of chunks (the size divided into the length, rounded up) is not stated.
- PollRegistry.ExtractWinner: the Python error message is modelled as a fixed string.
- Concurrency between handlers is not modelled. Each `DataManager` method is one atomic transition.
