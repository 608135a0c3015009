# VK Teams chat export bot — a Dafny model

The system is a Telegram bot that exports a user's VK Teams chats.

- **Session.** The user pastes an `aimsid` token. The bot builds a VK Teams session from it.
- **Chat list.** The bot lists the user's chats in three groups: group chats, private chats, and "hidden" chats (birthday and wedding congratulation chats). The list is a paged inline keyboard with checkboxes, a search filter and "select all".
- **History walk.** For every selected chat the bot walks the chat history backwards, page by page. The walk is `VKTeamsClient.export_chat`.
- **Failures.** Failed chats are sorted into three buckets: "no dialogue", "no access" and errors.
- **Output.** The exports are rendered as JSON and/or HTML. The HTML renderer escapes user text, labels file sizes, picks an icon for each file, and separates days with date lines.
- **Files.** On request, the shared files are collected, deduplicated, named on disk and downloaded up to a size quota. The bot builds a map from each file's URL to its stored copy and hands it to the HTML renderer. The renderer, as written, takes no such argument and links every file to its original URL (see "## Left out").
- **Locks.** A per-user lock keeps one export running at a time. A record of the last export with files blocks a new one for 600 seconds.
- **Global switch.** A global "files" switch can be turned off by an admin. It is meant to turn off on a full disk too, with a timer that turns it back on. As written, that path stops at the undefined disk settings (see "## Left out").

The model is a set of pure functions over immutable datatypes. One method models the retry loop of `send_document_with_retry`. Modules follow the source files:

| module | file | models |
|---|---|---|
| `VKTeams` | vkteams_client.dfy | `create_session_from_aimsid`, the status gate of `get_contact_list`/`get_history`, the request `get_history` sends, and the `export_chat` walk |
| `Config` | config.dfy | `ADMIN_IDS` parsing, `MESSAGES_PER_REQUEST` |
| `Delivery` | delivery.dfy | `send_document_with_retry` |
| `ChatList` | chat_list.dfy | `make_progress_bar`, `is_hidden_chat`, `is_unnamed_chat`, and the split and sort of `cmd_chats` |
| `ChatKeyboard` | chat_keyboard.dfy | `build_chats_keyboard`, the pagination callback, `toggle_chat_selection`, `select_all_current` |
| `ExportRun` | export_run.dfy | the per-chat loop of `do_actual_export` and its error classification |
| `Attachments` | attachments.dfy | the file phase of `do_actual_export`: folder names, deduplication, on-disk naming, quota-limited downloads, duplicate links, the disk gate |
| `ExportState` | export_state.dfy | the export conversation (`do_export`, `process_export`, `_show_files_question`, `handle_files_choice`, `handle_delete_files`, the lock) and the files switch (`_auto_disable_files`, `_scheduled_reenable_task`, `handle_admin_toggle`, start-up) |
| `Formatter` | export_formatter.dfy | `format_size`, `get_file_icon`, `render_message`, the member table and date separators of `format_as_html` |
| `HtmlEscape` | html_escape.dfy | Python's `html.escape` |
| `StableSort` | stable_sort.dfy | Python's stable `list.sort(key=...)` |
| `Text`, `Collections`, `Options` | text.dfy, collections.dfy, options.dfy | the `str` and list operations the source uses |

The server, the clock, the file system and the Telegram API do not appear as code. They are parameters:

- a `Server` function answers the n-th history request;
- a `fetch` function gives the outcome of downloading a URL;
- `tries(a)` is the outcome of send attempt `a`;
- `now`, `dirExists` and `usedBytes` are plain inputs.

## Model

| member | source | states |
|---|---|---|
| `VKTeams.SessionFromAimsid` | telegram_bot/vkteams_client.py:256-268 | the session keeps the token; the email is the text after the token's last ':' and is empty when there is no ':'; the email never holds a ':' |
| `VKTeams.SessionEmail` | telegram_bot/vkteams_client.py:264-265 | a token written as `<id>:<email>` (email without ':') yields exactly that email |
| `VKTeams.Gate` | telegram_bot/vkteams_client.py:57-58 | a reply is accepted iff its status code is 20000; then the results are returned, otherwise the error carries the reply's code |
| `VKTeams.ContactList` | telegram_bot/vkteams_client.py:53-61 | the contact list is returned iff the reply was accepted, and it is the reply's contacts |
| `VKTeams.HistoryRequest` | telegram_bot/vkteams_client.py:68-91 | the request carries the chat and the count; `fromMsgId` is sent iff a cursor is set, and it is that cursor |
| `VKTeams.SortByTime` | telegram_bot/vkteams_client.py:172 | the messages come out ordered by time, as a permutation of the input, with messages of equal time in their arrival order |
| `VKTeams.Advance` | telegram_bot/vkteams_client.py:123-156 | one pass of the loop makes exactly one more request, with the current cursor, and records it with the server's answer |
| `VKTeams.Walk` | telegram_bot/vkteams_client.py:123-169 | the walk only appends to the request history, at most one request per unit of fuel, each for the chat with the given count; it raises only when nothing was collected before, and exports under the chat's id |
| `VKTeams.ExportChat` | telegram_bot/vkteams_client.py:117-180 | as written, every request asks for 50 messages of the chat, at most one per unit of fuel |
| `VKTeams.ExportChatPaged` | telegram_bot/vkteams_client.py:117-180 | corrected, every request asks for 900 messages of the chat, at most one per unit of fuel |
| `VKTeams.AdvanceState` | telegram_bot/vkteams_client.py:123-160 | one pass from a state that agrees with its request history leads to a state that still agrees: collected messages, pinned messages, chat name and cursor are those the requests determine |
| `VKTeams.WalkSpec` | telegram_bot/vkteams_client.py:123-169 | every walk from a consistent state ends as a run of the loop: it exports what the requests collected, raises, or runs out of fuel, each for the reason the source gives |
| `VKTeams.ExportChatSpec` | telegram_bot/vkteams_client.py:117-180 | the export is a run of the loop. On export, the result holds exactly the collected messages in stable time order, the first page's pinned messages and chat name, and their count. The walk ends on an empty page, a page without older-id, a short page, or the message limit. It raises only on a failure past the third request with nothing collected. |
| `VKTeams.RaisedAfterThree` | telegram_bot/vkteams_client.py:165-168 | a failure that ends the walk comes after more than three requests, with no message collected |
| `VKTeams.OvershootBelowLastPage` | telegram_bot/vkteams_client.py:123-145 | since the limit is tested before each request, a run collects fewer than `max_messages` plus the size of its last page |
| `VKTeams.AtMostFourRequestsWithoutMessages` | telegram_bot/vkteams_client.py:165-169 | a run that collects nothing makes at most four requests |
| `VKTeams.EmptyHistoryEnds` | telegram_bot/vkteams_client.py:142-143 | a server that never sends a message cannot keep the walk going: given more than three requests' fuel, the walk ends (exported or raised) within four requests |
| `VKTeams.RetriesForeverAfterMessages` | telegram_bot/vkteams_client.py:165-169 | once a page has been collected, a server that fails every later request keeps the walk retrying until the fuel is spent: nothing bounds the retries |
| `VKTeams.ExportChatNeverPages` | telegram_bot/vkteams_client.py:72 | as written (count -50, threshold 900), against a server that honours the count, no request ever carries a `fromMsgId` |
| `VKTeams.ExportChatStopsAfterFullPage` | telegram_bot/vkteams_client.py:159-160 | as written, a server that always has more history gets one request; the export holds 50 messages although the page was full and offered an older-id |
| `VKTeams.ExportChatPagedEndsAtHistoryEnd` | telegram_bot/vkteams_client.py:145-160 | corrected (count -900): an export short of the limit ends only on a page that was empty, had no older-id, or fell short of the requested size |
| `Text.SplitLast` | telegram_bot/vkteams_client.py:265 | `s.split(sep)[-1]` is the text after the last separator |
| `Text.SplitJoin` | telegram_bot/config.py:12 | splitting a joined list gives the pieces back when none holds the separator |
| `Text.StripPadding` | telegram_bot/config.py:12 | `strip()` removes exactly the whitespace around a token, whitespace being Python's `str.isspace` set (tab to carriage return, the file/group/record/unit separators, space, NEL, no-break space and the Unicode spaces and line/paragraph separators) |
| `Text.ParseNatToString` | telegram_bot/config.py:12 | `int(str(n)) == n` for every natural number |
| `Text.LowerIdempotent` | telegram_bot/bot.py:567-568 | lower-casing twice is lower-casing once |
| `Config.ParseAdminIds` | telegram_bot/config.py:11-12 | at most one id per comma-separated token; a text without digits gives no ids |
| `Config.TokenIds` | telegram_bot/config.py:12 | a token contributes an id iff, stripped of Python whitespace, it is a non-empty run of ASCII digits |
| `Config.ParseJoin` | telegram_bot/config.py:12 | parsing a comma-joined list gives each token's contribution, in order |
| `Config.ParseFormat` | telegram_bot/config.py:12 | writing ids comma-separated and parsing them gives the same ids, in order, repeats kept |
| `Config.SpacedExample` | telegram_bot/config.py:9-12 | `"1, 2"` lists the admins 1 and 2 |
| `Config.DigitToken` | telegram_bot/config.py:12 | a whitespace-padded run of digits contributes exactly its value |
| `Config.ZeroPaddedToken` | telegram_bot/config.py:12 | `"007"` gives id 7 |
| `Config.SignedToken` | telegram_bot/config.py:12 | `"-5"` gives no id (`isdigit` rejects the sign) |
| `Config.MixedToken` | telegram_bot/config.py:12 | `"12a"` gives no id |
| `Delivery.SendWithRetry` | telegram_bot/bot.py:122-152 | at most `max_retries` attempts. Every attempt before the last was a timeout or network failure. The result is "sent" iff the last attempt delivered, and "propagated" iff it failed otherwise, with that error. On giving up, every allowed attempt was made and the last error is kept. The pauses are 2, 4, 8, ... seconds, none after the last attempt. |
| `Delivery.BackoffTotal` | telegram_bot/bot.py:141-145 | `n` attempts pause `2^n - 2` seconds in all |
| `Delivery.DefaultWaitBound` | telegram_bot/bot.py:122-145 | with the default four attempts the sender waits at most 14 seconds |
| `ChatList.TruncDiv` | telegram_bot/bot.py:86 | `int(a / b)` truncates toward zero: for non-negative `a` and positive `b` it is the floor of the quotient |
| `ChatList.Percent` | telegram_bot/bot.py:85-89 | the percentage shown is the whole part of `100 * current / total`: `p * total <= 100 * current < (p + 1) * total` |
| `ChatList.ProgressBar` | telegram_bot/bot.py:82-89 | a zero total gives `width` empty cells; otherwise the text is the bar for the filled count, then `current/total`, then the whole percentage in brackets |
| `ChatList.PercentRange` | telegram_bot/bot.py:85-89 | for progress within the total the percentage lies between 0 and 100, and is 100 exactly when the work is done |
| `ChatList.FilledBounds` | telegram_bot/bot.py:86-88 | for progress within the total the filled count lies between 0 and the width, and it is the width exactly when the work is done |
| `ChatList.ProgressBarShape` | telegram_bot/bot.py:86-89 | the bar has `width` cells, the filled ones first, and is full exactly when `current == total` |
| `ChatList.FilledMonotone` | telegram_bot/bot.py:86 | more progress never fills fewer cells |
| `ChatList.HasWordDrSpec` | telegram_bot/bot.py:196-199 | the regular-expression search finds "др" exactly when it stands somewhere between non-letters |
| `ChatList.IsHidden` | telegram_bot/bot.py:170-202 | a chat is hidden iff a phrase rule matches its lower-cased name or "др" stands in it as a word |
| `ChatList.HiddenWithin` | telegram_bot/bot.py:170-193 | a name matched by a phrase rule stays hidden wherever it is embedded |
| `ChatList.DrWordHidden` | telegram_bot/bot.py:196-199 | "ДР" standing alone hides a chat |
| `ChatList.DrInsideWordIgnored` | telegram_bot/bot.py:196-199 | "Адрес" is not hidden: "др" inside a word does not count |
| `ChatList.IsUnnamed` | telegram_bot/bot.py:205-218 | a chat is unnamed iff its name is empty or ends in "@chat.agent", and its friendly name is also empty or ends in "@chat.agent" |
| `ChatList.SortPrivate` | telegram_bot/bot.py:499 | private chats are ordered with history first, then by lower-cased name, as a permutation; chats with the same key keep their order from the contact list |
| `ChatList.FilterSorted` | telegram_bot/bot.py:503-507 | filtering hidden chats out of the sorted private list keeps it sorted |
| `ChatList.Partition` | telegram_bot/bot.py:494-507 | the shown groups, shown private chats and hidden chats together are exactly the named contacts, none lost or doubled; private chats are sorted |
| `ChatList.PartitionCounts` | telegram_bot/bot.py:494-507 | shown and hidden chats together are the named groups and named private chats |
| `ChatList.PartitionClassifies` | telegram_bot/bot.py:494-507 | each list holds what its heading says: a contact is in "groups" iff it is a named shown group, in "private" iff it is a named shown private chat, in "hidden" iff it is named and hidden |
| `ChatList.PrivateWithHistoryFirst` | telegram_bot/bot.py:499 | among listed private chats, every chat before one with history has history too |
| `ChatKeyboard.Search` | telegram_bot/bot.py:566-568 | an empty query keeps the list; otherwise the result holds exactly the chats whose name (or id) contains the query, ignoring case, and each is a chat of the list |
| `ChatKeyboard.SearchSingle` | telegram_bot/bot.py:566-568 | a one-chat list is kept iff the chat matches |
| `ChatKeyboard.SearchKeepsOrder` | telegram_bot/bot.py:566-568 | searching a joined list is joining the searches: the result keeps the list's order |
| `ChatKeyboard.EmptyQueryMatchesAll` | telegram_bot/bot.py:566 | skipping the filter for an empty query keeps what filtering would keep |
| `ChatKeyboard.SearchIgnoresCase` | telegram_bot/bot.py:567-568 | a lower-cased query matches the same chats as the query |
| `ChatKeyboard.PageItems` | telegram_bot/bot.py:570-573 | the page holds the chats from `page * page_size` on, at most `page_size` of them, none past the end |
| `ChatKeyboard.TotalPages` | telegram_bot/bot.py:597 | there is always at least one page |
| `ChatKeyboard.EveryChatOnItsPage` | telegram_bot/bot.py:570-597 | chat `k` is item `k % page_size` of page `k // page_size`, and that page number is below the page count |
| `ChatKeyboard.PageHasChatsIff` | telegram_bot/bot.py:570-597 | a page has chats iff the list is not empty and the page is one of the counted pages |
| `ChatKeyboard.Shorten` | telegram_bot/bot.py:585-588 | short texts are kept; longer ones are cut to `n` characters plus an ellipsis |
| `ChatKeyboard.ChatLabel` | telegram_bot/bot.py:576-588 | a deleted account shows the deleted mark followed by the first 23 characters of its id (the whole id when it fits, the shown name when the id is empty); any other chat shows the first 28 characters of its shown name, the whole name when it fits, and at most 29 characters |
| `ChatKeyboard.ChatButton` | telegram_bot/bot.py:591-592 | the checkbox is ticked iff the chat's id is selected; the button sends `select:` |
| `ChatKeyboard.SelectCallbackReadsBack` | telegram_bot/bot.py:770 | the toggle handler reads back the chat id the button was built with, colons included |
| `ChatKeyboard.PageCallbackReadsBack` | telegram_bot/bot.py:645-647 | the pagination handler reads back the list and page number the button was built with |
| `ChatKeyboard.NavRow` | telegram_bot/bot.py:598-605 | a back arrow is offered iff the page is not the first; a forward arrow iff it is not the last |
| `ChatKeyboard.ModeRowOffersOthers` | telegram_bot/bot.py:620-633 | the list row offers every other list (the hidden one only when there are hidden chats) and never the current one |
| `ChatKeyboard.SearchRow` | telegram_bot/bot.py:613-618 | the search row offers a reset button iff a query is set |
| `ChatKeyboard.KeyboardLayout` | telegram_bot/bot.py:553-639 | one row per chat of the requested page of the search result, in order, at most a page of them; the navigation row only when there is more than one page; four fixed rows after that, the last being the export button counting the selection |
| `ChatKeyboard.BuildKeyboard` | telegram_bot/bot.py:553-639 | the keyboard has one row per chat of the page, a navigation row when there are several pages, and then the selection, search, list and export rows |
| `ChatKeyboard.RemoveFirst` | telegram_bot/bot.py:779 | `list.remove` drops the first occurrence of a present id: the part before it and the part after it are kept in order; an absent id leaves the list alone |
| `ChatKeyboard.Toggle` | telegram_bot/bot.py:778-781 | a selected id loses its first occurrence, the rest keeping its order; an unselected one is appended at the end |
| `ChatKeyboard.ToggleFlips` | telegram_bot/bot.py:778-781 | on a list without repeats, a toggle flips the id's membership, leaves other ids alone and adds no repeat |
| `ChatKeyboard.ToggleTwiceRestores` | telegram_bot/bot.py:778-781 | toggling an unselected id twice restores the selection exactly |
| `ChatKeyboard.ToggleTwiceSameIds` | telegram_bot/bot.py:778-781 | toggling a selected id twice restores the same ids, with the id moved to the end |
| `ChatKeyboard.SelectAll` | telegram_bot/bot.py:837-840 | the old selection stays a prefix; every chat's non-empty id is selected afterwards; only new, non-empty, distinct ids of the chats are added |
| `ChatKeyboard.SelectAllNoDup` | telegram_bot/bot.py:837-840 | select-all adds no repeats to a list without repeats |
| `ChatKeyboard.SelectAllIdempotent` | telegram_bot/bot.py:837-840 | selecting all a second time adds nothing |
| `ChatKeyboard.SelectAllMatching` | telegram_bot/bot.py:825-840 | every chat the current search shows and that has an id is selected afterwards |
| `ExportRun.Classify` | telegram_bot/bot.py:1300-1310 | "No such dialogue" wins; then the access errors (40300, 40401, permission, group not found, no such member); anything else is an error |
| `ExportRun.NoDialogueWins` | telegram_bot/bot.py:1301-1303 | a text naming both a missing dialogue and a denied permission counts as no dialogue |
| `ExportRun.ExportAll` | telegram_bot/bot.py:1267-1310 | each selected chat lands in exactly one of the four lists |
| `ExportRun.ExportsAreFetched` | telegram_bot/bot.py:1289-1290 | the exports are the data of the chats that were fetched, in selection order |
| `ExportRun.NoDialogsAreFiltered` | telegram_bot/bot.py:1301-1303 | the "no dialogue" list is the selected chats whose export failed with that text, in order |
| `ExportRun.NoAccessAreFiltered` | telegram_bot/bot.py:1304-1308 | the "no access" list is the selected chats whose export failed with an access error, in order |
| `ExportRun.ErrorsAreFiltered` | telegram_bot/bot.py:1309-1310 | the error lines are `"{sn}: {err}"` for the remaining failed chats, in order |
| `Attachments.Sanitize` | telegram_bot/bot.py:1373-1374 | same length; no character of `/\:*?"<>\|` is left; every other character is kept in place |
| `Attachments.SanitizeIdempotent` | telegram_bot/bot.py:1373-1374 | sanitising a sanitised name changes nothing |
| `Attachments.FolderOf` | telegram_bot/bot.py:1372-1375 | a folder name is 1 to 60 characters long and holds no unsafe character; a safe, unpadded raw name of at most 60 characters is used as it is |
| `Attachments.FolderName` | telegram_bot/bot.py:1371-1375 | the chat's name decides the folder when it is non-empty, else its friendly name, else its id, else "unknown" |
| `Attachments.UnknownKept` | telegram_bot/bot.py:1371-1375 | "unknown" is its own folder name |
| `Attachments.SplitExt` | telegram_bot/bot.py:1459 | `os.path.splitext`: stem and extension join to the name; the extension is empty or a dot with no further dot, and a name of leading dots has no extension |
| `Attachments.PlanInvariant` | telegram_bot/bot.py:1367-1398 | the planning loop keeps its invariant: each URL is planned once; each named file is planned once per folder; the seen (folder, name) keys are those of the named planned files, and each maps to that file's URL |
| `Attachments.PlanStep` | telegram_bot/bot.py:1379-1398 | a file without URL or with a planned URL changes nothing; otherwise the file is either planned at the end or, when its (folder, name) was seen, recorded as a duplicate of its URL, other duplicates unchanged; never both |
| `Attachments.Plan` | telegram_bot/bot.py:1377-1398 | each item is planned or recorded as a duplicate at most once, and every planned file has a URL |
| `Attachments.PlanDeduplicates` | telegram_bot/bot.py:1383-1398 | each URL is planned at most once, and within a folder each non-empty name at most once |
| `Attachments.PlanCovers` | telegram_bot/bot.py:1377-1398 | every file with a URL is planned or recorded as a duplicate; a nameless one is always planned |
| `Attachments.DupTargetOtherFolder` | telegram_bot/bot.py:1385-1398 | as written: with chats F, G, F sharing a file named "n", the third file is pointed at G's file |
| `Attachments.DupTargetsSameFolder` | telegram_bot/bot.py:1385-1398 | corrected: a duplicate points at the planned file with its own folder and name |
| `Attachments.DupTargetFixed` | telegram_bot/bot.py:1385-1398 | corrected: the same three files point the duplicate at the first F file |
| `Attachments.CandidateInjective` | telegram_bot/bot.py:1459-1460 | different suffix numbers give different candidate names |
| `Attachments.FreshIndexUnused` | telegram_bot/bot.py:1458-1461 | the suffix chosen by the corrected naming is not in use |
| `Attachments.RelPath` | telegram_bot/bot.py:1451-1461 | a file's path lies in its chat's folder; with the re-check it is not already used |
| `Attachments.RelPaths` | telegram_bot/bot.py:1447-1465 | one path per planned file, each in that file's folder |
| `Attachments.RelPathsUnique` | telegram_bot/bot.py:1447-1465 | corrected: no two planned files share a path |
| `Attachments.CollidingPaths` | telegram_bot/bot.py:1458-1462 | as written: a chat sharing "file_2" and two nameless files gets two files stored at "F/file_2" |
| `Attachments.DistinctPaths` | telegram_bot/bot.py:1458-1462 | corrected: the same files get three different paths |
| `Attachments.FileList` | telegram_bot/bot.py:1465 | one (url, path) pair per planned file, in planning order |
| `Attachments.Download` | telegram_bot/bot.py:1470-1491 | no more downloads than files, and only URLs from the list get links |
| `Attachments.DownloadOne` | telegram_bot/bot.py:1470-1489 | a file is downloaded iff the total is still below the quota and its body is not empty; then the count grows by one, the total by the body's size, and its URL is linked to its path; otherwise nothing changes |
| `Attachments.QuotaClosesForGood` | telegram_bot/bot.py:1473-1474 | once the running total reaches the quota, no later file is downloaded |
| `Attachments.QuotaOvershoot` | telegram_bot/bot.py:1473-1486 | with downloads one after another, the total overshoots the quota by less than one file |
| `Attachments.TotalBound` | telegram_bot/bot.py:1481-1486 | each file adds at most the per-file limit |
| `Attachments.DownloadedIff` | telegram_bot/bot.py:1473-1487 | a URL gets a link iff a file with that URL was started under the quota and its body was not empty |
| `Attachments.LinkedPath` | telegram_bot/bot.py:1487 | a linked URL points at the stored path of its (last) file |
| `Attachments.UnderQuotaAllAdmitted` | telegram_bot/bot.py:1473 | far below the quota every file is started |
| `Attachments.ResolveDups` | telegram_bot/bot.py:1508-1510 | corrected: a duplicate gets its target's link as downloaded when the target was downloaded; every other link is kept |
| `Attachments.ResolveOne` | telegram_bot/bot.py:1509-1510 | one pass: a duplicate whose target has a link takes that link; nothing else changes |
| `Attachments.ResolveInPlace` | telegram_bot/bot.py:1508-1510 | as written: the walk in insertion order keeps every downloaded link and changes only duplicates |
| `Attachments.InPlaceLinksStored` | telegram_bot/bot.py:1508-1510 | every link the walk leaves is the link of some downloaded file |
| `Attachments.InPlaceKeys` | telegram_bot/bot.py:1508-1510 | a url gains a link only as a visited duplicate whose target ends linked; a visited duplicate of a downloaded target is linked |
| `Attachments.InPlaceUntouched` | telegram_bot/bot.py:1508-1510 | a url the walk does not visit keeps its link |
| `Attachments.InPlaceStuck` | telegram_bot/bot.py:1508-1510 | a downloaded duplicate whose target is never linked keeps its own link |
| `Attachments.InPlaceDirect` | telegram_bot/bot.py:1508-1510 | a duplicate whose target was downloaded and is not itself visited gets the target's own link |
| `Attachments.InPlaceWithoutChains` | telegram_bot/bot.py:1508-1510 | when the walk visits exactly the duplicates and no target is itself a duplicate, the walk and the corrected resolution give the same links |
| `Attachments.PlanOrder` | telegram_bot/bot.py:1366-1388 | the duplicate map's insertion order lists each duplicate exactly once |
| `Attachments.ChainPrefix` | telegram_bot/bot.py:1377-1398 | the first three chain items plan "u1" in F and "u" in G, and record "u" as a duplicate of "u1" |
| `Attachments.ChainPlan` | telegram_bot/bot.py:1377-1398 | F sharing "u1" then "u" named "n" and G sharing "u" then "w" named "n": "u1" is planned in F, "u" in G, and the duplicates are "u" of "u1" then "w" of "u" |
| `Attachments.ChainedDupInPlace` | telegram_bot/bot.py:1508-1510 | as written: on that chain "w" gets the link of "u1", the file in F, while the corrected resolution gives it the link of "u" as downloaded |
| `Attachments.FilesPhase` | telegram_bot/bot.py:1400-1510 | when the exports directory already holds the disk budget nothing is linked. Otherwise every downloaded url keeps a link; only downloaded urls and duplicates are linked; a downloaded url that is no duplicate keeps its own link; every link is a downloaded file's link. As written (in-place walk) every visited duplicate whose target was downloaded is linked; corrected, each such duplicate gets its target's link as downloaded |
| `Attachments.InPlaceAll` | telegram_bot/bot.py:1508-1510 | the walk's links extend the downloaded ones by duplicates only, each is a downloaded file's link, and every visited duplicate with a downloaded target is linked |
| `Attachments.PlannedDupsLinked` | telegram_bot/bot.py:1366-1510 | as written too, after planning every duplicate whose target was downloaded gets a link, since the walk visits every duplicate |
| `Attachments.NothingFetched` | telegram_bot/bot.py:1470-1491 | when no fetch yields a body, nothing is downloaded, counted or linked |
| `Attachments.PlannedLinkPath` | telegram_bot/bot.py:1465-1487 | a downloaded planned file is linked to its own path |
| `Attachments.LinksDistinct` | telegram_bot/bot.py:1447-1487 | corrected: two different downloaded URLs never share a stored file |
| `Attachments.PlannedLink` | telegram_bot/bot.py:1456-1487 | corrected: a downloaded file is linked into its own chat's folder |
| `Attachments.DupLinkedInOwnFolder` | telegram_bot/bot.py:1385-1510 | corrected end to end: a linked duplicate is linked to a file in its own chat's folder |
| `Attachments.CollidingLinks` | telegram_bot/bot.py:1458-1487 | as written: the first file and the third nameless file get the same link, "F/file_2", whose content the later download overwrites |
| `Attachments.DistinctLinks` | telegram_bot/bot.py:1458-1487 | corrected: the same downloads give the files distinct links |
| `ExportState.Round` | telegram_bot/bot.py:1083 | Python's `round`: within one half of the argument, ties to even |
| `ExportState.RoundExamples` | telegram_bot/bot.py:1083 | `round(2.5) == 2`, `round(3.5) == 4` |
| `ExportState.BlocksWithinWindow` | telegram_bot/bot.py:1079-1082 | a record blocks a new files export iff its directory exists and less than 600 seconds have passed |
| `ExportState.WarningMinutes` | telegram_bot/bot.py:1083 | the minutes shown are at least 1 and otherwise the rounded remaining minutes |
| `ExportState.WarningMinutesRange` | telegram_bot/bot.py:1116-1120 | a record made no later than now shows between 1 and 10 minutes |
| `ExportState.Start` | telegram_bot/bot.py:1211-1212 | starting takes the lock and keeps the active record |
| `ExportState.StartLocks` | telegram_bot/bot.py:1212-1736 | a started export holds the lock; only the end of an export releases it, and reaching the end does |
| `ExportState.BusyChangesNothing` | telegram_bot/bot.py:994-997 | a step is refused as busy iff the user is exporting and the step checks the lock, and a refusal changes nothing |
| `ExportState.FilesOnlyWhenOn` | telegram_bot/bot.py:1062-1069 | no export with files starts while files are switched off |
| `ExportState.FormatRespectsActive` | telegram_bot/bot.py:1077-1099 | the format step never starts a files export over a blocking record, and drops a record that no longer blocks |
| `ExportState.WarningIff` | telegram_bot/bot.py:1101-1139 | the active-export warning is shown iff a files export is asked for over a blocking record; it offers "without files" unless the format was files-only |
| `ExportState.FilesQuestion` | telegram_bot/bot.py:1105-1155 | with files off the export starts without files; the warning (offering "without files") iff a record blocks; otherwise the stale record is dropped and the question asked |
| `ExportState.FormatStep` | telegram_bot/bot.py:1050-1102 | refused iff exporting; files-only refused iff files are off; JSON starts at once without files; an export with files never starts over a blocking record or with files off; only HTML and both reach the question |
| `ExportState.FilesStep` | telegram_bot/bot.py:1158-1180 | busy iff guarded and exporting; otherwise the chosen format starts, with files iff files are on and the answer was not "no"; "delete" with files on drops the record, and nothing else touches it |
| `ExportState.DeleteMatchesRecord` | telegram_bot/bot.py:1184-1195 | the delete button removes the record iff it belongs to it; otherwise nothing changes |
| `ExportState.States` | telegram_bot/bot.py:979-1195 | a run of steps has one state more than inputs and starts from the given state |
| `ExportState.Step` | telegram_bot/bot.py:979-1195 | "no session" and "nothing selected" answer exactly the export button in those cases; only the format and files answers start an export, taking the lock; the end of an export releases it and records the new record if any; no other step touches the lock; delete succeeds iff the record's id matches |
| `ExportState.LockHeld` | telegram_bot/bot.py:1212 | after a start the lock is held until an export ends |
| `ExportState.DoubleTapStartsTwice` | telegram_bot/bot.py:1158-1180 | as written: pressing "with files" twice starts two exports |
| `ExportState.NoSecondStart` | telegram_bot/bot.py:1158-1180 | corrected: no step starts an export while one is running |
| `ExportState.DoubleTapRefused` | telegram_bot/bot.py:1158-1180 | corrected: the second press is refused as busy |
| `ExportState.OneExportAtATime` | telegram_bot/bot.py:1158-1212 | corrected: between two starts some export has ended |
| `ExportState.AutoDisable` | telegram_bot/bot.py:1762-1766 | files are off, with a re-enable time `minutes * 60` seconds from now |
| `ExportState.OnDiskFull` | telegram_bot/bot.py:1411-1414 | a full disk auto-disables files only while they are on |
| `ExportState.Reenable` | telegram_bot/bot.py:1781-1793 | a waking timer changes the switch iff its time is still the pending one, and then turns files on and clears the time |
| `ExportState.AdminOn` | telegram_bot/bot.py:1986-1990 | the admin's "on" turns files on and cancels any pending re-enable |
| `ExportState.AdminOff` | telegram_bot/bot.py:1992-1994 | the admin's "off" turns files off and keeps the pending time |
| `ExportState.Startup` | telegram_bot/bot.py:2100-2123 | with no stored time the stored flag decides; a future stored time keeps files off and pending; a past one turns them on |
| `ExportState.ReplayConsistent` | telegram_bot/bot.py:1762-1994 | every event keeps "a pending re-enable time means files are off" |
| `ExportState.Replay` | telegram_bot/bot.py:1762-1994 | without an admin's "on" or a timer waking, files that are off stay off |
| `ExportState.StartupConsistent` | telegram_bot/bot.py:2100-2123 | the start-up switch is consistent |
| `ExportState.TurnOnDisarms` | telegram_bot/bot.py:1986-1990 | after an admin's "on", no timer changes anything |
| `ExportState.OnlyLatestTimer` | telegram_bot/bot.py:1789-1790 | an earlier auto-disable's timer wakes to a different pending time and changes nothing |
| `ExportState.WakeOnce` | telegram_bot/bot.py:1789-1793 | a timer acts at most once |
| `ExportState.TurnOffKeepsTimer` | telegram_bot/bot.py:1992-1994 | an admin's "off" after an auto-disable does not stop the timer from turning files back on |
| `Formatter.ParseLiteral` | telegram_bot/export_formatter.py:635 | `int()` of an unpadded text succeeds iff it is a run of digits with single underscores between digits, with an optional sign; a plain run of digits reads as its value; the sign decides the sign of the value |
| `Formatter.ParseIntText` | telegram_bot/export_formatter.py:635 | `int(s)` succeeds iff `s` stripped of Python whitespace is such a literal; a stripped digit run reads as its value |
| `Formatter.ParseIntTextReadsBack` | telegram_bot/export_formatter.py:635 | `int(str(n)) == n` for every integer |
| `Formatter.GroupedThousands` | telegram_bot/export_formatter.py:635 | `"1_000"` reads as 1000 |
| `Formatter.DoubleUnderscoreRefused` | telegram_bot/export_formatter.py:635 | `"1__0"` does not parse |
| `Formatter.FormatSize` | telegram_bot/export_formatter.py:631-642 | no label iff the size is missing, zero or unreadable; otherwise bytes below 1024, KB below 1024², MB from there, carrying the size |
| `Formatter.FormatSizeMonotone` | telegram_bot/export_formatter.py:638-642 | a bigger size never gets a smaller unit |
| `Formatter.FormatSizeText` | telegram_bot/export_formatter.py:631-642 | a size given as a digit string gets the same label as the number |
| `Formatter.ByteText` | telegram_bot/export_formatter.py:639 | the byte text ends in " Б" |
| `Formatter.ByteTextReadsBack` | telegram_bot/export_formatter.py:639 | the byte text reads back as its number |
| `Formatter.FileIcon` | telegram_bot/export_formatter.py:645-658 | each icon is chosen iff its rule is the first that matches the MIME type; the clip otherwise |
| `Formatter.IconsDistinct` | telegram_bot/export_formatter.py:645-658 | the six icons are distinct, so each names one rule |
| `Formatter.MembersKeys` | telegram_bot/export_formatter.py:59-72 | the member table has an entry exactly for the non-empty senders |
| `Formatter.Members` | telegram_bot/export_formatter.py:59-72 | the table has no entry for an empty sender, and the first message's sender maps to that message's nickname |
| `Formatter.MemberHasMessage` | telegram_bot/export_formatter.py:59-72 | every entry belongs to a sender of some message |
| `Formatter.MessageHasMember` | telegram_bot/export_formatter.py:59-72 | every non-empty sender has an entry |
| `Formatter.MembersFirst` | telegram_bot/export_formatter.py:68-72 | a sender's entry is the nickname on that sender's first message |
| `Formatter.SenderName` | telegram_bot/export_formatter.py:581-589 | personal chats show "Вы" or the chat id; group chats prefer the table's nickname, then the message's, then the sender id |
| `Formatter.GroupSenderFromTable` | telegram_bot/export_formatter.py:59-72 | in a group chat every message of a sender shows the nickname of that sender's first message |
| `Formatter.PartBlocks` | telegram_bot/export_formatter.py:599-614 | a text part shows its caption or text when non-empty; quotes and forwards show the escaped sender and the first 200 characters; other parts show nothing |
| `Formatter.RenderMessage` | telegram_bot/export_formatter.py:569-628 | outgoing messages get the "out" class; the sender line is absent iff the message is outgoing or the chat personal, and is the escaped sender name or "?"; the content is the parts, or the text, then the files |
| `Formatter.TextIgnoredWithParts` | telegram_bot/export_formatter.py:598-616 | a message with parts never shows its own text |
| `Formatter.TextShownWithoutParts` | telegram_bot/export_formatter.py:615-616 | a message without parts shows its text iff it is non-empty |
| `Formatter.RenderedSafe` | telegram_bot/export_formatter.py:591-623 | no markup character survives in the sender line or in any block |
| `Formatter.QuoteReadsBack` | telegram_bot/export_formatter.py:606-609 | unescaping a quote gives back the quoted sender and the first 200 characters |
| `Formatter.TextPartReadsBack` | telegram_bot/export_formatter.py:601-605 | unescaping a text part gives back its caption, else its text |
| `Formatter.SenderReadsBack` | telegram_bot/export_formatter.py:591 | unescaping the sender line gives back the sender name, or "?" |
| `Formatter.SeparatorsFromSpec` | telegram_bot/export_formatter.py:76-83 | a date line goes before a message iff it has a time and its date differs from the last dated message before it |
| `Formatter.SeparatorsFrom` | telegram_bot/export_formatter.py:76-83 | a date line stands only before a message with a time and shows that message's date; the first timed message gets one iff its date differs from the current one |
| `Formatter.SeparatorAt` | telegram_bot/export_formatter.py:76-83 | the same statement from the start of the chat |
| `HtmlEscape.Escape` | telegram_bot/export_formatter.py:7 | the escape is at least as long as the text and holds no `<`, `>`, `"` or `'` |
| `HtmlEscape.UnescapeEscape` | telegram_bot/export_formatter.py:7 | unescaping an escaped text gives it back |
| `HtmlEscape.EscapeInjective` | telegram_bot/export_formatter.py:7 | different texts never escape to the same markup |
| `HtmlEscape.EscapeAppend` | telegram_bot/export_formatter.py:7 | escaping a concatenation is concatenating the escapes |
| `StableSort.Sort` | telegram_bot/vkteams_client.py:172 | the output is sorted by key, a permutation of the input, and keeps the input order among equal keys |
| `StableSort.InsertWithKey` | telegram_bot/vkteams_client.py:172 | inserting an element places it after every element of its key |

## Left out

- Telegram I/O is not modelled. This covers aiogram handlers, message edits and answers, FSM storage, and the text of the bot's messages. Keyboards are lists of (text, callback) buttons.
- The VK Teams HTTP transport, `send_code`/`verify_code` login and the aiohttp session are not modelled. A reply is the decoded JSON's status code and results, or a transport failure.
- The file-server lookups `get_file_dlink` and `download_file` become the `fetch` parameter. The 500 MiB size limit is part of the fetched outcome. As written, `vkteams_client.py` defines neither method, nor `get_avatar`. So every download raises and is caught at bot.py:1488, and nothing is downloaded; `NothingFetched` states that case.
- `format_as_html` (export_formatter.py:15) takes only the export, but bot.py:1594 also passes `avatars`, `names` and `files_url_map`. As written, that call raises `TypeError`, and bot.py:1596-1599 writes the error page instead. The model renders messages as `render_message` does, with each file linked to its `original_url` (export_formatter.py:620). The stored-file links computed by `FilesPhase` are not used in the HTML.
- The semaphore with five parallel downloads is modelled as one download after another in list order. Real completions may interleave, so which file crosses the quota is not fixed.
- `Attachments.QuotaOvershoot`: the bound holds for one download after another. With `Semaphore(5)` (bot.py:1468), up to five downloads can pass the quota test at bot.py:1473 before any of them adds its size at bot.py:1486. The source can then overshoot by up to five files of up to 500 MiB each.
- Avatars, zip creation, the free-space check before zipping, and the clean-up of old export directories are not modelled.
- `MAX_DISK_GB` and `MAX_EXPORT_GB` are read from `config`, but `config.py` does not define them. `ExportState.FilesQuestion`, `Attachments.FilesPhase`, `ExportState.OnDiskFull` and `ExportState.AutoDisable` model the program with both settings defined, as parameters. As written, each read raises `AttributeError`:
  - bot.py:1150 raises whenever `_show_files_question` would ask about files, where `FilesQuestion` answers `AskFiles`;
  - bot.py:1411 raises in `do_actual_export` as soon as a files export has any file. The lock taken at bot.py:1212 is then never released;
  - bot.py:1769 raises after `_auto_disable_files` has turned files off, but before the re-enable timer is scheduled at bot.py:1778.
- The disk usage is a byte count. The source compares a float sum of GiB fractions.
- Clocks are `real`s without floating-point rounding. Dates (`datetime.fromtimestamp`, `strftime`) are a `dateOf` parameter.
- `.1f` float formatting of KB and MB is left out. `FormatSize` returns the unit and the number.
- `Text.Lower` covers ASCII and Russian Cyrillic only, not all of Unicode's case mapping. `IsSpace` is Python's `str.isspace` set in full.
- `Config.TokenIds`: digits are ASCII only. Python's `isdigit` and `int()` also accept other Unicode decimal digits, and `isdigit` accepts some digits, such as superscripts, that `int()` then rejects with an exception.
- `Formatter.ParseIntText`: digits are ASCII only; `int()` also accepts other Unicode decimal digits.
- `ChatList.ProgressBar`: the percentage and filled count are computed on exact integers. The source divides in floating point, so `int(29 / 100 * 100)` shows 28%, where the model shows 29%.
- `ChatList.Percent`: it is the exact floor of `100 * current / total`. The source's float `int(current / total * 100)` (bot.py:85 and 89) can show one less, as for 29 out of 100.
- `ChatList.FilledBounds`: the filled count is the exact floor of `width * current / total`. The source's float `int(width * (current / total))` (bot.py:85-86) can be one less when the exact product is a whole number. The bounds 0 to `width`, and `width` exactly when done, hold for the float too.
- `ExportState.StartLocks`: the model has no event for an exception between taking the lock (bot.py:1212) and releasing it (bot.py:1736). The source has no `try`/`finally` there, so an exception, for example from the message edit at bot.py:1215, leaves `user_exporting` set until restart.
- `VKTeams.ExportChatWith` and friends take a `fuel` bound because a failing server can keep the walk retrying forever (`RetriesForeverAfterMessages`). An `OutOfFuel` result stands for a walk that had not ended.
- The 0.3-second pauses between requests and chats are left out, and so is the logging.
- `stats.py`, `stats_server.py`, the admin broadcast and statistics screens, and the environment loading of the other settings are not modelled. The same goes for the rest of the HTML template of `format_as_html`: the chat sidebar, the pinned block and the JavaScript.
- `ExportState.FormatRespectsActive` speaks of the format step only. The files answer (`handle_files_choice`) does not look at the active record, so a stale "with files" button starts a files export over a blocking record. The model keeps that behaviour.
- `Delivery.SendWithRetry`: the pauses are returned rather than slept.
- `ExportState.Startup`: a stored time that does not parse as a float keeps the stored flag. This is the same as no stored time, and the model takes that path.

## Findings

| source | as written | input that shows it | evidently intended | confidence | as-written member | corrected member |
|---|---|---|---|---|---|---|
| telegram_bot/vkteams_client.py:72 | `get_history` asks for 50 messages (count -50), but `export_chat` treats any page shorter than `MESSAGES_PER_REQUEST` (900) as the end of the history (line 159) | a chat with more than 50 messages: the first page has 50 and an older-id, 50 < 900, and the walk stops | ask for pages of `MESSAGES_PER_REQUEST`, so that only a short page ends the walk | not executed; high | `VKTeams.ExportChatStopsAfterFullPage` | `VKTeams.ExportChatPagedEndsAtHistoryEnd` |
| telegram_bot/bot.py:1388 | `name_to_url` is keyed by file name only, while duplicates are detected per (folder, name) | three chats F, G, F (two share a folder name) each sharing a file "n": the third is a duplicate in F but is pointed at G's file | key the first-URL map by (folder, name) | not executed; high | `Attachments.DupTargetOtherFolder` | `Attachments.DupTargetsSameFolder` |
| telegram_bot/bot.py:1458-1461 | on a path collision the suffixed name `{base}_{i}{ext}` is used without checking it again | a chat sharing "file_2" and two nameless files: the third nameless file becomes "file_2", the first file's path, and its download overwrites it | pick a suffix whose path is not yet used | not executed; high | `Attachments.CollidingLinks` | `Attachments.RelPathsUnique` |
| telegram_bot/bot.py:1508-1510 | duplicate links are resolved in place, walking the duplicates in insertion order, so a target that was itself re-pointed earlier passes its new link on | F shares "u1" then "u" named "n", G shares "u" then "w" named "n": "u" is re-pointed to F's file first, and then "w", shared only in G, gets F's file too | give each duplicate its target's link as downloaded | not executed; medium | `Attachments.ChainedDupInPlace` | `Attachments.DupLinkedInOwnFolder` |
| telegram_bot/bot.py:1158-1180 | `handle_files_choice` starts an export without the `user_exporting` check its sibling handlers make | pressing "with files" twice on the same message: the second press starts a second export while the first runs | refuse with "export already running" like `do_export` and `process_export` | not executed; medium | `ExportState.DoubleTapStartsTwice` | `ExportState.OneExportAtATime` |
