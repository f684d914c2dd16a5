# sowestart, modelled in Dafny

Sowestart is a browser new-tab dashboard. Around its DOM, network and timer code sit small pieces of pure logic, and this project models them:

- the iCalendar reader and the event merge of the calendar widget;
- the RSS/Atom reader, with its fifteen-minute article cache;
- the command palette: fuzzy search, scoring, recent commands and selection;
- the Pomodoro focus timer;
- the to-do list;
- quick links: saving, deleting, popular sites and bookmark import;
- the settings store;
- the search box;
- the settings panel: colours, calendar subscriptions, durations, theme, background options;
- translations;
- the clock;
- the quote widget;
- the early theme script.

Each source file is one module:

| module | source file |
|---|---|
| `Calendar` | `js/calendar.js` |
| `Rss` | `js/rss.js` |
| `Commands` | `js/commands.js` |
| `FocusTimer` | `js/focusTimer.js` |
| `Todo` | `js/todo.js` |
| `Links` | `js/links.js` |
| `Storage` | `js/storage.js` |
| `Search` | `js/search.js` |
| `Settings` | `js/settings.js` |
| `I18n` | `js/i18n.js` |
| `Clock` | `js/clock.js` |
| `Quotes` | `js/quotes.js` |
| `ThemeInit` | `js/theme-init.js` |
| `Utils` | `js/utils.js` |

Four helper modules model the JavaScript built-ins the code relies on:

- `Strings`: `trim`, `startsWith`, `indexOf`, `includes`, `split`, `join`, `replace`, ASCII `toLowerCase`.
- `Numerals`: `parseInt` with its whitespace, sign, `0x` and longest-digit-run rules, `String(n)` and `padStart(2, '0')`.
- `Sorting`: `Array.prototype.sort`, which is stable, with a numeric comparator, and the default string sort.
- `Lists`: flattening a list of lists, and taking a prefix (`slice(0, n)`).

`Wrappers` holds `Option`.

State is modelled with immutable values and pure functions. Each operation takes the state it reads and returns the state it writes. Some things come from outside the program, and each becomes a parameter:

- the browser: the result of a fetch, the answer to a `prompt` or `confirm`, `encodeURIComponent`, the `URL` constructor's verdict;
- the clock: the current time in milliseconds, today's date string, the local hour, minute and second;
- chance: the random pick of a fallback quote;
- time ordering: the ordering of parsed dates is an abstract `instant` function.

## Model

| member | source | states |
|---|---|---|
| Calendar.SplitLines | js/calendar.js:98 | splitting on `\r\n`, `\n` or `\r` gives at least one line, and no line holds a line break |
| Calendar.SplitLinesJoin | js/calendar.js:98 | for text whose only line ends are `\n`, joining the lines with `\n` gives the text back |
| Calendar.UnfoldCount | js/calendar.js:102-108 | unfolding yields one logical line for each physical line that does not start with a space or tab (the first line always counts) |
| Calendar.UnfoldFromText | js/calendar.js:102-108 | the logical lines are the trimmed physical lines, concatenated in order; no text is lost |
| Calendar.FoldedLineUnfolds | js/calendar.js:103-108 | a line folded onto a continuation line starting with a space or tab unfolds exactly like the unfolded line |
| Calendar.ParseLine | js/calendar.js:119-141 | no field for a line without `:` or one starting with `:` or `;`; otherwise the name is a non-empty prefix without `:` or `;`, the value is everything after the first colon, and there are no parameters unless a `;` precedes that colon |
| Calendar.ParseLinePlain | js/calendar.js:136-139 | `NAME:value` reads back as that name and value, with no parameters |
| Calendar.ParseLineWithParam | js/calendar.js:123-135 | `NAME;KEY=VAL:value` reads back as that name, that single parameter and that value |
| Calendar.ParseParamsSingle | js/calendar.js:130-135 | a single `KEY=VAL` parameter text reads as exactly that parameter |
| Calendar.AddParamsAppend | js/calendar.js:130-135 | parameter pieces are applied left to right: adding them in two parts is adding them at once, so a later pair overrides an earlier one |
| Calendar.DroppedPiece | js/calendar.js:130-135 | a piece that is not a proper `KEY=VALUE` pair adds nothing, wherever it stands |
| Calendar.EmptyPartDropped | js/calendar.js:131-132 | a pair with an empty key or an empty value is not a proper pair |
| Calendar.NoEqualsDropped | js/calendar.js:131-132 | a piece without `=` is not a proper pair |
| Calendar.UnescapeNoBackslash | js/calendar.js:203-210 | text without a backslash comes back unchanged |
| Calendar.UnescapeShrinks | js/calendar.js:205-209 | unescaping never makes text longer |
| Calendar.RemoveTzidAbsent | js/calendar.js:175 | a value with no `;TZID=` fragment is left as it is |
| Calendar.NoTzidWithoutSemicolon | js/calendar.js:175 | a value without `;` has nothing to remove |
| Calendar.ParseDateTime | js/calendar.js:173-201 | a local date exactly when `VALUE=DATE` is given or the cleaned value has 8 characters; otherwise UTC exactly when the value ends in `Z`, local time otherwise |
| Calendar.ParseDate | js/calendar.js:178-184 | a date value is read by columns as year, month index MM−1 and day, with no range check on month or day |
| Calendar.ParseUtcDateTime | js/calendar.js:187-196 | `YYYYMMDDTHHMMSSZ` is read by columns as a UTC instant |
| Calendar.ParseLocalDateTime | js/calendar.js:187-199 | `YYYYMMDDTHHMMSS` without `Z` is read by columns as local time |
| Calendar.SlotOfInjective | js/calendar.js:143-166 | different understood field names fill different parts of the event |
| Calendar.ApplyField | js/calendar.js:143-166 | an unknown field name changes nothing; the feed name never changes; `DTSTART` always sets the start, and sets all-day exactly when `VALUE=DATE` |
| Calendar.ApplyFieldLastWins | js/calendar.js:143-166 | a repeated field keeps only its last value |
| Calendar.ApplyFieldCommutes | js/calendar.js:143-166 | fields with different names are stored independently of their order |
| Calendar.Step | js/calendar.js:110-167 | one line emits at most one event, only on `END:VEVENT` with an emittable open event; `END:VEVENT` with an open event closes it, appending it when it has a summary and a start and dropping it otherwise; `BEGIN:VEVENT` opens a fresh event and drops a partial one; lines outside an event change nothing |
| Calendar.RunAppend | js/calendar.js:102-168 | reading the lines in two parts is the same as reading them all at once |
| Calendar.RunExtends | js/calendar.js:110-117 | events come out in source order: later lines only append |
| Calendar.ParseICalendar | js/calendar.js:96-171 | every emitted event has a non-empty summary and a start, and carries the given feed name |
| Calendar.SingleEvent | js/calendar.js:110-167 | a block of `BEGIN:VEVENT`, `SUMMARY`, `DTSTART`, `END:VEVENT`, read in any state, appends exactly one event with that summary and start, not all-day, after the events already emitted, and leaves no event open |
| Calendar.EndStep | js/calendar.js:112-117 | `END:VEVENT` closes an open event with a summary and a start and appends it after the events emitted before |
| Calendar.RunBlocks | js/calendar.js:102-168 | a run of well-formed blocks emits one event per block, in block order, after what was already emitted |
| Calendar.ParseICalendarBlocks | js/calendar.js:96-171 | text made of well-formed blocks, one line each, parses to exactly the events those blocks describe, in order; no text gives no events |
| Calendar.SplitLinesOfJoin | js/calendar.js:98 | lines without line breaks, joined with `\n`, split back into the same lines |
| Calendar.UnfoldFromPlain | js/calendar.js:102-108 | after a first logical line, non-empty lines without line breaks or surrounding white space (so none is a continuation) unfold to themselves, one logical line each |
| Calendar.LoadEvents | js/calendar.js:50-76 | no feeds gives the empty state; otherwise the shown events are a permutation of all the feeds' events, sorted by start |
| Calendar.CollectProvenance | js/calendar.js:64-70 | every shown event came from a feed fetched successfully and carries that feed's name |
| Calendar.CollectKeepsEachFeed | js/calendar.js:64-70 | a failing feed holds back no other feed: each feed's events all reach the merged list |
| Calendar.LoadEventsStable | js/calendar.js:73 | events starting at the same time keep feed order and in-feed order |
| Rss.ParseFeedMember | js/rss.js:155-194 | the articles are exactly the first 10 candidate elements that have a title and a link, each read as an article |
| Rss.ParseFeed | js/rss.js:155-194 | at most 10 articles; a document that does not parse gives none |
| Rss.Candidates | js/rss.js:160-166 | the RSS items when there is one, otherwise the Atom entries |
| Rss.ReadArticle | js/rss.js:173-185 | the title as is; the link text, or the `href` when the text is empty; the stripped description or summary, else empty; the first of pubDate, published, updated, else the current time |
| Rss.ParseFeedPrefersItems | js/rss.js:160-162 | Atom entries are ignored once the document has one RSS item |
| Rss.ParseFeedAtom | js/rss.js:160-162 | a document without items is read from its entries |
| Rss.ReadAllAppend | js/rss.js:164-189 | reading distributes over concatenation, so articles keep document order |
| Rss.CacheKeyPermutation | js/rss.js:88-91 | any two feed lists with the same URLs (with multiplicity) give the same key |
| Rss.CacheKeyDistinguishes | js/rss.js:88-91 | for non-empty lists whose URLs have no `\|`, equal keys mean equal URL multisets |
| Rss.CacheKeyCollision | js/rss.js:88-91 | a single URL `a\|b` shares its key with the two URLs `a` and `b` |
| Rss.GetCachedArticles | js/rss.js:69-78 | whatever is returned is the list stored under the key |
| Rss.SetCachedArticles | js/rss.js:80-86 | the key is added or its entry replaced; every other key keeps its entry |
| Rss.CacheRoundTrip | js/rss.js:69-86 | what was just stored reads back until it is 15 minutes old, and not after |
| Rss.CacheOtherKey | js/rss.js:80-86 | storing under one key leaves every other key's lookup unchanged |
| Rss.CacheStaysExpired | js/rss.js:69-78 | an expired entry stays expired as time goes on |
| Rss.FetchFeed | js/rss.js:136-153 | at most 10 articles; a failed fetch gives none, like an empty feed |
| Rss.RefreshFeeds | js/rss.js:93-134 | the feed list is unchanged; with no feeds nothing changes at all; otherwise at most 20 articles are shown |
| Rss.RefreshCaches | js/rss.js:126-131 | the displayed articles are a prefix of the merged list, and the cache holds the whole merged list |
| Rss.RefreshNewestFirst | js/rss.js:121-123 | the displayed articles are newest first |
| Rss.MergedProvenance | js/rss.js:112-119 | every merged article was fetched for a feed and carries that feed's name |
| Rss.MergedKeepsEachFeed | js/rss.js:112-123 | no fetched article is lost in the merge |
| Rss.MergedStable | js/rss.js:121-123 | articles with equal dates keep their feed order |
| Rss.RefreshFeedsWithCache | js/rss.js:56-67 | the feed list is unchanged, and a fresh entry for the current feeds leaves the cache untouched |
| Rss.RefreshThenCached | js/rss.js:56-67 | a cached load within 15 minutes of a refresh shows the whole merged list, which can exceed 20 articles |
| Rss.LoadFeeds | js/rss.js:43-54 | the stored list when there is one (an empty list included), else exactly the two default feeds, Hacker News and The Verge |
| Rss.AddFeed | js/rss.js:279-289 | an empty URL or name changes nothing; otherwise exactly that feed is appended and at most 20 articles are shown |
| Rss.Truncate | js/rss.js:256-259 | the text itself when its length is at most n; otherwise its first n characters then `...`, so at most n+3 characters |
| Rss.FormatAge | js/rss.js:240-254 | under a minute (future dates included) is "Just now"; then whole minutes below 60, hours below 24, days below 7, else the locale date |
| Rss.FormatAgeMonotonic | js/rss.js:240-254 | an older article never gets a finer bucket than a newer one |
| Rss.AgeLabelCount | js/rss.js:245-252 | `parseInt` of a relative label gives back the count it shows |
| Commands.FuzzyMatchIsSubsequence | js/commands.js:332-340 | the greedy match succeeds exactly when the query is a subsequence of the text, so the empty query always matches |
| Commands.ContainedMatches | js/commands.js:314-324 | a text that contains the query also matches it as a subsequence, so the contains bonuses come with the fuzzy bonuses |
| Commands.ContainsItself | js/commands.js:317-318 | a text contains itself, so an exact title also earns the contains bonus |
| Commands.ScoreMeaning | js/commands.js:314-324 | the score is positive exactly when the query is a subsequence of the lowered title or description or is contained in the lowered category; it lies in 0..215, and an exact title scores at least 170 |
| Commands.FuzzySearchMember | js/commands.js:306-330 | a command is in the result exactly when its score is positive |
| Commands.FuzzySearchOrdered | js/commands.js:326-329 | the result is in non-increasing score order |
| Commands.FuzzySearchStable | js/commands.js:326-329 | commands with equal scores keep their input order |
| Commands.Search | js/commands.js:293-304 | the selection is back at 0, and the commands and the open state are unchanged; a blank query shows the recent commands; any other query lists the fuzzy-search results for its lower-cased form, with their scores |
| Commands.SearchBlank | js/commands.js:294-297 | a query of white space only shows the same list as the empty query |
| Commands.SearchBlankShows | js/commands.js:294-297 | a blank query lists the commands named by the first five known recent ids, marked recent, or every command when no recent id names one |
| Commands.SearchResults | js/commands.js:293-330 | after a non-blank search every entry is a command of the palette shown with its positive score for the lower-cased query |
| Commands.ShowRecentCommands | js/commands.js:342-359 | the selection is at 0; at most 5 entries are shown unless every command is |
| Commands.ShowRecentMeaning | js/commands.js:342-359 | with no known recent id every command is shown; otherwise the entries are, in order, the commands named by the first 5 known recent ids, marked recent |
| Commands.TrackRecentCommand | js/commands.js:486-499 | the id comes first, followed by the old ids without this one, in order; the list holds one more id than the old ids without this one, but never more than 10 |
| Commands.TrackRecentOnce | js/commands.js:486-499 | the id occurs exactly once afterwards |
| Commands.TrackRecentKeeps | js/commands.js:486-499 | while there is room, an id is in the new list exactly when it is the tracked id or was in the old one |
| Commands.TrackRecentIdempotent | js/commands.js:486-499 | tracking the same id twice is tracking it once |
| Commands.TrackRecentNoDuplicates | js/commands.js:486-499 | a list without duplicates stays without duplicates |
| Commands.SelectNext | js/commands.js:433-437 | only the selection changes; on an empty list nothing changes; a valid selection moves one entry down, from the last entry back to the first, and stays valid |
| Commands.SelectPrevious | js/commands.js:439-443 | only the selection changes; on an empty list nothing changes; a valid selection moves one entry up, from the first entry round to the last, and stays valid |
| Commands.SelectRoundTrip | js/commands.js:433-443 | from a valid selection, next then previous, or previous then next, restores the palette |
| Commands.SelectWraps | js/commands.js:433-437 | moving on from the last entry selects the first, and moving back from the first selects the last |
| Commands.Close | js/commands.js:271-283 | the palette is closed with no entries and the selection at 0; the command list is kept |
| Commands.ExecuteSelected | js/commands.js:470-484 | an empty list runs nothing; a valid selection runs the selected command; whatever runs is tracked as recent and the palette closes |
| Commands.ExecuteThenRecent | js/commands.js:470-499 | after running a command, it heads the recent entries the palette shows next |
| Commands.GroupByCategory | js/commands.js:422-431 | one group per listed category, in order, each holding the commands of that category |
| Commands.GroupMember | js/commands.js:422-431 | a command is in the list exactly when it is in the group of its own category |
| Commands.InCategoryAppend | js/commands.js:422-431 | a group keeps list order: the group of a concatenation is the groups of the parts, concatenated |
| Commands.CategoriesFromDistinct | js/commands.js:422-431 | no category heads two groups |
| FocusTimer.LoadState | js/focusTimer.js:57-72 | only the session count changes: on a new day it is 0 and today's date with a count of 0 is saved; on the same day the saved count (0 when absent) is restored |
| FocusTimer.LoadStateIdempotent | js/focusTimer.js:57-72 | afterwards today's date is saved, and loading again changes nothing |
| FocusTimer.Start | js/focusTimer.js:74-78 | a running timer is left alone; otherwise it runs, unpaused, and nothing else changes |
| FocusTimer.Pause | js/focusTimer.js:90-94 | a stopped timer is left alone; otherwise it stops and is paused, and nothing else changes |
| FocusTimer.Reset | js/focusTimer.js:103-116 | both flags clear, the time is the mode's full length, and the mode and the count are unchanged |
| FocusTimer.SwitchMode | js/focusTimer.js:146-160 | after focus, a long break exactly when the count is a multiple of 4, else a short one; after a break, focus; the time is the new mode's full length; flags and count are unchanged |
| FocusTimer.Complete | js/focusTimer.js:128-144 | the timer stops at the full length of its mode; the count goes up by one exactly when the finished session was focus |
| FocusTimer.Tick | js/focusTimer.js:118-126 | one second less while more than one remains; the last second completes the session |
| FocusTimer.OperationsKeepValid | js/focusTimer.js:74-160 | every operation keeps 1 ≤ time ≤ the mode's full length, and never running and paused at once |
| FocusTimer.PauseThenStart | js/focusTimer.js:74-94 | pausing a running timer then starting it gives back the same timer |
| FocusTimer.TicksCountDown | js/focusTimer.js:118-126 | fewer ticks than the time left only count down |
| FocusTimer.TicksComplete | js/focusTimer.js:118-160 | as many ticks as seconds left complete the session, from a time of zero |
| FocusTimer.FocusSessionCounts | js/focusTimer.js:128-160 | a focus session reset and run to its end is counted, and leaves the timer stopped at the full length of the next mode: a long break exactly on every fourth session, a short one otherwise |
| FocusTimer.BreakLeadsToFocus | js/focusTimer.js:146-160 | a break run to its end always leads to 25 minutes of focus, with the count unchanged |
| Todo.AddTodo | js/todo.js:48-61 | blank input changes nothing; otherwise one uncompleted item with the trimmed text is put in front |
| Todo.ToggleTodo | js/todo.js:68-75 | the length is kept; the first item with the id flips its flag, and every other position is unchanged |
| Todo.ToggleTwice | js/todo.js:68-75 | toggling the same id twice restores the list |
| Todo.DeleteTodoMember | js/todo.js:77-81 | an item survives exactly when its id differs |
| Todo.DeleteTodoAppend | js/todo.js:77-81 | deletion keeps order: it distributes over concatenation |
| Todo.AddThenDelete | js/todo.js:48-81 | adding an item under a fresh id and deleting that id gives back the list |
| Links.SaveLink | js/links.js:170-201 | nothing is saved exactly when the trimmed URL is invalid; editing replaces exactly the edited slot with the trimmed name and URL, otherwise that link is appended |
| Links.DeleteLink | js/links.js:207-219 | once confirmed, exactly the link at the index is removed; nothing changes otherwise |
| Links.DeleteLinkMultiset | js/links.js:207-219 | deleting removes exactly one occurrence of that link |
| Links.SaveThenDelete | js/links.js:170-219 | saving a new link then deleting the last entry restores the list |
| Links.AddPopularSite | js/links.js:340-357 | nothing is stored exactly when the URL is present; otherwise exactly the site, with its icon, is appended |
| Links.AddPopularSiteTwice | js/links.js:340-357 | adding a site twice stores it once |
| Links.AddPopularSiteDistinct | js/links.js:340-357 | a list free of duplicate URLs stays so |
| Links.PopularSitesDistinct | js/links.js:311-328 | no two popular sites share a URL |
| Links.FlattenBookmarksMember | js/links.js:271-281 | the flattened list holds exactly the nodes of the forest that have a URL |
| Links.NodeBeforeDescendants | js/links.js:271-281 | a bookmark comes before all of its descendants |
| Links.FlattenBookmarksAppend | js/links.js:271-281 | flattening a forest flattens its trees one after another |
| Links.MergeLinks | js/links.js:239-252 | existing links stay first and in order; the count is the number of links appended |
| Links.MergeLinksMeaning | js/links.js:239-252 | every incoming URL ends up in the list, every new entry is an incoming link whose URL was not there before, and distinct URLs stay distinct |
| Links.MergeLinksFirstNew | js/links.js:239-252 | the import appends exactly the incoming links whose URL is neither in the list nor on an earlier incoming link, in incoming order: the first link with a new URL wins |
| Links.FirstNewUrls | js/links.js:239-252 | after the import the list holds exactly the URLs of the old list and of the incoming links |
| Links.MergeLinksAppend | js/links.js:239-252 | importing two batches one after the other is importing them together |
| Links.MergeLinksSkipsKnown | js/links.js:241-243 | a URL already present is never imported again |
| Links.ImportChromeBookmarks | js/links.js:226-260 | the import ends early exactly when no bookmark has a URL; otherwise the titled bookmarks with URLs are merged in |
| Links.Finish | js/links.js:236-259 | storage is written exactly when something was added, with the merged list, and the count is the number of links appended |
| Links.ChromeCandidatesMember | js/links.js:240 | a link is imported exactly when a bookmark with that non-empty title and URL was found; it gets no icon |
| Links.ParseBookmarks | js/links.js:290-306 | never more links than anchors; every link has an `http` URL, a non-empty name and no icon |
| Links.ParseBookmarksMember | js/links.js:290-306 | an anchor whose href starts with `http` and whose text is not blank yields a link with its trimmed text and no icon |
| Links.ParseBookmarksSource | js/links.js:290-306 | conversely, every parsed link is the link of an anchor whose href starts with `http` and whose text is not blank, named by its trimmed text |
| Links.ParseBookmarksAppend | js/links.js:290-306 | kept links are in document order |
| Links.ImportBookmarksFile | js/links.js:420-447 | a file that yields no bookmarks ends the import; otherwise its links are merged in |
| Links.ImportKeepsExisting | js/links.js:429-447 | both imports keep the existing links first and in order and add only new URLs |
| Storage.GetAll | js/storage.js:48-59 | the defaults overlaid key by key with the stored object; absent or unparsable storage gives the defaults |
| Storage.GetAllHasDefaults | js/storage.js:48-59 | every default key is always present |
| Storage.Get | js/storage.js:62-65 | a value exactly for default keys and stored keys |
| Storage.GetOverlay | js/storage.js:62-65 | a stored value wins; otherwise the default is read |
| Storage.SetThenGet | js/storage.js:68-79 | after `set(k, v)`, `get(k)` is v and every other key reads as before |
| Storage.SetManyThenGet | js/storage.js:69-77 | `set(obj)` changes exactly the keys of obj |
| Storage.SetKeepsDefaults | js/storage.js:68-79 | after any `set`, the stored object holds every default key |
| Storage.Reset | js/storage.js:82-85 | after `reset`, `getAll` gives the defaults, and the defaults are what it returns |
| Storage.SetCurrentValue | js/storage.js:68-79 | setting a key to its current value changes no setting |
| Storage.Import | js/storage.js:103-120 | a file that parses replaces the stored value; one that does not is rejected and the store is unchanged |
| Storage.ImportThenGet | js/storage.js:103-120 | an imported object reads back key by key over the defaults |
| Search.PerformSearch | js/search.js:41-52 | an empty query, or the custom engine without a custom URL, navigates nowhere; otherwise the custom URL gets its first `%s` replaced by the encoded query |
| Search.StemsFreeOfPercent | js/search.js:4-12 | the text of every built-in template before its `%s` holds no `%`, so each template has exactly one `%s`, at its end |
| Search.BuiltInSearch | js/search.js:54-59 | a non-empty query on any engine but `custom` navigates to the engine's template text before `%s` (Google's for an unknown engine) followed by the encoded query |
| Search.UnknownEngineIsGoogle | js/search.js:54 | an unknown engine searches like Google |
| Search.ReplaceAfterStem | js/search.js:58 | with no `%` before it, the placeholder at the end is the one replaced |
| Settings.HexToRgb | js/settings.js:629-636 | a colour exactly for an optional `#` and six hexadecimal digits of either case; each component is the value of its digit pair, below 256 |
| Settings.HexRoundTrip | js/settings.js:629-636 | every colour written as `#rrggbb`, with or without `#`, reads back as itself |
| Settings.HexToRgbIgnoresCase | js/settings.js:630 | lower-casing the text gives the same colour |
| Settings.AddCalendarFeed | js/settings.js:698-739 | a blank name or URL cancels; a URL not starting with `http://`, `https://` or `webcal://` (case-sensitive) is refused; an unlikely-looking URL needs confirmation; the URL after normalisation is refused exactly when already present; otherwise exactly one feed with the trimmed name and normalised URL is appended |
| Settings.NormalizeAfterValidation | js/settings.js:707-725 | for a URL that passed the scheme check, `webcal://` becomes `https://` and anything else is kept, so every stored URL starts with `http://` or `https://` |
| Settings.WebcalIsHttps | js/settings.js:725-732 | a `webcal://` URL duplicates the `https://` URL with the same rest |
| Settings.RemoveCalendarFeed | js/settings.js:752-757 | once confirmed, `splice(index, 1)`: a valid index removes exactly that feed, a negative one counts from the end, one past the end removes nothing |
| Settings.RemoveCalendarFeedMultiset | js/settings.js:755-757 | removing takes out exactly one occurrence of that feed |
| Settings.AddThenRemove | js/settings.js:733-757 | removing the feed just added restores the list |
| Settings.DurationFallback | js/settings.js:262-287 | `parseInt` of the input unless it is NaN or 0, in which case the default |
| Settings.DurationRoundTrip | js/settings.js:265 | a positive number typed as its numeral is taken as is |
| Settings.DurationDefault | js/settings.js:262-287 | the fallbacks 25, 5, 15 are the timer's own mode lengths |
| Settings.SetDurationThenGet | js/settings.js:263-267 | when the stored durations are an object or falsy, they afterwards hold the new value under the input's field, other fields as before, and no other setting changes |
| Settings.ThemeDecision | js/settings.js:589-616 | dark exactly for `dark`, or for `auto` with a dark preference; light otherwise |
| Settings.ApplyTheme | js/settings.js:589-616 | both elements end with the chosen class and without the other; their other classes are untouched |
| Settings.ApplyThemeAgrees | js/settings.js:589-616 | afterwards `html` and `body` show the same single theme |
| Settings.ApplyThemeIdempotent | js/settings.js:589-616 | applying a theme twice is applying it once |
| Settings.ToggleBackgroundOptions | js/settings.js:530-560 | a row is shown exactly when its type is the chosen one |
| Settings.BackgroundOptionsSingle | js/settings.js:530-560 | at most one row is shown, and exactly one for each of the six types |
| Settings.BackgroundOptionsRoundTrip | js/settings.js:546-559 | choosing a row's type shows that row alone |
| I18n.T | js/i18n.js:107-110 | the current language's entry when non-empty, else the English one when non-empty, else the key; never empty for a non-empty key |
| I18n.UnknownLanguageIsEnglish | js/i18n.js:107-110 | a language without a table reads every key as English |
| I18n.MissingEntryIsEnglish | js/i18n.js:107-110 | a key missing from a language's table reads as in English |
| I18n.MissingKeyIsItself | js/i18n.js:109 | a key no table has reads as itself |
| I18n.FrenchSettings | js/i18n.js:79-88 | the French table's own entry for `settings`, `Paramètres`, is the one shown |
| I18n.SetLanguage | js/i18n.js:112-118 | only a language with a table is taken, and then stored; otherwise nothing changes |
| I18n.SetLanguageIdempotent | js/i18n.js:112-118 | switching twice to a language is switching once |
| I18n.Init | js/i18n.js:103-105 | the stored language, unchecked, when a non-empty one is stored; never empty; a language without a table can only come from storage, since the default `en` has one |
| I18n.TAfterInit | js/i18n.js:103-110 | whatever was stored, an unknown language answers every key as English does |
| Clock.HandAngles | js/clock.js:45-53 | hour and minute angles are below 360 degrees; the hour angle is a whole multiple of half a degree; the second angle is a whole multiple of 6 degrees, at most 354 (all in tenths) |
| Clock.HandsRecoverTime | js/clock.js:46-53 | the angles give back the hour on a 12-hour dial, the minute and the second; the hour angle moves in whole half degrees, so it is pinned exactly |
| Clock.HandsInjective | js/clock.js:46-53 | two times draw the same hands exactly when they agree on a 12-hour dial |
| Clock.MinuteHandSweeps | js/clock.js:52-53 | one second moves the minute hand a tenth of a degree and leaves the hour hand |
| Clock.SwitchClock | js/clock.js:68-86 | `digital` and `analog` show only that clock, `none` neither, and any other value changes nothing |
| Clock.SwitchClockIdempotent | js/clock.js:68-86 | switching twice to a type is switching once |
| Clock.SwitchClockExclusive | js/clock.js:72-84 | after a known type the two clocks are never both shown |
| Clock.UpdateDisplay | js/clock.js:23-66 | only the clock of the type is redrawn, digital with the formatted time, analog with the hands and the second hand shown exactly when seconds are on; `none` draws nothing |
| Clock.TickDrawsShownClock | js/clock.js:23-86 | a tick redraws exactly the clock that is shown |
| Quotes.RequestUrl | js/quotes.js:57-66 | `…/random?maxLength=150` without a tag, `…/random?tags=T&maxLength=150` with tag T |
| Quotes.TaggedCategories | js/quotes.js:8-17 | only the seven named categories have a tag; `all` and unknown ones have none |
| Quotes.RequestUrlTag | js/quotes.js:60-66 | the tag can be read back between the fixed prefix and suffix |
| Quotes.RequestUrlInjective | js/quotes.js:60-66 | different tags make different requests |
| Quotes.Category | js/quotes.js:57 | the stored category when a non-empty one is stored; never empty; a tagged category can only come from storage, since the default `all` has no tag |
| Quotes.LoadQuote | js/quotes.js:42-94 | the cache is shown, with no request, exactly when not forced, a quote is cached and its date is today; a success shows and caches the quote with today's date; a failure shows a fallback and leaves the cache alone |
| Quotes.LoadQuoteShows | js/quotes.js:42-94 | a quote is shown after every load |
| Quotes.FailureKeepsCache | js/quotes.js:90-93 | a failed request leaves the cached quote and its date alone |
| Quotes.SameDayReusesQuote | js/quotes.js:43-88 | after a successful load, a later unforced load the same day makes no request and shows the same quote |
| Quotes.NextDayRefreshes | js/quotes.js:46-49 | on another day a new request goes out |
| Quotes.CopyQuote | js/quotes.js:148-151 | nothing without a shown quote; otherwise the text in double quotes, ` — `, then the author |
| Quotes.CopyAfterLoad | js/quotes.js:148-151 | after a successful load the copied text holds the fetched text and author |
| ThemeInit.SavedTheme | js/theme-init.js:3 | the saved value when it is there and non-empty; never empty |
| ThemeInit.ThemeClass | js/theme-init.js:4-10 | `theme-dark` exactly for `dark`, or for `auto` with a dark preference; `theme-light` otherwise |
| ThemeInit.ThemeClassAgreesWithApplyTheme | js/theme-init.js:4-12 | for every saved value, the early class is the one `applyTheme` settles on |
| ThemeInit.NothingSavedIsAuto | js/theme-init.js:3-7 | with nothing saved the page follows the preference |
| ThemeInit.AsWrittenIgnoresSettings | js/theme-init.js:3 | writing the settings never changes the class the script picks |
| ThemeInit.DarkSettingStartsLight | js/theme-init.js:3 | a saved `dark` theme with a light preference starts the page light, though the page then applies dark |
| ThemeInit.InitialClassFollowsSettings | js/theme-init.js:3-12 | reading the theme from the settings, the early class is the one `applyTheme` gives the saved theme |
| ThemeInit.InitialClassDefault | js/theme-init.js:3 | with nothing stored, the default `auto` follows the preference |
| Utils.DisplayHour | js/utils.js:11-14 | 24-hour style shows the hour as it is; 12-hour style shows an hour within 1..12 that equals it modulo 12 |
| Utils.Period | js/utils.js:10-13 | no suffix in 24-hour style; otherwise ` PM` exactly from noon on and ` AM` before |
| Utils.FormatTimeFields | js/utils.js:16-23 | two-digit hour, minute and (exactly when asked) second read back by `parseInt`, separated by colons, then the period |
| Utils.TwelveHourRecovers | js/utils.js:11-14 | in 12-hour style the shown hour and the period give back the hour |
| Utils.FormatTimeInjective | js/utils.js:5-24 | two different hours and minutes never format to the same text without seconds, in either style |
| Utils.GetTimeOfDay | js/utils.js:38-45 | morning exactly for 5..11, afternoon for 12..16, evening for 17..20, night otherwise |
| Utils.TimeOfDayMonotone | js/utils.js:38-45 | from 5 o'clock on, a later hour never falls in an earlier bucket |
| Utils.GetGreeting | js/utils.js:48-89 | never empty |
| Utils.GreetingChoice | js/utils.js:88 | a listed language gets its own greeting, any other language the English one |
| Utils.GreetingLanguages | js/utils.js:49-86 | exactly six languages have greetings |
| Strings.TrimEmptyIffAllSpace | js/todo.js:50 | trimming gives the empty string exactly for all-whitespace text |
| Strings.ToLower | js/commands.js:309-311 | same length, each character lowered on its own |
| Numerals.Pad2RoundTrip | js/utils.js:16-18 | a number below 100 pads to two characters that `parseInt` reads back |
| Numerals.ParseIntNatToString | js/settings.js:265 | `parseInt(String(n))` is n |
| Sorting.SortByStable | js/calendar.js:73 | the numeric-comparator sort is stable: the items with any one key keep their order |
| Sorting.SortBy | js/calendar.js:73 | the numeric-comparator sort returns a permutation of its input, ordered by the key |
| Sorting.SortStringsPermutation | js/rss.js:89-90 | two URL lists that are permutations of each other sort to the same list |
| Sorting.SortStrings | js/rss.js:89 | the default sort returns a permutation of its input in code-unit order |

## Left out

- The DOM, rendering, `escapeHtml`, toasts, animations and event wiring: they hold no logic beyond what is modelled.
- Network I/O: every fetch is a parameter giving its outcome; proxies and `encodeURIComponent` are not modelled.
- Timers: `setInterval`, `setTimeout` and `debounce`. A tick is a function applied once per firing.
- Randomness: the fallback quote index is a parameter.
- `Date`: parsed dates are the arguments given to the `Date` constructor, ordered by an abstract `instant` function. NaN time values, time zones and `toDateString` are not modelled. The quote and timer "today" is a given string.
- Strings are sequences of code points, whereas JavaScript uses UTF-16 units. This matters to `length`, `substring` and string sorting only outside the Basic Multilingual Plane.
- `toLowerCase` is modelled for ASCII letters only.
- Property lookups such as `translations[lang]`, `categories[category]` and `engines[engine]` ignore the inherited `Object.prototype` keys (`constructor` and the like).
- Rss.CacheKey: the key of a URL containing `|` can collide with a key of several URLs (`Rss.CacheKeyCollision` shows it). The model keeps this behaviour rather than calling it a bug, since feed URLs rarely hold `|`.
- Rss.ParseFeed: the XML parser is abstracted to a list of elements with their child texts; a document that does not parse is `None`.
- Calendar: `formatEventTime`, the today and upcoming filters of `renderEvents` and `toLocale…String` are display code and are not modelled.
- Calendar.Unescape: follows the code, where `\\n` becomes a backslash and a newline because `\n` is replaced first.
- Links.SaveLink: requires the edited index to be inside the list. JavaScript would create a hole past the end, and the edit dialog never produces such an index.
- Links: `isEmoji`, the icon rendering and the modal state are not modelled.
- Storage.Import: a parsed value that is not an object is stored as it is, and `getAll` then spreads nothing from it (`Storage.Entries`). The spread of strings and arrays into index keys is not modelled.
- Storage: `export` is a file download and is not modelled.
- Settings: `focusTimerManager.loadDurations` and `playSound` do not exist in the timer, so the timer never reads the custom durations. The timer's mode lengths stay 25, 5 and 15.
- Settings: `applyAccentColor`, `applyFont`, `applyCustomCSS`, the favicon, and the toggles of the other panels only set styles or visibility and are not modelled.
- Settings: the theme preference (`prefersDarkMode`) is a parameter.
- Numerals.ParseInt: reads a numeral as an exact unbounded integer. JavaScript's `parseInt` returns a double, which loses integer precision above 2^53 (a huge duration typed in the settings, say); no value that large is read back anywhere, so the rounding is not modelled.
- Clock.HandAngles: angles are exact whole numbers of tenths of a degree. The widget computes them in floating point, where a term such as `seconds * 0.1` can round (`3 * 0.1` is `0.30000000000000004`); that rounding is not modelled.
- Clock: `formatDate` and the interval in `startClock` are not modelled.
- Quotes: the copy to the clipboard and its fallback are I/O. Only the copied text is modelled.
- FocusTimer: notifications, sounds and the persisted session count are not modelled. Only `loadState`'s reading of the count and date is modelled.
- I18n: `updateUI` only writes translated text into the page and is not modelled.

## Findings

| source | as written | input that shows it | evidently intended | confidence | as-written member | corrected member |
|---|---|---|---|---|---|---|
| js/theme-init.js:3 | the early theme script reads the local-storage key `theme`, but the settings store writes the theme only inside its `sowestart-settings` object (js/storage.js:68-79) | theme set to `dark` in the settings, with a light colour-scheme preference: the page starts with `theme-light` and flips to `theme-dark` when `applyTheme` runs | read the `theme` setting from the settings object, so the first paint already has the saved theme | not executed; medium (no code in the repository writes the `theme` key) | ThemeInit.DarkSettingStartsLight | ThemeInit.InitialClassFollowsSettings |
