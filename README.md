# Achievement watchdog — a verified model of its core

The watchdog (`achievement_watchdog.py`) watches the local save folders that
a Steam emulator writes. When a save folder's `achievements.json` is
created or modified, it does the following:

- finds the most recently earned achievement in that file;
- finds the game's definitions file beside the `steam_appid.txt` marker
  whose text is the folder's name, caching folder → definitions path;
- suppresses a repeat of the same achievement within two seconds;
- builds one toast notification from the definition's English title,
  description and icon.

The viewer (`achievement_viewer.py`) does the following:

- lists every (save folder, marker) pair that matches;
- lets the user pick one by number;
- prints each achievement of that game that has a local record: hidden
  descriptions withheld, progress shown, earned count.

The model takes the filesystem as values:

- a marker is its directory and its text;
- local records are an insertion-ordered sequence;
- definitions are a sequence;
- a folder listing is a sequence of names with their `isdir` flag;
- paths are lists of names.

Modules:

- `Common` holds paths, Python's `relpath` first component, and
  `str.strip()` with Python's whitespace set.
- `Records` holds the file contents.
- `Watchdog` holds the pure rules and the `AchievementHandler` class. The
  class's methods update its fields in place and are proved against the
  state-transition function `Process`.
- `WatchdogProperties` states what a sequence of events can and cannot
  produce.
- `Viewer` holds the listing, selection, counting and display rules.

What the code does, and the model with it:

- The code keeps no per-game timestamp watermark. It notifies only the
  single most recent earned achievement of a file, not every newly
  earned one.
- The only guard against repeats is the two-second, same-name suppressor
  (see `RepeatsAfterWindow`).
- Texts are read in English only, with no fallback language. A missing
  English text raises a `KeyError` after the suppressor has already
  recorded the name (outcome `TextMissing`).
- The viewer's listing does not check that a name is a directory, unlike
  the watchdog's start-up index.

## Model

| member | source | states |
|---|---|---|
| Common.Basename | achievement_watchdog.py:72 | `os.path.basename`: the last name of a path, "" for the empty path |
| Common.Dirname | achievement_watchdog.py:78 | `os.path.dirname`: the path without its last name |
| Common.Join | achievement_watchdog.py:51 | `os.path.join(p, name)` appends the name; its `Dirname` is `p` and its `Basename` is `name` |
| Common.Strip | achievement_watchdog.py:50 | `str.strip()`: drops a whitespace character (Python's `str.isspace` set, `IsSpace`) from the front or the back until neither end is whitespace |
| Common.RelPathHead | achievement_viewer.py:47 | the first component of `relpath(dir, games_path)` is the next name below `games_path`, "." for the same path, ".." when `dir` is not below it |
| Common.StripShape | achievement_watchdog.py:50 | `strip()` leaves a piece of the text at some offset with only whitespace before and after it |
| Common.StripEnds | achievement_watchdog.py:50 | what `strip()` leaves is empty or starts and ends with a non-whitespace character |
| Common.StripPadded | achievement_watchdog.py:50 | whitespace + a trimmed name + whitespace strips to exactly that name (a marker holding "480\n" names folder "480") |
| Records.DefinitionsPath | achievement_watchdog.py:51 | the definitions file is `achievements.json` in the marker's directory |
| Records.Lookup | achievement_viewer.py:94 | `dict.get`: absent exactly when no record has the name, otherwise a record with that name |
| Records.DistinctNames | achievement_viewer.py:83 | no two local records share a name, as the keys of the loaded JSON object |
| Records.LookupFindsTheRecord | achievement_viewer.py:94 | on records with distinct names, as a JSON object holds them, `Lookup` finds a record exactly when it is one of the records |
| Watchdog.LatestFrom | achievement_watchdog.py:31-33 | the left-to-right scan of `max` yields the first earned record of greatest `earned_time`, or nothing when none is earned |
| Watchdog.FindRecentAchievement | achievement_watchdog.py:30-34 | none exactly when no record is earned; otherwise the name of an earned record whose time is at least every earned time, the first such on ties |
| Watchdog.FirstMarker | achievement_watchdog.py:48-53 | the index of the first marker whose stripped text is the folder name; none exactly when no marker matches |
| Watchdog.Directories | achievement_watchdog.py:41-45 | a name is kept exactly when some listed entry with that name is a directory |
| Watchdog.Resolve | achievement_watchdog.py:85-91 | the definitions file a folder resolves to: `achievements.json` beside its first marker, or none when no marker names it |
| Watchdog.ScanMarkers | achievement_watchdog.py:85-94 | the scan loop with `break` returns the first matching marker, as `FirstMarker` says |
| Watchdog.MapLocalFoldersToGames | achievement_watchdog.py:37-54 | a folder is a key exactly when it is a listed directory that some marker names; its value is `achievements.json` beside the first such marker |
| Watchdog.FirstDefinition | achievement_watchdog.py:111 | `next(...)`: the first definition with the name; none exactly when no definition has it |
| Watchdog.IconPath | achievement_watchdog.py:114-116 | an icon exactly when `icon` is present and non-empty, and then it is that name in the definitions file's directory |
| Watchdog.IsRelevant | achievement_watchdog.py:72 | the handler acts only on a file, not a directory, named `achievements.json` |
| Watchdog.EventFolder | achievement_watchdog.py:78 | the save folder of an event: the name of the file's directory |
| Watchdog.IsDuplicate | achievement_watchdog.py:125 | the same name as the last notified one, less than 2 seconds after it |
| Watchdog.Process | achievement_watchdog.py:70-121 | a non-`achievements.json` event or a directory changes nothing; the cache only grows, by the event's folder and its first marker; an unmatched folder changes nothing; past the filter and the cache the outcome is decided in the source's order (no earned record or an empty name, load failure, no definition, duplicate, then notify or `KeyError`), and each non-notifying outcome has that reason; the suppressor changes exactly when the check admits a name, then to (name, now); a notification carries the first matching definition's English title and description and `IconPath` |
| Watchdog.AchievementHandler.constructor | achievement_watchdog.py:58-62 | starts with the given cache, no last achievement and time 0 |
| Watchdog.AchievementHandler.OnModified | achievement_watchdog.py:64-65 | a modify event is handled as `Process` says |
| Watchdog.AchievementHandler.OnCreated | achievement_watchdog.py:67-68 | a create event is handled as `Process` says |
| Watchdog.AchievementHandler.ProcessAchievementFile | achievement_watchdog.py:70-121 | the new fields and the outcome are those of `Process` on the old fields |
| Watchdog.AchievementHandler.CheckDuplicate | achievement_watchdog.py:123-129 | refuses exactly when the name equals the last one and less than 2 seconds passed; on refusal both fields are unchanged, otherwise they become (name, now); the cache is untouched |
| WatchdogProperties.Run | achievement_watchdog.py:64-68 | events are handled one at a time, one outcome each, until a `TextMissing` outcome, whose `KeyError` ends the observer thread; no outcome before the last is `TextMissing` |
| WatchdogProperties.CacheOnlyGrows | achievement_watchdog.py:81-91 | over any sequence of events no folder leaves the cache and no cached path changes |
| WatchdogProperties.CacheStaysFirstMatch | achievement_watchdog.py:81-91 | while the markers stay the same, every cached folder keeps mapping to the file beside its first marker, so lazily added entries agree with the start-up index |
| WatchdogProperties.SuppressedWithinWindow | achievement_watchdog.py:123-129 | once the suppressor holds a name, events whose latest achievement is that name produce no notification before two seconds have passed |
| WatchdogProperties.BurstNotifiesAtMostOnce | achievement_watchdog.py:123-129 | a burst of events within two seconds with the same latest achievement notifies at most once |
| WatchdogProperties.RepeatsAfterWindow | achievement_watchdog.py:123-129 | the same event two or more seconds after a notification is notified again with the same request |
| Viewer.EntryFor | achievement_viewer.py:47-52 | the entry a folder and a marker naming it append: name, `root_folder`, `local_folder`, `game_achievements_path` |
| Viewer.EntryForFields | achievement_viewer.py:47-52 | an entry has the folder as name, the local path joined with the folder, `achievements.json` beside the marker, and the marker directory's first component below `games_path` |
| Viewer.FolderEntries | achievement_viewer.py:44-53 | the entries of one folder: one per marker whose stripped text is the folder name, in marker order |
| Viewer.MatchingGames | achievement_viewer.py:42-53 | `matching_games`: the entries of every listed name, directory or not, in listing order |
| Viewer.FindMatchingGames | achievement_viewer.py:39-53 | the nested loops build exactly the listing `MatchingGames` describes: folder order, then marker order, no early exit |
| Viewer.FolderEntriesSound | achievement_viewer.py:44-53 | every entry of one folder comes from a marker whose stripped text is the folder name |
| Viewer.FolderEntriesComplete | achievement_viewer.py:44-53 | every marker naming a folder gives that folder an entry |
| Viewer.MatchingGamesSound | achievement_viewer.py:42-53 | every listed game comes from a listed name and a marker naming it |
| Viewer.MatchingGamesComplete | achievement_viewer.py:42-53 | every listed name and marker naming it give a listed game |
| Viewer.MatchingGamesMembership | achievement_viewer.py:42-53 | a game is listed exactly when it is the entry of a listed name and a marker naming it |
| Viewer.SelectGame | achievement_viewer.py:69-74 | no number selects nothing; 1..len selects the n-th game; -len < n <= 0 wraps to `games[len+n-1]`; anything else is an invalid selection |
| Viewer.EarnedCount | achievement_viewer.py:87 | at most the number of records; zero exactly when none is earned; all exactly when every record is earned |
| Viewer.EarnedCountCountsEarned | achievement_viewer.py:87 | the count equals the number of indices whose record is earned, as the generator sum counts them |
| Viewer.EarnedCountZeroWhenNothingRecent | achievement_viewer.py:87 | the viewer counts nothing earned exactly when the watchdog finds no recent achievement |
| Viewer.HiddenFlag | achievement_viewer.py:103 | `get('hidden', 0)`: the definition's `hidden` value, 0 when absent |
| Viewer.DividesByZero | achievement_viewer.py:112 | `progress / max_progress` raises `ZeroDivisionError`: an unearned record with both progress fields and `max_progress` 0 |
| Viewer.Present | achievement_viewer.py:96-115 | shown exactly when the English title and any description it prints exist and the progress percentage does not divide by zero (an unearned record with both progress fields and `max_progress` 0); the description is withheld exactly for hidden (absent = 0), unearned achievements without `-nohide`; a progress line exactly when both fields exist, showing the target if earned and the stored progress otherwise; an earned time exactly when it is positive |
| Viewer.Matched | achievement_viewer.py:92-96 | the definitions that have a local record of the same name, each with that record, in definition order |
| Viewer.Report | achievement_viewer.py:92-116 | the display loop as a function: the views of the matched definitions in order, stopping at the first whose printing raises |
| Viewer.DisplayAchievements | achievement_viewer.py:92-116 | the display loop yields the views and completion `Report` describes |
| Viewer.ReportStopsAtFailure | achievement_viewer.py:92-106 | after an achievement that raised, later definitions show nothing |
| Viewer.ReportFollowsMatched | achievement_viewer.py:92-116 | the views are those of the definitions with a local record, in definition order; the listing completes exactly when all of them can be shown, and otherwise stops at the first that cannot |
| Viewer.MatchedMembership | achievement_viewer.py:92-96 | a definition is displayed with a record exactly when it is a definition and the local records hold its name |

## Left out

- The `Observer`, its threads, the tray icon, `stop_watchdog`, the run loop and `asyncio.run`: concurrency and GUI lifecycle. Events reach the model one at a time, in the order the observer delivers them.
- `toast` / `send_notification`: an OS call. The model returns the notification's arguments as a value, and nothing about the toast's own error handling.
- JSON parsing, `open`, `glob`, `os.listdir`, `os.path.isdir`: the model takes their results as inputs. The definitions-file load failure is the absence of the path from `FileSystem.definitionFiles`.
- The local-record load at achievement_watchdog.py:98 has no error handling. A read that fails is outside the model; the records are given.
- An exception escaping the handler (the `KeyError` of `TextMissing`, or a malformed record) ends the observer thread. `Run` handles no event after a `TextMissing`; the malformed-record cases are outside the model.
- `time.time()` is a float. The clock is an integer parameter `now`, so sub-second differences are not modelled.
- `dotenv`, `os.path.expandvars`, `resource_path` and `sys._MEIPASS`: environment handling. The local and games paths are parameters.
- `logging`: log lines have no effect on state. The `Outcome` names which log branch was taken.
- Windows path semantics: case-insensitive comparison, drive letters (`relpath` raises across drives) and separators inside an icon name. A path is a list of names compared exactly.
- Watchdog.FindRecentAchievement: a record without `earned`, or an earned record without `earned_time`, raises in the source; model records always have both fields.
- In the viewer: colour printing, `os.system('cls')`, `input`, `exit`, the empty-list message and `convert_from_unixtime`'s date formatting. Only its `unix_time > 0` test is kept.
- Viewer.SelectGame: parsing the answer with `int()` is left out; the choice arrives already parsed, or absent when `int()` raised `ValueError`.
- The existence check of the two files at achievement_viewer.py:78: a file-system query; the viewer's records and definitions are given.
- Float percentages and `.1f` formatting at achievement_viewer.py:112 and 119, including the division by zero at line 119 when the game has no definitions; the division by zero at line 112 is modelled (`DividesByZero`). The total count is the number of definitions and needs no member of its own.
- Viewer.Present: a listing stopped by a missing English description has already printed that achievement's title line, and one stopped by a zero `max_progress` has printed its title and either its description or the hidden notice; the model records the achievement as not shown.
- Viewer.DisplayAchievements: a local record that is an empty JSON object is falsy and skipped by the viewer; model records always have their fields.
