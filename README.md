# AI Employee vault workflow, modelled in Dafny

The AI Employee keeps its work in an Obsidian vault: a fixed set of stage
folders (`Needs_Action`, `Approved`, `Done`, `Pending_Approval`, `Rejected`,
`Logs`) plus `Dashboard.md`. Two kinds of programs act on it.

- **Watchers** (`BaseWatcher` and its concrete `FilesystemWatcher`) poll a
  source. For each new item they write a markdown action file into
  `Needs_Action`, named `<prefix>_<safe id>_<timestamp>.md`. The filesystem
  watcher watches a drop folder. It remembers the MD5 of every file it took in,
  in a ledger file of `hash|filename` lines. It copies each new file into
  `Files` under a name that collides with nothing there.
- **The orchestrator** lists `Approved` and `Needs_Action`, keeping `.md`
  regular files (hidden names are skipped in `Needs_Action` only), oldest
  first.
  - Each approved item goes to the Qwen Code engine. On success it is moved to
    `Done`; in both cases a log line is written.
  - Then one prompt lists every pending item.
  - Successes add a line to the `## Recent Activity` section of the dashboard.

The model has these modules:

| module | what it holds |
|---|---|
| `Text` | the Python string operations used (`in`, `split`, `join`, `replace`, `split()`, `str(n)`, `lower`) |
| `Paths` | `Path.suffix` and `Path.stem` |
| `Watcher` | the naming rule of `_generate_filename` |
| `DropWatcher` | the ledger, the scan, the collision-free copy name, the type tables, and the class `FilesystemWatcher` with the inherited polling loop |
| `Items` | the two item getters |
| `Engine` | the engine command vector, the classification of the subprocess outcome, and the prompt item list |
| `Dashboard` | the text rewrite of `update_dashboard` |
| `Orchestrator` | the class `Vault` with its folders, dashboard and log, and one orchestrator run |

External effects are parameters:

- the engine is a function `run` from an argv to an outcome;
- the hash is a function `hashOf` from content to text;
- each clock reading is a timestamp text passed in (for the watcher, one per file name);
- each failure the scripts catch is an explicit input: a failed listing, a `Fault`, or the pass and sleep at which `stop()` arrives.

## Model

| member | source | states |
|---|---|---|
| Text.Split | AI_Employee_Vault/scripts/orchestrator.py:213 | `content.split('\n')` gives at least one piece, and no piece holds the separator |
| Text.JoinSplit | AI_Employee_Vault/scripts/orchestrator.py:213-224 | joining the pieces of a split with the same separator gives the original text back |
| Text.SplitJoin | AI_Employee_Vault/scripts/orchestrator.py:213-224 | splitting the join of separator-free pieces gives the pieces back |
| Text.OccurrencesPositive | AI_Employee_Vault/scripts/orchestrator.py:209-210 | the number of occurrences `replace` rewrites is positive exactly when the pattern is a substring |
| Text.ReplaceAbsent | AI_Employee_Vault/scripts/orchestrator.py:210 | `replace` leaves text without the pattern unchanged |
| Text.ReplaceLength | AI_Employee_Vault/scripts/orchestrator.py:210 | each occurrence replaced changes the length by the replacement's length minus the pattern's, and nothing else changes it |
| Text.ReplaceInserts | AI_Employee_Vault/scripts/orchestrator.py:210 | when the pattern occurs, the replacement occurs in the result |
| Text.ReplaceFirst | AI_Employee_Vault/scripts/orchestrator.py:210 | the text before the first occurrence is kept, that occurrence becomes the replacement, and only the rest is rewritten further |
| Text.Words | AI_Employee_Vault/scripts/orchestrator.py:137 | `str.split()` yields non-empty, whitespace-free words, the first starting at the text's first character when that is not a space |
| Text.WordsKeepLetters | AI_Employee_Vault/scripts/orchestrator.py:137 | the words hold exactly the text's non-whitespace characters, in order |
| Text.WordsSingle | AI_Employee_Vault/scripts/orchestrator.py:136-139 | a non-empty command without whitespace splits into itself alone, so both branches of the argv rule agree on it |
| Text.WordsPrefix | AI_Employee_Vault/scripts/orchestrator.py:137 | a whitespace-free word followed by nothing or by whitespace comes out as one whole word |
| Text.WordsJoin | AI_Employee_Vault/scripts/orchestrator.py:137 | `split()` of non-empty whitespace-free words joined by single spaces gives exactly those words back |
| Text.NatToString | AI_Employee_Vault/scripts/orchestrator.py:290 | `str(len(items))` is a non-empty string of decimal digits |
| Text.NatToStringValue | AI_Employee_Vault/scripts/orchestrator.py:290 | the digits of `str(n)` spell n, with no leading zero |
| Text.NatToStringLong | AI_Employee_Vault/scripts/filesystem_watcher.py:147 | a counter of at least 10^d prints with more than d digits |
| Text.Lower | AI_Employee_Vault/scripts/filesystem_watcher.py:133 | `lower()` keeps the length, lowers each ASCII letter and leaves no upper-case ASCII letter |
| Text.FirstIndex | AI_Employee_Vault/scripts/filesystem_watcher.py:73 | the first separator character of a line, or -1 exactly when the line has none |
| Text.LastIndex | AI_Employee_Vault/scripts/filesystem_watcher.py:133 | the last dot of a name, or -1 exactly when the name has none |
| Paths.Suffix | AI_Employee_Vault/scripts/orchestrator.py:108 | `Path.suffix` is empty, or a dot and at least one dot-free character that ends the name and is shorter than it, so a leading dot never starts a suffix |
| Paths.SuffixEmpty | AI_Employee_Vault/scripts/orchestrator.py:108 | the suffix is empty exactly when no dot after the first character is the last dot with something after it (`.md`, `.bashrc` and `notes.` have none) |
| Paths.Stem | AI_Employee_Vault/scripts/filesystem_watcher.py:146-147 | the stem followed by the suffix is the whole name |
| Paths.SuffixOf | AI_Employee_Vault/scripts/base_watcher.py:100 | a non-empty base plus `.ext` has exactly that suffix and that stem |
| Watcher.Sanitize | AI_Employee_Vault/scripts/base_watcher.py:99 | the safe id has the id's length; safe characters (ASCII alphanumeric, `-`, `_`) are kept, every other becomes `_`, so all are safe |
| Watcher.SanitizeKeepsSafe | AI_Employee_Vault/scripts/base_watcher.py:99 | an already-safe id is unchanged |
| Watcher.SanitizeIdempotent | AI_Employee_Vault/scripts/base_watcher.py:99 | sanitising twice equals sanitising once |
| Watcher.GeneratedNameShape | AI_Employee_Vault/scripts/base_watcher.py:97-100 | every generated name has suffix `.md`, stem `prefix_safeid_timestamp`, and starts with the prefix |
| DropWatcher.ParseRecord | AI_Employee_Vault/scripts/filesystem_watcher.py:72-73 | a line yields a record exactly when it holds the separator; the hash is the separator-free part before its first occurrence, and hash, separator and filename rebuild the line |
| DropWatcher.LedgerKeys | AI_Employee_Vault/scripts/filesystem_watcher.py:71-74 | a hash is in the loaded ledger exactly when it was there before or some line records it |
| DropWatcher.LedgerLastWins | AI_Employee_Vault/scripts/filesystem_watcher.py:71-74 | the loaded file name for a hash is the one on the last line recording that hash |
| DropWatcher.LedgerAppendRecord | AI_Employee_Vault/scripts/filesystem_watcher.py:79-84 | appending one record line to a ledger text ending in a line break and re-reading it gives the old ledger with hash mapped to filename (round trip) |
| DropWatcher.NewFilesMembers | AI_Employee_Vault/scripts/filesystem_watcher.py:101-114 | an entry is reported new exactly when it is in the scan and is a regular, non-hidden file whose hash the ledger lacks |
| DropWatcher.NewFilesAppend | AI_Employee_Vault/scripts/filesystem_watcher.py:104-110 | the scan keeps scan order: scanning two stretches equals scanning them one after the other |
| DropWatcher.LongCandidateFree | AI_Employee_Vault/scripts/filesystem_watcher.py:145-148 | past 10^(longest existing name) no candidate `stem_k.suffix` collides, so the counter loop ends |
| DropWatcher.FreeFrom | AI_Employee_Vault/scripts/filesystem_watcher.py:144-148 | the first counter from k on whose candidate is free; every smaller one from k is taken |
| DropWatcher.ChooseDestination | AI_Employee_Vault/scripts/filesystem_watcher.py:141-148 | the loop's destination is free; it is the original name exactly when that is free, and otherwise `stem_k + suffix` for the smallest free k ≥ 1 |
| DropWatcher.Categorize | AI_Employee_Vault/scripts/filesystem_watcher.py:180-198 | total: a listed extension gives its category, anything else `unknown`, and every category has a checklist |
| DropWatcher.CategorizeCases | AI_Employee_Vault/scripts/filesystem_watcher.py:182-198 | each of `document`, `text`, `markdown`, `data`, `image`, `spreadsheet` and `archive` comes from exactly the extensions listed for it, and `unknown` from exactly the unlisted ones |
| DropWatcher.SuggestedActions | AI_Employee_Vault/scripts/filesystem_watcher.py:249-294 | four actions for `document`, three for every other category; an unlisted category gets the `unknown` list |
| DropWatcher.FilesKept | AI_Employee_Vault/scripts/filesystem_watcher.py:144-150 | a file that was in Files before a pass is still there after it, unchanged |
| DropWatcher.CopyKept | AI_Employee_Vault/scripts/filesystem_watcher.py:141-150 | every item copied in a pass keeps its content in Files under its copy name to the end of the pass |
| DropWatcher.FilesNew | AI_Employee_Vault/scripts/filesystem_watcher.py:141-150 | every file in Files after a pass that was not there before is the copy of some item of the pass |
| DropWatcher.ActionsGrow | AI_Employee_Vault/scripts/base_watcher.py:113-114 | no action file goes away during a pass |
| DropWatcher.ActionFilesMember | AI_Employee_Vault/scripts/base_watcher.py:136-140 | after a pass, every item whose action file was written has an action file under its generated name, and no action file goes away |
| DropWatcher.ActionsUntouched | AI_Employee_Vault/scripts/filesystem_watcher.py:162-163 | an action file name no written item of the pass generates is left as it was, or stays absent |
| DropWatcher.ActionsLastWins | AI_Employee_Vault/scripts/filesystem_watcher.py:153-163 | the action file under a name holds the record (original name, copy name, size, type, hash, checklist) of the last item of the pass written under that name |
| DropWatcher.SameStemReplaced | AI_Employee_Vault/scripts/filesystem_watcher.py:162-166 | two differently named files with one stem, named within the same second, get one action file name; the record left is not the first file's, yet both hashes are in the ledger |
| DropWatcher.FirstRecordLost | AI_Employee_Vault/scripts/base_watcher.py:113-114 | two differently named files written under one action file name leave no record of the first |
| DropWatcher.SameStemSecondsApart | AI_Employee_Vault/scripts/base_watcher.py:97-100 | files of one stem named in different seconds get different action file names |
| DropWatcher.ActionFileCollision | AI_Employee_Vault/scripts/filesystem_watcher.py:162-166 | `a.pdf` and `a.png` dropped together and named within the same second leave no action file for `a.pdf` while both hashes are recorded |
| DropWatcher.UniqueActionsKeepOld | AI_Employee_Vault/scripts/filesystem_watcher.py:144-148 | under the intended naming an action file present before a pass is kept unchanged |
| DropWatcher.UniqueActionsKeepAll | AI_Employee_Vault/scripts/filesystem_watcher.py:144-148 | under the intended naming every item whose action file was written keeps its own full record to the end of the pass |
| DropWatcher.TickLedgerAgrees | AI_Employee_Vault/scripts/filesystem_watcher.py:163-166 | the ledger file text after a pass reads back as exactly the in-memory ledger of that pass, and still ends in a line break |
| DropWatcher.RecordAllGrows | AI_Employee_Vault/scripts/filesystem_watcher.py:165-166 | a pass only adds to the ledger, and records the hash of every item that went through without a fault |
| DropWatcher.TickSettles | AI_Employee_Vault/scripts/filesystem_watcher.py:104-110 | when every new file goes through, a second scan of the same drop folder finds nothing new |
| DropWatcher.FilesystemWatcher.constructor | AI_Employee_Vault/scripts/filesystem_watcher.py:40-64 | the watcher starts not running, with the ledger the ledger file describes, or an empty ledger when reading the file raises |
| DropWatcher.FilesystemWatcher.LoadProcessedFiles | AI_Employee_Vault/scripts/filesystem_watcher.py:66-77 | every line of the ledger file, in order, is applied to the map; when the read raises the map is untouched |
| DropWatcher.FilesystemWatcher.SaveProcessedFile | AI_Employee_Vault/scripts/filesystem_watcher.py:79-84 | one record is appended to the file and the map gains hash → name with every other entry unchanged; a file and map in step stay in step |
| DropWatcher.FilesystemWatcher.CheckForUpdates | AI_Employee_Vault/scripts/filesystem_watcher.py:94-114 | returns, in scan order, the new files of the part of the drop folder scanned before a failure (all of it when none), reading the ledger only |
| DropWatcher.FilesystemWatcher.CopyIntoFiles | AI_Employee_Vault/scripts/filesystem_watcher.py:139-150 | the copy lands under the collision-free destination, which was not in Files before |
| DropWatcher.FilesystemWatcher.WriteActionFile | AI_Employee_Vault/scripts/base_watcher.py:113-116 | the content lands in Needs_Action under exactly the given name, and that path is returned |
| DropWatcher.FilesystemWatcher.CreateActionFile | AI_Employee_Vault/scripts/filesystem_watcher.py:129-178 | per failure point: the copy, the action file and the ledger record are made in that order, and Files and Needs_Action are exactly one step of the pass fold; the ledger gains hash → original name only when nothing raised; the result is the action file path or None |
| DropWatcher.FilesystemWatcher.Attempt | AI_Employee_Vault/scripts/base_watcher.py:137-140 | one attempt for the next item extends the pass's ledger, ledger text, Files and Needs_Action by exactly that item's step |
| DropWatcher.FilesystemWatcher.CreateActionFiles | AI_Employee_Vault/scripts/base_watcher.py:136-140 | every item is attempted in order, even after earlier ones raise; the ledger, its file, Files and Needs_Action are exactly those of the whole pass |
| DropWatcher.FilesystemWatcher.Tick | AI_Employee_Vault/scripts/base_watcher.py:132-144 | a scan followed by an attempt for each new file it found, leaving the ledger, Files and Needs_Action exactly as the pass folds say; a failing scan only shortens that pass |
| DropWatcher.FilesystemWatcher.SleepPhase | AI_Employee_Vault/scripts/base_watcher.py:147-150 | at most `check_interval` one-second sleeps, none when not running, fewer once `_running` turns false |
| DropWatcher.FilesystemWatcher.Stop | AI_Employee_Vault/scripts/base_watcher.py:157-160 | `_running` is false afterwards |
| DropWatcher.FilesystemWatcher.IsRunning | AI_Employee_Vault/scripts/base_watcher.py:162-164 | reports `_running` |
| DropWatcher.FilesystemWatcher.Run | AI_Employee_Vault/scripts/base_watcher.py:118-155 | the loop ends once stopped, always with `_running` false, and the ledger only grows |
| Items.SelectCounts | AI_Employee_Vault/scripts/orchestrator.py:107-108 | the comprehension keeps each passing entry as often as listed and drops every other |
| Items.SelectAll | AI_Employee_Vault/scripts/orchestrator.py:107-108 | every kept entry passes the filter |
| Items.SelectExact | AI_Employee_Vault/scripts/orchestrator.py:107-108 | exactly the listed entries passing the filter are kept, with their multiplicities |
| Items.InsertLastPerm | AI_Employee_Vault/scripts/orchestrator.py:109 | one insertion step adds exactly the inserted entry |
| Items.InsertLastSorted | AI_Employee_Vault/scripts/orchestrator.py:109 | inserting into a list sorted by mtime keeps it sorted |
| Items.InsertLastStable | AI_Employee_Vault/scripts/orchestrator.py:109 | an insertion goes after every entry with an equal mtime |
| Items.SortSorted | AI_Employee_Vault/scripts/orchestrator.py:109 | `sorted(key=mtime)` is non-decreasing in mtime |
| Items.SortPerm | AI_Employee_Vault/scripts/orchestrator.py:109 | the sort is a permutation |
| Items.SortStable | AI_Employee_Vault/scripts/orchestrator.py:109 | the sort is stable: entries with equal mtimes keep their order |
| Items.SelectSorted | AI_Employee_Vault/scripts/orchestrator.py:107-109 | filter then sort: sorted, a permutation of the passing entries, stable |
| Items.PendingItemsSpec | AI_Employee_Vault/scripts/orchestrator.py:104-112 | `get_pending_items` gives [] on a listing error, and otherwise exactly the non-hidden `.md` regular files, with multiplicities, sorted by mtime and stable |
| Items.ApprovedItemsSpec | AI_Employee_Vault/scripts/orchestrator.py:114-122 | `get_approved_items` is the same with hidden names allowed |
| Items.HiddenOnlyApproved | AI_Employee_Vault/scripts/orchestrator.py:108 | every pending-eligible entry is approval-eligible, and a hidden name is never pending |
| Items.WatcherFilesPending | AI_Employee_Vault/scripts/orchestrator.py:107-108 | every action file a watcher writes (regular file, generated name, prefix not starting with a dot) passes the Needs_Action filter |
| Engine.ArgvShape | AI_Employee_Vault/scripts/orchestrator.py:136-145 | the argv ends in `-p` and the prompt; a command without a space is passed whole; one with a space is cut into non-empty whitespace-free words holding exactly its non-whitespace characters |
| Engine.ArgvJoined | AI_Employee_Vault/scripts/orchestrator.py:136-139 | a command of two or more whitespace-free words joined by single spaces runs exactly those words, then `-p` and the prompt |
| Engine.ClassifySpec | AI_Employee_Vault/scripts/orchestrator.py:158-176 | success exactly on exit code 0, with stdout as text; a failure carries stderr when non-empty, and always a non-empty message |
| Engine.ItemListLines | AI_Employee_Vault/scripts/orchestrator.py:269 | the item list splits into one `- name` line per item, in order |
| Engine.NeedsActionPromptLists | AI_Employee_Vault/scripts/orchestrator.py:269-273 | the Needs_Action prompt contains `- name` for every pending item |
| Engine.ApprovedPromptShows | AI_Employee_Vault/scripts/orchestrator.py:310-315 | the approval prompt contains the item's name and its whole content |
| Dashboard.InsertEntries | AI_Employee_Vault/scripts/orchestrator.py:213-224 | the loop builds the line list of the insertion rule, including the branch for a placeholder right after the header |
| Dashboard.PlaceholderFreeLines | AI_Employee_Vault/scripts/orchestrator.py:209-219 | on the path that runs the loop, no line holds the placeholder, so the branch at line 219 is never taken |
| Dashboard.RewrittenLength | AI_Employee_Vault/scripts/orchestrator.py:215-223 | the loop emits each line once plus one entry per header line |
| Dashboard.RewrittenAt | AI_Employee_Vault/scripts/orchestrator.py:215-223 | line i sits at position i + (headers before it), and a header is directly followed by the entry |
| Dashboard.RewrittenNoHeader | AI_Employee_Vault/scripts/orchestrator.py:215-224 | without header lines the loop rebuilds the lines unchanged |
| Dashboard.RewrittenInserted | AI_Employee_Vault/scripts/orchestrator.py:213-224 | without placeholders, the loop's output is the lines with the entry inserted after each header, all lines kept in order |
| Dashboard.RewriteReplaces | AI_Employee_Vault/scripts/orchestrator.py:209-210 | with the placeholder present, every placeholder is replaced by the entry, which then occurs; the length changes by the difference once per placeholder |
| Dashboard.RewriteFirst | AI_Employee_Vault/scripts/orchestrator.py:209-210 | the text before the first placeholder is written back unchanged, the placeholder becomes the entry, and only the text after it is rewritten further |
| Dashboard.RewriteInserts | AI_Employee_Vault/scripts/orchestrator.py:211-224 | without the placeholder, the written lines are the original lines with a one-line entry inserted after every exact header line |
| Dashboard.RewriteUnchanged | AI_Employee_Vault/scripts/orchestrator.py:209-226 | with neither the placeholder nor an exact header line, the text is written back unchanged |
| Dashboard.ActivityEntryOneLine | AI_Employee_Vault/scripts/orchestrator.py:205-206 | the activity entry `- [ts] action: details` is a single line when its parts are |
| Orchestrator.FolderNamesDistinct | AI_Employee_Vault/scripts/orchestrator.py:52-58 | the stage folders have distinct names, none of them `Dashboard.md` |
| Orchestrator.MovedMembers | AI_Employee_Vault/scripts/orchestrator.py:326-330 | a name is moved exactly when its move does not raise and some approved item of that name succeeds |
| Orchestrator.ApproveFoldersApproved | AI_Employee_Vault/scripts/orchestrator.py:305-330 | Approved loses exactly the moved names |
| Orchestrator.ApproveFoldersDone | AI_Employee_Vault/scripts/orchestrator.py:305-330 | Done gains the moved entries as they were in Approved and keeps every other entry |
| Orchestrator.ApproveFoldersMoves | AI_Employee_Vault/scripts/orchestrator.py:305-332 | both folder effects of `process_approved` together |
| Orchestrator.FailedStays | AI_Employee_Vault/scripts/orchestrator.py:324-332 | an item whose engine call fails, or whose move raises, stays in Approved with its entry |
| Orchestrator.SucceededMoved | AI_Employee_Vault/scripts/orchestrator.py:326-330 | an item whose call succeeds and whose move does not raise is in Done under the same name with its Approved entry, and gone from Approved |
| Orchestrator.ApproveLogLines | AI_Employee_Vault/scripts/orchestrator.py:326-332 | one log line per approved item, in order, status `success` exactly for the successes |
| Orchestrator.ApproveDashboardMissing | AI_Employee_Vault/scripts/orchestrator.py:198-200 | a missing dashboard is never written |
| Orchestrator.Vault.constructor | AI_Employee_Vault/scripts/orchestrator.py:51-63 | every stage folder exists, an existing one keeps its entries, and the log is empty |
| Orchestrator.Vault.LogActivity | AI_Employee_Vault/scripts/orchestrator.py:178-193 | exactly one log line is appended |
| Orchestrator.Vault.UpdateDashboard | AI_Employee_Vault/scripts/orchestrator.py:195-226 | the dashboard becomes the rewrite of its text with the activity entry, and stays absent when missing |
| Orchestrator.Vault.MoveToDone | AI_Employee_Vault/scripts/orchestrator.py:232-241 | returns true exactly when the entry was in Approved and the move does not raise, and then moves it to Done under the same name; otherwise nothing changes |
| Orchestrator.Vault.ApproveOne | AI_Employee_Vault/scripts/orchestrator.py:324-332 | on success: log, dashboard entry, and the move to Done unless it raises; on failure only the error log line |
| Orchestrator.Vault.ProcessApproved | AI_Employee_Vault/scripts/orchestrator.py:295-332 | the folders, dashboard and log after the loop over the sorted approved items are those of the specification folds; Needs_Action is untouched |
| Orchestrator.Vault.ProcessNeedsAction | AI_Employee_Vault/scripts/orchestrator.py:258-293 | with no pending items nothing happens; otherwise one engine call, one log line and, on success, one dashboard entry; no folder changes |
| Orchestrator.Vault.RunOnce | AI_Employee_Vault/scripts/orchestrator.py:334-342 | Approved is processed before Needs_Action: the log is the approval lines followed by the Needs_Action line, and the folders are those of the approval pass |

## Left out

- `_find_qwen` and `subprocess.run` are external processes. The engine is the `run` parameter, a function of the argv alone. `_find_qwen`'s choice is the `command` field.
- The engine's own effects on the vault are not modelled: it may write files, move items to `Rejected` or update the dashboard itself.
- MD5 hashing is the `hashOf` parameter.
- Clock readings are abstract texts. The source formats `datetime.now()` three ways: `isoformat()` for log lines (orchestrator.py:184), `%Y-%m-%d %H:%M` for dashboard entries (orchestrator.py:205) and `%Y%m%d_%H%M%S` for action file names (base_watcher.py:97). The orchestrator model passes one `now` text per call. The watcher model takes a reading per file, `clockOf(name)`, since `_generate_filename` reads the clock once for each action file. The formats themselves are not modelled.
- Logging to the console, and the JSON encoding and per-day file of `log_activity`, are left out. The log is a sequence of entries that only grows.
- File times are integers rather than floats.
- A file's content is modelled as a character string with one character per byte, so `st_size` is the content's length, and `hashOf` is applied to that string.
- `iterdir` order is an input list of names.
- A `stat` failure while sorting is folded into the listing error. The item getters catch both the same way.
- Prompt wording: the fixed prompt texts are the `QwenWording` constant, which a `Vault` is built with. Proofs use only the item-dependent parts of the prompts.
- Real filesystem operations are replaced by map updates on the stage folders. This covers `mkdir`, `shutil.copy2`, `shutil.move` and the markdown layout of action files. That layout is `_create_action_content`, whose float `KB` figure is also left out.
- The model's `shutil.move` overwrites an entry of the same name in Done. Directory destinations and cross-device moves are not modelled.
- Exceptions from `read_text` and `write_text` in `update_dashboard` and `process_approved` are not modelled. The dashboard text and the item contents are read from the listed state. A `move_to_done` that raises while the entry is present is modelled, by the `stuck` set of names whose move fails; so is a ledger file whose `read_text` raises.
- An exception from `log_activity` is not caught by the script either, so it would end the run. It is not modelled.
- `move_to_rejected` is never called, and its effect depends on the platform. It is not part of this model.
- `Pending_Approval` and `Rejected` are only created by the orchestrator. No code here reads or moves their items.
- `run_continuous` is an endless `while True` loop of `run_once` and sleeps. Each pass is `RunOnce`. The loop itself is not modelled.
- Concurrency is left out: the watcher and orchestrator run as separate processes on shared folders, and `stop()` can be called from another thread. `KeyboardInterrupt` is also left out. A stop is modelled as arriving at a chosen pass and sleep.
- Python string semantics are approximated:
  - `isalnum` and `lower` cover ASCII only;
  - `splitlines` is a split on `'\n'`;
  - `str.split()` breaks on the ten ASCII whitespace characters Python uses (space, tab, line feed, vertical tab, form feed, carriage return, and 0x1C to 0x1F); non-ASCII whitespace is not covered.
- `main()`, its argument handling and the `TestWatcher` demo are left out.
- Dashboard.Rewrite requires a non-empty placeholder, because Python's `replace` with an empty pattern inserts between every pair of characters. The dashboard's own placeholder is non-empty.
- DropWatcher.TickLedgerAgrees requires hashes without `|` or line breaks, file names without line breaks, and a ledger file that ends in a line break. Other ledger texts are read as written, but with no round-trip guarantee.
- DropWatcher.FilesystemWatcher.Tick states the ledger file only as text. That it reads back as the in-memory ledger is the separate lemma TickLedgerAgrees.
- DropWatcher.FilesystemWatcher.Run states only the end state of the loop: not running, with a ledger that only grew. Each pass is specified by Tick. Every pass uses the same clock readings (`clockOf`) and the same fault inputs.
- Orchestrator.FailedStays requires a listing without repeated names. Otherwise, an earlier failure and a later success for the same name would end with the entry moved.

## Findings

| source | as written | input that shows it | evidently intended | confidence | as-written member | corrected member |
|---|---|---|---|---|---|---|
| AI_Employee_Vault/scripts/filesystem_watcher.py:162-166 | the action file is named `FILE_<safe stem>_<time to the second>.md` and `write_text` replaces any file of that name, while both hashes go into the ledger | `a.pdf` and `a.png` dropped in one pass and named within the same second | each dropped file keeps its own action file, as copies into Files keep their own names | not executed | DropWatcher.ActionFileCollision | DropWatcher.UniqueActionsKeepAll |

The watcher class follows the code as written, so its pass contracts use `Stores`. The intended naming is `UniqueStores`, which gives a taken action file name the first free `_k` variant, the way `Files` copies are named.
