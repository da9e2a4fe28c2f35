# Wallet brute-force tools: log format, run control, network selection, messages

This project models in Dafny the logic that the wallet brute-force tools implement themselves. Key derivation and balance lookups are calls into libraries and web services, so they are not part of it. The model covers five parts.

- **The found-wallets log** (`found_wallets.txt`):
  - The record writers (`save_findings`). The desktop applications use a guarded copy. The web application and the two command-line tools use an unguarded copy.
  - The three readers. These are the `/history` page of the web application and the `load_found_wallets_history` loaders of the Qt and Tk windows.
  - The model proves that every record the guarded writer appends reads back as exactly one record, and that the readers keep records in the order they were written. The timestamp comes back with the header's closing ` ===` still attached.
- **The desktop run controller**:
  - the `is_running`/`is_paused` flags and the worker they drive;
  - start, pause/resume and stop, and the Qt progress animation;
  - the tables that the worker's messages update.
- **Network selection**:
  - the order-preserving filter against the configured networks;
  - the comma-separated `--networks` option of `brute_force_wallet.py`;
  - the check boxes of the desktop windows;
  - the guards that decide whether a run starts in each front end.
- **Console reports**: when the command-line tools print or log statistics (with Python's floor-division `%`), and the `display_stats` line of the standalone tool.
- **Translations**: `get_text` over the `TRANSLATIONS` catalogue of `config_i18n.py`.

Python semantics are modelled where the code depends on them:

- strings are `seq<char>`;
- `str.strip` uses Python's whitespace set;
- `str.split` splits left to right on non-overlapping occurrences;
- `in`, `startswith` and `replace` are modelled;
- `upper` is modelled for ASCII;
- dictionaries are association lists in insertion order, and assignment replaces a value in place.

Timestamps, file contents, keyword lists and looked-up balances are parameters.

Modules, one per file:

- `PyStr`: Python string operations.
- `Dicts`: dictionaries.
- `WalletLog`: writers and readers.
- `LogLines`: how each written line is read.
- `LogRoundTrip`: one record written and read back.
- `LogHistory`: whole logs.
- `UnguardedWriter`: the writer of the web and command-line tools.
- `GuiController`, `Networks`, `Launch`, `Console`, `I18n`.

## Model

| member | source | states |
|---|---|---|
| PyStr.Strip | main.py:262-264 | the result of `strip()` has no whitespace at either end, and is empty exactly when the input is all whitespace |
| PyStr.SplitJoin | main.py:259 | splitting the separator-joined text of parts that do not contain the separator gives those parts back |
| PyStr.SplitJoinsBack | main.py:264 | joining the parts of a split with the separator rebuilds the text |
| PyStr.StripPadded | brute_force_wallet.py:160 | whitespace around a trimmed word is exactly what `strip()` removes |
| Dicts.Get | crypto_wallet_gui.py:78 | a key is absent exactly when it is not among the keys; a found value is stored under that key |
| Dicts.Put | main.py:282 | assigning to an existing key keeps the key order; a new key is appended at the end; the key then maps to the new value and every other key keeps its value |
| Dicts.PutDistinct | main.py:288 | assignment never duplicates a key |
| WalletLog.Kept | crypto_wallet_gui.py:77-78 | the guarded writer keeps exactly the address entries whose network has a balance, in address order: every kept entry is such an entry, every such entry is kept, and the kept list is the address list with entries deleted |
| WalletLog.KeptAll | crypto_wallet_gui.py:77-78 | when every address network has a balance, the guarded writer writes every address |
| WalletLog.KeptBalances | crypto_wallet_gui.py:78-80 | the balances written are those of the kept networks, in the same order, each being the value of its network's balance |
| WalletLog.EntryLines | crypto_wallet_gui.py:77-80 | the guarded writer writes two lines per network that has both an address and a balance |
| WalletLog.RecordLayout | crypto_wallet_gui.py:73-82 | a record is a header line, the seed line, then for the i-th kept network its address line and its balance line in address order, then a blank line |
| WalletLog.EntryLinesLayout | crypto_wallet_gui_tkinter.py:69-72 | line 2i of the entry lines is the address line of the i-th kept network and line 2i+1 its balance line |
| WalletLog.UnguardedEntries | main.py:63-65 | the unguarded loop fails exactly when some address network has no balance; it then fails on an address network without a balance; otherwise it writes the guarded lines |
| WalletLog.CollectBalancesKeys | main.py:127-130 | the scanning loop looks up a balance for a network exactly when that network is a target and has an address |
| WalletLog.LabelledPair | main.py:278-281 | a line is accepted exactly when splitting it at the label gives two parts; a line without the label is never accepted; an accepted pair has no whitespace at either end of its network or value |
| LogLines.LabelledOnce | main.py:278-281 | a line holding the label once is accepted as the stripped text before and after it |
| LogLines.LabelledTwice | main.py:278-279 | a line holding the label twice splits into three parts or more and is rejected |
| WalletLog.ClassifyEntry | main.py:277-288 | a line is an address entry exactly when it is accepted as a pair at `Address:`, and then carries that pair; it is a balance entry exactly when it holds no `Address:` and is accepted as a pair at `Balance:`, and then carries that pair; any other line contributes nothing |
| LogLines.ClassifyTwice | main.py:277-288 | a line with `Address:` twice, or with no `Address:` and `Balance:` twice, contributes nothing |
| WalletLog.ApplyEntry | main.py:282-288 | applying an entry touches only the address or balance map, never the timestamp or mnemonic |
| WalletLog.BlockLines | main.py:264-265 | a non-blank block always has a first line to take the timestamp from |
| WalletLog.TextMode | main.py:257 | reading the log in text mode leaves no carriage return, and leaves text that holds none unchanged |
| WalletLog.Rows | crypto_wallet_gui.py:599-611 | the i-th row a loader adds for a record carries the record's timestamp, the i-th network that has both an address and a balance, and that network's balance, so the rows follow address order |
| LogLines.ClassifyAddress | main.py:277-282 | an address line written for network n and address a reads back as that network and address, whatever whitespace follows the label |
| LogLines.ClassifyBalance | main.py:283-288 | a balance line written for network n and balance b reads back as that network and balance |
| LogLines.MainSeed | main.py:275-276 | the seed line reads back as the mnemonic when the mnemonic does not contain the seed label |
| LogLines.GuiSeed | crypto_wallet_gui.py:584-596 | the desktop loaders, which scan the seed line too, take no entry from it |
| LogLines.GuiStamp | crypto_wallet_gui_tkinter.py:513-519 | the desktop loaders, which scan the first line too, take no entry from the timestamp line |
| LogLines.TrimBalanceLine | main.py:264 | the `strip()` of a block does not change how the final balance line is read |
| LogRoundTrip.SaveFindingsText | crypto_wallet_gui.py:74-82 | a record is the marker followed by a body that holds the rest of the header, the seed and entry lines, and a blank line |
| LogRoundTrip.BodyLines | main.py:262-264 | a record body is not blank, and its lines are the recovered timestamp followed by the written lines, the last one right-stripped |
| LogRoundTrip.ScanEntries | main.py:274-288 | reading the entry lines adds exactly the kept networks, in order, to the address and balance maps; both readers agree on them |
| LogRoundTrip.RecordRoundTrip | main.py:255-290 | a guarded record with clean values reads back on the history page as one wallet: the timestamp plus ` ===`, the mnemonic, and the address and balance of every network that had both |
| LogRoundTrip.GuiRecordRoundTrip | crypto_wallet_gui.py:571-611 | a guarded record with clean values reads back in the desktop loaders as one row per network that had both an address and a balance |
| LogRoundTrip.ReadAsWritten | main.py:257-259 | a record written from clean values holds no carriage return, so text-mode reading gives back exactly the written record |
| LogHistory.HistoryRecords | main.py:259-262 | the history page lists one record per marker-separated block that is not blank, in file order |
| LogHistory.GatherSingles | main.py:261-290 | a reader that makes one record of each block yields one record per non-blank block, in order |
| LogHistory.EmptyHistory | main.py:259-262 | an empty log lists nothing in any reader |
| LogHistory.HistoryAppend | main.py:259 | text that begins with the marker, appended to a log, adds its records after the existing ones |
| LogHistory.GuiHistoryAppend | crypto_wallet_gui_tkinter.py:508 | the same holds for the desktop loaders' rows |
| LogHistory.AppendRecord | main.py:55-67 | appending one guarded record to any log adds exactly that record, at the end of the history |
| LogHistory.HistoryOfLog | main.py:259-290 | a log written record by record lists the records in the order they were written |
| LogHistory.GuiAppendRecord | crypto_wallet_gui_tkinter.py:510-536 | appending a guarded record to any log adds, after the rows already read, one row per network of the record that has both an address and a balance, under the recovered timestamp |
| LogHistory.GuiHistoryOfLog | crypto_wallet_gui.py:571-611 | the desktop loaders read a log written record by record as the rows of each record, in the order the records were written |
| LogHistory.LoadHistoryOfLog | crypto_wallet_gui.py:565-613 | a missing log leaves the table unchanged; otherwise the loader appends the rows of every record, in write order, after the rows already in the table |
| LogHistory.HistoryViewOfLog | main.py:253-294 | the page of a log written record by record shows no error and lists each record as it reads back, in write order; a missing log shows the error and nothing else |
| LogHistory.LogReadAsWritten | crypto_wallet_gui.py:571-573 | a log written from clean values holds no carriage return, so reading it in text mode gives back exactly the written text |
| LogHistory.ShownThenReloaded | crypto_wallet_gui.py:542-559 | the rows the Qt window showed when the wallet was found and the rows the loader rebuilds from its record name the same networks in the same order; the shown rows carry the time of the report instead of the recovered timestamp, and each balance as `format_balance` renders the raw value the log holds; the Tk window, which inserts each row at the top (crypto_wallet_gui_tkinter.py:485-487), shows the same rows in reverse order above the older ones |
| UnguardedWriter.WorkerFailsIff | main.py:63-65 | writing a found wallet fails exactly when some address network is not a target; it fails on such a network |
| UnguardedWriter.UnguardedAgrees | brute_force_wallet.py:51-59 | when no lookup fails, the unguarded writer writes exactly what the guarded one writes |
| UnguardedWriter.SecondMissing | standalone_wallet_brute_force.py:64-66 | the write stops at the first address network without a balance, right after writing that network's address line |
| UnguardedWriter.DefaultTargetsFail | standalone_wallet_brute_force.py:179 | with the default target `BTC`, every found wallet fails on `ETH`, and the record is left cut short after the `ETH` address line, without its closing blank line |
| GuiController.Start | crypto_wallet_gui.py:420-450 | a start while running, or with no network selected, changes nothing; the warning is shown exactly for an empty selection while stopped; otherwise the window runs unpaused with a fresh running worker on the selection; validity is kept |
| GuiController.TogglePause | crypto_wallet_gui.py:452-468 | without a running worker nothing changes; otherwise the pause flag flips and the worker's flag follows it; validity is kept |
| GuiController.Stop | crypto_wallet_gui.py:470-486 | without a running worker nothing changes; otherwise the worker is told to stop; from a valid state both flags end false and validity is kept |
| GuiController.Tick | crypto_wallet_gui.py:535-540 | the timer changes only the progress value |
| GuiController.StepValid | crypto_wallet_gui.py:420-486 | every transition keeps the controller valid |
| GuiController.RunValid | crypto_wallet_gui_tkinter.py:383-451 | after any sequence of user and timer events, paused implies running |
| GuiController.InitialValid | crypto_wallet_gui.py:203-205 | the window as constructed is valid |
| GuiController.ToggleTwice | crypto_wallet_gui_tkinter.py:415-433 | pausing and resuming restores the controller exactly |
| GuiController.StopIdempotent | crypto_wallet_gui_tkinter.py:435-451 | a second stop does nothing, and a stopped controller ignores pause |
| GuiController.TickMoves | crypto_wallet_gui.py:537-540 | the progress value changes exactly when the run is active, and stays in 0 to 99 |
| GuiController.TicksAdvance | crypto_wallet_gui.py:535-540 | k ticks of an active run advance the value by 5k modulo 100; otherwise nothing changes |
| GuiController.TicksCycle | crypto_wallet_gui.py:539 | twenty ticks bring the animation back to where it was |
| GuiController.Formatted | crypto_wallet_gui.py:120-125 | the balances the worker sends to the window name the same networks as the looked-up balances, each rendered by the formatter |
| GuiController.GetOr | crypto_wallet_gui_tkinter.py:478 | `get(k, "0")` gives the stored value, or `"0"` when the key is absent |
| GuiController.AddressTable | crypto_wallet_gui_tkinter.py:474-479 | a progress report rebuilds the address table with one row per address, in order, with the balance defaulting to `"0"` |
| GuiController.InsertAtTopReverses | crypto_wallet_gui_tkinter.py:485-487 | rows inserted one by one at the top end up above the old rows, in reverse order |
| GuiController.TkUpdate | crypto_wallet_gui_tkinter.py:454-491 | an error stops the run and changes nothing else; a progress report replaces the mnemonic and the address table and nothing else; a found wallet puts its rows, newest first, above the found table and leaves the run, the mnemonic and the address table as they were |
| GuiController.QtUpdate | crypto_wallet_gui.py:489-563 | an error stops the run and changes nothing else; a progress report replaces the mnemonic and the address table and leaves the run and the found table as they were; a found wallet appends its rows below the found table and leaves the run, the mnemonic and the address table as they were |
| GuiController.UpdatesAgree | crypto_wallet_gui_tkinter.py:481-491 | both windows agree on the run, the mnemonic and the address table after any message; a found wallet's new rows are in reverse order in the Tk window |
| GuiController.ErrorStops | crypto_wallet_gui_tkinter.py:456-459 | an error message from the worker leaves the run stopped and unpaused, and the controller valid, in both windows |
| Networks.Filter | main.py:196 | the filtered list is no longer than the request, holds only allowed names, and contains a name exactly when it was requested and is allowed |
| Networks.FilterSublist | standalone_wallet_brute_force.py:189-190 | the filter keeps the requested order |
| Networks.FilterCounts | brute_force_wallet.py:161 | every configured name is kept as often as it was requested, so duplicates survive; every other name is dropped |
| Networks.FilterAllAllowed | main.py:196 | a request made only of configured names passes unchanged |
| Networks.FilterDistinct | crypto_wallet_gui.py:417-418 | filtering a list without repeats gives a list without repeats |
| Networks.Normalize | brute_force_wallet.py:160 | an item normalises to the empty name exactly when it is all whitespace |
| Networks.NormalizeTwice | brute_force_wallet.py:160 | normalising an item twice is normalising it once: the result is trimmed and has no lower-case ASCII letter left |
| Networks.NormalizeAllTwice | brute_force_wallet.py:160 | normalising the items of an option a second time changes none of them |
| Networks.ParseNetworkOption | brute_force_wallet.py:160-161 | the parsed option lists only configured networks |
| Networks.ParseJoined | brute_force_wallet.py:160-161 | for comma-free items, parsing their comma-joined text filters their normalised forms in order |
| Networks.NormalizePadded | brute_force_wallet.py:160 | an item names its network whatever its case and surrounding whitespace |
| Networks.NormalOption | brute_force_wallet.py:160-161 | configured names in capitals, without spaces, joined by commas, parse back to exactly those names |
| Networks.DefaultOptionText | brute_force_wallet.py:150 | the default option text is the configured networks joined by commas |
| Networks.DefaultOption | brute_force_wallet.py:150-161 | the default option selects every configured network, in order |
| Networks.ApiNetworksNormal | config.py:9-26 | the configured network names are trimmed, upper-case and free of commas |
| Networks.SelectedNetworks | crypto_wallet_gui.py:415-418 | the selection is exactly the checked configured networks |
| Networks.SelectionOrdered | crypto_wallet_gui.py:239-244 | the selection lists each checked network once, in configuration order |
| Networks.SelectAllNone | crypto_wallet_gui.py:405-413 | "select all" selects every network; "select none" selects none |
| Launch.WebStart | main.py:187-232 | a start succeeds exactly when nothing is running, the interval field is a number, a submitted network is configured and keywords were read; a refusal names the first of these tests that fails, in that order; a refused start changes no state; a successful start resets the counters and runs on exactly the configured submitted networks, in the order submitted, repeats included |
| Launch.WebStop | main.py:239-245 | after a stop nothing runs; "stopped" is reported exactly when something was running; the counters are untouched |
| Launch.WebStartStop | main.py:182-245 | a started run can be stopped, a second stop reports nothing running, and a new start is accepted |
| Launch.WebStartAll | main.py:196-215 | submitting every configured network starts a run on all of them |
| Launch.CliLaunch | brute_force_wallet.py:159-170 | the tool runs exactly when the option names a configured network and at least twelve keywords were read, and it runs on the parsed networks |
| Launch.CliDefault | brute_force_wallet.py:150-170 | with the default option and enough keywords, all four networks run |
| Launch.StandaloneLaunch | standalone_wallet_brute_force.py:188-203 | the standalone tool runs exactly when a configured network was named and any keyword was read, and then on exactly the configured names requested, in the order requested; it never checks the keyword count |
| Launch.StandaloneDefault | standalone_wallet_brute_force.py:179 | the standalone default runs on `BTC` alone |
| Launch.ToolsAgree | brute_force_wallet.py:84-86 | both tools accept the same canonical network names, but only the comma-option tool insists on twelve keywords |
| Launch.WorkerFirstMessage | crypto_wallet_gui.py:86-90 | the desktop worker sends an error first exactly when it has fewer than twelve keywords |
| Launch.ShortKeywordsStop | crypto_wallet_gui_tkinter.py:78-82 | a desktop run started with too few keywords stops itself on the worker's first message in either window |
| Console.PyDiv | standalone_wallet_brute_force.py:161 | the floor quotient on which Python's `%` is built: it rounds towards minus infinity, for either sign of the divisor |
| Console.PyMod | standalone_wallet_brute_force.py:161 | `%` rebuilds the dividend with `//` and takes the sign of the divisor |
| Console.PyModZero | brute_force_wallet.py:136 | Python's remainder is zero exactly when the mathematical one is |
| Console.StandaloneReport | standalone_wallet_brute_force.py:161-166 | a zero interval raises a division error; otherwise the status line is due exactly when the attempts are a multiple of the interval |
| Console.StandaloneLogExactly | standalone_wallet_brute_force.py:165-166 | the log line is written exactly when the attempts are a multiple of fifty intervals |
| Console.BruteForceReport | brute_force_wallet.py:136-139 | a zero interval raises a division error; otherwise the statistics test passes exactly when the attempt count is a multiple of the interval |
| Console.FiresMagnitude | brute_force_wallet.py:136 | a negative interval fires at exactly the attempts its magnitude does, since Python's remainder is zero just when the divisor goes into the attempts |
| Console.FiringsCount | brute_force_wallet.py:136 | for any non-zero interval, including the negative ones the `type=int` option accepts, the statistics test passes for n // abs(interval) of the attempt counts 1 to n; for a positive interval that is n // interval |
| Console.DecimalRoundTrip | standalone_wallet_brute_force.py:80 | the decimal text of a count reads back as that count |
| Console.GroupedRoundTrip | standalone_wallet_brute_force.py:84 | the comma-grouped text of the attempts count, without its commas, reads back as the count |
| Console.FoundTextSays | standalone_wallet_brute_force.py:79-82 | the found text announces wallets exactly when some were found, and then starts with their number |
| Console.StatusLine | standalone_wallet_brute_force.py:84 | the status line overwrites the current console line |
| Console.StatusLineAttempts | standalone_wallet_brute_force.py:84 | the attempts count can be read back from the status line |
| I18n.Find | config_i18n.py:92 | a table is found exactly when the catalogue has the language code |
| I18n.Lookup | config_i18n.py:92-95 | a key of the language's table gives that table's text; otherwise the default table's text; otherwise the key itself |
| I18n.UnknownLanguage | config_i18n.py:92-93 | in any catalogue, an unknown language code behaves exactly like the default language |
| I18n.MissingKey | config_i18n.py:95 | a key that no relevant table holds is returned unchanged |
| I18n.TwoTables | config_i18n.py:95 | in a two-language catalogue with shared keys, each key is answered from the table of the requested language |
| I18n.CatalogueShape | config_i18n.py:35-79 | the catalogue has exactly the tables `en` and `vi`, which share their keys, and `en` is the default |
| I18n.TablesFound | config_i18n.py:35-76 | `en` and `vi` find their tables, and every other code finds none |
| I18n.SameKeys | config_i18n.py:36-75 | both tables define the same eighteen keys, in the same order |
| I18n.OwnLanguage | config_i18n.py:95 | `get_text` answers a catalogue key in the language asked for |
| I18n.MissingEverywhere | config_i18n.py:95 | a key the catalogue lacks is its own text in every language, so `get_text` never fails |
| I18n.UnknownLanguageIsEnglish | config_i18n.py:92-93 | any language other than `en` and `vi` reads the English table |

## Left out

- Key derivation, mnemonic generation and address encoding (`wallet_generator.py`) are calls into `bip_utils`. The model takes the generated addresses as a dictionary parameter and fixes only their network order, BTC, ETH, BSC, TRX (wallet_generator.py:57-79).
- Balance lookups (`check_balance`) are HTTP calls with retries and sleeps. They become the function parameter `lookup`.
- `format_balance` uses floating-point division. It renders the balances the desktop windows show, and it is the parameter `fmt` of `GuiController.Formatted`; the found tables built from a worker message show what it returns.
- Worker threads, run loops, `stop_monitor`, `time.sleep` and the attempts-per-second rate are concurrency, clocks and floating point. The rate enters the status line as an already-formatted string.
- Reading the keyword file (`read_keywords`) is file I/O. The launch guards take the list it returns, which is empty when the file cannot be read.
- File opening and appending, Flask routes and templates, widget construction, message boxes and logging calls are I/O. Log contents are strings, and what the user sees is reduced to flash messages, notices and table rows.
- The web application's `last_generated`, `last_addresses`, `last_balances` and `stats` globals, which `start` resets, are not part of `Launch.WebState`. Only the running flag, the two counters and the selected networks are modelled.
- The `interval` form field and spin boxes set a sleep time, which is left out with the threads. Whether `float()` accepts the web form's field is the parameter `intervalParses` of `Launch.WebStart`.
- The Tk window's progress bar is driven by `ttk.Progressbar.step` and `start`. Only the Qt animation, `(v + 5) % 100`, is modelled.
- Console.StatusLine: its own contract only says that the line starts with a carriage return. What the line carries is stated by `Console.StatusLineAttempts` and `Console.FoundTextSays`.
- GuiController.Tick: its own contract only says that the flags and worker are unchanged. The value it computes is stated by `GuiController.TickMoves` and `GuiController.TicksAdvance`.
- WalletLog.ApplyEntry: its contract only says which fields are untouched. How entries change the maps is stated by `Dicts.Put` and `LogRoundTrip.ScanEntries`.
- The round-trip lemmas require clean values: no newline, no carriage return, no marker, no entry label, already trimmed. A carriage return is excluded because the readers open the log in text mode, which turns it into a line break; `LogRoundTrip.ReadAsWritten` shows that clean records pass through text mode unchanged. For the web reader, the mnemonic must not contain the seed label, and a network name must not start with it. For the desktop loaders, the timestamp and mnemonic must contain no entry label either. Values outside these conditions are written, but not claimed to read back.
- PyStr.Upper: only the ASCII letters are upper-cased. Python's `str.upper` also maps other letters, such as `ſ` to `S` and `ı` to `I`, and may lengthen a string (`ß` becomes `SS`). So an option item like `bſc` selects BSC in `brute_force_wallet.py`, but `Networks.ParseNetworkOption` and `Launch.CliLaunch` drop it, and `Networks.NormalizePadded` speaks only of ASCII names.
- Console.FiringsCount: it counts the attempt numbers at which the statistics test passes, not the messages logged. An attempt that leaves the loop before the test logs nothing. That happens when no address was derived (`if not addresses: continue`, brute_force_wallet.py:108-109, and standalone_wallet_brute_force.py:121-122 and 128-129), and on an exception caught by the loop, such as the unguarded writer's `KeyError` of the Finding below (brute_force_wallet.py:141-143, standalone_wallet_brute_force.py:172-174).
- `simple_wallet_brute_force.py` and the build and packaging scripts are outside the modelled logic.

## Findings

| source | as written | input that shows it | evidently intended | confidence | as-written member | corrected member |
|---|---|---|---|---|---|---|
| standalone_wallet_brute_force.py:64-66 (also main.py:63-65, brute_force_wallet.py:55-57) | `save_findings` writes an address line for every generated network and then indexes `balances[network]`. The scanning loop only fills `balances` for the target networks. | The standalone default `--networks BTC` with a found wallet: the generator gives BTC, ETH, BSC and TRX addresses. The record is cut off after the `ETH Address:` line by a `KeyError`, which the loop's `except` swallows. | Write only the networks that have a balance, as the desktop copies do (`if network in balances`, crypto_wallet_gui.py:77-80). | not executed | UnguardedWriter.DefaultTargetsFail | LogRoundTrip.RecordRoundTrip |

`UnguardedWriter.DefaultTargetsFail` states the text left in the file: the header, the seed line, the BTC address and balance lines and the ETH address line. `UnguardedWriter.WorkerFailsIff` generalises the failure: a write fails exactly when some generated network is not a target. `UnguardedWriter.UnguardedAgrees` shows that the corrected writer, `WalletLog.SaveFindings`, writes the same text whenever the unguarded one does not fail. The rest of the model uses the corrected writer.
