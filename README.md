# BrewGI list logic in Dafny

BrewGI is a small PyQt window over Homebrew. It lists the installed casks and
formulae, searches brew, installs the checked search results, uninstalls the
checked installed apps, and exports or imports the installed lists as a JSON
file with a `"cask"` and a `"formula"` array. Importing a file opens a confirm
dialog. It has one row per imported name. Apps that are already installed are
marked, unchecked and disabled. "Install Selected" hands the checked rows to a
background `BrewInstaller`.

This project models the list logic behind those widgets. Every `brew` call is
an outcome passed in by the caller:

- a listing is `Listed(lines)` or `ListFailed`;
- an install is a boolean per call, indexed by the call's position;
- an uninstall is `Exited(code, stderr)` or `LaunchFailed(message)`.

Modules:

- `Ordering` (ordering.dfy): Python's `<=` on `str`, compared code point by code point. `Sorted(S)` is `sorted` on a set of strings; it is proved to be the only ascending listing of `S`.
- `Text` (text.dfy): `str.strip()` with Python's whitespace set, and `str.replace(" (already installed)", "")`.
- `BrewCli` (brew_cli.dfy): `get_brew_apps`, `search_brew_apps`, `uninstall_brew_app`, and the truth value of the pair that the last one returns.
- `Batch` (batch.dfy): `BrewInstaller.run` as a class method with a loop, specified by the order-keeping filter `Picked`.
- `Reconcile` (reconcile.dfy): the import document, the confirm list, the selection loop of the import dialog, and the export document.
- `Store` (store.dfy): the main window as a class. Its `rows` field is the list widget; its methods are `refresh_app_list` and `uninstall_selected`. The module also holds the search dialog and the intended form of the uninstall error loop.

The installed names are the union of the casks and the formulae
(BrewGI.py:163-168, 231); a name in both categories is listed once.

## Model

| member | source | states |
|---|---|---|
| `Ordering.LessEqTotal` | BrewGI.py:177 | any two strings are comparable under Python's string order |
| `Ordering.LessEqAntisymmetric` | BrewGI.py:177 | two strings that are each `<=` the other are equal |
| `Ordering.LessEqTransitive` | BrewGI.py:177 | the string order is transitive |
| `Ordering.LeastExists` | BrewGI.py:177 | every non-empty set of strings has a smallest element |
| `Ordering.Sorted` | BrewGI.py:231 | `sorted(S)` is strictly ascending, has `\|S\|` elements, and holds exactly the members of `S` |
| `Ordering.SortedCharacterized` | BrewGI.py:177 | a sequence equals `sorted(S)` if and only if it is strictly ascending and holds exactly the members of `S` |
| `Text.Strip` | BrewGI.py:99 | `strip()` never lengthens the text, and what it returns neither starts nor ends with whitespace |
| `Text.StripIsStrippedSlice` | BrewGI.py:99 | `strip()` returns exactly the slice left once the leading and trailing whitespace are cut off |
| `Text.StripIdempotent` | BrewGI.py:99 | stripping twice is the same as stripping once |
| `Text.RemoveMarker` | BrewGI.py:203 | `replace(marker, "")` never lengthens a text |
| `Text.RemoveMarkerWithoutMarker` | BrewGI.py:203 | `replace(marker, "")` leaves a text without the marker unchanged |
| `Text.RemoveMarkerAfterAppend` | BrewGI.py:179 | removing the marker from `name + marker` gives back `name` when the name does not contain it |
| `BrewCli.LinesOrEmpty` | BrewGI.py:72-78 | a failed listing gives `[]` and a successful one its lines |
| `BrewCli.GetBrewApps` | BrewGI.py:70-79 | each category is its own listing's lines, or `[]` when that listing failed; a failure in one category leaves the other untouched |
| `BrewCli.SearchBrewApps` | BrewGI.py:81-86 | a successful search gives brew's lines as printed, in order; a failed search gives no results |
| `BrewCli.UninstallBrewApp` | BrewGI.py:88-101 | success if and only if brew exited with status 0; success carries `""`; a launch failure carries the exception's message |
| `BrewCli.UninstallErrorIsTrimmed` | BrewGI.py:99 | a non-zero exit carries brew's error text without its surrounding whitespace |
| `BrewCli.PairAlwaysTrue` | BrewGI.py:310-311 | under Python's rule that a tuple is true if and only if it is non-empty, the pair `uninstall_brew_app` returns is true whatever brew answered |
| `BrewCli.SuccessFlagTruth` | BrewGI.py:96-101 | the pair's first component, tested on its own, is true if and only if brew exited with status 0 |
| `Batch.BrewInstaller.constructor` | BrewGI.py:53-55 | the installer keeps the requested apps, in the order given |
| `Batch.BrewInstaller.Run` | BrewGI.py:57-66 | successes are the apps whose install succeeded and failures those whose install failed, each in request order; together they hold every requested app as often as it was requested; an empty batch gives two empty lists |
| `Batch.PickedPartition` | BrewGI.py:60-65 | the successes and failures together are the requested apps, counted with repetition |
| `Batch.PickedMembership` | BrewGI.py:60-65 | an app is among the successes (failures) if and only if one of its install calls succeeded (failed) |
| `Batch.PartitionDisjoint` | BrewGI.py:57-66 | in a batch without repetitions no app is both a success and a failure, and every app is one of them |
| `Batch.PartialFailureScenario` | BrewGI.py:57-66 | installing a, b, c where only b fails gives successes [a, c] and failures [b] |
| `Reconcile.ImportedNames` | BrewGI.py:156-167 | a name is imported if and only if the cask or the formula array lists it; a missing array lists nothing |
| `Reconcile.InstalledNames` | BrewGI.py:162-168 | a name is installed if and only if the cask or the formula listing holds it |
| `Reconcile.RepeatedNameScenario` | BrewGI.py:156-167 | `{"cask": [], "formula": ["wget", "wget"]}` imports the single name wget |
| `Reconcile.ConfirmList` | BrewGI.py:177-187 | one row per imported name, in ascending order; a row is enabled and checked if and only if its name is not installed; a disabled row's text carries the marker |
| `Reconcile.ConfirmLabelsDecode` | BrewGI.py:177-187 | removing the marker from the rows' texts gives back `sorted(imported)` |
| `Reconcile.FirefoxInstalledScenario` | BrewGI.py:177-187 | with firefox installed, importing firefox and vscode shows firefox marked and disabled, then vscode checked |
| `Reconcile.ImportDoInstall` | BrewGI.py:198-211 | an empty selection starts no installer; otherwise the installer gets the enabled, checked rows in list order with the marker removed |
| `Reconcile.SelectionNeverInstalled` | BrewGI.py:199-204 | whatever boxes the user checks, every selected name was imported and is not installed, and no name is selected twice |
| `Reconcile.InitialSelectionIsNewApps` | BrewGI.py:177-204 | with the check boxes as first shown, the selection is `sorted(imported - installed)` |
| `Reconcile.SingleNewNameSelection` | BrewGI.py:177-204 | for any imported name that is not installed, importing it alone selects that name with the marker text removed |
| `Reconcile.MarkerInNameIsRemoved` | BrewGI.py:203 | the new app "x (already installed)" is selected as "x" |
| `Reconcile.InstalledNameReachesInstaller` | BrewGI.py:178-204 | as written, with x installed, importing "x (already installed)" hands the installed app x to the installer |
| `Reconcile.SelectionByMembership` | BrewGI.py:199-204 | for any check state, a name is selected if and only if some enabled, checked row's text turns into it |
| `Reconcile.SelectionByNeverInstalled` | BrewGI.py:199-204 | whatever boxes are checked, a selection whose decoding keeps each new name intact holds only imported names that are not installed, ascending and each once |
| `Reconcile.InitialSelectionByIsNewApps` | BrewGI.py:177-204 | with the boxes as first shown, such a selection is `sorted(imported - installed)` |
| `Reconcile.IntendedSelectionNeverInstalled` | BrewGI.py:199-204 | for any imported names, the selection that takes each enabled row's text as it stands holds only imported apps that are not installed, each once |
| `Reconcile.IntendedInitialSelectionIsNewApps` | BrewGI.py:177-204 | for any imported names, that selection with the boxes as first shown is `sorted(imported - installed)` |
| `Reconcile.ExportDoc` | BrewGI.py:137-142 | the exported document imports exactly the installed names |
| `Reconcile.ExportThenImportOffersNothing` | BrewGI.py:162-186 | importing a just-exported file while the same apps are installed disables every row and selects nothing |
| `Reconcile.ImportDialog` | BrewGI.py:149-187 | an unreadable file aborts the import; otherwise the dialog shows the confirm list of the imported names against the installed names from both listings, one row per imported name |
| `Store.CollectChecked` | BrewGI.py:299-303 | returns the texts of the checked rows, in row order, and only those |
| `Store.InstalledRows` | BrewGI.py:232-236 | every row of the refreshed list is unchecked and enabled |
| `Store.RefreshedListIsSortedInstalled` | BrewGI.py:228-236 | the refreshed list reads `sorted(set(cask_apps + formula_apps))`: every installed name once, ascending |
| `Store.RefreshAfterFailedListing` | BrewGI.py:230-231 | when one listing fails, the list shows exactly the sorted names of the other |
| `Store.AppStore.constructor` | BrewGI.py:113-114 | a new window shows the refreshed list |
| `Store.AppStore.RefreshAppList` | BrewGI.py:228-236 | the list is replaced by the refreshed rows |
| `Store.AppStore.SetChecked` | BrewGI.py:234-235 | ticking or clearing the check box of a user-checkable row changes that row's check state and nothing else |
| `Store.AppStore.UninstallSelected` | BrewGI.py:298-324 | uninstall is attempted once per checked row, in list order; with nothing checked, only a notice is shown and the list is untouched; otherwise the success notice is shown whatever brew answers, and the list is refreshed |
| `Store.ErrorsAsWrittenAlwaysEmpty` | BrewGI.py:307-312 | as written, the error list is empty for every outcome of every uninstall |
| `Store.FailedUninstallUnreported` | BrewGI.py:310-311 | an uninstall that exits with status 1 is a failure, yet the written error list is empty |
| `Store.CollectUninstallFailures` | BrewGI.py:307-312 | the intended error list: exactly the apps whose uninstall failed, in order |
| `Store.SearchRows` | BrewGI.py:251-255 | the result rows show brew's results in brew's order, all unchecked |
| `Store.SearchApps` | BrewGI.py:238-296 | a cancelled or empty query shows nothing; an accepted, non-empty query opens the results dialog if and only if brew found something, and "No apps found" otherwise; the dialog's rows are brew's results, in order, unchecked |
| `Store.SearchDoInstall` | BrewGI.py:265-279 | an empty selection starts no installer; otherwise the installer gets the checked results in list order |
| `Store.SearchSelectionFromResults` | BrewGI.py:251-270 | whatever boxes the user checks, only search results are installed |

## Findings

| source | as written | input that shows it | evidently intended | confidence | as-written member | corrected member |
|---|---|---|---|---|---|---|
| BrewGI.py:310-311 | `if not success` tests the pair that `uninstall_brew_app` returns. A non-empty tuple is always true, so `errors` stays empty and the success notice is always shown | one checked app `wget` whose `brew uninstall` exits with status 1 | add the app to `errors` when the first component of the pair is false, so the warning lists the failed uninstalls | high, not executed | `Store.FailedUninstallUnreported` | `Store.CollectUninstallFailures` |
| BrewGI.py:178-204 | `replace(" (already installed)", "")` removes the marker text anywhere in a checked row's text, also from the name of an app that is not installed | `x` installed; the import file lists `x (already installed)`; its row is enabled and checked, and "Install Selected" hands `x` to the installer | an enabled row carries no marker, so take its text as it stands; then only imported apps that are not installed are selected | low: Homebrew names hold no spaces, so only a hand-edited file shows it; not executed | `Reconcile.InstalledNameReachesInstaller` | `Reconcile.IntendedSelectionNeverInstalled` |

`Store.AppStore.UninstallSelected` and `Reconcile.ImportDoInstall` keep the
code's behaviour. The intended uninstall loop (`Store.CollectUninstallFailures`)
and the intended selection (`Reconcile.IntendedSelection`) are modelled and
proved beside them.

## Left out

- Widgets, dialogs, layouts, message boxes, window titles and button enabling are not modelled; list rows are plain `Item(text, checked, enabled)` values.
- `get_app_icon` and its file-system glob (BrewGI.py:33-46) are not modelled, and neither is `except_hook` (BrewGI.py:23-31). Both are UI plumbing.
- Running `brew` and splitting its output into lines are not modelled. Every call is an outcome passed in as a parameter.
- GetBrewApps, SearchBrewApps: `get_brew_apps` and `search_brew_apps` catch only a non-zero exit (BrewGI.py:73, 77, 85). When brew cannot be started at all, as with nothing at `BREW_PATH`, the exception reaches `except_hook`, which shows an error and exits the program (BrewGI.py:23-29). `ListRun` has no such outcome, so this crash path is not modelled.
- `BrewInstaller.run` catches only a non-zero exit (BrewGI.py:64). A failure to start brew would escape the thread; that is outside the model, which gives every call a success or failure outcome. Line 62 runs `brew` from the search path rather than `BREW_PATH`; this is not modelled.
- The `QThread`, the `finished` signal and the replacement of `self.installer` on each submission are left out: they are concurrency. The model runs the installer to completion.
- Reading and writing the JSON file are left out. A file that cannot be read or parsed is `None`. An array value of another JSON type (a string would become a set of characters) or non-string elements are not modelled.
- The text of the notices (joined names, the permission hint) is not modelled. The model keeps only which notice is shown.
- The `except Exception` branch of `uninstall_selected` (BrewGI.py:313-314) is not modelled: `uninstall_brew_app` already catches every exception, so the branch cannot run.
- The commented-out earlier version of the program (BrewGI.py:334-368) is not modelled.
- Python strings may hold lone surrogate code points; Dafny characters cannot.
- Reconcile.SelectionNeverInstalled: proved only for imported names that do not contain the text " (already installed)". For other names the property is false as written (second Findings row); `Reconcile.IntendedSelectionNeverInstalled` proves it without the condition.
- Reconcile.InitialSelectionIsNewApps: proved only under the same condition on imported names; `Reconcile.IntendedInitialSelectionIsNewApps` proves it without it.
- Reconcile.ConfirmLabelsDecode: proved only under the same condition on imported names.
