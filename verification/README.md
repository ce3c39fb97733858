# A Dafny model of gnome-shell's session logic

This project models the sequential logic inside several gnome-shell components and proves properties about it. The toolkit, the session bus, GSettings and the X keyboard database are reduced to plain values or function-typed parameters. The components are:

- **The input-source manager** of the keyboard status area (`js/ui/status/keyboard.js`). The model covers:
  - parsing the greeter's layout and variant strings;
  - building the numbered source table, falling back to the default layout when no configured source is known;
  - subscripting short names that collide;
  - the most-recently-used (MRU) list, with move-to-front on activation and reconciliation after a reload;
  - the modifier-only switch and the switcher popup;
  - per-window sources;
  - the panel indicator's visibility rule;
  - engine short names.

  The modules are `SourceSettings`, `SourceTable`, `Mru` and `SourceManager`.
- **Search** (`js/ui/search.js`):
  - `Search`: query trimming and splitting, the subsearch test, and collecting non-empty provider result sets in provider order.
  - `OpenSearch`: provider filtering, language choice and result URLs.
- **The shell's bus services** (`js/ui/shellDBus.js`):
  - `Accelerators`: the accelerator-grab ownership map and the watched senders.
  - `ExtensionsService`: extension-info serialization, the overview-visibility cache, the `Eval` gate and the screen saver's active time.
- **`gnome-extensions disable`** (`src/extensions-tool/command-disable.c`), in `DisableCommand`: the list written back to `enabled-extensions` and the exit codes.
- **The MPRIS media indicator** (`js/ui/mpris.js`), in `Mpris`: the registry of players, track defaults, visibility edges, the icon cache, raise and quit decisions, and the panel button.
- **The input method gate** (`js/misc/inputMethod.js`), in `InputMethod`. It follows the manager's current source over any run of events.
- **The date menu** (`js/ui/dateMenu.js`), in `DateMenu`: the today rule, the message indicator's source list and count, and the freezable layout's size cache.

`Common` holds the JavaScript string and sequence semantics the components rely on:

- `String.split` with one separator character;
- trimming and splitting at `\s`, with JavaScript's whitespace set;
- `indexOf`, and `replace` of the first occurrence;
- order-preserving filters and subsequences;
- lists without repeats.

JavaScript specifics are written out:

- `||` treats an empty string as false.
- `splice(indexOf(x), 1)` with `x` absent removes the last element.
- `Math.floor` of a division by a positive constant is Dafny's `/`.
- A source object's identity is its record, which carries its table position.
- A window's "saved table" comparison is a generation counter.

## Model

| member | source | states |
|---|---|---|
| SourceSettings.LeadingSources | js/ui/status/keyboard.js:185-190 | from position `i`, one xkb source per leading non-empty layout field, stopping at the first empty one; the id is `layout+variant` exactly when the variant field at that position is non-empty |
| SourceSettings.SystemInputSources | js/ui/status/keyboard.js:180-192 | the greeter's sources: one xkb source for each leading non-empty comma-separated layout, with `+variant` exactly when that variant is non-empty; the run ends at the first empty layout or the end |
| SourceSettings.SystemKeyboardOptions | js/ui/status/keyboard.js:194-196 | the options split at every comma: at least one part, no part holds a comma, and joining with commas gives the setting back |
| SourceSettings.NoLayoutsNoSources | js/ui/status/keyboard.js:185 | an empty layouts string yields no sources, whatever the variants |
| SourceSettings.AllLayoutsUsed | js/ui/status/keyboard.js:185-190 | when no layout field is empty, every layout field gives a source |
| SourceTable.KnownInfos | js/ui/status/keyboard.js:417-432 | the configured sources the layout database knows, in configured order, each with its looked-up names; every known configured source is kept |
| SourceTable.TableInfos | js/ui/status/keyboard.js:417-439 | at least one row; when no configured source is known, exactly the default layout's row; otherwise exactly the known configured sources in order |
| SourceTable.BuildTable | js/ui/status/keyboard.js:441-463 | the table is non-empty and numbered 0..n-1; a unique short name is kept; a name shared by several rows gets the subscript of the row's rank in its group plus one (U+2080 + rank) |
| SourceTable.Rows | js/ui/status/keyboard.js:442-462 | one row per description, numbered by position, with key and display name copied and the short name as shown |
| SourceTable.RankBelowCount | js/ui/status/keyboard.js:459-461 | a row's rank in its short-name group is below the group's size, so subscripts run from 1 to k |
| SourceTable.RankIncreasing | js/ui/status/keyboard.js:450-461 | within a group, a later row has a larger rank, so subscripts follow table order |
| SourceTable.RanksCoverGroup | js/ui/status/keyboard.js:450-461 | every rank 0..k-1 of a group of k is taken by some row, so the subscripts are exactly 1..k |
| Mru.FirstWithKey | js/ui/status/keyboard.js:400-404 | the first position whose type and id match the key, or none exactly when no entry matches |
| Mru.Reconcile | js/ui/status/keyboard.js:398-407 | the matched sources followed by the rest form a permutation of the table; the rest keep table order; the matched keys follow the previous MRU order |
| Mru.TakeStep | js/ui/status/keyboard.js:400-404 | taking the first match of the next previous key (the `splice(j, 1)`) keeps the permutation, the leftover order and the matched-key order |
| Mru.Seed | js/ui/status/keyboard.js:378-396 | the seeded list holds only table sources, and their keys follow the stored MRU setting's order |
| Mru.UpdateMru | js/ui/status/keyboard.js:370-408 | the new MRU list is a permutation of the table |
| Mru.LeftoverNotPrevious | js/ui/status/keyboard.js:398-407 | with distinct table keys, nothing left over is named by a previous key |
| Mru.LeftoverExactly | js/ui/status/keyboard.js:398-407 | with distinct table keys, a source is left over exactly when no previous key names it |
| Mru.OthersKeepKeys | js/ui/status/keyboard.js:403 | with distinct keys, removing the matched entry removes the only source with its key |
| Mru.DistinctAfterRemove | js/ui/status/keyboard.js:403 | removing one entry keeps the remaining keys distinct |
| Mru.SeedThenReconcile | js/ui/status/keyboard.js:378-407 | reconciling with the seeded list's keys is the same as reconciling with the stored keys directly |
| Mru.UpdateMruFromStored | js/ui/status/keyboard.js:378-407 | with an empty MRU list, the new list is the reconciliation against the stored setting |
| Mru.FirstFrom | js/ui/status/keyboard.js:352-353 | the first position at or after `from` holding the source, or none exactly when there is none |
| Mru.MoveToFront | js/ui/status/keyboard.js:352-357 | a permutation of the list; when the source is at some position i >= 1, its first such occurrence moves to the front and the rest keep order; when it is first or absent, the list is unchanged |
| Mru.MoveToFrontIdempotent | js/ui/status/keyboard.js:352-357 | on a list without repeats, moving the same source to the front twice is the same as once |
| SourceManager.InitialValid | js/ui/status/keyboard.js:410-415 | the state before the first load satisfies the manager's invariant and the indicator rule |
| SourceManager.CurrentWindow | js/ui/status/keyboard.js:502-507 | the overview while it is shown, else the focused window, if any |
| SourceManager.IndicatorChanged | js/ui/status/keyboard.js:653-676 | the old row is unmarked; the indicator is shown exactly when there is a new source and at least two rows, and then the new row is marked |
| SourceManager.ChangePerWindowSource | js/ui/status/keyboard.js:551-561 | only in per-window mode with a window does the window record the current table and source; nothing else changes |
| SourceManager.Activate | js/ui/status/keyboard.js:346-368 | the source becomes current; the MRU list is permuted with the source in front when it was listed; the indicator follows; the window remembers it only in per-window mode |
| SourceManager.ActivateValid | js/ui/status/keyboard.js:346-360 | activating a table row keeps the manager's invariant and makes the indicator show exactly the current row |
| SourceManager.ActivateFirstKeepsOrder | js/ui/status/keyboard.js:352-357 | activating the first entry of an MRU list without repeats leaves the list as it is |
| SourceManager.Reloaded | js/ui/status/keyboard.js:410-467 | before activation: the new table, a new generation, no current source, no marked row, and an MRU list that is a permutation of the table |
| SourceManager.InputSourcesChanged | js/ui/status/keyboard.js:410-471 | the table is rebuilt under a new generation; the MRU list is the reconciled permutation; its first entry becomes current |
| SourceManager.IndexedDistinct | js/ui/status/keyboard.js:443-454 | rows numbered by position are pairwise different |
| SourceManager.InputSourcesChangedValid | js/ui/status/keyboard.js:410-471 | a reload keeps the manager's invariant and the indicator rule |
| SourceManager.NextIndex | js/ui/status/keyboard.js:307-313 | the row after the current one (or after row 0 with no current source) is a table row |
| SourceManager.NextIndexWraps | js/ui/status/keyboard.js:307-316 | that row is (current index + 1) mod n, and 1 mod n with no current source |
| SourceManager.ModifiersSwitcher | js/ui/status/keyboard.js:300-320 | always handled; with an empty table nothing changes; otherwise the next row becomes current |
| SourceManager.ModifiersSwitcherValid | js/ui/status/keyboard.js:300-320 | the modifier switch keeps the manager's invariant |
| SourceManager.RotateIsModulo | js/ui/status/keyboard.js:311-313 | k wrapping steps from row c of n land on (c + k) mod n |
| SourceManager.ModifiersSwitcherCycles | js/ui/status/keyboard.js:300-320 | k presses of the modifier switch from row c land on row (c + k) mod n |
| SourceManager.PressModifiersRotate | js/ui/status/keyboard.js:311-318 | k presses move the current row by k wrapping steps |
| SourceManager.NextIndexStep | js/ui/status/keyboard.js:311-318 | one press moves to the next row, wrapping from the last row to row 0 |
| SourceManager.CurrentIndexInRange | js/ui/status/keyboard.js:311 | in a valid state the current source's index is a table position |
| SourceManager.PressModifiers | js/ui/status/keyboard.js:300-320 | repeated presses never change the table |
| SourceManager.SwitchInputSource | js/ui/status/keyboard.js:322-339 | nothing with fewer than two MRU entries; during a popup grab, the modifier switch; otherwise a popup over the MRU list |
| SourceManager.PopupSecondSwaps | js/ui/status/keyboard.js:322-368 | the quick switch: the shortcut opens the popup over the MRU list, and choosing its second item swaps the first two MRU entries and makes the second one current |
| SourceManager.ActivateMru | js/ui/status/keyboard.js:352-357 | activation reorders the MRU list by moving the source to the front and does nothing else to it |
| Mru.MoveSecondToFront | js/ui/status/keyboard.js:352-357 | moving the second of two different first entries to the front swaps them and keeps the rest in order |
| SourceManager.PopupFinish | js/ui/status/keyboard.js:99-103 | the selected popup item becomes current |
| SourceManager.PopupFinishValid | js/ui/status/keyboard.js:99-103 | finishing a popup over the MRU list keeps the manager's invariant |
| SourceManager.GetNewInputSource | js/ui/status/keyboard.js:485-500 | none for an empty table; else the first row with the same type and id; else row 0 |
| SourceManager.SetPerWindowInputSource | js/ui/status/keyboard.js:509-521 | nothing without a window; a stale or missing record is re-resolved against the current table; the window's source, if any, becomes current |
| SourceManager.SetPerWindowInputSourceValid | js/ui/status/keyboard.js:509-521 | restoring a window's source keeps the manager's invariant |
| SourceManager.SourcesPerWindowChanged | js/ui/status/keyboard.js:523-549 | the mode and tracking follow the setting; turning tracking off forgets every window record; nothing else changes |
| SourceManager.SourcesPerWindowChangedValid | js/ui/status/keyboard.js:523-549 | a mode change keeps the manager's invariant |
| SourceManager.NoRecordsWithoutPerWindow | js/ui/status/keyboard.js:551-553 | outside per-window mode, activations never create window records |
| SourceManager.PopupKeyPress | js/ui/status/keyboard.js:84-97 | the forward binding or Right selects the next item, the backward binding or Left the previous one, and anything else propagates; bindings take precedence |
| SourceManager.PopupKeysAgree | js/ui/status/keyboard.js:84-97 | the forward binding acts as Right and the backward binding as Left, whatever key carries the binding |
| SourceManager.MakeEngineShortName | js/ui/status/keyboard.js:473-483 | the symbol if non-empty; else the language code before `_`, lower-cased, when it has 2 or 3 characters; else U+2328 |
| SourceManager.EngineShortNameFromLanguage | js/ui/status/keyboard.js:478-480 | a language tag `code_region` with a 2- or 3-character code gives that code lower-cased |
| Search.Reset | js/ui/search.js:350-353 | forgets the previous terms and results and keeps the providers |
| Search.RegisterProvider | js/ui/search.js:338-340 | appends the provider and changes nothing else |
| Search.SearchTerms | js/ui/search.js:356-360 | none exactly for a blank query; otherwise non-empty, whitespace-free terms that, joined by single spaces, give the trimmed query with each whitespace run collapsed to one space, so they are cut exactly at the whitespace runs |
| Search.SearchTermsOfJoin | js/ui/search.js:356-360 | splitting terms joined by single spaces gives the terms back |
| Search.SubsearchIsPrefix | js/ui/search.js:361-369 | a subsearch has as many terms as before, each starting with the previous term at its position |
| Search.SubsearchReflexive | js/ui/search.js:361-369 | a query is a subsearch of itself |
| Search.Collect | js/ui/search.js:371-394 | exactly the non-empty returned result sets are kept, in call order; failed calls are skipped |
| Search.GatherKeeps | js/ui/search.js:371-394 | the kept sets are exactly the non-empty returned ones, with their providers in call order |
| Search.CollectAppend | js/ui/search.js:371-394 | collecting two runs of calls one after the other gives the first run's sets followed by the second's |
| Search.InitialCalls | js/ui/search.js:384-393 | every registered provider is asked once, in order |
| Search.SubsearchCalls | js/ui/search.js:372-382 | each previous result's provider is asked once, in order, with its own previous results |
| Search.UpdateSearch | js/ui/search.js:355-400 | none for a blank query, with the state untouched; otherwise non-empty result sets whose providers keep the order of those asked; the terms and results are remembered |
| Search.InitialSearchResults | js/ui/search.js:383-394 | outside a subsearch, a provider's set is kept exactly when it is registered and returned a non-empty list |
| Search.SubsearchResults | js/ui/search.js:372-382 | in a subsearch, a set is kept exactly when its provider had previous results and refining them returned a non-empty list |
| Search.FirstSearchAfterReset | js/ui/search.js:350-394 | the first search after `reset` is never a subsearch, so every provider is asked |
| Search.RepeatedSearchIsSubsearch | js/ui/search.js:361-369 | repeating a query makes a subsearch of the previous one |
| Search.RegisteredProviderComesLast | js/ui/search.js:338-340 | a provider registered after the others is asked last by a fresh search: the results are those without it followed by its own non-empty set |
| OpenSearch.Candidates | js/ui/search.js:253-255 | the system's language names followed by "en" |
| OpenSearch.FirstListed | js/ui/search.js:256-264 | the first candidate the provider lists, or none exactly when it lists none |
| OpenSearch.ChooseLanguage | js/ui/search.js:256-264 | the choice: none exactly when no candidate is listed; otherwise the first listed non-empty candidate, the empty name only when no non-empty candidate is listed (an empty name is false in JavaScript); the first listed one when no candidate is empty |
| OpenSearch.ChoiceUnique | js/ui/search.js:256-264 | the language loop's choice is determined: two answers that both meet it are equal |
| OpenSearch.NonEmptyChoiceFixes | js/ui/search.js:256-264 | a non-empty name that meets the choice rule is the only answer that does |
| OpenSearch.FirstListedIs | js/ui/search.js:256-264 | a listed candidate with no listed one before it is the first listed |
| OpenSearch.CheckSupportedLanguage | js/ui/search.js:249-267 | a URL without `{language}` is supported with no language; otherwise the recorded language is the loop's choice among the system languages and "en" (the first listed one when none is empty), and the provider is supported exactly when there is one |
| OpenSearch.LoadedSpecs | js/ui/search.js:309-322 | exactly the descriptions of files not disabled, readable and supported are loaded |
| OpenSearch.Refresh | js/ui/search.js:288-324 | the providers are the loaded descriptions in order, numbered by position, each with the language the loop chose for it when its URL needs one and none otherwise |
| OpenSearch.GetProviders | js/ui/search.js:237-243 | each provider's name with its position as id; every listed id is accepted by `activateResult` and selects the provider of that name, and no two entries share an id |
| OpenSearch.ActivateResult | js/ui/search.js:269-275 | an id past the end opens nothing; otherwise the provider's URL filled with the terms and its chosen language |
| OpenSearch.ResultUrlFillsTemplate | js/ui/search.js:269-275 | the first terms placeholder gets the encoded space-joined terms and the language placeholder gets the chosen language |
| OpenSearch.ResultUrlWithoutLanguage | js/ui/search.js:270-274 | without a language placeholder, only the terms are filled in |
| Accelerators.Grab | js/ui/shellDBus.js:165-182 | NONE changes nothing; a granted action is recorded for the sender, replacing any owner; a new sender is watched once |
| Accelerators.GrabValid | js/ui/shellDBus.js:173-179 | a grab keeps every owner watched and the watch list free of repeats |
| Accelerators.GrabAll | js/ui/shellDBus.js:117-126 | each granted action is owned by the sender; other actions keep their owners; exactly the granted actions other than NONE are added |
| Accelerators.GrabsWatchOnce | js/ui/shellDBus.js:117-126 | a bulk grab keeps the invariant and leaves the sender watched exactly once when something was granted |
| Accelerators.GrabAllKeepsWatched | js/ui/shellDBus.js:175-179 | a bulk grab never stops watching a sender |
| Accelerators.Ungrab | js/ui/shellDBus.js:184-190 | the entry is removed only when the display reports success, which is the result |
| Accelerators.UngrabForSender | js/ui/shellDBus.js:192-198 | a sender that does not own the action gets false and nothing changes; the owner's ungrab is the plain ungrab |
| Accelerators.UngrabForSenderValid | js/ui/shellDBus.js:192-198 | an ungrab keeps the invariant |
| Accelerators.GrabThenUngrab | js/ui/shellDBus.js:165-198 | a sender can release what it has just grabbed |
| Accelerators.OthersCannotUngrab | js/ui/shellDBus.js:192-195 | another sender cannot release a grab |
| Accelerators.ReleasedBy | js/ui/shellDBus.js:139-142 | the actions a bulk ungrab releases: listed, owned by the sender, and released by the display |
| Accelerators.UngrabMany | js/ui/shellDBus.js:136-145 | every action is tried; exactly the released ones are removed; the answer is true exactly when all were released |
| Accelerators.UngrabStep | js/ui/shellDBus.js:141-142 | one more ungrab extends the released set and the conjunction by that action |
| Accelerators.ReleasedBySnoc | js/ui/shellDBus.js:141-142 | the released set of a longer list adds the last action exactly when it is owned and released |
| Accelerators.AllReleasedSnoc | js/ui/shellDBus.js:141-142 | the conjunction over a longer list holds exactly when it held before, the last action is owned and released, and it was not listed before (a repeat fails, its grab being gone) |
| Accelerators.Vanish | js/ui/shellDBus.js:200-208 | every action of the vanished name the display releases is removed; the name is no longer watched; nothing else changes |
| Accelerators.VanishValid | js/ui/shellDBus.js:200-208 | when the display releases all of its actions, the invariant holds afterwards |
| Accelerators.SubsequenceDistinct | js/ui/shellDBus.js:207 | dropping watched names keeps the watch list free of repeats |
| Accelerators.Route | js/ui/shellDBus.js:147-150 | an activation goes to the recorded owner and is dropped for an unowned action |
| Accelerators.GrabThenRoute | js/ui/shellDBus.js:147-182 | after a grab, the action's activations go to the grabber |
| Accelerators.VanishStopsRouting | js/ui/shellDBus.js:147-150 | once its actions are released, a vanished name receives no activations |
| ExtensionsService.TypeCode | js/ui/shellDBus.js:286-298 | strings, numbers and booleans get `s`, `d` and `b`; anything else has no code |
| ExtensionsService.Properties | js/ui/shellDBus.js:272-280 | the metadata, with the five served properties taken from the extension itself |
| ExtensionsService.GetExtensionInfo | js/ui/shellDBus.js:267-303 | empty for an unknown extension; otherwise exactly the properties with a type code, each with its value and code |
| ExtensionsService.ServedPropertiesOverrideMetadata | js/ui/shellDBus.js:276-280 | a served property comes from the extension, never from metadata of the same name |
| ExtensionsService.ListExtensions | js/ui/shellDBus.js:258-265 | every known extension with its description |
| ExtensionsService.GetExtensionErrors | js/ui/shellDBus.js:305-314 | empty when the extension or its error list is missing; otherwise its errors |
| ExtensionsService.UnknownExtensionIsEmpty | js/ui/shellDBus.js:258-314 | an extension is listed exactly when it is known; an unknown one has no info and no errors, so reported errors belong to a listed extension |
| ExtensionsService.CheckOverviewVisibleChanged | js/ui/shellDBus.js:221-226 | the cache takes the visibility; the change is announced, with the new value, exactly when it differs from the cached one |
| ExtensionsService.OverviewCheckIdempotent | js/ui/shellDBus.js:221-226 | checking again without a change announces nothing |
| ExtensionsService.Announcements | js/ui/shellDBus.js:221-226 | a run of checks makes at most one announcement per check |
| ExtensionsService.AnnouncementsAlternate | js/ui/shellDBus.js:221-226 | consecutive announcements alternate, and the first differs from the cached value |
| ExtensionsService.Eval | js/ui/shellDBus.js:55-72 | success exactly when the development tools are on and evaluation does not throw; off gives `[false, '']`; a throw gives its message; a value gives its JSON text, or `''` for undefined |
| ExtensionsService.EvalOffIgnoresCode | js/ui/shellDBus.js:56-57 | with the tools off, the answer depends neither on the code nor on what evaluating it would do |
| ExtensionsService.GetActiveTime | js/ui/shellDBus.js:392-398 | 0 when the shield was never activated; otherwise the whole seconds elapsed, rounded down |
| DisableCommand.FirstIndex | src/extensions-tool/command-disable.c:46 | the position of the first occurrence of the UUID |
| DisableCommand.Slots | src/extensions-tool/command-disable.c:49-53 | the zero-filled array: each other entry in its own slot, and the UUID's slots left NULL |
| DisableCommand.Strv | src/extensions-tool/command-disable.c:55 | a NULL-terminated vector holds exactly the strings before its first NULL slot |
| DisableCommand.WrittenAsIs | src/extensions-tool/command-disable.c:49-55 | the list written as the code stands is the prefix before the UUID's first occurrence |
| DisableCommand.StrvStopsAtNull | src/extensions-tool/command-disable.c:50-55 | a vector whose first NULL slot is at k holds k strings |
| DisableCommand.WrittenIntended | src/extensions-tool/command-disable.c:49-55 | the intended list: a subsequence of the enabled list without the UUID, holding every other entry exactly as often as it was enabled |
| DisableCommand.FilterOthersCounts | src/extensions-tool/command-disable.c:49-53 | taking the UUID out removes all its copies and keeps every other entry's count |
| DisableCommand.WrittenAsIsLosesLaterEntries | src/extensions-tool/command-disable.c:50-55 | disabling `x` in `[a, x, b]` writes `[a]` as the code stands, while `[a, b]` is intended |
| DisableCommand.WrittenAsIsAgrees | src/extensions-tool/command-disable.c:50-55 | the two lists agree exactly when only copies of the UUID follow its first occurrence |
| DisableCommand.PrefixIsFiltered | src/extensions-tool/command-disable.c:50-55 | the prefix equals the filtered list exactly when only copies of the UUID follow |
| DisableCommand.WrittenIntendedAround | src/extensions-tool/command-disable.c:49-53 | the intended list is the prefix followed by the filtered rest |
| DisableCommand.DisableWith | src/extensions-tool/command-disable.c:28-59 | no settings or a read-only key fail without writing; a UUID that is not enabled succeeds without writing; otherwise a list without the UUID is written and the call succeeds |
| DisableCommand.DisableAsIs | src/extensions-tool/command-disable.c:28-59 | as the code stands, the prefix before the UUID is written |
| DisableCommand.Disable | src/extensions-tool/command-disable.c:28-59 | as intended, every other enabled extension stays enabled |
| DisableCommand.DisableResultAgrees | src/extensions-tool/command-disable.c:28-59 | success and whether something is written do not depend on which list is written |
| DisableCommand.HandleDisableWith | src/extensions-tool/command-disable.c:61-105 | help exits 0; a parse error or a UUID count other than one exits 1; otherwise the list disabling writes, and 0 on success and 2 on failure |
| DisableCommand.HandleDisable | src/extensions-tool/command-disable.c:61-105 | as the code stands: disabling an enabled UUID with writable settings exits 0 and writes the prefix before its first occurrence |
| DisableCommand.HandleDisableIntended | src/extensions-tool/command-disable.c:61-105 | as intended: disabling an enabled UUID with writable settings exits 0 and writes every other enabled extension |
| DisableCommand.HandleDisableAgrees | src/extensions-tool/command-disable.c:61-105 | the command as it stands and as intended exit with the same code |
| DisableCommand.ExitTwoMeansNotWritable | src/extensions-tool/command-disable.c:93-104 | exit code 2 means exactly one UUID was given and there are no writable settings |
| Mpris.NewEntry | js/ui/mpris.js:27-58 | a new button is shown, not closed, and connected; its player is fresh except for the icon the getter found through the desktop entry, which is remembered and shown as `<icon>-symbolic` |
| Mpris.AddPlayer | js/ui/mpris.js:340-358 | a registered name keeps its entry; a new one gets a new entry, shown, built from the desktop entry the bus reports; nothing else changes |
| Mpris.AddPlayerIdempotent | js/ui/mpris.js:340-342 | adding the same name twice is the same as once, whatever the bus reports the second time |
| Mpris.AddListed | js/ui/mpris.js:360-368 | the initial listing adds exactly the names with the MPRIS prefix, each with a new entry; present entries stay |
| Mpris.NameOwnerChanged | js/ui/mpris.js:373-379 | a player is added only for a prefixed name that gains an owner after having none |
| Mpris.OwnerChangeKeepsRegistry | js/ui/mpris.js:377 | a name that had an owner adds nothing |
| Mpris.Closed | js/ui/mpris.js:345-356 | a closed player's entry is removed and the others stay |
| Mpris.AddThenClose | js/ui/mpris.js:340-358 | adding a new player and closing it restores the registry |
| Mpris.DestroyAll | js/ui/mpris.js:381-389 | `destroy` empties the registry |
| Mpris.DestroyThenAdd | js/ui/mpris.js:340-389 | after `destroy`, a player that appears again gets a new entry and nothing of its old one |
| Mpris.UpdateState | js/ui/mpris.js:307-326 | artists, title and cover default to ["Unknown artist"], "Unknown title" and ""; `changed` always; `show` on a false-to-true edge, close on a true-to-false edge, nothing more otherwise |
| Mpris.UpdateStateEdgesOnce | js/ui/mpris.js:317-325 | a second update with the same playability announces only `changed` |
| Mpris.PlayerUpdated | js/ui/mpris.js:307-326 | a player that stops being playable is removed; otherwise its state is updated, the button's `_update` reads the icon getter, whose answer the player remembers, and the other entries stay |
| Mpris.PlayerUpdatedKeepsIcon | js/ui/mpris.js:185-187 | once a player has found its icon, every later update shows that icon, whatever the desktop entry or application lookup now give |
| Mpris.Icon | js/ui/mpris.js:185-205 | a remembered non-empty icon is returned at once; else the desktop entry's icon, if found, is remembered and returned |
| Mpris.IconCached | js/ui/mpris.js:185-205 | once found, the icon is returned whatever later lookups give |
| Mpris.ToggleWin | js/ui/mpris.js:239-261 | an app not running or without windows is activated; otherwise its first window is closed when showing and activated when not |
| Mpris.Raise | js/ui/mpris.js:263-276 | an app found through the desktop entry is toggled; only without one does the remote Raise run, and only when allowed |
| Mpris.ToggleWinAlternates | js/ui/mpris.js:257-260 | flipping the first window's showing state flips the decision |
| Mpris.Quit | js/ui/mpris.js:278-281 | Quit is called exactly when the player can quit |
| Mpris.MenuActivate | js/ui/mpris.js:45-51 | each menu item calls its own remote method; Quit calls nothing when the player cannot quit |
| Mpris.PressRemote | js/ui/mpris.js:109-130 | a press calls a remote method exactly for play-pause, previous and next |
| Mpris.ButtonsAgreeWithMenu | js/ui/mpris.js:45-130 | mouse buttons 8 and 9 do what the menu's Previous and Next do; no press quits or stops the player; a press calls a remote method exactly for a ready button 2, 8 or 9 |
| Mpris.OnEvent | js/ui/mpris.js:98-131 | only a button press on a ready button is dispatched |
| Mpris.ButtonMap | js/ui/mpris.js:109-130 | primary raises, middle plays or pauses, secondary toggles the menu, 8 goes back, 9 goes forward, and other buttons do nothing |
| Mpris.Update | js/ui/mpris.js:84-96 | with `_state` unset, the button shows and takes the player's icon when it has one |
| Mpris.CloseButton | js/ui/mpris.js:133-139 | the button hides only when `_state` is set |
| Mpris.DestroyButton | js/ui/mpris.js:141-150 | the `changed` handler is disconnected and nothing else changes |
| Mpris.RunButton | js/ui/mpris.js:52-58 | no button operation sets `_state` |
| Mpris.ButtonNeverHides | js/ui/mpris.js:54 | since `_state` is never set, a shown button stays shown whatever follows |
| Mpris.NewEntryStaysShown | js/ui/mpris.js:52-58 | a new player's button is shown and stays shown |
| InputMethod.Init | js/misc/inputMethod.js:11-20 | enabled, nothing focused, and the manager's current source |
| InputMethod.OnSourceChanged | js/misc/inputMethod.js:26-28 | takes the manager's current source and changes nothing else |
| InputMethod.Clear | js/misc/inputMethod.js:33-35 | disabled, and nothing else changes |
| InputMethod.FocusIn | js/misc/inputMethod.js:45-47 | the client is focused and nothing else changes |
| InputMethod.FocusOut | js/misc/inputMethod.js:49-54 | no client is focused and nothing else changes |
| InputMethod.FilterKeyEvent | js/misc/inputMethod.js:61-68 | a key event goes to the engine exactly when the method is enabled and has a current source |
| InputMethod.FocusInThenOut | js/misc/inputMethod.js:45-54 | focus in then out leaves no focus and the same filter decision |
| InputMethod.Start | js/misc/inputMethod.js:11-20 | the session starts mirroring the manager's current source, enabled |
| InputMethod.ManagerStep | js/ui/status/keyboard.js:523-549 | a window focus reaches the manager only while it tracks focus; a change of the per-window setting starts or stops tracking and announces nothing; an event that announces nothing leaves the current source as it was |
| InputMethod.UntrackedFocusIgnored | js/ui/status/keyboard.js:526-539 | while focus is not tracked, a focus change leaves the whole session as it was |
| InputMethod.Step | js/misc/inputMethod.js:11-68 | only `_clear` disables; only focus events change the focus |
| InputMethod.StepMirrors | js/misc/inputMethod.js:26-28 | each event keeps the input method's source equal to the manager's |
| InputMethod.RunMirrors | js/misc/inputMethod.js:19-28 | over any run of events, the source mirrors the manager's |
| InputMethod.RunEnabled | js/misc/inputMethod.js:13-35 | the method is enabled exactly when it started enabled and no event cleared it |
| InputMethod.FilterAfterRun | js/misc/inputMethod.js:61-68 | from the start, key events go to the engine exactly when nothing cleared the method and the manager has a current source |
| DateMenu.SetFrozen | js/ui/dateMenu.js:143-150 | the flag takes the value and the saved sizes are kept; a relayout is asked for exactly on unfreezing |
| DateMenu.SetFrozenIdempotent | js/ui/dateMenu.js:144-145 | setting the present value again does nothing |
| DateMenu.Preferred | js/ui/dateMenu.js:152-162 | the saved size while frozen with one saved; else the computed size |
| DateMenu.PreferredWidth | js/ui/dateMenu.js:152-156 | the width follows the rule for preferred sizes |
| DateMenu.PreferredHeight | js/ui/dateMenu.js:158-162 | the height follows the rule for preferred sizes |
| DateMenu.Allocate | js/ui/dateMenu.js:164-170 | each allocation saves (width, width) and (height, height) |
| DateMenu.NewLayoutComputes | js/ui/dateMenu.js:135-141 | a new layout reports the computed sizes, frozen or not |
| DateMenu.FrozenKeepsAllocation | js/ui/dateMenu.js:143-170 | frozen after an allocation, the layout reports the allocated size; thawed, the computed one |
| DateMenu.SelectDate | js/ui/dateMenu.js:220-224 | the today button reacts, and the layout is frozen, exactly when the selected date is not today |
| DateMenu.OpenMenu | js/ui/dateMenu.js:226-233 | opening the menu selects today: the button stops reacting and the layout thaws, and a relayout is asked for exactly when it was frozen |
| DateMenu.SameDaySameMenu | js/ui/dateMenu.js:13-18 | only the day of a selection matters: two moments of one day leave the menu alike, and any moment of the clock's day (as the today button selects) acts as opening the menu |
| DateMenu.ReactiveIffFrozen | js/ui/dateMenu.js:47-51 | after any run of selections, the button reacts exactly when the layout is frozen, both following the last date |
| DateMenu.IndexOf | js/ui/dateMenu.js:98 | the first position of the source, or -1 exactly when it is absent |
| DateMenu.SpliceOne | js/ui/dateMenu.js:98 | `splice(start, 1)`: a negative start counts from the end; one element is removed, none past the end |
| DateMenu.OnSourceAdded | js/ui/dateMenu.js:91-95 | the source is appended |
| DateMenu.OnSourceRemoved | js/ui/dateMenu.js:97-100 | a non-empty list loses one element |
| DateMenu.RemovePresent | js/ui/dateMenu.js:97-100 | a listed source loses its first occurrence, the rest keep their order |
| DateMenu.RemoveAbsent | js/ui/dateMenu.js:97-100 | removing an unlisted source drops the last source instead |
| DateMenu.AddThenRemove | js/ui/dateMenu.js:91-100 | adding a new source and removing it restores the list |
| DateMenu.UnseenAppend | js/ui/dateMenu.js:103-104 | the unseen total of two lists is the sum of their totals |
| DateMenu.UpdateCount | js/ui/dateMenu.js:102-108 | the indicator is visible exactly when the unseen total exceeds the queue count |
| DateMenu.CountAfterAdd | js/ui/dateMenu.js:91-95 | adding a source adds its unseen count |
| DateMenu.CountAfterRemove | js/ui/dateMenu.js:97-100 | removing a listed source takes its unseen count away |
| DateMenu.UnseenWithout | js/ui/dateMenu.js:103-104 | a source contributes exactly its own count to the total |
| DateMenu.AddAll | js/ui/dateMenu.js:87-88 | the constructor adds the tray's sources in order |
| Common.Split | js/ui/status/keyboard.js:182-183 | `split` at one character: at least one part, none holding the separator, joining back to the input |
| Common.SplitJoin | js/ui/status/keyboard.js:194-196 | splitting joined separator-free parts gives the parts back |
| Common.Trim | js/ui/search.js:356 | no leading or trailing whitespace, and empty exactly when the input is all whitespace |
| Common.TrimKeepsText | js/ui/search.js:356 | trimming keeps every non-whitespace character in order |
| Common.SplitWhitespaceWords | js/ui/search.js:360 | splitting a trimmed non-empty string at `\s+` gives non-empty whitespace-free terms that hold all its text and, joined by single spaces, give it with each whitespace run collapsed |
| Common.SplitWhitespaceCollapse | js/ui/search.js:360 | the parts of a split at `\s+`, joined by single spaces, are the string with each whitespace run collapsed to one space |
| Common.SplitWhitespaceNonEmpty | js/ui/search.js:360 | a trimmed non-empty string splits into non-empty parts without whitespace |
| Common.WordsJoinInjective | js/ui/search.js:360 | terms are determined by their space-joined form |
| Common.SplitWhitespaceJoin | js/ui/search.js:360 | splitting words joined by spaces gives the words back |
| Common.FindZeroIsPrefix | js/ui/search.js:364 | `indexOf` is 0 exactly when the string starts with the pattern |
| Common.ReplaceFirstAfterPrefix | js/ui/search.js:272 | `replace` changes the first occurrence of the pattern only |
| Common.BeforeFirst | js/ui/status/keyboard.js:478 | `split(sep, 1)[0]`: the prefix before the first separator, or the whole string |

## Left out

- Toolkit widgets, styles, menus, labels and the indicator's size and allocation callbacks (js/ui/status/keyboard.js:699-741), `IndicatorPad`, `CalendarColumnLayout` and the right-to-left alignment. They are drawing, not logic.
- D-Bus export, marshalling and signal emission, and GSettings reads and writes. Their values are inputs and outputs of the model.
- The `Eval` evaluator itself and its JSON serialization. It runs arbitrary JavaScript, so it is a parameter that gives either a JSON text or the message of the exception thrown.
- Foreign calls are parameters:
  - the X keyboard database lookup;
  - `GLib.get_language_names`;
  - `encodeURIComponent`;
  - the display's grab and ungrab answers;
  - provider result sets;
  - the application and desktop-entry lookups;
  - the clock.

  `KeyboardManager`'s apply, hold and release and `setUserLayouts` only act on the X server, so they are left out. `KeyboardManager.DEFAULT_LAYOUT` is a parameter, since misc/keyboardManager.js is not part of this model.
- `SwitcherPopup`'s `_next` and `_previous` and the popup's display. `PopupKeyPress` says which one is chosen; it does not say which item is selected.
- Asynchronous provider loading and `parse_search_provider`. `Refresh` takes the loads to complete in directory order, and parsing is a parameter.
- `$` patterns in `String.replace` replacements. The encoded terms and language names are taken as literal text.
- GLib option parsing. Its outcome is an input: help, a parse error, or the remaining arguments.
- Signal connection ids, bus-name watch ids, and the disconnect calls. Only the resulting state is modelled: whether window focus is tracked, and whether a sender is watched.
- The InputSource `changed` signal and the label texts it updates. Properties of input-source engines (IBus) other than the short name are also left out.
- The input method's preedit text, `vfunc_reset`, commit and delete-surrounding. Only the enabled, focus and current-source state is modelled.
- js/ui/calendar.js is not part of this model. The calendar's date selection is an input to `SelectDate`, and the message list's `setDate` is left out.
- Process launching, the screen shield's lock flow, and time zones.
- SourceTable.Subscript: a group of more than 46,975 rows sharing a short name would make `String.fromCharCode` give a lone surrogate. The model gives U+FFFD there instead.
- SourceManager.ModifiersSwitcherValid: only one press is shown to keep the invariant. Validity after k presses follows by repeating it and is not stated as its own lemma.
- SourceManager.MakeEngineShortName: lower-cases ASCII letters only, where JavaScript's `toLowerCase` maps all of Unicode; and it counts the code's length in code points, where JavaScript counts UTF-16 units, so a code outside the Basic Multilingual Plane can be judged differently.
- The desktop entry the bus reports for a player, and the application system's lookup, are parameters of `AddPlayer` and `PlayerUpdated`.
- Accelerators.UngrabMany: the display's answer for each action is a fixed function of the action within one call.

## Findings

| source | as written | input that shows it | evidently intended | confidence | as-written member | corrected member |
|---|---|---|---|---|---|---|
| src/extensions-tool/command-disable.c:49-55 | `new_value` comes from `g_new0`, and the slot of the removed UUID is left NULL. The NULL ends the string vector, so every entry after the first occurrence is lost. | enabled `["a", "x", "b"]`, disabling `"x"` writes `["a"]` | `["a", "b"]`: every other enabled extension stays enabled | not executed | DisableCommand.WrittenAsIs, through DisableCommand.HandleDisable (shown by DisableCommand.WrittenAsIsLosesLaterEntries) | DisableCommand.WrittenIntended, used by DisableCommand.Disable and DisableCommand.HandleDisableIntended |
