# Resizer, modelled in Dafny

Resizer is a Windows desktop tool that saves the position, size, title bar
and always-on-top flag of a set of windows in an INI file per layout, and
puts windows back into such a layout later. This project models its core
as Dafny definitions and proves properties of them:

- **Title cleaning** (`TitleCleaner`, titles.dfy): `clean_window_title` of
  utils.py. Window titles, section names and configuration names are
  matched after this normalisation. Each of its five regular expressions is
  written out as a function on strings.
- **Configuration store** (`Ini`, `ConfigRepair`, `ConfigFiles`,
  `ConfigStore`, `LegacyConfigStore`, `LayoutPresets`, `AppSettings`): the
  two `ConfigManager` classes. `Ini` models Python's `ConfigParser` as an
  ordered list of sections plus the DEFAULT section. The configuration
  directory is a list of named files. The later manager repairs every
  configuration it saves; the earlier one writes the sections as assembled.
- **Window manager** (`Win32`, `WindowRules`, `WindowQueries`,
  `WindowApply`, `WindowManagers`): both `WindowManager` classes. The
  desktop is a `Desktop` object holding a table of windows and their
  enumeration order. `WindowManager` is a class with the fields
  `managed_windows`, `topmost_windows` and `_window_states`. Its methods
  are proved to change them as the functions of `WindowRules` and
  `WindowApply` say, and those functions are proved to keep the manager's
  invariant and to reset, toggle and apply as the source intends. The flag
  `legacy` selects the behaviour of window_manager.py; without it the
  behaviour is that of lib/window_manager.py.
- **Layout window** (`Layout`, `LegacyLayout`): the selection check, the
  integer-pair reader, the ordering of the selection, the data handed to
  the save callback and the bounding box of the preview in lib/layout.py
  and layout.py. `ScreenLayoutFrame` is a class whose bound fields are set
  by a loop.
- **Dropdown** (`Widgets`): the state of `CustomDropdown` in
  lib/custom_widgets.py, a class whose mouse-wheel handler steps through
  the values with wrap-around.
- **Controller** (`AppRules`, `App`): `ApplicationState` of main.py, a
  class over a window manager, a dropdown and a configuration directory.
  main.py imports the older managers, so the window manager runs with
  `legacy` set.

`Common`, `Text` and `Sorting` hold the Python building blocks the model
needs: `Option` and `Result` carrying Python exception kinds, string
stripping and splitting, `int()` on ASCII digits, and stable sorting.

## Model

| member | source | states |
|---|---|---|
| TitleCleaner.KeepPrintable | utils.py:8 | the result holds only printable ASCII, is no longer than the input, and a printable input is kept as it is |
| TitleCleaner.CollapseWhitespace | utils.py:9 | the result is single-spaced, empty exactly when the input is, starts with a blank exactly when the input does and stays printable |
| TitleCleaner.CollapseFixed | utils.py:9 | collapsing whitespace leaves an already single-spaced text unchanged |
| TitleCleaner.LowerKeepsShape | utils.py:10 | lower-casing a trimmed, single-spaced printable text keeps it so and leaves no upper-case letter |
| TitleCleaner.StripKeepsShape | utils.py:10 | stripping keeps a text printable and single-spaced |
| TitleCleaner.Basic | utils.py:8-10 | the basic cleaning yields printable, lower-case, single-spaced text with no blank at either end |
| TitleCleaner.SplitTail | utils.py:14-15 | the split finds a later segment exactly when the separator occurs; that segment is a suffix preceded by the separator and holds none |
| TitleCleaner.LastSegment | utils.py:14-15 | the last part of the split is a suffix without the separator, and it is either the whole text or preceded by a separator |
| TitleCleaner.StripParenGroup | utils.py:16 | removing the parenthesised tail leaves a prefix that ends in no blank unless it is the whole text or empty |
| TitleCleaner.ParenGroupRemoved | utils.py:16 | exactly the leftmost match of the parenthesised-tail pattern is removed, and none starts earlier |
| TitleCleaner.ParenGroupLeftmost | utils.py:16 | the match starts at the blanks before the first opening parenthesis when the text ends in a closing one |
| TitleCleaner.NoParenTail | utils.py:16 | a text not ending in a closing parenthesis after an opening one has no parenthesised tail |
| TitleCleaner.StripPercent | utils.py:17 | removing the percentage tail leaves a prefix that ends in no blank unless it is the whole text or empty |
| TitleCleaner.PercentRemoved | utils.py:17 | exactly the leftmost match of the blanks-digits-percent pattern is removed, and none starts earlier |
| TitleCleaner.PercentTailOnlyAt | utils.py:17 | a percentage tail consists of blanks up to the final digit run and a final percent sign |
| TitleCleaner.PercentTailFrom | utils.py:17 | conversely, blanks up to the final digit run before a percent sign form a match |
| TitleCleaner.PercentLeftmost | utils.py:17 | the match starts at the first of the blanks before the final digit run |
| TitleCleaner.TailsRemovedIsPrefix | utils.py:16-17 | removing both tails leaves a prefix of the segment |
| TitleCleaner.TailsTrimmed | utils.py:15-17 | removing both tails from a trimmed text leaves a trimmed text |
| TitleCleaner.SanitizeInherits | utils.py:14-17 | the sanitized title is a tidy prefix of the trimmed last segment and holds no separator |
| TitleCleaner.SanitizeNoDash | utils.py:14-17 | a sanitized title never contains " - " |
| TitleCleaner.SanitizeTrimmed | utils.py:14-17 | a sanitized title has no blank at either end |
| TitleCleaner.CleanWindowTitle | utils.py:3-19 | an empty title gives an empty result, and every result is printable ASCII, lower-case and single-spaced |
| TitleCleaner.CleanBasicTrimmed | utils.py:3-10 | without sanitizing the result has no blank at either end |
| TitleCleaner.CleanIdempotent | utils.py:3-10 | without sanitizing, cleaning a cleaned title changes nothing |
| TitleCleaner.OnlyAsciiSeparator | utils.py:8-14 | after the printable filter the separator can only be the ASCII " - " |
| TitleCleaner.NoUnicodeDashes | utils.py:3-19 | no em dash or en dash survives cleaning |
| TitleCleaner.SanitizedSegment | utils.py:3-19 | with sanitizing, the result is a trimmed prefix of the trimmed last segment and contains no " - " |
| ConfigRepair.DefaultsValid | lib/config_manager.py:234-236 | the fallback position "0,0" and size "100,100" pass their own patterns |
| ConfigRepair.RepairOption | lib/config_manager.py:233-242 | a repaired value always passes its key's check, and a value that already passes is kept |
| ConfigRepair.RepairOptionCases | lib/config_manager.py:233-242 | an option is dropped exactly when its key is not one of the four and its value is blank; bad positions and sizes fall back to "0,0" and "100,100", bad flags to "false" and "true" |
| ConfigRepair.RepairItems | lib/config_manager.py:231-242 | the repaired items have distinct keys and every one passes its check |
| ConfigRepair.RepairItemsGet | lib/config_manager.py:231-242 | reading a key from the repaired items gives the repair of what the section held for it |
| ConfigRepair.RepairItemsFixed | lib/config_manager.py:231-242 | items that already pass every check are kept as they are |
| ConfigRepair.RepairItemsKeepsKnownKeys | lib/config_manager.py:231-242 | items holding only the four known keys keep all their keys, in order |
| ConfigRepair.KeptIsOrdinary | lib/config_manager.py:228-229 | a section that survives the skip test is not the DEFAULT section |
| ConfigRepair.RepairSection | lib/config_manager.py:227-247 | a repaired section keeps its name and holds only valid options |
| ConfigRepair.RepairedSections | lib/config_manager.py:227-247 | each section is repaired on its own |
| ConfigRepair.RepairKeepsOrder | lib/config_manager.py:227-247 | the repaired configuration holds the surviving sections, each repaired, in their original order, and every section that survives is there |
| ConfigRepair.RepairValid | lib/config_manager.py:223-249 | repair keeps section names distinct and every section of the result passes the checks |
| ConfigRepair.RepairIdempotent | lib/config_manager.py:223-249 | repairing a repaired configuration changes nothing |
| ConfigRepair.RepairedSectionFixed | lib/config_manager.py:227-247 | a section that already passes the checks is repaired to itself |
| ConfigRepair.RepairConfig | lib/config_manager.py:223-249 | the loop builds exactly the repaired configuration |
| ConfigRepair.RepairItemsLoop | lib/config_manager.py:231-242 | the inner loop builds exactly the repaired items |
| ConfigRepair.AddRepairedSection | lib/config_manager.py:244-247 | adding a section appends it with its items and keeps names distinct |
| ConfigFiles.NameOfFile | lib/config_manager.py:71 | cutting "config_" and ".ini" off a configuration file name gives the name that builds the file name again |
| ConfigFiles.ConfigFileNameRoundTrip | lib/config_manager.py:69-71 | the file built from any name is a configuration file, and its name cuts back to that name |
| ConfigFiles.ConfigFilesIn | lib/config_manager.py:68-69 | the filter keeps exactly the listed files that start with "config_" and end with ".ini" |
| ConfigFiles.ListConfigFiles | lib/config_manager.py:66-72 | the files are sorted and are exactly the listed configuration files, and each name is its file's name cut down |
| ConfigFiles.ListedNames | config_manager.py:22-28 | a name is listed exactly when its file is in the folder |
| ConfigFiles.FileAt | lib/config_manager.py:78-79 | a file is found exactly when it is listed in the folder |
| ConfigFiles.LoadConfig | lib/config_manager.py:74-85 | a configuration is loaded only from a file that exists |
| ConfigFiles.WriteFile | lib/config_manager.py:175-181 | writing adds the file to the folder and leaves every other file as it was |
| ConfigFiles.WriteThenLoad | lib/config_manager.py:175-181 | loading a file just written gives back the written configuration |
| ConfigFiles.RemoveFile | lib/config_manager.py:217 | removing takes exactly that file out of the folder |
| ConfigFiles.DeleteConfigSpec | lib/config_manager.py:213-221 | deletion reports success exactly when the file exists and can be removed; then that name is no longer listed and every other name is listed as before, and on failure nothing changes |
| ConfigFiles.FirstDecisive | lib/config_manager.py:121-129 | the scan stops at the first section that decides, or at the first error, and sees only non-deciding sections before it |
| ConfigFiles.FirstDecisiveAt | lib/config_manager.py:121-129 | when section k is the first to decide, the scan picks k |
| ConfigFiles.SectionVerdicts | lib/config_manager.py:121-128 | each section is judged on its own: an always-on-top section whose cleaned name occurs in a cleaned open title |
| ConfigFiles.ConfigVerdictSpec | lib/config_manager.py:121-129 | a file matches exactly when some section decides and all earlier ones do not |
| ConfigFiles.FileVerdict | lib/config_manager.py:117-119 | a file that does not load is skipped |
| ConfigFiles.DetectDefault | lib/config_manager.py:112-131 | a detected name always belongs to a file in the folder |
| ConfigFiles.DetectDefaultSpec | config_manager.py:67-86 | the first file in sorted order that matches gives the default; when none matches, the first name, or none without files |
| AppSettings.Field | lib/config_manager.py:94-95 | a missing key gives the fallback, and a present key gives the value of its last entry, as a JSON object with a repeated key reads |
| AppSettings.LoadSettings | lib/config_manager.py:87-100 | a missing or unreadable file gives (False, False), each missing key gives False, and each present key gives the value of its last entry |
| AppSettings.LoadCompact | config_manager.py:44-55 | a missing or unreadable file, or a missing key, gives True, and a present key gives the value of its last entry |
| AppSettings.SaveSettings | lib/config_manager.py:102-110 | saving succeeds exactly when the file is writable, then stores an object of two keys, and otherwise leaves the file |
| AppSettings.SaveCompact | config_manager.py:57-65 | saving succeeds exactly when the file is writable, then stores an object of one key, and otherwise leaves the file |
| AppSettings.SettingsRoundTrip | lib/config_manager.py:87-110 | loading what was saved gives back both flags |
| AppSettings.CompactRoundTrip | config_manager.py:44-65 | loading what was saved gives back the compact flag |
| AppSettings.EarlierFileInLater | lib/config_manager.py:94-95 | a settings file written by the earlier version loads in the later one with images off |
| ConfigStore.FlagText | lib/config_manager.py:165-166 | a boolean flag is written as "true" or "false" |
| ConfigStore.PositionXSpec | lib/config_manager.py:151-155 | the sort key is the x of a stored "x,y" position, and 0 when the position is missing or empty |
| ConfigStore.EntryOf | lib/config_manager.py:148-156 | an entry carries the window's own settings |
| ConfigStore.EntryResults | lib/config_manager.py:147-156 | each window is turned into an entry on its own |
| ConfigStore.EntriesFromNonBlankTitles | lib/config_manager.py:146-156 | the entries come from exactly the windows with a non-blank title, in their order |
| ConfigStore.SectionValues | lib/config_manager.py:162-167 | a saved section holds exactly the four options position, size, always_on_top and titlebar, once each |
| ConfigStore.AssignKeepsShape | lib/config_manager.py:161-167 | assigning a section keeps every section of the configuration at the four options |
| ConfigStore.AssignBlankKeepsShape | lib/config_manager.py:161-167 | assigning under an empty name keeps the configuration's shape |
| ConfigStore.AssignSectionKeepsShape | lib/config_manager.py:161-167 | assigning an ordinary section keeps the configuration's shape |
| ConfigStore.Assemble | lib/config_manager.py:160-167 | the assembled configuration has four options in every section |
| ConfigStore.SaveWindowConfig | lib/config_manager.py:133-190 | saving fails on an empty name, on an error while collecting entries, on a missing folder or on a file that cannot be opened for writing, and then leaves the folder; otherwise it writes the repaired, sorted configuration under the cleaned name and nothing else |
| ConfigStore.CollectEntries | lib/config_manager.py:146-156 | the loop collects exactly the entries of the windows |
| ConfigStore.AssignEntries | lib/config_manager.py:160-167 | the loop assembles exactly the configuration of the entries |
| ConfigStore.RepairedFour | lib/config_manager.py:231-247 | repairing a section of the four options keeps the four options |
| ConfigStore.SavedSectionsHaveFourOptions | lib/config_manager.py:158-169 | every section of a saved configuration has the four options, all valid, and names are distinct |
| ConfigStore.AssembleDistinct | lib/config_manager.py:160-167 | with distinct ordinary names each entry becomes its own section, in order |
| ConfigStore.SectionValuesRepaired | lib/config_manager.py:162-169 | the four options survive repair |
| ConfigStore.RepairSectionOfValues | lib/config_manager.py:169 | repair keeps a saved section and repairs its items |
| ConfigStore.RepairDistinct | lib/config_manager.py:160-169 | with distinct names the repaired configuration has one repaired section per entry, in order |
| ConfigStore.SavedLeftToRight | lib/config_manager.py:158-169 | the saved sections follow the windows from left to right by x position, one per window |
| ConfigStore.BareValues | lib/config_manager.py:162-167 | a window without settings is saved as "0,0", "100,100", "false", "true", which repair keeps |
| ConfigStore.BareValuesValid | lib/config_manager.py:162-167 | the default option values pass the checks |
| ConfigStore.SaveSingle | lib/config_manager.py:158-169 | a single entry with a kept name gives a configuration of exactly one section, that entry's repaired values, and no defaults |
| ConfigStore.SaveBareWindow | lib/config_manager.py:146-169 | a single window without settings is saved under its cleaned title with the default options |
| ConfigStore.BareEntry | lib/config_manager.py:148-156 | a window with a non-blank title and no settings gives one entry under its cleaned title |
| ConfigStore.SortSingle | lib/config_manager.py:158 | sorting one entry changes nothing |
| ConfigStore.SavedConfigListed | lib/config_manager.py:175-181 | a saved configuration is then listed under its name and loads back unchanged |
| LegacyConfigStore.GetOr | config_manager.py:99-107 | a missing key gives the default, a present key its stored value |
| LegacyConfigStore.SectionValues | config_manager.py:102-107 | a saved section holds exactly the four options, once each |
| LegacyConfigStore.AssignKey | config_manager.py:102-107 | assigning a section keeps the configuration well formed |
| LegacyConfigStore.Assignments | config_manager.py:98-107 | each window gives its section name and its four options |
| LegacyConfigStore.AssignAll | config_manager.py:98-107 | assigning every window keeps the configuration well formed |
| LegacyConfigStore.Assemble | config_manager.py:96-107 | the assembled configuration is well formed |
| LegacyConfigStore.SaveWindowConfig | config_manager.py:88-127 | saving fails on an empty name, a missing folder or a file that cannot be opened for writing, and leaves the folder; otherwise it writes the assembled configuration, unrepaired and unsorted, under the name as given |
| LegacyConfigStore.AssignAllDistinct | config_manager.py:98-107 | with distinct ordinary names each assignment becomes its own section, in order |
| LegacyConfigStore.SectionPerWindow | config_manager.py:98-107 | with distinct ordinary names there is one section per window, in the windows' order |
| LegacyConfigStore.BlankTitleGoesToDefaults | config_manager.py:99-107 | a window with an empty title and no stored name fills the DEFAULT section and leaves an empty section named "" |
| LegacyConfigStore.AssignTwice | config_manager.py:102-107 | assigning the same name twice keeps only the second set of options |
| LegacyConfigStore.LaterWindowOverwrites | config_manager.py:98-107 | two windows under the same section name give one section holding the later window's options |
| LayoutPresets.Fetch | lib/config_manager.py:45 | a key is found exactly when it is in the dictionary |
| LayoutPresets.Store | lib/config_manager.py:45 | storing an existing key keeps the keys and their order, a new key is appended, and keys stay distinct |
| LayoutPresets.StoreFetch | lib/config_manager.py:45 | after storing, the stored key reads the new value and every other key reads as before |
| LayoutPresets.ProxyGet | lib/config_manager.py:43-45 | reading a key of the section gives its value with the defaults merged in |
| LayoutPresets.ProxyItems | lib/config_manager.py:43 | the section is iterated over its own keys and the defaults' keys, each with the value a lookup gives |
| LayoutPresets.Decode | lib/config_manager.py:43-47 | the decoded table has distinct integer keys |
| LayoutPresets.LatestSpec | lib/config_manager.py:43-47 | a key is decoded exactly when some entry with an integer key and a readable literal names it, and it holds the last such entry's value |
| LayoutPresets.DecodeLatest | lib/config_manager.py:43-47 | looking a key up in the decoded table gives the last readable entry for it |
| LayoutPresets.LayoutsFrom | lib/config_manager.py:40-41 | without the "Layouts" section the default table is returned |
| LayoutPresets.Deserialize | lib/config_manager.py:38-48 | the loop builds exactly the table of the decoded entries, or the defaults without the section |
| LayoutPresets.SerialItems | lib/config_manager.py:33-34 | each layout becomes one option: its key as text and its value's literal |
| LayoutPresets.Serialize | lib/config_manager.py:29-35 | the serialized configuration has exactly the "Layouts" section |
| LayoutPresets.SerialKeysUnique | lib/config_manager.py:33-34 | distinct integer keys give distinct option names |
| LayoutPresets.SerializeShape | lib/config_manager.py:29-35 | the serialized configuration is the one section holding one option per layout, in order |
| LayoutPresets.DecodeSerial | lib/config_manager.py:29-48 | decoding the serialized options gives back the table, prefix by prefix |
| LayoutPresets.SerializeRoundTrip | lib/config_manager.py:29-48 | deserializing a serialized table gives it back when every value's literal reads back as that value |
| Win32.FlipTwice | window_manager.py:385-388 | flipping the topmost bit twice gives the extended style back |
| Win32.BitCleared | window_manager.py:17-20 | after HWND_NOTOPMOST the topmost bit is clear |
| Win32.BitBack | window_manager.py:385-388 | setting the topmost bit again after clearing it restores a topmost style |
| Win32.BitSet | window_manager.py:17-20 | after HWND_TOPMOST the topmost bit is set, and clearing it again gives back a style that lacked it |
| Win32.Positioned | window_manager.py:141-142 | SetWindowPos moves unless NOMOVE, resizes unless NOSIZE, changes the topmost bit only as the z-order asks, shows on SHOWWINDOW and keeps the rest |
| Win32.SetWindowPos | window_manager.py:141-142 | the call succeeds exactly on a live handle and changes only that window |
| Win32.GetWindowLong | window_manager.py:102 | an invalid handle reads as 0 |
| Win32.SetWindowLong | window_manager.py:56-59 | writing a style word changes only that word of that window |
| Win32.GetWindowRect | window_manager.py:137-139 | the rectangle exists exactly for a live handle and spans the window's width and height |
| Win32.ShowRestored | lib/window_manager.py:189 | restoring un-minimizes exactly that window |
| Win32.VisibleOf | window_manager.py:419-427 | enumeration reaches exactly the visible windows, in enumeration order |
| Win32.AllTitles | window_manager.py:310 | the titles are those of the visible windows, in order |
| Win32.FirstWithTitle | window_manager.py:321 | the first visible window whose title contains the text, case-insensitively, or none when no title does |
| Win32.Desktop.constructor | window_manager.py:10-13 | the desktop holds the given windows in the given enumeration order |
| Win32.Desktop.SetPos | window_manager.py:141-142 | the desktop changes as SetWindowPos says, and only on success |
| Win32.Desktop.SetLong | window_manager.py:56-59 | the desktop changes as SetWindowLong says |
| Win32.Desktop.Restore | lib/window_manager.py:189 | the desktop changes as ShowWindow(SW_RESTORE) says |
| WindowRules.WindowMetrics | window_manager.py:179-192 | the snapshot is missing exactly for an invalid handle and otherwise holds its position, size and both style words |
| WindowRules.SetAlwaysOnTop | window_manager.py:15-29 | on a live handle the topmost bit and the topmost set follow the flag and nothing else changes; an invalid handle changes nothing |
| WindowRules.AddManaged | window_manager.py:31-40 | the handle is managed afterwards; only a new handle is appended and snapshotted |
| WindowRules.MoveWindow | window_manager.py:133-147 | moving succeeds exactly on a live handle and changes only its position |
| WindowRules.ResizeWindow | window_manager.py:149-162 | resizing succeeds exactly on a live handle and changes only its size |
| WindowRules.MakeBorderless | window_manager.py:194-208 | on a live handle exactly the caption, border and thick-frame bits are cleared |
| WindowRules.RestoreFrame | window_manager.py:210-224 | on a live handle exactly the frame bits are set and the window is shown |
| WindowRules.RemoveReverts | window_manager.py:42-69 | removing a handle with a snapshot restores its position, size and styles and drops it from the list, the set and the snapshots |
| WindowRules.RemoveWithoutSnapshot | window_manager.py:46-69 | removing a handle whose snapshot failed raises inside the try and changes nothing |
| WindowRules.Stale | window_manager.py:117-118 | the invalid handles are exactly the managed ones no longer on the desktop |
| WindowRules.ResetStepLive | window_manager.py:74-75 | one reset step on a live handle removes it everywhere and resets its window |
| WindowRules.LaterResetStepLive | lib/window_manager.py:74-77 | the later reset step also shows the window again |
| WindowRules.LaterResetWindow | lib/window_manager.py:75-77 | clearing always-on-top and restoring the frame before the snapshot comes back leaves the snapshot and a visible window |
| WindowRules.ResetStepStale | window_manager.py:42-69 | a reset step on a vanished handle without snapshot changes nothing |
| WindowRules.ResetDoneStep | window_manager.py:73-75 | the reset loop keeps its invariant through one more handle |
| WindowRules.ResetDoneLive | window_manager.py:73-75 | the invariant survives a step on a live handle |
| WindowRules.ResetDoneStale | window_manager.py:73-75 | the invariant survives a step on a vanished handle |
| WindowRules.RevertedDone | window_manager.py:73-75 | a step that removes and resets the handle keeps the invariant |
| WindowRules.BookkeepingLive | window_manager.py:61-65 | dropping a live handle from the set and the snapshots keeps the bookkeeping invariant |
| WindowRules.WindowsLive | window_manager.py:48-59 | resetting a live handle's window keeps the window invariant |
| WindowRules.ResetPrefix | window_manager.py:73-75 | after any prefix of the copied list the invariant holds |
| WindowRules.ResetAllSpec | window_manager.py:71-75 | after a reset only vanished handles stay managed, with their snapshots; every live managed window is back at its snapshot and every other window is untouched |
| WindowRules.StaleNoDup | window_manager.py:117-118 | the invalid handles are listed once each |
| WindowRules.InvAdd | window_manager.py:31-40 | adding keeps the manager's invariant: distinct handles, one snapshot each |
| WindowRules.InvWindows | window_manager.py:9-13 | changing only window contents keeps the invariant |
| WindowRules.InvSetAlwaysOnTop | window_manager.py:15-29 | setting always-on-top keeps the invariant |
| WindowRules.InvRemove | window_manager.py:42-69 | removing keeps the invariant |
| WindowRules.LiveTopmost | window_manager.py:101-103 | the counted handles are the tracked ones whose live window has the topmost bit |
| WindowRules.StatusMeaning | window_manager.py:95-105 | the status is "AOT: None" exactly when no handle is tracked, and otherwise reports the count of live topmost handles, never more than are tracked |
| WindowRules.StatusTracksSetAlwaysOnTop | window_manager.py:15-29 | setting always-on-top on a live handle adds it to or removes it from the counted handles |
| WindowRules.ForgetAllSpec | window_manager.py:120-125 | forgetting handles drops each from the list, the set and the snapshots |
| WindowRules.CleanupSpec | window_manager.py:114-131 | cleanup reports the number of invalid handles, keeps exactly the live managed ones and leaves the desktop and the other snapshots |
| WindowRules.ToggleFlips | window_manager.py:381-392 | toggling a tracked live handle flips its topmost bit only; any other handle changes nothing, and the bookkeeping never changes |
| WindowRules.ToggleLive | lib/window_manager.py:296-303 | toggling a tracked live handle flips exactly its topmost bit |
| WindowRules.ToggleTwice | window_manager.py:381-392 | toggling twice gives back the state |
| WindowRules.ManageSelectedSpec | window_manager.py:365-379 | managing succeeds exactly for a non-zero live handle; then it is managed, tracked, topmost and borderless with its other style bits kept, and a failure changes nothing |
| WindowQueries.SystemWindows | lib/window_manager.py:326-336 | the later deny-list holds every entry of the earlier one, and adds "Window Manager" |
| WindowQueries.ListedTitlesMembers | window_manager.py:419-427 | a title is collected exactly when some enumerated window is visible, has that non-empty title and matches no deny-list entry |
| WindowQueries.WindowTitlesSpec | window_manager.py:416-431 | the titles come back sorted, as a permutation of the collected ones, and are exactly the visible, non-empty, non-system titles |
| WindowQueries.LaterHidesMore | lib/window_manager.py:309-336 | every title the later version lists, the earlier one lists too |
| WindowQueries.MatchWindowTitleReflexive | window_manager.py:295-299 | a title matches itself, and an empty section name matches every title |
| WindowQueries.FirstMatchFrom | window_manager.py:316-328 | the scan finds the first title, from a start index, that passes the inner loop's test (`MatchesKey`: a non-empty title whose cleaned form contains the cleaned section), and no earlier one does; none exactly when no later title passes |
| WindowQueries.WindowWithTitle | window_manager.py:321 | the handle taken for a listed title is the first visible window whose title contains it |
| WindowQueries.SectionMissing | window_manager.py:312-331 | a section is missing exactly when no title's cleaned form contains its cleaned name |
| WindowQueries.SectionMatchSound | window_manager.py:316-328 | a matched handle is visible and has a title containing a listed title that matches the section |
| WindowQueries.SiftStep | window_manager.py:312-331 | each section goes to the matches or to the missing list, after those before it |
| WindowQueries.Picks | window_manager.py:312-331 | each section's match is looked up on its own |
| WindowQueries.SiftPartition | window_manager.py:312-331 | every section lands in exactly one of the two lists, and each entry of either list comes from a section with that outcome |
| WindowQueries.ClassifyPartition | window_manager.py:312-331 | the matches are exactly the sections with a match, with their handle, and the missing list exactly those without |
| WindowQueries.FindMatchingSpec | window_manager.py:301-337 | no configuration, or one without sections, gives two empty lists; otherwise every section appears once, as missing exactly when nothing matches it |
| WindowApply.DictMove | window_manager.py:243-248 | the position step moves the window when the value reads as a pair and changes nothing else |
| WindowApply.DictResize | window_manager.py:251-256 | the size step resizes the window when the value reads as a pair and changes nothing else |
| WindowApply.DictTopmost | window_manager.py:259-260 | the always-on-top step sets the flag when the key is present and changes nothing else |
| WindowApply.DictFrame | window_manager.py:262-266 | the titlebar step removes or restores the frame when the key is present and changes nothing else |
| WindowApply.DictOrders | lib/window_manager.py:196-220 | both orders of the four dictionary steps leave the window in the same state |
| WindowApply.ApplyDict | window_manager.py:241-266 | the dictionary branch changes only this window and leaves it as the four settings say |
| WindowApply.ParserMove | window_manager.py:278-280 | a position that does not read as a pair raises; a readable one moves the window |
| WindowApply.ParserResize | window_manager.py:281-283 | a size that does not read as a pair raises; a readable one resizes the window |
| WindowApply.LegacySection | window_manager.py:273-287 | a bad flag raises before any change; otherwise position, size, always-on-top and then the frame are applied, and the call succeeds exactly when every value reads |
| WindowApply.LaterSection | lib/window_manager.py:227-244 | a bad flag raises before any change; otherwise always-on-top, the frame, position and size are applied, and the call succeeds exactly when every value reads |
| WindowApply.SectionHits | window_manager.py:271-272 | each section is tested against the window title on its own |
| WindowApply.FirstSectionSpec | window_manager.py:271-287 | only the first section whose name is contained in the title is applied, and none when no section matches |
| WindowApply.ApplySection | window_manager.py:269-287 | without a matching section nothing changes and the call succeeds |
| WindowApply.ApplyParser | window_manager.py:269-287 | the parser branch changes only this window, and nothing when no section matches |
| WindowApply.Prepared | lib/window_manager.py:184-190 | the handle is managed and a minimized window restored before any setting; the earlier version raises on a minimized window |
| WindowApply.ApplyConfig | window_manager.py:226-293 | an empty configuration returns False and changes nothing; otherwise the handle is managed first and only this window changes |
| WindowApply.ApplyKeepsInv | window_manager.py:226-293 | applying keeps the manager's invariant |
| WindowApply.ApplyManagesFirst | window_manager.py:232-233 | after applying a non-empty configuration the handle is managed, with its snapshot |
| WindowApply.LegacyMinimizedFails | window_manager.py:237-238 | in the earlier version a minimized window makes the call return False after managing it and before any setting |
| WindowApply.LaterRestoresMinimized | lib/window_manager.py:186-190 | in the later version the window is not minimized afterwards, and a dictionary configuration succeeds |
| WindowApply.DictSettings | window_manager.py:241-266 | a non-empty dictionary succeeds and leaves the window as its settings say and every other window untouched |
| WindowApply.DictVariantsAgree | lib/window_manager.py:194-220 | for a window that is not minimized both versions' dictionary branches give the same result |
| WindowApply.ParserNoMatch | window_manager.py:269-289 | when no section matches the title the call succeeds after only managing the window |
| WindowApply.ParserMatch | window_manager.py:269-289 | with the first matching section the call succeeds exactly when its values read, and then the window shows them |
| WindowApply.ParserBranch | lib/window_manager.py:222-246 | the parser branch acts on the prepared state |
| WindowManagers.WindowManager.constructor | window_manager.py:10-13 | a new manager has no managed handles, no tracked handles and no snapshots |
| WindowManagers.WindowManager.SetAlwaysOnTop | window_manager.py:15-29 | the manager and the desktop change as `WindowRules.SetAlwaysOnTop` says, keeping the invariant |
| WindowManagers.WindowManager.AddManagedWindow | window_manager.py:31-40 | the state changes as `WindowRules.AddManaged` says: a new handle is appended and snapshotted once |
| WindowManagers.WindowManager.SetWindowPosition | window_manager.py:133-147 | reports success exactly on a live handle and moves only that window |
| WindowManagers.WindowManager.SetWindowSize | window_manager.py:149-162 | reports success exactly on a live handle and resizes only that window |
| WindowManagers.WindowManager.MakeBorderless | window_manager.py:194-208 | clears the frame bits of a live handle only |
| WindowManagers.WindowManager.RestoreWindowFrame | window_manager.py:210-224 | sets the frame bits and shows a live handle only |
| WindowManagers.WindowManager.RemoveManagedWindow | window_manager.py:42-69 | the state changes as `WindowRules.RemoveManaged` says: restore from the snapshot and forget, or nothing when the snapshot is missing |
| WindowManagers.WindowManager.ResetAllWindows | window_manager.py:71-75 | the loop over the copied list ends in the reset state that `WindowRules.ResetAllSpec` describes, for either version |
| WindowManagers.WindowManager.GetAlwaysOnTopStatus | window_manager.py:95-105 | the loop counts exactly the tracked handles with the live topmost bit and returns the status text |
| WindowManagers.WindowManager.CheckWindowValid | window_manager.py:107-112 | a handle is valid exactly when it is on the desktop |
| WindowManagers.WindowManager.InvalidWindows | window_manager.py:117-118 | the loop collects exactly the managed handles no longer on the desktop |
| WindowManagers.WindowManager.ForgetHandles | window_manager.py:120-125 | the loop forgets exactly the given handles |
| WindowManagers.WindowManager.CleanupInvalidWindows | window_manager.py:114-131 | returns the number of invalid handles and leaves the state `WindowRules.CleanupSpec` describes |
| WindowManagers.WindowManager.ManageSelectedWindow | window_manager.py:365-379 | the result and new state are those of `WindowRules.ManageSelectedSpec` |
| WindowManagers.WindowManager.ToggleAlwaysOnTop | window_manager.py:381-392 | the state changes as `WindowRules.ToggleFlips` says, and the call raises exactly for a tracked handle that is gone |
| WindowManagers.WindowManager.GetAllWindowTitles | window_manager.py:416-431 | the enumeration returns the sorted, filtered titles of `WindowQueries.WindowTitlesSpec` |
| WindowManagers.WindowManager.FindWindowFor | window_manager.py:316-328 | the inner loop finds the handle of the first title that matches the section |
| WindowManagers.WindowManager.FindMatchingWindows | window_manager.py:301-337 | the nested loops return the partition `WindowQueries.FindMatchingSpec` describes |
| WindowManagers.WindowManager.ApplyPosition | window_manager.py:243-248 | the position step of the dictionary branch |
| WindowManagers.WindowManager.ApplySize | window_manager.py:251-256 | the size step of the dictionary branch |
| WindowManagers.WindowManager.ApplyTopmost | window_manager.py:259-260 | the always-on-top step of the dictionary branch |
| WindowManagers.WindowManager.ApplyTitlebar | window_manager.py:262-266 | the titlebar step of the dictionary branch |
| WindowManagers.WindowManager.ApplyDictConfig | lib/window_manager.py:194-220 | the four steps in each version's order give the state of `WindowApply.ApplyDict` |
| WindowManagers.WindowManager.ParserPosition | window_manager.py:278-280 | a position read from a section, failing on an unreadable value |
| WindowManagers.WindowManager.ParserSize | window_manager.py:281-283 | a size read from a section, failing on an unreadable value |
| WindowManagers.WindowManager.ApplySectionSettings | lib/window_manager.py:227-244 | the matching section is applied in each version's order, stopping at the first error |
| WindowManagers.WindowManager.ApplyParserConfig | window_manager.py:269-287 | the loop over sections applies only the first that matches the title |
| WindowManagers.WindowManager.ApplyWindowConfig | window_manager.py:226-293 | the result and state are those of `WindowApply.ApplyConfig` for the manager's version |
| Layout.MinOf | lib/layout.py:691-692 | the minimum is one of the values and no value is below it |
| Layout.MaxOf | lib/layout.py:693-694 | the maximum is one of the values and no value is above it |
| Layout.Lefts | lib/layout.py:685-686 | one left edge per window, in order |
| Layout.Tops | lib/layout.py:685-687 | one top edge per window, in order |
| Layout.Rights | lib/layout.py:685-688 | one right edge, position plus width, per window |
| Layout.Bottoms | lib/layout.py:685-689 | one bottom edge, position plus height, per window |
| Layout.BoundsTight | lib/layout.py:672-694 | without windows the box is the whole screen; otherwise every window lies inside the box and each side of the box touches some window |
| Layout.ScreenLayoutFrame.constructor | lib/layout.py:634-653 | a new frame holds the screen size and windows with the bounds already computed |
| Layout.ScreenLayoutFrame.ComputeBounds | layout.py:505-527 | the loop sets the four bound fields to the box of `Layout.BoundsTight` |
| Layout.Checked | lib/layout.py:390 | the selection is exactly the titles whose switch is on |
| Layout.ConfirmSelectionSpec | lib/layout.py:389-397 | no switch on gives "No windows selected", more than four selected titles give "Select up to 4 windows only", and otherwise the settings show the one to four selected titles |
| Layout.ValidateIntPairSpec | lib/layout.py:496-501 | a value that reads as two integers gives them, anything else the default, and a written pair reads back |
| Layout.SortSelectionSpec | lib/layout.py:407-410 | the sort raises exactly when some window's position does not begin with an integer; otherwise it orders the windows by x, keeps their number and keeps windows with equal x in selection order |
| Layout.DefaultKey | lib/layout.py:409 | a window without settings sorts with x 0 |
| Layout.UnknownWindowsKeepOrder | lib/layout.py:407-410 | when no window has settings the selection keeps its order |
| Layout.SaveRequestName | lib/layout.py:547-562 | the save callback is called exactly when the cleaned name is non-empty, never for an empty name, with the collected data and a name that cleaning leaves unchanged |
| Layout.RowSettingsSpec | lib/layout.py:551-557 | each window's entry holds exactly position, size, the two flags and the trimmed name |
| LegacyLayout.RemoveForbidden | layout.py:412 | the result is no longer than the input and holds none of the characters <>:"/\|?* |
| LegacyLayout.RemoveForbiddenAppend | layout.py:412 | the removal works character by character, so it distributes over concatenation |
| LegacyLayout.RemoveForbiddenFixed | layout.py:412 | a name without forbidden characters passes unchanged |
| LegacyLayout.RemoveForbiddenIdempotent | layout.py:412 | removing twice is removing once |
| LegacyLayout.LegacyNameKeepsBlank | layout.py:411-412 | trimming comes before the removal, so the name "< a" is saved as " a" with a leading blank |
| LegacyLayout.LegacySaveRequestSpec | layout.py:400-419 | the save callback is called exactly when a name is left, never for a blank name, with a name free of forbidden characters that the removal leaves unchanged |
| Widgets.IndexOrZero | lib/custom_widgets.py:63-67 | the index of the first occurrence of the shown value, and 0 when it is not among the values |
| Widgets.ScrollIndex | lib/custom_widgets.py:69-72 | the next index always lies inside the list |
| Widgets.DropdownHeight | lib/custom_widgets.py:96 | twenty pixels per value for up to twelve values, and never more than 240 |
| Widgets.ScrollBack | lib/custom_widgets.py:59-76 | with distinct values one step up and one step down lead back to the shown value, in either order |
| Widgets.FirstIndexOfDistinct | lib/custom_widgets.py:65 | with distinct values the index of the value at k is k |
| Widgets.ModSteps | lib/custom_widgets.py:70-72 | stepping back and forth on the ring of indices returns to the start |
| Widgets.ScrollFromUnknown | lib/custom_widgets.py:63-72 | a shown value not in the list counts as index 0: going up shows the last value, going down the second |
| Widgets.BlockTyping | lib/custom_widgets.py:19-23 | a key press is swallowed with "break" exactly when it is not one of Up, Down, Escape, Tab and the two Shift keys |
| Widgets.SingleCharacterKeysBlocked | lib/custom_widgets.py:19-23 | every key that types a single character is swallowed, so the entry cannot be typed into |
| Widgets.NavigationKeysPass | lib/custom_widgets.py:19-23 | the arrow keys, Escape and Tab are let through |
| Widgets.CustomDropdown.constructor | lib/custom_widgets.py:8-27 | a new dropdown shows an empty value, has no pop-up and has made no callback |
| Widgets.CustomDropdown.OpenDropdown | lib/custom_widgets.py:38-57 | the pop-up opens, lists the values and is sized for at most twelve rows; value and callbacks are unchanged |
| Widgets.CustomDropdown.CloseDropdown | lib/custom_widgets.py:78-81 | the pop-up is closed afterwards, and closing a closed dropdown changes nothing |
| Widgets.CustomDropdown.ToggleDropdown | lib/custom_widgets.py:32-36 | a click flips between open and closed, opening with the current values |
| Widgets.CustomDropdown.ScrollThroughValues | lib/custom_widgets.py:59-76 | without values nothing changes; otherwise the neighbouring value in the wheel's direction is shown, it is one of the values, and the callback receives it when there is one |
| Widgets.CustomDropdown.OnSelect | lib/custom_widgets.py:83-90 | a chosen row becomes the value and goes to the callback, no choice keeps the value, and the pop-up closes either way |
| AppRules.ManagedLineShape | main.py:186-188 | an always-on-top section is shown as "* name *", a line longer than 20 characters keeps its first 20 and gains "...", and a short plain name is shown as it is |
| AppRules.ManagedListSpec | main.py:181-192 | the list is built exactly when every section's flag reads; then there is one line and one flag per section, in section order |
| AppRules.ManagedListStops | main.py:185 | the first section whose flag does not read stops the list with that error |
| AppRules.LayoutEntries | main.py:198-207 | each section is turned into a layout entry on its own |
| AppRules.LayoutOfWritten | main.py:199-207 | a section holding a written position and size becomes a window of that name, place and size, present exactly when it is not missing |
| AppRules.ComputeLayoutSpec | main.py:194-209 | the layout fails exactly when some section's position or size does not read; otherwise it holds, in section order, the sections with both a position and a size, each present exactly when not missing |
| AppRules.RepairedOption | lib/config_manager.py:233-242 | every option of a repaired section passes its check |
| AppRules.RepairedSectionReads | main.py:185-204 | after repair every section's flag and pair values read |
| AppRules.RepairedFlagReads | main.py:185 | after repair every always-on-top flag reads |
| AppRules.RepairedPairsRead | main.py:199-204 | after repair every position and size that is present reads as a pair |
| AppRules.SizeIsPair | lib/config_manager.py:236 | a size that passes its pattern reads as a pair of integers |
| AppRules.RepairedSelectTotal | main.py:170-175 | the list and the layout of a repaired configuration always succeed |
| AppRules.RootSelectFails | main.py:170 | with the older manager main.py imports, selecting any configuration raises AttributeError |
| AppRules.RepairedSelectStored | main.py:165-175 | with a manager that repairs, the stored configuration is the repaired one, it stays well formed and its layout succeeds |
| AppRules.MatchSettingsSpec | main.py:78-84 | the settings raise exactly when a flag of the matched section does not read; otherwise they hold the four keys, with always-on-top falling back to False and the titlebar to True |
| AppRules.ApplyMatchesKeepsInv | main.py:73-91 | applying the matches one after another keeps the manager's invariant |
| AppRules.ApplyMatchesManages | main.py:73-91 | every handle stays managed, and every match whose settings read is managed afterwards, even after a failing one |
| AppRules.AppliedSpec | main.py:61-93 | after matching, resetting and applying, the manager keeps its invariant and manages every matched window whose settings read |
| AppRules.FlipAll | main.py:100-101 | flipping a set of handles keeps the desktop's handles |
| AppRules.ToggleStep | main.py:100-101 | toggling one more tracked handle extends the flipped set by it |
| AppRules.FlipTrackedTwice | main.py:99-102 | toggling every tracked window twice gives back the state |
| AppRules.FlipTrackedStatus | main.py:99-102 | after toggling, the live topmost handles are exactly the tracked live ones that were not topmost before |
| AppRules.FlipChangesTop | window_manager.py:385-388 | a flip changes whether the topmost bit is set |
| App.ApplicationState.constructor | main.py:15-51 | a new state lists no configurations, holds none, shows nothing and manages no window |
| App.ApplicationState.UpdateAlwaysOnTopStatus | main.py:104-109 | the label shows the manager's status and nothing else changes |
| App.ApplicationState.ApplySettings | main.py:61-93 | an unlisted choice raises without change; a file that does not load changes nothing; otherwise the manager ends in the applied state and the label shows its status |
| App.ApplicationState.ApplyEach | main.py:73-91 | the loop applies every match in order, going on after a failing one |
| App.ApplicationState.ResetSettings | main.py:95-97 | the manager ends in the reset state |
| App.ApplicationState.ToggleAlwaysOnTop | main.py:99-102 | every tracked window is toggled and the label shows the new status |
| App.ApplicationState.ToggleEach | main.py:100-101 | the loop over the tracked set toggles each handle once |
| App.ApplicationState.UpdateManagedWindowsList | main.py:177-192 | no configuration gives empty lists; otherwise the lines and flags of `AppRules.ManagedListSpec`, or an error that leaves them |
| App.ApplicationState.CollectManaged | main.py:181-190 | the loop over sections builds the lines and flags, stopping at the first error |
| App.ApplicationState.ComputeWindowLayout | main.py:194-209 | a configuration whose layout succeeds gives a new frame over those windows, with its bounds computed; an error leaves the frame |
| App.ApplicationState.CollectPositioned | main.py:195-207 | the loop over sections builds the positioned windows, stopping at the first error |
| App.ApplicationState.OnConfigSelect | main.py:165-175 | an unlisted value changes nothing; a listed one stores the repaired configuration and shows its list in compact mode, or otherwise its layout in a preview of the screen's size whose bounds cover every rectangle |
| App.ApplicationState.UpdateConfigList | main.py:211-216 | the lists are re-read from the folder; with configurations the dropdown shows them and selects the requested name or the first one, whose loaded file becomes the stored configuration shown as the current view; the mode and the topmost label never change, and with nothing selected the view is untouched |
| App.ApplicationState.OnModeToggle | main.py:150-158 | the mode flips and the current configuration is redrawn in the view now shown (an empty list or the old preview when there is none, the old view when a setting cannot be read); the hidden view and the topmost label stay as they were |
| Ini.Find | lib/config_manager.py:40 | a section is found exactly when its name is among the sections, at its position |
| Ini.AddSection | lib/config_manager.py:245 | adding DEFAULT raises ValueError and adding an existing name raises; otherwise the name is appended |
| Ini.Set | lib/config_manager.py:246-247 | setting an option raises exactly when the section does not exist, and keeps the section names |
| Ini.Assign | lib/config_manager.py:162-167 | assigning a section keeps the names, or appends a new one, and keeps the configuration well formed |
| Ini.AssignSection | lib/config_manager.py:162-167 | assigning an ordinary section empties it in place and fills it, or appends it, and leaves every other section |
| Ini.AssignBlank | config_manager.py:102-107 | assigning the name "" leaves an empty section of that name and puts the options into the defaults |
| Ini.AssignDefault | config_manager.py:102-107 | assigning DEFAULT replaces the defaults and leaves the sections |
| Ini.BooleanWord | main.py:185 | "1", "yes", "true" and "on" read as True and "0", "no", "false" and "off" as False, in any case |
| Ini.GetBooleanSeesItems | main.py:82-83 | a flag reads from the section merged with the defaults: a missing key gives the fallback and an unknown word raises ValueError |
| Sorting.SortStrings | lib/config_manager.py:70 | the sorted list is ordered and a permutation of the input |
| Sorting.SortedUnique | lib/config_manager.py:70 | there is only one ordered permutation of a list, so the sort's result is determined |
| Sorting.SortByKey | lib/config_manager.py:158 | the sort by key keeps the length, orders by the key and only holds input elements |
| Sorting.SortByKeyStable | lib/config_manager.py:158 | the sort is stable: the elements with any one key keep their relative order |
| Text.ParseIntPairIff | lib/layout.py:498-499 | a value reads as a pair exactly when it splits on commas into two integer literals |
| Text.PairRoundTrip | lib/layout.py:498-499 | a written pair "x,y" reads back as (x, y) |
| Text.SplitParts | lib/layout.py:498 | the parts of a split hold no separator and joined with it give back the text |

## Left out

- The Windows API and pygetwindow are a table of windows. Z-order is reduced to the topmost bit of the extended style, and window placement by the OS (clamping, minimum sizes) is not modelled.
- `SetForegroundWindow` at lib/window_manager.py:190 is assumed to succeed. Windows may refuse the switch; pywin32 then raises, and the `try` of `apply_window_config` returns False. That refusal path is not modelled, so `WindowApply.LaterRestoresMinimized` and `WindowApply.DictSettings` hold only when the switch is granted.
- `eval` of position and size strings is a strict reader of two comma-separated integers. Anything else takes the path of the caught exception.
- `int()` accepts only an optional minus sign and ASCII digits. Surrounding whitespace, underscores and Unicode digits are not accepted.
- `str.lower`, `str.upper`, `\s` and `\d` are modelled on ASCII only. Unicode case mapping and Unicode digits are not.
- `ConfigParser` interpolation of `%` in values is not modelled. Reading and writing the INI text format is not modelled either: a file holds the parsed configuration itself.
- lib/utils.py is not part of this model. Every call of its `clean_window_title` is modelled with the `clean_window_title` of utils.py, which has no `titlecase` argument:
  - lib/config_manager.py:124 and :127, the default-configuration scan (`ConfigFiles.SectionVerdicts`, `ConfigFiles.DetectDefault`);
  - lib/config_manager.py:150, the section names (`ConfigStore.SaveWindowConfig`);
  - lib/config_manager.py:207, the `name` of the collected settings, which reaches the model only as given settings;
  - lib/window_manager.py:270 and :276, the matching of `find_matching_windows` (`WindowQueries.FindMatchingSpec`);
  - lib/layout.py:419, the initial text of a row's name field, which is not modelled (the GUI is left out);
  - lib/layout.py:558, the configuration name (`Layout.SaveRequest`, `Layout.SaveRequestName`).
  The `titlecase=True` cleaning at lib/config_manager.py:139 is the function parameter `titleCase` of `ConfigStore.SaveWindowConfig`.
- `collect_window_settings` (lib/config_manager.py:192-211, config_manager.py:129-148) reads the OS window and the foreground window. Its results reach the model only as the settings given to the save functions.
- `get_window_info`, `get_window_info_for_config`, `find_window_by_title` and `listen_for_window_click` of window_manager.py are not modelled. They are queries of the OS or an endless polling loop, and the modelled core does not call them.
- `load_or_create_layouts` (lib/config_manager.py:51-63) only reads or writes a file. Its two halves are modelled as `LayoutPresets.Deserialize` and `LayoutPresets.Serialize`.
- Printed messages, tracebacks and message boxes are not modelled. An error shown to the user is an `Err` result or a `None` request.
- main.py imports `WindowInfo` from utils.py, which does not define it. `Layout.WindowInfo` stands for the record of lib/layout.py.
- main.py imports `TkGUIManager` from layout.py, and fits it only in part:
  - main.py:233 passes `compact=` and `is_admin=` to a constructor that takes only `callbacks` (layout.py:14), so starting the program raises TypeError.
  - main.py:151 calls `toggle_compact(startup)`, but layout.py:277 takes no argument, so every mode switch raises TypeError.
  - main.py:209 calls `set_layout_frame(sw, sh, windows)`, which fits layout.py:235 but not lib/layout.py:307.
  `App` assumes a GUI that accepts all three calls: construction and `toggle_compact` as in lib/layout.py:16 and :346, and `set_layout_frame` as in layout.py:235. The TypeErrors are not modelled.
- App.ApplicationState.OnModeToggle: states the flip of lib/layout.py:346-347 when the switch is not at startup. With the layout.py that main.py imports, the call raises TypeError before anything changes.
- The GUI is not modelled: themes, fonts and colours, drawing of the preview, `auto_position`, the create and delete configuration dialogs, opening the configuration folder and restarting as administrator. `toggle_compact` is reduced to flipping the mode, and the settings file written by `on_mode_toggle` is not modelled.
- `CustomDropdown`: `_on_mousewheel` scrolls only the pop-up list's view, and `set_theme` only colours it; neither is modelled. The position and width of the pop-up are left out, and only its height is modelled.
- Win32.SetWindowLong: writes the whole extended style word, topmost bit included. The model assumes the topmost bit follows that word, but Windows changes the bit only through `SetWindowPos`. So `WindowRules.RemoveReverts`, `WindowRules.LaterResetWindow` and `WindowRules.ResetAllSpec` state that a reset window gets its snapshot's topmost bit back. On Windows, the reset of window_manager.py:71-75 leaves a window that Resizer made topmost still topmost. The reset of lib/window_manager.py:71-77 clears the bit first, so a window whose snapshot was topmost ends up not topmost.
- WindowRules.ResetAllSpec: windows never close while the model runs. The desktop's set of windows is fixed, and `Inv` ties a `None` snapshot to a missing window. So a managed window that closes after its snapshot was taken cannot be represented, and "the handles that stay managed" means handles that never had a snapshot. On Windows such a handle goes through `remove_managed_window`: the `set_window_*` calls catch their own errors and `SetWindowLong` does not raise, so the handle is dropped. The same gap applies to `WindowRules.CleanupSpec`: `cleanup_invalid_windows` (window_manager.py:114-131) exists for closed windows, but the model only ever sees handles whose window was missing from the start.
- Win32.GetWindowLong: states only the invalid-handle answer; its result for a live handle is defined by its body.
- App.ApplicationState.UpdateConfigList: states the stored configuration and the view only when the selected file loads. A file that does not load raises AttributeError inside `on_config_select`, and `App.ApplicationState.OnConfigSelect` states that case.
- App.ApplicationState.ApplySettings: states the result for the window manager of window_manager.py only, because main.py uses that one.

## Findings

| source | as written | input that shows it | evidently intended | confidence | as-written member | corrected member |
|---|---|---|---|---|---|---|
| window_manager.py:237-238 | `apply_window_config` calls `self.restore_window`, which `WindowManager` does not define; the AttributeError is caught and the call returns False | a non-empty configuration applied to a minimized window: the window is managed, then nothing is applied | restore the window, as lib/window_manager.py:188-190 does, then apply the settings | not executed | WindowApply.LegacyMinimizedFails | WindowApply.LaterRestoresMinimized |
| main.py:170 | `on_config_select` calls `validate_and_repair_config` on the `ConfigManager` of config_manager.py, which does not define it | selecting any listed configuration raises AttributeError and stores nothing | repair the loaded configuration, as lib/config_manager.py:223-249 does, and store the result | not executed | AppRules.RootSelectFails | AppRules.RepairedSelectStored |
