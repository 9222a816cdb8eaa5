# A verified model of Luvus

This project models the parts of Luvus whose correctness is hard to see from one
function, in Dafny 4.11, and proves what they promise:

- **Shared settings.** Several named servers hold stale copies of one JSON document and
  save to it. `ConfigDelta` has the recursive delta, its application and the patch
  algebra; `ConfigStore` the file, its saves and whole runs of them. Everything rests on
  one law: a path a delta touches reads as the delta says, every other path as before.
- **Who runs in a pane.** `CommandLine` is the argument splitter and the canonical quoting
  it has to undo, `ArgumentForms` every other way of writing an argument. `Lowercase`
  shows splitting and lowercasing commute. `ProcessIdentity` has the two independent walks
  over a command line (one names the agent, one captures its flags) and `AgentNaming` tells
  what they find, agent by agent. `WordSearch` is the search for a name in text,
  `PaneIdentity` the choice between processes, command, title and screen.
- **What a pane is doing.** `ScreenText` is the text read off a terminal's rows,
  `RuleEngine` the priority engine, for any rule list, `RuleConditions` the meaning of its
  conditions. `LiveScreen` cuts a Claude screen so that transcript text cannot pass for its
  state.
- **Resuming.** `LaunchFlags` filters captured flags, `ShellWords` is the word splitting of
  the POSIX shell command language (XCU sections 2.2 and 2.3), `Replay` the resume
  command and the whole way from a running command line to the words a shell gets.
- **Clipboard.** `ClipboardQueue` is the one-slot, latest-wins protocol as atomic steps
  with the class that performs them, `ClipboardWriter` the bounded write to a helper.
- **Release notes.** `InlineMarkdown` is the inline parser and a printer for it.
- **Migration.** `SnapshotLayout` converts saved tabs, `LiveImport` appends them to a
  running owner, `ImportReceipts` is the receipt protocol over crashes and reruns.

`JsonValue`, `Options`, `Text` and `SessionIds` are shared by these.

Loops and in-place updates of the source are methods and classes; each is proved against a
function of the same module, and the properties are lemmas about that function. Where the
source calls code that is not part of this model, that code is a function parameter.

## What the proofs found

Some properties the source or its comments suggest do not hold on every input. Each is
proved with the exact condition under which it does, and with inputs on which it does
not.

- Splitting undoes the canonical Microsoft quoting for every argument list except those
  with a bare argument holding a space the canonical rules do not know, such as U+00A0
  (`CommandLine.TokensInvertQuotingIff`, `CommandLine.BareNoBreakSpaceIsLost`).
- Applying a delta equals RFC 7396, section 2, up to null and absent members; it is the
  same document, and applying it twice is the same as once, exactly when nothing with
  nulls inside is inserted (`ConfigDelta.AgreesWithMergePatch`, `ConfigDelta.TwiceIsOnce`,
  `ConfigDelta.NullInsideAbsentSection`). The delta of two documents restores the second
  one exactly if no changed member of it is a null (`ConfigDelta.DeltaRoundTrip`,
  `ConfigDelta.NewNullIsLost`), and the order of agreeing deltas shows only where they
  insert a section with a null (`ConfigDelta.ExactCommuteIff`,
  `ConfigDelta.AbsentSectionShowsOrder`).
- Two explicit patches folded into one before they are written mean the same as the two
  in turn exactly when no newer edit lies inside a leaf of the older patch: a deletion
  followed by an edit inside the deleted section loses the deletion
  (`ConfigDelta.ComposedPatchIff`, `ConfigDelta.DeletionIsLost`).
- Identity lowercases the interpreter's options and capture does not, so `-R` is read as
  `-r` by one of them. `ProcessIdentity.Walk.FollowsIdentity` is the exact condition for
  capture to find the flags behind the token identity went by, with any adapters loaded:
  for an interpreter's script the slot stays where it is in lower case, or capture's own
  slot names another agent and an adapter's check captures the same flags
  (`ProcessIdentity.Walk.CaptureFollowsIff`). `node -R hook claude x` and its like lose
  their flags (`ProcessIdentity.CapitalOptionOnTheLine`).
- Rows above a Claude screen reach into its live part exactly when no status or column-0
  line stands above its input box (`LiveScreen.SafeFromTranscriptsIffAnchored`). On an
  anchored screen they can still change which agent the pane is taken for. They change
  nothing exactly when a process list, launch command or title decides that, or they name
  no agent by themselves, or none that beats the one the screen itself names, or, where it
  names none, only what the pane is taken for anyway
  (`LiveScreen.Detector.TranscriptHarmlessIff`,
  `PaneIdentity.Identifier.TranscriptKeepsIdentityIff`). One row with another agent's name
  above a busy screen renames the pane (`LiveScreen.RowRenamesPane`).
- The word search looks only at matches that do not overlap. It is exact for precisely the
  names that do not hide themselves (`WordSearch.SearchIsExactIff`,
  `WordSearch.HyphenatedNameIsOverlooked`).
- Filtering launch flags again changes the result exactly when the first token to survive
  is `resume`, for Muse (`LaunchFlags.FilterTwice`, `LaunchFlags.MuseResumesTwice`).
- The byte budget for old scrollback settings grows with the line count except that the
  old default of 2,000 lines gets more than 2,001 to 4,999 lines do
  (`ConfigStore.LegacyBudgetGrowsIff`, `ConfigStore.OldDefaultDips`).
- A snapshot can be delivered twice exactly to the default destination, and exactly if it
  has neither a session file nor an owner's files at the start
  (`ImportReceipts.DeliveredTwiceIff`): a second worker that looks between the session
  file and the receipt of the first appends what was installed, whether the first has
  crashed there (`ImportReceipts.CrashDeliversTwice`) or not
  (`ImportReceipts.RaceDeliversTwice`).

## Model

| member | source | states |
|---|---|---|
| `JsonValue.SameStripIffSameObservations` | src/config.rs:1023-1070 | two documents are the same up to null and absent members exactly when no path tells them apart |
| `JsonValue.StripFixesExactlyNullFree` | src/config.rs:1023-1070 | that normal form leaves a document alone exactly when no object in it has a null member |
| `ConfigDelta.ApplyDeltaTo` | src/config.rs:1052-1070 | the member-by-member rewriting, in any order of the members, gives the recursive result |
| `ConfigDelta.ApplyDeltaAt` | src/config.rs:1052-1070 | after a delta every path it touches reads as the delta says and every other path as before |
| `ConfigDelta.AgreesWithMergePatch` | src/config.rs:1052-1070 | equals RFC 7396 section 2 MergePatch up to null and absent, and exactly so if and only if nothing with nulls inside is inserted |
| `ConfigDelta.TwiceIsOnce` | src/config.rs:1052-1070 | a second application changes nothing up to null and absent, and nothing at all if and only if nothing with nulls inside was inserted |
| `ConfigDelta.NullInsideAbsentSection` | src/config.rs:1052-1070 | a null inside an absent section is kept by the code and dropped by the RFC, and by a second application |
| `ConfigDelta.CommuteIffAgree` | src/config.rs:1052-1070 | for every target, two deltas give the same document in either order exactly when they agree on what they share |
| `ConfigDelta.ExactCommuteIff` | src/config.rs:1052-1070 | agreeing deltas give the identical document in either order exactly when no shared section is inserted with a null only one of them has |
| `ConfigDelta.HeldSectionsCommuteExactly` | src/config.rs:1052-1070 | edits of sections the target already holds commute exactly |
| `ConfigDelta.AbsentSectionShowsOrder` | src/config.rs:1052-1070 | two edits of an absent section, one of them a null, for which the order shows |
| `ConfigDelta.ComputeDelta` | src/config.rs:1023-1050 | the two filling loops compute the recursive delta |
| `ConfigDelta.NoDeltaIffEqual` | src/config.rs:1025-1050 | no delta is produced exactly when the documents are equal |
| `ConfigDelta.ValueDeltaAt` | src/config.rs:1025-1050 | touched paths of a delta read as in the desired document; on the others base and desired already agree |
| `ConfigDelta.DeltaRoundTrip` | src/config.rs:1023-1070 | applying the delta to its base gives the desired document up to null and absent; exactly so if and only if no changed member is a null; always exactly for null-free documents |
| `ConfigDelta.NewNullIsLost` | src/config.rs:1023-1070 | a new null member is not restored |
| `ConfigDelta.UnchangedIsUntouched` | src/config.rs:857-865 | a setting the server did not change is not touched by its delta |
| `ConfigDelta.MergeExplicitAt` | src/app/config_persistence.rs:268-284 | a folded patch touches what either patch touches, and the newer one decides |
| `ConfigDelta.ComposedPatchIff` | src/app/config_persistence.rs:268-284 | folding two patches means writing both in turn, on every target, exactly when no newer edit lies inside a leaf of the older one |
| `ConfigDelta.ComposedPatchDiffers` | src/app/config_persistence.rs:268-284 | otherwise a target and a path are given on which the folded patch and the two patches differ |
| `ConfigDelta.DeletionIsLost` | src/app/config_persistence.rs:268-284 | deleting a section and then setting a member in it: the folded patch keeps an old member |
| `ConfigStore.ConfigFile.Save` | src/config.rs:906-940 | what a save reports and leaves on disk; a failed save leaves the disk alone, an empty one succeeds without the lock |
| `ConfigStore.SaveOutcome` | src/config.rs:906-983 | a save with nothing to do succeeds whatever the lock does; any other succeeds exactly when the lock was held, the replacement written and the newest document, changed and then patched, settles, and that is then on disk |
| `ConfigStore.SaveAt` | src/config.rs:857-940 | after a successful save every path it wrote reads as recorded, the explicit patch winning; every other path, and all paths after a failed save, read as before |
| `ConfigStore.StaleServerKeepsNewerSetting` | src/config.rs:857-865 | a server that did not change a setting never overwrites another server's value, however old its copy |
| `ConfigStore.RetryPublishesEveryChange` | src/config.rs:862-865 | a success after any failures from the kept baseline publishes every changed path |
| `ConfigStore.NoLostUpdates` | src/config.rs:906-940 | over any run of saves from any baselines, a path reads as the last successful save that wrote it recorded |
| `ConfigStore.UnwrittenPathIsKept` | src/config.rs:906-940 | a path no successful save of the run wrote reads as before the run |
| `ConfigStore.NormalizeSettles` | src/config.rs:806-831 | normalization ends in a normal document, changes nothing exactly when there is nothing to migrate or clamp, and is idempotent |
| `ConfigStore.MigratesExactly` | src/config.rs:809-831 | what each migrated setting becomes, and that nothing becomes of one that needs no migration |
| `ConfigStore.NewKeysAreFree` | src/config.rs:809-821 | migrating to version 2 leaves `m` and `M` to their new owners and takes no other binding away |
| `ConfigStore.LegacyBudgetGrowsIff` | src/config.rs:833-842 | the byte budget is in range and grows with the line count except from the old default to fewer than 5,000 lines |
| `ConfigStore.OldDefaultDips` | src/config.rs:833-842 | one line more than the old default has a smaller budget |
| `ConfigStore.NormalizeLeavesOtherSettings` | src/config.rs:809-842 | normalization leaves every setting it does not migrate as it was |
| `ConfigStore.NoLostUpdatesWithNormalization` | src/config.rs:906-940 | no lost updates with this build's own normalization and encoding around any decoder that reads back what they write, for every setting they leave alone |
| `ConfigStore.Defaults.DecoderDecodes` | src/config.rs:93-121 | a decoder that fills in missing fields from defaults is such a decoder |
| `ConfigStore.Defaults.MissingReadsDefault` | src/config.rs:93-121 | a missing field reads as its default, at the top and in the layout; one that is there stays |
| `ConfigStore.HeldIsKeptByDecoding` | src/config.rs:93-121 | filling in missing fields changes nothing at a setting without a default, nor at one no save of the run leaves out |
| `ConfigStore.NoLostUpdatesWithDefaults` | src/config.rs:906-940 | no lost updates when missing fields read as their defaults: for every setting without a default, deletions included, and for one with a default in a run that never leaves it out |
| `CommandLine.CommandTokens` | src/detect.rs:1658-1713 | the nested-loop scanner computes the recursive splitting |
| `CommandLine.TokensInvertQuotingIff` | src/detect.rs:1658-1713 | splitting a canonically quoted command line gives the arguments back exactly when none stands bare with an unknown kind of space |
| `ArgumentForms.AnyFormIsRead` | src/detect.rs:1658-1713 | however arguments are written, in bare and quoted stretches with escaped quotes and any whitespace around them, the line splits into what they mean |
| `CommandLine.BareNoBreakSpaceIsLost` | src/detect.rs:1658-1713 | an argument with a no-break space does not come back |
| `Lowercase.TokensCommuteWithLower` | src/detect.rs:1577-1581 | splitting the lowercased command line is lowercasing each argument |
| `Lowercase.AsciiLowerRespectsSyntax` | src/detect.rs:1577-1581 | lowercasing of ASCII meets what is asked of a lowercase map |
| `ProcessIdentity.BestAgentIsBest` | src/detect.rs:336-343 | some agent is chosen exactly when one matches: the earliest of the highest priority |
| `ProcessIdentity.Manifests.WalksAreSound` | src/detect.rs:1715-1779 | without an adapter's whole-argv check no command line is named by one |
| `ProcessIdentity.BinaryNameIsBare` | src/detect.rs:1820-1829 | a binary name holds no directory, no leading dash and no `.exe` |
| `ProcessIdentity.DirectoryIsIgnored` | src/detect.rs:1820-1829 | the directory a program is run from does not change its name |
| `ProcessIdentity.DecorationsAreIgnored` | src/detect.rs:1820-1829 | the dashes of a login shell and a trailing `.exe` go, nothing else of a name does |
| `AgentNaming.ExtensionIsStripped` | src/detect.rs:1832-1840 | a script's extension goes and nothing else of its name |
| `AgentNaming.LastSegment` | src/detect.rs:1719-1723 | the script is the last part of its path, whichever way its separators lean |
| `AgentNaming.BinaryIsChosen` | src/detect.rs:1770-1779 | a binary name names the best agent whose own check accepts it, else the best that lists it among distinct or ambiguous names, else nobody |
| `AgentNaming.ScriptIsChosen` | src/detect.rs:1715-1757 | a script names by full package, then as a binary, then by name without extension, then by the package's base name among distinct names |
| `AgentNaming.AdapterIsChosen` | src/detect.rs:1759-1768 | a whole argv names the best agent whose check finds a script in it |
| `AgentNaming.ProcessIsNamed` | src/detect.rs:1577-1606 | a command line names the agent that argv[0] names, else the one its interpreter's script names, else the one an adapter names, else nobody |
| `AgentNaming.ProcessIsCaptured` | src/detect.rs:1608-1656 | capture gives the original arguments behind argv[0], the script or the adapter's script, whichever in turn names the agent asked for, and nothing otherwise |
| `ProcessIdentity.NodePackageMeans` | src/detect.rs:1719-1736 | the package is what follows the innermost `node_modules`, with its scope |
| `ProcessIdentity.Manifests.PackageDecides` | src/detect.rs:1715-1749 | an agent that lists the full package name is chosen before any base name counts |
| `ProcessIdentity.Walk.SkipLeadingEnv` | src/detect.rs:1892-1917 | the loop computes the recursive unwrapping |
| `ProcessIdentity.Walk.UnwrapMeans` | src/detect.rs:1892-1917 | `env` is unwrapped to the first argument that is no assignment; a flag there leaves the command line whole |
| `ProcessIdentity.FindInterpreterScript` | src/detect.rs:1919-1938 | the loop computes the script slot |
| `ProcessIdentity.InterpreterScriptSlot` | src/detect.rs:1919-1938 | the slot is an argument that is no flag |
| `ProcessIdentity.SlotMeans` | src/detect.rs:1919-1938 | before the slot stand only flags and the values of the options that take one |
| `ProcessIdentity.Walk.LaunchArgsFor` | src/detect.rs:1608-1656 | the loop gives the flags of the first command line that shows the agent |
| `ProcessIdentity.Walk.CaptureFollowsIdentity` | src/detect.rs:1577-1656 | whatever identity names, capture finds: the original arguments after the very token identity went by, as long as lowercasing keeps the script slot |
| `ProcessIdentity.Walk.NoIdentityNoCapture` | src/detect.rs:1577-1656 | where identity names nobody, capture finds nothing for any agent |
| `ProcessIdentity.Walk.OneProcessAgrees` | src/detect.rs:1577-1656 | on one command line capture finds something for the agent identity names, and nothing for anybody where identity names nobody |
| `ProcessIdentity.Walk.ProcessTreeAgrees` | src/detect.rs:1561-1656 | over a process tree the captured flags are those of the command line identity went by |
| `ProcessIdentity.Walk.OptionsKeepSlot` | src/detect.rs:1919-1938 | the slot is kept when no interpreter option changes meaning in lower case |
| `ProcessIdentity.Walk.CaptureFollowsIff` | src/detect.rs:1588-1656 | for every command line that names an agent, and any adapters, exactly when capture finds the flags behind the token identity went by |
| `ProcessIdentity.CapitalOptionSlots` | src/detect.rs:1923-1938 | before `-R`, a hook and a script the slot is the hook, in lower case the script |
| `ProcessIdentity.CapitalOptionLosesFlags` | src/detect.rs:1577-1656 | an interpreter, `-R`, a hook, an agent and its flags: named by identity, found by no capture |
| `ProcessIdentity.CapitalOptionOnTheLine` | src/detect.rs:1577-1656 | the same on a whole command line as typed |
| `WordSearch.SearchIsExactIff` | src/detect.rs:1940-1957 | the search finds exactly the standalone words, in every text, if and only if the name does not hide itself |
| `WordSearch.OverlookedIsMissed` | src/detect.rs:1949-1957 | a text in which a name that hides itself is overlooked |
| `WordSearch.HyphenatedNameIsOverlooked` | src/detect.rs:1949-1957 | `a-a` is overlooked in `xa-a-a` |
| `WordSearch.PlainNamesAreSafe` | src/detect.rs:1940-1957 | names of letters and digits, and names that cannot overlap themselves, never hide themselves |
| `WordSearch.NeighboursDecide` | src/detect.rs:1945-1956 | a name right beside a letter, digit, dot or path separator is no word, beside anything else it is |
| `RuleEngine.EvaluateFiltered` | src/detect.rs:345-391 | the verdict is the last applicable rule of the highest priority, none exactly when no rule applies |
| `RuleEngine.VerdictIsUnique` | src/detect.rs:345-391 | there is only one such verdict |
| `RuleConditions.TextConditionsMean` | src/detect.rs:185-190 | some, every or no part stands somewhere in the text, or one stands at its start |
| `RuleConditions.LineConditionsMean` | src/detect.rs:202-214 | a part stands in the last line that shows something, or in one of the last two |
| `RuleConditions.SpinnerConditionsMean` | src/detect.rs:191-201 | a line starts, behind blanks, with a spinner, or with a prefix and a spinner |
| `RuleConditions.RuleAppliesIff` | src/detect.rs:353-378 | another agent's rule and a skipped blocked rule never apply; any other applies exactly when all its conditions hold in its region |
| `RuleConditions.OnlyCodexSpinnerDiffers` | src/detect.rs:363-377 | only Codex's screen spinner needs more: something but braille on its line |
| `RuleEngine.EvaluateAppend` | src/detect.rs:345-391 | two rule lists in a row give the right-biased maximum of their verdicts |
| `RuleEngine.LoadedPrecedence` | src/detect.rs:284-299 | the user's verdict stands exactly unless an applicable managed or built-in rule has a higher priority |
| `ScreenText.BottomText` | src/terminal/vt/alacritty.rs:1003-1035 | the loop gives the trimmed bottom rows from the first that shows something, joined by newlines |
| `ScreenText.NonEmptyText` | src/terminal/vt/alacritty.rs:1038-1068 | the upward loop gives the last rows that show something |
| `ScreenText.BottomRowsMean` | src/terminal/vt/alacritty.rs:1003-1035 | the rows kept are the last ones asked for, trimmed, from the first that shows something |
| `ScreenText.ShownRowsMean` | src/terminal/vt/alacritty.rs:1038-1068 | the rows kept show something and are as many as asked for, from the bottom up |
| `ScreenText.NoReturnsInJoined` | src/terminal/vt/alacritty.rs:1003-1068 | such text holds no carriage return before a newline, and its lines are its rows but for an empty last one |
| `ScreenText.TextBelowRows` | src/terminal/vt/alacritty.rs:1003-1068 | with rows above, the text is whole lines above the same text, in both forms and for any number of rows |
| `PaneIdentity.Identifier.ListedProcessesDecide` | src/detect.rs:1340-1361 | with processes listed the first that is an agent decides; if none is, the pane is its command, whatever it was known as and shows |
| `PaneIdentity.Identifier.TextDecides` | src/detect.rs:1364-1380 | without them the command, then the title, then the screen names the agent; else the known one if it is one; else the command |
| `PaneIdentity.Identifier.ScreenHasNoSay` | src/detect.rs:1338-1380 | with a process list, or a command or title that names an agent, identity ignores the screen |
| `WordSearch.WordInLinesAndText` | src/detect.rs:1949-1957 | a name stands in whole lines and a text below them exactly when it stands in the lines or in the text |
| `WordSearch.NewlineNameCrosses` | src/detect.rs:1949-1957 | a name with a newline in it is found across the seam, in neither part |
| `WordSearch.EmptyNameIsLost` | src/detect.rs:1949-1957 | the empty name is found in whole lines, and no more once a letter follows |
| `ProcessIdentity.BestOfUnion` | src/detect.rs:336-343 | the best agent of a union of matches is the better of the two bests, the earlier one on a tie |
| `PaneIdentity.Identifier.OnScreenBelowLines` | src/detect.rs:1800-1817 | whole lines and a text below them name the better of the agents each names by itself |
| `PaneIdentity.Identifier.TranscriptKeepsIdentityIff` | src/detect.rs:1338-1380 | a transcript above a text leaves the agent as it was exactly when something else decides it, or by itself it names none, or none that beats the one named on the text, or where the text names none only what the pane is taken for anyway |
| `PaneIdentity.Identifier.NameOnScreenCounts` | src/detect.rs:1800-1817 | a screen that shows just an agent's distinctive name names an agent |
| `LiveScreen.LastRail` | src/detect.rs:1290-1292 | the rail found sits on a prompt |
| `LiveScreen.LastRailBelow` | src/detect.rs:1290-1292 | and no rail on a prompt comes after it |
| `LiveScreen.ClaudeLiveScreen` | src/detect.rs:1277-1310 | the two upward searches compute the cut |
| `LiveScreen.RailMeans` | src/detect.rs:1286-1289 | a rail line is rails without a gap and blanks around them |
| `LiveScreen.StatusIff` | src/detect.rs:1316-1336 | a status line, told by its parts: glyph, space, and a word with an ellipsis or letters, `for` and a number |
| `LiveScreen.NoStatusWithoutWord` | src/detect.rs:1316-1330 | a line without the space or a word behind it is none |
| `LiveScreen.LineStartsMean` | src/detect.rs:1289-1306 | a prompt character counts among the first three of a line; a line of the conversation starts without a blank |
| `LiveScreen.BlockStartMeans` | src/detect.rs:1293-1307 | the live part starts at a status line with only indented lines down to the input box, or at the box when there is none |
| `LiveScreen.LiveScreenIsTheLastLines` | src/detect.rs:1308-1309 | with plain newlines the byte offset cuts exactly before that line |
| `LiveScreen.TranscriptIsIgnored` | src/detect.rs:1277-1310 | lines put above an anchored screen leave its live part alone |
| `LiveScreen.IgnoredIffNoReturns` | src/detect.rs:1308-1309 | of the bare function: exactly when no line loses a carriage return, which the rows of a terminal never do |
| `LiveScreen.SafeFromTranscriptsIffAnchored` | src/detect.rs:1277-1336 | no transcript, and no rows a terminal can show, reach the live part exactly when a status or column-0 line stands above the last input box |
| `LiveScreen.Detector.VerdictMeans` | src/detect.rs:1426-1471 | state and evidence are the winning rule's; with none, an unrecognised program with output and no input works and all else idles; the live part is read and blocked screen rules skipped exactly for Claude with a live input box |
| `LiveScreen.Detector.PromptEvidenceMeans` | src/detect.rs:1522-1550 | a prompt is blocked exactly when the winning rule is, under the same reading of the screen |
| `LiveScreen.Detector.ClassifyMeans` | src/detect.rs:1386-1480 | a pane is judged as the agent it is taken for |
| `LiveScreen.Detector.TranscriptActsByIdentityOnly` | src/detect.rs:1425-1480 | of a pane taken for Claude, rows above the status block change neither state nor prompt evidence, so they act only through identity |
| `LiveScreen.Detector.TranscriptCannotInfluence` | src/detect.rs:1386-1480 | where a process list, launch command or title decides the agent, rows above Claude's status block change neither agent, state nor prompt evidence, under any rules |
| `LiveScreen.Detector.TranscriptHarmlessIff` | src/detect.rs:1386-1480 | on terminal rows: those above an anchored Claude screen leave agent, state and prompt evidence alone exactly under that condition |
| `LiveScreen.RowRenamesPane` | src/detect.rs:1338-1380 | a row with one agent's name above an anchored busy screen makes of a pane known as another agent a pane of the first |
| `LiveScreen.Detector.TranscriptCannotOpenOrClosePrompt` | src/detect.rs:1522-1550 | nor the prompt evidence taken again for a known agent |
| `LiveScreen.Detector.OnlyTitlesBlockLiveClaude` | src/detect.rs:1265-1271 | while the input box is live only a title rule can call Claude blocked |
| `LaunchFlags.FilterLaunchFlags` | src/agent.rs:147-237 | the index loop computes the filter |
| `LaunchFlags.FateMeans` | src/agent.rs:153-234 | exactly session selectors and Devin's end marker are not kept, and all of those are flags |
| `LaunchFlags.FilterIsKept` | src/agent.rs:147-237 | the result is the subsequence of tokens that survive by a test of the token, the one before it and an end marker further up |
| `LaunchFlags.FilterPlaces` | src/agent.rs:147-237 | the result is the surviving tokens, each once and in their order |
| `LaunchFlags.ValueMeans` | src/agent.rs:168-228 | exactly the selectors that take a separate value take the next word along |
| `LaunchFlags.SurvivesIff` | src/agent.rs:147-237 | a token survives exactly when it is no selector, no selector's value, not Muse's leading `resume` and not at or behind Devin's `--` |
| `LaunchFlags.NoSelectorSurvives` | src/agent.rs:147-237 | no session selector and no end marker is in the result |
| `LaunchFlags.DroppedWordsHaveAReason` | src/agent.rs:147-237 | a dropped word that is no flag follows a dropped selector that takes a value, is part of Muse's leading `resume`, or stands behind Devin's `--` |
| `LaunchFlags.FilterTwice` | src/agent.rs:147-237 | filtering again changes something exactly when the first token to survive is `resume`, for Muse |
| `LaunchFlags.MuseResumesTwice` | src/agent.rs:157-164 | `resume a resume b` becomes `resume b` and then nothing |
| `ShellWords.SplitInvertsQuoting` | src/agent.rs:250-260 | a POSIX shell splits single-quoted words joined by spaces into those very words |
| `Replay.ResumeCommandWords` | src/agent.rs:127-136 | the typed resume command is the words of the agent's template with the session id |
| `Replay.ResumableIff` | src/agent.rs:127-136 | there is a resume command exactly for a template and a safe id |
| `Replay.FlagsOnlyIfKept` | src/agent.rs:263-280 | without captured flags, or with the setting off, or with no flag left, the pane gets the plain command |
| `Replay.CommandsEndWithEnter` | src/agent.rs:239-261 | every command ends with one Enter right behind its last quote |
| `Replay.FlagsAreReplayed` | src/agent.rs:239-261 | with flags the shell gets those words and then every surviving flag, byte for byte |
| `Replay.CaptureFromArgv` | src/detect.rs:1608-1713 | from a canonically quoted command line capture gives the original arguments after the agent's token, for Codex passed through its own filter |
| `Replay.CaptureAndReplay` | src/agent.rs:239-280 | end to end: what is captured from a running command line is filtered and arrives in the restored pane as it was |
| `ClipboardQueue.Completion.constructor` | src/clipboard.rs:13-18 | a new slot is open and empty |
| `ClipboardQueue.Completion.Take` | src/clipboard.rs:20-26 | hands out the message once |
| `ClipboardQueue.Completion.Close` | src/clipboard.rs:28-30 | retires the slot and drops its message |
| `ClipboardQueue.Completion.Publish` | src/clipboard.rs:32-41 | writes and wakes only while open |
| `ClipboardQueue.ClipboardService.constructor` | src/clipboard.rs:101-102 | no worker and no request at first |
| `ClipboardQueue.ClipboardService.Worker` | src/clipboard.rs:81-92 | the running worker or one new thread; a failed start is reported and leaves nothing behind |
| `ClipboardQueue.ClipboardService.Submit` | src/clipboard.rs:121-127 | a submission replaces what is pending |
| `ClipboardQueue.ClipboardService.TakePending` | src/clipboard.rs:107-115 | the worker takes the pending request when it has none in hand |
| `ClipboardQueue.ClipboardService.CompleteRequest` | src/clipboard.rs:132-149 | confirms exactly on success with a callback, reports a failure, claims nothing without helpers |
| `ClipboardQueue.RunKeepsInv` | src/clipboard.rs:81-149 | every reachable state has one worker at most, requests in order and each in exactly one place, and the callbacks its outcomes call for |
| `ClipboardQueue.EveryRun` | src/clipboard.rs:94-130 | at most one thread ever; processed requests are a subsequence of the submissions; a request is lost only to a newer one |
| `ClipboardQueue.IdleMeansLatestProcessed` | src/clipboard.rs:94-130 | with nothing pending and the worker idle, the last request was processed |
| `ClipboardQueue.CallbacksFollowSuccess` | src/clipboard.rs:132-149 | success callbacks run in order, never twice, exactly for the requests whose helper succeeded |
| `ClipboardQueue.StepTells` | src/clipboard.rs:120-149 | failed helpers and a failed start tell the request's own attachment if it is open, and no other; nothing else tells anybody anything |
| `ClipboardQueue.SlotStepTells` | src/clipboard.rs:20-30 | collecting takes the message of one slot and closing retires one |
| `ClipboardQueue.FailureIsTold` | src/clipboard.rs:132-149 | over every run a failure is told to the open attachment and waits there until it is collected or the attachment closed |
| `ClipboardQueue.FailedStartCanBeRetried` | src/clipboard.rs:81-92 | after a failed start the next attempt can start the worker |
| `ClipboardQueue.ClosedStaysSilent` | src/clipboard.rs:5-41 | nothing is ever shown to a closed attachment |
| `ClipboardWriter.WriteAll` | src/clipboard.rs:202-226 | accepted and remaining bytes are always the input; success exactly when all were accepted; a timeout only once the clock showed the deadline |
| `ClipboardWriter.AwaitExit` | src/clipboard.rs:228-243 | success exactly on a successful exit |
| `ClipboardWriter.Run` | src/clipboard.rs:181-250 | success exactly when every byte was accepted, stdin closed and the helper exited well; otherwise it was killed; returns whenever the clock gets past the deadline |
| `ClipboardWriter.CopyWithTools` | src/clipboard.rs:168-179 | success exactly when some helper succeeded after all earlier ones were tried and failed; later ones are not tried |
| `ClipboardWriter.Complete` | src/clipboard.rs:132-149 | no claim without helpers, success exactly when a helper succeeded |
| `ClipboardWriter.Serve` | src/clipboard.rs:105-149 | a round of the worker: a success callback runs exactly when a helper took every byte of this request's text, saw its end and exited well |
| `InlineMarkdown.ParseInline` | src/changelog.rs:32-112 | the scanning loop with its recursion into captions computes the recursive parse |
| `InlineMarkdown.InlineIsClean` | src/changelog.rs:32-112 | for every input: no empty segment, no code mark, only links that go somewhere, and text that is a subsequence of the input |
| `InlineMarkdown.LinkToNowhereIsText` | src/changelog.rs:78-81 | a link with a blank address is its caption's text |
| `InlineMarkdown.CodeIsKept` | src/changelog.rs:56-61 | code marks go and all text between and around them stays |
| `InlineMarkdown.CodeInCaptionIsKept` | src/changelog.rs:61-90 | so too in the caption of a link |
| `InlineMarkdown.UnclosedStaysPlain` | src/changelog.rs:61-67 | a bracket that nothing closes starts no link |
| `InlineMarkdown.ParsePrintRoundTrip` | src/changelog.rs:32-116 | parsing printed segments gives the segments back, brackets and stars that make no mark included |
| `SnapshotLayout.TreeReader.constructor` | scripts/migrate_from_herdr.py:104 | a tab starts with no ids seen |
| `SnapshotLayout.TreeReader.Tree` | scripts/migrate_from_herdr.py:106-124 | the recursion with its shared set of ids computes the conversion |
| `SnapshotLayout.AcceptedIsFaithful` | scripts/migrate_from_herdr.py:106-124 | an accepted tree keeps nesting, axes, ratios and pane order; its ids are new and distinct and its depth is bounded |
| `SnapshotLayout.SoundIsAccepted` | scripts/migrate_from_herdr.py:106-124 | every sound layout comes through as itself |
| `SnapshotLayout.AcceptedIff` | scripts/migrate_from_herdr.py:106-124 | accepted are exactly the trees of sound layouts of at most 64 levels with distinct ids |
| `SnapshotLayout.World.ConvertTab` | scripts/migrate_from_herdr.py:101-154 | a tab is accepted exactly when its tree and records are valid and match; each record is kept in order |
| `SnapshotLayout.World.TabAcceptedIff` | scripts/migrate_from_herdr.py:101-128 | a tab is accepted exactly when its tree is that of a sound layout, its records' keys are that layout's panes, each is in an existing directory, and its focus can be looked up |
| `SnapshotLayout.World.TabKeepsItsParts` | scripts/migrate_from_herdr.py:126-154 | every record keeps its pane, directory, session and names, and a focus on one of the panes stays |
| `SnapshotLayout.World.TabIsFaithful` | scripts/migrate_from_herdr.py:101-154 | the tree is the original, its leaves are distinct and exactly the records' panes, and the focus is one of them |
| `SnapshotLayout.World.NativeIff` | scripts/migrate_from_herdr.py:129-140 | a session reference is kept exactly if a resume command takes it, and then unchanged |
| `SnapshotLayout.World.NativeIsResumable` | scripts/migrate_from_herdr.py:129-140 | a kept native reference is one a resume command accepts |
| `SnapshotLayout.World.ConvertWorkspace` | scripts/migrate_from_herdr.py:88-161 | accepted exactly when all its tabs are and the active tab exists |
| `SnapshotLayout.World.WorkspaceKeepsNameAndRoot` | scripts/migrate_from_herdr.py:93-98 | its own name and directory count; else the last part of the directory, and the directory of the first tab's root pane |
| `SnapshotLayout.World.WorkspaceHasNameAndPlace` | scripts/migrate_from_herdr.py:90-99 | a converted workspace has a name and an existing directory, in the oldest format that of one of its panes |
| `SnapshotLayout.World.ConvertSnapshot` | scripts/migrate_from_herdr.py:77-167 | accepted exactly when all of it is; the active workspace exists unless there are none |
| `LiveImport.ImportTab` | scripts/migrate_from_herdr.py:226-251 | the loop over a tab's records computes the recursive import |
| `LiveImport.SessionForMeans` | scripts/migrate_from_herdr.py:228-234 | a resumed session matches the record's agent, id and directory, and no other session has that id |
| `LiveImport.SessionForIff` | scripts/migrate_from_herdr.py:228-234 | a record resumes a session exactly when agent, id and directory match, the id is unique, and the directory may be resumed there |
| `LiveImport.RecordIsImported` | scripts/migrate_from_herdr.py:227-251 | a record asks for exactly its own session, if that is the only one with its id and may be resumed there; it leaves the list once the server has answered, and a pane is created either way |
| `LiveImport.TabIsImported` | scripts/migrate_from_herdr.py:226-251 | a tab takes these steps for its records in order, up to the first call that is not answered |
| `LiveImport.TabsAreImported` | scripts/migrate_from_herdr.py:211-251 | all tabs in order, each in its own workspace's directory, up to the first call that is not answered |
| `LiveImport.EveryRecordGetsAPane` | scripts/migrate_from_herdr.py:211-251 | while the server answers, every record of every tab gets a pane |
| `LiveImport.EachSessionResumedAtMostOnce` | scripts/migrate_from_herdr.py:211-251 | over all tabs, wherever a failure ends the import, no session is asked for twice |
| `LiveImport.MappedKeepsShape` | scripts/migrate_from_herdr.py:256-260 | the mapped tree has the same shape, each leaf replaced in place |
| `LiveImport.RemapOfRecords` | scripts/migrate_from_herdr.py:226-251 | the loop builds an injective map from exactly the records' panes when the created ids are distinct |
| `LiveImport.RemapIsPositional` | scripts/migrate_from_herdr.py:226-251 | each record's pane is mapped to the pane created for that record |
| `LiveImport.AppliedLayout` | scripts/migrate_from_herdr.py:256-263 | the layout applied is the tab's own shape with distinct panes, and the focus is one of them |
| `ImportReceipts.RunKeepsInv` | scripts/migrate_from_herdr.py:273-330 | every step of every run, crashes included, keeps who created, installed and appended apart |
| `ImportReceipts.StartedAtMostOnce` | scripts/migrate_from_herdr.py:315-327 | receipt, installation and appending each happen at most once; only the default destination is appended to, and only with a receipt |
| `ImportReceipts.FreshDestinationIsInstalled` | scripts/migrate_from_herdr.py:301-318 | an undisturbed worker installs on a fresh destination and leaves its receipt |
| `ImportReceipts.DefaultInUseIsAppendedTo` | scripts/migrate_from_herdr.py:301-326 | on the default destination in use it marks, appends and completes, and leaves the session file alone |
| `ImportReceipts.NamedInUseIsRefused` | scripts/migrate_from_herdr.py:303-304 | a named destination that exists is refused and left alone |
| `ImportReceipts.ReceiptRefusesNewcomers` | scripts/migrate_from_herdr.py:294-327 | once a run has created a receipt, a later worker stays stopped over every continuation: it installs, appends and creates nothing |
| `ImportReceipts.DeliveredTwiceIff` | scripts/migrate_from_herdr.py:293-327 | a snapshot can be delivered twice exactly where a worker would install it as the default destination |
| `ImportReceipts.DeliveredTwiceOnlyWithoutReceipt` | scripts/migrate_from_herdr.py:293-304 | where it is, the installer never created the receipt: the appender did |
| `ImportReceipts.CrashDeliversTwice` | scripts/migrate_from_herdr.py:315-326 | a run in which it is, with a crash between session file and receipt |
| `ImportReceipts.RaceDeliversTwice` | scripts/migrate_from_herdr.py:315-326 | and one without a crash |

## Left out

- Settings: the concrete schema and its serde encoding, renamed fields included. Decoding is a function with the laws named in `ConfigStore.Decodes`; `ConfigStore.Defaults` is one that fills in missing fields and checks the type of those normalization reads.
- ConfigStore.NoLostUpdates: speaks of a path only if settling the documents the run writes does not change what is read there, since a server that deletes a setting reads its default afterwards; `ConfigStore.NoLostUpdatesWithNormalization` and `ConfigStore.NoLostUpdatesWithDefaults` say when that is so.
- ConfigStore.NormalizeSettles: scrollback sizes are unbounded integers; the saturating multiplication of the source cannot saturate after its clamp.
- Settings: floating-point numbers are reals, so negative zero equals zero; the lock's one-second wait, the temporary file and its replacement are one choice of the environment for each attempt.
- Settings: placing bar items (`BarConfig`) and the in-memory persistence queue around a save, apart from folding explicit patches, would add only easy members.
- Lowercase.TokensCommuteWithLower: the lowercase map works character by character, so the context-dependent form of the Greek final sigma is not captured; the map itself, and the alphabetic and alphanumeric classes, are parameters.
- ProcessIdentity.Walk.CaptureFollowsIff: not for Codex, whose captured flags pass through a filter of another file that may map different flags to the same; `ProcessIdentity.Walk.CaptureFollowsIdentity` includes it.
- ProcessIdentity: the adapters' matchers and Codex's own flag filters are functions of other files and enter as parameters.
- PaneIdentity.Identifier.TranscriptKeepsIdentityIff: for agents whose distinctive names are not empty and hold no newline; a manifest could list others, for which the law of the seam fails (`WordSearch.NewlineNameCrosses`, `WordSearch.EmptyNameIsLost`).
- RuleEngine: the built-in rule list and the manifest files; every result holds for any list.
- LiveScreen.Detector.TranscriptCannotInfluence: the probe that says the input box is live is a parameter; so is the choice between the two forms of screen text.
- ScreenText: rows are given as the characters of their cells; wide characters, zero-width ones and the extra look for Arc Studio's banner on a blank bottom are not modelled.
- LaunchFlags.FilterLaunchFlags: the registry lookup that recognizes Letta is a flag of the model.
- ShellWords.SplitInvertsQuoting: operators, expansions, patterns, comments and open quotes have no word list; no resume command contains them outside quotes.
- Replay.FlagsAreReplayed: the words are those of the text. It is typed into a terminal, where a line editor acts on a carriage return, tab or other control character inside a flag before the shell splits it.
- Replay.CaptureAndReplay: likewise, up to the text that is typed.
- Replay: each agent's template is its plain prefix, with the quoted id and a carriage return after it; forking a session and finding the newest one are not modelled.
- ClipboardQueue.EveryRun: says nothing of fairness: waking the worker is a step that may always be taken, not one that must be. Publishing a failure message in the user's language is one fixed message.
- ClipboardWriter.Run: the helper process, its pipe and the clock are arbitrary answers; the pause between polls and choosing the helpers of a platform are not modelled. How text becomes bytes is a parameter of `ClipboardWriter.Serve`.
- InlineMarkdown.ParsePrintRoundTrip: plain text that holds a code or bold mark, starts a link or meets a star with its own, captions with `]` or a mark, and addresses with `)` or space around them, are not printed in this notation.
- InlineMarkdown: block classification of note lines and word wrapping.
- SnapshotLayout.World.ConvertTab: a focus given as `true` or `1.0` is pane 1 here and in Python, which writes it back in its own form.
- SnapshotLayout.World.ConvertSnapshot: warnings, and which error rejects a snapshot; an old workspace without any pane is rejected like any other invalid one.
- LiveImport.AppliedLayout: that the owner's ids are distinct is the owner's promise; anchors, renaming, focus restoration and the layout call itself are not modelled.
- ImportReceipts.StartedAtMostOnce: the text of session files and receipts beyond what decides a rerun, starting the server, and the coordination over SSH.
