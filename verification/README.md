# EasyMCServer core in Dafny

A model of the logic inside EasyMCServer, an interactive installer and
configurator for Minecraft servers. The prompts, console output,
downloads and process control are left out. What remains is modelled as
pure functions over text, numbers and maps, together with lemmas about
them:

- **The JVM flag file (`jvm_args.txt`).** Four pieces are modelled:
  - the Java release read from a `java -version` banner, and its fixed table of recommended flags;
  - the text the restorer writes;
  - the editor, which covers the version line scan, the section parse, the prompt defaults and the rewrite that activates or comments out each flag;
  - the view of the active flags.
- **The memory-size validator.** It turns `4G`, `1.5G` or `512M` into the text handed to the JVM plus a number to compare. The memory menu reconciles Xmx and Xms with that number.
- **The older memory menu of the legacy command-line module.** It checks sizes inline, refuses an Xms above Xmx, and returns the typed texts verbatim.
- **The start script.** Its file name, its text and its permission are chosen from the platform, the server type and the two sizes.
- **The default install directory** for a server type.
- **The guided edit of `server.properties`.** It covers the per-edition key lists, the defaults taken from the file, and the update of the answered keys.

Python's built-ins are modelled as follows:

- `str.strip`, `lower`, `upper`, `replace`, `split(":")` and `str(int)` are each modelled once, in `Text` and `Numerals`.
- `float()` is modelled on its decimal forms as a `real`.
- A text-mode file read is modelled as universal-newline translation followed by a split after each line end.

The interactive answers are parameters:

- a prompt loop becomes a finite sequence of answers;
- the total and available RAM are numbers passed in.

The start script and the default directory exist twice, once in
`src/easymcserver` and once in the legacy `easymcserver/cli.py`. The two
copies say the same, and one model covers both.

Modules:

| module | file | models |
|---|---|---|
| `Optional`, `Text` | text.dfy | `Option`; Python string operations and reading a text file line by line |
| `Numerals` | numerals.dfy | `float()` on decimals, `str(int)`, `int()` truncation |
| `JavaVersion` | java_version.dfy | `format_java_version_string`, `determine_jvm_args_list` |
| `JvmArgsFile` | jvm_args_file.dfy | `normalize`, the version line scan, the line classifier and the section parse |
| `JvmArgsRestore` | jvm_args_restore.dfy | `restore_jvm_args_file`, with the read-back round trips |
| `ShippedFlags` | shipped_flags.dfy | the fourteen shipped flags, and the restore round trip for each release's own table |
| `JvmArgsRewrite` | jvm_args_rewrite.dfy | the selected-flag set and the rewrite loop of the editor |
| `JvmArgsEdit` | jvm_args_edit.dfy | `edit_jvm_args_file` as a whole: release, regeneration, version test, prompts, save |
| `JvmArgsView` | jvm_args_view.dfy | `view_jvm_args`, as written and as intended |
| `Memory` | memory.dfy | `validate_mem_config`, as written and with megabyte numbers |
| `MemoryMenu` | memory_menu.dfy | the rounds and the reconciliation of `get_memory_menu` |
| `LegacyMemory` | legacy_memory.dfy | the legacy `get_memory_menu` with its inline checks |
| `Launch` | launch.dfy | `create_start_script` |
| `ServerDir` | server_dir.dfy | the default branch of `select_dir` |
| `ServerProperties` | server_properties.dfy | `server_properties` |

## Model

Some functions only compute, and their contracts are stated by the lemmas about them:

- `JvmArgsRestore.RestoreText` by RestoreLinesText, ReadRestored, RecordedRestored and ParseRestored;
- `JvmArgsRewrite.SavedText` by ReadSaved and ParseSaved;
- `JvmArgsView.ViewText` by ViewTextKeepsFlag and the ViewLines lemmas;
- `MemoryMenu.MenuRound` by MenuRoundChosen, MenuRoundErrored and MenuRoundBack;
- `MemoryMenu.Menu` by MenuChosen, MenuNone and RunMenu;
- `LegacyMemory.LegacyReading` and `LegacyMemory.HasUnit` by LegacyRead, LegacyReadG, LegacyReadSmallG, LegacyReadM, LegacyReadSmallM and LegacyReadBare;
- `Memory.Requested` by ValidateRequested and RequestedSizeText;
- `Memory.Gb` by RequestedSizeText, CheckXmxRead and CheckXmsRead;
- `LegacyMemory.CustomMemory` by CustomPicks, CustomBounds, CustomSafe and RunCustom;
- `LegacyMemory.XmxOutcomes` and `LegacyMemory.XmsOutcomes` by XmxOutcomesAt and XmsOutcomesAt;
- `ServerProperties.Apply` by ApplyUpdates and ApplyIdempotent;
- `ServerProperties.Edit` by EditOutcome and EditTouchesOffered;
- `ServerDir.DirName` by the DirName lemmas;
- `Launch.JavaCommand` by JavaCommandWords, CommandJoined and CommandLacks.

| member | source | states |
|---|---|---|
| JavaVersion.FormatJavaVersionString | src/easymcserver/config/jvm_args.py:268-280 | a release is returned exactly when the stripped banner from its fifteenth character on starts with that release's name; otherwise none |
| JavaVersion.PrefixesExclusive | src/easymcserver/config/jvm_args.py:271-278 | no text starts with two release names, so the order of the four tests never decides anything |
| JavaVersion.FormatDependsOnlyOnTail | src/easymcserver/config/jvm_args.py:270 | banners that agree from the fifteenth character on (after stripping) resolve to the same release |
| JavaVersion.OracleBanner | src/easymcserver/config/jvm_args.py:269-278 | a `java version "` banner followed by a release name is recognised as that release |
| JavaVersion.OpenJdkBanner | src/easymcserver/config/jvm_args.py:270-280 | an `openjdk version "` banner is never recognised, whatever follows: from character 14 on, the stripped banner starts with `n`, which no release name does |
| JavaVersion.UnrecognisedAt14 | src/easymcserver/config/jvm_args.py:270-280 | a banner whose fifteenth character is neither whitespace, `1` nor `2` names no release |
| JavaVersion.FlagTable | src/easymcserver/config/jvm_args.py:320-367 | the performance list is always the six flags; G1 comes first; CMS is offered only for 1.8 and compact object headers only for 25; every flag comes from the program's lists |
| JavaVersion.FlagTableByIndex | src/easymcserver/config/jvm_args.py:343-367 | each release picks the GC and memory flags at the indices the program lists |
| JavaVersion.FlagTableInjective | src/easymcserver/config/jvm_args.py:343-367 | different releases recommend different lists |
| JavaVersion.BucketOfValue | src/easymcserver/config/jvm_args.py:343-362 | the `match` arm taken is the release whose number equals the value |
| JavaVersion.DetermineJvmArgsList | src/easymcserver/config/jvm_args.py:318-374 | a release's table is returned exactly when `float(version)` equals that release's number; otherwise there is no table (the unbound variable) |
| JavaVersion.NameValue | src/easymcserver/config/jvm_args.py:343-362 | `float()` reads each release name as that release's number |
| JavaVersion.DetermineForBucket | src/easymcserver/config/jvm_args.py:38-44 | every release the editor can hold has a flag table, so the "no table" error is unreachable from it |
| JvmArgsFile.Normalize | src/easymcserver/config/jvm_args.py:254-255 | the result has no carriage return and no whitespace at either end |
| JvmArgsFile.NormalizeIdempotent | src/easymcserver/config/jvm_args.py:254-255 | normalizing twice is normalizing once |
| JvmArgsFile.NormalizeClean | src/easymcserver/config/jvm_args.py:254-255 | trimmed text without carriage returns is left unchanged |
| JvmArgsFile.RecordedVersion | src/easymcserver/config/jvm_args.py:52-62 | a version is found only if some line names "java version:" (in any case), and none is found when no line does |
| JvmArgsFile.RecordedFirst | src/easymcserver/config/jvm_args.py:52-62 | wherever it stands, the first line naming "java version:" decides: it holds a `:`, and the version is the stripped text between its first and second `:` |
| JvmArgsFile.RecordedHead | src/easymcserver/config/jvm_args.py:55-62 | a naming first line decides at once, with the stripped second `:` field |
| JvmArgsFile.RecordedSecond | src/easymcserver/config/jvm_args.py:55-62 | after one line that does not name the version, a naming second line decides with the stripped text between its first and second `:` |
| JvmArgsFile.RecordedVersionSkip | src/easymcserver/config/jvm_args.py:55-62 | lines that do not name the version are passed over |
| JvmArgsFile.Classify | src/easymcserver/config/jvm_args.py:105-141 | a line is blank exactly when it strips to nothing; a flag is flag-shaped, its canonical text starts with `-` and is normalized, and it is active exactly when the stripped line starts with `-` |
| JvmArgsFile.ClassifyBlankLine | src/easymcserver/config/jvm_args.py:106-108 | a line that strips to nothing is skipped |
| JvmArgsFile.ClassifyMarkerLine | src/easymcserver/config/jvm_args.py:110-123 | a line naming a section marker switches section, even when it is also flag-shaped |
| JvmArgsFile.ClassifyFlagLine | src/easymcserver/config/jvm_args.py:125-132 | a flag-shaped line that names no marker is a flag with the canonical text of the line minus its leading `#`s |
| JvmArgsFile.ClassifyFlagText | src/easymcserver/config/jvm_args.py:126-128 | a flag's text is always the canonical text of its stripped line |
| JvmArgsFile.ClassifyOtherLine | src/easymcserver/config/jvm_args.py:125-141 | any other line is ignored |
| JvmArgsFile.CleanFlagShape | src/easymcserver/config/jvm_args.py:128 | a flag's canonical text starts with `-` and is already normalized |
| JvmArgsFile.AddFlag | src/easymcserver/config/jvm_args.py:130-141 | a flag joins the options and nothing else does; it joins the active list (normalized) only when active |
| JvmArgsFile.ParseFrom | src/easymcserver/config/jvm_args.py:105-141 | every active flag is one of the parsed options |
| JvmArgsFile.ParseSkip | src/easymcserver/config/jvm_args.py:105-123 | a line that is not a flag adds nothing, and a marker line switches the current section |
| JvmArgsFile.ParseFlag | src/easymcserver/config/jvm_args.py:125-141 | a flag line adds its flag to the current section |
| JvmArgsFile.ParseFlagFile | src/easymcserver/config/jvm_args.py:98-141 | the parse starts in Others, and every active flag is an option |
| JvmArgsRestore.CommentedFlags | src/easymcserver/config/jvm_args.py:309-313 | one commented line per flag, in order |
| JvmArgsRestore.CommentedFlagsText | src/easymcserver/config/jvm_args.py:309-313 | the commented lines of a non-empty list spell `#` + `"\n#".join(flags)` + a line end |
| JvmArgsRestore.CommentedBlockText | src/easymcserver/config/jvm_args.py:309-313 | so does the body of any section, an empty list giving a lone `#` |
| JvmArgsRestore.RestoreLinesText | src/easymcserver/config/jvm_args.py:303-315 | the described lines concatenate to exactly the restorer's text |
| JvmArgsRestore.RestoreLinesAreLines | src/easymcserver/config/jvm_args.py:303-315 | every restored line is one complete line without carriage returns |
| JvmArgsRestore.ReadRestored | src/easymcserver/config/jvm_args.py:303-315 | reading a restored file back yields exactly the described lines |
| JvmArgsRestore.ClassifyGcHeader | src/easymcserver/config/jvm_args.py:308 | the GC header switches to the GC section |
| JvmArgsRestore.ClassifyMemoryHeader | src/easymcserver/config/jvm_args.py:310 | the memory header switches to the memory section |
| JvmArgsRestore.ClassifyPerformanceHeader | src/easymcserver/config/jvm_args.py:312 | the performance header switches to the performance section |
| JvmArgsRestore.ClassifyOthersHeader | src/easymcserver/config/jvm_args.py:314 | the Others header switches to Others |
| JvmArgsRestore.ClassifyCommentedFlag | src/easymcserver/config/jvm_args.py:309 | a restored flag line reads back as that flag, inactive |
| JvmArgsRestore.ClassifyLoneHash | src/easymcserver/config/jvm_args.py:309-313 | the lone `#` written for an empty list is not a flag |
| JvmArgsRestore.CommentNotFlag | src/easymcserver/config/jvm_args.py:126 | a line of `#` followed by anything but `-` is never a flag |
| JvmArgsRestore.HeaderLineNotFlag | src/easymcserver/config/jvm_args.py:306 | the warning line is not a flag |
| JvmArgsRestore.VersionLineNotFlag | src/easymcserver/config/jvm_args.py:307 | the version line is not a flag |
| JvmArgsRestore.HeaderLineNamesNoVersion | src/easymcserver/config/jvm_args.py:306 | the warning line says "java version" without the colon, so the scan passes it |
| JvmArgsRestore.VersionLineNamesVersion | src/easymcserver/config/jvm_args.py:307 | the version line is the one the scan stops at |
| JvmArgsRestore.VersionLineField | src/easymcserver/config/jvm_args.py:59-61 | the second `:` field of the version line is the version with a blank before and a line end after |
| JvmArgsRestore.VersionFieldStrip | src/easymcserver/config/jvm_args.py:61 | that field strips back to the version |
| JvmArgsRestore.ParseCommentedFlags | src/easymcserver/config/jvm_args.py:125-141 | commented flags land in order, inactive, in front of the current section's list |
| JvmArgsRestore.ParseCommentedBlock | src/easymcserver/config/jvm_args.py:125-141 | a section body parses to its flags |
| JvmArgsRestore.ParseBlankHeader | src/easymcserver/config/jvm_args.py:105-123 | a blank line and a header switch section and add nothing |
| JvmArgsRestore.ParseSectionLines | src/easymcserver/config/jvm_args.py:105-141 | the section lines parse to the three lists, no Others and no active flag |
| JvmArgsRestore.ParseRestoreLines | src/easymcserver/config/jvm_args.py:303-315 | the restored lines parse to the restorer's three lists, all inactive, with no Others |
| JvmArgsRestore.ParseRestored | src/easymcserver/config/jvm_args.py:94-141 | restore, read and parse give back the three lists, no Others and no active flag |
| JvmArgsRestore.RecordedLead | src/easymcserver/config/jvm_args.py:55-62 | a warning line then a version line: the scan reads the version off the second |
| JvmArgsRestore.RecordedRestoreLines | src/easymcserver/config/jvm_args.py:303-307 | the scan over the restored lines finds the version written |
| JvmArgsRestore.ReadRestoredLead | src/easymcserver/config/jvm_args.py:54-55 | reading a restored file yields the warning and version lines first, whatever the flags |
| JvmArgsRestore.RecordedRestored | src/easymcserver/config/jvm_args.py:52-62 | reading the written file finds the version the restorer wrote |
| ShippedFlags.GarbageCollectorsPlain | src/easymcserver/config/jvm_args.py:320-326 | each of the five GC flags starts with `-`, holds no whitespace and does not spell "others" in any case, so it cannot pass for the Others header |
| ShippedFlags.MemoryManagersPlain | src/easymcserver/config/jvm_args.py:328-332 | so does each of the three memory flags |
| ShippedFlags.PerformanceOptionsPlain | src/easymcserver/config/jvm_args.py:334-341 | so does each of the six performance flags |
| ShippedFlags.FlagTablePlain | src/easymcserver/config/jvm_args.py:320-367 | every list of every release's flag table is made of such flags |
| ShippedFlags.ParseRestoredTable | src/easymcserver/config/jvm_args.py:303-315 | restoring a release's own table, reading the file back and parsing it gives that table's three lists, every flag inactive, with no Others |
| JvmArgsRewrite.SelectedSet | src/easymcserver/config/jvm_args.py:221-226 | a flag is selected exactly when it is the GC pick or in one of the three checkbox answers |
| JvmArgsRewrite.RewriteLine | src/easymcserver/config/jvm_args.py:230-241 | every written line ends with a line end |
| JvmArgsRewrite.RewriteKeepsText | src/easymcserver/config/jvm_args.py:240-241 | a line that is not a flag is written as read, with at most a line end added |
| JvmArgsRewrite.RewriteOtherOf | src/easymcserver/config/jvm_args.py:240-241 | a complete line that is not a flag is written unchanged, whatever the selection |
| JvmArgsRewrite.WrittenFlagFixed | src/easymcserver/config/jvm_args.py:233-239 | a written flag line is written again unchanged |
| JvmArgsRewrite.ActiveFixed | src/easymcserver/config/jvm_args.py:236-237 | a selected flag written active stays active |
| JvmArgsRewrite.CommentedFixed | src/easymcserver/config/jvm_args.py:238-239 | an unselected flag written commented stays commented |
| JvmArgsRewrite.MarkerAfterHash | src/easymcserver/config/jvm_args.py:112-123 | a `#` in front changes no marker test |
| JvmArgsRewrite.MarkerLStrip | src/easymcserver/config/jvm_args.py:112-128 | dropping leading `#`s changes no marker test |
| JvmArgsRewrite.CleanFlagPlain | src/easymcserver/config/jvm_args.py:234 | without carriage returns, a flag's canonical text is the stripped line minus its leading `#`s |
| JvmArgsRewrite.RewriteClassify | src/easymcserver/config/jvm_args.py:230-241 | a rewritten line classifies as the original did, with a flag active exactly when selected |
| JvmArgsRewrite.RewriteWritten | src/easymcserver/config/jvm_args.py:229-241 | a line read from the file is written back as one complete line |
| JvmArgsRewrite.RewriteLineIdempotent | src/easymcserver/config/jvm_args.py:230-241 | for a line without carriage returns, rewriting twice with the same selection is rewriting once |
| JvmArgsRewrite.RewriteLines | src/easymcserver/config/jvm_args.py:229-241 | one written line per line read, in the same order |
| JvmArgsRewrite.RewriteLinesWritten | src/easymcserver/config/jvm_args.py:229-241 | every line of the saved file is complete |
| JvmArgsRewrite.ReadSaved | src/easymcserver/config/jvm_args.py:229-241 | reading the saved file gives back exactly the rewritten lines |
| JvmArgsRewrite.ParseRewriteFrom | src/easymcserver/config/jvm_args.py:105-141 | parsing the rewritten lines gives the same option lists, and the active flags are exactly the selected options |
| JvmArgsRewrite.AddFlagReparsed | src/easymcserver/config/jvm_args.py:130-141 | adding the same flag to both parses keeps that relation |
| JvmArgsRewrite.ParseSaved | src/easymcserver/config/jvm_args.py:94-241 | the same holds from any file text: read, rewrite, save, read and parse |
| JvmArgsRewrite.SaveIdempotent | src/easymcserver/config/jvm_args.py:229-241 | saving the saved file again with the same selection changes nothing |
| JvmArgsEdit.Release | src/easymcserver/config/jvm_args.py:17-36 | the recognised release is used; otherwise the hand-picked one, or none for "Sair" |
| JvmArgsEdit.Prepared | src/easymcserver/config/jvm_args.py:46-49 | a non-empty file is kept; a missing or empty one is replaced by a fresh one |
| JvmArgsEdit.Checked | src/easymcserver/config/jvm_args.py:51-85 | the run crashes exactly when the recorded version does not read; the file changes only on a confirmed mismatch |
| JvmArgsEdit.FirstActive | src/easymcserver/config/jvm_args.py:146-151 | the option found is active after normalization; none is found when no option is active |
| JvmArgsEdit.FirstActiveIsFirst | src/easymcserver/config/jvm_args.py:146-151 | every option before the one found is inactive |
| JvmArgsEdit.DefaultGc | src/easymcserver/config/jvm_args.py:145-161 | there is no GC default without options; with options it is the first active one, else the first option |
| JvmArgsEdit.PreChecked | src/easymcserver/config/jvm_args.py:168-171 | a checkbox opens with exactly the options that are active |
| JvmArgsEdit.PromptDefaults | src/easymcserver/config/jvm_args.py:143-218 | memory and performance open on their active options, Others on none, and GC has a default exactly when it has options |
| JvmArgsEdit.ChosenMembers | src/easymcserver/config/jvm_args.py:220-226 | a flag is selected exactly when a prompt that was shown returned it |
| JvmArgsEdit.Chosen | src/easymcserver/config/jvm_args.py:220-226 | a flag is selected exactly when it is the non-empty GC answer or a memory, performance or Others answer, each counted only when its prompt was shown |
| JvmArgsEdit.Finish | src/easymcserver/config/jvm_args.py:87-251 | read mode shows the file's text; an interrupted prompt leaves the file; otherwise the file is saved |
| JvmArgsEdit.Continue | src/easymcserver/config/jvm_args.py:63-251 | the run crashes exactly when the recorded version does not read, and the file is then untouched |
| JvmArgsEdit.Edit | src/easymcserver/config/jvm_args.py:11-36 | without a Java banner the run returns at once; without a release it is declined |
| JvmArgsEdit.EditRelease | src/easymcserver/config/jvm_args.py:37-49 | with a release the run goes on with its table and the prepared file, never reaching the missing-table branch |
| JvmArgsEdit.ContinueCompatible | src/easymcserver/config/jvm_args.py:82-89 | a file that passes the version test reaches the mode unchanged |
| JvmArgsEdit.ContinueMismatch | src/easymcserver/config/jvm_args.py:64-80 | on a mismatch the confirmation decides whether the mode sees a fresh file or the old one |
| JvmArgsEdit.VersionCheck | src/easymcserver/config/jvm_args.py:64-85 | the file is compatible exactly when it records a non-empty version that `float()` reads as the running release's number; it is unreadable exactly when no version is recorded, or the recorded one is empty or not a number; otherwise it is incompatible |
| JvmArgsEdit.RestoredCompatible | src/easymcserver/config/jvm_args.py:303-307 | a freshly restored file always passes the version test |
| JvmArgsEdit.EditFreshFile | src/easymcserver/config/jvm_args.py:46-89 | reading with a missing or empty file shows the fresh file |
| JvmArgsEdit.EditMismatchKept | src/easymcserver/config/jvm_args.py:64-80 | a file written for another release is kept when the refresh is declined |
| JvmArgsEdit.EditMismatchRefreshed | src/easymcserver/config/jvm_args.py:79-80 | a confirmed refresh rewrites the file, which then matches the running release |
| JvmArgsEdit.EditNoVersionLine | src/easymcserver/config/jvm_args.py:64-82 | a non-empty file with no version line makes `float(None)` raise, whatever the answers |
| JvmArgsEdit.EditSaves | src/easymcserver/config/jvm_args.py:91-241 | a save writes the rewritten lines, whose parse has the same options with exactly the selected ones active |
| JvmArgsEdit.EditInterrupted | src/easymcserver/config/jvm_args.py:247-251 | an interrupted prompt writes nothing |
| JvmArgsEdit.ParsedNormal | src/easymcserver/config/jvm_args.py:128-141 | every parsed option is already normalized |
| JvmArgsEdit.ReparsedDefaults | src/easymcserver/config/jvm_args.py:164-199 | after a save, each checkbox opens on exactly the selected options |
| JvmArgsEdit.ReparsedGc | src/easymcserver/config/jvm_args.py:145-159 | after a save with one GC option selected, that option is the GC default |
| JvmArgsEdit.SavedDefaults | src/easymcserver/config/jvm_args.py:143-241 | the same from the saved file's text |
| JvmArgsEdit.SavedGcDefault | src/easymcserver/config/jvm_args.py:143-241 | the next GC prompt opens on the one GC option selected |
| JvmArgsView.ViewLines | src/easymcserver/config/jvm_args.py:261-264 | the view keeps at most one line per line read |
| JvmArgsView.ViewLinesTrimmed | src/easymcserver/config/jvm_args.py:262-264 | every line shown is non-empty and stripped at both ends |
| JvmArgsView.ShownFlag | src/easymcserver/config/jvm_args.py:262-264 | a flag line is shown exactly when it is active, and then as its canonical text |
| JvmArgsView.ViewLinesNoBreak | src/easymcserver/config/jvm_args.py:261-264 | no shown line holds a line break |
| JvmArgsView.ReadView | src/easymcserver/config/jvm_args.py:258-265 | reading the view's text back gives one line per shown line |
| JvmArgsView.HiddenShowsNothing | src/easymcserver/config/jvm_args.py:262 | blank and commented lines show nothing |
| JvmArgsView.SectionLinesHidden | src/easymcserver/config/jvm_args.py:308-314 | every restored section line is blank or commented |
| JvmArgsView.LeadLinesHidden | src/easymcserver/config/jvm_args.py:306-308 | so are the first four restored lines |
| JvmArgsView.FreshViewEmpty | src/easymcserver/config/jvm_args.py:303-315 | a freshly restored file shows no flag |
| JvmArgsView.ViewAsWritten | src/easymcserver/config/jvm_args.py:258-265 | the loop as written produces at most two characters per character of the text |
| JvmArgsView.ViewAsWrittenShape | src/easymcserver/config/jvm_args.py:261-264 | as written, the output alternates a shown character and a line end |
| JvmArgsView.ShownChar | src/easymcserver/config/jvm_args.py:262 | a one-character line is shown exactly when the character is neither whitespace nor `#` |
| JvmArgsView.ViewAsWrittenCons | src/easymcserver/config/jvm_args.py:261-264 | one character of the loop as written |
| JvmArgsView.ViewAsWrittenSplits | src/easymcserver/config/jvm_args.py:261-264 | as written, a flag line comes out one character per line |
| JvmArgsView.ViewTextKeepsFlag | src/easymcserver/config/jvm_args.py:261-264 | walking lines, a flag line comes out as the flag on one line |
| JvmArgsView.ViewAsWrittenBreaksFlags | src/easymcserver/config/jvm_args.py:258-265 | for every flag of two or more characters the loop as written and the line walk disagree |
| Memory.Read | src/easymcserver/system/memory.py:78-87 | a reading's unit letter is in the text; megabytes only without `G`; no reading without `G` or `M` |
| Memory.RequestedSizeText | src/easymcserver/system/memory.py:78-87 | a size text the validator produces asks for its number of gigabytes when in `G`, and for its number over 1024 when in `M` |
| Memory.Validate | src/easymcserver/system/memory.py:69-72 | only the empty text gives the bare `False` |
| Memory.ValidateRequested | src/easymcserver/system/memory.py:76-101 | a size is refused as malformed exactly when it does not read, refused as too large exactly when it asks for more than the total, and accepted otherwise; equality with the total is accepted, and there is no lower bound |
| Memory.ValidateIgnoresCase | src/easymcserver/system/memory.py:76 | `4g` and `4G` validate alike |
| Memory.ReadNumeral | src/easymcserver/system/memory.py:78-85 | a numeral followed by its unit letter reads as that number in that unit |
| Memory.SizeTextReads | src/easymcserver/system/memory.py:103-113 | a produced size reads back as its number in its unit |
| Memory.Sized | src/easymcserver/system/memory.py:103-113 | a size read with a unit is always accepted |
| Memory.SizedText | src/easymcserver/system/memory.py:103-113 | a whole number of gigabytes stays in `G`; anything else becomes truncated megabytes |
| Memory.SizedAmount | src/easymcserver/system/memory.py:103-113 | gigabyte input hands back the number of its text: whole gigabytes in `G`, or `int(v * 1024)` megabytes in `M` for a fraction; megabyte input keeps `M` and hands back `int()` of the gigabytes |
| Memory.SizedOfText | src/easymcserver/system/memory.py:103-113 | the validator reproduces the text of a size it reads back |
| Memory.AcceptedSized | src/easymcserver/system/memory.py:89-113 | an accepted size is what lines 103-113 make of the request, which is within the total |
| Memory.SizeShapeOf | src/easymcserver/system/memory.py:103-113 | every accepted size is a printed whole number followed by a unit letter |
| Memory.AcceptedSize | src/easymcserver/system/memory.py:103-113 | the accepted text asks for at most the request and loses less than one megabyte |
| Memory.AcceptedStable | src/easymcserver/system/memory.py:69-113 | validating an accepted size again accepts the same text |
| Memory.ReadHalfGigabyte | src/easymcserver/system/memory.py:78-81 | "1.5G" reads as one and a half gigabytes |
| Memory.HalfGigabyteAsWritten | src/easymcserver/system/memory.py:106-109 | "1.5G" is accepted as "1536M" with the number 1536 (megabytes) |
| Memory.SameSizeAsWritten | src/easymcserver/system/memory.py:111-113 | "1536M" is accepted as itself with the number 1 (gigabytes) |
| Memory.ValidateMb | src/easymcserver/system/memory.py:69-72 | the corrected validator also gives the bare `False` only for the empty text |
| Memory.ValidateMbAgrees | src/easymcserver/system/memory.py:69-113 | the corrected validator accepts and refuses exactly as written, with the same texts |
| Memory.SizedMbText | src/easymcserver/system/memory.py:103-113 | under the correction, each text asks for the number handed back, over 1024, in gigabytes |
| Memory.ValidateMbAmount | src/easymcserver/system/memory.py:103-113 | under the correction, the number handed back is always the accepted text's size in megabytes |
| Memory.HalfGigabyteCorrected | src/easymcserver/system/memory.py:106-113 | under the correction, "1.5G" and "1536M" hand back the same number |
| MemoryMenu.Reconcile | src/easymcserver/ui/menus.py:434-448 | Xms is always returned unchanged |
| MemoryMenu.ReconcileAdjusts | src/easymcserver/ui/menus.py:434-443 | Xmx changes only when the pair is adjusted, and then it becomes the Xms text; it is adjusted exactly when the Xms number exceeds the Xmx number |
| MemoryMenu.ReconcileIdempotent | src/easymcserver/ui/menus.py:434-443 | reconciling the result again, with Xmx's number following its text, changes nothing and adjusts nothing |
| MemoryMenu.ReconcileAdvisory | src/easymcserver/ui/menus.py:444-448 | the available RAM decides only the swap warning, never the pair |
| MemoryMenu.MenuRoundChosen | src/easymcserver/ui/menus.py:410-448 | a round ends the menu exactly when both answers are accepted; Xms is returned as validated, and Xmx as validated or equal to Xms |
| MemoryMenu.MenuRoundErrored | src/easymcserver/ui/menus.py:423-431 | an empty Xmx answer, or an empty Xms answer after an accepted Xmx, makes the unpacking raise |
| MemoryMenu.MenuRoundBack | src/easymcserver/ui/menus.py:410-431 | a round goes back to the mode prompt exactly when the Xmx answer is refused, or it is accepted and the Xms answer is refused |
| MemoryMenu.FirstChoiceAt | src/easymcserver/ui/menus.py:393-448 | a choice comes from a round that ends the menu, and every round before it went back |
| MemoryMenu.FirstChoiceNone | src/easymcserver/ui/menus.py:393-448 | without a choice no round ended the menu |
| MemoryMenu.Outcomes | src/easymcserver/ui/menus.py:393-448 | the rounds' outcomes, one per round in order |
| MemoryMenu.RunMenu | src/easymcserver/ui/menus.py:393-458 | the loop returns what the round-by-round description returns, after at most the rounds given |
| MemoryMenu.MenuChosen | src/easymcserver/ui/menus.py:393-448 | the menu returns the reconciled pair of the first round with both answers accepted |
| MemoryMenu.MenuNone | src/easymcserver/ui/menus.py:393-458 | a menu that never returns went back or failed in every round |
| MemoryMenu.TwoGigabytes | src/easymcserver/system/memory.py:103-105 | "2G" is accepted as itself with the number 2 |
| MemoryMenu.OneGigabyte | src/easymcserver/system/memory.py:103-105 | "1G" is accepted as itself with the number 1 |
| MemoryMenu.ShrunkXmxAsWritten | src/easymcserver/ui/menus.py:434-443 | as written, Xmx "2G" with Xms "1.5G" makes Xmx "1536M" |
| MemoryMenu.InvertedPairAsWritten | src/easymcserver/ui/menus.py:434-448 | as written, Xmx "1G" with Xms "1536M" is returned with Xms above Xmx and no adjustment |
| MemoryMenu.ReconcileMb | src/easymcserver/ui/menus.py:434-448 | the corrected reconciliation also returns Xms unchanged |
| MemoryMenu.MenuRoundMbAgrees | src/easymcserver/ui/menus.py:410-448 | the corrected round ends the menu on the same answers and returns the same Xms |
| MemoryMenu.MenuRoundMbOrdered | src/easymcserver/ui/menus.py:434-448 | under the correction the returned Xms never asks for more than the returned Xmx, and the swap warning compares Xms with the available RAM |
| MemoryMenu.ReconcileMbOrdered | src/easymcserver/ui/menus.py:434-448 | the same for any two texts that ask for their megabyte numbers |
| LegacyMemory.LetterNotNumeral | easymcserver/cli.py:132-136 | a lower-case letter makes `float()` fail |
| LegacyMemory.LetterSpoils | easymcserver/cli.py:132-136 | a lower-case letter left after removing the unit makes the prompt's `float()` fail |
| LegacyMemory.LegacyReadG | easymcserver/cli.py:132-142 | with a capital `G` the prompt reads gigabytes as the validator does |
| LegacyMemory.LegacyReadSmallG | easymcserver/cli.py:132-136 | a lower-case `g` without a capital one fails |
| LegacyMemory.LegacyReadM | easymcserver/cli.py:132-142 | with a capital `M` and no `G` the prompt reads megabytes as the validator does |
| LegacyMemory.LegacyReadSmallM | easymcserver/cli.py:132-136 | a lower-case `m` as the only unit fails |
| LegacyMemory.LegacyReadBare | easymcserver/cli.py:138-142 | a text without unit letters is refused even when it is a number |
| LegacyMemory.LegacyRead | easymcserver/cli.py:132-142 | the prompt reads a size exactly when the validator's reader does, and then to the same reading |
| LegacyMemory.CheckXmx | easymcserver/cli.py:129-145 | an accepted Xmx has a unit letter of either case and is within the total; a refusal as too large is of a size that reads and exceeds the total |
| LegacyMemory.CheckXms | easymcserver/cli.py:156-177 | an accepted Xms has a unit letter and is within both the total and Xmx; a refusal as too large is of a size that reads and exceeds one of them |
| LegacyMemory.CheckXmxRead | easymcserver/cli.py:129-145 | Xmx is refused as malformed exactly when it does not read, as too large exactly when it exceeds the total, and accepted at the total |
| LegacyMemory.CheckXmsRead | easymcserver/cli.py:156-177 | Xms is accepted exactly when it reads and is within both the total and Xmx; equality with Xmx is accepted |
| LegacyMemory.LowercaseRefused | easymcserver/cli.py:132-142 | without a capital `G` or `M` a size is refused: "4g", "512m" and "4096" alike |
| LegacyMemory.CanonicalAgrees | easymcserver/cli.py:129-145 | on upper-case stripped text the legacy Xmx check accepts exactly what the newer validator accepts, for the same number |
| LegacyMemory.FirstFit | easymcserver/cli.py:129-145 | the answer found passes and every earlier one failed; none is found when no answer passes |
| LegacyMemory.FirstFitIs | easymcserver/cli.py:129-145 | the first passing answer is the one found |
| LegacyMemory.FirstFitNone | easymcserver/cli.py:129-145 | with no passing answer none is found |
| LegacyMemory.XmxOutcomesAt | easymcserver/cli.py:127-153 | the Xmx prompt's verdict at each position is its check of the answer typed there; `XmxOutcomes` has one verdict per answer |
| LegacyMemory.XmsOutcomesAt | easymcserver/cli.py:155-185 | the Xms prompt's verdict, against the chosen Xmx, at each position is its check of the answer typed there; `XmsOutcomes` has one verdict per answer |
| LegacyMemory.ScanFirst | easymcserver/cli.py:129-153 | the prompt loop stops at the first passing answer |
| LegacyMemory.RunCustom | easymcserver/cli.py:126-187 | the custom mode run prompt by prompt returns what the description returns |
| LegacyMemory.RunXms | easymcserver/cli.py:155-187 | the Xms prompt run after the accepted Xmx answer returns what the description of custom mode returns |
| LegacyMemory.XmxPicked | easymcserver/cli.py:129-145 | the Xmx answer the loop stops at passes the Xmx check |
| LegacyMemory.XmsPicked | easymcserver/cli.py:156-177 | the Xms answer the loop stops at passes the Xms check |
| LegacyMemory.CustomPicks | easymcserver/cli.py:126-187 | custom mode returns, verbatim, the first passing Xmx answer and the first passing Xms answer after it |
| LegacyMemory.CustomBounds | easymcserver/cli.py:126-187 | both returned sizes read, with Xms within Xmx within the total |
| LegacyMemory.CustomSafe | easymcserver/cli.py:126-187 | custom mode returns two typed answers, Xmx before Xms, both readable, with Xms within Xmx within the total |
| LegacyMemory.LegacyMenu | easymcserver/cli.py:106-187 | the menu returns nothing only in custom mode, when the answers run out |
| LegacyMemory.LegacyMenuCustom | easymcserver/cli.py:126-187 | in custom mode the menu returns two typed answers, Xmx before Xms, verbatim, both readable, with Xms within Xmx |
| LegacyMemory.CustomRetries | easymcserver/cli.py:146-153 | every answer before the accepted Xmx was refused |
| LegacyMemory.PresetListed | easymcserver/cli.py:80-103 | "2G" is offered for Xmx and "4G" for Xms |
| LegacyMemory.PresetUnchecked | easymcserver/cli.py:122-124 | preset picks are returned unchecked, even Xms "4G" above Xmx "2G" |
| Launch.StartScript | src/easymcserver/utils.py:32-59 | the script is executable exactly on POSIX, and a `.bat` exactly on Windows |
| Launch.CommandJoined | src/easymcserver/utils.py:42 | the command line is its six words joined by blanks |
| Launch.CommandLacks | src/easymcserver/utils.py:42 | the command holds a line break only if one of the sizes does |
| Launch.JavaCommandWords | src/easymcserver/utils.py:42-50 | the sizes are embedded verbatim: split on blanks, the command is `java`, `-Xmx` + Xmx, `-Xms` + Xms, `-jar`, `server.jar`, `nogui` |
| Launch.OnlyBedrockDiffers | easymcserver/cli.py:234-250 | every server type other than "Bedrock" gets the Java script |
| Launch.BedrockIgnoresMemory | src/easymcserver/utils.py:38-47 | the Bedrock script runs the server binary and ignores the sizes |
| Launch.PosixLines | src/easymcserver/utils.py:49-51 | a bash script reads as the interpreter line and one command line |
| Launch.WindowsLines | src/easymcserver/utils.py:42 | a batch file reads as one command line and `pause` |
| Launch.JavaScriptLines | src/easymcserver/utils.py:35-51 | the Java script is `#!/bin/bash` then the command on POSIX, and the command then `pause` on Windows |
| ServerDir.DefaultDir | src/easymcserver/ui/menus.py:200-203 | the directory starts with `./`, ends with `_server`, and holds the type's name in between |
| ServerDir.DirNameClean | src/easymcserver/ui/menus.py:201 | the name holds no blank and no ASCII capital letter |
| ServerDir.DirNamePlain | src/easymcserver/ui/menus.py:201 | a type without blanks becomes its lower-case form |
| ServerDir.DirNameMods | src/easymcserver/ui/menus.py:201 | the " (Mods)" qualifier is dropped |
| ServerDir.DirNameOptimised | src/easymcserver/ui/menus.py:201 | the " (Otimizado)" qualifier is dropped |
| ServerDir.DefaultDirPlain | easymcserver/cli.py:278 | a one-word type gives `./` + that word in lower case + `_server` |
| ServerDir.DefaultDirMods | easymcserver/cli.py:278 | a modded type gives the same without its qualifier, for NeoForge and Fabric alike |
| ServerDir.DefaultDirOptimised | easymcserver/cli.py:278 | an optimised type gives the same without its qualifier |
| ServerDir.VanillaDir | easymcserver/cli.py:381 | "Vanilla" installs to `./vanilla_server` |
| ServerDir.PaperDir | easymcserver/cli.py:382 | "Paper (Otimizado)" installs to `./paper_server` |
| ServerDir.NeoForgeDir | easymcserver/cli.py:383 | "NeoForge (Mods)" installs to `./neoforge_server` |
| ServerProperties.OfferedKeys | src/easymcserver/config/properties.py:70-99 | there is a key list exactly for "Java" and "Bedrock" |
| ServerProperties.Questions | src/easymcserver/config/properties.py:101-114 | one question per offered key, in order, defaulting to the key's current value or "" |
| ServerProperties.ApplyUpdates | src/easymcserver/config/properties.py:123-125 | the answered keys take their answers, every other key keeps its value, and no other key appears |
| ServerProperties.ApplyIdempotent | src/easymcserver/config/properties.py:123-125 | applying the same answers twice is applying them once |
| ServerProperties.EditOutcome | src/easymcserver/config/properties.py:31-129 | a missing file and an unknown edition stop the edit, no answers write nothing, and otherwise the answers are applied |
| ServerProperties.EditTouchesOffered | src/easymcserver/config/properties.py:101-125 | answers to the offered questions change no key outside the offered list |
| ServerProperties.DefaultsCurrent | src/easymcserver/config/properties.py:103-114 | the defaults answer exactly the offered keys, each with its current value |
| ServerProperties.KeepDefaults | src/easymcserver/config/properties.py:103-125 | keeping every default leaves existing values and adds each missing offered key as "" |
| ServerProperties.ElevenKeys | src/easymcserver/config/properties.py:71-99 | each edition offers eleven different keys |
| ServerProperties.EditionKeys | src/easymcserver/config/properties.py:71-99 | Bedrock offers the Java keys without generate-structures, spawn-protection and motd, plus allow-cheats, max-threads and server-name |
| Numerals.ParseDecimal | src/easymcserver/system/memory.py:80-84 | a reading needs a non-blank text, and a negative reading a leading `-` |
| Numerals.ParseDecimalChars | src/easymcserver/system/memory.py:80-84 | every character `float()` accepts is whitespace, a sign, a digit or the point |
| Numerals.IntToStringRoundTrip | src/easymcserver/system/memory.py:105 | printing an integer and reading it back with `float()` gives the same number |
| Numerals.NatToString | src/easymcserver/system/memory.py:105 | a natural number prints as a non-empty run of digits whose value is that number |
| Numerals.IntToString | src/easymcserver/system/memory.py:105 | an integer prints as digits, after a `-` exactly when it is negative |
| Numerals.Trunc | src/easymcserver/system/memory.py:104-113 | `int()` truncates toward zero |

## Left out

- Prompts, console output and `time.sleep` are left out. Each answer is a parameter, and a prompt loop is a finite sequence of answers. `None` stands for "the answers ran out".
- `get_sys_memory` is left out; the total and available RAM are parameters of type `real`. Its rounding and psutil are not modelled.
- Floating point is left out. `float()` is modelled on `[ws][sign]digits[.digits]` (or `.digits`) as an exact `real`. Exponents, `inf`, `nan` and underscores are refused, where Python would accept them.
- File I/O is left out. Files are texts and maps, and this covers `os.path.exists`, `os.path.join` and `os.path.getsize`, the writes and `os.chmod`. `Script.executable` says whether mode 755 is set.
- Windows newline translation on write is left out: `"\n"` is written as is. Reading does translate, as Python's text mode does, with universal newlines.
- Whether the `Others` checkbox has pre-ticked options is left out. It is given plain choices and its `default` is ignored, so it opens with nothing ticked. The model takes its answer as given.
- Two things about the properties library are left out: the jproperties layout and comment preservation, and the failing-import branch (properties.py:58-64). The file is a `map<string, string>`.
- The edition prompt of `server_properties` is left out; the version is a parameter.
- The outer retry loops on unexpected exceptions are not modelled as loops. In the memory menus, such an exception ends a round as `Errored`.
- The downloads, Java and architecture probes, the server start-stop and the menu navigation are left out, and so is `main_menu`. None of them holds logic to model.
- JvmArgsFile.RecordedVersion: its own contract says only whether a version is found. The value, the stripped second field of the first naming line, is stated by RecordedFirst.
- JvmArgsView.ViewLines: its own contract bounds only the length. That the shown lines are trimmed is stated separately by ViewLinesTrimmed.
- Numerals.ParseDecimal: `float()` also accepts non-ASCII decimal digits, such as the Arabic-Indic digits in "١٢G". The model reads ASCII digits only, so it refuses such a size where the program would take it.
- `view_jvm_args` (jvm_args.py:259-261) iterates over what `edit_jvm_args_file` returns. On the early returns (no Java, declined release) that is `None`, and the loop raises `TypeError`. The view is modelled over a file that was read; that crash is not modelled.
- Text.Lower: like Text.Upper, it maps the ASCII letters only, where Python's `lower()` and `upper()` follow Unicode. Every text the core case-maps and then tests is matched against ASCII: "java version:", the section markers, `G` and `M`, the server types. So non-ASCII case mappings are not modelled.
- Memory.Sized: its own contract says only that it accepts. The text and the number it hands back are stated by SizedAmount; the text alone also by SizedText.

## Findings

| source | as written | input that shows it | evidently intended | confidence | as-written member | corrected member |
|---|---|---|---|---|---|---|
| src/easymcserver/config/jvm_args.py:258-265 | `view_jvm_args` loops over the text returned by `edit_jvm_args_file(directory, "r")`, so each "line" is one character | a file holding `-Xa` then a line end is shown as `-`, `X` and `a` on three lines | walk the file's lines, showing each active flag once, stripped | high, not executed | JvmArgsView.ViewAsWrittenBreaksFlags | JvmArgsView.ReadView |
| src/easymcserver/system/memory.py:103-113 | the second value is megabytes for fractional gigabytes and truncated gigabytes otherwise | "1.5G" gives ("1536M", 1536) while "1536M" gives ("1536M", 1) | one unit for every number handed back | high, not executed | Memory.HalfGigabyteAsWritten | Memory.ValidateMbAmount |
| src/easymcserver/ui/menus.py:434-443 | Xms and Xmx are compared on those mixed-unit numbers | Xmx "2G" with Xms "1.5G" shrinks Xmx to "1536M"; Xmx "1G" with Xms "1536M" returns Xms above Xmx | Xmx is raised to Xms only when Xms is really larger, so the returned Xms never exceeds Xmx | high, not executed | MemoryMenu.ShrunkXmxAsWritten | MemoryMenu.MenuRoundMbOrdered |
