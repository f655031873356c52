# The release and update pipeline, modelled in Dafny

This project models the part of `backup_database` that carries a release to a
machine and keeps the machine in working order while it is replaced:

- **The environment file.** A release stamps its version into the example file
  (`UpdateVersion`), and the installer merges that file into the machine's own
  (`EnvText`, `MergeEnv`, `MergeScript`, `MergeTheorems`). The merge is a text rewriter;
  what it is for is a statement about the map of keys. The project proves when
  the text rewriter refines a map merge, when a second run changes no character, that
  the order of a hashtable does not show, and exactly when a managed key is updated.
- **The update feed.** The feed is rebuilt from the published releases or edited by
  hand (`Order`, `Timestamps`, `PyLines`, `Sidecar`, `Appcast`, `AppcastTheorems`,
  `FeedFile`). The builder is proved against a specification that determines its
  result, then against policy edits, reordered release lists and passing time.
- **The handoff.** A context file and the record of a Windows service survive the
  replacement of the program (`Nssm`, `Handoff`, `HandoffTheorems`, `ServiceUtils`,
  `Setup`). Each script is a sequence of commands; every command may fail, may leave
  any service record behind, and may be the one during which the process dies. The
  theorems hold for every sequence of such answers.
- **Two codecs and one filter.** The icon reader against the icon builder (`Ico`), the
  profile scanner's JSON against a reader that follows section 7 of RFC 8259
  (`JsonText`, `ProfileScanner`), and the coverage filter (`Lcov`).

Scripts that update variables, files or the service step by step are methods and
classes, proved against functions; the theorems are lemmas about those functions.
Characters are code points; a key or line "up to case" means up to ASCII case. The
outside world (downloads, clocks, exit codes, enumeration orders) is a parameter.

## Where the code does not do what is expected of it

Each of these has a lemma that shows the failing input, and an exact condition.

- The header of `installer/merge_env.ps1` (lines 5-6) says that system-managed keys are
  always overwritten. The comparison in line 158 ignores case
  (`MergeTheorems.CaseOnlyChangeIsNotApplied`), and rewriting hits the first definition
  while reading takes the last (`MergeTheorems.DuplicateHidesTheUpdate`).
  `MergeTheorems.ManagedKeyUpdated` gives the condition.
- `installer/merge_env.ps1` line 171 enumerates `$exampleMap.Keys`. In PowerShell an entry
  of a hashtable hides a property of the same name, so an example that defines a key
  `KEYS` makes the loop run over that entry's line: no missing key is added, and every
  run appends an empty line (`MergeTheorems.KeysEntryStopsTheMerge`). The refinement and
  the idempotence are therefore stated as conditions that hold if and only if.
- `installer/update_version.py` stamps only unindented definitions in upper case
  (`UpdateVersion.StampIsShadowed`; the condition is `UpdateVersion.StampReachesExample`),
  and a machine's file that defines the version twice hides a good stamp
  (`UpdateVersion.DuplicateHidesTheVersion`; `UpdateVersion.VersionReachesMachine`).
- `scripts/update_appcast_manual.py` sets the name space declaration as an attribute
  (line 37) and registers the same prefix (line 79), so a file it creates carries the
  declaration twice and no longer parses: the next manual update fails
  (`FeedFile.SecondManualUpdateFails`), and only a rebuild repairs the file
  (`FeedFile.OnlyRebuildsRepair`).
- `installer/restore_update_state.ps1` relaunches a program that was started from its
  interface with the recorded arguments (lines 338-344). In Windows PowerShell 5.1
  `Start-Process` refuses an empty list of arguments, and one with an empty argument, so
  a program that was started without arguments is not relaunched: the restore exits with
  1 and keeps the context, although nothing failed (`HandoffTheorems.RelaunchNeedsArguments`;
  the condition is `HandoffTheorems.SmoothRestoreCompletes`).

`installer/capture_update_context.ps1` captures `AppDirectory`, but the restore sets the
directory it was given; `HandoffTheorems.ConfigurationSurvives` states both.

## Model

| member | source | states |
|---|---|---|
| EnvText.SplitThenJoin | installer/merge_env.ps1:83-84 | splitting with captured separators and concatenating again gives the text back; the pieces hide no terminator |
| EnvText.JoinThenSplit | installer/merge_env.ps1:83-84 | the converse: a document without hidden or fusing terminators is what splitting its text yields |
| EnvText.ReadersAgree | installer/merge_env.ps1:59-97 | the rewriter's pattern finds a line for an identifier if and only if the map reader files that line under the same key |
| EnvText.KeyMapIsLastWins | installer/merge_env.ps1:52-72 | an entry of the map is the last line that defines its key, and a key is absent exactly when no line defines it |
| EnvText.LineKeyMeans | installer/merge_env.ps1:59-68 | in the line's characters: a line defines a key if and only if it has one before its first equals sign and does not begin with `#`; the key is that text without case |
| EnvText.NoKey | installer/merge_env.ps1:59-67 | a comment defines no key whatever equals signs it has, and neither does a line with a blank or no key part |
| EnvText.ValueMeans | installer/merge_env.ps1:74-79 | the value is what stands behind the first equals sign, without the white space around it |
| EnvText.ReplaceFirstInMap | installer/merge_env.ps1:88-104 | first-match rewriting against last-wins reading: the map follows the rewrite exactly when one line defines the key, and is unchanged otherwise |
| EnvText.AppendLines | installer/merge_env.ps1:179-185 | appending behind a text, with or without a final newline, leaves its lines alone but for an open empty last line |
| MergeEnv.JoinInterleaves | installer/merge_env.ps1:83-84 | a text is its lines with its separators between them and nothing else, so lines and separators determine it |
| MergeEnv.RewriteIsFramed | installer/merge_env.ps1:88-104 | a rewrite replaces the first matching line and keeps every other character and every terminator in place |
| MergeEnv.PiecesOfDoc | installer/merge_env.ps1:84-104 | the loop over lines interleaved with separators is the rewrite of the document, and separators never match |
| MergeEnv.SetKeyLines | installer/merge_env.ps1:81-115 | setting a key that is present is, on lines, replacing its first definition |
| MergeScript.EnvFiles.ConvertToKeyMap | installer/merge_env.ps1:52-72 | the loop computes the last-wins map of the file; a missing file gives the empty map |
| MergeScript.EnvFiles.SetKeyInTargetFile | installer/merge_env.ps1:81-115 | the whole new text of the target, rewritten in place or appended to, and nothing else changed |
| MergeScript.EnvFiles.Gate | installer/merge_env.ps1:206-229 | exit code 0 if and only if the last line that defines the feed's address has a visible character behind its first equals sign, else 2 |
| MergeScript.EnvFiles.OverwriteSystemKeys | installer/merge_env.ps1:148-165 | the target after the managed keys are rewritten, decided by the map read at the start |
| MergeScript.EnvFiles.AddMissingKeys | installer/merge_env.ps1:167-204 | the target with the lines appended that the loop over the example's `Keys` property collects: each key once in an arbitrary order, or the one line of an entry that shadows the property |
| MergeScript.EnvFiles.Merge | installer/merge_env.ps1:117-229 | the target after a run that started from the machine's own file, or else the legacy file, or else the example: its user lines at their places, all its keys, and the merge with the example; the backup; and the exit code on every path |
| MergeTheorems.MergedKeyMap | installer/merge_env.ps1:148-204 | for every mix of terminators, every enumeration order and every example, the exact last-wins map of the merged text |
| MergeTheorems.MergeRefinesMapMerge | installer/merge_env.ps1:148-204 | that map is the map merge of the example and the target if and only if no entry of the example shadows the enumeration of its keys or the target lacks none of them |
| MergeTheorems.MergeIgnoresOrder | installer/merge_env.ps1:171-175 | two enumeration orders give the same key map |
| MergeTheorems.MergeIsIdempotent | installer/merge_env.ps1:152-204 | a second run with the same example leaves the text identical, also when a managed key is duplicated in the target, if and only if no entry of the example shadows the enumeration of its keys |
| MergeTheorems.KeysEntryStopsTheMerge | installer/merge_env.ps1:171-203 | an input on which the example's key is not added and a second run changes the text |
| MergeTheorems.MergeIsFramed | installer/merge_env.ps1:148-204 | the merged text is a rewritten target followed by what is appended; in the rewritten part every line keeps its place, its key and its terminator, and lines that define no managed key are unchanged |
| MergeTheorems.ManagedKeyUpdated | installer/merge_env.ps1:153-165 | a managed key that both files define ends with the example's line if and only if the lines agree, or differ by more than case while one line defines the key; otherwise the target's line stays |
| MergeTheorems.CaseOnlyChangeIsNotApplied | installer/merge_env.ps1:156-161 | an input on which a managed key keeps the target's line although the example's line differs |
| MergeTheorems.DuplicateHidesTheUpdate | installer/merge_env.ps1:153-165 | an input on which a managed key that the target defines twice keeps the target's value |
| MergeTheorems.UserLinesKept | installer/merge_env.ps1:148-204 | every line, comments and blank lines included, that does not define a key of the installer's is found unchanged at the same place; only an empty last line gives way to what is appended |
| MergeTheorems.MergedKeeps | installer/merge_env.ps1:117-204 | whatever text a run starts from, every line of it that defines neither `APP_VERSION` nor `APP_NAME` is at its place in the result, and all its keys are there |
| MergeTheorems.MergeAddsOneLine | installer/merge_env.ps1:170-203 | exactly one line is added for each key that only the example has, if its enumeration is not shadowed, and none for any other key |
| MergeTheorems.GateAfterMerge | installer/merge_env.ps1:148-229 | the gate passes after a merge if and only if each critical key has a value in the target, or is absent there and has one in an example whose enumeration is not shadowed |
| MergeTheorems.GateMeans | installer/merge_env.ps1:206-216 | the critical keys are present in the map if and only if the text gives the feed's address a visible value |
| MergeTheorems.MarkerWrittenOnce | installer/merge_env.ps1:187-198 | the marker is left out exactly when the last line that is not blank is the marker already, up to case |
| UpdateVersion.EnvFile.SyncAppVersion | installer/update_version.py:21-38 | for every version without a backslash, as all released ones are: every plain definition replaced, or one line appended behind a closed last line; a missing file stays missing |
| UpdateVersion.PlainMeans | installer/update_version.py:28 | which lines are stamped: the key in capitals at the start, white space or none, an equals sign |
| UpdateVersion.StampReachesExample | installer/update_version.py:27-36 | the stamped line is what the merge reads for the key if and only if no indented or differently cased definition follows the stamped ones |
| UpdateVersion.StampIsShadowed | installer/update_version.py:27-31 | an input whose stamped line is not what the merge reads |
| UpdateVersion.VersionReachesMachine | installer/update_version.py:21-38 | stamp, then merge: the machine's value of the key is the version if and only if its file defined the key once, or not at all and nothing shadows the example's enumeration, or already held the version |
| UpdateVersion.DigitsAndDots | installer/update_version.py:10-75 | a version of digits and dots meets the preconditions of the stamp |
| UpdateVersion.DuplicateHidesTheVersion | installer/merge_env.ps1:152-165 | an input on which a stamped version does not become the machine's |
| Order.BeforeIsOrder | scripts/sync_appcast_from_releases.py:295 | string comparison is a strict total order |
| Timestamps.YearStartClosedForm | scripts/sync_appcast_from_releases.py:254-258 | counting days year by year agrees with the closed form of the Gregorian calendar |
| Timestamps.FieldsOrderInstants | scripts/sync_appcast_from_releases.py:254-258 | comparing field by field is comparing instants |
| Timestamps.NextSecond | scripts/sync_appcast_from_releases.py:254-258 | the valid moments are those of the clock: the next one is valid and one second later, from the first of year 1 to the last of year 9999 |
| Timestamps.UnixEpoch | scripts/sync_appcast_from_releases.py:254-258 | the first of January 1970 lies 719162 days after the first of January of year 1 |
| Timestamps.StringOrderIsChronological | scripts/sync_appcast_from_releases.py:294-302 | for all valid stamps in the UTC form of RFC 3339 section 5.6, string order is the order of instants and equal instants are equal strings |
| Timestamps.ParseOfPrint | scripts/sync_appcast_from_releases.py:250-258 | every valid moment is read back from its text in the UTC form of RFC 3339 |
| PyLines.SplitJoined | scripts/coverage.py:31-55 | `splitlines` gives back the lines that were joined, if none contains a line break |
| PyLines.LineBreaks | scripts/coverage.py:31 | the ten characters at which `splitlines` breaks, by number |
| Sidecar.Sha256FromSidecarContent | scripts/sync_appcast_from_releases.py:158-179 | the loop returns what the first offering line offers |
| Sidecar.DigestMeans | scripts/sync_appcast_from_releases.py:168-170 | a digest is 64 characters, each one of the sixteen lower-case hexadecimal digits |
| Sidecar.FirstDigestIsFirst | scripts/sync_appcast_from_releases.py:159-179 | on any text, a result is a digest of 64 lower-case digits from the first line that offers one; there is none exactly when no line offers one |
| Sidecar.AcceptedLineHasForm | scripts/sync_appcast_from_releases.py:160-177 | a line that offers a digest is a digest alone, or a digest, optional stars and the installer's name, with only white space around |
| Sidecar.BareLineAccepted | scripts/sync_appcast_from_releases.py:172-173 | every line of the first form offers its digest, lower-cased |
| Sidecar.NamedLineAccepted | scripts/sync_appcast_from_releases.py:175-177 | every line of the second form offers its digest, lower-cased |
| Sidecar.ParseOfPrint | installer/build_installer.py:307-313 | parsing a written sidecar returns its digest, for every name without line breaks, edge white space or a leading star |
| Appcast.BuildPublishedReleases | scripts/sync_appcast_from_releases.py:261-305 | the loop over an insertion-ordered dictionary computes the feed of the eligible candidates, or the error of the first release that fails |
| AppcastTheorems.BuildSucceeds | scripts/sync_appcast_from_releases.py:261-305 | the build succeeds if and only if some release is eligible and every eligible one has a readable age and an installer with a digest |
| AppcastTheorems.FeedListsEligible | scripts/sync_appcast_from_releases.py:265-302 | each item is that of an eligible release (not draft, prerelease, nameless, blocked or too young), and every eligible release is covered by an item of its version that is not older |
| AppcastTheorems.VersionOfTag | scripts/sync_appcast_from_releases.py:82-83 | a tag's version is the tag without one leading `v` |
| AppcastTheorems.ItemsCarryTags | scripts/sync_appcast_from_releases.py:265-292 | every item carries the version of the tag of a published release that is not blocked, stated without the normalisation |
| AppcastTheorems.EligibleMeans | scripts/sync_appcast_from_releases.py:266-284 | which releases are eligible, in their fields and the policy's: published, with a version, not blocked, and not younger than that version's minimum age in minutes |
| AppcastTheorems.FeedMeetsSpecification | scripts/sync_appcast_from_releases.py:294-302 | every candidate's version is listed, with its newest release (the first of equally new ones), newest first, ties in order of first sight |
| AppcastTheorems.FeedIsDetermined | scripts/sync_appcast_from_releases.py:294-302 | that specification leaves no choice: whatever meets it is the feed |
| AppcastTheorems.FeedVersionsDiffer | scripts/sync_appcast_from_releases.py:294-296 | no version is listed twice |
| AppcastTheorems.BuildIgnoresApiOrder | scripts/sync_appcast_from_releases.py:262-305 | permuting the release list does not change the result when the eligible timestamps are distinct |
| AppcastTheorems.RollbackHidesOneVersion | scripts/sync_appcast_from_releases.py:273-305 | blocking a version gives exactly the old feed without its item, or the error for an empty feed |
| AppcastTheorems.PolicyEntryBlocks | scripts/sync_appcast_from_releases.py:95-106 | adding an entry adds exactly its version to the blocked ones |
| AppcastTheorems.EntryBlocksTags | scripts/sync_appcast_from_releases.py:95-106 | an entry `x` or `vx`, between white space, keeps the releases tagged `x` and those tagged `vx` out of the feed |
| AppcastTheorems.BlockedComesFromEntry | scripts/sync_appcast_from_releases.py:101-106 | the blocked versions are those of the array's entries that are not blank, and no others |
| AppcastTheorems.FeedGrowsWithTime | scripts/sync_appcast_from_releases.py:250-302 | under one policy and release list a later feed lists every version of an earlier one, with the same release or one that is not older |
| AppcastTheorems.FeedIsChronological | scripts/sync_appcast_from_releases.py:294-302 | with well-formed stamps each item, the last and the only one included, is the latest instant of its version, and the feed runs from new to old |
| AppcastTheorems.PickedIsTheInstaller | scripts/sync_appcast_from_releases.py:193-213 | a picked asset is the only one that matches the pattern, or the only executable when none matches |
| AppcastTheorems.PickMeans | scripts/sync_appcast_from_releases.py:194-213 | the installer in every case: the only asset named like one, the only executable when none is, ambiguous with two, none otherwise |
| AppcastTheorems.SelectionMeans | scripts/sync_appcast_from_releases.py:193-247 | for a picked installer every outcome: missing metadata, two sidecars, none, no address, a failed download, no digest for this name, or the asset with its name, address, size and digest |
| AppcastTheorems.SelectedAssetIsReleased | scripts/sync_appcast_from_releases.py:215-247 | a selected asset has the address and size of the release's installer and the digest that its one sidecar offers for that name |
| AppcastTheorems.SelectedAssetHasDigest | scripts/sync_appcast_from_releases.py:215-247 | a selected asset is the picked one and carries a digest of 64 lower-case digits |
| FeedFile.RenderAppcast | scripts/sync_appcast_from_releases.py:313-361 | the channel is the header followed by one item per release in order, or an error when a date cannot be read |
| FeedFile.AppcastFile.Sync | scripts/sync_appcast_from_releases.py:370-388 | the rebuilt file with exit code 0, or exit code 1 with the file untouched, exactly when the build or a date fails |
| FeedFile.Channel.RemoveExistingVersionItems | scripts/update_appcast_manual.py:45-57 | removal from a snapshot leaves what a filter leaves, and the count is the number of items gone |
| FeedFile.AppcastFile.UpdateAppcast | scripts/update_appcast_manual.py:60-140 | the file with the version filtered out and one item in front; a malformed digest or a file that does not parse changes nothing, and a file created here will not parse |
| FeedFile.RemoveEachIsFilter | scripts/update_appcast_manual.py:47-56 | removing matching items one at a time is filtering, in order |
| FeedFile.RemovalsAddUp | scripts/update_appcast_manual.py:46-57 | items kept and items counted as removed add up |
| FeedFile.WithoutVersionAt | scripts/update_appcast_manual.py:47-56 | filtering out a version drops each node whose enclosure carries it, in the name space's attribute or else the plain one, and keeps every other node between its neighbours |
| FeedFile.ManualItemOffers | scripts/update_appcast_manual.py:81-101 | a manual update puts one item in front that offers the given version, address, length and lower-case digest |
| FeedFile.HeadersAgree | scripts/update_appcast_manual.py:34-42 | both scripts begin a file with the same title, link and description |
| FeedFile.RebuiltFeedIsOk | scripts/sync_appcast_from_releases.py:328-342 | a rebuilt file has one item per version and a digest on each |
| FeedFile.RebuiltItemOffers | scripts/sync_appcast_from_releases.py:328-357 | each item of a rebuilt file offers an eligible release: title and version of its tag, address, written length and digest of its installer, date and notes, the least supported version, and a rollout share between 0 and 100 |
| FeedFile.EditsKeepFeed | scripts/update_appcast_manual.py:45-101 | every interleaving of rebuilds and manual updates keeps at most one item per version and only digests of 64 lower-case digits |
| FeedFile.SecondManualUpdateFails | scripts/update_appcast_manual.py:34-43 | after a manual update of a missing file every later manual update leaves the file alone |
| FeedFile.OnlyRebuildsRepair | scripts/update_appcast_manual.py:68-71 | for every interleaving of edits, a file parses afterwards if and only if it did before or a rebuild succeeded; until then it stays as it is |
| Ico.ExtractLargestPngFromIco | scripts/windows_icon_utils.py:101-132 | on any bytes the two loops read in bounds and compute the best entry |
| Ico.BestIsFirstLongest | scripts/windows_icon_utils.py:123-132 | a result is the slice of the first longest in-range entry with the signature; there is none exactly when no entry qualifies |
| Ico.CountMeans | scripts/windows_icon_utils.py:108-118 | in the file's bytes: two zeros, the type of an icon, a count that is not zero, and room for that many entries, or else nothing is read |
| Ico.EntryMeans | scripts/windows_icon_utils.py:119-121 | size and offset of an entry are bytes 8 to 11 and 12 to 15 of it, least byte first |
| Ico.IcoWithPngs | test/scripts/test_windows_icon_utils.py:30-55 | the two chunk lists and the running offset give the file of header, directory and payloads, or a packing error |
| Ico.ReadOfBuild | scripts/windows_icon_utils.py:101-132 | reading a built file gives the first longest blob with the signature, and nothing exactly when no blob has it |
| Ico.BuiltEntryBytes | test/scripts/test_windows_icon_utils.py:40-52 | a built entry begins with no dimensions, one plane and 32 bits |
| Ico.EmbeddedPayloadIsFound | scripts/windows_icon_utils.py:135-153 | an executable that contains the extracted payload passes the probe, for every probe length |
| Ico.ProbeMeans | scripts/windows_icon_utils.py:148-153 | the probe is true if and only if the first bytes of the payload, as many as asked for and at least one, stand somewhere in the executable |
| Ico.ExtractedIsPng | scripts/windows_icon_utils.py:127-132 | what is extracted starts with the eight bytes of a PNG file |
| JsonText.AppendJsonEscapedUtf8 | windows/legacy_profile_scanner/main.cpp:79-113 | the loop appends the escaped bytes behind what was there |
| JsonText.ReadEscaped | windows/legacy_profile_scanner/main.cpp:79-113 | a reader of JSON strings recovers every byte string from its escaped form, whatever follows the closing quotation mark |
| JsonText.EscapedIsWellFormed | windows/legacy_profile_scanner/main.cpp:79-113 | escaped text is a sequence of the characters of section 7 of RFC 8259: every quotation mark and backslash in it belongs to an escape sequence, and it holds no control byte |
| JsonText.EscapesAreJson | windows/legacy_profile_scanner/main.cpp:80-111 | which bytes are written as two characters, which as six, and that all others stand for themselves |
| JsonText.BareBytesAreRefused | windows/legacy_profile_scanner/main.cpp:79-113 | what well-formed means: no bare quotation mark or control byte can stand behind a well-formed text and no bare backslash can end one |
| ProfileScanner.ScanProfiles | windows/legacy_profile_scanner/main.cpp:115-148 | the scanned paths, sorted and without repetition |
| ProfileScanner.FoundMeans | windows/legacy_profile_scanner/main.cpp:126-143 | exactly the legacy folders that hold a database are found, in directories that are not, in any case, `Public`, `Default`, `Default User` or `All Users` |
| ProfileScanner.ListedPathsAreASet | windows/legacy_profile_scanner/main.cpp:144-146 | the list is strictly increasing and has the elements of the scan |
| ProfileScanner.SortIsDetermined | windows/legacy_profile_scanner/main.cpp:144 | two ascending lists of the same elements are equal, so the sorting algorithm does not matter |
| ProfileScanner.WriteDocument | windows/legacy_profile_scanner/main.cpp:178-191 | the loop with its comma rule writes the document over the scanned paths |
| ProfileScanner.ReadOfDocument | windows/legacy_profile_scanner/main.cpp:178-191 | a reader of JSON values recovers an object with the schema's version 1, exactly the written paths and the time stamp, for every list of byte strings |
| Lcov.FilterLcov | scripts/coverage.py:30-55 | the streaming filter writes, in order, the records whose path is neither empty nor ignored, unterminated ones included |
| Lcov.RecordIsKeptOrDropped | scripts/coverage.py:25-53 | a terminated record, wherever it stands, is in the output whole and at its place if its path is not empty and holds none of the six patterns with either kind of slash; otherwise none of it is |
| Lcov.FilterAtStart | scripts/coverage.py:36-42 | a start line begins a record whatever stands before it, also one that was not terminated |
| Lcov.FilterIsIdempotent | scripts/coverage.py:36-53 | filtering filtered records changes nothing |
| Lcov.FilterFileIsIdempotent | scripts/coverage.py:30-55 | filtering a written report again writes the same text |
| Lcov.PartitionConserves | scripts/coverage.py:36-53 | every line is kept, dropped or outside of the records, none lost and none added |
| Lcov.LcovCoverage | scripts/coverage.py:58-75 | the loop counts the data lines and the hits among them |
| Lcov.DataLine | scripts/coverage.py:61-72 | a data line counts, and it is a hit if and only if `int` reads a positive number behind its first comma: white space, a sign and digits with single underscores |
| Lcov.OtherLineIsNoData | scripts/coverage.py:62-66 | a line that does not begin with `DA:` or has no comma does not count |
| Lcov.CountsAddUp | scripts/coverage.py:30-75 | data lines and hits split exactly into kept, dropped and out-of-record parts |
| Lcov.HitsWithinTotal | scripts/coverage.py:58-75 | there are no more hits than data lines |
| Nssm.Machine.Issue | installer/restore_update_state.ps1:153-162 | one command changes the machine as the answer says and tells whether the script goes on |
| Handoff.RestoreUpdateState | installer/restore_update_state.ps1:164-346 | the script as a run of commands: context checks, service, relaunch, deletion, and its exit code |
| Handoff.RestoreService | installer/restore_update_state.ps1:194-336 | stop, remove, install, configure, account check, start and confirmation, in this order |
| Handoff.ConfigureService | installer/restore_update_state.ps1:218-297 | thirteen settings in this order, each the captured value or its default |
| Handoff.SetNssmValue | installer/restore_update_state.ps1:153-162 | one setting; a failure ends the script |
| Handoff.CaptureUpdateContext | installer/capture_update_context.ps1:81-131 | the new context in its fields: the trimmed value of exactly those settings that can be read and are not blank, the rest carried over; no context is no error, and a context that does not parse or a query that writes to its error stream ends the script with the file left alone |
| Handoff.RunInstallService | installer/install_service.ps1:47-216 | the registration as a run of commands with its exit codes |
| Handoff.RunInstallSettings | installer/install_service.ps1:99-154 | fourteen settings in this order, critical ones ending the script when they fail |
| HandoffTheorems.RestoreRun | installer/restore_update_state.ps1:164-346 | for all failures and crashes: the context is kept or deleted, the service is untouched or is the record determined by context and parameters |
| HandoffTheorems.ContextDeletionIsSafe | installer/restore_update_state.ps1:180-346 | the context is deleted only when stale, without a captured service, or once the service is registered as LocalSystem, started, and seen running where polling is possible |
| HandoffTheorems.FailureKeepsContext | installer/restore_update_state.ps1:66-336 | every exit with another code than 0 leaves the context in place |
| HandoffTheorems.CrashRecovery | installer/restore_update_state.ps1:194-346 | after any number of runs cut before the deletion, a completed run ends with the record and run state of an uninterrupted one |
| HandoffTheorems.SmoothRestoreCompletes | installer/restore_update_state.ps1:180-346 | when nothing fails the restore completes if and only if the context is stale, or a captured account is supported and a relaunch that is asked for has arguments, none of them empty |
| HandoffTheorems.FreshContextIsRestored | installer/restore_update_state.ps1:172-346 | in the fields of the context: schema 2 or later, a version with a visible character, not expired, an account of the local system; when nothing fails the service is the target, the program is relaunched with its arguments if it came from its interface, and the context is gone |
| HandoffTheorems.StaleContextIsDiscarded | installer/restore_update_state.ps1:180-188 | in the fields of the context: an old or missing schema, a blank version, no expiry or one in the past; service and launches are untouched and the context is deleted if the system lets it |
| HandoffTheorems.RestoredSetting | installer/restore_update_state.ps1:129-151 | each setting of a restored service is the context's value without white space around it, or the default when that is missing or blank |
| HandoffTheorems.LocalSystemIsSupported | installer/restore_update_state.ps1:299-302 | an account is supported if and only if none was captured or it is one of three names, whatever case and white space |
| HandoffTheorems.LaunchedRun | installer/restore_update_state.ps1:338-344 | a run that exits with 0 has launched exactly what its script says, and one without a relaunch launches nothing |
| HandoffTheorems.FailureEnds | installer/restore_update_state.ps1:66-336 | which failing commands end a script with 1, which with 2, and which only warn |
| HandoffTheorems.MissingEnds | installer/install_service.ps1:76-166 | a command that does not find the service it needs ends its script with 1, an optional setting excepted |
| HandoffTheorems.DeathEnds | installer/restore_update_state.ps1:194-346 | a script whose process dies goes no further, and the context is gone only if it died while deleting it |
| HandoffTheorems.RelaunchNeedsArguments | installer/restore_update_state.ps1:338-344 | an input on which no restore completes: origin `ui` without arguments; the context stays, however the system answers |
| HandoffTheorems.ConfigurationSurvives | installer/capture_update_context.ps1:89-128 | whatever happened in between, a completed restore gives every named setting its trimmed value from before if that could be read and is not blank, else the default; the given directory, and LocalSystem |
| HandoffTheorems.DefaultInstall | installer/install_service.ps1:66-209 | a default registration in which nothing fails gives the default record, started or not, with or without the polling helper, and exits with 1 exactly when it should start the service and cannot poll |
| HandoffTheorems.DefaultRestoreIsInstall | installer/restore_update_state.ps1:212-334 | a restore with nothing captured ends with the application and the record of a default registration, whatever its options, and with its run state when that registration sees the service run |
| HandoffTheorems.InstallKeepsContext | installer/install_service.ps1:47-216 | a registration leaves the context alone, however it ends |
| ServiceUtils.WaitForStatus | installer/service_utils.ps1:73-119 | true exactly when a poll that begins before the deadline sees the status; the polls are bounded by timeout and interval, and giving up takes the whole timeout |
| ServiceUtils.WaitForRunning | installer/service_utils.ps1:73-119 | with the default times at most 30 polls are made, a second or more apart and after three seconds, and giving up takes 30 seconds |
| ServiceUtils.StartWithPolling | installer/service_utils.ps1:121-149 | a refused start is false without polling; already running counts as started |
| Setup.StopService | installer/setup.iss:859-890 | at most five attempts, decided by the first that exits with 0 or 1062 and by what polling saw; only the run state changes |
| Setup.RemoveService | installer/setup.iss:792-827 | at most five attempts until a deletion is accepted; without one the result is what a last query sees, and an accepted deletion may leave the service marked |
| Setup.Uninstall | installer/setup.iss:892-952 | the uninstaller stops the service and then removes it, if it is there |
| Setup.InitializeSetup | installer/setup.iss:259-309 | the context holds the service as it was before the stop, whatever the uninstaller then leaves of it |
| Setup.SilentUpdate | installer/setup.iss:571-666 | prepare, merge, register and restore: the environment file is migrated; registration and restore are skipped exactly when it then lacks the feed's address, with the context kept; every failed restore keeps it, a completed one leaves the settings from before the update but for directory and account, and a first installation in which nothing fails ends with the default service running |

## Left out

- The Flutter application, its scheduler, queue and updater, the wizard's pages, shortcuts, the VC redistributable, process closing, and interactive (not silent) runs.
- Case folding is ASCII and comparison ordinal: culture-sensitive rules, and the few non-ASCII letters that fold into ASCII ones, are not modelled.
- File encodings, byte order marks and I/O errors of the environment files, the feed and the reports; files are sequences of characters.
- UpdateVersion.EnvFile.SyncAppVersion: white space before the equals sign is taken within the line, while `\s*` in the source could reach across line ends.
- Appcast.BuildPublishedReleases: the releases are typed records, so JSON values of a wrong type appear only as a missing address or size; HTTP is a map from addresses to texts; file patterns are matched case-sensitively.
- Appcast: `fromisoformat` is an arbitrary function (unreadable, without offset, or an instant); only the strict UTC form is parsed, in `Timestamps`. Sorting is an insertion sort, which `AppcastTheorems.FeedIsDetermined` shows to be no restriction.
- The policy file beyond its blocked versions: it is loaded and checked outside the model and enters as a value.
- FeedFile.RenderAppcast: an item keeps the release's stamp where the source writes a formatted date, and XML text is not produced; a file whose channel element is missing is not modelled.
- JsonText.ReadEscaped: section 7 of RFC 8259 also asks for valid UTF-8, which bytes at or above 0x80 are not checked for, on either side.
- ProfileScanner.ScanProfiles: a missing users' folder is an empty scan, errors while iterating (exit code 3) and the probe for a database are the entries' own business, and the conversion to UTF-8 is a parameter.
- ProfileScanner.ReadOfDocument: the reader takes no insignificant white space, and of numbers only digits.
- Lcov.LcovCoverage: the two counts are returned instead of the rounded percentage, and `int` reads ASCII digits only.
- The computation of SHA-256 itself.
- HandoffTheorems.ConfigurationSurvives: a setting reaches `nssm set` as one native argument of Windows PowerShell, which drops embedded double quotation marks; the model passes it unchanged, so nothing is promised of such values.
- Handoff.RestoreUpdateState: an absent list of relaunch arguments is the empty list; `Start-Process` refuses both, and also the list of one empty argument that the capture writes for an absent one.
- Handoff.CaptureUpdateContext: the captured path of the service manager and the captured application are recorded for readers of the file; no script reads them back, and the model's context does not hold them.
- Handoff: a setting is one string; texts that `nssm get` would reformat, the error log, the Authenticode note, the resolution of the manager's path and the account parameters of the registration are not modelled.
- Handoff.RunInstallService: the removal after a failed critical setting is part of that command's answer, which may leave any record.
- HandoffTheorems.CrashRecovery: it is about the restore script; running the whole setup again captures whatever record it finds, so nothing is claimed for that.
- HandoffTheorems.FailureKeepsContext: it says nothing of the service, which the refusal of an account leaves re-registered and stopped.
- ServiceUtils.WaitForStatus: the text matching of `sc query` is an observation per poll, and a poll takes some time.
- Setup.SilentUpdate: the second stop before copying files, the wait for the uninstaller to vanish, a merge script that fails half-way and a restore that cannot be launched are left out.
- Setup.Uninstall: an uninstaller that gives up because the program does not close.
