# Verified models of bootc's state-merging code

bootc upgrades a host by switching it to a new image while keeping what the administrator changed.
This project models the parts of it that decide what is kept: the three-way merge of `/etc`, the
ownership of kernel arguments, and some smaller algorithms (finding backing disks and the EFI system
partition, tar export, the lint runner, the fstab rewrite). Code that changes state step by step is
modelled by methods and classes; each is proved to compute a specification function, and the
properties are proved about that function. `dafny verify dfyconfig.toml` checks everything.

## What is modelled

**The `/etc` merge** (`Etc*.dfy`, `LiveTree.dfy`). `EtcTree` has the traversed trees and their lookups.
`EtcDiff` fills the lists `added`, `modified`, `removed` and `unmergable` of a shared `Diff` object, with
a path cursor that is pushed and popped and with insertions into the middle of the lists. `EtcDiffExact`,
`EtcDiffReports` and `EtcDiffOrder` say, path by path, what the lists contain, how often, and in which
order. `LiveTree` is the live new `/etc` as a map from paths to objects, with the filesystem calls that
the merge makes. `EtcMerge` replays the lists on it and stops at the first error. `EtcMergeSteps`,
`EtcMergeSpec` and `EtcMergeLaws` prove that the whole is the three-way rule: the merge succeeds exactly
if no carried path meets another kind in new and no deleted path lies below a regular file of new, and
then every path of the result is what the rule says. This is for trees in which no deleted path lies
below a symbolic link of new; for the others, where the system may lead a removal anywhere, they prove
that the result can only lack something, and exactly when it lacks nothing.

**Kernel arguments** (`Cmdline.dfy`, `Kargs.dfy`, `LoaderEntries.dfy`, `LoaderRuns.dfy`, `BlsText.dfy`).
A boot entry has an options line, one extension key per source of arguments, and the arguments that its
image ships. Sources are set and taken away, images are upgraded, the host reboots. The main result is
about every sequence of these actions: the options line always holds exactly the image's arguments, the
user's arguments in their order, and the arguments of every source. Everything holds whether or not
adding an argument skips one that is already there. `BlsText` has the text form of the keys.

**Smaller algorithms.** `BlockDev.dfy` and `Esp.dfy`: the worklist that walks up to the backing disks and
the recursive search for the EFI system partition. `TarExport.dfy` and `TarReplay.dfy`: the tar export
with its hard-link table, and unpacking as its inverse. `Lints.dfy`: one walk shared by all recursive
lints. `Fstab.dfy`: adding `ro` to the root entry, and the boot-time scan that guards it. `Text.dfy` has
the string operations that the text formats use. `Common.dfy` has what several modules share.

## Where the code differs from what one might expect

- The fstab rewrite is not idempotent on every text: a line that ends in two carriage returns loses one
  on each pass. `Fstab.IdempotentIff` gives the exact condition.
- After a rewrite that found nothing to edit, the boot-time scan asks for the rewriter at every boot
  (`Fstab.ScanAfterRewrite`).
- The reports of unmergable paths are sound but not complete: `EtcMergeLaws.FailsExactly` says exactly when
  a merge fails, reported or not. It fails in silence for a conflict inside an added directory or at a
  directory that changed only in its own stat (`EtcMergeLaws.UnreportedConflict`), and for a deletion
  below a regular file of new (`EtcMergeLaws.UnreportedDeletion`).
- A deletion below what new has as a symbolic link follows the link: the merge can succeed and take away a
  file that nobody touched (`EtcMergeLaws.DeletedThroughLink`). `EtcMergeSpec.ThroughLinksIff` says
  exactly when the result is still that of the three-way rule.
- fs-verity digests are never consulted, and a file that has one has no content hash: an edit of its
  bytes, which shows only in the digest, is not carried over (`EtcMergeLaws.TimesAndSealsNeverMatter`,
  `EtcMergeLaws.SealedEditLost`).
- A source value is not read back from the entry's text as it was given: its first line is read, trimmed
  of all whitespace, and its other lines are lines of the entry. `LoaderRuns.RemoveAfterRebootIff` says
  for every value exactly when taking the source away after a reboot still restores the line. It does not
  for a no-break space (`LoaderRuns.ExoticSpaceSticks`) or a second line (`LoaderRuns.SecondLineSticks`),
  and a later line can set another source (`BlsText.LaterLineSetsOther`); a name that is no key reads
  back as absent exactly if no value brings it (`BlsText.AbsentIffUntold`, `LoaderRuns.SetBringsIff`).
- An upgrade to an image without a kargs.d directory keeps the arguments of the old image on the line
  (`Kargs.MissingDirectoryIff`).
- The comment at crates/etc-merge/src/lib.rs:743-748 describes creating a parent directory before its
  permissions are known. The insertion at lines 301-302 of the same file keeps that from happening
  (`EtcMergeSteps.MkdirEffect`, `EtcDiffOrder.AncestorsComeFirst`); the model follows the code.
- An upgrade stages from the booted entry, so source arguments that were only staged are dropped by a
  later upgrade in the same boot (`LoaderRuns.StagedSourcesLost`, `LoaderRuns.SourceGone`).

## Model

| member | source | states |
|---|---|---|
| EtcTree.GetDirectoryMeaning | crates/etc-merge/src/lib.rs:288-309 | the three outcomes of a directory lookup in terms of the whole tree: found, not found, or a leaf at or above the path |
| EtcTree.SplitMeaning | crates/etc-merge/src/lib.rs:831-880 | splitting a path and looking up its last component finds exactly the inode at the path; when and how it fails |
| EtcDiff.CollectAllFiles | crates/etc-merge/src/lib.rs:101-125 | appends every path below a directory, each directory before its contents, with the cursor balanced |
| EtcDiff.CheckIfMergable | crates/etc-merge/src/lib.rs:182-235 | appends a report exactly for a directory that is blocked by a leaf of new, or a leaf that new has as a directory |
| EtcDiff.RecordModified | crates/etc-merge/src/lib.rs:378-382 | pushes on `modified`, checks the path, and changes nothing else |
| EtcDiff.GetModifications | crates/etc-merge/src/lib.rs:252-398 | the in-place walk, its cursor balanced across the early continue, appends exactly the changes of the tree-by-tree specification |
| EtcDiff.ModifyContent | crates/etc-merge/src/lib.rs:349-375 | two leaves of equal stat: recorded exactly if kind, content hash or link target differ |
| EtcDiff.AddEntry | crates/etc-merge/src/lib.rs:317-324 | an entry new to current is added with everything below it and checked once |
| EtcDiff.WalkDirectory | crates/etc-merge/src/lib.rs:267-315 | own stat change first, then the changes below, headed by the directory if new lacks it |
| EtcDiff.ReinstateDirectory | crates/etc-merge/src/lib.rs:288-314 | inserting at the recorded length puts the directory right in front of what its walk appended |
| EtcDiff.GetDeletions | crates/etc-merge/src/lib.rs:128-179 | appends exactly the deletions of the specification, cursor balanced |
| EtcDiff.ComputeDiff | crates/etc-merge/src/lib.rs:469-499 | the four lists of a fresh diff |
| EtcDiffExact.ModsExactAt | crates/etc-merge/src/lib.rs:252-398 | how often each path occurs in `added` and in `modified`, for every path: once for being touched, once more for being a directory restored because new lacks it, and in which of the two lists |
| EtcDiffExact.NonEmptyIffTouched | crates/etc-merge/src/lib.rs:301-313 | the length comparisons after a recursive walk are true exactly if something below was added or touched |
| EtcDiffExact.CollectCount | crates/etc-merge/src/lib.rs:106-122 | every path below an added directory is collected exactly once |
| EtcDiffReports.Reports | crates/etc-merge/src/lib.rs:182-235 | a conflict is reported once, exactly at the checked paths that conflict with new |
| EtcDiffReports.ReportsInsideFirst | crates/etc-merge/src/lib.rs:288-314 | what lies inside a directory is reported before the directory |
| EtcDiffReports.DelsExact | crates/etc-merge/src/lib.rs:128-179 | `removed` holds, once each, exactly the pristine paths missing from current whose parent is a directory there |
| EtcDiffOrder.EncloseInOrder | crates/etc-merge/src/lib.rs:295-306 | the mid-list insertion is what keeps ancestors ahead of their contents |
| EtcDiffOrder.AncestorsComeFirst | crates/etc-merge/src/lib.rs:275-324 | for every occurrence of a path in `added` then `modified` and every proper ancestor: new has it as a directory or it occurs strictly earlier |
| LiveTree.SnapshotMirrors | crates/etc-merge/src/lib.rs:427-465 | every traversed tree has a live tree that it mirrors, so the merge theorems apply to every new tree |
| EtcMerge.CopyXattrs | crates/etc-merge/src/lib.rs:575-583 | attributes are added over those already there, none removed; a missing path is an error if there are any to set |
| EtcMerge.CreateDirWithPerms | crates/etc-merge/src/lib.rs:718-771 | live tree and error after creating or adopting a directory, for every state |
| EtcMerge.MergeLeaf | crates/etc-merge/src/lib.rs:773-820 | live tree and error after replacing a leaf, for every state |
| EtcMerge.MergeFile | crates/etc-merge/src/lib.rs:830-881 | live tree and error after one listed path |
| EtcMerge.MergeModifiedFiles | crates/etc-merge/src/lib.rs:822-885 | live tree and error after a list, stopping at the first error |
| EtcMerge.Merge | crates/etc-merge/src/lib.rs:891-939 | live tree and error after both lists and the removals |
| EtcMergeSteps.MkdirEffect | crates/etc-merge/src/lib.rs:735-752 | with its ancestors ready, creating all parents creates only the directory itself |
| EtcMergeSteps.CreateDirEffect | crates/etc-merge/src/lib.rs:718-771 | a listed directory ends with current's mode and owner and keeps the attributes it had beside current's |
| EtcMergeSteps.PutLeafEffect | crates/etc-merge/src/lib.rs:773-820 | a listed leaf ends as a copy of current's leaf, unsealed, and nothing else changes |
| EtcMergeSteps.StepExact | crates/etc-merge/src/lib.rs:830-882 | one listed path is written exactly if new has no other kind at or above it; only a kind conflict stops it |
| EtcMergeSteps.RefusedFor | crates/etc-merge/src/lib.rs:725-793 | which error a path that cannot be placed gets, and that nothing was written for it |
| EtcMergeSteps.ListExact | crates/etc-merge/src/lib.rs:822-885 | a list in order is replayed to the end exactly if every path can be placed; a copy never lacks its parent directory; if it stops, exactly the paths before the first that cannot be placed are written |
| EtcMergeSteps.RemoveListExact | crates/etc-merge/src/lib.rs:918-936 | removing an antichain, none of it below a link, takes away exactly what lies at or below its members, and is refused exactly below a regular file; then it stops there, and only what comes before is gone |
| EtcMergeSteps.RemoveListStops | crates/etc-merge/src/lib.rs:918-930 | wherever links lead, the first refused removal is the last one tried, and exactly what the earlier ones led to is gone |
| EtcMergeSteps.RemoveListHits | crates/etc-merge/src/lib.rs:918-936 | wherever links lead, removals that are not refused take away exactly what lies at or below what they lead to |
| EtcMergeSpec.ListedExact | crates/etc-merge/src/lib.rs:481-489 | the paths in `added` and `modified` are exactly the touched and the restored ones |
| EtcMergeSpec.RemovedAntichain | crates/etc-merge/src/lib.rs:491-496 | no deletion lies inside another |
| EtcMergeSpec.RemovedNeverAboveListed | crates/etc-merge/src/lib.rs:918-936 | no deleted path is a prefix of a listed one, so removals never undo writes |
| EtcMergeSpec.WritePhase | crates/etc-merge/src/lib.rs:898-916 | both lists together: success condition, resulting tree, that any error is a kind conflict, and what is written by then |
| EtcMergeSpec.MergeRefinesThreeWay | crates/etc-merge/src/lib.rs:237-398 | where no deletion lies below a link of new: diff and merge succeed exactly on mergable trees, and then every path of the result is what the three-way rule says |
| EtcMergeSpec.ThroughLinksIff | crates/etc-merge/src/lib.rs:918-936 | for all trees and wherever links lead: what a successful merge leaves is what the rule says; nothing is missing exactly if the removals led to nothing that the rule keeps |
| EtcMergeSpec.OneDeletionThroughLink | crates/etc-merge/src/lib.rs:918-930 | one deletion below a link: success exactly if the system does not refuse the path, and the rule's result exactly if the link leads to nothing that the rule keeps |
| EtcMergeLaws.FinalizeEtc | crates/lib/src/bootc_composefs/finalize.rs:126-127 | computing the diff and merging it leaves the live tree as the three-way rule says, or reports an error exactly if the trees are not mergable; with deletions below links, what is left and when nothing is missing |
| EtcMergeLaws.LeafDiffExact | crates/etc-merge/src/lib.rs:337-391 | each leaf of current that is new or differs occurs exactly once, no other leaf occurs, and which list it is in |
| EtcMergeLaws.RetainedOrUpgraded | crates/etc-merge/src/lib.rs:237-240 | files modified or added locally are retained, byte for byte; files not modified are upgraded to the new default; with deletions below links this holds of every file that is still there |
| EtcMergeLaws.DeletedStaysAway | crates/etc-merge/src/lib.rs:918-936 | nothing at or below a locally deleted path is in the result |
| EtcMergeLaws.ReportedExactly | crates/etc-merge/src/lib.rs:182-235 | which paths of a whole diff are reported unmergable, and why |
| EtcMergeLaws.UnreportedOnlyThere | crates/etc-merge/src/lib.rs:311-330 | a kind conflict of a carried path is reported unless it lies inside an added directory or is a stat-only directory change |
| EtcMergeLaws.FailsExactly | crates/etc-merge/src/lib.rs:886-937 | a merge fails exactly if something was reported, or a carried path meets the other kind where the walk does not look, or a deleted path lies below a regular file of new; the first two fail it whatever links there are |
| EtcMergeLaws.ConflictLeaves | crates/etc-merge/src/lib.rs:891-916 | what a merge with a conflict leaves behind: new with the listed paths before the first conflict written over it, nothing removed |
| EtcMergeLaws.RefusalLeaves | crates/etc-merge/src/lib.rs:898-936 | what a refused removal leaves behind, wherever links lead: everything written, the deletions before the refused one made, and no other |
| EtcMergeLaws.RefusalLeavesPlainly | crates/etc-merge/src/lib.rs:898-936 | the same where no deletion lies below a link of new: the first deletion below a regular file of new is the refused one |
| EtcMergeLaws.MergeAgainChangesNothing | crates/etc-merge/src/lib.rs:886-937 | merging the same changes into the result of a successful merge succeeds and changes nothing |
| EtcMergeLaws.ReportedConflictsAreReal | crates/etc-merge/src/lib.rs:724-733 | a diff with a reported conflict cannot be merged |
| EtcMergeLaws.UnchangedMergesToNew | crates/etc-merge/src/lib.rs:469-499 | if current has at every path the kind, mode, owner, attributes and hash or target that pristine has, all four lists are empty and new is untouched |
| EtcMergeLaws.NothingSeen | crates/etc-merge/src/lib.rs:61-79 | the same said of the trees entry by entry, whatever times, digests and unhashed bytes they have |
| EtcMergeLaws.TouchIsNoChange | crates/etc-merge/src/lib.rs:61-79 | a file of which only the modification time changed: no diff, and the new default is kept |
| EtcMergeLaws.UnchangedDefaultMergesToCurrent | crates/etc-merge/src/lib.rs:891-939 | if new equals pristine up to what the diff can tell, the merge succeeds exactly if no path changed kind, and the result is current |
| EtcMergeLaws.UnreportedConflict | crates/etc-merge/src/lib.rs:270-273 | a directory whose only change is its mode meets a file in new: no report, and the merge fails |
| EtcMergeLaws.UnreportedDeletion | crates/etc-merge/src/lib.rs:918-921 | a deletion below what new has as a file: the diff lists and reports nothing else, and the merge fails |
| EtcMergeLaws.DeletedThroughLink | crates/etc-merge/src/lib.rs:921-930 | `d/x` deleted, `d` a link to `e` in new: the diff lists nothing, the merge succeeds, and the untouched `e/x` is gone |
| EtcMergeLaws.SealedEditLost | crates/etc-merge/src/lib.rs:349-356 | a sealed file with other bytes and another digest: no diff, and the result has new's file |
| EtcMergeLaws.TimesAndSealsNeverMatter | crates/etc-merge/src/lib.rs:61-79 | any two pairs of trees that differ only in modification times, fs-verity digests and bytes that no hash shows give the same changes |
| Kargs.ComputeApplyKargsDiff | crates/lib/src/bootc_kargs.rs:50-74 | the line after the removing and adding loops |
| Kargs.UpgradeOnAnyLine | crates/lib/src/bootc_kargs.rs:55-73 | on any line: what only the old image has is gone, what both or neither has keeps its count, what only the new one has is there |
| Kargs.UpgradeKeepsHolding | crates/lib/src/bootc_kargs.rs:48-74 | a line of exactly image and user arguments becomes one of exactly the new image's and the user's, in their order |
| Kargs.GetKargs | crates/lib/src/bootc_kargs.rs:200-241 | the line for a new image, with the special case of one without a kargs.d directory |
| Kargs.MissingDirectoryLine | crates/lib/src/bootc_kargs.rs:228-233 | how often each argument is on the line after an upgrade to an image without a kargs.d directory |
| Kargs.MissingDirectoryIff | crates/lib/src/bootc_kargs.rs:228-233 | an upgrade to an image without a kargs.d directory leaves exactly the user's arguments if and only if the old image had none |
| Kargs.ChainKeepsUserArguments | crates/lib/src/bootc_kargs.rs:197-241 | the same after any chain of upgrades in which no image without a kargs.d directory follows one with arguments |
| Kargs.ThereAndBack | crates/lib/src/bootc_kargs.rs:50-74 | upgrading to another image and back restores the arguments |
| LoaderEntries.ComputeMergedOptions | crates/lib/src/loader_entries.rs:113-137 | the options line after replacing one source's arguments |
| LoaderEntries.UpdateSourceKeys | crates/lib/src/loader_entries.rs:397-411 | the keys after clearing the known sources, setting the kept ones and the target |
| LoaderEntries.DiscoverSources | crates/lib/src/loader_entries.rs:302-348 | the sources found from the booted and the staged entry |
| LoaderEntries.Sysroot.SetOptionsForSource | crates/lib/src/loader_entries.rs:267-434 | the state after a call: unchanged for an invalid name or when nothing changes, otherwise the newly staged entry |
| LoaderEntries.Sysroot.UpgradeTo | crates/lib/src/deploy.rs:1034-1079 | the state after staging a new image from the booted entry |
| LoaderRuns.SetIsPut | crates/lib/src/loader_entries.rs:383-411 | through tombstones, the keys after a call read back, key by key, as the map with the target set or dropped |
| LoaderRuns.SetReadsBack | crates/lib/src/loader_entries.rs:83-103 | after a call with any value, the entry's text, in any order, reads back as that map at the target and at every name that the value's later lines do not set |
| LoaderRuns.RunIsMapRun | crates/lib/src/loader_entries.rs:253-265 | over any run of calls, upgrades and reboots, whoever has the arguments, the sources are the maps that the actions describe |
| LoaderRuns.RunReadsBack | crates/lib/src/loader_entries.rs:83-103 | after any such run the text of the next entry, in any order, reads back as that map |
| LoaderRuns.MergedOwned | crates/lib/src/loader_entries.rs:105-137 | replacing one source's arguments keeps the untracked list and its order and has every source's arguments on the line |
| LoaderRuns.UpgradeCommutes | crates/lib/src/bootc_kargs.rs:67-73 | an upgrade treats the untracked arguments as if the tracked ones were not there |
| LoaderRuns.RunKeepsOwnership | crates/lib/src/loader_entries.rs:253-265 | over any legal sequence of set-options calls, upgrades and reboots: every entry's line is exactly image, user and source arguments, and the sources are the maps that the actions describe |
| LoaderRuns.RunKeepsUntracked | crates/lib/src/loader_entries.rs:105-112 | over any legal sequence of set-options calls and reboots the untracked arguments stay as they were, in order |
| LoaderRuns.UpgradeKeepsSourcesIff | crates/lib/src/deploy.rs:1034-1079 | an upgrade keeps the sources of the next boot exactly if they are the booted ones |
| LoaderRuns.StagedSourcesLost | crates/lib/src/deploy.rs:1034-1079 | after any actions within a boot, an upgrade and a reboot, the sources are those that were booted |
| LoaderRuns.SourceGone | crates/lib/src/deploy.rs:1034-1079 | set, upgrade, reboot: the source is gone; without the upgrade it is there |
| LoaderRuns.SetThenRemoveRestores | crates/lib/src/loader_entries.rs:113-137 | setting a source without arguments, to any value, and taking it away restores the argument sequence and the sources |
| LoaderRuns.UnsetIfNotInForce | crates/lib/src/loader_entries.rs:302-348 | where values are storable, a source that is not in force has no known arguments |
| LoaderRuns.SetTwiceIsSetOnce | crates/lib/src/loader_entries.rs:354-367 | setting any value twice: the second call recognises that nothing changes and stages nothing |
| LoaderRuns.PlainIsStorable | crates/lib/src/loader_entries.rs:85-93 | a one-line value whose whitespace is all ASCII keeps its arguments through being written and read back |
| LoaderRuns.RemoveAfterRebootIff | crates/lib/src/loader_entries.rs:83-137 | set, reboot, take away, for every value: the line is restored exactly if reading the value back lost none of its arguments and made none that was on the line |
| LoaderRuns.ExoticSpaceSticks | crates/lib/src/loader_entries.rs:93-120 | a value with a no-break space before its argument leaves that argument on the line |
| LoaderRuns.SecondLineSticks | crates/lib/src/loader_entries.rs:83-120 | a value with two lines leaves the arguments of the second on the line |
| BlsText.ExtractSourceOptions | crates/lib/src/loader_entries.rs:83-103 | the map read from an entry's text, later lines overriding earlier ones |
| BlsText.ReadLineIff | crates/lib/src/loader_entries.rs:86-96 | a line sets a source exactly if, trimmed, it is the prefix, a name without whitespace, one whitespace character and a value that is not blank |
| BlsText.LaterLineWins | crates/lib/src/loader_entries.rs:97-100 | a later line overrides the earlier ones |
| BlsText.KeyLineReadsBack | crates/lib/src/loader_entries.rs:85-101 | a key line with a readable name reads back as its trimmed value; a blank or emptied key reads back as nothing |
| BlsText.EntryTextRoundTrip | crates/lib/src/loader_entries.rs:51-103 | any entry text whose values bring no other key along, among any other lines, reads back as the reading of its keys that the state model uses |
| BlsText.EntryReadsBackAt | crates/lib/src/loader_entries.rs:51-103 | any values, line breaks included: a name that no other value's lines set reads back as its own value says |
| BlsText.AbsentIffUntold | crates/lib/src/loader_entries.rs:83-103 | a name that is no key reads back as absent exactly if no value has a later line that sets it |
| LoaderRuns.SetBringsIff | crates/lib/src/loader_entries.rs:83-103 | after a call with any value, a name that is no key reads back as absent exactly if the value does not bring it |
| BlsText.LaterLineSetsOther | crates/lib/src/loader_entries.rs:85-101 | a value with a key line behind a line break sets that other source |
| BlsText.MatchIsUnique | crates/lib/src/loader_entries.rs:217-245 | an `ostree=` path ends with at most one slash-free stateroot, checksum and serial |
| BlsText.EntryMatchesOneDeployment | crates/lib/src/loader_entries.rs:226-248 | an entry with one `ostree=` argument matches at most one deployment |
| BlsText.ArgMatchesIff | crates/lib/src/loader_entries.rs:224-244 | an argument matches exactly if it is `ostree=`, any path, and stateroot, checksum and serial behind slashes |
| BlsText.WrittenEntryMatches | crates/lib/src/loader_entries.rs:226-248 | the text of an entry with such an argument on its options line, among any others, matches |
| BlsText.EntryMatchesIff | crates/lib/src/loader_entries.rs:226-248 | an entry whose only `ostree=` argument names a deployment matches that one and no other |
| BlsText.ValidNameIff | crates/lib/src/loader_entries.rs:50-60 | a name is valid exactly if it is not empty and of ASCII letters, digits, hyphens and underscores |
| BlsText.WrittenKeyReads | crates/lib/src/loader_entries.rs:85-101 | a key written out, its name followed by any ASCII whitespace, reads as its trimmed value |
| BlsText.ReadLast | crates/lib/src/loader_entries.rs:85-85 | a last line without a line feed is read like any other |
| BlockDev.WalkToRoots | crates/blockdev/src/blockdev.rs:436-455 | the worklist ends and yields one re-queried device per distinct name of a childless node, in order of first occurrence; it fails exactly if one of these queries fails |
| BlockDev.FindAllRoots | crates/blockdev/src/blockdev.rs:430-456 | the same, and the case of a device that is itself a root |
| BlockDev.LeavesExact | crates/blockdev/src/blockdev.rs:439-444 | the right-to-left walk meets exactly the childless nodes of the parent forest |
| BlockDev.LeavesMeaning | crates/blockdev/src/blockdev.rs:439-444 | and these are the nodes with nothing below them |
| BlockDev.FirstByNamePicks | crates/blockdev/src/blockdev.rs:444-452 | of several nodes with one name the first that is met is kept, and the kept ones stay in order |
| BlockDev.RequeriedAt | crates/blockdev/src/blockdev.rs:444-452 | each device of the answer is the one listed at its node's path, or under /dev by its name |
| BlockDev.RootsByName | crates/blockdev/src/blockdev.rs:444-452 | the answer has every name of a node with nothing below it, each once |
| Esp.FirstEsp | crates/blockdev/src/blockdev.rs:234-274 | the direct search finds the first matching child, and none only if no child matches |
| Esp.SearchIsScan | crates/blockdev/src/blockdev.rs:255-288 | the recursive search is one scan over the reachable nodes in preorder |
| Esp.FoundIsEsp | crates/blockdev/src/blockdev.rs:243-253 | a found device is a child of a reachable node, and its type reads as that node's table demands: the GUID in any case, or one of two numbers in base 16 |
| Esp.AbsentIff | crates/blockdev/src/blockdev.rs:252-254 | nothing is found exactly if every reachable table is of a known type and has no child whose type reads so |
| Esp.ParseIff | crates/blockdev/src/blockdev.rs:262-266 | the parser reads exactly the spellings in base 16 of the numbers below 256, in any case, with leading zeros and a plus sign or not |
| Esp.DirectChildFound | crates/blockdev/src/blockdev.rs:255-277 | the first child whose type reads right is the answer |
| Esp.DosDiskFound | crates/blockdev/src/blockdev.rs:258-269 | a partition of type 0xEF or 0x06, printed in either case with `0x` or without, is found on a disk with an MBR |
| Esp.GuidIsNoMbrId | crates/blockdev/src/blockdev.rs:270-272 | no type reads right for both kinds of table |
| Esp.OtherTableRefused | crates/blockdev/src/blockdev.rs:273-273 | a table of any other type is an error that names it |
| Esp.UnsupportedIsReal | crates/blockdev/src/blockdev.rs:273-273 | an error names the type of a reachable unsupported table |
| TarExport.Exporter.AddFile | crates/lib/src/container_export.rs:289-347 | the first path of a multiply linked inode is written in full, later ones as links to it, and the table stays exact |
| TarExport.Exporter.AddOther | crates/lib/src/container_export.rs:256-287 | one entry for a directory or symlink |
| TarExport.Exporter.OnVisit | crates/lib/src/container_export.rs:180-251 | what the callback writes and answers for skipped, supported and unsupported entries |
| TarExport.Exporter.ExportWalk | crates/lib/src/container_export.rs:162-254 | the stream holds one entry per visit that is not skipped, in order; it fails exactly on an unsupported kind |
| TarReplay.ExportRoundTrip | crates/lib/src/container_export.rs:160-251 | unpacking the stream gives back exactly the tree without the skipped paths |
| TarReplay.SameHardLinks | crates/lib/src/container_export.rs:170-173 | two files share an inode after unpacking exactly if they did before |
| TarReplay.LinkEntriesAreSound | crates/lib/src/container_export.rs:305-329 | a link entry names an earlier regular entry of the same inode, never a skipped path |
| TarExport.SkippedIff | crates/lib/src/container_export.rs:160-205 | what is skipped: /tmp, /var/tmp and /sysroot/ostree with all that lies in them |
| TarReplay.OneRegularPerClass | crates/lib/src/container_export.rs:305-329 | each hard-link class has one regular entry |
| Lints.VisitEntry | crates/lib/src/lints.rs:315-337 | one entry of the walk: lints that do not pass it stop with that verdict, the others go on |
| Lints.WalkRecursive | crates/lib/src/lints.rs:306-339 | one shared walk gives every recursive lint the verdict it would reach alone |
| Lints.RunRecursive | crates/lib/src/lints.rs:340-343 | the results hold every recursive lint once, with its own verdict |
| Lints.Tally | crates/lib/src/lints.rs:344-369 | the counters, and when the run aborts |
| Lints.RunAloneMeaning | crates/lib/src/lints.rs:306-339 | a recursive lint passes exactly if it passes every entry, and otherwise has its verdict on the first that it does not pass |
| Lints.WhereCounted | crates/lib/src/lints.rs:267-377 | which lints apply, what each is judged on, and in which counter it ends |
| Lints.LintInner | crates/lib/src/lints.rs:267-377 | totals count the applicable lints by their own verdicts and add up to the number of lints; the run aborts exactly if an applicable lint breaks off |
| Text.TrimExact | crates/lib/src/loader_entries.rs:86-93 | trimming takes exactly the Unicode whitespace off both ends |
| Text.WordsOfSeparated | crates/lib/src/deploy.rs:1495-1495 | words end at the five ASCII whitespace characters |
| Text.OneWord | crates/lib/src/deploy.rs:1495-1495 | and at no other character |
| Text.UnlinesOfLines | crates/lib/src/deploy.rs:1543-1548 | without carriage returns, writing the lines of a text gives it back, with a line feed at its end |
| Fstab.WriteParts | crates/lib/src/deploy.rs:1524-1535 | the fields with the options replaced, single spaces between |
| Fstab.EditFstabLine | crates/lib/src/deploy.rs:1491-1539 | a line is edited exactly if it is a root entry with options without `ro` and not a comment, and what is written then |
| Fstab.EditedExactly | crates/lib/src/deploy.rs:1491-1539 | for a line given by its fields: when it is edited, and the two lines that are then written |
| Fstab.FixupEtcFstab | crates/lib/src/deploy.rs:1542-1550 | the rewritten text |
| Fstab.RewriteLast | crates/lib/src/deploy.rs:1543-1548 | a last line without a line feed is edited or kept like any other |
| Fstab.RewriteOfNothing | crates/lib/src/deploy.rs:1543-1548 | where nothing is edited, a text without carriage returns stays as it is but for the line feed at its end |
| Fstab.FstabGenerator | crates/lib/src/generator.rs:27-59 | the unit is generated exactly on an ostree boot with an anaconda stamp and no edited stamp |
| Fstab.EditedEntry | crates/lib/src/deploy.rs:1519-1538 | the edited line has the old fields with `ro` among the options, and neither new line needs an edit |
| Fstab.EditLinesLocal | crates/lib/src/deploy.rs:1543-1548 | every other line stays in place and order |
| Fstab.RewrittenIsReadOnly | crates/lib/src/deploy.rs:1510-1524 | after the rewrite every root entry with options that is not a comment carries `ro` |
| Fstab.IdempotentIff | crates/lib/src/deploy.rs:1541-1550 | the rewrite is idempotent exactly if no line left alone is read with a trailing carriage return |
| Fstab.CarriageReturnsWearOff | crates/lib/src/deploy.rs:1543-1547 | for any line left alone, a text on which the second pass changes the first one's result |
| Fstab.ScannedExactly | crates/lib/src/generator.rs:33-58 | the scan of a text, its last line with a line feed or without, by the words of the two stamps |
| Fstab.ScanAfterRewrite | crates/lib/src/generator.rs:33-58 | the scan asks for the rewriter again exactly if it did before and nothing was edited |

## Left out

- Reading trees from disk (`traverse_etc`, hashing, fs-verity and xattr calls): the trees are inputs; leaves are stored in the tree instead of in a leaf table.
- Leaf kinds other than regular files and symbolic links in `/etc`: the traversal never yields them.
- Error arms for path names that are not plain components: paths are sequences of names here.
- Failures of the system other than missing parents, non-directories and taken names; clearing of set-id bits by `chown`; automatic security labels on created files.
- EtcMerge.MergeLeaf: on a live tree with a symbolic link above the path, which a merge never meets (`EtcMergeSteps.StepExact`), the call is refused; the program would follow the link.
- EtcMerge.CreateDirWithPerms: the same.
- `print_diff`, `print_unmergable_paths` and other display code.
- Quoting inside kernel arguments and the equivalence of `-` and `_` in their keys: an argument is a word between ASCII whitespace, compared as text. The command-line parser itself is not part of this model.
- The `ostree=` argument, which staging rewrites for each deployment, is treated as one more untracked argument.
- TOML parsing and the readers of kargs.d. Extending a command line by another is taken to add its arguments in turn.
- LoaderRuns.RunKeepsOwnership: values given to sources lose no argument by being written and read back (`Storable`) and bring no other source along (`Contained`); what fails otherwise is said by `RemoveAfterRebootIff` and `LaterLineSetsOther`.
- LoaderRuns.RemoveAfterRebootIff: what libostree makes of a later line of a value that is a key of another kind, such as a second `options` line, is not part of this model.
- LoaderRuns.SetIsPut: key by key; which of two keys wins that set the same name depends on the order in which libostree writes them. `SetReadsBack` says where that does not matter.
- Version checks, missing bootconfigs and I/O errors of `set_options_for_source_staged`.
- `lsblk`, `blkid`, sysfs, ZFS and loopback code: listing a device is an arbitrary function.
- Fields of `Device` that neither search looks at.
- SELinux labels, kernel relocation and header bytes in the tar export; mount points inside the exported tree.
- Bodies of the individual lints, the order of output lines, and which of several unexpected errors is named.
- Invalid UTF-8 in `/etc/fstab`, and writing the systemd units.
- Pulling, progress display, pruning, rollback, installation and the command line: orchestration with few decisions of its own.
