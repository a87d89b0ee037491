# Verified models of the repository's maintenance tools

This project models five of the repository's Python tools in Dafny and proves what they
promise: the documentation checker with its reversible archive of moved pages, the retention
planner for build artifacts with its deleter, the staging and verification of packaged
documentation, the fingerprint printer for syntax trees, and two parts of the validator of the
functional catalogue. `dafny verify dfyconfig.toml` checks everything.

## The documentation archive

A page that moves has its relative links rewritten, and a ledger records at which offset which
text was replaced. `MarkdownScan` is the scanner for link destinations, with its code fences;
`Splicing` replaces destinations and undoes the ledger from right to left; `Paths` and `Links`
are `normpath`, `join`, `relpath`, percent-encoding (section 2.1 of RFC 3986) and `urlsplit`;
`Relocation` says what becomes of one link; `ArchiveRecords` holds the relocation loop and the
check of a stored record. `Destinations` and `FencedBlocks` say on the bytes of a page, and
`LinkRules` on those of a link, what these definitions come to; `LinkExample` is a document that
moved together with the page that links to it. `Rescan`, `PageRescan`, `Survival` and `PlainPages` compare what the
scanner finds on the archived page with what it found on the page.

Scanning an archived page does not always give the replaced destinations. There are two ways to
fail, and `SurvivalExamples` has a page for each. Text like `<>a?b>c>` is scanned as a plain
destination, because the pattern for brackets wants something inside them; its rewriting has
something inside, and the `>` of the query then closes the brackets early. And a reference
definition can hold a tab that `urlsplit` removes, so that `]` and `(` come together and open an
inline destination. `Survival.RescanExactly` proves that these are the only ways: the archived
page is scanned as it should be if and only if no rewritten destination carries a `>` from its
query or fragment into brackets, and no rewritten reference definition carries `](` with it.
Pages without tabs and without `<>` meet the condition.

`Headings` models the allotment of heading identifiers: the search for a free suffix ends,
because more tries than names used would need more different names than there are.

## Artifact retention

`Inventory` checks an inventory and puts it into canonical form, `Retention` states the policy,
and `Planner` has the loops: tiers assigned in place, groups collected in a dictionary,
duplicates marked. `InventoryRules` says on the texts of an inventory when it is accepted, and
`PlanRules` in numbers and texts which rule the rows of its plan obey; `PlanExample` has two
versions and their plan. `RetentionLaws` and `RetentionGroups` prove what the plan promises.
`AllowedPlaces` and `AllowedDeletions` prove that nothing outside the allowed roots is accepted,
planned or deleted. The
planner sorts a set of version texts by their three numbers, and a set has no order; `1.0.0` and
`01.0.0` tie. `VersionTies` proves exactly when that matters, and `TieExample` gives two plans
of one inventory.

Plans are made in one process and validated in another, and the iteration order of a set of
texts differs between them. `PlanRuns` therefore compares runs with two orders. A plan of one
run is accepted in every other, and reordered inventories have the same plan in all runs, if and
only if no tie decides about a file; `TieExample.PlanRefused` is a plan refused in another run.
Adding pins deletes no file that another run kept if and only if no tie decides whether a file
is kept, which is a weaker condition: a tie can change the reason without changing the file.

`Volumes` is a file system in which the link count of an inode is the number of names that lead
to it. `Deletion` applies a plan to it as the tool does, `DeletionLaws` says what the result is
when nobody interferes, `FileChecks` what its checks compare, field by field, and `DeletionSteps` is the same protocol cut into single observations
with anything at all happening in between; what a read of a file gives is arbitrary there, since
the file can change while it is read. `DeletionSafety` says what holds of all its runs. The
unlink takes the inode the path showed last, unless a disturbance comes between that sighting
and the unlink; this is the only window.
`DeletionAgrees` proves that without disturbance the steps come to the same as the application
in one piece.

## Packaged documentation

`PackageLinks` proves that the links of relocated guides lead where they led in the mirrored
tree, for the flat copies, the tar root and the two companion guides. In the companions every
moved link is read back as it was written. In the other copies it is not if and only if the link
climbs exactly out of the directories above it and lands on a name that looks as if it began
with a scheme (`../a:b` becomes `a:b`) or begins with a byte that the URL splitter strips.

`GuideRewriting` rewrites the text of a guide, with the tool's own patterns; they differ from
those of the documentation checker. `GuideWords` says on the bytes of a guide what its lines,
blocks and links are and what becomes of them. `GuideLaws` proves that a copy has the lines of the guide
under the same fences, with fenced lines and markers unchanged. `GuideDefinitions` is about lines
that begin a reference definition: their inline destinations are moved first, and the definition
is then looked for on the result. It is found with its own destination if and only if the inline
destinations that start in it are left alone, as far as it reaches, and no other brings a `>` that
closes a bracket it begins with. `GuideCopies` and `GuideLandings` bring this to the layouts and
say, from the guide alone, when reading a copy again gives the moved destinations.

What goes wrong is in `GuideExamples` and `TangledExamples`. `](<ab)` becomes `](<docs/a>)`,
because a destination that begins with `<` loses its last byte even when no bracket closes.
`](../<a b>)` becomes `](<a b>)`, and `[a]: ../<b c>` becomes `[a]: <b c>`. In `[a]: x](y)` the
inline destination is moved, and then once more as part of the definition; in `[a]: <x [t](<ab)`
nothing overlaps, but the bracket added to the inline destination closes that of the definition.

`SourceDocuments` chooses the documents of a repository. `PackageTree` and `PackageContents` stage
the expected files into a tree and verify it; `PackageRules` says which file has which content. A
staged tree verifies exactly if it had no packaged documents before and no expected file is over the
size limit. The limit is checked on the sources, but not on rewritten guides:
`PackageContents.GuideCanOutgrow` gives a companion guide of 3 000 000 bytes, a list of links
`[](a)`, whose mirror has 19 500 000, so that the tool stages it and then refuses its own tree.

## Syntax-tree printouts and the functional catalogue

`AstDump` prints trees to tokens and parses them back, and `AstSlots` says which fields show.
`ParentCheck` is the depth-first cycle
check, and `DigestFrame` the byte stream behind the source digest.

## Conventions

Texts that the tools handle as bytes or encode at once are sequences of bytes; other texts are
strings, ordered by code point. A refusal is `None`, `false` or `Refused`; which message it
carries is not modelled. Assumptions on things the model cannot see are parameters: what
decoding makes of bytes that are not UTF-8 (`repair`), which destinations decode and are taken
by `urlsplit` (`accepts`), the values of digit characters, the iteration order of sets, the
digests, and, for the deleter, which directories cannot be opened and where it is stopped.

## Model

| member | source | states |
|---|---|---|
| MarkdownScan.FindInline | scripts/check-documentation.py:65-66 | the successive matches of the inline pattern are the leftmost, non-overlapping destinations of the line |
| MarkdownScan.ScanLine | scripts/check-documentation.py:57-70 | a line yields its destinations only outside fences, and turns the fence state as markers open and close blocks |
| MarkdownScan.MarkdownTargets | scripts/check-documentation.py:50-70 | the one-pass loop with offset and fence yields exactly the spans of the page, line by line; which these are, `FencedBlocks` says on the bytes |
| Destinations.InlineAre | scripts/check-documentation.py:65-66 | the inline destinations of a line are exactly those behind a `](` with a byte that is neither white space nor `)`, unless the `](` is inside an earlier one; each goes to the `>` that closes its bracket or up to white space or `)` |
| Destinations.InlineAreUnique | scripts/check-documentation.py:65-66 | only one collection of spans is that |
| Destinations.DefinesIs | scripts/check-documentation.py:67-68 | a line has a reference definition exactly if at most three spaces, a label in brackets, a colon and white space come before its destination |
| FencedBlocks.MarkerIs | scripts/check-documentation.py:58 | a line's marker is the run of three or more backticks or tildes that its first byte behind white space begins |
| FencedBlocks.FencedBlockIsSilent | scripts/check-documentation.py:56-70 | a line outside the blocks with such a run opens one: nothing is yielded from there up to the first later line with at least as many of the same byte, which ends the block |
| FencedBlocks.ClosedFirst | scripts/check-documentation.py:62-63 | no line of the block before that one begins so |
| FencedBlocks.PlainLineIsScanned | scripts/check-documentation.py:56-70 | of any other line outside the blocks exactly the inline destinations and that of its definition are yielded |
| FencedBlocks.InOrOut | scripts/check-documentation.py:56-70 | every line of a page is outside the blocks or inside one |
| FencedBlocks.FencedExample | scripts/check-documentation.py:58-64 | on the page `~~~`, `[a](b)`, `~~~` nothing is yielded, and neither with backticks |
| FencedBlocks.PlainExample | scripts/check-documentation.py:65-66 | on the page `[a](b)` the bytes 4 to 5 are yielded |
| SpanOrder.SortedYield | scripts/check-documentation.py:65-76 | sorting what the scanner yields gives the destinations in page order, although inline ones come before a reference definition |
| ArchiveRecords.Relocate | scripts/check-documentation.py:73-94 | the loop with growing result, ledger and cursor refuses exactly overlapping or unreadable destinations, and otherwise builds page and ledger span by span |
| Relocation.ReplacementShape | scripts/check-documentation.py:78-87 | a rewritten destination keeps its brackets, begins with an unreserved byte or `%`, and uses no byte but safe ones and its own |
| Splicing.UndoIsLocal | scripts/check-documentation.py:111-114 | undoing rows that lie inside a prefix leaves everything behind it alone |
| Splicing.UndoRestores | scripts/check-documentation.py:88-114 | undoing the ledger from right to left restores the page although earlier replacements shift later offsets |
| Splicing.LedgerPassesForward | scripts/check-documentation.py:88-110 | the ledger of a relocation passes the forward offset check |
| Splicing.ForwardIsChained | scripts/check-documentation.py:102-114 | any ledger that passes the forward check can be undone without clipping or overlap |
| ArchiveRecords.RelocationIsReversible | scripts/check-documentation.py:73-116 | every relocation passes the forward check, and its undo restores the page exactly |
| ArchiveRecords.RelocationIsInjective | scripts/check-documentation.py:73-116 | archived page and ledger determine the page |
| ArchiveRecords.CheckOffsets | scripts/check-documentation.py:102-110 | the loop accepts exactly ledgers whose rows are in order, nonempty and found where they say |
| ArchiveRecords.UndoLedger | scripts/check-documentation.py:111-114 | the reversed loop is the undo of the ledger |
| ArchiveRecords.VerifyRecord | scripts/check-documentation.py:97-122 | a record is accepted if and only if it comes of relocating some page of the recorded size and digest, and that page, the only one, is returned |
| ArchiveRecords.OnlyPagesAreRewritten | scripts/check-documentation.py:117-120 | what a source is archived as: relocated if its path ends in `.md`, and otherwise as it is |
| Paths.NormJoinNorm | scripts/check-documentation.py:82 | normalising the relative second part first does not change where a joined path leads |
| Paths.InsideIsPlain | scripts/check-documentation.py:82-83 | a normalised relative path that does not begin by going up never goes up |
| Paths.RelPathLeads | scripts/check-documentation.py:84 | from its start directory `relpath` leads to the path, whatever the working directory |
| Paths.RelPathArrives | scripts/check-documentation.py:84 | the same from the root on, for paths that are absolute or leave the repository, too |
| Links.DecodeQuote | scripts/check-documentation.py:82-85 | percent-decoding undoes percent-encoding for all bytes |
| Links.UrlRoundTrip | scripts/check-documentation.py:79-85 | splitting an unsplit relative reference gives its parts back if and only if the path neither begins with a stripped byte nor looks like a scheme |
| LinkRules.EscapeRead | scripts/check-documentation.py:82 | `%` and two hexadecimal digits of either case stand for their byte |
| LinkRules.OtherRead | scripts/check-documentation.py:82 | every other byte stands for itself, a `%` without two such digits, too |
| LinkRules.QuoteIs | scripts/check-documentation.py:85 | encoding leaves letters, digits and `/.-_~` and writes every other byte as its upper-case escape |
| LinkRules.LocalIs | scripts/check-documentation.py:78-81 | a clean text is a local link exactly if it begins with neither a scheme and its colon, nor a slash, nor the mark of a query or fragment |
| LinkRules.AuthorityIs | scripts/check-documentation.py:79-80 | two slashes announce an authority, up to a slash or the mark of a query or fragment |
| LinkRules.DirnameIs | scripts/check-documentation.py:82-84 | the directory of a path is what comes before the slashes in front of its name, or those slashes |
| LinkRules.JoinIs | scripts/check-documentation.py:82 | joining puts one slash between a directory and a relative path, and takes an absolute path alone |
| LinkRules.SlashesAre | scripts/check-documentation.py:82 | a normal path keeps one or two slashes at its start, and has one for more |
| LinkRules.BackAgain | scripts/check-documentation.py:82 | a name and `..` behind it, a `.`, and an empty component come to nothing in a path |
| Relocation.LinkMeaningKept | scripts/check-documentation.py:76-87 | a link with a relative path, no scheme and no authority whose document is in the repository leads, from the archive directory and decoded, to the place the mapping has for that document, or to its old place, wherever link and document are, and inside the repository by the very path; query and fragment are kept |
| Relocation.OtherLinksStay | scripts/check-documentation.py:80-83 | every other link stays as it is |
| LinkExample.ReadmeLink | scripts/check-documentation.py:15-27 | the link `README.md` of `DEVELOPMENT.md` becomes `project-readme.md` in the archive |
| ArchiveRecords.FencesKept | scripts/check-documentation.py:57-70 | the archived page has as many lines under the same fences; fenced lines and markers are byte-identical |
| ArchiveRecords.ArchiveRescan | scripts/check-documentation.py:50-94 | the archived page is scanned to the moved destinations, the k-th holding the k-th replacement, exactly if every scanned line survives |
| Survival.RescanExactly | scripts/check-documentation.py:50-94 | the same condition on the text of the page: no destination that is rewritten carries a `>` into brackets, and no reference definition that is rewritten carries an opening |
| SurvivalExamples.BracketFails | scripts/check-documentation.py:65-87 | a page that relocation accepts and whose archived form shows another destination: the first way to fail |
| SurvivalExamples.OpeningFails | scripts/check-documentation.py:65-87 | the second way to fail, by a removed tab |
| PlainPages.PlainPagesSurvive | scripts/check-documentation.py:50-94 | pages without tabs and `<>` are always scanned to the replaced destinations |
| Headings.DecimalIs | scripts/check-documentation.py:167 | a suffix is the decimal text of its number |
| Headings.DecimalInjective | scripts/check-documentation.py:167 | different numbers give different suffixes |
| Headings.TriesTaken | scripts/check-documentation.py:164-167 | if the first n names tried are all used, at least n names are used |
| Headings.FindFree | scripts/check-documentation.py:164-167 | the search loop ends, with the first free name |
| Headings.HeadingIds | scripts/check-documentation.py:143-170 | given what the patterns find on each line, the scan returns the explicit identifiers outside fences and one identifier for each heading there, in order of the headings |
| Headings.IdsAreLeastFree | scripts/check-documentation.py:164-168 | every heading gets the least suffix not taken by an earlier one, within as many tries as earlier headings plus one |
| Headings.IdsAreDistinct | scripts/check-documentation.py:164-168 | identifiers are distinct and as many as headings outside fences |
| Headings.EarlierIdsStay | scripts/check-documentation.py:143-170 | headings added at the end leave earlier identifiers as they are |
| Headings.LookAlikeAfter | scripts/check-documentation.py:164-167 | a heading `one-1` after two headings `one` becomes `one-1-1` |
| Inventory.PathReadBack | scripts/local-artifacts.py:47-51 | the text of an accepted path is accepted as the same path |
| Inventory.OctalReadBack | scripts/local-artifacts.py:77-83 | four octal digits survive the conversion to a number and back |
| Inventory.Normalize | scripts/local-artifacts.py:59-86 | the schema checks, entry by entry, accept exactly good inventories and give their canonical form; which these are, `InventoryRules` says on the texts |
| InventoryRules.AcceptedIff | scripts/local-artifacts.py:59-86 | an inventory is accepted if and only if its roots are different allowed ones, its pins different and not empty, and its at most 100000 entries well-formed files with different paths, each strictly below one of the roots |
| InventoryRules.CanonicalFormIs | scripts/local-artifacts.py:82-86 | the canonical form has the same roots, pins and files, in order, and says of every file what the inventory says |
| InventoryRules.AcceptedFilesAreInside | scripts/local-artifacts.py:53-71 | every file of a canonical form begins with the text of an allowed root and a slash, goes on behind that, and has no component `..` |
| AllowedPlaces.AllowedRootIs | scripts/local-artifacts.py:54-56 | the allowed roots are the two dependency directories of the checkout and the task directories right under `/tmp`, on their texts |
| AllowedPlaces.ComponentsAre | scripts/local-artifacts.py:47-51 | the components of a path are the pieces between its slashes except the empty ones and `.` |
| AllowedPlaces.CanonicalTextIs | scripts/local-artifacts.py:47-51 | a canonical path text begins with one slash, or two if there were exactly two, and has the components with slashes between them |
| Texts.TextOrder | scripts/local-artifacts.py:86 | texts are compared as in a dictionary |
| Inventory.NormalizedOnce | scripts/local-artifacts.py:59-86 | the canonical form is accepted and canonical |
| Inventory.NormalizedIgnoresOrder | scripts/local-artifacts.py:59-86 | the canonical form does not depend on the order of roots, pins, entries or features |
| Planner.AssignTiers | scripts/local-artifacts.py:97-107 | the in-place loop gives every row its tier |
| Planner.GroupEntries | scripts/local-artifacts.py:108-113 | the dictionary holds, for each identity, exactly the known entries with it |
| Planner.ChooseCanonical | scripts/local-artifacts.py:115 | the minimum of a group represents it: marked copies first, then by path |
| Planner.MarkDuplicates | scripts/local-artifacts.py:117-119 | exactly the single-link members other than the representative go, naming it |
| Planner.SettleGroups | scripts/local-artifacts.py:114-119 | the group loop refuses exactly inventories with disagreeing sizes, and otherwise leaves every row as the policy decides |
| Planner.MakePlan | scripts/local-artifacts.py:94-121 | the planner computes the plan the policy defines, or refuses where it defines none; what the policy says of every row is `PlanRules.RowsObeyRule` |
| PlanRules.RowsObeyRule | scripts/local-artifacts.py:89-121 | every row obeys the rule in numbers and texts: a known single-link file without a preferred copy and without a pin is the latest, the previous or an older version by how many known versions have greater numbers, those with equal numbers counting or not |
| PlanRules.SizesDecide | scripts/local-artifacts.py:116 | an inventory that passes the schema has no plan exactly if two copies differ in size |
| PlanRules.KnownParts | scripts/local-artifacts.py:89-91 | the provenance that counts as known, field by field |
| PlanRules.VersionRead | scripts/local-artifacts.py:90-96 | a version text of three numbers with dots between them is read as these numbers, each digit by its place |
| PlanRules.VersionIsRead | scripts/local-artifacts.py:90 | no other text is a version |
| PlanExample.TwoVersionPlans | scripts/local-artifacts.py:94-107 | of two test artifacts `1.0.0` and `2.0.0` the second is kept as the latest version and the first deleted; `10.2.0` is newer than `2.0.0` |
| Planner.ValidatePlan | scripts/local-artifacts.py:184-188 | a plan is accepted exactly if some inventory has it as its plan in this run, which is if planning its own entries gives it back |
| Retention.OneRepresentative | scripts/local-artifacts.py:114-115 | a group of files with distinct paths has exactly one representative |
| RetentionLaws.PlanParts | scripts/local-artifacts.py:94-121 | the rows of a plan are the decisions on its canonical entries, whose paths are distinct |
| RetentionLaws.DeleteRule | scripts/local-artifacts.py:89-121 | a file goes if and only if it is known with one link and is older-rebuildable or does not represent its group; `duplicate-of` names the representative |
| RetentionLaws.ValidPlansAreMade | scripts/local-artifacts.py:94-188 | in one run the accepted plans are exactly those that planning makes |
| AllowedDeletions.PlannedFilesAreInside | scripts/local-artifacts.py:53-121 | every file of an accepted plan lies below a root of the plan that is allowed |
| PlanRuns.PlansAreAccepted | scripts/local-artifacts.py:94-188 | every plan made in any run is accepted in every other run if and only if no tie leaves a file undecided |
| TieExample.PlanRefused | scripts/local-artifacts.py:94-188 | the plan of an inventory with `1.0.0` and `01.0.0` made in one run is refused in another |
| PlanRuns.PlanIgnoresOrder | scripts/local-artifacts.py:59-121 | reordered inventories have the same plan in all runs if and only if no tie leaves a file undecided |
| PlanRuns.PinsOnlyProtect | scripts/local-artifacts.py:97-119 | adding pins never deletes a file that another run kept, if and only if no tie decides whether a file is kept |
| RetentionGroups.GroupsSurvive | scripts/local-artifacts.py:97-119 | a group keeps a member if and only if some member's tier keeps it |
| VersionTies.PlanIsDetermined | scripts/local-artifacts.py:96-105 | the plan is the same for all iteration orders of the version set if and only if no file is left undecided by a tie for the latest or the previous version |
| VersionTies.DistinctTriplesDecide | scripts/local-artifacts.py:96-105 | known versions with distinct triples leave nothing undecided |
| TieExample.PlansDiffer | scripts/local-artifacts.py:96-105 | an inventory with `1.0.0` and `01.0.0` has two different plans |
| Volumes.OthersKept | scripts/local-artifacts.py:147-162 | removing single-link files changes neither inode nor link count of any other file |
| Deletion.Disk.Unlink | scripts/local-artifacts.py:214 | the name goes, and the inode with its last name |
| Deletion.Disk.CheckFile | scripts/local-artifacts.py:152-169 | the check of one file: present, absent where that is allowed, or failed |
| Deletion.Disk.CheckBatch | scripts/local-artifacts.py:203 | the batch passes exactly if every file does |
| Deletion.Disk.DeleteFile | scripts/local-artifacts.py:207-219 | one deletion: its result, or the end of the run, and what it leaves on the disk |
| Deletion.Disk.DeleteRows | scripts/local-artifacts.py:204-221 | the delete loop, up to the first row that fails |
| Deletion.Disk.ApplyPlan | scripts/local-artifacts.py:191-221 | nothing changes unless inactivity is confirmed, the plan valid, the locks held and every file checked; then the delete loop runs |
| FileChecks.CheckIs | scripts/local-artifacts.py:147-169 | the check of a file, field by field: device, inode, size, time, permission bits, number of names, then owner and content |
| FileChecks.GoneWasRecorded | scripts/local-artifacts.py:184-221 | a name that an attempt removes is one the plan marks, and it was the only name of the very file the plan recorded, with the recorded content |
| AllowedDeletions.OnlyAllowedNamesGo | scripts/local-artifacts.py:53-221 | whatever plan is attempted, a name that goes lies below a dependency directory of the checkout or a task directory right under `/tmp` |
| DeletionLaws.CheckedBatchRuns | scripts/local-artifacts.py:203-221 | after a successful batch check only trouble with a deletion stops the run; outcomes are those of the rows before it, with its own if it was recorded before an interrupt, and the volume is the first one without exactly the files deleted so far |
| DeletionLaws.ApplyingTwice | scripts/local-artifacts.py:203-221 | deleting the files of an applied plan again changes nothing and finds every one already absent |
| DeletionLaws.KeptFilesStay | scripts/local-artifacts.py:203-221 | whatever stops the run, a kept file has its recorded identity and content |
| DeletionLaws.NoKeptContentIsLost | scripts/local-artifacts.py:94-221 | after any run of what planning decides, applied or partial, every group whose tier policy keeps a member still has a path with its content |
| DeletionLaws.AttemptLosesNothing | scripts/local-artifacts.py:184-221 | an attempt to apply a plan is refused and changes nothing, or leaves every group whose policy keeps a member with its content |
| DeletionLaws.AttemptTwice | scripts/local-artifacts.py:184-221 | attempting an applied plan again, in another run, changes nothing: it is refused if not confirmed, locked and accepted there, and otherwise every file to delete is already absent |
| DeletionSafety.EveryUnlinkIsJustified | scripts/local-artifacts.py:152-216 | in every interleaving an unlink is of a delete-marked file, right after its path showed the planned identity and after a complete check of it, when every file of the plan had been checked |
| DeletionSafety.RejectedBatchRemovesNothing | scripts/local-artifacts.py:203-204 | a file that fails the batch check ends the run with nothing unlinked |
| DeletionSafety.ReceiptsAreTruthful | scripts/local-artifacts.py:204-221 | receipts list the first rows in order, `deleted` exactly where the tool unlinked; they end before or with the row of the uncertain path, and nothing behind that row was touched |
| DeletionSafety.SightedBefore | scripts/local-artifacts.py:207-214 | a path about to be unlinked was sighted with its planned identity, and the deleter has done nothing since |
| DeletionSafety.UnlinkTakesTheSighted | scripts/local-artifacts.py:207-216 | the unlink takes the planned inode unless a disturbance comes between that sighting and the unlink |
| FileChecks.UndisturbedUnlink | scripts/local-artifacts.py:207-214 | a step-by-step unlink without such a disturbance takes the file the plan recorded, field by field |
| DeletionSafety.UnlinkAfterDisturbance | scripts/local-artifacts.py:207-214 | the window is real: a path can come to lead anywhere between its last sighting and the unlink |
| DeletionSafety.AnyDisturbance | scripts/local-artifacts.py:152-221 | nothing that others can do to the volume between two steps is left out |
| DeletionSafety.AnyReading | scripts/local-artifacts.py:164-166 | a read can give any digest |
| DeletionSafety.AnyStop | scripts/local-artifacts.py:204-219 | an error or an interrupt can end the work on a row anywhere, and right after its unlink |
| AllowedDeletions.OnlyAllowedPathsAreUnlinked | scripts/local-artifacts.py:53-221 | in every interleaving only paths below the allowed roots are unlinked |
| DeletionAgrees.StepsReachApplication | scripts/local-artifacts.py:152-221 | undisturbed, the steps reach the volume and receipt of the application in one piece |
| PackageLinks.NormJoinNormFirst | scripts/package-docs.py:104-105 | normalising the relative first part first does not change where a joined path leads |
| PackageLinks.RelocatedPathLeads | scripts/package-docs.py:98-106 | from any directory the relocated path leads where the path leads behind directory, prefix and base |
| PackageLinks.RelocatedReadBack | scripts/package-docs.py:98-106 | a relocated link is read back with its new path, query and fragment if and only if the part of place or link that the new path begins with does not look like a scheme or begin with a stripped byte |
| PackageLinks.LayoutsKeepLinks | scripts/package-docs.py:26-157 | in the flat, tar-root and companion layouts a local link leads from the copy where it led from the mirrored place, and other links are untouched; it is read back always in companions, and elsewhere if and only if it does not climb out of the tree onto a mistaken name |
| PackageLinks.ColonExample | scripts/package-docs.py:98-106 | `../a:b` becomes `a:b`, which has a scheme |
| GuideRewriting.MoveInline | scripts/package-docs.py:115-127 | the successive matches of the inline pattern, replaced |
| GuideRewriting.RelocateGuide | scripts/package-docs.py:109-139 | the pass over the lines with a fence state rewrites exactly the lines outside fences, inline destinations before a definition |
| GuideWords.FencedBlockStays | scripts/package-docs.py:128-138 | a guide that begins with a run of three or more backticks or tildes keeps everything up to and with the first later line that begins with at least as many of the same |
| GuideWords.PlainLineIsMoved | scripts/package-docs.py:128-138 | a guide that begins with any other line has that line moved, and goes on |
| GuideWords.FirstLinkMoved | scripts/package-docs.py:115-125 | the first link of a line, told from its bytes, has its destination moved; what comes before stays, and the rest is moved from the end of the destination on |
| GuideWords.NoLinkKept | scripts/package-docs.py:115-125 | a line without links keeps its text |
| GuideWords.DefinitionIsMoved | scripts/package-docs.py:116-137 | then the destination of the definition the line has by then is moved |
| GuideWords.NoDefinitionKept | scripts/package-docs.py:116-137 | a line that has no definition by then stays as it is then |
| GuideWords.FirstLineIs | scripts/package-docs.py:128 | lines end behind line feed, vertical tab, form feed and the three separators |
| GuideWords.FencedGuideStays | scripts/package-docs.py:128-138 | a link between two lines of three tildes, or of three backticks, stays as it is |
| GuideCopies.BreakIsRead | scripts/package-docs.py:149-155 | a carriage return, with or without a line feed behind it, is read as a line feed |
| GuideCopies.TextIsRead | scripts/package-docs.py:149-155 | a file without carriage returns is its text |
| GuideLaws.GuideKeepsLines | scripts/package-docs.py:109-139 | a rewritten guide has the same lines under the same fence states; fenced lines and markers are unchanged, the others rewritten |
| GuideLaws.InlineTargetsMoved | scripts/package-docs.py:115-137 | reading a line with moved inline destinations finds exactly the moved ones if and only if none opens a bracket that the rest of the line closes |
| GuideDefinitions.DefinitionFound | scripts/package-docs.py:115-137 | after the inline destinations of its line have been moved, a definition is found with the same destination if and only if those do not interfere with it |
| GuideDefinitions.DefinitionLineBecomes | scripts/package-docs.py:115-137 | then the line is what comes before the destination, the destination moved once, and the moved rest |
| GuideDefinitions.DefinitionTargetMoved | scripts/package-docs.py:116-137 | read again, such a definition has the moved destination if and only if a bracket it begins with does not close elsewhere |
| GuideDefinitions.DefinitionInlineMoved | scripts/package-docs.py:115-137 | if the definition's destination has no `](` before or after, exactly the moved inline destinations are read on such a line if and only if none is caught |
| GuideCopies.MoverIsCareful | scripts/package-docs.py:98-125 | a moved destination is not empty, keeps closed brackets closed, and uses no bytes but its own and those of directory names |
| GuideCopies.HandedWhole | scripts/package-docs.py:118-124 | a destination is handed on whole if and only if it does not begin with a bracket that does not close at its end |
| GuideLandings.MovedDescent | scripts/package-docs.py:98-106 | a moved link is some directory names and what the link goes down to; only links that land outside the tree lose all names before it |
| GuideLandings.CaughtIff | scripts/package-docs.py:98-137 | in a layout an inline destination is caught if and only if it lands on a bracket, what it goes down to does not close that, and the rest of the line will |
| GuideLandings.MiscutIff | scripts/package-docs.py:98-137 | when the moved destination of a definition is cut in the wrong place, told from the line alone |
| GuideLandings.CompanionsCatchNothing | scripts/package-docs.py:26-29 | in the companion guides no inline destination is ever caught |
| GuideLandings.CopyReadsBack | scripts/package-docs.py:98-157 | every copy keeps lines, fences and examples; its other lines are read with the moved destinations exactly under these conditions on the guide |
| GuideExamples.UnclosedExample | scripts/package-docs.py:115-127 | `[x](<ab)` becomes `[x](<docs/a>)` |
| GuideExamples.CaughtExample | scripts/package-docs.py:98-137 | `](../<a b>)` becomes `](<a b>)`, which has another destination |
| TangledExamples.TangledExample | scripts/package-docs.py:115-137 | `[a]: x](y)` is moved twice, to `[a]: docs/x](docs/y)` |
| TangledExamples.ClosedLateExample | scripts/package-docs.py:115-137 | after the inline destination of `[a]: <x [t](<ab)` has been moved, the definition has the destination `<x [t](<docs/a>` |
| TangledExamples.CutExample | scripts/package-docs.py:98-137 | `[a]: ../<b c>` becomes `[a]: <b c>`, which has another destination |
| TangledExamples.AcrossExample | scripts/package-docs.py:98-137 | an inline destination that goes on behind the definition's bracket can be moved without changing the definition |
| PackageTree.Tree.SafeDestination | scripts/package-docs.py:160-176 | a destination is accepted exactly if directories lead to it and it is free, or a regular file in the size limit |
| PackageTree.Tree.MakeDirectories | scripts/package-docs.py:184 | exactly the missing directories on the way are added |
| PackageTree.Tree.Stage | scripts/package-docs.py:179-189 | staging succeeds exactly if all destinations are free, changes nothing otherwise, and adds exactly the items and the directories to them |
| PackageTree.Tree.Verify | scripts/package-docs.py:192-212 | a tree is accepted exactly if every expected file has its bytes and the documentation tree holds no other file |
| PackageRules.ExactIs | scripts/package-docs.py:192-212 | which trees these are: every expected file is found behind directories with its bytes, and what else lies below `share/doc/suzaku/docs` are directories |
| SourceDocuments.Visit | scripts/package-docs.py:63-71 | the walk accepts exactly directories with only directories and static documents below, and finds each of these files once |
| SourceDocuments.StaticIs | scripts/package-docs.py:63-71 | documents have something before `.md`, `.mmd` or `.json` |
| PackageRules.LimitsAre | scripts/package-docs.py:30-90 | 16 MiB for a file, 128 MiB and 4096 files for a selection |
| PackageRules.TotalIsSum | scripts/package-docs.py:89 | the total size is the sum of the sizes |
| SourceDocuments.Choose | scripts/package-docs.py:55-95 | exactly orderly repositories whose documents keep to the limits are accepted, and the documents chosen are those of the policy |
| SourceDocuments.ChosenIsSelection | scripts/package-docs.py:55-95 | the documents of an orderly repository are a selection: none lies above another, and all that the package needs are there |
| SourceDocuments.PackageDocuments | scripts/package-docs.py:142-157 | the dictionary of expected files of a repository: its documents, the rewritten copies of guides and the overridden companions |
| PackageContents.ExpectedFiles | scripts/package-docs.py:145-157 | the same from the documents chosen |
| PackageRules.GuideCopiesAre | scripts/package-docs.py:150-157 | every flat guide has its copy beside the documentation and, in the tar, one in the root, where the packaging guide is the read-me |
| PackageRules.CompanionsAre | scripts/package-docs.py:148-149 | the read-mes of the companion trees are the mirrored guides, relocated |
| PackageRules.SourcesAre | scripts/package-docs.py:145-147 | every other document is there as it is |
| PackageContents.CopiesAreLayouts | scripts/package-docs.py:26-157 | the prefixes and source bases of the copies are those of the layouts, so that the laws of links and copies apply to them |
| PackageContents.ExpectedIsPrefixFree | scripts/package-docs.py:142-157 | no expected name is, or lies on the way to, another |
| PackageContents.StagedTreeVerifies | scripts/package-docs.py:179-212 | whatever the rewriting, a tree staged for tar verifies for tar and for Debian if and only if no expected file is over the limit and it had no packaged docs before |
| PackageContents.GuideCanOutgrow | scripts/package-docs.py:30-37 | every selection with room for it can have a companion guide, within all limits, whose mirror is over the limit |
| PackageContents.OutgrownSelection | scripts/package-docs.py:30-95 | a selection within all limits, of the required documents only, whose mirror of a companion guide is over the limit |
| PackageContents.OutgrownTreeFails | scripts/package-docs.py:179-212 | a tree staged from such a selection does not verify, for tar or Debian |
| AstDump.FormatValue | scripts/run-ast-guard.py:33-50 | the recursive printer with its list of fields prints the format of the tree |
| AstDump.FormatReads | scripts/run-ast-guard.py:33-50 | a parser reads every printout back as the tree without the fields that are not printed |
| AstDump.EqualPrintouts | scripts/run-ast-guard.py:26-52 | two trees print equally if and only if they differ only in absent, empty-list or None-default fields |
| AstSlots.FieldIsSeen | scripts/run-ast-guard.py:36-45 | taking a field away leaves the printout as it is exactly if it was absent, an empty list that is not the value of a constant, or `None` where that is the class default |
| AstSlots.PrintoutIs | scripts/run-ast-guard.py:33-50 | a printout is the class and, in parentheses, the other fields in their order; the items in brackets; or the literal |
| AstSlots.ModuleExample | scripts/run-ast-guard.py:33-50 | the empty module prints as `Module()`, one with a statement as `Module(body=[Pass()])` |
| AstDump.ConstantValueIsKept | scripts/run-ast-guard.py:37-45 | a constant's value of `None` or `[]` is never lost |
| ParentCheck.Walk.Visit | scripts/functional-tensor.py:170-177 | a visit keeps the pending chain and the topological order, ends because pending grows, and fails only on a cycle |
| ParentCheck.CheckParents | scripts/functional-tensor.py:168-180 | the check accepts if and only if the parent graph has no cycle; functions are finished after their parents |
| ParentCheck.OrderedIsAcyclic | scripts/functional-tensor.py:168-180 | a graph with a topological order has no cycle |
| DigestFrame.FeedDigest | scripts/functional-tensor.py:92-106 | the bytes fed to the hash are the frames of the sorted set of cited names |
| DigestFrame.StreamReadBack | scripts/functional-tensor.py:92-106 | the stream is read back as its frames |
| DigestFrame.StreamDeterminesFiles | scripts/functional-tensor.py:92-106 | two streams are equal if and only if the same names are cited and each has the same content digest, whatever the order or repetition |

## Left out

- Relocation.LinkMeaningKept: takes the new path to be UTF-8 text.
- UTF-8 itself: decoding and `urlsplit` refusals are the arbitrary predicate `accepts`, and repairing bad escapes the arbitrary function `repair`.
- The lower-casing of URL schemes, which no local link has.
- Ledger rows with negative or boolean offsets or wrong field types: rows are typed here.
- Headings.HeadingIds: takes what the patterns for heading text and explicit identifiers find on a line, and the slug, as given; they depend on Unicode categories.
- The live link, backlink, line-limit and release-index checks of the documentation checker.
- JSON decoding, command lines, reports and the receipt file of the retention tool.
- Retention: Python's limit on the length of a number text; the constant fields of the plan document.
- Deletion: descriptors, owners, `flock` and `fsync`; an unsafe owner or mode is a property of an inode, an unsafe directory a property of a path, and holding the locks one bit.
- DeletionSteps: a file is read in one step, whose digest is arbitrary; interrupts are those the tool catches, and those at the batch check.
- SourceDocuments.Choose: the order of the documents is that of the walk, but no contract promises it; only the order of a dictionary depends on it.
- GuideRewriting: white space and line ends outside ASCII are ordinary bytes, and guides that are not UTF-8 are not refused.
- GuideDefinitions.DefinitionInlineMoved: says nothing of lines whose definition has `](` in its destination, before or after moving.
- PackageLinks: refusals of `urlsplit` on malformed authorities; paths are compared as URI text, without decoding.
- AstDump: classes are told apart by name, and subclasses of `Constant` are not modelled; the temporary replacement of `ast.dump` while a guard runs is left out.
- The field checks, score ceilings and views of the functional catalogue; the encoding of names is an injective function without zero bytes.
- SHA-256: digests are arbitrary functions.
- The test suites for Linux, GTK, IBus and browsers, the build script and the engine itself.
