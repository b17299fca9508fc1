# Verified models of the release scripts and the durable services

This project models, in Dafny, the parts of the repository whose correctness is more than one
function deep: the release tooling under `scripts/` and the state machines behind the runtime
crates. Each part is modelled from the code itself; where a README promises more than the code
does, the model follows the code and the theorem says exactly when the promise holds.

| Modules | Source | What is proved |
|---|---|---|
| `DependencyGraph`, `PublishOrder` | `scripts/check-publish-order.py` | Kahn's loop answers with real graph theory: acyclicity, the exact stuck set, the longest chain, a valid sequential order, and monotonicity in the edges |
| `TextLines`, `ChangelogItems`, `Changelog`, `ChangelogReadBack`, `ChangelogAssembly`, `ChangelogExact`, `ChangelogScript`, `ChangelogPatterns` | `scripts/changelog-assemble.py` | Parser and printer undo each other; assembly is a fixpoint of the text and composes, with exact conditions; nothing outside the release and no item is lost |
| `VersionSnippets`, `DocVersions`, `VersionBump`, `ManifestPins`, `ManifestBump`, `BumpPatterns` | `scripts/bump-version.py`, `scripts/check-doc-versions.py` | What the checker accepts, the bump keeps acceptable; a bump can be undone; the manifest reads back the new version exactly when the line read is the line replaced |
| `Layering`, `SandboxRuns` | `adk-sandbox/src/sandbox/` | Order-independent access, both enforcers compared with the documented rule, and protection over every run of file operations |
| `SpendLedger` | `adk-core/src/spend.rs` | Caps hold over every interleaving of reserve, commit, release and expiry; spend is conserved |
| `RunQueue`, `RunFencing`, `RunClaims`, `RunExclusion`, `RunStore`, `RunEffects` | `adk-core/src/run_store.rs` | Epoch fencing, terminal states, claim order, exactly when runs of a key are one at a time, wakes that are not lost |
| `SessionState`, `SessionService` | `adk-session/src/` | State is the creation state folded with the remaining events; rewind undoes appends |
| `ArtifactStore` | `adk-artifact/src/inmemory.rs` | Immutable versions, distinct numbers, scopes that do not mix |
| `ThreadId` | `adk-graph/src/agent.rs` | Thread ids decode, so distinct identities never share one |

Code that changes state step by step is modelled by classes and methods with loops, each proved
against a specification function or predicate; the theorems are about those specifications and about
whole runs of them. Clocks, generated identifiers and file contents are parameters.

`dafny verify dfyconfig.toml` checks the whole project.

## Where a promise needs a condition

- Assembling a changelog is not always a fixpoint: a bullet without text is written as `-`, and a
  `### ` heading without a title as `###`, and neither is read back. `AssembleTwiceExactly` and
  `AssembleIsFixpointExactly` say exactly when assembly is stable, `AssemblyConservesExactly` exactly
  when everything can be read back, and `AssembledTextHolds` that the text itself always holds every
  item. `BareBulletBreaksFixpoint` gives a changelog for which no list of fragments is stable.
- `validate` accepts a fragment with an indented line after a blank one, and `items` then drops that
  line. `FragmentKeepsLines` says exactly when a valid fragment keeps all its lines;
  `FragmentLosesLine` gives one that does not.
- A bump can rewrite a bare `version` line other than the one both scripts read.
  `RereadExactly` gives the exact condition and `IndentedVersionIsMissed` a manifest where the bump
  succeeds and the version read stays the old one.
- The sandbox protects a read-only entry exactly when none of its files already has a second name in
  writable space (`RunsKeepProtectedExactly`, `SharedFileLeaks`).
- adk-sandbox/README.md:227 says that both enforcers behave the same way. They protect the same
  entries, but bubblewrap also refuses to remove, rename or replace any allowed path, which is a mount
  point, and to rename or link from one mount to another. `EnforcersAgreeExactly` gives the exact
  difference and `EnforcersDiffer` a policy on which it shows.
- A spending cap of 2^64 - 1 is never enforced, because the sums saturate there (`LargestCapIsNone`). A
  commit can exceed a cap; `CommitExactly` says exactly when, and `CapsHoldExactly` over whole runs. `OverspendBreaksCap` is a run that commits
  more than it held, `LateCommitBreaksCap` one that commits an expired hold.
- `enqueue` reads the clock before it takes the lock. Runs of one concurrency key can be started together
  exactly when some enqueue is stamped earlier than a started run of its key
  (`EnqueueStartsTwoExactly`, `KeysRunOneAtATimeExactly`); `StaleClockStartsTwo` is such a run of an
  empty store.
- An artifact version that was deleted can be handed out again (`NumberIsReused` gives a run). Over every
  run whose saves name no version this happens exactly when the highest number ever stored has been
  deleted (`HandedOutAgainExactly`; `ReusedExactly` is the step right after the deletion). When saves also
  name versions, a number is fresh while the highest ever stored is still there
  (`FreshWhileHighestStays`). A save without a version becomes the latest exactly when the latest
  number is not the largest (`AutoVersionExactly`).

## Model

| member | source | states |
|---|---|---|
| `DependencyGraph.LeftIsChains` | scripts/check-publish-order.py:59-72 | A crate survives `k` rounds exactly when a dependency chain of `k + 1` crates starts at it |
| `DependencyGraph.StuckSetIsCycles` | scripts/check-publish-order.py:62-69 | When a round frees nothing, what remains is exactly the crates that can reach a cycle |
| `DependencyGraph.AcyclicIsNoCycleReached` | scripts/check-publish-order.py:59-72 | No crate reaches a cycle if and only if no crate reaches itself |
| `DependencyGraph.EmptiedAfterLongestChain` | scripts/check-publish-order.py:59-81 | The round that empties the graph is the number of crates on the longest dependency chain |
| `DependencyGraph.RemovedOnce` | scripts/check-publish-order.py:59-72 | When the rounds empty the graph, every crate is removed in one of them and in no other round |
| `DependencyGraph.DependencyRemovedEarlier` | scripts/check-publish-order.py:62-72 | A dependency is removed in a strictly earlier round than its dependants |
| `DependencyGraph.RoundOrderIsValid` | scripts/check-publish-order.py:59-72 | Every order that respects the rounds, in any order inside one, publishes each crate after all its dependencies |
| `DependencyGraph.ValidOrderIsAcyclic` | scripts/check-publish-order.py:59-72 | A valid publish order exists only for an acyclic graph |
| `DependencyGraph.MoreEdgesAreNoEasier` | scripts/check-publish-order.py:44-56 | More edges never remove a cycle, free a stuck crate or shorten the longest chain |
| `PublishOrder.CollectEdges` | scripts/check-publish-order.py:43-56 | The loop over one crate's dependencies collects exactly the constraining ones and a note for each versioned dev one, in order |
| `PublishOrder.BuildGraph` | scripts/check-publish-order.py:31-56 | The graph over the publishable crates, the last listing of a name winning, and all notes in order |
| `PublishOrder.Round` | scripts/check-publish-order.py:62-71 | One round removes exactly the crates with no dependency remaining, or reports that there is none |
| `PublishOrder.Kahn` | scripts/check-publish-order.py:58-72 | The loop ends on every graph: normally exactly when it is acyclic, with the longest chain as round count, otherwise with the crates that can reach a cycle |
| `PublishOrder.CheckPublishOrder` | scripts/check-publish-order.py:31-81 | The whole check returns a verdict that means what its message says about the listed packages |
| `PublishOrder.VerdictMeansOrder` | scripts/check-publish-order.py:58-81 | The check accepts exactly when the crates can be published one after another |
| `PublishOrder.EdgeMeaning` | scripts/check-publish-order.py:31-56 | The graph has an edge exactly for a published dependency that is normal, build, unmarked or dev with a version, in the last listing of a published crate |
| `PublishOrder.VerdictOnPackages` | scripts/check-publish-order.py:31-81 | On the package list itself: the check accepts exactly when the published crates have an order with every published normal, build, unmarked or versioned dev dependency before its dependant |
| `PublishOrder.NotesMeaning` | scripts/check-publish-order.py:44-55 | A note is printed exactly for each dev dependency with a version between published crates |
| `PublishOrder.GraphIsClosed` | scripts/check-publish-order.py:32-56 | The graph has exactly the publishable crates and no edge leaves it |
| `PublishOrder.AddedDependencyVerdict` | scripts/check-publish-order.py:44-56 | Adding a constraining dependency never turns a failure into OK, frees a stuck crate or lowers the reported tiers; a path-only dev or unpublishable one changes nothing |
| `ChangelogItems.Items` | scripts/changelog-assemble.py:66-83 | The scan of a block gives the items of the line-level description, each as text without trailing white space |
| `ChangelogItems.PrintedItemsReadBack` | scripts/changelog-assemble.py:66-83 | Reading a printed list of items gives it back exactly when no item is a bullet without text |
| `ChangelogItems.ItemsRoundTrip` | scripts/changelog-assemble.py:66-83 | Parsing what was printed from a parsed block changes nothing exactly when the block has no bare bullet |
| `ChangelogItems.ItemsConserveLines` | scripts/changelog-assemble.py:70-83 | The items hold every non-blank line, up to trailing white space, exactly when no line comes while no item is open |
| `ChangelogItems.OrphanFollowsBlank` | scripts/changelog-assemble.py:75-80 | In a block that starts with a bullet, a line is lost exactly when it directly follows a blank one without being a bullet |
| `ChangelogReadBack.PrintedReadsBack` | scripts/changelog-assemble.py:109-130 | Reading a printed release gives every titled section that has items, in order, with every item that is not a bare bullet |
| `ChangelogAssembly.AddItemsConserves` | scripts/changelog-assemble.py:122-126 | Merging keeps the items there were as a prefix and appends exactly the new ones, each once |
| `ChangelogAssembly.ReplacedAgain` | scripts/changelog-assemble.py:101-107 | After a release is replaced, the same heading and the same end of the release are found again |
| `ChangelogAssembly.OutsideIsUnchanged` | scripts/changelog-assemble.py:106-130 | The text up to the end of the heading and from the next release on is unchanged |
| `ChangelogAssembly.MergingGainsOnly` | scripts/changelog-assemble.py:122-126 | Merging leaves every section its items in order and multiplicity and adds each new fragment item once, whatever the items and headings |
| `ChangelogAssembly.AssemblyConservesItems` | scripts/changelog-assemble.py:109-130 | When every bullet has text or a continuation and every printed heading a title, the output read back holds exactly the merged sections |
| `ChangelogExact.PrintedDetermines` | scripts/changelog-assemble.py:128-130 | Two results print alike only if they hold the same sections and items |
| `ChangelogExact.BareExactly` | scripts/changelog-assemble.py:72-82 | Dropping a section's bare bullets before merging makes no difference exactly when they come back with the new items |
| `ChangelogExact.AssembleTwiceExactly` | scripts/changelog-assemble.py:109-130 | Two assemblies equal one exactly when no untitled heading has items and every bare bullet comes back |
| `ChangelogExact.AssembleIsFixpointExactly` | scripts/changelog-assemble.py:96-130 | Assembling again changes nothing exactly when every printed heading has a title and a bare bullet only ends a section that a fragment brings it to |
| `ChangelogExact.AssembleTwice` | scripts/changelog-assemble.py:109-130 | Assembling F and then G is assembling F followed by G, for texts and fragments without bare bullets and untitled headings |
| `ChangelogExact.AssembleIsFixpoint` | scripts/changelog-assemble.py:96-130 | Assembling the same fragments into the output gives the identical text, under the same conditions |
| `ChangelogExact.AssembledTextHolds` | scripts/changelog-assemble.py:109-130 | For every input the release written is, paragraph by paragraph, every merged section that has items: nothing is lost from the text |
| `ChangelogExact.AssemblyConservesExactly` | scripts/changelog-assemble.py:109-130 | The output read back holds every old item in order and multiplicity, each new fragment item once and nothing else, exactly when every printed heading has a title and no bullet is bare |
| `ChangelogExact.BareBulletBreaksFixpoint` | scripts/changelog-assemble.py:70-82 | A changelog for which no assembly is a fixpoint, whatever the fragments |
| `ChangelogScript.Validate` | scripts/changelog-assemble.py:43-63 | The reported problems, in order; there are none exactly when every fragment is valid |
| `ChangelogScript.ProblemsExactly` | scripts/changelog-assemble.py:43-63 | No problem is found exactly when every name, start and continuation line is as required |
| `ChangelogScript.FragmentKeepsLines` | scripts/changelog-assemble.py:59-83 | A valid fragment loses no line exactly when no indented line directly follows a blank one |
| `ChangelogScript.FragmentLosesLine` | scripts/changelog-assemble.py:59-83 | A fragment that is valid and loses a line |
| `ChangelogScript.GroupPieces` | scripts/changelog-assemble.py:110-118 | The grouping loop gives the lines under each heading and the headings in order of appearance |
| `ChangelogScript.ParseGroups` | scripts/changelog-assemble.py:119-121 | Each group becomes the texts of its items |
| `ChangelogScript.MergeFragments` | scripts/changelog-assemble.py:122-126 | The in-place merge gives every section the items of the fragments named for it |
| `ChangelogScript.PrintSections` | scripts/changelog-assemble.py:128-129 | The blocks of the sections that have items, in order |
| `ChangelogScript.FindRegion` | scripts/changelog-assemble.py:97-107 | The first matching heading and the next release after it |
| `ChangelogScript.NewRelease` | scripts/changelog-assemble.py:109-129 | The text of the release's old sections with the fragments merged in |
| `ChangelogScript.AssembleChangelog` | scripts/changelog-assemble.py:86-130 | The script, from validation to the written text, computes the assembly the theorems are about |
| `ChangelogScript.HeadingMeaning` | scripts/changelog-assemble.py:31-33 | A valid fragment goes under the heading whose section its name starts with: five name and heading pairs, written out |
| `ChangelogScript.FragmentsLandUnderTheirHeading` | scripts/changelog-assemble.py:122-130 | The written release lists Breaking, Security, Added, Changed, Fixed and then the other headings, each with exactly what it had and the items of the fragments named for it |
| `ChangelogScript.WrittenText` | scripts/changelog-assemble.py:106-130 | The written text, character by character: before, the headings and items set off by blank lines, after |
| `ChangelogPatterns.UnreleasedMeaning` | scripts/changelog-assemble.py:98 | The target without a version is the Unreleased heading with padding and nothing else |
| `ChangelogPatterns.DatedMeaning` | scripts/changelog-assemble.py:100 | The target of a version is its heading with a date and padding |
| `ChangelogPatterns.NameMeaning` | scripts/changelog-assemble.py:33 | A fragment name is one of five sections, a dot, a slug and `.md`, with a line break let through at its end |
| `ChangelogPatterns.ValidMeaning` | scripts/changelog-assemble.py:47-63 | A fragment is valid exactly when it has such a name, starts with a bullet and holds only bullets, indented and empty lines |
| `ChangelogPatterns.StripNewlinesMeaning` | scripts/changelog-assemble.py:54 | Stripping takes the line breaks around a text, all of them, and nothing else |
| `ChangelogPatterns.ItemsMeaning` | scripts/changelog-assemble.py:66-83 | The items of a block are exactly its bullet lines, each with the lines up to the next bullet or blank line |
| `ChangelogPatterns.NoSectionYet` | scripts/changelog-assemble.py:110-118 | The five sections are there from the start, and lines before the first heading belong to none |
| `ChangelogPatterns.LastSection` | scripts/changelog-assemble.py:110-118 | The lines after a heading are added to its section, new or not, and a new one comes last |
| `ChangelogPatterns.ReleaseMeaning` | scripts/changelog-assemble.py:97-121 | What is read lies between the first target heading and the next release, each section with the items of its lines |
| `VersionSnippets.PlainHeadMeaning` | scripts/bump-version.py:103 | The scanner for the first pattern accepts exactly a package name and `=` with white space around it |
| `VersionSnippets.TableHeadMeaning` | scripts/bump-version.py:105 | The scanner for the second pattern accepts exactly a package name, `=`, an opening brace and `version =` |
| `VersionSnippets.VersionMeaning` | scripts/check-doc-versions.py:63-65 | A version is three runs of digits, of any script, with dots between them |
| `VersionSnippets.HeadSegment` | scripts/bump-version.py:101-106 | Wherever a scan starts, a snippet's head ends at the next quotation mark or there is none |
| `BumpPatterns.PackageMeaning` | scripts/bump-version.py:92 | A package name is `adk-`, `awp-` or `cargo-` and at least one lower-case letter, digit or hyphen |
| `BumpPatterns.AsciiClasses` | scripts/check-doc-versions.py:63-65 | Which ASCII characters are digits and which white space |
| `BumpPatterns.SnippetMeaning` | scripts/check-doc-versions.py:63-65 | What the check reads is three dotted numbers, what the bump changes is the current version, after a package name at the beginning of a word, `=`, and for the second form a brace and `version =` |
| `BumpPatterns.ReportMeaning` | scripts/check-doc-versions.py:82-88 | Reported are exactly the versions found that are not the workspace's, each with its line number |
| `BumpPatterns.AdmittedMeaning` | scripts/bump-version.py:71 | The new version is three dotted numbers, alone or with a hyphen and at least one ASCII letter, digit, dot or hyphen |
| `DocVersions.CheckLine` | scripts/check-doc-versions.py:83-88 | The loop over a line's matches reports every version that differs, in order |
| `DocVersions.CheckVersions` | scripts/check-doc-versions.py:82-88 | The check of a document reports nothing exactly when every snippet that lies on one line has the workspace's version |
| `DocVersions.FoundExactly` | scripts/check-doc-versions.py:83-84 | Leftmost, non-overlapping matching loses no snippet: the versions found are those of all snippets |
| `DocVersions.AcceptsExactly` | scripts/check-doc-versions.py:82-88 | Checking line by line is checking the snippets of the whole text that lie on one line |
| `VersionBump.Substitute` | scripts/bump-version.py:121-123 | The substitution loop of one pattern, character by character |
| `VersionBump.SubstitutedIsRewritten` | scripts/bump-version.py:101-123 | Substituting in the text is replacing, between quotation marks, the current versions that follow a head |
| `VersionBump.BumpSnippets` | scripts/bump-version.py:101-123 | Both passes over a document; what the checker accepted at the old version it accepts at the new one |
| `VersionBump.AdmittedIsNoHead` | scripts/bump-version.py:71 | No version the bump admits holds a quotation mark or ends in the head of a snippet |
| `VersionBump.BumpedExactly` | scripts/bump-version.py:101-123 | From a version that ends in no head, the two passes change exactly the snippets of that version, of either form |
| `VersionBump.CheckedStaysChecked` | scripts/bump-version.py:71-123 | If the checker accepts a document at the current version, it accepts the bumped one at the new version, for every text, every current version and every admitted new one |
| `VersionBump.BumpedIsAcceptedExactly` | scripts/check-doc-versions.py:63-88 | From a version that ends in no head, the bumped document is accepted exactly when every snippet on one line was at the old or the new version |
| `VersionBump.BumpedBack` | scripts/bump-version.py:101-123 | Bumping back restores the document exactly when it held no snippet of the new version |
| `ManifestBump.CurrentVersion` | scripts/bump-version.py:39-49 | The scanner's loop returns the first version line of the package section |
| `ManifestPins.SubstitutePins` | scripts/bump-version.py:91-95 | The substitution loop over the text replaces the versions of the pins found between its quotation marks |
| `ManifestPins.PinsSubstitutedIsPinned` | scripts/bump-version.py:91-95 | Substituting pins character by character is replacing, between quotation marks, the current version after a name that opens its path at the start of a line, a path and the key |
| `ManifestPins.PinnedExactly` | scripts/bump-version.py:91-95 | From a version that opens no pin and is not a pin's key, exactly the versions of pins change |
| `ManifestPins.AdmittedIsNoPinHead` | scripts/bump-version.py:71 | No version the bump admits opens a pin or is a pin's key |
| `BumpPatterns.PinHeadMeaning` | scripts/bump-version.py:91-94 | A pin opens with a package name and ` = { path = ` |
| `BumpPatterns.EndsInPinHeadMeaning` | scripts/bump-version.py:91-94 | A pin is found only at the beginning of a line |
| `BumpPatterns.WorkspaceIsBumped` | scripts/bump-version.py:39-95 | A manifest written out: its version is read and changed, its pin with it exactly when at the same version, and nothing else |
| `ManifestBump.ReplaceLines` | scripts/bump-version.py:85-88 | The count of bare version lines and the lines with each replaced |
| `ManifestBump.BumpManifest` | scripts/bump-version.py:70-95 | Each error exactly when it is reported; what is written differs in the one bare line and the pins, and reads back the new version exactly when that line is the one read |
| `ManifestBump.OneReplaced` | scripts/bump-version.py:85-88 | When exactly one bare line exists, exactly that line is replaced |
| `ManifestBump.PinnedReads` | scripts/bump-version.py:91-95 | Rewriting pins changes neither the line nor the version the scanner reads |
| `ManifestBump.RereadExactly` | scripts/bump-version.py:39-95 | After a bump the scanner reads the same line, with the new version exactly when that line is the one replaced, and the old one otherwise |
| `ManifestBump.ReleaseKeepsChecks` | scripts/check-doc-versions.py:25-88 | After such a bump the checker, reading its version from the new manifest, accepts every bumped document it accepted before |
| `ManifestBump.IndentedVersionIsMissed` | scripts/bump-version.py:85-88 | A manifest on which the bump succeeds and leaves the version read unchanged |
| `Layering.EffectiveIgnoresOrder` | adk-sandbox/README.md:223-224 | The access of a path depends only on which entries the policy holds, not on their order |
| `Layering.EffectiveMeaning` | adk-sandbox/README.md:223-224 | A path is writable exactly when a read-write entry is among the deepest at or above it, and has no access when there is none |
| `Layering.ParentModeIsParents` | adk-sandbox/src/sandbox/layering.rs:102-119 | The access strictly above a path is the access of its parent |
| `Layering.PinnedAreWritable` | adk-sandbox/src/sandbox/layering.rs:48-78 | Only writable directories are pinned |
| `Layering.PinnedMeaning` | adk-sandbox/src/sandbox/layering.rs:48-78 | The pinned directories are the writable ones leading to a read-only entry inside writable space, and the read-write entries inside read-only space |
| `Layering.SortIs` | adk-sandbox/src/sandbox/layering.rs:48-56 | The sorted entries are a permutation of the policy, shallowest first, read-only before read-write |
| `Layering.NewLayering` | adk-sandbox/src/sandbox/layering.rs:48-78 | The loop gives every entry's layer in sorted order, and the pinned directories |
| `Layering.LayersDecide` | adk-sandbox/src/sandbox/macos.rs:217-232 | The last layer that decides writing at a path grants it exactly when the most specific entry is read-write |
| `Layering.LastMountDecides` | adk-sandbox/src/sandbox/linux.rs:159-176 | The last mount over a path has the mode of its most specific entry, for every order of policy and pins |
| `Layering.ProfileDecides` | adk-sandbox/src/sandbox/macos.rs:217-239 | Last-match evaluation of the profile gives reading, writing and unlinking exactly where the entries grant them |
| `SandboxRuns.SeatbeltIsExact` | adk-sandbox/src/sandbox/macos.rs:217-239 | The Seatbelt profile permits exactly the operations the documented rule allows |
| `SandboxRuns.BubblewrapIsWithin` | adk-sandbox/src/sandbox/linux.rs:159-176 | bubblewrap permits only what the rule allows, and writing and creating in exactly the same places |
| `SandboxRuns.EnforcersAgreeExactly` | adk-sandbox/README.md:223-235 | bubblewrap permits exactly what Seatbelt permits that takes no entry path away and renames or links within one mount |
| `SandboxRuns.EnforcersDiffer` | adk-sandbox/README.md:223-235 | A policy and a removal that Seatbelt permits and bubblewrap refuses |
| `SandboxRuns.PermittedMeaning` | adk-sandbox/README.md:223-235 | Each operation is permitted exactly where the entries make its paths read-write and, for a name that goes, where no pin holds it; bubblewrap also keeps the entries' names |
| `SandboxRuns.AllBeneathWritable` | adk-sandbox/README.md:223-228 | Beneath a writable directory that is not pinned, everything is writable |
| `SandboxRuns.NothingBeneathPinned` | adk-sandbox/README.md:223-228 | Beneath such a directory nothing is pinned |
| `SandboxRuns.AllowedKeeps` | adk-sandbox/README.md:223-235 | An allowed write, creation, removal, rename or link keeps every protected path with its content, every pinned name, and the invariant |
| `SandboxRuns.RunKeepsInvariant` | adk-sandbox/README.md:223-235 | The same over every run of attempted operations under either enforcer |
| `SandboxRuns.ReadOnlyDirectoriesKeepNames` | adk-sandbox/src/sandbox/layering.rs:16-19 | Over every run under either enforcer, a read-only directory gains no name and loses none |
| `SandboxRuns.RunsKeepProtectedExactly` | adk-sandbox/README.md:223-235 | No run changes what is at or beneath a read-only entry or moves it, exactly when no protected file has another name in writable space to begin with |
| `SandboxRuns.SharedFileLeaks` | adk-sandbox/README.md:223-235 | With such a second name, some permitted run changes a protected file |
| `SpendLedger.InMemorySpendLedger.constructor` | adk-core/src/spend.rs:500-510 | A new ledger holds no spend and no reservation |
| `SpendLedger.Total` | adk-core/src/spend.rs:456-470 | Saturating addition in any iteration order gives the exact sum cut off at the largest amount |
| `SpendLedger.InMemorySpendLedger.CommittedTotal` | adk-core/src/spend.rs:456-464 | Committed spend of a scope in the current window, saturating |
| `SpendLedger.InMemorySpendLedger.HeldTotal` | adk-core/src/spend.rs:466-470 | Live holds of a scope, saturating |
| `SpendLedger.InMemorySpendLedger.ReserveBudget` | adk-core/src/spend.rs:537-565 | A reservation is refused exactly when some limit that covers the key refuses it, and else only adds the hold |
| `SpendLedger.InMemorySpendLedger.CommitSpend` | adk-core/src/spend.rs:567-574 | A commit drops the hold and records the actual amount, whether or not the hold is live |
| `SpendLedger.InMemorySpendLedger.ReleaseHold` | adk-core/src/spend.rs:576-579 | A release drops the hold and nothing else |
| `SpendLedger.CoversMeaning` | adk-core/src/spend.rs:146-150 | A limit covers a key when every identity it names agrees |
| `SpendLedger.WindowMeaning` | adk-core/src/spend.rs:66-73 | What is in the window of a day, of a month and of a lifetime |
| `SpendLedger.HoldCountsUntilExpiry` | adk-core/src/spend.rs:537-565 | A granted hold counts in full for every key that covers it until it expires |
| `SpendLedger.CommitMovesHold` | adk-core/src/spend.rs:567-574 | A commit takes the hold away and adds the amount, for every key that covers it, to what is committed, cut off where the day's sum saturates |
| `SpendLedger.ReleaseGivesBack` | adk-core/src/spend.rs:576-579 | A release gives back, for every key, exactly what the hold counted there, and commits nothing |
| `SpendLedger.ReleaseUndoesReserve` | adk-core/src/spend.rs:537-579 | A granted reservation and its release leave the ledger as it was |
| `SpendLedger.SettledForever` | adk-core/src/spend.rs:567-579 | Over every run in which its identifier is not reserved again, a settled reservation can be neither committed nor released again |
| `SpendLedger.RefusalMeaning` | adk-core/src/spend.rs:537-565 | A refusal names the first covering limit without room, with its cap, what was consumed and what was asked |
| `SpendLedger.RefusalExactly` | adk-core/src/spend.rs:537-565 | A limit below the largest amount refuses exactly when the exact sums leave no room |
| `SpendLedger.ReserveExactly` | adk-core/src/spend.rs:537-565 | A reservation is granted exactly when it fits under every cap that covers it |
| `SpendLedger.CommitExactly` | adk-core/src/spend.rs:567-574 | After a commit a cap holds exactly when the actual amount fits in the room left once the hold's own share is given back |
| `SpendLedger.StepKeepsCaps` | adk-core/src/spend.rs:537-579 | Every disciplined step keeps committed spend plus live holds within every cap |
| `SpendLedger.CapsAlwaysHold` | adk-core/src/spend.rs:387-579 | In every interleaving of reserve, commit, release and expiry the caps hold, then and at any later time |
| `SpendLedger.CapsHoldExactly` | adk-core/src/spend.rs:537-579 | Over every run with fresh identifiers in which time does not go back, the caps hold after every operation exactly when every commit fits the room left |
| `SpendLedger.NewLedgerKeepsCaps` | adk-core/src/spend.rs:387-579 | The same for every disciplined run of a new ledger |
| `SpendLedger.SpendIsConserved` | adk-core/src/spend.rs:567-574 | Lifetime spend of a scope is the sum of what was committed for it, up to saturation |
| `SpendLedger.LargestCapIsNone` | adk-core/src/spend.rs:456-470 | A cap of the largest storable amount is never enforced |
| `SpendLedger.OverspendBreaksCap` | adk-core/src/spend.rs:567-574 | A run in which a commit above its hold exceeds a cap |
| `SpendLedger.LateCommitBreaksCap` | adk-core/src/spend.rs:567-574 | A run in which a commit of an expired hold, for what it held, exceeds a cap |
| `RunFencing.NextKeepsValid` | adk-core/src/run_store.rs:866-1100 | Every operation keeps the store's invariant: lease and state agree, epochs count attempts, keys name their runs, order numbers are distinct |
| `RunFencing.NextRunStep` | adk-core/src/run_store.rs:866-1100 | One operation makes only the documented changes to a run: epochs never fall, terminal states never change |
| `RunFencing.ClaimSupersedes` | adk-core/src/run_store.rs:912-974 | A claim supersedes every earlier epoch of the run and is itself accepted |
| `RunFencing.SupersededForever` | adk-core/src/run_store.rs:799-805 | A worker that lost its run can never write it again, in any later state |
| `RunFencing.TerminalForever` | adk-core/src/run_store.rs:1029-1050 | A finished run keeps its outcome and every other field until it is pruned |
| `RunFencing.AttemptsBounded` | adk-core/src/run_store.rs:912-974 | No run takes more attempts than it may |
| `RunClaims.ClaimTakesOldest` | adk-core/src/run_store.rs:912-974 | A claim takes the oldest claimable run of its queue and fails exactly the older ones whose last attempt expired |
| `RunClaims.OneStartedAtATime` | adk-core/src/run_store.rs:784-797 | Two started runs never share a queue and a concurrency key, while only the oldest of a key has started |
| `RunClaims.EnqueueKeepsExclusiveExactly` | adk-core/src/run_store.rs:866-910 | Enqueueing keeps the invariant that only the oldest run of a key has started exactly when the run is not stamped earlier than a started run of the key |
| `RunClaims.KeysRunOneAtATime` | adk-core/src/run_store.rs:866-974 | Only the oldest run of a key has started, in every run of the store whose enqueues are stamped in order |
| `RunExclusion.ClaimsStartBoth` | adk-core/src/run_store.rs:912-974 | A due run that comes before its started rival is started beside it by claims at one instant |
| `RunExclusion.OlderStampStartsTwo` | adk-core/src/run_store.rs:866-974 | From every valid store, a run stamped earlier than a started run of its key is started beside it by claims at any instant at which it is due |
| `RunExclusion.EnqueueStartsTwoExactly` | adk-core/src/run_store.rs:866-974 | After an enqueue two runs of a key can be started exactly when it was stamped earlier than a started run of its key |
| `RunExclusion.KeysRunOneAtATimeExactly` | adk-core/src/run_store.rs:866-1100 | Over every run of the store, two runs of a key are never started nor can be by claims, exactly when every enqueue is stamped in order |
| `RunExclusion.StaleClockStartsTwo` | adk-core/src/run_store.rs:866-974 | A run of an empty store in which two runs of a key can be started |
| `RunClaims.WokenStays` | adk-core/src/run_store.rs:1001-1027 | No step loses a wake: the run stays woken or a claim takes it up |
| `RunClaims.WokenUntilTaken` | adk-core/src/run_store.rs:1001-1027 | Over every run of the store in which time does not go back, a woken run is still woken or some step took it up |
| `RunClaims.WakeIsNotLost` | adk-core/src/run_store.rs:1001-1027 | After a wake, over every run in which time does not go back, the run is still woken or some step took it up |
| `RunStore.InMemoryRunStore.constructor` | adk-core/src/run_store.rs:851-863 | A new store is empty and valid |
| `RunStore.InMemoryRunStore.OldestHolder` | adk-core/src/run_store.rs:784-797 | The oldest unfinished run of a key, if any |
| `RunStore.InMemoryRunStore.InterruptAll` | adk-core/src/run_store.rs:866-910 | Every queued or waiting run of the key is cancelled and every running one asked to stop, nothing else changes |
| `RunStore.InMemoryRunStore.EnqueueRun` | adk-core/src/run_store.rs:866-910 | The new table, and each answer exactly when it is given |
| `RunStore.InMemoryRunStore.SortedCandidates` | adk-core/src/run_store.rs:912-930 | The unfinished runs of the queue, oldest first |
| `RunStore.InMemoryRunStore.ClaimRun` | adk-core/src/run_store.rs:912-974 | The claim loop makes exactly the table change and answer of the claim described over the candidates |
| `RunStore.InMemoryRunStore.HeartbeatRun` | adk-core/src/run_store.rs:976-985 | A heartbeat extends the lease of its epoch only |
| `RunStore.InMemoryRunStore.SetRunCheckpoint` | adk-core/src/run_store.rs:987-999 | A checkpoint is written under its epoch only |
| `RunStore.InMemoryRunStore.WaitRun` | adk-core/src/run_store.rs:1001-1011 | Parking releases the lease, and a pending wake makes the run claimable at once |
| `RunStore.InMemoryRunStore.WakeRun` | adk-core/src/run_store.rs:1013-1027 | A wake, by the run's state |
| `RunStore.InMemoryRunStore.FinishRun` | adk-core/src/run_store.rs:1029-1050 | The outcome is written under its epoch only |
| `RunStore.InMemoryRunStore.RequestCancelRun` | adk-core/src/run_store.rs:1052-1067 | Cancelling, by the run's state |
| `RunStore.InMemoryRunStore.PruneRuns` | adk-core/src/run_store.rs:1082-1100 | Exactly the finished runs last written before the instant go, with their idempotency keys |
| `RunEffects.CompletedExactly` | adk-core/src/run_store.rs:1029-1050 | Over every run of the store, a run is completed with a result exactly when an accepted report said that it succeeded with it |
| `RunEffects.FinishWrites` | adk-core/src/run_store.rs:1029-1050 | What each outcome makes of a run, field by field: completed with its result, cancelled, queued again exactly when retryable with attempts left and no cancel asked, failed with its message otherwise |
| `RunEffects.OutcomeStays` | adk-core/src/run_store.rs:1029-1050 | Over every later run the store says completed, cancelled or failed as the accepted report decided |
| `RunEffects.ClaimableMeaning` | adk-core/src/run_store.rs:926-953 | When a queued, a parked and a running run can be claimed, on its fields |
| `RunEffects.ClaimTakesEarliest` | adk-core/src/run_store.rs:912-974 | A claim takes a run whenever one can be claimed, and the first created one |
| `RunEffects.ClaimWrites` | adk-core/src/run_store.rs:962-971 | The taken run has a new epoch, a lease to the worker and one attempt more unless it was waiting |
| `RunEffects.LeaseProtects` | adk-core/src/run_store.rs:943-948 | A claim leaves alone every run whose lease has not run out |
| `RunEffects.ExhaustedFails` | adk-core/src/run_store.rs:953-961 | A run on its last attempt with an expired lease is failed by every claim of its queue that takes no run created before it |
| `RunEffects.HeartbeatWrites` | adk-core/src/run_store.rs:976-985 | A heartbeat renews the lease from now |
| `RunEffects.CheckpointStays` | adk-core/src/run_store.rs:987-999 | Only an accepted checkpoint changes the checkpoint |
| `RunEffects.ParkedUntil` | adk-core/src/run_store.rs:1001-1011 | A parked run can be claimed from its deadline, at once if a wake was pending, and never without either |
| `RunEffects.WakeWrites` | adk-core/src/run_store.rs:1013-1027 | A wake makes a parked run claimable from now and marks a running one |
| `RunEffects.CancelWrites` | adk-core/src/run_store.rs:1052-1067 | Cancelling ends a queued or parked run, asks a running one to stop and leaves a finished one alone |
| `RunEffects.CancelledIsNotRetried` | adk-core/src/run_store.rs:1029-1067 | A run asked to stop fails at its next error, retryable or not |
| `RunEffects.CreatesMeaning` | adk-core/src/run_store.rs:866-904 | A run is created exactly when it is well formed, its idempotency key is new to the queue and no unfinished run holds its concurrency key, if it asks to be rejected |
| `RunEffects.EnqueueWrites` | adk-core/src/run_store.rs:866-910 | The created run, field by field, and what Interrupt does to every other run |
| `RunEffects.DuplicateMeaning` | adk-core/src/run_store.rs:870-875 | The existing run is returned exactly when one of the queue has the idempotency key |
| `RunEffects.IdempotencyKeyNamesOneRun` | adk-core/src/run_store.rs:870-904 | Two stored runs never share a queue and an idempotency key |
| `RunEffects.PruneWrites` | adk-core/src/run_store.rs:1082-1100 | Exactly the finished runs last written before the instant go |
| `SessionState.MergeExtract` | adk-session/src/state_utils.rs:21-55 | Merging the tiers of a state gives it back, less its temporary keys |
| `SessionState.ExtractMerge` | adk-session/src/state_utils.rs:21-55 | Splitting merged tiers gives the tiers back |
| `SessionState.RebuildSessionState` | adk-session/src/state_utils.rs:74-84 | The loop folds the events' session deltas over the creation state |
| `SessionState.FoldedAppend` | adk-session/src/state_utils.rs:74-84 | Folding appended events is folding them after the others |
| `SessionState.FoldedValue` | adk-session/src/state_utils.rs:74-84 | The last event that sets a key decides its value |
| `SessionService.InMemorySessionService.constructor` | adk-session/src/inmemory.rs:42-49 | A new service is empty |
| `SessionService.InMemorySessionService.CreateSession` | adk-session/src/inmemory.rs:156-204 | A new session starts with its session tier and the shared tiers extended, and is returned as it is seen; an invalid or existing identity is refused |
| `SessionService.InMemorySessionService.AppendTo` | adk-session/src/inmemory.rs:98-126 | An append keeps the event without temporary keys and writes each tier its delta names |
| `SessionService.InMemorySessionService.AppendEvent` | adk-session/src/inmemory.rs:282-297 | An append by bare session id reaches the one session with that id; an invalid id, none and several are refused |
| `SessionService.InMemorySessionService.Truncate` | adk-session/src/inmemory.rs:130-145 | Truncating keeps the first events and rebuilds the session tier |
| `SessionService.InMemorySessionService.RewindTo` | adk-session/src/inmemory.rs:318-330 | Rewinding to an event returns the session as it is then seen, with its error cases |
| `SessionService.InMemorySessionService.RewindBy` | adk-session/src/inmemory.rs:332-342 | Rewinding by steps returns the session as it is then seen, with its error cases |
| `SessionService.InMemorySessionService.DeleteSession` | adk-session/src/inmemory.rs:264-270 | Only the session goes, the shared tiers stay, and an invalid identity is refused |
| `SessionService.InMemorySessionService.DeleteAllSessions` | adk-session/src/inmemory.rs:272-280 | Exactly the user's sessions of the app go, and an invalid scope is refused |
| `SessionService.NextKeepsSession` | adk-session/src/inmemory.rs:98-145 | A step that does not delete a session keeps the state it was created with, and its events stay, gain one or lose the last ones |
| `SessionService.StateIsFoldOfEvents` | adk-session/README.md:432-434 | From its creation on, after any operations that do not delete it, a session has the state it was created with folded with the deltas of its remaining events |
| `SessionService.RewindUndoesAppends` | adk-session/README.md:432-434 | Rewinding by as many steps as events were appended restores every session and leaves the shared tiers as the appends made them |
| `SessionService.RewindToUndoesAppends` | adk-session/src/inmemory.rs:318-330 | Rewinding to the event that was last before some appends undoes them exactly when no earlier event has its id |
| `SessionService.RewindsDoNotTouchSharedTiers` | adk-session/README.md:432-434 | Dropping every rewind from a run changes neither shared tier nor which sessions there are |
| `SessionService.SharedWritesReachEverySession` | adk-session/README.md:73-81 | A value written to the app or user tier is what every session of that app or user reads |
| `SessionService.ViewKey` | adk-session/README.md:73-81 | What a caller reads under `app:`, `user:`, `temp:` and every other key |
| `SessionService.CreatedKeysReachEverySession` | adk-session/src/inmemory.rs:156-204 | The shared keys a session is created with are what every session of the app or user reads, its temporary keys are kept nowhere, the others are its own |
| `SessionService.IdentityMeaning` | adk-core/src/identity.rs:102-113 | Which identities are valid |
| `SessionService.AppendWrites` | adk-session/src/inmemory.rs:98-126 | An append adds the event less its temporary keys to its session, and changes no other |
| `SessionService.RewindWrites` | adk-session/src/inmemory.rs:318-342 | Which events a rewind to an event and one by steps keep, and when nothing happens |
| `SessionService.DeletedIsGone` | adk-session/src/inmemory.rs:264-280 | A deleted session is gone and every other and the shared tiers stay; deleting a user's sessions takes exactly the user's |
| `SessionService.DeletedStaysGone` | adk-session/src/inmemory.rs:264-280 | A deleted session stays gone over every run that does not create it again |
| `ArtifactStore.InMemoryArtifactService.constructor` | adk-artifact/src/inmemory.rs:26-30 | A new store is empty |
| `ArtifactStore.InMemoryArtifactService.LatestVersion` | adk-artifact/src/inmemory.rs:65-82 | The largest stored version of a name in a scope |
| `ArtifactStore.InMemoryArtifactService.Save` | adk-artifact/src/inmemory.rs:93-129 | A save refuses bad names, the reserved session and a stored version, and else stores under the asked version or the one after the latest |
| `ArtifactStore.InMemoryArtifactService.Load` | adk-artifact/src/inmemory.rs:131-164 | A load gives the asked or the latest version, or reports that there is none |
| `ArtifactStore.InMemoryArtifactService.Delete` | adk-artifact/src/inmemory.rs:166-192 | Exactly the asked version, or every version of the name, goes |
| `ArtifactStore.InMemoryArtifactService.List` | adk-artifact/src/inmemory.rs:194-212 | Exactly the names of the session and of the user, each once and in order; the reserved session is refused |
| `ArtifactStore.InMemoryArtifactService.Versions` | adk-artifact/src/inmemory.rs:214-238 | Exactly the stored versions, newest first |
| `ArtifactStore.VersionsAreImmutable` | adk-artifact/README.md:196-203 | In every run a stored version keeps its content until a delete names it |
| `ArtifactStore.SavesGetDistinctVersions` | adk-artifact/src/inmemory.rs:98-128 | Two stored saves of a name get distinct versions while the first is not deleted |
| `ArtifactStore.AutoVersionExactly` | adk-artifact/src/inmemory.rs:108-121 | A save without a version becomes the latest exactly when the latest number is not the largest there is |
| `ArtifactStore.ReusedExactly` | adk-artifact/src/inmemory.rs:108-121 | The one step: exactly when the save right after the latest version was deleted takes over its number |
| `ArtifactStore.HandedOutAgainExactly` | adk-artifact/src/inmemory.rs:98-191 | Over every run of saves that name no version and deletes, a save hands out a number stored before exactly when the highest number ever stored has been deleted |
| `ArtifactStore.FreshWhileHighestStays` | adk-artifact/src/inmemory.rs:98-191 | Over every run, whatever versions saves name, a save without one gets a fresh number while the highest ever stored is still there and not the largest |
| `ArtifactStore.NumberIsReused` | adk-artifact/src/inmemory.rs:108-191 | A run of a save, a deletion and a save that hands one number out twice |
| `ArtifactStore.SharedSlotExactly` | adk-artifact/src/inmemory.rs:32-42 | Two names share storage exactly when app, user and name agree and the name is the user's or the session agrees |
| `ArtifactStore.ListIsOwnAndUsers` | adk-artifact/src/inmemory.rs:194-212 | In every run a session lists exactly its own artifacts and the user's: no other session's reach it |
| `ArtifactStore.DeletedIsGone` | adk-artifact/src/inmemory.rs:166-192 | After a delete exactly the named version, or all of them, are gone, and all else is as it was |
| `ArtifactStore.RefusedMeaning` | adk-artifact/src/inmemory.rs:44-62 | Which file names and which session id are refused |
| `ThreadId.PushThreadPart` | adk-graph/src/agent.rs:438-446 | The loop appends the encoded part |
| `ThreadId.SessionThreadId` | adk-graph/src/agent.rs:393-402 | The encoded parts of the identity joined with `:` |
| `ThreadId.ToolCallThreadId` | adk-graph/src/agent.rs:425-435 | The session's thread id with the encoded call id as a fourth part |
| `ThreadId.ThreadIdMeaning` | adk-graph/src/agent.rs:393-435 | The ids written out: encoded parts with a colon between |
| `ThreadId.EncodingMeaning` | adk-graph/src/agent.rs:438-446 | `%` becomes `%25`, `:` becomes `%3A`, every other character stays |
| `ThreadId.ThreadIdDecodes` | adk-graph/src/agent.rs:393-446 | A thread id decodes back into its parts |
| `ThreadId.ThreadIdsAreDistinct` | adk-graph/src/agent.rs:380-446 | Thread ids are equal exactly for equal identities; a session never shares one with a tool call |

## Left out

- Reading, writing and deleting files, `git ls-files`, `cargo metadata`, argument parsing, message texts and exit codes: parsed packages, texts and fragment lists are inputs.
- The loop counter of the publish-order check when it fails: it is not printed, and only reported tier counts are compared.
- Python's universal newlines: a text holds no carriage return once it is read; both scripts' line breaks are otherwise all modelled.
- VersionSnippets.EndsInHead: `\b` takes ASCII word characters only, so a letter outside ASCII right before a package name does not stop a snippet here as it does in Python; `\d` and white space are Unicode's.
- An `--into` version that contains a line break, which a command line can pass but no heading can hold.
- The substitution counts the bump prints, its dry run, and the `skip` predicates and feature names of the checker: easy members.
- Paths are resolved: symbolic links, case-insensitive names and canonicalisation are followed before a policy is asked. Reading under bubblewrap and the system rules of the Seatbelt profile are not part of this model.
- Operations on the sandboxed tree are atomic, and only files and directories under the policy are in it; permission bits and special files are left out.
- SpendLedger: time is a parameter that does not go back in `CapsAlwaysHold`; `reserve` without identifier collisions, since identifiers are random; the conversion from dollars.
- RunStore: instants are numbers up to a last one, and adding a lease that passes it is refused as the code does; epochs, attempts and order numbers do not overflow; principals, payloads and the filters of `list` are opaque or left out, as are the lease and schedule stores.
- RunStore.InMemoryRunStore.SortedCandidates: the sort is a repeated choice of the oldest, which gives the only sorted order there is; the library's sorting algorithm is not modelled.
- SessionService: generated identifiers are parameters, and `get` and `list` with their filters are left out.
- ArtifactStore: version arithmetic wraps as in release builds, where a debug build would panic; file-backed and database services are not modelled.
- SQL, Redis and file-system backends of every store, telemetry, servers, model providers and graph execution: not part of this model.
