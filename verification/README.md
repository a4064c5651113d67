# A verified model of p2pmux

p2pmux is a peer-to-peer terminal multiplexer. Members of a session share tabs and panes; one of them, the
coordinator, orders every change to the layout, seals it in a signed hash chain, and is replaced by a
message-free election when it disappears. This project models the decisions behind that and proves what
the members may rely on. `dafny verify dfyconfig.toml` checks everything.

| file | what it covers |
|---|---|
| Common.dfy | fixed-width integers, results, white space |
| LayoutTree.dfy | the split tree of one tab and its algorithms |
| LayoutModel.dfy, LayoutInvariant.dfy, LayoutRuns.dfy | the meaning of every session operation, the invariant each one keeps, and safety over whole runs and takeovers |
| LayoutRequests.dfy, LayoutEffects.dfy | which requests are granted and why the others are refused, and what a granted one brings about |
| SessionAuthority.dfy | `SessionState` as an object that is updated in place, proved against that meaning |
| LedgerCodec.dfy, Ledger.dfy, LedgerAuthenticity.dfy, LedgerObjects.dfy | the byte strings that are hashed, the chain of sealed entries, what the signatures add to it, the writer and verifier objects |
| Failover.dfy, FailoverTiming.dfy, Succession.dfy | the election and the tie-break, the election on a clock, and the order of succession over the life of a session |
| Lease.dfy, LeaseManager.dfy | the control lease |
| KittyKeyboard.dfy, KittyTracker.dfy | the keyboard-mode scanner and its carry-over |
| ProcessTree.dfy, LooseAgents.dfy | walks over a process table, and the agents outside every pane |
| AgentTracker.dfy | a pane's agent status and its twin, the machine's record |
| Scrollback.dfy, ScrollClient.dfy | the attach client's scrollback protocol |
| Utf8.dfy, CtlSend.dfy | the payload of `ctl send`, cut into frames |
| TextWrap.dfy | wrapping a warning without breaking a command |

## How to read it

Where the source computes a value, so does the model. Where it updates an object or runs a loop, there is a
class or a method with that loop, whose contract says that it ends in the state or value a specification
function gives; the theorems are about those functions and about runs of them.

Fixed-width integers are bounded and their checked, saturating and wrapping steps are written out. Peer ids
and keys are byte sequences; instants and durations are natural numbers of milliseconds. Hashing, signing,
key parsing and the machine-id check are parameters: any functions at all. Of signing two things are asked
where they are needed: that a signature made with a secret is accepted by its public key (`Ledger.Sound`), and,
for authenticity, that a key accepts a signature only under something its holder signed
(`LedgerAuthenticity.Unforged`). No hash function is assumed free of collisions, which none is: the agreement
theorems conclude that the histories are equal or that two things at hand, both named, collide.

The model follows the code where the code and its own comments, or the obvious reading, part ways:

- `remove_member` (src/layout.rs:672) drains the tabs before it looks whether any are left. When the
  departing member hosts every pane the call fails with the tabs already gone. The model does the same;
  `LayoutInvariant.FailedDeparture` and `LayoutRuns.StepKeepsInvExactly` show that this is the one way an
  operation can break the invariant, and `LayoutRuns.DepartureOfTheOnlyHost` gives such a session. The
  theorems over runs exclude exactly that step (`LayoutRuns.KeepsTabs`), which a caller can see beforehand:
  the member leaving hosts every pane.
- The comment on `restore` (src/layout.rs:412-416) says that a pane created after a takeover cannot collide
  with one created before it. That holds for panes still in the layout. An id whose pane was deleted is
  issued again when it was the newest: `LayoutRuns.RestoreReissuesExactly` says when, and
  `LayoutRuns.ADeletedIdComesBack` gives an instance.
- `restore` does not look at machine proofs again: a snapshot with an unverified machine id is restored with it
  (`LayoutRuns.RestoreTrustsTheSnapshot`).
- `cancel_reservation` and `fail_reservation` (src/layout.rs:958-983) name their argument `creator` and match
  it against the reservation's host; the model matches the host.
- The 64-byte carry of the keyboard scanner loses longer unfinished sequences. `KittyKeyboard.CarryLimitIsExact`
  shows that no longer tail is safe to cut in every state, `KittyKeyboard.LongPushIsLost` that a longer push is
  safe in none, and `KittyKeyboard.ALongPushIsLost` gives one.
- `concedes_to` (src/failover.rs:150-168) was made for two coordinators of one epoch, but members that hold no
  role decide by it as well (src/tui/runtime/failover.rs:456). A coordinator gives way to earlier ones alone. A
  member with somebody between its coordinator and itself in the join order can be taken from an earlier
  coordinator to a later one of the same epoch, and back: `Failover.TieBreakSettlesExactly` says for whom it
  settles, `Failover.ALaterMemberCanFlap` gives an instance.
- `loose_agents` can lose an agent when a stale process table has a cycle. An agent is shown, by a row of its
  own or of an agent of its kind above it, if and only if no loose agent of its kind that is it or is above it is
  above itself (`LooseAgents.ShownExactly`); so none goes missing if and only if no loose agent is above itself
  (`LooseAgents.EveryLooseAgentIsShown`). Cycles of other processes cost nothing, and one agent whose parent is a
  plain process whose parent is that agent is enough to lose it (`LooseAgents.AnAgentGoesMissing`).

## Model

| member | source | states |
|---|---|---|
| LayoutTree.CountsMembers | src/layout.rs:1384-1412 | the leaf search and the in-order listing agree with the number of times an id occurs in the tree |
| LayoutTree.CollectAcceptsExactly | src/layout.rs:1414-1423 | the validator's walk succeeds if and only if the tree fits the depth limit and its leaves are distinct, non-zero and not met before; it then adds exactly its leaves to the ids met |
| LayoutTree.RatiosAreValidExactly | src/layout.rs:1425-1440 | the ratio check accepts if and only if every split of the tree, wherever it stands, gives each half a share |
| LayoutTree.RemoveLeafTakesOne | src/layout.rs:1496-1535 | a removal takes one occurrence of the id and no other leaf, and a tree without the id comes back as it was |
| LayoutTree.RemoveLeafIsPrune | src/layout.rs:1496-1535 | with distinct leaves, one removal is the structural pruning of that id |
| LayoutTree.PruneComposes | src/layout.rs:1496-1535 | pruning one set and then another is pruning their union |
| LayoutTree.RemovingInAnyOrderIsPruning | src/layout.rs:672-684 | removing leaves one at a time, in any order and with repeats, is one structural pruning of the set |
| LayoutTree.PruneFiltersTheLeaves | src/layout.rs:1496-1535 | the in-order leaves after a pruning are the original ones filtered |
| LayoutTree.PruneCounts | src/layout.rs:1496-1535 | a pruning leaves every other leaf as often as it was and none of the pruned |
| LayoutTree.PruneNeverDeepens | src/layout.rs:1496-1535 | no surviving leaf gets deeper |
| LayoutTree.PruneKeepsDividers | src/layout.rs:1496-1535 | two surviving panes stay parted by a split of the same axis and the same share |
| LayoutTree.ReplaceLeafFinds | src/layout.rs:1441-1453 | the replacement happens if and only if the leaf is there; otherwise the tree is untouched |
| LayoutTree.ReplaceLeafSwapsOne | src/layout.rs:1441-1453 | one occurrence of the leaf gives way to the leaves of the replacement, and every other count stays |
| LayoutTree.ReplaceLeafInPlace | src/layout.rs:1441-1453 | the replacement stands in reading order exactly where the leaf stood |
| LayoutTree.ReplaceLeafStaysValid | src/layout.rs:1441-1453 | the new height is bounded by the old height and the leaf's depth plus the replacement's height, and valid ratios stay valid |
| LayoutTree.SplitThenRemoveUndoes | src/layout.rs:1441-1535 | splitting a leaf and removing the added pane gives back the very tree, shares included |
| LayoutTree.RatioGoesToTheNearestSplit | src/layout.rs:1455-1494 | the share changes on the deepest enclosing split with the axis and nowhere else, and the call reports success if and only if there is one |
| LayoutTree.RatioNeedsTheLeaf | src/layout.rs:1455-1494 | a tree without the leaf keeps its shares |
| LayoutTree.NoneNearestMeansNone | src/layout.rs:1455-1494 | when no enclosing split is the nearest with the axis, no enclosing split has the axis |
| LayoutTree.RatioMovesNoLeaf | src/layout.rs:1455-1494 | setting a share moves no leaf, changes no height and keeps ratios valid |
| LayoutInvariant.NormalizingTwice | src/layout.rs:1561-1579 | a normalized title is one the validator accepts |
| LayoutInvariant.NormalizesExactly | src/layout.rs:1561-1579 | there is one way to cut the blanks off a title, and what is left is kept if it is short and plain, refused if not, and no title if it is empty |
| LayoutInvariant.KeepsAddMember | src/layout.rs:562-612 | adding a member keeps the strengthened invariant |
| LayoutInvariant.KeepsUpdateMember | src/layout.rs:614-652 | both member updates keep it |
| LayoutInvariant.TabsWithoutPrunes | src/layout.rs:672-684 | draining the departing member's panes leaves valid, distinct tabs whose leaves are the old ones minus the departing panes |
| LayoutInvariant.KeepsRemoveMember | src/layout.rs:654-694 | a departure that succeeds keeps the invariant and leaves exactly the other members and exactly their panes |
| LayoutInvariant.FailedDeparture | src/layout.rs:654-694 | a failed departure changes nothing, except that the departure of the host of every pane fails with all tabs gone |
| LayoutInvariant.KeepsReservePane | src/layout.rs:745-794 | reserving a pane keeps the invariant, which includes that the reservation can be committed |
| LayoutInvariant.KeepsReserveTab | src/layout.rs:808-860 | the same for a tab |
| LayoutInvariant.KeepsPaneReady | src/layout.rs:862-956 | committing a reservation keeps it |
| LayoutInvariant.PendingCompletes | src/layout.rs:862-956 | a commit succeeds if and only if it names the pending reservation, its host and its base revision; the only failures are an unknown reservation, another host and another base revision |
| LayoutInvariant.ReadyPaneStandsBesideItsTarget | src/layout.rs:878-925 | the committed pane stands in reading order directly beside its target, on the side that was asked for |
| LayoutInvariant.KeepsDeletePane | src/layout.rs:1057-1088 | deleting a pane keeps the invariant |
| LayoutInvariant.KeepsDeleteTab | src/layout.rs:1090-1121 | deleting a tab keeps it |
| LayoutInvariant.KeepsSetSplitRatio | src/layout.rs:1123-1146 | moving a divider keeps it |
| LayoutInvariant.GridBatchChangesWhatItLists | src/layout.rs:1148-1181 | a batch that passes the checks lists distinct panes of the requester and changes the grids of exactly those |
| LayoutInvariant.KeepsUpdatePaneGrids | src/layout.rs:1148-1181 | such a batch keeps the invariant |
| LayoutInvariant.KeepsPaneFlags | src/layout.rs:1183-1226 | locking and reporting an exit keep it |
| LayoutInvariant.KeepsRenamePane | src/layout.rs:1228-1246 | renaming a pane keeps it |
| LayoutInvariant.KeepsRenameTab | src/layout.rs:1248-1267 | renaming a tab keeps it |
| LayoutRuns.NewSessionIsValid | src/layout.rs:352-402 | a new session satisfies the strengthened invariant |
| LayoutRuns.RestoreIsValid | src/layout.rs:423-451 | what a successor restores satisfies it too, and is the room's own layout |
| LayoutRuns.StepKeepsInvExactly | src/layout.rs:535-1267 | every operation keeps the invariant, the departure of the host of every pane excepted, and that departure always breaks it |
| LayoutRuns.RunKeepsInv | src/layout.rs:482-1267 | every state of every run without such a departure is valid: `validate_snapshot` accepts it and all ids are below the counters |
| LayoutRuns.RefusalChangesNothing | src/layout.rs:535-1267 | an operation that fails leaves the whole state as it was if and only if it is not such a departure |
| LayoutRuns.StepCommitsAtMostOnce | src/layout.rs:535-1267 | a step leaves the committed layout untouched or raises the revision by exactly one, if and only if it is not such a departure |
| LayoutRuns.RunCommitsForward | src/layout.rs:1352-1357 | over a run the revision never falls, and if it is the same at the end so is the layout |
| LayoutRuns.OneRevisionOneSnapshot | src/layout.rs:453-464 | two states of one run with equal revisions have equal members, tabs and panes |
| LayoutRuns.CreatePaneCommits | src/layout.rs:1018-1041 | reserve-then-commit in one call is all or nothing: a failure is the reservation's and changes nothing, a success is the commit's state |
| LayoutRuns.CreateTabCommits | src/layout.rs:1043-1055 | the same for a tab |
| LayoutRuns.PendingRefusesEdits | src/layout.rs:1277-1312 | while a reservation is pending every ordinary edit is refused and changes nothing |
| LayoutRuns.ReservationsEndOpenly | src/layout.rs:1281-1370 | a pending reservation stays as it is, with the layout under it, until a step whose reply announces its end |
| LayoutRuns.ReachableReservationCompletes | src/layout.rs:745-956 | in every reachable state the pending reservation has the current revision as its base, its host can commit it, and no commit at all fails as an invalid reservation |
| LayoutRuns.ReadyDeliversTheReservation | src/layout.rs:745-956 | the commit delivers the pane id, host and grid that the reservation promised, as a fresh, unlocked, running pane |
| LayoutRuns.PaneIdsAreNeverReused | src/layout.rs:1359-1361 | within one authority an id that is gone never comes back |
| LayoutRuns.RestoreReissuesExactly | src/layout.rs:403-451 | restoring a valid layout lowers an id counter if and only if the newest id issued is no longer in the layout |
| LayoutRuns.ADeletedIdComesBack | src/layout.rs:412-433 | a concrete session in which a successor issues the id of a deleted pane again |
| LayoutRuns.DepartureOfTheOnlyHost | src/layout.rs:672-687 | a concrete session whose only host departs: the call fails and every tab is gone |
| LayoutRuns.CreatePaneThenDelete | src/layout.rs:1018-1088 | creating a pane and deleting it gives back every tab, share and pane, two revisions later |
| LayoutRuns.CreateTabThenDelete | src/layout.rs:1043-1121 | the same for a tab |
| LayoutRuns.OnlyTheHostTouchesItsPane | src/layout.rs:535-1267 | whatever anybody but a pane's host does, the pane stays and only its title can change, and only by renaming it |
| LayoutRuns.ExitsAreFinal | src/layout.rs:1205-1226 | over a run a pane that has exited stays exited as long as it is in the layout |
| LayoutRuns.LockAndUnlock | src/layout.rs:1183-1203 | setting a lock and setting it back restores the layout, two revisions later |
| LayoutRuns.RunKeepsMachinesVerified | src/layout.rs:149-161 | a run keeps every listed machine id one that verifies for its peer id, or absent |
| LayoutRuns.EverySessionVerifiesMachines | src/layout.rs:352-402 | from a new session on, whatever identities are claimed, every run has them so |
| LayoutRuns.RestoreTrustsTheSnapshot | src/layout.rs:423-451 | a restored session has them so if and only if the snapshot does |
| LayoutRequests.EveryRequestIsAnswered | src/layout.rs:535-1293 | in a valid session each of the twenty operations is granted if and only if nothing speaks against it (an old base revision, a stranger, a pending reservation, a limit, an unknown or foreign pane or tab, a bad grid, share, title or name, used-up ids), and a refusal names something that is so |
| LayoutRequests.SuccessIsCurrent | src/layout.rs:1281-1300 | an operation that quotes a base revision goes through only if it is the one in force, and none goes through for a stranger |
| LayoutRequests.StaleRequestsAreTold | src/layout.rs:1281-1300 | an edit or a member update made on another revision is answered with both revisions before anything else and changes nothing, in every state, and an edit by a stranger is answered next |
| LayoutRequests.StaleEndingsAreTold | src/layout.rs:862-983 | the host of a reservation that quotes another base when it completes or gives up is told so, and the reservation stays |
| LayoutRequests.OneCommitPerBase | src/layout.rs:1281-1293 | of two requests of one run that quote one base, however far apart, at most one commits, and a second edit is told the revision in force |
| LayoutRequests.BatchAnswers | src/layout.rs:1148-1181 | a grid batch is refused if and only if some item is empty, listed before, unknown or another's, and for that reason |
| LayoutEffects.EveryRequestPerforms | src/layout.rs:535-1273 | every granted operation does what it is for and touches nothing else: each change told by its keys and positions, not by the code that makes it |
| LayoutEffects.NewSessionExactly | src/layout.rs:318-402 | a session starts for a valid host and grid, and only for one, with that host, one tab and one pane |
| LayoutEffects.ReplacingIsGrafting | src/layout.rs:1441-1453 | splitting a leaf changes the tree at the end of the way to it and nowhere else |
| LayoutEffects.TabsArePruned | src/layout.rs:672-690 | after a departure every tab is an old one pruned of the panes that went, and the other panes read on in order over all tabs |
| LayoutEffects.OneOutIs | src/layout.rs:686 | the member list after a departure is the old one with that member taken out of its place |
| Succession.StepKeepsPlaces | src/layout.rs:562-694 | an operation leaves the members in place, adds one at the end, or takes one out |
| Succession.JoinOrderIsKept | src/layout.rs:562-694 | over any run, two members that stay keep their order |
| Succession.BehindWhoStays | src/layout.rs:562-694 | over any run, whoever is behind a member that stays, or joins later, or leaves and comes back, is behind it at the end |
| Succession.RankIsJoinOrder | src/tui/runtime/failover.rs:115-139 | in every valid session the ranks of two candidates are the order in which the layout lists them |
| Succession.EarliestSurvivorRanksFirst | src/failover.rs:130-147 | a member that stays, and before which only the coordinator and those gone by the end ever stood, is first in line at the end of any run |
| SessionAuthority.ValidateSnapshot | src/layout.rs:482-533 | the executable validator succeeds if and only if the declarative invariant holds: members, tabs and panes valid and distinct, every pane one leaf of one tab |
| SessionAuthority.CheckMembers | src/layout.rs:491-500 | its loop over the members accepts exactly lists of valid members with distinct peer ids |
| SessionAuthority.CheckPanes | src/layout.rs:522-531 | its loop over the panes accepts exactly the maps whose panes are valid, hosted by members and shown by a leaf |
| SessionAuthority.SessionState.NewWithIdentity | src/layout.rs:352-402 | the fresh object is the specified initial state, or the specified error |
| SessionAuthority.SessionState.Restore | src/layout.rs:423-451 | the fresh object resumes the counters above the largest ids in use, or the snapshot is refused |
| SessionAuthority.SessionState.AddMember | src/layout.rs:562-612 | the object reaches the specified state with the specified reply, and does not move on an error |
| SessionAuthority.SessionState.UpdateMemberKind | src/layout.rs:614-632 | the same, and nothing moves when the kind is already the one declared |
| SessionAuthority.SessionState.UpdateMemberEndpoint | src/layout.rs:634-652 | the same for the endpoint |
| SessionAuthority.SessionState.RemoveMember | src/layout.rs:654-694 | the leaf-by-leaf loop over drained tabs ends in the pruned tabs, and in none of them when that leaves no tab |
| SessionAuthority.SessionState.ReservePane | src/layout.rs:745-794 | the object reaches the specified state with the specified reply, and does not move on an error |
| SessionAuthority.SessionState.ReserveTab | src/layout.rs:808-860 | the same |
| SessionAuthority.SessionState.PaneReady | src/layout.rs:862-956 | the same, for both kinds of reservation |
| SessionAuthority.SessionState.CancelReservation | src/layout.rs:958-966 | the same |
| SessionAuthority.SessionState.FailReservation | src/layout.rs:968-983 | the same |
| SessionAuthority.SessionState.ExpireReservation | src/layout.rs:985-995 | the same |
| SessionAuthority.SessionState.CreatePane | src/layout.rs:1018-1041 | the two calls in sequence reach the state specified for the pair |
| SessionAuthority.SessionState.CreateTab | src/layout.rs:1043-1055 | the same |
| SessionAuthority.SessionState.DeletePane | src/layout.rs:1057-1088 | the object reaches the specified state, and does not move on an error |
| SessionAuthority.SessionState.DeleteTab | src/layout.rs:1090-1121 | the same |
| SessionAuthority.SessionState.SetSplitRatio | src/layout.rs:1123-1146 | the same |
| SessionAuthority.SessionState.UpdatePaneGrids | src/layout.rs:1148-1181 | the same: the check loop runs over the whole batch before the first grid changes |
| SessionAuthority.SessionState.SetPaneLock | src/layout.rs:1183-1203 | the same |
| SessionAuthority.SessionState.MarkPaneExited | src/layout.rs:1205-1226 | the same |
| SessionAuthority.SessionState.RenamePane | src/layout.rs:1228-1246 | the same |
| SessionAuthority.SessionState.RenameTab | src/layout.rs:1248-1267 | the same |
| LedgerCodec.EntryPreimageInjective | src/ledger.rs:390-411 | equal entry preimages belong to one session and to entries equal in every field but the coordinator's signature |
| LedgerCodec.IntentPreimageInjective | src/ledger.rs:371-384 | equal intent preimages have equal session, author, kind and payload |
| LedgerCodec.DomainsAreSeparate | src/ledger.rs:27-33 | no entry preimage equals any intent preimage |
| LedgerCodec.PeelField | src/ledger.rs:408-411 | a length-prefixed field cannot slide into the next one |
| Ledger.RunsStayConsistent | src/ledger.rs:268-363 | whatever arrives, what a member has accepted since it anchored is one chain ending at its head, and its epoch never goes back |
| Ledger.ChainsAgreeBack | src/ledger.rs:306-363 | two chains whose last hashes are equal have equal covered fields, entry by entry backwards, unless one pair of entries is a hash collision |
| Ledger.EqualHeadsEqualHistories | src/ledger.rs:288-363 | two members with equal heads accepted the same entries, coordinator signatures aside, back to the later of their anchors, or their logs hold a hash collision |
| Ledger.SealedIsAccepted | src/ledger.rs:148-363 | what a writer seals from a well-formed change, a member in sync with it accepts, and both stand at the same position afterwards |
| Ledger.EverythingSealedIsAccepted | src/ledger.rs:148-363 | the same for any number of changes |
| Ledger.SealedEntriesChain | src/ledger.rs:148-170 | the entries of one writer have contiguous sequence numbers, saturating at 64 bits, and each names the hash of the one before |
| Ledger.SuccessorPicksUp | src/ledger.rs:110-125 | a writer resumed at a verified head stands exactly where the departed writer stood |
| Ledger.TakeoverIsOneChain | src/ledger.rs:110-170 | the entries of both writers together are one chain without a gap or a repeat |
| Ledger.OtherEpochsLeaveNoTrace | src/ledger.rs:299-363 | entries of other epochs, in any number and wherever they fall among the successor's, leave a member exactly where the successor's entries alone would |
| Ledger.TakeoverIsFollowed | src/ledger.rs:268-363 | a member in sync accepts all of the departed writer, rotates, and accepts all of the successor whatever of other epochs arrives in between; at every point from then on it refuses what the departed writer seals as `WrongEpoch` without moving |
| Ledger.LaggardsFollow | src/ledger.rs:258-284 | a member at any position rotates if and only if the new epoch is higher, is left alone otherwise, and then accepts everything the successor seals |
| LedgerAuthenticity.AcceptedSignatureIsGenuine | src/ledger.rs:345-363 | when a key accepts nothing its holder did not sign, an entry whose coordinator signature it accepts is one the holder sealed, or collides with something the holder signed |
| LedgerAuthenticity.RunsStayVouched | src/ledger.rs:268-363 | whatever arrives, every entry in a member's log carries a signature the coordinator in force accepts |
| LedgerAuthenticity.LogIsASliceOfTheSealed | src/ledger.rs:299-363 | below the 64-bit ceiling a member's log is a contiguous slice of what the coordinator sealed in that epoch, coordinator signatures aside, unless an entry of it collides |
| LedgerAuthenticity.MembersOfOneEpochAgree | src/ledger.rs:299-363 | two members of one epoch hold the same entry at every position both have, whatever their heads, unless an entry collides |
| LedgerAuthenticity.EveryRunIsAuthentic | src/ledger.rs:236-363 | the same slice for a member from its creation on, after any events and any rotations |
| LedgerAuthenticity.EntriesAreJudged | src/ledger.rs:310-363 | an entry is accepted if and only if there is no fault with it (position, chain, epoch, lengths, kind, either signature), and a refusal names a fault it has and leaves the verifier alone |
| LedgerAuthenticity.RunsStayAuthored | src/ledger.rs:345-355 | whatever arrives, every entry of a member's log has an author's signature that verifies, or none |
| LedgerAuthenticity.AuthorSignatureIsGenuine | src/ledger.rs:205-219 | when an author's key accepts nothing else than what it signed, an entry bearing its signature is a change it meant to make in this session, or exposes a collision |
| LedgerAuthenticity.EveryAuthorIsGenuine | src/ledger.rs:236-363 | the same for every entry of the log of a member from its creation on, after any events and any rotations |
| LedgerAuthenticity.SignedIntentIsAccepted | src/ledger.rs:185-203 | a change that its author signed and the coordinator sealed is accepted by a member in sync |
| LedgerAuthenticity.ResumedIsAccepted | src/ledger.rs:101-118 | wherever a writer resumes, even at position 0, a member that turns to it accepts what it seals first |
| LedgerAuthenticity.SealedCarries | src/ledger.rs:131-170 | the k-th sealed entry carries the k-th change: author, kind, payload and the author's own signature, under a coordinator signature that verifies |
| LedgerAuthenticity.LoggedIsWhatWasAsked | src/ledger.rs:131-363 | so an entry of a log that is the one sealed at its position says what was asked for |
| Ledger.DeposedIsStale | src/ledger.rs:306-363 | a well-formed entry sealed in another epoch is refused as `WrongEpoch` without moving the verifier |
| LedgerObjects.LedgerWriter.Append | src/ledger.rs:148-170 | the writer object advances as specified and returns the sealed entry |
| LedgerObjects.LedgerVerifier.Accept | src/ledger.rs:299-304 | the verifier object accepts and advances, or refuses and stays |
| LedgerObjects.LedgerVerifier.Rotate | src/ledger.rs:268-281 | the verifier object follows a higher epoch with its position cleared, or refuses and stays |
| Failover.RankedExactly | src/failover.rs:133-147 | a member ranks if and only if it is listed and is not the coordinator being replaced |
| Failover.RankFollowsJoinOrder | src/failover.rs:133-147 | ranks order the candidates as they joined |
| Failover.RanksAreDistinct | src/failover.rs:141-147 | no two candidates share a rank |
| Failover.DelaysAreStaggered | src/failover.rs:173-180 | a later rank waits at least one stagger longer |
| Failover.RoleAfterExactly | src/failover.rs:182-201 | a member follows if and only if its coordinator answers, waits while it is no candidate or its delay runs, and else takes over one epoch on |
| Failover.VerdictExactly | src/failover.rs:203-217 | a claim is accepted if and only if its epoch is later and its claimant ranks; an epoch not later is stale, the coordinator in force is deposed, anybody else is not a member |
| Failover.AcceptableExactly | src/tui/runtime/failover.rs:447-458 | a member attaches to whoever it already follows, to a ranked claimant of a later epoch, and at the same epoch to a member that joined before it, and to nobody else |
| Failover.HeedingMovesOn | src/tui/runtime/failover.rs:447-458 | after any claims, one more moves the member if and only if it names a later epoch and a listed member other than the coordinator, or the same epoch and one that joined before this member; its list stays |
| Failover.ClaimsAreSafe | src/tui/runtime/failover.rs:447-458 | over any claims from anybody the epoch never goes back, whoever coordinates is the first one or a listed member that claimed that epoch, and within an epoch the role goes only to members that joined before this one |
| Failover.NobodyElseIsHeeded | src/tui/runtime/failover.rs:447-458 | claims by strangers, by the coordinator itself, for epochs already left, and by rivals that joined later change nothing, however many |
| Failover.TieBreakSettlesExactly | src/failover.rs:150-168 | at one epoch a member moves only to coordinators that joined before the one it has if and only if nobody stands between that one and itself in the list, as is so for every coordinator |
| Failover.ALaterMemberCanFlap | src/tui/runtime/failover.rs:447-458 | a member for which that is not so, and two claims of its epoch that take it away from its coordinator and back |
| Failover.ConcedingIsAStrictTotalOrder | src/failover.rs:150-168 | of any two members holding the role at one epoch exactly one concedes, and conceding is transitive |
| Failover.EarliestNeverConcedes | src/failover.rs:150-168 | no sequence of exchanges ever makes the earliest-joined holder step down |
| Failover.SettledExactly | src/failover.rs:150-168 | no exchange is left to lose if and only if one holder is left |
| Failover.SplitBrainConverges | src/failover.rs:150-168 | for the earliest-joined of the holders: any sequence of conceding exchanges is shorter than the number of holders, and has settled if and only if the earliest-joined is the only one left |
| Failover.AnySplitBrainConverges | src/failover.rs:150-168 | any non-empty group of members holding the role at one epoch has an earliest-joined, who never steps down, and has settled if and only if only that one is left |
| Failover.SettlingIsPossible | src/failover.rs:150-168 | from any such group some sequence of conceding exchanges leaves exactly the earliest-joined |
| FailoverTiming.NobodyElsesTurn | src/failover.rs:173-199 | under the timing bound nobody behind the winner is ever due while it still waits |
| FailoverTiming.StepKeepsInv | src/failover.rs:131-227 | every step of the timed system keeps its invariant |
| FailoverTiming.ExactlyOnePromotes | src/failover.rs:131-227 | in every state of every run only the lowest-ranked live member has taken over; it has by its deadline, and one delivery later every live member shares the view rotated to it |
| FailoverTiming.EveryClaimIsAccepted | src/failover.rs:203-218 | every claim on its way is accepted by the verdict of its addressee |
| FailoverTiming.TimeAlwaysPasses | src/failover.rs:181-217 | from every reachable state the clock can be brought past any instant by finitely many polls, detections and deliveries |
| FailoverTiming.EveryOutageEnds | src/failover.rs:131-227 | every run of an outage can be continued to a state in which the winner alone coordinates and every live member shares the view rotated to it |
| Lease.EpochFencesTheController | src/lease.rs:62-143 | a call moves the epoch by at most two, an unchanged epoch means an unchanged controller, and input quoting another epoch neither succeeds nor changes anything |
| Lease.EpochsOnlyGrow | src/lease.rs:62-143 | the same over runs |
| Lease.OneEpochOneController | src/lease.rs:62-143 | two calls that succeed with the same resulting epoch, whatever happens between, come from one sender |
| Lease.ControllerHolds | src/lease.rs:62-143 | while less than the idle time passes and nobody clears by force, the controller and the epoch stay |
| Lease.NobodyElseForThirtySeconds | src/lease.rs:62-143 | after a granted call no other sender's input or take request succeeds or changes anything for thirty seconds |
| Lease.AnybodyAfterThirtySeconds | src/lease.rs:62-143 | after thirty seconds of quiet a call quoting the epoch succeeds if and only if the epoch has room for it |
| Lease.InputExactly | src/lease.rs:62-88 | input gets through if and only if it quotes the epoch, comes from the holder or finds the lease free or idle, and the epoch has room; it is delivered whole, its sender controls, and the idle time starts anew |
| Lease.TakeControlExactly | src/lease.rs:107-129 | a request for control is granted at the cost of one epoch if and only if it quotes the epoch and nobody holds the lease; which refusal the others get |
| Lease.ClearingExactly | src/lease.rs:90-105 | an idle lease is cleared, a held one is not, and a forced clear clears both |
| Lease.ControllerTypesOn | src/lease.rs:62-88 | a controller never quiet for thirty seconds keeps the lease and its epoch without end, and exactly what it types reaches the pane, in order |
| Lease.GranteeTypesOn | src/lease.rs:62-143 | the same from any grant on |
| LeaseManagement.LeaseManager.Change | src/lease.rs:127-143 | the object takes the new controller at the next epoch, or is left alone when epochs have run out |
| LeaseManagement.LeaseManager.Input | src/lease.rs:62-87 | the object's state and decision are the specified ones |
| LeaseManagement.LeaseManager.ClearController | src/lease.rs:96-104 | the same |
| LeaseManagement.LeaseManager.ClearIfIdle | src/lease.rs:89-94 | the same |
| LeaseManagement.LeaseManager.TakeControl | src/lease.rs:106-125 | the same |
| KittyKeyboard.LexIgnoresWhatFollows | src/kitty_keyboard.rs:24-83 | a finished sequence is read the same whatever follows it |
| KittyKeyboard.ChunkingInvariance | src/kitty_keyboard.rs:18-92 | observing two pieces is observing them joined, whenever the unfinished tail at the cut is at most 64 bytes |
| KittyKeyboard.AnyChunkingInvariance | src/kitty_keyboard.rs:18-92 | the same for any number of pieces |
| KittyKeyboard.CarryLimitIsExact | src/kitty_keyboard.rs:86-91 | an unfinished tail can be cut off safely, whatever the modes and whatever follows, if and only if it is at most 64 bytes |
| KittyKeyboard.LongPushIsLost | src/kitty_keyboard.rs:86-91 | for an unfinished push the limit is exact in whatever state the tracker is |
| KittyKeyboard.ALongPushIsLost | src/kitty_keyboard.rs:86-91 | a concrete push of 66 bytes that counts when seen whole and is lost when its last byte comes alone |
| KittyKeyboard.ScanKeepsBits | src/kitty_keyboard.rs:102-126 | whatever a child prints, every flag kept is 0 or 1 |
| KittyKeyboard.SequenceIsRead | src/kitty_keyboard.rs:24-83 | a written push, pop or set is read back with its operation and its number |
| KittyKeyboard.LexReadsTheGrammar | src/kitty_keyboard.rs:24-83 | the reader accepts exactly the grammar: a push, pop, set (with or without a second number) or query at the front is read with its length and number, data waits if and only if some end would make it one, and anything else is passed over by one byte |
| KittyKeyboard.PushThenPop | src/kitty_keyboard.rs:18-126 | push, text and pop leave the tracker as it was, with the pushed flags in force between |
| KittyKeyboard.PopUndoesPushes | src/kitty_keyboard.rs:106-126 | one pop with a count undoes that many pushes, and a larger one only empties the stack |
| KittyKeyboard.AskIsAnswered | src/kitty_keyboard.rs:45-56 | a query is answered with the flags in force |
| KittyKeyboard.DecimalIsRead | src/kitty_keyboard.rs:45-56 | a number in a reply is written in the digits it is read from, without a leading zero |
| KittyKeyboard.ActivatedExactly | src/kitty_keyboard.rs:94-126 | a push or set switches reporting on if and only if its number is odd and fits a byte |
| KittyKeyboard.SetThenAsk | src/kitty_keyboard.rs:18-126 | setting flags and asking for them answers with the supported part of what was set |
| KittyTracking.KittyKeyboardTracker.SkipDigits | src/kitty_keyboard.rs:58-62 | the digit loop stops at the first byte that is no digit |
| KittyTracking.KittyKeyboardTracker.ReadSequence | src/kitty_keyboard.rs:24-83 | the chain of conditions at an escape is the specified reading |
| KittyTracking.KittyKeyboardTracker.ApplyOperation | src/kitty_keyboard.rs:106-126 | the object's stack and base change as specified, popping one at a time |
| KittyTracking.KittyKeyboardTracker.Active | src/kitty_keyboard.rs:94-96 | reporting is on if and only if the flags in force have their lowest bit |
| KittyTracking.KittyKeyboardTracker.TakeQueryReply | src/kitty_keyboard.rs:98-100 | the waiting answer is handed over and kept no longer, and nothing else changes |
| KittyTracking.KittyKeyboardTracker.Observe | src/kitty_keyboard.rs:18-92 | the index loop with its breaks ends in the specified tracker |
| ProcessTree.ReachedEarly | src/agent_detect.rs:901-928 | whatever a walk up can meet at all, it meets within as many steps as there are processes |
| ProcessTree.DescendantDepth | src/agent_detect.rs:915-928 | the bounded loop returns the least number of hops to the root, or nothing when the root is above by no path, cyclic and incomplete tables included |
| ProcessTree.AncestorsOf | src/agent_detect.rs:901-913 | the bounded walk lists the pids above in order, and stops short only where the snapshot ends |
| ProcessTree.AncestorsAreExact | src/agent_detect.rs:901-913 | such a list holds exactly the pids above, however many hops away |
| ProcessTree.EnclosingNodeAmong | src/agent_detect.rs:881-889 | the nearest node above the process, if there is one |
| LooseAgents.InsidePane | src/agent_detect.rs:813-817 | a process is in a pane if and only if some pane root is above it or is it |
| LooseAgents.IsOutermost | src/agent_detect.rs:825-829 | an agent is kept if and only if no loose agent of its kind is above it |
| LooseAgents.AgentsOutside | src/agent_detect.rs:810-818 | the filter keeps exactly the agents outside every pane, in table order |
| LooseAgents.RowsFor | src/agent_detect.rs:823-843 | the second pass makes one row per outermost agent, with the node it runs under |
| LooseAgents.ListLooseAgents | src/agent_detect.rs:809-849 | the pipeline ends in the specified sorted listing |
| LooseAgents.ListingShowsTheListed | src/agent_detect.rs:809-849 | with unique pids the listing holds exactly the rows of the outermost loose agents, each pid once, in order |
| LooseAgents.RowsAreTrue | src/agent_detect.rs:809-849 | every row is about an agent of the table that is neither a pane's process nor below one, with that process's kind, directory and start time, and the nearest node above it, or 0 where nothing above is one |
| LooseAgents.OutsideExactly | src/agent_detect.rs:813-817 | an agent is outside the panes if and only if it is no pane's process and has none above it |
| LooseAgents.EnclosingNodeIsNearest | src/agent_detect.rs:881-889 | the node of a row is the nearest process above that the caller or the table knows for a node, and there is none exactly when nothing above is one |
| LooseAgents.FiledExactly | src/agent_detect.rs:825-829 | the filter keeps a loose agent, or one of its kind above it, if and only if neither it nor any loose agent of its kind above it is on a cycle |
| LooseAgents.ShownExactly | src/agent_detect.rs:809-849 | the same of the rows: a loose agent has a row, or descends from an agent of its kind that has one, under exactly that condition |
| LooseAgents.EveryLooseAgentIsShown | src/agent_detect.rs:809-849 | every loose agent is shown in that sense if and only if no loose agent is above itself |
| LooseAgents.ListedAgentsAreApart | src/agent_detect.rs:825-829 | of two listed agents of one kind neither is above the other |
| LooseAgents.ListingIgnoresOrder | src/agent_detect.rs:809-849 | two snapshots of the same processes in any order give the same list |
| LooseAgents.CyclicAgentsAreLeftOut | src/agent_detect.rs:825-829 | a loose agent that is above itself has no row, and neither has any agent of its kind above it |
| LooseAgents.AnAgentGoesMissing | src/agent_detect.rs:825-829 | a concrete table, one agent on a cycle with a plain process, whose listing is empty |
| AgentTracker.RunsAreMaximal | src/agent_detect.rs:1086-1126 | the current run of a history holds only alike pushes, and the push before it is not alike |
| AgentTracker.RecordPushExtends | src/agent_detect.rs:1086-1126 | recording a push is what the longer history amounts to |
| AgentTracker.StandingPushIsItsHistory | src/agent_detect.rs:1057-1126 | the standing status has as its clock the first non-zero time of the current run of one kind and state, and as its message the last non-empty one of the current run of one kind |
| AgentTracker.SuspicionIsTheStretch | src/agent_detect.rs:1057-1068 | while a status stands, the suspicion clock runs if and only if the history ends in a stretch of childless sightings, with no report and no child since, and shows the time of the stretch's first sighting |
| AgentTracker.DroppedExactlyAfterGrace | src/agent_detect.rs:1057-1068 | over the events alone: the next event drops a standing status if and only if it is a childless sighting a whole grace period after the first sighting of the stretch the history ends in |
| AgentTracker.StandsExactly | src/agent_detect.rs:1057-1126 | a status stands if and only if there was a push after which no event was such an expiry |
| AgentTracker.RowExactly | src/agent_detect.rs:1138-1214 | in terms of the history: there is a row if and only if the standing report is not idle or the last scan saw an agent; its kind and directory are the reporter's before the scan's; its state, message and clock are what the standing reports amount to when they are of its kind, and unknown, empty and zero otherwise |
| AgentTracker.RecordIsItsHistory | src/agent_notify.rs:326-356 | the record folded over pushes is what their history amounts to |
| AgentTracker.RecordAgreesWithTracker | src/agent_notify.rs:326-356 | after any events, the record folded over the pushes that stand has the tracker's kind, state, directory, message and clock, and there is none if and only if no status stands |
| AgentTracker.PaneAgentTracker.ObservePaneLiveness | src/agent_detect.rs:1057-1084 | the object reacts as specified |
| AgentTracker.PaneAgentTracker.RecordPushedStatus | src/agent_detect.rs:1086-1126 | the same |
| AgentTracker.PaneAgentTracker.Update | src/agent_detect.rs:1168-1170 | the same |
| Scrollback.NotchMovesOneStep | src/client.rs:263-342 | every notch moves the position asked for by exactly one clamped step |
| Scrollback.NotchExactly | src/client.rs:290-342 | rows at hand are shown at once, without a query, and drop what was under way; other rows are asked for if nothing is under way, and remembered without a query if something is; the live edge ends the history |
| Scrollback.NotchStaysOnItsPane | src/client.rs:290-342 | and touches no other pane |
| Scrollback.ReplyOnlyClamps | src/client.rs:650-721 | a reply that answers nothing in flight changes nothing; the right one clamps the position to the reported total, or resets it when there is no history |
| Scrollback.WindowExactly | src/client.rs:645-721 | the right window is shown where its request asked for it, and notches folded meanwhile move on at once to rows at hand, else by one more query |
| Scrollback.RepliesPayTheDebt | src/client.rs:650-721 | no reply adds to the round trips a pane owes, and the right one takes one away |
| Scrollback.RepliesOnlyAnswer | src/client.rs:650-721 | any replies take the position asked for to exactly what the matching ones among them make of it, each clamping it to its total or resetting it |
| Scrollback.TwoRepliesSettle | src/client.rs:650-721 | at most two replies match after the last notch, and then the pane shows the position asked for before them, clamped by those replies: that very position when the history they report reaches it |
| Scrollback.RunsKeepBooks | src/client.rs:290-342 | over any run of replies, input, resizes and notches on panes that have a view, folded notches only ever wait for a request that is out |
| Scrollback.RetiredStaysRetired | src/client.rs:182-208 | once a request is no longer waited for, its answer is ignored for ever |
| Scrollback.AnsweredIsRetired | src/client.rs:197-208 | an answered request is one of those |
| Scrollback.DisplacedIsRetired | src/client.rs:197-342 | and so is a request after any act if and only if its pane no longer waits for it |
| Scrollback.QueriesQuoteTheHistoryInHand | src/client.rs:1624-1644 | an act sends at most one query, under the next request id, for what the pane then waits for, and it quotes the history held for that pane |
| Scrollback.OneHistoryAtATime | src/client.rs:681-692 | a window of the history in hand is added to its viewports, one of another history stands alone, and no other pane's history moves |
| Scrollback.OtherActsKeepOrDrop | src/client.rs:663-680 | any other act keeps a pane's history as it is or drops it whole with the pane back at the live edge; a refusal drops it, so its id is not quoted again |
| Scrollback.CachesAreSourced | src/client.rs:645-692 | from a fresh start on, over any acts, every cached viewport came in a window for that pane and offset in the session of history in hand |
| ScrollClients.ScrollClient.ScrollPaneToward | src/client.rs:290-342 | the maps change as specified |
| ScrollClients.ScrollClient.RequestScrollback | src/client.rs:1623-1645 | one query goes out and becomes the pane's only pending request |
| ScrollClients.ScrollClient.TakeMatchingPending | src/client.rs:197-208 | the pending request is taken if and only if its id matches, and nothing changes otherwise |
| ScrollClients.ScrollClient.AbandonHistory | src/client.rs:234-245 | the pane forgets its history and returns to the live edge |
| ScrollClients.ScrollClient.ScrollbackWindow | src/client.rs:650-721 | the whole arm ends in the specified maps, follow-up query included |
| Utf8.EncodedIsDecoded | src/ctl.rs:239-259 | encoded characters are well formed in the sense of section 4 of RFC 3629 and decode to themselves |
| Utf8.DecodedIsEncoded | src/ctl.rs:239-259 | every well-formed byte sequence is the encoding of what it decodes to |
| Utf8.CutsExactlyAtBoundaries | src/ctl.rs:244-246 | a prefix of a text is whole characters if and only if it ends at a character boundary |
| Utf8.BoundaryIsNear | src/ctl.rs:244-246 | one of any four neighbouring positions is a boundary |
| CtlSend.FallbackIsDead | src/ctl.rs:247-253 | the search for a boundary never ends at zero, so the fallback branch never runs |
| CtlSend.ChunkSend | src/ctl.rs:239-259 | the two loops terminate with the specified pieces |
| CtlSend.ChunksAreAChunking | src/ctl.rs:239-259 | the pieces concatenate to the text, each is non-empty whole characters within 32000 bytes, and one is cut only where the next character would not have fitted |
| CtlSend.ChunksAreNearlyFull | src/ctl.rs:239-259 | every piece but the last has at least 31997 bytes |
| CtlSend.ChunkingIsUnique | src/ctl.rs:239-259 | there is only one such way to cut a text |
| CtlSend.CharactersStayWhole | src/ctl.rs:239-259 | decoding the pieces one by one gives the characters of the text |
| CtlSend.EscapeGrowsSixfold | src/ctl.rs:205-209 | escaping as in section 7 of RFC 8259 takes at most six bytes for one and leaves no line feed |
| CtlSend.EscapeByteExactly | src/ctl.rs:205-209 | which bytes are escaped, and that each takes the short form where there is one |
| CtlSend.EscapedIsPlain | src/ctl.rs:205-209 | no control byte is left in an escaped text |
| CtlSend.ChunkFramesFit | src/ctl.rs:575-586 | every frame of a send is within `MAX_FRAME`, and its only line feed ends it |
| CtlSend.FramesCarryTheirKeys | src/ctl.rs:502-505 | equal frames have the same pane and the same keys |
| CtlSend.SendAll | src/ctl.rs:420-452 | a send succeeds if and only if every frame is taken; on failure `delivered` is the exact length of the prefix in the frames before the first one refused, and an empty send is refused |
| TextWrap.SplitAtoms | src/install_path.rs:305-325 | the character loop ends in the specified atoms |
| TextWrap.AtomsAreWords | src/install_path.rs:305-325 | an atom split again is that one atom |
| TextWrap.Wrap | src/install_path.rs:278-299 | the line-filling loop ends in the specified lines |
| TextWrap.WrappingLosesNothing | src/install_path.rs:278-325 | for a blank indent, splitting the joined lines gives exactly the atoms of the body |
| TextWrap.WrappingTwice | src/install_path.rs:278-325 | so wrapping the wrapped text changes nothing |
| TextWrap.NoAtomIsBroken | src/install_path.rs:278-299 | the lines, split one by one, give the atoms of the body in order |
| TextWrap.LinesAreShaped | src/install_path.rs:278-299 | a line is its indent and its atoms one space apart, and exceeds 78 characters only for a single atom |
| TextWrap.LinesAreFilled | src/install_path.rs:278-299 | a line is broken only where the next atom would not have fitted |
| TextWrap.SpanStaysOnOneLine | src/install_path.rs:301-325 | a backticked span stands whole on one line |

## Left out

- FailoverTiming.ExactlyOnePromotes: assumes that a claim reaches every live member within `delivery`, where the runtime lets members find the new coordinator by dialling candidates in turn (src/tui/runtime/failover.rs:389); detection skew, polling delay and delivery must together stay below the stagger.
- FailoverTiming.EveryOutageEnds: needs a polling interval of at least one millisecond, since a member that polls without pause would hold the model's clock.
- LedgerAuthenticity.LogIsASliceOfTheSealed: is about positions below the ceiling of 64 bits; at the ceiling the writer repeats a position.
- Ledger.EqualHeadsEqualHistories: speaks about fields shorter than 2^64 bytes, which is all that memory can hold.
- Lease.OneEpochOneController: is about calls that succeed; a forced clear leaves the lease with no controller at a new epoch.
- KittyKeyboard.LongPushIsLost: is about pushes; a longer unfinished pop or set is lost as well, which goes unnoticed in some states, such as a pop on an empty stack.
- AgentTracker.RecordAgreesWithTracker: is about the fold itself; `record_on_this_machine` also deletes the file when an agent turns idle, so the agreement is for the updates since then.
- Scrollback.RetiredStaysRetired: holds until request ids wrap at 64 bits.
- LooseAgents.EveryLooseAgentIsShown: is about tables with unique pids, which a snapshot of a running system has.
- CtlSend.SendAll: counts the frames the node acknowledged; a frame whose acknowledgement was lost on the way counts as not delivered, as in the source.
- Split trees are values: the source owns each tree, so there is no sharing between them to lose, but the update inside a tree is a new tree here.
- Overflow of `Duration` and the platform's clock limits.
- Signature, hash and encryption internals, key parsing and the machine-id proof: parameters.
- The wire protocol, sockets, threads, terminals and polling around these parts.
- Panes that a screen frame adds to the history with an empty entry, viewports that fail to decode, and rows of a viewport: a cached viewport is just its offset.
- The early-input queue of the attach client: a bounded first-in first-out queue.
- `classify` with its tie-break on start times, and the recognition of agents by process name.
- `interpret_send_keys` and `unescape_send_text`: a table of key names and a table of escapes.
- Hook payload parsing, summaries and event names of `agent_notify`.
- Choosing which installed copy to warn about, and the wording of the warning.
