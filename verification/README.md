# PFM control-plane and packet-path model

PFM is a prototype gNB-CU-UP on DPDK. This project models, in Dafny, the part of it that keeps state, and proves
what that state obeys over whole runs:

- the tunnel table (`tunnel.c`): fixed rows, a key index and two circular cursors, with add, modify
  (copy-on-write), remove, commit and rollback;
- the UE context table (`ue_ctx.c`): the same scheme one level up, each row listing tunnel rows, each commit and
  rollback driving the tunnel-level ones;
- the requests built on the two (`drb.c`, `pdus.c`, `e1ap_bearer_setup.c`, `e1ap_bearer_release.c`), which follow
  sections 9.2.2.1 and 9.2.2.2 of 3GPP TS 38.463;
- the worker's transmit ring and header checksum (`pfm_worker_loop.c`), the round-robin readers (`pfm_link.c`,
  `pfm_kni.c`), the transmit batcher (`pfm_tx_loop.c`), the route table (`pfm_route.c`) and the ARP cache
  (`pfm_arp.c`).

## How it is built

Each table is a class over an array, its index and its cursors, with the C code's loops and writes. A class method
is proved equal to a function on the table's value (`Abs() == F(old(Abs()))`), and the lemmas reason about those
functions. Row numbers stand for row pointers and `None` for `NULL`. Table sizes are parameters; as in `cuup.h:13`,
one number bounds tunnel rows and tunnel ids.

| layer | modules |
|---|---|
| searching | Circular |
| tunnels | TunnelStore (values), TunnelTable (class), TunnelTransactions, Openings, TunnelRuns, LiveKeys, KeyRuns, KeyClashes |
| UE contexts | UeStore (values), UeTable (class), UeIds, UePacking, UeRelease, UeModify, UeUndo, UeGaps |
| requests | Drb, Pdus, Bearer, Outcomes, DrbRefusals, SessionAnswers, SetupRuns, SetupResults, SetupRelease, UeRuns, Scenarios |
| packet path | TxRing, Checksum, RoundRobin, TxBatch, Route, Arp |

## What the proofs found

Where the expected property fails, the model keeps the code as it is, a lemma gives the exact condition, and another
one shows an input that runs into it.

- Removing a tunnel frees its row while the key is still indexed (`tunnel.c:297`). Over any run of transactions index
  and table agree all along exactly if no allocation finds that row first in line while the removal is pending
  (`TunnelRuns.RunAgreesIff`); otherwise two keys can end on one row
  (`TunnelRuns.AllocationDuringRemovalBreaksAgreement`).
- Keys handed out are unique although only committed keys are checked, as long as no row is freed
  (`KeyRuns.LiveKeysUnique`). With rollbacks, the keys of used rows stay distinct exactly if no opening finds the next
  key for its address on an uncommitted row in use (`KeyClashes.KeysStayDistinctIff`). Openings that are rolled back
  always lead there (`KeyClashes.RollbacksReachClash`), in every table of three rows or more
  (`KeyClashes.RollbackBreaksUniqueness`).
- The loop that packs the PDU list reads the DRB list (`ue_ctx.c:291-293`) and `pdus_count` is never updated. The PDU
  list survives a commit exactly if it begins with the DRBs moved into it (`UePacking.PduListSurvivesCommitIff`). After
  a setup it is a copy of the front of the DRB list (`SetupRelease.SetupCommits`), and a release of that context leaves
  the session tunnels in use and the first DRB keys indexed to free rows (`SetupRelease.ReleaseAfterSetupLeaks`). A
  release is exact exactly if every row is listed an odd number of times (`UeRelease.ReleaseExactIff`), since
  committing an unused row deletes its key or indexes it again in turn.
- A modification conserves the tunnel table exactly if no modified DRB row is also listed as a PDU session
  (`UeModify.ModifyCommitConserves`), and straight after a setup exactly if no DRB copied has a position below the
  number of sessions (`SetupRelease.ModifyAfterSetupConservesIff`). Rolling it back follows the lists of the committed
  context (`ue_ctx.c:453-462`), so it is undone exactly if no DRB was copied (`UeModify.ModifyUndoneIff`).
  `Scenarios.ModifyAfterSetupLoses` runs into both.
- Since `pdus_count` stays, a commit that leaves fewer DRBs than sessions can leave null slots in the listed part of the
  PDU list (`UeGaps.CommittedPointedIff`), and the next release or modification of that UE follows them. Over any run
  of setups, modifications and releases the UE table and its index agree, and every context can be followed all along
  exactly if no modification's commit leaves such a gap (`UeRuns.UeTableAgreesOverRuns`). The first modification after
  a setup leaves none (`UeGaps.FirstModificationLeavesNone`), but it can free every row its context lists, and then the
  second one does (`Scenarios.SecondModificationCommitsGap`).
- A deletion from the hash gives the position the key had, and the commits take any other number than 0 for an error
  (`tunnel.c:380`, `ue_ctx.c:331`). So a release of a known UE is complete but reports success exactly if the position
  was 0 (`Bearer.BearerRelease`).
- A PDU session all of whose DRBs fail removes a key that is not committed yet, which misses, and then commits the
  row (`pdus.c:122-123`): the session's row stays in use and indexed. A rollback of the UE gives everything back
  exactly if no request ran into that (`UeUndo.UndoGivesBackAllIff`), that is, if no session got its row while each of
  its DRBs found the DRB limit reached, its id listed, or no tunnel left to open, as things stood before the first of
  them (`DrbRefusals.SomeAllDrbsFailIff`). A session request without DRBs is such a case
  (`Scenarios.EmptySessionLeaks`). The same tail one level up keeps the UE id (`e1ap_bearer_setup.c:104-105`,
  `SetupRelease.FailedSetupKeepsUe`), although the response reports a failure.
- DRB ids are compared with eight bits but stored in five (`tunnel.h:23`), so the duplicate check of `drb.c:51-62`
  keeps ids distinct exactly if the stored bits are not listed (`SetupResults.DrbIdsStayDistinctIff`). A DRB 33 is
  accepted next to DRB 1 (`Scenarios.TwoDrbsOneId`).
- The checksum loop and its tail step read past the header (`pfm_worker_loop.c:276-283`); the comment there says odd
  lengths are padded, the test is for even ones. And `pfm_worker_loop.c:401` stores the number without `htons`, unlike
  the fields around it. With the header's own words summing to H and the bytes read past it to E, the stored checksum
  verifies exactly if E is 0 or 65535 on a big-endian host, and exactly if 65535 divides 255 H + 256 E on a
  little-endian one (`Checksum.HeaderVerifiesIff`), which for harmless E means that 257 divides H
  (`Checksum.LittleEndianVerifiesIff`). The host's byte order is a parameter.
- A route of depth 0 or above 32 makes the index answer with an error code, which `pfm_route.c:76` takes for a hit: the
  row of an uninitialised number is written and success reported. Table and index stay in step exactly if the depth is
  in range or that row is not in use (`Route.AddKeepsInStepIff`).
- ARP replies never store the link they came from, so refresh requests always leave by link 0
  (`Arp.CacheAgreesWithHistory`).

## Model

| member | source | states |
|---|---|---|
| Circular.NextIsModulo | tunnel.c:115-116 | the step of every search loop is the source's increment modulo the table size |
| Circular.SearchIsFirstFit | tunnel.c:145-162 | a search returns exactly the first free position after the cursor in circular order, and fails exactly if every position but the cursor's own is taken |
| TunnelTable.TunnelTable.constructor | tunnel.c:50-56 | an initialised table has no used row and nothing indexed |
| TunnelTable.TunnelTable.KeyAlloc | tunnel.c:59-137 | in place, the search loop allocates the first id after the id cursor that is free under the local address chosen for the tunnel type and peer (which one, Openings.KeyAllocTakesNextId says); only the id cursor moves |
| TunnelTable.TunnelTable.Alloc | tunnel.c:142-163 | in place, the search loop takes the first unused row after the row cursor, writing its key and used flag only |
| TunnelTable.TunnelTable.Get | tunnel.c:167-207 | a row is found exactly if the key is in the committed view, and then it holds what the view has for the key; in a committed table it is in use under that key |
| TunnelTable.TunnelTable.Add | tunnel.c:228-264 | refuses an indexed key, otherwise allocates |
| TunnelTable.TunnelTable.Remove | tunnel.c:266-299 | an indexed key's row becomes unused and stays indexed; otherwise not found |
| TunnelTable.TunnelTable.Modify | tunnel.c:301-330 | an indexed key gets a second row; otherwise nothing |
| TunnelTable.TunnelTable.Commit | tunnel.c:332-400 | the whole new table for each of the cases new, unchanged, removed and modified, and the status, which takes the position of a deleted key for an error unless it is 0; a null handle fails and changes nothing |
| TunnelTable.TunnelTable.Rollback | tunnel.c:402-451 | the whole new table and the status for a row added, removed, unmodified, modified, or in no valid state |
| TunnelTransactions.AllocTakesFreeRow | tunnel.c:142-163 | the row handed out was unused and first-fit, and it alone changes; allocation fails exactly if all rows but the cursor's are used |
| TunnelTransactions.AddRollback | tunnel.c:414-426 | add, fill, rollback restores index, used flags and the contents of all used rows |
| TunnelTransactions.ModifyRollback | tunnel.c:444-449 | modify, fill, rollback restores them as well |
| TunnelTransactions.RemoveRollback | tunnel.c:436-442 | remove, rollback restores the table itself |
| TunnelTransactions.AddCommitInserts | tunnel.c:352-365 | add, fill, commit is a map insert of a new key on the committed view |
| TunnelTransactions.ModifyCommitUpdates | tunnel.c:391-399 | modify, fill, commit is a map update; the old row is freed and as many rows are used |
| TunnelTransactions.RemoveCommitDeletes | tunnel.c:374-387 | remove, commit is a map delete and frees exactly the row |
| TunnelTransactions.RollbackCases | tunnel.c:412-450 | a rollback fails, and changes nothing, exactly for a free new row, or for a second row of an indexed key with one of the two free; otherwise it sets the row's used flag to whether its key looks it up |
| TunnelTransactions.CommitReports | tunnel.c:369-387 | a commit deletes a key exactly for a free row that its key looks up, and fails exactly if it does and the position is not 0 |
| Openings.KeyAllocTakesNextId | tunnel.c:79-137 | the key is under the source address that the ARP cache has for the peer, or else for the gateway to it (for a DRB: 192.168.0.1), and has the first id after the cursor that is not indexed there; there is none exactly if all but the cursor's are |
| Openings.RowAllocTakesNextRow | tunnel.c:142-163 | the row is the first one after the cursor that is not in use; there is none exactly if all but the cursor's are in use |
| Openings.OpenTakesNext | tunnel.c:59-264 | both together: the next row under the next key, or a failure exactly if no id or no row is left, which at most moves the id cursor |
| Openings.UnreachableRefused | tunnel.c:82-100 | with neither the peer nor its gateway in the ARP cache a session tunnel is refused and nothing moves |
| TunnelRuns.AllocTakesRemovedRowIff | tunnel.c:142-163 | an allocation is handed an indexed row if and only if the row of a pending removal is the first free one after the cursor |
| TunnelRuns.AllocKeepsAgreement | tunnel.c:142-163 | an allocation keeps index and table in agreement if and only if no pending removal has freed the row that is next in line |
| TunnelRuns.StepAgreesIff | tunnel.c:228-451 | an add, modify, fill, remove, commit or rollback keeps them in agreement if and only if it does not reach an allocation that finds the row of a pending removal first in line |
| TunnelRuns.UsedRowsAccounted | tunnel.c:228-451 | used rows = indexed keys - pending removals + open handles |
| TunnelRuns.RunAgreesIff | tunnel.c:228-451 | over any run on rows held open or indexed, agreement holds all along if and only if no step meets that |
| TunnelRuns.IndexAndTableAgree | tunnel.c:228-451 | the same for runs from an initialised table, at whose end each key then maps to a row holding it, no two keys share a row, the used rows are accounted for, and no more keys are indexed than rows exist |
| TunnelRuns.AllocationDuringRemovalBreaksAgreement | tunnel.c:297 | in every table where a removed row is next in line, adding and committing another key before the removal is committed gives both keys that row |
| TunnelRuns.RemovedRowNextInLine | tunnel.c:145-146 | such a table, at every size from two rows on |
| TunnelRuns.IndexFitsHash | tunnel.c:33-36 | no more keys are indexed than rows exist, the capacity the hash is created with |
| LiveKeys.IdsNeedRows | cuup.h:13 | n distinct ids in use occupy n distinct used rows |
| LiveKeys.AllIdsFillTable | cuup.h:13 | when all N ids are in use all N rows are, so nothing can be allocated |
| LiveKeys.LapFillsTable | tunnel.c:114-137 | a cursor that comes round to an uncommitted row's id has passed every id in use |
| LiveKeys.OpenKeepsLive | tunnel.c:114-137 | one key allocation and add keeps the invariant, and takes at most one row, unused so far, under a key that no used row has |
| LiveKeys.CommitKeepsLive | tunnel.c:352-365 | committing a used row keeps the invariant, changes no row and indexes the row's key |
| KeyRuns.MoveKeepsLive | tunnel.c:228-264 | opening, filling in and committing keep the invariant and free no row |
| KeyRuns.LiveKeysUnique | tunnel.c:114-137 | after any run of openings over any tunnel types and addresses, of writes to opened rows and of commits, no two used rows have the same key |
| KeyClashes.OpenKeepsDistinctIff | tunnel.c:114-137 | after any history, an opening keeps the keys of used rows distinct if and only if the next key for its address is not that of an uncommitted row in use, or no row is left |
| KeyClashes.KeysStayDistinctIff | tunnel.c:228-451 | over any run of openings, writes, commits and rollbacks the keys of used rows stay distinct all along if and only if no opening meets such a clash |
| KeyClashes.RollbacksReachClash | tunnel.c:417-425 | from any state with an uncommitted row in use and two rows left, openings that are each rolled back reach a clash |
| KeyClashes.RollbackBreaksUniqueness | tunnel.c:417-425 | from every initialised table of at least three rows a run of DRB openings and rollbacks ends with two used rows under one key |
| UeTable.UeTable.constructor | ue_ctx.c:14-50 | an initialised table has blank rows, none used, and nothing indexed |
| UeTable.UeTable.IdAlloc | ue_ctx.c:53-91 | in place, the first free UE id after the id cursor, as UeIds.IdAllocTakesNextId says; only that cursor moves |
| UeTable.UeTable.Alloc | ue_ctx.c:93-110 | in place, the first unused row after the row cursor, with its old lists and counts |
| UeTable.UeTable.Add | ue_ctx.c:115-143 | refuses an indexed id, otherwise allocates |
| UeTable.UeTable.Remove | ue_ctx.c:145-180 | the context becomes unused and each listed tunnel, sessions first, is removed |
| UeTable.UeTable.CopyPdus | ue_ctx.c:216-223 | the copy loop, whose counter is the new row's own count, copies exactly the listed slots |
| UeTable.UeTable.CopyDrbs | ue_ctx.c:226-233 | the same for the DRB list; a row copied onto itself ends up empty |
| UeTable.UeTable.Modify | ue_ctx.c:182-235 | a new row under the id with both lists copied, and no other field of the old row |
| UeTable.UeTable.CommitListed | ue_ctx.c:257-265 | commits each listed tunnel in order and clears the slots whose row is unused right after its own commit |
| UeTable.UeTable.PackInPlace | ue_ctx.c:267-276 | the non-null slots move to the front in order, with their count |
| UeTable.UeTable.PackInto | ue_ctx.c:288-296 | the second packing loop, which reads one list and writes another |
| UeTable.UeTable.CommitLists | ue_ctx.c:257-296 | the four loops together: both tables after them |
| UeTable.UeTable.CommitIndex | ue_ctx.c:298-357 | the id's index entry, and the status, for the cases new, unchanged, removed and modified |
| UeTable.UeTable.Commit | ue_ctx.c:237-359 | the whole state after a commit, and the status, a failure if the deleted id's position is not 0; a null context fails and changes nothing |
| UeTable.UeTable.Get | ue_ctx.c:361-386 | a row is found exactly if the id is indexed; where UE table and index agree it is in use and carries the id |
| UeTable.UeTable.Rollback | ue_ctx.c:388-465 | the whole state and the status for each case; after a modify it is the old row's lists that are rolled back |
| UeIds.IdAllocTakesNextId | ue_ctx.c:70-90 | the id handed out is the first one after the cursor that is not indexed, and the cursor moves there; there is none exactly if all but the cursor's are indexed |
| UeIds.AllocTakesNextRow | ue_ctx.c:93-110 | the row is the first one after the cursor that is not in use, and keeps its lists and counts |
| UeIds.OpenUeTakesNext | e1ap_bearer_setup.c:42-72 | a UE gets a context exactly if an id and a row are left, and gets the next ones, with empty lists |
| UeIds.SetupMovesCursor | e1ap_bearer_setup.c:31-119 | a whole setup leaves the id cursor on the id that it handed out |
| UeIds.ReleasedIdNotReused | ue_ctx.c:71-79 | so the id of a UE that is set up and released is not the one that the next UE gets |
| UeIds.RowsRefused | ue_ctx.c:115-205 | an add refuses an indexed id and a modification any other; both fail without a row |
| UeIds.ModifiedOntoItself | ue_ctx.c:216-233 | a context removed but not yet committed is handed its own row by a modification exactly if that row is next, and then ends with empty lists |
| UeIds.StatusCases | ue_ctx.c:404-465 | what removals and rollbacks report, and which used flag they set |
| UeIds.CommitReports | ue_ctx.c:324-336 | a commit deletes an id exactly for a free row that its id looks up, and fails exactly if it does and the position is not 0 |
| UePacking.PackingKeepsUsedRows | ue_ctx.c:257-276 | for listed DRB rows with distinct keys, the list left is exactly the rows still in use, in order |
| UePacking.SurvivorsAreUsed | ue_ctx.c:267-276 | the rows left are the used ones of the list, each once if the list has no duplicates |
| UePacking.ListsAfterCommit | ue_ctx.c:257-296 | the commit of a context whose listed rows are in use leaves the DRB list and moves DRBs from its first pdus_count slots into the PDU list |
| UePacking.PduListSurvivesCommitIff | ue_ctx.c:288-296 | that commit keeps the PDU list if and only if the list begins with those DRBs; if no session is listed as a DRB, if and only if there are none |
| UePacking.PduListBecomesDrbList | ue_ctx.c:288-296 | with as many DRBs left as sessions listed, the PDU list becomes a copy of the front of the DRB list |
| UeRelease.RemoveRowsMarksUnused | ue_ctx.c:174-178 | removing listed rows marks exactly them unused |
| UeRelease.CommitUnusedToggles | tunnel.c:374-387 | committing unused rows deletes exactly the keys of those listed an odd number of times |
| UeRelease.ReleaseEffect | e1ap_bearer_release.c:10-32 | what a release does to any committed context: id and UE row gone, listed rows free, keys of oddly listed rows deleted, nothing else changed |
| UeRelease.ReleaseExactIff | e1ap_bearer_release.c:10-32 | exactly the listed keys are deleted if and only if every row is listed an odd number of times |
| UeRelease.ReleaseIsExactAndFramed | ue_ctx.c:324-336 | with distinct listed rows exactly the id, its keys and its rows go, and every other id and key looks up what it did before |
| UeModify.StageRow | drb.c:124-145 | one modification copies a committed row into an unused one and leaves all used rows alone |
| UeModify.ModifyAllStages | drb.c:117-146 | modifications at distinct positions leave the list in order with the modified rows replaced by their copies |
| UeModify.CommitCurrent | ue_ctx.c:257-265 | committing the list switches each modified key to its copy, frees the old rows and clears no slot |
| UeModify.TunnelsConservedIff | ue_ctx.c:257-286 | modified keys look up their copies, old rows are free, other keys are untouched and as many rows are used, if and only if no modified row is also listed as a PDU session |
| UeModify.ModifyTakesRow | ue_ctx.c:207-234 | the new context takes an unused row under the same id with the same lists |
| UeModify.ModifyCommitConserves | ue_ctx.c:342-354 | modify, then any DRB modifications, then commit: list kept in order, id on the new row, old UE row free, other UE rows untouched, used UE rows as many as before, and the tunnel table conserved under the same condition |
| UeModify.ModifyUndoneIff | ue_ctx.c:453-463 | modify, any DRB modifications, then rollback: the UE table and the tunnel index are as before, and so are the used rows if and only if no DRB was copied |
| Drb.DrbSetup | drb.c:32-93 | in place, the checks in order, the row taken and filled, the list extended, and exactly one of the two response slots written |
| Drb.DrbModify | drb.c:117-146 | in place, the copy of the row takes its list slot and the response names the new row |
| Pdus.PdusSetup | pdus.c:36-133 | the nested request in place: both tables, the context and the response, with the DRB counts adding up, or the failure and its cause, as SessionAnswers.SetupPdusAnswer says |
| Pdus.ServeDrbs | pdus.c:100-115 | the DRB loop fills the two response lists with the accepted and the rejected requests although failed attempts write into slots that are reused |
| Bearer.BearerSetup | e1ap_bearer_setup.c:31-119 | the whole setup: state and response in the cases no UE row, all requests failed, and success |
| Bearer.ServeRequests | e1ap_bearer_setup.c:73-97 | the request loop fills the two response lists with the accepted and the rejected requests |
| Bearer.BearerRelease | e1ap_bearer_release.c:10-32 | the whole release; an unknown id fails and changes nothing; a known one is released and, where UE table and index agree, reported so if and only if its position in the hash was 0 |
| Outcomes.PartitionCount | pdus.c:108-114 | successes and failures add up to the number requested |
| Outcomes.PlacedInOrder | pdus.c:100-115 | each outcome stands in the list of its kind, at the number of its kind before it |
| Outcomes.StablePartition | e1ap_bearer_setup.c:73-97 | the two response lists are a stable partition of the requests |
| SetupRuns.HeldOpen | tunnel.c:228-264 | opening a tunnel during a setup takes one further unused row and keeps everything in use before |
| SetupRuns.HeldCommit | pdus.c:122-123 | the all-DRBs-fail tail removes nothing and indexes the session's row for good |
| SetupRuns.SetupDrbEffect | drb.c:43-92 | an accepted DRB has a new id among those listed and one new row, listed last and reported; a rejected one changes no row, no index and no list |
| SetupRuns.SetupDrbsEffect | pdus.c:100-115 | the DRB loop lists the accepted rows, in order, after those listed before, and takes no other |
| SetupRuns.SetupPdusEffect | pdus.c:50-132 | a rejected session leaves both lists as they were; an accepted one adds one session and at least one DRB; the index changes exactly in the all-DRBs-fail case |
| UeUndo.SetupAllEffect | e1ap_bearer_setup.c:73-97 | the request loop: rows taken, lists, leaks and responses, for any number of requests |
| UeUndo.RollbackFrees | ue_ctx.c:415-418 | rolling back listed uncommitted rows frees exactly these |
| UeUndo.UndoGivesBackAllIff | ue_ctx.c:404-424 | add a UE, set up any sessions, roll back: the UE table is as before and so is every row in use before; tunnel index and used rows are as before if and only if no session lost all its DRBs |
| DrbRefusals.SetupDrbAnswer | drb.c:32-93 | a DRB is rejected exactly if the limit is reached, its id listed, or no id or row left, and told the cause; otherwise it gets the next id under 192.168.0.1 and the next row, which holds its details and is listed last |
| DrbRefusals.SetupDrbsAnswer | pdus.c:100-115 | so each request of the DRB loop is answered, on the state that the ones before it have left |
| DrbRefusals.AllRefusedIff | pdus.c:100-115 | the DRB loop refuses every request if and only if each finds the DRB limit reached, its id listed, or no tunnel to open in the state in which the loop starts |
| DrbRefusals.SomeAllDrbsFailIff | pdus.c:116-127 | the condition of UndoGivesBackAllIff on the states in which the requests are served |
| SessionAnswers.OpenPdusIff | pdus.c:50-97 | a session gets no row exactly if the session limit is reached, a listed session has its id, its peer is unreachable, or no id under its address or no row is left; else it gets the next row under the next id of the source address for its peer |
| SessionAnswers.SetupPdusAnswer | pdus.c:36-133 | it is accepted exactly if it gets its row and then one of its DRBs is served; the response carries the row's key and the two lists of the DRB loop, a rejection the cause, and an unreachable peer leaves everything as it was |
| SessionAnswers.SetupAllAnswer | e1ap_bearer_setup.c:73-97 | so each request of a bearer setup is answered, on the state that the ones before it have left |
| UeUndo.RemoveUndone | ue_ctx.c:435-448 | remove, then rollback, of a committed context restores both tables, even when its lists have duplicates |
| SetupResults.DrbIdsStayDistinctIff | drb.c:51-62 | an accepted DRB keeps the ids distinct if and only if no listed DRB has its low five bits, as holds for ids below 32 |
| SetupResults.DrbIdTruncationEscapesCheck | drb.c:52-85 | a DRB with an id of 32 or more whose low bits are listed is accepted, and two listed rows then have one id |
| SetupResults.ContextWellFormed | pdus.c:50-132 | after any setups with DRB ids below 32 the listed rows are distinct and used, DRB ids and session ids are distinct, and counts are within limits |
| SetupResults.DrbResponsesAnswer | drb.c:12-28 | each DRB request is answered under its id, with a cause that applies |
| SetupResults.PdusResponsesAnswer | pdus.c:13-33 | each session request is answered under its id, and an accepted one accounts for all its DRB requests |
| SetupResults.ResponseMatchesContext | e1ap_bearer_setup.c:73-97 | the response partitions the requests, and the accepted sessions and DRBs carry, in order, ids and keys of the listed rows |
| SetupRelease.CommitFresh | ue_ctx.c:257-265 | committing used rows with new keys indexes them all and clears no slot |
| SetupRelease.SetupCommits | e1ap_bearer_setup.c:109-118 | a successful setup indexes exactly the listed rows under a new UE id, index and table agree, the DRB list is kept and the PDU list is the front of the DRB list |
| SetupRelease.ReleaseAfterSetupLeaks | e1ap_bearer_release.c:10-32 | releasing that context restores the UE table but leaves the session tunnels in use and the first DRB keys indexed to free rows |
| SetupRelease.ModifyAfterSetupConservesIff | ue_ctx.c:288-296 | modifying that context and committing conserves the tunnel table if and only if no DRB copied has a position below the number of sessions |
| SetupRelease.FailedSetupKeepsUe | e1ap_bearer_setup.c:98-108 | when all requests fail the UE row is taken and indexed with empty lists; index and tunnel table still agree |
| SetupRelease.SetupStaysSettled | e1ap_bearer_setup.c:31-119 | one setup, successful or not, ends with index and tunnel table in agreement and every earlier key in place |
| SetupRelease.BearerSetupsStaySettled | e1ap_bearer_setup.c:31-119 | so does any run of setups, with all used rows under different keys |
| UeRuns.SetupAllSorted | e1ap_bearer_setup.c:73-97 | whatever the tunnel table is like, a setup's DRB rows are distinct and in use, no key of theirs is indexed to another of them, and there are as many DRBs as sessions at least |
| UeRuns.CommitUntangled | ue_ctx.c:257-265 | the commit of such a list clears no slot |
| UeGaps.CommittedPointedIff | ue_ctx.c:257-296 | the lists of a committed context can be followed if and only if the commit leaves no gap: no session slot cleared at or past the number of DRBs left in the first pdus_count slots |
| UeGaps.EnoughDrbsLeaveNone | ue_ctx.c:288-296 | with as many DRBs left as sessions listed there is none |
| UeGaps.FirstModificationLeavesNone | ue_ctx.c:257-296 | nor is there after the first modification of a committed context with distinct DRBs, at least as many as sessions |
| UeGaps.FreeListsLeaveGap | ue_ctx.c:257-296 | with every listed row free, and a DRB for each session, there is one |
| UeGaps.WholeModificationFreesAll | ue_ctx.c:257-296 | modifying every DRB of a context whose PDU list is its DRB list: the commit frees all the copies, and lists them |
| UeRuns.SetupSurvives | e1ap_bearer_setup.c:31-119 | a setup keeps UE table and index in agreement and every indexed context fit to be followed |
| UeRuns.ReleaseSurvives | e1ap_bearer_release.c:10-32 | so does a release |
| UeRuns.ModifyRollbackSurvives | ue_ctx.c:453-463 | so does a modification that is rolled back |
| UeRuns.ModifyCommitSurvivesIff | ue_ctx.c:257-357 | one that is committed keeps UE table and index in agreement, and its context fit to be followed if and only if it leaves no gap |
| UeRuns.UeTableAgreesOverRuns | ue_ctx.c:182-465 | after any run of setups, modifications and releases each UE id looks up a used row carrying it, no two share one, and as many rows are used as ids indexed; every indexed context can be followed all along if and only if no modification leaves a gap |
| Scenarios.SetupSucceeds | e1ap_bearer_setup.c:31-119 | in an initialised system with three tunnel rows and two UE rows, every request for one session with one DRB to a reachable peer succeeds |
| Scenarios.EmptySessionLeaks | pdus.c:116-127 | there a session request without DRBs takes a row that rolling back the UE does not give back |
| Scenarios.TwoDrbsOneId | drb.c:52-85 | DRB 1 and DRB 33 in one request are both accepted, and both listed rows have id 1 |
| Scenarios.ModifyAfterSetupLoses | ue_ctx.c:288-296 | modifying that one DRB after its setup: the commit does not conserve the tunnel table, the rollback does not give back the copy |
| Scenarios.SecondModificationCommitsGap | ue_ctx.c:288-296 | one setup, the modification of its one DRB and a further modification, both committed: a release that follows meets a null pointer |
| TxRing.HeldFromTail | pfm_worker_loop.c:42-47 | the packet at the tail is the oldest one held, across the wrap-around |
| TxRing.Worker.Enqueue | pfm_worker_loop.c:52-70 | the packet is appended if fewer than TX_QUEUE_SIZE - 1 are held, and otherwise refused with nothing held lost |
| TxRing.Worker.Draw | pfm_worker_loop.c:34-51 | up to max_pkt of the oldest packets, in order, leave the ring; the rest of the output array is untouched |
| TxRing.Worker.Drain | pfm_worker_loop.c:146-161 | the drain loop terminates with the ring empty, having handed over all packets held, in order, in non-empty batches within the limit |
| TxRing.FirstInFirstOut | pfm_worker_loop.c:34-70 | over any interleaving, packets sent followed by packets held are the packets accepted, never more than the capacity |
| Checksum.Fold | pfm_worker_loop.c:286-288 | folding ends with a 16-bit value congruent to the sum modulo 65535, zero only for zero |
| Checksum.CheckSum | pfm_worker_loop.c:269-292 | the loops, with their 32-bit accumulator, return the complement of the folded sum of all that is read |
| Checksum.ComplementsAllReadIff | pfm_worker_loop.c:276-290 | result plus all words read is 0 modulo 65535 if and only if the sum fits 32 bits |
| Checksum.TotalIsHeaderAndExtra | pfm_worker_loop.c:276-283 | what is read is the header's words and the bytes past it |
| Checksum.BytesSummed | pfm_worker_loop.c:276-283 | what is summed is the bytes up to the length and one more, and for an even length yet another two, each weighted by its place in a word; the header's own sum weights the bytes of the length |
| Checksum.SealedSum | pfm_worker_loop.c:395-401 | storing the number, in the host's byte order, in the field that was 0 adds what its two bytes read as to the header's sum |
| Checksum.HeaderVerifiesIff | pfm_worker_loop.c:387-401 | a receiver of the stored header gets 0 modulo 65535 if and only if, on a big-endian host, the bytes read past it add up to 0 or 65535, and on a little-endian one, 255 times its own sum plus 256 times theirs is a multiple of 65535 |
| Checksum.LittleEndianVerifiesIff | pfm_worker_loop.c:401 | with the bytes past it adding up to 0 or 65535, a little-endian host's header verifies if and only if 257 divides its own sum |
| Checksum.HeaderChecksumCounterexample | pfm_worker_loop.c:387-401 | a header as pfm_data_req builds it: before bytes left in the buffer its stored checksum verifies on no host, and before zeros on big-endian ones only |
| RoundRobin.LinkReader.Read | pfm_link.c:556-598 | serves the first ready link from the cursor on, or none exactly if none is ready, with no link inspected twice; the cursor ends after the one served |
| RoundRobin.LinkReader.ReadTurns | pfm_rx_loop.c:37-40 | successive reads, whatever the links are like at each, form a history of such calls |
| RoundRobin.KniReader.Read | pfm_kni.c:556-611 | the same for KNIs, with the null test |
| RoundRobin.KniReader.ReadTurns | pfm_tx_loop.c:48-56 | the same for the reads of the transmit loop |
| RoundRobin.ServedWithinGap | pfm_link.c:559-597 | a link ready at every call is served within as many further calls as it is steps from the cursor |
| RoundRobin.ServedWithinRound | pfm_kni.c:560-610 | with n indexes, one that is ready at each of n successive calls is served by one of them |
| TxBatch.TxLoop.TxBurst | pfm_tx_loop.c:15-35 | the driver's share is transmitted and the rest freed, in order |
| TxBatch.TxLoop.SendBatch | pfm_tx_loop.c:63-91 | the batching loop sends exactly the runs of packets for the same link |
| TxBatch.BurstsSplit | pfm_tx_loop.c:67-90 | the bursts concatenate to the packets dequeued; each is non-empty and for one link, and adjacent ones differ in link |
| TxBatch.SplitIsUnique | pfm_tx_loop.c:67-90 | no other split has these properties |
| TxBatch.EveryPacketOnce | pfm_tx_loop.c:15-35 | every packet is either transmitted or freed, exactly once |
| Route.RouteTable.RouteAdd | pfm_route.c:53-109 | in place, a stored prefix is updated in its row and a new one takes the next row; a refusal changes nothing; a depth out of range overwrites the stray row |
| Route.RouteTable.RouteQuery | pfm_route.c:112-145 | a lookup gives a row in use whose prefix contains the address, longest among all such rows, and nothing exactly if no row's prefix does |
| Route.CoversIff | pfm_route.c:128-133 | the masked prefix of net/depth covers exactly the addresses with the quotient of net by 2^(32 - depth) |
| Route.AddKeepsInStep | pfm_route.c:72-108 | with a depth of 1 to 32, prefixes stay in bijection with rows 0 to entry_count - 1 |
| Route.AddKeepsInStepIff | pfm_route.c:72-108 | any add keeps that bijection if and only if its depth is in range or the stray row is not in use; out of range it reports success, writes the request to the stray row only and leaves the index alone |
| Route.RefusedOnlyIfNewAndFull | pfm_route.c:83-103 | a full table refuses exactly the new prefixes; the index's own refusal is passed on exactly for new ones; neither changes anything |
| Route.RunRemembers | pfm_route.c:72-108 | after any adds the index holds exactly the accepted prefixes, each with the last request accepted for it |
| Route.LongestAnswers | pfm_route.c:128-138 | the lookup answers with the longest accepted prefix that contains the address |
| Route.QueryAgreesWithHistory | pfm_route.c:128-138 | after any adds a query gives the gateway and link most recently accepted for the longest accepted prefix containing the address, which is unique, and nothing exactly if none contains it |
| Arp.ArpTable.ProcessReply | pfm_arp.c:169-230 | in place, a reply for a cached address, or with a free position, fills the row of its address with its addresses, try_count 0 and a 5-second timer; any other is refused |
| Arp.ArpTable.ClearEntry | pfm_arp.c:88-114 | the address is no longer indexed, its row is blank and its timer stopped |
| Arp.ArpTable.RefreshCallback | pfm_arp.c:118-164 | a firing asks again and re-arms the timer, or at the third asks on every link and clears the entry |
| Arp.ArpTable.Query | pfm_arp.c:233-265 | a lookup gives a row that holds the address asked for |
| Arp.StepAnswers | pfm_arp.c:118-230 | which events are stored, refused, fired or skipped: a reply is stored exactly if its address is cached or a position is free, and a timer fires, for its row's address, exactly if it runs |
| Arp.StepKeepsInStep | pfm_arp.c:88-230 | every reply and firing keeps each address on a row holding it with its timer running, and all other rows blank |
| Arp.StepFrames | pfm_arp.c:198-227 | what happens for one address leaves every other address and its row alone |
| Arp.StepAgrees | pfm_arp.c:118-230 | each step keeps the agreement of the cache with its history |
| Arp.StepOnTime | pfm_arp.c:124-150 | each firing happens at the age, and sends the request, that the number of firings before it tells |
| Arp.CacheAgreesWithHistory | pfm_arp.c:118-265 | after any interleaving the log is that of the events, and a query gives the last stored reply's entry with try_count the firings since, exactly while these are fewer than three; unanswered entries are refreshed at 5 and 10 seconds and cleared at 20, later only by how late the timers were served |

## Left out

- The table-up flags and lazy initialisation: tables start initialised, because the test at `ue_ctx.c:62` is inverted.
- The inside of `rte_hash`: a lookup hits or misses, the position that a deletion returns is an input, and errors
  other than a miss or a lack of room do not occur.
- TunnelTable.TunnelTable.Commit: a failing add (`tunnel.c:358-363`, `tunnel.c:394-398`) is not modelled; the hash has
  room for a key per row, and `TunnelRuns.IndexFitsHash` says that no more are indexed.
- UeTable.UeTable.Commit: the same for `ue_ctx.c:310-314` and `ue_ctx.c:349-353`.
- Bearer.BearerSetup: the branch for a failing commit (`e1ap_bearer_setup.c:110-117`) is not reached, as the commit of
  a new context is an add.
- The remaining fields of the PDU session and DRB unions, such as flow counts and header flags, and
  `new_ul_flow_detected_count`: nothing modelled reads them. The first byte of the union is one field here.
- UeTable.UeTable.CommitLists: the lists are worked on as a value and written back to the row after the loops; no
  loop of `ue_ctx_commit` can see the difference, as the tunnel table does not hold UE rows.
- TunnelTable.TunnelTable.KeyAlloc: the ARP cache and the route table enter as two maps, remote address to local
  address and remote address to gateway. They stay fixed during one bearer request (or one opening) and may differ from
  one to the next.
- UeModify.ModifyCommitConserves: `cucp_ue_id`, which `ue_ctx_modify` does not copy (`ue_ctx.c:216-234`), is whatever
  the reused row held; the lemma does not speak of it.
- `pdus_modify` and `e1ap_bearer_ctx_modify`: the removal search swaps its indexes and removals stay pending while
  rows are allocated, so the invariants here do not carry over.
- `tunnel_get_with_idx` and the print functions: they only read.
- Requests longer than the response arrays (more than four sessions, or four DRBs in one): the source writes past
  its arrays there, so callers are required not to send them.
- TxRing.Worker.Enqueue: a refused packet is not freed by the source either; its memory is not modelled.
- Checksum.CheckSum: negative lengths are not modelled, and the bytes past the header must exist.
- RoundRobin.LinkReader.Read: a link count of 0, and what `link_id` holds when nothing is served, are not stated.
- TxBatch.TxLoop.SendBatch: the read from the KNI that precedes each batch is left out; it is one more burst.
- Route.RouteTable.RouteAdd: whether the index takes a new prefix is an input, and so is the number found in the
  uninitialised row variable when the depth is out of range; a number outside the table is excluded, since the source
  then writes outside its table. Routes added with such a depth have no place in `Route.QueryAgreesWithHistory`.
- Route.RouteTable.RouteQuery: the longest-prefix search inside `rte_lpm` is assumed, not modelled.
- Arp.ArpTable.ProcessReply: the packet is reduced to its addresses; whether the hash has a position for a new key,
  and which, is an input.
- Arp.CacheAgreesWithHistory: each entry has its own clock; times of different entries are not compared.
- GTP, SDAP and PDCP, whose table is never brought up or which are empty; the packet classifier, whose remembered
  KNI is never set; logging, CLI, link and KNI bring-up, signals, and the older copies of the sources kept beside
  the unit tests.
- Concurrency: the control plane takes no locks, so operations are sequential steps.
