# Orbital: a verified model of its change control and its coordination

Orbital lets operators propose changes to a configuration graph, review them, and merge
them while other people and other replicas keep writing. This project models the parts of
it that decide whether that is safe, and proves what they do and do not guarantee.

| file | models |
|---|---|
| `Changesets.dfy`, `MergePlan.dfy`, `MergeProperties.dfy` | the preview of a changeset, the three-way outcome of each field, the narrowed merge |
| `ChangeRequests.dfy`, `MergeRetry.dfy` | one change request and the graph: merge, decide, amend, close; a merge that fails part way and its retry |
| `ReviewRuns.dfy` | any sequence of those steps and of writes by others |
| `Policies.dfy`, `PolicySnapshot.dfy` | approval policies, which one governs a change; saving and restoring them around killable test runs |
| `Numbering.dfy` | numbering the requests of a namespace |
| `JobLease.dfy`, `JobAdmission.dfy` | claiming, heartbeating, finishing and reaping jobs; admitting them under advisory locks |
| `IngestCursor.dfy`, `DivergenceReports.dfy` | claiming a divergence report with a cursor; applying one |
| `EagerLoad.dfy`, `QueryTree.dfy`, `BulkCreate.dfy`, `RowCodec.dfy` | the generated data layer: edge loading, builder cloning, bulk creation with hooks, the row codec |

A service object or builder that is edited in place is a class; a loop is a method proved
against a function. A protocol that several parties step through is a `World`, a `Step` type
and a function `Next`; `After` folds a run, and lemmas speak of every run. `JobLease.Next` is
built from the functions the methods of that module are proved against, and
`ReviewRuns.Execute` shows that a run is a script of calls on `RequestStore`.

## Where the code does less than it says

Each of these is proved as the exact condition under which the statement does hold. Most have
a run that breaks it.

- "Re-merging is a no-op for what already applied" (`internal/handler/changerequest_merge.go:40`, `docs/docs.go:952`): a
  merge that stopped can be run again exactly when nothing that landed moved a version; or when the failed item did not
  land, the scope was read again and the base updated, no landed item carried a version or deleted an entity of the base,
  and the approvals were updated too or enough exist for the new versions anyway (`MergeRetry.RetryPromiseHoldsIff`,
  `MergeRetry.RepeatedRetriesHoldIff`). A merge whose items all landed and whose status could not be written is not rebased.
- "Approvals survive if and only if the base moved by exactly the items this merge applied"
  (`internal/handler/changerequest_merge.go:43`): besides, the scope has to be read again and both updates have to succeed
  (`MergeRetry.ApprovalSurvivesIff`, `MergeRetry.InterruptedApprovalSurvivesIff`).
- A merge does what its preview showed: not when a recorded ancestor sends a delete through
  `planMerge`, which drops it; the request still ends as merged (`MergeProperties.MergeMatchesPreviewIff`).
  Amending an edit into deletions gets there in one step (`ReviewRuns.AmendedDeletesAreDropped`).
- "The ancestor moves with it" on amend (`internal/handler/changerequest.go:970`): only when the snapshot was read and the
  new changeset edits something that exists, or the ancestor that is kept happens to be the same
  (`ReviewRuns.AmendReplacesAncestorIff`).
- "The ANCESTOR moves with the anchor" on approval (`internal/handler/changerequest.go:834`): the approval is recorded
  first, so when the read or the update after it fails the caller gets an error, the approval counts, and neither moves
  (`ChangeRequests.RequestStore.Decide`, `ReviewRuns.ApprovingReanchors`).
- "The current view and the record cannot disagree" (`internal/handler/changerequest.go:812`): an interrupted merge
  restamps the one and not the other (`ReviewRuns.RestampSplitsTheLedgerIff`).
- "One that stalls and resumes aborts" (`deploy/README.md:348`): the reaper leaves `locked_by` in place and
  the fence does not look at the status, so a reaped runner's heartbeats and result are accepted
  (`JobLease.FencedWriteLandsIff`, `JobLease.OneTerminalWriteIff`).
- "Two triggers cannot both find nothing running" (`deploy/README.md:349`): the scheduler takes another lock and
  looks only for backups, and a trigger's lock ends with its five-second transaction
  (`JobAdmission.AdmissionExcludesIff`).
- "Exactly one replica ingests" (`deploy/README.md:353`): true of two replicas, whatever fails. With three, a failed apply
  can give the cursor back to a value older than a report applied since, while a third replica still holds that report
  (`IngestCursor.AppliesOnceIff`, `IngestCursor.StaleRollbackReopensIff`).
- "Numbers are NOT reused after a delete" (`internal/handler/changerequest.go:280`): a deleted number comes back
  exactly when it was the greatest one left or a create under way had already read it as free
  (`Numbering.DeleteLeadsToReuseIff`).

## Model

| member | source | states |
|---|---|---|
| Changesets.ApplyChangesetTo | internal/handler/changerequest.go:1643-1695 | The preview loop computes the item-by-item simulation of the changeset. |
| Changesets.SimulateNamed | internal/handler/changerequest.go:1643-1695 | With one item per entity, an entity ends as its own item says, whatever the order of the others. |
| Changesets.SimulateEffect | internal/handler/changerequest.go:1643-1695 | After the preview every set field holds its proposal, every cleared field is absent, every other field of the entity is as before. |
| MergePlan.SatisfiedMeansUnchanged | internal/handler/changerequest.go:1566-1641 | The satisfied fields, which the code derives from absence in the whole-changeset diff, are exactly the fields of a live, not deleted entity that already have the proposed value. |
| MergePlan.ClassifyChangeset | internal/handler/changerequest.go:1176-1233 | Every field the changeset writes gets exactly one outcome, no other field gets any, and the outcome is that of a direct three-way comparison of ancestor, current and proposed value. |
| MergePlan.PlanMerge | internal/handler/changerequest.go:1244-1317 | The reported conflicts are exactly the conflicting fields, so there is none exactly when no written field conflicts; the planned items are the changeset's reduced to the fields that apply, empty ones dropped. |
| MergeProperties.PlanWritesIff | internal/handler/changerequest.go:1284-1308 | In a plan without conflicts exactly those fields are written that are not at their proposal already, with the proposed values, so an entity of which nothing is left is not written. |
| MergePlan.NarrowItem | internal/handler/changerequest.go:1284-1301 | The two loops over one item keep exactly the applying sets and clears and note exactly the conflicts. |
| MergeProperties.NarrowWriteIsFullWrite | internal/handler/changerequest.go:1139-1144 | Without a conflict, writing only the applying fields gives the entity the same content as writing all of them, and an item with nothing left is one whose entity exists. |
| MergeProperties.MergedAt | internal/handler/changerequest_merge.go:112-130 | An accepted merge leaves every entity outside the changeset alone, writes each named one as its item says, and deletes only when no ancestor was recorded. |
| MergeProperties.MergeWritesTheProposal | docs/docs.go:3163 | After an accepted merge every set field equals its proposal, every cleared field is absent, every other field of the entity is unchanged. |
| MergeProperties.MergeMatchesPreviewIff | internal/handler/changerequest.go:1303-1307 | An accepted merge ends in the previewed content exactly when no ancestor is recorded or no live entity is to be deleted. |
| MergeProperties.DroppedDelete | internal/handler/changerequest.go:1303-1305 | An update and a delete together: the merge is not refused and the deleted entity is still there. |
| MergeProperties.ReclassifyAfterMerge | internal/handler/changerequest.go:1203-1215 | After an accepted merge no field conflicts, and a field reads as satisfied exactly when its entity has a recorded ancestor. |
| MergeProperties.InterruptedAt | internal/handler/changerequest_merge.go:151-174 | Stopped after any number of items, every entity is as before the merge or as after the whole of it. |
| MergeProperties.RetryCompletesTheMerge | docs/docs.go:952 | With no foreign write, the merge run again after any number of applied items meets no conflict and ends in the content of the uninterrupted merge. |
| ChangeRequests.AnyItemStale | internal/handler/changerequest.go:1325-1342 | Reports whether some item's entity is present at another version than the author gave. |
| ChangeRequests.CountApprovers | internal/handler/changerequest.go:421-428 | The loop counts the distinct people whose approval counts: cast at this version vector and revision, or any approval once the request is terminal. |
| ChangeRequests.PlanItemsComeFrom | internal/handler/changerequest.go:1261-1308 | The planned items form a valid changeset, and each is one of the changeset's items narrowed. |
| ChangeRequests.WriteAllSucceeds | internal/handler/changerequest_merge.go:260-365 | Without foreign writes every version guard of the apply loop holds, and an entity not yet reached is untouched. |
| ChangeRequests.RequestStore.Merge | internal/handler/changerequest_merge.go:50-195 | A refused merge, with the refusals in the code's order, changes nothing. One that stops at item k leaves the first k items applied, the failed one too if it landed, and the row as far rebased as the re-read and the two updates got; one that cannot write its status leaves the row; otherwise all items are applied and only the status changes. |
| ChangeRequests.RequestStore.ApplyItems | internal/handler/changerequest_merge.go:151-174 | The loop applies the items in order against the versions read before the first write, stops at the first failure, and reports as applied exactly the items before it, even when the failed one landed. |
| ChangeRequests.RequestStore.Decide | internal/handler/changerequest.go:740-872 | Accepted exactly on an open request by somebody else than the author or a bypassing role; then the approver's row is replaced and the log extended, and a rejection ends the request, an approval re-anchors base and ancestor, unless what follows the recording fails: then it is recorded and an error is reported. |
| ChangeRequests.RequestStore.Amend | internal/handler/changerequest.go:906-994 | Accepted exactly on an open request, for its author or a bypassing role, with a proposable changeset whose versions match; then the row is the amended one, otherwise unchanged. |
| ChangeRequests.RequestStore.Close | internal/handler/changerequest.go:875-898 | Accepted exactly on an open request for its author or a bypassing role; changes the status only. |
| MergeRetry.ContentAfter | internal/handler/changerequest_merge.go:260-365 | After any number of guarded writes the graph's content is what the preview simulates for those items. |
| MergeRetry.GuardRefusesIff | internal/handler/changerequest_merge.go:277-364 | Whoever wrote since the targets were read, one guarded write is refused exactly when its target was there and now is not or has another version; it touches no other entity. |
| MergeRetry.WhatAWriteLeaves | internal/handler/changerequest_merge.go:277-364 | Whoever wrote in between, a write that is not refused gives an entity that was read its sets, drops its clears and moves its version by one, and writes one that was not over whatever is there now, at version 1. |
| MergeRetry.VersionsAfter | internal/handler/changerequest_merge.go:277-364 | An applied update moves its entity's version by one, a create starts it at 1, a delete removes it, and no other entity's version moves. |
| MergeRetry.AdmittedMergeReachesMergedContent | internal/handler/changerequest_merge.go:132-190 | A merge that passes every gate and whose writes succeed ends, on the graph, in the merged content, with every applied entity's version moved. |
| MergeRetry.InterruptedApprovalSurvivesIff | internal/handler/changerequest_merge.go:197-251 | When only the merge itself wrote, an approval that counted goes on counting after a stopped merge exactly when nothing moved, or the failed item did not land and the re-read and both updates succeeded. |
| MergeRetry.InterruptedScopeMovedIff | internal/handler/changerequest_merge.go:217-241 | The scope then reads as unchanged exactly when nothing moved, or the failed item did not land and the re-read and the base update succeeded. |
| MergeRetry.RetryGate | internal/handler/changerequest_merge.go:72-251 | The exact answer to the second run: target missing when a landed delete removed a base entity, else stale when something moved and the base did not follow or a landed item carried a version, else not approved when the approvals were not updated and too few exist for the new versions, else admitted. |
| MergeRetry.RetryPromiseHoldsIff | docs/docs.go:952 | After a stopped merge, the second run is admitted exactly when nothing moved, or the base followed, every landed item is harmless and the approvals were carried or enough exist; and what it would write ends in the content of the uninterrupted merge in every case. |
| MergeRetry.RepeatedRetriesHoldIff | docs/docs.go:952 | Over any sequence of stopped runs: all of them and the run after the last are admitted exactly when each stopped in a way that can be run again, and that run then ends in the content the first would have reached. |
| MergeRetry.VersionedItemBlocksItsOwnRetry | internal/handler/changerequest.go:1325-1342 | One applied item that carries a version makes the request's own retry stale. |
| MergeRetry.UnreadScopeBlocksTheRetry | internal/handler/changerequest_merge.go:217-223 | One harmless item applied, no policy and no other writer: when the scope cannot be read again, the retry is refused. |
| MergeRetry.ApprovalSurvivesIff | internal/handler/changerequest_merge.go:200-207 | Whoever else wrote, an approval that counted before an interrupted merge counts afterwards exactly when no version moved, or only of entities the merge applied and both updates succeeded; the scope reads as unchanged exactly so, whether or not the approvals were updated. |
| MergeRetry.ForeignWriteOnAppliedEntityIsCarried | internal/handler/changerequest_merge.go:200-207 | A foreign write on an entity the merge had already applied is carried like the merge's own exactly when the rebase gets as far as the base. |
| ReviewRuns.Execute | internal/handler/changerequest.go:785-994 | Any script of calls on the store ends in the state the run of steps describes. |
| ReviewRuns.CountsIff | internal/handler/changerequest.go:421-428 | On an open request a person counts exactly when they approved the versions the scope has now, in the current revision or before revisions were stamped; on one that has ended, exactly when they approved. |
| ReviewRuns.MergeAnswers | internal/handler/changerequest_merge.go:50-130 | Which of its answers a merge gives, for every row, graph, count and caller: not open, a base entity gone, not enough approvals, forbidden, moved, a field conflict, or done, each with its exact condition. |
| ReviewRuns.ForbiddenMergeChangesNothing | internal/handler/changerequest_merge.go:86-88 | A caller who may not merge changes nothing, and is told so exactly when the request is open, complete and approved. |
| ReviewRuns.NotMergedByTheForbidden | internal/handler/changerequest_merge.go:86-88 | Over every run in which only callers who may not merge try to, a request is merged only if it was. |
| ReviewRuns.StepEndsIff | internal/handler/changerequest.go:740-898 | Which step ends an open request, and how: a finished accepted rejection, an accepted close, a merge that is admitted and not stopped; nothing else does. |
| ReviewRuns.RejectionIsFinal | internal/handler/changerequest.go:819-828 | After an accepted, finished rejection the request is rejected, over every later run, and no merge is admitted on any graph, for any count and caller. |
| ReviewRuns.OtherDecisionsLeaveItOpen | internal/handler/changerequest.go:819-870 | An approval, a refused decision, and one that was recorded but did not finish leave the request open. |
| ReviewRuns.OutsidersChangeNothing | internal/handler/changerequest.go:740-925 | Who is neither the author nor bypassing cannot amend or close, an author who is not bypassing cannot decide, and who may not merge cannot: the step changes nothing. |
| ReviewRuns.AmendmentStartsOver | internal/handler/changerequest.go:906-994 | An accepted amendment has the title and the changeset it was given and keeps everybody's decisions; with a changeset, the base is the graph as it is: nothing moved, nothing gone. |
| ReviewRuns.CapturedFieldOutcome | internal/handler/changerequest.go:1201-1215 | A written field of a changeset captured on one graph and merged on another conflicts exactly when its value changed in between and is not what was proposed, and is satisfied exactly when its entity was there and now has it as proposed. |
| ReviewRuns.FieldOutcome | internal/handler/changerequest.go:1201-1215 | The same against any ancestor, one kept from another changeset included. |
| ReviewRuns.MergeKeepsForeignChanges | internal/handler/changerequest.go:1139-1144 | A merge that is not refused keeps every value that somebody changed since the capture. |
| ReviewRuns.LedgerIsLastEntries | internal/handler/changerequest.go:806-814 | Reading the log by latest entry per approver gives exactly the entries with no later one by the same approver. |
| ReviewRuns.DecisionsMatchTheLog | internal/handler/changerequest.go:806-814 | In every reachable state an approver has a current decision exactly when the log names them, with the verdict and revision of their last entry. |
| ReviewRuns.HashesMatchTheLogUntilMerging | internal/handler/changerequest.go:740-783 | Over every run in which no merge is tried, the current decisions stay equal to the log's last entries, hash included. |
| ReviewRuns.RestampSplitsTheLedgerIff | internal/handler/changerequest_merge.go:236-250 | An interrupted merge keeps decisions and log equal exactly when it moved nothing, does not rebase, did not get to the approvals, or no decision carried the old hash. |
| ReviewRuns.LogOnlyGrows | ent/approvaldecision_update.go:70-95 | Over every run the log is only ever extended. |
| ReviewRuns.ReviewHistory | internal/handler/changerequest_api.go:1556-1571 | An entry is reported superseded exactly when a later entry by the same approver exists. |
| ReviewRuns.AmendStopsApprovalsIff | internal/handler/changerequest.go:1344-1353 | After a changeset amendment nobody counts, whatever the graph becomes, exactly when no approval of revision 0 has a version vector the new scope can have. |
| ReviewRuns.StoppedForGood | internal/handler/changerequest.go:1351-1361 | An approval of an earlier revision never counts again while the request is open, over every run in which its approver does not decide again. |
| ReviewRuns.AmendStopsApprovalsForGood | internal/handler/changerequest.go:902-905 | In every run since creation, after an accepted changeset amendment nobody counts until they decide again. |
| ReviewRuns.RenameStopsNone | docs/docs.go:2208 | A rename alone changes no counted approval, no derived approval and no merge verdict. |
| ReviewRuns.TerminalIsFrozen | internal/handler/changerequest.go:406-420 | A merged, rejected or closed request's row never changes again, over every run. |
| ReviewRuns.CurrentApprovalWasCast | internal/handler/changerequest.go:1351-1361 | An approval of the current revision was cast in the run for exactly the current changeset, or was there at its start for the same one. |
| ReviewRuns.AdmittedMergeWasReviewed | internal/handler/changerequest_merge.go:76-99 | In every run since creation, a merge is admitted only when at least the required number of distinct people approved exactly the current changeset, each somebody else than the author or bypassing. |
| ReviewRuns.ApprovingReanchors | internal/handler/changerequest.go:829-870 | An approval adds exactly the approver to those who count and leaves the author's version precondition; the scope reads as unchanged and no field conflicts exactly when what follows the recording succeeds, or that was so before. |
| ReviewRuns.ApprovingRecaptures | internal/handler/changerequest.go:854-866 | A finished approval leaves a request without an ancestor without one, and gives one that has an ancestor the graph's own value of every field its changeset edits there. |
| ReviewRuns.AncestorIsCurrent | internal/handler/changerequest.go:1514-1552 | A captured ancestor holds, for each item on an existing entity, the current value of every field it writes, and nothing otherwise. |
| ReviewRuns.AmendReplacesAncestorIff | internal/handler/changerequest.go:957-985 | An amended request has the new changeset's ancestor exactly when the snapshot was read and that changeset edits something that exists, or the ancestor it had is already that one. |
| ReviewRuns.AmendedDeletesAreDropped | internal/handler/changerequest.go:983-985 | Amending an edit with a recorded ancestor into deletions alone gives a merge that, once admitted, leaves the graph as it was and, unless the status cannot be written, marks the request merged; without required approvals it is admitted. |
| Policies.PolicyStore.Create | internal/handler/changerequest_api.go:1151-1241 | Malformed scopes, unknown types while the schema can be read, and unknown namespaces are refused, a second policy of a scope conflicts, otherwise the row built from the body and the defaults is added; one row per scope is kept. |
| Policies.CreateRefusesIff | internal/handler/changerequest_api.go:1151-1241 | The exact bodies that are refused, and that otherwise a conflict is a row with the same scope. |
| Policies.MinimalBodyProtectsAll | internal/handler/changerequest_api.go:1176-1215 | A body that brings only a namespace creates an enabled policy that covers every type, asks for one approval and lets admins past. |
| Policies.PolicyStore.Patch | internal/handler/changerequest_api.go:1252-1333 | An unknown id is not found; a change of scope, an ill-formed or unknown type list is refused; otherwise exactly the fields the patch brings are replaced, types and all-types together, and one row per scope is kept. |
| Policies.PatchRefusesIff | internal/handler/changerequest_api.go:1280-1312 | The exact patches that are refused. |
| Policies.PatchTwiceIsOverlaid | internal/handler/changerequest_api.go:1289-1318 | Two patches in turn do what one patch that brings both does, so each field is patched by itself. |
| Policies.PatchNothingPatchAll | internal/handler/changerequest_api.go:1289-1318 | A patch that brings nothing leaves the row, and one that brings all of another policy's fields makes it that policy. |
| Policies.StoredRowsAreWellFormed | internal/handler/changerequest_api.go:1151-1383 | After any sequence of creates, patches and deletes there is one row per scope, and each has either all types or a list, a positive count and a list of roles. |
| Policies.ExecuteCalls | internal/handler/changerequest_api.go:1151-1383 | A script of create, patch and delete calls on an empty store ends with the rows those results speak of. |
| Policies.ResolvePolicy | internal/handler/changerequest.go:689-720 | A changeset is governed exactly when the enabled row of its namespace, or an enabled all-namespaces row where the namespace has none, covers all types or lists one of its named types; the answer carries that row's count and bypass roles. |
| Policies.MatchingPolicy | internal/handler/approval_gate.go:232-260 | The gate answers with the policy of the first namespace, in order, that protects one of the types, and with none exactly when no row governing one of the namespaces covers one of the types. |
| Policies.GoverningIff | internal/handler/changerequest.go:598-632 | With one policy per scope: the governing policy is the enabled row of the namespace, or the enabled all-namespaces row exactly where the namespace has no row, disabled ones counted. |
| Policies.ResolutionIsOrderless | internal/handler/changerequest.go:598-632 | With one policy per scope, resolution does not depend on the order of the rows. |
| Policies.OwnPolicyShadows | docs/docs.go:2219 | A namespace's own policy decides alone, enabled or not, whatever other rows there are. |
| Policies.GateAgreesWithEngineIff | internal/handler/changerequest.go:589-597 | The write gate and the engine agree on every change in a namespace exactly when its governing policy does not list the blank type. |
| Policies.BlankReachesARowIff | internal/handler/changerequest_api.go:1974-2001 | A create puts the blank type into a row exactly when it is accepted, lists that type, and the schema could not be read. |
| Policies.ReadableSchemaKeepsAgreement | internal/handler/changerequest_api.go:1151-1383 | After any sequence of creates, patches and deletes that could all read the schema, gate and engine agree on every change in every namespace. |
| Policies.BypassRolesSurvive | docs/docs.go:2229 | A created and enabled namespace policy, once stored as JSON and loaded, resolves to the admin role when bypass roles were omitted, and to the list sent otherwise, an empty one included. |
| Policies.ListThenPost | e2e/policy-snapshot.ts:65-79 | Posting a policy as it was listed is well formed and stores one that lists the same. |
| PolicySnapshot.ClearPolicies | e2e/policy-snapshot.ts:48-52 | Clearing removes exactly the listed policies whose delete succeeds. |
| PolicySnapshot.RestorePolicies | e2e/policy-snapshot.ts:60-88 | The file goes exactly when every post is accepted and no saved scope was left undeleted, and then the server holds the saved policies over what was left; otherwise the file is as it was. |
| PolicySnapshot.FileHoldsTheBaselineIff | e2e/policy-snapshot.ts:13-16 | Over any sequence of runs killed anywhere, a file exists exactly when some save found none and no restore has finished since, and it lists the server as it was at that save exactly when that listing worked or there was nothing. |
| PolicySnapshot.FileStays | e2e/policy-snapshot.ts:43-46 | Until a restore finishes, no number of started and killed runs changes the file. |
| PolicySnapshot.RestoreIsExactIff | e2e/policy-snapshot.ts:54-59 | A restore that returns leaves exactly the policies of the file, up to ids, exactly when nothing escaped deletion, and removes the file. |
| PolicySnapshot.RestoreReturnsToTheStartIff | e2e/policy-snapshot.ts:13-16 | From the first unfinished run to the restore that returns, whatever was killed in between, the server ends as it was at that run's save exactly when nothing escaped deletion, given that its listing worked. |
| PolicySnapshot.RestoreCanReturnIff | e2e/policy-snapshot.ts:54-87 | A restore that has begun to post can return exactly when no policy that escaped deletion is also in the file, and until it does the file stays. |
| PolicySnapshot.NextRunFinishesTheRestore | e2e/policy-snapshot.ts:8-16 | Wherever a run was killed, in its tests or half way through a restore, a next run that saves, tests anything and restores ends with the server holding what the file held, and the file gone. |
| PolicySnapshot.WholeRestore | e2e/policy-snapshot.ts:60-88 | From whatever tests left, an undisturbed restore can be run: the server then holds the file and the file is gone. |
| Numbering.NumberTable.CreateNumbered | internal/handler/changerequest.go:283-309 | Over rows that others insert and delete at every attempt, a create gives up exactly when each of its three attempts finds its number taken, and otherwise inserts the next number at the first attempt that does not. |
| Numbering.NumbersAreGapless | internal/handler/changerequest.go:270-275 | Without deletes, over every interleaving, the numbers given out are 1, 2, 3 and so on, each once and in order. |
| Numbering.GivingUpMeansOvertaken | internal/handler/changerequest.go:265-268 | Without deletes, a create gives up only after three other creates got a number while it was trying. |
| Numbering.NoReuseIff | internal/handler/changerequest.go:280-282 | Over every interleaving no number is given out twice exactly when requests are never deleted. |
| Numbering.DeleteLeadsToReuseIff | internal/handler/changerequest.go:280-282 | In every reachable state with a free caller: after deleting a number, some later run of creates gives it out again exactly when it was the greatest live one, or a caller had read it as free and not yet inserted. |
| Numbering.HarmlessDeletesNeverReuse | internal/handler/changerequest.go:280-282 | Over every interleaving in which no delete is of the greatest number or of one a caller holds, no number is given out twice. |
| JobLease.JobUpdate.Where | ent/backup_update.go:26-29 | Conditions accumulate. |
| JobLease.JobUpdate.Save | ent/backup_update.go:372-534 | Exactly the rows that meet every condition get the assignments, and the result is how many there were. |
| JobLease.UpdateNodes | ent/backup_update.go:413-534 | The update over all rows, with the affected count. |
| JobLease.Claim | internal/handler/joblease.go:250-263 | A claim is won exactly when the job was pending; then the row is running, locked by this runner and heartbeating. |
| JobLease.Beat | internal/handler/joblease.go:265-274 | A heartbeat is accepted, and recorded, exactly when the row exists and names this runner. |
| JobLease.Finish | internal/handler/backup.go:681-702 | A result is written exactly when the row exists and names this runner, whatever its status. |
| JobLease.Sweep | internal/handler/reaper.go:143-171 | An undisturbed sweep fails exactly the active jobs whose heartbeat, or creation when there is none, is too old, and keeps their lock. |
| JobLease.AtMostOneWinner | internal/handler/joblease.go:215-218 | Over every interleaving a job's claim is won at most once. |
| JobLease.WinsIffOwned | internal/handler/joblease.go:215-218 | Over every interleaving a job has an owner exactly when one claim of it was won, and none otherwise. |
| JobLease.WorksInRunIff | internal/handler/joblease.go:220-274 | Over every run from the start, a runner is at work on a job exactly when some step of the run is a claim of it that it won and no later step was its conclusion or a heartbeat that found the row not its own. |
| JobLease.AtMostOneExecutor | deploy/README.md:348 | Over every interleaving at most one runner executes a job, and while the row exists it names that runner. |
| JobLease.LockOutlivesTheLease | internal/handler/reaper.go:158-162 | Once a claim is won, no later run changes who the row names, reaping included. |
| JobLease.FencedWriteLandsIff | internal/handler/joblease.go:220-222 | After a won claim and any later run, a fenced write affects the row exactly when the row still exists and the writer is the winner. |
| JobLease.ReapedRunnerOverwrites | internal/handler/joblease.go:165-171 | Wherever a runner is at work, stalling, being reaped and resuming ends with its heartbeat accepted and its result in place of the failure. |
| JobLease.SilenceAllowed | internal/handler/reaper.go:143-171 | A job nobody claimed is failed exactly after the orphan grace from its creation, and one just claimed or just heard from exactly after the stale limit. |
| JobLease.OneTerminalWriteIff | internal/handler/backup.go:681-702 | Over every interleaving a job gets at most one terminal write exactly when every result that was written found the job running and no listing of exports marked it stale. |
| JobLease.TerminalOnlyByWrites | internal/handler/backup.go:681-702 | What is counted are exactly the writes that leave a terminal status; no other step makes one. |
| JobLease.ReapsOnlyTheDeadIff | internal/handler/reaper.go:144-162 | A job failed by a sweep is still dead by the sweep's own limits exactly when it was not heard from between being selected and being failed. |
| JobAdmission.GuardedRun | internal/handler/joblease.go:91-117 | Where the locks suffice, every run keeps conflicting jobs apart and every admitter that found nothing right. |
| JobAdmission.ExclusiveMeans | internal/handler/joblease.go:91-117 | Conflicting jobs never overlap exactly when no two of a kind do and a restore is alone. |
| JobAdmission.UndisturbedAdmission | internal/handler/joblease.go:91-117 | An admission nobody disturbs creates its job exactly when its lock is free and nothing that excludes the job is in progress, the scheduler looking at backups only, and leaves the section. |
| JobAdmission.SomeRaceBreaksExclusion | internal/handler/backup.go:169-203 | Where they do not, some run puts two conflicting jobs in progress. |
| JobAdmission.AdmissionExcludesIff | deploy/README.md:349 | Conflicting jobs are never in progress together, under every interleaving, exactly when the scheduler is not used with the backup or restore trigger and no trigger outlives its lock. |
| IngestCursor.CursorRow.Advance | internal/divergenceingest/ingester.go:146-174 | The cursor moves, and the call wins, exactly when the report is newer than the cursor or there is none. |
| IngestCursor.ReleaseUndoesOwnClaimOnly | internal/divergenceingest/ingester.go:146-372 | Over any attempts by others between a claim and its release, the cursor is as its holder had read it exactly when nobody claimed a newer report, and otherwise the newer claim stands; so the claim is undone exactly when, besides, the reading was not outdated. |
| IngestCursor.UndisturbedAdvance | internal/divergenceingest/ingester.go:146-174 | The update and the insert in a row win exactly when the report is newer. |
| IngestCursor.ExactRunsApplyOnce | internal/divergenceingest/ingester.go:345-350 | Over every interleaving with failures and crashes, but no reset, no report is applied twice or is newer than the cursor, as long as every claim given back restores the cursor it replaced. |
| IngestCursor.NeverMovesBackIff | internal/divergenceingest/ingester.go:132-141 | No step of any run of one or more pollers moves the cursor backwards exactly when applying never fails and nobody resets the cursor. |
| IngestCursor.SafeRun | internal/divergenceingest/ingester.go:292-372 | With two pollers, failures and crashes allowed, every run keeps every applied report either out of reach for good or below a cursor nobody can give back past it. |
| IngestCursor.StaleRollbackReopensIff | internal/divergenceingest/ingester.go:362-372 | A failed apply that gives its claim back lets a run without further failures apply an applied report again exactly when the claim had read the cursor before that report and another replica has fetched the report and not tried it yet. |
| IngestCursor.StalledThirdRepeats | internal/divergenceingest/ingester.go:292-372 | Three replicas, two reports and one failed apply: a report is applied twice, each replica taking the latest report when it polls. |
| IngestCursor.AppliesOnceIff | deploy/README.md:353 | No run of the given pollers applies a report twice exactly when nobody resets the cursor and either applying never fails or at most two replicas poll. |
| DivergenceReports.ContentEqual | internal/divergenceingest/store.go:208-226 | The comparison says equal exactly when the counts match and every reported entry is stored with its value. |
| DivergenceReports.ComparisonIsRightIff | internal/divergenceingest/store.go:205-226 | The answer is equality of content, for every stored content, exactly when the report repeats no key. |
| DivergenceReports.Tables.ApplyReport | internal/divergenceingest/store.go:46-176 | Same content without decisions touches timestamps; otherwise entries and decisions are superseded; a repeated key rolls everything back. |
| DivergenceReports.AppliedIsStored | internal/divergenceingest/store.go:25-45 | A report without repeated keys is what is stored afterwards, and no other data center's entries change. |
| DivergenceReports.WhatAReportLeaves | internal/divergenceingest/store.go:46-176 | Decisions go exactly when the report changes the content or some entity of the center has a decision, and then exactly those on entries the center had; its entries carry the report's time, and other centers' rows stay. |
| DivergenceReports.OnlyReportedAreTouched | internal/divergenceingest/store.go:75-92 | After an applied report an entry carries its time exactly when the report has its key, and its old time otherwise. |
| DivergenceReports.RefusedIff | internal/divergenceingest/store.go:97-141 | A report is rolled back exactly when it repeats a key and does not pass for what is stored without decisions. |
| DivergenceReports.SecondApplyDropsDecisionsIff | internal/divergenceingest/ingester.go:137-140 | Applying a report again keeps the entries, and drops decisions exactly when one is on a reported entry and field. |
| EagerLoad.Index | ent/approvalrequest_query.go:495-503 | Every edge is emptied, and each id maps to the last node that has it. |
| EagerLoad.JoinApprovals | ent/approvalrequest_query.go:514-521 | The join fails exactly when some returned row belongs to no parent; otherwise each indexed parent holds exactly its children in database order, and the others nothing. |
| EagerLoad.LoadApprovals | ent/approvalrequest_query.go:494-523 | Against a store that honours the condition loading never fails, fills the last parent of each id with its rows, each of them a row of the table that the query asked for, with that parent's key and every selected column's value, and leaves the query restricted to the parents with the key selected. |
| EagerLoad.AskedIsLoaded | ent/approval_query.go:452-463 | Without limit and offset, every row of the table that the query asks for is among those loaded for its key, with every selected column's value, all of them when none is selected. |
| EagerLoad.UnselectedKeyIsLost | ent/approval_query.go:452-463 | A selection without the key gives rows that all say key 0, which is why the loader adds it. |
| EagerLoad.FilledIff | ent/approvalrequest_query.go:497-499 | A parent is the one its id maps to exactly when no later parent has the same id. |
| EagerLoad.HonestStore | ent/approvalrequest_query.go:507-519 | A store that honours the condition returns no foreign key that is not a parent's. |
| EagerLoad.JoinCommutesWithProjection | ent/approvalrequest_query.go:504-506 | Joining rows projected to any selection with the key is projecting the joined rows. |
| EagerLoad.UnpagedIsNestedLoop | ent/approvalrequest_query.go:494-523 | Without limit and offset each parent gets what a scan of the table for its id gives, for any selection and conditions. |
| EagerLoad.PagedIsNestedLoopIff | ent/approvalrequest_query.go:618-623 | With a limit or offset every parent still gets its full list exactly when the page holds every child of every parent. |
| EagerLoad.JoinConservesRows | ent/approvalrequest_query.go:514-521 | For distinct parents the lengths of the lists add up to the rows returned. |
| EagerLoad.Group | ent/approval_query.go:406-414 | Each key is asked for once, and maps to exactly the children that carry it. |
| EagerLoad.JoinRequests | ent/approval_query.go:423-431 | The join fails exactly when a returned request is nobody's parent; otherwise every child, repeated keys included, gets the request with its key, or none if it was not returned. |
| EagerLoad.LoadRequest | ent/approval_query.go:405-433 | Loading never fails, asks for exactly the children's keys, and gives each child a request exactly when the query finds one with its key. |
| EagerLoad.LoadWithRequests | ent/approval_query.go:452-463 | Whatever columns are selected on either side, every child is a row the query asked for, with every selected column's value, and gets the request of its key, exactly when the request query finds one. |
| EagerLoad.RerunNarrowsIff | ent/approval_query.go:34-37 | A query object that has loaded before, with any limit and offset, finds a parent exactly when the parent is on the query's page among the rows that meet the original conditions and were asked for in every run so far. |
| EagerLoad.UnpagedRerunNarrowsIff | ent/approval_query.go:34-37 | Without limit and offset: exactly when the query found it at first and every run named it. |
| EagerLoad.DirectionsAgree | ent/approval_query.go:423-431 | A child its query returns is among the rows loaded for a parent exactly when the request query, restricted to the children's keys, finds its key and that is the parent's. |
| EagerLoad.LoadBothWays | ent/approval_query.go:377-433 | Both eager loads, each with its own queries and fresh nodes: a child's row is in a parent's list exactly when the child's request has the parent's id and no later parent has it, and every listed row is a child's. |
| BulkCreate.Bulk.Save | ent/approval_create.go:348-400 | The save ends in the state and answer the chain of hooked builders describes; without builders nothing is written. |
| BulkCreate.Bulk.Mutate | ent/approval_create.go:388-391 | One link of the chain, entered and left at its depth. |
| BulkCreate.Bulk.Create | ent/approval_create.go:359-387 | A builder's own action: check, node and spec, the next builder or the batch, and done only on success. |
| BulkCreate.TraceIsNested | ent/approval_create.go:355-398 | Whatever the hooks do, the trace is properly nested: hook 0 of builder 0 outermost, each builder enclosing the next, a batch only with everything open. |
| BulkCreate.AllOrNothing | ent/approval_create.go:352-399 | When no hook calls on twice, one batch with every builder's final mutation in order is issued if every hook lets through and every check passes, and none otherwise. |
| BulkCreate.SuccessIsPositional | ent/approval_create.go:381-399 | With hooks that call on once and pass errors on, the save succeeds exactly when nothing rejects and the store accepts, and then node i is builder i's and every mutation is done. |
| BulkCreate.FailedButWrittenIff | ent/approval_create.go:394-397 | With such hooks the save reports an error over a written batch exactly when everything was let through and accepted and some hook rejects afterwards. |
| BulkCreate.SuccessWritesIff | ent/approval_create.go:394-399 | When no hook calls on twice or swallows an error, a successful save wrote a batch exactly when every hook called on. |
| BulkCreate.BatchesAreTheProduct | ent/approval_create.go:370-380 | When nothing rejects, the number of batches is the product of how often each hook calls on. |
| QueryTree.Append | ent/approval_query.go:34-37 | Appending to a slice writes in place when there is room and reallocates otherwise; the old items stay. |
| QueryTree.Copy | ent/approvalrequest_query.go:323-325 | Appending to a new empty slice gives the same items in an array of its own. |
| QueryTree.AppendToShared | ent/approvalrequest_query.go:323-325 | Two holders of one slice keep their own last item exactly when the array has no room. |
| QueryTree.Query.CloneEdge | ent/approvalrequest_query.go:316-319 | Cloning nil gives nil, and any other subtree an equal fresh one. |
| QueryTree.Query.Clone | ent/approvalrequest_query.go:316-333 | The clone of a tree of any depth says the same and has no mutable object in common with it; only the traversal closure is shared. |
| QueryTree.Query.Apply | ent/approval_query.go:33-62 | One edit, of a builder or of one nested under its edges, has its effect on the tree and touches nothing outside it. |
| QueryTree.BuilderSaysWhatWasAsked | ent/approval_query.go:33-62 | After any script of edits a builder's conditions and orderings are the old ones and those added, in order, and its columns the old ones and those selected, none twice. |
| QueryTree.LastSettingCounts | ent/approval_query.go:39-56 | A limit, an offset or uniqueness is the last one set, or the old one when none is. |
| QueryTree.EdgeSaysWhatWasAsked | ent/approval_query.go:285-296 | The builder under an edge is there once the edge was attached, and says what its own edits since then make of a new builder. |
| QueryTree.AfterOwnIsAfterEdits | ent/approval_query.go:266-283 | A tree's own share of an interleaving is its own edits in order. |
| QueryTree.CloneThenDiverge | ent/approval_query.go:266-283 | After a clone, any interleaving of edits leaves each tree as its own edits alone would have. |
| RowCodec.CreateSpec | ent/approvalrequest_create.go:424-516 | Node and sent cells both hold exactly the fields that were set, each under its own column; a nil document is sent as the encoding of nil. |
| RowCodec.ScanValues | ent/approvalrequest.go:110-127 | One destination per column, of the column's kind, filled from the row. |
| RowCodec.ChangeRequest.AssignOne | ent/approvalrequest.go:135-283 | A column's case changes that column's field and no other: null leaves it, except that the id becomes 0, and empty bytes leave a document. |
| RowCodec.ChangeRequest.AssignValues | ent/approvalrequest.go:131-288 | Fails exactly on too few values, a destination of the wrong type or an undecodable document; otherwise every field holds what its own column's destinations, in order, leave in it. |
| RowCodec.WrongHolderIsNoticed | ent/approvalrequest.go:135-283 | For every known column, a destination is accepted exactly when it is of the kind prepared for that column. |
| RowCodec.ReadBack | ent/approvalrequest.go:110-288 | Reading a stored row with any column list, in any order and with repetitions, never fails, gives every listed column what was set, and every other its zero. |
| RowCodec.WriteThenRead | ent/approvalrequest.go:110-288 | Write and read in one: never an error, and a column that was read equals the written node's field exactly unless it is a raw document that was set to nil, which comes back as the nil document. |
| RowCodec.WriteThenReadAll | ent/approvalrequest.go:110-288 | By name: when every column is read back, the record written and the one read have in every field exactly what the setter of that field was given, and the zero value where none was. |

## Left out

Assumptions, stated once:

- Content and version hashes are injective, so a version vector stands for its own hash.
- A graph write that lands has the effect its preview simulates; a predicate of an entity is a scalar or an edge, never both; a
  request's scope was pinned when it was created. DGraph, its inverse edges and its query language are not modelled.
- The steps of one change request do not overlap with each other; only writes by others to the graph come between them, and
  within one merge none do. `MergeRetry.ForeignWriteOnAppliedEntityIsCarried` is the exception.
- PostgreSQL runs each statement, and each transaction, as one step; one that reports an error has had no effect. What
  fails between two statements of an operation is modelled where the operation goes on or leaves something behind:
  deciding, merging, rebasing and ingesting. A transaction whose context expires is rolled back
  and its advisory lock released, as Go's `database/sql` documents.
- JSON, time and text encodings are invertible; numbers stay inside the machine's range.
- Job and runner ids are never reused.
- Divergence reports are published in the order of their times, so the latest file is the latest report; a replica polls a
  data center from one loop, one report at a time.

Not modelled:

- Merge attempts, audit events, comments, descriptions, the effect summary and the rendering of requests.
- The type, field and edge-target rules of changeset validation; only its shape rules and its graph lookups are assumed.
- Which caller may merge: an argument of the step.
- Rows written before scopes, versions or revisions were recorded, except approvals of revision 0.
- Export, backup and restore work itself, schema migration, the backup schedule.
- HTTP, sessions, storage, DGraph access, `String`, the panicking variants, `GroupBy`, `Aggregate` and nillable setters.
- The generated files for decisions, merge attempts, policies and backups beyond the parts above repeat the same templates.

Weaker than one might expect:

- ChangeRequests.RequestStore.Merge: what fails, and whether a failed write landed, is an argument rather than an event of the store, because the loop stops at the first failure whatever its cause.
- ChangeRequests.RequestStore.ApplyItems: nobody else writes between two items, so a guard fails only as that argument says.
- EagerLoad.LoadBothWays: without limits and offsets, because a page is shared by all parents; when it still holds everything is EagerLoad.PagedIsNestedLoopIff.
- ReviewRuns.AmendStopsApprovalsIff: quantifies over graphs by their version vectors, because the stamp compares nothing else.
- QueryTree.Query.Clone: two of the three eager edges of a request query and two of its three slices are modelled, because the others are copied by the same statements; the traversal closure is shared, as in the code, so a query reached through an edge still follows edits of the query it came from.
- EagerLoad.LoadApprovals: ordering options and the removal of duplicate rows are not modelled; rows come in the order of the table.
- BulkCreate.TraceIsNested: a hook is one of a family of behaviours rather than any function, because a function could also start saves of its own.
- IngestCursor.ExactRunsApplyOnce: says nothing about the order in which two claimed reports are applied, because the code does not order them.
- BulkCreate.Bulk.Create: a hook passes on the builder's own mutation; the code refuses another one by its type only, and then checks the builder's own.
- MergeRetry.RepeatedRetriesHoldIff: every run is made by a caller who may merge, because the same check refuses any other before anything is written.
- Numbering.DeleteLeadsToReuseIff: needs a caller who is free to create, because a number can only come back through a create.
- RowCodec.ChangeRequest.AssignValues: decoding replaces a document; the decoder merges into a map that is already there, which shows only when a node that holds another row's document is assigned again.
- RowCodec.WriteThenRead: the nil document is not itself a value of a typed document field, and a database does not fill in an id that was not set.
