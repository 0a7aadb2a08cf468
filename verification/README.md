# Verified model of the case-decision cores

The repository turns e-mail signals into cases, decisions and operator-approved sends. Most of it is
plumbing around language models and HTTP. This project models the stateful cores whose safety depends
on whole runs, and proves what those runs guarantee. `dafny verify dfyconfig.toml` checks all of it.

| module | what it models |
|---|---|
| `CanonicalDecision` | proposals, canonicalization gates, semantic hash, version ids |
| `DecisionStore` | durable revision rows and requests, the atomic accept transition |
| `DecisionLedger` | the ledger object that writes through to the store, and the re-evaluation that drives it |
| `LedgerCalls` | what each ledger call does, on the entries themselves |
| `LedgerRuns` | what holds for every caller: one current revision, unique log, rebuild fails closed |
| `LedgerLineages` | lineages of a ledger with a store, over runs with crashes between the durable write and the memory update |
| `LedgerRequests` | its request log across crashes |
| `LedgerInMemory` | the ledger without a store, the default one |
| `LedgerAudit` | the acceptance trail across restarts |
| `LedgerStaleRequest` | the run on which live and rebuilt trail part |
| `HitlSend` | the operator-approved send: any number of workers, one decision key |
| `HitlRecords` | what the send protocol records |
| `CaseMetadata` | the case row shared by send states and the degradation counter |
| `HitlCase` | sends under many keys and degradation interleaved on one case row |
| `FactSupersession` | the append-only fact history against a plain map, and conflicts read off it |
| `SnapshotVersions` | snapshot numbering and provenance under the fetch limit |
| `ChatRateLimiter` | the pruned list against the whole history of admissions |
| `CaseLinker` | collect, score and pick, with its two override rules |
| `CaseLinkerRules` | the linker rule by rule |
| `CaseMerge` | merging two cases |
| `MergeAgain` | when merging the second case again changes nothing |
| `ConflictDedupe` | conflict merge and de-duplication |
| `BatchRunner` | the retrying batch, its index, failed records and resume checkpoint |
| `Text`, `OrderedDict`, `StableSort` | trimming and decimals, insertion-ordered dictionaries, stable sorting |

Objects that the program updates in place are classes; each method is proved against a function of
the old state, and the properties below are proved about those functions. A method row in the table
states which function a method computes; the lemmas beside it say what that function guarantees.

## What turned out to be conditional

Some things one would expect hold only under a condition. Each has its exact condition.

- **At-most-once send.** The completion write is unconditional
  (`tools/gmail_audit/agent_hitl_bridge.py:681-691`), so a worker that returns early without claiming
  overwrites an executed result and reopens the key. `AtMostOnceIffSafePolicy` gives the condition on
  the send function, in both directions. The send function in the repository never sends, so it is
  safe; adding any sending path beside its unclaimed early returns is not (`ShippedIsSafeButFragile`).
- **Status and event tell the truth.** The event text that a send "executed exactly once" is true
  exactly for safe send functions that report `executed` only for what they sent;
  `AlwaysTruthfulIff`.
- **An executed status has its event.** The state is written before the result is recorded, so a worker
  that dies in between leaves an executed status without the event; `ExecutedIsRecorded` says that
  this is the only way, and `NewCallRecords` that any later call makes up for it.
- **Ledger and store agree after an accept.** The ledger writes the old entry from the caller's dict,
  the store from its own row (`canonical_action_decision.py:787-791`, `inmemory.py:949-953`).
  `AgreementNeedsHandBack` gives the condition, and `StepKeepsLineagesIff` lifts it to every call.
  Without a store the lineage stays a chain exactly when revision and back link are handed back;
  `StepKeepsChainsIff`.
- **A restart rebuilds the acceptance trail.** Nothing compares a request with the revision it is
  applied to, so a request for an older revision goes through and the trails part
  (`StaleRequestSplitsTrail`). `StepKeepsAuditIff` gives the exact condition on each call.
- **Many processes over one store** must register a decision at one revision;
  `AppendKeepsStoreInvIff`.
- **The log is unique after a crash** as long as no record leaves a pending row without a lineage or
  under an id that asked something else; `StepKeepsLogIff`. Requests as
  `build_decision_revision_request` makes them meet that (`canonical_action_decision.py:518-527`).
  While no process dies the log is unique for every caller; `EveryRunHasUniqueLog`.
- **One current revision.** `register_cad` appends whatever status it is given; `StepKeepsOneCurrent`.
- **Degradation and sends commute** only if the case row exists, since recording creates it and a send
  mutation does not; `SendCommutesWithRecordIff`.
- **Supersession leaves one active row** per key for rows stored under the key they were written under
  (incoming keys are trimmed, stored ones are not); `InsertKeepsOneActiveIff`, `SafeIffStable`.
- **Snapshot numbers and provenance** are complete up to one more than the fetch limit and pinned
  after that; `NumberedAndCompleteIff`.
- **The chat limit** holds exactly for clocks that do not step back at all; `BoundHoldsIff`.
- **Merging again changes nothing** exactly when no merged fact is overtaken, which can be checked
  before the second merge (`RemergeKeepsReadingsIff`), and for every first case exactly when the facts
  of the second settle, a finite check on them alone (`AlwaysKeepsReadingsIff`). Time order of
  disagreeing facts is a simple sufficient condition (`FactsAbsorb`), exact for two facts under one
  key (`PairAbsorbedIff`) and not necessary for more (`TimeOrderNotNecessary`).
- **A message that names a case is linked** for every intake confidence that is not negative; the
  exact threshold, since the code does not clamp it, is `AlwaysFirmIff`.
- **One conflict row per predicate**, which the docstring at
  `tools/gmail_audit/case_context_contract.py:1169` promises, holds exactly when no two rows of a
  predicate differ in their values; `OneRowPerPredicateIff`.
- **Resume and failed records** can disagree about a message; `CheckpointVersusFailedRecord`.

Where code and its comments disagree the model follows the code.

## Model

| member | source | states |
|---|---|---|
| `CanonicalDecision.VersionIdInjective` | tools/gmail_audit/canonical_action_decision.py:224-226 | a version id names one trimmed decision id and one revision, across all lineages |
| `CanonicalDecision.VersionIdForm` | tools/gmail_audit/canonical_action_decision.py:224-226 | the documented form: revision 2 of `dec_abc` is `dec_abc:r2` |
| `Text.TrimCutsSpace` | tools/gmail_audit/canonical_action_decision.py:152-153 | trimming cuts white space off both ends and nothing else |
| `Text.NonBlankConcat` | tools/gmail_audit/canonical_action_decision.py:141-149 | a list is normalised item by item, in order |
| `Text.NonBlankOne` | tools/gmail_audit/canonical_action_decision.py:145-148 | an item is trimmed, and dropped iff it is then blank |
| `Text.DecimalReads` | tools/gmail_audit/canonical_action_decision.py:226 | a rendered revision reads back as that number, without leading zeros |
| `CanonicalDecision.SemanticHashIsCanonical` | tools/gmail_audit/canonical_action_decision.py:141-209 | with a collision-free digest, two decisions hash alike iff schema, case, situation, goal, action, target and channel agree and the required items agree as multisets after trimming and dropping blanks |
| `CanonicalDecision.DedupeKeepsFolded` | tools/gmail_audit/canonical_action_decision.py:307-315 | de-duplication loses no item up to case folding, and invents none |
| `CanonicalDecision.SurfaceIs` | tools/gmail_audit/canonical_action_decision.py:278-304 | exactly what the five places report missing is collected, a gap under the first of its names that is not blank |
| `CanonicalDecision.ProposalAsksCustomer` | tools/gmail_audit/canonical_action_decision.py:229-275 | a proposal exists iff the action is `collect_data`, and is a mail to the customer for what is missing, with risk by urgency |
| `CanonicalDecision.FreezesIffGatesPass` | tools/gmail_audit/canonical_action_decision.py:372-417 | a proposal freezes iff the contract fields are legal, something is required, and each required item is reported missing somewhere in the state and is not a conflicted fact |
| `CanonicalDecision.ReasonsExact` | tools/gmail_audit/canonical_action_decision.py:364-391 | a failure names each contract gate iff it is not met, and state gates only when the contract is met |
| `CanonicalDecision.StateReasonsExact` | tools/gmail_audit/canonical_action_decision.py:392-417 | and each state gate iff nothing is reported missing, a required item is not, or one is conflicted |
| `CanonicalDecision.ContractCodes` | tools/gmail_audit/canonical_action_decision.py:368-414 | the codes by name |
| `CanonicalDecision.JoinedConcat` | tools/gmail_audit/canonical_action_decision.py:1007 | codes are joined by commas |
| `CanonicalDecision.FrozenCarriesProposal` | tools/gmail_audit/canonical_action_decision.py:419-456 | the frozen decision carries the proposal's contract fields, required items, confidence, risk and origin, and its signature is the payload of the proposal |
| `CanonicalDecision.CanonicalizeShape` | tools/gmail_audit/canonical_action_decision.py:419-456 | a frozen decision is CURRENT, unlinked, carries its own version id, keeps the decision id asked for, and its signature is recomputable from its own stored fields |
| `DecisionStore.RevisionStore.AppendDecisionRevision` | tools/gmail_audit/mailbox_memory/inmemory.py:899-912 | idempotent per version id; a blank id writes nothing |
| `DecisionStore.RevisionStore.AppendDecisionRevisionRequest` | tools/gmail_audit/mailbox_memory/inmemory.py:914-929 | upsert by request id: only status and a non-empty reject reason of a stored row change |
| `DecisionStore.RevisionStore.AcceptDecisionRevisionTransition` | tools/gmail_audit/mailbox_memory/inmemory.py:931-969 | old row superseded, new row current, request accepted: all of it, or an error and an unchanged store |
| `DecisionStore.RevisionStore.ListDecisionLineageIds` | tools/gmail_audit/mailbox_memory/inmemory.py:989-996 | each decision that has rows, once, in ascending order |
| `DecisionStore.OpKeepsSpent` | tools/gmail_audit/mailbox_memory/inmemory.py:899-969 | a superseded version is never current again, whatever is written |
| `DecisionStore.AtMostOneSuccessor` | tools/gmail_audit/mailbox_memory/inmemory.py:943-957 | no fork: along every schedule of arbitrary writes by any number of processes, at most one accept from a given version succeeds |
| `DecisionStore.AcceptExtends` | tools/gmail_audit/mailbox_memory/inmemory.py:949-957 | a successful accept extends its own lineage by the new revision and leaves every other lineage as it was |
| `DecisionStore.AcceptKeepsStoreInv` | tools/gmail_audit/mailbox_memory/inmemory.py:931-969 | an accept of a canonical successor keeps every stored lineage one chain |
| `DecisionStore.AppendStartsChain` | tools/gmail_audit/mailbox_memory/inmemory.py:899-912 | a first registration starts a chain and changes no other lineage; its version id cannot clash |
| `DecisionStore.AppendKeepsStoreInvIff` | tools/gmail_audit/mailbox_memory/inmemory.py:899-912 | writing a canonical first revision keeps every stored lineage one chain iff its version is stored already or the decision has no rows |
| `DecisionStore.EveryScheduleKeepsChains` | tools/gmail_audit/mailbox_memory/inmemory.py:899-969 | whatever stale views many processes act on, as long as they register each decision at one revision and accept canonical successors, every stored lineage stays one chain with exactly one current revision |
| `DecisionLedger.DecisionRevisionLedger.constructor` | tools/gmail_audit/canonical_action_decision.py:553-559 | a new ledger is empty and bound to its store |
| `DecisionLedger.DecisionRevisionLedger.CurrentLocked` | tools/gmail_audit/canonical_action_decision.py:675-679 | the latest entry marked current, searched from the end |
| `DecisionLedger.DecisionRevisionLedger.RegisterCad` | tools/gmail_audit/canonical_action_decision.py:652-673 | idempotent for the current version, refused when another version is current, else written through and appended |
| `DecisionLedger.DecisionRevisionLedger.CheckCurrent` | tools/gmail_audit/canonical_action_decision.py:693-700 | true iff the decision's version is the current one of its lineage |
| `DecisionLedger.DecisionRevisionLedger.RecordRequest` | tools/gmail_audit/canonical_action_decision.py:708-752 | duplicate (and then the first logged one it duplicates), stale or pending, with the logged row, the audit entry and the durable row of each case |
| `DecisionLedger.DecisionRevisionLedger.UpdateRequest` | tools/gmail_audit/canonical_action_decision.py:812-814 | exactly the logged rows with the request's id are replaced |
| `DecisionLedger.DecisionRevisionLedger.ReplaceRevision` | tools/gmail_audit/canonical_action_decision.py:805-808 | exactly the entries with the old version id are replaced |
| `DecisionLedger.DecisionRevisionLedger.AcceptRevision` | tools/gmail_audit/canonical_action_decision.py:763-832 | raises exactly with a refusal of the ledger, in order, or else with the error of the store; durable write first, and no change at all when anything raises |
| `DecisionLedger.DecisionRevisionLedger.RejectRequest` | tools/gmail_audit/canonical_action_decision.py:834-866 | the request is settled in store and log, one audit entry is added, no lineage changes |
| `DecisionLedger.DecisionRevisionLedger.Rebuild` | tools/gmail_audit/canonical_action_decision.py:568-603 | the projection becomes the rebuild of the sorted listing of stored lineages, or the call fails at the first bad one with the lineages before it in place |
| `DecisionLedger.EvaluateDecisionRevision` | tools/gmail_audit/canonical_action_decision.py:943-1024 | rejected iff not justified (pending, same decision, current, proposal present, all gates pass), raised iff justified and the accept raises, with its code; a rejection changes no lineage and carries the exact codes; an acceptance is revision+1 of the same decision, case and situation and is one ledger accept |
| `DecisionLedger.EvaluationRefusedIff` | tools/gmail_audit/canonical_action_decision.py:993-1017 | the ledger refuses a justified evaluation iff the decision id is padded or the revision negative |
| `DecisionLedger.EvaluatedContent` | tools/gmail_audit/canonical_action_decision.py:981-1003 | an accepted evaluation asks the customer, by mail, for exactly what business reasoning found missing |
| `LedgerCalls.CurrentOfIsLast` | tools/gmail_audit/canonical_action_decision.py:675-688 | the entry in force is the last one marked current, and there is none iff no entry is |
| `LedgerCalls.RecordExact` | tools/gmail_audit/canonical_action_decision.py:708-752 | a request already logged, by id or as the same pending question, changes nothing; one that names the revision in force is logged as it is; any other is logged rejected as stale with one audit entry of expected and actual |
| `LedgerCalls.PendingWasInForce` | tools/gmail_audit/canonical_action_decision.py:717-752 | over every run: a pending request in the log was recorded as it is when the revision it names was in force |
| `LedgerCalls.RegisterExact` | tools/gmail_audit/canonical_action_decision.py:652-673 | a decision with an identity is appended, in ledger and store, iff its lineage has no current entry; otherwise nothing changes |
| `LedgerCalls.RegisterAnswers` | tools/gmail_audit/canonical_action_decision.py:661-668 | the current entry is returned for the same version and refused for another |
| `LedgerCalls.AcceptRefusalExact` | tools/gmail_audit/canonical_action_decision.py:770-784 | why an accept is refused, in order: other decision, revision not the next, version not in force |
| `LedgerCalls.AcceptExact` | tools/gmail_audit/canonical_action_decision.py:805-825 | an accept settles its request in the log, adds one entry to the trail and grows one lineage by one |
| `LedgerCalls.RejectExact` | tools/gmail_audit/canonical_action_decision.py:834-859 | a reject settles its request with the reason or the default, in log and store, adds one entry, and touches no lineage |
| `LedgerCalls.TransitionOkIff` | tools/gmail_audit/mailbox_memory/inmemory.py:935-948 | the store takes an accept iff all ids are there, the old row is stored as current and the new version is not stored |
| `LedgerCalls.AppendRevisionExact` | tools/gmail_audit/mailbox_memory/inmemory.py:899-912 | a stored revision is never overwritten and one without a version never stored |
| `LedgerCalls.FetchedInOrder` | tools/gmail_audit/mailbox_memory/inmemory.py:971-987 | revisions are fetched by number and requests by the time they were made, none lost |
| `LedgerRuns.StepKeepsOneCurrent` | tools/gmail_audit/canonical_action_decision.py:652-866 | a step keeps "the last entry and only it is current" iff it does not append a registered decision marked otherwise; accept, record and reject keep it for any arguments |
| `LedgerRuns.EveryRunHasOneCurrent` | tools/gmail_audit/canonical_action_decision.py:652-866 | hence over every run of arbitrary callers that register current decisions |
| `LedgerRuns.StepKeepsUniqueLog` | tools/gmail_audit/canonical_action_decision.py:708-752 | request ids stay distinct and no two pending requests share decision, revision and reason, through every call |
| `LedgerRuns.EveryRunHasUniqueLog` | tools/gmail_audit/canonical_action_decision.py:708-848 | the same over every run, with no assumption on callers |
| `LedgerRuns.RebuildRaisesIff` | tools/gmail_audit/canonical_action_decision.py:581-596 | on an arbitrary store, rebuild raises iff some stored lineage does not have exactly one current row, in any listing order |
| `LedgerLineages.AcceptNeverConflicts` | tools/gmail_audit/canonical_action_decision.py:775-804 | an accept of the handed-back current decision that the ledger does not refuse is refused by the store iff the request has no id |
| `LedgerLineages.AgreementNeedsHandBack` | tools/gmail_audit/canonical_action_decision.py:787-809 | an accept that goes through, with any new decision and any request, leaves ledger and store in agreement iff the decision handed in equals the current one in every field the accept does not overwrite |
| `LedgerLineages.StepKeepsLineagesIff` | tools/gmail_audit/canonical_action_decision.py:652-866 | with a store: a call with canonical decisions keeps every lineage one chain, the same in ledger and store, iff it is not an accept that goes through for a decision that was not handed back; requests may be anything |
| `LedgerLineages.RebuildAgrees` | tools/gmail_audit/canonical_action_decision.py:561-603 | on any store of chains, whatever requests it holds, rebuild succeeds and yields exactly the stored lineages |
| `LedgerLineages.EventKeepsLineages` | tools/gmail_audit/canonical_action_decision.py:669-672 | a death between the durable write and the memory update, or between calls, is followed by a rebuild that yields the lineages after or before that call |
| `LedgerLineages.EveryRunKeepsLineages` | tools/gmail_audit/canonical_action_decision.py:538-866 | over every run with calls and deaths in any order and decisions handed back, ledger and store agree on every lineage and each is one chain |
| `LedgerLineages.ReachableLineagesAreChains` | tools/gmail_audit/canonical_action_decision.py:538-866 | hence each lineage of every reachable ledger has consecutive revisions, the last one the only current, and links through neighbours |
| `LedgerRequests.StepKeepsKeyed` | tools/gmail_audit/mailbox_memory/inmemory.py:914-969 | stored requests stay under their own non-blank id, each once, whatever any caller does |
| `LedgerRequests.StepKeepsLogIff` | tools/gmail_audit/canonical_action_decision.py:708-866 | whatever requests accepts and rejects bring, the log stays unique and knows every stored pending request iff no record leaves a pending row without a lineage or with another question than the one asked |
| `LedgerRequests.NewRequestsKeepLog` | tools/gmail_audit/canonical_action_decision.py:518-527 | new requests with new ids that name a revision meet that condition |
| `LedgerRequests.ReachableLedgersAreWellFormed` | tools/gmail_audit/canonical_action_decision.py:538-866 | over every run that meets that condition, across any number of crashes, every lineage is one chain and no request id and no pending question is in the log twice |
| `LedgerRequests.StepKeepsAgreement` | tools/gmail_audit/canonical_action_decision.py:708-866 | if callers hand requests back too, every call keeps the log and the stored requests in agreement |
| `LedgerRequests.RestartKeepsAgreement` | tools/gmail_audit/canonical_action_decision.py:597-602 | and so does a restart |
| `LedgerRequests.EveryRunKeepsAgreement` | tools/gmail_audit/canonical_action_decision.py:538-866 | over every such run with crashes anywhere |
| `LedgerInMemory.StepKeepsChainsIff` | tools/gmail_audit/canonical_action_decision.py:652-832 | without a store, which is the default ledger: a call with canonical arguments keeps every lineage one chain iff it is not an accept that goes through with another revision or back link than the current decision has |
| `LedgerInMemory.EveryRunKeepsChains` | tools/gmail_audit/canonical_action_decision.py:652-866 | hence over every run of callers that hand back those two fields |
| `LedgerInMemory.ReachableInMemoryLedgersAreWellFormed` | tools/gmail_audit/canonical_action_decision.py:538-866 | in every reachable ledger without a store each lineage is one chain and the request log is unique |
| `LedgerInMemory.AtMostOneSuccessorInMemory` | tools/gmail_audit/canonical_action_decision.py:763-832 | no fork there either: at most one accept that holds a given version goes through along a run, and then the version is succeeded for good |
| `LedgerAudit.SuccessorIsNext` | tools/gmail_audit/canonical_action_decision.py:613-617 | in a chain the successor looked up through the links is the next entry |
| `LedgerAudit.AcceptKeepsAuditIff` | tools/gmail_audit/canonical_action_decision.py:797-825 | an accept, whatever request it brings, keeps the live acceptances equal to those the store supports iff the stored request names the decision and version that are replaced |
| `LedgerAudit.StepKeepsAuditIff` | tools/gmail_audit/canonical_action_decision.py:708-866 | the same for every call: a record or reject keeps them equal iff it does not change whether the row under its id is accepted |
| `LedgerStaleRequest.SecondGoesThrough` | tools/gmail_audit/canonical_action_decision.py:962-979 | two requests for one revision, the first accepted: the second goes through against the new revision |
| `LedgerStaleRequest.StaleRequestSplitsTrail` | tools/gmail_audit/canonical_action_decision.py:605-648 | then the live trail says it replaced the second revision by the third, and the stored state that it replaced the first by the second |
| `LedgerAudit.RebuildAccepts` | tools/gmail_audit/canonical_action_decision.py:605-648 | rebuild reconstructs an accepted entry iff a stored accepted request of a listed decision supports it |
| `LedgerAudit.RebuildRejects` | tools/gmail_audit/canonical_action_decision.py:637-647 | and a rejection iff a stored rejected request of a listed decision has those reasons, and no other entry |
| `LedgerAudit.RebuiltLogInOrder` | tools/gmail_audit/canonical_action_decision.py:597-602 | the rebuilt log has the requests of each decision in the order they were made |
| `LedgerAudit.RebuiltTrailInOrder` | tools/gmail_audit/canonical_action_decision.py:618-648 | and the rebuilt trail one entry per settled request in that order |
| `LedgerAudit.RebuildSupports` | tools/gmail_audit/canonical_action_decision.py:597-648 | a restart has exactly the accepted entries that the stored requests and links support, each once |
| `LedgerAudit.RebuildKeepsAudit` | tools/gmail_audit/canonical_action_decision.py:597-648 | which are the live ones, each exactly as often, whenever those are what the store supports |
| `LedgerAudit.EveryRunKeepsAudit` | tools/gmail_audit/canonical_action_decision.py:605-832 | over every run of calls that meet that condition, with crashes anywhere, the trail holds exactly the acceptances the store supports, each once |
| `LedgerAudit.RebuildLogsOnce` | tools/gmail_audit/canonical_action_decision.py:581-648 | a rebuild logs no acceptance twice |
| `LedgerAudit.AcceptanceTrailSurvivesRestart` | tools/gmail_audit/canonical_action_decision.py:605-648 | after any run with any number of restarts each acceptance is in the live trail once, and another restart reconstructs exactly those, each once |
| `HitlSend.SafeRunsKeepInv` | tools/gmail_audit/agent_hitl_bridge.py:510-712 | under a safe send function at most one worker holds a claim and the effect count never passes one, in every interleaving |
| `HitlSend.UnsafePolicySendsTwice` | tools/gmail_audit/agent_hitl_bridge.py:606-691 | every unsafe send function has a run in which the message leaves twice |
| `HitlSend.AtMostOnceIffSafePolicy` | tools/gmail_audit/agent_hitl_bridge.py:510-712 | at-most-once over all interleavings of any number of workers iff nothing is ever sent, or sending paths claim and report a started status and unclaimed paths never report a reopening one |
| `HitlSend.NoEffectPolicy` | tools/gmail_audit/hitl_gmail_send.py:122-165 | a send function without a sending path never moves the effect counter |
| `HitlSend.ShippedIsSafeButFragile` | tools/gmail_audit/hitl_gmail_send.py:122-165 | the shipped function is at-most-once; with any sending path added beside its unclaimed returns it is not |
| `HitlSend.AlwaysTruthfulIff` | tools/gmail_audit/agent_hitl_bridge.py:510-712 | in every reachable state `executed` means sent exactly once, an empty, accepted or failed status means not sent, and the executed event is there at most once and only after an effect, iff the send function is safe and reports `executed` only for what it sent |
| `HitlRecords.EventIff` | tools/gmail_audit/agent_hitl_bridge.py:144-190 | for every send function: the executed event is there, once, iff some worker has recorded an executed result |
| `HitlRecords.EventStays` | tools/gmail_audit/agent_hitl_bridge.py:185-190 | and is never taken back |
| `HitlRecords.ExecutedIsRecorded` | tools/gmail_audit/agent_hitl_bridge.py:681-702 | an executed status has its event, or a worker is about to record it, unless a worker died between the two writes |
| `HitlRecords.NewCallRecords` | tools/gmail_audit/agent_hitl_bridge.py:521-539 | and then any new or waiting call reads the settled state and records it |
| `HitlRecords.LoserWaits` | tools/gmail_audit/agent_hitl_bridge.py:653-665 | a worker whose claim is refused waits while the send is under way, records the result once it is settled, and gives up when the key was reopened |
| `HitlRecords.SettledIsFinal` | tools/gmail_audit/agent_hitl_bridge.py:510-539 | once a send is settled and nobody is under way, no call touches the state or sends again |
| `HitlSend.FalseReportLies` | tools/gmail_audit/agent_hitl_bridge.py:678-691 | any path that reports `executed` without sending has a run that stores the lie |
| `HitlSend.ShippedIsTruthful` | tools/gmail_audit/hitl_gmail_send.py:122-165 | the shipped function, with its unclaimed early returns, is truthful |
| `HitlSend.AcceptedAtWrittenOnce` | tools/gmail_audit/agent_hitl_bridge.py:605-638 | `accepted_at` never changes once written, over every run |
| `HitlRecords.AcceptedAtIsFirst` | tools/gmail_audit/agent_hitl_bridge.py:605-621 | it is the time of the first accept of the run, and absent before |
| `HitlRecords.StampsExact` | tools/gmail_audit/agent_hitl_bridge.py:606-691 | which steps move status, start and end, and to what |
| `CaseMetadata.CaseStore.MutateSend` | tools/gmail_audit/agent_hitl_bridge.py:73-94 | one key of one case changes; a missing case or a raising mutator changes nothing |
| `CaseMetadata.CaseStore.RecordDegradation` | tools/gmail_audit/case_intelligence_degradation.py:58-101 | the counter advances, terminal is sticky, the row is created when missing |
| `CaseMetadata.CaseStore.ClearDegradation` | tools/gmail_audit/case_intelligence_degradation.py:104-126 | the counter is dropped; a missing row stays missing |
| `CaseMetadata.DifferentKeysCommute` | tools/gmail_audit/agent_hitl_bridge.py:80-91 | mutations under different decision keys commute, whatever the mutators do |
| `CaseMetadata.DifferentCasesCommute` | tools/gmail_audit/mailbox_memory/inmemory.py:92-113 | mutations of different cases commute |
| `CaseMetadata.SendCommutesWithClear` | tools/gmail_audit/case_intelligence_degradation.py:113-126 | clearing commutes with every send mutation of the same case |
| `CaseMetadata.SendCommutesWithRecordIff` | tools/gmail_audit/case_intelligence_degradation.py:82-100 | recording commutes with a send mutation iff the row exists or the mutator raises on an absent state |
| `CaseMetadata.CounterCountsRecords` | tools/gmail_audit/case_intelligence_degradation.py:82-126 | with a fixed limit, attempts equals the records since the last clear, and terminal iff that reaches max(1, limit), whatever else is mutated |
| `CaseMetadata.CounterIs` | tools/gmail_audit/case_intelligence_degradation.py:82-126 | with any limits: the counter, terminal once a record reached its own limit, the last signal and the first 500 characters of the last reason |
| `CaseMetadata.BlankCaseIgnored` | tools/gmail_audit/case_intelligence_degradation.py:73-78 | without a case id nothing is recorded or cleared |
| `HitlCase.MutationStoresNext` | tools/gmail_audit/agent_hitl_bridge.py:606-691 | the accept, claim and completion mutators store what the single-key protocol says and leave other keys and the counter alone |
| `HitlCase.KeysDoNotInterfere` | tools/gmail_audit/agent_hitl_bridge.py:73-101 | in every run of a whole case row, any number of keys and workers with degradation interleaved, what one key goes through is exactly a single-key run of its own actions |
| `HitlCase.EveryKeyAtMostOnceIff` | tools/gmail_audit/agent_hitl_bridge.py:510-712 | no key of the row ever sends twice, over all such interleavings, iff the send function is safe |
| `HitlCase.SendsDoNotTouchCounter` | tools/gmail_audit/case_intelligence_degradation.py:82-126 | the stored counter after a run is the one its records and clears alone would leave |
| `FactSupersession.SupersedePass` | tools/gmail_audit/case_snapshot_manager.py:696-721 | exactly the active rows of the key with another value are superseded; both counts are exact |
| `FactSupersession.FactStore.AppendOne` | tools/gmail_audit/case_snapshot_manager.py:688-725 | skip, agree or supersede-and-append for one row, with its statistics |
| `FactSupersession.FactStore.AppendFactsWithSupersession` | tools/gmail_audit/case_snapshot_manager.py:681-726 | the batch is the fold of its rows, and so are the statistics |
| `FactSupersession.BatchIsAppendOnly` | tools/gmail_audit/case_snapshot_manager.py:681-726 | for rows of any key and status no row is removed, reordered or has its value changed, and rows grow by `inserted`; unless rows arrive superseded, superseded rows grow by `superseded` |
| `FactSupersession.SupersessionsHaveCause` | tools/gmail_audit/case_snapshot_manager.py:698-721 | every earlier row is as it was, or superseded by a row of the batch that was written under its key with another value, whose id it carries |
| `FactSupersession.StatsAccount` | tools/gmail_audit/case_snapshot_manager.py:685-726 | on a store with one active row per key, inserted and unchanged account for every keyed row of the batch |
| `FactSupersession.AgreeingWriteChangesNothing` | tools/gmail_audit/case_snapshot_manager.py:705-713 | a write that agrees with the latest value up to white space leaves the history as it is; any other adds one row |
| `FactSupersession.NoScopeIsCase` | tools/gmail_audit/case_snapshot_manager.py:691-703 | a stored row without a scope is a case row |
| `FactSupersession.InsertRefines` | tools/gmail_audit/case_snapshot_manager.py:688-725 | one insertion is one write to the map from (case, scope, key) to value |
| `FactSupersession.HistoryRefinesMap` | tools/gmail_audit/case_snapshot_manager.py:681-726 | after any sequence of stable active rows the active rows are exactly the latest values, one per key |
| `FactSupersession.InsertKeepsOneActiveIff` | tools/gmail_audit/case_snapshot_manager.py:690-725 | for any store and any active row, an insertion leaves at most one active row per key iff the row is found under the key it was written under, or its value is already there, or the place it is found under is free |
| `FactSupersession.SafeIffStable` | tools/gmail_audit/case_snapshot_manager.py:690-704 | a row is safe to write into every store iff its stored key is its written key |
| `FactSupersession.OneLatestKind` | tools/gmail_audit/case_snapshot_manager.py:498-535 | if no payload row writes the kind of another case or comes without a raw observation id, each case with an observed signal has exactly one live `latest_signal_kind`, that of its last observed signal, whatever else the payloads hold |
| `FactSupersession.NoKindWithoutObservation` | tools/gmail_audit/case_snapshot_manager.py:516-535 | and a case without one has none |
| `FactSupersession.FactConflicts` | tools/gmail_audit/case_snapshot_manager.py:582-596 | exactly the keys with more than one live value, and all those values |
| `FactSupersession.ConflictsComeFromScopes` | tools/gmail_audit/case_snapshot_manager.py:582-596 | on a supersession history, a key conflicts iff two live rows in different allowed scopes disagree |
| `FactSupersession.HistoriesAreSupersessive` | tools/gmail_audit/case_snapshot_manager.py:681-736 | every history fed with stable active rows is such a history |
| `SnapshotVersions.SnapshotManager.Apply` | tools/gmail_audit/case_snapshot_manager.py:76-95 | the appended row and its number and signal ids, from the limited oldest-first fetch |
| `SnapshotVersions.RebuildFromSignalJournal` | tools/gmail_audit/case_snapshot_manager.py:101-120 | nothing without signals, else the closed form of the last snapshot, or of the 10000th where there are more |
| `SnapshotVersions.VersionsAre` | tools/gmail_audit/case_snapshot_manager.py:741-752 | for every journal and limit the stored rows equal the closed form |
| `SnapshotVersions.NumberedAndCompleteIff` | tools/gmail_audit/case_snapshot_manager.py:615-646 | the n-th snapshot is numbered n, and lists all n signals in order, iff n is at most the limit plus one; from there the number is pinned |
| `SnapshotVersions.PointersExact` | tools/gmail_audit/case_snapshot_manager.py:625-642 | for any journal the evidence pointers list no blank id, and each earlier signal within the limit as often as it came |
| `SnapshotVersions.NumberFollowsNewest` | tools/gmail_audit/case_snapshot_manager.py:76-77 | on any stored rows within the limit the new number is one more than the greatest |
| `ChatRateLimiter.Limiter.RateLimit` | tools/gmail_audit/api_app.py:189-197 | prune, refuse or admit for one session; other sessions are untouched |
| `ChatRateLimiter.SessionKeyIs` | tools/gmail_audit/api_app.py:191 | sessions are told apart by their trimmed id, and without one share the anonymous session |
| `ChatRateLimiter.StoreRemembersEnough` | tools/gmail_audit/api_app.py:193-194 | what pruning forgets never matters again: the list prunes to the same stamps as the full history |
| `ChatRateLimiter.WindowBound` | tools/gmail_audit/api_app.py:71-74 | with a non-decreasing clock, at most 30 admissions per session in every window (s, s+60], for every real s |
| `ChatRateLimiter.RefusedIffWindowFull` | tools/gmail_audit/api_app.py:195-197 | a request is refused iff 30 of its session were admitted in the preceding 60 seconds |
| `ChatRateLimiter.SessionsAreIndependent` | tools/gmail_audit/api_app.py:189-197 | admissions of a session depend on its own calls only |
| `ChatRateLimiter.BackwardRunAdmits` | tools/gmail_audit/api_app.py:192-194 | however small the step back, a run of one session that admits 59 in a window |
| `ChatRateLimiter.BoundHoldsIff` | tools/gmail_audit/api_app.py:189-197 | on clocks that step back by at most a given slack the bound holds for all histories, sessions and windows iff the slack is zero |
| `CaseLinker.CollectCaseCandidates` | tools/gmail_audit/case_linker.py:36-132 | the first offer of every non-blank key, in order of evidence |
| `CaseLinker.CollectedKeys` | tools/gmail_audit/case_linker.py:52-64 | exactly the non-blank trimmed keys on offer are collected |
| `CaseLinker.CollectedKeysClean` | tools/gmail_audit/case_linker.py:52-64 | collected keys are trimmed, non-blank and pairwise different |
| `CaseLinkerRules.CollectedInOrder` | tools/gmail_audit/case_linker.py:49-132 | candidates are the first offers of their keys, in the order of the offers |
| `CaseLinkerRules.CandidatePrecedence` | tools/gmail_audit/case_linker.py:66-130 | a candidate comes from the first place that offers its key: references, snapshot, intake, context, bundle |
| `CaseLinkerRules.ExplicitKeyForm` | tools/gmail_audit/case_linker.py:293-297 | a reference with a digit is brought to the form `CASE-...` once |
| `CaseLinkerRules.ContextWorth` | tools/gmail_audit/case_linker.py:96-119 | what a context message is worth for thread, subject and shared participants, each with its reason |
| `CaseLinkerRules.ContextStandsFor` | tools/gmail_audit/case_linker.py:255-263 | it stands for its first case token, its thread, or nothing |
| `CaseLinkerRules.PlainScore` | tools/gmail_audit/case_linker.py:135-163 | a plain offer scores its base |
| `CaseLinkerRules.ReviewCosts` | tools/gmail_audit/case_linker.py:149-150 | a review costs 0.05 |
| `CaseLinkerRules.SourceBonus` | tools/gmail_audit/case_linker.py:142-145 | an explicit source is worth 0.08, a thread source 0.02, any other nothing |
| `CaseLinkerRules.ThreadKeyBonus` | tools/gmail_audit/case_linker.py:146-148 | a thread key is worth 0.01 to a message in a thread |
| `CaseLinkerRules.ConfidenceShare` | tools/gmail_audit/case_linker.py:151 | the intake confidence is worth a twentieth, at most 0.05 |
| `CaseLinkerRules.ShareIsNearest` | tools/gmail_audit/case_linker.py:151-152 | off the grid the share is the nearest step |
| `CaseLinkerRules.HardCount` | tools/gmail_audit/case_linker.py:154 | hard evidence is the number of hard reasons |
| `CaseLinkerRules.HardIs` | tools/gmail_audit/case_linker.py:154 | a reason is hard iff it mentions an explicit reference or a thread |
| `CaseLinker.ScoresBounded` | tools/gmail_audit/case_linker.py:135-152 | scores lie in [0, 1], and an explicit reference scores at least 1.02 plus what the intake adds, clamped |
| `CaseLinker.PickCaseDecision` | tools/gmail_audit/case_linker.py:166-234 | key, verdict, confidence, source, reasons and the five shown candidates |
| `CaseLinker.RankShape` | tools/gmail_audit/case_linker.py:168-169 | the ranking holds exactly the keyed candidates, best score first, ties by hard evidence |
| `CaseLinkerRules.RankKeepsArrival` | tools/gmail_audit/case_linker.py:168-169 | remaining ties are ranked as they came |
| `CaseLinkerRules.ReferenceOverrides` | tools/gmail_audit/case_linker.py:181-202 | with a best score of at least 0.85 and the first explicit reference at most 0.05 below, the reference is chosen unless the runner-up is within 0.08 of it with more hard evidence; from 0.85 on it is then `linked` |
| `CaseLinkerRules.BestUnlessDisplaced` | tools/gmail_audit/case_linker.py:181-195 | otherwise the best is chosen unless the runner-up is within 0.08 of it with more hard evidence |
| `CaseLinkerRules.ReferenceBeatsBetterThread` | tools/gmail_audit/case_linker.py:184-202 | a better thread candidate does not take the place of a named case |
| `CaseLinkerRules.VerdictExact` | tools/gmail_audit/case_linker.py:199-218 | the verdict on the chosen candidate, by both scores and its source |
| `CaseLinkerRules.ReasonsTold` | tools/gmail_audit/case_linker.py:197-234 | the reasons told for each verdict |
| `CaseLinker.ChosenWithinMargin` | tools/gmail_audit/case_linker.py:181-195 | after both override rules the chosen candidate is a ranked one within 0.08 of the best score |
| `CaseLinker.VerdictFollowsBestScore` | tools/gmail_audit/case_linker.py:199-218 | a best score of 0.53 is never `no_link`, one below 0.45 always is, `linked` and `competing_links` carry at least 0.72 |
| `CaseLinker.MarginIsTight` | tools/gmail_audit/case_linker.py:189-195 | evidence whose best candidate scores 0.5299 and which ends in `no_link` |
| `CaseLinker.CompetingAreRivals` | tools/gmail_audit/case_linker.py:199-211 | competing links exhibit two ranked candidates with different keys, both at 0.72 or more, within 0.08, one of them chosen |
| `CaseLinker.CompetingLinksAreReal` | tools/gmail_audit/case_linker.py:10-19 | the same from arbitrary evidence through collect, score and pick |
| `CaseLinker.ExplicitReferenceLinks` | tools/gmail_audit/case_linker.py:66-72 | a message that names a case gets a firm or competing link from a reference score of 0.80 on, within 0.08 of it, and from 0.95 on is `linked` iff an explicit reference is chosen; a non-negative intake confidence always gives 0.97 |
| `CaseLinker.AlwaysFirmIff` | tools/gmail_audit/case_linker.py:142-152 | for a given review flag and intake confidence, every message that names a case gets a firm or competing link iff the reference score is at least 0.80 |
| `CaseLinker.OtherThreadsNeverFirm` | tools/gmail_audit/case_linker.py:94-119 | when the only evidence is context messages of other threads, the verdict is never `linked` or `competing_links` |
| `CaseMerge.MergeData` | tools/gmail_audit/_case_intelligence_legacy.py:1612-1709 | facts, documents, history and the conflicts of the merge with key and both values |
| `CaseMerge.KeepFirst` | tools/gmail_audit/_case_intelligence_legacy.py:1683-1700 | the first kept element of every key, in order |
| `CaseMerge.FactsSurvive` | tools/gmail_audit/_case_intelligence_legacy.py:1645-1675 | each non-empty key of either case once, newest first, holding what the second case's facts leave of the first's; with one fact per key that one replaces iff both values are non-empty, differ, and it is not older |
| `CaseMerge.ConflictsExact` | tools/gmail_audit/_case_intelligence_legacy.py:1655-1662 | a conflict is reported iff a fact of the second case meets a different non-empty value held under its key at that point |
| `CaseMerge.ConflictsOfDistinct` | tools/gmail_audit/_case_intelligence_legacy.py:1655-1662 | with one fact per key: iff both cases hold the key with different non-empty values |
| `CaseMerge.MergedKeysInOrder` | tools/gmail_audit/_case_intelligence_legacy.py:1643-1669 | before sorting, facts stand in the order in which their keys first came, first case first |
| `CaseMerge.FactTies` | tools/gmail_audit/_case_intelligence_legacy.py:1671-1675 | facts observed at one time stay in that order |
| `CaseMerge.DocumentsAreUnion` | tools/gmail_audit/_case_intelligence_legacy.py:1683-1687 | merged documents hold every non-blank id of either case once, each the first document with that id in the first case followed by the second, in that order |
| `CaseMerge.DocumentsAbsorb` | tools/gmail_audit/_case_intelligence_legacy.py:1683-1687 | nor any document |
| `CaseMerge.HistoryIsUnion` | tools/gmail_audit/_case_intelligence_legacy.py:1695-1704 | history is timestamp-sorted, duplicate-free and set-equal to the union |
| `CaseMerge.HistoryTies` | tools/gmail_audit/_case_intelligence_legacy.py:1695-1704 | events with one timestamp stay in the order in which they first came |
| `CaseMerge.HistoryAbsorbs` | tools/gmail_audit/_case_intelligence_legacy.py:1695-1704 | merging the second case again changes no history |
| `MergeAgain.RemergeKeepsReadingsIff` | tools/gmail_audit/_case_intelligence_legacy.py:1650-1675 | for all cases: merging the second case again leaves key, value and time of every fact as they are iff no merged fact is overtaken, that is, each newer fact under its key repeats the value before it |
| `MergeAgain.RemergeIff` | tools/gmail_audit/_case_intelligence_legacy.py:1650-1675 | the same condition is exact for the facts themselves when facts of the second case with the same key, value and time are equal |
| `MergeAgain.FactsAbsorb` | tools/gmail_audit/_case_intelligence_legacy.py:1650-1675 | merging again changes no fact and no order when facts of the second case that disagree under a key come in time order |
| `MergeAgain.DistinctIsOrdered` | tools/gmail_audit/_case_intelligence_legacy.py:1650-1654 | a second case with one fact per key is in time order |
| `MergeAgain.MergeAbsorbs` | tools/gmail_audit/_case_intelligence_legacy.py:1640-1709 | then the whole merge is absorbed |
| `MergeAgain.AlwaysKeepsReadingsIff` | tools/gmail_audit/_case_intelligence_legacy.py:1650-1675 | on the second case alone, for all first cases: merging again keeps every reading iff the facts of each key settle, a finite check that starts from nothing and from each of their values, and one other, at each of their times |
| `MergeAgain.AlwaysAbsorbedIff` | tools/gmail_audit/_case_intelligence_legacy.py:1650-1675 | the same condition is exact for the facts themselves when facts with the same key, value and time are equal |
| `MergeAgain.PairAbsorbedIff` | tools/gmail_audit/_case_intelligence_legacy.py:1650-1669 | two facts under one key are absorbed by every first case iff they do not disagree or come in time order |
| `MergeAgain.OutOfOrderNotAbsorbed` | tools/gmail_audit/_case_intelligence_legacy.py:1655-1667 | for any two that do neither, a first case for which a second merge changes the result |
| `MergeAgain.TimeOrderNotNecessary` | tools/gmail_audit/_case_intelligence_legacy.py:1655-1667 | three facts out of time order that every first case absorbs |
| `ConflictDedupe.MergeConflictsDeterministic` | tools/gmail_audit/case_context_deterministic.py:277-291 | append, keep or replace by richer references, row by row |
| `ConflictDedupe.MergeKeepsPlaces` | tools/gmail_audit/case_context_deterministic.py:283-290 | existing rows keep their place and key, and give way only to a generated row with strictly more references |
| `ConflictDedupe.MergeAddsOnce` | tools/gmail_audit/case_context_deterministic.py:278-291 | a generated row whose predicate and values are there is not added again |
| `ConflictDedupe.GroupRows` | tools/gmail_audit/case_context_contract.py:1180-1189 | buckets per predicate and normalised value set, loose rows apart |
| `ConflictDedupe.DedupeConflictsPreferEvidence` | tools/gmail_audit/case_context_contract.py:1168-1200 | the richest row of each bucket in order, then the loose rows |
| `ConflictDedupe.DedupeInventsNothing` | tools/gmail_audit/case_context_contract.py:1191-1200 | every row of the result was given |
| `ConflictDedupe.DedupeLosesNothing` | tools/gmail_audit/case_context_contract.py:1182-1198 | every keyed row is represented by one with its key and at least its evidence |
| `ConflictDedupe.DedupeKeysOnce` | tools/gmail_audit/case_context_contract.py:1182-1198 | every key appears at most once |
| `ConflictDedupe.DedupeShape` | tools/gmail_audit/case_context_contract.py:1180-1200 | one row per group in the order in which keys first came, then the loose rows |
| `ConflictDedupe.KeptIsEarliestRichest` | tools/gmail_audit/case_context_contract.py:1192-1198 | the row kept is the earliest with most references among all rows of its key |
| `ConflictDedupe.LooseRowsExact` | tools/gmail_audit/case_context_contract.py:1185-1187 | loose rows are all kept, as often as they came |
| `ConflictDedupe.KeyIs` | tools/gmail_audit/case_context_contract.py:1171-1188 | what the key of a row ignores and what it counts |
| `ConflictDedupe.DedupeIdempotent` | tools/gmail_audit/case_context_contract.py:1168-1200 | de-duplicating twice equals once |
| `ConflictDedupe.OneRowPerPredicateIff` | tools/gmail_audit/case_context_contract.py:1168-1200 | the docstring's one row per predicate holds iff no two keyed rows of a predicate differ in their normalised values |
| `ConflictDedupe.TwoValueSetsTwoRows` | tools/gmail_audit/case_context_contract.py:1182-1189 | it fails on any two rows of one predicate with different values |
| `ConflictDedupe.SameSpellingSameKey` | tools/gmail_audit/case_context_deterministic.py:268-275 | rows the merge identifies, the de-duplication identifies too |
| `ConflictDedupe.MergeLosesNothing` | tools/gmail_audit/case_context_deterministic.py:277-291 | the merge keeps a representative of every existing and generated row, and invents none |
| `ConflictDedupe.MergeThenDedupe` | tools/gmail_audit/case_context_deterministic.py:254-291 | merge then de-duplicate: every keyed row of either list is represented, by a given row with at least its evidence |
| `BatchRunner.RunMessage` | scripts/sequential_gmail_ingress_daszek.py:524-636 | the attempt loop logs retries 1..k-1 and a final row k, and the rate limits it counts on detection are the rate-limited rows it logs |
| `BatchRunner.RunBatch` | scripts/sequential_gmail_ingress_daszek.py:516-667 | index and failed records of the whole batch, and a 429 counter, kept apart from the log, that equals the number of rate-limited rows |
| `BatchRunner.MessageLogShape` | scripts/sequential_gmail_ingress_daszek.py:526-636 | for every pattern of rate limits: attempts 1..k within the limit, the first k-1 are retries after a real rate limit, exactly the last is final, and it stops at the first attempt that is not rate limited |
| `BatchRunner.EveryRetryIsUsed` | scripts/sequential_gmail_ingress_daszek.py:524-599 | a message that is rate limited every time is tried once more than the retries asked for |
| `BatchRunner.NoRetryWithoutLimit` | scripts/sequential_gmail_ingress_daszek.py:601-602 | one that is not is tried once |
| `BatchRunner.FailedRecordsExact` | scripts/sequential_gmail_ingress_daszek.py:641-662 | one failed record iff the last terminal summary of the message was not ok, none otherwise; other messages keep theirs |
| `BatchRunner.FailedRecordsAre` | scripts/sequential_gmail_ingress_daszek.py:610-662 | record by record: the last terminal attempt and what became of it, unless the summary says `completed` or `completed_with_errors` |
| `BatchRunner.ResumeSkipsExactlySuccesses` | tools/gmail_audit/sequential_ingress_helpers.py:374-409 | after a run, resume skips a processed message iff its terminal status was a success |
| `BatchRunner.ResumeByStatus` | tools/gmail_audit/sequential_ingress_helpers.py:404-409 | that is, iff it was not rate limited and its summary says `completed` or `completed_with_errors`, or says nothing |
| `BatchRunner.CheckpointVersusFailedRecord` | scripts/sequential_gmail_ingress_daszek.py:610-662 | after a run a processed message is both skipped on resume and recorded as failed iff its terminal summary has no status and was not rate limited; neither iff an exhausted rate limit came with an ok summary |

## Left out

- Values: ids in the ledger are the trimmed strings the code compares; a missing dict field is the empty string or list; timestamps are integers in a total order; generated ids, case folding (`lower`, `upper`) and `normalize_value_for_conflict` are parameters that may be any function.
- Digests: the semantic hash is stored as the payload it digests, and history events are compared by content; SHA-256 truncation is not modelled.
- Locks and the optional event sink of the ledger: each ledger call is one atomic step, and `created_at` fields are dropped. `record_request` is not quite that: it reads the expected revision before it takes its lock (`canonical_action_decision.py:717-718`), so a concurrent accept can let a stale request be logged as pending; that interleaving is not modelled.
- The SQL store: only the in-memory store is modelled. The lemmas about rebuild hold for any listing order of lineages, because the two stores differ there.
- Audit entries of rejections: rebuild reconstructs stale rejections with another reason code (`canonical_action_decision.py:637-647` against `736-746`), so only acceptances are equated.
- Send target resolution, write binding and the two-second poll deadline: a failure or a timeout is a worker that stops. `execution` payloads and parent references are not modelled.
- Fact evidence metadata (`merge_fact_evidence`, `superseded_at`) and the other fields of the hot state: they do not influence supersession or numbering. One case's snapshot list is modelled at a time; a negative fetch limit is not.
- Conflict messages are records of key and both values; their wording is not modelled.
- Linker arithmetic: scores are integers in ten-thousandths and the five-percent share is rounded half up; binary floating point, `isdigit` beyond ASCII, and `validate_case_link_result` are not modelled.
- Alias fields (`key` for `fact_key`, `file_id` for `document_id`, `facts_in_conflict` for `values`, `evidence_refs` for `source_refs`) are read as one field; references are taken to be dict rows, which both conflict passes then count alike.
- The rules that generate conflict rows (`collect_cross_source_predicate_conflicts`, `detect_status_snapshot_vs_next_action`): generated rows are arbitrary inputs.
- Batch: interrupts, dry runs, delays, rollups, proof artifacts, message selection, and `--force`.
- `_dedupe_risk_items`, `build_desk_composition`, `build_lifecycle_revision`, routing, gates and planner tables: they would add only easy members or depend on code that is not part of this model.
- FastAPI routes, database drivers, Gmail, Drive, Calendar and Daszek clients, language-model stages: input and output.
