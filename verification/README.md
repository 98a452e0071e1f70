# A replicated key-value store and its linearizability checker, verified

The repository holds a key-value store replicated with OmniPaxos (a Maelstrom node and a TCP server) and a
Jepsen-style harness that drives a cluster of such nodes, injects faults, records a history and checks it for
linearizability. This project models the three together and proves how they fit: the search inside the checker
decides exactly what it should, the cluster is linearizable in every run once pending operations are completed, and
the checker passes the cluster's histories as far as the record lets it. Snapshots are compared with replay of the
log, and fault injection with the majority it must leave intact.

The main results:

- `Checker.TryLinearize`, `Locality.LocalityTheorem`, `History.CheckLinearizability`: the backtracking search is
  exact up to its depth cut, checking one key at a time loses nothing, and the verdict depends on nothing but the
  multiset of paired operations. With at most 101 operations per key the verdict is linearizability
  (`History.VerdictIsExact`). Beyond that a rejection is still right (`Checker.RejectionIsSound`), but at every larger
  size some acceptance is wrong, in the search (`Checker.DecidesIff`) and in the verdict
  (`History.VerdictDecidesIff`).
- `Verdicts.IndeterminateWrites`, `Verdicts.HarmlessIff`: indeterminate writes are optional in every history, and
  forcing an indeterminate operation in is harmless exactly for writes and for reads invoked at time 0.
- `Safety.StepKeepsInv` and the theorems over whole runs that follow from it: conservation, at most once,
  replica agreement, sequential answers, real-time order. `Answering.AnswersCounted` counts the answers to each command
  in every run; without restarts it is exactly one (`Answering.AnsweredExactlyOnce`).
- `LogAnswers.AnswersDetermined`, `LogAnswers.AnswersAreRight`: what every answer of every run says, characterized on
  the log without executing it, and that it goes to the client that asked. `Forwarding.ForwardsAreAddressed`: forwards
  go to leaders. `EndToEnd.AnswerMatchesModel`: the model accepts a recorded answer if and only if the node gives it.
- `Completion.EveryRunIsLinearizable`: with no hypothesis on the record, every run is linearizable once the logged
  commands without a recorded answer are completed.
- `EndToEnd.EveryRunPasses`: when the pending operations may be left out, as the checker leaves them out. In runs
  with distinguishable values a gap that a recorded read or successful compare-and-swap has seen is always rejected
  (`VisibleGaps.PassingRunSeesNoGap`), so the hypothesis is exact unless a failed compare-and-swap behind a gap
  expects a value that is on record (`VisibleGaps.RunPassesIff`). `LostAnswer.LostAnswerIsRejected` is a linearizable
  run that the checker rejects.
- `KVSnapshot.MergeIsRightIff` and `MaelstromSnapshot.MergeIsRightIff`: the exact conditions under which merging a
  delta snapshot gives the state of the whole log, with the inputs on which it does not. `KVSnapshot.MergeFirstIff`:
  when two deltas may be merged with each other before they reach a base.
- `Nemesis.SafeIff`: the exact node counts with which fault injection never takes the working majority away.

| file | what it holds |
|---|---|
| `Values.dfy` | JSON values, stores, times; sequence and multiset facts |
| `Checker.dfy`, `Locality.dfy`, `History.dfy`, `Verdicts.dfy` | the linearizability checker |
| `NodeIds.dfy`, `Node.dfy` | one replica: names and ids, appending, forwarding, applying, answering |
| `Harness.dfy` | what the harness sends and records |
| `Cluster.dfy`, `Safety.dfy`, `Answering.dfy` | replicas, network and harness as one step relation; what every run keeps |
| `LogAnswers.dfy`, `Forwarding.dfy` | what answers say and whom they are for; where forwards go |
| `EndToEnd.dfy`, `Completion.dfy`, `VisibleGaps.dfy`, `LostAnswer.dfy` | the checker on the cluster's histories |
| `MaelstromSnapshot.dfy`, `KVSnapshot.dfy`, `Server.dfy` | snapshots against replay; the TCP server |
| `Nemesis.dfy` | faults, delivery, majorities |

Code that updates fields in place (`MaelstromNode`, `Recorder`, `NetworkSimulator`, `NemesisDriver`, `Database`, the
two snapshots, `OmniPaxosServer`) is a class whose methods are tied to functions on values; the theorems are about
those functions. OmniPaxos enters as a contract only: one agreed log that grows at its end, a decided index per node
within it, an accepted append that enters the log at most once, a refused append without effect, and
`read_decided_suffix(i)` as the log from `i` to the decided index. Clocks, random choices and OmniPaxos's answers are
parameters.

Where code and prose disagree the model follows the code. The comment at `src/bin/jepsen_harness.rs:246` calls the
depth cut conservative; it accepts, so it is the permissive choice.

## Model

| member | source | states |
|---|---|---|
| `Checker.TryLinearize` | src/bin/jepsen_harness.rs:238-272 | terminates, and returns true exactly when min(n, 101 - depth) of the operations have a legal order, in real time among themselves and ahead of all the others; the order of candidates is irrelevant |
| `Checker.MinComplete` | src/bin/jepsen_harness.rs:251-256 | the bound that candidates are compared with is attained and is below every completion time |
| `Checker.TryingFirst` | src/bin/jepsen_harness.rs:258-269 | the local condition (invoked no later than the earliest completion, model agrees, rest succeeds one level down) is exactly being a possible first operation |
| `Checker.FirstStepSound` | src/bin/jepsen_harness.rs:258-269 | a candidate that matches, followed by a placement of the rest, is a placement of the whole |
| `Checker.FirstStepComplete` | src/bin/jepsen_harness.rs:258-269 | every placement starts with a candidate that the search tries |
| `Checker.PlacingAll` | src/bin/jepsen_harness.rs:238-241 | placing all n operations is having a linearization |
| `Checker.HorizonMonotone` | src/bin/jepsen_harness.rs:243-248 | stopping earlier only accepts more |
| `Checker.RejectionIsSound` | src/bin/jepsen_harness.rs:238-272 | for every n, a rejection means that no linearization exists |
| `Checker.SearchDecides` | src/bin/jepsen_harness.rs:238-272 | up to 101 operations the search decides linearizability |
| `Checker.DepthCutAcceptsViolation` | src/bin/jepsen_harness.rs:243-248 | for every n above 101, n concurrent operations without a linearization that the search accepts |
| `Checker.DecidesIff` | src/bin/jepsen_harness.rs:238-272 | the search decides linearizability of all collections of n operations if and only if n is at most 101 |
| `Checker.UnexplainedHasNoOrder` | src/bin/jepsen_harness.rs:77-121 | a read of, or successful compare-and-swap from, a value that the model does not hold and no operation brings before it is over rules out every linearization |
| `Checker.UnexplainedFailureHasNoOrder` | src/bin/jepsen_harness.rs:111-116 | a failed compare-and-swap from v, invoked after a write of v had completed while nothing replaces v, rules out every linearization |
| `Locality.LegalByKey` | src/bin/jepsen_harness.rs:77-121 | the model's verdict on operations of one key depends on that key's value alone |
| `Locality.KeysOfLinearizable` | src/bin/jepsen_harness.rs:214-232 | a linearizable history is linearizable on each key |
| `Locality.KeysMerge` | src/bin/jepsen_harness.rs:214-232 | linearizations of the single keys merge into one of the whole history |
| `Locality.LocalityTheorem` | src/bin/jepsen_harness.rs:214-232 | a history has a linearization if and only if each key's part has one: checking per key is sufficient |
| `History.PairUp` | src/bin/jepsen_harness.rs:142-205 | the loop collects exactly the invocations paired with their first response, in response order; unanswered invocations and stray responses leave no operation |
| `History.SortByInvoke` | src/bin/jepsen_harness.rs:208 | sorted by invocation time, a permutation, and stable: operations invoked at the same time keep their order |
| `History.GroupByKey` | src/bin/jepsen_harness.rs:214-221 | every group is its key's operations, complete and in sorted order |
| `History.CheckLinearizability` | src/bin/jepsen_harness.rs:141-235 | passes exactly the histories whose multiset of paired operations is placeable on every key, whatever the iteration order of keys; a violation names a key without any linearization and its operation count |
| `History.LinearizableIsAccepted` | src/bin/jepsen_harness.rs:141-235 | a linearizable history passes, however long |
| `History.VerdictIsExact` | src/bin/jepsen_harness.rs:141-235 | with at most 101 operations on each key, passing is linearizability of the whole history |
| `History.OneMoreOperation` | src/bin/jepsen_harness.rs:142-205 | recording a call and its response after any history adds exactly their operation |
| `History.DepthCutPassesViolation` | src/bin/jepsen_harness.rs:141-272 | for every size above 101, a history of operations on one key, each under its own id, that passes and has no linearization |
| `History.VerdictDecidesIff` | src/bin/jepsen_harness.rs:141-272 | the verdict is linearizability on all histories with at most n operations per key if and only if n is at most 101 |
| `History.UnexplainedRejected` | src/bin/jepsen_harness.rs:223-272 | a recorded read of, or successful compare-and-swap from, a value that no operation on record brings is always rejected, on any key within the depth of the search |
| `History.EarlyReadRejected` | src/bin/jepsen_harness.rs:142-272 | recorded times count: a read answered before anybody had asked for the value it carries is rejected |
| `History.UnexplainedFailureRejected` | src/bin/jepsen_harness.rs:111-116 | a compare-and-swap from v recorded as failed is rejected when it was invoked after a write of v was answered and nothing on record could have replaced v |
| `Verdicts.InertEntriesIgnored` | src/bin/jepsen_harness.rs:146-205 | later duplicates, responses to nothing, other events and invocations that stay unanswered change neither the operations nor the verdict, wherever they stand and beyond the depth cut too |
| `Verdicts.IndeterminateWrites` | src/bin/jepsen_harness.rs:183-201 | in every history, forcing all indeterminate writes in passes exactly when some subset of them passes with the other operations |
| `Verdicts.IndeterminateWritesLinearize` | src/bin/jepsen_harness.rs:183-201 | within the depth bound: exactly when the other operations plus some indeterminate writes have a linearization |
| `Verdicts.IndeterminateCasRejected` | src/bin/jepsen_harness.rs:183-201 | the history of any indeterminate compare-and-swap (or unsupported operation) alone fails although the empty one passes |
| `Verdicts.IndeterminateReadRejected` | src/bin/jepsen_harness.rs:183-201 | after any completed write to its key, recording an indeterminate read turns a passing history into a failing one |
| `Verdicts.HarmlessIff` | src/bin/jepsen_harness.rs:183-201 | recording an indeterminate operation under a fresh id keeps every passing history passing if and only if it is a write, or a read invoked at time 0 |
| `Verdicts.ForcingIff` | src/bin/jepsen_harness.rs:183-269 | the same condition for the search: these and no other forced operations keep every accepted collection accepted |
| `NodeIds.PrintThenParse` | src/bin/maelstrom_node.rs:102-114 | printing an id and parsing the name gives the id back, for every id from 1 to 2^64 - 1 |
| `NodeIds.ParseThenPrint` | src/bin/maelstrom_node.rs:102-114 | parsing a name and printing the id gives the name back if and only if the name is canonical |
| `NodeIds.IdsDistinct` | src/bin/maelstrom_node.rs:102-114 | canonical names with the same id are the same name |
| `NodeIds.NamesCollide` | src/bin/maelstrom_node.rs:102-109 | names that are not canonical (leading zeros, a plus sign) can share an id |
| `Node.MaelstromNode.TryAppend` | src/bin/maelstrom_node.rs:235-263 | the command is proposed, forwarded to the leader's name, or buffered, and the rest of the node stays as it is |
| `Node.MaelstromNode.HandleClientRequest` | src/bin/maelstrom_node.rs:201-232 | the request becomes a command coordinated here, missing fields becoming the empty key or null; an unknown type is answered with error 10 |
| `Node.MaelstromNode.HandleForwardedRequest` | src/bin/maelstrom_node.rs:266-270 | a forwarded command is appended unchanged, with its original coordinator |
| `Node.MaelstromNode.TickNode` | src/bin/maelstrom_node.rs:409-417 | the buffer is emptied and every command in it tried once, in order |
| `Node.MaelstromNode.ApplyAndRespond` | src/bin/maelstrom_node.rs:325-406 | the store moves to the sequential result; only the coordinator writes an answer, and it is the sequential one, whose content `LogAnswers.AnswersDetermined` fixes |
| `Node.MaelstromNode.ProcessDecidedEntries` | src/bin/maelstrom_node.rs:298-322 | a new index applies the whole suffix entry by entry, snapshots replacing the store; an old index does nothing |
| `Node.AppendConserves` | src/bin/maelstrom_node.rs:235-263 | an append puts the command into exactly one of log proposal, forward and buffer, and moves no other |
| `Node.AppendGoes` | src/bin/maelstrom_node.rs:235-263 | a taken command is proposed; a refused one goes out as one line from this node to the name that parses to the leader's id, or into the buffer when there is no leader or it has this node's name |
| `Node.LeaderForwardsIff` | src/bin/maelstrom_node.rs:242-256 | a leader whose append is refused forwards to its own id if and only if its name is not canonical |
| `Node.TickConserves` | src/bin/maelstrom_node.rs:409-417 | a tick loses and duplicates no buffered command |
| `Node.TickKeepsOrder` | src/bin/maelstrom_node.rs:409-417 | what goes back into the buffer is the refused, unforwarded subsequence in its old order |
| `Node.ForwardsOnlyToOthers` | src/bin/maelstrom_node.rs:242-256 | a canonical node forwards if and only if the leader is another node, and never to itself |
| `Node.ProcessCatchesUp` | src/bin/maelstrom_node.rs:298-322 | a node in step with the log is in step at the higher index afterwards, and writes exactly the answers it owes for the positions in between |
| `Node.BatchingInvisible` | src/bin/maelstrom_node.rs:298-322 | for any sequence of decided indices, store and answers are those of one pass up to the highest |
| `Node.ReplayRepeatsAnswers` | src/bin/maelstrom_node.rs:298-406 | a replica replaying a grown log from index 0 first repeats its earlier answers word for word |
| `Harness.Recorder.SendOperation` | src/bin/jepsen_harness.rs:539-597 | a fresh id, the invocation appended under it, the matching message out; no id is ever invoked twice |
| `Harness.Recorder.RecordResponse` | src/bin/jepsen_harness.rs:635-676 | the answer appended under the id it replies to; codes 20 and 22 are failures, other errors indeterminate, only reads carry a value |
| `Harness.RequestRoundTrip` | src/bin/maelstrom_node.rs:201-232 | the node takes the harness's message for exactly the call it was sent for, under its id and client; an unknown type gets error 10 |
| `Harness.BareRequest` | src/bin/maelstrom_node.rs:201-232 | a request without its fields is taken with the empty key and null values |
| `Harness.RecordedAs` | src/bin/jepsen_harness.rs:635-676 | an answer leaves its operation indeterminate if and only if it is an error other than 20 and 22, and carries a value if and only if it is a successful read |
| `Cluster.Conservation` | src/bin/maelstrom_node.rs:201-417 | in every step the commands in flight, buffered, proposed and logged balance, counted with multiplicity, against one new invocation and the losses (network, dropped proposals, a crashed buffer) |
| `Safety.StepKeepsInv` | src/bin/maelstrom_node.rs:201-417 | every step keeps the invariant: replicas in step, commands unique, every command invoked, every answer justified, every recorded answer explained by the log |
| `Safety.RunKeepsInv` | src/bin/maelstrom_node.rs:201-417 | the invariant holds in every state of every run |
| `Safety.RunConserves` | src/bin/maelstrom_node.rs:201-417 | over every run, what was ever invoked is in flight, buffered, proposed or logged, or was lost, each command counted exactly |
| `Safety.OnlyApplyAnswers` | src/bin/maelstrom_node.rs:494-535 | no step but applying the log ever writes an answer |
| `Safety.AtMostOnce` | src/bin/maelstrom_node.rs:235-270 | in every reachable state a command is in at most one place, and no id is in the log twice |
| `Safety.ReplicasAgree` | src/bin/maelstrom_node.rs:298-406 | every store is the replay of one log up to the node's index, so equal indices mean equal stores |
| `Safety.AnswersAreSequential` | src/bin/maelstrom_node.rs:325-406 | every answer is, for ever, the sequential result of its command at its log position, from its coordinator to its client |
| `Safety.OnlyItsAnswer` | src/bin/maelstrom_node.rs:325-406 | in every run, restarts included, nothing but that one answer is ever said in reply to a logged command |
| `Safety.LaterIsNotLogged` | src/bin/jepsen_harness.rs:539-597 | a command invoked later is in no earlier log |
| `Safety.RecordedInTime` | src/bin/jepsen_harness.rs:539-676 | in every run the recorded times never run backwards and never ahead of the clock |
| `Safety.RealTimeOrder` | src/bin/maelstrom_node.rs:201-406 | a command answered before another one entered the log precedes it there for ever |
| `Answering.AnswersInLogOrder` | src/bin/maelstrom_node.rs:298-406 | without restarts, what each node has written is in order the answers its applied prefix calls for, no more and no fewer |
| `Answering.AnsweredExactlyOnce` | src/bin/maelstrom_node.rs:298-406 | without restarts, a logged command has exactly one answer once its coordinator has applied it and none before |
| `Answering.AnswersCounted` | src/bin/maelstrom_node.rs:298-406 | in every run, restarts included, the answer to a logged command has been written exactly as often as its coordinator's index has passed it |
| `LogAnswers.AnswersDetermined` | src/bin/maelstrom_node.rs:325-406 | the nodes' answers are the only sequence in which every write is acknowledged, a read or compare-and-swap of a key without a value gets 20, a read gets the last value left on its key, and a compare-and-swap succeeds on the value it expects and gets 22 on any other |
| `LogAnswers.CommandsWereAsked` | src/bin/maelstrom_node.rs:201-232 | every command anywhere in a run is what some client asked the coordinating node for |
| `LogAnswers.AnswersAreRight` | src/bin/maelstrom_node.rs:325-406 | in every run every answer goes from the node that was asked to the client that asked, under the id of the request, and says what the log calls for there |
| `Forwarding.ForwardsAreAddressed` | src/bin/maelstrom_node.rs:235-270 | in every run every forward in flight is addressed to a leader that some refused append named |
| `EndToEnd.AnswerMatchesModel` | src/bin/jepsen_harness.rs:77-121 | whatever the store, the checker's model accepts a recorded answer if and only if the node's own answer is recorded the same, and then both move to the same store; the recorded times are those of call and answer |
| `EndToEnd.LogOrderIsRealTime` | src/bin/jepsen_harness.rs:539-676 | what is logged earlier was invoked before the later command's recorded completion |
| `EndToEnd.LogIsHistory` | src/bin/jepsen_harness.rs:142-205 | the answered commands of the log are exactly the paired operations of the history |
| `EndToEnd.EveryRunPasses` | src/bin/jepsen_harness.rs:141-272 | every run, with any interleaving, losses, retries, batching and replay, has a linearizable history that the checker passes, provided no recorded read or compare-and-swap looks at a change whose own answer is not on record; a failed compare-and-swap for a value that nothing on record brings may look |
| `EndToEnd.FullyRecordedRunPasses` | src/bin/jepsen_harness.rs:141-272 | in particular every run in which all commands that changed the store have a recorded answer |
| `Completion.CompletionAdds` | src/bin/jepsen_harness.rs:142-205 | completing a history adds exactly one operation for each logged command without a recorded answer: its own invocation with the log's answer |
| `Completion.EveryRunIsLinearizable` | src/bin/maelstrom_node.rs:201-417 | every run, with no hypothesis on the record: the recorded operations together with the pending ones have a linearization, and the checker passes the completed history |
| `VisibleGaps.SeenGapRejected` | src/bin/jepsen_harness.rs:144-205 | a recorded read or successful compare-and-swap that looks at a change not on record is rejected, when the values left on a key tell its changes apart |
| `VisibleGaps.PassingRunSeesNoGap` | src/bin/jepsen_harness.rs:141-272 | with distinguishable values and within the depth bound, a run passes only if no recorded read or successful compare-and-swap looks at a change not on record |
| `VisibleGaps.RunPassesIff` | src/bin/jepsen_harness.rs:141-272 | the hypothesis of `EndToEnd.EveryRunPasses` is exact: if moreover failed compare-and-swaps on record look at such a change only for values that nothing on record brings, the run passes if and only if nothing else on record looks |
| `VisibleGaps.ReadWriteRunPassesIff` | src/bin/jepsen_harness.rs:141-272 | in particular for runs of reads and writes: they pass if and only if no recorded read looks at a change not on record |
| `LostAnswer.LostAnswerIsRejected` | src/bin/jepsen_harness.rs:144-205 | for any node, client, key and value, a run that is rejected because the answer to a write is never recorded while the read that saw it is, although it is linearizable with the pending write completed |
| `MaelstromSnapshot.MaelstromKVSnapshot.Create` | src/bin/maelstrom_node.rs:66-84 | the loop folds every command into the map, a compare-and-swap deciding on the map so far |
| `MaelstromSnapshot.MaelstromKVSnapshot.Merge` | src/bin/maelstrom_node.rs:86-90 | the delta's entries win, the others stay, in whatever order they are visited |
| `MaelstromSnapshot.CreatedIsReplay` | src/bin/maelstrom_node.rs:66-84 | a snapshot of a log is the store after applying the log |
| `MaelstromSnapshot.OtherEntriesIgnored` | src/bin/maelstrom_node.rs:310-321 | entries that are neither decided commands nor snapshots change nothing and are answered with nothing |
| `MaelstromSnapshot.InstallRefinesReplay` | src/bin/maelstrom_node.rs:310-321 | snapshot of a prefix plus the remaining entries gives the store of the whole log, the decided index, and only the answers owed for the remaining entries |
| `MaelstromSnapshot.MergeIsRightIff` | src/bin/maelstrom_node.rs:66-90 | a delta merges correctly onto every base if and only if each of its compare-and-swaps with different operands is on a key the delta also writes |
| `MaelstromSnapshot.StrayCasBreaks` | src/bin/maelstrom_node.rs:73-77 | any delta with a compare-and-swap on a key it does not write has a base onto which it merges wrongly |
| `KVSnapshot.Database.HandleCommand` | src/server/database.rs:13-25 | the new database, and nothing for a mutation or the key's value for a read; `Server.AnswerOnLog` says which value that is |
| `KVSnapshot.Snapshot.Create` | src/common.rs:77-100 | the live map is replay of the log; the tombstones are the bare deletes of keys that end up absent |
| `KVSnapshot.Snapshot.Merge` | src/common.rs:102-110 | base overridden by the delta's live keys, minus its tombstones; the tombstones are gone afterwards |
| `KVSnapshot.TombstonesAreDead` | src/common.rs:94-99 | no tombstone names a live key |
| `KVSnapshot.MergeOrderIrrelevant` | src/common.rs:102-110 | inserting then deleting is deleting then inserting |
| `KVSnapshot.TombstoneMeaning` | src/common.rs:77-100 | a key is a tombstone if and only if it ends absent and some delete of it comes first or follows a delete with no put between |
| `KVSnapshot.MergeIsRightIff` | src/common.rs:77-110 | merging gives the state after both logs if and only if every key live in the base and finally deleted in the delta has such a delete |
| `KVSnapshot.PutThenDeleteResurrects` | src/common.rs:86-89 | put and delete of one key inside a delta bring the base's value back |
| `KVSnapshot.ChainIsRight` | src/common.rs:102-110 | a chain of merges whose links meet the condition ends in the state of the whole log |
| `KVSnapshot.MergeFirstIff` | src/common.rs:102-110 | for every base, merging two deltas with each other first gives the same state as merging them one after the other if and only if the later one has no tombstones and leaves every tombstone of the earlier one live |
| `Server.OmniPaxosServer.UpdateDatabaseAndRespond` | src/server/server.rs:135-147 | the database runs through the batch and the coordinator's answers are appended in order |
| `Server.OmniPaxosServer.HandleDecidedEntries` | src/server/server.rs:114-133 | a higher index processes the batch, any other changes nothing |
| `Server.BatchIsReplay` | src/server/server.rs:114-147 | a batch takes replay of one prefix to replay of the longer one and sends exactly what is owed |
| `Server.AnswerOnLog` | src/server/server.rs:135-147 | a mutation is acknowledged to its client; a read carries the value of the put that last changed its key, or nothing when there is none or a delete came last |
| `Server.AnsweredOnce` | src/server/server.rs:135-147 | each command coordinated here has exactly one answer, at its rank, and it is the one for its log position |
| `Server.Serve` | src/server/server.rs:114-147 | for any sequence of decided indices the database is replay of the highest prefix and the messages are those it calls for |
| `Nemesis.NetworkSimulator.IsolateNode` | src/bin/jepsen_harness.rs:376-386 | cuts exactly the links between the node and all others, both ways |
| `Nemesis.NetworkSimulator.SplitBrain` | src/bin/jepsen_harness.rs:389-404 | cuts exactly the links between the two halves, both ways |
| `Nemesis.NetworkSimulator.HealAll` | src/bin/jepsen_harness.rs:407-410 | no partition is left; killed nodes stay killed |
| `Nemesis.NetworkSimulator.RestartNode` | src/bin/jepsen_harness.rs:417-420 | the node is off the killed list, the others keep their place |
| `Nemesis.RestartKeepsOthers` | src/bin/jepsen_harness.rs:417-420 | taking a node off the killed list leaves the others there in order |
| `Nemesis.NemesisDriver.Due` | src/bin/jepsen_harness.rs:751-818 | faults and full repairs alternate |
| `Nemesis.Drive` | src/bin/jepsen_harness.rs:751-818 | the driver taken through any sequence of choices ends in the state the sequence calls for, healthy when inactive and with a working majority when there are enough nodes |
| `Nemesis.OneFaultAtMost` | src/bin/jepsen_harness.rs:751-818 | every reachable state is healthy and inactive, or active with a single fault |
| `Nemesis.TakesTurns` | src/bin/jepsen_harness.rs:751-818 | the nemesis is active after exactly the odd actions, and never when there are no faults to inject |
| `Nemesis.EveryFaultHappens` | src/bin/jepsen_harness.rs:751-790 | each kind reaches its faults: isolating any node, splitting, killing any node |
| `Nemesis.IsolateSafeIff` | src/bin/jepsen_harness.rs:376-386 | isolating a node leaves a working majority unless there are exactly two nodes |
| `Nemesis.KillSafeIff` | src/bin/jepsen_harness.rs:412-415 | killing a node leaves one exactly from three nodes on |
| `Nemesis.SplitSafeIff` | src/bin/jepsen_harness.rs:389-404 | splitting leaves one exactly for an odd number of nodes |
| `Nemesis.AlwaysSafe` | src/bin/jepsen_harness.rs:751-818 | with enough nodes every reachable state leaves more than half of them alive and mutually connected |
| `Nemesis.SafeIff` | src/bin/jepsen_harness.rs:751-818 | enough nodes (odd for partitions, three for kills or all, one otherwise) is the exact condition |
| `Nemesis.AlwaysSymmetric` | src/bin/jepsen_harness.rs:364-420 | partitions cut both ways in every reachable state, and an inactive nemesis has left no fault |
| `Nemesis.DeliverMessages` | src/bin/jepsen_harness.rs:614-632 | client answers come back and node messages pass or are dropped; nothing reaches a name that is not a node |
| `Nemesis.ChosenInOrder` | src/bin/jepsen_harness.rs:614-632 | both selections take or drop each message where it stands, so order and repetitions stay |
| `Nemesis.FaultStops` | src/bin/jepsen_harness.rs:614-632 | a fault lets through exactly the messages it should: none to or from an isolated node, none between the halves of a split, none to a killed node, all others |
| `Nemesis.DeliveryInRun` | src/bin/jepsen_harness.rs:614-632 | the same in every reachable state; everything passes while the nemesis rests |
| `Nemesis.MajorityCommunicates` | src/bin/jepsen_harness.rs:614-632 | in every reachable state some majority hears every message its members send each other |

## Left out

- EndToEnd.EveryRunPasses: exact with distinguishable values, except for failed compare-and-swaps behind a gap that
  expect a value on record (`VisibleGaps.RunPassesIff`). Such a one passes or not depending on whether its window in
  real time reaches a point where another value holds, and with equal values another change can explain what looked
  at a gap, so there the condition is sufficient only.
- Server.OmniPaxosServer.HandleDecidedEntries: asks for decided commands only, because the server stops on any other
  entry.
- Safety.RealTimeOrder: "accepted" is stated as "entered the log", which is later than acceptance by a node, so the
  statement covers more pairs.
- OmniPaxos itself (elections, quorums, storage, `omnipaxos` messages): only its log contract is used. The restart
  step assumes that contract; whether OmniPaxos keeps it when a node comes back with empty in-memory storage is not
  claimed.
- When snapshots are taken: `use_snapshots` is off in the Maelstrom node, so its snapshot results are about code that
  is ready but not yet called.
- Liveness and time: ticks, sleeps, timeouts and rates; time is a clock that never runs backwards.
- JSON text, standard input and output, processes, channels and TCP framing; a number in a JSON value is an integer.
- Non-string keys: a request's key is a string or missing.
- A write without a value or a compare-and-swap without operands in the harness: the program stops there, and the
  model's calls cannot express it.
- 64-bit wrap-around of operation and message ids, and of `n + 1` for the node name of 2^64 - 1, which the model
  treats as a refusal.
- The harness's `client_id` field, which the checker never reads.
- `route_messages`, which throws client answers away; runs may leave any answer unrecorded, and may also record one
  more than once.
- Messages between nodes in the cluster model are delivered once, lost or delayed at will; the partitions of
  `Nemesis.dfy` are one way of losing them.
- The final heal at the end of a harness run, which does not restart killed nodes.
- `append_to_log` of the TCP server and its start signals: the command record is passed on to OmniPaxos.
- The benchmark client, benchmarks, scripts and configuration.
