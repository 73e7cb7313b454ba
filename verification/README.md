# Interlook, modelled and proved

Interlook watches services on a container platform and brings each of them through a
configured chain of extensions (address allocation, load balancer, DNS). This project models
the three parts of it that carry the logic, in Dafny, and proves what they keep.

**The workflow engine** (`core/workflow.go`, `core/transition.go`, the sweep of
`core/server.go`). The configured steps become a line from `undeployed` to `deployed`. Each
service is an entry that walks this line up or down, moved by provider messages, provisioner
replies and a timed sweep.

- `Workflow` is the table of steps and the search through it; `Stops` shows that the search is
  "plus one" and "minus one" on the stops, the steps of the line that are not providers.
- `Entries` is the entry as a value and each `execute` as a function; a nested
  `we.transition.execute` is one more call of `Dispatch`. `Dispatching` says when the nesting
  ends, and `Outcomes` what it comes to.
- `Tracks` is an independent machine with no names, tables or nested calls: a position, a
  direction, "working" and "closed". The code simulates it.
- `Runs` and `StoreRuns` hold the theorems over whole runs, for one service and for the table;
  `Earning` proves that a service is not `deployed` without cause, and `Observed` says what each
  kind of message does in the plain fields of the entry and the texts of the configuration.
- `Core` holds the Go objects as classes, `WorkflowEntry` and `Server`, with their setters,
  `execute` methods, `mergeMessage`, and the sweep. `Server.Consistent` ties the mutable table
  and the channel to a run of everything that has happened, so each theorem about runs is one
  about the objects.

**The IP allocator** (`provisioner/ipam/ipalloc/ipalloc.go`). `Addresses` is the in-place
increment and the masked block (prefix notation: section 3.1 of RFC 4632), `AddressText` the
dotted text and the substring test, `IpAlloc` the class with its handler, `IpRuns` the
theorems over runs.

**Target weights** (`comm/message.go`, `provider/swarm/swarm.go`). `Weights` is
`SetTargetWeight` with its text keys and its unordered map, `Swarm` the loops that feed it.

`Text`, `Decimal` and `Powers` are the string, number and power-of-two facts underneath.

## How the model reads the code

- A message is merged and executed in one atomic step. The Go code runs `execute` in a
  goroutine of its own (`core/workflow.go:375`).
- The clock is read once per event. A time is a number of nanoseconds, and 0 is Go's zero
  time; `time.Time.Sub` saturates as in Go, so that a limit of the longest duration is never passed. A sweep that closes or removes entries visits the
  table in an arbitrary order.
- `nil` and empty slices differ, as they do under `reflect.DeepEqual`.
- A configuration is well-formed when its steps are distinct, of the form `type.name`, none is
  named like an end, and at least one is no provider. Messages come from the steps: the listener
  sets the sender to the name of the extension.
- `docs/docs/workflow.md:10` describes a controller that polls the entries. There is none in
  the code; the model follows the code.

## What does not hold

These are properties one could expect of the code and that it does not have. The members named
say exactly when it does have them, or what it does instead, for all inputs.

- A delete does not always end. At `undeployed`, `setNextStep` fails and leaves the transition
  at `providerDeleteState`, which is then executed again on the same entry
  (`core/transition.go:68-77`, `core/workflow.go:218-222`). `Dispatching.DispatchSettlesIff`,
  `Tracks.MergeFinishesIff`, `Runs.RepeatedDeleteEndsIff`.
- A delete does not always withdraw from every provisioner. From the stop of the entry down, all
  are asked if and only if the service is deployed, or that stop is in progress on the way up:
  `Runs.WithdrawsAllIff`, with `Runs.Withdrawal` for what is asked in every case. Two cases miss
  one. When the provisioner at stop p has answered with an error (`core/transition.go:95-99`), the
  delete starts at p-1 and p itself is never asked, `Runs.FailedStepIsSkipped`; with p the first
  stop the entry closes at `undeployed` and nobody was asked. And a second delete while stop p is
  asked to undeploy passes over p-1, `Runs.SecondDeleteSkips`.
- Work in progress does not imply a provisioner step. A late reply puts a closed entry back in
  progress at its end (`core/transition.go:113-117`): `Runs.WorksAtEndIff`.
- Deploy and undeploy mirror each other only when no provisioner comes before the provider
  that sends the add: `Runs.MirrorIff`.
- The guard "still under deployment" (`core/transition.go:48`) never stops an add:
  `providerState` has just put the state at the provider (`core/transition.go:25`), so every
  add arrives, `Outcomes.AddOutcome`.
- `SetTargetWeight` loses the tail of every host with a colon, and leaves the order of the
  targets open, so the same definition sent twice may compare as changed:
  `Weights.HostsSurviveIffColonFree`, `Weights.OutcomeUniqueIff`.
- Two matching ingress ports, such as one port over tcp and over udp, multiply the weights:
  `Swarm.WeightsAreTaskCountsIffOneMatch`.
- The scan of the block 0.0.0.0/0 does not end when it is full: `IpRuns.ScanEndsIff`,
  `IpRuns.ScanEndsIffRoom`.
- A block does not always take one service less than it has addresses: multicast addresses are
  passed over, and 224.0.0.0/3, whose network address is one of them, takes exactly 2^28:
  `IpRuns.CapacityInBits`.
- A second sweep at the same instant may change an entry when the clean-up delay is negative:
  `StoreRuns.SweepStableIff`.

## Model

| member | source | states |
|---|---|---|
| Workflow.InitWorkflow | core/workflow.go:31-67 | the configuration text becomes the configured steps numbered from 1, then `undeployed` with ID 0 and `deployed` with the last ID |
| Workflow.TypeIsPrefix | core/workflow.go:36-42 | for a step `type.name`, the type is `provider` exactly when the name starts with `provider.`, so the two ways in which the code recognises providers agree |
| Workflow.TableTabulates | core/workflow.go:51-62 | from a well-formed configuration the table lists every step of one valid line exactly once, although the list order is not the ID order |
| Workflow.IsLastStep | core/workflow.go:69-89 | true exactly for `undeployed` backwards and `deployed` forwards |
| Workflow.GetTransition | core/workflow.go:92-100 | close at the two ends, provider or provisioner by the name between them, nil for every other name |
| Workflow.NextIndex | core/workflow.go:119-140 | the nearest step strictly ahead in the chosen direction that is no provider: only providers lie between |
| Workflow.GetNextStep | core/workflow.go:104-143 | terminates, and over the unordered table gives that nearest step with its transition, or an error exactly when there is none, though the error of the recursive call is dropped |
| Stops.SearchFailsIff | core/workflow.go:115-135 | the search fails exactly for unknown names, forward from `deployed` and backward from `undeployed` |
| Stops.NextStop | core/workflow.go:104-143 | on the stops, forward is plus one, for every line |
| Stops.PreviousStop | core/workflow.go:104-143 | on the stops, backward is minus one, for every line |
| Stops.ForwardBackwardInverse | core/workflow.go:104-143 | one step forward from a gives b exactly when one step backward from b gives a |
| Stops.EntersAt | core/transition.go:19-25 | an add of a provider enters the stops at the first one after that provider, never at `undeployed` |
| Stops.StopTransition | core/workflow.go:31-62 | among the stops exactly the two ends close, and every other one is a provisioner |
| Dispatching.DispatchSettlesIff | core/transition.go:16-126 | for every entry on the line and every message, the nested calls end (within three) if and only if the message is not a provider's delete that finds the entry at `undeployed` |
| Dispatching.EndlessNeverSettles | core/transition.go:60-78 | such a delete never ends, whatever number of calls it is given |
| Dispatching.DispatchMonotone | core/transition.go:16-126 | the number of calls allowed does not influence an outcome once there is one |
| Outcomes.AddOutcome | core/transition.go:16-56 | an add, from any state at all, ends with the entry at the first stop after its sender: in progress with one request sent there, or closed when that stop is `deployed` |
| Outcomes.DeleteOutcome | core/transition.go:60-78 | a delete goes one stop on first when a stop is in progress, then one stop back, and arrives there on the way down |
| Outcomes.ReplyOutcome | core/transition.go:82-119 | a reply to an entry that is not in progress sends the request (again); from another sender it is dropped; with an error it stops the work and keeps the place; otherwise it takes the entry one stop further |
| Tracks.MergeSimulates | core/workflow.go:354-378 | for every entry with the invariant, and for none, a message does what the machine of positions does, sends exactly its requests with the service as the entry has it, and keeps the invariant: state a non-provider, closed exactly at an end and then at the expected one, WIP time exactly when in progress, and an error whenever an open entry is not in progress |
| Tracks.MergeFinishesIff | core/workflow.go:354-378 | merging ends if and only if the message is skipped or is no delete of an entry at `undeployed`; otherwise no number of calls is enough |
| Tracks.SweepSimulates | core/server.go:222-243 | the sweep keeps the invariant; a timeout puts the entry at the end of its way, everything else stays where it is, and what is removed is undeployed and not in progress |
| Runs.RunInvariant | core/workflow.go:263-270 | over every run of messages and sweeps: the invariant above, and while an entry is in progress the last message sent for it asks the step it is at, with a delete exactly when the entry is to be undeployed, through rollbacks, repeated adds and timeouts |
| Runs.AcceptedProgress | core/transition.go:102-112 | an error-free reply of the step asked brings the entry exactly one stop nearer to its end, without changing the direction, and closes it exactly when nothing is left |
| Runs.Deployment | core/transition.go:19-56 | from whatever state, an add that is not skipped and one error-free reply per request ask exactly the provisioners after the sender, with adds, in configured order, and close at `deployed`, for every workflow length |
| Runs.Withdrawal | core/transition.go:60-78 | a delete of whatever entry is not at `undeployed`, and one error-free reply per request: with q the stop where the delete arrives, exactly q, q-1 and so on down to the first provisioner are asked, with deletes, and the entry closes at `undeployed` |
| Runs.WithdrawsAllIff | core/transition.go:67-74 | these deletes go to every provisioner from the stop of the entry down, itself included, if and only if the service is deployed or that stop is in progress on the way up |
| Runs.BackFromCases | core/transition.go:67-74 | where a delete arrives, case by case: at p when p is in progress on the way up, at p-1 when nobody works, at p-2 when p is asked to undeploy, and at the last provisioner from `deployed` |
| Runs.FailedStepIsSkipped | core/transition.go:95-99 | after an error reply of stop p on the way up, a delete answered to the end asks p-1 down to the first provisioner, never p, and closes at `undeployed` |
| Runs.DeployThenUndeploy | core/transition.go:16-126 | an add answered to the end, then a delete answered to the end: the deletes go to all provisioners, last first; the adds are the reverse of that if and only if no provisioner precedes the provider |
| Runs.MirrorIff | core/workflow.go:104-143 | the steps asked on the way down are the reverse of those asked on the way up exactly when no provisioner precedes the provider |
| Runs.EntersFirstIff | core/workflow.go:104-143 | an add enters at the first provisioner exactly when only providers precede its sender |
| Runs.RepeatedDeleteEndsIff | core/transition.go:68-77 | a delete of any entry at `undeployed` ends, with nothing but a new time of update, exactly when it repeats the definition that the entry has |
| Runs.SecondDeleteSkips | core/transition.go:69-74 | a delete while stop p is asked to undeploy goes to p-2 without asking p-1, and closes at once when p is 1 or 2 |
| Runs.WorksAtEndIff | core/transition.go:113-117 | after a message an entry is in progress at an end exactly when it was at an end already and got a late reply there, or was in progress there and got no order |
| Runs.LastUpdateIs | core/workflow.go:202-206 | after every event the time of the last update is its time exactly for adds and skipped messages, and the former time otherwise, so a delete or a reply does not postpone the refresh |
| Runs.AddResets | core/transition.go:19-35 | two services in whatever states come out of the same add equal, with equal messages, but for the address, the provider text and the time of detection |
| Runs.RestartIsInvisible | core/workflow.go:371-375 | the transition field, which is not saved, never shows: two entries that differ in it alone send the same messages and stay equal in all saved fields over every run, and end together |
| Runs.LatestDefinitionWins | core/workflow.go:247-253 | over every run in which the entry is not cleaned up, its targets, TLS flag and aliases are those of the last provider message that is no delete, merged or skipped |
| Runs.LatestAddressWins | core/workflow.go:255-257 | over every such run in which senders whose name starts with `ipam.` send updates only, the address is that of the last of them |
| Runs.RunConcat | core/workflow.go:354-378 | a run of two histories is the run of the second from where the first ends, with the messages of both in order |
| StoreRuns.StoreRunProjects | core/workflow.go:354-378 | a run of the whole table is, for each service, the run of that service on its own messages and the sweeps, with its own messages sent: services do not interfere |
| StoreRuns.TableInvariant | core/workflow.go:184-243 | after every run from the empty table, every entry has the invariant and every service in progress was last asked for the right thing at the right step |
| StoreRuns.StoreStepEndsIff | core/workflow.go:354-378 | at every table with the invariant, an event is handled to its end exactly when it is a sweep or a message that finishes |
| StoreRuns.RestartOfTableIsInvisible | core/workflow.go:371-375 | two tables that differ in the transition fields alone send the same messages in the same order, for all services together, and stay equal in all saved fields, over every run |
| Earning.DeployedIsEarned | core/transition.go:82-119 | after every run from nothing, of a service that is `deployed` without an error: since its last entrance, at some stop, exactly the provisioners from there on were asked, with adds and in order, and each has answered without an error, in order, with no add or delete between but skipped ones; only a late reply adds a request to `deployed` |
| Earning.UpwardIsEarned | core/transition.go:82-119 | an entry to be deployed, without an error, has an entrance, and each stop that it has left since was asked and has answered |
| Earning.DeployedInTableIsEarned | core/workflow.go:354-378 | for each service of the table that is `deployed` without an error, on the events that concern it: since its last entrance exactly the provisioners from there on were asked, in order, and each has answered without an error |
| Earning.ErrorStays | core/transition.go:95-99 | an entry without an error after a message entered anew or had none before, and the message was neither an error reply of the step asked nor an unhandled action |
| Observed.AddIsSkippedIff | core/workflow.go:356-360 | an add does nothing but set the time of the last update if and only if the service is deployed, is to be, and has the targets, TLS flag and aliases of the message |
| Observed.AddDoes | core/transition.go:19-55 | every other add, for a new service too: the entry comes to the nearest step after the sender that is no provider, in progress since now with one add request there, or closed now at `deployed`, with the definition and the error of the message |
| Observed.ReplyDoes | core/transition.go:82-119 | a provisioner's reply that is not skipped, field by field: asked again, dropped, error noted, or on to the nearest step in the direction of the entry; the address changes exactly for a sender that starts with `ipam.` |
| Observed.ReplyIsHeard | core/workflow.go:306-315 | at an open step no reply is skipped, whatever its action |
| Observed.StrayReplyDoes | core/workflow.go:365-375 | a reply about a service that is not tracked creates an entry at the first provisioner and asks it |
| Observed.DeleteDoes | core/transition.go:60-78 | a delete of what is not undeployed, field by field: to the step itself when it is in progress on the way up, to the step before when nobody works or the service is deployed, and two steps back when it is in progress on the way down |
| Observed.StrayDeleteDoes | core/workflow.go:365-375 | a delete of a service that is not tracked creates an entry that is undeployed and closed at once, with nothing sent |
| Observed.UnhandledDoes | core/transition.go:28-32 | a provider message with another action leaves the entry where it is, with the definition and an error that names the action |
| Observed.StepTimes | core/workflow.go:184-193 | an event sends at most one message, and then the work starts at its time; work that goes on keeps its time, and a new time of closing is that of the event |
| Observed.WorkSince | core/workflow.go:263-270 | after every run, an entry in progress carries the time of the event that sent its last request, and nothing was sent since, so that a timeout counts from that request |
| StoreRuns.SweepDoes | core/server.go:222-243 | the sweep removes exactly the undeployed entries that are not in progress and whose closing is more than the clean-up delay ago; exactly those in progress for more than the timeout change, to closed at the expected end with the timeout text; afterwards no entry is in progress for longer |
| StoreRuns.RefreshAsksIff | core/server.go:229-235 | a sweep asks for a refresh of exactly the deployed services whose last update is more than the limit ago, each once |
| Store.SubPasses | core/server.go:225 | the saturated difference of two times passes a limit exactly when the true one does and the limit is not the longest duration |
| StoreRuns.SweepStableIff | core/server.go:222-243 | a second sweep at the same instant changes an entry exactly when the first one timed it out on the way down and the clean-up delay is negative |
| StoreRuns.SweepTwice | core/server.go:222-243 | with a clean-up delay that is not negative, a second sweep at the same instant changes nothing in the table |
| Core.WorkflowEntry.constructor | core/workflow.go:169-176 | a new entry: at the first stop after `undeployed`, to be deployed, not in progress |
| Core.WorkflowEntry.SetError | core/workflow.go:178-182 | the error changes and nothing else |
| Core.WorkflowEntry.SetWIP | core/workflow.go:184-193 | the flag changes, with the time set or cleared, and nothing else |
| Core.WorkflowEntry.SetTargetState | core/workflow.go:195-199 | the expected state changes and nothing else |
| Core.WorkflowEntry.SetLastUpdate | core/workflow.go:202-206 | the time of the last update changes and nothing else |
| Core.WorkflowEntry.SetTransition | core/workflow.go:209-213 | the transition becomes that of the step on the line, and nothing else changes |
| Core.WorkflowEntry.SetNextStep | core/workflow.go:216-233 | the entry moves to the nearest stop in its direction with its transition, no longer in progress or closed; when there is none, nothing changes |
| Core.WorkflowEntry.SetState | core/workflow.go:236-243 | state, flag and error come from the message, the close time is cleared, and the WIP time stays |
| Core.WorkflowEntry.UpdateService | core/workflow.go:247-261 | a sender that starts with `provider.` sets targets, TLS and aliases unless it deletes, one that starts with `ipam.` the address, and everyone the name |
| Core.WorkflowEntry.Close | core/workflow.go:273-295 | not in progress, at the end of its direction, closed now, with a new error only if one is given |
| Core.Server.constructor | core/server.go:79-85 | the empty table over the workflow of a well-formed configuration is consistent |
| Core.Server.SendToExtension | core/workflow.go:263-270 | one message goes out, to the state of the entry, with its service, and the entry is in progress |
| Core.Server.Execute | core/transition.go:10-12 | the nested calls on the mutable entry have the outcome of the dispatch, and the channel grows by its messages |
| Core.Server.ExecuteProvider | core/transition.go:16-36 | from a provider step, the nested calls on the mutable entry have the outcome of the dispatch: add and delete go on, every other action only notes an error |
| Core.Server.ExecuteProviderAdd | core/transition.go:40-56 | the two guards and the step forward on the mutable entry, with the calls they nest, have the outcome of the dispatch |
| Core.Server.ExecuteProviderDelete | core/transition.go:60-78 | the step forward when in progress, the turn and the step back on the mutable entry, with the calls they nest, have the outcome of the dispatch |
| Core.Server.ExecuteProvisioner | core/transition.go:82-119 | the drop, the error, the last step and the request to the next one on the mutable entry have the outcome of the dispatch, with the channel grown by exactly its messages |
| Core.Server.ServiceNeedUpdate | core/workflow.go:332-351 | false exactly for a known service with the same targets, TLS flag and aliases that is `deployed`, is to be, and gets an add, or is `undeployed`, is to be, and gets a delete |
| Core.Server.MergeMessage | core/workflow.go:354-378 | the table changes at the service of the message only, and there as merging says; the channel grows by the messages of the merge |
| Core.Server.SweepOne | core/server.go:223-242 | one entry is removed, closed or left, the others stay, and its provider is asked for a refresh exactly when it is deployed and the last update is too old |
| Core.Server.Sweep | core/server.go:222-243 | in any iteration order, with deletions and changes in place, the table becomes one pointwise image of what it was, and each deployed entry that is too old is asked for once |
| Core.Server.HandleMessage | core/workflow.go:354-378 | the server stays consistent with its history, now longer by the message |
| Core.Server.Listen | core/server.go:188-206 | the message is tagged with the extension and its targets are weighted before it is merged, for every message that finishes however the weighting orders the targets |
| Core.Server.Housekeep | core/server.go:219-243 | the server stays consistent with its history, now longer by the sweep |
| Comm.IsSameThan | comm/message.go:84-103 | the same exactly when targets, TLS flag and aliases are equal, and the list names exactly the fields that differ |
| Weights.SetTargetWeight | comm/message.go:35-53 | the result is what the second loop gives for some iteration order of the map of counts |
| Weights.WeightingIsTally | comm/message.go:35-53 | for hosts without a colon, every result is, as a set, one target per distinct host and port weighted by its number of occurrences, without repetition |
| Weights.WeightsAddUp | comm/message.go:35-53 | for all hosts, the weights add up to the number of targets |
| Weights.OrderIsIrrelevant | comm/message.go:35-53 | for hosts without a colon, the result as a set depends neither on the order of the targets nor on that of the map |
| Weights.PermutedTargets | comm/message.go:39-41 | a permutation of the targets has the same number of each host and port, so the two statements together say that permuting the input changes nothing but the order |
| Weights.HostsSurviveIffColonFree | comm/message.go:44-51 | every target keeps its host and port in the result if and only if no host has a colon |
| Weights.OutcomeUniqueIff | comm/message.go:43-51 | for all hosts, the resulting list is the same for every iteration order if and only if all keys are rebuilt to the same target |
| Weights.OutcomeUniqueIffOneTarget | comm/message.go:43-51 | for hosts without a colon, the resulting list is the same for every iteration order if and only if no two targets differ in host or port |
| Decimal.AtoiItoa | comm/message.go:40-45 | a port printed into a key is parsed back as it was |
| Decimal.PrintedIsNumber | provider/swarm/swarm.go:310 | a printed number, with or without a sign, is accepted exactly within 64 bits |
| Decimal.NoNumber | provider/swarm/swarm.go:310 | a text that is empty or has a character that is no digit, other than a sign in front, is no number and has value 0 |
| Swarm.GetTaskPublishInfo | provider/swarm/swarm.go:246-263 | one item per task with a resolved node, in order, with the last port that the task publishes |
| Swarm.AddIngress | provider/swarm/swarm.go:327-343 | ranging over the list while it grows appends exactly one copy of each former item per matching port |
| Swarm.OneIngressPort | provider/swarm/swarm.go:327-343 | when exactly one port has the target port of the label and ingress mode, the list becomes itself and one copy of each item with that port |
| Swarm.OtherPortAddsNothing | provider/swarm/swarm.go:328 | a port with another target port or another mode, wherever it stands in the list, adds nothing |
| Swarm.OneIngressPortTargets | provider/swarm/swarm.go:327-353 | with exactly one such port, the message has each node address on its published port once per task on the node, and besides only what tasks publish themselves |
| Swarm.CollectTargets | provider/swarm/swarm.go:345-353 | the items with a published port become targets, in order |
| Swarm.BuildMessageFromService | provider/swarm/swarm.go:297-356 | an error exactly for a port label that is no number, or for a service without ports, with the message without targets beside it; otherwise the add message with these targets, and in every case with this name, provider, TLS flag and list of aliases |
| Swarm.ExpandedLength | provider/swarm/swarm.go:327-343 | m matching ingress ports multiply the list by 2^m |
| Swarm.PublishedOn | provider/swarm/swarm.go:246-262 | the list has as many items on a node address as there are tasks whose node has it |
| Swarm.PublishedAt | provider/swarm/swarm.go:253-261 | the list has as many items on a node address and port as there are tasks of that node whose last own port is published as this |
| Swarm.ExpandedAt | provider/swarm/swarm.go:327-343 | for every list of ports, how many items a node address and port has after the loop |
| Swarm.WeightFormula | provider/swarm/swarm.go:327-353 | the weight of a node and port after `SetTargetWeight`: the tasks of the node that publish the port themselves, plus the number of its tasks times the copies that carry the port |
| Swarm.OnePortWeighsTasks | provider/swarm/swarm.go:327-353 | with one matching ingress port and no port published by the tasks, the weight of a node is the number of tasks whose node resolves to it |
| Swarm.ShareDoubles | provider/swarm/swarm.go:327-343 | when the matching ports have distinct published ports, the (j+1)-th of them carries 2^j copies of the tasks |
| Swarm.WeightsAreTaskCountsIffOneMatch | provider/swarm/swarm.go:327-353 | for a node with tasks, the weight on every matching port is their number if and only if at most one port matches and no task of the node publishes that port itself, also when two matching ports have the same published port |
| Addresses.IncrementIP | provisioner/ipam/ipalloc/ipalloc.go:48-55 | the carry loop turns the bytes, in place, into those of the recursive increment |
| Addresses.IncrementValue | provisioner/ipam/ipalloc/ipalloc.go:48-55 | the increment is plus one modulo 256 to the number of bytes, on the value of the bytes |
| Addresses.BlockIsRange | provisioner/ipam/ipalloc/ipalloc.go:154 | for every prefix, the addresses that match the masked network are exactly a range of 2^(bits left) values from the network address on |
| AddressText.DottedInjective | provisioner/ipam/ipalloc/ipalloc.go:39-46 | two addresses with the same text are the same, so comparing texts compares addresses |
| AddressText.DottedParts | provisioner/ipam/ipalloc/ipalloc.go:160 | the text of an address has four parts, the bytes in order, in decimal |
| AddressText.OccurrenceBytes | provisioner/ipam/ipalloc/ipalloc.go:156 | where the text of an address occurs in the text of a block, the middle bytes agree and the outer ones are not greater |
| AddressText.TextTestIsNetwork | provisioner/ipam/ipalloc/ipalloc.go:154-158 | among the addresses of the block, the substring test holds of the network address and of no other |
| IpAlloc.Scan | provisioner/ipam/ipalloc/ipalloc.go:154-167 | the least address from a point on that is in the block, not the network address, not multicast (section 4 of RFC 1112) and not recorded; none exactly when every such address is recorded |
| IpAlloc.IPAlloc.IsIPFree | provisioner/ipam/ipalloc/ipalloc.go:39-46 | true exactly when no record has the text of the address |
| IpAlloc.IPAlloc.ServiceExist | provisioner/ipam/ipalloc/ipalloc.go:197-204 | true exactly when the first record of that host exists |
| IpAlloc.IPAlloc.GetServiceByName | provisioner/ipam/ipalloc/ipalloc.go:139-146 | the first record of the host, or the empty record |
| IpAlloc.IPAlloc.DeleteService | provisioner/ipam/ipalloc/ipalloc.go:129-137 | the first record of the host goes, the others keep their order, and failure changes nothing |
| IpAlloc.IPAlloc.PassedOver | provisioner/ipam/ipalloc/ipalloc.go:156-158 | the test on texts passes over exactly the addresses of the block that may not be given out |
| IpAlloc.IPAlloc.Usable | provisioner/ipam/ipalloc/ipalloc.go:156-159 | the body of the loop takes an address exactly when it may be given out and no record has it |
| IpAlloc.IPAlloc.FirstFree | provisioner/ipam/ipalloc/ipalloc.go:154-167 | the loop with the address incremented in place ends and finds the least address that may be given out and is free |
| IpAlloc.IPAlloc.AddService | provisioner/ipam/ipalloc/ipalloc.go:148-169 | exactly that address is recorded and returned; an error changes no record |
| IpAlloc.IPAlloc.Handle | provisioner/ipam/ipalloc/ipalloc.go:72-118 | one message changes the records and gives the reply that the handler on the list specifies, error cases included |
| IpRuns.Enumerates | provisioner/ipam/ipalloc/ipalloc.go:48-55 | the n-th increment of the network address is the n-th address of the block |
| IpRuns.LeavesBlock | provisioner/ipam/ipalloc/ipalloc.go:154 | after the last address the increment leaves the block, for every prefix of at least 1 |
| IpRuns.ScanEndsIff | provisioner/ipam/ipalloc/ipalloc.go:154-168 | the loop stops if and only if the prefix is at least 1 or some address that may be given out is in no record |
| IpRuns.ScanEndsIffRoom | provisioner/ipam/ipalloc/ipalloc.go:154-168 | for records with the invariant, the loop stops if and only if the prefix is at least 1 or there are fewer records than the block takes |
| IpRuns.ServeKeepsInv | provisioner/ipam/ipalloc/ipalloc.go:72-118 | each message keeps hosts distinct, addresses distinct, and every address one that may be given out |
| IpRuns.ServeRefinesMap | provisioner/ipam/ipalloc/ipalloc.go:72-118 | on the list a message does what the handler on a map from hosts to addresses does, with the same reply |
| IpRuns.RunRefinesMap | provisioner/ipam/ipalloc/ipalloc.go:64-120 | over every run from any records with the invariant, the list keeps the invariant and gives exactly the replies and the final table of the handler on a map |
| IpRuns.FullIff | provisioner/ipam/ipalloc/ipalloc.go:168 | no address is left exactly when there are as many records as addresses that may be given out |
| IpRuns.CapacityOfBlock | provisioner/ipam/ipalloc/ipalloc.go:148-169 | a /m block without multicast addresses is full exactly at 2^(32-m) - 1 records |
| IpRuns.CapacityOfEveryBlock | provisioner/ipam/ipalloc/ipalloc.go:148-169 | every block is full exactly at its capacity, and never beyond it |
| IpRuns.CapacityInBits | provisioner/ipam/ipalloc/ipalloc.go:154-158 | the capacity of a /m block: 2^(32-m) - 1 without multicast addresses, 0 inside 224.0.0.0/4, 2^28 for 224.0.0.0/3, and 2^(32-m) - 2^28 - 1 for the wider blocks that hold it |
| IpRuns.EligibleMeans | provisioner/ipam/ipalloc/ipalloc.go:154-158 | the addresses that may be given out agree with the configured one in the leading m bits, have another bit set, and are not in 224.0.0.0 to 239.255.255.255 |
| IpRuns.GivesLeast | provisioner/ipam/ipalloc/ipalloc.go:154-165 | the text recorded and returned reads, part by part, as the least such number that no recorded text reads as |
| IpRuns.ServeGives | provisioner/ipam/ipalloc/ipalloc.go:108-117 | a new service gets that address and a record of it, or the error "no available IPAM" and no record exactly when the block is full |
| IpRuns.ServeRepeats | provisioner/ipam/ipalloc/ipalloc.go:97-106 | a service with a record gets its address again and no record changes |
| IpRuns.ServeDeletes | provisioner/ipam/ipalloc/ipalloc.go:76-90 | a delete removes one record of the service and clears the address, or is answered with an error that names the service |
| IpRuns.ServeWithoutBlock | provisioner/ipam/ipalloc/ipalloc.go:149-153 | a block that does not parse is answered with that error, and no record changes |
| IpRuns.AddressIsStable | provisioner/ipam/ipalloc/ipalloc.go:91-106 | over every run without a delete of its own, a service keeps its address and gets it in every reply |
| IpRuns.AddressesAreExclusive | provisioner/ipam/ipalloc/ipalloc.go:148-169 | after every run no two services have the same address, and each has one that may be given out |

## Left out

- Goroutines, channels that block, mutexes, wait groups, signals and shutdown: the atomic step stands for them, and nothing is said about deadlock.
- A clock that moves during one message or one sweep.
- HTTP, YAML, logging and generated code (`core/api.go`, `config/config.go`, `log/logger.go`, `gen.go`), and the log lines of the code modelled.
- Saving and loading of entries and records, beyond the transition field that is not saved; a loaded list of records is covered only if it has the invariant.
- The provisioners for load balancers and DNS, and the Kubernetes provider: their state is behind clients that are not part of this model.
- `IPStart` and `IPEnd`, which the allocator does not use, the broadcast address, which it does not exclude, and IPv6 blocks.
- The parsing of the block text: its result, or its error, is a parameter of the allocator.
- The field `Info` of an entry, which no code sets, and the name and protocol of a port, which no result depends on.
- Configurations of providers alone: a new entry then stands at `deployed` with no close time, and no provisioner is ever asked.
- Which provider gets the refresh request, and what happens when it cannot be sent.
- `mergeMessage` with a sender that is no step: the listeners are those of the configured extensions.
- Swarm.GetTaskPublishInfo: does not model the calls to the Docker API, because their answers are parameters; a failed task list is an absent one.
- Weights.SetTargetWeight: works on the list of targets and not on the message in place, because the rest of the message stays.
- Core.Server.HandleMessage: requires that the message is skipped or is no delete of what is undeployed, because the code does not end on such a delete (`Tracks.MergeFinishesIff` is the exact condition).
- IpAlloc.IPAlloc.Handle: requires that the scan ends when an address has to be found, because the code does not end otherwise.
- IpRuns.RunRefinesMap: on the block 0.0.0.0/0, fully taken, the run replies with an error where the code does not end.
- Runs.LatestAddressWins: requires that ipam replies with the update action, because that is the one it sends (`provisioner/ipam/ipalloc/ipalloc.go:77`, `provisioner/ipam/ipalloc/ipalloc.go:95`); a reply with another action could be skipped.
