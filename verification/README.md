# Verification of the playground

The playground turns a *recipe* into a running local Ethereum network. A recipe builds a *manifest* of services with fluent
builder calls; argument and environment texts are written in a small template language in which a service names its own
ports (`{{Port ..}}`, `{{PortUDP ..}}`) and the ports of others (`{{Service ..}}`). A first pass over the texts collects
declarations and references, `Validate` checks that they are closed, and the *local runner* reserves host ports, decides
which services run in docker and which on the host, and resolves every text a second time. This project models that
pipeline and the smaller machines around it, and proves what they promise for every manifest, every run and every
behaviour of the operating system.

Code that updates objects is modelled by classes and loops proved against functions on values; the results about those
functions are lemmas. An early return with `ok == false` or `None` stands for a panic or an error. Maps are iterated in an
arbitrary order (`:|`), as Go does.

| file | what it holds |
|---|---|
| `Text.dfy`, `Template.dfy` | strings and numerals; scanner, printer and first pass of the template language |
| `ServiceSpec.dfy`, `BuilderCalls.dfy`, `Manifests.dfy` | builder calls and validation as functions; what whole sequences of calls come to; the service and manifest objects that refine them |
| `Allocation.dfy` | the host-port allocator: first fit, injectivity, pigeonhole |
| `Resolution.dfy`, `Wiring.dfy` | the second pass; where a resolved address leads |
| `LocalRunner.dfy`, `Deployment.dfy` | the runner object; the way from a manifest to running services, end to end |
| `JsonMerge.dfy`, `JsonHeap.dfy`, `ForkSchedule.dfy` | the recursive override on values and in place; the L2 documents and their fork time |
| `Readiness.dfy`, `Watchers.dfy` | the readiness machine with its failure queue; the slot watchers |
| `Contender.dfy`, `ClProxy.dfy`, `EnodeKeys.dfy` | flag parsing; the Engine API multiplexer; the key sequence |

Main results: `Deployment.Cook.RunIt` and `Deployment.ConnectionArrives` (a validated manifest never fails to resolve, and
every connection string reaches the port its target listens on), `Wiring.WiringExact`, `Allocation.RoomAllocates` with `LocalRunners.LocalRunner.ReserveAll`,
`JsonHeap.MergeMap` with `JsonHeap.MergeTreeRefines` and `JsonMerge.MergeAssociativeExact`, `Readiness.RunKeepsInv`,
`Watchers.AcceptedExactly`, `ForkSchedule.ScheduleExact`, `Contender.ContenderRoundTrip` and `ClProxy.SecondaryNeverBuilds`.

## What turned out false

Each comes with an input that fails and with the exact condition under which the code does what is expected.

- A label registered under both protocols is looked up by name only; a host client that dials a container gets the host
  port of the first registration and misses the other protocol (`Wiring.MiswiredLabel`; exactly: `Wiring.WiringExact`).
- Re-printing a template loses its meaning when the text contains `&#34;` (`Template.EscapedQuoteIsLost`; exactly:
  `Template.FirstPassStable`).
- Two container services of one name share one compose entry, so one is lost (`LocalRunners.ContenderAddedTwice`;
  exactly: `LocalRunners.LaunchConservation`).
- A container that depends on a service run on the host depends on nothing in the compose file
  (`LocalRunners.DependencyOnHost`; exactly: `LocalRunners.DependenciesPresentExactly`).
- The fork time wraps around at 64 bits (`ForkSchedule.ScheduleCanWrap`; exactly: `ForkSchedule.ScheduleExact` for all
  blocks, `ForkSchedule.GenesisHeaderExactly` for the genesis header).
- JSON merging is not associative (`JsonMerge.MergeNotAssociative`; exactly: `JsonMerge.MergeAssociativeExact`).
- With two failures unread, a third die event blocks the updater while it holds the mutex, and a readiness check that
  waits for it never returns (`Readiness.DeadlockReachable`, `Readiness.DeadlockIsPermanent`; exactly:
  `Readiness.UpdaterBlocksExactly`, `Readiness.OnlyDeadlockBlocksReader`).
- A forkchoice call without parameters makes the multiplexer panic (`ClProxy.EmptyForkchoicePanics`; exactly:
  `ClProxy.ClProxy.HandleRequest`).
- After the largest 64-bit slot the watcher also accepts slot 0, and any slot after that (`Watchers.LimitMatters`;
  exactly: `Watchers.LimitExact`); for slots 0 and 1 it also accepts parents whose difference wraps
  (`Watchers.ParentOkExact`).

## Model

| member | source | states |
|---|---|---|
| Text.ShowNatValue | playground/manifest.go:492-495 | a printed number reads back as itself |
| Text.ShowNatInjective | playground/artifacts.go:740 | different numbers are printed differently |
| Template.ScanPrintExactly | playground/manifest.go:489-499 | what the first pass prints scans back to every literal and action, in order, if and only if the template is well formed: fields need no escaping, numbers fit, and literals do not run into braces |
| Template.ScanWellFormed | playground/manifest.go:502-511 | whatever parses has a canonical printed form, never longer than the original |
| Template.SpacedPort | playground/manifest.go:502 | blanks, tabs and line breaks between the parts of a declaration do not matter |
| Template.ConnectRawExactly | playground/artifacts.go:405-412 | a connection string scans as one reference with exactly its four fields if and only if none of them needs escaping |
| Template.FirstPassStable | playground/manifest.go:465-517 | the first pass is idempotent, and its text scans to the same actions, if and only if the original text holds no escaped quote |
| Template.FirstPassPanicsExactly | playground/manifest.go:476-510 | the first pass panics exactly on a text that is no template and on a reference without service or port; protocol and user may be empty |
| Template.ConnectPasses | playground/artifacts.go:405-424 | so a connection string with plain fields passes exactly if it names a service and a port, and is recorded as that reference |
| Template.ScanEscaped | playground/manifest.go:513-514 | a text holds an escaped quote exactly when a literal or a field of the template does, so printing neither adds nor removes one |
| Template.EscapedQuoteIsLost | playground/manifest.go:513-516 | a connection string with an escaped quote as its user reads differently after the first pass |
| ServiceSpec.PortConflictExact | playground/manifest.go:378-403 | a sequence of declarations panics exactly when one has an unsupported protocol or two give one name different numbers |
| ServiceSpec.PortOrderIrrelevant | playground/manifest.go:389-403 | success and the final set of ports do not depend on order or repetition, and there are no duplicates |
| ServiceSpec.RedeclareIdempotent | playground/manifest.go:391-401 | declaring ports that are there changes nothing |
| ServiceSpec.DeclareAllKeeps | playground/manifest.go:378-403 | declaring keeps one number per name and one entry per name and protocol, never removes or reorders a port, and adds exactly what was declared |
| ServiceSpec.FindPort | playground/manifest.go:328-335 | the first port of that name, none exactly when there is none |
| ServiceSpec.FindService | playground/manifest.go:139-146 | the first service of that name, none exactly when there is none |
| ServiceSpec.PieceCollected | playground/manifest.go:476-500 | every action of a template leaves its declaration or reference behind |
| ServiceSpec.CollectedPiece | playground/manifest.go:476-500 | and nothing else is recorded: a reference or declaration comes from an action of its kind with its fields |
| ServiceSpec.ActionsCounted | playground/manifest.go:476-500 | each action is recorded once |
| ServiceSpec.RefsAddUp | playground/manifest.go:411-414 | references are recorded in the order of the text |
| ServiceSpec.ApplyOpKeeps | playground/manifest.go:342-463 | each builder call keeps: every text of the service parses, and its ports and references are recorded |
| ServiceSpec.BuiltServicesAreWellBuilt | playground/manifest.go:123-129 | the same for the finished service, whatever calls a component makes |
| BuilderCalls.CallsAddUp | playground/manifest.go:378-463 | a finished service holds the arguments, references and dependencies of all calls, first to last, and exactly the ports that calls and texts declare, tcp by default |
| BuilderCalls.LastCallWins | playground/manifest.go:342-463 | each environment key, label, file, volume, image, tag, entrypoint and ready check is what the last call that sets it says, and untouched if none does |
| ServiceSpec.NothingViolated | playground/manifest.go:151-210 | links and files are in order if and only if there is no violation to report |
| ServiceSpec.CheckRefExact | playground/manifest.go:154-163 | a reference is in order exactly if the first service of its name has a port of its label |
| ServiceSpec.CheckDependencyExact | playground/manifest.go:166-178 | a dependency is in order exactly if the first service of its name exists and, where it has to be healthy, has a ready check |
| ServiceSpec.LinksOkExact | playground/manifest.go:152-179 | a manifest passes the link checks exactly if this holds of every reference and dependency of every service |
| Manifests.Service.GetPort | playground/manifest.go:328-335 | the first port of that name |
| Manifests.Service.WithPort | playground/manifest.go:378-403 | the loop with early return panics, keeps or appends exactly as the declaration rule says |
| Manifests.Service.ApplyTemplate | playground/manifest.go:405-415 | one text adds its declarations to the ports and appends its references, or panics exactly when it must |
| Manifests.Service.AddArgs | playground/manifest.go:417-423 | all texts are registered and appended, in order |
| Manifests.Service.AddEnv | playground/manifest.go:342-349 | the text is registered and bound to its key |
| Manifests.Service.SetField | playground/manifest.go:351-463 | each setter changes its one field and nothing else |
| Manifests.Service.Apply | playground/manifest.go:342-463 | every builder call takes the service to the state the value-level rule gives |
| Manifests.Manifest.AddService | playground/manifest.go:123-129 | appends the component's finished service or panics without adding anything; a manifest built so stays well built |
| Manifests.Manifest.GetService | playground/manifest.go:139-146 | the object of the first service of that name |
| Manifests.Manifest.Validate | playground/manifest.go:151-210 | no error exactly when all references, dependencies and files are in order; otherwise the violation reported is the first in the order of the checks |
| Manifests.Manifest.ValidateRefs | playground/manifest.go:153-164 | no error exactly when every reference has its service and port; otherwise the first that has not |
| Manifests.Manifest.ValidateDependencies | playground/manifest.go:166-178 | a dependency must exist, and have a ready check if it has to be healthy; otherwise the first that fails |
| Manifests.Manifest.ValidateFiles | playground/manifest.go:183-192 | no error exactly when every mapped file exists, in whatever order they are visited |
| Allocation.ScanCannotExhaust | playground/local_runner.go:434-468 | pigeonhole: fewer reserved and refused candidates than the width of the scan leave one to find |
| Allocation.RoomAllocates | playground/local_runner.go:770-774 | pigeonhole over a run: if, whenever a scan starts, the ports taken and the candidates it is refused are fewer than it has candidates, all ports get a host port |
| Allocation.BoundedRefusalsAllocate | playground/local_runner.go:770-774 | so N ports fit when no scan of the run is refused more than B candidates and N + B is at most 1000 |
| Allocation.OrdinaryHostAllocates | playground/local_runner.go:434-468 | so do N ports below 64536 on a host with at most 1000 - N busy ports that refuses nothing but those and numbers that are no ports |
| Allocation.RunGoesOn | playground/local_runner.go:434-468 | if all ports can be allocated at all, first fit never gets stuck on the way |
| Allocation.NoRunOverall | playground/local_runner.go:770-774 | if the ports of one service cannot be allocated after those before it, all together cannot be |
| Allocation.AllocationSound | playground/local_runner.go:767-774 | all host ports of a run are different, new, and within 999 of the declared number |
| Allocation.AllocationUnique | playground/local_runner.go:767-774 | the declarations and the refusals determine the allocation |
| Allocation.RunAppend | playground/local_runner.go:770-774 | runs compose: reserving service by service is one run over all ports |
| Resolution.ReprintedTextResolvesAlike | playground/manifest.go:465-517 | resolving the re-printed text gives what the original gives, unless it held an escaped quote |
| Resolution.ResolvesExactly | playground/local_runner.go:494-540 | a text resolves to a result exactly if it is a template and the result is, piece by piece and in order, the literal, the own port (reserved on the host, declared in a container) or one of the four kinds of address |
| Resolution.OwnPortResolves | playground/local_runner.go:484-492 | the text for an own port becomes the reserved host port on the host and the declared number in a container |
| Resolution.LiteralResolves | playground/local_runner.go:528-540 | a text without actions stays as it is |
| Resolution.DeployedLinksOk | playground/local_runner.go:167-206 | overriding images and reserving ports keeps all links in order |
| Resolution.DeployedWellBuilt | playground/local_runner.go:770-774 | and keeps a service well built |
| Resolution.ResolutionSafe | playground/local_runner.go:481-563 | in a validated manifest of built services every text of every service resolves, for any split between host and docker and any host ports |
| Resolution.AppendKeepsLinks | playground/local_runner.go:982-989 | adding a service without references breaks no link, even if it repeats a name |
| Resolution.PrometheusKeepsLinks | playground/local_runner.go:980-991 | the prometheus service can always be built, comes out with that image, command, port and file, and adding it after validation keeps the manifest closed and well built |
| Wiring.AllocationAssigns | playground/local_runner.go:767-774 | a finished allocation assigns different host ports across all services and protocols |
| Wiring.RenderedText | playground/local_runner.go:520-525 | the number a service is said to listen on is what its own text for that port becomes |
| Wiring.WiringExact | playground/local_runner.go:494-519 | in all four host/docker cases the address for a label reaches the number its owner renders for itself, on the protocol meant, except exactly in one case |
| Wiring.WiringCorrect | playground/local_runner.go:729-744 | a label registered under one protocol is always wired correctly, directly or through the published pair |
| Wiring.BeaconPorts | playground/components.go:505-508 | a component that names one label as UDP and as TCP port gets both, UDP first |
| Wiring.MiswiredLabel | playground/local_runner.go:504-510 | with those ports a client on the host that wants the TCP port is sent to the host port of the UDP one, where no TCP traffic arrives |
| Wiring.WiringUnambiguous | playground/local_runner.go:504-519 | the address leads to no other service and no other number |
| LocalRunners.SplitImageExact | playground/local_runner.go:194-197 | an image override is accepted exactly if it is two parts without colons joined by one, and split into these |
| LocalRunners.PartitionOverrides | playground/local_runner.go:185-206 | for any iteration order: fails exactly when an override that is no path is no image of a known service; otherwise leaves exactly the paths and changes image and tag of exactly the named services |
| LocalRunners.PartitionMeaning | playground/local_runner.go:199-204 | an applied image override reads as image, colon, tag of its service |
| LocalRunners.PartitionLeaves | playground/local_runner.go:190-206 | a service that no image override names, or that is not the first of its name, is left as it is |
| LocalRunners.MergeOverrides | playground/local_runner.go:133-183 | releases win over overrides of the manifest, which win over those of the caller; fails exactly when a release is missing |
| LocalRunners.ReleasePathsExact | playground/local_runner.go:167-183 | a name is bound to a release exactly if a service of that name carries the host label with value true, to that of the last one |
| LocalRunners.LocalRunner.ReservePort | playground/local_runner.go:434-468 | the least candidate neither reserved nor refused is returned and reserved; otherwise it says truly why there is none |
| LocalRunners.LocalRunner.ReserveService | playground/local_runner.go:771-773 | succeeds exactly when some choice of host ports is a first-fit run, and then makes it; only host ports change |
| LocalRunners.LocalRunner.ReserveAll | playground/local_runner.go:767-774 | succeeds exactly when all ports of all services can be allocated as one first-fit run sharing one set, and then makes that run |
| LocalRunners.LocalRunner.RunTemplate | playground/local_runner.go:528-540 | the template run piece by piece yields the resolved text or its error |
| LocalRunners.LocalRunner.RunPiece | playground/local_runner.go:484-526 | the four address cases and the port cases |
| LocalRunners.LocalRunner.ApplyTemplate | playground/local_runner.go:481-563 | succeeds exactly when every argument and environment value resolves, and returns exactly those |
| LocalRunners.LocalRunner.ComposeServices | playground/local_runner.go:776-785 | an entry for exactly the names of container services, each describing the last service of its name with its published ports and dependencies; no container in it lacks an image, and a failure has its cause |
| LocalRunners.LastDependencyWins | playground/local_runner.go:700-713 | of several dependencies on one name the last gives the condition |
| LocalRunners.LocalRunner.LaunchHostServices | playground/local_runner.go:1023-1040 | one process for each host service, in manifest order, with its resolved arguments |
| LocalRunners.HostServicesInOrder | playground/local_runner.go:1026-1032 | host services keep the order of the manifest |
| LocalRunners.LocalRunner.Run | playground/local_runner.go:994-1042 | ports, compose file and launches together; no template failure for a validated manifest, ports run out exactly when no allocation exists, and nothing is launched when a container has no image |
| LocalRunners.LaunchConservation | playground/local_runner.go:776-785 | compose entries and processes are as many as the services if and only if container names are distinct |
| LocalRunners.ContenderAddedTwice | playground/manifest.go:610-614 | a recipe that adds the contender twice ends with one entry |
| LocalRunners.DependenciesPresentExactly | playground/local_runner.go:700-713 | for a validated manifest every dependency in the compose file has an entry if and only if no container depends on a service that runs on the host |
| LocalRunners.DependencyOnHost | playground/local_runner.go:776-785 | overriding a dependency with an executable leaves a compose file that names a missing service |
| LocalRunners.StartedExactlyOnce | playground/local_runner.go:749-752 | with unique names each service is in exactly one of compose file and launch list, once, and described by itself |
| Deployment.Cook.OverridesKnown | main.go:267-272 | accepts exactly the overrides that name services |
| Deployment.Cook.AddPrometheus | playground/local_runner.go:980-991 | the object-level addition keeps the manifest valid, well built and closed |
| Deployment.Cook.RunIt | main.go:242-303 | rejects exactly the invalid manifests, with the first violation, and what is wrong in every other way exactly by that; a cooked one never fails to resolve, runs out of ports exactly when no allocation exists, misses an image exactly when a container then has none, and otherwise satisfies allocation, compose and launch properties at once |
| Deployment.Cook.RunValid | main.go:267-303 | after validation: unknown overrides, missing releases and bad images are reported in that order and only then |
| Deployment.Cook.StartRunner | playground/local_runner.go:185-206 | the same from the merged overrides on: refused exactly if an override is neither a path nor an image of a service, otherwise exactly the executables run on the host |
| Deployment.PrintedAddressDials | playground/local_runner.go:565-576 | a printed address reads as its scheme, user, host and port |
| Deployment.DialsOne | playground/local_runner.go:565-576 | and as no other host and port, nor as another scheme or user unless a user contains a slash |
| Deployment.ConnectRawResolves | playground/artifacts.go:405-412 | a connection string resolves to the printed address of its target |
| Deployment.ConnectionArrives | playground/local_runner.go:481-576 | the connection string written for a port, resolved for any service of the finished deployment, dials, with that scheme and user, an address whose traffic the owner of the port receives on the very number that the owner's own text for the port became |
| JsonMerge.MergeReads | playground/artifacts.go:376-390 | what every path of the merged document reads as: the source's non-object, the merge of both, or the destination unless a source non-object is above |
| JsonMerge.MergeIdempotent | playground/artifacts.go:376-390 | overriding twice is overriding once |
| JsonMerge.CoversExact | playground/artifacts.go:376-390 | merging changes nothing but for the source exactly when the source has every key the destination has |
| JsonMerge.MergeAssociativeExact | playground/artifacts.go:376-390 | merging is associative exactly on documents where no middle non-object hides something the last one does not cover |
| JsonMerge.MergeNotAssociative | playground/artifacts.go:376-390 | three documents for which the grouping matters |
| JsonHeap.MergeMap | playground/artifacts.go:376-390 | in place, for any key order, ends with the destination holding the merged tree, the source unchanged, and writes no object outside the destination |
| JsonHeap.MergeTreeRefines | playground/artifacts.go:376-390 | forgetting object identities, the merged tree is the merge of the documents |
| JsonHeap.MergedAligned | playground/artifacts.go:376-390 | after a merge the destination is a tree again, sharing with the source only equal subtrees at equal paths |
| JsonHeap.MergeTreeIdempotent | playground/artifacts.go:376-390 | merging again leaves every object where it was |
| JsonHeap.OverrideJson | playground/artifacts.go:356-373 | on unshared documents the original then reads as the merge of both |
| JsonHeap.MergeTwice | playground/artifacts.go:376-390 | a second merge through the aliased subtrees changes neither document |
| ForkSchedule.ScheduleExact | playground/artifacts.go:253-269 | blocks are active exactly from the chosen one on, if and only if the clock advances and the fork time does not wrap into it |
| ForkSchedule.ScheduleCanWrap | playground/artifacts.go:264-265 | with the fork at block 2^63 and blocks of two seconds the fork time is the start time, for every clock, and block 0 is active |
| ForkSchedule.GenesisInput | playground/artifacts.go:271-296 | the override has exactly the time, the fork times if chosen, and every prefunded account |
| ForkSchedule.RollupInput | playground/artifacts.go:311-333 | the override has exactly the times, the hash of the L1 and L2 genesis, the three chain parameters, and the fork time if chosen |
| ForkSchedule.BuildL2Documents | playground/artifacts.go:253-346 | the fork time of both documents is the chosen one, or what was there before if none is chosen; they agree exactly when one is chosen or the originals agreed; the genesis has the prefunded accounts, the rollup the hashes of the L1 genesis and of the block of that very L2 genesis and the fee parameters; every path of both originals that is not overridden reads as before; and with Shanghai active nothing panics |
| ForkSchedule.GenesisReads | playground/artifacts.go:298-301 | the merged genesis reads the start, the fork times and every prefunded balance and nonce, and keeps every other path |
| ForkSchedule.RollupReads | playground/artifacts.go:335-338 | the merged rollup reads the start, the block time, the fork time, both genesis hashes and the fee parameters, and keeps every other path |
| ForkSchedule.WithdrawalsHash | playground/genesis_op.go:118-177 | after the header was rebuilt the kept root is there exactly under Isthmus, and which configurations panic |
| ForkSchedule.GenesisActiveExactly | playground/genesis_op.go:35-57 | the genesis block is an Isthmus block for fork block 0 only, if and only if the fork is off, at block 0, or its time does not wrap to the start or before |
| ForkSchedule.GenesisHeaderExactly | playground/genesis_op.go:143-177 | the header of the merged genesis carries the root of the message passer for fork block 0 only, if and only if the chosen fork time does not wrap to the start or before, or, none being chosen, the original has none that early; otherwise it carries the hash of the empty list |
| Readiness.TaskBoard.Update | playground/local_runner.go:362-379 | the new status or readiness of one task, all others untouched |
| Readiness.TaskBoard.AreReady | playground/local_runner.go:319-343 | true exactly when the event log says so: every container's latest start or die is a start, and each with a check was healthy once |
| Readiness.UpdateReflects | playground/local_runner.go:362-379 | handling an event keeps the tasks in step with the log |
| Readiness.LatestStatusExact | playground/local_runner.go:362-369 | the status in the log is that of the last start or die event of the service, and pending exactly if there is none |
| Readiness.StepKeepsInv | playground/local_runner.go:345-379 | every step, the crash on an unknown container included, keeps: at most two unread and one read, sent is read plus unread in order, one failure for each die event and host failure |
| Readiness.RunKeepsInv | playground/local_runner.go:345-379 | so it holds in every state of every run |
| Readiness.ReadinessRefinesLog | playground/local_runner.go:893-928 | readiness by the tasks is readiness by the log in every reachable state, and a check succeeds exactly when the log says so |
| Readiness.UpdaterBlocksExactly | playground/local_runner.go:371-373 | the updater blocks with the mutex exactly when two failures are unread |
| Readiness.DeadlockIsPermanent | playground/local_runner.go:345-360 | from then on, in every later state of the run, reader, updater and queue are as they were |
| Readiness.OnlyDeadlockBlocksReader | playground/local_runner.go:319-321 | in every other state the reader gets the mutex after at most one step of the updater |
| Readiness.DeadlockReachable | playground/local_runner.go:345-379 | three die events while a poll is on its way to the mutex reach the deadlock |
| Watchers.ValidateProposerPayloads | playground/watchers.go:81-104 | stops at exactly the first violating message, with its reason |
| Watchers.ReasonsExact | playground/watchers.go:84-102 | the reason is a timeout, a slot that is neither the one before nor the next, or else a distant parent |
| Watchers.AcceptedCovers | playground/watchers.go:88-101 | from any non-zero slot to a later one no slot is missing and none goes back |
| Watchers.AcceptedExactly | playground/watchers.go:81-104 | below the 64-bit limit a stream is accepted if and only if it has no gap and all parents are near |
| Watchers.ParentOkExact | playground/watchers.go:96-98 | what the wrapping difference accepts, exactly |
| Watchers.LimitExact | playground/watchers.go:88-91 | an accepted stream of 64-bit slots has no gap if and only if it stays at the largest slot once there; otherwise it went on with slot 0 |
| Watchers.LimitMatters | playground/watchers.go:89 | such a stream, which then goes on with any slot |
| Watchers.WatchProposerPayloads | playground/watchers.go:144-163 | reports the running maxima of all answers and ends at the highest slot |
| Watchers.RecordsMeaning | playground/watchers.go:155-162 | reports increase strictly, were all answered, and end at the highest slot ever answered |
| Watchers.NewHighestReported | playground/watchers.go:155-162 | every slot higher than all before it is reported |
| Contender.TrimExact | playground/components.go:834 | the trimmed text is the one text without white space at its ends that the original is, but for white space around it |
| Contender.IndexWS | playground/components.go:851-858 | the first blank or tab |
| Contender.ParsedWell | playground/components.go:833-849 | what parsing guarantees about name and value |
| Contender.ReparseRendered | playground/components.go:928-940 | every flag of that kind is recovered from its printed form, separator included |
| Contender.ContenderRoundTrip | playground/components.go:833-849 | parsing, printing and parsing any argument gives the same flag |
| Contender.ParseMeaning | playground/components.go:833-849 | name, separator and value make up the argument, with blanks only between |
| Contender.Conflict | playground/components.go:898-914 | the written-out rules say exactly that the alias group of the flag was named |
| Contender.DefaultsExactly | playground/components.go:876-927 | the four defaults with their values, in order, each dropped exactly if one of the flags listed with it was named |
| Contender.RenderExactly | playground/components.go:930-940 | a flag without a value is one argument, one with an equals sign is one that holds both, any other is two |
| Contender.RenderedInOrder | playground/components.go:930-940 | extras are rendered one after the other, in order |
| Contender.ParseExtras | playground/components.go:889-896 | the flags and names of exactly the non-blank arguments |
| Contender.BuildArgs | playground/components.go:860-940 | the command is spam, the defaults no alias of which was named, and all non-blank extras in order |
| Contender.ContenderCalls | playground/components.go:942-949 | the service gets that image, tag and command, depends on a healthy beacon, and on op-node exactly for op-geth |
| ClProxy.ClProxy.HandleRequest | cl-proxy/cl-proxy.go:93-172 | what each side is sent, what the client gets unless the handler panics, and when it does, for every request and failure |
| ClProxy.ClProxy.Serve | cl-proxy/cl-proxy.go:93-172 | over any stream the primary sees every well-formed body verbatim, and each client gets the primary's answer but for exactly the requests that panic |
| ClProxy.ForwardedStripped | cl-proxy/cl-proxy.go:145-165 | what is forwarded is the request value for value: version, method, id, result and all parameters, but for the second one of a forkchoice call, which is null; anything but such a call is forwarded verbatim |
| ClProxy.SecondaryNeverBuilds | cl-proxy/cl-proxy.go:141-169 | nothing the secondary ever receives starts or fetches a block, and the k-th thing it receives is the k-th request due to it, value for value but for the payload attributes |
| ClProxy.SecondaryInOrder | cl-proxy/cl-proxy.go:141-171 | what the secondary receives corresponds one for one and in order to the requests that reach it |
| ClProxy.NothingElseWithheld | cl-proxy/cl-proxy.go:141-171 | these are exactly the answered requests that fetch no payload and, for forkchoice calls, have a parameter and can be printed |
| ClProxy.EmptyForkchoicePanics | cl-proxy/cl-proxy.go:151-157 | a forkchoice call without parameters that the primary answers makes the handler panic |
| ClProxy.CompactingCodec | cl-proxy/cl-proxy.go:157-159 | a library that compacts raw parameters when printing meets the assumption on printing, and a call through it arrives with its head and without its attributes |
| EnodeKeys.KeyTextReads | playground/artifacts.go:713-715 | a key is printed with 64 digits that read back as the key |
| EnodeKeys.KeysNeverRepeat | playground/artifacts.go:728-737 | different keys have different texts |
| EnodeKeys.NamesNeverRepeat | playground/artifacts.go:740 | different keys have different artifact names |
| EnodeKeys.NameText | playground/artifacts.go:740 | the artifact name spells the number of the key |
| EnodeKeys.Output.GetEnodeAddr | playground/artifacts.go:722-746 | the next number, its key and its artifact, or a panic exactly out of range or if the file cannot be written |
| EnodeKeys.Output.GetEnodeAddrs | playground/artifacts.go:722-746 | the k-th call on any fresh output yields key k, and every artifact still holds the key it was handed out with |

## Left out

- `text/template` beyond literal text and the three functions: pipelines, comments, trim markers, raw strings, escapes in quoted strings, non-decimal numbers. Such a template is an error in the model.
- The text returned by the first pass: services keep and later resolve the original text; the re-printed one is covered by lemmas only.
- Sharing of port and reference objects: entries of a service's port and reference lists are values here, services are objects.
- The range of Go's `int` for port numbers; candidates above 65535 are ones the operating system refuses.
- Manifests.Manifest.AddService: does not record the name of the component in the service.
- The component registry, the arguments each component passes and the choices of each recipe; a component is any sequence of builder calls.
- The second, identical loop over mapped files in `Validate`; it can find nothing new if files do not vanish in between.
- LocalRunners.LocalRunner.LaunchHostServices: does not model the replacement of mapped paths in arguments, which rereads the original argument and depends on map order, nor volumes and log files.
- LocalRunners.LocalRunner.ComposeServices: volumes, labels, networks, the platform and the YAML text are left out; a health check is kept as it was given.
- Docker itself: image lookup, binding of ports and existence of files are arbitrary oracles; starting compose is assumed to succeed. Where published and host ports lead is defined in `Wiring.dfy`.
- Deployment.Cook.RunIt: the parsing of override options, the dry run, the dot graph, the saved manifest and the downloads are left out; a release is a path or a failure.
- The contents of the prometheus configuration file.
- JsonHeap.OverrideJson: the original is the document as parsed, in which numbers are rounded already; a `null` document, on which the override panics, and the printed text are left out.
- ForkSchedule.BuildL2Documents: what reads as before is the original as parsed, not its text; keys and addresses of prefunded accounts are given.
- JsonHeap.MergeMap: documents that share subtrees in other ways than a merge leaves behind are not covered.
- Hashing, state roots and the other fields of the genesis header; hashes, the Shanghai rule and the storage root are arbitrary functions of the document.
- Readiness.StepKeepsInv: log tracking, the status display and real time are left out; a poll is a step that may happen whenever the reader waits.
- `watchChainHead`, `waitForChainAlive`, the wait for the relay to start, and timeouts in seconds; a timeout is a message.
- Contender texts are sequences of characters, not UTF-8 bytes.
- ClProxy.ClProxy.HandleRequest: headers, and unknown members of a request, which re-printing a forkchoice call drops; whether a client still gets the reply of a request that panics. Parsing and printing are an arbitrary codec; `ClProxy.RoundTrips` assumes that printing a stripped call keeps its JSON values.
- EnodeKeys.Output.GetEnodeAddr: elliptic-curve points and node identifiers.
- The relay's database, flag wrappers, file downloads and the graph output.
