# Verified model of the knpodly lab platform

Knpodly gives each student a virtual machine for a limited time. API processes insert
session rows, two worker replicas provision them, a scheduler stops what has expired or
sits idle, and a reconciliation script stops what has lost its domain. They share a
database, a Redis set of VNC ports, a directory of overlay files and a hypervisor. This
project models those components and proves what holds in every interleaving of them.

## How the model is built

- `Types.dfy` has the session row, the states and the policy. Times are integers counting
  milliseconds (the login limiter counts seconds, as its `EXPIRE` does).
- `OverlayManager.dfy` and `LibvirtClient.dfy` have the three shared resources as mutable
  objects. Allocating a port takes, as a parameter, what other clients do to the Redis set
  before each of its own commands, and the set keeps a log of all commands.
- `VmLifecycle.dfy` has the lifecycle twice: as jobs made of atomic steps (one commit, one
  Redis command, one file or hypervisor call), and as methods of `Lab` that run a whole job
  in place. Lemmas show that the steps run alone make the call.
- `Interleaving.dfy` runs any number of jobs in any order. A run is *disciplined* when each
  session is provisioned at most once, from `queued`, and stopped at most once, from
  `running`, and every token drawn is fresh. A job may be left unfinished at any point,
  which covers a crash. `ResourceLedger.dfy` and `Console.dfy` draw the consequences;
  `PortWindow.dfy` says what one allocation sees of all other jobs; `Undisciplined.dfy` and
  `RowsAndFiles.dfy` say what holds without the discipline. `Scenarios.dfy` puts runs
  together from whole calls.
- `LaunchDesk.dfy` has racing launches; `LaunchRefinement.dfy` runs launches and lifecycle
  jobs together on one table.
- `Scheduler.dfy` has the sweep and its retry loop, `SessionClock.dfy` one session over
  time, `IdleWarning.dfy` and `ExpiryWarning.dfy` its warnings, `SessionLifetime.dfy` its
  extensions, `ActiveUser.dfy` the browser's heartbeat, `GcOrphanedVms.dfy` the
  reconciliation pass, `RateLimit.dfy` the login limiter, `Debounce.dfy` the debounced resync, `ImageDiscovery.dfy` the catalogue
  sync and `ImageUpload.dfy` the streamed upload.

Outcomes of calls that the platform does not control (qemu-img, the hypervisor, a
teardown that raises, the clock, fresh tokens and ids, the order in which a query answers,
Python's reading of a text as a number) are parameters. The theorems hold for all of them,
with one exception: the per-row theorems about a sweep and about a reconciliation pass are
for teardowns that do not raise. `Scheduler.SweepUpToRaise` carries them over to the rows
before one that does, and `GcOrphanedVms.RetryCompletes` to the pass after it.

Three assumptions join the parts. Workers, scheduler and reconciliation see one map of
domains, as they do under a real hypervisor; the fake driver keeps its map in the client
object, and `get_libvirt_client` makes a new one for each caller. Sweeps are atomic.
Created tasks of the event loop are eventually run.

## Where the code and its documentation disagree

The model follows the code. For each point there is a run or an input that shows it and,
for all inputs, the exact condition.

- The one-VM index is described as being for students, and staff may launch several VMs by
  the docstring. The index covers all users: of a lecturer's two launches the second is
  rejected at the insert (`LaunchDesk.StaffLaunchTwice`). A staff commit is refused exactly
  when the table is indexed and the user has an active row (`LaunchDesk.StaffRefusedIff`),
  and staff can hold two sessions exactly without the index (`LaunchDesk.StaffHoldTwoIff`).
- The allocator is described as claiming the lowest free port. In a disciplined run of two
  sessions it claims the second while the first is free (`PortWindow.ScanMissesReleasedPort`).
  The claimed port is the lowest free one exactly when no port that was passed over was
  released last (`OverlayManager.PortRegistry.AllocateVncPort`,
  `PortWindow.ScanSeesEveryPort`).
- Expiry warnings are described as firing once. Nothing records that they have: any sweep
  that finds the session in its expiry window warns, exactly when the mark of the idle
  warning is clear (`ExpiryWarning.SweepWarnsIff`). Three inputs warn twice
  (`ExpiryWarning.ExpiryWarningRepeats`), and a session is warned at most once exactly when
  from the first warning on the mark is set at every such sweep
  (`ExpiryWarning.WarnedOnceIff`).
- Idle users are to be warned before they are stopped. With sweeps close enough together
  they are, exactly when the post that recorded their last activity did not overlook a
  sweep, or a later sweep has made up for it (`IdleWarning.IdleStopIsSilentIff`); a post that was in flight while a sweep set the
  mark leads to a silent stop (`IdleWarning.StalePostIsSilent`).
- One broken image folder is said never to take the catalogue down. It does
  (`ImageDiscovery.BrokenFolderStopsSync`), exactly under the conditions of
  `ImageDiscovery.SyncRaisesIff`. A rescan of unchanged folders is refused exactly when the
  first one added an image whose architecture is null (`ImageDiscovery.SecondSyncIff`).
- Stopping is drawn as one path from `running`. The code does not look at the state and
  keeps the port number in the row, so a second stop can free a port that belongs to
  another session (`Undisciplined.SecondStopSharesAPort`). Without any discipline, runs keep
  ports exclusive exactly when each release finds no holder but its own session
  (`Undisciplined.RunsAreOwnedIff`), and a release that finds another one can always be
  followed by launches that share the port (`Undisciplined.ReleaseCanShareIff`). Stops of
  rows left in `stopping`, which the reconciliation pass makes, fall under the same condition.
  A session stopped while it is queued is brought up all the same
  (`RowsAndFiles.StoppedSessionRuns`), and ended rows stay ended exactly when none of three
  commits falls on one (`RowsAndFiles.EndedRowsStayIff`). A second provisioning can take a
  running row's overlay file (`RowsAndFiles.SecondProvisionTakesFile`); running rows keep
  theirs exactly when every job spares them (`RowsAndFiles.RunningRowsKeepFilesIff`).
- A lost heartbeat is said to be retried by the next event. It is not
  (`ActiveUser.NextEventDoesNotRetry`): the next input posts exactly when 30 seconds have
  passed since the lost post (`ActiveUser.LostPostIsNotRetried`).
- The limiter is said to catch one address trying many names and one name tried from many
  addresses. Within a window a check is refused exactly when its own pair has been tried ten
  times since its last reset (`RateLimit.TryRefusedIff`).
- A refused user is told to wait a few minutes. When a client was cut off between its two
  commands, waiting does not help (`RateLimit.LostExpireLocksOut`); a key is refused for
  good exactly when its counter is at the limit without a time to live
  (`RateLimit.RefusedForGoodIff`).
- An upload is said never to expose a partial file. Alone it does not
  (`ImageUpload.UploadBaseImage`). Among other uploads of the same folder, one that has
  written something publishes its own bytes exactly when their steps are harmless to it
  (`ImageUpload.UploadPublishesBytesIff`), and keeps them exactly when no other upload still has the file open
  (`ImageUpload.PublishedStaysIff`).

## Model

| member | source | states |
|---|---|---|
| OverlayManager.PortRegistry.AllocateVncPort | backend/app/services/overlay_manager.py:59-82 | Whatever other clients do between its commands: the port claimed was free and lies in the range; every lower port, and on exhaustion every port, was in use at some moment of the call; the port is the least free one, and exhaustion a full range, if and only if none of those ports was released last; in particular when nothing is released |
| OverlayManager.PortRegistry.SaddPort | backend/app/services/overlay_manager.py:70-76 | SADD reports whether the port was new and leaves exactly it added |
| OverlayManager.PortRegistry.ReleaseVncPort | backend/app/services/overlay_manager.py:85-91 | Exactly the given port leaves the set |
| OverlayManager.OverlayDirectory.CreateOverlay | backend/app/services/overlay_manager.py:36-48 | The session's file exists afterwards, or qemu-img failed and nothing changed |
| OverlayManager.OverlayDirectory.DestroyOverlay | backend/app/services/overlay_manager.py:51-56 | The file is gone, and a missing file is no error |
| LibvirtClient.FakeLibvirtClient.DefineAndStart | backend/app/services/libvirt_client.py:150-153 | An accepted definition leaves the named domain on, others untouched |
| LibvirtClient.FakeLibvirtClient.GracefulShutdown | backend/app/services/libvirt_client.py:155-157 | A known domain is switched off; a missing one is no error |
| LibvirtClient.FakeLibvirtClient.ForceDestroy | backend/app/services/libvirt_client.py:159-161 | Same effect as a graceful shutdown |
| LibvirtClient.FakeLibvirtClient.Undefine | backend/app/services/libvirt_client.py:163-164 | The name is gone; a missing one is no error |
| LibvirtClient.FakeLibvirtClient.GetDomainInfo | backend/app/services/libvirt_client.py:166-167 | The state of a known domain, nothing for an unknown one |
| VmLifecycle.Lab.LaunchVm | backend/app/services/vm_lifecycle.py:52-119 | Maintenance is answered if and only if the user is a student and it is on; one VM at a time if and only if the user is a student, it is off and the user has a session that has not ended; capacity if and only if neither holds and the unfinished sessions reach the cap; an unavailable system if and only if none of these holds; the index if and only if nothing else stands in the way; each leaves the rows alone, and otherwise exactly one queued row, written out column by column, is inserted |
| VmLifecycle.Lab.ProvisionVm | backend/app/services/vm_lifecycle.py:122-171 | The store afterwards is the one the job's steps lead to when run alone, on each of the success, failed-define, no-overlay and no-port paths; a success writes eight columns of the row, each with its value, and no other |
| VmLifecycle.StepsMakeProvision | backend/app/services/vm_lifecycle.py:130-171 | The job's atomic steps, run alone, end with the least free port claimed and everything in place; or with a failed row, its overlay gone and its port still taken; or with the row stuck in `provisioning` |
| VmLifecycle.ProvisionStepWrites | backend/app/services/vm_lifecycle.py:130-171 | In any state of the shared resources, the only step of a provisioning that writes more than the state is the hand-over; it writes eight columns, each given, and keeps the extensions made while the session was queued |
| VmLifecycle.ScanClaimsLeast | backend/app/services/overlay_manager.py:66-76 | Alone, the candidate loop claims the least free port |
| VmLifecycle.ScanExhausts | backend/app/services/overlay_manager.py:67-80 | Alone, the loop raises only on a full range |
| VmLifecycle.Lab.StopVm | backend/app/services/vm_lifecycle.py:174-202 | The store afterwards for each call that can raise, and for none: exactly this row, its domain, overlay and port, as far as the call got; without a raise the row is `expired` if that was the reason and `stopped` for every other, with the reason and the time, and its other columns are kept |
| VmLifecycle.Lab.RemoveDomain | backend/app/services/vm_lifecycle.py:180-185 | The hypervisor part of a stop, with the domain left as the raising call leaves it |
| VmLifecycle.Lab.FreeOverlayAndPort | backend/app/services/vm_lifecycle.py:187-190 | The file and port part of a stop |
| VmLifecycle.StepsMakeStop | backend/app/services/vm_lifecycle.py:177-200 | The stop job's steps, run alone up to the one that raises, have exactly the effect of the call |
| VmLifecycle.StopEnds | backend/app/services/vm_lifecycle.py:177-200 | The steps of a stop in which nothing raises, for every reason: `expired` if and only if the session expired and `stopped` otherwise, with reason and time, all other columns and rows kept; exactly the row's port, file and domain are given up |
| VmLifecycle.StopSticks | backend/app/services/vm_lifecycle.py:177-200 | The steps of a stop up to a call that raises leave the row `stopping` with all other columns kept, and exactly what the calls before it gave up is gone |
| VmLifecycle.Lab.ExtendSession | backend/app/services/vm_lifecycle.py:205-215 | Granted if and only if an extension is left; then the expiry is put off by exactly the policy's minutes, from the old one or, if there is none, from now, the count is one more and nothing else changes; refused without change |
| VmLifecycle.Lab.RecordActivity | backend/app/services/vm_lifecycle.py:218-222 | Sets the activity time and clears the idle mark of this row only |
| VmLifecycle.Lab.ProvisionJob | backend/app/workers/vm_worker.py:25-52 | A missing row is ignored; otherwise exactly one event, `vm.running` or, with the exception passed on, `vm.failed` |
| VmLifecycle.Lab.TeardownJob | backend/app/workers/vm_worker.py:55-66 | A missing row is ignored; `vm.stopped` is published exactly when nothing raised |
| Interleaving.ProvisionStepIsLocal | backend/app/services/vm_lifecycle.py:130-171 | Each provisioning step keeps row, job, port, file and domain of its session in agreement and touches nothing of another |
| Interleaving.StopStepIsLocal | backend/app/services/vm_lifecycle.py:177-200 | The same for each step of a stop |
| Interleaving.StepKeepsGood | backend/app/services/vm_lifecycle.py:130-202 | Every disciplined step of every job keeps the invariant: rows agree with their jobs, and ports, files and domains are exactly those held |
| Interleaving.DisciplinedRunsAreGood | docs/architecture.md:44-51 | The invariant holds after every disciplined run |
| ResourceLedger.PortsAreExclusive | backend/app/services/overlay_manager.py:10-15 | In every interleaving no two owners hold one port, every held port is in the range, and the Redis set is exactly the held ports |
| ResourceLedger.RunningSessionsHaveResources | backend/app/services/vm_lifecycle.py:160-171 | In every interleaving a running row has its overlay file, its domain switched on and its port marked |
| ResourceLedger.PortsAreConservedInRuns | backend/app/services/vm_lifecycle.py:141-163 | Ports in use = provisionings in flight + sessions not released + leaked ports of failed defines |
| ResourceLedger.PortsAreConserved | backend/app/services/vm_lifecycle.py:141-163 | The same count in every state that satisfies the invariant |
| ResourceLedger.EndedSessionsLeaveNothing | docs/ADMIN_GUIDE.md:29-33 | When every session is queued, stopped or expired, no port, overlay file or domain is left |
| ResourceLedger.FailedSessionsKeepAPort | backend/app/services/vm_lifecycle.py:152-158 | A failed row is a failed define whose port is still in use |
| ResourceLedger.FailuresAreForGood | backend/app/services/vm_lifecycle.py:135-158 | For the rest of every disciplined run a failed define keeps its port, and a session without overlay or port stays in `provisioning` |
| ResourceLedger.StopsEndAsAsked | backend/app/services/vm_lifecycle.py:192-200 | In every disciplined interleaving a session is `expired` or `stopped` if and only if its stop has run to its end, `expired` if and only if that stop's reason was expiry, and the row names that reason |
| Scenarios.StopAlone | backend/app/services/vm_lifecycle.py:174-202 | Running a stop job alone is a run of the interleaving model |
| Scenarios.ProvisionAlone | backend/app/services/vm_lifecycle.py:122-171 | Running a provisioning job alone is a run of the interleaving model |
| Undisciplined.SecondStopSharesAPort | backend/app/services/vm_lifecycle.py:174-190 | A concrete run, two stops of one session, after which two running sessions hold the same port |
| PortWindow.RunReplaysLog | backend/app/services/overlay_manager.py:70-89 | The port set after any run is what the SADDs and SREMs of its steps make of the set before it |
| PortWindow.ScanSeesEveryPort | backend/app/services/overlay_manager.py:60-80 | In every run of all jobs: each port one job's scan has passed over was in use at some moment since it read the set; the port it can claim is the least free one, and exhaustion a full range, if and only if none of those was released last |
| PortWindow.ScanMissesReleasedPort | backend/app/services/overlay_manager.py:60-76 | A disciplined run in which a session claims the second port while the first is free |
| Undisciplined.StepKeepsOwnedIff | backend/app/services/vm_lifecycle.py:130-202 | Every step keeps ports exclusive and marked, a release if and only if it finds no holder but its own session |
| Undisciplined.RunsAreOwnedIff | backend/app/services/vm_lifecycle.py:189-190 | In every run, disciplined or not: no two owners ever hold one port and every held port stays marked, if and only if each release finds no holder but its own session |
| Undisciplined.ReleaseCanShareIff | backend/app/services/vm_lifecycle.py:189-190 | After a release two owners can come to hold one port, by nothing but new launches, if and only if someone else held the released port |
| Undisciplined.DisciplinedReleasesAreSafe | docs/architecture.md:44-51 | Every release of a disciplined run meets that condition |
| RowsAndFiles.EndedRowsStayIff | backend/app/services/vm_lifecycle.py:130-178 | In every run, disciplined or not: sessions that have ended stay so if and only if no first commit of a provisioning, no hand-over and no first commit of a stop falls on an ended row |
| RowsAndFiles.StoppedSessionRuns | backend/app/api/v1/routers/vms.py:99-107 | A run in which a session is stopped while queued and is running afterwards |
| RowsAndFiles.RunsKeepColumns | backend/app/services/vm_lifecycle.py:130-200 | In every run, disciplined or not, a session keeps its user, its maximum of extensions and its time of creation, and neither provisioning nor a stop changes its count of extensions or its idle mark |
| RowsAndFiles.RunningRowsKeepFilesIff | backend/app/services/vm_lifecycle.py:154-188 | In every run, disciplined or not: every running row has its overlay file at all times if and only if no failed define and no stop removes a running row's file, and no hand-over finds its own gone |
| RowsAndFiles.SecondProvisionTakesFile | backend/app/services/vm_lifecycle.py:152-165 | A run of two provisionings of one session that ends with a running row without its file |
| RowsAndFiles.DisciplinedRunsKeepRowsAndFiles | docs/architecture.md:44-51 | Disciplined runs meet both conditions |
| Console.TokensResolveToOwnPorts | backend/app/api/v1/routers/console.py:28-42 | In every disciplined run a token never matches two rows, relays only to the port its own session holds, and no two tokens relay to one port |
| Console.LeftTokensStayClosed | backend/app/api/v1/routers/console.py:10-12 | Once a session has left `running` its token never resolves again |
| Console.RunningTokenResolves | backend/app/api/v1/routers/console.py:28-42 | A running row's token resolves to the port that row owns |
| Console.ResolveAnswers | backend/app/api/v1/routers/console.py:28-42 | For any rows at all, a token is relayed to a port if and only if exactly one running row carries it and has that port, and is an error if and only if two running rows carry it |
| Console.ShownTokensWork | backend/app/api/v1/routers/vms.py:25-29 | A console URL is shown if and only if the session runs, and leads to the session's own port and to a domain that is on |
| LaunchDesk.IndexKeepsOneActive | infra/postgres/init/001_schema.sql:89-91 | With the index on every commit, no run at all gives a user two active rows |
| LaunchDesk.LookupsAreSafeIff | backend/app/api/v1/routers/vms.py:62-71 | The single-row lookups never raise if and only if no user has two active rows |
| LaunchDesk.LookupAnswers | backend/app/api/v1/routers/vms.py:62-75 | The lookup answers a session if and only if it is the user's only one that has not ended, and nothing if and only if all have |
| LaunchDesk.UserCheckAnswers | backend/app/services/vm_lifecycle.py:59-77 | The first check of a racing launch, in any state: each of its two refusals, and passing it, if and only if its own condition on role, maintenance and the user's unfinished sessions holds; nothing but this launch moves |
| LaunchDesk.CapacityCheckAnswers | backend/app/services/vm_lifecycle.py:81-93 | The second check refuses if and only if the unfinished sessions of all users reach the cap |
| LaunchDesk.CommitAnswers | backend/app/services/vm_lifecycle.py:95-113 | The commit refuses for the system if and only if it is not offered, for the index if and only if it is and the index finds an unfinished session of the user; otherwise it inserts exactly one queued row, written out column by column |
| LaunchDesk.SerializedLaunchesKeepOne | backend/app/services/vm_lifecycle.py:68-77 | Without the index, serialized launches and no re-entry keep every student at one active row |
| LaunchDesk.RaceWithoutIndex | backend/app/services/vm_lifecycle.py:68-112 | Without the index, two launches that have both passed their checks give the user two rows and make the lookups raise |
| LaunchDesk.RaceIsReachable | backend/app/services/vm_lifecycle.py:59-93 | Two requests of one user can both pass all checks, from an empty table |
| LaunchDesk.StaffRefusedIff | infra/postgres/init/001_schema.sql:87-91 | A staff commit of an available system is refused if and only if the table is indexed and the user has an active row; otherwise the user has one row more |
| LaunchDesk.StaffLaunchTwice | backend/app/services/vm_lifecycle.py:59-112 | A lecturer's two launches, one after the other and with room for both: under the index the second is refused, without it both are there |
| LaunchDesk.StaffHoldTwoIff | backend/app/services/vm_lifecycle.py:14 | Some run gives a lecturer two sessions if and only if the table has no index |
| LaunchDesk.CapacityHolds | backend/app/services/vm_lifecycle.py:81-112 | With at most k launches between capacity check and insert, active sessions never exceed cap + k - 1 |
| LaunchDesk.CapacityHoldsFromOpening | backend/app/services/vm_lifecycle.py:90-93 | The same from an empty table, so serialized launches never exceed the cap |
| LaunchDesk.CapacityIsAttained | backend/app/services/vm_lifecycle.py:81-112 | For every cap and k some run with at most k launches in between reaches cap + k - 1 active sessions, index or not |
| LaunchRefinement.LifecycleStepIsMove | backend/app/services/vm_lifecycle.py:130-202 | The step that the joint runs below are made of: every disciplined step of a job is one commit without re-entry on the launch desk's rows, and the index never rejects it |
| LaunchRefinement.JointRunIsSeen | backend/app/services/vm_lifecycle.py:52-202 | A run of launches and disciplined jobs on one table keeps the resource invariant, and is a run of the launch desk in which no row re-enters |
| LaunchRefinement.JointRunsAreSafe | backend/app/services/vm_lifecycle.py:68-112 | From an empty lab, with launches and jobs interleaved: one active row per user under the index; one per student without it when their launches are serialized; at most cap + k - 1 active sessions with k launches between check and insert |
| LaunchRefinement.StuckSessionsBlockForGood | backend/app/services/vm_lifecycle.py:130-141 | In every continuation of launches and disciplined jobs, a session that got no overlay or no port keeps its user from launching and takes a place; as many as the cap close the lab for good |
| LaunchRefinement.StepsNeverReenter | backend/app/services/vm_lifecycle.py:130-202 | A disciplined step never makes an inactive row active, nor moves it to another user |
| Scheduler.CheckExpiredAndIdleSessions | backend/app/workers/scheduler.py:51-105 | The loop's effect on store and events, for any order of rows and any teardown that raises, as the function of which the theorems below give the rows and the events |
| Scheduler.SweepSession | backend/app/workers/scheduler.py:62-105 | The loop body on one row is one step of that function |
| Scheduler.QueryRunning | backend/app/workers/scheduler.py:57-59 | Exactly the running rows, each once, in an arbitrary order |
| Scheduler.SweepRefinesRows | backend/app/workers/scheduler.py:61-105 | In any order: expired rows become `expired`, others past the timeout `stopped`, the rest at most marked, other rows unchanged; exactly the stopped rows' ports, files and domains are freed; each row's events are published once |
| Scheduler.SweepOutcomes | backend/app/workers/scheduler.py:61-105 | Row by row, in numbers: at or past its expiry a running row ends expired; not past it but idle for the timeout, counted from its last activity, start or creation, stopped as idle; otherwise marked if and only if it has idled for the warning time without a mark; no other column and no other row changes |
| Scheduler.SweepEvents | backend/app/workers/scheduler.py:63-105 | Which event belongs to which row, in numbers: `vm.expired` exactly once if and only if a running row was at or past its expiry, `vm.idle_timeout` exactly once if and only if it was not but had idled for the timeout, and likewise the two warnings; nothing else is published about it, nor anything about other rows |
| Scheduler.RaisingRowIsSilent | backend/app/workers/scheduler.py:63-97 | A row whose teardown raises is left `stopping` and nothing is published about its stop, only the warning of an expiry still to come |
| Scheduler.SweepIgnoresOrder | backend/app/workers/scheduler.py:57-61 | Two orders of the same rows give the same store and the same multiset of events |
| Scheduler.SweepUpToRaise | backend/app/workers/scheduler.py:139-145 | A sweep in which a teardown raises is, up to that row, a sweep in which nothing raises |
| Scheduler.SweepProgress | backend/app/services/vm_lifecycle.py:177-178 | An abandoned sweep took a row out of `running`; a completed one left no due row running; no row enters `running` or changes what makes it due |
| Scheduler.SweepRepeatedly | backend/app/workers/scheduler.py:139-145 | With n running rows, n sweeps take every session due at the first of them out of `running`, even if every teardown raises |
| SessionClock.Heartbeat.Report | frontend/src/hooks/useVMActivityHeartbeat.ts:15-22 | Posts exactly when 30 s have passed since the last post, and only then remembers the time |
| ActiveUser.PostsAreThrottled | frontend/src/hooks/useVMActivityHeartbeat.ts:4-8 | Along any trace the posts times 30 s fit into the time since the post before it |
| SessionLifetime.ProvisioningStarts | backend/app/services/vm_lifecycle.py:160-168 | Whatever posts, extensions and loads come in while a session is queued, provisioning leaves a start of the timed model, within the bound counted from the end of the unextended session |
| SessionClock.PostCommitWrites | backend/app/services/vm_lifecycle.py:218-222 | An activity post that was loaded earlier: of its two columns it writes those that differ from what it loaded, whatever the row has by now, and nothing else |
| SessionClock.TableSweepIsSwept | backend/app/workers/scheduler.py:61-105 | The sweep of the whole table does to each running session what the timed model's sweep does to one |
| IdleWarning.IdleStopIsSilentIff | backend/app/workers/scheduler.py:87-105 | With sweeps at most timeout minus warning apart, and posts loaded and committed at different times: a session stopped as idle was warned after its last activity if and only if the post that recorded it did not overlook a sweep, or a later warning made up for it |
| IdleWarning.NoSilentIdleShutdown | backend/app/workers/scheduler.py:87-105 | In particular when no post is in flight across a sweep |
| IdleWarning.StalePostIsSilent | backend/app/services/vm_lifecycle.py:218-222 | Under every policy, with a sweep every millisecond, a post loaded before the sweep that sets the mark and committed after it leads to a silent stop |
| IdleWarning.WiderGapsAreSilent | backend/app/workers/scheduler.py:87-105 | Under every policy, one millisecond more between sweeps admits a silent idle stop |
| ExpiryWarning.SweepWarnsIff | backend/app/workers/scheduler.py:69-85 | After any trace, a sweep warns of expiry if and only if it finds the session running in its expiry window and the idle mark is clear by the posts and sweeps before |
| ExpiryWarning.WarnedOnceIff | backend/app/workers/scheduler.py:69-85 | Along any trace a session is warned of its expiry at most once if and only if, from the first warning on, the mark is set at every sweep that finds it running in the window |
| ExpiryWarning.ExpiryWarningRepeats | backend/app/workers/scheduler.py:69-85 | Three sessions that are warned twice: by the next sweep, by the next after a post, and by one after a silent sweep and a post |
| SessionLifetime.LifetimeIsBounded | backend/app/services/vm_lifecycle.py:205-215 | For every interleaving of stale-read extensions, those made or loaded while the session was queued included: the count stays within the maximum, expiry within its count of extensions from the unextended end or the last commit of a queued load, and with sweeps at most `gap` apart the session is not running `gap` after the last possible expiry, put off once more by each pending queued load |
| SessionLifetime.BoundHoldsThroughoutIff | backend/app/services/vm_lifecycle.py:209-211 | The bound counted from the unextended session holds throughout if and only if every extension loaded while the session was queued is committed before the unextended session would have expired |
| SessionLifetime.ExtensionStaysBounded | backend/app/services/vm_lifecycle.py:206-212 | An extension computed from a stale row within the bound writes a row within the bound |
| SessionLifetime.CommitExtends | backend/app/services/vm_lifecycle.py:206-213 | The commit of an extension, however old the row it loaded: expiry is the loaded one plus the minutes, or now plus the minutes, and the count the loaded one plus one, if and only if the loaded row had an extension left; no other column is written |
| SessionLifetime.PromptExtensionExtends | backend/app/services/vm_lifecycle.py:206-213 | A request that is committed right after its load puts the expiry off by exactly its minutes and uses up one extension while one is left, and changes nothing at the maximum |
| SessionLifetime.ExtensionsAddUp | backend/app/services/vm_lifecycle.py:206-213 | Along any trace in which requests come one at a time, whatever happens in between: the granted ones are the first ones until none is left, and the expiry is exactly the unextended one plus the minutes of each |
| SessionLifetime.SessionLength | backend/app/services/vm_lifecycle.py:167-168 | Along such a trace a session expires exactly its own length and that of its extensions after its start |
| SessionLifetime.FirstStaleExtensionIsLost | backend/app/services/vm_lifecycle.py:206-213 | Of two requests that loaded the same row both are accepted, and the row ends with the second extension only, counted once |
| ActiveUser.LostPostIsNotRetried | frontend/src/hooks/useVMActivityHeartbeat.ts:15-22 | After a lost post, whatever else happens, the next input posts if and only if 30 s have passed since it; until then, unless another post is committed, the row keeps its activity time |
| ActiveUser.NextEventDoesNotRetry | frontend/src/hooks/useVMActivityHeartbeat.ts:19-21 | A lost post and an input within 30 s of it leave the row as it was |
| ActiveUser.ActiveUsersAreNotIdleStopped | backend/app/workers/scheduler.py:87-97 | Inputs at most g apart and at most f posts in a row lost or late, none setting the time back: no sweep stops the session as idle when (f + 1) * (30 s - 1 ms + g) is less than the timeout |
| ActiveUser.ActiveUsersAreSafeIff | backend/app/workers/scheduler.py:87-97 | From any start of a session that is long enough, that condition is exact: otherwise some such user is stopped as idle |
| RateLimit.LoginLimiter.CheckLogin | backend/app/services/rate_limit.py:21-34 | A live counter counts on and keeps its time to live, otherwise one is started for 300 s; other keys are unaffected; refusal if and only if the live counter has counted ten already |
| RateLimit.LoginLimiter.ResetLogin | backend/app/services/rate_limit.py:37-44 | The key's counter is gone, others unaffected |
| RateLimit.PassesInAnyInterval | backend/app/services/rate_limit.py:24-32 | In any L seconds with R resets at most 10 * (ceil(L / 300) + 1 + R) checks pass, for every interleaving of the commands |
| RateLimit.WindowPassesExactly | backend/app/services/rate_limit.py:17-32 | Within a window and without a reset exactly the attempts left of the ten pass, no fewer and no more |
| RateLimit.FirstAttemptAfterExpiryPasses | backend/app/services/rate_limit.py:25-32 | However many attempts are made before a counter's end, the first at or after it passes |
| RateLimit.RefusalsEnd | backend/app/services/rate_limit.py:25-27 | After any calls that were not cut short, a counter ends within a window, and from then on the next attempt passes, whatever attempts came before |
| RateLimit.RefusedForGoodIff | backend/app/services/rate_limit.py:25-32 | No attempt ever passes again if and only if the counter is at the limit and has no time to live |
| RateLimit.StuckEnds | backend/app/services/rate_limit.py:37-44 | Attempts leave such a counter as it is; a reset ends it, and so does an EXPIRE that comes after all, a window later |
| RateLimit.LostExpireLocksOut | backend/app/services/rate_limit.py:25-27 | After a client is cut off between INCR and EXPIRE exactly ten attempts ever pass |
| RateLimit.TryRefusedIff | backend/app/services/rate_limit.py:2-6 | Within a window, whatever else is tried or reset, a check is refused if and only if its own address has tried its own name ten times since that pair's last reset |
| Debounce.Debouncer.ScheduleResync | backend/app/workers/scheduler.py:131-132 | Each event creates one task |
| Debounce.Debouncer.EnterTask | backend/app/workers/scheduler.py:122-126 | A task ends if a resync is pending, otherwise sets the flag and sleeps for two seconds |
| Debounce.Debouncer.WakeTask | backend/app/workers/scheduler.py:127-129 | A task that wakes clears the flag and starts a resync |
| Debounce.DebounceLosesNothing | backend/app/workers/scheduler.py:120-132 | In every interleaving: the flag is set exactly when one task waits, resyncs start two seconds apart and never outnumber events, and when the tasks have run out a resync started after each event |
| Debounce.TasksComeToRest | backend/app/workers/scheduler.py:120-132 | While a task is left one can move once time has passed, and its move leaves fewer to make |
| GcOrphanedVms.CollectOrphans | backend/app/workers/gc_orphaned_vms.py:20-34 | The loop's effect on the store, for any order of rows and any stop that raises and ends the script |
| GcOrphanedVms.GcRefinesRows | backend/app/workers/gc_orphaned_vms.py:29-34 | In any order, one pass stops exactly the rows that were orphans when it began |
| GcOrphanedVms.GcLeavesNoOrphan | backend/app/workers/gc_orphaned_vms.py:23-34 | Afterwards no named running or stopping row has a dead domain; rows with live domains, and those domains, are untouched |
| GcOrphanedVms.GcOutcomes | backend/app/workers/gc_orphaned_vms.py:23-34 | Row by row: a running or stopping row that names a domain which is missing or shut off ends stopped as an error; no other row changes |
| GcOrphanedVms.GcFrees | backend/app/workers/gc_orphaned_vms.py:34 | A pass frees exactly the ports, files and domains that the rows it stops name |
| GcOrphanedVms.GcIsIdempotent | backend/app/workers/gc_orphaned_vms.py:29-34 | A second pass changes nothing |
| GcOrphanedVms.PassEndsIff | backend/app/workers/gc_orphaned_vms.py:29-34 | The script gets to its end if and only if no stop of an orphan raises, and then it has done what it does without faults |
| GcOrphanedVms.PassEndsAtRaise | backend/app/workers/gc_orphaned_vms.py:29-34 | Otherwise it ends at the first orphan whose stop raises, leaves that row `stopping` and does not touch the rows after it |
| GcOrphanedVms.RaisingPassIsSafe | backend/app/workers/gc_orphaned_vms.py:29-34 | Whatever stops raise, rows with live domains and those domains are untouched, and an abandoned pass leaves a `stopping` row that is still an orphan |
| GcOrphanedVms.RetryCompletes | backend/app/workers/gc_orphaned_vms.py:23-34 | After an abandoned pass, one in which nothing raises leaves the ports, files, domains and, up to the time of stopping, the rows that it would have left at the beginning |
| ImageDiscovery.ScanAll | backend/app/services/image_discovery.py:150-160 | The images of exactly the folders that scan, in listing order, unless one raises |
| ImageDiscovery.DiscoveredInOrder | backend/app/services/image_discovery.py:153-160 | Of two images the first one's folder is listed first |
| ImageDiscovery.AvailableNeedsImage | backend/app/services/image_discovery.py:128-132 | A folder scans as available only if its base image is there |
| ImageDiscovery.Catalogue.SyncToDatabase | backend/app/services/image_discovery.py:163-200 | The table afterwards is every found image upserted in turn, which the theorems below say column by column; when the scan raises, or the database refuses a row, it is as before |
| ImageDiscovery.Catalogue.UpsertImage | backend/app/services/image_discovery.py:167-198 | Refused if and only if a column refuses a value; otherwise one row, of the image's slug or new, keeps the image in every column, each cut to its own length, and no other row changes |
| ImageDiscovery.SyncMirrorsFolders | backend/app/services/image_discovery.py:119-199 | After a sync that succeeds every folder with usable metadata has a row, and each such row, like every row that is new or has changed, keeps in each column what the metadata has under that column's own key, or its default, with the status it names in any case of letters, available only with the base image there; ids, slugs and unmirrored columns of existing rows are kept; other rows are unchanged; slugs stay unique |
| ImageDiscovery.SyncCountsFolders | backend/app/services/image_discovery.py:200 | The number a sync answers is that of the folders with usable metadata |
| ImageDiscovery.UpsertAllMirrors | backend/app/services/image_discovery.py:166-199 | The upserts are refused if and only if some image cannot be stored, whether as an insert or an update being decided by the table at the start; otherwise they mirror the images |
| ImageDiscovery.SecondSyncIff | backend/app/services/image_discovery.py:166-199 | A second sync of the same folders never changes the table, and is refused if and only if the first added an image whose architecture is null |
| ImageDiscovery.SyncRaisesIff | backend/app/services/image_discovery.py:24-27 | The scan raises if and only if some folder's metadata is undecodable or too much for the parser, is JSON on which the test for a name or `get` raises, or has a name and a number that cannot be read or an image that cannot be opened; the commit is refused if and only if none does and some folder has a value that its column refuses; then nothing is synced |
| ImageDiscovery.BrokenFolderStopsSync | backend/app/services/image_discovery.py:119-147 | One folder whose metadata is not UTF-8, has a null name or a null number of CPUs stops the sync of all |
| ImageUpload.UploadBaseImage | backend/app/api/v1/routers/images.py:57-70 | Every reader at every step sees the old image or the complete new one; success publishes exactly the chunks, within the cap; exactly the uploads over the cap are refused, with the temporary file removed and the old image kept; an interrupted read keeps the old image |
| ImageUpload.UploadPublishesOwnIff | backend/app/api/v1/routers/images.py:58-70 | In every interleaving of uploads of one folder, the name leads to the upload's own file holding exactly its own bytes if and only if each step of another upload since it opened the file is harmless: no opening once it has written, no write over what it has written or, unless emptied away, past its end, no rename or removal |
| ImageUpload.UploadPublishesBytesIff | backend/app/api/v1/routers/images.py:58-70 | For an upload that has written something, that is exactly when its rename publishes its bytes, through whatever file |
| ImageUpload.PublishedStaysIff | backend/app/api/v1/routers/images.py:61-70 | A published image never changes if and only if no other upload still has the file open |
| ImageUpload.WholeIffSameBytes | backend/app/api/v1/routers/images.py:68 | A file is wholly one upload's if and only if it has that upload's bytes whatever the uploads contain |
| ImageUpload.OneUploadAtATime | backend/app/api/v1/routers/images.py:58-70 | With one upload of the folder at a time the upload publishes exactly its bytes, and they stay |

## Left out

- User interface, API wrappers, WebSocket relay, Redis publish and subscribe, job pool: plumbing; events are values appended to a list.
- The queue that delivers jobs: that each launch leads to at most one provisioning is part of the discipline.
- The QEMU driver: its calls appear only as calls that may raise; a definition that fails half way, and lookups of missing domains, are not modelled.
- Domains that die by themselves: the running-row theorem assumes only the jobs touch domains; the reconciliation pass is proved for any domain map.
- JWT, password hashing, audit rows, user accounts: library wrappers or single checks.
- Domain XML, MAC addresses, icon lookup, checksums: library calls; what Python's `int` and `float` make of a text is a parameter, and so is the JSON parser's answer.
- Maintenance switching and policy editing: maintenance is a flag of a launch, the policy a constant of each theorem.
- Staleness of rows inside one sweep: sweeps are atomic.
- Columns that an update leaves out because they have the value that was loaded: modelled for activity posts and extensions; the commits of provisioning and stops always write theirs.
- The error that a launch check raises when a student has two active rows already: it stands for the refusal of a second session; the lookups' error is modelled.
- Extension, activity and expiry columns in the interleaving model: any job may write them to any value there; their bounds are proved on one session.
- The clock read at the end of a stop: a sweep stamps its stops with its own time.
- Slug and file name checks of an upload, ownership checks of the VM endpoints: single conditions.
- A folder name that is longer than its column by nothing but blanks: taken as refused, although PostgreSQL cuts the blanks off.
- Writes of an upload that Python buffers until the file is closed: a write reaches the file at once.
- Failures of the database itself and a second sync at the same time: a sync is refused only for what it would write.
- Scheduler.SweepRepeatedly: publishing events and the first commit of each stop are assumed to succeed, because a failure there changes no row.
