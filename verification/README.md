# Verified models of k8s-docker-operator

The operator manages Docker hosts from Kubernetes: reconcilers drive containers, deployments and one-off
jobs on Docker hosts, and a reverse tunnel carries traffic to the containers. This project models the parts
whose correctness depends on many steps, actors or failures, and proves what they guarantee over all runs.

| part | modules |
|---|---|
| Target distribution and load balancing of the tunnel server | `TargetList`, `ServicePublisher`, `TunnelServer`, `PushProtocol`, `RoundRobin` |
| Byte streams of the tunnel | `HeaderFraming`, `WebSocketConn` |
| DockerJob lifecycle | `JobModel`, `JobRuns`, `JobController` |
| DockerDeployment scaling | `Deployment`, `DeploymentController` |
| DockerContainer reconcile and finalizers | `ContainerSync`, `ContainerController`, `Finalizer`, `Orphans` |
| Docker client cache | `ClientCache` |
| Memory limits | `MemoryLimit` |
| Library facts | `GoStrings`, `GoInts`, `Decimal`, `NumberTheory`, `Wrappers` |

Code that changes state is a class or a method with the source's loops and branches, proved equal to a value
function; the theorems are about runs of those functions. A run is a list of steps; each step carries the
choices of the environment (which calls fail, which writes are lost, how equal elements are sorted, when time
passes), so a statement about all lists of steps is a statement about all interleavings.

`dafny verify dfyconfig.toml` checks everything.

## What does not hold, and exactly when it does

- A file load that read before the last change and commits late undoes convergence: `PushProtocol.ConvergesExactly`;
  such states are reachable: `PushProtocol.StaleLoadIsReachable`.
- A service scaled to zero keeps its pushed targets until the two minutes are over, because an empty push is
  only a request to read the file: `PushProtocol.PushHolds`.
- Target and session share one counter, so with gcd(n, m) > 1 some targets are never reached over some
  sessions: `RoundRobin.JointRoundRobin`. Rotation skips at the counter's wrap unless n divides 2^64:
  `RoundRobin.WrapKeepsOrder`.
- Scale-down with equal creation times at the boundary can delete one replica too many, because the second
  reconcile may sort differently: `Deployment.SafeExactly`. A negative replica count deletes all children and
  then panics, unless the int32 difference wraps; then it creates children or does nothing:
  `DeploymentController.PanicsExactly`, `DeploymentController.NegativeReplicas`.
- A job whose last write is lost, after at least the TTL, loses its container while stored as unfinished and
  runs again: `JobRuns.RemovedUnfinishedExactly`, `JobRuns.LostSuccessRunsAgain`. A lost write after a container
  that did not start sticks forever: `JobRuns.LostFailureSticks`. The deadline does not cover the whole job when
  a missing container is started again: `JobRuns.StartTimeExactly`. That happens after an outside removal, a
  failed retry whose write is lost, a finishing write lost after the TTL, and a deadline kill that removes the
  container and loses its write. A kill that only stops the container and loses its write ends in success,
  retry or final failure by the exit code: `JobRuns.KillOutcome`. While no start time is stored the deadline is
  not enforced at all: `JobRuns.KilledExactly`, `JobRuns.LostStartIsNeverKilled`. Deadlines above 9223372036 s
  overflow: `JobRuns.SecondsExact`, `JobRuns.DeadlineOverflow`. With BackoffLimit 2^31-1 retries are never used
  up: `JobRuns.ExhaustionExactly`.
- A deleted DockerJob leaves an orphan exactly if a removal failed and the finalizer was dropped all the same:
  `Finalizer.JobOrphanExactly`. A deleted DockerContainer leaves one exactly if it has no containerName:
  `Orphans.NoOrphanExactly`.
- A DockerContainer without containerName gains a container with every sync: `ContainerSync.FixpointExactly`.
  Not every change of a spec is noticed, such as changed envVars, volumes or ports:
  `ContainerSync.ChangeAppliedExactly`. The status lags one sync behind: `ContainerSync.StatusCatchesUp`.
- Every fallback to the local socket loses a client for good in all three copies of the client cache; the
  service's copy also loses every client it makes for an empty dockerHostRef, because it stores that under a key
  no call loads: `ClientCache.LostExactly`, `ClientCache.GetLosesExactly`, `ClientCache.ServiceLosesAll`.
- Target bytes outside ASCII are mangled by the client: `HeaderFraming.FramingExactly`.
- The two memory parsers differ on texts such as "1.5g": `MemoryLimit.AgreeExactly`.

docs/jobs.md gives 6 as the default backoffLimit and cleans up when now > completionTime + ttl; the code has no
default (0) and cleans up from now = completionTime + ttl on. The models follow the code.

## Assumptions

- Kubernetes reads return the last written object, and an update with an older version is refused.
- Each controller has one worker. One `getDockerClient` call takes no time, and no client is injected for tests.
- In a DockerJob reconcile time passes while the host is called and while the status is written.
- The Docker host reports a container's configuration as it was created, possibly with more environment
  entries and with defaults for an empty command and restart policy, refuses a name that is taken, and a started container is running. A name or identity refers to one
  container, and a name is not taken for the beginning of another container's identity.
- `url.QueryEscape` and the server's query parser are inverse; yamux and WebSocket connections deliver what was
  sent, in order. A message reader reports the end only with zero bytes. A one-byte read that reports no error
  has read a byte.
- The clock does not go back. The API server keeps timestamps to the second.

## Model

| member | source | states |
|---|---|---|
| `TargetList.KeepTargets` | internal/tunnel/server.go:254-259 | the loop keeps exactly the non-empty trimmed parts, in order |
| `TargetList.ParsePush` | internal/tunnel/server.go:251-259 | a push request's list denotes `Parse` of the text |
| `TargetList.ParseFile` | internal/tunnel/server.go:294-303 | trimming the whole file first makes no difference: the same `Parse` |
| `TargetList.ParseIgnoresOuterSpace` | internal/tunnel/server.go:253-303 | push parser and file parser agree on every string |
| `TargetList.NewlineIsIgnored` | internal/tunnel/server.go:294-303 | a trailing newline in the file changes nothing |
| `TargetList.RoundTrip` | internal/controller/dockerservice/reconciler.go:280-281 | the server reads the sorted list back for all non-empty, trimmed, comma-free targets |
| `TargetList.ParseIsIdempotent` | internal/tunnel/server.go:253-259 | parse after join after parse is parse, and every parsed target is well formed |
| `TargetList.CsvIsCanonical` | internal/controller/dockerservice/reconciler.go:280-294 | two lists have the same text exactly when they are permutations of each other |
| `TargetList.GatherTargets` | internal/controller/dockerservice/reconciler.go:147-193 | one target per container with an address; panics exactly when there is one and no port |
| `TargetList.EndpointsAreWellFormed` | internal/controller/dockerservice/reconciler.go:187-188 | gathered targets always survive the trip through the text |
| `TargetList.EndpointsExactly` | internal/controller/dockerservice/reconciler.go:147-193 | exactly one "address:port" per container with an address, in their order |
| `ServicePublisher.Publisher.Reconcile` | internal/controller/dockerservice/reconciler.go:272-296 | ConfigMap holds the canonical text; every running pod with an address gets it exactly when a stored text existed and differed or another field had to be written |
| `ServicePublisher.Publisher.TriggerReload` | internal/controller/dockerservice/reconciler.go:693-709 | one request per running pod with an address, in order |
| `ServicePublisher.RequestsExactly` | internal/controller/dockerservice/reconciler.go:693-709 | one request per running pod with an address, in order, with the list |
| `ServicePublisher.PublishIsProtocolStep` | internal/controller/dockerservice/reconciler.go:280-296 | the reconciler's requests are the messages of the protocol's reconcile step |
| `TunnelServer.Server.constructor` | internal/tunnel/server.go:31-39 | starts without sessions and pushes, counter at zero |
| `TunnelServer.Server.Accept` | internal/tunnel/server.go:93-115 | drops exactly without sessions or targets and leaves the state alone, otherwise picks both by the counter and advances it modulo 2^64 |
| `TunnelServer.Server.Register` | internal/tunnel/server.go:204-207 | appends the new session |
| `TunnelServer.Server.Unregister` | internal/tunnel/server.go:212-222 | removes that session and keeps the order of the others |
| `TunnelServer.Server.Push` | internal/tunnel/server.go:252-265 | list, pushed list and push time are set together |
| `TunnelServer.Server.LoadTargetsFromFile` | internal/tunnel/server.go:287-324 | the file's list takes effect unless it contradicts a push less than two minutes old |
| `TunnelServer.Server.HandleReload` | internal/tunnel/server.go:245-271 | only a POST acts, others get 405; with a list it pushes, without one it loads the file |
| `TunnelServer.Server.TargetsEqual` | internal/tunnel/server.go:326-336 | true exactly for equal lists |
| `PushProtocol.PushPriority` | internal/tunnel/server.go:260-324 | in every reachable state less than two minutes after the last push, the pushed list is in force, whatever stale loads are in flight |
| `PushProtocol.PushHolds` | internal/tunnel/server.go:260-324 | for two minutes after a push only another push changes the targets, in every interleaving |
| `PushProtocol.OnlyPublishedTargets` | internal/tunnel/server.go:261-323 | the list in force was the initial one or was published by the reconciler |
| `PushProtocol.ConvergesExactly` | internal/tunnel/server.go:287-324 | with a stable file and no recent push, all calm runs with a committed load end at the file's list if and only if no stale load is in flight |
| `PushProtocol.StaleLoadIsReachable` | internal/tunnel/server.go:287-324 | for any two different target lists a settled state with a stale load is reachable |
| `PushProtocol.OneLoadSuffices` | internal/tunnel/server.go:287-324 | one read and commit reaches the file's list |
| `PushProtocol.WaitingSettles` | internal/tunnel/server.go:305-313 | two minutes without a push settle a stable file |
| `PushProtocol.SelfHealing` | internal/controller/dockerservice/reconciler.go:280-296 | after any history of lost, repeated and reordered pushes, a calm period past the window and one load leave exactly the reconciler's targets, sorted |
| `PushProtocol.NoSpuriousPush` | internal/controller/dockerservice/reconciler.go:280-296 | a reordered container list changes and sends nothing, if nobody touched the ConfigMap |
| `PushProtocol.SentExactly` | internal/controller/dockerservice/reconciler.go:283-296 | a text is sent exactly when a pod runs and an existing ConfigMap held another text or had to be written |
| `PushProtocol.ChangeIsPushed` | internal/controller/dockerservice/reconciler.go:280-296 | a changed list of targets, pushed and delivered, is in force, sorted |
| `PushProtocol.SecondListIsPushed` | internal/controller/dockerservice/reconciler.go:280-296 | from the start: the first list is written silently, a different second one is pushed and takes effect |
| `PushProtocol.EmptyPushReadsFile` | internal/tunnel/server.go:266-269 | a push without targets is a file load |
| `PushProtocol.CounterIsSelections` | internal/tunnel/server.go:93-115 | the counter is the number of successful selections modulo 2^64; dropped connections do not count |
| `PushProtocol.ServedExactly` | internal/tunnel/server.go:93-115 | a connection is selected exactly if there are sessions and targets; a session that comes and goes leaves no trace |
| `RoundRobin.Fair` | internal/tunnel/server.go:106-114 | over any window of selections from n targets without a wrap, two targets' counts differ by at most one |
| `RoundRobin.JointRoundRobin` | internal/tunnel/server.go:106-114 | lcm(n, m) selections pair target i with session j if and only if i and j agree modulo gcd(n, m) |
| `RoundRobin.PairedOnce` | internal/tunnel/server.go:106-114 | no pair occurs twice in such a window |
| `RoundRobin.WrapKeepsOrder` | internal/tunnel/server.go:107-114 | the rotation continues in order across the uint64 wrap if and only if n divides 2^64 |
| `HeaderFraming.ReadHeader` | internal/tunnel/client.go:83-99 | the byte loop accepts, rejects and leaves unread as specified and takes at most 257 bytes |
| `HeaderFraming.FramingExactly` | internal/tunnel/server.go:127-133 | target and payload are recovered if and only if the target is ASCII, without newline and at most 256 bytes |
| `HeaderFraming.AsciiStream` | internal/tunnel/client.go:83-99 | every ASCII stream: accepted, too long past 256 bytes, or broken off |
| `HeaderFraming.HighByteIsMangled` | internal/tunnel/client.go:94 | a byte outside ASCII arrives as two bytes |
| `HeaderFraming.CharacterDecodes` | internal/tunnel/client.go:94 | every byte outside ASCII becomes its two-byte UTF-8 form |
| `WebSocketConn.Connection.Read` | internal/tunnel/conn.go:45-61 | fills the buffer from the current message, skips finished and empty ones, and terminates on queued messages |
| `WebSocketConn.Connection.Write` | internal/tunnel/conn.go:63-68 | sends one message and reports its length, or nothing and zero when the connection refuses |
| `WebSocketConn.ReadConserves` | internal/tunnel/conn.go:45-61 | delivered plus pending bytes are unchanged by a read, which delivers something while anything is pending |
| `WebSocketConn.DeliveredIsPrefix` | internal/tunnel/conn.go:45-68 | for all writes, fragmentations and buffers the bytes delivered are a prefix of those sent, growing until complete |
| `JobController.Controller.Reconcile` | internal/controller/dockerjob/reconciler.go:57-105 | the whole reconcile of a job that is not being deleted is one decision and effect of `JobModel` |
| `JobController.Controller.SyncJob` | internal/controller/dockerjob/reconciler.go:116-220 | creation, watching and exit refine the decision table |
| `JobController.Controller.StartJob` | internal/controller/dockerjob/reconciler.go:126-142 | a missing container is created, with the start time stamped after the calls, or the job fails |
| `JobController.Controller.WatchJob` | internal/controller/dockerjob/reconciler.go:150-171 | a running job past its deadline is stopped, removed and failed, each as far as it succeeds; otherwise adopted or left alone |
| `JobController.Controller.AfterExit` | internal/controller/dockerjob/reconciler.go:173-214 | success, retry and final failure are the decided action of the model |
| `JobController.Controller.Conclude` | internal/controller/dockerjob/reconciler.go:180-186 | the write comes first and takes time; the TTL is then measured from the stamp, to the second if the write landed |
| `JobController.Controller.RetryJob` | internal/controller/dockerjob/reconciler.go:192-208 | a retry replaces the container, clears exit code and completion time and counts, or fails the job |
| `JobController.Controller.HandleTTLCleanup` | internal/controller/dockerjob/reconciler.go:223-244 | removes the container exactly when the TTL has passed, otherwise returns the remaining delay |
| `JobController.Controller.SetStatus` | internal/controller/dockerjob/reconciler.go:247-258 | the whole new status, stamped before the write; the stored one changes exactly if the write lands |
| `JobController.Controller.CreateAndStartContainer` | internal/controller/dockerjob/reconciler.go:345-362 | a failed start leaves a created container behind; a taken name fails |
| `JobRuns.StatusConsistency` | internal/controller/dockerjob/reconciler.go:133-258 | in every run, even with lost writes: Succeeded has exit code 0, Failed never has, both have a completion time, others neither |
| `JobRuns.EndIsStored` | internal/controller/dockerjob/reconciler.go:173-214 | in every run the reconcile that ends a job stores the exit code of the container it found, the right message, attempts and completion time |
| `JobRuns.ExitCodeIsReal` | internal/controller/dockerjob/reconciler.go:174-178 | a stored exit code is that of a container of the run |
| `JobRuns.NothingDone` | internal/controller/dockerjob/reconciler.go:68-220 | without client, inspection or known state nothing changes |
| `JobRuns.ErrorExactly` | internal/controller/dockerjob/reconciler.go:68-200 | an error is returned exactly without client or inspection, or when a container that was due did not start |
| `JobRuns.PolledWhileRunning` | internal/controller/dockerjob/reconciler.go:141-208 | a job that goes on is looked at again after five seconds |
| `JobRuns.AdoptExactly` | internal/controller/dockerjob/reconciler.go:164-171 | a running container is left alone and its job stored as running |
| `JobRuns.RetryExactly` | internal/controller/dockerjob/reconciler.go:193-208 | the whole stored status and container after a retry, or its failure |
| `JobRuns.StartExactly` | internal/controller/dockerjob/reconciler.go:126-142 | the stored status and container after a first start, or its failure |
| `JobRuns.FinishedForGood` | internal/controller/dockerjob/reconciler.go:98-101 | once terminal, no step changes the status or starts a container |
| `JobRuns.AttemptsCountStarts` | internal/controller/dockerjob/reconciler.go:133-140 | attempts equals started containers less starts with a lost write, in int32 arithmetic, in every run |
| `JobRuns.RetryBound` | internal/controller/dockerjob/reconciler.go:192-207 | retries never exceed BackoffLimit plus the number of lost start writes, even with outside removals |
| `JobRuns.WrapReopensRetries` | internal/controller/dockerjob/reconciler.go:136-207 | past 2^31-1 starts the counter wraps and retries are granted again |
| `JobRuns.LargestLimitNeverStops` | internal/controller/dockerjob/reconciler.go:193-201 | with BackoffLimit 2^31-1 no run ever uses up the retries, whatever happens |
| `JobRuns.ExhaustionExactly` | internal/controller/dockerjob/reconciler.go:193-212 | failing by exhausted retries is reachable if and only if BackoffLimit is below 2^31-1 |
| `JobRuns.ExactAttempts` | internal/controller/dockerjob/reconciler.go:192-214 | an undisturbed job starts at most BackoffLimit + 1 containers, exactly so many when it fails by exhaustion |
| `JobRuns.JobTerminates` | internal/controller/dockerjob/reconciler.go:116-220 | at most 2(BackoffLimit + 1) + 1 moves, after which the job is terminal |
| `JobRuns.NeverStuck` | internal/controller/dockerjob/reconciler.go:116-220 | an unfinished job always has a move |
| `JobRuns.LostFailureSticks` | internal/controller/dockerjob/reconciler.go:126-132 | a job whose container did not start is ever seen as failed if and only if that write lands; otherwise no later reconcile changes anything |
| `JobRuns.SecondsExact` | internal/controller/dockerjob/reconciler.go:154 | the nanosecond product is exact if and only if the seconds are within 9223372036 |
| `JobRuns.TtlNeverOverflows` | internal/controller/dockerjob/reconciler.go:228 | every int32 TTL is exact |
| `JobRuns.DeadlineEnforced` | internal/controller/dockerjob/reconciler.go:151-162 | a running job is failed, with its container removed, exited or running as the calls left it, if and only if a start time is stored and now is past it plus the deadline |
| `JobRuns.KilledExactly` | internal/controller/dockerjob/reconciler.go:151-163 | over all runs of reconciles and time, a running container is left alone if and only if no reconcile with an effective stop, removal or write comes after the stored start plus the deadline |
| `JobRuns.KillOutcome` | internal/controller/dockerjob/reconciler.go:154-212 | what a kill leads to: failure by deadline, a new start with a new start time, success, a retry or exhaustion, each with its exact condition |
| `JobRuns.KillIsFinal` | internal/controller/dockerjob/reconciler.go:157-162 | after a deadline kill no further call is asked for |
| `JobRuns.LostStartIsNeverKilled` | internal/controller/dockerjob/reconciler.go:133-153 | a job whose start write was lost is never killed, whatever its deadline |
| `JobRuns.DeadlineOverflow` | internal/controller/dockerjob/reconciler.go:154-155 | a deadline of 9223372037 s kills at once |
| `JobRuns.StartTimeStep` | internal/controller/dockerjob/reconciler.go:133-140 | exactly the steps that start a missing container and land their write set the start time |
| `JobRuns.StartTimeExactly` | internal/controller/dockerjob/reconciler.go:126-208 | over every run the start time stays if and only if no such step comes in a later second |
| `JobRuns.StartTimeSurvives` | internal/controller/dockerjob/reconciler.go:201-206 | retries of an undisturbed job keep the start time, so the deadline covers the whole job |
| `JobRuns.RemovalRestartsDeadline` | internal/controller/dockerjob/reconciler.go:133-136 | an outside removal sets a new start time |
| `JobRuns.LostRetryRestartsDeadline` | internal/controller/dockerjob/reconciler.go:196-200 | so does a retry that cannot create its container and loses that write |
| `JobRuns.CleanupTiming` | internal/controller/dockerjob/reconciler.go:180-244 | cleanup comes after stored completion plus TTL if and only if the job was stored as finished or its last write landed |
| `JobRuns.RemovedUnfinishedExactly` | internal/controller/dockerjob/reconciler.go:180-244 | a container is removed while its job is stored as unfinished if and only if the last write is lost and took at least the TTL |
| `JobRuns.LostSuccessRunsAgain` | internal/controller/dockerjob/reconciler.go:180-214 | in that case and no other the next reconcile runs the job again, with a new start time |
| `JobRuns.WakeUpIsEnough` | internal/controller/dockerjob/reconciler.go:228-243 | waiting the returned delay always suffices for the cleanup |
| `JobRuns.DelayExactly` | internal/controller/dockerjob/reconciler.go:228-243 | in every run the returned delay ends exactly at stored completion plus TTL |
| `DeploymentController.Reconciler.Reconcile` | internal/controller/dockerdeployment/controller.go:54-127 | filter, sort and scale in int32 arithmetic; too few successful calls give an error and leave the status alone, otherwise available counts running children before scaling |
| `DeploymentController.Reconciler.Scale` | internal/controller/dockerdeployment/controller.go:76-102 | creates or terminates as the wrapped difference says |
| `DeploymentController.Reconciler.ScaleDown` | internal/controller/dockerdeployment/controller.go:90-101 | deletes newest first, stops at the first error, panics past the oldest |
| `DeploymentController.Reconciler.ScaleUp` | internal/controller/dockerdeployment/controller.go:80-89 | creates one by one, stops at the first error |
| `DeploymentController.Reconciler.UpdateAvailable` | internal/controller/dockerdeployment/controller.go:107-127 | the status counts the running children, if its update succeeds |
| `DeploymentController.DiffExactly` | internal/controller/dockerdeployment/controller.go:76-77 | the int32 difference is exact if and only if it is at least -2^31 |
| `DeploymentController.SucceedsExactly` | internal/controller/dockerdeployment/controller.go:76-102 | a reconcile in range succeeds if and only if as many calls succeed as children are missing or too many |
| `DeploymentController.ScaleUpReaches` | internal/controller/dockerdeployment/controller.go:80-89 | a scale-up ends with exactly the replica count of owned children, or one more per successful call, all others unchanged |
| `DeploymentController.ScaleDownReaches` | internal/controller/dockerdeployment/controller.go:90-101 | a scale-down marks exactly the newest surplus children, one per successful call, and nothing else |
| `DeploymentController.PanicsExactly` | internal/controller/dockerdeployment/controller.go:76-99 | a reconcile panics if and only if the replica count is negative, the difference does not wrap and all deletions succeed |
| `DeploymentController.NegativeReplicas` | internal/controller/dockerdeployment/controller.go:76-102 | the store after a negative count: all children deleted, nothing done, or children created, depending on the wrap |
| `DeploymentController.NegativeOutcome` | internal/controller/dockerdeployment/controller.go:76-102 | the outcome for every negative count |
| `DeploymentController.FilterOwned` | internal/controller/dockerdeployment/controller.go:63-69 | keeps exactly the controlled children |
| `DeploymentController.SortByAge` | internal/controller/dockerdeployment/controller.go:71-74 | a permutation ordered by creation time |
| `DeploymentController.ScaleDownIsRun` | internal/controller/dockerdeployment/controller.go:90-101 | a whole scale-down in a shared namespace is a run of the interleaved model on the owned children; all others are unchanged |
| `DeploymentController.ScaleUpIsRun` | internal/controller/dockerdeployment/controller.go:80-89 | a whole scale-up in a shared namespace is a run of the interleaved model on the owned children; all others are unchanged |
| `Deployment.OldestSurvive` | internal/controller/dockerdeployment/controller.go:63-102 | in every interleaving the oldest replicas are never deleted and at least min(replicas, count) children stay live |
| `DeploymentController.StoreKeepsOldest` | internal/controller/dockerdeployment/controller.go:54-102 | the same for whole reconciles in a namespace that other owners use and change |
| `Deployment.SafeExactly` | internal/controller/dockerdeployment/controller.go:71-101 | that live count holds in all runs if and only if creation times differ at the boundary |
| `ContainerController.FindByName` | internal/controller/dockercontainer/reconciler.go:138-152 | the first container that carries the name |
| `ContainerController.NeedsRecreate` | internal/controller/dockercontainer/reconciler.go:234-288 | true exactly when image, command, environment, restart policy or limits drift, as far as the inspect result has them |
| `ContainerController.ContainsAll` | internal/controller/dockercontainer/reconciler.go:250-268 | the nested search finds every wanted entry |
| `ContainerController.CreateAndStartContainer` | internal/controller/dockercontainer/reconciler.go:383-485 | builds the configuration from the spec, creates and starts |
| `ContainerSync.CreatedAsAsked` | internal/controller/dockercontainer/reconciler.go:392-438 | every field of the configuration is what the spec asks for |
| `ContainerController.BuildHealthCheck` | internal/controller/dockercontainer/reconciler.go:291-315 | durations that parse and positive retries are taken over |
| `ContainerSync.HealthExactly` | internal/controller/dockercontainer/reconciler.go:291-315 | a complete health check is taken over as it is, missing parts count as zero |
| `ContainerController.BuildBinds` | internal/controller/dockercontainer/reconciler.go:430-438 | one bind per volume, read-only where asked |
| `ContainerSync.BindText` | internal/controller/dockercontainer/reconciler.go:430-438 | the bind has the host path first, then the container path, then "ro" if asked |
| `ContainerController.BuildPorts` | internal/controller/dockercontainer/reconciler.go:441-463 | the loop binds the valid "host:container" entries |
| `ContainerSync.LastMappingWins` | internal/controller/dockercontainer/reconciler.go:441-463 | a container port is bound to a host port if and only if the last valid entry for it is the text "host:container" |
| `ContainerSync.BindingExactly` | internal/controller/dockercontainer/reconciler.go:443-455 | an entry binds exactly what the text "host:container" says |
| `ContainerController.SyncContainer` | internal/controller/dockercontainer/reconciler.go:129-231 | finds, reports, starts, and on drift stops and replaces, for every combination of failing calls |
| `ContainerController.UpdateStatus` | internal/controller/dockercontainer/reconciler.go:158-200 | the stored status is what was found, if the write lands |
| `ContainerController.DeleteExternalResources` | internal/controller/dockercontainer/reconciler.go:568-606 | fails exactly if the container cannot be removed; otherwise removes it and every tunnel container whose removal succeeds, nothing else |
| `ContainerController.TunnelNamesExactly` | internal/controller/dockercontainer/reconciler.go:584-597 | the removed tunnels are those named "-tunnel-" and a port number after the container or the object |
| `ContainerSync.FreshDoesNotDrift` | internal/controller/dockercontainer/reconciler.go:409-427 | a container made from a spec does not drift from it |
| `ContainerSync.SyncReachesSpec` | internal/controller/dockercontainer/reconciler.go:129-231 | from every host state one error-free sync leaves one container of the name, running and without drift, and no other touched |
| `ContainerSync.SuccessIsReal` | internal/controller/dockercontainer/reconciler.go:129-231 | a sync that reports success left the container running and, if inspected, in sync; one that reports failure had a failing call |
| `ContainerSync.SyncedIsFixpoint` | internal/controller/dockercontainer/reconciler.go:129-231 | a further sync creates, starts and removes nothing |
| `ContainerSync.StatusIsWhatWasFound` | internal/controller/dockercontainer/reconciler.go:158-200 | the stored status is what was found before starting or replacing |
| `ContainerSync.StatusCatchesUp` | internal/controller/dockercontainer/reconciler.go:158-200 | after two error-free syncs the stored status shows the running container, its health and its address |
| `ContainerSync.FixpointExactly` | internal/controller/dockercontainer/reconciler.go:141-156 | two syncs equal one if and only if the spec names its container |
| `ContainerSync.ChangeAppliedExactly` | internal/controller/dockercontainer/reconciler.go:234-288 | a changed spec leaves the host alone if and only if nothing of the change is compared: dropped entries, cleared fields, envVars, volumes, ports and health check are not |
| `ContainerSync.FailedSyncIsContained` | internal/controller/dockercontainer/reconciler.go:129-231 | a sync with failing calls touches no other container |
| `ContainerSync.FailedReplacement` | internal/controller/dockercontainer/reconciler.go:207-226 | a drifted container that cannot be removed stays, stopped exactly if the stop succeeded |
| `Finalizer.NoOrphan` | internal/controller/dockercontainer/reconciler.go:94-121 | in every run a container that removal can find exists only while the object carries the finalizer, which goes only when no such container is left |
| `Orphans.NoOrphanExactly` | internal/controller/dockercontainer/reconciler.go:94-121 | on the Docker host, over all runs: the containers made for an object are gone when its finalizer is, if and only if the spec names its container |
| `Orphans.UnnamedIsNeverRemoved` | internal/controller/dockercontainer/reconciler.go:568-576 | containers of an unnamed spec are never removed by any sync or deletion |
| `Finalizer.Reconciler.Reconcile` | internal/controller/dockercontainer/reconciler.go:87-121 | uninterrupted, it takes steps of the model and succeeds exactly when its calls do; success guards a live object, and removes a deleted one only with its container gone |
| `Finalizer.Reconciler.DeleteObject` | internal/controller/dockercontainer/reconciler.go:102-113 | the object goes exactly if its update lands and, in the strict copy, the container's removal succeeded |
| `Finalizer.JobNoOrphan` | internal/controller/dockerjob/reconciler.go:76-96 | the same for jobs while removals succeed |
| `Finalizer.JobOrphanExactly` | internal/controller/dockerjob/reconciler.go:76-96 | over every run, a container without a guarded object exists if and only if a removal failed, the finalizer was dropped and none was set since |
| `Finalizer.JobCanOrphan` | internal/controller/dockerjob/reconciler.go:84-96 | such a run exists |
| `ClientCache.ClientStore.GetDockerClient` | internal/controller/dockercontainer/reconciler.go:616-704 | load, expire, resolve and store as specified |
| `ClientCache.SystemMattersExactly` | internal/controller/dockercontainer/reconciler.go:637-655 | what "system" holds matters if and only if the caller's namespace has no host of the name |
| `ClientCache.RemoteExactly` | internal/controller/dockercontainer/reconciler.go:637-695 | a remote answer has the URL of the own host, else of the "system" host, and the TLS secret of the caller's namespace |
| `ClientCache.LocalExactly` | internal/controller/dockercontainer/reconciler.go:648-655 | the local socket is used exactly for "default" with no readable host |
| `ClientCache.CacheIsUsed` | internal/controller/dockercontainer/reconciler.go:624-629 | for five minutes the same client is returned and nothing changes |
| `ClientCache.CacheRefinesLookup` | internal/controller/dockercontainer/reconciler.go:623-704 | every returned client is open and reaches what the lookup of the same namespace and host gave within five minutes, in both copies |
| `ClientCache.LostExactly` | internal/controller/dockerservice/reconciler.go:606-671 | after any run an open client can still be closed or returned by later calls if and only if it is not in `Lost` |
| `ClientCache.LostIsDroppedOrParked` | internal/controller/dockerservice/reconciler.go:668-671 | the lost clients are those in no entry and those under an empty reference |
| `ClientCache.GetLosesExactly` | internal/controller/dockerservice/reconciler.go:606-671 | a call loses no client but its own, and that one if and only if it falls back or is the service's and stores with an empty reference |
| `ClientCache.RunLosesExactly` | internal/controller/dockerservice/reconciler.go:606-671 | over every run, as many clients are lost for good as calls fell back or stored with an empty reference |
| `ClientCache.CommonLosesExactly` | internal/controller/dockercontainer/reconciler.go:623-701 | the other copies lose a client in a run if and only if some call fell back to the local socket |
| `ClientCache.ServiceLosesAll` | internal/controller/dockerservice/reconciler.go:606-671 | n calls with an empty reference and a usable host lose n clients |
| `ClientCache.SameKeySameHost` | internal/controller/dockerservice/reconciler.go:606-668 | a stored key is loaded only for the same namespace and host, although load and store keys differ |
| `MemoryLimit.CanonicalValue` | internal/controller/dockercontainer/reconciler.go:336-360 | a printed integer and unit parse to its product with 1, 1024, 1024^2 or 1024^3 if and only if that fits an int64; both parsers agree |
| `MemoryLimit.CaseAndSpaceIgnored` | internal/controller/dockercontainer/reconciler.go:337 | case and surrounding white space do not matter |
| `MemoryLimit.StrayCharacterIsZero` | internal/controller/dockercontainer/reconciler.go:355-358 | a stray character makes the strict parser give zero |
| `MemoryLimit.AgreeExactly` | internal/controller/dockerjob/reconciler.go:385-405 | the parsers agree if and only if nothing follows the number, or it has no digits, is outside int64 or scales to a multiple of 2^64 |
| `MemoryLimit.FractionDiffers` | internal/controller/dockerjob/reconciler.go:402-404 | "1.5g" is 0 for one parser and 1 GiB for the other |

## Left out

- Docker, Kubernetes, yamux, WebSocket and HTTP libraries: modelled by the assumptions above.
- The gateway, log streaming, flag parsing and the DockerHost reconciler: thin wiring.
- TLS material, registry credentials, secret upload and tokens: whether a call succeeds is a choice of the step.
- CPU limits through float64 and the tunnel client and Deployment objects of the DockerService reconciler: would add only easy members.
- ContainerID and message texts in a job's status: not part of any property here. Which network's address an inspection gives is a choice of the step, since it depends on map order.
- GoStrings.ToLower: leaves letters alone whose lower-case form is outside ASCII, because restart policies and units are ASCII.
- GoStrings.Split: strings are sequences of characters; invalid UTF-8 is not modelled.
- ContainerController.CreateAndStartContainer: registry credentials and secret contents are not modelled, and duration and port texts are taken as parsed by their libraries.
- ServicePublisher.Publisher.Reconcile: the Service, Secret and Deployment objects it also writes are not modelled.
- TunnelServer.Server.Register: token check and protocol upgrade before it are not modelled.
- Finalizer.Reconciler.Reconcile: what the sync does on the host is in `ContainerSync`; here it only leaves a container or none.
- The object that `constructContainer` builds for a new replica, and the random suffix of its name: copied fields, easy members.
- Deployment.OldestSurvive: the replica count is fixed and users delete no children themselves.
- The restarts that Docker itself makes for a job's restart policy: not visible to the operator.
- Finalizer.NoOrphan: container name and host of an object are fixed, and users do not take the finalizer off by hand; what removal can find is in `Orphans`.
- Orphans.NoOrphanExactly: one sync or removal on the host is one step; a daemon may answer the removal of an empty name as not found or with an error.
- TunnelServer.Server.Accept: opening the stream and copying bytes after the selection are not modelled.
