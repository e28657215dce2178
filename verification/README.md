# Kubeport, modelled and proved

Kubeport keeps Kubernetes port-forwards alive. This project models the parts of
it that have real state or arithmetic, in the form the Go code has (classes
whose methods update fields, loops over lists and maps, recursive functions),
and proves what those parts are for. `dafny verify dfyconfig.toml` checks it.

| file | models |
|---|---|
| `ledger.dfy` | the manager's books as a step machine: forwards, order, children, resolutions outstanding |
| `removal.dfy`, `families.dfy` | the exact effect of a removal, alone and with resolutions landing between its steps; services and the forwards they own |
| `reload.dfy`, `manager.dfy` | `Reload`, `ReleaseBySource`, `Mappings` and the commands, as a class over those books |
| `external.dfy` | which configured services another instance owns |
| `supervise.dfy`, `health.dfy` | the restart loop with its backoff and its events; both health loops |
| `throttle.dfy` | the bandwidth limiter |
| `hook_template.dfy` | `${VAR}` expansion |
| `address.dfy`, `registry.dfy` | DNS names to local ports and back; the table shared by all clients |
| `config.dfy`, `config_merge.dfy`, `config_extends.dfy` | configuration entities, merging, the extends chain |
| `socks.dfy`, `end_to_end.dfy` | the SOCKS5 handshake (RFC 1928 sections 3 to 6, RFC 1929 section 2); a SOCKS client reaching a pod |
| `text.dfy`, `wrappers.dfy` | strings, decimal numerals, host:port; `Option` and `Result` |

The pattern is the same throughout. A method is proved against a specification
function; the properties are lemmas about that function, for every input, run or
reachable state. Where a promised property turned out not to hold of the code,
the code is kept, a lemma names an input on which it fails, and another says
exactly when it holds.

## What turned out not to hold as stated

- **Template expansion** is a chain of ten replacements. It equals one
  simultaneous substitution exactly when no stretch of the template forges a
  variable. `$${SERVICE}{POD}` for an event without a service is such a forgery:
  the first replacement leaves `${POD}`, which a later one replaces. Sanitising
  the values is enough when every `$` of the template begins a variable.
- **The bandwidth window bound**, without slack, holds of every run of a limiter
  that starts full exactly when the rate divides 10^9. Otherwise a burst and one
  byte already break it, because the sleep is cut down to whole nanoseconds. With
  a slack of less than `rate` × 1 ns it holds of every rate and every bucket.
- **Pacing**: a call that waits behind another is released exactly at the rate
  after it when its own cost, `n * 10^9 / rate`, is a whole number of nanoseconds,
  and only then; so every such call is exactly when the rate divides 10^9.
- **The backoff** follows `min(initial * 2^k, max)` exactly when `initial` is
  zero and `max` is not negative, or `0 < initial <= max < 2^62` ns. A larger
  `initial` is waited out uncapped; with a larger `max`, or a negative
  `initial`, the doubling overflows and the backoff changes its sign.
- **No orphans** fails when a multi-port service is added, removed and added
  again before its first resolution ends. The resolution that lands second
  overwrites the list of the first.
- **The shared address table** stops being the union of the live clients once a
  client whose addresses overlap another's drops them.
- **Child lists** need not name the children. A resolution leaves sound lists
  exactly when it names no child twice and none like a forward or a multi-port
  service that is there. A port reported twice makes the removal of the parent
  report an error although the parent is gone. A user's own service called
  `web/http` is listed by a multi-port `web` that finds a port `http`, and is
  deleted with it. Removing a child by its own name, which is allowed, spoils its
  parent's list too.
- **Reload keeps a running multi-port service** of quiescent books exactly when
  it is valid as configured now, provided its name has no slash. With a slash it
  can be lost although it is valid: `web/http` cannot be put back when `web`
  resolves a port `http` between its removal and its re-add. From other books,
  with nothing in between, it needs a sound list, too: the removal from a spoiled
  one reports an error and the re-add is skipped
  (internal/proxy/manager.go:658-661).
- **A reload converges** exactly when nothing that belongs here is refused, no
  such name is a child's, and nothing owned elsewhere still runs here. Whether
  something is refused can be told before the call in two cases. With no
  multi-port service to resolve: unless the services to add are valid and their
  fixed ports distinct and free. With multi-port services to resolve, when no name
  to add has a slash and no port is fixed: exactly those that are not valid.
- **No multi-port service falls silent**: with a name without a slash it has
  children, or shows its failure, or is being resolved, in every reachable state.
  With a slash it falls silent exactly when a removal of another service, whose
  list has its name, deletes the entry that showed its failure.
- **A release of one configuration's services** leaves some of them behind
  exactly when a multi-port service from it shows a failed resolution: the entry
  that shows the failure has no source (internal/proxy/manager.go:800-805). This
  is after runs in which no multi-port service is re-added while it is being
  resolved, and with nothing under way. From any quiescent books nothing is left
  exactly when each such parent owns another forward from that source. A service
  that is still being resolved when the release comes is not released either.
- **A service that is not forwarded** is not necessarily left alone: the fuzzy
  lookup takes the label `svc` of `web.ns.svc.cluster.local` for a namespace, and
  connects to a forward for `web` in any namespace when there is one on the port.
- **A refresh that ends after its client was closed** puts back addresses of no
  live client, unless some live client has each of them, too.

## Model

| member | source | states |
|---|---|---|
| Ledger.ReachableIsConsistent | internal/proxy/manager.go:521-589 | in every state of every interleaving of adds, removals (between their steps too), resolutions and state changes, order lists exactly the keys of forwards, once; identities are distinct; forwards that are not children have distinct configured ports |
| Ledger.NextKeepsConsistent | internal/proxy/manager.go:726-772 | every single step keeps that |
| Ledger.ReachableHasNoOrphans | internal/proxy/manager.go:846-864 | if no multi-port service is re-added while a resolution of it is outstanding, every child is on its parent's list or waiting in the removal in progress, siblings come from one source, and each outstanding resolution is the only one of its name and of an empty list |
| Ledger.ReachableIsAlive | internal/proxy/manager.go:785-864 | in every state of every interleaving a multi-port service without a slash in its name has children, or an entry of its own, or a resolution outstanding |
| Ledger.ShowsIff | internal/proxy/manager.go:521-864 | a step leaves a multi-port service, whatever its name, without any of these if and only if it removes, for another service, the entry that was the last |
| Ledger.RemovedLeavesNothing | internal/proxy/manager.go:558-589 | after a removal nothing of the removed service is left, and a resolution that lands later adds nothing |
| Ledger.ResolutionOrphansIff | internal/proxy/manager.go:846-864 | a late resolution keeps the books free of orphans exactly when it lists every child its name already has |
| Ledger.OrphanExample | internal/proxy/manager.go:846-864 | the run add, remove, add, resolve, resolve that leaks a child |
| Ledger.RegisterFrame | internal/proxy/manager.go:846-864 | registering children keeps every existing forward, adds only listed children of that parent, and leaves every listed name taken |
| Ledger.InsertKeepsPorts | internal/proxy/manager.go:736-749 | the port check of an add keeps configured ports distinct |
| Ledger.RefusedIff | internal/proxy/manager.go:726-749 | a valid service is refused exactly when its name is a forward's or a multi-port service's, or when it asks for a fixed port that some forward was configured with or, configured with none, has come to listen on |
| Ledger.ObservedPortIsRefused | internal/proxy/manager.go:736-749 | a port that a forward for any port reports listening on is refused to the next service that asks for it; the forward stands in the way of no other port any more |
| Ledger.LandsAsWritten | internal/proxy/manager.go:785-864 | the end of a resolution, field by field: each free name gets the forward of the first port of that name, with that port's local and remote port and the parent's target, namespace and source, after the others and in the order of the ports; the list names the ports; a failure is shown by an entry without a source; a parent that is gone gets nothing |
| Ledger.ChildIsValidIff | internal/proxy/manager.go:817-844 | a child of a valid service is itself valid exactly when its two ports are port numbers |
| Removal.RemoveIsExact | internal/proxy/manager.go:558-589 | a removal deletes exactly the name and its listed children and keeps the others in order |
| Removal.RemoveSucceedsIff | internal/proxy/manager.go:558-589 | it reports success exactly when everything it was to remove was there, once |
| Removal.InterleavedRemovalIsExact | internal/proxy/manager.go:521-589 | whatever resolutions land between its steps, afterwards exactly the targets are gone, every other forward is the identical one, and whatever is new belongs to a parent that is there |
| Removal.BesideMoves | internal/proxy/manager.go:785-864 | a resolution or state change removes and replaces nothing; what it adds is accounted for by a parent that is there |
| Families.RemoveTakesTheService | internal/proxy/manager.go:558-589 | on quiescent books, removing a name that is nobody's child takes out that service with all it owns, and succeeds exactly when there is one |
| Families.WithoutKeepsQuiescent | internal/proxy/manager.go:558-589 | taking out whole services keeps the books quiescent |
| Families.WithoutTwice | internal/proxy/manager.go:621-653 | services leave independently, so the order of a map does not matter |
| Families.TargetsAreOwned | internal/proxy/manager.go:558-589 | what a removal takes is exactly what the service owns |
| Families.RemovingAChildSpoilsItsParent | internal/proxy/manager.go:558-589 | removing a child by name succeeds and makes the later removal of its parent fail |
| Families.RepeatedPortSpoilsItsParent | internal/proxy/manager.go:817-864 | after a resolution with two ports of one child name the removal of the parent fails, and the parent is gone all the same |
| Families.TakenNameIsRemovedToo | internal/proxy/manager.go:850-863 | a child name that is somebody else's forward leaves that forward as it is, is listed all the same, and is deleted with the parent it never had |
| Families.TakenNameExample | internal/proxy/manager.go:850-863 | a run from empty books that gets there, for every such pair of services |
| Families.LiveAfterResolutionIff | internal/proxy/manager.go:846-864 | a landing resolution keeps all lists sound if and only if it names no child twice and none like a forward or a multi-port service that is there |
| Families.QuiescentAfterResolutionIff | internal/proxy/manager.go:785-864 | it is exactly then that the last resolution to land leaves the books quiescent; a failed one always does |
| Families.ReplacedStaysIff | internal/proxy/manager.go:656-669 | from any books whose map and order agree, and with nothing in between, a multi-port service that is taken down and put back stays if and only if everything on its list was there, once, and its configuration is valid |
| Families.LandingTakesItsName | internal/proxy/manager.go:656-669 | a valid one with a sound list that is named like a child of another service is refused when that child arrives in between |
| Families.ReleaseIsExact | internal/proxy/manager.go:1830-1861 | with every parent resolved, what a release leaves are exactly the forwards of other sources, in the order they had |
| Families.FailedParentStays | internal/proxy/manager.go:797-813 | after any run without re-adding, when nothing is under way, a multi-port service with a failed entry of its own is not among those released with any source |
| Families.FailedParentExample | internal/proxy/manager.go:797-813 | such a service is there after a first resolution that fails |
| Families.ReachableFailedAlone | internal/proxy/manager.go:797-813 | in every state of such a run the entry of a failed parent has no source, and the parent has an empty list and no resolution to come |
| Families.ReleaseLeavesOnlyFailed | internal/proxy/manager.go:1830-1861 | after any such run a release leaves no forward of a service from that source if and only if no multi-port service from it shows a failed resolution |
| Families.ReachableIsSourced | internal/proxy/manager.go:762-768 | in every reachable state an entry has the source of its service, unless it shows a failed resolution and has none |
| Families.ReleaseLeavesNothingIff | internal/proxy/manager.go:1830-1861 | a release leaves no forward of a service from that source if and only if every parent with an entry of its own from it owns another forward from it |
| Reloading.ReloadsInTheEnd | internal/proxy/manager.go:593-698 | from what the phases of a reload leave to its whole result: services, counts, identical survivors, re-added services valid and resolving or resolved, whatever is new added or resolved here, fixed ports distinct and free, and everything refused still refused by the books it leaves |
| Reloading.ReloadConvergesIff | internal/proxy/manager.go:593-698 | afterwards the services are exactly the configured ones not owned elsewhere, if and only if nothing that belongs here was refused, no such name is a child's, and nothing owned elsewhere still runs here |
| Reloading.SinglesConvergeIff | internal/proxy/manager.go:593-698 | with no multi-port service to resolve, it converges if and only if the services to add are valid, their fixed ports distinct and not a survivor's, nothing owned elsewhere runs here, and no desired name is a child's: all known before the call |
| Reloading.PlainConvergeIff | internal/proxy/manager.go:593-698 | so it is known before the call with multi-port services running and being added, when no name to add has a slash and no port is fixed: exactly when those not owned elsewhere are valid, what runs here of another instance's is dropped as not valid, and no desired name is a child's |
| Reloading.AgainStaysIff | internal/proxy/manager.go:655-669 | a running multi-port service without a slash in its name stays if and only if it is valid as configured now, whatever lands during the reload |
| Reloading.EveryoneShowsInTheEnd | internal/proxy/manager.go:655-695 | once the resolutions have landed, every multi-port service the reload added, again or for the first time, has children or shows a failure, unless its name has a slash |
| Reloading.PlainServicesAreAdded | internal/proxy/manager.go:655-695 | whatever is resolved meanwhile, a valid service without a fixed port and not named like a child is never refused |
| Reloading.ReloadIsIdempotent | internal/proxy/manager.go:593-698 | where the services are the configured ones not owned elsewhere, a reload adds and removes nothing, keeps each single-port forward identical, and loses nothing unless a multi-port service is malformed or named like a child |
| Reloading.ReloadedThen | internal/proxy/manager.go:785-864 | resolutions landing during a reload disturb nothing of it |
| Reloading.ReloadedRemove | internal/proxy/manager.go:656-661 | taking a parent down for its re-add removes exactly its old forwards |
| Reloading.RefusedForAReason | internal/proxy/manager.go:726-756 | a service refused during a reload is malformed, or its name is that of a child of a service resolved in this reload, or a forward that is there afterwards has its fixed port |
| Reloading.ReloadedTopLevel | internal/proxy/manager.go:655-695 | the services while a reload is under way |
| Reloading.DesiredAreTheNames | internal/proxy/manager.go:616-619 | the desired services are exactly the names that occur in the configuration, each as the last service of that name says |
| PortForwardManager.Manager.constructor | internal/proxy/manager.go:280-304 | empty books |
| PortForwardManager.Manager.ReserveForward | internal/proxy/manager.go:726-772 | refuses a taken name or port, and otherwise reserves or registers, as the ledger says |
| PortForwardManager.Manager.AddService | internal/proxy/manager.go:476-497 | refuses exactly a malformed service, a taken name or a taken port, the name and the port written out over the forwards there are |
| ConfigTypes.ValidateService | pkg/config/config.go:1099-1176 | the checks in their order fail exactly for the services that are not valid |
| ConfigTypes.OneTarget | pkg/config/config.go:1099-1112 | a valid service has exactly one target, and is as valid with the other kind of target of that name |
| PortForwardManager.Manager.SuperviseMulti | internal/proxy/manager.go:785-864 | the end of a resolution is the ledger's step, and what LandsAsWritten writes out field by field |
| PortForwardManager.Manager.DeleteFromOrder | internal/proxy/manager.go:529-534 | deletes the first occurrence of a name in place |
| PortForwardManager.Manager.RemoveSingle | internal/proxy/manager.go:521-535 | takes one entry out of the map and the order, or reports that it is missing |
| PortForwardManager.Manager.RemoveService | internal/proxy/manager.go:558-589 | from any consistent books, with resolutions landing between its steps, takes exactly the targets and keeps orderly books orderly; with none outstanding equals the ledger's removal, error included |
| PortForwardManager.Manager.RemoveAll | internal/proxy/manager.go:621-653 | a loop of removals in any order, resolutions landing in between: the names and what they list are gone, and nothing else but what has a slash; on quiescent books exactly those services leave, and it counts those there were |
| PortForwardManager.Manager.SetExternalForwards | internal/proxy/manager.go:324-341 | replaces the overlay and returns the names that were not in it |
| PortForwardManager.Manager.RefreshExternalForwards | internal/proxy/manager.go:358-374 | stops exactly what just became external, in the same sense |
| PortForwardManager.Manager.RemoveStale | internal/proxy/manager.go:621-653 | removes exactly the services no longer configured and counts them |
| PortForwardManager.Manager.ReplaceService | internal/proxy/manager.go:656-669 | one take-down and re-add, resolutions landing in between: a multi-port service that could be removed and has no slash in its name stays exactly when it is valid; with none outstanding it is exactly the ledger's replacement |
| PortForwardManager.ReplacesStaysIff | internal/proxy/manager.go:656-669 | whatever lands in between, it stays if and only if it is valid and no resolution has taken its name meanwhile, which takes a slash in it |
| PortForwardManager.Manager.ReAdd | internal/proxy/manager.go:655-669 | every configured multi-port service that was running was replaced and is valid, except those the books refuse |
| PortForwardManager.Manager.AddNew | internal/proxy/manager.go:680-695 | every missing service not owned elsewhere was added, or is refused by the books it leaves |
| PortForwardManager.Manager.Reload | internal/proxy/manager.go:593-698 | the whole result of a reload, whatever the iteration order and whenever resolutions land: identical survivors, re-added services valid and resolving or resolved, refusals with what stands in their way; and, written over the names of the configuration and of the reports alone, which services there are afterwards, what single ones look like, what is external, and both counts |
| PortForwardManager.Manager.ReloadServices | internal/proxy/manager.go:605-698 | the three passes from quiescent books: the overlay keeps exactly the externals that are configured, and services, counts, survivors and refusals are those of a whole reload |
| PortForwardManager.ReloadGoesByNames | internal/proxy/manager.go:593-698 | every whole result of a reload is one over the names: afterwards there are those that ran and are configured, and those configured ones that were missing, are not owned elsewhere and are not refused, as the last service of each name says; removed counts those that were not configured, added those that were missing |
| PortForwardManager.OverlayIsTheLast | internal/proxy/manager.go:324-341 | a name is external exactly when some report is of it, and then as the last such report says |
| PortForwardManager.Manager.ReloadAgain | internal/proxy/manager.go:593-698 | the same reload called again after one that converged and whose resolutions have landed: nothing added, nothing removed, overlay unchanged, single-port forwards identical, and nothing lost but multi-port services with a slash in their name |
| PortForwardManager.SecondReload | internal/proxy/manager.go:593-698 | so it is for every result a second reload may have, its refresh of the pruned overlay included |
| PortForwardManager.Manager.ReleaseBySource | internal/proxy/manager.go:1830-1861 | takes out owners of the forwards of that source, whatever is outstanding or spoiled; on quiescent books exactly every owner, and returns their number |
| PortForwardManager.ReleaseTakesTheSource | internal/proxy/manager.go:1830-1861 | from any orderly books a release takes every forward from the source, and leaves every single forward from another one identical unless its name has a slash |
| PortForwardManager.ReleaseSkipsUnresolved | internal/proxy/manager.go:1830-1861 | a multi-port service whose ports are still being resolved has no forward yet and is not released, whatever its source |
| PortForwardManager.Manager.Mappings | internal/proxy/manager.go:1619-1702 | the rows of the forwards in order; a row is there exactly when it gives one of the names of a Running forward that has a port and a target, with its own ports, the four of a service or the two of a pod |
| External.DetectExternalConflicts | internal/proxy/external.go:27-85 | the reports of the specification |
| External.ConflictsAreOwned | internal/proxy/external.go:27-85 | reports are of configured services owned elsewhere, each name once, with the right owner |
| External.ClaimedAreReported | internal/proxy/external.go:62-84 | every configured service owned elsewhere is reported |
| External.ClaimIff | internal/proxy/external.go:41-58 | a service is claimed exactly by a forward of its name or on its static port |
| External.ReportsNameTheOwner | internal/proxy/external.go:27-85 | every report names the instance that owns the service, the last forward of its name or, if there is none, the last on its static port; a name is reported exactly when a service of that name is owned so, and the first owned one is the one reported |
| Supervise.RestartsAreAccounted | internal/proxy/manager.go:1046-1180 | disconnected events number the restarts 1, 2, ...; attempts are restarts plus preemptions while the loop goes on; a failure occurs at most once, last, at the limit |
| Supervise.WaitsFollowSchedule | internal/proxy/manager.go:1155-1180 | whenever the schedule is followed, the k-th wait since a reset is based on min(initial * 2^k, max) and within a quarter of it |
| Supervise.KthWait | internal/proxy/manager.go:1155-1180 | counted in attempts: when the last ones all dropped within thirty seconds, or with stream errors, and the one before them did not, the next wait is based on min(initial * 2^k, max) for the k waits since |
| Supervise.BackoffFollowsScheduleIff | internal/proxy/manager.go:1179 | for all 64-bit durations the doubling follows the schedule for ever if and only if initial <= max, and initial is zero or positive with max < 2^62 ns |
| Supervise.BackoffAtHead | internal/proxy/manager.go:1046-1180 | the backoff at a loop head is the one after as many waits as since the last reset |
| Supervise.JitterIsAQuarter | internal/proxy/manager.go:1395-1399 | the jitter stays within a quarter of the duration |
| Supervise.JitterIsLinear | internal/proxy/manager.go:1395-1399 | and goes from three quarters of the duration to five with the random number, to within a nanosecond |
| Supervise.DeadStaysDead | internal/proxy/manager.go:1046-1180 | nothing happens after the loop returned |
| Supervise.StateShowsLastEvent | internal/proxy/manager.go:1046-1180 | the state of the forward shows the last event of its loop, in every run |
| Supervise.PortForward.SuperviseSingle | internal/proxy/manager.go:1046-1180 | the loop over any script of outcomes ends in the state and with the events of the step function |
| Health.StreakMeansLastFailed | internal/proxy/manager.go:1372-1390 | the counter is at least t exactly when the last t probes failed |
| Health.VerdictByEvents | internal/proxy/manager.go:1328-1391 | the first verdict in terms of the events themselves: the context ends, the tunnel or the agent closes, more stream errors than at the start, or the last threshold ticks all failed their probe |
| Health.MuxHealthLoop | internal/proxy/manager.go:1328-1391 | ends at the first event that ends it; for health exactly at the first tick whose last threshold probes all failed |
| Health.IsolatedSession.Supervise | internal/proxy/isolated.go:128-189 | the same for the isolated loop; hints and age change the pod and never the counter |
| Health.PodIsTheLastChange | internal/proxy/isolated.go:128-189 | the pod new clients go to is what the last event that changes it says: none after an expiry, the resolved one after a hint |
| Health.ProbesInOrder | internal/proxy/isolated.go:128-189 | the counter sees the answers of all probe events, in order, and nothing else |
| Throttle.RateLimiter.constructor | internal/proxy/throttle.go:24-30 | one second of burst |
| Throttle.RateLimiter.Wait | internal/proxy/throttle.go:35-65 | one step of the bucket; returns after its sleep unless cancelled before |
| Throttle.StepIsVirtualScheduling | internal/proxy/throttle.go:35-65 | the bucket refines virtual scheduling: an arrival moves the horizon to max(horizon, now - 1s) plus its own cost |
| Throttle.HorizonIsLatestBusyPeriod | internal/proxy/throttle.go:35-65 | the horizon after k calls is the latest finish of any busy period among them |
| Throttle.WindowBound | internal/proxy/throttle.go:35-65 | between the releases of any two calls passes at most a burst (or the first request) plus rate times time, plus the nanosecond slack |
| Throttle.WindowBoundExactIff | internal/proxy/throttle.go:35-65 | the bound holds without slack over all runs of a limiter started full if and only if the rate divides 10^9 |
| Throttle.ReleasesInOrder | internal/proxy/throttle.go:35-65 | releases are in call order |
| Throttle.BackloggedPacing | internal/proxy/throttle.go:35-65 | a call that arrives before the previous release is served exactly its own cost later on the horizon, and within a nanosecond of it after the sleep is cut |
| Throttle.PacedExactlyIff | internal/proxy/throttle.go:35-65 | of any bucket, that one call is released exactly at the rate after the previous one if and only if its own cost is a whole number of nanoseconds |
| Throttle.AllPacedExactlyIff | internal/proxy/throttle.go:35-65 | all backlogged calls of all runs of a limiter started full are if and only if the rate divides 10^9 |
| Throttle.BackloggedPacingExact | internal/proxy/throttle.go:35-65 | for such a rate, of any bucket, the release is n * (10^9 / rate) ns after the previous one |
| HookTemplate.PassesAreSimultaneousIff | internal/hook/template.go:26-47 | the chain of replacements equals one simultaneous substitution if and only if nothing is forged |
| HookTemplate.NoLiteralDollarSuffices | internal/hook/template.go:26-47 | so it does whenever every dollar sign of the template begins a variable |
| HookTemplate.OrderDoesNotMatter | internal/hook/template.go:31-46 | for such templates the order of the table does not matter |
| HookTemplate.EmptyValueForges | internal/hook/template.go:43-45 | a family of templates on which an empty value makes the two differ |
| HookTemplate.EventTableIsValid | internal/hook/template.go:31-42 | for every event the tokens are distinct and no substituted value contains a dollar sign or a brace |
| HookTemplate.EventHasTenRows | internal/hook/template.go:31-42 | which of the ten variables stands for which field, and which values are sanitised |
| HookTemplate.RowStandsFor | internal/hook/template.go:43-46 | in one reading a variable becomes its value wherever it stands, and what follows is expanded in the same way |
| HookTemplate.VariablesBecome | internal/hook/template.go:26-47 | what the ten replacements make of each variable of an event: between any two texts without a dollar sign, the value of its own field is put in its place |
| HookTemplate.EventNames | internal/hook/hook.go:32-57 | the ten kinds of events have these ten names |
| HookTemplate.SanitizedIsClean | internal/hook/template.go:54-66 | no stripped character remains |
| HookTemplate.SanitizedInPieces | internal/hook/template.go:54-66 | sanitising goes through a text piece by piece |
| HookTemplate.SanitizedCharacter | internal/hook/template.go:56-62 | it drops exactly these sixteen characters and keeps every other |
| HookTemplate.CleanStays | internal/hook/template.go:54-66 | a value without stripped characters is unchanged |
| HookTemplate.SanitizeShellValue | internal/hook/template.go:54-66 | the loop computes it |
| HookTemplate.ReplaceEach | internal/hook/template.go:43-46 | the loop over a table, equal to simultaneous substitution exactly when nothing is forged |
| HookTemplate.ExpandVars | internal/hook/template.go:26-47 | the loop over the table of an event: simultaneous exactly when nothing is forged, and each of the ten variables becomes the value of its own field |
| Address.TableLookup | internal/daemon/server.go:389-407 | the flattened table maps a key exactly to the last forward in order that has it |
| Address.Flatten | internal/daemon/server.go:392-401 | the loop that builds the table |
| Address.RowsWrittenOut | internal/proxy/manager.go:1641-1699 | a Running forward with a port and a target has these rows, four for a service and two for a pod, with its remote port and its local one, the configured one when it has no actual port; any other forward has none |
| Address.RowIff | internal/proxy/manager.go:1619-1702 | so a row is in the list exactly when it is one of those of some forward |
| Address.UpIsReached | internal/proxy/manager.go:1619-1702 | every Running forward is reached at its own local port by each of its names that gives the namespace and by its pod's full name behind any headless service, in terms of states, ports, targets and namespaces alone |
| Address.PodReachesItsOwnPort | pkg/proxy/client.go:311-345 | a pod's full name behind any headless service resolves to that pod's own local port, whatever runs elsewhere under the same pod name and port |
| Address.HeadlessTranslation | pkg/proxy/client.go:311-345 | that name resolves to the last forward for the pod in its namespace, else for the pod in any |
| Address.HeadlessNameParts | pkg/proxy/client.go:371-381 | the pod and the namespace are read off the name |
| Address.NameReachesItsOwnPort | internal/proxy/manager.go:1663-1698 | every name of a forward that gives its namespace, short or full, of a service or a pod, resolves to its own local port, fuzzily or not |
| Address.UnforwardedServiceGoesElsewhere | pkg/proxy/client.go:311-345 | the full name of a service that is not forwarded resolves fuzzily to the last forward of that target and port in a namespace called svc, else in any; without the fuzzy lookup it is left alone |
| Address.ShortNameReachesLast | internal/proxy/manager.go:1663-1698 | a short name is ambiguous and reaches the last forward |
| EndToEnd.ProxiedPodIsReached | pkg/proxy/socks.go:126-164 | from the bytes on the wire: a SOCKS client, with or without credentials, that asks for the full name of the pod of a Running forward has its request read, its payload left, and its connection sent to that forward's own local port |
| Registry.TableIsSound | pkg/proxy/global_resolver.go:51-110 | over any run of joins, refreshes and closes every entry is the mapping of some live client |
| Registry.CompletenessIff | pkg/proxy/global_resolver.go:71-110 | a step keeps an entry for every key of a live client if and only if the client does not drop a key another one still maps, with the value the table shows |
| Registry.DisjointClientsGiveUnion | pkg/proxy/global_resolver.go:51-110 | if live clients never share a key the table is exactly their union |
| Registry.UnionLostExample | pkg/proxy/global_resolver.go:93-110 | a run that ends with disjoint clients and an incomplete table |
| Registry.AddressRegistry.Merge | pkg/proxy/global_resolver.go:51-64 | adds the addresses and shows the table to every resolver |
| Registry.AddressRegistry.Swap | pkg/proxy/global_resolver.go:71-90 | replaces one client's addresses by its new ones and shows the table to every resolver |
| Registry.AddressRegistry.Remove | pkg/proxy/global_resolver.go:93-110 | removes the addresses that still have the given value and shows the table to every resolver |
| Registry.AddressRegistry.Build | pkg/proxy/global_resolver.go:123-137 | a new resolver shows the table |
| Registry.AddressRegistry.CloseResolver | pkg/proxy/global_resolver.go:160-164 | a closed resolver is forgotten |
| Registry.Client.Refresh | pkg/proxy/client.go:251-264 | of an open client it is the machine's step, of a closed one the same swap of the table, and nothing happens when the fetch fails |
| Registry.LateRefreshIff | pkg/proxy/client.go:251-264 | the refresh of a closed client keeps every entry vouched for if and only if some live client has each of the new entries |
| Registry.Client.Close | pkg/proxy/client.go:235-249 | a close is the machine's step |
| ConfigMerge.MergeListsAssociative | pkg/config/merge.go:115-176 | merging lists by name is associative, for all lists |
| ConfigMerge.MergeLookup | pkg/config/merge.go:115-176 | a lookup finds the override, else the base |
| ConfigMerge.MergeKeepsUnique | pkg/config/merge.go:115-176 | unique names stay unique |
| ConfigMerge.MergeServices | pkg/config/merge.go:115-140 | the loops compute that merge: base order, overrides in place, then what is new |
| ConfigMerge.ServicesInPlace | pkg/config/merge.go:115-140 | a service of the base keeps its place and is what the last override of its name says, if there is one; then come exactly the overrides of other names |
| ConfigMerge.MergeHooks | pkg/config/merge.go:145-176 | the same for hooks, whose unnamed ones are always kept |
| ConfigMerge.HooksInPlace | pkg/config/merge.go:145-176 | the same of hooks; unnamed ones of the base stay as they are and unnamed overrides are all appended |
| ConfigMerge.MergeAssociative | pkg/config/merge.go:16-98 | merging whole configurations is associative, the rule for unset switches included |
| ConfigMerge.MergedPrefers | pkg/config/merge.go:16-98 | of each string the override is taken when it is set and else the base, the three network strings included; chaos, SOCKS and HTTP proxy as wholes by their enabled |
| ConfigMerge.MergeConfigs | pkg/config/merge.go:16-67 | the assignments compute that merge: each setting of the child when it is set, else the parent's |
| ConfigMerge.MergeSupervisor | pkg/config/merge.go:71-98 | field by field, set values win |
| ConfigExtends.LoadIff | pkg/config/config.go:715-740 | a load has a result exactly when a chain of distinct files from its path ends there: the fold of the merges, a repeated path, an unreadable file or an unresolvable reference |
| ConfigExtends.LoadFollowsChain | pkg/config/config.go:715-740 | following a chain gives its outcome |
| ConfigExtends.LoadHasChain | pkg/config/config.go:715-740 | every load follows a chain to one |
| ConfigExtends.SettingsComeFromNearest | pkg/config/config.go:715-740 | any setting that a merge takes from the child when it is set there comes from the file nearest the child that sets it |
| ConfigExtends.ServicesComeFromNearest | pkg/config/config.go:715-740 | so does a service |
| ConfigExtends.ServiceComesFromNearest | pkg/config/config.go:715-740 | a service is in the result exactly when it is the last of its name in the nearest file that has the name |
| ConfigExtends.LoadedFromChain | pkg/config/config.go:715-740 | of whatever is loaded, each of the strings, the network strings, the supervisor's settings and numbers, and chaos, SOCKS and HTTP proxy, is that of the nearest file of the chain that sets it, or the root's when none does; the services are exactly the last of their name in the nearest file that has the name |
| Socks.NegotiationIff | pkg/proxy/socks.go:170-255 | negotiation succeeds exactly on a greeting with the required method and, when required, the right credentials, and consumes exactly those |
| Socks.RequestIff | pkg/proxy/socks.go:257-311 | a request is read exactly from its own encoding, and nothing more is consumed |
| Socks.HandshakeIff | pkg/proxy/socks.go:126-164 | both together, in both directions |
| Socks.ClientRoundTrip | pkg/proxy/socks.go:170-311 | what a client encodes is what the server reads; exactly the payload is left, exactly the expected replies are written |
| Socks.OnTheWire | pkg/proxy/socks.go:170-311 | byte by byte as RFC 1928 and RFC 1929 number them: what a client sends with and without credentials, what it is answered, and the host and port that are read, high byte first |
| Socks.NoMethodOnTheWire | pkg/proxy/socks.go:182-199 | a greeting without the required method is answered 5, 255 |
| Socks.WrongCredentialsOnTheWire | pkg/proxy/socks.go:201-255 | other credentials are answered 1, 1 and nothing more is read |
| Socks.BadRequestOnTheWire | pkg/proxy/socks.go:257-311 | a command other than CONNECT is answered 7 and an unknown address type 8 |
| Socks.IPv4ReadsBack | pkg/proxy/socks.go:257-311 | the address dialled for an IPv4 request reads as its four bytes, in order, and its port |
| Socks.Conn.ReadFull | pkg/proxy/socks.go:170-180 | reads n bytes or fails with the stream used up |
| Socks.SocksServer.Negotiate | pkg/proxy/socks.go:170-199 | the method refines the specification, errors and replies included |
| Socks.SocksServer.NegotiateUserPass | pkg/proxy/socks.go:201-255 | so does the sub-negotiation |
| Socks.SocksServer.Presented | pkg/proxy/socks.go:182-255 | with a user name or a password set nobody gets past the handshake without presenting both |
| Socks.SocksServer.ReadRequest | pkg/proxy/socks.go:257-311 | so does the request |
| Socks.SocksServer.SendReply | pkg/proxy/socks.go:313-320 | writes the reply, ignoring errors |
| Socks.SocksServer.HandleConn | pkg/proxy/socks.go:126-164 | a relay starts exactly after a complete handshake and a successful dial; the ten-byte reply says 0 then and 1 after a failed dial; with a user name or a password set, both were presented |
| Text.SplitJoin | pkg/proxy/client.go:311-345 | splitting what was joined gives host and port back |
| Text.DecimalInjective | internal/proxy/manager.go:1647-1652 | different ports have different numerals |
| Text.DecimalReadsBack | internal/proxy/manager.go:1647-1652 | a numeral reads as its number, with digits only and no leading zero |

## Left out

- PortForwardManager.Manager.Reload: starts from quiescent books, that is with no resolution outstanding and child lists that name exactly the live children, and from externals that are nobody's child; ReplacedStaysIff says what its second pass makes of other lists. Commands of other callers between those of one reload are not modelled.
- PortForwardManager.Manager.ReloadServices: same starting point.
- PortForwardManager.Manager.ReloadAgain: same starting point, which QuiescentAfterResolutionIff characterises.
- PortForwardManager.Manager.ReAdd: same starting point; its single step, ReplaceService, starts from any orderly books.
- PortForwardManager.Manager.RemoveStale: same starting point; RemoveAll, which it calls, starts from any orderly books.
- PortForwardManager.Manager.RemoveAll: not for the empty name; its count is stated on quiescent books only, and so for RefreshExternalForwards and ReleaseBySource, which call it. Books with a leaked child are left to RemoveService.
- PortForwardManager.Manager.RemoveService: not for the empty name, which the command loop takes for no command and never answers (internal/proxy/manager.go:459).
- PortForwardManager.Manager.AddService: the parsing of network and chaos settings, which can also refuse a service, is not modelled.
- ConfigTypes.ValidService leaves that parsing out.
- Removal is an effect on the books. The removed forward's own supervisor, which ends only with the manager, is not modelled.
- A forward is a value with an identity rather than a shared object; changes of its state and port are events of the step machine, so in the class none happens between or during commands.
- Throttle.RateLimiter.Wait: balances are exact reals, so the rounding of floats is not modelled; nor are latency, jitter and the splitting of writes around the limiter.
- Supervise.JitterIsAQuarter: same, with the random number as an input. The supervisor's hooks, logging and statistics are left out.
- Health: what arrives on the select of a loop is an input, and so is the outcome of a probe.
- HookTemplate: ExpandVarsJSON, whose values may contain dollar signs, and JSON itself. Strings are sequences of characters; a timestamp is any text of its alphabet.
- Address: the proxy's other listeners (HTTP), IPv6 rendering (an arbitrary function), and names that contain dots or colons themselves.
- Registry.Client.Refresh: refresh and close are atomic steps; two of them on one client at once, and notifications that overtake each other, are not modelled.
- ConfigExtends.LoadIff: files and the resolution of references between them are inputs; YAML, TOML and environment overrides are not modelled. Floats in chaos settings are reals.
- Port resolution, pod selection, the clock and the network are inputs; transports, TLS, gRPC, the CLI, hook execution and lazy forwards are not modelled.
