# Eviction manager: pressure loop and eviction dispatch

This project models the core of the node eviction agent's eviction manager,
which guards a machine against CPU, memory, disk I/O and network I/O
pressure. Every tick (every 10 s in the source), its pressure loop re-reads
the node's taint flags from the cluster and the node condition from the
condition manager. It then taints every busy resource that the cluster
reports untainted, so a taint call that failed is retried on the next busy
tick. It untaints every resource that the cluster reports tainted and that
has been available for strictly longer than the grace period since it was
last busy. It also pushes at most one eviction signal onto a channel. The dispatcher turns
each received signal into at most one action: no action when choosing a
victim fails, otherwise either evicting the victim pod or labelling it with
a priority.

Modules:

- `Types` (`types.dfy`) defines the values: resources, signals, the
  reported taint flags (`NodeTaint`), the node condition, and the events a
  tick produces. An event is either a cluster-client call
  (`ClearAllEvictLabels`, `SetTaintConditions(kind, Taint|UnTaint)`) or a
  push of a signal onto the eviction channel (`Send`). One ordered trace
  holds both, so it records where the push falls among the taint calls.
- `Pressure` (`pressure.dfy`) gives one tick as a function, `TickSpec`. Its
  inputs are the four last-busy timestamps, the reported flags and the
  tick's sample: time, grace period, whether the flag read failed, and the
  condition. Its lemmas state what a tick does. The file also gives the
  intended network signal selection next to the one in the code.
- `Manager` (`manager.dfy`) holds the class `EvictionManager`. Its fields
  are `nodeTaint` and the four `lastTaint*Time` timestamps. `Tick` runs one
  loop iteration in place. It is proved to produce exactly the events and
  timestamps of `TickSpec`.
- `Dispatch` (`dispatch.dfy`) models `evictOnePod`.
- `Cluster` (`cluster.dfy`) runs consecutive ticks against a cluster that
  applies every taint call and nothing else. This gives the multi-tick
  properties: one taint call per run of busy ticks, and untaint anchored at
  the last busy tick.

Times and durations are integers (nanoseconds). A new manager starts every
timestamp at 0, which stands for Go's zero time.

Where the code and its design description disagree, the model follows the
code:

- The design says a successful taint or untaint call updates the manager's
  taint state. In the code, `nodeTaint` is never set after such a call. It
  is overwritten from the cluster at the start of every tick, even when that
  read fails. So "edge-triggered" means relative to the flag the cluster
  reports.
- The design says a receive-only network failure is signalled as
  receive-busy. The code tests the transmit flag twice (see Findings).

## Model

| member | source | states |
|---|---|---|
| `Manager.EvictionManager.constructor` | pkg/evictionmanager/eviction_manager.go:35-45 | A new manager has no taint flag set and all four last-busy timestamps at the zero time. |
| `Manager.EvictionManager.Tick` | pkg/evictionmanager/eviction_manager.go:95-259 | One loop iteration overwrites `nodeTaint` with the reported flags. Its events, in order, and its new timestamps are exactly those of `Pressure.TickSpec` on the old timestamps, so every lemma about `TickSpec` holds of the class. |
| `Manager.EvictionManager.Branch` | pkg/evictionmanager/eviction_manager.go:119-259 | Any one of the four resource sections, CPU, Memory, DiskIO or NetworkIO. The NetworkIO section differs in two ways. It counts the network as available only when both receive and transmit are (line 225). It picks its signal as lines 252-256 do, testing transmit twice, so it may push nothing. An available, tainted resource is untainted when `now - last > grace`. A busy resource is stamped with `now`, tainted if reported untainted, and pushes its section's signal if `isEvicted` is still false. `isEvicted` becomes true exactly when the resource is busy or it already was true. The flags and the other timestamps are unchanged. |
| `Pressure.TickSpec` | pkg/evictionmanager/eviction_manager.go:96-259 | One whole tick as a function. Every stamp either stays or becomes `now`. No stamp moves on a failed read or on the fast path. `ClearAllEvictLabels` never appears off the fast path. What the tick does in full is stated by the lemmas from `Pressure.SkippedTick` to `Pressure.AsWrittenAgainstIntended` below: which calls it makes and which signal it pushes, and by `Pressure.CallOrder` and `Pressure.PushPlacement`, in which order. |
| `Pressure.TaintCalls` | pkg/evictionmanager/eviction_manager.go:120-146 | The taint decision of one section (also lines 155-181, 190-216 and 225-248). At most one call, and only about that resource. A taint call only for a busy resource reported untainted. An untaint call only for an available, tainted resource whose grace period has strictly run out. `Pressure.OwnCalls` gives the exact counts in both directions. |
| `Pressure.OwnCalls` | pkg/evictionmanager/eviction_manager.go:120-146 | One section makes exactly one taint call when the resource is busy and reported untainted, and none otherwise. It makes exactly one untaint call when the resource is available, tainted and `now - last > grace`, and none otherwise. |
| `Pressure.SignalFor` | pkg/evictionmanager/eviction_manager.go:249-257 | The signal a busy resource's section pushes (also lines 147-151, 182-186 and 217-221). CPU, Memory and DiskIO always push a signal naming that resource. The NetworkIO selection as written never gives `NetworkTxBusy`. `Pressure.NetworkSignalAsWritten` states its network cases. |
| `Pressure.SkippedTick` | pkg/evictionmanager/eviction_manager.go:98-102 | A tick whose taint-flag read fails makes no call, pushes no signal and keeps every timestamp. |
| `Pressure.FastPath` | pkg/evictionmanager/eviction_manager.go:107-116 | `ClearAllEvictLabels` is called exactly when the read succeeds, all five availability flags are true and no taint flag is set. It is then the tick's only event, and no timestamp changes. |
| `Pressure.BusyTimestamp` | pkg/evictionmanager/eviction_manager.go:135-138 | In a processed tick, a resource's last-busy stamp becomes `now` exactly when the resource is unavailable, whatever its taint flag. Every other stamp is kept (also lines 173, 208, 240). |
| `Pressure.TaintCall` | pkg/evictionmanager/eviction_manager.go:139-146 | A processed tick makes exactly one `SetTaintConditions(r, Taint)` call for `r` when `r` is unavailable and reported untainted, and none otherwise. |
| `Pressure.UnTaintCall` | pkg/evictionmanager/eviction_manager.go:120-134 | A processed tick makes exactly one `SetTaintConditions(r, UnTaint)` call for `r` when `r` is available, reported tainted, and `now - lastBusy(r) > grace` strictly. It makes none otherwise, so none when the elapsed time equals the grace period. |
| `Pressure.OneCallPerResource` | pkg/evictionmanager/eviction_manager.go:119-152 | A tick makes at most one taint-state call per resource. |
| `Pressure.FirstBusyIsFirst` | pkg/evictionmanager/eviction_manager.go:119-259 | The resource that wins a tick is the unavailable one whose higher-priority resources (order CPU, Memory, DiskIO, NetworkIO) are all available. There is none exactly when all are available. |
| `Pressure.TickSignal` | pkg/evictionmanager/eviction_manager.go:147-151 | The pushed signals of a tick are those of its first busy resource, selected as that resource's section selects them. None are pushed on a failed read or when nothing is busy. |
| `Pressure.OneSignalPerTick` | pkg/evictionmanager/eviction_manager.go:118-151 | A tick pushes at most one signal. A pushed signal names a resource that is unavailable and all of whose higher-priority resources are available. |
| `Pressure.BusyHostSignalled` | pkg/evictionmanager/eviction_manager.go:147-151 | When CPU, Memory or DiskIO is the first busy resource, its signal is pushed even if that resource is already tainted. |
| `Pressure.CallOrder` | pkg/evictionmanager/eviction_manager.go:119-248 | The taint-state calls of a tick come in section order: of any two calls, the earlier is about a resource of strictly higher priority (CPU, Memory, DiskIO, NetworkIO). |
| `Pressure.PushPlacement` | pkg/evictionmanager/eviction_manager.go:139-151 | The push falls after the pushed resource's own taint call (lines 139-151, and likewise 241-257): every call before it is about the pushed resource or a higher-priority one, and every call after it is about a lower-priority one. So a signal is pushed after that resource's taint call, whatever the call's outcome. |
| `Pressure.NetworkSignalAsWritten` | pkg/evictionmanager/eviction_manager.go:249-257 | When network is the first busy resource, the tick pushes `NetworkRxBusy` if transmit is down. It pushes nothing if only receive is down. |
| `Pressure.NetworkTxBusyNeverSent` | pkg/evictionmanager/eviction_manager.go:252-256 | No tick ever pushes `NetworkTxBusy`. |
| `Pressure.RxOnlyPressureUnsignalled` | pkg/evictionmanager/eviction_manager.go:252-256 | A concrete tick: network is the only busy resource, only receive is down, and no signal is pushed. |
| `Pressure.IntendedNetworkSignal` | pkg/evictionmanager/eviction_manager.go:250-257 | The corrected selection gives a signal exactly when the network is unavailable. It gives `NetworkRxBusy` exactly when receive is down, and `NetworkTxBusy` exactly when only transmit is down. |
| `Pressure.IntendedSignal` | pkg/evictionmanager/eviction_manager.go:118-257 | With the corrected network selection, a processed tick (one whose flag read succeeded) has a signal exactly when some resource is unavailable. The signal names the first busy resource in priority order. |
| `Pressure.AsWrittenAgainstIntended` | pkg/evictionmanager/eviction_manager.go:249-257 | The code's tick pushes the intended signal except when network wins with exactly one direction down. Then a receive-only failure pushes nothing, and a transmit-only failure pushes `NetworkRxBusy` where `NetworkTxBusy` is intended. |
| `Dispatch.EvictOnePod` | pkg/evictionmanager/eviction_manager.go:73-88 | At most one client call per signal, with no retry. There is no call exactly when choosing the victim fails. Otherwise the one call is on the chosen pod: `EvictPod` when the choice says evict, or else `LabelPod` with the chosen priority and `Add`. |
| `Cluster.Ticks` | pkg/evictionmanager/eviction_manager.go:93-260 | Successive iterations of the loop, run against a cluster that applies every call. A run in which every flag read fails does nothing and changes nothing. What a run does is stated by `Cluster.TaintOncePerBusyRun` and `Cluster.StampIsLastBusy`. |
| `Cluster.TaintOncePerBusyRun` | pkg/evictionmanager/eviction_manager.go:139-146 | Suppose the cluster applies every call, and every processed tick of a run finds `r` unavailable. Then the run makes one taint call for `r` if `r` starts untainted and some tick is processed, otherwise none, and never an untaint call for `r`. |
| `Cluster.StampIsLastBusy` | pkg/evictionmanager/eviction_manager.go:135-138 | After any run of ticks, a resource's stamp is the time of the run's last processed busy sample for it, or its initial stamp if there was none. |
| `Cluster.UnTaintAfterGrace` | pkg/evictionmanager/eviction_manager.go:124-133 | After a run, the next tick untaints `r` only if strictly more than its grace period has passed since the run's last busy sample for `r`. |
| `Cluster.CPURoundTrip` | pkg/evictionmanager/eviction_manager.go:93-260 | With a 30 s grace period, consider a CPU-busy tick followed by good ticks 10 s, 30 s and 40 s later. The busy tick taints CPU and pushes `CPUBusy`. The next two ticks do nothing, because 30 s is not more than the grace period. The last tick untaints CPU, and the flags end clear. |

## Left out

- The `Run` goroutine, the blocking `select` on the eviction channel and the blocking send into the capacity-1 channel (lines 49-69, 150) are not modelled: a push is a `Send` event in the tick's trace, and the dispatcher is modelled per received signal, so backpressure (a full channel stalling the loop) is not captured.
- `time.Sleep` between ticks and the wall clock are not modelled: `now` is an input. The source calls `time.Now()` afresh at each use inside a tick; the model uses one `now` per tick.
- Durations are compared as `float64` minutes in the source (line 126 and its siblings) and `Time.Sub` saturates at about 292 years; the model compares integer nanoseconds with a strict `>`, without rounding or saturation.
- Errors from `SetTaintConditions`, `EvictOnePod` and `LabelPod` are only logged by the source, and the result of `ClearAllEvictLabels` is ignored (line 114). None of them changes anything, so the model records each call attempt and no result.
- The grace period, node condition and victim choice come from the condition manager, whose internals (`Start`, `GetNodeCondition`, `GetUnTaintGracePeriod`, `ChooseOnePodToEvict`) are not part of this model; they are inputs. The same holds for the cluster client.
- Logging is not modelled: it has no effect on state.
- `NewEvictionManager` is modelled only as the initial field values (the constructor); building the condition manager from a configuration file is not modelled. The struct's `unTaintGracePeriod` field is never written by the loop and is not modelled.
- Cluster.TaintOncePerBusyRun: holds only under the assumption that the cluster applies every taint call and nothing else changes the taints; the source gives no such guarantee, and with failing taint calls the source retries the taint every busy tick.
- Cluster.UnTaintAfterGrace: relies on the same run model, in which each tick reads the flags the previous ticks' calls left.

## Findings

| source | as written | input that shows it | evidently intended | confidence | as-written member | corrected member |
|---|---|---|---|---|---|---|
| pkg/evictionmanager/eviction_manager.go:252-256 | The network sub-signal tests `!NetworkTxAvailabel` twice, so `NetworkTxBusy` is unreachable. A transmit-only failure is signalled as `NetworkRxBusy`, and a receive-only failure is not signalled at all. | CPU, memory and disk I/O available, network receive down, transmit up: the tick taints NetworkIO but pushes no signal. | Receive down gives `NetworkRxBusy`; otherwise transmit down gives `NetworkTxBusy`. | high, not executed | `Pressure.RxOnlyPressureUnsignalled` | `Pressure.IntendedNetworkSignal` |
