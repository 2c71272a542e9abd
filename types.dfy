/**
 The values the eviction manager's pressure loop reads and writes: the four
 resource dimensions a node can be tainted for, the eviction signals pushed
 to the dispatcher, the taint flags reported by the cluster, the node
 condition reported by the condition manager, and the externally visible
 events of one tick.
 */
module Types {

  datatype Option<T> = None | Some(value: T)

  /** A resource dimension with its own node taint (the taint kinds
      CPUBusy, MemBusy, DiskIO and NetworkIO of the source). */
  datatype Resource = CPU | Memory | DiskIO | NetworkIO

  /** Position of a resource in the evaluation order of one tick, which is
      also its eviction priority: CPU, then Memory, then DiskIO, then
      NetworkIO. */
  function Rank(r: Resource): (n: nat)
    ensures n < 4
  {
    match r
    case CPU => 0
    case Memory => 1
    case DiskIO => 2
    case NetworkIO => 3
  }

  /** The kind carried by an eviction signal. NetworkIO pressure is split
      into a receive and a transmit identity. */
  datatype Signal = CPUBusy | MemBusy | DiskIOBusy | NetworkRxBusy | NetworkTxBusy

  /** The resource whose pressure a signal reports. */
  function SignalResource(s: Signal): Resource
  {
    match s
    case CPUBusy => CPU
    case MemBusy => Memory
    case DiskIOBusy => DiskIO
    case NetworkRxBusy => NetworkIO
    case NetworkTxBusy => NetworkIO
  }

  datatype TaintAction = Taint | UnTaint

  /** The node's taint flags as the cluster reports them (NodeTaintInfo). */
  datatype NodeTaint = NodeTaint(diskIO: bool, networkIO: bool, cpu: bool, memory: bool)
  {
    predicate Tainted(r: Resource)
    {
      match r
      case CPU => cpu
      case Memory => memory
      case DiskIO => diskIO
      case NetworkIO => networkIO
    }

    /** The same flags with the one for `r` set to `v`. */
    function Set(r: Resource, v: bool): (t: NodeTaint)
      ensures t.Tainted(r) == v
      ensures forall q :: q != r ==> t.Tainted(q) == Tainted(q)
    {
      match r
      case CPU => this.(cpu := v)
      case Memory => this.(memory := v)
      case DiskIO => this.(diskIO := v)
      case NetworkIO => this.(networkIO := v)
    }

    /** No taint flag is set. */
    predicate Clear()
    {
      !diskIO && !networkIO && !cpu && !memory
    }
  }

  /** The point-in-time availability booleans of the node. */
  datatype NodeCondition = NodeCondition(
    networkRxAvailable: bool,
    networkTxAvailable: bool,
    diskIOAvailable: bool,
    cpuAvailable: bool,
    memoryAvailable: bool)
  {
    /** Network counts as available only when both directions are. */
    predicate Available(r: Resource)
    {
      match r
      case CPU => cpuAvailable
      case Memory => memoryAvailable
      case DiskIO => diskIOAvailable
      case NetworkIO => networkRxAvailable && networkTxAvailable
    }

    predicate AllAvailable()
    {
      networkRxAvailable && networkTxAvailable && diskIOAvailable && cpuAvailable && memoryAvailable
    }
  }

  /** What one tick does that is visible outside the manager, in order: a
      call on the cluster client, or a push onto the eviction channel. */
  datatype Event =
    | ClearAllEvictLabels
    | SetTaintConditions(kind: Resource, action: TaintAction)
    | Send(signal: Signal)

  /** The signals pushed by a trace, in order. */
  function Sent(es: seq<Event>): (s: seq<Signal>)
    ensures |s| <= |es|
    ensures forall i :: 0 <= i < |s| ==> Send(s[i]) in es
  {
    if es == [] then []
    else if es[0].Send? then [es[0].signal] + Sent(es[1..])
    else Sent(es[1..])
  }

  lemma {:induction false} SentAppend(a: seq<Event>, b: seq<Event>)
    ensures Sent(a + b) == Sent(a) + Sent(b)
  {
    if a == [] {
      assert a + b == b;
    } else {
      assert (a + b)[1..] == a[1..] + b;
      SentAppend(a[1..], b);
    }
  }

  lemma {:induction false} SentNone(es: seq<Event>)
    requires forall e :: e in es ==> !e.Send?
    ensures Sent(es) == []
  {
    if es != [] {
      SentNone(es[1..]);
    }
  }
}
