/**
 One tick of the pressure loop, as a function of the last-busy timestamps,
 the taint flags the cluster reports and the tick's sample. The class in
 module Manager runs the same tick step by step; the lemmas here state what
 a tick does: the fast path, the skipped tick, the busy timestamps, the
 edge-triggered taint and grace-gated untaint calls, and the choice of the
 one eviction signal.
 */
module Pressure {
  import opened Types

  /** The last tick at which each resource was observed unavailable, in
      nanoseconds; 0 is the initial (zero) time. */
  datatype Stamps = Stamps(cpu: int, mem: int, diskIO: int, netIO: int)
  {
    function Get(r: Resource): int
    {
      match r
      case CPU => cpu
      case Memory => mem
      case DiskIO => diskIO
      case NetworkIO => netIO
    }

    /** The same stamps with the one for `r` replaced by `t`. */
    function With(r: Resource, t: int): (st: Stamps)
      ensures st.Get(r) == t
      ensures forall q :: q != r ==> st.Get(q) == Get(q)
    {
      match r
      case CPU => this.(cpu := t)
      case Memory => this.(mem := t)
      case DiskIO => this.(diskIO := t)
      case NetworkIO => this.(netIO := t)
    }
  }

  /** What a tick reads: the time, the untaint grace period, whether reading
      the taint flags failed, and the node condition. */
  datatype Sample = Sample(now: int, grace: int, readErr: bool, cond: NodeCondition)

  /** What a tick produces: its ordered events and the new timestamps. */
  datatype Outcome = Outcome(effects: seq<Event>, stamps: Stamps)

  /** The fast path: every resource available and no taint flag set. */
  predicate Quiet(flags: NodeTaint, cond: NodeCondition)
  {
    cond.AllAvailable() && flags.Clear()
  }

  /** The taint or untaint call a tick makes for one resource: at most one
      call, about that resource only, a taint only for a busy resource the
      cluster reports untainted, an untaint only for an available tainted
      one whose grace period has strictly run out. */
  function TaintCalls(r: Resource, flags: NodeTaint, last: int, s: Sample): (calls: seq<Event>)
    ensures |calls| <= 1
    ensures forall e :: e in calls ==> e.SetTaintConditions? && e.kind == r
    ensures SetTaintConditions(r, Taint) in calls ==> !s.cond.Available(r) && !flags.Tainted(r)
    ensures SetTaintConditions(r, UnTaint) in calls ==>
      s.cond.Available(r) && flags.Tainted(r) && s.now - last > s.grace
  {
    if s.cond.Available(r) then
      if flags.Tainted(r) && s.now - last > s.grace then [SetTaintConditions(r, UnTaint)] else []
    else if !flags.Tainted(r) then [SetTaintConditions(r, Taint)] else []
  }

  /** The first unavailable resource in evaluation order. */
  function FirstBusy(cond: NodeCondition): Option<Resource>
  {
    if !cond.Available(CPU) then Some(CPU)
    else if !cond.Available(Memory) then Some(Memory)
    else if !cond.Available(DiskIO) then Some(DiskIO)
    else if !cond.Available(NetworkIO) then Some(NetworkIO)
    else None
  }

  /** The signal pushed for a busy resource, as the source selects it: the
      network sub-signal tests the transmit flag twice, so a transmit
      failure yields NetworkRxBusy and a receive-only failure yields none. */
  function SignalFor(r: Resource, cond: NodeCondition): (o: Option<Signal>)
    ensures o.Some? ==> SignalResource(o.value) == r
    ensures r != NetworkIO ==> o.Some?
    ensures o != Some(NetworkTxBusy)
  {
    match r
    case CPU => Some(CPUBusy)
    case Memory => Some(MemBusy)
    case DiskIO => Some(DiskIOBusy)
    case NetworkIO =>
      if !cond.networkTxAvailable then Some(NetworkRxBusy)
      else if !cond.networkTxAvailable then Some(NetworkTxBusy)
      else None
  }

  function SendFor(r: Resource, cond: NodeCondition): seq<Event>
  {
    match SignalFor(r, cond)
    case Some(sig) => [Send(sig)]
    case None => []
  }

  /** The events of one resource's branch: its taint call, then the signal
      if it is the tick's first busy resource. */
  function Block(r: Resource, flags: NodeTaint, stamps: Stamps, s: Sample): (b: seq<Event>)
    ensures ClearAllEvictLabels !in b
  {
    TaintCalls(r, flags, stamps.Get(r), s)
      + (if FirstBusy(s.cond) == Some(r) then SendFor(r, s.cond) else [])
  }

  /** Timestamps after a full tick: every unavailable resource is stamped
      with the tick's time. */
  function BusyStamps(stamps: Stamps, s: Sample): (st: Stamps)
    ensures forall r :: st.Get(r) == if s.cond.Available(r) then stamps.Get(r) else s.now
  {
    Stamps(
      if s.cond.Available(CPU) then stamps.cpu else s.now,
      if s.cond.Available(Memory) then stamps.mem else s.now,
      if s.cond.Available(DiskIO) then stamps.diskIO else s.now,
      if s.cond.Available(NetworkIO) then stamps.netIO else s.now)
  }

  /** One tick: skipped when reading the taint flags failed, the single
      label clean-up on the fast path, and otherwise the four resource
      branches in order. */
  function TickSpec(stamps: Stamps, flags: NodeTaint, s: Sample): (o: Outcome)
    ensures forall r :: o.stamps.Get(r) == stamps.Get(r) || o.stamps.Get(r) == s.now
    ensures s.readErr || Quiet(flags, s.cond) ==> o.stamps == stamps
    ensures !s.readErr && !Quiet(flags, s.cond) ==> ClearAllEvictLabels !in o.effects
  {
    if s.readErr then Outcome([], stamps)
    else if Quiet(flags, s.cond) then Outcome([ClearAllEvictLabels], stamps)
    else Outcome(
      Block(CPU, flags, stamps, s) + Block(Memory, flags, stamps, s)
        + Block(DiskIO, flags, stamps, s) + Block(NetworkIO, flags, stamps, s),
      BusyStamps(stamps, s))
  }

  /** The signal a tick pushes, as a sequence of at most one element. */
  function Expected(o: Option<Signal>): (s: seq<Signal>)
    ensures |s| <= 1
  {
    match o
    case Some(sig) => [sig]
    case None => []
  }

  // ---------------------------------------------------------------------
  // Properties of the first busy resource

  lemma FirstBusyIsFirst(cond: NodeCondition)
    ensures FirstBusy(cond) == None <==> cond.AllAvailable()
    ensures forall r :: FirstBusy(cond) == Some(r) <==>
      !cond.Available(r) && forall q :: Rank(q) < Rank(r) ==> cond.Available(q)
  {
    forall r
      ensures FirstBusy(cond) == Some(r) <==>
        !cond.Available(r) && forall q :: Rank(q) < Rank(r) ==> cond.Available(q)
    {
      if !cond.Available(r) && forall q :: Rank(q) < Rank(r) ==> cond.Available(q) {
        match r
        case CPU =>
        case Memory => assert cond.Available(CPU) by { assert Rank(CPU) < Rank(r); }
        case DiskIO =>
          assert Rank(CPU) < Rank(r) && Rank(Memory) < Rank(r);
        case NetworkIO =>
          assert Rank(CPU) < Rank(r) && Rank(Memory) < Rank(r) && Rank(DiskIO) < Rank(r);
      }
    }
  }

  // ---------------------------------------------------------------------
  // One tick

  /** A tick whose taint-flag read failed does nothing. */
  lemma SkippedTick(stamps: Stamps, flags: NodeTaint, s: Sample)
    requires s.readErr
    ensures TickSpec(stamps, flags, s).effects == []
    ensures TickSpec(stamps, flags, s).stamps == stamps
  {
  }

  /** A single ClearAllEvictLabels call happens exactly on the fast path,
      and then it is the tick's only event and no timestamp moves. */
  lemma FastPath(stamps: Stamps, flags: NodeTaint, s: Sample)
    ensures ClearAllEvictLabels in TickSpec(stamps, flags, s).effects <==> !s.readErr && Quiet(flags, s.cond)
    ensures !s.readErr && Quiet(flags, s.cond) ==>
      TickSpec(stamps, flags, s) == Outcome([ClearAllEvictLabels], stamps)
  {
    var out := TickSpec(stamps, flags, s);
    if !s.readErr && !Quiet(flags, s.cond) {
      forall r | true
        ensures ClearAllEvictLabels !in Block(r, flags, stamps, s)
      {
      }
    }
  }

  /** Every resource unavailable in a processed tick gets the tick's time
      as its last-busy stamp, whatever its taint flag; every other stamp is
      kept. */
  lemma BusyTimestamp(stamps: Stamps, flags: NodeTaint, s: Sample, r: Resource)
    ensures TickSpec(stamps, flags, s).stamps.Get(r) ==
      if !s.readErr && !s.cond.Available(r) then s.now else stamps.Get(r)
  {
    if !s.readErr && Quiet(flags, s.cond) {
      assert s.cond.Available(r);
    }
  }

  /** The number of events of a trace that are calls of the given kind and
      action. */
  function Calls(es: seq<Event>, r: Resource, a: TaintAction): nat
  {
    multiset(es)[SetTaintConditions(r, a)]
  }

  lemma BlockCalls(q: Resource, flags: NodeTaint, stamps: Stamps, s: Sample, r: Resource, a: TaintAction)
    ensures Calls(Block(q, flags, stamps, s), r, a) ==
      if q != r then 0 else Calls(TaintCalls(r, flags, stamps.Get(r), s), r, a)
  {
    var b := Block(q, flags, stamps, s);
    var rest := if FirstBusy(s.cond) == Some(q) then SendFor(q, s.cond) else [];
    assert b == TaintCalls(q, flags, stamps.Get(q), s) + rest;
    assert multiset(rest)[SetTaintConditions(r, a)] == 0 by {
      assert SetTaintConditions(r, a) !in rest;
    }
  }

  /** Taint is edge-triggered on the reported flag: one SetTaintConditions
      Taint call for a resource exactly when it is unavailable in a
      processed tick and the cluster reports it untainted, none otherwise. */
  lemma TaintCall(stamps: Stamps, flags: NodeTaint, s: Sample, r: Resource)
    ensures Calls(TickSpec(stamps, flags, s).effects, r, Taint) ==
      if !s.readErr && !s.cond.Available(r) && !flags.Tainted(r) then 1 else 0
  {
    TickCalls(stamps, flags, s, r, Taint);
    OwnCalls(r, flags, stamps.Get(r), s);
    if !s.readErr && Quiet(flags, s.cond) {
      assert s.cond.Available(r);
    }
  }

  /** Untaint is gated by the grace period: one SetTaintConditions UnTaint
      call for a resource exactly when, in a processed tick, it is
      available, reported tainted, and strictly more than the grace period
      has passed since it was last busy. */
  lemma UnTaintCall(stamps: Stamps, flags: NodeTaint, s: Sample, r: Resource)
    ensures Calls(TickSpec(stamps, flags, s).effects, r, UnTaint) ==
      if !s.readErr && s.cond.Available(r) && flags.Tainted(r) && s.now - stamps.Get(r) > s.grace
      then 1 else 0
  {
    TickCalls(stamps, flags, s, r, UnTaint);
    OwnCalls(r, flags, stamps.Get(r), s);
    if !s.readErr && Quiet(flags, s.cond) {
      assert !flags.Tainted(r);
    }
  }

  /** The calls a resource's own branch makes for it. */
  lemma OwnCalls(r: Resource, flags: NodeTaint, last: int, s: Sample)
    ensures Calls(TaintCalls(r, flags, last, s), r, Taint) ==
      if !s.cond.Available(r) && !flags.Tainted(r) then 1 else 0
    ensures Calls(TaintCalls(r, flags, last, s), r, UnTaint) ==
      if s.cond.Available(r) && flags.Tainted(r) && s.now - last > s.grace then 1 else 0
  {
    var calls := TaintCalls(r, flags, last, s);
    if s.cond.Available(r) {
      if flags.Tainted(r) && s.now - last > s.grace {
        assert calls == [SetTaintConditions(r, UnTaint)];
      } else {
        assert calls == [];
      }
    } else if !flags.Tainted(r) {
      assert calls == [SetTaintConditions(r, Taint)];
    } else {
      assert calls == [];
    }
  }

  lemma TickCalls(stamps: Stamps, flags: NodeTaint, s: Sample, r: Resource, a: TaintAction)
    ensures Calls(TickSpec(stamps, flags, s).effects, r, a) ==
      if s.readErr || Quiet(flags, s.cond) then 0 else Calls(TaintCalls(r, flags, stamps.Get(r), s), r, a)
  {
    if !s.readErr && !Quiet(flags, s.cond) {
      BlockCalls(CPU, flags, stamps, s, r, a);
      BlockCalls(Memory, flags, stamps, s, r, a);
      BlockCalls(DiskIO, flags, stamps, s, r, a);
      BlockCalls(NetworkIO, flags, stamps, s, r, a);
    }
  }

  /** At most one taint-state call per resource per tick. */
  lemma OneCallPerResource(stamps: Stamps, flags: NodeTaint, s: Sample, r: Resource)
    ensures Calls(TickSpec(stamps, flags, s).effects, r, Taint)
      + Calls(TickSpec(stamps, flags, s).effects, r, UnTaint) <= 1
  {
    TaintCall(stamps, flags, s, r);
    UnTaintCall(stamps, flags, s, r);
  }

  /** The tick pushes the signal of its first busy resource, as that
      resource's branch selects it, and nothing else. */
  lemma TickSignal(stamps: Stamps, flags: NodeTaint, s: Sample)
    ensures Sent(TickSpec(stamps, flags, s).effects) ==
      if s.readErr then []
      else match FirstBusy(s.cond)
        case None => []
        case Some(r) => Expected(SignalFor(r, s.cond))
  {
    if s.readErr {
    } else if Quiet(flags, s.cond) {
      assert FirstBusy(s.cond) == None;
      assert Sent([ClearAllEvictLabels]) == Sent([]);
    } else {
      var b0, b1, b2, b3 := Block(CPU, flags, stamps, s), Block(Memory, flags, stamps, s),
        Block(DiskIO, flags, stamps, s), Block(NetworkIO, flags, stamps, s);
      assert TickSpec(stamps, flags, s).effects == b0 + b1 + b2 + b3;
      SentAppend(b0 + b1 + b2, b3);
      SentAppend(b0 + b1, b2);
      SentAppend(b0, b1);
      BlockSent(CPU, flags, stamps, s);
      BlockSent(Memory, flags, stamps, s);
      BlockSent(DiskIO, flags, stamps, s);
      BlockSent(NetworkIO, flags, stamps, s);
      var want := match FirstBusy(s.cond)
        case None => []
        case Some(r) => Expected(SignalFor(r, s.cond));
      assert Sent(b0) + Sent(b1) + Sent(b2) + Sent(b3) == want by {
        match FirstBusy(s.cond)
        case None =>
        case Some(r) =>
          match r
          case CPU =>
          case Memory =>
          case DiskIO =>
          case NetworkIO =>
      }
    }
  }

  lemma BlockSent(r: Resource, flags: NodeTaint, stamps: Stamps, s: Sample)
    ensures Sent(Block(r, flags, stamps, s)) ==
      if FirstBusy(s.cond) == Some(r) then Expected(SignalFor(r, s.cond)) else []
  {
    var calls := TaintCalls(r, flags, stamps.Get(r), s);
    SentNone(calls);
    var rest := if FirstBusy(s.cond) == Some(r) then SendFor(r, s.cond) else [];
    SentAppend(calls, rest);
    if FirstBusy(s.cond) == Some(r) && SignalFor(r, s.cond).Some? {
      assert Sent(rest) == [SignalFor(r, s.cond).value] + Sent([]);
    }
  }

  /** At most one eviction signal per tick, and any signal reports an
      unavailable resource every higher-priority resource of which is
      available. */
  lemma OneSignalPerTick(stamps: Stamps, flags: NodeTaint, s: Sample)
    ensures |Sent(TickSpec(stamps, flags, s).effects)| <= 1
    ensures forall sig :: sig in Sent(TickSpec(stamps, flags, s).effects) ==>
      !s.readErr
      && !s.cond.Available(SignalResource(sig))
      && forall q :: Rank(q) < Rank(SignalResource(sig)) ==> s.cond.Available(q)
  {
    TickSignal(stamps, flags, s);
    FirstBusyIsFirst(s.cond);
  }

  /** When CPU, Memory or DiskIO is the first busy resource its signal is
      pushed, even if the resource was already tainted. */
  lemma BusyHostSignalled(stamps: Stamps, flags: NodeTaint, s: Sample, r: Resource)
    requires !s.readErr && r != NetworkIO
    requires FirstBusy(s.cond) == Some(r)
    ensures Sent(TickSpec(stamps, flags, s).effects) ==
      [match r case CPU => CPUBusy case Memory => MemBusy case _ => DiskIOBusy]
  {
    TickSignal(stamps, flags, s);
  }

  // ---------------------------------------------------------------------
  // Order of the events of a tick

  /** Where an event falls in a processed tick: the sections run in Rank
      order, and inside a section the taint call comes before the push. */
  function Slot(e: Event): nat
  {
    match e
    case ClearAllEvictLabels => 0
    case SetTaintConditions(r, _) => 2 * Rank(r)
    case Send(sig) => 2 * Rank(SignalResource(sig)) + 1
  }

  predicate Ascending(es: seq<Event>)
  {
    forall i, j :: 0 <= i < j < |es| ==> Slot(es[i]) < Slot(es[j])
  }

  predicate SlotsWithin(es: seq<Event>, lo: int, hi: int)
  {
    forall i :: 0 <= i < |es| ==> lo <= Slot(es[i]) <= hi
  }

  lemma AscendingAppend(a: seq<Event>, b: seq<Event>, lo: int, mid: int, hi: int)
    requires lo <= mid < hi
    requires Ascending(a) && SlotsWithin(a, lo, mid)
    requires Ascending(b) && SlotsWithin(b, mid + 1, hi)
    ensures Ascending(a + b) && SlotsWithin(a + b, lo, hi)
  {
    forall i, j | 0 <= i < j < |a + b|
      ensures Slot((a + b)[i]) < Slot((a + b)[j])
    {
      if j < |a| {
        assert (a + b)[i] == a[i] && (a + b)[j] == a[j];
      } else if i < |a| {
        assert (a + b)[i] == a[i] && (a + b)[j] == b[j - |a|];
      } else {
        assert (a + b)[i] == b[i - |a|] && (a + b)[j] == b[j - |a|];
      }
    }
    forall i | 0 <= i < |a + b|
      ensures lo <= Slot((a + b)[i]) <= hi
    {
      if i < |a| {
        assert (a + b)[i] == a[i];
      } else {
        assert (a + b)[i] == b[i - |a|];
      }
    }
  }

  /** A section's events: its own call at slot 2 * Rank(r), then its push
      at the slot just after. */
  lemma BlockSlots(r: Resource, flags: NodeTaint, stamps: Stamps, s: Sample)
    ensures Ascending(Block(r, flags, stamps, s))
    ensures SlotsWithin(Block(r, flags, stamps, s), 2 * Rank(r), 2 * Rank(r) + 1)
  {
    var calls := TaintCalls(r, flags, stamps.Get(r), s);
    var push := if FirstBusy(s.cond) == Some(r) then SendFor(r, s.cond) else [];
    assert SlotsWithin(calls, 2 * Rank(r), 2 * Rank(r)) by {
      forall i | 0 <= i < |calls|
        ensures Slot(calls[i]) == 2 * Rank(r)
      {
        assert calls[i] in calls;
      }
    }
    assert Ascending(push) && SlotsWithin(push, 2 * Rank(r) + 1, 2 * Rank(r) + 1) by {
      match SignalFor(r, s.cond)
      case None =>
      case Some(sig) => assert SignalResource(sig) == r;
    }
    AscendingAppend(calls, push, 2 * Rank(r), 2 * Rank(r), 2 * Rank(r) + 1);
  }

  /** Every tick's trace is strictly ordered by slot. */
  lemma TickSlots(stamps: Stamps, flags: NodeTaint, s: Sample)
    ensures Ascending(TickSpec(stamps, flags, s).effects)
  {
    if !s.readErr && !Quiet(flags, s.cond) {
      var b0, b1, b2, b3 := Block(CPU, flags, stamps, s), Block(Memory, flags, stamps, s),
        Block(DiskIO, flags, stamps, s), Block(NetworkIO, flags, stamps, s);
      BlockSlots(CPU, flags, stamps, s);
      BlockSlots(Memory, flags, stamps, s);
      BlockSlots(DiskIO, flags, stamps, s);
      BlockSlots(NetworkIO, flags, stamps, s);
      AscendingAppend(b0, b1, 0, 1, 3);
      AscendingAppend(b0 + b1, b2, 0, 3, 5);
      AscendingAppend(b0 + b1 + b2, b3, 0, 5, 7);
    }
  }

  /** The taint-state calls of a tick come in section order: CPU, then
      Memory, then DiskIO, then NetworkIO. */
  lemma CallOrder(stamps: Stamps, flags: NodeTaint, s: Sample)
    ensures var es := TickSpec(stamps, flags, s).effects;
      forall i, j :: 0 <= i < j < |es| && es[i].SetTaintConditions? && es[j].SetTaintConditions? ==>
        Rank(es[i].kind) < Rank(es[j].kind)
  {
    TickSlots(stamps, flags, s);
  }

  /** Where the push falls among the calls: every call before it is about
      the pushed resource or a higher-priority one (so the pushed
      resource's own taint call comes first), and every call after it is
      about a lower-priority resource. */
  lemma PushPlacement(stamps: Stamps, flags: NodeTaint, s: Sample)
    ensures var es := TickSpec(stamps, flags, s).effects;
      forall i, j :: 0 <= i < |es| && 0 <= j < |es| && es[i].Send? && es[j].SetTaintConditions? ==>
        (j < i ==> Rank(es[j].kind) <= Rank(SignalResource(es[i].signal)))
        && (i < j ==> Rank(SignalResource(es[i].signal)) < Rank(es[j].kind))
  {
    TickSlots(stamps, flags, s);
  }

  // ---------------------------------------------------------------------
  // The network sub-signal, as written and as intended

  /** As written, a network signal is NetworkRxBusy exactly when the
      transmit direction is unavailable; a receive-only failure of the
      network, when it is the first busy resource, pushes nothing; and
      NetworkTxBusy is never pushed. */
  lemma NetworkSignalAsWritten(stamps: Stamps, flags: NodeTaint, s: Sample)
    requires !s.readErr && FirstBusy(s.cond) == Some(NetworkIO)
    ensures Sent(TickSpec(stamps, flags, s).effects) ==
      if s.cond.networkTxAvailable then [] else [NetworkRxBusy]
  {
    TickSignal(stamps, flags, s);
  }

  lemma NetworkTxBusyNeverSent(stamps: Stamps, flags: NodeTaint, s: Sample)
    ensures NetworkTxBusy !in Sent(TickSpec(stamps, flags, s).effects)
  {
    TickSignal(stamps, flags, s);
  }

  /** A concrete tick showing the receive-only gap: the network is the only
      busy resource, only its receive direction is down, and no signal is
      pushed although the tick is not on the fast path. */
  lemma RxOnlyPressureUnsignalled()
    ensures var s := Sample(0, 0, false, NodeCondition(false, true, true, true, true));
      FirstBusy(s.cond) == Some(NetworkIO)
      && Sent(TickSpec(Stamps(0, 0, 0, 0), NodeTaint(false, false, false, false), s).effects) == []
  {
    var s := Sample(0, 0, false, NodeCondition(false, true, true, true, true));
    NetworkSignalAsWritten(Stamps(0, 0, 0, 0), NodeTaint(false, false, false, false), s);
  }

  /** The evidently intended network selection: receive failure first,
      then transmit failure. */
  function IntendedNetworkSignal(cond: NodeCondition): (o: Option<Signal>)
    ensures o.Some? <==> !cond.Available(NetworkIO)
    ensures o == Some(NetworkRxBusy) <==> !cond.networkRxAvailable
    ensures o == Some(NetworkTxBusy) <==> cond.networkRxAvailable && !cond.networkTxAvailable
  {
    if !cond.networkRxAvailable then Some(NetworkRxBusy)
    else if !cond.networkTxAvailable then Some(NetworkTxBusy)
    else None
  }

  /** The signal of a tick with the intended network selection. */
  function IntendedSignal(cond: NodeCondition): (o: Option<Signal>)
    ensures o.Some? <==> !cond.AllAvailable()
    ensures o.Some? ==>
      (!cond.Available(SignalResource(o.value))
       && forall q :: Rank(q) < Rank(SignalResource(o.value)) ==> cond.Available(q))
  {
    FirstBusyIsFirst(cond);
    match FirstBusy(cond)
    case None => None
    case Some(r) => if r == NetworkIO then IntendedNetworkSignal(cond) else SignalFor(r, cond)
  }

  /** The source's tick pushes the intended signal except when the network
      is the first busy resource and exactly one of its directions is down:
      a receive-only failure then pushes nothing instead of NetworkRxBusy,
      and a transmit-only failure pushes NetworkRxBusy instead of
      NetworkTxBusy. */
  lemma AsWrittenAgainstIntended(stamps: Stamps, flags: NodeTaint, s: Sample)
    requires !s.readErr
    ensures Sent(TickSpec(stamps, flags, s).effects) ==
      if FirstBusy(s.cond) != Some(NetworkIO) || s.cond.networkRxAvailable == s.cond.networkTxAvailable
      then Expected(IntendedSignal(s.cond))
      else if s.cond.networkTxAvailable then []
      else [NetworkRxBusy]
    ensures FirstBusy(s.cond) == Some(NetworkIO) && s.cond.networkRxAvailable && !s.cond.networkTxAvailable ==>
      IntendedSignal(s.cond) == Some(NetworkTxBusy)
  {
    TickSignal(stamps, flags, s);
    match FirstBusy(s.cond)
    case None =>
    case Some(r) =>
      assert IntendedSignal(s.cond) ==
        if r == NetworkIO then IntendedNetworkSignal(s.cond) else SignalFor(r, s.cond);
  }
}
