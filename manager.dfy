/**
 The eviction manager's own state and the body of its pressure loop. The
 object keeps the taint flags last read from the cluster and the four
 last-busy timestamps; each call of Tick is one iteration of the loop,
 overwriting those fields in place and returning, in order, the client calls
 it makes and the signal it pushes onto the eviction channel.
 */
module Manager {
  import opened Types
  import opened Pressure

  class EvictionManager {
    var nodeTaint: NodeTaint
    var lastTaintDiskIOTime: int
    var lastTaintNetIOTime: int
    var lastTaintCPUTime: int
    var lastTaintMemTime: int

    /** The four last-busy timestamps as one value. */
    ghost function LastBusy(): Stamps
      reads this
    {
      Stamps(lastTaintCPUTime, lastTaintMemTime, lastTaintDiskIOTime, lastTaintNetIOTime)
    }

    /** A new manager: no taint flag set and every timestamp at the zero
        time. */
    constructor ()
      ensures nodeTaint.Clear()
      ensures LastBusy() == Stamps(0, 0, 0, 0)
    {
      nodeTaint := NodeTaint(false, false, false, false);
      lastTaintDiskIOTime, lastTaintNetIOTime, lastTaintCPUTime, lastTaintMemTime := 0, 0, 0, 0;
    }

    /** One iteration of the pressure loop at time `now`, with the untaint
        grace period `unTaintPeriod`, the taint flags the cluster reports
        (`reported`, with `readErr` when reading them failed) and the node
        condition. */
    method Tick(now: int, unTaintPeriod: int, reported: NodeTaint, readErr: bool, condition: NodeCondition)
      returns (effects: seq<Event>)
      modifies this
      ensures nodeTaint == reported
      ensures var out := TickSpec(old(LastBusy()), reported, Sample(now, unTaintPeriod, readErr, condition));
        effects == out.effects && LastBusy() == out.stamps
    {
      ghost var s := Sample(now, unTaintPeriod, readErr, condition);
      ghost var stamps := LastBusy();
      nodeTaint := reported;
      effects := [];
      if readErr {
        return;
      }

      if condition.networkRxAvailable && condition.networkTxAvailable && condition.diskIOAvailable
        && condition.cpuAvailable && condition.memoryAvailable
        && !nodeTaint.diskIO && !nodeTaint.networkIO && !nodeTaint.cpu && !nodeTaint.memory
      {
        // nothing busy and nothing tainted: only drop the eviction labels
        effects := [ClearAllEvictLabels];
        return;
      }

      assert s == Sample(now, unTaintPeriod, false, condition);
      FirstBusyIsFirst(condition);
      var isEvicted := false;
      var events;
      events, isEvicted := Branch(CPU, condition, unTaintPeriod, now, isEvicted);
      effects := effects + events;
      assert effects == Block(CPU, reported, stamps, s);
      events, isEvicted := Branch(Memory, condition, unTaintPeriod, now, isEvicted);
      effects := effects + events;
      assert effects == Block(CPU, reported, stamps, s) + Block(Memory, reported, stamps, s);
      events, isEvicted := Branch(DiskIO, condition, unTaintPeriod, now, isEvicted);
      effects := effects + events;
      assert effects == Block(CPU, reported, stamps, s) + Block(Memory, reported, stamps, s)
        + Block(DiskIO, reported, stamps, s);
      events, isEvicted := Branch(NetworkIO, condition, unTaintPeriod, now, isEvicted);
      effects := effects + events;
      assert effects == Block(CPU, reported, stamps, s) + Block(Memory, reported, stamps, s)
        + Block(DiskIO, reported, stamps, s) + Block(NetworkIO, reported, stamps, s);
    }

    /** One resource's section of the loop body. An available resource that
        the cluster reports tainted is untainted once strictly more than the
        grace period has passed since it was last busy. An unavailable one
        is stamped with `now`, tainted if the cluster reports it untainted,
        and, if no signal has been pushed yet this tick (`isEvicted`), its
        signal is pushed. */
    method Branch(r: Resource, condition: NodeCondition, unTaintPeriod: int, now: int, isEvicted: bool)
      returns (events: seq<Event>, evicted: bool)
      modifies this
      ensures nodeTaint == old(nodeTaint)
      ensures LastBusy() == if condition.Available(r) then old(LastBusy()) else old(LastBusy()).With(r, now)
      ensures events == TaintCalls(r, nodeTaint, old(LastBusy()).Get(r), Sample(now, unTaintPeriod, false, condition))
        + (if !condition.Available(r) && !isEvicted then SendFor(r, condition) else [])
      ensures evicted == (isEvicted || !condition.Available(r))
    {
      events, evicted := [], isEvicted;
      if condition.Available(r) {
        if nodeTaint.Tainted(r) {
          var last := match r
            case CPU => lastTaintCPUTime
            case Memory => lastTaintMemTime
            case DiskIO => lastTaintDiskIOTime
            case NetworkIO => lastTaintNetIOTime;
          if now - last > unTaintPeriod {
            events := events + [SetTaintConditions(r, UnTaint)];
          }
        }
      } else {
        match r {
          case CPU => lastTaintCPUTime := now;
          case Memory => lastTaintMemTime := now;
          case DiskIO => lastTaintDiskIOTime := now;
          case NetworkIO => lastTaintNetIOTime := now;
        }
        if !nodeTaint.Tainted(r) {
          events := events + [SetTaintConditions(r, Taint)];
        }
        if !evicted {
          evicted := true;
          match r {
            case CPU => events := events + [Send(CPUBusy)];
            case Memory => events := events + [Send(MemBusy)];
            case DiskIO => events := events + [Send(DiskIOBusy)];
            case NetworkIO =>
              if !condition.networkTxAvailable {
                events := events + [Send(NetworkRxBusy)];
              } else if !condition.networkTxAvailable {
                events := events + [Send(NetworkTxBusy)];
              }
          }
        }
      }
    }
  }
}
