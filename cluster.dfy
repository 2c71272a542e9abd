/**
 Consecutive ticks of the pressure loop against a cluster that applies every
 taint call it receives and nothing else: the taint flags a tick reads are
 the flags the previous ticks' calls left. Under that assumption taint is
 called once per run of busy ticks, and untaint is anchored at the last busy
 tick.
 */
module Cluster {
  import opened Types
  import opened Pressure

  /** The taint flags after the cluster applies one event. */
  function Apply(flags: NodeTaint, e: Event): NodeTaint
  {
    match e
    case SetTaintConditions(r, a) => flags.Set(r, a == Taint)
    case _ => flags
  }

  function ApplyAll(flags: NodeTaint, es: seq<Event>): NodeTaint
    decreases |es|
  {
    if es == [] then flags else ApplyAll(Apply(flags, es[0]), es[1..])
  }

  /** Where a run of ticks leaves things: all its events in order, the
      last-busy timestamps and the cluster's taint flags. */
  datatype RunState = RunState(effects: seq<Event>, stamps: Stamps, flags: NodeTaint)

  /** Successive iterations of the pressure loop, each reading the flags
      the earlier ticks' calls left on the cluster. */
  function Ticks(stamps: Stamps, flags: NodeTaint, samples: seq<Sample>): (st: RunState)
    ensures (forall i :: 0 <= i < |samples| ==> samples[i].readErr) ==> st == RunState([], stamps, flags)
    decreases |samples|
  {
    if samples == [] then RunState([], stamps, flags)
    else
      var out := TickSpec(stamps, flags, samples[0]);
      var rest := Ticks(out.stamps, ApplyAll(flags, out.effects), samples[1..]);
      RunState(out.effects + rest.effects, rest.stamps, rest.flags)
  }

  /** The time of the last processed sample in which `r` was unavailable,
      or `init` when there is none. */
  function LastBusyIn(init: int, samples: seq<Sample>, r: Resource): int
    decreases |samples|
  {
    if samples == [] then init
    else
      var s := samples[0];
      LastBusyIn(if !s.readErr && !s.cond.Available(r) then s.now else init, samples[1..], r)
  }

  /** With no untaint call for `r` among the events, `r` is tainted
      afterwards exactly when it was before or a taint call for it was
      applied. */
  lemma {:induction false} ApplyAllTainted(flags: NodeTaint, es: seq<Event>, r: Resource)
    requires SetTaintConditions(r, UnTaint) !in es
    ensures ApplyAll(flags, es).Tainted(r) == (flags.Tainted(r) || SetTaintConditions(r, Taint) in es)
    decreases |es|
  {
    if es != [] {
      ApplyAllTainted(Apply(flags, es[0]), es[1..], r);
      assert es == [es[0]] + es[1..];
    }
  }

  /** Taint is called once per run of busy ticks: while every processed
      tick finds `r` unavailable, the run makes one taint call for `r` if
      the cluster starts with `r` untainted and some tick is processed, none
      otherwise, and no untaint call for `r`. */
  lemma {:induction false} TaintOncePerBusyRun(stamps: Stamps, flags: NodeTaint, samples: seq<Sample>, r: Resource)
    requires forall i :: 0 <= i < |samples| && !samples[i].readErr ==> !samples[i].cond.Available(r)
    ensures Calls(Ticks(stamps, flags, samples).effects, r, Taint) ==
      if !flags.Tainted(r) && exists i :: 0 <= i < |samples| && !samples[i].readErr then 1 else 0
    ensures Calls(Ticks(stamps, flags, samples).effects, r, UnTaint) == 0
    decreases |samples|
  {
    if samples != [] {
      var out := TickSpec(stamps, flags, samples[0]);
      var flags' := ApplyAll(flags, out.effects);
      TaintCall(stamps, flags, samples[0], r);
      UnTaintCall(stamps, flags, samples[0], r);
      TaintOncePerBusyRun(out.stamps, flags', samples[1..], r);
      if samples[0].readErr {
        assert flags' == flags;
        if exists i :: 0 <= i < |samples| && !samples[i].readErr {
          var i :| 0 <= i < |samples| && !samples[i].readErr;
          assert 0 <= i - 1 < |samples[1..]| && !samples[1..][i - 1].readErr;
        }
      } else {
        ApplyAllTainted(flags, out.effects, r);
        assert flags'.Tainted(r);
      }
    }
  }

  /** The last-busy stamp of a resource after a run is the time of the
      run's last busy sample for it, whatever happened in between. */
  lemma {:induction false} StampIsLastBusy(stamps: Stamps, flags: NodeTaint, samples: seq<Sample>, r: Resource)
    ensures Ticks(stamps, flags, samples).stamps.Get(r) == LastBusyIn(stamps.Get(r), samples, r)
    decreases |samples|
  {
    if samples != [] {
      var out := TickSpec(stamps, flags, samples[0]);
      BusyTimestamp(stamps, flags, samples[0], r);
      StampIsLastBusy(out.stamps, ApplyAll(flags, out.effects), samples[1..], r);
    }
  }

  /** Hysteresis: after a run, the next tick untaints `r` only if strictly
      more than that tick's grace period has passed since the run's last
      busy sample for `r` (or the initial stamp if there was none). */
  lemma UnTaintAfterGrace(stamps: Stamps, flags: NodeTaint, samples: seq<Sample>, next: Sample, r: Resource)
    requires Calls(TickSpec(Ticks(stamps, flags, samples).stamps, Ticks(stamps, flags, samples).flags, next).effects, r, UnTaint) > 0
    ensures next.now - LastBusyIn(stamps.Get(r), samples, r) > next.grace
  {
    var st := Ticks(stamps, flags, samples);
    UnTaintCall(st.stamps, st.flags, next, r);
    StampIsLastBusy(stamps, flags, samples, r);
  }

  /** A CPU busy spell and its recovery with a 30 s grace period, times in
      nanoseconds: the busy tick taints and signals, the ticks 10 s and 30 s
      after it do nothing, and the tick 40 s after it untaints. */
  lemma CPURoundTrip()
    ensures var second := 1_000_000_000;
      var busy := NodeCondition(true, true, true, false, true);
      var good := NodeCondition(true, true, true, true, true);
      var samples := [Sample(10 * second, 30 * second, false, busy), Sample(20 * second, 30 * second, false, good),
        Sample(40 * second, 30 * second, false, good), Sample(50 * second, 30 * second, false, good)];
      var st := Ticks(Stamps(0, 0, 0, 0), NodeTaint(false, false, false, false), samples);
      st.effects == [SetTaintConditions(CPU, Taint), Send(CPUBusy), SetTaintConditions(CPU, UnTaint)]
      && st.flags.Clear()
  {
    var second := 1_000_000_000;
    var busy := NodeCondition(true, true, true, false, true);
    var good := NodeCondition(true, true, true, true, true);
    var samples := [Sample(10 * second, 30 * second, false, busy), Sample(20 * second, 30 * second, false, good),
      Sample(40 * second, 30 * second, false, good), Sample(50 * second, 30 * second, false, good)];
    var t0 := NodeTaint(false, false, false, false);
    var out0 := TickSpec(Stamps(0, 0, 0, 0), t0, samples[0]);
    assert out0.effects == [SetTaintConditions(CPU, Taint), Send(CPUBusy)];
    var t1 := NodeTaint(false, false, true, false);
    assert ApplyAll(t0, out0.effects) == t1 by {
      assert ApplyAll(t0, out0.effects) == ApplyAll(t1, [Send(CPUBusy)]);
      assert ApplyAll(t1, [Send(CPUBusy)]) == ApplyAll(t1, []);
    }
    var out1 := TickSpec(out0.stamps, t1, samples[1]);
    assert out1.effects == [];
    var out2 := TickSpec(out1.stamps, t1, samples[2]);
    assert out2.effects == [];
    var out3 := TickSpec(out2.stamps, t1, samples[3]);
    assert out3.effects == [SetTaintConditions(CPU, UnTaint)];
    assert ApplyAll(t1, out3.effects) == t0 by {
      assert ApplyAll(t1, out3.effects) == ApplyAll(t0, []);
    }
    var end := Ticks(out3.stamps, t0, []);
    var r3 := Ticks(out2.stamps, t1, samples[3..]);
    assert r3 == RunState(out3.effects, end.stamps, t0) by {
      assert samples[3..][1..] == [];
    }
    var r2 := Ticks(out1.stamps, t1, samples[2..]);
    assert r2 == RunState(out3.effects, end.stamps, t0) by {
      assert samples[2..][1..] == samples[3..];
      assert ApplyAll(t1, []) == t1;
    }
    var r1 := Ticks(out0.stamps, t1, samples[1..]);
    assert r1 == RunState(out3.effects, end.stamps, t0) by {
      assert samples[1..][1..] == samples[2..];
      assert ApplyAll(t1, []) == t1;
    }
  }
}
