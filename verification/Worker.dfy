/**
 * The execution-context scheduling rules of a platform worker
 * (src/platform/platform_worker.c): contexts are pushed onto a pending list,
 * spliced in front of the active list by the worker thread, and run in one
 * pass that removes the contexts whose callback returns false and computes
 * how long the thread may wait for events.
 *
 * The singly linked lists become sequences held by the worker; a context is
 * a value in them, whose Ready flag and timer the pass rewrites in place.
 * The callbacks are an oracle: the pass is given, for each position of the
 * active list, what that context's callback would return and leave behind.
 */
module Worker {
  const UINT32_MAX: nat := 0xFFFF_FFFF
  const UINT64_MAX: nat := 0xFFFF_FFFF_FFFF_FFFF
  const TWO_TO_THE_64: nat := 0x1_0000_0000_0000_0000

  function Min(a: nat, b: nat): nat { if a <= b then a else b }

  /** An execution context: its identity, its Ready flag and the time, in
      microseconds, at which it wants to run next (UINT64_MAX: never). */
  datatype Context = Context(Id: nat, Ready: bool, NextTimeUs: nat)

  /** Submission queue entries the worker posts to its own event queue. */
  datatype Sqe = UpdatePollSqe | WakeSqe

  /** What a context's callback returns (FALSE: remove the context) and the
      context's Ready flag and NextTimeUs once it has returned. */
  datatype CallbackOutcome = CallbackOutcome(Keep: bool, Ready: bool, NextTimeUs: nat)

  /** A context's callback runs when it was signalled or its time has come. */
  predicate Runs(c: Context, timeNow: nat) {
    c.Ready || c.NextTimeUs <= timeNow
  }

  // ---------------------------------------------------------------------
  // The run pass as a function

  /** Where a run pass has got to: the contexts kept so far (as they are left),
      the earliest time any of them wants to run (0: one is ready again), the
      list positions whose callback was invoked and, for each kept context,
      its position in the list the pass started from. */
  datatype Pass = Pass(Kept: seq<Context>, NextTime: nat, Invoked: seq<nat>, From: seq<nat>)

  /** The pass over the context at position i, whose callback would give o. */
  function Step(p: Pass, i: nat, c: Context, o: CallbackOutcome, timeNow: nat): Pass {
    var cleared := c.(Ready := false);
    if Runs(c, timeNow) then
      if !o.Keep then p.(Invoked := p.Invoked + [i])
      else
        var after := cleared.(Ready := o.Ready, NextTimeUs := o.NextTimeUs);
        var nextTime := if after.Ready then 0 else p.NextTime;
        Pass(p.Kept + [after], Min(nextTime, after.NextTimeUs), p.Invoked + [i], p.From + [i])
    else
      Pass(p.Kept + [cleared], Min(p.NextTime, cleared.NextTimeUs), p.Invoked, p.From + [i])
  }

  /** The pass of CxPlatRunExecutionContexts over ecs, front to back;
      outs[i] is what the callback of ecs[i] would give. */
  function RunPass(ecs: seq<Context>, outs: seq<CallbackOutcome>, timeNow: nat): Pass
    requires |outs| == |ecs|
    decreases |ecs|
  {
    if ecs == [] then Pass([], UINT64_MAX, [], [])
    else
      var n := |ecs| - 1;
      Step(RunPass(ecs[..n], outs[..n], timeNow), n, ecs[n], outs[n], timeNow)
  }

  /** The contexts that stay after a pass, as the pass leaves them. */
  function Survivor(c: Context, o: CallbackOutcome, timeNow: nat): Context {
    if Runs(c, timeNow) then c.(Ready := o.Ready, NextTimeUs := o.NextTimeUs) else c
  }

  /** A context is removed exactly when its callback ran and returned FALSE. */
  predicate Removed(c: Context, o: CallbackOutcome, timeNow: nat) {
    Runs(c, timeNow) && !o.Keep
  }

  predicate Increasing(s: seq<nat>) {
    forall a, b :: 0 <= a < b < |s| ==> s[a] < s[b]
  }

  /** The earliest NextTimeUs among cs, UINT64_MAX when there is none earlier. */
  function MinNext(cs: seq<Context>): (r: nat)
    ensures r <= UINT64_MAX
    ensures forall k :: 0 <= k < |cs| ==> r <= cs[k].NextTimeUs
    ensures r == UINT64_MAX || exists k :: 0 <= k < |cs| && r == cs[k].NextTimeUs
    decreases |cs|
  {
    if cs == [] then UINT64_MAX
    else
      var n := |cs| - 1;
      var m := MinNext(cs[..n]);
      assert forall k :: 0 <= k < n ==> cs[..n][k] == cs[k];
      Min(m, cs[n].NextTimeUs)
  }

  /** Some context in cs is ready to run again. */
  predicate AnyReady(cs: seq<Context>) {
    exists k :: 0 <= k < |cs| && cs[k].Ready
  }

  /** The pass invokes the callback of exactly the contexts that were ready
      or due, once each, in list order. */
  lemma {:induction false} RunPassInvoked(ecs: seq<Context>, outs: seq<CallbackOutcome>, timeNow: nat)
    requires |outs| == |ecs|
    ensures var p := RunPass(ecs, outs, timeNow);
      Increasing(p.Invoked) &&
      (forall i: nat :: i in p.Invoked <==> i < |ecs| && Runs(ecs[i], timeNow))
    decreases |ecs|
  {
    if ecs != [] {
      var n := |ecs| - 1;
      var prefix, outs0 := ecs[..n], outs[..n];
      var p := RunPass(prefix, outs0, timeNow);
      RunPassInvoked(prefix, outs0, timeNow);
      var q := RunPass(ecs, outs, timeNow);
      assert q == Step(p, n, ecs[n], outs[n], timeNow);
      assert forall k :: 0 <= k < |p.Invoked| ==> p.Invoked[k] in p.Invoked;
      assert q.Invoked == p.Invoked + if Runs(ecs[n], timeNow) then [n] else [];
      forall i: nat ensures i in q.Invoked <==> i < |ecs| && Runs(ecs[i], timeNow) {
        if i < n {
          assert prefix[i] == ecs[i];
        }
      }
    }
  }

  /** The pass keeps, in their order, exactly the contexts it does not
      remove, each as its callback left it (untouched when it did not run). */
  lemma {:induction false} RunPassKept(ecs: seq<Context>, outs: seq<CallbackOutcome>, timeNow: nat)
    requires |outs| == |ecs|
    ensures var p := RunPass(ecs, outs, timeNow);
      |p.From| == |p.Kept| && Increasing(p.From) &&
      (forall k :: 0 <= k < |p.From| ==>
         p.From[k] < |ecs| && p.Kept[k] == Survivor(ecs[p.From[k]], outs[p.From[k]], timeNow)) &&
      (forall i: nat :: i in p.From <==> i < |ecs| && !Removed(ecs[i], outs[i], timeNow))
    decreases |ecs|
  {
    if ecs != [] {
      var n := |ecs| - 1;
      RunPassKept(ecs[..n], outs[..n], timeNow);
      assert forall i :: 0 <= i < n ==> ecs[..n][i] == ecs[i] && outs[..n][i] == outs[i];
    }
  }

  /** The time the pass computes is 0 when a kept context is ready again and
      otherwise the earliest NextTimeUs of the kept contexts. */
  lemma {:induction false} RunPassNextTime(ecs: seq<Context>, outs: seq<CallbackOutcome>, timeNow: nat)
    requires |outs| == |ecs|
    ensures var p := RunPass(ecs, outs, timeNow);
      p.NextTime == if AnyReady(p.Kept) then 0 else MinNext(p.Kept)
    decreases |ecs|
  {
    if ecs != [] {
      var n := |ecs| - 1;
      var p := RunPass(ecs[..n], outs[..n], timeNow);
      RunPassNextTime(ecs[..n], outs[..n], timeNow);
      var q := Step(p, n, ecs[n], outs[n], timeNow);
      if q.Kept != p.Kept {
        var m := |q.Kept| - 1;
        assert q.Kept[..m] == p.Kept;
        assert AnyReady(q.Kept) <==> AnyReady(p.Kept) || q.Kept[m].Ready by {
          assert forall k :: 0 <= k < m ==> q.Kept[k] == p.Kept[k];
        }
      }
    }
  }

  /**
   * The wait time CxPlatRunExecutionContexts leaves for the event queue, in
   * milliseconds, from the pass's NextTime: 0 when a context is ready,
   * UINT32_MAX (infinite) when no context has a timer, and otherwise the
   * distance to the earliest timer, computed as a 64-bit difference, converted
   * from microseconds, and kept between 1 and UINT32_MAX - 1.
   */
  function WaitTimeOf(nextTime: nat, timeNow: nat): (w: nat)
    ensures nextTime == 0 ==> w == 0
    ensures nextTime == UINT64_MAX ==> w == UINT32_MAX
    ensures 0 < nextTime != UINT64_MAX ==> 1 <= w <= UINT32_MAX - 1
    ensures 0 < nextTime < UINT64_MAX && timeNow <= nextTime ==>
      w == if (nextTime - timeNow) / 1000 == 0 then 1
           else if (nextTime - timeNow) / 1000 < UINT32_MAX then (nextTime - timeNow) / 1000
           else UINT32_MAX - 1
  {
    if nextTime == 0 then 0
    else if nextTime != UINT64_MAX then
      var diff := ((nextTime - timeNow) % TWO_TO_THE_64) / 1000;
      if diff == 0 then 1 else if diff < UINT32_MAX then diff else UINT32_MAX - 1
    else UINT32_MAX
  }

  /** A timer already in the past when the pass ends does not give a short
      wait: the 64-bit difference NextTime - TimeNow wraps, and unless the
      timer is more than about 49.7 days late the wait is the longest finite
      one. */
  lemma PastTimerWaitsLongest(nextTime: nat, timeNow: nat)
    requires 0 < nextTime < timeNow <= UINT64_MAX
    requires timeNow - nextTime <= TWO_TO_THE_64 - 1000 * UINT32_MAX
    ensures WaitTimeOf(nextTime, timeNow) == UINT32_MAX - 1
  {
    var diff := nextTime - timeNow;
    assert diff % TWO_TO_THE_64 == diff + TWO_TO_THE_64;
    assert (diff + TWO_TO_THE_64) / 1000 >= UINT32_MAX;
  }

  // ---------------------------------------------------------------------
  // The worker

  class Worker {
    /** Contexts added but not yet taken over by the worker thread, newest first. */
    var PendingECs: seq<Context>
    /** The contexts the worker thread runs, in list order. */
    var ExecutionContexts: seq<Context>
    /** The worker thread is awake or has a wake-up queued. */
    var Running: bool
    /** Entries posted to the worker's event queue, oldest first. */
    var EventQ: seq<Sqe>

    constructor ()
      ensures PendingECs == [] && ExecutionContexts == [] && !Running && EventQ == []
    {
      PendingECs, ExecutionContexts, Running, EventQ := [], [], false, [];
    }

    /** CxPlatWorkerPoolAddExecutionContext: pushes the context at the head
        of the pending list and, when the list was empty, asks the worker
        thread to take it over. */
    method AddExecutionContext(c: Context)
      modifies this`PendingECs, this`EventQ
      ensures PendingECs == [c] + old(PendingECs)
      ensures EventQ == old(EventQ) + if old(PendingECs) == [] then [UpdatePollSqe] else []
    {
      var QueueEvent := PendingECs == [];
      PendingECs := [c] + PendingECs;
      if QueueEvent {
        EventQ := EventQ + [UpdatePollSqe];
      }
    }

    /** CxPlatWakeExecutionContext: marks the worker running and queues a
        wake-up only if it was not running already. */
    method WakeExecutionContext()
      modifies this`Running, this`EventQ
      ensures Running
      ensures EventQ == old(EventQ) + if old(Running) then [] else [WakeSqe]
    {
      var WasRunning := Running;
      Running := true;
      if !WasRunning {
        EventQ := EventQ + [WakeSqe];
      }
    }

    /** CxPlatUpdateExecutionContexts: the pending list, in its order, is
        spliced in front of the active list and the pending list emptied.
        The source walks to the pending list's last link before the splice;
        on a sequence that link is its end. */
    method UpdateExecutionContexts()
      modifies this`PendingECs, this`ExecutionContexts
      ensures PendingECs == []
      ensures ExecutionContexts == old(PendingECs) + old(ExecutionContexts)
    {
      if PendingECs != [] {
        var Head := PendingECs;
        PendingECs := [];
        ExecutionContexts := Head + ExecutionContexts;
      }
    }

    /**
     * CxPlatRunExecutionContexts at time TimeNow: one pass over the active
     * list that clears each Ready flag, runs the callbacks of the contexts
     * that were ready or due, unlinks those whose callback returned FALSE and
     * computes the wait time.  Outcomes[i] is what the callback of the i-th
     * context would give; Invoked lists the positions whose callback ran.
     */
    method RunExecutionContexts(TimeNow: nat, Outcomes: seq<CallbackOutcome>)
      returns (WaitTime: nat, Invoked: seq<nat>)
      requires |Outcomes| == |ExecutionContexts|
      modifies this`ExecutionContexts
      ensures var p := RunPass(old(ExecutionContexts), Outcomes, TimeNow);
        ExecutionContexts == p.Kept && Invoked == p.Invoked && WaitTime == WaitTimeOf(p.NextTime, TimeNow)
      ensures old(ExecutionContexts) == [] ==> ExecutionContexts == [] && Invoked == [] && WaitTime == UINT32_MAX
    {
      if ExecutionContexts == [] {
        return UINT32_MAX, [];
      }
      ghost var ecs := ExecutionContexts;
      ghost var from: seq<nat> := [];
      var NextTime: nat := UINT64_MAX;
      Invoked := [];
      var EC, i := 0, 0;
      while EC < |ExecutionContexts|
        invariant i <= |ecs| && EC <= |ExecutionContexts|
        invariant RunPass(ecs[..i], Outcomes[..i], TimeNow) == Pass(ExecutionContexts[..EC], NextTime, Invoked, from)
        invariant ExecutionContexts[EC..] == ecs[i..]
        decreases |ecs| - i
      {
        assert ecs[..i + 1][..i] == ecs[..i] && Outcomes[..i + 1][..i] == Outcomes[..i];
        assert ecs[i + 1..] == ecs[i..][1..];
        var Kept;
        NextTime, Invoked, Kept := VisitContext(EC, i, NextTime, Invoked, TimeNow, Outcomes[i], from);
        if Kept {
          from := from + [i];
          EC := EC + 1;
        }
        i := i + 1;
      }
      assert ecs[..i] == ecs && Outcomes[..i] == Outcomes;
      assert ExecutionContexts[..EC] == ExecutionContexts;
      WaitTime := ComputeWaitTime(NextTime, TimeNow);
    }

    /** One pass of CxPlatRunExecutionContexts's loop, over the context at
        index EC of the list (position i of the list the pass started from). */
    method VisitContext(EC: nat, i: nat, NextTime: nat, Invoked: seq<nat>, TimeNow: nat, Outcome: CallbackOutcome,
                        ghost from: seq<nat>)
      returns (NextTime': nat, Invoked': seq<nat>, Kept: bool)
      requires EC < |ExecutionContexts|
      modifies this`ExecutionContexts
      ensures var q := Step(Pass(old(ExecutionContexts)[..EC], NextTime, Invoked, from), i,
                            old(ExecutionContexts)[EC], Outcome, TimeNow);
        var next := if Kept then EC + 1 else EC;
        next <= |ExecutionContexts| &&
        q == Pass(ExecutionContexts[..next], NextTime', Invoked', if Kept then from + [i] else from) &&
        ExecutionContexts[next..] == old(ExecutionContexts)[EC + 1..]
    {
      NextTime', Invoked' := NextTime, Invoked;
      ghost var before := ExecutionContexts;
      var Context := ExecutionContexts[EC];
      var Ready := Context.Ready;
      Context := Context.(Ready := false);
      if Ready || Context.NextTimeUs <= TimeNow {
        Invoked' := Invoked' + [i];
        if !Outcome.Keep {
          ExecutionContexts := ExecutionContexts[..EC] + ExecutionContexts[EC + 1..];
          assert ExecutionContexts[..EC] == before[..EC];
          assert ExecutionContexts[EC..] == before[EC + 1..];
          return NextTime', Invoked', false;
        }
        Context := Context.(Ready := Outcome.Ready, NextTimeUs := Outcome.NextTimeUs);
        if Context.Ready {
          NextTime' := 0;
        }
      }
      if Context.NextTimeUs < NextTime' {
        NextTime' := Context.NextTimeUs;
      }
      ExecutionContexts := ExecutionContexts[EC := Context];
      assert ExecutionContexts[..EC + 1] == before[..EC] + [Context];
      assert ExecutionContexts[EC + 1..] == before[EC + 1..];
      Kept := true;
    }

    /** The end of CxPlatRunExecutionContexts: the wait time from the
        earliest time a kept context wants to run. */
    static method ComputeWaitTime(NextTime: nat, TimeNow: nat) returns (WaitTime: nat)
      ensures WaitTime == WaitTimeOf(NextTime, TimeNow)
    {
      if NextTime == 0 {
        WaitTime := 0;
      } else if NextTime != UINT64_MAX {
        var Diff: nat := (NextTime - TimeNow) % TWO_TO_THE_64;
        Diff := Diff / 1000;
        if Diff == 0 {
          WaitTime := 1;
        } else if Diff < UINT32_MAX {
          WaitTime := Diff;
        } else {
          WaitTime := UINT32_MAX - 1;
        }
      } else {
        WaitTime := UINT32_MAX;
      }
    }
  }
}
