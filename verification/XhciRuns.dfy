/**
 Runs of the ring protocol: up to which number of outstanding TRBs the controller consumes exactly
 what was enqueued (255), and up to which it can always finish (254).
 */
module XhciRuns {
  import opened Bytes
  import opened Rings
  import opened XhciRing

  predicate ControllerOnly(steps: seq<Step>) {
    forall k :: 0 <= k < |steps| ==> steps[k].Fetch? || steps[k].Take?
  }

  /** One more step at the end of a run. */
  lemma Extend(limit: nat, phys: nat, steps: seq<Step>, step: Step)
    requires var r := Exec(limit, phys, steps);
      r.Some? && Enabled(r.value, step) && (step.Begin? ==> Outstanding(r.value) < limit)
    ensures Exec(limit, phys, steps + [step]) == Some(Next(Exec(limit, phys, steps).value, step))
  {
    hide Enabled, Next, Outstanding;
    var all := steps + [step];
    assert all[..|all| - 1] == steps;
    ShapeKept(Exec(limit, phys, steps).value, step);
  }

  /** Over any number of wraps, every run with at most 255 TRBs outstanding keeps the invariant. */
  lemma {:induction false} RunInv(limit: nat, phys: nat, steps: seq<Step>)
    requires limit <= SLOTS && Exec(limit, phys, steps).Some?
    ensures Inv(Exec(limit, phys, steps).value) && Outstanding(Exec(limit, phys, steps).value) <= limit
    decreases |steps|
  {
    hide Inv, Enabled, Next;
    if steps == [] {
      InvInit(phys);
    } else {
      var n := |steps| - 1;
      RunInv(limit, phys, steps[..n]);
      var s := Exec(limit, phys, steps[..n]).value;
      InvNext(s, steps[n]);
      Counted(s, steps[n]);
    }
  }

  lemma Counted(s: State, step: Step)
    requires Shaped(s) && Enabled(s, step)
    ensures Outstanding(Next(s, step)) <= Outstanding(s) + if step.Begin? then 1 else 0
  {
  }

  /** What the run was asked to enqueue. */
  function Requests(steps: seq<Step>): seq<Request>
    decreases |steps|
  {
    if steps == [] then [] else
      var before := Requests(steps[..|steps| - 1]);
      match steps[|steps| - 1]
      case Begin(param, status, ctrl) => before + [Request(param, status, ctrl)]
      case _ => before
  }

  ghost predicate AllMeet(ts: seq<Trb>, qs: seq<Request>) {
    |ts| <= |qs| && forall k :: 0 <= k < |ts| ==> Meets(ts[k], qs[k])
  }

  /** The TRBs enqueued are those asked for. */
  lemma {:induction false} EnqueuesAsked(limit: nat, phys: nat, steps: seq<Step>)
    requires Exec(limit, phys, steps).Some?
    ensures var s := Exec(limit, phys, steps).value;
      |s.drv.enq| == |Requests(steps)| && AllMeet(s.drv.enq, Requests(steps))
    decreases |steps|
  {
    hide Enabled, EnqueueStores, WithCycle, TakeLatched;
    if steps != [] {
      var n := |steps| - 1;
      EnqueuesAsked(limit, phys, steps[..n]);
      var s := Exec(limit, phys, steps[..n]).value;
      if steps[n].Begin? {
        CycleBit(steps[n].ctrl, s.drv.pcs);
      }
    }
  }

  /** The controller has consumed exactly what was asked for, in order, once each, nothing half-written. */
  ghost predicate InOrder(steps: seq<Step>, s: State) { AllMeet(s.hc.got, Requests(steps)) }

  lemma ConsumesInOrder(limit: nat, phys: nat, steps: seq<Step>)
    requires limit <= SLOTS && Exec(limit, phys, steps).Some?
    ensures var s := Exec(limit, phys, steps).value;
      InOrder(steps, s) && !s.hc.lost && |s.hc.got| <= |s.drv.enq| && s.hc.got == s.drv.enq[..|s.hc.got|]
  {
    hide Exec, Meets, DriverInv, MemInv;
    RunInv(limit, phys, steps);
    EnqueuesAsked(limit, phys, steps);
  }

  // ---------- The controller can finish ----------

  /** With TRBs left and no store owed, the controller is not stuck while at most 254 are outstanding,
      nor while it stands at a slot. */
  lemma NotStuck(s: State)
    requires Inv(s) && s.drv.pending == [] && s.hc.got != s.drv.enq && |s.hc.latch| < 4
    requires Outstanding(s) < SLOTS || s.hc.dq < SLOTS
    ensures Enabled(s, Fetch)
  {
    hide Owed, Fetched, Type, HalfWritten;
    var d, c := s.drv, s.hc;
    if c.latch == [] {
      assert |c.got| < |d.enq|;
      if c.dq < SLOTS {
        assert SlotHolds(d, c.dq);
      }
    }
  }

  /** How far the controller is from having consumed everything. */
  function Distance(s: State): int {
    10 * Outstanding(s) + (if s.hc.dq == SLOTS then 5 else 0) + 4 - |s.hc.latch|
  }

  /** The controller, alone, consumes all that is outstanding. */
  lemma {:induction false} Drain(limit: nat, phys: nat, steps: seq<Step>) returns (more: seq<Step>)
    requires Exec(limit, phys, steps).Some?
    requires var s := Exec(limit, phys, steps).value; Inv(s) && s.drv.pending == [] && (Outstanding(s) < SLOTS || s.hc.dq < SLOTS)
    ensures ControllerOnly(more) && Exec(limit, phys, steps + more).Some?
    ensures Exec(limit, phys, steps).value.hc.got == Exec(limit, phys, steps).value.drv.enq ==> more == []
    ensures var s, u := Exec(limit, phys, steps).value, Exec(limit, phys, steps + more).value;
      Inv(u) && u.drv == s.drv && u.hc.got == s.drv.enq && (s.hc.got != s.drv.enq ==> u.hc.dq > 0 && u.hc.latch == [])
    decreases Distance(Exec(limit, phys, steps).value)
  {
    hide DriverInv, MemInv, ControllerInv, Enabled, Exec;
    var s := Exec(limit, phys, steps).value;
    if s.hc.got == s.drv.enq {
      more := [];
      assert steps + [] == steps;
    } else {
      var step := if |s.hc.latch| == 4 then Take else Fetch;
      Advance(s);
      Extend(limit, phys, steps, step);
      InvNext(s, step);
      var rest := Drain(limit, phys, steps + [step]);
      more := [step] + rest;
      if rest == [] {
        assert steps + more == steps + [step];
      }
      assert steps + more == steps + [step] + rest;
    }
  }

  lemma Advance(s: State)
    requires Inv(s) && s.drv.pending == [] && s.hc.got != s.drv.enq && (Outstanding(s) < SLOTS || s.hc.dq < SLOTS)
    ensures var step := if |s.hc.latch| == 4 then Take else Fetch;
      && Enabled(s, step)
      && var u := Next(s, step);
        && Distance(u) < Distance(s) && u.drv == s.drv
        && (Outstanding(u) < SLOTS || u.hc.dq < SLOTS) && Distance(u) >= 0
        && (u.hc.got == u.drv.enq ==> u.hc.dq > 0 && u.hc.latch == [])
  {
    hide DriverInv, MemInv;
    var step := if |s.hc.latch| == 4 then Take else Fetch;
    if step.Take? {
      InvTake(s);
    } else {
      NotStuck(s);
    }
    InvNext(s, step);
  }

  // ---------- Runs in which the driver gets ahead ----------

  /** The driver stores all it owes. */
  lemma {:induction false} Finish(limit: nat, phys: nat, steps: seq<Step>) returns (more: seq<Step>)
    requires Exec(limit, phys, steps).Some? && Inv(Exec(limit, phys, steps).value)
    ensures Exec(limit, phys, steps + more).Some?
    ensures var s, u := Exec(limit, phys, steps).value, Exec(limit, phys, steps + more).value;
      Inv(u) && u.hc == s.hc && u.drv == Settled(s.drv)
    decreases |Exec(limit, phys, steps).value.drv.pending|
  {
    hide DriverInv, MemInv, ControllerInv, Exec;
    var s := Exec(limit, phys, steps).value;
    if s.drv.pending == [] {
      more := [];
      assert steps + [] == steps;
    } else {
      Extend(limit, phys, steps, DriverStore);
      InvNext(s, DriverStore);
      var rest := Finish(limit, phys, steps + [DriverStore]);
      more := [DriverStore] + rest;
      assert steps + more == steps + [DriverStore] + rest;
    }
  }

  /** The driver enqueues `n` TRBs while the controller does nothing. */
  lemma {:induction false} Fill(limit: nat, phys: nat, steps: seq<Step>, n: nat) returns (more: seq<Step>)
    requires Exec(limit, phys, steps).Some?
    requires var s := Exec(limit, phys, steps).value;
      Inv(s) && s.drv.pending == [] && Outstanding(s) + n <= SLOTS <= limit
    ensures Exec(limit, phys, steps + more).Some?
    ensures var s, u := Exec(limit, phys, steps).value, Exec(limit, phys, steps + more).value;
      Inv(u) && u.hc == s.hc && |u.drv.enq| == |s.drv.enq| + n && s.drv.enq <= u.drv.enq && u.drv.pending == []
    decreases n
  {
    hide DriverInv, MemInv, ControllerInv, Exec, EnqueueStores;
    var s := Exec(limit, phys, steps).value;
    if n == 0 {
      more := [];
      assert steps + [] == steps;
    } else {
      var step := Begin(0, 0, 0);
      Extend(limit, phys, steps, step);
      InvNext(s, step);
      var one := Finish(limit, phys, steps + [step]);
      var rest := Fill(limit, phys, steps + [step] + one, n - 1);
      more := [step] + one + rest;
      assert steps + more == steps + [step] + one + rest;
    }
  }

  /** No TRB is lost: from this state the controller, alone, can consume all that is outstanding. */
  ghost predicate CanFinish(limit: nat, phys: nat, steps: seq<Step>) {
    exists more :: ControllerOnly(more) && Exec(limit, phys, steps + more).Some?
                   && AllConsumed(steps, Exec(limit, phys, steps + more).value)
  }

  ghost predicate AllConsumed(steps: seq<Step>, s: State) {
    |s.hc.got| == |Requests(steps)| && InOrder(steps, s)
  }

  predicate Idle(limit: nat, phys: nat, steps: seq<Step>) {
    Exec(limit, phys, steps).Some? && Exec(limit, phys, steps).value.drv.pending == []
  }

  /** A controller that cannot take a step takes none. */
  lemma {:induction false} StuckStays(limit: nat, phys: nat, steps: seq<Step>, more: seq<Step>)
    requires Exec(limit, phys, steps).Some?
    requires var s := Exec(limit, phys, steps).value; !Enabled(s, Fetch) && !Enabled(s, Take)
    requires ControllerOnly(more) && Exec(limit, phys, steps + more).Some?
    ensures more == []
    decreases |more|
  {
    hide Enabled, Next;
    if more != [] {
      var n := |more| - 1;
      assert (steps + more)[..|steps + more| - 1] == steps + more[..n];
      assert (steps + more)[|steps| + n] == more[n];
      assert steps + [] == steps;
      StuckStays(limit, phys, steps, more[..n]);
    }
  }

  /** With 255 outstanding the driver has rewritten the Link TRB, with the other cycle bit, before a
      controller that waits there has followed it. */
  lemma RewrittenLink(s: State)
    requires Inv(s) && s.drv.pending == [] && s.hc.latch == [] && s.hc.dq == SLOTS && Outstanding(s) == SLOTS
    ensures !Enabled(s, Fetch) && !Enabled(s, Take)
  {
    hide SlotHolds, Owed;
  }

  lemma StuckRun(limit: nat) returns (steps: seq<Step>)
    requires limit >= SLOTS
    ensures Idle(limit, 0, steps) && !CanFinish(limit, 0, steps)
  {
    hide Exec, Inv, Enabled;
    var a := FullLap(limit);
    var b := Fill(limit, 0, a, 255);
    steps := a + b;
    var s := Exec(limit, 0, steps).value;
    RewrittenLink(s);
    forall more | ControllerOnly(more) && Exec(limit, 0, steps + more).Some?
      ensures !AllConsumed(steps, Exec(limit, 0, steps + more).value)
    {
      StuckStays(limit, 0, steps, more);
      assert steps + [] == steps;
      EnqueuesAsked(limit, 0, steps);
    }
  }

  /** One lap enqueued and consumed; the controller stands at the Link TRB. */
  lemma FullLap(limit: nat) returns (steps: seq<Step>)
    requires limit >= SLOTS
    ensures Exec(limit, 0, steps).Some?
    ensures var s := Exec(limit, 0, steps).value;
      Inv(s) && s.drv.pending == [] && s.hc.latch == [] && s.hc.dq == SLOTS && Outstanding(s) == 0
  {
    hide Exec, Enabled, DriverInv, MemInv;
    InitRun(limit);
    var a := Fill(limit, 0, [], 254);
    assert [] + a == a;
    var b := Drain(limit, 0, a);
    var c := Fill(limit, 0, a + b, 1);
    var d := Drain(limit, 0, a + b + c);
    steps := a + b + c + d;
  }

  lemma InitRun(limit: nat)
    ensures Exec(limit, 0, []) == Some(Init(0)) && Inv(Init(0)) && Outstanding(Init(0)) == 0 && Init(0).drv.pending == []
    ensures Init(0).drv.enq == []
  {
    InvInit(0);
  }

  /** Nothing enqueued is ever lost exactly when at most 254 TRBs may be outstanding. */
  lemma FinishesIff(limit: nat)
    ensures (forall phys: nat, steps: seq<Step> :: Idle(limit, phys, steps) ==> CanFinish(limit, phys, steps)) <==> limit <= 254
  {
    hide Exec, Inv, Requests, Meets;
    if limit < SLOTS {
      forall phys: nat, steps: seq<Step> | Idle(limit, phys, steps)
        ensures CanFinish(limit, phys, steps)
      {
        RunInv(limit, phys, steps);
        var more := Drain(limit, phys, steps);
        EnqueuesAsked(limit, phys, steps);
        assert ControllerOnly(more) && AllConsumed(steps, Exec(limit, phys, steps + more).value);
      }
    } else {
      var steps := StuckRun(limit);
    }
  }

  // ---------- With 256 outstanding a TRB can be read half-overwritten ----------

  /** A controller that has fetched the control word of slot 0, and a driver that comes round to that slot. */
  lemma TornRead(s: State) returns (t: State)
    requires Inv(s) && s.drv.pending == [] && |s.drv.enq| == SLOTS && s.drv.enq[0].d0 == 0
    requires s.hc.dq == 0 && s.hc.got == [] && |s.hc.latch| == 1
    ensures Enabled(s, Begin(1, 0, 0)) && t == Next(s, Begin(1, 0, 0))
    ensures t.hc == s.hc && t.drv.enq[0].d0 == 0 && |t.drv.enq| > 0
    ensures t.drv.pending != [] && t.drv.pending[0] == Store(0, 0, 1)
    ensures Type(t.hc.latch[0]) != TRB_LINK && t.hc.dq == 0 && !t.hc.lost
  {
    PlainControl();
    hide MemInv, Owed, EnqueueStores, Type, Cycle, WithCycle, Cyc;
    t := Next(s, Begin(1, 0, 0));
    assert s.drv.i == 0;
    assert s.hc.latch[0] == Dword(s.drv.enq[0], 0);
    assert t.drv.enq[0] == s.drv.enq[0];
    EnqueueFirst(s.drv.phys, s.drv.pcs, Trb(1, 0, 0, WithCycle(0, s.drv.pcs)));
  }

  lemma PlainControl()
    ensures Type(0) != TRB_LINK
  {
  }

  lemma EnqueueFirst(phys: nat, pcs: nat, t: Trb)
    requires pcs < 2
    ensures EnqueueStores(phys, 0, pcs, t) == TrbStores(0, t)
  {
  }

  /** After the driver's first store the controller reads the overwritten dword. */
  lemma TornTail(limit: nat, steps: seq<Step>) returns (more: seq<Step>)
    requires Exec(limit, 0, steps).Some?
    requires var t := Exec(limit, 0, steps).value;
      && t.drv.pending != [] && t.drv.pending[0] == Store(0, 0, 1)
      && t.hc.dq == 0 && t.hc.got == [] && |t.hc.latch| == 1 && Type(t.hc.latch[0]) != TRB_LINK
      && |t.drv.enq| > 0 && t.drv.enq[0].d0 == 0 && !t.hc.lost
    ensures Exec(limit, 0, steps + more).Some? && !InOrder(steps + more, Exec(limit, 0, steps + more).value)
  {
    hide Exec, EnqueueStores, Type, Requests, Meets;
    var s1 := steps + [DriverStore];
    Extend(limit, 0, steps, DriverStore);
    var s2 := s1 + [Fetch];
    Extend(limit, 0, s1, Fetch);
    var s3 := s2 + [Fetch];
    Extend(limit, 0, s2, Fetch);
    var s4 := s3 + [Fetch];
    Extend(limit, 0, s3, Fetch);
    Extend(limit, 0, s4, Take);
    more := [DriverStore, Fetch, Fetch, Fetch, Take];
    assert steps + more == s4 + [Take];
    var u := Exec(limit, 0, steps + more).value;
    assert u.hc.got[0].d0 == 1 && u.drv.enq[0].d0 == 0;
    EnqueuesAsked(limit, 0, steps + more);
    MeetOnce(u.hc.got[0], u.drv.enq[0], Requests(steps + more)[0]);
  }

  /** Two TRBs that hold the same request have the same first dword. */
  lemma MeetOnce(t: Trb, u: Trb, q: Request)
    requires t.d0 != u.d0 && Meets(u, q)
    ensures !Meets(t, q)
  {
  }

  lemma TornRun(limit: nat) returns (steps: seq<Step>)
    requires limit > SLOTS
    ensures Exec(limit, 0, steps).Some? && !InOrder(steps, Exec(limit, 0, steps).value)
  {
    hide Exec, DriverInv, MemInv, Enabled;
    var c := Latched(limit);
    var d := Fill(limit, 0, c, 254);
    var s := Exec(limit, 0, c + d).value;
    var t := TornRead(s);
    Extend(limit, 0, c + d, Begin(1, 0, 0));
    var e := TornTail(limit, c + d + [Begin(1, 0, 0)]);
    steps := c + d + [Begin(1, 0, 0)] + e;
  }

  /** One TRB enqueued, its control word fetched. */
  lemma Latched(limit: nat) returns (steps: seq<Step>)
    requires limit > SLOTS
    ensures Exec(limit, 0, steps).Some?
    ensures var s := Exec(limit, 0, steps).value;
      Inv(s) && s.drv.pending == [] && |s.drv.enq| == 1 && s.drv.enq[0].d0 == 0
      && s.hc.dq == 0 && s.hc.got == [] && |s.hc.latch| == 1
  {
    hide Exec, DriverInv, MemInv;
    InitRun(limit);
    var first := Begin(0, 0, 0);
    Extend(limit, 0, [], first);
    assert [] + [first] == [first];
    InvNext(Init(0), first);
    var a := Finish(limit, 0, [first]);
    var s := Exec(limit, 0, [first] + a).value;
    NotStuck(s);
    Extend(limit, 0, [first] + a, Fetch);
    InvNext(s, Fetch);
    steps := [first] + a + [Fetch];
  }

  /** The controller consumes what was enqueued, whole and in order, exactly when at most 255 TRBs may
      be outstanding: `limit` bounds the number outstanding after an enqueue. */
  lemma InOrderIff(limit: nat)
    ensures (forall phys: nat, steps: seq<Step> ::
        Exec(limit, phys, steps).Some? ==> InOrder(steps, Exec(limit, phys, steps).value))
      <==> limit <= 255
  {
    hide Exec, InOrder;
    if limit <= SLOTS {
      forall phys: nat, steps: seq<Step> | Exec(limit, phys, steps).Some?
        ensures InOrder(steps, Exec(limit, phys, steps).value)
      {
        ConsumesInOrder(limit, phys, steps);
      }
    } else {
      var steps := TornRun(limit);
    }
  }
}
