/**
 Event ring and mailbox together: what becomes of one event, from the controller's post through `pump` to
 `take_xfer` and `wait_cmd`, over every interleaving of posts, turns of `pump` and takes.
 */
module XhciDelivery {
  import opened Bytes
  import opened XhciEvents
  import opened XhciMailbox

  /** The ring, the kept command completion, the cells, and what was done to the cells, in order. */
  datatype Hub = Hub(ring: Events, cmd: Option<Event>, cells: Cells, ops: seq<XhciMailbox.Op>)

  datatype Step = Posted(e: Event) | Turn | TakeXfer(k: Key) | TakeCmd

  function Start(): Hub { Hub(XhciEvents.Init(), None, CellsAfter([]), []) }

  predicate Xfer(e: Event) { e.ty == TRB_TRANSFER }

  /** What a turn of `pump` does with the event it popped. */
  function Given(h: Hub, ring: Events, e: Event): Hub {
    var (cmd, cells) := Handled(h.cmd, h.cells, e);
    Hub(ring, cmd, cells, if Xfer(e) then h.ops + [StashOp(e)] else h.ops)
  }

  function Turned(h: Hub): Hub
    requires Shaped(h.ring)
  {
    match Popped(h.ring)
    case (ring, None) => h.(ring := ring)
    case (ring, Some(e)) => Given(h, ring, e)
  }

  function Next(h: Hub, step: Step): (r: Hub)
    requires Shaped(h.ring)
    ensures Shaped(r.ring)
  {
    match step
    case Posted(e) => h.(ring := Post(h.ring, e))
    case Turn => Turned(h)
    case TakeXfer(k) => h.(cells := Take(h.cells, k).0, ops := h.ops + [TakeOp(k)])
    case TakeCmd => h.(cmd := None)
  }

  /** The state after the steps, if no event was posted with `limit` or more unread. */
  function Run(limit: nat, steps: seq<Step>): (r: Option<Hub>)
    ensures r.Some? ==> Shaped(r.value.ring)
    decreases |steps|
  {
    if steps == [] then Some(Start()) else
      var step := steps[|steps| - 1];
      match Run(limit, steps[..|steps| - 1])
      case None => None
      case Some(h) => if step.Posted? && Unread(h.ring) >= limit then None else Some(Next(h, step))
  }

  /** The events the controller posted. */
  function PostedBy(steps: seq<Step>): seq<Event>
    decreases |steps|
  {
    if steps == [] then [] else
      var before := PostedBy(steps[..|steps| - 1]);
      if steps[|steps| - 1].Posted? then before + [steps[|steps| - 1].e] else before
  }

  /** The ring is sound and holds what the run posted, and the cells are those of the operations on them. */
  ghost predicate Good(h: Hub, posted: seq<Event>) {
    Inv(h.ring) && h.ring.posted == posted && h.cells == CellsAfter(h.ops)
  }

  /** A turn pops the oldest unread event, if any. */
  lemma TurnMeaning(h: Hub)
    requires Inv(h.ring)
    ensures Inv(Turned(h).ring) && Turned(h).ring.posted == h.ring.posted && Unread(h.ring) >= 0
    ensures Unread(h.ring) == 0 ==>
      Turned(h) == h.(ring := Turned(h).ring) && |Turned(h).ring.popped| == |h.ring.popped|
    ensures Unread(h.ring) > 0 ==>
      && |h.ring.popped| < |h.ring.posted| && |Turned(h).ring.popped| == |h.ring.popped| + 1
      && Turned(h) == Given(h, Turned(h).ring, h.ring.posted[|h.ring.popped|])
  {
    hide Popped, Inv;
    PopMeaning(h.ring);
    InOrder(h.ring);
  }

  lemma OpsMore(ops: seq<XhciMailbox.Op>, op: XhciMailbox.Op)
    ensures op.StashOp? ==> CellsAfter(ops + [op]) == Stash(CellsAfter(ops), op.e)
    ensures op.TakeOp? ==> CellsAfter(ops + [op]) == Take(CellsAfter(ops), op.k).0
  {
    hide Stash, Take;
    assert (ops + [op])[..|ops|] == ops;
  }

  lemma GivenGood(h: Hub, ring: Events, e: Event, posted: seq<Event>)
    requires Good(h, posted) && Inv(ring) && ring.posted == posted
    ensures Good(Given(h, ring, e), posted)
  {
    hide Inv, Stash, CellsAfter;
    OpsMore(h.ops, StashOp(e));
  }

  lemma {:induction false} RunGood(limit: nat, steps: seq<Step>)
    requires limit <= RING_TRBS && Run(limit, steps).Some?
    ensures Good(Run(limit, steps).value, PostedBy(steps))
    decreases |steps|
  {
    hide Inv, Post, Turned, Given, Take, CellsAfter;
    if steps == [] {
      InvInit();
    } else {
      var n := |steps| - 1;
      RunGood(limit, steps[..n]);
      var h := Run(limit, steps[..n]).value;
      match steps[n]
      case Posted(e) =>
        InvPost(h.ring, e);
        PostMeaning(h.ring, e);
      case Turn =>
        TurnMeaning(h);
        if Unread(h.ring) > 0 {
          GivenGood(h, Turned(h).ring, h.ring.posted[|h.ring.popped|], PostedBy(steps[..n]));
        }
      case TakeXfer(k) => OpsMore(h.ops, TakeOp(k));
      case TakeCmd =>
    }
  }

  lemma PostMeaning(s: Events, e: Event)
    requires Inv(s)
    ensures Post(s, e).posted == s.posted + [e] && Post(s, e).popped == s.popped
  {
  }

  // ---------- The fate of one event ----------

  /** Step `j` is the turn that pops event `n` of the run. */
  predicate PopsAt(limit: nat, steps: seq<Step>, j: nat, n: nat) {
    && j < |steps| && steps[j].Turn? && Run(limit, steps[..j]).Some?
    && var s := Run(limit, steps[..j]).value.ring; |s.popped| == n && Unread(s) > 0
  }

  /** After step `j` nothing takes from key `k`, and no transfer of that key popped later than event `n`. */
  ghost predicate Quiet(steps: seq<Step>, h: Hub, j: nat, n: nat, k: Key) {
    && (forall i :: j < i < |steps| ==> steps[i] != TakeXfer(k))
    && (forall m :: n < m < |h.ring.popped| ==> !(Xfer(h.ring.popped[m]) && KeyOf(h.ring.popped[m]) == k))
  }

  /** Since operation `l`, the stash of event `e`, its key was left alone. */
  ghost predicate Left(h: Hub, l: nat, ops: seq<XhciMailbox.Op>, e: Event) {
    && |ops| == l < |h.ops| && h.ops[..l] == ops && h.ops[l] == StashOp(e)
    && (forall i :: l < i < |h.ops| ==> OpKey(h.ops[i]) != KeyOf(e))
  }

  /** The run up to its last step. */
  lemma RunBefore(limit: nat, steps: seq<Step>)
    requires steps != [] && Run(limit, steps).Some?
    ensures Run(limit, steps[..|steps| - 1]).Some?
    ensures Run(limit, steps).value == Next(Run(limit, steps[..|steps| - 1]).value, steps[|steps| - 1])
  {
    hide Next;
  }

  /** One step that leaves the key alone. */
  lemma LeftStep(h: Hub, u: Hub, step: Step, l: nat, ops: seq<XhciMailbox.Op>, e: Event)
    requires Inv(h.ring) && Left(h, l, ops, e)
    requires u == Next(h, step)
    requires step != TakeXfer(KeyOf(e))
    requires step.Turn? && Unread(h.ring) > 0 ==>
      var p := h.ring.posted[|h.ring.popped|]; !(Xfer(p) && KeyOf(p) == KeyOf(e))
    ensures Left(u, l, ops, e)
  {
    hide Inv, Post, Turned, Take, Handled;
    if step.Turn? {
      TurnMeaning(h);
    }
    assert h.ops <= u.ops && |u.ops| <= |h.ops| + 1;
    assert u.ops[..l] == h.ops[..l];
  }

  lemma {:induction false} StaysLeft(limit: nat, steps: seq<Step>, j: nat, n: nat)
    requires limit <= RING_TRBS && Run(limit, steps).Some? && PopsAt(limit, steps, j, n)
    requires n < |PostedBy(steps)| && Xfer(PostedBy(steps)[n])
    requires Quiet(steps, Run(limit, steps).value, j, n, KeyOf(PostedBy(steps)[n]))
    ensures n < |Run(limit, steps).value.ring.popped|
    ensures var before := Run(limit, steps[..j]).value;
      Left(Run(limit, steps).value, |before.ops|, before.ops, PostedBy(steps)[n])
    decreases |steps|
  {
    hide Run, Inv, Post, Turned, Given, Take, Left, PostedBy;
    var last := |steps| - 1;
    RunBefore(limit, steps);
    RunGood(limit, steps[..last]);
    RunGood(limit, steps);
    var h, u, e := Run(limit, steps[..last]).value, Run(limit, steps).value, PostedBy(steps)[n];
    InOrder(h.ring);
    InOrder(u.ring);
    if last == j {
      TurnMeaning(h);
      JustLeft(h, u.ring, e);
    } else {
      assert steps[..last][..j] == steps[..j];
      StepGrows(h, u, steps[last]);
      assert forall i :: j < i < last ==> steps[..last][i] == steps[i];
      PoppedBefore(limit, steps[..last], j, n);
      assert h.ring.posted[n] == u.ring.posted[n];
      StaysLeft(limit, steps[..last], j, n);
      if steps[last].Turn? && Unread(h.ring) > 0 {
        TurnMeaning(h);
        assert u.ring.popped[|h.ring.popped|] == h.ring.posted[|h.ring.popped|];
      }
      LeftStep(h, u, steps[last], |Run(limit, steps[..j]).value.ops|, Run(limit, steps[..j]).value.ops, e);
    }
  }

  lemma JustLeft(h: Hub, ring: Events, e: Event)
    requires Xfer(e)
    ensures Left(Given(h, ring, e), |h.ops|, h.ops, e)
  {
  }

  /** No step takes anything back from the ring's two histories. */
  lemma StepGrows(h: Hub, u: Hub, step: Step)
    requires Inv(h.ring)
    requires u == Next(h, step)
    ensures h.ring.posted <= u.ring.posted && |h.ring.popped| <= |u.ring.popped|
  {
    hide Inv, Post, Turned, Given, Take;
    if step.Turn? {
      TurnMeaning(h);
    } else if step.Posted? {
      PostMeaning(h.ring, step.e);
    }
  }

  /** An event popped in a run stays posted and popped. */
  lemma {:induction false} PoppedBefore(limit: nat, steps: seq<Step>, j: nat, n: nat)
    requires limit <= RING_TRBS && Run(limit, steps).Some? && PopsAt(limit, steps, j, n)
    ensures n < |Run(limit, steps).value.ring.popped| <= |PostedBy(steps)|
    decreases |steps|
  {
    hide Run, Inv, Post, Turned, Given, Take, PostedBy;
    var last := |steps| - 1;
    RunBefore(limit, steps);
    RunGood(limit, steps[..last]);
    RunGood(limit, steps);
    var h, u := Run(limit, steps[..last]).value, Run(limit, steps).value;
    InOrder(u.ring);
    if last == j {
      TurnMeaning(h);
    } else {
      assert steps[..last][..j] == steps[..j];
      PoppedBefore(limit, steps[..last], j, n);
      StepGrows(h, u, steps[last]);
    }
  }

  /** A transfer event, the `n`th the controller posted, popped at step `j`: until its key is taken from or a
      newer transfer of its key is popped, `take_xfer` answers it, unless when it was popped all sixteen
      cells held other keys. */
  lemma Delivered(limit: nat, steps: seq<Step>, j: nat, n: nat)
    requires limit <= RING_TRBS && Run(limit, steps).Some? && PopsAt(limit, steps, j, n)
    requires n < |PostedBy(steps)| && PostedBy(steps)[n].ty == 32
    requires Quiet(steps, Run(limit, steps).value, j, n, KeyOf(PostedBy(steps)[n]))
    ensures var e := PostedBy(steps)[n];
      Take(Run(limit, steps).value.cells, KeyOf(e)).1 ==
        if Accepts(Run(limit, steps[..j]).value.cells, e) then Some(e) else None
  {
    hide Run, Inv, Take, Accepts, CellsAfter, PostedBy, Quiet;
    StaysLeft(limit, steps, j, n);
    RunGood(limit, steps);
    RunGood(limit, steps[..j]);
    var h, e, l := Run(limit, steps).value, PostedBy(steps)[n], |Run(limit, steps[..j]).value.ops|;
    assert h.ops[..|h.ops|] == h.ops;
    Fate(h.ops, l, |h.ops|);
  }

  /** A command completion popped at step `j` is what `wait_cmd` finds, until it is taken or a newer one is popped. */
  lemma {:induction false} CommandKept(limit: nat, steps: seq<Step>, j: nat, n: nat)
    requires limit <= RING_TRBS && Run(limit, steps).Some? && PopsAt(limit, steps, j, n)
    requires n < |PostedBy(steps)| && PostedBy(steps)[n].ty == 33
    requires forall i :: j < i < |steps| ==> steps[i] != TakeCmd
    requires var popped := Run(limit, steps).value.ring.popped;
      forall m :: n < m < |popped| ==> popped[m].ty != TRB_CMD_COMP
    ensures Run(limit, steps).value.cmd == Some(PostedBy(steps)[n])
    decreases |steps|
  {
    hide Run, Inv, Post, Turned, Stash, Take, PostedBy;
    var last := |steps| - 1;
    RunBefore(limit, steps);
    RunGood(limit, steps[..last]);
    RunGood(limit, steps);
    var h, u := Run(limit, steps[..last]).value, Run(limit, steps).value;
    InOrder(h.ring);
    InOrder(u.ring);
    if last == j {
      TurnMeaning(h);
    } else {
      assert steps[..last][..j] == steps[..j];
      StepGrows(h, u, steps[last]);
      assert forall i :: j < i < last ==> steps[..last][i] == steps[i];
      PoppedBefore(limit, steps[..last], j, n);
      assert h.ring.posted[n] == u.ring.posted[n];
      CommandKept(limit, steps[..last], j, n);
      if steps[last].Turn? {
        TurnMeaning(h);
        assert Unread(h.ring) > 0 ==> u.ring.popped[|h.ring.popped|] == h.ring.posted[|h.ring.popped|];
      }
    }
  }

  /** Every event popped was popped at one step of the run. */
  lemma {:induction false} WhenPopped(limit: nat, steps: seq<Step>, n: nat) returns (j: nat)
    requires limit <= RING_TRBS && Run(limit, steps).Some? && n < |Run(limit, steps).value.ring.popped|
    ensures PopsAt(limit, steps, j, n)
    decreases |steps|
  {
    hide Inv, Post, Given, Take;
    var last := |steps| - 1;
    RunBefore(limit, steps);
    RunGood(limit, steps[..last]);
    var h := Run(limit, steps[..last]).value;
    if n < |h.ring.popped| {
      j := WhenPopped(limit, steps[..last], n);
      assert steps[..last][..j] == steps[..j];
    } else {
      if steps[last].Posted? {
        PostMeaning(h.ring, steps[last].e);
      } else if steps[last].Turn? {
        TurnMeaning(h);
      }
      j := last;
    }
  }

  lemma TurnPostsNothing(steps: seq<Step>)
    ensures PostedBy(steps + [Turn]) == PostedBy(steps)
  {
    assert (steps + [Turn])[..|steps|] == steps;
  }

  /** As many turns as there are unread events pop them all. */
  lemma {:induction false} PumpedOut(limit: nat, steps: seq<Step>, turns: nat)
    requires limit <= RING_TRBS && Run(limit, steps).Some? && turns == Unread(Run(limit, steps).value.ring)
    ensures var all := steps + seq(turns, _ => Turn);
      Run(limit, all).Some? && Run(limit, all).value.ring.popped == PostedBy(steps)
    decreases turns
  {
    hide Inv, Post, Given, Take, PostedBy;
    RunGood(limit, steps);
    var h := Run(limit, steps).value;
    InOrder(h.ring);
    var all := steps + seq(turns, _ => Turn);
    if turns == 0 {
      assert all == steps;
    } else {
      TurnMeaning(h);
      var next := steps + [Turn];
      assert next[..|steps|] == steps;
      TurnPostsNothing(steps);
      PumpedOut(limit, next, turns - 1);
      assert next + seq(turns - 1, _ => Turn) == all;
    }
  }
}
