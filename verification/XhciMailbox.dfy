/**
 The transfer mailbox of kernel/src/bus/xhci/host.rs: sixteen cells that `pump` fills from the event
 ring and `take_xfer` empties, against a map from (slot, dci) to the latest event.
 */
module XhciMailbox {
  import opened Bytes
  import opened XhciEvents

  const XFER_Q: nat := 16
  const TRB_TRANSFER: nat := 32
  const TRB_CMD_COMP: nat := 33

  datatype Key = Key(slot: nat, dci: nat)

  type Cells = seq<Option<Event>>

  function KeyOf(e: Event): Key { Key(e.slot, e.dci) }

  predicate Has(c: Option<Event>, k: Key) { c.Some? && KeyOf(c.value) == k }

  /** The first cell for `k`, or the number of cells. */
  function FindKey(x: Cells, k: Key): (r: nat)
    ensures r <= |x| && (forall j :: 0 <= j < r ==> !Has(x[j], k)) && (r < |x| ==> Has(x[r], k))
  {
    if x == [] || Has(x[0], k) then 0 else 1 + FindKey(x[1..], k)
  }

  /** The first empty cell, or the number of cells. */
  function FindFree(x: Cells): (r: nat)
    ensures r <= |x| && (forall j :: 0 <= j < r ==> x[j].Some?) && (r < |x| ==> x[r].None?)
  {
    if x == [] || x[0].None? then 0 else 1 + FindFree(x[1..])
  }

  function Stash(x: Cells, e: Event): Cells {
    var k, f := FindKey(x, KeyOf(e)), FindFree(x);
    if k < |x| then x[k := Some(e)] else if f < |x| then x[f := Some(e)] else x
  }

  function Take(x: Cells, k: Key): (Cells, Option<Event>) {
    var j := FindKey(x, k);
    if j < |x| then (x[j := None], x[j]) else (x, None)
  }

  // ---------- The map the cells stand for ----------

  type Box = map<Key, Event>

  function BoxStash(m: Box, e: Event): Box {
    if KeyOf(e) in m || |m| < XFER_Q then m[KeyOf(e) := e] else m
  }

  function BoxTake(m: Box, k: Key): (Box, Option<Event>) {
    if k in m then (m - {k}, Some(m[k])) else (m, None)
  }

  /** No two cells hold one key, and the cells hold exactly the entries of `m`. */
  ghost predicate Holds(x: Cells, m: Box) {
    && (forall i, j :: 0 <= i < j < |x| && x[i].Some? ==> !Has(x[j], KeyOf(x[i].value)))
    && (forall i :: 0 <= i < |x| && x[i].Some? ==> KeyOf(x[i].value) in m && m[KeyOf(x[i].value)] == x[i].value)
    && (forall k :: k in m ==> FindKey(x, k) < |x|)
  }

  function Occupied(x: Cells): nat {
    if x == [] then 0 else Occupied(x[..|x| - 1]) + if x[|x| - 1].Some? then 1 else 0
  }

  lemma {:induction false} BoxSize(x: Cells, m: Box)
    requires Holds(x, m)
    ensures |m| == Occupied(x)
  {
    hide Holds;
    if x == [] {
      EmptyBox(m);
    } else {
      var n := |x| - 1;
      if x[n].Some? {
        LastHeld(x, m);
        BoxSize(x[..n], m - {KeyOf(x[n].value)});
        var k := KeyOf(x[n].value);
        assert m == (m - {k})[k := m[k]];
      } else {
        LastFree(x, m);
        BoxSize(x[..n], m);
      }
    }
  }

  lemma EmptyBox(m: Box)
    requires Holds([], m)
    ensures m == map[]
  {
  }

  lemma LastHeld(x: Cells, m: Box)
    requires Holds(x, m) && x != [] && x[|x| - 1].Some?
    ensures KeyOf(x[|x| - 1].value) in m
    ensures Holds(x[..|x| - 1], m - {KeyOf(x[|x| - 1].value)})
  {
    var n := |x| - 1;
    var y, less := x[..n], m - {KeyOf(x[n].value)};
    forall k | k in less
      ensures FindKey(y, k) < |y|
    {
      assert Has(y[FindKey(x, k)], k);
    }
  }

  lemma LastFree(x: Cells, m: Box)
    requires Holds(x, m) && x != [] && x[|x| - 1].None?
    ensures Holds(x[..|x| - 1], m)
  {
    var y := x[..|x| - 1];
    forall k | k in m
      ensures FindKey(y, k) < |y|
    {
      assert Has(y[FindKey(x, k)], k);
    }
  }

  lemma {:induction false} OccupiedFree(x: Cells)
    ensures Occupied(x) <= |x| && (Occupied(x) < |x| <==> exists i :: 0 <= i < |x| && x[i].None?)
  {
    if x != [] {
      var n := |x| - 1;
      OccupiedFree(x[..n]);
      if Occupied(x[..n]) < n {
        var i :| 0 <= i < n && x[..n][i].None?;
        assert x[i].None?;
      }
      if i :| 0 <= i < |x| && x[i].None? {
        assert i < n ==> x[..n][i].None?;
      }
    }
  }

  /** A cell is free exactly when fewer than sixteen keys are held. */
  lemma FreeMeaning(x: Cells, m: Box)
    requires Holds(x, m)
    ensures FindFree(x) < |x| <==> |m| < |x|
  {
    BoxSize(x, m);
    OccupiedFree(x);
  }

  lemma FoundMeaning(x: Cells, m: Box, k: Key)
    requires Holds(x, m)
    ensures FindKey(x, k) < |x| <==> k in m
    ensures k in m ==> x[FindKey(x, k)] == Some(m[k])
  {
  }

  /** `stash_xfer` on the cells is a bounded insertion into the map. */
  lemma StashRefines(x: Cells, m: Box, e: Event)
    requires Holds(x, m) && |x| == XFER_Q
    ensures Holds(Stash(x, e), BoxStash(m, e)) && |Stash(x, e)| == XFER_Q
  {
    FreeMeaning(x, m);
    FoundMeaning(x, m, KeyOf(e));
    var at := if FindKey(x, KeyOf(e)) < |x| then FindKey(x, KeyOf(e)) else FindFree(x);
    if at < |x| {
      SetCell(x, m, at, e);
    }
  }

  lemma SetCell(x: Cells, m: Box, at: nat, e: Event)
    requires Holds(x, m) && at < |x|
    requires Has(x[at], KeyOf(e)) || (x[at].None? && KeyOf(e) !in m)
    ensures Holds(x[at := Some(e)], m[KeyOf(e) := e])
  {
    hide FindKey;
    var y := x[at := Some(e)];
    assert FindKey(x, KeyOf(e)) <= |x|;
    assert forall j :: 0 <= j < |x| && j != at ==> !Has(x[j], KeyOf(e));
    forall k | k in m[KeyOf(e) := e]
      ensures FindKey(y, k) < |y|
    {
      assert Has(y[if k == KeyOf(e) then at else FindKey(x, k)], k);
    }
  }

  /** `take_xfer` on the cells is a removal from the map. */
  lemma TakeRefines(x: Cells, m: Box, k: Key)
    requires Holds(x, m) && |x| == XFER_Q
    ensures Holds(Take(x, k).0, BoxTake(m, k).0) && |Take(x, k).0| == XFER_Q
    ensures Take(x, k).1 == BoxTake(m, k).1
  {
    FoundMeaning(x, m, k);
    if k in m {
      var at := FindKey(x, k);
      var y, n := x[at := None], m - {k};
      forall j | j in n
        ensures FindKey(y, j) < |y|
      {
        assert Has(y[FindKey(x, j)], j);
      }
    }
  }

  // ---------- Runs ----------

  datatype Op = StashOp(e: Event) | TakeOp(k: Key)

  function OpKey(op: Op): Key { if op.StashOp? then KeyOf(op.e) else op.k }

  /** The cells after a run from the empty mailbox. */
  function CellsAfter(ops: seq<Op>): Cells
    decreases |ops|
  {
    if ops == [] then seq(XFER_Q, _ => None) else
      var x := CellsAfter(ops[..|ops| - 1]);
      match ops[|ops| - 1]
      case StashOp(e) => Stash(x, e)
      case TakeOp(k) => Take(x, k).0
  }

  function BoxAfter(ops: seq<Op>): Box
    decreases |ops|
  {
    if ops == [] then map[] else
      var m := BoxAfter(ops[..|ops| - 1]);
      match ops[|ops| - 1]
      case StashOp(e) => BoxStash(m, e)
      case TakeOp(k) => BoxTake(m, k).0
  }

  /** After every run the cells hold one entry per key, and what `take_xfer` returns is what the map holds. */
  lemma {:induction false} RunRefines(ops: seq<Op>, k: Key)
    ensures Holds(CellsAfter(ops), BoxAfter(ops)) && |CellsAfter(ops)| == 16
    ensures Take(CellsAfter(ops), k).1 == BoxTake(BoxAfter(ops), k).1
    decreases |ops|
  {
    hide Holds, Stash, Take, BoxStash, BoxTake;
    if ops == [] {
      EmptyHolds();
    } else {
      var n := |ops| - 1;
      RunRefines(ops[..n], k);
      var x, m := CellsAfter(ops[..n]), BoxAfter(ops[..n]);
      match ops[n]
      case StashOp(e) => StashRefines(x, m, e);
      case TakeOp(j) => TakeRefines(x, m, j);
    }
    TakeRefines(CellsAfter(ops), BoxAfter(ops), k);
  }

  lemma EmptyHolds()
    ensures Holds(seq(XFER_Q, _ => None), map[])
  {
  }

  /** The cells have a place for `e`: its own key's, or a free one. */
  predicate Accepts(x: Cells, e: Event) {
    (exists j :: 0 <= j < |x| && Has(x[j], KeyOf(e))) || (exists j :: 0 <= j < |x| && x[j].None?)
  }

  lemma AcceptMeaning(x: Cells, m: Box, e: Event)
    requires Holds(x, m) && |x| == XFER_Q
    ensures Accepts(x, e) <==> KeyOf(e) in m || |m| < XFER_Q
  {
    FreeMeaning(x, m);
    FoundMeaning(x, m, KeyOf(e));
  }

  /** The fate of the event stashed at `n`: until its key is stashed to or taken from again, the mailbox
      yields it, unless when it came all sixteen cells held other keys. */
  lemma {:induction false} Fate(ops: seq<Op>, n: nat, t: nat)
    requires n < t <= |ops| && ops[n].StashOp?
    requires forall j :: n < j < t ==> OpKey(ops[j]) != OpKey(ops[n])
    ensures Take(CellsAfter(ops[..t]), OpKey(ops[n])).1 ==
      if Accepts(CellsAfter(ops[..n]), ops[n].e) then Some(ops[n].e) else None
    decreases t - n
  {
    hide Holds, Stash, Take, Accepts, CellsAfter;
    RunRefines(ops[..t], OpKey(ops[n]));
    var last := t - 1;
    assert ops[..t][..|ops[..t]| - 1] == ops[..last];
    if last == n {
      RunRefines(ops[..n], OpKey(ops[n]));
      AcceptMeaning(CellsAfter(ops[..n]), BoxAfter(ops[..n]), ops[n].e);
    } else {
      Fate(ops, n, last);
      RunRefines(ops[..last], OpKey(ops[n]));
    }
  }

  // ---------- The host as it runs ----------

  /** What `pump` does with one event: the newest command completion is kept, transfers are stashed, all
      others dropped. */
  function Handled(cmd: Option<Event>, x: Cells, e: Event): (Option<Event>, Cells) {
    if e.ty == TRB_CMD_COMP then (Some(e), x) else if e.ty == TRB_TRANSFER then (cmd, Stash(x, e)) else (cmd, x)
  }

  /** Several events, oldest first. */
  function Dispatch(cmd: Option<Event>, x: Cells, evs: seq<Event>): (Option<Event>, Cells)
    decreases |evs|
  {
    if evs == [] then (cmd, x) else
      var (c, y) := Dispatch(cmd, x, evs[..|evs| - 1]);
      Handled(c, y, evs[|evs| - 1])
  }

  class Host {
    const evt: EventRing
    var cmdEv: Option<Event>
    const xfer: array<Option<Event>>

    constructor ()
      ensures fresh(evt) && fresh(evt.mem) && fresh(xfer)
      ensures evt.View() == XhciEvents.Init() && cmdEv == None && xfer[..] == seq(XFER_Q, _ => None)
    {
      evt := new EventRing();
      cmdEv := None;
      xfer := new Option<Event>[XFER_Q](_ => None);
      new;
      assert xfer[..] == seq(XFER_Q, _ => None);
    }

    method StashXfer(e: Event)
      modifies xfer
      ensures xfer[..] == Stash(old(xfer[..]), e)
    {
      var j := 0;
      while j < xfer.Length
        invariant 0 <= j <= xfer.Length
        invariant xfer[..] == old(xfer[..])
        invariant forall i :: 0 <= i < j ==> !Has(xfer[i], KeyOf(e))
      {
        if Has(xfer[j], KeyOf(e)) {
          xfer[j] := Some(e);
          return;
        }
        j := j + 1;
      }
      assert FindKey(xfer[..], KeyOf(e)) == xfer.Length;
      j := 0;
      while j < xfer.Length
        invariant 0 <= j <= xfer.Length
        invariant xfer[..] == old(xfer[..])
        invariant forall i :: 0 <= i < j ==> xfer[i].Some?
      {
        if xfer[j].None? {
          xfer[j] := Some(e);
          return;
        }
        j := j + 1;
      }
    }

    method TakeXfer(slot: nat, dci: nat) returns (r: Option<Event>)
      modifies xfer
      ensures (xfer[..], r) == Take(old(xfer[..]), Key(slot, dci))
    {
      var j := 0;
      while j < xfer.Length
        invariant 0 <= j <= xfer.Length
        invariant xfer[..] == old(xfer[..])
        invariant forall i :: 0 <= i < j ==> !Has(xfer[i], Key(slot, dci))
      {
        if Has(xfer[j], Key(slot, dci)) {
          r := xfer[j];
          xfer[j] := None;
          return;
        }
        j := j + 1;
      }
      r := None;
    }

    method Handle(e: Event)
      modifies this`cmdEv, xfer
      ensures (cmdEv, xfer[..]) == Handled(old(cmdEv), old(xfer[..]), e)
    {
      if e.ty == TRB_CMD_COMP {
        cmdEv := Some(e);
      } else if e.ty == TRB_TRANSFER {
        StashXfer(e);
      }
    }

    /** One turn of the loop of `pump`. */
    method PumpTurn() returns (ev: Option<Event>)
      requires Inv(evt.View())
      modifies this`cmdEv, evt, xfer
      ensures (evt.View(), ev) == Popped(old(evt.View()))
      ensures (cmdEv, xfer[..]) == if ev.None? then old((cmdEv, xfer[..])) else Handled(old(cmdEv), old(xfer[..]), ev.value)
    {
      hide Producer, Popped, Handled;
      ev := evt.PopEvt();
      if ev.Some? {
        Handle(ev.value);
      }
    }

    /** `pump`, while the controller goes on posting: before pop `k` it posts the events of `arrivals[k]`, as
        far as the ring has room. Every event is handled, oldest first, and none is left unread. */
    method Pump(arrivals: seq<seq<Event>>)
      requires Inv(evt.View())
      modifies this`cmdEv, evt, evt.mem, xfer
      ensures Inv(evt.View()) && old(evt.posted) <= evt.posted && evt.popped == evt.posted
      ensures (cmdEv, xfer[..]) == Dispatch(old(cmdEv), old(xfer[..]), evt.posted[|old(evt.popped)|..])
    {
      hide Inv, Dispatch, Popped, Handled;
      ghost var done: seq<Event> := [];
      StartDispatch(cmdEv, xfer[..]);
      InOrder(evt.View());
      var k := 0;
      while true
        invariant 0 <= k <= |arrivals| && Inv(evt.View()) && old(evt.posted) <= evt.posted
        invariant |old(evt.popped)| + |done| == |evt.popped| <= |evt.posted|
        invariant done == evt.posted[|old(evt.popped)|..|evt.popped|]
        invariant (cmdEv, xfer[..]) == Dispatch(old(cmdEv), old(xfer[..]), done)
        decreases |arrivals| - k, |evt.posted| - |evt.popped|
      {
        if k < |arrivals| {
          evt.Arrive(arrivals[k]);
          k := k + 1;
        }
        PopMeaning(evt.View());
        var ev := PumpTurn();
        InOrder(evt.View());
        if ev.None? {
          break;
        }
        DispatchMore(old(cmdEv), old(xfer[..]), done, ev.value);
        done := done + [ev.value];
      }
    }
  }

  lemma InOrder(s: Events)
    requires Inv(s)
    ensures |s.popped| <= |s.posted| && s.popped == s.posted[..|s.popped|]
  {
    hide Producer;
  }

  lemma DispatchMore(cmd: Option<Event>, x: Cells, evs: seq<Event>, e: Event)
    ensures var (c, y) := Dispatch(cmd, x, evs); Dispatch(cmd, x, evs + [e]) == Handled(c, y, e)
  {
    assert (evs + [e])[..|evs|] == evs;
  }

  lemma StartDispatch(cmd: Option<Event>, x: Cells)
    ensures Dispatch(cmd, x, []) == (cmd, x)
  {
  }
}
