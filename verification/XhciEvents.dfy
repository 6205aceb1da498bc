/**
 The event ring of kernel/src/bus/xhci/host.rs: a controller that posts with its producer cycle state
 (section 4.9.4 of the xHCI specification) and `pop_evt`. Posting and popping are atomic steps.
 */
module XhciEvents {
  import opened Bytes
  import opened Rings

  const RING_TRBS: int := 256

  /** What `pop_evt` returns. */
  datatype Evt = Evt(ty: nat, code: nat, slot: nat, dci: nat, remain: nat)

  predicate Fits(e: Evt) {
    e.ty < 64 && e.code < 256 && e.slot < 256 && e.dci < 32 && e.remain < 0x100_0000
  }

  type Event = e: Evt | Fits(e) witness Evt(0, 0, 0, 0, 0)

  /** Dwords 2 and 3 of an event TRB. */
  datatype Cell = Cell(dw2: nat, dw3: nat)

  function Cycle(c: Cell): nat { c.dw3 % 2 }

  /** The layout of sections 6.4.2.1 and 6.4.2.2, which the controller writes. */
  function Encode(e: Event, cycle: nat): Cell {
    Cell(e.remain + e.code * 0x100_0000, cycle + e.ty * 0x400 + e.dci * 0x1_0000 + e.slot * 0x100_0000)
  }

  /** The shifts and masks of `pop_evt`. */
  function Decode(c: Cell): Event {
    Evt(c.dw3 / 0x400 % 0x40, c.dw2 / 0x100_0000 % 0x100, c.dw3 / 0x100_0000 % 0x100,
        c.dw3 / 0x1_0000 % 0x20, c.dw2 % 0x100_0000)
  }

  lemma DecodeEncode(e: Event, cycle: nat)
    requires cycle < 2
    ensures Decode(Encode(e, cycle)) == e && Cycle(Encode(e, cycle)) == cycle
  {
    Dword2(e);
    Dword3(e, cycle);
  }

  lemma Dword2(e: Event)
    ensures var d := e.remain + e.code * 0x100_0000; d / 0x100_0000 == e.code && d % 0x100_0000 == e.remain
  {
  }

  lemma Dword3(e: Event, cycle: nat)
    requires cycle < 2
    ensures var d := cycle + e.ty * 0x400 + e.dci * 0x1_0000 + e.slot * 0x100_0000;
      d % 2 == cycle && d / 0x400 % 0x40 == e.ty && d / 0x1_0000 % 0x20 == e.dci && d / 0x100_0000 == e.slot
  {
    var d := cycle + e.ty * 0x400 + e.dci * 0x1_0000 + e.slot * 0x100_0000;
    TypeBits(cycle, e.ty, e.dci + e.slot * 0x100);
    DciBits(cycle + e.ty * 0x400, e.dci, e.slot);
    SlotBits(cycle + e.ty * 0x400 + e.dci * 0x1_0000, e.slot);
    assert d % 2 == (cycle + 2 * (e.ty * 0x200 + e.dci * 0x8000 + e.slot * 0x80_0000)) % 2;
  }

  lemma SlotBits(low: nat, slot: nat)
    requires low < 0x100_0000
    ensures (low + slot * 0x100_0000) / 0x100_0000 == slot
  {
  }

  lemma TypeBits(low: nat, ty: nat, high: nat)
    requires low < 0x400 && ty < 0x40
    ensures (low + ty * 0x400 + high * 0x1_0000) / 0x400 % 0x40 == ty
  {
    var q := ty + high * 0x40;
    assert low + ty * 0x400 + high * 0x1_0000 == low + q * 0x400;
    assert (low + q * 0x400) / 0x400 == q;
    assert q % 0x40 == ty;
  }

  lemma DciBits(low: nat, dci: nat, slot: nat)
    requires low < 0x1_0000 && dci < 0x20
    ensures (low + dci * 0x1_0000 + slot * 0x100_0000) / 0x1_0000 % 0x20 == dci
  {
    var q := dci + slot * 0x100;
    assert low + dci * 0x1_0000 + slot * 0x100_0000 == low + q * 0x1_0000;
    Quotient(low, q);
    assert q == dci + 0x20 * (slot * 8);
    Remainder(dci, slot * 8);
  }

  lemma Quotient(low: nat, q: nat)
    requires low < 0x1_0000
    ensures (low + q * 0x1_0000) / 0x1_0000 == q
  {
  }

  lemma Remainder(low: nat, q: nat)
    requires low < 0x20
    ensures (low + 0x20 * q) % 0x20 == low
  {
  }

  /** The fields of an event by the bytes of dwords 2 and 3, lowest first. */
  lemma DecodeBytes(a: byte, b: byte, c: byte, code: byte, d: byte, e: byte, f: byte, slot: byte)
    ensures var cell := Cell(a + 0x100 * b + 0x1_0000 * c + 0x100_0000 * code, d + 0x100 * e + 0x1_0000 * f + 0x100_0000 * slot);
      && Cycle(cell) == d % 2
      && Decode(cell) == Evt(e / 4 % 64, code, slot, f % 32, a + 0x100 * b + 0x1_0000 * c)
  {
    SlotBits(a + 0x100 * b + 0x1_0000 * c, code);
    Dword3Bytes(d, e, f, slot);
  }

  lemma Dword3Bytes(d: byte, e: byte, f: byte, slot: byte)
    ensures var dw3: nat := d + 0x100 * e + 0x1_0000 * f + 0x100_0000 * slot;
      && dw3 % 2 == d % 2 && dw3 / 0x400 % 0x40 == e / 4 && dw3 / 0x1_0000 % 0x20 == f % 0x20 && dw3 / 0x100_0000 == slot
  {
    var dw3: nat := d + 0x100 * e + 0x1_0000 * f + 0x100_0000 * slot;
    SlotBits(d + 0x100 * e + 0x1_0000 * f, slot);
    Quotient(d + 0x100 * e, f + 0x100 * slot);
    assert f + 0x100 * slot == f % 0x20 + 0x20 * (f / 0x20 + 8 * slot);
    Remainder(f % 0x20, f / 0x20 + 8 * slot);
    assert dw3 == d + 0x100 * (e % 4) + e / 4 * 0x400 + (f + 0x100 * slot) * 0x1_0000;
    TypeBits(d + 0x100 * (e % 4), e / 4, f + 0x100 * slot);
    assert dw3 % 2 == d % 2;
  }

  /** The ring memory and both parties' positions. `i`, `ccs` and the register ERDP (as a slot index) are
      the driver's; `pi` and `pcs` are the controller's. `posts`, `pops` count wraps, for the proof. */
  datatype Events = Events(
    mem: seq<Cell>, i: nat, ccs: nat, erdp: nat, pi: nat, pcs: nat,
    posted: seq<Event>, popped: seq<Event>, posts: nat, pops: nat)

  /** `ring_init_evt`, with ERDP at the first slot and both cycle states 1. */
  function Init(): Events {
    Events(seq(RING_TRBS, _ => Cell(0, 0)), 0, 1, 0, 0, 1, [], [], 0, 0)
  }

  predicate Shaped(s: Events) {
    |s.mem| == RING_TRBS && s.i < RING_TRBS && s.pi < RING_TRBS && s.ccs < 2 && s.pcs < 2 && s.erdp < RING_TRBS
  }

  function Unread(s: Events): int { |s.posted| - |s.popped| }

  function Post(s: Events, e: Event): (r: Events)
    requires Shaped(s)
    ensures Shaped(r)
  {
    var wraps := s.pi + 1 == RING_TRBS;
    s.(mem := s.mem[s.pi := Encode(e, s.pcs)], posted := s.posted + [e],
       pi := if wraps then 0 else s.pi + 1, pcs := if wraps then 1 - s.pcs else s.pcs,
       posts := if wraps then s.posts + 1 else s.posts)
  }

  /** `pop_evt` */
  function Popped(s: Events): (r: (Events, Option<Event>))
    requires Shaped(s)
    ensures Shaped(r.0)
  {
    if Cycle(s.mem[s.i]) != s.ccs then (s, None) else
      var wraps := s.i + 1 == RING_TRBS;
      (s.(i := if wraps then 0 else s.i + 1, ccs := if wraps then 1 - s.ccs else s.ccs, erdp := s.i,
          popped := s.popped + [Decode(s.mem[s.i])], pops := if wraps then s.pops + 1 else s.pops),
       Some(Decode(s.mem[s.i])))
  }

  // ---------- The invariant ----------

  /** The lap in which slot `j` was last posted to; -1 if never. */
  function SlotLap(s: Events, j: int): int { if j < s.pi then s.posts else s.posts - 1 }

  ghost predicate SlotHolds(s: Events, j: int)
    requires Shaped(s) && 0 <= j < RING_TRBS
  {
    var o := SlotLap(s, j) * RING_TRBS + j;
    if o < 0 then Cycle(s.mem[j]) == 0
    else o < |s.posted| && s.mem[j] == Encode(s.posted[o], Cyc(SlotLap(s, j)))
  }

  ghost predicate Producer(s: Events)
    requires Shaped(s)
  {
    && |s.posted| == s.posts * RING_TRBS + s.pi && s.pcs == Cyc(s.posts)
    && (forall j :: 0 <= j < RING_TRBS ==> SlotHolds(s, j))
  }

  ghost predicate Consumer(s: Events) {
    && |s.popped| == s.pops * RING_TRBS + s.i && s.ccs == Cyc(s.pops)
    && |s.popped| <= |s.posted| && s.popped == s.posted[..|s.popped|]
    && s.erdp == if s.i > 0 then s.i - 1 else if s.pops == 0 then 0 else RING_TRBS - 1
  }

  ghost predicate Inv(s: Events) {
    Shaped(s) && Producer(s) && Consumer(s) && Unread(s) <= RING_TRBS
  }

  lemma InvInit()
    ensures Inv(Init())
  {
  }

  lemma PostKeeps(s: Events, e: Event)
    requires Shaped(s) && Producer(s)
    ensures Producer(Post(s, e))
  {
    hide Encode;
    var u := Post(s, e);
    forall j | 0 <= j < RING_TRBS
      ensures SlotHolds(u, j)
    {
      assert SlotHolds(s, j);
    }
  }

  lemma InvPost(s: Events, e: Event)
    requires Inv(s) && Unread(s) < RING_TRBS
    ensures Inv(Post(s, e))
  {
    hide Producer, Encode;
    PostKeeps(s, e);
    assert Post(s, e).posted[..|s.popped|] == s.posted[..|s.popped|];
  }

  /** The slot at the driver's index shows the driver's cycle state exactly when it holds an unread event. */
  lemma HeadMeaning(s: Events)
    requires Inv(s)
    ensures Cycle(s.mem[s.i]) == s.ccs <==> Unread(s) > 0
    ensures Unread(s) > 0 ==> Decode(s.mem[s.i]) == s.posted[|s.popped|]
  {
    hide Decode, Encode, Cycle;
    assert SlotHolds(s, s.i);
    var lap := SlotLap(s, s.i);
    if lap >= 0 {
      DecodeEncode(s.posted[lap * RING_TRBS + s.i], Cyc(lap));
    }
  }

  /** `pop_evt` yields the oldest unread event, and nothing exactly when there is none. */
  lemma PopMeaning(s: Events)
    requires Inv(s)
    ensures Popped(s).1 == if Unread(s) == 0 then None else Some(s.posted[|s.popped|])
    ensures Inv(Popped(s).0) && Popped(s).0.posted == s.posted
    ensures |Popped(s).0.popped| == |s.popped| + if Unread(s) == 0 then 0 else 1
  {
    hide Decode, Encode, Cycle;
    HeadMeaning(s);
    var u := Popped(s).0;
    if Unread(s) > 0 {
      assert u.popped == s.posted[..|s.popped| + 1];
      forall j | 0 <= j < RING_TRBS
        ensures SlotHolds(u, j)
      {
        assert SlotHolds(s, j);
      }
    }
  }

  // ---------- Runs ----------

  datatype Step = PostStep(e: Event) | PopStep

  /** The state after the steps, if no event was posted with `limit` or more unread. */
  function Exec(limit: nat, steps: seq<Step>): (r: Option<Events>)
    ensures r.Some? ==> Shaped(r.value)
    decreases |steps|
  {
    if steps == [] then Some(Init()) else
      match Exec(limit, steps[..|steps| - 1])
      case None => None
      case Some(s) =>
        match steps[|steps| - 1]
        case PostStep(e) => if Unread(s) < limit then Some(Post(s, e)) else None
        case PopStep => Some(Popped(s).0)
  }

  lemma {:induction false} RunInv(limit: nat, steps: seq<Step>)
    requires limit <= RING_TRBS && Exec(limit, steps).Some?
    ensures Inv(Exec(limit, steps).value)
    decreases |steps|
  {
    hide Inv, Post, Popped;
    if steps == [] {
      InvInit();
    } else {
      var n := |steps| - 1;
      RunInv(limit, steps[..n]);
      var s := Exec(limit, steps[..n]).value;
      match steps[n]
      case PostStep(e) => InvPost(s, e);
      case PopStep => PopMeaning(s);
    }
  }

  /** In this state the events popped are the first ones posted, and the next pop yields the next. */
  predicate Faithful(s: Events)
    requires Shaped(s)
  {
    && |s.popped| <= |s.posted| && s.popped == s.posted[..|s.popped|]
    && Popped(s).1 == if Unread(s) == 0 then None else Some(s.posted[|s.popped|])
  }

  /** Events posted one after another, none popped. */
  lemma {:induction false} Flood(limit: nat, e: Event, n: nat) returns (steps: seq<Step>)
    requires n <= RING_TRBS <= limit
    ensures Exec(limit, steps).Some? && Inv(Exec(limit, steps).value)
    ensures var s := Exec(limit, steps).value; s.popped == [] && |s.posted| == n
    decreases n
  {
    hide Inv;
    if n == 0 {
      steps := [];
      InvInit();
    } else {
      var before := Flood(limit, e, n - 1);
      InvPost(Exec(limit, before).value, e);
      steps := before + [PostStep(e)];
      assert steps[..n - 1 + |before| - (n - 1)] == before;
    }
  }

  /** One event more than the ring holds, and the head slot shows the wrong cycle bit. */
  lemma Overrun(limit: nat) returns (steps: seq<Step>)
    requires limit > RING_TRBS
    ensures Exec(limit, steps).Some? && !Faithful(Exec(limit, steps).value)
  {
    hide SlotHolds, Decode;
    var e := Evt(32, 1, 1, 1, 0);
    var full := Flood(limit, e, RING_TRBS);
    var s := Exec(limit, full).value;
    steps := full + [PostStep(e)];
    assert steps[..|steps| - 1] == full;
    assert s.pi == 0 && s.posts == 1;
    DecodeEncode(e, 0);
    assert Exec(limit, steps).value.mem[0] == Encode(e, 0);
  }

  /** Events come out in order, once each, exactly when at most 256 may be unread. */
  lemma FaithfulIff(limit: nat)
    ensures (forall steps: seq<Step> :: Exec(limit, steps).Some? ==> Faithful(Exec(limit, steps).value)) <==> limit <= 256
  {
    hide Exec, Inv, Popped;
    if limit <= RING_TRBS {
      forall steps: seq<Step> | Exec(limit, steps).Some?
        ensures Faithful(Exec(limit, steps).value)
      {
        RunInv(limit, steps);
        InvFaithful(Exec(limit, steps).value);
      }
    } else {
      var steps := Overrun(limit);
    }
  }

  lemma InvFaithful(s: Events)
    requires Inv(s)
    ensures Faithful(s)
  {
    PopMeaning(s);
  }

  // ---------- The dequeue pointer register keeps the bound ----------

  /** A controller keeps the slot before ERDP free. */
  predicate Room(s: Events) {
    (s.pi + 1) % RING_TRBS != s.erdp
  }

  /** Every post of the run found room. */
  predicate Respects(steps: seq<Step>)
    decreases |steps|
  {
    steps == [] ||
    var before := steps[..|steps| - 1];
    Respects(before) && (steps[|steps| - 1].PopStep? ||
      match Exec(RING_TRBS - 1, before) case None => true case Some(s) => Room(s))
  }

  /** At most 255 unread, and one less once ERDP lags a slot behind. */
  predicate Tight(s: Events) {
    Unread(s) <= RING_TRBS - if s.popped == [] then 1 else 2
  }

  /** With ERDP written as `pop_evt` writes it, at the slot just popped, a controller that watches it
      never has more than 255 events unread. */
  lemma {:induction false} RegisterBounds(steps: seq<Step>)
    requires Respects(steps)
    ensures Exec(RING_TRBS - 1, steps).Some? && Tight(Exec(RING_TRBS - 1, steps).value)
    decreases |steps|
  {
    hide Post, Popped, Inv, Tight, Room;
    if steps == [] {
      EmptyTight();
    } else {
      var n := |steps| - 1;
      RegisterBounds(steps[..n]);
      RunInv(RING_TRBS - 1, steps[..n]);
      var s := Exec(RING_TRBS - 1, steps[..n]).value;
      match steps[n]
      case PostStep(e) => RoomBound(s, e);
      case PopStep => PopTight(s);
    }
  }

  lemma EmptyTight()
    ensures Tight(Init())
  {
  }

  lemma RoomBound(s: Events, e: Event)
    requires Inv(s) && Room(s) && Tight(s)
    ensures Unread(s) < RING_TRBS - 1 && Tight(Post(s, e))
  {
    hide Producer, Encode, Cyc;
    PositionOf(s);
    RoomPositions(s.posts, s.pi, s.pops, s.i, s.erdp);
  }

  /** The same of the two positions and ERDP. */
  lemma RoomPositions(posts: nat, pi: nat, pops: nat, i: nat, erdp: nat)
    requires pi < RING_TRBS && i < RING_TRBS
    requires erdp == if i > 0 then i - 1 else if pops == 0 then 0 else RING_TRBS - 1
    requires (pi + 1) % RING_TRBS != erdp
    requires var unread := posts * RING_TRBS + pi - (pops * RING_TRBS + i);
      0 <= unread <= RING_TRBS - if pops == 0 && i == 0 then 1 else 2
    ensures var unread := posts * RING_TRBS + pi - (pops * RING_TRBS + i);
      unread < RING_TRBS - if pops == 0 && i == 0 then 1 else 2
  {
    assert (pi + 1) % RING_TRBS == if pi == RING_TRBS - 1 then 0 else pi + 1;
  }

  lemma PositionOf(s: Events)
    requires Inv(s)
    ensures |s.posted| == s.posts * RING_TRBS + s.pi
  {
    hide SlotHolds;
  }

  lemma PopTight(s: Events)
    requires Inv(s) && Tight(s)
    ensures Tight(Popped(s).0)
  {
    hide SlotHolds, Decode, Cycle;
  }

  // ---------- The driver's side as it runs ----------

  class EventRing {
    const mem: array<Cell>
    var i: nat
    var ccs: nat
    var erdp: nat
    /** The controller's position and cycle state, and what has gone through the ring. */
    var pi: nat
    var pcs: nat
    var posted: seq<Event>
    var popped: seq<Event>
    ghost var posts: nat
    ghost var pops: nat

    ghost function View(): Events reads this, mem {
      Events(mem[..], i, ccs, erdp, pi, pcs, posted, popped, posts, pops)
    }

    constructor ()
      ensures fresh(mem) && View() == Init()
    {
      mem := new Cell[RING_TRBS](_ => Cell(0, 0));
      i, ccs, erdp := 0, 1, 0;
      pi, pcs, posted, popped, posts, pops := 0, 1, [], [], 0, 0;
      new;
      assert mem[..] == Init().mem;
    }

    /** The controller's side: it posts events while the ring has room, and no others. */
    method Arrive(evs: seq<Event>)
      requires Inv(View())
      modifies this, mem
      ensures Inv(View()) && popped == old(popped) && old(posted) <= posted
      ensures var n := |posted| - |old(posted)|;
        n <= |evs| && posted == old(posted) + evs[..n] && (n < |evs| ==> Unread(View()) == RING_TRBS)
    {
      hide Producer, Encode;
      for k := 0 to |evs|
        invariant Inv(View()) && popped == old(popped) && posted == old(posted) + evs[..k]
      {
        if |posted| - |popped| >= RING_TRBS {
          return;
        }
        InvPost(View(), evs[k]);
        ghost var next := Post(View(), evs[k]);
        mem[pi] := Encode(evs[k], pcs);
        posted := posted + [evs[k]];
        pi := pi + 1;
        if pi == RING_TRBS {
          pi, pcs, posts := 0, 1 - pcs, posts + 1;
        }
        assert View() == next;
      }
    }

    method PopEvt() returns (r: Option<Event>)
      requires Shaped(View())
      modifies this
      ensures View() == Popped(old(View())).0 && r == Popped(old(View())).1
      ensures if r.Some? then erdp == old(i) && i == (if old(i) == 255 then 0 else old(i) + 1) else erdp == old(erdp) && i == old(i)
    {
      var at := i;
      var dw2, dw3 := mem[at].dw2, mem[at].dw3;
      if dw3 % 2 != ccs {
        return None;
      }
      var e := Decode(Cell(dw2, dw3));
      i := i + 1;
      if i == RING_TRBS {
        i, ccs, pops := 0, 1 - ccs, pops + 1;
      }
      erdp, popped := at, popped + [e];
      r := Some(e);
    }
  }
}
