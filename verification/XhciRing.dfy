/**
 The command and transfer rings of kernel/src/bus/xhci/host.rs as a protocol between the driver,
 which stores TRBs dword by dword, and a controller that follows sections 4.9.2, 4.9.3 and 6.4.4.1
 of the xHCI specification: it owns the TRB at its dequeue pointer when that TRB's cycle bit equals
 its consumer cycle state, and follows a Link TRB, toggling that state when the TC bit is set.
 */
module XhciRing {
  import opened Bytes
  import opened Rings

  const RING_TRBS: nat := 256
  /** Slots that carry TRBs; the last one of the ring is the Link TRB. */
  const SLOTS: int := 255
  const TRB_LINK: nat := 6
  const TC: nat := 2

  /** The four dwords of a TRB; the last one is the control word. */
  datatype Trb = Trb(d0: nat, d1: nat, d2: nat, ctrl: nat)

  function Cycle(ctrl: nat): nat { ctrl % 2 }
  function Type(ctrl: nat): nat { ctrl / 1024 % 64 }
  predicate Toggles(ctrl: nat) { ctrl / 2 % 2 == 1 }

  /** `(ctrl & !CYCLE) | pcs` */
  function WithCycle(ctrl: nat, pcs: nat): nat
    requires pcs < 2
  {
    ctrl - ctrl % 2 + pcs
  }

  /** `trb(pcs, TRB_LINK, TC)` */
  function LinkCtrl(pcs: nat): nat
    requires pcs < 2
  {
    pcs + TC + TRB_LINK * 1024
  }

  /** What a caller asks to have enqueued. */
  datatype Request = Request(param: nat, status: nat, ctrl: nat)

  /** The TRB holds what was asked for: the parameter in the first two dwords, low one first, and every bit of
      the control word but the cycle bit. */
  predicate Meets(t: Trb, q: Request) {
    t.d0 < 0x1_0000_0000 && t.d0 + t.d1 * 0x1_0000_0000 == q.param && t.d2 == q.status && t.ctrl / 2 == q.ctrl / 2
  }

  // ---------- What the driver stores, in order ----------

  datatype Store = Store(slot: nat, dw: nat, val: nat)

  /** `put_trb`: the control word goes last. */
  function TrbStores(slot: nat, t: Trb): (s: seq<Store>)
    ensures |s| == 4
  {
    [Store(slot, 0, t.d0), Store(slot, 1, t.d1), Store(slot, 2, t.d2), Store(slot, 3, t.ctrl)]
  }

  function LinkTrb(phys: nat, pcs: nat): Trb
    requires pcs < 2
  {
    Trb(phys % U32_LIMIT, phys / U32_LIMIT, 0, LinkCtrl(pcs))
  }

  /** All stores of one enqueue at index `i`, `bump` included. */
  function EnqueueStores(phys: nat, i: nat, pcs: nat, t: Trb): (s: seq<Store>)
    requires pcs < 2
    ensures |s| == if i + 2 >= RING_TRBS then 8 else 4
  {
    TrbStores(i, t) + if i + 2 >= RING_TRBS then TrbStores(RING_TRBS - 1, LinkTrb(phys, pcs)) else []
  }

  function SetDword(t: Trb, dw: nat, val: nat): Trb {
    if dw == 0 then t.(d0 := val) else if dw == 1 then t.(d1 := val)
    else if dw == 2 then t.(d2 := val) else t.(ctrl := val)
  }

  function Apply(mem: seq<Trb>, st: Store): (m: seq<Trb>)
    requires st.slot < |mem|
    ensures |m| == |mem|
  {
    mem[st.slot := SetDword(mem[st.slot], st.dw, st.val)]
  }

  // ---------- The two parties ----------

  /** The driver's side: ring memory, `i` and `pcs`, the TRBs whose enqueue has begun and the stores
      it still owes for the last one. `laps` counts, for the proof, how often it has wrapped. */
  datatype Driver = Driver(
    phys: nat, mem: seq<Trb>, i: nat, pcs: nat, pending: seq<Store>, enq: seq<Trb>, laps: nat)

  /** The controller's side: dequeue index, consumer cycle state, the dwords fetched so far of the TRB
      there (control word first) and the TRBs consumed. `follows` counts links followed; a link that leads
      out of the ring leaves it `lost`. */
  datatype Controller = Controller(dq: nat, ccs: nat, latch: seq<nat>, got: seq<Trb>, follows: nat, lost: bool)

  datatype State = State(drv: Driver, hc: Controller)

  datatype Step =
    | Begin(param: nat, status: nat, ctrl: nat)
    | DriverStore
    | Fetch
    | Take

  /** `ring_init`: zeroed memory and a Link TRB with cycle bit 0; the controller starts with cycle state 1. */
  function Init(phys: nat): State {
    var zero := Trb(0, 0, 0, 0);
    State(Driver(phys, seq(RING_TRBS - 1, _ => zero) + [LinkTrb(phys, 0)], 0, 1, [], [], 0),
          Controller(0, 1, [], [], 0, false))
  }

  function Dword(t: Trb, n: nat): nat {
    if n == 0 then t.ctrl else if n == 1 then t.d0 else if n == 2 then t.d1 else t.d2
  }

  /** Sizes only; nothing about the protocol. */
  predicate Shaped(s: State) {
    && |s.drv.mem| == RING_TRBS && s.drv.i + 1 < RING_TRBS && s.drv.pcs < 2
    && (forall k :: 0 <= k < |s.drv.pending| ==> s.drv.pending[k].slot < RING_TRBS)
    && s.hc.dq < RING_TRBS && s.hc.ccs < 2 && |s.hc.latch| <= 4
  }

  /** What each party can do next. The driver never enqueues a Link TRB itself. */
  predicate Enabled(s: State, step: Step)
    requires Shaped(s)
  {
    match step
    case Begin(param, status, ctrl) => s.drv.pending == [] && Type(ctrl) != TRB_LINK
    case DriverStore => s.drv.pending != []
    case Fetch => !s.hc.lost && |s.hc.latch| < 4 && (s.hc.latch == [] ==> Cycle(s.drv.mem[s.hc.dq].ctrl) == s.hc.ccs)
    case Take => !s.hc.lost && |s.hc.latch| == 4
  }

  /** The ring index a Link TRB's pointer leads to, if it is the address of a TRB of the ring. */
  function LinkTarget(phys: nat, ptr: nat): Option<nat> {
    if phys <= ptr < phys + 16 * RING_TRBS && (ptr - phys) % 16 == 0 then Some((ptr - phys) / 16) else None
  }

  function BeginEnqueue(d: Driver, t: Trb): Driver
    requires d.pcs < 2
  {
    var wraps := d.i + 2 >= RING_TRBS;
    d.(enq := d.enq + [t], pending := EnqueueStores(d.phys, d.i, d.pcs, t),
       i := if wraps then 0 else d.i + 1, pcs := if wraps then 1 - d.pcs else d.pcs,
       laps := if wraps then d.laps + 1 else d.laps)
  }

  /** Consume a fetched TRB, or follow it when it is a link. */
  function TakeLatched(c: Controller, phys: nat): Controller
    requires |c.latch| == 4 && c.ccs < 2
  {
    if Type(c.latch[0]) == TRB_LINK then
      match LinkTarget(phys, c.latch[1] + c.latch[2] * U32_LIMIT)
      case None => c.(latch := [], lost := true)
      case Some(at) =>
        c.(latch := [], dq := at, ccs := if Toggles(c.latch[0]) then 1 - c.ccs else c.ccs, follows := c.follows + 1)
    else
      c.(latch := [], dq := (c.dq + 1) % RING_TRBS,
         got := c.got + [Trb(c.latch[1], c.latch[2], c.latch[3], c.latch[0])])
  }

  function Next(s: State, step: Step): State
    requires Shaped(s) && Enabled(s, step)
  {
    match step
    case Begin(param, status, ctrl) =>
      s.(drv := BeginEnqueue(s.drv, Trb(param % U32_LIMIT, param / U32_LIMIT, status, WithCycle(ctrl, s.drv.pcs))))
    case DriverStore =>
      s.(drv := s.drv.(mem := Apply(s.drv.mem, s.drv.pending[0]), pending := s.drv.pending[1..]))
    case Fetch =>
      s.(hc := s.hc.(latch := s.hc.latch + [Dword(s.drv.mem[s.hc.dq], |s.hc.latch|)]))
    case Take =>
      s.(hc := TakeLatched(s.hc, s.drv.phys))
  }

  function Outstanding(s: State): int {
    |s.drv.enq| - |s.hc.got|
  }

  /** The state after an interleaving of steps, if every one was possible and no enqueue began with
      `limit` or more TRBs outstanding. */
  function Exec(limit: nat, phys: nat, steps: seq<Step>): (r: Option<State>)
    ensures r.Some? ==> Shaped(r.value)
    decreases |steps|
  {
    if steps == [] then Some(Init(phys)) else
      var step := steps[|steps| - 1];
      match Exec(limit, phys, steps[..|steps| - 1])
      case None => None
      case Some(s) =>
        if Enabled(s, step) && (step.Begin? ==> Outstanding(s) < limit) then
          ShapeKept(s, step);
          Some(Next(s, step))
        else None
  }

  lemma ShapeKept(s: State, step: Step)
    requires Shaped(s) && Enabled(s, step)
    ensures Shaped(Next(s, step))
  {
  }

  // ---------- The invariant ----------

  /** Slot and lap of the TRB enqueued last. */
  function LastSlot(d: Driver): int { if d.i == 0 then SLOTS - 1 else d.i - 1 }
  function LastLap(d: Driver): int { if d.i == 0 then d.laps - 1 else d.laps }

  /** Stores of the Link TRB that the current enqueue ends with. */
  function LinkStores(d: Driver): nat { if d.i == 0 then 4 else 0 }

  /** Whether the last TRB's control word is still to be stored. */
  predicate InFlight(d: Driver) { |d.pending| > LinkStores(d) }

  function Visible(d: Driver): int { if InFlight(d) then |d.enq| - 1 else |d.enq| }

  /** The lap during which slot `j` was last filled, or is being filled; -1 if never. */
  function SlotLap(d: Driver, j: int): int { if j < d.i then d.laps else d.laps - 1 }

  /** How many times the Link TRB has been handed over. */
  function LinksWritten(d: Driver): int { if d.pending != [] && d.i == 0 then d.laps - 1 else d.laps }

  ghost predicate DriverInv(d: Driver) {
    && |d.enq| == d.laps * SLOTS + d.i && d.i < SLOTS && d.pcs == Cyc(d.laps)
    && (forall k :: 0 <= k < |d.enq| ==> Type(d.enq[k].ctrl) != TRB_LINK)
    && (d.enq != [] ==> Cycle(d.enq[|d.enq| - 1].ctrl) == Cyc(LastLap(d)))
    && (d.pending != [] ==> d.enq != [] && Owed(d))
  }

  /** The stores owed are the tail of those of the last enqueue. */
  ghost predicate Owed(d: Driver)
    requires d.enq != []
  {
    var all := EnqueueStores(d.phys, if d.i == 0 then 254 else d.i - 1, Cyc(LastLap(d)), d.enq[|d.enq| - 1]);
    |d.pending| <= |all| && d.pending == all[|all| - |d.pending|..]
  }

  /** Slot `j` holds, complete, the TRB of its lap. */
  ghost predicate SlotHolds(d: Driver, j: int)
    requires 0 <= j < |d.mem|
  {
    var o := SlotLap(d, j) * SLOTS + j;
    Cycle(d.mem[j].ctrl) == Cyc(SlotLap(d, j)) && (o >= 0 ==> o < |d.enq| && d.mem[j] == d.enq[o])
  }

  /** A slot in the middle of `put_trb`, with `owed` stores to go: the control word is still the old one. */
  predicate HalfWritten(m: Trb, t: Trb, owed: int, oldCycle: nat) {
    && Cycle(m.ctrl) == oldCycle
    && 1 <= owed <= 4
    && (owed <= 3 ==> m.d0 == t.d0) && (owed <= 2 ==> m.d1 == t.d1) && (owed <= 1 ==> m.d2 == t.d2)
  }

  ghost predicate MemInv(d: Driver) {
    && |d.mem| == RING_TRBS
    && d.i < SLOTS
    && (forall j :: 0 <= j < SLOTS && !(InFlight(d) && j == LastSlot(d)) ==> SlotHolds(d, j))
    && (InFlight(d) ==>
          && d.enq != []
          && HalfWritten(d.mem[LastSlot(d)], d.enq[|d.enq| - 1], |d.pending| - LinkStores(d), Cyc(LastLap(d) - 1)))
    && d.mem[SLOTS] == LinkTrb(d.phys, Cyc(LinksWritten(d) - 1))
  }

  /** The dwords fetched so far are those of `t`. */
  ghost predicate Fetched(latch: seq<nat>, t: Trb) {
    |latch| <= 4 && forall k :: 0 <= k < |latch| ==> latch[k] == Dword(t, k)
  }

  ghost predicate ControllerInv(d: Driver, c: Controller) {
    && !c.lost && |c.got| == c.follows * SLOTS + c.dq && c.dq <= SLOTS && c.ccs == Cyc(c.follows)
    && |c.got| <= Visible(d) && c.got == d.enq[..|c.got|]
    && (c.latch != [] ==>
          if c.dq == SLOTS then Fetched(c.latch, LinkTrb(d.phys, c.ccs))
          else |c.got| < Visible(d) && Fetched(c.latch, d.enq[|c.got|]))
  }

  ghost predicate Inv(s: State) {
    && Shaped(s)
    && 0 <= Outstanding(s) <= SLOTS
    && DriverInv(s.drv) && MemInv(s.drv) && ControllerInv(s.drv, s.hc)
  }

  lemma InvInit(phys: nat)
    ensures Inv(Init(phys))
  {
  }

  lemma BeginKeepsDriver(d: Driver, t: Trb)
    requires DriverInv(d) && d.pending == [] && Type(t.ctrl) != TRB_LINK && Cycle(t.ctrl) == d.pcs
    ensures var u := BeginEnqueue(d, t);
      DriverInv(u) && InFlight(u) && LastSlot(u) == d.i && LastLap(u) == d.laps && Visible(u) == |d.enq|
  {
    hide EnqueueStores, Type, Cycle, Owed;
    var u := BeginEnqueue(d, t);
    BeginOwes(d, t);
    assert forall k :: 0 <= k < |d.enq| ==> u.enq[k] == d.enq[k];
  }

  lemma BeginOwes(d: Driver, t: Trb)
    requires d.i < SLOTS && d.pcs == Cyc(d.laps)
    ensures Owed(BeginEnqueue(d, t))
  {
    hide EnqueueStores;
    var u := BeginEnqueue(d, t);
    assert u.pending == u.pending[0..];
  }

  lemma BeginKeepsMem(d: Driver, t: Trb)
    requires DriverInv(d) && MemInv(d) && d.pending == []
    requires var u := BeginEnqueue(d, t); InFlight(u) && LastSlot(u) == d.i && LastLap(u) == d.laps
    ensures MemInv(BeginEnqueue(d, t))
  {
    hide EnqueueStores, Owed;
    var u := BeginEnqueue(d, t);
    forall j | 0 <= j < SLOTS && j != d.i
      ensures SlotHolds(u, j)
    {
      assert SlotHolds(d, j);
    }
    assert SlotHolds(d, d.i);
  }

  /** Setting the cycle bit keeps the rest of the control word. */
  lemma CycleBit(ctrl: nat, pcs: nat)
    requires pcs < 2
    ensures Cycle(WithCycle(ctrl, pcs)) == pcs && Type(WithCycle(ctrl, pcs)) == Type(ctrl)
    ensures WithCycle(ctrl, pcs) / 2 == ctrl / 2
  {
    LastBit(ctrl);
    LastBit(WithCycle(ctrl, pcs));
    assert WithCycle(ctrl, pcs) == 2 * (ctrl / 2) + pcs;
    assert WithCycle(ctrl, pcs) / 2 == ctrl / 2;
  }

  lemma LastBit(ctrl: nat)
    ensures ctrl == 2 * (ctrl / 2) + ctrl % 2 && ctrl / 1024 == ctrl / 2 / 512
  {
  }

  lemma InvBegin(s: State, step: Step)
    requires Inv(s) && step.Begin? && Enabled(s, step) && Outstanding(s) < SLOTS
    ensures Inv(Next(s, step))
  {
    hide MemInv, Owed, EnqueueStores;
    var u := Next(s, step);
    ShapeKept(s, step);
    var t := u.drv.enq[|s.drv.enq|];
    CycleBit(step.ctrl, s.drv.pcs);
    BeginKeepsDriver(s.drv, t);
    BeginKeepsMem(s.drv, t);
    assert u.drv.enq[..|s.hc.got|] == s.drv.enq[..|s.hc.got|];
  }

  /** The `n`th store of an enqueue. */
  lemma StoreAt(d: Driver)
    requires DriverInv(d) && d.pending != []
    ensures var t, owed := d.enq[|d.enq| - 1], |d.pending| - LinkStores(d);
      d.pending[0] ==
        if owed == 4 then Store(LastSlot(d), 0, t.d0) else if owed == 3 then Store(LastSlot(d), 1, t.d1)
        else if owed == 2 then Store(LastSlot(d), 2, t.d2) else if owed == 1 then Store(LastSlot(d), 3, t.ctrl)
        else var l := LinkTrb(d.phys, Cyc(LastLap(d)));
          if owed == 0 then Store(255, 0, l.d0) else if owed == -1 then Store(255, 1, l.d1)
          else if owed == -2 then Store(255, 2, l.d2) else Store(255, 3, l.ctrl)
    ensures -4 < |d.pending| - LinkStores(d) <= 4
  {
  }

  function AfterStore(d: Driver): Driver
    requires d.pending != [] && d.pending[0].slot < |d.mem|
  {
    d.(mem := Apply(d.mem, d.pending[0]), pending := d.pending[1..])
  }

  lemma StoreKeepsDriver(d: Driver)
    requires DriverInv(d) && d.pending != [] && d.pending[0].slot < |d.mem|
    ensures DriverInv(AfterStore(d))
  {
    hide EnqueueStores;
    var u := AfterStore(d);
    if u.pending != [] {
      assert Owed(u);
    }
  }

  /** A store into the slot being filled: three dwords, then the control word hands it over. */
  lemma SlotStoreKeepsMem(d: Driver)
    requires DriverInv(d) && MemInv(d) && InFlight(d) && d.pending[0].slot < |d.mem|
    ensures MemInv(AfterStore(d))
  {
    hide EnqueueStores, Owed;
    StoreAt(d);
    var u, l := AfterStore(d), LastSlot(d);
    forall j | 0 <= j < SLOTS && j != l
      ensures SlotHolds(u, j)
    {
      assert SlotHolds(d, j);
    }
    if !InFlight(u) {
      assert u.mem[l] == d.enq[|d.enq| - 1];
      assert SlotLap(u, l) * SLOTS + l == |d.enq| - 1;
    }
  }

  lemma LinkStoreKeepsMem(d: Driver)
    requires DriverInv(d) && MemInv(d) && d.pending != [] && !InFlight(d) && d.pending[0].slot < |d.mem|
    ensures MemInv(AfterStore(d))
  {
    hide EnqueueStores, Owed;
    StoreAt(d);
    var u := AfterStore(d);
    forall j | 0 <= j < SLOTS
      ensures SlotHolds(u, j)
    {
      assert SlotHolds(d, j);
    }
  }

  lemma InvStore(s: State)
    requires Inv(s) && Enabled(s, DriverStore)
    ensures Inv(Next(s, DriverStore))
  {
    hide EnqueueStores, Owed, Apply;
    ShapeKept(s, DriverStore);
    var u := Next(s, DriverStore);
    assert u.drv == AfterStore(s.drv);
    StoreKeepsDriver(s.drv);
    hide MemInv;
    if InFlight(s.drv) {
      SlotStoreKeepsMem(s.drv);
    } else {
      LinkStoreKeepsMem(s.drv);
    }
    assert Visible(s.drv) <= Visible(u.drv);
  }

  /** A TRB the controller may fetch is complete, and is the next one. */
  lemma SlotFetch(d: Driver, c: Controller)
    requires DriverInv(d) && MemInv(d) && ControllerInv(d, c) && |d.enq| - |c.got| <= SLOTS && c.dq < SLOTS
    requires c.latch != [] || Cycle(d.mem[c.dq].ctrl) == c.ccs
    ensures |c.got| < Visible(d) && d.mem[c.dq] == d.enq[|c.got|]
  {
    hide EnqueueStores, Owed, Fetched, Type, Cycle, Cyc, LinkTrb;
    if InFlight(d) && c.dq == LastSlot(d) {
      if c.latch == [] {
        SameLap(LastLap(d) - 1, c.follows);
      }
    } else {
      assert SlotHolds(d, c.dq);
      if c.latch == [] {
        SameLap(SlotLap(d, c.dq), c.follows);
      }
    }
  }

  /** At the Link TRB, every fetch reads that of the lap the controller is in. */
  lemma LinkFetch(d: Driver, c: Controller)
    requires MemInv(d) && ControllerInv(d, c) && c.dq == SLOTS && |c.latch| < 4
    requires c.latch == [] ==> Cycle(d.mem[SLOTS].ctrl) == c.ccs
    ensures Dword(d.mem[SLOTS], |c.latch|) == Dword(LinkTrb(d.phys, c.ccs), |c.latch|)
  {
    hide SlotHolds, HalfWritten, Fetched, LinksWritten;
  }

  lemma InvFetch(s: State)
    requires Inv(s) && Enabled(s, Fetch)
    ensures Inv(Next(s, Fetch))
  {
    hide MemInv, DriverInv, Type, LinkTrb, Cyc;
    var d, c, u := s.drv, s.hc, Next(s, Fetch);
    if c.dq == SLOTS {
      LinkFetch(d, c);
    } else {
      SlotFetch(d, c);
    }
  }

  /** A Link TRB read back holds the ring's address, leads to slot 0 and toggles the cycle state; its control
      word is type 6 in bits 10 to 15, TC in bit 1 and the cycle bit. */
  lemma LinkMeaning(phys: nat, pcs: nat)
    requires pcs < 2
    ensures var l := LinkTrb(phys, pcs);
      && Type(l.ctrl) == TRB_LINK && Toggles(l.ctrl) && LinkTarget(phys, l.d0 + l.d1 * U32_LIMIT) == Some(0)
      && l.d0 < 0x1_0000_0000 && l.d0 + l.d1 * 0x1_0000_0000 == phys && l.d2 == 0 && l.ctrl == 6 * 0x400 + 2 + pcs
  {
    var l := LinkTrb(phys, pcs);
    assert l.d0 + l.d1 * U32_LIMIT == phys;
  }

  lemma InvTake(s: State)
    requires Inv(s) && Enabled(s, Take)
    ensures Inv(Next(s, Take))
    ensures Next(s, Take).hc ==
      if s.hc.dq == SLOTS then Controller(0, 1 - s.hc.ccs, [], s.hc.got, s.hc.follows + 1, false)
      else Controller(s.hc.dq + 1, s.hc.ccs, [], s.hc.got + [s.drv.enq[|s.hc.got|]], s.hc.follows, false)
  {
    hide MemInv, Type, LinkTrb, LinkTarget, Toggles, Owed;
    var d, c, u := s.drv, s.hc, Next(s, Take);
    ShapeKept(s, Take);
    assert forall k :: 0 <= k < 4 ==> c.latch[k] == Dword(if c.dq == SLOTS then LinkTrb(d.phys, c.ccs) else d.enq[|c.got|], k);
    if c.dq == SLOTS {
      LinkMeaning(d.phys, c.ccs);
    } else {
      assert u.hc.got == d.enq[..|c.got| + 1];
    }
  }

  /** While no more than 255 TRBs are outstanding, every step keeps the invariant. */
  lemma InvNext(s: State, step: Step)
    requires Inv(s) && Enabled(s, step) && (step.Begin? ==> Outstanding(s) < SLOTS)
    ensures Inv(Next(s, step))
  {
    hide Inv, Enabled, Next;
    match step
    case Begin(_, _, _) => InvBegin(s, step);
    case DriverStore => InvStore(s);
    case Fetch => InvFetch(s);
    case Take => InvTake(s);
  }

  // ---------- The driver's side as it runs ----------

  function ApplyAll(mem: seq<Trb>, stores: seq<Store>): (m: seq<Trb>)
    requires forall k :: 0 <= k < |stores| ==> stores[k].slot < |mem|
    ensures |m| == |mem|
    decreases |stores|
  {
    if stores == [] then mem else ApplyAll(Apply(mem, stores[0]), stores[1..])
  }

  lemma {:induction false} ApplyAllAppend(mem: seq<Trb>, a: seq<Store>, b: seq<Store>)
    requires forall k :: 0 <= k < |a| ==> a[k].slot < |mem|
    requires forall k :: 0 <= k < |b| ==> b[k].slot < |mem|
    ensures forall k :: 0 <= k < |a + b| ==> (a + b)[k].slot < |mem|
    ensures ApplyAll(mem, a + b) == ApplyAll(ApplyAll(mem, a), b)
    decreases |a|
  {
    if a == [] {
      assert a + b == b;
    } else {
      assert (a + b)[1..] == a[1..] + b;
      ApplyAllAppend(Apply(mem, a[0]), a[1..], b);
    }
  }

  /** The driver once it has made all stores it owes. */
  function Settled(d: Driver): Driver
    requires forall k :: 0 <= k < |d.pending| ==> d.pending[k].slot < |d.mem|
  {
    d.(mem := ApplyAll(d.mem, d.pending), pending := [])
  }

  class Ring {
    const phys: u64
    const mem: array<Trb>
    var i: nat
    var pcs: nat
    /** Every dword stored since `ring_init`, in order. */
    ghost var log: seq<Store>
    ghost var enq: seq<Trb>
    ghost var laps: nat

    ghost predicate Valid() reads this {
      mem.Length == RING_TRBS && i + 1 < RING_TRBS && pcs < 2
    }

    /** This ring as the driver's side of a protocol state. */
    ghost function Side(): Driver reads this, mem {
      Driver(phys, mem[..], i, pcs, [], enq, laps)
    }

    /** The last slot holds a Link TRB with the ring's own address, type 6, TC and this cycle bit. */
    ghost predicate LinksBack(cycle: nat)
      reads this, mem
    {
      && mem.Length == 256
      && mem[255].d0 < 0x1_0000_0000 && mem[255].d1 < 0x1_0000_0000 && mem[255].d0 + mem[255].d1 * 0x1_0000_0000 == phys
      && mem[255].d2 == 0 && mem[255].ctrl == 6 * 0x400 + 2 + cycle
    }

    /** `ring_init` */
    constructor (phys: u64)
      ensures Valid() && fresh(mem) && Side() == Init(phys).drv && log == []
      ensures LinksBack(0)
    {
      this.phys := phys;
      mem := new Trb[RING_TRBS](_ => Trb(0, 0, 0, 0));
      i, pcs := 0, 1;
      log, enq, laps := [], [], 0;
      new;
      mem[RING_TRBS - 1] := LinkTrb(phys, 0);
      LinkMeaning(phys, 0);
      assert mem[..] == Init(phys).drv.mem;
    }

    method WriteDword(slot: nat, dw: nat, val: nat)
      requires mem.Length == RING_TRBS && slot < RING_TRBS
      modifies this`log, mem
      ensures log == old(log) + [Store(slot, dw, val)] && mem[..] == Apply(old(mem[..]), Store(slot, dw, val))
    {
      mem[slot] := SetDword(mem[slot], dw, val);
      log := log + [Store(slot, dw, val)];
    }

    method PutTrb(slot: nat, param: u64, st: nat, ctrl: nat)
      requires mem.Length == RING_TRBS && slot < RING_TRBS
      modifies this`log, mem
      ensures var stores := TrbStores(slot, Trb(param % U32_LIMIT, param / U32_LIMIT, st, ctrl));
        log == old(log) + stores && mem[..] == ApplyAll(old(mem[..]), stores)
      ensures mem[slot].d0 < 0x1_0000_0000 && mem[slot].d1 < 0x1_0000_0000
      ensures mem[slot].d0 + mem[slot].d1 * 0x1_0000_0000 == param && mem[slot].d2 == st && mem[slot].ctrl == ctrl
      ensures forall j :: 0 <= j < RING_TRBS && j != slot ==> mem[j] == old(mem[j])
    {
      WriteDword(slot, 0, param % U32_LIMIT);
      WriteDword(slot, 1, param / U32_LIMIT);
      WriteDword(slot, 2, st);
      WriteDword(slot, 3, ctrl);
      FourStores(old(mem[..]), slot, Trb(param % U32_LIMIT, param / U32_LIMIT, st, ctrl));
    }

    method Bump()
      requires Valid()
      modifies this`i, this`pcs, this`log, this`laps, mem
      ensures Valid() && i == if old(i) + 2 >= RING_TRBS then 0 else old(i) + 1
      ensures pcs == if old(i) + 2 >= RING_TRBS then 1 - old(pcs) else old(pcs)
      ensures laps == if old(i) + 2 >= RING_TRBS then old(laps) + 1 else old(laps)
      ensures var stores := if old(i) + 2 >= RING_TRBS then TrbStores(RING_TRBS - 1, LinkTrb(phys, old(pcs))) else [];
        log == old(log) + stores && mem[..] == ApplyAll(old(mem[..]), stores)
      ensures if old(i) == 254 then LinksBack(old(pcs)) else mem[255] == old(mem[255])
      ensures forall j :: 0 <= j < 255 ==> mem[j] == old(mem[j])
    {
      hide ApplyAll;
      i := i + 1;
      if i + 1 >= RING_TRBS {
        PutTrb(RING_TRBS - 1, phys, 0, LinkCtrl(pcs));
        i, pcs, laps := 0, 1 - pcs, laps + 1;
      } else {
        NoStores(mem[..]);
      }
    }

    /** `enqueue_ep`, and `enqueue_cmd` on the command ring: the stores and the new state are those of
        the protocol step `Begin` followed by every store it owes. */
    method Enqueue(param: u64, st: nat, ctrl: nat)
      requires Valid()
      modifies this, mem
      ensures Valid()
      ensures var t := Trb(param % U32_LIMIT, param / U32_LIMIT, st, WithCycle(ctrl, old(pcs)));
        log == old(log) + EnqueueStores(phys, old(i), old(pcs), t) && Side() == Settled(BeginEnqueue(old(Side()), t))
      ensures Meets(mem[old(i)], Request(param, st, ctrl)) && mem[old(i)].ctrl % 2 == old(pcs)
      ensures if old(i) == 254 then LinksBack(old(pcs)) else mem[255] == old(mem[255])
    {
      hide ApplyAll, TrbStores;
      ghost var t := Trb(param % U32_LIMIT, param / U32_LIMIT, st, WithCycle(ctrl, pcs));
      ghost var stores := EnqueueStores(phys, i, pcs, t);
      EnqueueApplies(mem[..], phys, i, pcs, t);
      CycleBit(ctrl, pcs);
      PutTrb(i, param, st, WithCycle(ctrl, pcs));
      Bump();
      enq := enq + [t];
      assert log == old(log) + stores;
    }
  }

  lemma NoStores(mem: seq<Trb>)
    ensures ApplyAll(mem, []) == mem
  {
  }

  lemma FourStores(mem: seq<Trb>, slot: nat, t: Trb)
    requires slot < |mem|
    ensures ApplyAll(mem, TrbStores(slot, t)) ==
      Apply(Apply(Apply(Apply(mem, Store(slot, 0, t.d0)), Store(slot, 1, t.d1)), Store(slot, 2, t.d2)), Store(slot, 3, t.ctrl))
  {
    hide Apply, ApplyAll;
    var a, b, c, d := Store(slot, 0, t.d0), Store(slot, 1, t.d1), Store(slot, 2, t.d2), Store(slot, 3, t.ctrl);
    assert TrbStores(slot, t) == [a, b] + [c, d];
    ApplyAllAppend(mem, [a, b], [c, d]);
    TwoStores(mem, a, b);
    TwoStores(Apply(Apply(mem, a), b), c, d);
  }

  lemma TwoStores(mem: seq<Trb>, a: Store, b: Store)
    requires a.slot < |mem| && b.slot < |mem|
    ensures ApplyAll(mem, [a, b]) == Apply(Apply(mem, a), b)
  {
    hide Apply, ApplyAll;
    assert [a, b] == [a] + [b];
    ApplyAllAppend(mem, [a], [b]);
    OneStore(mem, [a]);
    OneStore(Apply(mem, a), [b]);
  }

  lemma OneStore(mem: seq<Trb>, stores: seq<Store>)
    requires |stores| == 1 && stores[0].slot < |mem|
    ensures ApplyAll(mem, stores) == Apply(mem, stores[0])
  {
    hide Apply;
    NoStores(Apply(mem, stores[0]));
  }

  /** The stores of an enqueue are those of its TRB, then those of the Link TRB if it wraps. */
  lemma EnqueueApplies(mem: seq<Trb>, phys: nat, i: nat, pcs: nat, t: Trb)
    requires |mem| == RING_TRBS && i + 1 < RING_TRBS && pcs < 2
    ensures var link := if i + 2 >= RING_TRBS then TrbStores(RING_TRBS - 1, LinkTrb(phys, pcs)) else [];
      && (forall k :: 0 <= k < |EnqueueStores(phys, i, pcs, t)| ==> EnqueueStores(phys, i, pcs, t)[k].slot < RING_TRBS)
      && ApplyAll(mem, EnqueueStores(phys, i, pcs, t)) == ApplyAll(ApplyAll(mem, TrbStores(i, t)), link)
  {
    hide ApplyAll, LinkTrb;
    ApplyAllAppend(mem, TrbStores(i, t), if i + 2 >= RING_TRBS then TrbStores(RING_TRBS - 1, LinkTrb(phys, pcs)) else []);
  }
}
