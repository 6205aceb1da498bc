/**
 The key ring of kernel/src/input/kbd.rs: one producer and one consumer, each a sequence of atomic loads
 and stores, interleaved in any order. As Acquire and Release allow, a party sees its own index exactly
 and may see an older value of the other's, but never one older than it has seen before.
 */
module Kbd {
  import opened Bytes

  const QUEUE_CAP: nat := 64

  /** The statics BYTES, HEAD and TAIL. */
  datatype Shared = Shared(bytes: seq<byte>, head: nat, tail: nat)

  /** Where the producer is in `enqueue`. */
  datatype Producer =
    | Resting
    | HeadLoaded(b: byte, h: nat)
    | MayStore(b: byte, h: nat)
    | ByteStored(b: byte, h: nat)

  /** Where the consumer is in `pop_byte`. */
  datatype Consumer =
    | Waiting
    | TailLoaded(t: nat)
    | MayRead(t: nat)
    | ByteRead(t: nat, b: byte)

  /** `accepted` and `popped` grow when HEAD and TAIL are stored. `seenPopped` is the number of pops the
      producer has seen in TAIL, `seenAccepted` the number of bytes the consumer has seen in HEAD.
      `refused` holds, for each byte turned away, how many bytes that TAIL left in the ring. */
  datatype State = State(
    m: Shared, p: Producer, c: Consumer, accepted: seq<byte>, popped: seq<byte>,
    seenPopped: nat, seenAccepted: nat, refused: seq<int>)

  /** `LoadTail(n)` loads the TAIL of `n` pops ago or later; `LoadHead(n)` the HEAD of `n` bytes. */
  datatype Step =
    | Enqueue(b: byte) | LoadTail(n: nat) | StoreByte | StoreHead
    | Pop | LoadHead(n: nat) | ReadByte | StoreTail

  function Init(): State {
    State(Shared(Zeros(QUEUE_CAP), 0, 0), Resting, Waiting, [], [], 0, 0, [])
  }

  predicate Enabled(s: State, step: Step) {
    match step
    case Enqueue(_) => s.p.Resting?
    case LoadTail(n) => s.p.HeadLoaded? && s.seenPopped <= n <= |s.popped|
    case StoreByte => s.p.MayStore?
    case StoreHead => s.p.ByteStored?
    case Pop => s.c.Waiting?
    case LoadHead(n) => s.c.TailLoaded? && s.seenAccepted <= n <= |s.accepted|
    case ReadByte => s.c.MayRead?
    case StoreTail => s.c.ByteRead?
  }

  predicate Shaped(s: State) {
    && |s.m.bytes| == QUEUE_CAP && s.m.head < QUEUE_CAP && s.m.tail < QUEUE_CAP
    && (!s.p.Resting? ==> s.p.h < QUEUE_CAP) && (!s.c.Waiting? ==> s.c.t < QUEUE_CAP)
  }

  /** Slot of the `n`th byte. */
  function Slot(n: nat): (r: nat)
    ensures r < QUEUE_CAP
  {
    n % QUEUE_CAP
  }

  function Succ(i: nat): nat { (i + 1) % QUEUE_CAP }

  /** Bytes held: accepted and not yet popped. */
  function Held(s: State): int { |s.accepted| - |s.popped| }

  function Next(s: State, step: Step): State
    requires Shaped(s) && Enabled(s, step)
  {
    match step
    case Enqueue(b) => s.(p := HeadLoaded(b, s.m.head))
    case LoadTail(n) =>
      if Succ(s.p.h) == Slot(n) then s.(p := Resting, seenPopped := n, refused := s.refused + [|s.accepted| - n])
      else s.(p := MayStore(s.p.b, s.p.h), seenPopped := n)
    case StoreByte => s.(m := s.m.(bytes := s.m.bytes[s.p.h := s.p.b]), p := ByteStored(s.p.b, s.p.h))
    case StoreHead => s.(m := s.m.(head := Succ(s.p.h)), p := Resting, accepted := s.accepted + [s.p.b])
    case Pop => s.(c := TailLoaded(s.m.tail))
    case LoadHead(n) => s.(c := if s.c.t == Slot(n) then Waiting else MayRead(s.c.t), seenAccepted := n)
    case ReadByte => s.(c := ByteRead(s.c.t, s.m.bytes[s.c.t]))
    case StoreTail => s.(m := s.m.(tail := Succ(s.c.t)), c := Waiting, popped := s.popped + [s.c.b])
  }

  function Exec(steps: seq<Step>): (r: Option<State>)
    ensures r.Some? ==> Shaped(r.value)
    decreases |steps|
  {
    if steps == [] then Some(Init()) else
      match Exec(steps[..|steps| - 1])
      case None => None
      case Some(s) => if Enabled(s, steps[|steps| - 1]) then Some(Next(s, steps[|steps| - 1])) else None
  }

  // ---------- The invariant ----------

  /** HEAD and TAIL count the bytes accepted and popped. */
  ghost predicate Counts(s: State) {
    && s.seenPopped <= |s.popped| <= s.seenAccepted <= |s.accepted| <= s.seenPopped + QUEUE_CAP - 1
    && s.m.head == Slot(|s.accepted|) && s.m.tail == Slot(|s.popped|)
    && s.popped == s.accepted[..|s.popped|]
    && (forall k :: 0 <= k < |s.refused| ==> s.refused[k] == QUEUE_CAP - 1)
  }

  /** The slots held carry the bytes in order. */
  ghost predicate Contents(m: Shared, accepted: seq<byte>, from: nat) {
    |m.bytes| == QUEUE_CAP && forall n :: from <= n < |accepted| ==> m.bytes[Slot(n)] == accepted[n]
  }

  ghost predicate ProducerInv(s: State) {
    && (!s.p.Resting? ==> s.p.h == s.m.head)
    && (s.p.MayStore? || s.p.ByteStored? ==> |s.accepted| < s.seenPopped + QUEUE_CAP - 1)
    && (s.p.ByteStored? ==> |s.m.bytes| == QUEUE_CAP && s.m.bytes[Slot(|s.accepted|)] == s.p.b)
  }

  ghost predicate ConsumerInv(s: State) {
    && (!s.c.Waiting? ==> s.c.t == s.m.tail)
    && (s.c.MayRead? || s.c.ByteRead? ==> |s.popped| < s.seenAccepted)
    && (s.c.ByteRead? && |s.popped| < |s.accepted| ==> s.c.b == s.accepted[|s.popped|])
  }

  ghost predicate Inv(s: State) {
    Shaped(s) && Counts(s) && Contents(s.m, s.accepted, |s.popped|) && ProducerInv(s) && ConsumerInv(s)
  }

  lemma SlotAdd(p: nat, d: nat)
    requires d <= QUEUE_CAP
    ensures Slot(p + d) == if Slot(p) + d < QUEUE_CAP then Slot(p) + d else Slot(p) + d - QUEUE_CAP
  {
    assert p == p / QUEUE_CAP * QUEUE_CAP + Slot(p);
  }

  /** Within a window shorter than the ring, slots tell counts apart. */
  lemma SlotsTell(a: nat, p: nat)
    requires p <= a < p + QUEUE_CAP
    ensures Slot(a) == Slot(p) <==> a == p
    ensures Succ(Slot(a)) == Slot(a + 1)
    ensures Succ(Slot(a)) == Slot(p) <==> a == p + QUEUE_CAP - 1
  {
    hide Slot;
    SlotAdd(p, a - p);
    SlotAdd(p, a + 1 - p);
    SlotAdd(a, 1);
  }

  lemma InvInit()
    ensures Inv(Init())
  {
  }

  lemma InvStoreByte(s: State)
    requires Inv(s) && Enabled(s, StoreByte)
    ensures Inv(Next(s, StoreByte))
  {
    hide Slot;
    forall n: nat | |s.popped| <= n < |s.accepted|
      ensures Slot(n) != Slot(|s.accepted|)
    {
      SlotsTell(|s.accepted|, n);
    }
  }

  lemma InvStoreHead(s: State)
    requires Inv(s) && Enabled(s, StoreHead)
    ensures Inv(Next(s, StoreHead))
  {
    hide Slot, Succ;
    SlotsTell(|s.accepted|, |s.popped|);
    var u := Next(s, StoreHead);
    assert u.popped == u.accepted[..|u.popped|];
    assert s.m.head == Slot(|s.accepted|);
    SuccBound(s.p.h);
  }

  lemma SuccBound(i: nat)
    ensures Succ(i) < QUEUE_CAP
  {
  }

  lemma InvStoreTail(s: State)
    requires Inv(s) && Enabled(s, StoreTail)
    ensures Inv(Next(s, StoreTail))
  {
    hide Slot, Succ;
    SlotsTell(|s.popped|, |s.popped|);
    SuccBound(s.c.t);
    var u := Next(s, StoreTail);
    assert u.popped == u.accepted[..|u.popped|];
  }

  lemma InvLoads(s: State, step: Step)
    requires Inv(s) && Enabled(s, step) && !step.StoreByte? && !step.StoreHead? && !step.StoreTail?
    ensures Inv(Next(s, step))
  {
    hide Slot, Succ, Contents;
    if step.ReadByte? {
      ReadMeaning(s);
    } else if step.LoadTail? {
      SlotsTell(|s.accepted|, step.n);
    } else if step.LoadHead? {
      SlotsTell(step.n, |s.popped|);
    }
  }

  /** The byte read is the oldest one held, stored before. */
  lemma ReadMeaning(s: State)
    requires Inv(s) && s.c.MayRead?
    ensures |s.popped| < |s.accepted| && s.m.bytes[s.c.t] == s.accepted[|s.popped|]
  {
    hide Slot;
  }

  lemma {:induction false} RunInv(steps: seq<Step>)
    requires Exec(steps).Some?
    ensures Inv(Exec(steps).value)
    decreases |steps|
  {
    hide Inv, Enabled, Next;
    if steps == [] {
      InvInit();
    } else {
      var n := |steps| - 1;
      RunInv(steps[..n]);
      var s := Exec(steps[..n]).value;
      match steps[n]
      case StoreByte => InvStoreByte(s);
      case StoreHead => InvStoreHead(s);
      case StoreTail => InvStoreTail(s);
      case _ => InvLoads(s, steps[n]);
    }
  }

  // ---------- What every interleaving keeps ----------

  /** Bytes come out in the order they were accepted, each once; a byte was turned away only when 63 were
      held by the TAIL that the producer loaded. */
  lemma Fifo(steps: seq<Step>)
    requires Exec(steps).Some?
    ensures var s := Exec(steps).value;
      && |s.popped| <= |s.accepted| <= |s.popped| + 63 && s.popped == s.accepted[..|s.popped|]
      && (forall k :: 0 <= k < |s.refused| ==> s.refused[k] == 63)
  {
    RunInv(steps);
  }

  /** The producer turns a byte away exactly when 63 bytes are held by the TAIL it loads, and lets one in
      only when fewer are held in truth. The consumer finds the ring empty exactly when the HEAD it loads
      shows nothing, and reads only when a byte is held in truth. */
  lemma Decisions(steps: seq<Step>, step: Step)
    requires Exec(steps).Some? && Enabled(Exec(steps).value, step)
    ensures var s, u := Exec(steps).value, Next(Exec(steps).value, step);
      && (step.LoadTail? ==> (u.p.Resting? <==> |s.accepted| - step.n == 63))
      && (step.LoadTail? && u.p.MayStore? ==> Held(s) < 63)
      && (step.LoadHead? ==> (u.c.Waiting? <==> step.n == |s.popped|))
      && (step.LoadHead? && u.c.MayRead? ==> Held(s) > 0)
  {
    hide Slot, Succ, Exec;
    RunInv(steps);
    var s := Exec(steps).value;
    if step.LoadTail? {
      SlotsTell(|s.accepted|, step.n);
    } else if step.LoadHead? {
      SlotsTell(step.n, |s.popped|);
    }
  }

  /** A slot about to be read holds a byte stored and accepted before, and is never the one being stored to. */
  lemma NoSharedSlot(steps: seq<Step>)
    requires Exec(steps).Some?
    ensures var s := Exec(steps).value;
      && (s.c.MayRead? ==> |s.popped| < |s.accepted| && s.m.bytes[s.c.t] == s.accepted[|s.popped|])
      && (s.c.MayRead? && (s.p.MayStore? || s.p.ByteStored?) ==> s.c.t != s.p.h)
  {
    hide Slot, Succ, Exec;
    RunInv(steps);
    var s := Exec(steps).value;
    SlotsTell(|s.accepted|, |s.popped|);
  }

  // ---------- One party at a time ----------

  function EnqueueAlone(m: Shared, b: byte): Shared
    requires |m.bytes| == QUEUE_CAP && m.head < QUEUE_CAP
  {
    if Succ(m.head) == m.tail then m else Shared(m.bytes[m.head := b], Succ(m.head), m.tail)
  }

  function PopAlone(m: Shared): (Shared, Option<byte>)
    requires |m.bytes| == QUEUE_CAP && m.tail < QUEUE_CAP
  {
    if m.tail == m.head then (m, None) else (m.(tail := Succ(m.tail)), Some(m.bytes[m.tail]))
  }

  class KeyRing {
    const bytes: array<byte>
    var head: nat
    var tail: nat

    ghost predicate Valid() reads this {
      bytes.Length == QUEUE_CAP && head < QUEUE_CAP && tail < QUEUE_CAP
    }

    ghost function View(): Shared reads this, bytes {
      Shared(bytes[..], head, tail)
    }

    constructor ()
      ensures Valid() && fresh(bytes) && View() == Init().m
    {
      bytes := new byte[QUEUE_CAP](_ => 0);
      head, tail := 0, 0;
      new;
      assert bytes[..] == Zeros(QUEUE_CAP);
    }

    method Enqueue(b: byte)
      requires Valid()
      modifies this`head, bytes
      ensures Valid() && View() == EnqueueAlone(old(View()), b)
    {
      var h := head;
      var next := Succ(h);
      if next == tail {
        return;
      }
      bytes[h] := b;
      head := next;
    }

    method PopByte() returns (r: Option<byte>)
      requires Valid()
      modifies this`tail
      ensures Valid() && (View(), r) == PopAlone(old(View()))
    {
      var t := tail;
      var h := head;
      if t == h {
        return None;
      }
      var b := bytes[t];
      tail := Succ(t);
      r := Some(b);
    }

    method BytesEmpty() returns (e: bool)
      requires Valid()
      ensures e == PopAlone(View()).1.None?
    {
      e := head == tail;
    }
  }

  /** With the latest indices, the four steps of an undisturbed `enqueue` and of an undisturbed `pop_byte`. */
  lemma AloneIsSteps(s: State, b: byte)
    requires Inv(s) && s.p.Resting? && s.c.Waiting?
    ensures var a := Next(Next(s, Enqueue(b)), LoadTail(|s.popped|));
      (if a.p.Resting? then a.m else Next(Next(a, StoreByte), StoreHead).m) == EnqueueAlone(s.m, b)
    ensures var c := Next(Next(s, Pop), LoadHead(|s.accepted|));
      if c.c.Waiting? then PopAlone(s.m) == (c.m, None)
      else var d := Next(c, ReadByte); PopAlone(s.m) == (Next(d, StoreTail).m, Some(d.c.b))
  {
    hide Succ;
  }
}
