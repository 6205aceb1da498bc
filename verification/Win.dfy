/** The window event queue of kernel/src/ui/win.rs: one ring of eight slots shared by all processes. */
module Win {
  import opened Bytes
  import opened Rings

  const IN_CAP: nat := 8
  const EV_SIZE: nat := 16
  const KIND_MOVE: nat := 1

  datatype InputEv = InputEv(kind: nat, x: int, y: int, key: nat)
  datatype Queued = Queued(pid: nat, ev: InputEv)

  /** The events waiting, oldest first. */
  type Queue = seq<Queued>

  // ---------- The operations on the queue's contents ----------

  /** `push_ev`: one slot of the ring stays empty, and an event that finds no room is dropped. */
  function Pushed(q: Queue, e: Queued): Queue {
    if |q| >= IN_CAP - 1 then q else q + [e]
  }

  predicate Coalesces(q: Queue, pid: nat) {
    q != [] && q[|q| - 1].pid == pid && q[|q| - 1].ev.kind == KIND_MOVE
  }

  /** `push_client_move`: a move right after a move of the same process replaces its position. */
  function MovePushed(q: Queue, pid: nat, x: int, y: int): Queue {
    if Coalesces(q, pid) then q[|q| - 1 := Queued(pid, q[|q| - 1].ev.(x := x, y := y))]
    else Pushed(q, Queued(pid, InputEv(KIND_MOVE, x, y, 0)))
  }

  /** `take_for_pid`: what stays queued and what is delivered. */
  function Taken(q: Queue, pid: nat, nfit: nat): (Queue, seq<InputEv>)
    decreases |q|
  {
    if q == [] then ([], []) else
      var (kept, out) := Taken(q[..|q| - 1], pid, nfit);
      var e := q[|q| - 1];
      if e.pid == pid && |out| < nfit then (kept, out + [e.ev]) else (kept + [e], out)
  }

  /** `retain_q(|q| q.pid != pid)` */
  function Retained(q: Queue, pid: nat): Queue
    decreases |q|
  {
    if q == [] then [] else
      var r := Retained(q[..|q| - 1], pid);
      if q[|q| - 1].pid != pid then r + [q[|q| - 1]] else r
  }

  // ---------- Each process's own events ----------

  /** The events of one process, oldest first. */
  function Mine(q: Queue, pid: nat): seq<InputEv>
    decreases |q|
  {
    if q == [] then [] else
      var m := Mine(q[..|q| - 1], pid);
      if q[|q| - 1].pid == pid then m + [q[|q| - 1].ev] else m
  }

  lemma MineAppend(q: Queue, e: Queued, pid: nat)
    ensures Mine(q + [e], pid) == Mine(q, pid) + if e.pid == pid then [e.ev] else []
  {
    assert (q + [e])[..|q|] == q;
  }

  /** `a` is what remains of `b` after leaving out some elements: same order, none new, none twice. */
  predicate Subsequence(a: Queue, b: Queue)
    decreases |b|
  {
    if b == [] then a == []
    else Subsequence(a, b[..|b| - 1]) || (a != [] && a[|a| - 1] == b[|b| - 1] && Subsequence(a[..|a| - 1], b[..|b| - 1]))
  }

  /** The first `min(nfit, k)` of the process's `k` events are delivered in order; everything else stays
      queued in order, for every process. */
  lemma {:induction false} TakenMeaning(q: Queue, pid: nat, nfit: nat, other: nat)
    ensures var (kept, out) := Taken(q, pid, nfit);
      var n := Min(nfit, |Mine(q, pid)|);
      && out == Mine(q, pid)[..n]
      && Mine(kept, other) == (if other == pid then Mine(q, pid)[n..] else Mine(q, other))
      && Subsequence(kept, q) && |kept| + |out| == |q|
    decreases |q|
  {
    if q != [] {
      TakenMeaning(q[..|q| - 1], pid, nfit, other);
      var (kept, out) := Taken(q[..|q| - 1], pid, nfit);
      MineAppend(kept, q[|q| - 1], other);
      assert (kept + [q[|q| - 1]])[..|kept|] == kept;
    }
  }

  lemma {:induction false} RetainedMeaning(q: Queue, pid: nat, other: nat)
    ensures Mine(Retained(q, pid), other) == if other == pid then [] else Mine(q, other)
    ensures |Retained(q, pid)| <= |q| && Subsequence(Retained(q, pid), q)
    decreases |q|
  {
    if q != [] {
      RetainedMeaning(q[..|q| - 1], pid, other);
      var r := Retained(q[..|q| - 1], pid);
      MineAppend(r, q[|q| - 1], other);
      assert (r + [q[|q| - 1]])[..|r|] == r;
    }
  }

  /** Coalescing changes the newest event of that process and no other. */
  lemma CoalescedMeaning(q: Queue, pid: nat, x: int, y: int, other: nat)
    requires Coalesces(q, pid)
    ensures Mine(q, pid) != []
    ensures var m := Mine(q, other);
      Mine(MovePushed(q, pid, x, y), other) == if other == pid then m[|m| - 1 := m[|m| - 1].(x := x, y := y)] else m
  {
    var n := |q| - 1;
    assert q == q[..n] + [q[n]];
    MineAppend(q[..n], q[n], other);
    MineAppend(q[..n], Queued(pid, q[n].ev.(x := x, y := y)), other);
    assert MovePushed(q, pid, x, y) == q[..n] + [Queued(pid, q[n].ev.(x := x, y := y))];
  }

  // ---------- Runs ----------

  datatype Op =
    | Push(pid: nat, ev: InputEv)
    | Move(pid: nat, x: int, y: int)
    | Poll(pid: nat, nfit: nat)
    | DropPid(pid: nat)

  /** `got` tags each delivered event with the process it went to; `due` lists what each process is to
      receive once it has drained the queue. */
  datatype State = State(q: Queue, got: Queue, due: Queue)

  function Tagged(pid: nat, evs: seq<InputEv>): Queue {
    seq(|evs|, i requires 0 <= i < |evs| => Queued(pid, evs[i]))
  }

  function SetLast(q: Queue, pid: nat, x: int, y: int): Queue
    decreases |q|
  {
    if q == [] then [] else
      var n := |q| - 1;
      if q[n].pid == pid then q[n := Queued(pid, q[n].ev.(x := x, y := y))] else SetLast(q[..n], pid, x, y) + [q[n]]
  }

  function Next(s: State, op: Op): State {
    match op
    case Push(pid, ev) =>
      if |s.q| >= IN_CAP - 1 then s
      else State(Pushed(s.q, Queued(pid, ev)), s.got, s.due + [Queued(pid, ev)])
    case Move(pid, x, y) =>
      var e := Queued(pid, InputEv(KIND_MOVE, x, y, 0));
      State(MovePushed(s.q, pid, x, y), s.got,
            if Coalesces(s.q, pid) then SetLast(s.due, pid, x, y) else if |s.q| >= IN_CAP - 1 then s.due else s.due + [e])
    case Poll(pid, nfit) =>
      var (kept, out) := Taken(s.q, pid, nfit);
      State(kept, s.got + Tagged(pid, out), s.due)
    case DropPid(pid) =>
      State(Retained(s.q, pid), s.got, Retained(s.due, pid) + Tagged(pid, Mine(s.got, pid)))
  }

  function Run(ops: seq<Op>): State
    decreases |ops|
  {
    if ops == [] then State([], [], []) else Next(Run(ops[..|ops| - 1]), ops[|ops| - 1])
  }

  lemma {:induction false} MineConcat(a: Queue, b: Queue, pid: nat)
    ensures Mine(a + b, pid) == Mine(a, pid) + Mine(b, pid)
    decreases |b|
  {
    if b == [] {
      assert a + b == a;
    } else {
      var n := |b| - 1;
      assert (a + b)[..|a + b| - 1] == a + b[..n];
      MineConcat(a, b[..n], pid);
    }
  }

  lemma {:induction false} MineTagged(pid: nat, evs: seq<InputEv>, other: nat)
    ensures Mine(Tagged(pid, evs), other) == if other == pid then evs else []
    decreases |evs|
  {
    if evs != [] {
      var n := |evs| - 1;
      assert Tagged(pid, evs)[..n] == Tagged(pid, evs[..n]);
      MineTagged(pid, evs[..n], other);
    }
  }

  lemma {:induction false} SetLastMeaning(q: Queue, pid: nat, x: int, y: int, other: nat)
    requires Mine(q, pid) != []
    ensures var m := Mine(q, other);
      Mine(SetLast(q, pid, x, y), other) == if other == pid then m[|m| - 1 := m[|m| - 1].(x := x, y := y)] else m
    decreases |q|
  {
    var n := |q| - 1;
    if q[n].pid == pid {
      assert SetLast(q, pid, x, y) == q[..n] + [Queued(pid, q[n].ev.(x := x, y := y))];
      MineAppend(q[..n], Queued(pid, q[n].ev.(x := x, y := y)), other);
    } else {
      SetLastMeaning(q[..n], pid, x, y, other);
      MineAppend(SetLast(q[..n], pid, x, y), q[n], other);
    }
  }

  /** For each process, what it got followed by what waits for it is what is due to it. */
  ghost predicate Conserved(s: State, pid: nat) {
    Mine(s.got, pid) + Mine(s.q, pid) == Mine(s.due, pid)
  }

  lemma NextConserves(s: State, op: Op, pid: nat)
    requires Conserved(s, pid) && |s.q| <= IN_CAP - 1
    ensures Conserved(Next(s, op), pid) && |Next(s, op).q| <= IN_CAP - 1
  {
    hide Mine, Taken, Retained, SetLast, Subsequence;
    match op
    case Push(p, ev) =>
      MineAppend(s.q, Queued(p, ev), pid);
      MineAppend(s.due, Queued(p, ev), pid);
    case Move(p, x, y) =>
      var e := Queued(p, InputEv(KIND_MOVE, x, y, 0));
      if Coalesces(s.q, p) {
        CoalescedMeaning(s.q, p, x, y, pid);
        if p == pid {
          SetLastMeaning(s.due, p, x, y, pid);
        } else {
          SetLastOthers(s.due, p, x, y, pid);
        }
      } else {
        MineAppend(s.q, e, pid);
        MineAppend(s.due, e, pid);
      }
    case Poll(p, nfit) =>
      TakenMeaning(s.q, p, nfit, pid);
      MineConcat(s.got, Tagged(p, Taken(s.q, p, nfit).1), pid);
      MineTagged(p, Taken(s.q, p, nfit).1, pid);
    case DropPid(p) =>
      RetainedMeaning(s.q, p, pid);
      RetainedMeaning(s.due, p, pid);
      MineConcat(Retained(s.due, p), Tagged(p, Mine(s.got, p)), pid);
      MineTagged(p, Mine(s.got, p), pid);
  }

  lemma {:induction false} SetLastOthers(q: Queue, pid: nat, x: int, y: int, other: nat)
    requires other != pid
    ensures Mine(SetLast(q, pid, x, y), other) == Mine(q, other)
    decreases |q|
  {
    if q != [] {
      var n := |q| - 1;
      if q[n].pid == pid {
        assert SetLast(q, pid, x, y) == q[..n] + [Queued(pid, q[n].ev.(x := x, y := y))];
        MineAppend(q[..n], Queued(pid, q[n].ev.(x := x, y := y)), other);
      } else {
        SetLastOthers(q[..n], pid, x, y, other);
        MineAppend(SetLast(q[..n], pid, x, y), q[n], other);
      }
    }
  }

  /** Over every run, each process gets exactly its own accepted events, in order, once each. */
  lemma {:induction false} RunConserves(ops: seq<Op>, pid: nat)
    ensures Conserved(Run(ops), pid) && |Run(ops).q| <= IN_CAP - 1
    decreases |ops|
  {
    hide Conserved, Next;
    if ops == [] {
      assert Conserved(Run(ops), pid) by {
        StartConserved(pid);
      }
    } else {
      RunConserves(ops[..|ops| - 1], pid);
      NextConserves(Run(ops[..|ops| - 1]), ops[|ops| - 1], pid);
    }
  }

  lemma StartConserved(pid: nat)
    ensures Conserved(State([], [], []), pid)
  {
  }

  // ---------- The ring ----------

  function Dist(tail: nat, head: nat): (d: nat)
    requires tail < IN_CAP && head < IN_CAP
    ensures d < IN_CAP
  {
    if head >= tail then head - tail else head + IN_CAP - tail
  }

  /** Where head and tail lie, counted from the tail. */
  lemma Places(tail: nat, head: nat, i: nat)
    requires tail < IN_CAP && head < IN_CAP && i <= IN_CAP
    ensures At(IN_CAP, tail, i) == if tail + i < IN_CAP then tail + i else tail + i - IN_CAP
    ensures At(IN_CAP, tail, Dist(tail, head)) == head
    ensures At(IN_CAP, head, 1) == tail <==> Dist(tail, head) == IN_CAP - 1
    ensures At(IN_CAP, head, 1) != tail ==> Dist(tail, At(IN_CAP, head, 1)) == Dist(tail, head) + 1
    ensures head != tail ==> At(IN_CAP, head, IN_CAP - 1) == At(IN_CAP, tail, Dist(tail, head) - 1)
    ensures i < IN_CAP ==> At(IN_CAP, At(IN_CAP, tail, i), 1) == At(IN_CAP, tail, i + 1)
  {
    hide At;
    AtValue(IN_CAP, tail, i);
    AtValue(IN_CAP, tail, Dist(tail, head));
    AtValue(IN_CAP, head, 1);
    AtValue(IN_CAP, head, IN_CAP - 1);
    AtValue(IN_CAP, At(IN_CAP, tail, i), 1);
    if head != tail {
      AtValue(IN_CAP, tail, Dist(tail, head) - 1);
    }
    if i < IN_CAP {
      AtValue(IN_CAP, tail, i + 1);
    }
  }

  /** `to_le_bytes` of a 32-bit field; negative positions in two's complement. */
  function Le32(v: int): (b: seq<byte>)
    ensures |b| == 4
  {
    ToLe(v % U32_LIMIT, 4)
  }

  /** `ev_bytes` */
  function EvBytes(ev: InputEv): (b: seq<byte>)
    ensures |b| == EV_SIZE
  {
    Le32(ev.kind) + Le32(ev.x) + Le32(ev.y) + Le32(ev.key)
  }

  function Packed(evs: seq<InputEv>): (b: seq<byte>)
    ensures |b| == EV_SIZE * |evs|
    decreases |evs|
  {
    if evs == [] then [] else Packed(evs[..|evs| - 1]) + EvBytes(evs[|evs| - 1])
  }

  /** What a process reads at byte `o` of its buffer. */
  ghost predicate EventAt(b: seq<byte>, o: nat, ev: InputEv)
    requires o + 16 <= |b|
  {
    && FromLe(b[o..o + 4]) == ev.kind % 0x1_0000_0000 && FromLe(b[o + 4..o + 8]) == ev.x % 0x1_0000_0000
    && FromLe(b[o + 8..o + 12]) == ev.y % 0x1_0000_0000 && FromLe(b[o + 12..o + 16]) == ev.key % 0x1_0000_0000
  }

  /** Event `i` of a packed buffer lies at byte `16 * i`: kind, x, y and key, 32 bits each, positions in two's
      complement. */
  lemma {:induction false} PackedReads(evs: seq<InputEv>, i: nat)
    requires i < |evs|
    ensures |Packed(evs)| == 16 * |evs| && EventAt(Packed(evs), 16 * i, evs[i])
    decreases |evs|
  {
    hide EvBytes, EventAt;
    var n := |evs| - 1;
    if i < n {
      PackedReads(evs[..n], i);
      EventAtFront(Packed(evs[..n]), EvBytes(evs[n]), 16 * i, evs[i]);
    } else {
      EventReads(evs[n]);
      EventAtEnd(Packed(evs[..n]), EvBytes(evs[n]), evs[n]);
    }
  }

  lemma EventAtFront(a: seq<byte>, b: seq<byte>, o: nat, ev: InputEv)
    requires o + 16 <= |a| && EventAt(a, o, ev)
    ensures EventAt(a + b, o, ev)
  {
    hide FromLe;
    var s := a + b;
    assert s[o..o + 4] == a[o..o + 4] && s[o + 4..o + 8] == a[o + 4..o + 8];
    assert s[o + 8..o + 12] == a[o + 8..o + 12] && s[o + 12..o + 16] == a[o + 12..o + 16];
  }

  lemma EventAtEnd(a: seq<byte>, b: seq<byte>, ev: InputEv)
    requires |b| == 16 && EventAt(b, 0, ev)
    ensures EventAt(a + b, |a|, ev)
  {
    hide FromLe;
    var s, o := a + b, |a|;
    assert s[o..o + 4] == b[0..4] && s[o + 4..o + 8] == b[4..8];
    assert s[o + 8..o + 12] == b[8..12] && s[o + 12..o + 16] == b[12..16];
  }

  lemma EventReads(ev: InputEv)
    ensures EventAt(EvBytes(ev), 0, ev)
  {
    hide FromLe, ToLe;
    var b := EvBytes(ev);
    assert b[0..4] == Le32(ev.kind) && b[4..8] == Le32(ev.x) && b[8..12] == Le32(ev.y) && b[12..16] == Le32(ev.key);
    Le32RoundTrip(ev.kind % U32_LIMIT);
    Le32RoundTrip(ev.x % U32_LIMIT);
    Le32RoundTrip(ev.y % U32_LIMIT);
    Le32RoundTrip(ev.key % U32_LIMIT);
  }

  lemma TakenStart(q: Queue, pid: nat, nfit: nat)
    ensures Taken(q[..0], pid, nfit) == ([], [])
  {
  }

  lemma TakenStep(q: Queue, pid: nat, nfit: nat, i: nat)
    requires i < |q|
    ensures var (kept, out) := Taken(q[..i], pid, nfit);
      Taken(q[..i + 1], pid, nfit) ==
        if q[i].pid == pid && |out| < nfit then (kept, out + [q[i].ev]) else (kept + [q[i]], out)
  {
    assert q[..i + 1][..i] == q[..i];
  }

  lemma PackedStep(evs: seq<InputEv>, ev: InputEv)
    ensures Packed(evs + [ev]) == Packed(evs) + EvBytes(ev)
  {
    hide EvBytes;
    assert (evs + [ev])[..|evs|] == evs;
  }

  method WriteEvent(out: array<byte>, o: nat, ev: InputEv)
    requires o + EV_SIZE <= out.Length
    modifies out
    ensures out[..o + EV_SIZE] == old(out[..o]) + EvBytes(ev)
  {
    hide Le32;
    CopyInto(out, o, Le32(ev.kind));
    CopyInto(out, o + 4, Le32(ev.x));
    CopyInto(out, o + 8, Le32(ev.y));
    CopyInto(out, o + 12, Le32(ev.key));
  }

  class WinQueue {
    const q: array<Queued>
    var qhead: nat
    var qtail: nat

    ghost predicate Valid() reads this {
      q.Length == IN_CAP && qhead < IN_CAP && qtail < IN_CAP
    }

    /** The events waiting, oldest first. */
    ghost function Contents(): Queue
      requires Valid()
      reads this, q
    {
      Window(q[..], qtail, Dist(qtail, qhead))
    }

    constructor ()
      ensures Valid() && fresh(q) && Contents() == []
    {
      q := new Queued[IN_CAP](_ => Queued(0, InputEv(0, 0, 0, 0)));
      qhead, qtail := 0, 0;
    }

    method PushEv(pid: nat, ev: InputEv)
      requires Valid()
      modifies this`qhead, q
      ensures Valid() && Contents() == Pushed(old(Contents()), Queued(pid, ev))
      ensures Contents() == old(Contents()) + if |old(Contents())| < 7 then [Queued(pid, ev)] else []
    {
      hide Window, At;
      Places(qtail, qhead, 0);
      var next := At(IN_CAP, qhead, 1);
      if next == qtail {
        return;
      }
      WindowStore(q[..], qtail, Dist(qtail, qhead), Queued(pid, ev));
      q[qhead] := Queued(pid, ev);
      qhead := next;
    }

    method PushClientMove(pid: nat, x: int, y: int)
      requires Valid()
      modifies this`qhead, q
      ensures Valid() && Contents() == MovePushed(old(Contents()), pid, x, y)
      ensures var c, n := old(Contents()), |old(Contents())|;
        Contents() ==
          if n > 0 && c[n - 1].pid == pid && c[n - 1].ev.kind == 1
          then c[n - 1 := Queued(pid, InputEv(1, x, y, c[n - 1].ev.key))]
          else c + if n < 7 then [Queued(pid, InputEv(1, x, y, 0))] else []
    {
      hide Window, At;
      var last := At(IN_CAP, qhead, IN_CAP - 1);
      Places(qtail, qhead, 0);
      if qhead != qtail && q[last].pid == pid && q[last].ev.kind == KIND_MOVE {
        var e := Queued(q[last].pid, q[last].ev.(x := x, y := y));
        WindowSet(q[..], qtail, Dist(qtail, qhead), Dist(qtail, qhead) - 1, e);
        q[last] := e;
        return;
      }
      PushEv(pid, InputEv(KIND_MOVE, x, y, 0));
    }

    /** `self.q[..kn].copy_from_slice(&keep[..kn])` and the two indices. */
    method Reload(keep: array<Queued>, kn: nat)
      requires Valid() && keep.Length == IN_CAP && kn < IN_CAP && keep != q
      modifies this, q
      ensures Valid() && Contents() == keep[..kn]
    {
      hide Window, At;
      forall i | 0 <= i < kn {
        q[i] := keep[i];
      }
      qtail, qhead := 0, kn;
      WindowFlat(q[..], kn);
    }

    /** The scan's place after `i` events. */
    ghost predicate Scanning(t: nat, i: nat)
      requires Valid()
      reads this, q
    {
      i <= |Contents()| && t == At(IN_CAP, qtail, i) && (t == qhead <==> i == |Contents()|)
    }

    lemma ScanStart()
      requires Valid()
      ensures Scanning(qtail, 0)
    {
      hide At, Window;
      Places(qtail, qhead, 0);
    }

    lemma ScanNext(t: nat, i: nat)
      requires Valid() && Scanning(t, i) && t != qhead
      ensures i < |Contents()| && q[t] == Contents()[i] && Scanning(At(IN_CAP, t, 1), i + 1)
    {
      hide At;
      Places(qtail, qhead, i);
      Places(qtail, qhead, i + 1);
    }

    /** Delivered events end up packed at the start of `out`; the answer is their number of bytes. */
    method TakeForPid(pid: nat, out: array<byte>, nfit: nat) returns (n: nat)
      requires Valid() && nfit * EV_SIZE <= out.Length
      modifies this, q, out
      ensures Valid()
      ensures var (kept, evs) := Taken(old(Contents()), pid, nfit);
        Contents() == kept && n == 16 * |evs| && n <= out.Length && out[..n] == Packed(evs)
    {
      hide Window, At, Dist, Packed, Taken, EvBytes, Scanning, Contents;
      ghost var c := Contents();
      var keep := new Queued[IN_CAP](_ => Queued(0, InputEv(0, 0, 0, 0)));
      var kn: nat, copied: nat, t: nat := 0, 0, qtail;
      ghost var i: nat, kept: Queue, evs: seq<InputEv> := 0, [], [];
      TakenStart(c, pid, nfit);
      ScanStart();
      SortedStart(keep, out, nfit);
      while t != qhead
        invariant Valid() && Contents() == c && Scanning(t, i) && t < IN_CAP
        invariant i <= |c| && (kept, evs) == Taken(c[..i], pid, nfit)
        invariant kn <= i && Sorted(keep, kn, kept, out, copied, evs, nfit) && fresh(keep)
        decreases |c| - i
      {
        hide Sorted;
        ScanNext(t, i);
        TakenStep(c, pid, nfit, i);
        ContentsBound();
        kn, copied, kept, evs := Sort(q[t], pid, keep, kn, kept, out, copied, evs, nfit);
        t := At(IN_CAP, t, 1);
        i := i + 1;
      }
      ScanEnd(t, i);
      ContentsBound();
      assert c[..i] == c;
      Reload(keep, kn);
      n := copied * EV_SIZE;
    }

    lemma ScanEnd(t: nat, i: nat)
      requires Valid() && Scanning(t, i) && t == qhead
      ensures i == |Contents()|
    {
    }

    lemma ContentsBound()
      requires Valid()
      ensures |Contents()| < IN_CAP
    {
    }

    /** `retain_q` with the predicate of `drop_pid`. */
    method RetainOthers(pid: nat)
      requires Valid()
      modifies this, q
      ensures Valid() && Contents() == Retained(old(Contents()), pid)
    {
      hide Window, At, Dist, Retained, Scanning, Contents;
      ghost var c := Contents();
      var keep := new Queued[IN_CAP](_ => Queued(0, InputEv(0, 0, 0, 0)));
      var kn: nat, t: nat := 0, qtail;
      ghost var i: nat := 0;
      RetainedStart(c, pid);
      ScanStart();
      ContentsBound();
      while t != qhead
        invariant Valid() && Contents() == c && Scanning(t, i) && t < IN_CAP
        invariant kn <= i <= |c| < IN_CAP == keep.Length && keep[..kn] == Retained(c[..i], pid) && fresh(keep)
        decreases |c| - i
      {
        ScanNext(t, i);
        RetainedStep(c, pid, i);
        var e := q[t];
        if e.pid != pid {
          keep[kn] := e;
          kn := kn + 1;
        }
        t := At(IN_CAP, t, 1);
        i := i + 1;
      }
      ScanEnd(t, i);
      assert c[..i] == c;
      Reload(keep, kn);
    }
  }

  lemma RetainedStart(q: Queue, pid: nat)
    ensures Retained(q[..0], pid) == []
  {
  }

  lemma RetainedStep(q: Queue, pid: nat, i: nat)
    requires i < |q|
    ensures Retained(q[..i + 1], pid) == Retained(q[..i], pid) + if q[i].pid != pid then [q[i]] else []
  {
    assert q[..i + 1][..i] == q[..i];
  }

  lemma SortedStart(keep: array<Queued>, out: array<byte>, nfit: nat)
    requires keep.Length == IN_CAP && nfit * EV_SIZE <= out.Length
    ensures Sorted(keep, 0, [], out, 0, [], nfit)
  {
  }

  /** What the scan has put aside and what it has packed. */
  ghost predicate Sorted(keep: array<Queued>, kn: nat, kept: Queue, out: array<byte>, copied: nat, evs: seq<InputEv>, nfit: nat)
    reads keep, out
  {
    && keep.Length == IN_CAP && kn <= IN_CAP && keep[..kn] == kept
    && copied == |evs| <= nfit && nfit * EV_SIZE <= out.Length && out[..EV_SIZE * copied] == Packed(evs)
  }

  /** One turn of the scan. */
  method Sort(e: Queued, pid: nat, keep: array<Queued>, kn: nat, ghost kept: Queue, out: array<byte>, copied: nat,
              ghost evs: seq<InputEv>, nfit: nat)
    returns (kn': nat, copied': nat, ghost kept': Queue, ghost evs': seq<InputEv>)
    requires Sorted(keep, kn, kept, out, copied, evs, nfit) && kn < IN_CAP
    modifies keep, out
    ensures Sorted(keep, kn', kept', out, copied', evs', nfit) && kn' <= kn + 1
    ensures (kept', evs') == if e.pid == pid && |evs| < nfit then (kept, evs + [e.ev]) else (kept + [e], evs)
  {
    hide Packed, EvBytes;
    kn', copied', kept', evs' := kn, copied, kept, evs;
    if e.pid == pid && copied < nfit {
      PackedStep(evs, e.ev);
      WriteEvent(out, EV_SIZE * copied, e.ev);
      copied', evs' := copied + 1, evs + [e.ev];
    } else {
      keep[kn] := e;
      kn', kept' := kn + 1, kept + [e];
    }
  }
}
