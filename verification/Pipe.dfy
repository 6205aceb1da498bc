/** The four pipe rings of kernel/src/task/pipe.rs, each a FIFO of at most 4096 bytes with its end counts. */
module Pipe {
  import opened Bytes
  import opened Rings

  const PIPE_MAX: nat := 4
  const PIPE_CAP: nat := 4096

  // ---------- What a pipe means ----------

  /** A pipe as its users see it: the bytes waiting, oldest first, and the number of ends. */
  datatype PipeState = PipeState(used: bool, data: seq<byte>, readers: nat, writers: nat)

  const EMPTY: PipeState := PipeState(false, [], 0, 0)

  type PipeStates = seq<PipeState>

  datatype Read = Data(n: nat) | Eof | WouldBlock
  datatype Write = Accepted(n: nat) | Full | Broken

  predicate RingsOk(ps: PipeStates) {
    && |ps| == PIPE_MAX
    && (forall i :: 0 <= i < PIPE_MAX ==> |ps[i].data| <= PIPE_CAP && ps[i].readers <= 255 && ps[i].writers <= 255)
  }

  function FindUnused(ps: PipeStates): (r: nat)
    ensures r <= |ps| && (forall j :: 0 <= j < r ==> ps[j].used) && (r < |ps| ==> !ps[r].used)
  {
    if ps == [] || !ps[0].used then 0 else 1 + FindUnused(ps[1..])
  }

  /** `alloc` */
  function Allocated(ps: PipeStates): (PipeStates, Option<nat>) {
    var i := FindUnused(ps);
    if i < |ps| then (ps[i := PipeState(true, [], 1, 1)], Some(i)) else (ps, None)
  }

  function WithEnd(p: PipeState, write: bool): (PipeState, bool) {
    if !p.used || (if write then p.writers else p.readers) >= 255 then (p, false)
    else if write then (p.(writers := p.writers + 1), true)
    else (p.(readers := p.readers + 1), true)
  }

  /** `clone_end`: an end more, unless the pipe is unknown, unused or has 255 of them. */
  function Cloned(ps: PipeStates, id: nat, write: bool): (PipeStates, bool) {
    if id >= |ps| then (ps, false) else var (p, ok) := WithEnd(ps[id], write); (ps[id := p], ok)
  }

  /** `n.saturating_sub(1)` */
  function Less(n: nat): nat { if n == 0 then 0 else n - 1 }

  function WithoutEnd(p: PipeState, write: bool): PipeState {
    if !p.used then p else
      var q := if write then p.(writers := Less(p.writers)) else p.(readers := Less(p.readers));
      if q.readers == 0 && q.writers == 0 then EMPTY else q
  }

  /** `drop_end`: an end fewer; the last one frees the pipe. */
  function Dropped(ps: PipeStates, id: nat, write: bool): PipeStates {
    if id >= |ps| then ps else ps[id := WithoutEnd(ps[id], write)]
  }

  /** A read of up to `n` bytes: the pipe after it, the answer and the bytes handed over. */
  function ReadOne(p: PipeState, n: nat): (PipeState, Read, seq<byte>) {
    if n == 0 then (p, Data(0), [])
    else if !p.used then (p, Eof, [])
    else if p.data == [] then (p, if p.writers == 0 then Eof else WouldBlock, [])
    else
      var k := Min(n, |p.data|);
      (p.(data := p.data[k..]), Data(k), p.data[..k])
  }

  function WriteOne(p: PipeState, src: seq<byte>): (PipeState, Write) {
    if src == [] then (p, Accepted(0))
    else if !p.used || p.readers == 0 then (p, Broken)
    else if |p.data| >= PIPE_CAP then (p, Full)
    else
      var k := Min(|src|, PIPE_CAP - |p.data|);
      (p.(data := p.data + src[..k]), Accepted(k))
  }

  function ReadAt(ps: PipeStates, id: nat, n: nat): (PipeStates, Read, seq<byte>) {
    if id >= |ps| then (ps, if n == 0 then Data(0) else Eof, [])
    else var (p, r, bytes) := ReadOne(ps[id], n); (ps[id := p], r, bytes)
  }

  function WriteAt(ps: PipeStates, id: nat, src: seq<byte>): (PipeStates, Write) {
    if id >= |ps| then (ps, if src == [] then Accepted(0) else Broken)
    else var (p, r) := WriteOne(ps[id], src); (ps[id := p], r)
  }

  /** A read of something hands over as much of the oldest bytes as fits and leaves the rest; with nothing waiting
      it says end of file when nobody can write any more, and otherwise blocks. */
  lemma ReadMeaning(p: PipeState, n: nat)
    requires p.used && n > 0
    ensures var (q, r, bytes) := ReadOne(p, n);
      && bytes + q.data == p.data && q == p.(data := q.data)
      && |bytes| == (if n <= |p.data| then n else |p.data|)
      && (p.data != [] ==> r == Data(|bytes|)) && (p.data == [] ==> r == if p.writers == 0 then Eof else WouldBlock)
  {
  }

  /** A write of something is refused when nobody can read, blocks at 4096 bytes, and otherwise adds behind the
      newest byte as much as there is room for. */
  lemma WriteMeaning(p: PipeState, src: seq<byte>)
    requires p.used && src != [] && |p.data| <= 4096
    ensures var (q, r) := WriteOne(p, src);
      && (r == Broken <==> p.readers == 0) && (r == Full <==> p.readers > 0 && |p.data| == 4096)
      && (!r.Accepted? ==> q == p)
      && (r.Accepted? ==>
            && r.n == (if |src| <= 4096 - |p.data| then |src| else 4096 - |p.data|)
            && q == p.(data := p.data + src[..r.n]))
  {
  }

  // ---------- The rings as they run ----------

  class PipeRing {
    var used: bool
    const buf: array<byte>
    var head: nat
    var len: nat
    var nReaders: nat
    var nWriters: nat

    ghost predicate Valid() reads this {
      buf.Length == PIPE_CAP && head < PIPE_CAP && len <= PIPE_CAP && nReaders <= 255 && nWriters <= 255
    }

    ghost function View(): PipeState
      requires Valid()
      reads this, buf
    {
      PipeState(used, Window(buf[..], head, len), nReaders, nWriters)
    }

    constructor ()
      ensures Valid() && fresh(buf) && View() == EMPTY
    {
      buf := new byte[PIPE_CAP](_ => 0);
      used, head, len, nReaders, nWriters := false, 0, 0, 0, 0;
    }

    lemma UsedMeaning()
      requires Valid()
      ensures View().used == used
    {
    }

    /** `*p = Pipe { .. }` */
    method Reset(used: bool, ends: nat)
      requires Valid() && ends <= 255
      modifies this, buf
      ensures Valid() && View() == PipeState(used, [], ends, ends)
    {
      forall k | 0 <= k < buf.Length {
        buf[k] := 0;
      }
      this.used, head, len, nReaders, nWriters := used, 0, 0, ends, ends;
    }

    method Take(dst: array<byte>, n: nat)
      requires Valid() && n <= len && n <= dst.Length && dst != buf
      modifies this`head, this`len, dst
      ensures Valid() && dst[..n] == old(View()).data[..n] && dst[n..] == old(dst[n..])
      ensures View() == old(View()).(data := old(View()).data[n..])
    {
      hide Window, At;
      ghost var d := Window(buf[..], head, len);
      var i := 0;
      while i < n
        invariant 0 <= i <= n
        invariant Valid() && head == old(head) && len == old(len)
        invariant forall k :: 0 <= k < dst.Length ==> dst[k] == if k < i then d[k] else old(dst[k])
      {
        dst[i] := buf[At(PIPE_CAP, head, i)];
        i := i + 1;
      }
      WindowDrop(buf[..], head, len, n);
      head := At(PIPE_CAP, head, n);
      len := len - n;
    }

    method Append(src: seq<byte>, n: nat)
      requires Valid() && n <= |src| && len + n <= PIPE_CAP
      modifies this`len, buf
      ensures Valid() && View() == old(View()).(data := old(View()).data + src[..n])
    {
      hide Window, At;
      var tail := At(PIPE_CAP, head, len);
      ghost var was := Window(buf[..], head, len);
      var i := 0;
      while i < n
        invariant 0 <= i <= n
        invariant Valid() && head == old(head) && len == old(len)
        invariant Window(buf[..], head, len + i) == was + src[..i]
      {
        AtAt(PIPE_CAP, head, len, i);
        WindowStore(buf[..], head, len + i, src[i]);
        ghost var before := buf[..];
        buf[At(PIPE_CAP, tail, i)] := src[i];
        assert buf[..] == before[At(PIPE_CAP, tail, i) := src[i]];
        i := i + 1;
      }
      len := len + n;
    }

    method Read(dst: array<byte>) returns (r: Read)
      requires Valid() && dst != buf
      modifies this`head, this`len, dst
      ensures Valid()
      ensures var (q, out, bytes) := ReadOne(old(View()), dst.Length);
        View() == q && r == out && |bytes| <= dst.Length && dst[..|bytes|] == bytes && dst[|bytes|..] == old(dst[|bytes|..])
    {
      hide Window, At;
      if dst.Length == 0 {
        return Data(0);
      }
      if !used {
        return Eof;
      }
      if len == 0 {
        return if nWriters == 0 then Eof else WouldBlock;
      }
      var n := Min(dst.Length, len);
      Take(dst, n);
      r := Data(n);
    }

    method Write(src: seq<byte>) returns (r: Write)
      requires Valid()
      modifies this`len, buf
      ensures Valid() && (View(), r) == WriteOne(old(View()), src)
    {
      hide Window, At;
      if src == [] {
        return Accepted(0);
      }
      if !used || nReaders == 0 {
        return Broken;
      }
      if len == PIPE_CAP {
        return Full;
      }
      var n := Min(|src|, PIPE_CAP - len);
      Append(src, n);
      r := Accepted(n);
    }

    method CloneEnd(write: bool) returns (ok: bool)
      requires Valid()
      modifies this`nReaders, this`nWriters
      ensures Valid() && (View(), ok) == WithEnd(old(View()), write)
    {
      if !used {
        return false;
      }
      if write {
        if nWriters == 255 {
          return false;
        }
        nWriters := nWriters + 1;
      } else {
        if nReaders == 255 {
          return false;
        }
        nReaders := nReaders + 1;
      }
      ok := true;
    }

    method DropEnd(write: bool)
      requires Valid()
      modifies this, buf
      ensures Valid() && View() == WithoutEnd(old(View()), write)
    {
      if !used {
        return;
      }
      if write {
        nWriters := Less(nWriters);
      } else {
        nReaders := Less(nReaders);
      }
      if nReaders == 0 && nWriters == 0 {
        Reset(false, 0);
      }
    }
  }

  /** The static table of pipes. */
  class Pipes {
    const p: seq<PipeRing>

    ghost function Repr(): set<object> {
      (set q: PipeRing | q in p :: q as object) + (set q: PipeRing | q in p :: q.buf as object)
    }

    ghost predicate Valid() reads Repr() {
      && |p| == PIPE_MAX
      && (forall i, j :: 0 <= i < j < PIPE_MAX ==> p[i] != p[j] && p[i].buf != p[j].buf)
      && (forall i :: 0 <= i < PIPE_MAX ==> p[i].Valid())
    }

    ghost function View(): (v: PipeStates)
      requires Valid()
      reads Repr()
      ensures |v| == PIPE_MAX && forall i :: 0 <= i < PIPE_MAX ==> v[i] == p[i].View()
    {
      [p[0].View(), p[1].View(), p[2].View(), p[3].View()]
    }

    constructor ()
      ensures Valid() && View() == [EMPTY, EMPTY, EMPTY, EMPTY]
    {
      hide Window, PipeRing.View;
      var a := new PipeRing();
      var b := new PipeRing();
      var c := new PipeRing();
      var d := new PipeRing();
      p := [a, b, c, d];
    }

    method Unused() returns (i: nat)
      requires Valid()
      ensures i == FindUnused(View())
    {
      hide Window, PipeRing.View;
      i := 0;
      while i < |p|
        invariant 0 <= i <= |p|
        invariant forall j :: 0 <= j < i ==> View()[j].used
      {
        p[i].UsedMeaning();
        if !p[i].used {
          return;
        }
        i := i + 1;
      }
    }

    method Alloc() returns (r: Option<nat>)
      requires Valid()
      modifies Repr()
      ensures Valid() && (View(), r) == Allocated(old(View()))
    {
      hide Window, PipeRing.View, FindUnused;
      var i := Unused();
      if i >= |p| {
        return None;
      }
      assert p[i] in p;
      p[i].Reset(true, 1);
      assert View() == old(View())[i := p[i].View()];
      r := Some(i);
    }

    method CloneEnd(id: nat, write: bool) returns (ok: bool)
      requires Valid()
      modifies Repr()
      ensures Valid() && (View(), ok) == Cloned(old(View()), id, write)
    {
      hide Window, PipeRing.View, WithEnd;
      if id >= |p| {
        return false;
      }
      assert p[id] in p;
      ok := p[id].CloneEnd(write);
      assert View() == old(View())[id := p[id].View()];
    }

    method DropEnd(id: nat, write: bool)
      requires Valid()
      modifies Repr()
      ensures Valid() && View() == Dropped(old(View()), id, write)
    {
      hide Window, PipeRing.View, WithoutEnd;
      if id >= |p| {
        return;
      }
      assert p[id] in p;
      p[id].DropEnd(write);
      assert View() == old(View())[id := p[id].View()];
    }
  }
}
