/**
 The descriptor tables of kernel/src/task/fd.rs over the pipes: in every reachable state each pipe's
 end counts are the number of descriptors that name the end, over all tables.
 */
module Fd {
  import opened Bytes
  import opened Pipe

  const FD_MAX: nat := 16

  datatype OpenFd =
    | Stdin | Stdout | Stderr
    | File(path: string, offset: nat, writable: bool)
    | Dir(index: nat, ents: seq<string>)
    | PipeEnd(id: nat, write: bool)

  type Slots = seq<Option<OpenFd>>

  // ---------- One table ----------

  function StdioSlots(): (t: Slots)
    ensures |t| == FD_MAX
  {
    [Some(Stdin), Some(Stdout), Some(Stderr)] + seq(FD_MAX - 3, _ => None)
  }

  function Taken(t: Slots, fd: nat): (Slots, Option<OpenFd>) {
    if fd < |t| then (t[fd := None], t[fd]) else (t, None)
  }

  /** The lowest empty slot, or the number of slots. */
  function FindEmpty(t: Slots): (r: nat)
    ensures r <= |t| && (forall j :: 0 <= j < r ==> t[j].Some?) && (r < |t| ==> t[r].None?)
  {
    if t == [] || t[0].None? then 0 else 1 + FindEmpty(t[1..])
  }

  function Placed(t: Slots, of: OpenFd): (Slots, Option<nat>) {
    var i := FindEmpty(t);
    if i < |t| then (t[i := Some(of)], Some(i)) else (t, None)
  }

  function DropOpen(ps: PipeStates, of: Option<OpenFd>): PipeStates {
    if of.Some? && of.value.PipeEnd? then Dropped(ps, of.value.id, of.value.write) else ps
  }

  function Replaced(ps: PipeStates, t: Slots, fd: nat, of: OpenFd): (PipeStates, Slots) {
    var (u, was) := Taken(t, fd);
    var qs := DropOpen(ps, was);
    if fd < |u| then (qs, u[fd := Some(of)]) else (DropOpen(qs, Some(of)), u)
  }

  function ClonedSlot(ps: PipeStates, t: Slots, fd: nat): (PipeStates, Option<OpenFd>) {
    if fd >= |t| || t[fd].None? || t[fd].value.Dir? then (ps, None)
    else if t[fd].value.PipeEnd? then
      var (qs, ok) := Cloned(ps, t[fd].value.id, t[fd].value.write);
      (qs, if ok then t[fd] else None)
    else (ps, t[fd])
  }

  /** Slots `k` on emptied, each descriptor dropped. */
  function ClosedFrom(ps: PipeStates, t: Slots, k: nat): (PipeStates, Slots)
    decreases |t| - k
  {
    if k >= |t| then (ps, t) else ClosedFrom(DropOpen(ps, t[k]), t[k := None], k + 1)
  }

  /** `inherit_from`; `None` stands for `u64::MAX`. */
  function Inherited(ps: PipeStates, t: Slots, stdin: Option<nat>, stdout: Option<nat>): (PipeStates, Option<Slots>) {
    var (qs, child) := InheritOne(ps, t, StdioSlots(), stdin, 0);
    if child.None? then (qs, None) else
      var (rs, both) := InheritOne(qs, t, child.value, stdout, 1);
      if both.None? then (ClosedFrom(rs, child.value, 0).0, None) else (rs, both)
  }

  function InheritOne(ps: PipeStates, t: Slots, child: Slots, fd: Option<nat>, at: nat): (PipeStates, Option<Slots>) {
    if fd.None? then (ps, Some(child)) else
      var (qs, of) := ClonedSlot(ps, t, fd.value);
      if of.None? then (qs, None) else
        var (rs, u) := Replaced(qs, child, at, of.value);
        (rs, Some(u))
  }

  // ---------- Counting descriptors ----------

  function Is(x: Option<OpenFd>, id: nat, write: bool): nat {
    if x == Some(PipeEnd(id, write)) then 1 else 0
  }

  function CountIn(t: Slots, id: nat, write: bool): nat {
    if t == [] then 0 else Is(t[0], id, write) + CountIn(t[1..], id, write)
  }

  function Count(tables: seq<Slots>, id: nat, write: bool): nat {
    if tables == [] then 0 else CountIn(tables[0], id, write) + Count(tables[1..], id, write)
  }

  predicate HasSlot(tables: seq<Slots>, k: nat, i: nat) {
    k < |tables| && i < |tables[k]|
  }

  function Set(tables: seq<Slots>, k: nat, i: nat, x: Option<OpenFd>): seq<Slots>
    requires HasSlot(tables, k, i)
  {
    tables[k := tables[k][i := x]]
  }

  lemma {:induction false} CountInSet(t: Slots, i: nat, x: Option<OpenFd>, id: nat, write: bool)
    requires i < |t|
    ensures CountIn(t[i := x], id, write) + Is(t[i], id, write) == CountIn(t, id, write) + Is(x, id, write)
  {
    hide Is;
    if i == 0 {
      assert t[i := x][1..] == t[1..];
    } else {
      assert t[i := x][1..] == t[1..][i - 1 := x];
      CountInSet(t[1..], i - 1, x, id, write);
    }
  }

  lemma {:induction false} CountSwap(tables: seq<Slots>, k: nat, t: Slots, id: nat, write: bool)
    requires k < |tables|
    ensures Count(tables[k := t], id, write) + CountIn(tables[k], id, write) == Count(tables, id, write) + CountIn(t, id, write)
  {
    hide CountIn;
    if k == 0 {
      assert tables[k := t][1..] == tables[1..];
    } else {
      assert tables[k := t][1..] == tables[1..][k - 1 := t];
      CountSwap(tables[1..], k - 1, t, id, write);
    }
  }

  lemma CountSet(tables: seq<Slots>, k: nat, i: nat, x: Option<OpenFd>, id: nat, write: bool)
    requires HasSlot(tables, k, i)
    ensures Count(Set(tables, k, i, x), id, write) + Is(tables[k][i], id, write) == Count(tables, id, write) + Is(x, id, write)
  {
    hide CountIn, Count, Is;
    CountInSet(tables[k], i, x, id, write);
    CountSwap(tables, k, tables[k][i := x], id, write);
  }

  lemma {:induction false} CountAppend(tables: seq<Slots>, t: Slots, id: nat, write: bool)
    ensures Count(tables + [t], id, write) == Count(tables, id, write) + CountIn(t, id, write)
  {
    hide CountIn;
    if tables == [] {
      assert ([] + [t])[1..] == [];
    } else {
      assert (tables + [t])[1..] == tables[1..] + [t];
      CountAppend(tables[1..], t, id, write);
    }
  }

  /** A descriptor in any table counts. */
  lemma CountedHere(tables: seq<Slots>, k: nat, i: nat, id: nat, write: bool)
    requires HasSlot(tables, k, i) && tables[k][i] == Some(PipeEnd(id, write))
    ensures Count(tables, id, write) > 0
  {
    hide CountIn, Count;
    CountSet(tables, k, i, None, id, write);
  }

  // ---------- The invariant ----------

  function Ends(p: PipeState, write: bool): nat { if write then p.writers else p.readers }

  ghost predicate Known(x: Option<OpenFd>) {
    x.Some? && x.value.PipeEnd? ==> x.value.id < PIPE_MAX
  }

  /** The counts of one pipe are those over all tables, and it is in use exactly while a descriptor names it. */
  ghost predicate PipeBalanced(p: PipeState, tables: seq<Slots>, id: nat) {
    && p.readers == Count(tables, id, false) && p.writers == Count(tables, id, true)
    && (p.used <==> p.readers + p.writers > 0) && (!p.used ==> p == EMPTY)
  }

  ghost predicate Balanced(ps: PipeStates, tables: seq<Slots>) {
    && RingsOk(ps)
    && (forall id :: 0 <= id < PIPE_MAX ==> PipeBalanced(ps[id], tables, id))
    && (forall k, i :: 0 <= k < |tables| && 0 <= i < |tables[k]| ==> Known(tables[k][i]))
  }

  /** One slot set: every pipe's balance moves with what was there and what is there now. */
  lemma SetBalance(ps: PipeStates, qs: PipeStates, tables: seq<Slots>, k: nat, i: nat, x: Option<OpenFd>)
    requires Balanced(ps, tables) && HasSlot(tables, k, i) && Known(x) && RingsOk(qs)
    requires forall id :: 0 <= id < PIPE_MAX ==> Shifted(ps[id], qs[id], tables[k][i], x, id)
    ensures Balanced(qs, Set(tables, k, i, x))
  {
    hide Count, Is;
    var u := Set(tables, k, i, x);
    forall id | 0 <= id < PIPE_MAX
      ensures PipeBalanced(qs[id], u, id)
    {
      CountSet(tables, k, i, x, id, false);
      CountSet(tables, k, i, x, id, true);
      assert PipeBalanced(ps[id], tables, id);
    }
  }

  ghost predicate Shifted(p: PipeState, q: PipeState, was: Option<OpenFd>, x: Option<OpenFd>, id: nat) {
    && q.readers + Is(was, id, false) == p.readers + Is(x, id, false)
    && q.writers + Is(was, id, true) == p.writers + Is(x, id, true)
    && (q.used <==> q.readers + q.writers > 0) && (!q.used ==> q == EMPTY)
  }

  /** Dropping a descriptor that is held never meets a zero count, and frees the pipe with the last one. */
  lemma DropKeeps(ps: PipeStates, tables: seq<Slots>, k: nat, i: nat)
    requires Balanced(ps, tables) && HasSlot(tables, k, i)
    ensures Balanced(DropOpen(ps, tables[k][i]), Set(tables, k, i, None))
    ensures var x := tables[k][i]; x.Some? && x.value.PipeEnd? ==>
      x.value.id < PIPE_MAX && ps[x.value.id].used && Ends(ps[x.value.id], x.value.write) > 0
  {
    hide Count, CountIn;
    var x := tables[k][i];
    assert Known(x);
    if x.Some? && x.value.PipeEnd? {
      CountedHere(tables, k, i, x.value.id, x.value.write);
      assert PipeBalanced(ps[x.value.id], tables, x.value.id);
    }
    forall id | 0 <= id < PIPE_MAX
      ensures Shifted(ps[id], DropOpen(ps, x)[id], x, None, id)
    {
      assert PipeBalanced(ps[id], tables, id);
    }
    SetBalance(ps, DropOpen(ps, x), tables, k, i, None);
  }

  /** A cloned descriptor is one more for its end; a failed clone changes nothing. */
  lemma CloneKeeps(ps: PipeStates, tables: seq<Slots>, src: Slots, fd: nat, k: nat, i: nat)
    requires Balanced(ps, tables) && HasSlot(tables, k, i) && src in tables
    requires !(tables[k][i].Some? && tables[k][i].value.PipeEnd?)
    ensures var (qs, of) := ClonedSlot(ps, src, fd);
      if of.None? then qs == ps else Balanced(qs, Set(tables, k, i, of))
  {
    hide Count, CountIn;
    var (qs, of) := ClonedSlot(ps, src, fd);
    var s :| 0 <= s < |tables| && tables[s] == src;
    if of.Some? {
      assert Known(tables[s][fd]);
      if of.value.PipeEnd? {
        CountedHere(tables, s, fd, of.value.id, of.value.write);
        assert PipeBalanced(ps[of.value.id], tables, of.value.id);
      }
      forall id | 0 <= id < PIPE_MAX
        ensures Shifted(ps[id], qs[id], tables[k][i], of, id)
      {
        assert PipeBalanced(ps[id], tables, id);
      }
      SetBalance(ps, qs, tables, k, i, of);
    }
  }

  /** Closing slots `j` on of table `k`. */
  lemma {:induction false} CloseKeeps(ps: PipeStates, tables: seq<Slots>, k: nat, j: nat)
    requires Balanced(ps, tables) && k < |tables|
    ensures var (qs, t) := ClosedFrom(ps, tables[k], j); Balanced(qs, tables[k := t])
    ensures var t := ClosedFrom(ps, tables[k], j).1;
      && |t| == |tables[k]| && (forall i :: j <= i < |t| ==> t[i].None?)
      && (forall i :: 0 <= i < j && i < |t| ==> t[i] == tables[k][i])
    decreases |tables[k]| - j
  {
    hide Balanced, DropOpen;
    if j < |tables[k]| {
      DropKeeps(ps, tables, k, j);
      var u := Set(tables, k, j, None);
      CloseKeeps(DropOpen(ps, tables[k][j]), u, k, j + 1);
      assert u[k := ClosedFrom(DropOpen(ps, tables[k][j]), u[k], j + 1).1] == tables[k := ClosedFrom(ps, tables[k], j).1];
    } else {
      assert tables[k := tables[k]] == tables;
    }
  }

  lemma ClosedStep(ps: PipeStates, t: Slots, k: nat)
    requires k < |t|
    ensures ClosedFrom(ps, t, k) == ClosedFrom(DropOpen(ps, t[k]), t[k := None], k + 1)
  {
  }

  lemma ClosedEnd(ps: PipeStates, t: Slots, k: nat)
    requires k >= |t|
    ensures ClosedFrom(ps, t, k) == (ps, t)
  {
  }

  lemma {:induction false} ClosedEmpty(ps: PipeStates, t: Slots, k: nat)
    ensures var u := ClosedFrom(ps, t, k).1;
      |u| == |t| && forall i :: 0 <= i < |t| ==> u[i] == if i < k then t[i] else None
    decreases |t| - k
  {
    hide DropOpen;
    if k < |t| {
      ClosedEmpty(DropOpen(ps, t[k]), t[k := None], k + 1);
    }
  }

  predicate NoPipes(t: Slots) {
    forall i :: 0 <= i < |t| ==> !(t[i].Some? && t[i].value.PipeEnd?)
  }

  lemma {:induction false} NoPipesCount(t: Slots, id: nat, write: bool)
    requires NoPipes(t)
    ensures CountIn(t, id, write) == 0
  {
    if t != [] {
      NoPipesCount(t[1..], id, write);
    }
  }

  /** A table without pipes makes no difference. */
  lemma PlainTable(ps: PipeStates, tables: seq<Slots>, t: Slots)
    requires NoPipes(t)
    ensures Balanced(ps, tables + [t]) <==> Balanced(ps, tables)
  {
    hide Count, CountIn, RingsOk;
    var u := tables + [t];
    forall id: nat, write: bool
      ensures Count(u, id, write) == Count(tables, id, write)
    {
      CountAppend(tables, t, id, write);
      NoPipesCount(t, id, write);
    }
    assert forall id :: 0 <= id < |ps| ==> (PipeBalanced(ps[id], u, id) <==> PipeBalanced(ps[id], tables, id));
    assert u[|tables|] == t;
    assert forall k :: 0 <= k < |tables| ==> u[k] == tables[k];
  }

  /** An inherited slot keeps the balance, the child's table being one more. */
  lemma InheritOneKeeps(ps: PipeStates, tables: seq<Slots>, src: Slots, child: Slots, fd: Option<nat>, at: nat)
    requires Balanced(ps, tables + [child]) && src in tables && at < |child|
    requires !(child[at].Some? && child[at].value.PipeEnd?)
    ensures var (qs, u) := InheritOne(ps, src, child, fd, at);
      if u.None? then qs == ps else
        && Balanced(qs, tables + [u.value]) && |u.value| == |child|
        && (forall i :: 0 <= i < |child| && i != at ==> u.value[i] == child[i])
  {
    hide Balanced, ClonedSlot;
    var all := tables + [child];
    if fd.Some? {
      assert src in all;
      assert all[|tables|] == child;
      CloneKeeps(ps, all, src, fd.value, |tables|, at);
      var of := ClonedSlot(ps, src, fd.value).1;
      if of.Some? {
        assert child[at := None][at := Some(of.value)] == child[at := of];
        assert Set(all, |tables|, at, of) == tables + [child[at := of]];
      }
    }
  }

  /** A child that inherits takes part in the counts; one that fails to leaves them as they were. */
  lemma InheritKeeps(ps: PipeStates, tables: seq<Slots>, src: Slots, stdin: Option<nat>, stdout: Option<nat>)
    requires Balanced(ps, tables) && src in tables
    ensures var (qs, child) := Inherited(ps, src, stdin, stdout);
      Balanced(qs, if child.Some? then tables + [child.value] else tables)
  {
    hide Balanced, InheritOne;
    PlainTable(ps, tables, StdioSlots());
    InheritOneKeeps(ps, tables, src, StdioSlots(), stdin, 0);
    var (qs, child) := InheritOne(ps, src, StdioSlots(), stdin, 0);
    if child.Some? {
      InheritOneKeeps(qs, tables, src, child.value, stdout, 1);
      var (rs, both) := InheritOne(qs, src, child.value, stdout, 1);
      if both.None? {
        var all := tables + [child.value];
        CloseKeeps(qs, all, |tables|, 0);
        var (ss, empty) := ClosedFrom(qs, child.value, 0);
        assert all[|tables| := empty] == tables + [empty];
        PlainTable(ss, tables, empty);
      }
    }
  }

  // ---------- What a child inherits ----------

  /** Slot `fd` can be cloned: it is open and no directory, and a pipe end is of a used pipe that has room for
      `more` such ends and this one. */
  predicate Cloneable(ps: PipeStates, t: Slots, fd: nat, more: nat) {
    && fd < |t| && t[fd].Some? && !t[fd].value.Dir?
    && (t[fd].value.PipeEnd? ==>
          && t[fd].value.id < |ps| && ps[t[fd].value.id].used
          && (if t[fd].value.write then ps[t[fd].value.id].writers else ps[t[fd].value.id].readers) + more < 255)
  }

  /** Both slots asked for can be cloned, one after the other. */
  predicate Inheritable(ps: PipeStates, t: Slots, stdin: Option<nat>, stdout: Option<nat>) {
    && (stdin.Some? ==> Cloneable(ps, t, stdin.value, 0))
    && (stdout.Some? ==>
          Cloneable(ps, t, stdout.value,
            if stdin.Some? && stdin.value < |t| && stdout.value < |t| && t[stdin.value] == t[stdout.value] then 1 else 0))
  }

  /** The child's table: the parent's slots where asked for, standard descriptors elsewhere. */
  ghost predicate IsChild(t: Slots, stdin: Option<nat>, stdout: Option<nat>, child: Slots) {
    && |child| == 16
    && (if stdin.Some? then stdin.value < |t| && child[0] == t[stdin.value] else child[0] == Some(Stdin))
    && (if stdout.Some? then stdout.value < |t| && child[1] == t[stdout.value] else child[1] == Some(Stdout))
    && child[2] == Some(Stderr) && (forall i :: 3 <= i < 16 ==> child[i] == None)
  }

  lemma CloneMeaning(ps: PipeStates, t: Slots, fd: nat)
    ensures var (qs, of) := ClonedSlot(ps, t, fd);
      && (of.Some? <==> Cloneable(ps, t, fd, 0)) && (of.Some? ==> of == t[fd]) && (of.None? ==> qs == ps)
      && |qs| == |ps| && (of.Some? ==> OneMore(ps, qs, of.value))
  {
    var (qs, of) := ClonedSlot(ps, t, fd);
    if of.None? {
      assert fd < |t| && t[fd].Some? && t[fd].value.PipeEnd? && t[fd].value.id < |ps| ==>
        ps[t[fd].value.id := ps[t[fd].value.id]] == ps;
    }
  }

  /** One end more where `of` is a pipe end; nothing else. */
  ghost predicate OneMore(ps: PipeStates, qs: PipeStates, of: OpenFd) {
    && |qs| == |ps|
    && if !of.PipeEnd? then qs == ps else
         && of.id < |ps| && ps[of.id].used && (forall i :: 0 <= i < |ps| && i != of.id ==> qs[i] == ps[i])
         && qs[of.id] == if of.write then ps[of.id].(writers := ps[of.id].writers + 1)
                         else ps[of.id].(readers := ps[of.id].readers + 1)
  }

  lemma InheritOneMeaning(ps: PipeStates, t: Slots, child: Slots, fd: Option<nat>, at: nat)
    requires at < |child| && !(child[at].Some? && child[at].value.PipeEnd?)
    ensures var (qs, u) := InheritOne(ps, t, child, fd, at);
      && (u.Some? <==> (fd.Some? ==> Cloneable(ps, t, fd.value, 0))) && (u.None? || fd.None? ==> qs == ps)
      && (u.Some? ==> u.value == if fd.Some? then child[at := t[fd.value]] else child)
      && (u.Some? && fd.Some? ==> OneMore(ps, qs, t[fd.value].value))
  {
    hide ClonedSlot, OneMore, Cloneable;
    if fd.Some? {
      CloneMeaning(ps, t, fd.value);
      CloneableOpen(ps, t, fd.value);
      var (qs, of) := ClonedSlot(ps, t, fd.value);
      if of.Some? {
        assert child[at := None][at := of] == child[at := of];
      }
    }
  }

  lemma CloneableOpen(ps: PipeStates, t: Slots, fd: nat)
    ensures Cloneable(ps, t, fd, 0) ==> fd < |t| && t[fd].Some?
  {
  }

  /** After one clone, a second one finds one end more if it is of the same end. */
  lemma CloneableNext(ps: PipeStates, qs: PipeStates, t: Slots, a: nat, b: nat)
    requires a < |t| && t[a].Some? && OneMore(ps, qs, t[a].value)
    ensures Cloneable(qs, t, b, 0) <==> Cloneable(ps, t, b, if b < |t| && t[a] == t[b] then 1 else 0)
  {
  }

  /** A spawn succeeds exactly when every slot asked for can be cloned, and the child then has those slots as its
      standard input and output; a spawn that fails leaves the pipes as they were. */
  lemma InheritMeaning(ps: PipeStates, tables: seq<Slots>, t: Slots, stdin: Option<nat>, stdout: Option<nat>)
    requires Balanced(ps, tables)
    ensures var (qs, child) := Inherited(ps, t, stdin, stdout);
      && (child.Some? <==> Inheritable(ps, t, stdin, stdout))
      && (child.Some? ==> IsChild(t, stdin, stdout, child.value))
      && (child.None? ==> qs == ps)
  {
    hide InheritOne, OneMore, Cloneable, Balanced, ClosedFrom, DropOpen;
    InheritTable(ps, t, stdin, stdout);
    InheritOneMeaning(ps, t, StdioSlots(), stdin, 0);
    var (qs, child) := InheritOne(ps, t, StdioSlots(), stdin, 0);
    if child.Some? {
      InheritOneMeaning(qs, t, child.value, stdout, 1);
      if InheritOne(qs, t, child.value, stdout, 1).1.None? {
        StdioClosed(qs, child.value);
        if stdin.Some? {
          CloneableOpen(ps, t, stdin.value);
          CloneUndone(ps, qs, tables, t[stdin.value].value);
        } else {
          NothingToDrop(ps);
        }
      }
    }
  }

  lemma NothingToDrop(ps: PipeStates)
    ensures DropOpen(ps, Some(Stdin)) == ps
  {
  }

  /** The same of the tables, whatever the pipes. */
  lemma InheritTable(ps: PipeStates, t: Slots, stdin: Option<nat>, stdout: Option<nat>)
    ensures var child := Inherited(ps, t, stdin, stdout).1;
      && (child.Some? <==> Inheritable(ps, t, stdin, stdout)) && (child.Some? ==> IsChild(t, stdin, stdout, child.value))
  {
    hide InheritOne, OneMore, Cloneable, ClosedFrom;
    InheritOneMeaning(ps, t, StdioSlots(), stdin, 0);
    var (qs, child) := InheritOne(ps, t, StdioSlots(), stdin, 0);
    if stdin.Some? {
      CloneableOpen(ps, t, stdin.value);
    }
    if child.Some? {
      InheritOneMeaning(qs, t, child.value, stdout, 1);
      if stdout.Some? {
        CloneableOpen(qs, t, stdout.value);
        if stdin.Some? {
          CloneableNext(ps, qs, t, stdin.value, stdout.value);
        }
      }
    }
  }

  /** Giving a clone back undoes it. */
  lemma CloneUndone(ps: PipeStates, qs: PipeStates, tables: seq<Slots>, of: OpenFd)
    requires Balanced(ps, tables) && OneMore(ps, qs, of)
    ensures DropOpen(qs, Some(of)) == ps
  {
    hide Count;
    if of.PipeEnd? {
      assert PipeBalanced(ps[of.id], tables, of.id);
    }
  }

  /** Closing a child that got only its standard input gives that back. */
  lemma StdioClosed(ps: PipeStates, child: Slots)
    requires |child| == 16 && child[1..] == StdioSlots()[1..]
    ensures ClosedFrom(ps, child, 0).0 == DropOpen(ps, child[0])
  {
    hide DropOpen;
    var u := child[0 := None];
    assert forall i :: 1 <= i < 16 ==> u[i] == child[1..][i - 1] == StdioSlots()[1..][i - 1] == StdioSlots()[i];
    PlainClosed(DropOpen(ps, child[0]), u, 1);
  }

  /** Closing slots without pipe ends leaves the pipes alone. */
  lemma {:induction false} PlainClosed(ps: PipeStates, t: Slots, k: nat)
    requires forall i :: k <= i < |t| ==> !(t[i].Some? && t[i].value.PipeEnd?)
    ensures ClosedFrom(ps, t, k).0 == ps
    decreases |t| - k
  {
    if k < |t| {
      PlainClosed(ps, t[k := None], k + 1);
    }
  }

  // ---------- sys_pipe ----------

  /** Both ends of a pipe put into the table, or neither. */
  function Pair(t: Slots, id: nat): (Slots, Option<(nat, nat)>) {
    var (u, r) := Placed(t, PipeEnd(id, false));
    if r.None? then (u, None) else
      var (v, w) := Placed(u, PipeEnd(id, true));
      if w.None? then (Taken(v, r.value).0, None) else (v, Some((r.value, w.value)))
  }

  function GivenBack(ps: PipeStates, t: Slots, fd: nat): (PipeStates, Slots) {
    var (u, of) := Taken(t, fd);
    (DropOpen(ps, of), u)
  }

  /** `sys_pipe`; `copied` is whether the two numbers could be handed to the process. */
  function PipeCall(ps: PipeStates, t: Slots, copied: bool): (PipeStates, Slots, Option<(nat, nat)>) {
    var (qs, id) := Allocated(ps);
    if id.None? then (qs, t, None) else
      var (u, pair) := Pair(t, id.value);
      if pair.None? then (Dropped(Dropped(qs, id.value, false), id.value, true), u, None)
      else if copied then (qs, u, pair)
      else
        var (rs, v) := GivenBack(qs, u, pair.value.0);
        var (ss, w) := GivenBack(rs, v, pair.value.1);
        (ss, w, None)
  }

  /** A fresh pipe given up at once leaves no trace. */
  lemma AllocDropped(ps: PipeStates, tables: seq<Slots>)
    requires Balanced(ps, tables)
    ensures var (qs, id) := Allocated(ps);
      if id.None? then qs == ps
      else id.value < PIPE_MAX && Dropped(Dropped(qs, id.value, false), id.value, true) == ps
  {
    hide Count;
    var i := FindUnused(ps);
    if i < |ps| {
      assert PipeBalanced(ps[i], tables, i);
    }
  }

  /** A failing `sys_pipe` changes neither the pipes nor the table. */
  lemma PipeCallUndone(ps: PipeStates, tables: seq<Slots>, t: Slots, copied: bool)
    requires Balanced(ps, tables)
    ensures var (qs, u, r) := PipeCall(ps, t, copied); r.None? ==> qs == ps && u == t
  {
    hide Balanced, Allocated, Dropped;
    AllocDropped(ps, tables);
    var (qs, id) := Allocated(ps);
    if id.Some? {
      var r := FindEmpty(t);
      if r < |t| {
        var u := t[r := Some(PipeEnd(id.value, false))];
        assert u[r := None] == t;
        var w := FindEmpty(u);
        if w < |u| {
          var v := u[w := Some(PipeEnd(id.value, true))];
          assert v[r := None][w := None] == t;
        }
      }
    }
  }

  /** A pipe handed out anew is named by no descriptor before, and by exactly the two new ones after. */
  lemma FreshPipe(ps: PipeStates, tables: seq<Slots>, k: nat)
    requires Balanced(ps, tables) && k < |tables|
    ensures var (qs, u, r) := PipeCall(ps, tables[k], true);
      r.Some? ==>
        var id := FindUnused(ps);
        && id < PIPE_MAX && (forall j: nat, i: nat, w: bool :: HasSlot(tables, j, i) ==> tables[j][i] != Some(PipeEnd(id, w)))
        && r.value.0 != r.value.1 && r.value.0 < |u| && r.value.1 < |u|
        && tables[k][r.value.0].None? && tables[k][r.value.1].None?
        && u == tables[k][r.value.0 := Some(PipeEnd(id, false))][r.value.1 := Some(PipeEnd(id, true))]
  {
    hide Count, CountIn;
    var id := FindUnused(ps);
    if id < PIPE_MAX {
      assert PipeBalanced(ps[id], tables, id);
      forall j: nat, i: nat, w: bool | HasSlot(tables, j, i)
        ensures tables[j][i] != Some(PipeEnd(id, w))
      {
        if tables[j][i] == Some(PipeEnd(id, w)) {
          CountedHere(tables, j, i, id, w);
        }
      }
    }
  }

  /** `sys_pipe` succeeds exactly when a pipe is unused, two slots are empty and the numbers can be handed over; the
      read end goes into the lowest empty slot and the write end into the next. */
  lemma PipeCallMeaning(ps: PipeStates, t: Slots, copied: bool)
    ensures var (qs, u, r) := PipeCall(ps, t, copied);
      && (r.Some? <==>
            && copied && (exists n :: 0 <= n < |ps| && !ps[n].used)
            && (exists i, j :: 0 <= i < j < |t| && t[i].None? && t[j].None?))
      && (r.Some? ==>
            var i, j, n := r.value.0, r.value.1, FindUnused(ps);
            && i < j < |t| && t[i].None? && t[j].None? && (forall k :: 0 <= k < j && k != i ==> t[k].Some?)
            && u == t[i := Some(PipeEnd(n, false))][j := Some(PipeEnd(n, true))]
            && n < |ps| && qs == ps[n := PipeState(true, [], 1, 1)] && (forall k :: 0 <= k < n ==> ps[k].used))
  {
    hide DropOpen, Dropped;
    var i := FindEmpty(t);
    if i < |t| {
      var u := t[i := Some(PipeEnd(FindUnused(ps), false))];
      var j := FindEmpty(u);
      assert forall k :: 0 <= k < i ==> u[k].Some?;
      if j < |t| {
        assert t[j].None?;
        forall k | 0 <= k < j && k != i
          ensures t[k].Some?
        {
          assert u[k].Some? && u[k] == t[k];
        }
      } else {
        assert forall k :: 0 <= k < |t| && k != i ==> u[k] == t[k];
      }
    }
  }

  lemma PipeCallKeeps(ps: PipeStates, tables: seq<Slots>, k: nat, copied: bool)
    requires Balanced(ps, tables) && k < |tables|
    ensures var (qs, u, r) := PipeCall(ps, tables[k], copied); Balanced(qs, tables[k := u])
  {
    hide Count, CountIn;
    PipeCallUndone(ps, tables, tables[k], copied);
    assert tables[k := tables[k]] == tables;
    var (qs, u, r) := PipeCall(ps, tables[k], copied);
    if r.Some? {
      FreshPipe(ps, tables, k);
      TwoEnds(ps, tables, k, r.value.0, r.value.1, FindUnused(ps));
    }
  }

  lemma TwoEnds(ps: PipeStates, tables: seq<Slots>, k: nat, i: nat, j: nat, id: nat)
    requires Balanced(ps, tables) && HasSlot(tables, k, i) && HasSlot(tables, k, j) && i != j && id < PIPE_MAX
    requires tables[k][i].None? && tables[k][j].None? && !ps[id].used
    ensures Balanced(ps[id := PipeState(true, [], 1, 1)],
                     tables[k := tables[k][i := Some(PipeEnd(id, false))][j := Some(PipeEnd(id, true))]])
  {
    hide Count, CountIn;
    assert PipeBalanced(ps[id], tables, id);
    var a := Set(tables, k, i, Some(PipeEnd(id, false)));
    var mid := ps[id := PipeState(true, [], 1, 0)];
    forall n | 0 <= n < PIPE_MAX
      ensures Shifted(ps[n], mid[n], tables[k][i], Some(PipeEnd(id, false)), n)
    {
      assert PipeBalanced(ps[n], tables, n);
    }
    SetBalance(ps, mid, tables, k, i, Some(PipeEnd(id, false)));
    var end := mid[id := PipeState(true, [], 1, 1)];
    forall n | 0 <= n < PIPE_MAX
      ensures Shifted(mid[n], end[n], a[k][j], Some(PipeEnd(id, true)), n)
    {
      assert PipeBalanced(mid[n], a, n);
    }
    SetBalance(mid, end, a, k, j, Some(PipeEnd(id, true)));
    assert Set(a, k, j, Some(PipeEnd(id, true))) ==
      tables[k := tables[k][i := Some(PipeEnd(id, false))][j := Some(PipeEnd(id, true))]];
    assert end == ps[id := PipeState(true, [], 1, 1)];
  }

  // ---------- Runs of the whole system ----------

  /** What one use of a pipe, from allocation to its last close, has accepted and returned so far. */
  datatype Log = Log(accepted: seq<byte>, returned: seq<byte>)

  /** All processes' tables, the pipes, and the log of each pipe's current use. */
  datatype System = System(ps: PipeStates, tables: seq<Slots>, logs: seq<Log>)

  datatype Call =
    /** A new process: with standard descriptors only, or inheriting from process `parent`. */
    | Spawn(parent: Option<nat>, stdin: Option<nat>, stdout: Option<nat>)
    | SysPipe(k: nat, bufOk: bool, copied: bool)
    | SysClose(k: nat, fd: nat)
    /** `close_all`, when a process ends or is reaped. */
    | Exit(k: nat)
    /** `sys_open` put a file or directory into the table. */
    | Opened(k: nat, of: OpenFd)
    | SysRead(k: nat, fd: nat, n: nat)
    | SysWrite(k: nat, fd: nat, src: seq<byte>)

  function Boot(): System {
    System([EMPTY, EMPTY, EMPTY, EMPTY], [], [Log([], []), Log([], []), Log([], []), Log([], [])])
  }

  /** The pipe a descriptor of the table leads to, if it is the `write` end of one. */
  function PipeOf(t: Slots, fd: nat, write: bool): Option<nat> {
    if fd < |t| && t[fd].Some? && t[fd].value.PipeEnd? && t[fd].value.write == write then Some(t[fd].value.id) else None
  }

  predicate Allowed(s: System, c: Call) {
    match c
    case Spawn(parent, _, _) => parent.Some? ==> parent.value < |s.tables|
    case Opened(k, of) => k < |s.tables| && !of.PipeEnd?
    case _ => c.k < |s.tables|
  }

  function Next(s: System, c: Call): System
    requires Allowed(s, c) && |s.logs| == PIPE_MAX
  {
    match c
    case Spawn(parent, stdin, stdout) =>
      if parent.None? then s.(tables := s.tables + [StdioSlots()]) else
        var (qs, child) := Inherited(s.ps, s.tables[parent.value], stdin, stdout);
        s.(ps := qs, tables := if child.Some? then s.tables + [child.value] else s.tables)
    case SysPipe(k, bufOk, copied) =>
      if !bufOk then s else
      var (qs, t, r) := PipeCall(s.ps, s.tables[k], copied);
      var id := FindUnused(s.ps);
      System(qs, s.tables[k := t], if r.Some? && id < PIPE_MAX then s.logs[id := Log([], [])] else s.logs)
    case SysClose(k, fd) =>
      if fd <= 2 then s else
        var (t, of) := Taken(s.tables[k], fd);
        s.(ps := DropOpen(s.ps, of), tables := s.tables[k := t])
    case Exit(k) =>
      var (qs, t) := ClosedFrom(s.ps, s.tables[k], 0);
      s.(ps := qs, tables := s.tables[k := t])
    case Opened(k, of) => s.(tables := s.tables[k := Placed(s.tables[k], of).0])
    case SysRead(k, fd, n) => ReadStep(s, PipeOf(s.tables[k], fd, false), n)
    case SysWrite(k, fd, src) => WriteStep(s, PipeOf(s.tables[k], fd, true), src)
  }

  function ReadStep(s: System, id: Option<nat>, n: nat): System
    requires |s.logs| == PIPE_MAX
  {
    if id.None? || id.value >= PIPE_MAX then s else
      var (qs, _, bytes) := ReadAt(s.ps, id.value, n);
      s.(ps := qs, logs := s.logs[id.value := s.logs[id.value].(returned := s.logs[id.value].returned + bytes)])
  }

  function WriteStep(s: System, id: Option<nat>, src: seq<byte>): System
    requires |s.logs| == PIPE_MAX
  {
    if id.None? || id.value >= PIPE_MAX then s else
      var (qs, r) := WriteAt(s.ps, id.value, src);
      var took := if r.Accepted? && r.n <= |src| then src[..r.n] else [];
      s.(ps := qs, logs := s.logs[id.value := s.logs[id.value].(accepted := s.logs[id.value].accepted + took)])
  }

  /** The bytes of a pipe in use: what was returned, then what waits, is what was accepted. */
  ghost predicate Streams(ps: PipeStates, logs: seq<Log>) {
    && |ps| == PIPE_MAX && |logs| == PIPE_MAX
    && (forall id :: 0 <= id < PIPE_MAX && ps[id].used ==> logs[id].returned + ps[id].data == logs[id].accepted)
  }

  ghost predicate SystemInv(s: System) {
    Balanced(s.ps, s.tables) && Streams(s.ps, s.logs)
  }

  lemma BootInv()
    ensures SystemInv(Boot())
  {
  }

  /** Ends come and go; the bytes of pipes that stay in use do not change. */
  ghost predicate DataKept(ps: PipeStates, qs: PipeStates) {
    |qs| == |ps| && forall id :: 0 <= id < |ps| && qs[id].used ==> ps[id].used && qs[id].data == ps[id].data
  }

  lemma DropData(ps: PipeStates, of: Option<OpenFd>)
    ensures DataKept(ps, DropOpen(ps, of))
  {
  }

  lemma {:induction false} CloseData(ps: PipeStates, t: Slots, k: nat)
    ensures DataKept(ps, ClosedFrom(ps, t, k).0)
    decreases |t| - k
  {
    hide DropOpen;
    if k < |t| {
      DropData(ps, t[k]);
      CloseData(DropOpen(ps, t[k]), t[k := None], k + 1);
    }
  }

  lemma CloneData(ps: PipeStates, t: Slots, fd: nat)
    ensures DataKept(ps, ClonedSlot(ps, t, fd).0)
  {
  }

  lemma InheritData(ps: PipeStates, t: Slots, stdin: Option<nat>, stdout: Option<nat>)
    ensures DataKept(ps, Inherited(ps, t, stdin, stdout).0)
  {
    hide InheritOne;
    InheritOneData(ps, t, StdioSlots(), stdin, 0);
    var (qs, child) := InheritOne(ps, t, StdioSlots(), stdin, 0);
    if child.Some? {
      InheritOneData(qs, t, child.value, stdout, 1);
      var rs := InheritOne(qs, t, child.value, stdout, 1).0;
      CloseData(rs, child.value, 0);
    }
  }

  lemma InheritOneData(ps: PipeStates, t: Slots, child: Slots, fd: Option<nat>, at: nat)
    ensures DataKept(ps, InheritOne(ps, t, child, fd, at).0)
  {
    hide ClonedSlot, DropOpen;
    if fd.Some? {
      CloneData(ps, t, fd.value);
      var (qs, of) := ClonedSlot(ps, t, fd.value);
      if of.Some? {
        DropData(qs, Taken(child, at).1);
        var rs := DropOpen(qs, Taken(child, at).1);
        DropData(rs, of);
      }
    }
  }

  /** Reading hands over the oldest bytes, writing adds behind the newest; the balance does not notice. */
  lemma ReadKeeps(s: System, id: Option<nat>, n: nat)
    requires SystemInv(s)
    ensures SystemInv(ReadStep(s, id, n))
  {
    hide Count, CountIn;
    if id.Some? && id.value < PIPE_MAX {
      var u := ReadStep(s, id, n);
      forall j | 0 <= j < PIPE_MAX
        ensures PipeBalanced(u.ps[j], u.tables, j)
      {
        assert PipeBalanced(s.ps[j], s.tables, j);
      }
    }
  }

  lemma WriteKeeps(s: System, id: Option<nat>, src: seq<byte>)
    requires SystemInv(s)
    ensures SystemInv(WriteStep(s, id, src))
  {
    hide Count, CountIn;
    if id.Some? && id.value < PIPE_MAX {
      var u := WriteStep(s, id, src);
      forall j | 0 <= j < PIPE_MAX
        ensures PipeBalanced(u.ps[j], u.tables, j)
      {
        assert PipeBalanced(s.ps[j], s.tables, j);
      }
    }
  }

  lemma SpawnKeeps(s: System, parent: Option<nat>, stdin: Option<nat>, stdout: Option<nat>)
    requires SystemInv(s) && Allowed(s, Spawn(parent, stdin, stdout))
    ensures SystemInv(Next(s, Spawn(parent, stdin, stdout)))
  {
    hide Balanced, Inherited;
    if parent.None? {
      PlainTable(s.ps, s.tables, StdioSlots());
    } else {
      InheritKeeps(s.ps, s.tables, s.tables[parent.value], stdin, stdout);
      InheritData(s.ps, s.tables[parent.value], stdin, stdout);
    }
  }

  lemma PipeStepKeeps(s: System, k: nat, bufOk: bool, copied: bool)
    requires SystemInv(s) && Allowed(s, SysPipe(k, bufOk, copied))
    ensures SystemInv(Next(s, SysPipe(k, bufOk, copied)))
  {
    hide Balanced, Count, CountIn, Placed, Taken, DropOpen, Dropped;
    PipeCallKeeps(s.ps, s.tables, k, copied);
    PipeCallUndone(s.ps, s.tables, s.tables[k], copied);
    PipeCallRings(s.ps, s.tables[k], copied);
  }

  lemma PipeCallRings(ps: PipeStates, t: Slots, copied: bool)
    ensures var (qs, u, r) := PipeCall(ps, t, copied);
      r.Some? ==> FindUnused(ps) < |ps| && qs == ps[FindUnused(ps) := PipeState(true, [], 1, 1)]
  {
  }

  lemma CloseStepKeeps(s: System, k: nat, fd: nat)
    requires SystemInv(s) && Allowed(s, SysClose(k, fd))
    ensures SystemInv(Next(s, SysClose(k, fd)))
  {
    hide Balanced, DropOpen;
    if fd < |s.tables[k]| {
      DropKeeps(s.ps, s.tables, k, fd);
      DropData(s.ps, s.tables[k][fd]);
    } else {
      assert s.tables[k := s.tables[k]] == s.tables;
      DropData(s.ps, None);
      NothingDropped(s.ps);
    }
  }

  lemma NothingDropped(ps: PipeStates)
    ensures DropOpen(ps, None) == ps
  {
  }

  lemma OpenedKeeps(s: System, k: nat, of: OpenFd)
    requires SystemInv(s) && Allowed(s, Opened(k, of))
    ensures SystemInv(Next(s, Opened(k, of)))
  {
    hide Count, CountIn, FindEmpty;
    var t := s.tables[k];
    var i := FindEmpty(t);
    if i < |t| {
      forall id | 0 <= id < PIPE_MAX
        ensures Shifted(s.ps[id], s.ps[id], t[i], Some(of), id)
      {
        assert PipeBalanced(s.ps[id], s.tables, id);
      }
      SetBalance(s.ps, s.ps, s.tables, k, i, Some(of));
    } else {
      assert s.tables[k := t] == s.tables;
    }
  }

  lemma NextKeeps(s: System, c: Call)
    requires SystemInv(s) && Allowed(s, c)
    ensures SystemInv(Next(s, c))
  {
    hide Balanced, ReadStep, WriteStep, ClosedFrom;
    match c
    case Spawn(parent, stdin, stdout) => SpawnKeeps(s, parent, stdin, stdout);
    case SysPipe(k, bufOk, copied) => PipeStepKeeps(s, k, bufOk, copied);
    case SysClose(k, fd) => CloseStepKeeps(s, k, fd);
    case Exit(k) =>
      CloseKeeps(s.ps, s.tables, k, 0);
      CloseData(s.ps, s.tables[k], 0);
    case Opened(k, of) => OpenedKeeps(s, k, of);
    case SysRead(k, fd, n) => ReadKeeps(s, PipeOf(s.tables[k], fd, false), n);
    case SysWrite(k, fd, src) => WriteKeeps(s, PipeOf(s.tables[k], fd, true), src);
  }

  /** The state after the calls, if each names a process that exists. */
  function Run(calls: seq<Call>): (s: Option<System>)
    ensures s.Some? ==> |s.value.logs| == PIPE_MAX
    decreases |calls|
  {
    if calls == [] then Some(Boot()) else
      match Run(calls[..|calls| - 1])
      case None => None
      case Some(s) =>
        var c := calls[|calls| - 1];
        if Allowed(s, c) then Some(Next(s, c)) else None
  }

  /** In every reachable state the counts are those of the descriptors, and each pipe's stream is intact. */
  lemma {:induction false} RunInv(calls: seq<Call>)
    requires Run(calls).Some?
    ensures SystemInv(Run(calls).value)
    decreases |calls|
  {
    hide SystemInv, Next, Allowed;
    if calls == [] {
      BootInv();
    } else {
      RunInv(calls[..|calls| - 1]);
      NextKeeps(Run(calls[..|calls| - 1]).value, calls[|calls| - 1]);
    }
  }

  /** On every reachable state: a non-empty read answers Eof exactly when nothing waits and no table holds
      a write end, and blocks exactly when nothing waits and one does; a non-empty write is refused exactly
      when no table holds a read end. */
  lemma EofMeaning(calls: seq<Call>, k: nat, fd: nat, n: nat, src: seq<byte>)
    requires Run(calls).Some? && k < |Run(calls).value.tables| && n > 0 && src != []
    requires var t := Run(calls).value.tables[k]; fd < |t| && t[fd].Some? && t[fd].value.PipeEnd?
    ensures var s := Run(calls).value;
      var id := s.tables[k][fd].value.id;
      && |s.ps| == PIPE_MAX && |s.logs| == PIPE_MAX && id < 4 && s.ps[id].used && |s.ps[id].data| <= 4096
      && (ReadAt(s.ps, id, n).1.Eof? <==> s.ps[id].data == [] && Count(s.tables, id, true) == 0)
      && (ReadAt(s.ps, id, n).1.WouldBlock? <==> s.ps[id].data == [] && Count(s.tables, id, true) > 0)
      && (WriteAt(s.ps, id, src).1.Broken? <==> Count(s.tables, id, false) == 0)
      && s.logs[id].returned + s.ps[id].data == s.logs[id].accepted
  {
    hide Count, CountIn, Run;
    RunInv(calls);
    var s := Run(calls).value;
    var x := s.tables[k][fd];
    assert Known(x);
    CountedHere(s.tables, k, fd, x.value.id, x.value.write);
    assert PipeBalanced(s.ps[x.value.id], s.tables, x.value.id);
  }

  // ---------- The table as it runs ----------

  class FdTable {
    const slots: array<Option<OpenFd>>

    constructor NewStdio()
      ensures fresh(slots) && slots[..] == StdioSlots()
    {
      slots := new Option<OpenFd>[FD_MAX](_ => None);
      new;
      slots[0], slots[1], slots[2] := Some(Stdin), Some(Stdout), Some(Stderr);
    }

    method Take(fd: nat) returns (r: Option<OpenFd>)
      modifies slots
      ensures (slots[..], r) == Taken(old(slots[..]), fd)
      ensures r == if fd < slots.Length then old(slots[fd]) else None
      ensures forall i :: 0 <= i < slots.Length ==> slots[i] == if i == fd then None else old(slots[i])
    {
      if fd >= slots.Length {
        return None;
      }
      r := slots[fd];
      slots[fd] := None;
    }

    method Alloc(of: OpenFd) returns (r: Option<nat>)
      modifies slots
      ensures (slots[..], r) == Placed(old(slots[..]), of)
      ensures r.Some? ==> r.value < slots.Length && old(slots[r.value]) == None
      ensures r.Some? ==> forall j :: 0 <= j < r.value ==> old(slots[j]).Some?
      ensures r.None? ==> forall j :: 0 <= j < slots.Length ==> old(slots[j]).Some?
      ensures forall i :: 0 <= i < slots.Length ==> slots[i] == if r == Some(i) then Some(of) else old(slots[i])
    {
      hide FindEmpty;
      var i := 0;
      while i < slots.Length
        invariant 0 <= i <= slots.Length && slots[..] == old(slots[..])
        invariant forall j :: 0 <= j < i ==> slots[j].Some?
      {
        if slots[i].None? {
          slots[i] := Some(of);
          return Some(i);
        }
        i := i + 1;
      }
      r := None;
    }

    method Replace(pipes: Pipes, fd: nat, of: OpenFd)
      requires pipes.Valid() && slots !in pipes.Repr()
      modifies slots, pipes.Repr()
      ensures pipes.Valid() && (pipes.View(), slots[..]) == Replaced(old(pipes.View()), old(slots[..]), fd, of)
      ensures forall i :: 0 <= i < slots.Length ==> slots[i] == if i == fd then Some(of) else old(slots[i])
      ensures pipes.View() == DropOpen(old(pipes.View()), if fd < slots.Length then old(slots[fd]) else Some(of))
    {
      hide Dropped, Pipes.View;
      var was := Take(fd);
      if was.Some? {
        DropOpenFd(pipes, was.value);
      }
      if fd >= slots.Length {
        DropOpenFd(pipes, of);
        return;
      }
      slots[fd] := Some(of);
    }

    method CloneSlot(pipes: Pipes, fd: nat) returns (r: Option<OpenFd>)
      requires pipes.Valid() && slots !in pipes.Repr()
      modifies pipes.Repr()
      ensures pipes.Valid() && slots[..] == old(slots[..]) && (pipes.View(), r) == ClonedSlot(old(pipes.View()), slots[..], fd)
      ensures r.Some? <==> Cloneable(old(pipes.View()), slots[..], fd, 0)
      ensures if r.Some? then fd < slots.Length && r == slots[fd] && OneMore(old(pipes.View()), pipes.View(), r.value)
              else pipes.View() == old(pipes.View())
    {
      hide Cloned, Pipes.View, Cloneable, OneMore;
      CloneMeaning(pipes.View(), slots[..], fd);
      if fd >= slots.Length || slots[fd].None? {
        return None;
      }
      match slots[fd].value
      case Dir(_, _) => return None;
      case PipeEnd(id, write) =>
        var ok := pipes.CloneEnd(id, write);
        return if ok then Some(PipeEnd(id, write)) else None;
      case _ => return slots[fd];
    }

    method CloseAll(pipes: Pipes)
      requires pipes.Valid() && slots !in pipes.Repr()
      modifies slots, pipes.Repr()
      ensures pipes.Valid() && (pipes.View(), slots[..]) == ClosedFrom(old(pipes.View()), old(slots[..]), 0)
      ensures forall i :: 0 <= i < slots.Length ==> slots[i] == None
    {
      hide Dropped, Pipes.View, ClosedFrom, DropOpen, Taken;
      ClosedEmpty(pipes.View(), slots[..], 0);
      var k := 0;
      while k < slots.Length
        invariant 0 <= k <= slots.Length && pipes.Valid()
        invariant ClosedFrom(pipes.View(), slots[..], k) == ClosedFrom(old(pipes.View()), old(slots[..]), 0)
      {
        ghost var ps, t := pipes.View(), slots[..];
        ClosedStep(ps, t, k);
        var of := Take(k);
        assert slots[..] == t[k := None];
        if of.Some? {
          DropOpenFd(pipes, of.value);
        } else {
          NothingDropped(ps);
        }
        k := k + 1;
      }
      ClosedEnd(pipes.View(), slots[..], k);
    }

    /** `None` in the answer is the failing spawn; everything cloned for it is given back. */
    method InheritFrom(pipes: Pipes, stdin: Option<nat>, stdout: Option<nat>) returns (child: FdTable, ok: bool)
      requires pipes.Valid() && slots !in pipes.Repr()
      modifies pipes.Repr()
      ensures pipes.Valid() && fresh(child) && fresh(child.slots)
      ensures (pipes.View(), if ok then Some(child.slots[..]) else None) ==
        Inherited(old(pipes.View()), old(slots[..]), stdin, stdout)
      ensures ok <==> Inheritable(old(pipes.View()), old(slots[..]), stdin, stdout)
      ensures ok ==> IsChild(old(slots[..]), stdin, stdout, child.slots[..])
    {
      hide Dropped, Cloned, Pipes.View, ClosedFrom, StdioSlots, Inheritable, IsChild;
      InheritTable(pipes.View(), slots[..], stdin, stdout);
      child := new FdTable.NewStdio();
      if stdin.Some? {
        var of := CloneSlot(pipes, stdin.value);
        if of.None? {
          return child, false;
        }
        child.Replace(pipes, 0, of.value);
      }
      if stdout.Some? {
        var of := CloneSlot(pipes, stdout.value);
        if of.None? {
          child.CloseAll(pipes);
          return child, false;
        }
        child.Replace(pipes, 1, of.value);
      }
      ok := true;
    }
  }

  method DropOpenFd(pipes: Pipes, of: OpenFd)
    requires pipes.Valid()
    modifies pipes.Repr()
    ensures pipes.Valid() && pipes.View() == DropOpen(old(pipes.View()), Some(of))
  {
    hide Dropped, Pipes.View;
    if of.PipeEnd? {
      pipes.DropEnd(of.id, of.write);
    }
  }

  /** `sys_close` on the caller's table; descriptors 0 to 2 stay. */
  method SysCloseFd(pipes: Pipes, t: FdTable, fd: nat) returns (ok: bool)
    requires pipes.Valid() && t.slots !in pipes.Repr()
    modifies t.slots, pipes.Repr()
    ensures pipes.Valid() && ok == (fd > 2 && old(IsOpen(t.slots[..], fd)))
    ensures fd <= 2 ==> pipes.View() == old(pipes.View()) && t.slots[..] == old(t.slots[..])
    ensures fd > 2 ==> forall i :: 0 <= i < t.slots.Length ==> t.slots[i] == if i == fd then None else old(t.slots[i])
    ensures fd > 2 ==> pipes.View() == DropOpen(old(pipes.View()), if fd < t.slots.Length then old(t.slots[fd]) else None)
  {
    hide Dropped, Pipes.View;
    if fd <= 2 {
      return false;
    }
    var of := t.Take(fd);
    if of.Some? {
      DropOpenFd(pipes, of.value);
    }
    ok := of.Some?;
  }

  predicate IsOpen(t: Slots, fd: nat) {
    fd < |t| && t[fd].Some?
  }

  method PairFds(t: FdTable, id: nat) returns (r: Option<(nat, nat)>)
    modifies t.slots
    ensures (t.slots[..], r) == Pair(old(t.slots[..]), id)
  {
    hide FindEmpty;
    var rd := t.Alloc(PipeEnd(id, false));
    if rd.None? {
      return None;
    }
    var wr := t.Alloc(PipeEnd(id, true));
    if wr.None? {
      var _ := t.Take(rd.value);
      return None;
    }
    r := Some((rd.value, wr.value));
  }

  method GiveBack(pipes: Pipes, t: FdTable, fd: nat)
    requires pipes.Valid() && t.slots !in pipes.Repr()
    modifies t.slots, pipes.Repr()
    ensures pipes.Valid() && (pipes.View(), t.slots[..]) == GivenBack(old(pipes.View()), old(t.slots[..]), fd)
  {
    hide Dropped, Pipes.View;
    var x := t.Take(fd);
    if x.Some? {
      DropOpenFd(pipes, x.value);
    }
  }

  /** `sys_pipe` on the caller's table; `bufOk` and `copied` are the outcomes of `user_slice_ok` and
      `copy_to_user`. A bad buffer is refused before anything is allocated. */
  method SysPipeFds(pipes: Pipes, t: FdTable, bufOk: bool, copied: bool) returns (r: Option<(nat, nat)>)
    requires pipes.Valid() && t.slots !in pipes.Repr()
    modifies t.slots, pipes.Repr()
    ensures pipes.Valid()
    ensures (pipes.View(), t.slots[..], r) ==
      if bufOk then PipeCall(old(pipes.View()), old(t.slots[..]), copied) else (old(pipes.View()), old(t.slots[..]), None)
  {
    hide Dropped, Allocated, Pipes.View, Pair, GivenBack;
    if !bufOk {
      return None;
    }
    var id := pipes.Alloc();
    if id.None? {
      return None;
    }
    r := PairFds(t, id.value);
    if r.None? {
      pipes.DropEnd(id.value, false);
      pipes.DropEnd(id.value, true);
    } else if !copied {
      GiveBack(pipes, t, r.value.0);
      GiveBack(pipes, t, r.value.1);
      r := None;
    }
  }
}
