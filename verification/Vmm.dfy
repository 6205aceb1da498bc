/**
 Physical memory and address spaces as the ELF loader sees them: frame contents, the user half of
 each page table as a map, and `new_user_l4` and `map_user_in` of kernel/src/mem/vmm.rs. How many
 table frames a mapping needs, and what is written into table frames, is left open.
 */
module Vmm {
  import opened Bytes
  import opened Pmm

  const USER_CANON_MAX: nat := 0x8000_0000_0000

  type Page = s: seq<byte> | |s| == FRAME_SIZE witness Zeros(FRAME_SIZE)

  datatype Mapping = Mapping(frame: nat, writable: bool, executable: bool)

  /** The user pages of one L4, by page address. */
  type Space = map<int, Mapping>

  datatype PageSpec = PageSpec(writable: bool, executable: bool, bytes: Page)

  /** An address space as a process sees it: what each page holds and allows. */
  function View(space: Space, mem: seq<Page>): (v: map<int, PageSpec>) {
    map p | p in space && space[p].frame < |mem| :: PageSpec(space[p].writable, space[p].executable, mem[space[p].frame])
  }

  /** `mem` and `was` differ only in frames of `touched`. */
  ghost predicate OnlyTouched(was: seq<Page>, mem: seq<Page>, touched: set<nat>) {
    |mem| == |was| && forall f :: 0 <= f < |mem| && f !in touched ==> mem[f] == was[f]
  }

  function Elements(s: seq<nat>): (r: set<nat>) {
    set x | x in s
  }

  ghost predicate Distinct(s: seq<nat>) {
    forall i, j :: 0 <= i < j < |s| ==> s[i] != s[j]
  }

  /** `more` names frames that were free and no longer are, once each. */
  ghost predicate Took(before: set<nat>, after: set<nat>, more: seq<nat>) {
    && Distinct(more) && Elements(more) <= before && after == before - Elements(more)
    && (forall f :: f in more ==> f < MAX_FRAMES)
  }

  /** Memory changed at most in the L4 and in table frames. */
  ghost predicate TablesOnly(was: seq<Page>, mem: seq<Page>, l4: nat, pts: seq<nat>) {
    OnlyTouched(was, mem, Elements(pts) + {l4})
  }

  lemma TakeOne(before: set<nat>, middle: set<nat>, f: nat, more: seq<nat>)
    requires Took(before, middle, more) && f in middle && f < MAX_FRAMES
    ensures Took(before, middle - {f}, more + [f])
  {
    assert forall x :: x in more + [f] <==> x in more || x == f;
    assert forall i :: 0 <= i < |more| ==> more[i] in Elements(more);
  }

  lemma TouchMore(was: seq<Page>, mem: seq<Page>, after: seq<Page>, more: seq<nat>, f: nat)
    requires OnlyTouched(was, mem, Elements(more)) && OnlyTouched(mem, after, {f})
    ensures OnlyTouched(was, after, Elements(more + [f]))
  {
    assert forall x :: x in more + [f] <==> x in more || x == f;
  }

  lemma TouchTables(was: seq<Page>, mid: seq<Page>, end: seq<Page>, mem: seq<Page>, l4: nat, pts: seq<nat>, more: seq<nat>)
    requires OnlyTouched(was, mid, Elements(more)) && OnlyTouched(mid, end, {l4}) && OnlyTouched(end, mem, Elements(pts))
    ensures TablesOnly(was, mem, l4, pts + more)
  {
    assert forall x :: x in pts + more <==> x in pts || x in more;
  }

  class Machine {
    const pmm: Allocator
    var mem: seq<Page>
    var spaces: map<int, Space>
    /** The L4 in use, and the kernel's own. */
    var cr3: nat
    const kernelCr3: nat
    /** How many allocations have found no free frame so far. */
    ghost var misses: nat

    ghost predicate Valid()
      reads this, pmm, pmm.bitmap
    {
      pmm.Valid() && |mem| == MAX_FRAMES
    }

    constructor (pmm: Allocator, kernelCr3: nat)
      requires pmm.Valid()
      ensures this.pmm == pmm && Valid() && spaces == map[] && misses == 0 && cr3 == this.kernelCr3 == kernelCr3
    {
      this.pmm := pmm;
      mem := seq(MAX_FRAMES, _ => Zeros(FRAME_SIZE));
      spaces := map[];
      misses := 0;
      cr3, this.kernelCr3 := kernelCr3, kernelCr3;
    }

    method AllocFrame() returns (r: Option<nat>)
      requires Valid()
      modifies this`misses, pmm, pmm.bitmap
      ensures Valid() && misses >= old(misses)
      ensures r.None? ==> misses > old(misses) && pmm.frames == old(pmm.frames) == {}
      ensures r.Some? ==> r.value in old(pmm.frames) && pmm.frames == old(pmm.frames) - {r.value} && r.value < MAX_FRAMES
    {
      r := pmm.Alloc();
      misses := misses + if r.None? then 1 else 0;
    }

    /** Table frames hold page-table entries, which this model does not look into. */
    method WriteTable(f: nat)
      requires Valid() && f < MAX_FRAMES
      modifies this`mem
      ensures Valid() && OnlyTouched(old(mem), mem, {f})
    {
      var entries: Page := *;
      mem := mem[f := entries];
    }

    method NewUserL4() returns (r: Option<nat>)
      requires Valid()
      modifies this`mem, this`spaces, this`misses, pmm, pmm.bitmap
      ensures Valid() && misses >= old(misses)
      ensures r.None? ==> misses > old(misses) && pmm.frames == old(pmm.frames) == {} && spaces == old(spaces) && mem == old(mem)
      ensures r.Some? ==> r.value in old(pmm.frames) && pmm.frames == old(pmm.frames) - {r.value} && r.value < MAX_FRAMES
      ensures r.Some? ==> spaces == old(spaces)[r.value := map[]] && OnlyTouched(old(mem), mem, {r.value})
    {
      r := AllocFrame();
      if r.Some? {
        WriteTable(r.value);
        spaces := spaces[r.value := map[]];
      }
    }

    /** The table frames one mapping needs are handed back, also when it fails. */
    method TableFrames() returns (ok: bool, more: seq<nat>)
      requires Valid()
      modifies this`misses, this`mem, pmm, pmm.bitmap
      ensures Valid() && misses >= old(misses) && (!ok ==> misses > old(misses))
      ensures Took(old(pmm.frames), pmm.frames, more) && OnlyTouched(old(mem), mem, Elements(more))
    {
      more := [];
      ok := true;
      while ok && |more| < 3
        invariant Valid() && misses >= old(misses) && (!ok ==> misses > old(misses))
        invariant Took(old(pmm.frames), pmm.frames, more) && OnlyTouched(old(mem), mem, Elements(more))
        decreases ok, 3 - |more|
      {
        hide Took, OnlyTouched, Elements;
        if * {
          break;
        }
        ghost var middle, mid := pmm.frames, mem;
        var f := AllocFrame();
        if f.Some? {
          TakeOne(old(pmm.frames), middle, f.value, more);
          WriteTable(f.value);
          TouchMore(old(mem), mid, mem, more, f.value);
          more := more + [f.value];
        } else {
          ok := false;
        }
      }
    }

    /** `map_user_in`; tables already in `pts` may be written too. */
    method MapUserIn(l4: nat, virt: nat, frame: nat, writable: bool, executable: bool, pts: seq<nat>)
      returns (ok: bool, more: seq<nat>)
      requires Valid() && l4 in spaces && l4 < MAX_FRAMES && forall f :: f in pts ==> f < MAX_FRAMES
      modifies this`mem, this`spaces, this`misses, pmm, pmm.bitmap
      ensures Valid() && misses >= old(misses)
      ensures Took(old(pmm.frames), pmm.frames, more) && TablesOnly(old(mem), mem, l4, pts + more)
      ensures ok ==> virt < USER_CANON_MAX && virt % FRAME_SIZE == 0 && virt !in old(spaces[l4])
      ensures spaces == if ok then old(spaces)[l4 := old(spaces[l4])[virt := Mapping(frame, writable, executable)]] else old(spaces)
      ensures !ok && misses == old(misses) ==> virt >= USER_CANON_MAX || virt % FRAME_SIZE != 0 || virt in old(spaces[l4])
    {
      if virt >= USER_CANON_MAX || virt % FRAME_SIZE != 0 {
        return false, [];
      }
      hide Took, OnlyTouched, TablesOnly, Elements;
      ok, more := TableFrames();
      ghost var mid := mem;
      WriteTable(l4);
      ghost var end := mem;
      WriteTables(pts);
      TouchTables(old(mem), mid, end, mem, l4, pts, more);
      if ok {
        if virt in spaces[l4] {
          ok := false;
        } else {
          spaces := spaces[l4 := spaces[l4][virt := Mapping(frame, writable, executable)]];
        }
      }
    }

    method WriteTables(pts: seq<nat>)
      requires Valid() && forall f :: f in pts ==> f < MAX_FRAMES
      modifies this`mem
      ensures Valid() && OnlyTouched(old(mem), mem, Elements(pts))
    {
      var k := 0;
      while k < |pts|
        invariant 0 <= k <= |pts| && Valid() && OnlyTouched(old(mem), mem, Elements(pts))
      {
        assert pts[k] in pts;
        if * {
          WriteTable(pts[k]);
        }
        k := k + 1;
      }
    }
  }
}
