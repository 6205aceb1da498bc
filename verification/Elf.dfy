/**
 The ELF loader of kernel/src/task/elfload.rs. The header parse is an input; program headers are
 followed exactly as the source follows them.
 */
module Elf {
  import opened Bytes
  import opened Pmm
  import opened Vmm

  const PT_LOAD: nat := 1
  const PT_DYNAMIC: nat := 2
  const PF_X: bv32 := 1
  const PF_W: bv32 := 2
  const ET_EXEC: nat := 2
  const EM_X86_64: nat := 62
  const USER_STACK_BASE: nat := 0x7FFF_0000
  const USER_STACK_PAGES: nat := 16
  const USER_STACK_TOP: nat := 0x8000_0000

  datatype Phdr = Phdr(ptype: nat, flags: bv32, offset: nat, vaddr: nat, filesz: nat, memsz: nat)

  /** What the ELF library makes of the file's bytes. */
  datatype Parse = Unparsable | Parsed(machine: nat, etype: nat, entry: nat, segments: Option<seq<Phdr>>)

  datatype Mapped = Mapped(va: nat, frame: nat)

  datatype Image = Image(entry: nat, l4: nat, pages: seq<Mapped>, pts: seq<nat>)

  // ---------- What an image should show ----------

  /** `addr & !(FRAME_SIZE - 1)` */
  function PageFloor(addr: nat): nat { addr - addr % FRAME_SIZE }

  predicate Writable(ph: Phdr) { ph.flags & PF_W != 0 }
  predicate Executable(ph: Phdr) { ph.flags & PF_X != 0 }

  /** The pages a segment covers. */
  predicate SegPage(ph: Phdr, p: int) {
    p % FRAME_SIZE == 0 && PageFloor(ph.vaddr) <= p < ph.vaddr + ph.memsz
  }

  predicate InFile(bytes: seq<byte>, ph: Phdr) {
    ph.filesz == 0 || ph.offset + ph.filesz <= |bytes|
  }

  /** The byte of the segment's pages at `addr`: the file's below `p_filesz`, zero elsewhere. */
  function SegByte(bytes: seq<byte>, ph: Phdr, addr: nat): byte {
    if ph.vaddr <= addr < ph.vaddr + ph.filesz && ph.offset + (addr - ph.vaddr) < |bytes|
    then bytes[ph.offset + (addr - ph.vaddr)] else 0
  }

  function SegBytes(bytes: seq<byte>, ph: Phdr, p: nat): (r: seq<byte>)
    ensures |r| == FRAME_SIZE && forall o :: 0 <= o < FRAME_SIZE ==> r[o] == SegByte(bytes, ph, p + o)
  {
    seq<byte>(FRAME_SIZE, o requires 0 <= o => SegByte(bytes, ph, p + o))
  }

  function SegSpec(bytes: seq<byte>, ph: Phdr, p: nat): PageSpec {
    PageSpec(Writable(ph), Executable(ph), SegBytes(bytes, ph, p))
  }

  /** The checks `map_segment` makes on one segment. */
  predicate SegOk(bytes: seq<byte>, ph: Phdr) {
    && ph.filesz <= ph.memsz && !(Writable(ph) && Executable(ph))
    && ph.vaddr + ph.memsz <= USER_CANON_MAX && InFile(bytes, ph)
  }

  /** The pages of a segment below `upto`. */
  function SegImage(bytes: seq<byte>, ph: Phdr, upto: nat): map<int, PageSpec> {
    map p | 0 <= p < upto && SegPage(ph, p) :: SegSpec(bytes, ph, p)
  }

  function SegPages(bytes: seq<byte>, ph: Phdr): map<int, PageSpec> {
    SegImage(bytes, ph, ph.vaddr + ph.memsz)
  }

  ghost predicate SegFree(ph: Phdr, v: map<int, PageSpec>) {
    forall p :: SegPage(ph, p) ==> p !in v
  }

  const STACK_SPEC: PageSpec := PageSpec(true, false, Zeros(FRAME_SIZE))

  predicate StackPage(p: int) {
    p % FRAME_SIZE == 0 && USER_STACK_BASE <= p < USER_STACK_TOP
  }

  /** The first `n` pages of the stack. */
  function StackImage(n: nat): map<int, PageSpec> {
    map p | USER_STACK_BASE <= p < USER_STACK_BASE + n * FRAME_SIZE && StackPage(p) :: STACK_SPEC
  }

  /** All PT_LOAD segments together. */
  function SegsImage(bytes: seq<byte>, segs: seq<Phdr>): map<int, PageSpec>
    decreases |segs|
  {
    if segs == [] then map[] else
      var v, ph := SegsImage(bytes, segs[..|segs| - 1]), segs[|segs| - 1];
      if ph.ptype == PT_LOAD then v + SegPages(bytes, ph) else v
  }

  /** No PT_DYNAMIC, and every PT_LOAD passes its checks on pages no earlier one has. */
  ghost predicate SegsOk(bytes: seq<byte>, segs: seq<Phdr>)
    decreases |segs|
  {
    segs == [] ||
    var before, ph := segs[..|segs| - 1], segs[|segs| - 1];
    && SegsOk(bytes, before) && ph.ptype != PT_DYNAMIC
    && (ph.ptype == PT_LOAD ==> SegOk(bytes, ph) && SegFree(ph, SegsImage(bytes, before)))
  }

  predicate HasLoad(segs: seq<Phdr>) {
    exists k :: 0 <= k < |segs| && segs[k].ptype == PT_LOAD
  }

  predicate Headers(parsed: Parse) {
    parsed.Parsed? && parsed.machine == EM_X86_64 && parsed.etype == ET_EXEC && parsed.segments.Some?
  }

  /** The program headers `load` accepts when memory suffices. */
  ghost predicate Acceptable(bytes: seq<byte>, segs: seq<Phdr>) {
    SegsOk(bytes, segs) && HasLoad(segs) && (forall p :: StackPage(p) ==> p !in SegsImage(bytes, segs))
  }

  /** The files `load` accepts when memory suffices. */
  ghost predicate Loadable(bytes: seq<byte>, parsed: Parse) {
    Headers(parsed) && Acceptable(bytes, parsed.segments.value)
  }

  /** The two early returns that keep the L4. */
  predicate KeepsL4(parsed: Parse) {
    parsed.Unparsable? || (parsed.machine == EM_X86_64 && parsed.etype == ET_EXEC && parsed.segments.None?)
  }

  // ---------- Which frames an image owns ----------

  function PageFrames(pages: seq<Mapped>): set<nat> {
    set i | 0 <= i < |pages| :: pages[i].frame
  }

  function Owned(l4: nat, pages: seq<Mapped>, pts: seq<nat>): set<nat> {
    {l4} + PageFrames(pages) + Elements(pts)
  }

  /** Page frames, table frames and the L4 are pairwise distinct. */
  ghost predicate Apart(l4: nat, pages: seq<Mapped>, pts: seq<nat>) {
    && (forall i, j :: 0 <= i < j < |pages| ==> pages[i].frame != pages[j].frame)
    && Distinct(pts) && l4 !in pts
    && (forall i :: 0 <= i < |pages| ==> pages[i].frame != l4 && pages[i].frame !in pts)
  }

  /** The frames once free are now those free, those in hand and those the image owns, each in one place. */
  ghost predicate Held(was: set<nat>, free: set<nat>, spare: set<nat>, l4: nat, pages: seq<Mapped>, pts: seq<nat>) {
    && Apart(l4, pages, pts)
    && free !! spare !! Owned(l4, pages, pts)
    && was == free + spare + Owned(l4, pages, pts)
    && (forall f :: f in was ==> f < MAX_FRAMES)
  }

  lemma PushFrames(pages: seq<Mapped>, m: Mapped)
    ensures PageFrames(pages + [m]) == PageFrames(pages) + {m.frame}
  {
    var all := pages + [m];
    assert all[|pages|] == m;
    forall i | 0 <= i < |pages|
      ensures pages[i].frame in PageFrames(all)
    {
      assert all[i] == pages[i];
    }
  }

  lemma HeldTables(was: set<nat>, free: set<nat>, spare: set<nat>, l4: nat, pages: seq<Mapped>, pts: seq<nat>, more: seq<nat>)
    requires Held(was, free, spare, l4, pages, pts) && Distinct(more) && Elements(more) <= free
    ensures Held(was, free - Elements(more), spare, l4, pages, pts + more)
  {
    assert forall x :: x in pts + more <==> x in pts || x in more;
    assert Elements(pts + more) == Elements(pts) + Elements(more);
    forall i | 0 <= i < |pages|
      ensures pages[i].frame !in more
    {
      assert pages[i].frame in PageFrames(pages);
      assert pages[i].frame !in Elements(more);
    }
    assert l4 !in Elements(more);
    forall i, j | 0 <= i < |pts| && 0 <= j < |more|
      ensures pts[i] != more[j]
    {
      assert pts[i] in Elements(pts) && more[j] in Elements(more);
    }
  }

  lemma HeldPush(was: set<nat>, free: set<nat>, m: Mapped, l4: nat, pages: seq<Mapped>, pts: seq<nat>)
    requires Held(was, free, {m.frame}, l4, pages, pts)
    ensures Held(was, free, {}, l4, pages + [m], pts)
  {
    PushFrames(pages, m);
    forall i | 0 <= i < |pages|
      ensures pages[i].frame != m.frame
    {
      assert pages[i].frame in PageFrames(pages);
    }
    assert m.frame !in Elements(pts);
  }

  // ---------- The page list against the page table ----------

  /** `frame_at`: the first entry for `p`, or the number of entries. */
  function FindPage(pages: seq<Mapped>, p: int): (r: nat)
    ensures r <= |pages| && (forall j :: 0 <= j < r ==> pages[j].va != p) && (r < |pages| ==> pages[r].va == p)
  {
    if pages == [] || pages[0].va == p then 0 else 1 + FindPage(pages[1..], p)
  }

  /** The list names each mapped page once, with its frame. */
  ghost predicate Tracks(space: Space, pages: seq<Mapped>) {
    && (forall i :: 0 <= i < |pages| ==> pages[i].va in space && space[pages[i].va].frame == pages[i].frame)
    && (forall i, j :: 0 <= i < j < |pages| ==> pages[i].va != pages[j].va)
    && (forall p :: p in space ==> FindPage(pages, p) < |pages|)
  }

  lemma TracksPush(space: Space, pages: seq<Mapped>, m: Mapped, w: bool, x: bool)
    requires Tracks(space, pages) && m.va !in space
    ensures Tracks(space[m.va := Mapping(m.frame, w, x)], pages + [m])
  {
    hide FindPage;
    var all := pages + [m];
    forall p | p == m.va || p in space
      ensures FindPage(all, p) < |all|
    {
      assert all[if p == m.va then |pages| else FindPage(pages, p)].va == p;
    }
  }

  /** A mapped page's frame is one of the image's. */
  lemma TrackedFrame(space: Space, pages: seq<Mapped>, p: int)
    requires Tracks(space, pages) && p in space
    ensures space[p].frame in PageFrames(pages)
  {
    assert pages[FindPage(pages, p)].va == p;
  }

  /** Memory changed outside the page frames shows no change. */
  lemma ViewKept(space: Space, pages: seq<Mapped>, was: seq<Page>, mem: seq<Page>, touched: set<nat>)
    requires Tracks(space, pages) && OnlyTouched(was, mem, touched) && touched !! PageFrames(pages)
    ensures View(space, mem) == View(space, was)
  {
    forall p | p in space && space[p].frame < |mem|
      ensures mem[space[p].frame] == was[space[p].frame]
    {
      TrackedFrame(space, pages, p);
    }
  }

  /** A page mapped: the view gains it, whatever was written to table frames. */
  lemma ViewPush(space: Space, pages: seq<Mapped>, was: seq<Page>, mem: seq<Page>, touched: set<nat>, va: int, e: Mapping)
    requires Tracks(space, pages) && OnlyTouched(was, mem, touched) && touched !! PageFrames(pages) + {e.frame}
    requires e.frame < |was|
    ensures View(space[va := e], mem) == View(space, was)[va := PageSpec(e.writable, e.executable, was[e.frame])]
  {
    hide Tracks;
    ViewKept(space, pages, was, mem, touched);
    assert mem[e.frame] == was[e.frame];
  }

  // ---------- The loader ----------

  /** Between two pages: frames accounted for, list and table agreeing. */
  ghost predicate Sound(was: set<nat>, free: set<nat>, spare: set<nat>, l4: nat, pages: seq<Mapped>,
                        pts: seq<nat>, space: Space) {
    Held(was, free, spare, l4, pages, pts) && Tracks(space, pages)
  }

  ghost predicate Building(was: set<nat>, free: set<nat>, spare: set<nat>, l4: nat, pages: seq<Mapped>, pts: seq<nat>,
                           spaces: map<int, Space>)
  {
    l4 in spaces && Sound(was, free, spare, l4, pages, pts, spaces[l4])
  }

  /** What the address space under `l4` shows. */
  ghost function Shown(spaces: map<int, Space>, l4: nat, mem: seq<Page>): map<int, PageSpec> {
    if l4 in spaces then View(spaces[l4], mem) else map[]
  }

  /** Nothing outside `was` has changed: neither memory nor another address space. */
  ghost predicate Isolated(was: set<nat>, mem: seq<Page>, spaces: map<int, Space>, mem': seq<Page>, spaces': map<int, Space>) {
    && OnlyTouched(mem, mem', was)
    && (forall l: nat :: l in spaces && l !in was ==> l in spaces' && spaces'[l] == spaces[l])
  }

  lemma IsolatedThen(was: set<nat>, mem: seq<Page>, spaces: map<int, Space>, mid: seq<Page>, between: map<int, Space>,
                     mem': seq<Page>, spaces': map<int, Space>)
    requires Isolated(was, mem, spaces, mid, between) && Isolated(was, mid, between, mem', spaces')
    ensures Isolated(was, mem, spaces, mem', spaces')
  {
  }

  lemma IsolatedStart(was: set<nat>, mem: seq<Page>, spaces: map<int, Space>)
    ensures Isolated(was, mem, spaces, mem, spaces)
  {
  }

  /** What one mapping touches belongs to the image. */
  lemma MappingIsolated(was: set<nat>, free: set<nat>, left: set<nat>, spare: set<nat>, l4: nat,
                        pages: seq<Mapped>, pts: seq<nat>,
                        more: seq<nat>, space: Space, before: seq<Page>, after: seq<Page>, spaces: map<int, Space>, now: Space)
    requires Sound(was, free, spare, l4, pages, pts, space) && Took(free, left, more)
    requires TablesOnly(before, after, l4, pts + more)
    ensures Isolated(was, before, spaces, after, spaces) && Isolated(was, before, spaces, after, spaces[l4 := now])
  {
    hide PageFrames, Tracks, Apart;
    assert l4 in Owned(l4, pages, pts);
    forall x | x in pts + more
      ensures x in was
    {
      if x in pts {
        assert x in Owned(l4, pages, pts);
      } else {
        assert x in Elements(more);
      }
    }
  }

  /** Filling the frame in hand touches nothing outside. */
  lemma FillIsolated(was: set<nat>, free: set<nat>, f: nat, l4: nat, pages: seq<Mapped>, pts: seq<nat>, space: Space,
                     before: seq<Page>, after: seq<Page>, spaces: map<int, Space>)
    requires Sound(was, free, {f}, l4, pages, pts, space) && OnlyTouched(before, after, {f})
    ensures Isolated(was, before, spaces, after, spaces)
  {
    hide Apart, Tracks, Owned;
    assert f in was;
  }

  lemma SoundBounds(was: set<nat>, free: set<nat>, spare: set<nat>, l4: nat, pages: seq<Mapped>, pts: seq<nat>,
                    space: Space, mem: seq<Page>)
    requires Sound(was, free, spare, l4, pages, pts, space) && |mem| == MAX_FRAMES
    ensures l4 < MAX_FRAMES && (forall f :: f in PageFrames(pages) + spare ==> f < MAX_FRAMES)
    ensures forall f :: f in pts ==> f < MAX_FRAMES
    ensures Elements(pts) + {l4} !! PageFrames(pages) + spare && free !! PageFrames(pages) + spare
    ensures View(space, mem).Keys == space.Keys
  {
    hide PageFrames;
    assert l4 in Owned(l4, pages, pts);
    assert forall f :: f in pts ==> f in Elements(pts);
    forall f | f in PageFrames(pages)
      ensures f !in Elements(pts) && f != l4
    {
      OwnedPage(l4, pages, pts, f);
    }
    forall p | p in space
      ensures space[p].frame < |mem|
    {
      TrackedFrame(space, pages, p);
      assert space[p].frame in was;
    }
  }

  lemma OwnedPage(l4: nat, pages: seq<Mapped>, pts: seq<nat>, f: nat)
    requires Apart(l4, pages, pts) && f in PageFrames(pages)
    ensures f !in Elements(pts) && f != l4
  {
  }

  /** What a caller of `map_user_in` needs to know. */
  lemma SoundSizes(was: set<nat>, free: set<nat>, spare: set<nat>, l4: nat, pages: seq<Mapped>, pts: seq<nat>,
                   space: Space, mem: seq<Page>)
    requires Sound(was, free, spare, l4, pages, pts, space) && |mem| == MAX_FRAMES
    ensures l4 < MAX_FRAMES && (forall f :: f in pts ==> f < MAX_FRAMES)
    ensures forall p :: p in View(space, mem) <==> p in space
  {
    SoundBounds(was, free, spare, l4, pages, pts, space, mem);
  }

  lemma Placed(was: set<nat>, free: set<nat>, left: set<nat>, l4: nat, pages: seq<Mapped>, pts: seq<nat>, more: seq<nat>,
               space: Space, before: seq<Page>, after: seq<Page>, m: Mapped, w: bool, x: bool)
    requires Sound(was, free, {m.frame}, l4, pages, pts, space) && Took(free, left, more)
    requires m.va !in space && |before| == MAX_FRAMES && TablesOnly(before, after, l4, pts + more)
    ensures m.frame < MAX_FRAMES
    ensures Sound(was, left, {}, l4, pages + [m], pts + more, space[m.va := Mapping(m.frame, w, x)])
    ensures View(space[m.va := Mapping(m.frame, w, x)], after) == View(space, before)[m.va := PageSpec(w, x, before[m.frame])]
  {
    HeldTables(was, free, {m.frame}, l4, pages, pts, more);
    SoundBounds(was, left, {m.frame}, l4, pages, pts + more, space, before);
    hide Held, Tracks, View, Elements, PageFrames;
    HeldPush(was, left, m, l4, pages, pts + more);
    TracksPush(space, pages, m, w, x);
    ViewPush(space, pages, before, after, Elements(pts + more) + {l4}, m.va, Mapping(m.frame, w, x));
  }

  lemma NotPlaced(was: set<nat>, free: set<nat>, left: set<nat>, l4: nat, pages: seq<Mapped>, pts: seq<nat>, more: seq<nat>,
                  space: Space, before: seq<Page>, after: seq<Page>, frame: nat)
    requires Sound(was, free, {frame}, l4, pages, pts, space) && Took(free, left, more)
    requires |before| == MAX_FRAMES && TablesOnly(before, after, l4, pts + more)
    ensures Sound(was, left + {frame}, {}, l4, pages, pts + more, space)
    ensures frame < MAX_FRAMES && View(space, after) == View(space, before)
  {
    HeldTables(was, free, {frame}, l4, pages, pts, more);
    SoundBounds(was, left, {frame}, l4, pages, pts + more, space, before);
    hide Tracks, View, Elements, PageFrames;
    ViewKept(space, pages, before, after, Elements(pts + more) + {l4});
  }

  /** `map_user_in`, then the bookkeeping both loops share: the frame goes on the list, or back to the pool. */
  method PlacePage(m: Machine, l4: nat, va: nat, frame: nat, writable: bool, executable: bool,
                   pages: seq<Mapped>, pts: seq<nat>, ghost was: set<nat>)
    returns (ok: bool, pages': seq<Mapped>, pts': seq<nat>)
    requires m.Valid() && Building(was, m.pmm.frames, {frame}, l4, pages, pts, m.spaces) && frame < MAX_FRAMES
    modifies m`mem, m`spaces, m`misses, m.pmm, m.pmm.bitmap
    ensures m.Valid() && Building(was, m.pmm.frames, {}, l4, pages', pts', m.spaces) && m.misses >= old(m.misses)
    ensures pages' == pages + if ok then [Mapped(va, frame)] else []
    ensures Isolated(was, old(m.mem), old(m.spaces), m.mem, m.spaces)
    ensures var v := old(Shown(m.spaces, l4, m.mem));
      && Shown(m.spaces, l4, m.mem) == (if ok then v[va := PageSpec(writable, executable, old(m.mem[frame]))] else v)
      && (ok ==> va !in v)
      && (!ok && m.misses == old(m.misses) ==> va >= USER_CANON_MAX || va % FRAME_SIZE != 0 || va in v)
  {
    hide Sound, View, PageFrames, Took, TablesOnly, Isolated, Allocator.Bits;
    SoundSizes(was, m.pmm.frames, {frame}, l4, pages, pts, m.spaces[l4], m.mem);
    ghost var free, space, mem := m.pmm.frames, m.spaces[l4], m.mem;
    var more;
    ok, more := m.MapUserIn(l4, va, frame, writable, executable, pts);
    pts' := pts + more;
    MappingIsolated(was, free, m.pmm.frames, {frame}, l4, pages, pts, more, space, mem, m.mem, old(m.spaces), m.spaces[l4]);
    if ok {
      pages' := pages + [Mapped(va, frame)];
      Placed(was, free, m.pmm.frames, l4, pages, pts, more, space, mem, m.mem, Mapped(va, frame), writable, executable);
    } else {
      NotPlaced(was, free, m.pmm.frames, l4, pages, pts, more, space, mem, m.mem, frame);
      m.pmm.Free(frame);
      pages' := pages;
    }
  }

  lemma SoundAlloc(was: set<nat>, free: set<nat>, l4: nat, pages: seq<Mapped>, pts: seq<nat>, space: Space, f: nat)
    requires Sound(was, free, {}, l4, pages, pts, space) && f in free
    ensures Sound(was, free - {f}, {f}, l4, pages, pts, space)
  {
    hide PageFrames, Elements, Apart, Tracks;
  }

  lemma SoundFree(was: set<nat>, free: set<nat>, l4: nat, pages: seq<Mapped>, pts: seq<nat>, space: Space, f: nat)
    requires Sound(was, free, {f}, l4, pages, pts, space)
    ensures Sound(was, free + {f}, {}, l4, pages, pts, space)
  {
    hide PageFrames, Elements, Apart, Tracks;
  }

  /** Filling the frame in hand shows nowhere. */
  lemma SpareHidden(was: set<nat>, free: set<nat>, l4: nat, pages: seq<Mapped>, pts: seq<nat>, space: Space, f: nat,
                    before: seq<Page>, after: seq<Page>)
    requires Sound(was, free, {f}, l4, pages, pts, space) && |before| == MAX_FRAMES && OnlyTouched(before, after, {f})
    ensures View(space, after) == View(space, before)
  {
    hide OnlyTouched, View;
    SoundBounds(was, free, {f}, l4, pages, pts, space, before);
    ViewKept(space, pages, before, after, {f});
  }

  // ---------- One page ----------

  /** What of the file belongs in page `va` is there. */
  predicate PageFits(bytes: seq<byte>, ph: Phdr, va: nat) {
    var hi := Min(ph.vaddr + ph.filesz, va + FRAME_SIZE);
    Max(ph.vaddr, va) < hi ==> ph.offset + (hi - ph.vaddr) <= |bytes|
  }

  /** `zero_frame` and, if the page overlaps the file part, `copy_into_frame`. */
  method FillPage(m: Machine, bytes: seq<byte>, ph: Phdr, va: nat, frame: nat) returns (ok: bool)
    requires m.Valid() && frame < MAX_FRAMES
    modifies m`mem
    ensures m.Valid() && OnlyTouched(old(m.mem), m.mem, {frame}) && ok == PageFits(bytes, ph, va)
    ensures ok ==> m.mem[frame] == SegBytes(bytes, ph, va)
  {
    hide Allocator.Bits;
    m.mem := m.mem[frame := Zeros(FRAME_SIZE)];
    var copyLo, copyHi := Max(ph.vaddr, va), Min(ph.vaddr + ph.filesz, va + FRAME_SIZE);
    ok := true;
    if copyLo < copyHi {
      var fileOff, n := ph.offset + (copyLo - ph.vaddr), copyHi - copyLo;
      if fileOff + n > |bytes| {
        return false;
      }
      m.mem := m.mem[frame := Splice(m.mem[frame], copyLo - va, bytes[fileOff..fileOff + n])];
    }
    assert forall o :: 0 <= o < FRAME_SIZE ==> m.mem[frame][o] == SegByte(bytes, ph, va + o);
  }

  /** One turn of the loop of `map_segment`. */
  method MapSegPage(m: Machine, bytes: seq<byte>, ph: Phdr, l4: nat, va: nat, pages: seq<Mapped>, pts: seq<nat>,
                    ghost was: set<nat>)
    returns (ok: bool, pages': seq<Mapped>, pts': seq<nat>)
    requires m.Valid() && Building(was, m.pmm.frames, {}, l4, pages, pts, m.spaces)
    requires va % FRAME_SIZE == 0 && va < USER_CANON_MAX
    modifies m`mem, m`spaces, m`misses, m.pmm, m.pmm.bitmap
    ensures m.Valid() && Building(was, m.pmm.frames, {}, l4, pages', pts', m.spaces) && m.misses >= old(m.misses)
    ensures Isolated(was, old(m.mem), old(m.spaces), m.mem, m.spaces)
    ensures var v := old(Shown(m.spaces, l4, m.mem));
      && (ok ==> Shown(m.spaces, l4, m.mem) == v[va := SegSpec(bytes, ph, va)] && va !in v && PageFits(bytes, ph, va))
      && (!ok && m.misses == old(m.misses) ==> !PageFits(bytes, ph, va) || va in v)
  {
    hide Sound, View, PageFits, SegBytes, OnlyTouched, Isolated, Allocator.Bits;
    pages', pts' := pages, pts;
    IsolatedStart(was, m.mem, m.spaces);
    var f := m.AllocFrame();
    if f.None? {
      return false, pages, pts;
    }
    SoundAlloc(was, old(m.pmm.frames), l4, pages, pts, m.spaces[l4], f.value);
    ok := FillPage(m, bytes, ph, va, f.value);
    SpareHidden(was, m.pmm.frames, l4, pages, pts, m.spaces[l4], f.value, old(m.mem), m.mem);
    FillIsolated(was, m.pmm.frames, f.value, l4, pages, pts, m.spaces[l4], old(m.mem), m.mem, m.spaces);
    if !ok {
      SoundFree(was, m.pmm.frames, l4, pages, pts, m.spaces[l4], f.value);
      m.pmm.Free(f.value);
      return;
    }
    ghost var mid := m.mem;
    ok, pages', pts' := PlacePage(m, l4, va, f.value, Writable(ph), Executable(ph), pages, pts, was);
    IsolatedThen(was, old(m.mem), old(m.spaces), mid, old(m.spaces), m.mem, m.spaces);
  }

  method MapStackPage(m: Machine, l4: nat, va: nat, pages: seq<Mapped>, pts: seq<nat>, ghost was: set<nat>)
    returns (ok: bool, pages': seq<Mapped>, pts': seq<nat>)
    requires m.Valid() && Building(was, m.pmm.frames, {}, l4, pages, pts, m.spaces)
    requires va % FRAME_SIZE == 0 && va < USER_CANON_MAX
    modifies m`mem, m`spaces, m`misses, m.pmm, m.pmm.bitmap
    ensures m.Valid() && Building(was, m.pmm.frames, {}, l4, pages', pts', m.spaces) && m.misses >= old(m.misses)
    ensures Isolated(was, old(m.mem), old(m.spaces), m.mem, m.spaces)
    ensures var v := old(Shown(m.spaces, l4, m.mem));
      && (ok ==> Shown(m.spaces, l4, m.mem) == v[va := STACK_SPEC] && va !in v)
      && (!ok && m.misses == old(m.misses) ==> va in v)
  {
    hide Sound, View, Isolated, Allocator.Bits;
    IsolatedStart(was, m.mem, m.spaces);
    var f := m.AllocFrame();
    if f.None? {
      return false, pages, pts;
    }
    SoundAlloc(was, old(m.pmm.frames), l4, pages, pts, m.spaces[l4], f.value);
    m.mem := m.mem[f.value := Zeros(FRAME_SIZE)];
    SpareHidden(was, m.pmm.frames, l4, pages, pts, m.spaces[l4], f.value, old(m.mem), m.mem);
    FillIsolated(was, m.pmm.frames, f.value, l4, pages, pts, m.spaces[l4], old(m.mem), m.mem, m.spaces);
    ghost var mid := m.mem;
    ok, pages', pts' := PlacePage(m, l4, va, f.value, true, false, pages, pts, was);
    IsolatedThen(was, old(m.mem), old(m.spaces), mid, old(m.spaces), m.mem, m.spaces);
  }

  // ---------- Whole segments ----------

  lemma AddSegPage(bytes: seq<byte>, ph: Phdr, va: nat)
    requires va % FRAME_SIZE == 0 && PageFloor(ph.vaddr) <= va < ph.vaddr + ph.memsz
    ensures SegImage(bytes, ph, va + FRAME_SIZE) == SegImage(bytes, ph, va)[va := SegSpec(bytes, ph, va)]
    ensures SegPage(ph, va) && va !in SegImage(bytes, ph, va)
  {
    hide SegBytes, SegSpec;
    NextPage(va);
  }

  /** No page address lies strictly between two neighbours. */
  lemma NextPage(va: nat)
    requires va % FRAME_SIZE == 0
    ensures (va + FRAME_SIZE) % FRAME_SIZE == 0
    ensures forall p: int :: p % FRAME_SIZE == 0 && va <= p < va + FRAME_SIZE ==> p == va
  {
  }

  /** Every page fits exactly when the file part lies within the file. */
  lemma FitsInFile(bytes: seq<byte>, ph: Phdr)
    requires ph.filesz <= ph.memsz
    ensures InFile(bytes, ph) <==> forall p: nat :: SegPage(ph, p) ==> PageFits(bytes, ph, p)
  {
    if ph.filesz > 0 {
      var p := PageFloor(ph.vaddr + ph.filesz - 1);
      FloorMonotone(ph.vaddr, ph.vaddr + ph.filesz - 1);
      assert SegPage(ph, p);
    }
  }

  lemma FloorMonotone(a: nat, b: nat)
    requires a <= b
    ensures PageFloor(a) <= PageFloor(b) && PageFloor(b) % FRAME_SIZE == 0 && b - FRAME_SIZE < PageFloor(b) <= b
  {
  }

  /** Past the end of the segment, all its pages are there. */
  lemma AllPages(bytes: seq<byte>, ph: Phdr, va: nat)
    requires va >= ph.vaddr + ph.memsz
    ensures SegImage(bytes, ph, va) == SegPages(bytes, ph)
  {
    hide SegBytes, SegSpec;
  }

  /** The pages mapped so far of one segment. */
  ghost predicate SegSoFar(bytes: seq<byte>, ph: Phdr, va: nat, v: map<int, PageSpec>, now: map<int, PageSpec>) {
    && now == v + SegImage(bytes, ph, va)
    && (forall p: nat :: SegPage(ph, p) && p < va ==> p !in v && PageFits(bytes, ph, p))
  }

  lemma SegSoFarNext(bytes: seq<byte>, ph: Phdr, va: nat, v: map<int, PageSpec>, now: map<int, PageSpec>)
    requires SegSoFar(bytes, ph, va, v, now) && va % FRAME_SIZE == 0 && PageFloor(ph.vaddr) <= va < ph.vaddr + ph.memsz
    ensures va in now <==> va in v
    ensures va !in v && PageFits(bytes, ph, va) ==> SegSoFar(bytes, ph, va + FRAME_SIZE, v, now[va := SegSpec(bytes, ph, va)])
  {
    hide SegBytes, SegSpec, PageFits, SegImage;
    AddSegPage(bytes, ph, va);
    NextPage(va);
    assert forall p :: p in SegImage(bytes, ph, va) + map[va := SegSpec(bytes, ph, va)] <==>
      p in SegImage(bytes, ph, va) || p == va;
  }

  lemma SegSoFarDone(bytes: seq<byte>, ph: Phdr, va: nat, v: map<int, PageSpec>, now: map<int, PageSpec>)
    requires SegSoFar(bytes, ph, va, v, now) && va >= ph.vaddr + ph.memsz && ph.filesz <= ph.memsz
    ensures now == v + SegPages(bytes, ph) && InFile(bytes, ph) && SegFree(ph, v)
  {
    hide SegBytes, SegSpec, PageFits;
    AllPages(bytes, ph, va);
    FitsInFile(bytes, ph);
    forall p | SegPage(ph, p)
      ensures p !in v
    {
      var q: nat := p;
    }
  }

  /** Why a page failed, in terms of the segment. */
  lemma SegFails(bytes: seq<byte>, ph: Phdr, va: nat, v: map<int, PageSpec>)
    requires va % FRAME_SIZE == 0 && PageFloor(ph.vaddr) <= va < ph.vaddr + ph.memsz && ph.filesz <= ph.memsz
    requires !PageFits(bytes, ph, va) || va in v
    ensures !InFile(bytes, ph) || !SegFree(ph, v)
  {
    FitsInFile(bytes, ph);
    assert SegPage(ph, va);
  }

  method MapSegment(m: Machine, bytes: seq<byte>, ph: Phdr, l4: nat, pages: seq<Mapped>, pts: seq<nat>, ghost was: set<nat>)
    returns (ok: bool, pages': seq<Mapped>, pts': seq<nat>)
    requires m.Valid() && Building(was, m.pmm.frames, {}, l4, pages, pts, m.spaces)
    modifies m`mem, m`spaces, m`misses, m.pmm, m.pmm.bitmap
    ensures m.Valid() && Building(was, m.pmm.frames, {}, l4, pages', pts', m.spaces) && m.misses >= old(m.misses)
    ensures Isolated(was, old(m.mem), old(m.spaces), m.mem, m.spaces)
    ensures var v := old(Shown(m.spaces, l4, m.mem));
      && (ok ==> SegOk(bytes, ph) && SegFree(ph, v) && Shown(m.spaces, l4, m.mem) == v + SegPages(bytes, ph))
      && (!ok && m.misses == old(m.misses) ==> !SegOk(bytes, ph) || !SegFree(ph, v))
  {
    hide Sound, View, PageFits, SegSpec, InFile, SegFree, SegSoFar, SegPages, Isolated, Allocator.Bits;
    IsolatedStart(was, m.mem, m.spaces);
    pages', pts' := pages, pts;
    if ph.filesz > ph.memsz || (Writable(ph) && Executable(ph)) {
      return false, pages, pts;
    }
    var end := ph.vaddr + ph.memsz;
    if end > USER_CANON_MAX {
      return false, pages, pts;
    }
    ghost var v := Shown(m.spaces, l4, m.mem);
    var va := PageFloor(ph.vaddr);
    SegSoFarStart(bytes, ph, v);
    while va < end
      invariant m.Valid() && Building(was, m.pmm.frames, {}, l4, pages', pts', m.spaces) && m.misses >= old(m.misses)
      invariant va % FRAME_SIZE == 0 && va >= PageFloor(ph.vaddr)
      invariant SegSoFar(bytes, ph, va, v, Shown(m.spaces, l4, m.mem))
      invariant Isolated(was, old(m.mem), old(m.spaces), m.mem, m.spaces)
    {
      ghost var mid, between := m.mem, m.spaces;
      SegSoFarNext(bytes, ph, va, v, Shown(m.spaces, l4, m.mem));
      ok, pages', pts' := MapSegPage(m, bytes, ph, l4, va, pages', pts', was);
      IsolatedThen(was, old(m.mem), old(m.spaces), mid, between, m.mem, m.spaces);
      if !ok {
        if m.misses == old(m.misses) {
          SegFails(bytes, ph, va, v);
        }
        return;
      }
      NextPage(va);
      va := va + FRAME_SIZE;
    }
    SegSoFarDone(bytes, ph, va, v, Shown(m.spaces, l4, m.mem));
    ok := true;
  }

  lemma SegSoFarStart(bytes: seq<byte>, ph: Phdr, v: map<int, PageSpec>)
    ensures SegSoFar(bytes, ph, PageFloor(ph.vaddr), v, v) && PageFloor(ph.vaddr) % FRAME_SIZE == 0
  {
    FloorMonotone(ph.vaddr, ph.vaddr);
    assert SegImage(bytes, ph, PageFloor(ph.vaddr)) == map[];
  }

  // ---------- The stack ----------

  ghost predicate StackFree(n: nat, v: map<int, PageSpec>) {
    forall p :: StackPage(p) && p < USER_STACK_BASE + n * FRAME_SIZE ==> p !in v
  }

  lemma AddStackPage(i: nat, v: map<int, PageSpec>, now: map<int, PageSpec>)
    requires i < USER_STACK_PAGES && now == v + StackImage(i) && StackFree(i, v)
    ensures var va := USER_STACK_BASE + i * FRAME_SIZE;
      && va % FRAME_SIZE == 0 && StackPage(va) && (va in now <==> va in v)
      && (va !in v ==> now[va := STACK_SPEC] == v + StackImage(i + 1) && StackFree(i + 1, v))
  {
    var va := USER_STACK_BASE + i * FRAME_SIZE;
    assert va % FRAME_SIZE == 0;
    NextPage(va);
    hide STACK_SPEC;
    assert StackImage(i + 1) == StackImage(i)[va := STACK_SPEC];
  }

  method MapStack(m: Machine, l4: nat, pages: seq<Mapped>, pts: seq<nat>, ghost was: set<nat>)
    returns (ok: bool, pages': seq<Mapped>, pts': seq<nat>)
    requires m.Valid() && Building(was, m.pmm.frames, {}, l4, pages, pts, m.spaces)
    modifies m`mem, m`spaces, m`misses, m.pmm, m.pmm.bitmap
    ensures m.Valid() && Building(was, m.pmm.frames, {}, l4, pages', pts', m.spaces) && m.misses >= old(m.misses)
    ensures Isolated(was, old(m.mem), old(m.spaces), m.mem, m.spaces)
    ensures var v := old(Shown(m.spaces, l4, m.mem));
      && (ok ==> StackFree(USER_STACK_PAGES, v) && Shown(m.spaces, l4, m.mem) == v + StackImage(USER_STACK_PAGES))
      && (!ok && m.misses == old(m.misses) ==> !StackFree(USER_STACK_PAGES, v))
  {
    hide Sound, View, StackImage, Isolated, Allocator.Bits;
    IsolatedStart(was, m.mem, m.spaces);
    pages', pts', ok := pages, pts, true;
    ghost var v := Shown(m.spaces, l4, m.mem);
    NoStack(v);
    var i := 0;
    while i < USER_STACK_PAGES
      invariant 0 <= i <= USER_STACK_PAGES && ok
      invariant m.Valid() && Building(was, m.pmm.frames, {}, l4, pages', pts', m.spaces) && m.misses >= old(m.misses)
      invariant Shown(m.spaces, l4, m.mem) == v + StackImage(i) && StackFree(i, v)
      invariant Isolated(was, old(m.mem), old(m.spaces), m.mem, m.spaces)
    {
      ghost var mid, between := m.mem, m.spaces;
      AddStackPage(i, v, Shown(m.spaces, l4, m.mem));
      ok, pages', pts' := MapStackPage(m, l4, USER_STACK_BASE + i * FRAME_SIZE, pages', pts', was);
      IsolatedThen(was, old(m.mem), old(m.spaces), mid, between, m.mem, m.spaces);
      if !ok {
        return;
      }
      i := i + 1;
    }
  }

  lemma NoStack(v: map<int, PageSpec>)
    ensures v + StackImage(0) == v && StackFree(0, v)
  {
    hide STACK_SPEC;
  }

  // ---------- Giving frames back ----------

  lemma PrefixFrames(pages: seq<Mapped>, k: nat)
    requires k < |pages|
    ensures PageFrames(pages[..k + 1]) == PageFrames(pages[..k]) + {pages[k].frame} && pages[k].frame in PageFrames(pages)
  {
    assert pages[..k + 1] == pages[..k] + [pages[k]];
    PushFrames(pages[..k], pages[k]);
  }

  lemma PrefixElements(pts: seq<nat>, k: nat)
    requires k < |pts|
    ensures Elements(pts[..k + 1]) == Elements(pts[..k]) + {pts[k]} && pts[k] in Elements(pts)
  {
    assert pts[..k + 1] == pts[..k] + [pts[k]];
  }

  lemma NoFrames(pages: seq<Mapped>, pts: seq<nat>)
    ensures PageFrames(pages[..0]) == {} && Elements(pts[..0]) == {} && pages[..|pages|] == pages && pts[..|pts|] == pts
  {
  }

  method FreePages(m: Machine, pages: seq<Mapped>)
    requires m.Valid() && forall k :: 0 <= k < |pages| ==> pages[k].frame < MAX_FRAMES
    modifies m.pmm, m.pmm.bitmap
    ensures m.Valid() && m.pmm.frames == old(m.pmm.frames) + PageFrames(pages)
  {
    hide PageFrames, Elements, Allocator.Bits;
    NoFrames(pages, []);
    var k := 0;
    while k < |pages|
      invariant 0 <= k <= |pages| && m.Valid() && m.pmm.frames == old(m.pmm.frames) + PageFrames(pages[..k])
    {
      PrefixFrames(pages, k);
      m.pmm.Free(pages[k].frame);
      k := k + 1;
    }
  }

  method FreeTables(m: Machine, pts: seq<nat>)
    requires m.Valid() && forall k :: 0 <= k < |pts| ==> pts[k] < MAX_FRAMES
    modifies m.pmm, m.pmm.bitmap
    ensures m.Valid() && m.pmm.frames == old(m.pmm.frames) + Elements(pts)
  {
    hide PageFrames, Elements, Allocator.Bits;
    NoFrames([], pts);
    var k := 0;
    while k < |pts|
      invariant 0 <= k <= |pts| && m.Valid() && m.pmm.frames == old(m.pmm.frames) + Elements(pts[..k])
    {
      PrefixElements(pts, k);
      m.pmm.Free(pts[k]);
      k := k + 1;
    }
  }

  lemma OwnedBounds(l4: nat, pages: seq<Mapped>, pts: seq<nat>)
    requires forall f :: f in Owned(l4, pages, pts) ==> f < MAX_FRAMES
    ensures l4 < MAX_FRAMES && (forall k :: 0 <= k < |pts| ==> pts[k] < MAX_FRAMES)
    ensures forall k :: 0 <= k < |pages| ==> pages[k].frame < MAX_FRAMES
  {
    assert l4 in Owned(l4, pages, pts);
    assert forall k :: 0 <= k < |pts| ==> pts[k] in Owned(l4, pages, pts);
    assert forall k :: 0 <= k < |pages| ==> pages[k].frame in Owned(l4, pages, pts);
  }

  lemma OwnedUnion(free: set<nat>, l4: nat, pages: seq<Mapped>, pts: seq<nat>)
    ensures free + PageFrames(pages) + Elements(pts) + {l4} == free + Owned(l4, pages, pts)
  {
    hide PageFrames, Elements;
  }

  /** `fail`, which is also how `unload` gives an image's frames back. */
  method Fail(m: Machine, l4: nat, pages: seq<Mapped>, pts: seq<nat>)
    requires m.Valid() && forall f :: f in Owned(l4, pages, pts) ==> f < MAX_FRAMES
    modifies m.pmm, m.pmm.bitmap
    ensures m.Valid() && m.pmm.frames == old(m.pmm.frames) + Owned(l4, pages, pts)
  {
    hide PageFrames, Elements, Owned, Allocator.Bits;
    OwnedBounds(l4, pages, pts);
    OwnedUnion(m.pmm.frames, l4, pages, pts);
    FreePages(m, pages);
    FreeTables(m, pts);
    m.pmm.Free(l4);
  }

  /** Frames taken one by one for an image and then given back leave the pool as it was. */
  lemma HeldRestores(was: set<nat>, free: set<nat>, l4: nat, pages: seq<Mapped>, pts: seq<nat>)
    requires Held(was, free, {}, l4, pages, pts)
    ensures free + Owned(l4, pages, pts) == was && free !! Owned(l4, pages, pts)
    ensures |Owned(l4, pages, pts)| == 1 + |pages| + |pts|
    ensures forall f :: f in Owned(l4, pages, pts) ==> f < MAX_FRAMES
  {
    hide Owned;
    OwnedSize(l4, pages, pts);
  }

  lemma OwnedSize(l4: nat, pages: seq<Mapped>, pts: seq<nat>)
    requires Apart(l4, pages, pts)
    ensures |Owned(l4, pages, pts)| == 1 + |pages| + |pts|
  {
    PagesSize(pages);
    ElementsSize(pts);
    assert {l4} !! PageFrames(pages) && {l4} + PageFrames(pages) !! Elements(pts);
  }

  lemma {:induction false} PagesSize(pages: seq<Mapped>)
    requires forall i, j :: 0 <= i < j < |pages| ==> pages[i].frame != pages[j].frame
    ensures |PageFrames(pages)| == |pages|
  {
    if pages != [] {
      var n := |pages| - 1;
      PagesSize(pages[..n]);
      assert pages == pages[..n] + [pages[n]];
      PushFrames(pages[..n], pages[n]);
    }
  }

  lemma {:induction false} ElementsSize(pts: seq<nat>)
    requires Distinct(pts)
    ensures |Elements(pts)| == |pts|
  {
    if pts != [] {
      var n := |pts| - 1;
      ElementsSize(pts[..n]);
      PrefixElements(pts, n);
      assert pts[..n + 1] == pts;
    }
  }

  // ---------- The whole file ----------

  lemma SoundStart(was: set<nat>, l4: nat)
    requires l4 in was && forall f :: f in was ==> f < MAX_FRAMES
    ensures Sound(was, was - {l4}, {}, l4, [], [], map[]) && forall mem :: View(map[], mem) == map[]
  {
  }

  lemma SegsStep(bytes: seq<byte>, segs: seq<Phdr>, k: nat)
    requires k < |segs|
    ensures var v, ph := SegsImage(bytes, segs[..k]), segs[k];
      && SegsImage(bytes, segs[..k + 1]) == (if ph.ptype == PT_LOAD then v + SegPages(bytes, ph) else v)
      && (SegsOk(bytes, segs[..k + 1]) <==>
          SegsOk(bytes, segs[..k]) && ph.ptype != PT_DYNAMIC && (ph.ptype == PT_LOAD ==> SegOk(bytes, ph) && SegFree(ph, v)))
  {
    hide SegPages, SegOk, SegFree;
    assert segs[..k + 1][..k] == segs[..k];
  }

  lemma {:induction false} SegsOkPrefix(bytes: seq<byte>, segs: seq<Phdr>, k: nat)
    requires k <= |segs| && SegsOk(bytes, segs)
    ensures SegsOk(bytes, segs[..k])
    decreases |segs|
  {
    hide SegOk, SegFree, SegsImage;
    if k == |segs| {
      assert segs[..k] == segs;
    } else {
      SegsOkPrefix(bytes, segs[..|segs| - 1], k);
      assert segs[..|segs| - 1][..k] == segs[..k];
    }
  }

  /** The loop over the program headers; `seen` tells whether there was a PT_LOAD. */
  method MapSegments(m: Machine, bytes: seq<byte>, segs: seq<Phdr>, l4: nat, ghost was: set<nat>)
    returns (ok: bool, seen: bool, pages: seq<Mapped>, pts: seq<nat>)
    requires m.Valid() && Building(was, m.pmm.frames, {}, l4, [], [], m.spaces) && Shown(m.spaces, l4, m.mem) == map[]
    modifies m`mem, m`spaces, m`misses, m.pmm, m.pmm.bitmap
    ensures m.Valid() && Building(was, m.pmm.frames, {}, l4, pages, pts, m.spaces) && m.misses >= old(m.misses)
    ensures ok ==> SegsOk(bytes, segs) && Shown(m.spaces, l4, m.mem) == SegsImage(bytes, segs) && seen == HasLoad(segs)
    ensures !ok && m.misses == old(m.misses) ==> !SegsOk(bytes, segs)
    ensures Isolated(was, old(m.mem), old(m.spaces), m.mem, m.spaces)
  {
    hide Sound, View, SegsImage, SegsOk, SegOk, SegFree, SegPages, Isolated, Allocator.Bits;
    IsolatedStart(was, m.mem, m.spaces);
    ok, seen, pages, pts := true, false, [], [];
    var k := 0;
    NoSegs(bytes, segs);
    while k < |segs|
      invariant 0 <= k <= |segs| && ok
      invariant m.Valid() && Building(was, m.pmm.frames, {}, l4, pages, pts, m.spaces) && m.misses >= old(m.misses)
      invariant SegsOk(bytes, segs[..k]) && Shown(m.spaces, l4, m.mem) == SegsImage(bytes, segs[..k])
      invariant seen == exists j :: 0 <= j < k && segs[j].ptype == PT_LOAD
      invariant Isolated(was, old(m.mem), old(m.spaces), m.mem, m.spaces)
    {
      ghost var mid, between := m.mem, m.spaces;
      SegsStep(bytes, segs, k);
      if segs[k].ptype == PT_DYNAMIC {
        Refused(bytes, segs, k + 1);
        return false, seen, pages, pts;
      }
      if segs[k].ptype == PT_LOAD {
        seen := true;
        ok, pages, pts := MapSegment(m, bytes, segs[k], l4, pages, pts, was);
        IsolatedThen(was, old(m.mem), old(m.spaces), mid, between, m.mem, m.spaces);
        if !ok {
          if m.misses == old(m.misses) {
            Refused(bytes, segs, k + 1);
          }
          return;
        }
      }
      k := k + 1;
    }
    assert segs[..k] == segs;
  }

  lemma NoSegs(bytes: seq<byte>, segs: seq<Phdr>)
    ensures SegsOk(bytes, segs[..0]) && SegsImage(bytes, segs[..0]) == map[]
  {
  }

  lemma Refused(bytes: seq<byte>, segs: seq<Phdr>, k: nat)
    requires k <= |segs| && !SegsOk(bytes, segs[..k])
    ensures !SegsOk(bytes, segs)
  {
    hide SegsOk;
    if SegsOk(bytes, segs) {
      SegsOkPrefix(bytes, segs, k);
    }
  }

  lemma StackFreeMeaning(v: map<int, PageSpec>)
    ensures StackFree(USER_STACK_PAGES, v) <==> forall p :: StackPage(p) ==> p !in v
  {
  }

  /** `load` once the program headers are known. */
  method LoadSegments(m: Machine, bytes: seq<byte>, entry: nat, segs: seq<Phdr>, l4: nat, ghost was: set<nat>)
    returns (r: Option<Image>)
    requires m.Valid() && Building(was, m.pmm.frames, {}, l4, [], [], m.spaces) && Shown(m.spaces, l4, m.mem) == map[]
    modifies m`mem, m`spaces, m`misses, m.pmm, m.pmm.bitmap
    ensures m.Valid() && m.misses >= old(m.misses) && Isolated(was, old(m.mem), old(m.spaces), m.mem, m.spaces)
    ensures r.Some? ==> r.value.entry == entry && r.value.l4 == l4
    ensures r.Some? ==> Building(was, m.pmm.frames, {}, l4, r.value.pages, r.value.pts, m.spaces)
    ensures r.Some? ==> Shown(m.spaces, l4, m.mem) == LoadedImage(bytes, segs)
    ensures r.Some? ==> Acceptable(bytes, segs)
    ensures r.None? ==> m.pmm.frames == was
    ensures r.None? && m.misses == old(m.misses) ==> !Acceptable(bytes, segs)
  {
    hide Held, Tracks, Owned, View, Isolated, SegsImage, SegsOk, StackImage, StackFree, Allocator.Bits;
    IsolatedStart(was, m.mem, m.spaces);
    var ok, seen, pages, pts := MapSegments(m, bytes, segs, l4, was);
    StackFreeMeaning(SegsImage(bytes, segs));
    if ok && seen {
      ghost var mid, between := m.mem, m.spaces;
      ok, pages, pts := MapStack(m, l4, pages, pts, was);
      IsolatedThen(was, old(m.mem), old(m.spaces), mid, between, m.mem, m.spaces);
      if ok {
        return Some(Image(entry, l4, pages, pts));
      }
    }
    HeldRestores(was, m.pmm.frames, l4, pages, pts);
    Fail(m, l4, pages, pts);
    r := None;
  }

  /** `load`: the image shows the segments and the stack and nothing else; a refusal restores the pool
      unless it is one of the two that keep the L4, and those cost exactly one frame. */
  method Load(m: Machine, bytes: seq<byte>, parsed: Parse) returns (r: Option<Image>)
    requires m.Valid()
    modifies m`mem, m`spaces, m`misses, m.pmm, m.pmm.bitmap
    ensures m.Valid() && m.misses >= old(m.misses)
    ensures r.Some? ==> Loadable(bytes, parsed) && r.value.entry == parsed.entry
    ensures r.Some? ==> Building(old(m.pmm.frames), m.pmm.frames, {}, r.value.l4, r.value.pages, r.value.pts, m.spaces)
    ensures r.Some? ==> Shown(m.spaces, r.value.l4, m.mem) == LoadedImage(bytes, parsed.segments.value)
    ensures r.None? && m.misses == old(m.misses) ==> !Loadable(bytes, parsed)
    ensures r.None? ==> (m.pmm.frames == old(m.pmm.frames) <==> !KeepsL4(parsed) || old(m.pmm.frames) == {})
    ensures r.None? ==> m.pmm.frames <= old(m.pmm.frames) && |old(m.pmm.frames)| <= |m.pmm.frames| + 1
    ensures Isolated(old(m.pmm.frames), old(m.mem), old(m.spaces), m.mem, m.spaces)
  {
    hide Held, Tracks, Owned, View, Isolated, Acceptable, LoadedImage, Allocator.Bits;
    ghost var was := m.pmm.frames;
    m.pmm.Bounded();
    IsolatedStart(was, m.mem, m.spaces);
    var l4 := m.NewUserL4();
    if l4.None? {
      return None;
    }
    SoundStart(was, l4.value);
    StartIsolated(was, l4.value, old(m.mem), m.mem, old(m.spaces));
    if parsed.Unparsable? {
      return None;
    }
    if parsed.machine != EM_X86_64 || parsed.etype != ET_EXEC {
      m.pmm.Free(l4.value);
      return None;
    }
    if parsed.segments.None? {
      return None;
    }
    ghost var mid, between := m.mem, m.spaces;
    r := LoadSegments(m, bytes, parsed.entry, parsed.segments.value, l4.value, was);
    IsolatedThen(was, old(m.mem), old(m.spaces), mid, between, m.mem, m.spaces);
  }

  lemma StartIsolated(was: set<nat>, l4: nat, before: seq<Page>, after: seq<Page>, spaces: map<int, Space>)
    requires l4 in was && OnlyTouched(before, after, {l4})
    ensures Isolated(was, before, spaces, after, spaces[l4 := map[]])
  {
  }

  /** `unload`; a page table about to be freed is left first. */
  method Unload(m: Machine, image: Image)
    requires m.Valid() && forall f :: f in Owned(image.l4, image.pages, image.pts) ==> f < MAX_FRAMES
    modifies m`cr3, m.pmm, m.pmm.bitmap
    ensures m.Valid() && m.pmm.frames == old(m.pmm.frames) + Owned(image.l4, image.pages, image.pts)
    ensures m.cr3 == if old(m.cr3) == image.l4 then m.kernelCr3 else old(m.cr3)
  {
    if m.cr3 == image.l4 {
      m.cr3 := m.kernelCr3;
    }
    Fail(m, image.l4, image.pages, image.pts);
  }

  // ---------- What a loaded image shows ----------

  /** A byte of the address space, if its page is mapped. */
  function ReadUser(v: map<int, PageSpec>, addr: nat): Option<byte> {
    var p := PageFloor(addr);
    if p in v then Some(v[p].bytes[addr % FRAME_SIZE]) else None
  }

  function LoadedImage(bytes: seq<byte>, segs: seq<Phdr>): map<int, PageSpec> {
    SegsImage(bytes, segs) + StackImage(USER_STACK_PAGES)
  }

  lemma {:induction false} PageOfSegment(bytes: seq<byte>, segs: seq<Phdr>, k: nat, p: nat)
    requires SegsOk(bytes, segs) && k < |segs| && segs[k].ptype == PT_LOAD && SegPage(segs[k], p)
    ensures p in SegsImage(bytes, segs) && SegsImage(bytes, segs)[p] == SegSpec(bytes, segs[k], p) && SegOk(bytes, segs[k])
    decreases |segs|
  {
    hide SegSpec, SegOk;
    var n := |segs| - 1;
    if k < n {
      PageOfSegment(bytes, segs[..n], k, p);
    }
  }

  lemma {:induction false} SegmentOfPage(bytes: seq<byte>, segs: seq<Phdr>, p: int) returns (k: nat)
    requires SegsOk(bytes, segs) && p in SegsImage(bytes, segs)
    ensures k < |segs| && segs[k].ptype == PT_LOAD && SegPage(segs[k], p) && p >= 0
    decreases |segs|
  {
    hide SegSpec, SegOk, SegPage;
    var n := |segs| - 1;
    if segs[n].ptype == PT_LOAD && p in SegPages(bytes, segs[n]) {
      k := n;
    } else {
      k := SegmentOfPage(bytes, segs[..n], p);
    }
  }

  /** On every page of a PT_LOAD segment a read gives the file's byte where the segment has file contents,
      and zero everywhere else: up to `p_memsz` and in the padding around the segment. */
  lemma SegmentReads(bytes: seq<byte>, parsed: Parse, k: nat, addr: nat)
    requires Loadable(bytes, parsed)
    requires var segs := parsed.segments.value; k < |segs| && segs[k].ptype == PT_LOAD && SegPage(segs[k], PageFloor(addr))
    ensures var ph := parsed.segments.value[k];
      && (ph.vaddr <= addr < ph.vaddr + ph.filesz ==> ph.offset + (addr - ph.vaddr) < |bytes|)
      && ReadUser(LoadedImage(bytes, parsed.segments.value), addr) ==
         Some(if ph.vaddr <= addr < ph.vaddr + ph.filesz then bytes[ph.offset + (addr - ph.vaddr)] else 0)
  {
    hide SegsOk, SegsImage;
    var segs, p := parsed.segments.value, PageFloor(addr);
    PageOfSegment(bytes, segs, k, p);
    assert !StackPage(p);
    assert SegSpec(bytes, segs[k], p).bytes[addr % FRAME_SIZE] == SegByte(bytes, segs[k], addr);
  }

  /** Every address of a segment lies on one of its pages. */
  lemma SegmentCovered(ph: Phdr, addr: nat)
    requires ph.vaddr <= addr < ph.vaddr + ph.memsz
    ensures SegPage(ph, PageFloor(addr))
  {
    FloorMonotone(ph.vaddr, addr);
  }

  /** Exactly the pages of the PT_LOAD segments and of the stack are mapped. */
  lemma MappedPages(bytes: seq<byte>, parsed: Parse, p: int)
    requires Loadable(bytes, parsed) && p >= 0
    ensures var segs := parsed.segments.value;
      p in LoadedImage(bytes, segs) <==>
        StackPage(p) || exists k :: 0 <= k < |segs| && segs[k].ptype == PT_LOAD && SegPage(segs[k], p)
  {
    hide SegsOk, SegsImage, SegPage;
    var segs := parsed.segments.value;
    if p in SegsImage(bytes, segs) {
      var k := SegmentOfPage(bytes, segs, p);
    }
    if k :| 0 <= k < |segs| && segs[k].ptype == PT_LOAD && SegPage(segs[k], p) {
      PageOfSegment(bytes, segs, k, p);
    }
  }

  /** The page at `p` has an address of the segment, or lies between its first page's start and its end. */
  predicate Covers(ph: Phdr, p: int) {
    p % 4096 == 0 && p + 4096 > ph.vaddr && p < ph.vaddr + ph.memsz
  }

  lemma CoversMeaning(ph: Phdr, p: int)
    ensures SegPage(ph, p) <==> Covers(ph, p)
    ensures StackPage(p) <==> p % 4096 == 0 && 0x7FFF_0000 <= p < 0x8000_0000
  {
    FloorMonotone(ph.vaddr, ph.vaddr);
    if Covers(ph, p) && p < PageFloor(ph.vaddr) {
      Between(p, PageFloor(ph.vaddr));
    }
  }

  /** Page addresses lie a page apart. */
  lemma Between(p: int, q: int)
    requires p % 4096 == 0 && q % 4096 == 0 && p < q
    ensures p + 4096 <= q
  {
  }

  /** The pages of a segment are executable exactly when bit 0 of `p_flags` is set, and writable exactly when
      bit 1 is. */
  lemma SegmentPermissions(bytes: seq<byte>, parsed: Parse, k: nat, p: nat)
    requires Loadable(bytes, parsed)
    requires var segs := parsed.segments.value; k < |segs| && segs[k].ptype == 1 && Covers(segs[k], p)
    ensures p in LoadedImage(bytes, parsed.segments.value)
    ensures var s, flags := LoadedImage(bytes, parsed.segments.value)[p], parsed.segments.value[k].flags;
      (s.executable <==> flags & 1 != 0) && (s.writable <==> flags & 2 != 0)
  {
    hide SegsOk, SegsImage, SegPage, Covers;
    var segs := parsed.segments.value;
    CoversMeaning(segs[k], p);
    PageOfSegment(bytes, segs, k, p);
  }

  /** The checks one segment must pass, on the header's own fields. */
  predicate Passes(bytes: seq<byte>, ph: Phdr) {
    && ph.filesz <= ph.memsz && ph.flags & 3 != 3
    && ph.vaddr + ph.memsz <= 0x8000_0000_0000 && (ph.filesz == 0 || ph.offset + ph.filesz <= |bytes|)
  }

  lemma PassesMeaning(bytes: seq<byte>, ph: Phdr)
    ensures SegOk(bytes, ph) <==> Passes(bytes, ph)
  {
    BothBits(ph.flags);
  }

  lemma BothBits(flags: bv32)
    ensures flags & 3 == 3 <==> flags & 1 != 0 && flags & 2 != 0
  {
  }

  lemma {:induction false} SegsKeys(bytes: seq<byte>, segs: seq<Phdr>, p: int)
    ensures p in SegsImage(bytes, segs) <==> exists k :: 0 <= k < |segs| && segs[k].ptype == PT_LOAD && SegPage(segs[k], p)
    decreases |segs|
  {
    hide SegSpec;
    if segs != [] {
      var n := |segs| - 1;
      SegsKeys(bytes, segs[..n], p);
      if p in SegsImage(bytes, segs[..n]) {
        var k :| 0 <= k < n && segs[..n][k].ptype == PT_LOAD && SegPage(segs[..n][k], p);
        assert segs[k] == segs[..n][k];
      }
      if k :| 0 <= k < |segs| && segs[k].ptype == PT_LOAD && SegPage(segs[k], p) {
        assert k < n ==> segs[..n][k] == segs[k];
      }
    }
  }

  /** No two PT_LOAD segments have a page in common. */
  ghost predicate PagesApart(segs: seq<Phdr>) {
    forall i, j, p :: 0 <= i < j < |segs| && segs[i].ptype == 1 && segs[j].ptype == 1 && Covers(segs[i], p) ==> !Covers(segs[j], p)
  }

  lemma FreeMeaning(bytes: seq<byte>, before: seq<Phdr>, ph: Phdr)
    ensures SegFree(ph, SegsImage(bytes, before)) <==>
      forall i, p :: 0 <= i < |before| && before[i].ptype == 1 && Covers(before[i], p) ==> !Covers(ph, p)
  {
    hide SegPage, Covers, SegsImage;
    forall p
      ensures SegPage(ph, p) <==> Covers(ph, p)
      ensures p in SegsImage(bytes, before) <==> exists i :: 0 <= i < |before| && before[i].ptype == 1 && Covers(before[i], p)
    {
      CoversMeaning(ph, p);
      SegsKeys(bytes, before, p);
      forall i | 0 <= i < |before|
        ensures SegPage(before[i], p) <==> Covers(before[i], p)
      {
        CoversMeaning(before[i], p);
      }
    }
  }

  lemma {:induction false} SegsOkMeaning(bytes: seq<byte>, segs: seq<Phdr>)
    ensures SegsOk(bytes, segs) <==>
      && (forall k :: 0 <= k < |segs| ==> segs[k].ptype != 2)
      && (forall k :: 0 <= k < |segs| && segs[k].ptype == 1 ==> Passes(bytes, segs[k]))
      && PagesApart(segs)
    decreases |segs|
  {
    hide Passes, SegOk, SegFree, Covers, SegsImage;
    if segs != [] {
      var n := |segs| - 1;
      var before := segs[..n];
      SegsOkMeaning(bytes, before);
      PassesMeaning(bytes, segs[n]);
      FreeMeaning(bytes, before, segs[n]);
      assert forall k :: 0 <= k < n ==> before[k] == segs[k];
    }
  }

  /** `load` accepts a file, memory permitting, exactly when it is an x86-64 ET_EXEC without PT_DYNAMIC and with a
      PT_LOAD, every PT_LOAD passes its checks, and no page belongs to two of them or to one and the stack. */
  lemma LoadableIff(bytes: seq<byte>, parsed: Parse)
    ensures Loadable(bytes, parsed) <==>
      && parsed.Parsed? && parsed.machine == 62 && parsed.etype == 2 && parsed.segments.Some?
      && var segs := parsed.segments.value;
        && (forall k :: 0 <= k < |segs| ==> segs[k].ptype != 2) && (exists k :: 0 <= k < |segs| && segs[k].ptype == 1)
        && (forall k :: 0 <= k < |segs| && segs[k].ptype == 1 ==> Passes(bytes, segs[k])) && PagesApart(segs)
        && (forall k, p :: 0 <= k < |segs| && segs[k].ptype == 1 && Covers(segs[k], p) ==> !(0x7FFF_0000 <= p < 0x8000_0000))
  {
    hide SegsOk, SegsImage, Passes, PagesApart, Covers;
    if Headers(parsed) {
      SegsOkMeaning(bytes, parsed.segments.value);
      StackMeaning(bytes, parsed.segments.value);
    }
  }

  lemma StackMeaning(bytes: seq<byte>, segs: seq<Phdr>)
    ensures (forall p :: StackPage(p) ==> p !in SegsImage(bytes, segs)) <==>
      forall k, p :: 0 <= k < |segs| && segs[k].ptype == 1 && Covers(segs[k], p) ==> !(0x7FFF_0000 <= p < 0x8000_0000)
  {
    hide SegsImage, SegPage;
    if forall p :: StackPage(p) ==> p !in SegsImage(bytes, segs) {
      forall k, p | 0 <= k < |segs| && segs[k].ptype == 1 && Covers(segs[k], p)
        ensures !(0x7FFF_0000 <= p < 0x8000_0000)
      {
        CoversMeaning(segs[k], p);
        SegsKeys(bytes, segs, p);
        assert p in SegsImage(bytes, segs);
        assert !StackPage(p);
      }
    }
    if forall k, p :: 0 <= k < |segs| && segs[k].ptype == 1 && Covers(segs[k], p) ==> !(0x7FFF_0000 <= p < 0x8000_0000) {
      forall p | StackPage(p)
        ensures p !in SegsImage(bytes, segs)
      {
        SegsKeys(bytes, segs, p);
        if k :| 0 <= k < |segs| && segs[k].ptype == PT_LOAD && SegPage(segs[k], p) {
          CoversMeaning(segs[k], p);
        }
      }
    }
  }

  /** No page is both writable and executable; the stack is writable and zero. */
  lemma WriteXorExecute(bytes: seq<byte>, parsed: Parse, p: int)
    requires Loadable(bytes, parsed) && p in LoadedImage(bytes, parsed.segments.value)
    ensures var s := LoadedImage(bytes, parsed.segments.value)[p];
      !(s.writable && s.executable) && (StackPage(p) ==> s.writable && forall o :: 0 <= o < FRAME_SIZE ==> s.bytes[o] == 0)
  {
    hide SegsOk, SegsImage, SegPage;
    var segs := parsed.segments.value;
    if !StackPage(p) {
      var k := SegmentOfPage(bytes, segs, p);
      PageOfSegment(bytes, segs, k, p);
    }
  }
}
