/**
 Several process images at once: loading, writing arguments and unloading in any order. Live images never
 share a frame, none sees another's changes, and no frame appears or disappears.
 */
module Images {
  import opened Bytes
  import opened Pmm
  import opened Vmm
  import opened Elf
  import opened Argv

  // ---------- One image from beginning to end ----------

  /** `load` and then `unload`: free set and free counter are as before, whatever the file, unless the
      header parse fails in one of the two ways that keep the L4. */
  method LoadThenUnload(m: Machine, bytes: seq<byte>, parsed: Parse) returns (loaded: bool)
    requires m.Valid()
    modifies m`mem, m`spaces, m`misses, m`cr3, m.pmm, m.pmm.bitmap
    ensures m.Valid() && (!KeepsL4(parsed) ==> m.pmm.frames == old(m.pmm.frames) && m.pmm.free == old(m.pmm.free))
  {
    hide Tracks, Owned, Isolated, Shown, Loadable, Allocator.Bits;
    var r := Load(m, bytes, parsed);
    loaded := r.Some?;
    if r.Some? {
      HeldRestores(old(m.pmm.frames), m.pmm.frames, r.value.l4, r.value.pages, r.value.pts);
      Unload(m, r.value);
    }
  }

  /** What `write_argv` left, read back through the page list. */
  ghost predicate ReadsBack(pages: seq<Mapped>, mem: seq<Page>, strings: seq<seq<byte>>, s: ArgvSetup) {
    && s.argc == |strings| && s.argvPtr == s.rsp + 8 && s.rsp % 16 == 0
    && ReadWord(pages, mem, s.rsp) == Some(s.argc)
    && (forall i :: 0 <= i < |strings| ==> PointsTo(pages, mem, s.argvPtr + 8 * i, strings[i]))
    && ReadWord(pages, mem, s.argvPtr + 8 * |strings|) == Some(0)
    && ReadWord(pages, mem, s.argvPtr + 8 * |strings| + 8) == Some(0)
  }

  /** The word at `addr` is a pointer to `str` and a NUL. */
  ghost predicate PointsTo(pages: seq<Mapped>, mem: seq<Page>, addr: nat, str: seq<byte>) {
    match ReadWord(pages, mem, addr)
    case Some(p) => Read(pages, mem, p, |str| + 1) == Some(str + [0])
    case None => false
  }

  lemma ArgvReadsBack(pages: seq<Mapped>, before: seq<Page>, mid: seq<Page>, after: seq<Page>,
                      strings: seq<seq<byte>>, s: ArgvSetup)
    requires ArgsOk(strings) && |Blob(strings)| <= USER_STACK_TOP && s.rsp == RspFor(strings)
    requires s.argc == |strings| && s.argvPtr == s.rsp + 8
    requires Wrote(pages, before, mid, Cursor(strings), Blob(strings))
    requires Wrote(pages, mid, after, s.rsp, Table(strings, |strings| + 3))
    ensures ReadsBack(pages, after, strings, s)
  {
    hide Wrote, Blob, Table, Read, ReadWord, StrAt, Cursor, RspFor;
    Room(strings);
    forall i | 0 <= i < |strings|
      ensures PointsTo(pages, after, s.argvPtr + 8 * i, strings[i])
    {
      ArgvReads(pages, before, mid, after, strings, i);
    }
    ArgvReads(pages, before, mid, after, strings, 0);
  }

  /** `load` and then `write_argv`: the arguments always go in, and read back. */
  method LoadWithArgs(m: Machine, bytes: seq<byte>, parsed: Parse, strings: seq<seq<byte>>)
    returns (r: Option<Image>, s: Option<ArgvSetup>)
    requires m.Valid()
    modifies m`mem, m`spaces, m`misses, m.pmm, m.pmm.bitmap
    ensures m.Valid() && (r.None? ==> s.None?)
    ensures r.Some? ==> (s.Some? <==> ArgsOk(strings))
    ensures s.Some? ==> r.Some? && ReadsBack(r.value.pages, m.mem, strings, s.value)
  {
    hide Held, Tracks, Owned, Isolated, Shown, Acceptable, ReadsBack, ListOk, StackMapped, Wrote, Blob, Table, Allocator.Bits;
    s := None;
    r := Load(m, bytes, parsed);
    if r.Some? {
      var pages := r.value.pages;
      LoadedList(old(m.pmm.frames), m.pmm.frames, r.value.l4, pages, r.value.pts, m.spaces, m.mem, bytes, parsed.segments.value);
      ghost var before, mid := m.mem, m.mem;
      s, mid := WriteArgv(m, pages, strings);
      if s.Some? {
        ArgvReadsBack(pages, before, mid, m.mem, strings, s.value);
      }
    }
  }

  // ---------- Many images ----------

  /** A loaded image, the file it came from, and the arguments written into it so far. */
  datatype Running = Running(image: Image, bytes: seq<byte>, segs: seq<Phdr>, args: seq<Arguments>)

  function FramesOf(i: Image): set<nat> { Owned(i.l4, i.pages, i.pts) }

  /** The frames of all live images. */
  function AllFrames(live: seq<Running>): set<nat> {
    if live == [] then {} else AllFrames(live[1..]) + FramesOf(live[0].image)
  }

  /** Every frame is in exactly one place: free, lost to a refused file, or with one live image. */
  ghost predicate Accounted(was: set<nat>, free: set<nat>, lost: set<nat>, live: seq<Running>) {
    && was == free + lost + AllFrames(live) && free !! lost !! AllFrames(live)
    && (forall f :: f in was ==> f < MAX_FRAMES)
    && (forall i, j :: 0 <= i < j < |live| ==> FramesOf(live[i].image) !! FramesOf(live[j].image))
  }

  /** What a process shows: its file, the zero stack, and over it every argument list written, in order. */
  function Expected(bytes: seq<byte>, segs: seq<Phdr>, args: seq<Arguments>): map<int, PageSpec>
    decreases |args|
  {
    if args == [] then LoadedImage(bytes, segs)
    else WithArgs(Expected(bytes, segs, args[..|args| - 1]), args[|args| - 1])
  }

  /** The registers that go with an argument list. */
  function SetupFor(strings: Arguments): ArgvSetup {
    Room(strings);
    ArgvSetup(RspFor(strings), |strings|, RspFor(strings) + 8)
  }

  /** An image's page list agrees with its page table, it shows what is expected of it, and the arguments last
      written read back. */
  ghost predicate Intact(r: Running, spaces: map<int, Space>, mem: seq<Page>) {
    && r.image.l4 in spaces && Tracks(spaces[r.image.l4], r.image.pages)
    && ListOk(r.image.pages) && StackMapped(r.image.pages) && Acceptable(r.bytes, r.segs)
    && Shown(spaces, r.image.l4, mem) == Expected(r.bytes, r.segs, r.args)
    && (r.args != [] ==> var last := r.args[|r.args| - 1]; ReadsBack(r.image.pages, mem, last, SetupFor(last)))
  }

  ghost predicate AllIntact(live: seq<Running>, spaces: map<int, Space>, mem: seq<Page>) {
    forall i :: 0 <= i < |live| ==> Intact(live[i], spaces, mem)
  }

  lemma {:induction false} AllFramesMember(live: seq<Running>, i: nat)
    requires i < |live|
    ensures FramesOf(live[i].image) <= AllFrames(live)
  {
    hide FramesOf;
    if i > 0 {
      AllFramesMember(live[1..], i - 1);
    }
  }

  lemma {:induction false} AllFramesAppend(live: seq<Running>, r: Running)
    ensures AllFrames(live + [r]) == AllFrames(live) + FramesOf(r.image)
  {
    hide FramesOf;
    if live == [] {
      assert (live + [r])[1..] == [];
    } else {
      assert (live + [r])[1..] == live[1..] + [r];
      AllFramesAppend(live[1..], r);
    }
  }

  lemma {:induction false} AllFramesWithout(live: seq<Running>, k: nat)
    requires k < |live|
    ensures AllFrames(live) == AllFrames(live[..k] + live[k + 1..]) + FramesOf(live[k].image)
  {
    hide FramesOf;
    var rest := live[..k] + live[k + 1..];
    if k == 0 {
      assert rest == live[1..];
    } else {
      assert rest[1..] == live[1..][..k - 1] + live[1..][k..];
      assert rest[0] == live[0];
      AllFramesWithout(live[1..], k - 1);
    }
  }

  lemma {:induction false} AllFramesApart(live: seq<Running>, s: set<nat>)
    requires forall i :: 0 <= i < |live| ==> FramesOf(live[i].image) !! s
    ensures AllFrames(live) !! s
  {
    hide FramesOf;
    if live != [] {
      AllFramesApart(live[1..], s);
    }
  }

  /** Two memories that lead to the same bytes read the same. */
  ghost predicate SameBytes(pages: seq<Mapped>, mem: seq<Page>, mem': seq<Page>) {
    forall a: nat :: UserByte(pages, mem', a) == UserByte(pages, mem, a)
  }

  lemma ShownSameBytes(space: Space, pages: seq<Mapped>, mem: seq<Page>, mem': seq<Page>)
    requires Tracks(space, pages) && View(space, mem') == View(space, mem)
    ensures SameBytes(pages, mem, mem')
  {
    hide Tracks, View, UserByte;
    forall a: nat
      ensures UserByte(pages, mem', a) == UserByte(pages, mem, a)
    {
      SameAsView(space, pages, mem, a);
      SameAsView(space, pages, mem', a);
    }
  }

  lemma {:induction false} ReadSame(pages: seq<Mapped>, mem: seq<Page>, mem': seq<Page>, addr: nat, n: nat)
    requires SameBytes(pages, mem, mem')
    ensures Read(pages, mem', addr, n) == Read(pages, mem, addr, n)
  {
    hide UserByte;
    if n > 0 {
      ReadSame(pages, mem, mem', addr, n - 1);
    }
  }

  lemma ReadsBackSame(pages: seq<Mapped>, mem: seq<Page>, mem': seq<Page>, strings: seq<seq<byte>>, s: ArgvSetup)
    requires SameBytes(pages, mem, mem') && ReadsBack(pages, mem, strings, s)
    ensures ReadsBack(pages, mem', strings, s)
  {
    hide SameBytes, Read;
    ReadSame(pages, mem, mem', s.rsp, 8);
    ReadSame(pages, mem, mem', s.argvPtr + 8 * |strings|, 8);
    ReadSame(pages, mem, mem', s.argvPtr + 8 * |strings| + 8, 8);
    forall i | 0 <= i < |strings|
      ensures PointsTo(pages, mem', s.argvPtr + 8 * i, strings[i])
    {
      assert PointsTo(pages, mem, s.argvPtr + 8 * i, strings[i]);
      ReadSame(pages, mem, mem', s.argvPtr + 8 * i, 8);
      ReadSame(pages, mem, mem', ReadWord(pages, mem, s.argvPtr + 8 * i).value, |strings[i]| + 1);
    }
  }

  /** A change confined to `touched` shows in no image that owns none of it. */
  lemma StaysIntact(r: Running, touched: set<nat>, mem: seq<Page>, spaces: map<int, Space>, mem': seq<Page>,
                    spaces': map<int, Space>)
    requires Intact(r, spaces, mem) && FramesOf(r.image) !! touched && Isolated(touched, mem, spaces, mem', spaces')
    ensures Intact(r, spaces', mem') && Shown(spaces', r.image.l4, mem') == Shown(spaces, r.image.l4, mem)
  {
    hide Tracks, ListOk, StackMapped, Acceptable, PageFrames, Elements, Expected, View, OnlyTouched, ReadsBack, SameBytes,
         SetupFor;
    assert r.image.l4 in FramesOf(r.image);
    ViewKept(spaces[r.image.l4], r.image.pages, mem, mem', touched);
    ShownSameBytes(spaces[r.image.l4], r.image.pages, mem, mem');
    if r.args != [] {
      var last := r.args[|r.args| - 1];
      ReadsBackSame(r.image.pages, mem, mem', last, SetupFor(last));
    }
  }

  /** Every live image shows in the second world what it shows in the first. */
  ghost predicate SameShown(live: seq<Running>, spaces: map<int, Space>, mem: seq<Page>, spaces': map<int, Space>, mem': seq<Page>) {
    forall i :: 0 <= i < |live| ==> Shown(spaces', live[i].image.l4, mem') == Shown(spaces, live[i].image.l4, mem)
  }

  lemma AllStayIntact(live: seq<Running>, touched: set<nat>, mem: seq<Page>, spaces: map<int, Space>,
                      mem': seq<Page>, spaces': map<int, Space>)
    requires AllIntact(live, spaces, mem) && AllFrames(live) !! touched && Isolated(touched, mem, spaces, mem', spaces')
    ensures AllIntact(live, spaces', mem') && SameShown(live, spaces, mem, spaces', mem')
  {
    hide Intact, Isolated, FramesOf, AllFrames, Shown;
    forall i | 0 <= i < |live|
      ensures Intact(live[i], spaces', mem') && Shown(spaces', live[i].image.l4, mem') == Shown(spaces, live[i].image.l4, mem)
    {
      AllFramesMember(live, i);
      StaysIntact(live[i], touched, mem, spaces, mem', spaces');
    }
  }

  /** A new image takes its frames from the free ones. */
  lemma AccountLoad(was: set<nat>, free: set<nat>, left: set<nat>, lost: set<nat>, live: seq<Running>, r: Running)
    requires Accounted(was, free, lost, live)
    requires free == left + FramesOf(r.image) && left !! FramesOf(r.image)
    ensures Accounted(was, left, lost, live + [r])
  {
    hide FramesOf, AllFrames;
    AllFramesAppend(live, r);
    forall i | 0 <= i < |live|
      ensures FramesOf(live[i].image) !! FramesOf(r.image)
    {
      AllFramesMember(live, i);
    }
  }

  /** A refused file loses what it does not give back. */
  lemma AccountRefusal(was: set<nat>, free: set<nat>, left: set<nat>, lost: set<nat>, live: seq<Running>)
    requires Accounted(was, free, lost, live) && left <= free
    ensures Accounted(was, left, lost + (free - left), live)
  {
    hide FramesOf, AllFrames;
  }

  lemma AccountUnload(was: set<nat>, free: set<nat>, lost: set<nat>, live: seq<Running>, k: nat)
    requires Accounted(was, free, lost, live) && k < |live|
    ensures Accounted(was, free + FramesOf(live[k].image), lost, live[..k] + live[k + 1..])
  {
    hide FramesOf, AllFrames;
    var rest := live[..k] + live[k + 1..];
    AllFramesWithout(live, k);
    forall i | 0 <= i < |rest|
      ensures FramesOf(rest[i].image) !! FramesOf(live[k].image)
    {
      assert rest[i] == live[if i < k then i else i + 1];
    }
    AllFramesApart(rest, FramesOf(live[k].image));
    forall i, j | 0 <= i < j < |rest|
      ensures FramesOf(rest[i].image) !! FramesOf(rest[j].image)
    {
      assert rest[i] == live[if i < k then i else i + 1];
      assert rest[j] == live[if j < k then j else j + 1];
    }
  }

  // ---------- Runs ----------

  datatype Op =
    | LoadOp(bytes: seq<byte>, parsed: Parse)
    | ArgsOp(k: nat, strings: seq<seq<byte>>)
    | UnloadOp(k: nat)

  /** What is left of a live image when its frames are forgotten. */
  datatype Program = Program(bytes: seq<byte>, segs: seq<Phdr>, args: seq<Arguments>)

  function Programs(live: seq<Running>): seq<Program> {
    seq(|live|, i requires 0 <= i < |live| => Program(live[i].bytes, live[i].segs, live[i].args))
  }

  /** One operation; `loaded` says whether a load found the memory it needs. */
  function Perform(progs: seq<Program>, op: Op, loaded: bool): seq<Program> {
    match op
    case LoadOp(bytes, parsed) =>
      if loaded && Headers(parsed) then progs + [Program(bytes, parsed.segments.value, [])] else progs
    case ArgsOp(k, strings) =>
      if k < |progs| && ArgsOk(strings) then progs[k := progs[k].(args := progs[k].args + [strings])] else progs
    case UnloadOp(k) =>
      if k < |progs| then progs[..k] + progs[k + 1..] else progs
  }

  function PerformAll(ops: seq<Op>, loaded: seq<bool>): seq<Program>
    requires |loaded| == |ops|
  {
    if ops == [] then []
    else
      var n := |ops| - 1;
      Perform(PerformAll(ops[..n], loaded[..n]), ops[n], loaded[n])
  }

  ghost predicate World(was: set<nat>, free: set<nat>, lost: set<nat>, live: seq<Running>, spaces: map<int,
                        Space>, mem: seq<Page>) {
    Accounted(was, free, lost, live) && AllIntact(live, spaces, mem)
  }

  /** A loaded image joins the live ones. */
  lemma WorldLoad(was: set<nat>, free: set<nat>, left: set<nat>, lost: set<nat>, live: seq<Running>, r: Running,
                  spaces: map<int, Space>, mem: seq<Page>, spaces': map<int, Space>, mem': seq<Page>)
    requires World(was, free, lost, live, spaces, mem) && Isolated(free, mem, spaces, mem', spaces')
    requires Building(free, left, {}, r.image.l4, r.image.pages, r.image.pts, spaces')
    requires Shown(spaces', r.image.l4, mem') == LoadedImage(r.bytes, r.segs) && r.args == []
    requires Acceptable(r.bytes, r.segs)
    ensures World(was, left, lost, live + [r], spaces', mem') && SameShown(live, spaces, mem, spaces', mem')
  {
    hide Accounted, AllIntact, Held, Tracks, Isolated, LoadedImage, Acceptable, ListOk, StackMapped, Owned, AllFrames, SameShown;
    HeldRestores(free, left, r.image.l4, r.image.pages, r.image.pts);
    AccountLoad(was, free, left, lost, live, r);
    LoadedList(free, left, r.image.l4, r.image.pages, r.image.pts, spaces', mem', r.bytes, r.segs);
    FreeApart(was, free, lost, live);
    AllStayIntact(live, free, mem, spaces, mem', spaces');
    JoinIntact(live, r, spaces', mem');
  }

  lemma FreeApart(was: set<nat>, free: set<nat>, lost: set<nat>, live: seq<Running>)
    requires Accounted(was, free, lost, live)
    ensures AllFrames(live) !! free
  {
  }

  lemma JoinIntact(live: seq<Running>, r: Running, spaces: map<int, Space>, mem: seq<Page>)
    requires AllIntact(live, spaces, mem) && Intact(r, spaces, mem)
    ensures AllIntact(live + [r], spaces, mem)
  {
    hide Intact;
  }

  lemma WorldRefusal(was: set<nat>, free: set<nat>, left: set<nat>, lost: set<nat>, live: seq<Running>,
                     spaces: map<int, Space>, mem: seq<Page>, spaces': map<int, Space>, mem': seq<Page>)
    requires World(was, free, lost, live, spaces, mem) && Isolated(free, mem, spaces, mem', spaces') && left <= free
    ensures World(was, left, lost + (free - left), live, spaces', mem') && SameShown(live, spaces, mem, spaces', mem')
  {
    hide Accounted, AllIntact, Isolated, AllFrames, SameShown;
    AccountRefusal(was, free, left, lost, live);
    FreeApart(was, free, lost, live);
    AllStayIntact(live, free, mem, spaces, mem', spaces');
  }

  lemma WorldUnload(was: set<nat>, free: set<nat>, lost: set<nat>, live: seq<Running>, k: nat, spaces: map<int,
                    Space>, mem: seq<Page>)
    requires World(was, free, lost, live, spaces, mem) && k < |live|
    ensures forall f :: f in FramesOf(live[k].image) ==> f < MAX_FRAMES
    ensures World(was, free + FramesOf(live[k].image), lost, live[..k] + live[k + 1..], spaces, mem)
  {
    hide FramesOf, AllFrames, Intact;
    AllFramesMember(live, k);
    AccountUnload(was, free, lost, live, k);
  }

  /** Arguments written into one image: it shows them over what it showed, and no other image shows anything new. */
  lemma WorldArgs(was: set<nat>, free: set<nat>, lost: set<nat>, live: seq<Running>, k: nat, strings: Arguments,
                  spaces: map<int, Space>, mem: seq<Page>, mid: seq<Page>, mem': seq<Page>)
    requires World(was, free, lost, live, spaces, mem) && k < |live|
    requires WroteArgs(live[k].image.pages, strings, mem, mid, mem')
    ensures World(was, free, lost, live[k := live[k].(args := live[k].args + [strings])], spaces, mem')
    ensures SameShown(live[..k], spaces, mem, spaces, mem') && SameShown(live[k + 1..], spaces, mem, spaces, mem')
    ensures Shown(spaces, live[k].image.l4, mem') == WithArgs(Shown(spaces, live[k].image.l4, mem), strings)
  {
    hide AllFrames, Intact, FramesOf, Isolated, Shown, WroteArgs, WithArgs;
    var now := live[k := live[k].(args := live[k].args + [strings])];
    SameImages(live, now);
    assert Intact(live[k], spaces, mem);
    WriteIsolated(live[k].image, spaces, strings, mem, mid, mem');
    GainsArgs(live[k], strings, spaces, mem, mid, mem');
    forall i | 0 <= i < |live| && i != k
      ensures Intact(live[i], spaces, mem') && Shown(spaces, live[i].image.l4, mem') == Shown(spaces, live[i].image.l4, mem)
    {
      assert Intact(live[i], spaces, mem);
      assert FramesOf(live[i].image) !! FramesOf(live[k].image);
      StaysIntact(live[i], FramesOf(live[k].image), mem, spaces, mem', spaces);
    }
  }

  /** The two writes of `write_argv`, and that nothing outside the image's pages changed. */
  ghost predicate WroteArgs(pages: seq<Mapped>, strings: Arguments, mem: seq<Page>, mid: seq<Page>, mem': seq<Page>) {
    Room(strings);
    && Wrote(pages, mem, mid, Cursor(strings), Blob(strings))
    && Wrote(pages, mid, mem', RspFor(strings), Table(strings, |strings| + 3))
    && OnlyTouched(mem, mem', PageFrames(pages))
  }

  lemma GainsArgs(r: Running, strings: Arguments, spaces: map<int, Space>, mem: seq<Page>, mid: seq<Page>, mem': seq<Page>)
    requires Intact(r, spaces, mem) && WroteArgs(r.image.pages, strings, mem, mid, mem')
    ensures Intact(r.(args := r.args + [strings]), spaces, mem')
    ensures Shown(spaces, r.image.l4, mem') == WithArgs(Shown(spaces, r.image.l4, mem), strings)
  {
    hide Tracks, ListOk, StackMapped, Acceptable, View, Wrote, Blob, Table, RspFor, PutBytes, ReadsBack, PageFrames, OnlyTouched,
         LoadedImage, PageAt;
    Room(strings);
    var space, pages := spaces[r.image.l4], r.image.pages;
    ExpectedPages(r.bytes, r.segs, r.args);
    WroteView(space, pages, mem, mid, Cursor(strings), Blob(strings));
    ArgsKeys(View(space, mem), strings);
    WroteView(space, pages, mid, mem', RspFor(strings), Table(strings, |strings| + 3));
    ArgvReadsBack(pages, mem, mid, mem', strings, SetupFor(strings));
    assert (r.args + [strings])[..|r.args|] == r.args;
  }

  lemma ArgsKeys(v: map<int, PageSpec>, strings: Arguments)
    ensures |Blob(strings)| <= USER_STACK_TOP && PutBytes(v, Cursor(strings), Blob(strings)).Keys == v.Keys
  {
    Room(strings);
  }

  lemma {:induction false} SameImages(live: seq<Running>, now: seq<Running>)
    requires |live| == |now| && forall i :: 0 <= i < |live| ==> live[i].image == now[i].image
    ensures AllFrames(now) == AllFrames(live)
  {
    hide FramesOf;
    if live != [] {
      SameImages(live[1..], now[1..]);
    }
  }

  lemma WriteIsolated(i: Image, spaces: map<int, Space>, strings: Arguments, mem: seq<Page>, mid: seq<Page>, mem': seq<Page>)
    requires WroteArgs(i.pages, strings, mem, mid, mem')
    ensures Isolated(FramesOf(i), mem, spaces, mem', spaces)
  {
    hide PageFrames, Elements, Wrote, Blob, Table;
  }

  /** Argument lists leave the pages, their flags and everything off the stack as the file gives them. */
  lemma {:induction false} ExpectedOffStack(bytes: seq<byte>, segs: seq<Phdr>, args: seq<Arguments>)
    ensures SameOffStack(Expected(bytes, segs, args), LoadedImage(bytes, segs))
    decreases |args|
  {
    hide LoadedImage, WithArgs;
    if args != [] {
      var before := args[..|args| - 1];
      ExpectedOffStack(bytes, segs, before);
      ArgsOffStack(Expected(bytes, segs, before), args[|args| - 1]);
    }
  }

  lemma ExpectedPages(bytes: seq<byte>, segs: seq<Phdr>, args: seq<Arguments>)
    ensures forall p :: p in Expected(bytes, segs, args) ==> PageAt(p)
  {
    hide Expected;
    ExpectedOffStack(bytes, segs, args);
    SegsPages(bytes, segs);
  }

  lemma {:induction false} SegsPages(bytes: seq<byte>, segs: seq<Phdr>)
    ensures forall p :: p in SegsImage(bytes, segs) ==> PageAt(p)
    decreases |segs|
  {
    if segs != [] {
      SegsPages(bytes, segs[..|segs| - 1]);
    }
  }

  lemma WorldStart(was: set<nat>, spaces: map<int, Space>, mem: seq<Page>)
    requires forall f :: f in was ==> f < MAX_FRAMES
    ensures World(was, was, {}, [], spaces, mem)
  {
  }

  /** A load: no live image shows anything new. */
  method PerformLoad(m: Machine, op: Op, live: seq<Running>, ghost was: set<nat>, ghost lost: set<nat>)
    returns (loaded: bool, live': seq<Running>, ghost lost': set<nat>)
    requires m.Valid() && World(was, m.pmm.frames, lost, live, m.spaces, m.mem) && op.LoadOp?
    modifies m`mem, m`spaces, m`misses, m.pmm, m.pmm.bitmap
    ensures m.Valid() && World(was, m.pmm.frames, lost', live', m.spaces, m.mem)
    ensures SameShown(live, old(m.spaces), old(m.mem), m.spaces, m.mem)
    ensures Programs(live') == Perform(Programs(live), op, loaded) && m.misses >= old(m.misses)
    ensures if loaded then Loadable(op.bytes, op.parsed) else m.misses == old(m.misses) ==> !Loadable(op.bytes, op.parsed)
    ensures !KeepsL4(op.parsed) ==> lost' == lost
  {
    hide World, Isolated, Building, Shown, LoadedImage, Acceptable, SameShown, Allocator.Bits;
    ghost var free, spaces, mem := m.pmm.frames, m.spaces, m.mem;
    var r := Load(m, op.bytes, op.parsed);
    loaded := r.Some?;
    if r.Some? {
      var run := Running(r.value, op.bytes, op.parsed.segments.value, []);
      WorldLoad(was, free, m.pmm.frames, lost, live, run, spaces, mem, m.spaces, m.mem);
      live', lost' := live + [run], lost;
    } else {
      WorldRefusal(was, free, m.pmm.frames, lost, live, spaces, mem, m.spaces, m.mem);
      live', lost' := live, lost + (free - m.pmm.frames);
      assert m.pmm.frames == free ==> lost' == lost;
    }
  }

  /** An argument write: image `k` shows the arguments over what it showed, and no other shows anything new. */
  method PerformArgs(m: Machine, op: Op, live: seq<Running>, ghost was: set<nat>, ghost lost: set<nat>)
    returns (live': seq<Running>)
    requires m.Valid() && World(was, m.pmm.frames, lost, live, m.spaces, m.mem) && op.ArgsOp? && op.k < |live|
    modifies m`mem
    ensures m.Valid() && World(was, m.pmm.frames, lost, live', m.spaces, m.mem)
    ensures Programs(live') == Perform(Programs(live), op, false)
    ensures SameShown(live[..op.k], m.spaces, old(m.mem), m.spaces, m.mem)
    ensures SameShown(live[op.k + 1..], m.spaces, old(m.mem), m.spaces, m.mem)
    ensures var v := Shown(m.spaces, live[op.k].image.l4, old(m.mem));
      Shown(m.spaces, live[op.k].image.l4, m.mem) == if ArgsOk(op.strings) then WithArgs(v, op.strings) else v
  {
    hide World, OnlyTouched, PageFrames, ListOk, StackMapped, Wrote, Blob, Table, RspFor, Shown, WithArgs, Allocator.Bits;
    ghost var mem := m.mem;
    ImageReady(was, m.pmm.frames, lost, live, op.k, m.spaces, m.mem);
    ghost var mid;
    var s;
    s, mid := WriteArgv(m, live[op.k].image.pages, op.strings);
    live' := live;
    if s.Some? {
      WorldArgs(was, m.pmm.frames, lost, live, op.k, op.strings, m.spaces, mem, mid, m.mem);
      live' := live[op.k := live[op.k].(args := live[op.k].args + [op.strings])];
    }
  }

  lemma ImageReady(was: set<nat>, free: set<nat>, lost: set<nat>, live: seq<Running>, k: nat, spaces: map<int,
                   Space>, mem: seq<Page>)
    requires World(was, free, lost, live, spaces, mem) && k < |live|
    ensures ListOk(live[k].image.pages) && StackMapped(live[k].image.pages)
  {
    hide ListOk, StackMapped, Accounted;
    assert Intact(live[k], spaces, mem);
  }

  /** One operation of a run. */
  method PerformOne(m: Machine, op: Op, live: seq<Running>, ghost was: set<nat>, ghost lost: set<nat>)
    returns (loaded: bool, live': seq<Running>, ghost lost': set<nat>)
    requires m.Valid() && World(was, m.pmm.frames, lost, live, m.spaces, m.mem)
    modifies m`mem, m`spaces, m`misses, m`cr3, m.pmm, m.pmm.bitmap
    ensures m.Valid() && World(was, m.pmm.frames, lost', live', m.spaces, m.mem)
    ensures Programs(live') == Perform(Programs(live), op, loaded) && m.misses >= old(m.misses)
    ensures Answered(op, loaded, m.misses > old(m.misses)) && (!LosesL4(op) ==> lost' == lost)
  {
    hide World, Owned, Loadable, Perform, SameShown, Shown, Allocator.Bits;
    loaded, live', lost' := false, live, lost;
    if op.LoadOp? {
      loaded, live', lost' := PerformLoad(m, op, live, was, lost);
    } else if op.k < |live| && op.ArgsOp? {
      live' := PerformArgs(m, op, live, was, lost);
    } else if op.k < |live| {
      WorldUnload(was, m.pmm.frames, lost, live, op.k, m.spaces, m.mem);
      Unload(m, live[op.k].image);
      live' := live[..op.k] + live[op.k + 1..];
      ProgramsWithout(live, op.k);
    } else {
      ProgramsBeyond(live, op);
    }
  }

  /** A load that succeeds was of a loadable file; one that fails was not, unless memory ran out. */
  ghost predicate Answered(op: Op, loaded: bool, starved: bool) {
    op.LoadOp? ==> if loaded then Loadable(op.bytes, op.parsed) else starved || !Loadable(op.bytes, op.parsed)
  }

  /** The two kinds of files whose refusal costs the frame of the L4. */
  predicate LosesL4(op: Op) { op.LoadOp? && KeepsL4(op.parsed) }

  /** Over every run of loads, argument writes and unloads: the frames free, lost and owned by the live images
      are those free at the start, each in one place; the live images are those the operations give, a load
      failing on a loadable file only when memory ran out; every live image shows its own file, and on its
      stack the arguments written to it; and frames are lost only to files refused in one of the two ways
      that keep the L4. */
  method RunImages(m: Machine, ops: seq<Op>) returns (live: seq<Running>, loaded: seq<bool>, ghost lost: set<nat>)
    requires m.Valid()
    modifies m`mem, m`spaces, m`misses, m`cr3, m.pmm, m.pmm.bitmap
    ensures m.Valid() && World(old(m.pmm.frames), m.pmm.frames, lost, live, m.spaces, m.mem)
    ensures |loaded| == |ops| && Programs(live) == PerformAll(ops, loaded)
    ensures forall i :: 0 <= i < |ops| ==> Answered(ops[i], loaded[i], m.misses > old(m.misses))
    ensures (forall i :: 0 <= i < |ops| ==> !LosesL4(ops[i])) ==> lost == {}
  {
    hide World, Owned, Perform, Programs, Answered, LosesL4, Allocator.Bits;
    ghost var was := m.pmm.frames;
    m.pmm.Bounded();
    WorldStart(was, m.spaces, m.mem);
    live, loaded, lost := [], [], {};
    NoPrograms();
    for i := 0 to |ops|
      invariant m.Valid() && World(was, m.pmm.frames, lost, live, m.spaces, m.mem) && m.misses >= old(m.misses)
      invariant |loaded| == i && Programs(live) == PerformAll(ops[..i], loaded)
      invariant forall j :: 0 <= j < i ==> Answered(ops[j], loaded[j], m.misses > old(m.misses))
      invariant (forall j :: 0 <= j < i ==> !LosesL4(ops[j])) ==> lost == {}
    {
      ghost var answers, misses := loaded, m.misses;
      var done;
      done, live, lost := PerformOne(m, ops[i], live, was, lost);
      loaded := loaded + [done];
      PerformNext(ops, answers, i, done);
      forall j | 0 <= j <= i
        ensures Answered(ops[j], loaded[j], m.misses > old(m.misses))
      {
        StillAnswered(ops[j], loaded[j], if j < i then misses > old(m.misses) else m.misses > misses);
      }
    }
    assert ops[..|ops|] == ops;
  }

  lemma NoPrograms()
    ensures Programs([]) == PerformAll([], [])
  {
  }

  /** Running out of memory later excuses no less. */
  lemma StillAnswered(op: Op, loaded: bool, starved: bool)
    ensures Answered(op, loaded, starved) ==> Answered(op, loaded, true)
  {
  }

  lemma PerformNext(ops: seq<Op>, loaded: seq<bool>, i: nat, done: bool)
    requires |loaded| == i < |ops|
    ensures PerformAll(ops[..i + 1], loaded + [done]) == Perform(PerformAll(ops[..i], loaded), ops[i], done)
  {
    assert ops[..i + 1][..i] == ops[..i] && (loaded + [done])[..i] == loaded;
  }

  lemma ProgramsWithout(live: seq<Running>, k: nat)
    requires k < |live|
    ensures Programs(live[..k] + live[k + 1..]) == Perform(Programs(live), UnloadOp(k), false)
  {
  }

  /** Operations on images that are not there do nothing. */
  lemma ProgramsBeyond(live: seq<Running>, op: Op)
    requires !op.LoadOp? && op.k >= |live|
    ensures Perform(Programs(live), op, false) == Programs(live)
  {
  }

  /** What the accounting says of two live images. */
  lemma LiveApart(was: set<nat>, free: set<nat>, lost: set<nat>, live: seq<Running>, spaces: map<int, Space>,
                  mem: seq<Page>, i: nat, j: nat)
    requires World(was, free, lost, live, spaces, mem) && i < j < |live|
    ensures FramesOf(live[i].image) !! FramesOf(live[j].image) !! free
  {
    hide FramesOf, AllFrames, Intact;
    AllFramesMember(live, i);
    AllFramesMember(live, j);
  }

  /** What a live image shows, arguments or none: its file's pages and flags, off the stack its file's bytes,
      and on the stack zeros under the argument lists written, the last of which reads back. */
  lemma LiveShows(was: set<nat>, free: set<nat>, lost: set<nat>, live: seq<Running>, spaces: map<int, Space>,
                  mem: seq<Page>, i: nat)
    requires World(was, free, lost, live, spaces, mem) && i < |live|
    ensures Acceptable(live[i].bytes, live[i].segs)
    ensures Shown(spaces, live[i].image.l4, mem) == Expected(live[i].bytes, live[i].segs, live[i].args)
    ensures SameOffStack(Shown(spaces, live[i].image.l4, mem), LoadedImage(live[i].bytes, live[i].segs))
    ensures live[i].args != [] ==> var last := live[i].args[|live[i].args| - 1];
      ReadsBack(live[i].image.pages, mem, last, SetupFor(last))
  {
    hide Accounted, Expected, LoadedImage, Shown, Acceptable, SameOffStack, ReadsBack, SetupFor;
    assert Intact(live[i], spaces, mem);
    ExpectedOffStack(live[i].bytes, live[i].segs, live[i].args);
  }

  /** The bytes of a live image's segment are its file's below `p_filesz` and zero elsewhere, whatever was
      loaded, given arguments or unloaded beside it. */
  lemma LiveReads(was: set<nat>, free: set<nat>, lost: set<nat>, live: seq<Running>, spaces: map<int, Space>,
                  mem: seq<Page>, i: nat, k: nat, addr: nat)
    requires World(was, free, lost, live, spaces, mem) && i < |live| && k < |live[i].segs|
    requires live[i].segs[k].ptype == PT_LOAD && SegPage(live[i].segs[k], PageFloor(addr))
    ensures var ph, bytes := live[i].segs[k], live[i].bytes;
      && (ph.vaddr <= addr < ph.vaddr + ph.filesz ==> ph.offset + (addr - ph.vaddr) < |bytes|)
      && ReadUser(Shown(spaces, live[i].image.l4, mem), addr)
        == Some(if ph.vaddr <= addr < ph.vaddr + ph.filesz then bytes[ph.offset + (addr - ph.vaddr)] else 0)
  {
    hide World, Shown, Expected, SegsOk, SegsImage, ReadsBack;
    LiveShows(was, free, lost, live, spaces, mem, i);
    var bytes, segs := live[i].bytes, live[i].segs;
    SegmentReads(bytes, Parsed(EM_X86_64, ET_EXEC, 0, Some(segs)), k, addr);
    PageOfSegment(bytes, segs, k, PageFloor(addr));
    assert PageAt(PageFloor(addr)) && !StackPage(PageFloor(addr));
  }
}
