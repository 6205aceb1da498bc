/**
 `write_argv` of kernel/src/task/elfload.rs: the initial process stack of section 3.4.1 of the
 System V AMD64 ABI, written through the image's page list.
 */
module Argv {
  import opened Bytes
  import opened Pmm
  import opened Vmm
  import opened Elf

  const ARGV_MAX: nat := 16
  const ARGV_STR_MAX: nat := 255

  datatype ArgvSetup = ArgvSetup(rsp: nat, argc: nat, argvPtr: nat)

  /** The argument lists `write_argv` accepts. */
  type Arguments = strings: seq<seq<byte>> | ArgsOk(strings) witness [[0]]

  /** One page per address and one frame per page, as `load` leaves the list. */
  ghost predicate ListOk(pages: seq<Mapped>) {
    && (forall i, j :: 0 <= i < j < |pages| ==> pages[i].va != pages[j].va && pages[i].frame != pages[j].frame)
    && (forall i :: 0 <= i < |pages| ==> pages[i].frame < MAX_FRAMES)
  }

  /** The byte an address leads to through the page list. */
  function UserByte(pages: seq<Mapped>, mem: seq<Page>, addr: nat): Option<byte> {
    var i := FindPage(pages, PageFloor(addr));
    if i < |pages| && pages[i].frame < |mem| then Some(mem[pages[i].frame][addr % FRAME_SIZE]) else None
  }

  predicate OnPage(pages: seq<Mapped>, addr: nat) {
    FindPage(pages, PageFloor(addr)) < |pages|
  }

  ghost predicate AllOnPages(pages: seq<Mapped>, lo: nat, hi: nat) {
    forall a: nat :: lo <= a < hi ==> OnPage(pages, a)
  }

  ghost predicate StackMapped(pages: seq<Mapped>) {
    forall p :: StackPage(p) ==> FindPage(pages, p) < |pages|
  }

  /** Reading through the page list is reading the address space. */
  lemma SameAsView(space: Space, pages: seq<Mapped>, mem: seq<Page>, addr: nat)
    requires Tracks(space, pages)
    ensures UserByte(pages, mem, addr) == ReadUser(View(space, mem), addr)
  {
    var p := PageFloor(addr);
    var i := FindPage(pages, p);
    if i < |pages| {
      assert pages[i].va in space;
    }
  }

  /** `after` differs from `before` exactly in holding `src` at `va`. */
  ghost predicate Wrote(pages: seq<Mapped>, before: seq<Page>, after: seq<Page>, va: nat, src: seq<byte>) {
    && |after| == |before|
    && (forall a: nat :: UserByte(pages, after, a) ==
          if va <= a < va + |src| then Some(src[a - va]) else UserByte(pages, before, a))
  }

  lemma WroteNothing(pages: seq<Mapped>, mem: seq<Page>, va: nat)
    ensures Wrote(pages, mem, mem, va, [])
  {
  }

  lemma WroteMore(pages: seq<Mapped>, a: seq<Page>, b: seq<Page>, c: seq<Page>, va: nat, src: seq<byte>, k: nat, n: nat)
    requires k + n <= |src| && Wrote(pages, a, b, va, src[..k]) && Wrote(pages, b, c, va + k, src[k..k + n])
    ensures Wrote(pages, a, c, va, src[..k + n])
  {
    hide UserByte;
  }

  /** `after` is `mem` with `chunk` copied into frame `f` at `off`. */
  ghost predicate Copied(mem: seq<Page>, after: seq<Page>, f: nat, off: nat, chunk: seq<byte>) {
    && f < |mem| && |after| == |mem| && off + |chunk| <= FRAME_SIZE
    && (forall g :: 0 <= g < |mem| && g != f ==> after[g] == mem[g])
    && (forall o :: 0 <= o < FRAME_SIZE ==> after[f][o] == if off <= o < off + |chunk| then chunk[o - off] else mem[f][o])
  }

  /** A copy into one frame, seen from user space. */
  lemma ChunkSeen(pages: seq<Mapped>, mem: seq<Page>, after: seq<Page>, i: nat, addr: nat, chunk: seq<byte>)
    requires ListOk(pages) && i == FindPage(pages, PageFloor(addr)) < |pages|
    requires Copied(mem, after, pages[i].frame, addr % FRAME_SIZE, chunk)
    ensures Wrote(pages, mem, after, addr, chunk)
  {
    hide FindPage, PageFloor, ListOk, UserByte;
    forall a: nat
      ensures UserByte(pages, after, a) == if addr <= a < addr + |chunk| then Some(chunk[a - addr]) else UserByte(pages, mem, a)
    {
      ByteSeen(pages, mem, after, i, addr, chunk, a);
    }
  }

  lemma ByteSeen(pages: seq<Mapped>, mem: seq<Page>, after: seq<Page>, i: nat, addr: nat, chunk: seq<byte>, a: nat)
    requires ListOk(pages) && i == FindPage(pages, PageFloor(addr)) < |pages|
    requires Copied(mem, after, pages[i].frame, addr % FRAME_SIZE, chunk)
    ensures UserByte(pages, after, a) == if addr <= a < addr + |chunk| then Some(chunk[a - addr]) else UserByte(pages, mem, a)
  {
    hide FindPage, PageFloor;
    SamePage(addr, |chunk|, a);
    var j := FindPage(pages, PageFloor(a));
    if j < |pages| && pages[j].frame == pages[i].frame {
      assert j == i;
    }
  }

  /** An address within a chunk lies on the chunk's page, at the matching offset. */
  lemma SamePage(addr: nat, n: nat, a: nat)
    requires addr % FRAME_SIZE + n <= FRAME_SIZE
    ensures addr <= a < addr + n ==> PageFloor(a) == PageFloor(addr) && a % FRAME_SIZE == addr % FRAME_SIZE + (a - addr)
    ensures PageFloor(a) == PageFloor(addr) && addr % FRAME_SIZE <= a % FRAME_SIZE < addr % FRAME_SIZE + n ==>
      addr <= a < addr + n
    ensures PageFloor(a) == PageFloor(addr) ==> a - addr == a % FRAME_SIZE - addr % FRAME_SIZE
  {
  }

  /** `write_user`: succeeds exactly when every page it meets is mapped. */
  method WriteUser(m: Machine, pages: seq<Mapped>, va: nat, src: seq<byte>) returns (ok: bool)
    requires m.Valid() && ListOk(pages)
    modifies m`mem
    ensures m.Valid() && OnlyTouched(old(m.mem), m.mem, PageFrames(pages))
    ensures ok ==> Wrote(pages, old(m.mem), m.mem, va, src)
    ensures ok <==> AllOnPages(pages, va, va + |src|)
  {
    hide ListOk, Wrote, FindPage, PageFloor, OnlyTouched, PageFrames, Allocator.Bits;
    var done := 0;
    TouchedNothing(m.mem, PageFrames(pages));
    WroteNothing(pages, m.mem, va);
    assert src[..0] == [];
    while done < |src|
      invariant 0 <= done <= |src| && m.Valid() && Wrote(pages, old(m.mem), m.mem, va, src[..done])
      invariant AllOnPages(pages, va, va + done) && OnlyTouched(old(m.mem), m.mem, PageFrames(pages))
    {
      var addr := va + done;
      var off, i := addr % FRAME_SIZE, FindPage(pages, PageFloor(addr));
      if i >= |pages| {
        assert !OnPage(pages, addr);
        return false;
      }
      var n := Min(|src| - done, FRAME_SIZE - off);
      FrameBound(pages, addr);
      ghost var before := m.mem;
      m.mem := m.mem[pages[i].frame := Splice(m.mem[pages[i].frame], off, src[done..done + n])];
      ChunkSeen(pages, before, m.mem, i, addr, src[done..done + n]);
      WroteMore(pages, old(m.mem), before, m.mem, va, src, done, n);
      TouchedPage(pages, old(m.mem), before, m.mem, i);
      forall a: nat | addr <= a < addr + n
        ensures OnPage(pages, a)
      {
        SamePage(addr, n, a);
      }
      done := done + n;
    }
    assert src[..|src|] == src;
    ok := true;
  }

  lemma TouchedNothing(mem: seq<Page>, frames: set<nat>)
    ensures OnlyTouched(mem, mem, frames)
  {
  }

  lemma TouchedThen(a: seq<Page>, b: seq<Page>, c: seq<Page>, frames: set<nat>)
    requires OnlyTouched(a, b, frames) && OnlyTouched(b, c, frames)
    ensures OnlyTouched(a, c, frames)
  {
  }

  /** A page of the list is one of the image's frames. */
  lemma TouchedPage(pages: seq<Mapped>, a: seq<Page>, b: seq<Page>, c: seq<Page>, i: nat)
    requires OnlyTouched(a, b, PageFrames(pages)) && i < |pages| && pages[i].frame < |b|
    requires |c| == |b| && forall f :: 0 <= f < |b| && f != pages[i].frame ==> c[f] == b[f]
    ensures OnlyTouched(a, c, PageFrames(pages))
  {
    assert pages[i].frame in PageFrames(pages);
  }

  lemma FrameBound(pages: seq<Mapped>, addr: nat)
    requires ListOk(pages) && FindPage(pages, PageFloor(addr)) < |pages|
    ensures pages[FindPage(pages, PageFloor(addr))].frame < MAX_FRAMES
  {
  }

  // ---------- The words and strings of the initial stack ----------

  /** The strings' bytes from the lowest address up: the last string first, each with its NUL. */
  function Blob(strings: seq<seq<byte>>): seq<byte>
    decreases |strings|
  {
    if strings == [] then [] else
      var n := |strings| - 1;
      strings[n] + [0] + Blob(strings[..n])
  }

  /** Where the strings begin. */
  function Cursor(strings: seq<seq<byte>>): int {
    USER_STACK_TOP - |Blob(strings)|
  }

  /** Where string `i` begins. */
  function StrAt(strings: seq<seq<byte>>, i: nat): int
    requires i < |strings|
  {
    Cursor(strings[..i + 1])
  }

  predicate ArgsOk(strings: seq<seq<byte>>) {
    1 <= |strings| <= ARGV_MAX && forall i :: 0 <= i < |strings| ==> 1 <= |strings[i]| <= ARGV_STR_MAX
  }

  /** Word `k` of the table at rsp: argc, the pointers, two null words. */
  function WordAt(strings: seq<seq<byte>>, k: nat): nat
    requires |Blob(strings)| <= USER_STACK_TOP
  {
    if k == 0 then |strings|
    else if k <= |strings| then
      BlobShorter(strings, k);
      StrAt(strings, k - 1)
    else 0
  }

  lemma {:induction false} BlobShorter(strings: seq<seq<byte>>, k: nat)
    requires k <= |strings|
    ensures |Blob(strings[..k])| <= |Blob(strings)|
    decreases |strings|
  {
    if k == |strings| {
      assert strings[..k] == strings;
    } else {
      BlobShorter(strings[..|strings| - 1], k);
      assert strings[..|strings| - 1][..k] == strings[..k];
    }
  }

  lemma {:induction false} BlobBound(strings: seq<seq<byte>>)
    requires forall i :: 0 <= i < |strings| ==> |strings[i]| <= ARGV_STR_MAX
    ensures |strings| <= |Blob(strings)| <= 256 * |strings|
    decreases |strings|
  {
    if strings != [] {
      BlobBound(strings[..|strings| - 1]);
    }
  }

  function RspFor(strings: seq<seq<byte>>): int {
    var top := Cursor(strings) - 8 * (|strings| + 3);
    top - top % 16
  }

  /** Everything fits between the stack's base and its top. */
  lemma Room(strings: seq<seq<byte>>)
    requires ArgsOk(strings)
    ensures USER_STACK_BASE <= RspFor(strings) <= RspFor(strings) + 8 * (|strings| + 3) <= Cursor(strings) <= USER_STACK_TOP
    ensures RspFor(strings) % 16 == 0
  {
    hide Blob;
    BlobBound(strings);
    Align(Cursor(strings) - 8 * (|strings| + 3));
  }

  lemma Align(x: int)
    ensures (x - x % 16) % 16 == 0 && x - 16 < x - x % 16 <= x
  {
  }

  lemma BlobStep(strings: seq<seq<byte>>, i: nat)
    requires i < |strings|
    ensures Blob(strings[..i + 1]) == strings[i] + [0] + Blob(strings[..i])
    ensures Cursor(strings[..i + 1]) == Cursor(strings[..i]) - (|strings[i]| + 1) == StrAt(strings, i)
  {
    assert strings[..i + 1][..i] == strings[..i];
  }

  /** Any part of the stack is mapped when the stack is. */
  lemma StackCovers(pages: seq<Mapped>, lo: nat, hi: nat)
    requires StackMapped(pages) && USER_STACK_BASE <= lo <= hi <= USER_STACK_TOP
    ensures AllOnPages(pages, lo, hi)
  {
    hide FindPage;
    forall a: nat | lo <= a < hi
      ensures OnPage(pages, a)
    {
      FloorMonotone(USER_STACK_BASE, a);
      assert StackPage(PageFloor(a));
    }
  }

  lemma WroteBelow(pages: seq<Mapped>, a: seq<Page>, b: seq<Page>, c: seq<Page>, lo: nat, src: seq<byte>, hi: nat, rest: seq<byte>)
    requires Wrote(pages, a, b, hi, rest) && Wrote(pages, b, c, lo, src) && lo + |src| == hi
    ensures Wrote(pages, a, c, lo, src + rest)
  {
    hide UserByte;
  }

  lemma WroteAbove(pages: seq<Mapped>, a: seq<Page>, b: seq<Page>, c: seq<Page>, lo: nat, src: seq<byte>, more: seq<byte>)
    requires Wrote(pages, a, b, lo, src) && Wrote(pages, b, c, lo + |src|, more)
    ensures Wrote(pages, a, c, lo, src + more)
  {
    hide UserByte;
  }

  /** The strings, last one lowest. */
  method WriteStrings(m: Machine, pages: seq<Mapped>, strings: seq<seq<byte>>) returns (ok: bool, cursor: nat, strVa: seq<nat>)
    requires m.Valid() && ListOk(pages) && StackMapped(pages) && ArgsOk(strings)
    modifies m`mem
    ensures m.Valid() && ok && cursor == Cursor(strings) && OnlyTouched(old(m.mem), m.mem, PageFrames(pages))
    ensures |strVa| == |strings| && forall i :: 0 <= i < |strVa| ==> strVa[i] == StrAt(strings, i)
    ensures Wrote(pages, old(m.mem), m.mem, cursor, Blob(strings))
  {
    hide ListOk, StackMapped, Wrote, Blob, AllOnPages, OnlyTouched, PageFrames, Allocator.Bits;
    TouchedNothing(m.mem, PageFrames(pages));
    cursor, strVa, ok := USER_STACK_TOP, [], true;
    WroteNothing(pages, m.mem, cursor);
    EmptyBlob(strings);
    Room(strings);
    var i := 0;
    while i < |strings|
      invariant 0 <= i <= |strings| && ok && m.Valid()
      invariant cursor == Cursor(strings[..i]) && |strVa| == i
      invariant forall j :: 0 <= j < i ==> strVa[j] == StrAt(strings, j)
      invariant Wrote(pages, old(m.mem), m.mem, cursor, Blob(strings[..i]))
      invariant OnlyTouched(old(m.mem), m.mem, PageFrames(pages))
    {
      BlobStep(strings, i);
      BlobShorter(strings, i);
      BlobShorter(strings, i + 1);
      ghost var hi, before := cursor, m.mem;
      cursor := cursor - (|strings[i]| + 1);
      StackCovers(pages, cursor, hi);
      ok := WriteUser(m, pages, cursor, strings[i] + [0]);
      TouchedThen(old(m.mem), before, m.mem, PageFrames(pages));
      WroteBelow(pages, old(m.mem), before, m.mem, cursor, strings[i] + [0], hi, Blob(strings[..i]));
      strVa := strVa + [cursor];
      i := i + 1;
    }
    assert strings[..i] == strings;
  }

  lemma EmptyBlob(strings: seq<seq<byte>>)
    ensures Blob(strings[..0]) == []
  {
  }

  /** The bytes of the first `k` words of the table. */
  function Table(strings: seq<seq<byte>>, k: nat): (t: seq<byte>)
    requires |Blob(strings)| <= USER_STACK_TOP
    ensures |t| == 8 * k
  {
    if k == 0 then [] else Table(strings, k - 1) + ToLe(WordAt(strings, k - 1), 8)
  }

  method WriteWord(m: Machine, pages: seq<Mapped>, strings: seq<seq<byte>>, rsp: nat, k: nat, value: nat, ghost before: seq<Page>)
    returns (ok: bool)
    requires m.Valid() && ListOk(pages) && StackMapped(pages) && |Blob(strings)| <= USER_STACK_TOP
    requires USER_STACK_BASE <= rsp && rsp + 8 * (k + 1) <= USER_STACK_TOP && value == WordAt(strings, k)
    requires Wrote(pages, before, m.mem, rsp, Table(strings, k))
    modifies m`mem
    ensures m.Valid() && ok && Wrote(pages, before, m.mem, rsp, Table(strings, k + 1))
    ensures OnlyTouched(old(m.mem), m.mem, PageFrames(pages))
  {
    hide ListOk, StackMapped, Wrote, Blob, AllOnPages, WordAt, OnlyTouched, PageFrames, Allocator.Bits;
    StackCovers(pages, rsp + 8 * k, rsp + 8 * (k + 1));
    ghost var mid := m.mem;
    ok := WriteUser(m, pages, rsp + 8 * k, ToLe(value, 8));
    WroteAbove(pages, before, mid, m.mem, rsp, Table(strings, k), ToLe(value, 8));
  }

  /** argc, the pointers and the two null words. */
  method WriteTable(m: Machine, pages: seq<Mapped>, strings: seq<seq<byte>>, rsp: nat, strVa: seq<nat>) returns (ok: bool)
    requires m.Valid() && ListOk(pages) && StackMapped(pages) && |Blob(strings)| <= USER_STACK_TOP
    requires USER_STACK_BASE <= rsp && rsp + 8 * (|strings| + 3) <= USER_STACK_TOP
    requires |strVa| == |strings| && forall i :: 0 <= i < |strVa| ==> strVa[i] == StrAt(strings, i)
    modifies m`mem
    ensures m.Valid() && ok && Wrote(pages, old(m.mem), m.mem, rsp, Table(strings, |strings| + 3))
    ensures OnlyTouched(old(m.mem), m.mem, PageFrames(pages))
  {
    hide ListOk, StackMapped, Wrote, Blob, AllOnPages, Table, OnlyTouched, PageFrames, Allocator.Bits;
    ghost var mid := m.mem;
    TableStart(pages, m.mem, strings, rsp);
    ok := WriteWord(m, pages, strings, rsp, 0, |strings|, mid);
    var k := 0;
    while k < |strings|
      invariant 0 <= k <= |strings| && m.Valid()
      invariant Wrote(pages, mid, m.mem, rsp, Table(strings, k + 1)) && OnlyTouched(mid, m.mem, PageFrames(pages))
    {
      ghost var before := m.mem;
      ok := WriteWord(m, pages, strings, rsp, k + 1, strVa[k], mid);
      TouchedThen(mid, before, m.mem, PageFrames(pages));
      k := k + 1;
    }
    ghost var nulls := m.mem;
    ok := WriteWord(m, pages, strings, rsp, |strings| + 1, 0, mid);
    TouchedThen(mid, nulls, m.mem, PageFrames(pages));
    nulls := m.mem;
    ok := WriteWord(m, pages, strings, rsp, |strings| + 2, 0, mid);
    TouchedThen(mid, nulls, m.mem, PageFrames(pages));
  }

  /** `write_argv`: on an image from `load` it succeeds exactly for 1 to 16 strings of 1 to 255 bytes,
      and writes the strings and the table and nothing else. */
  method WriteArgv(m: Machine, pages: seq<Mapped>, strings: seq<seq<byte>>) returns (r: Option<ArgvSetup>, ghost mid: seq<Page>)
    requires m.Valid() && ListOk(pages) && StackMapped(pages)
    modifies m`mem
    ensures m.Valid() && (r.Some? <==> ArgsOk(strings)) && (r.None? ==> m.mem == old(m.mem))
    ensures r.Some? <==> 1 <= |strings| <= 16 && forall i :: 0 <= i < |strings| ==> 1 <= |strings[i]| <= 255
    ensures OnlyTouched(old(m.mem), m.mem, PageFrames(pages))
    ensures r.Some? ==> r.value.rsp == RspFor(strings) && r.value.argc == |strings| && r.value.argvPtr == r.value.rsp + 8
    ensures r.Some? ==> |Blob(strings)| <= USER_STACK_TOP && Wrote(pages, old(m.mem), mid, Cursor(strings), Blob(strings))
    ensures r.Some? ==> Wrote(pages, mid, m.mem, r.value.rsp, Table(strings, |strings| + 3))
  {
    hide ListOk, StackMapped, Wrote, Blob, AllOnPages, Table, OnlyTouched, PageFrames, Allocator.Bits;
    mid := m.mem;
    TouchedNothing(m.mem, PageFrames(pages));
    if |strings| == 0 || |strings| > ARGV_MAX {
      return None, mid;
    }
    var k := 0;
    while k < |strings|
      invariant 0 <= k <= |strings|
      invariant forall i :: 0 <= i < k ==> 1 <= |strings[i]| <= ARGV_STR_MAX
    {
      if |strings[k]| == 0 || |strings[k]| > ARGV_STR_MAX {
        return None, mid;
      }
      k := k + 1;
    }
    Room(strings);
    var ok, cursor, strVa := WriteStrings(m, pages, strings);
    mid := m.mem;
    var table := 8 + (|strings| + 2) * 8;
    var rsp := cursor - table;
    rsp := rsp - rsp % 16;
    if rsp + table > cursor {
      assert false;
    }
    ok := WriteTable(m, pages, strings, rsp, strVa);
    TouchedThen(old(m.mem), mid, m.mem, PageFrames(pages));
    r := Some(ArgvSetup(rsp, |strings|, rsp + 8));
  }

  lemma TableStart(pages: seq<Mapped>, mem: seq<Page>, strings: seq<seq<byte>>, rsp: nat)
    requires |Blob(strings)| <= USER_STACK_TOP
    ensures Wrote(pages, mem, mem, rsp, Table(strings, 0))
  {
  }

  // ---------- Reading the initial stack back ----------

  /** `n` bytes from `addr`, if all are mapped. */
  function Read(pages: seq<Mapped>, mem: seq<Page>, addr: nat, n: nat): Option<seq<byte>> {
    if n == 0 then Some([]) else
      match (Read(pages, mem, addr, n - 1), UserByte(pages, mem, addr + n - 1))
      case (Some(s), Some(b)) => Some(s + [b])
      case _ => None
  }

  lemma {:induction false} ReadIs(pages: seq<Mapped>, mem: seq<Page>, addr: nat, s: seq<byte>)
    requires forall k :: 0 <= k < |s| ==> UserByte(pages, mem, addr + k) == Some(s[k])
    ensures Read(pages, mem, addr, |s|) == Some(s)
    decreases |s|
  {
    hide UserByte;
    if s != [] {
      var n := |s| - 1;
      ReadIs(pages, mem, addr, s[..n]);
      assert s == s[..n] + [s[n]];
    }
  }

  /** A 64-bit little-endian word. */
  function ReadWord(pages: seq<Mapped>, mem: seq<Page>, addr: nat): Option<nat> {
    match Read(pages, mem, addr, 8)
    case Some(s) => Some(FromLe(s))
    case None => None
  }

  lemma {:induction false} TableWord(strings: seq<seq<byte>>, k: nat, n: nat)
    requires |Blob(strings)| <= USER_STACK_TOP && k < n
    ensures Table(strings, n)[8 * k..8 * k + 8] == ToLe(WordAt(strings, k), 8)
  {
    hide WordAt, Blob;
    if k < n - 1 {
      TableWord(strings, k, n - 1);
      assert Table(strings, n)[8 * k..8 * k + 8] == Table(strings, n - 1)[8 * k..8 * k + 8];
    }
  }

  lemma {:induction false} BlobString(strings: seq<seq<byte>>, i: nat)
    requires i < |strings|
    ensures var at := StrAt(strings, i) - Cursor(strings);
      0 <= at && at + |strings[i]| + 1 <= |Blob(strings)| && Blob(strings)[at..at + |strings[i]| + 1] == strings[i] + [0]
    decreases |strings|
  {
    var n := |strings| - 1;
    var init := strings[..n];
    assert strings[..n + 1] == strings;
    if i < n {
      BlobString(init, i);
      assert init[..i + 1] == strings[..i + 1];
      var head, at := strings[n] + [0], StrAt(init, i) - Cursor(init);
      assert StrAt(strings, i) - Cursor(strings) == at + |head|;
      assert (head + Blob(init))[at + |head|..at + |head| + |strings[i]| + 1] == Blob(init)[at..at + |strings[i]| + 1];
    }
  }

  lemma ReadWrote(pages: seq<Mapped>, before: seq<Page>, after: seq<Page>, va: nat, src: seq<byte>, at: nat, n: nat)
    requires Wrote(pages, before, after, va, src) && at + n <= |src|
    ensures Read(pages, after, va + at, n) == Some(src[at..at + n])
  {
    hide UserByte, Read;
    ReadIs(pages, after, va + at, src[at..at + n]);
  }

  /** What lies outside the later write reads as before it. */
  lemma {:induction false} ReadKept(pages: seq<Mapped>, before: seq<Page>, after: seq<Page>, va: nat, src: seq<byte>,
                                    addr: nat, n: nat)
    requires Wrote(pages, before, after, va, src) && (addr + n <= va || va + |src| <= addr)
    ensures Read(pages, after, addr, n) == Read(pages, before, addr, n)
    decreases n
  {
    hide UserByte;
    if n > 0 {
      ReadKept(pages, before, after, va, src, addr, n - 1);
    }
  }

  /** From rsp up: argc, one pointer per string, two null words; each pointer leads to its string and a NUL. */
  lemma ArgvReads(pages: seq<Mapped>, before: seq<Page>, mid: seq<Page>, after: seq<Page>, strings: seq<seq<byte>>, i: nat)
    requires ArgsOk(strings) && i < |strings| && |Blob(strings)| <= USER_STACK_TOP && RspFor(strings) >= 0
    requires Wrote(pages, before, mid, Cursor(strings), Blob(strings))
    requires Wrote(pages, mid, after, RspFor(strings), Table(strings, |strings| + 3))
    ensures ReadWord(pages, after, RspFor(strings)) == Some(|strings|)
    ensures StrAt(strings, i) >= 0 && ReadWord(pages, after, RspFor(strings) + 8 + 8 * i) == Some(StrAt(strings, i))
    ensures Read(pages, after, StrAt(strings, i), |strings[i]| + 1) == Some(strings[i] + [0])
    ensures ReadWord(pages, after, RspFor(strings) + 8 + 8 * |strings|) == Some(0)
    ensures ReadWord(pages, after, RspFor(strings) + 16 + 8 * |strings|) == Some(0)
  {
    hide Wrote, Blob, Table, Read;
    Room(strings);
    TableReads(pages, mid, after, strings, 0);
    TableReads(pages, mid, after, strings, i + 1);
    TableReads(pages, mid, after, strings, |strings| + 1);
    TableReads(pages, mid, after, strings, |strings| + 2);
    BlobString(strings, i);
    ReadWrote(pages, before, mid, Cursor(strings), Blob(strings), StrAt(strings, i) - Cursor(strings), |strings[i]| + 1);
    ReadKept(pages, mid, after, RspFor(strings), Table(strings, |strings| + 3), StrAt(strings, i), |strings[i]| + 1);
  }

  lemma WordFits(strings: seq<seq<byte>>, k: nat)
    requires ArgsOk(strings) && |Blob(strings)| <= USER_STACK_TOP
    ensures WordAt(strings, k) < U64_LIMIT
  {
  }

  lemma TableReads(pages: seq<Mapped>, mid: seq<Page>, after: seq<Page>, strings: seq<seq<byte>>, k: nat)
    requires ArgsOk(strings) && k < |strings| + 3 && |Blob(strings)| <= USER_STACK_TOP && RspFor(strings) >= 0
    requires Wrote(pages, mid, after, RspFor(strings), Table(strings, |strings| + 3))
    ensures ReadWord(pages, after, RspFor(strings) + 8 * k) == Some(WordAt(strings, k))
  {
    hide Wrote, Blob, Table, Read, WordAt, FromLe, ToLe;
    ReadWrote(pages, mid, after, RspFor(strings), Table(strings, |strings| + 3), 8 * k, 8);
    TableWord(strings, k, |strings| + 3);
    WordFits(strings, k);
    Le64RoundTrip(WordAt(strings, k));
  }

  /** Outside the strings and the table every byte of the image is as it was. */
  lemma ArgvKeeps(pages: seq<Mapped>, before: seq<Page>, mid: seq<Page>, after: seq<Page>, strings: seq<seq<byte>>, a: nat)
    requires ArgsOk(strings) && |Blob(strings)| <= USER_STACK_TOP && RspFor(strings) >= 0
    requires Wrote(pages, before, mid, Cursor(strings), Blob(strings))
    requires Wrote(pages, mid, after, RspFor(strings), Table(strings, |strings| + 3))
    requires !(RspFor(strings) <= a < RspFor(strings) + 8 * (|strings| + 3)) && !(Cursor(strings) <= a < USER_STACK_TOP)
    ensures UserByte(pages, after, a) == UserByte(pages, before, a)
  {
    hide Blob, Table, UserByte;
  }

  // ---------- What a process sees of it ----------

  predicate PageAt(p: int) { p >= 0 && p % FRAME_SIZE == 0 }

  /** The page at `p` after `src` was written at `va`. */
  function PutPage(page: Page, p: int, va: int, src: seq<byte>): (r: Page)
    ensures forall o :: 0 <= o < FRAME_SIZE ==> r[o] == if va <= p + o < va + |src| then src[p + o - va] else page[o]
  {
    seq<byte>(FRAME_SIZE, o requires 0 <= o < FRAME_SIZE => if va <= p + o < va + |src| then src[p + o - va] else page[o])
  }

  /** A view with `src` written at `va`. */
  function PutBytes(v: map<int, PageSpec>, va: int, src: seq<byte>): map<int, PageSpec> {
    map p | p in v :: v[p].(bytes := PutPage(v[p].bytes, p, va, src))
  }

  /** A view with the strings and the table written. */
  function WithArgs(v: map<int, PageSpec>, strings: Arguments): map<int, PageSpec> {
    Room(strings);
    PutBytes(PutBytes(v, Cursor(strings), Blob(strings)), RspFor(strings), Table(strings, |strings| + 3))
  }

  /** What a write through the page list does to the address space. */
  lemma WroteView(space: Space, pages: seq<Mapped>, before: seq<Page>, after: seq<Page>, va: nat, src: seq<byte>)
    requires Tracks(space, pages) && Wrote(pages, before, after, va, src)
    requires forall p :: p in View(space, before) ==> PageAt(p)
    ensures View(space, after) == PutBytes(View(space, before), va, src)
  {
    hide Tracks, Wrote, UserByte;
    var v, w := View(space, before), View(space, after);
    assert |before| == |after| by {
      WroteLength(pages, before, after, va, src);
    }
    forall p | p in v
      ensures w[p].bytes == PutPage(v[p].bytes, p, va, src)
    {
      assert PageAt(p);
      forall o | 0 <= o < FRAME_SIZE
        ensures w[p].bytes[o] == PutPage(v[p].bytes, p, va, src)[o]
      {
        SameAsView(space, pages, before, p + o);
        SameAsView(space, pages, after, p + o);
        WroteAt(pages, before, after, va, src, p + o);
        assert PageFloor(p + o) == p && (p + o) % FRAME_SIZE == o;
      }
    }
  }

  lemma WroteLength(pages: seq<Mapped>, before: seq<Page>, after: seq<Page>, va: nat, src: seq<byte>)
    requires Wrote(pages, before, after, va, src)
    ensures |after| == |before|
  {
  }

  lemma WroteAt(pages: seq<Mapped>, before: seq<Page>, after: seq<Page>, va: nat, src: seq<byte>, a: nat)
    requires Wrote(pages, before, after, va, src)
    ensures UserByte(pages, after, a) == if va <= a < va + |src| then Some(src[a - va]) else UserByte(pages, before, a)
  {
    hide UserByte;
  }

  /** The same pages with the same flags, and off the stack the same bytes. */
  ghost predicate SameOffStack(v: map<int, PageSpec>, w: map<int, PageSpec>) {
    && v.Keys == w.Keys
    && (forall p :: p in w ==> v[p].writable == w[p].writable && v[p].executable == w[p].executable)
    && (forall p :: p in w && PageAt(p) && !StackPage(p) ==> v[p] == w[p])
  }

  /** Arguments show on the stack only. */
  lemma ArgsOffStack(v: map<int, PageSpec>, strings: Arguments)
    ensures SameOffStack(WithArgs(v, strings), v)
  {
    hide Blob, Table, RspFor;
    Room(strings);
    PutOffStack(v, Cursor(strings), Blob(strings));
    var w := PutBytes(v, Cursor(strings), Blob(strings));
    PutOffStack(w, RspFor(strings), Table(strings, |strings| + 3));
  }

  lemma PutOffStack(v: map<int, PageSpec>, va: int, src: seq<byte>)
    requires USER_STACK_BASE <= va && va + |src| <= USER_STACK_TOP
    ensures SameOffStack(PutBytes(v, va, src), v)
  {
    forall p | p in v && PageAt(p) && !StackPage(p)
      ensures PutPage(v[p].bytes, p, va, src) == v[p].bytes
    {
      forall o | 0 <= o < FRAME_SIZE
        ensures PutPage(v[p].bytes, p, va, src)[o] == v[p].bytes[o]
      {
      }
    }
  }

  /** The strings lie one below the other from the top of the stack down, the first one highest, and the table below
      them as high as an address divisible by 16 allows. */
  lemma Regions(strings: seq<seq<byte>>, i: nat)
    requires ArgsOk(strings) && i < |strings|
    ensures StrAt(strings, i) + |strings[i]| + 1 == if i == 0 then 0x8000_0000 else StrAt(strings, i - 1)
    ensures var end := RspFor(strings) + 8 * (|strings| + 3);
      end <= StrAt(strings, |strings| - 1) < end + 16 && RspFor(strings) % 16 == 0
  {
    Room(strings);
    BlobStep(strings, i);
    assert strings[..|strings|] == strings;
  }

  /** An image from `load` has what `write_argv` needs. */
  lemma LoadedList(was: set<nat>, free: set<nat>, l4: nat, pages: seq<Mapped>, pts: seq<nat>, spaces: map<int, Space>,
                   mem: seq<Page>, bytes: seq<byte>, segs: seq<Phdr>)
    requires Building(was, free, {}, l4, pages, pts, spaces) && Shown(spaces, l4, mem) == LoadedImage(bytes, segs)
    ensures ListOk(pages) && StackMapped(pages)
  {
    hide FindPage, SegsImage;
    forall i | 0 <= i < |pages|
      ensures pages[i].frame < MAX_FRAMES
    {
      assert pages[i].frame in PageFrames(pages);
    }
    forall p | StackPage(p)
      ensures FindPage(pages, p) < |pages|
    {
      assert p in StackImage(USER_STACK_PAGES);
      assert p in View(spaces[l4], mem);
    }
  }
}
