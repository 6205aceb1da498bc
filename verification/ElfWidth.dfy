/**
 The 64-bit sums of `map_segment` in kernel/src/task/elfload.rs. `Elf` adds without a width; here the sums
 wrap, as a release build's do, and a slice whose start lies behind its end panics.
 */
module ElfWidth {
  import opened Bytes
  import opened Pmm
  import opened Vmm
  import opened Elf

  /** What becomes of one page's copy. */
  datatype Copy = Nothing | Slice(lo: u64, hi: u64) | TooShort | Panics

  function Wrapped(x: nat): u64 { x % U64_LIMIT }

  function CopyLo(ph: Phdr, va: nat): nat { Max(ph.vaddr, va) }

  function CopyHi(ph: Phdr, va: nat): nat { Min(ph.vaddr + ph.filesz, va + FRAME_SIZE) }

  /** The copy for page `va` out of a file of `len` bytes. */
  function PageCopy(len: nat, ph: Phdr, va: nat): Copy {
    var lo, hi := CopyLo(ph, va), CopyHi(ph, va);
    if lo >= hi then Nothing else
      var fileOff := Wrapped(ph.offset + (lo - ph.vaddr));
      var srcEnd := Wrapped(fileOff + (hi - lo));
      if srcEnd > len then TooShort
      else if fileOff > srcEnd then Panics
      else Slice(fileOff, srcEnd)
  }

  /** How the copies of a segment end, from page `va` on, while frames and page tables suffice. */
  datatype Ending = AllCopied | Refused | Panicked

  function Copies(len: nat, ph: Phdr, va: nat): Ending
    decreases ph.vaddr + ph.memsz - va
  {
    if va >= ph.vaddr + ph.memsz then AllCopied else
      match PageCopy(len, ph, va)
      case TooShort => Refused
      case Panics => Panicked
      case _ => Copies(len, ph, va + FRAME_SIZE)
  }

  /** A program header that passes the checks before the loop, out of a file Rust can hold. */
  predicate Checked(len: nat, ph: Phdr) {
    && len <= I64_MAX && ph.offset < U64_LIMIT
    && ph.filesz <= ph.memsz && ph.vaddr + ph.memsz <= USER_CANON_MAX
  }

  /** How many file bytes the first page takes. */
  function FirstPart(ph: Phdr): nat { Min(ph.filesz, FRAME_SIZE - ph.vaddr % FRAME_SIZE) }

  /** The end of the first page's part wraps to a place within the file. */
  predicate WrapsIntoFile(len: nat, ph: Phdr) {
    ph.filesz > 0 && U64_LIMIT <= ph.offset + FirstPart(ph) <= U64_LIMIT + len
  }

  lemma NoWrap(x: nat)
    requires x < U64_LIMIT
    ensures Wrapped(x) == x
  {
  }

  lemma WrapsOnce(x: nat)
    requires U64_LIMIT <= x < 2 * U64_LIMIT
    ensures Wrapped(x) == x - U64_LIMIT
  {
  }

  /** Past the first page nothing wraps: the pages before it lie in the file. */
  lemma {:induction false} LaterPages(len: nat, ph: Phdr, va: nat)
    requires Checked(len, ph) && ph.vaddr <= va
    requires ph.filesz > 0 ==> ph.offset + Min(ph.filesz, va - ph.vaddr) <= len
    ensures Copies(len, ph, va) == if ph.filesz == 0 || ph.offset + ph.filesz <= len then AllCopied else Refused
    decreases ph.vaddr + ph.memsz - va
  {
    hide Wrapped;
    if va < ph.vaddr + ph.memsz {
      var lo, hi := CopyLo(ph, va), CopyHi(ph, va);
      if lo < hi {
        NoWrap(ph.offset + (lo - ph.vaddr));
        NoWrap(ph.offset + (hi - ph.vaddr));
      }
      if PageCopy(len, ph, va) != TooShort {
        LaterPages(len, ph, va + FRAME_SIZE);
      }
    }
  }

  /** The source panics exactly when the first part's end wraps into the file; on every other header it
      accepts and refuses as the length check means. */
  lemma CopiesMeaning(bytes: seq<byte>, ph: Phdr)
    requires Checked(|bytes|, ph)
    ensures Copies(|bytes|, ph, PageFloor(ph.vaddr)) ==
      if WrapsIntoFile(|bytes|, ph) then Panicked else if InFile(bytes, ph) then AllCopied else Refused
  {
    hide Wrapped;
    var len, va := |bytes|, PageFloor(ph.vaddr);
    FloorMonotone(ph.vaddr, ph.vaddr);
    if va < ph.vaddr + ph.memsz {
      var hi := CopyHi(ph, va);
      assert hi == ph.vaddr + FirstPart(ph);
      if ph.filesz > 0 {
        NoWrap(ph.offset);
        if ph.offset + FirstPart(ph) < U64_LIMIT {
          NoWrap(ph.offset + FirstPart(ph));
        } else {
          WrapsOnce(ph.offset + FirstPart(ph));
        }
      }
      if PageCopy(len, ph, va) != TooShort && PageCopy(len, ph, va) != Panics {
        LaterPages(len, ph, va + FRAME_SIZE);
      }
    }
  }

  /** The slices taken are the file's bytes that `Elf.FillPage` copies. */
  lemma SliceMeaning(bytes: seq<byte>, ph: Phdr, va: nat)
    requires Checked(|bytes|, ph) && SegPage(ph, va) && !WrapsIntoFile(|bytes|, ph)
    requires Copies(|bytes|, ph, PageFloor(ph.vaddr)) == AllCopied
    ensures PageCopy(|bytes|, ph, va) ==
      if CopyLo(ph, va) < CopyHi(ph, va)
      then Slice(ph.offset + (CopyLo(ph, va) - ph.vaddr), ph.offset + (CopyHi(ph, va) - ph.vaddr))
      else Nothing
  {
    hide Wrapped, Copies;
    CopiesMeaning(bytes, ph);
    var lo, hi := CopyLo(ph, va), CopyHi(ph, va);
    if lo < hi {
      NoWrap(ph.offset + (lo - ph.vaddr));
      NoWrap(ph.offset + (hi - ph.vaddr));
    }
  }

  /** A header that panics: one byte at offset 2^64 - 1, out of any file. */
  lemma PanickingHeader(bytes: seq<byte>)
    requires |bytes| <= I64_MAX
    ensures var ph := Phdr(PT_LOAD, 4, U64_LIMIT - 1, 0x40_0000, 1, 1);
      Checked(|bytes|, ph) && Copies(|bytes|, ph, PageFloor(ph.vaddr)) == Panicked && !InFile(bytes, ph)
  {
    hide Copies;
    var ph := Phdr(PT_LOAD, 4, U64_LIMIT - 1, 0x40_0000, 1, 1);
    assert FirstPart(ph) == 1;
    CopiesMeaning(bytes, ph);
  }
}
