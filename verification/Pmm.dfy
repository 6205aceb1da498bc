/** The frame allocator of kernel/src/mem/pmm.rs: a bitmap with one bit per frame and a free counter. */
module Pmm {
  import opened Bytes

  const FRAME_SIZE: nat := 4096
  const MAX_FRAMES: nat := 1_048_576
  const BITMAP_BYTES: nat := 131_072

  /** `1 << k` */
  function Mask(k: nat): bv8
    requires k < 8
  {
    if k == 0 then 0x01 else if k == 1 then 0x02 else if k == 2 then 0x04 else if k == 3 then 0x08
    else if k == 4 then 0x10 else if k == 5 then 0x20 else if k == 6 then 0x40 else 0x80
  }

  lemma MaskMeaning(k: nat)
    requires k < 8
    ensures Mask(k) == (1 as bv8) << k
  {
  }

  predicate BitSet(b: bv8, k: nat)
    requires k < 8
  {
    b & Mask(k) != 0
  }

  lemma SettingOne(b: bv8, k: nat, j: nat)
    requires k < 8 && j < 8
    ensures BitSet(b | Mask(k), j) <==> j == k || BitSet(b, j)
  {
  }

  lemma ClearingOne(b: bv8, k: nat, j: nat)
    requires k < 8 && j < 8
    ensures BitSet(b & !Mask(k), j) <==> j != k && BitSet(b, j)
  {
  }

  /** A memory-map entry as the boot loader hands it over. */
  datatype Entry = Entry(usable: bool, base: nat, length: nat)

  /** Frame `f` lies wholly inside a usable entry. */
  predicate Inside(e: Entry, f: nat) {
    e.usable && e.base <= f * 4096 && (f + 1) * 4096 <= e.base + e.length
  }

  ghost predicate UsableFrame(entries: seq<Entry>, f: nat) {
    exists k :: 0 <= k < |entries| && Inside(entries[k], f)
  }

  /** Frames `s` to `s + n` are all in `frames`. */
  ghost predicate FreeRun(frames: set<nat>, s: nat, n: nat) {
    forall f :: s <= f < s + n ==> f in frames
  }

  class Allocator {
    const bitmap: array<bv8>
    var free: nat
    var total: nat
    /** The frames whose bit is clear. */
    ghost var frames: set<nat>

    ghost predicate Valid()
      reads this, bitmap
    {
      Bits() && free == |frames|
    }

    ghost predicate Bits()
      reads this`frames, bitmap
    {
      && bitmap.Length == BITMAP_BYTES
      && (forall f :: f in frames ==> f < MAX_FRAMES)
      && (forall f: nat :: f < MAX_FRAMES ==> (IsUsed(f) <==> f !in frames))
    }

    predicate IsUsed(f: nat)
      requires bitmap.Length == BITMAP_BYTES && f < MAX_FRAMES
      reads bitmap
    {
      BitSet(bitmap[f / 8], f % 8)
    }

    lemma UsedMeaning(f: nat)
      requires Bits() && f < MAX_FRAMES
      ensures bitmap.Length == BITMAP_BYTES && (IsUsed(f) <==> f !in frames)
    {
    }

    lemma Bounded()
      requires Bits()
      ensures forall f :: f in frames ==> f < MAX_FRAMES
    {
    }

    constructor ()
      ensures Valid() && fresh(bitmap) && frames == {}
    {
      bitmap := new bv8[BITMAP_BYTES](_ => 0xFF);
      free, total, frames := 0, 0, {};
    }

    method MarkUsed(f: nat)
      requires Bits() && f < MAX_FRAMES
      modifies bitmap, this`frames
      ensures Bits() && frames == old(frames) - {f}
    {
      hide BitSet, Mask;
      ghost var b := bitmap[f / 8];
      bitmap[f / 8] := bitmap[f / 8] | Mask(f % 8);
      frames := frames - {f};
      forall g: nat | g < MAX_FRAMES
        ensures IsUsed(g) <==> g !in frames
      {
        SettingOne(b, f % 8, g % 8);
        assert g != f && g / 8 == f / 8 ==> g % 8 != f % 8;
      }
    }

    method MarkFree(f: nat)
      requires Bits() && f < MAX_FRAMES
      modifies bitmap, this`frames
      ensures Bits() && frames == old(frames) + {f}
    {
      hide BitSet, Mask;
      ghost var b := bitmap[f / 8];
      bitmap[f / 8] := bitmap[f / 8] & !Mask(f % 8);
      frames := frames + {f};
      forall g: nat | g < MAX_FRAMES
        ensures IsUsed(g) <==> g !in frames
      {
        ClearingOne(b, f % 8, g % 8);
        assert g != f && g / 8 == f / 8 ==> g % 8 != f % 8;
      }
    }

    /** The lowest run of `n` free frames, or nothing exactly when there is none. */
    method AllocContiguous(n: nat) returns (r: Option<nat>)
      requires Valid()
      modifies this`free, this`frames, bitmap
      ensures Valid()
      ensures r.None? ==> frames == old(frames) && (n == 0 || forall s: nat :: !FreeRun(frames, s, n))
      ensures r.Some? ==>
        n > 0 && FreeRun(old(frames), r.value, n) && (forall s: nat :: s < r.value ==> !FreeRun(old(frames), s, n))
        && r.value + n <= MAX_FRAMES
        && (forall f: nat :: f in frames <==> f in old(frames) && !(r.value <= f < r.value + n))
    {
      hide Bits, IsUsed;
      if n == 0 {
        return None;
      }
      Bounded();
      var run, runStart, frame := 0, 0, 0;
      while frame < MAX_FRAMES
        invariant Valid() && frames == old(frames)
        invariant 0 <= frame <= MAX_FRAMES && run < n && run <= frame
        invariant run > 0 ==> runStart == frame - run
        invariant FreeRun(frames, frame - run, run)
        invariant frame - run > 0 ==> frame - run - 1 !in frames
        invariant forall s: nat :: s < frame - run ==> !FreeRun(frames, s, n)
      {
        UsedMeaning(frame);
        if IsUsed(frame) {
          run, frame := 0, frame + 1;
        } else {
          if run == 0 {
            runStart := frame;
          }
          run := run + 1;
          if run == n {
            TakeRun(runStart, n);
            return Some(runStart);
          }
          frame := frame + 1;
        }
      }
      forall s: nat | s >= MAX_FRAMES - run
        ensures !FreeRun(frames, s, n)
      {
        assert s + n - 1 !in frames;
      }
      r := None;
    }

    method TakeRun(start: nat, n: nat)
      requires Valid() && FreeRun(frames, start, n) && start + n <= MAX_FRAMES
      modifies this`free, this`frames, bitmap
      ensures Valid()
      ensures forall f: nat :: f in frames <==> f in old(frames) && !(start <= f < start + n)
    {
      hide Bits, IsUsed;
      assert free == |frames|;
      var i := 0;
      while i < n
        invariant 0 <= i <= n && Bits() && free == old(free)
        invariant forall f: nat :: f in frames <==> f in old(frames) && !(start <= f < start + i)
        invariant |frames| == old(|frames|) - i
      {
        assert start + i in frames;
        MarkUsed(start + i);
        i := i + 1;
      }
      free := free - n;
    }

    method Alloc() returns (r: Option<nat>)
      requires Valid()
      modifies this`free, this`frames, bitmap
      ensures Valid()
      ensures r.None? ==> frames == old(frames) == {}
      ensures r.Some? ==> r.value in old(frames) && r.value < MAX_FRAMES && frames == old(frames) - {r.value}
      ensures r.Some? ==> forall f :: f in old(frames) ==> r.value <= f
    {
      hide Bits;
      r := AllocContiguous(1);
      if r.None? {
        assert forall s: nat :: s in frames ==> FreeRun(frames, s, 1);
      } else {
        assert forall s: nat :: s < r.value && s in old(frames) ==> FreeRun(old(frames), s, 1);
      }
    }

    /** Marks the frames below the cap free; those already free are not counted again. */
    method FreeContiguous(start: nat, n: nat)
      requires Valid()
      modifies this`free, this`frames, bitmap
      ensures Valid()
      ensures forall f: nat :: f in frames <==> f in old(frames) || (start <= f < start + n && f < MAX_FRAMES)
    {
      hide Bits, IsUsed;
      var i, freed := 0, 0;
      while i < n
        invariant 0 <= i <= n && Bits() && free == old(free)
        invariant forall f: nat :: f in frames <==> f in old(frames) || (start <= f < start + i && f < MAX_FRAMES)
        invariant |frames| == old(|frames|) + freed
      {
        if start + i >= MAX_FRAMES {
          break;
        }
        UsedMeaning(start + i);
        if IsUsed(start + i) {
          MarkFree(start + i);
          freed := freed + 1;
        }
        i := i + 1;
      }
      free := free + freed;
    }

    method Free(frame: nat)
      requires Valid() && frame < MAX_FRAMES
      modifies this`free, this`frames, bitmap
      ensures Valid() && frames == old(frames) + {frame}
    {
      hide Bits;
      FreeContiguous(frame, 1);
    }

    /** Afterwards a frame is free exactly when it lies wholly inside one usable entry. */
    method Init(entries: seq<Entry>)
      requires bitmap.Length == BITMAP_BYTES
      modifies this, bitmap
      ensures Valid() && total == free
      ensures forall f: nat :: f in frames <==> f < 1_048_576 && UsableFrame(entries, f)
    {
      forall k | 0 <= k < bitmap.Length {
        bitmap[k] := 0xFF;
      }
      frames := {};
      var usable, k := 0, 0;
      while k < |entries|
        invariant 0 <= k <= |entries| && Bits() && |frames| == usable
        invariant forall f: nat :: f in frames <==> f < MAX_FRAMES && UsableFrame(entries[..k], f)
      {
        var n := FreeEntry(entries[k]);
        usable := usable + n;
        k := k + 1;
      }
      total, free := usable, usable;
    }

    method FreeEntry(e: Entry) returns (added: nat)
      requires Bits()
      modifies this`frames, bitmap
      ensures Bits() && |frames| == old(|frames|) + added
      ensures forall f: nat :: f in frames <==> f in old(frames) || (f < MAX_FRAMES && Inside(e, f))
    {
      hide Bits, IsUsed;
      added := 0;
      if !e.usable {
        return;
      }
      var start, end := (e.base + FRAME_SIZE - 1) / FRAME_SIZE, (e.base + e.length) / FRAME_SIZE;
      var frame := start;
      while frame < end
        invariant start <= frame && Bits() && |frames| == old(|frames|) + added
        invariant frame <= end || frame == start
        invariant forall f: nat :: f in frames <==> f in old(frames) || (f < MAX_FRAMES && start <= f < frame)
      {
        if frame >= MAX_FRAMES {
          break;
        }
        UsedMeaning(frame);
        if IsUsed(frame) {
          MarkFree(frame);
          added := added + 1;
        }
        frame := frame + 1;
      }
    }
  }
}
