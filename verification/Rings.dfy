/** Ring arithmetic: places in a buffer of `cap` slots, the window of elements from a head on, and cycle bits. */
module Rings {

  /** `(head + i) % cap` */
  function At(cap: nat, head: nat, i: nat): (r: nat)
    requires cap > 0
    ensures r < cap
  {
    (head + i) % cap
  }

  lemma ModValue(cap: nat, x: nat)
    requires cap > 0 && x < 2 * cap
    ensures x % cap == if x < cap then x else x - cap
  {
    if x >= cap {
      assert x == cap * 1 + (x - cap);
      ModUnique(cap, 1, x - cap);
    } else {
      ModUnique(cap, 0, x);
    }
  }

  lemma ModUnique(cap: nat, q: nat, r: nat)
    requires r < cap && q <= 1
    ensures (cap * q + r) % cap == r
  {
    var x := cap * q + r;
    assert x == cap * (x / cap) + x % cap;
  }

  lemma AtValue(cap: nat, head: nat, i: nat)
    requires head < cap && i <= cap
    ensures At(cap, head, i) == if head + i < cap then head + i else head + i - cap
  {
    ModValue(cap, head + i);
  }

  lemma AtAt(cap: nat, head: nat, n: nat, i: nat)
    requires head < cap && n <= cap && i <= cap && n + i <= cap
    ensures At(cap, At(cap, head, n), i) == At(cap, head, n + i)
  {
    hide At;
    AtValue(cap, head, n);
    AtValue(cap, At(cap, head, n), i);
    AtValue(cap, head, n + i);
  }

  /** Different places of one window are different slots. */
  lemma SlotsDiffer(cap: nat, head: nat, i: nat, j: nat)
    requires head < cap && i < cap && j < cap && i != j
    ensures At(cap, head, i) != At(cap, head, j)
  {
    hide At;
    AtValue(cap, head, i);
    AtValue(cap, head, j);
  }

  /** The `n` elements from `head` on, wrapping. */
  function Window<T>(buf: seq<T>, head: nat, n: nat): (w: seq<T>)
    requires |buf| > 0
    ensures |w| == n && forall i :: 0 <= i < n ==> w[i] == buf[At(|buf|, head, i)]
  {
    if n == 0 then [] else Window(buf, head, n - 1) + [buf[At(|buf|, head, n - 1)]]
  }

  /** Dropping elements at the front is moving the head. */
  lemma WindowDrop<T>(buf: seq<T>, head: nat, n: nat, k: nat)
    requires head < |buf| && k <= n <= |buf|
    ensures Window(buf, head, n)[k..] == Window(buf, At(|buf|, head, k), n - k)
  {
    hide Window, At;
    var a, b := Window(buf, head, n)[k..], Window(buf, At(|buf|, head, k), n - k);
    forall i | 0 <= i < n - k
      ensures a[i] == b[i]
    {
      AtAt(|buf|, head, k, i);
    }
  }

  /** Storing at place `k` changes that element of the window, or nothing if it lies outside. */
  lemma WindowSet<T>(buf: seq<T>, head: nat, n: nat, k: nat, e: T)
    requires head < |buf| && n <= |buf| && k < |buf|
    ensures Window(buf[At(|buf|, head, k) := e], head, n) == if k < n then Window(buf, head, n)[k := e] else Window(buf, head, n)
  {
    hide Window, At;
    var a := Window(buf[At(|buf|, head, k) := e], head, n);
    var b := if k < n then Window(buf, head, n)[k := e] else Window(buf, head, n);
    forall i: nat | i < n
      ensures a[i] == b[i]
    {
      if i != k {
        SlotsDiffer(|buf|, head, i, k);
      }
    }
  }

  /** An element stored right behind the window is appended. */
  lemma WindowStore<T>(buf: seq<T>, head: nat, n: nat, e: T)
    requires head < |buf| && n < |buf|
    ensures Window(buf[At(|buf|, head, n) := e], head, n + 1) == Window(buf, head, n) + [e]
  {
    hide At;
    WindowSet(buf, head, n, n, e);
  }

  /** A window that starts at the first slot is the buffer's front. */
  lemma WindowFlat<T>(buf: seq<T>, n: nat)
    requires 0 < |buf| && n <= |buf|
    ensures Window(buf, 0, n) == buf[..n]
  {
    hide Window, At;
    var a, b := Window(buf, 0, n), buf[..n];
    forall i | 0 <= i < n
      ensures a[i] == b[i]
    {
      AtValue(|buf|, 0, i);
    }
  }

  /** The cycle bit of lap `lap`: it starts at 1 and flips with every lap. */
  function Cyc(lap: int): nat {
    if lap % 2 == 0 then 1 else 0
  }

  /** Laps of the same cycle bit less than two apart are the same. */
  lemma SameLap(a: int, b: int)
    requires -2 < a - b < 2 && Cyc(a) == Cyc(b)
    ensures a == b
  {
  }
}
