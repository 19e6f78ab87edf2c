/** Bytes, flat storage images, and the little-endian words stored in them. */
module Bytes {
  import opened Alignment

  type byte = x: int | 0 <= x < 0x100
  type u32 = x: int | 0 <= x < 0x1_0000_0000

  datatype Option<+T> = None | Some(value: T)

  const U32: int := 0x1_0000_0000
  const U64: int := 0x1_0000_0000_0000_0000

  /** 32-bit unsigned arithmetic. */
  function W32(x: int): (r: u32)
    ensures 0 <= x < U32 ==> r == x
  {
    x % U32
  }

  function Min(a: int, b: int): int { if a < b then a else b }

  function Max(a: int, b: int): int { if a < b then b else a }

  /** `dst` with `n` elements from index `at` on replaced by those of `src` from index `from` on. */
  function Blit<T>(dst: seq<T>, at: nat, src: seq<T>, from: nat, n: nat): (r: seq<T>)
    requires at + n <= |dst| && from + n <= |src|
    ensures |r| == |dst|
    ensures forall i :: 0 <= i < |dst| ==> r[i] == if at <= i < at + n then src[from + i - at] else dst[i]
  {
    seq(|dst|, i requires 0 <= i < |dst| => if at <= i < at + n then src[from + i - at] else dst[i])
  }

  function Repeat<T>(v: T, n: nat): (r: seq<T>)
    ensures |r| == n && forall i :: 0 <= i < n ==> r[i] == v
  {
    seq(n, _ => v)
  }

  /** `t` differs from `s` at most in the index range [lo, hi). */
  ghost predicate SameOutside<T>(s: seq<T>, t: seq<T>, lo: int, hi: int) {
    && |s| == |t|
    && forall i :: 0 <= i < |s| && !(lo <= i < hi) ==> t[i] == s[i]
  }

  lemma SameItself<T>(s: seq<T>, lo: int, hi: int)
    ensures SameOutside(s, s, lo, hi)
  {
  }

  /** Every element of `s` in [lo, hi) is `v`. */
  ghost predicate Filled(s: seq<byte>, lo: int, hi: int, v: int) {
    0 <= lo <= hi <= |s| && forall i :: lo <= i < hi ==> s[i] == v
  }

  lemma FilledNone(s: seq<byte>, lo: nat, v: int)
    requires lo <= |s|
    ensures Filled(s, lo, lo, v)
  {
  }

  /** A range filled so far is extended by a change that fills the next part. */
  lemma FilledMore(s: seq<byte>, t: seq<byte>, lo: int, mid: int, hi: int, v: int)
    requires Filled(s, lo, mid, v) && SameOutside(s, t, mid, hi) && Filled(t, mid, hi, v)
    ensures Filled(t, lo, hi, v)
  {
  }

  lemma SameWider<T>(c: seq<T>, c': seq<T>, lo: nat, hi: nat, end: nat)
    requires SameOutside(c, c', lo, hi) && hi <= end
    ensures SameOutside(c, c', lo, end)
  {
  }

  /** Changes inside a range compose. */
  lemma SameTrans<T>(r: seq<T>, s: seq<T>, t: seq<T>, lo: int, hi: int, lo': int, hi': int)
    requires SameOutside(r, s, lo, hi) && SameOutside(s, t, lo', hi') && lo <= lo' && hi' <= hi
    ensures SameOutside(r, t, lo, hi)
  {
  }

  /** An interrupted Blit: every element is the old one or the one being written. */
  ghost predicate Torn<T>(dst: seq<T>, t: seq<T>, at: nat, src: seq<T>, from: nat, n: nat)
    requires at + n <= |dst| && from + n <= |src|
  {
    && SameOutside(dst, t, at, at + n)
    && forall i :: at <= i < at + n ==> t[i] == dst[i] || t[i] == src[from + i - at]
  }

  /** Two adjacent copies are one copy. */
  lemma BlitAppend<T>(dst: seq<T>, at: nat, src: seq<T>, from: nat, n: nat, m: nat)
    requires at + n + m <= |dst| && from + n + m <= |src|
    ensures Blit(Blit(dst, at, src, from, n), at + n, src, from + n, m) == Blit(dst, at, src, from, n + m)
  {
  }

  /** `cur` is `image` with the first `done` elements of a write of `src[at..]` to `addr` carried out. */
  ghost predicate Written<T>(image: seq<T>, cur: seq<T>, addr: nat, src: seq<T>, at: nat, done: nat) {
    addr + done <= |image| && at + done <= |src| && cur == Blit(image, addr, src, at, done)
  }

  lemma WrittenNone<T>(image: seq<T>, addr: nat, src: seq<T>, at: nat)
    requires addr <= |image| && at <= |src|
    ensures Written(image, image, addr, src, at, 0)
  {
  }

  lemma WrittenMore<T>(image: seq<T>, cur: seq<T>, next: seq<T>, addr: nat, src: seq<T>, at: nat, done: nat,
                       here: nat, from: nat, n: nat)
    requires Written(image, cur, addr, src, at, done)
    requires here == addr + done && from == at + done && here + n <= |image| && from + n <= |src|
    requires next == Blit(cur, here, src, from, n)
    ensures Written(image, next, addr, src, at, done + n)
  {
  }

  lemma WrittenAll<T>(image: seq<T>, cur: seq<T>, addr: nat, src: seq<T>, at: nat, size: nat)
    requires Written(image, cur, addr, src, at, size)
    ensures addr + size <= |image| && at + size <= |src| && cur == Blit(image, addr, src, at, size)
  {
  }

  /** A finished part of a write followed by a failure in the rest changes nothing outside the whole. */
  lemma WrittenThenTorn<T>(image: seq<T>, cur: seq<T>, next: seq<T>, addr: nat, src: seq<T>, at: nat, done: nat,
                           here: int, end: int)
    requires Written(image, cur, addr, src, at, done)
    requires here == addr + done <= end && SameOutside(cur, next, here, end)
    ensures SameOutside(image, next, addr, end)
  {
  }

  /** The C library's memcpy; the two buffers do not overlap. */
  method MemCpy(dst: array<byte>, dstAt: nat, src: array<byte>, srcAt: nat, n: nat)
    requires dst != src
    requires dstAt + n <= dst.Length && srcAt + n <= src.Length
    modifies dst
    ensures dst[..] == Blit(old(dst[..]), dstAt, old(src[..]), srcAt, n)
  {
    forall i | 0 <= i < n {
      dst[dstAt + i] := src[srcAt + i];
    }
  }

  /** The C library's memset. */
  method MemSet(dst: array<byte>, dstAt: nat, v: byte, n: nat)
    requires dstAt + n <= dst.Length
    modifies dst
    ensures dst[..] == Blit(old(dst[..]), dstAt, Repeat(v, n), 0, n)
  {
    forall i | 0 <= i < n {
      dst[dstAt + i] := v;
    }
  }

  /** The 32-bit word stored little-endian in four bytes. */
  function FromLe32(b: seq<byte>): (w: u32)
    requires |b| == 4
  {
    (b[0] as int) + 0x100 * (b[1] as int) + 0x1_0000 * (b[2] as int) + 0x100_0000 * (b[3] as int)
  }

  /** The four bytes of a 32-bit word, least significant first. */
  function ToLe32(w: u32): (b: seq<byte>)
    ensures |b| == 4
  {
    [w % 0x100, w / 0x100 % 0x100, w / 0x100 / 0x100 % 0x100, w / 0x100 / 0x100 / 0x100]
  }

  /** The bytes of a word are its digits to the base 256, least significant first, and give the word back. */
  lemma LeRoundTrip(w: u32)
    ensures FromLe32(ToLe32(w)) == w
    ensures var b := ToLe32(w);
            b[0] as int + 0x100 * (b[1] as int) + 0x1_0000 * (b[2] as int) + 0x100_0000 * (b[3] as int) == w
  {
    var p: int, q: int := w / 0x100, w / 0x100 / 0x100;
    assert w == 0x100 * p + w % 0x100 && p == 0x100 * q + p % 0x100 && q == 0x100 * (q / 0x100) + q % 0x100;
  }

  lemma LeRoundTripBytes(b: seq<byte>)
    requires |b| == 4
    ensures ToLe32(FromLe32(b)) == b
  {
    var w: int, b0: int, b1: int, b2: int, b3: int := FromLe32(b), b[0], b[1], b[2], b[3];
    DivUnique(w, 0x100, b1 + 0x100 * b2 + 0x1_0000 * b3, b0);
    DivUnique(w / 0x100, 0x100, b2 + 0x100 * b3, b1);
    DivUnique(w / 0x100 / 0x100, 0x100, b3, b2);
  }
}
