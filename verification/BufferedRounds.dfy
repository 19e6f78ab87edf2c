/**
 * The rounds of the program loop of BufferedBlockDevice, on numbers and byte sequences: where the 32 bits of its
 * rounding send a request, and what that does to the array.
 */
module BufferedRounds {
  import opened Alignment
  import opened Bytes
  import opened BlockDevices

  /** The helper returns 32 bits whatever the width of its arguments. */
  function AlignDown(val: nat, size: nat): (r: nat)
    requires size > 0
  {
    val / size * size % U32
  }

  /** What it loses is a multiple of 2^32. */
  lemma AlignDownModulo(val: nat, size: nat)
    requires size > 0
    ensures AlignDown(val, size) < 0x1_0000_0000 && (UnitOf(val, size) - AlignDown(val, size)) % 0x1_0000_0000 == 0
  {
    assert val / size * size == UnitOf(val, size);
  }

  /** Rounding is exact for exactly the values whose unit starts below 2^32. */
  lemma AlignDownExact(val: nat, size: nat)
    requires size > 0
    ensures AlignDown(val, size) == UnitOf(val, size) <==> UnitOf(val, size) < U32
  {
    assert val / size * size == UnitOf(val, size);
  }

  /** A chunk of 2^32 bytes is rounded to zero, with which a copying loop makes no progress. */
  lemma AlignDownLosesWholeChunk()
    ensures AlignDown(U32, 1) == 0
  {
  }

  /** How program ends: as it should, with a unit marked as cached that was never loaded, or with a copy outside the
      cache. */
  datatype Fate = Regular | Stale | Undefined

  /** The first round of the program loop, on `s` bytes at `a`. */
  function Chunk(a: nat, s: nat, m: nat): (n: nat)
    requires m > 0
  {
    if a % m != 0 then Min(m - a % m, s) else if s >= m then UnitOf(s, m) else s
  }

  /**
   * Where the loop first starts a round in a unit at or above 2^32, or else the end of the request. A round starts at
   * its address, at the border behind a partial first unit, and at the border before a partial last one.
   */
  function Stop(a: nat, s: nat, m: nat): (stop: nat)
    requires m > 0
    ensures a <= stop <= a + s
  {
    if s == 0 || UnitOf(a, m) >= U32 then a
    else if a % m != 0 && U32 <= UnitOf(a, m) + m < a + s then UnitOf(a, m) + m
    else if (a + s) % m != 0 && UnitOf(a + s, m) >= U32 then UnitMonoAt(a, a + s, m); UnitOf(a + s, m)
    else a + s
  }

  lemma UnitMonoAt(a: nat, b: nat, m: nat)
    requires m > 0 && UnitOf(a, m) < U32 <= UnitOf(b, m)
    ensures a <= UnitOf(b, m)
  {
    UnitsApart(UnitOf(a, m), UnitOf(b, m), m);
  }

  /** The rounds of the loop find that address. */
  lemma StopFound(a: nat, s: nat, m: nat)
    requires m > 0 && s > 0
    ensures UnitOf(a, m) >= U32 ==> Stop(a, s, m) == a
    ensures var n := Chunk(a, s, m);
            && 0 < n <= s
            && (n < s ==> (a + n) % m == 0)
            && (UnitOf(a, m) < U32 ==> Stop(a, s, m) == if n < s then Stop(a + n, s - n, m) else a + s)
  {
    if a % m != 0 {
      StopAfterPart(a, s, m, Chunk(a, s, m));
    } else if s >= m {
      StopAfterUnits(a, s, m, Chunk(a, s, m));
    } else {
      UnitUnique(a, a, m);
      if (a + s) % m != 0 {
        UnitUnique(a + s, a, m);
      }
    }
  }

  lemma StopAfterPart(a: nat, s: nat, m: nat, n: nat)
    requires m > 0 && s > 0 && a % m != 0 && n == Min(m - a % m, s)
    ensures n < s ==> (a + n) % m == 0
    ensures UnitOf(a, m) < U32 ==> Stop(a, s, m) == if n < s then Stop(a + n, s - n, m) else a + s
  {
    hide UnitOf;
    var u, b := UnitOf(a, m), a + n;
    PartOffset(a, m);
    AddPeriod(u, m);
    if n < s {
      UnitUnique(b, b, m);
      assert b == u + m && b + (s - n) == a + s;
    } else if (a + s) % m != 0 {
      UnitUnique(a + s, u, m);
    }
  }

  lemma PartOffset(a: nat, m: nat)
    requires m > 0
    ensures a - a % m == UnitOf(a, m)
  {
  }

  lemma StopAfterUnits(a: nat, s: nat, m: nat, n: nat)
    requires m > 0 && s >= m && a % m == 0 && n == UnitOf(s, m)
    ensures 0 < n <= s
    ensures n < s ==> (a + n) % m == 0
    ensures UnitOf(a, m) < U32 ==> Stop(a, s, m) == if n < s then Stop(a + n, s - n, m) else a + s
  {
    hide UnitOf;
    var b := a + n;
    UnitsAtLeast(s, m);
    Multiples(a, n, m);
    UnitUnique(a, a, m);
    if n < s {
      UnitUnique(b, b, m);
      UnitUnique(a + s, b, m);
      assert b + (s - n) == a + s;
    }
  }

  lemma UnitsAtLeast(s: nat, m: nat)
    requires 0 < m <= s
    ensures UnitOf(s, m) >= m
  {
    UnitMono(m, s, m);
    UnitUnique(m, m, m);
  }

  /**
   * For unit sizes that divide 2^32: a request is rerouted exactly if it has bytes at or above 2^32 and either starts
   * in or behind the unit before that address (not on its border), or ends inside a unit.
   */
  lemma ReroutesExactly(addr: nat, size: nat, m: nat)
    requires 0 < m <= U32 && U32 % m == 0
    ensures Reroutes(addr, size, m) <==>
            size > 0 && addr + size > U32 && (addr > U32 - m || (addr + size) % m != 0)
  {
    hide UnitOf;
    var end := addr + size;
    LowUnit(addr, m);
    LowUnit(end, m);
    if addr < U32 {
      LastUnit(addr, m);
      SelfAligned(m);
      if end % m != 0 {
        PartOffset(end, m);
      }
    }
  }

  lemma LowUnit(a: nat, m: nat)
    requires 0 < m && U32 % m == 0
    ensures UnitOf(a, m) >= U32 <==> a >= U32
    ensures a % m != 0 ==> a != U32
  {
    if a >= U32 {
      UnitMono(U32, a, m);
      UnitUnique(U32, U32, m);
    }
  }

  lemma LastUnit(a: nat, m: nat)
    requires 0 < m <= U32 && U32 % m == 0 && a < U32
    ensures UnitOf(a, m) + m <= U32
    ensures UnitOf(a, m) + m == U32 && a % m != 0 <==> a > U32 - m
  {
    hide UnitOf;
    SelfAligned(m);
    Multiples(U32, m, m);
    UnitsApart(UnitOf(a, m), U32, m);
    PartOffset(a, m);
    if a >= U32 - m {
      UnitUnique(a, U32 - m, m);
    }
  }

  lemma AlignDownBelow(a: nat, m: nat)
    requires m > 0
    ensures AlignDown(a, m) < U32 && AlignDown(a, m) <= UnitOf(a, m)
    ensures UnitOf(a, m) >= U32 ==> AlignDown(a, m) + U32 <= UnitOf(a, m)
  {
    AlignDownExact(a, m);
    assert a / m * m == UnitOf(a, m);
  }

  /** Where a round below 2^32 ends. */
  lemma RoundShape(a: nat, s: nat, m: nat, n: nat)
    requires 0 < m && 0 < s < U32 && n == Chunk(a, s, m)
    ensures var u := UnitOf(a, m);
            && 0 < n <= s
            && (n < m ==>
                  && a + n <= u + m && (a + n != u + m ==> n == s && UnitOf(a + n, m) == u)
                  && (a + n == u + m <==> (a + n) % m == 0))
            && (n >= m ==> u == a && (a + n) % m == 0 && n % m == 0 && a + n <= UnitOf(a + s - 1, m) + m)
  {
    StopFound(a, s, m);
    ChunkEnd(a, n, m);
    if n >= m {
      WholeUnits(a, s, m);
      UnitUnique(a, a, m);
    }
  }

  /** The chunk that the code computes, with its 64-bit difference. */
  lemma RoundOf(a: nat, s: nat, m: nat, low: nat, chunk: nat)
    requires 0 < m < U32 && 0 < s < U32 && a < U64 && low == AlignDown(a, m) <= a
    requires chunk == if a != low then Min(W64(m - (a - low)), s) else if s >= m then AlignDown(s, m) else s
    ensures UnitOf(a, m) < U32 ==> chunk == Chunk(a, s, m)
    ensures UnitOf(a, m) >= U32 ==> chunk == s && a - low >= U32
  {
    hide UnitOf, W64, AlignDown;
    AlignDownBelow(a, m);
    AlignDownExact(a, m);
    AlignDownExact(s, m);
    if UnitOf(a, m) >= U32 {
      BorrowOnce(m - (a - low));
      RoomAbove(a, m, low);
    } else {
      UnitUnique(a, low, m);
    }
  }

  /** The difference that bounds the chunk there is beyond any request of less than 2^32 bytes, also when that wraps. */
  lemma RoomAbove(a: nat, m: nat, low: nat)
    requires 0 < m < U32 && a < U64 && low == AlignDown(a, m) && UnitOf(a, m) >= U32
    ensures U64 + m - (a - low) >= U32
  {
    var u := UnitOf(a, m);
    assert low == u % U32 by {
      assert a / m * m == u;
    }
    var y := U64 - u;
    if y <= U32 {
      DivUnique(u, U32, U32 - 1, U32 - y) by { assert U64 == U32 * U32; }
    }
  }

  lemma BorrowOnce(x: int)
    requires -U64 < x < 0
    ensures W64(x) == x + U64
  {
    DivUnique(x, U64, -1, x + U64);
  }

  /** Where a chunk ends relative to the unit it starts in. */
  lemma ChunkEnd(a: nat, n: nat, m: nat)
    requires m > 0 && n > 0
    ensures var u := UnitOf(a, m);
            && (a + n - u < m ==> (a + n) % m != 0 && UnitOf(a + n, m) == u)
            && (a + n - u == m ==> (a + n) % m == 0)
            && UnitOf(a + n - 1, m) >= u
  {
    var u := UnitOf(a, m);
    if a + n - u < m {
      UnitUnique(a + n, u, m);
    } else if a + n - u == m {
      AddPeriod(u, m);
    }
    UnitMono(a, a + n - 1, m);
  }

  /** Whole units of a request that starts on a unit border. */
  lemma WholeUnits(a: nat, s: nat, m: nat)
    requires m > 0 && a % m == 0 && m <= s < U32
    ensures AlignDown(s, m) == UnitOf(s, m) && m <= UnitOf(s, m) <= s
    ensures (a + UnitOf(s, m)) % m == 0
    ensures a + UnitOf(s, m) <= UnitOf(a + s - 1, m) + m
  {
    AlignDownExact(s, m);
    Multiples(a, UnitOf(s, m), m);
    DivUnique(m, m, 1, 0);
    UnitMono(m, s, m);
  }

  // Where a rerouted request goes.

  predicate Reroutes(addr: nat, size: nat, m: nat)
    requires m > 0
  {
    Stop(addr, size, m) < addr + size
  }

  /** How much of the request is rerouted, and to where. */
  function RestOf(addr: nat, size: nat, m: nat): (r: nat)
    requires m > 0
  {
    addr + size - Stop(addr, size, m)
  }

  function LowOf(addr: nat, size: nat, m: nat): (r: nat)
    requires m > 0
  {
    AlignDown(Stop(addr, size, m), m)
  }

  /** Counted from there, the request ends on a border. */
  predicate Whole(addr: nat, size: nat, m: nat)
    requires m > 0
  {
    W64(addr + size - LowOf(addr, size, m)) % m == 0
  }

  /** When a request is dropped or overflows the cache of a device of `total` bytes. */
  predicate Odd(fate: Fate, addr: nat, size: nat, m: nat, total: nat)
    requires m > 0
  {
    && Reroutes(addr, size, m) && InReach(total, addr, size, m)
    && (fate.Stale? ==> RestOf(addr, size, m) >= m && !Whole(addr, size, m))
    && (fate.Undefined? ==> RestOf(addr, size, m) < m)
  }

  /** On a dependable device, how a request ends whose part before `Stop` is in range. */
  predicate Exact(fate: Fate, ret: int, addr: nat, size: nat, m: nat, readSize: nat, total: nat)
    requires m > 0 && readSize > 0
  {
    if !Reroutes(addr, size, m) then fate.Regular? && ret == 0
    else
      && (fate.Regular? && ret == 0 <==> Accepts(addr, size, m, total))
      && (fate.Stale? <==> RestOf(addr, size, m) >= m && !Whole(addr, size, m))
      && (fate.Undefined? <==> Overflows(addr, size, m, readSize, total))
  }

  /** A device of `total` bytes takes the rest of the request where it is sent. */
  predicate Accepts(addr: nat, size: nat, m: nat, total: nat)
    requires m > 0
  {
    && RestOf(addr, size, m) >= m && Whole(addr, size, m)
    && IsValidProgram(m, total, LowOf(addr, size, m), RestOf(addr, size, m))
  }

  /** The rest is less than a unit, and the unit at the low address can be loaded. */
  predicate Overflows(addr: nat, size: nat, m: nat, readSize: nat, total: nat)
    requires m > 0 && readSize > 0
  {
    RestOf(addr, size, m) < m && IsValidRead(readSize, total, LowOf(addr, size, m), m)
  }

  /** What precedes the rerouted part lies inside the device. */
  predicate InReach(total: nat, addr: nat, size: nat, m: nat)
    requires m > 0
  {
    Stop(addr, size, m) == addr || Stop(addr, size, m) <= total
  }

  /** The part before `Stop` is stored. */
  ghost function Prefix<T>(v: seq<T>, addr: nat, src: seq<T>, at: nat, size: nat, m: nat): (r: seq<T>)
    requires m > 0
  {
    var done := Stop(addr, size, m) - addr;
    if done > 0 && addr + done <= |v| && at + done <= |src| then Blit(v, addr, src, at, done) else v
  }

  /** The part before `Stop` is stored where it belongs, and the rest, whole units, at the low address. */
  ghost predicate Rerouted<T>(v: seq<T>, v': seq<T>, addr: nat, src: seq<T>, at: nat, size: nat, m: nat)
    requires m > 0
  {
    var rest, low := RestOf(addr, size, m), LowOf(addr, size, m);
    && rest >= m && Whole(addr, size, m) && InReach(|v|, addr, size, m) && low + rest <= |v| && at + size <= |src|
    && |Prefix(v, addr, src, at, size, m)| == |v|
    && v' == Blit(Prefix(v, addr, src, at, size, m), low, src, at + size - rest, rest)
  }

  /** The part before `Stop` is on the device, and nothing of the rest. */
  ghost predicate Dropped<T>(c: seq<T>, v: seq<T>, c': seq<T>, addr: nat, src: seq<T>, at: nat, size: nat, m: nat)
    requires m > 0
  {
    && InReach(|v|, addr, size, m)
    && c' == if Stop(addr, size, m) == addr then c else Prefix(v, addr, src, at, size, m)
  }

  /** A regular success. `c` is what the device held under the view `v` when the loop started. */
  ghost predicate Finished<T>(v: seq<T>, c: seq<T>, v': seq<T>, c': seq<T>, valid: bool, cacheAddr: nat,
                              addr: nat, size: nat, src: seq<T>, at: nat, m: nat)
    requires m > 0
  {
    if Reroutes(addr, size, m) then !valid && Rerouted(v, v', addr, src, at, size, m)
    else
      && addr + size <= |v| && at + size <= |src| && v' == Blit(v, addr, src, at, size)
      && (valid <==> (addr + size) % m != 0)
      && (valid ==> cacheAddr == UnitOf(addr + size, m) && SameUnitBytes(c, c', cacheAddr, m))
  }

  ghost predicate SameUnitBytes<T>(c: seq<T>, c': seq<T>, u: nat, m: nat) {
    u + m <= |c| == |c'| && c'[u..u + m] == c[u..u + m]
  }

  /** A failure leaves everything alone but the units of the request, and where it is rerouted to. */
  ghost predicate Kept<T>(v: seq<T>, v': seq<T>, addr: nat, size: nat, m: nat)
    requires m > 0
  {
    |v| == |v'| && forall i :: 0 <= i < |v| && !Meant(addr, size, m, i) && !Aside(addr, size, m, i) ==> v'[i] == v[i]
  }

  /** Byte `i` is in a unit of the request. */
  predicate Meant(addr: nat, size: nat, m: nat, i: nat)
    requires m > 0
  {
    size > 0 && UnitOf(addr, m) <= i < UnitOf(addr + size - 1, m) + m
  }

  /** Byte `i` is where the rest of the request is rerouted to. */
  predicate Aside(addr: nat, size: nat, m: nat, i: nat)
    requires m > 0
  {
    Reroutes(addr, size, m) && LowOf(addr, size, m) <= i < LowOf(addr, size, m) + RestOf(addr, size, m)
  }

  /** Out of range of a device below 2^32 bytes, and starting below 2^32. */
  predicate Beyond(addr: nat, size: nat, m: nat, total: nat)
    requires m > 0
  {
    0 < size && total < U32 && total < addr + size && UnitOf(addr, m) < U32
  }

  /** The end of such a request that reroutes is not reached. */
  lemma BeyondRefused(addr: nat, size: nat, m: nat, total: nat)
    requires m > 0
    ensures Beyond(addr, size, m, total) && Reroutes(addr, size, m) ==> !InReach(total, addr, size, m)
    ensures Beyond(addr, size, m, total) ==> total < addr + size && size > 0
  {
  }

  lemma FinishedReach<T>(v: seq<T>, c: seq<T>, v': seq<T>, c': seq<T>, valid: bool, cacheAddr: nat,
                         addr: nat, size: nat, src: seq<T>, at: nat, m: nat)
    requires m > 0 && Finished(v, c, v', c', valid, cacheAddr, addr, size, src, at, m)
    ensures if Reroutes(addr, size, m) then InReach(|v|, addr, size, m) else addr + size <= |v|
    ensures !Reroutes(addr, size, m) ==> at + size <= |src| && v' == Blit(v, addr, src, at, size)
  {
  }

  lemma KeptMeans<T>(v: seq<T>, v': seq<T>, addr: nat, size: nat, m: nat)
    requires m > 0 && size > 0 && Kept(v, v', addr, size, m)
    ensures !Reroutes(addr, size, m) ==> SameOutside(v, v', UnitOf(addr, m), UnitOf(addr + size - 1, m) + m)
  {
  }

  lemma OddReach(fate: Fate, addr: nat, size: nat, m: nat, total: nat)
    requires m > 0
    ensures !fate.Regular? && Odd(fate, addr, size, m, total) ==>
              Reroutes(addr, size, m) && InReach(total, addr, size, m)
  {
  }

  lemma KeptItself<T>(v: seq<T>, addr: nat, size: nat, m: nat)
    requires m > 0
    ensures Kept(v, v, addr, size, m)
  {
  }

  lemma NothingReroutes(addr: nat, m: nat, readSize: nat, total: nat)
    requires m > 0 && readSize > 0
    ensures !Reroutes(addr, 0, m) && Exact(Regular, 0, addr, 0, m, readSize, total)
  {
  }

  // The program loop, on values: `cur` and `dev` are the view and the device after `done` bytes.

  ghost predicate Going<T>(v: seq<T>, c: seq<T>, cur: seq<T>, dev: seq<T>, valid: bool, cacheAddr: nat,
                           addr: nat, size: nat, src: seq<T>, at: nat, done: nat, a: nat, s: nat, m: nat)
  {
    && m > 0 && a == addr + done && done + s == size && s > 0
    && |cur| == |v| == |dev| == |c| && |v| % m == 0 && at + size <= |src|
    && Stop(a, s, m) == Stop(addr, size, m)
    && WrittenIf(v, cur, addr, src, at, done)
    && (valid ==> cacheAddr == AlignDown(a, m))
    && (done == 0 ==> dev == c)
    && (done > 0 ==> !valid && dev == cur && a % m == 0 && UnitOf(addr, m) < U32)
    && (UnitOf(addr, m) < U32 ==> SameOutside(c, v, UnitOf(addr, m), UnitOf(addr, m) + m))
  }

  lemma Starts<T>(v: seq<T>, c: seq<T>, valid: bool, cacheAddr: nat, addr: nat, size: nat, src: seq<T>, at: nat, m: nat)
    requires 0 < m && 0 < size && |v| == |c| && |v| % m == 0 && at + size <= |src|
    requires valid ==> cacheAddr == AlignDown(addr, m)
    requires UnitOf(addr, m) < U32 ==> SameOutside(c, v, UnitOf(addr, m), UnitOf(addr, m) + m)
    ensures Going(v, c, v, c, valid, cacheAddr, addr, size, src, at, 0, addr, size, m)
  {
  }

  lemma GoingFacts<T>(v: seq<T>, c: seq<T>, cur: seq<T>, dev: seq<T>, valid: bool, cacheAddr: nat,
                      addr: nat, size: nat, src: seq<T>, at: nat, done: nat, a: nat, s: nat, m: nat)
    requires Going(v, c, cur, dev, valid, cacheAddr, addr, size, src, at, done, a, s, m)
    ensures |cur| == |v| && (valid ==> cacheAddr == AlignDown(a, m)) && 0 < Chunk(a, s, m) <= s
    ensures UnitOf(a, m) < U32 && InReach(|v|, addr, size, m) ==> a + Chunk(a, s, m) <= |v|
  {
    StopFound(a, s, m);
  }

  lemma GoingLow<T>(v: seq<T>, c: seq<T>, cur: seq<T>, dev: seq<T>, valid: bool, cacheAddr: nat,
                    addr: nat, size: nat, src: seq<T>, at: nat, done: nat, a: nat, s: nat, m: nat)
    requires Going(v, c, cur, dev, valid, cacheAddr, addr, size, src, at, done, a, s, m)
    requires addr < U64 && size < U32 && m < U32
    ensures a < U64
  {
  }

  /** A round of `n` bytes below 2^32 that succeeds. */
  lemma LowRound<T>(v: seq<T>, c: seq<T>, cur: seq<T>, dev: seq<T>, valid: bool, cacheAddr: nat,
                    addr: nat, size: nat, src: seq<T>, at: nat, done: nat, a: nat, s: nat, m: nat, p: nat, n: nat,
                    cur': seq<T>, dev': seq<T>, valid': bool, cacheAddr': nat)
    requires Going(v, c, cur, dev, valid, cacheAddr, addr, size, src, at, done, a, s, m) && UnitOf(a, m) < U32
    requires |cur'| == |dev'| == |v| && (!valid' ==> dev' == cur')
    requires n == Chunk(a, s, m) && p == at + done && a + n <= |v| && p + n <= |src| && cur' == Blit(cur, a, src, p, n)
    requires valid' <==> (a + n) % m != 0
    requires valid' ==> n == s && cacheAddr' == UnitOf(a + n, m) && dev' == dev
    ensures 0 < n <= s
    ensures n < s ==> Going(v, c, cur', dev', valid', cacheAddr', addr, size, src, at, done + n, a + n, s - n, m)
    ensures n == s ==>
              !Reroutes(addr, size, m) && Finished(v, c, cur', dev', valid', cacheAddr', addr, size, src, at, m)
  {
    hide Stop, Chunk, UnitOf, Blit, SameOutside, Written;
    StopFound(a, s, m);
    WrittenIfMore(v, cur, cur', addr, src, at, done, a, p, n);
    FirstUnitLow(addr, a, m);
    if n == s {
      WrittenAll(v, cur', addr, src, at, size);
      if valid' {
        PendingUnit(v, c, cur, dev, addr, src, at, done, size, a, s, m);
      }
    }
  }

  lemma FirstUnitLow(addr: nat, a: nat, m: nat)
    requires m > 0 && addr <= a && UnitOf(a, m) < U32
    ensures UnitOf(addr, m) < U32
  {
    UnitMono(addr, a, m);
  }

  /** The unit in which the request ends is on the device as before the loop. */
  lemma PendingUnit<T>(v: seq<T>, c: seq<T>, cur: seq<T>, dev: seq<T>, addr: nat, src: seq<T>, at: nat, done: nat,
                       size: nat, a: nat, s: nat, m: nat)
    requires 0 < m && a == addr + done && done + s == size && s > 0 && |v| == |c| == |cur| == |dev|
    requires addr + size <= |v| && at + size <= |src|
    requires WrittenIf(v, cur, addr, src, at, done)
    requires if done == 0 then dev == c else dev == cur && a % m == 0
    requires Chunk(a, s, m) == s && (addr + size) % m != 0
    requires SameOutside(c, v, UnitOf(addr, m), UnitOf(addr, m) + m) && |v| % m == 0
    ensures SameUnitBytes(c, dev, UnitOf(addr + size, m), m)
  {
    hide Stop;
    var u := UnitOf(addr + size, m);
    EndInside(addr + size, |v|, m);
    UnitInside(addr + size, m, |v|);
    if done > 0 {
      UnitsApart(UnitOf(addr, m), a, m);
      UnitUnique(addr + size, a, m) by { ShortRest(a, s, m); }
      forall i | u <= i < u + m ensures dev[i] == c[i] {
      }
    }
  }

  lemma EndInside(end: nat, total: nat, m: nat)
    requires m > 0 && end <= total && total % m == 0 && end % m != 0
    ensures end < total
  {
  }

  lemma ShortRest(a: nat, s: nat, m: nat)
    requires m > 0 && a % m == 0 && s > 0 && Chunk(a, s, m) == s && (a + s) % m != 0
    ensures s < m
  {
    if s >= m {
      Multiples(a, s, m);
    }
  }

  /** The round at or above 2^32, which takes all the rest. */
  lemma HighRound<T>(v: seq<T>, c: seq<T>, cur: seq<T>, dev: seq<T>, valid: bool, cacheAddr: nat,
                     addr: nat, size: nat, src: seq<T>, at: nat, done: nat, a: nat, s: nat, m: nat)
    requires Going(v, c, cur, dev, valid, cacheAddr, addr, size, src, at, done, a, s, m) && UnitOf(a, m) >= U32
    ensures Reroutes(addr, size, m) && RestOf(addr, size, m) == s && LowOf(addr, size, m) == AlignDown(a, m)
    ensures InReach(|v|, addr, size, m)
    ensures Whole(addr, size, m) <==> W64(a - AlignDown(a, m) + s) % m == 0
    ensures Dropped(c, v, dev, addr, src, at, size, m) && Stop(addr, size, m) == a
  {
    hide UnitOf, AlignDown, Blit, Stop, Prefix;
    StopFound(a, s, m);
    PrefixWritten(v, cur, addr, src, at, size, done, m);
    assert addr + size == a + s;
  }

  lemma HighStored<T>(v: seq<T>, c: seq<T>, cur: seq<T>, dev: seq<T>, valid: bool, cacheAddr: nat,
                      addr: nat, size: nat, src: seq<T>, at: nat, done: nat, a: nat, s: nat, m: nat,
                      low: nat, p: nat, cur': seq<T>, dev': seq<T>, cacheAddr': nat)
    requires Going(v, c, cur, dev, valid, cacheAddr, addr, size, src, at, done, a, s, m) && UnitOf(a, m) >= U32
    requires low == AlignDown(a, m) && low <= a && p == at + done && s >= m && W64(a - low + s) % m == 0
    requires low + s <= |v| && p + s <= |src| && cur' == Blit(cur, low, src, p, s)
    ensures Finished(v, c, cur', dev', false, cacheAddr', addr, size, src, at, m)
  {
    hide UnitOf, AlignDown, Blit, Stop, Prefix, Dropped;
    HighRound(v, c, cur, dev, valid, cacheAddr, addr, size, src, at, done, a, s, m);
    PrefixWritten(v, cur, addr, src, at, size, done, m);
    assert at + size - s == p;
  }

  lemma PrefixWritten<T>(v: seq<T>, cur: seq<T>, addr: nat, src: seq<T>, at: nat, size: nat, done: nat, m: nat)
    requires 0 < m && Stop(addr, size, m) == addr + done && done <= size && at + size <= |src|
    requires WrittenIf(v, cur, addr, src, at, done)
    ensures Prefix(v, addr, src, at, size, m) == cur
  {
    hide Stop, Blit;
  }

  lemma HighFailed<T>(v: seq<T>, c: seq<T>, cur: seq<T>, dev: seq<T>, valid: bool, cacheAddr: nat,
                      addr: nat, size: nat, src: seq<T>, at: nat, done: nat, a: nat, s: nat, m: nat,
                      low: nat, cur': seq<T>)
    requires Going(v, c, cur, dev, valid, cacheAddr, addr, size, src, at, done, a, s, m) && UnitOf(a, m) >= U32
    requires low == AlignDown(a, m) && SameOutside(cur, cur', low, low + s)
    ensures Kept(v, cur', addr, size, m)
  {
    hide UnitOf, AlignDown, Stop, Prefix, Dropped;
    HighRound(v, c, cur, dev, valid, cacheAddr, addr, size, src, at, done, a, s, m);
    UnitMono(addr, a, m);
    UnitMono(a, addr + size - 1, m);
  }

  /** A round below 2^32 that fails. */
  lemma LowFailed<T>(v: seq<T>, c: seq<T>, cur: seq<T>, dev: seq<T>, valid: bool, cacheAddr: nat,
                     addr: nat, size: nat, src: seq<T>, at: nat, done: nat, a: nat, s: nat, m: nat, cur': seq<T>)
    requires Going(v, c, cur, dev, valid, cacheAddr, addr, size, src, at, done, a, s, m)
    requires SameOutside(cur, cur', UnitOf(a, m), UnitOf(a + s - 1, m) + m)
    ensures Kept(v, cur', addr, size, m)
  {
    hide UnitOf, Stop;
    assert a + s - 1 == addr + size - 1;
    UnitMono(addr, a, m);
    UnitMono(a, addr + size - 1, m);
  }

  /** As Written, but nothing is said of the range before the first part of it has been accepted. */
  ghost predicate WrittenIf<T>(v: seq<T>, cur: seq<T>, addr: nat, src: seq<T>, at: nat, done: nat) {
    if done > 0 then Written(v, cur, addr, src, at, done) else cur == v
  }

  lemma WrittenIfMore<T>(v: seq<T>, cur: seq<T>, next: seq<T>, addr: nat, src: seq<T>, at: nat, done: nat,
                         here: nat, from: nat, n: nat)
    requires WrittenIf(v, cur, addr, src, at, done) && n > 0
    requires here == addr + done && from == at + done && here + n <= |cur| == |v| && from + n <= |src|
    requires next == Blit(cur, here, src, from, n)
    ensures WrittenIf(v, next, addr, src, at, done + n)
  {
    if done > 0 {
      WrittenMore(v, cur, next, addr, src, at, done, here, from, n);
    }
  }

  lemma LowAddress()
    ensures Stop(U32, 256, 256) == U32 && Reroutes(U32, 256, 256) && RestOf(U32, 256, 256) == 256
    ensures LowOf(U32, 256, 256) == 0 && Whole(U32, 256, 256) && Accepts(U32, 256, 256, 512)
    ensures InReach(512, U32, 256, 256)
  {
    hide UnitOf, AlignDown, W64;
    UnitUnique(U32, U32, 256);
    assert AlignDown(U32, 256) == 0 by { AlignDownBelow(U32, 256); }
    assert W64(0 + 256) == 256;
  }
}
