/**
 * BufferedBlockDevice: byte-granular access to a block device through a write-back cache of one
 * program unit. `V()` is the flat byte array the wrapper presents.
 */
module BufferedBlockDevices {
  import opened Alignment
  import opened Bytes
  import opened BlockDevices
  import opened BufferedRounds

  /** The reference count of initializations and whether the device is usable. */
  datatype Lifecycle = Lifecycle(refCount: nat, initialized: bool)

  /** One call of init, given what the device's own init would return. */
  function OnInit(l: Lifecycle, bdErr: int): (r: (Lifecycle, int)) {
    if l.refCount != 0 then (l.(refCount := l.refCount + 1), BD_ERROR_OK)
    else if bdErr != 0 then (l.(refCount := 1), bdErr)
    else (Lifecycle(1, true), BD_ERROR_OK)
  }

  function OnDeinit(l: Lifecycle, syncErr: int, bdErr: int): (r: (Lifecycle, int)) {
    if !l.initialized || l.refCount == 0 then (l, BD_ERROR_OK)
    else if syncErr != 0 then (l, syncErr)
    else if l.refCount > 1 then (l.(refCount := l.refCount - 1), BD_ERROR_OK)
    else (Lifecycle(0, false), bdErr)
  }

  datatype LifeEvent = InitCall(bdErr: int) | DeinitCall(syncErr: int, deinitErr: int)

  function Live(events: seq<LifeEvent>): (l: Lifecycle) {
    if events == [] then Lifecycle(0, false)
    else
      var l := Live(events[..|events| - 1]);
      match events[|events| - 1]
      case InitCall(e) => OnInit(l, e).0
      case DeinitCall(s, e) => OnDeinit(l, s, e).0
  }

  /** Counted as initialized by its users, but unusable. */
  predicate Stuck(l: Lifecycle) { l.refCount > 0 && !l.initialized }

  /** The first init of a generation failed at call `k`. */
  predicate FailedInit(events: seq<LifeEvent>, k: nat)
    requires k < |events|
  {
    Live(events[..k]).refCount == 0 && events[k].InitCall? && events[k].bdErr != 0
  }

  /**
   * Unlike its siblings, this wrapper does not reset its reference count when the device fails to
   * initialize. Over every run of calls it is unusable although counted, so that further inits report
   * success without effect, if and only if some first init failed; and then it stays so for good.
   */
  lemma {:induction false} StuckExactlyAfterFailedInit(events: seq<LifeEvent>)
    ensures Live(events).initialized ==> Live(events).refCount > 0
    ensures Stuck(Live(events)) <==> exists k :: 0 <= k < |events| && FailedInit(events, k)
    ensures Stuck(Live(events)) ==> OnInit(Live(events), 0).1 == BD_ERROR_OK && Stuck(OnInit(Live(events), 0).0)
  {
    if events != [] {
      var n := |events| - 1;
      var before := events[..n];
      StuckExactlyAfterFailedInit(before);
      forall k | 0 <= k < n ensures FailedInit(events, k) <==> FailedInit(before, k) {
        assert events[..k] == before[..k];
      }
      if Stuck(Live(events)) && !Stuck(Live(before)) {
        assert FailedInit(events, n);
      }
      if k :| 0 <= k < |events| && FailedInit(events, k) && k < n {
        assert FailedInit(before, k);
      }
    }
  }

  class BufferedBlockDevice {
    const bd: Device
    var bdProgramSize: nat
    var bdReadSize: nat
    var bdSize: nat
    var writeCacheAddr: nat
    var writeCacheValid: bool
    var writeCache: array?<byte>
    var readBuf: array?<byte>
    var initRefCount: nat
    var isInitialized: bool

    ghost predicate Valid()
      reads this, bd
    {
      && bd.Valid()
      && (isInitialized ==>
            && writeCache != null && readBuf != null && writeCache != readBuf
            && bdProgramSize == bd.programSize && writeCache.Length == bdProgramSize
            && bdReadSize == bd.readSize && readBuf.Length == bdReadSize
            && bdSize == |bd.contents|
            && (writeCacheValid ==>
                  Aligned(writeCacheAddr, bdProgramSize) && writeCacheAddr + bdProgramSize <= bdSize))
      && (isInitialized ==> initRefCount > 0)
      && (!isInitialized ==> !writeCacheValid && (writeCache == null <==> readBuf == null))
      && (writeCache != null && readBuf != null ==>
            writeCache != readBuf && writeCache.Length == bd.programSize && readBuf.Length == bd.readSize)
    }

    /** The array presented to callers: the device overlaid by the cached unit. */
    ghost function V(): (v: seq<byte>)
      requires Valid()
      reads this, bd, writeCache
      ensures |v| == |bd.contents|
    {
      if writeCacheValid then Blit(bd.contents, writeCacheAddr, writeCache[..], 0, writeCache.Length) else bd.contents
    }

    constructor (bd: Device)
      requires bd.Valid()
      ensures Valid() && this.bd == bd && !isInitialized && initRefCount == 0 && writeCache == null && readBuf == null
    {
      this.bd := bd;
      bdProgramSize, bdReadSize, bdSize := 0, 0, 0;
      writeCacheAddr, writeCacheValid := 0, false;
      writeCache, readBuf := null, null;
      initRefCount, isInitialized := 0, false;
    }

    method InvalidateWriteCache()
      modifies this`writeCacheAddr, this`writeCacheValid
      ensures writeCacheAddr == bdSize && !writeCacheValid
    {
      writeCacheAddr := bdSize;
      writeCacheValid := false;
    }

    /** A failed flush loses nothing: the cache still overlays the half-written unit. */
    method Flush() returns (ret: int)
      requires Valid()
      modifies this`writeCacheAddr, this`writeCacheValid, bd
      ensures Valid() && V() == old(V())
      ensures ret == 0 ==> isInitialized && !writeCacheValid && bd.contents == old(V())
      ensures ret != 0 ==> writeCacheValid == old(writeCacheValid) && writeCacheAddr == old(writeCacheAddr)
      ensures !old(writeCacheValid) ==> bd.contents == old(bd.contents)
      ensures isInitialized && bd.reliable ==> ret == 0
    {
      if !isInitialized {
        return BD_ERROR_DEVICE_ERROR;
      }
      if writeCacheValid {
        ret := bd.Program(writeCache, 0, writeCacheAddr, bdProgramSize);
        if ret != 0 {
          return ret;
        }
        InvalidateWriteCache();
      }
      return 0;
    }

    method Sync() returns (ret: int)
      requires Valid()
      modifies this`writeCacheAddr, this`writeCacheValid, bd
      ensures Valid() && V() == old(V())
      ensures ret == 0 ==> isInitialized && !writeCacheValid && bd.contents == old(V())
      ensures isInitialized && bd.reliable ==> ret == 0
    {
      if !isInitialized {
        return BD_ERROR_DEVICE_ERROR;
      }
      ret := Flush();
      if ret != 0 {
        return ret;
      }
      ret := bd.Poke();
    }

    /**
     * For every 64-bit request. One of 2^32 bytes or more may be rounded to a chunk of no bytes: then the loop makes no
     * progress and is `stuck`, and nothing is said. An admitted one whose end wraps is passed on to the device; it
     * changes nothing but the part of the buffer it was given.
     */
    method Read(b: array<byte>, at: nat, addr: nat, size: nat) returns (err: int, ghost stuck: bool)
      requires Valid() && addr < U64 && size < U64 && at + size <= b.Length
      requires b != writeCache && b != readBuf
      modifies b, readBuf
      ensures Valid() && V() == old(V()) && (stuck ==> size >= U32)
      ensures !stuck && err == 0 && NoWrap(addr, size) ==>
                addr + size <= |V()| && b[..] == Blit(old(b[..]), at, V(), addr, size)
      ensures SameOutside(old(b[..]), b[..], at, at + size)
      ensures !isInitialized || W64(addr + size) > |V()| ==> err == BD_ERROR_DEVICE_ERROR && !stuck
      ensures isInitialized && bd.reliable && addr + size <= |V()| && size < U32 ==> err == 0
    {
      hide Blit, Aligned, W64, SameOutside;
      OneAligned(addr);
      OneAligned(size);
      SameItself(b[..], at, at + size);
      stuck := false;
      if !isInitialized {
        return BD_ERROR_DEVICE_ERROR, false;
      }
      if !IsValidRead(1, bdSize, addr, size) {
        return BD_ERROR_DEVICE_ERROR, false;
      }

      // Common case: neither the cache nor the read buffer is involved.
      if bd.ReadOk(addr, size)
         && (W64(addr + size) <= writeCacheAddr || addr > writeCacheAddr + bdProgramSize)
      {
        err := ReadThrough(b, at, addr, size);
        return err, false;
      }
      err, stuck := ReadLoop(b, at, addr, size);
    }

    /** The request as it is, where it does not meet the cached unit. */
    method ReadThrough(b: array<byte>, at: nat, addr: nat, size: nat) returns (err: int)
      requires Valid() && isInitialized && addr < U64 && size < U64 && at + size <= b.Length
      requires W64(addr + size) <= writeCacheAddr || addr > writeCacheAddr + bdProgramSize
      requires b != writeCache && b != readBuf
      modifies b
      ensures Valid() && V() == old(V())
      ensures err == 0 && NoWrap(addr, size) ==> addr + size <= |V()| && b[..] == Blit(old(b[..]), at, V(), addr, size)
      ensures SameOutside(old(b[..]), b[..], at, at + size)
      ensures bd.reliable && bd.ReadOk(addr, size) && NoWrap(addr, size) ==> err == 0
    {
      err := bd.Read(b, at, addr, size);
    }

    /** The read loop, once the request has passed the check. */
    method ReadLoop(b: array<byte>, at: nat, addr: nat, size: nat) returns (err: int, ghost stuck: bool)
      requires Valid() && isInitialized && addr < U64 && size < U64 && at + size <= b.Length
      requires NoWrap(addr, size) ==> addr + size <= |bd.contents|
      requires b != writeCache && b != readBuf
      modifies b, readBuf
      ensures Valid() && V() == old(V()) && (stuck ==> size >= U32)
      ensures !stuck && err == 0 && NoWrap(addr, size) ==>
                addr + size <= |V()| && b[..] == Blit(old(b[..]), at, V(), addr, size)
      ensures SameOutside(old(b[..]), b[..], at, at + size)
      ensures bd.reliable && NoWrap(addr, size) && size < U32 ==> err == 0
    {
      hide Blit, Aligned, W64, SameOutside;
      ghost var v, dst := V(), b[..];
      var p: nat, a: nat, s: nat := at, addr, size;
      ghost var done: nat := 0;
      SameItself(dst, at, at + size);
      if NoWrap(addr, size) {
        WrittenNone(dst, at, v, addr);
      }
      while s > 0
        invariant done + s == size && p == at + done && a < U64
        invariant NoWrap(addr, size) ==> a == addr + done && Written(dst, b[..], at, v, addr, done)
        invariant Valid() && V() == v && SameOutside(dst, b[..], at, at + size)
      {
        ghost var cur := b[..];
        var chunk, ret := ReadChunk(b, p, a, s);
        SameTrans(dst, cur, b[..], at, at + size, p, p + s);
        if ret != 0 {
          return ret, false;
        }
        if chunk == 0 {
          return *, true;
        }
        if NoWrap(addr, size) {
          WrittenMore(dst, cur, b[..], at, v, addr, done, p, a, chunk);
        }
        done := done + chunk;
        p := p + chunk;
        a := W64(a + chunk);
        s := s - chunk;
      }
      if NoWrap(addr, size) {
        WrittenAll(dst, b[..], at, v, addr, size);
      }
      return 0, false;
    }

    /** The body of the read loop: a chunk that does not cross the border of the cached unit. */
    method ReadChunk(b: array<byte>, p: nat, a: nat, s: nat) returns (chunk: nat, ret: int)
      requires Valid() && isInitialized && 0 < s < U64 && a < U64 && p + s <= b.Length
      requires b != writeCache && b != readBuf
      modifies b, readBuf
      ensures Valid() && V() == old(V())
      ensures chunk <= s && (s < U32 ==> 0 < chunk)
      ensures ret == 0 && a + s <= bdSize ==> b[..] == Blit(old(b[..]), p, V(), a, chunk)
      ensures SameOutside(old(b[..]), b[..], p, p + s)
      ensures bd.reliable && a + s <= bdSize && s < U32 ==> ret == 0
    {
      hide Blit, SameOutside, W64, Aligned;
      ghost var dst, v, c := b[..], V(), bd.contents;
      if writeCacheValid && a < writeCacheAddr {
        chunk, ret := ReadFromBd(b, p, a, Min(s, writeCacheAddr - a));
        SameWider(dst, b[..], p, p + Min(s, writeCacheAddr - a), p + s);
        if a + s <= bdSize {
          Uncached(a, chunk);
          SameSource(dst, p, v, a, c, a, chunk);
        }
      } else if writeCacheValid && a >= writeCacheAddr && a < writeCacheAddr + bdProgramSize {
        chunk := Min(s, bdProgramSize - a % bdProgramSize);
        Cached(a, chunk);
        MemCpy(b, p, writeCache, a % bdProgramSize, chunk);
        SameSource(dst, p, v, a, writeCache[..], a % bdProgramSize, chunk);
        BlitConfined(dst, p, v, a, chunk, s);
        ret := 0;
      } else {
        chunk, ret := ReadFromBd(b, p, a, s);
        if a + s <= bdSize {
          Uncached(a, chunk);
          SameSource(dst, p, v, a, c, a, chunk);
        }
      }
    }

    lemma Uncached(a: nat, n: nat)
      requires Valid() && isInitialized && a + n <= bdSize
      requires writeCacheValid ==> a + n <= writeCacheAddr || writeCacheAddr + bdProgramSize <= a
      ensures V()[a..][..n] == bd.contents[a..][..n]
    {
    }

    lemma Cached(a: nat, n: nat)
      requires Valid() && isInitialized && writeCacheValid
      requires writeCacheAddr <= a < writeCacheAddr + bdProgramSize && n <= bdProgramSize - a % bdProgramSize
      ensures a % bdProgramSize + n <= bdProgramSize && a + n <= writeCacheAddr + bdProgramSize <= bdSize
      ensures a % bdProgramSize == a - writeCacheAddr
      ensures V()[a..][..n] == writeCache[..][a % bdProgramSize..][..n]
    {
      UnitUnique(a, writeCacheAddr, bdProgramSize);
    }

    /** One aligned, or buffered unaligned, read from the device: the second half of the read loop's body. */
    method ReadFromBd(b: array<byte>, p: nat, a: nat, limit: nat) returns (chunk: nat, ret: int)
      requires Valid() && isInitialized && 0 < limit < U64 && a < U64 && p + limit <= b.Length
      requires b != writeCache && b != readBuf
      modifies b, readBuf
      ensures chunk <= limit && (limit < U32 ==> 0 < chunk)
      ensures ret == 0 && a + limit <= bdSize ==> b[..] == Blit(old(b[..]), p, bd.contents, a, chunk)
      ensures SameOutside(old(b[..]), b[..], p, p + limit)
      ensures bd.reliable && a + limit <= bdSize && limit < U32 ==> ret == 0
    {
      var offsInReadBuf := a % bdReadSize;
      chunk := limit;
      ReadUnit(bd, a, limit);
      if offsInReadBuf != 0 || chunk < bdReadSize {
        chunk := Min(chunk, bdReadSize - offsInReadBuf);
        ret := bd.Read(readBuf, 0, a - offsInReadBuf, bdReadSize);
        MemCpy(b, p, readBuf, offsInReadBuf, chunk);
      } else {
        chunk := AlignDown(chunk, bdReadSize);
        ret := bd.Read(b, p, a, chunk);
      }
    }

    /**
     * A request all of whose rounds start below 2^32 (`Stop` is its end): any outcome leaves every byte outside the
     * program units of the request alone; success splices exactly the given bytes, and leaves a unit pending exactly
     * when the request ends inside it, which the device then holds as before.
     *
     * Otherwise the rest of the request, from `Stop` on, is not refused but sent to the address that 32 bits leave of
     * it: whole units are stored there, or, if they do not end on a border, dropped and the unit there marked as cached
     * (`Stale`); and less than a unit is copied beyond the cache (`Undefined`).
     */
    method Program(b: array<byte>, at: nat, addr: nat, size: nat) returns (ret: int, ghost fate: Fate)
      requires Valid() && addr < U64 && size < U32 && at + size <= b.Length
      requires b != writeCache
      modifies this`writeCacheAddr, this`writeCacheValid, writeCache, bd
      ensures fate.Regular? ==> Valid() && |V()| == |old(V())|
      ensures !isInitialized ==> fate.Regular? && ret != 0 && V() == old(V())
      ensures isInitialized && fate.Regular? && ret == 0 && size > 0 && !Reroutes(addr, size, bdProgramSize) ==>
                addr + size <= |V()| && V() == Blit(old(V()), addr, b[..], at, size)
      ensures isInitialized && fate.Regular? && ret == 0 && size > 0 ==>
                Finished(old(V()), old(UnderRequest(addr)), V(), bd.contents, writeCacheValid, writeCacheAddr,
                         addr, size, b[..], at, bdProgramSize)
      ensures isInitialized && fate.Regular? && ret == 0 && size == 0 ==>
                && V() == old(V()) && bd.contents == old(UnderRequest(addr))
                && (writeCacheValid <==> old(writeCacheValid && writeCacheAddr == AlignDown(addr, bdProgramSize)))
                && (writeCacheValid ==> writeCacheAddr == old(writeCacheAddr))
      ensures isInitialized && fate.Regular? && ret != 0 ==> Kept(old(V()), V(), addr, size, bdProgramSize)
      ensures isInitialized && fate.Regular? && ret != 0 && size > 0 && !Reroutes(addr, size, bdProgramSize) ==>
                SameOutside(old(V()), V(), UnitOf(addr, bdProgramSize),
                            UnitOf(addr + size - 1, bdProgramSize) + bdProgramSize)
      ensures isInitialized && fate.Stale? ==>
                && ret == 0 && writeCacheValid && writeCacheAddr == LowOf(addr, size, bdProgramSize)
                && Dropped(old(UnderRequest(addr)), old(V()), bd.contents, addr, b[..], at, size, bdProgramSize)
      ensures isInitialized && Beyond(addr, size, bdProgramSize, |old(bd.contents)|) ==> fate.Regular? && ret != 0
      ensures !fate.Regular? ==> isInitialized && Odd(fate, addr, size, bdProgramSize, |old(bd.contents)|)
      ensures isInitialized && bd.reliable && InReach(|old(bd.contents)|, addr, size, bdProgramSize) ==>
                Exact(fate, ret, addr, size, bdProgramSize, bdReadSize, |old(bd.contents)|)
    {
      hide UnitOf, AlignDown, Blit, Aligned, W64, Stop, Dropped, Whole, InReach, Finished, Kept, RestOf, LowOf, Odd,
           Beyond, Reroutes, SameOutside, Exact;
      fate := Regular;
      if !isInitialized {
        return BD_ERROR_DEVICE_ERROR, Regular;
      }
      ghost var v := V();
      KeptItself(v, addr, size, bdProgramSize);
      if size > 0 {
        KeptMeans(v, v, addr, size, bdProgramSize);
      }
      BeyondRefused(addr, size, bdProgramSize, |v|);
      NothingReroutes(addr, bdProgramSize, bdReadSize, |v|);
      var alignedAddr := AlignDown(addr, bdProgramSize);

      // Flush when the request starts in another program unit.
      if alignedAddr != writeCacheAddr {
        ret := Flush();
        if ret != 0 {
          return;
        }
      }

      if size > 0 {
        ghost var view, c := V(), bd.contents;
        ret, fate := ProgramLoop(b, at, addr, size);
        if fate.Regular? && ret == 0 {
          FinishedReach(view, c, V(), bd.contents, writeCacheValid, writeCacheAddr,
                        addr, size, b[..], at, bdProgramSize);
        }
        if fate.Regular? && ret != 0 {
          KeptMeans(v, V(), addr, size, bdProgramSize);
        }
        OddReach(fate, addr, size, bdProgramSize, |v|);
      } else {
        ret := 0;
      }
    }

    /** The device's bytes when the program loop starts: those pending are flushed unless they are of the first unit. */
    ghost function UnderRequest(addr: nat): (c: seq<byte>)
      requires Valid()
      reads this, bd, writeCache
    {
      if isInitialized && writeCacheValid && writeCacheAddr == AlignDown(addr, bdProgramSize) then bd.contents else V()
    }

    /** The program loop; the flush before it left the cache empty or on the first unit. */
    method ProgramLoop(b: array<byte>, at: nat, addr: nat, size: nat) returns (ret: int, ghost fate: Fate)
      requires Valid() && isInitialized && 0 < size < U32 && addr < U64 && at + size <= b.Length
      requires b != writeCache
      requires writeCacheValid ==> writeCacheAddr == AlignDown(addr, bdProgramSize)
      modifies this`writeCacheAddr, this`writeCacheValid, writeCache, bd
      ensures fate.Regular? ==> Valid() && |V()| == |old(V())|
      ensures fate.Regular? && ret == 0 ==>
                Finished(old(V()), old(bd.contents), V(), bd.contents, writeCacheValid, writeCacheAddr,
                         addr, size, b[..], at, bdProgramSize)
      ensures fate.Regular? && ret != 0 ==> Kept(old(V()), V(), addr, size, bdProgramSize)
      ensures fate.Stale? ==>
                && ret == 0 && writeCacheValid && writeCacheAddr == LowOf(addr, size, bdProgramSize)
                && Dropped(old(bd.contents), old(V()), bd.contents, addr, b[..], at, size, bdProgramSize)
      ensures !fate.Regular? ==> Odd(fate, addr, size, bdProgramSize, |old(bd.contents)|)
      ensures bd.reliable && InReach(|old(bd.contents)|, addr, size, bdProgramSize) ==>
                Exact(fate, ret, addr, size, bdProgramSize, bdReadSize, |old(bd.contents)|)
    {
      hide UnitOf, AlignDown, Blit, Aligned, W64, Stop, Dropped, Whole, InReach, SameOutside, Going, Finished, Kept,
           Reroutes, RestOf, LowOf, Exact, Odd;
      ghost var v, c, src, m := V(), bd.contents, b[..], bdProgramSize;
      var p: nat, a: nat, s: nat := at, addr, size;
      ghost var done: nat := 0;
      LoopStarts(addr, size, src, at);
      fate := Regular;
      while s > 0
        invariant done + s == size && a == addr + done && p == at + done && b[..] == src
        invariant isInitialized && bdProgramSize == m && (s > 0 ==> fate.Regular?)
        invariant fate.Regular? ==> Valid() && |V()| == |v|
        invariant s > 0 ==>
                    Going(v, c, V(), bd.contents, writeCacheValid, writeCacheAddr, addr, size, src, at, done, a, s, m)
        invariant s == 0 && fate.Regular? ==>
                    Finished(v, c, V(), bd.contents, writeCacheValid, writeCacheAddr, addr, size, src, at, m)
        invariant fate.Stale? ==>
                    && writeCacheValid && writeCacheAddr == LowOf(addr, size, m)
                    && Dropped(c, v, bd.contents, addr, src, at, size, m)
        invariant s == 0 && bd.reliable && InReach(|c|, addr, size, m) ==>
                    Exact(fate, 0, addr, size, m, bdReadSize, |c|)
        invariant !fate.Regular? ==> Odd(fate, addr, size, m, |c|)
      {
        var chunk;
        chunk, ret, fate := ProgramRound(b, p, a, s, addr, size, at, done, v, c);
        if ret != 0 {
          return;
        }
        done := done + chunk;
        p := p + chunk;
        a := a + chunk;
        s := s - chunk;
      }
      ret := 0;
    }

    lemma LoopStarts(addr: nat, size: nat, src: seq<byte>, at: nat)
      requires Valid() && isInitialized && 0 < size && at + size <= |src|
      requires writeCacheValid ==> writeCacheAddr == AlignDown(addr, bdProgramSize)
      ensures Going(V(), bd.contents, V(), bd.contents, writeCacheValid, writeCacheAddr,
                    addr, size, src, at, 0, addr, size, bdProgramSize)
    {
      hide UnitOf, AlignDown, Stop;
      AlignDownExact(addr, bdProgramSize);
      WholeDevice(bd);
      Starts(V(), bd.contents, writeCacheValid, writeCacheAddr, addr, size, src, at, bdProgramSize);
    }

    /** One round of the program loop, in terms of the whole request. */
    method ProgramRound(b: array<byte>, p: nat, a: nat, s: nat, ghost addr: nat, ghost size: nat, ghost at: nat,
                        ghost done: nat, ghost v: seq<byte>, ghost c: seq<byte>)
      returns (chunk: nat, ret: int, ghost fate: Fate)
      requires Valid() && isInitialized && 0 < s && size < U32 && addr < U64 && p + s <= b.Length
      requires b != writeCache
      requires done + s == size && a == addr + done && p == at + done
      requires Going(v, c, V(), bd.contents, writeCacheValid, writeCacheAddr,
                     addr, size, b[..], at, done, a, s, bdProgramSize)
      modifies this`writeCacheAddr, this`writeCacheValid, writeCache, bd
      ensures 0 < chunk <= s && (!fate.Regular? ==> chunk == s)
      ensures fate.Regular? ==> Valid() && |V()| == |old(V())|
      ensures fate.Regular? && ret == 0 && chunk < s ==>
                Going(v, c, V(), bd.contents, writeCacheValid, writeCacheAddr, addr, size, b[..], at,
                      done + chunk, a + chunk, s - chunk, bdProgramSize)
      ensures fate.Regular? && ret == 0 && chunk == s ==>
                Finished(v, c, V(), bd.contents, writeCacheValid, writeCacheAddr, addr, size, b[..], at, bdProgramSize)
      ensures fate.Regular? && ret != 0 ==> Kept(v, V(), addr, size, bdProgramSize)
      ensures fate.Stale? ==>
                && ret == 0 && writeCacheValid && writeCacheAddr == LowOf(addr, size, bdProgramSize)
                && Dropped(c, v, bd.contents, addr, b[..], at, size, bdProgramSize)
      ensures !fate.Regular? ==> Odd(fate, addr, size, bdProgramSize, |old(bd.contents)|)
      ensures bd.reliable && InReach(|v|, addr, size, bdProgramSize) && (ret != 0 || chunk == s) ==>
                Exact(fate, ret, addr, size, bdProgramSize, bdReadSize, |v|)
    {
      hide UnitOf, AlignDown, Blit, Aligned, W64, Stop, Dropped, Whole, InReach, SameOutside, Going, Finished, Kept,
           Reroutes, RestOf, LowOf, Chunk, Torn, IsValidProgram, IsValidRead;
      ghost var m, cur, dev, valid, wca := bdProgramSize, V(), bd.contents, writeCacheValid, writeCacheAddr;
      GoingFacts(v, c, cur, dev, valid, wca, addr, size, b[..], at, done, a, s, m);
      GoingLow(v, c, cur, dev, valid, wca, addr, size, b[..], at, done, a, s, m);
      chunk, ret, fate := ProgramChunk(b, p, a, s);
      if UnitOf(a, m) >= U32 {
        HighRound(v, c, cur, dev, valid, wca, addr, size, b[..], at, done, a, s, m);
        if fate.Regular? && ret == 0 {
          HighStored(v, c, cur, dev, valid, wca, addr, size, b[..], at, done, a, s, m,
                     AlignDown(a, m), p, V(), bd.contents, writeCacheAddr);
        } else if fate.Regular? {
          HighFailed(v, c, cur, dev, valid, wca, addr, size, b[..], at, done, a, s, m, AlignDown(a, m), V());
        }
      } else if ret == 0 {
        LowRound(v, c, cur, dev, valid, wca, addr, size, b[..], at, done, a, s, m, p, chunk,
                 V(), bd.contents, writeCacheValid, writeCacheAddr);
      } else {
        LowFailed(v, c, cur, dev, valid, wca, addr, size, b[..], at, done, a, s, m, V());
      }
    }

    /** The body of the program loop: up to the end of a unit, or all whole units at once. */
    method ProgramChunk(b: array<byte>, p: nat, a: nat, s: nat) returns (chunk: nat, ret: int, ghost fate: Fate)
      requires Valid() && isInitialized && 0 < s < U32 && a < U64 && p + s <= b.Length && b != writeCache
      requires writeCacheValid ==> writeCacheAddr == AlignDown(a, bdProgramSize)
      modifies this`writeCacheAddr, this`writeCacheValid, writeCache, bd
      ensures fate.Regular? ==> Valid() && |V()| == |old(V())|
      ensures UnitOf(a, bdProgramSize) < U32 ==>
                && fate.Regular? && chunk == Chunk(a, s, bdProgramSize)
                && (ret == 0 ==>
                      && a + chunk <= bdSize && V() == Blit(old(V()), a, b[..], p, chunk)
                      && (writeCacheValid <==> (a + chunk) % bdProgramSize != 0)
                      && (writeCacheValid ==>
                            && chunk == s && writeCacheAddr == UnitOf(a + chunk, bdProgramSize)
                            && bd.contents == old(bd.contents)))
                && (ret != 0 ==>
                      SameOutside(old(V()), V(), UnitOf(a, bdProgramSize),
                                  UnitOf(a + s - 1, bdProgramSize) + bdProgramSize))
                && (bd.reliable && a + chunk <= bdSize ==> ret == 0)
      ensures UnitOf(a, bdProgramSize) >= U32 ==>
                var low := AlignDown(a, bdProgramSize);
                && chunk == s && low <= a
                && (fate.Regular? && ret == 0 ==>
                      && s >= bdProgramSize && W64(a - low + s) % bdProgramSize == 0 && low + s <= bdSize
                      && V() == Blit(old(V()), low, b[..], p, s) && !writeCacheValid)
                && (fate.Regular? && ret != 0 ==> SameOutside(old(V()), V(), low, low + s))
                && (fate.Stale? ==>
                      ret == 0 && writeCacheValid && writeCacheAddr == low && bd.contents == old(bd.contents))
                && (fate.Stale? <==> s >= bdProgramSize && W64(a - low + s) % bdProgramSize != 0)
                && (fate.Undefined? ==> s < bdProgramSize)
                && (bd.reliable ==>
                      && (fate.Regular? && ret == 0 <==>
                          && s >= bdProgramSize && W64(a - low + s) % bdProgramSize == 0 && old(bd.ProgramOk(low, s)))
                      && (fate.Undefined? <==> s < bdProgramSize && old(bd.ReadOk(low, bdProgramSize))))
    {
      hide UnitOf, AlignDown, Blit, Aligned, W64, Chunk, IsValidRead, IsValidProgram;
      chunk := StartRound(a, s);
      if chunk < bdProgramSize {
        ret, fate := ProgramPartial(b, p, a, chunk);
      } else {
        ret, fate := ProgramWhole(b, p, a, chunk);
      }
    }

    /** Sets the cache to the unit of the round, and says how much the round takes. */
    method StartRound(a: nat, s: nat) returns (chunk: nat)
      requires Valid() && isInitialized && 0 < s < U32 && a < U64
      requires writeCacheValid ==> writeCacheAddr == AlignDown(a, bdProgramSize)
      modifies this`writeCacheAddr
      ensures Valid() && V() == old(V()) && writeCacheAddr == AlignDown(a, bdProgramSize) <= a && 0 < chunk <= s
      ensures UnitOf(a, bdProgramSize) < U32 ==>
                var u, m := UnitOf(a, bdProgramSize), bdProgramSize;
                && writeCacheAddr == u && chunk == Chunk(a, s, m) && u + m <= UnitOf(a + s - 1, m) + m
                && (a < bdSize ==> u + m <= bdSize)
                && (chunk < m ==>
                      && a + chunk <= u + m && (a + chunk != u + m ==> chunk == s && UnitOf(a + chunk, m) == u)
                      && (a + chunk == u + m <==> (a + chunk) % m == 0))
                && (chunk >= m ==>
                      && u == a && (a + chunk) % m == 0 && chunk % m == 0 && a + chunk <= UnitOf(a + s - 1, m) + m
                      && (a + chunk <= bdSize ==> bd.ProgramOk(a, chunk)))
      ensures UnitOf(a, bdProgramSize) >= U32 ==> chunk == s
    {
      hide UnitOf, AlignDown, Blit, Aligned, W64, Chunk;
      ProgramUnit(bd, a);
      writeCacheAddr := AlignDown(a, bdProgramSize);
      var offsInBuf := a - writeCacheAddr;
      if offsInBuf != 0 {
        chunk := Min(W64(bdProgramSize - offsInBuf), s);
      } else if s >= bdProgramSize {
        WholeUnits(a, s, bdProgramSize);
        chunk := AlignDown(s, bdProgramSize);
      } else {
        chunk := s;
      }
      RoundOf(a, s, bdProgramSize, writeCacheAddr, chunk);
      UnitMono(a, a + s - 1, bdProgramSize);
      if UnitOf(a, bdProgramSize) < U32 {
        RoundShape(a, s, bdProgramSize, chunk);
        if chunk >= bdProgramSize {
          WholeRange(bd, a, chunk);
        }
      }
    }

    /** A chunk of less than a unit goes through the cache, which is filled from the device first if need be. */
    method ProgramPartial(b: array<byte>, p: nat, a: nat, chunk: nat) returns (ret: int, ghost fate: Fate)
      requires Valid() && isInitialized && a < U64 && p + chunk <= b.Length && b != writeCache
      requires writeCacheAddr == AlignDown(a, bdProgramSize) && 0 < chunk < bdProgramSize
      requires UnitOf(a, bdProgramSize) < U32 ==> a + chunk <= writeCacheAddr + bdProgramSize
      modifies this`writeCacheAddr, this`writeCacheValid, writeCache, bd
      ensures fate.Regular? ==> Valid() && |V()| == |old(V())|
      ensures UnitOf(a, bdProgramSize) < U32 ==>
                && fate.Regular?
                && (ret == 0 ==>
                      && a + chunk <= bdSize && V() == Blit(old(V()), a, b[..], p, chunk)
                      && (writeCacheValid <==> a + chunk != old(writeCacheAddr) + bdProgramSize)
                      && (writeCacheValid ==> writeCacheAddr == old(writeCacheAddr) && bd.contents == old(bd.contents)))
                && (ret != 0 ==> SameOutside(old(V()), V(), old(writeCacheAddr), old(writeCacheAddr) + bdProgramSize))
                && (bd.reliable && a < bdSize ==> ret == 0)
      ensures UnitOf(a, bdProgramSize) >= U32 ==>
                && (fate.Regular? ==> ret != 0 && V() == old(V())) && !fate.Stale?
                && (bd.reliable ==> (fate.Undefined? <==> old(bd.ReadOk(writeCacheAddr, bdProgramSize))))
    {
      hide UnitOf, AlignDown, Blit, Aligned, W64;
      ProgramUnit(bd, a);
      fate := Regular;
      var offsInBuf := a - writeCacheAddr;
      ret := LoadUnit();
      if ret != 0 {
        return;
      }
      if offsInBuf + chunk > bdProgramSize {
        return *, Undefined;
      }
      ghost var unit := writeCache[..];
      MemCpy(writeCache, offsInBuf, b, p, chunk);
      OverlayUnit(bd.contents, writeCacheAddr, unit, offsInBuf, b[..], p, chunk);
      if offsInBuf + chunk == bdProgramSize {
        ret := bd.Program(writeCache, 0, writeCacheAddr, bdProgramSize);
        if ret != 0 {
          return;
        }
        InvalidateWriteCache();
        ret := bd.Poke();
      } else {
        writeCacheValid := true;
        ret := 0;
      }
    }

    /** Makes the cache hold the current bytes of the unit it is set to. */
    method LoadUnit() returns (ret: int)
      requires Valid() && isInitialized && writeCacheAddr < U32
      modifies writeCache
      ensures Valid() && V() == old(V())
      ensures ret == 0 ==>
                && writeCacheAddr + bdProgramSize <= bdSize
                && V() == Blit(bd.contents, writeCacheAddr, writeCache[..], 0, bdProgramSize)
      ensures bd.reliable ==> (ret == 0 <==> bd.ReadOk(writeCacheAddr, bdProgramSize))
    {
      ret := 0;
      if writeCacheValid {
        CachedReadable(bd, writeCacheAddr);
      }
      if !writeCacheValid {
        ret := bd.Read(writeCache, 0, writeCacheAddr, bdProgramSize);
        assert ret == 0 ==> V() == Blit(bd.contents, writeCacheAddr, writeCache[..], 0, bdProgramSize);
      }
    }

    /** Whole units go straight to the device and supersede a cached first unit, if they end on a border. */
    method ProgramWhole(b: array<byte>, p: nat, a: nat, chunk: nat) returns (ret: int, ghost fate: Fate)
      requires Valid() && isInitialized && chunk < U32 && p + chunk <= b.Length
      requires writeCacheAddr == AlignDown(a, bdProgramSize) <= a && chunk >= bdProgramSize
      modifies this`writeCacheAddr, this`writeCacheValid, bd
      ensures fate.Regular? <==> W64(a - old(writeCacheAddr) + chunk) % bdProgramSize == 0
      ensures !fate.Undefined?
      ensures fate.Stale? ==>
                ret == 0 && writeCacheValid && writeCacheAddr == old(writeCacheAddr) && bd.contents == old(bd.contents)
      ensures fate.Regular? ==>
                && Valid() && |V()| == |old(V())|
                && (ret == 0 ==>
                      && old(writeCacheAddr) + chunk <= bdSize && !writeCacheValid
                      && V() == Blit(old(V()), old(writeCacheAddr), b[..], p, chunk))
                && (ret != 0 ==> SameOutside(old(V()), V(), old(writeCacheAddr), old(writeCacheAddr) + chunk))
                && (bd.reliable ==> (ret == 0 <==> old(bd.ProgramOk(writeCacheAddr, chunk))))
    {
      hide UnitOf, AlignDown, W64;
      AlignDownBelow(a, bdProgramSize);
      var offsInBuf := a - writeCacheAddr;
      if W64(offsInBuf + chunk) % bdProgramSize == 0 {
        fate := Regular;
        ret := bd.Program(b, p, writeCacheAddr, Max(chunk, bdProgramSize));
        if ret != 0 {
          return;
        }
        InvalidateWriteCache();
        ret := bd.Poke();
      } else {
        writeCacheValid := true;
        return 0, Stale;
      }
    }

    /** A pending unit that starts right after the range and differs from what the device holds there. */
    ghost predicate LosesNeighbour(addr: nat, size: nat)
      requires Valid()
      reads this, bd, writeCache
    {
      && writeCacheValid && writeCacheAddr == addr + size
      && writeCache[..] != bd.contents[writeCacheAddr..writeCacheAddr + writeCache.Length]
    }

    /** Outside the erased range the array is unchanged if and only if no pending neighbour is lost. */
    method Erase(addr: nat, size: nat) returns (err: int)
      requires Valid() && addr < U64 && size < U64
      modifies this`writeCacheAddr, this`writeCacheValid, bd
      ensures Valid() && |V()| == |old(V())|
      ensures err == 0 ==> isInitialized && bd.EraseOk(addr, size)
      ensures err == 0 && NoWrap(addr, size) ==> addr + size <= |V()|
      ensures err == 0 && NoWrap(addr, size) && bd.eraseValue >= 0 ==> Filled(V(), addr, addr + size, bd.eraseValue)
      ensures !isInitialized || !bd.EraseOk(addr, size) ==> V() == old(V()) && err == BD_ERROR_DEVICE_ERROR
      ensures NoWrap(addr, size) ==> SameOutside(old(bd.contents), bd.contents, addr, addr + size)
      ensures err == 0 && NoWrap(addr, size) && bd.eraseValue >= 0 ==>
                Filled(bd.contents, addr, addr + size, bd.eraseValue)
      ensures isInitialized && bd.EraseOk(addr, size) ==>
                && (NoWrap(addr, size) ==>
                      && (SameOutside(old(V()), V(), addr, addr + size) <==> !old(LosesNeighbour(addr, size)))
                      && (forall i :: addr <= i < addr + size ==> V()[i] == bd.contents[i]))
                && (writeCacheValid <==>
                    old(writeCacheValid) && !(addr <= old(writeCacheAddr) <= W64(addr + size)))
                && (writeCacheValid ==> writeCacheAddr == old(writeCacheAddr))
      ensures isInitialized && bd.reliable && bd.EraseOk(addr, size) && NoWrap(addr, size) ==> err == 0
    {
      hide Blit, Aligned, W64, SameOutside, Filled;
      SameItself(bd.contents, addr, addr + size);
      if !isInitialized {
        return BD_ERROR_DEVICE_ERROR;
      }
      if !IsValidErase(bd.eraseSize, bd.eraseSize, bdSize, addr, size) {
        return BD_ERROR_DEVICE_ERROR;
      }
      ghost var v, c, kept := V(), bd.contents, writeCacheValid && !(addr <= writeCacheAddr <= W64(addr + size));
      ghost var unit, u := writeCache[..], writeCacheAddr;
      WrapsBack(addr, size);
      if writeCacheValid && NoWrap(addr, size) {
        RangeUnits(bd, addr, size, writeCacheAddr);
      }
      if writeCacheAddr >= addr && writeCacheAddr <= W64(addr + size) {
        InvalidateWriteCache();
      }
      err := bd.Erase(addr, size);
      if old(writeCacheValid) && NoWrap(addr, size) {
        ForgetUnit(c, bd.contents, u, unit, kept, addr, size);
        if err == 0 && bd.eraseValue >= 0 {
          FilledAlike(bd.contents, V(), addr, addr + size, bd.eraseValue);
        }
      }
    }

    /** As Erase, but the device keeps its bytes: only pending data of the range is discarded. */
    method Trim(addr: nat, size: nat) returns (err: int)
      requires Valid() && addr < U64 && size < U64
      modifies this`writeCacheAddr, this`writeCacheValid
      ensures Valid() && |V()| == |old(V())|
      ensures !isInitialized || !bd.EraseOk(addr, size) ==> V() == old(V()) && err == BD_ERROR_DEVICE_ERROR
      ensures isInitialized && bd.EraseOk(addr, size) ==>
                && err == 0
                && (!NoWrap(addr, size) ==> V() == old(V()))
                && (NoWrap(addr, size) ==> forall i :: addr <= i < addr + size ==> V()[i] == bd.contents[i])
                && (NoWrap(addr, size) ==>
                      (SameOutside(old(V()), V(), addr, addr + size) <==> !old(LosesNeighbour(addr, size))))
                && (writeCacheValid <==>
                    old(writeCacheValid) && !(addr <= old(writeCacheAddr) <= W64(addr + size)))
                && (writeCacheValid ==> writeCacheAddr == old(writeCacheAddr))
    {
      hide Blit, Aligned, W64, SameOutside;
      SameItself(bd.contents, addr, addr + size);
      if !isInitialized {
        return BD_ERROR_DEVICE_ERROR;
      }
      if !IsValidErase(bd.eraseSize, bd.eraseSize, bdSize, addr, size) {
        return BD_ERROR_DEVICE_ERROR;
      }
      ghost var kept := writeCacheValid && !(addr <= writeCacheAddr <= W64(addr + size));
      ghost var unit, u := writeCache[..], writeCacheAddr;
      WrapsBack(addr, size);
      if writeCacheValid && NoWrap(addr, size) {
        RangeUnits(bd, addr, size, writeCacheAddr);
      }
      if writeCacheAddr >= addr && writeCacheAddr <= W64(addr + size) {
        InvalidateWriteCache();
      }
      if old(writeCacheValid) && NoWrap(addr, size) {
        ForgetUnit(bd.contents, bd.contents, u, unit, kept, addr, size);
      }
      return 0;
    }

    /** The state that Init and Deinit keep. */
    function Life(): (l: Lifecycle)
      reads this
    {
      Lifecycle(initRefCount, isInitialized)
    }

    method Init() returns (err: int)
      requires Valid() && initRefCount < U32 - 1
      modifies this
      ensures Valid() && V() == old(V()) && (!old(isInitialized) ==> !writeCacheValid)
      ensures fresh({writeCache, readBuf} - old({writeCache, readBuf, null}))
      ensures initRefCount == old(initRefCount) + 1 && (old(initRefCount) > 0 ==> err == 0)
      ensures isInitialized <==> old(isInitialized) || (old(initRefCount) == 0 && err == 0)
      ensures (Life(), err) == OnInit(old(Life()), if err == 0 then 0 else err)
      ensures bd.reliable ==> err == 0
    {
      initRefCount := initRefCount + 1;
      if initRefCount != 1 {
        return BD_ERROR_OK;
      }
      err := bd.Poke();
      if err != 0 {
        return err;
      }
      bdReadSize := bd.readSize;
      bdProgramSize := bd.programSize;
      bdSize := |bd.contents|;
      if writeCache == null {
        writeCache := new byte[bdProgramSize];
      }
      if readBuf == null {
        readBuf := new byte[bdReadSize];
      }
      InvalidateWriteCache();
      isInitialized := true;
      return BD_ERROR_OK;
    }

    /** Leaving is only possible with all data on the device. */
    method Deinit() returns (err: int)
      requires Valid()
      modifies this, bd
      ensures Valid() && V() == old(V())
      ensures exists syncErr, bdErr :: (Life(), err) == OnDeinit(old(Life()), syncErr, bdErr)
      ensures !old(isInitialized) ==> err == 0 && !isInitialized && initRefCount == old(initRefCount)
      ensures old(isInitialized) ==>
                && (isInitialized <==> initRefCount > 0)
                && initRefCount == if err != 0 && isInitialized then old(initRefCount) else old(initRefCount) - 1
      ensures old(isInitialized) && !isInitialized ==> bd.contents == old(V())
      ensures old(isInitialized) && bd.reliable ==>
                err == 0 && bd.contents == old(V()) && initRefCount == old(initRefCount) - 1
    {
      if !isInitialized {
        assert (Life(), 0) == OnDeinit(old(Life()), 0, 0);
        return BD_ERROR_OK;
      }
      err := Sync();
      if err != 0 {
        assert (Life(), err) == OnDeinit(old(Life()), err, 0);
        return err;
      }
      initRefCount := initRefCount - 1;
      if initRefCount != 0 {
        assert (Life(), 0) == OnDeinit(old(Life()), 0, 0);
        return BD_ERROR_OK;
      }
      writeCache := null;
      readBuf := null;
      isInitialized := false;
      err := bd.Poke();
      assert (Life(), err) == OnDeinit(old(Life()), 0, err);
    }
  }

  lemma SameSource<T>(dst: seq<T>, p: nat, s: seq<T>, a: nat, t: seq<T>, b: nat, n: nat)
    requires p + n <= |dst| && a + n <= |s| && b + n <= |t|
    requires s[a..][..n] == t[b..][..n]
    ensures Blit(dst, p, s, a, n) == Blit(dst, p, t, b, n)
  {
    forall i | p <= i < p + n ensures Blit(dst, p, s, a, n)[i] == Blit(dst, p, t, b, n)[i] {
      assert s[a..][..n][i - p] == t[b..][..n][i - p];
    }
  }

  lemma BlitConfined<T>(dst: seq<T>, p: nat, src: seq<T>, from: nat, n: nat, s: nat)
    requires p + n <= |dst| && from + n <= |src| && n <= s
    ensures SameOutside(dst, Blit(dst, p, src, from, n), p, p + s)
  {
  }

  lemma WrapsBack(addr: nat, size: nat)
    requires addr < U64 && size < U64
    ensures !NoWrap(addr, size) ==> W64(addr + size) < addr
  {
  }

  /** The cached unit lies inside an erase range that contains its start, and outside one that does not. */
  lemma RangeUnits(bd: Device, addr: nat, size: nat, u: nat)
    requires bd.Valid() && bd.EraseOk(addr, size) && addr + size < U64
    requires Aligned(u, bd.programSize)
    ensures u < addr ==> u + bd.programSize <= addr
    ensures u < addr + size ==> u + bd.programSize <= addr + size
  {
    DividesTrans(bd.programSize, bd.eraseSize, addr);
    DividesTrans(bd.programSize, bd.eraseSize, addr + size);
    if u < addr {
      UnitsApart(u, addr, bd.programSize);
    }
    if u < addr + size {
      UnitsApart(u, addr + size, bd.programSize);
    }
  }

  /** What happens to an overlaid array when the device changes inside a range and the overlay may be dropped. */
  lemma ForgetUnit<T>(c: seq<T>, c': seq<T>, u: nat, unit: seq<T>, kept: bool, addr: nat, size: nat)
    requires u + |unit| <= |c| && addr + size <= |c| && SameOutside(c, c', addr, addr + size)
    requires kept <==> !(addr <= u <= addr + size)
    requires u < addr ==> u + |unit| <= addr
    requires u < addr + size ==> u + |unit| <= addr + size
    ensures var v := Blit(c, u, unit, 0, |unit|);
            var v' := if kept then Blit(c', u, unit, 0, |unit|) else c';
            && |v'| == |c'|
            && (forall i :: addr <= i < addr + size ==> v'[i] == c'[i])
            && (SameOutside(v, v', addr, addr + size) <==> !(u == addr + size && unit != c[u..u + |unit|]))
  {
    var v := Blit(c, u, unit, 0, |unit|);
    var v' := if kept then Blit(c', u, unit, 0, |unit|) else c';
    if u == addr + size {
      if forall i :: 0 <= i < |unit| ==> unit[i] == c[u + i] {
        assert unit == c[u..u + |unit|];
      } else {
        var i :| 0 <= i < |unit| && unit[i] != c[u + i];
        assert v[u + i] != v'[u + i] && unit[i] != c[u..u + |unit|][i];
      }
    }
  }

  lemma FilledAlike(s: seq<byte>, t: seq<byte>, lo: int, hi: int, v: int)
    requires Filled(s, lo, hi, v) && |s| == |t| && forall i :: lo <= i < hi ==> t[i] == s[i]
    ensures Filled(t, lo, hi, v)
  {
  }

  lemma WholeDevice(bd: Device)
    requires bd.Valid()
    ensures |bd.contents| % bd.programSize == 0
  {
    DividesTrans(bd.programSize, bd.eraseSize, |bd.contents|);
  }

  /** Editing an overlaid unit and then overlaying it edits the overlaid array. */
  lemma OverlayUnit<T>(image: seq<T>, at: nat, unit: seq<T>, off: nat, src: seq<T>, from: nat, n: nat)
    requires at + |unit| <= |image| && off + n <= |unit| && from + n <= |src|
    ensures Blit(image, at, Blit(unit, off, src, from, n), 0, |unit|)
         == Blit(Blit(image, at, unit, 0, |unit|), at + off, src, from, n)
  {
  }

  /** The address arithmetic of one round of the program loop. */
  lemma ProgramUnit(bd: Device, a: nat)
    requires bd.Valid() && a < U64
    ensures var u, low := UnitOf(a, bd.programSize), AlignDown(a, bd.programSize);
            && low <= u <= a < u + bd.programSize && low < U32
            && (u >= U32 ==> low + U32 <= u)
            && (u < U32 ==>
                  && low == u
                  && (a < |bd.contents| <==> u + bd.programSize <= |bd.contents|)
                  && (a < |bd.contents| <==> bd.ReadOk(u, bd.programSize))
                  && (a < |bd.contents| <==> bd.ProgramOk(u, bd.programSize)))
  {
    var m := bd.programSize;
    var u := UnitOf(a, m);
    AlignDownBelow(a, m);
    AlignDownExact(a, m);
    DividesTrans(m, bd.eraseSize, |bd.contents|);
    DividesTrans(bd.readSize, m, u);
    DivUnique(m, m, 1, 0);
    if a < |bd.contents| {
      UnitInside(a, m, |bd.contents|);
    }
  }

  lemma WholeRange(bd: Device, a: nat, n: nat)
    requires bd.Valid() && a % bd.programSize == 0 && n % bd.programSize == 0
    ensures a + n <= |bd.contents| ==> bd.ProgramOk(a, n)
  {
  }

  lemma CachedReadable(bd: Device, u: nat)
    requires bd.Valid() && Aligned(u, bd.programSize) && u + bd.programSize <= |bd.contents|
    ensures bd.ReadOk(u, bd.programSize)
  {
    DividesTrans(bd.readSize, bd.programSize, u);
  }

  /** Both reads issued for a byte range are valid: the read unit of its first byte, and its whole units when it is
      aligned. */
  lemma ReadUnit(bd: Device, a: nat, limit: nat)
    requires bd.Valid() && 0 < limit < U64 && a < U64
    ensures 0 <= a % bd.readSize <= a && a % bd.readSize < bd.readSize
    ensures AlignDown(limit, bd.readSize) <= limit
    ensures bd.readSize <= limit < U32 ==> AlignDown(limit, bd.readSize) == UnitOf(limit, bd.readSize) > 0
    ensures a + limit <= |bd.contents| ==>
              && a - a % bd.readSize + bd.readSize <= |bd.contents| && bd.ReadOk(a - a % bd.readSize, bd.readSize)
              && (a % bd.readSize == 0 ==> bd.ReadOk(a, UnitOf(limit, bd.readSize)))
  {
    DividesTrans(bd.readSize, bd.programSize, bd.eraseSize);
    DividesTrans(bd.readSize, bd.eraseSize, |bd.contents|);
    if a + limit <= |bd.contents| {
      UnitInside(a, bd.readSize, |bd.contents|);
    }
    DivUnique(bd.readSize, bd.readSize, 1, 0);
    AlignDownExact(limit, bd.readSize);
    AlignDownBelow(limit, bd.readSize);
    assert UnitOf(a, bd.readSize) == a - a % bd.readSize;
  }

  /** Eight blank bytes, with 7 pending at address 4. */
  method PendingSeven() returns (c: BufferedBlockDevice)
    ensures fresh(c) && fresh(c.bd) && c.Valid() && c.isInitialized && c.bd.reliable && c.bd.eraseSize == 4
    ensures c.writeCacheValid && c.writeCacheAddr == 4
    ensures fresh(c.writeCache) && fresh(c.readBuf)
    ensures |c.V()| == 8 && c.V()[4] == 7 && c.bd.contents[4] == 0
  {
    hide Stop, AlignDown, RestOf, LowOf, Whole, Accepts, Overflows, Odd, Dropped, Kept, Beyond, Blit, UnitOf, W64,
         Repeat;
    var bd := new Device(1, 4, 4, 0, true, Repeat(0, 8));
    c := new BufferedBlockDevice(bd);
    var err := c.Init();
    var seven := new byte[1](_ => 7);
    ReroutesExactly(4, 1, 4);
    UnitUnique(5, 4, 4);
    ghost var before := c.V();
    ghost var fate;
    err, fate := c.Program(seven, 0, 4, 1);
    assert c.bd.contents[4..8][0] == before[4..8][0];
  }

  /** The guard is needed: with 7 pending at address 4, erasing bytes 0 to 3 turns byte 4 back into what the device
      holds. */
  method NeighbourLost() returns (err: int, before: byte, after: byte)
    ensures err == 0 && before == 7 && after == 0
  {
    hide Blit, UnitOf;
    var c := PendingSeven();
    var b := new byte[1];
    ghost var stuck;
    err, stuck := c.Read(b, 0, 4, 1);
    before := b[0];
    var erased := c.Erase(0, 4);
    err, stuck := c.Read(b, 0, 4, 1);
    after := b[0];
    err := if err == 0 then erased else err;
  }

  /** Witness: a unit programmed at address 2^32 of a device of 512 bytes overwrites unit 0, and success is reported. */
  method ProgramWrapsAround() returns (ret: int, before: byte, after: byte)
    ensures ret == 0 && before == 0 && after == 7
  {
    hide Blit, Stop, AlignDown, RestOf, LowOf, Whole, InReach, Accepts, UnitOf;
    var bd := new Device(1, 256, 256, -1, true, Repeat(0, 512));
    var c := new BufferedBlockDevice(bd);
    var err := c.Init();
    var sevens := new byte[256](_ => 7);
    before := bd.contents[0];
    LowAddress();
    ghost var fate;
    ret, fate := c.Program(sevens, 0, U32, 256);
    after := bd.contents[0];
  }
}
