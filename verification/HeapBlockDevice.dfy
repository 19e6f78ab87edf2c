/** HeapBlockDevice: a device in RAM whose erase blocks are allocated when first programmed. */
module HeapBlockDevices {
  import opened Alignment
  import opened Bytes
  import opened BlockDevices

  /** `flat` with the bytes of unit `u` replaced by those of `block`. */
  function Reload(flat: seq<byte>, u: nat, block: seq<byte>, m: nat): (r: seq<byte>)
    requires m > 0 && |block| == m
    ensures |r| == |flat|
    ensures forall i :: 0 <= i < |flat| ==> r[i] == if UnitNo(i, m) == u then block[OffsetIn(i, m)] else flat[i]
  {
    seq(|flat|, i requires 0 <= i < |flat| => if UnitNo(i, m) == u then block[OffsetIn(i, m)] else flat[i])
  }

  /** What a finished program of `n` bytes did: they are stored, blocks it allocated are otherwise unspecified, the
      rest is kept. */
  ghost predicate Programmed(flat: seq<byte>, flat': seq<byte>, alloc: seq<bool>, alloc': seq<bool>,
                             addr: nat, src: seq<byte>, from: nat, n: nat, m: nat)
    requires m > 0 && from + n <= |src|
  {
    && |flat'| == |flat| && |alloc'| == |alloc|
    && (forall i :: 0 <= i < |flat| ==>
          (addr <= i < addr + n ==> flat'[i] == src[from + i - addr])
          && (!(addr <= i < addr + n) && UnitNo(i, m) < |alloc| && (alloc[UnitNo(i, m)] || !alloc'[UnitNo(i, m)]) ==>
                flat'[i] == flat[i]))
    && (forall u :: 0 <= u < |alloc| ==>
          (alloc'[u] <==> alloc[u] || (n > 0 && UnitNo(addr, m) <= u <= UnitNo(addr + n - 1, m))))
  }

  lemma StoredBytes(flat: seq<byte>, flat': seq<byte>, alloc: seq<bool>, alloc': seq<bool>,
                    addr: nat, src: seq<byte>, from: nat, n: nat, m: nat)
    requires m > 0 && from + n <= |src| && Programmed(flat, flat', alloc, alloc', addr, src, from, n, m)
    requires addr + n <= |flat|
    ensures addr + n <= |flat'| && flat'[addr..addr + n] == src[from..from + n]
  {
  }

  class HeapBlockDevice {
    const readSize: nat
    const programSize: nat
    const eraseSize: nat
    const count: nat
    var blocks: array?<array?<byte>>
    var initRefCount: nat
    var isInitialized: bool
    const total: nat  // what size() returns
    ghost var flat: seq<byte>
    ghost var repr: set<array<byte>>

    ghost predicate Valid()
      reads this, blocks, repr
    {
      && 0 < readSize && 0 < programSize && 0 < eraseSize
      && Aligned(eraseSize, readSize) && Aligned(eraseSize, programSize)
      && Aligned(total, eraseSize) && UnitNo(total, eraseSize) == count && total < U64
      && |flat| == total
      && (blocks == null ==> forall i :: 0 <= i < total ==> flat[i] == 0)
      && (blocks != null ==>
            && blocks.Length == count
            && (forall u :: 0 <= u < count && blocks[u] != null ==> blocks[u] in repr && blocks[u].Length == eraseSize)
            && (forall u, v :: 0 <= u < v < count && blocks[u] != null ==> blocks[u] != blocks[v])
            && (forall i :: 0 <= i < total && UnitNo(i, eraseSize) < count ==>
                  flat[i] == if blocks[UnitNo(i, eraseSize)] == null then 0
                             else blocks[UnitNo(i, eraseSize)][OffsetIn(i, eraseSize)]))
      && (isInitialized ==> blocks != null)
    }

    /** Which blocks are allocated. */
    ghost function Alloc(): (a: seq<bool>)
      requires blocks != null ==> blocks.Length == count
      reads this, blocks
      ensures |a| == count && forall u :: 0 <= u < count ==> (a[u] <==> blocks != null && blocks[u] != null)
    {
      if blocks == null then Repeat(false, count) else AllocOf(blocks[..])
    }

    constructor (size: nat, read: nat, program: nat, erase: nat)
      requires 0 < read && 0 < program && 0 < erase && size < U64
      requires Aligned(erase, read) && Aligned(erase, program) && Aligned(size, erase)
      ensures Valid() && !isInitialized && initRefCount == 0 && blocks == null && total == size
      ensures readSize == read && programSize == program && eraseSize == erase
    {
      readSize, programSize, eraseSize := read, program, erase;
      count := UnitNo(size, erase);
      total := size;
      blocks := null;
      initRefCount, isInitialized := 0, false;
      flat, repr := Repeat(0, size), {};
    }

    method Init() returns (err: int)
      requires Valid() && initRefCount < U32 - 1 && (isInitialized <==> initRefCount > 0)
      modifies this
      ensures Valid() && isInitialized && err == 0 && flat == old(flat) && Alloc() == old(Alloc())
      ensures initRefCount == old(initRefCount) + 1
    {
      initRefCount := initRefCount + 1;
      if initRefCount != 1 {
        return BD_ERROR_OK;
      }
      if blocks == null {
        blocks := new array?<byte>[count](_ => null);
      }
      isInitialized := true;
      return BD_ERROR_OK;
    }

    /** An admitted request whose end wraps leaves the table of blocks: that is undefined, and nothing is said of it. */
    method Read(b: array<byte>, at: nat, addr: nat, size: nat) returns (err: int, ghost undefined: bool)
      requires Valid() && addr < U64 && size < U64
      requires at + size <= b.Length && b !in repr
      modifies b
      ensures undefined <==> isInitialized && IsValidRead(readSize, total, addr, size) && !NoWrap(addr, size)
      ensures !undefined ==>
                && (err == 0 <==> isInitialized && IsValidRead(readSize, total, addr, size))
                && (err == 0 ==> addr + size <= total && b[..] == Blit(old(b[..]), at, flat, addr, size))
                && (err != 0 ==> b[..] == old(b[..]))
    {
      hide Blit, Aligned, UnitNo, OffsetIn, W64, Written;
      if !isInitialized {
        return BD_ERROR_DEVICE_ERROR, false;
      }
      if !IsValidRead(readSize, total, addr, size) {
        return BD_ERROR_DEVICE_ERROR, false;
      }
      if size > 0 {
        InTableExactly(total, addr, size, eraseSize);
        if UnitNo(addr + size - 1, eraseSize) >= blocks.Length {
          return *, true;
        }
      }
      ghost var dst, src := b[..], flat;
      var buffer: nat, a: nat, s: nat := at, addr, size;
      ghost var done: nat := 0;
      WrittenNone(dst, at, src, addr);
      while s > 0
        invariant done + s == size && a == addr + done && buffer == at + done
        invariant Aligned(a, readSize) && Aligned(s, readSize)
        invariant Valid() && flat == src && Written(dst, b[..], at, src, addr, done)
      {
        ghost var cur := b[..];
        PartLeft(a, s, readSize);
        ReadPart(b, buffer, a);
        WrittenMore(dst, cur, b[..], at, src, addr, done, buffer, a, readSize);
        done := done + readSize;
        buffer := buffer + readSize;
        a := a + readSize;
        s := s - readSize;
      }
      WrittenAll(dst, b[..], at, src, addr, size);
      return 0, false;
    }

    /** The body of the read loop: one read unit, from its block or, where there is none, as zeros. */
    method ReadPart(b: array<byte>, buffer: nat, a: nat)
      requires Valid() && isInitialized && Aligned(a, readSize) && a + readSize <= total
      requires buffer + readSize <= b.Length && b !in repr
      modifies b
      ensures Valid() && flat == old(flat)
      ensures b[..] == Blit(old(b[..]), buffer, flat, a, readSize)
    {
      hide Blit, Aligned, UnitNo, OffsetIn;
      var hi := UnitNo(a, eraseSize);
      var lo := OffsetIn(a, eraseSize);
      FlatPart(a, readSize);
      if blocks[hi] != null {
        MemCpy(b, buffer, blocks[hi], lo, readSize);
      } else {
        MemSet(b, buffer, 0, readSize);
      }
    }

    /**
     * Programmed bytes are stored and all bytes of blocks that existed before are kept; what else a
     * newly allocated block holds is unspecified.
     */
    method Program(b: array<byte>, at: nat, addr: nat, size: nat) returns (err: int, ghost undefined: bool)
      requires Valid() && addr < U64 && size < U64
      requires at + size <= b.Length && b !in repr
      modifies this`flat, this`repr, blocks, repr
      ensures undefined <==> isInitialized && IsValidProgram(programSize, total, addr, size) && !NoWrap(addr, size)
      ensures !undefined ==>
                && Valid() && fresh(repr - old(repr)) && b[..] == old(b[..])
                && (err == 0 <==> isInitialized && IsValidProgram(programSize, total, addr, size))
                && (err == 0 ==> addr + size <= total && flat[addr..addr + size] == b[at..at + size])
                && (err == 0 ==> Programmed(old(flat), flat, old(Alloc()), Alloc(), addr, b[..], at, size, eraseSize))
                && (err != 0 ==> flat == old(flat) && Alloc() == old(Alloc()))
    {
      hide Blit, Aligned, UnitNo, OffsetIn, W64, Programmed, AllocOf;
      if !isInitialized {
        return BD_ERROR_DEVICE_ERROR, false;
      }
      if !IsValidProgram(programSize, total, addr, size) {
        return BD_ERROR_DEVICE_ERROR, false;
      }
      if size > 0 {
        InTableExactly(total, addr, size, eraseSize);
        if UnitNo(addr + size - 1, eraseSize) >= blocks.Length {
          return *, true;
        }
      }
      ghost var flat0, alloc0, src := flat, Alloc(), b[..];
      var buffer: nat, a: nat, s: nat := at, addr, size;
      ghost var done: nat := 0;
      ProgrammedNone(flat, alloc0, addr, src, at, eraseSize);
      while s > 0
        invariant done + s == size && a == addr + done && buffer == at + done
        invariant Aligned(a, programSize) && Aligned(s, programSize)
        invariant Valid() && fresh(repr - old(repr)) && b !in repr && b[..] == src
        invariant Programmed(flat0, flat, alloc0, Alloc(), addr, src, at, done, eraseSize)
      {
        ghost var cur, curAlloc := flat, Alloc();
        PartLeft(a, s, programSize);
        PartInUnit(a, programSize, eraseSize);
        InRange(total - 1);
        ProgramPart(b, buffer, a);
        ProgrammedMore(flat0, cur, flat, alloc0, curAlloc, Alloc(), addr, src, at, done, a, buffer, programSize,
                       eraseSize);
        done := done + programSize;
        buffer := buffer + programSize;
        a := a + programSize;
        s := s - programSize;
      }
      StoredBytes(flat0, flat, alloc0, Alloc(), addr, src, at, size, eraseSize);
      return 0, false;
    }

    /** The body of the program loop: one program unit into its block, which is allocated if there is none. */
    method ProgramPart(b: array<byte>, buffer: nat, a: nat)
      requires Valid() && isInitialized && Aligned(a, programSize) && a + programSize <= total
      requires buffer + programSize <= b.Length && b !in repr
      modifies this`flat, this`repr, blocks, repr
      ensures Valid() && b !in repr && fresh(repr - old(repr)) && b[..] == old(b[..])
      ensures Programmed(old(flat), flat, old(Alloc()), Alloc(), a, b[..], buffer, programSize, eraseSize)
    {
      hide Blit, Aligned, UnitNo, OffsetIn, Programmed, AllocOf;
      var hi := UnitNo(a, eraseSize);
      var lo := OffsetIn(a, eraseSize);
      FlatPart(a, programSize);
      ghost var flat0, alloc0 := flat, Alloc();
      AllocateBlock(hi);
      ghost var mid, alloc := flat, Alloc();
      StoreInBlock(b, buffer, a);
      ProgrammedPart(flat0, mid, flat, alloc0, alloc, a, b[..], buffer, programSize, eraseSize);
    }

    method AllocateBlock(hi: nat)
      requires Valid() && isInitialized && hi < count
      modifies this`flat, this`repr, blocks
      ensures Valid() && blocks[hi] != null && Alloc() == old(Alloc())[hi := true]
      ensures repr == old(repr) || (fresh(blocks[hi]) && repr == old(repr) + {blocks[hi]})
      ensures old(Alloc())[hi] ==> flat == old(flat)
      ensures |flat| == |old(flat)| && forall i :: 0 <= i < |flat| && UnitNo(i, eraseSize) != hi ==>
                flat[i] == old(flat)[i]
    {
      hide Aligned, UnitNo, OffsetIn, AllocOf;
      if blocks[hi] == null {
        blocks[hi] := new byte[eraseSize];
        flat := Reload(flat, hi, blocks[hi][..], eraseSize);
        repr := repr + {blocks[hi]};
      }
    }

    method StoreInBlock(b: array<byte>, buffer: nat, a: nat)
      requires Valid() && isInitialized && Aligned(a, programSize) && a + programSize <= total
      requires buffer + programSize <= b.Length && b !in repr
      requires UnitNo(a, eraseSize) < count && blocks[UnitNo(a, eraseSize)] != null
      modifies this`flat, blocks[UnitNo(a, eraseSize)]
      ensures Valid() && Alloc() == old(Alloc()) && b[..] == old(b[..])
      ensures flat == Blit(old(flat), a, b[..], buffer, programSize)
    {
      hide Blit, Aligned, UnitNo, OffsetIn, AllocOf;
      ghost var hi, lo := UnitNo(a, eraseSize), OffsetIn(a, eraseSize);
      FlatPart(a, programSize);
      UnitBytes(a, eraseSize);
      MemCpy(blocks[UnitNo(a, eraseSize)], OffsetIn(a, eraseSize), b, buffer, programSize);
      flat := Blit(flat, a, b[..], buffer, programSize);
    }

    /** Erased blocks are given back, and read as zeros from then on. */
    method Erase(addr: nat, size: nat) returns (err: int, ghost undefined: bool)
      requires Valid() && addr < U64 && size < U64
      modifies this`flat, blocks
      ensures undefined <==>
                isInitialized && IsValidErase(eraseSize, eraseSize, total, addr, size) && !NoWrap(addr, size)
      ensures !undefined ==>
                && Valid()
                && (err == 0 <==> isInitialized && IsValidErase(eraseSize, eraseSize, total, addr, size))
                && (err != 0 ==> flat == old(flat) && Alloc() == old(Alloc()))
      ensures !undefined && err == 0 ==>
                && addr + size <= total
                && SameOutside(old(flat), flat, addr, addr + size) && Filled(flat, addr, addr + size, 0)
                && forall u :: 0 <= u < count ==>
                     (Alloc()[u] <==>
                      old(Alloc())[u] && !(UnitNo(addr, eraseSize) <= u < UnitNo(addr + size, eraseSize)))
    {
      hide Aligned, UnitNo, OffsetIn, W64, AllocOf;
      if !isInitialized {
        return BD_ERROR_DEVICE_ERROR, false;
      }
      if !IsValidErase(eraseSize, eraseSize, total, addr, size) {
        return BD_ERROR_DEVICE_ERROR, false;
      }
      if size > 0 {
        InTableExactly(total, addr, size, eraseSize);
        if UnitNo(addr + size - 1, eraseSize) >= blocks.Length {
          return *, true;
        }
      }
      FreeBlocks(addr, size);
      return 0, false;
    }

    /** The erasing loop. */
    method FreeBlocks(addr: nat, size: nat)
      requires Valid() && isInitialized && Aligned(addr, eraseSize) && Aligned(addr + size, eraseSize)
      requires addr + size <= total
      modifies this`flat, blocks
      ensures Valid() && SameOutside(old(flat), flat, addr, addr + size) && Filled(flat, addr, addr + size, 0)
      ensures forall u :: 0 <= u < count ==>
                (Alloc()[u] <==> old(Alloc())[u] && !(UnitNo(addr, eraseSize) <= u < UnitNo(addr + size, eraseSize)))
    {
      hide Aligned, UnitNo, OffsetIn, AllocOf;
      ghost var bs, lo := blocks[..], UnitNo(addr, eraseSize);
      UnitsOfRange(addr, size, eraseSize);
      UnitNoBound(addr + size, total, eraseSize);
      var i: nat := 0;
      while i < UnitNo(size, eraseSize)
        invariant i <= UnitNo(size, eraseSize)
        modifies blocks
        invariant blocks[..] == FreeUnits(bs, lo, lo + i)
      {
        var index := UnitNo(addr, eraseSize) + i;
        blocks[index] := null;
        i := i + 1;
      }
      flat := Blit(flat, addr, Repeat(0, size), 0, size);
    }

    lemma InRange(a: nat)
      requires Valid() && a < total
      ensures UnitNo(a, eraseSize) < count
    {
      UnitInRange(a, total, eraseSize);
    }

    /** The flat view of a part that lies in one block. */
    lemma FlatPart(a: nat, n: nat)
      requires Valid() && isInitialized && 0 < n && Aligned(eraseSize, n) && Aligned(a, n) && a + n <= total
      ensures UnitNo(a, eraseSize) < count && OffsetIn(a, eraseSize) + n <= eraseSize
      ensures forall i :: a <= i < a + n ==>
                flat[i] == if blocks[UnitNo(a, eraseSize)] == null then 0
                           else blocks[UnitNo(a, eraseSize)][OffsetIn(a, eraseSize) + (i - a)]
    {
      hide Aligned, UnitNo, OffsetIn;
      InRange(a);
      PartInUnit(a, n, eraseSize);
    }
  }

  lemma PartLeft(a: nat, s: nat, n: nat)
    requires 0 < n && 0 < s && Aligned(a, n) && Aligned(s, n)
    ensures n <= s && Aligned(a + n, n) && Aligned(s - n, n)
  {
    UnitsApart(0, s, n);
    AddPeriod(a, n);
    AddPeriod(s - n, n);
  }

  ghost function AllocOf(bs: seq<array?<byte>>): (a: seq<bool>)
    ensures |a| == |bs| && forall u :: 0 <= u < |bs| ==> (a[u] <==> bs[u] != null)
  {
    seq(|bs|, u requires 0 <= u < |bs| => bs[u] != null)
  }

  lemma ProgrammedNone(flat: seq<byte>, alloc: seq<bool>, addr: nat, src: seq<byte>, from: nat, m: nat)
    requires m > 0 && from <= |src|
    ensures Programmed(flat, flat, alloc, alloc, addr, src, from, 0, m)
  {
  }

  /** Allocating the block of a part and storing the part programs it. */
  lemma ProgrammedPart(flat0: seq<byte>, mid: seq<byte>, flat: seq<byte>, alloc0: seq<bool>, alloc: seq<bool>,
                       a: nat, src: seq<byte>, from: nat, n: nat, m: nat)
    requires 0 < n && 0 < m && Aligned(m, n) && Aligned(a, n) && a + n <= |mid| && from + n <= |src|
    requires UnitNo(a, m) < |alloc0|
    requires alloc == alloc0[UnitNo(a, m) := true]
    requires alloc0[UnitNo(a, m)] ==> mid == flat0
    requires |mid| == |flat0| && forall i :: 0 <= i < |mid| && UnitNo(i, m) != UnitNo(a, m) ==> mid[i] == flat0[i]
    requires flat == Blit(mid, a, src, from, n)
    ensures Programmed(flat0, flat, alloc0, alloc, a, src, from, n, m)
  {
    hide Blit, Aligned, UnitNo, OffsetIn;
    PartInUnit(a, n, m);
  }

  /** A programmed stretch is extended by the next part. */
  lemma ProgrammedMore(flat0: seq<byte>, cur: seq<byte>, next: seq<byte>, alloc0: seq<bool>, alloc: seq<bool>,
                       alloc': seq<bool>,
                       addr: nat, src: seq<byte>, from: nat, done: nat, here: nat, at: nat, n: nat, m: nat)
    requires 0 < m && 0 < n && here == addr + done && at == from + done && at + n <= |src|
    requires here + n <= |flat0| && UnitNo(|flat0| - 1, m) < |alloc0|
    requires Programmed(flat0, cur, alloc0, alloc, addr, src, from, done, m)
    requires Programmed(cur, next, alloc, alloc', here, src, at, n, m)
    requires UnitNo(here + n - 1, m) == UnitNo(here, m)
    ensures Programmed(flat0, next, alloc0, alloc', addr, src, from, done + n, m)
  {
    hide UnitNo;
    var last := |flat0| - 1;
    UnitNoMono(here, here + n - 1, m);
    if done > 0 {
      UnitNoStep(here - 1, m);
      UnitNoMono(addr, here - 1, m);
      UnitNoMono(here - 1, here, m);
    }
    forall i | 0 <= i < |flat0|
      ensures addr <= i < addr + done + n ==> next[i] == src[from + i - addr]
      ensures (!(addr <= i < addr + done + n) && UnitNo(i, m) < |alloc0|
               && (alloc0[UnitNo(i, m)] || !alloc'[UnitNo(i, m)])) ==> next[i] == flat0[i]
    {
      UnitNoMono(i, last, m);
      if addr <= i < here {
        UnitNoMono(addr, i, m);
        UnitNoMono(i, here - 1, m);
        assert alloc[UnitNo(i, m)];
      }
    }
  }

  function FreeUnits(bs: seq<array?<byte>>, lo: nat, hi: nat): (r: seq<array?<byte>>)
    ensures |r| == |bs| && forall u :: 0 <= u < |bs| ==> r[u] == if lo <= u < hi then null else bs[u]
  {
    seq(|bs|, u requires 0 <= u < |bs| => if lo <= u < hi then null else bs[u])
  }

  lemma UnitsOfRange(addr: nat, size: nat, m: nat)
    requires m > 0 && Aligned(addr, m) && Aligned(addr + size, m)
    ensures UnitNo(addr, m) + UnitNo(size, m) == UnitNo(addr + size, m)
    ensures forall i :: 0 <= i ==>
              (addr <= i < addr + size <==> UnitNo(addr, m) <= UnitNo(i, m) < UnitNo(addr + size, m))
  {
    var p, q, end := addr / m, (addr + size) / m, addr + size;
    assert addr == m * p && end == m * q && size == m * (q - p);
    DivUnique(size, m, q - p, 0);
    forall i: nat ensures addr <= i < end <==> UnitNo(addr, m) <= UnitNo(i, m) < UnitNo(end, m) {
      RangeUnit(i, addr, m);
      RangeUnit(i, end, m);
    }
  }

  /** Before or after a unit border. */
  lemma RangeUnit(i: nat, border: nat, m: nat)
    requires m > 0 && Aligned(border, m)
    ensures i < border <==> UnitNo(i, m) < UnitNo(border, m)
  {
    if i < border {
      UnitInRange(i, border, m);
    } else {
      UnitNoMono(border, i, m);
    }
  }

  // Whole runs.

  datatype HeapOp =
    | ProgramOp(addr: nat, data: seq<byte>)
    | EraseOp(addr: nat, size: nat)

  /** The bytes a caller sees, and which blocks exist. */
  datatype HeapState = HeapState(flat: seq<byte>, alloc: seq<bool>)

  /** What the contracts of Program and Erase say of a successful call. */
  ghost predicate HeapStep(s: HeapState, s': HeapState, op: HeapOp, m: nat)
    requires m > 0
  {
    match op
    case ProgramOp(addr, data) =>
      addr + |data| <= |s.flat| && Programmed(s.flat, s'.flat, s.alloc, s'.alloc, addr, data, 0, |data|, m)
    case EraseOp(addr, size) =>
      && addr + size <= |s.flat| && Aligned(addr, m) && Aligned(addr + size, m)
      && SameOutside(s.flat, s'.flat, addr, addr + size) && Filled(s'.flat, addr, addr + size, 0)
      && |s'.alloc| == |s.alloc|
      && forall u :: 0 <= u < |s.alloc| ==>
           (s'.alloc[u] <==> s.alloc[u] && !(UnitNo(addr, m) <= u < UnitNo(addr + size, m)))
  }

  ghost predicate IsRun(run: seq<HeapState>, ops: seq<HeapOp>, m: nat)
    requires m > 0
  {
    && |run| == |ops| + 1
    && (forall j :: 0 <= j < |ops| ==> HeapStep(run[j], run[j + 1], ops[j], m))
  }

  /** The operation writes or erases byte `i`. */
  predicate Touches(op: HeapOp, i: nat) {
    op.addr <= i < op.addr + (if op.ProgramOp? then |op.data| else op.size)
  }

  /** The device has a block entry for every byte, and blocks that do not exist read as zeros. */
  ghost predicate ZeroWhereAbsent(s: HeapState, m: nat)
    requires m > 0
  {
    forall i :: 0 <= i < |s.flat| ==> UnitNo(i, m) < |s.alloc| && (!s.alloc[UnitNo(i, m)] ==> s.flat[i] == 0)
  }

  lemma StepKeepsZeros(s: HeapState, s': HeapState, op: HeapOp, m: nat)
    requires m > 0 && HeapStep(s, s', op, m) && ZeroWhereAbsent(s, m)
    ensures ZeroWhereAbsent(s', m)
  {
    hide UnitNo, Aligned;
    forall i | 0 <= i < |s'.flat| ensures UnitNo(i, m) < |s'.alloc| && (!s'.alloc[UnitNo(i, m)] ==> s'.flat[i] == 0) {
      assert UnitNo(i, m) < |s.alloc|;
      if op.EraseOp? {
        RangeUnit(i, op.addr, m);
        RangeUnit(i, op.addr + op.size, m);
      } else if Touches(op, i) {
        UnitNoMono(op.addr, i, m);
        UnitNoMono(i, op.addr + |op.data| - 1, m);
      }
    }
  }

  /** Over every run of successful calls, bytes of blocks never allocated, or erased since, read as zero. */
  lemma {:induction false} AbsentBlocksReadZero(run: seq<HeapState>, ops: seq<HeapOp>, m: nat, k: nat)
    requires m > 0 && IsRun(run, ops, m) && k <= |ops| && ZeroWhereAbsent(run[0], m)
    ensures ZeroWhereAbsent(run[k], m) && |run[k].flat| == |run[0].flat|
  {
    if k > 0 {
      AbsentBlocksReadZero(run, ops, m, k - 1);
      assert HeapStep(run[k - 1], run[k - 1 + 1], ops[k - 1], m);
      StepKeepsZeros(run[k - 1], run[k], ops[k - 1], m);
    }
  }

  /** The byte is held by an existing block. */
  predicate Present(s: HeapState, i: nat, m: nat)
    requires m > 0
  {
    i < |s.flat| && UnitNo(i, m) < |s.alloc| && s.alloc[UnitNo(i, m)]
  }

  lemma StepKeepsByte(s: HeapState, s': HeapState, op: HeapOp, m: nat, i: nat)
    requires m > 0 && HeapStep(s, s', op, m) && Present(s, i, m) && !Touches(op, i)
    ensures Present(s', i, m) && s'.flat[i] == s.flat[i]
  {
    hide UnitNo, Aligned;
    if op.EraseOp? {
      RangeUnit(i, op.addr, m);
      RangeUnit(i, op.addr + op.size, m);
    }
  }

  /** Over every run, a programmed byte reads back until it is written again or erased. */
  lemma {:induction false} ProgrammedReadsBack(run: seq<HeapState>, ops: seq<HeapOp>, m: nat, j: nat, k: nat, i: nat)
    requires m > 0 && IsRun(run, ops, m) && ZeroWhereAbsent(run[0], m) && j < k <= |ops|
    requires ops[j].ProgramOp? && Touches(ops[j], i)
    requires forall n :: j < n < k ==> !Touches(ops[n], i)
    ensures Present(run[k], i, m) && run[k].flat[i] == ops[j].data[i - ops[j].addr]
    decreases k
  {
    hide UnitNo;
    assert HeapStep(run[k - 1], run[k - 1 + 1], ops[k - 1], m);
    if k == j + 1 {
      AbsentBlocksReadZero(run, ops, m, j);
      UnitNoMono(ops[j].addr, i, m);
      UnitNoMono(i, ops[j].addr + |ops[j].data| - 1, m);
    } else {
      ProgrammedReadsBack(run, ops, m, j, k - 1, i);
      assert !Touches(ops[k - 1], i);
      StepKeepsByte(run[k - 1], run[k], ops[k - 1], m, i);
    }
  }

  // Runs of calls.

  predicate Callable(op: HeapOp) {
    match op
    case ProgramOp(addr, data) => NoWrap(addr, |data|)
    case EraseOp(addr, size) => NoWrap(addr, size)
  }

  predicate Admitted(op: HeapOp, ps: nat, es: nat, total: nat)
    requires ps > 0 && es > 0
  {
    match op
    case ProgramOp(addr, data) => IsValidProgram(ps, total, addr, |data|)
    case EraseOp(addr, size) => IsValidErase(es, es, total, addr, size)
  }

  /** The calls that succeed. */
  function AdmittedOf(ops: seq<HeapOp>, ps: nat, es: nat, total: nat): (r: seq<HeapOp>)
    requires ps > 0 && es > 0
  {
    if ops == [] then []
    else
      var before, op := AdmittedOf(ops[..|ops| - 1], ps, es, total), ops[|ops| - 1];
      if Admitted(op, ps, es, total) then before + [op] else before
  }

  lemma RunNext(run: seq<HeapState>, ops: seq<HeapOp>, m: nat, next: HeapState, op: HeapOp)
    requires m > 0 && IsRun(run, ops, m) && HeapStep(run[|ops|], next, op, m)
    ensures IsRun(run + [next], ops + [op], m)
  {
    hide HeapStep;
  }

  ghost function StateOf(c: HeapBlockDevice): (s: HeapState)
    requires c.Valid()
    reads c, c.blocks, c.repr
  {
    HeapState(c.flat, c.Alloc())
  }

  lemma StateZeros(c: HeapBlockDevice)
    requires c.Valid()
    ensures ZeroWhereAbsent(StateOf(c), c.eraseSize)
  {
    hide UnitNo, Aligned, OffsetIn;
    var s := StateOf(c);
    forall i | 0 <= i < |s.flat|
      ensures UnitNo(i, c.eraseSize) < |s.alloc| && (!s.alloc[UnitNo(i, c.eraseSize)] ==> s.flat[i] == 0)
    {
      UnitInRange(i, c.total, c.eraseSize);
    }
  }

  /** One call: a step of the run when the check admits it, nothing otherwise. */
  method Perform(c: HeapBlockDevice, op: HeapOp)
    requires c.Valid() && c.isInitialized && Callable(op)
    modifies c`flat, c`repr, c.blocks, c.repr
    ensures c.Valid() && fresh(c.repr - old(c.repr))
    ensures if Admitted(op, c.programSize, c.eraseSize, c.total)
            then HeapStep(old(StateOf(c)), StateOf(c), op, c.eraseSize)
            else StateOf(c) == old(StateOf(c))
  {
    hide UnitNo, Blit, Programmed, SameOutside, Filled, OffsetIn, AllocOf;
    match op
    case ProgramOp(addr, data) =>
      var b := new byte[|data|](i requires 0 <= i < |data| => data[i]);
      assert b[..] == data;
      var err, undefined := c.Program(b, 0, addr, |data|);
    case EraseOp(addr, size) =>
      var err, undefined := c.Erase(addr, size);
  }

  /** Every run of calls on an initialized device is such a run of its states; it ends with absent blocks reading
      zero. */
  method Replay(c: HeapBlockDevice, ops: seq<HeapOp>) returns (ghost run: seq<HeapState>)
    requires c.Valid() && c.isInitialized && forall i :: 0 <= i < |ops| ==> Callable(ops[i])
    modifies c`flat, c`repr, c.blocks, c.repr
    ensures c.Valid() && c.isInitialized
    ensures var done := AdmittedOf(ops, c.programSize, c.eraseSize, c.total);
            && IsRun(run, done, c.eraseSize)
            && run[0] == old(StateOf(c)) && run[|done|] == StateOf(c)
            && ZeroWhereAbsent(run[0], c.eraseSize) && ZeroWhereAbsent(run[|done|], c.eraseSize)
  {
    hide HeapStep, Callable, Admitted, UnitNo, ZeroWhereAbsent;
    ghost var ps, es, total := c.programSize, c.eraseSize, c.total;
    StateZeros(c);
    run := [StateOf(c)];
    var n := 0;
    while n < |ops|
      invariant 0 <= n <= |ops| && c.Valid() && c.isInitialized && fresh(c.repr - old(c.repr))
      invariant IsRun(run, AdmittedOf(ops[..n], ps, es, total), es)
      invariant run[0] == old(StateOf(c)) && run[|run| - 1] == StateOf(c)
    {
      ghost var done := AdmittedOf(ops[..n], ps, es, total);
      Perform(c, ops[n]);
      assert ops[..n + 1][..n] == ops[..n];
      if Admitted(ops[n], ps, es, total) {
        RunNext(run, done, es, StateOf(c), ops[n]);
        run := run + [StateOf(c)];
      }
      n := n + 1;
    }
    assert ops[..n] == ops;
    StateZeros(c);
  }
}
