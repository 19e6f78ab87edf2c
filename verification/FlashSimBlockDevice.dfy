/** FlashSimBlockDevice: gives any device the write rule of flash memory. */
module FlashSimBlockDevices {
  import opened Alignment
  import opened Bytes
  import opened BlockDevices

  const BD_ERROR_NOT_ERASED: int := -3201
  const MIN_BLANK_BUF_SIZE: nat := 32

  function RoundUp(val: nat, size: nat): (r: nat)
    requires val > 0 && size > 0
  {
    ((val - 1) / size + 1) * size
  }

  /** Rounds up to a multiple; the result is narrowed to 32 bits. */
  function AlignUp(val: nat, size: nat): (r: nat)
    requires val > 0 && size > 0
  {
    RoundUp(val, size) % U32
  }

  lemma RoundUpFacts(val: nat, size: nat)
    requires val > 0 && size > 0
    ensures Aligned(RoundUp(val, size), size) && val <= RoundUp(val, size) < val + size
    ensures val <= size ==> RoundUp(val, size) == size
  {
    if val <= size {
      DivUnique(val - 1, size, 0, val - 1);
    }
    var q, r := (val - 1) / size, (val - 1) % size;
    assert val - 1 == size * q + r;
    MulMod(q + 1, size);
    assert (q + 1) * size == size * q + size;
  }

  /** The scratch buffer holds a positive whole number of program units, the least with 32 bytes, without loss in the
      narrowing. */
  lemma BlankBufFits(size: nat)
    requires 0 < size < U32
    ensures 0 < AlignUp(MIN_BLANK_BUF_SIZE, size) && Aligned(AlignUp(MIN_BLANK_BUF_SIZE, size), size)
    ensures 32 <= AlignUp(MIN_BLANK_BUF_SIZE, size) < 32 + size
  {
    hide RoundUp, Aligned;
    RoundUpFacts(MIN_BLANK_BUF_SIZE, size);
  }

  /** Every target byte is blank or already holds the value to be programmed. */
  ghost predicate Programmable(c: seq<byte>, addr: nat, src: seq<byte>, from: nat, n: nat, blank: int)
    requires addr + n <= |c| && from + n <= |src|
  {
    forall i :: addr <= i < addr + n ==> c[i] == blank || c[i] == src[from + i - addr]
  }

  lemma ProgrammableMeans(c: seq<byte>, addr: nat, src: seq<byte>, from: nat, n: nat, blank: int)
    requires addr + n <= |c| && from + n <= |src|
    ensures Programmable(c, addr, src, from, n, blank) <==>
            forall i :: addr <= i < addr + n ==> c[i] == blank || c[i] == src[from + (i - addr)]
  {
  }

  /** No byte changes unless it was blank. */
  ghost predicate Discipline(c: seq<byte>, c': seq<byte>, blank: int) {
    |c| == |c'| && forall i :: 0 <= i < |c| ==> c'[i] == c[i] || c[i] == blank
  }

  /** In the range bytes are kept or made blank; outside nothing changes. */
  ghost predicate PartlyErased(c: seq<byte>, c': seq<byte>, lo: int, hi: int, blank: int) {
    SameOutside(c, c', lo, hi) && forall i :: 0 <= i < |c| && lo <= i < hi ==> c'[i] == c[i] || c'[i] == blank
  }

  lemma DisciplineItself(c: seq<byte>, blank: int)
    ensures Discipline(c, c, blank)
  {
  }

  lemma WriteKeepsDiscipline(c: seq<byte>, c': seq<byte>, addr: nat, src: seq<byte>, from: nat, n: nat, blank: int)
    requires addr + n <= |c| && from + n <= |src| && Programmable(c, addr, src, from, n, blank)
    requires c' == Blit(c, addr, src, from, n) || Torn(c, c', addr, src, from, n)
    ensures Discipline(c, c', blank)
  {
  }

  class FlashSimBlockDevice {
    const bd: Device
    const eraseValue: byte
    var blankBufSize: nat
    var blankBuf: array?<byte>
    var initRefCount: nat
    var isInitialized: bool

    ghost predicate Valid()
      reads this, bd
    {
      && bd.Valid()
      && (blankBuf != null ==>
            && blankBufSize == AlignUp(MIN_BLANK_BUF_SIZE, bd.programSize) == blankBuf.Length
            && blankBufSize > 0 && Aligned(blankBufSize, bd.programSize))
      && (isInitialized ==> blankBuf != null)
    }

    constructor (bd: Device, eraseValue: byte)
      requires bd.Valid()
      ensures Valid() && this.bd == bd && this.eraseValue == eraseValue && !isInitialized && initRefCount == 0
    {
      this.bd := bd;
      this.eraseValue := eraseValue;
      blankBufSize, blankBuf := 0, null;
      initRefCount, isInitialized := 0, false;
    }

    /** A failed init resets the reference count, so that a later one tries again. */
    method Init() returns (err: int)
      requires Valid() && initRefCount < U32 - 1 && (isInitialized <==> initRefCount > 0)
      modifies this
      ensures Valid() && (isInitialized <==> initRefCount > 0)
      ensures err == 0 ==> isInitialized && initRefCount == old(initRefCount) + 1
      ensures err != 0 ==> !isInitialized && initRefCount == 0
      ensures bd.reliable ==> err == 0
    {
      initRefCount := initRefCount + 1;
      if initRefCount != 1 {
        return BD_ERROR_OK;
      }
      err := bd.Poke();
      if err != 0 {
        isInitialized := false;
        initRefCount := 0;
        return err;
      }
      BlankBufFits(bd.programSize);
      blankBufSize := AlignUp(MIN_BLANK_BUF_SIZE, bd.programSize);
      if blankBuf == null {
        blankBuf := new byte[blankBufSize](_ => 0);
      }
      isInitialized := true;
      return BD_ERROR_OK;
    }

    /**
     * Programming succeeds exactly on blank or equal bytes, and then stores all of them; when refused
     * it changes nothing; and whatever happens no byte changes that was not blank. A request whose end wraps
     * is compared and passed on where the wrapped addresses point.
     */
    method Program(b: array<byte>, at: nat, addr: nat, size: nat) returns (err: int)
      requires Valid() && addr < U64 && size < U64 && at + size <= b.Length && b != blankBuf
      modifies blankBuf, bd
      ensures Valid() && |bd.contents| == |old(bd.contents)|
      ensures err == 0 ==> isInitialized && bd.ProgramOk(addr, size)
      ensures err == 0 && NoWrap(addr, size) ==>
                addr + size <= |bd.contents| && bd.contents == Blit(old(bd.contents), addr, b[..], at, size)
      ensures !isInitialized || !bd.ProgramOk(addr, size) ==>
                err == BD_ERROR_DEVICE_ERROR && bd.contents == old(bd.contents)
      ensures isInitialized && bd.ProgramOk(addr, size) && addr + size <= |bd.contents| ==>
                if forall i :: addr <= i < addr + size ==>
                     old(bd.contents)[i] == eraseValue || old(bd.contents)[i] == b[at + (i - addr)]
                then bd.reliable ==> err == 0
                else err != 0 && bd.contents == old(bd.contents) && (bd.reliable ==> err == BD_ERROR_NOT_ERASED)
      ensures NoWrap(addr, size) ==> Discipline(old(bd.contents), bd.contents, eraseValue)
    {
      hide Blit, Aligned, Discipline, Torn, Programmable, W64;
      ghost var c := bd.contents;
      DisciplineItself(c, eraseValue);
      if !isInitialized {
        return BD_ERROR_DEVICE_ERROR;
      }
      if !IsValidProgram(bd.programSize, |bd.contents|, addr, size) {
        return BD_ERROR_DEVICE_ERROR;
      }
      if NoWrap(addr, size) {
        ProgrammableMeans(c, addr, b[..], at, size, eraseValue);
      }
      err := CheckBlank(b, at, addr, size);
      if err != 0 {
        return err;
      }
      err := bd.Program(b, at, addr, size);
      if NoWrap(addr, size) {
        WriteKeepsDiscipline(c, bd.contents, addr, b[..], at, size, eraseValue);
      }
    }

    /** The comparing loop of program, a scratch buffer at a time. */
    method CheckBlank(b: array<byte>, at: nat, addr: nat, size: nat) returns (ret: int)
      requires Valid() && isInitialized && bd.ProgramOk(addr, size) && addr < U64 && size < U64
      requires at + size <= b.Length && b != blankBuf
      modifies blankBuf
      ensures b[..] == old(b[..])
      ensures NoWrap(addr, size) ==>
                && addr + size <= |bd.contents|
                && (ret == 0 ==> Programmable(bd.contents, addr, b[..], at, size, eraseValue))
                && (bd.reliable && ret != 0 ==> !Programmable(bd.contents, addr, b[..], at, size, eraseValue))
                && (bd.reliable ==> ret == 0 || ret == BD_ERROR_NOT_ERASED)
    {
      hide Blit, Aligned, W64;
      var currAddr: nat, currSize: nat, buf: nat := addr, size, at;
      ghost var done: nat := 0;
      while currSize > 0
        invariant done + currSize == size && currAddr < U64 && buf == at + done && b[..] == old(b[..])
        invariant NoWrap(addr, size) ==>
                    && currAddr == addr + done
                    && Aligned(currAddr, bd.programSize) && Aligned(currSize, bd.programSize)
                    && Programmable(bd.contents, addr, b[..], at, done, eraseValue)
      {
        var readSize := Min(blankBufSize, currSize);
        if NoWrap(addr, size) {
          ChunkAligned(bd, currAddr, currSize, blankBufSize);
        }
        ret := bd.Read(blankBuf, 0, currAddr, readSize);
        if ret != 0 {
          return;
        }
        var same;
        same, buf := CompareChunk(b, buf, readSize);
        if !same {
          if NoWrap(addr, size) {
            NotProgrammable(bd.contents, addr, b[..], at, done, blankBuf[..], readSize, size, eraseValue);
          }
          return BD_ERROR_NOT_ERASED;
        }
        if NoWrap(addr, size) {
          ProgrammableMore(bd.contents, addr, b[..], at, done, blankBuf[..], readSize, eraseValue);
        }
        done := done + readSize;
        currAddr := W64(currAddr + readSize);
        currSize := currSize - readSize;
      }
      return 0;
    }

    /** The inner loop: compares the bytes read with those to be programmed. */
    method CompareChunk(b: array<byte>, buf: nat, n: nat) returns (same: bool, buf': nat)
      requires blankBuf != null && n <= blankBuf.Length && buf + n <= b.Length
      ensures same ==> buf' == buf + n
      ensures same <==> forall k :: 0 <= k < n ==> blankBuf[k] == eraseValue || blankBuf[k] == b[buf + k]
    {
      buf' := buf;
      var i: nat := 0;
      while i < n
        invariant i <= n && buf' == buf + i
        invariant forall k :: 0 <= k < i ==> blankBuf[k] == eraseValue || blankBuf[k] == b[buf + k]
      {
        if blankBuf[i] != eraseValue && blankBuf[i] != b[buf'] {
          return false, buf';
        }
        buf' := buf' + 1;
        i := i + 1;
      }
      same := true;
    }

    /** Erasing makes exactly the range blank. A request whose end wraps is programmed where the wrapped addresses
        point. */
    method Erase(addr: nat, size: nat) returns (err: int)
      requires Valid() && addr < U64 && size < U64
      modifies blankBuf, bd
      ensures Valid() && |bd.contents| == |old(bd.contents)|
      ensures err == 0 ==> isInitialized && bd.EraseOk(addr, size)
      ensures err == 0 && NoWrap(addr, size) ==>
                addr + size <= |bd.contents| && Filled(bd.contents, addr, addr + size, eraseValue)
      ensures !isInitialized || !bd.EraseOk(addr, size) ==>
                err == BD_ERROR_DEVICE_ERROR && bd.contents == old(bd.contents)
      ensures NoWrap(addr, size) ==> PartlyErased(old(bd.contents), bd.contents, addr, addr + size, eraseValue)
      ensures isInitialized && bd.reliable && bd.EraseOk(addr, size) && NoWrap(addr, size) ==> err == 0
    {
      hide Blit, Aligned, PartlyErased, Filled, W64;
      NotErased(bd.contents, addr, addr + size, eraseValue);
      if !isInitialized {
        return BD_ERROR_DEVICE_ERROR;
      }
      if !IsValidErase(bd.eraseSize, bd.eraseSize, |bd.contents|, addr, size) {
        return BD_ERROR_DEVICE_ERROR;
      }
      MemSet(blankBuf, 0, eraseValue, blankBufSize);
      err := EraseLoop(addr, size);
    }

    /** The erasing loop: chunks of the blank buffer, each a valid program of the device. */
    method EraseLoop(addr: nat, size: nat) returns (err: int)
      requires Valid() && isInitialized && bd.EraseOk(addr, size) && addr < U64 && size < U64
      requires forall k :: 0 <= k < blankBuf.Length ==> blankBuf[k] == eraseValue
      modifies bd
      ensures Valid() && |bd.contents| == |old(bd.contents)|
      ensures NoWrap(addr, size) ==>
                && addr + size <= |bd.contents|
                && (err == 0 ==> Filled(bd.contents, addr, addr + size, eraseValue))
                && PartlyErased(old(bd.contents), bd.contents, addr, addr + size, eraseValue)
                && (bd.reliable ==> err == 0)
    {
      hide Blit, Aligned, PartlyErased, Filled, W64;
      ghost var image, end := bd.contents, addr + size;
      NotErased(image, addr, end, eraseValue);
      if NoWrap(addr, size) {
        EraseAligned(bd, addr, size);
        FilledNone(image, addr, eraseValue);
      }
      var currAddr: nat, currSize: nat := addr, size;
      while currSize > 0
        invariant currAddr < U64 && Valid() && |bd.contents| == |image|
        invariant NoWrap(addr, size) ==>
                    && currAddr + currSize == end && addr <= currAddr
                    && Aligned(currAddr, bd.programSize) && Aligned(currSize, bd.programSize)
                    && Filled(bd.contents, addr, currAddr, eraseValue)
                    && PartlyErased(image, bd.contents, addr, end, eraseValue)
      {
        ghost var cur := bd.contents;
        var progSize := Min(blankBufSize, currSize);
        if NoWrap(addr, size) {
          ChunkAligned(bd, currAddr, currSize, blankBufSize);
        }
        err := bd.Program(blankBuf, 0, currAddr, progSize);
        ghost var next := currAddr + progSize;
        if NoWrap(addr, size) {
          BlankChunk(image, cur, bd.contents, addr, end, currAddr, next, blankBuf[..], eraseValue);
        }
        if err != 0 {
          return err;
        }
        if NoWrap(addr, size) {
          BlankFilled(cur, bd.contents, addr, currAddr, next, blankBuf[..], eraseValue);
        }
        currAddr := W64(currAddr + progSize);
        currSize := currSize - progSize;
      }
      return BD_ERROR_OK;
    }
  }

  lemma NotErased(c: seq<byte>, lo: int, hi: int, blank: int)
    ensures PartlyErased(c, c, lo, hi, blank)
  {
  }

  /** A finished or interrupted write of blanks inside the range keeps the whole partly erased. */
  lemma BlankChunk(image: seq<byte>, cur: seq<byte>, next: seq<byte>, lo: nat, hi: nat, at: nat, end: nat,
                   buf: seq<byte>, blank: int)
    requires PartlyErased(image, cur, lo, hi, blank) && lo <= at <= end <= hi && end <= |cur| && end - at <= |buf|
    requires forall k :: 0 <= k < |buf| ==> buf[k] == blank
    requires next == Blit(cur, at, buf, 0, end - at) || Torn(cur, next, at, buf, 0, end - at)
    ensures PartlyErased(image, next, lo, hi, blank)
  {
  }

  lemma BlankFilled(cur: seq<byte>, next: seq<byte>, lo: nat, at: nat, end: nat, buf: seq<byte>, blank: int)
    requires Filled(cur, lo, at, blank) && at <= end <= |cur| && end - at <= |buf|
    requires forall k :: 0 <= k < |buf| ==> buf[k] == blank
    requires next == Blit(cur, at, buf, 0, end - at)
    ensures Filled(next, lo, end, blank)
  {
  }

  lemma ProgrammableMore(c: seq<byte>, addr: nat, src: seq<byte>, from: nat, done: nat, buf: seq<byte>, n: nat,
                         blank: int)
    requires addr + done + n <= |c| && from + done + n <= |src| && n <= |buf|
    requires Programmable(c, addr, src, from, done, blank)
    requires forall k :: 0 <= k < n ==> buf[k] == c[addr + done + k]
    requires forall k :: 0 <= k < n ==> buf[k] == blank || buf[k] == src[from + done + k]
    ensures Programmable(c, addr, src, from, done + n, blank)
  {
    forall i | addr + done <= i < addr + done + n ensures c[i] == blank || c[i] == src[from + i - addr] {
      assert buf[i - addr - done] == c[addr + done + (i - addr - done)];
    }
  }

  /** A mismatch in one chunk is a mismatch of the request. */
  lemma NotProgrammable(c: seq<byte>, addr: nat, src: seq<byte>, from: nat, done: nat, buf: seq<byte>, n: nat,
                        size: nat, blank: int)
    requires addr + size <= |c| && from + size <= |src| && n <= |buf| && done + n <= size
    requires forall k :: 0 <= k < n ==> buf[k] == c[addr + done + k]
    requires exists k :: 0 <= k < n && buf[k] != blank && buf[k] != src[from + done + k]
    ensures !Programmable(c, addr, src, from, size, blank)
  {
    var k :| 0 <= k < n && buf[k] != blank && buf[k] != src[from + done + k];
    assert c[addr + done + k] == buf[k];
  }

  /** A chunk of a request, bounded by a buffer of whole units, is a valid program and read. */
  lemma ChunkAligned(bd: Device, a: nat, left: nat, buf: nat)
    requires bd.Valid() && Aligned(a, bd.programSize) && Aligned(left, bd.programSize) && Aligned(buf, bd.programSize)
    requires a + left <= |bd.contents|
    ensures var n := Min(buf, left);
            && bd.ProgramOk(a, n) && bd.ReadOk(a, n)
            && Aligned(a + n, bd.programSize) && Aligned(left - n, bd.programSize)
  {
    var n := Min(buf, left);
    DividesTrans(bd.readSize, bd.programSize, a);
    DividesTrans(bd.readSize, bd.programSize, n);
    Multiples(a, n, bd.programSize);
    Multiples(left, n, bd.programSize);
  }

  lemma EraseAligned(bd: Device, addr: nat, size: nat)
    requires bd.Valid() && bd.EraseOk(addr, size) && NoWrap(addr, size)
    ensures Aligned(addr, bd.programSize) && Aligned(size, bd.programSize)
  {
    DividesTrans(bd.programSize, bd.eraseSize, addr);
    DividesTrans(bd.programSize, bd.eraseSize, addr + size);
    AlignedShift(addr, size, bd.programSize);
  }

  // Whole runs.

  datatype FlashOp =
    | ProgramCall(addr: nat, data: seq<byte>)
    | EraseCall(addr: nat, size: nat)

  predicate Callable(op: FlashOp) {
    match op
    case ProgramCall(addr, data) => NoWrap(addr, |data|)
    case EraseCall(addr, size) => NoWrap(addr, size)
  }

  /** What the contracts of Program and Erase say of the stored bytes, whether the call succeeds or fails. */
  ghost predicate FlashStep(c: seq<byte>, c': seq<byte>, op: FlashOp, blank: int) {
    match op
    case ProgramCall(_, _) => Discipline(c, c', blank)
    case EraseCall(addr, size) => PartlyErased(c, c', addr, addr + size, blank)
  }

  /** The stored bytes before the first and after each call of a run. */
  ghost predicate IsTrace(trace: seq<seq<byte>>, ops: seq<FlashOp>, blank: int) {
    && |trace| == |ops| + 1
    && (forall j :: 0 <= j < |ops| ==> FlashStep(trace[j], trace[j + 1], ops[j], blank))
  }

  predicate Covers(op: FlashOp, i: nat) {
    op.EraseCall? && op.addr <= i < op.addr + op.size
  }

  /**
   * Over every run, successful or not: as long as no erase covers a byte, it goes from blank to at
   * most one other value and then keeps that value.
   */
  lemma {:induction false} OneValueBetweenErases(trace: seq<seq<byte>>, ops: seq<FlashOp>, blank: int, i: nat, j: nat,
                                                 k: nat)
    requires IsTrace(trace, ops, blank) && j <= k <= |ops| && i < |trace[j]|
    requires forall m :: j <= m < k ==> !Covers(ops[m], i)
    ensures |trace[k]| == |trace[j]|
    ensures trace[k][i] == trace[j][i] || trace[j][i] == blank
    decreases k - j
  {
    if j < k {
      assert FlashStep(trace[k - 1], trace[k - 1 + 1], ops[k - 1], blank);
      assert !Covers(ops[k - 1], i);
      OneValueBetweenErases(trace, ops, blank, i, j, k - 1);
    }
  }

  lemma TraceNext(trace: seq<seq<byte>>, ops: seq<FlashOp>, blank: int, next: seq<byte>, op: FlashOp)
    requires IsTrace(trace, ops, blank) && FlashStep(trace[|ops|], next, op, blank)
    ensures IsTrace(trace + [next], ops + [op], blank)
  {
    hide FlashStep;
  }

  method Perform(c: FlashSimBlockDevice, op: FlashOp)
    requires c.Valid() && Callable(op)
    modifies c.bd, c.blankBuf
    ensures c.Valid() && FlashStep(old(c.bd.contents), c.bd.contents, op, c.eraseValue)
  {
    hide Programmable, Blit, Filled, Aligned, Discipline, PartlyErased;
    match op
    case ProgramCall(addr, data) =>
      var b := new byte[|data|](i requires 0 <= i < |data| => data[i]);
      var err := c.Program(b, 0, addr, |data|);
    case EraseCall(addr, size) =>
      var err := c.Erase(addr, size);
  }

  /**
   * Every run of calls, on a device that may fail any of them, is such a trace; so a byte no erase of the run covers
   * is what it was, or was blank.
   */
  method Replay(c: FlashSimBlockDevice, ops: seq<FlashOp>) returns (ghost trace: seq<seq<byte>>)
    requires c.Valid() && forall i :: 0 <= i < |ops| ==> Callable(ops[i])
    modifies c.bd, c.blankBuf
    ensures c.Valid() && IsTrace(trace, ops, c.eraseValue)
    ensures trace[0] == old(c.bd.contents) && trace[|ops|] == c.bd.contents
    ensures |c.bd.contents| == |old(c.bd.contents)|
    ensures forall i :: 0 <= i < |c.bd.contents| && (forall m :: 0 <= m < |ops| ==> !Covers(ops[m], i)) ==>
              c.bd.contents[i] == old(c.bd.contents)[i] || old(c.bd.contents)[i] == c.eraseValue
  {
    hide FlashStep, Callable;
    trace := [c.bd.contents];
    ghost var blank: int := c.eraseValue;
    var n := 0;
    while n < |ops|
      invariant 0 <= n <= |ops| && c.Valid() && IsTrace(trace, ops[..n], blank)
      invariant trace[0] == old(c.bd.contents) && trace[n] == c.bd.contents
    {
      Perform(c, ops[n]);
      TraceNext(trace, ops[..n], blank, c.bd.contents, ops[n]);
      assert ops[..n + 1] == ops[..n] + [ops[n]];
      trace := trace + [c.bd.contents];
      n := n + 1;
    }
    assert ops[..n] == ops;
    TraceLength(trace, ops, blank);
    forall i | 0 <= i < |c.bd.contents| && (forall m :: 0 <= m < |ops| ==> !Covers(ops[m], i))
      ensures c.bd.contents[i] == trace[0][i] || trace[0][i] == blank
    {
      OneValueBetweenErases(trace, ops, blank, i, 0, |ops|);
    }
  }

  lemma {:induction false} TraceLength(trace: seq<seq<byte>>, ops: seq<FlashOp>, blank: int)
    requires IsTrace(trace, ops, blank)
    ensures |trace[|ops|]| == |trace[0]|
    decreases |ops|
  {
    if ops != [] {
      var k := |ops| - 1;
      assert FlashStep(trace[k], trace[k + 1], ops[k], blank);
      forall j | 0 <= j < k ensures FlashStep(trace[..k + 1][j], trace[..k + 1][j + 1], ops[..k][j], blank) {
        assert FlashStep(trace[j], trace[j + 1], ops[j], blank);
      }
      TraceLength(trace[..k + 1], ops[..k], blank);
    }
  }
}
