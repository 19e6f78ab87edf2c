/** Whole runs of a BufferedBlockDevice, against a flat array that is written in place. */
module BufferedRuns {
  import opened Alignment
  import opened Bytes
  import opened BlockDevices
  import opened BufferedRounds
  import opened BufferedBlockDevices

  /** The flat array a caller sees, what the device below holds of it, and which unit, if any, is pending in the
      cache. */
  datatype Disk = Disk(v: seq<byte>, dev: seq<byte>, pending: Option<nat>)

  /** Program size and erase size of the device below, and its erase value if it has one. */
  datatype Geometry = Geometry(m: nat, e: nat, blank: Option<byte>) {
    predicate Ok() { m > 0 && e > 0 }
  }

  datatype Op =
    | ReadOp(addr: nat, size: nat)
    | ProgramOp(addr: nat, data: seq<byte>)
    | FlushOp
    | SyncOp
    | EraseOp(addr: nat, size: nat)
    | TrimOp(addr: nat, size: nat)

  /** On `n` bytes: in range, shorter than 2^32 bytes where there is a buffer, and not rerouted. */
  predicate Admissible(g: Geometry, n: nat, op: Op)
    requires g.Ok()
  {
    match op
    case ReadOp(addr, size) => addr + size <= n && size < U32
    case ProgramOp(addr, data) => addr + |data| <= n && |data| < U32 && !Reroutes(addr, |data|, g.m)
    case FlushOp => true
    case SyncOp => true
    case EraseOp(addr, size) => NoWrap(addr, size) && IsValidErase(g.e, g.e, n, addr, size)
    case TrimOp(addr, size) => NoWrap(addr, size) && IsValidErase(g.e, g.e, n, addr, size)
  }

  /** What an erase may leave in its range: the erase value, or anything if there is none. */
  predicate Leaves(g: Geometry, op: Op, left: seq<byte>) {
    op.EraseOp? ==> |left| == op.size && (g.blank.Some? ==> left == Repeat(g.blank.value, op.size))
  }

  predicate AllLeave(g: Geometry, ops: seq<Op>, lefts: seq<seq<byte>>) {
    |lefts| == |ops| && forall i :: 0 <= i < |ops| ==> Leaves(g, ops[i], lefts[i])
  }

  /** What the device holds when a program starts to write: the pending unit is flushed unless the request starts in
      it. */
  function Underneath(d: Disk, addr: nat, m: nat): (c: seq<byte>)
    requires m > 0
  {
    if d.pending == Some(AlignDown(addr, m)) then d.dev else d.v
  }

  /** Erasing and trimming discard the pending unit, also when it is the range's right neighbour. */
  predicate Discards(d: Disk, addr: nat, size: nat) {
    d.pending.Some? && addr <= d.pending.value <= addr + size
  }

  /** The flat array, and the device, after one operation; `left` is what an erase leaves in its range. */
  function Step(g: Geometry, d: Disk, op: Op, left: seq<byte>): (r: Disk)
    requires g.Ok() && |d.dev| == |d.v| && Leaves(g, op, left)
    ensures |r.dev| == |r.v| == |d.v|
  {
    match op
    case ReadOp(addr, size) => d
    case ProgramOp(addr, data) =>
      var under := Underneath(d, addr, g.m);
      if addr + |data| > |d.v| then d
      else if data == [] then
        Disk(d.v, under, if d.pending == Some(AlignDown(addr, g.m)) then d.pending else None)
      else
        var v, u := Blit(d.v, addr, data, 0, |data|), UnitOf(addr + |data|, g.m);
        if (addr + |data|) % g.m == 0 || u + g.m > |v| then Disk(v, v, None)
        else Disk(v, Blit(v, u, under, u, g.m), Some(u))
    case FlushOp => Disk(d.v, d.v, None)
    case SyncOp => Disk(d.v, d.v, None)
    case EraseOp(addr, size) =>
      if addr + size > |d.v| then d
      else
        var dev := Blit(d.dev, addr, left, 0, size);
        if d.pending.None? || Discards(d, addr, size) then Disk(dev, dev, None)
        else Disk(Blit(d.v, addr, left, 0, size), dev, d.pending)
    case TrimOp(addr, size) => if Discards(d, addr, size) then Disk(d.dev, d.dev, None) else d
  }

  /** The bytes an operation returns. */
  function Output(d: Disk, op: Op): (out: seq<byte>) {
    if op.ReadOp? && op.addr + op.size <= |d.v| then d.v[op.addr..op.addr + op.size] else []
  }

  function Run(g: Geometry, d: Disk, ops: seq<Op>, lefts: seq<seq<byte>>): (r: Disk)
    requires g.Ok() && |d.dev| == |d.v| && AllLeave(g, ops, lefts)
    decreases |ops|
    ensures |r.v| == |d.v|
  {
    if ops == [] then d else Run(g, Step(g, d, ops[0], lefts[0]), ops[1..], lefts[1..])
  }

  function Outputs(g: Geometry, d: Disk, ops: seq<Op>, lefts: seq<seq<byte>>): (outs: seq<seq<byte>>)
    requires g.Ok() && |d.dev| == |d.v| && AllLeave(g, ops, lefts)
    decreases |ops|
  {
    if ops == [] then []
    else [Output(d, ops[0])] + Outputs(g, Step(g, d, ops[0], lefts[0]), ops[1..], lefts[1..])
  }

  /** The flat array that a wrapper on a dependable device presents. */
  ghost function View(c: BufferedBlockDevice): (d: Disk)
    requires c.Valid()
    reads c, c.bd, c.writeCache
    ensures |d.dev| == |d.v|
  {
    Disk(c.V(), c.bd.contents, if c.writeCacheValid then Some(c.writeCacheAddr) else None)
  }

  function Shape(bd: Device): (g: Geometry)
    reads bd
  {
    Geometry(bd.programSize, bd.eraseSize, if 0 <= bd.eraseValue < 0x100 then Some(bd.eraseValue) else None)
  }

  ghost predicate Ready(c: BufferedBlockDevice)
    reads c, c.bd
  {
    c.Valid() && c.isInitialized && c.bd.reliable
  }

  /** Every operation acts on the wrapper as it does on the flat array. */
  method Perform(c: BufferedBlockDevice, op: Op) returns (out: seq<byte>, ghost left: seq<byte>)
    requires Ready(c) && Admissible(Shape(c.bd), |c.V()|, op)
    modifies c`writeCacheAddr, c`writeCacheValid, c.writeCache, c.readBuf, c.bd
    ensures Ready(c)
    ensures |c.V()| == |old(c.V())| && Leaves(Shape(c.bd), op, left)
    ensures View(c) == Step(Shape(c.bd), old(View(c)), op, left)
    ensures out == Output(old(View(c)), op)
    ensures op.SyncOp? || op.FlushOp? ==> c.bd.contents == old(c.V())
  {
    hide Blit, W64, SameOutside, Filled, AlignDown, UnitOf, Stop, Finished, Exact, Aligned;
    out, left := [], [];
    match op
    case ReadOp(addr, size) =>
      var b := new byte[size];
      var err, stuck := c.Read(b, 0, addr, size);
      out := b[..];
      ReadsSlice(b[..], c.V(), addr, size);
    case ProgramOp(addr, data) =>
      PerformProgram(c, addr, data);
    case FlushOp =>
      var err := c.Flush();
    case SyncOp =>
      var err := c.Sync();
    case EraseOp(addr, size) =>
      left := PerformErase(c, addr, size);
    case TrimOp(addr, size) =>
      var err := c.Trim(addr, size);
  }

  method PerformErase(c: BufferedBlockDevice, addr: nat, size: nat) returns (ghost left: seq<byte>)
    requires Ready(c) && Admissible(Shape(c.bd), |c.V()|, EraseOp(addr, size))
    modifies c`writeCacheAddr, c`writeCacheValid, c.bd
    ensures Ready(c) && |c.V()| == |old(c.V())| && Leaves(Shape(c.bd), EraseOp(addr, size), left)
    ensures View(c) == Step(Shape(c.bd), old(View(c)), EraseOp(addr, size), left)
  {
    hide Blit, W64, SameOutside, Filled, Aligned;
    ghost var v, dev := c.V(), c.bd.contents;
    var err := c.Erase(addr, size);
    left := c.bd.contents[addr..addr + size];
    if c.bd.eraseValue >= 0 {
      FilledIsRepeat(c.bd.contents, addr, size, c.bd.eraseValue);
    }
    ReplacedIsBlit(dev, c.bd.contents, addr, size, left);
    if c.writeCacheValid {
      ReplacedIsBlit(v, c.V(), addr, size, left);
    }
  }

  method PerformProgram(c: BufferedBlockDevice, addr: nat, data: seq<byte>)
    requires Ready(c) && Admissible(Shape(c.bd), |c.V()|, ProgramOp(addr, data))
    modifies c`writeCacheAddr, c`writeCacheValid, c.writeCache, c.bd
    ensures Ready(c) && |c.V()| == |old(c.V())|
    ensures View(c) == Step(Shape(c.bd), old(View(c)), ProgramOp(addr, data), [])
  {
    hide Blit, W64, SameOutside, AlignDown, UnitOf, Stop, Aligned, Exact, Odd, Kept, Dropped, Beyond, Reroutes, InReach,
         Finished, Step;
    ghost var d, m := View(c), c.bd.programSize;
    var b := new byte[|data|](i requires 0 <= i < |data| => data[i]);
    assert b[..] == data;
    InReachInside(addr, |data|, m, |d.v|);
    ExactInside(addr, |data|, m);
    ghost var fate;
    var err;
    err, fate := c.Program(b, 0, addr, |data|);
    if c.writeCacheValid && data != [] {
      PendingUnit(d.v, Underneath(d, addr, m), c.V(), c.bd.contents, c.writeCacheAddr, addr, data, m);
      PendingOver(c, Underneath(d, addr, m));
    }
    ProgramIsStep(Shape(c.bd), d, addr, data, c.V(), c.bd.contents, c.writeCacheValid, c.writeCacheAddr);
  }

  lemma PendingUnit(v: seq<byte>, under: seq<byte>, v': seq<byte>, dev: seq<byte>, pending: nat, addr: nat,
                    data: seq<byte>, m: nat)
    requires m > 0 && !Reroutes(addr, |data|, m)
    requires Finished(v, under, v', dev, true, pending, addr, |data|, data, 0, m)
    ensures SameUnitBytes(under, dev, pending, m)
  {
  }

  /** What the cache's program leaves is the step of the model. */
  lemma ProgramIsStep(g: Geometry, d: Disk, addr: nat, data: seq<byte>, v: seq<byte>, dev: seq<byte>, valid: bool,
                      pending: nat)
    requires g.Ok() && |d.dev| == |d.v| == |v| && addr + |data| <= |d.v| && !Reroutes(addr, |data|, g.m)
    requires data != [] ==>
               && Finished(d.v, Underneath(d, addr, g.m), v, dev, valid, pending, addr, |data|, data, 0, g.m)
               && (valid ==>
                     && pending + g.m <= |v|
                     && dev == Blit(v, pending, Underneath(d, addr, g.m), pending, g.m))
    requires data == [] ==>
               && v == d.v && dev == Underneath(d, addr, g.m)
               && (valid <==> d.pending == Some(AlignDown(addr, g.m))) && (valid ==> d.pending == Some(pending))
    requires !valid && data != [] ==> dev == v
    ensures Step(g, d, ProgramOp(addr, data), []) == Disk(v, dev, if valid then Some(pending) else None)
  {
    hide Blit, AlignDown, UnitOf, Reroutes, Rerouted, Underneath, SameUnitBytes;
  }

  lemma InReachInside(addr: nat, size: nat, m: nat, total: nat)
    requires m > 0 && !Reroutes(addr, size, m) && addr + size <= total
    ensures InReach(total, addr, size, m)
  {
  }

  lemma ExactInside(addr: nat, size: nat, m: nat)
    requires m > 0 && !Reroutes(addr, size, m)
    ensures forall fate, ret, readSize, total ::
              readSize > 0 && Exact(fate, ret, addr, size, m, readSize, total) ==> fate.Regular? && ret == 0
  {
  }

  /** The device differs from the view only in the pending unit, in which it is as `under`. */
  lemma PendingOver(c: BufferedBlockDevice, under: seq<byte>)
    requires c.Valid() && c.isInitialized && c.writeCacheValid
    requires SameUnitBytes(under, c.bd.contents, c.writeCacheAddr, c.bdProgramSize)
    ensures c.bd.contents == Blit(c.V(), c.writeCacheAddr, under, c.writeCacheAddr, c.bdProgramSize)
  {
    var u, m := c.writeCacheAddr, c.bdProgramSize;
    forall i | u <= i < u + m ensures c.bd.contents[i] == under[i] {
      assert c.bd.contents[u..u + m][i - u] == under[u..u + m][i - u];
    }
  }

  lemma ReadsSlice(out: seq<byte>, v: seq<byte>, addr: nat, size: nat)
    requires |out| == size && addr + size <= |v|
    ensures (forall i :: 0 <= i < size ==> out[i] == v[addr + i]) ==> out == v[addr..addr + size]
  {
  }

  lemma FilledIsRepeat(c: seq<byte>, addr: nat, size: nat, value: byte)
    requires addr + size <= |c| && Filled(c, addr, addr + size, value)
    ensures c[addr..addr + size] == Repeat(value, size)
  {
  }

  lemma ReplacedIsBlit(v: seq<byte>, v': seq<byte>, addr: nat, size: nat, left: seq<byte>)
    requires SameOutside(v, v', addr, addr + size) && addr + size <= |v| && |left| == size
    requires forall i :: addr <= i < addr + size ==> v'[i] == left[i - addr]
    ensures v' == Blit(v, addr, left, 0, size)
  {
  }

  /** Refinement over whole runs: any script of admissible operations gives the outputs and final state of the model. */
  method Replay(c: BufferedBlockDevice, ops: seq<Op>) returns (outs: seq<seq<byte>>, ghost lefts: seq<seq<byte>>)
    requires Ready(c) && forall i :: 0 <= i < |ops| ==> Admissible(Shape(c.bd), |c.V()|, ops[i])
    modifies c`writeCacheAddr, c`writeCacheValid, c.writeCache, c.readBuf, c.bd
    ensures Ready(c) && AllLeave(Shape(c.bd), ops, lefts)
    ensures View(c) == Run(Shape(c.bd), old(View(c)), ops, lefts)
    ensures outs == Outputs(Shape(c.bd), old(View(c)), ops, lefts)
    decreases |ops|
  {
    hide Step, Admissible, Leaves;
    if ops == [] {
      return [], [];
    }
    var out, left := Perform(c, ops[0]);
    var rest, others := Replay(c, ops[1..]);
    return [out] + rest, [left] + others;
  }
}
