/** SlicingBlockDevice: a window on another device, whose borders may be counted from that device's end. */
module SlicingBlockDevices {
  import opened Alignment
  import opened Bytes
  import opened BlockDevices

  const I63: int := 0x8000_0000_0000_0000

  /** A 64-bit pattern read as a signed number. */
  function Signed(x: nat): (r: int) {
    if x < I63 then x else x - U64
  }

  /** The border that a signed constructor argument stands for: negative counts from the end. */
  function Resolve(arg: int, fromEnd: bool, size: nat): (r: int) {
    if fromEnd then size + arg else arg
  }

  class SlicingBlockDevice {
    const bd: Device
    var startFromEnd: bool
    var start: nat
    var stopFromEnd: bool
    var stop: nat

    /** Both borders are resolved and aligned, and the window lies inside the device. */
    ghost predicate Ready()
      reads this, bd
    {
      && bd.Valid()
      && !startFromEnd && !stopFromEnd
      && start <= stop <= |bd.contents|
      && Aligned(start, bd.eraseSize) && Aligned(stop, bd.eraseSize)
    }

    /** The bytes visible through the window. */
    ghost function View(): (v: seq<byte>)
      requires start <= stop <= |bd.contents|
      reads this, bd
    {
      bd.contents[start..stop]
    }

    constructor (bd: Device, start: nat, stop: nat)
      requires bd.Valid() && start < U64 && stop < U64
      ensures this.bd == bd
      ensures startFromEnd <==> Signed(start) < 0
      ensures stopFromEnd <==> Signed(stop) <= 0
      ensures startFromEnd <==> start >= 0x8000_0000_0000_0000
      ensures stopFromEnd <==> stop == 0 || stop >= 0x8000_0000_0000_0000
      ensures this.start == (if Signed(start) < 0 then -Signed(start) else Signed(start))
      ensures this.stop == (if Signed(stop) <= 0 then -Signed(stop) else Signed(stop))
    {
      this.bd := bd;
      if Signed(start) < 0 {
        startFromEnd := true;
        this.start := W64(0 - start);
      } else {
        startFromEnd := false;
        this.start := start;
      }
      if Signed(stop) <= 0 {
        stopFromEnd := true;
        this.stop := W64(0 - stop);
      } else {
        stopFromEnd := false;
        this.stop := stop;
      }
      new;
      NegateWraps(start);
      NegateWraps(stop);
    }

    /** The borders that init resolves to, computed modulo 2^64. */
    ghost function First(): (r: nat)
      reads this, bd
    {
      W64(if startFromEnd then |bd.contents| - start else start)
    }

    ghost function Last(): (r: nat)
      reads this, bd
    {
      W64(if stopFromEnd then |bd.contents| - stop else stop)
    }

    /** What init asks of the borders; not that they are in order. */
    ghost predicate Opens()
      requires bd.Valid()
      reads this, bd
    {
      Aligned(First(), bd.eraseSize) && Aligned(Last(), bd.eraseSize) && Last() <= |bd.contents|
    }

    method Init() returns (err: int)
      requires bd.Valid() && start < U64 && stop < U64
      modifies this
      ensures start < U64 && stop < U64 && First() == old(First()) && Last() == old(Last())
      ensures err == 0 ==>
                && !startFromEnd && !stopFromEnd && start == old(First()) && stop == old(Last())
                && Aligned(start, bd.eraseSize) && Aligned(stop, bd.eraseSize) && stop <= |bd.contents|
      ensures err == 0 ==> (Ready() <==> start <= stop)
      ensures !old(startFromEnd) && !old(stopFromEnd) ==> unchanged(this)
      ensures bd.reliable ==> (err == 0 <==> old(Opens()))
    {
      hide W64, IsValidErase, Aligned;
      err := bd.Poke();
      if err != 0 {
        return err;
      }
      var size := |bd.contents|;
      if startFromEnd {
        startFromEnd := false;
        start := W64(size - start);
      }
      if stopFromEnd {
        stopFromEnd := false;
        stop := W64(size - stop);
      }
      InitCheck(this);
      if !IsValidEraseIn(0, W64(stop - start)) {
        return BD_ERROR_DEVICE_ERROR;
      }
      return 0;
    }

    predicate IsValidReadIn(addr: nat, size: nat)
      reads this, bd
      requires bd.readSize > 0
    {
      bd.ReadOk(W64(start + addr), size) && W64(start + addr + size) <= stop
    }

    predicate IsValidProgramIn(addr: nat, size: nat)
      reads this, bd
      requires bd.programSize > 0
    {
      bd.ProgramOk(W64(start + addr), size) && W64(start + addr + size) <= stop
    }

    predicate IsValidEraseIn(addr: nat, size: nat)
      reads this, bd
      requires bd.eraseSize > 0
    {
      bd.EraseOk(W64(start + addr), size) && W64(start + addr + size) <= stop
    }

    function Size(): (r: nat)
      reads this
    {
      W64(stop - start)
    }

    /** Where a request goes: the device adds the start of the window modulo 2^64. */
    function Forwarded(addr: nat): (r: nat)
      reads this
    {
      W64(start + addr)
    }

    /** A request whose end stays representable reads the window; any other reads the device where it is forwarded
        to. */
    method Read(b: array<byte>, at: nat, addr: nat, size: nat) returns (err: int)
      requires Ready() && addr < U64 && size < U64 && at + size <= b.Length
      modifies b
      ensures err == 0 ==> IsValidReadIn(addr, size)
      ensures err == 0 && NoWrap(start + addr, size) ==>
                addr + size <= |View()| && b[..] == Blit(old(b[..]), at, View(), addr, size)
      ensures err == 0 && NoWrap(Forwarded(addr), size) ==>
                && Forwarded(addr) + size <= |bd.contents|
                && b[..] == Blit(old(b[..]), at, bd.contents, Forwarded(addr), size)
      ensures err != 0 || !NoWrap(Forwarded(addr), size) ==> SameOutside(old(b[..]), b[..], at, at + size)
      ensures err == 0 && NoWrap(start + addr, size) ==> Aligned(addr, bd.readSize) && Aligned(size, bd.readSize)
      ensures bd.reliable && IsValidReadIn(addr, size) && NoWrap(Forwarded(addr), size) ==> err == 0
      ensures bd.reliable && addr + size <= |View()| && Aligned(addr, bd.readSize) && Aligned(size, bd.readSize) ==>
                err == 0
    {
      hide Aligned, Blit, SameOutside, W64;
      AlignedInWindow(bd, start, addr);
      SameItself(b[..], at, at + size);
      if !IsValidReadIn(addr, size) {
        return BD_ERROR_DEVICE_ERROR;
      }
      ghost var from: nat, before := start + addr, b[..];
      err := bd.Read(b, at, W64(addr + start), size);
      if NoWrap(from, size) {
        WindowRead(before, at, bd.contents, start, stop, addr, from, size);
      }
    }

    method Program(b: array<byte>, at: nat, addr: nat, size: nat) returns (err: int)
      requires Ready() && addr < U64 && size < U64 && at + size <= b.Length
      modifies bd
      ensures Ready() && |bd.contents| == |old(bd.contents)|
      ensures err == 0 ==> IsValidProgramIn(addr, size)
      ensures err == 0 && NoWrap(start + addr, size) ==>
                addr + size <= |View()| && View() == Blit(old(View()), addr, b[..], at, size)
      ensures err == 0 && NoWrap(Forwarded(addr), size) ==>
                && Forwarded(addr) + size <= |bd.contents|
                && bd.contents == Blit(old(bd.contents), Forwarded(addr), b[..], at, size)
      ensures NoWrap(Forwarded(addr), size) ==>
                SameOutside(old(bd.contents), bd.contents, Forwarded(addr), Forwarded(addr) + size)
      ensures NoWrap(start + addr, size) ==> SameOutside(old(View()), View(), addr, addr + size)
      ensures NoWrap(start + addr, size) ==> SameOutside(old(bd.contents), bd.contents, start, stop)
      ensures err == 0 && NoWrap(start + addr, size) ==> Aligned(addr, bd.programSize) && Aligned(size, bd.programSize)
      ensures bd.reliable && IsValidProgramIn(addr, size) && NoWrap(Forwarded(addr), size) ==> err == 0
      ensures (bd.reliable && addr + size <= |View()|
               && Aligned(addr, bd.programSize) && Aligned(size, bd.programSize)) ==> err == 0
    {
      hide Aligned, Blit, SameOutside, Torn, W64;
      AlignedInWindow(bd, start, addr);
      SameItself(View(), addr, addr + size);
      SameItself(bd.contents, start, stop);
      SameItself(bd.contents, Forwarded(addr), Forwarded(addr) + size);
      if !IsValidProgramIn(addr, size) {
        return BD_ERROR_DEVICE_ERROR;
      }
      ghost var c, from: nat, f := bd.contents, start + addr, Forwarded(addr);
      err := bd.Program(b, at, W64(addr + start), size);
      if NoWrap(f, size) {
        if err == 0 {
          BlitOutside(c, f, b[..], at, size);
        } else {
          TornOutside(c, bd.contents, f, b[..], at, size);
        }
      }
      if NoWrap(from, size) {
        if err == 0 {
          WindowProgrammed(c, start, stop, addr, from, b[..], at, size);
        }
        WindowChanged(c, bd.contents, start, stop, addr, from, size);
      }
    }

    method Erase(addr: nat, size: nat) returns (err: int)
      requires Ready() && addr < U64 && size < U64
      modifies bd
      ensures Ready() && |bd.contents| == |old(bd.contents)|
      ensures err == 0 ==> IsValidEraseIn(addr, size)
      ensures err == 0 && NoWrap(start + addr, size) ==> addr + size <= |View()|
      ensures err == 0 && NoWrap(start + addr, size) && bd.eraseValue >= 0 ==>
                Filled(View(), addr, addr + size, bd.eraseValue)
      ensures NoWrap(Forwarded(addr), size) ==>
                SameOutside(old(bd.contents), bd.contents, Forwarded(addr), Forwarded(addr) + size)
      ensures err == 0 && NoWrap(Forwarded(addr), size) && bd.eraseValue >= 0 ==>
                Filled(bd.contents, Forwarded(addr), Forwarded(addr) + size, bd.eraseValue)
      ensures NoWrap(start + addr, size) ==> SameOutside(old(View()), View(), addr, addr + size)
      ensures NoWrap(start + addr, size) ==> SameOutside(old(bd.contents), bd.contents, start, stop)
      ensures err == 0 && NoWrap(start + addr, size) ==> Aligned(addr, bd.eraseSize) && Aligned(size, bd.eraseSize)
      ensures bd.reliable && IsValidEraseIn(addr, size) && NoWrap(Forwarded(addr), size) ==> err == 0
      ensures bd.reliable && addr + size <= |View()| && Aligned(addr, bd.eraseSize) && Aligned(size, bd.eraseSize) ==>
                err == 0
    {
      hide Aligned, Blit, SameOutside, Filled, W64;
      SameItself(View(), addr, addr + size);
      SameItself(bd.contents, start, stop);
      SameItself(bd.contents, Forwarded(addr), Forwarded(addr) + size);
      AlignedInWindow(bd, start, addr);
      AlignedInWindow(bd, start, addr + size);
      if Aligned(addr, bd.eraseSize) {
        AlignedShift(addr, size, bd.eraseSize);
      }
      if !IsValidEraseIn(addr, size) {
        return BD_ERROR_DEVICE_ERROR;
      }
      ghost var c, from: nat := bd.contents, start + addr;
      err := bd.Erase(W64(addr + start), size);
      if NoWrap(from, size) {
        WindowChanged(c, bd.contents, start, stop, addr, from, size);
        if err == 0 && bd.eraseValue >= 0 {
          WindowFilled(bd.contents, start, stop, addr, from, size, bd.eraseValue);
        }
      }
    }
  }

  /** Changes seen through the window. */
  lemma WindowChanged<T>(c: seq<T>, d: seq<T>, start: nat, stop: nat, addr: nat, from: nat, size: nat)
    requires SameOutside(c, d, from, from + size) && from == start + addr && from + size <= stop <= |c|
    ensures SameOutside(c, d, start, stop) && SameOutside(c[start..stop], d[start..stop], addr, addr + size)
  {
  }

  lemma WindowFilled(c: seq<byte>, start: nat, stop: nat, addr: nat, from: nat, size: nat, v: int)
    requires Filled(c, from, from + size, v) && from == start + addr && from + size <= stop <= |c|
    ensures Filled(c[start..stop], addr, addr + size, v)
  {
  }

  lemma WindowProgrammed<T>(c: seq<T>, start: nat, stop: nat, addr: nat, from: nat, src: seq<T>, at: nat, size: nat)
    requires from == start + addr && from + size <= stop <= |c| && at + size <= |src|
    ensures Blit(c, from, src, at, size)[start..stop] == Blit(c[start..stop], addr, src, at, size)
  {
  }

  lemma BlitOutside<T>(c: seq<T>, from: nat, src: seq<T>, at: nat, size: nat)
    requires from + size <= |c| && at + size <= |src|
    ensures SameOutside(c, Blit(c, from, src, at, size), from, from + size)
  {
  }

  lemma TornOutside<T>(c: seq<T>, d: seq<T>, from: nat, src: seq<T>, at: nat, size: nat)
    requires from + size <= |c| && at + size <= |src| && Torn(c, d, from, src, at, size)
    ensures SameOutside(c, d, from, from + size)
  {
  }

  lemma WindowRead<T>(dst: seq<T>, at: nat, c: seq<T>, start: nat, stop: nat, addr: nat, from: nat, size: nat)
    requires from == start + addr && from + size <= stop <= |c| && at + size <= |dst|
    ensures Blit(dst, at, c, from, size) == Blit(dst, at, c[start..stop], addr, size)
  {
  }

  lemma NegateWraps(x: nat)
    requires x < U64
    ensures W64(0 - x) == if x == 0 then 0 else U64 - x
  {
    if x != 0 {
      DivUnique(0 - x, U64, -1, U64 - x);
    }
  }

  /** The window's size is computed modulo 2^64, and adding it to the start gives the stop again. */
  lemma WindowSum(start: nat, stop: nat)
    requires start < U64 && stop < U64
    ensures W64(W64(start + 0) + W64(stop - start)) == stop == W64(start + 0 + W64(stop - start))
    ensures W64(stop - start) == if start <= stop then stop - start else stop - start + U64
  {
    if stop < start {
      DivUnique(stop - start, U64, -1, stop - start + U64);
      DivUnique(stop + U64, U64, 1, stop);
    }
  }

  /** What the check in init amounts to: the borders are aligned and the stop is in range. */
  lemma InitCheck(c: SlicingBlockDevice)
    requires c.bd.Valid() && c.start < U64 && c.stop < U64
    ensures c.IsValidEraseIn(0, W64(c.stop - c.start)) <==>
            Aligned(c.start, c.bd.eraseSize) && Aligned(c.stop, c.bd.eraseSize) && c.stop <= |c.bd.contents|
  {
    WindowSum(c.start, c.stop);
  }

  /** Alignment inside an aligned window is alignment on the device. */
  lemma AlignedInWindow(bd: Device, start: nat, a: nat)
    requires bd.Valid() && Aligned(start, bd.eraseSize)
    ensures Aligned(start + a, bd.readSize) <==> Aligned(a, bd.readSize)
    ensures Aligned(start + a, bd.programSize) <==> Aligned(a, bd.programSize)
    ensures Aligned(start + a, bd.eraseSize) <==> Aligned(a, bd.eraseSize)
  {
    DividesTrans(bd.programSize, bd.eraseSize, start);
    DividesTrans(bd.readSize, bd.programSize, start);
    AlignedShift(start, a, bd.readSize);
    AlignedShift(start, a, bd.programSize);
    AlignedShift(start, a, bd.eraseSize);
  }

  /**
   * For signed borders `s` and `t`, a successful init gives a usable window if and only if the
   * borders, counted from the end where negative (for the stop also where zero), are in order and
   * inside the device; then the window is exactly the one they name.
   */
  lemma WindowOfSignedBorders(size: nat, s: int, t: int)
    requires size < U64 && -I63 <= s < I63 && -I63 <= t < I63
    ensures var start, stop := Resolve(s, s < 0, size), Resolve(t, t <= 0, size);
            && (W64(start) <= W64(stop) <= size <==> 0 <= start <= stop <= size)
            && (0 <= start <= stop <= size ==> W64(start) == start && W64(stop) == stop)
  {
    var start, stop := Resolve(s, s < 0, size), Resolve(t, t <= 0, size);
    if start < 0 {
      DivUnique(start, U64, -1, start + U64);
    } else if start >= U64 {
      DivUnique(start, U64, 1, start - U64);
    }
    if stop < 0 {
      DivUnique(stop, U64, -1, stop + U64);
    }
  }

  /** Init does not compare the borders: start 8 and stop 4 pass its check on a device of 16 bytes. */
  lemma InvertedWindowAccepted()
    ensures IsValidErase(4, 4, 16, 8, W64(4 - 8)) && W64(8 + W64(4 - 8)) <= 4 && W64(4 - 8) == U64 - 4
  {
    WindowSum(8, 4);
  }

  /** A request that passes one of the three checks of the window. */
  ghost predicate Admitted(c: SlicingBlockDevice, addr: nat, size: nat)
    requires c.bd.Valid()
    reads c, c.bd
  {
    && addr < U64 && size < U64
    && (c.IsValidReadIn(addr, size) || c.IsValidProgramIn(addr, size) || c.IsValidEraseIn(addr, size))
  }

  /**
   * The checks compare the end of a request modulo 2^64. An admitted request whose forwarded end is representable stays
   * inside the window exactly if adding the start does not wrap.
   */
  lemma ForwardedInsideExactly(c: SlicingBlockDevice, addr: nat, size: nat)
    requires c.Ready() && Admitted(c, addr, size) && size > 0 && NoWrap(c.Forwarded(addr), size)
    ensures c.start <= c.Forwarded(addr) && c.Forwarded(addr) + size <= c.stop <==> c.start + addr < U64
  {
    if c.start + addr >= U64 {
      WrapOnce(c.start + addr);
    }
  }

  /** The guard is needed for every window but one at the start of its device: address -start reaches byte 0. */
  lemma EveryWindowEscapes(c: SlicingBlockDevice)
    requires c.Ready() && 0 < c.start < c.stop
    ensures var addr, size := U64 - c.start, c.bd.programSize;
            && c.IsValidReadIn(addr, size) && c.IsValidProgramIn(addr, size)
            && c.Forwarded(addr) == 0 && NoWrap(c.Forwarded(addr), size)
  {
    var m, r := c.bd.programSize, c.bd.readSize;
    WholeUnits(c.start, c.bd.eraseSize);
    WholeUnits(c.bd.eraseSize, m);
    WrapOnce(c.start + (U64 - c.start));
    assert c.start + (U64 - c.start) + m == U64 + m;
    WrapOnce(U64 + m);
    UnitUnique(m, m, m);
  }

  lemma WholeUnits(a: nat, m: nat)
    requires m > 0 && Aligned(a, m) && a > 0
    ensures a >= m
  {
    ZeroAligned(m);
    UnitNoBound(0, a, m);
  }

  /** Witness: a byte programmed through the window [8, 16) lands at byte 0 of the device. */
  method ProgramOutsideWindow() returns (before: byte, after: byte)
    ensures before == 0 && after == 7
  {
    hide Blit, SameOutside;
    var bd := new Device(1, 1, 8, -1, true, Repeat(0, 16));
    var c := new SlicingBlockDevice(bd, 8, 16);
    var err := c.Init();
    OneAligned(1);
    EveryWindowEscapes(c);
    var b := new byte[][7];
    before := bd.contents[0];
    err := c.Program(b, 0, U64 - 8, 1);
    after := bd.contents[0];
  }

  /** An inverted window rejects every request whose end stays representable, and no others are safe: some non-empty
      request with a representable forwarded end is admitted exactly if the stop is not the start of the device. */
  lemma InvertedWindowExactly(c: SlicingBlockDevice)
    requires c.bd.Valid() && c.stop < c.start < U64 && c.stop <= |c.bd.contents|
    requires Aligned(c.start, c.bd.eraseSize) && Aligned(c.stop, c.bd.eraseSize)
    ensures forall addr, size :: Admitted(c, addr, size) ==> !NoWrap(c.start + addr, size)
    ensures (exists addr, size :: Admitted(c, addr, size) && size > 0 && NoWrap(c.Forwarded(addr), size)) <==>
              c.stop > 0
  {
    if c.stop > 0 {
      var addr, size := U64 - c.start, c.bd.programSize;
      WholeUnits(c.stop, c.bd.eraseSize);
      WholeUnits(c.bd.eraseSize, size);
      WrapOnce(c.start + addr);
      assert c.start + addr + size == U64 + size;
      WrapOnce(U64 + size);
      UnitUnique(size, size, size);
      assert Admitted(c, addr, size);
    } else {
      forall addr, size | Admitted(c, addr, size) && size > 0 ensures !NoWrap(c.Forwarded(addr), size) {
        SumMod(c.start + addr, size);
      }
    }
  }

  lemma SumMod(x: nat, size: nat)
    requires size > 0 && W64(x + size) == 0
    ensures W64(x) + size >= U64
  {
    if W64(x) + size < U64 {
      DivUnique(x + size, U64, x / U64, W64(x) + size);
    }
  }

  /**
   * A slice from signed borders: on a dependable device, constructing and initializing it gives a usable window exactly
   * if the borders, counted from the end where negative (for the stop also where zero), are in order, inside the device
   * and on borders of erase units; and then it is the window they name.
   */
  method Slice(bd: Device, s: int, t: int) returns (c: SlicingBlockDevice, err: int)
    requires bd.Valid() && -0x8000_0000_0000_0000 <= s < 0x8000_0000_0000_0000
    requires -0x8000_0000_0000_0000 <= t < 0x8000_0000_0000_0000
    ensures c.bd == bd
    ensures var start, stop := if s < 0 then |bd.contents| + s else s, if t <= 0 then |bd.contents| + t else t;
            && (err == 0 && c.Ready() ==> 0 <= start <= stop && c.start == start && c.stop == stop)
            && (bd.reliable ==>
                  (err == 0 && c.Ready() <==>
                   0 <= start <= stop <= |bd.contents| && Aligned(start, bd.eraseSize) && Aligned(stop, bd.eraseSize)))
  {
    hide Aligned, W64;
    SignedPattern(s);
    SignedPattern(t);
    WindowOfSignedBorders(|bd.contents|, s, t);
    c := new SlicingBlockDevice(bd, W64(s), W64(t));
    err := c.Init();
  }

  /** The 64-bit pattern of a signed number reads back as that number. */
  lemma SignedPattern(x: int)
    requires -I63 <= x < I63
    ensures Signed(W64(x)) == x
  {
    if x < 0 {
      DivUnique(x, U64, -1, x + U64);
    }
  }

  /** A change inside one window is invisible through a window disjoint from it. */
  lemma DisjointWindows<T>(c: seq<T>, c': seq<T>, lo: nat, hi: nat, s: nat, t: nat)
    requires SameOutside(c, c', lo, hi) && s <= t <= |c| && (t <= lo || hi <= s)
    ensures c[s..t] == c'[s..t]
  {
  }
}
