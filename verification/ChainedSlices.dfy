/** Chains of slices: which chains init makes usable, and a device cut into adjacent slices and chained again. */
module ChainedSlices {
  import opened Alignment
  import opened Bytes
  import opened BlockDevices
  import opened SlicingBlockDevices
  import opened ChainingBlockDevices
  import opened Concatenation

  /** What a successful init leaves behind. */
  ghost predicate Initialized(c: ChainingBlockDevice)
    reads c, c.bds, c.devices
  {
    && |c.bds| > 0 && c.isInitialized && c.Children() && |c.Image()| < U64 && c.size == |c.Image()|
    && c.readSize == FoldSize(ReadSizes(c.bds))
    && c.programSize == FoldSize(ProgramSizes(c.bds))
    && c.eraseSize == FoldSize(EraseSizes(c.bds))
    && c.eraseValue == FoldValue(EraseValues(c.bds))
  }

  /** Some child's size is a multiple of every child's. */
  ghost predicate Commensurable(sizes: seq<nat>) {
    exists i :: 0 <= i < |sizes| && forall k :: 0 <= k < |sizes| && sizes[k] > 0 ==> sizes[i] % sizes[k] == 0
  }

  ghost predicate LengthsFit(c: ChainingBlockDevice)
    reads c, c.bds
  {
    && c.readSize > 0 && c.programSize > 0 && c.eraseSize > 0
    && forall i :: 0 <= i < |c.bds| ==>
         && Aligned(c.bds[i].stop - c.bds[i].start, c.readSize)
         && Aligned(c.bds[i].stop - c.bds[i].start, c.programSize)
         && Aligned(c.bds[i].stop - c.bds[i].start, c.eraseSize)
  }

  /** The asserts of init only log. Its result is usable exactly if for each kind of block some child's block size is a
      multiple of all the others, and every child holds whole blocks of the folded sizes. */
  lemma UsableExactly(c: ChainingBlockDevice)
    requires Initialized(c)
    ensures c.Valid() <==>
            && Commensurable(ReadSizes(c.bds)) && Commensurable(ProgramSizes(c.bds)) && Commensurable(EraseSizes(c.bds))
            && LengthsFit(c)
  {
    hide FoldSize, FoldValue, Flatten, ViewsOf, Separate, Commensurable;
    forall i | 0 <= i < |c.bds| ensures Positive(c.bds[i].bd) {
      assert c.bds[i].Ready();
    }
    FoldedExactly(ReadSizes(c.bds));
    FoldedExactly(ProgramSizes(c.bds));
    FoldedExactly(EraseSizes(c.bds));
    FoldedValueShared(EraseValues(c.bds));
    ValueShared(c);
    FitsExactly(c);
  }

  lemma ValueShared(c: ChainingBlockDevice)
    requires c.eraseValue == FoldValue(EraseValues(c.bds))
    requires FoldValue(EraseValues(c.bds)) != -1 ==>
               forall i :: 0 <= i < |c.bds| ==> EraseValues(c.bds)[i] == FoldValue(EraseValues(c.bds))
    ensures c.eraseValue >= 0 ==> forall i :: 0 <= i < |c.bds| ==> c.bds[i].bd.eraseValue == c.eraseValue
  {
    hide FoldValue;
    if c.eraseValue >= 0 {
      forall i | 0 <= i < |c.bds| ensures c.bds[i].bd.eraseValue == c.eraseValue {
        assert EraseValues(c.bds)[i] == c.bds[i].bd.eraseValue;
      }
    }
  }

  lemma FoldedExactly(sizes: seq<nat>)
    requires |sizes| > 0 && forall k :: 0 <= k < |sizes| ==> sizes[k] > 0
    ensures FoldSize(sizes) > 0
    ensures Commensurable(sizes) <==> forall k :: 0 <= k < |sizes| ==> FoldSize(sizes) % sizes[k] == 0
  {
    FoldedSizeFits(sizes);
    if Commensurable(sizes) {
      var i :| 0 <= i < |sizes| && forall k :: 0 <= k < |sizes| && sizes[k] > 0 ==> sizes[i] % sizes[k] == 0;
      assert forall k :: 0 <= k < |sizes| ==> sizes[i] % sizes[k] == 0;
    }
  }

  lemma FitsExactly(c: ChainingBlockDevice)
    requires c.Children() && c.readSize > 0 && c.programSize > 0 && c.eraseSize > 0
    requires forall i :: 0 <= i < |c.bds| ==> Positive(c.bds[i].bd)
    ensures (forall i :: 0 <= i < |c.bds| ==> Fits(c.bds[i], c.readSize, c.programSize, c.eraseSize)) <==>
            && (forall k :: 0 <= k < |c.bds| ==> c.readSize % ReadSizes(c.bds)[k] == 0)
            && (forall k :: 0 <= k < |c.bds| ==> c.programSize % ProgramSizes(c.bds)[k] == 0)
            && (forall k :: 0 <= k < |c.bds| ==> c.eraseSize % EraseSizes(c.bds)[k] == 0)
            && LengthsFit(c)
  {
    hide Separate, ViewsOf;
    forall i | 0 <= i < |c.bds|
      ensures Fits(c.bds[i], c.readSize, c.programSize, c.eraseSize) <==>
              && c.readSize % ReadSizes(c.bds)[i] == 0 && c.programSize % ProgramSizes(c.bds)[i] == 0
              && c.eraseSize % EraseSizes(c.bds)[i] == 0
              && Aligned(c.bds[i].stop - c.bds[i].start, c.readSize)
              && Aligned(c.bds[i].stop - c.bds[i].start, c.programSize)
              && Aligned(c.bds[i].stop - c.bds[i].start, c.eraseSize)
    {
    }
  }

  /** The children are adjacent slices of one device, from its start to its end. */
  ghost predicate TilesDevice(c: ChainingBlockDevice, bd: Device, starts: seq<nat>, stops: seq<nat>)
    reads c.bds, bd
  {
    && |starts| == |stops| == |c.bds|
    && Tiles(starts, stops, 0, |bd.contents|)
    && forall i :: 0 <= i < |c.bds| ==> c.bds[i].bd == bd && c.bds[i].start == starts[i] && c.bds[i].stop == stops[i]
  }

  /** Slicing and chaining cancel: the chain presents exactly the device's bytes. */
  lemma TiledChainIsDevice(c: ChainingBlockDevice, bd: Device, starts: seq<nat>, stops: seq<nat>)
    requires c.Children() && TilesDevice(c, bd, starts, stops)
    ensures c.Image() == bd.contents
  {
    hide Separate;
    var vs := c.Views();
    forall i | 0 <= i < |vs|
      ensures starts[i] <= stops[i] <= |bd.contents| && vs[i] == bd.contents[starts[i]..stops[i]]
    {
      assert c.bds[i].Ready() && vs[i] == c.bds[i].View();
    }
    FlattenTiles(bd.contents, starts, stops, vs, 0);
  }

  /** Its block sizes and its erase value are the device's. */
  lemma TiledSizes(c: ChainingBlockDevice, bd: Device)
    requires Initialized(c) && forall i :: 0 <= i < |c.bds| ==> c.bds[i].bd == bd
    ensures c.readSize == bd.readSize && c.programSize == bd.programSize && c.eraseSize == bd.eraseSize
    ensures c.eraseValue == bd.eraseValue
  {
    hide Separate, Flatten, ViewsOf, FoldSize, FoldValue;
    assert c.bds[0].Ready();
    SharedSize(ReadSizes(c.bds), bd.readSize);
    SharedSize(ProgramSizes(c.bds), bd.programSize);
    SharedSize(EraseSizes(c.bds), bd.eraseSize);
    FoldedValueShared(EraseValues(c.bds));
  }

  lemma SharedSize(sizes: seq<nat>, x: nat)
    requires |sizes| > 0 && x > 0 && forall k :: 0 <= k < |sizes| ==> sizes[k] == x
    ensures FoldSize(sizes) == x
  {
    hide FoldSize;
    DivUnique(x, x, 1, 0);
    FoldStays(sizes, 0);
  }

  /**
   * Cutting a device in two and chaining the pieces, the second of them a slice up to the device's end that is still
   * unresolved: init succeeds exactly if the cut is on a border of an erase unit, and then the chain is usable and
   * presents the device.
   */
  method CutAndChain(bd: Device, cut: nat) returns (c: ChainingBlockDevice, err: int)
    requires bd.Valid() && bd.reliable && 0 < cut <= |bd.contents| && cut < I63
    ensures err == 0 <==> Aligned(cut, bd.eraseSize)
    ensures err == 0 ==>
              && c.Valid() && Initialized(c) && TilesDevice(c, bd, [0, cut], [cut, |bd.contents|])
              && c.Image() == bd.contents
              && c.readSize == bd.readSize && c.programSize == bd.programSize && c.eraseSize == bd.eraseSize
    ensures c.devices == {bd}
  {
    hide Separate, Flatten, ViewsOf, FoldSize, FoldValue, Aligned, W64, AllReady, Resolved, TilesDevice, Tiles,
         ReadSizes, ProgramSizes, EraseSizes, EraseValues, SlicingBlockDevice.First, SlicingBlockDevice.Last,
         SlicingBlockDevice.Opens, ChainingBlockDevice.Valid, ChainingBlockDevice.Children;
    c := Cut(bd, cut);
    err := c.Init();
    if err == 0 {
      CutReady(c, bd, cut);
      TiledChainIsDevice(c, bd, [0, cut], [cut, |bd.contents|]);
      TiledSizes(c, bd);
      TiledUsable(c, bd);
    }
  }

  method Cut(bd: Device, cut: nat) returns (c: ChainingBlockDevice)
    requires bd.Valid() && 0 < cut <= |bd.contents| && cut < I63
    ensures fresh(c) && fresh(c.bds) && c.devices == {bd} && c.Prepared() && c.initRefCount == 0
    ensures |c.bds| == 2 && c.bds[0].bd == bd == c.bds[1].bd
    ensures c.bds[0].First() == 0 && c.bds[0].Last() == cut
    ensures c.bds[1].First() == cut && c.bds[1].Last() == |bd.contents|
    ensures c.AllOpen() <==> Aligned(cut, bd.eraseSize)
  {
    hide Aligned, W64, SlicingBlockDevice.First, SlicingBlockDevice.Last, SlicingBlockDevice.Opens;
    var first := new SlicingBlockDevice(bd, 0, cut);
    var rest := new SlicingBlockDevice(bd, cut, 0);
    c := new ChainingBlockDevice([first, rest]);
    CutBorders(bd, first, rest, cut);
  }

  lemma CutBorders(bd: Device, first: SlicingBlockDevice, rest: SlicingBlockDevice, cut: nat)
    requires bd.Valid() && first.bd == bd == rest.bd && 0 < cut <= |bd.contents|
    requires !first.startFromEnd && !first.stopFromEnd && first.start == 0 && first.stop == cut
    requires !rest.startFromEnd && rest.stopFromEnd && rest.start == cut && rest.stop == 0
    ensures first.First() == 0 && first.Last() == cut && rest.First() == cut && rest.Last() == |bd.contents|
    ensures first.Opens() && rest.Opens() <==> Aligned(cut, bd.eraseSize)
  {
    hide Aligned;
    ZeroAligned(bd.eraseSize);
  }

  lemma CutReady(c: ChainingBlockDevice, bd: Device, cut: nat)
    requires |c.bds| == 2 && c.bds[0].bd == bd == c.bds[1].bd && bd in c.devices && 0 < cut <= |bd.contents|
    requires Resolved(c.bds[0]) && c.bds[0].First() == 0 && c.bds[0].Last() == cut
    requires Resolved(c.bds[1]) && c.bds[1].First() == cut && c.bds[1].Last() == |bd.contents|
    ensures c.Children() && TilesDevice(c, bd, [0, cut], [cut, |bd.contents|])
  {
    hide Aligned, Flatten, ViewsOf;
    var n := |bd.contents|;
    assert [0, cut][1..] == [cut] && [cut, n][1..] == [n] && [cut][1..] == [] && [n][1..] == [];
    assert Tiles([], [], n, n) && Tiles([cut], [n], cut, n);
  }

  /** A chain of slices of one device is always usable. */
  lemma TiledUsable(c: ChainingBlockDevice, bd: Device)
    requires Initialized(c) && forall i :: 0 <= i < |c.bds| ==> c.bds[i].bd == bd
    ensures c.Valid()
  {
    hide Separate, Flatten, ViewsOf, FoldSize, FoldValue;
    TiledSizes(c, bd);
    forall i | 0 <= i < |c.bds| ensures Fits(c.bds[i], bd.readSize, bd.programSize, bd.eraseSize) {
      var d := c.bds[i];
      assert d.Ready();
      AlignedShift(d.start, d.stop - d.start, bd.eraseSize);
      DividesTrans(bd.programSize, bd.eraseSize, d.stop - d.start);
      DividesTrans(bd.readSize, bd.programSize, d.stop - d.start);
      SelfAligned(bd.readSize);
      SelfAligned(bd.programSize);
      SelfAligned(bd.eraseSize);
    }
  }

  /** A chain of adjacent slices reads as the device does; a request from beyond the end that wraps back reads nothing,
      and of one from inside that wraps only where the buffer stays is said. */
  method TiledRead(c: ChainingBlockDevice, bd: Device, starts: seq<nat>, stops: seq<nat>,
                   b: array<byte>, at: nat, addr: nat, size: nat) returns (err: int)
    requires c.Valid() && Initialized(c) && TilesDevice(c, bd, starts, stops)
    requires addr < U64 && size < U64 && at + size <= b.Length
    modifies b
    ensures err == 0 ==> bd.ReadOk(addr, size)
    ensures err == 0 && NoWrap(addr, size) ==>
              addr + size <= |bd.contents| && b[..] == Blit(old(b[..]), at, bd.contents, addr, size)
    ensures err == 0 && !NoWrap(addr, size) && |bd.contents| <= addr ==> b[..] == old(b[..])
    ensures SameOutside(old(b[..]), b[..], at, at + size)
    ensures bd.reliable && (NoWrap(addr, size) || |bd.contents| <= addr) ==> (err == 0 <==> bd.ReadOk(addr, size))
  {
    hide Separate, Flatten, ViewsOf, Blit, SameOutside, Aligned, W64, FoldSize, FoldValue, Tiles, AllReady;
    TiledChainIsDevice(c, bd, starts, stops);
    TiledSizes(c, bd);
    err := c.Read(b, at, addr, size);
  }

  method TiledProgram(c: ChainingBlockDevice, bd: Device, starts: seq<nat>, stops: seq<nat>,
                      b: array<byte>, at: nat, addr: nat, size: nat) returns (err: int)
    requires c.Valid() && Initialized(c) && TilesDevice(c, bd, starts, stops)
    requires addr < U64 && size < U64 && at + size <= b.Length
    modifies c.devices
    ensures c.Valid() && TilesDevice(c, bd, starts, stops) && |bd.contents| == |old(bd.contents)|
    ensures err == 0 ==> bd.ProgramOk(addr, size)
    ensures err == 0 && NoWrap(addr, size) ==>
              addr + size <= |bd.contents| && bd.contents == Blit(old(bd.contents), addr, b[..], at, size)
    ensures !NoWrap(addr, size) && |bd.contents| <= addr ==> bd.contents == old(bd.contents)
    ensures NoWrap(addr, size) ==> SameOutside(old(bd.contents), bd.contents, addr, addr + size)
    ensures bd.reliable && (NoWrap(addr, size) || |bd.contents| <= addr) ==> (err == 0 <==> bd.ProgramOk(addr, size))
  {
    hide Separate, Flatten, ViewsOf, Blit, SameOutside, Aligned, W64, FoldSize, FoldValue, Tiles;
    TiledChainIsDevice(c, bd, starts, stops);
    TiledSizes(c, bd);
    err := c.Program(b, at, addr, size);
    TiledChainIsDevice(c, bd, starts, stops);
  }

  /** It erases as the device does, except where the chain's check divides by zero. */
  method TiledErase(c: ChainingBlockDevice, bd: Device, starts: seq<nat>, stops: seq<nat>, addr: nat, size: nat)
    returns (err: int, ghost undefined: bool)
    requires c.Valid() && Initialized(c) && TilesDevice(c, bd, starts, stops) && addr < U64 && size < U64
    modifies c.devices
    ensures undefined <==>
              || |old(bd.contents)| <= addr
              || (Aligned(addr, bd.eraseSize) && |old(bd.contents)| <= W64(addr + size - 1))
    ensures !undefined ==> c.Valid() && TilesDevice(c, bd, starts, stops) && |bd.contents| == |old(bd.contents)|
    ensures !undefined && NoWrap(addr, size) ==>
              && (err == 0 ==> addr + size <= |bd.contents| && bd.EraseOk(addr, size))
              && (err == 0 && bd.eraseValue >= 0 ==> Filled(bd.contents, addr, addr + size, bd.eraseValue))
              && SameOutside(old(bd.contents), bd.contents, addr, addr + size)
              && (bd.reliable ==> (err == 0 <==> bd.EraseOk(addr, size)))
  {
    hide Separate, Flatten, ViewsOf, SameOutside, Filled, Aligned, W64, FoldSize, FoldValue, Tiles, BordersOf,
         ChainingBlockDevice.StartsOnBorder;
    TiledChainIsDevice(c, bd, starts, stops);
    TiledSizes(c, bd);
    if addr < |bd.contents| {
      TiledStart(c, bd, starts, stops, addr, size);
      if W64(addr + size - 1) < |bd.contents| && NoWrap(addr, size) {
        LastByte(addr, size, |bd.contents|);
        TiledBorders(c, bd, starts, stops, addr, size);
      }
    }
    err, undefined := c.Erase(addr, size);
    if !undefined {
      TiledChainIsDevice(c, bd, starts, stops);
    }
  }

  lemma TiledStart(c: ChainingBlockDevice, bd: Device, starts: seq<nat>, stops: seq<nat>, addr: nat, size: nat)
    requires c.Valid() && Initialized(c) && TilesDevice(c, bd, starts, stops) && addr < |bd.contents|
    ensures c.StartsOnBorder(addr) <==> Aligned(addr, bd.eraseSize)
    ensures c.EraseBorders(addr, size) ==> c.StartsOnBorder(addr)
  {
    hide Separate, Flatten, ViewsOf, FoldSize, FoldValue, Tiles, Aligned, Holds, Fits;
    TiledChainIsDevice(c, bd, starts, stops);
    assert forall k :: 0 <= k < |c.bds| ==> c.bds[k].Ready();
    var i := ChildAt(c, addr);
  }

  /** The chain's erase check, child by child, is the device's. */
  lemma TiledBorders(c: ChainingBlockDevice, bd: Device, starts: seq<nat>, stops: seq<nat>, addr: nat, size: nat)
    requires c.Valid() && Initialized(c) && TilesDevice(c, bd, starts, stops)
    requires addr < |bd.contents| && 0 < addr + size <= |bd.contents|
    ensures c.EraseBorders(addr, size) <==> bd.EraseOk(addr, size)
  {
    hide Separate, Flatten, ViewsOf, W64, FoldSize, FoldValue, Tiles, Aligned, Holds, BordersOf, Fits;
    TiledChainIsDevice(c, bd, starts, stops);
    assert forall k :: 0 <= k < |c.bds| ==> c.bds[k].Ready();
    var i := ChildAt(c, addr);
    var j := ChildAt(c, addr + size - 1);
    BordersExactly(c.Views(), c.bds, i, j, addr, size);
    assert W64(addr + size) == addr + size;
  }

  lemma ChildAt(c: ChainingBlockDevice, addr: nat) returns (i: nat)
    requires c.Children() && addr < |c.Image()|
    ensures i < |c.bds| && Holds(c.Views(), i, addr)
  {
    hide Separate, ViewsOf;
    FlattenLength(c.Views());
    i := PartAt(c.Views(), |c.bds|, addr);
  }

  lemma {:induction false} PartAt(vs: seq<seq<byte>>, n: nat, addr: nat) returns (i: nat)
    requires n <= |vs| && addr < Offset(vs, n)
    ensures i < n && Holds(vs, i, addr)
  {
    if addr >= Offset(vs, n - 1) {
      i := n - 1;
    } else {
      i := PartAt(vs, n - 1, addr);
    }
  }
}
