/** The bulk exchange of the SPI library on a full-duplex unit: words go out two ahead of those coming in. */
module Spi {
  import opened Bytes

  datatype Frame = Frame(width: nat, data: u32)

  /** The unit: a frame is being shifted and another may wait; each one that completes brings one in. `schedule` is
      how many frames complete between one look at the unit and the next, as long as someone looks. The receiver holds
      all that came in; `overrun` tells whether it ever held more than the one frame for which there is a register. */
  class SpiUnit {
    const line: nat -> u32
    var schedule: seq<nat>
    var width: nat
    var sent: seq<Frame>
    var completed: nat
    var read: nat
    ghost var overrun: bool

    ghost predicate Valid()
      reads this
    {
      read <= completed <= |sent| <= completed + 2 && width in {8, 32}
    }

    ghost predicate Idle()
      reads this
    {
      Valid() && read == |sent|
    }

    /** Nothing has been overrun, nor will be by the next look. */
    ghost predicate Timely()
      reads this
    {
      && !overrun && Spaced(schedule) && completed <= read + 1
      && (schedule != [] ==> completed + schedule[0] <= read + 1)
    }

    constructor (line: nat -> u32, schedule: seq<nat>)
      ensures Idle() && this.line == line && this.schedule == schedule && width == 8 && sent == [] && read == 0
      ensures !overrun
    {
      this.line, this.schedule := line, schedule;
      width, sent, completed, read, overrun := 8, [], 0, 0, false;
    }

    /** The transmit buffer is empty. */
    predicate Sptef()
      reads this
      requires Valid()
    {
      |sent| - completed < 2
    }

    /** Something has been received. */
    predicate Sprf()
      reads this
    {
      completed > read
    }

    /** Time until the next look. */
    method Advance() returns (alive: bool)
      requires Valid()
      modifies `completed, `schedule, `overrun
      ensures Valid() && completed >= old(completed)
      ensures alive ==> old(schedule) != [] && completed == Min(old(completed) + old(schedule)[0], |sent|)
      ensures overrun <==> old(overrun) || completed > read + 1
      ensures old(Timely()) ==> !overrun && Spaced(schedule)
      ensures old(Timely() && completed == read) ==> Timely()
      ensures if alive then |schedule| < |old(schedule)|
              else completed == old(completed) && schedule == old(schedule) == []
    {
      overrun := overrun || completed > read + 1;
      if schedule == [] {
        return false;
      }
      completed := Min(completed + schedule[0], |sent|);
      overrun := overrun || completed > read + 1;
      if Spaced(schedule) { SpacedRest(schedule); }
      schedule := schedule[1..];
      return true;
    }

    /** Writing the data register; an occupied transmit buffer would be overwritten. */
    method Send(data: u32)
      requires Valid() && Sptef() && (width == 8 ==> data < 0x100)
      modifies `sent
      ensures Valid() && sent == old(sent) + [Frame(width, data)]
    {
      sent := sent + [Frame(width, data)];
    }

    /** Reading the data register. */
    method Receive() returns (data: u32)
      requires Valid() && Sprf()
      modifies `read
      ensures Valid() && read == old(read) + 1
      ensures !overrun && Spaced(schedule) && completed == read ==> Timely()
      ensures data == if width == 8 then line(old(read)) % 0x100 else line(old(read))
    {
      data := if width == 8 then line(read) % 0x100 else line(read);
      read := read + 1;
    }

    /** Disabling the unit to change the frame width; whatever it still held would be lost. */
    method Configure(width: nat)
      requires Idle() && width in {8, 32}
      modifies `width
      ensures Idle() && this.width == width
    {
      this.width := width;
    }
  }

  /** No two frames complete within two consecutive looks. */
  predicate Spaced(schedule: seq<nat>) {
    && (forall i :: 0 <= i < |schedule| ==> schedule[i] <= 1)
    && (forall i :: 0 <= i < |schedule| - 1 ==> schedule[i] + schedule[i + 1] <= 1)
  }

  /** Witness: with two frames between two looks, the second arrives before the first is read. */
  method TwoBetweenLooks() returns (u: SpiUnit)
    ensures u.overrun && u.sent == [Frame(8, 1), Frame(8, 2)] && u.read == 0
  {
    u := new SpiUnit(k => 0, [2]);
    u.Send(1);
    u.Send(2);
    var alive := u.Advance();
  }

  lemma SpacedRest(schedule: seq<nat>)
    requires schedule != [] && Spaced(schedule)
    ensures Spaced(schedule[1..])
  {
  }

  function Words(count: nat): nat { count / 4 }

  function FrameCount(count: nat): nat { count / 4 + count % 4 }

  /** Frame `k` is the word or the byte found there. */
  function PartAt(count: nat, k: nat): (at: nat)
    requires k < FrameCount(count)
    ensures at + PartSize(count, k) <= count
  {
    if k < Words(count) then 4 * k else 3 * Words(count) + k
  }

  function PartSize(count: nat, k: nat): nat { if k < Words(count) then 4 else 1 }

  ghost function Part(s: seq<byte>, count: nat, k: nat): (p: seq<byte>)
    requires count <= |s| && k < FrameCount(count)
    ensures |p| == PartSize(count, k)
  {
    s[PartAt(count, k)..PartAt(count, k) + PartSize(count, k)]
  }

  ghost function FrameOf(p: seq<byte>): Frame
    requires |p| == 4 || |p| == 1
  {
    if |p| == 4 then Frame(32, FromLe32(p)) else Frame(8, p[0])
  }

  /** The frames that the first `count` bytes make: whole words, then the remaining bytes. */
  ghost function Frames(s: seq<byte>, count: nat): (f: seq<Frame>)
    requires count <= |s|
    ensures |f| == FrameCount(count)
  {
    seq(FrameCount(count), k requires 0 <= k < FrameCount(count) => FrameOf(Part(s, count, k)))
  }

  /** The bytes that frame `k` of an exchange brings in, when the line has carried `base` frames before. */
  ghost function Incoming(line: nat -> u32, base: nat, count: nat, k: nat): (p: seq<byte>)
    ensures |p| == PartSize(count, k)
  {
    if k < Words(count) then ToLe32(line(base + k)) else [line(base + k) % 0x100]
  }

  /** `t` is `s` with what the first `rx` frames brought in stored over what the same frames took out. */
  ghost predicate Stored(s: seq<byte>, t: seq<byte>, count: nat, line: nat -> u32, base: nat, rx: nat) {
    && count <= |s| == |t| && rx <= FrameCount(count)
    && (forall k :: 0 <= k < FrameCount(count) ==>
          Part(t, count, k) == if k < rx then Incoming(line, base, count, k) else Part(s, count, k))
    && forall i :: count <= i < |s| ==> t[i] == s[i]
  }

  lemma StoreMore(s: seq<byte>, t: seq<byte>, u: seq<byte>, count: nat, line: nat -> u32, base: nat, rx: nat)
    requires Stored(s, t, count, line, base, rx) && rx < FrameCount(count)
    requires u == Blit(t, PartAt(count, rx), Incoming(line, base, count, rx), 0, PartSize(count, rx))
    ensures Stored(s, u, count, line, base, rx + 1)
  {
    hide Incoming, PartAt;
    var at, n := PartAt(count, rx), PartSize(count, rx);
    forall k | 0 <= k < FrameCount(count)
      ensures Part(u, count, k) == if k == rx then Incoming(line, base, count, k) else Part(t, count, k)
    {
      PartsApart(count, k, rx);
      BlitSlice(t, u, at, Incoming(line, base, count, rx), n, PartAt(count, k), PartSize(count, k));
    }
  }

  lemma PartsApart(count: nat, k: nat, j: nat)
    requires k < FrameCount(count) && j < FrameCount(count)
    ensures k < j ==> PartAt(count, k) + PartSize(count, k) <= PartAt(count, j)
    ensures j < k ==> PartAt(count, j) + PartSize(count, j) <= PartAt(count, k)
  {
  }

  /** A slice beside the bytes replaced is as before, and the slice replaced is what was put there. */
  lemma BlitSlice(t: seq<byte>, u: seq<byte>, at: nat, p: seq<byte>, n: nat, lo: nat, m: nat)
    requires at + n <= |t| && n == |p| && u == Blit(t, at, p, 0, n) && lo + m <= |t|
    ensures lo + m <= at || at + n <= lo ==> u[lo..lo + m] == t[lo..lo + m]
    ensures lo == at && m == n ==> u[lo..lo + m] == p
  {
  }

  /** Frames that go out later than the first `rx` still find their own bytes in the buffer. */
  lemma StillThere(s: seq<byte>, t: seq<byte>, count: nat, line: nat -> u32, base: nat, rx: nat, k: nat)
    requires Stored(s, t, count, line, base, rx) && rx <= k < FrameCount(count)
    ensures Part(t, count, k) == Part(s, count, k)
  {
  }

  method LoadWord(buf: array<byte>, k: nat) returns (w: u32)
    requires 4 * k + 4 <= buf.Length
    ensures w == FromLe32(buf[4 * k..4 * k + 4])
  {
    w := FromLe32(buf[4 * k..4 * k + 4]);
  }

  method StoreWord(buf: array<byte>, k: nat, w: u32)
    requires 4 * k + 4 <= buf.Length
    modifies buf
    ensures buf[..] == Blit(old(buf[..]), 4 * k, ToLe32(w), 0, 4)
  {
    hide ToLe32;
    var b := ToLe32(w);
    buf[4 * k], buf[4 * k + 1], buf[4 * k + 2], buf[4 * k + 3] := b[0], b[1], b[2], b[3];
  }

  /** An exchange under way: `tx` frames have gone out, `rx` have been taken in and stored. */
  ghost predicate Exchanging(u: SpiUnit, before: seq<Frame>, s: seq<byte>, t: seq<byte>, count: nat, tx: nat, rx: nat)
    reads u
  {
    && u.Valid() && count <= |s| && rx <= tx <= FrameCount(count) && tx <= rx + 2
    && u.read == |before| + rx && u.sent == before + Frames(s, count)[..tx]
    && Stored(s, t, count, u.line, |before|, rx)
  }

  /** The next word goes out of the buffer: it has not been overwritten yet. */
  method SendWord(u: SpiUnit, buf: array<byte>, count: nat, tx: nat, ghost before: seq<Frame>, ghost s: seq<byte>,
                  ghost rx: nat)
    requires u.Valid() && u.Sptef() && u.width == 32 && count <= buf.Length && count <= |s|
    requires rx <= tx < Words(count) && u.sent == before + Frames(s, count)[..tx]
    requires Stored(s, buf[..], count, u.line, |before|, rx)
    modifies u`sent
    ensures u.Valid() && u.sent == before + Frames(s, count)[..tx + 1]
  {
    StillThere(s, buf[..], count, u.line, |before|, rx, tx);
    var w := LoadWord(buf, tx);
    assert buf[4 * tx..4 * tx + 4] == Part(buf[..], count, tx);
    u.Send(w);
    FramesMore(before, s, count, tx);
    assert Frames(s, count)[tx] == Frame(32, w);
  }

  lemma FramesMore(before: seq<Frame>, s: seq<byte>, count: nat, k: nat)
    requires count <= |s| && k < FrameCount(count)
    ensures before + Frames(s, count)[..k + 1] == (before + Frames(s, count)[..k]) + [FrameOf(Part(s, count, k))]
  {
  }

  method StoreReceived(u: SpiUnit, buf: array<byte>, count: nat, data: u32, ghost before: seq<Frame>,
                       ghost s: seq<byte>, rx: nat)
    requires Stored(s, buf[..], count, u.line, |before|, rx) && rx < Words(count) && count <= buf.Length
    requires data == u.line(|before| + rx)
    modifies buf
    ensures Stored(s, buf[..], count, u.line, |before|, rx + 1)
  {
    hide ToLe32, FromLe32, Stored;
    ghost var t := buf[..];
    StoreWord(buf, rx, data);
    StoreMore(s, t, buf[..], count, u.line, |before|, rx);
  }

  /** Two words ahead, as far as there are that many. */
  method FillPipe(u: SpiUnit, buf: array<byte>, count: nat, ghost before: seq<Frame>) returns (done: bool, tx: nat)
    requires Exchanging(u, before, buf[..], buf[..], count, 0, 0) && u.width == 32
    modifies u`sent, u`completed, u`schedule, u`overrun
    ensures Exchanging(u, before, buf[..], buf[..], count, tx, 0) && tx <= Words(count)
    ensures done ==> tx == Min(2, Words(count))
    ensures old(u.Timely() && u.Idle()) ==> u.Timely()
  {
    hide Stored, Frames;
    tx := 0;
    while tx < 2 && tx < Words(count)
      invariant Exchanging(u, before, buf[..], buf[..], count, tx, 0) && tx <= Min(2, Words(count))
      invariant old(u.Timely() && u.Idle()) ==> u.Timely() && (tx < 2 ==> u.completed == u.read)
      decreases |u.schedule|
    {
      var alive := u.Advance();
      if !alive {
        return false, tx;
      }
      if u.Sptef() {
        SendWord(u, buf, count, tx, before, buf[..], 0);
        tx := tx + 1;
      }
    }
    done := true;
  }

  /** One word in, the next one out: a word has been received, so the transmit buffer is empty. */
  method Pump(u: SpiUnit, buf: array<byte>, count: nat, tx0: nat, ghost before: seq<Frame>, ghost s: seq<byte>)
    returns (done: bool, tx: nat, rx: nat)
    requires Exchanging(u, before, s, buf[..], count, tx0, 0) && u.width == 32 && tx0 == Min(2, Words(count))
    requires count <= buf.Length
    modifies u`sent, u`completed, u`schedule, u`overrun, u`read, buf
    ensures Exchanging(u, before, s, buf[..], count, tx, rx) && tx <= Words(count)
    ensures done ==> tx == Words(count)
    ensures old(u.Timely()) ==> u.Timely()
  {
    hide Stored, Frames;
    tx, rx := tx0, 0;
    while tx < Words(count)
      invariant Exchanging(u, before, s, buf[..], count, tx, rx) && tx <= Words(count)
      invariant tx == rx + tx0 && (old(u.Timely()) ==> u.Timely())
      decreases |u.schedule|
    {
      var alive := u.Advance();
      if !alive {
        return false, tx, rx;
      }
      if u.Sprf() {
        var tmp := u.Receive();
        SendWord(u, buf, count, tx, before, s, rx);
        StoreReceived(u, buf, count, tmp, before, s, rx);
        rx := rx + 1;
        tx := tx + 1;
      }
    }
    done := true;
  }

  /** Take in the last words. */
  method Drain(u: SpiUnit, buf: array<byte>, count: nat, rx0: nat, ghost before: seq<Frame>, ghost s: seq<byte>)
    returns (done: bool, rx: nat)
    requires Exchanging(u, before, s, buf[..], count, Words(count), rx0) && u.width == 32 && count <= buf.Length
    modifies u`completed, u`schedule, u`overrun, u`read, buf
    ensures Exchanging(u, before, s, buf[..], count, Words(count), rx)
    ensures done ==> rx == Words(count)
    ensures old(u.Timely()) ==> u.Timely()
  {
    hide Stored, Frames;
    rx := rx0;
    while rx < Words(count)
      invariant Exchanging(u, before, s, buf[..], count, Words(count), rx) && (old(u.Timely()) ==> u.Timely())
      decreases |u.schedule|
    {
      var alive := u.Advance();
      if !alive {
        return false, rx;
      }
      if u.Sprf() {
        var tmp := u.Receive();
        StoreReceived(u, buf, count, tmp, before, s, rx);
        rx := rx + 1;
      }
    }
    done := true;
  }

  /** The remaining bytes, one at a time. */
  method Tail(u: SpiUnit, buf: array<byte>, count: nat, ghost before: seq<Frame>, ghost s: seq<byte>)
    returns (done: bool, ghost tx: nat, ghost rx: nat)
    requires Exchanging(u, before, s, buf[..], count, Words(count), Words(count)) && u.width == 8 && count <= buf.Length
    modifies u`sent, u`completed, u`schedule, u`overrun, u`read, buf
    ensures Exchanging(u, before, s, buf[..], count, tx, rx)
    ensures done ==> rx == FrameCount(count)
    ensures old(u.Timely()) ==> u.Timely()
  {
    hide Stored, Frames;
    var index, at := 0, 4 * Words(count);
    tx, rx := Words(count), Words(count);
    while index < count % 4
      invariant 0 <= index <= count % 4 && rx == tx == Words(count) + index
      invariant Exchanging(u, before, s, buf[..], count, tx, rx) && u.width == 8 && (old(u.Timely()) ==> u.Timely())
    {
      StillThere(s, buf[..], count, u.line, |before|, rx, tx);
      FramesMore(before, s, count, tx);
      assert [buf[at + index]] == Part(buf[..], count, tx);
      u.Send(buf[at + index]);
      tx := tx + 1;
      while !u.Sprf()
        invariant Exchanging(u, before, s, buf[..], count, tx, rx) && (old(u.Timely()) ==> u.Timely())
        decreases |u.schedule|
      {
        var alive := u.Advance();
        if !alive {
          return false, tx, rx;
        }
      }
      var data := u.Receive();
      ghost var t := buf[..];
      buf[at + index] := data;
      StoreMore(s, t, buf[..], count, u.line, |before|, rx);
      rx := rx + 1;
      index := index + 1;
    }
    done := true;
  }

  /** The exchange. When it comes to its end, exactly the original bytes went out, in order, and exactly what the line
      brought meanwhile is in the buffer, in order; and however far it gets, what has been replaced had gone out. */
  method Transfer(u: SpiUnit, buf: array?<byte>, count: nat) returns (done: bool, ghost tx: nat, ghost rx: nat)
    requires u.Idle() && u.width == 8 && (buf != null ==> count <= buf.Length)
    modifies u, if buf == null then {} else {buf}
    ensures u.Valid()
    ensures buf == null ==> done && u.sent == old(u.sent) && u.read == old(u.read)
    ensures buf != null ==> Exchanging(u, old(u.sent), old(buf[..]), buf[..], count, tx, rx)
    ensures buf != null && done ==> rx == FrameCount(count) && u.Idle() && u.width == 8
    ensures !old(u.overrun) && Spaced(old(u.schedule)) ==> !u.overrun
  {
    hide Stored, Frames;
    tx, rx := 0, 0;
    if buf == null {
      return true, 0, 0;
    }
    ghost var before, s := u.sent, buf[..];
    StoredNone(s, count, u.line, |before|);
    if Words(count) != 0 {
      u.Configure(32);
      var sent;
      done, sent := FillPipe(u, buf, count, before);
      tx := sent;
      if !done {
        return;
      }
      var received;
      done, sent, received := Pump(u, buf, count, sent, before, s);
      tx, rx := sent, received;
      if !done {
        return;
      }
      done, received := Drain(u, buf, count, received, before, s);
      rx := received;
      if !done {
        return;
      }
      u.Configure(8);
    }
    done, tx, rx := Tail(u, buf, count, before, s);
  }

  lemma StoredNone(s: seq<byte>, count: nat, line: nat -> u32, base: nat)
    requires count <= |s|
    ensures Stored(s, s, count, line, base, 0)
  {
  }

  /** What a finished exchange leaves, for any buffer: its words went out, in order, the bytes of each with the least
      significant first, and then its remaining bytes; and the buffer holds what came in, each frame where the one it
      was exchanged for had been. */
  lemma FinishedExchange(u: SpiUnit, before: seq<Frame>, s: seq<byte>, t: seq<byte>, count: nat)
    requires Exchanging(u, before, s, t, count, FrameCount(count), FrameCount(count))
    ensures |u.sent| == |before| + count / 4 + count % 4 == u.read && before <= u.sent
    ensures forall k :: 0 <= k < count / 4 ==>
              var f := u.sent[|before| + k];
              f.width == 32 && ToLe32(f.data) == s[4 * k..4 * k + 4]
    ensures forall i :: 4 * (count / 4) <= i < count ==> u.sent[|before| + (i - 3 * (count / 4))] == Frame(8, s[i])
    ensures forall k :: 0 <= k < count / 4 ==> t[4 * k..4 * k + 4] == ToLe32(u.line(|before| + k))
    ensures forall i :: 4 * (count / 4) <= i < count ==> t[i] == u.line(|before| + (i - 3 * (count / 4))) % 0x100
    ensures forall i :: count <= i < |s| ==> t[i] == s[i]
  {
    hide ToLe32, FromLe32;
    var f := Frames(s, count);
    assert f[..FrameCount(count)] == f;
    forall k | 0 <= k < count / 4
      ensures f[k].width == 32 && ToLe32(f[k].data) == s[4 * k..4 * k + 4]
      ensures t[4 * k..4 * k + 4] == ToLe32(u.line(|before| + k))
    {
      assert Part(s, count, k) == s[4 * k..4 * k + 4] && Part(t, count, k) == t[4 * k..4 * k + 4];
      LeRoundTripBytes(s[4 * k..4 * k + 4]);
    }
    forall i | 4 * (count / 4) <= i < count
      ensures f[i - 3 * (count / 4)] == Frame(8, s[i])
      ensures t[i] == u.line(|before| + (i - 3 * (count / 4))) % 0x100
    {
      assert Part(s, count, i - 3 * (count / 4)) == [s[i]] && Part(t, count, i - 3 * (count / 4)) == [t[i]];
    }
  }
}
