/** `_write` and `_read` on a descriptor with newline translation. */
module StorageRetarget {
  import opened Bytes
  import opened Concatenation
  import opened Newlines

  const SSIZE_MAX: nat := 0x7FFF_FFFF

  /** What is behind a descriptor. A reliable one takes all that fits in `room` and delivers `input` to its end;
      any other may at any time accept or deliver less than asked for, or fail. */
  class FileHandle {
    const reliable: bool
    var wire: seq<byte>
    var room: nat
    var input: seq<byte>

    constructor (reliable: bool, room: nat, input: seq<byte>)
      ensures this.reliable == reliable && wire == [] && this.room == room && this.input == input
    {
      this.reliable := reliable;
      wire, this.room, this.input := [], room, input;
    }

    method Write(buf: seq<byte>) returns (r: int)
      modifies `wire, `room
      ensures r == -1 || 0 <= r <= |buf|
      ensures wire == old(wire) + buf[..Max(r, 0)]
      ensures reliable ==> r == Min(|buf|, old(room)) && room == old(room) - r
    {
      if reliable {
        r := Min(|buf|, room);
        room := room - r;
      } else {
        r :| -1 <= r <= |buf|;
      }
      wire := wire + buf[..Max(r, 0)];
    }

    method Read(n: nat) returns (r: int, data: seq<byte>)
      modifies `input
      ensures r == -1 || 0 <= r <= n
      ensures |data| == Max(r, 0) && old(input) == data + input
      ensures reliable ==> r == Min(n, |old(input)|)
    {
      if reliable {
        r := Min(n, |input|);
      } else {
        r :| -1 <= r <= n && r <= |input|;
      }
      data, input := input[..Max(r, 0)], input[Max(r, 0)..];
    }

    /** The reading side of a loop: what was written is what arrives. */
    method Turn()
      modifies `input
      ensures input == wire
    {
      input := wire;
    }
  }

  ghost function Sent(before: seq<byte>, after: seq<byte>): seq<byte> {
    if before <= after then after[|before|..] else []
  }

  /** Where `_write` may stop, and with which byte saved. */
  ghost predicate Stopped(p: byte, s: seq<byte>, sent: seq<byte>, n: int, pending: bool, saved: byte) {
    0 <= n && StopsAt(p, s, n, pending) && sent == OnWire(p, s, n, pending) && saved == Saved(p, s, n, pending)
  }

  /** What a failed `_write` leaves: it too stopped somewhere in the scan, and the saved byte is the last one sent. */
  ghost predicate Failed(p: byte, s: seq<byte>, sent: seq<byte>, saved: byte) {
    saved == Last(p, sent) && exists n: nat, pending :: StopsAt(p, s, n, pending) && sent == OnWire(p, s, n, pending)
  }

  /** So after an error, unlike after a short count, writing the rest of the text always completes the expansion. */
  lemma FailedResumes(p: byte, s: seq<byte>, sent: seq<byte>, saved: byte) returns (n: nat)
    requires Failed(p, s, sent, saved)
    ensures n <= |s| && sent <= Expand(p, s) && sent + Expand(saved, s[n..]) == Expand(p, s)
  {
    hide Expand, OnWire;
    var k: nat, pending :| StopsAt(p, s, k, pending) && sent == OnWire(p, s, k, pending);
    OnWireLast(p, s, k, pending);
    n := k;
  }

  /** The loop of `_write` so far: `written` bytes and perhaps a carriage return are out, and nothing between there
      and `cur` needs one. */
  ghost predicate Scanned(p: byte, s: seq<byte>, sent: seq<byte>, written: int, cur: int, pending: bool, saved: byte) {
    && 0 <= written <= cur <= |s|
    && StopsAt(p, s, written, pending)
    && sent == OnWire(p, s, written, pending)
    && (pending ==> saved == CR && written < cur)
    && (!pending ==> written == 0 && saved == p)
    && forall k :: written <= k < cur && Bare(p, s, k) ==> pending && k == written
  }

  lemma BareExactly(p: byte, s: seq<byte>, k: nat)
    requires k < |s|
    ensures Bare(p, s, k) <==> s[k] == LF && Last(p, s[..k]) != CR
    ensures Last(p, s[..k + 1]) == s[k]
  {
  }

  lemma ScanFails(p: byte, s: seq<byte>, sent: seq<byte>, written: int, cur: int, pending: bool, saved: byte)
    requires Scanned(p, s, sent, written, cur, pending, saved)
    ensures Failed(p, s, sent, saved)
  {
    hide Expand, Bare;
    OnWireLast(p, s, written, pending);
    EmptyText(p);
    assert s[..0] == [];
  }

  /** A part of the text sent without translation continues the expansion. */
  lemma SegmentSent(p: byte, s: seq<byte>, sent: seq<byte>, written: nat, cur: nat, pending: bool, saved: byte, m: nat)
    requires Scanned(p, s, sent, written, cur, pending, saved) && written < m <= cur
    ensures sent + s[written..m] == OnWire(p, s, m, false)
  {
    hide Expand, Bare;
    if pending {
      BareExactly(p, s, written);
      ExpandStep(p, s, written);
      ExpandPlain(p, s, written + 1, m);
      var e, t := Expand(p, s[..written]), s[written + 1..m];
      assert s[written..m] == [LF] + t;
      assert (e + [CR]) + ([LF] + t) == (e + [CR, LF]) + t;
    } else {
      ExpandPlain(p, s, 0, m);
      assert s[..0] == [];
      EmptyText(p);
    }
  }

  /** Before a bare line feed at `cur`, a flush falls short at `n`. */
  lemma FlushShort(p: byte, s: seq<byte>, sent: seq<byte>, written: nat, cur: nat, pending: bool, saved: byte, n: nat)
    requires Scanned(p, s, sent, written, cur, pending, saved) && Bare(p, s, cur) && written <= n < cur
    ensures Stopped(p, s, sent + s[written..n], n, pending && n == written, saved)
  {
    hide Expand;
    if n > written {
      SegmentSent(p, s, sent, written, cur, pending, saved, n);
    } else {
      assert sent + s[written..n] == sent;
    }
    assert MoreBare(p, s, n, pending && n == written);
  }

  /** A flush gets all the way to the bare line feed at `cur`: its carriage return may be refused, or follow. */
  lemma FlushDone(p: byte, s: seq<byte>, sent: seq<byte>, written: nat, cur: nat, pending: bool, saved: byte)
    requires Scanned(p, s, sent, written, cur, pending, saved) && Bare(p, s, cur)
    ensures Stopped(p, s, sent + s[written..cur], cur, false, if cur > written then Last(p, s[..cur]) else saved)
    ensures Failed(p, s, sent + s[written..cur], if cur > written then Last(p, s[..cur]) else saved)
    ensures Scanned(p, s, sent + s[written..cur] + [CR], cur, cur + 1, true, CR)
  {
    hide Expand;
    if cur > written {
      SegmentSent(p, s, sent, written, cur, pending, saved, cur);
      OnWireLast(p, s, cur, false);
    } else {
      assert sent + s[written..cur] == sent;
      ScanFails(p, s, sent, written, cur, pending, saved);
    }
  }

  /** The last write accepts the text up to `n`. */
  lemma FinishStops(p: byte, s: seq<byte>, sent: seq<byte>, written: nat, pending: bool, saved: byte, n: nat)
    requires Scanned(p, s, sent, written, |s|, pending, saved) && written <= n <= |s|
    ensures Stopped(p, s, sent + s[written..n], n, pending && n == written, if n > 0 then s[n - 1] else saved)
  {
    hide Expand;
    if n > written {
      SegmentSent(p, s, sent, written, |s|, pending, saved, n);
    } else {
      assert sent + s[written..n] == sent;
    }
    assert !MoreBare(p, s, n, pending && n == written);
  }

  lemma StoppedPrefix(p: byte, s: seq<byte>, sent: seq<byte>, n: int, pending: bool, saved: byte)
    requires Stopped(p, s, sent, n, pending, saved)
    ensures sent <= Expand(p, s) && 0 <= n <= |s| && (n == |s| ==> sent == Expand(p, s) && saved == Last(p, s))
  {
    OnWirePrefix(p, s, n, pending);
    if n == |s| {
      assert s[..n] == s;
      assert OnWire(p, s, n, pending) == Expand(p, s);
    }
  }

  /** The wire after a stop, in full. */
  lemma WireAtStop(w0: seq<byte>, w: seq<byte>, p: byte, s: seq<byte>, n: int, pending: bool, saved: byte)
    requires w0 <= w && Stopped(p, s, Sent(w0, w), n, pending, saved)
    ensures Sent(w0, w) <= Expand(p, s) && 0 <= n <= |s|
    ensures n == |s| ==> w == w0 + Expand(p, s) && saved == Last(p, s)
    ensures var e := w0 + Expand(p, s[..n]); w == e || w == e + [13]
  {
    hide Expand;
    StoppedPrefix(p, s, Sent(w0, w), n, pending, saved);
    var e := Expand(p, s[..n]);
    assert w == w0 + Sent(w0, w);
    if pending {
      assert (w0 + e) + [13] == w0 + (e + [CR]);
    } else {
      assert e + [] == e;
    }
  }

  /** The scan passes a byte that needs no carriage return. */
  lemma ScanPasses(p: byte, s: seq<byte>, sent: seq<byte>, written: int, cur: int, pending: bool, saved: byte)
    requires Scanned(p, s, sent, written, cur, pending, saved) && cur < |s| && !Bare(p, s, cur)
    ensures Scanned(p, s, sent, written, cur + 1, pending, saved)
  {
  }

  lemma ScanStarts(p: byte, s: seq<byte>)
    ensures Scanned(p, s, [], 0, 0, false, p)
    ensures s == [] ==> Stopped(p, s, [], 0, false, p)
  {
    assert s[..0] == [];
  }

  lemma ScanEnds(p: byte, s: seq<byte>, sent: seq<byte>, pending: bool, saved: byte)
    requires Scanned(p, s, sent, |s|, |s|, pending, saved)
    ensures Stopped(p, s, sent, |s|, pending, saved)
  {
  }

  lemma SentNone(w: seq<byte>)
    ensures Sent(w, w) == []
  {
  }

  lemma SentMore(w0: seq<byte>, w1: seq<byte>, w2: seq<byte>, d: seq<byte>)
    requires w0 <= w1 && w2 == w1 + d
    ensures w0 <= w2 && Sent(w0, w2) == Sent(w0, w1) + d
  {
  }

  /** One open descriptor: its handle, whether newlines are translated on it, and the last byte that went each way. */
  class Descriptor {
    const fh: FileHandle
    const convertCrlf: bool
    var inPrev: byte
    var outPrev: byte

    constructor (fh: FileHandle, convertCrlf: bool)
      ensures this.fh == fh && this.convertCrlf == convertCrlf && inPrev == 0 && outPrev == 0
    {
      this.fh, this.convertCrlf := fh, convertCrlf;
      inPrev, outPrev := 0, 0;
    }

    /** A bare line feed at `cur`: send what precedes it, and the carriage return it needs. */
    method Insert(buffer: seq<byte>, cur: nat, prev: byte, written: nat, ghost p: byte, ghost w0: seq<byte>,
                  ghost pending: bool)
      returns (stopped: bool, n: int, ghost pending': bool)
      requires cur < |buffer| && Bare(p, buffer, cur) && prev == Last(p, buffer[..cur])
      requires w0 <= fh.wire && written <= cur
      requires Scanned(p, buffer, Sent(w0, fh.wire), written, cur, pending, outPrev)
      modifies this`outPrev, fh`wire, fh`room
      ensures w0 <= fh.wire
      ensures !stopped ==> n == cur && pending' && Scanned(p, buffer, Sent(w0, fh.wire), n, cur + 1, pending', outPrev)
      ensures stopped && n != -1 ==> Stopped(p, buffer, Sent(w0, fh.wire), n, pending', outPrev)
      ensures stopped && n == -1 ==> Failed(p, buffer, Sent(w0, fh.wire), outPrev)
      ensures -1 <= n <= |buffer|
      ensures fh.reliable ==>
                |fh.wire| - |old(fh.wire)| == old(fh.room) - fh.room && (stopped ==> n >= 0 && fh.room == 0)
    {
      hide Expand, Bare, Sent, Scanned, Stopped, Last, Failed;
      ghost var w1, sent := fh.wire, Sent(w0, fh.wire);
      n, stopped, pending' := written, true, pending;
      FlushDone(p, buffer, sent, written, cur, pending, outPrev);
      ScanFails(p, buffer, sent, written, cur, pending, outPrev);
      if cur > n {
        var r := fh.Write(buffer[n..cur]);
        ghost var m: nat := written + Max(r, 0);
        assert buffer[written..cur][..m - written] == buffer[written..m];
        SentMore(w0, w1, fh.wire, buffer[written..m]);
        if m < cur {
          FlushShort(p, buffer, sent, written, cur, pending, outPrev, m);
          StoppedPrefix(p, buffer, sent + buffer[written..m], m, pending && m == written, outPrev);
        }
        if r < 0 {
          assert sent + buffer[written..written] == sent;
          return true, -1, pending;
        }
        n := n + r;
        if n < cur {
          pending' := pending && n == written;
          return;
        }
        outPrev := prev;
      } else {
        assert sent == sent + buffer[written..cur];
      }
      ghost var w2, sent2 := fh.wire, sent + buffer[written..cur];
      assert Sent(w0, w2) == sent2;
      StoppedPrefix(p, buffer, sent2, cur, false, outPrev);
      var r := fh.Write([CR]);
      SentMore(w0, w2, fh.wire, [CR][..Max(r, 0)]);
      assert r <= 0 ==> sent2 + [CR][..Max(r, 0)] == sent2;
      if r < 0 {
        return true, -1, false;
      }
      if r < 1 {
        pending' := false;
        return;
      }
      assert [CR][..1] == [CR];
      outPrev := CR;
      stopped, pending' := false, true;
    }

    /** The last part of the text, or all of it when there is no translation. */
    method Finish(buffer: seq<byte>, written: nat, ghost p: byte, ghost w0: seq<byte>, ghost pending: bool)
      returns (n: int, ghost pending': bool)
      requires written < |buffer| && w0 <= fh.wire
      requires convertCrlf ==> Scanned(p, buffer, Sent(w0, fh.wire), written, |buffer|, pending, outPrev)
      requires !convertCrlf ==> written == 0 && fh.wire == w0 && outPrev == p
      modifies this`outPrev, fh`wire, fh`room
      ensures w0 <= fh.wire && -1 <= n <= |buffer|
      ensures convertCrlf && n == -1 ==> Failed(p, buffer, Sent(w0, fh.wire), outPrev)
      ensures convertCrlf && n >= 0 ==> Stopped(p, buffer, Sent(w0, fh.wire), n, pending', outPrev)
      ensures !convertCrlf ==> Sent(w0, fh.wire) == buffer[..Max(n, 0)] && outPrev == Last(p, buffer[..Max(n, 0)])
      ensures fh.reliable ==>
                n >= 0 && |fh.wire| - |old(fh.wire)| == old(fh.room) - fh.room && (fh.room > 0 ==> n == |buffer|)
    {
      hide Expand, Scanned, Stopped, Failed, Sent;
      ghost var w1, sent := fh.wire, Sent(w0, fh.wire);
      var r := fh.Write(buffer[written..]);
      ghost var m: nat := written + Max(r, 0);
      assert buffer[written..][..m - written] == buffer[written..m];
      SentMore(w0, w1, fh.wire, buffer[written..m]);
      pending' := pending && m == written;
      if convertCrlf {
        ScanFails(p, buffer, sent, written, |buffer|, pending, outPrev);
        FinishStops(p, buffer, sent, written, pending, outPrev, m);
        StoppedPrefix(p, buffer, sent + buffer[written..m], m, pending', if m > 0 then buffer[m - 1] else outPrev);
      } else {
        SentNone(w0);
        assert sent + buffer[written..m] == buffer[..m];
      }
      if r < 0 {
        assert sent + buffer[written..written] == sent;
        return -1, pending;
      }
      n := written + r;
      if n > 0 {
        outPrev := buffer[n - 1];
      }
    }

    method Write(buffer: seq<byte>) returns (written: int)
      modifies this`outPrev, fh`wire, fh`room
      ensures |buffer| > SSIZE_MAX ==> written == -1 && outPrev == old(outPrev) && fh.wire == old(fh.wire)
      ensures old(fh.wire) <= fh.wire
      ensures convertCrlf ==> Sent(old(fh.wire), fh.wire) <= Expand(old(outPrev), buffer)
      ensures convertCrlf && written == -1 ==> Failed(old(outPrev), buffer, Sent(old(fh.wire), fh.wire), outPrev)
      ensures convertCrlf && written >= 0 ==> exists pending ::
                Stopped(old(outPrev), buffer, Sent(old(fh.wire), fh.wire), written, pending, outPrev)
      ensures convertCrlf && written == |buffer| ==>
                fh.wire == old(fh.wire) + Expand(old(outPrev), buffer) && outPrev == Last(old(outPrev), buffer)
      ensures convertCrlf && written >= 0 ==>
                var e := old(fh.wire) + Expand(old(outPrev), buffer[..written]); fh.wire == e || fh.wire == e + [13]
      ensures -1 <= written <= |buffer|
      ensures !convertCrlf ==> fh.wire == old(fh.wire) + buffer[..Max(written, 0)]
      ensures !convertCrlf ==> Sent(old(fh.wire), fh.wire) == buffer[..Max(written, 0)]
      ensures !convertCrlf ==> outPrev == Last(old(outPrev), buffer[..Max(written, 0)])
      ensures fh.reliable && |buffer| <= SSIZE_MAX ==>
                && written >= 0 && |fh.wire| - |old(fh.wire)| == old(fh.room) - fh.room
                && (fh.room > 0 ==> written == |buffer|)
    {
      hide Expand, Scanned, Stopped, Bare, Failed;
      var slength := |buffer|;
      ghost var p, w0, room0, pending := outPrev, fh.wire, fh.room, false;
      ScanStarts(p, buffer);
      ScanFails(p, buffer, [], 0, 0, false, p);
      SentNone(w0);
      if slength > SSIZE_MAX {
        return -1;
      }
      written := 0;
      if convertCrlf {
        var prev, cur := outPrev, 0;
        while cur < slength
          invariant 0 <= written <= cur <= slength && prev == Last(p, buffer[..cur])
          invariant w0 <= fh.wire && Scanned(p, buffer, Sent(w0, fh.wire), written, cur, pending, outPrev)
          invariant fh.reliable ==> |fh.wire| - |w0| == room0 - fh.room
        {
          BareExactly(p, buffer, cur);
          if buffer[cur] == LF && prev != CR {
            var stopped;
            stopped, written, pending := Insert(buffer, cur, prev, written, p, w0, pending);
            if stopped {
              if written >= 0 {
                WireAtStop(w0, fh.wire, p, buffer, written, pending, outPrev);
              } else {
                ghost var n := FailedResumes(p, buffer, Sent(w0, fh.wire), outPrev);
              }
              return;
            }
          } else {
            ScanPasses(p, buffer, Sent(w0, fh.wire), written, cur, pending, outPrev);
          }
          prev := buffer[cur];
          cur := cur + 1;
        }
      }
      if written < slength {
        written, pending := Finish(buffer, written, p, w0, pending);
      } else if convertCrlf {
        ScanEnds(p, buffer, Sent(w0, fh.wire), pending, outPrev);
      }
      if convertCrlf && written >= 0 {
        WireAtStop(w0, fh.wire, p, buffer, written, pending, outPrev);
      } else if convertCrlf {
        ghost var n := FailedResumes(p, buffer, Sent(w0, fh.wire), outPrev);
      }
    }

    method Read(length: nat) returns (n: int, data: seq<byte>)
      modifies this`inPrev, fh`input
      ensures length > SSIZE_MAX ==> n == -1 && data == [] && fh.input == old(fh.input) && inPrev == old(inPrev)
      ensures |data| == Max(n, 0) && n >= -1
      ensures convertCrlf ==> n <= 1 && Collapse(old(inPrev), old(fh.input)) == data + Collapse(inPrev, fh.input)
      ensures convertCrlf ==> |fh.input| + n <= |old(fh.input)|
      ensures convertCrlf && fh.reliable && length <= SSIZE_MAX ==> n >= 0 && (n == 0 ==> fh.input == [])
      ensures !convertCrlf && length <= SSIZE_MAX ==>
                n <= length && old(fh.input) == data + fh.input && inPrev == old(inPrev)
    {
      hide Collapse;
      data := [];
      if length > SSIZE_MAX {
        return -1, [];
      }
      if convertCrlf {
        while true
          invariant data == [] && Collapse(old(inPrev), old(fh.input)) == Collapse(inPrev, fh.input)
          invariant |fh.input| <= |old(fh.input)|
          decreases |fh.input|
        {
          ghost var p, before := inPrev, fh.input;
          var r, c := fh.Read(1);
          if r < 0 {
            assert c + fh.input == fh.input;
            return -1, [];
          }
          if r == 0 {
            assert c + fh.input == fh.input;
            return 0, [];
          }
          CollapseFirst(p, before, c[0], fh.input);
          if (c[0] == CR && inPrev != LF) || (c[0] == LF && inPrev != CR) {
            inPrev := c[0];
            data := [LF];
            break;
          } else if (c[0] == CR && inPrev == LF) || (c[0] == LF && inPrev == CR) {
            inPrev := c[0];
          } else {
            inPrev := c[0];
            data := c;
            break;
          }
        }
        n := 1;
      } else {
        n, data := fh.Read(length);
      }
    }

    /** Text handed over in several calls: as long as each accepts all it is given, the wire cannot tell. */
    method WriteAll(chunks: seq<seq<byte>>) returns (ok: bool)
      requires convertCrlf
      modifies this`outPrev, fh`wire, fh`room
      ensures ok ==> fh.wire == old(fh.wire) + Expand(old(outPrev), Flatten(chunks))
      ensures ok ==> outPrev == Last(old(outPrev), Flatten(chunks))
      ensures fh.reliable && (forall i :: 0 <= i < |chunks| ==> |chunks[i]| <= SSIZE_MAX) && fh.room > 0 ==> ok
    {
      hide Expand;
      ghost var p, w0 := outPrev, fh.wire;
      var i := 0;
      assert Flatten<byte>([]) == [] && chunks[..0] == [];
      EmptyText(p);
      while i < |chunks|
        invariant 0 <= i <= |chunks|
        invariant fh.wire == w0 + Expand(p, Flatten(chunks[..i])) && outPrev == Last(p, Flatten(chunks[..i]))
      {
        ghost var before, q := fh.wire, outPrev;
        var written := Write(chunks[i]);
        if written != |chunks[i]| {
          return false;
        }
        ghost var pending :| Stopped(q, chunks[i], Sent(before, fh.wire), written, pending, outPrev);
        StoppedPrefix(q, chunks[i], Sent(before, fh.wire), written, pending, outPrev);
        FlattenMore(chunks, i);
        ExpandAppend(p, Flatten(chunks[..i]), chunks[i]);
        LastAppend(p, Flatten(chunks[..i]), chunks[i]);
        assert fh.wire == before + Sent(before, fh.wire);
        i := i + 1;
      }
      assert chunks[..i] == chunks;
      ok := true;
    }

    /** Read until nothing comes. */
    method ReadAll() returns (data: seq<byte>)
      requires convertCrlf && fh.reliable
      modifies this`inPrev, fh`input
      ensures data == Collapse(old(inPrev), old(fh.input)) && fh.input == []
    {
      data := [];
      while true
        invariant Collapse(old(inPrev), old(fh.input)) == data + Collapse(inPrev, fh.input)
        decreases |fh.input|
      {
        var n, d := Read(1);
        data := data + d;
        if n == 0 {
          break;
        }
      }
    }
  }

  lemma CollapseFirst(p: byte, s: seq<byte>, c: byte, rest: seq<byte>)
    requires s == [c] + rest
    ensures Collapse(p, s) ==
            (if (c == CR && p == LF) || (c == LF && p == CR) then [] else if c == CR then [LF] else [c])
                              + Collapse(c, rest)
  {
    assert s[1..] == rest;
  }

  lemma {:induction false} FlattenMore<T>(chunks: seq<seq<T>>, i: nat)
    requires i < |chunks|
    ensures Flatten(chunks[..i + 1]) == Flatten(chunks[..i]) + chunks[i]
  {
    if i == 0 {
      assert chunks[..1] == [chunks[0]] && Flatten(chunks[..1]) == chunks[0] + Flatten([]);
    } else {
      FlattenMore(chunks[1..], i - 1);
      assert chunks[..i + 1][1..] == chunks[1..][..i] && chunks[..i][1..] == chunks[1..][..i - 1];
    }
  }

  /** Text written on one descriptor and read back on it, both from a fresh start. */
  method Echo(text: seq<byte>) returns (back: seq<byte>)
    requires |text| <= SSIZE_MAX
    ensures back == Collapse(0, Expand(0, text))
    ensures back == text <==> Simple(0, text)
  {
    hide Expand, Collapse, Simple;
    var fh := new FileHandle(true, |Expand(0, text)| + 1, []);
    var d := new Descriptor(fh, true);
    var n := d.Write(text);
    ghost var pending :| Stopped(0, text, Sent([], fh.wire), n, pending, d.outPrev);
    StoppedPrefix(0, text, Sent([], fh.wire), n, pending, d.outPrev);
    fh.Turn();
    back := d.ReadAll();
    RoundTripExactly(0, text);
  }

  /** A wire that ends with the carriage return of a bare line feed tells where `_write` stopped. */
  lemma StoppedThere(p: byte, s: seq<byte>, sent: seq<byte>, n: int, pending: bool, saved: byte, l: nat)
    requires Stopped(p, s, sent, n, pending, saved) && Bare(p, s, l) && |sent| == |Expand(p, s[..l])| + 1
    ensures n == l && sent == OnWire(p, s, l, true) == Expand(p, s[..l]) + [CR] && saved == Saved(p, s, l, true)
  {
    hide Expand, Saved;
    StopIsUnique(p, s, n, pending, l, true);
  }

  /** For every text with a bare line feed after its first byte: if the handle runs full right after the carriage
      return of the last one, and the rest is written when there is room again, that carriage return goes out twice. */
  method ReturnSentTwice(text: seq<byte>, l: nat) returns (wire: seq<byte>)
    requires |text| <= SSIZE_MAX && 1 <= l < |text| && Bare(0, text, l) && !MoreBare(0, text, l, true)
    ensures wire == Expand(0, text[..l]) + [CR] + [CR] + Expand(CR, text[l..])
    ensures wire != Expand(0, text)
  {
    hide Expand, Stopped, Bare, MoreBare, Saved, OnWire;
    var full := Expand(0, text[..l]);
    var fh := new FileHandle(true, |full| + 1, []);
    var d := new Descriptor(fh, true);
    var n := d.Write(text);
    ghost var pending :| Stopped(0, text, Sent([], fh.wire), n, pending, d.outPrev);
    StoppedPrefix(0, text, Sent([], fh.wire), n, pending, d.outPrev);
    OnWireLast(0, text, l, true);
    OnWirePrefix(0, text, l, true);
    OnWireLonger(0, text, l);
    StoppedThere(0, text, Sent([], fh.wire), n, pending, d.outPrev, l);
    var w1, q := fh.wire, d.outPrev;
    DuplicatesReturn(0, text, l);
    fh.room := |Expand(q, text[l..])| + 1;
    n := d.Write(text[l..]);
    pending :| Stopped(q, text[l..], Sent(w1, fh.wire), n, pending, d.outPrev);
    StoppedPrefix(q, text[l..], Sent(w1, fh.wire), n, pending, d.outPrev);
    wire := fh.wire;
  }

  lemma OnWireLonger(p: byte, s: seq<byte>, l: nat)
    requires Bare(p, s, l)
    ensures |Expand(p, s)| > |Expand(p, s[..l])| + 1
  {
    hide Expand;
    ExpandStep(p, s, l);
    ExpandPrefix(p, s, l + 1);
  }
}
