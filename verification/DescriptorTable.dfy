/** The descriptor table of the C library retargeting layer. */
module Descriptors {
  import opened Bytes

  datatype PathType = FilePathType | FileSystemPathType

  /** A named or unnamed object of the registry; `next` is its link. */
  class FileBase {
    const name: Option<string>
    const pathType: PathType
    var next: FileBase?

    constructor (name: Option<string>, pathType: PathType)
      ensures this.name == name && this.pathType == pathType && next == null
    {
      this.name, this.pathType := name, pathType;
      next := null;
    }
  }

  /** A file handle: a file-like object of the registry, or some other handle, known by number. */
  datatype Handle = Like(file: FileBase) | Plain(id: nat)

  datatype Slot = Null | Reserved | Bound(handle: Handle)

  datatype Event = Gave(fd: nat) | Took(fd: nat)

  const EBADF: int := 9
  const ENODEV: int := 19
  const EMFILE: int := 24

  /** By the end of `trace`, `fd` has been handed out and not been released. */
  ghost predicate Held(trace: seq<Event>, fd: nat) {
    trace != [] &&
    var e := trace[|trace| - 1];
    if e.fd == fd then e.Gave? else Held(trace[..|trace| - 1], fd)
  }

  /** No descriptor is handed out while it is held. */
  ghost predicate WellUsed(trace: seq<Event>) {
    forall j :: 0 <= j < |trace| && trace[j].Gave? ==> !Held(trace[..j], trace[j].fd)
  }

  lemma HeldAfter(trace: seq<Event>, e: Event, fd: nat)
    ensures Held(trace + [e], fd) == if e.fd == fd then e.Gave? else Held(trace, fd)
  {
    assert (trace + [e])[..|trace|] == trace;
  }

  lemma WellUsedAfter(trace: seq<Event>, e: Event)
    requires WellUsed(trace) && (e.Gave? ==> !Held(trace, e.fd))
    ensures WellUsed(trace + [e])
  {
    var t := trace + [e];
    forall j | 0 <= j < |t| && t[j].Gave? ensures !Held(t[..j], t[j].fd) {
      assert t[..j] == trace[..j];
      assert trace[..|trace|] == trace;
    }
  }

  /** Whenever a descriptor is handed out a second time, it was released in between. */
  lemma {:induction false} ReleasedBetween(trace: seq<Event>, i: nat, j: nat)
    requires WellUsed(trace) && i < j < |trace| && trace[i].Gave? && trace[j] == trace[i]
    ensures exists k :: i < k < j && trace[k] == Took(trace[i].fd)
  {
    assert !Held(trace[..j], trace[i].fd);
    if forall k :: i < k < j ==> trace[k] != Took(trace[i].fd) {
      HeldUntilTaken(trace, i, j);
    }
  }

  lemma {:induction false} HeldUntilTaken(trace: seq<Event>, i: nat, j: nat)
    requires i < j <= |trace| && trace[i].Gave?
    requires forall k :: i < k < j ==> trace[k] != Took(trace[i].fd)
    ensures Held(trace[..j], trace[i].fd)
  {
    assert trace[..j] == trace[..j - 1] + [trace[j - 1]];
    HeldAfter(trace[..j - 1], trace[j - 1], trace[i].fd);
    if i < j - 1 {
      HeldUntilTaken(trace, i, j - 1);
    }
  }

  class DescriptorTable {
    const filehandles: array<Slot>
    const stdioInPrev: array<byte>
    const stdioOutPrev: array<byte>
    var errno: int
    ghost var trace: seq<Event>

    /** What holds even while a descriptor is being set up. */
    ghost predicate Sound()
      reads this, filehandles
    {
      && 3 <= filehandles.Length == stdioInPrev.Length == stdioOutPrev.Length && stdioInPrev != stdioOutPrev
      && WellUsed(trace)
      && forall fd :: 3 <= fd < filehandles.Length ==> (filehandles[fd] != Null <==> Held(trace, fd))
    }

    ghost predicate Valid()
      reads this, filehandles
    {
      Sound() && forall fd :: 3 <= fd < filehandles.Length ==> filehandles[fd] != Reserved
    }

    constructor (openMax: nat)
      requires openMax >= 3
      ensures Valid() && fresh(filehandles) && fresh(stdioInPrev) && fresh(stdioOutPrev)
      ensures filehandles.Length == openMax && errno == 0 && trace == []
      ensures forall fd :: 0 <= fd < openMax ==> filehandles[fd] == if fd < 3 then Reserved else Null
    {
      filehandles := new Slot[openMax](i => if i < 3 then Reserved else Null);
      stdioInPrev := new byte[openMax](_ => 0);
      stdioOutPrev := new byte[openMax](_ => 0);
      errno, trace := 0, [];
    }

    method ReserveFilehandle() returns (fd: int)
      requires Valid()
      modifies this`errno, this`trace, filehandles
      ensures Sound()
      ensures fd == -1 <==> forall k :: 3 <= k < filehandles.Length ==> old(filehandles[k]) != Null
      ensures fd == -1 ==> filehandles[..] == old(filehandles[..]) && errno == EMFILE && trace == old(trace)
      ensures fd != -1 ==>
                && 3 <= fd < filehandles.Length && old(filehandles[fd]) == Null
                && forall k :: 3 <= k < fd ==> old(filehandles[k]) != Null
      ensures fd != -1 ==> filehandles[..] == old(filehandles[..])[fd := Reserved] && errno == old(errno)
      ensures fd != -1 ==> trace == old(trace) + [Gave(fd)]
    {
      hide Held, WellUsed;
      var i := 3;
      while i < filehandles.Length
        invariant 3 <= i <= filehandles.Length
        invariant forall k :: 3 <= k < i ==> filehandles[k] != Null
      {
        if filehandles[i] == Null {
          break;
        }
        i := i + 1;
      }
      if i >= filehandles.Length {
        errno := EMFILE;
        return -1;
      }
      Note(Gave(i));
      filehandles[i] := Reserved;
      return i;
    }

    /** Record an event; the slot follows. */
    ghost method Note(e: Event)
      requires Sound() && 3 <= e.fd < filehandles.Length && (e.Gave? ==> filehandles[e.fd] == Null)
      modifies this`trace
      ensures trace == old(trace) + [e] && WellUsed(trace)
      ensures forall fd :: 3 <= fd < filehandles.Length ==>
                (Held(trace, fd) <==> if fd == e.fd then e.Gave? else filehandles[fd] != Null)
    {
      hide Held, WellUsed;
      WellUsedAfter(trace, e);
      forall fd | 3 <= fd < filehandles.Length
        ensures Held(trace + [e], fd) == if e.fd == fd then e.Gave? else Held(trace, fd)
      {
        HeldAfter(trace, e, fd);
      }
      trace := trace + [e];
    }

    /** Give up a slot: also after a failed open, so that it can be handed out again. */
    method Clear(fd: nat)
      requires Sound() && fd < filehandles.Length
      modifies this`trace, filehandles
      ensures Sound() && filehandles[..] == old(filehandles[..])[fd := Null]
      ensures trace == old(trace) + if fd >= 3 then [Took(fd)] else []
    {
      hide Held, WellUsed;
      if fd >= 3 {
        Note(Took(fd));
      }
      filehandles[fd] := Null;
    }

    method HandleOpenErrors(error: int, fd: nat) returns (r: int)
      requires Sound() && fd < filehandles.Length
      modifies this`errno, this`trace, filehandles
      ensures Sound() && filehandles[..] == old(filehandles[..])[fd := Null]
      ensures trace == old(trace) + if fd >= 3 then [Took(fd)] else []
      ensures r == -1 && errno == 0 - error
    {
      errno := 0 - error;
      Clear(fd);
      r := -1;
    }

    /** Put a handle into a reserved slot, with nothing remembered of what went before on that descriptor. */
    method Fill(fd: nat, h: Handle)
      requires Sound() && 3 <= fd < filehandles.Length && filehandles[fd] == Reserved
      requires forall k :: 3 <= k < filehandles.Length && k != fd ==> filehandles[k] != Reserved
      modifies filehandles, stdioInPrev, stdioOutPrev
      ensures Valid() && filehandles[..] == old(filehandles[..])[fd := Bound(h)]
      ensures stdioInPrev[..] == old(stdioInPrev[..])[fd := 0] && stdioOutPrev[..] == old(stdioOutPrev[..])[fd := 0]
    {
      hide Held, WellUsed;
      filehandles[fd] := Bound(h);
      stdioInPrev[fd] := 0;
      stdioOutPrev[fd] := 0;
    }

    method BindToFd(h: Handle) returns (fd: int)
      requires Valid()
      modifies this`errno, this`trace, filehandles, stdioInPrev, stdioOutPrev
      ensures Valid()
      ensures fd == -1 <==> forall k :: 3 <= k < filehandles.Length ==> old(filehandles[k]) != Null
      ensures fd == -1 ==> filehandles[..] == old(filehandles[..]) && errno == EMFILE
      ensures fd != -1 ==>
                && 3 <= fd < filehandles.Length && old(filehandles[fd]) == Null
                && (forall k :: 3 <= k < fd ==> old(filehandles[k]) != Null)
                && filehandles[..] == old(filehandles[..])[fd := Bound(h)]
      ensures trace == old(trace) + if fd == -1 then [] else [Gave(fd)]
      ensures fd != -1 ==> stdioInPrev[fd] == 0 && stdioOutPrev[fd] == 0
    {
      hide Held, WellUsed;
      fd := ReserveFilehandle();
      if fd < 0 {
        return;
      }
      Fill(fd, h);
    }

    method UnbindFromFd(fd: nat, h: Handle) returns (r: int)
      requires Valid() && fd < filehandles.Length
      modifies this`errno, this`trace, filehandles
      ensures Valid()
      ensures if old(filehandles[fd]) == Bound(h) then r == 0 && filehandles[..] == old(filehandles[..])[fd := Null]
              else r == -1 && errno == EBADF && filehandles[..] == old(filehandles[..])
      ensures trace == old(trace) + if r == 0 && fd >= 3 then [Took(fd)] else []
    {
      hide Held, WellUsed;
      if filehandles[fd] == Bound(h) {
        Clear(fd);
        r := 0;
      } else {
        errno := EBADF;
        r := -1;
      }
    }

    /** The handle behind a descriptor; the console is bound to a standard descriptor at its first use. */
    method FileHandleOf(fd: nat, console: Handle) returns (h: Option<Handle>)
      requires Valid()
      modifies filehandles
      ensures Valid()
      ensures fd >= filehandles.Length ==> h == None && filehandles[..] == old(filehandles[..])
      ensures fd < filehandles.Length ==>
                var slot := if old(filehandles[fd]) == Reserved then Bound(console) else old(filehandles[fd]);
                && filehandles[..] == old(filehandles[..])[fd := slot]
                && h == if slot.Bound? then Some(slot.handle) else None
    {
      hide Held, WellUsed;
      if fd >= filehandles.Length {
        return None;
      }
      if filehandles[fd] == Reserved && fd < 3 {
        filehandles[fd] := Bound(console);
      }
      h := if filehandles[fd].Bound? then Some(filehandles[fd].handle) else None;
    }

    /** `closed` is what the handle's own close answers. A descriptor outside the table is looked up if negative,
        and cleared in any case: nothing is said about that. */
    method Close(fd: int, console: Handle, closed: int) returns (r: int, ghost undefined: bool)
      requires Valid()
      modifies this`errno, this`trace, filehandles
      ensures undefined <==> !(0 <= fd < filehandles.Length)
      ensures !undefined ==>
                && Valid() && filehandles[..] == old(filehandles[..])[fd := Null]
                && trace == old(trace) + (if fd >= 3 then [Took(fd)] else [])
                && (r == if old(filehandles[fd]) == Null || closed < 0 then -1 else 0)
                && (r == -1 ==> errno == if old(filehandles[fd]) == Null then EBADF else 0 - closed)
    {
      hide Held, WellUsed;
      if fd < 0 {
        return *, true;
      }
      var fhc := FileHandleOf(fd, console);
      if fd >= filehandles.Length {
        return *, true;
      }
      undefined := false;
      Clear(fd);
      if fhc == None {
        errno := EBADF;
        return -1, false;
      }
      if closed < 0 {
        errno := 0 - closed;
        return -1, false;
      }
      r := 0;
    }

    /** Release every descriptor of a file-like object. */
    method RemoveFilehandle(file: FileBase)
      requires Valid()
      modifies this`trace, filehandles
      ensures Valid() && old(trace) <= trace
      ensures forall fd :: 0 <= fd < filehandles.Length ==>
                filehandles[fd] == if old(filehandles[fd]) == Bound(Like(file)) then Null else old(filehandles[fd])
    {
      hide Held, WellUsed;
      var i := 0;
      while i < filehandles.Length
        invariant 0 <= i <= filehandles.Length && Valid() && old(trace) <= trace
        invariant forall fd :: 0 <= fd < filehandles.Length ==>
                    filehandles[fd] ==
                    if fd < i && old(filehandles[fd]) == Bound(Like(file)) then Null else old(filehandles[fd])
      {
        if filehandles[i] == Bound(Like(file)) {
          Clear(i);
        }
        i := i + 1;
      }
    }
  }
}
