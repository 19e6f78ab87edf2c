/** The registry of file-like objects and file systems, and what opening, closing and destroying them does to it
    and to the descriptor table. */
module FileRegistry {
  import opened Bytes
  import opened Descriptors

  /** The answer of a file system's own open. */
  datatype FsOpen = Opened(id: nat) | Failed(err: int)

  ghost function At(objects: seq<FileBase>, i: int): FileBase? {
    if 0 <= i < |objects| then objects[i] else null
  }

  ghost predicate NoTwice(objects: seq<FileBase>) {
    forall i, j :: 0 <= i < j < |objects| ==> objects[i] != objects[j]
  }

  ghost predicate Members(live: set<FileBase>, named: seq<FileBase>) {
    && (forall i :: 0 <= i < |named| ==> named[i] in live)
    && forall o :: o in live ==> (o.name.Some? <==> o in named)
  }

  ghost predicate Links(live: set<FileBase>, named: seq<FileBase>)
    reads live
  {
    forall i :: 0 <= i < |named| && named[i] in live ==> named[i].next == At(named, i + 1)
  }

  /** The newest object of that name. */
  ghost function NewestNamed(objects: seq<FileBase>, name: string): (f: FileBase?)
    ensures f != null ==> f in objects && f.name == Some(name)
    ensures f == null ==> forall o :: o in objects ==> o.name != Some(name)
  {
    if objects == [] then null
    else if objects[0].name == Some(name) then objects[0]
    else NewestNamed(objects[1..], name)
  }

  /** The first part of a path: slashes, the object's name, and after a slash the name inside it. */
  ghost predicate Parsed(path: string, objectName: string, fileName: string) {
    && '/' !in objectName
    && exists k :: 0 <= k <= |path| && (forall i :: 0 <= i < k ==> path[i] == '/')
                && (path[k..] == objectName || path[k..] == objectName + "/" + fileName)
                && (path[k..] == objectName ==> fileName == "")
                && (objectName == "" ==> k == |path|)
  }

  method ParsePath(path: string) returns (objectName: string, fileName: string)
    ensures Parsed(path, objectName, fileName)
  {
    var k := 0;
    while k < |path| && path[k] == '/'
      invariant 0 <= k <= |path| && forall i :: 0 <= i < k ==> path[i] == '/'
    {
      k := k + 1;
    }
    var j := k;
    while j < |path| && path[j] != '/'
      invariant k <= j <= |path| && '/' !in path[k..j]
    {
      j := j + 1;
    }
    objectName := path[k..j];
    fileName := if j < |path| then path[j + 1..] else "";
    if j < |path| {
      assert path[k..] == objectName + "/" + fileName;
      assert |path[k..]| != |objectName|;
    } else {
      assert path[k..] == objectName;
    }
  }

  /** Slashes, a name, and perhaps a slash and the rest: these are all paths, and those are their parts. */
  lemma PathsParse(slashes: nat, name: string, rest: string)
    requires '/' !in name
    ensures var path := Repeat('/', slashes) + name;
            Parsed(path, name, "") && (name != "" ==> Parsed(path + "/" + rest, name, rest))
  {
    var path := Repeat('/', slashes) + name;
    assert path[slashes..] == name;
    assert (path + "/" + rest)[slashes..] == name + "/" + rest;
    assert |name + "/" + rest| > |name|;
  }

  /** The two names are determined by the path. */
  lemma ParsedOnce(path: string, a: string, f: string, b: string, g: string)
    requires Parsed(path, a, f) && Parsed(path, b, g)
    ensures a == b && f == g
  {
    hide At, NoTwice;
    var k :| 0 <= k <= |path| && (forall i :: 0 <= i < k ==> path[i] == '/')
          && (path[k..] == a || path[k..] == a + "/" + f) && (path[k..] == a ==> f == "") && (a == "" ==> k == |path|);
    var l :| 0 <= l <= |path| && (forall i :: 0 <= i < l ==> path[i] == '/')
          && (path[l..] == b || path[l..] == b + "/" + g) && (path[l..] == b ==> g == "") && (b == "" ==> l == |path|);
    if k < l {
      if a != "" {
        StartsWithSlash(path, k, a, f);
      }
    } else if l < k {
      if b != "" {
        StartsWithSlash(path, l, b, g);
      }
    }
    SplitOnce(path[k..], a, f, b, g);
  }

  lemma StartsWithSlash(path: string, k: nat, a: string, f: string)
    requires k < |path| && path[k] == '/' && a != "" && (path[k..] == a || path[k..] == a + "/" + f)
    ensures '/' in a
  {
    assert a[0] == path[k..][0];
  }

  lemma SlashInside(s: string, a: string, f: string, b: string, g: string)
    requires |a| < |b| && (s == a || s == a + "/" + f) && (s == b || s == b + "/" + g)
    ensures '/' in b
  {
    assert b[|a|] == s[|a|];
  }

  lemma SplitOnce(s: string, a: string, f: string, b: string, g: string)
    requires '/' !in a && '/' !in b
    requires (s == a || s == a + "/" + f) && (s == a ==> f == "")
    requires (s == b || s == b + "/" + g) && (s == b ==> g == "")
    ensures a == b && f == g
  {
    if |a| < |b| {
      SlashInside(s, a, f, b, g);
    } else if |b| < |a| {
      SlashInside(s, b, g, a, f);
    } else {
      assert s[..|a|] == a == b;
      if s != a {
        assert s[|a| + 1..] == f == g;
      }
    }
  }

  ghost predicate SlotAlive(slot: Slot, live: set<FileBase>) {
    slot.Bound? && slot.handle.Like? ==> slot.handle.file in live && slot.handle.file.pathType == FilePathType
  }

  class Registry {
    const table: DescriptorTable
    var head: FileBase?
    var defaultObject: FileBase?
    ghost var live: set<FileBase>
    ghost var named: seq<FileBase>

    /** The list is exactly the live named objects, newest first. */
    ghost predicate Linked()
      reads this, live
    {
      Members(live, named) && NoTwice(named) && head == At(named, 0) && Links(live, named)
    }

    /** Nothing refers to a destroyed object. */
    ghost predicate NoDangling()
      reads this, table.filehandles
    {
      && (defaultObject != null ==> defaultObject in live)
      && forall fd :: 0 <= fd < table.filehandles.Length ==> SlotAlive(table.filehandles[fd], live)
    }

    ghost predicate Valid()
      reads this, live, table, table.filehandles
    {
      table.Valid() && Linked() && NoDangling()
    }

    constructor (openMax: nat)
      requires openMax >= 3
      ensures Valid() && fresh(table) && fresh(table.filehandles) && live == {} && named == [] && defaultObject == null
    {
      table := new DescriptorTable(openMax);
      head, defaultObject, live, named := null, null, {}, [];
    }

    method Construct(name: Option<string>, t: PathType) returns (f: FileBase)
      requires Valid()
      modifies this`head, this`live, this`named
      ensures Valid() && fresh(f) && f.name == name && f.pathType == t
      ensures live == old(live) + {f}
      ensures named == if name.Some? then [f] + old(named) else old(named)
    {
      hide Members, NoTwice, Links;
      f := new FileBase(name, t);
      ListedWith(live, named, f);
      if name != None {
        f.next := head;
        head := f;
        LinksWith(live, named, f);
        named := [f] + named;
      } else {
        LinksMore(live, named, f);
      }
      live := live + {f};
    }

    method SetAsDefault(f: FileBase)
      requires Valid() && f in live
      modifies this`defaultObject
      ensures Valid() && defaultObject == f
    {
      defaultObject := f;
    }

    method Lookup(name: string) returns (f: FileBase?)
      requires Linked() && (defaultObject != null ==> defaultObject in live)
      ensures f != null ==> f in live
      ensures f == Found(name)
      ensures (exists i :: 0 <= i < |named| && named[i].name == Some(name)) ==>
                exists i :: 0 <= i < |named| && named[i] == f && f.name == Some(name)
                            && forall j :: 0 <= j < i ==> named[j].name != Some(name)
      ensures (forall i :: 0 <= i < |named| ==> named[i].name != Some(name)) ==>
                f == if name == "default" then defaultObject else null
    {
      var p := head;
      ghost var i := 0;
      while p != null
        invariant 0 <= i <= |named| && p == At(named, i)
        invariant NewestNamed(named, name) == NewestNamed(named[i..], name)
        invariant forall j :: 0 <= j < i ==> named[j].name != Some(name)
        decreases |named| - i
      {
        if p.name == Some(name) {
          return p;
        }
        assert named[i..][1..] == named[i + 1..];
        p := p.next;
        i := i + 1;
      }
      f := if name == "default" then defaultObject else null;
    }

    method Get(n: int) returns (f: FileBase?)
      requires Linked()
      ensures f == At(named, n)
    {
      var p, m := head, 0;
      while p != null
        invariant 0 <= m <= |named| && p == At(named, m)
        invariant !(0 <= n < m)
        decreases |named| - m
      {
        if m == n {
          return p;
        }
        m := m + 1;
        p := p.next;
      }
      f := null;
    }

    /** What a name stands for. */
    ghost function Found(name: string): FileBase?
      reads this
    {
      var n := NewestNamed(named, name);
      if n != null then n else if name == "default" then defaultObject else null
    }

    /** The handle that opening an object yields, if any; `fs` is the answer of the file system's own open. */
    ghost function Opening(o: FileBase?, fs: FsOpen): Option<Handle> {
      if o == null then None
      else if o.pathType == FilePathType then Some(Like(o))
      else if fs.Opened? then Some(Plain(fs.id))
      else None
    }

    method Open(path: string, fs: FsOpen) returns (fd: int)
      requires Valid() && (fs.Failed? ==> fs.err != 0)
      modifies table`errno, table`trace, table.filehandles, table.stdioInPrev, table.stdioOutPrev
      ensures Valid() && old(table.trace) <= table.trace
      ensures fd == -1 ==> table.filehandles[..] == old(table.filehandles[..])
      ensures fd != -1 ==>
                && 3 <= fd < table.filehandles.Length && old(table.filehandles[fd]) == Null
                && (forall k :: 3 <= k < fd ==> old(table.filehandles[k]) != Null)
                && table.stdioInPrev[fd] == 0 && table.stdioOutPrev[fd] == 0
      ensures forall name, file :: Parsed(path, name, file) ==>
                if forall k :: 3 <= k < table.filehandles.Length ==> old(table.filehandles[k]) != Null
                then fd == -1 && table.errno == EMFILE
                else
                  var o := Found(name);
                  if o != null && o.pathType == FilePathType then
                    fd != -1 && table.filehandles[..] == old(table.filehandles[..])[fd := Bound(Like(o))]
                  else if o != null && fs.Opened? then
                    fd != -1 && table.filehandles[..] == old(table.filehandles[..])[fd := Bound(Plain(fs.id))]
                  else fd == -1 && table.errno == if o == null then ENODEV else 0 - fs.err
    {
      hide Linked, Parsed, Held, WellUsed, SlotAlive;
      var slot := table.ReserveFilehandle();
      if slot < 0 {
        return slot;
      }
      var name, fileName := ParsePath(path);
      forall n, f | Parsed(path, n, f) ensures n == name {
        ParsedOnce(path, n, f, name, fileName);
      }
      ghost var reserved := table.filehandles[..];
      assert reserved[slot := Null] == old(table.filehandles[..]);
      DanglingSlot(old(table.filehandles[..]), slot);
      fd := OpenInto(slot, name, fs);
    }

    /** A reserved slot refers to nothing. */
    lemma DanglingSlot(before: seq<Slot>, slot: nat)
      requires slot < |before| && table.filehandles[..] == before[slot := Reserved]
      requires defaultObject != null ==> defaultObject in live
      requires forall fd :: 0 <= fd < |before| ==> SlotAlive(before[fd], live)
      ensures NoDangling()
    {
    }

    /** The part of open after a slot was reserved: the slot is filled, or released again. */
    method OpenInto(slot: nat, name: string, fs: FsOpen) returns (fd: int)
      requires table.Sound() && Linked() && NoDangling() && (fs.Failed? ==> fs.err != 0)
      requires 3 <= slot < table.filehandles.Length && table.filehandles[slot] == Reserved
      requires forall k :: 3 <= k < table.filehandles.Length && k != slot ==> table.filehandles[k] != Reserved
      modifies table`errno, table`trace, table.filehandles, table.stdioInPrev, table.stdioOutPrev
      ensures Valid() && old(table.trace) <= table.trace
      ensures match Opening(Found(name), fs)
              case Some(h) => fd == slot && table.filehandles[..] == old(table.filehandles[..])[slot := Bound(h)]
              case None => fd == -1 && table.filehandles[..] == old(table.filehandles[..])[slot := Null]
      ensures Opening(Found(name), fs) == None ==> table.errno == if Found(name) == null then ENODEV else 0 - fs.err
      ensures fd != -1 ==> table.stdioInPrev[slot] == 0 && table.stdioOutPrev[slot] == 0
    {
      hide Linked, Held, WellUsed;
      var o := Lookup(name);
      if o == null {
        fd := table.HandleOpenErrors(0 - ENODEV, slot);
        return;
      }
      var h;
      if o.pathType == FilePathType {
        h := Like(o);
      } else {
        match fs {
          case Failed(err) =>
            fd := table.HandleOpenErrors(err, slot);
            return;
          case Opened(id) =>
            h := Plain(id);
        }
      }
      table.Fill(slot, h);
      fd := slot;
    }

    /** Binding a handle of one's own; a file-like object must be alive. */
    method BindToFd(h: Handle) returns (fd: int)
      requires Valid() && (h.Like? ==> h.file in live && h.file.pathType == FilePathType)
      modifies table`errno, table`trace, table.filehandles, table.stdioInPrev, table.stdioOutPrev
      ensures Valid() && old(table.trace) <= table.trace
      ensures if fd == -1 then table.filehandles[..] == old(table.filehandles[..])
              else
                && 3 <= fd < table.filehandles.Length && old(table.filehandles[fd]) == Null
                && table.filehandles[..] == old(table.filehandles[..])[fd := Bound(h)]
    {
      hide Linked;
      fd := table.BindToFd(h);
    }

    method Close(fd: int, console: Handle, closed: int) returns (r: int, ghost undefined: bool)
      requires Valid()
      modifies table`errno, table`trace, table.filehandles
      ensures undefined <==> !(0 <= fd < table.filehandles.Length)
      ensures !undefined ==> Valid() && table.filehandles[..] == old(table.filehandles[..])[fd := Null]
      ensures !undefined ==> old(table.trace) <= table.trace
    {
      hide Linked;
      r, undefined := table.Close(fd, console, closed);
    }

    method UnbindFromFd(fd: nat, h: Handle) returns (r: int)
      requires Valid() && fd < table.filehandles.Length
      modifies table`errno, table`trace, table.filehandles
      ensures Valid() && old(table.trace) <= table.trace
      ensures || table.filehandles[..] == old(table.filehandles[..])
              || table.filehandles[..] == old(table.filehandles[..])[fd := Null]
    {
      hide Linked;
      r := table.UnbindFromFd(fd, h);
    }

    /** A handle found behind a descriptor is never that of a destroyed object. */
    method FileHandleOf(fd: nat, console: Handle) returns (h: Option<Handle>)
      requires Valid() && SlotAlive(Bound(console), live)
      modifies table.filehandles
      ensures Valid() && (h.Some? ==> SlotAlive(Bound(h.value), live))
    {
      hide Linked;
      h := table.FileHandleOf(fd, console);
    }

    /** The object before `f` in the list; the search for it ends. */
    method Before(f: FileBase, ghost i: nat) returns (p: FileBase)
      requires Linked() && 1 <= i < |named| && named[i] == f
      ensures p == named[i - 1]
    {
      p := head;
      ghost var j := 0;
      while p.next != f
        invariant 0 <= j < i && p == named[j]
        decreases i - j
      {
        if j + 1 < i {
          assert named[j + 1] != f;
        }
        j := j + 1;
        p := p.next;
      }
    }

    /** The list part of the destructor. */
    method Unlink(f: FileBase, ghost i: nat)
      requires Linked() && i < |named| && named[i] == f && forall k :: 0 <= k < |named| ==> named[k] in live
      modifies this`head, live
      ensures head == At(Without(named, i), 0) && Links(live, Without(named, i))
    {
      hide Members, Without;
      ghost var was := named;
      FirstWithout(was, i);
      if head == f {
        head := f.next;
      } else {
        var p := Before(f, i);
        p.next := f.next;
      }
      LinksWithout(live, was, i);
    }

    /** The list and the default, without `f`. */
    method Deregister(f: FileBase)
      requires Linked() && f in live && (defaultObject != null ==> defaultObject in live)
      modifies this`head, this`defaultObject, this`live, this`named, live
      ensures Linked() && live == old(live) - {f} && (defaultObject != null ==> defaultObject in live)
      ensures f.name == None ==> named == old(named)
      ensures f.name != None ==>
                exists i :: 0 <= i < |old(named)| && old(named)[i] == f && named == Without(old(named), i)
      ensures defaultObject == if old(defaultObject) == f then null else old(defaultObject)
    {
      hide Without, NoTwice, Links;
      if f.name != None {
        ghost var i :| 0 <= i < |named| && named[i] == f;
        MembersWithout(live, named, i);
        Unlink(f, i);
        named := Without(named, i);
      } else {
        MembersWithoutUnnamed(live, named, f);
      }
      LinksFewer(live, named, f);
      live := live - {f};
      if defaultObject == f {
        defaultObject := null;
      }
    }

    /** The destructor: afterwards no link, default or descriptor refers to the object. */
    method Destroy(f: FileBase)
      requires Valid() && f in live
      modifies this`head, this`defaultObject, this`live, this`named, live, table`trace, table.filehandles
      ensures Valid() && live == old(live) - {f} && old(table.trace) <= table.trace
      ensures f.name == None ==> named == old(named)
      ensures f.name != None ==>
                exists i :: 0 <= i < |old(named)| && old(named)[i] == f && named == Without(old(named), i)
      ensures defaultObject == if old(defaultObject) == f then null else old(defaultObject)
      ensures forall fd :: 0 <= fd < table.filehandles.Length ==>
                table.filehandles[fd] ==
                if old(table.filehandles[fd]) == Bound(Like(f)) then Null else old(table.filehandles[fd])
    {
      hide Linked, Without;
      Deregister(f);
      if f.pathType == FilePathType {
        table.RemoveFilehandle(f);
      }
    }
  }

  /** A new object is found by its name at once, whatever had that name before; what any other name stands for stays. */
  method ConstructedFound(r: Registry, name: string, t: PathType, other: string)
    returns (f: FileBase, g: FileBase?, before: FileBase?, after: FileBase?)
    requires r.Valid() && other != name
    modifies r`head, r`live, r`named
    ensures r.Valid() && fresh(f) && g == f && after == before
  {
    hide r.Linked;
    before := r.Lookup(other);
    f := r.Construct(Some(name), t);
    assert r.named[0] == f;
    g := r.Lookup(name);
    assert r.named[1..] == old(r.named);
    after := r.Lookup(other);
  }

  ghost function Without(objects: seq<FileBase>, i: nat): (r: seq<FileBase>)
    requires i < |objects|
  {
    objects[..i] + objects[i + 1..]
  }

  /** A new object joins the list if it has a name. */
  lemma ListedWith(live: set<FileBase>, named: seq<FileBase>, f: FileBase)
    requires Members(live, named) && NoTwice(named) && f !in live
    ensures if f.name.Some? then Members(live + {f}, [f] + named) && NoTwice([f] + named)
            else Members(live + {f}, named)
  {
  }

  lemma LinksWith(live: set<FileBase>, named: seq<FileBase>, f: FileBase)
    requires Links(live, named) && Members(live, named) && f !in live && f.next == At(named, 0)
    ensures Links(live + {f}, [f] + named)
  {
  }

  lemma LinksMore(live: set<FileBase>, named: seq<FileBase>, f: FileBase)
    requires Links(live, named) && Members(live, named)
    ensures Links(live + {f}, named)
  {
  }

  lemma FirstWithout(objects: seq<FileBase>, i: nat)
    requires i < |objects| && NoTwice(objects)
    ensures objects[i] == objects[0] <==> i == 0
    ensures At(Without(objects, i), 0) == if i == 0 then At(objects, 1) else objects[0]
  {
  }

  lemma MembersWithout(live: set<FileBase>, named: seq<FileBase>, i: nat)
    requires i < |named| && Members(live, named) && NoTwice(named)
    ensures Members(live - {named[i]}, Without(named, i)) && NoTwice(Without(named, i))
  {
    var now := Without(named, i);
    forall o | o in live - {named[i]} ensures o.name.Some? <==> o in now {
      if o in named {
        var j :| 0 <= j < |named| && named[j] == o;
        assert now[if j < i then j else j - 1] == o;
      }
    }
  }

  lemma MembersWithoutUnnamed(live: set<FileBase>, named: seq<FileBase>, f: FileBase)
    requires f in live && f.name == None && Members(live, named)
    ensures Members(live - {f}, named) && f !in named
  {
  }

  lemma LinksFewer(live: set<FileBase>, named: seq<FileBase>, f: FileBase)
    requires Links(live, named)
    ensures Links(live - {f}, named)
  {
  }

  lemma LinksWithout(live: set<FileBase>, was: seq<FileBase>, i: nat)
    requires i < |was| && forall k :: 0 <= k < |was| ==> was[k] in live
    requires forall k :: 0 <= k < |was| && k != i - 1 ==> was[k].next == At(was, k + 1)
    requires i > 0 ==> was[i - 1].next == At(was, i + 1)
    ensures Links(live, Without(was, i))
  {
    var now := Without(was, i);
    forall k | 0 <= k < |now| ensures now[k].next == At(now, k + 1) {
      assert now[k] == was[if k < i then k else k + 1];
    }
  }
}
