/** The syscall layer: the descriptor list (src/exec/file_descriptor.c) and the
    dispatcher (src/exec/syscall.c), over the file tree. */
module Syscalls {
  import opened Bits
  import opened Text
  import opened FileTree
  import opened Paths

  // ----- The descriptor list -----

  /** use_fs_node and the union behind it: a node, or two functions by address. */
  datatype Target = FileNode(node: Ptr) | IoFunc(read: nat, write: nat)

  datatype Descriptor = Descriptor(id: nat, target: Target, user: nat, process: nat)

  class FileDescriptor {
    const info: Descriptor
    var next: FileDescriptor?

    constructor (info: Descriptor)
      ensures this.info == info && next == null
    {
      this.info := info;
      next := null;
    }
  }

  function Infos(spine: seq<FileDescriptor>): seq<Descriptor> {
    seq(|spine|, i requires 0 <= i < |spine| => spine[i].info)
  }

  /** The first record with this id. */
  function Lookup(fds: seq<Descriptor>, id: nat, from: nat): (i: nat)
    requires from <= |fds|
    ensures from <= i <= |fds|
    ensures i < |fds| ==> fds[i].id == id
    ensures forall j :: from <= j < i ==> fds[j].id != id
    decreases |fds| - from
  {
    if from == |fds| || fds[from].id == id then from else Lookup(fds, id, from + 1)
  }

  class FdTable {
    var first: FileDescriptor?
    var idCounter: nat
    ghost var spine: seq<FileDescriptor>

    ghost predicate Valid()
      reads this, spine
    {
      && idCounter < WORD
      && (forall i, j :: 0 <= i < j < |spine| ==> spine[i] != spine[j])
      && first == (if spine == [] then null else spine[0])
      && forall i {:trigger spine[i].next} :: 0 <= i < |spine| ==>
           spine[i].next == if i + 1 < |spine| then spine[i + 1] else null
    }

    constructor ()
      ensures Valid() && spine == [] && idCounter == 1
    {
      first, idCounter, spine := null, 1, [];
    }

    method GetFdFromId(id: nat) returns (fd: FileDescriptor?)
      requires Valid()
      ensures var i := Lookup(Infos(spine), id, 0);
        fd == if i < |spine| then spine[i] else null
    {
      fd := first;
      ghost var i := 0;
      if fd == null { return; }
      while true
        invariant i < |spine| && fd == spine[i]
        invariant Lookup(Infos(spine), id, 0) == Lookup(Infos(spine), id, i)
        decreases |spine| - i
      {
        if fd.info.id == id { return; }
        fd := fd.next;
        i := i + 1;
        if fd == null { return; }
      }
    }

    /** Both kinds of descriptor are appended alike; the counter is 64 bits wide. */
    method Append(target: Target, user: nat, process: nat) returns (fd: FileDescriptor)
      requires Valid()
      modifies this, spine
      ensures Valid() && fresh(fd)
      ensures fd.info == Descriptor(old(idCounter), target, user, process)
      ensures spine == old(spine) + [fd] && Infos(spine) == Infos(old(spine)) + [fd.info]
      ensures idCounter == (old(idCounter) + 1) % WORD
    {
      fd := new FileDescriptor(Descriptor(idCounter, target, user, process));
      idCounter := (idCounter + 1) % WORD;
      var current := first;
      if current != null {
        ghost var i := 0;
        while current.next != null
          invariant 0 <= i < |spine| && current == spine[i]
          decreases |spine| - i
        {
          current := current.next;
          i := i + 1;
        }
        current.next := fd;
      } else {
        first := fd;
      }
      spine := spine + [fd];
    }

    method CreateNewFsnodeFd(node: Ptr, user: nat, process: nat) returns (fd: FileDescriptor)
      requires Valid()
      modifies this, spine
      ensures Valid() && fresh(fd)
      ensures fd.info == Descriptor(old(idCounter), FileNode(node), user, process)
      ensures spine == old(spine) + [fd] && Infos(spine) == Infos(old(spine)) + [fd.info]
      ensures idCounter == (old(idCounter) + 1) % WORD
    {
      fd := Append(FileNode(node), user, process);
    }

    /** The two functions are recorded by address; what they do stays abstract. */
    method CreateNewIofuncFd(read: nat, write: nat, user: nat, process: nat) returns (fd: FileDescriptor)
      requires Valid()
      modifies this, spine
      ensures Valid() && fresh(fd)
      ensures fd.info == Descriptor(old(idCounter), IoFunc(read, write), user, process)
      ensures spine == old(spine) + [fd] && Infos(spine) == Infos(old(spine)) + [fd.info]
      ensures idCounter == (old(idCounter) + 1) % WORD
    {
      fd := Append(IoFunc(read, write), user, process);
    }
  }

  // ----- Reading and writing a file -----

  const UINT32: nat := 0x1_0000_0000

  /** How many bytes fs_read copies; max is a 32-bit unsigned count, so max - 1 is
      huge when it is 0. */
  function ReadCount(size: nat, max: nat): nat
    requires max < UINT32
  {
    if size == 0 then 0 else if size < max then size else (max + UINT32 - 1) % UINT32
  }

  /** The copy stays inside the file, and leaves room for the terminator, exactly
      when the file is empty or max is not 0. */
  lemma ReadSafeIff(size: nat, max: nat)
    requires size < UINT32 && max < UINT32
    ensures (ReadCount(size, max) <= size && (size > 0 ==> ReadCount(size, max) < max)) <==> size == 0 || max > 0
    ensures max > 0 ==> ReadCount(size, max) == if size < max then size else max - 1
  {
  }

  /** One byte in the file and a maximum of 0: four gigabytes less one would be copied. */
  lemma ReadOfNothing()
    ensures ReadCount(1, 0) == 0xFFFF_FFFF
  {
  }

  /** The result is an int, widened into a 64-bit register. */
  function AsWord(n: nat): (w: nat)
    requires n < UINT32
    ensures w % UINT32 == n && (w < 0x8000_0000 || WORD - 0x8000_0000 <= w < WORD)
  {
    if n < 0x8000_0000 then n else n + (WORD - UINT32)
  }

  method FsRead(data: seq<int>, out: array<int>, max: nat) returns (n: nat)
    requires |data| < UINT32 && max < UINT32 && max <= out.Length && (data == [] || max > 0)
    modifies out
    ensures n == ReadCount(|data|, max) <= |data|
    ensures max > 0 ==> n < max && out[..n] == data[..n] && out[n] == 0
  {
    ReadSafeIff(|data|, max);
    if |data| == 0 {
      if max > 0 { out[0] := 0; }
      return 0;
    }
    n := if |data| < max then |data| else max - 1;
    for i := 0 to n
      invariant forall k :: 0 <= k < i ==> out[k] == data[k]
    {
      out[i] := data[i];
    }
    out[n] := 0;
  }

  // ----- The dispatcher -----

  datatype Code = FdNotFound | FileNotFound | PermissionDenied | IllegalOperation | IllegalMode | Ok

  /** rax, the error code, and whether rax is returned directly. */
  datatype Result = Result(rax: int, code: Code, direct: bool)

  function Fail(code: Code): Result {
    Result(0, code, false)
  }

  function Give(data: int): Result {
    Result(data, Ok, true)
  }

  /** WRITE carries the user buffer as bytes, OPEN its path; `io` is what the read
      function of a descriptor served by functions answers. */
  datatype Call = Read(fd: nat, count: nat, io: int) | Write(fd: nat, bytes: seq<int>, count: nat) | Open(path: string) | Other

  datatype Caller = Caller(user: nat, process: nat)

  datatype System = System(fds: seq<Descriptor>, counter: nat, nodes: Store, root: Ptr)

  /** GET_PERMS with the group bit following ownership, masked with 2. */
  predicate MayWrite(n: Node, user: nat) {
    And(And(if n.owner == user then Shr(n.permissions, 6) else n.permissions, 0x7), 2) != 0
  }

  /** The permission digit, in octal, that applies to this user: the owner's or that of
      the others. The group's never does. */
  function DigitFor(n: Node, user: nat): (d: nat)
    ensures d < 8
  {
    (if n.owner == user then n.permissions / 64 else n.permissions) % 8
  }

  /** Its middle bit. */
  predicate HasWriteBit(digit: nat) {
    digit % 4 >= 2
  }

  lemma ShrSix(x: nat)
    ensures Shr(x, 6) == x / 64
  {
    assert Shr(x, 6) == Shr(x / 2, 5) == Shr(x / 2 / 2, 4) == Shr(x / 2 / 2 / 2, 3);
    assert Shr(x / 2 / 2 / 2, 3) == Shr(x / 2 / 2 / 2 / 2, 2) == Shr(x / 2 / 2 / 2 / 2 / 2, 1);
    assert Shr(x / 2 / 2 / 2 / 2 / 2, 1) == Shr(x / 2 / 2 / 2 / 2 / 2 / 2, 0);
  }

  lemma LowDigit(x: nat)
    ensures And(x, 0x7) == x % 8
  {
    assert Pow2(3) == 8;
    LowMask(x, 3);
  }

  lemma MiddleBit(d: nat)
    requires d < 8
    ensures And(d, 2) != 0 <==> HasWriteBit(d)
  {
    AndStep(d, 2);
    AndOne(d / 2);
  }

  /** The test the code makes is for the write bit of that digit. */
  lemma MayWriteIs(n: Node, user: nat)
    ensures MayWrite(n, user) <==> HasWriteBit(DigitFor(n, user))
  {
    ShrSix(n.permissions);
    LowDigit(Shr(n.permissions, 6));
    LowDigit(n.permissions);
    MiddleBit(DigitFor(n, user));
  }

  /** Octal permissions ogu: the owner may write by o, everyone else by u. */
  lemma OctalPermissions(n: Node, o: nat, g: nat, u: nat, user: nat)
    requires o < 8 && g < 8 && u < 8 && n.permissions == 64 * o + 8 * g + u
    ensures MayWrite(n, user) <==> if user == n.owner then o % 4 >= 2 else u % 4 >= 2
  {
    MayWriteIs(n, user);
    assert n.permissions / 64 == o && n.permissions % 8 == u;
  }

  /** So with the default permissions, 0755, or with 0644, the owner may write and
      nobody else. READ asks for the same bit: 0444 keeps the owner from reading. */
  lemma UsualPermissions(n: Node, user: nat)
    ensures DEFAULT_PERMISSIONS == 0x1ED
    ensures n.permissions in [DEFAULT_PERMISSIONS, 6 * 64 + 4 * 8 + 4] ==> (MayWrite(n, user) <==> user == n.owner)
    ensures n.permissions == 4 * 64 + 4 * 8 + 4 ==> !MayWrite(n, user)
  {
    if n.permissions == DEFAULT_PERMISSIONS { OctalPermissions(n, 7, 5, 5, user); }
    if n.permissions == 6 * 64 + 4 * 8 + 4 { OctalPermissions(n, 6, 4, 4, user); }
    if n.permissions == 4 * 64 + 4 * 8 + 4 { OctalPermissions(n, 4, 4, 4, user); }
  }

  datatype Access = Granted(node: Ptr) | Functions | Refused(code: Code)

  /** The checks READ and WRITE make alike. */
  function Check(s: System, fd: nat, caller: Caller): (a: Access)
    ensures a.Granted? ==> a.node in s.nodes && s.nodes[a.node].kind == File
  {
    var i := Lookup(s.fds, fd, 0);
    if i == |s.fds| then Refused(FdNotFound)
    else if s.fds[i].user != caller.user || s.fds[i].process != caller.process then Refused(PermissionDenied)
    else match s.fds[i].target
      case IoFunc(_, _) => Functions
      case FileNode(node) =>
        if node !in s.nodes then Refused(FileNotFound)
        else if !MayWrite(s.nodes[node], caller.user) then Refused(PermissionDenied)
        else if s.nodes[node].kind != File then Refused(IllegalMode)
        else Granted(node)
  }

  /** Record i is the first with this id. */
  predicate FirstWithId(fds: seq<Descriptor>, id: nat, i: nat) {
    i < |fds| && fds[i].id == id && forall j :: 0 <= j < i ==> fds[j].id != id
  }

  /** READ and WRITE get through to a file exactly if the descriptor belongs to the
      caller's user and process, both, and its node is a file with the write bit in the
      digit for that user. */
  lemma GrantedIff(s: System, fd: nat, caller: Caller, node: Ptr)
    ensures Check(s, fd, caller) == Granted(node) <==>
      exists i: nat :: FirstWithId(s.fds, fd, i) && Opened(s, s.fds[i], caller, node)
  {
    var i := Lookup(s.fds, fd, 0);
    if i < |s.fds| { RefusedIff(s, fd, caller, i); }
    if k: nat :| FirstWithId(s.fds, fd, k) && Opened(s, s.fds[k], caller, node) {
      RefusedIff(s, fd, caller, k);
    }
  }

  /** This caller's descriptor of a file with the write bit for its user. */
  ghost predicate Opened(s: System, d: Descriptor, caller: Caller, node: Ptr) {
    && d.target == FileNode(node) && d.user == caller.user && d.process == caller.process
    && node in s.nodes && s.nodes[node].kind == File && HasWriteBit(DigitFor(s.nodes[node], caller.user))
  }

  lemma FirstIs(fds: seq<Descriptor>, id: nat, i: nat)
    ensures FirstWithId(fds, id, i) <==> i < |fds| && Lookup(fds, id, 0) == i
  {
  }

  /** And which fault gives which error, the first that applies: no such id, somebody
      else's descriptor, a node that is gone, no write bit, no file. */
  lemma RefusedIff(s: System, fd: nat, caller: Caller, i: nat)
    requires FirstWithId(s.fds, fd, i)
    ensures var d, a := s.fds[i], Check(s, fd, caller);
      if d.user != caller.user || d.process != caller.process then a == Refused(PermissionDenied)
      else if d.target.IoFunc? then a == Functions
      else if d.target.node !in s.nodes then a == Refused(FileNotFound)
      else if !HasWriteBit(DigitFor(s.nodes[d.target.node], caller.user)) then a == Refused(PermissionDenied)
      else if s.nodes[d.target.node].kind == Dir then a == Refused(IllegalMode)
      else a == Granted(d.target.node)
  {
    FirstIs(s.fds, fd, i);
    if s.fds[i].target.FileNode? && s.fds[i].target.node in s.nodes {
      MayWriteIs(s.nodes[s.fds[i].target.node], caller.user);
    }
  }

  lemma UnknownId(s: System, fd: nat, caller: Caller)
    ensures Check(s, fd, caller) == Refused(FdNotFound) <==> forall i :: 0 <= i < |s.fds| ==> s.fds[i].id != fd
  {
  }

  /** The bytes a WRITE takes from the user buffer. */
  function Taken(bytes: seq<int>, count: nat): seq<int> {
    if count % UINT32 <= |bytes| then bytes[..count % UINT32] else bytes
  }

  /** The bytes a READ puts into the user buffer, before the terminator. */
  function ReadBytes(s: System, c: Call, caller: Caller): seq<int>
    requires c.Read? && Check(s, c.fd, caller).Granted?
  {
    var data := s.nodes[Check(s, c.fd, caller).node].data;
    var n := ReadCount(|data|, c.count % UINT32);
    if n <= |data| then data[..n] else data
  }

  function Handle(s: System, c: Call, caller: Caller): (System, Result) {
    match c
    case Read(fd, count, io) =>
      (match Check(s, fd, caller)
       case Refused(code) => (s, Fail(code))
       case Functions => (s, Give(io))
       case Granted(node) =>
         (s, Give(AsWord(ReadCount(|s.nodes[node].data|, count % UINT32)))))
    case Write(fd, bytes, count) =>
      (match Check(s, fd, caller)
       case Refused(code) => (s, Fail(code))
       case Functions => (s, Fail(Ok))
       case Granted(node) =>
         (s.(nodes := s.nodes[node := s.nodes[node].(data := Taken(bytes, count))]), Fail(Ok)))
    case Open(path) =>
      var node := Resolve(s.nodes, s.root, path, s.root);
      if node == NULL then (s, Fail(FileNotFound))
      else (System(s.fds + [Descriptor(s.counter, FileNode(node), caller.user, caller.process)],
                   (s.counter + 1) % WORD, s.nodes, s.root),
            Give(s.counter))
    case Other => (s, Fail(IllegalOperation))
  }

  /** Which call fails with which code: OPEN only for a path that leads nowhere, READ and
      WRITE for the fault found, a number that is no call always. Nothing changes then,
      and rax is 0. */
  lemma FailuresAre(s: System, c: Call, caller: Caller)
    ensures var (t, r) := Handle(s, c, caller);
      && (r.code != Ok ==> t == s && r.rax == 0 && !r.direct)
      && (c.Other? ==> r.code == IllegalOperation)
      && (c.Open? ==> r.code == if Resolve(s.nodes, s.root, c.path, s.root) == NULL then FileNotFound else Ok)
      && (c.Read? || c.Write? ==> match Check(s, c.fd, caller) case Refused(code) => r.code == code case _ => r.code == Ok)
      && (r.direct <==> r.code == Ok && !c.Write?)
  {
  }

  /** What the kernel relies on in the user's registers: the buffer is as long as the
      count says, a path is a string the resolver's token buffer can hold, and a read
      of a file with contents asks for at least one byte. */
  predicate Sound(s: System, c: Call, caller: Caller) {
    match c
    case Read(fd, count, _) =>
      var a := Check(s, fd, caller);
      a.Granted? ==> |s.nodes[a.node].data| < UINT32 && (s.nodes[a.node].data == [] || count % UINT32 > 0)
    case Write(_, bytes, count) => count % UINT32 <= |bytes|
    case Open(path) => NUL !in path && ShortComponents(Relative(path))
    case Other => true
  }

  class Kernel {
    const fs: FileSystem
    const table: FdTable

    constructor (fs: FileSystem, table: FdTable)
      ensures this.fs == fs && this.table == table
    {
      this.fs, this.table := fs, table;
    }

    ghost predicate Valid()
      reads this, fs, table, table.spine
    {
      fs.Valid({}) && fs.root in fs.nodes && table.Valid()
    }

    ghost function State(): System
      reads this, fs, table, table.spine
    {
      System(Infos(table.spine), table.idCounter, fs.nodes, fs.root)
    }

    /** The common prefix of cases 0 and 1. */
    method CheckAccess(fdId: nat, caller: Caller) returns (a: Access)
      requires Valid()
      ensures a == Check(State(), fdId, caller)
      ensures a.Granted? ==> a.node in fs.nodes
    {
      var fd := table.GetFdFromId(fdId);
      if fd == null { return Refused(FdNotFound); }
      if fd.info.user != caller.user || fd.info.process != caller.process { return Refused(PermissionDenied); }
      if fd.info.target.IoFunc? { return Functions; }
      var node := fd.info.target.node;
      if node !in fs.nodes { return Refused(FileNotFound); }
      if !MayWrite(fs.nodes[node], caller.user) { return Refused(PermissionDenied); }
      if fs.nodes[node].kind != File { return Refused(IllegalMode); }
      return Granted(node);
    }

    /** `buffer` is where READ delivers its bytes. */
    method HandleSyscall(c: Call, caller: Caller, buffer: array<int>) returns (r: Result)
      requires Valid() && Sound(State(), c, caller)
      requires c.Read? ==> c.count % UINT32 <= buffer.Length
      modifies fs`nodes, table, table.spine, buffer
      ensures Valid()
      ensures (State(), r) == Handle(old(State()), c, caller)
      ensures c.Read? && Check(old(State()), c.fd, caller).Granted? && c.count % UINT32 > 0 ==>
        var d := ReadBytes(old(State()), c, caller);
        |d| < c.count % UINT32 && buffer[..|d|] == d && buffer[|d|] == 0
    {
      match c
      case Read(fd, count, io) =>
        var a := CheckAccess(fd, caller);
        match a {
          case Refused(code) => return Fail(code);
          case Functions => return Give(io);
          case Granted(node) =>
            var n := FsRead(fs.nodes[node].data, buffer, count % UINT32);
            return Give(AsWord(n));
        }
      case Write(fd, bytes, count) =>
        var a := CheckAccess(fd, caller);
        match a {
          case Refused(code) => return Fail(code);
          case Functions => return Fail(Ok);
          case Granted(node) =>
            DataKeepsTree(fs.nodes, fs.depth, node, bytes[..count % UINT32]);
            fs.nodes := fs.nodes[node := fs.nodes[node].(data := bytes[..count % UINT32])];
            return Fail(Ok);
        }
      case Open(path) =>
        var node := EmulatedFsResolve(fs, path, fs.root, {});
        if node == NULL { return Fail(FileNotFound); }
        var fd := table.CreateNewFsnodeFd(node, caller.user, caller.process);
        return Give(fd.info.id);
      case Other =>
        return Fail(IllegalOperation);
    }
  }

  /** Contents do not matter to the tree. */
  lemma DataKeepsTree(s: Store, depth: map<Ptr, nat>, n: Ptr, data: seq<int>)
    requires Tree(s, depth, {}) && n in s
    ensures Tree(s[n := s[n].(data := data)], depth, {})
  {
    var t := s[n := s[n].(data := data)];
    forall d | d in t
      ensures Sized(t[d]) && ChildrenAgree(t, d) && ParentStored(t, d) && Listed(t, d) && Deeper(t, depth, d)
    {
      NodeOk(s, depth, {}, d);
      assert Children(t[d]) == Children(s[d]);
      if s[d].parent != NULL {
        assert Children(t[s[d].parent]) == Children(s[s[d].parent]);
      }
    }
  }

  // ----- Whole runs -----

  datatype Event = Event(call: Call, caller: Caller)

  function Run(s: System, es: seq<Event>): System {
    if es == [] then s else
    var before := Run(s, es[..|es| - 1]);
    Handle(before, es[|es| - 1].call, es[|es| - 1].caller).0
  }

  /** Ids strictly increase along the list and stay below the counter. */
  ghost predicate IdsOrdered(s: System) {
    && (forall i, j :: 0 <= i < j < |s.fds| ==> s.fds[i].id < s.fds[j].id)
    && (forall i :: 0 <= i < |s.fds| ==> s.fds[i].id < s.counter)
  }

  /** The descriptor list only ever grows at its end, in any run. */
  lemma {:induction false} AppendOnly(s: System, es: seq<Event>)
    ensures s.fds <= Run(s, es).fds && Run(s, es).root == s.root
  {
    if es != [] {
      AppendOnly(s, es[..|es| - 1]);
    }
  }

  lemma StepKeepsIds(s: System, c: Call, caller: Caller)
    requires IdsOrdered(s) && s.counter + 1 < WORD
    ensures IdsOrdered(Handle(s, c, caller).0)
    ensures s.counter <= Handle(s, c, caller).0.counter <= s.counter + 1
  {
  }

  /** While the 64-bit counter does not wrap, ids stay unique and increasing. */
  lemma {:induction false} RunKeepsIds(s: System, es: seq<Event>)
    requires IdsOrdered(s) && s.counter + |es| < WORD
    ensures IdsOrdered(Run(s, es)) && Run(s, es).counter <= s.counter + |es|
  {
    if es != [] {
      RunKeepsIds(s, es[..|es| - 1]);
      StepKeepsIds(Run(s, es[..|es| - 1]), es[|es| - 1].call, es[|es| - 1].caller);
    }
  }

  lemma OrderedLookup(s: System, i: nat)
    requires IdsOrdered(s) && i < |s.fds|
    ensures Lookup(s.fds, s.fds[i].id, 0) == i
  {
    assert forall j :: 0 <= j < i ==> s.fds[j].id < s.fds[i].id;
  }

  /** An id handed out by OPEN names that very record for the rest of any run. */
  lemma {:induction false} OpenedIdIsStable(s: System, path: string, caller: Caller, es: seq<Event>)
    requires IdsOrdered(s) && s.counter + 1 + |es| < WORD
    requires Handle(s, Open(path), caller).1.direct
    ensures var (s1, r) := Handle(s, Open(path), caller);
      var later := Run(s1, es); var i := Lookup(later.fds, s.counter, 0);
      r == Give(s.counter) && i == |s.fds| < |later.fds| &&
      later.fds[i] == Descriptor(s.counter, FileNode(Resolve(s.nodes, s.root, path, s.root)), caller.user, caller.process)
  {
    var s1 := Handle(s, Open(path), caller).0;
    StepKeepsIds(s, Open(path), caller);
    RunKeepsIds(s1, es);
    AppendOnly(s1, es);
    var later := Run(s1, es);
    assert later.fds[|s.fds|] == s1.fds[|s.fds|];
    OrderedLookup(later, |s.fds|);
  }

  /** This event is a WRITE to p by the pair that opened the descriptor it names,
      which has the write bit. */
  ghost predicate WritesTo(s: System, e: Event, p: Ptr) {
    && e.call.Write?
    && var i := Lookup(s.fds, e.call.fd, 0);
       i < |s.fds| && Opened(s, s.fds[i], e.caller, p)
  }

  /** Same tree: only the contents of files may differ. */
  ghost predicate SameShape(a: Store, b: Store) {
    a.Keys == b.Keys && forall p :: p in a ==> b[p] == a[p].(data := b[p].data)
  }

  lemma StepChangesOnlyByWrite(s: System, e: Event, p: Ptr)
    requires p in s.nodes
    ensures SameShape(s.nodes, Handle(s, e.call, e.caller).0.nodes)
    ensures Handle(s, e.call, e.caller).0.nodes[p].data != s.nodes[p].data ==> WritesTo(s, e, p)
  {
    MayWriteIs(s.nodes[p], e.caller.user);
  }

  /** Over any run the tree keeps its shape, and a file's contents differ from the
      start only if some event of the run was such a WRITE to it. */
  lemma {:induction false} ChangedOnlyByOpener(s: System, es: seq<Event>, p: Ptr)
    requires p in s.nodes
    ensures SameShape(s.nodes, Run(s, es).nodes)
    ensures Run(s, es).nodes[p].data != s.nodes[p].data ==>
      exists k :: 0 <= k < |es| && WritesTo(Run(s, es[..k]), es[k], p)
  {
    if es != [] {
      var init, e := es[..|es| - 1], es[|es| - 1];
      ChangedOnlyByOpener(s, init, p);
      StepChangesOnlyByWrite(Run(s, init), e, p);
      if Run(s, init).nodes[p].data != s.nodes[p].data {
        var k :| 0 <= k < |init| && WritesTo(Run(s, init[..k]), init[k], p);
        assert init[..k] == es[..k];
        assert WritesTo(Run(s, es[..k]), es[k], p);
      } else if Run(s, es).nodes[p].data != s.nodes[p].data {
        assert WritesTo(Run(s, es[..|es| - 1]), es[|es| - 1], p);
      }
    }
  }

  lemma {:induction false} FindSame(a: Store, b: Store, d: Ptr, name: string, i: nat)
    requires SameShape(a, b) && d in a
    ensures FindFrom(a, d, name, i) == FindFrom(b, d, name, i)
    decreases a[d].count - i
  {
    assert b[d].slots == a[d].slots && b[d].count == a[d].count;
    if i < a[d].count {
      FindSame(a, b, d, name, i + 1);
    }
  }

  lemma {:induction false} WalkSame(a: Store, b: Store, cur: Ptr, path: string)
    requires SameShape(a, b)
    ensures Walk(a, cur, path) == Walk(b, cur, path)
    decreases |path|
  {
    var k := Cut(path, '/');
    if cur in a { FindSame(a, b, cur, path[..k], 0); }
    if k < |path| && Step(a, cur, path[..k]) != NULL {
      WalkSame(a, b, Step(a, cur, path[..k]), path[k + 1..]);
    }
  }

  /** So a path opened before and after any run leads to the same node. */
  lemma PathsKeepMeaning(s: System, es: seq<Event>, path: string, current: Ptr)
    requires s.root in s.nodes
    ensures var t := Run(s, es);
      Resolve(t.nodes, t.root, path, current) == Resolve(s.nodes, s.root, path, current)
  {
    ChangedOnlyByOpener(s, es, s.root);
    AppendOnly(s, es);
    var t := Run(s, es);
    if path != "" && path[0] == '/' {
      WalkSame(s.nodes, t.nodes, s.root, path[1..]);
    } else {
      WalkSame(s.nodes, t.nodes, current, path);
    }
  }

  /** A list that has only grown finds what it found. */
  lemma {:induction false} LookupGrown(a: seq<Descriptor>, b: seq<Descriptor>, id: nat, from: nat)
    requires a <= b && from <= |a| && Lookup(a, id, from) < |a|
    ensures Lookup(b, id, from) == Lookup(a, id, from)
    decreases |a| - from
  {
    if a[from].id != id {
      LookupGrown(a, b, id, from + 1);
    }
  }

  /** Access once granted stays granted, for the same node. */
  lemma {:induction false} AccessLasts(s: System, es: seq<Event>, fd: nat, caller: Caller)
    requires Check(s, fd, caller).Granted?
    ensures Check(Run(s, es), fd, caller) == Check(s, fd, caller)
  {
    AppendOnly(s, es);
    LookupGrown(s.fds, Run(s, es).fds, fd, 0);
    ChangedOnlyByOpener(s, es, Check(s, fd, caller).node);
  }

  /** Nobody in es writes to p. */
  ghost predicate NoWrite(s: System, es: seq<Event>, p: Ptr) {
    forall k :: 0 <= k < |es| ==> !WritesTo(Run(s, es[..k]), es[k], p)
  }

  /** The state a WRITE through an open descriptor leaves. */
  lemma WriteStores(s: System, fd: nat, bytes: seq<int>, count: nat, caller: Caller)
    requires Check(s, fd, caller).Granted? && count % UINT32 <= |bytes|
    ensures var (s1, w) := Handle(s, Write(fd, bytes, count), caller);
      var node := Check(s, fd, caller).node;
      w == Fail(Ok) && Check(s1, fd, caller) == Granted(node) && s1.nodes[node].data == bytes[..count % UINT32]
  {
  }

  /** What a WRITE of s bytes stored, a later READ through the same descriptor with
      maximum m delivers, up to min(s, m - 1) bytes, whatever happened in between so
      long as nobody wrote to that file. */
  lemma {:induction false} WriteThenRead(s: System, fd: nat, bytes: seq<int>, count: nat, es: seq<Event>, max: nat, io: int, caller: Caller)
    requires Check(s, fd, caller).Granted? && count % UINT32 <= |bytes| && max % UINT32 > 0
    requires NoWrite(Handle(s, Write(fd, bytes, count), caller).0, es, Check(s, fd, caller).node)
    ensures var later := Run(Handle(s, Write(fd, bytes, count), caller).0, es);
      var m := max % UINT32; var size := count % UINT32;
      var n := if size < m then size else m - 1;
      Check(later, fd, caller).Granted? &&
      ReadBytes(later, Read(fd, max, io), caller) == bytes[..n] &&
      Handle(later, Read(fd, max, io), caller) == (later, Give(AsWord(n)))
  {
    var node, s1 := Check(s, fd, caller).node, Handle(s, Write(fd, bytes, count), caller).0;
    WriteStores(s, fd, bytes, count, caller);
    AccessLasts(s1, es, fd, caller);
    ChangedOnlyByOpener(s1, es, node);
    assert Run(s1, es).nodes[node].data == bytes[..count % UINT32];
    ReadSafeIff(count % UINT32, max % UINT32);
  }

  // ----- Where access comes from -----

  /** This event is an OPEN that leads to p. */
  ghost predicate Opens(s: System, e: Event, p: Ptr) {
    e.call.Open? && p != NULL && Resolve(s.nodes, s.root, e.call.path, s.root) == p
  }

  /** Event j of the run is the OPEN that made descriptor d. */
  ghost predicate MadeBy(s: System, es: seq<Event>, j: nat, d: Descriptor)
    requires j < |es|
  {
    && d.target.FileNode? && Opens(Run(s, es[..j]), es[j], d.target.node)
    && d.id == Run(s, es[..j]).counter
    && d.user == es[j].caller.user && d.process == es[j].caller.process
  }

  /** Starting without descriptors, every one comes from an OPEN of the run. */
  lemma {:induction false} DescriptorOrigin(s: System, es: seq<Event>, i: nat) returns (j: nat)
    requires s.fds == [] && i < |Run(s, es).fds|
    ensures j < |es| && MadeBy(s, es, j, Run(s, es).fds[i])
  {
    var init, e := es[..|es| - 1], es[|es| - 1];
    var before := Run(s, init);
    if i < |before.fds| {
      j := DescriptorOrigin(s, init, i);
      assert init[..j] == es[..j] && init[j] == es[j];
      StepAppends(before, e, i);
    } else {
      j := |es| - 1;
      StepAppends(before, e, i);
    }
  }

  lemma StepAppends(s: System, e: Event, i: nat)
    requires i < |Handle(s, e.call, e.caller).0.fds|
    ensures i < |s.fds| ==> Handle(s, e.call, e.caller).0.fds[i] == s.fds[i]
    ensures i >= |s.fds| ==> e.call.Open? && var p := Resolve(s.nodes, s.root, e.call.path, s.root);
      p != NULL && Handle(s, e.call, e.caller).0.fds[i] == Descriptor(s.counter, FileNode(p), e.caller.user, e.caller.process)
  {
  }

  /** Starting without descriptors, a file whose contents have changed was opened by
      some caller who then, in a later event, wrote to the id that OPEN returned. */
  lemma {:induction false} ChangedOnlyAfterOpen(s: System, es: seq<Event>, p: Ptr) returns (j: nat, k: nat)
    requires s.fds == [] && p in s.nodes
    requires p in Run(s, es).nodes ==> Run(s, es).nodes[p].data != s.nodes[p].data
    ensures j < k < |es| && Opens(Run(s, es[..j]), es[j], p) && es[j].caller == es[k].caller
    ensures es[k].call.Write? && WritesTo(Run(s, es[..k]), es[k], p)
    ensures Handle(Run(s, es[..j]), es[j].call, es[j].caller).1 == Give(es[k].call.fd)
  {
    ChangedOnlyByOpener(s, es, p);
    k :| 0 <= k < |es| && WritesTo(Run(s, es[..k]), es[k], p);
    var at := Run(s, es[..k]);
    var i := Lookup(at.fds, es[k].call.fd, 0);
    j := DescriptorOrigin(s, es[..k], i);
    assert es[..k][..j] == es[..j] && es[..k][j] == es[j];
  }
}
