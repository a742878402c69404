/** How the child process, between fork and exec, gives every descriptor the
    file that was requested for it. */
module ChildFds {
  import opened Common

  /** An open file: one that the parent had open already, or one that the
      child opened for its descriptor `fd`. */
  datatype File =
    | Inherited(id: nat)
    | Opened(fd: nat, path: string, mode: Mode)

  datatype Mode = ReadOnly | ReadWrite | Truncate | Append

  datatype Descriptor = Descriptor(file: File, cloexec: bool)

  /** The descriptor table of the child, with the system calls on it. Calls
      that make a new descriptor may fail; they return -1 then. */
  class FdTable {
    var table: map<int, Descriptor>
    var refused: bool  // a call failed although its arguments were right

    constructor (table: map<int, Descriptor>)
      ensures this.table == table && !refused
    {
      this.table, refused := table, false;
    }

    /** The lowest free descriptor from `from` on. */
    method LowestFree(from: nat) returns (fd: nat)
      ensures fd >= from && fd !in table
      ensures forall i | from <= i < fd :: i in table
    {
      fd := from;
      ghost var taken := set i | i in table.Keys && i >= from;
      while fd in table
        invariant fd >= from && forall i | from <= i < fd :: i in table
        invariant taken == set i | i in table.Keys && i >= fd
        decreases taken
      {
        taken := taken - {fd};
        fd := fd + 1;
      }
    }

    /** open(2). A file that is opened stays open over exec. */
    method Open(file: File) returns (fd: int)
      modifies this
      ensures refused == (old(refused) || fd == -1)
      ensures fd == -1 ==> table == old(table)
      ensures fd != -1 ==> fd >= 0 && fd !in old(table) && (forall i | 0 <= i < fd :: i in old(table))
      ensures fd != -1 ==> table == old(table)[fd := Descriptor(file, false)]
    {
      var fails: bool :| true;
      if fails {
        refused := true;
        return -1;
      }
      fd := LowestFree(0);
      table := table[fd := Descriptor(file, false)];
    }

    /** fcntl(use, F_DUPFD, min) */
    method DupFrom(use: int, min: nat) returns (fd: int)
      modifies this
      ensures refused == (old(refused) || (use in old(table) && fd == -1))
      ensures use !in old(table) ==> fd == -1
      ensures fd == -1 ==> table == old(table)
      ensures fd != -1 ==> fd >= min && fd !in old(table) && use in old(table)
      ensures fd != -1 ==> table == old(table)[fd := Descriptor(old(table)[use].file, false)]
    {
      var fails: bool :| true;
      if fails || use !in table {
        refused := refused || use in table;
        return -1;
      }
      fd := LowestFree(min);
      table := table[fd := Descriptor(table[use].file, false)];
    }

    /** dup2(use, to): what was open at `to` is closed. */
    method Dup2(use: int, to: nat) returns (fd: int)
      modifies this
      ensures refused == (old(refused) || (use in old(table) && fd == -1))
      ensures use !in old(table) ==> fd == -1
      ensures fd == -1 ==> table == old(table)
      ensures fd != -1 ==> fd == to && use in old(table)
      ensures fd != -1 ==>
        table == if use == to then old(table) else old(table)[to := Descriptor(old(table)[use].file, false)]
    {
      var fails: bool :| true;
      if fails || use !in table {
        refused := refused || use in table;
        return -1;
      }
      if use != to { table := table[to := Descriptor(table[use].file, false)]; }
      fd := to;
    }

    /** fcntl(fd, F_SETFD): do not close fd on exec. */
    method KeepOverExec(fd: int)
      modifies this
      ensures refused == old(refused)
      ensures table == if fd in old(table) then old(table)[fd := Descriptor(old(table)[fd].file, false)] else old(table)
    {
      if fd in table { table := table[fd := Descriptor(table[fd].file, false)]; }
    }

    method Close(fd: int) returns (ok: bool)
      modifies this
      ensures refused == old(refused)
      ensures table == old(table) - {fd} && ok == (fd in old(table))
    {
      ok := fd in table;
      table := table - {fd};
    }
  }

  // ----- What is requested -----

  /** One pair of `pipes`: the end that the parent keeps, and the one that the
      child is to use. Negative if there is none. */
  datatype Ends = Ends(parent: int, child: int)

  /** Everything the child starts from. `connections` are the strings among
      the requests, if they are strings. */
  datatype Start = Start(
    table: map<int, Descriptor>, ends: seq<Ends>, connections: seq<Option<string>>, errorFd: int)
  {
    ghost predicate Valid() {
      && |connections| == |ends| >= 3
      && (forall f | 0 <= f < |ends| && ends[f].child >= 0 ::
            && ends[f].child in table
            && (forall g | 0 <= g < |ends| :: ends[f].child != ends[g].parent)
            && ends[f].child != errorFd)
      && (forall f | 0 <= f < |ends| && ends[f].parent >= 0 ::
            && ends[f].parent in table
            && (forall g | 0 <= g < |ends| && g != f :: ends[f].parent != ends[g].parent)
            && ends[f].parent != errorFd)
      && errorFd >= 0 && errorFd in table && table[errorFd].cloexec
    }

    /** The file that descriptor f of the new program is to be. */
    function Requested(f: nat): Option<File>
      requires Valid() && f < |ends|
      decreases f
    {
      if ends[f].child >= 0 then Some(table[ends[f].child].file)
      else if f == 2 && connections[f] == Some("2>&1") then Requested(1)
      else if f >= 3 then None
      else Some(FileFor(f, connections[f]))
    }
  }

  /** The file to open for one of the standard streams. */
  function FileFor(fd: nat, name: Option<string>): File {
    match name
    case None => Opened(fd, "/dev/null", if fd == 0 then ReadOnly else ReadWrite)
    case Some(s) =>
      if fd == 0 then Opened(fd, s, ReadOnly)
      else if |s| >= 2 && s[0] == '>' && s[1] == '>' then Opened(fd, s[2..], Append)
      else Opened(fd, s, Truncate)
  }

  /** Is f done, that is, what was requested and open over exec? */
  ghost predicate Done(s: Start, table: map<int, Descriptor>, f: nat)
    requires s.Valid() && f < |s.ends|
  {
    s.Requested(f).Some? ==> f in table && table[f] == Descriptor(s.Requested(f).value, false)
  }

  /** Is the source of f open, at or above f? */
  ghost predicate Ready(s: Start, table: map<int, Descriptor>, f: nat, use: int)
    requires s.Valid() && f < |s.ends|
  {
    if s.ends[f].child < 0 then use < 0
    else
      && use >= f && use in table && table[use].file == s.table[s.ends[f].child].file
      && use != s.errorFd && forall g | 0 <= g < |s.ends| :: use != s.ends[g].parent
  }

  /** What a descriptor is to be: the child's end of its pipe; a file, which is
      opened for reading for the standard input, and emptied for the others,
      unless its name begins with ">>"; or nothing in particular. */
  lemma DoneIs(s: Start, table: map<int, Descriptor>, f: nat)
    requires s.Valid() && f < |s.ends| && Done(s, table, f)
    ensures s.ends[f].child >= 0 ==> f in table && table[f] == Descriptor(s.table[s.ends[f].child].file, false)
    ensures s.ends[f].child < 0 && f >= 3 ==> s.Requested(f).None?
    ensures s.ends[f].child < 0 && f < 3 && s.connections[f].None? ==>
      f in table && table[f] == Descriptor(Opened(f, "/dev/null", if f == 0 then ReadOnly else ReadWrite), false)
    ensures s.ends[0].child < 0 && f == 0 && s.connections[0].Some? ==>
      0 in table && table[0] == Descriptor(Opened(0, s.connections[0].value, ReadOnly), false)
    ensures forall path | s.ends[f].child < 0 && 1 <= f < 3 && s.connections[f] == Some(">>" + path) ::
      f in table && table[f] == Descriptor(Opened(f, path, Append), false)
    ensures forall path | s.ends[f].child < 0 && 1 <= f < 3 && s.connections[f] == Some(path) ::
      ">>" <= path || (f == 2 && path == "2>&1")
      || (f in table && table[f] == Descriptor(Opened(f, path, Truncate), false))
    ensures s.ends[f].child < 0 && f == 2 && s.connections[2] == Some("2>&1") ==>
      s.Requested(2) == s.Requested(1) && 2 in table && Some(table[2].file) == s.Requested(1)
  {
    forall path | s.ends[f].child < 0 && 1 <= f < 3 && s.connections[f] == Some(">>" + path)
      ensures f in table && table[f] == Descriptor(Opened(f, path, Append), false)
    {
      var name := ">>" + path;
      assert name[0] == '>' && name[1] == '>' && name[2..] == path;
    }
  }

  // ----- The loops -----

  /** Loop 1: a source below its target is moved out of the way, since its
      number is the target of an earlier one. */
  method MoveUp(k: FdTable, pipes: array<Ends>, s: Start, minFd: nat) returns (ok: bool)
    requires s.Valid() && pipes[..] == s.ends && k.table == s.table && minFd <= |s.ends| && !k.refused
    modifies k, pipes
    ensures ok == !k.refused
    ensures ok ==> forall f | minFd <= f < |s.ends| :: Ready(s, k.table, f, pipes[f].child)
    ensures forall f | 0 <= f < |s.ends| :: pipes[f].parent == s.ends[f].parent
    ensures forall d | d in s.table :: d in k.table && k.table[d] == s.table[d]
    ensures forall d | d in k.table && d !in s.table :: d >= |s.ends|
  {
    var n := pipes.Length;
    for fd := minFd to n
      invariant !k.refused
      invariant forall f | minFd <= f < fd :: Ready(s, k.table, f, pipes[f].child)
      invariant forall f | fd <= f < n :: pipes[f] == s.ends[f]
      invariant forall f | 0 <= f < n :: pipes[f].parent == s.ends[f].parent
      invariant forall d | d in s.table :: d in k.table && k.table[d] == s.table[d]
      invariant forall d | d in k.table && d !in s.table :: d >= n
    {
      var use := pipes[fd].child;
      if use < 0 || use >= fd { continue; }
      var moved := k.DupFrom(use, n);
      pipes[fd] := pipes[fd].(child := moved);
      if moved == -1 { return false; }
    }
    ok := true;
  }

  /** The error descriptor, until it is the target of a request itself. */
  ghost predicate ErrorFdKept(s: Start, table: map<int, Descriptor>, minFd: nat, fd: nat)
    requires s.Valid() && fd <= |s.ends|
  {
    && s.errorFd in table
    && (!(minFd <= s.errorFd < fd && s.Requested(s.errorFd).Some?) ==> table[s.errorFd] == s.table[s.errorFd])
  }

  /** What holds before descriptor fd is installed. */
  ghost predicate Installed(s: Start, pipes: seq<Ends>, table: map<int, Descriptor>, minFd: nat, fd: nat) {
    && s.Valid() && |pipes| == |s.ends| && fd <= |s.ends| && (minFd == 0 || minFd == 3) && minFd <= fd
    && (forall f | 0 <= f < |s.ends| :: pipes[f].parent == s.ends[f].parent)
    && (forall f | fd <= f < |s.ends| :: Ready(s, table, f, pipes[f].child))
    && (forall f | minFd <= f < fd :: Done(s, table, f))
    && ErrorFdKept(s, table, minFd, fd)
  }

  /** May d be closed once fd is installed? It is no target, and no source
      that is still needed. */
  ghost predicate Unneeded(s: Start, pipes: seq<Ends>, d: int, fd: nat)
    requires s.Valid() && |pipes| == |s.ends|
  {
    d >= |s.ends| ==> d != s.errorFd && forall f | fd < f < |s.ends| :: pipes[f].child != d
  }

  /** A new descriptor does no harm. */
  lemma MoreDescriptors(
    s: Start, pipes: seq<Ends>, table: map<int, Descriptor>, table': map<int, Descriptor>, minFd: nat, fd: nat)
    requires Installed(s, pipes, table, minFd, fd)
    requires forall d | d in table :: d in table' && table'[d] == table[d]
    ensures Installed(s, pipes, table', minFd, fd)
  {
    forall f | fd <= f < |s.ends| ensures Ready(s, table', f, pipes[f].child) {
      assert Ready(s, table, f, pipes[f].child);
    }
    forall f | minFd <= f < fd ensures Done(s, table', f) {
      assert Done(s, table, f);
    }
  }

  /** Installing fd changes only fd itself, and what is closed is not needed. */
  lemma OneMore(
    s: Start, pipes: seq<Ends>, table: map<int, Descriptor>, table': map<int, Descriptor>,
    minFd: nat, fd: nat, close: int)
    requires Installed(s, pipes, table, minFd, fd) && fd < |s.ends|
    requires Unneeded(s, pipes, close, fd)
    requires forall d | d in table && d != fd && !(d == close >= |s.ends|) :: d in table' && table'[d] == table[d]
    requires Done(s, table', fd)
    requires s.Requested(fd).None? && fd in table ==> fd in table' && table'[fd] == table[fd]
    ensures Installed(s, pipes, table', minFd, fd + 1)
  {
    forall f | fd + 1 <= f < |s.ends| ensures Ready(s, table', f, pipes[f].child) {
      assert Ready(s, table, f, pipes[f].child);
    }
    forall f | minFd <= f < fd + 1 ensures Done(s, table', f) {
      if f < fd { assert Done(s, table, f); }
    }
  }

  /** The descriptor to use for fd, opening a file if there is none yet, and
      one that is to be closed afterwards. */
  method Source(k: FdTable, pipes: array<Ends>, s: Start, minFd: nat, fd: nat) returns (ok: bool, use: int, close: int)
    requires Installed(s, pipes[..], k.table, minFd, fd) && fd < |s.ends| && !k.refused
    modifies k
    ensures ok == !k.refused
    ensures ok ==> Installed(s, pipes[..], k.table, minFd, fd)
    ensures ok && use < 0 ==> s.Requested(fd).None?
    ensures ok && use >= 0 ==> use in k.table && s.Requested(fd) == Some(k.table[use].file)
    ensures ok && use >= 0 ==> Unneeded(s, pipes[..], close, fd)
    ensures forall d | d in old(k.table) :: d in k.table && k.table[d] == old(k.table)[d]
  {
    close, use := pipes[fd].parent, pipes[fd].child;
    ok := true;
    assert Ready(s, k.table, fd, use);
    if use >= 0 { return; }
    if fd == 2 && s.connections[fd] == Some("2>&1") {
      assert Done(s, k.table, 1);
      use := 1;
    } else if fd < 3 {
      use := k.Open(FileFor(fd, s.connections[fd]));
      if use == -1 { return false, use, close; }
      close := use;
      MoreDescriptors(s, pipes[..], old(k.table), k.table, minFd, fd);
      assert forall f | fd < f < |s.ends| :: Ready(s, old(k.table), f, pipes[f].child);
    }
  }

  /** Loop 2, for one descriptor: give fd the file it is to have. */
  method Install(k: FdTable, pipes: array<Ends>, s: Start, minFd: nat, fd: nat) returns (ok: bool)
    requires Installed(s, pipes[..], k.table, minFd, fd) && fd < |s.ends| && !k.refused
    modifies k
    ensures ok == !k.refused
    ensures ok ==> Installed(s, pipes[..], k.table, minFd, fd + 1)
    ensures forall d | 0 <= d < fd && d in old(k.table) :: d in k.table && k.table[d] == old(k.table)[d]
  {
    var use, close;
    ok, use, close := Source(k, pipes, s, minFd, fd);
    if !ok { return; }
    ghost var before := k.table;
    if use >= 0 {
      if fd == use {
        k.KeepOverExec(use);
      } else {
        var d := k.Dup2(use, fd);
        if d == -1 { return false; }
      }
      if close >= pipes.Length { var _ := k.Close(close); }
      OneMore(s, pipes[..], before, k.table, minFd, fd, close);
    } else {
      OneMore(s, pipes[..], before, k.table, minFd, fd, -1);
    }
  }

  /** Loop 2. */
  method InstallAll(k: FdTable, pipes: array<Ends>, s: Start, minFd: nat) returns (ok: bool)
    requires Installed(s, pipes[..], k.table, minFd, minFd) && !k.refused
    modifies k
    ensures ok == !k.refused
    ensures ok ==> Installed(s, pipes[..], k.table, minFd, |s.ends|)
    ensures forall d | 0 <= d < minFd && d in old(k.table) :: d in k.table && k.table[d] == old(k.table)[d]
  {
    for fd := minFd to pipes.Length
      invariant Installed(s, pipes[..], k.table, minFd, fd) && !k.refused
      invariant forall d | 0 <= d < minFd && d in old(k.table) :: d in k.table && k.table[d] == old(k.table)[d]
    {
      ok := Install(k, pipes, s, minFd, fd);
      if !ok { return; }
    }
    ok := true;
  }

  /** Loop 3: close the sources that are no targets. */
  method CloseSources(k: FdTable, pipes: array<Ends>, minFd: nat, ghost errorFd: int)
    requires minFd <= pipes.Length
    requires forall f | minFd <= f < pipes.Length :: pipes[f].child != errorFd
    modifies k
    ensures k.refused == old(k.refused)
    ensures forall d | d in k.table :: d in old(k.table) && k.table[d] == old(k.table)[d]
    ensures forall d | d in old(k.table) && (d < pipes.Length || d == errorFd) ::
      d in k.table && k.table[d] == old(k.table)[d]
  {
    for fd := minFd to pipes.Length
      invariant k.refused == old(k.refused)
      invariant forall d | d in k.table :: d in old(k.table) && k.table[d] == old(k.table)[d]
      invariant forall d | d in old(k.table) && (d < pipes.Length || d == errorFd) ::
        d in k.table && k.table[d] == old(k.table)[d]
    {
      var use := pipes[fd].child;
      if use >= pipes.Length { var _ := k.Close(use); }
    }
  }

  /** A table without the descriptors from..to. */
  ghost function Without(t: map<int, Descriptor>, from: nat, to: nat): map<int, Descriptor> {
    map d | d in t && !(from <= d < to) :: t[d]
  }

  lemma WithoutNone(t: map<int, Descriptor>, from: nat)
    ensures Without(t, from, from) == t
  {
  }

  lemma WithoutOneMore(t: map<int, Descriptor>, from: nat, i: nat)
    requires from <= i
    ensures Without(t, from, i + 1) == Without(t, from, i) - {i}
    ensures i in Without(t, from, i) <==> i in t
  {
  }

  /** Loop 4: close from..to. */
  method CloseRange(k: FdTable, from: nat, to: nat)
    modifies k
    ensures k.refused == old(k.refused)
    ensures k.table == Without(old(k.table), from, to)
  {
    var i := from;
    WithoutNone(k.table, from);
    while i < to
      invariant i >= from && (i > from ==> i <= to) && k.refused == old(k.refused)
      invariant k.table == Without(old(k.table), from, i)
    {
      WithoutOneMore(old(k.table), from, i);
      var _ := k.Close(i);
      i := i + 1;
    }
  }

  /** Loop 5: close everything from `from` on. The loop does not know where
      the table ends, it stops at the first free number over 200. */
  method CloseUpward(k: FdTable, from: nat) returns (ghost stop: nat)
    modifies k
    ensures k.refused == old(k.refused)
    ensures stop > 200 && stop >= from && stop !in old(k.table)
    ensures forall i | from <= i < stop && i > 200 :: i in old(k.table)
    ensures k.table == Without(old(k.table), from, stop + 1)
  {
    var i := from;
    var more := true;
    ghost var t := k.table;
    WithoutNone(t, from);
    while more
      invariant k.refused == old(k.refused)
      invariant i >= from && (more || (i > from && i - 1 > 200 && i - 1 !in t))
      invariant k.table == Without(t, from, i)
      invariant forall j | from <= j < (if more then i else i - 1) && j > 200 :: j in t
      decreases more, if i <= 200 then 201 - i else 0, k.table.Keys
    {
      WithoutOneMore(t, from, i);
      var open := k.Close(i);
      if !open && i > 200 { more := false; }
      i := i + 1;
    }
    stop := i - 1;
  }

  /** Loops 3 to 5: only targets and the error descriptor are to stay. */
  method CloseAll(k: FdTable, pipes: array<Ends>, s: Start, minFd: nat) returns (ghost stop: nat, ghost open: set<int>)
    requires s.Valid() && pipes.Length == |s.ends| && minFd <= |s.ends|
    requires forall f | minFd <= f < pipes.Length :: pipes[f].child != s.errorFd
    requires s.errorFd in k.table
    modifies k
    ensures k.refused == old(k.refused)
    ensures stop > 200 && stop > s.errorFd && stop !in open
    ensures forall i | s.errorFd < i < stop && i > 200 :: i in open
    ensures forall d | d > s.errorFd :: d in k.table <==> d in open && d > stop
    ensures forall d | s.errorFd < d < |s.ends| && d in old(k.table) :: d in open
    ensures forall d | d in k.table :: d in old(k.table) && k.table[d] == old(k.table)[d]
    ensures forall d | d in old(k.table) && (d < |s.ends| || d == s.errorFd) && !(s.errorFd < d <= stop) :: d in k.table
    ensures forall d | d in k.table && d >= |s.ends| && s.errorFd >= |s.ends| :: d == s.errorFd || d > stop
  {
    CloseSources(k, pipes, minFd, s.errorFd);
    CloseRange(k, pipes.Length, s.errorFd);
    open := k.table.Keys;
    stop := CloseUpward(k, s.errorFd + 1);
  }

  /** Descriptors that the new program has. */
  ghost function AfterExec(table: map<int, Descriptor>): set<int> {
    set d | d in table && !table[d].cloexec
  }

  /** All of it. It fails only if the system refuses to make a descriptor,
      never because one is missing. A descriptor gets what was requested for it
      unless it is over the one that errors are reported on, and closed together
      with the others there, `open` up to the first number over 200 that is
      free. */
  method ChildInit(k: FdTable, pipes: array<Ends>, s: Start, minFd: nat)
    returns (ok: bool, ghost stop: nat, ghost open: set<int>)
    requires s.Valid() && pipes[..] == s.ends && k.table == s.table && !k.refused && (minFd == 0 || minFd == 3)
    modifies k, pipes
    ensures ok == !k.refused
    ensures ok ==> stop > 200 && stop > s.errorFd && stop !in open
    ensures ok ==> forall i | s.errorFd < i < stop && i > 200 :: i in open
    ensures ok ==> forall d | d > s.errorFd :: d in k.table <==> d in open && d > stop
    ensures ok ==> forall f | minFd <= f < |s.ends| && s.Requested(f).Some? ::
      && (f > s.errorFd ==> f in open)
      && (Done(s, k.table, f) <==> !(s.errorFd < f <= stop))
      && (f <= 200 ==> (Done(s, k.table, f) <==> f <= s.errorFd))
    ensures ok ==> forall f | 0 <= f < minFd && f in s.table && f <= s.errorFd ::
      f in k.table && k.table[f] == s.table[f]
    ensures ok ==>
      ((s.errorFd in k.table && k.table[s.errorFd] == s.table[s.errorFd])
        <==> !(minFd <= s.errorFd < |s.ends| && s.Requested(s.errorFd).Some?))
    ensures ok && s.errorFd >= |s.ends| ==> forall d | d in AfterExec(k.table) :: d < |s.ends| || d > stop
  {
    stop, open := 0, {};
    ok := MoveUp(k, pipes, s, minFd);
    if !ok { return; }
    assert forall f | minFd <= f < |s.ends| :: Ready(s, k.table, f, pipes[f].child);
    ok := InstallAll(k, pipes, s, minFd);
    if !ok { return; }
    ghost var installed := k.table;
    assert forall f | minFd <= f < |s.ends| :: Done(s, installed, f);
    stop, open := CloseAll(k, pipes, s, minFd);
    forall f | minFd <= f < |s.ends| && s.Requested(f).Some?
      ensures Done(s, k.table, f) <==> !(s.errorFd < f <= stop)
      ensures f > s.errorFd ==> f in open
    {
      assert Done(s, installed, f);
    }
  }

  /** That does happen: six descriptors are requested, and the number of the
      one for errors, 4, is among them. Descriptor 5 is lost then. */
  lemma ErrorFdAmongTargets() returns (s: Start)
    ensures s.Valid() && s.errorFd == 4 && |s.ends| == 6
    ensures s.Requested(5).Some? && s.errorFd < 5 <= 200
  {
    var none := Ends(-1, -1);
    s := Start(
      map[4 := Descriptor(Inherited(4), true), 7 := Descriptor(Inherited(7), true)],
      [none, none, none, none, none, Ends(-1, 7)], [None, None, None, None, None, None], 4);
  }
}
