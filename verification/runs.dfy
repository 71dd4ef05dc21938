/** Runs of whole calls: what holds after any number of them. */
module Runs {
  import opened Specs
  import opened Layout
  import opened Disks
  import opened Content
  import opened Files
  import opened Slots
  import opened Directory
  import opened Namespace
  import opened Invariant
  import opened Storage

  /** What a caller asks for. */
  datatype Request =
    | MknodRequest(path: Name, mode: int)
    | LinkRequest(path: Name, to: Name)
    | UnlinkRequest(path: Name)
    | RmdirRequest(path: Name)
    | RenameRequest(path: Name, to: Name)
    | TruncateRequest(path: Name, size: int)
    | WriteRequest(path: Name, buf: seq<byte>, offset: nat)

  /** A request together with what it met: whether an inode and a block were free and whether there was
    room, the inode made by a mknod, the state in the middle of a rename, and the result. */
  datatype Call = Call(request: Request, inodeFree: bool, blockFree: bool, room: bool, x: nat,
                       mid: map<nat, Node>, rv: int)

  /** What callers may ask for. */
  ghost predicate Allowed(v: map<nat, Node>, r: Request)
    requires NamesOk(v)
  {
    match r
    case MknodRequest(path, mode) => MknodAllowed(v, path)
    case LinkRequest(from, to) => LinkAllowed(v, from, to)
    case UnlinkRequest(path) => UnlinkAllowed(v, path)
    case RmdirRequest(path) => RmdirAllowed(v, path)
    case RenameRequest(from, to) => LinkAllowed(v, from, to)
    case TruncateRequest(path, size) => 0 !in path && size <= MAX_REQUEST && !TargetIsDir(v, path)
    case WriteRequest(path, buf, offset) => 0 !in path && offset + |buf| <= MAX_REQUEST
  }

  /** The chains that the call shrinks do not end in an inode with nothing in it. */
  ghost predicate Clear(v: map<nat, Node>, r: Request)
    requires NamesOk(v)
  {
    match r
    case MknodRequest(_, _) => true
    case LinkRequest(_, _) => true
    case UnlinkRequest(path) => UnlinkClear(v, path)
    case RmdirRequest(path) => RmdirClear(v, path)
    case RenameRequest(from, _) => RenameClear(v, from)
    case TruncateRequest(path, size) => TruncateClear(v, path, size)
    case WriteRequest(_, _, _) => true
  }

  /** What a call did. */
  ghost predicate Effect(v: map<nat, Node>, c: Call, v': map<nat, Node>)
    requires NamesOk(v)
  {
    match c.request
    case MknodRequest(path, mode) => MknodEffect(v, path, mode, c.inodeFree, c.blockFree, c.room, c.x, v', c.rv)
    case LinkRequest(from, to) => LinkEffect(v, from, to, c.room, v', c.rv)
    case UnlinkRequest(path) => UnlinkEffect(v, path, v', c.rv)
    case RmdirRequest(path) => RmdirEffect(v, path, v', c.rv)
    case RenameRequest(from, to) => RenameEffect(v, from, to, c.room, c.mid, v', c.rv)
    case TruncateRequest(path, size) => TruncatePathEffect(v, Target(v, path), size, c.room, v', c.rv)
    case WriteRequest(path, buf, offset) =>
      WritePathEffect(v, Target(v, path), buf, |buf|, offset, c.room, v', c.rv)
  }

  /** Answers one request with the operation for it. */
  method Dispatch(d: Disk, r: Request) returns (rv: int, ghost c: Call)
    requires Mounted(d) && Allowed(View(d), r) && Clear(View(d), r)
    modifies d, d.blockBitmap, d.inodeBitmap, d.inodes, d.mem
    ensures Mounted(d) && c.request == r && c.rv == rv
    ensures Effect(old(View(d)), c, View(d))
  {
    hide Wf, View, NamesOk, Target, MknodAllowed, LinkAllowed, UnlinkAllowed, UnlinkClear, RmdirAllowed, RmdirClear;
    hide RenameClear, TruncateClear, MknodEffect, LinkEffect, UnlinkEffect, RmdirEffect, RenameEffect;
    hide TruncatePathEffect, WritePathEffect;
    c := Call(r, FreeInodes(d.Tab()) != [], FreeBlocks(d.Tab()) != [], false, 0, map[], 0);
    match r
    case MknodRequest(path, mode) =>
      c := c.(room := RoomForChild(d, path, mode));
      ghost var x;
      rv, x := Mknod(d, path, mode);
      c := c.(x := x, rv := rv);
    case LinkRequest(from, to) =>
      c := c.(room := RoomForEntry(d, to));
      rv := LinkPath(d, from, to);
      c := c.(rv := rv);
    case UnlinkRequest(path) =>
      rv := Unlink(d, path);
      c := c.(rv := rv);
    case RmdirRequest(path) =>
      rv := Rmdir(d, path);
      c := c.(rv := rv);
    case RenameRequest(from, to) =>
      c := c.(room := RoomForEntry(d, to));
      ghost var mid;
      rv, mid := Rename(d, from, to);
      c := c.(mid := mid, rv := rv);
    case TruncateRequest(path, size) =>
      c := c.(room := RoomUpTo(d, path, size));
      rv := Truncate(d, path, size);
      c := c.(rv := rv);
    case WriteRequest(path, buf, offset) =>
      c := c.(room := RoomUpTo(d, path, offset + |buf|));
      rv := WriteBytes(d, path, buf, offset);
      c := c.(rv := rv);
  }

  /** Writes bytes that lie in a buffer of their own. */
  method WriteBytes(d: Disk, path: Name, bytes: seq<byte>, offset: nat) returns (rv: int)
    requires Mounted(d) && 0 !in path && offset + |bytes| <= MAX_REQUEST
    modifies d, d.blockBitmap, d.inodeBitmap, d.inodes, d.mem
    ensures Mounted(d)
    ensures WritePathEffect(old(View(d)), Target(old(View(d)), path), bytes, |bytes|, offset,
                            old(RoomUpTo(d, path, offset + |bytes|)), View(d), rv)
  {
    hide Wf, View, NamesOk, Target, WritePathEffect;
    var buf := new byte[|bytes|](i requires 0 <= i < |bytes| => bytes[i]);
    assert buf[..] == bytes;
    rv := Write(d, path, buf, |bytes|, offset);
  }

  // ---- calls as steps ----

  /** One step, or two: a rename links and then unlinks. */
  ghost predicate OneOrTwoSteps(v: map<nat, Node>, v': map<nat, Node>) {
    Step(v, v') || exists mid: map<nat, Node> :: Step(v, mid) && Step(mid, v')
  }

  lemma NothingDone(v: map<nat, Node>)
    ensures Step(v, v)
  {
    SameNamesRefl(v);
  }

  lemma ContentStep(v: map<nat, Node>, h: nat, v': map<nat, Node>)
    requires NamesOk(v) && ContentOnly(v, h, v') && !IsDir(v[h].mode)
    ensures Step(v, v')
  {
    FileEdit(v, h, v');
  }

  /** Every call is a step of the name space, or two. */
  lemma CallIsSteps(v: map<nat, Node>, c: Call, v': map<nat, Node>)
    requires NamesOk(v) && Allowed(v, c.request) && Effect(v, c, v')
    ensures OneOrTwoSteps(v, v')
  {
    hide NamesOk, CreateStep, LinkStep, UnlinkStep, SameNames, Target, ParentOf, LastName, IsDir, ContentOnly, WriteEffect;
    hide MknodAllowed, LinkAllowed, UnlinkAllowed, RmdirAllowed, NoNewStub;
    NothingDone(v);
    match c.request
    case MknodRequest(path, mode) =>
    case LinkRequest(from, to) =>
    case UnlinkRequest(path) =>
    case RmdirRequest(path) =>
    case RenameRequest(from, to) =>
      if c.rv == 0 {
        assert Step(v, c.mid) && Step(c.mid, v');
      }
    case TruncateRequest(path, size) =>
      if v' != v {
        ContentStep(v, Target(v, path), v');
      }
    case WriteRequest(path, buf, offset) =>
      if v' != v {
        ContentStep(v, Target(v, path), v');
      }
  }

  lemma CallKeepsNames(v: map<nat, Node>, c: Call, v': map<nat, Node>)
    requires NamesOk(v) && Allowed(v, c.request) && Effect(v, c, v')
    ensures NamesOk(v')
  {
    hide NamesOk, Allowed, Effect, Step;
    CallIsSteps(v, c, v');
    if Step(v, v') {
      StepKeepsNames(v, v');
    } else {
      var mid: map<nat, Node> :| Step(v, mid) && Step(mid, v');
      StepKeepsNames(v, mid);
      StepKeepsNames(mid, v');
    }
  }

  // ---- runs ----

  /** The `i`th call of a run asked for something allowed, and did what the operation promises if the
    chains that it shrinks were clear. */
  ghost predicate CallDone(states: seq<map<nat, Node>>, calls: seq<Call>, i: nat)
    requires i < |calls| < |states| && NamesOk(states[i])
  {
    && Allowed(states[i], calls[i].request)
    && (Clear(states[i], calls[i].request) ==> Effect(states[i], calls[i], states[i + 1]))
  }

  /** The states along a run of calls.  What a call does is known where the invariant holds, so it has to
    hold in the first state only. */
  ghost predicate CallRun(states: seq<map<nat, Node>>, calls: seq<Call>) {
    && |states| == |calls| + 1
    && NamesOk(states[0])
    && forall i: nat :: i < |calls| && NamesOk(states[i]) ==> CallDone(states, calls, i)
  }

  /** No call of a run shrank a chain that ended in an inode with nothing in it. */
  ghost predicate AllClear(states: seq<map<nat, Node>>, calls: seq<Call>)
    requires |states| == |calls| + 1
  {
    forall i: nat :: i < |calls| && NamesOk(states[i]) ==> Clear(states[i], calls[i].request)
  }

  /** The invariant holds after any number of calls. */
  lemma {:induction false} CallsKeepNames(states: seq<map<nat, Node>>, calls: seq<Call>, n: nat)
    requires CallRun(states, calls) && AllClear(states, calls) && n <= |calls|
    ensures NamesOk(states[n])
  {
    hide NamesOk, Allowed, Clear, Effect, Step;
    if n > 0 {
      CallsKeepNames(states, calls, n - 1);
      var v, v' := states[n - 1], states[n];
      assert CallDone(states, calls, n - 1);
      CallKeepsNames(v, calls[n - 1], v');
    }
  }

  /** No call ran out of space. */
  predicate NeverFull(calls: seq<Call>) {
    forall i :: 0 <= i < |calls| ==> calls[i].rv != -ENOSPC
  }

  /** A call that did not run out of space leaves no inode with nothing in it. */
  lemma CallLeavesNoStub(v: map<nat, Node>, c: Call, v': map<nat, Node>)
    requires NamesOk(v) && Effect(v, c, v') && c.rv != -ENOSPC && NoStubs(v)
    ensures NoStubs(v')
  {
    hide NamesOk, CreateStep, LinkStep, UnlinkStep, SameNames, Target, ParentOf, LastName, IsDir, ContentOnly, OnlyDots;
    hide SlotsIn, AddCode;
    assert v' == v || NoNewStub(v, v');
  }

  lemma NoStubsClear(v: map<nat, Node>, r: Request)
    requires NamesOk(v) && NoStubs(v)
    ensures Clear(v, r)
  {
    hide RefsOk, TreeOk, TablesOk, IsDir, OnlyDots, SlotsIn;
  }

  /** If the first state has no chain that ends in an inode with nothing in it and no call runs out of
    space, no state along the run has one, and every call meets clear chains. */
  lemma {:induction false} NeverFullNoStubs(states: seq<map<nat, Node>>, calls: seq<Call>, n: nat)
    requires CallRun(states, calls) && NoStubs(states[0]) && NeverFull(calls) && n <= |calls|
    ensures NamesOk(states[n]) && NoStubs(states[n])
  {
    hide NamesOk, Allowed, Clear, Effect, Step, NoStubs;
    if n > 0 {
      NeverFullNoStubs(states, calls, n - 1);
      var v, v', c := states[n - 1], states[n], calls[n - 1];
      assert CallDone(states, calls, n - 1);
      NoStubsClear(v, c.request);
      CallLeavesNoStub(v, c, v');
      CallKeepsNames(v, c, v');
    }
  }

  lemma NeverFullAllClear(states: seq<map<nat, Node>>, calls: seq<Call>)
    requires CallRun(states, calls) && NoStubs(states[0]) && NeverFull(calls)
    ensures AllClear(states, calls)
  {
    hide NamesOk, Clear, NoStubs, CallDone, NeverFull;
    forall i: nat | i < |calls| && NamesOk(states[i]) ensures Clear(states[i], calls[i].request) {
      NeverFullNoStubs(states, calls, i);
      NoStubsClear(states[i], calls[i].request);
    }
  }

  // ---- what that means ----

  /** After any number of calls every entry names a file that exists, and the link count of every file
    but the root is the number of entries that name it, at least one. */
  lemma CallsLeaveNoDangling(states: seq<map<nat, Node>>, calls: seq<Call>, n: nat, h: nat, name: Name, x: nat)
    requires CallRun(states, calls) && AllClear(states, calls) && n <= |calls|
    ensures name in Entries(states[n], h) ==> Entries(states[n], h)[name] in states[n]
    ensures x in states[n] && x != ROOT ==>
              states[n][x].refs == |Links(states[n], x)| && exists l :: l in Links(states[n], x)
  {
    hide NamesOk, Entries, Links;
    CallsKeepNames(states, calls, n);
    NoDanglingNoOrphan(states[n], h, name, x);
  }

  /** A directory that the call made, if any, found a block for its dots. */
  predicate FoundBlock(c: Call) {
    c.request.MknodRequest? && IsDir(c.request.mode) ==> c.blockFree
  }

  /** Directory `p` has its dots still, and `x` is no directory or gone. */
  lemma DottedAfterEdit(v: map<nat, Node>, p: nat, m: map<Name, int>, x: nat, v': map<nat, Node>)
    requires AllDotted(v) && NewTable(v, p, m, v') && OnlyThese(v, v', p, x)
    requires DOTDOT in Table(SlotsIn(v, p)) ==> DOTDOT in m
    requires DOT in Table(SlotsIn(v, p)) ==> DOT in m
    requires x in v' && x != p ==> x in v && v'[x].mode == v[x].mode && v'[x].data == v[x].data
    ensures AllDotted(v')
  {
    hide IsDir, SlotsIn, Table, Tidy;
    forall h | h in v' && IsDir(v'[h].mode) ensures BothDots(SlotsIn(v', h)) {
      if h == x && x != p {
        SlotsOfData(v, v', x);
      } else if h != p {
        SameSlots(v, v', h);
      }
    }
  }

  lemma DottedAfterLink(v: map<nat, Node>, p: nat, name: Name, x: nat, v': map<nat, Node>)
    requires AllDotted(v) && LinkStep(v, p, name, x, v')
    ensures AllDotted(v')
  {
    hide IsDir, SlotsIn, Table, NewTable, OnlyThese, AllDotted;
    DottedAfterEdit(v, p, Table(SlotsIn(v, p))[name := x], x, v');
  }

  lemma DottedAfterUnlink(v: map<nat, Node>, p: nat, name: Name, x: nat, v': map<nat, Node>)
    requires AllDotted(v) && UnlinkStep(v, p, name, x, v')
    ensures AllDotted(v')
  {
    hide IsDir, SlotsIn, Table, NewTable, OnlyThese, AllDotted, OnlyDots;
    DottedAfterEdit(v, p, Table(SlotsIn(v, p)) - {name}, x, v');
  }

  lemma DottedAfterCreate(v: map<nat, Node>, p: nat, name: Name, x: nat, v': map<nat, Node>)
    requires AllDotted(v) && CreateStep(v, p, name, x, v')
    requires IsDir(v'[x].mode) ==> SlotsIn(v', x) == [Slot(DOT, x), Slot(DOTDOT, p)]
    ensures AllDotted(v')
  {
    hide IsDir, SlotsIn, Table, Tidy, FreshDir;
    forall h | h in v' && IsDir(v'[h].mode) ensures BothDots(SlotsIn(v', h)) {
      if h == x {
        assert SlotsIn(v', x)[0] == Slot(DOT, x) && SlotsIn(v', x)[1] == Slot(DOTDOT, p);
        LiveNamed(SlotsIn(v', x), 0);
        LiveNamed(SlotsIn(v', x), 1);
      } else if h != p {
        SameSlots(v, v', h);
      }
    }
  }

  lemma DottedSameNames(v: map<nat, Node>, v': map<nat, Node>)
    requires AllDotted(v) && SameNames(v, v')
    ensures AllDotted(v')
  {
    hide IsDir, SlotsIn, Table;
    forall h | h in v' && IsDir(v'[h].mode) ensures BothDots(SlotsIn(v', h)) {
      assert SameNode(v, v', h);
    }
  }

  lemma ContentKeepsDotted(v: map<nat, Node>, h: nat, v': map<nat, Node>)
    requires NamesOk(v) && AllDotted(v) && ContentOnly(v, h, v') && !IsDir(v[h].mode)
    ensures AllDotted(v')
  {
    hide NamesOk, AllDotted, IsDir, SameNames;
    FileEdit(v, h, v');
    DottedSameNames(v, v');
  }

  lemma CallKeepsDotted(v: map<nat, Node>, c: Call, v': map<nat, Node>)
    requires NamesOk(v) && AllDotted(v) && Allowed(v, c.request) && Effect(v, c, v') && FoundBlock(c)
    ensures AllDotted(v')
  {
    hide NamesOk, AllDotted, SameNames, Target, ParentOf, LastName, IsDir, DirMode, WriteEffect, SlotsIn, Table;
    hide NewTable, OnlyThese, FreshDir, OnlyDots, ContentOnly, NoNewStub;
    hide MknodAllowed, LinkAllowed, UnlinkAllowed, RmdirAllowed;
    if SameNames(v, v') {
      DottedSameNames(v, v');
    }
    match c.request
    case MknodRequest(path, mode) =>
      if v' != v && !SameNames(v, v') {
        DottedAfterCreate(v, ParentOf(v, path), LastName(path), c.x, v');
      }
    case LinkRequest(from, to) =>
      if v' != v && !SameNames(v, v') {
        DottedAfterLink(v, ParentOf(v, to), LastName(to), Target(v, from), v');
      }
    case UnlinkRequest(path) =>
      if v' != v {
        DottedAfterUnlink(v, ParentOf(v, path), LastName(path), Target(v, path), v');
      }
    case RmdirRequest(path) =>
      if v' != v {
        DottedAfterUnlink(v, ParentOf(v, path), LastName(path), Target(v, path), v');
      }
    case RenameRequest(from, to) =>
      if c.rv == 0 {
        DottedAfterLink(v, ParentOf(v, to), LastName(to), Target(v, from), c.mid);
        DottedAfterUnlink(c.mid, ParentOf(v, from), LastName(from), Target(v, from), v');
      }
    case TruncateRequest(path, size) =>
      if v' != v {
        ContentKeepsDotted(v, Target(v, path), v');
      }
    case WriteRequest(path, buf, offset) =>
      if v' != v {
        ContentKeepsDotted(v, Target(v, path), v');
      }
  }

  lemma {:induction false} CallsKeepDotted(states: seq<map<nat, Node>>, calls: seq<Call>, n: nat)
    requires CallRun(states, calls) && AllClear(states, calls) && n <= |calls|
    requires AllDotted(states[0]) && forall i :: 0 <= i < |calls| ==> FoundBlock(calls[i])
    ensures AllDotted(states[n])
  {
    hide NamesOk, Allowed, Clear, Effect, AllDotted, FoundBlock;
    if n > 0 {
      CallsKeepDotted(states, calls, n - 1);
      CallsKeepNames(states, calls, n - 1);
      assert FoundBlock(calls[n - 1]);
      assert CallDone(states, calls, n - 1);
      CallKeepsDotted(states[n - 1], calls[n - 1], states[n]);
    }
  }

  /** After any number of calls every directory but the root has exactly one entry, which is in the
    directory its `..` names; and if every directory found a block when it was made, following `..`
    reaches the root. */
  lemma CallsKeepTree(states: seq<map<nat, Node>>, calls: seq<Call>, n: nat, h: nat)
    requires CallRun(states, calls) && AllClear(states, calls) && n <= |calls| && h in states[n] && IsDir(states[n][h].mode)
    ensures h != ROOT ==> exists l :: OnlyLink(states[n], h, l)
    ensures AllDotted(states[0]) && (forall i :: 0 <= i < |calls| ==> FoundBlock(calls[i])) ==>
              exists steps: nat :: Climb(states[n], h, steps) == ROOT
  {
    hide NamesOk, AllDotted, FoundBlock, OnlyLink, Climb, IsDir;
    CallsKeepNames(states, calls, n);
    DirectoriesFormTree(states[n], h);
    if AllDotted(states[0]) && forall i :: 0 <= i < |calls| ==> FoundBlock(calls[i]) {
      CallsKeepDotted(states, calls, n);
    }
  }
}
