/** What callers see: the dots of directories, the kinds of files, link counts, and the number that each
  operation returns, with the bytes of the dots and the error numbers written out. */
module Results {
  import opened Specs
  import opened Content
  import opened Files
  import opened Iteration
  import opened Slots
  import opened Directory
  import opened Path
  import opened Namespace
  import opened Invariant
  import opened Creation
  import opened Storage
  import opened Runs
  import opened Outcomes

  // ---- where the dots lead ----

  /** Directory `d` has an entry besides its dots that names file `h`. */
  ghost predicate Names(v: map<nat, Node>, d: nat, name: Name, h: nat) {
    && d in v && IsDir(v[d].mode) && name != [46] && name != [46, 46]
    && name in Table(SlotsIn(v, d)) && Table(SlotsIn(v, d))[name] == h
  }

  lemma NamesIsLink(v: map<nat, Node>, d: nat, name: Name, h: nat)
    ensures Names(v, d, name, h) <==> Link(d, name) in Links(v, h)
  {
    hide IsDir, SlotsIn, Table;
    assert DOT == [46] && DOTDOT == [46, 46];
    assert Link(d, name) in Links(v, h) <==> name in Entries(v, d) && Entries(v, d)[name] == h;
  }

  /** One dot behind a directory leads to the directory itself, two dots to the only directory that has an
    entry for it, and from the root to the root. */
  ghost predicate DotsRight(v: map<nat, Node>, path: Name, h: nat)
    requires NamesOk(v) && path != []
  {
    var d := Target(v, ChildPath(path, [46, 46]));
    && Target(v, ChildPath(path, [46])) == h
    && d in v && (h == 0 ==> d == 0)
    && (h != 0 ==> (exists name :: Names(v, d, name, h)) && forall e: nat, name :: Names(v, e, name, h) ==> e == d)
  }

  /** The dots lead where they should wherever directories have them. */
  lemma DotsLead(v: map<nat, Node>, path: Name, h: nat)
    requires NamesOk(v) && AllDotted(v) && path != [] && Target(v, path) == h && IsDir(v[h].mode)
    ensures DotsRight(v, path, h)
  {
    hide IsDir, SlotsIn, Table, NamesOk, Names, Target, BothDots, AllDotted, Above, TreeWith;
    NamesParts(v);
    ChildResolves(v, path, [46]);
    ChildResolves(v, path, [46, 46]);
    var up := TreeOf(v);
    DotEntries(v, up, h);
    AboveNames(v, up, h);
  }

  ghost function TreeOf(v: map<nat, Node>): (up: map<nat, Up>)
    requires NamesOk(v)
    ensures TreeWith(v, up)
  {
    var up: map<nat, Up> :| TreeWith(v, up);
    up
  }

  lemma DotEntries(v: map<nat, Node>, up: map<nat, Up>, h: nat)
    requires AllDotted(v) && TreeWith(v, up) && h in v && IsDir(v[h].mode)
    ensures var m := Table(SlotsIn(v, h)); [46] in m && m[[46]] == h && [46, 46] in m && m[[46, 46]] == Above(up, h)
  {
    hide IsDir, SlotsIn, Table, BothDots, Links;
    assert DOT == [46] && DOTDOT == [46, 46];
    assert BothDots(SlotsIn(v, h)) && DotsOk(v, up, h);
    HasBothDots(SlotsIn(v, h));
  }

  lemma AboveNames(v: map<nat, Node>, up: map<nat, Up>, h: nat)
    requires ROOT in v && IsDir(v[ROOT].mode) && TreeWith(v, up) && h in v && IsDir(v[h].mode)
    ensures var d := Above(up, h);
            && d in v && (h == 0 ==> d == 0)
            && (h != 0 ==> (exists name :: Names(v, d, name, h)) &&
                           forall e: nat, name :: Names(v, e, name, h) ==> e == d)
  {
    hide IsDir, SlotsIn, Table, Links, Names, DotsOk;
    if h != 0 {
      assert UpOk(v, up, h);
      var l := up[h].link;
      NamesIsLink(v, l.dir, l.name, h);
      forall e: nat, name | Names(v, e, name, h) ensures e == l.dir {
        NamesIsLink(v, e, name, h);
      }
    }
  }

  lemma HasBothDots(slots: seq<Slot>)
    requires BothDots(slots)
    ensures [46] in Table(slots) && [46, 46] in Table(slots)
  {
    hide Table;
  }

  /** So it is after any number of calls, if every directory found a block when it was made. */
  lemma DotsLeadInRuns(states: seq<map<nat, Node>>, calls: seq<Call>, n: nat, path: Name, h: nat)
    requires CallRun(states, calls) && AllClear(states, calls) && n <= |calls|
    requires AllDotted(states[0]) && forall i :: 0 <= i < |calls| ==> FoundBlock(calls[i])
    ensures NamesOk(states[n])
    ensures path != [] && Target(states[n], path) == h && IsDir(states[n][h].mode) ==> DotsRight(states[n], path, h)
  {
    hide NamesOk, AllDotted, FoundBlock, IsDir, Target, DotsRight;
    CallsKeepNames(states, calls, n);
    CallsKeepDotted(states, calls, n);
    TargetInView(states[n], path);
    if path != [] && Target(states[n], path) == h && IsDir(states[n][h].mode) {
      DotsLead(states[n], path, h);
    }
  }

  /** A directory just made leads to itself by one dot and to its parent by two, exactly when a block was
    free; without one, neither leads anywhere. */
  lemma MkdirDots(v: map<nat, Node>, path: Name, mode: int, inodeFree: bool, blockFree: bool, room: bool, x: nat,
                  v': map<nat, Node>)
    requires NamesOk(v) && NamesNewEntry(path) && IsDir(mode)
    requires MknodEffect(v, path, mode, inodeFree, blockFree, room, x, v', 0)
    ensures NamesOk(v') && path != []
    ensures SlotsIn(v', x) == if blockFree then [Slot([46], x), Slot([46, 46], ParentOf(v, path))] else []
    ensures Target(v', ChildPath(path, [46])) == if blockFree then x else -2
    ensures Target(v', ChildPath(path, [46, 46])) == if blockFree then ParentOf(v, path) else -2
  {
    hide NamesOk, Target, ParentOf, LastName, NamesNewEntry, IsDir, SlotsIn, Table, AddCode, CreateStep, DirMode;
    MknodReached(v, path, mode, inodeFree, blockFree, room, x, v');
    NotEmptyPath(path);
    assert DOT == [46] && DOTDOT == [46, 46];
    ChildResolves(v', path, [46]);
    ChildResolves(v', path, [46, 46]);
    if blockFree {
      TwoDots(x, ParentOf(v, path));
    } else {
      NoDots();
    }
  }

  lemma NotEmptyPath(path: Name)
    requires NamesNewEntry(path)
    ensures path != []
  {
  }

  lemma TwoDots(x: nat, p: nat)
    ensures var m := Table([Slot(DOT, x), Slot(DOTDOT, p)]);
            [46] in m && m[[46]] == x && [46, 46] in m && m[[46, 46]] == p
  {
    hide Table;
    var slots := [Slot(DOT, x), Slot(DOTDOT, p)];
    assert |DOT| == 1 && |DOTDOT| == 2;
    assert FirstLive(slots, DOT, 0) == 0;
    assert FirstLive(slots, DOTDOT, 1) == 1;
    assert FirstLive(slots, DOTDOT, 0) == 1;
  }

  lemma NoDots()
    ensures [46] !in Table([]) && [46, 46] !in Table([])
  {
  }

  // ---- kinds of files ----

  /** A regular file (mode 0100644) just made is reached by its path, has one name and is empty; a
    directory (mode 0040755) is reached and has one name. */
  lemma MadeFile(v: map<nat, Node>, path: Name, mode: int, inodeFree: bool, blockFree: bool, room: bool, x: nat,
                 v': map<nat, Node>)
    requires NamesOk(v) && NamesNewEntry(path) && (mode == 33188 || mode == 16877)
    requires MknodEffect(v, path, mode, inodeFree, blockFree, room, x, v', 0)
    ensures NamesOk(v') && Target(v', path) == x && x in v' && v'[x].mode == mode && v'[x].refs == 1
    ensures mode == 33188 ==> v'[x].data == []
  {
    hide NamesOk, Target, ParentOf, LastName, NamesNewEntry, SlotsIn, AddCode, NoNewStub, NewTable, OnlyThese, FreshDir;
    MknodReached(v, path, mode, inodeFree, blockFree, room, x, v');
    KindOfMode(0, 0, 1, 0);
  }

  /** Reading and writing refuse directories, and nothing else, with EISDIR. */
  lemma OnlyDirsRefused(v: map<nat, Node>, h: nat, buf: seq<byte>, n: nat, offset: nat, room: bool, v': map<nat, Node>,
                        buf': seq<byte>, rv: int)
    requires h in v && 1 <= n <= |buf| && (v[h].mode == 33188 || v[h].mode == 16877)
    ensures WritePathEffect(v, h, buf, n, offset, room, v', rv) ==>
              && (rv == -21 <==> v[h].mode == 16877)
              && (v[h].mode == 16877 ==> v' == v)
              && (v[h].mode == 33188 ==> rv == if room then n else -28)
    ensures offset <= |v[h].data| && ReadEffect(v, h, buf, n, offset, buf', rv) ==>
              (rv == -21 <==> v[h].mode == 16877)
  {
    hide IsDir, Smear, NoNewStub;
    KindOfMode(0, 0, 1, 0);
  }

  // ---- link counts ----

  /** The entries besides dots that name a file. */
  ghost function NamesOf(v: map<nat, Node>, x: nat): (s: set<Link>)
    ensures forall l :: l in s <==> Names(v, l.dir, l.name, x)
  {
    set d, name | d in v && name in Table(SlotsIn(v, d)) && Names(v, d, name, x) :: Link(d, name)
  }

  /** The link count of a file is the number of entries besides dots that name it. */
  lemma CountIsNames(v: map<nat, Node>, x: nat)
    requires NamesOk(v) && x in v && x != 0
    ensures v[x].refs == |NamesOf(v, x)| >= 1
  {
    hide TablesOk, TreeOk, IsDir, SlotsIn, Table, Links, Names, Entries, NamesOf;
    forall l: Link ensures l in NamesOf(v, x) <==> l in Links(v, x) {
      NamesIsLink(v, l.dir, l.name, x);
    }
    assert NamesOf(v, x) == Links(v, x);
  }

  // ---- the numbers returned ----

  /** The first hole of a table carries the name. */
  ghost predicate HoleCarries(slots: seq<Slot>, name: Name) {
    exists i :: 0 <= i < |slots| && slots[i].inum < 0 && slots[i].name == name && AllLive(slots[..i])
  }

  predicate AllLive(slots: seq<Slot>) {
    forall i :: 0 <= i < |slots| ==> slots[i].inum >= 0
  }

  /** What entering a new name returns: ENAMETOOLONG, EEXIST for a name that only a hole carries, ENOSPC,
    or zero. */
  function EnterCode(slots: seq<Slot>, name: Name, stale: bool, room: bool): int {
    if |name| >= 60 then -36
    else if stale then -17
    else if AllLive(slots) && !room then -28
    else 0
  }

  lemma AddCodeIs(slots: seq<Slot>, name: Name, x: nat, room: bool)
    requires Shadow(slots) && name !in Table(slots)
    ensures AddCode(slots, name, x, room) == EnterCode(slots, name, HoleCarries(slots, name), room)
  {
    hide Table, Shadow;
    AddInserts(slots, name, x);
    AddSlotCodes(slots, name, x);
    StaleIsCarried(slots, name);
  }

  lemma StaleIsCarried(slots: seq<Slot>, name: Name)
    requires name !in Table(slots)
    ensures StaleHole(slots, name) <==> HoleCarries(slots, name)
    ensures FirstStop(slots, name, 0) == |slots| <==> AllLive(slots)
  {
    hide Table;
    var i := FirstStop(slots, name, 0);
    forall j | 0 <= j < |slots| && Live(slots[j]) ensures slots[j].name != name {
      LiveNamed(slots, j);
    }
    if StaleHole(slots, name) {
      assert AllLive(slots[..i]);
    }
    if HoleCarries(slots, name) {
      var k :| 0 <= k < |slots| && slots[k].inum < 0 && slots[k].name == name && AllLive(slots[..k]);
      assert i <= k;
      assert i < k ==> slots[..k][i] == slots[i];
    }
  }

  /** A path that leads nowhere has a name that is not in the table of its parent. */
  lemma AbsentInTable(v: map<nat, Node>, path: Name)
    requires NamesOk(v) && NamesEntry(path) && Target(v, path) == -2 && ParentOf(v, path) >= 0
    ensures var p := ParentOf(v, path);
            p in v && IsDir(v[p].mode) && Tidy(SlotsIn(v, p)) && LastName(path) !in Table(SlotsIn(v, p))
  {
    hide NamesOk, Target, ParentOf, LastName, NamesEntry, IsDir, SlotsIn, Table, Tidy;
    TargetEntry(v, path);
    var p := ParentOf(v, path);
    TidyTable(v, p);
    LookupIsTable(SlotsIn(v, p), LastName(path));
  }

  /** mknod: EEXIST (positive) exactly for an existing target, ENOTDIR for a path through a regular file,
    ENOSPC without a free inode, and otherwise what entering the name returns. */
  lemma MknodResult(v: map<nat, Node>, path: Name, mode: int, inodeFree: bool, blockFree: bool, room: bool, x: nat,
                    v': map<nat, Node>, rv: int)
    requires NamesOk(v) && MknodAllowed(v, path)
    requires MknodEffect(v, path, mode, inodeFree, blockFree, room, x, v', rv)
    ensures rv == 17 <==> Target(v, path) >= 0
    ensures Target(v, path) < 0 ==> Target(v, path) == -2 || Target(v, path) == rv == -20
    ensures Target(v, path) == -2 ==>
              && ParentOf(v, path) in v
              && rv == if !inodeFree then -28
                       else
                         var slots, name := SlotsIn(v, ParentOf(v, path)), LastName(path);
                         EnterCode(slots, name, HoleCarries(slots, name), room)
  {
    hide NamesOk, Target, ParentOf, LastName, NamesEntry, IsDir, SlotsIn, Table, CreateStep, SameNames, NoNewStub, DirMode;
    hide AddCode, HoleCarries, AllLive, Shadow;
    TargetCodes(v, path);
    if Target(v, path) == -2 {
      AbsentInTable(v, path);
      AddCodeIs(SlotsIn(v, ParentOf(v, path)), LastName(path), x, room);
    }
  }

  /** link: ENOENT for a missing source, EEXIST for an existing target, the error of a missing parent, and
    otherwise what entering the name returns. */
  lemma LinkResult(v: map<nat, Node>, from: Name, to: Name, room: bool, v': map<nat, Node>, rv: int)
    requires NamesOk(v) && LinkAllowed(v, from, to) && LinkEffect(v, from, to, room, v', rv)
    ensures Target(v, from) < 0 ==> rv == -2
    ensures Target(v, from) >= 0 && Target(v, to) >= 0 ==> rv == -17
    ensures Target(v, from) >= 0 && Target(v, to) < 0 && ParentOf(v, to) < 0 ==> rv == ParentOf(v, to) && rv in {-2, -20}
    ensures Target(v, from) >= 0 && Target(v, to) < 0 && ParentOf(v, to) >= 0 ==>
              && ParentOf(v, to) in v
              && var slots, name := SlotsIn(v, ParentOf(v, to)), LastName(to);
                 rv == EnterCode(slots, name, HoleCarries(slots, name), room)
  {
    hide NamesOk, Target, ParentOf, LastName, IsDir, SlotsIn, Table, LinkStep, SameNames, NoNewStub, NamesEntry;
    hide AddCode, HoleCarries, AllLive, Shadow;
    if Target(v, from) >= 0 && Target(v, to) < 0 {
      PathFacts(to);
      TargetEntry(v, to);
      if ParentOf(v, to) >= 0 {
        AbsentInTable(v, to);
        AddCodeIs(SlotsIn(v, ParentOf(v, to)), LastName(to), Target(v, from), room);
      }
    }
  }

  /** rename returns what its link returns. */
  lemma RenameResult(v: map<nat, Node>, from: Name, to: Name, room: bool, mid: map<nat, Node>, v': map<nat, Node>, rv: int)
    requires NamesOk(v) && LinkAllowed(v, from, to) && RenameEffect(v, from, to, room, mid, v', rv) && rv != 0
    ensures Target(v, from) < 0 ==> rv == -2
    ensures Target(v, from) >= 0 && Target(v, to) >= 0 ==> rv == -17
    ensures Target(v, from) >= 0 && Target(v, to) < 0 && ParentOf(v, to) < 0 ==> rv == ParentOf(v, to)
    ensures Target(v, from) >= 0 && Target(v, to) < 0 && ParentOf(v, to) >= 0 ==>
              && ParentOf(v, to) in v
              && var slots, name := SlotsIn(v, ParentOf(v, to)), LastName(to);
                 rv == EnterCode(slots, name, HoleCarries(slots, name), room)
  {
    hide NamesOk, Target, ParentOf, LastName, IsDir, SlotsIn, LinkEffect, EnterCode;
    LinkResult(v, from, to, room, v', rv);
  }

  /** unlink and rmdir: ENOENT, ENOTDIR and ENOTEMPTY exactly for a missing target, one that is no
    directory, and one that has an entry besides its dots. */
  lemma RemoveResults(v: map<nat, Node>, path: Name, v': map<nat, Node>, rv: int)
    requires NamesOk(v)
    ensures UnlinkEffect(v, path, v', rv) ==> rv == if Target(v, path) < 0 then -2 else 0
    ensures RmdirEffect(v, path, v', rv) ==>
              var x := Target(v, path);
              rv == if x < 0 then x
                    else if !IsDir(v[x].mode) then -20
                    else if exists name: Name :: name in Table(SlotsIn(v, x)) && name != [46] && name != [46, 46] then -39
                    else 0
  {
    hide NamesOk, Target, ParentOf, LastName, IsDir, SlotsIn, Table, UnlinkStep, NoNewStub, OnlyDots;
    TargetInView(v, path);
    var x := Target(v, path);
    if x >= 0 {
      assert DOT == [46] && DOTDOT == [46, 46];
      OnlyDotsIsEmpty(SlotsIn(v, x));
    }
  }

  /** truncate: the number of bytes added or taken away, or ENOSPC exactly when there is no room. */
  lemma TruncateResult(v: map<nat, Node>, h: int, size: int, room: bool, v': map<nat, Node>, rv: int)
    requires TruncatePathEffect(v, h, size, room, v', rv)
    ensures rv == if size < 0 then 0
                  else if h < 0 then h
                  else if h in v && size <= |v[h].data| then |v[h].data| - size
                  else if h in v && room then size - |v[h].data|
                  else -28
  {
  }

  // ---- what a call leaves alone ----

  /** The files that a call may change: where its paths lead and their parents. */
  ghost predicate Touches(v: map<nat, Node>, r: Request, k: nat)
    requires NamesOk(v)
  {
    || k == Target(v, r.path) || k == ParentOf(v, r.path)
    || ((r.LinkRequest? || r.RenameRequest?) && k == ParentOf(v, r.to))
  }

  /** A call changes no other file, whether it succeeds or not. */
  lemma CallFrame(v: map<nat, Node>, c: Call, v': map<nat, Node>, k: nat)
    requires NamesOk(v) && Allowed(v, c.request) && Effect(v, c, v')
    requires k in v && !Touches(v, c.request, k)
    ensures k in v' && v'[k] == v[k]
  {
    hide NamesOk, Target, ParentOf, LastName, IsDir, SlotsIn, Table, NewTable, FreshDir, SameNames, NoNewStub, WriteEffect;
    hide MknodAllowed, LinkAllowed, UnlinkAllowed, RmdirAllowed, OnlyDots, AddCode, DirMode, TruncateEffect, Smear;
  }

  /** A call changes the content of a regular file only by unlinking, truncating or writing it. */
  lemma ContentFrame(v: map<nat, Node>, c: Call, v': map<nat, Node>, k: nat)
    requires NamesOk(v) && Allowed(v, c.request) && Effect(v, c, v') && k in v && !IsDir(v[k].mode)
    requires c.request.UnlinkRequest? || c.request.TruncateRequest? || c.request.WriteRequest? ==>
               k != Target(v, c.request.path)
    ensures k in v' && v'[k].data == v[k].data && v'[k].mode == v[k].mode
  {
    hide NamesOk, Target, ParentOf, LastName, IsDir, SlotsIn, Table, FreshDir, SameNames, NoNewStub, WriteEffect;
    hide UnlinkAllowed, RmdirAllowed, OnlyDots, AddCode, DirMode, TruncateEffect, Smear, Tidy, NamesEntry, NamesNewEntry;
    TargetCodes(v, c.request.path);
    ParentsAreDirs(v, c.request.path);
  }

  lemma ParentsAreDirs(v: map<nat, Node>, path: Name)
    requires NamesOk(v)
    ensures NamesEntry(path) && (Target(v, path) >= 0 || Target(v, path) == -2) && ParentOf(v, path) in v ==>
              IsDir(v[ParentOf(v, path)].mode)
  {
    hide NamesOk, Target, ParentOf, LastName, NamesEntry, IsDir, SlotsIn;
    if NamesEntry(path) {
      TargetEntry(v, path);
    }
  }
}
