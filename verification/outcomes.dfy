/** What callers see: where paths lead before and after the operations, and which number each operation
  returns, with names and error numbers written out. */
module Outcomes {
  import opened Specs
  import opened Content
  import opened Files
  import opened Slots
  import opened Directory
  import opened SList
  import opened Path
  import opened Namespace
  import opened Invariant
  import opened Storage
  import opened Runs

  // ---- paths built from names ----

  /** A name below a directory: `dir/name`. */
  function ChildPath(dir: Name, name: Name): Name
    requires dir != []
  {
    (if dir[|dir| - 1] == 47 then dir else dir + [47]) + name
  }

  lemma {:induction false} TerminatedAppend(parts: seq<Name>, name: Name, delim: byte)
    ensures Terminated(parts + [name], delim) == Terminated(parts, delim) + name + [delim]
  {
    if parts == [] {
      assert parts + [name] == [name] && [name][1..] == [];
      assert Terminated([name], delim) == name + [delim] + [];
    } else {
      assert (parts + [name])[0] == parts[0] && (parts + [name])[1..] == parts[1..] + [name];
      TerminatedAppend(parts[1..], name, delim);
    }
  }

  lemma ExplodeChild(dir: Name, name: Name)
    requires dir != [] && PlainName(name)
    ensures Explode(dir, SLASH) != []
    ensures Explode(ChildPath(dir, name), SLASH) == Explode(dir, SLASH) + [name]
  {
    hide Explode, Terminated;
    var parts, text := Explode(dir, SLASH), ChildPath(dir, name);
    ExplodeSplits(dir, SLASH);
    NotSplitToNothing(dir);
    TerminatedAppend(parts, name, SLASH);
    assert text[|text| - 1] == name[|name| - 1];
    assert DelimFree(parts + [name], SLASH);
    ExplodeIsTheSplit(parts + [name], text, SLASH);
  }

  lemma NotSplitToNothing(text: Name)
    requires text != []
    ensures Explode(text, SLASH) != []
  {
  }

  lemma LastOfChild(comps: seq<Name>, name: Name)
    requires comps != [] && name != []
    ensures LastComp(comps + [name]) == |comps| && (comps + [name])[..|comps|] == comps
  {
  }

  /** The path `/` leads to inode 0. */
  lemma RootPath(v: map<nat, Node>)
    requires NamesOk(v)
    ensures Target(v, [47]) == 0
  {
    hide RefsOk, TreeOk, IsDir, SlotsIn;
    NamesParts(v);
    assert Scan([47], SLASH, 0) == 0;
    assert Explode([47], SLASH) == [[]];
  }

  /** The path `dir/name` leads where the table of the directory says, its parent is `dir` and its last
    component `name`. */
  lemma ChildResolves(v: map<nat, Node>, dir: Name, name: Name)
    requires NamesOk(v) && dir != [] && PlainName(name)
    ensures ParentOf(v, ChildPath(dir, name)) == Target(v, dir) && LastName(ChildPath(dir, name)) == name
    ensures Target(v, ChildPath(dir, name)) ==
            var d := Target(v, dir);
            if d < 0 then d
            else if !IsDir(v[d].mode) then -20
            else if name in Table(SlotsIn(v, d)) then Table(SlotsIn(v, d))[name]
            else -2
  {
    hide RefsOk, TreeOk, IsDir, SlotsIn, Table, Tidy, LastComp, Explode;
    NamesParts(v);
    ExplodeChild(dir, name);
    var comps, d := Explode(dir, SLASH), Target(v, dir);
    LastOfChild(comps, name);
    ResolveComposes(v, ROOT, comps, [name]);
    if d >= 0 && IsDir(v[d].mode) {
      TidyTable(v, d);
      LookupIsTable(SlotsIn(v, d), name);
    }
  }

  lemma TidyTable(v: map<nat, Node>, h: nat)
    requires NamesOk(v) && h in v && IsDir(v[h].mode)
    ensures Tidy(SlotsIn(v, h))
  {
    hide RefsOk, TreeOk, IsDir, SlotsIn, Tidy;
  }

  // ---- a new name is reached ----

  lemma CreatedExtends(v: map<nat, Node>, p: nat, name: Name, x: nat, v': map<nat, Node>)
    requires CreateStep(v, p, name, x, v')
    ensures forall h :: h in v ==> MoreTable(v, v', h)
  {
    hide IsDir, SlotsIn, Table, Tidy, FreshDir;
    forall h | h in v ensures MoreTable(v, v', h) {
      if h != p {
        SameSlots(v, v', h);
      }
    }
  }

  /** A path whose parent directory got an entry for its last component leads to that entry's file. */
  lemma EnteredIsReached(v: map<nat, Node>, v': map<nat, Node>, path: Name, x: nat)
    requires NamesOk(v) && NamesOk(v') && NamesNewEntry(path)
    requires ParentOf(v, path) in v && IsDir(v[ParentOf(v, path)].mode)
    requires forall h :: h in v ==> MoreTable(v, v', h)
    requires var p := ParentOf(v, path);
             p in v' && LastName(path) in Table(SlotsIn(v', p)) && Table(SlotsIn(v', p))[LastName(path)] == x
    ensures Target(v', path) == x
  {
    hide RefsOk, TreeOk, TablesOk, IsDir, SlotsIn, Table, Tidy, LastComp, Explode, MoreTable;
    NamesParts(v);
    NamesParts(v');
    var comps, p := Explode(path, SLASH), ParentOf(v, path);
    var i := LastComp(comps);
    ResolveMonotone(v, v', ROOT, comps[..i]);
    assert comps == comps[..i] + [comps[i]];
    ResolveComposes(v', ROOT, comps[..i], [comps[i]]);
    assert MoreTable(v, v', p);
    StaysDir(v, v', p);
    TidyTable(v', p);
    LookupIsTable(SlotsIn(v', p), comps[i]);
  }

  lemma StaysDir(v: map<nat, Node>, v': map<nat, Node>, h: nat)
    requires h in v && IsDir(v[h].mode) && MoreTable(v, v', h)
    ensures h in v' && IsDir(v'[h].mode)
  {
  }

  /** After a successful mknod the path leads to the new file. */
  lemma MknodReached(v: map<nat, Node>, path: Name, mode: int, inodeFree: bool, blockFree: bool, room: bool, x: nat,
                     v': map<nat, Node>)
    requires NamesOk(v) && NamesNewEntry(path)
    requires MknodEffect(v, path, mode, inodeFree, blockFree, room, x, v', 0)
    ensures NamesOk(v') && x !in v && x in v' && Target(v', path) == x
  {
    hide NamesOk, Target, ParentOf, LastName, NamesNewEntry, IsDir, SlotsIn, Table, Tidy, FreshDir, AddCode;
    var p, name := ParentOf(v, path), LastName(path);
    CreateKeepsNames(v, p, name, x, v');
    CreatedExtends(v, p, name, x, v');
    EnteredIsReached(v, v', path, x);
  }

  /** After a successful link the new path leads to the file of the old one. */
  lemma LinkReached(v: map<nat, Node>, from: Name, to: Name, room: bool, v': map<nat, Node>)
    requires NamesOk(v) && LinkAllowed(v, from, to) && LinkEffect(v, from, to, room, v', 0)
    ensures NamesOk(v') && Target(v', to) == Target(v, from) == Target(v', from) && Target(v, from) in v
    ensures ParentOf(v', from) == ParentOf(v, from)
  {
    hide NamesOk, Target, ParentOf, LastName, NamesNewEntry, NamesEntry, IsDir, SlotsIn, Table, Tidy, AddCode;
    var p, name, x := ParentOf(v, to), LastName(to), Target(v, from);
    LinkKeepsNames(v, p, name, x, v');
    LinkedExtends(v, p, name, x, v');
    EnteredIsReached(v, v', to, x);
    OldPathsStay(v, p, name, x, v', from);
  }

  // ---- a removed name leads nowhere ----

  /** The tables of the second state are part of those of the first. */
  ghost predicate LessTable(v: map<nat, Node>, v': map<nat, Node>, h: nat)
    requires h in v'
  {
    && h in v && (IsDir(v[h].mode) <==> IsDir(v'[h].mode))
    && (IsDir(v'[h].mode) ==> forall name :: name in Table(SlotsIn(v', h)) ==>
          name in Table(SlotsIn(v, h)) && Table(SlotsIn(v', h))[name] == Table(SlotsIn(v, h))[name])
  }

  /** With fewer entries a path leads where it led or nowhere. */
  lemma {:induction false} ResolveLess(v: map<nat, Node>, v': map<nat, Node>, root: nat, comps: seq<Name>)
    requires DirsOk(v) && DirsOk(v') && root in v && root in v' && IsDir(v[root].mode) && IsDir(v'[root].mode)
    requires forall h :: h in v' ==> LessTable(v, v', h)
    ensures Resolve(v', root, comps) == Resolve(v, root, comps) || Resolve(v', root, comps) == -ENOENT
    decreases |comps|
  {
    hide SlotsIn, IsDir, EntriesOk, Table;
    assert LessTable(v, v', root);
    if comps != [] {
      if comps[0] == [] {
        if |comps| > 1 {
          ResolveLess(v, v', root, comps[1..]);
        }
      } else {
        IsDirAt(v, root);
        IsDirAt(v', root);
        var e := LookupIn(SlotsIn(v', root), comps[0]);
        if e >= 0 && |comps| > 1 {
          assert LessTable(v, v', e);
          if IsDir(v'[e].mode) {
            ResolveLess(v, v', e, comps[1..]);
          }
        }
      }
    }
  }

  lemma UnlinkedLess(v: map<nat, Node>, p: nat, name: Name, x: nat, v': map<nat, Node>)
    requires UnlinkStep(v, p, name, x, v')
    ensures forall h :: h in v' ==> LessTable(v, v', h)
  {
    hide IsDir, SlotsIn, Table, Tidy, OnlyDots;
    forall h | h in v' ensures LessTable(v, v', h) {
      if h == x {
        SlotsOfData(v, v', x);
      } else if h != p {
        SameSlots(v, v', h);
      }
    }
  }

  /** After the entry of a path was removed the path leads nowhere. */
  lemma UnlinkedLeadsNowhere(v: map<nat, Node>, path: Name, v': map<nat, Node>)
    requires NamesOk(v) && NamesOk(v') && NamesEntry(path) && ParentOf(v, path) in v && Target(v, path) in v
    requires UnlinkStep(v, ParentOf(v, path), LastName(path), Target(v, path), v')
    ensures Target(v', path) == -2
  {
    hide RefsOk, TreeOk, TablesOk, IsDir, SlotsIn, Table, Tidy, LastComp, Explode, LessTable, UnlinkStep;
    NamesParts(v);
    NamesParts(v');
    var comps, p, name := Explode(path, SLASH), ParentOf(v, path), LastName(path);
    var i := LastComp(comps);
    UnlinkedLess(v, p, name, Target(v, path), v');
    ResolveLess(v, v', ROOT, comps[..i]);
    assert comps == comps[..i] + comps[i..] && comps[i..] == [name] + comps[i + 1..];
    ResolveComposes(v', ROOT, comps[..i], comps[i..]);
    NameGone(v, p, name, Target(v, path), v');
    if Resolve(v', ROOT, comps[..i]) == p {
      EntryThenBlanks(v', p, name, comps[i + 1..]);
    }
  }

  lemma NameGone(v: map<nat, Node>, p: nat, name: Name, x: nat, v': map<nat, Node>)
    requires UnlinkStep(v, p, name, x, v')
    ensures p in v' && IsDir(v'[p].mode) && LookupIn(SlotsIn(v', p), name) == -ENOENT
  {
    hide IsDir, SlotsIn, Table, Tidy, OnlyDots;
  }

  /** After unlink or rmdir the path leads nowhere. */
  lemma UnlinkGone(v: map<nat, Node>, path: Name, v': map<nat, Node>)
    requires NamesOk(v) && UnlinkAllowed(v, path) && UnlinkEffect(v, path, v', 0)
    ensures NamesOk(v') && Target(v', path) == -2
  {
    hide NamesOk, Target, ParentOf, LastName, NamesEntry, IsDir, SlotsIn, Table, Tidy, UnlinkStep, OnlyDots;
    UnlinkKeepsNames(v, ParentOf(v, path), LastName(path), Target(v, path), v');
    UnlinkedLeadsNowhere(v, path, v');
  }

  // ---- a renamed file is reached by its new path only ----

  /** Every directory keeps its entries for directories. */
  ghost predicate DirsKept(v: map<nat, Node>, v': map<nat, Node>, h: nat)
    requires h in v
  {
    IsDir(v[h].mode) ==>
      && h in v' && IsDir(v'[h].mode)
      && forall name :: name in Table(SlotsIn(v, h)) && IsDirectory(v, Table(SlotsIn(v, h))[name]) ==>
           name in Table(SlotsIn(v', h)) && Table(SlotsIn(v', h))[name] == Table(SlotsIn(v, h))[name]
  }

  ghost predicate IsDirectory(v: map<nat, Node>, x: int) {
    x in v && IsDir(v[x].mode)
  }

  lemma {:induction false} ResolveDirsKept(v: map<nat, Node>, v': map<nat, Node>, root: nat, comps: seq<Name>)
    requires DirsOk(v) && DirsOk(v') && root in v && IsDir(v[root].mode)
    requires forall h :: h in v ==> DirsKept(v, v', h)
    requires IsDirectory(v, Resolve(v, root, comps))
    ensures root in v' && IsDir(v'[root].mode) && Resolve(v', root, comps) == Resolve(v, root, comps)
    decreases |comps|
  {
    hide SlotsIn, IsDir, EntriesOk, Table;
    assert DirsKept(v, v', root);
    if comps[0] == [] {
      if |comps| > 1 {
        ResolveDirsKept(v, v', root, comps[1..]);
      }
    } else {
      IsDirAt(v, root);
      var e := LookupIn(SlotsIn(v, root), comps[0]);
      assert IsDirectory(v, e);
      assert DirsKept(v, v', e);
      if |comps| > 1 {
        ResolveDirsKept(v, v', e, comps[1..]);
      }
    }
  }

  lemma UnlinkedFileDirs(v: map<nat, Node>, p: nat, name: Name, x: nat, v': map<nat, Node>)
    requires UnlinkStep(v, p, name, x, v') && !IsDir(v[x].mode)
    ensures forall h :: h in v ==> DirsKept(v, v', h)
  {
    hide IsDir, SlotsIn, Table, Tidy;
    forall h | h in v ensures DirsKept(v, v', h) {
      if h != p && h != x {
        SameSlots(v, v', h);
      }
    }
  }

  /** After a successful rename the new path leads to the file, and the old one nowhere. */
  lemma RenameMoved(v: map<nat, Node>, from: Name, to: Name, room: bool, mid: map<nat, Node>, v': map<nat, Node>)
    requires NamesOk(v) && LinkAllowed(v, from, to) && RenameEffect(v, from, to, room, mid, v', 0)
    ensures NamesOk(v') && Target(v', to) == Target(v, from) && Target(v', from) == -2
  {
    hide NamesOk, Target, ParentOf, LastName, NamesNewEntry, NamesEntry, IsDir, SlotsIn, Table, Tidy, UnlinkStep;
    hide NoNewStub, NewTable;
    var x, p, q := Target(v, from), ParentOf(v, to), ParentOf(v, from);
    LinkKeepsNames(v, p, LastName(to), x, mid);
    LinkedExtends(v, p, LastName(to), x, mid);
    OldPathsStay(v, p, LastName(to), x, mid, from);
    UnlinkKeepsNames(mid, q, LastName(from), x, v');
    UnlinkedLeadsNowhere(mid, from, v');
    NameIsThere(v, from);
    MovedNames(v, p, LastName(to), q, LastName(from), x, mid, v');
    MovedIsReached(v, to, mid, q, LastName(from), x, v');
  }

  lemma NameIsThere(v: map<nat, Node>, path: Name)
    requires NamesOk(v) && NamesEntry(path) && Target(v, path) >= 0
    ensures ParentOf(v, path) in v && LastName(path) in Table(SlotsIn(v, ParentOf(v, path)))
  {
    hide NamesOk, Target, ParentOf, LastName, NamesEntry, IsDir, SlotsIn, Table;
    TargetEntry(v, path);
  }

  /** Moving keeps the new entry. */
  lemma MovedNames(v: map<nat, Node>, p: nat, to: Name, q: nat, from: Name, x: nat, mid: map<nat, Node>, v': map<nat, Node>)
    requires LinkStep(v, p, to, x, mid) && UnlinkStep(mid, q, from, x, v') && q in v
    ensures p in v' && p in mid && IsDir(mid[p].mode) && x in mid && !IsDir(mid[x].mode)
    ensures p != q || to != from ==> to in Table(SlotsIn(v', p)) && Table(SlotsIn(v', p))[to] == x
  {
    hide IsDir, SlotsIn, Table, Tidy;
    if p != q {
      SameSlots(mid, v', p);
    }
  }

  lemma MovedIsReached(v: map<nat, Node>, to: Name, mid: map<nat, Node>, q: nat, from: Name, x: nat, v': map<nat, Node>)
    requires NamesOk(v) && NamesOk(mid) && NamesOk(v') && NamesNewEntry(to)
    requires UnlinkStep(mid, q, from, x, v') && x in mid && !IsDir(mid[x].mode)
    requires ParentOf(v, to) in v && IsDir(v[ParentOf(v, to)].mode) && forall h :: h in v ==> MoreTable(v, mid, h)
    requires var p := ParentOf(v, to);
             p in v' && LastName(to) in Table(SlotsIn(v', p)) && Table(SlotsIn(v', p))[LastName(to)] == x
    ensures Target(v', to) == x
  {
    hide RefsOk, TreeOk, TablesOk, IsDir, SlotsIn, Table, Tidy, LastComp, Explode, MoreTable, UnlinkStep, DirsKept;
    NamesParts(v);
    NamesParts(mid);
    NamesParts(v');
    var comps, p := Explode(to, SLASH), ParentOf(v, to);
    var i := LastComp(comps);
    ResolveMonotone(v, mid, ROOT, comps[..i]);
    assert MoreTable(v, mid, p);
    StaysDir(v, mid, p);
    UnlinkedFileDirs(mid, q, from, x, v');
    ResolveDirsKept(mid, v', ROOT, comps[..i]);
    assert DirsKept(mid, v', p);
    KeptDir(mid, v', p);
    assert comps == comps[..i] + [comps[i]];
    ResolveComposes(v', ROOT, comps[..i], [comps[i]]);
    TidyTable(v', p);
    LookupIsTable(SlotsIn(v', p), comps[i]);
  }

  lemma KeptDir(v: map<nat, Node>, v': map<nat, Node>, h: nat)
    requires h in v && IsDir(v[h].mode) && DirsKept(v, v', h)
    ensures h in v' && IsDir(v'[h].mode)
  {
  }
}
