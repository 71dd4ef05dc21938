/** Every file can be reached by a path, so no space is held by anything that cannot be removed. */
module Reachability {
  import opened Specs
  import opened Layout
  import opened Disks
  import opened Content
  import opened Slots
  import opened Directory
  import opened SList
  import opened Path
  import opened Namespace
  import opened Invariant
  import opened Storage
  import Accounting

  /** Components that can be written as a path. */
  ghost predicate Writable(comps: seq<Name>) {
    comps != [] && DelimFree(comps, SLASH) && NulFree(comps)
  }

  /** The components that lead to a directory: a blank one and then the names on the way. */
  ghost function CompsTo(up: map<nat, Up>, h: nat): (comps: seq<Name>)
    ensures comps != []
    decreases DepthOf(up, h)
  {
    if h in up && DepthOf(up, up[h].link.dir) < up[h].depth then CompsTo(up, up[h].link.dir) + [up[h].link.name]
    else [[]]
  }

  /** An entry of a directory that is reached is reached by its name. */
  lemma EntryReached(v: map<nat, Node>, comps: seq<Name>, p: nat, name: Name)
    requires NamesOk(v) && p in v && IsDir(v[p].mode) && name in Table(SlotsIn(v, p))
    requires Writable(comps) && Resolve(v, ROOT, comps) == p
    ensures Writable(comps + [name]) && Resolve(v, ROOT, comps + [name]) == Table(SlotsIn(v, p))[name]
  {
    hide IsDir, SlotsIn, RefsOk, TreeOk, Table, Tidy, EntriesOk;
    TablesGiveDirs(v);
    TablesOkAt(v);
    assert TableOk(v, p);
    TidyNames(SlotsIn(v, p), name);
    ResolveComposes(v, ROOT, comps, [name]);
  }

  lemma {:induction false} DirReached(v: map<nat, Node>, up: map<nat, Up>, h: nat)
    requires NamesOk(v) && TreeWith(v, up) && h in v && IsDir(v[h].mode)
    ensures Writable(CompsTo(up, h)) && Resolve(v, ROOT, CompsTo(up, h)) == h
    decreases DepthOf(up, h)
  {
    hide IsDir, SlotsIn, Table, Links, Entries, TablesOk, RefsOk, TreeOk;
    NamesParts(v);
    if h != ROOT {
      assert UpOk(v, up, h);
      var l := up[h].link;
      assert l in Links(v, h);
      EntryOfLink(v, l, h);
      DirReached(v, up, l.dir);
      EntryReached(v, CompsTo(up, l.dir), l.dir, l.name);
    }
  }

  lemma EntryOfLink(v: map<nat, Node>, l: Link, x: nat)
    requires l in Links(v, x)
    ensures l.dir in v && IsDir(v[l.dir].mode) && l.name in Table(SlotsIn(v, l.dir))
    ensures Table(SlotsIn(v, l.dir))[l.name] == x
  {
    hide IsDir, SlotsIn, Table;
    assert l.name in Entries(v, l.dir);
  }

  lemma FileReached(v: map<nat, Node>, x: nat)
    requires NamesOk(v) && x in v
    ensures exists comps :: Writable(comps) && Resolve(v, ROOT, comps) == x
  {
    hide IsDir, SlotsIn, Table, Links, Entries, TablesOk, Resolve, Writable, CompsTo;
    NamesParts(v);
    var up: map<nat, Up> :| TreeWith(v, up);
    if IsDir(v[x].mode) {
      DirReached(v, up, x);
    } else {
      var l :| l in Links(v, x);
      EntryOfLink(v, l, x);
      DirReached(v, up, l.dir);
      EntryReached(v, CompsTo(up, l.dir), l.dir, l.name);
    }
  }

  /** Components followed by a slash each are a path with these components. */
  lemma PathOfComps(comps: seq<Name>)
    requires Writable(comps)
    ensures 0 !in Terminated(comps, SLASH) && Explode(Terminated(comps, SLASH), SLASH) == comps
  {
    TerminatedEnds(comps);
    ExplodeIsTheSplit(comps, Terminated(comps, SLASH), SLASH);
  }

  lemma {:induction false} TerminatedEnds(comps: seq<Name>)
    requires comps != [] && NulFree(comps)
    ensures var text := Terminated(comps, SLASH); text != [] && text[|text| - 1] == SLASH && 0 !in text
  {
    assert 0 !in comps[0];
    if |comps| > 1 {
      assert forall i :: 0 <= i < |comps[1..]| ==> comps[1..][i] == comps[i + 1];
      TerminatedEnds(comps[1..]);
    } else {
      assert Terminated(comps[1..], SLASH) == [];
    }
  }

  /** Some path leads to file `x`. */
  ghost predicate HasPath(v: map<nat, Node>, x: nat)
    requires NamesOk(v)
  {
    exists path: Name :: 0 !in path && Target(v, path) == x
  }

  lemma EveryFileHasPath(v: map<nat, Node>, x: nat)
    requires NamesOk(v) && x in v
    ensures HasPath(v, x)
  {
    hide NamesOk, Writable, Resolve, IsDir;
    NamesParts(v);
    FileReached(v, x);
    var comps :| Writable(comps) && Resolve(v, ROOT, comps) == x;
    PathOfComps(comps);
    assert Target(v, Terminated(comps, SLASH)) == x;
  }

  /** All space is free or belongs to files that some path leads to. */
  lemma NoSpaceLost(d: Disk)
    requires Mounted(d)
    ensures |FreeBlocks(d.Tab())| + Accounting.BlocksBelow(d.own.files, 254) == 254
    ensures |FreeInodes(d.Tab())| + Accounting.NodesBelow(d.own.files, 254) == 254
    ensures forall h :: h in d.own.files ==> HasPath(View(d), h)
  {
    hide Wf, NamesOk, HasPath;
    Accounting.SpaceConserved(d.Tab(), d.own);
    forall h | h in d.own.files ensures HasPath(View(d), h) {
      EveryFileHasPath(View(d), h);
    }
  }
}
