/** The name space: which directory entries name which files, and the invariant that every operation
  keeps. */
module Namespace {
  import opened Specs
  import opened Content
  import opened Slots
  import opened Directory
  import opened Path

  const ROOT: nat := 0

  /** An entry: the directory that holds it and its name. */
  datatype Link = Link(dir: nat, name: Name)

  function NonDotPart(m: map<Name, int>): (r: map<Name, int>)
    ensures forall name :: name in r <==> name in m && NonDot(name)
    ensures forall name :: name in r ==> r[name] == m[name]
  {
    map name | name in m && NonDot(name) :: m[name]
  }

  /** The entries of a directory besides its dots; nothing for anything else. */
  ghost function Entries(v: map<nat, Node>, h: nat): map<Name, int> {
    if h in v && IsDir(v[h].mode) then NonDotPart(Table(SlotsIn(v, h))) else map[]
  }

  /** All entries besides dots that name a file. */
  ghost function Links(v: map<nat, Node>, x: int): (s: set<Link>)
    ensures forall l :: l in s <==> l.name in Entries(v, l.dir) && Entries(v, l.dir)[l.name] == x
  {
    set h, name | h in v && name in Entries(v, h) && Entries(v, h)[name] == x :: Link(h, name)
  }

  // ---- the invariant ----

  /** The link count of every file but the root is the number of entries naming it, and not zero. */
  ghost predicate RefsOk(v: map<nat, Node>) {
    && (forall x :: x in v && x != ROOT ==> v[x].refs == |Links(v, x)| && 1 <= |Links(v, x)|)
    && Links(v, ROOT) == {}
  }

  /** The one entry that names a directory, and how far from the root it is. */
  datatype Up = Up(link: Link, depth: nat)

  ghost function DepthOf(up: map<nat, Up>, h: nat): nat {
    if h in up then up[h].depth else 0
  }

  ghost predicate UpOk(v: map<nat, Node>, up: map<nat, Up>, h: nat)
    requires h in v
  {
    && h in up && Links(v, h) == {up[h].link}
    && up[h].link.dir in v && IsDir(v[up[h].link.dir].mode)
    && up[h].depth == DepthOf(up, up[h].link.dir) + 1
  }

  /** The directory above a directory; the root is above itself. */
  ghost function Above(up: map<nat, Up>, h: nat): nat {
    if h in up then up[h].link.dir else ROOT
  }

  /** The dots that a directory has name itself and the directory above it. */
  ghost predicate DotsOk(v: map<nat, Node>, up: map<nat, Up>, h: nat)
    requires h in v
  {
    var m := Table(SlotsIn(v, h));
    && (DOT in m ==> m[DOT] == h)
    && (DOTDOT in m ==> m[DOTDOT] == Above(up, h))
  }

  ghost predicate TreeWith(v: map<nat, Node>, up: map<nat, Up>) {
    && ROOT !in up
    && (forall h :: h in v && IsDir(v[h].mode) && h != ROOT ==> UpOk(v, up, h))
    && (forall h :: h in v && IsDir(v[h].mode) ==> DotsOk(v, up, h))
  }

  /** Every directory but the root is named by one entry, at finite depth below the root. */
  ghost predicate TreeOk(v: map<nat, Node>) {
    exists up: map<nat, Up> :: TreeWith(v, up)
  }

  ghost predicate TablesOk(v: map<nat, Node>) {
    DirsOk(v) && forall h :: h in v && IsDir(v[h].mode) ==> Tidy(SlotsIn(v, h))
  }

  ghost predicate NamesOk(v: map<nat, Node>) {
    && ROOT in v && IsDir(v[ROOT].mode)
    && TablesOk(v)
    && RefsOk(v)
    && TreeOk(v)
  }

  // ---- what the operations do ----

  /** Files may have changed their content and directories the shape of their chain, but no name and
    no link count changed. */
  ghost predicate SameNames(v: map<nat, Node>, v': map<nat, Node>) {
    && v'.Keys == v.Keys
    && forall h :: h in v ==> SameNode(v, v', h)
  }

  ghost predicate SameNode(v: map<nat, Node>, v': map<nat, Node>, h: nat)
    requires h in v && h in v'
  {
    && v'[h].refs == v[h].refs && v'[h].mode == v[h].mode
    && (IsDir(v[h].mode) ==> |v'[h].data| % 64 == |v[h].data| % 64 && SlotsIn(v', h) == SlotsIn(v, h))
  }

  /** Nothing but the given files changed. */
  ghost predicate OnlyThese(v: map<nat, Node>, v': map<nat, Node>, p: nat, x: nat) {
    forall h :: h != p && h != x ==> (h in v <==> h in v') && (h in v ==> v'[h] == v[h])
  }

  /** Directory `p` keeps its label and now has the given table. */
  ghost predicate NewTable(v: map<nat, Node>, p: nat, m: map<Name, int>, v': map<nat, Node>) {
    && p in v && IsDir(v[p].mode) && p in v' && v'[p].refs == v[p].refs && v'[p].mode == v[p].mode
    && |v'[p].data| % 64 == 0 && Tidy(SlotsIn(v', p)) && Table(SlotsIn(v', p)) == m
  }

  /** A new file `x` appears under a new name in directory `p`. */
  ghost predicate CreateStep(v: map<nat, Node>, p: nat, name: Name, x: nat, v': map<nat, Node>) {
    && NonDot(name) && x !in v && x in v' && p in v && name !in Table(SlotsIn(v, p))
    && NewTable(v, p, Table(SlotsIn(v, p))[name := x], v')
    && OnlyThese(v, v', p, x)
    && v'[x].refs == 1
    && (IsDir(v'[x].mode) ==> FreshDir(v', x, p))
  }

  /** A directory with at most its dots. */
  ghost predicate FreshDir(v: map<nat, Node>, x: nat, p: nat)
    requires x in v
  {
    var m := Table(SlotsIn(v, x));
    && |v[x].data| % 64 == 0 && Tidy(SlotsIn(v, x))
    && (forall name :: name in m ==> !NonDot(name))
    && (DOT in m ==> m[DOT] == x) && (DOTDOT in m ==> m[DOTDOT] == p)
  }

  /** A file that is no directory gets one more name. */
  ghost predicate LinkStep(v: map<nat, Node>, p: nat, name: Name, x: nat, v': map<nat, Node>) {
    && NonDot(name) && x in v && !IsDir(v[x].mode) && p in v && name !in Table(SlotsIn(v, p))
    && NewTable(v, p, Table(SlotsIn(v, p))[name := x], v')
    && OnlyThese(v, v', p, x)
    && x in v' && v'[x] == v[x].(refs := v[x].refs + 1)
  }

  /** A name of a file is removed, and the file itself with its last name. */
  ghost predicate UnlinkStep(v: map<nat, Node>, p: nat, name: Name, x: nat, v': map<nat, Node>) {
    && NonDot(name) && x in v && p in v && x != p && name in Table(SlotsIn(v, p)) && Table(SlotsIn(v, p))[name] == x
    && (IsDir(v[x].mode) ==> OnlyDots(SlotsIn(v, x)))
    && NewTable(v, p, Table(SlotsIn(v, p)) - {name}, v')
    && OnlyThese(v, v', p, x)
    && (if v[x].refs > 1 then x in v' && v'[x] == v[x].(refs := v[x].refs - 1) else x !in v')
  }

  ghost predicate Step(v: map<nat, Node>, v': map<nat, Node>) {
    || SameNames(v, v')
    || (exists p: nat, name: Name, x: nat :: CreateStep(v, p, name, x, v'))
    || (exists p: nat, name: Name, x: nat :: LinkStep(v, p, name, x, v'))
    || (exists p: nat, name: Name, x: nat :: UnlinkStep(v, p, name, x, v'))
  }

  // ---- how links change ----

  lemma LinksGain(v: map<nat, Node>, v': map<nat, Node>, p: nat, name: Name, x: nat)
    requires name !in Entries(v, p) && Entries(v', p) == Entries(v, p)[name := x]
    requires forall h :: h != p ==> Entries(v', h) == Entries(v, h)
    ensures Links(v', x) == Links(v, x) + {Link(p, name)} && Link(p, name) !in Links(v, x)
    ensures forall y: int :: y != x ==> Links(v', y) == Links(v, y)
  {
    hide Entries, Links;
    forall y: int, l: Link ensures l in Links(v', y) <==> l in Links(v, y) || (y == x && l == Link(p, name)) {
    }
  }

  lemma LinksLose(v: map<nat, Node>, v': map<nat, Node>, p: nat, name: Name, x: nat)
    requires name in Entries(v, p) && Entries(v, p)[name] == x && Entries(v', p) == Entries(v, p) - {name}
    requires forall h :: h != p ==> Entries(v', h) == Entries(v, h)
    ensures Links(v', x) == Links(v, x) - {Link(p, name)} && Link(p, name) in Links(v, x)
    ensures forall y: int :: y != x ==> Links(v', y) == Links(v, y)
  {
    hide Entries, Links;
    forall y: int, l: Link ensures l in Links(v', y) <==> l in Links(v, y) && !(y == x && l == Link(p, name)) {
    }
  }

  lemma LinksSame(v: map<nat, Node>, v': map<nat, Node>)
    requires forall h :: Entries(v', h) == Entries(v, h)
    ensures forall y: int :: Links(v', y) == Links(v, y)
  {
    hide Entries, Links;
    forall y: int, l: Link ensures l in Links(v', y) <==> l in Links(v, y) {
    }
  }

  /** Entries name existing files only. */
  lemma EntriesName(v: map<nat, Node>, h: nat, name: Name)
    requires DirsOk(v) && name in Entries(v, h)
    ensures Entries(v, h)[name] in v && h in v && IsDir(v[h].mode)
  {
    assert EntriesOk(v, h);
  }

  lemma NoLinksToStrangers(v: map<nat, Node>, x: nat)
    requires DirsOk(v) && x !in v
    ensures Links(v, x) == {}
  {
    hide Entries;
    forall l | l in Links(v, x) ensures false {
      EntriesName(v, l.dir, l.name);
    }
  }
}
