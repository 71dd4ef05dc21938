/** Every step of the name space keeps the invariant. */
module Invariant {
  import opened Specs
  import opened Content
  import opened Slots
  import opened Directory
  import opened Path
  import opened Namespace

  // ---- entries after a step ----

  lemma EntriesInsert(v: map<nat, Node>, p: nat, name: Name, x: nat, v': map<nat, Node>)
    requires NonDot(name) && p in v && name !in Table(SlotsIn(v, p)) && IsDir(v[p].mode)
    requires NewTable(v, p, Table(SlotsIn(v, p))[name := x], v')
    ensures name !in Entries(v, p) && Entries(v', p) == Entries(v, p)[name := x]
  {
    hide Table, SlotsIn, IsDir;
  }

  lemma EntriesDelete(v: map<nat, Node>, p: nat, name: Name, v': map<nat, Node>)
    requires NonDot(name) && p in v && name in Table(SlotsIn(v, p)) && IsDir(v[p].mode)
    requires NewTable(v, p, Table(SlotsIn(v, p)) - {name}, v')
    ensures name in Entries(v, p) && Entries(v, p)[name] == Table(SlotsIn(v, p))[name]
    ensures Entries(v', p) == Entries(v, p) - {name}
  {
    hide Table, SlotsIn, IsDir;
  }

  lemma FreshIsEmpty(v: map<nat, Node>, x: nat, p: nat)
    requires x in v && IsDir(v[x].mode) && FreshDir(v, x, p)
    ensures Entries(v, x) == map[]
  {
    hide Table, SlotsIn, IsDir;
  }

  lemma OnlyDotsNoEntries(v: map<nat, Node>, x: nat)
    requires x in v && OnlyDots(SlotsIn(v, x))
    ensures Entries(v, x) == map[]
  {
    hide Table, SlotsIn, IsDir;
    OnlyDotsIsEmpty(SlotsIn(v, x));
  }

  lemma EntriesFrame(v: map<nat, Node>, v': map<nat, Node>, h: nat)
    requires h in v <==> h in v'
    requires h in v ==> v'[h].mode == v[h].mode && v'[h].data == v[h].data
    ensures Entries(v', h) == Entries(v, h)
  {
  }

  lemma NoDirNoEntries(v: map<nat, Node>, h: nat)
    requires h in v ==> !IsDir(v[h].mode)
    ensures Entries(v, h) == map[]
  {
  }

  lemma CreateEntries(v: map<nat, Node>, p: nat, name: Name, x: nat, v': map<nat, Node>)
    requires CreateStep(v, p, name, x, v')
    ensures name !in Entries(v, p) && Entries(v', p) == Entries(v, p)[name := x]
    ensures forall h :: h != p ==> Entries(v', h) == Entries(v, h)
  {
    hide Table, SlotsIn, IsDir, FreshDir, Entries;
    EntriesInsert(v, p, name, x, v');
    NoDirNoEntries(v, x);
    if IsDir(v'[x].mode) {
      FreshIsEmpty(v', x, p);
    } else {
      NoDirNoEntries(v', x);
    }
    forall h | h != p ensures Entries(v', h) == Entries(v, h) {
      if h != x {
        EntriesFrame(v, v', h);
      }
    }
  }

  lemma LinkEntries(v: map<nat, Node>, p: nat, name: Name, x: nat, v': map<nat, Node>)
    requires LinkStep(v, p, name, x, v')
    ensures name !in Entries(v, p) && Entries(v', p) == Entries(v, p)[name := x]
    ensures forall h :: h != p ==> Entries(v', h) == Entries(v, h)
  {
    hide Table, SlotsIn, IsDir, Entries;
    EntriesInsert(v, p, name, x, v');
    forall h | h != p ensures Entries(v', h) == Entries(v, h) {
      EntriesFrame(v, v', h);
    }
  }

  lemma UnlinkEntries(v: map<nat, Node>, p: nat, name: Name, x: nat, v': map<nat, Node>)
    requires UnlinkStep(v, p, name, x, v')
    ensures name in Entries(v, p) && Entries(v, p)[name] == x && Entries(v', p) == Entries(v, p) - {name}
    ensures forall h :: h != p ==> Entries(v', h) == Entries(v, h)
  {
    hide Table, SlotsIn, IsDir, OnlyDots, Entries;
    EntriesDelete(v, p, name, v');
    UnlinkedEntries(v, p, name, x, v');
    forall h | h != p ensures Entries(v', h) == Entries(v, h) {
      if h != x {
        EntriesFrame(v, v', h);
      }
    }
  }

  lemma UnlinkedEntries(v: map<nat, Node>, p: nat, name: Name, x: nat, v': map<nat, Node>)
    requires UnlinkStep(v, p, name, x, v')
    ensures Entries(v', x) == Entries(v, x)
  {
    hide Table, SlotsIn, IsDir, OnlyDots, Entries, NewTable;
    if x in v' {
      EntriesFrame(v, v', x);
    } else {
      NoDirNoEntries(v', x);
      if IsDir(v[x].mode) {
        OnlyDotsNoEntries(v, x);
      } else {
        NoDirNoEntries(v, x);
      }
    }
  }

  lemma SameEntries(v: map<nat, Node>, v': map<nat, Node>)
    requires SameNames(v, v')
    ensures forall h :: Entries(v', h) == Entries(v, h)
  {
    hide Table, SlotsIn, IsDir;
    forall h ensures Entries(v', h) == Entries(v, h) {
      assert h in v ==> SameNode(v, v', h);
    }
  }

  // ---- link counts ----

  lemma CreateKeepsRefs(v: map<nat, Node>, p: nat, name: Name, x: nat, v': map<nat, Node>)
    requires RefsOk(v) && DirsOk(v) && ROOT in v && CreateStep(v, p, name, x, v')
    ensures RefsOk(v') && Links(v', x) == {Link(p, name)}
    ensures forall y: int :: y != x ==> Links(v', y) == Links(v, y)
  {
    hide Table, SlotsIn, IsDir, FreshDir, Entries, Links, DirsOk, NewTable;
    NewTableMode(v, p, Table(SlotsIn(v, p))[name := x], v');
    CreateEntries(v, p, name, x, v');
    LinksGain(v, v', p, name, x);
    NoLinksToStrangers(v, x);
    assert Links(v', x) == {Link(p, name)};
  }

  lemma LinkKeepsRefs(v: map<nat, Node>, p: nat, name: Name, x: nat, v': map<nat, Node>)
    requires RefsOk(v) && ROOT in v && IsDir(v[ROOT].mode) && LinkStep(v, p, name, x, v')
    ensures RefsOk(v')
    ensures forall y: int :: y != x ==> Links(v', y) == Links(v, y)
  {
    hide Table, SlotsIn, IsDir, Entries, Links, NewTable, RefsOk;
    NewTableMode(v, p, Table(SlotsIn(v, p))[name := x], v');
    LinkEntries(v, p, name, x, v');
    LinksGain(v, v', p, name, x);
    assert |Links(v', x)| == |Links(v, x)| + 1;
    RefsGain(v, v', p, x);
  }

  /** One link more and one reference more for one file. */
  lemma RefsGain(v: map<nat, Node>, v': map<nat, Node>, p: nat, x: nat)
    requires RefsOk(v) && OnlyThese(v, v', p, x) && p in v && p in v' && v'[p].refs == v[p].refs
    requires x in v && x in v' && x != p && x != ROOT && v'[x].refs == v[x].refs + 1
    requires |Links(v', x)| == |Links(v, x)| + 1
    requires forall y: int :: y != x ==> Links(v', y) == Links(v, y)
    ensures RefsOk(v')
  {
    hide Links, Entries;
    forall h | h in v' && h != ROOT ensures v'[h].refs == |Links(v', h)| && 1 <= |Links(v', h)| {
      if h != x {
        assert h in v && v'[h].refs == v[h].refs && Links(v', h) == Links(v, h);
      }
    }
  }

  lemma UnlinkKeepsRefs(v: map<nat, Node>, p: nat, name: Name, x: nat, v': map<nat, Node>)
    requires RefsOk(v) && ROOT in v && UnlinkStep(v, p, name, x, v')
    ensures RefsOk(v') && x != ROOT
    ensures x !in v' ==> Links(v', x) == {}
    ensures forall y: int :: y != x ==> Links(v', y) == Links(v, y)
  {
    hide Table, SlotsIn, IsDir, Entries, Links, NewTable, OnlyDots;
    NewTableMode(v, p, Table(SlotsIn(v, p)) - {name}, v');
    UnlinkEntries(v, p, name, x, v');
    LinksLose(v, v', p, name, x);
    assert |Links(v', x)| == |Links(v, x)| - 1;
  }

  lemma SameNamesKeepsRefs(v: map<nat, Node>, v': map<nat, Node>)
    requires RefsOk(v) && SameNames(v, v')
    ensures RefsOk(v')
    ensures forall y: int :: Links(v', y) == Links(v, y)
  {
    hide Table, SlotsIn, IsDir, Entries, Links;
    SameEntries(v, v');
    LinksSame(v, v');
    forall x | x in v' && x != ROOT ensures v'[x].refs == |Links(v', x)| {
      assert SameNode(v, v', x);
    }
  }

  // ---- tables ----

  /** A directory whose table is fine and names existing files only. */
  ghost predicate TableOk(v: map<nat, Node>, h: nat)
    requires h in v
  {
    EntriesOk(v, h) && Tidy(SlotsIn(v, h))
  }

  lemma TablesOkAt(v: map<nat, Node>)
    ensures TablesOk(v) <==> forall h :: h in v && IsDir(v[h].mode) ==> TableOk(v, h)
  {
    if TablesOk(v) {
      forall h | h in v && IsDir(v[h].mode) ensures TableOk(v, h) {
        assert EntriesOk(v, h);
      }
    }
  }

  lemma TableOkFrame(v: map<nat, Node>, v': map<nat, Node>, h: nat)
    requires h in v && h in v' && TableOk(v, h) && v.Keys <= v'.Keys
    requires |v'[h].data| % 64 == |v[h].data| % 64 && SlotsIn(v', h) == SlotsIn(v, h)
    ensures TableOk(v', h)
  {
  }

  lemma InsertKeepsTables(v: map<nat, Node>, p: nat, name: Name, x: nat, v': map<nat, Node>)
    requires TablesOk(v) && p in v && IsDir(v[p].mode)
    requires NewTable(v, p, Table(SlotsIn(v, p))[name := x], v') && OnlyThese(v, v', p, x) && x in v'
    requires x != p && (IsDir(v'[x].mode) ==> TableOk(v', x))
    ensures TablesOk(v')
  {
    hide Table, SlotsIn, IsDir, Tidy, TablesOk, EntriesOk;
    TablesOkAt(v);
    TablesOkAt(v');
    assert TableOk(v, p);
    InsertedTableOk(v, p, name, x, v');
    forall h | h in v' && IsDir(v'[h].mode) ensures TableOk(v', h) {
      if h != p && h != x {
        assert TableOk(v, h);
        SameSlots(v, v', h);
        TableOkFrame(v, v', h);
      }
    }
  }

  lemma InsertedTableOk(v: map<nat, Node>, p: nat, name: Name, x: nat, v': map<nat, Node>)
    requires p in v && IsDir(v[p].mode) && TableOk(v, p)
    requires NewTable(v, p, Table(SlotsIn(v, p))[name := x], v') && OnlyThese(v, v', p, x) && x in v'
    ensures TableOk(v', p)
  {
    hide Table, SlotsIn, IsDir, Tidy;
    forall n | n in Table(SlotsIn(v', p)) ensures Table(SlotsIn(v', p))[n] in v' {
      if n != name {
        assert Table(SlotsIn(v, p))[n] in v;
      }
    }
  }

  lemma FreshTableOk(v: map<nat, Node>, x: nat, p: nat)
    requires x in v && p in v && FreshDir(v, x, p)
    ensures TableOk(v, x)
  {
    hide Table, SlotsIn, Tidy;
  }

  lemma CreateKeepsTables(v: map<nat, Node>, p: nat, name: Name, x: nat, v': map<nat, Node>)
    requires TablesOk(v) && CreateStep(v, p, name, x, v')
    ensures TablesOk(v')
  {
    hide Table, SlotsIn, IsDir, Tidy, TablesOk, EntriesOk, FreshDir;
    if IsDir(v'[x].mode) {
      FreshTableOk(v', x, p);
    }
    InsertKeepsTables(v, p, name, x, v');
  }

  lemma LinkKeepsTables(v: map<nat, Node>, p: nat, name: Name, x: nat, v': map<nat, Node>)
    requires TablesOk(v) && LinkStep(v, p, name, x, v')
    ensures TablesOk(v')
  {
    hide Table, SlotsIn, IsDir, Tidy, TablesOk, EntriesOk;
    InsertKeepsTables(v, p, name, x, v');
  }

  lemma SameNamesKeepsTables(v: map<nat, Node>, v': map<nat, Node>)
    requires TablesOk(v) && SameNames(v, v')
    ensures TablesOk(v')
  {
    hide Table, SlotsIn, IsDir, Tidy, TablesOk, EntriesOk;
    TablesOkAt(v);
    TablesOkAt(v');
    forall h | h in v' && IsDir(v'[h].mode) ensures TableOk(v', h) {
      assert SameNode(v, v', h);
      TableOkFrame(v, v', h);
    }
  }

  /** No entry of a remaining directory names the file that is removed. */
  lemma NoDotNames(v: map<nat, Node>, up: map<nat, Up>, x: nat, h: nat)
    requires ROOT in v && IsDir(v[ROOT].mode) && TreeWith(v, up) && x in v && x != ROOT
    requires IsDir(v[x].mode) ==> Entries(v, x) == map[]
    requires h in v && IsDir(v[h].mode) && h != x
    ensures Above(up, h) != x
    ensures var m := Table(SlotsIn(v, h));
            && (DOT in m ==> m[DOT] != x) && (DOTDOT in m ==> m[DOTDOT] != x)
  {
    hide Table, SlotsIn, IsDir, Entries;
    assert DotsOk(v, up, h);
    if h != ROOT {
      assert UpOk(v, up, h);
      assert up[h].link in Links(v, h);
    }
  }

  lemma UnlinkedTableOk(v: map<nat, Node>, up: map<nat, Up>, p: nat, name: Name, x: nat, v': map<nat, Node>, h: nat)
    requires ROOT in v && IsDir(v[ROOT].mode) && TreeWith(v, up) && UnlinkStep(v, p, name, x, v') && x != ROOT
    requires x !in v' ==> Links(v', x) == {}
    requires h in v' && h != x && IsDir(v'[h].mode) && h in v && TableOk(v, h)
    ensures TableOk(v', h)
  {
    hide Table, Tidy, OnlyDots, IsDir, TreeWith, SlotsIn, UnlinkStep, Links;
    UnlinkedTable(v, p, name, x, v', h);
    forall n | n in Table(SlotsIn(v', h)) ensures Table(SlotsIn(v', h))[n] in v' {
      TargetStays(v, up, p, name, x, v', h, n);
    }
  }

  lemma TargetStays(v: map<nat, Node>, up: map<nat, Up>, p: nat, name: Name, x: nat, v': map<nat, Node>, h: nat,
                    n: Name)
    requires ROOT in v && IsDir(v[ROOT].mode) && TreeWith(v, up) && UnlinkStep(v, p, name, x, v') && x != ROOT
    requires x !in v' ==> Links(v', x) == {}
    requires h in v' && h != x && IsDir(v'[h].mode) && h in v && TableOk(v, h) && n in Table(SlotsIn(v', h))
    ensures Table(SlotsIn(v', h))[n] in v'
  {
    hide Table, Tidy, OnlyDots, IsDir, TreeWith, SlotsIn, NewTable, Links;
    UnlinkedTable(v, p, name, x, v', h);
    NewTableMode(v, p, Table(SlotsIn(v, p)) - {name}, v');
    if Table(SlotsIn(v', h))[n] == x {
      if NonDot(n) {
        LinkHeld(v', h, n);
      } else {
        if IsDir(v[x].mode) {
          OnlyDotsNoEntries(v, x);
        }
        NoDotNames(v, up, x, h);
      }
    }
  }

  lemma LinkHeld(v: map<nat, Node>, h: nat, n: Name)
    requires h in v && IsDir(v[h].mode) && NonDot(n) && n in Table(SlotsIn(v, h))
    ensures Link(h, n) in Links(v, Table(SlotsIn(v, h))[n])
  {
    hide Table, SlotsIn, IsDir;
    assert n in Entries(v, h);
  }

  /** The other directories keep their tables, and the table of `p` loses one name. */
  lemma UnlinkedTable(v: map<nat, Node>, p: nat, name: Name, x: nat, v': map<nat, Node>, h: nat)
    requires UnlinkStep(v, p, name, x, v') && h in v' && h != x && h in v
    requires IsDir(v'[h].mode) && TableOk(v, h)
    ensures v'[h].mode == v[h].mode && |v'[h].data| % 64 == 0 && Tidy(SlotsIn(v', h))
    ensures var m, m' := Table(SlotsIn(v, h)), Table(SlotsIn(v', h));
            forall n :: n in m' ==> n in m && m'[n] == m[n]
  {
    hide Table, Tidy, OnlyDots, IsDir, SlotsIn;
    if h != p {
      SameSlots(v, v', h);
    }
  }

  lemma UnlinkKeepsTables(v: map<nat, Node>, up: map<nat, Up>, p: nat, name: Name, x: nat, v': map<nat, Node>)
    requires ROOT in v && IsDir(v[ROOT].mode) && TablesOk(v) && TreeWith(v, up) && UnlinkStep(v, p, name, x, v')
    requires x != ROOT && (x !in v' ==> Links(v', x) == {}) && (x in v' ==> !IsDir(v[x].mode))
    ensures TablesOk(v')
  {
    hide Table, SlotsIn, IsDir, Tidy, TablesOk, TreeWith, Links, NewTable, OnlyDots, TableOk;
    TablesOkAt(v);
    TablesOkAt(v');
    forall h | h in v' && IsDir(v'[h].mode) ensures TableOk(v', h) {
      NewTableMode(v, p, Table(SlotsIn(v, p)) - {name}, v');
      assert h != x;
      UnlinkedTableOk(v, up, p, name, x, v', h);
    }
  }

  lemma NewTableMode(v: map<nat, Node>, p: nat, m: map<Name, int>, v': map<nat, Node>)
    requires NewTable(v, p, m, v')
    ensures p in v && IsDir(v[p].mode) && p in v' && v'[p].mode == v[p].mode && v'[p].refs == v[p].refs
  {
  }

  // ---- the tree ----

  lemma CreateKeepsTree(v: map<nat, Node>, up: map<nat, Up>, p: nat, name: Name, x: nat, v': map<nat, Node>)
    requires ROOT in v && DirsOk(v) && TreeWith(v, up) && CreateStep(v, p, name, x, v')
    requires Links(v', x) == {Link(p, name)} && forall y: int :: y != x ==> Links(v', y) == Links(v, y)
    ensures TreeWith(v', if IsDir(v'[x].mode) then up[x := Up(Link(p, name), DepthOf(up, p) + 1)] else up)
  {
    hide Table, SlotsIn, IsDir, Links, UpOk, DotsOk, CreateStep;
    CreatedIsNew(v, p, name, x, v');
    var up' := if IsDir(v'[x].mode) then up[x := Up(Link(p, name), DepthOf(up, p) + 1)] else up;
    forall h | h in v' && IsDir(v'[h].mode) ensures DotsOk(v', up', h) && (h != ROOT ==> UpOk(v', up', h)) {
      if h == x {
        CreatedInTree(v, up, p, name, x, v');
      } else {
        OthersInTree(v, up, p, name, x, v', h);
      }
    }
  }

  lemma CreatedIsNew(v: map<nat, Node>, p: nat, name: Name, x: nat, v': map<nat, Node>)
    requires CreateStep(v, p, name, x, v')
    ensures x !in v && x in v' && p in v && p != x
    ensures v'.Keys == v.Keys + {x}
  {
    hide NewTable, FreshDir, Table, SlotsIn, IsDir;
    NewTableMode(v, p, Table(SlotsIn(v, p))[name := x], v');
  }

  lemma CreatedInTree(v: map<nat, Node>, up: map<nat, Up>, p: nat, name: Name, x: nat, v': map<nat, Node>)
    requires CreateStep(v, p, name, x, v') && IsDir(v'[x].mode) && Links(v', x) == {Link(p, name)}
    ensures var up' := up[x := Up(Link(p, name), DepthOf(up, p) + 1)];
            UpOk(v', up', x) && DotsOk(v', up', x)
  {
    hide Table, SlotsIn, IsDir, Links, NewTable;
    NewTableMode(v, p, Table(SlotsIn(v, p))[name := x], v');
  }

  lemma OthersInTree(v: map<nat, Node>, up: map<nat, Up>, p: nat, name: Name, x: nat, v': map<nat, Node>, h: nat)
    requires TreeWith(v, up) && CreateStep(v, p, name, x, v') && h in v' && IsDir(v'[h].mode) && h != x
    requires Links(v', h) == Links(v, h)
    ensures var up' := if IsDir(v'[x].mode) then up[x := Up(Link(p, name), DepthOf(up, p) + 1)] else up;
            DotsOk(v', up', h) && (h != ROOT ==> UpOk(v', up', h))
  {
    hide Table, SlotsIn, IsDir, Links, FreshDir, Tidy, NewTable, UpOk, DotsOk;
    NewTableMode(v, p, Table(SlotsIn(v, p))[name := x], v');
    var up' := if IsDir(v'[x].mode) then up[x := Up(Link(p, name), DepthOf(up, p) + 1)] else up;
    assert DotsOk(v, up, h);
    if h != p {
      SameSlots(v, v', h);
      DotsFrame(v, up, v', up', h);
    } else {
      DotsAfterInsert(v, up, p, name, x, v', up');
    }
    if h != ROOT {
      assert UpOk(v, up, h);
      ParentExists(v, up, h);
      UpFrame(v, up, v', up', h);
    }
  }

  lemma ParentExists(v: map<nat, Node>, up: map<nat, Up>, h: nat)
    requires h in v && UpOk(v, up, h)
    ensures h in up && up[h].link.dir in v
  {
  }

  lemma DotsFrame(v: map<nat, Node>, up: map<nat, Up>, v': map<nat, Node>, up': map<nat, Up>, h: nat)
    requires h in v && h in v' && DotsOk(v, up, h) && SlotsIn(v', h) == SlotsIn(v, h) && Above(up', h) == Above(up, h)
    ensures DotsOk(v', up', h)
  {
    hide Table, SlotsIn;
  }

  lemma DotsAfterInsert(v: map<nat, Node>, up: map<nat, Up>, p: nat, name: Name, x: nat, v': map<nat, Node>,
                        up': map<nat, Up>)
    requires p in v && DotsOk(v, up, p) && NonDot(name)
    requires NewTable(v, p, Table(SlotsIn(v, p))[name := x], v') && Above(up', p) == Above(up, p)
    ensures p in v' && DotsOk(v', up', p)
  {
    hide Table, SlotsIn, IsDir, Tidy;
  }

  lemma UpFrame(v: map<nat, Node>, up: map<nat, Up>, v': map<nat, Node>, up': map<nat, Up>, h: nat)
    requires h in v && h in v' && h in up && h in up' && up'[h] == up[h]
    requires UpOk(v, up, h) && Links(v', h) == Links(v, h)
    requires var d := up[h].link.dir;
             d in v && d in v' && v'[d].mode == v[d].mode && DepthOf(up', d) == DepthOf(up, d)
    ensures UpOk(v', up', h)
  {
    hide Links, IsDir, DepthOf;
  }

  lemma LinkKeepsTree(v: map<nat, Node>, up: map<nat, Up>, p: nat, name: Name, x: nat, v': map<nat, Node>)
    requires TreeWith(v, up) && LinkStep(v, p, name, x, v')
    requires forall y: int :: y != x ==> Links(v', y) == Links(v, y)
    ensures TreeWith(v', up)
  {
    hide Table, SlotsIn, IsDir, Links, Tidy;
    forall h | h in v' && IsDir(v'[h].mode) && h != ROOT ensures UpOk(v', up, h) {
      assert UpOk(v, up, h);
    }
    forall h | h in v' && IsDir(v'[h].mode) ensures DotsOk(v', up, h) {
      assert DotsOk(v, up, h);
      if h != p {
        SameSlots(v, v', h);
      }
    }
  }

  lemma UnlinkKeepsTree(v: map<nat, Node>, up: map<nat, Up>, p: nat, name: Name, x: nat, v': map<nat, Node>)
    requires ROOT in v && IsDir(v[ROOT].mode) && TreeWith(v, up) && UnlinkStep(v, p, name, x, v') && x != ROOT
    requires x in v' ==> !IsDir(v[x].mode)
    requires forall y: int :: y != x ==> Links(v', y) == Links(v, y)
    ensures TreeWith(v', up)
  {
    hide Table, SlotsIn, IsDir, Links, Tidy, OnlyDots;
    if IsDir(v[x].mode) {
      OnlyDotsNoEntries(v, x);
    }
    forall h | h in v' && IsDir(v'[h].mode) && h != ROOT ensures UpOk(v', up, h) {
      assert h != x;
      assert UpOk(v, up, h);
      NoDotNames(v, up, x, h);
    }
    forall h | h in v' && IsDir(v'[h].mode) ensures DotsOk(v', up, h) {
      assert h != x;
      assert DotsOk(v, up, h);
      if h != p {
        SameSlots(v, v', h);
      }
    }
  }

  lemma SameNamesKeepsTree(v: map<nat, Node>, up: map<nat, Up>, v': map<nat, Node>)
    requires TreeWith(v, up) && SameNames(v, v')
    requires forall y: int :: Links(v', y) == Links(v, y)
    ensures TreeWith(v', up)
  {
    hide Table, SlotsIn, IsDir, Links;
    forall h | h in v' && IsDir(v'[h].mode) ensures DotsOk(v', up, h) && (h != ROOT ==> UpOk(v', up, h)) {
      assert SameNode(v, v', h);
      assert DotsOk(v, up, h);
      if h != ROOT {
        assert UpOk(v, up, h);
        assert SameNode(v, v', up[h].link.dir);
      }
    }
  }

  // ---- every step, every run ----

  lemma CreateKeepsNames(v: map<nat, Node>, p: nat, name: Name, x: nat, v': map<nat, Node>)
    requires NamesOk(v) && CreateStep(v, p, name, x, v')
    ensures NamesOk(v')
  {
    hide TablesOk, RefsOk, TreeWith, IsDir, FreshDir, SlotsIn, Table, Links;
    TablesGiveDirs(v);
    CreateKeepsRefs(v, p, name, x, v');
    CreateKeepsTables(v, p, name, x, v');
    var up: map<nat, Up> :| TreeWith(v, up);
    CreateKeepsTree(v, up, p, name, x, v');
  }

  lemma TablesGiveDirs(v: map<nat, Node>)
    requires TablesOk(v)
    ensures DirsOk(v)
  {
  }

  lemma LinkKeepsNames(v: map<nat, Node>, p: nat, name: Name, x: nat, v': map<nat, Node>)
    requires NamesOk(v) && LinkStep(v, p, name, x, v')
    ensures NamesOk(v')
  {
    hide TablesOk, RefsOk, TreeWith, IsDir, SlotsIn, Table, Links;
    LinkKeepsRefs(v, p, name, x, v');
    LinkKeepsTables(v, p, name, x, v');
    var up: map<nat, Up> :| TreeWith(v, up);
    LinkKeepsTree(v, up, p, name, x, v');
  }

  /** A directory has one entry, so unlinking it removes it. */
  lemma DirHasOneLink(v: map<nat, Node>, x: nat)
    requires RefsOk(v) && TreeOk(v) && x in v && IsDir(v[x].mode) && x != ROOT
    ensures v[x].refs == 1
  {
    hide IsDir, Links;
    var up: map<nat, Up> :| TreeWith(v, up);
    assert UpOk(v, up, x);
  }

  lemma UnlinkKeepsNames(v: map<nat, Node>, p: nat, name: Name, x: nat, v': map<nat, Node>)
    requires NamesOk(v) && UnlinkStep(v, p, name, x, v')
    ensures NamesOk(v')
  {
    hide TablesOk, RefsOk, TreeWith, IsDir, SlotsIn, Table, Links, OnlyDots;
    UnlinkKeepsRefs(v, p, name, x, v');
    if IsDir(v[x].mode) {
      DirHasOneLink(v, x);
    }
    var up: map<nat, Up> :| TreeWith(v, up);
    UnlinkKeepsTables(v, up, p, name, x, v');
    UnlinkKeepsTree(v, up, p, name, x, v');
  }

  lemma SameNamesKeepsNames(v: map<nat, Node>, v': map<nat, Node>)
    requires NamesOk(v) && SameNames(v, v')
    ensures NamesOk(v')
  {
    hide TablesOk, RefsOk, TreeWith, IsDir, SlotsIn, Table, Links;
    SameNamesKeepsRefs(v, v');
    SameNamesKeepsTables(v, v');
    var up: map<nat, Up> :| TreeWith(v, up);
    SameNamesKeepsTree(v, up, v');
    assert SameNode(v, v', ROOT);
  }

  /** Every step keeps the invariant. */
  lemma StepKeepsNames(v: map<nat, Node>, v': map<nat, Node>)
    requires NamesOk(v) && Step(v, v')
    ensures NamesOk(v')
  {
    hide NamesOk, SameNames, CreateStep, LinkStep, UnlinkStep;
    if SameNames(v, v') {
      SameNamesKeepsNames(v, v');
    } else if exists p: nat, name: Name, x: nat :: CreateStep(v, p, name, x, v') {
      var p: nat, name: Name, x: nat :| CreateStep(v, p, name, x, v');
      CreateKeepsNames(v, p, name, x, v');
    } else if exists p: nat, name: Name, x: nat :: LinkStep(v, p, name, x, v') {
      var p: nat, name: Name, x: nat :| LinkStep(v, p, name, x, v');
      LinkKeepsNames(v, p, name, x, v');
    } else {
      var p: nat, name: Name, x: nat :| UnlinkStep(v, p, name, x, v');
      UnlinkKeepsNames(v, p, name, x, v');
    }
  }

  /** A run of the name space. */
  ghost predicate IsRun(run: seq<map<nat, Node>>) {
    run != [] && forall i :: 0 <= i < |run| - 1 ==> Step(run[i], run[i + 1])
  }

  /** The invariant holds all along every run that starts with it. */
  lemma {:induction false} RunKeepsNames(run: seq<map<nat, Node>>, n: nat)
    requires IsRun(run) && NamesOk(run[0]) && n < |run|
    ensures NamesOk(run[n])
  {
    hide NamesOk, Step;
    if n > 0 {
      RunKeepsNames(run, n - 1);
      StepKeepsNames(run[n - 1], run[n]);
    }
  }

  /** The root has its old table, or that with `..` naming the root itself. */
  ghost predicate RootRelinked(v: map<nat, Node>, v': map<nat, Node>) {
    && ROOT in v && ROOT in v' && OnlyThese(v, v', ROOT, ROOT)
    && (NewTable(v, ROOT, Table(SlotsIn(v, ROOT)), v') || NewTable(v, ROOT, Table(SlotsIn(v, ROOT))[DOTDOT := ROOT], v'))
  }

  lemma RootRelinkedTable(v: map<nat, Node>, v': map<nat, Node>, h: nat)
    requires RootRelinked(v, v') && h in v && IsDir(v[h].mode) && TableOk(v, h)
    ensures v'.Keys == v.Keys && v'[h].mode == v[h].mode && TableOk(v', h)
  {
    hide Table, SlotsIn, IsDir, Tidy;
    if h != ROOT {
      SameSlots(v, v', h);
    }
  }

  lemma RootRelinkedDots(v: map<nat, Node>, v': map<nat, Node>, up: map<nat, Up>, h: nat)
    requires RootRelinked(v, v') && TreeWith(v, up) && h in v && IsDir(v[h].mode)
    requires forall y: int :: Links(v', y) == Links(v, y)
    ensures h in v' && DotsOk(v', up, h) && (h != ROOT ==> UpOk(v', up, h))
  {
    hide Table, SlotsIn, IsDir, Tidy, Links;
    assert DotsOk(v, up, h);
    if h != ROOT {
      assert UpOk(v, up, h);
      SameSlots(v, v', h);
    }
  }

  /** The table of the root may change in its `..`. */
  lemma DotDotKeepsNames(v: map<nat, Node>, v': map<nat, Node>)
    requires NamesOk(v) && RootRelinked(v, v')
    ensures NamesOk(v')
  {
    hide Table, SlotsIn, IsDir, Tidy, TablesOk, RefsOk, Links, Entries, RootRelinked, TableOk, DotsOk, UpOk;
    TablesOkAt(v);
    TablesOkAt(v');
    RootRelinkedTable(v, v', ROOT);
    forall h ensures Entries(v', h) == Entries(v, h) {
      RootRelinkedEntries(v, v', h);
    }
    LinksSame(v, v');
    RootRelinkedRefs(v, v');
    var up: map<nat, Up> :| TreeWith(v, up);
    forall h | h in v' && IsDir(v'[h].mode)
      ensures DotsOk(v', up, h) && (h != ROOT ==> UpOk(v', up, h)) && TableOk(v', h)
    {
      RootRelinkedMode(v, v', h);
      RootRelinkedTable(v, v', h);
      RootRelinkedDots(v, v', up, h);
    }
    assert TreeWith(v', up);
  }

  lemma RootRelinkedMode(v: map<nat, Node>, v': map<nat, Node>, h: nat)
    requires RootRelinked(v, v') && h in v'
    ensures h in v && v'[h].mode == v[h].mode && v'[h].refs == v[h].refs
  {
    hide Table, SlotsIn, IsDir, Tidy;
  }

  lemma RootRelinkedEntries(v: map<nat, Node>, v': map<nat, Node>, h: nat)
    requires RootRelinked(v, v')
    ensures Entries(v', h) == Entries(v, h)
  {
    hide Table, SlotsIn, IsDir, Tidy;
    if h != ROOT {
      EntriesFrame(v, v', h);
    }
  }

  lemma RootRelinkedRefs(v: map<nat, Node>, v': map<nat, Node>)
    requires RootRelinked(v, v') && RefsOk(v) && v'.Keys == v.Keys
    requires forall y: int :: Links(v', y) == Links(v, y)
    ensures RefsOk(v')
  {
    hide RootRelinked, RefsOk, Links, Entries;
    forall h | h in v ensures v'[h].refs == v[h].refs {
      RootRelinkedMode(v, v', h);
    }
    RefsSame(v, v');
  }

  lemma RefsSame(v: map<nat, Node>, v': map<nat, Node>)
    requires RefsOk(v) && v'.Keys == v.Keys && (forall y: int :: Links(v', y) == Links(v, y))
    requires forall h :: h in v ==> v'[h].refs == v[h].refs
    ensures RefsOk(v')
  {
    hide Links, Entries;
  }

  // ---- what the invariant means ----

  /** Where following `..` `n` times leads. */
  ghost function Climb(v: map<nat, Node>, h: int, n: nat): int
    decreases n
  {
    if n == 0 then h
    else if h in v then Climb(v, LookupIn(SlotsIn(v, h), DOTDOT), n - 1)
    else -1
  }

  /** All directories have their two dots. */
  ghost predicate AllDotted(v: map<nat, Node>) {
    forall h :: h in v && IsDir(v[h].mode) ==> BothDots(SlotsIn(v, h))
  }

  predicate BothDots(slots: seq<Slot>) {
    DOT in Table(slots) && DOTDOT in Table(slots)
  }

  lemma DotDotLookup(v: map<nat, Node>, h: nat)
    requires AllDotted(v) && h in v && IsDir(v[h].mode)
    ensures DOTDOT in Table(SlotsIn(v, h)) && LookupIn(SlotsIn(v, h), DOTDOT) == Table(SlotsIn(v, h))[DOTDOT]
  {
    hide SlotsIn, IsDir;
  }

  lemma {:induction false} ClimbsToRoot(v: map<nat, Node>, up: map<nat, Up>, h: nat)
    requires ROOT in v && TreeWith(v, up) && AllDotted(v) && h in v && IsDir(v[h].mode)
    ensures Climb(v, h, DepthOf(up, h)) == ROOT
    decreases DepthOf(up, h)
  {
    hide Table, SlotsIn, IsDir, Links, AllDotted, LookupIn, Entries;
    if h != ROOT {
      assert UpOk(v, up, h) && DotsOk(v, up, h);
      DotDotLookup(v, h);
      ClimbsToRoot(v, up, up[h].link.dir);
    }
  }

  /** Entry `l` is the only one that names directory `h`, and the `..` of `h` leads back to it. */
  ghost predicate OnlyLink(v: map<nat, Node>, h: nat, l: Link)
    requires h in v
  {
    Links(v, h) == {l} && (DOTDOT in Table(SlotsIn(v, h)) ==> Table(SlotsIn(v, h))[DOTDOT] == l.dir)
  }

  /** Every directory but the root has exactly one entry, which is in the directory that its `..`
    names, and following `..` reaches the root. */
  lemma DirectoriesFormTree(v: map<nat, Node>, h: nat)
    requires NamesOk(v) && h in v && IsDir(v[h].mode)
    ensures h != ROOT ==> exists l :: OnlyLink(v, h, l)
    ensures AllDotted(v) ==> exists n: nat :: Climb(v, h, n) == ROOT
  {
    hide Table, SlotsIn, IsDir, Links, AllDotted, Climb, RefsOk, TablesOk;
    var up: map<nat, Up> :| TreeWith(v, up);
    if h != ROOT {
      assert UpOk(v, up, h) && DotsOk(v, up, h);
      assert OnlyLink(v, h, up[h].link);
    }
    if AllDotted(v) {
      ClimbsToRoot(v, up, h);
    }
  }

  /** Every entry names an existing file, and every file but the root has as many entries as its link
    count says, at least one. */
  lemma NoDanglingNoOrphan(v: map<nat, Node>, h: nat, name: Name, x: nat)
    requires NamesOk(v)
    ensures name in Entries(v, h) ==> Entries(v, h)[name] in v
    ensures x in v && x != ROOT ==> v[x].refs == |Links(v, x)| && exists l :: l in Links(v, x)
  {
    hide Entries, Links;
    TablesGiveDirs(v);
    if name in Entries(v, h) {
      EntriesName(v, h, name);
    }
    if x in v && x != ROOT {
      var l :| l in Links(v, x);
    }
  }
}
