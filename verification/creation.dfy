/** What creating a file amounts to in the name space: the effects of its stages, put together. */
module Creation {
  import opened Specs
  import opened Content
  import opened Files
  import opened Slots
  import opened Directory
  import opened Path
  import opened Namespace
  import opened Invariant

  /** A file just allocated as `x`: no links yet, and if it is a directory, at most its `.` entry. */
  ghost predicate Newborn(v: map<nat, Node>, x: nat) {
    && x in v && v[x].refs == 0 && !v[x].stub
    && (IsDir(v[x].mode) ==> |v[x].data| % 64 == 0 && SlotsIn(v, x) in {[], [Slot(DOT, x)]})
  }

  /** File `x` is new, everything else is as before. */
  ghost predicate Born(v: map<nat, Node>, x: nat, v': map<nat, Node>) {
    x !in v && Newborn(v', x) && v' == v[x := v'[x]]
  }

  lemma BornFile(v: map<nat, Node>, x: nat, mode: int, v': map<nat, Node>)
    requires x !in v && v' == v[x := Node(0, mode, false, [])]
    ensures Born(v, x, v')
  {
    if IsDir(mode) {
      assert SlotsIn(v', x) == [];
    }
  }

  lemma BornDir(v: map<nat, Node>, x: nat, mode: int, va: map<nat, Node>, room: bool, v': map<nat, Node>)
    requires x !in v && va == v[x := Node(0, mode, false, [])] && InitEffect(va, x, room, v')
    ensures Born(v, x, v') && IsDir(v'[x].mode) && v'[x].mode == DirMode(mode)
    ensures SlotsIn(v', x) == if room then [Slot(DOT, x)] else []
  {
    hide DirMode, IsDir;
    assert v' == v[x := v'[x]];
  }

  /** The few tables a new directory can have. */
  lemma NewbornTable(slots: seq<Slot>, x: nat, p: nat)
    requires slots in {[], [Slot(DOT, x)], [Slot(DOTDOT, p)], [Slot(DOT, x), Slot(DOTDOT, p)]}
    ensures Tidy(slots) && OnlyDots(slots)
    ensures forall name :: name in Table(slots) ==> !NonDot(name)
    ensures var m := Table(slots); (DOT in m ==> m[DOT] == x) && (DOTDOT in m ==> m[DOTDOT] == p)
  {
    assert DOT != DOTDOT by {
      assert |DOT| == 1 && |DOTDOT| == 2;
    }
    OnlyDotsIsEmpty(slots);
  }

  /** A new file is invisible to path resolution. */
  lemma BornUnseen(v: map<nat, Node>, x: nat, v': map<nat, Node>)
    requires TablesOk(v) && Born(v, x, v')
    ensures DirsOk(v') && SameTables(v, v')
  {
    hide IsDir, SlotsIn, Table, Tidy;
    forall h | h in v' && IsDir(v'[h].mode) ensures EntriesOk(v', h) {
      if h == x {
        NewbornTable(SlotsIn(v', x), x, x);
        forall name | name in Table(SlotsIn(v', x)) ensures Table(SlotsIn(v', x))[name] in v' {
          assert name == DOT || name == DOTDOT;
        }
      } else {
        assert EntriesOk(v, h);
        SameSlots(v, v', h);
      }
    }
    forall h | h in v ensures SameTable(v, v', h) {
      SameSlots(v, v', h);
    }
  }

  /** The state after the entry was added in the parent. */
  lemma BornAdded(v: map<nat, Node>, p: nat, name: Name, x: nat, vb: map<nat, Node>, room: bool,
                  mid: map<nat, Node>, rv: int)
    requires TablesOk(v) && p in v && IsDir(v[p].mode) && Born(v, x, vb)
    requires PlainName(name) && LookupIn(SlotsIn(v, p), name) < 0 && p in vb && AddEffect(vb, p, name, x, room, mid, rv)
    ensures x in mid && mid[x] == vb[x] && p in mid && mid.Keys == v.Keys + {x}
    ensures forall h :: h in v && h != p ==> mid[h] == v[h]
    ensures rv >= 0 ==> name !in Table(SlotsIn(v, p)) && NewTable(v, p, Table(SlotsIn(v, p))[name := x], mid)
    ensures rv < 0 ==> SameNode(v, mid, p)
    ensures var rc := AddSlot(SlotsIn(v, p), name, x).0;
            if rc != 0 then rv == rc && rv < 0 else rv >= 0 || rv == -ENOSPC
  {
    hide IsDir, SlotsIn, Table, Tidy, FirstStop, LiveNames, PlainName;
    TablesOkAt(v);
    assert TableOk(v, p);
    SameSlots(v, vb, p);
    var slots := SlotsIn(v, p);
    LookupMisses(v, p, name);
    AddSlotCodes(slots, name, x);
    if name !in Table(slots) {
      AddKeepsTidy(slots, name, x);
    }
  }

  lemma LookupMisses(v: map<nat, Node>, p: nat, name: Name)
    requires p in v && TableOk(v, p) && LookupIn(SlotsIn(v, p), name) < 0
    ensures name !in Table(SlotsIn(v, p)) || |name| >= 60
  {
  }

  lemma AddSlotCodes(slots: seq<Slot>, name: Name, x: int)
    ensures AddSlot(slots, name, x).0 in {0, -EEXIST, -ENAMETOOLONG}
  {
  }

  /** The child after its `..` entry was added, or failed to be. */
  lemma ChildDots(v: map<nat, Node>, x: nat, p: nat, room: bool, v': map<nat, Node>, rv: int)
    requires Newborn(v, x) && IsDir(v[x].mode) && AddEffect(v, x, DOTDOT, p, room, v', rv)
    ensures x in v' && v' == v[x := v'[x]] && v'[x].refs == v[x].refs && v'[x].mode == v[x].mode
    ensures |v'[x].data| % 64 == 0
    ensures SlotsIn(v', x) in {[], [Slot(DOT, x)], [Slot(DOTDOT, p)], [Slot(DOT, x), Slot(DOTDOT, p)]}
    ensures room && SlotsIn(v, x) == [Slot(DOT, x)] ==> SlotsIn(v', x) == [Slot(DOT, x), Slot(DOTDOT, p)]
    ensures !room && SlotsIn(v, x) == [] ==> SlotsIn(v', x) == []
  {
    hide IsDir, SlotsIn;
    assert DOT != DOTDOT by {
      assert |DOT| == 1 && |DOTDOT| == 2;
    }
    var slots := SlotsIn(v, x);
    assert FirstStop(slots, DOTDOT, 0) == |slots| by {
      if slots == [Slot(DOT, x)] {
        assert FirstStop(slots, DOTDOT, 1) == 1;
      }
    }
    assert [] + [Slot(DOTDOT, p)] == [Slot(DOTDOT, p)];
    assert [Slot(DOT, x)] + [Slot(DOTDOT, p)] == [Slot(DOT, x), Slot(DOTDOT, p)];
    assert AddSlot(slots, DOTDOT, p) == (0, slots + [Slot(DOTDOT, p)]);
  }

  /** The two directories an entry is added to. */
  lemma BornPlaces(v: map<nat, Node>, p: nat, x: nat, vb: map<nat, Node>)
    requires TablesOk(v) && p in v && IsDir(v[p].mode) && Born(v, x, vb)
    ensures p in vb && x in vb && x !in v && x != p && DirAt(vb, p) && SlotsIn(vb, p) == SlotsIn(v, p)
    ensures Newborn(vb, x) && !vb[x].stub
    ensures IsDir(vb[x].mode) ==> DirAt(vb, x)
  {
    hide IsDir, SlotsIn, Tidy;
    TablesOkAt(v);
    assert TableOk(v, p);
    SameSlots(v, vb, p);
  }

  /** The new node once its `..` was taken care of. */
  lemma DotsAdded(vb: map<nat, Node>, x: nat, p: nat, mid: map<nat, Node>, room: bool, vc: map<nat, Node>, rv: int)
    requires Newborn(vb, x) && x in mid && mid[x] == vb[x]
    requires if IsDir(vb[x].mode) then AddEffect(mid, x, DOTDOT, p, room, vc, rv) && (|mid[x].data| == 64 ==> room)
             else vc == mid
    ensures x in vc && vc == mid[x := vc[x]] && vc[x].refs == 0 && vc[x].mode == vb[x].mode
    ensures IsDir(vb[x].mode) ==> FreshDir(vc, x, p)
    ensures IsDir(vb[x].mode) && SlotsIn(vb, x) == [Slot(DOT, x)] ==>
              SlotsIn(vc, x) == [Slot(DOT, x), Slot(DOTDOT, p)]
    ensures IsDir(vb[x].mode) && SlotsIn(vb, x) == [] && !room ==> SlotsIn(vc, x) == []
    ensures !IsDir(vb[x].mode) ==> vc[x] == vb[x]
  {
    hide IsDir, AddEffect, SlotAt;
    if IsDir(vb[x].mode) {
      SameSlots(vb, mid, x);
      assert Newborn(mid, x);
      ChildDots(mid, x, p, room, vc, rv);
      FewDots(vc, x, p);
    }
  }

  /** All stages of a creation that succeeded. */
  lemma Created(v: map<nat, Node>, p: nat, name: Name, x: nat, mid: map<nat, Node>, vc: map<nat, Node>,
                v': map<nat, Node>)
    requires p in v && IsDir(v[p].mode) && x !in v && NonDot(name) && name !in Table(SlotsIn(v, p))
    requires x in mid && p in mid && mid.Keys == v.Keys + {x}
    requires forall h :: h in v && h != p ==> mid[h] == v[h]
    requires NewTable(v, p, Table(SlotsIn(v, p))[name := x], mid)
    requires x in vc && vc == mid[x := vc[x]] && vc[x].refs == 0
    requires IsDir(vc[x].mode) ==> FreshDir(vc, x, p)
    requires v' == vc[x := vc[x].(refs := 1)]
    ensures CreateStep(v, p, name, x, v')
  {
    hide IsDir, Table, Tidy, SlotsIn, FreshDir, NewTable;
    NewTableFrame(v, p, Table(SlotsIn(v, p))[name := x], mid, v');
    if IsDir(vc[x].mode) {
      FreshFrame(vc, v', x, p);
    }
  }

  lemma NewTableFrame(v: map<nat, Node>, p: nat, m: map<Name, int>, mid: map<nat, Node>, v': map<nat, Node>)
    requires NewTable(v, p, m, mid) && p in v' && v'[p] == mid[p]
    ensures NewTable(v, p, m, v')
  {
    hide IsDir, Table, Tidy, SlotsIn;
    SameSlots(mid, v', p);
  }

  lemma FreshFrame(v: map<nat, Node>, v': map<nat, Node>, x: nat, p: nat)
    requires x in v && x in v' && v'[x].data == v[x].data && FreshDir(v, x, p)
    ensures FreshDir(v', x, p)
  {
  }

  lemma FewDots(v: map<nat, Node>, x: nat, p: nat)
    requires x in v && |v[x].data| % 64 == 0
    requires SlotsIn(v, x) in {[], [Slot(DOT, x)], [Slot(DOTDOT, p)], [Slot(DOT, x), Slot(DOTDOT, p)]}
    ensures FreshDir(v, x, p)
  {
    hide Table, Tidy, SlotsIn;
    NewbornTable(SlotsIn(v, x), x, p);
  }

  /** A creation that failed: the new file is gone again. */
  lemma Abandoned(v: map<nat, Node>, p: nat, x: nat, mid: map<nat, Node>, v': map<nat, Node>)
    requires p in v && x !in v && mid.Keys == v.Keys + {x} && SameNode(v, mid, p)
    requires forall h :: h in v && h != p ==> mid[h] == v[h]
    requires v' == mid - {x}
    ensures SameNames(v, v')
  {
    hide IsDir, SlotsOf;
    forall h | h in v ensures SameNode(v, v', h) {
    }
  }

  // ---- links and removals ----

  /** The state after an entry for an existing file was added, and its link count raised. */
  lemma Linked(v: map<nat, Node>, p: nat, name: Name, x: nat, room: bool, mid: map<nat, Node>, rv: int)
    requires TablesOk(v) && p in v && IsDir(v[p].mode) && x in v && !IsDir(v[x].mode) && NonDot(name)
    requires PlainName(name) && LookupIn(SlotsIn(v, p), name) < 0 && AddEffect(v, p, name, x, room, mid, rv)
    ensures x in mid && mid[x] == v[x] && p in mid
    ensures rv >= 0 ==> LinkStep(v, p, name, x, mid[x := mid[x].(refs := mid[x].refs + 1)])
    ensures rv >= 0 ==> (mid[p].stub ==> v[p].stub)
    ensures rv < 0 ==> SameNames(v, mid) && OnlyThese(v, mid, p, p)
    ensures var rc := AddSlot(SlotsIn(v, p), name, x).0;
            if rc != 0 then rv == rc && rv < 0 else rv >= 0 || rv == -ENOSPC
  {
    hide IsDir, SlotsIn, Table, Tidy, FirstStop, LiveNames, PlainName;
    TablesOkAt(v);
    assert TableOk(v, p);
    var slots := SlotsIn(v, p);
    LookupMisses(v, p, name);
    AddSlotCodes(slots, name, x);
    if name !in Table(slots) {
      AddKeepsTidy(slots, name, x);
    }
    if rv >= 0 {
      SameSlots(mid, mid[x := mid[x].(refs := mid[x].refs + 1)], p);
    } else {
      forall h | h in v ensures SameNode(v, mid, h) {
        if h != p {
          SameSlots(v, mid, h);
        }
      }
    }
  }

  /** The state after an entry was removed and the link count lowered, or the file freed. */
  lemma Unlinked(v: map<nat, Node>, p: nat, name: Name, x: nat, mid: map<nat, Node>, v': map<nat, Node>)
    requires TablesOk(v) && p in v && IsDir(v[p].mode) && x in v && x != p && NonDot(name)
    requires name in Table(SlotsIn(v, p)) && Table(SlotsIn(v, p))[name] == x
    requires IsDir(v[x].mode) ==> OnlyDots(SlotsIn(v, x)) && v[x].refs == 1
    requires x in mid && p in mid && OnlyThese(v, mid, p, x) && mid[x].refs == v[x].refs
    requires mid[p].refs == v[p].refs && mid[p].mode == v[p].mode && |mid[p].data| % 64 == 0
    requires SlotsIn(mid, p) == RemoveSlot(SlotsIn(v, p), name).1
    requires !IsDir(v[x].mode) ==> mid[x] == v[x]
    requires if v[x].refs > 1 then v' == mid[x := mid[x].(refs := v[x].refs - 1)] else v' == mid - {x}
    ensures UnlinkStep(v, p, name, x, v')
  {
    hide IsDir, SlotsIn, Table, Tidy, RemoveSlot, OnlyDots;
    TablesOkAt(v);
    assert TableOk(v, p);
    RemoveKeepsTidy(SlotsIn(v, p), name);
    SameSlots(mid, v', p);
  }

  /** A directory is not its own child. */
  lemma NotOwnChild(v: map<nat, Node>, p: nat, name: Name)
    requires NamesOk(v) && p in v && IsDir(v[p].mode) && NonDot(name) && name in Table(SlotsIn(v, p))
    ensures Table(SlotsIn(v, p))[name] != p
  {
    hide IsDir, SlotsIn, Table, TablesOk, Links;
    var up: map<nat, Up> :| TreeWith(v, up);
    var q := Table(SlotsIn(v, p))[name];
    assert name in Entries(v, p) && Entries(v, p)[name] == q;
    assert Link(p, name) in Links(v, q);
    if q in v && IsDir(v[q].mode) && q != ROOT {
      assert UpOk(v, up, q);
    }
  }
}
