/** Resolving paths against the tree of directories. */
module Path {
  import opened Specs
  import opened Disks
  import Files
  import opened Content
  import opened Slots
  import opened Directory
  import opened SList

  /** Every directory has a whole number of entries, and every live entry names a file. */
  ghost predicate DirsOk(v: map<nat, Node>) {
    forall h :: h in v && IsDir(v[h].mode) ==> EntriesOk(v, h)
  }

  ghost predicate EntriesOk(v: map<nat, Node>, h: nat)
    requires h in v
  {
    && |v[h].data| % 64 == 0
    && forall name :: name in Table(SlotsIn(v, h)) ==> Table(SlotsIn(v, h))[name] in v
  }

  /** What the components of a path lead to from directory `root`: an inode or an error.  Blank
    components are skipped, and a blank last one stands for the directory reached so far. */
  ghost function Resolve(v: map<nat, Node>, root: nat, comps: seq<Name>): (r: int)
    requires DirsOk(v) && root in v && IsDir(v[root].mode)
    ensures r in v || r == -ENOENT || r == -ENOTDIR
    decreases |comps|
  {
    if comps == [] then -ENOENT
    else if comps[0] == [] then
      if |comps| > 1 then Resolve(v, root, comps[1..]) else root
    else
      assert EntriesOk(v, root);
      var e := LookupIn(SlotsIn(v, root), comps[0]);
      if e < 0 || |comps| == 1 then e
      else if !IsDir(v[e].mode) then -ENOTDIR
      else Resolve(v, e, comps[1..])
  }

  /** Resolving a path is resolving its beginning and going on from there. */
  lemma {:induction false} ResolveComposes(v: map<nat, Node>, root: nat, p: seq<Name>, q: seq<Name>)
    requires DirsOk(v) && root in v && IsDir(v[root].mode) && p != [] && q != []
    ensures var r := Resolve(v, root, p);
            Resolve(v, root, p + q) ==
            if r < 0 then r else if !IsDir(v[r].mode) then -ENOTDIR else Resolve(v, r, q)
    decreases |p|
  {
    assert (p + q)[0] == p[0] && (p + q)[1..] == p[1..] + q;
    if |p| == 1 {
      assert p[1..] + q == q;
    }
    if p[0] == [] {
      if |p| > 1 {
        ResolveComposes(v, root, p[1..], q);
      }
    } else {
      assert EntriesOk(v, root);
      var e := LookupIn(SlotsIn(v, root), p[0]);
      if e >= 0 && |p| > 1 && IsDir(v[e].mode) {
        ResolveComposes(v, e, p[1..], q);
      }
    }
  }

  // ---- the last component ----

  /** The index of the last component that is not blank, or -1. */
  function LastComp(comps: seq<Name>): (i: int)
    ensures -1 <= i < |comps|
    ensures i >= 0 ==> comps[i] != []
    ensures forall j :: i < j < |comps| ==> comps[j] == []
  {
    if comps == [] then -1
    else if comps[|comps| - 1] != [] then |comps| - 1
    else LastComp(comps[..|comps| - 1])
  }

  lemma {:induction false} LastCompUnique(comps: seq<Name>, i: int)
    requires -1 <= i < |comps| && (i >= 0 ==> comps[i] != [])
    requires forall j :: i < j < |comps| ==> comps[j] == []
    ensures i == LastComp(comps)
  {
    if comps != [] && comps[|comps| - 1] == [] {
      LastCompUnique(comps[..|comps| - 1], i);
    }
  }

  /** Finds the last component that is not blank. */
  method CompsPop(comps: seq<Name>) returns (last: int, name: Name)
    ensures last == LastComp(comps)
    ensures name == if last >= 0 then comps[last] else []
  {
    var i := -1;
    last := -1;
    name := [];
    var k: nat := 0;
    while k < |comps|
      invariant k <= |comps| && i == k - 1 && -1 <= last < k
      invariant last >= 0 ==> comps[last] != [] && name == comps[last]
      invariant last < 0 ==> name == []
      invariant forall j :: last < j < k ==> comps[j] == []
    {
      i := i + 1;
      if comps[k] != [] {
        name := comps[k];
        last := i;
      }
      k := k + 1;
    }
    LastCompUnique(comps, last);
  }

  lemma {:induction false} BlanksStay(v: map<nat, Node>, root: nat, blanks: seq<Name>)
    requires DirsOk(v) && root in v && IsDir(v[root].mode)
    requires blanks != [] && forall j :: 0 <= j < |blanks| ==> blanks[j] == []
    ensures Resolve(v, root, blanks) == root
    decreases |blanks|
  {
    if |blanks| > 1 {
      BlanksStay(v, root, blanks[1..]);
    }
  }

  /** The directory that the components before the last one lead to. */
  ghost function Parent(v: map<nat, Node>, root: nat, comps: seq<Name>): int
    requires DirsOk(v) && root in v && IsDir(v[root].mode)
  {
    if LastComp(comps) < 1 then -ENOENT else Resolve(v, root, comps[..LastComp(comps)])
  }

  /** A path with a component after the first leads where its parent directory's entry for the last
    component leads; blanks behind it require a directory. */
  lemma ResolveThroughParent(v: map<nat, Node>, root: nat, comps: seq<Name>)
    requires DirsOk(v) && root in v && IsDir(v[root].mode) && LastComp(comps) >= 1
    ensures var p, r := Parent(v, root, comps), Resolve(v, root, comps);
            && (r >= 0 ==> p in v && IsDir(v[p].mode))
            && (p in v && !IsDir(v[p].mode) ==> r == -ENOTDIR)
            && (p in v && IsDir(v[p].mode) ==>
                  var e := LookupIn(SlotsIn(v, p), comps[LastComp(comps)]);
                  && (r >= 0 ==> r == e)
                  && (r == -ENOENT ==> e == -ENOENT)
                  && (e >= 0 ==> r == e || r == -ENOTDIR)
                  && (LastComp(comps) == |comps| - 1 ==> r == e))
  {
    hide SlotsIn, IsDir, EntriesOk, Table, DirsOk;
    var i := LastComp(comps);
    assert comps == comps[..i] + comps[i..];
    var p := Resolve(v, root, comps[..i]);
    ResolveComposes(v, root, comps[..i], comps[i..]);
    if p in v && IsDir(v[p].mode) {
      assert comps[i..][1..] == comps[i + 1..];
      EntryThenBlanks(v, p, comps[i], comps[i + 1..]);
      assert comps[i..] == [comps[i]] + comps[i + 1..];
    }
  }

  lemma EntryThenBlanks(v: map<nat, Node>, p: nat, name: Name, blanks: seq<Name>)
    requires DirsOk(v) && p in v && IsDir(v[p].mode) && name != []
    requires forall j :: 0 <= j < |blanks| ==> blanks[j] == []
    ensures var e := LookupIn(SlotsIn(v, p), name);
            && (e < 0 ==> e == -ENOENT)
            && (e >= 0 ==> e in v)
            && Resolve(v, p, [name] + blanks) ==
               if e < 0 || blanks == [] || IsDir(v[e].mode) then e else -ENOTDIR
  {
    hide SlotsIn, IsDir, EntriesOk;
    IsDirAt(v, p);
    var e := LookupIn(SlotsIn(v, p), name);
    assert ([name] + blanks)[1..] == blanks;
    if e >= 0 && blanks != [] && IsDir(v[e].mode) {
      BlanksStay(v, e, blanks);
    }
  }

  /** Resolution depends only on which files are directories and on their tables. */
  lemma {:induction false} ResolveFrame(v: map<nat, Node>, v': map<nat, Node>, root: nat, comps: seq<Name>)
    requires DirsOk(v) && DirsOk(v') && root in v && IsDir(v[root].mode)
    requires SameTables(v, v')
    ensures root in v' && IsDir(v'[root].mode) && Resolve(v', root, comps) == Resolve(v, root, comps)
    decreases |comps|
  {
    hide SlotsIn, IsDir, EntriesOk, Table;
    assert SameTable(v, v', root);
    if comps != [] {
      if comps[0] == [] {
        if |comps| > 1 {
          ResolveFrame(v, v', root, comps[1..]);
        }
      } else {
        IsDirAt(v, root);
        var e := LookupIn(SlotsIn(v, root), comps[0]);
        if e >= 0 && |comps| > 1 {
          assert SameTable(v, v', e);
          if IsDir(v[e].mode) {
            ResolveFrame(v, v', e, comps[1..]);
          }
        }
      }
    }
  }

  ghost predicate SameTable(v: map<nat, Node>, v': map<nat, Node>, h: nat)
    requires h in v
  {
    && h in v' && (IsDir(v[h].mode) <==> IsDir(v'[h].mode))
    && (IsDir(v[h].mode) ==> Table(SlotsIn(v', h)) == Table(SlotsIn(v, h)))
  }

  ghost predicate SameTables(v: map<nat, Node>, v': map<nat, Node>) {
    forall h :: h in v ==> SameTable(v, v', h)
  }

  /** The tables of the first state are part of those of the second. */
  ghost predicate MoreTable(v: map<nat, Node>, v': map<nat, Node>, h: nat)
    requires h in v
  {
    && h in v' && (IsDir(v[h].mode) <==> IsDir(v'[h].mode))
    && (IsDir(v[h].mode) ==> forall name :: name in Table(SlotsIn(v, h)) ==>
          name in Table(SlotsIn(v', h)) && Table(SlotsIn(v', h))[name] == Table(SlotsIn(v, h))[name])
  }

  /** A path that leads somewhere still leads there when entries are added. */
  lemma {:induction false} ResolveMonotone(v: map<nat, Node>, v': map<nat, Node>, root: nat, comps: seq<Name>)
    requires DirsOk(v) && DirsOk(v') && root in v && IsDir(v[root].mode)
    requires forall h :: h in v ==> MoreTable(v, v', h)
    requires Resolve(v, root, comps) >= 0
    ensures root in v' && IsDir(v'[root].mode) && Resolve(v', root, comps) == Resolve(v, root, comps)
    decreases |comps|
  {
    hide SlotsIn, IsDir, EntriesOk, Table;
    assert MoreTable(v, v', root);
    if comps != [] {
      if comps[0] == [] {
        if |comps| > 1 {
          ResolveMonotone(v, v', root, comps[1..]);
        }
      } else {
        IsDirAt(v, root);
        var e := LookupIn(SlotsIn(v, root), comps[0]);
        if e >= 0 && |comps| > 1 {
          assert MoreTable(v, v', e);
          if IsDir(v[e].mode) {
            ResolveMonotone(v, v', e, comps[1..]);
          }
        }
      }
    }
  }

  // ---- the methods ----

  ghost predicate NulFree(comps: seq<Name>) {
    forall i :: 0 <= i < |comps| ==> 0 !in comps[i]
  }

  method InumForComps(d: Disk, root: nat, comps: seq<Name>) returns (r: int)
    requires d.Ready() && DirsOk(View(d)) && root in View(d) && IsDir(View(d)[root].mode) && NulFree(comps)
    ensures r == Resolve(View(d), root, comps)
    decreases |comps|
  {
    hide Disk.Valid, View, SlotsIn, IsDir, EntriesOk, LookupIn;
    if comps == [] {
      return -ENOENT;
    }
    assert NulFree(comps[1..]);
    if comps[0] == [] {
      if |comps| > 1 {
        r := InumForComps(d, root, comps[1..]);
        return r;
      }
      return root;
    }
    IsDirAt(View(d), root);
    var e := LookupInum(d, root, comps[0]);
    if e < 0 || |comps| == 1 {
      return e;
    }
    var mode := Files.ModeOf(d, e);
    if !IsDir(mode) {
      return -ENOTDIR;
    }
    r := InumForComps(d, e, comps[1..]);
  }

  lemma IsDirAt(v: map<nat, Node>, h: nat)
    requires DirsOk(v) && h in v && IsDir(v[h].mode)
    ensures DirAt(v, h)
    ensures forall name :: LookupIn(SlotsIn(v, h), name) >= 0 ==> LookupIn(SlotsIn(v, h), name) in v
  {
    assert EntriesOk(v, h);
  }

  lemma {:induction false} PartsNulFree(text: Name, delim: byte)
    requires 0 !in text
    ensures NulFree(Explode(text, delim))
    decreases |text|
  {
    if text != [] {
      var n := Scan(text, delim, 0);
      PartsNulFree(text[n + (if n < |text| then 1 else 0)..], delim);
    }
  }

  /** What a path leads to from directory `root`. */
  method InumForPath(d: Disk, root: nat, path: Name) returns (r: int)
    requires d.Ready() && DirsOk(View(d)) && root in View(d) && IsDir(View(d)[root].mode) && 0 !in path
    ensures r == Resolve(View(d), root, Explode(path, SLASH))
  {
    hide Disk.Valid, View, IsDir;
    var comps := SlistExplode(path, SLASH);
    PartsNulFree(path, SLASH);
    r := InumForComps(d, root, comps);
  }

  /** The directory that holds the last component of a path, and the name of that component. */
  method ParentChild(d: Disk, root: nat, path: Name) returns (parent: int, child: Name)
    requires d.Ready() && DirsOk(View(d)) && root in View(d) && IsDir(View(d)[root].mode) && 0 !in path
    ensures parent == Parent(View(d), root, Explode(path, SLASH))
    ensures var comps := Explode(path, SLASH);
            child == (if LastComp(comps) >= 0 then comps[LastComp(comps)] else []) && 0 !in child
  {
    hide Disk.Valid, View, IsDir;
    var comps := SlistExplode(path, SLASH);
    PartsNulFree(path, SLASH);
    var i, name := CompsPop(comps);
    var parentComps := SlistCopy(comps, i);
    assert parentComps == comps[..Max(0, i)];
    assert NulFree(parentComps);
    parent := InumForComps(d, root, parentComps);
    return parent, name;
  }
}
