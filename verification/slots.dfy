/** Directory tables: how entries are laid out in 64 bytes, and what the operations do to the slots. */
module Slots {
  import opened Specs
  import opened Content

  type Name = seq<byte>

  /** A directory slot: a name and an inode, negative for a hole that keeps its stale name. */
  datatype Slot = Slot(name: Name, inum: int)

  const SLASH: byte := 47
  const DOT: Name := [46]
  const DOTDOT: Name := [46, 46]

  // ---- the layout of one slot: 60 bytes of name, ended by a zero, and a 32-bit integer ----

  /** The string at the beginning of a cell. */
  function CString(cell: seq<byte>): (s: Name)
    ensures |s| <= |cell| && s == cell[..|s|] && 0 !in s
    ensures |s| < |cell| ==> cell[|s|] == 0
  {
    if cell == [] || cell[0] == 0 then [] else [cell[0]] + CString(cell[1..])
  }

  /** What strcmp finds when it compares a name with the string in a cell. */
  predicate SameString(name: Name, cell: seq<byte>) {
    |name| < |cell| && cell[..|name| + 1] == name + [0]
  }

  lemma {:induction false} TerminatedString(name: Name, cell: seq<byte>)
    requires 0 !in name && |name| < |cell| && cell[..|name| + 1] == name + [0]
    ensures CString(cell) == name
  {
    assert cell[0] == (name + [0])[0];
    if name != [] {
      assert cell[1..][..|name[1..]| + 1] == cell[..|name| + 1][1..] == name[1..] + [0];
      TerminatedString(name[1..], cell[1..]);
      assert name == [name[0]] + name[1..];
    }
  }

  lemma SameStringIsEqual(name: Name, cell: seq<byte>)
    requires 0 !in name && |name| < |cell|
    ensures SameString(name, cell) <==> CString(cell) == name
  {
    if SameString(name, cell) {
      TerminatedString(name, cell);
    }
    if CString(cell) == name {
      assert cell[..|name| + 1] == cell[..|name|] + [cell[|name|]];
    }
  }

  function DecodeInt(b: seq<byte>): int
    requires |b| == 4
  {
    var u := b[0] as int + 0x100 * b[1] as int + 0x1_0000 * b[2] as int + 0x100_0000 * b[3] as int;
    if u < 0x8000_0000 then u else u - 0x1_0000_0000
  }

  function EncodeInt(x: int): (b: seq<byte>)
    requires FitsInt(x)
    ensures |b| == 4
  {
    var u := if x < 0 then x + 0x1_0000_0000 else x;
    var u1 := u / 0x100;
    var u2 := u1 / 0x100;
    [(u % 0x100) as byte, (u1 % 0x100) as byte, (u2 % 0x100) as byte, (u2 / 0x100) as byte]
  }

  lemma DecodeEncode(x: int)
    requires FitsInt(x)
    ensures DecodeInt(EncodeInt(x)) == x
  {
  }

  /** The format of an entry: a name, a zero, padding up to 60 bytes, and the inode, lowest byte first. */
  lemma EntryFormat(name: Name, pad: seq<byte>, b: seq<byte>)
    requires 0 !in name && |name| + 1 + |pad| == 60 && |b| == 4 && b[3] < 128
    ensures SlotsOf(name + [0] + pad + b) ==
            [Slot(name, b[0] as int + 0x100 * b[1] as int + 0x1_0000 * b[2] as int + 0x100_0000 * b[3] as int)]
  {
    var cell := name + [0] + pad;
    var data := cell + b;
    assert data[64 * 0..64 * 0 + 60] == cell && data[64 * 0 + 60..64 * 0 + 64] == b;
    assert cell[..|name| + 1] == name + [0];
    TerminatedString(name, cell);
    assert SlotAt(data, 0) == SlotsOf(data)[0];
  }

  // ---- the slots of a directory's content ----

  function SlotAt(data: seq<byte>, i: nat): Slot
    requires 64 * (i + 1) <= |data|
  {
    Slot(CString(data[64 * i..64 * i + 60]), DecodeInt(data[64 * i + 60..64 * i + 64]))
  }

  function SlotsOf(data: seq<byte>): (slots: seq<Slot>)
    ensures |slots| == |data| / 64
    ensures forall i :: 0 <= i < |slots| ==> slots[i] == SlotAt(data, i)
  {
    seq(|data| / 64, i requires 0 <= i < |data| / 64 => SlotAt(data, i))
  }

  /** Bytes outside a written stretch stay. */
  lemma SpliceElsewhere(data: seq<byte>, pos: nat, b: seq<byte>, lo: nat, hi: nat)
    requires pos + |b| <= |data| && lo <= hi <= |data|
    requires hi <= pos || pos + |b| <= lo
    ensures Splice(data, pos, b)[lo..hi] == data[lo..hi]
  {
  }

  lemma SetInum(data: seq<byte>, i: nat, x: int)
    requires 64 * (i + 1) <= |data| && FitsInt(x)
    ensures SlotsOf(Splice(data, 64 * i + 60, EncodeInt(x))) == SlotsOf(data)[i := Slot(SlotAt(data, i).name, x)]
  {
    var data' := Splice(data, 64 * i + 60, EncodeInt(x));
    forall j | 0 <= j < |SlotsOf(data)|
      ensures SlotAt(data', j) == if j == i then Slot(SlotAt(data, i).name, x) else SlotAt(data, j)
    {
      SlotAfterSetInum(data, i, x, j);
    }
  }

  lemma SlotAfterSetInum(data: seq<byte>, i: nat, x: int, j: nat)
    requires 64 * (i + 1) <= |data| && 64 * (j + 1) <= |data| && FitsInt(x)
    ensures SlotAt(Splice(data, 64 * i + 60, EncodeInt(x)), j) ==
            if j == i then Slot(SlotAt(data, i).name, x) else SlotAt(data, j)
  {
    hide EncodeInt, DecodeInt;
    var data' := Splice(data, 64 * i + 60, EncodeInt(x));
    SpliceElsewhere(data, 64 * i + 60, EncodeInt(x), 64 * j, 64 * j + 60);
    if j == i {
      assert data'[64 * i + 60..64 * i + 64] == EncodeInt(x);
      DecodeEncode(x);
    } else {
      SpliceElsewhere(data, 64 * i + 60, EncodeInt(x), 64 * j + 60, 64 * j + 64);
    }
  }

  lemma SetName(data: seq<byte>, i: nat, name: Name)
    requires 64 * (i + 1) <= |data| && |name| < 60 && 0 !in name
    ensures SlotsOf(Splice(data, 64 * i, name + [0])) == SlotsOf(data)[i := Slot(name, SlotAt(data, i).inum)]
  {
    hide SlotAt, Splice;
    var data' := Splice(data, 64 * i, name + [0]);
    assert |data'| == |data| by { SpliceLength(data, 64 * i, name + [0]); }
    forall j | 0 <= j < |SlotsOf(data)|
      ensures SlotAt(data', j) == if j == i then Slot(name, SlotAt(data, i).inum) else SlotAt(data, j)
    {
      SlotAfterSetName(data, i, name, j);
    }
  }

  lemma SpliceLength(data: seq<byte>, pos: nat, b: seq<byte>)
    requires pos + |b| <= |data|
    ensures |Splice(data, pos, b)| == |data|
  {
  }

  lemma SlotAfterSetName(data: seq<byte>, i: nat, name: Name, j: nat)
    requires 64 * (i + 1) <= |data| && 64 * (j + 1) <= |data| && |name| < 60 && 0 !in name
    ensures SlotAt(Splice(data, 64 * i, name + [0]), j) ==
            if j == i then Slot(name, SlotAt(data, i).inum) else SlotAt(data, j)
  {
    hide DecodeInt, CString;
    var data' := Splice(data, 64 * i, name + [0]);
    SpliceElsewhere(data, 64 * i, name + [0], 64 * j + 60, 64 * j + 64);
    if j == i {
      NamedCell(data, i, name);
      SameStringIsEqual(name, data'[64 * i..64 * i + 60]);
    } else {
      SpliceElsewhere(data, 64 * i, name + [0], 64 * j, 64 * j + 60);
    }
  }

  lemma NamedCell(data: seq<byte>, i: nat, name: Name)
    requires 64 * (i + 1) <= |data| && |name| < 60
    ensures Splice(data, 64 * i, name + [0])[64 * i..64 * i + 60][..|name| + 1] == name + [0]
  {
    var n, data' := |name| + 1, Splice(data, 64 * i, name + [0]);
    assert data'[64 * i..64 * i + 60][..n] == data'[64 * i..64 * i + n];
    assert data'[..64 * i + n] == data[..64 * i] + (name + [0]);
  }

  /** Content that agrees on its first `n` slots. */
  lemma PrefixSlots(data: seq<byte>, data': seq<byte>, n: nat)
    requires 64 * n <= |data| && 64 * n <= |data'| && data[..64 * n] == data'[..64 * n]
    ensures SlotsOf(data)[..n] == SlotsOf(data')[..n]
  {
    forall i | 0 <= i < n ensures SlotAt(data, i) == SlotAt(data', i) {
      assert data[64 * i..64 * i + 60] == data[..64 * n][64 * i..64 * i + 60];
      assert data'[64 * i..64 * i + 60] == data'[..64 * n][64 * i..64 * i + 60];
      assert data[64 * i + 60..64 * i + 64] == data[..64 * n][64 * i + 60..64 * i + 64];
      assert data'[64 * i + 60..64 * i + 64] == data'[..64 * n][64 * i + 60..64 * i + 64];
    }
  }

  // ---- searching ----

  predicate Live(s: Slot) {
    s.inum >= 0
  }

  /** The first slot from `i` on that is live and carries the name. */
  function FirstLive(slots: seq<Slot>, name: Name, i: nat): (k: nat)
    requires i <= |slots|
    ensures i <= k <= |slots|
    ensures forall j :: i <= j < k ==> !(Live(slots[j]) && slots[j].name == name)
    ensures k < |slots| ==> Live(slots[k]) && slots[k].name == name
    decreases |slots| - i
  {
    if i == |slots| || (Live(slots[i]) && slots[i].name == name) then i else FirstLive(slots, name, i + 1)
  }

  /** The first slot from `i` on that carries the name, whether it is live or a hole. */
  function FirstNamed(slots: seq<Slot>, name: Name, i: nat): (k: nat)
    requires i <= |slots|
    ensures i <= k <= |slots|
    ensures forall j :: i <= j < k ==> slots[j].name != name
    ensures k < |slots| ==> slots[k].name == name
    decreases |slots| - i
  {
    if i == |slots| || slots[i].name == name then i else FirstNamed(slots, name, i + 1)
  }

  /** The first slot from `i` on that carries the name or is a hole: where adding stops. */
  function FirstStop(slots: seq<Slot>, name: Name, i: nat): (k: nat)
    requires i <= |slots|
    ensures i <= k <= |slots|
    ensures forall j :: i <= j < k ==> slots[j].name != name && Live(slots[j])
    ensures k < |slots| ==> slots[k].name == name || !Live(slots[k])
    decreases |slots| - i
  {
    if i == |slots| || slots[i].name == name || !Live(slots[i]) then i else FirstStop(slots, name, i + 1)
  }

  // ---- the table as a finite map ----

  function LiveNames(slots: seq<Slot>): set<Name> {
    set i | 0 <= i < |slots| && Live(slots[i]) :: slots[i].name
  }

  function Table(slots: seq<Slot>): (m: map<Name, int>)
    ensures m.Keys == LiveNames(slots)
    ensures forall name :: name in m <==> FirstLive(slots, name, 0) < |slots|
    ensures forall name :: name in m ==> m[name] == slots[FirstLive(slots, name, 0)].inum
  {
    map name | name in LiveNames(slots) :: slots[FirstLive(slots, name, 0)].inum
  }

  /** No earlier slot, live or hole, carries the name of a live one. */
  predicate Shadow(slots: seq<Slot>) {
    forall i, j :: 0 <= j < i < |slots| && Live(slots[i]) ==> slots[j].name != slots[i].name
  }

  /** In a table with that property the first slot that carries a live name is the live one. */
  lemma NamedIsLive(slots: seq<Slot>, name: Name)
    requires Shadow(slots) && name in Table(slots)
    ensures FirstNamed(slots, name, 0) == FirstLive(slots, name, 0)
  {
  }

  lemma LiveIsFirst(slots: seq<Slot>, i: nat)
    requires Shadow(slots) && i < |slots| && Live(slots[i])
    ensures FirstLive(slots, slots[i].name, 0) == i
    ensures slots[i].name in Table(slots) && Table(slots)[slots[i].name] == slots[i].inum
  {
  }

  // ---- adding ----

  /** The slots after adding an entry: an error number, or zero and the new slots.  The name is
    compared before the slot is known to be a hole, and a reused slot keeps its stale name when the
    new name is live further on. */
  function AddSlot(slots: seq<Slot>, name: Name, x: int): (int, seq<Slot>) {
    var i := FirstStop(slots, name, 0);
    if |name| >= 60 then (-ENAMETOOLONG, slots)
    else if i < |slots| && slots[i].name == name then (-EEXIST, slots)
    else if i == |slots| then (0, slots + [Slot(name, x)])
    else if name in LiveNames(slots) then (0, slots[i := Slot(slots[i].name, x)])
    else (0, slots[i := Slot(name, x)])
  }

  /** The name that the first hole still carries stands in the way of adding it. */
  predicate StaleHole(slots: seq<Slot>, name: Name) {
    var i := FirstStop(slots, name, 0);
    i < |slots| && !Live(slots[i]) && slots[i].name == name
  }

  lemma ShadowAfterSet(slots: seq<Slot>, i: nat, name: Name, x: int)
    requires Shadow(slots) && i < |slots| && name !in Table(slots)
    requires forall j :: 0 <= j < i ==> slots[j].name != name
    ensures Shadow(slots[i := Slot(name, x)])
  {
    var slots' := slots[i := Slot(name, x)];
    forall k, j | 0 <= j < k < |slots'| && Live(slots'[k]) ensures slots'[j].name != slots'[k].name {
      if j == i {
        LiveIsFirst(slots, k);
      }
    }
  }

  /** A hole is filled with a name that is not in the table. */
  lemma TableAfterSet(slots: seq<Slot>, i: nat, name: Name, x: int)
    requires Shadow(slots) && i < |slots| && !Live(slots[i]) && 0 <= x
    requires name !in Table(slots) && (forall j :: 0 <= j < i ==> slots[j].name != name)
    ensures Shadow(slots[i := Slot(name, x)])
    ensures Table(slots[i := Slot(name, x)]) == Table(slots)[name := x]
  {
    hide LiveNames;
    var slots' := slots[i := Slot(name, x)];
    ShadowAfterSet(slots, i, name, x);
    LiveIsFirst(slots', i);
    forall n | n != name ensures n in Table(slots') <==> n in Table(slots)
      ensures n in Table(slots) ==> Table(slots')[n] == Table(slots)[n]
    {
      SameFirstLive(slots, slots', i, n);
    }
  }

  lemma SameFirstLive(slots: seq<Slot>, slots': seq<Slot>, i: nat, n: Name)
    requires i < |slots| == |slots'| && slots' == slots[i := slots'[i]]
    requires !(Live(slots[i]) && slots[i].name == n) && !(Live(slots'[i]) && slots'[i].name == n)
    ensures FirstLive(slots', n, 0) == FirstLive(slots, n, 0)
  {
    var a, b := FirstLive(slots, n, 0), FirstLive(slots', n, 0);
    assert a < |slots| ==> slots'[a] == slots[a];
    assert b < |slots| ==> slots'[b] == slots[b];
  }

  lemma LiveNamed(slots: seq<Slot>, i: nat)
    requires i < |slots|
    ensures Live(slots[i]) ==> slots[i].name in LiveNames(slots)
  {
    if Live(slots[i]) {
      assert slots[i].name in LiveNames(slots);
    }
  }

  lemma TableAfterAppend(slots: seq<Slot>, name: Name, x: int)
    requires Shadow(slots) && 0 <= x && forall j :: 0 <= j < |slots| ==> slots[j].name != name
    ensures Shadow(slots + [Slot(name, x)])
    ensures Table(slots + [Slot(name, x)]) == Table(slots)[name := x]
  {
    hide LiveNames, FirstLive;
    var slots' := slots + [Slot(name, x)];
    LiveIsFirst(slots', |slots|);
    forall n | n != name ensures n in Table(slots') <==> n in Table(slots)
      ensures n in Table(slots) ==> Table(slots')[n] == Table(slots)[n]
    {
      FirstLiveAppend(slots, Slot(name, x), n);
    }
  }

  lemma FirstLiveAppend(slots: seq<Slot>, s: Slot, n: Name)
    requires n != s.name
    ensures var a := FirstLive(slots, n, 0);
            FirstLive(slots + [s], n, 0) == if a < |slots| then a else a + 1
  {
    var a, b := FirstLive(slots, n, 0), FirstLive(slots + [s], n, 0);
    if b < |slots| {
      assert (slots + [s])[b] == slots[b];
    }
    if a < |slots| {
      assert (slots + [s])[a] == slots[a];
    }
  }

  /** Adding a name that is not in the table inserts it, exactly when the name is short enough and the
    first hole does not happen to carry it still; otherwise nothing changes, and the error number tells
    which of the two it was. */
  lemma AddInserts(slots: seq<Slot>, name: Name, x: int)
    requires Shadow(slots) && 0 <= x && name !in Table(slots)
    ensures var (rc, slots') := AddSlot(slots, name, x);
            && (rc == 0 <==> |name| < 60 && !StaleHole(slots, name))
            && (rc == -ENAMETOOLONG <==> |name| >= 60)
            && (rc == -EEXIST <==> |name| < 60 && StaleHole(slots, name))
            && (rc == 0 ==> Shadow(slots') && Table(slots') == Table(slots)[name := x])
            && (rc != 0 ==> slots' == slots)
  {
    var i := FirstStop(slots, name, 0);
    if i < |slots| && slots[i].name == name {
      LiveNamed(slots, i);
    } else if i == |slots| {
      TableAfterAppend(slots, name, x);
    } else {
      TableAfterSet(slots, i, name, x);
    }
  }

  /** A name goes into the first hole, or behind the last slot if there is none. */
  lemma AddFillsFirstHole(slots: seq<Slot>, name: Name, x: int, i: nat)
    requires name !in Table(slots) && AddSlot(slots, name, x).0 == 0
    requires i <= |slots| && (forall j :: 0 <= j < i ==> slots[j].inum >= 0) && (i < |slots| ==> slots[i].inum < 0)
    ensures AddSlot(slots, name, x).1 == slots[..i] + [Slot(name, x)] + slots[if i < |slots| then i + 1 else i..]
  {
    hide Table;
    forall j | 0 <= j < i ensures slots[j].name != name {
      LiveNamed(slots, j);
    }
    assert FirstStop(slots, name, 0) == i;
  }

  /** A hole before slot `k` came alive under its stale name. */
  ghost predicate RevivesHole(slots: seq<Slot>, k: nat, x: int, slots': seq<Slot>)
    requires k <= |slots|
  {
    exists i :: 0 <= i < k && !Live(slots[i]) && slots' == slots[i := Slot(slots[i].name, x)]
  }

  /** Adding a name that is in the table is refused, exactly when no hole comes before its slot;
    otherwise the hole comes alive under its stale name. */
  lemma AddRefusesLive(slots: seq<Slot>, name: Name, x: int)
    requires Shadow(slots) && 0 <= x && name in Table(slots) && |name| < 60
    ensures var (rc, slots') := AddSlot(slots, name, x);
            var k := FirstLive(slots, name, 0);
            && (rc == -EEXIST <==> forall j :: 0 <= j < k ==> Live(slots[j]))
            && (rc == -EEXIST ==> slots' == slots)
            && (rc != -EEXIST ==> rc == 0 && RevivesHole(slots, k, x, slots'))
  {
    var k, i := FirstLive(slots, name, 0), FirstStop(slots, name, 0);
    assert i <= k;
    if i < k {
      assert slots[i].name != name;
    }
  }

  // ---- removing ----

  /** The slots without the holes at their end. */
  function Trim(slots: seq<Slot>): (r: seq<Slot>)
    ensures r <= slots
    ensures r == [] || Live(r[|r| - 1])
  {
    if slots == [] || Live(slots[|slots| - 1]) then slots else Trim(slots[..|slots| - 1])
  }

  /** The slots after removing an entry, with an error number or zero. */
  function RemoveSlot(slots: seq<Slot>, name: Name): (int, seq<Slot>) {
    var i := FirstNamed(slots, name, 0);
    if i == |slots| then (-ENOENT, slots) else (0, Trim(slots[i := Slot(name, -1)]))
  }

  /** Removing a name that no slot carries is refused and changes nothing. */
  lemma RemoveRefuses(slots: seq<Slot>, name: Name)
    requires forall i :: 0 <= i < |slots| ==> slots[i].name != name
    ensures RemoveSlot(slots, name) == (-2, slots)
  {
    assert FirstNamed(slots, name, 0) == |slots|;
  }

  lemma DropHole(slots: seq<Slot>)
    requires slots != [] && !Live(slots[|slots| - 1])
    ensures Table(slots[..|slots| - 1]) == Table(slots)
    ensures Shadow(slots) ==> Shadow(slots[..|slots| - 1])
  {
    hide LiveNames;
    var slots' := slots[..|slots| - 1];
    forall n ensures n in Table(slots') <==> n in Table(slots)
      ensures n in Table(slots) ==> Table(slots')[n] == Table(slots)[n]
    {
      var a, b := FirstLive(slots, n, 0), FirstLive(slots', n, 0);
      assert a < |slots'| ==> slots'[a] == slots[a];
      assert b < |slots'| ==> slots'[b] == slots[b];
    }
  }

  lemma {:induction false} TrimKeepsTable(slots: seq<Slot>)
    ensures Table(Trim(slots)) == Table(slots)
    ensures Shadow(slots) ==> Shadow(Trim(slots))
  {
    if slots != [] && !Live(slots[|slots| - 1]) {
      DropHole(slots);
      TrimKeepsTable(slots[..|slots| - 1]);
    }
  }

  lemma ClearedSlot(slots: seq<Slot>, i: nat)
    requires Shadow(slots) && i < |slots| && Live(slots[i])
    ensures var slots' := slots[i := Slot(slots[i].name, -1)];
            Shadow(slots') && FirstLive(slots', slots[i].name, 0) == |slots'|
  {
    hide Table, FirstLive;
    var name, slots' := slots[i].name, slots[i := Slot(slots[i].name, -1)];
    forall k, j | 0 <= j < k < |slots'| && Live(slots'[k]) ensures slots'[j].name != slots'[k].name {
      assert Live(slots[k]);
    }
    var b := FirstLive(slots', name, 0);
    assert b < |slots'| ==> slots'[b] == slots[b];
  }

  lemma TableAfterClear(slots: seq<Slot>, i: nat)
    requires Shadow(slots) && i < |slots| && Live(slots[i])
    ensures Shadow(slots[i := Slot(slots[i].name, -1)])
    ensures Table(slots[i := Slot(slots[i].name, -1)]) == Table(slots) - {slots[i].name}
  {
    hide LiveNames, FirstLive, Shadow;
    var name, slots' := slots[i].name, slots[i := Slot(slots[i].name, -1)];
    ClearedSlot(slots, i);
    LiveIsFirst(slots, i);
    forall n | n != name ensures n in Table(slots') <==> n in Table(slots)
      ensures n in Table(slots) ==> Table(slots')[n] == Table(slots)[n]
    {
      SameFirstLive(slots, slots', i, n);
    }
  }

  /** Removing a name that is in the table deletes it, and leaves a live last slot or no slot. */
  lemma RemoveDeletes(slots: seq<Slot>, name: Name)
    requires Shadow(slots) && name in Table(slots)
    ensures var (rc, slots') := RemoveSlot(slots, name);
            && rc == 0 && Shadow(slots') && Table(slots') == Table(slots) - {name}
            && (slots' == [] || Live(slots'[|slots'| - 1]))
  {
    NamedIsLive(slots, name);
    var i := FirstLive(slots, name, 0);
    TableAfterClear(slots, i);
    TrimKeepsTable(slots[i := Slot(name, -1)]);
  }

  /** Removing a name leaves every other slot in its place, and drops nothing but holes from the end. */
  lemma RemoveKeepsPlaces(slots: seq<Slot>, name: Name, k: nat)
    requires Shadow(slots) && k < |slots| && slots[k].inum >= 0 && slots[k].name == name
    ensures var slots' := RemoveSlot(slots, name).1;
            && |slots'| <= |slots|
            && (forall j :: 0 <= j < |slots'| && j != k ==> slots'[j] == slots[j])
            && (k < |slots'| ==> slots'[k] == Slot(name, -1))
            && (forall j :: |slots'| <= j < |slots| && j != k ==> slots[j].inum < 0)
  {
    hide Table;
    LiveIsFirst(slots, k);
    assert FirstNamed(slots, name, 0) == k;
    var cleared := slots[k := Slot(name, -1)];
    TrimDropsHoles(cleared);
    forall j | |Trim(cleared)| <= j < |slots| && j != k ensures slots[j].inum < 0 {
      assert cleared[j] == slots[j];
    }
  }

  lemma {:induction false} TrimDropsHoles(slots: seq<Slot>)
    ensures forall j :: |Trim(slots)| <= j < |slots| ==> slots[j].inum < 0
  {
    if slots != [] && !Live(slots[|slots| - 1]) {
      TrimDropsHoles(slots[..|slots| - 1]);
    }
  }

  // ---- listing ----

  /** The names of the live slots, in slot order. */
  function LiveList(slots: seq<Slot>): seq<Name> {
    if slots == [] then []
    else (if Live(slots[0]) then [slots[0].name] else []) + LiveList(slots[1..])
  }

  /** The names are those of all live slots, from the first slot to the last. */
  ghost predicate InSlotOrder(slots: seq<Slot>, names: seq<Name>) {
    exists at: seq<nat> :: NamesAt(slots, names, at)
  }

  /** `at` lists the live slots in increasing order, and their names are `names`. */
  ghost predicate NamesAt(slots: seq<Slot>, names: seq<Name>, at: seq<nat>) {
    && |at| == |names|
    && (forall i :: 0 <= i < |at| ==> at[i] < |slots| && slots[at[i]].name == names[i])
    && (forall i, j :: 0 <= i < j < |at| ==> at[i] < at[j])
    && (forall k: nat :: k in at <==> k < |slots| && Live(slots[k]))
  }

  ghost function LiveIndices(slots: seq<Slot>): seq<nat> {
    if slots == [] then []
    else
      var last := |slots| - 1;
      LiveIndices(slots[..last]) + if Live(slots[last]) then [last] else []
  }

  lemma {:induction false} ListAtLast(slots: seq<Slot>)
    requires slots != []
    ensures var last := |slots| - 1;
            LiveList(slots) == LiveList(slots[..last]) + if Live(slots[last]) then [slots[last].name] else []
  {
    var last := |slots| - 1;
    if last > 0 {
      ListAtLast(slots[1..]);
      assert slots[1..][..last - 1] == slots[..last][1..];
      assert slots[..last][0] == slots[0] && slots[1..][last - 1] == slots[last];
    } else {
      assert slots[1..] == [] && slots[..last] == [];
    }
  }

  lemma OneSlotMore(slots: seq<Slot>, names: seq<Name>, at: seq<nat>)
    requires slots != [] && NamesAt(slots[..|slots| - 1], names, at)
    ensures var last := |slots| - 1;
            if Live(slots[last]) then NamesAt(slots, names + [slots[last].name], at + [last])
            else NamesAt(slots, names, at)
  {
    var last := |slots| - 1;
    var before := slots[..last];
    assert forall i :: 0 <= i < |at| ==> at[i] < last && before[at[i]] == slots[at[i]];
    if Live(slots[last]) {
      var at' := at + [last];
      forall k: nat ensures k in at' <==> k < |slots| && Live(slots[k]) {
        assert k in at' <==> k in at || k == last;
        assert k in at <==> k < last && Live(slots[k]);
      }
    } else {
      forall k: nat ensures k in at <==> k < |slots| && Live(slots[k]) {
        assert k in at <==> k < last && Live(slots[k]);
      }
    }
  }

  /** The listing follows the order of the slots. */
  lemma {:induction false} ListInSlotOrder(slots: seq<Slot>)
    ensures NamesAt(slots, LiveList(slots), LiveIndices(slots)) && InSlotOrder(slots, LiveList(slots))
  {
    hide NamesAt;
    if slots == [] {
      NoSlots();
    } else {
      var before := slots[..|slots| - 1];
      ListInSlotOrder(before);
      ListAtLast(slots);
      OneSlotMore(slots, LiveList(before), LiveIndices(before));
      assert LiveList(before) + [] == LiveList(before) && LiveIndices(before) + [] == LiveIndices(before);
    }
  }

  lemma NoSlots()
    ensures NamesAt([], [], [])
  {
  }

  lemma {:induction false} ListedIffLive(slots: seq<Slot>, name: Name)
    ensures name in LiveList(slots) <==> name in LiveNames(slots)
  {
    if slots != [] {
      ListedIffLive(slots[1..], name);
      assert name in LiveNames(slots[1..]) ==> name in LiveNames(slots) by {
        if name in LiveNames(slots[1..]) {
          var i :| 0 <= i < |slots[1..]| && Live(slots[1..][i]) && slots[1..][i].name == name;
          assert slots[i + 1].name in LiveNames(slots);
        }
      }
      if name in LiveNames(slots) && !(Live(slots[0]) && slots[0].name == name) {
        var i :| 0 <= i < |slots| && Live(slots[i]) && slots[i].name == name;
        assert slots[1..][i - 1].name in LiveNames(slots[1..]);
      }
    }
  }

  /** The listing names every entry of the table exactly once. */
  lemma {:induction false} ListIsTable(slots: seq<Slot>)
    requires Shadow(slots)
    ensures forall name :: name in LiveList(slots) <==> name in Table(slots)
    ensures forall i, j :: 0 <= i < j < |LiveList(slots)| ==> LiveList(slots)[i] != LiveList(slots)[j]
  {
    forall name ensures name in LiveList(slots) <==> name in Table(slots) {
      ListedIffLive(slots, name);
    }
    if slots != [] {
      var rest := slots[1..];
      assert forall i :: 0 <= i < |rest| ==> rest[i] == slots[i + 1];
      ListIsTable(rest);
      if Live(slots[0]) {
        ListedIffLive(rest, slots[0].name);
        assert slots[0].name !in LiveNames(rest);
      }
    }
  }

  // ---- what is in a directory besides its dots ----

  predicate NonDot(name: Name) {
    name != DOT && name != DOTDOT
  }

  /** No live slot names anything but the directory and its parent. */
  predicate OnlyDots(slots: seq<Slot>) {
    forall i :: 0 <= i < |slots| && Live(slots[i]) ==> !NonDot(slots[i].name)
  }

  lemma OnlyDotsIsEmpty(slots: seq<Slot>)
    ensures OnlyDots(slots) <==> forall name :: name in Table(slots) ==> !NonDot(name)
  {
    if forall name :: name in Table(slots) ==> !NonDot(name) {
      forall i | 0 <= i < |slots| && Live(slots[i]) ensures !NonDot(slots[i].name) {
        LiveNamed(slots, i);
      }
    }
  }

  /** A name that can be a component of a path. */
  predicate PlainName(name: Name) {
    name != [] && SLASH !in name && 0 !in name
  }

  /** A table as the operations leave it: names are not shadowed, no hole is left by a dot, and every
    live name can be looked up by a path. */
  predicate Tidy(slots: seq<Slot>) {
    && Shadow(slots)
    && (forall i :: 0 <= i < |slots| && !Live(slots[i]) ==> NonDot(slots[i].name))
    && (forall i :: 0 <= i < |slots| && Live(slots[i]) ==> PlainName(slots[i].name) && |slots[i].name| < 60)
  }

  lemma TidyNames(slots: seq<Slot>, name: Name)
    requires Tidy(slots) && name in Table(slots)
    ensures PlainName(name) && |name| < 60
  {
    hide PlainName;
    assert Live(slots[FirstLive(slots, name, 0)]);
  }

  lemma AddKeepsTidy(slots: seq<Slot>, name: Name, x: int)
    requires Tidy(slots) && 0 <= x && name !in Table(slots) && PlainName(name)
    ensures var (rc, slots') := AddSlot(slots, name, x);
            && Tidy(slots')
            && (rc == 0 ==> Table(slots') == Table(slots)[name := x])
            && (rc != 0 ==> slots' == slots)
  {
    hide Shadow, PlainName, LiveNames, FirstLive, NonDot;
    AddInserts(slots, name, x);
  }

  lemma RemoveKeepsTidy(slots: seq<Slot>, name: Name)
    requires Tidy(slots) && NonDot(name) && name in Table(slots)
    ensures var (rc, slots') := RemoveSlot(slots, name);
            rc == 0 && Tidy(slots') && Table(slots') == Table(slots) - {name}
  {
    hide Shadow, PlainName, FirstLive, LiveNames;
    RemoveDeletes(slots, name);
  }

  /** What linking and then unlinking a directory do to its table: whatever the table was, the `..` that
    the unlink removes is not replaced by the link.  A `..` before any hole also stays as it is, naming
    the old parent, in between. */
  lemma MovedDirLosesDotDot(slots: seq<Slot>, p: nat)
    requires Tidy(slots)
    ensures DOTDOT !in Table(RemoveSlot(AddSlot(slots, DOTDOT, p).1, DOTDOT).1)
    ensures DOTDOT in Table(slots) && (forall j :: 0 <= j < FirstLive(slots, DOTDOT, 0) ==> Live(slots[j])) ==>
              AddSlot(slots, DOTDOT, p) == (-EEXIST, slots)
  {
    hide Table;
    var slots' := AddSlot(slots, DOTDOT, p).1;
    if DOTDOT in Table(slots) {
      AddRefusesLive(slots, DOTDOT, p);
    } else {
      AddInserts(slots, DOTDOT, p);
    }
    OneNamed(slots', DOTDOT, FirstNamed(slots', DOTDOT, 0));
  }

  /** A name that one slot carries at most is gone from the table once it is removed. */
  lemma OneNamed(slots: seq<Slot>, name: Name, k: nat)
    requires k == FirstNamed(slots, name, 0)
    requires forall i :: k < i < |slots| && Live(slots[i]) ==> slots[i].name != name
    ensures name !in Table(RemoveSlot(slots, name).1)
  {
    hide LiveNames;
    if k < |slots| {
      var cleared := slots[k := Slot(name, -1)];
      TrimKeepsTable(cleared);
      assert FirstLive(cleared, name, 0) == |cleared|;
    } else {
      assert FirstLive(slots, name, 0) == |slots|;
    }
  }

  /** A refusal of a name that is not in the table: the first hole still carries it. */
  lemma StaleHoleRefuses()
    ensures var slots := [Slot(DOT, 0), Slot(DOTDOT, 0), Slot([97], -1), Slot([98], 5)];
            && Tidy(slots) && [97] !in Table(slots) && StaleHole(slots, [97])
            && AddSlot(slots, [97], 6) == (-EEXIST, slots)
  {
    var slots := [Slot(DOT, 0), Slot(DOTDOT, 0), Slot([97], -1), Slot([98], 5)];
    assert FirstStop(slots, [97], 2) == 2;
    assert FirstStop(slots, [97], 1) == 2;
    assert FirstLive(slots, [97], 0) == 4;
  }
}
