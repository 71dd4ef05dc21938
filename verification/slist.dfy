/** Lists of strings: splitting a text at a delimiter, and copying the beginning of a list. */
module SList {
  import opened Specs
  import opened Slots

  /** The first position from `i` on that holds the delimiter, or the end of the text. */
  function Scan(text: Name, delim: byte, i: nat): (n: nat)
    requires i <= |text|
    ensures i <= n <= |text| && (n < |text| ==> text[n] == delim)
    ensures delim !in text[i..n]
    decreases |text| - i
  {
    if i == |text| || text[i] == delim then i else Scan(text, delim, i + 1)
  }

  /** The parts of a text between delimiters; nothing follows a delimiter at the very end. */
  function Explode(text: Name, delim: byte): (parts: seq<Name>)
    decreases |text|
  {
    if text == [] then []
    else
      var n := Scan(text, delim, 0);
      [text[..n]] + Explode(text[n + (if n < |text| then 1 else 0)..], delim)
  }

  /** Every part followed by the delimiter. */
  function Terminated(parts: seq<Name>, delim: byte): Name {
    if parts == [] then [] else parts[0] + [delim] + Terminated(parts[1..], delim)
  }

  predicate DelimFree(parts: seq<Name>, delim: byte) {
    forall i :: 0 <= i < |parts| ==> delim !in parts[i]
  }

  /** The text, with a delimiter added unless it is empty or ends in one. */
  function WithFinalDelim(text: Name, delim: byte): Name {
    if text == [] || text[|text| - 1] == delim then text else text + [delim]
  }

  /** The parts contain no delimiter and give back the text when each is followed by one. */
  predicate IsSplit(parts: seq<Name>, text: Name, delim: byte) {
    DelimFree(parts, delim) && Terminated(parts, delim) == WithFinalDelim(text, delim)
  }

  lemma {:induction false} ExplodeSplits(text: Name, delim: byte)
    ensures IsSplit(Explode(text, delim), text, delim)
    decreases |text|
  {
    if text != [] {
      var n := Scan(text, delim, 0);
      var rest := text[n + (if n < |text| then 1 else 0)..];
      ExplodeSplits(rest, delim);
      assert text[0..n] == text[..n];
      OnePartMore(text, n, Explode(rest, delim), delim);
    }
  }

  lemma OnePartMore(text: Name, n: nat, parts: seq<Name>, delim: byte)
    requires text != [] && n <= |text| && delim !in text[..n] && (n < |text| ==> text[n] == delim)
    requires IsSplit(parts, text[n + (if n < |text| then 1 else 0)..], delim)
    ensures IsSplit([text[..n]] + parts, text, delim)
  {
    var all := [text[..n]] + parts;
    assert all[0] == text[..n] && all[1..] == parts;
    assert forall i :: 0 < i < |all| ==> all[i] == parts[i - 1];
    if n < |text| {
      var rest := text[n + 1..];
      assert text == text[..n] + [delim] + rest;
      assert rest != [] ==> text[|text| - 1] == rest[|rest| - 1];
      assert text[..n] + [delim] + (rest + [delim]) == text + [delim];
    } else {
      assert text[..n] == text && text[n..] == [];
    }
  }

  /** A delimiter-free part can be read off the front of a terminated text. */
  lemma {:induction false} FirstPart(a: Name, rest: Name, b: Name, rest': Name, delim: byte)
    requires delim !in a && delim !in b && a + [delim] + rest == b + [delim] + rest'
    ensures a == b && rest == rest'
  {
    var s, s' := a + [delim] + rest, b + [delim] + rest';
    assert s[0] == (if a == [] then delim else a[0]) && s'[0] == (if b == [] then delim else b[0]);
    if a != [] {
      assert s[1..] == a[1..] + [delim] + rest && s'[1..] == b[1..] + [delim] + rest';
      FirstPart(a[1..], rest, b[1..], rest', delim);
      assert a == [a[0]] + a[1..] && b == [b[0]] + b[1..];
    } else {
      assert s[1..] == rest && s'[1..] == rest';
    }
  }

  lemma {:induction false} TerminatedInjective(p: seq<Name>, q: seq<Name>, delim: byte)
    requires DelimFree(p, delim) && DelimFree(q, delim) && Terminated(p, delim) == Terminated(q, delim)
    ensures p == q
  {
    if p != [] && q != [] {
      FirstPart(p[0], Terminated(p[1..], delim), q[0], Terminated(q[1..], delim), delim);
      TerminatedInjective(p[1..], q[1..], delim);
      assert p == [p[0]] + p[1..] && q == [q[0]] + q[1..];
    }
  }

  /** The parts are the only delimiter-free list that gives back the text. */
  lemma ExplodeIsTheSplit(parts: seq<Name>, text: Name, delim: byte)
    ensures IsSplit(parts, text, delim) <==> parts == Explode(text, delim)
  {
    ExplodeSplits(text, delim);
    if IsSplit(parts, text, delim) {
      TerminatedInjective(parts, Explode(text, delim), delim);
    }
  }

  method SlistExplode(text: Name, delim: byte) returns (parts: seq<Name>)
    ensures parts == Explode(text, delim)
    ensures IsSplit(parts, text, delim)
    decreases |text|
  {
    ExplodeSplits(text, delim);
    if text == [] {
      return [];
    }
    var next: nat := 0;
    while next < |text| && text[next] != delim
      invariant next <= |text| && Scan(text, delim, 0) == Scan(text, delim, next)
    {
      next := next + 1;
    }
    var skip: nat := 0;
    if next < |text| && text[next] == delim {
      skip := 1;
    }
    var rest := SlistExplode(text[next + skip..], delim);
    parts := [text[..next]] + rest;
  }

  /** The first `end` elements of a list, or all of a shorter one. */
  method SlistCopy(list: seq<Name>, end: int) returns (subset: seq<Name>)
    ensures subset == list[..Max(0, Min(end, |list|))]
  {
    if list == [] || end <= 0 {
      return [];
    }
    subset := [list[0]];
    var i := 1;
    while i < end && i < |list|
      invariant 1 <= i <= end && i <= |list| && subset == list[..i]
    {
      subset := subset + [list[i]];
      i := i + 1;
    }
  }
}
