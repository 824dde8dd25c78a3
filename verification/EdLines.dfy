/**
 The editor's list of lines: an array of handles, of which slot 0 stands for the
 place before the first line. Moving, copying and deleting work on it in place.
 The low bit of a handle is the mark of the global command.
 */
module EdLines {
  import opened Bytes
  import opened TempStore

  // ----- what the commands mean -----

  function Reversed(s: seq<int>): (r: seq<int>)
    ensures |r| == |s|
  {
    seq(|s|, i requires 0 <= i < |s| => s[|s| - 1 - i])
  }

  /** Two reversed pieces, reversed together, have changed places. */
  lemma ReversalsSwap(a: seq<int>, b: seq<int>)
    ensures Reversed(Reversed(a) + Reversed(b)) == b + a
  {
  }

  /** The handle without its mark: the even one of the two that name the line. */
  function Unmark(h: int): (u: int)
    ensures u % 2 == 0 && u <= h < u + 2
  {
    h - h % 2
  }

  function UnmarkAll(s: seq<int>): (r: seq<int>)
    ensures |r| == |s|
  {
    seq(|s|, i requires 0 <= i < |s| => Unmark(s[i]))
  }

  /** The lines with block put right behind the first t of them. */
  function InsertAfter(lines: seq<int>, t: nat, block: seq<int>): seq<int>
    requires t <= |lines|
  {
    lines[..t] + block + lines[t..]
  }

  /** The lines without those from number lo to number hi. */
  function Without(lines: seq<int>, lo: nat, hi: nat): seq<int>
    requires 0 < lo <= hi + 1 <= |lines| + 1
  {
    lines[..lo - 1] + lines[hi..]
  }

  /** The m command: lines lo to hi go behind line t, which is not one of them unless it is the one before. */
  function Moved(lines: seq<int>, lo: nat, hi: nat, t: nat): seq<int>
    requires 0 < lo <= hi <= |lines| && t <= |lines| && !(lo <= t <= hi)
  {
    InsertAfter(Without(lines, lo, hi), if t < lo then t else t - (hi - lo + 1), UnmarkAll(lines[lo - 1..hi]))
  }

  /** Where slot k's handle was before slots lo to mid - 1 and mid to hi - 1 changed places. */
  function Source(k: nat, lo: nat, mid: nat, hi: nat): nat
    requires lo <= mid <= hi
  {
    if k < lo || hi <= k then k else if k < lo + hi - mid then mid + k - lo else k - (hi - mid)
  }

  /** Slots lo to mid - 1 and mid to hi - 1 have changed places. */
  ghost predicate Exchanged(was: seq<int>, now: seq<int>, lo: nat, mid: nat, hi: nat) {
    lo <= mid <= hi <= |was| == |now| &&
    forall k {:trigger Source(k, lo, mid, hi)} :: 0 <= k < |was| ==> now[k] == was[Source(k, lo, mid, hi)]
  }

  /** Slots lo to hi - 1 have changed places with what lay between them and slot t. */
  ghost predicate Shifted(was: seq<int>, now: seq<int>, lo: nat, hi: nat, t: nat) {
    if t < lo then Exchanged(was, now, t + 1, lo, hi) else Exchanged(was, now, lo, hi, t + 1)
  }

  /** The marks of slots lo to hi are gone. */
  ghost predicate Cleared(was: seq<int>, now: seq<int>, lo: nat, hi: nat) {
    |was| == |now| && forall k :: 0 <= k < |was| ==> now[k] == if lo <= k <= hi then Unmark(was[k]) else was[k]
  }

  /** The unmarked lines, in order. */
  function Unmarked(lines: seq<int>): (r: seq<int>)
    decreases |lines|
  {
    if lines == [] then []
    else Unmarked(lines[..|lines| - 1]) + (if lines[|lines| - 1] % 2 == 0 then [lines[|lines| - 1]] else [])
  }

  lemma {:induction false} UnmarkedConcat(s: seq<int>, t: seq<int>)
    ensures Unmarked(s + t) == Unmarked(s) + Unmarked(t) && Marks(s + t) == Marks(s) + Marks(t)
    decreases |t|
  {
    if t == [] {
      assert s + t == s;
    } else {
      var n := |t| - 1;
      assert s + t == (s + t[..n]) + [t[n]];
      assert (s + t)[..|s + t| - 1] == s + t[..n];
      UnmarkedConcat(s, t[..n]);
    }
  }

  lemma UnmarkedNext(s: seq<int>, i: nat)
    requires i < |s|
    ensures Unmarked(s[..i + 1]) == Unmarked(s[..i]) + (if s[i] % 2 == 0 then [s[i]] else [])
    ensures Marks(s[..i + 1]) == Marks(s[..i]) + s[i] % 2
  {
    assert s[..i + 1][..i] == s[..i];
  }

  /** Taking out one marked line changes neither the unmarked lines nor their order. */
  lemma TakeOutMarked(before: seq<int>, x: int, after: seq<int>)
    requires x % 2 == 1
    ensures Unmarked(before + after) == Unmarked(before + [x] + after)
    ensures Marks(before + after) + 1 == Marks(before + [x] + after)
  {
    assert (before + [x])[..|before|] == before;
    UnmarkedConcat(before + [x], after);
    UnmarkedConcat(before, after);
  }

  lemma {:induction false} AllUnmarked(lines: seq<int>)
    requires forall k :: 0 <= k < |lines| ==> lines[k] % 2 == 0
    ensures Unmarked(lines) == lines
  {
    if lines != [] {
      AllUnmarked(lines[..|lines| - 1]);
    }
  }

  /** How many lines are marked. */
  function Marks(lines: seq<int>): nat
    decreases |lines|
  {
    if lines == [] then 0 else Marks(lines[..|lines| - 1]) + lines[|lines| - 1] % 2
  }

  /** reverse: turn slots a1 to a2 - 1 around in place. */
  method Reverse(a: array<int>, a1: nat, a2: nat)
    requires 0 < a1 < a2 <= a.Length
    modifies a
    ensures a[..a1] == old(a[..a1]) && a[a1..a2] == Reversed(old(a[a1..a2])) && a[a2..] == old(a[a2..])
  {
    ghost var was := a[..];
    var lo, hi := a1, a2;
    while true
      invariant a1 <= lo <= hi <= a2 && lo - a1 == a2 - hi
      invariant forall k :: 0 <= k < a.Length && !(a1 <= k < lo) && !(hi <= k < a2) ==> a[k] == was[k]
      invariant forall k :: a1 <= k < lo || hi <= k < a2 ==> a[k] == was[a1 + a2 - 1 - k]
      decreases hi - lo
    {
      hi := hi - 1;
      var t := a[hi];
      if hi <= lo {
        break;
      }
      a[hi] := a[lo];
      a[lo] := t;
      lo := lo + 1;
    }
    forall k | 0 <= k < a2 - a1
      ensures a[a1..a2][k] == was[a1..a2][a2 - a1 - 1 - k]
    {
      assert a[a1 + k] == was[a1 + a2 - 1 - (a1 + k)];
    }
    MirrorIsReversed(was[a1..a2], a[a1..a2]);
  }

  /** Two neighbouring runs of slots change places by three reversals. */
  method Exchange(a: array<int>, lo: nat, mid: nat, hi: nat)
    requires 0 < lo < mid < hi <= a.Length
    modifies a
    ensures Exchanged(old(a[..]), a[..], lo, mid, hi)
  {
    ghost var was := a[..];
    Reverse(a, lo, mid);
    ghost var once := a[..];
    Reverse(a, mid, hi);
    ghost var twice := a[..];
    Reverse(a, lo, hi);
    ThreeReversals(was, once, twice, a[..], lo, mid, hi);
  }

  /** Clear the marks of slots addr1 to addr2. */
  method ClearMarks(a: array<int>, addr1: nat, addr2: nat)
    requires 0 < addr1 <= addr2 < a.Length
    modifies a
    ensures Cleared(old(a[..]), a[..], addr1, addr2)
  {
    ghost var was := a[..];
    var ad1 := addr1;
    while ad1 <= addr2
      invariant addr1 <= ad1 <= addr2 + 1
      invariant forall k :: 0 <= k < a.Length ==> a[k] == if addr1 <= k < ad1 then Unmark(was[k]) else was[k]
    {
      a[ad1] := Unmark(a[ad1]);
      ad1 := ad1 + 1;
    }
  }

  /** move once the marks are clear: lines addr1 to ad2 - 1 change places with what lies between them and the target. */
  method Shift(a: array<int>, addr1: nat, ad2: nat, adt: nat) returns (dot: nat)
    requires 0 < addr1 < ad2 <= a.Length && adt < a.Length && !(addr1 <= adt < ad2)
    modifies a
    ensures Shifted(old(a[..]), a[..], addr1, ad2, adt)
    ensures dot == if adt < addr1 then adt + (ad2 - addr1) else adt
  {
    if adt < addr1 {
      dot := adt + (ad2 - addr1);
      if adt + 1 != addr1 {
        Exchange(a, adt + 1, addr1, ad2);
      }
    } else {
      dot := adt;
      Exchange(a, addr1, ad2, adt + 1);
    }
  }

  /** The copy loop of append: slots rdot to top - 1 go up one, and tl into the slot left free. */
  method OpenSlot(a: array<int>, rdot: nat, top: nat, tl: int)
    requires rdot <= top < a.Length
    modifies a
    ensures a[..rdot] == old(a[..rdot]) && a[rdot] == tl && a[rdot + 1..top + 1] == old(a[rdot..top])
  {
    ghost var was := a[..];
    var a1 := top;
    while a1 > rdot
      invariant rdot <= a1 <= top && a[..a1] == was[..a1] && a[a1 + 1..top + 1] == was[a1..top]
    {
      a1 := a1 - 1;
      ghost var above := a[a1 + 2..top + 1];
      a[a1 + 1] := a[a1];
      assert a[a1 + 1..top + 1] == [was[a1]] + above;
    }
    a[rdot] := tl;
  }

  /** The copy loop of rdelete: slots a2 to a3 go down to a1; when there are none, one slot is still copied. */
  method CloseSlots(a: array<int>, ad1: nat, ad2: nat, a3: nat, stray: int)
    requires ad1 < ad2 <= a3 + 1 <= a.Length
    modifies a
    ensures a[..ad1] == old(a[..ad1]) && a[ad1..ad1 + (a3 + 1 - ad2)] == old(a[ad2..a3 + 1])
  {
    ghost var was := a[..];
    var a1, a2 := ad1, ad2;
    var more := true;
    while more
      invariant ad1 <= a1 && a2 - a1 == ad2 - ad1 && (more <==> a2 <= a3 || a2 == ad2) && a2 <= a3 + 2
      invariant a[..ad1] == was[..ad1]
      invariant a2 <= a3 + 1 ==> a[ad1..a1] == was[ad2..a2] && a[a1..] == was[a1..]
      invariant a2 == a3 + 2 ==> ad2 == a3 + 1
      decreases more, a3 - a2
    {
      ghost var below, rest := a[ad1..a1], a[a1..];
      a[a1] := if a2 < a.Length then a[a2] else stray;
      assert a[ad1..a1 + 1] == below + [a[a1]] && a[a1 + 1..] == rest[1..];
      a1, a2 := a1 + 1, a2 + 1;
      more := a2 <= a3;
    }
  }

  /** gdelete's loop with the handles below slot a2 sifted into the slots below a1. */
  ghost predicate Squeezed(was: seq<int>, s: seq<int>, a1: nat, a2: nat, a3: nat) {
    && 1 <= a1 < a2 <= a3 + 1 <= |s| && |was| == a3
    && s[1..a1] == Unmarked(was[..a2 - 1]) && s[a2..a3 + 1] == was[a2 - 1..]
  }

  lemma SqueezeStart(was: seq<int>, s: seq<int>, from: nat, a3: nat)
    requires 1 <= from <= a3 < |s| && was == s[1..a3 + 1] && s[from] % 2 == 1
    requires forall k :: 1 <= k < from ==> s[k] % 2 == 0
    ensures Squeezed(was, s, from, from + 1, a3)
  {
    AllUnmarked(was[..from - 1]);
    UnmarkedNext(was, from - 1);
  }

  lemma SqueezeStep(was: seq<int>, before: seq<int>, after: seq<int>, to: nat, a2: nat, a3: nat)
    requires 1 <= a2 <= a3 < |before| && to >= 1
    requires var a1 := if before[a2] % 2 == 1 then to else to - 1;
      && Squeezed(was, before, a1, a2, a3)
      && after == if before[a2] % 2 == 1 then before else before[a1 := before[a2]]
    ensures Squeezed(was, after, to, a2 + 1, a3)
  {
    UnmarkedNext(was, a2 - 1);
    assert before[a2] == before[a2..a3 + 1][0] == was[a2 - 1];
    assert after[a2 + 1..a3 + 1] == before[a2..a3 + 1][1..] == was[a2..];
    if before[a2] % 2 != 1 {
      assert after[1..to] == before[1..to - 1] + [before[a2]];
    }
  }

  /** The copy loop of gdelete: the unmarked handles of slots 1 to a3 go down over the marked ones. */
  method Squeeze(a: array<int>, from: nat, a3: nat, dot0: nat) returns (a1: nat, dot: nat)
    requires 0 < from <= a3 < a.Length && a[from] % 2 == 1
    requires forall k :: 1 <= k < from ==> a[k] % 2 == 0
    modifies a
    ensures 0 < a1 <= a3 && a[1..a1] == Unmarked(old(a[1..a3 + 1])) && a[0] == old(a[0])
  {
    ghost var was := a[1..a3 + 1];
    a1, dot := from, dot0;
    var a2 := a1 + 1;
    SqueezeStart(was, a[..], from, a3);
    while a2 <= a3
      invariant from <= a1 < a2 <= a3 + 1 && a[0] == old(a[0])
      invariant Squeezed(was, a[..], a1, a2, a3)
    {
      ghost var before := a[..];
      if a[a2] % 2 == 1 {
        SqueezeStep(was, before, before, a1, a2, a3);
        a2 := a2 + 1;
        dot := a1;
      } else {
        SqueezeStep(was, before, before[a1 := before[a2]], a1 + 1, a2, a3);
        a[a1] := a[a2];
        assert a[..] == before[a1 := before[a2]];
        a1, a2 := a1 + 1, a2 + 1;
      }
    }
    assert was[..a3] == was;
    assert a[..][1..a1] == a[1..a1];
  }

  class EdBuffer {
    var a: array<int>
    var dol: nat
    var dot: nat

    /** Slots 0 to dol are in use. */
    ghost predicate Valid()
      reads this`a, this`dol
    {
      dol < a.Length
    }

    function Lines(): (r: seq<int>)
      reads this`a, this`dol, a
      requires Valid()
      ensures |r| == dol
    {
      a[1..dol + 1]
    }

    constructor ()
      ensures Valid() && Lines() == [] && dot == 0 && fresh(a)
    {
      a := new int[128](_ => 0);
      dol, dot := 0, 0;
    }

    /** The growth step of append: 512 more slots when the next line would not fit. */
    method Grow()
      requires Valid()
      modifies this`a
      ensures dol + 1 < a.Length && (a == old(a) || fresh(a)) && Lines() == old(Lines()) && a[0] == old(a[0])
    {
      if dol + 1 >= a.Length {
        ghost var was := a[..];
        var b := new int[a.Length + 512](_ => 0);
        var k := 0;
        while k < a.Length
          invariant k <= a.Length < b.Length && fresh(b) && a == old(a) && a[..] == was && b[..k] == a[..k]
        {
          b[k] := a[k];
          k := k + 1;
        }
        a := b;
        assert a[1..dol + 1] == a[..k][1..dol + 1] == was[1..dol + 1];
      }
    }

    /** append, one line: the new handle goes right behind the current line and becomes the current line. */
    method AddLine(tl: int)
      requires Valid() && dot <= dol
      modifies this, a
      ensures Valid() && dot == old(dot) + 1 && (a == old(a) || fresh(a)) && a[0] == old(a[0])
      ensures Lines() == InsertAfter(old(Lines()), old(dot), [tl])
    {
      Grow();
      ghost var was := a[..];
      OpenSlot(a, dot + 1, dol + 1, tl);
      ghost var now := a[..];
      Inserted(was, now, dot, dol, tl);
      dol, dot := dol + 1, dot + 1;
      assert Lines() == now[1..dol + 1];
    }

    /** move once the marks of the lines are cleared: the lines and those between them and the target change places. */
    method MoveLines(addr1: nat, addr2: nat, adt: nat, ghost was: seq<int>)
      requires Valid() && 0 < addr1 <= addr2 <= dol && adt <= dol && !(addr1 <= adt <= addr2)
      requires dol < |was| && Cleared(was, a[..], addr1, addr2)
      modifies this`dot, a
      ensures Valid() && Lines() == Moved(was[1..dol + 1], addr1, addr2, adt)
      ensures dot == if adt < addr1 then adt + (addr2 - addr1 + 1) else adt
    {
      ghost var clean := a[..];
      var d := Shift(a, addr1, addr2 + 1, adt);
      ghost var now := a[..];
      ArrayMoved(was, clean, now, addr1, addr2, adt, dol);
      dot := d;
      assert Lines() == now[1..dol + 1];
    }

    /** move: the m command on lines addr1 to addr2 and target adt; it fails when the target is one of them. */
    method Move(addr1: nat, addr2: nat, adt: nat) returns (ok: bool)
      requires Valid() && 0 < addr1 <= addr2 <= dol && adt <= dol
      modifies this`dot, a
      ensures Valid()
      ensures ok <==> !(addr1 <= adt <= addr2)
      ensures ok ==> Lines() == Moved(old(Lines()), addr1, addr2, adt)
      ensures ok ==> dot == if adt < addr1 then adt + (addr2 - addr1 + 1) else adt
      ensures !ok ==> UnmarkAll(Lines()) == UnmarkAll(old(Lines())) && dot == old(dot)
    {
      ghost var was := a[..];
      assert Lines() == was[1..dol + 1];
      ClearMarks(a, addr1, addr2);
      ok := !(addr1 <= adt < addr2 + 1);
      if ok {
        MoveLines(addr1, addr2, adt, was);
      } else {
        UnmarkTwice(was, a[..], addr1, addr2, dol);
        assert Lines() == a[..][1..dol + 1];
      }
    }

    /** The end of move with cflag: the lines behind line n, copies of others, go right behind line adt. */
    method PlaceCopies(n: nat, adt: nat)
      requires Valid() && adt <= n < dol
      modifies this`dot, a
      ensures Valid() && dot == adt + (dol - n)
      ensures Lines() == InsertAfter(old(Lines())[..n], adt, old(Lines())[n..])
    {
      ghost var before := a[..];
      assert Lines() == before[1..dol + 1];
      var d := Shift(a, n + 1, dol + 1, adt);
      ghost var now := a[..];
      CopiesPlaced(before, now, n, dol - n, adt);
      dot := d;
      assert Lines() == now[1..dol + 1];
    }

    /**
     rdelete: take lines ad1 to ad2 out. Its loop also copies the slot behind the last line, which
     may lie outside the table: stray stands for what is there.
     */
    method Rdelete(ad1: nat, ad2: nat, stray: int)
      requires Valid() && 0 < ad1 <= ad2 <= dol
      modifies this`dol, this`dot, a
      ensures Valid() && Lines() == Without(old(Lines()), ad1, ad2)
      ensures dot == (if ad1 > dol then dol else ad1) && a[0] == old(a[0])
    {
      ghost var was := a[..];
      CloseSlots(a, ad1, ad2 + 1, dol, stray);
      ghost var now := a[..];
      Removed(was, now, ad1, ad2, dol);
      dol := dol - (ad2 + 1 - ad1);
      var a1 := ad1;
      if a1 > dol {
        a1 := dol;
      }
      dot := a1;
      assert Lines() == now[1..dol + 1];
    }

    /** gdelete: take out every marked line in one sweep. */
    method Gdelete()
      requires Valid() && dol > 0
      modifies this`dol, this`dot, a
      ensures Valid() && Lines() == Unmarked(old(Lines())) && a[0] == old(a[0])
    {
      ghost var was := a[1..dol + 1];
      var a3 := dol;
      var a1 := 1;
      while a[a1] % 2 == 0
        invariant 1 <= a1 <= a3 == dol && a[1..dol + 1] == was
        invariant forall k :: 1 <= k < a1 ==> a[k] % 2 == 0
        decreases a3 - a1
      {
        if a1 >= a3 {
          forall k | 0 <= k < |was|
            ensures was[k] % 2 == 0
          {
            assert was[k] == a[k + 1];
          }
          AllUnmarked(was);
          return;
        }
        a1 := a1 + 1;
      }
      var d;
      a1, d := Squeeze(a, a1, a3, dot);
      ghost var now := a[1..a1];
      dol, dot := a1 - 1, d;
      if dot > dol {
        dot := dol;
      }
      assert Lines() == now;
    }

    /**
     global with the command d: delete the first marked line and start
     again from the top, as long as there is one.
     */
    method GlobalDelete(stray: int)
      requires Valid() && a[0] % 2 == 0
      modifies this`dol, this`dot, a
      ensures Valid() && Lines() == Unmarked(old(Lines())) && a[0] == old(a[0])
    {
      var a1 := 0;
      while a1 <= dol
        invariant Valid() && a1 <= dol + 1 && a[0] == old(a[0])
        invariant Unmarked(Lines()) == Unmarked(old(Lines()))
        invariant forall k :: 0 <= k < a1 ==> a[k] % 2 == 0
        decreases Marks(Lines()), dol + 1 - a1
      {
        if a[a1] % 2 == 1 {
          DeleteMarked(a1, stray);
          a1 := 0;
        }
        a1 := a1 + 1;
      }
      AllUnmarked(Lines());
    }

    /** One round of global: the mark goes, the line becomes the current one, and d deletes it. */
    method DeleteMarked(a1: nat, stray: int)
      requires Valid() && 0 < a1 <= dol && a[a1] % 2 == 1
      modifies this`dol, this`dot, a
      ensures Valid() && a[0] == old(a[0])
      ensures Unmarked(Lines()) == Unmarked(old(Lines())) && Marks(Lines()) < Marks(old(Lines()))
    {
      ghost var lines := Lines();
      a[a1] := Unmark(a[a1]);
      dot := a1;
      ghost var cleared := Lines();
      assert cleared == lines[a1 - 1 := Unmark(lines[a1 - 1])];
      Rdelete(dot, dot, stray);
      assert Lines() == lines[..a1 - 1] + lines[a1..];
      assert lines == lines[..a1 - 1] + [lines[a1 - 1]] + lines[a1..];
      TakeOutMarked(lines[..a1 - 1], lines[a1 - 1], lines[a1..]);
    }
  }

  lemma Inserted(was: seq<int>, now: seq<int>, dot: nat, dol: nat, tl: int)
    requires dot <= dol && dol + 1 < |was| == |now|
    requires now[..dot + 1] == was[..dot + 1] && now[dot + 1] == tl && now[dot + 2..dol + 2] == was[dot + 1..dol + 1]
    ensures now[1..dol + 2] == InsertAfter(was[1..dol + 1], dot, [tl])
  {
    assert now[1..dol + 2] == now[..dot + 1][1..] + [now[dot + 1]] + now[dot + 2..dol + 2];
  }

  lemma Removed(was: seq<int>, now: seq<int>, ad1: nat, ad2: nat, dol: nat)
    requires 0 < ad1 <= ad2 <= dol < |was| == |now|
    requires now[..ad1] == was[..ad1] && now[ad1..ad1 + (dol - ad2)] == was[ad2 + 1..dol + 1]
    ensures now[1..dol - (ad2 - ad1)] == Without(was[1..dol + 1], ad1, ad2)
  {
    assert now[1..dol - (ad2 - ad1)] == now[..ad1][1..] + now[ad1..ad1 + (dol - ad2)];
  }

  lemma UnmarkTwice(was: seq<int>, clean: seq<int>, lo: nat, hi: nat, dol: nat)
    requires lo <= hi <= dol && dol < |was| && Cleared(was, clean, lo, hi)
    ensures UnmarkAll(clean[1..dol + 1]) == UnmarkAll(was[1..dol + 1])
  {
  }

  /** The moved lines themselves. */
  lemma MovedAt(lines: seq<int>, lo: nat, hi: nat, t: nat, i: nat)
    requires 0 < lo <= hi <= |lines| && t <= |lines| && !(lo <= t <= hi) && i < |lines|
    ensures |Moved(lines, lo, hi, t)| == |lines|
    ensures var n := hi - lo + 1;
      Moved(lines, lo, hi, t)[i] ==
        if t < lo then
          (if i < t then lines[i] else if i < t + n then Unmark(lines[lo - 1 + i - t])
           else if i < hi then lines[i - n] else lines[i])
        else
          (if i < lo - 1 then lines[i] else if i < t - n then lines[i + n]
           else if i < t then Unmark(lines[lo - 1 + i - (t - n)]) else lines[i])
  {
    var n := hi - lo + 1;
    var rest, block := Without(lines, lo, hi), UnmarkAll(lines[lo - 1..hi]);
    var p := if t < lo then t else t - n;
    assert Moved(lines, lo, hi, t) == rest[..p] + block + rest[p..];
  }

  /** The array after two runs have changed places is the moved lines. */
  lemma ArrayMoved(was: seq<int>, clean: seq<int>, now: seq<int>, lo: nat, hi: nat, t: nat, dol: nat)
    requires 0 < lo <= hi <= dol && t <= dol && !(lo <= t <= hi) && dol < |was|
    requires Cleared(was, clean, lo, hi) && Shifted(clean, now, lo, hi + 1, t)
    ensures now[1..dol + 1] == Moved(was[1..dol + 1], lo, hi, t)
  {
    var w := was[1..dol + 1];
    MovedAt(w, lo, hi, t, 0);
    var moved := Moved(w, lo, hi, t);
    forall i | 0 <= i < dol
      ensures now[i + 1] == moved[i]
    {
      MovedSlot(was, clean, now, lo, hi, t, dol, i);
    }
  }

  lemma MovedSlot(was: seq<int>, clean: seq<int>, now: seq<int>, lo: nat, hi: nat, t: nat, dol: nat, i: nat)
    requires 0 < lo <= hi <= dol && t <= dol && !(lo <= t <= hi) && i < dol < |was|
    requires Cleared(was, clean, lo, hi) && Shifted(clean, now, lo, hi + 1, t)
    ensures |Moved(was[1..dol + 1], lo, hi, t)| == dol && now[i + 1] == Moved(was[1..dol + 1], lo, hi, t)[i]
  {
    MovedAt(was[1..dol + 1], lo, hi, t, i);
    var j := if t < lo then Source(i + 1, t + 1, lo, hi + 1) else Source(i + 1, lo, hi + 1, t + 1);
    assert now[i + 1] == clean[j] == if lo <= j <= hi then Unmark(was[j]) else was[j];
  }

  /** The copies, appended at the end, have changed places with the lines behind the target. */
  lemma CopiesPlaced(was: seq<int>, now: seq<int>, dol: nat, n: nat, adt: nat)
    requires adt <= dol && dol + n < |was| && 0 < n && Shifted(was, now, dol + 1, dol + n + 1, adt)
    ensures now[1..dol + n + 1] == InsertAfter(was[1..dol + n + 1][..dol], adt, was[1..dol + n + 1][dol..])
  {
    var w := was[1..dol + n + 1];
    var placed := InsertAfter(w[..dol], adt, w[dol..]);
    assert placed == w[..adt] + w[dol..] + w[adt..dol];
    forall i | 0 <= i < dol + n
      ensures now[i + 1] == placed[i]
    {
      var j := Source(i + 1, adt + 1, dol + 1, dol + n + 1);
      assert now[i + 1] == was[j] == w[j - 1];
      assert placed[i] == w[if i < adt then i else if i < adt + n then dol + i - adt else i - n];
    }
  }

  /** Reversing two neighbouring runs and then both together. */
  lemma ThreeReversals(was: seq<int>, once: seq<int>, twice: seq<int>, now: seq<int>, lo: nat, mid: nat, hi: nat)
    requires lo < mid < hi <= |was| == |once| == |twice| == |now|
    requires once[..lo] == was[..lo] && once[lo..mid] == Reversed(was[lo..mid]) && once[mid..] == was[mid..]
    requires twice[..mid] == once[..mid] && twice[mid..hi] == Reversed(once[mid..hi]) && twice[hi..] == once[hi..]
    requires now[..lo] == twice[..lo] && now[lo..hi] == Reversed(twice[lo..hi]) && now[hi..] == twice[hi..]
    ensures Exchanged(was, now, lo, mid, hi)
  {
    assert once[mid..hi] == once[mid..][..hi - mid] == was[mid..hi];
    assert twice[lo..mid] == twice[..mid][lo..] == once[lo..mid];
    assert twice[lo..hi] == twice[lo..mid] + twice[mid..hi];
    ReversalsSwap(was[lo..mid], was[mid..hi]);
    assert now[..lo] == twice[..mid][..lo] == once[..mid][..lo] == was[..lo];
    assert now[hi..] == once[hi..] == once[mid..][hi - mid..] == was[hi..];
    RunsExchanged(was, now, lo, mid, hi);
  }

  lemma RunsExchanged(was: seq<int>, now: seq<int>, lo: nat, mid: nat, hi: nat)
    requires lo <= mid <= hi <= |was| == |now|
    requires now[..lo] == was[..lo] && now[lo..hi] == was[mid..hi] + was[lo..mid] && now[hi..] == was[hi..]
    ensures Exchanged(was, now, lo, mid, hi)
  {
    assert now == now[..lo] + now[lo..hi] + now[hi..];
  }

  lemma MirrorIsReversed(s: seq<int>, r: seq<int>)
    requires |r| == |s| && forall k :: 0 <= k < |r| ==> r[k] == s[|s| - 1 - k]
    ensures r == Reversed(s)
  {
  }
}
