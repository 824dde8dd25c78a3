/**
 The routines of the linker that work on the symbol table in place: hashing a
 name, looking it up, entering it, and backing symbols out again. The table's
 segments are a list of records that the routines update.
 */
module LinkTable {
  import opened Probing
  import opened SymbolTable

  class SymTab {
    var segs: seq<Seg>
    /** The current segment, -1 before the first lookup. */
    var cseg: int
    /** The next free slot, null before the first symbol. */
    var next: Ptr
    /** The symbol entered or found last. */
    var last: Ptr

    ghost predicate Valid()
      reads this
    {
      ValidTable(segs, cseg, next)
    }

    /** The symbols in the order of their indices. */
    ghost function Entries(): seq<Entry>
      reads this
    {
      Flat(segs, |segs|)
    }

    /** r is a slot: a bucket that holds the symbol named name, or the free bucket where it belongs. */
    ghost predicate IsPlaceOf(r: Outcome, name: Name)
      reads this
      requires AllLinked(segs)
    {
      r == Find(segs, name, 0) && (r.Found? || r.Free?) && r.seg < |segs| && (r.Free? ==> r.seg == cseg)
    }

    /** p points at a slot in use. */
    ghost predicate InUse(p: Ptr)
      reads this
    {
      p.At? && p.seg < |segs| && p.off < |segs[p.seg].syms|
    }

    /** The entry a pointer points at is the one of its index. */
    function Slot(p: Ptr): (e: Entry)
      reads this
      requires Valid() && InUse(p)
      ensures Symx(p) < |Entries()| && e == Entries()[Symx(p)]
    {
      FlatAt(segs, cseg, p.seg, p.off);
      segs[p.seg].syms[p.off].ent
    }

    constructor ()
      ensures Valid() && Entries() == [] && next == Null
    {
      segs, cseg, next, last := [], -1, Null, Null;
    }

    /** The hash loop over the characters of a name. */
    method HashName(name: Name) returns (h: nat)
      ensures h == Hash(name)
    {
      var sh := 0;
      var n := 0;
      while n < |name|
        invariant 0 <= n <= |name| && 0 <= sh
        invariant HashFrom(sh, name[n..]) == HashFrom(0, name)
      {
        sh := HashStep(sh, name[n]);
        n := n + 1;
      }
      assert name[n..] == [];
      h := (sh % 0x8000_0000) % HSIZE;
    }

    /** The inner loop of lookup: search one segment, starting in bucket sh. */
    method SearchSegment(g: nat, name: Name, sh: nat) returns (r: SegResult)
      requires g < |segs| && Linked(segs[g]) && sh == Hash(name)
      ensures r == SegFind(segs[g], name, 0)
    {
      var s := segs[g];
      var hp, i := sh, 1;
      ghost var j, found := 0, SegFind(s, name, 0);  // j is the probe about to be made
      while true
        invariant i == 2 * j + 1 && 0 <= j < NSYM
        invariant hp == Probe(sh, j)
        invariant SegFind(s, name, j) == found
        decreases NSYM - j
      {
        if s.buckets[hp] == -1 {
          if |s.syms| == NSYM {
            return Full;
          }
          return Vacant(hp);
        }
        if s.syms[s.buckets[hp]].ent.name == name {
          return Hit(hp);
        }
        SegFindOn(s, name, j);
        hp := hp + i;
        i := i + 2;
        j := j + 1;
        if hp >= HSIZE {
          hp := hp - HSIZE;
        }
        assert hp == Probe(sh, j);
        if !(i < HSIZE) {
          break;
        }
      }
      return Botch;
    }

    /** Allocate segment g when the search first reaches it, and make it current. */
    method ReachSegment(g: nat, ghost name: Name)
      requires Valid() && g < NSEG && g <= |segs| && PassedBefore(segs, g, name)
      modifies this`segs, this`cseg
      ensures Valid() && Entries() == old(Entries()) && Extends(old(segs), segs)
      ensures g < |segs| && g <= cseg && PassedBefore(segs, g, name) && cseg >= old(cseg)
      ensures Find(segs, name, 0) == Find(segs, name, g) && SameSearches(old(segs), segs)
    {
      if g == |segs| {
        GrowRound(segs, cseg, next, name);
        segs := segs + [EmptySeg];
      } else {
        StayRound(segs, cseg, next, name, g);
      }
      if g > cseg {
        cseg := g;
      }
    }

    /** Look a name up in every segment in turn, allocating segments as they are reached. */
    method Lookup(name: Name) returns (r: Outcome)
      requires Valid()
      modifies this`segs, this`cseg
      ensures Valid() && Entries() == old(Entries()) && Extends(old(segs), segs)
      ensures r == Find(old(segs), name, 0) == Find(segs, name, 0) && SameSearches(old(segs), segs)
      ensures cseg >= old(cseg) && next == old(next)
      ensures r.Found? || r.Free? ==> IsPlaceOf(r, name)
    {
      var sh := HashName(name);
      var g := 0;
      SearchesSame(segs);
      while g < NSEG
        invariant 0 <= g <= NSEG && g <= |segs|
        invariant Valid() && Entries() == old(Entries()) && Extends(old(segs), segs)
        invariant PassedBefore(segs, g, name) && cseg >= old(cseg)
        invariant SameSearches(old(segs), segs)
      {
        ghost var was := segs;
        ReachSegment(g, name);
        ExtendsTransitive(old(segs), was, segs);
        SameSearchesTransitive(old(segs), was, segs);
        var s := SearchSegment(g, name, sh);
        if s.Full? {
          PassOne(segs, g, name);
          g := g + 1;
        } else {
          r := if s.Hit? then Found(g, s.bucket) else if s.Vacant? then Free(g, s.bucket) else Botched(g);
          assert r == Find(segs, name, 0);
          FindIsSound(segs, cseg, next, name);
          SearchIsSame(old(segs), segs, name);
          return;
        }
      }
      FindSkips(segs, name, 0, NSEG);
      SearchIsSame(old(segs), segs, name);
      return Overflow;
    }

    /** Enter a symbol where lookup ended, unless its name is there already. */
    method Enter(hp: Outcome, e: Entry) returns (entered: bool)
      requires Valid() && IsPlaceOf(hp, e.name)
      modifies this
      ensures Valid() && cseg == old(cseg) && Extends(old(segs), segs)
      ensures entered <==> hp.Free?
      ensures entered ==> Entries() == old(Entries()) + [e] && Symx(next) == Symx(last) + 1
      ensures !entered ==> segs == old(segs) && next == old(next) && last == SlotIn(segs, hp)
      ensures InUse(last)
    {
      if hp.Free? {
        PushTableValid(segs, cseg, next, e, hp.bucket);
        PushFlat(segs, cseg, e, hp.bucket);
        last := At(cseg, |segs[cseg].syms|);
        segs := PushAt(segs, cseg, e, hp.bucket);
        next := At(last.seg, last.off + 1);
        entered := true;
      } else {
        FoundInUse(segs, cseg, next, e.name);
        last := SlotIn(segs, hp);
        entered := false;
      }
    }

    /** Replace the type and value of a symbol: its name and its bucket stay. */
    method Assign(p: Ptr, kind: Kind, value: int)
      requires Valid() && InUse(p)
      modifies this`segs
      ensures Valid() && Extends(old(segs), segs) && |segs| == old(|segs|)
      ensures Symx(p) < old(|Entries()|)
      ensures Entries() == old(Entries())[Symx(p) := Entry(old(Entries())[Symx(p)].name, kind, value)]
    {
      AssignValid(segs, cseg, next, p, kind, value);
      AssignFlat(segs, cseg, p, kind, value);
      AssignExtends(segs, p, kind, value);
      segs := AssignAt(segs, p, kind, value);
    }

    /** The inner loop of symfree: empty segment g from its newest symbol down, stopping at saved. */
    method BackOutSegment(g: nat, saved: Ptr) returns (reached: bool)
      requires g < |segs| && Linked(segs[g])
      requires saved.At? && saved.seg == g ==> 0 < saved.off < |segs[g].syms|
      modifies this`segs, this`next
      ensures reached <==> saved.At? && saved.seg == g
      ensures reached ==> segs == old(segs)[g := Cut(old(segs)[g], saved.off)] && next == saved
      ensures !reached ==> segs == old(segs)[g := Cut(old(segs)[g], 0)] && next == old(next)
    {
      var used := |segs[g].syms|;
      CutNone(segs[g]);
      while used > 0
        invariant 0 <= used <= |old(segs)[g].syms| && next == old(next)
        invariant segs == old(segs)[g := Cut(old(segs)[g], used)]
        invariant saved.At? && saved.seg == g ==> saved.off < used
      {
        used := used - 1;
        CutOne(old(segs)[g], used);
        segs := segs[g := Seg(segs[g].syms[..used], segs[g].buckets[segs[g].syms[used].hash := -1])];
        if At(g, used) == saved {
          next := At(g, used);
          return true;
        }
      }
      return false;
    }

    /**
     Back out every symbol entered since next was saved, newest first. A null saved pointer
     empties the table but leaves next where it was.
     */
    method SymFree(saved: Ptr)
      requires Valid()
      requires saved.At? ==> saved.seg <= cseg && 0 < saved.off <= |segs[saved.seg].syms|
      modifies this`segs, this`cseg, this`next
      ensures saved.At? ==> Valid() && next == saved && cseg == saved.seg && segs == CutTable(old(segs), saved)
      ensures saved.At? ==> Symx(saved) <= old(|Entries()|) && Entries() == old(Entries())[..Symx(saved)]
      ensures saved.Null? ==> next == old(next) && cseg == -1 && segs == CutTable(old(segs), At(0, 0))
    {
      ghost var was := segs;
      ghost var stop := if saved.At? then saved else At(0, 0);
      if saved.At? {
        CutTableValid(segs, cseg, next, saved);
        CutFlat(segs, cseg, saved);
      }
      EmptyTailCut(segs, cseg);
      var g := cseg;
      while g >= 0
        invariant -1 <= g == cseg < |was| && next == old(next)
        invariant saved.At? ==> saved.seg <= g
        invariant TailEmptied(was, segs, g)
      {
        assert segs[g] == was[g];
        var used := |segs[g].syms|;
        if At(g, used) == saved {
          next := At(g, used);
          CutNone(segs[g]);
          CutTableIs(was, segs, stop);
          return;
        }
        var reached := BackOutSegment(g, saved);
        if reached {
          CutTableIs(was, segs, stop);
          return;
        }
        g := g - 1;
        cseg := cseg - 1;
      }
      CutTableIs(was, segs, stop);
    }
  }

  /** The slot whose bucket a search hit. */
  function SlotIn(segs: seq<Seg>, r: Outcome): Ptr {
    if r.Found? && r.seg < |segs| && r.bucket < |segs[r.seg].buckets| && segs[r.seg].buckets[r.bucket] >= 0
    then At(r.seg, segs[r.seg].buckets[r.bucket]) else Null
  }

  /** A search that finds a name has found a slot in use. */
  lemma FoundInUse(segs: seq<Seg>, cseg: int, next: Ptr, name: Name)
    requires ValidTable(segs, cseg, next)
    ensures var r := Find(segs, name, 0);
      r.Found? ==>
      r.seg < |segs| && r.bucket < |segs[r.seg].buckets| && 0 <= segs[r.seg].buckets[r.bucket] < |segs[r.seg].syms|
  {
    FindIsSound(segs, cseg, next, name);
  }

  /** Segments after g have been emptied, the others not yet touched. */
  ghost predicate TailEmptied(was: seq<Seg>, segs: seq<Seg>, g: int) {
    && |segs| == |was|
    && (forall f :: 0 <= f < |was| && f <= g ==> segs[f] == was[f])
    && (forall f :: 0 <= f < |was| && f > g ==> segs[f] == Cut(was[f], 0))
  }

  lemma EmptyTailCut(segs: seq<Seg>, cseg: int)
    requires Packed(segs, cseg) && AllValid(segs)
    ensures TailEmptied(segs, segs, cseg)
  {
    forall f | 0 <= f < |segs| && f > cseg
      ensures segs[f] == Cut(segs[f], 0)
    {
      assert ValidSeg(segs[f]);
      CutNone(segs[f]);
    }
  }
}
