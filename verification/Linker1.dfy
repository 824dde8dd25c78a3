/**
 The linker's first pass in place: load1, step, ldrand and the search of a library,
 on the segmented symbol table and the running sizes.
 */
module Linker1 {
  import opened SymbolTable
  import opened LinkTable
  import opened Pass1
  import opened Library
  import opened Probing

  /** No two slots of the table hold the same name. */
  lemma TableUnique(segs: seq<Seg>, cseg: int, next: Ptr)
    requires ValidTable(segs, cseg, next)
    ensures Unique(Flat(segs, |segs|))
  {
    var es := Flat(segs, |segs|);
    forall i, j | 0 <= i < j < |es|
      ensures es[i].name != es[j].name
    {
      SlotOf(segs, cseg, next, i);
      SlotOf(segs, cseg, next, j);
      var p, q := Xsym(i), Xsym(j);
      if es[i].name == es[j].name {
        NamesUnique(segs, cseg, next, p.seg, p.off, q.seg, q.off, es[i].name);
      }
    }
  }

  lemma SlotOf(segs: seq<Seg>, cseg: int, next: Ptr, i: nat)
    requires ValidTable(segs, cseg, next) && i < |Flat(segs, |segs|)|
    ensures var p := Xsym(i);
      Symx(p) == i && Holds(segs, p.seg, p.off, Flat(segs, |segs|)[i].name)
        && segs[p.seg].syms[p.off].ent == Flat(segs, |segs|)[i]
  {
    if cseg >= 0 {
      assert ValidSeg(segs[cseg]);
    }
    XsymInvertsSymx(segs, cseg, i);
  }

  /** The search of the table is the search of the list of entries. */
  lemma FindIsIndexOf(segs: seq<Seg>, cseg: int, next: Ptr, name: Name)
    requires ValidTable(segs, cseg, next)
    ensures var r, es := Find(segs, name, 0), Flat(segs, |segs|);
      && (r.Found? <==> IndexOf(es, name) < |es|)
      && (r.Found? ==> SlotIn(segs, r).At? && IndexOf(es, name) == Symx(SlotIn(segs, r)))
  {
    var es := Flat(segs, |segs|);
    var i := IndexOf(es, name);
    TableUnique(segs, cseg, next);
    FindIsMapLookup(segs, cseg, next, name);
    var r := Find(segs, name, 0);
    if r.Found? {
      FlatAt(segs, cseg, r.seg, segs[r.seg].buckets[r.bucket]);
      IndexIs(es, Symx(At(r.seg, segs[r.seg].buckets[r.bucket])));
    } else if i < |es| {
      SlotOf(segs, cseg, next, i);
    }
  }

  datatype Status = Kept | Rejected | Fatal

  /** Some external name of the module is one whose search ends in an error exit. */
  ghost predicate StuckOn(segs: seq<Seg>, m: Module)
    requires AllLinked(segs)
  {
    exists k :: 0 <= k < |m.syms| && m.syms[k].ext && Stuck(segs, m.syms[k].name)
  }

  lemma StuckAt(segs: seq<Seg>, m: Module, k: nat, r: Rel)
    requires AllLinked(segs) && k < |m.syms| && m.syms[k].ext && Stuck(segs, Relocated(m.syms[k], r).name)
    ensures StuckOn(segs, m)
  {
    assert Relocated(m.syms[k], r).name == m.syms[k].name;
  }

  /** Some name in the table of contents is such a name, or some member promised there has one. */
  ghost predicate StuckIn(segs: seq<Seg>, ar: Archive)
    requires AllLinked(segs) && Readable(ar)
  {
    exists j :: 0 <= j < |ar.toc| && (Stuck(segs, ar.toc[j].name) || StuckOn(segs, ar.members[ar.toc[j].off]))
  }

  class Linker {
    const tab: SymTab
    var tsize: nat
    var dsize: nat
    var bsize: nat
    /** Offsets of the library members to load, each library ended by -1. */
    var found: seq<int>

    ghost function St(): State
      reads this, tab
    {
      State(tab.Entries(), tsize, dsize, bsize, found)
    }

    ghost predicate Valid()
      reads this, tab
    {
      tab.Valid() && Sizes(tab.Entries())
    }

    constructor ()
      ensures Valid() && St() == State([], 0, 0, 0, []) && tab.next == Null && fresh(tab)
    {
      tab := new SymTab();
      tsize, dsize, bsize, found := 0, 0, 0, [];
    }

    lemma ValidIsGood()
      requires Valid()
      ensures Good(St())
    {
      TableUnique(tab.segs, tab.cseg, tab.next);
    }

    /** enter(lookup()): find a symbol's slot, taking a new one if its name is new. */
    method LookupEnter(e: Entry) returns (ok: bool, entered: bool)
      requires tab.Valid()
      modifies tab
      ensures tab.Valid() && (ok <==> !Stuck(old(tab.segs), e.name))
      ensures !ok ==> Stuck(tab.segs, e.name) && tab.Entries() == old(tab.Entries())
      ensures ok ==> Extends(old(tab.segs), tab.segs) && tab.cseg >= old(tab.cseg)
      ensures ok ==> (entered <==> IndexOf(old(tab.Entries()), e.name) == |old(tab.Entries())|)
      ensures ok ==> tab.Entries() == if entered then old(tab.Entries()) + [e] else old(tab.Entries())
      ensures ok && !entered ==> tab.InUse(tab.last) && Symx(tab.last) == IndexOf(tab.Entries(), e.name)
    {
      var hp := tab.Lookup(e.name);
      if hp.Botched? || hp.Overflow? {
        return false, false;
      }
      label found:
      FindIsIndexOf(tab.segs, tab.cseg, tab.next, e.name);
      entered := tab.Enter(hp, e);
      ExtendsTransitive(old(tab.segs), old@found(tab.segs), tab.segs);
      ok := true;
    }

    /** What load1 does with a symbol whose name was there already: counted means it netted a definition. */
    method Resolve(e: Entry) returns (counted: bool)
      requires tab.Valid() && tab.InUse(tab.last)
      modifies tab`segs
      ensures tab.Valid() && Extends(old(tab.segs), tab.segs)
      ensures Symx(tab.last) < old(|tab.Entries()|)
      ensures var (ent, d) := Merge(old(tab.Entries())[Symx(tab.last)], e);
        counted == (d == 1) && tab.Entries() == old(tab.Entries())[Symx(tab.last) := ent]
    {
      var sp := tab.Slot(tab.last);
      if sp.kind != Undf {
        return false;
      }
      if e.kind == Undf {
        if e.value > sp.value {
          tab.Assign(tab.last, Undf, e.value);
        }
        return false;
      }
      if sp.value != 0 && e.kind == Text {
        return false;
      }
      tab.Assign(tab.last, e.kind, e.value);
      return true;
    }

    /** The body of load1's loop for one external symbol. */
    method EnterSymbol(e: Entry) returns (ok: bool, counted: bool)
      requires Valid() && (e.kind == Undf ==> e.value >= 0)
      modifies tab
      ensures ok ==> Valid() && tab.Entries() == Enter1(old(tab.Entries()), e).0
      ensures ok ==> counted == (Enter1(old(tab.Entries()), e).1 == 1)
      ensures ok ==> Extends(old(tab.segs), tab.segs) && tab.cseg >= old(tab.cseg)
      ensures !ok ==> tab.Valid() && Stuck(old(tab.segs), e.name) && Stuck(tab.segs, e.name)
      ensures !ok ==> tab.Entries() == old(tab.Entries())
    {
      Enter1Sizes(tab.Entries(), e);
      var entered;
      ok, entered := LookupEnter(e);
      if !ok || entered {
        return ok, false;
      }
      label entered:
      counted := Resolve(e);
      ExtendsTransitive(old(tab.segs), old@entered(tab.segs), tab.segs);
    }

    /** The body of load1's loop over the symbol table of a module. */
    method EnterNext(m: Module, r: Rel, n: nat) returns (ok: bool, d: nat)
      requires Valid() && n < |m.syms|
      modifies tab
      ensures ok ==> Valid() && Extends(old(tab.segs), tab.segs) && tab.cseg >= old(tab.cseg)
      ensures ok ==> var (es, ndef) := EnterAll(old(tab.Entries()), m.syms, r, n);
        EnterAll(tab.Entries(), m.syms, r, n + 1) == (es, ndef - d) && ndef >= d
      ensures !ok ==> tab.Valid() && StuckOn(tab.segs, m)
      ensures |tab.Entries()| <= old(|tab.Entries()|) + if ok then 1 else 0
    {
      if !m.syms[n].ext {
        return true, 0;
      }
      var counted;
      ok, counted := EnterSymbol(Relocated(m.syms[n], r));
      d := if counted then 1 else 0;
      if !ok {
        StuckAt(tab.segs, m, n, r);
      }
    }

    /** load1's loop over the symbol table of a module. */
    method EnterSymbols(m: Module, r: Rel) returns (ok: bool, ndef: nat)
      requires Valid()
      modifies tab
      ensures ok ==> Valid() && (tab.Entries(), ndef) == EnterAll(old(tab.Entries()), m.syms, r, 0)
      ensures ok ==> Extends(old(tab.segs), tab.segs) && tab.cseg >= old(tab.cseg)
      ensures !ok ==> tab.Valid() && StuckOn(tab.segs, m) && |tab.Entries()| < old(|tab.Entries()|) + |m.syms|
    {
      ndef := 0;
      var n := 0;
      ghost var all := EnterAll(tab.Entries(), m.syms, r, 0);
      while n < |m.syms|
        invariant 0 <= n <= |m.syms| && Valid() && |tab.Entries()| <= old(|tab.Entries()|) + n
        invariant EnterAll(tab.Entries(), m.syms, r, n).0 == all.0
        invariant ndef + EnterAll(tab.Entries(), m.syms, r, n).1 == all.1
        invariant Extends(old(tab.segs), tab.segs) && tab.cseg >= old(tab.cseg)
      {
        ghost var was := tab.segs;
        var d;
        ok, d := EnterNext(m, r, n);
        if !ok {
          return false, ndef;
        }
        ExtendsTransitive(old(tab.segs), was, tab.segs);
        ndef := ndef + d;
        n := n + 1;
      }
      ok := true;
    }

    /** symfree as load1 calls it: the entries are cut and every search ends where it did. */
    method BackOut(saved: Ptr, ghost segs0: seq<Seg>, ghost cseg0: int)
      requires Valid() && ValidTable(segs0, cseg0, saved) && Extends(segs0, tab.segs) && cseg0 <= tab.cseg
      modifies tab
      ensures saved.At? ==> Valid() && tab.next == saved
      ensures saved.At? ==> |Flat(segs0, |segs0|)| <= old(|tab.Entries()|)
      ensures saved.At? ==> tab.Entries() == old(tab.Entries())[..|Flat(segs0, |segs0|)|]
      ensures saved.At? ==> SameSearches(segs0, tab.segs)
      ensures saved.Null? ==> tab.cseg == -1 && (tab.Valid() <==> tab.next.Null?)
      ensures saved.Null? ==> Flat(segs0, |segs0|) == []
      ensures saved.Null? ==> (tab.next.Null? <==> old(tab.Entries()) == [])
    {
      NextIndex(segs0, cseg0, saved);
      NextIndex(tab.segs, tab.cseg, tab.next);
      NullBackOutIff(tab.segs, tab.cseg, tab.next);
      SizesCut(tab.Entries(), |Flat(segs0, |segs0|)|);
      if saved.At? {
        SavedInRange(segs0, cseg0, saved, tab.segs);
        RollbackRestoresAllSearches(segs0, cseg0, saved, tab.segs, tab.cseg, tab.next);
      }
      tab.SymFree(saved);
    }

    /** load1's last steps for a member that netted nothing, from the state in which its symbols were being entered. */
    method Reject(m: Module, saved: Ptr, ghost st: State, ghost segs0: seq<Seg>, ghost cseg0: int)
      requires Valid() && ValidTable(segs0, cseg0, saved) && Extends(segs0, tab.segs) && cseg0 <= tab.cseg
      requires Unique(st.es) && st.es == Flat(segs0, |segs0|) && m.syms != []
      requires St() == st.(es := tab.Entries()) && (tab.Entries(), 0) == EnterAll(st.es, m.syms, Pass1Rel(st, m), 0)
      modifies tab
      ensures !Pass1.Load1(st, m, true).1
      ensures saved.At? ==> Valid() && St() == Pass1.Load1(st, m, true).0 && tab.next == saved
      ensures saved.At? ==> SameSearches(segs0, tab.segs)
      ensures saved.Null? ==> tab.cseg == -1 && (tab.Valid() <==> NoExternals(m.syms, 0))
    {
      EnterAllEmpty(m.syms, Pass1Rel(st, m), 0);
      BackOut(saved, segs0, cseg0);
      if saved.At? {
        assert tab.Entries() == BackedOut(st.es, m.syms, Pass1Rel(st, m));
      }
    }

    /** load1's last steps for a module that is loaded. */
    method Keep(m: Module, ghost lib: bool, ghost st: State, ghost ndef: nat)
      requires Valid() && Unique(st.es) && m.syms != [] && (!lib || ndef > 0)
      requires St() == st.(es := tab.Entries()) && (tab.Entries(), ndef) == EnterAll(st.es, m.syms, Pass1Rel(st, m), 0)
      modifies this
      ensures Valid() && (St(), true) == Pass1.Load1(st, m, lib)
    {
      tsize := tsize + m.text;
      dsize := dsize + RoundUp(m.data, 4);
      bsize := bsize + RoundUp(m.bss, 4);
    }

    /** load1 once it is known that the module has symbols. */
    method LoadSymbols(m: Module, lib: bool) returns (status: Status)
      requires Valid() && Unique(tab.Entries()) && m.syms != []
      modifies this, tab
      ensures status != Fatal ==> (status == Kept <==> Pass1.Load1(old(St()), m, lib).1)
      ensures status == Kept ==> Valid() && St() == Pass1.Load1(old(St()), m, lib).0
      ensures status == Rejected && old(tab.next).At? ==>
        && Valid() && St() == Pass1.Load1(old(St()), m, lib).0
        && tab.next == old(tab.next) && SameSearches(old(tab.segs), tab.segs)
      ensures status == Rejected && old(tab.next).Null? ==> tab.cseg == -1 && (tab.Valid() <==> NoExternals(m.syms, 0))
      ensures status == Fatal ==>
        tab.Valid() && StuckOn(tab.segs, m) && |tab.Entries()| < old(|tab.Entries()|) + |m.syms|
    {
      ghost var st, segs0, cseg0 := St(), tab.segs, tab.cseg;
      var savnext := tab.next;
      var ok, ndef := EnterSymbols(m, Rel(tsize, dsize - m.dataAt, bsize - m.dataAt - m.data));
      if !ok {
        return Fatal;
      }
      if !lib || ndef > 0 {
        Keep(m, lib, st, ndef);
        return Kept;
      }
      Reject(m, savnext, st, segs0, cseg0);
      return Rejected;
    }

    /**
     Pass 1 over one module. A library member that nets no definition is backed out; with a
     null saved pointer that leaves a dangling next, unless the member has no external symbol.
     */
    method Load1(m: Module, lib: bool) returns (status: Status)
      requires Valid()
      modifies this, tab
      ensures Unique(old(tab.Entries()))
      ensures status != Fatal ==> (status == Kept <==> Pass1.Load1(old(St()), m, lib).1)
      ensures status == Kept ==> Valid() && St() == Pass1.Load1(old(St()), m, lib).0
      ensures status == Rejected && (m.syms == [] || old(tab.next).At?) ==>
        && Valid() && St() == Pass1.Load1(old(St()), m, lib).0
        && tab.next == old(tab.next) && SameSearches(old(tab.segs), tab.segs)
      ensures status == Rejected && m.syms != [] && old(tab.next).Null? ==>
        tab.cseg == -1 && (tab.Valid() <==> NoExternals(m.syms, 0))
      ensures m.syms == [] ==> (status == Fatal <==> m.text + m.data > 0)
      ensures status == Fatal ==> tab.Valid()
      ensures status == Fatal && m.syms != [] ==>
        StuckOn(tab.segs, m) && |tab.Entries()| < old(|tab.Entries()|) + |m.syms|
    {
      ValidIsGood();
      if |m.syms| == 0 {
        return if m.text + m.data == 0 then Rejected else Fatal;
      }
      status := LoadSymbols(m, lib);
    }

    /** step: examine a member, and record it if it is kept. */
    method Step(ar: Archive, off: int) returns (ok: bool)
      requires Valid() && Readable(ar) && off in ar.members && tab.Entries() != []
      modifies this, tab
      ensures Unique(old(tab.Entries()))
      ensures ok ==> Valid() && St() == Library.Step(old(St()), ar, off)
      ensures !ok ==> tab.Valid() && StuckOn(tab.segs, ar.members[off])
    {
      ValidIsGood();
      NextIndex(tab.segs, tab.cseg, tab.next);
      var status := Load1(ar.members[off], true);
      if status == Fatal {
        return false;
      }
      if status == Kept {
        found := found + [off];
      }
      ok := true;
    }

    /** slookup and the test of its result: is the name in the table, and undefined? */
    method IsPromising(name: Name) returns (ok: bool, yes: bool)
      requires Valid()
      modifies tab
      ensures Valid() && tab.Entries() == old(tab.Entries()) && SameSearches(old(tab.segs), tab.segs)
      ensures ok <==> !Stuck(tab.segs, name)
      ensures ok ==> yes == Promising(tab.Entries(), name)
    {
      var hp := tab.Lookup(name);
      if hp.Botched? || hp.Overflow? {
        return false, false;
      }
      FindIsIndexOf(tab.segs, tab.cseg, tab.next, name);
      if hp.Free? {
        return true, false;
      }
      FoundInUse(tab.segs, tab.cseg, tab.next, name);
      var sp := tab.Slot(SlotIn(tab.segs, hp));
      return true, sp.kind == Undf;
    }

    /** ldrand's inner loop: go past the further lines of the same member. */
    method SkipMember(toc: seq<Toc>, at: nat) returns (tp: nat)
      requires at < |toc|
      ensures tp == SkipSame(toc, at)
    {
      tp := at;
      while tp < |toc| - 1 && toc[tp + 1].off == toc[at].off
        invariant at <= tp < |toc| && toc[tp].off == toc[at].off
        invariant SkipSame(toc, tp) == SkipSame(toc, at)
      {
        tp := tp + 1;
      }
      tp := tp + 1;
    }

    /** The body of ldrand's loop: line tp of the contents, and the lines after it for the same member. */
    method Consider(ar: Archive, tp: nat) returns (ok: bool, tp': nat)
      requires Valid() && Readable(ar) && tp < |ar.toc|
      modifies this, tab
      ensures tp < tp' <= |ar.toc| && Good(old(St()))
      ensures ok ==> Valid() && Good(St()) && Pass(St(), ar, tp') == Pass(old(St()), ar, tp)
      ensures !ok ==> tab.Valid() && StuckIn(tab.segs, ar)
    {
      ValidIsGood();
      tp' := tp + 1;
      ghost var st := St();
      var yes;
      ok, yes := IsPromising(ar.toc[tp].name);
      if ok && yes {
        StepGrows(st, ar, ar.toc[tp].off);
        ok := Step(ar, ar.toc[tp].off);
        tp' := SkipMember(ar.toc, tp);
      }
    }

    /** ldrand: one pass over the table of contents; netted tells whether it entered a symbol. */
    method LdRand(ar: Archive) returns (ok: bool, netted: bool)
      requires Valid() && Readable(ar)
      modifies this, tab
      ensures Good(old(St()))
      ensures ok ==> Valid() && St() == Pass(old(St()), ar, 0)
      ensures ok ==> netted == (|tab.Entries()| != old(|tab.Entries()|))
      ensures !ok ==> tab.Valid() && StuckIn(tab.segs, ar)
    {
      ValidIsGood();
      NextIndex(tab.segs, tab.cseg, tab.next);
      var nsymt := Symx(tab.next);
      var tp := 0;
      while tp < |ar.toc|
        invariant 0 <= tp <= |ar.toc| && Valid() && Good(St())
        invariant Pass(St(), ar, tp) == Pass(old(St()), ar, 0)
      {
        ok, tp := Consider(ar, tp);
        if !ok {
          return false, false;
        }
      }
      NextIndex(tab.segs, tab.cseg, tab.next);
      return true, Symx(tab.next) != nsymt;
    }

    /**
     The library arm of load1arg: passes until one enters no symbol, then -1 to end the list.
     Each pass but the last enters a symbol and the table is bounded, so the search ends.
     */
    method SearchLibrary(ar: Archive) returns (ok: bool, ghost n: nat)
      requires Valid() && Readable(ar)
      modifies this, tab
      ensures Good(old(St()))
      ensures ok ==> Valid() && EndsWith(old(St()), ar, n)
      ensures ok ==> St() == Searched(old(St()), ar, n)
      ensures ok ==> Recorded(AfterPasses(old(St()), ar, n), ar, old(|found|)) && Resolved(tab.Entries(), ar)
      ensures !ok ==> tab.Valid() && StuckIn(tab.segs, ar)
    {
      ValidIsGood();
      n := 0;
      ghost var st0 := St();
      var more := true;
      while more
        invariant Valid() && Searching(st0, St(), ar, n, more)
        decreases more, NSEG * NSYM - |tab.Entries()|
      {
        ok, more, n := SearchPass(ar, st0, n);
        if !ok {
          return;
        }
      }
      found := found + [-1];
      ok := true;
    }

    /** One more pass. */
    method SearchPass(ar: Archive, ghost st0: State, ghost n: nat) returns (ok: bool, more: bool, ghost n': nat)
      requires Valid() && Searching(st0, St(), ar, n, true)
      modifies this, tab
      ensures ok ==> n' == n + 1 && Valid() && Searching(st0, St(), ar, n', more)
      ensures ok && more ==> old(|tab.Entries()|) < |tab.Entries()| <= NSEG * NSYM
      ensures !ok ==> tab.Valid() && StuckIn(tab.segs, ar)
    {
      ghost var st := St();
      n' := n + 1;
      ok, more := LdRand(ar);
      if ok {
        PassGrows(st, ar, 0);
        NextPass(st0, st, ar, n);
        FlatBound(tab.segs, tab.cseg, tab.next);
      }
    }
  }

  /** A member rejected before any symbol was entered leaves the table unsound: it only has to name one symbol. */
  method RejectFirstMember(m: Module) returns (l: Linker, status: Status)
    requires |m.syms| == 1 && m.syms[0].ext
    ensures status == Rejected && !l.tab.Valid()
  {
    l := new Linker();
    ghost var r := Pass1Rel(l.St(), m);
    assert IndexOf([], Relocated(m.syms[0], r).name) == 0;
    assert EnterAll(Enter1([], Relocated(m.syms[0], r)).0, m.syms, r, 1).1 == 0;
    status := l.Load1(m, true);
    if status == Fatal {
      ghost var k :| 0 <= k < |m.syms| && m.syms[k].ext && Stuck(l.tab.segs, m.syms[k].name);
      StuckNeedsFullSegment(l.tab.segs, l.tab.cseg, l.tab.next, m.syms[k].name);
    }
  }

  lemma SizesCut(es: seq<Entry>, n: nat)
    requires Sizes(es)
    ensures n <= |es| ==> Sizes(es[..n])
  {
  }

  /** An earlier next pointer is still an end of a prefix of a table that has only grown. */
  lemma SavedInRange(segs0: seq<Seg>, cseg0: int, saved: Ptr, segs1: seq<Seg>)
    requires ValidTable(segs0, cseg0, saved) && saved.At? && Extends(segs0, segs1)
    ensures saved.seg <= cseg0 && saved.seg < |segs1| && 0 < saved.off <= |segs1[saved.seg].syms|
  {
    assert segs0[saved.seg].syms != [];
  }
}
