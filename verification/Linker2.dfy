/**
 Between the passes, in place: middle's loops over the symbol table.
 */
module Linker2 {
  import opened Probing
  import opened SymbolTable
  import opened LinkTable
  import opened Pass1
  import opened Layout
  import opened Linker1

  /** The search for a loader-defined symbol ends in one of lookup's error exits. */
  ghost predicate StuckLoaderSymbol(segs: seq<Seg>)
    requires AllLinked(segs)
  {
    Stuck(segs, ETEXT) || Stuck(segs, EDATA) || Stuck(segs, END)
  }

  lemma StuckAlike(a: seq<Seg>, b: seq<Seg>)
    requires AllLinked(a) && AllLinked(b) && SameSearches(a, b)
    ensures Stuck(a, ETEXT) <==> Stuck(b, ETEXT)
    ensures Stuck(a, EDATA) <==> Stuck(b, EDATA)
    ensures Stuck(a, END) <==> Stuck(b, END)
  {
    SearchIsSame(a, b, ETEXT);
    SearchIsSame(a, b, EDATA);
    SearchIsSame(a, b, END);
  }

  /** p is the slot of a name, or null when the name is not in the table. */
  ghost predicate Points(es: seq<Entry>, p: Ptr, name: Name) {
    p == if IndexOf(es, name) < |es| then Xsym(IndexOf(es, name)) else Null
  }

  class Planner {
    const tab: SymTab
    var rflag: bool
    var dflag: bool
    var nflag: bool
    var zflag: bool
    var database: int
    var torigin: int
    var dorigin: int
    var borigin: int

    constructor (t: SymTab, o: Options)
      ensures tab == t && rflag == o.rflag && dflag == o.dflag && nflag == o.nflag && zflag == o.zflag
    {
      tab := t;
      rflag, dflag, nflag, zflag := o.rflag, o.dflag, o.nflag, o.zflag;
      database, torigin, dorigin, borigin := 0, 0, 0, 0;
    }

    lemma InUseAt(i: nat)
      requires tab.Valid() && i < |tab.Entries()|
      ensures tab.InUse(Xsym(i)) && Symx(Xsym(i)) == i
    {
      SlotOf(tab.segs, tab.cseg, tab.next, i);
    }

    /** sp = xsym(i). */
    function At(i: nat): (e: Entry)
      reads this, tab
      requires tab.Valid() && i < |tab.Entries()|
      ensures e == tab.Entries()[i] && tab.InUse(Xsym(i)) && Symx(Xsym(i)) == i
    {
      InUseAt(i);
      tab.Slot(Xsym(i))
    }

    /** nsymt = symx(nextsym). */
    function Count(): (n: nat)
      reads this, tab
      requires tab.Valid()
      ensures n == |tab.Entries()|
    {
      NextIndex(tab.segs, tab.cseg, tab.next);
      Symx(tab.next)
    }

    /** The loop that looks for a plainly undefined name. */
    method AnyUnresolved() returns (found: bool)
      requires tab.Valid()
      ensures found == Unresolved(tab.Entries())
    {
      var i := 0;
      while i < Count()
        invariant 0 <= i <= |tab.Entries()|
        invariant forall k :: 0 <= k < i ==>
          !(tab.Entries()[k].kind == Undf && tab.Entries()[k].value == 0 && !Special(tab.Entries()[k].name))
      {
        var sp := At(i);
        if sp.kind == Undf && sp.value == 0 && !Special(sp.name) {
          return true;
        }
        i := i + 1;
      }
      return false;
    }

    /** *slookup(name). */
    method LoaderSymbol(name: Name) returns (ok: bool, p: Ptr)
      requires tab.Valid()
      modifies tab
      ensures tab.Valid() && tab.Entries() == old(tab.Entries())
      ensures SameSearches(old(tab.segs), tab.segs) && (ok <==> !Stuck(old(tab.segs), name))
      ensures if ok then Points(tab.Entries(), p, name) else Stuck(tab.segs, name)
    {
      var hp := tab.Lookup(name);
      if hp.Botched? || hp.Overflow? {
        return false, Null;
      }
      FindIsIndexOf(tab.segs, tab.cseg, tab.next, name);
      if hp.Free? {
        return true, Null;
      }
      FoundInUse(tab.segs, tab.cseg, tab.next, name);
      SymxInvertsXsym(tab.segs, SlotIn(tab.segs, hp));
      return true, SlotIn(tab.segs, hp);
    }

    /** The slots of "_etext", "_edata" and "_end". */
    method LoaderSymbols() returns (ok: bool, t: Ptr, d: Ptr, e: Ptr)
      requires tab.Valid()
      modifies tab
      ensures tab.Valid() && tab.Entries() == old(tab.Entries())
      ensures ok <==> !StuckLoaderSymbol(old(tab.segs))
      ensures !ok ==> StuckLoaderSymbol(tab.segs)
      ensures ok ==> Points(tab.Entries(), t, ETEXT) && Points(tab.Entries(), d, EDATA) && Points(tab.Entries(), e, END)
    {
      t, d, e := Null, Null, Null;
      ok, t := LoaderSymbol(ETEXT);
      if !ok { return; }
      ghost var s0, s1 := old(tab.segs), tab.segs;
      StuckAlike(s0, s1);
      ok, d := LoaderSymbol(EDATA);
      StuckAlike(s1, tab.segs);
      if !ok { return; }
      ok, e := LoaderSymbol(END);
    }

    /** ldrsym. */
    method LdrSym(p: Ptr, ghost name: Name, kind: Kind, value: int)
      requires tab.Valid() && Points(tab.Entries(), p, name)
      modifies tab
      ensures tab.Valid() && tab.Entries() == Layout.LdrSym(old(tab.Entries()), name, kind, value)
    {
      if p.At? {
        InUseAt(IndexOf(tab.Entries(), name));
        var sp := tab.Slot(p);
        if !(sp.kind != Undf || sp.value != 0) {
          tab.Assign(p, kind, value);
        }
      }
    }

    /** The three calls of ldrsym. */
    method LdrSyms(t: Ptr, d: Ptr, e: Ptr, tsize: nat, dsize: nat, bsize: nat)
      requires tab.Valid() && Points(tab.Entries(), t, ETEXT) && Points(tab.Entries(), d, EDATA)
      requires Points(tab.Entries(), e, END)
      modifies tab
      ensures tab.Valid() && tab.Entries() == Layout.LdrSyms(old(tab.Entries()), tsize, dsize, bsize)
    {
      ghost var es := tab.Entries();
      LdrSymIndex(es, ETEXT, Text, tsize, EDATA);
      LdrSymIndex(es, ETEXT, Text, tsize, END);
      LdrSym(t, ETEXT, Text, tsize);
      LdrSymIndex(tab.Entries(), EDATA, Data, dsize, END);
      LdrSym(d, EDATA, Data, dsize);
      LdrSym(e, END, Bss, bsize);
    }

    /** The body of the loop that assigns commons their places. */
    method PlaceOne(i: nat, csize: nat) returns (csize': nat)
      requires tab.Valid() && Sizes(tab.Entries()) && i < |tab.Entries()|
      modifies tab
      ensures tab.Valid() && |tab.Entries()| == old(|tab.Entries()|)
      ensures var es := old(tab.Entries());
        if IsCommon(es[i]) then
          var at := RoundUp(csize, Alignment(es[i].value));
          tab.Entries() == es[i := Entry(es[i].name, Comm, at)] && csize' == at + es[i].value
        else tab.Entries() == es && csize' == csize
    {
      csize' := csize;
      var sp := At(i);
      var t := sp.value;
      if sp.kind == Undf && t != 0 {
        var rnd := if t >= 8 then 8 else if t >= 4 then 4 else 2;
        csize' := RoundUp(csize', rnd);
        tab.Assign(Xsym(i), Comm, csize');
        csize' := csize' + t;
      }
    }

    /** The commons before entry i have their places, the next to be csize or above. */
    ghost predicate Placing(es: seq<Entry>, i: nat, csize: nat)
      reads this, tab
    {
      && tab.Valid() && Sizes(tab.Entries()) && i <= |tab.Entries()| == |es|
      && Sizes(es) && PlaceCommons(tab.Entries(), i, csize) == PlaceCommons(es, 0, 0)
    }

    method PlaceTurn(i: nat, csize: nat, ghost es: seq<Entry>) returns (csize': nat)
      requires Placing(es, i, csize) && i < |es|
      modifies tab
      ensures Placing(es, i + 1, csize')
    {
      csize' := PlaceOne(i, csize);
    }

    /** The loop that assigns commons their places. */
    method PlaceAll() returns (csize: nat)
      requires tab.Valid() && Sizes(tab.Entries())
      modifies tab
      ensures tab.Valid() && (tab.Entries(), csize) == PlaceCommons(old(tab.Entries()), 0, 0)
    {
      ghost var es := tab.Entries();
      csize := 0;
      var i := 0;
      while i < Count()
        invariant 0 <= i <= |es| && Placing(es, i, csize)
      {
        csize := PlaceTurn(i, csize, es);
        i := i + 1;
      }
    }

    /** The body of the loop that sets symbols to their final values. */
    method SetOne(i: nat, corigin: int)
      requires tab.Valid() && i < |tab.Entries()|
      modifies tab
      ensures tab.Valid()
      ensures tab.Entries() == old(tab.Entries())[i := FinalEntry(old(tab.Entries())[i],
        Origins(torigin, dorigin, borigin), corigin)]
    {
      var sp := At(i);
      if sp.kind == Undf || sp.kind == Abs {
        return;
      }
      var move := if sp.kind == Text then torigin
        else if sp.kind == Data then dorigin
        else if sp.kind == Bss then borigin else corigin;
      tab.Assign(Xsym(i), if sp.kind == Comm then Bss else sp.kind, sp.value + move);
    }

    /** The loop that sets symbols to their final values. */
    method SetFinal(corigin: int)
      requires tab.Valid()
      modifies tab
      ensures tab.Valid()
      ensures tab.Entries() == FinalEntries(old(tab.Entries()), Origins(torigin, dorigin, borigin), corigin)
    {
      ghost var es, o := tab.Entries(), Origins(torigin, dorigin, borigin);
      var i := 0;
      while i < Count()
        invariant tab.Valid() && 0 <= i <= |tab.Entries()|
        invariant FinalFrom(tab.Entries(), i, o, corigin) == FinalFrom(es, 0, o, corigin)
      {
        SetOne(i, corigin);
        i := i + 1;
      }
      FinalFromAll(es, 0, o, corigin);
    }

    /** Loader-defined symbols and commons get their offsets, unless the output stays relocatable. */
    method PlaceSymbols(t: Ptr, d: Ptr, e: Ptr, tsize: nat, dsize: nat, bsize: nat, ghost st: State, ghost o: Options)
      returns (csize: nat)
      requires tab.Valid() && Points(tab.Entries(), t, ETEXT) && Points(tab.Entries(), d, EDATA)
      requires Points(tab.Entries(), e, END)
      requires Good(st) && rflag == o.rflag && dflag == o.dflag
      requires st.es == tab.Entries() && st.tsize == tsize && st.dsize == dsize && st.bsize == bsize
      modifies tab
      ensures tab.Valid() && (tab.Entries(), csize) == Place(st, o)
    {
      csize := 0;
      if dflag || !rflag {
        LdrSymsSizes(st.es, tsize, dsize, bsize);
        LdrSyms(t, d, e, tsize, dsize, bsize);
        csize := PlaceAll();
      }
    }

    /** middle's decision whether the output stays relocatable. */
    method SettleFlags(ghost o: Options) returns (ghost o': Options)
      requires tab.Valid() && o == Options(rflag, dflag, nflag, zflag, o.textbase, o.pagesize)
      modifies this
      ensures o' == Settle(tab.Entries(), o) && o' == Options(rflag, dflag, nflag, zflag, o.textbase, o.pagesize)
    {
      if !rflag {
        var found := AnyUnresolved();
        if found {
          rflag, dflag := true, false;
        }
      }
      if rflag {
        zflag := false;
      }
      o' := Settle(tab.Entries(), o);
    }

    /** middle's last steps: fix the origins and move every symbol by its segment's. */
    method FixOrigins(tsize: nat, dsize: nat, used: nat, textbase: nat, pagesize: nat, ghost st: State,
          ghost o: Options, ghost es: seq<Entry>)
      requires tab.Valid() && tab.Entries() == es && pagesize > 0
      requires Good(st) && st.tsize == tsize && st.dsize == dsize && (es, used) == Place(st, o)
      requires o == Options(rflag, dflag, nflag, zflag, textbase, pagesize)
      modifies this`database, this`torigin, this`dorigin, this`borigin, tab
      ensures rflag == old(rflag) && dflag == old(dflag) && nflag == old(nflag) && zflag == old(zflag)
      ensures var p := MiddleFor(st, o);
        tab.Valid() && tab.Entries() == p.es && Origins(torigin, dorigin, borigin) == p.origins
    {
      database := RoundUp(tsize + textbase, if nflag || zflag then pagesize else 4);
      var csize := RoundUp(used, 4);
      torigin := textbase;
      dorigin := database;
      borigin := dorigin + dsize + csize;
      var corigin := dorigin + dsize;
      MiddleParts(st, o, es, used, database);
      ghost var p := MiddleFor(st, o);
      assert p.origins == Origins(torigin, dorigin, borigin) && p.es == FinalEntries(es, p.origins, corigin);
      SetFinal(corigin);
    }

    /** middle, for the sizes that pass 1 reached; it fails only when a loader-defined symbol cannot be looked up. */
    method Middle(tsize: nat, dsize: nat, bsize: nat, textbase: nat, pagesize: nat, ghost st: State) returns (ok: bool)
      requires tab.Valid() && Good(st) && pagesize > 0
      requires st.es == tab.Entries() && st.tsize == tsize && st.dsize == dsize && st.bsize == bsize
      modifies this, tab
      ensures ok <==> !StuckLoaderSymbol(old(tab.segs))
      ensures !ok ==> tab.Valid() && StuckLoaderSymbol(tab.segs)
      ensures ok ==>
        var p := Layout.Middle(st, Options(old(rflag), old(dflag), old(nflag), old(zflag), textbase, pagesize));
        && tab.Valid() && tab.Entries() == p.es && Origins(torigin, dorigin, borigin) == p.origins
        && p.opts == Options(rflag, dflag, nflag, zflag, textbase, pagesize)
    {
      ghost var opts := Options(rflag, dflag, nflag, zflag, textbase, pagesize);
      var t, d, e;
      ok, t, d, e := LoaderSymbols();
      if ok {
        ghost var o := SettleFlags(opts);
        ghost var p := Layout.Middle(st, opts);
        assert p == MiddleFor(st, o) && p.opts == o;
        var csize := PlaceSymbols(t, d, e, tsize, dsize, bsize, st, o);
        FixOrigins(tsize, dsize, csize, textbase, pagesize, st, o, tab.Entries());
      }
    }
  }

  /** ldrsym leaves every name where it is. */
  lemma LdrSymIndex(es: seq<Entry>, name: Name, kind: Kind, value: int, other: Name)
    ensures IndexOf(Layout.LdrSym(es, name, kind, value), other) == IndexOf(es, other)
  {
    var es1 := Layout.LdrSym(es, name, kind, value);
    forall i | 0 <= i < |es|
      ensures es1[i].name == es[i].name
    {
      LdrSymKeeps(es, name, kind, value, i);
    }
    SameNamesSameIndex(es, es1, other);
  }

  /** xsym gives a slot in use back from its index. */
  lemma SymxInvertsXsym(segs: seq<Seg>, p: Ptr)
    requires AllLinked(segs) && p.At? && p.seg < |segs| && p.off < |segs[p.seg].syms|
    ensures Xsym(Symx(p)) == p
  {
    assert Linked(segs[p.seg]);
    DivModUnique(Symx(p), NSYM, p.seg, p.off);
  }
}
