/**
 What the linker's first pass does to the list of external symbols: entering the
 symbols of a module, keeping or backing out a library member, searching a library
 through its table of contents.
 */
module Pass1 {
  import opened SymbolTable
  import opened Probing

  /** A symbol of a module's own symbol table, with the value the module gives it. */
  datatype ModSym = ModSym(name: Name, kind: Kind, ext: bool, value: nat)

  /** A module: segment sizes, the address at which its data starts, its symbols. */
  datatype Module = Module(text: nat, dataAt: nat, data: nat, bss: nat, syms: seq<ModSym>)

  /** How far each segment of a module moves. */
  datatype Rel = Rel(ct: int, cd: int, cb: int)

  /** symreloc: a symbol's value follows its segment; kinds other than these are absolute. */
  function Relocated(s: ModSym, r: Rel): Entry {
    match s.kind
    case Text => Entry(s.name, Text, s.value + r.ct)
    case Data => Entry(s.name, Data, s.value + r.cd)
    case Bss => Entry(s.name, Bss, s.value + r.cb)
    case Undf => Entry(s.name, Undf, s.value)
    case _ => Entry(s.name, Abs, s.value)
  }

  ghost predicate Unique(es: seq<Entry>) {
    forall i, j :: 0 <= i < j < |es| ==> es[i].name != es[j].name
  }

  /** The index of a name, or |es|. */
  function IndexOf(es: seq<Entry>, name: Name): (i: nat)
    ensures i <= |es|
    ensures i < |es| ==> es[i].name == name
    ensures forall k :: 0 <= k < i ==> es[k].name != name
  {
    if es == [] then 0
    else if es[0].name == name then 0
    else 1 + IndexOf(es[1..], name)
  }

  lemma IndexIs(es: seq<Entry>, i: nat)
    requires Unique(es) && i < |es|
    ensures IndexOf(es, es[i].name) == i
  {
  }

  /** A slot's entry after a symbol e of its name, and whether e counted as a definition. */
  function Merge(sp: Entry, e: Entry): (Entry, nat) {
    if sp.kind != Undf then
      (sp, 0)
    else if e.kind == Undf then
      (if e.value > sp.value then Entry(sp.name, Undf, e.value) else sp, 0)
    else if sp.value != 0 && e.kind == Text then
      (sp, 0)
    else
      (Entry(sp.name, e.kind, e.value), 1)
  }

  /** The external symbols after one more of a module's, and whether it counted as a definition. */
  function Enter1(es: seq<Entry>, e: Entry): (seq<Entry>, nat) {
    var i := IndexOf(es, e.name);
    if i == |es| then
      (es + [e], 0)
    else
      var (sp, d) := Merge(es[i], e);
      (es[i := sp], d)
  }

  /** ... and after all of them from the n-th on. */
  function EnterAll(es: seq<Entry>, syms: seq<ModSym>, r: Rel, n: nat): (seq<Entry>, nat)
    requires n <= |syms|
    decreases |syms| - n
  {
    if n == |syms| then
      (es, 0)
    else if !syms[n].ext then
      EnterAll(es, syms, r, n + 1)
    else
      var (es1, d1) := Enter1(es, Relocated(syms[n], r));
      var (es2, d2) := EnterAll(es1, syms, r, n + 1);
      (es2, d1 + d2)
  }

  // ----- growth -----

  /**
   es1 knows at least what es0 knew: every name keeps its index, a definition stays as it is,
   a size wanted for an undefined name only grows.
   */
  ghost predicate Le(es0: seq<Entry>, es1: seq<Entry>) {
    && |es0| <= |es1|
    && forall i {:trigger es0[i]} {:trigger es1[i]} :: 0 <= i < |es0| ==>
         && es1[i].name == es0[i].name
         && (es0[i].kind != Undf ==> es1[i] == es0[i])
         && (es1[i].kind == Undf ==> es1[i].value >= es0[i].value)
  }

  lemma LeTransitive(a: seq<Entry>, b: seq<Entry>, c: seq<Entry>)
    requires Le(a, b) && Le(b, c)
    ensures Le(a, c)
  {
    forall i | 0 <= i < |a|
      ensures c[i].name == a[i].name && (a[i].kind != Undf ==> c[i] == a[i])
      ensures c[i].kind == Undf ==> c[i].value >= a[i].value
    {
      assert b[i].name == a[i].name;
    }
  }

  lemma Enter1Grows(es: seq<Entry>, e: Entry)
    requires Unique(es)
    ensures Unique(Enter1(es, e).0) && Le(es, Enter1(es, e).0)
    ensures IndexOf(es, e.name) < |es| ==> |Enter1(es, e).0| == |es|
    ensures Enter1(es, e).1 == 0 ==> forall i :: 0 <= i < |es| ==> Enter1(es, e).0[i].kind == es[i].kind
  {
  }

  lemma {:induction false} EnterAllGrows(es: seq<Entry>, syms: seq<ModSym>, r: Rel, n: nat)
    requires Unique(es) && n <= |syms|
    ensures Unique(EnterAll(es, syms, r, n).0) && Le(es, EnterAll(es, syms, r, n).0)
    decreases |syms| - n
  {
    if n < |syms| {
      if syms[n].ext {
        var e := Relocated(syms[n], r);
        Enter1Grows(es, e);
        EnterAllGrows(Enter1(es, e).0, syms, r, n + 1);
        LeTransitive(es, Enter1(es, e).0, EnterAll(es, syms, r, n).0);
      } else {
        EnterAllGrows(es, syms, r, n + 1);
      }
    }
  }

  predicate NoExternals(syms: seq<ModSym>, n: nat)
    requires n <= |syms|
  {
    forall k :: n <= k < |syms| ==> !syms[k].ext
  }

  /** Only symbols without external ones leave an empty list empty. */
  lemma {:induction false} EnterAllEmpty(syms: seq<ModSym>, r: Rel, n: nat)
    requires n <= |syms|
    ensures EnterAll([], syms, r, n).0 == [] <==> NoExternals(syms, n)
    decreases |syms| - n
  {
    if n < |syms| {
      if syms[n].ext {
        var es1 := Enter1([], Relocated(syms[n], r)).0;
        Enter1Grows([], Relocated(syms[n], r));
        EnterAllGrows(es1, syms, r, n + 1);
      } else {
        EnterAllEmpty(syms, r, n + 1);
      }
    }
  }

  // ----- a member whose definitions are all known -----

  /** A symbol that the module defines for others. */
  predicate Defines(s: ModSym) {
    s.ext && s.kind != Undf
  }

  /** Entering this definition again would not count: it is taken, or a text symbol yields to a common. */
  ghost predicate Settled(es: seq<Entry>, s: ModSym) {
    var i := IndexOf(es, s.name);
    i < |es| && (es[i].kind != Undf || (es[i].value != 0 && s.kind == Text))
  }

  ghost predicate Saturated(es: seq<Entry>, syms: seq<ModSym>, n: nat)
    requires n <= |syms|
  {
    forall k :: n <= k < |syms| && Defines(syms[k]) ==> Settled(es, syms[k])
  }

  /** Values wanted for undefined names are sizes. */
  ghost predicate Sizes(es: seq<Entry>) {
    forall i :: 0 <= i < |es| && es[i].kind == Undf ==> es[i].value >= 0
  }

  lemma SettledStays(es0: seq<Entry>, es1: seq<Entry>, s: ModSym)
    requires Unique(es1) && Le(es0, es1) && Sizes(es0) && Settled(es0, s)
    ensures Settled(es1, s)
  {
    var i := IndexOf(es0, s.name);
    assert es1[i].name == s.name;
    IndexIs(es1, i);
  }

  lemma Enter1Sizes(es: seq<Entry>, e: Entry)
    requires Sizes(es) && (e.kind == Undf ==> e.value >= 0)
    ensures Sizes(Enter1(es, e).0)
  {
  }

  lemma {:induction false} EnterAllSizes(es: seq<Entry>, syms: seq<ModSym>, r: Rel, n: nat)
    requires Sizes(es) && n <= |syms|
    ensures Sizes(EnterAll(es, syms, r, n).0)
    decreases |syms| - n
  {
    if n < |syms| {
      if syms[n].ext {
        Enter1Sizes(es, Relocated(syms[n], r));
        EnterAllSizes(Enter1(es, Relocated(syms[n], r)).0, syms, r, n + 1);
      } else {
        EnterAllSizes(es, syms, r, n + 1);
      }
    }
  }

  lemma Enter1Settles(es: seq<Entry>, s: ModSym, r: Rel)
    requires Unique(es) && Defines(s)
    ensures Settled(Enter1(es, Relocated(s, r)).0, s)
  {
    var i := IndexOf(es, s.name);
    var es1 := Enter1(es, Relocated(s, r)).0;
    Enter1Grows(es, Relocated(s, r));
    assert es1[i].name == s.name;
    IndexIs(es1, i);
  }

  /** Once a module's symbols are entered, all its definitions are settled. */
  lemma {:induction false} EnterAllSaturates(es: seq<Entry>, syms: seq<ModSym>, r: Rel, n: nat)
    requires Unique(es) && Sizes(es) && n <= |syms|
    ensures Saturated(EnterAll(es, syms, r, n).0, syms, n)
    decreases |syms| - n
  {
    if n < |syms| {
      if syms[n].ext {
        var es1 := Enter1(es, Relocated(syms[n], r)).0;
        Enter1Grows(es, Relocated(syms[n], r));
        Enter1Sizes(es, Relocated(syms[n], r));
        EnterAllSaturates(es1, syms, r, n + 1);
        EnterAllGrows(es1, syms, r, n + 1);
        if syms[n].kind != Undf {
          Enter1Settles(es, syms[n], r);
          SettledStays(es1, EnterAll(es1, syms, r, n + 1).0, syms[n]);
        }
      } else {
        EnterAllSaturates(es, syms, r, n + 1);
      }
    }
  }

  lemma SaturatedStays(es0: seq<Entry>, es1: seq<Entry>, syms: seq<ModSym>, n: nat)
    requires n <= |syms| && Unique(es1) && Le(es0, es1) && Sizes(es0) && Saturated(es0, syms, n)
    ensures Saturated(es1, syms, n)
  {
    forall k | n <= k < |syms| && Defines(syms[k])
      ensures Settled(es1, syms[k])
    {
      SettledStays(es0, es1, syms[k]);
    }
  }

  /** A module whose definitions are all settled nets no definition. */
  lemma {:induction false} SaturatedNetsNothing(es: seq<Entry>, syms: seq<ModSym>, r: Rel, n: nat)
    requires Unique(es) && Sizes(es) && n <= |syms| && Saturated(es, syms, n)
    ensures EnterAll(es, syms, r, n).1 == 0
    decreases |syms| - n
  {
    if n < |syms| {
      if syms[n].ext {
        var es1 := Enter1(es, Relocated(syms[n], r)).0;
        Enter1Grows(es, Relocated(syms[n], r));
        Enter1Sizes(es, Relocated(syms[n], r));
        if syms[n].kind != Undf {
          assert Settled(es, syms[n]);
        }
        SaturatedStays(es, es1, syms, n + 1);
        SaturatedNetsNothing(es1, syms, r, n + 1);
      } else {
        SaturatedNetsNothing(es, syms, r, n + 1);
      }
    }
  }

  // ----- backing out a library member -----

  /** The largest size a module wants for an undefined name, from its n-th symbol on. */
  function Wanted(syms: seq<ModSym>, name: Name, n: nat): nat
    requires n <= |syms|
    decreases |syms| - n
  {
    if n == |syms| then 0
    else
      var rest := Wanted(syms, name, n + 1);
      if syms[n].ext && syms[n].kind == Undf && syms[n].name == name && syms[n].value > rest then syms[n].value
        else rest
  }

  lemma {:induction false} WantedIsMax(syms: seq<ModSym>, name: Name, n: nat, v: nat)
    requires n <= |syms|
    ensures Wanted(syms, name, n) <= v <==>
            forall k :: n <= k < |syms| && syms[k].ext && syms[k].kind == Undf && syms[k].name == name
              ==> syms[k].value <= v
    decreases |syms| - n
  {
    if n < |syms| {
      WantedIsMax(syms, name, n + 1, v);
    }
  }

  /** What a module that nets no definition does to an older symbol: at most raise the size wanted for it. */
  lemma {:induction false} NoDefinitionEffect(es: seq<Entry>, syms: seq<ModSym>, r: Rel, n: nat, i: nat)
    requires Unique(es) && Sizes(es) && n <= |syms| && i < |es|
    requires EnterAll(es, syms, r, n).1 == 0
    ensures i < |EnterAll(es, syms, r, n).0|
    ensures EnterAll(es, syms, r, n).0[i] ==
            if es[i].kind != Undf || Wanted(syms, es[i].name, n) <= es[i].value then es[i]
            else Entry(es[i].name, Undf, Wanted(syms, es[i].name, n))
    decreases |syms| - n
  {
    if n < |syms| {
      if syms[n].ext {
        var es1 := Enter1(es, Relocated(syms[n], r)).0;
        Enter1Grows(es, Relocated(syms[n], r));
        Enter1Sizes(es, Relocated(syms[n], r));
        NoDefinitionEffect(es1, syms, r, n + 1, i);
        assert EnterAll(es, syms, r, n).0 == EnterAll(es1, syms, r, n + 1).0;
        if es[i].name == syms[n].name {
          IndexIs(es, i);
        }
      } else {
        NoDefinitionEffect(es, syms, r, n + 1, i);
      }
    }
  }

  /** The list of symbols after a member that nets no definition is backed out. */
  function BackedOut(es: seq<Entry>, syms: seq<ModSym>, r: Rel): (es': seq<Entry>)
    requires Unique(es)
    ensures |es'| == |es|
  {
    EnterAllGrows(es, syms, r, 0);
    EnterAll(es, syms, r, 0).0[..|es|]
  }

  /**
   Backing a member out restores the symbols exactly when the member wants no more for any
   undefined symbol than was wanted before: a larger size survives the back-out.
   */
  lemma BackOutRestoresIff(es: seq<Entry>, syms: seq<ModSym>, r: Rel)
    requires Unique(es) && Sizes(es) && EnterAll(es, syms, r, 0).1 == 0
    ensures BackedOut(es, syms, r) == es <==>
            forall k :: 0 <= k < |syms| && syms[k].ext && syms[k].kind == Undf ==>
              var i := IndexOf(es, syms[k].name);
              i < |es| && es[i].kind == Undf ==> syms[k].value <= es[i].value
  {
    var b := BackedOut(es, syms, r);
    forall i | 0 <= i < |es|
      ensures b[i] == if es[i].kind != Undf || Wanted(syms, es[i].name, 0) <= es[i].value then es[i]
                      else Entry(es[i].name, Undf, Wanted(syms, es[i].name, 0))
    {
      NoDefinitionEffect(es, syms, r, 0, i);
    }
    if b == es {
      forall k | 0 <= k < |syms| && syms[k].ext && syms[k].kind == Undf
        ensures var i := IndexOf(es, syms[k].name); i < |es| && es[i].kind == Undf ==> syms[k].value <= es[i].value
      {
        var i := IndexOf(es, syms[k].name);
        if i < |es| && es[i].kind == Undf {
          WantedIsMax(syms, syms[k].name, 0, es[i].value);
        }
      }
    } else {
      var i :| 0 <= i < |es| && b[i] != es[i];
      WantedIsMax(syms, es[i].name, 0, es[i].value);
      var k :| 0 <= k < |syms| && syms[k].ext && syms[k].kind == Undf && syms[k].name == es[i].name
        && syms[k].value > es[i].value;
      IndexIs(es, i);
    }
  }

  /** A member of which nothing is used can turn a plain undefined symbol into a common. */
  lemma BackOutCanLeaveACommon(x: Name)
    ensures var es, syms := [Entry(x, Undf, 0)], [ModSym(x, Undf, true, 8)];
      Unique(es) && EnterAll(es, syms, Rel(0, 0, 0), 0).1 == 0
        && BackedOut(es, syms, Rel(0, 0, 0)) == [Entry(x, Undf, 8)]
  {
    var es, syms, r := [Entry(x, Undf, 0)], [ModSym(x, Undf, true, 8)], Rel(0, 0, 0);
    assert IndexOf(es, x) == 0;
    assert es[0 := Entry(x, Undf, 8)] == [Entry(x, Undf, 8)];
    assert EnterAll([Entry(x, Undf, 8)], syms, r, 1) == ([Entry(x, Undf, 8)], 0);
    assert Enter1(es, Relocated(syms[0], r)) == ([Entry(x, Undf, 8)], 0);
    assert EnterAll(es, syms, r, 0) == ([Entry(x, Undf, 8)], 0);
  }

  lemma BackedOutGrows(es: seq<Entry>, syms: seq<ModSym>, r: Rel)
    requires Unique(es) && Sizes(es)
    ensures var b := BackedOut(es, syms, r); Unique(b) && Le(es, b) && Sizes(b)
  {
    EnterAllGrows(es, syms, r, 0);
    EnterAllSizes(es, syms, r, 0);
  }

  // ----- load1 -----

  /** round(v, r): the least multiple of r that is at least v. */
  function RoundUp(v: nat, r: nat): (w: nat)
    requires r > 0
    ensures v <= w < v + r
  {
    if v == 0 then 0 else if v <= r then r else r + RoundUp(v - r, r)
  }

  lemma {:induction false} RoundUpMultiple(v: nat, r: nat)
    requires r > 0
    ensures RoundUp(v, r) % r == 0
  {
    if v == 0 || v <= r {
      DivModUnique(0, r, 0, 0);
      DivModUnique(r, r, 1, 0);
    } else {
      RoundUpMultiple(v - r, r);
      var w := RoundUp(v - r, r);
      assert w + r == (w / r + 1) * r + 0;
      DivModUnique(w + r, r, w / r + 1, 0);
    }
  }

  /** The first pass: the external symbols, the sizes so far, and the library members to load. */
  datatype State = State(es: seq<Entry>, tsize: nat, dsize: nat, bsize: nat, found: seq<int>)

  ghost predicate Good(st: State) {
    Unique(st.es) && Sizes(st.es)
  }

  /** Pass 1 values are offsets from the start of each segment of the output. */
  function Pass1Rel(st: State, m: Module): Rel {
    Rel(st.tsize, st.dsize - m.dataAt, st.bsize - m.dataAt - m.data)
  }

  /** Nothing but a module without any contents may do without a symbol table. */
  predicate Loadable(m: Module) {
    m.syms == [] ==> m.text + m.data == 0
  }

  /** Pass 1 over one module; a library member is kept only if it nets a definition. */
  function Load1(st: State, m: Module, lib: bool): (State, bool)
    requires Unique(st.es)
  {
    if m.syms == [] then
      (st, false)
    else
      var r := Pass1Rel(st, m);
      var (es, ndef) := EnterAll(st.es, m.syms, r, 0);
      if !lib || ndef > 0 then
        (State(es, st.tsize + m.text, st.dsize + RoundUp(m.data, 4), st.bsize + RoundUp(m.bss, 4), st.found), true)
      else
        (st.(es := BackedOut(st.es, m.syms, r)), false)
  }

  lemma Load1Grows(st: State, m: Module, lib: bool)
    requires Good(st)
    ensures var (st', kept) := Load1(st, m, lib);
      Good(st') && Le(st.es, st'.es) && (kept ==> Saturated(st'.es, m.syms, 0))
  {
    var r := Pass1Rel(st, m);
    EnterAllGrows(st.es, m.syms, r, 0);
    EnterAllSizes(st.es, m.syms, r, 0);
    EnterAllSaturates(st.es, m.syms, r, 0);
    BackedOutGrows(st.es, m.syms, r);
  }
}
