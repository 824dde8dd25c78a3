/**
 The layout of the output: origins of text, data, commons and bss, the final
 values of external symbols, and why the second pass recomputes the values the
 first pass predicted.
 */
module Layout {
  import opened Probing
  import opened SymbolTable
  import opened Pass1

  // ----- commons -----

  /** The alignment of a common by its size. */
  function Alignment(t: int): (a: nat)
    ensures a > 0
  {
    if t >= 8 then 8 else if t >= 4 then 4 else 2
  }

  predicate IsCommon(e: Entry) {
    e.kind == Undf && e.value != 0
  }

  /** middle's loop over the symbols from the i-th on: each common gets the next aligned place. */
  function PlaceCommons(es: seq<Entry>, i: nat, csize: nat): (seq<Entry>, nat)
    requires i <= |es| && Sizes(es)
    decreases |es| - i
  {
    if i == |es| then
      (es, csize)
    else if IsCommon(es[i]) then
      var at := RoundUp(csize, Alignment(es[i].value));
      PlaceCommons(es[i := Entry(es[i].name, Comm, at)], i + 1, at + es[i].value)
    else
      PlaceCommons(es, i + 1, csize)
  }

  lemma {:induction false} PlaceCommonsShape(es: seq<Entry>, i: nat, csize: nat)
    requires i <= |es| && Sizes(es)
    ensures var (es', end) := PlaceCommons(es, i, csize);
      && |es'| == |es| && csize <= end
      && (forall k :: 0 <= k < |es| && (k < i || !IsCommon(es[k])) ==> es'[k] == es[k])
      && (forall k :: i <= k < |es| && IsCommon(es[k]) ==>
            && es'[k].name == es[k].name && es'[k].kind == Comm
            && es'[k].value % Alignment(es[k].value) == 0
            && csize <= es'[k].value && es'[k].value + es[k].value <= end)
    decreases |es| - i
  {
    if i < |es| {
      if IsCommon(es[i]) {
        var at := RoundUp(csize, Alignment(es[i].value));
        RoundUpMultiple(csize, Alignment(es[i].value));
        PlaceCommonsShape(es[i := Entry(es[i].name, Comm, at)], i + 1, at + es[i].value);
      } else {
        PlaceCommonsShape(es, i + 1, csize);
      }
    }
  }

  /** Each common's extent ends before the next one's begins. */
  lemma {:induction false} CommonsDisjoint(es: seq<Entry>, i: nat, csize: nat, j: nat, k: nat)
    requires i <= j < k < |es| && Sizes(es) && IsCommon(es[j]) && IsCommon(es[k])
    ensures var es' := PlaceCommons(es, i, csize).0;
      |es'| == |es| && es'[j].value + es[j].value <= es'[k].value
    decreases |es| - i
  {
    PlaceCommonsShape(es, i, csize);
    if IsCommon(es[i]) {
      var at := RoundUp(csize, Alignment(es[i].value));
      var es1 := es[i := Entry(es[i].name, Comm, at)];
      PlaceCommonsShape(es1, i + 1, at + es[i].value);
      if i < j {
        CommonsDisjoint(es1, i + 1, at + es[i].value, j, k);
      }
    } else {
      CommonsDisjoint(es, i + 1, csize, j, k);
    }
  }

  // ----- origins -----

  /** The addresses at which the next module's text, data and bss go. */
  datatype Origins = Origins(t: int, d: int, b: int)

  function Pass2Rel(o: Origins, m: Module): Rel {
    Rel(o.t, o.d - m.dataAt, o.b - m.dataAt - m.data)
  }

  /** load2's advance past a module. */
  function Advance(o: Origins, m: Module): Origins {
    Origins(o.t + m.text, o.d + RoundUp(m.data, 4), o.b + RoundUp(m.bss, 4))
  }

  function OriginsAt(o: Origins, ms: seq<Module>, i: nat): Origins
    requires i <= |ms|
  {
    if i == 0 then o else Advance(OriginsAt(o, ms, i - 1), ms[i - 1])
  }

  /** The final value of a symbol defined in a segment: its pass 1 value plus the segment's origin. */
  function AddOrigin(e: Entry, o: Origins): Entry {
    match e.kind
    case Text => e.(value := e.value + o.t)
    case Data => e.(value := e.value + o.d)
    case Bss => e.(value := e.value + o.b)
    case _ => e
  }

  // ----- runs of the first pass -----

  /** A module the first pass comes across, perhaps as a library member. */
  datatype Event = Event(m: Module, lib: bool)

  /** The state after some events, and the modules that the second pass will visit: every file, and the members kept. */
  function Run(st: State, evs: seq<Event>): (State, seq<Module>)
    requires Good(st)
    decreases |evs|
  {
    if evs == [] then
      (st, [])
    else
      Load1Grows(st, evs[0].m, evs[0].lib);
      var (st1, kept) := Load1(st, evs[0].m, evs[0].lib);
      var (st2, ms) := Run(st1, evs[1..]);
      (st2, if kept || !evs[0].lib then [evs[0].m] + ms else ms)
  }

  lemma {:induction false} RunGrows(st: State, evs: seq<Event>)
    requires Good(st)
    ensures Good(Run(st, evs).0) && Le(st.es, Run(st, evs).0.es)
    decreases |evs|
  {
    if evs != [] {
      Load1Grows(st, evs[0].m, evs[0].lib);
      var st1 := Load1(st, evs[0].m, evs[0].lib).0;
      RunGrows(st1, evs[1..]);
      LeTransitive(st.es, st1.es, Run(st, evs).0.es);
    }
  }

  lemma {:induction false} RunConcat(st: State, a: seq<Event>, b: seq<Event>)
    requires Good(st)
    ensures Good(Run(st, a).0)
    ensures Run(st, a + b).0 == Run(Run(st, a).0, b).0
    ensures Run(st, a + b).1 == Run(st, a).1 + Run(Run(st, a).0, b).1
    decreases |a|
  {
    RunGrows(st, a);
    if a == [] {
      assert a + b == b;
    } else {
      assert (a + b)[0] == a[0] && (a + b)[1..] == a[1..] + b;
      Load1Grows(st, a[0].m, a[0].lib);
      RunConcat(Load1(st, a[0].m, a[0].lib).0, a[1..], b);
    }
  }

  /** Files have a symbol table or nothing to load. */
  predicate LoadableFiles(evs: seq<Event>) {
    forall i :: 0 <= i < |evs| && !evs[i].lib ==> Loadable(evs[i].m)
  }

  /** The bss of files without a symbol table: the first pass does not count it, the second goes past it. */
  function Uncounted(evs: seq<Event>): nat {
    if evs == [] then 0
    else (if !evs[0].lib && evs[0].m.syms == [] then RoundUp(evs[0].m.bss, 4) else 0) + Uncounted(evs[1..])
  }

  /**
   The sizes the first pass has reached are the distance the second pass has moved its origins, but
   for the bss that the first pass did not count.
   */
  lemma {:induction false} SizesAreOrigins(st: State, evs: seq<Event>, o: Origins)
    requires Good(st) && LoadableFiles(evs)
    ensures var (st', ms) := Run(st, evs);
      var o' := OriginsAt(o, ms, |ms|);
      && o'.t - o.t == st'.tsize - st.tsize && o'.d - o.d == st'.dsize - st.dsize
      && o'.b - o.b == st'.bsize - st.bsize + Uncounted(evs)
    decreases |evs|
  {
    if evs != [] {
      var m := evs[0].m;
      assert LoadableFiles(evs[1..]);
      Load1Grows(st, m, evs[0].lib);
      var (st1, kept) := Load1(st, m, evs[0].lib);
      var ms := Run(st1, evs[1..]).1;
      if kept || !evs[0].lib {
        SizesAreOrigins(st1, evs[1..], Advance(o, m));
        OriginsShift(o, m, ms, |ms|);
      } else {
        SizesAreOrigins(st1, evs[1..], o);
      }
    }
  }

  lemma {:induction false} OriginsShift(o: Origins, m: Module, ms: seq<Module>, i: nat)
    requires i <= |ms|
    ensures OriginsAt(o, [m] + ms, i + 1) == OriginsAt(Advance(o, m), ms, i)
  {
    if i > 0 {
      OriginsShift(o, m, ms, i - 1);
    }
  }

  lemma {:induction false} OriginsPrefix(o: Origins, ms: seq<Module>, ms': seq<Module>, i: nat)
    requires i <= |ms|
    ensures OriginsAt(o, ms + ms', i) == OriginsAt(o, ms, i)
  {
    if i > 0 {
      OriginsPrefix(o, ms, ms', i - 1);
    }
  }

  /** Adding an origin to a symbol relocated one way, and relocating it the other way. */
  lemma OriginAdded(s: ModSym, a: Rel, b: Rel, o: Origins)
    ensures var (p, q) := (AddOrigin(Relocated(s, a), o), Relocated(s, b));
      && p.name == q.name && p.kind == q.kind
      && (s.kind == Text ==> q.value - p.value == b.ct - a.ct - o.t)
      && (s.kind == Data ==> q.value - p.value == b.cd - a.cd - o.d)
      && (s.kind == Bss ==> q.value - p.value == b.cb - a.cb - o.b)
      && (s.kind !in {Text, Data, Bss} ==> q.value == p.value)
  {
  }

  /**
   A definition's pass 1 value plus its segment's first origin is its pass 2 value, but for bss behind
   files whose bss was not counted.
   */
  lemma PassesAgree(st: State, evs: seq<Event>, m: Module, o: Origins, s: ModSym, rest: seq<Module>)
    requires Good(st) && st.tsize == st.dsize == st.bsize == 0 && LoadableFiles(evs)
    ensures var (st1, ms) := Run(st, evs);
      var (pass1, pass2) := (AddOrigin(Relocated(s, Pass1Rel(st1, m)), o),
                             Relocated(s, Pass2Rel(OriginsAt(o, ms + [m] + rest, |ms|), m)));
      && pass1.name == pass2.name && pass1.kind == pass2.kind
      && pass2.value == pass1.value + if s.kind == Bss then Uncounted(evs) else 0
  {
    var (st1, ms) := Run(st, evs);
    SizesAreOrigins(st, evs, o);
    assert ms + [m] + rest == ms + ([m] + rest);
    OriginsPrefix(o, ms, [m] + rest, |ms|);
    OriginAdded(s, Pass1Rel(st1, m), Pass2Rel(OriginsAt(o, ms, |ms|), m), o);
  }

  // ----- who defines a name -----

  /** None of the symbols from n on defines the name. */
  ghost predicate NoDef(syms: seq<ModSym>, n: nat, name: Name)
    requires n <= |syms|
  {
    forall k :: n <= k < |syms| ==> !(Defines(syms[k]) && syms[k].name == name)
  }

  ghost predicate NoModuleDefines(ms: seq<Module>, name: Name) {
    forall j :: 0 <= j < |ms| ==> NoDef(ms[j].syms, 0, name)
  }

  /** The name is not in the list, or undefined in it. */
  ghost predicate NotDefined(es: seq<Entry>, name: Name) {
    var i := IndexOf(es, name);
    i < |es| ==> es[i].kind == Undf
  }

  /** The name is held as a common: undefined, with a size. */
  ghost predicate HeldAsCommon(es: seq<Entry>, name: Name) {
    var i := IndexOf(es, name);
    i < |es| && IsCommon(es[i])
  }

  lemma Enter1OtherNames(es: seq<Entry>, e: Entry, name: Name)
    requires Unique(es) && (e.name != name || e.kind == Undf)
    ensures NotDefined(es, name) ==> NotDefined(Enter1(es, e).0, name)
  {
    var es1 := Enter1(es, e).0;
    Enter1Grows(es, e);
    var i := IndexOf(es1, name);
    if i < |es| {
      IndexIs(es, i);
    }
  }

  /** Symbols that do not define a name leave it undefined, and a common stays a common. */
  lemma {:induction false} EnterAllNoDef(es: seq<Entry>, syms: seq<ModSym>, r: Rel, n: nat, name: Name)
    requires Unique(es) && Sizes(es) && n <= |syms| && NoDef(syms, n, name) && NotDefined(es, name)
    ensures NotDefined(EnterAll(es, syms, r, n).0, name)
    decreases |syms| - n
  {
    if n < |syms| {
      if syms[n].ext {
        var e := Relocated(syms[n], r);
        Enter1Grows(es, e);
        Enter1Sizes(es, e);
        Enter1OtherNames(es, e, name);
        EnterAllNoDef(Enter1(es, e).0, syms, r, n + 1, name);
      } else {
        EnterAllNoDef(es, syms, r, n + 1, name);
      }
    }
  }

  lemma HeldStays(es0: seq<Entry>, es1: seq<Entry>, name: Name)
    requires Unique(es1) && Sizes(es0) && Le(es0, es1) && HeldAsCommon(es0, name) && NotDefined(es1, name)
    ensures HeldAsCommon(es1, name)
  {
    var i := IndexOf(es0, name);
    assert es1[i].name == name;
    IndexIs(es1, i);
  }

  /** A member that is backed out defines nothing for good. */
  lemma BackedOutNotDefined(es: seq<Entry>, syms: seq<ModSym>, r: Rel, name: Name)
    requires Unique(es) && Sizes(es) && EnterAll(es, syms, r, 0).1 == 0 && NotDefined(es, name)
    ensures NotDefined(BackedOut(es, syms, r), name)
  {
    BackedOutGrows(es, syms, r);
    var b := BackedOut(es, syms, r);
    var i := IndexOf(b, name);
    if i < |b| {
      assert es[i].name == name;
      IndexIs(es, i);
      NoDefinitionEffect(es, syms, r, 0, i);
    }
  }

  lemma NoModuleDefinesTail(m: Module, ms: seq<Module>, name: Name)
    requires NoModuleDefines([m] + ms, name)
    ensures NoDef(m.syms, 0, name) && NoModuleDefines(ms, name)
  {
    assert NoDef(([m] + ms)[0].syms, 0, name);
    forall j | 0 <= j < |ms|
      ensures NoDef(ms[j].syms, 0, name)
    {
      assert NoDef(([m] + ms)[j + 1].syms, 0, name);
    }
  }

  lemma {:induction false} RunNoDef(st: State, evs: seq<Event>, name: Name)
    requires Good(st) && NoModuleDefines(Run(st, evs).1, name) && NotDefined(st.es, name)
    ensures NotDefined(Run(st, evs).0.es, name)
    decreases |evs|
  {
    if evs != [] {
      var m := evs[0].m;
      var r := Pass1Rel(st, m);
      Load1Grows(st, m, evs[0].lib);
      var (st1, kept) := Load1(st, m, evs[0].lib);
      var ms := Run(st1, evs[1..]).1;
      if kept || !evs[0].lib {
        NoModuleDefinesTail(m, ms, name);
      }
      if kept {
        EnterAllNoDef(st.es, m.syms, r, 0, name);
      } else if m.syms != [] {
        BackedOutNotDefined(st.es, m.syms, r, name);
      }
      RunNoDef(st1, evs[1..], name);
    }
  }

  /** The list of symbols as a module's k-th symbol is about to be entered. */
  function Before(es: seq<Entry>, syms: seq<ModSym>, r: Rel, k: nat): seq<Entry>
    requires k <= |syms|
  {
    EnterAll(es, syms[..k], r, 0).0
  }

  lemma {:induction false} EnterAllSplit(es: seq<Entry>, syms: seq<ModSym>, r: Rel, n: nat, k: nat)
    requires n <= k <= |syms|
    ensures EnterAll(es, syms, r, n).0 == EnterAll(EnterAll(es, syms[..k], r, n).0, syms, r, k).0
    decreases k - n
  {
    if n < k {
      if syms[n].ext {
        EnterAllSplit(Enter1(es, Relocated(syms[n], r)).0, syms, r, n + 1, k);
      } else {
        EnterAllSplit(es, syms, r, n + 1, k);
      }
    }
  }

  /**
   What becomes of a module's definition of a name that nothing else in the module defines:
   it is taken, unless it is a text symbol and the name was held as a common by then.
   */
  lemma OnlyDefinitionInModule(es: seq<Entry>, m: Module, r: Rel, k: nat)
    requires Unique(es) && Sizes(es) && k < |m.syms| && Defines(m.syms[k]) && NotDefined(es, m.syms[k].name)
    requires NoDef(m.syms[..k], 0, m.syms[k].name) && NoDef(m.syms, k + 1, m.syms[k].name)
    ensures var (s, es') := (m.syms[k], EnterAll(es, m.syms, r, 0).0);
      var gives := s.kind == Text && HeldAsCommon(Before(es, m.syms, r, k), s.name);
      && (gives ==> HeldAsCommon(es', s.name))
      && (!gives ==> IndexOf(es', s.name) < |es'| && es'[IndexOf(es', s.name)] == Relocated(s, r))
  {
    var s, b := m.syms[k], Before(es, m.syms, r, k);
    EnterAllGrows(es, m.syms[..k], r, 0);
    EnterAllSizes(es, m.syms[..k], r, 0);
    EnterAllNoDef(es, m.syms[..k], r, 0, s.name);
    EnterAllSplit(es, m.syms, r, 0, k);
    var e := Relocated(s, r);
    var es1 := Enter1(b, e).0;
    Enter1Grows(b, e);
    Enter1Sizes(b, e);
    var i := IndexOf(b, s.name);
    assert es1[i].name == s.name;
    IndexIs(es1, i);
    EnterAllGrows(es1, m.syms, r, k + 1);
    var es' := EnterAll(es1, m.syms, r, k + 1).0;
    assert es' == EnterAll(es, m.syms, r, 0).0;
    assert es'[i].name == s.name;
    IndexIs(es', i);
    if s.kind == Text && HeldAsCommon(b, s.name) {
      EnterAllNoDef(es1, m.syms, r, k + 1, s.name);
      HeldStays(es1, es', s.name);
    }
  }

  /**
   A name that one loaded module defines once, and no other loaded module defines: at the end of
   the first pass the table holds that definition, unless it is a text symbol whose name was held
   as a common just before it was entered; then the table still holds the common.
   */
  lemma OnlyDefinition(st: State, pre: seq<Event>, ev: Event, post: seq<Event>, k: nat)
    requires Good(st) && k < |ev.m.syms| && Defines(ev.m.syms[k]) && NotDefined(st.es, ev.m.syms[k].name)
    requires Good(Run(st, pre).0) && Load1(Run(st, pre).0, ev.m, ev.lib).1
    requires Good(Load1(Run(st, pre).0, ev.m, ev.lib).0)
    requires NoModuleDefines(Run(st, pre).1, ev.m.syms[k].name)
    requires NoModuleDefines(Run(Load1(Run(st, pre).0, ev.m, ev.lib).0, post).1, ev.m.syms[k].name)
    requires NoDef(ev.m.syms[..k], 0, ev.m.syms[k].name) && NoDef(ev.m.syms, k + 1, ev.m.syms[k].name)
    ensures var s, st1 := ev.m.syms[k], Run(st, pre).0;
      var r := Pass1Rel(st1, ev.m);
      var es' := Run(Load1(st1, ev.m, ev.lib).0, post).0.es;
      if s.kind == Text && HeldAsCommon(Before(st1.es, ev.m.syms, r, k), s.name) then HeldAsCommon(es', s.name)
      else IndexOf(es', s.name) < |es'| && es'[IndexOf(es', s.name)] == Relocated(s, r)
  {
    var s, st1 := ev.m.syms[k], Run(st, pre).0;
    var r := Pass1Rel(st1, ev.m);
    RunNoDef(st, pre, s.name);
    OnlyDefinitionInModule(st1.es, ev.m, r, k);
    var st2 := Load1(st1, ev.m, ev.lib).0;
    var st3 := Run(st2, post).0;
    RunGrows(st2, post);
    var i := IndexOf(st2.es, s.name);
    assert st3.es[i].name == s.name;
    IndexIs(st3.es, i);
    if s.kind == Text && HeldAsCommon(Before(st1.es, ev.m.syms, r, k), s.name) {
      RunNoDef(st2, post, s.name);
      HeldStays(st2.es, st3.es, s.name);
    }
  }

  // ----- middle -----

  /** "_etext", "_edata" and "_end". */
  const ETEXT: Name := [95, 101, 116, 101, 120, 116]
  const EDATA: Name := [95, 101, 100, 97, 116, 97]
  const END: Name := [95, 101, 110, 100]

  predicate Special(name: Name) {
    name == ETEXT || name == EDATA || name == END
  }

  /** The options that matter for the layout. */
  datatype Options = Options(rflag: bool, dflag: bool, nflag: bool, zflag: bool, textbase: nat, pagesize: nat)

  /** Some name is plainly undefined: the output must keep its relocation bits. */
  predicate Unresolved(es: seq<Entry>) {
    exists i :: 0 <= i < |es| && es[i].kind == Undf && es[i].value == 0 && !Special(es[i].name)
  }

  /** The options as middle leaves them. */
  function Settle(es: seq<Entry>, o: Options): Options {
    var o1 := if !o.rflag && Unresolved(es) then o.(rflag := true, dflag := false) else o;
    if o1.rflag then o1.(zflag := false) else o1
  }

  /** ldrsym: give a loader-defined symbol its value if it is plainly undefined. */
  function LdrSym(es: seq<Entry>, name: Name, kind: Kind, value: int): (es': seq<Entry>)
    ensures |es'| == |es|
  {
    var i := IndexOf(es, name);
    if i < |es| && es[i].kind == Undf && es[i].value == 0 then es[i := Entry(es[i].name, kind, value)] else es
  }

  function LdrSyms(es: seq<Entry>, t: int, d: int, b: int): (es': seq<Entry>)
    ensures |es'| == |es|
  {
    LdrSym(LdrSym(LdrSym(es, ETEXT, Text, t), EDATA, Data, d), END, Bss, b)
  }

  /** The value middle gives a symbol once the origins are known. */
  function FinalEntry(e: Entry, o: Origins, corigin: int): Entry {
    if e.kind == Comm then Entry(e.name, Bss, e.value + corigin) else AddOrigin(e, o)
  }

  /** Where everything goes. */
  datatype Plan = Plan(opts: Options, origins: Origins, corigin: int, csize: nat, es: seq<Entry>)

  /** Loader-defined symbols and commons get their offsets, unless the output stays relocatable. */
  function Place(st: State, o: Options): (r: (seq<Entry>, nat))
    requires Good(st)
    ensures |r.0| == |st.es|
  {
    if o.dflag || !o.rflag then
      var es := LdrSyms(st.es, st.tsize, st.dsize, st.bsize);
      LdrSymsSizes(st.es, st.tsize, st.dsize, st.bsize);
      PlaceCommonsShape(es, 0, 0);
      PlaceCommons(es, 0, 0)
    else
      (st.es, 0)
  }

  function FinalEntries(es: seq<Entry>, o: Origins, corigin: int): (es': seq<Entry>)
    ensures |es'| == |es|
    ensures forall i :: 0 <= i < |es| ==> es'[i] == FinalEntry(es[i], o, corigin)
  {
    seq(|es|, i requires 0 <= i < |es| => FinalEntry(es[i], o, corigin))
  }

  /** The loop that moves the symbols, from the i-th on. */
  function FinalFrom(es: seq<Entry>, i: nat, o: Origins, corigin: int): seq<Entry>
    requires i <= |es|
    decreases |es| - i
  {
    if i == |es| then es else FinalFrom(es[i := FinalEntry(es[i], o, corigin)], i + 1, o, corigin)
  }

  lemma {:induction false} FinalFromAll(es: seq<Entry>, i: nat, o: Origins, corigin: int)
    requires i <= |es|
    ensures FinalFrom(es, i, o, corigin) == es[..i] + FinalEntries(es[i..], o, corigin)
    decreases |es| - i
  {
    if i < |es| {
      var es1 := es[i := FinalEntry(es[i], o, corigin)];
      FinalFromAll(es1, i + 1, o, corigin);
      assert es1[i + 1..] == es[i..][1..];
    }
  }

  function Middle(st: State, opts: Options): Plan
    requires Good(st) && opts.pagesize > 0
  {
    MiddleFor(st, Settle(st.es, opts))
  }

  /** ... once the options are settled. */
  function MiddleFor(st: State, o: Options): Plan
    requires Good(st) && o.pagesize > 0
  {
    var (es, used) := Place(st, o);
    var csize := RoundUp(used, 4);
    var database := RoundUp(st.tsize + o.textbase, if o.nflag || o.zflag then o.pagesize else 4);
    var corigin := database + st.dsize;
    var origins := Origins(o.textbase, database, corigin + csize);
    Plan(o, origins, corigin, csize, FinalEntries(es, origins, corigin))
  }

  /** The plan from what placing the symbols gives. */
  lemma MiddleParts(st: State, o: Options, es: seq<Entry>, used: nat, database: nat)
    requires Good(st) && o.pagesize > 0 && (es, used) == Place(st, o)
    requires database == RoundUp(st.tsize + o.textbase, if o.nflag || o.zflag then o.pagesize else 4)
    ensures var p := MiddleFor(st, o);
      && p.origins == Origins(o.textbase, database, database + st.dsize + RoundUp(used, 4))
      && p.es == FinalEntries(es, p.origins, database + st.dsize)
  {
  }

  lemma LdrSymsSizes(es: seq<Entry>, t: int, d: int, b: int)
    requires Sizes(es)
    ensures Sizes(LdrSyms(es, t, d, b))
  {
  }

  lemma LdrSymKeeps(es: seq<Entry>, name: Name, kind: Kind, value: int, i: nat)
    requires i < |es|
    ensures var es' := LdrSym(es, name, kind, value);
      es'[i].name == es[i].name && (es[i].kind != Undf || es[i].value != 0 ==> es'[i] == es[i])
  {
  }

  /** The loader defines only what is plainly undefined. */
  lemma LdrSymsKeeps(es: seq<Entry>, t: int, d: int, b: int, i: nat)
    requires i < |es|
    ensures var es' := LdrSyms(es, t, d, b);
      es'[i].name == es[i].name && (es[i].kind != Undf || es[i].value != 0 ==> es'[i] == es[i])
  {
    LdrSymKeeps(es, ETEXT, Text, t, i);
    var es1 := LdrSym(es, ETEXT, Text, t);
    LdrSymKeeps(es1, EDATA, Data, d, i);
    LdrSymKeeps(LdrSym(es1, EDATA, Data, d), END, Bss, b, i);
  }

  /** Placing one symbol. */
  lemma PlaceEntry(st: State, o: Options, i: nat)
    requires Good(st) && i < |st.es|
    ensures var es := Place(st, o).0;
      && es[i].name == st.es[i].name
      && (st.es[i].kind != Undf ==> es[i] == st.es[i])
      && (IsCommon(st.es[i]) ==> es[i] == st.es[i] || es[i].kind == Comm)
  {
    if o.dflag || !o.rflag {
      LdrSymsSizes(st.es, st.tsize, st.dsize, st.bsize);
      LdrSymsKeeps(st.es, st.tsize, st.dsize, st.bsize, i);
      PlaceCommonsShape(LdrSyms(st.es, st.tsize, st.dsize, st.bsize), 0, 0);
    }
  }

  /** What middle does to one symbol: a definition moves with its segment, a common never becomes text. */
  lemma MiddleEntry(st: State, opts: Options, i: nat)
    requires Good(st) && opts.pagesize > 0 && i < |st.es|
    ensures var p := Middle(st, opts);
      && |p.es| == |st.es| && p.es[i].name == st.es[i].name
      && (st.es[i].kind != Undf && st.es[i].kind != Comm ==> p.es[i] == AddOrigin(st.es[i], p.origins))
      && (IsCommon(st.es[i]) ==> p.es[i].kind == Undf || p.es[i].kind == Bss)
  {
    PlaceEntry(st, Settle(st.es, opts), i);
  }

  /**
   The segments follow each other: text from the text base, data at the next page or long word, commons,
   bss at a long word behind them.
   */
  lemma SegmentsInOrder(st: State, opts: Options)
    requires Good(st) && opts.pagesize > 0
    ensures var p := Middle(st, opts);
      var unit := if p.opts.nflag || p.opts.zflag then opts.pagesize else 4;
      && p.origins.t == opts.textbase
      && p.origins.t + st.tsize <= p.origins.d < p.origins.t + st.tsize + unit && p.origins.d % unit == 0
      && p.origins.d + st.dsize == p.corigin && p.corigin + p.csize == p.origins.b && p.csize % 4 == 0
  {
    var o := Settle(st.es, opts);
    RoundUpMultiple(st.tsize + o.textbase, if o.nflag || o.zflag then o.pagesize else 4);
    RoundUpMultiple(Place(st, o).1, 4);
  }

  /** What a plainly undefined name settles: the relocation bits are kept, and then commons are left to a later link. */
  lemma OptionsSettled(st: State, opts: Options)
    requires Good(st) && opts.pagesize > 0
    ensures var o := Middle(st, opts).opts;
      && (o.rflag <==> opts.rflag || Unresolved(st.es))
      && (o.dflag <==> opts.dflag && (opts.rflag || !Unresolved(st.es)))
      && (o.zflag <==> opts.zflag && !o.rflag) && o.nflag == opts.nflag
  {
  }

  /** An entry that ldrsym is not called for stays, and so does one that is not plainly undefined. */
  lemma LdrSymAt(es: seq<Entry>, name: Name, kind: Kind, value: int, i: nat)
    requires Unique(es) && i < |es|
    ensures var es' := LdrSym(es, name, kind, value);
      && Unique(es')
      && es'[i] == if es[i] == Entry(name, Undf, 0) then Entry(name, kind, value) else es[i]
  {
    IndexIs(es, i);
  }

  /** The value of a loader-defined symbol that is asked for, before the origins are added. */
  lemma LdrSymsAt(es: seq<Entry>, t: int, d: int, b: int, i: nat)
    requires Unique(es) && i < |es| && es[i].kind == Undf && es[i].value == 0
    ensures var e := LdrSyms(es, t, d, b)[i];
      && (es[i].name == ETEXT ==> e == Entry(ETEXT, Text, t))
      && (es[i].name == EDATA ==> e == Entry(EDATA, Data, d))
      && (es[i].name == END ==> e == Entry(END, Bss, b))
      && (!Special(es[i].name) ==> e == es[i])
  {
    var es1 := LdrSym(es, ETEXT, Text, t);
    LdrSymAt(es, ETEXT, Text, t, i);
    LdrSymAt(es1, EDATA, Data, d, i);
    LdrSymAt(LdrSym(es1, EDATA, Data, d), END, Bss, b, i);
  }

  /**
   _etext, _edata and _end, when they are asked for and nobody defines them, are the ends of the text,
   the data and the bss in the output; other names plainly undefined stay so.
   */
  lemma LoaderSymbolsAre(st: State, opts: Options, i: nat)
    requires Good(st) && opts.pagesize > 0 && i < |st.es| && st.es[i].kind == Undf && st.es[i].value == 0
    ensures var p := Middle(st, opts);
      var (name, placed) := (st.es[i].name, p.opts.dflag || !p.opts.rflag);
      && |p.es| == |st.es|
      && (placed && name == ETEXT ==> p.es[i] == Entry(ETEXT, Text, p.origins.t + st.tsize))
      && (placed && name == EDATA ==> p.es[i] == Entry(EDATA, Data, p.origins.d + st.dsize))
      && (placed && name == END ==> p.es[i] == Entry(END, Bss, p.origins.b + st.bsize))
      && (!placed || !Special(name) ==> p.es[i] == st.es[i])
  {
    var o := Settle(st.es, opts);
    PlacedPlain(st, o, i);
    assert Middle(st, opts).es[i] == FinalEntry(Place(st, o).0[i], Middle(st, opts).origins, Middle(st, opts).corigin);
  }

  lemma PlacedPlain(st: State, o: Options, i: nat)
    requires Good(st) && i < |st.es| && st.es[i].kind == Undf && st.es[i].value == 0
    ensures Place(st, o).0[i] ==
            if o.dflag || !o.rflag then LdrSyms(st.es, st.tsize, st.dsize, st.bsize)[i] else st.es[i]
    ensures var e := LdrSyms(st.es, st.tsize, st.dsize, st.bsize)[i];
      && (st.es[i].name == ETEXT ==> e == Entry(ETEXT, Text, st.tsize))
      && (st.es[i].name == EDATA ==> e == Entry(EDATA, Data, st.dsize))
      && (st.es[i].name == END ==> e == Entry(END, Bss, st.bsize))
      && (!Special(st.es[i].name) ==> e == st.es[i])
  {
    LdrSymsAt(st.es, st.tsize, st.dsize, st.bsize, i);
    if o.dflag || !o.rflag {
      LdrSymsSizes(st.es, st.tsize, st.dsize, st.bsize);
      PlaceCommonsShape(LdrSyms(st.es, st.tsize, st.dsize, st.bsize), 0, 0);
    }
  }

  lemma PlacedCommons(st: State, o: Options, j: nat)
    requires Good(st) && j < |st.es| && IsCommon(st.es[j]) && (o.dflag || !o.rflag)
    ensures var (es, used) := Place(st, o);
      && es[j].kind == Comm && 0 <= es[j].value && es[j].value + st.es[j].value <= used
      && es[j].value % Alignment(st.es[j].value) == 0
      && forall k :: j < k < |st.es| && IsCommon(st.es[k]) ==> es[j].value + st.es[j].value <= es[k].value
  {
    var es1 := LdrSyms(st.es, st.tsize, st.dsize, st.bsize);
    LdrSymsSizes(st.es, st.tsize, st.dsize, st.bsize);
    LdrSymsKeeps(st.es, st.tsize, st.dsize, st.bsize, j);
    PlaceCommonsShape(es1, 0, 0);
    forall k | j < k < |st.es| && IsCommon(st.es[k])
      ensures var es := Place(st, o).0; es[j].value + st.es[j].value <= es[k].value
    {
      LdrSymsKeeps(st.es, st.tsize, st.dsize, st.bsize, k);
      CommonsDisjoint(es1, 0, 0, j, k);
    }
  }

  /** Commons lie inside the common area, aligned relative to its start, pairwise disjoint. */
  lemma CommonsLaidOut(st: State, opts: Options, j: nat)
    requires Good(st) && opts.pagesize > 0 && j < |st.es| && IsCommon(st.es[j])
    requires Settle(st.es, opts).dflag || !Settle(st.es, opts).rflag
    ensures var p := Middle(st, opts);
      && |p.es| == |st.es| && p.es[j].kind == Bss
      && p.corigin <= p.es[j].value && p.es[j].value + st.es[j].value <= p.origins.b
      && (p.es[j].value - p.corigin) % Alignment(st.es[j].value) == 0
      && forall k :: j < k < |st.es| && IsCommon(st.es[k]) ==> p.es[j].value + st.es[j].value <= p.es[k].value
  {
    var o := Settle(st.es, opts);
    PlacedCommons(st, o, j);
    forall k | j < k < |st.es| && IsCommon(st.es[k])
      ensures Place(st, o).0[k].kind == Comm
    {
      PlacedCommons(st, o, k);
    }
  }

  /** Commons are left undefined, with their sizes, when they are left to a later link. */
  lemma CommonsLeft(st: State, opts: Options, j: nat)
    requires Good(st) && opts.pagesize > 0 && j < |st.es| && IsCommon(st.es[j])
    requires Middle(st, opts).opts.rflag && !Middle(st, opts).opts.dflag
    ensures |Middle(st, opts).es| == |st.es| && Middle(st, opts).es[j] == st.es[j] && Middle(st, opts).csize == 0
  {
  }

  /** A common of eight bytes or more begins at a multiple of eight in the area, one of four at a multiple of four. */
  lemma CommonsAligned(st: State, opts: Options, j: nat)
    requires Good(st) && opts.pagesize > 0 && j < |st.es| && IsCommon(st.es[j])
    requires Middle(st, opts).opts.dflag || !Middle(st, opts).opts.rflag
    ensures var p := Middle(st, opts);
      && |p.es| == |st.es|
      && (st.es[j].value >= 8 ==> (p.es[j].value - p.corigin) % 8 == 0)
      && (st.es[j].value >= 4 ==> (p.es[j].value - p.corigin) % 4 == 0)
      && (p.es[j].value - p.corigin) % 2 == 0
  {
    CommonsLaidOut(st, opts, j);
    AlignedAlso(Middle(st, opts).es[j].value - Middle(st, opts).corigin, st.es[j].value);
  }

  lemma AlignedAlso(at: int, size: int)
    requires at % Alignment(size) == 0
    ensures (size >= 8 ==> at % 8 == 0) && (size >= 4 ==> at % 4 == 0) && at % 2 == 0
  {
    if size >= 8 {
      DivModUnique(at, 4, 2 * (at / 8), 0);
      DivModUnique(at, 2, 4 * (at / 8), 0);
    } else if size >= 4 {
      DivModUnique(at, 2, 2 * (at / 4), 0);
    }
  }

  // ----- the second pass -----

  /** load2's test: a definition that differs from the table's is reported. */
  predicate Reported(es: seq<Entry>, s: ModSym, r: Rel) {
    var i := IndexOf(es, s.name);
    i < |es| && (es[i].kind != Relocated(s, r).kind || es[i].value != Relocated(s, r).value)
  }

  /** Symbols of the first pass are never internal commons. */
  lemma RelocatedKind(s: ModSym, r: Rel)
    ensures Relocated(s, r).kind != Comm && (s.kind != Undf ==> Relocated(s, r).kind != Undf)
  {
  }

  /** Of the modules loaded in a run only one defines a name, as its symbol k and only there. */
  ghost predicate SoleDefinition(st: State, pre: seq<Event>, ev: Event, post: seq<Event>, k: nat)
    requires Good(st)
  {
    && k < |ev.m.syms| && Defines(ev.m.syms[k]) && NotDefined(st.es, ev.m.syms[k].name)
    && Good(Run(st, pre).0) && Load1(Run(st, pre).0, ev.m, ev.lib).1
    && Good(Load1(Run(st, pre).0, ev.m, ev.lib).0)
    && NoModuleDefines(Run(st, pre).1, ev.m.syms[k].name)
    && NoModuleDefines(Run(Load1(Run(st, pre).0, ev.m, ev.lib).0, post).1, ev.m.syms[k].name)
    && NoDef(ev.m.syms[..k], 0, ev.m.syms[k].name) && NoDef(ev.m.syms, k + 1, ev.m.syms[k].name)
  }

  /** Symbol k is text whose name is held as a common by the time it is entered. */
  ghost predicate TextOverCommon(st: State, m: Module, k: nat)
    requires k < |m.syms|
  {
    m.syms[k].kind == Text && HeldAsCommon(Before(st.es, m.syms, Pass1Rel(st, m), k), m.syms[k].name)
  }

  /**
   The second pass visits m as module n and reports its symbol k exactly when it is text over a common,
   or bss behind some that was not counted.
   */
  ghost predicate ReportedRight(p: Plan, ms: seq<Module>, n: nat, m: Module, k: nat, before: State, uncounted: nat)
    requires k < |m.syms|
  {
    && n < |ms| && ms[n] == m
    && (Reported(p.es, m.syms[k], Pass2Rel(OriginsAt(p.origins, ms, n), m))
        <==> TextOverCommon(before, m, k) || (m.syms[k].kind == Bss && uncounted != 0))
  }

  /**
   Pass 2 agrees with pass 1: the one definition of a name among the loaded modules is reported
   as multiply defined exactly when it is a text symbol whose name was held as a common just
   before pass 1 entered it, or a bss symbol behind a file whose bss pass 1 did not count; in every
   other case pass 2 recomputes the table's type and value.
   */
  lemma SoleDefinitionReportedIff(st: State, pre: seq<Event>, ev: Event, post: seq<Event>, k: nat, opts: Options)
    requires Good(st) && st.tsize == st.dsize == st.bsize == 0 && opts.pagesize > 0 && LoadableFiles(pre)
    requires SoleDefinition(st, pre, ev, post, k)
    ensures var (st', ms) := Run(st, pre + [ev] + post);
      && Good(st')
      && ReportedRight(Middle(st', opts), ms, |Run(st, pre).1|, ev.m, k, Run(st, pre).0, Uncounted(pre))
  {
    var (st1, s, m) := (Run(st, pre).0, ev.m.syms[k], ev.m);
    var st2 := Load1(st1, m, ev.lib).0;
    RunSplit(st, pre, ev, post);
    var (st', ms) := Run(st, pre + [ev] + post);
    OnlyDefinition(st, pre, ev, post, k);
    var p := Middle(st', opts);
    var rest := Run(st2, post).1;
    PassesAgree(st, pre, m, p.origins, s, rest);
    var i := IndexOf(st'.es, s.name);
    MiddleEntry(st', opts, i);
    MiddleNames(st', opts);
    RelocatedKind(s, Pass1Rel(st1, m));
  }

  /** What a symbol of a module visited as module n comes to: it keeps its place in its segment. */
  ghost predicate HasValue(e: Entry, s: ModSym, m: Module, o: Origins, uncounted: nat) {
    && e.name == s.name
    && match s.kind
       case Text => e.kind == Text && e.value == o.t + s.value
       case Data => e.kind == Data && e.value == o.d + (s.value - m.dataAt)
       case Bss => e.kind == Bss && e.value == o.b + (s.value - (m.dataAt + m.data)) - uncounted
       case Undf => false
       case _ => e.kind == Abs && e.value == s.value
  }

  /** The value in the table, where the second pass comes past the module at place n. */
  ghost predicate ValueRight(p: Plan, ms: seq<Module>, n: nat, m: Module, k: nat, uncounted: nat)
    requires k < |m.syms|
  {
    var i := IndexOf(p.es, m.syms[k].name);
    && n < |ms| && ms[n] == m && i < |p.es|
    && HasValue(p.es[i], m.syms[k], m, OriginsAt(p.origins, ms, n), uncounted)
  }

  /** A symbol's value by the second pass's relocation. */
  lemma RelocatedValue(s: ModSym, m: Module, o: Origins)
    requires s.kind != Undf
    ensures HasValue(Relocated(s, Pass2Rel(o, m)), s, m, o, 0)
  {
  }

  /**
   The final value of a name that one loaded module defines: the address of its place in the module's
   segment, where that segment has come to lie; a bss symbol is short of it by the bss that pass 1 did not
   count before it.
   */
  lemma SoleDefinitionValue(st: State, pre: seq<Event>, ev: Event, post: seq<Event>, k: nat, opts: Options)
    requires Good(st) && st.tsize == st.dsize == st.bsize == 0 && opts.pagesize > 0 && LoadableFiles(pre)
    requires SoleDefinition(st, pre, ev, post, k) && !TextOverCommon(Run(st, pre).0, ev.m, k)
    ensures var (st', ms) := Run(st, pre + [ev] + post);
      Good(st') && ValueRight(Middle(st', opts), ms, |Run(st, pre).1|, ev.m, k, Uncounted(pre))
  {
    var (st1, s, m) := (Run(st, pre).0, ev.m.syms[k], ev.m);
    RunSplit(st, pre, ev, post);
    var (st', ms) := Run(st, pre + [ev] + post);
    OnlyDefinition(st, pre, ev, post, k);
    var p, n := Middle(st', opts), |Run(st, pre).1|;
    PassesAgree(st, pre, m, p.origins, s, Run(Load1(st1, m, ev.lib).0, post).1);
    MiddleEntry(st', opts, IndexOf(st'.es, s.name));
    MiddleNames(st', opts);
    RelocatedKind(s, Pass1Rel(st1, m));
    RelocatedValue(s, m, OriginsAt(p.origins, ms, n));
  }

  /**
   The modules do not overlap in the output: text behind text, data behind data and bss behind bss, and
   data and bss move by whole long words.
   */
  lemma {:induction false} ModulesApart(o: Origins, ms: seq<Module>, i: nat, j: nat)
    requires i < j <= |ms|
    ensures var (a, b) := (OriginsAt(o, ms, i), OriginsAt(o, ms, j));
      && a.t + ms[i].text <= b.t && a.d + ms[i].data <= b.d && a.b + ms[i].bss <= b.b
      && (b.d - a.d) % 4 == 0 && (b.b - a.b) % 4 == 0
    decreases j
  {
    var m := ms[j - 1];
    RoundUpMultiple(m.data, 4);
    RoundUpMultiple(m.bss, 4);
    if i < j - 1 {
      ModulesApart(o, ms, i, j - 1);
      var (a, c) := (OriginsAt(o, ms, i), OriginsAt(o, ms, j - 1));
      MultiplesAdd(c.d - a.d, RoundUp(m.data, 4));
      MultiplesAdd(c.b - a.b, RoundUp(m.bss, 4));
    }
  }

  lemma MultiplesAdd(x: int, y: int)
    requires x % 4 == 0 && y % 4 == 0
    ensures (x + y) % 4 == 0
  {
  }

  /** A name in the list whose only entry is its own. */
  lemma OnlyEntry(e: Entry)
    ensures IndexOf([e], e.name) == 0
  {
  }

  /** Entering the only symbol of a module. */
  lemma EnterOne(es: seq<Entry>, s: ModSym, r: Rel)
    requires s.ext
    ensures EnterAll(es, [s], r, 0) == Enter1(es, Relocated(s, r))
    ensures Before(es, [s], r, 0) == es
  {
    assert EnterAll(Enter1(es, Relocated(s, r)).0, [s], r, 1) == (Enter1(es, Relocated(s, r)).0, 0);
    assert [s][..0] == [];
  }

  /** Loading a file with one symbol of a new name. */
  lemma LoadFirst(m: Module, s: ModSym)
    requires s.ext && m.syms == [s]
    ensures var st := State([], 0, 0, 0, []);
      && Unique(st.es)
      && Load1(st, m, false) ==
        (State([Relocated(s, Pass1Rel(st, m))], m.text, RoundUp(m.data, 4), RoundUp(m.bss, 4), []), true)
  {
    var st := State([], 0, 0, 0, []);
    EnterOne([], s, Pass1Rel(st, m));
    var e := Relocated(s, Pass1Rel(st, m));
    var none: seq<Entry> := [];
    assert IndexOf(none, e.name) == 0 && none + [e] == [e];
  }

  /** The run of two modules, of which one wants x with size 8 and the other defines x as text. */
  lemma TextAfterCommon(x: Name)
    ensures var st, wants := State([], 0, 0, 0, []), Module(0, 0, 0, 0, [ModSym(x, Undf, true, 8)]);
      var defines := Module(4, 4, 0, 0, [ModSym(x, Text, true, 0)]);
      var pre, ev := [Event(wants, false)], Event(defines, false);
      && Good(st) && SoleDefinition(st, pre, ev, [], 0) && TextOverCommon(Run(st, pre).0, defines, 0)
      && Run(st, pre).1 == [wants] && Run(st, pre + [ev] + []).1 == [wants, defines]
  {
    var st, wants, defines := State([], 0, 0, 0, []), Module(0, 0, 0, 0, [ModSym(x, Undf, true, 8)]),
      Module(4, 4, 0, 0, [ModSym(x, Text, true, 0)]);
    var pre, ev := [Event(wants, false)], Event(defines, false);
    LoadFirst(wants, wants.syms[0]);
    Load1Grows(st, wants, false);
    var st1 := Load1(st, wants, false).0;
    assert Run(st1, []) == (st1, []);
    assert pre[1..] == [];
    assert Run(st, pre) == (st1, [wants] + []);
    Load1Grows(st1, defines, false);
    EnterOne(st1.es, defines.syms[0], Pass1Rel(st1, defines));
    OnlyEntry(st1.es[0]);
    assert pre + [ev] + [] == [Event(wants, false), ev];
    RunSplit(st, pre, ev, []);
  }

  /** One module wants x with size 8, the next defines x as text: the only definition of x is reported. */
  lemma TextAfterCommonReported(x: Name, opts: Options)
    requires opts.pagesize > 0
    ensures var wants := Module(0, 0, 0, 0, [ModSym(x, Undf, true, 8)]);
      var defines := Module(4, 4, 0, 0, [ModSym(x, Text, true, 0)]);
      var (st, ms) := Run(State([], 0, 0, 0, []), [Event(wants, false), Event(defines, false)]);
      && ms == [wants, defines] && Good(st)
      && var p := Middle(st, opts);
         Reported(p.es, defines.syms[0], Pass2Rel(OriginsAt(p.origins, ms, 1), defines))
  {
    var st, wants := State([], 0, 0, 0, []), Module(0, 0, 0, 0, [ModSym(x, Undf, true, 8)]);
    var defines := Module(4, 4, 0, 0, [ModSym(x, Text, true, 0)]);
    var pre, ev := [Event(wants, false)], Event(defines, false);
    TextAfterCommon(x);
    assert pre + [ev] + [] == [Event(wants, false), ev];
    SoleDefinitionReportedIff(st, pre, ev, [], 0, opts);
  }

  /** A file without symbols but with bss, then a module that defines x in its bss: the definition is reported. */
  lemma BssAfterUncountedReported(x: Name, opts: Options)
    requires opts.pagesize > 0
    ensures var blank, defines := Module(0, 0, 0, 4, []), Module(0, 0, 0, 4, [ModSym(x, Bss, true, 0)]);
      var (st, ms) := Run(State([], 0, 0, 0, []), [Event(blank, false), Event(defines, false)]);
      && ms == [blank, defines] && Good(st)
      && var p := Middle(st, opts);
         Reported(p.es, defines.syms[0], Pass2Rel(OriginsAt(p.origins, ms, 1), defines))
  {
    var st, blank := State([], 0, 0, 0, []), Module(0, 0, 0, 4, []);
    var defines := Module(0, 0, 0, 4, [ModSym(x, Bss, true, 0)]);
    var pre, ev := [Event(blank, false)], Event(defines, false);
    assert pre[1..] == [];
    assert Run(st, []) == (st, []);
    assert Run(st, pre) == (st, [blank] + []);
    assert Uncounted([]) == 0;
    assert Uncounted(pre) == RoundUp(4, 4);
    LoadFirst(defines, defines.syms[0]);
    Load1Grows(st, defines, false);
    assert pre + [ev] + [] == [Event(blank, false), ev];
    RunSplit(st, pre, ev, []);
    SoleDefinitionReportedIff(st, pre, ev, [], 0, opts);
  }

  lemma RunFirst(st: State, ev: Event, post: seq<Event>)
    requires Good(st) && Load1(st, ev.m, ev.lib).1 && Good(Load1(st, ev.m, ev.lib).0)
    ensures Run(st, [ev] + post).0 == Run(Load1(st, ev.m, ev.lib).0, post).0
    ensures Run(st, [ev] + post).1 == [ev.m] + Run(Load1(st, ev.m, ev.lib).0, post).1
  {
    assert ([ev] + post)[1..] == post;
  }

  lemma RunSplit(st: State, pre: seq<Event>, ev: Event, post: seq<Event>)
    requires Good(st) && Good(Run(st, pre).0) && Load1(Run(st, pre).0, ev.m, ev.lib).1
    requires Good(Load1(Run(st, pre).0, ev.m, ev.lib).0)
    ensures Run(st, pre + [ev] + post).0 == Run(Load1(Run(st, pre).0, ev.m, ev.lib).0, post).0
    ensures Run(st, pre + [ev] + post).1 == Run(st, pre).1 + [ev.m] + Run(Load1(Run(st, pre).0, ev.m, ev.lib).0, post).1
    ensures Good(Run(st, pre + [ev] + post).0)
  {
    assert pre + [ev] + post == pre + ([ev] + post);
    RunConcat(st, pre, [ev] + post);
    RunGrows(st, pre + [ev] + post);
    RunFirst(Run(st, pre).0, ev, post);
    assert Run(st, pre).1 + [ev.m] + Run(Load1(Run(st, pre).0, ev.m, ev.lib).0, post).1
      == Run(st, pre).1 + ([ev.m] + Run(Load1(Run(st, pre).0, ev.m, ev.lib).0, post).1);
  }

  lemma MiddleNames(st: State, opts: Options)
    requires Good(st) && opts.pagesize > 0
    ensures var p := Middle(st, opts);
      |p.es| == |st.es| && forall name :: IndexOf(p.es, name) == IndexOf(st.es, name)
  {
    var p := Middle(st, opts);
    forall i | 0 <= i < |st.es|
      ensures p.es[i].name == st.es[i].name
    {
      MiddleEntry(st, opts, i);
    }
    forall name
      ensures IndexOf(p.es, name) == IndexOf(st.es, name)
    {
      SameNamesSameIndex(st.es, p.es, name);
    }
  }

  lemma SameNamesSameIndex(a: seq<Entry>, b: seq<Entry>, name: Name)
    requires |a| == |b| && forall i :: 0 <= i < |a| ==> a[i].name == b[i].name
    ensures IndexOf(a, name) == IndexOf(b, name)
  {
    var i, j := IndexOf(a, name), IndexOf(b, name);
    assert i < |a| ==> b[i].name == name;
    assert j < |a| ==> a[j].name == name;
  }
}
