/**
 Searching a library through its table of contents, pass after pass, until a pass
 enters no further symbol.
 */
module Library {
  import opened SymbolTable
  import opened Pass1

  /** A line of the table of contents: the member at off defines name. */
  datatype Toc = Toc(name: Name, off: int)

  /** The archive: its members by offset, and its table of contents. */
  datatype Archive = Archive(members: map<int, Module>, toc: seq<Toc>)

  /** The archive reads: offsets in the contents are those of members, and members have the form load1 accepts. */
  ghost predicate Readable(ar: Archive) {
    && (forall j :: 0 <= j < |ar.toc| ==> ar.toc[j].off in ar.members)
    && (forall off :: off in ar.members ==> Loadable(ar.members[off]))
  }

  /** step: examine one member and note its offset if it is kept. */
  function Step(st: State, ar: Archive, off: int): State
    requires Unique(st.es) && off in ar.members
  {
    var (st', kept) := Load1(st, ar.members[off], true);
    if kept then st'.(found := st'.found + [off]) else st'
  }

  /** The first line of the contents after line j that is for another member. */
  function SkipSame(toc: seq<Toc>, j: nat): (k: nat)
    requires j < |toc|
    ensures j < k <= |toc|
    ensures forall i :: j <= i < k ==> toc[i].off == toc[j].off
    decreases |toc| - j
  {
    if j + 1 < |toc| && toc[j + 1].off == toc[j].off then SkipSame(toc, j + 1) else j + 1
  }

  /** The contents promise that a member defines this name, and the name is undefined so far. */
  predicate Promising(es: seq<Entry>, name: Name) {
    var i := IndexOf(es, name);
    i < |es| && es[i].kind == Undf
  }

  /** One pass over the table of contents from line j on. */
  function Pass(st: State, ar: Archive, j: nat): State
    requires Good(st) && Readable(ar) && j <= |ar.toc|
    decreases |ar.toc| - j
  {
    if j == |ar.toc| then
      st
    else if Promising(st.es, ar.toc[j].name) then
      StepGrows(st, ar, ar.toc[j].off);
      Pass(Step(st, ar, ar.toc[j].off), ar, SkipSame(ar.toc, j))
    else
      Pass(st, ar, j + 1)
  }

  lemma StepGrows(st: State, ar: Archive, off: int)
    requires Good(st) && off in ar.members
    ensures Good(Step(st, ar, off)) && Le(st.es, Step(st, ar, off).es)
  {
    Load1Grows(st, ar.members[off], true);
  }

  lemma {:induction false} PassGrows(st: State, ar: Archive, j: nat)
    requires Good(st) && Readable(ar) && j <= |ar.toc|
    ensures Good(Pass(st, ar, j)) && Le(st.es, Pass(st, ar, j).es)
    decreases |ar.toc| - j
  {
    if j < |ar.toc| {
      if Promising(st.es, ar.toc[j].name) {
        var off := ar.toc[j].off;
        StepGrows(st, ar, off);
        PassGrows(Step(st, ar, off), ar, SkipSame(ar.toc, j));
        LeTransitive(st.es, Step(st, ar, off).es, Pass(st, ar, j).es);
      } else {
        PassGrows(st, ar, j + 1);
      }
    }
  }

  /** The state after n passes over the table of contents. */
  ghost function AfterPasses(st: State, ar: Archive, n: nat): (st': State)
    requires Good(st) && Readable(ar)
    ensures Good(st') && Le(st.es, st'.es)
    decreases n
  {
    if n == 0 then st
    else
      var st1 := AfterPasses(st, ar, n - 1);
      PassGrows(st1, ar, 0);
      LeTransitive(st.es, st1.es, Pass(st1, ar, 0).es);
      Pass(st1, ar, 0)
  }

  /** Pass k of the search, counted from 1, enters a symbol. */
  ghost predicate Nets(st: State, ar: Archive, k: nat)
    requires Good(st) && Readable(ar) && k > 0
  {
    |AfterPasses(st, ar, k).es| != |AfterPasses(st, ar, k - 1).es|
  }

  /** The search ends with pass n: the first that enters no symbol. */
  ghost predicate EndsWith(st: State, ar: Archive, n: nat)
    requires Good(st) && Readable(ar)
  {
    n > 0 && !Nets(st, ar, n) && forall k :: 0 < k < n ==> Nets(st, ar, k)
  }

  /** The state after a library: the passes, and -1 to end its list of members. */
  ghost function Searched(st: State, ar: Archive, n: nat): (st': State)
    requires Good(st) && Readable(ar)
    ensures Good(st')
  {
    var st1 := AfterPasses(st, ar, n);
    st1.(found := st1.found + [-1])
  }

  // ----- each member is recorded at most once -----

  /** Every recorded member's definitions are settled, and none is recorded twice. */
  ghost predicate Recorded(st: State, ar: Archive, from: nat) {
    && from <= |st.found|
    && (forall i :: from <= i < |st.found| ==>
      st.found[i] in ar.members && Saturated(st.es, ar.members[st.found[i]].syms, 0))
    && (forall i, k :: from <= i < k < |st.found| ==> st.found[i] != st.found[k])
  }

  lemma StepRecordsOnce(st: State, ar: Archive, off: int, from: nat)
    requires Good(st) && off in ar.members && Recorded(st, ar, from)
    ensures Recorded(Step(st, ar, off), ar, from)
  {
    var m, st' := ar.members[off], Step(st, ar, off);
    Load1Grows(st, m, true);
    StepGrows(st, ar, off);
    forall i | from <= i < |st.found|
      ensures Saturated(st'.es, ar.members[st.found[i]].syms, 0)
      ensures st'.found != st.found ==> st.found[i] != off
    {
      SaturatedStays(st.es, st'.es, ar.members[st.found[i]].syms, 0);
      if st.found[i] == off {
        SaturatedNetsNothing(st.es, m.syms, Pass1Rel(st, m), 0);
      }
    }
  }

  lemma {:induction false} PassRecordsOnce(st: State, ar: Archive, j: nat, from: nat)
    requires Good(st) && Readable(ar) && j <= |ar.toc| && Recorded(st, ar, from)
    ensures Recorded(Pass(st, ar, j), ar, from)
    decreases |ar.toc| - j
  {
    if j < |ar.toc| {
      if Promising(st.es, ar.toc[j].name) {
        var off := ar.toc[j].off;
        StepGrows(st, ar, off);
        StepRecordsOnce(st, ar, off, from);
        PassRecordsOnce(Step(st, ar, off), ar, SkipSame(ar.toc, j), from);
      } else {
        PassRecordsOnce(st, ar, j + 1, from);
      }
    }
  }

  // ----- the fixpoint -----

  ghost predicate Delivers(s: ModSym, name: Name) {
    Defines(s) && s.name == name
  }

  /** The name is undefined and this definition of it would be taken: text is not, when a size is wanted. */
  ghost predicate Wants(es: seq<Entry>, s: ModSym) {
    var i := IndexOf(es, s.name);
    i < |es| && es[i].kind == Undf && (es[i].value == 0 || s.kind != Text)
  }

  /** No name occurs twice among the external symbols from the n-th on. */
  ghost predicate NamedOnce(syms: seq<ModSym>, n: nat)
    requires n <= |syms|
  {
    forall i, j :: n <= i < j < |syms| && syms[i].ext && syms[j].ext ==> syms[i].name != syms[j].name
  }

  /** Entering a symbol does not change whether a definition of another name is wanted. */
  lemma WantedElsewhere(es: seq<Entry>, e: Entry, s: ModSym)
    requires Unique(es) && e.name != s.name
    ensures Wants(Enter1(es, e).0, s) <==> Wants(es, s)
  {
    var es1 := Enter1(es, e).0;
    Enter1Grows(es, e);
    var i, j := IndexOf(es, s.name), IndexOf(es1, s.name);
    if i < |es| {
      assert es1[i].name == s.name;
      IndexIs(es1, i);
    }
  }

  /** A definition of a name counts exactly when it is wanted. */
  lemma CountsIff(es: seq<Entry>, s: ModSym, r: Rel)
    requires Unique(es)
    ensures Enter1(es, Relocated(s, r)).1 == 1 <==> s.kind != Undf && Wants(es, s)
    ensures Enter1(es, Relocated(s, r)).1 in {0, 1}
  {
  }

  /** Some definition among the symbols from the n-th on is wanted. */
  ghost predicate Needed(es: seq<Entry>, syms: seq<ModSym>, n: nat)
    requires n <= |syms|
  {
    exists k :: n <= k < |syms| && Defines(syms[k]) && Wants(es, syms[k])
  }

  lemma {:induction false} CountIff(es: seq<Entry>, syms: seq<ModSym>, r: Rel, n: nat)
    requires Unique(es) && n <= |syms| && NamedOnce(syms, n)
    ensures EnterAll(es, syms, r, n).1 > 0 <==> Needed(es, syms, n)
    decreases |syms| - n
  {
    if n < |syms| {
      if syms[n].ext {
        var e := Relocated(syms[n], r);
        Enter1Grows(es, e);
        CountsIff(es, syms[n], r);
        CountIff(Enter1(es, e).0, syms, r, n + 1);
        NeededNext(es, Enter1(es, e).0, e, syms, n);
      } else {
        CountIff(es, syms, r, n + 1);
        assert Needed(es, syms, n) <==> Needed(es, syms, n + 1);
      }
    }
  }

  lemma NeededNext(es: seq<Entry>, es1: seq<Entry>, e: Entry, syms: seq<ModSym>, n: nat)
    requires Unique(es) && n < |syms| && syms[n].ext && e.name == syms[n].name && es1 == Enter1(es, e).0
    requires NamedOnce(syms, n)
    ensures Needed(es, syms, n) <==> (Defines(syms[n]) && Wants(es, syms[n])) || Needed(es1, syms, n + 1)
  {
    forall k | n < k < |syms| && Defines(syms[k])
      ensures Wants(es1, syms[k]) <==> Wants(es, syms[k])
    {
      WantedElsewhere(es, e, syms[k]);
    }
  }

  /** A library member is loaded exactly when it has a definition that is wanted. */
  lemma KeptIffNeeded(st: State, m: Module)
    requires Good(st) && m.syms != [] && NamedOnce(m.syms, 0)
    ensures Load1(st, m, true).1 <==> Needed(st.es, m.syms, 0)
  {
    CountIff(st.es, m.syms, Pass1Rel(st, m), 0);
  }

  /** After its member has been examined, a definition of a name that was in the table is wanted no more. */
  lemma StepResolves(st: State, ar: Archive, off: int, k: nat)
    requires Good(st) && off in ar.members && k < |ar.members[off].syms| && Defines(ar.members[off].syms[k])
    requires IndexOf(st.es, ar.members[off].syms[k].name) < |st.es|
    ensures !Wants(Step(st, ar, off).es, ar.members[off].syms[k])
  {
    var m, st' := ar.members[off], Step(st, ar, off);
    Load1Grows(st, m, true);
    var r := Pass1Rel(st, m);
    EnterAllSaturates(st.es, m.syms, r, 0);
    EnterAllGrows(st.es, m.syms, r, 0);
    var all := EnterAll(st.es, m.syms, r, 0).0;
    assert Settled(all, m.syms[k]);
    var i := IndexOf(st.es, m.syms[k].name);
    assert all[i].name == m.syms[k].name && st'.es[i].name == m.syms[k].name;
    IndexIs(all, i);
    IndexIs(st'.es, i);
  }

  /** A definition wanted now was wanted whenever its name was in the table before. */
  lemma WantedBefore(es0: seq<Entry>, es1: seq<Entry>, s: ModSym)
    requires Unique(es0) && Unique(es1) && Sizes(es0) && Le(es0, es1) && Wants(es1, s) && |es0| == |es1|
    ensures Wants(es0, s)
  {
    var i := IndexOf(es1, s.name);
    assert es0[i].name == s.name;
    IndexIs(es0, i);
  }

  /** No definition that the contents list, and list where it is, is still wanted. */
  ghost predicate Resolved(es: seq<Entry>, ar: Archive)
    requires Readable(ar)
  {
    forall t :: 0 <= t < |ar.toc| ==> ResolvedLine(es, ar.members[ar.toc[t].off], ar.toc[t].name)
  }

  ghost predicate ResolvedLine(es: seq<Entry>, m: Module, name: Name) {
    forall k :: 0 <= k < |m.syms| && Delivers(m.syms[k], name) ==> !Wants(es, m.syms[k])
  }

  lemma PassResolvesAll(st: State, ar: Archive)
    requires Good(st) && Readable(ar) && |Pass(st, ar, 0).es| == |st.es|
    ensures Resolved(Pass(st, ar, 0).es, ar)
  {
    forall t | 0 <= t < |ar.toc|
      ensures ResolvedLine(Pass(st, ar, 0).es, ar.members[ar.toc[t].off], ar.toc[t].name)
    {
      var m := ar.members[ar.toc[t].off];
      forall k | 0 <= k < |m.syms| && Delivers(m.syms[k], ar.toc[t].name)
        ensures !Wants(Pass(st, ar, 0).es, m.syms[k])
      {
        PassResolves(st, ar, 0, t, k);
      }
    }
  }

  /** A pass that enters no symbol leaves no definition it was told of wanted. */
  lemma {:induction false} PassResolves(st: State, ar: Archive, j: nat, t: nat, k: nat)
    requires Good(st) && Readable(ar) && j <= t < |ar.toc|
    requires k < |ar.members[ar.toc[t].off].syms| && Delivers(ar.members[ar.toc[t].off].syms[k], ar.toc[t].name)
    requires |Pass(st, ar, j).es| == |st.es|
    ensures !Wants(Pass(st, ar, j).es, ar.members[ar.toc[t].off].syms[k])
    decreases |ar.toc| - j
  {
    var s := ar.members[ar.toc[t].off].syms[k];
    var end := Pass(st, ar, j);
    PassGrows(st, ar, j);
    if Promising(st.es, ar.toc[j].name) {
      var off, next := ar.toc[j].off, SkipSame(ar.toc, j);
      var st1 := Step(st, ar, off);
      StepGrows(st, ar, off);
      PassGrows(st1, ar, next);
      if t < next {
        if Wants(end.es, s) {
          WantedBefore(st1.es, end.es, s);
          WantedBefore(st.es, end.es, s);
          StepResolves(st, ar, off, k);
        }
      } else {
        PassResolves(st1, ar, next, t, k);
      }
    } else if t == j {
      if Wants(end.es, s) {
        WantedBefore(st.es, end.es, s);
      }
    } else {
      PassResolves(st, ar, j + 1, t, k);
    }
  }

  /** A library of which no listed name is undefined is left alone. */
  lemma {:induction false} IdlePass(st: State, ar: Archive, j: nat)
    requires Good(st) && Readable(ar) && j <= |ar.toc|
    requires forall t :: j <= t < |ar.toc| ==> NotUndefined(st.es, ar.toc[t].name)
    ensures Pass(st, ar, j) == st
    decreases |ar.toc| - j
  {
    if j < |ar.toc| {
      assert NotUndefined(st.es, ar.toc[j].name);
      IdlePass(st, ar, j + 1);
    }
  }

  /** Nobody has asked for the name, or it is defined. */
  ghost predicate NotUndefined(es: seq<Entry>, name: Name) {
    forall i :: 0 <= i < |es| && es[i].name == name ==> es[i].kind != Undf
  }

  /** The search of a library after n passes; more tells that it goes on. */
  ghost predicate Searching(st0: State, st: State, ar: Archive, n: nat, more: bool) {
    && Good(st0) && Readable(ar) && st == AfterPasses(st0, ar, n) && Recorded(st, ar, |st0.found|)
    && (forall k :: 0 < k < n ==> Nets(st0, ar, k))
    && (n > 0 ==> more == Nets(st0, ar, n))
    && (!more ==> n > 0 && Resolved(st.es, ar))
  }

  lemma NextPass(st0: State, st: State, ar: Archive, n: nat)
    requires Searching(st0, st, ar, n, true)
    ensures var st' := Pass(st, ar, 0);
      Searching(st0, st', ar, n + 1, |st'.es| != |st.es|)
  {
    PassRecordsOnce(st, ar, 0, |st0.found|);
    if |Pass(st, ar, 0).es| == |st.es| {
      PassResolvesAll(st, ar);
    }
    forall k | 0 < k < n + 1
      ensures Nets(st0, ar, k)
    {
    }
  }
}
