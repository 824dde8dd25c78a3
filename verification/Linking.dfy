/**
 The linker's two passes over its arguments. The first pass notes the library members it
 keeps; the second pass walks the notes. Both come past the same modules in the same order,
 and so the second pass finds what the first one predicted.
 */
module Linking {
  import opened SymbolTable
  import opened LinkTable
  import opened Pass1
  import opened Library
  import opened Layout
  import opened Linker1
  import opened Linker2
  import opened Linker3

  /** An argument: an object file, or a library with its table of contents. */
  datatype Arg = File(m: Module) | Lib(ar: Archive)

  /** A library reads, and its members have offsets. */
  ghost predicate GivenArg(arg: Arg) {
    arg.Lib? ==> Readable(arg.ar) && -1 !in arg.ar.members
  }

  ghost predicate Given(args: seq<Arg>) {
    forall i :: 0 <= i < |args| ==> GivenArg(args[i])
  }

  const Start: State := State([], 0, 0, 0, [])

  /** The state of the first pass after i arguments, library j taking ns[j] passes over its contents. */
  ghost function After(args: seq<Arg>, ns: seq<nat>, i: nat): (st: State)
    requires Given(args) && i <= |args| && i <= |ns|
    ensures Good(st)
    decreases i
  {
    if i == 0 then
      Start
    else
      Next(After(args, ns, i - 1), args[i - 1], ns[i - 1])
  }

  /** ... after one argument more. */
  ghost function Next(st: State, arg: Arg, n: nat): (st': State)
    requires Good(st) && GivenArg(arg)
    ensures Good(st')
  {
    match arg
    case File(m) =>
      Load1Grows(st, m, false);
      Load1(st, m, false).0
    case Lib(ar) => Searched(st, ar, n)
  }

  /** Each library was searched until a pass entered no symbol, and no file had contents but no symbols. */
  ghost predicate Finished(args: seq<Arg>, ns: seq<nat>, i: nat)
    requires Given(args) && i <= |args| && i <= |ns|
    decreases i
  {
    i > 0 ==> Finished(args, ns, i - 1) && EndedAt(After(args, ns, i - 1), args[i - 1], ns[i - 1])
  }

  ghost predicate EndedAt(st: State, arg: Arg, n: nat)
    requires Good(st) && GivenArg(arg)
  {
    match arg
    case File(m) => Loadable(m)
    case Lib(ar) => EndsWith(st, ar, n)
  }

  lemma {:induction false} AfterPrefix(args: seq<Arg>, ns: seq<nat>, n: nat, i: nat)
    requires Given(args) && i <= |args| && i <= |ns|
    ensures After(args, ns + [n], i) == After(args, ns, i)
    ensures Finished(args, ns + [n], i) <==> Finished(args, ns, i)
    decreases i
  {
    if i > 0 {
      AfterPrefix(args, ns, n, i - 1);
    }
  }

  // ----- the modules that the second pass visits -----

  /** The members at some offsets. */
  function Members(ar: Archive, offs: seq<int>): (ms: seq<Module>)
    ensures |ms| == |offs|
  {
    if offs == [] then []
    else [if offs[0] in ar.members then ar.members[offs[0]] else Module(0, 0, 0, 0, [])] + Members(ar, offs[1..])
  }

  lemma {:induction false} MembersConcat(ar: Archive, a: seq<int>, b: seq<int>)
    ensures Members(ar, a + b) == Members(ar, a) + Members(ar, b)
  {
    if a == [] {
      assert a + b == b;
    } else {
      assert (a + b)[1..] == a[1..] + b;
      MembersConcat(ar, a[1..], b);
    }
  }

  /** The modules noted for an argument: a file, or the members noted since f, but for the closing -1. */
  function Noted(arg: Arg, found: seq<int>, f: nat): seq<Module> {
    match arg
    case File(m) => [m]
    case Lib(ar) => if f < |found| then Members(ar, found[f..|found| - 1]) else []
  }

  /** The modules noted for argument c. */
  ghost function NotedAt(args: seq<Arg>, ns: seq<nat>, c: nat): seq<Module>
    requires Given(args) && c < |args| == |ns|
  {
    Noted(args[c], After(args, ns, c + 1).found, |After(args, ns, c).found|)
  }

  ghost function Parts(args: seq<Arg>, ns: seq<nat>): (parts: seq<seq<Module>>)
    requires Given(args) && |ns| == |args|
    ensures |parts| == |args|
  {
    seq(|args|, c requires 0 <= c < |args| => NotedAt(args, ns, c))
  }

  /** The first n parts in a row. */
  function Joined(parts: seq<seq<Module>>, n: nat): seq<Module>
    requires n <= |parts|
    decreases n
  {
    if n == 0 then [] else Joined(parts, n - 1) + parts[n - 1]
  }

  /** The modules that the second pass visits. */
  ghost function Visits(args: seq<Arg>, ns: seq<nat>): seq<Module>
    requires Given(args) && |ns| == |args|
  {
    Joined(Parts(args, ns), |args|)
  }

  // ----- the first pass as a run -----

  /** The members that one pass over the contents examines. */
  ghost function PassEvents(st: State, ar: Archive, j: nat): seq<Event>
    requires Good(st) && Readable(ar) && j <= |ar.toc|
    decreases |ar.toc| - j
  {
    if j == |ar.toc| then
      []
    else if Promising(st.es, ar.toc[j].name) then
      StepGrows(st, ar, ar.toc[j].off);
      [Event(ar.members[ar.toc[j].off], true)] + PassEvents(Step(st, ar, ar.toc[j].off), ar, SkipSame(ar.toc, j))
    else
      PassEvents(st, ar, j + 1)
  }

  /** Some events lead from one state to another and note what they keep. */
  ghost predicate Leads(st: State, evs: seq<Event>, st': State, ar: Archive) {
    && Good(st) && |st.found| <= |st'.found| && st'.found[..|st.found|] == st.found
    && Run(st.(found := []), evs) == (st'.(found := []), Members(ar, st'.found[|st.found|..]))
  }

  lemma LeadsNowhere(st: State, ar: Archive)
    requires Good(st)
    ensures Leads(st, [], st, ar)
  {
  }

  /** One member examined. */
  lemma LeadsStep(st: State, ar: Archive, off: int)
    requires Good(st) && off in ar.members
    ensures Leads(st, [Event(ar.members[off], true)], Step(st, ar, off), ar)
  {
    var m, st0 := ar.members[off], st.(found := []);
    var (st1, kept) := Load1(st0, m, true);
    Load1Grows(st0, m, true);
    assert [Event(m, true)][1..] == [];
    assert Run(st1, []) == (st1, []);
    assert Run(st0, [Event(m, true)]) == (st1, if kept then [m] + [] else []);
    assert Members(ar, []) == [];
    if kept {
      assert Step(st, ar, off).found[|st.found|..] == [off];
      assert [off][1..] == [];
    }
  }

  lemma LeadsOn(a: State, evs: seq<Event>, b: State, evs': seq<Event>, c: State, ar: Archive)
    requires Leads(a, evs, b, ar) && Leads(b, evs', c, ar)
    ensures Leads(a, evs + evs', c, ar)
  {
    RunConcat(a.(found := []), evs, evs');
    assert c.found[..|a.found|] == c.found[..|b.found|][..|a.found|];
    var x, y := b.found[|a.found|..], c.found[|b.found|..];
    assert c.found[|a.found|..] == x + y by {
      assert c.found == c.found[..|b.found|] + y;
    }
    MembersConcat(ar, x, y);
  }

  lemma {:induction false} PassLeads(st: State, ar: Archive, j: nat)
    requires Good(st) && Readable(ar) && j <= |ar.toc|
    ensures Leads(st, PassEvents(st, ar, j), Pass(st, ar, j), ar)
    decreases |ar.toc| - j
  {
    if j == |ar.toc| {
      LeadsNowhere(st, ar);
    } else if Promising(st.es, ar.toc[j].name) {
      var off, next := ar.toc[j].off, SkipSame(ar.toc, j);
      var st1 := Step(st, ar, off);
      StepGrows(st, ar, off);
      LeadsStep(st, ar, off);
      PassLeads(st1, ar, next);
      LeadsOn(st, [Event(ar.members[off], true)], st1, PassEvents(st1, ar, next), Pass(st1, ar, next), ar);
    } else {
      PassLeads(st, ar, j + 1);
    }
  }

  ghost function PassesEvents(st: State, ar: Archive, n: nat): seq<Event>
    requires Good(st) && Readable(ar)
    decreases n
  {
    if n == 0 then [] else PassesEvents(st, ar, n - 1) + PassEvents(AfterPasses(st, ar, n - 1), ar, 0)
  }

  lemma {:induction false} PassesLead(st: State, ar: Archive, n: nat)
    requires Good(st) && Readable(ar)
    ensures Leads(st, PassesEvents(st, ar, n), AfterPasses(st, ar, n), ar)
    decreases n
  {
    if n == 0 {
      LeadsNowhere(st, ar);
    } else {
      var st1 := AfterPasses(st, ar, n - 1);
      PassesLead(st, ar, n - 1);
      PassLeads(st1, ar, 0);
      LeadsOn(st, PassesEvents(st, ar, n - 1), st1, PassEvents(st1, ar, 0), Pass(st1, ar, 0), ar);
    }
  }

  /** What the first pass comes across in an argument. */
  ghost function ArgEvents(st: State, arg: Arg, n: nat): seq<Event>
    requires Good(st) && GivenArg(arg)
  {
    match arg
    case File(m) => [Event(m, false)]
    case Lib(ar) => PassesEvents(st, ar, n)
  }

  ghost function EventParts(args: seq<Arg>, ns: seq<nat>): (parts: seq<seq<Event>>)
    requires Given(args) && |ns| == |args|
    ensures |parts| == |args|
  {
    seq(|args|, c requires 0 <= c < |args| => EventsAt(args, ns, c))
  }

  ghost function EventsAt(args: seq<Arg>, ns: seq<nat>, c: nat): seq<Event>
    requires Given(args) && c < |args| == |ns|
  {
    ArgEvents(After(args, ns, c), args[c], ns[c])
  }

  /** The first n parts in a row. */
  function JoinedEvents(parts: seq<seq<Event>>, n: nat): seq<Event>
    requires n <= |parts|
    decreases n
  {
    if n == 0 then [] else JoinedEvents(parts, n - 1) + parts[n - 1]
  }

  ghost function Events(args: seq<Arg>, ns: seq<nat>): seq<Event>
    requires Given(args) && |ns| == |args|
  {
    JoinedEvents(EventParts(args, ns), |args|)
  }

  ghost function States(args: seq<Arg>, ns: seq<nat>): (sts: seq<State>)
    requires Given(args) && |ns| == |args|
    ensures |sts| == |args| + 1
  {
    seq(|args| + 1, c requires 0 <= c <= |args| => After(args, ns, c))
  }

  /** One argument is a run, and the modules noted for it are those the run keeps. */
  lemma ArgIsRun(st: State, arg: Arg, n: nat)
    requires Good(st) && GivenArg(arg)
    ensures var st' := Next(st, arg, n);
      Run(st.(found := []), ArgEvents(st, arg, n)) == (st'.(found := []), Noted(arg, st'.found, |st.found|))
  {
    var st0, st' := st.(found := []), Next(st, arg, n);
    match arg
    case File(m) =>
      Load1Grows(st0, m, false);
      var st1 := Load1(st0, m, false).0;
      assert [Event(m, false)][1..] == [];
      assert Run(st1, []) == (st1, []);
      assert [m] + [] == [m];
    case Lib(ar) =>
      PassesLead(st, ar, n);
      var found := AfterPasses(st, ar, n).found;
      assert (found + [-1])[|st.found|..|found|] == found[|st.found|..];
  }

  /** Part c is a run from state c to the next, and keeps the modules of that part. */
  ghost predicate Steps(sts: seq<State>, evs: seq<seq<Event>>, mss: seq<seq<Module>>, c: nat) {
    && c + 1 < |sts| && c < |evs| && c < |mss| && Good(sts[c])
    && Run(sts[c].(found := []), evs[c]) == (sts[c + 1].(found := []), mss[c])
  }

  /** Runs one after the other are a run. */
  lemma {:induction false} RunsJoin(sts: seq<State>, evs: seq<seq<Event>>, mss: seq<seq<Module>>, n: nat)
    requires n < |sts| && n <= |evs| && n <= |mss| && sts[0] == Start && Good(Start)
    requires forall c :: 0 <= c < n ==> Steps(sts, evs, mss, c)
    ensures Run(Start, JoinedEvents(evs, n)) == (sts[n].(found := []), Joined(mss, n))
    decreases n
  {
    if n == 0 {
      assert Run(Start, []) == (Start, []);
    } else {
      RunsJoin(sts, evs, mss, n - 1);
      assert Steps(sts, evs, mss, n - 1);
      RunConcat(Start, JoinedEvents(evs, n - 1), evs[n - 1]);
    }
  }

  lemma ArgSteps(args: seq<Arg>, ns: seq<nat>, c: nat)
    requires Given(args) && c < |args| == |ns|
    ensures Steps(States(args, ns), EventParts(args, ns), Parts(args, ns), c)
  {
    assert GivenArg(args[c]);
    ArgIsRun(After(args, ns, c), args[c], ns[c]);
  }

  /**
   The first pass over the arguments is the run over their events, and the second pass visits what
   the run keeps: Layout's theorems about runs are about the linker.
   */
  lemma FirstPassIsRun(args: seq<Arg>, ns: seq<nat>)
    requires Given(args) && |ns| == |args|
    ensures Good(Start) && Run(Start, Events(args, ns)) == (After(args, ns, |args|).(found := []), Visits(args, ns))
  {
    var sts := States(args, ns);
    forall c | 0 <= c < |args|
      ensures Steps(sts, EventParts(args, ns), Parts(args, ns), c)
    {
      ArgSteps(args, ns, c);
    }
    RunsJoin(sts, EventParts(args, ns), Parts(args, ns), |args|);
  }

  lemma {:induction false} PassEventsOfMembers(st: State, ar: Archive, j: nat)
    requires Good(st) && Readable(ar) && j <= |ar.toc|
    ensures LoadableFiles(PassEvents(st, ar, j))
    decreases |ar.toc| - j
  {
    if j < |ar.toc| {
      if Promising(st.es, ar.toc[j].name) {
        StepGrows(st, ar, ar.toc[j].off);
        PassEventsOfMembers(Step(st, ar, ar.toc[j].off), ar, SkipSame(ar.toc, j));
      } else {
        PassEventsOfMembers(st, ar, j + 1);
      }
    }
  }

  lemma {:induction false} PassesEventsOfMembers(st: State, ar: Archive, n: nat)
    requires Good(st) && Readable(ar)
    ensures LoadableFiles(PassesEvents(st, ar, n))
    decreases n
  {
    if n > 0 {
      PassesEventsOfMembers(st, ar, n - 1);
      PassEventsOfMembers(AfterPasses(st, ar, n - 1), ar, 0);
    }
  }

  lemma ArgLoadable(st: State, arg: Arg, n: nat)
    requires Good(st) && GivenArg(arg) && EndedAt(st, arg, n)
    ensures LoadableFiles(ArgEvents(st, arg, n))
  {
    if arg.Lib? {
      PassesEventsOfMembers(st, arg.ar, n);
    }
  }

  lemma {:induction false} FinishedAt(args: seq<Arg>, ns: seq<nat>, i: nat, c: nat)
    requires Given(args) && c < i <= |args| && i <= |ns| && Finished(args, ns, i)
    ensures EndedAt(After(args, ns, c), args[c], ns[c])
    decreases i
  {
    if c < i - 1 {
      FinishedAt(args, ns, i - 1, c);
    }
  }

  lemma {:induction false} LoadableJoined(parts: seq<seq<Event>>, n: nat)
    requires n <= |parts| && forall c :: 0 <= c < n ==> LoadableFiles(parts[c])
    ensures LoadableFiles(JoinedEvents(parts, n))
    decreases n
  {
    if n > 0 {
      LoadableJoined(parts, n - 1);
      assert LoadableFiles(parts[n - 1]);
    }
  }

  lemma FilesLoadable(args: seq<Arg>, ns: seq<nat>)
    requires Given(args) && |ns| == |args| && Finished(args, ns, |args|)
    ensures LoadableFiles(Events(args, ns))
  {
    forall c | 0 <= c < |args|
      ensures LoadableFiles(EventParts(args, ns)[c])
    {
      assert GivenArg(args[c]);
      FinishedAt(args, ns, |args|, c);
      ArgLoadable(After(args, ns, c), args[c], ns[c]);
    }
    LoadableJoined(EventParts(args, ns), |args|);
  }

  // ----- every name that the second pass looks up is in the table -----

  lemma {:induction false} EnterAllKnows(es: seq<Entry>, syms: seq<ModSym>, r: Rel, n: nat, k: nat)
    requires Unique(es) && n <= k < |syms| && syms[k].ext
    ensures var es' := EnterAll(es, syms, r, n).0; IndexOf(es', syms[k].name) < |es'|
    decreases |syms| - n
  {
    if syms[n].ext {
      var es1 := Enter1(es, Relocated(syms[n], r)).0;
      Enter1Grows(es, Relocated(syms[n], r));
      if n < k {
        EnterAllKnows(es1, syms, r, n + 1, k);
      } else {
        EnterAllGrows(es1, syms, r, n + 1);
        Enter1Knows(es, Relocated(syms[n], r));
        KnownStays(es1, EnterAll(es1, syms, r, n + 1).0, syms[n].name);
      }
    } else {
      EnterAllKnows(es, syms, r, n + 1, k);
    }
  }

  lemma Enter1Knows(es: seq<Entry>, e: Entry)
    requires Unique(es)
    ensures IndexOf(Enter1(es, e).0, e.name) < |Enter1(es, e).0|
  {
    var es1, i := Enter1(es, e).0, IndexOf(es, e.name);
    assert es1[i].name == e.name;
  }

  lemma KnownStays(es0: seq<Entry>, es1: seq<Entry>, name: Name)
    requires Le(es0, es1) && IndexOf(es0, name) < |es0|
    ensures IndexOf(es1, name) < |es1|
  {
    assert es1[IndexOf(es0, name)].name == name;
  }

  lemma Load1Knows(st: State, m: Module)
    requires Good(st) && (m.syms == [] || Load1(st, m, false).1)
    ensures m.syms != [] ==> NamesKnown(EnterAll(st.es, m.syms, Pass1Rel(st, m), 0).0, m, |m.syms|)
  {
    forall k | 0 <= k < |m.syms| && m.syms[k].ext
      ensures var es := EnterAll(st.es, m.syms, Pass1Rel(st, m), 0).0; IndexOf(es, m.syms[k].name) < |es|
    {
      EnterAllKnows(st.es, m.syms, Pass1Rel(st, m), 0, k);
    }
  }

  lemma NamesStayKnown(es0: seq<Entry>, es1: seq<Entry>, m: Module)
    requires Le(es0, es1) && NamesKnown(es0, m, |m.syms|)
    ensures NamesKnown(es1, m, |m.syms|)
  {
    forall k | 0 <= k < |m.syms| && m.syms[k].ext
      ensures IndexOf(es1, m.syms[k].name) < |es1|
    {
      KnownStays(es0, es1, m.syms[k].name);
    }
  }

  /** "internal error: symbol not found" is never reached: the table knows every name of the modules visited. */
  lemma {:induction false} VisitedNamesKnown(st: State, evs: seq<Event>, j: nat)
    requires Good(st) && j < |Run(st, evs).1|
    ensures NamesKnown(Run(st, evs).0.es, Run(st, evs).1[j], |Run(st, evs).1[j].syms|)
    decreases |evs|
  {
    var m, lib := evs[0].m, evs[0].lib;
    Load1Grows(st, m, lib);
    var (st1, kept) := Load1(st, m, lib);
    if j == 0 && (kept || !lib) {
      Load1Knows(st, m);
      RunGrows(st1, evs[1..]);
      NamesStayKnown(st1.es, Run(st1, evs[1..]).0.es, m);
    } else {
      VisitedNamesKnown(st1, evs[1..], if kept || !lib then j - 1 else j);
    }
  }

  // ----- the passes in place -----

  /**
   The first pass cannot go on at an argument: a file with contents but
   no symbols, or a name that cannot be entered.
   */
  ghost predicate StopsAt(segs: seq<Seg>, arg: Arg)
    requires AllLinked(segs) && GivenArg(arg)
  {
    match arg
    case File(m) => !Loadable(m) || StuckOn(segs, m)
    case Lib(ar) => StuckIn(segs, ar)
  }

  ghost predicate Stops(segs: seq<Seg>, args: seq<Arg>)
    requires AllLinked(segs) && Given(args)
  {
    exists c :: 0 <= c < |args| && StopsAt(segs, args[c])
  }

  lemma StopsHere(segs: seq<Seg>, args: seq<Arg>, c: nat)
    requires AllLinked(segs) && Given(args) && c < |args| && GivenArg(args[c]) && StopsAt(segs, args[c])
    ensures Stops(segs, args)
  {
  }

  /** load1arg. */
  method Load1Arg(l: Linker, arg: Arg) returns (ok: bool, ghost n: nat)
    requires l.Valid() && GivenArg(arg)
    modifies l, l.tab
    ensures Good(old(l.St()))
    ensures ok ==> l.Valid() && l.St() == Next(old(l.St()), arg, n)
    ensures ok ==> EndedAt(old(l.St()), arg, n)
    ensures !ok ==> l.tab.Valid() && StopsAt(l.tab.segs, arg)
  {
    l.ValidIsGood();
    n := 0;
    match arg
    case File(m) =>
      var status := l.Load1(m, false);
      ok := status != Fatal;
    case Lib(ar) =>
      ok, n := l.SearchLibrary(ar);
  }

  /** The first pass is in state st after i arguments. */
  ghost predicate Reached(args: seq<Arg>, ns: seq<nat>, i: nat, st: State)
    requires Given(args) && i <= |args| && i <= |ns|
    decreases i
  {
    && st == After(args, ns, i) && Finished(args, ns, i)
    && (i > 0 ==> Reached(args, ns, i - 1, After(args, ns, i - 1)))
  }

  lemma ReachedStays(args: seq<Arg>, ns: seq<nat>, n: nat, i: nat, st: State)
    requires Given(args) && i <= |args| && i <= |ns| && Reached(args, ns, i, st)
    ensures Reached(args, ns + [n], i, st)
    decreases i
  {
    AfterPrefix(args, ns, n, i);
    if i > 0 {
      ReachedStays(args, ns, n, i - 1, After(args, ns, i - 1));
      AfterPrefix(args, ns, n, i - 1);
    }
  }

  lemma NextArg(args: seq<Arg>, ns: seq<nat>, n: nat, st: State, st': State)
    requires Given(args) && |ns| < |args| && Reached(args, ns, |ns|, st)
    requires EndedAt(st, args[|ns|], n) && st' == Next(st, args[|ns|], n)
    ensures Reached(args, ns + [n], |ns| + 1, st')
  {
    AfterPrefix(args, ns, n, |ns|);
    ReachedStays(args, ns, n, |ns|, st);
  }

  /** The body of the first pass's loop over the arguments. */
  method PassArg(l: Linker, args: seq<Arg>, c: nat, ghost ns: seq<nat>) returns (ok: bool, ghost ns': seq<nat>)
    requires Given(args) && c < |args| && |ns| == c && l.Valid() && Reached(args, ns, c, l.St())
    modifies l, l.tab
    ensures ok ==> |ns'| == c + 1 && l.Valid() && Reached(args, ns', c + 1, l.St())
    ensures !ok ==> l.tab.Valid() && Stops(l.tab.segs, args)
  {
    assert GivenArg(args[c]);
    ghost var n, st := 0, l.St();
    ok, n := Load1Arg(l, args[c]);
    ns' := ns + [n];
    if ok {
      NextArg(args, ns, n, st, l.St());
    } else {
      StopsHere(l.tab.segs, args, c);
    }
  }

  /** The loop of the first pass over the arguments. */
  method FirstPass(l: Linker, args: seq<Arg>) returns (ok: bool, ghost ns: seq<nat>)
    requires l.Valid() && l.St() == Start && Given(args)
    modifies l, l.tab
    ensures ok ==> |ns| == |args| && l.Valid() && l.St() == After(args, ns, |args|) && Finished(args, ns, |args|)
    ensures !ok ==> l.tab.Valid() && Stops(l.tab.segs, args)
  {
    ns := [];
    var c := 0;
    while c < |args|
      invariant 0 <= c <= |args| && |ns| == c && l.Valid() && Reached(args, ns, c, l.St())
    {
      ok, ns := PassArg(l, args, c, ns);
      if !ok {
        return;
      }
      c := c + 1;
    }
    ReachedMeans(args, ns, c, l.St());
    ok := true;
  }

  lemma ReachedMeans(args: seq<Arg>, ns: seq<nat>, i: nat, st: State)
    requires Given(args) && i <= |args| && i <= |ns| && Reached(args, ns, i, st)
    ensures st == After(args, ns, i) && Finished(args, ns, i)
  {
  }

  /** What the second pass finds out about a module at its origins: whether it has a definition that is reported. */
  ghost predicate Verdict(clash: bool, es: seq<Entry>, at: Origins, m: Module) {
    clash <==> ReportedUpTo(es, m, Pass2Rel(at, m), |m.syms|)
  }

  /** The second pass has read these modules, with these verdicts. */
  ghost predicate Visited(clashes: seq<bool>, es: seq<Entry>, o: Origins, ms: seq<Module>) {
    && |clashes| == |ms|
    && (ms != [] ==>
          var n := |ms| - 1;
          && Visited(clashes[..n], es, o, ms[..n])
          && Verdict(clashes[n], es, OriginsAt(o, ms[..n], n), ms[n]) && CanRead(es, ms[n], |ms[n].syms|))
  }

  lemma VisitedNext(clashes: seq<bool>, es: seq<Entry>, o: Origins, ms: seq<Module>, m: Module, clash: bool)
    requires Visited(clashes, es, o, ms) && CanRead(es, m, |m.syms|)
    requires Verdict(clash, es, OriginsAt(o, ms, |ms|), m)
    ensures Visited(clashes + [clash], es, o, ms + [m])
    ensures OriginsAt(o, ms + [m], |ms| + 1) == Advance(OriginsAt(o, ms, |ms|), m)
  {
    OriginsPrefix(o, ms, [m], |ms|);
    assert (ms + [m])[..|ms|] == ms && (clashes + [clash])[..|ms|] == clashes;
  }

  /** The verdict on module j is that of its own definitions at its own origins. */
  lemma {:induction false} VisitedAt(clashes: seq<bool>, es: seq<Entry>, o: Origins, ms: seq<Module>, j: nat)
    requires Visited(clashes, es, o, ms) && j < |ms|
    ensures Verdict(clashes[j], es, OriginsAt(o, ms, j), ms[j]) && CanRead(es, ms[j], |ms[j].syms|)
    decreases |ms|
  {
    var n := |ms| - 1;
    assert ms[..n] + ms[n..] == ms;
    OriginsPrefix(o, ms[..n], ms[n..], j);
    if j < n {
      VisitedAt(clashes[..n], es, o, ms[..n], j);
    }
  }

  /** The notes from p up to q are for one library: members, and -1 at the end. */
  ghost predicate ListsMembers(found: seq<int>, p: nat, q: nat, ar: Archive) {
    p < q <= |found| && found[q - 1] == -1 && forall i :: p <= i < q - 1 ==> found[i] != -1 && found[i] in ar.members
  }

  /** The search of a library adds offsets of its members to the notes. */
  lemma {:induction false} SearchNotes(st: State, ar: Archive, n: nat)
    requires Good(st) && Readable(ar)
    ensures Recorded(AfterPasses(st, ar, n), ar, |st.found|)
    ensures AfterPasses(st, ar, n).found[..|st.found|] == st.found
    decreases n
  {
    PassesLead(st, ar, n);
    if n > 0 {
      SearchNotes(st, ar, n - 1);
      PassRecordsOnce(AfterPasses(st, ar, n - 1), ar, 0, |st.found|);
    }
  }

  lemma NextNotes(st: State, arg: Arg, n: nat)
    requires Good(st) && GivenArg(arg)
    ensures var found := Next(st, arg, n).found;
      && |st.found| <= |found| && found[..|st.found|] == st.found
      && (if arg.Lib? then ListsMembers(found, |st.found|, |found|, arg.ar) else found == st.found)
  {
    if arg.Lib? {
      SearchNotes(st, arg.ar, n);
    }
  }

  /** Later arguments leave the notes of earlier ones. */
  lemma {:induction false} NotesStay(args: seq<Arg>, ns: seq<nat>, i: nat, j: nat)
    requires Given(args) && i <= j <= |args| && j <= |ns|
    ensures var (a, b) := (After(args, ns, i).found, After(args, ns, j).found);
      |a| <= |b| && b[..|a|] == a
    decreases j
  {
    if i < j {
      NotesStay(args, ns, i, j - 1);
      NextNotes(After(args, ns, j - 1), args[j - 1], ns[j - 1]);
      SubPrefix(After(args, ns, i).found, After(args, ns, j - 1).found, After(args, ns, j).found);
    }
  }

  lemma SubPrefix(a: seq<int>, b: seq<int>, c: seq<int>)
    requires |a| <= |b| <= |c| && b[..|a|] == a && c[..|b|] == b
    ensures c[..|a|] == a
  {
    assert c[..|a|] == c[..|b|][..|a|];
  }

  /** Where the notes of argument c are among those of all arguments. */
  ghost predicate NotesOf(found: seq<int>, p: nat, q: nat, arg: Arg, ms: seq<Module>) {
    && p <= q <= |found|
    && match arg
       case File(m) => q == p && ms == [m]
       case Lib(ar) => ListsMembers(found, p, q, ar) && ms == Members(ar, found[p..q - 1])
  }

  lemma NotesAt(args: seq<Arg>, ns: seq<nat>, c: nat)
    requires Given(args) && c < |args| && |ns| == |args|
    ensures var (st, st') := (After(args, ns, c), After(args, ns, c + 1));
      NotesOf(After(args, ns, |args|).found, |st.found|, |st'.found|, args[c], NotedAt(args, ns, c))
  {
    var st, all := After(args, ns, c), After(args, ns, |args|).found;
    NotesStay(args, ns, c + 1, |args|);
    NextWithin(st, args[c], ns[c], all);
  }

  lemma NextWithin(st: State, arg: Arg, n: nat, all: seq<int>)
    requires Good(st) && GivenArg(arg)
    requires var part := Next(st, arg, n).found; |part| <= |all| && all[..|part|] == part
    ensures var part := Next(st, arg, n).found;
      NotesOf(all, |st.found|, |part|, arg, Noted(arg, part, |st.found|))
  {
    NextNotes(st, arg, n);
    NotesWithin(all, Next(st, arg, n).found, |st.found|, arg);
  }

  lemma NotesWithin(all: seq<int>, part: seq<int>, p: nat, arg: Arg)
    requires p <= |part| <= |all| && all[..|part|] == part
    requires if arg.Lib? then ListsMembers(part, p, |part|, arg.ar) else p == |part|
    ensures NotesOf(all, p, |part|, arg, Noted(arg, part, p))
  {
    forall i | 0 <= i < |part|
      ensures all[i] == part[i]
    {
      assert all[..|part|][i] == part[i];
    }
    if arg.Lib? {
      assert part[p..|part| - 1] == all[p..|part| - 1];
    }
  }

  ghost predicate LaidAt(found: seq<int>, args: seq<Arg>, ps: seq<nat>, parts: seq<seq<Module>>, c: nat) {
    c < |args| && c + 1 < |ps| && c < |parts| && NotesOf(found, ps[c], ps[c + 1], args[c], parts[c])
  }

  /** The notes of argument c begin at place ps[c] and are those of the modules parts[c]. */
  ghost predicate Laid(found: seq<int>, args: seq<Arg>, ps: seq<nat>, parts: seq<seq<Module>>) {
    |ps| == |args| + 1 && |parts| == |args| && forall c :: 0 <= c < |args| ==> LaidAt(found, args, ps, parts, c)
  }

  ghost function Places(args: seq<Arg>, ns: seq<nat>): (ps: seq<nat>)
    requires Given(args) && |ns| == |args|
    ensures |ps| == |args| + 1 && ps[0] == 0
  {
    seq(|args| + 1, c requires 0 <= c <= |args| => |After(args, ns, c).found|)
  }

  lemma NotesLaid(args: seq<Arg>, ns: seq<nat>)
    requires Given(args) && |ns| == |args|
    ensures Laid(After(args, ns, |args|).found, args, Places(args, ns), Parts(args, ns))
  {
    forall c | 0 <= c < |args|
      ensures LaidAt(After(args, ns, |args|).found, args, Places(args, ns), Parts(args, ns), c)
    {
      NotesAt(args, ns, c);
    }
  }

  /** Some module cannot be read in the second pass. */
  ghost predicate SomeUnread(es: seq<Entry>, ms: seq<Module>) {
    exists j :: 0 <= j < |ms| && !CanRead(es, ms[j], |ms[j].syms|)
  }

  /** The second pass: load2 and its loops over the arguments, for the symbols. */
  class SecondPass {
    const loader: Loader
    const found: seq<int>
    ghost const o: Origins
    var torigin: int
    var dorigin: int
    var borigin: int
    /** The place in the notes. */
    var libp: nat
    var clashes: seq<bool>

    constructor (l: Loader, notes: seq<int>, origins: Origins)
      ensures loader == l && found == notes && o == origins == At() && libp == 0 && clashes == []
    {
      loader, found, o := l, notes, origins;
      torigin, dorigin, borigin := origins.t, origins.d, origins.b;
      libp, clashes := 0, [];
    }

    ghost function At(): Origins
      reads this`torigin, this`dorigin, this`borigin
    {
      Origins(torigin, dorigin, borigin)
    }

    /** The table holds the symbols es, and the modules ms have been visited. */
    ghost predicate Has(es: seq<Entry>, ms: seq<Module>)
      reads this`torigin, this`dorigin, this`borigin, this`clashes, loader, loader.tab
    {
      && loader.tab.Valid() && loader.tab.Entries() == es && loader.lochash.Length == LHSIZ
      && Visited(clashes, es, o, ms) && At() == OriginsAt(o, ms, |ms|)
    }

    /** load2's last steps: go past the module. */
    method GoPast(m: Module, clash: bool, ghost es: seq<Entry>, ghost ms: seq<Module>)
      requires Visited(clashes, es, o, ms) && At() == OriginsAt(o, ms, |ms|)
      requires CanRead(es, m, |m.syms|) && Verdict(clash, es, At(), m)
      modifies this
      ensures libp == old(libp)
      ensures Visited(clashes, es, o, ms + [m]) && At() == OriginsAt(o, ms + [m], |ms| + 1)
    {
      VisitedNext(clashes, es, o, ms, m, clash);
      clashes := clashes + [clash];
      torigin := torigin + m.text;
      dorigin := dorigin + RoundUp(m.data, 4);
      borigin := borigin + RoundUp(m.bss, 4);
    }

    /** load2: read the symbols of one module and go past it. */
    method Load2(m: Module, ghost es: seq<Entry>, ghost ms: seq<Module>) returns (ok: bool)
      requires Has(es, ms)
      modifies this, loader, loader.tab, loader.lochash
      ensures libp == old(libp)
      ensures if ok then Has(es, ms + [m]) else !CanRead(es, m, |m.syms|)
    {
      var clash, r := false, Rel(torigin, dorigin - m.dataAt, borigin - m.dataAt - m.data);
      assert r == Pass2Rel(At(), m);
      ok, clash := loader.ReadSymbols(m, r);
      if ok {
        GoPast(m, clash, es, ms);
      }
    }

    /** The loop of load2arg over the members noted for a library. */
    method Load2Members(ar: Archive, ghost q: nat, ghost es: seq<Entry>, ghost ms: seq<Module>) returns (ok: bool)
      requires Has(es, ms) && ListsMembers(found, libp, q, ar)
      modifies this, loader, loader.tab, loader.lochash
      ensures ok ==> libp == q && Has(es, ms + Members(ar, found[old(libp)..q - 1]))
      ensures !ok ==> SomeUnread(es, Members(ar, found[old(libp)..q - 1]))
    {
      ghost var p := libp;
      MembersStart(ar, found, p, ms);
      while found[libp] != -1
        invariant p <= libp <= q - 1 && Has(es, ms + Members(ar, found[p..libp]))
        decreases q - libp
      {
        ok := Load2Member(ar, p, q, es, ms);
        if !ok {
          return;
        }
      }
      libp := libp + 1;
      ok := true;
    }

    /** The body of that loop. */
    method Load2Member(ar: Archive, ghost p: nat, ghost q: nat, ghost es: seq<Entry>, ghost ms: seq<Module>)
      returns (ok: bool)
      requires ListsMembers(found, p, q, ar) && p <= libp < q - 1 && Has(es, ms + Members(ar, found[p..libp]))
      modifies this, loader, loader.tab, loader.lochash
      ensures libp == old(libp) + 1
      ensures ok ==> Has(es, ms + Members(ar, found[p..libp]))
      ensures !ok ==> SomeUnread(es, Members(ar, found[p..q - 1]))
    {
      ghost var i := libp;
      MembersNext(ar, found, p, i, q, ms);
      ghost var visited, after := ms + Members(ar, found[p..i]), ms + Members(ar, found[p..i + 1]);
      var loc := found[libp];
      assert visited + [ar.members[loc]] == after;
      libp := libp + 1;
      ok := Load2(ar.members[loc], es, visited);
    }

    /** load2arg. */
    method Load2Arg(arg: Arg, ghost q: nat, ghost es: seq<Entry>, ghost ms: seq<Module>, ghost ms': seq<Module>)
      returns (ok: bool)
      requires Has(es, ms) && NotesOf(found, libp, q, arg, ms')
      modifies this, loader, loader.tab, loader.lochash
      ensures ok ==> libp == q && Has(es, ms + ms')
      ensures !ok ==> SomeUnread(es, ms')
    {
      match arg
      case File(m) =>
        assert ms'[0] == m;
        ok := Load2(m, es, ms);
      case Lib(ar) =>
        ok := Load2Members(ar, q, es, ms);
    }

    /** The loop of the second pass over the arguments. */
    method LoadAll(args: seq<Arg>, ghost ps: seq<nat>, ghost parts: seq<seq<Module>>, ghost es: seq<Entry>)
      returns (ok: bool)
      requires Laid(found, args, ps, parts) && Has(es, []) && libp == ps[0]
      modifies this, loader, loader.tab, loader.lochash
      ensures ok ==> Has(es, Joined(parts, |args|))
      ensures !ok ==> SomeUnread(es, Joined(parts, |args|))
    {
      var c := 0;
      while c < |args|
        invariant 0 <= c <= |args| && libp == ps[c] && Has(es, Joined(parts, c))
      {
        assert LaidAt(found, args, ps, parts, c);
        ok := Load2Arg(args[c], ps[c + 1], es, Joined(parts, c), parts[c]);
        if !ok {
          UnreadStays(es, parts, c, |args|);
          return;
        }
        c := c + 1;
      }
      ok := true;
    }
  }

  lemma MembersStart(ar: Archive, found: seq<int>, p: nat, ms: seq<Module>)
    requires p <= |found|
    ensures ms + Members(ar, found[p..p]) == ms
  {
  }

  /** One member more. */
  lemma MembersNext(ar: Archive, found: seq<int>, p: nat, i: nat, q: nat, ms: seq<Module>)
    requires p <= i < q - 1 && ListsMembers(found, p, q, ar)
    ensures ms + Members(ar, found[p..i]) + [ar.members[found[i]]] == ms + Members(ar, found[p..i + 1])
    ensures i - p < |Members(ar, found[p..q - 1])| && Members(ar, found[p..q - 1])[i - p] == ar.members[found[i]]
  {
    assert found[p..i + 1] == found[p..i] + [found[i]];
    MembersConcat(ar, found[p..i], [found[i]]);
    assert Members(ar, [found[i]]) == [ar.members[found[i]]] by {
      assert [found[i]][1..] == [];
    }
    assert found[p..q - 1] == found[p..i + 1] + found[i + 1..q - 1];
    MembersConcat(ar, found[p..i + 1], found[i + 1..q - 1]);
  }

  lemma UnreadIn(es: seq<Entry>, a: seq<Module>, b: seq<Module>)
    requires SomeUnread(es, a) || SomeUnread(es, b)
    ensures SomeUnread(es, a + b)
  {
    if SomeUnread(es, a) {
      var j :| 0 <= j < |a| && !CanRead(es, a[j], |a[j].syms|);
      assert (a + b)[j] == a[j];
    } else {
      var j :| 0 <= j < |b| && !CanRead(es, b[j], |b[j].syms|);
      assert (a + b)[|a| + j] == b[j];
    }
  }

  /** A module that cannot be read is still there when more parts have been joined. */
  lemma {:induction false} UnreadStays(es: seq<Entry>, parts: seq<seq<Module>>, c: nat, n: nat)
    requires c < n <= |parts| && SomeUnread(es, parts[c])
    ensures SomeUnread(es, Joined(parts, n))
    decreases n
  {
    if c < n - 1 {
      UnreadStays(es, parts, c, n - 1);
    }
    UnreadIn(es, Joined(parts, n - 1), parts[n - 1]);
  }

  // ----- both passes -----

  /** How linking ends: with the verdicts on the modules loaded, or early. */
  datatype Result = Linked(clashes: seq<bool>) | FirstPassStops | MiddleStops | TooManyLocals

  /** The symbols after the first pass. */
  ghost function Symbols(args: seq<Arg>, ns: seq<nat>): State
    requires Given(args) && |ns| == |args|
  {
    After(args, ns, |args|)
  }

  /** Every name of the modules visited is in the table that middle leaves. */
  lemma NamesKnownAfterMiddle(args: seq<Arg>, ns: seq<nat>, opts: Options, j: nat)
    requires Given(args) && |ns| == |args| && opts.pagesize > 0 && j < |Visits(args, ns)|
    ensures var m := Visits(args, ns)[j];
      NamesKnown(Layout.Middle(Symbols(args, ns), opts).es, m, |m.syms|)
  {
    var st, m := Symbols(args, ns), Visits(args, ns)[j];
    FirstPassIsRun(args, ns);
    VisitedNamesKnown(Start, Events(args, ns), j);
    MiddleNames(st, opts);
    forall k | 0 <= k < |m.syms| && m.syms[k].ext
      ensures IndexOf(Layout.Middle(st, opts).es, m.syms[k].name) < |Layout.Middle(st, opts).es|
    {
      assert IndexOf(st.es, m.syms[k].name) < |st.es|;
    }
  }

  /** Some module visited has more undefined symbols than the second pass can remember. */
  ghost predicate TooMany(ms: seq<Module>) {
    exists j :: 0 <= j < |ms| && UndefinedOf(ms[j], |ms[j].syms|) > NSEG * NSYMPR
  }

  lemma UnreadMeansTooMany(args: seq<Arg>, ns: seq<nat>, opts: Options)
    requires Given(args) && |ns| == |args| && opts.pagesize > 0
    requires SomeUnread(Layout.Middle(Symbols(args, ns), opts).es, Visits(args, ns))
    ensures TooMany(Visits(args, ns))
  {
    var es, ms := Layout.Middle(Symbols(args, ns), opts).es, Visits(args, ns);
    var j :| 0 <= j < |ms| && !CanRead(es, ms[j], |ms[j].syms|);
    NamesKnownAfterMiddle(args, ns, opts, j);
  }

  /**
   The linker's passes over its arguments. When they end well, the second pass has visited the
   modules that the first one kept, with the verdicts of the layout that middle fixed, and the table
   holds the symbols of that layout; they end early only when a name cannot be looked up or a module
   has too many undefined symbols.
   */
  method Link(args: seq<Arg>, opts: Options) returns (r: Result, l: Linker, ghost ns: seq<nat>)
    requires Given(args) && opts.pagesize > 0
    ensures r.FirstPassStops? ==> l.tab.Valid() && Stops(l.tab.segs, args)
    ensures r.MiddleStops? ==> l.tab.Valid() && StuckLoaderSymbol(l.tab.segs)
    ensures r.Linked? || r.TooManyLocals? ==> |ns| == |args| && Finished(args, ns, |args|)
    ensures r.TooManyLocals? ==> TooMany(Visits(args, ns))
    ensures r.Linked? ==> var p := Layout.Middle(Symbols(args, ns), opts);
      && Visited(r.clashes, p.es, p.origins, Visits(args, ns))
      && l.tab.Valid() && l.tab.Entries() == p.es
  {
    l := new Linker();
    var ok;
    ok, ns := FirstPass(l, args);
    if !ok {
      return FirstPassStops, l, ns;
    }
    ghost var st := l.St();
    l.ValidIsGood();
    var planner := new Planner(l.tab, opts);
    ok := planner.Middle(l.tsize, l.dsize, l.bsize, opts.textbase, opts.pagesize, st);
    if !ok {
      return MiddleStops, l, ns;
    }
    var clashes;
    ok, clashes := PassOver(l.tab, args, l.found, Origins(planner.torigin, planner.dorigin, planner.borigin), ns);
    if !ok {
      UnreadMeansTooMany(args, ns, opts);
      return TooManyLocals, l, ns;
    }
    return Linked(clashes), l, ns;
  }

  /** The second pass over all arguments. */
  method PassOver(tab: SymTab, args: seq<Arg>, found: seq<int>, o: Origins, ghost ns: seq<nat>)
    returns (ok: bool, clashes: seq<bool>)
    requires tab.Valid() && Given(args) && |ns| == |args| && found == After(args, ns, |args|).found
    modifies tab
    ensures ok ==> Visited(clashes, old(tab.Entries()), o, Visits(args, ns))
    ensures ok ==> tab.Valid() && tab.Entries() == old(tab.Entries())
    ensures !ok ==> SomeUnread(old(tab.Entries()), Visits(args, ns))
  {
    NotesLaid(args, ns);
    var loader := new Loader(tab);
    var second := new SecondPass(loader, found, o);
    ok := second.LoadAll(args, Places(args, ns), Parts(args, ns), tab.Entries());
    clashes := second.clashes;
  }

  /** middle does not look at the notes. */
  lemma MiddleWithoutNotes(st: State, opts: Options)
    requires Good(st) && opts.pagesize > 0
    ensures Layout.Middle(st.(found := []), opts) == Layout.Middle(st, opts)
  {
  }

  lemma SoleDefinitionInRun(evs: seq<Event>, st: State, ms: seq<Module>, opts: Options, pre: seq<Event>, ev: Event,
        post: seq<Event>, k: nat)
    requires Good(Start) && Good(st) && LoadableFiles(evs) && opts.pagesize > 0
    requires Run(Start, evs).0 == st.(found := []) && Run(Start, evs).1 == ms
    requires evs == pre + [ev] + post && SoleDefinition(Start, pre, ev, post, k)
    ensures ReportedRight(Layout.Middle(st, opts), ms, |Run(Start, pre).1|, ev.m, k, Run(Start, pre).0, Uncounted(pre))
  {
    assert pre + [ev] + post == pre + ([ev] + post);
    LoadablePrefix(pre, [ev] + post, evs);
    MiddleWithoutNotes(st, opts);
    SoleDefinitionReportedIff(Start, pre, ev, post, k, opts);
  }

  lemma SoleValueInRun(evs: seq<Event>, st: State, ms: seq<Module>, opts: Options, pre: seq<Event>, ev: Event,
        post: seq<Event>, k: nat)
    requires Good(Start) && Good(st) && LoadableFiles(evs) && opts.pagesize > 0
    requires Run(Start, evs).0 == st.(found := []) && Run(Start, evs).1 == ms
    requires evs == pre + [ev] + post && SoleDefinition(Start, pre, ev, post, k)
    requires !TextOverCommon(Run(Start, pre).0, ev.m, k)
    ensures ValueRight(Layout.Middle(st, opts), ms, |Run(Start, pre).1|, ev.m, k, Uncounted(pre))
  {
    assert pre + [ev] + post == pre + ([ev] + post);
    LoadablePrefix(pre, [ev] + post, evs);
    MiddleWithoutNotes(st, opts);
    assert Layout.Middle(Run(Start, pre + [ev] + post).0, opts) == Layout.Middle(st, opts);
    Layout.SoleDefinitionValue(Start, pre, ev, post, k, opts);
  }

  /**
   The final value of the one definition of a name: the address of its place in its module's segment,
   where the second pass comes past the module.
   */
  lemma SoleDefinitionValue(args: seq<Arg>, ns: seq<nat>, opts: Options, pre: seq<Event>, ev: Event, post: seq<Event>,
        k: nat)
    requires Given(args) && |ns| == |args| && Finished(args, ns, |args|) && opts.pagesize > 0
    requires Good(Start) && Events(args, ns) == pre + [ev] + post && SoleDefinition(Start, pre, ev, post, k)
    requires !TextOverCommon(Run(Start, pre).0, ev.m, k)
    ensures ValueRight(Layout.Middle(Symbols(args, ns), opts), Visits(args, ns), |Run(Start, pre).1|, ev.m, k,
                       Uncounted(pre))
  {
    FirstPassIsRun(args, ns);
    FilesLoadable(args, ns);
    SoleValueInRun(Events(args, ns), Symbols(args, ns), Visits(args, ns), opts, pre, ev, post, k);
  }

  /**
   The linker's answer on the one definition of a name: the second pass comes past it at the module
   that defines it, and reports it exactly in the two cases of Layout.SoleDefinitionReportedIff.
   */
  lemma SoleDefinitionVerdict(args: seq<Arg>, ns: seq<nat>, opts: Options, pre: seq<Event>, ev: Event, post: seq<Event>,
        k: nat)
    requires Given(args) && |ns| == |args| && Finished(args, ns, |args|) && opts.pagesize > 0
    requires Good(Start) && Events(args, ns) == pre + [ev] + post && SoleDefinition(Start, pre, ev, post, k)
    ensures ReportedRight(Layout.Middle(Symbols(args, ns), opts), Visits(args, ns), |Run(Start, pre).1|, ev.m, k,
                          Run(Start, pre).0, Uncounted(pre))
  {
    FirstPassIsRun(args, ns);
    FilesLoadable(args, ns);
    SoleDefinitionInRun(Events(args, ns), Symbols(args, ns), Visits(args, ns), opts, pre, ev, post, k);
  }

  lemma LoadablePrefix(pre: seq<Event>, post: seq<Event>, evs: seq<Event>)
    requires LoadableFiles(evs) && evs == pre + post
    ensures LoadableFiles(pre)
  {
    forall i | 0 <= i < |pre| && !pre[i].lib
      ensures Loadable(pre[i].m)
    {
      assert evs[i] == pre[i];
    }
  }
}
