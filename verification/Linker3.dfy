/**
 The linker's second pass over one module, in place: the table of local symbols,
 the check for multiple definitions, and the patching of a segment.
 */
module Linker3 {
  import opened Bytes
  import opened SymbolTable
  import opened LinkTable
  import opened Pass1
  import opened Layout
  import opened Linker1
  import opened Relocation
  import opened Words

  const LHSIZ: nat := 31
  const NSYMPR: nat := 100

  /** A local symbol: its number in the module, its index in the symbol table, the next in its hash chain. */
  datatype Local = Local(index: nat, sym: nat, link: int)

  /** Chains run towards older entries. */
  ghost predicate LinksBack(locals: seq<Local>) {
    forall p :: 0 <= p < |locals| ==> -1 <= locals[p].link < p
  }

  /** The symbol the chain from p gives for number x, or -1. */
  function ChainFind(locals: seq<Local>, p: int, x: nat): int
    requires LinksBack(locals) && -1 <= p < |locals|
    decreases p + 1
  {
    if p == -1 then -1
    else if locals[p].index == x then locals[p].sym
    else ChainFind(locals, locals[p].link, x)
  }

  lemma {:induction false} ChainGrow(locals: seq<Local>, l: Local, p: int, x: nat)
    requires LinksBack(locals) && LinksBack(locals + [l]) && -1 <= p < |locals|
    ensures ChainFind(locals + [l], p, x) == ChainFind(locals, p, x)
    decreases p + 1
  {
    if p != -1 {
      ChainGrow(locals, l, locals[p].link, x);
    }
  }

  /** Hash heads and chained entries that never lead outside. */
  ghost predicate Chains(heads: seq<int>, locals: seq<Local>) {
    |heads| == LHSIZ && LinksBack(locals) && forall b :: 0 <= b < LHSIZ ==> -1 <= heads[b] < |locals|
  }

  /** What the chain of number x gives for it. */
  function Answer(heads: seq<int>, locals: seq<Local>, x: nat): int
    requires Chains(heads, locals)
  {
    ChainFind(locals, heads[x % LHSIZ], x)
  }

  /** heads and locals give every one of the module's first n symbols that is undefined its table index. */
  ghost predicate Knows(heads: seq<int>, locals: seq<Local>, m: Module, es: seq<Entry>, n: nat) {
    && Chains(heads, locals)
    && forall x: nat {:trigger Answer(heads, locals, x)} ::
         Answer(heads, locals, x) == if x < n then LocalSymbol(m, es, x) else -1
  }

  /** Linking symbol n in front of its chain. */
  lemma KnowsAdd(heads: seq<int>, locals: seq<Local>, m: Module, es: seq<Entry>, n: nat)
    requires Knows(heads, locals, m, es, n) && LocalSymbol(m, es, n) != -1
    ensures var b := n % LHSIZ;
      Knows(heads[b := |locals|], locals + [Local(n, LocalSymbol(m, es, n), heads[b])], m, es, n + 1)
  {
    var b := n % LHSIZ;
    var l := Local(n, LocalSymbol(m, es, n), heads[b]);
    var locals', heads' := locals + [l], heads[b := |locals|];
    forall x: nat
      ensures Answer(heads', locals', x) == if x < n + 1 then LocalSymbol(m, es, x) else -1
    {
      assert Answer(heads, locals, x) == if x < n then LocalSymbol(m, es, x) else -1;
      ChainGrow(locals, l, heads[x % LHSIZ], x);
    }
  }

  lemma KnowsSkip(heads: seq<int>, locals: seq<Local>, m: Module, es: seq<Entry>, n: nat)
    requires Knows(heads, locals, m, es, n) && LocalSymbol(m, es, n) == -1
    ensures Knows(heads, locals, m, es, n + 1)
  {
    forall x: nat
      ensures Answer(heads, locals, x) == if x < n + 1 then LocalSymbol(m, es, x) else -1
    {
    }
  }

  /** A definition among the first n symbols is reported as multiply defined. */
  ghost predicate ReportedUpTo(es: seq<Entry>, m: Module, r: Rel, n: nat)
    requires n <= |m.syms|
  {
    exists k :: 0 <= k < n && Defines(m.syms[k]) && Reported(es, m.syms[k], r)
  }

  lemma ReportedNext(es: seq<Entry>, m: Module, r: Rel, n: nat)
    requires n < |m.syms|
    ensures ReportedUpTo(es, m, r, n + 1)
      <==> ReportedUpTo(es, m, r, n) || (Defines(m.syms[n]) && Reported(es, m.syms[n], r))
  {
  }

  /** How many of the first n symbols are external and undefined. */
  function UndefinedOf(m: Module, n: nat): (c: nat)
    requires n <= |m.syms|
    ensures c <= n
  {
    if n == 0 then 0 else UndefinedOf(m, n - 1) + if m.syms[n - 1].ext && m.syms[n - 1].kind == Undf then 1 else 0
  }

  lemma {:induction false} UndefinedGrows(m: Module, i: nat, n: nat)
    requires i <= n <= |m.syms|
    ensures UndefinedOf(m, i) <= UndefinedOf(m, n)
  {
    if i < n {
      UndefinedGrows(m, i, n - 1);
    }
  }

  /** What cannot be read so far cannot be read to the end. */
  lemma StillUnread(es: seq<Entry>, m: Module, n: nat)
    requires n <= |m.syms| && !CanRead(es, m, n)
    ensures !CanRead(es, m, |m.syms|)
  {
    UndefinedGrows(m, n, |m.syms|);
  }

  /** The external names among the first n symbols are in the table. */
  ghost predicate NamesKnown(es: seq<Entry>, m: Module, n: nat)
    requires n <= |m.syms|
  {
    forall k :: 0 <= k < n && m.syms[k].ext ==> IndexOf(es, m.syms[k].name) < |es|
  }

  /** What the symbols of a module must be for load2 to read them all. */
  ghost predicate CanRead(es: seq<Entry>, m: Module, n: nat)
    requires n <= |m.syms|
  {
    NamesKnown(es, m, n) && UndefinedOf(m, n) <= NSEG * NSYMPR
  }

  lemma CanReadNext(es: seq<Entry>, m: Module, n: nat)
    requires n < |m.syms| && CanRead(es, m, n) && UndefinedOf(m, n) < NSEG * NSYMPR
    requires m.syms[n].ext && m.syms[n].kind == Undf && IndexOf(es, m.syms[n].name) < |es|
    ensures CanRead(es, m, n + 1) && UndefinedOf(m, n + 1) == UndefinedOf(m, n) + 1
  {
  }

  class Loader {
    const tab: SymTab
    const lochash: array<int>
    var locals: seq<Local>

    /** The module's symbols have been read: the table holds the final symbols, and the local symbols lead to them. */
    ghost predicate Ready(env: Env)
      reads this, tab, lochash
    {
      tab.Valid() && tab.Entries() == env.es && Knows(lochash[..], locals, env.m, env.es, |env.m.syms|)
    }

    constructor (t: SymTab)
      ensures tab == t && lochash.Length == LHSIZ && fresh(lochash) && locals == []
    {
      tab := t;
      lochash := new int[LHSIZ](_ => -1);
      locals := [];
    }

    /** The lookup of an external symbol in pass 2: it must be there. */
    method MustFind(name: Name) returns (x: int)
      requires tab.Valid()
      modifies tab
      ensures tab.Valid() && tab.Entries() == old(tab.Entries())
      ensures var es := tab.Entries();
        x == if IndexOf(es, name) < |es| then IndexOf(es, name) else -1
    {
      var hp := tab.Lookup(name);
      FindIsIndexOf(tab.segs, tab.cseg, tab.next, name);
      if !hp.Found? {
        return -1;
      }
      x := Symx(SlotIn(tab.segs, hp));
    }

    /** Remember that the module's symbol number n is table entry x. */
    method AddLocal(n: nat, x: nat, ghost m: Module, ghost es: seq<Entry>) returns (ok: bool)
      requires Knows(lochash[..], locals, m, es, n) && x == LocalSymbol(m, es, n) && |locals| <= NSEG * NSYMPR
      modifies this, lochash
      ensures ok <==> old(|locals|) < NSEG * NSYMPR
      ensures ok ==> Knows(lochash[..], locals, m, es, n + 1) && |locals| == old(|locals|) + 1
    {
      if |locals| == NSEG * NSYMPR {
        return false;
      }
      KnowsAdd(lochash[..], locals, m, es, n);
      var b := n % LHSIZ;
      locals := locals + [Local(n, x, lochash[b])];
      lochash[b] := |locals| - 1;
      return true;
    }

    /** Every chain of local symbols is empty. */
    method ForgetLocals(ghost m: Module, ghost es: seq<Entry>)
      requires lochash.Length == LHSIZ
      modifies this, lochash
      ensures Knows(lochash[..], locals, m, es, 0) && locals == []
    {
      for i := 0 to LHSIZ
        invariant forall b :: 0 <= b < i ==> lochash[b] == -1
      {
        lochash[i] := -1;
      }
      locals := [];
    }

    /** load2's loop after n symbols. */
    ghost predicate Reading(m: Module, r: Rel, es: seq<Entry>, n: nat, clash: bool)
      requires n <= |m.syms|
      reads this, lochash, tab
    {
      && tab.Valid() && tab.Entries() == es && Knows(lochash[..], locals, m, es, n)
      && CanRead(es, m, n) && |locals| == UndefinedOf(m, n) && (clash <==> ReportedUpTo(es, m, r, n))
    }

    /**
     load2's loop over the symbol table: the local symbols, and whether a definition clashes. It ends
     early exactly when a name is not in the table or too many symbols are undefined.
     */
    method ReadSymbols(m: Module, r: Rel) returns (ok: bool, clash: bool)
      requires tab.Valid() && lochash.Length == LHSIZ
      modifies this, lochash, tab
      ensures tab.Valid() && tab.Entries() == old(tab.Entries())
      ensures ok <==> CanRead(tab.Entries(), m, |m.syms|)
      ensures ok ==> Knows(lochash[..], locals, m, tab.Entries(), |m.syms|)
      ensures ok ==> (clash <==> ReportedUpTo(tab.Entries(), m, r, |m.syms|))
    {
      ghost var es := tab.Entries();
      ForgetLocals(m, es);
      clash := false;
      var symno := 0;
      while symno < |m.syms|
        invariant 0 <= symno <= |m.syms| && Reading(m, r, es, symno, clash)
      {
        ok, clash := ReadSymbol(m, r, symno, clash, es);
        if !ok {
          StillUnread(es, m, symno + 1);
          return false, clash;
        }
        symno := symno + 1;
      }
      ok := true;
    }

    /** A symbol for which nothing is remembered. */
    lemma ReadPast(m: Module, r: Rel, es: seq<Entry>, n: nat, clash: bool, clash': bool)
      requires n < |m.syms| && Reading(m, r, es, n, clash)
      requires m.syms[n].ext ==> m.syms[n].kind != Undf && IndexOf(es, m.syms[n].name) < |es|
      requires clash' == (clash || (Defines(m.syms[n]) && Reported(es, m.syms[n], r)))
      ensures Reading(m, r, es, n + 1, clash')
    {
      KnowsSkip(lochash[..], locals, m, es, n);
      ReportedNext(es, m, r, n);
    }

    /** An undefined symbol that has just been remembered. */
    lemma ReadUndefined(m: Module, r: Rel, es: seq<Entry>, n: nat, clash: bool)
      requires n < |m.syms| && tab.Valid() && tab.Entries() == es && Knows(lochash[..], locals, m, es, n + 1)
      requires CanRead(es, m, n) && |locals| == UndefinedOf(m, n) + 1 <= NSEG * NSYMPR
      requires clash <==> ReportedUpTo(es, m, r, n)
      requires m.syms[n].ext && m.syms[n].kind == Undf && IndexOf(es, m.syms[n].name) < |es|
      ensures Reading(m, r, es, n + 1, clash)
    {
      ReportedNext(es, m, r, n);
      CanReadNext(es, m, n);
    }

    /** The body of that loop. */
    method ReadSymbol(m: Module, r: Rel, n: nat, clash: bool, ghost es: seq<Entry>) returns (ok: bool, clash': bool)
      requires n < |m.syms| && Reading(m, r, es, n, clash)
      modifies this, lochash, tab
      ensures tab.Valid() && tab.Entries() == es
      ensures if ok then Reading(m, r, es, n + 1, clash') else !CanRead(es, m, n + 1)
    {
      var s := m.syms[n];
      if !s.ext {
        ReadPast(m, r, es, n, clash, clash);
        return true, clash;
      }
      var x := MustFind(s.name);
      if x == -1 {
        return false, clash;
      }
      if s.kind == Undf {
        ok := AddLocal(n, x, m, es);
        if ok {
          ReadUndefined(m, r, es, n, clash);
        }
        return ok, clash;
      }
      clash' := clash || Differs(x, s, r);
      ReadPast(m, r, es, n, clash, clash');
      return true, clash';
    }

    /** The symbol's definition is not the one in the table. */
    function Differs(x: nat, s: ModSym, r: Rel): (b: bool)
      reads this, tab
      requires tab.Valid() && x == IndexOf(tab.Entries(), s.name) < |tab.Entries()|
      ensures b == Reported(tab.Entries(), s, r)
    {
      SlotOf(tab.segs, tab.cseg, tab.next, x);
      var sp, cursym := tab.Slot(Xsym(x)), Relocated(s, r);
      cursym.kind != sp.kind || cursym.value != sp.value
    }

    /** The search of the local symbols for a symbol number; -1 is "local symbol botch". */
    method SearchLocals(symnum: nat, ghost m: Module, ghost es: seq<Entry>) returns (x: int)
      requires Knows(lochash[..], locals, m, es, |m.syms|)
      ensures x == LocalSymbol(m, es, symnum)
    {
      ghost var answer := Answer(lochash[..], locals, symnum);
      var lp := lochash[symnum % LHSIZ];
      while lp != -1 && locals[lp].index != symnum
        invariant -1 <= lp < |locals|
        invariant ChainFind(locals, lp, symnum) == answer
        decreases lp + 1
      {
        lp := locals[lp].link;
      }
      return if lp == -1 then -1 else locals[lp].sym;
    }

    /** How load2td changes one word, and what becomes of the relocation; ok is false for a botch. */
    method Adjust(rp: Reloc, tw: int, r: Rel, creloc: int, nsym: nat, ghost env: Env)
      returns (ok: bool, tw': int, rp': Reloc)
      requires Ready(env)
      requires r == env.rel && creloc == env.creloc && nsym == env.nsym
      ensures ok <==> if rp.ext then LocalSymbol(env.m, env.es, rp.symnum) != -1
        else TypeBits(rp.symnum) in {NABS, NTEXT, NDATA, NBSS}
      ensures ok ==> tw' == tw + Delta(rp, env) && rp' == NewSymbol(rp, env)
    {
      tw', rp' := tw, rp;
      if rp.ext {
        var x := SearchLocals(rp.symnum, env.m, env.es);
        if x == -1 {
          return false, tw, rp;
        }
        SlotOf(tab.segs, tab.cseg, tab.next, x);
        var sp := tab.Slot(Xsym(x));
        if sp.kind == Undf {
          rp' := rp.(symnum := nsym + x);
        } else {
          rp' := rp.(symnum := TypeOf(sp.kind), ext := false);
          tw' := tw' + sp.value;
        }
      } else {
        var t := TypeBits(rp.symnum);
        if t == NTEXT {
          tw' := tw' + r.ct;
        } else if t == NDATA {
          tw' := tw' + r.cd;
        } else if t == NBSS {
          tw' := tw' + r.cb;
        } else if t != NABS {
          return false, tw, rp;
        }
      }
      if rp.pcrel {
        tw' := tw' - creloc;
      }
      ok := true;
    }

    /** The bytes of a field overwritten with a 32-bit number. */
    method Store(code: array<Byte>, a: nat, n: nat, v: int)
      requires (n == 1 || n == 2 || n == 4) && a + n <= code.Length
      modifies code
      ensures code[..] == Patch(old(code[..]), a, Encode(v, n))
    {
      var bs := Encode(v, n);
      for i := 0 to n
        invariant forall x :: 0 <= x < code.Length ==> code[x] == if a <= x < a + i then bs[x - a] else old(code[x])
      {
        code[a + i] := bs[i];
      }
      assert code[..] == Patch(old(code[..]), a, bs);
    }

    /** The body of load2td's loop: one relocation. */
    method RelocateOne(code: array<Byte>, rp: Reloc, r: Rel, creloc: int, nsym: nat, ghost env: Env)
      returns (ok: bool, over: bool, rp': Reloc)
      requires Ready(env)
      requires r == env.rel && creloc == env.creloc && nsym == env.nsym
      requires code as object != lochash && rp.address + Size(rp.length) <= code.Length
      modifies code
      ensures ok <==> Meaningful(rp, env, code.Length)
      ensures !ok ==> code[..] == old(code[..])
      ensures ok ==> code[..] == Relocate1(old(code[..]), rp, env) && rp' == NewSymbol(rp, env)
      ensures ok ==> (over <==> !Fits(NewWord(old(code[..]), rp, env), Size(rp.length)))
    {
      rp', over := rp, false;
      if rp.length > 2 {
        return false, false, rp;
      }
      var n := Size(rp.length);
      var tw := Decode(code[rp.address..rp.address + n]);
      assert tw == Field(code[..], rp) by {
        assert code[rp.address..rp.address + n] == code[..][rp.address..rp.address + n];
      }
      ok, tw, rp' := Adjust(rp, tw, r, creloc, nsym, env);
      if ok {
        tw := Wrap(tw, 4);
        over := !Fits(tw, n);
        Store(code, rp.address, n, tw);
      }
    }

    /** ... and the relocation itself, kept for the output. */
    method RelocateNext(code: array<Byte>, relp: array<Reloc>, n: nat, r: Rel, creloc: int, nsym: nat, rflag: bool,
          position: nat, over0: bool, ghost env: Env)
      returns (ok: bool, over: bool)
      requires Ready(env)
      requires env == Env(env.m, env.es, r, creloc, rflag, nsym, position)
      requires code as object != lochash && relp as object != code && relp as object != lochash
      requires n < relp.Length && relp[n].address + Size(relp[n].length) <= code.Length
      modifies code, relp
      ensures ok <==> Meaningful(old(relp[n]), env, code.Length)
      ensures ok ==> Round(old(relp[n]), n, env, old(code[..]), old(relp[..]), over0, code[..], relp[..], over)
    {
      var o, rp';
      ok, o, rp' := RelocateOne(code, relp[n], r, creloc, nsym, env);
      over := over0 || o;
      if ok {
        relp[n] := if rflag then rp'.(address := rp'.address + position) else rp';
      }
    }

    /** One round of load2td; the relocations still to come are as they were. */
    method LoadTurn(code: array<Byte>, relp: array<Reloc>, n: nat, r: Rel, creloc: int, nsym: nat, rflag: bool,
                    position: nat, over0: bool, ghost before: seq<Byte>, ghost rps: seq<Reloc>, ghost env: Env)
      returns (ok: bool, over: bool)
      requires Ready(env)
      requires env == Env(env.m, env.es, r, creloc, rflag, nsym, position)
      requires code as object != lochash && relp as object != code && relp as object != lochash
      requires n < relp.Length == |rps| && relp[n..] == rps[n..] && code.Length == |before|
      requires rps[n].address + Size(rps[n].length) <= code.Length
      requires AfterRounds(before, rps, env, code[..], relp[..], n, over0)
      modifies code, relp
      ensures ok <==> Meaningful(rps[n], env, |before|)
      ensures ok ==> relp[n + 1..] == rps[n + 1..] && AfterRounds(before, rps, env, code[..], relp[..], n + 1, over)
    {
      ghost var was, relocs := code[..], relp[..];
      assert relp[n] == relp[n..][0] == rps[n];
      ok, over := RelocateNext(code, relp, n, r, creloc, nsym, rflag, position, over0, env);
      if ok {
        AddRound(before, rps, env, was, relocs, n, over0, code[..], relp[..], over);
        RestKept(relocs, relp[..], rps, n, NewReloc(rps[n], env));
        assert relp[n + 1..] == relp[..][n + 1..];
      }
    }

    /**
     load2td: relocate a segment and, when relocations are kept, the relocations themselves, round by
     round (see AllRounds); it fails when some relocation cannot be carried out.
     */
    method Load2TD(code: array<Byte>, relp: array<Reloc>, r: Rel, creloc: int, nsym: nat, rflag: bool, position: nat,
          ghost env: Env)
      returns (ok: bool, over: bool)
      requires Ready(env)
      requires env == Env(env.m, env.es, r, creloc, rflag, nsym, position)
      requires code as object != lochash && relp as object != code && relp as object != lochash
      requires forall i :: 0 <= i < relp.Length ==> relp[i].address + Size(relp[i].length) <= code.Length
      modifies code, relp
      ensures ok ==> AfterRounds(old(code[..]), old(relp[..]), env, code[..], relp[..], relp.Length, over)
      ensures !ok ==> !AllMeaningful(old(relp[..]), env, 0, code.Length)
    {
      ghost var before, rps := code[..], relp[..];
      over := false;
      var n := 0;
      while n < relp.Length
        invariant Ready(env) && 0 <= n <= relp.Length && relp[n..] == rps[n..]
        invariant AfterRounds(before, rps, env, code[..], relp[..], n, over)
      {
        ok, over := LoadTurn(code, relp, n, r, creloc, nsym, rflag, position, over, before, rps, env);
        assert Ready(env);
        if !ok {
          return;
        }
        n := n + 1;
      }
      ok := true;
    }
  }

  /** A round changes one relocation, if any. */
  lemma RestKept(was: seq<Reloc>, now: seq<Reloc>, rps: seq<Reloc>, n: nat, r: Reloc)
    requires n < |was| == |rps| && was[n..] == rps[n..] && now == was[n := r]
    ensures now[n + 1..] == rps[n + 1..]
  {
    assert was[n..][1..] == rps[n..][1..];
  }
}
