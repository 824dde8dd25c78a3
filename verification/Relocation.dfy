/**
 Patching the text and data of a module: what each relocation does to its word,
 and what the patched words mean.
 */
module Relocation {
  import opened Bytes
  import opened Words
  import opened SymbolTable
  import opened Pass1
  import opened Layout
  import opened Probing

  // ----- words in a segment -----

  /** Bytes of a field by its r_length. */
  function Size(length: nat): nat {
    if length == 0 then 1 else if length == 1 then 2 else 4
  }

  /** r_length is the logarithm of the size. */
  lemma SizeIs(length: nat)
    requires length <= 2
    ensures Size(length) == TwoTo(length)
  {
    assert TwoTo(1) == 2;
  }

  function TwoTo(n: nat): nat {
    if n == 0 then 1 else 2 * TwoTo(n - 1)
  }

  lemma WrapAdd(v: int, d: int)
    ensures Wrap(Wrap(v, 4) + d, 4) == Wrap(v + d, 4)
  {
  }

  lemma WrapIdempotent(v: int)
    ensures Wrap(Wrap(v, 4), 4) == Wrap(v, 4)
  {
  }

  predicate Fits(v: int, n: nat) {
    n == 4 || (n == 1 && -128 <= v <= 127) || (n == 2 && -32768 <= v <= 32767)
  }

  /** What the overflow test means: a word fits exactly when its field holds it as it is. */
  lemma FitsIff(v: int, n: nat)
    requires (n == 1 || n == 2 || n == 4) && Wrap(v, 4) == v
    ensures Fits(v, n) <==> Decode(Encode(v, n)) == v
  {
    DecodeEncode(v, n);
    if n == 1 {
      FitsByte(v);
    } else if n == 2 {
      FitsWord(v);
    }
  }

  lemma FitsByte(v: int)
    ensures Wrap(v, 1) == v <==> -128 <= v <= 127
  {
  }

  lemma FitsWord(v: int)
    ensures Wrap(v, 2) == v <==> -32768 <= v <= 32767
  {
  }

  // ----- relocations -----

  datatype Reloc = Reloc(address: nat, length: nat, ext: bool, symnum: nat, pcrel: bool)

  /** What load2td knows: the module, the final symbols, the movement of each segment and of its own. */
  datatype Env = Env(m: Module, es: seq<Entry>, rel: Rel, creloc: int, keep: bool, nsym: nat, position: nat)

  /** N_ABS, N_TEXT, N_DATA and N_BSS as they stand in r_symbolnum. */
  const NABS: nat := 2
  const NTEXT: nat := 4
  const NDATA: nat := 6
  const NBSS: nat := 8

  /** symbolnum & N_TYPE. */
  function TypeBits(symnum: nat): nat {
    symnum / 2 % 16 * 2
  }

  function TypeOf(kind: Kind): nat {
    match kind
    case Text => NTEXT
    case Data => NDATA
    case Bss => NBSS
    case Abs => NABS
    case Comm => 18
    case Undf => 0
  }

  /** The symbol table index of a module's undefined symbol number x. */
  function LocalSymbol(m: Module, es: seq<Entry>, x: nat): (r: int)
    ensures r == -1 || 0 <= r < |es|
  {
    if x < |m.syms| && m.syms[x].ext && m.syms[x].kind == Undf && IndexOf(es, m.syms[x].name) < |es|
    then IndexOf(es, m.syms[x].name) else -1
  }

  /** A relocation that load2td can carry out. */
  predicate Meaningful(rp: Reloc, env: Env, size: nat) {
    && rp.length <= 2
    && rp.address + Size(rp.length) <= size
    && (if rp.ext then LocalSymbol(env.m, env.es, rp.symnum) != -1
      else TypeBits(rp.symnum) in {NABS, NTEXT, NDATA, NBSS})
  }

  /** How much the word grows. */
  function Delta(rp: Reloc, env: Env): int
    requires rp.ext ==> LocalSymbol(env.m, env.es, rp.symnum) != -1
  {
    (if rp.ext then
       var sp := env.es[LocalSymbol(env.m, env.es, rp.symnum)];
       if sp.kind == Undf then 0 else sp.value
     else if TypeBits(rp.symnum) == NTEXT then env.rel.ct
     else if TypeBits(rp.symnum) == NDATA then env.rel.cd
     else if TypeBits(rp.symnum) == NBSS then env.rel.cb
     else 0)
    - (if rp.pcrel then env.creloc else 0)
  }

  /**
   A relocation against a defined symbol becomes one against its segment; an
   undefined symbol keeps its place in the output's table.
   */
  function NewSymbol(rp: Reloc, env: Env): Reloc
    requires rp.ext ==> LocalSymbol(env.m, env.es, rp.symnum) != -1
  {
    var i := LocalSymbol(env.m, env.es, rp.symnum);
    if !rp.ext then rp
    else if env.es[i].kind == Undf then rp.(symnum := env.nsym + i)
    else rp.(symnum := TypeOf(env.es[i].kind), ext := false)
  }

  /** The relocation as it goes into the output. */
  function NewReloc(rp: Reloc, env: Env): Reloc
    requires rp.ext ==> LocalSymbol(env.m, env.es, rp.symnum) != -1
  {
    var r := NewSymbol(rp, env);
    if env.keep then r.(address := rp.address + env.position) else r
  }

  function Field(code: seq<Byte>, rp: Reloc): int
    requires rp.address + Size(rp.length) <= |code|
  {
    Decode(Slice(code, rp))
  }

  /** The value computed for a relocation's word, in a 32-bit register. */
  function NewWord(code: seq<Byte>, rp: Reloc, env: Env): int
    requires Meaningful(rp, env, |code|)
  {
    Wrap(Field(code, rp) + Delta(rp, env), 4)
  }

  function Relocate1(code: seq<Byte>, rp: Reloc, env: Env): (code': seq<Byte>)
    requires Meaningful(rp, env, |code|)
    ensures |code'| == |code|
  {
    Patch(code, rp.address, Encode(NewWord(code, rp, env), Size(rp.length)))
  }

  predicate Apart(p: Reloc, q: Reloc) {
    p.address + Size(p.length) <= q.address || q.address + Size(q.length) <= p.address
  }

  /** All relocations from the n-th on can be carried out. */
  ghost predicate AllMeaningful(rps: seq<Reloc>, env: Env, n: nat, size: nat) {
    forall i :: n <= i < |rps| ==> Meaningful(rps[i], env, size)
  }

  ghost predicate AllApart(rps: seq<Reloc>, n: nat) {
    forall i, j :: n <= i < j < |rps| ==> Apart(rps[i], rps[j])
  }

  /** The bytes of a relocation's field. */
  function Slice(code: seq<Byte>, rp: Reloc): (bs: seq<Byte>)
    requires rp.address + Size(rp.length) <= |code|
    ensures |bs| == Size(rp.length)
  {
    code[rp.address..rp.address + Size(rp.length)]
  }

  /** Patching one field leaves a field apart from it alone. */
  lemma SliceKept(code: seq<Byte>, rp: Reloc, env: Env, q: Reloc)
    requires Meaningful(rp, env, |code|) && q.address + Size(q.length) <= |code| && Apart(rp, q)
    ensures Slice(Relocate1(code, rp, env), q) == Slice(code, q)
  {
  }

  lemma NewWordSame(code: seq<Byte>, code': seq<Byte>, rp: Reloc, env: Env)
    requires Meaningful(rp, env, |code|) && |code| == |code'| && Slice(code, rp) == Slice(code', rp)
    ensures NewWord(code, rp, env) == NewWord(code', rp, env)
  {
  }

  /** load2td's loop after n rounds: n fields hold their new words, the others and all other bytes are untouched. */
  ghost predicate Progress(before: seq<Byte>, code: seq<Byte>, rps: seq<Reloc>, env: Env, n: nat)
    requires n <= |rps| && AllMeaningful(rps, env, 0, |before|)
  {
    && |code| == |before|
    && (forall i :: 0 <= i < n ==> Slice(code, rps[i]) == Encode(NewWord(before, rps[i], env), Size(rps[i].length)))
    && (forall i :: n <= i < |rps| ==> Slice(code, rps[i]) == Slice(before, rps[i]))
    && (forall x :: 0 <= x < |before| && !Covered(rps, x) ==> code[x] == before[x])
  }

  /** Some of the first n words does not fit its field. */
  ghost predicate Overflows(before: seq<Byte>, rps: seq<Reloc>, env: Env, n: nat)
    requires n <= |rps| && AllMeaningful(rps, env, 0, |before|)
  {
    exists k :: 0 <= k < n && !Fits(NewWord(before, rps[k], env), Size(rps[k].length))
  }

  predicate Covered(rps: seq<Reloc>, x: nat) {
    exists i :: 0 <= i < |rps| && Covers(rps[i], x)
  }

  predicate Covers(rp: Reloc, x: nat) {
    rp.address <= x < rp.address + Size(rp.length)
  }

  lemma OtherSlices(before: seq<Byte>, code: seq<Byte>, rps: seq<Reloc>, env: Env, n: nat, i: nat)
    requires n < |rps| && i < |rps| && i != n && AllMeaningful(rps, env, 0, |before|)
    requires AllApart(rps, 0) && |code| == |before|
    ensures Meaningful(rps[n], env, |code|) && Meaningful(rps[i], env, |code|)
    ensures Slice(Relocate1(code, rps[n], env), rps[i]) == Slice(code, rps[i])
  {
    assert Apart(rps[n], rps[i]) by {
      assert if i < n then Apart(rps[i], rps[n]) else Apart(rps[n], rps[i]);
    }
    SliceKept(code, rps[n], env, rps[i]);
  }

  lemma UncoveredBytes(code: seq<Byte>, rps: seq<Reloc>, env: Env, n: nat, x: nat)
    requires n < |rps| && Meaningful(rps[n], env, |code|) && x < |code| && !Covered(rps, x)
    ensures Relocate1(code, rps[n], env)[x] == code[x]
  {
    assert !Covers(rps[n], x);
  }

  /** One relocation takes the loop from n rounds to n + 1, whatever the order of the fields in the segment. */
  lemma ProgressStep(before: seq<Byte>, code: seq<Byte>, rps: seq<Reloc>, env: Env, n: nat)
    requires n < |rps| && AllMeaningful(rps, env, 0, |before|) && AllApart(rps, 0)
    requires Progress(before, code, rps, env, n)
    ensures Meaningful(rps[n], env, |code|)
    ensures NewWord(code, rps[n], env) == NewWord(before, rps[n], env)
    ensures Progress(before, Relocate1(code, rps[n], env), rps, env, n + 1)
  {
    NewWordSame(before, code, rps[n], env);
    forall i | 0 <= i < |rps| && i != n
      ensures Slice(Relocate1(code, rps[n], env), rps[i]) == Slice(code, rps[i])
    {
      OtherSlices(before, code, rps, env, n, i);
    }
    forall x | 0 <= x < |code| && !Covered(rps, x)
      ensures Relocate1(code, rps[n], env)[x] == before[x]
    {
      UncoveredBytes(code, rps, env, n, x);
    }
  }

  lemma OverflowsStep(before: seq<Byte>, rps: seq<Reloc>, env: Env, n: nat)
    requires n < |rps| && AllMeaningful(rps, env, 0, |before|) && Meaningful(rps[n], env, |before|)
    ensures Overflows(before, rps, env, n + 1) <==>
            Overflows(before, rps, env, n) || !Fits(NewWord(before, rps[n], env), Size(rps[n].length))
  {
  }

  /** after is before with every field moved by its delta and nothing else changed. */
  ghost predicate IsRelocated(before: seq<Byte>, after: seq<Byte>, rps: seq<Reloc>, env: Env)
    requires AllMeaningful(rps, env, 0, |before|)
  {
    && |before| == |after|
    && (forall k :: 0 <= k < |rps| ==> Field(after, rps[k]) == NewWord(before, rps[k], env))
    && (forall x :: 0 <= x < |before| && !Covered(rps, x) ==> after[x] == before[x])
  }

  /** Unless some word overflowed, every field ends up holding exactly the word computed for it. */
  lemma ProgressDone(before: seq<Byte>, after: seq<Byte>, rps: seq<Reloc>, env: Env)
    requires AllMeaningful(rps, env, 0, |before|) && Progress(before, after, rps, env, |rps|)
    requires !Overflows(before, rps, env, |rps|)
    ensures IsRelocated(before, after, rps, env)
  {
    forall k | 0 <= k < |rps|
      ensures Field(after, rps[k]) == NewWord(before, rps[k], env)
    {
      assert Fits(NewWord(before, rps[k], env), Size(rps[k].length));
      NewWordStored(before, rps[k], env);
      FieldOf(after, rps[k], Encode(NewWord(before, rps[k], env), Size(rps[k].length)));
    }
  }

  /**
   The states load2td's loop can be in after n rounds: the segment, the
   relocations, and whether a word overflowed.
   */
  ghost predicate AfterRounds(before: seq<Byte>, rps: seq<Reloc>, env: Env, code: seq<Byte>, relp: seq<Reloc>, n: nat,
        over: bool)
    requires n <= |rps|
    decreases n, 1
  {
    if n == 0 then
      code == before && relp == rps && !over
    else
      AfterLastRound(before, rps, env, code, relp, n, over)
  }

  ghost predicate AfterLastRound(before: seq<Byte>, rps: seq<Reloc>, env: Env, code: seq<Byte>, relp: seq<Reloc>,
        n: nat, over: bool)
    requires 0 < n <= |rps|
    decreases n, 0
  {
    var m := n - 1;
    exists code0, relp0, over0 ::
      AfterRounds(before, rps, env, code0, relp0, m, over0)
        && Round(rps[m], m, env, code0, relp0, over0, code, relp, over)
  }

  /** One round. */
  ghost predicate Round(rp: Reloc, n: nat, env: Env, code0: seq<Byte>, relp0: seq<Reloc>, over0: bool, code: seq<Byte>,
        relp: seq<Reloc>, over: bool)
  {
    && n < |relp0| && relp0[n] == rp && Meaningful(rp, env, |code0|)
    && code == Relocate1(code0, rp, env)
    && relp == relp0[n := NewReloc(rp, env)]
    && over == (over0 || !Fits(NewWord(code0, rp, env), Size(rp.length)))
  }

  lemma AddRound(before: seq<Byte>, rps: seq<Reloc>, env: Env, code0: seq<Byte>, relp0: seq<Reloc>, n: nat, over0: bool,
                 code: seq<Byte>, relp: seq<Reloc>, over: bool)
    requires n < |rps| && AfterRounds(before, rps, env, code0, relp0, n, over0)
    requires Round(rps[n], n, env, code0, relp0, over0, code, relp, over)
    ensures AfterRounds(before, rps, env, code, relp, n + 1, over)
  {
    assert AfterLastRound(before, rps, env, code, relp, n + 1, over);
  }

  /** What n rounds have done. */
  ghost predicate LoopState(before: seq<Byte>, rps: seq<Reloc>, env: Env, code: seq<Byte>, relp: seq<Reloc>, n: nat,
        over: bool)
  {
    && |relp| == |rps| && |code| == |before| && n <= |rps|
    && (forall i :: 0 <= i < n ==> Meaningful(rps[i], env, |before|) && relp[i] == NewReloc(rps[i], env))
    && (forall i :: n <= i < |rps| ==> relp[i] == rps[i])
    && (AllMeaningful(rps, env, 0, |before|) && AllApart(rps, 0) ==>
          Progress(before, code, rps, env, n) && (over <==> Overflows(before, rps, env, n)))
  }

  lemma LoopStep(before: seq<Byte>, rps: seq<Reloc>, env: Env, code0: seq<Byte>, relp0: seq<Reloc>, n: nat, over0: bool,
                 code: seq<Byte>, relp: seq<Reloc>, over: bool)
    requires LoopState(before, rps, env, code0, relp0, n, over0) && n < |rps|
    requires Round(rps[n], n, env, code0, relp0, over0, code, relp, over)
    ensures LoopState(before, rps, env, code, relp, n + 1, over)
  {
    if AllMeaningful(rps, env, 0, |before|) && AllApart(rps, 0) {
      ProgressStep(before, code0, rps, env, n);
      OverflowsStep(before, rps, env, n);
    }
  }

  lemma {:induction false} AfterRoundsMeans(before: seq<Byte>, rps: seq<Reloc>, env: Env, code: seq<Byte>,
        relp: seq<Reloc>, n: nat, over: bool)
    requires n <= |rps| && AfterRounds(before, rps, env, code, relp, n, over)
    ensures LoopState(before, rps, env, code, relp, n, over)
    decreases n
  {
    if n == 0 {
      NoRounds(before, rps, env);
    } else {
      var m := n - 1;
      assert AfterLastRound(before, rps, env, code, relp, n, over);
      var code0, relp0, over0 :|
        AfterRounds(before, rps, env, code0, relp0, m, over0)
          && Round(rps[m], m, env, code0, relp0, over0, code, relp, over);
      AfterRoundsMeans(before, rps, env, code0, relp0, m, over0);
      LoopStep(before, rps, env, code0, relp0, m, over0, code, relp, over);
    }
  }

  lemma NoRounds(before: seq<Byte>, rps: seq<Reloc>, env: Env)
    ensures LoopState(before, rps, env, before, rps, 0, false)
  {
  }

  /**
   What load2td leaves when all its rounds were carried out: every relocation rewritten; and if no
   two fields overlap, overflow reported exactly when a word does not fit, and otherwise each field
   moved by its delta and no other byte changed.
   */
  lemma AllRounds(before: seq<Byte>, rps: seq<Reloc>, env: Env, code: seq<Byte>, relp: seq<Reloc>, over: bool)
    requires AfterRounds(before, rps, env, code, relp, |rps|, over)
    ensures AllMeaningful(rps, env, 0, |before|) && |relp| == |rps|
    ensures forall i :: 0 <= i < |rps| ==> relp[i] == NewReloc(rps[i], env)
    ensures AllApart(rps, 0) ==> (over <==> Overflows(before, rps, env, |rps|))
    ensures AllApart(rps, 0) && !over ==> IsRelocated(before, code, rps, env)
  {
    AfterRoundsMeans(before, rps, env, code, relp, |rps|, over);
    if AllApart(rps, 0) && !over {
      ProgressDone(before, code, rps, env);
    }
  }

  // ----- what the words mean -----

  /** The target of a word: an offset in a segment of the module, a fixed address, or an external symbol. */
  datatype Target = InText(off: int) | InData(off: int) | InBss(off: int) | Fixed(addr: int) | Of(sym: nat, addend: int)

  /** The number that stands for a target in the module as compiled. */
  function OldAddress(t: Target, m: Module): int {
    match t
    case InText(off) => off
    case InData(off) => m.dataAt + off
    case InBss(off) => m.dataAt + m.data + off
    case Fixed(addr) => addr
    case Of(_, addend) => addend
  }

  /** The address of the target in the output; an undefined symbol counts as 0. */
  function NewAddress(t: Target, es: seq<Entry>, o: Origins): int
    requires t.Of? ==> t.sym < |es|
  {
    match t
    case InText(off) => o.t + off
    case InData(off) => o.d + off
    case InBss(off) => o.b + off
    case Fixed(addr) => addr
    case Of(sym, addend) => addend + (if es[sym].kind == Undf then 0 else es[sym].value)
  }

  /** The relocation says what kind of thing the word refers to. */
  ghost predicate RefersTo(rp: Reloc, t: Target, env: Env) {
    match t
    case InText(_) => !rp.ext && TypeBits(rp.symnum) == NTEXT
    case InData(_) => !rp.ext && TypeBits(rp.symnum) == NDATA
    case InBss(_) => !rp.ext && TypeBits(rp.symnum) == NBSS
    case Fixed(_) => !rp.ext && TypeBits(rp.symnum) == NABS
    case Of(sym, _) => rp.ext && sym as int == LocalSymbol(env.m, env.es, rp.symnum)
  }

  /** A place in the text or data segment being relocated, by its distance creloc. */
  ghost predicate Being(here: Target, env: Env) {
    (here.InText? && env.creloc == env.rel.ct) || (here.InData? && env.creloc == env.rel.cd)
  }

  /**
   Relocation preserves meaning. A word that, in the module, stood for a target (or for the distance
   to it from a place in the segment being relocated) stands in the relocated segment for the same
   target's final address (or the distance to it from the final address of the same place).
   */
  lemma MeaningPreserved(code: seq<Byte>, after: seq<Byte>, rps: seq<Reloc>, env: Env, o: Origins, k: nat, t: Target,
        here: Target)
    requires k < |rps| && AllMeaningful(rps, env, 0, |code|) && IsRelocated(code, after, rps, env)
    requires env.rel == Pass2Rel(o, env.m) && RefersTo(rps[k], t, env) && Being(here, env)
    requires Meaningful(rps[k], env, |code|)
    requires Field(code, rps[k]) == Wrap(OldAddress(t, env.m)
      - (if rps[k].pcrel then OldAddress(here, env.m) else 0), 4)
    ensures t.Of? ==> t.sym < |env.es|
    ensures Field(after, rps[k]) == Wrap(NewAddress(t, env.es, o)
      - (if rps[k].pcrel then NewAddress(here, env.es, o) else 0), 4)
  {
    assert OldAddress(here, env.m) + env.creloc == NewAddress(here, env.es, o);
    WordMoves(code, rps[k], env, o, t, OldAddress(here, env.m));
  }

  // ----- relocations kept for a second link -----

  /** A relocation kept names, in the segment with the bytes before it, the field that it named in its own. */
  lemma SameField(front: seq<Byte>, code: seq<Byte>, rp: Reloc, env: Env)
    requires env.keep && |front| == env.position && rp.address + Size(rp.length) <= |code|
    requires rp.ext ==> LocalSymbol(env.m, env.es, rp.symnum) != -1
    ensures var r := NewReloc(rp, env);
      && r.length == rp.length && r.pcrel == rp.pcrel
      && r.address + Size(r.length) <= |front + code|
      && Slice(front + code, r) == Slice(code, rp)
  {
    assert (front + code)[|front|..] == code;
    FarSlice(front + code, |front|, code, rp.address, rp.address + Size(rp.length));
  }

  lemma FarSlice(all: seq<Byte>, n: nat, code: seq<Byte>, a: nat, b: nat)
    requires a <= b <= |code| && n + |code| <= |all| && all[n..n + |code|] == code
    ensures all[n + a..n + b] == code[a..b]
  {
    forall k | 0 <= k < b - a
      ensures all[n + a..n + b][k] == code[a..b][k]
    {
      assert all[n..n + |code|][a + k] == code[a + k];
    }
  }

  /**
   A later link of the output: its module lists our external symbols from number nsym on, and it moves our
   definitions with their segments.
   */
  ghost predicate Follows(env: Env, later: Env) {
    forall i :: 0 <= i < |env.es| ==> Carried(env.es[i], env.nsym + i, later)
  }

  ghost predicate Carried(e: Entry, x: nat, later: Env) {
    && x < |later.m.syms| && later.m.syms[x].ext
    && later.m.syms[x].name == e.name && later.m.syms[x].kind == e.kind && e.kind != Comm
    && (e.kind != Undf ==>
          var j := IndexOf(later.es, e.name);
          j < |later.es| && later.es[j] == Entry(e.name, e.kind, e.value + Movement(e.kind, later.rel)))
  }

  ghost function Movement(kind: Kind, r: Rel): int {
    if kind == Text then r.ct else if kind == Data then r.cd else if kind == Bss then r.cb else 0
  }

  /** Both links at once: from our module to the final symbols, over both distances. */
  ghost function Direct(env: Env, later: Env): Env {
    env.(es := later.es, creloc := env.creloc + later.creloc,
         rel := Rel(env.rel.ct + later.rel.ct, env.rel.cd + later.rel.cd, env.rel.cb + later.rel.cb))
  }

  /** A relocation against a segment is one against the same segment in the output. */
  lemma TypeKept(kind: Kind)
    requires kind != Undf && kind != Comm
    ensures TypeBits(TypeOf(kind)) == TypeOf(kind) && TypeOf(kind) in {NABS, NTEXT, NDATA, NBSS}
    ensures TypeOf(kind) == NTEXT <==> kind == Text
    ensures TypeOf(kind) == NDATA <==> kind == Data
    ensures TypeOf(kind) == NBSS <==> kind == Bss
  {
  }

  /** Moving a word by a relocation and again by the one kept is moving it directly. */
  lemma DeltaTwice(rp: Reloc, env: Env, later: Env, size: nat, size': nat)
    requires Meaningful(rp, env, size) && Meaningful(NewReloc(rp, env), later, size') && Follows(env, later)
    ensures Meaningful(rp, Direct(env, later), size)
    ensures Delta(rp, env) + Delta(NewReloc(rp, env), later) == Delta(rp, Direct(env, later))
  {
    if rp.ext {
      var i := LocalSymbol(env.m, env.es, rp.symnum);
      var e := env.es[i];
      assert e.name == env.m.syms[rp.symnum].name;
      assert Carried(e, env.nsym + i, later);
      if e.kind != Undf {
        TypeKept(e.kind);
      }
    }
  }

  /** The field of a relocation kept, where its segment lies in a larger one. */
  lemma FieldAt(all: seq<Byte>, part: seq<Byte>, rp: Reloc, env: Env)
    requires env.keep && env.position + |part| <= |all| && all[env.position..env.position + |part|] == part
    requires rp.address + Size(rp.length) <= |part|
    requires rp.ext ==> LocalSymbol(env.m, env.es, rp.symnum) != -1
    ensures var r := NewReloc(rp, env);
      r.address + Size(r.length) <= |all| && Field(all, r) == Field(part, rp)
  {
    FarSlice(all, env.position, part, rp.address, rp.address + Size(rp.length));
  }

  lemma FieldMoved(before: seq<Byte>, after: seq<Byte>, rps: seq<Reloc>, env: Env, k: nat)
    requires k < |rps| && AllMeaningful(rps, env, 0, |before|) && IsRelocated(before, after, rps, env)
    ensures |after| == |before| && Meaningful(rps[k], env, |before|)
    ensures Field(after, rps[k]) == Wrap(Field(before, rps[k]) + Delta(rps[k], env), 4)
  {
  }

  /** The words: v at first, w after the one link and x after the other. */
  lemma WordTwice(rp: Reloc, env: Env, later: Env, size: nat, size': nat, v: int, w: int, x: int)
    requires Meaningful(rp, env, size) && Meaningful(NewReloc(rp, env), later, size') && Follows(env, later)
    requires w == Wrap(v + Delta(rp, env), 4) && x == Wrap(w + Delta(NewReloc(rp, env), later), 4)
    ensures Meaningful(rp, Direct(env, later), size) && x == Wrap(v + Delta(rp, Direct(env, later)), 4)
  {
    DeltaTwice(rp, env, later, size, size');
    WrapAdd(v + Delta(rp, env), Delta(NewReloc(rp, env), later));
  }

  /** One field through both links. */
  lemma FieldTwice(code: seq<Byte>, mid: seq<Byte>, out: seq<Byte>, after: seq<Byte>, rp: Reloc, env: Env, later: Env)
    requires env.keep && |mid| == |code| && |after| == |out| && Follows(env, later)
    requires env.position + |mid| <= |out| && out[env.position..env.position + |mid|] == mid
    requires Meaningful(rp, env, |code|) && Meaningful(NewReloc(rp, env), later, |out|)
    requires Field(mid, rp) == Wrap(Field(code, rp) + Delta(rp, env), 4)
    requires var r := NewReloc(rp, env);
      Field(after, r) == Wrap(Field(out, r) + Delta(r, later), 4)
    ensures Meaningful(rp, Direct(env, later), |code|)
    ensures Field(after[env.position..env.position + |code|], rp) == NewWord(code, rp, Direct(env, later))
  {
    var part := after[env.position..env.position + |code|];
    FieldAt(out, mid, rp, env);
    FieldAt(after, part, rp, env);
    WordTwice(rp, env, later, |code|, |out|, Field(code, rp), Field(mid, rp), Field(part, rp));
  }

  /**
   Linking in two steps. The first link left mid of code, at its place in the segment out, and its
   relocations went into the output; relocating out by them leaves in each field the word that
   relocating code to its final place at once would.
   */
  lemma LinkedTwice(code: seq<Byte>, mid: seq<Byte>, out: seq<Byte>, after: seq<Byte>, rps: seq<Reloc>,
        rps': seq<Reloc>, env: Env, later: Env, k: nat, j: nat)
    requires k < |rps| && AllMeaningful(rps, env, 0, |code|) && IsRelocated(code, mid, rps, env) && env.keep
    requires env.position + |mid| <= |out| && out[env.position..env.position + |mid|] == mid
    requires j < |rps'| && AllMeaningful(rps', later, 0, |out|) && IsRelocated(out, after, rps', later)
    requires Meaningful(rps[k], env, |code|) && rps'[j] == NewReloc(rps[k], env) && Follows(env, later)
    ensures Meaningful(rps[k], Direct(env, later), |code|)
    ensures Field(after[env.position..env.position + |code|], rps[k]) == NewWord(code, rps[k], Direct(env, later))
  {
    FieldMoved(code, mid, rps, env, k);
    FieldMoved(out, after, rps', later, j);
    FieldTwice(code, mid, out, after, rps[k], env, later);
  }

  /** ... for what load2td leaves of the segment and its relocations in the one link and in the other. */
  lemma LoadedTwice(code: seq<Byte>, mid: seq<Byte>, rps: seq<Reloc>, relp: seq<Reloc>, env: Env, out: seq<Byte>,
        after: seq<Byte>, rps': seq<Reloc>, relp': seq<Reloc>, later: Env, k: nat, j: nat)
    requires AfterRounds(code, rps, env, mid, relp, |rps|, false) && AllApart(rps, 0) && env.keep
    requires AfterRounds(out, rps', later, after, relp', |rps'|, false) && AllApart(rps', 0) && Follows(env, later)
    requires env.position + |mid| <= |out| && out[env.position..env.position + |mid|] == mid
    requires |relp| == |rps| && k < |rps| && j < |rps'| && rps'[j] == relp[k]
    ensures |after| == |out| && |mid| == |code| && Meaningful(rps[k], Direct(env, later), |code|)
    ensures Field(after[env.position..env.position + |code|], rps[k]) == NewWord(code, rps[k], Direct(env, later))
  {
    AllRounds(code, rps, env, mid, relp, false);
    AllRounds(out, rps', later, after, relp', false);
    LinkedTwice(code, mid, out, after, rps, rps', env, later, k, j);
  }

  lemma NewWordStored(code: seq<Byte>, rp: Reloc, env: Env)
    requires Meaningful(rp, env, |code|) && Fits(NewWord(code, rp, env), Size(rp.length))
    ensures Decode(Encode(NewWord(code, rp, env), Size(rp.length))) == NewWord(code, rp, env)
  {
    var x := Field(code, rp) + Delta(rp, env);
    StoredExactly(x, Size(rp.length));
  }

  lemma FieldOf(code: seq<Byte>, rp: Reloc, bs: seq<Byte>)
    requires rp.address + Size(rp.length) <= |code| && Slice(code, rp) == bs
    ensures Field(code, rp) == Decode(bs)
  {
  }

  /** One word: the number for the old target, moved by Delta, is the number for the new one. */
  lemma WordMoves(code: seq<Byte>, rp: Reloc, env: Env, o: Origins, t: Target, pc: int)
    requires Meaningful(rp, env, |code|) && env.rel == Pass2Rel(o, env.m) && RefersTo(rp, t, env)
    requires Field(code, rp) == Wrap(OldAddress(t, env.m) - (if rp.pcrel then pc else 0), 4)
    ensures t.Of? ==> t.sym < |env.es|
    ensures NewWord(code, rp, env) == Wrap(NewAddress(t, env.es, o) - (if rp.pcrel then pc + env.creloc else 0), 4)
  {
    var was := OldAddress(t, env.m) - (if rp.pcrel then pc else 0);
    WrapAdd(was, Delta(rp, env));
    DeltaMoves(rp, env, o, t);
  }

  lemma DeltaMoves(rp: Reloc, env: Env, o: Origins, t: Target)
    requires rp.ext ==> LocalSymbol(env.m, env.es, rp.symnum) != -1
    requires env.rel == Pass2Rel(o, env.m) && RefersTo(rp, t, env)
    ensures t.Of? ==> t.sym < |env.es|
    ensures OldAddress(t, env.m) + Delta(rp, env) == NewAddress(t, env.es, o) - (if rp.pcrel then env.creloc else 0)
  {
  }

  /** A 32-bit number that fits a field is read back as it is. */
  lemma StoredExactly(x: int, n: nat)
    requires (n == 1 || n == 2 || n == 4) && Fits(Wrap(x, 4), n)
    ensures Decode(Encode(Wrap(x, 4), n)) == Wrap(x, 4)
  {
    DecodeEncode(Wrap(x, 4), n);
    WrapIdempotent(x);
  }
}
