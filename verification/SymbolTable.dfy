/**
 The linker's symbol table: segments of NSYM symbols, each with its own
 open-addressing hash table searched by quadratic rehash. Symbols are removed
 only in the reverse of the order in which they were entered.
 A pointer into the table is a segment and an offset; an empty bucket is -1.
 */
module SymbolTable {
  import opened Bytes
  import opened Probing

  const NSEG: nat := 40

  type Name = seq<Byte>

  datatype Kind = Undf | Abs | Text | Data | Bss | Comm

  /** What the rest of the linker sees of a symbol. */
  datatype Entry = Entry(name: Name, kind: Kind, value: int)

  /** A symbol slot: the entry and the bucket that points at it. */
  datatype Sym = Sym(ent: Entry, hash: nat)

  datatype Seg = Seg(syms: seq<Sym>, buckets: seq<int>)

  datatype Ptr = Null | At(seg: nat, off: nat)

  /** How the search of one segment ends. */
  datatype SegResult = Hit(bucket: nat) | Vacant(bucket: nat) | Full | Botch

  /** How the search of the whole table ends; the last two are error exits. */
  datatype Outcome = Found(seg: nat, bucket: nat) | Free(seg: nat, bucket: nat) | Botched(seg: nat) | Overflow

  // ----- hashing -----

  /** One round of the hash on 32-bit words; characters are signed. */
  function HashStep(h: nat, c: Byte): nat {
    (2 * h + (if c < 128 then c else c - 256)) % 0x1_0000_0000
  }

  function HashFrom(h: nat, name: Name): nat
    decreases |name|
  {
    if name == [] then h else HashFrom(HashStep(h, name[0]), name[1..])
  }

  function Hash(name: Name): (h: nat)
    ensures h < HSIZE
  {
    (HashFrom(0, name) % 0x8000_0000) % HSIZE
  }

  // ----- one segment -----

  /** Buckets and symbols point at each other. */
  ghost predicate Linked(s: Seg) {
    && |s.syms| <= NSYM
    && |s.buckets| == HSIZE
    && (forall k :: 0 <= k < |s.syms| ==> s.syms[k].hash < HSIZE && s.buckets[s.syms[k].hash] == k)
    && (forall b :: 0 <= b < HSIZE ==>
      s.buckets[b] == -1 || (0 <= s.buckets[b] < |s.syms| && s.syms[s.buckets[b]].hash == b))
  }

  /** Probe j of the search for name meets a symbol below k that has another name. */
  ghost predicate Passes(s: Seg, name: Name, j: nat, k: nat)
    requires Linked(s) && j < NSYM
  {
    var i := s.buckets[Probe(Hash(name), j)];
    0 <= i < k && i < |s.syms| && s.syms[i].ent.name != name
  }

  /** Symbol k sits at probe j of its own search and every earlier probe meets an older symbol. */
  ghost predicate ChainAt(s: Seg, k: nat, j: nat)
    requires Linked(s) && k < |s.syms|
  {
    var name := s.syms[k].ent.name;
    && j < NSYM
    && Probe(Hash(name), j) == s.syms[k].hash
    && (forall i :: 0 <= i < j ==> Passes(s, name, i, k))
  }

  ghost predicate Chained(s: Seg, k: nat)
    requires Linked(s) && k < |s.syms|
  {
    exists j: nat :: ChainAt(s, k, j)
  }

  ghost predicate ValidSeg(s: Seg) {
    Linked(s) && forall k :: 0 <= k < |s.syms| ==> Chained(s, k)
  }

  const EmptySeg: Seg := Seg([], seq(HSIZE, _ => -1))

  /** The search of one segment from probe j on. */
  function SegFind(s: Seg, name: Name, j: nat): SegResult
    requires Linked(s) && j <= NSYM
    decreases NSYM - j
  {
    if j == NSYM then
      Botch
    else
      var b := Probe(Hash(name), j);
      if s.buckets[b] == -1 then
        if |s.syms| == NSYM then Full else Vacant(b)
      else if s.syms[s.buckets[b]].ent.name == name then
        Hit(b)
      else
        SegFind(s, name, j + 1)
  }

  /** A bucket of another name sends the search on. */
  lemma SegFindOn(s: Seg, name: Name, j: nat)
    requires Linked(s) && j < NSYM
    requires var b := s.buckets[Probe(Hash(name), j)];
      b != -1 && s.syms[b].ent.name != name
    ensures SegFind(s, name, j) == SegFind(s, name, j + 1)
  {
  }

  /** The search skips probes that pass, and stops at the first that does not. */
  lemma {:induction false} SegFindSkips(s: Seg, name: Name, i: nat, j: nat)
    requires Linked(s) && i <= j <= NSYM
    requires forall p :: i <= p < j ==> Passes(s, name, p, |s.syms|)
    ensures SegFind(s, name, i) == SegFind(s, name, j)
    decreases j - i
  {
    if i < j {
      assert Passes(s, name, i, |s.syms|);
      SegFindSkips(s, name, i + 1, j);
    }
  }

  /** Where the search stops: every probe before that one passes. */
  lemma {:induction false} SegFindStops(s: Seg, name: Name, j: nat) returns (n: nat)
    requires Linked(s) && j <= NSYM
    ensures j <= n <= NSYM
    ensures forall p :: j <= p < n ==> Passes(s, name, p, |s.syms|)
    ensures n < NSYM ==> !Passes(s, name, n, |s.syms|)
    ensures n == NSYM <==> SegFind(s, name, j) == Botch
    ensures n < NSYM ==> SegFind(s, name, j) == SegFind(s, name, n)
    decreases NSYM - j
  {
    n := j;
    if j < NSYM && Passes(s, name, j, |s.syms|) {
      n := SegFindStops(s, name, j + 1);
    }
  }

  /** A symbol of the segment is always found, in its own bucket. */
  lemma SegFindExisting(s: Seg, k: nat)
    requires ValidSeg(s) && k < |s.syms|
    ensures SegFind(s, s.syms[k].ent.name, 0) == Hit(s.syms[k].hash)
  {
    assert Chained(s, k);
    var j: nat :| ChainAt(s, k, j);
    forall p | 0 <= p < j
      ensures Passes(s, s.syms[k].ent.name, p, |s.syms|)
    {
      assert Passes(s, s.syms[k].ent.name, p, k);
    }
    SegFindSkips(s, s.syms[k].ent.name, 0, j);
  }

  /** The search ends in "hash table botch" exactly when all NSYM probes meet other names. */
  lemma BotchIff(s: Seg, name: Name)
    requires Linked(s)
    ensures SegFind(s, name, 0) == Botch <==> forall p :: 0 <= p < NSYM ==> Passes(s, name, p, |s.syms|)
  {
    var n := SegFindStops(s, name, 0);
  }

  /** A segment with a free symbol slot never ends in a botch: NSYM distinct buckets cannot all be taken. */
  lemma NoBotchUnlessFull(s: Seg, name: Name)
    requires Linked(s) && |s.syms| < NSYM
    ensures SegFind(s, name, 0) != Botch && SegFind(s, name, 0) != Full
  {
    var n := SegFindStops(s, name, 0);
    if n == NSYM {
      var h := Hash(name);
      assert forall j :: 0 <= j < NSYM ==> Passes(s, name, j, |s.syms|);
      var met := seq(NSYM, j requires 0 <= j < NSYM && Passes(s, name, j, |s.syms|) => s.buckets[Probe(h, j)]);
      forall i | 0 <= i < |met|
        ensures 0 <= met[i] < |s.syms|
      {
        assert Passes(s, name, i, |s.syms|);
      }
      forall i, j | 0 <= i < j < |met|
        ensures met[i] != met[j]
      {
        ProbesDistinct(h, i, j);
        assert Passes(s, name, i, |s.syms|) && Passes(s, name, j, |s.syms|);
      }
      Pigeonhole(met, |s.syms|);
    }
  }

  /** A chain depends only on the symbols up to its own and on the buckets that hold them. */
  lemma ChainKept(s: Seg, t: Seg, k: nat, n: nat)
    requires Linked(s) && Linked(t) && k < n <= |s.syms| && n <= |t.syms|
    requires s.syms[..n] == t.syms[..n]
    requires forall b :: 0 <= b < HSIZE && 0 <= s.buckets[b] < n ==> t.buckets[b] == s.buckets[b]
    requires Chained(s, k)
    ensures Chained(t, k)
  {
    assert s.syms[k] == s.syms[..n][k] == t.syms[..n][k] == t.syms[k];
    var name := s.syms[k].ent.name;
    var j: nat :| ChainAt(s, k, j);
    forall i | 0 <= i < j
      ensures Passes(t, name, i, k)
    {
      assert Passes(s, name, i, k);
      var m := s.buckets[Probe(Hash(name), i)];
      assert s.syms[m] == s.syms[..n][m] == t.syms[..n][m] == t.syms[m];
    }
    assert ChainAt(t, k, j);
  }

  function Push(s: Seg, e: Entry, b: nat): Seg
    requires b < |s.buckets|
  {
    Seg(s.syms + [Sym(e, b)], s.buckets[b := |s.syms|])
  }

  /** Entering a symbol in the vacant bucket its search ended at keeps the segment valid. */
  lemma PushValid(s: Seg, e: Entry, b: nat)
    requires ValidSeg(s) && SegFind(s, e.name, 0) == Vacant(b)
    ensures b < HSIZE && s.buckets[b] == -1
    ensures ValidSeg(Push(s, e, b))
  {
    var n := SegFindStops(s, e.name, 0);
    var t := Push(s, e, b);
    assert Linked(t);
    forall k | 0 <= k < |t.syms|
      ensures Chained(t, k)
    {
      if k < |s.syms| {
        assert t.syms[..|s.syms|] == s.syms[..|s.syms|];
        ChainKept(s, t, k, |s.syms|);
      } else {
        forall i | 0 <= i < n
          ensures Passes(t, e.name, i, k)
        {
          assert Passes(s, e.name, i, |s.syms|);
        }
        assert ChainAt(t, k, n);
      }
    }
  }

  /** The segment without the symbols from n on, their buckets emptied. */
  function Cut(s: Seg, n: nat): Seg
    requires n <= |s.syms|
  {
    Seg(s.syms[..n], seq(|s.buckets|, b requires 0 <= b < |s.buckets| => if s.buckets[b] < n then s.buckets[b] else -1))
  }

  /** Last-in first-out removal never breaks an older symbol's chain. */
  lemma CutValid(s: Seg, n: nat)
    requires ValidSeg(s) && n <= |s.syms|
    ensures ValidSeg(Cut(s, n))
  {
    var t := Cut(s, n);
    assert Linked(t);
    assert t.syms[..n] == s.syms[..n];
    forall k | 0 <= k < |t.syms|
      ensures Chained(t, k)
    {
      ChainKept(s, t, k, n);
    }
  }

  // ----- the whole table -----

  ghost predicate AllLinked(segs: seq<Seg>) {
    forall g :: 0 <= g < |segs| ==> Linked(segs[g])
  }

  /** The search of the table from segment g on; a segment not yet allocated counts as an empty one. */
  function Find(segs: seq<Seg>, name: Name, g: nat): Outcome
    requires g <= NSEG && AllLinked(segs)
    decreases NSEG - g
  {
    if g == NSEG then
      Overflow
    else if g >= |segs| then
      Free(g, Hash(name))
    else
      match SegFind(segs[g], name, 0)
      case Hit(b) => Found(g, b)
      case Vacant(b) => Free(g, b)
      case Botch => Botched(g)
      case Full => Find(segs, name, g + 1)
  }

  ghost predicate AllValid(segs: seq<Seg>) {
    forall g :: 0 <= g < |segs| ==> ValidSeg(segs[g])
  }

  /** Segments before cseg are full, those after it empty. */
  ghost predicate Packed(segs: seq<Seg>, cseg: int) {
    && (forall g :: 0 <= g < cseg && g < |segs| ==> |segs[g].syms| == NSYM)
    && (forall g :: 0 <= g < |segs| && g > cseg ==> segs[g].syms == [])
  }

  /** Every name in segment g is passed over by the search of each earlier segment. */
  ghost predicate PassedBefore(segs: seq<Seg>, g: nat, name: Name)
    requires g <= |segs| && AllLinked(segs)
  {
    forall f :: 0 <= f < g ==> SegFind(segs[f], name, 0) == Full
  }

  ghost predicate Reached(segs: seq<Seg>)
    requires AllLinked(segs)
  {
    forall g, k :: 0 <= g < |segs| && 0 <= k < |segs[g].syms| ==> PassedBefore(segs, g, segs[g].syms[k].ent.name)
  }

  /** next points just past the newest symbol, or is null before any symbol was entered. */
  ghost predicate NextIs(segs: seq<Seg>, next: Ptr) {
    if next.Null? then
      forall g :: 0 <= g < |segs| ==> segs[g].syms == []
    else
      && next.seg < |segs| && 0 < next.off == |segs[next.seg].syms|
      && forall f :: next.seg < f < |segs| ==> segs[f].syms == []
  }

  ghost predicate ValidTable(segs: seq<Seg>, cseg: int, next: Ptr) {
    && |segs| <= NSEG && -1 <= cseg < |segs|
    && AllValid(segs) && Packed(segs, cseg) && Reached(segs) && NextIs(segs, next)
  }

  /** Some segment holds a symbol of this name. */
  ghost predicate Holds(segs: seq<Seg>, g: nat, k: nat, name: Name) {
    g < |segs| && k < |segs[g].syms| && segs[g].syms[k].ent.name == name
  }

  /** A search that passes over segments g..f continues at f. */
  lemma {:induction false} FindSkips(segs: seq<Seg>, name: Name, g: nat, f: nat)
    requires g <= f <= |segs| <= NSEG && AllLinked(segs)
    requires forall i :: g <= i < f ==> SegFind(segs[i], name, 0) == Full
    ensures Find(segs, name, g) == Find(segs, name, f)
    decreases f - g
  {
    if g < f {
      FindSkips(segs, name, g + 1, f);
    }
  }

  /** Where the search of the table stops. */
  lemma {:induction false} FindStops(segs: seq<Seg>, name: Name, g: nat) returns (f: nat)
    requires g <= |segs| <= NSEG && AllLinked(segs)
    ensures g <= f <= |segs|
    ensures forall i :: g <= i < f ==> SegFind(segs[i], name, 0) == Full
    ensures f < |segs| ==> SegFind(segs[f], name, 0) != Full
    ensures Find(segs, name, g) == Find(segs, name, f)
    decreases |segs| - g
  {
    f := g;
    if g < |segs| && SegFind(segs[g], name, 0) == Full {
      f := FindStops(segs, name, g + 1);
      forall i | g <= i < f
        ensures SegFind(segs[i], name, 0) == Full
      {
        if i > g {
          assert g + 1 <= i;
        }
      }
    }
  }

  /** A search that hits has hit a symbol of that name. */
  lemma HitMeans(s: Seg, name: Name)
    requires Linked(s)
    ensures match SegFind(s, name, 0)
      case Hit(b) => b < HSIZE && 0 <= s.buckets[b] < |s.syms| && s.syms[s.buckets[b]].ent.name == name
      case Vacant(b) => b < HSIZE && s.buckets[b] == -1 && |s.syms| < NSYM
      case Full => |s.syms| == NSYM
      case Botch => true
  {
    var n := SegFindStops(s, name, 0);
  }

  /** A symbol in the table is found, and found in its own bucket: present names never overflow or botch. */
  lemma FindPresent(segs: seq<Seg>, cseg: int, next: Ptr, g: nat, k: nat, name: Name)
    requires ValidTable(segs, cseg, next) && Holds(segs, g, k, name)
    ensures Find(segs, name, 0) == Found(g, segs[g].syms[k].hash)
    ensures segs[g].syms[k].hash < HSIZE && segs[g].buckets[segs[g].syms[k].hash] == k
  {
    assert PassedBefore(segs, g, segs[g].syms[k].ent.name);
    FindSkips(segs, name, 0, g);
    SegFindExisting(segs[g], k);
  }

  /** Each name occurs at most once across all segments. */
  lemma NamesUnique(segs: seq<Seg>, cseg: int, next: Ptr, g: nat, k: nat, g': nat, k': nat, name: Name)
    requires ValidTable(segs, cseg, next) && Holds(segs, g, k, name) && Holds(segs, g', k', name)
    ensures g == g' && k == k'
  {
    FindPresent(segs, cseg, next, g, k, name);
    FindPresent(segs, cseg, next, g', k', name);
  }

  /** What each way of ending the search of the table says about the table. */
  ghost predicate FindSound(segs: seq<Seg>, cseg: int, name: Name, r: Outcome)
    requires AllLinked(segs)
  {
    && (r.Found? ==> r.seg < |segs| && Linked(segs[r.seg]) && r.bucket < HSIZE && segs[r.seg].buckets[r.bucket] >= 0
                     && Holds(segs, r.seg, segs[r.seg].buckets[r.bucket], name))
    && (r.Free? ==> r.seg < NSEG && cseg <= r.seg <= |segs| && r.seg <= cseg + 1 && r.bucket < HSIZE
                    && PassedBefore(segs, r.seg, name)
                    && (if r.seg < |segs| then SegFind(segs[r.seg], name, 0) == Vacant(r.bucket)
                      else r.bucket == Hash(name)))
    && (r.Botched? ==> r.seg < |segs| && |segs[r.seg].syms| == NSYM
                       && forall p :: 0 <= p < NSYM ==> Passes(segs[r.seg], name, p, NSYM))
    && (r.Overflow? ==> |segs| == NSEG && PassedBefore(segs, NSEG, name))
  }

  lemma FindIsSound(segs: seq<Seg>, cseg: int, next: Ptr, name: Name)
    requires ValidTable(segs, cseg, next)
    ensures FindSound(segs, cseg, name, Find(segs, name, 0))
  {
    var f := FindStops(segs, name, 0);
    assert PassedBefore(segs, f, name);
    if f > 0 {
      assert SegFind(segs[f - 1], name, 0) == Full;
      HitMeans(segs[f - 1], name);
    }
    assert cseg <= f <= cseg + 1 || f < cseg;
    if f < |segs| {
      HitMeans(segs[f], name);
      BotchIff(segs[f], name);
      if |segs[f].syms| < NSYM {
        NoBotchUnlessFull(segs[f], name);
      }
    }
  }

  /**
   The table is a finite map: the search finds a name exactly when some segment holds it;
   otherwise it ends at an empty bucket of the first segment with room, or in one of the
   two error exits, a botch only in a full segment.
   */
  lemma FindIsMapLookup(segs: seq<Seg>, cseg: int, next: Ptr, name: Name)
    requires ValidTable(segs, cseg, next)
    ensures Find(segs, name, 0).Found? <==> exists g: nat, k: nat :: Holds(segs, g, k, name)
    ensures FindSound(segs, cseg, name, Find(segs, name, 0))
  {
    FindIsSound(segs, cseg, next, name);
    if g: nat, k: nat :| Holds(segs, g, k, name) {
      FindPresent(segs, cseg, next, g, k, name);
    }
    var r := Find(segs, name, 0);
    if r.Found? {
      assert Holds(segs, r.seg, segs[r.seg].buckets[r.bucket], name);
    }
  }

  // ----- the table as one list of entries: symx and xsym -----

  function Ents(syms: seq<Sym>): (r: seq<Entry>) {
    seq(|syms|, k requires 0 <= k < |syms| => syms[k].ent)
  }

  /** The entries of the first n segments, in the order in which they were entered. */
  function Flat(segs: seq<Seg>, n: nat): seq<Entry>
    requires n <= |segs|
  {
    if n == 0 then [] else Flat(segs, n - 1) + Ents(segs[n - 1].syms)
  }

  /** The index of the slot a pointer points at. */
  function Symx(p: Ptr): nat {
    if p.Null? then 0 else p.seg * NSYM + p.off
  }

  /** The slot of an index. */
  function Xsym(x: nat): Ptr {
    At(x / NSYM, x % NSYM)
  }

  /** The entries in front of segment g. */
  lemma {:induction false} FlatLen(segs: seq<Seg>, cseg: int, n: nat)
    requires n <= |segs| && Packed(segs, cseg)
    ensures n <= cseg ==> |Flat(segs, n)| == n * NSYM
    ensures 0 <= cseg < n ==> |Flat(segs, n)| == cseg * NSYM + |segs[cseg].syms|
    ensures cseg < 0 ==> Flat(segs, n) == []
  {
    if n > 0 {
      FlatLen(segs, cseg, n - 1);
    }
  }

  lemma {:induction false} FlatPrefix(segs: seq<Seg>, m: nat, n: nat)
    requires m <= n <= |segs|
    ensures |Flat(segs, m)| <= |Flat(segs, n)| && Flat(segs, n)[..|Flat(segs, m)|] == Flat(segs, m)
  {
    if m < n {
      FlatPrefix(segs, m, n - 1);
      var f := Flat(segs, n - 1);
      assert Flat(segs, n)[..|Flat(segs, m)|] == f[..|Flat(segs, m)|];
    }
  }

  /** symx: symbol k of segment g is entry g * NSYM + k. */
  lemma FlatAt(segs: seq<Seg>, cseg: int, g: nat, k: nat)
    requires Packed(segs, cseg) && g < |segs| && k < |segs[g].syms|
    ensures g <= cseg && g * NSYM + k < |Flat(segs, |segs|)|
    ensures Flat(segs, |segs|)[g * NSYM + k] == segs[g].syms[k].ent
  {
    FlatLen(segs, cseg, g);
    FlatPrefix(segs, g + 1, |segs|);
    var f, all, x := Flat(segs, g + 1), Flat(segs, |segs|), g * NSYM + k;
    assert f[x] == (Flat(segs, g) + Ents(segs[g].syms))[x] == Ents(segs[g].syms)[k];
    assert all[x] == all[..|f|][x];
  }

  /** xsym inverts symx on the slots in use. */
  lemma XsymInvertsSymx(segs: seq<Seg>, cseg: int, x: nat)
    requires Packed(segs, cseg) && cseg < |segs| && x < |Flat(segs, |segs|)|
    requires 0 <= cseg ==> |segs[cseg].syms| <= NSYM
    ensures var p := Xsym(x);
      p.seg < |segs| && p.off < |segs[p.seg].syms| && Symx(p) == x
        && Flat(segs, |segs|)[x] == segs[p.seg].syms[p.off].ent
  {
    FlatLen(segs, cseg, |segs|);
    var g, k := x / NSYM, x % NSYM;
    assert x == g * NSYM + k;
    assert 0 <= cseg && x < cseg * NSYM + |segs[cseg].syms|;
    assert g > cseg ==> g * NSYM >= (cseg + 1) * NSYM;
    FlatAt(segs, cseg, g, k);
  }

  lemma {:induction false} FlatSame(segs: seq<Seg>, segs': seq<Seg>, n: nat)
    requires n <= |segs| && n <= |segs'|
    requires forall g :: 0 <= g < n ==> Ents(segs[g].syms) == Ents(segs'[g].syms)
    ensures Flat(segs, n) == Flat(segs', n)
  {
    if n > 0 {
      FlatSame(segs, segs', n - 1);
    }
  }

  /** Segments with no symbols add nothing. */
  lemma {:induction false} FlatEmptyTail(segs: seq<Seg>, m: nat, n: nat)
    requires m <= n <= |segs|
    requires forall g :: m <= g < n ==> segs[g].syms == []
    ensures Flat(segs, n) == Flat(segs, m)
  {
    if m < n {
      FlatEmptyTail(segs, m, n - 1);
      assert Ents(segs[n - 1].syms) == [];
    }
  }

  // ----- growing, entering and cutting the table -----

  /** segs1 holds what segs0 holds, in the same slots and buckets, and perhaps newer symbols. */
  ghost predicate Extends(segs0: seq<Seg>, segs1: seq<Seg>) {
    && |segs0| <= |segs1|
    && forall g :: 0 <= g < |segs0| ==>
         && |segs0[g].syms| <= |segs1[g].syms|
         && forall k :: 0 <= k < |segs0[g].syms| ==>
              segs0[g].syms[k].ent.name == segs1[g].syms[k].ent.name && segs0[g].syms[k].hash == segs1[g].syms[k].hash
  }

  lemma ExtendsTransitive(a: seq<Seg>, b: seq<Seg>, c: seq<Seg>)
    requires Extends(a, b) && Extends(b, c)
    ensures Extends(a, c)
  {
    forall g | 0 <= g < |a|
      ensures |a[g].syms| <= |c[g].syms|
      ensures forall k :: 0 <= k < |a[g].syms| ==>
        a[g].syms[k].ent.name == c[g].syms[k].ent.name && a[g].syms[k].hash == c[g].syms[k].hash
    {
      assert |a[g].syms| <= |b[g].syms| <= |c[g].syms|;
    }
  }

  lemma EmptySegValid()
    ensures ValidSeg(EmptySeg)
  {
  }

  lemma EmptySegVacant(name: Name)
    ensures Linked(EmptySeg) && SegFind(EmptySeg, name, 0) == Vacant(Hash(name))
  {
    EmptySegValid();
  }

  lemma {:induction false} FindGrow(segs: seq<Seg>, name: Name, g: nat)
    requires g <= NSEG && |segs| < NSEG && AllLinked(segs) && AllLinked(segs + [EmptySeg])
    ensures Find(segs + [EmptySeg], name, g) == Find(segs, name, g)
    decreases NSEG - g
  {
    if g == |segs| {
      EmptySegVacant(name);
    } else if g < NSEG {
      FindGrow(segs, name, g + 1);
    }
  }

  lemma GrowReached(segs: seq<Seg>)
    requires AllLinked(segs) && Reached(segs)
    ensures AllLinked(segs + [EmptySeg]) && Reached(segs + [EmptySeg])
  {
    EmptySegValid();
    var t := segs + [EmptySeg];
    forall g, k | 0 <= g < |t| && 0 <= k < |t[g].syms|
      ensures PassedBefore(t, g, t[g].syms[k].ent.name)
    {
      assert PassedBefore(segs, g, segs[g].syms[k].ent.name);
    }
  }

  /** Allocating a further segment changes no search... */
  lemma GrowValid(segs: seq<Seg>, cseg: int, next: Ptr)
    requires ValidTable(segs, cseg, next) && |segs| < NSEG
    ensures ValidTable(segs + [EmptySeg], cseg, next)
  {
    var t := segs + [EmptySeg];
    GrowReached(segs);
    EmptySegValid();
    assert AllValid(t);
    assert Packed(t, cseg);
    assert NextIs(t, next);
  }

  /** ... and no entry. */
  lemma GrowFlat(segs: seq<Seg>)
    ensures Flat(segs + [EmptySeg], |segs| + 1) == Flat(segs, |segs|)
    ensures Extends(segs, segs + [EmptySeg])
  {
    var t := segs + [EmptySeg];
    FlatEmptyTail(t, |segs|, |segs| + 1);
    FlatSame(segs, t, |segs|);
  }

  /** The current segment may move on to the next one once every segment before that is full. */
  lemma AdvanceValid(segs: seq<Seg>, cseg: int, next: Ptr, g: nat)
    requires ValidTable(segs, cseg, next) && cseg <= g < |segs|
    requires forall f :: 0 <= f < g ==> |segs[f].syms| == NSYM
    ensures ValidTable(segs, g, next)
  {
  }

  // ----- entering a symbol -----

  function PushAt(segs: seq<Seg>, g: nat, e: Entry, b: nat): seq<Seg>
    requires g < |segs| && b < |segs[g].buckets|
  {
    segs[g := Push(segs[g], e, b)]
  }

  lemma PushReached(segs: seq<Seg>, g: nat, e: Entry, b: nat)
    requires AllLinked(segs) && Reached(segs) && g < |segs| && PassedBefore(segs, g, e.name)
    requires b < HSIZE && Linked(Push(segs[g], e, b))
    requires forall f :: g < f < |segs| ==> segs[f].syms == []
    ensures AllLinked(PushAt(segs, g, e, b)) && Reached(PushAt(segs, g, e, b))
  {
    var t := PushAt(segs, g, e, b);
    forall f, k | 0 <= f < |t| && 0 <= k < |t[f].syms|
      ensures PassedBefore(t, f, t[f].syms[k].ent.name)
    {
      var name := t[f].syms[k].ent.name;
      assert f <= g;
      if f == g && k == |segs[g].syms| {
        assert PassedBefore(segs, f, name);
      } else {
        assert name == segs[f].syms[k].ent.name;
        assert PassedBefore(segs, f, name);
      }
    }
  }

  lemma PushExtends(segs: seq<Seg>, cseg: nat, e: Entry, b: nat)
    requires cseg < |segs| && b < |segs[cseg].buckets|
    ensures Extends(segs, PushAt(segs, cseg, e, b))
  {
  }

  lemma PushFlat(segs: seq<Seg>, cseg: nat, e: Entry, b: nat)
    requires cseg < |segs| && b < |segs[cseg].buckets| && Packed(segs, cseg)
    ensures var t := PushAt(segs, cseg, e, b); Flat(t, |t|) == Flat(segs, |segs|) + [e] && Extends(segs, t)
  {
    var t := PushAt(segs, cseg, e, b);
    FlatEmptyTail(segs, cseg + 1, |segs|);
    FlatEmptyTail(t, cseg + 1, |t|);
    FlatSame(segs, t, cseg);
    assert Ents(t[cseg].syms) == Ents(segs[cseg].syms) + [e];
    PushExtends(segs, cseg, e, b);
  }

  /** Entering a new name where its search ended keeps the table valid. */
  lemma PushTableValid(segs: seq<Seg>, cseg: int, next: Ptr, e: Entry, b: nat)
    requires ValidTable(segs, cseg, next) && 0 <= cseg
    requires Find(segs, e.name, 0) == Free(cseg, b)
    ensures b < HSIZE && Linked(segs[cseg])
    ensures ValidTable(PushAt(segs, cseg, e, b), cseg, At(cseg, |segs[cseg].syms| + 1))
  {
    FindIsSound(segs, cseg, next, e.name);
    PushValid(segs[cseg], e, b);
    var t := PushAt(segs, cseg, e, b);
    PushReached(segs, cseg, e, b);
    assert AllValid(t);
    assert Packed(t, cseg);
    assert NextIs(t, At(cseg, |segs[cseg].syms| + 1));
  }

  // ----- removing the newest symbols -----

  /** The table without the symbols from p on. */
  function CutTable(segs: seq<Seg>, p: Ptr): seq<Seg>
    requires p.At? && (p.seg < |segs| ==> p.off <= |segs[p.seg].syms|)
  {
    seq(|segs|, g requires 0 <= g < |segs| =>
      if g < p.seg then segs[g] else if g == p.seg then Cut(segs[g], p.off) else Cut(segs[g], 0))
  }

  lemma CutAll(s: Seg)
    requires Linked(s)
    ensures Cut(s, 0) == EmptySeg
  {
  }

  lemma CutReached(segs: seq<Seg>, p: Ptr)
    requires AllLinked(segs) && Reached(segs) && p.At? && p.seg < |segs| && p.off <= |segs[p.seg].syms|
    requires AllLinked(CutTable(segs, p))
    ensures Reached(CutTable(segs, p))
  {
    var t := CutTable(segs, p);
    forall f, k | 0 <= f < |t| && 0 <= k < |t[f].syms|
      ensures PassedBefore(t, f, t[f].syms[k].ent.name)
    {
      assert f <= p.seg;
      assert PassedBefore(segs, f, segs[f].syms[k].ent.name);
    }
  }

  lemma CutAllValid(segs: seq<Seg>, p: Ptr)
    requires AllValid(segs) && p.At? && p.seg < |segs| && p.off <= |segs[p.seg].syms|
    ensures AllValid(CutTable(segs, p))
  {
    var t := CutTable(segs, p);
    forall g | 0 <= g < |segs|
      ensures ValidSeg(t[g])
    {
      if g >= p.seg {
        CutValid(segs[g], if g == p.seg then p.off else 0);
      }
    }
  }

  /** Cutting back to an earlier end of the table keeps the table valid... */
  lemma CutTableValid(segs: seq<Seg>, cseg: int, next: Ptr, p: Ptr)
    requires ValidTable(segs, cseg, next)
    requires p.At? && p.seg <= cseg && 0 < p.off <= |segs[p.seg].syms|
    ensures ValidTable(CutTable(segs, p), p.seg, p)
  {
    CutAllValid(segs, p);
    CutReached(segs, p);
    var t := CutTable(segs, p);
    assert Packed(t, p.seg);
    assert NextIs(t, p);
  }

  lemma PrefixOfPrefix(all: seq<Entry>, m: nat, n: nat)
    requires n <= m <= |all|
    ensures all[..m][..n] == all[..n]
  {
  }

  /** ... and cuts the list of entries. */
  lemma CutFlat(segs: seq<Seg>, cseg: int, p: Ptr)
    requires Packed(segs, cseg) && p.At? && p.seg <= cseg < |segs| && 0 < p.off <= |segs[p.seg].syms|
    ensures Symx(p) <= |Flat(segs, |segs|)|
    ensures Flat(CutTable(segs, p), |segs|) == Flat(segs, |segs|)[..Symx(p)]
  {
    var t := CutTable(segs, p);
    FlatEmptyTail(t, p.seg + 1, |t|);
    FlatSame(segs, t, p.seg);
    FlatLen(segs, cseg, p.seg);
    FlatPrefix(segs, p.seg + 1, |segs|);
    assert Ents(t[p.seg].syms) == Ents(segs[p.seg].syms)[..p.off];
    var f, all := Flat(segs, p.seg + 1), Flat(segs, |segs|);
    assert Flat(t, p.seg + 1) == f[..Symx(p)];
    PrefixOfPrefix(all, |f|, Symx(p));
  }

  // ----- rollback -----

  /** A search sees only names and buckets. */
  lemma {:induction false} SegFindSame(s: Seg, t: Seg, name: Name, j: nat)
    requires Linked(s) && Linked(t) && j <= NSYM
    requires s.buckets == t.buckets && |s.syms| == |t.syms|
    requires forall k :: 0 <= k < |s.syms| ==> s.syms[k].ent.name == t.syms[k].ent.name
    ensures SegFind(s, name, j) == SegFind(t, name, j)
    decreases NSYM - j
  {
    if j < NSYM {
      SegFindSame(s, t, name, j + 1);
    }
  }

  /** Cutting a segment that has only grown gives back every bucket and every name it had. */
  lemma CutRestores(s: Seg, t: Seg)
    requires Linked(s) && Linked(t) && |s.syms| <= |t.syms|
    requires forall k :: 0 <= k < |s.syms| ==>
      s.syms[k].ent.name == t.syms[k].ent.name && s.syms[k].hash == t.syms[k].hash
    ensures Cut(t, |s.syms|).buckets == s.buckets
    ensures forall k :: 0 <= k < |s.syms| ==> Cut(t, |s.syms|).syms[k].ent.name == s.syms[k].ent.name
  {
    var c := Cut(t, |s.syms|);
    forall b | 0 <= b < HSIZE
      ensures c.buckets[b] == s.buckets[b]
    {
      if s.buckets[b] >= 0 {
        assert t.syms[s.buckets[b]].hash == b;
      }
      if 0 <= t.buckets[b] < |s.syms| {
        assert s.syms[t.buckets[b]].hash == b;
      }
    }
  }

  lemma {:induction false} FindSame(a: seq<Seg>, c: seq<Seg>, name: Name, g: nat)
    requires |a| <= |c| <= NSEG && AllLinked(a) && AllLinked(c) && g <= NSEG
    requires forall f :: 0 <= f < |a| ==> SegFind(a[f], name, 0) == SegFind(c[f], name, 0)
    requires forall f :: |a| <= f < |c| ==> c[f] == EmptySeg
    ensures Find(a, name, g) == Find(c, name, g)
    decreases NSEG - g
  {
    if g < NSEG {
      FindSame(a, c, name, g + 1);
    }
  }

  /**
   Back-out is a rollback: cut a table that has only grown back to where its next pointer was,
   and every name is searched for as it was then, ending in the same bucket of the same segment.
   */
  lemma RollbackRestoresSearches(segs0: seq<Seg>, cseg0: int, next0: Ptr, segs1: seq<Seg>, cseg1: int, next1: Ptr,
        name: Name)
    requires ValidTable(segs0, cseg0, next0) && ValidTable(segs1, cseg1, next1)
    requires next0.At? && Extends(segs0, segs1)
    ensures next0.off <= |segs1[next0.seg].syms|
    ensures AllLinked(CutTable(segs1, next0))
    ensures Find(CutTable(segs1, next0), name, 0) == Find(segs0, name, 0)
  {
    CutAllValid(segs1, next0);
    var c := CutTable(segs1, next0);
    forall f | 0 <= f < |c|
      ensures f < |segs0| ==> SegFind(segs0[f], name, 0) == SegFind(c[f], name, 0)
      ensures f >= |segs0| ==> c[f] == EmptySeg
    {
      if f < next0.seg {
        FullStays(segs0, cseg0, next0, segs1, f);
        SegFindSame(segs0[f], c[f], name, 0);
      } else if f < |segs0| {
        assert |segs0[f].syms| == if f == next0.seg then next0.off else 0;
        CutRestores(segs0[f], segs1[f]);
        SegFindSame(segs0[f], c[f], name, 0);
      } else {
        CutAll(segs1[f]);
      }
    }
    FindSame(segs0, c, name, 0);
  }

  lemma RollbackRestoresAllSearches(segs0: seq<Seg>, cseg0: int, next0: Ptr, segs1: seq<Seg>, cseg1: int, next1: Ptr)
    requires ValidTable(segs0, cseg0, next0) && ValidTable(segs1, cseg1, next1)
    requires next0.At? && Extends(segs0, segs1)
    ensures next0.off <= |segs1[next0.seg].syms|
    ensures AllLinked(CutTable(segs1, next0))
    ensures forall name :: Find(CutTable(segs1, next0), name, 0) == Find(segs0, name, 0)
    ensures AllLinked(segs0) && SameSearches(segs0, CutTable(segs1, next0))
  {
    CutAllValid(segs1, next0);
    forall name
      ensures Find(CutTable(segs1, next0), name, 0) == Find(segs0, name, 0)
    {
      RollbackRestoresSearches(segs0, cseg0, next0, segs1, cseg1, next1, name);
    }
  }

  /** A segment in front of the newest symbol is full, so growth leaves it alone. */
  lemma FullStays(segs0: seq<Seg>, cseg0: int, next0: Ptr, segs1: seq<Seg>, f: nat)
    requires ValidTable(segs0, cseg0, next0) && AllLinked(segs1) && Extends(segs0, segs1)
    requires next0.At? && f < next0.seg
    ensures |segs0[f].syms| == |segs1[f].syms| == NSYM && segs0[f].buckets == segs1[f].buckets
  {
    assert segs0[next0.seg].syms != [];
    assert next0.seg <= cseg0;
    assert ValidSeg(segs0[f]) && Linked(segs1[f]);
    CutRestores(segs0[f], segs1[f]);
    assert Cut(segs1[f], NSYM).buckets == segs1[f].buckets;
  }

  lemma PassOne(segs: seq<Seg>, g: nat, name: Name)
    requires AllLinked(segs) && g < |segs| && PassedBefore(segs, g, name) && SegFind(segs[g], name, 0) == Full
    ensures PassedBefore(segs, g + 1, name)
  {
    forall f | 0 <= f < g + 1
      ensures SegFind(segs[f], name, 0) == Full
    {
      if f < g {
        assert PassedBefore(segs, g, name);
      }
    }
  }

  /** The search for a name ends the same way in both tables. */
  ghost predicate SameSearch(segs0: seq<Seg>, segs1: seq<Seg>, name: Name)
    requires AllLinked(segs0) && AllLinked(segs1)
  {
    Find(segs0, name, 0) == Find(segs1, name, 0)
  }

  /** Every search does. */
  ghost predicate SameSearches(segs0: seq<Seg>, segs1: seq<Seg>)
    requires AllLinked(segs0) && AllLinked(segs1)
  {
    forall name :: SameSearch(segs0, segs1, name)
  }

  lemma SameSearchesTransitive(a: seq<Seg>, b: seq<Seg>, c: seq<Seg>)
    requires AllLinked(a) && AllLinked(b) && AllLinked(c) && SameSearches(a, b) && SameSearches(b, c)
    ensures SameSearches(a, c)
  {
    forall name
      ensures SameSearch(a, c, name)
    {
      assert SameSearch(a, b, name) && SameSearch(b, c, name);
    }
  }

  lemma SearchIsSame(a: seq<Seg>, b: seq<Seg>, name: Name)
    requires AllLinked(a) && AllLinked(b) && SameSearches(a, b)
    ensures Find(a, name, 0) == Find(b, name, 0)
  {
    assert SameSearch(a, b, name);
  }

  lemma GrowKeepsSearches(segs: seq<Seg>)
    requires AllLinked(segs) && AllLinked(segs + [EmptySeg]) && |segs| < NSEG
    ensures SameSearches(segs, segs + [EmptySeg])
  {
    forall name
      ensures SameSearch(segs, segs + [EmptySeg], name)
    {
      FindGrow(segs, name, 0);
    }
  }

  lemma SearchesSame(segs: seq<Seg>)
    requires AllLinked(segs)
    ensures SameSearches(segs, segs)
  {
    forall name
      ensures SameSearch(segs, segs, name)
    {
    }
  }

  lemma PassedAreFull(segs: seq<Seg>, name: Name, g: nat)
    requires AllLinked(segs) && g <= |segs| && PassedBefore(segs, g, name)
    ensures forall f :: 0 <= f < g ==> |segs[f].syms| == NSYM
  {
    forall f | 0 <= f < g
      ensures |segs[f].syms| == NSYM
    {
      HitMeans(segs[f], name);
    }
  }

  /** A round of lookup's loop over the segments that allocates one. */
  lemma GrowRound(segs: seq<Seg>, cseg: int, next: Ptr, name: Name)
    requires ValidTable(segs, cseg, next) && |segs| < NSEG && PassedBefore(segs, |segs|, name)
    ensures var t := segs + [EmptySeg];
      && ValidTable(t, |segs|, next) && PassedBefore(t, |segs|, name) && Find(t, name, 0) == Find(t, name, |segs|)
      && Flat(t, |t|) == Flat(segs, |segs|) && Extends(segs, t) && SameSearches(segs, t)
  {
    PassedAreFull(segs, name, |segs|);
    GrowValid(segs, cseg, next);
    GrowFlat(segs);
    GrowKeepsSearches(segs);
    FindSkips(segs + [EmptySeg], name, 0, |segs|);
    AdvanceValid(segs + [EmptySeg], cseg, next, |segs|);
  }

  /** A round that does not. */
  lemma StayRound(segs: seq<Seg>, cseg: int, next: Ptr, name: Name, g: nat)
    requires ValidTable(segs, cseg, next) && g < |segs| && PassedBefore(segs, g, name)
    ensures ValidTable(segs, if g > cseg then g else cseg, next)
    ensures Find(segs, name, 0) == Find(segs, name, g) && SameSearches(segs, segs)
  {
    PassedAreFull(segs, name, g);
    SearchesSame(segs);
    FindSkips(segs, name, 0, g);
    if g > cseg {
      AdvanceValid(segs, cseg, next, g);
    }
  }

  // ----- single steps of the in-place updates -----

  function AssignAt(segs: seq<Seg>, p: Ptr, kind: Kind, value: int): seq<Seg>
    requires p.At? && p.seg < |segs| && p.off < |segs[p.seg].syms|
  {
    var s := segs[p.seg];
    segs[p.seg := Seg(s.syms[p.off := Sym(Entry(s.syms[p.off].ent.name, kind, value), s.syms[p.off].hash)], s.buckets)]
  }

  /** The validity of a segment depends on names and buckets only. */
  lemma SegAssignValid(s: Seg, k: nat, kind: Kind, value: int)
    requires ValidSeg(s) && k < |s.syms|
    ensures ValidSeg(Seg(s.syms[k := Sym(Entry(s.syms[k].ent.name, kind, value), s.syms[k].hash)], s.buckets))
  {
    var t := Seg(s.syms[k := Sym(Entry(s.syms[k].ent.name, kind, value), s.syms[k].hash)], s.buckets);
    assert Linked(t);
    forall i | 0 <= i < |t.syms|
      ensures Chained(t, i)
    {
      assert Chained(s, i);
      var j: nat :| ChainAt(s, i, j);
      forall m | 0 <= m < j
        ensures Passes(t, t.syms[i].ent.name, m, i)
      {
        assert Passes(s, s.syms[i].ent.name, m, i);
      }
      assert ChainAt(t, i, j);
    }
  }

  lemma AssignReached(segs: seq<Seg>, p: Ptr, kind: Kind, value: int)
    requires AllLinked(segs) && Reached(segs) && p.At? && p.seg < |segs| && p.off < |segs[p.seg].syms|
    requires AllLinked(AssignAt(segs, p, kind, value))
    ensures Reached(AssignAt(segs, p, kind, value))
  {
    var t := AssignAt(segs, p, kind, value);
    forall g, k | 0 <= g < |t| && 0 <= k < |t[g].syms|
      ensures PassedBefore(t, g, t[g].syms[k].ent.name)
    {
      var name := t[g].syms[k].ent.name;
      assert name == segs[g].syms[k].ent.name;
      assert PassedBefore(segs, g, name);
      forall f | 0 <= f < g
        ensures SegFind(t[f], name, 0) == Full
      {
        SegFindSame(segs[f], t[f], name, 0);
      }
    }
  }

  lemma AssignValid(segs: seq<Seg>, cseg: int, next: Ptr, p: Ptr, kind: Kind, value: int)
    requires ValidTable(segs, cseg, next) && p.At? && p.seg < |segs| && p.off < |segs[p.seg].syms|
    ensures ValidTable(AssignAt(segs, p, kind, value), cseg, next)
  {
    var t := AssignAt(segs, p, kind, value);
    SegAssignValid(segs[p.seg], p.off, kind, value);
    assert AllValid(t);
    AssignReached(segs, p, kind, value);
    assert Packed(t, cseg);
    assert NextIs(t, next);
  }

  lemma AssignExtends(segs: seq<Seg>, p: Ptr, kind: Kind, value: int)
    requires p.At? && p.seg < |segs| && p.off < |segs[p.seg].syms|
    ensures Extends(segs, AssignAt(segs, p, kind, value))
  {
  }

  lemma AssignFlat(segs: seq<Seg>, cseg: int, p: Ptr, kind: Kind, value: int)
    requires Packed(segs, cseg) && p.At? && p.seg < |segs| && p.off < |segs[p.seg].syms| && cseg < |segs|
    requires 0 <= cseg ==> |segs[cseg].syms| <= NSYM
    ensures Symx(p) < |Flat(segs, |segs|)|
    ensures var f := Flat(segs, |segs|);
      Flat(AssignAt(segs, p, kind, value), |segs|) == f[Symx(p) := Entry(f[Symx(p)].name, kind, value)]
  {
    var t, f := AssignAt(segs, p, kind, value), Flat(segs, |segs|);
    FlatAt(segs, cseg, p.seg, p.off);
    FlatLen(segs, cseg, |segs|);
    FlatLen(t, cseg, |segs|);
    forall x | 0 <= x < |f|
      ensures Flat(t, |t|)[x] == if x == Symx(p) then Entry(f[x].name, kind, value) else f[x]
    {
      XsymInvertsSymx(segs, cseg, x);
      XsymInvertsSymx(t, cseg, x);
      AssignSlot(segs, p, kind, value, Xsym(x));
    }
  }

  lemma AssignSlot(segs: seq<Seg>, p: Ptr, kind: Kind, value: int, q: Ptr)
    requires p.At? && p.seg < |segs| && p.off < |segs[p.seg].syms| && q.At? && q.seg < |segs|
    requires q.off < |segs[q.seg].syms|
    ensures var t := AssignAt(segs, p, kind, value);
      && |t| == |segs| && |t[q.seg].syms| == |segs[q.seg].syms|
      && t[q.seg].syms[q.off].ent == if q == p then Entry(segs[q.seg].syms[q.off].ent.name, kind, value)
        else segs[q.seg].syms[q.off].ent
  {
  }

  lemma CutNone(s: Seg)
    requires Linked(s)
    ensures Cut(s, |s.syms|) == s
  {
  }

  /** Removing the newest symbol is emptying its bucket. */
  lemma CutOne(s: Seg, n: nat)
    requires Linked(s) && n < |s.syms|
    ensures var c := Cut(s, n + 1);
      Cut(s, n) == Seg(c.syms[..n], c.buckets[c.syms[n].hash := -1])
  {
    var c := Cut(s, n + 1);
    assert c.syms[n] == s.syms[n];
    forall b | 0 <= b < HSIZE
      ensures Cut(s, n).buckets[b] == c.buckets[c.syms[n].hash := -1][b]
    {
    }
  }

  lemma CutTableIs(segs: seq<Seg>, t: seq<Seg>, p: Ptr)
    requires p.At? && (p.seg < |segs| ==> p.off <= |segs[p.seg].syms|) && |t| == |segs|
    requires forall g :: 0 <= g < |segs| ==>
      t[g] == if g < p.seg then segs[g] else if g == p.seg then Cut(segs[g], p.off) else Cut(segs[g], 0)
    ensures t == CutTable(segs, p)
  {
  }

  /**
   Backing out to a null pointer empties the table but leaves next alone, so the table is
   left valid exactly when nothing had been entered.
   */
  lemma NullBackOutIff(segs: seq<Seg>, cseg: int, next: Ptr)
    requires ValidTable(segs, cseg, next)
    ensures ValidTable(CutTable(segs, At(0, 0)), -1, next) <==> next.Null?
  {
    var t := CutTable(segs, At(0, 0));
    forall g | 0 <= g < |t|
      ensures ValidSeg(t[g]) && t[g].syms == []
    {
      CutValid(segs[g], 0);
    }
    assert AllValid(t) && Packed(t, -1) && Reached(t);
    if next.At? {
      assert t[next.seg].syms == [];
    }
  }

  /** One symbol entered and backed out to null: next dangles. */
  lemma NullBackOutDangles(e: Entry)
    ensures var segs := PushAt([EmptySeg], 0, e, Hash(e.name));
      ValidTable(segs, 0, At(0, 1)) && !ValidTable(CutTable(segs, At(0, 0)), -1, At(0, 1))
  {
    EmptySegVacant(e.name);
    assert ValidTable([EmptySeg], 0, Null);
    PushTableValid([EmptySeg], 0, Null, e, Hash(e.name));
    NullBackOutIff(PushAt([EmptySeg], 0, e, Hash(e.name)), 0, At(0, 1));
  }

  /** The table holds at most NSEG * NSYM entries. */
  lemma FlatBound(segs: seq<Seg>, cseg: int, next: Ptr)
    requires ValidTable(segs, cseg, next)
    ensures |Flat(segs, |segs|)| <= NSEG * NSYM
  {
    FlatLen(segs, cseg, |segs|);
    if cseg >= 0 {
      assert ValidSeg(segs[cseg]);
    }
  }

  /** The newest slot's successor has the index of the next entry. */
  lemma NextIndex(segs: seq<Seg>, cseg: int, next: Ptr)
    requires ValidTable(segs, cseg, next)
    ensures Symx(next) == |Flat(segs, |segs|)|
  {
    if next.Null? {
      FlatEmptyTail(segs, 0, |segs|);
    } else {
      FlatEmptyTail(segs, next.seg + 1, |segs|);
      assert next.seg <= cseg;
      FlatLen(segs, cseg, next.seg);
    }
  }

  // ----- lookup's error exits -----

  /** The search for a name ends in an error exit, a botch or an overflow. */
  ghost predicate Stuck(segs: seq<Seg>, name: Name)
    requires AllLinked(segs)
  {
    Find(segs, name, 0).Botched? || Find(segs, name, 0).Overflow?
  }

  /** No search is ever stuck before some segment is full. */
  lemma StuckNeedsFullSegment(segs: seq<Seg>, cseg: int, next: Ptr, name: Name)
    requires ValidTable(segs, cseg, next) && Stuck(segs, name)
    ensures |Flat(segs, |segs|)| >= NSYM
  {
    FindIsSound(segs, cseg, next, name);
    var r := Find(segs, name, 0);
    var g := if r.Botched? then r.seg else 0;
    if r.Overflow? {
      assert SegFind(segs[g], name, 0) == Full;
      HitMeans(segs[g], name);
    }
    FlatAt(segs, cseg, g, NSYM - 1);
  }
}
