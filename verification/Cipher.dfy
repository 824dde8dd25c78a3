/**
 The editor's rotor cipher: setting up its three permutations from a seed, and
 encrypting a buffer in place. Characters are numbers modulo 256.
 */
module Cipher {
  import opened Bytes
  import opened Probing

  // ----- the random stream -----

  /** A 32-bit signed number. */
  function Wrap32(v: int): int {
    (v + 0x8000_0000) % 0x1_0000_0000 - 0x8000_0000
  }

  /** The number of 32 bits that leaves the same remainder. */
  lemma Wrap32Is(v: int)
    ensures -0x8000_0000 <= Wrap32(v) < 0x8000_0000 && Wrap32(v) % 0x1_0000_0000 == v % 0x1_0000_0000
  {
  }

  /** seed % 65521 as C computes it, and as the unsigned number it is stored in. */
  function Random(seed: int): (r: nat) {
    var rem := if seed >= 0 then seed % 65521 else -((-seed) % 65521);
    if rem >= 0 then rem else rem + 0x1_0000_0000
  }

  /** The remainder has the sign of the seed; a negative one is stored as the unsigned number congruent to it. */
  lemma RandomIs(seed: int)
    ensures seed >= 0 ==> Random(seed) < 65521 && Random(seed) % 65521 == seed % 65521
    ensures seed < 0 ==>
      var rem := Random(seed) - (if seed % 65521 == 0 then 0 else 0x1_0000_0000);
      -65521 < rem <= 0 && rem % 65521 == seed % 65521
  {
  }

  /** (random & 0377) % k. */
  function Below(random: nat, k: nat): (r: nat)
    requires k > 0
    ensures r < k
  {
    random % 256 % k
  }

  /** (ic + 1) % k. */
  function NextSlot(ic: nat, k: nat): (r: nat)
    requires ic < k
    ensures r == if ic + 1 == k then 0 else ic + 1
  {
    DivModUnique(ic + 1, k, if ic + 1 == k then 1 else 0, if ic + 1 == k then 0 else ic + 1);
    (ic + 1) % k
  }

  // ----- the seeds -----

  /** The seed after n characters of the key. */
  function FirstSeed(buf: seq<int>, n: nat): int
    requires n <= |buf|
  {
    if n == 0 then 123 else Wrap32(FirstSeed(buf, n - 1) * buf[n - 1] + (n - 1))
  }

  /** The seeds of the rounds: the first from the key, each later one from the one before and a character of the key. */
  ghost predicate AreSeeds(seeds: seq<int>, buf: seq<int>, n: nat)
    requires |buf| == 13
  {
    && |seeds| == n + 1 && seeds[0] == FirstSeed(buf, 13)
    && forall i :: 0 <= i < n ==> seeds[i + 1] == Wrap32(5 * seeds[i] + buf[i % 13])
  }

  /** The identity after n exchanges: round i exchanges slot 255 - i with a random slot not above it. */
  ghost function Exchanged(seeds: seq<int>, n: nat): (t: seq<Byte>)
    requires n < |seeds| && n <= 256
    ensures |t| == 256
  {
    if n == 0 then seq(256, (i: nat) requires i < 256 => i)
    else
      var t, k := Exchanged(seeds, n - 1), 256 - n;
      var ic := Random(seeds[n]) % 256 % (k + 1);
      t[k := t[ic]][ic := t[k]]
  }

  /** Where the search for the partner of slot k begins. */
  ghost function SearchFrom(seeds: seq<int>, k: nat): (start: nat)
    requires |seeds| == 257 && 0 < k < 256
    ensures start < k
  {
    Random(seeds[256 - k]) / 256 % 256 % k
  }

  /** Slot j is passed on the way from start up to end, going round below k. */
  ghost predicate Passed(start: nat, j: nat, end: nat, k: nat) {
    j < k && if start <= end then start <= j < end else start <= j || j < end
  }

  /**
   The partner of a slot not paired from above is the first free slot below it from start on, going
   round: every slot passed has its partner above k.
   */
  ghost predicate Partnered(t3: seq<Byte>, start: nat, k: nat)
    requires k < |t3|
  {
    t3[k] < k ==> forall j :: 0 <= j < |t3| && Passed(start, j, t3[k], k) ==> t3[j] > k
  }

  /** All slots above k have found their partners. */
  ghost predicate AllPartnered(t3: seq<Byte>, seeds: seq<int>, k: int)
    requires |t3| == 256 && |seeds| == 257
  {
    forall b :: 0 < b < 256 && k < b ==> Partnered(t3, SearchFrom(seeds, b), b)
  }

  /** A slot that has had its round keeps its byte. */
  lemma {:induction false} ExchangedStays(seeds: seq<int>, k: nat, n: nat)
    requires k < 256 && 256 - k <= n <= 256 && n < |seeds|
    ensures Exchanged(seeds, n)[k] == Exchanged(seeds, 256 - k)[k]
    decreases n
  {
    if n > 256 - k {
      ExchangedStays(seeds, k, n - 1);
    }
  }

  /** What the first round does can be told from its seed alone. */
  lemma FirstRound(seeds: seq<int>, t1: seq<Byte>, t3: seq<Byte>)
    requires |seeds| == 257 && t1 == Exchanged(seeds, 256) && Pairing(t3) && AllPartnered(t3, seeds, 0)
    ensures t1[255] == Random(seeds[1]) % 256
    ensures t3[255] == Random(seeds[1]) / 256 % 256 % 255
  {
    ExchangedStays(seeds, 255, 256);
    assert Exchanged(seeds, 0)[Random(seeds[1]) % 256 % 256] == Random(seeds[1]) % 256;
    assert Partnered(t3, SearchFrom(seeds, 255), 255);
    var start := SearchFrom(seeds, 255);
    assert Passed(start, start, t3[255], 255) || start == t3[255];
  }

  // ----- permutations -----

  ghost predicate IsPermutation(t: seq<Byte>) {
    && |t| == 256
    && (forall i, j :: 0 <= i < j < 256 ==> t[i] != t[j])
  }

  /** Every byte occurs in a permutation. */
  ghost predicate Inverse(t1: seq<Byte>, t2: seq<Byte>) {
    && |t1| == |t2| == 256
    && (forall i :: 0 <= i < 256 ==> t2[t1[i]] == i)
    && (forall b :: 0 <= b < 256 ==> t1[t2[b]] == b)
  }

  /** A pairing of all bytes: its own inverse, and no byte goes to itself. */
  ghost predicate Pairing(t3: seq<Byte>) {
    && |t3| == 256
    && (forall b :: 0 <= b < 256 ==> t3[t3[b]] == b && t3[b] != b)
  }

  /** The permutations the cipher needs. */
  ghost predicate Machine(t1: seq<Byte>, t2: seq<Byte>, t3: seq<Byte>) {
    Inverse(t1, t2) && Pairing(t3)
  }

  // ----- the parity argument -----

  /** How many of the first k slots are still 0. */
  function Unpaired(t3: seq<Byte>, k: nat): nat
    requires k <= |t3|
  {
    if k == 0 then 0 else Unpaired(t3, k - 1) + (if t3[k - 1] == 0 then 1 else 0)
  }

  lemma {:induction false} UnpairedSame(t: seq<Byte>, t': seq<Byte>, k: nat)
    requires k <= |t| && k <= |t'| && forall i :: 0 <= i < k ==> (t[i] == 0 <==> t'[i] == 0)
    ensures Unpaired(t, k) == Unpaired(t', k)
  {
    if k > 0 {
      UnpairedSame(t, t', k - 1);
    }
  }

  /** Pairing one slot below k takes one away. */
  lemma {:induction false} UnpairedLess(t: seq<Byte>, i: nat, v: Byte, k: nat)
    requires i < k <= |t| && t[i] == 0 && v != 0
    ensures Unpaired(t[i := v], k) == Unpaired(t, k) - 1
  {
    if i == k - 1 {
      UnpairedSame(t, t[i := v], k - 1);
    } else {
      UnpairedLess(t, i, v, k - 1);
    }
  }

  /** An unpaired slot exists where the count says so. */
  lemma {:induction false} UnpairedExists(t: seq<Byte>, k: nat) returns (i: nat)
    requires k <= |t| && Unpaired(t, k) > 0
    ensures i < k && t[i] == 0
  {
    if t[k - 1] == 0 {
      i := k - 1;
    } else {
      i := UnpairedExists(t, k - 1);
    }
  }

  lemma {:induction false} AllUnpaired(t: seq<Byte>, k: nat)
    requires k <= |t| && forall i :: 0 <= i < k ==> t[i] == 0
    ensures Unpaired(t, k) == k
  {
    if k > 0 {
      AllUnpaired(t, k - 1);
    }
  }

  /**
   The pairing loop before slot k is taken: slots above k are paired, partners of slots up to k
   lie above k, and the number of unpaired slots up to k is even.
   */
  ghost predicate PairingLoop(t3: seq<Byte>, k: int) {
    && |t3| == 256 && -1 <= k <= 255
    && (forall b :: k < b < 256 ==> t3[t3[b]] == b && t3[b] != b)
    && (forall b :: 0 <= b <= k && t3[b] != 0 ==> t3[b] > k && t3[t3[b]] == b)
    && Unpaired(t3, k + 1) % 2 == 0
  }

  /** Slot k was paired from above: nothing to do. */
  lemma PairingSkip(t3: seq<Byte>, k: nat)
    requires PairingLoop(t3, k) && t3[k] != 0
    ensures PairingLoop(t3, k - 1)
  {
    assert Unpaired(t3, k + 1) == Unpaired(t3, k);
  }

  /** Slot k is unpaired, so k > 0 and some slot below k is unpaired too. */
  lemma PartnerExists(t3: seq<Byte>, k: nat) returns (j: nat)
    requires PairingLoop(t3, k) && t3[k] == 0
    ensures 0 < k && j < k && t3[j] == 0
  {
    assert Unpaired(t3, k + 1) == Unpaired(t3, k) + 1;
    j := UnpairedExists(t3, k);
  }

  function PairUp(t3: seq<Byte>, k: nat, ic: nat): seq<Byte>
    requires ic < k < |t3| && k < 256
  {
    var (a: Byte, b: Byte) := (ic, k);
    t3[k := a][ic := b]
  }

  /** Pairing slot k with an unpaired slot below it. */
  lemma PairingStep(t3: seq<Byte>, k: nat, ic: nat)
    requires PairingLoop(t3, k) && t3[k] == 0 && ic < k && t3[ic] == 0
    ensures PairingLoop(PairUp(t3, k, ic), k - 1)
  {
    var a: Byte := ic;
    var t := PairUp(t3, k, ic);
    assert Unpaired(t3, k + 1) == Unpaired(t3, k) + 1;
    UnpairedSame(t3, t3[k := a], k);
    UnpairedLess(t3[k := a], ic, k, k);
    forall b | k - 1 < b < 256
      ensures t[t[b]] == b && t[b] != b
    {
      if b > k {
        assert t3[t3[b]] == b;
        NotPaired(t3, k, k, b);
        NotPaired(t3, k, ic, b);
      }
    }
    forall b | 0 <= b <= k - 1 && t[b] != 0
      ensures t[b] > k - 1 && t[t[b]] == b
    {
      if b != ic {
        assert t3[t3[b]] == b;
      }
    }
  }

  /** An unpaired slot is nobody's partner. */
  lemma NotPaired(t3: seq<Byte>, k: nat, i: nat, b: nat)
    requires PairingLoop(t3, k) && i <= k < b < 256 && t3[i] == 0
    ensures t3[b] != i
  {
    assert t3[t3[b]] == b;
  }

  lemma PairingDone(t3: seq<Byte>)
    requires PairingLoop(t3, -1)
    ensures Pairing(t3)
  {
  }

  // ----- crinit -----

  lemma SwapKeepsPermutation(t: seq<Byte>, i: nat, j: nat)
    requires IsPermutation(t) && i < 256 && j < 256
    ensures IsPermutation(t[i := t[j]][j := t[i]])
  {
  }

  /** The exchange of two slots of t1. */
  method Swap(t1: array<Byte>, k: nat, ic: nat)
    requires t1.Length == 256 && k < 256 && ic < 256 && IsPermutation(t1[..])
    modifies t1
    ensures IsPermutation(t1[..])
    ensures t1[..] == old(t1[..])[k := old(t1[ic])][ic := old(t1[k])]
  {
    SwapKeepsPermutation(t1[..], k, ic);
    var temp := t1[k];
    t1[k] := t1[ic];
    t1[ic] := temp;
  }

  /** Pairing slot k with the free slot found leaves the slots above as they were, and k has found its partner. */
  lemma PartnerFound(t3: seq<Byte>, seeds: seq<int>, k: nat, ic: nat)
    requires PairingLoop(t3, k) && |seeds| == 257 && AllPartnered(t3, seeds, k)
    requires t3[k] == 0 && ic < k && t3[ic] == 0
    requires forall j :: 0 <= j < 256 && Passed(SearchFrom(seeds, k), j, ic, k) ==> t3[j] != 0
    ensures AllPartnered(PairUp(t3, k, ic), seeds, k - 1)
  {
    var t := PairUp(t3, k, ic);
    forall b | 0 < b < 256 && k - 1 < b
      ensures Partnered(t, SearchFrom(seeds, b), b)
    {
      if b > k {
        assert Partnered(t3, SearchFrom(seeds, b), b);
      }
    }
  }

  /** The pairing of slot k of t3, unless it is paired already: from a random slot below it, the next free one. */
  method PairSlot(t3: array<Byte>, k: nat, random: nat, ghost seeds: seq<int>)
    requires t3.Length == 256 && PairingLoop(t3[..], k)
    requires |seeds| == 257 && random == Random(seeds[256 - k]) / 256 && AllPartnered(t3[..], seeds, k)
    modifies t3
    ensures PairingLoop(t3[..], k - 1) && AllPartnered(t3[..], seeds, k - 1)
  {
    if t3[k] != 0 {
      PairingSkip(t3[..], k);
      return;
    }
    ghost var free := PartnerExists(t3[..], k);
    var ic := Below(random, k);
    ghost var start := SearchFrom(seeds, k);
    while t3[ic] != 0
      invariant 0 <= ic < k
      invariant forall j :: 0 <= j < 256 && Passed(start, j, ic, k) ==> t3[j] != 0
      decreases if ic <= free then free - ic else k - ic + free
    {
      ic := NextSlot(ic, k);
    }
    PairingStep(t3[..], k, ic);
    PartnerFound(t3[..], seeds, k, ic);
    ghost var pairs := t3[..];
    t3[k] := ic;
    t3[ic] := k;
    assert t3[..] == PairUp(pairs, k, ic);
  }

  /** The last loop: t2 undoes t1. */
  method Invert(t1: array<Byte>, t2: array<Byte>)
    requires t1.Length == t2.Length == 256 && t1 != t2 && IsPermutation(t1[..])
    modifies t2
    ensures Inverse(t1[..], t2[..])
  {
    for i := 0 to 256
      invariant forall j :: 0 <= j < i ==> t2[t1[j]] == j
    {
      assert t1[i] == t1[..][i] && forall j :: 0 <= j < i ==> t1[j] == t1[..][j] != t1[..][i];
      t2[t1[i]] := i;
    }
    LeftInverseIsInverse(t1[..], t2[..]);
  }

  /** The first loop: the seed from the key. */
  method SeedOf(buf: seq<int>) returns (seed: int)
    requires |buf| == 13
    ensures seed == FirstSeed(buf, 13)
  {
    seed := 123;
    for i := 0 to 13
      invariant seed == FirstSeed(buf, i)
    {
      seed := Wrap32(seed * buf[i] + i);
    }
  }

  /** The second loop. */
  method Blank(t1: array<Byte>, t3: array<Byte>)
    requires t1.Length == t3.Length == 256 && t1 != t3
    modifies t1, t3
    ensures forall j :: 0 <= j < 256 ==> t1[j] == j && t3[j] == 0
  {
    for i := 0 to 256
      invariant forall j :: 0 <= j < i ==> t1[j] == j && t3[j] == 0
    {
      t1[i] := i;
      t3[i] := 0;
    }
  }

  /** Round i of the third loop. */
  method MixRound(buf: seq<int>, t1: array<Byte>, t3: array<Byte>, i: nat, seed0: int, ghost all: seq<int>)
    returns (seed: int)
    requires |buf| == 13 && i < 256 && AreSeeds(all, buf, 256) && seed0 == all[i]
    requires t1.Length == t3.Length == 256 && t1 != t3
    requires IsPermutation(t1[..]) && t1[..] == Exchanged(all, i)
    requires PairingLoop(t3[..], 255 - i) && AllPartnered(t3[..], all, 255 - i)
    modifies t1, t3
    ensures seed == all[i + 1] && IsPermutation(t1[..]) && t1[..] == Exchanged(all, i + 1)
    ensures PairingLoop(t3[..], 255 - (i + 1)) && AllPartnered(t3[..], all, 255 - (i + 1))
  {
    seed := Wrap32(5 * seed0 + buf[i % 13]);
    var random := Random(seed);
    var k := 256 - 1 - i;
    Swap(t1, k, Below(random, k + 1));
    PairSlot(t3, k, random / 256, all);
  }

  /**
   crinit, from the thirteen characters that makekey returns: whatever they are, the machine is sound, and
   it is made from them: t1 by random exchanges, t3 by random searches for free slots.
   */
  method CrInit(buf: seq<int>, t1: array<Byte>, t2: array<Byte>, t3: array<Byte>) returns (ghost seeds: seq<int>)
    requires |buf| == 13
    requires t1.Length == t2.Length == t3.Length == 256 && t1 != t2 && t2 != t3 && t1 != t3
    modifies t1, t2, t3
    ensures Machine(t1[..], t2[..], t3[..])
    ensures AreSeeds(seeds, buf, 256) && t1[..] == Exchanged(seeds, 256) && AllPartnered(t3[..], seeds, 0)
  {
    var seed := SeedOf(buf);
    ghost var all := AllSeeds(buf, 256);
    Blank(t1, t3);
    AllUnpaired(t3[..], 256);
    assert t1[..] == Exchanged(all, 0);
    for i := 0 to 256
      invariant seed == all[i] && IsPermutation(t1[..]) && t1[..] == Exchanged(all, i)
      invariant PairingLoop(t3[..], 255 - i) && AllPartnered(t3[..], all, 255 - i)
    {
      seed := MixRound(buf, t1, t3, i, seed, all);
    }
    seeds := all;
    PairingDone(t3[..]);
    Invert(t1, t2);
  }

  /** The seeds of n rounds. */
  ghost function AllSeeds(buf: seq<int>, n: nat): (seeds: seq<int>)
    requires |buf| == 13
    ensures AreSeeds(seeds, buf, n)
  {
    if n == 0 then [FirstSeed(buf, 13)]
    else
      var seeds := AllSeeds(buf, n - 1);
      seeds + [Wrap32(5 * seeds[n - 1] + buf[(n - 1) % 13])]
  }

  /** A permutation of a finite set that is undone one way is undone the other way. */
  lemma LeftInverseIsInverse(t1: seq<Byte>, t2: seq<Byte>)
    requires IsPermutation(t1) && |t2| == 256 && forall i :: 0 <= i < 256 ==> t2[t1[i]] == i
    ensures Inverse(t1, t2)
  {
    forall b | 0 <= b < 256
      ensures t1[t2[b]] == b
    {
      Onto(t1, b);
      var i :| 0 <= i < 256 && t1[i] == b;
    }
  }

  /** Every byte occurs among 256 different ones: otherwise they and it would be 257. */
  lemma Onto(t: seq<Byte>, b: Byte)
    requires IsPermutation(t)
    ensures exists i :: 0 <= i < 256 && t[i] == b
  {
    if b !in t {
      Pigeonhole(t + [b], 256);
    }
  }

  // ----- crblock -----

  /** Addition and subtraction of bytes modulo 256. */
  function Plus(a: Byte, n: Byte): Byte {
    if a + n >= 256 then a + n - 256 else a + n
  }

  function Minus(a: Byte, n: Byte): Byte {
    if a < n then a - n + 256 else a - n
  }

  /** ... which is what masking with 0377 computes. */
  lemma MaskingIsModular(a: Byte, n: Byte)
    ensures Plus(a, n) == (a + n) % 256 && Minus(a, n) == (a - n) % 256
  {
  }

  /** The two low bytes of a position. */
  function Rotor1(pos: int): Byte {
    pos % 256
  }

  function Rotor2(pos: int): Byte {
    pos / 256 % 256
  }

  /** The rotors are the two low digits of a position, the first the lowest. */
  lemma RotorsAre(pos: int)
    ensures Rotor2(pos) * 256 + Rotor1(pos) == pos % 65536
  {
    var h := pos / 256;
    assert pos == h / 256 * 65536 + (h % 256 * 256 + pos % 256);
    DivModUnique(pos, 65536, h / 256, h % 256 * 256 + pos % 256);
  }

  /** One character through the rotors n1 and n2. */
  function Turn(t1: seq<Byte>, t2: seq<Byte>, t3: seq<Byte>, c: Byte, n1: Byte, n2: Byte): Byte
    requires |t1| == |t2| == |t3| == 256
  {
    Minus(t2[Minus(t3[Plus(t1[Plus(c, n1)], n2)], n2)], n1)
  }

  /** The cipher at a position of the stream. */
  function Crypt(t1: seq<Byte>, t2: seq<Byte>, t3: seq<Byte>, c: Byte, pos: int): Byte
    requires |t1| == |t2| == |t3| == 256
  {
    Turn(t1, t2, t3, c, Rotor1(pos), Rotor2(pos))
  }

  /** A buffer encrypted from a position of the stream on. */
  function CryptAll(t1: seq<Byte>, t2: seq<Byte>, t3: seq<Byte>, s: seq<Byte>, start: int): (r: seq<Byte>)
    requires |t1| == |t2| == |t3| == 256
    ensures |r| == |s|
    decreases |s|
  {
    if s == [] then [] else CryptAll(t1, t2, t3, s[..|s| - 1], start) + [Crypt(t1, t2, t3, s[|s| - 1], start + |s| - 1)]
  }

  lemma {:induction false} CryptAllAt(t1: seq<Byte>, t2: seq<Byte>, t3: seq<Byte>, s: seq<Byte>, start: int, i: nat)
    requires |t1| == |t2| == |t3| == 256 && i < |s|
    ensures CryptAll(t1, t2, t3, s, start)[i] == Crypt(t1, t2, t3, s[i], start + i)
    decreases |s|
  {
    if i < |s| - 1 {
      CryptAllAt(t1, t2, t3, s[..|s| - 1], start, i);
    }
  }

  /** Decryption is encryption: the pairing is its own inverse and the other steps are undone. */
  lemma TurnTwice(t1: seq<Byte>, t2: seq<Byte>, t3: seq<Byte>, c: Byte, n1: Byte, n2: Byte)
    requires Machine(t1, t2, t3)
    ensures Turn(t1, t2, t3, Turn(t1, t2, t3, c, n1, n2), n1, n2) == c
  {
    var a := t1[Plus(c, n1)];
    var b := Plus(a, n2);
    var e := Minus(t3[b], n2);
    var f := Minus(t2[e], n1);
    assert Plus(f, n1) == t2[e] && t1[t2[e]] == e;
    assert Plus(e, n2) == t3[b] && t3[t3[b]] == b;
    assert Minus(b, n2) == a && t2[a] == Plus(c, n1);
  }

  /** One step of the first rotor: c is encrypted as the step before encrypted c + 1, less 1. */
  lemma FirstRotorStep(t1: seq<Byte>, t2: seq<Byte>, t3: seq<Byte>, c: Byte, n1: Byte, n2: Byte)
    requires |t1| == |t2| == |t3| == 256
    ensures Turn(t1, t2, t3, c, Plus(n1, 1), n2) == Minus(Turn(t1, t2, t3, Plus(c, 1), n1, n2), 1)
  {
    assert Plus(c, Plus(n1, 1)) == Plus(Plus(c, 1), n1);
  }

  /** Seen through the first rotor and t1, the cipher is the second rotor around t3. */
  lemma ThroughFirstRotor(t1: seq<Byte>, t2: seq<Byte>, t3: seq<Byte>, c: Byte, n1: Byte, n2: Byte)
    requires Machine(t1, t2, t3)
    ensures var (a, b) := (t1[Plus(c, n1)], t1[Plus(Turn(t1, t2, t3, c, n1, n2), n1)]);
      Plus(b, n2) == t3[Plus(a, n2)]
  {
    var a := t1[Plus(c, n1)];
    var e := Minus(t3[Plus(a, n2)], n2);
    assert Plus(Turn(t1, t2, t3, c, n1, n2), n1) == t2[e] && t1[t2[e]] == e;
  }

  /** No byte encrypts to itself. */
  lemma TurnMoves(t1: seq<Byte>, t2: seq<Byte>, t3: seq<Byte>, c: Byte, n1: Byte, n2: Byte)
    requires Machine(t1, t2, t3)
    ensures Turn(t1, t2, t3, c, n1, n2) != c
  {
    var a := t1[Plus(c, n1)];
    var b := Plus(a, n2);
    var e := Minus(t3[b], n2);
    assert e != a;
    assert t1[t2[e]] == e && t1[Plus(c, n1)] == a;
  }

  lemma PieceAt(t1: seq<Byte>, t2: seq<Byte>, t3: seq<Byte>, a: seq<Byte>, b: seq<Byte>, start: int, i: nat)
    requires |t1| == |t2| == |t3| == 256 && i < |a| + |b|
    ensures CryptAll(t1, t2, t3, a + b, start)[i]
         == if i < |a| then CryptAll(t1, t2, t3, a, start)[i] else CryptAll(t1, t2, t3, b, start + |a|)[i - |a|]
  {
    CryptAllAt(t1, t2, t3, a + b, start, i);
    if i < |a| {
      CryptAllAt(t1, t2, t3, a, start, i);
    } else {
      CryptAllAt(t1, t2, t3, b, start + |a|, i - |a|);
    }
  }

  /** Encrypting a stream in pieces, each from where the last ended, is encrypting it whole. */
  lemma CryptInPieces(t1: seq<Byte>, t2: seq<Byte>, t3: seq<Byte>, a: seq<Byte>, b: seq<Byte>, start: int)
    requires |t1| == |t2| == |t3| == 256
    ensures CryptAll(t1, t2, t3, a + b, start) == CryptAll(t1, t2, t3, a, start) + CryptAll(t1, t2, t3, b, start + |a|)
  {
    var whole := CryptAll(t1, t2, t3, a + b, start);
    var front, back := CryptAll(t1, t2, t3, a, start), CryptAll(t1, t2, t3, b, start + |a|);
    forall i | 0 <= i < |a| + |b|
      ensures whole[i] == (front + back)[i]
    {
      PieceAt(t1, t2, t3, a, b, start, i);
    }
  }

  /** One character encrypted and encrypted again. */
  lemma CryptTwice(t1: seq<Byte>, t2: seq<Byte>, t3: seq<Byte>, c: Byte, pos: int)
    requires Machine(t1, t2, t3)
    ensures Crypt(t1, t2, t3, Crypt(t1, t2, t3, c, pos), pos) == c != Crypt(t1, t2, t3, c, pos)
  {
    TurnTwice(t1, t2, t3, c, Rotor1(pos), Rotor2(pos));
    TurnMoves(t1, t2, t3, c, Rotor1(pos), Rotor2(pos));
  }

  /** Encrypting a buffer twice at the same place gives it back, and changes every byte in between. */
  lemma CryptAllTwice(t1: seq<Byte>, t2: seq<Byte>, t3: seq<Byte>, s: seq<Byte>, start: int)
    requires Machine(t1, t2, t3)
    ensures CryptAll(t1, t2, t3, CryptAll(t1, t2, t3, s, start), start) == s
    ensures forall i :: 0 <= i < |s| ==> CryptAll(t1, t2, t3, s, start)[i] != s[i]
  {
    var r := CryptAll(t1, t2, t3, s, start);
    forall i | 0 <= i < |s|
      ensures CryptAll(t1, t2, t3, r, start)[i] == s[i] != r[i]
    {
      CryptAllAt(t1, t2, t3, r, start, i);
      CryptAllAt(t1, t2, t3, s, start, i);
      CryptTwice(t1, t2, t3, s[i], start + i);
    }
  }

  /** The body of crblock's loop: the sums are masked with 0377, which is what % 256 does to them. */
  method CrChar(t1: array<Byte>, t2: array<Byte>, t3: array<Byte>, c: Byte, n1: Byte, n2: Byte) returns (r: Byte)
    requires t1.Length == t2.Length == t3.Length == 256
    ensures r == Turn(t1[..], t2[..], t3[..], c, n1, n2)
  {
    MaskingIsModular(c, n1);
    var a := t1[(c + n1) % 256];
    MaskingIsModular(a, n2);
    var b := t3[(a + n2) % 256];
    MaskingIsModular(b, n2);
    var e := t2[(b - n2) % 256];
    MaskingIsModular(e, n1);
    r := (e - n1) % 256;
  }

  /** crblock: the rotors advance with n1 and n2. */
  method CrBlock(t1: array<Byte>, t2: array<Byte>, t3: array<Byte>, buf: array<Byte>, nchar: nat, startn: int)
    requires t1.Length == t2.Length == t3.Length == 256 && nchar <= buf.Length
    requires buf != t1 && buf != t2 && buf != t3
    modifies buf
    ensures buf[..nchar] == CryptAll(t1[..], t2[..], t3[..], old(buf[..nchar]), startn)
    ensures buf[nchar..] == old(buf[nchar..])
  {
    var n1, n2 := Rotor1(startn), Rotor2(startn);
    ghost var was := buf[..];
    for i := 0 to nchar
      invariant n1 == Rotor1(startn + i) && n2 == Rotor2(startn + i)
      invariant forall j :: 0 <= j < i ==> buf[j] == Crypt(t1[..], t2[..], t3[..], was[j], startn + j)
      invariant forall j :: i <= j < buf.Length ==> buf[j] == was[j]
    {
      buf[i] := CrChar(t1, t2, t3, buf[i], n1, n2);
      n1, n2 := Advance(n1, n2, startn + i);
    }
    AllCrypted(t1[..], t2[..], t3[..], was[..nchar], buf[..nchar], startn);
    assert buf[nchar..] == was[nchar..];
  }

  lemma AllCrypted(t1: seq<Byte>, t2: seq<Byte>, t3: seq<Byte>, was: seq<Byte>, now: seq<Byte>, start: int)
    requires |t1| == |t2| == |t3| == 256 && |now| == |was|
    requires forall i :: 0 <= i < |was| ==> now[i] == Crypt(t1, t2, t3, was[i], start + i)
    ensures now == CryptAll(t1, t2, t3, was, start)
  {
    forall i | 0 <= i < |was|
      ensures now[i] == CryptAll(t1, t2, t3, was, start)[i]
    {
      CryptAllAt(t1, t2, t3, was, start, i);
    }
  }

  /** The rotors step like the two low digits of a counter. */
  method Advance(n1: Byte, n2: Byte, ghost pos: int) returns (m1: Byte, m2: Byte)
    requires n1 == Rotor1(pos) && n2 == Rotor2(pos)
    ensures m1 == Rotor1(pos + 1) && m2 == Rotor2(pos + 1)
  {
    if n1 + 1 == 256 {
      m1 := 0;
      m2 := if n2 + 1 == 256 then 0 else n2 + 1;
    } else {
      m1, m2 := n1 + 1, n2;
    }
  }
}
