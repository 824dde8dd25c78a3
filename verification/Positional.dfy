/**
 Files as byte sequences, and writing at a position.
 */
module Positional {
  import opened Bytes

  function Zeros(n: nat): (z: seq<Byte>)
    ensures |z| == n && forall i :: 0 <= i < n ==> z[i] == 0
  {
    seq(n, _ => 0)
  }

  /** One byte written at an offset: a hole before it reads as zeros. */
  function PutByte(f: seq<Byte>, off: nat, b: Byte): seq<Byte> {
    if off < |f| then f[off := b] else f + Zeros(off - |f|) + [b]
  }

  /** A write of some bytes at an offset; writing nothing changes nothing. */
  function WriteAt(f: seq<Byte>, off: nat, data: seq<Byte>): seq<Byte>
    decreases |data|
  {
    if data == [] then f
    else PutByte(WriteAt(f, off, data[..|data| - 1]), off + |data| - 1, data[|data| - 1])
  }

  lemma {:induction false} WriteAtBytes(f: seq<Byte>, off: nat, data: seq<Byte>)
    ensures var g := WriteAt(f, off, data);
      && |g| == (if data != [] && off + |data| > |f| then off + |data| else |f|)
      && forall i :: 0 <= i < |g| ==>
        g[i] == (if off <= i < off + |data| then data[i - off] else if i < |f| then f[i] else 0)
    decreases |data|
  {
    if data != [] {
      WriteAtBytes(f, off, data[..|data| - 1]);
    }
  }

  /** Two extents with no byte in common. */
  predicate Apart(o1: nat, n1: nat, o2: nat, n2: nat) {
    n1 == 0 || n2 == 0 || o1 + n1 <= o2 || o2 + n2 <= o1
  }

  /** Writes to disjoint extents may be done in either order. */
  lemma WritesCommute(f: seq<Byte>, o1: nat, d1: seq<Byte>, o2: nat, d2: seq<Byte>)
    requires Apart(o1, |d1|, o2, |d2|)
    ensures WriteAt(WriteAt(f, o1, d1), o2, d2) == WriteAt(WriteAt(f, o2, d2), o1, d1)
  {
    WriteAtBytes(f, o1, d1);
    WriteAtBytes(WriteAt(f, o1, d1), o2, d2);
    WriteAtBytes(f, o2, d2);
    WriteAtBytes(WriteAt(f, o2, d2), o1, d1);
  }

  /** Two writes in a row, one right after the other, are one write. */
  lemma {:induction false} WritesJoin(f: seq<Byte>, off: nat, d1: seq<Byte>, d2: seq<Byte>)
    ensures WriteAt(WriteAt(f, off, d1), off + |d1|, d2) == WriteAt(f, off, d1 + d2)
    decreases |d2|
  {
    if d2 == [] {
      assert d1 + d2 == d1;
    } else {
      WritesJoin(f, off, d1, d2[..|d2| - 1]);
      assert (d1 + d2)[..|d1 + d2| - 1] == d1 + d2[..|d2| - 1];
    }
  }

  /** Bytes waiting to be written at an offset. */
  datatype Pending = Pending(off: nat, data: seq<Byte>)

  /** The file as it would be with the first n pending writes done. */
  function Overlay(f: seq<Byte>, ps: seq<Pending>, n: nat): seq<Byte>
    requires n <= |ps|
  {
    if n == 0 then f else WriteAt(Overlay(f, ps, n - 1), ps[n - 1].off, ps[n - 1].data)
  }

  predicate PendingApart(p: Pending, q: Pending) {
    Apart(p.off, |p.data|, q.off, |q.data|)
  }

  ghost predicate AllApart(ps: seq<Pending>) {
    forall i, j {:trigger PendingApart(ps[i], ps[j])} :: 0 <= i < j < |ps| ==> PendingApart(ps[i], ps[j])
  }

  /** The extent of n bytes at off has no byte in common with a pending write other than the i-th. */
  ghost predicate ClearOf(ps: seq<Pending>, i: nat, off: nat, n: nat) {
    forall j :: 0 <= j < |ps| && j != i ==> Apart(off, n, ps[j].off, |ps[j].data|)
  }

  /** A write that is clear of every pending one may be done under them or over them. */
  lemma {:induction false} WriteUnder(f: seq<Byte>, ps: seq<Pending>, n: nat, off: nat, d: seq<Byte>)
    requires n <= |ps| && forall j :: 0 <= j < n ==> Apart(off, |d|, ps[j].off, |ps[j].data|)
    ensures Overlay(WriteAt(f, off, d), ps, n) == WriteAt(Overlay(f, ps, n), off, d)
  {
    if n > 0 {
      WriteUnder(f, ps, n - 1, off, d);
      WritesCommute(Overlay(f, ps, n - 1), off, d, ps[n - 1].off, ps[n - 1].data);
    }
  }

  lemma {:induction false} OverlaySame(f: seq<Byte>, ps: seq<Pending>, qs: seq<Pending>, n: nat)
    requires n <= |ps| && n <= |qs| && forall j :: 0 <= j < n ==> ps[j] == qs[j]
    ensures Overlay(f, ps, n) == Overlay(f, qs, n)
  {
    if n > 0 {
      OverlaySame(f, ps, qs, n - 1);
    }
  }

  /** Doing one pending write early changes nothing in the end. */
  lemma {:induction false} FlushOne(f: seq<Byte>, ps: seq<Pending>, n: nat, i: nat, off: nat)
    requires i < n <= |ps| && AllApart(ps)
    ensures Overlay(WriteAt(f, ps[i].off, ps[i].data), ps[i := Pending(off, [])], n) == Overlay(f, ps, n)
  {
    var qs := ps[i := Pending(off, [])];
    if i == n - 1 {
      var g := WriteAt(f, ps[i].off, ps[i].data);
      forall j | 0 <= j < i
        ensures Apart(ps[i].off, |ps[i].data|, ps[j].off, |ps[j].data|)
      {
        assert PendingApart(ps[j], ps[i]);
      }
      WriteUnder(f, ps, i, ps[i].off, ps[i].data);
      OverlaySame(g, ps, qs, i);
    } else {
      FlushOne(f, ps, n - 1, i, off);
    }
  }

  /** Appending to a pending write is writing at its end. */
  lemma {:induction false} AppendOne(f: seq<Byte>, ps: seq<Pending>, n: nat, i: nat, d: seq<Byte>)
    requires i < n <= |ps| && ClearOf(ps, i, ps[i].off + |ps[i].data|, |d|)
    ensures Overlay(f, ps[i := Pending(ps[i].off, ps[i].data + d)], n)
      == WriteAt(Overlay(f, ps, n), ps[i].off + |ps[i].data|, d)
  {
    var qs := ps[i := Pending(ps[i].off, ps[i].data + d)];
    var (off, tell) := (ps[i].off, ps[i].off + |ps[i].data|);
    var below := Overlay(f, ps, n - 1);
    assert Overlay(f, ps, n) == WriteAt(below, ps[n - 1].off, ps[n - 1].data);
    assert Overlay(f, qs, n) == WriteAt(Overlay(f, qs, n - 1), qs[n - 1].off, qs[n - 1].data);
    if i == n - 1 {
      OverlaySame(f, ps, qs, i);
      assert Overlay(f, qs, n) == WriteAt(below, off, ps[i].data + d);
      WritesJoin(below, off, ps[i].data, d);
    } else {
      AppendOne(f, ps, n - 1, i, d);
      assert Overlay(f, qs, n) == WriteAt(WriteAt(below, tell, d), ps[n - 1].off, ps[n - 1].data);
      WritesCommute(below, tell, d, ps[n - 1].off, ps[n - 1].data);
    }
  }

  /** With nothing pending the file is as it is. */
  lemma {:induction false} NothingPending(f: seq<Byte>, ps: seq<Pending>, n: nat)
    requires n <= |ps| && forall j :: 0 <= j < n ==> ps[j].data == []
    ensures Overlay(f, ps, n) == f
  {
    if n > 0 {
      NothingPending(f, ps, n - 1);
    }
  }

  /** Where an empty pending write stands does not matter. */
  lemma {:induction false} OverlaySkip(f: seq<Byte>, ps: seq<Pending>, n: nat, i: nat, off: nat)
    requires i < |ps| && n <= |ps| && ps[i].data == []
    ensures Overlay(f, ps[i := Pending(off, [])], n) == Overlay(f, ps, n)
  {
    if n > 0 {
      OverlaySkip(f, ps, n - 1, i, off);
    }
  }

  // ----- streams writing one file in any order -----

  /** A stream takes some bytes. */
  datatype Op = Op(stream: nat, data: seq<Byte>)

  /** All that stream s takes in the first n operations. */
  function Taken(ops: seq<Op>, n: nat, s: nat): seq<Byte>
    requires n <= |ops|
  {
    if n == 0 then [] else Taken(ops, n - 1, s) + (if ops[n - 1].stream == s then ops[n - 1].data else [])
  }

  /** The file after the first n operations, each a write where its stream stands. */
  function Written(f: seq<Byte>, starts: seq<nat>, ops: seq<Op>, n: nat): seq<Byte>
    requires n <= |ops| && forall k :: 0 <= k < |ops| ==> ops[k].stream < |starts|
  {
    if n == 0 then f
    else
      var s := ops[n - 1].stream;
      WriteAt(Written(f, starts, ops, n - 1), starts[s] + |Taken(ops, n - 1, s)|, ops[n - 1].data)
  }

  /** The streams' extents, as far as they get, have no byte in common. */
  ghost predicate Regions(starts: seq<nat>, ops: seq<Op>) {
    forall s, t :: RegionsOf(starts, ops, s, t)
  }

  ghost predicate RegionsOf(starts: seq<nat>, ops: seq<Op>, s: nat, t: nat) {
    s < |starts| && t < |starts| && s != t ==>
      Apart(starts[s], |Taken(ops, |ops|, s)|, starts[t], |Taken(ops, |ops|, t)|)
  }

  lemma {:induction false} TakenGrows(ops: seq<Op>, m: nat, n: nat, s: nat)
    requires m <= n <= |ops|
    ensures Taken(ops, m, s) <= Taken(ops, n, s)
  {
    if m < n {
      TakenGrows(ops, m, n - 1, s);
    }
  }

  /** f holds the bytes d at off. */
  ghost predicate Holds(f: seq<Byte>, off: nat, d: seq<Byte>) {
    d == [] || (off + |d| <= |f| && f[off..off + |d|] == d)
  }

  lemma HoldsAfter(f: seq<Byte>, off: nat, d: seq<Byte>, o: nat, e: seq<Byte>)
    requires Holds(f, off, d) && Apart(off, |d|, o, |e|)
    ensures Holds(WriteAt(f, o, e), off, d)
  {
    WriteAtBytes(f, o, e);
  }

  lemma HoldsMore(f: seq<Byte>, off: nat, d: seq<Byte>, e: seq<Byte>)
    requires Holds(f, off, d)
    ensures Holds(WriteAt(f, off + |d|, e), off, d + e)
  {
    WriteAtBytes(f, off + |d|, e);
    var g := WriteAt(f, off + |d|, e);
    if d + e != [] {
      forall k | 0 <= k < |d + e|
        ensures g[off + k] == (d + e)[k]
      {
        assert k < |d| ==> f[off..off + |d|][k] == f[off + k];
      }
    }
  }

  /** What one stream takes leaves the bytes of another alone. */
  lemma OtherStreamKept(g: seq<Byte>, starts: seq<nat>, ops: seq<Op>, n: nat, s: nat, t: nat)
    requires 0 < n <= |ops| && s < |starts| && t < |starts| && s != t && ops[n - 1].stream == t
    requires Regions(starts, ops) && Holds(g, starts[s], Taken(ops, n - 1, s))
    ensures Holds(WriteAt(g, starts[t] + |Taken(ops, n - 1, t)|, ops[n - 1].data), starts[s], Taken(ops, n - 1, s))
  {
    TakenGrows(ops, n - 1, |ops|, s);
    TakenGrows(ops, n, |ops|, t);
    assert |Taken(ops, n, t)| == |Taken(ops, n - 1, t)| + |ops[n - 1].data|;
    assert RegionsOf(starts, ops, s, t);
    HoldsAfter(g, starts[s], Taken(ops, n - 1, s), starts[t] + |Taken(ops, n - 1, t)|, ops[n - 1].data);
  }

  /** One operation more: the stream that takes bytes has them behind those it had, and the others keep theirs. */
  lemma OneOperation(g: seq<Byte>, starts: seq<nat>, ops: seq<Op>, n: nat, s: nat)
    requires n < |ops| && s < |starts| && ops[n].stream < |starts| && Regions(starts, ops)
    requires Holds(g, starts[s], Taken(ops, n, s))
    ensures var t := ops[n].stream;
      Holds(WriteAt(g, starts[t] + |Taken(ops, n, t)|, ops[n].data), starts[s], Taken(ops, n + 1, s))
  {
    var t := ops[n].stream;
    if t == s {
      HoldsMore(g, starts[s], Taken(ops, n, s), ops[n].data);
    } else {
      OtherStreamKept(g, starts, ops, n + 1, s, t);
    }
  }

  /** However the streams are interleaved, the file holds each stream's bytes in one piece from its start. */
  lemma {:induction false} StreamsInOnePiece(f: seq<Byte>, starts: seq<nat>, ops: seq<Op>, n: nat, s: nat)
    requires n <= |ops| && (forall k :: 0 <= k < |ops| ==> ops[k].stream < |starts|) && s < |starts|
    requires Regions(starts, ops)
    ensures Holds(Written(f, starts, ops, n), starts[s], Taken(ops, n, s))
  {
    if n > 0 {
      StreamsInOnePiece(f, starts, ops, n - 1, s);
      OneOperation(Written(f, starts, ops, n - 1), starts, ops, n - 1, s);
    }
  }
}
