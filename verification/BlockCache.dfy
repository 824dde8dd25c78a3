/**
 The file system debugger's cache of disk blocks: NBUF buffers on a circular, doubly linked list in order
 of use. What is read and written through it is what is on the disk.
 */
module BlockCache {
  import opened Bytes
  import opened Words
  import opened Probing

  const NBUF: nat := 10
  /** The number of the list's header among the links of the buffers. */
  const BHDR: nat := NBUF

  // ----- the list -----

  /** The links lead along a path forwards. */
  ghost predicate Leads(fwd: seq<nat>, path: seq<nat>) {
    |path| >= 2 ==> path[0] < |fwd| && fwd[path[0]] == path[1] && Leads(fwd, path[1..])
  }

  /** The links lead along a path from its end to its beginning. */
  ghost predicate Trails(back: seq<nat>, path: seq<nat>) {
    |path| >= 2 ==> path[1] < |back| && back[path[1]] == path[0] && Trails(back, path[1..])
  }

  lemma {:induction false} LeadsJoin(fwd: seq<nat>, a: seq<nat>, b: seq<nat>)
    requires a != [] && b != []
    ensures Leads(fwd, a + b) <==> Leads(fwd, a) && Leads(fwd, b) && a[|a| - 1] < |fwd| && fwd[a[|a| - 1]] == b[0]
    decreases |a|
  {
    assert (a + b)[1..] == a[1..] + b;
    if |a| >= 2 {
      LeadsJoin(fwd, a[1..], b);
    } else {
      assert a[1..] + b == b;
    }
  }

  lemma {:induction false} TrailsJoin(back: seq<nat>, a: seq<nat>, b: seq<nat>)
    requires a != [] && b != []
    ensures Trails(back, a + b) <==> Trails(back, a) && Trails(back, b) && b[0] < |back| && back[b[0]] == a[|a| - 1]
    decreases |a|
  {
    assert (a + b)[1..] == a[1..] + b;
    if |a| >= 2 {
      TrailsJoin(back, a[1..], b);
    } else {
      assert a[1..] + b == b;
    }
  }

  /** A link that is not followed on the path may change. */
  lemma {:induction false} LeadsAnyway(fwd: seq<nat>, path: seq<nat>, x: nat, v: nat)
    requires Leads(fwd, path) && x < |fwd| && (path != [] ==> x !in path[..|path| - 1])
    ensures Leads(fwd[x := v], path)
    decreases |path|
  {
    if |path| >= 2 {
      assert path[0] in path[..|path| - 1];
      assert path[..|path| - 1] == [path[0]] + path[1..][..|path| - 2];
      LeadsAnyway(fwd, path[1..], x, v);
    }
  }

  lemma {:induction false} TrailsAnyway(back: seq<nat>, path: seq<nat>, x: nat, v: nat)
    requires Trails(back, path) && x < |back| && (path != [] ==> x !in path[1..])
    ensures Trails(back[x := v], path)
    decreases |path|
  {
    if |path| >= 2 {
      assert path[1] in path[1..];
      assert forall y :: y in path[1..][1..] ==> y in path[1..];
      TrailsAnyway(back, path[1..], x, v);
    }
  }

  ghost predicate Distinct<T>(s: seq<T>) {
    forall i, j :: 0 <= i < j < |s| ==> s[i] != s[j]
  }

  /** The buffers of the list are some of the buffers there are, each once. */
  ghost predicate Buffers(order: seq<nat>) {
    Distinct(order) && forall i :: 0 <= i < |order| ==> order[i] < NBUF
  }

  function Ring(order: seq<nat>): seq<nat> {
    [BHDR] + (order + [BHDR])
  }

  /** The list from the header around to the header again. */
  ghost predicate Linked(fwd: seq<nat>, back: seq<nat>, order: seq<nat>) {
    && |fwd| == |back| == NBUF + 1 && Buffers(order)
    && Leads(fwd, Ring(order)) && Trails(back, Ring(order))
  }

  /** A buffer, the ones before it and the ones behind it. */
  lemma SplitBuffers(x: seq<nat>, bp: nat, y: seq<nat>)
    requires Buffers(x + [bp] + y)
    ensures Buffers(x) && Buffers(y) && Buffers(x + y) && bp < NBUF && bp !in x && bp !in y
    ensures forall i :: 0 <= i < |x| ==> x[i] !in y
  {
    var all := x + [bp] + y;
    assert all[|x|] == bp;
    assert forall i :: 0 <= i < |x| ==> x[i] == all[i];
    assert forall i :: 0 <= i < |y| ==> y[i] == all[|x| + 1 + i];
  }

  lemma RingSplit(x: seq<nat>, bp: nat, y: seq<nat>)
    ensures Ring(x + [bp] + y) == ([BHDR] + x) + ([bp] + (y + [BHDR]))
    ensures Ring(x + y) == ([BHDR] + x) + (y + [BHDR])
  {
  }

  /** Leaving bp out of a path. */
  lemma LeadsOut(fwd: seq<nat>, a: seq<nat>, bp: nat, b: seq<nat>)
    requires a != [] && b != [] && Leads(fwd, a + ([bp] + b))
    requires a[|a| - 1] !in a[..|a| - 1] && a[|a| - 1] !in b[..|b| - 1]
    ensures bp < |fwd| && fwd[bp] == b[0] && a[|a| - 1] < |fwd| && Leads(fwd[a[|a| - 1] := b[0]], a + b)
  {
    LeadsJoin(fwd, a, [bp] + b);
    LeadsJoin(fwd, [bp], b);
    LeadsAnyway(fwd, a, a[|a| - 1], b[0]);
    LeadsAnyway(fwd, b, a[|a| - 1], b[0]);
    LeadsJoin(fwd[a[|a| - 1] := b[0]], a, b);
  }

  lemma TrailsOut(back: seq<nat>, a: seq<nat>, bp: nat, b: seq<nat>)
    requires a != [] && b != [] && Trails(back, a + ([bp] + b)) && b[0] !in a[1..] && b[0] !in b[1..]
    ensures bp < |back| && back[bp] == a[|a| - 1] && b[0] < |back| && Trails(back[b[0] := a[|a| - 1]], a + b)
  {
    TrailsJoin(back, a, [bp] + b);
    TrailsJoin(back, [bp], b);
    TrailsAnyway(back, a, b[0], a[|a| - 1]);
    TrailsAnyway(back, b, b[0], a[|a| - 1]);
    TrailsJoin(back[b[0] := a[|a| - 1]], a, b);
  }

  /** Putting bp second on a path that ends where it begins, at h. */
  lemma LeadsIn(fwd: seq<nat>, h: nat, b: seq<nat>, bp: nat)
    requires b != [] && Leads(fwd, [h] + b) && bp < |fwd| && bp !in b && h !in b[..|b| - 1] && bp != h
    ensures h < |fwd| && fwd[h] == b[0] && Leads(fwd[bp := b[0]][h := bp], [h] + ([bp] + b))
  {
    LeadsJoin(fwd, [h], b);
    LeadsAnyway(fwd, b, bp, b[0]);
    LeadsJoin(fwd[bp := b[0]], [bp], b);
    assert ([bp] + b)[..|b|] == [bp] + b[..|b| - 1];
    LeadsAnyway(fwd[bp := b[0]], [bp] + b, h, bp);
    LeadsJoin(fwd[bp := b[0]][h := bp], [h], [bp] + b);
  }

  lemma TrailsIn(back: seq<nat>, h: nat, b: seq<nat>, bp: nat)
    requires b != [] && Trails(back, [h] + b) && bp < |back| && bp !in b && b[0] !in b[1..]
    ensures b[0] < |back| && Trails(back[bp := h][b[0] := bp], [h] + ([bp] + b))
  {
    TrailsJoin(back, [h], b);
    TrailsAnyway(back, b, bp, h);
    TrailsAnyway(back[bp := h], b, b[0], bp);
    TrailsJoin(back[bp := h][b[0] := bp], [bp], b);
    TrailsJoin(back[bp := h][b[0] := bp], [h], [bp] + b);
  }

  /** Taking a buffer out: its neighbours p and n are linked to each other. */
  lemma Unlinked(fwd: seq<nat>, back: seq<nat>, x: seq<nat>, bp: nat, y: seq<nat>)
    requires Linked(fwd, back, x + [bp] + y)
    ensures var p, n := ([BHDR] + x)[|x|], (y + [BHDR])[0];
      && bp < NBUF && p <= NBUF && n <= NBUF && back[bp] == p && fwd[bp] == n
      && Linked(fwd[p := n], back[n := p], x + y)
  {
    SplitBuffers(x, bp, y);
    RingSplit(x, bp, y);
    var a, b := [BHDR] + x, y + [BHDR];
    assert a[..|x|] == if x == [] then [] else [BHDR] + x[..|x| - 1];
    assert b[..|y|] == y && a[1..] == x && b[1..] == if y == [] then [] else y[1..] + [BHDR];
    LeadsOut(fwd, a, bp, b);
    TrailsOut(back, a, bp, b);
  }

  /** Putting a buffer that is not in the list at its head. */
  lemma Inserted(fwd: seq<nat>, back: seq<nat>, order: seq<nat>, bp: nat)
    requires Linked(fwd, back, order) && bp < NBUF && bp !in order
    ensures var first := (order + [BHDR])[0];
      && fwd[BHDR] == first <= NBUF
      && Linked(fwd[bp := first][BHDR := bp], back[bp := BHDR][first := bp], [bp] + order)
  {
    var b := order + [BHDR];
    assert Ring([bp] + order) == [BHDR] + ([bp] + b);
    assert b[..|order|] == order && b[1..] == if order == [] then [] else order[1..] + [BHDR];
    LeadsIn(fwd, BHDR, b, bp);
    TrailsIn(back, BHDR, b, bp);
  }

  lemma {:induction false} LeadsAt(fwd: seq<nat>, path: seq<nat>, i: nat)
    requires Leads(fwd, path) && i + 1 < |path|
    ensures path[i] < |fwd| && fwd[path[i]] == path[i + 1]
  {
    if i > 0 {
      LeadsAt(fwd, path[1..], i - 1);
    }
  }

  // ----- the blocks cached -----

  /** The blocks of the buffers at the head of the list that hold one, the block used last first. */
  ghost function Used(order: seq<nat>, valid: seq<bool>, blkno: seq<nat>): (r: seq<nat>)
    requires |valid| == |blkno| == NBUF && forall i :: 0 <= i < |order| ==> order[i] < NBUF
    ensures |r| <= |order|
  {
    if order == [] || !valid[order[0]] then [] else [blkno[order[0]]] + Used(order[1..], valid, blkno)
  }

  /** Buffers that hold no block come last. */
  ghost predicate ValidFirst(order: seq<nat>, valid: seq<bool>)
    requires |valid| == NBUF && forall i :: 0 <= i < |order| ==> order[i] < NBUF
  {
    forall i, j :: 0 <= i < j < |order| ==> valid[order[j]] ==> valid[order[i]]
  }

  /** Every buffer that holds a block holds what is on the disk, and no two hold the same block. */
  ghost predicate Coherent(valid: seq<bool>, blkno: seq<nat>, data: seq<seq<Byte>>, disk: seq<seq<Byte>>) {
    && |valid| == |blkno| == |data| == NBUF
    && (forall b :: 0 <= b < NBUF && valid[b] ==> blkno[b] < |disk| && data[b] == disk[blkno[b]])
    && (forall b, c :: 0 <= b < c < NBUF && valid[b] && valid[c] ==> blkno[b] != blkno[c])
  }

  ghost function Without(s: seq<nat>, b: nat): (r: seq<nat>)
    ensures |r| <= |s| && b !in r
  {
    if s == [] then [] else (if s[0] == b then [] else [s[0]]) + Without(s[1..], b)
  }

  ghost function Shortened(s: seq<nat>, n: nat): seq<nat> {
    if |s| <= n then s else s[..n]
  }

  /** Least recently used is thrown out: what the list of blocks is to be after a use of block b. */
  ghost function Touch(blocks: seq<nat>, b: nat): seq<nat> {
    Shortened([b] + Without(blocks, b), NBUF)
  }

  /** An attempt to use a block, and whether it could be read from the disk. */
  datatype Access = Access(block: nat, readOk: bool)

  /** It succeeds when the block can be read or need not be. */
  ghost predicate Succeeds(blocks: seq<nat>, a: Access) {
    a.readOk || a.block in blocks
  }

  /** What the list of blocks is to be after an access: a failed read costs the oldest block its buffer. */
  ghost function Accessed(blocks: seq<nat>, a: Access): seq<nat> {
    if Succeeds(blocks, a) then Touch(blocks, a.block) else Shortened(blocks, NBUF - 1)
  }

  lemma {:induction false} UsedHas(order: seq<nat>, valid: seq<bool>, blkno: seq<nat>, b: nat)
    requires |valid| == |blkno| == NBUF && (forall i :: 0 <= i < |order| ==> order[i] < NBUF)
    requires ValidFirst(order, valid)
    ensures b in Used(order, valid, blkno) <==> exists i :: 0 <= i < |order| && valid[order[i]] && blkno[order[i]] == b
  {
    if order != [] && valid[order[0]] {
      var rest := order[1..];
      UsedHas(rest, valid, blkno, b);
      if b in Used(rest, valid, blkno) {
        var i :| 0 <= i < |rest| && valid[rest[i]] && blkno[rest[i]] == b;
        assert order[i + 1] == rest[i];
      }
      if i :| 0 < i < |order| && valid[order[i]] && blkno[order[i]] == b {
        assert rest[i - 1] == order[i];
      }
    }
  }

  lemma {:induction false} WithoutNothing(s: seq<nat>, b: nat)
    requires b !in s
    ensures Without(s, b) == s
  {
    if s != [] {
      WithoutNothing(s[1..], b);
    }
  }

  /** Another block, or another buffer's, does not change what the list says of these buffers. */
  lemma {:induction false} UsedSame(order: seq<nat>, valid: seq<bool>, blkno: seq<nat>, valid': seq<bool>,
        blkno': seq<nat>)
    requires |valid| == |blkno| == |valid'| == |blkno'| == NBUF
    requires forall i :: 0 <= i < |order| ==>
      order[i] < NBUF && valid[order[i]] == valid'[order[i]] && blkno[order[i]] == blkno'[order[i]]
    ensures Used(order, valid, blkno) == Used(order, valid', blkno')
  {
    if order != [] {
      UsedSame(order[1..], valid, blkno, valid', blkno');
    }
  }

  lemma Associative(a: seq<nat>, b: seq<nat>, c: seq<nat>)
    ensures (a + b) + c == a + (b + c)
  {
  }

  lemma {:induction false} UsedAppend(x: seq<nat>, y: seq<nat>, valid: seq<bool>, blkno: seq<nat>)
    requires |valid| == |blkno| == NBUF
    requires forall i :: 0 <= i < |x| ==> x[i] < NBUF && valid[x[i]]
    requires forall i :: 0 <= i < |y| ==> y[i] < NBUF
    ensures forall i :: 0 <= i < |x + y| ==> (x + y)[i] < NBUF
    ensures Used(x + y, valid, blkno) == Used(x, valid, blkno) + Used(y, valid, blkno)
    decreases |x|
  {
    if x == [] {
      assert x + y == y;
    } else {
      assert (x + y)[1..] == x[1..] + y;
      UsedAppend(x[1..], y, valid, blkno);
      Associative([blkno[x[0]]], Used(x[1..], valid, blkno), Used(y, valid, blkno));
    }
  }

  lemma {:induction false} WithoutAppend(s: seq<nat>, t: seq<nat>, b: nat)
    ensures Without(s + t, b) == Without(s, b) + Without(t, b)
    decreases |s|
  {
    if s == [] {
      assert s + t == t;
    } else {
      assert (s + t)[1..] == s[1..] + t;
      WithoutAppend(s[1..], t, b);
      Associative(if s[0] == b then [] else [s[0]], Without(s[1..], b), Without(t, b));
    }
  }

  /** No other buffer holds the block that bp holds. */
  lemma NotUsedTwice(z: seq<nat>, bp: nat, valid: seq<bool>, blkno: seq<nat>)
    requires |valid| == |blkno| == NBUF && Buffers(z) && ValidFirst(z, valid) && bp < NBUF && valid[bp] && bp !in z
    requires forall b, c :: 0 <= b < c < NBUF && valid[b] && valid[c] ==> blkno[b] != blkno[c]
    ensures Without(Used(z, valid, blkno), blkno[bp]) == Used(z, valid, blkno)
  {
    UsedHas(z, valid, blkno, blkno[bp]);
    WithoutNothing(Used(z, valid, blkno), blkno[bp]);
  }

  lemma SplitValid(x: seq<nat>, bp: nat, y: seq<nat>, valid: seq<bool>)
    requires |valid| == NBUF && Buffers(x + [bp] + y) && ValidFirst(x + [bp] + y, valid)
    ensures Buffers(x) && Buffers(y) && bp < NBUF
    ensures ValidFirst(x, valid) && ValidFirst(y, valid) && (valid[bp] ==> forall i :: 0 <= i < |x| ==> valid[x[i]])
  {
    SplitBuffers(x, bp, y);
    var all := x + [bp] + y;
    assert all[|x|] == bp;
    assert forall i :: 0 <= i < |x| ==> x[i] == all[i];
    assert forall i :: 0 <= i < |y| ==> y[i] == all[|x| + 1 + i];
  }

  lemma WithoutMiddle(a: seq<nat>, b: nat, c: seq<nat>)
    requires Without(a, b) == a && Without(c, b) == c
    ensures Without(a + [b] + c, b) == a + c
  {
    WithoutAppend(a + [b], c, b);
    WithoutAppend(a, [b], b);
    WithoutItself(b);
    assert a + [] == a;
  }

  lemma WithoutItself(b: nat)
    ensures Without([b], b) == []
  {
    assert [b][1..] == [];
  }

  lemma UsedMiddle(x: seq<nat>, bp: nat, y: seq<nat>, valid: seq<bool>, blkno: seq<nat>)
    requires |valid| == |blkno| == NBUF && bp < NBUF && valid[bp]
    requires forall i :: 0 <= i < |x| ==> x[i] < NBUF && valid[x[i]]
    requires forall i :: 0 <= i < |y| ==> y[i] < NBUF
    ensures forall i :: 0 <= i < |x + [bp] + y| ==> (x + [bp] + y)[i] < NBUF
    ensures Used(x + [bp] + y, valid, blkno) == Used(x, valid, blkno) + [blkno[bp]] + Used(y, valid, blkno)
  {
    assert x + [bp] + y == x + ([bp] + y) && ([bp] + y)[1..] == y;
    UsedAppend(x, [bp] + y, valid, blkno);
    assert Used([bp] + y, valid, blkno) == [blkno[bp]] + Used(y, valid, blkno);
    Associative(Used(x, valid, blkno), [blkno[bp]], Used(y, valid, blkno));
  }

  /** A block found: its buffer goes to the head of the list. */
  lemma UsedHit(x: seq<nat>, bp: nat, y: seq<nat>, valid: seq<bool>, blkno: seq<nat>)
    requires |valid| == |blkno| == NBUF && Buffers(x + [bp] + y) && ValidFirst(x + [bp] + y, valid)
    requires bp < NBUF && valid[bp]
    requires forall b, c :: 0 <= b < c < NBUF && valid[b] && valid[c] ==> blkno[b] != blkno[c]
    ensures forall i :: 0 <= i < |x + y| ==> (x + y)[i] < NBUF
    ensures Without(Used(x + [bp] + y, valid, blkno), blkno[bp]) == Used(x + y, valid, blkno)
  {
    SplitBuffers(x, bp, y);
    SplitValid(x, bp, y, valid);
    NotUsedTwice(x, bp, valid, blkno);
    NotUsedTwice(y, bp, valid, blkno);
    UsedMiddle(x, bp, y, valid, blkno);
    UsedAppend(x, y, valid, blkno);
    WithoutMiddle(Used(x, valid, blkno), blkno[bp], Used(y, valid, blkno));
  }

  /** The buffers before the last: what they say is all there is, or all but the block used longest ago. */
  lemma {:induction false} UsedButLast(x: seq<nat>, bp: nat, valid: seq<bool>, blkno: seq<nat>)
    requires |valid| == |blkno| == NBUF && Buffers(x + [bp]) && ValidFirst(x + [bp], valid)
    ensures bp < NBUF && forall i :: 0 <= i < |x| ==> x[i] < NBUF
    ensures Used(x, valid, blkno) == Shortened(Used(x + [bp], valid, blkno), |x|)
    ensures valid[bp] <==> |Used(x + [bp], valid, blkno)| == |x| + 1
    decreases |x|
  {
    var all := x + [bp];
    assert all[|x|] == bp && forall i :: 0 <= i < |x| ==> x[i] == all[i];
    if x != [] {
      assert all[1..] == x[1..] + [bp];
      assert Buffers(all[1..]);
      UsedButLast(x[1..], bp, valid, blkno);
    }
  }

  lemma LastBuffer(x: seq<nat>, bp: nat)
    requires Buffers(x + [bp])
    ensures bp !in x
  {
    assert x + [bp] + [] == x + [bp];
    SplitBuffers(x, bp, []);
  }

  /** A block not found: it goes into the last buffer, and that to the head of the list. */
  lemma UsedMiss(x: seq<nat>, bp: nat, valid: seq<bool>, blkno: seq<nat>, b: nat)
    requires |valid| == |blkno| == NBUF == |x| + 1 && Buffers(x + [bp]) && ValidFirst(x + [bp], valid)
    requires b !in Used(x + [bp], valid, blkno)
    ensures bp < NBUF && forall i :: 0 <= i < |[bp] + x| ==> ([bp] + x)[i] < NBUF
    ensures Used([bp] + x, valid[bp := true], blkno[bp := b]) == Touch(Used(x + [bp], valid, blkno), b)
  {
    UsedButLast(x, bp, valid, blkno);
    WithoutNothing(Used(x + [bp], valid, blkno), b);
    LastBuffer(x, bp);
    UsedSame(x, valid, blkno, valid[bp := true], blkno[bp := b]);
    assert ([bp] + x)[1..] == x;
  }

  lemma InvalidLast(x: seq<nat>, bp: nat, valid: seq<bool>)
    requires |valid| == NBUF && Buffers(x + [bp]) && ValidFirst(x + [bp], valid)
    ensures bp < NBUF && ValidFirst(x + [bp], valid[bp := false])
  {
    assert (x + [bp])[|x|] == bp;
    LastBuffer(x, bp);
  }

  /** A block that could not be read has cost the one used longest ago its buffer. */
  lemma UsedFailed(x: seq<nat>, bp: nat, valid: seq<bool>, blkno: seq<nat>, b: nat)
    requires |valid| == |blkno| == NBUF == |x| + 1 && Buffers(x + [bp]) && ValidFirst(x + [bp], valid)
    ensures bp < NBUF && forall i :: 0 <= i < |x + [bp]| ==> (x + [bp])[i] < NBUF
    ensures Used(x + [bp], valid[bp := false], blkno[bp := b]) == Shortened(Used(x + [bp], valid, blkno), NBUF - 1)
  {
    UsedButLast(x, bp, valid, blkno);
    LastBuffer(x, bp);
    var v, n: seq<nat> := valid[bp := false], blkno[bp := b];
    UsedSame(x, valid, blkno, v, n);
    InvalidLast(x, bp, valid);
    UsedButLast(x, bp, v, n);
  }

  lemma {:induction false} TrailsAt(back: seq<nat>, path: seq<nat>, i: nat)
    requires Trails(back, path) && i + 1 < |path|
    ensures path[i + 1] < |back| && back[path[i + 1]] == path[i]
  {
    if i > 0 {
      TrailsAt(back, path[1..], i - 1);
    }
  }

  /** A list as long as there are buffers has them all. */
  lemma AllOnList(order: seq<nat>, b: nat)
    requires Buffers(order) && |order| == NBUF && b < NBUF
    ensures exists i :: 0 <= i < NBUF && order[i] == b
  {
    if b !in order {
      Pigeonhole(order + [b], NBUF);
    }
  }

  /** The block of an address, and the offset in the block. */
  function BlockOf(address: nat, bsize: nat): nat
    requires bsize > 0
  {
    if address < bsize then 0 else 1 + BlockOf(address - bsize, bsize)
  }

  function OffsetOf(address: nat, bsize: nat): (o: nat)
    requires bsize > 0
    ensures o < bsize
  {
    if address < bsize then address else OffsetOf(address - bsize, bsize)
  }

  lemma {:induction false} SplitAddress(address: nat, bsize: nat)
    requires bsize > 0
    ensures address == BlockOf(address, bsize) * bsize + OffsetOf(address, bsize)
  {
    if address >= bsize {
      SplitAddress(address - bsize, bsize);
    }
  }

  // ----- words on the disk -----

  const CHAR: nat := 1
  const SHORT: nat := 2
  const LONG: nat := 4
  const INODE: nat := 128
  const DIRECTORY: nat := 264

  /** How many bytes an object of this size is read or written as; none for other sizes. */
  function Width(objsz: nat): (w: nat)
    ensures w in {0, 1, 2, 4}
  {
    if objsz == CHAR then 1
    else if objsz == SHORT || objsz == INODE then 2
    else if objsz == LONG || objsz == DIRECTORY then 4
    else 0
  }

  function RoundedDown(addr: int, w: nat): int {
    if w == 0 then addr else addr - addr % w
  }

  lemma RoundedMultiple(addr: int, w: nat)
    requires w in {0, 1, 2, 4}
    ensures w > 0 ==> RoundedDown(addr, w) % w == 0
  {
  }

  /** An object at a multiple of its width does not cross the end of a block. */
  lemma {:induction false} WordInside(address: nat, bsize: nat, w: nat)
    requires bsize > 0 && bsize % 4 == 0 && w in {1, 2, 4} && address % w == 0
    ensures OffsetOf(address, bsize) + w <= bsize && OffsetOf(address, bsize) % w == 0
    decreases address
  {
    if address >= bsize {
      Multiples(address, bsize, w);
      WordInside(address - bsize, bsize, w);
    } else {
      Multiples(bsize, address, w);
    }
  }

  lemma Multiples(a: nat, b: nat, w: nat)
    requires w in {1, 2, 4} && a >= b && a % w == 0 && b % w == 0
    ensures (a - b) % w == 0 && (a > b ==> a - b >= w)
  {
    if w == 2 {
      EvenDifference(a, b);
    } else if w == 4 {
      FourDifference(a, b);
    }
  }

  lemma EvenDifference(a: nat, b: nat)
    requires a >= b && a % 2 == 0 && b % 2 == 0
    ensures (a - b) % 2 == 0 && (a > b ==> a - b >= 2)
  {
  }

  lemma FourDifference(a: nat, b: nat)
    requires a >= b && a % 4 == 0 && b % 4 == 0
    ensures (a - b) % 4 == 0 && (a > b ==> a - b >= 4)
  {
  }

  function BytesAt(disk: seq<seq<Byte>>, bsize: nat, address: nat, w: nat): seq<Byte>
    requires bsize > 0
  {
    var b, o := BlockOf(address, bsize), OffsetOf(address, bsize);
    if b < |disk| && o + w <= |disk[b]| then disk[b][o..o + w] else []
  }

  /** The number at an address, big-endian and signed. */
  ghost function WordAt(disk: seq<seq<Byte>>, bsize: nat, address: nat, w: nat): int
    requires bsize > 0 && bsize % 4 == 0 && w in {1, 2, 4} && address % w == 0
    requires BlockOf(address, bsize) < |disk| && |disk[BlockOf(address, bsize)]| == bsize
  {
    WordInside(address, bsize, w);
    Decode(BytesAt(disk, bsize, address, w))
  }

  // ----- objects by their sizes -----

  /** The byte at an address of the disk. */
  ghost function ByteAt(disk: seq<seq<Byte>>, bsize: nat, address: nat): int
    requires bsize > 0
  {
    var b, o := BlockOf(address, bsize), OffsetOf(address, bsize);
    if b < |disk| && o < |disk[b]| then disk[b][o] else 0
  }

  /** Where get looks for an object of a size. */
  ghost function Start(addr: int, lngth: nat): int {
    if lngth in {SHORT, INODE} then addr - addr % 2
    else if lngth in {LONG, DIRECTORY} then addr - addr % 4
    else addr
  }

  /** A number is the object of this size at an address: signed, its first byte the highest; other sizes read as 0. */
  ghost predicate Reads(disk: seq<seq<Byte>>, bsize: nat, a: nat, lngth: nat, v: int)
    requires bsize > 0
  {
    if lngth == CHAR then -128 <= v < 128 && v % 256 == ByteAt(disk, bsize, a)
    else if lngth in {SHORT, INODE} then
      -32768 <= v < 32768 && v % 65536 == ByteAt(disk, bsize, a) * 256 + ByteAt(disk, bsize, a + 1)
    else if lngth in {LONG, DIRECTORY} then
      && -0x8000_0000 <= v < 0x8000_0000
      && v % 0x1_0000_0000 == ByteAt(disk, bsize, a) * 0x100_0000 + ByteAt(disk, bsize, a + 1) * 0x1_0000
                              + ByteAt(disk, bsize, a + 2) * 256 + ByteAt(disk, bsize, a + 3)
    else v == 0
  }

  /** The bytes that put stores for an object of this size; none for other sizes. */
  ghost function Image(item: int, lngth: nat): seq<Byte> {
    if lngth == CHAR then [item % 256]
    else if lngth in {SHORT, INODE} then [item / 256 % 256, item % 256]
    else if lngth in {LONG, DIRECTORY} then
      [item / 0x100_0000 % 256, item / 0x1_0000 % 256, item / 256 % 256, item % 256]
    else []
  }

  lemma {:induction false} NextByte(address: nat, bsize: nat)
    requires bsize > 0 && OffsetOf(address, bsize) + 1 < bsize
    ensures BlockOf(address + 1, bsize) == BlockOf(address, bsize)
    ensures OffsetOf(address + 1, bsize) == OffsetOf(address, bsize) + 1
    decreases address
  {
    if address >= bsize {
      NextByte(address - bsize, bsize);
    }
  }

  /** The bytes of an object stand one behind the other. */
  lemma {:induction false} BytesInRow(disk: seq<seq<Byte>>, bsize: nat, address: nat, w: nat, i: nat)
    requires bsize > 0 && OffsetOf(address, bsize) + w <= bsize && i < w
    requires BlockOf(address, bsize) < |disk| && |disk[BlockOf(address, bsize)]| == bsize
    ensures BlockOf(address + i, bsize) == BlockOf(address, bsize)
    ensures OffsetOf(address + i, bsize) == OffsetOf(address, bsize) + i
    ensures |BytesAt(disk, bsize, address, w)| == w
    ensures BytesAt(disk, bsize, address, w)[i] == ByteAt(disk, bsize, address + i)
    decreases i
  {
    if i > 0 {
      BytesInRow(disk, bsize, address, w, i - 1);
      NextByte(address + i - 1, bsize);
    }
  }

  lemma StartIs(addr: int, lngth: nat)
    ensures Start(addr, lngth) == RoundedDown(addr, Width(lngth))
  {
  }

  lemma ImageIs(item: int, addr: int, lngth: nat)
    requires addr == Start(addr, lngth)
    ensures Width(lngth) == 0 <==> Image(item, lngth) == []
    ensures Width(lngth) > 0 ==> addr % Width(lngth) == 0 && Image(item, lngth) == Encode(item, Width(lngth))
  {
  }

  /** The word that get extracts is the object. */
  lemma WordReads(disk: seq<seq<Byte>>, bsize: nat, address: nat, lngth: nat)
    requires bsize > 0 && bsize % 4 == 0 && Width(lngth) > 0 && address % Width(lngth) == 0
    requires BlockOf(address, bsize) < |disk| && |disk[BlockOf(address, bsize)]| == bsize
    ensures Reads(disk, bsize, address, lngth, WordAt(disk, bsize, address, Width(lngth)))
  {
    var w := Width(lngth);
    var bs := BytesAt(disk, bsize, address, w);
    WordInside(address, bsize, w);
    BytesInRow(disk, bsize, address, w, 0);
    if w > 1 {
      BytesInRow(disk, bsize, address, w, 1);
    }
    if w > 2 {
      BytesInRow(disk, bsize, address, w, 2);
      BytesInRow(disk, bsize, address, w, 3);
    }
    NumberOf(bs);
  }

  /** What Decode makes of one, two or four bytes. */
  lemma NumberOf(bs: seq<Byte>)
    requires |bs| in {1, 2, 4}
    ensures |bs| == 1 ==> -128 <= Decode(bs) < 128 && Decode(bs) % 256 == bs[0]
    ensures |bs| == 2 ==> -32768 <= Decode(bs) < 32768 && Decode(bs) % 65536 == (bs[0] as int) * 256 + bs[1] as int
    ensures |bs| == 4 ==>
      && -0x8000_0000 <= Decode(bs) < 0x8000_0000
      && Decode(bs) % 0x1_0000_0000 ==
         (bs[0] as int) * 0x100_0000 + (bs[1] as int) * 0x1_0000 + (bs[2] as int) * 256 + bs[3] as int
  {
    DecodeIs(bs);
    Powers();
    if |bs| == 1 {
      assert bs[..0] == [];
    } else if |bs| == 2 {
      Unsigned2(bs[0], bs[1]);
      assert bs == [bs[0], bs[1]];
    } else {
      Unsigned4(bs[0], bs[1], bs[2], bs[3]);
      assert bs == [bs[0], bs[1], bs[2], bs[3]];
    }
  }

  /** The bytes stand at the address, and nothing else has changed. */
  ghost predicate Stored(was: seq<seq<Byte>>, now: seq<seq<Byte>>, bsize: nat, address: nat, bytes: seq<Byte>)
    requires bsize > 0
  {
    var b, o := BlockOf(address, bsize), OffsetOf(address, bsize);
    b < |was| && o + |bytes| <= |was[b]| && now == was[b := Patch(was[b], o, bytes)]
  }

  lemma PatchSame(block: seq<Byte>, o: nat, bytes: seq<Byte>)
    requires o + |bytes| <= |block|
    ensures Patch(block, o, bytes) == block <==> bytes == block[o..o + |bytes|]
  {
  }

  /**
   A buffer changed agrees with the disk when the disk is changed with
   it, and else only when it did not really change.
   */
  lemma CoherentWrite(valid: seq<bool>, blkno: seq<nat>, data: seq<seq<Byte>>, disk: seq<seq<Byte>>, bp: nat,
        new_: seq<Byte>)
    requires Coherent(valid, blkno, data, disk) && bp < NBUF && valid[bp]
    ensures Coherent(valid, blkno, data[bp := new_], disk[blkno[bp] := new_])
    ensures Coherent(valid, blkno, data[bp := new_], disk) <==> new_ == disk[blkno[bp]]
  {
    assert data[bp := new_][bp] == new_;
  }

  class Cache {
    const fwd: array<nat>
    const back: array<nat>
    const valid: array<bool>
    const blkno: array<nat>
    const blkaddr: array<seq<Byte>>
    const bsize: nat
    var disk: seq<seq<Byte>>
    var error: nat
    /** The list of buffers from its head. */
    ghost var order: seq<nat>

    ghost predicate Shape()
      reads this`disk
    {
      && fwd.Length == back.Length == NBUF + 1 && fwd != back
      && valid.Length == blkno.Length == blkaddr.Length == NBUF && blkno != fwd && blkno != back
      && bsize > 0 && bsize % 4 == 0
      && (forall b :: 0 <= b < |disk| ==> |disk[b]| == bsize)
    }

    /** The list is in order: all the buffers are on it, those that hold a block first. */
    ghost predicate Listed()
      reads this`disk, this`order, fwd, back, valid
    {
      Shape() && |order| == NBUF && Linked(fwd[..], back[..], order) && ValidFirst(order, valid[..])
    }

    ghost predicate Valid()
      reads this`disk, this`order, fwd, back, valid, blkno, blkaddr
    {
      Listed() && Coherent(valid[..], blkno[..], blkaddr[..], disk)
    }

    /** The blocks in the cache, the one used last first. */
    ghost function Blocks(): seq<nat>
      reads this`disk, this`order, fwd, back, valid, blkno
      requires Listed()
    {
      Used(order, valid[..], blkno[..])
    }

    /** insert: a buffer that is on no list goes to the head of the list. */
    method Insert(bp: nat)
      requires Shape() && Linked(fwd[..], back[..], order) && bp < NBUF && bp !in order
      modifies this`order, fwd, back
      ensures Linked(fwd[..], back[..], order) && order == [bp] + old(order)
    {
      ghost var f: seq<nat>, b: seq<nat> := fwd[..], back[..];
      Inserted(f, b, order, bp);
      back[bp] := BHDR;
      fwd[bp] := fwd[BHDR];
      back[fwd[BHDR]] := bp;
      fwd[BHDR] := bp;
      ghost var first: nat := (order + [BHDR])[0];
      assert fwd[..] == f[bp := first][BHDR := bp] && back[..] == b[bp := BHDR][first := bp];
      order := [bp] + order;
    }

    /** The end of getblk: a buffer goes from its place in the list to the head. */
    method ToHead(bp: nat, ghost x: seq<nat>, ghost y: seq<nat>)
      requires Shape() && Linked(fwd[..], back[..], order) && order == x + [bp] + y
      modifies this`order, fwd, back
      ensures Linked(fwd[..], back[..], order) && order == [bp] + (x + y)
    {
      ghost var f: seq<nat>, b: seq<nat> := fwd[..], back[..];
      Unlinked(f, b, x, bp, y);
      ghost var p: nat, n: nat := ([BHDR] + x)[|x|], (y + [BHDR])[0];
      SplitBuffers(x, bp, y);
      assert p != bp && n != bp;
      fwd[back[bp]] := fwd[bp];
      back[fwd[bp]] := back[bp];
      assert fwd[..] == f[p := n] && back[..] == b[n := p];
      order := x + y;
      Insert(bp);
    }

    /** Allocating the buffers: an empty list, and each buffer, without a block, put on it. */
    constructor (blocks: seq<seq<Byte>>, size: nat)
      requires size > 0 && size % 4 == 0 && forall b :: 0 <= b < |blocks| ==> |blocks[b]| == size
      ensures Valid() && disk == blocks && bsize == size && error == 0 && Blocks() == []
      ensures fresh(fwd) && fresh(back) && fresh(valid) && fresh(blkno) && fresh(blkaddr)
    {
      fwd := new nat[NBUF + 1](_ => BHDR);
      back := new nat[NBUF + 1](_ => BHDR);
      valid := new bool[NBUF](_ => false);
      blkno := new nat[NBUF](_ => 0);
      blkaddr := new seq<Byte>[NBUF](_ => []);
      bsize, disk, error, order := size, blocks, 0, [];
      new;
      assert Ring([])[1..] == [BHDR];
      var i := 0;
      while i < NBUF
        invariant i <= NBUF && |order| == i && Shape() && Linked(fwd[..], back[..], order)
        invariant forall k :: 0 <= k < i ==> order[k] < i
        invariant forall b :: 0 <= b < NBUF ==> !valid[b]
        invariant disk == blocks && error == 0
        invariant fresh(fwd) && fresh(back)
      {
        Insert(i);
        i := i + 1;
      }
    }

    /** The search loop of getblk: the buffer that holds the block, or the header when none does. */
    method Search(block: nat) returns (bp: nat, ghost k: nat)
      requires Valid()
      ensures if bp == BHDR then block !in Blocks() && k == NBUF
        else k < NBUF && bp == order[k] < NBUF && valid[bp] && blkno[bp] == block && block in Blocks()
    {
      bp, k := fwd[BHDR], 0;
      ghost var ring := Ring(order);
      LeadsAt(fwd[..], ring, 0);
      while bp != BHDR
        invariant k <= NBUF && bp == ring[k + 1]
        invariant forall i :: 0 <= i < k ==> !(valid[order[i]] && blkno[order[i]] == block)
        decreases NBUF - k
      {
        if valid[bp] && blkno[bp] == block {
          UsedHas(order, valid[..], blkno[..], block);
          return;
        }
        LeadsAt(fwd[..], ring, k + 1);
        bp, k := fwd[bp], k + 1;
      }
      UsedHas(order, valid[..], blkno[..], block);
    }

    /** What the reading of a block does to the buffers: number bp holds it, or when it cannot be read, none. */
    method Fill(bp: nat, block: nat, readOk: bool)
      requires Shape() && bp < NBUF && Coherent(valid[..], blkno[..], blkaddr[..], disk) && block < |disk|
      requires forall b :: 0 <= b < NBUF && valid[b] ==> blkno[b] != block
      modifies valid, blkno, blkaddr
      ensures Coherent(valid[..], blkno[..], blkaddr[..], disk)
      ensures valid[..] == old(valid[..])[bp := readOk] && blkno[..] == old(blkno[..])[bp := block]
    {
      blkno[bp] := block;
      valid[bp] := false;
      if readOk {
        blkaddr[bp] := disk[block];
        valid[bp] := true;
      }
    }

    /** Buffer bp holds a block. */
    ghost predicate Holding(bp: nat, block: nat)
      reads this`disk, valid, blkno, blkaddr
    {
      && valid.Length == blkno.Length == blkaddr.Length == NBUF && bp < NBUF && block < |disk|
      && valid[bp] && blkno[bp] == block && blkaddr[bp] == disk[block]
    }

    /** The address is inside the file system. */
    predicate Inside(address: int)
      reads this`disk
      requires bsize > 0
    {
      address >= 0 && BlockOf(address, bsize) < |disk|
    }

    /** The blocks after an attempt to reach an address: outside the file system nothing is read. */
    ghost function AfterAccess(blocks: seq<nat>, address: int, readOk: bool): seq<nat>
      reads this`disk
      requires bsize > 0
    {
      if Inside(address) then Accessed(blocks, Access(BlockOf(address, bsize), readOk)) else blocks
    }

    /**
     getblk: the buffer that holds the block of an address, read in if need be. It fails when the address is
     outside the file system or the block cannot be read; the latter has cost the block used longest ago its buffer.
     */
    method GetBlk(address: int, readOk: bool) returns (ok: bool, bp: nat)
      requires Valid()
      modifies this`order, this`error, fwd, back, valid, blkno, blkaddr
      ensures Valid() && disk == old(disk) && error == old(error) + (if ok then 0 else 1)
      ensures !Inside(address) ==> !ok && Blocks() == old(Blocks())
      ensures Inside(address) ==>
        var a := Access(BlockOf(address, bsize), readOk);
        (ok <==> Succeeds(old(Blocks()), a)) && Blocks() == Accessed(old(Blocks()), a)
      ensures ok ==> Inside(address) && Holding(bp, BlockOf(address, bsize))
    {
      if !Inside(address) {
        error := error + 1;
        return false, 0;
      }
      var block := BlockOf(address, bsize);
      ghost var k;
      bp, k := Search(block);
      if bp == BHDR {
        ok, bp := Fetch(block, readOk);
      } else {
        Found(bp, k);
        ok := true;
      }
    }

    /** getblk for a block that is cached. */
    method Found(bp: nat, ghost k: nat)
      requires Valid() && k < NBUF && bp == order[k] < NBUF && valid[bp]
      modifies this`order, fwd, back
      ensures Valid() && Blocks() == Touch(old(Blocks()), blkno[bp])
    {
      ghost var x, y := order[..k], order[k + 1..];
      assert order == x + [bp] + y;
      UsedHit(x, bp, y, valid[..], blkno[..]);
      ToHead(bp, x, y);
      FoundFirst(x, bp, y, valid[..]);
      assert ([bp] + (x + y))[1..] == x + y;
    }

    /** getblk for a block that is not: it goes into the last buffer of the list. */
    method Fetch(block: nat, readOk: bool) returns (ok: bool, bp: nat)
      requires Valid() && block < |disk| && block !in Blocks()
      modifies this`order, this`error, fwd, back, valid, blkno, blkaddr
      ensures Valid() && disk == old(disk) && (ok <==> readOk) && error == old(error) + (if ok then 0 else 1)
      ensures Blocks() == if ok then Touch(old(Blocks()), block) else Shortened(old(Blocks()), NBUF - 1)
      ensures ok ==> Holding(bp, block)
    {
      ghost var x := order[..NBUF - 1];
      TrailsAt(back[..], Ring(order), NBUF);
      bp := back[BHDR];
      assert order == x + [bp];
      NotCached(order, valid[..], blkno[..], block);
      UsedMiss(x, bp, valid[..], blkno[..], block);
      UsedFailed(x, bp, valid[..], blkno[..], block);
      Fill(bp, block, readOk);
      ok := readOk;
      ghost var v, n := valid[..], blkno[..];
      if ok {
        MissFirst(x, bp, v);
        assert x + [bp] + [] == order && x + [] == x;
        ToHead(bp, x, []);
      } else {
        InvalidLast(x, bp, v);
        error := error + 1;
      }
      assert valid[..] == v && blkno[..] == n;
    }

    /** The block of an address can be had: it is in the file system, and cached or readable. */
    ghost predicate Reaches(address: int, readOk: bool)
      reads this`disk, this`order, fwd, back, valid, blkno
      requires Listed()
    {
      Inside(address) && (readOk || BlockOf(address, bsize) in Blocks())
    }

    /**
     get: the object of a size at an address, rounded down to a multiple of two for short objects and of
     four for long ones; -1 when there is none. What it finds is what is on the disk, cached or not.
     */
    method Get(addr: int, lngth: nat, readOk: bool) returns (v: int)
      requires Valid()
      modifies this`order, this`error, fwd, back, valid, blkno, blkaddr
      ensures Valid() && disk == old(disk)
      ensures if old(Reaches(Start(addr, lngth), readOk)) then
          Reads(disk, bsize, Start(addr, lngth), lngth, v) && error == old(error)
        else v == -1 && error == old(error) + 1
      ensures Blocks() == AfterAccess(old(Blocks()), Start(addr, lngth), readOk)
    {
      var w := Width(lngth);
      var temp := RoundedDown(addr, w);
      RoundedMultiple(addr, w);
      StartIs(addr, lngth);
      var ok, bp := GetBlk(temp, readOk);
      if !ok {
        return -1;
      }
      if w == 0 {
        return 0;
      }
      v := Extract(bp, temp, w);
      WordReads(disk, bsize, temp, lngth);
    }

    /** The end of get: the object from the buffer. */
    method Extract(bp: nat, temp: nat, w: nat) returns (v: int)
      requires Shape() && w in {1, 2, 4} && temp % w == 0 && Inside(temp) && Holding(bp, BlockOf(temp, bsize))
      ensures v == WordAt(disk, bsize, temp, w)
    {
      WordInside(temp, bsize, w);
      var off := OffsetOf(temp, bsize);
      return Decode(blkaddr[bp][off..off + w]);
    }

    /**
     put: write an object at an address, which is a multiple of its width. When it succeeds the disk has
     changed there and nowhere else; when the block cannot be written back, the disk has not changed,
     and the cache agrees with it no more, unless the object was the same.
     */
    method Put(item: int, addr: int, lngth: nat, wrtflag: bool, readOk: bool, writeOk: bool)
      requires Valid() && addr == Start(addr, lngth)
      modifies this`disk, this`order, this`error, fwd, back, valid, blkno, blkaddr
      ensures Listed()
      ensures var bytes := Image(item, lngth);
        var done := wrtflag && old(Reaches(addr, readOk)) && bytes != [];
        && (done && writeOk ==> Valid() && Stored(old(disk), disk, bsize, addr, bytes))
        && (!(done && writeOk) ==> disk == old(disk) && error == old(error) + 1)
        && (done && !writeOk ==> (Valid() <==> bytes == BytesAt(disk, bsize, addr, |bytes|)))
        && (!done ==> Valid())
      ensures Blocks() == if wrtflag then AfterAccess(old(Blocks()), addr, readOk) else old(Blocks())
    {
      if !wrtflag {
        error := error + 1;
        return;
      }
      var w := Width(lngth);
      ImageIs(item, addr, lngth);
      var ok, bp := GetBlk(addr, readOk);
      if !ok {
        return;
      }
      if w == 0 {
        error := error + 1;
        return;
      }
      Write(bp, addr, Encode(item, w), writeOk);
    }

    /** The end of put: the object goes into the buffer, and the buffer to the disk. */
    method Write(bp: nat, addr: nat, bytes: seq<Byte>, writeOk: bool)
      requires Valid() && Inside(addr) && Holding(bp, BlockOf(addr, bsize))
      requires |bytes| in {1, 2, 4} && addr % |bytes| == 0
      modifies this`disk, this`error, blkaddr
      ensures Listed() && Blocks() == old(Blocks())
      ensures if writeOk then Valid() && Stored(old(disk), disk, bsize, addr, bytes)
        else disk == old(disk) && error == old(error) + 1 && (Valid() <==> bytes == BytesAt(disk, bsize, addr, |bytes|))
    {
      WordInside(addr, bsize, |bytes|);
      var off := OffsetOf(addr, bsize);
      ghost var block, data, was := BlockOf(addr, bsize), blkaddr[..], disk;
      var new_ := Patch(blkaddr[bp], off, bytes);
      blkaddr[bp] := new_;
      CoherentWrite(valid[..], blkno[..], data, disk, bp, new_);
      PatchSame(data[bp], off, bytes);
      assert blkaddr[..] == data[bp := new_];
      if writeOk {
        disk := disk[blkno[bp] := blkaddr[bp]];
      } else {
        error := error + 1;
      }
      assert blkaddr[..] == data[bp := new_];
    }
  }

  lemma NotCached(order: seq<nat>, valid: seq<bool>, blkno: seq<nat>, block: nat)
    requires |valid| == |blkno| == NBUF == |order| && Buffers(order) && ValidFirst(order, valid)
    requires block !in Used(order, valid, blkno)
    ensures forall b :: 0 <= b < NBUF && valid[b] ==> blkno[b] != block
  {
    UsedHas(order, valid, blkno, block);
    forall b | 0 <= b < NBUF && valid[b]
      ensures blkno[b] != block
    {
      AllOnList(order, b);
    }
  }

  lemma MissFirst(x: seq<nat>, bp: nat, valid: seq<bool>)
    requires |valid| == NBUF && bp < NBUF && Buffers(x + [bp]) && valid[bp]
    requires (forall i :: 0 <= i < |x| ==> x[i] < NBUF) && ValidFirst(x, valid)
    ensures (forall i :: 0 <= i < |[bp] + x| ==> ([bp] + x)[i] < NBUF) && ValidFirst([bp] + x, valid)
  {
  }

  lemma FoundFirst(x: seq<nat>, bp: nat, y: seq<nat>, valid: seq<bool>)
    requires |valid| == NBUF && Buffers(x + [bp] + y) && ValidFirst(x + [bp] + y, valid) && bp < NBUF && valid[bp]
    ensures (forall i :: 0 <= i < |[bp] + (x + y)| ==> ([bp] + (x + y))[i] < NBUF) && ValidFirst([bp] + (x + y), valid)
  {
    SplitBuffers(x, bp, y);
    SplitValid(x, bp, y, valid);
  }

  // ----- what put and get mean together -----

  /** Bytes stored elsewhere do not touch these. */
  lemma OtherBytes(was: seq<seq<Byte>>, now: seq<seq<Byte>>, bsize: nat, address: nat, bytes: seq<Byte>, other: nat,
        v: nat)
    requires bsize > 0 && Stored(was, now, bsize, address, bytes) && |was[BlockOf(address, bsize)]| == bsize
    requires BlockOf(other, bsize) < |was| && |was[BlockOf(other, bsize)]| == bsize
    requires OffsetOf(other, bsize) + v <= bsize
    requires other + v <= address || address + |bytes| <= other
    ensures BytesAt(now, bsize, other, v) == BytesAt(was, bsize, other, v)
  {
    SplitAddress(address, bsize);
    SplitAddress(other, bsize);
    var b, o := BlockOf(address, bsize), OffsetOf(address, bsize);
    if BlockOf(other, bsize) == b {
      PatchElsewhere(was[b], o, bytes, OffsetOf(other, bsize), v);
    }
  }

  lemma PatchElsewhere(block: seq<Byte>, o: nat, bytes: seq<Byte>, p: nat, v: nat)
    requires o + |bytes| <= |block| && p + v <= |block| && (p + v <= o || o + |bytes| <= p)
    ensures Patch(block, o, bytes)[p..p + v] == block[p..p + v]
  {
  }

  /** What put wrote get reads back, cut to its width; other objects are as they were. */
  lemma GetAfterPut(was: seq<seq<Byte>>, now: seq<seq<Byte>>, bsize: nat, address: nat, w: nat, item: int, other: nat,
        v: nat)
    requires bsize > 0 && bsize % 4 == 0 && (forall b :: 0 <= b < |was| ==> |was[b]| == bsize)
    requires w in {1, 2, 4} && address % w == 0 && v in {1, 2, 4} && other % v == 0
    requires BlockOf(address, bsize) < |was| && BlockOf(other, bsize) < |was|
    requires Stored(was, now, bsize, address, Encode(item, w))
    ensures forall b :: 0 <= b < |now| ==> |now[b]| == bsize
    ensures WordAt(now, bsize, address, w) == Wrap(item, w)
    ensures other + v <= address || address + w <= other
      ==> WordAt(now, bsize, other, v) == WordAt(was, bsize, other, v)
  {
    DecodeEncode(item, w);
    WordInside(address, bsize, w);
    WordInside(other, bsize, v);
    if other + v <= address || address + w <= other {
      OtherBytes(was, now, bsize, address, Encode(item, w), other, v);
    }
  }

  // ----- recency -----

  /** The cache after a history of accesses, the last one first. */
  ghost function CacheAfter(history: seq<Access>): seq<nat> {
    if history == [] then [] else Accessed(CacheAfter(history[1..]), history[0])
  }

  /** The blocks used with success, the last use first. */
  ghost function Uses(history: seq<Access>): seq<nat> {
    if history == [] then []
    else (if Succeeds(CacheAfter(history[1..]), history[0]) then [history[0].block] else []) + Uses(history[1..])
  }

  /** The blocks used, each once, in order of their last use. */
  ghost function ByRecency(history: seq<nat>): seq<nat> {
    if history == [] then [] else [history[0]] + Without(ByRecency(history[1..]), history[0])
  }

  lemma {:induction false} WithoutKeeps(s: seq<nat>, b: nat)
    requires Distinct(s)
    ensures Distinct(Without(s, b)) && |Without(s, b)| + 1 >= |s| && forall x :: x in Without(s, b) ==> x in s
  {
    if s != [] {
      WithoutKeeps(s[1..], b);
      assert s[0] !in s[1..];
      if s[0] == b {
        WithoutNothing(s[1..], b);
      }
    }
  }

  lemma {:induction false} RecencyDistinct(history: seq<nat>)
    ensures Distinct(ByRecency(history))
  {
    if history != [] {
      RecencyDistinct(history[1..]);
      WithoutKeeps(ByRecency(history[1..]), history[0]);
    }
  }

  lemma TouchShortened(s: seq<nat>, b: nat)
    requires Distinct(s)
    ensures Touch(Shortened(s, NBUF), b) == Shortened([b] + Without(s, b), NBUF)
  {
    if |s| > NBUF {
      var head, tail := s[..NBUF], s[NBUF..];
      assert s == head + tail && Distinct(head);
      WithoutAppend(head, tail, b);
      WithoutKeeps(head, b);
      ShortenedPrefix([b] + Without(head, b), Without(tail, b), NBUF);
      Associative([b], Without(head, b), Without(tail, b));
    }
  }

  lemma ShortenedPrefix(a: seq<nat>, t: seq<nat>, n: nat)
    requires |a| >= n
    ensures Shortened(a + t, n) == Shortened(a, n)
  {
  }

  lemma PrefixTouched(s: seq<nat>, r: seq<nat>, b: nat)
    requires s <= r
    ensures Touch(s, b) <= [b] + Without(r, b)
  {
    var rest := r[|s|..];
    assert r == s + rest;
    WithoutAppend(s, rest, b);
    Associative([b], Without(s, b), Without(rest, b));
    PrefixShortened([b] + Without(s, b), Without(rest, b), NBUF);
  }

  lemma PrefixShortened(a: seq<nat>, t: seq<nat>, n: nat)
    ensures Shortened(a, n) <= a + t
  {
  }

  /**
   After any accesses, failed ones among them, the cache holds blocks used last with success, in order of
   their last use: none that is in the cache was used longer ago than one that is not.
   */
  lemma {:induction false} CacheIsByRecency(history: seq<Access>)
    ensures CacheAfter(history) <= ByRecency(Uses(history))
  {
    if history != [] {
      var cache, uses := CacheAfter(history[1..]), Uses(history[1..]);
      CacheIsByRecency(history[1..]);
      if Succeeds(cache, history[0]) {
        var b := history[0].block;
        assert ([b] + uses)[1..] == uses;
        PrefixTouched(cache, ByRecency(uses), b);
      } else {
        assert [] + uses == uses;
        PrefixTrans(cache, ByRecency(uses), NBUF - 1);
      }
    }
  }

  lemma PrefixTrans(s: seq<nat>, r: seq<nat>, n: nat)
    requires s <= r
    ensures Shortened(s, n) <= r
  {
  }

  /** Without failed reads it holds as many of them as there are buffers for. */
  lemma {:induction false} CacheIsFull(history: seq<Access>)
    requires forall i :: 0 <= i < |history| ==> history[i].readOk
    ensures CacheAfter(history) == Shortened(ByRecency(Uses(history)), NBUF)
  {
    if history != [] {
      var uses := Uses(history[1..]);
      CacheIsFull(history[1..]);
      RecencyDistinct(uses);
      TouchShortened(ByRecency(uses), history[0].block);
      assert ([history[0].block] + uses)[1..] == uses;
    }
  }

  // ----- sessions -----

  /** A request to the debugger's cache: get, or a put whose block can be written back. */
  datatype Request =
    | Fetch(addr: int, lngth: nat, readOk: bool)
    | Store(item: int, addr: int, lngth: nat, wrtflag: bool, readOk: bool)

  /** The access a request makes to a file system of n blocks, if any. */
  ghost function AccessesOf(r: Request, bsize: nat, n: nat): seq<Access>
    requires bsize > 0
  {
    var address := if r.Fetch? then Start(r.addr, r.lngth) else r.addr;
    if (r.Fetch? || r.wrtflag) && address >= 0 && BlockOf(address, bsize) < n
    then [Access(BlockOf(address, bsize), r.readOk)] else []
  }

  /** The accesses of some requests, the last one first. */
  ghost function History(rs: seq<Request>, bsize: nat, n: nat): seq<Access>
    requires bsize > 0
  {
    if rs == [] then [] else AccessesOf(rs[|rs| - 1], bsize, n) + History(rs[..|rs| - 1], bsize, n)
  }

  /** A put addresses a place where get would look. */
  ghost predicate Fits(r: Request) {
    r.Store? ==> r.addr == Start(r.addr, r.lngth)
  }

  lemma AccessMade(r: Request, bsize: nat, n: nat, history: seq<Access>, blocks: seq<nat>)
    requires bsize > 0 && blocks == CacheAfter(history)
    ensures var made := AccessesOf(r, bsize, n);
      CacheAfter(made + history) == if made == [] then blocks else Accessed(blocks, made[0])
  {
    var made := AccessesOf(r, bsize, n);
    if made == [] {
      assert made + history == history;
    } else {
      assert (made + history)[1..] == history;
    }
  }

  /** One request. */
  method Serve(c: Cache, r: Request, ghost history: seq<Access>) returns (v: int)
    requires c.Valid() && Fits(r) && c.Blocks() == CacheAfter(history)
    modifies c, c.fwd, c.back, c.valid, c.blkno, c.blkaddr
    ensures c.Valid() && |c.disk| == old(|c.disk|)
    ensures c.Blocks() == CacheAfter(AccessesOf(r, c.bsize, |c.disk|) + history)
  {
    AccessMade(r, c.bsize, |c.disk|, history, c.Blocks());
    v := 0;
    match r
    case Fetch(addr, lngth, readOk) =>
      v := c.Get(addr, lngth, readOk);
    case Store(item, addr, lngth, wrtflag, readOk) =>
      c.Put(item, addr, lngth, wrtflag, readOk, true);
  }

  /** Whatever is got and put, the cache holds the blocks used last, in order of their last use. */
  method Session(blocks: seq<seq<Byte>>, size: nat, rs: seq<Request>) returns (c: Cache)
    requires size > 0 && size % 4 == 0 && (forall b :: 0 <= b < |blocks| ==> |blocks[b]| == size)
    requires forall k :: 0 <= k < |rs| ==> Fits(rs[k])
    ensures c.Valid() && c.Blocks() <= ByRecency(Uses(History(rs, size, |blocks|)))
  {
    c := new Cache(blocks, size);
    var k := 0;
    while k < |rs|
      invariant 0 <= k <= |rs| && c.Valid() && c.bsize == size && |c.disk| == |blocks|
      invariant fresh(c) && fresh(c.fwd) && fresh(c.back) && fresh(c.valid) && fresh(c.blkno) && fresh(c.blkaddr)
      invariant c.Blocks() == CacheAfter(History(rs[..k], size, |blocks|))
    {
      assert rs[..k + 1][..k] == rs[..k];
      var v := Serve(c, rs[k], History(rs[..k], size, |blocks|));
      k := k + 1;
    }
    assert rs[..k] == rs;
    CacheIsByRecency(History(rs, size, |blocks|));
  }
}
