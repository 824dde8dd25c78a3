/**
 The linker's output streams: several buffers that write one file at several
 places, seeking only when the last write was somewhere else.
 */
module BioBufs {
  import opened Bytes
  import opened Positional

  /** The bytes from an offset to the end of its block. */
  function Room(off: nat, bufsize: nat): (n: nat)
    requires bufsize > 0
    ensures 0 < n <= bufsize
  {
    bufsize - off % bufsize
  }

  /** One stream: its buffer, how much of it is filled and free, and the file offset of its start. */
  class BioBuf {
    var nleft: nat
    var ptr: nat
    const buf: array<Byte>
    var off: nat

    ghost predicate Ok()
      reads this
    {
      0 < ptr + nleft <= buf.Length
    }

    function Tell(): nat
      reads this
    {
      off + ptr
    }

    ghost function Waiting(): Pending
      reads this, buf
    {
      if ptr <= buf.Length then Pending(off, buf[..ptr]) else Pending(off, [])
    }

    /** bopen: the buffer is first filled only up to a multiple of its size in the file. */
    constructor (at: nat, bufsize: nat)
      requires bufsize > 0
      ensures Ok() && Waiting() == Pending(at, []) && fresh(buf)
    {
      buf := new Byte[bufsize];
      ptr, off := 0, at;
      nleft := Room(at, bufsize);
    }

    /** The part of bwrite that copies into the buffer. */
    method Fill(p: seq<Byte>)
      requires Ok() && |p| <= nleft
      modifies this`nleft, this`ptr, buf
      ensures Ok() && nleft == old(nleft) - |p| && ptr == old(ptr) + |p|
      ensures Waiting() == Pending(off, old(Waiting()).data + p)
    {
      ghost var was := buf[..ptr];
      for i := 0 to |p|
        invariant ptr == old(ptr) && nleft == old(nleft) && buf[..ptr] == was
        invariant forall k :: 0 <= k < i ==> buf[ptr + k] == p[k]
      {
        buf[ptr + i] := p[i];
      }
      nleft := nleft - |p|;
      ptr := ptr + |p|;
      assert buf[..ptr] == was + p;
    }
  }

  /** The output file and the streams open on it; a stream is named by its place in the order of opening. */
  class Output {
    var file: seq<Byte>
    /** Where the file descriptor really is. */
    var position: nat
    /** Where the program believes it is. */
    var boffset: nat
    var bios: seq<BioBuf>

    ghost predicate Differ(i: nat, j: nat)
      reads this`bios
    {
      i < j < |bios| ==> bios[i] != bios[j] && bios[i].buf != bios[j].buf
    }

    ghost predicate Distinct()
      reads this`bios
    {
      forall i, j :: Differ(i, j)
    }

    /** Stream i shares nothing with the others. */
    lemma Others(i: nat)
      requires Distinct() && i < |bios|
      ensures forall j :: 0 <= j < |bios| && j != i ==> bios[j] != bios[i] && bios[j].buf != bios[i].buf
    {
      forall j | 0 <= j < |bios| && j != i
        ensures bios[j] != bios[i] && bios[j].buf != bios[i].buf
      {
        assert Differ(i, j) && Differ(j, i);
      }
    }

    ghost predicate Valid()
      reads this, bios, set b | b in bios :: b.buf
    {
      && boffset == position
      && Distinct()
      && (forall i :: 0 <= i < |bios| ==> bios[i].Ok())
      && AllApart(Pendings())
    }

    /** What the streams still hold back. */
    ghost function Pendings(): (ps: seq<Pending>)
      reads this, bios, set b | b in bios :: b.buf
      ensures |ps| == |bios|
    {
      seq(|bios|, i requires 0 <= i < |bios| reads this, bios, set b | b in bios :: b.buf => bios[i].Waiting())
    }

    /** The file as it would be with every stream flushed. */
    ghost function Logical(): seq<Byte>
      reads this, bios, set b | b in bios :: b.buf
    {
      Overlay(file, Pendings(), |bios|)
    }

    constructor ()
      ensures Valid() && bios == [] && file == [] && Logical() == []
    {
      file, position, boffset, bios := [], 0, 0, [];
    }

    /** bopen. */
    method Open(off: nat, bufsize: nat) returns (i: nat)
      requires Valid() && bufsize > 0
      modifies this`bios
      ensures Valid() && i == old(|bios|) && |bios| == i + 1 && bios[..i] == old(bios)
      ensures fresh(bios[i]) && fresh(bios[i].buf)
      ensures bios[i].Tell() == bios[i].off == off
      ensures Pendings() == old(Pendings()) + [Pending(off, [])]
      ensures Logical() == old(Logical()) && file == old(file)
    {
      var bp := new BioBuf(off, bufsize);
      ghost var ps := Pendings();
      bios := bios + [bp];
      i := |bios| - 1;
      forall j: nat, k: nat
        ensures Differ(j, k)
      {
        assert old(Differ(j, k));
      }
      assert Pendings() == ps + [Pending(off, [])];
      NewApart(ps, off);
      OverlaySame(file, ps, Pendings(), i);
    }

    /** lseek if need be, and write. */
    method WriteOut(off: nat, data: seq<Byte>)
      requires boffset == position && data != []
      modifies this`file, this`position, this`boffset
      ensures boffset == position && file == WriteAt(old(file), off, data)
    {
      if boffset != off {
        position := off;
      }
      file := WriteAt(file, position, data);
      position := position + |data|;
      boffset := off + |data|;
    }

    /** bflush1: write out what one stream holds back. */
    method Flush1(i: nat)
      requires Valid() && i < |bios|
      modifies this`file, this`position, this`boffset, bios[i]
      ensures Valid() && Logical() == old(Logical())
      ensures Pendings() == old(Pendings())[i := Pending(old(bios[i].Tell()), [])]
      ensures old(bios[i].nleft) == 0 ==> bios[i].nleft == bios[i].buf.Length
      ensures bios[i].nleft > 0 && bios[i].ptr == 0 && bios[i].Tell() == old(bios[i].Tell())
      ensures bios[i].off >= old(bios[i].off)
    {
      var bp := bios[i];
      var cnt := bp.ptr;
      Others(i);
      ghost var ps := Pendings();
      if cnt == 0 {
        assert ps[i].data == [];
        return;
      }
      FlushOne(file, ps, |ps|, i, bp.off + cnt);
      WriteOut(bp.off, bp.buf[..cnt]);
      bp.off := bp.off + cnt;
      bp.ptr := 0;
      bp.nleft := bp.buf.Length;
      EmptyApart(ps, i, bp.off);
      assert Pendings() == ps[i := Pending(old(bios[i].Tell()), [])];
    }

    /** Writing |d| bytes at the end of stream i touches nothing another stream holds back. */
    ghost predicate Clear(i: nat, n: nat)
      reads this, bios, set b | b in bios :: b.buf
      requires i < |bios|
    {
      ClearOf(Pendings(), i, bios[i].Tell(), n)
    }

    /**
     Stream i has taken d: the logical file has it at the stream's place, what it holds back begins no
     earlier, and nothing else changed.
     */
    twostate predicate Took(i: nat, d: seq<Byte>)
      reads this, bios, set b | b in bios :: b.buf
      requires i < old(|bios|)
    {
      && bios == old(bios)
      && Taking(i, d, old(Logical()), Logical(), old(bios[i].Tell()), bios[i].Tell(), old(Pendings()), Pendings())
    }

    /** The arm of bwrite that copies into the buffer. */
    method CopyIn(i: nat, d: seq<Byte>)
      requires Valid() && i < |bios| && |d| <= bios[i].nleft && Clear(i, |d|)
      modifies bios[i], bios[i].buf
      ensures Valid() && Took(i, d)
    {
      ghost var ps := Pendings();
      Others(i);
      AppendOne(file, ps, |ps|, i, d);
      bios[i].Fill(d);
      assert Pendings() == ps[i := Pending(ps[i].off, ps[i].data + d)];
      StillApart(ps, i, ps[i].data + d);
    }

    /** The arm of bwrite that writes whole blocks past the buffer. */
    method WriteThrough(i: nat, d: seq<Byte>)
      requires Valid() && i < |bios| && bios[i].ptr == 0 && d != [] && Clear(i, |d|)
      modifies this`file, this`position, this`boffset, bios[i]
      ensures Valid() && Took(i, d) && bios[i].nleft == old(bios[i].nleft)
    {
      ghost var ps := Pendings();
      assert ps[i].data == [];
      Others(i);
      WriteUnder(file, ps, |ps|, bios[i].off, d);
      WriteOut(bios[i].off, d);
      OverlaySkip(file, ps, |ps|, i, bios[i].off + |d|);
      bios[i].off := bios[i].off + |d|;
      EmptyApart(ps, i, bios[i].off);
      ghost var ps' := ps[i := Pending(bios[i].off, [])];
      assert Pendings() == ps';
      assert Logical() == Overlay(file, ps', |ps|);
    }

    /** The write of whole blocks, if there are any. */
    method PutBlocks(i: nat, d: seq<Byte>)
      requires Valid() && i < |bios| && bios[i].ptr == 0 && Clear(i, |d|)
      modifies this`file, this`position, this`boffset, bios[i]
      ensures Valid() && Took(i, d) && bios[i].nleft == old(bios[i].nleft)
    {
      if d != [] {
        WriteThrough(i, d);
      }
    }

    /** The arms of bwrite that begin with a flush: put is how many of the bytes d go past the buffer, perhaps none. */
    method FlushFirst(i: nat, d: seq<Byte>) returns (put: nat)
      requires Valid() && i < |bios| && Clear(i, |d|)
      modifies this`file, this`position, this`boffset, bios[i]
      ensures Valid() && put <= |d| && Took(i, d[..put]) && bios[i].nleft > 0
    {
      ghost var logical, tell, ps, from := Logical(), bios[i].Tell(), Pendings(), bios[i].off;
      assert bios[i].Ok() && ps[i].off == from <= tell;
      Flush1(i);
      ghost var ps1 := Pendings();
      put := |d| - |d| % bios[i].buf.Length;
      ClearSuffix(ps, ps1, i, tell, |d|, 0);
      ClearPrefix(ps1, i, tell, |d|, put);
      PutBlocks(i, d[..put]);
      TakingAfterFlush(i, d[..put], logical, Logical(), tell, bios[i].Tell(), ps, ps1, Pendings());
    }

    /** One turn of bwrite: put is how many of the bytes d the stream takes, perhaps none. */
    method Turn(i: nat, d: seq<Byte>) returns (put: nat)
      requires Valid() && i < |bios| && d != [] && Clear(i, |d|)
      modifies this`file, this`position, this`boffset, bios[i], bios[i].buf
      ensures Valid() && put <= |d| && Took(i, d[..put])
      ensures put == 0 ==> old(bios[i].nleft) == 0 && bios[i].nleft > 0
    {
      if bios[i].nleft != 0 {
        put := if bios[i].nleft > |d| then |d| else bios[i].nleft;
        ClearPrefix(Pendings(), i, bios[i].Tell(), |d|, put);
        CopyIn(i, d[..put]);
      } else {
        put := FlushFirst(i, d);
      }
    }

    /** The next turn of bwrite, which began in a state with the given logical file, place and pending writes. */
    method NextPiece(i: nat, p: seq<Byte>, done: nat, ghost logical: seq<Byte>, ghost tell: nat, ghost ps: seq<Pending>)
      returns (done': nat)
      requires Valid() && i < |bios| && done < |p| && ClearOf(ps, i, tell, |p|)
      requires Taking(i, p[..done], logical, Logical(), tell, bios[i].Tell(), ps, Pendings())
      modifies this`file, this`position, this`boffset, bios[i], bios[i].buf
      ensures Valid() && bios == old(bios) && done <= done' <= |p|
      ensures Taking(i, p[..done'], logical, Logical(), tell, bios[i].Tell(), ps, Pendings())
      ensures done' == done ==> old(bios[i].nleft) == 0 && bios[i].nleft > 0
    {
      ghost var logical1, tell1, ps1 := Logical(), bios[i].Tell(), Pendings();
      ClearSuffix(ps, ps1, i, tell, |p|, done);
      var put := Turn(i, p[done..]);
      TakingMore(i, p, done, put, logical, logical1, Logical(), tell, tell1, bios[i].Tell(), ps, ps1, Pendings());
      done' := done + put;
    }

    /** bwrite: the bytes p go to the end of stream i. */
    method BWrite(i: nat, p: seq<Byte>)
      requires Valid() && i < |bios| && Clear(i, |p|)
      modifies this`file, this`position, this`boffset, bios[i], bios[i].buf
      ensures Valid() && Took(i, p)
    {
      var done := 0;
      ghost var logical, tell, ps := Logical(), bios[i].Tell(), Pendings();
      while done < |p|
        invariant 0 <= done <= |p| && Valid() && bios == old(bios)
        invariant Taking(i, p[..done], logical, Logical(), tell, bios[i].Tell(), ps, Pendings())
        decreases |p| - done, if bios[i].nleft == 0 then 1 else 0
      {
        done := NextPiece(i, p, done, logical, tell, ps);
      }
      assert p[..done] == p;
    }

    /** bputc: one byte, through bflushc when the buffer is full. */
    method BPutc(i: nat, c: Byte)
      requires Valid() && i < |bios| && Clear(i, 1)
      modifies this`file, this`position, this`boffset, bios[i], bios[i].buf
      ensures Valid() && Took(i, [c])
    {
      if bios[i].nleft == 0 {
        ghost var ps := Pendings();
        Flush1(i);
        ClearSuffix(ps, Pendings(), i, bios[i].Tell(), 1, 0);
      }
      CopyIn(i, [c]);
    }

    /** bseek: stream i goes on at another place; what it held back stays where it belongs. */
    method BSeek(i: nat, off: nat)
      requires Valid() && i < |bios|
      modifies this`file, this`position, this`boffset, bios[i]
      ensures Valid() && Logical() == old(Logical()) && bios[i].Tell() == off
      ensures Pendings() == old(Pendings())[i := Pending(off, [])]
    {
      Flush1(i);
      MoveTo(i, off);
    }

    method MoveTo(i: nat, off: nat)
      requires Valid() && i < |bios| && bios[i].ptr == 0
      modifies bios[i]
      ensures Valid() && Logical() == old(Logical()) && bios[i].Tell() == off
      ensures Pendings() == old(Pendings())[i := Pending(off, [])]
    {
      ghost var ps := Pendings();
      assert ps[i].data == [];
      Others(i);
      OverlaySkip(file, ps, |ps|, i, off);
      bios[i].nleft := Room(off, bios[i].buf.Length);
      bios[i].off := off;
      EmptyApart(ps, i, off);
      assert Pendings() == ps[i := Pending(off, [])];
    }

    /** bflush: every stream in turn, the newest first; then the file is the logical file. */
    method BFlush()
      requires Valid()
      modifies this`file, this`position, this`boffset, bios
      ensures Valid() && bios == old(bios) && file == old(Logical()) == Logical()
    {
      var i := |bios|;
      while i > 0
        invariant 0 <= i <= |bios| && bios == old(bios) && Valid() && Logical() == old(Logical())
        invariant forall j :: i <= j < |bios| ==> Pendings()[j].data == []
      {
        i := i - 1;
        Flush1(i);
      }
      NothingPending(file, Pendings(), |bios|);
    }

    // ----- any interleaving of the streams -----

    /** Streams opened at starts have made the first n of some calls. */
    ghost predicate Ran(starts: seq<nat>, ops: seq<Op>, n: nat)
      reads this, bios, set b | b in bios :: b.buf
      requires n <= |ops| && forall k :: 0 <= k < |ops| ==> ops[k].stream < |starts|
    {
      && Valid() && |bios| == |starts|
      && Logical() == Written([], starts, ops, n)
      && (forall s :: StreamRan(starts, ops, n, s))
    }

    /** Stream s has taken what n operations give it, and holds back some of it at most. */
    ghost predicate StreamRan(starts: seq<nat>, ops: seq<Op>, n: nat, s: nat)
      reads this, bios
      requires n <= |ops|
    {
      s < |bios| && s < |starts| ==> bios[s].Tell() == starts[s] + |Taken(ops, n, s)| && bios[s].off >= starts[s]
    }

    /** What the next call takes is clear of what the other streams hold back. */
    lemma NextIsClear(starts: seq<nat>, ops: seq<Op>, n: nat)
      requires n < |ops| && (forall k :: 0 <= k < |ops| ==> ops[k].stream < |starts|)
      requires Ran(starts, ops, n) && Regions(starts, ops)
      ensures Clear(ops[n].stream, |ops[n].data|)
    {
      var i := ops[n].stream;
      forall j | 0 <= j < |bios| && j != i
        ensures Apart(bios[i].Tell(), |ops[n].data|, Pendings()[j].off, |Pendings()[j].data|)
      {
        assert StreamRan(starts, ops, n, i) && StreamRan(starts, ops, n, j);
        assert bios[j].Ok();
        RegionsApart(starts, ops, n, i, j, bios[j].off);
      }
    }

    /** bwrite or bputc. */
    method Make(call: Call)
      requires Valid() && call.stream < |bios| && Clear(call.stream, |AsOp(call).data|)
      modifies this`file, this`position, this`boffset, bios[call.stream], bios[call.stream].buf
      ensures Valid() && Took(call.stream, AsOp(call).data)
    {
      match call
      case Bwrite(stream, p) => BWrite(stream, p);
      case Bputc(stream, c) => BPutc(stream, c);
    }

    /** The next call in a run. */
    method Next(call: Call, ghost starts: seq<nat>, ghost ops: seq<Op>, ghost n: nat)
      requires n < |ops| && (forall k :: 0 <= k < |ops| ==> ops[k].stream < |starts|)
      requires Ran(starts, ops, n) && Regions(starts, ops) && AsOp(call) == ops[n]
      modifies this`file, this`position, this`boffset, bios[call.stream], bios[call.stream].buf
      ensures bios == old(bios) && Ran(starts, ops, n + 1)
    {
      NextIsClear(starts, ops, n);
      ghost var i, d := ops[n].stream, ops[n].data;
      assert StreamRan(starts, ops, n, i);
      Others(i);
      Make(call);
      assert Took(i, d);
      assert bios[i].off == Pendings()[i].off && old(bios[i].off) == old(Pendings())[i].off by {
        assert bios[i].Ok() && old(bios[i].Ok());
      }
      ghost var next := n + 1;
      forall s: nat
        ensures StreamRan(starts, ops, next, s)
      {
        assert old(StreamRan(starts, ops, n, s));
      }
    }

    /** The same with the frame of the whole run. */
    method NextOf(call: Call, ghost starts: seq<nat>, ghost ops: seq<Op>, ghost n: nat)
      requires n < |ops| && (forall k :: 0 <= k < |ops| ==> ops[k].stream < |starts|)
      requires Ran(starts, ops, n) && Regions(starts, ops) && AsOp(call) == ops[n]
      modifies this`file, this`position, this`boffset, bios, set b | b in bios :: b.buf
      ensures bios == old(bios) && Ran(starts, ops, n + 1)
    {
      assert call.stream < |bios| && bios[call.stream] in bios;
      Next(call, starts, ops, n);
    }

    /** All calls in turn, and bflush. */
    method MakeAll(calls: seq<Call>, ghost starts: seq<nat>, ghost ops: seq<Op>)
      requires ops == AsOps(calls) && (forall k :: 0 <= k < |ops| ==> ops[k].stream < |starts|)
      requires Ran(starts, ops, 0) && Regions(starts, ops)
      modifies this`file, this`position, this`boffset, bios, set b | b in bios :: b.buf
      ensures file == Written([], starts, ops, |ops|)
    {
      MakeFrom(calls, starts, ops, 0);
      BFlush();
    }

    /** One more stream is opened, before any call is made. */
    method OpenNext(off: nat, bufsize: nat, ghost starts: seq<nat>, ghost ops: seq<Op>)
      requires Valid() && Logical() == [] && bufsize > 0 && |bios| < |starts| && off == starts[|bios|]
      requires forall t :: StreamRan(starts, ops, 0, t)
      modifies this`bios
      ensures Valid() && Logical() == [] && |bios| == old(|bios|) + 1 && bios[..old(|bios|)] == old(bios)
      ensures forall t :: StreamRan(starts, ops, 0, t)
      ensures fresh(bios[old(|bios|)]) && fresh(bios[old(|bios|)].buf)
    {
      var i := Open(off, bufsize);
      forall t: nat
        ensures StreamRan(starts, ops, 0, t)
      {
        assert old(StreamRan(starts, ops, 0, t));
        if t < i {
          assert bios[t] == bios[..i][t];
        }
      }
    }

    /** The calls from the n-th on. */
    method MakeFrom(calls: seq<Call>, ghost starts: seq<nat>, ghost ops: seq<Op>, n: nat)
      requires ops == AsOps(calls) && (forall k :: 0 <= k < |ops| ==> ops[k].stream < |starts|)
      requires n <= |calls| && Ran(starts, ops, n) && Regions(starts, ops)
      modifies this`file, this`position, this`boffset, bios, set b | b in bios :: b.buf
      ensures bios == old(bios) && Ran(starts, ops, |ops|)
      decreases |calls| - n
    {
      if n < |calls| {
        assert AsOp(calls[n]) == ops[n];
        NextOf(calls[n], starts, ops, n);
        MakeFrom(calls, starts, ops, n + 1);
      }
    }
  }

  /** A call on one of the streams. */
  datatype Call = Bwrite(stream: nat, p: seq<Byte>) | Bputc(stream: nat, c: Byte)

  function AsOp(call: Call): (op: Op)
    ensures op.stream == call.stream
  {
    match call
    case Bwrite(stream, p) => Op(stream, p)
    case Bputc(stream, c) => Op(stream, [c])
  }

  function AsOps(calls: seq<Call>): (ops: seq<Op>)
    ensures |ops| == |calls|
  {
    seq(|calls|, k requires 0 <= k < |calls| => AsOp(calls[k]))
  }

  /** The next bytes of stream i are apart from those stream j has taken from off on. */
  lemma RegionsApart(starts: seq<nat>, ops: seq<Op>, n: nat, i: nat, j: nat, off: nat)
    requires n < |ops| && i < |starts| && j < |starts| && i != j && Regions(starts, ops) && ops[n].stream == i
    requires starts[j] <= off <= starts[j] + |Taken(ops, n, j)|
    ensures Apart(starts[i] + |Taken(ops, n, i)|, |ops[n].data|, off, starts[j] + |Taken(ops, n, j)| - off)
  {
    TakenGrows(ops, n + 1, |ops|, i);
    TakenGrows(ops, n, |ops|, j);
    assert |Taken(ops, n + 1, i)| == |Taken(ops, n, i)| + |ops[n].data|;
    assert RegionsOf(starts, ops, i, j);
  }

  /**
   From one state to another, stream i takes d: the logical file has it at the stream's place tell, what
   the stream holds back begins no earlier than before, and the other streams hold back what they did.
   */
  ghost predicate Taking(i: nat, d: seq<Byte>, logical: seq<Byte>, logical': seq<Byte>, tell: nat, tell': nat,
                         ps: seq<Pending>, ps': seq<Pending>)
  {
    && i < |ps| == |ps'| && ps'[i].off >= ps[i].off && tell' == tell + |d|
    && logical' == WriteAt(logical, tell, d)
    && forall j :: 0 <= j < |ps| && j != i ==> ps'[j] == ps[j]
  }

  lemma TakingMore(i: nat, p: seq<Byte>, done: nat, put: nat, l0: seq<Byte>, l1: seq<Byte>, l2: seq<Byte>,
                   t0: nat, t1: nat, t2: nat, ps0: seq<Pending>, ps1: seq<Pending>, ps2: seq<Pending>)
    requires done <= |p| && put <= |p| - done
    requires Taking(i, p[..done], l0, l1, t0, t1, ps0, ps1) && Taking(i, p[done..][..put], l1, l2, t1, t2, ps1, ps2)
    ensures Taking(i, p[..done + put], l0, l2, t0, t2, ps0, ps2)
  {
    WritesJoin(l0, t0, p[..done], p[done..][..put]);
    Piece(p, done, put);
  }

  /** Taking begins with an early flush of what stream i holds back. */
  lemma TakingAfterFlush(i: nat, d: seq<Byte>, l: seq<Byte>, l': seq<Byte>, t: nat, t': nat,
                         ps: seq<Pending>, ps1: seq<Pending>, ps': seq<Pending>)
    requires i < |ps| && ps[i].off <= t && ps1 == ps[i := Pending(t, [])]
    requires Taking(i, d, l, l', t, t', ps1, ps')
    ensures Taking(i, d, l, l', t, t', ps, ps')
  {
  }

  lemma Piece(p: seq<Byte>, a: nat, n: nat)
    requires a <= |p| && n <= |p| - a
    ensures p[..a] + p[a..][..n] == p[..a + n]
  {
    assert p[a..][..n] == p[a..a + n];
  }

  lemma ClearPrefix(ps: seq<Pending>, i: nat, off: nat, n: nat, m: nat)
    requires ClearOf(ps, i, off, n) && m <= n
    ensures ClearOf(ps, i, off, m)
  {
  }

  lemma ClearSuffix(ps: seq<Pending>, qs: seq<Pending>, i: nat, off: nat, n: nat, m: nat)
    requires ClearOf(ps, i, off, n) && m <= n && |ps| == |qs|
    requires forall j :: 0 <= j < |ps| && j != i ==> ps[j] == qs[j]
    ensures ClearOf(qs, i, off + m, n - m)
  {
  }

  /** An empty pending write is apart from all others, wherever it stands. */
  lemma EmptyApart(ps: seq<Pending>, i: nat, off: nat)
    requires i < |ps| && AllApart(ps)
    ensures AllApart(ps[i := Pending(off, [])])
  {
    var qs := ps[i := Pending(off, [])];
    forall j, k | 0 <= j < k < |qs|
      ensures PendingApart(qs[j], qs[k])
    {
      assert PendingApart(ps[j], ps[k]);
    }
  }

  lemma NewApart(ps: seq<Pending>, off: nat)
    requires AllApart(ps)
    ensures AllApart(ps + [Pending(off, [])])
  {
    var qs := ps + [Pending(off, [])];
    forall j, k | 0 <= j < k < |qs|
      ensures PendingApart(qs[j], qs[k])
    {
      if k < |ps| {
        assert PendingApart(ps[j], ps[k]);
      }
    }
  }

  /** Growing a pending write into bytes clear of the others keeps them apart. */
  lemma StillApart(ps: seq<Pending>, i: nat, d: seq<Byte>)
    requires i < |ps| && AllApart(ps) && |ps[i].data| <= |d|
    requires ClearOf(ps, i, ps[i].off + |ps[i].data|, |d| - |ps[i].data|)
    ensures AllApart(ps[i := Pending(ps[i].off, d)])
  {
    var qs := ps[i := Pending(ps[i].off, d)];
    forall j, k | 0 <= j < k < |qs|
      ensures PendingApart(qs[j], qs[k])
    {
      assert PendingApart(ps[j], ps[k]);
    }
  }

  /**
   Streams opened at several places of one new file, written to in any order and then flushed: the
   file is what plain writes at the streams' places make of it, and it holds what each stream took in
   one piece from where it was opened, as long as no two of them run into each other.
   */
  method Run(starts: seq<nat>, bufsize: nat, calls: seq<Call>) returns (file: seq<Byte>)
    requires bufsize > 0 && (forall k :: 0 <= k < |calls| ==> calls[k].stream < |starts|)
    requires Regions(starts, AsOps(calls))
    ensures file == Written([], starts, AsOps(calls), |calls|)
    ensures forall s :: 0 <= s < |starts| ==> Holds(file, starts[s], Taken(AsOps(calls), |calls|, s))
  {
    ghost var ops := AsOps(calls);
    var out := OpenAll(starts, bufsize, ops);
    out.MakeAll(calls, starts, ops);
    file := out.file;
    forall s | 0 <= s < |starts|
      ensures Holds(file, starts[s], Taken(ops, |calls|, s))
    {
      StreamsInOnePiece([], starts, ops, |calls|, s);
    }
  }

  /** The streams opened at their places. */
  method OpenAll(starts: seq<nat>, bufsize: nat, ghost ops: seq<Op>) returns (out: Output)
    requires bufsize > 0 && forall k :: 0 <= k < |ops| ==> ops[k].stream < |starts|
    ensures fresh(out) && (forall b :: b in out.bios ==> fresh(b) && fresh(b.buf)) && out.Ran(starts, ops, 0)
  {
    out := new Output();
    var s := 0;
    while s < |starts|
      invariant 0 <= s == |out.bios| <= |starts| && out.Valid() && out.Logical() == []
      invariant fresh(out) && (forall b :: b in out.bios ==> fresh(b) && fresh(b.buf))
      invariant forall t :: out.StreamRan(starts, ops, 0, t)
    {
      out.OpenNext(starts[s], bufsize, starts, ops);
      s := s + 1;
    }
  }
}
