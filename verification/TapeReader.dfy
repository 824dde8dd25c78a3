/** Reading archives back, with a blocking factor of the reader's own. */
module TapeReader {
  import opened Bytes
  import opened Tape

  lemma {:induction false} FlatPrefix(records: seq<seq<Block>>, m: nat)
    requires m < |records|
    ensures Flat(records[..m + 1]) == Flat(records[..m]) + records[m]
    ensures Flat(records[..m + 1]) <= Flat(records)
    decreases |records|
  {
    assert records[..m + 1] == records[..m] + [records[m]];
    FlatAdd(records[..m], records[m]);
    var k := |records| - 1;
    if m < k {
      FlatPrefix(records[..k], m);
      assert records[..k][..m + 1] == records[..m + 1];
    } else {
      assert records[..m + 1] == records;
    }
  }

  class Reader {
    /** What is on the medium: records, of which a disk file keeps only the sequence of their blocks. */
    const records: seq<seq<Block>>
    const isTape: bool
    /** How much has been read of it, in records and in blocks. */
    var m: nat
    var off: nat
    var first: bool
    var nblock: nat
    var recno: nat
    var tbuf: seq<Block>
    ghost var base: nat

    function All(): seq<Block> {
      Flat(records)
    }

    /** The place in the archive of the block to be read next. */
    ghost function Pos(): nat
      reads this`first, this`recno, this`base
    {
      if first then base + recno else 0
    }

    ghost predicate Medium()
      reads this`m, this`off
    {
      && m <= |records| && off <= |All()| && (isTape ==> off == |Flat(records[..m])|)
    }

    ghost predicate Valid()
      reads this
    {
      && Medium() && nblock > 0 && |tbuf| == nblock
      && (!first ==> off == 0 && m == 0 && (isTape ==> forall i :: 0 <= i < |records| ==> 0 < |records[i]| <= nblock))
      && (isTape ==> forall i, j :: 0 <= i < j < |records| ==> |records[i]| == |records[j]|)
      && (first ==>
          && recno <= nblock && off == (if base + nblock <= |All()| then base + nblock else |All()|)
          && (isTape ==> forall i :: 0 <= i < |records| ==> |records[i]| == nblock)
          && forall k :: recno <= k < nblock && base + k < |All()| ==> tbuf[k] == All()[base + k])
    }

    /** A tape's records have one length, and the buffer must have room for one. */
    constructor (medium: seq<seq<Block>>, tape: bool, n: nat)
      requires n > 0
      requires tape ==> forall i :: 0 <= i < |medium| ==> 0 < |medium[i]| <= n
      requires tape ==> forall i, j :: 0 <= i < j < |medium| ==> |medium[i]| == |medium[j]|
      ensures Valid() && Pos() == 0 && records == medium
    {
      records, isTape, m, off, first, nblock, recno, base := medium, tape, 0, 0, false, n, 0, 0;
      tbuf := seq(n, _ => Empty);
    }

    /** bread: a tape gives its next record, a file as much as is asked for and there; i is how much that is. */
    method Bread() returns (i: nat)
      requires Valid() && off < |All()|
      modifies this`m, this`off, this`tbuf
      ensures Medium() && |tbuf| == nblock && off == old(off) + i && 0 < i <= nblock
      ensures tbuf[..i] == All()[old(off)..off]
      ensures isTape ==> old(m) < |records| && i == |records[old(m)]|
      ensures !isTape ==> i == nblock || off == |All()|
    {
      var piece;
      ghost var from := off;
      if isTape {
        assert records[..|records|] == records;
        FlatPrefix(records, m);
        piece := records[m];
        m := m + 1;
      } else {
        piece := All()[off..if off + nblock <= |All()| then off + nblock else |All()|];
      }
      i := |piece|;
      assert piece == All()[from..from + i];
      off := off + i;
      tbuf := piece + tbuf[i..];
    }

    /** The first half of readtbuf: a new record when the buffer is used up. The first tells the blocking factor. */
    method Refill()
      requires Valid() && Pos() < |All()|
      modifies this
      ensures Valid() && Pos() == old(Pos()) && first && recno < nblock
    {
      if recno >= nblock || !first {
        ghost var was := off;
        ghost var m0 := m;
        var i := Bread();
        Delivered(tbuf, All(), was, i);
        if !first {
          nblock, tbuf, first := i, tbuf[..i], true;
        }
        recno, base := 0, was;
      }
    }

    /** readtbuf: up to size blocks, but no more than are left in the buffer. */
    method ReadTBuf(size: nat) returns (blocks: seq<Block>)
      requires Valid() && 0 < size && Pos() + size <= |All()|
      modifies this
      ensures Valid() && 1 <= |blocks| <= size && Pos() == old(Pos()) + |blocks|
      ensures blocks == All()[old(Pos())..Pos()]
    {
      Refill();
      var n := if size > nblock - recno then nblock - recno else size;
      blocks := tbuf[recno..recno + n];
      ghost var from := base + recno;
      forall k | 0 <= k < n
        ensures blocks[k] == All()[from + k]
      {
        assert tbuf[recno + k] == All()[base + (recno + k)];
      }
      assert blocks == All()[from..from + n];
      recno := recno + n;
      assert Pos() == from + n;
    }

    /** readtape: one block. */
    method ReadTape() returns (block: Block)
      requires Valid() && Pos() < |All()|
      modifies this
      ensures Valid() && Pos() == old(Pos()) + 1 && block == All()[old(Pos())]
    {
      ghost var from := Pos();
      var bufp := ReadTBuf(1);
      block := bufp[0];
      assert block == All()[from..from + 1][0];
    }

    /** passtape: over the contents of an entry. */
    method PassTape(size: nat, link: bool)
      requires Valid() && Pos() + (if link then 0 else BlocksFor(size)) <= |All()|
      modifies this
      ensures Valid() && Pos() == old(Pos()) + (if link then 0 else BlocksFor(size))
    {
      if link {
        return;
      }
      var blocks := BlocksFor(size);
      while blocks > 0
        invariant blocks >= 0 && Valid() && Pos() + blocks == old(Pos()) + BlocksFor(size)
      {
        var bufp := ReadTBuf(1);
        blocks := blocks - 1;
      }
    }

    /** The data loop of doxtract: the contents of an entry, cut to its size, to the file. */
    method ExtractData(size: nat, ghost data: seq<Block>) returns (out: seq<Byte>)
      requires Valid() && |data| == BlocksFor(size) && AllData(data)
      requires Pos() + |data| <= |All()| && All()[Pos()..Pos() + |data|] == data
      modifies this
      ensures Valid() && Pos() == old(Pos()) + |data| && size <= |Joined(data)| && out == Joined(data)[..size]
    {
      ghost var from, done := Pos(), 0;
      var blocks, bytes: int := BlocksFor(size), size;
      out := [];
      while blocks > 0
        invariant 0 <= done <= |data| && done + blocks == |data| && Valid() && Pos() == from + done
        invariant bytes == size - TBLOCK * done && (blocks > 0 ==> bytes > 0)
        invariant out == Shorten(Joined(data[..done]), size)
        decreases blocks
      {
        var piece, nread := ExtractTurn(blocks, bytes, size, data, done, from);
        out := out + piece;
        bytes := bytes - TBLOCK * nread;
        blocks := blocks - nread;
        done := done + nread;
        assert blocks > 0 ==> size > TBLOCK * (|data| - 1) >= TBLOCK * done;
      }
      assert data[..done] == data;
      JoinedLength(data);
    }

    /** One turn of that loop: a read of NBLOCK blocks or what is left of the entry, and what of it goes to the file. */
    method ExtractTurn(blocks: nat, bytes: nat, ghost size: nat, ghost data: seq<Block>, ghost done: nat,
          ghost from: nat)
      returns (piece: seq<Byte>, nread: nat)
      requires Valid() && 0 < blocks && done + blocks == |data| == BlocksFor(size) && AllData(data)
      requires bytes == size - TBLOCK * done
      requires Pos() == from + done && from + |data| <= |All()| && All()[from..from + |data|] == data
      modifies this
      ensures Valid() && 0 < nread <= blocks && Pos() == from + done + nread
      ensures Shorten(Joined(data[..done + nread]), size) == Shorten(Joined(data[..done]), size) + piece
    {
      ghost var all := All();
      var nwant := if NBLOCK > blocks then blocks else NBLOCK;
      var bufp := ReadTBuf(nwant);
      nread := |bufp|;
      assert bufp == all[from + done..from + done + nread];
      piece := Shorten(Joined(bufp), bytes);
      TurnStep(all, from, data, done, bufp, size, bytes, piece);
    }

    /** What follows a header: the contents are extracted when they are wanted, and else passed over. */
    method ReadContents(wanted: bool, header: Block, ghost entries: seq<Entry>, ghost i: nat, ghost rest: seq<Block>)
      returns (out: seq<Byte>)
      requires Valid() && i < |entries| && Framed(entries[i]) && header == HeaderOf(entries[i])
      requires All() == Layout(entries) + rest && Pos() == |Layout(entries[..i])| + 1
      modifies this
      ensures Valid() && Pos() == |Layout(entries[..i + 1])| && IsExtract(out, entries[i], wanted)
    {
      EntryAt(All(), entries, i, rest);
      out := [];
      if wanted && !header.link {
        out := ExtractData(header.size, entries[i].data);
      } else {
        PassTape(header.size, header.link);
      }
    }

    /** doxtract: from the first header to the empty block at the end. */
    method ReadArchive(wanted: seq<bool>, ghost entries: seq<Entry>, ghost rest: seq<Block>)
      returns (headers: seq<Block>, outs: seq<seq<Byte>>)
      requires Valid() && Pos() == 0 && |wanted| >= |entries|
      requires forall i :: 0 <= i < |entries| ==> Framed(entries[i]) && entries[i].name != ""
      requires All() == Layout(entries) + rest && rest != [] && EndTape(rest[0])
      modifies this
      ensures |headers| == |entries| && AreRead(headers, outs, entries, wanted)
    {
      headers, outs := [], [];
      while true
        invariant AreRead(headers, outs, entries, wanted) && Valid() && Pos() == |Layout(entries[..|headers|])|
        decreases |entries| - |headers|
      {
        ghost var i := |headers|;
        NextBlock(All(), entries, i, rest);
        var header := ReadTape();
        if EndTape(header) {
          break;
        }
        var out := ReadContents(wanted[|headers|], header, entries, i, rest);
        OneMore(headers, outs, entries, wanted, header, out);
        headers, outs := headers + [header], outs + [out];
        assert |headers| == i + 1;
      }
    }
  }

  /** The entries read so far, in order. */
  ghost predicate AreRead(headers: seq<Block>, outs: seq<seq<Byte>>, entries: seq<Entry>, wanted: seq<bool>) {
    && |headers| == |outs| <= |entries| <= |wanted|
    && forall i :: 0 <= i < |headers| ==>
      headers[i] == HeaderOf(entries[i]) && IsExtract(outs[i], entries[i], wanted[i])
  }

  lemma OneMore(headers: seq<Block>, outs: seq<seq<Byte>>, entries: seq<Entry>, wanted: seq<bool>, header: Block,
        out: seq<Byte>)
    requires AreRead(headers, outs, entries, wanted) && |headers| < |entries|
    requires header == HeaderOf(entries[|headers|]) && IsExtract(out, entries[|headers|], wanted[|headers|])
    ensures AreRead(headers + [header], outs + [out], entries, wanted)
  {
  }

  /** What extracting an entry yields: its first bytes, as many as its size; nothing for a link or one not wanted. */
  ghost predicate IsExtract(out: seq<Byte>, e: Entry, wanted: bool) {
    if wanted && !e.link then e.size <= |Joined(e.data)| && out == Joined(e.data)[..e.size] else out == []
  }

  /** Where an entry and its contents are. */
  lemma EntryAt(all: seq<Block>, entries: seq<Entry>, i: nat, rest: seq<Block>)
    requires all == Layout(entries) + rest && i < |entries|
    ensures var at, data := |Layout(entries[..i])|, entries[i].data;
      && |Layout(entries[..i + 1])| == at + 1 + |data| <= |all|
      && all[at] == HeaderOf(entries[i]) && all[at + 1..at + 1 + |data|] == data
  {
    LayoutAt(entries, i);
    var before, data, upto := Layout(entries[..i]), entries[i].data, Layout(entries[..i + 1]);
    assert all[..|upto|] == upto;
    assert all[|before|] == upto[|before|];
    assert all[|before| + 1..|upto|] == all[..|upto|][|before| + 1..] == data;
  }

  /** Where a header is looked for there is the next one, or behind the last entry the empty block. */
  lemma NextBlock(all: seq<Block>, entries: seq<Entry>, i: nat, rest: seq<Block>)
    requires all == Layout(entries) + rest && i <= |entries| && rest != []
    ensures var at := |Layout(entries[..i])|;
      at < |all| && all[at] == if i < |entries| then HeaderOf(entries[i]) else rest[0]
  {
    if i < |entries| {
      EntryAt(all, entries, i, rest);
    } else {
      assert entries[..i] == entries;
    }
  }

  /** Any archive, written with one blocking factor and read with another, from a tape or from a file. */
  method WriteAndRead(members: seq<Member>, writeFactor: nat, readFactor: nat, isTape: bool, wanted: seq<bool>,
        maxread: nat, bigbuf: seq<Byte>)
    returns (headers: seq<Block>, outs: seq<seq<Byte>>)
    requires 0 < writeFactor && 0 < readFactor && (isTape ==> writeFactor <= readFactor)
    requires (maxread >= writeFactor * TBLOCK || maxread == TBLOCK) && |bigbuf| == maxread && |wanted| >= |members|
    requires forall i :: 0 <= i < |members| ==> members[i].name != ""
    ensures |headers| == |outs| == |members|
    ensures forall i :: 0 <= i < |members| ==> headers[i] == Header(members[i].name, members[i].size, members[i].link)
    ensures forall i :: 0 <= i < |members| ==> IsRestored(outs[i], members[i], wanted[i])
  {
    var writer := new Writer(writeFactor);
    ghost var entries: seq<Entry>, junk: seq<Block>;
    entries, junk := writer.Archive(members, maxread, bigbuf);
    var reader := new Reader(writer.mt, isTape, readFactor);
    assert Layout(entries) + [Empty, Empty] + junk == Layout(entries) + ([Empty, Empty] + junk);
    forall i | 0 <= i < |entries|
      ensures Framed(entries[i]) && entries[i].name != ""
    {
      assert IsEntry(entries[i], members[i]);
    }
    headers, outs := reader.ReadArchive(wanted, entries, [Empty, Empty] + junk);
    forall i | 0 <= i < |members|
      ensures headers[i] == Header(members[i].name, members[i].size, members[i].link)
      ensures IsRestored(outs[i], members[i], wanted[i])
    {
      assert IsEntry(entries[i], members[i]) && IsExtract(outs[i], entries[i], wanted[i]);
      Restored(outs[i], entries[i], members[i], wanted[i]);
    }
  }

  /**
   A file comes back with the size it was archived with; its contents are
   those found then, as far as there were any.
   */
  ghost predicate IsRestored(out: seq<Byte>, m: Member, wanted: bool) {
    if wanted && !m.link then |out| == m.size && out[..Min(m.size, |m.file|)] == m.file[..Min(m.size, |m.file|)]
      else out == []
  }

  lemma Restored(out: seq<Byte>, e: Entry, m: Member, wanted: bool)
    requires IsEntry(e, m) && IsExtract(out, e, wanted)
    ensures IsRestored(out, m, wanted)
  {
    if wanted && !m.link {
      var n := Min(m.size, |m.file|);
      assert out[..n] == Joined(e.data)[..n];
    }
  }

  function Shorten(s: seq<Byte>, n: nat): seq<Byte> {
    if |s| <= n then s else s[..n]
  }

  lemma Slices(all: seq<Block>, from: nat, data: seq<Block>, done: nat, bufp: seq<Block>)
    requires from + |data| <= |all| && all[from..from + |data|] == data && done + |bufp| <= |data|
    requires bufp == all[from + done..from + done + |bufp|]
    ensures data[done..done + |bufp|] == bufp
  {
    var n := |bufp|;
    forall k | 0 <= k < n
      ensures data[done..done + n][k] == bufp[k]
    {
      assert data[done + k] == all[from..from + |data|][done + k] == all[from + (done + k)];
    }
  }

  /** Some blocks more, of which no more is kept than the size calls for. */
  lemma ExtractStep(data: seq<Block>, done: nat, bufp: seq<Block>, size: nat)
    requires AllData(data) && done + |bufp| <= |data| == BlocksFor(size)
    requires data[done..done + |bufp|] == bufp && 0 < |bufp|
    ensures 0 <= size - TBLOCK * done && |Joined(bufp)| == TBLOCK * |bufp|
    ensures Shorten(Joined(data[..done + |bufp|]), size)
      == Shorten(Joined(data[..done]), size) + Shorten(Joined(bufp), size - TBLOCK * done)
  {
    assert data[..done + |bufp|] == data[..done] + bufp;
    assert AllData(bufp) by {
      forall i | 0 <= i < |bufp|
        ensures bufp[i].Data? && |bufp[i].bytes| == TBLOCK
      {
        assert bufp[i] == data[done + i];
      }
    }
    JoinedConcat(data[..done], bufp);
    JoinedLength(bufp);
    JoinedLength(data[..done]);
    assert size > TBLOCK * (|data| - 1) >= TBLOCK * done;
    ShortenConcat(Joined(data[..done]), Joined(bufp), size);
  }

  lemma TurnStep(all: seq<Block>, from: nat, data: seq<Block>, done: nat, bufp: seq<Block>, size: nat, bytes: int,
        piece: seq<Byte>)
    requires from + |data| <= |all| && all[from..from + |data|] == data && done + |bufp| <= |data| == BlocksFor(size)
    requires bufp == all[from + done..from + done + |bufp|] && AllData(data) && 0 < |bufp|
    requires bytes == size - TBLOCK * done && (bytes >= 0 ==> piece == Shorten(Joined(bufp), bytes))
    ensures Shorten(Joined(data[..done + |bufp|]), size) == Shorten(Joined(data[..done]), size) + piece
  {
    Slices(all, from, data, done, bufp);
    ExtractStep(data, done, bufp, size);
  }

  lemma ShortenConcat(a: seq<Byte>, b: seq<Byte>, n: nat)
    requires |a| <= n
    ensures Shorten(a + b, n) == Shorten(a, n) + Shorten(b, n - |a|)
  {
  }

  lemma Delivered(tbuf: seq<Block>, all: seq<Block>, from: nat, i: nat)
    requires i <= |tbuf| && from + i <= |all| && tbuf[..i] == all[from..from + i]
    ensures forall k :: 0 <= k < i ==> tbuf[k] == all[from + k]
  {
    forall k | 0 <= k < i
      ensures tbuf[k] == all[from + k]
    {
      assert tbuf[k] == tbuf[..i][k] == all[from..from + i][k];
    }
  }
}
