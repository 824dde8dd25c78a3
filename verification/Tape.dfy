/**
 Framing of archives: headers and contents in blocks of 512 bytes, the blocks in records of a blocking factor.
 Whatever the factors of the writer and the reader, what is read is what was written.
 */
module Tape {
  import opened Bytes

  const TBLOCK: nat := 512
  const NBLOCK: nat := 20

  /** A block of the archive: the header of an entry, or bytes. */
  datatype Block = Header(name: string, size: nat, link: bool) | Data(bytes: seq<Byte>)

  /** What putempty writes. */
  function Zeros(): seq<Byte> {
    seq(TBLOCK, _ => 0)
  }

  const Empty: Block := Data(Zeros())

  /** endtape: a block where a header should be whose name is empty. */
  predicate EndTape(block: Block) {
    if block.Header? then block.name == "" else block.bytes != [] && block.bytes[0] == 0
  }

  function BlocksFor(bytes: nat): (n: nat)
    ensures TBLOCK * n < bytes + TBLOCK && bytes <= TBLOCK * n
  {
    (bytes + TBLOCK - 1) / TBLOCK
  }

  /** Contents cut into blocks. */
  function Cut(bytes: seq<Byte>): (r: seq<Block>)
    requires |bytes| % TBLOCK == 0
    ensures |r| * TBLOCK == |bytes|
  {
    if bytes == [] then [] else [Data(bytes[..TBLOCK])] + Cut(bytes[TBLOCK..])
  }

  /** The contents of data blocks put together. */
  function Joined(blocks: seq<Block>): seq<Byte> {
    if blocks == [] then [] else (if blocks[0].Data? then blocks[0].bytes else []) + Joined(blocks[1..])
  }

  ghost predicate AllData(blocks: seq<Block>) {
    forall i :: 0 <= i < |blocks| ==> blocks[i].Data? && |blocks[i].bytes| == TBLOCK
  }

  function Flat(records: seq<seq<Block>>): seq<Block> {
    if records == [] then [] else Flat(records[..|records| - 1]) + records[|records| - 1]
  }

  lemma FlatAdd(records: seq<seq<Block>>, r: seq<Block>)
    ensures Flat(records + [r]) == Flat(records) + r
  {
    assert (records + [r])[..|records|] == records;
  }

  lemma {:induction false} JoinedConcat(a: seq<Block>, b: seq<Block>)
    ensures Joined(a + b) == Joined(a) + Joined(b)
    decreases |a|
  {
    if a == [] {
      assert a + b == b;
    } else {
      assert (a + b)[1..] == a[1..] + b;
      JoinedConcat(a[1..], b);
      Associative(if a[0].Data? then a[0].bytes else [], Joined(a[1..]), Joined(b));
    }
  }

  lemma Associative(a: seq<Byte>, b: seq<Byte>, c: seq<Byte>)
    ensures (a + b) + c == a + (b + c)
  {
  }

  lemma {:induction false} CutJoined(bytes: seq<Byte>)
    requires |bytes| % TBLOCK == 0
    ensures Joined(Cut(bytes)) == bytes && AllData(Cut(bytes))
    decreases |bytes|
  {
    if bytes != [] {
      CutJoined(bytes[TBLOCK..]);
      assert Cut(bytes)[1..] == Cut(bytes[TBLOCK..]);
      assert bytes == bytes[..TBLOCK] + bytes[TBLOCK..];
    }
  }

  lemma {:induction false} JoinedLength(blocks: seq<Block>)
    requires AllData(blocks)
    ensures |Joined(blocks)| == TBLOCK * |blocks|
    decreases |blocks|
  {
    if blocks != [] {
      JoinedLength(blocks[1..]);
    }
  }

  class Writer {
    const nblock: nat
    const tbuf: array<Block>
    var recno: nat
    /** The records written to the tape. */
    var mt: seq<seq<Block>>

    /** Every record has its full length, and the buffer is never fuller than that. */
    ghost predicate Valid()
      reads this`recno, this`mt
    {
      && nblock > 0 && tbuf.Length == nblock && recno <= nblock
      && forall i :: 0 <= i < |mt| ==> |mt[i]| == nblock
    }

    /** The blocks given to the writer so far. */
    ghost function Stream(): seq<Block>
      reads this`recno, this`mt, tbuf
      requires Valid()
    {
      Flat(mt) + tbuf[..recno]
    }

    constructor (n: nat)
      requires n > 0
      ensures Valid() && nblock == n && Stream() == [] && mt == [] && fresh(tbuf)
    {
      nblock, tbuf, recno, mt := n, new Block[n](_ => Empty), 0, [];
    }

    /** The buffer goes to the tape as a record. */
    method WriteRecord()
      requires Valid() && recno == nblock
      modifies this`recno, this`mt
      ensures Valid() && recno == 0 && Stream() == old(Stream())
    {
      FlatAdd(mt, tbuf[..]);
      assert tbuf[..recno] == tbuf[..];
      mt, recno := mt + [tbuf[..]], 0;
    }

    /** A record straight from the caller's buffer. */
    method WriteDirect(record: seq<Block>)
      requires Valid() && recno == 0 && |record| == nblock
      modifies this`mt
      ensures Valid() && Stream() == old(Stream()) + record
    {
      FlatAdd(mt, record);
      mt := mt + [record];
    }

    /** One block into the buffer. */
    method Buffer(block: Block)
      requires Valid() && recno < nblock
      modifies this`recno, this`mt, tbuf
      ensures Valid() && recno < nblock && Stream() == old(Stream()) + [block]
    {
      tbuf[recno] := block;
      recno := recno + 1;
      if recno >= nblock {
        WriteRecord();
      }
    }

    /** writetbuf: n blocks to the archive. The hint tells how many blocks would fill the record. */
    method WriteTBuf(buffer: seq<Block>) returns (hint: nat)
      requires Valid()
      modifies this`recno, this`mt, tbuf
      ensures Valid() && Stream() == old(Stream()) + buffer
      ensures 1 <= hint <= nblock && hint == nblock - recno
    {
      ghost var was := Stream();
      if recno >= nblock {
        WriteRecord();
      }
      var k: nat := 0;
      while recno == 0 && |buffer| - k >= nblock
        invariant k <= |buffer| && Valid() && recno < nblock
        invariant Stream() == was + buffer[..k]
      {
        WriteDirect(buffer[k..k + nblock]);
        Taken(was, buffer, k, nblock);
        k := k + nblock;
      }
      while k < |buffer|
        invariant k <= |buffer| && Valid() && recno < nblock
        invariant Stream() == was + buffer[..k]
      {
        Buffer(buffer[k]);
        Taken(was, buffer, k, 1);
        k := k + 1;
      }
      assert buffer[..k] == buffer;
      hint := nblock - recno;
    }

    /** putempty, n times. */
    method PutEmpty(n: nat)
      requires Valid()
      modifies this`recno, this`mt, tbuf
      ensures Valid() && Stream() == old(Stream()) + seq(n, _ => Empty)
    {
      var k: nat := 0;
      ghost var all: seq<Block> := seq(n, _ => Empty);
      ghost var was := Stream();
      while k < n
        invariant k <= n && Valid() && Stream() == was + all[..k]
      {
        var hint := WriteTBuf([Empty]);
        Taken(was, all, k, 1);
        k := k + 1;
      }
      assert all[..n] == all;
    }

    /** What has been read goes to the archive, in no more blocks than are still called for. */
    method CopyBlocks(bigbuf: seq<Byte>, i: nat, hint: nat, blocks: nat, ghost file: seq<Byte>, ghost pos: nat,
          ghost data: seq<Block>, ghost start: seq<Block>)
      returns (hint': nat, blocks': nat, ghost data': seq<Block>)
      requires Valid() && |bigbuf| >= hint * TBLOCK && 0 < hint && i > 0 && blocks > 0
      requires Copying(data, file, bigbuf, pos, i, hint, blocks) && Stream() == start + data
      modifies this`recno, this`mt, tbuf
      ensures Valid() && Stream() == start + data' && 1 <= hint' <= nblock && blocks' < blocks
      ensures blocks' + |data'| == blocks + |data| && Copied(data', file, pos, blocks')
    {
      var nblks := (i - 1) / TBLOCK + 1;
      if nblks > blocks {
        nblks := blocks;
      }
      Roundup(i, nblks, hint);
      var piece := Cut(bigbuf[..nblks * TBLOCK]);
      CopyStep(data, file, bigbuf, pos, i, hint, blocks, nblks);
      hint' := WriteTBuf(piece);
      blocks' := blocks - nblks;
      data' := data + piece;
      assert start + data + piece == start + data';
    }

    /**
     The arm of putfile for a regular file: its header, and then as many blocks as its size calls for, whatever
     is found in the file; bigbuf is what the buffer for the file holds before.
     */
    method PutFile(name: string, size: nat, file: seq<Byte>, maxread: nat, bigbuf0: seq<Byte>)
      returns (ghost data: seq<Block>)
      requires Valid() && (maxread >= nblock * TBLOCK || maxread == TBLOCK) && |bigbuf0| == maxread
      modifies this`recno, this`mt, tbuf
      ensures Valid() && Stream() == old(Stream()) + [Header(name, size, false)] + data
      ensures |data| == BlocksFor(size) && AllData(data) && IsFile(data, file, Min(size, |file|))
    {
      ghost var was := Stream();
      var hint := WriteTBuf([Header(name, size, false)]);
      var blocks;
      blocks, data := CopyFile(size, file, hint, maxread, bigbuf0);
      ghost var pad: seq<Block> := seq(blocks, _ => Empty);
      Padded(data, pad, file, size);
      PutEmpty(blocks);
      assert was + [Header(name, size, false)] + data + pad == was + [Header(name, size, false)] + (data + pad);
      data := data + pad;
    }

    /** The copy loop: it ends with the file, or with the blocks called for. */
    method CopyFile(size: nat, file: seq<Byte>, hint0: nat, maxread: nat, bigbuf0: seq<Byte>)
      returns (blocks: nat, ghost data: seq<Block>)
      requires Valid() && (maxread >= nblock * TBLOCK || maxread == TBLOCK) && |bigbuf0| == maxread
      requires 1 <= hint0 <= nblock
      modifies this`recno, this`mt, tbuf
      ensures Valid() && Stream() == old(Stream()) + data && blocks + |data| == BlocksFor(size)
      ensures AllData(data) && IsFile(data, file, Min(TBLOCK * |data|, |file|))
      ensures TBLOCK * |data| >= size || TBLOCK * |data| >= |file|
    {
      ghost var start := Stream();
      blocks := BlocksFor(size);
      var pos: nat, i: nat, bigbuf, hint := 0, 0, bigbuf0, hint0;
      data := [];
      Uncopied(file, blocks);
      i, pos, bigbuf := ReadOn(file, pos, hint, maxread, bigbuf, data, blocks);
      while i > 0 && blocks > 0
        invariant Valid() && Stream() == start + data && |bigbuf| == maxread && 1 <= hint <= nblock
        invariant blocks + |data| == BlocksFor(size)
        invariant Copying(data, file, bigbuf, pos, i, Asked(hint, maxread), blocks)
        decreases blocks
      {
        hint, blocks, data := CopyBlocks(bigbuf, i, Asked(hint, maxread), blocks, file, pos, data, start);
        i, pos, bigbuf := ReadOn(file, pos, hint, maxread, bigbuf, data, blocks);
      }
      CopyEnd(data, file, bigbuf, pos, i, Asked(hint, maxread), blocks, size);
    }

    /** The end of dorep: two empty blocks, and the buffer to the tape as it is. */
    method Finish() returns (ghost junk: seq<Block>)
      requires Valid()
      modifies this`recno, this`mt, tbuf
      ensures Valid() && Flat(mt) == old(Stream()) + [Empty, Empty] + junk
    {
      ghost var was := Stream();
      PutEmpty(1);
      PutEmpty(1);
      junk := tbuf[recno..];
      FlatAdd(mt, tbuf[..]);
      Ended(was, Flat(mt), tbuf[..], recno);
      mt := mt + [tbuf[..]];
    }

    /** An archive of these files. */
    method Archive(members: seq<Member>, maxread: nat, bigbuf: seq<Byte>)
      returns (ghost entries: seq<Entry>, ghost junk: seq<Block>)
      requires Valid() && Stream() == [] && (maxread >= nblock * TBLOCK || maxread == TBLOCK) && |bigbuf| == maxread
      modifies this`recno, this`mt, tbuf
      ensures Valid() && Flat(mt) == Layout(entries) + [Empty, Empty] + junk
      ensures |entries| == |members| && forall i :: 0 <= i < |members| ==> IsEntry(entries[i], members[i])
    {
      var i := 0;
      entries := [];
      while i < |members|
        invariant 0 <= i <= |members| && |entries| == i && Valid() && Stream() == Layout(entries)
        invariant forall k :: 0 <= k < i ==> IsEntry(entries[k], members[k])
      {
        var m := members[i];
        ghost var data: seq<Block> := [];
        if m.link {
          var hint := WriteTBuf([Header(m.name, m.size, true)]);
        } else {
          data := PutFile(m.name, m.size, m.file, maxread, bigbuf);
        }
        ghost var entry := Entry(m.name, m.size, m.link, data);
        LayoutAdd(entries, entry);
        entries := entries + [entry];
        i := i + 1;
      }
      junk := Finish();
    }
  }

  /** What is to be archived: a link is a header only; a directory has no size and no contents. */
  datatype Member = Member(name: string, size: nat, link: bool, file: seq<Byte>)

  /** What is in the archive. */
  datatype Entry = Entry(name: string, size: nat, link: bool, data: seq<Block>)

  ghost predicate IsEntry(e: Entry, m: Member) {
    && e.name == m.name && e.size == m.size && e.link == m.link && Framed(e)
    && (!m.link ==> IsFile(e.data, m.file, Min(m.size, |m.file|)))
  }

  /** The contents fill just the blocks that the size in the header calls for. */
  ghost predicate Framed(e: Entry) {
    |e.data| == (if e.link then 0 else BlocksFor(e.size)) && AllData(e.data)
  }

  function HeaderOf(e: Entry): Block {
    Header(e.name, e.size, e.link)
  }

  function Layout(entries: seq<Entry>): seq<Block> {
    if entries == [] then []
    else
      var e := entries[|entries| - 1];
      Layout(entries[..|entries| - 1]) + ([HeaderOf(e)] + e.data)
  }

  lemma LayoutAdd(entries: seq<Entry>, e: Entry)
    ensures Layout(entries + [e]) == Layout(entries) + [HeaderOf(e)] + e.data
  {
    assert (entries + [e])[..|entries|] == entries;
    assert Layout(entries) + ([HeaderOf(e)] + e.data) == Layout(entries) + [HeaderOf(e)] + e.data;
  }

  /** Entry number i begins where the entries before it end. */
  lemma {:induction false} LayoutAt(entries: seq<Entry>, i: nat)
    requires i < |entries|
    ensures Layout(entries[..i + 1]) == Layout(entries[..i]) + [HeaderOf(entries[i])] + entries[i].data
    ensures Layout(entries[..i + 1]) <= Layout(entries)
    decreases |entries|
  {
    assert entries[..i + 1] == entries[..i] + [entries[i]];
    LayoutAdd(entries[..i], entries[i]);
    var k := |entries| - 1;
    if i < k {
      LayoutAt(entries[..k], i);
      assert entries[..k][..i + 1] == entries[..i + 1];
    } else {
      assert entries[..i + 1] == entries;
    }
  }

  /** read: as much of the file as would fill the record, into the buffer. */
  method Read(file: seq<Byte>, pos: nat, hint: nat, maxread: nat, bigbuf: seq<Byte>)
    returns (i: nat, pos': nat, bigbuf': seq<Byte>)
    requires pos <= |file| && |bigbuf| == maxread && (hint * TBLOCK <= maxread || maxread == TBLOCK)
    ensures i == Min(Asked(hint, maxread) * TBLOCK, |file| - pos) && pos' == pos + i
    ensures bigbuf' == file[pos..pos'] + bigbuf[i..]
  {
    i := Min(Min(hint * TBLOCK, maxread), |file| - pos);
    pos' := pos + i;
    bigbuf' := file[pos..pos'] + bigbuf[i..];
  }

  /** The read, when the blocks so far hold all that has been read before. */
  method ReadOn(file: seq<Byte>, pos: nat, hint: nat, maxread: nat, bigbuf: seq<Byte>, ghost data: seq<Block>,
        ghost blocks: nat)
    returns (i: nat, pos': nat, bigbuf': seq<Byte>)
    requires Copied(data, file, pos, blocks) && |bigbuf| == maxread && 0 < hint
    requires hint * TBLOCK <= maxread || maxread == TBLOCK
    ensures Copying(data, file, bigbuf', pos', i, Asked(hint, maxread), blocks) && |bigbuf'| == maxread
  {
    i, pos', bigbuf' := Read(file, pos, hint, maxread, bigbuf);
  }

  lemma Uncopied(file: seq<Byte>, blocks: nat)
    ensures Copied([], file, 0, blocks)
  {
  }

  lemma CopyEnd(data: seq<Block>, file: seq<Byte>, bigbuf: seq<Byte>, pos: nat, i: nat, hint: nat, blocks: nat,
        size: nat)
    requires Copying(data, file, bigbuf, pos, i, hint, blocks) && (i == 0 || blocks == 0)
    requires blocks + |data| == BlocksFor(size)
    ensures AllData(data) && IsFile(data, file, Min(TBLOCK * |data|, |file|))
    ensures TBLOCK * |data| >= size || TBLOCK * |data| >= |file|
  {
  }

  /** How many blocks a read asks for: as many as fill the record, or one when there is no room for more. */
  function Asked(hint: nat, maxread: nat): nat {
    if hint * TBLOCK <= maxread then hint else 1
  }

  function Min(a: int, b: int): int {
    if a < b then a else b
  }

  /** The first n bytes of the contents are those of the file. */
  ghost predicate IsFile(data: seq<Block>, file: seq<Byte>, n: nat) {
    n <= |file| && n <= |Joined(data)| && Joined(data)[..n] == file[..n]
  }

  /** The blocks so far hold the file as far as they go, and the buffer what has been read behind that. */
  ghost predicate Copying(data: seq<Block>, file: seq<Byte>, bigbuf: seq<Byte>, pos: nat, i: nat, hint: nat,
        blocks: nat)
  {
    && AllData(data) && IsFile(data, file, Min(TBLOCK * |data|, |file|)) && i <= pos <= |file| && i <= |bigbuf|
    && (i == TBLOCK * hint || (pos == |file| && i <= TBLOCK * hint))
    && (i > 0 && blocks > 0 ==> pos - i == TBLOCK * |data| && bigbuf[..i] == file[pos - i..pos])
    && (i == 0 && blocks > 0 ==> TBLOCK * |data| >= |file|)
  }

  /** The blocks so far hold the file as far as they go, and when more are called for, all that has been read. */
  ghost predicate Copied(data: seq<Block>, file: seq<Byte>, pos: nat, blocks: nat) {
    && AllData(data) && IsFile(data, file, Min(TBLOCK * |data|, |file|)) && pos <= |file|
    && (blocks > 0 ==> pos == TBLOCK * |data| || pos == |file| <= TBLOCK * |data|)
  }

  lemma Roundup(i: nat, nblks: nat, hint: nat)
    requires 0 < i <= TBLOCK * hint && nblks <= (i - 1) / TBLOCK + 1
    ensures nblks <= hint && TBLOCK * nblks <= TBLOCK * hint && nblks * TBLOCK == TBLOCK * nblks
    ensures TBLOCK * nblks % TBLOCK == 0
    ensures nblks == (i - 1) / TBLOCK + 1 ==> TBLOCK * nblks >= i
  {
  }

  /** One turn of the copy loop, up to the next read. */
  lemma CopyStep(data: seq<Block>, file: seq<Byte>, bigbuf: seq<Byte>, pos: nat, i: nat, hint: nat, blocks: nat,
        nblks: nat)
    requires Copying(data, file, bigbuf, pos, i, hint, blocks) && i > 0 && 0 < nblks <= blocks
    requires nblks * TBLOCK <= |bigbuf| && (nblks == blocks || nblks == (i - 1) / TBLOCK + 1)
    requires nblks <= (i - 1) / TBLOCK + 1
    ensures var piece := Cut(bigbuf[..nblks * TBLOCK]);
      |piece| == nblks && Copied(data + piece, file, pos, blocks - nblks)
  {
    var bytes := bigbuf[..nblks * TBLOCK];
    var piece := Cut(bytes);
    CutJoined(bytes);
    JoinedLength(data);
    JoinedConcat(data, piece);
    var a, m := pos - i, Min(nblks * TBLOCK, i);
    StepBytes(file, bigbuf, a, i, nblks * TBLOCK);
    StepCount(|file|, a, i, |data|, nblks, blocks, hint);
    assert |data + piece| == |data| + nblks;
    StepCopied(data, piece, file, bytes, a, a + m);
  }

  /** The bytes put out go on where the file was left off. */
  lemma StepBytes(file: seq<Byte>, bigbuf: seq<Byte>, a: nat, i: nat, n: nat)
    requires a + i <= |file| && i <= |bigbuf| && n <= |bigbuf| && bigbuf[..i] == file[a..a + i]
    ensures var m := Min(n, i); (file[..a] + bigbuf[..n])[..a + m] == file[..a + m]
  {
    var m := Min(n, i);
    SubSlice(bigbuf, 0, i, m);
    SubSlice(bigbuf, 0, n, m);
    SubSlice(file, a, a + i, m);
    Continued(file, a, bigbuf[..n], a + m);
  }

  lemma StepCount(size: nat, a: nat, i: nat, n: nat, nblks: nat, blocks: nat, hint: nat)
    requires a == TBLOCK * n && a + i <= size && 0 < i && 0 < nblks <= blocks
    requires i == TBLOCK * hint || (a + i == size && i <= TBLOCK * hint)
    requires (nblks == blocks || nblks == (i - 1) / TBLOCK + 1) && nblks <= (i - 1) / TBLOCK + 1
    ensures Min(TBLOCK * (n + nblks), size) == a + Min(nblks * TBLOCK, i)
    ensures blocks > nblks ==> a + i == TBLOCK * (n + nblks) || a + i == size <= TBLOCK * (n + nblks)
  {
  }

  lemma StepCopied(data: seq<Block>, piece: seq<Block>, file: seq<Byte>, bytes: seq<Byte>, a: nat, end: nat)
    requires AllData(data) && AllData(piece) && Joined(data + piece) == Joined(data) + bytes
    requires a <= end <= |file| && |Joined(data)| == a && Joined(data)[..a] == file[..a] && end <= a + |bytes|
    requires (file[..a] + bytes)[..end] == file[..end] && end == Min(TBLOCK * |data + piece|, |file|)
    ensures AllData(data + piece) && IsFile(data + piece, file, Min(TBLOCK * |data + piece|, |file|))
  {
    assert Joined(data) == Joined(data)[..a];
  }

  lemma SubSlice(s: seq<Byte>, a: nat, b: nat, m: nat)
    requires a <= b <= |s| && m <= b - a
    ensures s[a..b][..m] == s[a..a + m]
    ensures a == 0 ==> s[..b] == s[a..b] && s[..m] == s[a..m]
  {
  }

  lemma Continued(file: seq<Byte>, a: nat, bytes: seq<Byte>, n: nat)
    requires a <= n <= |file| && n - a <= |bytes| && bytes[..n - a] == file[a..n]
    ensures (file[..a] + bytes)[..n] == file[..n]
  {
    assert (file[..a] + bytes)[..n] == file[..a] + bytes[..n - a];
  }

  /** Blocks that only fill up. */
  lemma Padded(data: seq<Block>, pad: seq<Block>, file: seq<Byte>, size: nat)
    requires AllData(data) && AllData(pad) && IsFile(data, file, Min(TBLOCK * |data|, |file|))
    requires TBLOCK * |data| >= size || TBLOCK * |data| >= |file|
    ensures AllData(data + pad) && IsFile(data + pad, file, Min(size, |file|))
  {
    JoinedConcat(data, pad);
    var n, m := Min(size, |file|), Min(TBLOCK * |data|, |file|);
    var j, p := Joined(data), Joined(pad);
    assert n <= m <= |j| && Joined(data + pad) == j + p;
    assert (j + p)[..n] == j[..n] == j[..m][..n];
    assert file[..n] == file[..m][..n];
  }

  lemma Ended(was: seq<Block>, front: seq<Block>, buffer: seq<Block>, n: nat)
    requires n <= |buffer| && front + buffer[..n] == was + seq(1, _ => Empty) + seq(1, _ => Empty)
    ensures front + buffer == was + [Empty, Empty] + buffer[n..]
  {
    var one: seq<Block> := seq(1, _ => Empty);
    assert was + one + one == was + [Empty, Empty];
    assert front + buffer == front + buffer[..n] + buffer[n..];
  }

  lemma Taken(was: seq<Block>, buffer: seq<Block>, k: nat, n: nat)
    requires k + n <= |buffer|
    ensures was + buffer[..k] + buffer[k..k + n] == was + buffer[..k + n]
    ensures n == 1 ==> buffer[k..k + n] == [buffer[k]]
  {
    assert buffer[..k + n] == buffer[..k] + buffer[k..k + n];
  }
}
