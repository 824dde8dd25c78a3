/**
 The editor's store of lines: a temporary file of 512-byte blocks seen through an
 input and an output buffer. A line is named by a handle, half its byte position
 in the file; the low bit of a handle is the mark of the global command.
 */
module TempStore {
  import opened Bytes
  import opened Cipher

  const BLK: nat := 512
  /** Blocks 255 and up are refused. */
  const MAXBLK: nat := 255
  const NL: Byte := 10

  /** The block of a position, and the offset in the block. */
  function BlockOf(q: nat): nat {
    if q < 512 then 0 else 1 + BlockOf(q - 512)
  }

  function OffsetOf(q: nat): (o: nat)
    ensures o < 512
  {
    if q < 512 then q else OffsetOf(q - 512)
  }

  lemma {:induction false} SplitPosition(q: nat)
    ensures q == BlockOf(q) * 512 + OffsetOf(q)
  {
    if q >= 512 {
      SplitPosition(q - 512);
    }
  }

  /** A position is its block and its offset. */
  lemma PositionIs(q: nat, b: nat, o: nat)
    requires q == b * 512 + o && o < 512
    ensures BlockOf(q) == b && OffsetOf(q) == o
  {
    SplitPosition(q);
  }

  lemma NextPosition(q: nat)
    ensures OffsetOf(q) < 511 ==> BlockOf(q + 1) == BlockOf(q) && OffsetOf(q + 1) == OffsetOf(q) + 1
    ensures OffsetOf(q) == 511 ==> BlockOf(q + 1) == BlockOf(q) + 1 && OffsetOf(q + 1) == 0
  {
    SplitPosition(q);
    if OffsetOf(q) < 511 {
      PositionIs(q + 1, BlockOf(q), OffsetOf(q) + 1);
    } else {
      PositionIs(q + 1, BlockOf(q) + 1, 0);
    }
  }

  /** The fields of a handle: bits 8 to 15 are the block, bits 1 to 7 the offset in units of four bytes. */
  function HandleBlock(tl: nat): nat {
    tl / 256 % 256
  }

  function HandleOffset(tl: nat): nat {
    tl * 2 % 512 / 4 * 4
  }

  /** The position a handle names: its mark bit does not count. */
  function HandlePosition(tl: nat): nat {
    if tl % 2 == 1 then 2 * tl - 2 else 2 * tl
  }

  /** The fields of a handle name its position, marked or not. */
  lemma HandleNames(tl: nat)
    requires tl < 65536
    ensures HandleBlock(tl) == BlockOf(HandlePosition(tl)) && HandleOffset(tl) == OffsetOf(HandlePosition(tl))
  {
    var a, r := tl / 256, tl % 256;
    var h := r / 2;
    assert tl == 256 * a + 2 * h + r % 2;
    assert tl % 2 == r % 2;
    assert tl * 2 % 512 == 4 * h + 2 * (r % 2);
    assert HandleOffset(tl) == 4 * h;
    PositionIs(HandlePosition(tl), a, 4 * h);
  }

  /** The handle of the start of a block. */
  lemma BlockHandle(b: nat)
    ensures HandlePosition(b * 256) == b * 512
    ensures BlockOf(b * 512) == b && OffsetOf(b * 512) == 0
  {
    assert b * 256 == 2 * (b * 128);
    PositionIs(b * 512, b, 0);
  }

  /** The text of a line in the line buffer: up to a newline or the terminator. */
  function Text(s: seq<Byte>): (t: seq<Byte>)
    ensures |t| <= |s| && t == s[..|t|]
    ensures forall i :: 0 <= i < |t| ==> t[i] != 0 && t[i] != NL
    ensures |t| < |s| ==> s[|t|] == 0 || s[|t|] == NL
  {
    if s == [] || s[0] == 0 || s[0] == NL then [] else [s[0]] + Text(s[1..])
  }

  /** A line holds neither a terminator nor a newline. */
  ghost predicate IsLine(line: seq<Byte>) {
    forall k :: 0 <= k < |line| ==> line[k] != 0 && line[k] != NL
  }

  lemma {:induction false} TextOfLine(line: seq<Byte>)
    requires IsLine(line)
    ensures Text(line + [0]) == line
  {
    if line != [] {
      assert (line + [0])[1..] == line[1..] + [0];
      TextOfLine(line[1..]);
    }
  }

  /** What a line with its terminator takes in the file, in units of two bytes: a multiple of four bytes. */
  function Units(n: nat): nat {
    (n + 3) / 2 / 2 * 2
  }

  lemma UnitsEnough(n: nat)
    ensures n <= Units(n) * 2 < n + 4 && Units(n) % 2 == 0
  {
  }

  /** Rounding up to four bytes does not pass the end of a block. */
  lemma UnitsFit(p: nat, n: nat, u: nat, end: nat)
    requires p % 4 == 0 && end % 4 == 0 && p + n <= end && u * 2 < n + 4 && u % 2 == 0
    ensures p + 2 * u <= end
  {
  }

  class Store {
    const ibuff: array<Byte>
    const obuff: array<Byte>
    var iblock: int
    var oblock: int
    var tline: nat
    /** The blocks of the temporary file written so far. */
    var disk: map<nat, seq<Byte>>
    /** Whether the file is encrypted, and the cipher's tables. */
    const xtflag: bool
    const t1: array<Byte>
    const t2: array<Byte>
    const t3: array<Byte>
    /** The lines stored, by handle. */
    ghost var lines: map<nat, seq<Byte>>

    ghost predicate Shape()
      reads t1, t2, t3
    {
      && ibuff.Length == obuff.Length == 512 && t1.Length == t2.Length == t3.Length == 256
      && ibuff != obuff && ibuff !in {t1, t2, t3} && obuff !in {t1, t2, t3}
      && (xtflag ==> Machine(t1[..], t2[..], t3[..]))
    }

    /** The contents of a block as it stands in the file: encrypting is decrypting. */
    ghost function Plain(block: seq<Byte>): seq<Byte>
      reads t1, t2, t3
      requires Shape()
    {
      if xtflag then CryptAll(t1[..], t2[..], t3[..], block, 0) else block
    }

    /** The byte at a position of the store. */
    ghost function ByteAt(q: nat): Byte
      reads this`oblock, this`disk, obuff, t1, t2, t3
      requires Shape()
    {
      if BlockOf(q) == oblock then obuff[OffsetOf(q)]
      else if BlockOf(q) in disk && |Plain(disk[BlockOf(q)])| == 512 then Plain(disk[BlockOf(q)])[OffsetOf(q)]
      else 0
    }

    /** d stands at position q. */
    ghost predicate Stands(q: nat, d: seq<Byte>)
      reads this`oblock, this`disk, obuff, t1, t2, t3
      requires Shape()
    {
      forall k :: 0 <= k < |d| ==> ByteAt(q + k) == d[k]
    }

    /** The buffers agree with the file; the input block is an older block than the output block. */
    ghost predicate Buffers()
      reads this`iblock, this`oblock, this`disk, ibuff, t1, t2, t3
    {
      && Shape() && -1 <= oblock < MAXBLK && -1 <= iblock
      && (forall b :: 0 <= b < oblock ==> b in disk && |disk[b]| == 512)
      && (iblock != -1 ==> iblock < oblock && ibuff[..] == Plain(disk[iblock]))
    }

    /** The next line goes into the output block or to the start of the one after it. */
    ghost predicate AtEnd()
      reads this`tline, this`oblock
    {
      && tline % 2 == 0 && 2 * tline <= MAXBLK * 512
      && (if oblock == -1 then tline == 2 else oblock * 512 <= 2 * tline <= (oblock + 1) * 512)
    }

    /** Each line stands at its handle's position, below the next free one. */
    ghost predicate LinesStand()
      reads this`tline, this`lines, this`oblock, this`disk, obuff, t1, t2, t3
      requires Shape()
    {
      forall h {:trigger LineStands(h, lines[h], 2 * tline)} :: h in lines ==> LineStands(h, lines[h], 2 * tline)
    }

    /** A line stands at its handle's position, below end. */
    ghost predicate LineStands(h: nat, line: seq<Byte>, end: nat)
      reads this`oblock, this`disk, obuff, t1, t2, t3
      requires Shape()
    {
      && h % 2 == 0 && 2 * h + |line| + 1 <= end && |line| < 512
      && IsLine(line) && Stands(2 * h, line + [0])
    }

    /** The line of handle h ends before that of handle g. */
    ghost predicate EndsBefore(h: nat, g: nat)
      reads this`lines
    {
      h in lines && g in lines && h < g ==> 2 * h + |lines[h]| + 1 <= 2 * g
    }

    /** Distinct lines have disjoint extents. */
    ghost predicate Disjoint()
      reads this`lines
    {
      forall h, g :: EndsBefore(h, g)
    }

    ghost predicate Valid()
      reads this, ibuff, obuff, t1, t2, t3
    {
      Buffers() && AtEnd() && (oblock == -1 ==> lines == map[]) && LinesStand() && Disjoint()
    }

    /** init. */
    constructor (xflag: bool, a1: array<Byte>, a2: array<Byte>, a3: array<Byte>)
      requires a1.Length == a2.Length == a3.Length == 256
      requires xflag ==> Machine(a1[..], a2[..], a3[..])
      ensures Valid() && lines == map[] && tline == 2 && fresh(ibuff) && fresh(obuff)
      ensures xtflag == xflag && t1 == a1 && t2 == a2 && t3 == a3
    {
      ibuff := new Byte[512];
      obuff := new Byte[512];
      xtflag, t1, t2, t3 := xflag, a1, a2, a3;
      tline, iblock, oblock, disk := 2, -1, -1, map[];
      lines := map[];
    }

    /** blkio with encryption: write the output buffer out as its block. */
    method WriteOut()
      requires Shape() && oblock >= 0
      modifies this`disk
      ensures oblock in disk && |disk[oblock]| == 512 && Plain(disk[oblock]) == obuff[..]
      ensures forall b :: b in old(disk) && b != oblock ==> b in disk && disk[b] == old(disk)[b]
    {
      var crbuf := new Byte[512];
      for i := 0 to 512
        invariant disk == old(disk) && forall k :: 0 <= k < i ==> crbuf[k] == obuff[k]
      {
        crbuf[i] := obuff[i];
      }
      assert crbuf[..] == obuff[..];
      if xtflag {
        assert crbuf[..512] == crbuf[..];
        CrBlock(t1, t2, t3, crbuf, 512, 0);
        assert crbuf[..512] == crbuf[..];
        CryptAllTwice(t1[..], t2[..], t3[..], obuff[..], 0);
      }
      var b: nat := oblock;
      disk := disk[b := crbuf[..]];
    }

    /**
     getblock for writing: make the block of handle atl, at position q, the
     output block, and return the place in it.
     */
    method GetBlockWrite(atl: nat, ghost q: nat) returns (ok: bool, off: nat)
      requires atl < 65536 && q == HandlePosition(atl)
      requires Buffers() && oblock <= BlockOf(q) <= oblock + 1
      modifies this`disk, this`oblock
      ensures ok <==> BlockOf(q) < MAXBLK
      ensures off == OffsetOf(q)
      ensures !ok ==> disk == old(disk) && oblock == old(oblock)
      ensures ok ==> Buffers() && oblock == BlockOf(q)
      ensures ok ==> forall p :: BlockOf(p) <= old(oblock) ==> ByteAt(p) == old(ByteAt(p))
    {
      HandleNames(atl);
      var bno := HandleBlock(atl);
      off := HandleOffset(atl);
      if bno >= MAXBLK {
        return false, off;
      }
      assert bno != iblock;  // writing never lands in the input block
      if bno == oblock {
        return true, off;
      }
      if oblock >= 0 {
        WriteOut();
      }
      oblock := bno;
      ok := true;
    }

    /** getblock for reading: the buffer that holds the block of handle atl, at position q, if need be read in. */
    method GetBlockRead(atl: nat, ghost q: nat) returns (input: bool, off: nat)
      requires atl < 65536 && q == HandlePosition(atl)
      requires Buffers() && BlockOf(q) <= oblock
      modifies this`iblock, ibuff
      ensures Buffers() && off == OffsetOf(q)
      ensures input ==> iblock == BlockOf(q) && iblock != oblock
      ensures !input ==> oblock == BlockOf(q)
      ensures forall p :: ByteAt(p) == old(ByteAt(p))
      ensures forall p :: BlockOf(p) == BlockOf(q) ==> (if input then ibuff else obuff)[OffsetOf(p)] == ByteAt(p)
    {
      HandleNames(atl);
      var bno := HandleBlock(atl);
      off := HandleOffset(atl);
      if bno == iblock {
        return true, off;
      }
      if bno == oblock {
        return false, off;
      }
      iblock := bno;
      ReadIn(disk[bno]);
      input := true;
    }

    /** blkio with decryption: read a block into the input buffer. */
    method ReadIn(block: seq<Byte>)
      requires Shape() && |block| == 512
      modifies ibuff
      ensures ibuff[..] == Plain(block)
    {
      for i := 0 to 512
        invariant forall k :: 0 <= k < i ==> ibuff[k] == block[k]
      {
        ibuff[i] := block[i];
      }
      assert ibuff[..] == block;
      if xtflag {
        assert ibuff[..512] == ibuff[..];
        CrBlock(t1, t2, t3, ibuff, 512, 0);
        assert ibuff[..512] == ibuff[..];
      }
    }

    /** The part of a line that getline has yet to copy starts at position q, in the buffer it has at hand. */
    ghost predicate Reading(h: nat, k: nat, input: bool, off: nat, nl: nat)
      reads this, ibuff, obuff, t1, t2, t3
      requires Shape() && h in lines
    {
      var q := 2 * h + k;
      && k <= |lines[h]| && off + nl == 512 && nl > 0 && off == OffsetOf(q) && BlockOf(q) <= oblock
      && (forall p :: BlockOf(p) == BlockOf(q) ==> (if input then ibuff else obuff)[OffsetOf(p)] == ByteAt(p))
    }

    /** Every byte of a stored line, and its terminator, lies in a block that has been written. */
    lemma PositionInRange(h: nat, k: nat)
      requires Valid() && h in lines && k <= |lines[h]|
      ensures oblock >= 0 && BlockOf(2 * h + k) <= oblock && 2 * h + k < MAXBLK * 512
    {
      assert LineStands(h, lines[h], 2 * tline);
      SplitPosition(2 * h + k);
    }

    lemma LineByte(h: nat, k: nat)
      requires Valid() && h in lines && k <= |lines[h]|
      ensures ByteAt(2 * h + k) == (lines[h] + [0])[k]
      ensures (lines[h] + [0])[k] == 0 <==> k == |lines[h]|
    {
      assert LineStands(h, lines[h], 2 * tline) && Stands(2 * h, lines[h] + [0]);
    }

    /** getline before it copies character k of the line of handle h. */
    ghost predicate GetLoop(h: nat, k: nat, input: bool, off: nat, nl: nat, at: nat)
      reads this, ibuff, obuff, t1, t2, t3
    {
      Valid() && h in lines && Reading(h, k, input, off, nl) && at == BlockOf(2 * h + k) * 256
    }

    /** getline's step past a character, into the next block if need be. */
    method NextToRead(ghost h: nat, ghost k: nat, input: bool, off: nat, nl: nat, at: nat)
      returns (input': bool, off': nat, nl': nat, at': nat)
      requires GetLoop(h, k, input, off, nl, at) && k < |lines[h]|
      modifies this`iblock, ibuff
      ensures GetLoop(h, k + 1, input', off', nl', at') && lines == old(lines) && tline == old(tline)
    {
      NextPosition(2 * h + k);
      PositionInRange(h, k + 1);
      input', off', nl', at' := input, off + 1, nl - 1, at;
      if nl' == 0 {
        at' := at + 256;
        BlockHandle(BlockOf(2 * h + k + 1));
        SplitPosition(2 * h + k + 1);
        input', off' := GetBlockRead(at', 2 * h + k + 1);
        nl' := 512 - off';
      }
    }

    method StartReading(tl: nat) returns (input: bool, off: nat, nl: nat, at: nat)
      requires Valid() && tl < 65536 && tl - tl % 2 in lines
      modifies this`iblock, ibuff
      ensures GetLoop(tl - tl % 2, 0, input, off, nl, at) && lines == old(lines) && tline == old(tline)
    {
      ghost var h := tl - tl % 2;
      PositionInRange(h, 0);
      HandleNames(tl);
      input, off := GetBlockRead(tl, 2 * h);
      nl, at := 512 - off, HandleBlock(tl) * 256;
    }

    /** One turn of getline's loop: the character at hand is copied and, unless it is the terminator, passed. */
    method GetTurn(ghost h: nat, ghost text: seq<Byte>, linebuf: seq<Byte>, input: bool, off: nat, nl: nat, at: nat)
      returns (linebuf': seq<Byte>, more: bool, input': bool, off': nat, nl': nat, at': nat)
      requires GetLoop(h, |linebuf|, input, off, nl, at) && text == lines[h] + [0] && linebuf < text
      modifies this`iblock, ibuff
      ensures lines == old(lines) && tline == old(tline)
      ensures |linebuf'| == |linebuf| + 1 && linebuf' <= text && (more <==> |linebuf'| < |text|)
      ensures if more then GetLoop(h, |linebuf'|, input', off', nl', at') else Valid()
    {
      LineByte(h, |linebuf|);
      var c := if input then ibuff[off] else obuff[off];
      OneMoreChar(linebuf, text, c);
      linebuf' := linebuf + [c];
      more := c != 0;
      input', off', nl', at' := input, off, nl, at;
      if more {
        input', off', nl', at' := NextToRead(h, |linebuf|, input, off, nl, at);
      }
    }

    /** getline: the line of a handle, marked or not, with its terminator; it fits the line buffer. */
    method GetLine(tl: nat) returns (linebuf: seq<Byte>)
      requires Valid() && tl < 65536 && tl - tl % 2 in lines
      modifies this`iblock, ibuff
      ensures Valid() && lines == old(lines) && tline == old(tline)
      ensures tl - tl % 2 in lines && linebuf == lines[tl - tl % 2] + [0] && |linebuf| <= 512
      ensures Text(linebuf) == lines[tl - tl % 2]
    {
      ghost var h := tl - tl % 2;
      ghost var text := lines[h] + [0];
      assert LineStands(h, lines[h], 2 * tline);
      TextOfLine(lines[h]);
      var input, off, nl, at := StartReading(tl);
      var more := true;
      linebuf := [];
      while more
        invariant lines == old(lines) && tline == old(tline)
        invariant linebuf <= text && (more <==> |linebuf| < |text|)
        invariant if more then GetLoop(h, |linebuf|, input, off, nl, at) else Valid()
        decreases |text| - |linebuf|
      {
        linebuf, more, input, off, nl, at := GetTurn(h, text, linebuf, input, off, nl, at);
      }
    }

    // ----- putline -----

    /** putline with k characters of the line written and the next to go to offset off of the output block. */
    ghost predicate PutLoop(line: seq<Byte>, k: nat, off: nat, nl: nat, at: nat)
      reads this, ibuff, obuff, t1, t2, t3
    {
      && Buffers() && oblock >= 0 && LinesStand() && Disjoint() && tline % 2 == 0 && k <= |line|
      && oblock * 512 <= 2 * tline + k && 2 * tline <= (oblock + 1) * 512
      && oblock == BlockOf(2 * tline + k) && off == OffsetOf(2 * tline + k) && off + nl == 512 && at == oblock * 256
      && Stands(2 * tline, line[..k])
    }

    /** Nothing below the next free position has changed, so every line still stands. */
    twostate lemma LinesKept()
      requires old(Shape()) && Shape() && old(LinesStand()) && lines == old(lines) && tline == old(tline)
      requires forall p :: 0 <= p < 2 * tline ==> ByteAt(p) == old(ByteAt(p))
      ensures LinesStand()
    {
      forall h | h in lines
        ensures LineStands(h, lines[h], 2 * tline)
      {
        assert old(LineStands(h, lines[h], 2 * tline)) && old(Stands(2 * h, lines[h] + [0]));
      }
    }

    /** *bp = c. */
    method Poke(off: nat, c: Byte, ghost q: nat)
      requires Buffers() && BlockOf(q) == oblock && OffsetOf(q) == off
      modifies obuff
      ensures Buffers() && ByteAt(q) == c
      ensures forall p :: 0 <= p != q ==> ByteAt(p) == old(ByteAt(p))
    {
      obuff[off] := c;
      forall p | 0 <= p != q
        ensures ByteAt(p) == old(ByteAt(p))
      {
        SplitPosition(p);
        SplitPosition(q);
      }
    }

    method StartWriting(ghost line: seq<Byte>) returns (ok: bool, off: nat, nl: nat, at: nat)
      requires Valid()
      modifies this`disk, this`oblock
      ensures ok ==> PutLoop(line, 0, off, nl, at)
      ensures !ok ==> Valid() && BlockOf(2 * tline) >= MAXBLK
    {
      SplitPosition(2 * tline);
      HandleNames(tline);
      assert Stands(2 * tline, line[..0]);
      ok, off := GetBlockWrite(tline, 2 * tline);
      nl, at := 512 - off, HandleBlock(tline) * 256;
      if ok && old(oblock) >= 0 {
        forall p | 0 <= p < 2 * tline
          ensures ByteAt(p) == old(ByteAt(p))
        {
          SplitPosition(p);
        }
        LinesKept();
      }
    }

    /** putline writes character k of the line, or the terminator behind it. */
    method WriteChar(ghost line: seq<Byte>, ghost k: nat, off: nat, nl: nat, at: nat, c: Byte)
      requires PutLoop(line, k, off, nl, at) && nl > 0
      modifies obuff
      ensures PutLoop(line, k, off, nl, at) && ByteAt(2 * tline + k) == c
      ensures k < |line| && c == line[k] ==> Stands(2 * tline, line[..k + 1])
      ensures k == |line| && c == 0 ==> Stands(2 * tline, line + [0])
    {
      ghost var q := 2 * tline + k;
      Poke(off, c, q);
      LinesKept();
      assert Stands(2 * tline, line[..k]);
      assert k < |line| && c == line[k] ==> line[..k + 1] == line[..k] + [c];
      assert k == |line| && c == 0 ==> line + [0] == line[..k] + [c];
    }

    /** putline's step past a character, into the next block if need be. */
    method NextToWrite(ghost line: seq<Byte>, ghost k: nat, off: nat, nl: nat, at: nat)
      returns (ok: bool, off': nat, nl': nat, at': nat)
      requires PutLoop(line, k, off, nl, at) && nl > 0 && k < |line| < 512 && Stands(2 * tline, line[..k + 1])
      modifies this`disk, this`oblock
      ensures ok ==> PutLoop(line, k + 1, off', nl', at') && nl' > 0
      ensures !ok ==> Valid() && BlockOf(2 * tline + k + 1) >= MAXBLK
    {
      ghost var q := 2 * tline + k;
      assert q + 1 == 2 * tline + (k + 1);
      NextPosition(q);
      SplitPosition(q);
      ok, off', nl', at' := true, off + 1, nl - 1, at;
      if nl' == 0 {
        at' := at + 256;
        BlockHandle(oblock + 1);
        SplitPosition(q + 1);
        ok, off' := GetBlockWrite(at', q + 1);
        nl' := 512 - off';
        if ok {
          forall p | 0 <= p <= q
            ensures ByteAt(p) == old(ByteAt(p))
          {
            SplitPosition(p);
          }
        }
        LinesKept();
      }
    }

    /** Where the next line may go is behind this one, in the output block or at its end. */
    lemma NextFree(line: seq<Byte>, n: nat, off: nat, nl: nat, at: nat)
      requires PutLoop(line, |line|, off, nl, at) && nl > 0 && n == |line| + 1 <= 512
      ensures var next := tline + Units(n);
        next % 2 == 0 && 2 * tline + n <= 2 * next <= (oblock + 1) * 512 <= MAXBLK * 512 && oblock * 512 <= 2 * next
    {
      UnitsEnough(n);
      SplitPosition(2 * tline + |line|);
      UnitsFit(2 * tline, n, Units(n), (oblock + 1) * 512);
    }

    /** The lines stored before stand below any later end. */
    lemma StillStand(end: nat)
      requires Shape() && LinesStand() && 2 * tline <= end
      ensures forall h :: h in lines ==> h < tline && LineStands(h, lines[h], end)
    {
      forall h | h in lines
        ensures h < tline && LineStands(h, lines[h], end)
      {
        assert LineStands(h, lines[h], 2 * tline);
      }
    }

    /** The line is written and terminated: it gets the handle, and the next free place is behind it. */
    method Finish(ghost line: seq<Byte>, n: nat, off: nat, nl: nat, at: nat) returns (tl: nat)
      requires PutLoop(line, |line|, off, nl, at) && nl > 0 && n == |line| + 1 <= 512
      requires Stands(2 * tline, line + [0]) && IsLine(line)
      modifies this`tline, this`lines
      ensures Valid() && tl == old(tline) && tl !in old(lines) && tline == old(tline) + Units(n)
      ensures lines == old(lines)[tl := line]
    {
      NextFree(line, n, off, nl, at);
      StillStand(2 * (tline + Units(n)));
      tl := tline;
      tline := tline + Units(n);
      lines := lines[tl := line];
      forall h, g
        ensures EndsBefore(h, g)
      {
        assert old(EndsBefore(h, g)) && (h in old(lines) ==> old(LineStands(h, lines[h], 2 * tline)));
      }
    }

    /** putline at character k; when the file turns out to be full, the store is as sound as before. */
    ghost predicate Putting(ok: bool, line: seq<Byte>, k: nat, off: nat, nl: nat, at: nat)
      reads this, ibuff, obuff, t1, t2, t3
    {
      if ok then PutLoop(line, k, off, nl, at) && nl > 0 else Valid() && k <= |line| && BlockOf(2 * tline + k) >= MAXBLK
    }

    /** The end of the text was reached: the file holds it. */
    lemma PutFits(line: seq<Byte>, off: nat, nl: nat, at: nat)
      requires Putting(true, line, |line|, off, nl, at)
      ensures BlockOf(2 * tline + |line|) < MAXBLK
    {
    }

    /** The file was full before the end of the text. */
    lemma PutFails(line: seq<Byte>, k: nat, off: nat, nl: nat, at: nat)
      requires Putting(false, line, k, off, nl, at)
      ensures Valid() && BlockOf(2 * tline + |line|) >= MAXBLK
    {
      BlockGrows(2 * tline + k, 2 * tline + |line|);
    }

    /** One turn of putline's loop: a character and the step past it. */
    method PutTurn(ghost line: seq<Byte>, ghost k: nat, off: nat, nl: nat, at: nat, c: Byte)
      returns (ok: bool, off': nat, nl': nat, at': nat)
      requires Putting(true, line, k, off, nl, at) && k < |line| < 512 && c == line[k]
      modifies this`disk, this`oblock, obuff
      ensures Putting(ok, line, k + 1, off', nl', at')
    {
      WriteChar(line, k, off, nl, at, c);
      ok, off', nl', at' := NextToWrite(line, k, off, nl, at);
    }

    /** What putline does at the end of the text: the terminator, in place of a newline if there is one. */
    method Terminate(ghost line: seq<Byte>, k: nat, off: nat, nl: nat, at: nat, c: Byte) returns (tl: nat)
      requires Putting(true, line, k, off, nl, at) && k == |line| < 512 && IsLine(line)
      modifies this`tline, this`lines, obuff
      ensures Valid() && tl == old(tline) && tl !in old(lines) && tline == old(tline) + Units(k + 1)
      ensures lines == old(lines)[tl := line]
    {
      if c == NL {
        WriteChar(line, k, off, nl, at, c);
      }
      WriteChar(line, k, off, nl, at, 0);
      tl := Finish(line, k + 1, off, nl, at);
    }

    /** putline's loop, from its start to the end of the text or of the file. */
    method PutText(linebuf: seq<Byte>, ghost line: seq<Byte>) returns (ok: bool, k: nat, off: nat, nl: nat, at: nat)
      requires Valid() && |linebuf| <= 512 && line == Text(linebuf) && |line| < |linebuf|
      modifies this`disk, this`oblock, obuff
      ensures Putting(ok, line, k, off, nl, at) && (ok ==> k == |line|)
    {
      ok, off, nl, at := StartWriting(line);
      k := 0;
      while ok && linebuf[k] != 0 && linebuf[k] != NL
        invariant k <= |line|
        invariant Putting(ok, line, k, off, nl, at)
        decreases ok, |line| - k
      {
        ok, off, nl, at := PutTurn(line, k, off, nl, at, linebuf[k]);
        k := k + 1;
      }
    }

    /** putline's end: the line gets its handle. */
    method PutEnd(linebuf: seq<Byte>, ghost line: seq<Byte>, k: nat, off: nat, nl: nat, at: nat)
      returns (tl: nat, rest: int)
      requires line == Text(linebuf) && k == |line| < |linebuf| <= 512 && Putting(true, line, k, off, nl, at)
      modifies this`tline, this`lines, obuff
      ensures Valid() && tl == old(tline) && tl !in old(lines) && tline == old(tline) + Units(|line| + 1)
      ensures lines == old(lines)[tl := line] && BlockOf(2 * old(tline) + |line|) < MAXBLK
      ensures rest == if linebuf[|line|] == NL then |line| + 1 else -1
    {
      PutFits(line, off, nl, at);
      rest := if linebuf[k] == NL then k + 1 else -1;
      tl := Terminate(line, k, off, nl, at, linebuf[k]);
    }

    /**
     putline: store the text of the line buffer and return its handle; rest is where the text after
     a newline begins, or -1. It fails exactly when the line would end behind the last block, and then
     no line is lost.
     */
    method PutLine(linebuf: seq<Byte>) returns (ok: bool, tl: nat, rest: int)
      requires Valid() && |linebuf| <= 512 && |Text(linebuf)| < |linebuf|
      modifies this`disk, this`oblock, this`tline, this`lines, obuff
      ensures Valid()
      ensures ok <==> BlockOf(2 * old(tline) + |Text(linebuf)|) < MAXBLK
      ensures ok ==> tl == old(tline) && tl !in old(lines) && lines == old(lines)[tl := Text(linebuf)]
      ensures ok ==> tline == old(tline) + Units(|Text(linebuf)| + 1)
      ensures ok ==> rest == if linebuf[|Text(linebuf)|] == NL then |Text(linebuf)| + 1 else -1
      ensures !ok ==> lines == old(lines) && tline == old(tline)
    {
      ghost var line, t, was := Text(linebuf), tline, lines;
      tl, rest := 0, -1;
      var k, off, nl, at;
      ok, k, off, nl, at := PutText(linebuf, line);
      assert tline == t && lines == was;
      if ok {
        tl, rest := PutEnd(linebuf, line, k, off, nl, at);
      } else {
        PutFails(line, k, off, nl, at);
      }
    }
  }

  lemma OneMoreChar(part: seq<Byte>, text: seq<Byte>, c: Byte)
    requires part < text && c == text[|part|]
    ensures part + [c] <= text
  {
  }

  lemma BlockGrows(p: nat, q: nat)
    requires p <= q
    ensures BlockOf(p) <= BlockOf(q)
  {
    SplitPosition(p);
    SplitPosition(q);
  }
}
