/** Record conversion: lines to fixed-length records and back, with the output written in blocks. */
module Dd {
  import opened Bytes

  const NL: Byte := 10
  const SPACE: Byte := 32

  function Spaces(n: nat): (r: seq<Byte>)
    ensures |r| == n && forall i :: 0 <= i < n ==> r[i] == SPACE
  {
    seq(n, _ => SPACE)
  }

  function Flat(s: seq<seq<Byte>>): seq<Byte> {
    if s == [] then [] else Flat(s[..|s| - 1]) + s[|s| - 1]
  }

  lemma FlatAdd(s: seq<seq<Byte>>, r: seq<Byte>)
    ensures Flat(s + [r]) == Flat(s) + r
  {
    assert (s + [r])[..|s|] == s;
  }

  /** A line as a record: cut to cbs bytes or filled up with spaces. */
  function Record(line: seq<Byte>, cbs: nat): (r: seq<Byte>)
    ensures |r| == cbs
  {
    if |line| >= cbs then line[..cbs] else line + Spaces(cbs - |line|)
  }

  /** Without the spaces at the end. */
  function Trim(s: seq<Byte>): (r: seq<Byte>)
    ensures |r| <= |s| && r == s[..|r|] && forall i :: |r| <= i < |s| ==> s[i] == SPACE
    ensures r != [] ==> r[|r| - 1] != SPACE
  {
    if s == [] || s[|s| - 1] != SPACE then s else Trim(s[..|s| - 1])
  }

  lemma {:induction false} TrimSpaces(s: seq<Byte>, n: nat)
    ensures Trim(s + Spaces(n)) == Trim(s)
  {
    var all := s + Spaces(n);
    if n == 0 {
      assert all == s;
    } else {
      assert all[|all| - 1] == SPACE && all[..|all| - 1] == s + Spaces(n - 1);
      TrimSpaces(s, n - 1);
    }
  }

  lemma TrimNonSpace(s: seq<Byte>, c: Byte)
    requires c != SPACE
    ensures Trim(s + [c]) == s + [c]
  {
  }

  /** What spaces at the end there are. */
  lemma TrimRest(s: seq<Byte>)
    ensures s == Trim(s) + Spaces(|s| - |Trim(s)|)
  {
  }

  lemma TrimRecord(line: seq<Byte>, cbs: nat)
    ensures Trim(Record(line, cbs)) == Trim(if |line| >= cbs then line[..cbs] else line)
  {
    if |line| < cbs {
      TrimSpaces(line, cbs - |line|);
    }
  }

  /** Lines as records. */
  function Blocked(lines: seq<seq<Byte>>, cbs: nat): seq<Byte> {
    if lines == [] then [] else Blocked(lines[..|lines| - 1], cbs) + Record(lines[|lines| - 1], cbs)
  }

  /** Records as lines. */
  function Unblocked(records: seq<seq<Byte>>): seq<Byte> {
    if records == [] then [] else Unblocked(records[..|records| - 1]) + Trim(records[|records| - 1]) + [NL]
  }

  /** The lines as block and unblock together leave them: cut to cbs bytes, without spaces at the end. */
  function Shortened(lines: seq<seq<Byte>>, cbs: nat): seq<Byte> {
    if lines == [] then []
    else
      var line := lines[|lines| - 1];
      Shortened(lines[..|lines| - 1], cbs) + Trim(if |line| >= cbs then line[..cbs] else line) + [NL]
  }

  /** How many lines are longer than a record. */
  function TooLong(lines: seq<seq<Byte>>, cbs: nat): nat {
    if lines == [] then 0 else TooLong(lines[..|lines| - 1], cbs) + (if |lines[|lines| - 1]| > cbs then 1 else 0)
  }

  ghost predicate AreLines(lines: seq<seq<Byte>>) {
    forall i :: 0 <= i < |lines| ==> NL !in lines[i]
  }

  class Converter {
    const cbs: nat
    const obuf: array<Byte>
    var obc: nat
    var cbc: nat
    var nspace: nat
    var ntrunc: nat
    /** What has been written, write by write. */
    var writes: seq<seq<Byte>>
    var nofr: nat
    var nopr: nat

    /** Every write so far was of the full size and is counted as full, and the buffer is not full. */
    ghost predicate Valid()
      reads this`obc, this`writes, this`nofr, this`nopr
    {
      && obc < obuf.Length && nofr == |writes| && nopr == 0
      && forall i :: 0 <= i < |writes| ==> |writes[i]| == obuf.Length
    }

    /** The bytes converted so far. */
    ghost function Stream(): seq<Byte>
      reads this`obc, this`writes, obuf
      requires obc <= obuf.Length
    {
      Flat(writes) + obuf[..obc]
    }

    constructor (recordLength: nat, obs: nat)
      requires obs > 0
      ensures Valid() && Stream() == [] && cbs == recordLength && obuf.Length == obs && fresh(obuf)
      ensures cbc == nspace == ntrunc == nofr == nopr == 0
    {
      cbs, obuf := recordLength, new Byte[obs](_ => 0);
      obc, cbc, nspace, ntrunc, writes, nofr, nopr := 0, 0, 0, 0, [], 0, 0;
    }

    /** flsh: the buffer, as full as it is, to the output. */
    method Flsh()
      requires 0 <= obc <= obuf.Length
      modifies this`obc, this`writes, this`nofr, this`nopr
      ensures obc == 0 && Stream() == old(Stream())
      ensures writes == old(writes) + (if old(obc) > 0 then [old(obuf[..obc])] else [])
      ensures nofr == old(nofr) + (if 0 < old(obc) == obuf.Length then 1 else 0)
      ensures nopr == old(nopr) + (if 0 < old(obc) < obuf.Length then 1 else 0)
    {
      if obc > 0 {
        if obc == obuf.Length {
          nofr := nofr + 1;
        } else {
          nopr := nopr + 1;
        }
        FlatAdd(writes, obuf[..obc]);
        writes := writes + [obuf[..obc]];
        obc := 0;
      }
    }

    /**
     The end of the input: every write but the last has been of the full size. The records out are the
     writes: those of the full size, and one more if the last was smaller.
     */
    method Finish()
      requires Valid()
      modifies this`obc, this`writes, this`nofr, this`nopr
      ensures Flat(writes) == old(Stream()) && FullButLast(writes, obuf.Length)
      ensures nofr + nopr == |writes|
      ensures nopr == if writes != [] && |writes[|writes| - 1]| < obuf.Length then 1 else 0
    {
      Flsh();
      assert Flat(writes) + [] == Flat(writes);
    }

    /** null: one byte to the output, which is written when there are enough. */
    method Null(c: Byte)
      requires Valid()
      modifies this`obc, this`writes, this`nofr, this`nopr, obuf
      ensures Valid() && Stream() == old(Stream()) + [c]
    {
      obuf[obc] := c;
      obc := obc + 1;
      assert Stream() == old(Stream()) + [c];
      if obc >= obuf.Length {
        Flsh();
      }
    }

    method NullSpaces(n: nat)
      requires Valid()
      modifies this`obc, this`writes, this`nofr, this`nopr, obuf
      ensures Valid() && Stream() == old(Stream()) + Spaces(n)
    {
      var k := 0;
      while k < n
        invariant 0 <= k <= n && Valid() && Stream() == old(Stream()) + Spaces(k)
      {
        Null(SPACE);
        assert Spaces(k) + [SPACE] == Spaces(k + 1);
        k := k + 1;
      }
    }

    /** block, without conversion of case: one byte of a line, or its end. */
    method Block(cc: Byte)
      requires Valid()
      modifies this`obc, this`writes, this`nofr, this`nopr, this`cbc, this`ntrunc, obuf
      ensures Valid()
      ensures cbs == 0 ==> Stream() == old(Stream()) + [cc] && cbc == old(cbc) && ntrunc == old(ntrunc)
      ensures cbs > 0 && cc == NL ==>
        Stream() == old(Stream()) + Spaces(if old(cbc) < cbs then cbs - old(cbc) else 0) && cbc == 0
          && ntrunc == old(ntrunc)
      ensures cbs > 0 && cc != NL ==>
        && Stream() == old(Stream()) + (if old(cbc) < cbs then [cc] else []) && cbc == old(cbc) + 1
        && ntrunc == old(ntrunc) + (if old(cbc) == cbs then 1 else 0)
    {
      if cbs == 0 {
        Null(cc);
        return;
      }
      if cc == NL {
        if cbc < cbs {
          NullSpaces(cbs - cbc);
        } else {
          assert Stream() + Spaces(0) == Stream();
        }
        cbc := 0;
        return;
      }
      if cbc == cbs {
        ntrunc := ntrunc + 1;
      }
      cbc := cbc + 1;
      if cbc <= cbs {
        Null(cc);
      }
    }

    /** A whole line through block. */
    method BlockLine(line: seq<Byte>)
      requires Valid() && cbs > 0 && cbc == 0 && NL !in line
      modifies this`obc, this`writes, this`nofr, this`nopr, this`cbc, this`ntrunc, obuf
      ensures Valid() && cbc == 0 && Stream() == old(Stream()) + Record(line, cbs)
      ensures ntrunc == old(ntrunc) + (if |line| > cbs then 1 else 0)
    {
      var k := 0;
      while k < |line|
        invariant 0 <= k <= |line| && Valid() && cbc == k
        invariant Stream() == old(Stream()) + line[..if k < cbs then k else cbs]
        invariant ntrunc == old(ntrunc) + (if k > cbs then 1 else 0)
      {
        ghost var n := if k < cbs then k else cbs;
        Block(line[k]);
        assert k < cbs ==> line[..n] + [line[k]] == line[..n + 1];
        k := k + 1;
      }
      ghost var n := if k < cbs then k else cbs;
      Block(NL);
      assert line[..n] + Spaces(cbs - n) == Record(line, cbs);
    }

    /** Lines through block: each becomes a record, and each that is too long is counted once. */
    method BlockLines(lines: seq<seq<Byte>>)
      requires Valid() && cbs > 0 && cbc == 0 && AreLines(lines)
      modifies this`obc, this`writes, this`nofr, this`nopr, this`cbc, this`ntrunc, obuf
      ensures Valid() && cbc == 0 && Stream() == old(Stream()) + Blocked(lines, cbs)
      ensures ntrunc == old(ntrunc) + TooLong(lines, cbs)
    {
      var k := 0;
      while k < |lines|
        invariant 0 <= k <= |lines| && Valid() && cbc == 0
        invariant Stream() == old(Stream()) + Blocked(lines[..k], cbs)
        invariant ntrunc == old(ntrunc) + TooLong(lines[..k], cbs)
      {
        BlockLine(lines[k]);
        assert lines[..k + 1][..k] == lines[..k];
        k := k + 1;
      }
      assert lines[..k] == lines;
    }

    /** unblock's test for a space: it is held back, and any other byte brings out the spaces held back. */
    method HoldSpaces(cc: Byte)
      requires Valid()
      modifies this`obc, this`writes, this`nofr, this`nopr, this`nspace, obuf
      ensures Valid() && nspace == (if cc == SPACE then old(nspace) + 1 else 0)
      ensures Stream() == old(Stream()) + if cc == SPACE then [] else Spaces(old(nspace)) + [cc]
    {
      if cc == SPACE {
        nspace := nspace + 1;
      } else {
        NullSpaces(nspace);
        nspace := 0;
        Null(cc);
      }
    }

    /** unblock: one byte of a record. Spaces are held back until something follows them in the record. */
    method Unblock(cc: Byte)
      requires Valid()
      modifies this`obc, this`writes, this`nofr, this`nopr, this`cbc, this`nspace, obuf
      ensures Valid()
      ensures cbs == 0 ==> Stream() == old(Stream()) + [cc] && cbc == old(cbc) && nspace == old(nspace)
      ensures cbs > 0 ==>
        var text := if cc == SPACE then [] else Spaces(old(nspace)) + [cc];
        var end := old(cbc) + 1 >= cbs;
        && Stream() == old(Stream()) + text + (if end then [NL] else [])
        && cbc == (if end then 0 else old(cbc) + 1)
        && nspace == (if end then 0 else if cc == SPACE then old(nspace) + 1 else 0)
    {
      if cbs == 0 {
        Null(cc);
        return;
      }
      HoldSpaces(cc);
      cbc := cbc + 1;
      if cbc >= cbs {
        Null(NL);
        cbc := 0;
        nspace := 0;
      }
    }

    /** unblock with k bytes of a record seen: their trailing spaces are held back. */
    ghost predicate Holding(record: seq<Byte>, k: nat, start: seq<Byte>)
      reads this`obc, this`writes, this`nofr, this`nopr, this`cbc, this`nspace, obuf
    {
      && Valid() && 0 <= k < |record| == cbs && cbc == k
      && Stream() == start + Trim(record[..k]) && nspace == k - |Trim(record[..k])|
    }

    method UnblockTurn(record: seq<Byte>, k: nat, ghost start: seq<Byte>)
      requires Holding(record, k, start)
      modifies this`obc, this`writes, this`nofr, this`nopr, this`cbc, this`nspace, obuf
      ensures Valid()
      ensures if k + 1 < cbs then Holding(record, k + 1, start)
        else cbc == nspace == 0 && Stream() == start + Trim(record) + [NL]
    {
      ghost var text := if record[k] == SPACE then [] else Spaces(nspace) + [record[k]];
      Held(record, k);
      assert Trim(record[..k + 1]) == Trim(record[..k]) + text;
      Unblock(record[k]);
      assert k + 1 == cbs ==> record[..k + 1] == record;
      assert start + Trim(record[..k]) + text == start + Trim(record[..k + 1]);
    }

    /** A whole record through unblock: what is held back in the end is its trailing spaces. */
    method UnblockRecord(record: seq<Byte>)
      requires Valid() && cbs > 0 && cbc == nspace == 0 && |record| == cbs
      modifies this`obc, this`writes, this`nofr, this`nopr, this`cbc, this`nspace, obuf
      ensures Valid() && cbc == nspace == 0 && Stream() == old(Stream()) + Trim(record) + [NL]
    {
      ghost var start := Stream();
      var k := 0;
      while k < |record|
        invariant 0 <= k <= |record| && (k < |record| ==> Holding(record, k, start))
        invariant k == |record| ==> Valid() && cbc == nspace == 0 && Stream() == start + Trim(record) + [NL]
      {
        UnblockTurn(record, k, start);
        k := k + 1;
      }
    }

    /** Records through unblock. */
    method UnblockRecords(records: seq<seq<Byte>>)
      requires Valid() && cbs > 0 && cbc == nspace == 0 && forall i :: 0 <= i < |records| ==> |records[i]| == cbs
      modifies this`obc, this`writes, this`nofr, this`nopr, this`cbc, this`nspace, obuf
      ensures Valid() && cbc == nspace == 0 && Stream() == old(Stream()) + Unblocked(records)
    {
      var k := 0;
      while k < |records|
        invariant 0 <= k <= |records| && Valid() && cbc == nspace == 0
        invariant Stream() == old(Stream()) + Unblocked(records[..k])
      {
        UnblockedNext(old(Stream()), records, k);
        UnblockRecord(records[k]);
        k := k + 1;
      }
      assert records[..k] == records;
    }
  }

  lemma UnblockedNext(start: seq<Byte>, records: seq<seq<Byte>>, k: nat)
    requires k < |records|
    ensures start + Unblocked(records[..k]) + Trim(records[k]) + [NL] == start + Unblocked(records[..k + 1])
  {
    assert records[..k + 1][..k] == records[..k];
  }

  /** One byte more of a record: a space is held back, and anything else brings out the spaces held back. */
  lemma Held(record: seq<Byte>, k: nat)
    requires k < |record|
    ensures var t, t' := Trim(record[..k]), Trim(record[..k + 1]);
      if record[k] == SPACE then t' == t else t' == t + (Spaces(k - |t|) + [record[k]]) && |t'| == k + 1
  {
    var s := record[..k];
    assert record[..k + 1] == s + [record[k]];
    if record[k] == SPACE {
      assert [record[k]] == Spaces(1);
      TrimSpaces(s, 1);
    } else {
      TrimNonSpace(s, record[k]);
      TrimRest(s);
      assert s + [record[k]] == Trim(s) + (Spaces(k - |Trim(s)|) + [record[k]]);
    }
  }

  // ----- there and back -----

  function Records(lines: seq<seq<Byte>>, cbs: nat): (r: seq<seq<Byte>>)
    ensures |r| == |lines| && forall i :: 0 <= i < |r| ==> |r[i]| == cbs && r[i] == Record(lines[i], cbs)
  {
    seq(|lines|, i requires 0 <= i < |lines| => Record(lines[i], cbs))
  }

  lemma {:induction false} BlockedIsRecords(lines: seq<seq<Byte>>, cbs: nat)
    ensures Blocked(lines, cbs) == Flat(Records(lines, cbs))
  {
    if lines != [] {
      var k := |lines| - 1;
      assert Records(lines, cbs)[..k] == Records(lines[..k], cbs);
      BlockedIsRecords(lines[..k], cbs);
    }
  }

  /** unblock of block: each line is cut to the length of a record and loses its trailing spaces. */
  lemma {:induction false} UnblockOfBlock(lines: seq<seq<Byte>>, cbs: nat)
    ensures Unblocked(Records(lines, cbs)) == Shortened(lines, cbs)
  {
    if lines != [] {
      var k := |lines| - 1;
      assert Records(lines, cbs)[..k] == Records(lines[..k], cbs);
      UnblockOfBlock(lines[..k], cbs);
      TrimRecord(lines[k], cbs);
    }
  }

  /** The bytes of a stream of records, one record after the other. */
  method SplitRecords(bytes: seq<Byte>, cbs: nat, ghost records: seq<seq<Byte>>) returns (r: seq<seq<Byte>>)
    requires cbs > 0 && bytes == Flat(records) && forall i :: 0 <= i < |records| ==> |records[i]| == cbs
    ensures r == records
  {
    r := [];
    ghost var k := 0;
    var at := 0;
    assert records[..|records|] == records;
    while at < |bytes|
      invariant 0 <= k <= |records| && r == records[..k] && at == |Flat(records[..k])| <= |bytes|
      decreases |records| - k
    {
      FlatAt(records, cbs, k);
      r := r + [bytes[at..at + cbs]];
      at := at + cbs;
      k := k + 1;
    }
    if k < |records| {
      FlatAt(records, cbs, k);
    }
  }

  lemma {:induction false} FlatAt(records: seq<seq<Byte>>, cbs: nat, k: nat)
    requires k <= |records| && forall i :: 0 <= i < |records| ==> |records[i]| == cbs
    ensures |Flat(records[..k])| <= |Flat(records)| && (k == |records| ==> records[..k] == records)
    ensures k < |records| ==> var at := |Flat(records[..k])|;
      && at + cbs == |Flat(records[..k + 1])| <= |Flat(records)| && Flat(records)[at..at + cbs] == records[k]
    decreases |records|
  {
    if k == |records| {
      assert records[..k] == records;
    } else {
      var n := |records| - 1;
      var init := records[..n];
      assert init[..k] == records[..k];
      assert records[..k + 1][..k] == records[..k];
      if k < n {
        FlatAt(init, cbs, k);
        assert init[..k + 1] == records[..k + 1];
      } else {
        assert records[..k + 1] == records;
      }
    }
  }

  method RunBlock(lines: seq<seq<Byte>>, cbs: nat, obs: nat) returns (writes: seq<seq<Byte>>, ntrunc: nat)
    requires cbs > 0 && obs > 0 && AreLines(lines)
    ensures Flat(writes) == Blocked(lines, cbs) && FullButLast(writes, obs) && ntrunc == TooLong(lines, cbs)
  {
    var dd := new Converter(cbs, obs);
    dd.BlockLines(lines);
    dd.Finish();
    return dd.writes, dd.ntrunc;
  }

  method RunUnblock(records: seq<seq<Byte>>, cbs: nat, obs: nat) returns (writes: seq<seq<Byte>>)
    requires cbs > 0 && obs > 0 && forall i :: 0 <= i < |records| ==> |records[i]| == cbs
    ensures Flat(writes) == Unblocked(records) && FullButLast(writes, obs)
  {
    var dd := new Converter(cbs, obs);
    dd.UnblockRecords(records);
    dd.Finish();
    return dd.writes;
  }

  /**
   Lines are blocked by one dd and unblocked by another, whatever the sizes of their output blocks. Every write
   but the last is of the full size.
   */
  method BlockAndUnblock(lines: seq<seq<Byte>>, cbs: nat, obs1: nat, obs2: nat)
    returns (ntrunc: nat, writes1: seq<seq<Byte>>, writes2: seq<seq<Byte>>)
    requires cbs > 0 && obs1 > 0 && obs2 > 0 && AreLines(lines)
    ensures Flat(writes1) == Blocked(lines, cbs) && Flat(writes2) == Shortened(lines, cbs)
    ensures ntrunc == TooLong(lines, cbs)
    ensures FullButLast(writes1, obs1) && FullButLast(writes2, obs2)
  {
    writes1, ntrunc := RunBlock(lines, cbs, obs1);
    ghost var records := Records(lines, cbs);
    BlockedIsRecords(lines, cbs);
    var r := SplitRecords(Flat(writes1), cbs, records);
    writes2 := RunUnblock(r, cbs, obs2);
    UnblockOfBlock(lines, cbs);
  }

  ghost predicate FullButLast(writes: seq<seq<Byte>>, obs: nat) {
    && (forall i :: 0 <= i < |writes| - 1 ==> |writes[i]| == obs)
    && (writes != [] ==> 0 < |writes[|writes| - 1]| <= obs)
  }
}
