/**
 The editor's t command: the copies go through the line store to the
 end of the buffer and from there to their place.
 */
module EdCopy {
  import opened Bytes
  import opened TempStore
  import opened EdLines

  /** h is the handle, marked or not, of a stored line. */
  ghost predicate Stored(lines: map<nat, seq<Byte>>, h: int) {
    0 <= h < 65536 && h - h % 2 in lines
  }

  ghost function TextOf(lines: map<nat, seq<Byte>>, h: int): seq<Byte>
    requires Stored(lines, h)
  {
    lines[h - h % 2]
  }

  /** No line of the store is lost or changed. */
  ghost predicate Kept(was: map<nat, seq<Byte>>, now: map<nat, seq<Byte>>) {
    forall h :: h in was ==> h in now && now[h] == was[h]
  }

  /** The handle c, new in the store, is unmarked and has the text of h. */
  ghost predicate IsCopy(was: map<nat, seq<Byte>>, now: map<nat, seq<Byte>>, h: int, c: int) {
    && Stored(was, h) && Stored(now, c) && c % 2 == 0 && c !in was
    && TextOf(now, c) == TextOf(was, h)
  }

  /** Copies of lines lo, lo + 1, ... in order. */
  ghost predicate AreCopies(was: map<nat, seq<Byte>>, now: map<nat, seq<Byte>>, lines: seq<int>, lo: nat,
        copies: seq<int>)
    decreases |copies|
  {
    && 0 < lo && lo - 1 + |copies| <= |lines|
    && (copies != [] ==>
          var n := |copies| - 1;
          AreCopies(was, now, lines, lo, copies[..n]) && IsCopy(was, now, lines[lo - 1 + n], copies[n]))
  }

  /** Each copy is one of its line. */
  lemma {:induction false} CopyAt(was: map<nat, seq<Byte>>, now: map<nat, seq<Byte>>, lines: seq<int>, lo: nat,
        copies: seq<int>, k: nat)
    requires AreCopies(was, now, lines, lo, copies) && k < |copies|
    ensures IsCopy(was, now, lines[lo - 1 + k], copies[k])
    decreases |copies|
  {
    if k < |copies| - 1 {
      CopyAt(was, now, lines, lo, copies[..|copies| - 1], k);
    }
  }

  /** Storing more leaves the copies as they are. */
  lemma {:induction false} CopiesStay(was: map<nat, seq<Byte>>, mid: map<nat, seq<Byte>>, now: map<nat, seq<Byte>>,
        lines: seq<int>, lo: nat, copies: seq<int>)
    requires AreCopies(was, mid, lines, lo, copies) && Kept(mid, now)
    ensures AreCopies(was, now, lines, lo, copies)
    decreases |copies|
  {
    if copies != [] {
      CopiesStay(was, mid, now, lines, lo, copies[..|copies| - 1]);
    }
  }

  ghost predicate AllStored(store: map<nat, seq<Byte>>, lines: seq<int>) {
    forall k :: 0 <= k < |lines| ==> Stored(store, lines[k])
  }

  // ----- the room that copies take -----

  /** The next free handle once texts have been stored from handle t on. */
  function Free(texts: seq<seq<Byte>>, t: nat): (f: nat)
    ensures f >= t
    decreases |texts|
  {
    if texts == [] then t
    else Free(texts[..|texts| - 1], t) + Units(|texts[|texts| - 1]| + 1)
  }

  /** The last of the texts ends in a block that the file may have. */
  ghost predicate Room(texts: seq<seq<Byte>>, t: nat) {
    texts != [] ==> BlockOf(2 * Free(texts[..|texts| - 1], t) + |texts[|texts| - 1]|) < MAXBLK
  }

  /** Where there is room for the last of the texts there is room for those before. */
  lemma {:induction false} RoomBefore(texts: seq<seq<Byte>>, t: nat, i: nat)
    requires Room(texts, t) && i <= |texts|
    ensures Room(texts[..i], t)
    decreases |texts|
  {
    if i == |texts| {
      assert texts[..i] == texts;
    } else {
      var front := texts[..|texts| - 1];
      if front != [] {
        var n := |front| - 1;
        UnitsEnough(|front[n]| + 1);
        BlockGrows(2 * Free(front[..n], t) + |front[n]|, 2 * Free(front, t) + |texts[|texts| - 1]|);
      }
      RoomBefore(front, t, i);
      assert front[..i] == texts[..i];
    }
  }

  /** The texts of n lines of the buffer from line lo on. */
  ghost function Texts(was: map<nat, seq<Byte>>, lines: seq<int>, lo: nat, n: nat): (texts: seq<seq<Byte>>)
    requires AllStored(was, lines) && 0 < lo && lo - 1 + n <= |lines|
    ensures |texts| == n
  {
    seq(n, k requires 0 <= k < n => TextOf(was, lines[lo - 1 + k]))
  }

  lemma TextsNext(was: map<nat, seq<Byte>>, lines: seq<int>, lo: nat, n: nat, t: nat)
    requires AllStored(was, lines) && 0 < lo && lo + n <= |lines|
    ensures var (texts, text) := (Texts(was, lines, lo, n), TextOf(was, lines[lo - 1 + n]));
      && Free(Texts(was, lines, lo, n + 1), t) == Free(texts, t) + Units(|text| + 1)
      && (Room(Texts(was, lines, lo, n + 1), t) <==> BlockOf(2 * Free(texts, t) + |text|) < MAXBLK)
  {
    assert Texts(was, lines, lo, n + 1)[..n] == Texts(was, lines, lo, n);
  }

  /** When there is no room for the first lines, there is none for more. */
  lemma NoRoomForMore(was: map<nat, seq<Byte>>, lines: seq<int>, lo: nat, i: nat, n: nat, t: nat)
    requires AllStored(was, lines) && 0 < lo && i <= n && lo - 1 + n <= |lines|
    ensures !Room(Texts(was, lines, lo, i), t) ==> !Room(Texts(was, lines, lo, n), t)
  {
    assert Texts(was, lines, lo, n)[..i] == Texts(was, lines, lo, i);
    if Room(Texts(was, lines, lo, n), t) {
      RoomBefore(Texts(was, lines, lo, n), t, i);
    }
  }

  // ----- the copies -----

  /** The store holds the copies, from handle t on, and nothing has been lost. */
  ghost predicate Holding(was: map<nat, seq<Byte>>, now: map<nat, seq<Byte>>, tline: nat, t: nat, lines: seq<int>,
        lo: nat, copies: seq<int>)
  {
    && AllStored(was, lines) && Kept(was, now) && AreCopies(was, now, lines, lo, copies)
    && tline == Free(Texts(was, lines, lo, |copies|), t) && Room(Texts(was, lines, lo, |copies|), t)
  }

  lemma AreCopiesNext(was: map<nat, seq<Byte>>, mid: map<nat, seq<Byte>>, now: map<nat, seq<Byte>>, lines: seq<int>,
        lo: nat, copies: seq<int>, c: nat)
    requires AreCopies(was, mid, lines, lo, copies) && lo + |copies| <= |lines| && AllStored(was, lines)
    requires Kept(was, mid) && c !in mid && c % 2 == 0 && c < 65536
    requires now == mid[c := TextOf(was, lines[lo - 1 + |copies|])]
    ensures Kept(was, now) && AreCopies(was, now, lines, lo, copies + [c])
  {
    CopiesStay(was, mid, now, lines, lo, copies);
    assert (copies + [c])[..|copies|] == copies;
  }

  lemma HoldingNone(was: map<nat, seq<Byte>>, t: nat, lines: seq<int>, lo: nat)
    requires AllStored(was, lines) && 0 < lo <= |lines|
    ensures Holding(was, was, t, t, lines, lo, []) && lines + [] == lines
  {
  }

  /** One copy more. */
  lemma HoldingNext(was: map<nat, seq<Byte>>, mid: map<nat, seq<Byte>>, now: map<nat, seq<Byte>>, tline: nat,
        tline': nat, t: nat, lines: seq<int>, lo: nat, copies: seq<int>, c: nat)
    requires Holding(was, mid, tline, t, lines, lo, copies) && lo + |copies| <= |lines|
    requires c !in mid && c % 2 == 0 && c < 65536
    requires var text := TextOf(was, lines[lo - 1 + |copies|]);
      && now == mid[c := text] && tline' == tline + Units(|text| + 1) && BlockOf(2 * tline + |text|) < MAXBLK
    ensures Holding(was, now, tline', t, lines, lo, copies + [c])
  {
    var n := |copies|;
    AreCopiesNext(was, mid, now, lines, lo, copies, c);
    TextsNext(was, lines, lo, n, t);
    assert |copies + [c]| == n + 1;
  }

  /** The next line to copy has the text it had, and there is room for it or not. */
  lemma HoldingText(was: map<nat, seq<Byte>>, now: map<nat, seq<Byte>>, tline: nat, t: nat, lines: seq<int>, lo: nat,
        copies: seq<int>)
    requires Holding(was, now, tline, t, lines, lo, copies) && lo + |copies| <= |lines|
    ensures var h := lines[lo - 1 + |copies|];
      && Stored(was, h) && Stored(now, h) && TextOf(now, h) == TextOf(was, h)
      && (Room(Texts(was, lines, lo, |copies| + 1), t) <==> BlockOf(2 * tline + |TextOf(was, h)|) < MAXBLK)
  {
    TextsNext(was, lines, lo, |copies|, t);
  }

  /** Storing line lo + |copies| once more, or failing to, leaves the copies there was room for. */
  lemma HoldingAfter(was: map<nat, seq<Byte>>, mid: map<nat, seq<Byte>>, now: map<nat, seq<Byte>>, tline: nat,
        tline': nat, t: nat, lines: seq<int>, lo: nat, copies: seq<int>, ok: bool, c: nat)
    requires Holding(was, mid, tline, t, lines, lo, copies) && lo + |copies| <= |lines|
    requires Stored(mid, lines[lo - 1 + |copies|])
    requires ok ==> c !in mid && c % 2 == 0 && c < 65536
    requires var text := TextOf(mid, lines[lo - 1 + |copies|]);
      && (ok <==> BlockOf(2 * tline + |text|) < MAXBLK) && now == (if ok then mid[c := text] else mid)
      && tline' == tline + if ok then Units(|text| + 1) else 0
    ensures Holding(was, now, tline', t, lines, lo, if ok then copies + [c] else copies)
    ensures ok <==> Room(Texts(was, lines, lo, |copies| + 1), t)
  {
    HoldingText(was, mid, tline, t, lines, lo, copies);
    if ok {
      HoldingNext(was, mid, now, tline, tline', t, lines, lo, copies, c);
    }
  }

  /** getcopy and putline for one line: its text is stored again under a new handle. */
  method CopyText(store: Store, h: nat) returns (ok: bool, tl: nat)
    requires store.Valid() && Stored(store.lines, h)
    modifies store, store.ibuff, store.obuff
    ensures store.Valid()
    ensures ok ==> tl !in old(store.lines) && tl % 2 == 0 && tl < 65536
    ensures store.lines == if ok then old(store.lines)[tl := TextOf(old(store.lines), h)] else old(store.lines)
    ensures ok <==> BlockOf(2 * old(store.tline) + |TextOf(old(store.lines), h)|) < MAXBLK
    ensures store.tline == old(store.tline) + if ok then Units(|TextOf(old(store.lines), h)| + 1) else 0
  {
    var linebuf := store.GetLine(h);
    var rest;
    ok, tl, rest := store.PutLine(linebuf);
  }

  /** The same for line k of the buffer, with the new handle appended. */
  method CopyOne(ed: EdBuffer, store: Store, k: nat, ghost h: int) returns (ok: bool, tl: nat)
    requires ed.Valid() && store.Valid() && 0 < k <= ed.dol && ed.dot == ed.dol && ed.a[k] == h
    requires Stored(store.lines, h)
    modifies ed, ed.a, store, store.ibuff, store.obuff
    ensures ed.Valid() && store.Valid() && (ed.a == old(ed.a) || fresh(ed.a))
    ensures if ok then ed.dot == ed.dol && ed.Lines() == old(ed.Lines()) + [tl] else ed.Lines() == old(ed.Lines())
    ensures ok ==> tl !in old(store.lines) && tl % 2 == 0 && tl < 65536
    ensures store.lines == if ok then old(store.lines)[tl := TextOf(old(store.lines), h)] else old(store.lines)
    ensures ok <==> BlockOf(2 * old(store.tline) + |TextOf(old(store.lines), h)|) < MAXBLK
    ensures store.tline == old(store.tline) + if ok then Units(|TextOf(old(store.lines), h)| + 1) else 0
  {
    ok, tl := CopyText(store, ed.a[k]);
    if ok {
      ed.AddLine(tl);
    }
  }

  /** The copies made so far stand at the end of the buffer, and in the store from handle t on. */
  ghost predicate Copying(ed: EdBuffer, store: Store, was: map<nat, seq<Byte>>, t: nat, lines: seq<int>, lo: nat,
        copies: seq<int>)
    reads ed`a, ed`dol, ed.a, store, store.ibuff, store.obuff, store.t1, store.t2, store.t3
  {
    && ed.Valid() && store.Valid() && ed.Lines() == lines + copies
    && Holding(was, store.lines, store.tline, t, lines, lo, copies)
  }

  lemma LinesNext(lines: seq<int>, copies: seq<int>, c: int)
    ensures (lines + copies) + [c] == lines + (copies + [c])
  {
  }

  /** One turn of append with getcopy. */
  method CopyNext(ed: EdBuffer, store: Store, k: nat, ghost was: map<nat, seq<Byte>>, ghost t: nat,
        ghost lines: seq<int>, ghost lo: nat, ghost copies: seq<int>)
    returns (ok: bool, ghost copies': seq<int>)
    requires Copying(ed, store, was, t, lines, lo, copies) && k == lo + |copies| <= |lines| && ed.dot == ed.dol
    modifies ed, ed.a, store, store.ibuff, store.obuff
    ensures Copying(ed, store, was, t, lines, lo, copies') && (ed.a == old(ed.a) || fresh(ed.a))
    ensures AllStored(was, lines) && (ok <==> Room(Texts(was, lines, lo, |copies| + 1), t))
    ensures if ok then |copies'| == |copies| + 1 && ed.dot == ed.dol else copies' == copies
  {
    ghost var mid, tline, h := store.lines, store.tline, lines[k - 1];
    assert ed.a[k] == ed.Lines()[k - 1] == h;
    HoldingText(was, mid, tline, t, lines, lo, copies);
    var tl;
    ok, tl := CopyOne(ed, store, k, h);
    HoldingAfter(was, mid, store.lines, tline, store.tline, t, lines, lo, copies, ok, tl);
    copies' := if ok then copies + [tl] else copies;
    LinesNext(lines, copies, tl);
  }

  /** The loop of append with getcopy over the lines addr1 to addr2. */
  method CopyLines(ed: EdBuffer, store: Store, addr1: nat, addr2: nat, ghost was: map<nat, seq<Byte>>, ghost t: nat,
        ghost lines: seq<int>)
    returns (ok: bool, ghost copies: seq<int>)
    requires Copying(ed, store, was, t, lines, addr1, []) && addr1 <= addr2 <= |lines| && ed.dot == ed.dol
    modifies ed, ed.a, store, store.ibuff, store.obuff
    ensures Copying(ed, store, was, t, lines, addr1, copies) && (ed.a == old(ed.a) || fresh(ed.a))
    ensures if ok then |copies| == addr2 - addr1 + 1 && ed.dot == ed.dol
      else |copies| < addr2 - addr1 + 1 && AllStored(was, lines) && !Room(Texts(was, lines, addr1, |copies| + 1), t)
  {
    var k := addr1;
    ok, copies := true, [];
    while ok && k <= addr2
      invariant Copying(ed, store, was, t, lines, addr1, copies) && (ed.a == old(ed.a) || fresh(ed.a))
      invariant addr1 <= k == addr1 + |copies| <= addr2 + 1
      invariant if ok then ed.dot == ed.dol
        else k <= addr2 && AllStored(was, lines) && !Room(Texts(was, lines, addr1, |copies| + 1), t)
      decreases ok, addr2 + 1 - k
    {
      ok, copies := CopyNext(ed, store, k, was, t, lines, addr1, copies);
      if ok {
        k := k + 1;
      }
    }
  }

  /** All n copies were made, or there was no room for one of them. */
  lemma CopiesDone(ed: EdBuffer, store: Store, was: map<nat, seq<Byte>>, t: nat, lines: seq<int>, lo: nat,
        copies: seq<int>, n: nat, ok: bool)
    requires Copying(ed, store, was, t, lines, lo, copies) && lo - 1 + n <= |lines|
    requires if ok then |copies| == n else |copies| < n && !Room(Texts(was, lines, lo, |copies| + 1), t)
    ensures ed.Lines() == lines + copies && Holding(was, store.lines, store.tline, t, lines, lo, copies)
    ensures ok <==> Room(Texts(was, lines, lo, n), t)
  {
    if !ok {
      NoRoomForMore(was, lines, lo, |copies| + 1, n, t);
    }
  }

  /** The end of move with cflag, when all copies have been made. */
  method PutInPlace(ed: EdBuffer, dol: nat, adt: nat, ghost lines: seq<int>, ghost copies: seq<int>)
    requires ed.Valid() && ed.Lines() == lines + copies && |lines| == dol && copies != [] && adt <= dol
    modifies ed`dot, ed.a
    ensures ed.Valid() && ed.dot == adt + |copies| && ed.Lines() == InsertAfter(lines, adt, copies)
  {
    assert (lines + copies)[..dol] == lines && (lines + copies)[dol..] == copies;
    ed.PlaceCopies(dol, adt);
  }

  /** The end of move with cflag. */
  method EndCopy(ed: EdBuffer, store: Store, dol: nat, adt: nat, ok: bool, ghost was: map<nat, seq<Byte>>,
        ghost t: nat, ghost lines: seq<int>, ghost lo: nat, ghost copies: seq<int>, ghost n: nat)
    requires Copying(ed, store, was, t, lines, lo, copies) && lo - 1 + n <= |lines| == dol && adt <= dol && n > 0
    requires if ok then |copies| == n else |copies| < n && !Room(Texts(was, lines, lo, |copies| + 1), t)
    modifies ed`dot, ed.a
    ensures ed.Valid() && store.Valid() && Holding(was, store.lines, store.tline, t, lines, lo, copies)
    ensures ok <==> Room(Texts(was, lines, lo, n), t)
    ensures ok ==> ed.dot == adt + n && ed.Lines() == InsertAfter(lines, adt, copies)
    ensures !ok ==> ed.Lines() == lines + copies
  {
    CopiesDone(ed, store, was, t, lines, lo, copies, n, ok);
    if ok {
      PutInPlace(ed, dol, adt, lines, copies);
    }
  }

  /**
   move with cflag: the t command on lines addr1 to addr2 and target adt. It succeeds exactly when the
   last copy ends within the file. When the store is full the command breaks off, and the copies there
   was room for stay at the end of the buffer.
   */
  method Copy(ed: EdBuffer, store: Store, addr1: nat, addr2: nat, adt: nat) returns (ok: bool, ghost copies: seq<int>)
    requires ed.Valid() && store.Valid() && 0 < addr1 <= addr2 <= ed.dol && adt <= ed.dol
    requires AllStored(store.lines, ed.Lines())
    modifies ed, ed.a, store, store.ibuff, store.obuff
    ensures ed.Valid() && store.Valid()
    ensures Holding(old(store.lines), store.lines, store.tline, old(store.tline), old(ed.Lines()), addr1, copies)
    ensures ok <==> Room(Texts(old(store.lines), old(ed.Lines()), addr1, addr2 - addr1 + 1), old(store.tline))
    ensures ok ==> |copies| == addr2 - addr1 + 1 && ed.dot == adt + |copies|
    ensures ok ==> ed.Lines() == InsertAfter(old(ed.Lines()), adt, copies)
    ensures !ok ==> ed.Lines() == old(ed.Lines()) + copies && |copies| < addr2 - addr1 + 1
    ensures !ok ==> !Room(Texts(old(store.lines), old(ed.Lines()), addr1, |copies| + 1), old(store.tline))
  {
    ghost var lines, was, t := ed.Lines(), store.lines, store.tline;
    ghost var texts := Texts(was, lines, addr1, addr2 - addr1 + 1);
    var dol := ed.dol;
    ed.dot := dol;
    HoldingNone(was, t, lines, addr1);
    ok, copies := CopyLines(ed, store, addr1, addr2, was, t, lines);
    EndCopy(ed, store, dol, adt, ok, was, t, lines, addr1, copies, addr2 - addr1 + 1);
    assert ok <==> Room(texts, t);
  }

  // ----- a store that is full -----

  /** The longest line. */
  const LONGEST: nat := 511

  /** n of the longest lines. */
  lemma {:induction false} LongLines(texts: seq<seq<Byte>>, t: nat)
    requires forall k :: 0 <= k < |texts| ==> |texts[k]| == LONGEST
    ensures Free(texts, t) == t + 256 * |texts|
    decreases |texts|
  {
    if texts != [] {
      LongLines(texts[..|texts| - 1], t);
      assert Units(LONGEST + 1) == 256;
    }
  }

  /** A new store has room for exactly 254 of the longest lines. */
  lemma NewStoreHolds(texts: seq<seq<Byte>>)
    requires forall k :: 0 <= k < |texts| ==> |texts[k]| == LONGEST
    ensures Room(texts, 2) <==> |texts| <= 254
  {
    if texts != [] {
      LongLines(texts[..|texts| - 1], 2);
      PositionIs(2 * (2 + 256 * (|texts| - 1)) + LONGEST, |texts|, 3);
    }
  }

  /** A store and a buffer with i of the longest lines. */
  ghost predicate Filled(ed: EdBuffer, store: Store, line: seq<Byte>, i: nat)
    reads ed`a, ed`dol, ed`dot, ed.a, store, store.ibuff, store.obuff, store.t1, store.t2, store.t3
  {
    && ed.Valid() && store.Valid() && store.tline == 2 + 256 * i && |ed.Lines()| == ed.dot == i
    && AllStored(store.lines, ed.Lines()) && (i > 0 ==> TextOf(store.lines, ed.Lines()[0]) == line)
  }

  /** Appending one of the longest lines. */
  method AppendLong(ed: EdBuffer, store: Store, line: seq<Byte>, i: nat)
    requires Filled(ed, store, line, i) && i < 254 && |line| == LONGEST && Text(line + [0]) == line
    modifies ed, ed.a, store, store.ibuff, store.obuff
    ensures Filled(ed, store, line, i + 1) && (ed.a == old(ed.a) || fresh(ed.a))
  {
    ghost var lines := ed.Lines();
    PositionIs(2 * (2 + 256 * i) + LONGEST, i + 1, 3);
    assert Units(LONGEST + 1) == 256;
    var ok, tl, rest := store.PutLine(line + [0]);
    ed.AddLine(tl);
    assert ed.Lines() == lines + [tl];
  }

  /** A buffer of 254 of the longest lines fills the store: t on its first line fails and copies nothing. */
  method CopyWhenFull() returns (ok: bool, ghost copies: seq<int>)
    ensures !ok && copies == []
  {
    var line: seq<Byte> := seq(LONGEST, _ => 65);
    TextOfLine(line);
    var t := new Byte[256];
    var store := new Store(false, t, t, t);
    var ed := new EdBuffer();
    for i := 0 to 254
      invariant Filled(ed, store, line, i) && fresh(ed) && fresh(ed.a) && fresh(store)
      invariant fresh(store.ibuff) && fresh(store.obuff)
    {
      AppendLong(ed, store, line, i);
    }
    PositionIs(2 * (2 + 256 * 254) + LONGEST, 255, 3);
    TextsNext(store.lines, ed.Lines(), 1, 0, store.tline);
    ok, copies := Copy(ed, store, 1, 1, 254);
  }
}
