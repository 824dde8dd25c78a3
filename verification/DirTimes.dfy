/**
 The archiver's stack of directory times: the times of directories are set only when nothing more is extracted
 into them. One string, the directory extracted last, stands for the whole stack; each slash in it ends the
 path of one directory on the stack.
 */
module DirTimes {

  const NAMSIZ: nat := 100
  const NTIM: nat := NAMSIZ / 2 + 1

  /** A directory record of the tape; the empty name is the call at the end of the tape. */
  datatype Record = Record(name: string, time: int)

  /** A time set on a path. */
  datatype Applied = Applied(path: string, time: int)

  /** The name of a directory as it is on the tape: components ended by slashes, none of them empty. */
  ghost predicate IsDirectory(name: string) {
    && 0 < |name| < NAMSIZ && name[0] != '/' && name[|name| - 1] == '/'
    && forall i :: 0 < i < |name| && name[i] == '/' ==> name[i - 1] != '/'
  }

  /** One directory lies beneath another, or is the same. */
  predicate Beneath(name: string, dir: string) {
    dir <= name
  }

  /** The number of slashes. */
  function Depth(s: string): (n: nat)
    ensures n <= |s|
  {
    if s == [] then 0 else Depth(s[..|s| - 1]) + (if s[|s| - 1] == '/' then 1 else 0)
  }

  lemma DepthNext(s: string, i: nat)
    requires i < |s|
    ensures Depth(s[..i + 1]) == Depth(s[..i]) + (if s[i] == '/' then 1 else 0)
  {
    assert s[..i + 1][..i] == s[..i];
  }

  /** The depth of a directory is at most half the length of its name. */
  lemma {:induction false} DepthBound(s: string)
    requires s == [] || s[0] != '/'
    requires forall i :: 0 < i < |s| && s[i] == '/' ==> s[i - 1] != '/'
    ensures 2 * Depth(s) <= |s|
    ensures s != [] && s[|s| - 1] != '/' ==> 2 * Depth(s) <= |s| - 1
  {
    if |s| >= 2 && s[|s| - 1] == '/' {
      var t := s[..|s| - 1];
      assert t[|t| - 1] == s[|s| - 2] != '/';
      DepthBound(t);
    } else if s != [] {
      DepthBound(s[..|s| - 1]);
    }
  }

  lemma {:induction false} DepthMonotone(s: string, i: nat, j: nat)
    requires i <= j <= |s|
    ensures Depth(s[..i]) <= Depth(s[..j])
    decreases j
  {
    if i < j {
      DepthNext(s, j - 1);
      DepthMonotone(s, i, j - 1);
    }
  }

  // ----- the meaning of the stack -----

  /**
   The time still to be set on a directory after some records: that of its record, if all the records since are
   beneath it.
   */
  function Pending(records: seq<Record>, dir: string): int {
    if records == [] then -1
    else
      var k := |records| - 1;
      if records[k].name == dir then records[k].time
      else if Beneath(records[k].name, dir) then Pending(records[..k], dir)
      else -1
  }

  /** How far two strings agree. */
  function Common(d: string, q: string): (p: nat)
    ensures p <= |d| && p <= |q| && d[..p] == q[..p]
    ensures p < |d| && p < |q| ==> d[p] != q[p]
  {
    if d != [] && q != [] && d[0] == q[0] then
      var p := 1 + Common(d[1..], q[1..]);
      assert d[..p] == [d[0]] + d[1..][..p - 1] && q[..p] == [q[0]] + q[1..][..p - 1];
      p
    else 0
  }

  /** The time set on the directory of d that ends by place s, if one does and its time is to come. */
  function SetAt(records: seq<Record>, d: string, s: nat): seq<Applied>
    requires 0 < s <= |d|
  {
    if d[s - 1] == '/' && Pending(records, d[..s]) >= 0 then [Applied(d[..s - 1], Pending(records, d[..s]))] else []
  }

  /** The times set on the directories of d that end between places p and s, the outermost first. */
  function Unwound(records: seq<Record>, d: string, p: nat, s: nat): seq<Applied>
    requires s <= |d|
  {
    if s <= p then [] else Unwound(records, d, p, s - 1) + SetAt(records, d, s)
  }

  function LastName(records: seq<Record>): string {
    if records == [] then "" else records[|records| - 1].name
  }

  /** What the call for the next record, of this name, sets. */
  function Set(records: seq<Record>, name: string): seq<Applied> {
    var d := LastName(records);
    Unwound(records, d, Common(d, name), |d|)
  }

  lemma {:induction false} CommonIs(d: string, q: string, p: nat)
    requires p <= |d| && p <= |q| && d[..p] == q[..p] && (p < |d| && p < |q| ==> d[p] != q[p])
    ensures Common(d, q) == p
    decreases p
  {
    if p > 0 {
      assert d[0] == d[..p][0] == q[..p][0] == q[0];
      assert d[1..][..p - 1] == d[..p][1..] == q[..p][1..] == q[1..][..p - 1];
      CommonIs(d[1..], q[1..], p - 1);
    }
  }

  lemma {:induction false} CommonAtLeast(d: string, q: string, s: nat)
    requires s <= |d| && s <= |q| && d[..s] == q[..s]
    ensures s <= Common(d, q)
    decreases s
  {
    if s > 0 {
      assert d[0] == d[..s][0] == q[..s][0] == q[0];
      assert d[1..][..s - 1] == d[..s][1..] == q[..s][1..] == q[1..][..s - 1];
      CommonAtLeast(d[1..], q[1..], s - 1);
    }
  }

  // ----- the array of times -----

  /** When a slash ends at place s of d, the time of the directory that it ends is in the array. */
  ghost predicate TimeOf(m: seq<int>, records: seq<Record>, d: string, s: nat)
    requires 0 < s <= |d|
  {
    d[s - 1] == '/' ==> Depth(d[..s]) < |m| && m[Depth(d[..s])] == Pending(records, d[..s])
  }

  ghost predicate Times(m: seq<int>, records: seq<Record>, d: string, n: nat)
    requires n <= |d|
  {
    forall s :: 0 < s <= n ==> TimeOf(m, records, d, s)
  }

  /** The same for the directories above d that end by place n. */
  ghost predicate Parents(m: seq<int>, records: seq<Record>, d: string, n: nat)
    requires n <= |d|
  {
    forall s :: 0 < s <= n && s < |d| ==> TimeOf(m, records, d, s)
  }

  lemma DirectoryDepth(d: string, s: nat)
    requires IsDirectory(d) && s <= |d|
    ensures Depth(d[..s]) < NTIM
  {
    DepthBound(d[..s]);
  }

  /** A directory below these may get a time. */
  lemma ParentsKept(m: seq<int>, records: seq<Record>, d: string, n: nat, k: nat, v: int)
    requires n <= |d| && k < |m| && Parents(m, records, d, n) && Depth(d[..n]) < k
    ensures Parents(m[k := v], records, d, n)
  {
    var m' := m[k := v];
    forall s | 0 < s <= n && s < |d|
      ensures TimeOf(m', records, d, s)
    {
      assert TimeOf(m, records, d, s);
      DepthMonotone(d, s, n);
    }
  }

  /** The parents of the next directory that were on the stack still have their times to come. */
  lemma StillPending(m: seq<int>, records: seq<Record>, d: string, name: string, time: int, p: nat)
    requires d == LastName(records) && Times(m, records, d, |d|) && p <= |d| && p <= |name| && d[..p] == name[..p]
    ensures Parents(m, records + [Record(name, time)], name, p)
  {
    var now := records + [Record(name, time)];
    assert now[..|records|] == records;
    forall s | 0 < s <= p && s < |name|
      ensures TimeOf(m, now, name, s)
    {
      assert TimeOf(m, records, d, s);
      assert d[..s] == d[..p][..s] == name[..p][..s] == name[..s];
      assert d[s - 1] == d[..p][s - 1] == name[s - 1];
    }
  }

  /** The parent that ends at place p joins the stack, without a time. */
  lemma ParentAdded(m: seq<int>, records: seq<Record>, d: string, name: string, time: int, p: nat)
    requires d == LastName(records) && Common(d, name) < p <= |name| && name[p - 1] == '/' && Depth(name[..p]) < |m|
    requires Parents(m, records + [Record(name, time)], name, p - 1)
    ensures Parents(m[Depth(name[..p]) := -1], records + [Record(name, time)], name, p)
  {
    var now := records + [Record(name, time)];
    DepthNext(name, p - 1);
    ParentsKept(m, now, name, p - 1, Depth(name[..p]), -1);
    if p < |name| {
      NotPending(records, d, name, time, p);
    }
  }

  /** The new directory itself gets its time. */
  lemma DirectoryAdded(m: seq<int>, records: seq<Record>, name: string, time: int)
    requires IsDirectory(name) && |m| == NTIM && Parents(m, records + [Record(name, time)], name, |name|)
    ensures Depth(name) < NTIM && Times(m[Depth(name) := time], records + [Record(name, time)], name, |name|)
  {
    var now := records + [Record(name, time)];
    var n := |name| - 1;
    assert name[..n + 1] == name;
    DirectoryDepth(name, n + 1);
    DepthNext(name, n);
    ParentsKept(m, now, name, n, Depth(name), time);
    var m' := m[Depth(name) := time];
    forall s | 0 < s <= |name|
      ensures TimeOf(m', now, name, s)
    {
      if s == |name| {
        assert name[..s] == name;
      }
    }
  }

  /** A parent that was not on the stack has no time to come. */
  lemma NotPending(records: seq<Record>, d: string, name: string, time: int, s: nat)
    requires d == LastName(records) && Common(d, name) < s < |name|
    ensures Pending(records + [Record(name, time)], name[..s]) == -1
  {
    var now := records + [Record(name, time)];
    assert now[..|records|] == records;
    if name[..s] <= d {
      CommonAtLeast(d, name, s);
    }
  }

  class DirTimes {
    var dirstack: string
    const mtime: array<int>
    /** The times set so far. */
    ghost var log: seq<Applied>

    /** The string is the directory extracted last, and the times are those still to be set. */
    ghost predicate Valid(records: seq<Record>)
      reads this`dirstack, mtime
    {
      && mtime.Length == NTIM && dirstack == LastName(records) && (dirstack == "" || IsDirectory(dirstack))
      && Times(mtime[..], records, dirstack, |dirstack|)
    }

    constructor ()
      ensures Valid([]) && log == [] && fresh(mtime)
    {
      dirstack, mtime, log := "", new int[NTIM](_ => 0), [];
    }

    /**
     dodirtimes: the times of directories on the stack that the next one is not beneath are set; it goes on the stack
     instead, with those of its parents that were not there and have no time.
     */
    method DoDirTimes(name: string, time: int, ghost records: seq<Record>)
      requires Valid(records) && (name == "" || IsDirectory(name))
      modifies this, mtime
      ensures Valid(records + [Record(name, time)]) && log == old(log) + Set(records, name)
    {
      var p, ndir := CommonPrefix(name);
      Unwind(p, ndir, records);
      Push(p, ndir, name, time, records);
    }

    /** The loop over the common prefix, counting its slashes. */
    method CommonPrefix(name: string) returns (p: nat, ndir: nat)
      ensures p == Common(dirstack, name) && ndir == Depth(dirstack[..p])
    {
      p, ndir := 0, 0;
      while p < |dirstack| && p < |name| && dirstack[p] == name[p]
        invariant p <= |dirstack| && p <= |name| && dirstack[..p] == name[..p]
        invariant ndir == Depth(dirstack[..p])
      {
        DepthNext(dirstack, p);
        if dirstack[p] == '/' {
          ndir := ndir + 1;
        }
        p := p + 1;
      }
      CommonIs(dirstack, name, p);
    }

    /** The loop that sets the times of directories that are left. */
    method Unwind(p0: nat, ndir0: nat, ghost records: seq<Record>)
      requires Valid(records) && p0 <= |dirstack| && ndir0 == Depth(dirstack[..p0])
      modifies this`log
      ensures log == old(log) + Unwound(records, dirstack, p0, |dirstack|)
    {
      var p: nat, ndir: nat := p0, ndir0;
      while p < |dirstack|
        invariant p0 <= p <= |dirstack| && ndir == Depth(dirstack[..p])
        invariant log == old(log) + Unwound(records, dirstack, p0, p)
      {
        DepthNext(dirstack, p);
        p := p + 1;
        if dirstack[p - 1] == '/' {
          ndir := ndir + 1;
          DirectoryDepth(dirstack, p);
          assert TimeOf(mtime[..], records, dirstack, p);
          if mtime[ndir] >= 0 {
            log := log + [Applied(dirstack[..p - 1], mtime[ndir])];
          }
        }
      }
    }

    /** The loop that puts the rest of the new directory on the stack. */
    method Push(p0: nat, ndir0: nat, name: string, time: int, ghost records: seq<Record>)
      requires Valid(records) && (name == "" || IsDirectory(name))
      requires p0 == Common(dirstack, name) && ndir0 == Depth(dirstack[..p0])
      modifies this`dirstack, mtime
      ensures Valid(records + [Record(name, time)])
    {
      var p: nat, ndir: nat := p0, ndir0;
      StillPending(mtime[..], records, dirstack, name, time, p0);
      while p < |name|
        invariant Pushing(p0, p, ndir, name, time, records)
        decreases |name| - p
      {
        ndir := PushOne(p0, p, ndir, name, time, records);
        p := p + 1;
      }
      assert name[..|name|] == name;
      Top(p0, ndir, name, time, records);
    }

    /** The new directory is on the stack up to place p of its name. */
    ghost predicate Pushing(p0: nat, p: nat, ndir: nat, name: string, time: int, records: seq<Record>)
      reads this`dirstack, mtime
    {
      && p0 <= p <= |name| && ndir == Depth(name[..p]) && mtime.Length == NTIM
      && dirstack == LastName(records) && p0 == Common(dirstack, name)
      && Parents(mtime[..], records + [Record(name, time)], name, p)
    }

    method PushOne(ghost p0: nat, p: nat, ndir: nat, name: string, ghost time: int, ghost records: seq<Record>)
      returns (ndir': nat)
      requires Pushing(p0, p, ndir, name, time, records) && p < |name| && IsDirectory(name)
      modifies mtime
      ensures Pushing(p0, p + 1, ndir', name, time, records)
    {
      DepthNext(name, p);
      ndir' := ndir;
      if name[p] == '/' {
        ghost var was := mtime[..];
        ndir' := ndir + 1;
        DirectoryDepth(name, p + 1);
        ParentAdded(was, records, dirstack, name, time, p + 1);
        mtime[ndir'] := -1;
        assert mtime[..] == was[ndir' := -1];
      }
    }

    /** The end of dodirtimes: the time of the directory itself. */
    method Top(p0: nat, ndir: nat, name: string, time: int, ghost records: seq<Record>)
      requires mtime.Length == NTIM && (name == "" || IsDirectory(name)) && p0 <= |dirstack|
      requires p0 <= |name| && dirstack[..p0] == name[..p0]
      requires ndir == Depth(name) && Parents(mtime[..], records + [Record(name, time)], name, |name|)
      modifies this`dirstack, mtime
      ensures Valid(records + [Record(name, time)])
    {
      dirstack := dirstack[..p0] + name[p0..];
      ghost var was := mtime[..];
      if name != "" {
        DirectoryAdded(was, records, name, time);
      }
      mtime[ndir] := time;
      assert mtime[..] == was[ndir := time];
    }

    /** The directories of a tape one after the other, and the call at its end. */
    method Extract(tape: seq<Record>, time: int)
      requires Valid([]) && log == [] && forall i :: 0 <= i < |tape| ==> IsDirectory(tape[i].name)
      modifies this, mtime
      ensures log == AllSet(tape + [Record("", time)])
    {
      var i := 0;
      while i < |tape|
        invariant 0 <= i <= |tape| && Done(tape[..i])
      {
        assert tape[..i + 1] == tape[..i] + [tape[i]];
        Call(tape[i], tape[..i]);
        i := i + 1;
      }
      assert tape[..i] == tape;
      Call(Record("", time), tape);
    }

    /** The calls for these records have set what they are to set. */
    ghost predicate Done(records: seq<Record>)
      reads this, mtime
    {
      Valid(records) && log == AllSet(records)
    }

    method Call(record: Record, ghost records: seq<Record>)
      requires Done(records) && (record.name == "" || IsDirectory(record.name))
      modifies this, mtime
      ensures Done(records + [record])
    {
      DoDirTimes(record.name, record.time, records);
      AllSetAdd(records, record);
    }
  }

  // ----- whole tapes -----

  /** Everything set in the course of these calls. */
  function AllSet(records: seq<Record>): seq<Applied> {
    if records == [] then []
    else
      var k := |records| - 1;
      AllSet(records[..k]) + Set(records[..k], records[k].name)
  }

  lemma AllSetAdd(records: seq<Record>, r: Record)
    ensures AllSet(records + [r]) == AllSet(records) + Set(records, r.name)
  {
    assert (records + [r])[..|records|] == records;
  }

  /** All the records between i and j are beneath directory i. */
  ghost predicate AllBeneath(records: seq<Record>, i: nat, j: nat)
    requires i < j <= |records|
  {
    forall k :: i < k < j ==> Beneath(records[k].name, records[i].name)
  }

  /** Call j is the first after record i that is not for something beneath it. */
  ghost predicate Leaves(records: seq<Record>, i: nat, j: nat) {
    i < j < |records| && AllBeneath(records, i, j) && !Beneath(records[j].name, records[i].name)
  }

  /** No directory has two records. */
  ghost predicate Proper(records: seq<Record>) {
    forall i, j :: 0 <= i < j < |records| ==> records[i].name != records[j].name
  }

  /** The records of a tape, and the call at its end. */
  ghost predicate WholeTape(records: seq<Record>) {
    && Proper(records) && records != [] && records[|records| - 1].name == ""
    && forall i :: 0 <= i < |records| - 1 ==> IsDirectory(records[i].name) && records[i].time >= 0
  }

  /** The time of a record, to be set on its directory. */
  function TimeOn(record: Record): Applied {
    Applied(if record.name == "" then "" else record.name[..|record.name| - 1], record.time)
  }

  /** Between two records beneath a directory there is none that is not. */
  ghost predicate PreOrder(records: seq<Record>) {
    forall i, k, j :: 0 <= i < k < j < |records| && Beneath(records[j].name, records[i].name) ==>
      Beneath(records[k].name, records[i].name)
  }

  lemma {:induction false} PendingRecord(records: seq<Record>, i: nat, j: nat)
    requires Proper(records) && i < j <= |records| && AllBeneath(records, i, j)
    ensures Pending(records[..j], records[i].name) == records[i].time
    decreases j
  {
    var now := records[..j];
    assert now[..j - 1] == records[..j - 1] && now[j - 1] == records[j - 1];
    if j - 1 > i {
      PendingRecord(records, i, j - 1);
    }
  }

  lemma {:induction false} RecordPending(records: seq<Record>, dir: string, j: nat) returns (i: nat)
    requires j <= |records| && Pending(records[..j], dir) >= 0
    ensures i < j && records[i].name == dir && records[i].time == Pending(records[..j], dir)
    ensures AllBeneath(records, i, j)
    decreases j
  {
    var now := records[..j];
    assert j > 0 && now[..j - 1] == records[..j - 1] && now[j - 1] == records[j - 1];
    if records[j - 1].name == dir {
      i := j - 1;
    } else {
      i := RecordPending(records, dir, j - 1);
    }
  }

  /** Each path is longer than the one before, and none is as long as s. */
  ghost predicate Longer(u: seq<Applied>, s: nat) {
    && (forall a, b :: 0 <= a < b < |u| ==> |u[a].path| < |u[b].path|)
    && (forall a :: 0 <= a < |u| ==> |u[a].path| < s)
  }

  /** What is set is set once, each on a longer path than the one before. */
  lemma {:induction false} UnwoundHas(records: seq<Record>, d: string, p: nat, s: nat)
    requires s <= |d|
    ensures Longer(Unwound(records, d, p, s), s)
  {
    if s > p {
      UnwoundHas(records, d, p, s - 1);
      assert Unwound(records, d, p, s) == Unwound(records, d, p, s - 1) + SetAt(records, d, s);
      assert SetAt(records, d, s) != [] ==> |SetAt(records, d, s)[0].path| == s - 1;
    }
  }

  lemma {:induction false} UnwoundEntry(records: seq<Record>, d: string, p: nat, s: nat, e: Applied)
    requires s <= |d|
    ensures e in Unwound(records, d, p, s) <==>
      var n := |e.path| + 1;
      p < n <= s && e.path == d[..n - 1] && d[n - 1] == '/' && e.time == Pending(records, d[..n]) >= 0
  {
    if s > p {
      UnwoundEntry(records, d, p, s - 1, e);
    }
  }

  lemma CommonPrefixes(d: string, q: string, s: nat)
    requires s <= |d|
    ensures s <= Common(d, q) <==> d[..s] <= q
  {
    var c := Common(d, q);
    if s <= c {
      assert d[..s] == d[..c][..s] == q[..c][..s] == q[..s];
    }
    if d[..s] <= q {
      CommonAtLeast(d, q, s);
    }
  }

  /** Directory i's time is set by call j exactly when that is the call that leaves it. */
  lemma SetWhenLeft(records: seq<Record>, i: nat, j: nat)
    requires Proper(records) && i < |records| && j < |records| && IsDirectory(records[i].name) && records[i].time >= 0
    ensures TimeOn(records[i]) in Set(records[..j], records[j].name) <==> Leaves(records, i, j)
  {
    var name := records[i].name;
    var n := |name|;
    var e := TimeOn(records[i]);
    var before, d := records[..j], LastName(records[..j]);
    var p := Common(d, records[j].name);
    UnwoundEntry(before, d, p, |d|, e);
    if e in Set(before, records[j].name) {
      assert d[..n] == name;
      var k := RecordPending(records, name, j);
      assert k == i;
      CommonPrefixes(d, records[j].name, n);
    }
    if Leaves(records, i, j) {
      PendingRecord(records, i, j);
      assert before[j - 1] == records[j - 1];
      assert name <= d;
      assert d[..n] == name && d[n - 1] == name[n - 1] && d[..n - 1] == name[..n - 1];
      CommonPrefixes(d, records[j].name, n);
    }
  }

  /** Every time that is set is that of a record, set on the directory of that record. */
  lemma SetFromRecord(records: seq<Record>, j: nat, e: Applied) returns (i: nat)
    requires j < |records| && e in Set(records[..j], records[j].name)
    ensures i < j && records[i].name == e.path + "/" && records[i].time == e.time
  {
    var before, d := records[..j], LastName(records[..j]);
    UnwoundEntry(before, d, Common(d, records[j].name), |d|, e);
    var n := |e.path| + 1;
    assert d[..n] == e.path + "/";
    i := RecordPending(records, d[..n], j);
  }

  lemma {:induction false} SomeCallLeaves(records: seq<Record>, i: nat, j: nat) returns (k: nat)
    requires i < j < |records| && AllBeneath(records, i, j)
    requires !Beneath(records[|records| - 1].name, records[i].name)
    ensures Leaves(records, i, k)
    decreases |records| - j
  {
    if Beneath(records[j].name, records[i].name) {
      k := SomeCallLeaves(records, i, j + 1);
    } else {
      k := j;
    }
  }

  /** A call sets no time twice. */
  lemma SetDistinct(records: seq<Record>, name: string, a: nat, b: nat)
    requires a < |Set(records, name)| && b < |Set(records, name)| && a != b
    ensures Set(records, name)[a] != Set(records, name)[b]
  {
    var d := LastName(records);
    UnwoundHas(records, d, Common(d, name), |d|);
    var u := Unwound(records, d, Common(d, name), |d|);
    assert u == Set(records, name);
    assert a < b ==> |u[a].path| < |u[b].path|;
    assert b < a ==> |u[b].path| < |u[a].path|;
  }

  /**
   On a whole tape each directory's time is set by exactly one call, and once by that; on a tape in order
   nothing beneath the directory comes after that call.
   */
  lemma EachTimeSetOnce(records: seq<Record>, i: nat) returns (j: nat, a: nat)
    requires WholeTape(records) && i < |records| - 1
    ensures i < j < |records| && a < |Set(records[..j], records[j].name)|
    ensures Set(records[..j], records[j].name)[a] == TimeOn(records[i])
    ensures forall b :: 0 <= b < |Set(records[..j], records[j].name)| && b != a ==>
      Set(records[..j], records[j].name)[b] != TimeOn(records[i])
    ensures forall k :: 0 <= k < |records| && k != j ==> TimeOn(records[i]) !in Set(records[..k], records[k].name)
    ensures PreOrder(records) ==> forall k :: j <= k < |records| ==> !Beneath(records[k].name, records[i].name)
  {
    j := SomeCallLeaves(records, i, i + 1);
    SetWhenLeft(records, i, j);
    var e, u := TimeOn(records[i]), Set(records[..j], records[j].name);
    a :| 0 <= a < |u| && u[a] == e;
    forall b | 0 <= b < |u| && b != a
      ensures u[b] != e
    {
      SetDistinct(records[..j], records[j].name, a, b);
    }
    forall k | 0 <= k < |records| && k != j
      ensures e !in Set(records[..k], records[k].name)
    {
      SetWhenLeft(records, i, k);
      assert k > j ==> !Beneath(records[j].name, records[i].name);
      assert i < k < j ==> Beneath(records[k].name, records[i].name);
    }
  }
}
