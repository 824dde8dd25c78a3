/** The editor's matcher: it runs compiled code over the line buffer and backtracks over the stars. */
module Matching {
  import opened Patterns

  /** What compile sees to, besides the form of the code: see Compiling. References back are not matched here. */
  ghost predicate Fits(node: Node) {
    match node
    case Once(item) => item.Char? ==> item.c != 0
    case Many(item) => item.Char? ==> item.c != 0
    case End => true
    case Open(n) => n < NBRA
    case Close(n) => n < NBRA
    case Back(_) => false
    case BackMany(_) => false
  }

  /** No group is opened or closed twice. */
  ghost predicate Sound(nodes: seq<Node>) {
    && (forall i :: 0 <= i < |nodes| ==> Fits(nodes[i]))
    && (forall i, j :: 0 <= i < j < |nodes| ==> nodes[i] == nodes[j] ==> !nodes[i].Open? && !nodes[i].Close?)
  }

  /** The registers hold the bounds of the groups as the path has them. */
  ghost predicate Recorded(nodes: seq<Node>, ps: seq<nat>, bras: seq<int>, kets: seq<int>) {
    forall i :: 0 <= i < |nodes| && i < |ps| ==>
      (nodes[i].Open? ==> nodes[i].n < |bras| && bras[nodes[i].n] == ps[i]) &&
      (nodes[i].Close? ==> nodes[i].n < |kets| && kets[nodes[i].n] == ps[i])
  }

  /** Registers of groups that are no part of the pattern are as they were. */
  ghost predicate Spared(nodes: seq<Node>, bras0: seq<int>, kets0: seq<int>, bras: seq<int>, kets: seq<int>) {
    && |bras| == |bras0| && |kets| == |kets0|
    && (forall n :: 0 <= n < |bras| && Node.Open(n) !in nodes ==> bras[n] == bras0[n])
    && (forall n :: 0 <= n < |kets| && Node.Close(n) !in nodes ==> kets[n] == kets0[n])
  }

  lemma SparedNone(nodes: seq<Node>, bras: seq<int>, kets: seq<int>)
    ensures Spared(nodes, bras, kets, bras, kets)
  {
  }

  lemma SparedTransitive(nodes: seq<Node>, bras0: seq<int>, kets0: seq<int>, bras1: seq<int>, kets1: seq<int>,
        bras2: seq<int>, kets2: seq<int>)
    requires Spared(nodes, bras0, kets0, bras1, kets1) && Spared(nodes, bras1, kets1, bras2, kets2)
    ensures Spared(nodes, bras0, kets0, bras2, kets2)
  {
  }

  lemma SoundRest(nodes: seq<Node>)
    requires Sound(nodes) && nodes != []
    ensures Sound(nodes[1..])
  {
  }

  /** What some of the parts leave alone too stays spared. */
  lemma SparedOn(nodes: seq<Node>, some: seq<Node>, bras0: seq<int>, kets0: seq<int>, bras1: seq<int>, kets1: seq<int>,
        bras2: seq<int>, kets2: seq<int>)
    requires Spared(nodes, bras0, kets0, bras1, kets1) && Spared(some, bras1, kets1, bras2, kets2)
    requires forall node :: node in some ==> node in nodes
    ensures Spared(nodes, bras0, kets0, bras2, kets2)
  {
  }

  /** One part more has been walked through, from lp to q. */
  lemma WalkOn(line: seq<int>, nodes: seq<Node>, lp0: nat, walked: seq<nat>, lp: nat, q: nat)
    requires lp0 <= |line| && lp <= |line| && |walked| < |nodes| && !nodes[|walked|].Many?
    requires Best(line, nodes, lp0) == Then(walked, Best(line, nodes[|walked|..], lp))
    requires Move(line, nodes[|walked|], lp) == Option.Some(q)
    ensures nodes[|walked|..][1..] == nodes[|walked| + 1..]
    ensures Best(line, nodes, lp0) == Then(walked + [lp], Best(line, nodes[|walked| + 1..], q))
  {
    var rest := nodes[|walked|..];
    assert rest[1..] == nodes[|walked| + 1..];
    var ps := Best(line, rest[1..], q);
    assert ps.Some? ==> walked + ([lp] + ps.value) == walked + [lp] + ps.value;
  }

  lemma RecordOn(nodes: seq<Node>, walked: seq<nat>, lp: nat, bras: seq<int>, kets: seq<int>, bras': seq<int>,
        kets': seq<int>)
    requires Sound(nodes) && |walked| < |nodes| && Recorded(nodes, walked, bras, kets) && |bras| == |kets| == NBRA
    requires var node := nodes[|walked|];
      && bras' == (if node.Open? then bras[node.n := lp] else bras)
      && kets' == (if node.Close? then kets[node.n := lp] else kets)
    ensures Recorded(nodes, walked + [lp], bras', kets')
  {
    forall i | 0 <= i < |walked|
      ensures nodes[i].Open? ==> bras'[nodes[i].n] == walked[i]
      ensures nodes[i].Close? ==> kets'[nodes[i].n] == walked[i]
    {
      assert nodes[i] == nodes[|walked|] ==> !nodes[i].Open? && !nodes[i].Close?;
    }
  }

  /** The rest of the pattern has matched along ps: what was recorded before still is. */
  lemma RecordRest(nodes: seq<Node>, walked: seq<nat>, ps: seq<nat>, bras: seq<int>, kets: seq<int>, bras': seq<int>,
        kets': seq<int>)
    requires Sound(nodes) && |walked| <= |nodes| && Recorded(nodes, walked, bras, kets)
    requires Spared(nodes[|walked|..], bras, kets, bras', kets') && Recorded(nodes[|walked|..], ps, bras', kets')
    ensures Recorded(nodes, walked + ps, bras', kets')
  {
    var all, rest := walked + ps, nodes[|walked|..];
    forall i | 0 <= i < |nodes| && i < |all|
      ensures nodes[i].Open? ==> nodes[i].n < |bras'| && bras'[nodes[i].n] == all[i]
      ensures nodes[i].Close? ==> nodes[i].n < |kets'| && kets'[nodes[i].n] == all[i]
    {
      if i < |walked| {
        assert nodes[i] in rest ==> exists j :: i < j < |nodes| && nodes[i] == nodes[j];
      } else {
        assert nodes[i] == rest[i - |walked|];
      }
    }
  }

  /** The answer of the matcher for a pattern at a place: whether it matches there, and if so its end and its groups. */
  ghost predicate Answer(line: seq<int>, nodes: seq<Node>, p: nat, ok: bool, end: int, bras: seq<int>, kets: seq<int>)
    requires p <= |line|
  {
    var best := Best(line, nodes, p);
    && (ok <==> best.Some?)
    && (ok ==> end == best.value[|nodes|] && Recorded(nodes, best.value, bras, kets))
  }

  /** The answer for the rest of the pattern is the answer for the whole. */
  lemma Conclude(line: seq<int>, nodes: seq<Node>, lp0: nat, walked: seq<nat>, lp: nat, ok: bool, end: int,
        bras0: seq<int>, kets0: seq<int>, bras: seq<int>, kets: seq<int>, bras': seq<int>, kets': seq<int>)
    requires lp0 <= |line| && lp <= |line| && |walked| <= |nodes| && Sound(nodes)
    requires Best(line, nodes, lp0) == Then(walked, Best(line, nodes[|walked|..], lp))
    requires Recorded(nodes, walked, bras, kets)
    requires Spared(nodes, bras0, kets0, bras, kets) && Spared(nodes[|walked|..], bras, kets, bras', kets')
    requires Answer(line, nodes[|walked|..], lp, ok, end, bras', kets')
    ensures Answer(line, nodes, lp0, ok, end, bras', kets') && Spared(nodes, bras0, kets0, bras', kets')
  {
    assert forall n :: n !in nodes ==> n !in nodes[|walked|..];
    if ok {
      RecordRest(nodes, walked, Best(line, nodes[|walked|..], lp).value, bras, kets, bras', kets');
    }
  }

  lemma NothingWalked(line: seq<int>, nodes: seq<Node>, p: nat)
    requires p <= |line|
    ensures Best(line, nodes, p) == Then([], Best(line, nodes[0..], p))
  {
    assert nodes[0..] == nodes;
    var best := Best(line, nodes, p);
    assert best.Some? ==> [] + best.value == best.value;
  }

  /** A star that ends at lp, and the answer for what follows it there. */
  lemma StarFound(line: seq<int>, nodes: seq<Node>, curlp: nat, lp: nat, end: int, bras: seq<int>, kets: seq<int>)
    requires curlp <= lp <= |line| && nodes != [] && nodes[0].Many?
    requires Best(line, nodes, curlp) == BestFrom(line, nodes, curlp, lp)
    requires Answer(line, nodes[1..], lp, true, end, bras, kets)
    ensures Answer(line, nodes, curlp, true, end, bras, kets)
  {
    var ps := Best(line, nodes[1..], lp).value;
    var all := [curlp] + ps;
    forall i | 0 <= i < |nodes| && i < |all|
      ensures nodes[i].Open? ==> nodes[i].n < |bras| && bras[nodes[i].n] == all[i]
      ensures nodes[i].Close? ==> nodes[i].n < |kets| && kets[nodes[i].n] == all[i]
    {
      if i > 0 {
        assert nodes[i] == nodes[1..][i - 1];
      }
    }
  }

  /** The null pointer among places of the line buffer. */
  const NULL: int := -1

  /** The pattern matches at start, which is the only place to look at when it begins with ^. */
  ghost predicate Finds(line: seq<int>, nodes: seq<Node>, circ: bool, start: nat) {
    start <= |line| && (circ ==> start == 0) && MatchesAt(line, nodes, start)
  }

  ghost predicate MatchesSomewhere(line: seq<int>, nodes: seq<Node>, circ: bool) {
    exists start: nat :: Finds(line, nodes, circ, start)
  }

  /** A pattern that begins with a plain character matches only where that character is. */
  lemma FirstCharacter(line: seq<int>, nodes: seq<Node>, p: nat)
    requires p <= |line| && nodes != [] && nodes[0].Once? && nodes[0].item.Char? && nodes[0].item.c != 0
    requires (if p < |line| then line[p] else 0) != nodes[0].item.c
    ensures Best(line, nodes, p).None?
  {
  }

  class Matcher {
    const expbuf: array<int>
    const braslist: array<int>
    const braelist: array<int>
    var linebuf: seq<int>
    var loc1: int
    var loc2: int
    /** Set for a pattern that begins with ^. */
    var circfl: bool
    var nbra: nat

    ghost predicate Valid()
      reads this`linebuf
    {
      && expbuf.Length == ESIZE + 4 && braslist.Length == braelist.Length == NBRA
      && expbuf != braslist && expbuf != braelist && braslist != braelist
      && 0 !in linebuf
    }

    constructor ()
      ensures Valid() && expbuf[0] == 0 && fresh(expbuf) && fresh(braslist) && fresh(braelist)
    {
      expbuf := new int[ESIZE + 4](_ => 0);
      braslist := new int[NBRA](_ => 0);
      braelist := new int[NBRA](_ => 0);
      linebuf, loc1, loc2, circfl, nbra := [], NULL, NULL, false, 0;
    }

    /** The character at a place of the line buffer: behind the line stands the terminator. */
    function At(p: nat): int
      reads this`linebuf
    {
      if p < |linebuf| then linebuf[p] else 0
    }

    /** cclass: whether c counts, against the characters of the class at cls. */
    method CClass(cls: nat, c: int, af: bool) returns (r: bool)
      requires cls < expbuf.Length && 1 <= expbuf[cls] && cls + expbuf[cls] <= expbuf.Length
      ensures r == (c != 0 && (c in expbuf[cls + 1..cls + expbuf[cls]]) == af)
    {
      if c == 0 {
        return false;
      }
      var n, s := expbuf[cls] - 1, cls + 1;
      while n != 0
        invariant n >= 0 && s + n == cls + expbuf[cls] && cls < s
        invariant c !in expbuf[cls + 1..s]
      {
        if expbuf[s] == c {
          return af;
        }
        n, s := n - 1, s + 1;
      }
      return !af;
    }

    /** The arms of advance for the parts that look at one character of the line. */
    method StepItem(lp: nat, ep: nat, ghost node: Node) returns (go: bool, lp': nat, ep': nat)
      requires Valid() && lp <= |linebuf| && StandsAt(expbuf[..], ep, node) && Fits(node) && (node.Once? || node.End?)
      ensures Move(linebuf, node, lp) == if go then Option.Some(lp') else Option.None
      ensures ep' == ep + |NodeCode(node)|
    {
      go, lp', ep' := false, lp, ep + 1;
      var op := expbuf[ep];
      if op == CCHR {
        go := expbuf[ep'] == At(lp);
        ep', lp' := ep' + 1, lp + 1;
      } else if op == CDOT {
        go := At(lp) != 0;
        lp' := lp + 1;
      } else if op == CDOL {
        go := At(lp) == 0;
      } else {
        go := CClass(ep', At(lp), op == CCL);
        lp' := lp + 1;
        ep' := ep' + expbuf[ep'];
      }
    }

    /** The arms of advance for the bounds of groups. */
    method StepGroup(lp: nat, ep: nat, ghost node: Node) returns (ep': nat)
      requires Valid() && StandsAt(expbuf[..], ep, node) && Fits(node) && (node.Open? || node.Close?)
      modifies braslist, braelist
      ensures ep' == ep + |NodeCode(node)|
      ensures braslist[..] == if node.Open? then old(braslist[..])[node.n := lp] else old(braslist[..])
      ensures braelist[..] == if node.Close? then old(braelist[..])[node.n := lp] else old(braelist[..])
    {
      ep' := ep + 1;
      if expbuf[ep] == CBRA {
        braslist[expbuf[ep']] := lp;
      } else {
        braelist[expbuf[ep']] := lp;
      }
      ep' := ep' + 1;
    }

    /** The arms of advance for parts that are no star. */
    method MakeMove(lp: nat, ep: nat, ghost node: Node) returns (go: bool, lp': nat, ep': nat)
      requires Valid() && lp <= |linebuf| && StandsAt(expbuf[..], ep, node) && Fits(node) && !node.Many?
      modifies braslist, braelist
      ensures Move(linebuf, node, lp) == if go then Option.Some(lp') else Option.None
      ensures ep' == ep + |NodeCode(node)| && (go ==> lp' <= |linebuf|)
      ensures braslist[..] == if node.Open? then old(braslist[..])[node.n := lp] else old(braslist[..])
      ensures braelist[..] == if node.Close? then old(braelist[..])[node.n := lp] else old(braelist[..])
    {
      var op := expbuf[ep];
      go, lp' := true, lp;
      if op == CBRA || op == CKET {
        ep' := StepGroup(lp, ep, node);
      } else {
        go, lp', ep' := StepItem(lp, ep, node);
      }
    }

    /** The condition of a star's loop: whether the item takes the character at lp. */
    method Takes(op: int, at: nat, lp: nat, ghost item: Item) returns (r: bool)
      requires Valid() && lp <= |linebuf| && Fits(Many(item)) && op == ItemCode(item, STAR)[0]
      requires at + |ItemCode(item, 0)| - 1 < expbuf.Length && ItemAt(expbuf[..], at, item)
      ensures r <==> lp < |linebuf| && Accepts(item, linebuf[lp])
    {
      if op == CDOT + STAR {
        r := At(lp) != 0;
      } else if op == CCHR + STAR {
        r := At(lp) == expbuf[at];
      } else {
        r := CClass(at, At(lp), op == CCL + STAR);
      }
    }

    /** The loops of the stars: how far the star can go, and one too far. */
    method Scan(curlp: nat, ep: nat, ghost item: Item) returns (lp: nat, ep': nat)
      requires Valid() && curlp <= |linebuf| && StandsAt(expbuf[..], ep, Many(item)) && Fits(Many(item))
      ensures lp == Extent(linebuf, item, curlp) + 1 && ep' == ep + |NodeCode(Many(item))|
    {
      lp, ep' := curlp, ep + 1;
      var op := expbuf[ep];
      var more := true;
      while more
        invariant curlp <= lp <= |linebuf| + 1 && (more ==> lp <= |linebuf|)
        invariant if more then Extent(linebuf, item, lp) == Extent(linebuf, item, curlp)
          else lp == Extent(linebuf, item, curlp) + 1
        decreases more, |linebuf| + 1 - lp
      {
        more := Takes(op, ep', lp, item);
        lp := lp + 1;
      }
      if op == CCHR + STAR {
        ep' := ep' + 1;
      } else if op != CDOT + STAR {
        ep' := ep' + expbuf[ep'];
      }
    }

    /** The state of advance with the parts before rest walked through, the next one to start at lp. */
    ghost predicate Walking(nodes: seq<Node>, lp0: nat, walked: seq<nat>, lp: nat, ep: nat)
      reads this`linebuf, expbuf, braslist, braelist
    {
      && Valid() && lp0 <= |linebuf| && lp <= |linebuf| && Sound(nodes) && |walked| <= |nodes|
      && Holds(expbuf[..], ep, nodes[|walked|..])
      && Best(linebuf, nodes, lp0) == Then(walked, Best(linebuf, nodes[|walked|..], lp))
      && Recorded(nodes, walked, braslist[..], braelist[..])
    }

    /** One turn of advance at a part that is no star. */
    method Step(lp: nat, ep: nat, ghost nodes: seq<Node>, ghost lp0: nat, ghost walked: seq<nat>)
      returns (go: bool, lp': nat, ep': nat)
      requires Walking(nodes, lp0, walked, lp, ep) && |walked| < |nodes| && !nodes[|walked|].Many?
      modifies braslist, braelist
      ensures if go then Walking(nodes, lp0, walked + [lp], lp', ep') else Best(linebuf, nodes, lp0).None?
      ensures Spared(nodes, old(braslist[..]), old(braelist[..]), braslist[..], braelist[..])
    {
      ghost var rest, bras, kets := nodes[|walked|..], braslist[..], braelist[..];
      HoldsStep(expbuf[..], ep, rest);
      go, lp', ep' := MakeMove(lp, ep, rest[0]);
      if go {
        WalkOn(linebuf, nodes, lp0, walked, lp, lp');
        RecordOn(nodes, walked, lp, bras, kets, braslist[..], braelist[..]);
      }
    }

    /**
     advance: match the pattern whose code is at ep0 at place lp0. It finds the match Best finds, if any,
     and leaves its end and the bounds of its groups in the registers.
     */
    method Advance(lp0: nat, ep0: nat, ghost nodes: seq<Node>) returns (ok: bool)
      requires Valid() && lp0 <= |linebuf| && Holds(expbuf[..], ep0, nodes) && Sound(nodes)
      modifies this`loc2, braslist, braelist
      ensures Answer(linebuf, nodes, lp0, ok, loc2, braslist[..], braelist[..])
      ensures Spared(nodes, old(braslist[..]), old(braelist[..]), braslist[..], braelist[..])
      decreases |nodes|, 1
    {
      var lp, ep := lp0, ep0;
      ghost var rest, walked: seq<nat> := nodes, [];
      ghost var bras0, kets0 := braslist[..], braelist[..];
      NothingWalked(linebuf, nodes, lp0);
      assert nodes[0..] == nodes;
      while true
        invariant Walking(nodes, lp0, walked, lp, ep) && rest == nodes[|walked|..]
        invariant Spared(nodes, bras0, kets0, braslist[..], braelist[..])
        decreases |rest|
      {
        HoldsStep(expbuf[..], ep, rest);
        ghost var bras, kets := braslist[..], braelist[..];
        var op := expbuf[ep];
        if op == CEOF {
          loc2 := lp;
          Conclude(linebuf, nodes, lp0, walked, lp, true, loc2, bras0, kets0, bras, kets, bras, kets);
          return true;
        } else if op == CDOT + STAR || op == CCHR + STAR || op == CCL + STAR || op == NCCL + STAR {
          ok := Star(lp, ep, rest);
          Conclude(linebuf, nodes, lp0, walked, lp, ok, loc2, bras0, kets0, bras, kets, braslist[..], braelist[..]);
          return ok;
        }
        ghost var at := lp;
        ok, lp, ep := Step(lp, ep, nodes, lp0, walked);
        if !ok {
          return false;
        }
        rest, walked := rest[1..], walked + [at];
      }
    }

    /** The star arms of advance and the label star: from the furthest place backwards. */
    method Star(curlp: nat, ep: nat, ghost nodes: seq<Node>) returns (ok: bool)
      requires Valid() && curlp <= |linebuf| && Holds(expbuf[..], ep, nodes) && Sound(nodes)
      requires nodes != [] && nodes[0].Many?
      modifies this`loc2, braslist, braelist
      ensures Answer(linebuf, nodes, curlp, ok, loc2, braslist[..], braelist[..])
      ensures Spared(nodes, old(braslist[..]), old(braelist[..]), braslist[..], braelist[..])
      decreases |nodes|, 0
    {
      HoldsStep(expbuf[..], ep, nodes);
      SoundRest(nodes);
      ghost var bras, kets := braslist[..], braelist[..];
      var lp, ep' := Scan(curlp, ep, nodes[0].item);
      while true
        invariant curlp < lp <= |linebuf| + 1
        invariant Best(linebuf, nodes, curlp) == BestFrom(linebuf, nodes, curlp, lp - 1)
        invariant Holds(expbuf[..], ep', nodes[1..]) && Sound(nodes[1..])
        invariant Spared(nodes, bras, kets, braslist[..], braelist[..])
        decreases lp
      {
        ghost var bras1, kets1 := braslist[..], braelist[..];
        lp := lp - 1;
        ok := StarTurn(curlp, lp, ep', nodes);
        SparedTransitive(nodes, bras, kets, bras1, kets1, braslist[..], braelist[..]);
        if ok || lp <= curlp {
          return;
        }
      }
    }

    /** The star tried up to place lp. */
    method StarTurn(curlp: nat, lp: nat, ep: nat, ghost nodes: seq<Node>) returns (ok: bool)
      requires Valid() && curlp <= lp <= |linebuf| && nodes != [] && nodes[0].Many?
      requires Holds(expbuf[..], ep, nodes[1..]) && Sound(nodes) && Sound(nodes[1..])
      requires Best(linebuf, nodes, curlp) == BestFrom(linebuf, nodes, curlp, lp)
      modifies this`loc2, braslist, braelist
      ensures Spared(nodes, old(braslist[..]), old(braelist[..]), braslist[..], braelist[..])
      ensures ok || lp == curlp ==> Answer(linebuf, nodes, curlp, ok, loc2, braslist[..], braelist[..])
      ensures !ok && lp > curlp ==> Best(linebuf, nodes, curlp) == BestFrom(linebuf, nodes, curlp, lp - 1)
      decreases |nodes| - 1, 2
    {
      ghost var bras, kets := braslist[..], braelist[..];
      ok := Advance(lp, ep, nodes[1..]);
      SparedNone(nodes, bras, kets);
      SparedOn(nodes, nodes[1..], bras, kets, bras, kets, braslist[..], braelist[..]);
      if ok {
        StarFound(linebuf, nodes, curlp, lp, loc2, braslist[..], braelist[..]);
      }
    }

    /** advance, and what its answer means. */
    method TryAt(p: nat, ghost nodes: seq<Node>) returns (ok: bool, ghost ps: seq<nat>)
      requires Valid() && p <= |linebuf| && Holds(expbuf[..], 0, nodes) && Sound(nodes)
      modifies this`loc2, braslist, braelist
      ensures ok <==> MatchesAt(linebuf, nodes, p)
      ensures ok ==>
        Greediest(linebuf, nodes, p, ps) && loc2 == ps[|nodes|] && Recorded(nodes, ps, braslist[..], braelist[..])
    {
      ok := Advance(p, 0, nodes);
      BestIsGreediest(linebuf, nodes, p);
      ps := if ok then Best(linebuf, nodes, p).value else [];
    }

    /**
     execute, for a line other than line zero and no earlier match: search the line buffer. It tells whether
     the pattern matches anywhere; the match found is the leftmost, and the greedy one of those.
     */
    method Execute(ghost nodes: seq<Node>) returns (ok: bool, ghost ps: seq<nat>)
      requires Valid() && Holds(expbuf[..], 0, nodes) && Sound(nodes)
      modifies this`loc1, this`loc2, braslist, braelist
      ensures ok <==> MatchesSomewhere(linebuf, nodes, circfl)
      ensures ok ==> loc1 >= 0 && Finds(linebuf, nodes, circfl, loc1)
      ensures ok ==> forall start: nat :: Finds(linebuf, nodes, circfl, start) ==> loc1 <= start
      ensures ok ==> Greediest(linebuf, nodes, loc1, ps) && loc2 == ps[|nodes|]
      ensures ok ==> Recorded(nodes, ps, braslist[..], braelist[..])
    {
      ForgetGroups();
      var p1 := 0;
      HoldsStep(expbuf[..], 0, nodes);
      if circfl {
        loc1 := p1;
        ok, ps := TryAt(p1, nodes);
        assert ok <==> Finds(linebuf, nodes, circfl, p1);
        return;
      }
      if expbuf[0] == CCHR {
        ok, ps := Search(nodes, true);
      } else {
        ok, ps := Search(nodes, false);
      }
    }

    /** The loop that forgets the groups of the match before. */
    method ForgetGroups()
      requires Valid()
      modifies braslist, braelist
      ensures forall n :: 0 <= n < NBRA ==> braslist[n] == braelist[n] == NULL
    {
      var c := 0;
      while c < NBRA
        invariant c <= NBRA && forall n :: 0 <= n < c ==> braslist[n] == braelist[n] == NULL
      {
        braslist[c] := NULL;
        braelist[c] := NULL;
        c := c + 1;
      }
    }

    /** The search loops of execute; the fast one looks at the first character before it calls advance. */
    method Search(ghost nodes: seq<Node>, fast: bool) returns (ok: bool, ghost ps: seq<nat>)
      requires Valid() && Holds(expbuf[..], 0, nodes) && Sound(nodes) && !circfl
      requires fast ==> nodes != [] && nodes[0].Once? && nodes[0].item.Char? && expbuf[1] == nodes[0].item.c
      modifies this`loc1, this`loc2, braslist, braelist
      ensures ok <==> MatchesSomewhere(linebuf, nodes, circfl)
      ensures ok ==> loc1 >= 0 && Finds(linebuf, nodes, circfl, loc1)
      ensures ok ==> forall start: nat :: Finds(linebuf, nodes, circfl, start) ==> loc1 <= start
      ensures ok ==> Greediest(linebuf, nodes, loc1, ps) && loc2 == ps[|nodes|]
      ensures ok ==> Recorded(nodes, ps, braslist[..], braelist[..])
    {
      var p1 := 0;
      ps := [];
      while true
        invariant p1 <= |linebuf| && Holds(expbuf[..], 0, nodes)
        invariant fast ==> expbuf[1] == nodes[0].item.c
        invariant forall start: nat :: start < p1 ==> !Finds(linebuf, nodes, circfl, start)
        decreases |linebuf| - p1
      {
        if fast && At(p1) != expbuf[1] {
          FirstCharacter(linebuf, nodes, p1);
          BestIsGreediest(linebuf, nodes, p1);
        } else {
          ok, ps := TryAt(p1, nodes);
          if ok {
            loc1 := p1;
            assert Finds(linebuf, nodes, circfl, p1);
            return;
          }
        }
        if At(p1) == 0 {
          assert forall start: nat :: Finds(linebuf, nodes, circfl, start) ==> start <= p1;
          return false, [];
        }
        p1 := p1 + 1;
      }
    }
  }
}
