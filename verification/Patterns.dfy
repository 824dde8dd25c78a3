/**
 Regular expressions as the editor knows them: the pattern, its compiled code, and what it means
 for a pattern to match, told apart from how the matcher finds out.
 */
module Patterns {

  const STAR: int := 1
  const CBRA: int := 1
  const CCHR: int := 2
  const CDOT: int := 4
  const CCL: int := 6
  const NCCL: int := 8
  const CDOL: int := 10
  const CEOF: int := 11
  const CKET: int := 12
  const CBACK: int := 14
  const NBRA: nat := 5
  const ESIZE: nat := 128

  datatype Option<T> = None | Some(value: T)

  /** What stands for one character of the line; chars is in the order compiled, member false for a [^...]. */
  datatype Item = Char(c: int) | Dot | Class(chars: seq<int>, member: bool)

  datatype Node =
    | Once(item: Item)
    | Many(item: Item)
    | End
    | Open(n: nat)
    | Close(n: nat)
    | Back(n: nat)
    | BackMany(n: nat)

  // ----- compiled code -----

  function ItemCode(item: Item, star: int): (r: seq<int>)
    ensures |r| >= 1
  {
    match item
    case Char(c) => [CCHR + star, c]
    case Dot => [CDOT + star]
    case Class(chars, member) => [(if member then CCL else NCCL) + star, |chars| + 1] + chars
  }

  function NodeCode(node: Node): (r: seq<int>)
    ensures |r| >= 1
  {
    match node
    case Once(item) => ItemCode(item, 0)
    case Many(item) => ItemCode(item, STAR)
    case End => [CDOL]
    case Open(n) => [CBRA, n]
    case Close(n) => [CKET, n]
    case Back(n) => [CBACK, n]
    case BackMany(n) => [CBACK + STAR, n]
  }

  /** The code of a pattern, without the CEOF at its end. */
  function Code(nodes: seq<Node>): (r: seq<int>)
    ensures |nodes| <= |r|
  {
    if nodes == [] then [] else NodeCode(nodes[0]) + Code(nodes[1..])
  }

  /** code from place ep on is a pattern, ended by CEOF. */
  ghost predicate Holds(code: seq<int>, ep: nat, nodes: seq<Node>) {
    EndsWith(code, ep, Code(nodes))
  }

  /** These bytes stand at ep, and the end of the code behind them. */
  ghost predicate EndsWith(code: seq<int>, ep: nat, part: seq<int>) {
    ep + |part| < |code| && code[ep..ep + |part|] == part && code[ep + |part|] == CEOF
  }

  /** What the code at ep says when a part of a pattern stands there. */
  ghost predicate StandsAt(code: seq<int>, ep: nat, node: Node) {
    ep + |NodeCode(node)| < |code| && code[ep] == NodeCode(node)[0] &&
    match node
    case Once(item) => ItemAt(code, ep + 1, item)
    case Many(item) => ItemAt(code, ep + 1, item)
    case End => true
    case Open(n) => code[ep + 1] == n
    case Close(n) => code[ep + 1] == n
    case Back(n) => code[ep + 1] == n
    case BackMany(n) => code[ep + 1] == n
  }

  /** The same for what follows the operation. */
  ghost predicate ItemAt(code: seq<int>, at: nat, item: Item)
    requires at + |ItemCode(item, 0)| - 1 < |code|
  {
    match item
    case Char(c) => code[at] == c
    case Dot => true
    case Class(chars, _) => code[at] == |chars| + 1 && code[at + 1..at + 1 + |chars|] == chars
  }

  lemma SplitSlice(s: seq<int>, lo: nat, hi: nat, x: seq<int>, y: seq<int>)
    requires lo <= hi <= |s| && s[lo..hi] == x + y
    ensures lo + |x| <= hi && s[lo..lo + |x|] == x && s[lo + |x|..hi] == y
  {
    assert s[lo..lo + |x|] == s[lo..hi][..|x|];
    assert s[lo + |x|..hi] == s[lo..hi][|x|..];
  }

  lemma HoldsNext(code: seq<int>, ep: nat, nodes: seq<Node>)
    requires Holds(code, ep, nodes) && nodes != []
    ensures var n := |NodeCode(nodes[0])|;
      ep + n < |code| && code[ep..ep + n] == NodeCode(nodes[0]) && Holds(code, ep + n, nodes[1..])
  {
    EndsSplit(code, ep, NodeCode(nodes[0]), Code(nodes[1..]));
  }

  lemma EndsSplit(code: seq<int>, ep: nat, x: seq<int>, y: seq<int>)
    requires EndsWith(code, ep, x + y)
    ensures ep + |x| < |code| && code[ep..ep + |x|] == x && EndsWith(code, ep + |x|, y)
  {
    SplitCode(code, ep, x, y);
  }

  lemma SplitCode(code: seq<int>, ep: nat, x: seq<int>, y: seq<int>)
    requires ep + |x + y| < |code| && code[ep..ep + |x + y|] == x + y
    ensures code[ep..ep + |x|] == x && code[ep + |x|..ep + |x| + |y|] == y
  {
    SplitSlice(code, ep, ep + |x + y|, x, y);
  }

  lemma HoldsStep(code: seq<int>, ep: nat, nodes: seq<Node>)
    requires Holds(code, ep, nodes)
    ensures nodes != [] ==> StandsAt(code, ep, nodes[0]) && Holds(code, ep + |NodeCode(nodes[0])|, nodes[1..])
    ensures nodes == [] ==> code[ep] == CEOF
  {
    if nodes != [] {
      HoldsNext(code, ep, nodes);
      CodeStands(code, ep, nodes[0]);
    }
  }

  lemma CodeStands(code: seq<int>, ep: nat, node: Node)
    requires ep + |NodeCode(node)| < |code| && code[ep..ep + |NodeCode(node)|] == NodeCode(node)
    ensures StandsAt(code, ep, node)
  {
    var c := NodeCode(node);
    assert code[ep] == c[0];
    assert |c| >= 2 ==> code[ep + 1] == c[1];
    assert |c| >= 2 ==> code[ep + 2..ep + |c|] == code[ep..ep + |c|][2..];
  }

  // ----- what it means to match -----

  predicate Accepts(item: Item, c: int) {
    match item
    case Char(d) => c == d
    case Dot => true
    case Class(chars, member) => (c in chars) == member
  }

  ghost predicate AllAccepted(line: seq<int>, item: Item, p: nat, q: nat) {
    p <= q <= |line| && forall i :: p <= i < q ==> Accepts(item, line[i])
  }

  /** The part of the pattern may take the line from place p to place q. References back are another matter. */
  ghost predicate Goes(line: seq<int>, node: Node, p: nat, q: nat) {
    match node
    case Once(item) => q == p + 1 && AllAccepted(line, item, p, q)
    case Many(item) => AllAccepted(line, item, p, q)
    case End => p == |line| && q == p
    case Open(_) => q == p
    case Close(_) => q == p
    case Back(_) => false
    case BackMany(_) => false
  }

  /** ps is a way to match the pattern: where each of its parts begins, and where the match ends. */
  ghost predicate IsPath(line: seq<int>, nodes: seq<Node>, ps: seq<nat>) {
    && |ps| == |nodes| + 1 && ps[0] <= |line|
    && (nodes != [] ==> Goes(line, nodes[0], ps[0], ps[1]) && IsPath(line, nodes[1..], ps[1..]))
  }

  /** Earlier parts come first, and further is greater. */
  ghost predicate AtMost(a: seq<nat>, b: seq<nat>)
    requires |a| == |b|
  {
    a == [] || a[0] < b[0] || (a[0] == b[0] && AtMost(a[1..], b[1..]))
  }

  /** The greedy way to match at place p: each star takes all it can, the earlier ones first. */
  ghost predicate Greediest(line: seq<int>, nodes: seq<Node>, p: nat, ps: seq<nat>) {
    && IsPath(line, nodes, ps) && ps[0] == p
    && forall qs :: IsPath(line, nodes, qs) && qs[0] == p ==> AtMost(qs, ps)
  }

  ghost predicate MatchesAt(line: seq<int>, nodes: seq<Node>, p: nat) {
    exists ps :: IsPath(line, nodes, ps) && ps[0] == p
  }

  // ----- the order in which the matcher tries -----

  function Extent(line: seq<int>, item: Item, p: nat): (q: nat)
    requires p <= |line|
    ensures p <= q <= |line|
    decreases |line| - p
  {
    if p < |line| && Accepts(item, line[p]) then Extent(line, item, p + 1) else p
  }

  /** Where a part other than a star leads, if anywhere. */
  function Move(line: seq<int>, node: Node, p: nat): (r: Option<nat>)
    requires p <= |line|
    ensures r.Some? ==> p <= r.value <= |line|
  {
    match node
    case Once(item) => if p < |line| && Accepts(item, line[p]) then Some(p + 1) else None
    case End => if p == |line| then Some(p) else None
    case Open(_) => Some(p)
    case Close(_) => Some(p)
    case _ => None
  }

  function Then(walked: seq<nat>, rest: Option<seq<nat>>): Option<seq<nat>> {
    match rest
    case None => None
    case Some(ps) => Some(walked + ps)
  }

  /** The first match in the order of trying. */
  function Best(line: seq<int>, nodes: seq<Node>, p: nat): (r: Option<seq<nat>>)
    requires p <= |line|
    ensures r.Some? ==> |r.value| == |nodes| + 1
    decreases |nodes|, |line| + 1
  {
    if nodes == [] then Some([p])
    else if nodes[0].Many? then BestFrom(line, nodes, p, Extent(line, nodes[0].item, p))
    else
      match Move(line, nodes[0], p)
      case None => None
      case Some(q) => Then([p], Best(line, nodes[1..], q))
  }

  /** The first match with a star that ends at q or before. */
  function BestFrom(line: seq<int>, nodes: seq<Node>, p: nat, q: nat): (r: Option<seq<nat>>)
    requires p <= q <= |line| && nodes != []
    ensures r.Some? ==> |r.value| == |nodes| + 1
    decreases |nodes|, q
  {
    var ps := Best(line, nodes[1..], q);
    if ps.Some? then Then([p], ps) else if q == p then None else BestFrom(line, nodes, p, q - 1)
  }

  lemma {:induction false} ExtentIsFurthest(line: seq<int>, item: Item, p: nat, q: nat)
    requires p <= |line|
    ensures AllAccepted(line, item, p, q) <==> p <= q <= Extent(line, item, p)
    decreases |line| - p
  {
    if p < |line| && Accepts(item, line[p]) {
      if p + 1 <= q {
        ExtentIsFurthest(line, item, p + 1, q);
      }
    }
  }

  /** A part other than a star leads to at most one place. */
  lemma MoveIsGoes(line: seq<int>, node: Node, p: nat, q: nat)
    requires p <= |line| && !node.Many?
    ensures Goes(line, node, p, q) <==> Move(line, node, p) == Some(q)
  {
  }

  /** Best finds the greedy match, and finds none only when there is none. */
  lemma {:induction false} BestIsGreediest(line: seq<int>, nodes: seq<Node>, p: nat)
    requires p <= |line|
    ensures Best(line, nodes, p).Some? ==> Greediest(line, nodes, p, Best(line, nodes, p).value)
    ensures Best(line, nodes, p).None? ==> !MatchesAt(line, nodes, p)
    decreases |nodes|, |line| + 1
  {
    var best := Best(line, nodes, p);
    if nodes == [] {
      forall qs | IsPath(line, nodes, qs) && qs[0] == p
        ensures AtMost(qs, [p])
      {
        assert qs[1..] == [] && [p][1..] == [];
      }
    } else if nodes[0].Many? {
      var e := Extent(line, nodes[0].item, p);
      BestFromIsGreediest(line, nodes, p, e);
      forall qs | IsPath(line, nodes, qs) && qs[0] == p
        ensures qs[1] <= e
      {
        ExtentIsFurthest(line, nodes[0].item, p, qs[1]);
      }
    } else {
      OneWay(line, nodes, p);
    }
  }

  lemma {:induction false} OneWay(line: seq<int>, nodes: seq<Node>, p: nat)
    requires p <= |line| && nodes != [] && !nodes[0].Many?
    ensures Best(line, nodes, p).Some? ==> Greediest(line, nodes, p, Best(line, nodes, p).value)
    ensures Best(line, nodes, p).None? ==> !MatchesAt(line, nodes, p)
    decreases |nodes|, |line|
  {
    var to := Move(line, nodes[0], p);
    forall qs | IsPath(line, nodes, qs) && qs[0] == p
      ensures to == Some(qs[1]) && IsPath(line, nodes[1..], qs[1..])
    {
      MoveIsGoes(line, nodes[0], p, qs[1]);
    }
    if to.Some? {
      var q := to.value;
      MoveIsGoes(line, nodes[0], p, q);
      BestIsGreediest(line, nodes[1..], q);
      LiftGreediest(line, nodes, p, q);
    }
  }

  /** The greedy match of the rest from q is the greedy match of all when no match goes further than q. */
  lemma LiftGreediest(line: seq<int>, nodes: seq<Node>, p: nat, q: nat)
    requires p <= |line| && q <= |line| && nodes != [] && Goes(line, nodes[0], p, q)
    requires Best(line, nodes[1..], q).Some? ==> Greediest(line, nodes[1..], q, Best(line, nodes[1..], q).value)
    requires Best(line, nodes[1..], q).None? ==> !MatchesAt(line, nodes[1..], q)
    ensures var rest := Best(line, nodes[1..], q);
      if rest.Some? then IsPath(line, nodes, [p] + rest.value) &&
        forall qs :: IsPath(line, nodes, qs) && qs[0] == p && qs[1] <= q ==> AtMost(qs, [p] + rest.value)
      else forall qs :: IsPath(line, nodes, qs) && qs[0] == p ==> qs[1] != q
  {
    var rest := Best(line, nodes[1..], q);
    if rest.Some? {
      var ps := [p] + rest.value;
      assert ps[1..] == rest.value;
      forall qs | IsPath(line, nodes, qs) && qs[0] == p && qs[1] <= q
        ensures AtMost(qs, ps)
      {
        assert IsPath(line, nodes[1..], qs[1..]);
      }
    } else {
      forall qs | IsPath(line, nodes, qs) && qs[0] == p
        ensures qs[1] != q
      {
        assert IsPath(line, nodes[1..], qs[1..]);
      }
    }
  }

  lemma {:induction false} BestFromIsGreediest(line: seq<int>, nodes: seq<Node>, p: nat, q: nat)
    requires nodes != [] && nodes[0].Many? && p <= |line| && p <= q <= Extent(line, nodes[0].item, p)
    ensures var best := BestFrom(line, nodes, p, q);
      if best.Some? then IsPath(line, nodes, best.value) && best.value[0] == p &&
        forall qs :: IsPath(line, nodes, qs) && qs[0] == p && qs[1] <= q ==> AtMost(qs, best.value)
      else forall qs :: IsPath(line, nodes, qs) && qs[0] == p ==> qs[1] > q
    decreases |nodes|, q
  {
    ExtentIsFurthest(line, nodes[0].item, p, q);
    BestIsGreediest(line, nodes[1..], q);
    LiftGreediest(line, nodes, p, q);
    if Best(line, nodes[1..], q).None? {
      if q == p {
        forall qs | IsPath(line, nodes, qs) && qs[0] == p
          ensures qs[1] > q
        {
          ExtentIsFurthest(line, nodes[0].item, p, qs[1]);
        }
      } else {
        BestFromIsGreediest(line, nodes, p, q - 1);
      }
    }
  }
}
