/**
 The editor's pattern compiler: from the characters typed to code in the expression buffer. Parse says
 which pattern the characters denote; Compile is proved to produce the code of that pattern.
 */
module Compiling {
  import opened Patterns
  import opened Matching

  const EOF: int := -1
  const NL: int := 10
  const BACKSLASH: int := '\\' as int
  const DOT: int := '.' as int
  const STARCH: int := '*' as int
  const DOLLAR: int := '$' as int
  const OPENCLS: int := '[' as int
  const CLOSECLS: int := ']' as int
  const CARET: int := '^' as int
  const MINUS: int := '-' as int
  const LPAR: int := '(' as int
  const RPAR: int := ')' as int
  const ONE: int := '1' as int

  /** Characters as they are typed: seven bits, no null. */
  ghost predicate Typed(input: seq<int>) {
    forall i :: 0 <= i < |input| ==> 1 <= input[i] < 128
  }

  /** The characters after lo up to hi. */
  function Range(lo: int, hi: int): (r: seq<int>)
    ensures forall i :: 0 <= i < |r| ==> r[i] == lo + 1 + i
    ensures |r| == if lo < hi then hi - lo else 0
    decreases hi - lo
  {
    if lo < hi then Range(lo, hi - 1) + [hi] else []
  }

  /**
   The characters of a class, read on from place pos with cs found so far, and the place behind the class.
   A minus stands for itself at the beginning and at the end; the end of a range is counted twice,
   and a range that runs backwards is its two ends.
   */
  function ClassAt(input: seq<int>, pos: nat, cs: seq<int>): (r: Option<(seq<int>, nat)>)
    ensures r.Some? ==> cs <= r.value.0 && pos < r.value.1 <= |input|
    decreases |input| - pos, 0
  {
    if pos + 1 >= |input| || input[pos] == NL then None
    else if input[pos] == MINUS && cs != [] then
      if input[pos + 1] == CLOSECLS then Some((cs + [MINUS], pos + 2))
      else ClassRest(input, pos + 2, cs + Range(cs[|cs| - 1], input[pos + 1]) + [input[pos + 1]])
    else ClassRest(input, pos + 1, cs + [input[pos]])
  }

  /** The same between two characters: a closing bracket ends the class. */
  function ClassRest(input: seq<int>, pos: nat, cs: seq<int>): (r: Option<(seq<int>, nat)>)
    ensures r.Some? ==> cs <= r.value.0 && pos < r.value.1 <= |input|
    decreases |input| - pos, 1
  {
    if pos >= |input| then None
    else if input[pos] == CLOSECLS then Some((cs, pos + 1))
    else ClassAt(input, pos, cs)
  }

  function Starred(node: Node): Node {
    match node
    case Once(item) => Many(item)
    case Back(n) => BackMany(n)
    case _ => node
  }

  /**
   How far a pattern is read: up to place pos; opens are the groups open there, nbra the groups begun, nodes
   the parts so far; star tells whether a star would apply to the last of them rather than stand for itself.
   */
  datatype State = State(pos: nat, opens: seq<nat>, nbra: nat, nodes: seq<Node>, star: bool)

  function Added(s: State, pos: nat, node: Node, star: bool): State {
    s.(pos := pos, nodes := s.nodes + [node], star := star)
  }

  /** What a backslash and the character c behind it add, with the next place at pos. */
  function Escaped(s: State, pos: nat, c: int): (r: Option<State>)
    ensures r.Some? ==> r.value.pos == pos
  {
    if c == LPAR then
      if s.nbra >= NBRA then None
      else Some(Added(s, pos, Open(s.nbra), false).(opens := s.opens + [s.nbra], nbra := s.nbra + 1))
    else if c == RPAR then
      if s.opens == [] then None
      else Some(Added(s, pos, Close(s.opens[|s.opens| - 1]), false).(opens := s.opens[..|s.opens| - 1]))
    else if ONE <= c < ONE + NBRA then Some(Added(s, pos, Back(c - ONE), true))
    else if c == NL then None
    else Some(Added(s, pos, Once(Char(c)), true))
  }

  /** One part of the pattern read on. None when the pattern is not in order. */
  function Next(input: seq<int>, eof: int, s: State): (r: Option<State>)
    requires s.pos < |input|
    ensures r.Some? ==> s.pos < r.value.pos <= |input|
  {
    var c, pos := input[s.pos], s.pos + 1;
    if c == BACKSLASH then
      if pos >= |input| then None else Escaped(s, pos + 1, input[pos])
    else if c == NL then None
    else if c == STARCH && s.star && s.nodes != [] then
      Some(s.(pos := pos, nodes := s.nodes[..|s.nodes| - 1] + [Starred(s.nodes[|s.nodes| - 1])]))
    else if c == DOLLAR && pos < |input| && input[pos] == eof then
      Some(Added(s, pos, End, false))
    else if c == OPENCLS then
      var caret := pos < |input| && input[pos] == CARET;
      match ClassAt(input, if caret then pos + 1 else pos, [])
      case None => None
      case Some(p) => Some(Added(s, p.1, Once(Class(p.0, !caret)), true))
    else
      Some(Added(s, pos, Once(if c == DOT then Dot else Char(c)), c != STARCH))
  }

  /** The pattern up to its delimiter. There is none without the delimiter or with a group still open. */
  function Parse(input: seq<int>, eof: int, s: State): Option<State>
    decreases |input| - s.pos
  {
    if s.pos >= |input| then None
    else if input[s.pos] == eof then if s.opens == [] then Some(s) else None
    else
      match Next(input, eof, s)
      case None => None
      case Some(next) => Parse(input, eof, next)
  }

  /** The pattern that the characters denote; a caret at the beginning is not part of it. */
  function Pattern(input: seq<int>, eof: int): Option<State> {
    Parse(input, eof, State(if input != [] && input[0] == CARET then 1 else 0, [], 0, [], false))
  }

  // ----- patterns are sound -----

  lemma {:induction false} CodeConcat(a: seq<Node>, b: seq<Node>)
    ensures Code(a + b) == Code(a) + Code(b)
  {
    if a == [] {
      assert a + b == b;
    } else {
      assert (a + b)[0] == a[0] && (a + b)[1..] == a[1..] + b;
      CodeConcat(a[1..], b);
      Associative(NodeCode(a[0]), Code(a[1..]), Code(b));
    }
  }

  lemma Associative(a: seq<int>, b: seq<int>, c: seq<int>)
    ensures (a + b) + c == a + (b + c)
  {
  }

  lemma CodeOne(a: seq<Node>, node: Node)
    ensures Code(a + [node]) == Code(a) + NodeCode(node)
  {
    CodeConcat(a, [node]);
    assert Code([node]) == NodeCode(node) + Code([]);
  }

  /** A node that does not make the matcher run off the line. */
  ghost predicate NoNull(node: Node) {
    (node.Once? ==> node.item.Char? ==> node.item.c != 0) && (node.Many? ==> node.item.Char? ==> node.item.c != 0)
  }

  function NestStep(opens: seq<nat>, nbra: nat, node: Node): Option<(seq<nat>, nat)> {
    match node
    case Open(n) => if n == nbra then Some((opens + [nbra], nbra + 1)) else None
    case Close(n) => if opens != [] && n == opens[|opens| - 1] then Some((opens[..|opens| - 1], nbra)) else None
    case _ => Some((opens, nbra))
  }

  /**
   The groups open at the end of the parts, and how many have begun. None unless groups are numbered in the
   order they begin, and each end is that of the group begun last of those still open.
   */
  function Nest(nodes: seq<Node>): Option<(seq<nat>, nat)>
    decreases |nodes|
  {
    if nodes == [] then Some(([], 0))
    else
      match Nest(nodes[..|nodes| - 1])
      case None => None
      case Some((opens, nbra)) => NestStep(opens, nbra, nodes[|nodes| - 1])
  }

  lemma NestAdd(nodes: seq<Node>, node: Node)
    requires Nest(nodes).Some?
    ensures Nest(nodes + [node]) == NestStep(Nest(nodes).value.0, Nest(nodes).value.1, node)
  {
    assert (nodes + [node])[..|nodes|] == nodes;
  }

  /** The state says truly what is open, and the matcher cannot run off the line. */
  ghost predicate Begun(s: State) {
    && Nest(s.nodes) == Some((s.opens, s.nbra)) && s.nbra <= NBRA
    && (forall i :: 0 <= i < |s.nodes| ==> NoNull(s.nodes[i]))
  }

  lemma StarLast(s: State)
    requires Begun(s) && s.nodes != []
    ensures Begun(s.(nodes := s.nodes[..|s.nodes| - 1] + [Starred(s.nodes[|s.nodes| - 1])]))
  {
    var k := |s.nodes| - 1;
    assert s.nodes == s.nodes[..k] + [s.nodes[k]];
    assert Nest(s.nodes[..k]).Some?;
    NestAdd(s.nodes[..k], s.nodes[k]);
    NestAdd(s.nodes[..k], Starred(s.nodes[k]));
  }

  lemma AddSound(s: State, pos: nat, node: Node, star: bool)
    requires Begun(s) && NoNull(node) && !node.Open? && !node.Close?
    ensures Begun(Added(s, pos, node, star))
  {
    NestAdd(s.nodes, node);
  }

  lemma EscapedSound(s: State, pos: nat, c: int)
    requires Begun(s) && c != 0 && Escaped(s, pos, c).Some?
    ensures Begun(Escaped(s, pos, c).value)
  {
    if c == LPAR {
      NestAdd(s.nodes, Open(s.nbra));
    } else if c == RPAR {
      NestAdd(s.nodes, Close(s.opens[|s.opens| - 1]));
    } else {
      AddSound(s, pos, Escaped(s, pos, c).value.nodes[|s.nodes|], true);
    }
  }

  lemma NextSound(input: seq<int>, eof: int, s: State)
    requires Typed(input) && s.pos < |input| && Begun(s) && Next(input, eof, s).Some?
    ensures Begun(Next(input, eof, s).value)
  {
    var c, t := input[s.pos], Next(input, eof, s).value;
    if c == BACKSLASH {
      EscapedSound(s, s.pos + 2, input[s.pos + 1]);
    } else if c == STARCH && s.star && s.nodes != [] {
      StarLast(s);
    } else {
      AddSound(s, t.pos, t.nodes[|s.nodes|], t.star);
    }
  }

  lemma {:induction false} ParseSound(input: seq<int>, eof: int, s: State)
    requires Typed(input) && Begun(s)
    ensures var r := Parse(input, eof, s); r.Some? ==> Begun(r.value) && r.value.opens == []
    decreases |input| - s.pos
  {
    if s.pos < |input| && input[s.pos] != eof {
      var next := Next(input, eof, s);
      if next.Some? {
        NextSound(input, eof, s);
        ParseSound(input, eof, next.value);
      }
    }
  }

  ghost predicate Numbered(nodes: seq<Node>, opens: seq<nat>, nbra: nat) {
    && (forall i :: 0 <= i < |nodes| && nodes[i].Open? ==> nodes[i].n < nbra)
    && (forall i :: 0 <= i < |nodes| && nodes[i].Close? ==> nodes[i].n < nbra && nodes[i].n !in opens)
    && (forall i :: 0 <= i < |opens| ==> opens[i] < nbra)
    && (forall i, j :: 0 <= i < j < |opens| ==> opens[i] < opens[j])
  }

  lemma {:induction false} NestNumbered(nodes: seq<Node>)
    ensures Nest(nodes).Some? ==> Numbered(nodes, Nest(nodes).value.0, Nest(nodes).value.1)
    decreases |nodes|
  {
    if nodes != [] {
      var k := |nodes| - 1;
      NestNumbered(nodes[..k]);
      assert nodes == nodes[..k] + [nodes[k]];
      if Nest(nodes).Some? {
        NumberedStep(nodes[..k], Nest(nodes[..k]).value.0, Nest(nodes[..k]).value.1, nodes[k]);
      }
    }
  }

  lemma NumberedStep(nodes: seq<Node>, opens: seq<nat>, nbra: nat, node: Node)
    requires Numbered(nodes, opens, nbra) && NestStep(opens, nbra, node).Some?
    ensures var r := NestStep(opens, nbra, node).value; Numbered(nodes + [node], r.0, r.1)
  {
  }

  /** No group begins twice or ends twice. */
  lemma {:induction false} NestOnce(nodes: seq<Node>)
    requires Nest(nodes).Some?
    ensures forall i, j :: 0 <= i < j < |nodes| ==> nodes[i] == nodes[j] ==> !nodes[i].Open? && !nodes[i].Close?
    decreases |nodes|
  {
    if nodes != [] {
      var k := |nodes| - 1;
      NestOnce(nodes[..k]);
      NestNumbered(nodes[..k]);
      forall i | 0 <= i < k
        ensures nodes[i] == nodes[k] ==> !nodes[i].Open? && !nodes[i].Close?
      {
        assert nodes[i] == nodes[..k][i];
      }
    }
  }

  /** Group n begins at i, and ends behind that unless it is still open. */
  ghost predicate PairFrom(nodes: seq<Node>, n: nat, open: bool, i: int) {
    0 <= i < |nodes| && nodes[i] == Open(n) && (open || exists j :: i < j < |nodes| && nodes[j] == Close(n))
  }

  /** Each group begun has its beginning among the parts, and behind it its end unless it is still open. */
  lemma {:induction false} NestPaired(nodes: seq<Node>, n: nat)
    requires Nest(nodes).Some? && n < Nest(nodes).value.1
    ensures exists i :: PairFrom(nodes, n, n in Nest(nodes).value.0, i)
    decreases |nodes|
  {
    if nodes != [] {
      var k := |nodes| - 1;
      var before := nodes[..k];
      if nodes[k] != Open(n) {
        NestPaired(before, n);
        var i :| PairFrom(before, n, n in Nest(before).value.0, i);
        assert nodes[i] == Open(n);
        if n !in Nest(before).value.0 {
          var j :| i < j < k && before[j] == Close(n);
          assert nodes[j] == Close(n);
        }
        assert PairFrom(nodes, n, n in Nest(nodes).value.0, i);
      } else {
        assert PairFrom(nodes, n, n in Nest(nodes).value.0, k);
      }
    }
  }

  /** A part more never makes the code shorter. */
  lemma NextLonger(input: seq<int>, eof: int, s: State)
    requires s.pos < |input| && Next(input, eof, s).Some?
    ensures |Code(s.nodes)| <= |Code(Next(input, eof, s).value.nodes)|
  {
    var t := Next(input, eof, s).value;
    if input[s.pos] == STARCH && s.star && s.nodes != [] {
      var k := |s.nodes| - 1;
      assert s.nodes == s.nodes[..k] + [s.nodes[k]];
      CodeOne(s.nodes[..k], s.nodes[k]);
      CodeOne(s.nodes[..k], Starred(s.nodes[k]));
    } else {
      assert t.nodes == s.nodes + [t.nodes[|s.nodes|]];
      CodeOne(s.nodes, t.nodes[|s.nodes|]);
    }
  }

  lemma {:induction false} ParseLonger(input: seq<int>, eof: int, s: State)
    ensures Parse(input, eof, s).Some? ==> |Code(s.nodes)| <= |Code(Parse(input, eof, s).value.nodes)|
    decreases |input| - s.pos
  {
    if s.pos < |input| && input[s.pos] != eof && Next(input, eof, s).Some? {
      NextLonger(input, eof, s);
      ParseLonger(input, eof, Next(input, eof, s).value);
    }
  }

  // ----- the compiler -----

  /** getchr: the character at a place, EOF behind the last, again and again. */
  function Getchr(input: seq<int>, pos: nat): int {
    if pos < |input| then input[pos] else EOF
  }

  function After(input: seq<int>, pos: nat): nat {
    if pos < |input| then pos + 1 else pos
  }

  ghost predicate Positive(cs: seq<int>) {
    forall k :: 0 <= k < |cs| ==> cs[k] > 0
  }

  /** The class read so far: c has been read from place q, and cs is in the code from ep0 to ep. */
  ghost predicate ReadingClass(input: seq<int>, pos0: nat, q: nat, cs: seq<int>, code: seq<int>, ep0: nat, ep: nat) {
    && q <= |input| && 0 < ep0 <= ESIZE + 1 && ep == ep0 + |cs| <= |code| && |code| == ESIZE + 4
    && code[ep0 - 1] == 0 && code[ep0..ep] == cs && (cs == [] || ep < ESIZE)
    && (if q < |input| then ClassAt(input, pos0, []) == ClassAt(input, q, cs) && Positive(cs)
      else ClassAt(input, pos0, []) == None)
  }

  /** Too long, or no class at all. */
  ghost predicate NoClass(input: seq<int>, pos0: nat, ep0: nat) {
    var r := ClassAt(input, pos0, []);
    r.Some? ==> ep0 + |r.value.0| >= ESIZE
  }

  /** The loop that writes out a range up to c. */
  method PutRange(code: array<int>, ep0: nat, c: int) returns (ok: bool, ep: nat)
    requires 0 < ep0 < ESIZE && code.Length == ESIZE + 4
    modifies code
    ensures code[..ep0] == old(code[..ep0]) && ep0 <= ep <= ep0 + |Range(old(code[ep0 - 1]), c)|
    ensures if ok then ep < ESIZE && code[ep0..ep] == Range(old(code[ep0 - 1]), c) else ep >= ESIZE
  {
    ep := ep0;
    ghost var lo := code[ep0 - 1];
    while code[ep - 1] < c
      invariant ep0 <= ep < ESIZE && code[..ep0] == old(code[..ep0])
      invariant code[ep - 1] == lo + (ep - ep0) && (ep > ep0 ==> code[ep - 1] <= c)
      invariant forall k :: ep0 <= k < ep ==> code[k] == lo + 1 + (k - ep0)
      decreases ESIZE - ep
    {
      code[ep] := code[ep - 1] + 1;
      ep := ep + 1;
      if ep >= ESIZE {
        return false, ep;
      }
    }
    ok := true;
  }

  /** What one turn of the loop over a class does with a character other than the range sign. */
  method PutChar(code: array<int>, ep: nat, c: int) returns (ok: bool, ep': nat)
    requires ep + 1 < code.Length == ESIZE + 4
    modifies code
    ensures code[..ep] == old(code[..ep]) && code[ep] == c && ep' == ep + 1 && (ok <==> ep' < ESIZE)
  {
    code[ep] := c;
    ep' := ep + 1;
    ok := ep' < ESIZE;
  }

  /** A range and then its end, behind what has been written before. */
  lemma RangeWritten(was: seq<int>, mid: seq<int>, now: seq<int>, ep0: nat, ep: nat, at: nat, range: seq<int>, c: int)
    requires ep0 <= ep <= at < |was| == |mid| == |now| && mid[..ep] == was[..ep] && mid[ep..at] == range
    requires now[..at] == mid[..at] && now[at] == c
    ensures now[..ep0] == was[..ep0] && now[ep0..at + 1] == was[ep0..ep] + range + [c]
  {
    assert now[..ep] == now[..at][..ep] == mid[..at][..ep] == mid[..ep];
    assert now[..ep0] == now[..ep][..ep0] == was[..ep][..ep0];
    assert now[ep0..ep] == now[..ep][ep0..] == was[..ep][ep0..] == was[ep0..ep];
    assert now[ep..at] == now[..at][ep..] == mid[..at][ep..] == range;
    assert now[ep0..at + 1] == now[ep0..ep] + now[ep..at] + [c];
  }

  /** A range: the sign has been read from place q, and the character behind it is not the end of the class. */
  method PutRangeTo(ghost input: seq<int>, ghost pos0: nat, ghost q: nat, ghost cs: seq<int>, code: array<int>,
        ghost ep0: nat, ep: nat, c: int)
    returns (ok: bool, ep': nat, ghost cs': seq<int>)
    requires Typed(input) && code.Length == ESIZE + 4 && ReadingClass(input, pos0, q, cs, code[..], ep0, ep)
    requires q < |input| && input[q] == MINUS && cs != [] && c == Getchr(input, q + 1) && c != CLOSECLS
    modifies code
    ensures code[..ep0] == old(code[..ep0])
    ensures ok ==> ep' == ep0 + |cs'| < ESIZE && code[ep0..ep'] == cs' && cs < cs' && (c != EOF ==> Positive(cs'))
    ensures ok ==> if c == EOF then ClassAt(input, pos0, []) == None
      else ClassAt(input, pos0, []) == ClassRest(input, q + 2, cs')
    ensures !ok ==> NoClass(input, pos0, ep0)
  {
    ghost var was := code[..];
    assert code[ep - 1] == was[ep0..ep][|cs| - 1] == cs[|cs| - 1];
    ghost var range := Range(cs[|cs| - 1], c);
    cs' := cs + range + [c];
    assert c != EOF ==> Positive(cs');
    assert c != EOF ==> ClassAt(input, pos0, []) == ClassRest(input, q + 2, cs');
    ok, ep' := PutRange(code, ep, c);
    if ok {
      ghost var mid, at := code[..], ep';
      ok, ep' := PutChar(code, ep', c);
      RangeWritten(was, mid, code[..], ep0, ep, at, range, c);
    }
  }

  /** Any other character, read from place q, stands for itself. */
  method PutOne(ghost input: seq<int>, ghost pos0: nat, ghost q: nat, ghost cs: seq<int>, code: array<int>,
        ghost ep0: nat, ep: nat, c: int)
    returns (ok: bool, ep': nat)
    requires Typed(input) && code.Length == ESIZE + 4 && ReadingClass(input, pos0, q, cs, code[..], ep0, ep)
    requires c == Getchr(input, q) && c != NL && (c == MINUS ==> cs == [])
    modifies code
    ensures code[..ep0] == old(code[..ep0])
    ensures ok ==> ep' == ep0 + |cs| + 1 < ESIZE && code[ep0..ep'] == cs + [c] && (q < |input| ==> Positive(cs + [c]))
    ensures ok ==> ClassAt(input, pos0, []) == if q + 1 < |input| then ClassRest(input, q + 1, cs + [c]) else None
    ensures !ok ==> NoClass(input, pos0, ep0)
  {
    ghost var was := code[..];
    ok, ep' := PutChar(code, ep, c);
    assert code[ep0..ep'] == was[ep0..ep' - 1] + [c];
    assert q + 1 < |input| ==> ClassAt(input, q, cs) == ClassRest(input, q + 1, cs + [c]);
  }

  /** The class has been read up to place pos, and the next character is still to be looked at. */
  ghost predicate ClassSoFar(input: seq<int>, pos0: nat, pos: nat, cs: seq<int>, code: seq<int>, ep0: nat, ep: nat) {
    && pos <= |input| && 0 < ep0 && ep == ep0 + |cs| < ESIZE && |code| == ESIZE + 4 && cs != []
    && code[ep0 - 1] == 0 && code[ep0..ep] == cs && (pos < |input| ==> Positive(cs))
    && ClassAt(input, pos0, []) == if pos < |input| then ClassRest(input, pos, cs) else None
  }

  /** The class has been read, and is in the code. */
  ghost predicate ClassRead(input: seq<int>, pos0: nat, pos: nat, cs: seq<int>, code: seq<int>, ep0: nat, ep: nat) {
    && ClassAt(input, pos0, []) == Option.Some((cs, pos)) && pos <= |input|
    && ep == ep0 + |cs| <= ESIZE && |code| == ESIZE + 4 && code[ep0..ep] == cs
  }

  /** A minus at the end of a class, whose bracket has been read too: it stands for itself. */
  method PutLastMinus(ghost input: seq<int>, ghost pos0: nat, ghost q: nat, ghost cs: seq<int>, code: array<int>,
        ghost ep0: nat, ep: nat)
    returns (ep': nat)
    requires code.Length == ESIZE + 4 && ReadingClass(input, pos0, q, cs, code[..], ep0, ep)
    requires q + 1 < |input| && input[q] == MINUS && cs != [] && input[q + 1] == CLOSECLS
    modifies code
    ensures code[..ep0] == old(code[..ep0]) && ep' == ep + 1
    ensures ClassRead(input, pos0, q + 2, cs + [MINUS], code[..], ep0, ep')
  {
    ghost var was := code[..];
    var fits;
    fits, ep' := PutChar(code, ep, MINUS);
    assert code[ep0..ep'] == was[ep0..ep' - 1] + [MINUS];
  }

  /** One turn of the loop over a class: c has been read from place q; last tells that the class ended there. */
  method ReadNext(input: seq<int>, ghost pos0: nat, ghost q: nat, code: array<int>, ghost ep0: nat, pos: nat, ep: nat,
        cclcnt: int, ghost cs: seq<int>, c: int)
    returns (ok: bool, last: bool, pos': nat, ep': nat, cclcnt': int, ghost cs': seq<int>)
    requires Typed(input) && code.Length == ESIZE + 4 && ReadingClass(input, pos0, q, cs, code[..], ep0, ep)
    requires c == Getchr(input, q) && c != NL && pos == After(input, q) && cclcnt == |cs| + 1
    modifies code
    ensures code[..ep0] == old(code[..ep0]) && (ok ==> cclcnt' == |cs'| + 1 && ep < ep')
    ensures if !ok then NoClass(input, pos0, ep0)
      else if last then ClassRead(input, pos0, pos', cs', code[..], ep0, ep')
      else ClassSoFar(input, pos0, pos', cs', code[..], ep0, ep')
  {
    assert cs != [] ==> code[ep - 1] == code[..][ep0..ep][|cs| - 1];
    assert code[..ep0][ep0 - 1] == 0;
    pos', last := pos, false;
    if c == MINUS && code[ep - 1] != 0 {
      var d := Getchr(input, pos);
      pos' := After(input, pos);
      if d == CLOSECLS {
        ep' := PutLastMinus(input, pos0, q, cs, code, ep0, ep);
        return true, true, pos', ep', cclcnt + 1, cs + [MINUS];
      }
      ok, ep', cs' := PutRangeTo(input, pos0, q, cs, code, ep0, ep, d);
      cclcnt' := cclcnt + (ep' - ep);
    } else {
      ok, ep' := PutOne(input, pos0, q, cs, code, ep0, ep, c);
      cclcnt', cs' := cclcnt + 1, cs + [c];
    }
    assert code[..ep0][ep0 - 1] == code[ep0 - 1];
  }

  /** The loop over the characters of a class, which begins at place pos0; the class is in the code from ep0 on. */
  method ReadClass(input: seq<int>, pos0: nat, code: array<int>, ep0: nat)
    returns (ok: bool, pos: nat, ep: nat, cclcnt: int, ghost cs: seq<int>)
    requires Typed(input) && pos0 <= |input| && code.Length == ESIZE + 4 && 0 < ep0 <= ESIZE + 1 && code[ep0 - 1] == 0
    modifies code
    ensures code[..ep0] == old(code[..ep0])
    ensures if ok then ClassRead(input, pos0, pos, cs, code[..], ep0, ep) && cclcnt == |cs| + 1
      else NoClass(input, pos0, ep0)
  {
    pos, ep, cclcnt, cs := pos0, ep0, 1, [];
    var c := Getchr(input, pos);
    ghost var q := pos;
    pos := After(input, pos);
    while true
      invariant ReadingClass(input, pos0, q, cs, code[..], ep0, ep) && cclcnt == |cs| + 1
      invariant c == Getchr(input, q) && pos == After(input, q)
      invariant code[..ep0] == old(code[..ep0])
      decreases 2 * ESIZE - ep
    {
      if c == NL {
        return false, pos, ep, cclcnt, cs;
      }
      var last;
      ok, last, pos, ep, cclcnt, cs := ReadNext(input, pos0, q, code, ep0, pos, ep, cclcnt, cs, c);
      if !ok || last {
        return;
      }
      q := pos;
      c := Getchr(input, pos);
      pos := After(input, pos);
      if c == CLOSECLS {
        break;
      }
    }
    ok := true;
  }

  /** The parts read so far are in the code, and the groups still open on the stack of brackets. */
  ghost predicate Written(code: seq<int>, ep: nat, bracket: seq<int>, bracketp: nat, nbra: nat, s: State) {
    && |code| == ESIZE + 4 && |bracket| == NBRA && ep == |Code(s.nodes)| < |code| && code[..ep] == Code(s.nodes)
    && bracketp == |s.opens| <= nbra == s.nbra <= NBRA && bracket[..bracketp] == s.opens
  }

  /** lastep is where the part begins that a star would apply to, or tells that there is none. */
  ghost predicate LastPart(code: seq<int>, ep: nat, lastep: int, s: State) {
    if s.star then
      s.nodes != [] && lastep == |Code(s.nodes[..|s.nodes| - 1])| < |code| && var node := s.nodes[|s.nodes| - 1];
      code[lastep] == NodeCode(node)[0] && (node.Once? || node.Many? || node.Back? || node.BackMany?)
    else lastep == -1 || (0 <= lastep < ep && lastep < |code| && (code[lastep] == CBRA || code[lastep] == CKET))
  }

  /** The code of one part more has been written behind the rest. */
  lemma WrittenAdd(was: seq<int>, code: seq<int>, ep: nat, ep': nat, bracket: seq<int>, bracketp: nat, nbra: nat,
        s: State, pos: nat, node: Node, star: bool)
    requires Written(was, ep, bracket, bracketp, nbra, s) && |code| == |was| && ep <= ep' < |code|
    requires code[..ep] == was[..ep] && code[ep..ep'] == NodeCode(node)
    ensures Written(code, ep', bracket, bracketp, nbra, Added(s, pos, node, star))
  {
    CodeOne(s.nodes, node);
    TwoPieces(code, ep, ep', Code(s.nodes), NodeCode(node));
  }

  lemma TwoPieces(code: seq<int>, ep: nat, ep': nat, a: seq<int>, b: seq<int>)
    requires ep <= ep' <= |code| && code[..ep] == a && code[ep..ep'] == b
    ensures code[..ep'] == a + b && ep' == |a + b|
  {
    assert code[..ep'] == code[..ep] + code[ep..ep'];
  }

  /** It is the part a star would apply to, or the beginning or end of a group. */
  lemma LastAdd(code: seq<int>, ep: nat, s: State, pos: nat, node: Node, star: bool)
    requires ep == |Code(s.nodes)| && ep + |NodeCode(node)| < |code|
    requires code[ep..ep + |NodeCode(node)|] == NodeCode(node)
    requires if star then node.Once? || node.Back? else node.Open? || node.Close?
    ensures LastPart(code, ep + |NodeCode(node)|, ep, Added(s, pos, node, star))
  {
    var t := Added(s, pos, node, star);
    assert t.nodes[..|s.nodes|] == s.nodes;
    assert code[ep] == code[ep..ep + |NodeCode(node)|][0];
  }

  /** A star that stands for itself leaves what a star applies to as it was: nothing. */
  lemma LastKept(was: seq<int>, code: seq<int>, ep: nat, ep': nat, lastep: int, s: State, pos: nat, node: Node)
    requires !s.star && LastPart(was, ep, lastep, s) && ep <= ep' < |code| == |was| && code[..ep] == was[..ep]
    ensures LastPart(code, ep', lastep, Added(s, pos, node, false))
  {
    assert lastep != -1 ==> code[lastep] == code[..ep][lastep] == was[..ep][lastep];
  }

  /** Two bytes of code. */
  method PutTwo(code: array<int>, ep: nat, op: int, arg: int) returns (ep': nat)
    requires ep + 2 <= code.Length
    modifies code
    ensures ep' == ep + 2 && code[..ep] == old(code[..ep]) && code[ep..ep'] == [op, arg]
  {
    code[ep] := op;
    code[ep + 1] := arg;
    ep' := ep + 2;
  }

  function PlainNode(c: int, atEnd: bool): Node {
    if atEnd then End else Once(if c == DOT then Dot else Char(c))
  }

  /** The code of a plain character, a dot, or a dollar sign at the end. */
  method EmitPlain(code: array<int>, ghost bracket: seq<int>, ep: nat, ghost bracketp: nat, ghost nbra: nat,
        ghost s: State, ghost pos: nat, c: int, atEnd: bool, ghost star: bool)
    returns (ep': nat)
    requires Written(code[..], ep, bracket, bracketp, nbra, s) && ep < ESIZE && !(c == DOT && atEnd) && !(star && atEnd)
    modifies code
    ensures code[..ep] == old(code[..ep]) && ep <= ep' <= ep + 2
    ensures Written(code[..], ep', bracket, bracketp, nbra, Added(s, pos, PlainNode(c, atEnd), star))
    ensures star ==> LastPart(code[..], ep', ep, Added(s, pos, PlainNode(c, atEnd), star))
  {
    ghost var was := code[..];
    if c == DOT || atEnd {
      code[ep] := if c == DOT then CDOT else CDOL;
      ep' := ep + 1;
    } else {
      ep' := PutTwo(code, ep, CCHR, c);
    }
    ghost var now := code[..];
    assert now[..ep] == was[..ep] && now[ep..ep'] == NodeCode(PlainNode(c, atEnd));
    WrittenAdd(was, now, ep, ep', bracket, bracketp, nbra, s, pos, PlainNode(c, atEnd), star);
    if star {
      LastAdd(now, ep, s, pos, PlainNode(c, atEnd), true);
    }
  }

  /** The code of what a backslash and c stand for; c is EOF when the pattern ends there. */
  method EmitEscaped(code: array<int>, bracket: array<int>, ep: nat, bracketp: nat, nbra: nat, ghost s: State,
        ghost pos: nat, c: int)
    returns (ok: bool, ep': nat, bracketp': nat, nbra': nat)
    requires code != bracket && Written(code[..], ep, bracket[..], bracketp, nbra, s) && ep < ESIZE
    modifies code, bracket
    ensures code[..ep] == old(code[..ep]) && (ok <==> Escaped(s, pos, c).Some?) && ep' <= ep + 2
    ensures ok ==> Written(code[..], ep', bracket[..], bracketp', nbra', Escaped(s, pos, c).value)
    ensures ok ==> LastPart(code[..], ep', ep, Escaped(s, pos, c).value)
  {
    ep', bracketp', nbra' := ep, bracketp, nbra;
    ghost var was, stack, node := code[..], bracket[..], Once(Char(c));
    var op, arg := CCHR, c;
    if c == LPAR {
      if nbra >= NBRA {
        return false, ep', bracketp', nbra';
      }
      bracket[bracketp] := nbra;
      op, arg, node := CBRA, nbra, Open(nbra);
      bracketp', nbra' := bracketp + 1, nbra + 1;
    } else if c == RPAR {
      if bracketp <= 0 {
        return false, ep', bracketp', nbra';
      }
      bracketp' := bracketp - 1;
      op, arg, node := CKET, bracket[bracketp'], Close(bracket[bracketp']);
    } else if ONE <= c < ONE + NBRA {
      op, arg, node := CBACK, c - ONE, Back(c - ONE);
    } else {
      code[ep] := CCHR;
      if c == NL {
        return false, ep', bracketp', nbra';
      }
    }
    ep' := PutTwo(code, ep, op, arg);
    EscapedEmitted(was, code[..], ep, stack, bracket[..], bracketp, nbra, s, pos, c, node);
    ok := true;
  }

  lemma EscapedEmitted(was: seq<int>, code: seq<int>, ep: nat, stack: seq<int>, bracket: seq<int>, bracketp: nat,
        nbra: nat, s: State, pos: nat, c: int, node: Node)
    requires Written(was, ep, stack, bracketp, nbra, s) && Escaped(s, pos, c).Some?
    requires |code| == |was| && ep < ESIZE && |NodeCode(node)| == 2
    requires code[..ep] == was[..ep] && code[ep..ep + 2] == NodeCode(node)
    requires Escaped(s, pos, c).value.nodes == s.nodes + [node]
    requires bracket == if c == LPAR && bracketp < NBRA then stack[bracketp := nbra] else stack
    ensures var t := Escaped(s, pos, c).value;
      Written(code, ep + 2, bracket, |t.opens|, t.nbra, t) && LastPart(code, ep + 2, ep, t)
  {
    var t := Escaped(s, pos, c).value;
    assert node == t.nodes[|s.nodes|];
    WrittenAdd(was, code, ep, ep + 2, stack, bracketp, nbra, s, pos, node, t.star);
    LastAdd(code, ep, s, pos, node, t.star);
    assert bracket[..|t.opens|] == t.opens by {
      if c == LPAR {
        assert bracket[..|t.opens|] == stack[..bracketp] + [nbra];
      } else if c == RPAR {
        assert bracket[..|t.opens|] == stack[..bracketp][..bracketp - 1];
      }
    }
  }

  /** Setting the low bit, as |= STAR does. */
  function WithStar(op: int): int {
    if op % 2 == 0 then op + STAR else op
  }

  lemma StarredCode(node: Node)
    requires node.Once? || node.Many? || node.Back? || node.BackMany?
    ensures NodeCode(Starred(node)) == NodeCode(node)[0 := WithStar(NodeCode(node)[0])]
  {
  }

  function StarredState(s: State, pos: nat): State
    requires s.nodes != []
  {
    s.(pos := pos, nodes := s.nodes[..|s.nodes| - 1] + [Starred(s.nodes[|s.nodes| - 1])])
  }

  /** The star of the last part. */
  method EmitStar(code: array<int>, ghost bracket: seq<int>, ghost ep: nat, lastep: int, ghost bracketp: nat,
        ghost nbra: nat, ghost s: State, ghost pos: nat)
    requires Written(code[..], ep, bracket, bracketp, nbra, s) && s.star && LastPart(code[..], ep, lastep, s)
    modifies code
    ensures Written(code[..], ep, bracket, bracketp, nbra, StarredState(s, pos))
    ensures LastPart(code[..], ep, lastep, StarredState(s, pos))
  {
    ghost var was := code[..];
    code[lastep] := WithStar(code[lastep]);
    StarEmitted(was, code[..], ep, lastep, bracket, bracketp, nbra, s, pos);
  }

  /** Where the code of the last part begins, a star changes that part alone. */
  lemma StarInCode(was: seq<int>, ep: nat, lastep: nat, head: seq<int>, last: seq<int>)
    requires ep <= |was| && was[..ep] == head + last && |head| == lastep && last != []
    ensures was[lastep] == last[0]
    ensures was[lastep := WithStar(was[lastep])][..ep] == head + last[0 := WithStar(last[0])]
  {
    assert was[lastep] == was[..ep][lastep];
  }

  lemma StarEmitted(was: seq<int>, code: seq<int>, ep: nat, lastep: nat, bracket: seq<int>, bracketp: nat, nbra: nat,
        s: State, pos: nat)
    requires Written(was, ep, bracket, bracketp, nbra, s) && s.star && LastPart(was, ep, lastep, s)
    requires code == was[lastep := WithStar(was[lastep])]
    ensures Written(code, ep, bracket, bracketp, nbra, StarredState(s, pos))
    ensures LastPart(code, ep, lastep, StarredState(s, pos))
  {
    var k := |s.nodes| - 1;
    var head, last := Code(s.nodes[..k]), NodeCode(s.nodes[k]);
    assert s.nodes == s.nodes[..k] + [s.nodes[k]];
    var nodes := StarredState(s, pos).nodes;
    assert nodes == s.nodes[..k] + [Starred(s.nodes[k])] && nodes[..k] == s.nodes[..k];
    CodeOne(s.nodes[..k], s.nodes[k]);
    CodeOne(s.nodes[..k], Starred(s.nodes[k]));
    StarredCode(s.nodes[k]);
    StarInCode(was, ep, lastep, head, last);
    assert code[..ep] == Code(nodes);
  }

  lemma ClassTooLong(input: seq<int>, pos0: nat, ep: nat, s: State, member: bool)
    requires ep == |Code(s.nodes)| && NoClass(input, pos0, ep + 2)
    ensures var cls := ClassAt(input, pos0, []);
      cls.Some? ==> |Code(s.nodes + [Once(Class(cls.value.0, member))])| >= ESIZE
  {
    var cls := ClassAt(input, pos0, []);
    if cls.Some? {
      CodeOne(s.nodes, Once(Class(cls.value.0, member)));
    }
  }

  /** The operation of a class and the place for its length. */
  method ClassHead(input: seq<int>, code: array<int>, pos: nat, ep: nat) returns (pos': nat)
    requires ep + 1 < code.Length && pos <= |input|
    modifies code
    ensures var caret := pos < |input| && input[pos] == CARET;
      && pos' == (if caret then pos + 1 else pos) && code[ep] == (if caret then NCCL else CCL) && code[ep + 1] == 0
    ensures code[..ep] == old(code[..ep])
  {
    code[ep], code[ep + 1] := CCL, 0;
    pos' := pos;
    if Getchr(input, pos) == CARET {
      pos' := After(input, pos);
      code[ep] := NCCL;
    }
  }

  /**
   Reading a class from behind its opening bracket gives the node and the
   place behind it, or there is none or it is too long.
   */
  ghost predicate ClassOutcome(input: seq<int>, s: State, pos: nat, ok: bool, pos': nat, node: Node) {
    var caret := pos < |input| && input[pos] == CARET;
    var cls := ClassAt(input, if caret then pos + 1 else pos, []);
    if ok then cls.Some? && pos' == cls.value.1 && node == Once(Class(cls.value.0, !caret))
    else cls.Some? ==> |Code(Added(s, cls.value.1, Once(Class(cls.value.0, !caret)), true).nodes)| >= ESIZE
  }

  /** The code of a class; pos is behind its opening bracket. */
  method EmitClass(input: seq<int>, code: array<int>, ghost bracket: seq<int>, pos: nat, ep: nat, ghost bracketp: nat,
        ghost nbra: nat, ghost s: State)
    returns (ok: bool, pos': nat, ep': nat, ghost node: Node)
    requires Typed(input) && pos <= |input|
    requires Written(code[..], ep, bracket, bracketp, nbra, s) && ep < ESIZE
    modifies code
    ensures ClassOutcome(input, s, pos, ok, pos', node)
    ensures ok ==> ep' <= ESIZE && Written(code[..], ep', bracket, bracketp, nbra, Added(s, pos', node, true))
    ensures ok ==> LastPart(code[..], ep', ep, Added(s, pos', node, true))
  {
    ghost var was := code[..];
    pos' := ClassHead(input, code, pos, ep);
    ghost var mid, pos0 := code[..], pos';
    var cclcnt;
    ghost var cs;
    ok, pos', ep', cclcnt, cs := ReadClass(input, pos', code, ep + 2);
    ghost var read := code[..];
    node := Once(Class(cs, mid[ep] == CCL));
    if !ok {
      ClassTooLong(input, pos0, ep, s, mid[ep] == CCL);
    } else {
      code[ep + 1] := cclcnt;
      ClassEmitted(was, mid, read, code[..], ep, cs, bracket, bracketp, nbra, s, pos');
    }
  }

  lemma ClassEmitted(was: seq<int>, mid: seq<int>, read: seq<int>, now: seq<int>, ep: nat, cs: seq<int>,
        bracket: seq<int>, bracketp: nat, nbra: nat, s: State, pos: nat)
    requires Written(was, ep, bracket, bracketp, nbra, s) && |was| == |mid| == |read| && ep + 2 + |cs| < |was|
    requires mid[..ep] == was[..ep] && mid[ep] in {CCL, NCCL} && read[..ep + 2] == mid[..ep + 2]
    requires read[ep + 2..ep + 2 + |cs|] == cs && now == read[ep + 1 := |cs| + 1]
    ensures var node := Once(Class(cs, mid[ep] == CCL));
      && Written(now, ep + 2 + |cs|, bracket, bracketp, nbra, Added(s, pos, node, true))
      && LastPart(now, ep + 2 + |cs|, ep, Added(s, pos, node, true))
  {
    var node := Once(Class(cs, mid[ep] == CCL));
    ClassAssembled(was, mid, read, now, ep, cs);
    WrittenAdd(was, now, ep, ep + 2 + |cs|, bracket, bracketp, nbra, s, pos, node, true);
    LastAdd(now, ep, s, pos, node, true);
  }

  lemma ClassAssembled(was: seq<int>, mid: seq<int>, read: seq<int>, now: seq<int>, ep: nat, cs: seq<int>)
    requires ep + 2 + |cs| <= |was| == |mid| == |read| && mid[..ep] == was[..ep]
    requires read[..ep + 2] == mid[..ep + 2] && read[ep + 2..ep + 2 + |cs|] == cs
    requires now == read[ep + 1 := |cs| + 1]
    ensures now[..ep] == was[..ep] && now[ep..ep + 2 + |cs|] == [mid[ep], |cs| + 1] + cs
  {
    assert now[..ep] == read[..ep + 2][..ep];
    assert read[ep] == read[..ep + 2][ep];
    assert now[ep..ep + 2 + |cs|] == now[ep..ep + 2] + read[ep + 2..ep + 2 + |cs|];
  }

  /**
   The outcome of one part: what Next says, unless the code gets too long
   or the characters run out behind a backslash.
   */
  ghost predicate Turned(input: seq<int>, eof: int, s: State, ok: bool, code: seq<int>, pos: nat, ep: nat, lastep: int,
        bracket: seq<int>, bracketp: nat, nbra: nat, s': State)
    requires s.pos < |input|
  {
    var next := Next(input, eof, s);
    && (!ok && next.Some? ==> |Code(next.value.nodes)| >= ESIZE)
    && (ok ==> ep <= ESIZE + 2 && s.pos < pos <= |input| && |code| == ESIZE + 4 && |bracket| == NBRA)
    && (ok && next.None? ==> pos == |input|)
    && (ok && next.Some? ==>
        && s' == next.value && s'.pos == pos && Written(code, ep, bracket, bracketp, nbra, s')
        && (Getchr(input, pos) == eof || LastPart(code, ep, lastep, s')))
  }

  /** There is a part more to read, and the code is not too long so far. */
  ghost predicate Turning(input: seq<int>, eof: int, code: array<int>, bracket: array<int>, pos: nat, ep: nat,
        lastep: int, bracketp: nat, nbra: nat, s: State)
    reads code, bracket
  {
    && Typed(input) && eof != EOF && code != bracket && ep < ESIZE && s.pos == pos < |input| && input[pos] != eof
    && Written(code[..], ep, bracket[..], bracketp, nbra, s) && LastPart(code[..], ep, lastep, s)
  }

  method TurnEscape(input: seq<int>, eof: int, code: array<int>, bracket: array<int>, pos: nat, ep: nat, lastep: int,
        bracketp: nat, nbra: nat, ghost s: State)
    returns (ok: bool, pos': nat, ep': nat, lastep': int, bracketp': nat, nbra': nat, ghost s': State)
    requires Turning(input, eof, code, bracket, pos, ep, lastep, bracketp, nbra, s)
    requires input[pos] == BACKSLASH
    modifies code, bracket
    ensures Turned(input, eof, s, ok, code[..], pos', ep', lastep', bracket[..], bracketp', nbra', s')
  {
    ok, pos', ep', lastep', bracketp', nbra' := true, pos + 1, ep, ep, bracketp, nbra;
    ghost var next := Next(input, eof, s);
    s' := if next.Some? then next.value else s;
    pos' := After(input, pos + 1);
    ok, ep', bracketp', nbra' := EmitEscaped(code, bracket, ep, bracketp, nbra, s, pos', Getchr(input, pos + 1));
  }

  method TurnClass(input: seq<int>, eof: int, code: array<int>, bracket: array<int>, pos: nat, ep: nat, lastep: int,
        bracketp: nat, nbra: nat, ghost s: State)
    returns (ok: bool, pos': nat, ep': nat, lastep': int, bracketp': nat, nbra': nat, ghost s': State)
    requires Turning(input, eof, code, bracket, pos, ep, lastep, bracketp, nbra, s)
    requires input[pos] == OPENCLS
    modifies code, bracket
    ensures Turned(input, eof, s, ok, code[..], pos', ep', lastep', bracket[..], bracketp', nbra', s')
  {
    ok, pos', ep', lastep', bracketp', nbra' := true, pos + 1, ep, ep, bracketp, nbra;
    ghost var next := Next(input, eof, s);
    s' := if next.Some? then next.value else s;
    ghost var node;
    ok, pos', ep', node := EmitClass(input, code, bracket[..], pos', ep, bracketp, nbra, s);
    ClassTurned(input, eof, s, ok, code[..], pos', ep, ep', bracket[..], bracketp, nbra, node);
  }

  /** What the code of a class comes to for the part that Next reads. */
  lemma ClassTurned(input: seq<int>, eof: int, s: State, ok: bool, code: seq<int>, pos: nat, ep0: nat, ep: nat,
                    bracket: seq<int>, bracketp: nat, nbra: nat, node: Node)
    requires s.pos < |input| && input[s.pos] == OPENCLS && |code| == ESIZE + 4 && |bracket| == NBRA
    requires ClassOutcome(input, s, s.pos + 1, ok, pos, node)
    requires ok ==> ep <= ESIZE && Written(code, ep, bracket, bracketp, nbra, Added(s, pos, node, true))
    requires ok ==> LastPart(code, ep, ep0, Added(s, pos, node, true))
    ensures var next := Next(input, eof, s);
      Turned(input, eof, s, ok, code, pos, ep, ep0, bracket, bracketp, nbra, if next.Some? then next.value else s)
  {
  }

  method TurnPlain(input: seq<int>, eof: int, code: array<int>, bracket: array<int>, pos: nat, ep: nat, lastep: int,
        bracketp: nat, nbra: nat, ghost s: State)
    returns (ok: bool, pos': nat, ep': nat, lastep': int, bracketp': nat, nbra': nat, ghost s': State)
    requires Turning(input, eof, code, bracket, pos, ep, lastep, bracketp, nbra, s)
    requires input[pos] != BACKSLASH && input[pos] != NL && input[pos] != OPENCLS && (input[pos] == STARCH ==> !s.star)
    modifies code, bracket
    ensures Turned(input, eof, s, ok, code[..], pos', ep', lastep', bracket[..], bracketp', nbra', s')
  {
    ok, pos', ep', lastep', bracketp', nbra' := true, pos + 1, ep, ep, bracketp, nbra;
    ghost var next := Next(input, eof, s);
    s' := if next.Some? then next.value else s;
    ghost var was := code[..];
    var c := input[pos];
    var atEnd := c == DOLLAR && Getchr(input, pos') == eof;
    ep' := EmitPlain(code, bracket[..], ep, bracketp, nbra, s, pos', c, atEnd, c != STARCH && !atEnd);
    if c == STARCH {
      lastep' := lastep;
      LastKept(was, code[..], ep, ep', lastep, s, pos', PlainNode(c, atEnd));
    }
  }

  /** One part of the pattern. */
  method Turn(input: seq<int>, eof: int, code: array<int>, bracket: array<int>, pos: nat, ep: nat, lastep: int,
        bracketp: nat, nbra: nat, ghost s: State)
    returns (ok: bool, pos': nat, ep': nat, lastep': int, bracketp': nat, nbra': nat, ghost s': State)
    requires Turning(input, eof, code, bracket, pos, ep, lastep, bracketp, nbra, s)
    modifies code, bracket
    ensures Turned(input, eof, s, ok, code[..], pos', ep', lastep', bracket[..], bracketp', nbra', s')
  {
    ok, pos', ep', lastep', bracketp', nbra' := true, pos + 1, ep, ep, bracketp, nbra;
    ghost var next := Next(input, eof, s);
    s' := if next.Some? then next.value else s;
    var c := input[pos];
    if c == BACKSLASH {
      ok, pos', ep', lastep', bracketp', nbra', s' :=
        TurnEscape(input, eof, code, bracket, pos, ep, lastep, bracketp, nbra, s);
    } else if c == NL {
      ok := false;
    } else if c == STARCH && lastep != -1 && code[lastep] != CBRA && code[lastep] != CKET {
      lastep' := lastep;
      EmitStar(code, bracket[..], ep, lastep, bracketp, nbra, s, pos');
    } else if c == OPENCLS {
      ok, pos', ep', lastep', bracketp', nbra', s' :=
        TurnClass(input, eof, code, bracket, pos, ep, lastep, bracketp, nbra, s);
    } else {
      ok, pos', ep', lastep', bracketp', nbra', s' :=
        TurnPlain(input, eof, code, bracket, pos, ep, lastep, bracketp, nbra, s);
    }
  }

  /** compile between two parts: in agreement with Parse, unless the characters have run out and Parse has failed. */
  ghost predicate Between(input: seq<int>, eof: int, s0: State, code: seq<int>, pos: nat, ep: nat, lastep: int,
        bracket: seq<int>, bracketp: nat, nbra: nat, s: State)
  {
    && pos <= |input| && |code| == ESIZE + 4 && |bracket| == NBRA && ep <= ESIZE + 2
    && (pos == |input| ==> Parse(input, eof, s0) == None)
    && (pos < |input| ==>
        && Parse(input, eof, s0) == Parse(input, eof, s) && s.pos == pos
        && Written(code, ep, bracket, bracketp, nbra, s)
        && (input[pos] == eof || LastPart(code, ep, lastep, s)))
  }

  /** There is no pattern, or its code is too long. */
  ghost predicate NoGood(input: seq<int>, eof: int, s: State) {
    var r := Parse(input, eof, s);
    r.Some? ==> |Code(r.value.nodes)| >= ESIZE
  }

  lemma TurnedBetween(input: seq<int>, eof: int, s0: State, s: State, ok: bool, code: seq<int>, pos: nat, ep: nat,
        lastep: int, bracket: seq<int>, bracketp: nat, nbra: nat, s': State)
    requires s.pos < |input| && input[s.pos] != eof && Parse(input, eof, s0) == Parse(input, eof, s)
    requires Turned(input, eof, s, ok, code, pos, ep, lastep, bracket, bracketp, nbra, s')
    ensures if ok then Between(input, eof, s0, code, pos, ep, lastep, bracket, bracketp, nbra, s')
      else NoGood(input, eof, s0)
  {
    var next := Next(input, eof, s);
    if next.Some? {
      ParseLonger(input, eof, next.value);
    }
  }

  /** compile's loop, from place pos0 on. */
  method Translate(input: seq<int>, eof: int, code: array<int>, pos0: nat) returns (ok: bool, nbra: nat)
    requires Typed(input) && eof != EOF && pos0 <= |input| && code.Length == ESIZE + 4
    modifies code
    ensures var r := Parse(input, eof, State(pos0, [], 0, [], false));
      if ok then r.Some? && |Code(r.value.nodes)| < ESIZE && Holds(code[..], 0, r.value.nodes) && nbra == r.value.nbra
      else NoGood(input, eof, State(pos0, [], 0, [], false))
  {
    var bracket := new int[NBRA](_ => 0);
    var pos: nat, ep: nat, lastep: int, bracketp: nat := pos0, 0, -1, 0;
    nbra := 0;
    ghost var s0 := State(pos0, [], 0, [], false);
    ghost var s := s0;
    while true
      invariant Between(input, eof, s0, code[..], pos, ep, lastep, bracket[..], bracketp, nbra, s)
      decreases |input| - pos, ESIZE + 2 - ep
    {
      if ep >= ESIZE {
        ParseLonger(input, eof, s);
        return false, 0;
      }
      if pos == |input| {
        lastep := ep;
        ep := PutTwo(code, ep, CCHR, EOF);
      } else if input[pos] == eof {
        if bracketp != 0 {
          return false, 0;
        }
        ghost var was := code[..];
        code[ep] := CEOF;
        assert code[..][0..ep] == was[..ep];
        return true, nbra;
      } else {
        ghost var before := s;
        ok, pos, ep, lastep, bracketp, nbra, s := Turn(input, eof, code, bracket, pos, ep, lastep, bracketp, nbra, s);
        TurnedBetween(input, eof, s0, before, ok, code[..], pos, ep, lastep, bracket[..], bracketp, nbra, s);
        if !ok {
          return false, 0;
        }
      }
    }
  }

  /**
   compile: the pattern from the characters typed up to the delimiter aeof. No characters at all stand for the
   pattern compiled before, if there is one. When there is no good pattern the one before is lost.
   */
  method Compile(m: Matcher, input: seq<int>, aeof: int) returns (ok: bool)
    requires m.Valid() && Typed(input) && aeof != EOF
    modifies m`circfl, m`nbra, m.expbuf
    ensures input != [] && input[0] == aeof ==>
      (ok <==> m.expbuf[0] != 0) && m.expbuf[..] == old(m.expbuf[..]) && m.circfl == old(m.circfl)
        && m.nbra == old(m.nbra)
    ensures !(input != [] && input[0] == aeof) ==>
      var r := Pattern(input, aeof);
      && (ok <==> r.Some? && |Code(r.value.nodes)| < ESIZE)
      && (if ok then
            Holds(m.expbuf[..], 0, r.value.nodes) && m.nbra == r.value.nbra && (m.circfl <==> input[0] == CARET)
          else m.expbuf[0] == 0 && m.nbra == 0)
  {
    var pos := 0;
    if Getchr(input, pos) == aeof {
      return m.expbuf[0] != 0;
    }
    m.circfl := false;
    m.nbra := 0;
    if Getchr(input, pos) == CARET {
      pos := 1;
      m.circfl := true;
    }
    var nbra;
    ok, nbra := Translate(input, aeof, m.expbuf, pos);
    if ok {
      m.nbra := nbra;
    } else {
      m.expbuf[0] := 0;
      m.nbra := 0;
    }
  }

  /** A pattern without references back is fit for the matcher. */
  lemma PatternFit(input: seq<int>, eof: int)
    requires Typed(input) && Pattern(input, eof).Some?
    ensures var nodes := Pattern(input, eof).value.nodes;
      (forall i :: 0 <= i < |nodes| ==> !nodes[i].Back? && !nodes[i].BackMany?) ==> Sound(nodes)
  {
    var s0 := State(if input != [] && input[0] == CARET then 1 else 0, [], 0, [], false);
    var r := Parse(input, eof, s0).value;
    ParseSound(input, eof, s0);
    NestNumbered(r.nodes);
    NestOnce(r.nodes);
  }

  /** The groups of a pattern are numbered from 0 on, and each has a beginning and behind it an end. */
  lemma GroupsPaired(input: seq<int>, eof: int, n: nat)
    requires Typed(input) && Pattern(input, eof).Some? && n < Pattern(input, eof).value.nbra
    ensures exists i :: PairFrom(Pattern(input, eof).value.nodes, n, false, i)
  {
    var s0 := State(if input != [] && input[0] == CARET then 1 else 0, [], 0, [], false);
    ParseSound(input, eof, s0);
    NestPaired(Parse(input, eof, s0).value.nodes, n);
  }

  /**
   compile and then execute on a line: for a pattern without references back, the line matches exactly when the
   pattern has a path through it somewhere.
   */
  method CompileAndExecute(m: Matcher, input: seq<int>, aeof: int, line: seq<int>)
    returns (compiled: bool, ok: bool, ghost ps: seq<nat>)
    requires m.Valid() && Typed(input) && aeof != EOF && !(input != [] && input[0] == aeof) && 0 !in line
    requires var r := Pattern(input, aeof);
      r.Some? ==> forall i :: 0 <= i < |r.value.nodes| ==> !r.value.nodes[i].Back? && !r.value.nodes[i].BackMany?
    modifies m, m.expbuf, m.braslist, m.braelist
    ensures compiled <==> Pattern(input, aeof).Some? && |Code(Pattern(input, aeof).value.nodes)| < ESIZE
    ensures compiled ==>
      var nodes := Pattern(input, aeof).value.nodes;
      && (m.circfl <==> input[0] == CARET)
      && (ok <==> MatchesSomewhere(line, nodes, m.circfl))
      && (ok ==> m.loc1 >= 0 && Finds(line, nodes, m.circfl, m.loc1) && Greediest(line, nodes, m.loc1, ps))
      && (ok ==> m.loc2 == ps[|nodes|] && Recorded(nodes, ps, m.braslist[..], m.braelist[..]))
      && (ok ==> forall start: nat :: Finds(line, nodes, m.circfl, start) ==> m.loc1 <= start)
  {
    compiled := Compile(m, input, aeof);
    ok, ps := false, [];
    m.linebuf := line;
    if compiled {
      PatternFit(input, aeof);
      ghost var nodes := Pattern(input, aeof).value.nodes;
      ok, ps := m.Execute(nodes);
    }
  }
}
