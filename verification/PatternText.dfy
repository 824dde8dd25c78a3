/**
 Patterns as they are typed, apart from the reader that compile is: each part has its own ways of being
 typed, what is typed is read as the pattern meant, and nothing else is read at all.
 */
module PatternText {
  import opened Patterns
  import opened Matching
  import opened Compiling

  // ----- classes -----

  /** What a class lists: a character, or the characters on from the one listed last up to another. */
  datatype Listed = One(c: int) | Upto(from: int, hi: int)

  function ListedText(x: Listed): (t: seq<int>)
    ensures t != []
  {
    match x
    case One(c) => [c]
    case Upto(_, hi) => [MINUS, hi]
  }

  /** A list and the bracket that ends it. */
  function ListText(xs: seq<Listed>): (t: seq<int>)
    ensures t != []
  {
    if xs == [] then [CLOSECLS] else ListedText(xs[0]) + ListText(xs[1..])
  }

  /** The character listed last so far, if any. */
  function EndOf(x: Listed): Option<int> {
    match x
    case One(c) => Option.Some(c)
    case Upto(_, hi) => Option.Some(hi)
  }

  /**
   Where something may be listed: a closing bracket first, a minus first or last, and a range where there
   is a character for it to go on from.
   */
  predicate Fits(x: Listed, before: Option<int>, last: bool) {
    match x
    case One(c) => c != NL && (c == CLOSECLS ==> before.None?) && (c == MINUS ==> before.None? || last)
    case Upto(from, hi) => before == Option.Some(from) && hi != CLOSECLS
  }

  predicate Listable(xs: seq<Listed>, before: Option<int>) {
    xs != [] ==> Fits(xs[0], before, |xs| == 1) && Listable(xs[1..], EndOf(xs[0]))
  }

  /** The character is listed, or lies in a range, whose end is in the class however low it is. */
  predicate Covers(x: Listed, c: int) {
    match x
    case One(d) => c == d
    case Upto(from, hi) => from < c <= hi || c == hi
  }

  function ListedChars(x: Listed): (cs: seq<int>)
    ensures cs != [] && Option.Some(cs[|cs| - 1]) == EndOf(x)
  {
    match x
    case One(c) => [c]
    case Upto(from, hi) => Range(from, hi) + [hi]
  }

  function ListChars(xs: seq<Listed>): seq<int> {
    if xs == [] then [] else ListedChars(xs[0]) + ListChars(xs[1..])
  }

  lemma RangeHas(lo: int, hi: int, c: int)
    ensures c in Range(lo, hi) <==> lo < c <= hi
  {
    var r := Range(lo, hi);
    if lo < c <= hi {
      assert r[c - lo - 1] == c;
    }
  }

  lemma {:induction false} CharsCovered(xs: seq<Listed>, c: int)
    ensures c in ListChars(xs) <==> exists k :: 0 <= k < |xs| && Covers(xs[k], c)
  {
    if xs != [] {
      CharsCovered(xs[1..], c);
      if xs[0].Upto? {
        RangeHas(xs[0].from, xs[0].hi, c);
      }
      assert c in ListedChars(xs[0]) <==> Covers(xs[0], c);
      if k :| 0 <= k < |xs| && Covers(xs[k], c) {
        assert k > 0 ==> xs[1..][k - 1] == xs[k];
      }
      if k :| 0 <= k < |xs[1..]| && Covers(xs[1..][k], c) {
        assert xs[k + 1] == xs[1..][k];
      }
    }
  }

  // ----- text at a place -----

  ghost predicate Stands(input: seq<int>, pos: nat, t: seq<int>)
    decreases |t|
  {
    if t == [] then pos <= |input| else pos < |input| && input[pos] == t[0] && Stands(input, pos + 1, t[1..])
  }

  lemma {:induction false} StandsSplit(input: seq<int>, pos: nat, a: seq<int>, b: seq<int>)
    requires Stands(input, pos, a + b)
    ensures Stands(input, pos, a) && Stands(input, pos + |a|, b)
    decreases |a|
  {
    if a == [] {
      assert a + b == b;
      StandsInside(input, pos, b);
    } else {
      assert (a + b)[1..] == a[1..] + b;
      StandsSplit(input, pos + 1, a[1..], b);
    }
  }

  lemma {:induction false} StandsInside(input: seq<int>, pos: nat, t: seq<int>)
    requires Stands(input, pos, t)
    ensures pos + |t| <= |input|
    decreases |t|
  {
    if t != [] {
      StandsInside(input, pos + 1, t[1..]);
    }
  }

  lemma {:induction false} StandsAtIndex(input: seq<int>, pos: nat, t: seq<int>, k: nat)
    requires Stands(input, pos, t) && k < |t|
    ensures pos + k < |input| && input[pos + k] == t[k]
    decreases k
  {
    if k > 0 {
      StandsAtIndex(input, pos + 1, t[1..], k - 1);
    }
  }

  lemma {:induction false} StandsBehind(front: seq<int>, t: seq<int>, k: nat)
    requires k <= |t|
    ensures Stands(front + t, |front| + k, t[k..])
    decreases |t| - k
  {
    if k < |t| {
      StandsBehind(front, t, k + 1);
    }
  }

  lemma {:induction false} StandsJoin(input: seq<int>, pos: nat, a: seq<int>, b: seq<int>)
    requires Stands(input, pos, a) && Stands(input, pos + |a|, b)
    ensures Stands(input, pos, a + b)
    decreases |a|
  {
    if a == [] {
      assert a + b == b;
    } else {
      assert (a + b)[1..] == a[1..] + b;
      StandsJoin(input, pos + 1, a[1..], b);
    }
  }

  lemma {:induction false} StandsIs(input: seq<int>, pos: nat, t: seq<int>)
    requires Stands(input, pos, t)
    ensures pos + |t| <= |input| && input[pos..pos + |t|] == t
    decreases |t|
  {
    if t != [] {
      StandsIs(input, pos + 1, t[1..]);
      assert input[pos..pos + |t|] == [input[pos]] + input[pos + 1..pos + |t|];
    }
  }

  lemma StandsOne(input: seq<int>, pos: nat, c: int)
    requires pos < |input| && input[pos] == c
    ensures Stands(input, pos, [c])
  {
    assert [c][1..] == [];
  }

  lemma StandsTwo(input: seq<int>, pos: nat, c: int, d: int)
    requires pos + 1 < |input| && input[pos] == c && input[pos + 1] == d
    ensures Stands(input, pos, [c, d])
  {
    StandsOne(input, pos + 1, d);
    assert [c, d][1..] == [d];
  }

  // ----- reading classes -----

  function LastOf(cs: seq<int>): Option<int> {
    if cs == [] then Option.None else Option.Some(cs[|cs| - 1])
  }

  /** One thing listed is read. */
  lemma ReadListed(input: seq<int>, pos: nat, cs: seq<int>, x: Listed)
    requires Stands(input, pos, ListedText(x)) && pos + |ListedText(x)| < |input| && Fits(x, LastOf(cs), false)
    ensures ClassAt(input, pos, cs) == ClassRest(input, pos + |ListedText(x)|, cs + ListedChars(x))
    ensures cs != [] ==> input[pos] != CLOSECLS
    ensures LastOf(cs + ListedChars(x)) == EndOf(x)
  {
    StandsAtIndex(input, pos, ListedText(x), 0);
    if x.Upto? {
      StandsAtIndex(input, pos, ListedText(x), 1);
      assert cs + Range(x.from, x.hi) + [x.hi] == cs + ListedChars(x);
    }
  }

  /** One thing listed is read, and what is behind it too. */
  lemma ReadListedThen(input: seq<int>, pos: nat, cs: seq<int>, x: Listed, all: seq<int>, end: nat)
    requires Stands(input, pos, ListedText(x)) && pos + |ListedText(x)| < |input| && Fits(x, LastOf(cs), false)
    requires ClassRest(input, pos + |ListedText(x)|, cs + ListedChars(x)) == Option.Some((all, end))
    ensures ClassAt(input, pos, cs) == Option.Some((all, end))
    ensures cs != [] ==> ClassRest(input, pos, cs) == Option.Some((all, end))
  {
    ReadListed(input, pos, cs, x);
  }

  /** A minus behind something listed and before the bracket. */
  lemma ReadLastMinus(input: seq<int>, pos: nat, cs: seq<int>)
    requires cs != [] && Stands(input, pos, ListText([One(MINUS)]))
    ensures ClassRest(input, pos, cs) == Option.Some((cs + ListChars([One(MINUS)]), pos + 2))
  {
    assert [One(MINUS)][1..] == [];
    assert ListText([One(MINUS)]) == [MINUS, CLOSECLS] && ListChars([One(MINUS)]) == [MINUS];
    StandsAtIndex(input, pos, [MINUS, CLOSECLS], 0);
    StandsAtIndex(input, pos, [MINUS, CLOSECLS], 1);
  }

  lemma ReadNothing(input: seq<int>, pos: nat, cs: seq<int>)
    requires Stands(input, pos, [CLOSECLS])
    ensures ClassRest(input, pos, cs) == Option.Some((cs + [], pos + 1))
  {
    StandsAtIndex(input, pos, [CLOSECLS], 0);
    assert cs + [] == cs;
  }
  /** The characters of a list by its first element. */
  lemma CharsFirst(xs: seq<Listed>, cs: seq<int>)
    requires xs != []
    ensures cs + ListChars(xs) == cs + ListedChars(xs[0]) + ListChars(xs[1..])
  {
  }

  /** The rest of a list and the bracket behind it are read: all is what was read before and what the rest lists. */
  lemma {:induction false} ReadList(input: seq<int>, pos: nat, cs: seq<int>, xs: seq<Listed>, all: seq<int>, end: nat)
    requires Stands(input, pos, ListText(xs)) && cs != [] && Listable(xs, LastOf(cs))
    requires all == cs + ListChars(xs) && end == pos + |ListText(xs)|
    ensures ClassRest(input, pos, cs) == Option.Some((all, end))
    decreases |xs|
  {
    if xs == [] {
      ReadNothing(input, pos, cs);
    } else if xs == [One(MINUS)] {
      ReadLastMinus(input, pos, cs);
    } else {
      var x, t := ListedText(xs[0]), ListText(xs[1..]);
      CharsFirst(xs, cs);
      StandsSplit(input, pos, x, t);
      StandsInside(input, pos + |x|, t);
      ReadList(input, pos + |x|, cs + ListedChars(xs[0]), xs[1..], all, end);
      ReadListedThen(input, pos, cs, xs[0], all, end);
    }
  }

  lemma NothingBefore(cs: seq<int>)
    ensures [] + cs == cs
  {
  }

  /** A whole list. */
  lemma ReadWhole(input: seq<int>, pos: nat, xs: seq<Listed>)
    requires Stands(input, pos, ListText(xs)) && xs != [] && Listable(xs, Option.None)
    ensures ClassAt(input, pos, []) == Option.Some((ListChars(xs), pos + |ListText(xs)|))
  {
    var x, t := ListedText(xs[0]), ListText(xs[1..]);
    StandsSplit(input, pos, x, t);
    StandsInside(input, pos + |x|, t);
    NothingBefore(ListedChars(xs[0]));
    var all, end := ListChars(xs), pos + |ListText(xs)|;
    ReadList(input, pos + |x|, ListedChars(xs[0]), xs[1..], all, end);
    ReadListedThen(input, pos, [], xs[0], all, end);
  }

  /** What a class read was typed as, behind its first character. */
  lemma {:induction false} TypedList(input: seq<int>, pos: nat, cs: seq<int>) returns (xs: seq<Listed>)
    requires cs != [] && ClassRest(input, pos, cs).Some?
    ensures Listable(xs, LastOf(cs)) && Stands(input, pos, ListText(xs))
    decreases |input| - pos
  {
    if input[pos] == CLOSECLS {
      xs := [];
      StandsOne(input, pos, CLOSECLS);
    } else if input[pos] == MINUS && input[pos + 1] == CLOSECLS {
      xs := [One(MINUS)];
      assert xs[1..] == [];
      StandsTwo(input, pos, MINUS, CLOSECLS);
      assert ListText(xs) == [MINUS, CLOSECLS];
    } else {
      var x := if input[pos] == MINUS then Upto(cs[|cs| - 1], input[pos + 1]) else One(input[pos]);
      var t := ListedText(x);
      if x.Upto? {
        StandsTwo(input, pos, MINUS, x.hi);
      } else {
        StandsOne(input, pos, x.c);
      }
      StandsInside(input, pos, t);
      TypedInside(input, pos, cs, x);
      ReadListed(input, pos, cs, x);
      var rest := TypedList(input, pos + |t|, cs + ListedChars(x));
      xs := [x] + rest;
      assert xs[1..] == rest;
      StandsJoin(input, pos, t, ListText(rest));
    }
  }

  /** Something is left of the characters behind what has been read. */
  lemma TypedInside(input: seq<int>, pos: nat, cs: seq<int>, x: Listed)
    requires cs != [] && ClassRest(input, pos, cs).Some? && input[pos] != CLOSECLS && pos + 1 < |input|
    requires x == if input[pos] == MINUS then Upto(cs[|cs| - 1], input[pos + 1]) else One(input[pos])
    requires x.Upto? ==> x.hi != CLOSECLS
    ensures pos + |ListedText(x)| < |input| && Fits(x, LastOf(cs), false)
  {
  }

  lemma TypedWhole(input: seq<int>, pos: nat) returns (xs: seq<Listed>)
    requires ClassAt(input, pos, []).Some?
    ensures xs != [] && Listable(xs, Option.None) && Stands(input, pos, ListText(xs))
    ensures ClassAt(input, pos, []).value == (ListChars(xs), pos + |ListText(xs)|)
    ensures ListedText(xs[0])[0] == input[pos]
  {
    var c := input[pos];
    assert [] + [c] == [c];
    var rest := TypedList(input, pos + 1, [c]);
    xs := [One(c)] + rest;
    assert xs[1..] == rest;
    StandsOne(input, pos, c);
    StandsJoin(input, pos, [c], ListText(rest));
    ReadWhole(input, pos, xs);
  }

  // ----- what stands for one character -----

  /** A character typed as it is or behind a backslash, a dot, a class. */
  datatype Glyph = Bare(c: int) | Quoted(c: int) | AnyChar | Listing(xs: seq<Listed>, negated: bool)

  function ItemOf(g: Glyph): Item {
    match g
    case Bare(c) => Char(c)
    case Quoted(c) => Char(c)
    case AnyChar => Dot
    case Listing(xs, negated) => Class(ListChars(xs), !negated)
  }

  /** A class takes the characters that it covers, or the others. */
  lemma ClassAcceptsIff(xs: seq<Listed>, negated: bool, c: int)
    ensures Accepts(ItemOf(Listing(xs, negated)), c) <==> ((exists k :: 0 <= k < |xs| && Covers(xs[k], c)) != negated)
  {
    CharsCovered(xs, c);
  }

  /** A delimiter that means nothing else. */
  predicate PlainDelimiter(eof: int) {
    eof !in {EOF, NL, BACKSLASH, DOT, STARCH, DOLLAR, OPENCLS, CARET, LPAR, RPAR} && !(ONE <= eof < ONE + NBRA)
  }

  function CaretText(b: bool): seq<int> {
    if b then [CARET] else []
  }

  function GlyphText(g: Glyph): (t: seq<int>)
    ensures t != []
  {
    match g
    case Bare(c) => [c]
    case Quoted(c) => [BACKSLASH, c]
    case AnyChar => [DOT]
    case Listing(xs, negated) => [OPENCLS] + (CaretText(negated) + ListText(xs))
  }

  /**
   What can be typed. Bare, a character must not mean something else; where a star, a dollar sign or a caret
   does not, is a matter of its place. Quoted, it must not be what a backslash makes something else of.
   */
  predicate Typable(g: Glyph, eof: int) {
    match g
    case Bare(c) => c !in {eof, NL, BACKSLASH, DOT, OPENCLS}
    case Quoted(c) => c !in {NL, LPAR, RPAR} && !(ONE <= c < ONE + NBRA)
    case AnyChar => true
    case Listing(xs, negated) => xs != [] && Listable(xs, Option.None) && (negated || ListedText(xs[0])[0] != CARET)
  }

  /** Reading on from s comes to t. */
  ghost predicate Leads(input: seq<int>, eof: int, s: State, t: State)
    decreases |input| - s.pos, 1
  {
    s == t || LeadsOn(input, eof, s, t)
  }

  ghost predicate LeadsOn(input: seq<int>, eof: int, s: State, t: State)
    decreases |input| - s.pos, 0
  {
    && s.pos < |input| && input[s.pos] != eof && Next(input, eof, s).Some?
    && Leads(input, eof, Next(input, eof, s).value, t)
  }

  lemma LeadsNext(input: seq<int>, eof: int, s: State, t: State)
    requires s.pos < |input| && input[s.pos] != eof && Next(input, eof, s) == Option.Some(t)
    ensures Leads(input, eof, s, t)
  {
    assert LeadsOn(input, eof, s, t);
  }

  lemma {:induction false} LeadsTransitive(input: seq<int>, eof: int, s: State, t: State, u: State)
    requires Leads(input, eof, s, t) && Leads(input, eof, t, u)
    ensures Leads(input, eof, s, u)
    decreases |input| - s.pos
  {
    if s != t {
      assert LeadsOn(input, eof, s, t);
      LeadsTransitive(input, eof, Next(input, eof, s).value, t, u);
      assert LeadsOn(input, eof, s, u);
    }
  }

  /** What is read in the end is the same from here as from there. */
  lemma {:induction false} LeadsParse(input: seq<int>, eof: int, s: State, t: State)
    requires Leads(input, eof, s, t)
    ensures Parse(input, eof, s) == Parse(input, eof, t)
    decreases |input| - s.pos
  {
    if s != t {
      assert LeadsOn(input, eof, s, t);
      LeadsParse(input, eof, Next(input, eof, s).value, t);
    }
  }
  /** A dollar sign is plain when the delimiter is not next, and a star when it would apply to nothing. */
  lemma ReadBare(input: seq<int>, eof: int, s: State, c: int, t: State)
    requires PlainDelimiter(eof) && Typable(Bare(c), eof) && s.pos + 1 < |input| && input[s.pos] == c
    requires (c == STARCH ==> !s.star) && (c == DOLLAR ==> input[s.pos + 1] != eof)
    requires t == Added(s, s.pos + 1, Once(Char(c)), c != STARCH)
    ensures Leads(input, eof, s, t)
  {
    LeadsNext(input, eof, s, t);
  }

  lemma ReadQuoted(input: seq<int>, eof: int, s: State, c: int, t: State)
    requires PlainDelimiter(eof) && Typable(Quoted(c), eof) && Stands(input, s.pos, [BACKSLASH, c])
    requires t == Added(s, s.pos + 2, Once(Char(c)), true)
    ensures Leads(input, eof, s, t)
  {
    StandsAtIndex(input, s.pos, [BACKSLASH, c], 0);
    StandsAtIndex(input, s.pos, [BACKSLASH, c], 1);
    LeadsNext(input, eof, s, t);
  }

  lemma ReadDot(input: seq<int>, eof: int, s: State, t: State)
    requires PlainDelimiter(eof) && s.pos + 1 < |input| && input[s.pos] == DOT
    requires t == Added(s, s.pos + 1, Once(Dot), true)
    ensures Leads(input, eof, s, t)
  {
    LeadsNext(input, eof, s, t);
  }

  lemma ListBegins(input: seq<int>, pos: nat, xs: seq<Listed>)
    requires xs != [] && Stands(input, pos, ListText(xs))
    ensures pos < |input| && input[pos] == ListedText(xs[0])[0]
  {
    StandsAtIndex(input, pos, ListText(xs), 0);
  }

  /** The class read: at is the place behind the bracket, and behind the caret if there is one. */
  lemma ReadClassAt(input: seq<int>, eof: int, s: State, xs: seq<Listed>, negated: bool, at: nat, item: Item, t: State)
    requires PlainDelimiter(eof) && s.pos + 1 < |input| && input[s.pos] == OPENCLS
    requires negated <==> input[s.pos + 1] == CARET
    requires at == (if negated then s.pos + 2 else s.pos + 1)
    requires t == Added(s, at + |ListText(xs)|, Once(item), true)
    requires xs != [] && Listable(xs, Option.None) && Stands(input, at, ListText(xs))
    requires item == Class(ListChars(xs), !negated)
    ensures Leads(input, eof, s, t)
  {
    ReadWhole(input, at, xs);
    LeadsNext(input, eof, s, t);
  }

  lemma BracketStands(input: seq<int>, pos: nat, caret: seq<int>, t: seq<int>)
    requires Stands(input, pos, [OPENCLS] + (caret + t)) && t != [] && (caret == [] || caret == [CARET])
    ensures pos + 1 + |caret| < |input| && input[pos] == OPENCLS && Stands(input, pos + 1 + |caret|, t)
    ensures caret != [] ==> input[pos + 1] == CARET
  {
    StandsSplit(input, pos, [OPENCLS], caret + t);
    StandsAtIndex(input, pos, [OPENCLS], 0);
    StandsSplit(input, pos + 1, caret, t);
    StandsAtIndex(input, pos + 1 + |caret|, t, 0);
    if caret != [] {
      StandsAtIndex(input, pos + 1, caret, 0);
    }
  }

  /** What stands behind the bracket of a class. */
  lemma ListingStands(input: seq<int>, pos: nat, xs: seq<Listed>, negated: bool, t: seq<int>) returns (at: nat)
    requires xs != [] && (negated || ListedText(xs[0])[0] != CARET)
    requires t == [OPENCLS] + (CaretText(negated) + ListText(xs)) && Stands(input, pos, t)
    ensures at == if negated then pos + 2 else pos + 1
    ensures pos + 1 < |input| && input[pos] == OPENCLS && (negated <==> input[pos + 1] == CARET)
    ensures Stands(input, at, ListText(xs)) && pos + |t| == at + |ListText(xs)|
  {
    at := pos + 1 + |CaretText(negated)|;
    BracketStands(input, pos, CaretText(negated), ListText(xs));
    ListBegins(input, at, xs);
  }

  lemma ListingShape(g: Glyph, eof: int)
    requires g.Listing? && Typable(g, eof)
    ensures GlyphText(g) == [OPENCLS] + (CaretText(g.negated) + ListText(g.xs))
    ensures ItemOf(g) == Class(ListChars(g.xs), !g.negated)
    ensures g.xs != [] && Listable(g.xs, Option.None) && (g.negated || ListedText(g.xs[0])[0] != CARET)
  {
  }

  /** Where a character typed bare is plain. */
  predicate PlainHere(g: Glyph, star: bool, eofNext: bool) {
    g.Bare? ==> (g.c == STARCH ==> !star) && (g.c == DOLLAR ==> !eofNext)
  }

  /** What was typed for one character is read as what it stands for. */
  lemma ReadGlyph(input: seq<int>, eof: int, s: State, g: Glyph, text: seq<int>, item: Item, t: State)
    requires PlainDelimiter(eof) && Typable(g, eof) && text == GlyphText(g) && item == ItemOf(g)
    requires Stands(input, s.pos, text) && s.pos + |text| < |input|
    requires PlainHere(g, s.star, input[s.pos + |text|] == eof)
    requires t == Added(s, s.pos + |text|, Once(item), g != Bare(STARCH))
    ensures Leads(input, eof, s, t)
  {
    if g.Listing? {
      ListingShape(g, eof);
      var at := ListingStands(input, s.pos, g.xs, g.negated, text);
      ReadClassAt(input, eof, s, g.xs, g.negated, at, item, t);
    } else if g.Bare? {
      StandsAtIndex(input, s.pos, text, 0);
      ReadBare(input, eof, s, g.c, t);
    } else if g.Quoted? {
      ReadQuoted(input, eof, s, g.c, t);
    } else {
      StandsAtIndex(input, s.pos, text, 0);
      ReadDot(input, eof, s, t);
    }
  }

  // ----- stars -----

  function Stars(n: nat): (t: seq<int>)
    ensures |t| == n
  {
    if n == 0 then [] else [STARCH] + Stars(n - 1)
  }

  function StarredBy(node: Node, n: nat): Node {
    if n == 0 then node else Starred(node)
  }

  /** A star behind the last part read. */
  lemma ReadStar(input: seq<int>, eof: int, s: State, pos: nat, node: Node)
    requires PlainDelimiter(eof) && pos < |input| && input[pos] == STARCH
    ensures Leads(input, eof, Added(s, pos, node, true), Added(s, pos + 1, Starred(node), true))
  {
    var t := Added(s, pos, node, true);
    assert t.nodes[..|t.nodes| - 1] == s.nodes;
    LeadsNext(input, eof, t, Added(s, pos + 1, Starred(node), true));
  }

  /** Any number of stars behind what has just been added count as one. */
  lemma {:induction false} ReadStars(input: seq<int>, eof: int, s: State, pos: nat, node: Node, n: nat)
    requires PlainDelimiter(eof) && Stands(input, pos, Stars(n)) && (node.Once? || node.Back? || Starred(node) == node)
    ensures Leads(input, eof, Added(s, pos, node, true), Added(s, pos + n, StarredBy(node, n), true))
    decreases n
  {
    if n > 0 {
      assert Stars(n)[1..] == Stars(n - 1);
      ReadStar(input, eof, s, pos, node);
      ReadStars(input, eof, s, pos + 1, Starred(node), n - 1);
      LeadsTransitive(input, eof, Added(s, pos, node, true), Added(s, pos + 1, Starred(node), true),
        Added(s, pos + n, StarredBy(node, n), true));
    }
  }

  /** The stars that stand behind what has just been added. */
  lemma {:induction false} TypedStars(input: seq<int>, eof: int, s: State, pos: nat, node: Node) returns (n: nat)
    requires PlainDelimiter(eof) && Parse(input, eof, Added(s, pos, node, true)).Some?
    ensures Stands(input, pos, Stars(n)) && pos + n < |input| && input[pos + n] != STARCH
    decreases |input| - pos
  {
    if input[pos] == STARCH {
      ReadStar(input, eof, s, pos, node);
      LeadsParse(input, eof, Added(s, pos, node, true), Added(s, pos + 1, Starred(node), true));
      var m := TypedStars(input, eof, s, pos + 1, Starred(node));
      n := m + 1;
      assert Stars(n)[1..] == Stars(m);
    } else {
      n := 0;
    }
  }

  // ----- parts -----

  /** A part of a pattern; groups carry no numbers. */
  datatype Part = Single(g: Glyph, stars: nat) | Begin | Finish | Again(n: nat, stars: nat)

  function PartText(p: Part): (t: seq<int>)
    ensures t != []
  {
    match p
    case Single(g, stars) => GlyphText(g) + Stars(stars)
    case Begin => [BACKSLASH, LPAR]
    case Finish => [BACKSLASH, RPAR]
    case Again(n, stars) => [BACKSLASH, ONE + n] + Stars(stars)
  }

  predicate PartTypable(p: Part, eof: int) {
    match p
    case Single(g, stars) => Typable(g, eof) && (g == Bare(STARCH) ==> stars == 0)
    case Again(n, _) => n < NBRA
    case _ => true
  }

  /** A star behind the part would apply to it. */
  predicate TakesStar(p: Part) {
    match p
    case Single(g, _) => g != Bare(STARCH)
    case Again(_, _) => true
    case _ => false
  }

  /** A bare star stands where none would apply to what is before it, a bare dollar sign not before the delimiter. */
  predicate InPlace(p: Part, star: bool, more: bool) {
    p.Single? ==> PlainHere(p.g, star, p.stars == 0 && !more)
  }

  predicate AllInPlace(ps: seq<Part>, star: bool, dollar: bool) {
    ps != [] ==> InPlace(ps[0], star, |ps| > 1 || dollar) && AllInPlace(ps[1..], TakesStar(ps[0]), dollar)
  }

  predicate AllTypable(ps: seq<Part>, eof: int) {
    ps != [] ==> PartTypable(ps[0], eof) && AllTypable(ps[1..], eof)
  }

  /** What a part means where some groups are open and nbra have begun: a node, and which groups are open then. */
  function Meant(p: Part, opens: seq<nat>, nbra: nat): Option<(Node, seq<nat>, nat)> {
    match p
    case Single(g, stars) => Option.Some((if stars == 0 then Once(ItemOf(g)) else Many(ItemOf(g)), opens, nbra))
    case Begin => if nbra < NBRA then Option.Some((Open(nbra), opens + [nbra], nbra + 1)) else Option.None
    case Finish =>
      if opens != [] then Option.Some((Close(opens[|opens| - 1]), opens[..|opens| - 1], nbra)) else Option.None
    case Again(n, stars) => Option.Some((if stars == 0 then Back(n) else BackMany(n), opens, nbra))
  }

  /** The pattern that parts mean; none when groups do not nest or there are too many. */
  function Meaning(ps: seq<Part>, opens: seq<nat>, nbra: nat): Option<seq<Node>> {
    if ps == [] then if opens == [] then Option.Some([]) else Option.None
    else
      match Meant(ps[0], opens, nbra)
      case None => Option.None
      case Some((node, opens', nbra')) =>
        match Meaning(ps[1..], opens', nbra')
        case None => Option.None
        case Some(nodes) => Option.Some([node] + nodes)
  }

  /** The state behind a part: it has added the node meant. */
  ghost function After(s: State, p: Part): (s': State)
    requires Meant(p, s.opens, s.nbra).Some?
  {
    var (node, opens, nbra) := Meant(p, s.opens, s.nbra).value;
    State(s.pos + |PartText(p)|, opens, nbra, s.nodes + [node], TakesStar(p))
  }

  lemma AfterSingle(s: State, g: Glyph, stars: nat)
    ensures After(s, Single(g, stars)) ==
            Added(s, s.pos + |GlyphText(g)| + stars, StarredBy(Once(ItemOf(g)), stars), g != Bare(STARCH))
  {
  }

  lemma AfterAgain(s: State, n: nat, stars: nat)
    ensures After(s, Again(n, stars)) == Added(s, s.pos + 2 + stars, StarredBy(Back(n), stars), true)
  {
  }

  lemma AfterGroup(s: State, p: Part)
    requires (p.Begin? || p.Finish?) && Meant(p, s.opens, s.nbra).Some?
    ensures Escaped(s, s.pos + 2, if p.Begin? then LPAR else RPAR) == Option.Some(After(s, p))
  {
  }

  lemma ReadEscape(input: seq<int>, eof: int, s: State, c: int)
    requires PlainDelimiter(eof) && Stands(input, s.pos, [BACKSLASH, c]) && Escaped(s, s.pos + 2, c).Some?
    ensures s.pos + 2 <= |input| && Leads(input, eof, s, Escaped(s, s.pos + 2, c).value)
  {
    StandsAtIndex(input, s.pos, [BACKSLASH, c], 0);
    StandsAtIndex(input, s.pos, [BACKSLASH, c], 1);
    LeadsNext(input, eof, s, Escaped(s, s.pos + 2, c).value);
  }

  /** What is next behind a character: a star, or what follows the part. */
  lemma BehindGlyph(input: seq<int>, eof: int, pos: nat, stars: nat)
    requires PlainDelimiter(eof) && Stands(input, pos, Stars(stars)) && pos + stars < |input|
    ensures input[pos] == eof <==> stars == 0 && input[pos + stars] == eof
  {
    if stars > 0 {
      StandsAtIndex(input, pos, Stars(stars), 0);
    }
  }

  /** A character, or what stands for one, and the stars behind it. */
  lemma ReadSingle(input: seq<int>, eof: int, s: State, g: Glyph, stars: nat)
    requires PlainDelimiter(eof) && PartTypable(Single(g, stars), eof)
    requires var t := PartText(Single(g, stars));
      && Stands(input, s.pos, t) && s.pos + |t| < |input|
      && InPlace(Single(g, stars), s.star, input[s.pos + |t|] != eof)
    ensures Leads(input, eof, s, After(s, Single(g, stars)))
  {
    var t := GlyphText(g);
    TextAndStars(input, eof, s.pos, t, stars);
    AfterSingle(s, g, stars);
    ReadSingleAs(input, eof, s, g, stars, Once(ItemOf(g)), s.pos + |t|);
  }

  /** The stars stand behind the text, and the delimiter behind it if there are none and it is behind all. */
  lemma TextAndStars(input: seq<int>, eof: int, pos: nat, t: seq<int>, stars: nat)
    requires PlainDelimiter(eof) && Stands(input, pos, t + Stars(stars)) && pos + |t| + stars < |input|
    ensures Stands(input, pos, t) && Stands(input, pos + |t|, Stars(stars))
    ensures input[pos + |t|] == eof <==> stars == 0 && input[pos + |t| + stars] == eof
  {
    StandsSplit(input, pos, t, Stars(stars));
    BehindGlyph(input, eof, pos + |t|, stars);
  }

  lemma ReadSingleAs(input: seq<int>, eof: int, s: State, g: Glyph, stars: nat, node: Node, pos: nat)
    requires PlainDelimiter(eof) && Typable(g, eof) && (g == Bare(STARCH) ==> stars == 0)
    requires node == Once(ItemOf(g)) && pos == s.pos + |GlyphText(g)| < |input|
    requires Stands(input, s.pos, GlyphText(g)) && Stands(input, pos, Stars(stars))
    requires PlainHere(g, s.star, input[pos] == eof)
    ensures Leads(input, eof, s, Added(s, pos + stars, StarredBy(node, stars), g != Bare(STARCH)))
  {
    ReadGlyph(input, eof, s, g, GlyphText(g), ItemOf(g), Added(s, pos, node, g != Bare(STARCH)));
    if g != Bare(STARCH) {
      ReadStars(input, eof, s, pos, node, stars);
      LeadsTransitive(input, eof, s, Added(s, pos, node, true), Added(s, pos + stars, StarredBy(node, stars), true));
    }
  }

  /** A reference back, and the stars behind it. */
  lemma ReadAgain(input: seq<int>, eof: int, s: State, n: nat, stars: nat)
    requires PlainDelimiter(eof) && n < NBRA && Stands(input, s.pos, PartText(Again(n, stars)))
    ensures Leads(input, eof, s, After(s, Again(n, stars)))
  {
    StandsSplit(input, s.pos, [BACKSLASH, ONE + n], Stars(stars));
    ReadEscape(input, eof, s, ONE + n);
    ReadStars(input, eof, s, s.pos + 2, Back(n), stars);
    AfterAgain(s, n, stars);
    LeadsTransitive(input, eof, s, Added(s, s.pos + 2, Back(n), true), After(s, Again(n, stars)));
  }

  /** The beginning or the end of a group. */
  lemma ReadGroup(input: seq<int>, eof: int, s: State, p: Part)
    requires PlainDelimiter(eof) && (p.Begin? || p.Finish?) && Stands(input, s.pos, PartText(p))
    requires Meant(p, s.opens, s.nbra).Some?
    ensures Leads(input, eof, s, After(s, p))
  {
    AfterGroup(s, p);
    ReadEscape(input, eof, s, if p.Begin? then LPAR else RPAR);
  }

  /** What was typed for a part is read as what the part means. */
  lemma ReadPart(input: seq<int>, eof: int, s: State, p: Part)
    requires PlainDelimiter(eof) && PartTypable(p, eof) && Stands(input, s.pos, PartText(p))
    requires s.pos + |PartText(p)| < |input| && InPlace(p, s.star, input[s.pos + |PartText(p)|] != eof)
    requires Meant(p, s.opens, s.nbra).Some?
    ensures Leads(input, eof, s, After(s, p))
  {
    match p
    case Single(g, stars) => ReadSingle(input, eof, s, g, stars);
    case Again(n, stars) => ReadAgain(input, eof, s, n, stars);
    case _ => ReadGroup(input, eof, s, p);
  }

  // ----- patterns -----

  /** The end of a pattern: a dollar sign when it is to end with the line, and the delimiter. */
  function EndText(dollar: bool, eof: int): (t: seq<int>)
    ensures t != []
  {
    if dollar then [DOLLAR, eof] else [eof]
  }

  function EndNodes(dollar: bool): seq<Node> {
    if dollar then [End] else []
  }

  /** The parts and the end behind them. */
  function Tail(ps: seq<Part>, dollar: bool, eof: int): (t: seq<int>)
    ensures t != []
    decreases |ps|
  {
    if ps == [] then EndText(dollar, eof) else PartText(ps[0]) + Tail(ps[1..], dollar, eof)
  }

  /** The delimiter is next only where nothing else is to come. */
  lemma TailBegins(ps: seq<Part>, dollar: bool, eof: int)
    requires PlainDelimiter(eof) && AllTypable(ps, eof)
    ensures Tail(ps, dollar, eof)[0] == eof <==> ps == [] && !dollar
    ensures ps != [] ==> Tail(ps, dollar, eof)[0] == PartText(ps[0])[0]
  {
    if ps != [] {
      PartBegins(ps[0], eof);
    }
  }

  lemma PartBegins(p: Part, eof: int)
    requires PlainDelimiter(eof) && PartTypable(p, eof)
    ensures PartText(p)[0] != eof
  {
  }

  lemma ReadEnd(input: seq<int>, eof: int, s: State, dollar: bool)
    requires PlainDelimiter(eof) && Stands(input, s.pos, EndText(dollar, eof)) && s.opens == []
    ensures var r := Parse(input, eof, s);
      r.Some? && r.value.nodes == s.nodes + EndNodes(dollar) && r.value.pos + 1 == s.pos + |EndText(dollar, eof)|
  {
    StandsAtIndex(input, s.pos, EndText(dollar, eof), 0);
    if dollar {
      StandsAtIndex(input, s.pos, EndText(dollar, eof), 1);
      var t := Added(s, s.pos + 1, End, false);
      assert Next(input, eof, s) == Option.Some(t);
      assert Parse(input, eof, t) == Option.Some(t);
    } else {
      assert s.nodes + [] == s.nodes;
    }
  }

  lemma {:induction false} ReadParts(input: seq<int>, eof: int, s: State, ps: seq<Part>, dollar: bool)
    requires PlainDelimiter(eof) && AllTypable(ps, eof) && AllInPlace(ps, s.star, dollar)
    requires Stands(input, s.pos, Tail(ps, dollar, eof)) && Meaning(ps, s.opens, s.nbra).Some?
    ensures var r := Parse(input, eof, s);
      && r.Some? && r.value.pos + 1 == s.pos + |Tail(ps, dollar, eof)|
      && r.value.nodes == s.nodes + (Meaning(ps, s.opens, s.nbra).value + EndNodes(dollar))
    decreases |ps|
  {
    if ps == [] {
      assert [] + EndNodes(dollar) == EndNodes(dollar);
      ReadEnd(input, eof, s, dollar);
    } else {
      var t, rest := PartText(ps[0]), Tail(ps[1..], dollar, eof);
      StandsSplit(input, s.pos, t, rest);
      StandsAtIndex(input, s.pos + |t|, rest, 0);
      TailBegins(ps[1..], dollar, eof);
      ReadPart(input, eof, s, ps[0]);
      var s' := After(s, ps[0]);
      LeadsParse(input, eof, s, s');
      MeaningFirst(ps, s);
      ReadParts(input, eof, s', ps[1..], dollar);
      NodesJoin(s.nodes, Meant(ps[0], s.opens, s.nbra).value.0, Meaning(ps[1..], s'.opens, s'.nbra).value,
        EndNodes(dollar));
    }
  }

  lemma MeaningFirst(ps: seq<Part>, s: State)
    requires ps != [] && Meaning(ps, s.opens, s.nbra).Some?
    ensures Meant(ps[0], s.opens, s.nbra).Some?
    ensures var (node, s') := (Meant(ps[0], s.opens, s.nbra).value.0, After(s, ps[0]));
      var rest := Meaning(ps[1..], s'.opens, s'.nbra);
      rest.Some? && Meaning(ps, s.opens, s.nbra).value == [node] + rest.value
  {
  }

  lemma NodesJoin(a: seq<Node>, node: Node, b: seq<Node>, c: seq<Node>)
    ensures a + [node] + (b + c) == a + ([node] + b + c)
  {
  }

  /** A pattern as it is typed: anchored to the beginning of the line or to its end, or not. */
  function Text(caret: bool, ps: seq<Part>, dollar: bool, eof: int): seq<int> {
    CaretText(caret) + Tail(ps, dollar, eof)
  }

  /** Parts that can be typed where they are, and whose groups nest; a bare caret is not the first character. */
  ghost predicate Proper(caret: bool, ps: seq<Part>, dollar: bool, eof: int) {
    && AllTypable(ps, eof) && AllInPlace(ps, false, dollar) && Meaning(ps, [], 0).Some?
    && (caret || ps == [] || PartText(ps[0])[0] != CARET)
  }

  lemma BeginsWithCaret(caret: bool, ps: seq<Part>, dollar: bool, eof: int)
    requires PlainDelimiter(eof) && Proper(caret, ps, dollar, eof)
    ensures var t := Text(caret, ps, dollar, eof);
      t != [] && (t[0] == CARET <==> caret)
  {
    TailBegins(ps, dollar, eof);
    FrontOfText(caret, Tail(ps, dollar, eof));
  }

  lemma FrontOfText(caret: bool, t: seq<int>)
    requires t != []
    ensures (CaretText(caret) + t)[0] == if caret then CARET else t[0]
  {
  }

  /**
   Whatever pattern one means, what one types for it is read as that pattern, whatever stands behind the
   delimiter: the compiler's reader undoes the typing.
   */
  lemma ReadsAsMeant(caret: bool, ps: seq<Part>, dollar: bool, eof: int, behind: seq<int>)
    requires PlainDelimiter(eof) && Proper(caret, ps, dollar, eof)
    ensures var text := Text(caret, ps, dollar, eof);
      var r := Pattern(text + behind, eof);
      && r.Some? && r.value.pos + 1 == |text|
      && r.value.nodes == Meaning(ps, [], 0).value + EndNodes(dollar)
  {
    var t, front := Tail(ps, dollar, eof), CaretText(caret);
    var input := Text(caret, ps, dollar, eof) + behind;
    BeginsWithCaret(caret, ps, dollar, eof);
    assert input == front + (t + behind) && (t + behind)[0..] == t + behind;
    StandsBehind(front, t + behind, 0);
    StandsSplit(input, |front|, t, behind);
    var s := State(|front|, [], 0, [], false);
    ReadParts(input, eof, s, ps, dollar);
    assert [] + (Meaning(ps, [], 0).value + EndNodes(dollar)) == Meaning(ps, [], 0).value + EndNodes(dollar);
  }

  // ----- nothing else is read -----

  /** No star stands where it would apply to what is before it. */
  ghost predicate StarsPast(input: seq<int>, s: State) {
    (s.star ==> s.nodes != []) && !(s.star && s.pos < |input| && input[s.pos] == STARCH)
  }

  /** What the part read next was typed as, with its stars. */
  ghost predicate Peeled(input: seq<int>, eof: int, s: State, p: Part) {
    && PartTypable(p, eof) && Stands(input, s.pos, PartText(p)) && Meant(p, s.opens, s.nbra).Some?
    && s.pos + |PartText(p)| < |input| && InPlace(p, s.star, input[s.pos + |PartText(p)|] != eof)
    && (TakesStar(p) ==> input[s.pos + |PartText(p)|] != STARCH)
  }

  /** A class read: what its bracket was followed by. */
  lemma TypedClass(input: seq<int>, eof: int, s: State) returns (g: Glyph)
    requires s.pos < |input| && input[s.pos] == OPENCLS && Next(input, eof, s).Some?
    ensures g.Listing? && Typable(g, eof) && Stands(input, s.pos, GlyphText(g))
    ensures Next(input, eof, s) == Option.Some(Added(s, s.pos + |GlyphText(g)|, Once(ItemOf(g)), true))
  {
    var negated := s.pos + 1 < |input| && input[s.pos + 1] == CARET;
    var at := if negated then s.pos + 2 else s.pos + 1;
    var xs := TypedWhole(input, at);
    g := Listing(xs, negated);
    StandsOne(input, s.pos, OPENCLS);
    if negated {
      StandsOne(input, s.pos + 1, CARET);
    }
    StandsJoin(input, s.pos + 1, CaretText(negated), ListText(xs));
    StandsJoin(input, s.pos, [OPENCLS], CaretText(negated) + ListText(xs));
  }

  lemma TypedGlyph(input: seq<int>, eof: int, s: State) returns (g: Glyph)
    requires PlainDelimiter(eof) && Parse(input, eof, s).Some? && StarsPast(input, s)
    requires s.pos < |input| && input[s.pos] !in {eof, BACKSLASH}
    requires input[s.pos] == DOLLAR ==> s.pos + 1 >= |input| || input[s.pos + 1] != eof
    ensures Typable(g, eof) && Stands(input, s.pos, GlyphText(g)) && !g.Quoted?
    ensures g.Bare? ==> g.c == input[s.pos]
    ensures Leads(input, eof, s, Added(s, s.pos + |GlyphText(g)|, Once(ItemOf(g)), g != Bare(STARCH)))
  {
    if input[s.pos] == OPENCLS {
      assert Next(input, eof, s).Some?;
      g := TypedClass(input, eof, s);
      LeadsNext(input, eof, s, Next(input, eof, s).value);
    } else {
      g := TypedPlain(input, eof, s);
    }
  }

  /** A dot, or a character that is plain where it is. */
  lemma TypedPlain(input: seq<int>, eof: int, s: State) returns (g: Glyph)
    requires PlainDelimiter(eof) && Parse(input, eof, s).Some? && StarsPast(input, s)
    requires s.pos < |input| && input[s.pos] !in {eof, BACKSLASH, OPENCLS}
    requires input[s.pos] == DOLLAR ==> s.pos + 1 >= |input| || input[s.pos + 1] != eof
    ensures g == if input[s.pos] == DOT then AnyChar else Bare(input[s.pos])
    ensures Typable(g, eof) && Stands(input, s.pos, GlyphText(g))
    ensures Leads(input, eof, s, Added(s, s.pos + 1, Once(ItemOf(g)), g != Bare(STARCH)))
  {
    var c := input[s.pos];
    g := if c == DOT then AnyChar else Bare(c);
    StandsOne(input, s.pos, c);
    assert c != NL && Next(input, eof, s) == Option.Some(Added(s, s.pos + 1, Once(ItemOf(g)), c != STARCH));
    LeadsNext(input, eof, s, Added(s, s.pos + 1, Once(ItemOf(g)), c != STARCH));
  }

  /** A part that begins with no backslash. */
  lemma TypedSingle(input: seq<int>, eof: int, s: State) returns (p: Part)
    requires PlainDelimiter(eof) && Parse(input, eof, s).Some? && StarsPast(input, s)
    requires s.pos < |input| && input[s.pos] !in {eof, BACKSLASH}
    requires input[s.pos] == DOLLAR ==> s.pos + 1 >= |input| || input[s.pos + 1] != eof
    ensures Peeled(input, eof, s, p)
  {
    var g := TypedGlyph(input, eof, s);
    p := WithStars(input, eof, s, g);
  }

  /** The stars behind a character. */
  lemma WithStars(input: seq<int>, eof: int, s: State, g: Glyph) returns (p: Part)
    requires PlainDelimiter(eof) && Parse(input, eof, s).Some? && Typable(g, eof)
    requires Stands(input, s.pos, GlyphText(g))
    requires g == Bare(STARCH) ==> !s.star
    requires g == Bare(DOLLAR) ==> s.pos + 1 >= |input| || input[s.pos + 1] != eof
    requires Leads(input, eof, s, Added(s, s.pos + |GlyphText(g)|, Once(ItemOf(g)), g != Bare(STARCH)))
    ensures Peeled(input, eof, s, p)
  {
    var n := 0;
    LeadsParse(input, eof, s, Added(s, s.pos + |GlyphText(g)|, Once(ItemOf(g)), g != Bare(STARCH)));
    if g != Bare(STARCH) {
      n := TypedStars(input, eof, s, s.pos + |GlyphText(g)|, Once(ItemOf(g)));
    }
    p := SinglePeeled(input, eof, s, g, n);
  }

  lemma SinglePeeled(input: seq<int>, eof: int, s: State, g: Glyph, n: nat) returns (p: Part)
    requires PlainDelimiter(eof) && Typable(g, eof) && Stands(input, s.pos, GlyphText(g))
    requires g == Bare(STARCH) ==> !s.star && n == 0
    requires g == Bare(DOLLAR) ==> s.pos + 1 >= |input| || input[s.pos + 1] != eof
    requires var pos := s.pos + |GlyphText(g)|;
      pos + n < |input| && Stands(input, pos, Stars(n)) && (g == Bare(STARCH) || input[pos + n] != STARCH)
    ensures p == Single(g, n) && Peeled(input, eof, s, p)
  {
    p := Single(g, n);
    StandsJoin(input, s.pos, GlyphText(g), Stars(n));
  }

  /** A part that begins with a backslash. */
  lemma TypedEscape(input: seq<int>, eof: int, s: State) returns (p: Part)
    requires PlainDelimiter(eof) && Parse(input, eof, s).Some?
    requires s.pos < |input| && input[s.pos] == BACKSLASH
    ensures Peeled(input, eof, s, p)
  {
    EscapeRead(input, eof, s);
    var c := input[s.pos + 1];
    StandsTwo(input, s.pos, BACKSLASH, c);
    ReadEscape(input, eof, s, c);
    if c == LPAR || c == RPAR {
      p := GroupPeeled(input, eof, s, c);
    } else if ONE <= c < ONE + NBRA {
      LeadsParse(input, eof, s, Added(s, s.pos + 2, Back(c - ONE), true));
      var n := TypedStars(input, eof, s, s.pos + 2, Back(c - ONE));
      p := AgainPeeled(input, eof, s, c - ONE, n);
    } else {
      p := WithStars(input, eof, s, Quoted(c));
    }
  }

  lemma GroupPeeled(input: seq<int>, eof: int, s: State, c: int) returns (p: Part)
    requires c == LPAR || c == RPAR
    requires Stands(input, s.pos, [BACKSLASH, c]) && s.pos + 2 < |input| && Escaped(s, s.pos + 2, c).Some?
    ensures Peeled(input, eof, s, p)
  {
    p := if c == LPAR then Begin else Finish;
  }

  lemma AgainPeeled(input: seq<int>, eof: int, s: State, k: nat, n: nat) returns (p: Part)
    requires k < NBRA && Stands(input, s.pos, [BACKSLASH, ONE + k]) && Stands(input, s.pos + 2, Stars(n))
    requires s.pos + 2 + n < |input| && input[s.pos + 2 + n] != STARCH
    ensures Peeled(input, eof, s, p)
  {
    p := Again(k, n);
    StandsJoin(input, s.pos, [BACKSLASH, ONE + k], Stars(n));
  }

  /** A backslash read has something behind it that is in order, and the pattern does not end there. */
  lemma EscapeRead(input: seq<int>, eof: int, s: State)
    requires PlainDelimiter(eof) && Parse(input, eof, s).Some? && s.pos < |input| && input[s.pos] == BACKSLASH
    ensures s.pos + 2 < |input| && Escaped(s, s.pos + 2, input[s.pos + 1]).Some?
  {
  }

  /** What the rest of a pattern read was typed as. */
  lemma {:induction false} TypedParts(input: seq<int>, eof: int, s: State) returns (ps: seq<Part>, dollar: bool)
    requires PlainDelimiter(eof) && Parse(input, eof, s).Some? && StarsPast(input, s)
    ensures AllTypable(ps, eof) && AllInPlace(ps, s.star, dollar) && Meaning(ps, s.opens, s.nbra).Some?
    ensures Stands(input, s.pos, Tail(ps, dollar, eof))
    decreases |input| - s.pos
  {
    if input[s.pos] == eof {
      ps, dollar := [], false;
      StandsOne(input, s.pos, eof);
    } else if input[s.pos] == DOLLAR && s.pos + 1 < |input| && input[s.pos + 1] == eof {
      ps, dollar := [], true;
      DollarRead(input, eof, s);
      StandsTwo(input, s.pos, DOLLAR, eof);
    } else {
      var p;
      if input[s.pos] == BACKSLASH {
        p := TypedEscape(input, eof, s);
      } else {
        p := TypedSingle(input, eof, s);
      }
      ReadPart(input, eof, s, p);
      LeadsParse(input, eof, s, After(s, p));
      AfterPeeled(input, eof, s, p);
      var rest;
      rest, dollar := TypedParts(input, eof, After(s, p));
      ps := [p] + rest;
      assert ps[1..] == rest;
      PartBefore(input, eof, s, ps, dollar);
    }
  }

  lemma AfterPeeled(input: seq<int>, eof: int, s: State, p: Part)
    requires Peeled(input, eof, s, p)
    ensures StarsPast(input, After(s, p)) && s.pos < After(s, p).pos < |input|
  {
  }

  lemma DollarRead(input: seq<int>, eof: int, s: State)
    requires PlainDelimiter(eof) && Parse(input, eof, s).Some?
    requires s.pos + 1 < |input| && input[s.pos] == DOLLAR && input[s.pos + 1] == eof
    ensures s.opens == []
  {
    assert Next(input, eof, s) == Option.Some(Added(s, s.pos + 1, End, false));
  }

  /** One part before the rest. */
  lemma PartBefore(input: seq<int>, eof: int, s: State, ps: seq<Part>, dollar: bool)
    requires PlainDelimiter(eof) && ps != [] && Peeled(input, eof, s, ps[0])
    requires AllTypable(ps[1..], eof) && AllInPlace(ps[1..], TakesStar(ps[0]), dollar)
    requires var s' := After(s, ps[0]);
      Meaning(ps[1..], s'.opens, s'.nbra).Some? && Stands(input, s'.pos, Tail(ps[1..], dollar, eof))
    ensures AllTypable(ps, eof) && AllInPlace(ps, s.star, dollar) && Meaning(ps, s.opens, s.nbra).Some?
    ensures Stands(input, s.pos, Tail(ps, dollar, eof))
  {
    var rest := Tail(ps[1..], dollar, eof);
    TailBegins(ps[1..], dollar, eof);
    StandsAtIndex(input, s.pos + |PartText(ps[0])|, rest, 0);
    StandsJoin(input, s.pos, PartText(ps[0]), rest);
  }

  /** What a pattern read was typed as. */
  lemma TypedPattern(input: seq<int>, eof: int) returns (caret: bool, ps: seq<Part>, dollar: bool)
    requires PlainDelimiter(eof) && Pattern(input, eof).Some?
    ensures Proper(caret, ps, dollar, eof) && Text(caret, ps, dollar, eof) <= input
  {
    caret := input != [] && input[0] == CARET;
    var front := CaretText(caret);
    ps, dollar := TypedParts(input, eof, State(|front|, [], 0, [], false));
    TextTyped(input, caret, ps, dollar, eof);
  }

  lemma TextTyped(input: seq<int>, caret: bool, ps: seq<Part>, dollar: bool, eof: int)
    requires PlainDelimiter(eof) && (caret <==> input != [] && input[0] == CARET)
    requires AllTypable(ps, eof) && AllInPlace(ps, false, dollar) && Meaning(ps, [], 0).Some?
    requires Stands(input, |CaretText(caret)|, Tail(ps, dollar, eof))
    ensures Proper(caret, ps, dollar, eof) && Text(caret, ps, dollar, eof) <= input
  {
    var front := CaretText(caret);
    TailBegins(ps, dollar, eof);
    StandsAtIndex(input, |front|, Tail(ps, dollar, eof), 0);
    assert input[..|front|] == front;
    TextStands(input, front, Tail(ps, dollar, eof));
  }

  lemma TextStands(input: seq<int>, front: seq<int>, t: seq<int>)
    requires |front| <= |input| && input[..|front|] == front && Stands(input, |front|, t)
    ensures front + t <= input
  {
    StandsIs(input, |front|, t);
    assert input[..|front| + |t|] == front + t;
  }

  /** Characters denote a pattern exactly when they begin with one properly typed. */
  lemma AcceptedIff(input: seq<int>, eof: int)
    requires PlainDelimiter(eof)
    ensures Pattern(input, eof).Some? <==>
      exists caret, ps, dollar :: Proper(caret, ps, dollar, eof) && Text(caret, ps, dollar, eof) <= input
  {
    if Pattern(input, eof).Some? {
      var caret, ps, dollar := TypedPattern(input, eof);
    }
    if caret, ps, dollar :| Proper(caret, ps, dollar, eof) && Text(caret, ps, dollar, eof) <= input {
      var text := Text(caret, ps, dollar, eof);
      assert input == text + input[|text|..];
      ReadsAsMeant(caret, ps, dollar, eof, input[|text|..]);
    }
  }
}
