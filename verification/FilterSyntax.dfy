/**
 The filter language at token level (query.go, query_format.go): the recursive-descent parser, the
 canonical printer, and evaluation.  Filters and bracketed expressions share one grammar; `A` is the
 type of their atoms.
 */
module FilterSyntax {
  import opened Wrappers
  import opened Bytes

  datatype Token<A> = TAtom(atom: A) | TAnd | TOr | TNot | TLParen | TRParen

  datatype Filter<A> =
    | Atom(atom: A)
    | And(left: Filter<A>, right: Filter<A>)
    | Or(left: Filter<A>, right: Filter<A>)
    | Not(node: Filter<A>)
    | Group(node: Filter<A>)

  /** What the parser asks of an atom: whether it is well formed, and its collection anchor ("" for none). */
  datatype Lexicon<!A> = Lexicon(accepts: A -> bool, anchor: A -> bytes)

  predicate Accepted<A>(lex: Lexicon<A>, t: Filter<A>) {
    match t
    case Atom(a) => lex.accepts(a)
    case And(l, r) => Accepted(lex, l) && Accepted(lex, r)
    case Or(l, r) => Accepted(lex, l) && Accepted(lex, r)
    case Not(x) => Accepted(lex, x)
    case Group(x) => Accepted(lex, x)
  }

  function FirstOf(a: bytes, b: bytes): bytes {
    if a == [] then b else a
  }

  /** The first non-empty anchor, left to right. */
  function Anchor<A>(lex: Lexicon<A>, t: Filter<A>): bytes {
    match t
    case Atom(a) => lex.anchor(a)
    case And(l, r) => FirstOf(Anchor(lex, l), Anchor(lex, r))
    case Or(l, r) => FirstOf(Anchor(lex, l), Anchor(lex, r))
    case Not(x) => Anchor(lex, x)
    case Group(x) => Anchor(lex, x)
  }

  // ----- printing -----

  /** `wrapFilter` */
  function Wrap<A>(s: seq<Token<A>>, parent: nat, self: nat): seq<Token<A>> {
    if self < parent then [TLParen] + s + [TRParen] else s
  }

  /** `formatFilterNode` and `formatExprNode` */
  function Format<A>(t: Filter<A>, parent: nat): (r: seq<Token<A>>)
    ensures |r| > 0
  {
    match t
    case Atom(a) => [TAtom(a)]
    case And(l, r) => Wrap(Format(l, 2) + [TAnd] + Format(r, 2), parent, 2)
    case Or(l, r) => Wrap(Format(l, 1) + [TOr] + Format(r, 1), parent, 1)
    case Not(x) => [TNot] + Format(x, 3)
    case Group(x) => [TLParen] + Format(x, 0) + [TRParen]
  }

  // ----- parsing -----

  /** A tree, its anchor and the position after it; None is a rejected token list. */
  type Parse<A> = Option<(Filter<A>, bytes, nat)>

  function Peek<A>(toks: seq<Token<A>>, pos: nat): (r: Option<Token<A>>)
    ensures r.Some? ==> pos < |toks| && toks[pos] == r.value
  {
    if pos >= |toks| then None else Some(toks[pos])
  }

  function ParseOr<A>(lex: Lexicon<A>, toks: seq<Token<A>>, pos: nat): (r: Parse<A>)
    requires pos <= |toks|
    ensures r.Some? ==> pos < r.value.2 <= |toks|
    decreases |toks| - pos, 3
  {
    match ParseAnd(lex, toks, pos)
    case None => None
    case Some((t, coll, end)) => OrTail(lex, toks, end, t, coll)
  }

  /** The loop of `parseFilterOr` from a left operand on. */
  function OrTail<A>(lex: Lexicon<A>, toks: seq<Token<A>>, pos: nat, left: Filter<A>, coll: bytes): (r: Parse<A>)
    requires pos <= |toks|
    ensures r.Some? ==> pos <= r.value.2 <= |toks|
    decreases |toks| - pos, 3
  {
    if Peek(toks, pos) != Some(TOr) then Some((left, coll, pos)) else
    match ParseAnd(lex, toks, pos + 1)
    case None => None
    case Some((right, rcoll, end)) => OrTail(lex, toks, end, Or(left, right), FirstOf(coll, rcoll))
  }

  function ParseAnd<A>(lex: Lexicon<A>, toks: seq<Token<A>>, pos: nat): (r: Parse<A>)
    requires pos <= |toks|
    ensures r.Some? ==> pos < r.value.2 <= |toks|
    decreases |toks| - pos, 2
  {
    match ParseUnary(lex, toks, pos)
    case None => None
    case Some((t, coll, end)) => AndTail(lex, toks, end, t, coll)
  }

  /** The loop of `parseFilterAnd` from a left operand on. */
  function AndTail<A>(lex: Lexicon<A>, toks: seq<Token<A>>, pos: nat, left: Filter<A>, coll: bytes): (r: Parse<A>)
    requires pos <= |toks|
    ensures r.Some? ==> pos <= r.value.2 <= |toks|
    decreases |toks| - pos, 2
  {
    if Peek(toks, pos) != Some(TAnd) then Some((left, coll, pos)) else
    match ParseUnary(lex, toks, pos + 1)
    case None => None
    case Some((right, rcoll, end)) => AndTail(lex, toks, end, And(left, right), FirstOf(coll, rcoll))
  }

  function ParseUnary<A>(lex: Lexicon<A>, toks: seq<Token<A>>, pos: nat): (r: Parse<A>)
    requires pos <= |toks|
    ensures r.Some? ==> pos < r.value.2 <= |toks|
    decreases |toks| - pos, 1
  {
    if Peek(toks, pos) != Some(TNot) then ParsePrimary(lex, toks, pos) else
    match ParseUnary(lex, toks, pos + 1)
    case None => None
    case Some((x, coll, end)) => Some((Not(x), coll, end))
  }

  function ParsePrimary<A>(lex: Lexicon<A>, toks: seq<Token<A>>, pos: nat): (r: Parse<A>)
    requires pos <= |toks|
    ensures r.Some? ==> pos < r.value.2 <= |toks|
    decreases |toks| - pos, 0
  {
    match Peek(toks, pos)
    case Some(TLParen) =>
      (match ParseOr(lex, toks, pos + 1)
       case None => None
       case Some((x, coll, end)) =>
         if Peek(toks, end) == Some(TRParen) then Some((Group(x), coll, end + 1)) else None)
    case Some(TAtom(a)) => if lex.accepts(a) then Some((Atom(a), lex.anchor(a), pos + 1)) else None
    case _ => None
  }

  /** `parseFilterExpression` after tokenizing: the whole list must be consumed. */
  function ParseFilter<A>(lex: Lexicon<A>, toks: seq<Token<A>>): Option<(Filter<A>, bytes)> {
    match ParseOr(lex, toks, 0)
    case None => None
    case Some((t, coll, end)) => if end == |toks| then Some((t, coll)) else None
  }

  // ----- the parser's own shape -----

  /** Trees as the grammar builds them: level 0 a disjunction, 1 a conjunction, 2 a negation or primary. */
  predicate Shaped<A>(t: Filter<A>, level: nat) {
    match t
    case Atom(_) => true
    case Group(x) => Shaped(x, 0)
    case Not(x) => Shaped(x, 2)
    case And(l, r) => level <= 1 && Shaped(l, 1) && Shaped(r, 2)
    case Or(l, r) => level == 0 && Shaped(l, 0) && Shaped(r, 1)
  }

  /** The grammar level at which an operand printed under precedence `parent` stands. */
  function LevelOf(parent: nat): nat {
    if parent <= 1 then 0 else if parent == 2 then 1 else 2
  }

  /** Shaped trees need no parentheses of the printer's own. */
  lemma FormatShaped<A>(t: Filter<A>, parent: nat)
    requires Shaped(t, LevelOf(parent))
    ensures Format(t, parent) == Format(t, 0)
  {
  }

  lemma {:induction false} ShapedWeaken<A>(t: Filter<A>, level: nat, lower: nat)
    requires Shaped(t, level) && lower <= level
    ensures Shaped(t, lower)
  {
  }

  // ----- accepted token lists reprint to themselves -----

  /** A parse gave a tree of the right shape, with accepted atoms and its anchor, that prints as the tokens read. */
  ghost predicate Faithful<A>(lex: Lexicon<A>, toks: seq<Token<A>>, pos: nat, level: nat, r: Parse<A>)
    requires pos <= |toks|
  {
    r.Some? ==>
      var (t, coll, end) := r.value;
      && pos <= end <= |toks| && toks[pos..end] == Format(t, 0)
      && Shaped(t, level) && Accepted(lex, t) && coll == Anchor(lex, t)
  }

  lemma {:induction false} OrFaithful<A>(lex: Lexicon<A>, toks: seq<Token<A>>, pos: nat)
    requires pos <= |toks|
    ensures Faithful(lex, toks, pos, 0, ParseOr(lex, toks, pos))
    decreases |toks| - pos, 3
  {
    AndFaithful(lex, toks, pos);
    var first := ParseAnd(lex, toks, pos);
    if first.Some? {
      var (t, coll, end) := first.value;
      ShapedWeaken(t, 1, 0);
      OrTailFaithful(lex, toks, pos, end, t, coll);
    }
  }

  lemma {:induction false} OrTailFaithful<A>(
    lex: Lexicon<A>, toks: seq<Token<A>>, start: nat, pos: nat, left: Filter<A>, coll: bytes)
    requires start < pos <= |toks| && Faithful(lex, toks, start, 0, Some((left, coll, pos)))
    ensures Faithful(lex, toks, start, 0, OrTail(lex, toks, pos, left, coll))
    decreases |toks| - pos, 3
  {
    if Peek(toks, pos) == Some(TOr) {
      AndFaithful(lex, toks, pos + 1);
      var second := ParseAnd(lex, toks, pos + 1);
      if second.Some? {
        var (right, rcoll, end) := second.value;
        FormatShaped(left, 1);
        ShapedWeaken(right, 1, 0);
        FormatShaped(right, 1);
        assert toks[start..end] == toks[start..pos] + [TOr] + toks[pos + 1..end];
        OrTailFaithful(lex, toks, start, end, Or(left, right), FirstOf(coll, rcoll));
      }
    }
  }

  lemma {:induction false} AndFaithful<A>(lex: Lexicon<A>, toks: seq<Token<A>>, pos: nat)
    requires pos <= |toks|
    ensures Faithful(lex, toks, pos, 1, ParseAnd(lex, toks, pos))
    decreases |toks| - pos, 2
  {
    UnaryFaithful(lex, toks, pos);
    var first := ParseUnary(lex, toks, pos);
    if first.Some? {
      var (t, coll, end) := first.value;
      ShapedWeaken(t, 2, 1);
      AndTailFaithful(lex, toks, pos, end, t, coll);
    }
  }

  lemma {:induction false} AndTailFaithful<A>(
    lex: Lexicon<A>, toks: seq<Token<A>>, start: nat, pos: nat, left: Filter<A>, coll: bytes)
    requires start < pos <= |toks| && Faithful(lex, toks, start, 1, Some((left, coll, pos)))
    ensures Faithful(lex, toks, start, 1, AndTail(lex, toks, pos, left, coll))
    decreases |toks| - pos, 2
  {
    if Peek(toks, pos) == Some(TAnd) {
      UnaryFaithful(lex, toks, pos + 1);
      var second := ParseUnary(lex, toks, pos + 1);
      if second.Some? {
        var (right, rcoll, end) := second.value;
        FormatShaped(left, 2);
        ShapedWeaken(right, 2, 1);
        FormatShaped(right, 2);
        assert toks[start..end] == toks[start..pos] + [TAnd] + toks[pos + 1..end];
        AndTailFaithful(lex, toks, start, end, And(left, right), FirstOf(coll, rcoll));
      }
    }
  }

  lemma {:induction false} UnaryFaithful<A>(lex: Lexicon<A>, toks: seq<Token<A>>, pos: nat)
    requires pos <= |toks|
    ensures Faithful(lex, toks, pos, 2, ParseUnary(lex, toks, pos))
    decreases |toks| - pos, 1
  {
    if Peek(toks, pos) == Some(TNot) {
      UnaryFaithful(lex, toks, pos + 1);
      var r := ParseUnary(lex, toks, pos + 1);
      if r.Some? {
        var (x, _, end) := r.value;
        FormatShaped(x, 3);
        assert toks[pos..end] == [TNot] + toks[pos + 1..end];
      }
    } else {
      PrimaryFaithful(lex, toks, pos);
    }
  }

  lemma Bracketed<A>(toks: seq<Token<A>>, pos: nat, end: nat)
    requires pos < end < |toks|
    ensures toks[pos..end + 1] == [toks[pos]] + toks[pos + 1..end] + [toks[end]]
  {
  }

  lemma {:induction false} PrimaryFaithful<A>(lex: Lexicon<A>, toks: seq<Token<A>>, pos: nat)
    requires pos <= |toks|
    ensures Faithful(lex, toks, pos, 2, ParsePrimary(lex, toks, pos))
    decreases |toks| - pos, 0
  {
    if Peek(toks, pos) == Some(TLParen) {
      OrFaithful(lex, toks, pos + 1);
      var r := ParseOr(lex, toks, pos + 1);
      if r.Some? && Peek(toks, r.value.2) == Some(TRParen) {
        var end := r.value.2;
        Bracketed(toks, pos, end);
      }
    }
  }

  // ----- shaped trees reparse to themselves -----

  /** The tokens at a position are these. */
  predicate At<A(==)>(toks: seq<Token<A>>, pos: nat, s: seq<Token<A>>) {
    pos + |s| <= |toks| && toks[pos..pos + |s|] == s
  }

  lemma AtSplit<A>(toks: seq<Token<A>>, pos: nat, x: seq<Token<A>>, y: seq<Token<A>>)
    requires At(toks, pos, x + y)
    ensures At(toks, pos, x) && At(toks, pos + |x|, y)
  {
    var s := toks[pos..pos + |x + y|];
    assert toks[pos..pos + |x|] == s[..|x|];
    assert toks[pos + |x|..pos + |x| + |y|] == s[|x|..];
  }

  lemma AtToken<A>(toks: seq<Token<A>>, pos: nat, t: Token<A>)
    requires At(toks, pos, [t])
    ensures Peek(toks, pos) == Some(t)
  {
    assert toks[pos] == toks[pos..pos + 1][0];
  }

  lemma AtInfix<A>(toks: seq<Token<A>>, pos: nat, x: seq<Token<A>>, op: Token<A>, y: seq<Token<A>>)
    requires At(toks, pos, x + [op] + y)
    ensures At(toks, pos, x) && Peek(toks, pos + |x|) == Some(op) && At(toks, pos + |x| + 1, y)
  {
    AtSplit(toks, pos, x + [op], y);
    AtSplit(toks, pos, x, [op]);
    AtToken(toks, pos + |x|, op);
  }

  /** A printed negation or primary is read back whatever follows it. */
  lemma {:induction false} UnaryBack<A>(lex: Lexicon<A>, toks: seq<Token<A>>, pos: nat, t: Filter<A>)
    requires Shaped(t, 2) && Accepted(lex, t) && At(toks, pos, Format(t, 0))
    ensures ParseUnary(lex, toks, pos) == Some((t, Anchor(lex, t), pos + |Format(t, 0)|))
    decreases t, 0
  {
    hide At, Peek, ParseAnd, ParseOr;
    match t
    case Atom(a) => AtToken(toks, pos, TAtom(a));
    case Not(x) =>
      FormatShaped(x, 3);
      AtSplit(toks, pos, [TNot], Format(x, 0));
      AtToken(toks, pos, TNot);
      UnaryBack(lex, toks, pos + 1, x);
    case Group(x) =>
      var s := Format(x, 0);
      AtSplit(toks, pos, [TLParen] + s, [TRParen]);
      AtSplit(toks, pos, [TLParen], s);
      AtToken(toks, pos, TLParen);
      AtToken(toks, pos + 1 + |s|, TRParen);
      OrBack(lex, toks, pos + 1, x);
  }

  /** A printed conjunction is read back as far as it goes; the loop continues behind it. */
  lemma {:induction false} AndBack<A>(lex: Lexicon<A>, toks: seq<Token<A>>, pos: nat, t: Filter<A>)
    requires Shaped(t, 1) && Accepted(lex, t) && At(toks, pos, Format(t, 0))
    ensures ParseAnd(lex, toks, pos) == AndTail(lex, toks, pos + |Format(t, 0)|, t, Anchor(lex, t))
    decreases t, 1
  {
    hide At, Peek, ParseUnary, ParsePrimary, OrTail;
    if t.And? {
      ShapedWeaken(t.right, 2, 1);
      FormatShaped(t.left, 2);
      FormatShaped(t.right, 2);
      var x, y := Format(t.left, 0), Format(t.right, 0);
      AtInfix(toks, pos, x, TAnd, y);
      AndBack(lex, toks, pos, t.left);
      UnaryBack(lex, toks, pos + |x| + 1, t.right);
    } else {
      UnaryBack(lex, toks, pos, t);
    }
  }

  /** One turn of the disjunction loop, over a right operand that no conjunction continues. */
  lemma OrStep<A>(lex: Lexicon<A>, toks: seq<Token<A>>, pos: nat, left: Filter<A>, right: Filter<A>, coll: bytes,
                  rcoll: bytes, end: nat)
    requires pos < end <= |toks| && Peek(toks, pos) == Some(TOr) && Peek(toks, end) != Some(TAnd)
    requires ParseAnd(lex, toks, pos + 1) == AndTail(lex, toks, end, right, rcoll)
    ensures OrTail(lex, toks, pos, left, coll) == OrTail(lex, toks, end, Or(left, right), FirstOf(coll, rcoll))
  {
    hide Peek, ParseAnd, FirstOf;
  }

  lemma {:induction false} OrTailBack<A>(lex: Lexicon<A>, toks: seq<Token<A>>, pos: nat, t: Filter<A>)
    requires Shaped(t, 0) && Accepted(lex, t) && At(toks, pos, Format(t, 0))
    requires Peek(toks, pos + |Format(t, 0)|) != Some(TAnd)
    ensures ParseOr(lex, toks, pos) == OrTail(lex, toks, pos + |Format(t, 0)|, t, Anchor(lex, t))
    decreases t, 3
  {
    hide At, Peek, Format, Shaped, Anchor, Accepted, ParseOr, ParseAnd, OrTail, AndTail, FirstOf;
    if t.Or? {
      OrParts(lex, t);
      var x, y := Format(t.left, 0), Format(t.right, 0);
      AtInfix(toks, pos, x, TOr, y);
      OrTailBack(lex, toks, pos, t.left);
      AndBack(lex, toks, pos + |x| + 1, t.right);
      AtEnds(toks, pos + |x| + 1, y);
      OrStep(lex, toks, pos + |x|, t.left, t.right, Anchor(lex, t.left), Anchor(lex, t.right), pos + |x| + 1 + |y|);
    } else {
      AndOnly(lex, toks, pos, t);
    }
  }

  lemma AtEnds<A>(toks: seq<Token<A>>, pos: nat, s: seq<Token<A>>)
    requires At(toks, pos, s)
    ensures pos + |s| <= |toks|
  {
  }

  lemma OrParts<A>(lex: Lexicon<A>, t: Filter<A>)
    requires t.Or? && Shaped(t, 0) && Accepted(lex, t)
    ensures Shaped(t.left, 0) && Shaped(t.right, 1) && Accepted(lex, t.left) && Accepted(lex, t.right)
    ensures Format(t, 0) == Format(t.left, 0) + [TOr] + Format(t.right, 0)
    ensures Anchor(lex, t) == FirstOf(Anchor(lex, t.left), Anchor(lex, t.right))
  {
    ShapedWeaken(t.right, 1, 0);
    FormatShaped(t.left, 1);
    FormatShaped(t.right, 1);
  }

  lemma AndOnly<A>(lex: Lexicon<A>, toks: seq<Token<A>>, pos: nat, t: Filter<A>)
    requires Shaped(t, 0) && !t.Or? && Accepted(lex, t) && At(toks, pos, Format(t, 0))
    requires Peek(toks, pos + |Format(t, 0)|) != Some(TAnd)
    ensures ParseOr(lex, toks, pos) == OrTail(lex, toks, pos + |Format(t, 0)|, t, Anchor(lex, t))
    decreases t, 2
  {
    hide At, Peek, Format, Anchor, Accepted, ParseAnd, OrTail;
    AndBack(lex, toks, pos, t);
  }

  /** A printed disjunction that no operator follows is read back. */
  lemma {:induction false} OrBack<A>(lex: Lexicon<A>, toks: seq<Token<A>>, pos: nat, t: Filter<A>)
    requires Shaped(t, 0) && Accepted(lex, t) && At(toks, pos, Format(t, 0))
    requires Peek(toks, pos + |Format(t, 0)|) !in {Some(TAnd), Some(TOr)}
    ensures ParseOr(lex, toks, pos) == Some((t, Anchor(lex, t), pos + |Format(t, 0)|))
    decreases t, 4
  {
    OrTailBack(lex, toks, pos, t);
  }

  /** A tree of the parser's own shape reparses to itself. */
  lemma ReparseShaped<A>(lex: Lexicon<A>, t: Filter<A>)
    requires Shaped(t, 0) && Accepted(lex, t)
    ensures ParseFilter(lex, Format(t, 0)) == Some((t, Anchor(lex, t)))
  {
    OrBack(lex, Format(t, 0), 0, t);
  }

  /** An accepted token list reprints to itself. */
  lemma ReprintAccepted<A>(lex: Lexicon<A>, toks: seq<Token<A>>)
    requires ParseFilter(lex, toks).Some?
    ensures var (t, coll) := ParseFilter(lex, toks).value;
            Format(t, 0) == toks && Shaped(t, 0) && Accepted(lex, t) && coll == Anchor(lex, t)
  {
    OrFaithful(lex, toks, 0);
    assert toks[0..|toks|] == toks;
  }

  /** The language: exactly the prints of shaped trees, each from one tree only. */
  lemma ParsesExactly<A>(lex: Lexicon<A>, toks: seq<Token<A>>, t: Filter<A>, coll: bytes)
    ensures ParseFilter(lex, toks) == Some((t, coll))
        <==> Shaped(t, 0) && Accepted(lex, t) && Format(t, 0) == toks && coll == Anchor(lex, t)
  {
    if ParseFilter(lex, toks).Some? {
      ReprintAccepted(lex, toks);
    }
    if Shaped(t, 0) && Accepted(lex, t) {
      ReparseShaped(lex, t);
    }
  }

  // ----- evaluation -----

  /** What matching a node returns, and the atoms it consulted, in order. */
  datatype Evaluation<A, E> = Evaluation(matched: bool, err: Option<E>, visited: seq<A>)

  /** `match` on the five node types; `eval` is the match of an atom. */
  function Eval<A, E>(t: Filter<A>, eval: A -> (bool, Option<E>)): Evaluation<A, E> {
    match t
    case Atom(a) => Evaluation(eval(a).0, eval(a).1, [a])
    case And(l, r) => EvalAnd(Eval(l, eval), Eval(r, eval))
    case Or(l, r) => EvalOr(Eval(l, eval), Eval(r, eval))
    case Not(x) =>
      var m := Eval(x, eval);
      if m.err.Some? then Evaluation(false, m.err, m.visited) else Evaluation(!m.matched, None, m.visited)
    case Group(x) => Eval(x, eval)
  }

  /** The right operand is consulted only when the left one matched without error. */
  function EvalAnd<A, E>(l: Evaluation<A, E>, r: Evaluation<A, E>): Evaluation<A, E> {
    if l.err.Some? || !l.matched then l else Evaluation(r.matched, r.err, l.visited + r.visited)
  }

  function EvalOr<A, E>(l: Evaluation<A, E>, r: Evaluation<A, E>): Evaluation<A, E> {
    if l.err.Some? then Evaluation(false, l.err, l.visited)
    else if l.matched then Evaluation(true, None, l.visited)
    else Evaluation(r.matched, r.err, l.visited + r.visited)
  }

  lemma EvalAssociates<A, E>(a: Evaluation<A, E>, b: Evaluation<A, E>, c: Evaluation<A, E>)
    ensures EvalAnd(a, EvalAnd(b, c)) == EvalAnd(EvalAnd(a, b), c)
    ensures EvalOr(a, EvalOr(b, c)) == EvalOr(EvalOr(a, b), c)
  {
    assert a.visited + (b.visited + c.visited) == a.visited + b.visited + c.visited;
  }

  // ----- what evaluation means -----

  /** The truth value of a formula under a valuation of its atoms. */
  predicate Truth<A>(t: Filter<A>, p: A -> bool) {
    match t
    case Atom(a) => p(a)
    case And(l, r) => Truth(l, p) && Truth(r, p)
    case Or(l, r) => Truth(l, p) || Truth(r, p)
    case Not(x) => !Truth(x, p)
    case Group(x) => Truth(x, p)
  }

  /** What the atoms answer, as a valuation. */
  function Answers<A, E>(eval: A -> (bool, Option<E>)): A -> bool {
    (a: A) => eval(a).0
  }

  /** The atoms from left to right. */
  function Atoms<A>(t: Filter<A>): (r: seq<A>)
    ensures |r| > 0
  {
    match t
    case Atom(a) => [a]
    case And(l, r) => Atoms(l) + Atoms(r)
    case Or(l, r) => Atoms(l) + Atoms(r)
    case Not(x) => Atoms(x)
    case Group(x) => Atoms(x)
  }

  /** The valuation gives the consulted atoms the answers they gave. */
  ghost predicate Agreeing<A(!new), E>(m: Evaluation<A, E>, eval: A -> (bool, Option<E>), p: A -> bool) {
    forall a | a in m.visited :: p(a) == eval(a).0
  }

  /** No consulted atom but the last one failed, and its error is the error of the evaluation. */
  ghost predicate FirstError<A, E>(m: Evaluation<A, E>, eval: A -> (bool, Option<E>)) {
    && m.visited != [] && m.err == eval(m.visited[|m.visited| - 1]).1
    && forall i | 0 <= i < |m.visited| - 1 :: eval(m.visited[i]).1.None?
  }

  /**
   An evaluation without an error gives the truth value of the formula under every valuation that agrees with the
   atoms consulted, so whatever the others would have said.
   */
  lemma {:induction false} EvalIsTruth<A(!new), E>(t: Filter<A>, eval: A -> (bool, Option<E>), p: A -> bool)
    requires Eval(t, eval).err.None? && Agreeing(Eval(t, eval), eval, p)
    ensures Eval(t, eval).matched <==> Truth(t, p)
    decreases t
  {
    match t
    case Atom(_) =>
    case And(l, r) =>
      EvalIsTruth(l, eval, p);
      if Eval(l, eval).matched {
        EvalIsTruth(r, eval, p);
      }
    case Or(l, r) =>
      EvalIsTruth(l, eval, p);
      if !Eval(l, eval).matched {
        EvalIsTruth(r, eval, p);
      }
    case Not(x) => EvalIsTruth(x, eval, p);
    case Group(x) => EvalIsTruth(x, eval, p);
  }

  /** The error is that of the first consulted atom that fails, and nothing is consulted after it. */
  lemma {:induction false} EvalStopsAtError<A, E>(t: Filter<A>, eval: A -> (bool, Option<E>))
    ensures FirstError(Eval(t, eval), eval)
    decreases t
  {
    match t
    case Atom(_) =>
    case And(l, r) =>
      EvalStopsAtError(l, eval);
      EvalStopsAtError(r, eval);
    case Or(l, r) =>
      EvalStopsAtError(l, eval);
      EvalStopsAtError(r, eval);
    case Not(x) => EvalStopsAtError(x, eval);
    case Group(x) => EvalStopsAtError(x, eval);
  }

  /** A side that decides alone is all that is looked at; when it does not, both are, the left one first. */
  lemma SidesConsulted<A, E>(l: Filter<A>, r: Filter<A>, eval: A -> (bool, Option<E>))
    ensures var left, right := Eval(l, eval).visited, Eval(r, eval).visited;
            var decided := Eval(l, eval).err.Some?;
            && Eval(And(l, r), eval).visited == (if decided || !Eval(l, eval).matched then left else left + right)
            && Eval(Or(l, r), eval).visited == (if decided || Eval(l, eval).matched then left else left + right)
  {
  }

  /** When no atom fails, a filter matches as its formula is true, with and without the atoms left out. */
  lemma {:induction false} ErrorFreeEval<A(!new), E>(t: Filter<A>, eval: A -> (bool, Option<E>))
    requires forall i | 0 <= i < |Atoms(t)| :: eval(Atoms(t)[i]).1.None?
    ensures Eval(t, eval).err.None? && (Eval(t, eval).matched <==> Truth(t, Answers(eval)))
  {
    EvalStopsAtError(t, eval);
    VisitsAtoms(t, eval);
    var m := Eval(t, eval);
    assert m.visited[|m.visited| - 1] in m.visited;
    EvalIsTruth(t, eval, Answers(eval));
  }

  lemma {:induction false} VisitsAtoms<A, E>(t: Filter<A>, eval: A -> (bool, Option<E>))
    ensures forall a | a in Eval(t, eval).visited :: a in Atoms(t)
    decreases t
  {
    match t
    case Atom(_) =>
    case And(l, r) =>
      VisitsAtoms(l, eval);
      VisitsAtoms(r, eval);
    case Or(l, r) =>
      VisitsAtoms(l, eval);
      VisitsAtoms(r, eval);
    case Not(x) => VisitsAtoms(x, eval);
    case Group(x) => VisitsAtoms(x, eval);
  }

  /** No atom before `k` has an anchor, and the atom there has this one; past the end there is none. */
  predicate FirstAnchor<A>(lex: Lexicon<A>, atoms: seq<A>, k: nat, anchor: bytes) {
    && k <= |atoms| && (forall i | 0 <= i < k :: lex.anchor(atoms[i]) == [])
    && anchor == (if k < |atoms| then lex.anchor(atoms[k]) else []) && (k < |atoms| ==> anchor != [])
  }

  ghost predicate IsFirstAnchor<A>(lex: Lexicon<A>, atoms: seq<A>, anchor: bytes) {
    exists k :: FirstAnchor(lex, atoms, k, anchor)
  }

  /** The anchor of a filter is that of its first atom, from left to right, that has one. */
  lemma {:induction false} AnchorIsFirst<A>(lex: Lexicon<A>, t: Filter<A>)
    ensures IsFirstAnchor(lex, Atoms(t), Anchor(lex, t))
    decreases t
  {
    match t
    case Atom(_) => assert FirstAnchor(lex, Atoms(t), if Anchor(lex, t) == [] then 1 else 0, Anchor(lex, t));
    case And(l, r) =>
      AnchorIsFirst(lex, l);
      AnchorIsFirst(lex, r);
      FirstOfBoth(lex, Atoms(l), Atoms(r), Anchor(lex, l), Anchor(lex, r));
    case Or(l, r) =>
      AnchorIsFirst(lex, l);
      AnchorIsFirst(lex, r);
      FirstOfBoth(lex, Atoms(l), Atoms(r), Anchor(lex, l), Anchor(lex, r));
    case Not(x) => AnchorIsFirst(lex, x);
    case Group(x) => AnchorIsFirst(lex, x);
  }

  lemma FirstOfBoth<A>(lex: Lexicon<A>, left: seq<A>, right: seq<A>, a: bytes, b: bytes)
    requires IsFirstAnchor(lex, left, a) && IsFirstAnchor(lex, right, b)
    ensures IsFirstAnchor(lex, left + right, FirstOf(a, b))
  {
    var i: nat :| FirstAnchor(lex, left, i, a);
    var j: nat :| FirstAnchor(lex, right, j, b);
    assert FirstAnchor(lex, left + right, if a == [] then |left| + j else i, FirstOf(a, b));
  }

  /** `a or b and c` is `a or (b and c)`, `a and b or c` is `(a and b) or c`, and `not a and b` is `(not a) and b`. */
  lemma Precedence<A>(lex: Lexicon<A>, a: A, b: A, c: A)
    requires lex.accepts(a) && lex.accepts(b) && lex.accepts(c)
    ensures ReadsAs(lex, [TAtom(a), TOr, TAtom(b), TAnd, TAtom(c)], Or(Atom(a), And(Atom(b), Atom(c))))
    ensures ReadsAs(lex, [TAtom(a), TAnd, TAtom(b), TOr, TAtom(c)], Or(And(Atom(a), Atom(b)), Atom(c)))
    ensures ReadsAs(lex, [TNot, TAtom(a), TAnd, TAtom(b)], And(Not(Atom(a)), Atom(b)))
    ensures ReadsAs(lex, [TLParen, TAtom(a), TOr, TAtom(b), TRParen, TAnd, TAtom(c)], And(Group(Or(Atom(a), Atom(b))), Atom(c)))
  {
    var x, y, z: Filter<A> := Atom(a), Atom(b), Atom(c);
    PrintedInfix(x, y);
    PrintedInfix(y, z);
    PrintedPrefix(x);
    hide ReadsAs, ParseFilter;
    PrintedOr(lex, x, And(y, z), [TAtom(a)], [TAtom(b), TAnd, TAtom(c)]);
    PrintedOr(lex, And(x, y), z, [TAtom(a), TAnd, TAtom(b)], [TAtom(c)]);
    PrintedAnd(lex, Not(x), y, [TNot, TAtom(a)], [TAtom(b)]);
    assert Shaped(Or(x, y), 0) && Accepted(lex, Or(x, y));
    PrintedGroup(Or(x, y), [TAtom(a), TOr, TAtom(b)]);
    PrintedAnd(lex, Group(Or(x, y)), z, [TLParen, TAtom(a), TOr, TAtom(b), TRParen], [TAtom(c)]);
    hide Format, Shaped, Accepted;
    assert [TAtom(a)] + [TOr] + [TAtom(b), TAnd, TAtom(c)] == [TAtom(a), TOr, TAtom(b), TAnd, TAtom(c)];
    assert [TAtom(a), TAnd, TAtom(b)] + [TOr] + [TAtom(c)] == [TAtom(a), TAnd, TAtom(b), TOr, TAtom(c)];
    assert [TNot, TAtom(a)] + [TAnd] + [TAtom(b)] == [TNot, TAtom(a), TAnd, TAtom(b)];
    assert [TLParen, TAtom(a), TOr, TAtom(b), TRParen] + [TAnd] + [TAtom(c)]
        == [TLParen, TAtom(a), TOr, TAtom(b), TRParen, TAnd, TAtom(c)];
  }

  /** The tokens are read as this tree, with its anchor. */
  predicate ReadsAs<A(==)>(lex: Lexicon<A>, toks: seq<Token<A>>, t: Filter<A>) {
    ParseFilter(lex, toks) == Some((t, Anchor(lex, t)))
  }

  lemma PrintedInfix<A>(x: Filter<A>, y: Filter<A>)
    requires x.Atom? && y.Atom?
    ensures Format(And(x, y), 1) == [TAtom(x.atom), TAnd, TAtom(y.atom)]
    ensures Format(Or(x, y), 0) == [TAtom(x.atom), TOr, TAtom(y.atom)]
  {
  }

  lemma PrintedPrefix<A>(x: Filter<A>)
    requires x.Atom?
    ensures Format(Not(x), 2) == [TNot, TAtom(x.atom)]
  {
  }

  lemma PrintedGroup<A>(t: Filter<A>, p: seq<Token<A>>)
    requires Format(t, 0) == p
    ensures Format(Group(t), 2) == [TLParen] + p + [TRParen]
  {
  }

  lemma PrintedOr<A>(lex: Lexicon<A>, l: Filter<A>, r: Filter<A>, p: seq<Token<A>>, q: seq<Token<A>>)
    requires Shaped(Or(l, r), 0) && Accepted(lex, Or(l, r)) && Format(l, 1) == p && Format(r, 1) == q
    ensures ReadsAs(lex, p + [TOr] + q, Or(l, r))
  {
    ReparseShaped(lex, Or(l, r));
  }

  lemma PrintedAnd<A>(lex: Lexicon<A>, l: Filter<A>, r: Filter<A>, p: seq<Token<A>>, q: seq<Token<A>>)
    requires Shaped(And(l, r), 0) && Accepted(lex, And(l, r)) && Format(l, 2) == p && Format(r, 2) == q
    ensures ReadsAs(lex, p + [TAnd] + q, And(l, r))
  {
    ReparseShaped(lex, And(l, r));
  }

  // ----- printing an arbitrary tree -----

  /** `left and right` as the parser would associate it. */
  function JoinAnd<A>(left: Filter<A>, right: Filter<A>): Filter<A> {
    if right.And? then And(JoinAnd(left, right.left), right.right) else And(left, right)
  }

  function JoinOr<A>(left: Filter<A>, right: Filter<A>): Filter<A> {
    if right.Or? then Or(JoinOr(left, right.left), right.right) else Or(left, right)
  }

  function Grouped<A>(t: Filter<A>, parent: nat, self: nat): Filter<A> {
    if self < parent then Group(t) else t
  }

  /** The tree that a print denotes: the printer's parentheses become groups, chains lean left. */
  function Norm<A>(t: Filter<A>, parent: nat): Filter<A> {
    match t
    case Atom(_) => t
    case And(l, r) => Grouped(JoinAnd(Norm(l, 2), Norm(r, 2)), parent, 2)
    case Or(l, r) => Grouped(JoinOr(Norm(l, 1), Norm(r, 1)), parent, 1)
    case Not(x) => Not(Norm(x, 3))
    case Group(x) => Group(Norm(x, 0))
  }

  /** Everything that matters about a tree is the same in another. */
  ghost predicate Same<A, E>(lex: Lexicon<A>, eval: A -> (bool, Option<E>), s: Filter<A>, t: Filter<A>) {
    Eval(s, eval) == Eval(t, eval) && Anchor(lex, s) == Anchor(lex, t) && (Accepted(lex, s) <==> Accepted(lex, t))
  }

  lemma {:induction false} JoinAndShape<A>(left: Filter<A>, right: Filter<A>)
    requires Shaped(left, 1) && Shaped(right, 1)
    ensures Shaped(JoinAnd(left, right), 1)
    ensures Format(JoinAnd(left, right), 0) == Format(left, 0) + [TAnd] + Format(right, 0)
  {
    FormatShaped(left, 2);
    FormatShaped(right, 2);
    if right.And? {
      JoinAndShape(left, right.left);
      ShapedWeaken(right.right, 2, 1);
      FormatShaped(right.left, 2);
      FormatShaped(right.right, 2);
      FormatShaped(JoinAnd(left, right.left), 2);
      var x, y, z := Format(left, 0), Format(right.left, 0), Format(right.right, 0);
      assert x + [TAnd] + y + [TAnd] + z == x + [TAnd] + (y + [TAnd] + z);
    }
  }

  lemma {:induction false} JoinOrShape<A>(left: Filter<A>, right: Filter<A>)
    requires Shaped(left, 0) && Shaped(right, 0)
    ensures Shaped(JoinOr(left, right), 0)
    ensures Format(JoinOr(left, right), 0) == Format(left, 0) + [TOr] + Format(right, 0)
  {
    FormatShaped(left, 1);
    FormatShaped(right, 1);
    if right.Or? {
      JoinOrShape(left, right.left);
      ShapedWeaken(right.right, 1, 0);
      FormatShaped(right.left, 1);
      FormatShaped(right.right, 1);
      FormatShaped(JoinOr(left, right.left), 1);
      var x, y, z := Format(left, 0), Format(right.left, 0), Format(right.right, 0);
      assert x + [TOr] + y + [TOr] + z == x + [TOr] + (y + [TOr] + z);
    }
  }

  lemma {:induction false} JoinAndSame<A, E>(
    lex: Lexicon<A>, eval: A -> (bool, Option<E>), left: Filter<A>, right: Filter<A>)
    ensures Same(lex, eval, JoinAnd(left, right), And(left, right))
  {
    if right.And? {
      JoinAndSame(lex, eval, left, right.left);
      EvalAssociates(Eval(left, eval), Eval(right.left, eval), Eval(right.right, eval));
    }
  }

  lemma {:induction false} JoinOrSame<A, E>(
    lex: Lexicon<A>, eval: A -> (bool, Option<E>), left: Filter<A>, right: Filter<A>)
    ensures Same(lex, eval, JoinOr(left, right), Or(left, right))
  {
    if right.Or? {
      JoinOrSame(lex, eval, left, right.left);
      EvalAssociates(Eval(left, eval), Eval(right.left, eval), Eval(right.right, eval));
    }
  }

  lemma {:induction false} NormShape<A>(t: Filter<A>, parent: nat)
    ensures Shaped(Norm(t, parent), LevelOf(parent))
    ensures Format(Norm(t, parent), 0) == Format(t, parent)
  {
    match t
    case Atom(_) =>
    case And(l, r) =>
      NormShape(l, 2);
      NormShape(r, 2);
      JoinAndShape(Norm(l, 2), Norm(r, 2));
      ShapedWeaken(JoinAnd(Norm(l, 2), Norm(r, 2)), 1, 0);
    case Or(l, r) =>
      NormShape(l, 1);
      NormShape(r, 1);
      JoinOrShape(Norm(l, 1), Norm(r, 1));
    case Not(x) =>
      NormShape(x, 3);
      FormatShaped(Norm(x, 3), 3);
    case Group(x) => NormShape(x, 0);
  }

  lemma {:induction false} NormSame<A, E>(lex: Lexicon<A>, eval: A -> (bool, Option<E>), t: Filter<A>, parent: nat)
    ensures Same(lex, eval, Norm(t, parent), t)
  {
    match t
    case Atom(_) =>
    case And(l, r) =>
      NormSame(lex, eval, l, 2);
      NormSame(lex, eval, r, 2);
      JoinAndSame(lex, eval, Norm(l, 2), Norm(r, 2));
    case Or(l, r) =>
      NormSame(lex, eval, l, 1);
      NormSame(lex, eval, r, 1);
      JoinOrSame(lex, eval, Norm(l, 1), Norm(r, 1));
    case Not(x) => NormSame(lex, eval, x, 3);
    case Group(x) => NormSame(lex, eval, x, 0);
  }

  /**
   The canonical print of any tree parses, names the same collection, and the tree read back evaluates
   as the original on every document: the same answer, the same error, the same atoms consulted.
   */
  lemma CanonicalKeepsMeaning<A, E>(lex: Lexicon<A>, eval: A -> (bool, Option<E>), t: Filter<A>)
    requires Accepted(lex, t)
    ensures var r := ParseFilter(lex, Format(t, 0));
            r.Some? && r.value.1 == Anchor(lex, t)
            && Eval(r.value.0, eval) == Eval(t, eval) && Format(r.value.0, 0) == Format(t, 0)
  {
    NormShape(t, 0);
    NormSame(lex, eval, t, 0);
    ReparseShaped(lex, Norm(t, 0));
  }

  // ----- the parser as it runs -----

  /** `tokenStream` with the mutually recursive parse functions over it. */
  class TokenStream<A(==)> {
    const lex: Lexicon<A>
    const toks: seq<Token<A>>
    var pos: nat

    ghost predicate Valid()
      reads this
    {
      pos <= |toks|
    }

    /** A parse gave what the function gives, and moved the position behind it. */
    ghost predicate Agrees(spec: Parse<A>, r: Option<(Filter<A>, bytes)>)
      reads this
    {
      match spec
      case None => r.None?
      case Some((t, coll, end)) => r == Some((t, coll)) && pos == end
    }

    constructor (lex: Lexicon<A>, toks: seq<Token<A>>)
      ensures Valid() && this.lex == lex && this.toks == toks && pos == 0
    {
      this.lex, this.toks, pos := lex, toks, 0;
    }

    method Next() returns (r: Option<Token<A>>)
      requires Valid()
      modifies this
      ensures Valid() && r == Peek(toks, old(pos))
      ensures pos == if r.Some? then old(pos) + 1 else old(pos)
    {
      r := Peek(toks, pos);
      if r.Some? {
        pos := pos + 1;
      }
    }

    method Or() returns (r: Option<(Filter<A>, bytes)>)
      requires Valid()
      modifies this
      ensures Valid() && old(pos) <= pos && Agrees(ParseOr(lex, toks, old(pos)), r)
      decreases |toks| - pos, 3
    {
      var first := And();
      if first.None? {
        return None;
      }
      var (left, coll) := first.value;
      ghost var start := old(pos);
      while Peek(toks, pos) == Some(TOr)
        invariant Valid() && start < pos
        invariant ParseOr(lex, toks, start) == OrTail(lex, toks, pos, left, coll)
        decreases |toks| - pos
      {
        var _ := Next();
        var second := And();
        if second.None? {
          return None;
        }
        var (right, rcoll) := second.value;
        if coll == [] {
          coll := rcoll;
        }
        left := Filter.Or(left, right);
      }
      return Some((left, coll));
    }

    method And() returns (r: Option<(Filter<A>, bytes)>)
      requires Valid()
      modifies this
      ensures Valid() && old(pos) <= pos && Agrees(ParseAnd(lex, toks, old(pos)), r)
      decreases |toks| - pos, 2
    {
      var first := Unary();
      if first.None? {
        return None;
      }
      var (left, coll) := first.value;
      ghost var start := old(pos);
      while Peek(toks, pos) == Some(TAnd)
        invariant Valid() && start < pos
        invariant ParseAnd(lex, toks, start) == AndTail(lex, toks, pos, left, coll)
        decreases |toks| - pos
      {
        var _ := Next();
        var second := Unary();
        if second.None? {
          return None;
        }
        var (right, rcoll) := second.value;
        if coll == [] {
          coll := rcoll;
        }
        left := Filter.And(left, right);
      }
      return Some((left, coll));
    }

    method Unary() returns (r: Option<(Filter<A>, bytes)>)
      requires Valid()
      modifies this
      ensures Valid() && old(pos) <= pos && Agrees(ParseUnary(lex, toks, old(pos)), r)
      decreases |toks| - pos, 1
    {
      if Peek(toks, pos) == Some(TNot) {
        var _ := Next();
        var x := Unary();
        return if x.None? then None else Some((Not(x.value.0), x.value.1));
      }
      r := Primary();
    }

    method Primary() returns (r: Option<(Filter<A>, bytes)>)
      requires Valid()
      modifies this
      ensures Valid() && old(pos) <= pos && Agrees(ParsePrimary(lex, toks, old(pos)), r)
      decreases |toks| - pos, 0
    {
      var t := Next();
      match t
      case Some(TLParen) =>
        var x := Or();
        if x.None? {
          return None;
        }
        var close := Next();
        return if close == Some(TRParen) then Some((Group(x.value.0), x.value.1)) else None;
      case Some(TAtom(a)) =>
        return if lex.accepts(a) then Some((Atom(a), lex.anchor(a))) else None;
      case _ =>
        return None;
    }
  }

  /** `parseFilterExpression` after tokenizing. */
  method RunParser<A(==)>(lex: Lexicon<A>, toks: seq<Token<A>>) returns (r: Option<(Filter<A>, bytes)>)
    ensures r == ParseFilter(lex, toks)
  {
    var ts := new TokenStream(lex, toks);
    var parsed := ts.Or();
    return if parsed.None? || Peek(ts.toks, ts.pos).Some? then None else parsed;
  }
}
