/**
 The query planner (query.go): choosing an index for a filter, and why reading that index loses no
 matching document.
 */
module Planner {
  import opened Wrappers
  import opened Bytes
  import opened Numerals
  import opened Floats
  import opened IndexRange
  import opened Document
  import opened Pointer
  import opened FilterSyntax
  import opened JqValue
  import opened Store
  import opened StoreInvariants
  import opened Scan

  // ----- queries -----

  datatype CmpOp = Eq | Ne | Range(op: RangeOp) | In | NotIn | Prefix | NotPrefix | Regex | NotRegex

  /** `key op value`; the value is None for a placeholder that is not set. */
  datatype Comparison = Comparison(key: bytes, op: CmpOp, value: Option<Doc>)

  datatype QueryError = UnsetPlaceholder | BadRegexp | OtherError

  type Verdict = (bool, Option<QueryError>)

  type Expr = Filter<Comparison>

  /**
   An atom of a filter: a path with an optional bracketed expression, or one of the forms that never
   use an index (everything, by id, step chains), told apart by a number.
   */
  datatype Term = PathTerm(pattern: bytes, expr: Option<Expr>) | OtherTerm(form: nat)

  /**
   What the planner's guarantee does not depend on: the match of the other forms and of patterns with
   wildcards, regular expressions, float text, and the values of `*`, `**` below a container,
   `[...]` and `/...` keys.
   */
  datatype Env = Env(
    lib: Lib,
    regex: (Doc, Doc) -> Verdict,
    formatFloat: u64 -> bytes,
    special: (Doc, bytes) -> seq<Doc>,
    other: (Term, Doc, i64) -> Verdict)

  const STAR: byte := 0x2a
  const STARS: bytes := [STAR, STAR]

  // ----- matching -----

  /** `jqPrefixString` */
  function PrefixText(env: Env, v: Doc): Option<bytes> {
    match v
    case Str(s) => Some(s)
    case Int(i) => Some(FormatInt(i))
    case Float(u) => Some(env.formatFloat(u))
    case Bool(b) => Some(if b then TRUE_TEXT else FALSE_TEXT)
    case _ => None
  }

  predicate EqualTo(env: Env, left: Doc, right: Doc) {
    Compare(env.lib, left, right) == Some(0)
  }

  predicate IsIn(env: Env, left: Doc, right: Doc) {
    right.Arr? && exists i | 0 <= i < |right.items| :: EqualTo(env, left, right.items[i])
  }

  /** Two strings compare by bytes here, not by length first. */
  predicate RangeHolds(env: Env, left: Doc, op: RangeOp, right: Doc) {
    if left.Str? && right.Str? then op.Holds(CompareText(left.s, right.s))
    else Compare(env.lib, left, right).Some? && op.Holds(Compare(env.lib, left, right).value)
  }

  predicate HasPrefix(env: Env, left: Doc, right: Doc) {
    && PrefixText(env, left).Some? && PrefixText(env, right).Some?
    && PrefixText(env, right).value <= PrefixText(env, left).value
  }

  /** `compareValues` */
  function CompareValues(env: Env, left: Doc, op: CmpOp, right: Doc): Verdict {
    match op
    case Eq => (EqualTo(env, left, right), None)
    case Ne => (!EqualTo(env, left, right), None)
    case Range(r) => (RangeHolds(env, left, r, right), None)
    case In => (IsIn(env, left, right), None)
    case NotIn => (!IsIn(env, left, right), None)
    case Prefix => (HasPrefix(env, left, right), None)
    case NotPrefix =>
      (PrefixText(env, left).Some? && PrefixText(env, right).Some? && !HasPrefix(env, left, right), None)
    case Regex => env.regex(left, right)
    case NotRegex =>
      var m := env.regex(left, right);
      if m.1.Some? then (false, m.1) else (!m.0, None)
  }

  predicate IsContainer(v: Doc) {
    v.Arr? || v.Obj?
  }

  predicate IsBracketed(key: bytes) {
    |key| > 0 && key[0] == 0x5b && key[|key| - 1] == 0x5d
  }

  /** `valuesByKey` */
  function ValuesByKey(env: Env, base: Doc, key: bytes): seq<Doc> {
    if IsBracketed(key) || key == [STAR] || (|key| > 0 && key[0] == SLASH) then env.special(base, key)
    else if key == STARS then (if IsContainer(base) then env.special(base, key) else [base])
    else match Child(base, key) case Some(v) => [v] case None => []
  }

  /** The loop of `comparison.eval`: the first error or match ends it. */
  function AnyValue(env: Env, vals: seq<Doc>, op: CmpOp, right: Doc): Verdict {
    if vals == [] then (false, None) else
    var m := CompareValues(env, vals[0], op, right);
    if m.1.Some? then (false, m.1) else if m.0 then (true, None) else AnyValue(env, vals[1..], op, right)
  }

  function EvalComparison(env: Env, base: Doc, c: Comparison): Verdict {
    match c.value
    case None => (false, Some(UnsetPlaceholder))
    case Some(right) => AnyValue(env, ValuesByKey(env, base, c.key), c.op, right)
  }

  function ComparisonsAt(env: Env, base: Doc): Comparison -> Verdict {
    (c: Comparison) => EvalComparison(env, base, c)
  }

  function EvalExpr(env: Env, base: Doc, e: Expr): Evaluation<Comparison, QueryError> {
    Eval(e, ComparisonsAt(env, base))
  }

  /** `queryFilter.match`: a pattern without wildcards finds at most one node. */
  function MatchTerm(env: Env, doc: Doc, id: i64, t: Term): Verdict {
    if t.OtherTerm? || STAR in t.pattern then env.other(t, doc, id) else
    match PointerGet(doc, t.pattern)
    case None => (false, None)
    case Some(node) =>
      match t.expr
      case None => (true, None)
      case Some(e) =>
        var m := EvalExpr(env, node, e);
        if m.err.Some? then (false, m.err) else (m.matched, None)
  }

  function TermsOn(env: Env, doc: Doc, id: i64): Term -> Verdict {
    (t: Term) => MatchTerm(env, doc, id, t)
  }

  function Match(env: Env, doc: Doc, id: i64, f: Filter<Term>): Evaluation<Term, QueryError> {
    Eval(f, TermsOn(env, doc, id))
  }

  /** The document matches, without an error. */
  predicate Matches(env: Env, doc: Doc, id: i64, f: Filter<Term>) {
    Match(env, doc, id, f).matched && Match(env, doc, id, f).err.None?
  }

  // ----- what matching means -----

  /** A negated operator is the negation of the positive one; only prefixes ask that both sides have a text. */
  lemma NegationsExactly(env: Env, v: Doc, w: Doc)
    ensures CompareValues(env, v, Ne, w) == (!CompareValues(env, v, Eq, w).0, None)
    ensures CompareValues(env, v, NotIn, w) == (!CompareValues(env, v, In, w).0, None)
    ensures PrefixText(env, v).Some? && PrefixText(env, w).Some? ==>
              CompareValues(env, v, NotPrefix, w) == (!CompareValues(env, v, Prefix, w).0, None)
    ensures PrefixText(env, v).None? || PrefixText(env, w).None? ==>
              CompareValues(env, v, NotPrefix, w) == CompareValues(env, v, Prefix, w) == (false, None)
    ensures var m := CompareValues(env, v, Regex, w);
            CompareValues(env, v, NotRegex, w) == if m.1.Some? then (false, m.1) else (!m.0, None)
  {
    hide EqualTo, PrefixText;
  }

  /** The operators on two integers, on two strings, and on a text and the numeral of a number. */
  lemma OperatorsOnValues(env: Env, i: i64, j: i64, s: bytes, t: bytes)
    ensures CompareValues(env, Int(i), Eq, Int(j)).0 <==> i == j
    ensures CompareValues(env, Int(i), Range(Lt), Int(j)).0 <==> i < j
    ensures CompareValues(env, Int(i), Range(Le), Int(j)).0 <==> i <= j
    ensures CompareValues(env, Int(i), Range(Gt), Int(j)).0 <==> i > j
    ensures CompareValues(env, Int(i), Range(Ge), Int(j)).0 <==> i >= j
    ensures CompareValues(env, Str(s), Eq, Str(t)).0 <==> s == t
    ensures CompareValues(env, Str(s), Range(Lt), Str(t)).0 <==> Less(s, t)
    ensures CompareValues(env, Str(s), Range(Le), Str(t)).0 <==> s == t || Less(s, t)
    ensures CompareValues(env, Str(s), Range(Gt), Str(t)).0 <==> Less(t, s)
    ensures CompareValues(env, Str(s), Range(Ge), Str(t)).0 <==> s == t || Less(t, s)
    ensures CompareValues(env, Str(s), Prefix, Str(t)).0 <==> t <= s
    ensures CompareValues(env, Int(i), Prefix, Str(t)).0 <==> t <= FormatInt(i)
    ensures CompareValues(env, Bool(true), Prefix, Str(t)).0 <==> t <= TRUE_TEXT
    ensures CompareValues(env, Bool(false), Prefix, Str(t)).0 <==> t <= FALSE_TEXT
    ensures !CompareValues(env, Null, Prefix, Str(t)).0 && !CompareValues(env, Null, NotPrefix, Str(t)).0
  {
    hide Less, FormatInt;
    TextOrder(s, t, s);
    TextOrder(t, s, t);
  }

  /** `in` is equality with some element of an array, and of nothing else. */
  lemma InExactly(env: Env, v: Doc, w: Doc)
    ensures CompareValues(env, v, In, w).0
       <==> w.Arr? && exists x :: x in w.items && CompareValues(env, v, Eq, x).0
  {
    hide EqualTo;
    if w.Arr? && IsIn(env, v, w) {
      var i :| 0 <= i < |w.items| && EqualTo(env, v, w.items[i]);
      assert w.items[i] in w.items && CompareValues(env, v, Eq, w.items[i]).0;
    }
  }

  /** The value ends the search of a comparison: it matches, or the comparison fails on it. */
  predicate Ends(env: Env, v: Doc, op: CmpOp, right: Doc) {
    CompareValues(env, v, op, right).0 || CompareValues(env, v, op, right).1.Some?
  }

  /** The first of the values that matches or fails decides; without one nothing matches. */
  lemma {:induction false} AnyValueExactly(env: Env, vals: seq<Doc>, op: CmpOp, right: Doc, k: nat)
    requires k <= |vals| && forall i | 0 <= i < k :: !Ends(env, vals[i], op, right)
    ensures k == |vals| ==> AnyValue(env, vals, op, right) == (false, None)
    ensures k < |vals| && Ends(env, vals[k], op, right) ==>
              AnyValue(env, vals, op, right)
                == if CompareValues(env, vals[k], op, right).1.Some? then (false, CompareValues(env, vals[k], op, right).1)
                   else (true, None)
    decreases |vals|
  {
    hide CompareValues;
    if k > 0 {
      assert forall i | 0 <= i < k - 1 :: vals[1..][i] == vals[i + 1];
      AnyValueExactly(env, vals[1..], op, right, k - 1);
    }
  }

  /** At a key that names a member or an element, the comparison looks at that value alone, and at nothing if it is absent. */
  lemma PlainComparison(env: Env, base: Doc, c: Comparison)
    requires !IsBracketed(c.key) && c.key != [STAR] && c.key != STARS && (c.key == [] || c.key[0] != SLASH) && c.value.Some?
    ensures EvalComparison(env, base, c) ==
      match Child(base, c.key)
      case None => (false, None)
      case Some(v) => var m := CompareValues(env, v, c.op, c.value.value); if m.1.Some? then (false, m.1) else m
  {
    hide CompareValues, Child;
    var vals := ValuesByKey(env, base, c.key);
    if Child(base, c.key).Some? {
      assert vals == [Child(base, c.key).value];
      AnyValueExactly(env, vals, c.op, c.value.value, if Ends(env, vals[0], c.op, c.value.value) then 0 else 1);
    }
  }

  /** At `**` a comparison looks at a value that is no container itself. */
  lemma SelfComparison(env: Env, base: Doc, c: Comparison)
    requires c.key == STARS && !IsContainer(base) && c.value.Some?
    ensures EvalComparison(env, base, c) ==
      var m := CompareValues(env, base, c.op, c.value.value);
      if m.1.Some? then (false, m.1) else m
  {
    hide CompareValues;
    var vals := [base];
    assert ValuesByKey(env, base, c.key) == vals;
    AnyValueExactly(env, vals, c.op, c.value.value, if Ends(env, base, c.op, c.value.value) then 0 else 1);
  }

  /** None of the atoms fails. */
  ghost predicate NoErrors<A>(t: Filter<A>, eval: A -> Verdict) {
    forall i | 0 <= i < |Atoms(t)| :: eval(Atoms(t)[i]).1.None?
  }

  /** A path without wildcards matches where it leads somewhere, and with an expression where that holds there. */
  lemma PlainTerm(env: Env, doc: Doc, id: i64, pattern: bytes, expr: Option<Expr>)
    requires STAR !in pattern
    ensures PointerGet(doc, pattern).None? ==> MatchTerm(env, doc, id, PathTerm(pattern, expr)) == (false, None)
    ensures PointerGet(doc, pattern).Some? && expr.None? ==> MatchTerm(env, doc, id, PathTerm(pattern, expr)) == (true, None)
    ensures PointerGet(doc, pattern).Some? && expr.Some? ==>
              var eval := ComparisonsAt(env, PointerGet(doc, pattern).value);
              NoErrors(expr.value, eval) ==>
                MatchTerm(env, doc, id, PathTerm(pattern, expr)) == (Truth(expr.value, Answers(eval)), None)
  {
    hide PointerGet, ComparisonsAt;
    if PointerGet(doc, pattern).Some? && expr.Some? {
      var eval := ComparisonsAt(env, PointerGet(doc, pattern).value);
      if NoErrors(expr.value, eval) {
        ErrorFreeEval(expr.value, eval);
      }
    }
  }

  /** Where neither side fails, a filter matches as its connective says. */
  lemma ConnectivesMatch(env: Env, doc: Doc, id: i64, l: Filter<Term>, r: Filter<Term>)
    requires Match(env, doc, id, l).err.None? && Match(env, doc, id, r).err.None?
    ensures Matches(env, doc, id, And(l, r)) <==> Matches(env, doc, id, l) && Matches(env, doc, id, r)
    ensures Matches(env, doc, id, Or(l, r)) <==> Matches(env, doc, id, l) || Matches(env, doc, id, r)
    ensures Matches(env, doc, id, Not(l)) <==> !Matches(env, doc, id, l)
    ensures Matches(env, doc, id, Group(l)) <==> Matches(env, doc, id, l)
  {
    hide MatchTerm;
  }

  /** When no term fails on a document, it matches as the filter is true of its terms. */
  lemma MatchIsTruth(env: Env, doc: Doc, id: i64, f: Filter<Term>)
    requires NoErrors(f, TermsOn(env, doc, id))
    ensures Matches(env, doc, id, f) <==> Truth(f, Answers(TermsOn(env, doc, id)))
  {
    hide TermsOn;
    ErrorFreeEval(f, TermsOn(env, doc, id));
  }

  // ----- plans -----

  datatype Plan = Plan(idx: IndexRef, op: PlanOp, weight: int, rnum: int, pathCnt: nat)
  {
    /** `op2 != ""` */
    predicate TwoSided() {
      op.RangePlan? && op.second.Some?
    }
  }

  /** `betterCandidate`; None also stands for the plan it returns together with false. */
  function Better(a: Option<Plan>, b: Option<Plan>): (r: Option<Plan>)
    ensures r.Some? ==> r == a || r == b
  {
    if a.None? then b
    else if b.None? then a
    else if b.value.weight > a.value.weight then b
    else if b.value.weight < a.value.weight then a
    else if b.value.TwoSided() != a.value.TwoSided() then (if b.value.TwoSided() then b else None)
    else if b.value.rnum != a.value.rnum then (if b.value.rnum < a.value.rnum then b else None)
    else if b.value.pathCnt != a.value.pathCnt then (if b.value.pathCnt < a.value.pathCnt then b else None)
    else if b.value.idx.def.unique && !a.value.idx.def.unique then b
    else a
  }

  /** `mergeRangeCandidates`: a lower and an upper bound on one index become a two-sided range. */
  function Merge(a: Option<Plan>, b: Option<Plan>): Option<Plan> {
    if a.None? || b.None? || a.value.idx.def != b.value.idx.def then None
    else if !a.value.op.RangePlan? || !b.value.op.RangePlan? then None
    else if a.value.op.op.Lower() == b.value.op.op.Lower() then None
    else
      var (low, high) := if a.value.op.op.Lower() then (a.value, b.value) else (b.value, a.value);
      Some(low.(op := low.op.(second := Some((high.op.op, high.op.value))), weight := 75))
  }

  /** The plan of a conjunction. */
  function Conjoin(a: Option<Plan>, b: Option<Plan>): Option<Plan> {
    if Merge(a, b).Some? then Merge(a, b) else Better(a, b)
  }

  /** `indexOpPlan`: the weight of using the index for the comparison, if it can be used. */
  function OpWeight(env: Env, nz: Normalizer, kind: IndexKind, op: CmpOp, val: Doc, rnum: int): Option<int> {
    match op
    case Eq => if nz(val, kind).Some? then Some(100) else None
    case In =>
      if !val.Arr? then None
      else if |val.items| > 10 && (|val.items| > 500 || rnum < |val.items| * 200) then None
      else if exists i | 0 <= i < |val.items| :: nz(val.items[i], kind).Some? then Some(90)
      else None
    case Prefix =>
      if kind.StringIndex? && PrefixText(env, val).Some? && PrefixText(env, val).value != [] then Some(60) else None
    case Range(r) => if nz(val, kind).None? then None else if r.Lower() then Some(70) else Some(50)
    case _ => None
  }

  /** What the scan does with the operator and the value of the comparison. */
  function OpOf(env: Env, op: CmpOp, val: Doc): PlanOp {
    match op
    case Eq => EqOp(val)
    case In => InOp(if val.Arr? then val.items else [])
    case Prefix => PrefixOp(if PrefixText(env, val).Some? then PrefixText(env, val).value else [])
    case Range(r) => RangePlan(r, val, None)
    case _ => Whole
  }

  predicate Indexable(op: CmpOp) {
    op.Eq? || op.In? || op.Range? || op.Prefix?
  }

  /** The path a comparison looks at. */
  function JoinedPath(pattern: bytes, key: bytes): bytes {
    if key == STARS then pattern else PointerJoin(pattern, key)
  }

  /** The guards at the head of candidateFromComparison. */
  predicate Plannable(c: Comparison) {
    Indexable(c.op) && (c.key == STARS || SLASH !in c.key) && c.key != [STAR] && c.value.Some?
  }

  function PathCount(path: bytes): nat {
    match Tokens(path) case Some(tokens) => |tokens| case None => 0
  }

  function PlanFor(env: Env, nz: Normalizer, rnum: int, path: bytes, c: Comparison, idx: IndexRef): Option<Plan>
    requires c.value.Some?
  {
    if idx.def.path != path then None else
    match OpWeight(env, nz, idx.def.kind, c.op, c.value.value, rnum)
    case None => None
    case Some(w) => Some(Plan(idx, OpOf(env, c.op, c.value.value), w, rnum, PathCount(path)))
  }

  /** The best plan among the first `n` indexes, in the order the map iteration gives them. */
  function BestOf(env: Env, nz: Normalizer, rnum: int, order: seq<IndexRef>, path: bytes, c: Comparison, n: nat)
    : Option<Plan>
    requires c.value.Some? && n <= |order|
  {
    if n == 0 then None else
    Step(BestOf(env, nz, rnum, order, path, c, n - 1), PlanFor(env, nz, rnum, path, c, order[n - 1]))
  }

  /** One index looked at: only a usable one is compared with the best so far. */
  function Step(best: Option<Plan>, plan: Option<Plan>): (r: Option<Plan>)
    ensures r.Some? ==> r == best || r == plan
  {
    if plan.None? then best else Better(best, plan)
  }

  function FromComparison(env: Env, nz: Normalizer, rnum: int, order: seq<IndexRef>, pattern: bytes, c: Comparison)
    : Option<Plan>
  {
    if !Plannable(c) then None
    else BestOf(env, nz, rnum, order, JoinedPath(pattern, c.key), c, |order|)
  }

  /** The loop of candidateFromComparison. */
  method ComputeFromComparison(env: Env, nz: Normalizer, rnum: int, order: seq<IndexRef>, pattern: bytes, c: Comparison)
    returns (best: Option<Plan>)
    ensures best == FromComparison(env, nz, rnum, order, pattern, c)
  {
    if !Plannable(c) {
      return None;
    }
    var path := JoinedPath(pattern, c.key);
    best := None;
    for n := 0 to |order|
      invariant best == BestOf(env, nz, rnum, order, path, c, n)
    {
      var plan := PlanFor(env, nz, rnum, path, c, order[n]);
      if plan.Some? {
        best := Better(best, plan);
      }
    }
  }

  /** `candidateFromExpr`: comparisons and conjunctions only. */
  function FromExpr(env: Env, nz: Normalizer, rnum: int, order: seq<IndexRef>, pattern: bytes, e: Expr): Option<Plan> {
    match e
    case Atom(c) => FromComparison(env, nz, rnum, order, pattern, c)
    case And(l, r) =>
      Conjoin(FromExpr(env, nz, rnum, order, pattern, l), FromExpr(env, nz, rnum, order, pattern, r))
    case _ => None
  }

  /** `candidate` on the five node types. */
  function Candidate(env: Env, nz: Normalizer, rnum: int, order: seq<IndexRef>, f: Filter<Term>): Option<Plan> {
    match f
    case Atom(PathTerm(pattern, Some(e))) =>
      if STAR in pattern then None else FromExpr(env, nz, rnum, order, pattern, e)
    case And(l, r) => Conjoin(Candidate(env, nz, rnum, order, l), Candidate(env, nz, rnum, order, r))
    case Group(x) => Candidate(env, nz, rnum, order, x)
    case _ => None
  }

  /** How good a use of an index is: equality first, then `in`, a range from both sides, from below, prefix, from above. */
  function WeightOf(op: PlanOp): int {
    match op
    case EqOp(_) => 100
    case InOp(_) => 90
    case RangePlan(r, _, second) => if second.Some? then 75 else if r.Lower() then 70 else 50
    case PrefixOp(_) => 60
    case Whole => 0
  }

  /** What all plans of one query have in common: the weight tells the kind of use, the counts are those of the index. */
  predicate Regular(rnum: int, plan: Plan) {
    plan.rnum == rnum && plan.pathCnt == PathCount(plan.idx.def.path) && plan.weight == WeightOf(plan.op) && !plan.op.Whole?
  }

  lemma {:induction false} BestOfRegular(env: Env, nz: Normalizer, rnum: int, order: seq<IndexRef>, path: bytes,
                                         c: Comparison, n: nat)
    requires Plannable(c) && n <= |order|
    ensures var plan := BestOf(env, nz, rnum, order, path, c, n);
            plan.Some? ==> Regular(rnum, plan.value)
  {
    hide PathCount, PrefixText;
    if n > 0 {
      BestOfRegular(env, nz, rnum, order, path, c, n - 1);
    }
  }

  lemma {:induction false} FromExprRegular(env: Env, nz: Normalizer, rnum: int, order: seq<IndexRef>, pattern: bytes, e: Expr)
    ensures var plan := FromExpr(env, nz, rnum, order, pattern, e);
            plan.Some? ==> Regular(rnum, plan.value)
    decreases e
  {
    hide PathCount, BestOf;
    match e
    case Atom(c) =>
      if Plannable(c) {
        BestOfRegular(env, nz, rnum, order, JoinedPath(pattern, c.key), c, |order|);
      }
    case And(l, r) =>
      FromExprRegular(env, nz, rnum, order, pattern, l);
      FromExprRegular(env, nz, rnum, order, pattern, r);
    case _ =>
  }

  lemma {:induction false} CandidateRegular(env: Env, nz: Normalizer, rnum: int, order: seq<IndexRef>, f: Filter<Term>)
    ensures var plan := Candidate(env, nz, rnum, order, f);
            plan.Some? ==> Regular(rnum, plan.value)
    decreases f
  {
    hide PathCount, FromExpr;
    match f
    case Atom(t) =>
      if t.PathTerm? && t.expr.Some? && STAR !in t.pattern {
        FromExprRegular(env, nz, rnum, order, t.pattern, t.expr.value);
      }
    case And(l, r) =>
      CandidateRegular(env, nz, rnum, order, l);
      CandidateRegular(env, nz, rnum, order, r);
    case Group(x) => CandidateRegular(env, nz, rnum, order, x);
    case _ =>
  }

  /** The index is at the path and can answer the comparison. */
  predicate Usable(env: Env, nz: Normalizer, rnum: int, path: bytes, c: Comparison, idx: IndexRef)
    requires c.value.Some?
  {
    idx.def.path == path && OpWeight(env, nz, idx.def.kind, c.op, c.value.value, rnum).Some?
  }

  /** Which literals an index can be asked for: an `in` list must be short, or worth it for the size of the collection. */
  lemma UsableExactly(env: Env, nz: Normalizer, rnum: int, c: Comparison, idx: IndexRef)
    requires c.value.Some?
    ensures
      var v, kind := c.value.value, idx.def.kind;
      Usable(env, nz, rnum, idx.def.path, c, idx) <==>
        match c.op
        case Eq => nz(v, kind).Some?
        case Range(_) => nz(v, kind).Some?
        case In => v.Arr? && (exists w :: w in v.items && nz(w, kind).Some?)
                   && (|v.items| <= 10 || (|v.items| <= 500 && 200 * |v.items| <= rnum))
        case Prefix => kind.StringIndex? && PrefixText(env, v).Some? && |PrefixText(env, v).value| > 0
        case _ => false
  {
    hide PrefixText;
    if c.op.In? && c.value.value.Arr? {
      var items := c.value.value.items;
      if exists i | 0 <= i < |items| :: nz(items[i], idx.def.kind).Some? {
        var i :| 0 <= i < |items| && nz(items[i], idx.def.kind).Some?;
        assert items[i] in items;
      }
    }
  }

  ghost predicate SomeUsable(env: Env, nz: Normalizer, rnum: int, order: seq<IndexRef>, path: bytes, c: Comparison, n: nat,
                             unique: bool)
    requires c.value.Some? && n <= |order|
  {
    exists i :: 0 <= i < n && Usable(env, nz, rnum, path, c, order[i]) && (unique ==> order[i].def.unique)
  }

  /** An index is used if and only if one can be, and a unique one if and only if a unique one can be. */
  lemma ComparisonUsesIndexExactly(env: Env, nz: Normalizer, rnum: int, order: seq<IndexRef>, pattern: bytes, c: Comparison)
    requires Plannable(c)
    ensures
      var plan := FromComparison(env, nz, rnum, order, pattern, c);
      var path := JoinedPath(pattern, c.key);
      && (plan.Some? <==> SomeUsable(env, nz, rnum, order, path, c, |order|, false))
      && (plan.Some? ==>
            (plan.value.idx.def.unique <==> SomeUsable(env, nz, rnum, order, path, c, |order|, true)))
  {
    hide SomeUsable, JoinedPath;
    BestOfExactly(env, nz, rnum, order, JoinedPath(pattern, c.key), c, |order|);
  }

  lemma {:induction false} BestOfExactly(env: Env, nz: Normalizer, rnum: int, order: seq<IndexRef>, path: bytes,
                                         c: Comparison, n: nat)
    requires Plannable(c) && n <= |order|
    ensures
      var plan := BestOf(env, nz, rnum, order, path, c, n);
      && (plan.Some? <==> SomeUsable(env, nz, rnum, order, path, c, n, false))
      && (plan.Some? ==>
            && plan.value.op == OpOf(env, c.op, c.value.value) && plan.value.pathCnt == PathCount(path)
            && (plan.value.idx.def.unique <==> SomeUsable(env, nz, rnum, order, path, c, n, true)))
  {
    hide PathCount, PrefixText;
    if n > 0 {
      BestOfExactly(env, nz, rnum, order, path, c, n - 1);
      BestOfRegular(env, nz, rnum, order, path, c, n - 1);
      hide OpWeight;
      UsableSoFar(env, nz, rnum, order, path, c, n, false);
      UsableSoFar(env, nz, rnum, order, path, c, n, true);
      PlanForWeighs(env, nz, rnum, path, c, order[n - 1]);
      hide SomeUsable, OpOf, PlanFor;
    }
  }

  lemma UsableSoFar(env: Env, nz: Normalizer, rnum: int, order: seq<IndexRef>, path: bytes, c: Comparison, n: nat,
                    unique: bool)
    requires c.value.Some? && 0 < n <= |order|
    ensures SomeUsable(env, nz, rnum, order, path, c, n, unique)
       <==> SomeUsable(env, nz, rnum, order, path, c, n - 1, unique)
            || (Usable(env, nz, rnum, path, c, order[n - 1]) && (unique ==> order[n - 1].def.unique))
  {
    hide Usable;
  }

  lemma PlanForWeighs(env: Env, nz: Normalizer, rnum: int, path: bytes, c: Comparison, idx: IndexRef)
    requires Plannable(c)
    ensures var plan := PlanFor(env, nz, rnum, path, c, idx);
            && (plan.Some? <==> Usable(env, nz, rnum, path, c, idx))
            && (plan.Some? ==> Regular(rnum, plan.value) && plan.value.idx == idx && !plan.value.TwoSided()
                               && plan.value.op == OpOf(env, c.op, c.value.value) && plan.value.pathCnt == PathCount(path))
  {
    hide PathCount, PrefixText;
  }

  /**
   Of two plans that do not merge, a conjunction uses the one with the better use of its index, whichever side it is
   on.  One with no plan leaves the choice to the other.
   */
  lemma ConjunctionPrefersBetterUse(env: Env, nz: Normalizer, rnum: int, order: seq<IndexRef>,
                                    l: Filter<Term>, r: Filter<Term>)
    ensures
      var a, b := Candidate(env, nz, rnum, order, l), Candidate(env, nz, rnum, order, r);
      var c, d := Candidate(env, nz, rnum, order, And(l, r)), Candidate(env, nz, rnum, order, And(r, l));
      && (a.None? ==> c == d == b)
      && (a.Some? && b.Some? && Merge(a, b).None? && WeightOf(a.value.op) > WeightOf(b.value.op) ==> c == d == a)
      && (Merge(a, b).Some? ==> c == d == Merge(a, b))
  {
    CandidateRegular(env, nz, rnum, order, l);
    CandidateRegular(env, nz, rnum, order, r);
    AndConjoins(env, nz, rnum, order, l, r);
    AndConjoins(env, nz, rnum, order, r, l);
    hide PathCount, Candidate, Conjoin;
    ConjoinPrefers(Candidate(env, nz, rnum, order, l), Candidate(env, nz, rnum, order, r));
  }

  lemma AndConjoins(env: Env, nz: Normalizer, rnum: int, order: seq<IndexRef>, l: Filter<Term>, r: Filter<Term>)
    ensures Candidate(env, nz, rnum, order, And(l, r))
         == Conjoin(Candidate(env, nz, rnum, order, l), Candidate(env, nz, rnum, order, r))
  {
    hide Conjoin, FromExpr;
  }

  lemma ConjoinPrefers(a: Option<Plan>, b: Option<Plan>)
    ensures a.None? ==> Conjoin(a, b) == Conjoin(b, a) == b
    ensures a.Some? && b.Some? && Merge(a, b).None? && a.value.weight > b.value.weight ==> Conjoin(a, b) == Conjoin(b, a) == a
    ensures Merge(a, b).Some? ==> Conjoin(a, b) == Conjoin(b, a) == Merge(a, b)
  {
  }

  /** A disjunction or a negation of filters uses no index; parentheses around a filter change nothing. */
  lemma OtherConnectivesPlan(env: Env, nz: Normalizer, rnum: int, order: seq<IndexRef>, l: Filter<Term>, r: Filter<Term>)
    ensures Candidate(env, nz, rnum, order, Group(l)) == Candidate(env, nz, rnum, order, l)
    ensures Candidate(env, nz, rnum, order, Or(l, r)) == Candidate(env, nz, rnum, order, Not(l)) == None
  {
    hide FromExpr, Conjoin;
  }

  /** In brackets too, only comparisons and conjunctions of plans use an index. */
  lemma BracketsPlan(env: Env, nz: Normalizer, rnum: int, order: seq<IndexRef>, pattern: bytes, d: Expr, e: Expr)
    requires STAR !in pattern
    ensures
      var plan := (x: Option<Expr>) => Candidate(env, nz, rnum, order, Atom(PathTerm(pattern, x)));
      && plan(None) == plan(Some(Or(d, e))) == plan(Some(Not(d))) == plan(Some(Group(d))) == None
      && plan(Some(And(d, e))) == Conjoin(plan(Some(d)), plan(Some(e)))
  {
    hide FromComparison, Conjoin;
  }

  /** A placeholder that is not set fails the match of every document the pattern finds something in, and uses no index. */
  lemma UnsetPlaceholderFails(env: Env, nz: Normalizer, rnum: int, order: seq<IndexRef>, doc: Doc, id: i64, pattern: bytes,
                              c: Comparison)
    requires c.value.None? && STAR !in pattern
    ensures var t := PathTerm(pattern, Some(Atom(c)));
            && Candidate(env, nz, rnum, order, Atom(t)) == None
            && MatchTerm(env, doc, id, t)
                 == (false, if PointerGet(doc, pattern).Some? then Some(UnsetPlaceholder) else None)
  {
    hide PointerGet;
  }

  /** A merged plan asks what both bounds ask, when each is a single one; the order of the two does not matter. */
  lemma MergeAsksBoth(env: Env, a: Plan, b: Plan, v: Doc)
    ensures Merge(Some(a), Some(b)) == Merge(Some(b), Some(a))
    ensures Merge(Some(a), Some(b)).Some? <==>
              a.idx.def == b.idx.def && a.op.RangePlan? && b.op.RangePlan? && a.op.op.Lower() != b.op.op.Lower()
    ensures Merge(Some(a), Some(b)).Some? ==>
              var m := Merge(Some(a), Some(b)).value;
              && m.TwoSided() && m.idx.def == a.idx.def
              && (!a.TwoSided() && !b.TwoSided() ==>
                    (OpHolds(env, m.op, v) <==> OpHolds(env, a.op, v) && OpHolds(env, b.op, v)))
  {
    hide RangeHolds;
  }

  /**
   A conjunction whose sides both have a plan uses no index if and only if the plans do not merge, weigh the same,
   and the path of the left one has fewer tokens; with the sides exchanged it uses the left one.
   */
  lemma ConjunctionDropsBoth(env: Env, nz: Normalizer, rnum: int, order: seq<IndexRef>, l: Filter<Term>, r: Filter<Term>)
    requires Candidate(env, nz, rnum, order, l).Some? && Candidate(env, nz, rnum, order, r).Some?
    ensures
      var a, b := Candidate(env, nz, rnum, order, l), Candidate(env, nz, rnum, order, r);
      && (Candidate(env, nz, rnum, order, And(l, r)).None? <==>
            && Merge(a, b).None? && a.value.weight == b.value.weight
            && PathCount(a.value.idx.def.path) < PathCount(b.value.idx.def.path))
      && (Candidate(env, nz, rnum, order, And(l, r)).None? ==> Candidate(env, nz, rnum, order, And(r, l)) == a)
  {
    hide PathCount;
    CandidateRegular(env, nz, rnum, order, l);
    CandidateRegular(env, nz, rnum, order, r);
  }

  const A_KEY: bytes := [0x61]
  const B_PATH: bytes := [0x2f, 0x62]
  const C_KEY: bytes := [0x63]

  /** `/[key = n]` below the pattern */
  function EqualsTerm(pattern: bytes, key: bytes, n: i64): Filter<Term> {
    Atom(PathTerm(pattern, Some(Atom(Comparison(key, Eq, Some(Int(n)))))))
  }

  /** Indexes on /a and /b/c: `/[a = 1] and /b/[c = 2]` uses neither, `/b/[c = 2] and /[a = 1]` uses the one on /a. */
  lemma OrderOfConjunctsDecides(env: Env, nz: Normalizer, rnum: int, d1: i64, d2: i64)
    requires NormalizesTyped(nz)
    ensures
      var onA := IndexRef(IndexDef(PointerJoin([], A_KEY), Int64Index, false), d1);
      var onC := IndexRef(IndexDef(PointerJoin(B_PATH, C_KEY), Int64Index, false), d2);
      var l, r := EqualsTerm([], A_KEY, 1), EqualsTerm(B_PATH, C_KEY, 2);
      && Candidate(env, nz, rnum, [onA, onC], And(l, r)) == None
      && Candidate(env, nz, rnum, [onA, onC], And(r, l)).Some?
      && Candidate(env, nz, rnum, [onA, onC], And(r, l)).value.idx == onA
  {
    hide PathCount, PointerJoin, Candidate, EqualsTerm;
    var onA := IndexRef(IndexDef(PointerJoin([], A_KEY), Int64Index, false), d1);
    var onC := IndexRef(IndexDef(PointerJoin(B_PATH, C_KEY), Int64Index, false), d2);
    var l, r := EqualsTerm([], A_KEY, 1), EqualsTerm(B_PATH, C_KEY, 2);
    PathCounts();
    EqualityPlan(env, nz, rnum, onA, onC, [], A_KEY, 1, true);
    EqualityPlan(env, nz, rnum, onA, onC, B_PATH, C_KEY, 2, false);
    EqualitiesDropBoth(env, nz, rnum, [onA, onC], l, r);
  }

  /** Two equalities on paths of different length: neither is used if the shorter comes first. */
  lemma EqualitiesDropBoth(env: Env, nz: Normalizer, rnum: int, order: seq<IndexRef>, l: Filter<Term>, r: Filter<Term>)
    requires
      var a, b := Candidate(env, nz, rnum, order, l), Candidate(env, nz, rnum, order, r);
      && a.Some? && b.Some? && a.value.op.EqOp? && b.value.op.EqOp? && a.value.weight == b.value.weight
      && PathCount(a.value.idx.def.path) < PathCount(b.value.idx.def.path)
    ensures Candidate(env, nz, rnum, order, And(l, r)) == None
    ensures Candidate(env, nz, rnum, order, And(r, l)) == Candidate(env, nz, rnum, order, l)
  {
    hide PathCount, Candidate;
    ConjunctionDropsBoth(env, nz, rnum, order, l, r);
  }

  lemma PathCounts()
    ensures PathCount(PointerJoin([], A_KEY)) == 1 && PathCount(PointerJoin(B_PATH, C_KEY)) == 2
  {
    hide PointerJoin, UnescapeToken;
    JoinTokens([], A_KEY);
    JoinTokens(B_PATH, C_KEY);
    assert B_PATH[1..] == [0x62];
    SplitPart([0x62]);
  }

  /** With two indexes on different paths, an equality uses the one on its own. */
  lemma EqualityPlan(env: Env, nz: Normalizer, rnum: int, i1: IndexRef, i2: IndexRef, pattern: bytes, key: bytes, n: i64,
                     first: bool)
    requires NormalizesTyped(nz) && i1.def.kind.Int64Index? && i2.def.kind.Int64Index? && i1.def.path != i2.def.path
    requires SLASH !in key && key != [STAR] && key != STARS && STAR !in pattern
    requires PointerJoin(pattern, key) == if first then i1.def.path else i2.def.path
    ensures var plan := Candidate(env, nz, rnum, [i1, i2], EqualsTerm(pattern, key, n));
            plan.Some? && plan.value.idx == (if first then i1 else i2) && plan.value.op == EqOp(Int(n)) && plan.value.weight == 100
  {
    hide PathCount, PointerJoin, EncodeI64Key;
    var c := Comparison(key, Eq, Some(Int(n)));
    var order := [i1, i2];
    var path := PointerJoin(pattern, key);
    assert nz(Int(n), Int64Index).Some?;
    assert BestOf(env, nz, rnum, order, path, c, 0) == None;
    assert BestOf(env, nz, rnum, order, path, c, 1) == PlanFor(env, nz, rnum, path, c, i1);
    assert FromComparison(env, nz, rnum, order, pattern, c) == BestOf(env, nz, rnum, order, path, c, 2);
  }

  // ----- a plan admits every matching document -----

  /** The value satisfies what the plan asks. */
  predicate OpHolds(env: Env, op: PlanOp, v: Doc) {
    match op
    case Whole => true
    case EqOp(w) => EqualTo(env, v, w)
    case InOp(ws) => exists i | 0 <= i < |ws| :: EqualTo(env, v, ws[i])
    case PrefixOp(text) => PrefixText(env, v).Some? && text <= PrefixText(env, v).value
    case RangePlan(op1, w, second) =>
      RangeHolds(env, v, op1, w) && (second.Some? ==> RangeHolds(env, v, second.value.0, second.value.1))
  }

  predicate Admits(env: Env, plan: Plan, doc: Doc) {
    match PointerGet(doc, plan.idx.def.path)
    case Some(v) => OpHolds(env, plan.op, v)
    case None => false
  }

  // ----- typed paths -----

  /** A scalar of the index's own type; in a float index any number but NaN and negative zero. */
  predicate TypedValue(kind: IndexKind, v: Doc) {
    match kind
    case StringIndex => v.Str? && |v.s| < 0x1_0000_0000
    case Int64Index => v.Int?
    case FloatIndex => v.Int? || (v.Float? && !IsNaN(v.bits) && v.bits != NEG_ZERO)
  }

  /** A literal of the index's own type; an integer that a float index is asked for is one that floats hold exactly. */
  predicate LiteralValue(kind: IndexKind, v: Doc) {
    TypedValue(kind, v) && (kind.FloatIndex? && v.Int? ==> -TWO_53 < v.i < TWO_53)
  }

  predicate TypedDoc(def: IndexDef, doc: Doc) {
    match PointerGet(doc, def.path)
    case Some(v) => TypedValue(def.kind, v)
    case None => true
  }

  predicate TypedLiteral(kind: IndexKind, op: CmpOp, val: Doc) {
    if op.In? then val.Arr? && forall i | 0 <= i < |val.items| :: LiteralValue(kind, val.items[i])
    else LiteralValue(kind, val)
  }

  /**
   When the index at the joined path holds what a comparison below the pattern looks at, told by their text.  The
   key names a member below the pattern; or it is `**`, and the path is the pattern itself; or no typed document
   matches, because the pattern finds nothing or the path is that of the container the member is looked up in.
   */
  predicate FaithfulKey(pattern: bytes, key: bytes) {
    key == STARS ||
    (!IsBracketed(key) &&
     (|| NamesMember(pattern, key)
      || (pattern != [] && pattern[0] != SLASH)
      || (key == [] && (pattern == [] || pattern[|pattern| - 1] == SLASH))))
  }

  /** Wherever an index could be used for a comparison, its key is faithful and its literal has the index's type. */
  predicate TypedExpr(order: seq<IndexRef>, pattern: bytes, e: Expr) {
    match e
    case Atom(c) =>
      Plannable(c) ==>
        forall i | 0 <= i < |order| && order[i].def.path == JoinedPath(pattern, c.key) ::
          FaithfulKey(pattern, c.key) && TypedLiteral(order[i].def.kind, c.op, c.value.value)
    case And(l, r) => TypedExpr(order, pattern, l) && TypedExpr(order, pattern, r)
    case _ => true
  }

  predicate TypedFilter(order: seq<IndexRef>, f: Filter<Term>) {
    match f
    case Atom(PathTerm(pattern, Some(e))) => TypedExpr(order, pattern, e)
    case And(l, r) => TypedFilter(order, l) && TypedFilter(order, r)
    case Group(x) => TypedFilter(order, x)
    case _ => true
  }

  /** The literals of a plan have the index's type, and two bounds are on different sides. */
  predicate TypedOp(kind: IndexKind, op: PlanOp) {
    match op
    case Whole => true
    case EqOp(w) => LiteralValue(kind, w)
    case InOp(ws) => forall i | 0 <= i < |ws| :: LiteralValue(kind, ws[i])
    case PrefixOp(_) => kind.StringIndex?
    case RangePlan(op1, w, second) =>
      LiteralValue(kind, w) &&
      (second.Some? ==> LiteralValue(kind, second.value.1) && second.value.0.Lower() != op1.Lower())
  }

  predicate TypedPaths(order: seq<IndexRef>, doc: Doc) {
    forall i | 0 <= i < |order| :: TypedDoc(order[i].def, doc)
  }

  /** The plan uses one of the indexes, with literals of its type. */
  ghost predicate TypedPlan(order: seq<IndexRef>, plan: Plan) {
    plan.idx in order && TypedOp(plan.idx.def.kind, plan.op)
  }

  /** A document admitted by the plans of both sides is admitted by the plan of the conjunction. */
  lemma ConjoinAdmits(env: Env, a: Option<Plan>, b: Option<Plan>, doc: Doc)
    requires a.Some? ==> Admits(env, a.value, doc)
    requires b.Some? ==> Admits(env, b.value, doc)
    ensures Conjoin(a, b).Some? ==> Admits(env, Conjoin(a, b).value, doc)
  {
    hide RangeHolds, PointerGet, EqualTo;
  }

  lemma ConjoinTyped(order: seq<IndexRef>, a: Option<Plan>, b: Option<Plan>)
    requires a.Some? ==> TypedPlan(order, a.value)
    requires b.Some? ==> TypedPlan(order, b.value)
    ensures Conjoin(a, b).Some? ==> TypedPlan(order, Conjoin(a, b).value)
  {
    hide TypedValue;
  }

  lemma AnyOfOne(env: Env, v: Doc, op: CmpOp, right: Doc)
    ensures AnyValue(env, [v], op, right).0 ==> CompareValues(env, v, op, right).0
  {
    hide CompareValues;
    var vals := [v];
    assert vals[1..] == [];
    assert AnyValue(env, vals[1..], op, right) == (false, None);
  }

  /** A comparison that holds of a node holds of the value at the joined path. */
  lemma ComparisonAt(env: Env, doc: Doc, pattern: bytes, node: Doc, c: Comparison)
    requires PointerGet(doc, pattern) == Some(node) && FaithfulKey(pattern, c.key) && Plannable(c)
    requires var v := PointerGet(doc, JoinedPath(pattern, c.key)); v.Some? ==> !IsContainer(v.value)
    requires EvalComparison(env, node, c).0
    ensures PointerGet(doc, JoinedPath(pattern, c.key)).Some?
    ensures CompareValues(env, PointerGet(doc, JoinedPath(pattern, c.key)).value, c.op, c.value.value).0
  {
    hide CompareValues, Tokens, PointerJoin, Child, PointerGet, UnescapeToken, HasEscape;
    if c.key == STARS {
      AnyOfOne(env, node, c.op, c.value.value);
    } else {
      assert |c.key| > 0 ==> c.key[0] in c.key;
      var v := Child(node, c.key);
      if v.Some? {
        FaithfulMember(doc, pattern, node, c.key);
        AnyOfOne(env, v.value, c.op, c.value.value);
      }
    }
  }

  /** A member that a typed document has below the pattern is the value at the joined path. */
  lemma FaithfulMember(doc: Doc, pattern: bytes, node: Doc, key: bytes)
    requires PointerGet(doc, pattern) == Some(node) && FaithfulKey(pattern, key) && key != STARS && SLASH !in key
    requires var v := PointerGet(doc, PointerJoin(pattern, key)); v.Some? ==> !IsContainer(v.value)
    requires Child(node, key).Some?
    ensures PointerGet(doc, PointerJoin(pattern, key)) == Child(node, key)
  {
    hide PointerJoin, UnescapeToken, HasEscape;
    if NamesMember(pattern, key) {
      JoinedValue(doc, pattern, node, key);
    } else if pattern == [] || pattern[0] == SLASH {
      SamePlace(doc, pattern);
    }
  }

  /** An empty key at the end of a slash joins to the path itself. */
  lemma SamePlace(doc: Doc, pattern: bytes)
    requires pattern == [] || (pattern[0] == SLASH && pattern[|pattern| - 1] == SLASH)
    ensures PointerGet(doc, PointerJoin(pattern, [])) == PointerGet(doc, pattern)
  {
    hide PointerJoin, Tokens, Get, UnescapeToken;
    TokensOfAbsolute(pattern);
    JoinTokens(pattern, []);
    EscapeFreeExactly([]);
    var tokens := Tokens(pattern).value;
    assert tokens != [] ==> tokens[..|tokens| - 1] + [tokens[|tokens| - 1]] == tokens;
  }

  lemma JoinedValue(doc: Doc, pattern: bytes, node: Doc, key: bytes)
    requires PointerGet(doc, pattern) == Some(node) && NamesMember(pattern, key)
    ensures PointerGet(doc, PointerJoin(pattern, key)) == Child(node, key)
  {
    hide PointerJoin, Child, UnescapeToken, Tokens, HasEscape;
    JoinAppendsKey(pattern, key);
    var tokens := TokensOf(doc, pattern);
    GetConcat(doc, tokens, [key]);
    GetOne(node, key);
  }

  lemma TokensOf(doc: Doc, ptr: bytes) returns (tokens: seq<Pointer.Token>)
    requires PointerGet(doc, ptr).Some?
    ensures Tokens(ptr) == Some(tokens) && Get(doc, tokens) == PointerGet(doc, ptr)
  {
    hide Tokens, Get;
    tokens := Tokens(ptr).value;
  }

  lemma GetOne(node: Doc, key: bytes)
    ensures Get(node, [key]) == Child(node, key)
  {
    hide Child;
    assert [key][1..] == [];
  }

  /** A plannable comparison that holds is what the plan made from it asks. */
  lemma OpOfHolds(env: Env, v: Doc, op: CmpOp, val: Doc)
    requires Indexable(op) && CompareValues(env, v, op, val).0
    ensures OpHolds(env, OpOf(env, op, val), v)
  {
    hide RangeHolds, EqualTo, PrefixText;
  }

  /** The plan made from a comparison asks exactly what the comparison does. */
  lemma PlanAsksExactly(env: Env, nz: Normalizer, rnum: int, path: bytes, c: Comparison, idx: IndexRef, v: Doc)
    requires Plannable(c) && Usable(env, nz, rnum, path, c, idx)
    ensures PlanFor(env, nz, rnum, path, c, idx).Some?
    ensures OpHolds(env, PlanFor(env, nz, rnum, path, c, idx).value.op, v) <==> CompareValues(env, v, c.op, c.value.value).0
  {
    hide RangeHolds, EqualTo, PrefixText, PathCount;
  }

  lemma PlanForAdmits(env: Env, nz: Normalizer, rnum: int, order: seq<IndexRef>, pattern: bytes, node: Doc,
                      c: Comparison, i: nat, doc: Doc)
    requires i < |order| && PointerGet(doc, pattern) == Some(node)
    requires Plannable(c) && TypedExpr(order, pattern, Atom(c)) && TypedPaths(order, doc)
    requires EvalComparison(env, node, c).0
    ensures var plan := PlanFor(env, nz, rnum, JoinedPath(pattern, c.key), c, order[i]);
            plan.Some? ==> Admits(env, plan.value, doc)
  {
    hide EvalComparison, PointerGet, CompareValues, OpHolds, OpWeight, OpOf, FaithfulKey, TypedLiteral, PointerJoin,
         Tokens, PathCount;
    var path := JoinedPath(pattern, c.key);
    var plan := PlanFor(env, nz, rnum, path, c, order[i]);
    if plan.Some? {
      assert order[i].def.path == path;
      assert TypedDoc(order[i].def, doc);
      ComparisonAt(env, doc, pattern, node, c);
      OpOfHolds(env, PointerGet(doc, path).value, c.op, c.value.value);
    }
  }

  lemma {:induction false} BestOfAdmits(env: Env, nz: Normalizer, rnum: int, order: seq<IndexRef>, pattern: bytes,
                                        node: Doc, c: Comparison, n: nat, doc: Doc)
    requires n <= |order| && PointerGet(doc, pattern) == Some(node)
    requires Plannable(c) && TypedExpr(order, pattern, Atom(c)) && TypedPaths(order, doc)
    requires EvalComparison(env, node, c).0
    ensures var plan := BestOf(env, nz, rnum, order, JoinedPath(pattern, c.key), c, n);
            plan.Some? ==> Admits(env, plan.value, doc)
  {
    hide EvalComparison, PointerGet, Admits, PlanFor, TypedExpr, TypedPaths, JoinedPath;
    if n > 0 {
      BestOfAdmits(env, nz, rnum, order, pattern, node, c, n - 1, doc);
      PlanForAdmits(env, nz, rnum, order, pattern, node, c, n - 1, doc);
    }
  }

  lemma {:induction false} FromExprAdmits(env: Env, nz: Normalizer, rnum: int, order: seq<IndexRef>, pattern: bytes,
                                          node: Doc, e: Expr, doc: Doc)
    requires PointerGet(doc, pattern) == Some(node)
    requires TypedExpr(order, pattern, e) && TypedPaths(order, doc)
    requires EvalExpr(env, node, e).matched && EvalExpr(env, node, e).err.None?
    ensures var plan := FromExpr(env, nz, rnum, order, pattern, e);
            plan.Some? ==> Admits(env, plan.value, doc)
    decreases e
  {
    hide EvalComparison, PointerGet, Admits, BestOf, TypedPaths, JoinedPath;
    match e
    case Atom(c) =>
      if Plannable(c) {
        BestOfAdmits(env, nz, rnum, order, pattern, node, c, |order|, doc);
      }
    case And(l, r) =>
      FromExprAdmits(env, nz, rnum, order, pattern, node, l, doc);
      FromExprAdmits(env, nz, rnum, order, pattern, node, r, doc);
      ConjoinAdmits(env, FromExpr(env, nz, rnum, order, pattern, l), FromExpr(env, nz, rnum, order, pattern, r), doc);
    case _ =>
  }

  /** Whatever plan is chosen, every matching document satisfies it. */
  lemma {:induction false} CandidateAdmits(env: Env, nz: Normalizer, rnum: int, order: seq<IndexRef>, f: Filter<Term>,
                                           doc: Doc, id: i64)
    requires TypedFilter(order, f) && TypedPaths(order, doc) && Matches(env, doc, id, f)
    ensures var plan := Candidate(env, nz, rnum, order, f);
            plan.Some? ==> Admits(env, plan.value, doc)
    decreases f
  {
    hide PointerGet, Admits, TypedPaths, TypedExpr, FromExpr, EvalExpr;
    match f
    case Atom(t) =>
      if t.PathTerm? && t.expr.Some? && STAR !in t.pattern {
        assert MatchTerm(env, doc, id, t).0;
        var node := PointerGet(doc, t.pattern).value;
        FromExprAdmits(env, nz, rnum, order, t.pattern, node, t.expr.value, doc);
      }
    case And(l, r) =>
      CandidateAdmits(env, nz, rnum, order, l, doc, id);
      CandidateAdmits(env, nz, rnum, order, r, doc, id);
      ConjoinAdmits(env, Candidate(env, nz, rnum, order, l), Candidate(env, nz, rnum, order, r), doc);
    case Group(x) => CandidateAdmits(env, nz, rnum, order, x, doc, id);
    case _ =>
  }

  lemma OpOfTyped(env: Env, nz: Normalizer, kind: IndexKind, op: CmpOp, val: Doc, rnum: int)
    requires Indexable(op) && TypedLiteral(kind, op, val) && OpWeight(env, nz, kind, op, val, rnum).Some?
    ensures TypedOp(kind, OpOf(env, op, val))
  {
    hide TypedValue;
  }

  lemma {:induction false} BestOfTyped(env: Env, nz: Normalizer, rnum: int, order: seq<IndexRef>, pattern: bytes,
                                       c: Comparison, n: nat)
    requires n <= |order| && Plannable(c) && TypedExpr(order, pattern, Atom(c))
    ensures var plan := BestOf(env, nz, rnum, order, JoinedPath(pattern, c.key), c, n);
            plan.Some? ==> TypedPlan(order, plan.value)
  {
    hide OpWeight, OpOf, TypedOp, FaithfulKey, TypedLiteral, PointerJoin, PathCount, Better;
    if n > 0 {
      BestOfTyped(env, nz, rnum, order, pattern, c, n - 1);
      var path := JoinedPath(pattern, c.key);
      var plan := PlanFor(env, nz, rnum, path, c, order[n - 1]);
      if plan.Some? {
        assert order[n - 1].def.path == path;
        OpOfTyped(env, nz, order[n - 1].def.kind, c.op, c.value.value, rnum);
      }
    }
  }

  lemma {:induction false} FromExprTyped(env: Env, nz: Normalizer, rnum: int, order: seq<IndexRef>, pattern: bytes, e: Expr)
    requires TypedExpr(order, pattern, e)
    ensures var plan := FromExpr(env, nz, rnum, order, pattern, e);
            plan.Some? ==> TypedPlan(order, plan.value)
    decreases e
  {
    hide TypedPlan, BestOf, JoinedPath;
    match e
    case Atom(c) =>
      if Plannable(c) {
        BestOfTyped(env, nz, rnum, order, pattern, c, |order|);
      }
    case And(l, r) =>
      FromExprTyped(env, nz, rnum, order, pattern, l);
      FromExprTyped(env, nz, rnum, order, pattern, r);
      ConjoinTyped(order, FromExpr(env, nz, rnum, order, pattern, l), FromExpr(env, nz, rnum, order, pattern, r));
    case _ =>
  }

  /** A chosen plan compares an index with literals of its own type, from both sides if twice. */
  lemma {:induction false} CandidateTyped(env: Env, nz: Normalizer, rnum: int, order: seq<IndexRef>, f: Filter<Term>)
    requires TypedFilter(order, f)
    ensures var plan := Candidate(env, nz, rnum, order, f);
            plan.Some? ==> TypedPlan(order, plan.value)
    decreases f
  {
    hide TypedPlan, TypedExpr, FromExpr;
    match f
    case Atom(t) =>
      if t.PathTerm? && t.expr.Some? && STAR !in t.pattern {
        FromExprTyped(env, nz, rnum, order, t.pattern, t.expr.value);
      }
    case And(l, r) =>
      CandidateTyped(env, nz, rnum, order, l);
      CandidateTyped(env, nz, rnum, order, r);
      ConjoinTyped(order, Candidate(env, nz, rnum, order, l), Candidate(env, nz, rnum, order, r));
    case Group(x) => CandidateTyped(env, nz, rnum, order, x);
    case _ =>
  }

  // ----- documents lost at unfaithful keys -----

  /** The value below single-member objects. */
  function Nest(tokens: seq<Pointer.Token>, d: Doc): Doc {
    if tokens == [] then d else Obj(map[tokens[0] := Nest(tokens[1..], d)])
  }

  lemma {:induction false} GetNest(p: seq<Pointer.Token>, q: seq<Pointer.Token>, d: Doc)
    ensures Get(Nest(p + q, d), p) == Some(Nest(q, d))
  {
    if p == [] {
      assert p + q == q;
    } else {
      assert (p + q)[1..] == p[1..] + q;
      GetNest(p[1..], q, d);
    }
  }

  /** A document that has the value at the key below the pattern, and nothing else. */
  function LostDoc(pattern: bytes, key: bytes, v: Doc): Doc
    requires Tokens(pattern).Some?
  {
    Nest(Tokens(pattern).value, Obj(map[key := v]))
  }

  /** At an unfaithful key the joined path leads nowhere in that document. */
  lemma NothingAtJoinedPath(pattern: bytes, key: bytes, v: Doc)
    requires SLASH !in key && !IsBracketed(key) && !FaithfulKey(pattern, key)
    ensures Tokens(pattern).Some? && PointerGet(LostDoc(pattern, key, v), pattern) == Some(Obj(map[key := v]))
    ensures PointerGet(LostDoc(pattern, key, v), PointerJoin(pattern, key)) == None
  {
    hide PointerJoin, UnescapeToken, HasEscape, Tokens;
    TokensOfAbsolute(pattern);
    EscapeFreeExactly(key);
    JoinTokens(pattern, key);
    var tokens, last, node := Tokens(pattern).value, UnescapeToken(key), Obj(map[key := v]);
    var doc := Nest(tokens, node);
    assert tokens + [] == tokens;
    GetNest(tokens, [], node);
    if pattern == [] || pattern == [SLASH] || pattern[|pattern| - 1] != SLASH {
      assert tokens == [] ==> tokens + [last] == [last];
      GetConcat(doc, tokens, [last]);
      GetOne(node, last);
    } else {
      var init, end := tokens[..|tokens| - 1], tokens[|tokens| - 1];
      assert init + [end] == tokens;
      GetNest(init, [end], node);
      GetConcat(doc, init, [last]);
      GetOne(Nest([end], node), last);
    }
  }

  lemma TokensOfAbsolute(pattern: bytes)
    ensures Tokens(pattern).Some? <==> pattern == [] || pattern[0] == SLASH
    ensures pattern == [] || pattern == [SLASH] ==> Tokens(pattern) == Some([])
  {
  }

  /** The plan made from a comparison admits every typed document in which the comparison holds. */
  ghost predicate AdmitsAll(env: Env, plan: Plan, pattern: bytes, c: Comparison) {
    forall doc | TypedDoc(plan.idx.def, doc) ::
      PointerGet(doc, pattern).Some? && EvalComparison(env, PointerGet(doc, pattern).value, c).0 ==> Admits(env, plan, doc)
  }

  /**
   For a comparison that some value satisfies, with an index at the joined path, the plan admits every matching
   typed document if and only if the key is faithful: for a pattern without a slash at its end, if and only if the
   key contains neither "~0" nor "~1".
   */
  lemma PlanAdmitsExactly(env: Env, pattern: bytes, c: Comparison, plan: Plan, v: Doc)
    requires Plannable(c) && !IsBracketed(c.key) && CompareValues(env, v, c.op, c.value.value) == (true, None)
    requires plan.idx.def.path == JoinedPath(pattern, c.key) && plan.op == OpOf(env, c.op, c.value.value)
    ensures AdmitsAll(env, plan, pattern, c) <==> FaithfulKey(pattern, c.key)
  {
    hide PointerGet, PointerJoin, CompareValues, OpHolds, OpOf, EvalComparison, FaithfulKey, LostDoc;
    if FaithfulKey(pattern, c.key) {
      forall doc | TypedDoc(plan.idx.def, doc) && PointerGet(doc, pattern).Some?
        && EvalComparison(env, PointerGet(doc, pattern).value, c).0
        ensures Admits(env, plan, doc)
      {
        ComparisonAt(env, doc, pattern, PointerGet(doc, pattern).value, c);
        OpOfHolds(env, PointerGet(doc, plan.idx.def.path).value, c.op, c.value.value);
      }
    } else {
      StarsAreFaithful(pattern);
      NothingAtJoinedPath(pattern, c.key, v);
      var doc := LostDoc(pattern, c.key, v);
      MemberMatches(env, c, v);
      assert TypedDoc(plan.idx.def, doc) && !Admits(env, plan, doc);
    }
  }

  lemma StarsAreFaithful(pattern: bytes)
    ensures FaithfulKey(pattern, STARS)
  {
  }

  lemma MemberMatches(env: Env, c: Comparison, v: Doc)
    requires Plannable(c) && !IsBracketed(c.key) && c.key != STARS
    requires CompareValues(env, v, c.op, c.value.value) == (true, None)
    ensures EvalComparison(env, Obj(map[c.key := v]), c) == (true, None)
  {
    hide CompareValues;
    assert |c.key| > 0 ==> c.key[0] in c.key;
    assert Child(Obj(map[c.key := v]), c.key) == Some(v);
    var vals := [v];
    assert ValuesByKey(env, Obj(map[c.key := v]), c.key) == vals;
  }

  /** The key a~1b, and the path at which pointerJoin puts it. */
  const SPLIT_KEY: bytes := [0x61, 0x7e, 0x31, 0x62]
  const SPLIT_PATH: bytes := [0x2f, 0x61, 0x7e, 0x31, 0x62]

  /** `/[a~1b = 5]` */
  const SPLIT_QUERY: Filter<Term> := Atom(PathTerm([], Some(Atom(Comparison(SPLIT_KEY, Eq, Some(Int(5)))))))

  /**
   The document {"a~1b": 5} matches the query, the index on /a~1b is chosen for it, and the document has no entry
   there: that path names the member a/b.  The indexed query loses it.
   */
  lemma DocumentLostAtEscapedKey(env: Env, nz: Normalizer, rnum: int, dbid: i64)
    requires NormalizesTyped(nz)
    ensures
      var doc := Obj(map[SPLIT_KEY := Int(5)]);
      var idx := IndexRef(IndexDef(SPLIT_PATH, Int64Index, false), dbid);
      var plan := Candidate(env, nz, rnum, [idx], SPLIT_QUERY);
      && Matches(env, doc, 1, SPLIT_QUERY) && TypedPaths([idx], doc)
      && plan.Some? && plan.value.idx == idx && plan.value.op == EqOp(Int(5))
      && !Admits(env, plan.value, doc) && Values(nz, doc, idx.def) == []
  {
    var doc := Obj(map[SPLIT_KEY := Int(5)]);
    var idx := IndexRef(IndexDef(SPLIT_PATH, Int64Index, false), dbid);
    var c := Comparison(SPLIT_KEY, Eq, Some(Int(5)));
    SplitKeyFacts();
    NothingAtJoinedPath([], SPLIT_KEY, Int(5));
    MemberMatches(env, c, Int(5));
    SplitPlan(env, nz, rnum, idx);
    hide PointerGet, Tokens, PointerJoin, EvalComparison, HasEscape, Candidate, UnescapeToken;
    EmptyPattern(doc);
    assert EvalExpr(env, doc, Atom(c)).matched && EvalExpr(env, doc, Atom(c)).err.None?;
    assert LostDoc([], SPLIT_KEY, Int(5)) == doc;
    assert Indexed(doc, SPLIT_PATH) == [];
  }

  lemma EmptyPattern(doc: Doc)
    ensures PointerGet(doc, []) == Some(doc) && Tokens([]) == Some([])
  {
  }

  lemma SplitKeyFacts()
    ensures SLASH !in SPLIT_KEY && !IsBracketed(SPLIT_KEY) && !FaithfulKey([], SPLIT_KEY)
    ensures JoinedPath([], SPLIT_KEY) == SPLIT_PATH
    ensures Plannable(Comparison(SPLIT_KEY, Eq, Some(Int(5))))
  {
    var k := SPLIT_KEY;
    assert k[1..][..2] == [TILDE, ONE];
    assert [TILDE, ONE] <= k[1..];
    assert Contains(k, [TILDE, ONE]);
  }

  lemma SplitPlan(env: Env, nz: Normalizer, rnum: int, idx: IndexRef)
    requires NormalizesTyped(nz) && idx.def.path == SPLIT_PATH && idx.def.kind.Int64Index?
    ensures var plan := Candidate(env, nz, rnum, [idx], SPLIT_QUERY);
            plan.Some? && plan.value.idx == idx && plan.value.op == EqOp(Int(5))
  {
    hide PathCount, PointerJoin, EncodeI64Key;
    SplitKeyFacts();
    var c := Comparison(SPLIT_KEY, Eq, Some(Int(5)));
    var order := [idx];
    assert nz(Int(5), Int64Index).Some?;
    assert BestOf(env, nz, rnum, order, SPLIT_PATH, c, 0) == None;
    assert BestOf(env, nz, rnum, order, SPLIT_PATH, c, 1) == PlanFor(env, nz, rnum, SPLIT_PATH, c, idx);
  }

  // ----- the index holds every admitted document -----

  /** What `normalizeIndexValue` gives for values of the index's own type. */
  ghost predicate NormalizesTyped(nz: Normalizer) {
    && (forall s :: nz(Str(s), StringIndex) == Some(s))
    && (forall i :: nz(Int(i), Int64Index) == Some(EncodeI64Key(i)))
    && (forall u :: nz(Float(u), FloatIndex) == Some(EncodeF64Key(u)))
    && (forall i :: nz(Int(i), FloatIndex) == Some(EncodeF64Key(FromInt(i))))
  }

  /** The float a number is indexed as. */
  function FloatOf(v: Doc): (u: u64)
    requires TypedValue(FloatIndex, v)
    ensures !IsNaN(u) && u != NEG_ZERO
  {
    if v.Int? then FromInt(v.i) else v.bits
  }

  function KeyOf(kind: IndexKind, v: Doc): bytes
    requires TypedValue(kind, v)
  {
    match kind
    case StringIndex => v.s
    case Int64Index => EncodeI64Key(v.i)
    case FloatIndex => EncodeF64Key(FloatOf(v))
  }

  lemma TypedNormalizes(nz: Normalizer, kind: IndexKind, v: Doc)
    requires NormalizesTyped(nz) && TypedValue(kind, v)
    ensures nz(v, kind) == Some(KeyOf(kind, v))
  {
    hide EncodeI64Key, EncodeF64Key, FromInt;
    match v
    case Str(s) => assert v == Str(s);
    case Int(i) => assert v == Int(i);
    case Float(u) => assert v == Float(u);
  }

  lemma TypedKeyGood(kind: IndexKind, v: Doc)
    requires TypedValue(kind, v)
    ensures GoodValue(kind, KeyOf(kind, v))
  {
    hide FromInt;
    match kind
    case StringIndex =>
    case Int64Index => I64KeyRoundTrip(v.i);
    case FloatIndex => F64KeyRoundTrip(FloatOf(v));
  }

  /** Matching compares two values as the scan compares their keys. */
  ghost predicate ComparesAsKeys(env: Env, kind: IndexKind, v: Doc, w: Doc)
    requires TypedValue(kind, v) && TypedValue(kind, w)
  {
    && (EqualTo(env, v, w) <==> KeyOf(kind, v) == KeyOf(kind, w))
    && forall op :: RangeHolds(env, v, op, w) <==> op.Holds(CompareIndexKeys(kind, KeyOf(kind, v), KeyOf(kind, w)))
  }

  /** A value of the index's type and a literal of it compare as their keys. */
  lemma TypedCompare(env: Env, kind: IndexKind, v: Doc, w: Doc)
    requires TypedValue(kind, v) && LiteralValue(kind, w)
    ensures ComparesAsKeys(env, kind, v, w)
  {
    hide FromInt;
    match kind
    case StringIndex => TextOrder(v.s, w.s, v.s);
    case Int64Index =>
      hide EncodeI64Key;
      I64KeyRoundTrip(v.i);
      I64KeyRoundTrip(w.i);
      I64KeyOrder(v.i, w.i);
    case FloatIndex =>
      if v.Int? && w.Int? {
        SafeIntegerCompares(v.i, w.i);
        IntegersUnderFloatsExactly(env, v.i, w.i);
        hide FloatValue, NearInt;
        FromIntCompares(v.i, w.i);
      } else {
        FloatCompare(env, v, w);
      }
  }

  /** The order and the equality of float keys are those of the floats. */
  lemma FloatKeys(x: u64, y: u64)
    requires !IsNaN(x) && x != NEG_ZERO && !IsNaN(y) && y != NEG_ZERO
    ensures CompareIndexKeys(FloatIndex, EncodeF64Key(x), EncodeF64Key(y)) == CompareFloat(x, y)
    ensures EncodeF64Key(x) == EncodeF64Key(y) <==> FloatValue(x) == FloatValue(y)
  {
    hide EncodeF64Key, DecodeF64Key, FloatValue, Less;
    F64KeyRoundTrip(x);
    F64KeyRoundTrip(y);
    F64KeyOrder(x, y);
    F64KeyOrder(y, x);
    LessTotal(EncodeF64Key(x), EncodeF64Key(y));
  }

  lemma FloatCompare(env: Env, v: Doc, w: Doc)
    requires TypedValue(FloatIndex, v) && TypedValue(FloatIndex, w) && (v.Float? || w.Float?)
    ensures ComparesAsKeys(env, FloatIndex, v, w)
  {
    hide FromInt, EncodeF64Key, FloatValue, CompareIndexKeys;
    FloatKeys(FloatOf(v), FloatOf(w));
  }

  /**
   Under a float index two integers are matched as the index orders them if and only if they are equal or are not
   converted to the same float.
   */
  lemma IntegersUnderFloatsExactly(env: Env, i: i64, j: i64)
    ensures ComparesAsKeys(env, FloatIndex, Int(i), Int(j)) <==> i == j || FromInt(i) != FromInt(j)
  {
    hide FromInt, EncodeF64Key, CompareIndexKeys, FloatValue, NearInt;
    FloatKeys(FromInt(i), FromInt(j));
    FromIntCompares(i, j);
    FromIntCompares(j, i);
    F64KeyRoundTrip(FromInt(i));
    F64KeyRoundTrip(FromInt(j));
    if i <= j {
      NearIntMonotone(i, j);
    } else {
      NearIntMonotone(j, i);
    }
  }

  /** The integer 2^53 + 1 is matched as greater than the literal 2^53 and indexed as equal to it. */
  lemma UnsafeLiteralDiffers(env: Env)
    ensures !ComparesAsKeys(env, FloatIndex, Int(TWO_53 + 1), Int(TWO_53))
  {
    hide FromInt, KeyOf, EqualTo, RangeHolds;
    UnsafeIntegersShare();
    IntegersUnderFloatsExactly(env, TWO_53 + 1, TWO_53);
  }

  /** What the plan asks of the value is what the scan asks of its key. */
  lemma HoldsIsSelected(env: Env, nz: Normalizer, kind: IndexKind, op: PlanOp, v: Doc)
    requires NormalizesTyped(nz) && TypedValue(kind, v) && TypedOp(kind, op)
    ensures OpHolds(env, op, v) <==> Selects(nz, kind, op, KeyOf(kind, v))
  {
    hide TypedValue, EqualTo, RangeHolds, KeyOf, NormalizesTyped, CompareIndexKeys, FloatOf;
    match op
    case Whole =>
    case EqOp(w) =>
      TypedNormalizes(nz, kind, w);
      TypedCompare(env, kind, v, w);
    case InOp(ws) =>
      forall i | 0 <= i < |ws| ensures EqualTo(env, v, ws[i]) <==> nz(ws[i], kind) == Some(KeyOf(kind, v)) {
        TypedNormalizes(nz, kind, ws[i]);
        TypedCompare(env, kind, v, ws[i]);
      }
    case PrefixOp(_) => StringKey(env, v);
    case RangePlan(_, w, second) =>
      TypedNormalizes(nz, kind, w);
      TypedCompare(env, kind, v, w);
      if second.Some? {
        TypedNormalizes(nz, kind, second.value.1);
        TypedCompare(env, kind, v, second.value.1);
      }
  }

  lemma StringKey(env: Env, v: Doc)
    requires TypedValue(StringIndex, v)
    ensures PrefixText(env, v) == Some(KeyOf(StringIndex, v))
  {
  }

  lemma TypedPlanGood(nz: Normalizer, kind: IndexKind, op: PlanOp)
    requires NormalizesTyped(nz) && TypedOp(kind, op)
    ensures GoodPlan(nz, kind, op)
  {
    hide TypedValue, KeyOf, NormalizesTyped, GoodValue;
    match op
    case Whole =>
    case EqOp(w) => GoodLiteral(nz, kind, w);
    case InOp(ws) =>
      forall i | 0 <= i < |ws| ensures nz(ws[i], kind).Some? && GoodValue(kind, nz(ws[i], kind).value) {
        GoodLiteral(nz, kind, ws[i]);
      }
    case PrefixOp(_) =>
    case RangePlan(_, w, second) =>
      GoodLiteral(nz, kind, w);
      if second.Some? {
        GoodLiteral(nz, kind, second.value.1);
      }
  }

  lemma GoodLiteral(nz: Normalizer, kind: IndexKind, w: Doc)
    requires NormalizesTyped(nz) && TypedValue(kind, w)
    ensures nz(w, kind).Some? && GoodValue(kind, nz(w, kind).value)
  {
    hide TypedValue, KeyOf, NormalizesTyped, GoodValue;
    TypedNormalizes(nz, kind, w);
    TypedKeyGood(kind, w);
  }

  /** A typed document has one indexed value, or none. */
  lemma TypedValues(nz: Normalizer, def: IndexDef, doc: Doc)
    requires NormalizesTyped(nz) && TypedDoc(def, doc)
    ensures PointerGet(doc, def.path).None? ==> Values(nz, doc, def) == []
    ensures PointerGet(doc, def.path).Some? ==>
              Values(nz, doc, def) == [KeyOf(def.kind, PointerGet(doc, def.path).value)]
  {
    hide PointerGet, NormalizesTyped, KeyOf;
    if PointerGet(doc, def.path).Some? {
      var v := PointerGet(doc, def.path).value;
      TypedNormalizes(nz, def.kind, v);
      assert Indexed(doc, def.path) == [v];
      var items := [v];
      assert items[..0] == [];
      assert ValuesOf(nz, items[..0], def.kind) == [];
    }
  }

  /** An entry of the index for a document of the collection is visited, and yields its id. */
  lemma EntryScanned(ix: Indexer, nz: Normalizer, e: Engine, idx: IndexRef, docs: map<i64, Doc>, op: PlanOp,
                     id: i64, value: bytes)
    requires IndexAgrees(ix, e, idx.def, idx.dbid, docs)
    requires id in docs && value in ix(docs[id], idx.def) && GoodValue(idx.def.kind, value)
    requires GoodPlan(nz, idx.def.kind, op) && Selects(nz, idx.def.kind, op, value)
    ensures id in ScanSet(nz, e, idx, op)
  {
    hide Visits, GoodPlan, Selects;
    var k := EntryKey(idx.def.unique, idx.dbid, value, id);
    assert k in e && IdOf(e, k) == id;
    VisitsExactly(nz, idx, op, k);
  }

  /** Every admitted document of a typed collection is in the scan of the plan. */
  lemma AdmittedIsScanned(env: Env, nz: Normalizer, e: Engine, docs: map<i64, Doc>, order: seq<IndexRef>, plan: Plan,
                          id: i64)
    requires NormalizesTyped(nz) && id in docs
    requires IndexAgrees(IndexerOf(nz), e, plan.idx.def, plan.idx.dbid, docs)
    requires TypedPaths(order, docs[id]) && TypedPlan(order, plan) && Admits(env, plan, docs[id])
    ensures id in ScanSet(nz, e, plan.idx, plan.op)
  {
    hide NormalizesTyped, PointerGet, KeyOf, Values, IndexAgrees, OpHolds, TypedOp, GoodPlan, ScanSet, Selects, GoodValue;
    var doc, def := docs[id], plan.idx.def;
    assert TypedDoc(def, doc);
    var v := PointerGet(doc, def.path).value;
    TypedValues(nz, def, doc);
    assert IndexerOf(nz)(doc, def) == Values(nz, doc, def);
    TypedKeyGood(def.kind, v);
    TypedPlanGood(nz, def.kind, plan.op);
    HoldsIsSelected(env, nz, def.kind, plan.op, v);
    EntryScanned(IndexerOf(nz), nz, e, plan.idx, docs, plan.op, id, KeyOf(def.kind, v));
  }

  // ----- indexed and plain queries agree -----

  /** The runtime indexes of a collection, in the order a map iteration gives them. */
  ghost predicate RuntimeOf(col: Collection, order: seq<IndexRef>) {
    forall i | 0 <= i < |order| ::
      order[i].def in col.indexes && order[i].dbid == col.indexes[order[i].def].dbid
  }

  /** The documents among `ids` that match: what a query without a window returns. */
  ghost function Answer(env: Env, docs: map<i64, Doc>, ids: set<i64>, f: Filter<Term>): set<i64> {
    set id | id in ids && id in docs && Matches(env, docs[id], id, f)
  }

  /**
   Planner soundness: in every state between operations, for typed paths, whatever plan is chosen and
   in whatever order the indexes are looked at, the indexed query returns what a scan of all documents
   returns.
   */
  lemma IndexedAnswerIsComplete(env: Env, nz: Normalizer, s: State, name: Name, order: seq<IndexRef>, f: Filter<Term>)
    requires NormalizesTyped(nz) && Clean(IndexerOf(nz), s) && name in s.cat.collections
    requires RuntimeOf(s.cat.collections[name], order) && TypedFilter(order, f)
    requires forall id | id in Live(s, name) :: TypedPaths(order, Live(s, name)[id])
    ensures var docs := Live(s, name);
            var plan := Candidate(env, nz, s.cat.collections[name].rnum, order, f);
            plan.Some? ==>
              Answer(env, docs, ScanSet(nz, s.engine, plan.value.idx, plan.value.op), f)
              == Answer(env, docs, docs.Keys, f)
  {
    hide NormalizesTyped, IndexAgrees, ScanSet, Matches, TypedPaths, TypedFilter, Candidate, TypedPlan, Admits, LogOk, CountersOk,
         CatalogOk, NoOrphans;
    var col := s.cat.collections[name];
    var docs := StoredDocs(s.engine, col.dbid);
    assert Live(s, name) == docs;
    var plan := Candidate(env, nz, col.rnum, order, f);
    if plan.Some? {
      var scanned := ScanSet(nz, s.engine, plan.value.idx, plan.value.op);
      CandidateTyped(env, nz, col.rnum, order, f);
      PlanIndexAgrees(IndexerOf(nz), s.engine, s.cat, name, order, plan.value);
      forall id | id in docs && Matches(env, docs[id], id, f) ensures id in scanned {
        CandidateAdmits(env, nz, col.rnum, order, f, docs[id], id);
        AdmittedIsScanned(env, nz, s.engine, docs, order, plan.value, id);
      }
    }
  }

  lemma PlanIndexAgrees(ix: Indexer, e: Engine, cat: Catalog, name: Name, order: seq<IndexRef>, plan: Plan)
    requires EngineAgrees(ix, e, cat) && name in cat.collections && RuntimeOf(cat.collections[name], order)
    requires TypedPlan(order, plan)
    ensures IndexAgrees(ix, e, plan.idx.def, plan.idx.dbid, StoredDocs(e, cat.collections[name].dbid))
  {
    hide IndexAgrees, StoredDocs, TypedOp;
  }

  // ----- the plan that only orders -----

  /** The order-by plan yields the documents that have a value in the index. */
  lemma WholeScanExact(ix: Indexer, nz: Normalizer, e: Engine, idx: IndexRef, docs: map<i64, Doc>, id: i64)
    requires IndexAgrees(ix, e, idx.def, idx.dbid, docs)
    ensures id in ScanSet(nz, e, idx, Whole) <==> id in docs && ix(docs[id], idx.def) != []
  {
    hide InPath;
    if id in ScanSet(nz, e, idx, Whole) {
      var k :| k in e && Visits(nz, idx, Whole, k) && IdOf(e, k) == id;
      InPathExact(idx, k);
      assert k == EntryKey(idx.def.unique, idx.dbid, ValueOf(k), id);
    }
    if id in docs && ix(docs[id], idx.def) != [] {
      var v := ix(docs[id], idx.def)[0];
      var k := EntryKey(idx.def.unique, idx.dbid, v, id);
      assert k in e && IdOf(e, k) == id;
      InPathExact(idx, k);
    }
  }

  /**
   A query that walks an index for its order only returns what a scan of the documents returns if and only if every
   matching document has a value in the index.
   */
  lemma OrderPlanAnswersExactly(env: Env, ix: Indexer, nz: Normalizer, e: Engine, idx: IndexRef, docs: map<i64, Doc>,
                                f: Filter<Term>)
    requires IndexAgrees(ix, e, idx.def, idx.dbid, docs)
    ensures Answer(env, docs, ScanSet(nz, e, idx, Whole), f) == Answer(env, docs, docs.Keys, f)
       <==> forall id | id in docs && Matches(env, docs[id], id, f) :: ix(docs[id], idx.def) != []
  {
    hide IndexAgrees, Matches, ScanSet;
    forall id ensures id in ScanSet(nz, e, idx, Whole) <==> id in docs && ix(docs[id], idx.def) != [] {
      WholeScanExact(ix, nz, e, idx, docs, id);
    }
    var scanned, all := Answer(env, docs, ScanSet(nz, e, idx, Whole), f), Answer(env, docs, docs.Keys, f);
    if scanned == all {
      forall id | id in docs && Matches(env, docs[id], id, f) ensures ix(docs[id], idx.def) != [] {
        assert id in all;
      }
    }
  }
}
