/**
 Query trees as far as scoping is concerned, and the walks that fix up "levels up".

 A column reference (Var) or a CTE scan names the query it refers to by how many query
 boundaries lie between: a subquery, a SubLink and a CTE definition each open one. While a
 nested pipeline is still being built its final depth is unknown, so references to the
 enclosing query are made as placeholders (varlevelsup INT_MAX, or an unused ctelevelsup) and
 a walk over the finished tree fills the levels in.
 */
module QueryTree {

  // INT_MAX and above is one value, as the mutator clamps it.
  datatype Level = Up(n: nat) | Placeholder

  /** Which query a node belongs to: the join of a lookup, or the query that runs the rest of its
      pipeline. A Var carries its owner in `location`, a field `equal` ignores. */
  datatype Tag = Plain | Join(id: int) | Result(id: int)

  datatype CteName = FacetBase(level: nat) | Named(name: string)

  /** A reference: a column of a query (Var), or a query's CTE (a range table entry). */
  datatype Referent = Var(attno: nat, location: Tag) | CteScan(cte: CteName)

  datatype Expr =
    | Const
    | Ref(to: Referent, level: Level)
    | Args(first: Expr, rest: Expr)
    | Sub(query: Query)

  datatype Query = Query(tag: Tag, ctes: Ctes, body: Expr)

  datatype Ctes = NoCtes | Cte(name: CteName, query: Query, rest: Ctes)

  /** The names a query binds. */
  function Names(c: Ctes): set<CteName> {
    match c
    case NoCtes => {}
    case Cte(n, _, rest) => {n} + Names(rest)
  }

  /** What a walk looks for: the placeholder Var of a column, or any scan of a CTE name. */
  datatype Target = Column(attno: nat) | Scans(name: CteName)

  predicate Matches(to: Referent, level: Level, t: Target) {
    match t
    case Column(attno) => to.Var? && to.attno == attno && level.Placeholder?
    case Scans(name) => to.CteScan? && to.cte == name
  }

  /* ---------- the walk, as a function of the tree ---------- */

  /** The tree with every match given the level of its depth; `level` is the level at `e`. */
  function SetLevels(e: Expr, t: Target, level: nat): Expr {
    match e
    case Const => e
    case Ref(to, l) => if Matches(to, l, t) then Ref(to, Up(level)) else e
    case Args(f, r) => Args(SetLevels(f, t, level), SetLevels(r, t, level))
    case Sub(q) => Sub(SetQueryLevels(q, t, level + 1))
  }

  function SetQueryLevels(q: Query, t: Target, level: nat): Query {
    Query(q.tag, SetCteLevels(q.ctes, t, level + 1), SetLevels(q.body, t, level))
  }

  function SetCteLevels(c: Ctes, t: Target, level: nat): Ctes {
    match c
    case NoCtes => NoCtes
    case Cte(n, q, rest) => Cte(n, SetQueryLevels(q, t, level), SetCteLevels(rest, t, level))
  }

  /* ---------- the walk, as the code runs it ---------- */

  /** LevelsUpQueryTreeWalkerState: one depth counter shared by the whole walk. */
  class LevelsUpWalker {
    var numLevels: nat
    const target: Target

    constructor (base: nat, target: Target)
      ensures numLevels == base && this.target == target
    {
      numLevels := base;
      this.target := target;
    }

    method WalkExpr(e: Expr) returns (r: Expr)
      modifies this
      ensures r == SetLevels(e, target, old(numLevels))
      ensures numLevels == old(numLevels)
      decreases e
    {
      match e
      case Const => r := e;
      case Ref(to, l) => r := if Matches(to, l, target) then Ref(to, Up(numLevels)) else e;
      case Args(f, g) =>
        var f' := WalkExpr(f);
        var g' := WalkExpr(g);
        r := Args(f', g');
      case Sub(q) =>
        numLevels := numLevels + 1;
        var q' := WalkQuery(q);
        numLevels := numLevels - 1;
        r := Sub(q');
    }

    method WalkQuery(q: Query) returns (r: Query)
      modifies this
      ensures r == SetQueryLevels(q, target, old(numLevels))
      ensures numLevels == old(numLevels)
      decreases q
    {
      var body := WalkExpr(q.body);
      var ctes := WalkCtes(q.ctes);
      r := Query(q.tag, ctes, body);
    }

    method WalkCtes(c: Ctes) returns (r: Ctes)
      modifies this
      ensures r == SetCteLevels(c, target, old(numLevels) + 1)
      ensures numLevels == old(numLevels)
      decreases c
    {
      match c
      case NoCtes => r := NoCtes;
      case Cte(n, q, rest) =>
        numLevels := numLevels + 1;
        var q' := WalkQuery(q);
        numLevels := numLevels - 1;
        var rest' := WalkCtes(rest);
        r := Cte(n, q', rest');
    }
  }

  /* ---------- what the walk does, said flatly ---------- */

  /** A reference and the number of query boundaries above it. */
  datatype Place = Place(depth: nat, to: Referent, level: Level)

  /** The references of a tree in tree order, with their depths: the shape is forgotten. */
  function Refs(e: Expr, depth: nat): seq<Place> {
    match e
    case Const => []
    case Ref(to, level) => [Place(depth, to, level)]
    case Args(f, r) => Refs(f, depth) + Refs(r, depth)
    case Sub(q) => QueryRefs(q, depth + 1)
  }

  function QueryRefs(q: Query, depth: nat): seq<Place> {
    CteRefs(q.ctes, depth + 1) + Refs(q.body, depth)
  }

  function CteRefs(c: Ctes, depth: nat): seq<Place> {
    match c
    case NoCtes => []
    case Cte(_, q, rest) => QueryRefs(q, depth) + CteRefs(rest, depth)
  }

  /** The tree with every level blotted out. */
  function Shape(e: Expr): Expr {
    match e
    case Const => Const
    case Ref(to, _) => Ref(to, Placeholder)
    case Args(f, r) => Args(Shape(f), Shape(r))
    case Sub(q) => Sub(QueryShape(q))
  }

  function QueryShape(q: Query): Query {
    Query(q.tag, CtesShape(q.ctes), Shape(q.body))
  }

  function CtesShape(c: Ctes): Ctes {
    match c
    case NoCtes => NoCtes
    case Cte(n, q, rest) => Cte(n, QueryShape(q), CtesShape(rest))
  }

  /** The references of `after` are those of `before`, except that each match at depth d has
      level base + d. */
  ghost predicate OnlyMatchesMoved(before: seq<Place>, after: seq<Place>, t: Target, base: nat) {
    && |after| == |before|
    && forall i :: 0 <= i < |before| ==>
         after[i] == if Matches(before[i].to, before[i].level, t)
                     then before[i].(level := Up(base + before[i].depth))
                     else before[i]
  }

  /** Over the whole tree each match at depth d gets level base + d; every other reference and
      the shape of the tree stay; no sibling sees another's depth. */
  lemma WalkSetsDepths(q: Query, t: Target, base: nat)
    ensures OnlyMatchesMoved(QueryRefs(q, 0), QueryRefs(SetQueryLevels(q, t, base), 0), t, base)
    ensures QueryShape(SetQueryLevels(q, t, base)) == QueryShape(q)
  {
    QueryDepths(q, t, base, 0);
  }

  lemma {:induction false} ExprDepths(e: Expr, t: Target, base: nat, depth: nat)
    ensures OnlyMatchesMoved(Refs(e, depth), Refs(SetLevels(e, t, base + depth), depth), t, base)
    ensures Shape(SetLevels(e, t, base + depth)) == Shape(e)
  {
    match e
    case Args(f, r) =>
      ExprDepths(f, t, base, depth);
      ExprDepths(r, t, base, depth);
    case Sub(q) => QueryDepths(q, t, base, depth + 1);
    case _ =>
  }

  lemma {:induction false} QueryDepths(q: Query, t: Target, base: nat, depth: nat)
    ensures OnlyMatchesMoved(QueryRefs(q, depth), QueryRefs(SetQueryLevels(q, t, base + depth), depth), t, base)
    ensures QueryShape(SetQueryLevels(q, t, base + depth)) == QueryShape(q)
  {
    CtesDepths(q.ctes, t, base, depth + 1);
    ExprDepths(q.body, t, base, depth);
  }

  lemma {:induction false} CtesDepths(c: Ctes, t: Target, base: nat, depth: nat)
    ensures OnlyMatchesMoved(CteRefs(c, depth), CteRefs(SetCteLevels(c, t, base + depth), depth), t, base)
    ensures CtesShape(SetCteLevels(c, t, base + depth)) == CtesShape(c)
  {
    match c
    case NoCtes =>
    case Cte(_, q, rest) =>
      QueryDepths(q, t, base, depth);
      CtesDepths(rest, t, base, depth);
  }

  lemma {:induction false} NamesStay(c: Ctes, t: Target, k: nat)
    ensures Names(SetCteLevels(c, t, k)) == Names(c)
  {
    match c
    case NoCtes =>
    case Cte(_, _, rest) => NamesStay(rest, t, k);
  }
}
