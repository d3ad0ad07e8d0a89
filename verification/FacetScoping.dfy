/**
 `$facet` moves the query so far into a CTE, builds every arm as a scan of that CTE, and then
 walks the finished tree to give each scan its level. The walk goes by name alone, and the name
 depends only on the nesting level. Whether that is right is a question of lexical scoping: a
 scan should mean the nearest enclosing query that binds its name.
 */
module FacetScoping {
  import opened QueryTree

  /* ---------- lexical scoping of CTE names ---------- */

  /** The nearest enclosing scope that binds n; |env| if there is none. */
  function Nearest(env: seq<set<CteName>>, n: CteName): (k: nat)
    ensures k <= |env| && (k < |env| ==> n in env[k])
    ensures forall j :: 0 <= j < k ==> n !in env[j]
  {
    if env == [] || n in env[0] then 0 else 1 + Nearest(env[1..], n)
  }

  /** Every scan of n in `e` has the level of the nearest scope that binds n. `env` holds the names
      each enclosing query binds, innermost first. */
  predicate Lexical(e: Expr, env: seq<set<CteName>>, n: CteName) {
    match e
    case Const => true
    case Ref(Var(_, _), _) => true
    case Ref(CteScan(m), level) => m == n ==> Nearest(env, n) < |env| && level == Up(Nearest(env, n))
    case Args(f, r) => Lexical(f, env, n) && Lexical(r, env, n)
    case Sub(q) => QueryLexical(q, env, n)
  }

  predicate QueryLexical(q: Query, env: seq<set<CteName>>, n: CteName) {
    CtesLexical(q.ctes, {}, env, n) && Lexical(q.body, [Names(q.ctes)] + env, n)
  }

  // A CTE's definition sees the CTEs before it.
  predicate CtesLexical(c: Ctes, before: set<CteName>, env: seq<set<CteName>>, n: CteName) {
    match c
    case NoCtes => true
    case Cte(m, q, rest) => QueryLexical(q, [before] + env, n) && CtesLexical(rest, before + {m}, env, n)
  }

  /* ---------- conditions a caller can check, without levels ---------- */

  predicate HasScan(e: Expr, n: CteName) {
    match e
    case Const => false
    case Ref(Var(_, _), _) => false
    case Ref(CteScan(m), _) => m == n
    case Args(f, r) => HasScan(f, n) || HasScan(r, n)
    case Sub(q) => QueryHasScan(q, n)
  }

  predicate QueryHasScan(q: Query, n: CteName) {
    CtesHaveScan(q.ctes, n) || HasScan(q.body, n)
  }

  predicate CtesHaveScan(c: Ctes, n: CteName) {
    match c
    case NoCtes => false
    case Cte(_, q, rest) => QueryHasScan(q, n) || CtesHaveScan(rest, n)
  }

  /** No scan of n lies under an inner query that binds n too. */
  predicate Unshadowed(e: Expr, n: CteName) {
    match e
    case Const => true
    case Ref(_, _) => true
    case Args(f, r) => Unshadowed(f, n) && Unshadowed(r, n)
    case Sub(q) => QueryUnshadowed(q, n)
  }

  predicate QueryUnshadowed(q: Query, n: CteName) {
    && CtesUnshadowed(q.ctes, false, n)
    && if n in Names(q.ctes) then !HasScan(q.body, n) else Unshadowed(q.body, n)
  }

  predicate CtesUnshadowed(c: Ctes, bound: bool, n: CteName) {
    match c
    case NoCtes => true
    case Cte(m, q, rest) =>
      && (if bound then !QueryHasScan(q, n) else QueryUnshadowed(q, n))
      && CtesUnshadowed(rest, bound || m == n, n)
  }

  /* ---------- the walk against lexical scoping ---------- */

  // Where level k is not the nearest binder of n, the walk is right only if there is nothing to do.
  lemma {:induction false} WalkElsewhere(e: Expr, k: nat, env: seq<set<CteName>>, n: CteName)
    requires Nearest(env, n) != k
    ensures Lexical(SetLevels(e, Scans(n), k), env, n) <==> !HasScan(e, n)
  {
    match e
    case Args(f, r) =>
      WalkElsewhere(f, k, env, n);
      WalkElsewhere(r, k, env, n);
    case Sub(q) => QueryWalkElsewhere(q, k + 1, env, n);
    case _ =>
  }

  lemma {:induction false} QueryWalkElsewhere(q: Query, k: nat, env: seq<set<CteName>>, n: CteName)
    requires k > 0 && Nearest(env, n) + 1 != k
    ensures QueryLexical(SetQueryLevels(q, Scans(n), k), env, n) <==> !QueryHasScan(q, n)
  {
    NamesStay(q.ctes, Scans(n), k + 1);
    CtesWalkElsewhere(q.ctes, {}, k + 1, env, n);
    assert ([Names(q.ctes)] + env)[1..] == env;
    WalkElsewhere(q.body, k, [Names(q.ctes)] + env, n);
  }

  lemma {:induction false} CtesWalkElsewhere(c: Ctes, before: set<CteName>, k: nat, env: seq<set<CteName>>, n: CteName)
    requires k > 1 && Nearest(env, n) + 2 != k
    ensures CtesLexical(SetCteLevels(c, Scans(n), k), before, env, n) <==> !CtesHaveScan(c, n)
  {
    match c
    case NoCtes =>
    case Cte(m, q, rest) =>
      assert ([before] + env)[1..] == env;
      QueryWalkElsewhere(q, k, [before] + env, n);
      CtesWalkElsewhere(rest, before + {m}, k, env, n);
  }

  // Where level k is the nearest binder of n, the walk is right unless a scan is shadowed.
  lemma {:induction false} WalkHere(e: Expr, k: nat, env: seq<set<CteName>>, n: CteName)
    requires Nearest(env, n) == k < |env|
    ensures Lexical(SetLevels(e, Scans(n), k), env, n) <==> Unshadowed(e, n)
  {
    match e
    case Args(f, r) =>
      WalkHere(f, k, env, n);
      WalkHere(r, k, env, n);
    case Sub(q) => QueryWalkHere(q, k + 1, env, n);
    case _ =>
  }

  lemma {:induction false} QueryWalkHere(q: Query, k: nat, env: seq<set<CteName>>, n: CteName)
    requires k > 0 && Nearest(env, n) + 1 == k <= |env|
    ensures QueryLexical(SetQueryLevels(q, Scans(n), k), env, n) <==> QueryUnshadowed(q, n)
  {
    NamesStay(q.ctes, Scans(n), k + 1);
    CtesWalkHere(q.ctes, {}, k + 1, env, n);
    assert ([Names(q.ctes)] + env)[1..] == env;
    if n in Names(q.ctes) {
      WalkElsewhere(q.body, k, [Names(q.ctes)] + env, n);
    } else {
      WalkHere(q.body, k, [Names(q.ctes)] + env, n);
    }
  }

  lemma {:induction false} CtesWalkHere(c: Ctes, before: set<CteName>, k: nat, env: seq<set<CteName>>, n: CteName)
    requires k > 1 && Nearest(env, n) + 2 == k <= |env| + 1
    ensures CtesLexical(SetCteLevels(c, Scans(n), k), before, env, n) <==> CtesUnshadowed(c, n in before, n)
  {
    match c
    case NoCtes =>
    case Cte(m, q, rest) =>
      assert ([before] + env)[1..] == env;
      if n in before {
        QueryWalkElsewhere(q, k, [before] + env, n);
      } else {
        QueryWalkHere(q, k, [before] + env, n);
      }
      CtesWalkHere(rest, before + {m}, k, env, n);
  }

  /* ---------- the stage ---------- */

  /** HandleFacet: `arms` is the aggregated union of the facet pipelines, `prior` the query so far. */
  function HandleFacet(prior: Query, nestingLevel: nat, arms: Expr): Query {
    var name := FacetBase(nestingLevel);
    SetQueryLevels(Query(Plain, Cte(name, prior, NoCtes), arms), Scans(name), 0)
  }

  /** Exactly when `$facet` gets the scopes right: the query before it must not scan a CTE of the
      same name anywhere, and no arm may scan it under a binder of its own. */
  lemma FacetIsLexical(prior: Query, nestingLevel: nat, arms: Expr, env: seq<set<CteName>>)
    ensures QueryLexical(HandleFacet(prior, nestingLevel, arms), env, FacetBase(nestingLevel))
            <==> !QueryHasScan(prior, FacetBase(nestingLevel)) && Unshadowed(arms, FacetBase(nestingLevel))
  {
    var n := FacetBase(nestingLevel);
    var root := HandleFacet(prior, nestingLevel, arms);
    var made := Cte(n, prior, NoCtes);
    assert SetCteLevels(made.rest, Scans(n), 1) == NoCtes;
    assert root.ctes == SetCteLevels(made, Scans(n), 1);
    assert root.ctes == Cte(n, SetQueryLevels(prior, Scans(n), 1), NoCtes);
    var inCte := [{}] + env;
    assert inCte[1..] == env;
    QueryWalkElsewhere(prior, 1, inCte, n);
    var inBody := [{n}] + env;
    assert Names(root.ctes) == {n};
    WalkHere(arms, 0, inBody, n);
    assert CtesLexical(root.ctes, {}, env, n) <==> QueryLexical(root.ctes.query, inCte, n);
  }

  /** A query inside n subqueries. */
  function Wrapped(q: Query, n: nat): Query {
    if n == 0 then q else Query(Plain, NoCtes, Sub(Wrapped(q, n - 1)))
  }

  lemma {:induction false} WrappedScans(q: Query, n: nat, name: CteName)
    ensures QueryHasScan(Wrapped(q, n), name) <==> QueryHasScan(q, name)
  {
    if n > 0 {
      WrappedScans(q, n - 1, name);
      assert HasScan(Sub(Wrapped(q, n - 1)), name) <==> QueryHasScan(Wrapped(q, n - 1), name);
    }
  }

  /** Two `$facet` stages in one pipeline share a name. Whatever the arms, as soon as the first facet
      has an arm its scans are captured by the second one's walk, however many subqueries lie
      between: the result is not lexically scoped. */
  lemma SecondFacetCaptures(prior: Query, nestingLevel: nat, arms: Expr, arms': Expr, between: nat,
                            env: seq<set<CteName>>)
    requires HasScan(arms, FacetBase(nestingLevel))
    ensures var first := HandleFacet(prior, nestingLevel, arms);
            !QueryLexical(HandleFacet(Wrapped(first, between), nestingLevel, arms'), env, FacetBase(nestingLevel))
  {
    var n := FacetBase(nestingLevel);
    var first := HandleFacet(prior, nestingLevel, arms);
    ScansStay(arms, n, n, 0);
    assert QueryHasScan(first, n);
    WrappedScans(first, between, n);
    FacetIsLexical(Wrapped(first, between), nestingLevel, arms', env);
  }

  lemma {:induction false} ScansStay(e: Expr, n: CteName, m: CteName, k: nat)
    ensures HasScan(SetLevels(e, Scans(m), k), n) <==> HasScan(e, n)
  {
    match e
    case Args(f, r) =>
      ScansStay(f, n, m, k);
      ScansStay(r, n, m, k);
    case Sub(q) => QueryScansStay(q, n, m, k + 1);
    case _ =>
  }

  lemma {:induction false} QueryScansStay(q: Query, n: CteName, m: CteName, k: nat)
    ensures QueryHasScan(SetQueryLevels(q, Scans(m), k), n) <==> QueryHasScan(q, n)
  {
    CtesScansStay(q.ctes, n, m, k + 1);
    ScansStay(q.body, n, m, k);
  }

  lemma {:induction false} CtesScansStay(c: Ctes, n: CteName, m: CteName, k: nat)
    ensures CtesHaveScan(SetCteLevels(c, Scans(m), k), n) <==> CtesHaveScan(c, n)
  {
    match c
    case NoCtes =>
    case Cte(_, q, rest) =>
      QueryScansStay(q, n, m, k);
      CtesScansStay(rest, n, m, k);
  }

  /** Facets at different nesting levels do not disturb each other: the walk for one name leaves the
      scoping of every other name as it was. */
  lemma {:induction false} OtherNamesStay(e: Expr, env: seq<set<CteName>>, n: CteName, m: CteName, k: nat)
    requires n != m
    ensures Lexical(SetLevels(e, Scans(m), k), env, n) <==> Lexical(e, env, n)
  {
    match e
    case Args(f, r) =>
      OtherNamesStay(f, env, n, m, k);
      OtherNamesStay(r, env, n, m, k);
    case Sub(q) => OtherNamesStayInQuery(q, env, n, m, k + 1);
    case _ =>
  }

  lemma {:induction false} OtherNamesStayInQuery(q: Query, env: seq<set<CteName>>, n: CteName, m: CteName, k: nat)
    requires n != m
    ensures QueryLexical(SetQueryLevels(q, Scans(m), k), env, n) <==> QueryLexical(q, env, n)
  {
    NamesStay(q.ctes, Scans(m), k + 1);
    OtherNamesStayInCtes(q.ctes, {}, env, n, m, k + 1);
    OtherNamesStay(q.body, [Names(q.ctes)] + env, n, m, k);
  }

  lemma {:induction false} OtherNamesStayInCtes(c: Ctes, before: set<CteName>, env: seq<set<CteName>>, n: CteName,
                                                m: CteName, k: nat)
    requires n != m
    ensures CtesLexical(SetCteLevels(c, Scans(m), k), before, env, n) <==> CtesLexical(c, before, env, n)
  {
    match c
    case NoCtes =>
    case Cte(name, q, rest) =>
      OtherNamesStayInQuery(q, [before] + env, n, m, k);
      OtherNamesStayInCtes(rest, before + {name}, env, n, m, k);
  }
}
