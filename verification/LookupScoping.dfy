/**
 How the part of a `$lookup` pipeline that cannot be inlined is built, for lookups nested to any
 depth; which references the result has, and that every one means the lookup it was made for.

 Each lookup makes two references to its own result query before that query exists: column 2
 (the matched documents) and, with `let`, column 3 (the variables). Both are placeholders that
 `equal` cannot tell from those of an enclosing lookup, since it ignores `location`.
 */
module LookupScoping {
  import opened Options
  import opened QueryTree

  /** A stage, as far as variables are concerned. `inSubQuery` says that the query so far is first
      pushed down (MigrateQueryToSubQuery). `id` names the lookup; in the source it is the
      nesting level, here it may be anything, so that no two lookups need to share one. `hasFields` is
      whether it joins on two fields; `pulled` is the `$match` taken into the join. */
  datatype Stage =
    | Project(inSubQuery: bool, usesVariables: bool)
    | Lookup(inSubQuery: bool, id: int, hasLet: bool, hasFields: bool, inlined: Pipeline, pulled: Pulled,
             aggInSubQuery: bool, postJoin: Pipeline)

  datatype Pulled = NoMatch | Match(usesVariables: bool)

  datatype Pipeline = End | Then(stage: Stage, rest: Pipeline)

  const DOCUMENTS_ATTNO: nat := 2
  const LET_ATTNO: nat := 3
  const LEFT_LET_ATTNO: nat := 2

  const LEFT_CTE := Named("lookupLeftCte")
  const RIGHT_CTE := Named("lookup_right_query")
  const JOIN_CTE := Named("lookup_join_cte")

  function Migrate(q: Query): Query {
    Query(Plain, NoCtes, Args(Ref(Var(1, Plain), Up(0)), Sub(q)))
  }

  function MigrateIf(b: bool, q: Query): Query {
    if b then Migrate(q) else q
  }

  function Append(q: Query, e: Expr): Query {
    q.(body := Args(q.body, e))
  }

  function Second(id: int): Expr { Ref(Var(DOCUMENTS_ATTNO, Result(id)), Placeholder) }

  function LetVar(id: int): Expr { Ref(Var(LET_ATTNO, Result(id)), Placeholder) }

  const EMPTY := Query(Plain, NoCtes, Const)

  /** MutateQueryWithPipeline: `variables` is the context's variableSpec. */
  function Build(q: Query, stages: Pipeline, variables: Expr): Query
    decreases stages
  {
    match stages
    case End => q
    case Then(Project(inSubQuery, uses), rest) =>
      Build(Append(MigrateIf(inSubQuery, q), if uses then variables else Const), rest, variables)
    case Then(Lookup(inSubQuery, id, hasLet, hasFields, inlined, pulled, aggInSubQuery, postJoin), rest) =>
      var below := Build(EMPTY, inlined, Const);
      var sub := Build(Query(Plain, NoCtes, Second(id)), postJoin, if hasLet then LetVar(id) else variables);
      Build(LookupQuery(q, stages.stage, below, sub, variables), rest, variables)
  }

  /** ProcessLookupCoreWithLet: `below` are the inlined stages, `sub` is what runs after the join, if anything. */
  function LookupQuery(q: Query, stage: Stage, below: Query, sub: Query, variables: Expr): Query
    requires stage.Lookup?
  {
    var right := RightQuery(stage.id, stage.hasLet, stage.hasFields, below, stage.pulled, variables);
    var left := MigrateIf(stage.inSubQuery, q);
    var join := JoinQuery(left, stage.id, stage.hasLet, right, stage.postJoin.Then?, variables);
    if stage.postJoin.End? then join
    else ResultQuery(stage.id, stage.hasLet, join, MigrateIf(stage.aggInSubQuery, sub))
  }

  /** The right query: the inlined stages, lookups of their own among them, in a CTE; a stage that reads variables
      is not inlined. One level up are the columns of the left query: the document, with `let` the
      variables, and what the join on fields extracted. */
  function RightQuery(id: int, hasLet: bool, hasFields: bool, below: Query, pulled: Pulled, variables: Expr): Query {
    if !hasFields && pulled.NoMatch? then below
    else
      var letVar := Ref(Var(LEFT_LET_ATTNO, Join(id)), Up(1));
      var filter := Ref(Var(if hasLet then LEFT_LET_ATTNO + 1 else LEFT_LET_ATTNO, Join(id)), Up(1));
      Query(Plain, Cte(RIGHT_CTE, below, NoCtes),
            Args(Ref(CteScan(RIGHT_CTE), Up(0)),
                 Args(if hasFields then filter else Const,
                      if pulled.Match? && pulled.usesVariables then (if hasLet then letVar else variables) else Const)))
  }

  /** The lateral join of the left query (in a CTE) with the right query. With `let`, the variables are a new column
      of the left query, evaluated under the enclosing variables, and are evaluated again for what
      runs after the join. */
  function JoinQuery(left: Query, id: int, hasLet: bool, right: Query, hasPostJoin: bool, variables: Expr): Query {
    var outer := if hasLet then variables else Const;
    Query(Join(id), Cte(LEFT_CTE, Append(left, outer), NoCtes),
          Args(Args(Ref(CteScan(LEFT_CTE), Up(0)), Sub(right)), if hasPostJoin then outer else Const))
  }

  /** The query that selects from the join and re-aggregates the post-join pipeline in a SubLink,
      after the walks over that SubLink: column 2 always, column 3 only with `let`. */
  function ResultQuery(id: int, hasLet: bool, join: Query, sub: Query): Query {
    Query(Result(id), Cte(JOIN_CTE, join, NoCtes),
          Args(Args(Ref(CteScan(JOIN_CTE), Up(0)), Ref(Var(1, Result(id)), Up(0))), Sub(Walked(hasLet, sub))))
  }

  function Walked(hasLet: bool, sub: Query): Query {
    var walked := SetQueryLevels(sub, Column(DOCUMENTS_ATTNO), 1);
    if hasLet then SetQueryLevels(walked, Column(LET_ATTNO), 1) else walked
  }

  /* ---------- resolution ---------- */

  /** An enclosing query: its tag and the CTE names it binds. */
  datatype Frame = Frame(tag: Tag, names: set<CteName>)

  function FrameOf(q: Query): Frame {
    Frame(q.tag, Names(q.ctes))
  }

  /** What `e` means under the enclosing queries `env`, innermost first: a levelled Var finds its owner at its
      level, and a scan a query that binds its name; a placeholder is one of `pending`, which gives the
      owner of each column still to be filled in. */
  predicate Scoped(e: Expr, env: seq<Frame>, pending: map<nat, Tag>) {
    match e
    case Const => true
    case Ref(CteScan(name), Up(n)) => n < |env| && name in env[n].names
    case Ref(CteScan(_), Placeholder) => false
    case Ref(Var(_, owner), Up(n)) => n < |env| && env[n].tag == owner
    case Ref(Var(attno, owner), Placeholder) => attno in pending && pending[attno] == owner
    case Args(f, r) => Scoped(f, env, pending) && Scoped(r, env, pending)
    case Sub(q) => QueryScoped(q, env, pending)
  }

  predicate QueryScoped(q: Query, env: seq<Frame>, pending: map<nat, Tag>) {
    CtesScoped(q.ctes, [FrameOf(q)] + env, pending) && Scoped(q.body, [FrameOf(q)] + env, pending)
  }

  predicate CtesScoped(c: Ctes, env: seq<Frame>, pending: map<nat, Tag>) {
    match c
    case NoCtes => true
    case Cte(_, q, rest) => QueryScoped(q, env, pending) && CtesScoped(rest, env, pending)
  }

  ghost predicate Submap(p: map<nat, Tag>, p': map<nat, Tag>) {
    forall a :: a in p ==> a in p' && p'[a] == p[a]
  }

  /** A fragment that is scoped on its own stays so deeper in a tree and with more pending. */
  lemma {:induction false} ScopedWeaken(e: Expr, env: seq<Frame>, outer: seq<Frame>, p: map<nat, Tag>,
                                        p': map<nat, Tag>)
    requires Scoped(e, env, p) && Submap(p, p')
    ensures Scoped(e, env + outer, p')
  {
    match e
    case Args(f, r) =>
      ScopedWeaken(f, env, outer, p, p');
      ScopedWeaken(r, env, outer, p, p');
    case Sub(q) => QueryScopedWeaken(q, env, outer, p, p');
    case _ =>
  }

  lemma {:induction false} QueryScopedWeaken(q: Query, env: seq<Frame>, outer: seq<Frame>, p: map<nat, Tag>,
                                             p': map<nat, Tag>)
    requires QueryScoped(q, env, p) && Submap(p, p')
    ensures QueryScoped(q, env + outer, p')
  {
    assert [FrameOf(q)] + (env + outer) == ([FrameOf(q)] + env) + outer;
    CtesScopedWeaken(q.ctes, [FrameOf(q)] + env, outer, p, p');
    ScopedWeaken(q.body, [FrameOf(q)] + env, outer, p, p');
  }

  lemma {:induction false} CtesScopedWeaken(c: Ctes, env: seq<Frame>, outer: seq<Frame>, p: map<nat, Tag>,
                                            p': map<nat, Tag>)
    requires CtesScoped(c, env, p) && Submap(p, p')
    ensures CtesScoped(c, env + outer, p')
  {
    match c
    case NoCtes =>
    case Cte(_, q, rest) =>
      QueryScopedWeaken(q, env, outer, p, p');
      CtesScopedWeaken(rest, env, outer, p, p');
  }

  /** A walk resolves exactly one pending column: `|env|` boundaries below the fragment's root,
      level |env| is the query the fragment is put into, and if that is the column's owner
      the column is no longer pending. Nothing else changes its meaning. */
  lemma {:induction false} WalkResolves(e: Expr, env: seq<Frame>, outer: seq<Frame>, p: map<nat, Tag>, attno: nat)
    requires Scoped(e, env + outer, p)
    requires outer != [] && (attno in p ==> p[attno] == outer[0].tag)
    ensures Scoped(SetLevels(e, Column(attno), |env|), env + outer, p - {attno})
  {
    match e
    case Args(f, r) =>
      WalkResolves(f, env, outer, p, attno);
      WalkResolves(r, env, outer, p, attno);
    case Sub(q) => QueryWalkResolves(q, env, outer, p, attno);
    case _ =>
  }

  lemma {:induction false} QueryWalkResolves(q: Query, env: seq<Frame>, outer: seq<Frame>, p: map<nat, Tag>, attno: nat)
    requires QueryScoped(q, env + outer, p)
    requires outer != [] && (attno in p ==> p[attno] == outer[0].tag)
    ensures QueryScoped(SetQueryLevels(q, Column(attno), |env| + 1), env + outer, p - {attno})
  {
    NamesStay(q.ctes, Column(attno), |env| + 2);
    assert [FrameOf(q)] + (env + outer) == ([FrameOf(q)] + env) + outer;
    CtesWalkResolves(q.ctes, [FrameOf(q)] + env, outer, p, attno);
    WalkResolves(q.body, [FrameOf(q)] + env, outer, p, attno);
  }

  lemma {:induction false} CtesWalkResolves(c: Ctes, env: seq<Frame>, outer: seq<Frame>, p: map<nat, Tag>, attno: nat)
    requires CtesScoped(c, env + outer, p)
    requires outer != [] && (attno in p ==> p[attno] == outer[0].tag)
    ensures CtesScoped(SetCteLevels(c, Column(attno), |env| + 1), env + outer, p - {attno})
  {
    match c
    case NoCtes =>
    case Cte(_, q, rest) =>
      QueryWalkResolves(q, env, outer, p, attno);
      CtesWalkResolves(rest, env, outer, p, attno);
  }

  /* ---------- the builder ---------- */

  /** The context's variables: none (a constant), or the placeholder of an enclosing lookup. */
  predicate VariablesOf(variables: Expr, pending: map<nat, Tag>) {
    || variables == Const
    || (LET_ATTNO in pending && variables == Ref(Var(LET_ATTNO, pending[LET_ATTNO]), Placeholder))
  }

  lemma VariablesAreScoped(variables: Expr, env: seq<Frame>, pending: map<nat, Tag>)
    requires VariablesOf(variables, pending)
    ensures Scoped(variables, env, pending)
  {}

  lemma MigrateIsScoped(b: bool, q: Query, p: map<nat, Tag>)
    requires QueryScoped(q, [], p)
    ensures QueryScoped(MigrateIf(b, q), [], p)
  {
    if b {
      var env := [Frame(Plain, {})] + [];
      QueryScopedWeaken(q, [], env, p, p);
      assert [] + env == env;
      assert Scoped(Ref(Var(1, Plain), Up(0)), env, p) && Scoped(Sub(q), env, p);
      assert Scoped(Migrate(q).body, env, p);
    }
  }

  lemma AppendIsScoped(q: Query, e: Expr, env: seq<Frame>, p: map<nat, Tag>)
    requires QueryScoped(q, env, p) && Scoped(e, [FrameOf(q)] + env, p)
    ensures QueryScoped(Append(q, e), env, p)
  {
    assert FrameOf(Append(q, e)) == FrameOf(q);
  }

  lemma OneCte(name: CteName, q: Query, env: seq<Frame>, p: map<nat, Tag>)
    requires QueryScoped(q, env, p)
    ensures CtesScoped(Cte(name, q, NoCtes), env, p) && Names(Cte(name, q, NoCtes)) == {name}
  {
    assert CtesScoped(NoCtes, env, p);
  }

  lemma RightIsScoped(id: int, hasLet: bool, hasFields: bool, below: Query, pulled: Pulled, variables: Expr,
                      outer: seq<Frame>, p: map<nat, Tag>)
    requires QueryScoped(below, [], map[]) && VariablesOf(variables, p) && outer != [] && outer[0].tag == Join(id)
    ensures QueryScoped(RightQuery(id, hasLet, hasFields, below, pulled, variables), outer, p)
  {
    var right := RightQuery(id, hasLet, hasFields, below, pulled, variables);
    assert [] + outer == outer;
    QueryScopedWeaken(below, [], outer, map[], p);
    if hasFields || pulled.Match? {
      var env := [Frame(Plain, {RIGHT_CTE})] + outer;
      assert [] + env == env;
      QueryScopedWeaken(below, [], env, map[], p);
      OneCte(RIGHT_CTE, below, env, p);
      assert FrameOf(right) == env[0] && env[1] == outer[0];
      VariablesAreScoped(variables, env, p);
      assert Scoped(right.body.first, env, p);
      assert Scoped(right.body.rest.first, env, p) && Scoped(right.body.rest.rest, env, p);
    }
  }

  lemma JoinIsScoped(left: Query, id: int, hasLet: bool, right: Query, hasPostJoin: bool, variables: Expr,
                     p: map<nat, Tag>)
    requires QueryScoped(left, [], p) && VariablesOf(variables, p)
    requires QueryScoped(right, [Frame(Join(id), {LEFT_CTE})], p)
    ensures QueryScoped(JoinQuery(left, id, hasLet, right, hasPostJoin, variables), [], p)
  {
    var join := JoinQuery(left, id, hasLet, right, hasPostJoin, variables);
    var env := [Frame(Join(id), {LEFT_CTE})];
    var outer := if hasLet then variables else Const;
    QueryScopedWeaken(left, [], env, p, p);
    assert [] + env == env && env + [] == env;
    VariablesAreScoped(variables, [FrameOf(left)] + env, p);
    AppendIsScoped(left, outer, env, p);
    OneCte(LEFT_CTE, Append(left, outer), env, p);
    assert FrameOf(join) == env[0];
    VariablesAreScoped(variables, env, p);
    assert Scoped(join.body.first.first, env, p) && Scoped(join.body.first.rest, env, p);
    assert Scoped(join.body.first, env, p) && Scoped(join.body.rest, env, p);
  }

  /** What is pending inside the SubLink of a lookup: its own documents, and as variables either its
      own or, without `let`, the enclosing lookup's. */
  function Inside(id: int, hasLet: bool, p: map<nat, Tag>): map<nat, Tag> {
    var docs := map[DOCUMENTS_ATTNO := Result(id)];
    if hasLet then docs[LET_ATTNO := Result(id)]
    else if LET_ATTNO in p then docs[LET_ATTNO := p[LET_ATTNO]]
    else docs
  }

  lemma WalkedIsScoped(id: int, hasLet: bool, sub: Query, p: map<nat, Tag>)
    requires QueryScoped(sub, [], Inside(id, hasLet, p))
    ensures QueryScoped(Walked(hasLet, sub), [Frame(Result(id), {JOIN_CTE})], p)
  {
    var outer := [Frame(Result(id), {JOIN_CTE})];
    var inside := Inside(id, hasLet, p);
    assert [] + outer == outer;
    QueryScopedWeaken(sub, [], outer, inside, inside);
    QueryWalkResolves(sub, [], outer, inside, DOCUMENTS_ATTNO);
    var walked := SetQueryLevels(sub, Column(DOCUMENTS_ATTNO), 1);
    var inside' := inside - {DOCUMENTS_ATTNO};
    if hasLet {
      QueryWalkResolves(walked, [], outer, inside', LET_ATTNO);
      QueryScopedWeaken(SetQueryLevels(walked, Column(LET_ATTNO), 1), outer, [], inside' - {LET_ATTNO}, p);
    } else {
      QueryScopedWeaken(walked, outer, [], inside', p);
    }
    assert outer + [] == outer;
  }

  lemma ResultIsScoped(id: int, hasLet: bool, join: Query, sub: Query, p: map<nat, Tag>)
    requires QueryScoped(join, [], p) && QueryScoped(sub, [], Inside(id, hasLet, p))
    ensures QueryScoped(ResultQuery(id, hasLet, join, sub), [], p)
  {
    var outer := [Frame(Result(id), {JOIN_CTE})];
    var result := ResultQuery(id, hasLet, join, sub);
    assert [] + outer == outer && outer + [] == outer;
    QueryScopedWeaken(join, [], outer, p, p);
    OneCte(JOIN_CTE, join, outer, p);
    WalkedIsScoped(id, hasLet, sub, p);
    assert FrameOf(result) == outer[0];
    assert Scoped(result.body.first.first, outer, p) && Scoped(result.body.first.rest, outer, p);
    assert Scoped(result.body.first, outer, p) && Scoped(result.body.rest, outer, p);
  }

  /** Building keeps scoping, under whatever is pending outside: each lookup in turn resolves its
      own placeholders, and those of the lookups around it stay pending for their own walk. */
  lemma {:induction false} BuildIsScoped(q: Query, stages: Pipeline, variables: Expr, p: map<nat, Tag>)
    requires QueryScoped(q, [], p) && VariablesOf(variables, p)
    ensures QueryScoped(Build(q, stages, variables), [], p)
    decreases stages
  {
    match stages
    case End =>
    case Then(Project(inSubQuery, uses), rest) =>
      var q' := MigrateIf(inSubQuery, q);
      MigrateIsScoped(inSubQuery, q, p);
      VariablesAreScoped(variables, [FrameOf(q')] + [], p);
      AppendIsScoped(q', if uses then variables else Const, [], p);
      BuildIsScoped(Append(q', if uses then variables else Const), rest, variables, p);
    case Then(Lookup(inSubQuery, id, hasLet, hasFields, inlined, pulled, aggInSubQuery, postJoin), rest) =>
      var own := if hasLet then LetVar(id) else variables;
      BuildIsScoped(EMPTY, inlined, Const, map[]);
      BuildIsScoped(Query(Plain, NoCtes, Second(id)), postJoin, own, Inside(id, hasLet, p));
      var below, sub := Build(EMPTY, inlined, Const), Build(Query(Plain, NoCtes, Second(id)), postJoin, own);
      LookupIsScoped(q, stages.stage, below, sub, variables, p);
      BuildIsScoped(LookupQuery(q, stages.stage, below, sub, variables), rest, variables, p);
  }

  lemma LookupIsScoped(q: Query, stage: Stage, below: Query, sub: Query, variables: Expr, p: map<nat, Tag>)
    requires stage.Lookup? && QueryScoped(q, [], p) && VariablesOf(variables, p)
    requires QueryScoped(below, [], map[]) && QueryScoped(sub, [], Inside(stage.id, stage.hasLet, p))
    ensures QueryScoped(LookupQuery(q, stage, below, sub, variables), [], p)
  {
    var id, hasLet := stage.id, stage.hasLet;
    var right := RightQuery(id, hasLet, stage.hasFields, below, stage.pulled, variables);
    var left := MigrateIf(stage.inSubQuery, q);
    MigrateIsScoped(stage.inSubQuery, q, p);
    RightIsScoped(id, hasLet, stage.hasFields, below, stage.pulled, variables, [Frame(Join(id), {LEFT_CTE})], p);
    JoinIsScoped(left, id, hasLet, right, stage.postJoin.Then?, variables, p);
    MigrateIsScoped(stage.aggInSubQuery, sub, Inside(id, hasLet, p));
    ResultIsScoped(id, hasLet, JoinQuery(left, id, hasLet, right, stage.postJoin.Then?, variables),
                   MigrateIf(stage.aggInSubQuery, sub), p);
  }

  /* ---------- which references there are ---------- */

  /** What a reference means: a column of a query, or a CTE bound `up` queries out. */
  datatype Meaning = ColumnOf(attno: nat, owner: Tag) | ScanOf(name: CteName, up: nat) | Unresolved

  /** The references of a tree, in tree order, each resolved by its level alone. */
  function Resolved(e: Expr, env: seq<Frame>): seq<Meaning> {
    match e
    case Const => []
    case Ref(Var(attno, _), Up(n)) => [if n < |env| then ColumnOf(attno, env[n].tag) else Unresolved]
    case Ref(CteScan(name), Up(n)) => [if n < |env| && name in env[n].names then ScanOf(name, n) else Unresolved]
    case Ref(_, Placeholder) => [Unresolved]
    case Args(f, r) => Resolved(f, env) + Resolved(r, env)
    case Sub(q) => QueryResolved(q, env)
  }

  function QueryResolved(q: Query, env: seq<Frame>): seq<Meaning> {
    CtesResolved(q.ctes, [FrameOf(q)] + env) + Resolved(q.body, [FrameOf(q)] + env)
  }

  function CtesResolved(c: Ctes, env: seq<Frame>): seq<Meaning> {
    match c
    case NoCtes => []
    case Cte(_, q, rest) => QueryResolved(q, env) + CtesResolved(rest, env)
  }

  /** Column 3 of the nearest enclosing lookup with `let`. */
  function Variables(scope: Option<Tag>): seq<Meaning> {
    if scope.Some? then [ColumnOf(3, scope.value)] else []
  }

  /** What the right query reads: its CTE; what the left query extracted for the join, which comes behind the
      variables if there are any; and for the `$match` the variables. */
  function ExpectedRight(id: int, hasLet: bool, hasFields: bool, pulled: Pulled, scope: Option<Tag>): seq<Meaning> {
    if !hasFields && pulled.NoMatch? then []
    else
      [ScanOf(Named("lookup_right_query"), 0)]
      + (if !hasFields then [] else if hasLet then [ColumnOf(3, Join(id))] else [ColumnOf(2, Join(id))])
      + if pulled == NoMatch || pulled == Match(false) then []
        else if hasLet then [ColumnOf(2, Join(id))]
        else Variables(scope)
  }

  /** The references there should be, from those of the query so far and the pipeline alone. `scope` is the
      nearest enclosing lookup with `let`. */
  function Expected(before: seq<Meaning>, stages: Pipeline, scope: Option<Tag>): seq<Meaning>
    decreases stages
  {
    match stages
    case End => before
    case Then(Project(inSubQuery, uses), rest) =>
      Expected((if inSubQuery then [ColumnOf(1, Plain)] else []) + before + if uses then Variables(scope) else [],
               rest, scope)
    case Then(Lookup(inSubQuery, id, hasLet, hasFields, inlined, pulled, aggInSubQuery, postJoin), rest) =>
      var below := Expected([], inlined, None);
      var sub := Expected([ColumnOf(2, Result(id))], postJoin, if hasLet then Some(Result(id)) else scope);
      Expected(ExpectedLookup(before, stages.stage, below, sub, scope), rest, scope)
  }

  function ExpectedLookup(before: seq<Meaning>, stage: Stage, below: seq<Meaning>, sub: seq<Meaning>,
                          scope: Option<Tag>): seq<Meaning>
    requires stage.Lookup?
  {
    var left := (if stage.inSubQuery then [ColumnOf(1, Plain)] else []) + before;
    var right := below + ExpectedRight(stage.id, stage.hasLet, stage.hasFields, stage.pulled, scope);
    if stage.postJoin.End? then ExpectedJoin(left, stage.hasLet, right, false, scope)
    else
      ExpectedJoin(left, stage.hasLet, right, true, scope)
      + [ScanOf(Named("lookup_join_cte"), 0), ColumnOf(1, Result(stage.id))]
      + ((if stage.aggInSubQuery then [ColumnOf(1, Plain)] else []) + sub)
  }

  /** With `let` the enclosing variables are read for the left query, and again for what runs after the join. */
  function ExpectedJoin(left: seq<Meaning>, hasLet: bool, right: seq<Meaning>, hasPostJoin: bool, scope: Option<Tag>)
    : seq<Meaning>
  {
    left + (if hasLet then Variables(scope) else []) + [ScanOf(Named("lookupLeftCte"), 0)] + right
    + if hasLet && hasPostJoin then Variables(scope) else []
  }

  /** The references by the owners they were made for, whatever their levels. */
  function Labels(e: Expr): seq<Meaning> {
    match e
    case Const => []
    case Ref(Var(attno, owner), _) => [ColumnOf(attno, owner)]
    case Ref(CteScan(name), Up(n)) => [ScanOf(name, n)]
    case Ref(CteScan(_), Placeholder) => [Unresolved]
    case Args(f, r) => Labels(f) + Labels(r)
    case Sub(q) => QueryLabels(q)
  }

  function QueryLabels(q: Query): seq<Meaning> {
    CtesLabels(q.ctes) + Labels(q.body)
  }

  function CtesLabels(c: Ctes): seq<Meaning> {
    match c
    case NoCtes => []
    case Cte(_, q, rest) => QueryLabels(q) + CtesLabels(rest)
  }

  lemma {:induction false} ScopedIsLabelled(e: Expr, env: seq<Frame>)
    requires Scoped(e, env, map[])
    ensures Resolved(e, env) == Labels(e)
  {
    match e
    case Args(f, r) =>
      ScopedIsLabelled(f, env);
      ScopedIsLabelled(r, env);
    case Sub(q) => QueryIsLabelled(q, env);
    case _ =>
  }

  lemma {:induction false} QueryIsLabelled(q: Query, env: seq<Frame>)
    requires QueryScoped(q, env, map[])
    ensures QueryResolved(q, env) == QueryLabels(q)
  {
    CtesAreLabelled(q.ctes, [FrameOf(q)] + env);
    ScopedIsLabelled(q.body, [FrameOf(q)] + env);
  }

  lemma {:induction false} CtesAreLabelled(c: Ctes, env: seq<Frame>)
    requires CtesScoped(c, env, map[])
    ensures CtesResolved(c, env) == CtesLabels(c)
  {
    match c
    case NoCtes =>
    case Cte(_, q, rest) =>
      QueryIsLabelled(q, env);
      CtesAreLabelled(rest, env);
  }

  lemma {:induction false} LabelsStay(e: Expr, attno: nat, k: nat)
    ensures Labels(SetLevels(e, Column(attno), k)) == Labels(e)
  {
    match e
    case Args(f, r) =>
      LabelsStay(f, attno, k);
      LabelsStay(r, attno, k);
    case Sub(q) => QueryLabelsStay(q, attno, k + 1);
    case _ =>
  }

  lemma {:induction false} QueryLabelsStay(q: Query, attno: nat, k: nat)
    ensures QueryLabels(SetQueryLevels(q, Column(attno), k)) == QueryLabels(q)
  {
    CtesLabelsStay(q.ctes, attno, k + 1);
    LabelsStay(q.body, attno, k);
  }

  lemma {:induction false} CtesLabelsStay(c: Ctes, attno: nat, k: nat)
    ensures CtesLabels(SetCteLevels(c, Column(attno), k)) == CtesLabels(c)
  {
    match c
    case NoCtes =>
    case Cte(_, q, rest) =>
      QueryLabelsStay(q, attno, k);
      CtesLabelsStay(rest, attno, k);
  }

  lemma MigrateLabels(b: bool, q: Query)
    ensures QueryLabels(MigrateIf(b, q)) == (if b then [ColumnOf(1, Plain)] else []) + QueryLabels(q)
  {
    if b {
      assert Labels(Migrate(q).body) == Labels(Ref(Var(1, Plain), Up(0))) + Labels(Sub(q));
    }
  }

  lemma AppendLabels(q: Query, e: Expr)
    ensures QueryLabels(Append(q, e)) == QueryLabels(q) + Labels(e)
  {
  }

  lemma RightLabels(id: int, hasLet: bool, hasFields: bool, below: Query, pulled: Pulled, variables: Expr,
                    scope: Option<Tag>)
    requires Labels(variables) == Variables(scope)
    ensures QueryLabels(RightQuery(id, hasLet, hasFields, below, pulled, variables))
            == QueryLabels(below) + ExpectedRight(id, hasLet, hasFields, pulled, scope)
  {
    var right := RightQuery(id, hasLet, hasFields, below, pulled, variables);
    if hasFields || pulled.Match? {
      assert CtesLabels(right.ctes) == QueryLabels(below) + CtesLabels(NoCtes);
      var body := right.body;
      assert Labels(body) == Labels(body.first) + (Labels(body.rest.first) + Labels(body.rest.rest));
    }
  }

  lemma JoinLabels(left: Query, id: int, hasLet: bool, right: Query, hasPostJoin: bool, variables: Expr,
                   scope: Option<Tag>)
    requires Labels(variables) == Variables(scope)
    ensures QueryLabels(JoinQuery(left, id, hasLet, right, hasPostJoin, variables))
            == ExpectedJoin(QueryLabels(left), hasLet, QueryLabels(right), hasPostJoin, scope)
  {
    var join := JoinQuery(left, id, hasLet, right, hasPostJoin, variables);
    AppendLabels(left, if hasLet then variables else Const);
    var l := QueryLabels(left) + if hasLet then Variables(scope) else [];
    assert CtesLabels(join.ctes) == l + CtesLabels(NoCtes) == l;
    var scan, r := [ScanOf(LEFT_CTE, 0)], QueryLabels(right);
    var post := if hasLet && hasPostJoin then Variables(scope) else [];
    assert Labels(join.body.first) == scan + r;
    assert Labels(join.body) == (scan + r) + post;
    assert l + ((scan + r) + post) == l + scan + r + post;
  }

  lemma ResultLabels(id: int, hasLet: bool, join: Query, sub: Query)
    ensures QueryLabels(ResultQuery(id, hasLet, join, sub))
            == QueryLabels(join) + [ScanOf(Named("lookup_join_cte"), 0), ColumnOf(1, Result(id))] + QueryLabels(sub)
  {
    var result := ResultQuery(id, hasLet, join, sub);
    QueryLabelsStay(sub, DOCUMENTS_ATTNO, 1);
    QueryLabelsStay(SetQueryLevels(sub, Column(DOCUMENTS_ATTNO), 1), LET_ATTNO, 1);
    assert CtesLabels(result.ctes) == QueryLabels(join) + CtesLabels(NoCtes);
    assert Labels(result.body) == Labels(result.body.first) + QueryLabels(Walked(hasLet, sub));
  }

  lemma LookupLabels(q: Query, stage: Stage, below: Query, sub: Query, variables: Expr, scope: Option<Tag>)
    requires stage.Lookup? && Labels(variables) == Variables(scope)
    ensures QueryLabels(LookupQuery(q, stage, below, sub, variables))
            == ExpectedLookup(QueryLabels(q), stage, QueryLabels(below), QueryLabels(sub), scope)
  {
    var id, hasLet, left := stage.id, stage.hasLet, MigrateIf(stage.inSubQuery, q);
    var right := RightQuery(id, hasLet, stage.hasFields, below, stage.pulled, variables);
    MigrateLabels(stage.inSubQuery, q);
    RightLabels(id, hasLet, stage.hasFields, below, stage.pulled, variables, scope);
    JoinLabels(left, id, hasLet, right, stage.postJoin.Then?, variables, scope);
    MigrateLabels(stage.aggInSubQuery, sub);
    ResultLabels(id, hasLet, JoinQuery(left, id, hasLet, right, stage.postJoin.Then?, variables),
                 MigrateIf(stage.aggInSubQuery, sub));
  }

  lemma {:induction false} BuildLabels(q: Query, stages: Pipeline, variables: Expr, scope: Option<Tag>)
    requires Labels(variables) == Variables(scope)
    ensures QueryLabels(Build(q, stages, variables)) == Expected(QueryLabels(q), stages, scope)
    decreases stages
  {
    match stages
    case End =>
    case Then(Project(inSubQuery, uses), rest) =>
      var added := if uses then variables else Const;
      MigrateLabels(inSubQuery, q);
      AppendLabels(MigrateIf(inSubQuery, q), added);
      BuildLabels(Append(MigrateIf(inSubQuery, q), added), rest, variables, scope);
    case Then(Lookup(_, id, hasLet, _, inlined, _, _, postJoin), rest) =>
      var own, inner := if hasLet then LetVar(id) else variables, if hasLet then Some(Result(id)) else scope;
      var first := Query(Plain, NoCtes, Second(id));
      BuildLabels(EMPTY, inlined, Const, None);
      BuildLabels(first, postJoin, own, inner);
      assert QueryLabels(EMPTY) == [] && QueryLabels(first) == [ColumnOf(2, Result(id))];
      var below, sub := Build(EMPTY, inlined, Const), Build(first, postJoin, own);
      LookupLabels(q, stages.stage, below, sub, variables, scope);
      BuildLabels(LookupQuery(q, stages.stage, below, sub, variables), rest, variables, scope);
  }

  /** For every pipeline, with lookups nested to any depth, with and without `let`: in the finished
      tree no placeholder is left, and its references, each resolved by its level, are exactly the expected
      ones, in order: every `$match` and stage that uses variables reads those of the nearest lookup with
      `let`, every post-join pipeline the documents of its own lookup. */
  lemma EveryReferenceFindsItsLookup(base: Query, stages: Pipeline)
    requires QueryScoped(base, [], map[])
    ensures QueryScoped(Build(base, stages, Const), [], map[])
    ensures QueryResolved(Build(base, stages, Const), []) == Expected(QueryResolved(base, []), stages, None)
  {
    BuildIsScoped(base, stages, Const, map[]);
    QueryIsLabelled(base, []);
    QueryIsLabelled(Build(base, stages, Const), []);
    BuildLabels(base, stages, Const, None);
  }

  /** The walks have to run inside-out. The outer walk, run while an inner lookup's column 2 is still a
      placeholder, captures it: it is levelled to the outer lookup's result query. */
  lemma OuterWalkCaptures(inner: int, outer: int)
    requires inner != outer
    ensures
      var lookup := Query(Result(inner), NoCtes, Sub(Query(Plain, NoCtes, Second(inner))));
      var unresolved := Query(Plain, NoCtes, Sub(lookup));
      var around := [Frame(Result(outer), {})];
      && QueryScoped(unresolved, around, map[DOCUMENTS_ATTNO := Result(inner)])
      && !QueryScoped(SetQueryLevels(unresolved, Column(DOCUMENTS_ATTNO), 1), around, map[])
  {
    var deep := Query(Plain, NoCtes, Second(inner));
    var mid := Query(Result(inner), NoCtes, Sub(deep));
    var pending := map[DOCUMENTS_ATTNO := Result(inner)];
    var t := Column(DOCUMENTS_ATTNO);
    var e1 := [Frame(Plain, {})] + [Frame(Result(outer), {})];
    var e2 := [Frame(Result(inner), {})] + e1;
    assert Scoped(Second(inner), [Frame(Plain, {})] + e2, pending);
    assert QueryScoped(deep, e2, pending);
    assert Scoped(Sub(deep), e2, pending);
    assert QueryScoped(mid, e1, pending);
    assert Scoped(Sub(mid), e1, pending);
    assert SetQueryLevels(deep, t, 3) == Query(Plain, NoCtes, Ref(Var(DOCUMENTS_ATTNO, Result(inner)), Up(3)));
    assert ([Frame(Plain, {})] + e2)[3].tag == Result(outer);
    assert !QueryScoped(SetQueryLevels(deep, t, 3), e2, map[]);
    assert !QueryScoped(SetQueryLevels(mid, t, 2), e1, map[]);
  }
}
