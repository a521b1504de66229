/** A small query language with common table expressions, its meaning, and the
    renaming walk over its trees. */
module QuerySemantics {
  import opened Basics

  type Row = nat
  type Rows = seq<Row>

  /** An item of a FROM clause, or the subquery of a condition. */
  datatype Input =
    | Table(schema: Option<string>, relname: string, alias: Option<string>)
    | Sub(query: Query, visible: string)

  datatype Cte = Cte(name: string, query: Query)

  /** Star is SELECT *, ZeroColumns is SELECT without targets, StarUnlessExists is
      SELECT * with WHERE NOT EXISTS over its second input; any other select list
      and condition is an Other, given by the database. */
  datatype Operator = Star | ZeroColumns | StarUnlessExists | Other(id: nat)

  datatype Query =
    | Select(ctes: seq<Cte>, op: Operator, inputs: seq<Input>)
    | UnionAll(ctes: seq<Cte>, left: Query, right: Query)

  /** Rows under the name by which column references see them. */
  datatype Binding = Binding(visible: string, rows: Rows)

  type Env = map<string, Rows>

  datatype Db = Db(qualified: map<(string, string), Rows>, other: (nat, seq<Binding>) -> Rows)

  function Lookup(env: Env, name: string): Rows {
    if name in env then env[name] else []
  }

  function Apply(db: Db, op: Operator, bs: seq<Binding>): Rows {
    match op
    case Star => if |bs| == 1 then bs[0].rows else []
    case ZeroColumns => if |bs| == 1 then bs[0].rows else []
    case StarUnlessExists => if |bs| == 2 && bs[1].rows == [] then bs[0].rows else []
    case Other(id) => db.other(id, bs)
  }

  /** A CTE sees the ones before it and hides relations of the same name. */
  function Eval(db: Db, env: Env, q: Query): Rows
    decreases q, 1
  {
    var inner := EvalCtes(db, env, q.ctes);
    match q
    case Select(_, op, inputs) => Apply(db, op, EvalInputs(db, inner, inputs))
    case UnionAll(_, left, right) => Eval(db, inner, left) + Eval(db, inner, right)
  }

  function EvalCtes(db: Db, env: Env, ctes: seq<Cte>): Env
    decreases ctes, 0
  {
    if ctes == [] then env
    else EvalCtes(db, env[ctes[0].name := Eval(db, env, ctes[0].query)], ctes[1..])
  }

  function EvalInput(db: Db, env: Env, x: Input): Binding
    decreases x, 0
  {
    match x
    case Table(schema, relname, alias) =>
      Binding(if alias.Some? then alias.value else relname,
              if schema.None? then Lookup(env, relname)
              else if (schema.value, relname) in db.qualified then db.qualified[(schema.value, relname)] else [])
    case Sub(query, visible) => Binding(visible, Eval(db, env, query))
  }

  function EvalInputs(db: Db, env: Env, xs: seq<Input>): seq<Binding>
    decreases xs, 0
  {
    if xs == [] then [] else [EvalInput(db, env, xs[0])] + EvalInputs(db, env, xs[1..])
  }

  // ---- what a query mentions ----

  /** All relation references of a query, at any depth. */
  function Refs(q: Query): set<Input>
    decreases q, 1
  {
    RefsOfCtes(q.ctes) +
    match q
    case Select(_, _, inputs) => RefsOfInputs(inputs)
    case UnionAll(_, left, right) => Refs(left) + Refs(right)
  }

  function RefsOfCtes(ctes: seq<Cte>): set<Input>
    decreases ctes, 0
  {
    if ctes == [] then {} else Refs(ctes[0].query) + RefsOfCtes(ctes[1..])
  }

  function RefsOfInputs(xs: seq<Input>): set<Input>
    decreases xs, 0
  {
    if xs == [] then {}
    else (match xs[0]
          case Table(_, _, _) => {xs[0]}
          case Sub(query, _) => Refs(query)) + RefsOfInputs(xs[1..])
  }

  /** All CTE names bound in a query, at any depth. */
  function Binders(q: Query): set<string>
    decreases q, 1
  {
    BindersOfCtes(q.ctes) +
    match q
    case Select(_, _, inputs) => BindersOfInputs(inputs)
    case UnionAll(_, left, right) => Binders(left) + Binders(right)
  }

  function BindersOfCtes(ctes: seq<Cte>): set<string>
    decreases ctes, 0
  {
    if ctes == [] then {} else {ctes[0].name} + Binders(ctes[0].query) + BindersOfCtes(ctes[1..])
  }

  function BindersOfInputs(xs: seq<Input>): set<string>
    decreases xs, 0
  {
    if xs == [] then {}
    else (match xs[0]
          case Table(_, _, _) => {}
          case Sub(query, _) => Binders(query)) + BindersOfInputs(xs[1..])
  }

  // ---- renaming ----

  /** Equal length and equal letters up to case. */
  predicate SameName(a: string, b: string) {
    |a| == |b| && forall i | 0 <= i < |a| :: Lower(a[i]) == Lower(b[i])
  }

  /** Names are taken for the same exactly when they differ in the case of letters at most. */
  lemma SameNameIff(a: string, b: string)
    ensures SameName(a, b) <==>
            |a| == |b| && forall i | 0 <= i < |a| :: a[i] == b[i] || CaseForms(a[i], b[i]) || CaseForms(b[i], a[i])
  {
    if |a| == |b| {
      forall i | 0 <= i < |a|
        ensures Lower(a[i]) == Lower(b[i]) <==> a[i] == b[i] || CaseForms(a[i], b[i]) || CaseForms(b[i], a[i])
      {
        LowerIff(a[i], b[i]);
      }
    }
  }

  /** The walk renames every relation reference with the name, whatever its
      schema, and makes the old name its alias, whatever alias it had. */
  function RenameRef(x: Input, from: string, to: string): Input
    requires x.Table?
  {
    if SameName(x.relname, from) then Table(x.schema, to, Some(from)) else x
  }

  function Rename(q: Query, from: string, to: string): Query
    decreases q, 1
  {
    match q
    case Select(ctes, op, inputs) => Select(RenameCtes(ctes, from, to), op, RenameInputs(inputs, from, to))
    case UnionAll(ctes, left, right) =>
      UnionAll(RenameCtes(ctes, from, to), Rename(left, from, to), Rename(right, from, to))
  }

  function RenameCtes(ctes: seq<Cte>, from: string, to: string): (r: seq<Cte>)
    ensures |r| == |ctes|
    decreases ctes, 0
  {
    if ctes == [] then []
    else [Cte(ctes[0].name, Rename(ctes[0].query, from, to))] + RenameCtes(ctes[1..], from, to)
  }

  function RenameInput(x: Input, from: string, to: string): Input
    decreases x, 0
  {
    match x
    case Table(_, _, _) => RenameRef(x, from, to)
    case Sub(query, visible) => Sub(Rename(query, from, to), visible)
  }

  function RenameInputs(xs: seq<Input>, from: string, to: string): seq<Input>
    decreases xs, 0
  {
    if xs == [] then [] else [RenameInput(xs[0], from, to)] + RenameInputs(xs[1..], from, to)
  }

  // ---- renaming is invisible when the name is used cleanly ----

  /** References to `from` are unqualified, spelled alike and not aliased to another
      name, and `to` is not used. */
  ghost predicate CleanRef(x: Input, from: string, to: string) {
    x.Table? ==>
      && (SameName(x.relname, from) ==> x.schema.None? && x.relname == from && (x.alias.None? || x.alias.value == from))
      && (x.schema.None? ==> x.relname != to)
  }

  ghost predicate CleanRefs(refs: set<Input>, from: string, to: string) {
    forall x | x in refs :: CleanRef(x, from, to)
  }

  /** The environments agree but for `from`, whose rows are now under `to`. */
  ghost predicate Shifted(env: Env, env': Env, from: string, to: string) {
    && Lookup(env, from) == Lookup(env', to)
    && forall r | r != from && r != to :: Lookup(env, r) == Lookup(env', r)
  }

  /** What a reference denotes, and under which visible name. */
  ghost function Seen(qualified: map<(string, string), Rows>, env: Env, x: Input): Binding {
    EvalInput(Db(qualified, (id: nat, bs: seq<Binding>) => []), env, x)
  }

  /** Whatever the relations hold, the renamed reference denotes what the original did. */
  ghost predicate RenamingInvisible(x: Input, from: string, to: string)
    requires x.Table?
  {
    forall qualified, env, env' {:trigger Seen(qualified, env, x), Shifted(env, env', from, to)} |
      Shifted(env, env', from, to) :: Seen(qualified, env, x) == Seen(qualified, env', RenameRef(x, from, to))
  }

  /** Renaming one reference is invisible exactly when the reference is clean. */
  lemma RenamingInvisibleIff(x: Input, from: string, to: string)
    requires x.Table? && !SameName(from, to)
    ensures RenamingInvisible(x, from, to) <==> CleanRef(x, from, to)
  {
    if RenamingInvisible(x, from, to) {
      var row: Rows := [1];
      var qualified := if x.schema.Some? then map[(x.schema.value, x.relname) := row] else map[];
      var env: Env := map[x.relname := row];
      var env': Env := if x.relname == to then map[] else if x.relname == from then map[to := row] else env;
      assert Shifted(env, env', from, to);
      assert Seen(qualified, env, x) == Seen(qualified, env', RenameRef(x, from, to));
    }
  }

  /** A reference to a CTE under an alias of its own shows up under the CTE's name
      after the renaming, whatever the new name. */
  lemma AliasIsOverwritten(to: string)
    requires |to| > 1
    ensures !RenamingInvisible(Table(None, "c", Some("x")), "c", to)
  {
    RenamingInvisibleIff(Table(None, "c", Some("x")), "c", to);
  }

  /** A query that nowhere rebinds either name means the same after its
      references are renamed along with the environment. */
  lemma {:induction false} RenameKeepsMeaning(db: Db, env: Env, env': Env, q: Query, from: string, to: string)
    requires Shifted(env, env', from, to)
    requires CleanRefs(Refs(q), from, to) && from !in Binders(q) && to !in Binders(q)
    ensures Eval(db, env, q) == Eval(db, env', Rename(q, from, to))
    decreases q, 1
  {
    RenameCtesShifts(db, env, env', q.ctes, from, to);
    var inner, inner' := EvalCtes(db, env, q.ctes), EvalCtes(db, env', RenameCtes(q.ctes, from, to));
    match q {
      case Select(_, _, inputs) => RenameKeepsInputs(db, inner, inner', inputs, from, to);
      case UnionAll(_, left, right) =>
        RenameKeepsMeaning(db, inner, inner', left, from, to);
        RenameKeepsMeaning(db, inner, inner', right, from, to);
    }
  }

  lemma {:induction false} RenameCtesShifts(db: Db, env: Env, env': Env, ctes: seq<Cte>, from: string, to: string)
    requires Shifted(env, env', from, to)
    requires CleanRefs(RefsOfCtes(ctes), from, to) && from !in BindersOfCtes(ctes) && to !in BindersOfCtes(ctes)
    ensures Shifted(EvalCtes(db, env, ctes), EvalCtes(db, env', RenameCtes(ctes, from, to)), from, to)
    decreases ctes, 0
  {
    if ctes != [] {
      var c := ctes[0];
      RenameKeepsMeaning(db, env, env', c.query, from, to);
      var next, next' := env[c.name := Eval(db, env, c.query)], env'[c.name := Eval(db, env, c.query)];
      forall r | r != from && r != to ensures Lookup(next, r) == Lookup(next', r) {
        assert Lookup(env, r) == Lookup(env', r);
      }
      RenameCtesShifts(db, next, next', ctes[1..], from, to);
    }
  }

  lemma {:induction false} RenameKeepsInputs(db: Db, env: Env, env': Env, xs: seq<Input>, from: string, to: string)
    requires Shifted(env, env', from, to)
    requires CleanRefs(RefsOfInputs(xs), from, to) && from !in BindersOfInputs(xs) && to !in BindersOfInputs(xs)
    ensures EvalInputs(db, env, xs) == EvalInputs(db, env', RenameInputs(xs, from, to))
    decreases xs, 0
  {
    if xs != [] {
      match xs[0] {
        case Table(_, _, _) => assert CleanRef(xs[0], from, to);
        case Sub(query, _) => RenameKeepsMeaning(db, env, env', query, from, to);
      }
      assert EvalInput(db, env, xs[0]) == EvalInput(db, env', RenameInput(xs[0], from, to));
      RenameKeepsInputs(db, env, env', xs[1..], from, to);
    }
  }

  // ---- names a query does not mention do not matter ----

  ghost predicate AgreeOutside(env: Env, env': Env, hidden: set<string>) {
    forall r | r !in hidden :: Lookup(env, r) == Lookup(env', r)
  }

  ghost predicate Avoids(refs: set<Input>, hidden: set<string>) {
    forall x | x in refs && x.Table? && x.schema.None? :: x.relname !in hidden
  }

  lemma {:induction false} HiddenNamesDoNotMatter(db: Db, env: Env, env': Env, q: Query, hidden: set<string>)
    requires AgreeOutside(env, env', hidden) && Avoids(Refs(q), hidden)
    ensures Eval(db, env, q) == Eval(db, env', q)
    decreases q, 1
  {
    HiddenNamesStayHidden(db, env, env', q.ctes, hidden);
    var inner, inner' := EvalCtes(db, env, q.ctes), EvalCtes(db, env', q.ctes);
    match q {
      case Select(_, _, inputs) => HiddenNamesInputs(db, inner, inner', inputs, hidden);
      case UnionAll(_, left, right) =>
        HiddenNamesDoNotMatter(db, inner, inner', left, hidden);
        HiddenNamesDoNotMatter(db, inner, inner', right, hidden);
    }
  }

  lemma {:induction false} HiddenNamesStayHidden(db: Db, env: Env, env': Env, ctes: seq<Cte>, hidden: set<string>)
    requires AgreeOutside(env, env', hidden) && Avoids(RefsOfCtes(ctes), hidden)
    ensures AgreeOutside(EvalCtes(db, env, ctes), EvalCtes(db, env', ctes), hidden)
    decreases ctes, 0
  {
    if ctes != [] {
      var c := ctes[0];
      HiddenNamesDoNotMatter(db, env, env', c.query, hidden);
      HiddenNamesStayHidden(db, env[c.name := Eval(db, env, c.query)], env'[c.name := Eval(db, env', c.query)], ctes[1..], hidden);
    }
  }

  lemma {:induction false} HiddenNamesInputs(db: Db, env: Env, env': Env, xs: seq<Input>, hidden: set<string>)
    requires AgreeOutside(env, env', hidden) && Avoids(RefsOfInputs(xs), hidden)
    ensures EvalInputs(db, env, xs) == EvalInputs(db, env', xs)
    decreases xs, 0
  {
    if xs != [] {
      match xs[0] {
        case Table(_, _, _) => assert xs[0] in RefsOfInputs(xs);
        case Sub(query, _) => HiddenNamesDoNotMatter(db, env, env', query, hidden);
      }
      HiddenNamesInputs(db, env, env', xs[1..], hidden);
    }
  }

  // ---- lists of CTEs ----

  lemma {:induction false} EvalCtesConcat(db: Db, env: Env, a: seq<Cte>, b: seq<Cte>)
    ensures EvalCtes(db, env, a + b) == EvalCtes(db, EvalCtes(db, env, a), b)
    decreases |a|
  {
    if a == [] {
      assert a + b == b;
    } else {
      assert (a + b)[1..] == a[1..] + b && (a + b)[0] == a[0];
      EvalCtesConcat(db, env[a[0].name := Eval(db, env, a[0].query)], a[1..], b);
    }
  }

  /** Evaluating CTEs changes only the names they bind. */
  lemma {:induction false} EvalCtesFrame(db: Db, env: Env, ctes: seq<Cte>, r: string)
    requires forall c | c in ctes :: c.name != r
    ensures Lookup(EvalCtes(db, env, ctes), r) == Lookup(env, r)
    decreases |ctes|
  {
    if ctes != [] {
      assert ctes[0] in ctes && forall c | c in ctes[1..] :: c in ctes;
      EvalCtesFrame(db, env[ctes[0].name := Eval(db, env, ctes[0].query)], ctes[1..], r);
    }
  }

  lemma {:induction false} RefsOfCtesConcat(a: seq<Cte>, b: seq<Cte>)
    ensures RefsOfCtes(a + b) == RefsOfCtes(a) + RefsOfCtes(b)
    ensures BindersOfCtes(a + b) == BindersOfCtes(a) + BindersOfCtes(b)
    decreases |a|
  {
    if a == [] {
      assert a + b == b;
    } else {
      assert (a + b)[1..] == a[1..] + b;
      RefsOfCtesConcat(a[1..], b);
    }
  }

  lemma {:induction false} RefsOfCtesElements(ctes: seq<Cte>, x: Input)
    ensures x in RefsOfCtes(ctes) <==> exists k :: 0 <= k < |ctes| && x in Refs(ctes[k].query)
    decreases |ctes|
  {
    if ctes != [] {
      RefsOfCtesElements(ctes[1..], x);
      if x in RefsOfCtes(ctes[1..]) {
        var k :| 0 <= k < |ctes[1..]| && x in Refs(ctes[1..][k].query);
        assert x in Refs(ctes[k + 1].query);
      }
      if k :| 0 < k < |ctes| && x in Refs(ctes[k].query) {
        assert ctes[1..][k - 1] == ctes[k];
      }
    }
  }

  /** Neither the CTE itself nor anything inside its query is called x. */
  ghost predicate NotBound(c: Cte, x: string) {
    c.name != x && x !in Binders(c.query)
  }

  lemma {:induction false} BindersOfCtesElements(ctes: seq<Cte>, x: string)
    ensures x !in BindersOfCtes(ctes) <==> forall k | 0 <= k < |ctes| :: NotBound(ctes[k], x)
    decreases |ctes|
  {
    if ctes != [] {
      BindersOfCtesElements(ctes[1..], x);
      if x !in BindersOfCtes(ctes) {
        forall k | 0 <= k < |ctes| ensures NotBound(ctes[k], x) {
          if k > 0 {
            assert NotBound(ctes[1..][k - 1], x);
          }
        }
      } else if forall k | 0 <= k < |ctes| :: NotBound(ctes[k], x) {
        forall k | 0 <= k < |ctes[1..]| ensures NotBound(ctes[1..][k], x) {
          assert NotBound(ctes[k + 1], x);
        }
      }
    }
  }

  lemma {:induction false} RenameCtesElements(ctes: seq<Cte>, from: string, to: string)
    ensures forall k | 0 <= k < |ctes| ::
              RenameCtes(ctes, from, to)[k] == Cte(ctes[k].name, Rename(ctes[k].query, from, to))
    decreases |ctes|
  {
    if ctes != [] {
      RenameCtesElements(ctes[1..], from, to);
    }
  }

  /** Renaming a name that is not mentioned changes nothing. */
  lemma {:induction false} RenameUnmentioned(q: Query, from: string, to: string)
    requires forall x | x in Refs(q) && x.Table? :: !SameName(x.relname, from)
    ensures Rename(q, from, to) == q
    decreases q, 1
  {
    RenameUnmentionedCtes(q.ctes, from, to);
    match q {
      case Select(_, _, inputs) => RenameUnmentionedInputs(inputs, from, to);
      case UnionAll(_, left, right) =>
        RenameUnmentioned(left, from, to);
        RenameUnmentioned(right, from, to);
    }
  }

  lemma {:induction false} RenameUnmentionedCtes(ctes: seq<Cte>, from: string, to: string)
    requires forall x | x in RefsOfCtes(ctes) && x.Table? :: !SameName(x.relname, from)
    ensures RenameCtes(ctes, from, to) == ctes
    decreases ctes, 0
  {
    if ctes != [] {
      RenameUnmentioned(ctes[0].query, from, to);
      RenameUnmentionedCtes(ctes[1..], from, to);
    }
  }

  lemma {:induction false} RenameUnmentionedInputs(xs: seq<Input>, from: string, to: string)
    requires forall x | x in RefsOfInputs(xs) && x.Table? :: !SameName(x.relname, from)
    ensures RenameInputs(xs, from, to) == xs
    decreases xs, 0
  {
    if xs != [] {
      match xs[0] {
        case Table(_, _, _) => assert xs[0] in RefsOfInputs(xs);
        case Sub(query, _) => RenameUnmentioned(query, from, to);
      }
      RenameUnmentionedInputs(xs[1..], from, to);
    }
  }

  /** The references of a renamed query are the renamed references; no binder changes. */
  ghost predicate RenamedRefs(refs: set<Input>, refs': set<Input>, from: string, to: string) {
    forall y | y in refs' :: exists x :: x in refs && x.Table? && y == RenameRef(x, from, to)
  }

  lemma {:induction false} RenameRefs(q: Query, from: string, to: string)
    ensures RenamedRefs(Refs(q), Refs(Rename(q, from, to)), from, to)
    ensures Binders(Rename(q, from, to)) == Binders(q)
    decreases q, 1
  {
    RenameRefsCtes(q.ctes, from, to);
    match q {
      case Select(_, _, inputs) => RenameRefsInputs(inputs, from, to);
      case UnionAll(_, left, right) =>
        RenameRefs(left, from, to);
        RenameRefs(right, from, to);
    }
  }

  lemma {:induction false} RenameRefsCtes(ctes: seq<Cte>, from: string, to: string)
    ensures RenamedRefs(RefsOfCtes(ctes), RefsOfCtes(RenameCtes(ctes, from, to)), from, to)
    ensures BindersOfCtes(RenameCtes(ctes, from, to)) == BindersOfCtes(ctes)
    decreases ctes, 0
  {
    if ctes != [] {
      RenameRefs(ctes[0].query, from, to);
      RenameRefsCtes(ctes[1..], from, to);
      assert RenameCtes(ctes, from, to)[1..] == RenameCtes(ctes[1..], from, to);
    }
  }

  lemma {:induction false} RenameRefsInputs(xs: seq<Input>, from: string, to: string)
    ensures RenamedRefs(RefsOfInputs(xs), RefsOfInputs(RenameInputs(xs, from, to)), from, to)
    ensures BindersOfInputs(RenameInputs(xs, from, to)) == BindersOfInputs(xs)
    decreases xs, 0
  {
    if xs != [] {
      match xs[0] {
        case Table(_, _, _) =>
        case Sub(query, _) => RenameRefs(query, from, to);
      }
      RenameRefsInputs(xs[1..], from, to);
      assert RenameInputs(xs, from, to)[1..] == RenameInputs(xs[1..], from, to);
    }
  }
}
