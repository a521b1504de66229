/** Building one query out of named member queries, so that each member after the
    first contributes rows only when the member before it has none. */
module CascadingQuery {
  import opened Basics
  import opened QuerySemantics

  datatype Member = Member(name: string, query: Query)

  // ---- hoisting a member's CTEs under new names ----

  function Prefixed(name: string, cte: string): string {
    "__omni_httpd_" + name + "_" + cte
  }

  /** One turn of the renaming loop: CTE i gets its new name and every reference
      to the old one, in all CTEs and in the body, is redirected. */
  function RenamedAt(q: Query, name: string, i: nat): (r: Query)
    requires i < |q.ctes|
    ensures |r.ctes| == |q.ctes|
  {
    var from := q.ctes[i].name;
    var to := Prefixed(name, from);
    Rename(q.(ctes := q.ctes[i := Cte(to, q.ctes[i].query)]), from, to)
  }

  function RenamedFrom(q: Query, name: string, i: nat): Query
    requires i <= |q.ctes|
    decreases |q.ctes| - i
  {
    if i == |q.ctes| then q else RenamedFrom(RenamedAt(q, name, i), name, i + 1)
  }

  function Bare(q: Query): Query {
    q.(ctes := [])
  }

  ghost predicate NotReferenced(refs: set<Input>, name: string) {
    forall x | x in refs && x.Table? :: !SameName(x.relname, name)
  }

  ghost predicate Unbound(q: Query, from: string, to: string, k: nat)
    requires k < |q.ctes|
  {
    NotBound(q.ctes[k], from) && NotBound(q.ctes[k], to) && !SameName(to, q.ctes[k].name)
  }

  /** CTE j of the query can be renamed: it is referenced only after its
      definition, cleanly, neither its name nor the new one is bound again, and
      the new one is not taken for a CTE still to be renamed. */
  ghost predicate CleanCte(q: Query, name: string, j: nat)
    requires j < |q.ctes|
  {
    var from := q.ctes[j].name;
    var to := Prefixed(name, from);
    && CleanRefs(Refs(q), from, to)
    && (forall k | 0 <= k <= j :: NotReferenced(Refs(q.ctes[k].query), from))
    && (forall k | j < k < |q.ctes| :: Unbound(q, from, to, k))
    && from !in Binders(Bare(q)) && to !in Binders(Bare(q))
  }

  ghost predicate CleanAfter(q: Query, name: string, i: nat) {
    forall j {:trigger CleanCte(q, name, j)} | i <= j < |q.ctes| :: CleanCte(q, name, j)
  }

  lemma RenamedAtElement(q: Query, name: string, i: nat, k: nat)
    requires i < |q.ctes| && k < |q.ctes|
    ensures var from := q.ctes[i].name;
            var to := Prefixed(name, from);
            RenamedAt(q, name, i).ctes[k] == Cte(if k == i then to else q.ctes[k].name, Rename(q.ctes[k].query, from, to))
  {
    var to := Prefixed(name, q.ctes[i].name);
    var ctes := q.ctes[i := Cte(to, q.ctes[i].query)];
    RenameCtesElements(ctes, q.ctes[i].name, to);
    assert RenamedAt(q, name, i).ctes == RenameCtes(ctes, q.ctes[i].name, to);
  }

  // The CTEs after renaming: the one renamed has its new name, the ones up to it are otherwise untouched.
  lemma RenamedAtCtes(q: Query, name: string, i: nat)
    requires i < |q.ctes| && CleanCte(q, name, i)
    ensures var from := q.ctes[i].name;
            var to := Prefixed(name, from);
            && Bare(RenamedAt(q, name, i)) == Rename(Bare(q), from, to)
            && RenamedAt(q, name, i).ctes
               == q.ctes[..i] + [Cte(to, q.ctes[i].query)] + RenameCtes(q.ctes[i + 1..], from, to)
  {
    var from := q.ctes[i].name;
    var to := Prefixed(name, from);
    var ctes := q.ctes[i := Cte(to, q.ctes[i].query)];
    var r := RenamedAt(q, name, i);
    RenameCtesElements(q.ctes[i + 1..], from, to);
    forall k | 0 <= k < |ctes|
      ensures r.ctes[k] == (q.ctes[..i] + [Cte(to, q.ctes[i].query)] + RenameCtes(q.ctes[i + 1..], from, to))[k]
    {
      RenamedAtElement(q, name, i, k);
      if k <= i {
        assert NotReferenced(Refs(q.ctes[k].query), from);
        RenameUnmentioned(q.ctes[k].query, from, to);
      } else {
        assert q.ctes[i + 1..][k - i - 1] == q.ctes[k];
      }
    }
  }

  lemma RefsSplit(q: Query)
    ensures Refs(q) == RefsOfCtes(q.ctes) + Refs(Bare(q))
    ensures Binders(q) == BindersOfCtes(q.ctes) + Binders(Bare(q))
  {
  }

  lemma EvalSplit(db: Db, env: Env, q: Query)
    ensures Eval(db, env, q) == Eval(db, EvalCtes(db, env, q.ctes), Bare(q))
  {
  }

  /** Renaming one CTE together with its references is invisible. */
  lemma RenamedAtKeepsMeaning(db: Db, env: Env, q: Query, name: string, i: nat)
    requires i < |q.ctes| && CleanCte(q, name, i)
    ensures Eval(db, env, RenamedAt(q, name, i)) == Eval(db, env, q)
  {
    var from := q.ctes[i].name;
    var to := Prefixed(name, from);
    var upTo, after := q.ctes[..i], q.ctes[i + 1..];
    var after' := RenameCtes(after, from, to);
    RenamedAtCtes(q, name, i);
    assert q.ctes == upTo + [q.ctes[i]] + after;
    RefsOfCtesConcat(upTo + [q.ctes[i]], after);
    RefsSplit(q);
    AfterNotBound(q, name, i);
    var e := EvalCtes(db, env, upTo);
    var v := Eval(db, e, q.ctes[i].query);
    EvalCtesConcat(db, env, upTo, [q.ctes[i]]);
    EvalCtesConcat(db, env, upTo + [q.ctes[i]], after);
    EvalCtesConcat(db, env, upTo, [Cte(to, q.ctes[i].query)]);
    EvalCtesConcat(db, env, upTo + [Cte(to, q.ctes[i].query)], after');
    EvalOne(db, e, q.ctes[i]);
    EvalOne(db, e, Cte(to, q.ctes[i].query));
    var inner, inner' := EvalCtes(db, e[from := v], after), EvalCtes(db, e[to := v], after');
    assert Shifted(e[from := v], e[to := v], from, to);
    RenameCtesShifts(db, e[from := v], e[to := v], after, from, to);
    RenameKeepsMeaning(db, inner, inner', Bare(q), from, to);
    EvalSplit(db, env, q);
    EvalSplit(db, env, RenamedAt(q, name, i));
  }

  lemma EvalOne(db: Db, env: Env, c: Cte)
    ensures EvalCtes(db, env, [c]) == env[c.name := Eval(db, env, c.query)]
  {
  }

  lemma PrefixedInjective(name: string, a: string, b: string)
    requires Prefixed(name, a) == Prefixed(name, b)
    ensures a == b
  {
    var p := "__omni_httpd_" + name + "_";
    assert Prefixed(name, a)[|p|..] == a && Prefixed(name, b)[|p|..] == b;
  }

  // A clean reference stays clean for another CTE after the renaming of one.
  lemma RenamedRefStaysClean(x: Input, name: string, c: string, other: string)
    requires x.Table? && c != other
    requires CleanRef(x, c, Prefixed(name, c)) && CleanRef(x, other, Prefixed(name, other))
    requires !SameName(Prefixed(name, c), other)
    ensures CleanRef(RenameRef(x, c, Prefixed(name, c)), other, Prefixed(name, other))
    ensures !SameName(x.relname, other) ==> !SameName(RenameRef(x, c, Prefixed(name, c)).relname, other)
  {
    if Prefixed(name, c) == Prefixed(name, other) {
      PrefixedInjective(name, c, other);
    }
  }

  lemma AfterNotBound(q: Query, name: string, i: nat)
    requires i < |q.ctes| && CleanCte(q, name, i)
    ensures q.ctes[i].name !in BindersOfCtes(q.ctes[i + 1..])
    ensures Prefixed(name, q.ctes[i].name) !in BindersOfCtes(q.ctes[i + 1..])
  {
    var after := q.ctes[i + 1..];
    var from, to := q.ctes[i].name, Prefixed(name, q.ctes[i].name);
    forall k | 0 <= k < |after| ensures NotBound(after[k], from) && NotBound(after[k], to) {
      assert Unbound(q, from, to, i + 1 + k);
    }
    BindersOfCtesElements(after, from);
    BindersOfCtesElements(after, to);
  }

  lemma RenamedAtRefs(q: Query, name: string, i: nat)
    requires i < |q.ctes|
    ensures RenamedRefs(Refs(q), Refs(RenamedAt(q, name, i)), q.ctes[i].name, Prefixed(name, q.ctes[i].name))
  {
    var to := Prefixed(name, q.ctes[i].name);
    var ctes := q.ctes[i := Cte(to, q.ctes[i].query)];
    forall x ensures x in RefsOfCtes(ctes) <==> x in RefsOfCtes(q.ctes) {
      RefsOfCtesElements(ctes, x);
      RefsOfCtesElements(q.ctes, x);
      assert forall k | 0 <= k < |ctes| :: ctes[k].query == q.ctes[k].query;
    }
    RefsSplit(q);
    RefsSplit(q.(ctes := ctes));
    RenameRefs(q.(ctes := ctes), q.ctes[i].name, to);
  }

  lemma RenamedAtKeepsCleanRefs(q: Query, name: string, i: nat, j: nat)
    requires i < j < |q.ctes| && CleanCte(q, name, i) && CleanCte(q, name, j)
    ensures CleanRefs(Refs(RenamedAt(q, name, i)), q.ctes[j].name, Prefixed(name, q.ctes[j].name))
  {
    var from, other := q.ctes[i].name, q.ctes[j].name;
    assert Unbound(q, from, Prefixed(name, from), j);
    RenamedAtRefs(q, name, i);
    forall y | y in Refs(RenamedAt(q, name, i)) ensures CleanRef(y, other, Prefixed(name, other)) {
      var x :| x in Refs(q) && x.Table? && y == RenameRef(x, from, Prefixed(name, from));
      RenamedRefStaysClean(x, name, from, other);
    }
  }

  lemma RenameKeepsUnreferenced(q: Query, from: string, to: string, other: string)
    requires NotReferenced(Refs(q), other) && !SameName(to, other)
    ensures NotReferenced(Refs(Rename(q, from, to)), other)
  {
    RenameRefs(q, from, to);
    forall y | y in Refs(Rename(q, from, to)) && y.Table? ensures !SameName(y.relname, other) {
      var x :| x in Refs(q) && x.Table? && y == RenameRef(x, from, to);
    }
  }

  lemma RenamedAtKeepsUnreferenced(q: Query, name: string, i: nat, j: nat, k: nat)
    requires i < j < |q.ctes| && CleanCte(q, name, i) && CleanCte(q, name, j) && k <= j
    ensures NotReferenced(Refs(RenamedAt(q, name, i).ctes[k].query), q.ctes[j].name)
  {
    var from, other := q.ctes[i].name, q.ctes[j].name;
    assert Unbound(q, from, Prefixed(name, from), j);
    assert NotReferenced(Refs(q.ctes[k].query), other);
    RenamedAtElement(q, name, i, k);
    RenameKeepsUnreferenced(q.ctes[k].query, from, Prefixed(name, from), other);
  }

  lemma RenamedAtKeepsUnbound(q: Query, name: string, i: nat, from: string, to: string, k: nat)
    requires i < k < |q.ctes| && Unbound(q, from, to, k)
    ensures Unbound(RenamedAt(q, name, i), from, to, k)
  {
    RenamedAtElement(q, name, i, k);
    RenameRefs(q.ctes[k].query, q.ctes[i].name, Prefixed(name, q.ctes[i].name));
  }

  lemma RenamedAtKeepsClean(q: Query, name: string, i: nat, j: nat)
    requires i < j < |q.ctes| && CleanCte(q, name, i) && CleanCte(q, name, j)
    ensures CleanCte(RenamedAt(q, name, i), name, j)
  {
    var other := q.ctes[j].name;
    var to := Prefixed(name, other);
    var q' := RenamedAt(q, name, i);
    RenamedAtElement(q, name, i, j);
    RenamedAtKeepsCleanRefs(q, name, i, j);
    forall k | 0 <= k <= j ensures NotReferenced(Refs(q'.ctes[k].query), other) {
      RenamedAtKeepsUnreferenced(q, name, i, j, k);
    }
    forall k | j < k < |q'.ctes| ensures Unbound(q', other, to, k) {
      assert Unbound(q, other, to, k);
      RenamedAtKeepsUnbound(q, name, i, other, to, k);
    }
    RenameRefs(Bare(q), q.ctes[i].name, Prefixed(name, q.ctes[i].name));
  }

  /** Renaming all CTEs of a clean member query to prefixed names keeps its meaning. */
  lemma {:induction false} RenamedFromKeepsMeaning(db: Db, env: Env, q: Query, name: string, i: nat)
    requires i <= |q.ctes| && CleanAfter(q, name, i)
    ensures Eval(db, env, RenamedFrom(q, name, i)) == Eval(db, env, q)
    decreases |q.ctes| - i
  {
    if i < |q.ctes| {
      assert CleanCte(q, name, i);
      RenamedAtKeepsMeaning(db, env, q, name, i);
      forall j | i + 1 <= j < |q.ctes| ensures CleanCte(RenamedAt(q, name, i), name, j) {
        assert CleanCte(q, name, j);
        RenamedAtKeepsClean(q, name, i, j);
      }
      RenamedFromKeepsMeaning(db, env, RenamedAt(q, name, i), name, i + 1);
    }
  }

  // ---- the accumulated query ----

  function Scan(name: string): Query {
    Select([], Star, [Table(None, name, None)])
  }

  function ScanUnless(name: string, previous: string): Query {
    Select([], StarUnlessExists,
           [Table(None, name, None), Sub(Select([], ZeroColumns, [Table(None, previous, None)]), "")])
  }

  function LastName(q: Query): string
    requires q.ctes != []
  {
    q.ctes[|q.ctes| - 1].name
  }

  /** The statement after one more member: the WITH clause moves to the new
      outermost select, the member's CTEs are hoisted to its end, and the member
      itself follows them under its own name. */
  function Reduced(state: Option<Query>, name: string, query: Query): (r: Query)
    requires state.Some? ==> state.value.ctes != []
    ensures r.ctes != []
  {
    var chain := if state.None? then Scan(name)
                 else UnionAll([], Bare(state.value), ScanUnless(name, LastName(state.value)));
    var member := RenamedFrom(query, name, 0);
    var before := if state.None? then [] else state.value.ctes;
    chain.(ctes := before + member.ctes + [Cte(name, Bare(member))])
  }

  function Built(members: seq<Member>): (r: Query)
    requires members != []
    ensures r.ctes != []
  {
    var n := |members| - 1;
    Reduced(if n == 0 then None else Some(Built(members[..n])), members[n].name, members[n].query)
  }

  /** What the cascade should return, from each member's own rows. */
  function Cascade(rows: seq<Rows>): Rows {
    if rows == [] then []
    else if |rows| == 1 then rows[0]
    else
      var n := |rows| - 1;
      Cascade(rows[..n]) + if rows[n - 1] == [] then rows[n] else []
  }

  /** Each member sees the database and, under their names, the members before it. */
  function EnvAfter(db: Db, base: Env, members: seq<Member>): Env {
    if members == [] then base
    else
      var n := |members| - 1;
      var env := EnvAfter(db, base, members[..n]);
      env[members[n].name := Eval(db, env, members[n].query)]
  }

  function RowsOf(db: Db, base: Env, members: seq<Member>): (r: seq<Rows>)
    ensures |r| == |members|
  {
    if members == [] then []
    else
      var n := |members| - 1;
      RowsOf(db, base, members[..n]) + [Eval(db, EnvAfter(db, base, members[..n]), members[n].query)]
  }

  function Hoisted(m: Member): set<string> {
    set k | 0 <= k < |m.query.ctes| :: Prefixed(m.name, m.query.ctes[k].name)
  }

  function AllHoisted(members: seq<Member>): set<string> {
    if members == [] then {} else AllHoisted(members[..|members| - 1]) + Hoisted(members[|members| - 1])
  }

  /** Members whose queries can be hoisted, with distinct names; no member is
      called like a hoisted CTE, no two hoisted CTEs are called alike, and no
      member refers to a CTE hoisted before it. */
  ghost predicate CleanMembers(members: seq<Member>) {
    && (forall i, j | 0 <= i < j < |members| :: members[i].name != members[j].name)
    && (forall i | 0 <= i < |members| :: members[i].name !in AllHoisted(members))
    && (forall i {:trigger CleanMember(members, i)} | 0 <= i < |members| :: CleanMember(members, i))
  }

  ghost predicate CleanMember(members: seq<Member>, i: nat)
    requires i < |members|
  {
    && CleanAfter(members[i].query, members[i].name, 0)
    && Hoisted(members[i]) !! AllHoisted(members[..i])
    && Avoids(Refs(members[i].query), AllHoisted(members[..i]))
  }

  lemma {:induction false} AllHoistedPrefix(members: seq<Member>, i: nat)
    requires i <= |members|
    ensures AllHoisted(members[..i]) <= AllHoisted(members)
    decreases |members|
  {
    if i < |members| {
      var n := |members| - 1;
      assert members[..n][..i] == members[..i];
      AllHoistedPrefix(members[..n], i);
    } else {
      assert members[..i] == members;
    }
  }

  lemma CleanPrefix(members: seq<Member>)
    requires members != [] && CleanMembers(members)
    ensures CleanMembers(members[..|members| - 1])
  {
    var n := |members| - 1;
    var front := members[..n];
    AllHoistedPrefix(members, n);
    forall i | 0 <= i < n ensures CleanMember(front, i) {
      assert CleanMember(members, i) && front[..i] == members[..i];
    }
  }

  // ---- the chain of selects ----

  function Names(members: seq<Member>): seq<string> {
    seq(|members|, i requires 0 <= i < |members| => members[i].name)
  }

  function Chain(names: seq<string>): Query
    requires names != []
  {
    var n := |names| - 1;
    if n == 0 then Scan(names[0]) else UnionAll([], Chain(names[..n]), ScanUnless(names[n], names[n - 1]))
  }

  /** The WITH clause sits on the outermost select only. */
  ghost predicate WithOnlyOutermost(q: Query) {
    q.UnionAll? ==> q.left.ctes == [] && q.right.ctes == [] && WithOnlyOutermost(q.left) && WithOnlyOutermost(q.right)
  }

  lemma ReducedShape(state: Option<Query>, name: string, query: Query)
    requires state.Some? ==> state.value.ctes != [] && WithOnlyOutermost(state.value)
    ensures var r := Reduced(state, name, query);
            && LastName(r) == name && WithOnlyOutermost(r)
            && Bare(r) == if state.None? then Scan(name)
                          else UnionAll([], Bare(state.value), ScanUnless(name, LastName(state.value)))
  {
  }

  lemma {:induction false} BuiltShape(members: seq<Member>)
    requires members != []
    ensures Bare(Built(members)) == Chain(Names(members))
    ensures LastName(Built(members)) == members[|members| - 1].name
    ensures WithOnlyOutermost(Built(members))
    decreases |members|
  {
    var n := |members| - 1;
    var m := members[n];
    if n > 0 {
      var front := members[..n];
      BuiltShape(front);
      ReducedShape(Some(Built(front)), m.name, m.query);
      NamesExtend(members);
    } else {
      ReducedShape(None, m.name, m.query);
    }
  }

  lemma NamesExtend(members: seq<Member>)
    requires |members| > 1
    ensures var n := |members| - 1;
            Chain(Names(members)) == UnionAll([], Chain(Names(members[..n])), ScanUnless(members[n].name, members[n - 1].name))
  {
    assert Names(members)[..|members| - 1] == Names(members[..|members| - 1]);
  }

  lemma ScanMeaning(db: Db, env: Env, name: string)
    ensures Eval(db, env, Scan(name)) == Lookup(env, name)
  {
    var xs := [Table(None, name, None)];
    assert xs[1..] == [];
    assert EvalInputs(db, env, xs) == [EvalInput(db, env, xs[0])];
  }

  lemma ScanUnlessMeaning(db: Db, env: Env, name: string, previous: string)
    ensures Eval(db, env, ScanUnless(name, previous)) == if Lookup(env, previous) == [] then Lookup(env, name) else []
  {
    var probe := Select([], ZeroColumns, [Table(None, previous, None)]);
    var ys := probe.inputs;
    assert ys[1..] == [];
    assert EvalInputs(db, env, ys) == [EvalInput(db, env, ys[0])];
    assert Eval(db, env, probe) == Lookup(env, previous);
    var xs := ScanUnless(name, previous).inputs;
    assert xs[1..][1..] == [];
    assert EvalInputs(db, env, xs[1..]) == [EvalInput(db, env, xs[1])];
    assert EvalInputs(db, env, xs) == [EvalInput(db, env, xs[0]), EvalInput(db, env, xs[1])];
  }

  // One more member at the end of the chain.
  lemma UnionMeaning(db: Db, env: Env, front: Query, name: string, previous: string)
    ensures Eval(db, env, UnionAll([], front, ScanUnless(name, previous))) ==
            Eval(db, env, front) + if Lookup(env, previous) == [] then Lookup(env, name) else []
  {
    ScanUnlessMeaning(db, env, name, previous);
  }

  lemma ChainStep(db: Db, env: Env, names: seq<string>, rows: seq<Rows>, front: Query, before: Rows)
    requires |names| == |rows| > 1 && front == Chain(names[..|names| - 1]) && before == Cascade(rows[..|rows| - 1])
    requires Eval(db, env, front) == before
    requires Lookup(env, names[|names| - 1]) == rows[|rows| - 1] && Lookup(env, names[|names| - 2]) == rows[|rows| - 2]
    ensures Eval(db, env, Chain(names)) == Cascade(rows)
  {
    UnionMeaning(db, env, front, names[|names| - 1], names[|names| - 2]);
  }

  lemma {:induction false} ChainMeaning(db: Db, env: Env, names: seq<string>, rows: seq<Rows>)
    requires names != [] && |rows| == |names|
    requires forall i | 0 <= i < |names| :: Lookup(env, names[i]) == rows[i]
    ensures Eval(db, env, Chain(names)) == Cascade(rows)
    decreases |names|
  {
    var n := |names| - 1;
    if n == 0 {
      ScanMeaning(db, env, names[0]);
    } else {
      ChainMeaning(db, env, names[..n], rows[..n]);
      ChainStep(db, env, names, rows, Chain(names[..n]), Cascade(rows[..n]));
    }
  }

  // ---- the hoisted WITH clause ----

  lemma {:induction false} RenamedFromNames(q: Query, name: string, i: nat)
    requires i <= |q.ctes|
    ensures var r := RenamedFrom(q, name, i);
            && |r.ctes| == |q.ctes|
            && forall k | 0 <= k < |q.ctes| ::
                 r.ctes[k].name == if k < i then q.ctes[k].name else Prefixed(name, q.ctes[k].name)
    decreases |q.ctes| - i
  {
    if i < |q.ctes| {
      forall k | 0 <= k < |q.ctes|
        ensures RenamedAt(q, name, i).ctes[k].name == if k == i then Prefixed(name, q.ctes[i].name) else q.ctes[k].name
      {
        RenamedAtElement(q, name, i, k);
      }
      RenamedFromNames(RenamedAt(q, name, i), name, i + 1);
    }
  }

  // Adding one member to the WITH clause extends the environment by the member's rows.
  lemma MemberExtends(db: Db, top: Env, env: Env, hidden: set<string>, m: Member)
    requires AgreeOutside(env, top, hidden)
    requires CleanAfter(m.query, m.name, 0) && Avoids(Refs(m.query), hidden)
    ensures var member := RenamedFrom(m.query, m.name, 0);
            AgreeOutside(env[m.name := Eval(db, env, m.query)],
                         EvalCtes(db, top, member.ctes + [Cte(m.name, Bare(member))]),
                         hidden + Hoisted(m))
  {
    var member := RenamedFrom(m.query, m.name, 0);
    var rows := Eval(db, env, m.query);
    HiddenNamesDoNotMatter(db, env, top, m.query, hidden);
    RenamedFromKeepsMeaning(db, top, m.query, m.name, 0);
    EvalSplit(db, top, member);
    var inner := EvalCtes(db, top, member.ctes);
    EvalCtesConcat(db, top, member.ctes, [Cte(m.name, Bare(member))]);
    EvalOne(db, inner, Cte(m.name, Bare(member)));
    RenamedFromNames(m.query, m.name, 0);
    forall r | r !in hidden + Hoisted(m)
      ensures Lookup(env[m.name := rows], r) == Lookup(inner[m.name := rows], r)
    {
      assert Lookup(env, r) == Lookup(top, r);
      forall c | c in member.ctes ensures c.name != r {
        var k :| 0 <= k < |member.ctes| && member.ctes[k] == c;
        assert c.name == Prefixed(m.name, m.query.ctes[k].name);
      }
      EvalCtesFrame(db, top, member.ctes, r);
    }
  }

  lemma {:induction false} WithClauseMeaning(db: Db, base: Env, members: seq<Member>)
    requires members != [] && CleanMembers(members)
    ensures AgreeOutside(EnvAfter(db, base, members), EvalCtes(db, base, Built(members).ctes), AllHoisted(members))
    decreases |members|
  {
    var n := |members| - 1;
    var m, front := members[n], members[..n];
    var member := RenamedFrom(m.query, m.name, 0);
    var added := member.ctes + [Cte(m.name, Bare(member))];
    var before := if n == 0 then [] else Built(front).ctes;
    assert Built(members).ctes == before + added;
    EvalCtesConcat(db, base, before, added);
    var top := EvalCtes(db, base, before);
    assert AgreeOutside(EnvAfter(db, base, front), top, AllHoisted(front)) by {
      if n > 0 {
        CleanPrefix(members);
        WithClauseMeaning(db, base, front);
      }
    }
    assert CleanMember(members, n);
    MemberExtends(db, top, EnvAfter(db, base, front), AllHoisted(front), m);
  }

  ghost predicate DistinctNames(ctes: seq<Cte>) {
    forall a, b | 0 <= a < b < |ctes| :: ctes[a].name != ctes[b].name
  }

  // The CTEs one member adds: its hoisted ones, all different, and itself.
  lemma AddedNames(m: Member)
    requires CleanAfter(m.query, m.name, 0) && m.name !in Hoisted(m)
    ensures var member := RenamedFrom(m.query, m.name, 0);
            var added := member.ctes + [Cte(m.name, Bare(member))];
            DistinctNames(added) && forall a | 0 <= a < |added| :: added[a].name in Hoisted(m) + {m.name}
  {
    var member := RenamedFrom(m.query, m.name, 0);
    RenamedFromNames(m.query, m.name, 0);
    var cs := m.query.ctes;
    forall a, b | 0 <= a < b < |cs| ensures member.ctes[a].name != member.ctes[b].name {
      assert CleanCte(m.query, m.name, a) && Unbound(m.query, cs[a].name, Prefixed(m.name, cs[a].name), b);
      if Prefixed(m.name, cs[a].name) == Prefixed(m.name, cs[b].name) {
        PrefixedInjective(m.name, cs[a].name, cs[b].name);
      }
    }
    forall a | 0 <= a < |cs| ensures member.ctes[a].name in Hoisted(m) {
      assert member.ctes[a].name == Prefixed(m.name, cs[a].name);
    }
  }

  ghost predicate NamedIn(ctes: seq<Cte>, names: set<string>) {
    forall a | 0 <= a < |ctes| :: ctes[a].name in names
  }

  lemma DistinctAppend(before: seq<Cte>, added: seq<Cte>, names: set<string>, names': set<string>)
    requires DistinctNames(before) && NamedIn(before, names)
    requires DistinctNames(added) && NamedIn(added, names') && names !! names'
    ensures DistinctNames(before + added) && NamedIn(before + added, names + names')
  {
  }

  ghost function AllNames(members: seq<Member>): set<string> {
    AllHoisted(members) + set i | 0 <= i < |members| :: members[i].name
  }

  lemma NewNamesAreNew(members: seq<Member>)
    requires members != [] && CleanMembers(members)
    ensures var n := |members| - 1;
            && AllNames(members[..n]) !! Hoisted(members[n]) + {members[n].name}
            && AllNames(members[..n]) + (Hoisted(members[n]) + {members[n].name}) == AllNames(members)
  {
    var n := |members| - 1;
    var m, front := members[n], members[..n];
    AllHoistedPrefix(members, n);
    assert CleanMember(members, n);
    assert m.name !in AllHoisted(members) && Hoisted(m) !! AllHoisted(front);
    forall i | 0 <= i < n ensures members[i].name !in Hoisted(m) {
      assert members[i].name !in AllHoisted(members);
    }
    assert forall i | 0 <= i < |members| :: i == n || members[i] == front[i];
  }

  /** With clean members the built WITH clause names no CTE twice, and all its names are
      those of members and of their prefixed CTEs. */
  lemma {:induction false} BuiltNamesAreDistinct(members: seq<Member>)
    requires members != [] && CleanMembers(members)
    ensures DistinctNames(Built(members).ctes) && NamedIn(Built(members).ctes, AllNames(members))
    decreases |members|
  {
    var n := |members| - 1;
    var m := members[n];
    AllHoistedPrefix(members, n);
    assert CleanMember(members, n);
    AddedNames(m);
    NewNamesAreNew(members);
    var member := RenamedFrom(m.query, m.name, 0);
    var added := member.ctes + [Cte(m.name, Bare(member))];
    if n > 0 {
      CleanPrefix(members);
      BuiltNamesAreDistinct(members[..n]);
      DistinctAppend(Built(members[..n]).ctes, added, AllNames(members[..n]), Hoisted(m) + {m.name});
      assert Built(members).ctes == Built(members[..n]).ctes + added;
    } else {
      assert Built(members).ctes == added;
    }
  }

  /** The names one member adds to the WITH clause, in order. */
  function AddedNameList(m: Member): seq<string> {
    seq(|m.query.ctes|, k requires 0 <= k < |m.query.ctes| => Prefixed(m.name, m.query.ctes[k].name)) + [m.name]
  }

  function NameList(members: seq<Member>): seq<string> {
    if members == [] then [] else NameList(members[..|members| - 1]) + AddedNameList(members[|members| - 1])
  }

  function CteNames(ctes: seq<Cte>): seq<string> {
    seq(|ctes|, k requires 0 <= k < |ctes| => ctes[k].name)
  }

  lemma AddedAreNamed(m: Member)
    ensures var member := RenamedFrom(m.query, m.name, 0);
            CteNames(member.ctes + [Cte(m.name, Bare(member))]) == AddedNameList(m)
  {
    RenamedFromNames(m.query, m.name, 0);
  }

  lemma CteNamesAppend(a: seq<Cte>, b: seq<Cte>)
    ensures CteNames(a + b) == CteNames(a) + CteNames(b)
  {
  }

  lemma {:induction false} BuiltNames(members: seq<Member>)
    requires members != []
    ensures CteNames(Built(members).ctes) == NameList(members)
    decreases |members|
  {
    var n := |members| - 1;
    var m := members[n];
    var member := RenamedFrom(m.query, m.name, 0);
    var added := member.ctes + [Cte(m.name, Bare(member))];
    AddedAreNamed(m);
    if n > 0 {
      BuiltNames(members[..n]);
      CteNamesAppend(Built(members[..n]).ctes, added);
      assert Built(members).ctes == Built(members[..n]).ctes + added;
    } else {
      assert Built(members).ctes == added && NameList(members[..n]) == [];
      assert [] + AddedNameList(m) == AddedNameList(m);
    }
  }

  /** Whatever the members, the built WITH clause names no CTE twice if and only if
      the member names and the prefixed names of their CTEs are all different. */
  lemma BuiltNamesDistinctIff(members: seq<Member>)
    requires members != []
    ensures DistinctNames(Built(members).ctes) <==> Distinct(NameList(members))
  {
    BuiltNames(members);
    var ctes, names := Built(members).ctes, NameList(members);
    assert forall k | 0 <= k < |ctes| :: names[k] == CteNames(ctes)[k] == ctes[k].name;
  }

  /** Clean members meet that condition: none of their names repeats. */
  lemma CleanNamesAreDistinct(members: seq<Member>)
    requires members != [] && CleanMembers(members)
    ensures Distinct(NameList(members))
  {
    BuiltNamesAreDistinct(members);
    BuiltNamesDistinctIff(members);
  }

  /** The longer of two members' names is the shorter followed by '_' and s, and the
      names of their CTEs differ by that s. */
  ghost predicate Shares(a: string, x: string, b: string, y: string, s: string) {
    b == a + "_" + s && x == s + "_" + y
  }

  lemma SharesCollide(a: string, x: string, b: string, y: string, s: string)
    requires Shares(a, x, b, y, s)
    ensures Prefixed(a, x) == Prefixed(b, y)
  {
    assert a + "_" + (s + "_" + y) == a + "_" + s + "_" + y;
  }

  lemma CollisionShares(a: string, x: string, b: string, y: string)
    requires Prefixed(a, x) == Prefixed(b, y) && |a| < |b|
    ensures Shares(a, x, b, y, b[|a| + 1..])
  {
    var p := "__omni_httpd_";
    var t := a + "_" + x;
    assert Prefixed(a, x)[|p|..] == t;
    assert Prefixed(b, y)[|p|..] == b + "_" + y;
    assert t[..|a|] == a && t[|a|] == '_' && t[|a| + 1..] == x;
    assert t[..|b|] == b && t[|b|] == '_' && t[|b| + 1..] == y;
    var s := b[|a| + 1..];
    assert b[..|a|] == t[..|b|][..|a|] == a;
    assert b == b[..|a|] + [b[|a|]] + s;
    assert x == t[|a| + 1..|b|] + [t[|b|]] + t[|b| + 1..];
    assert s == t[..|b|][|a| + 1..] == t[|a| + 1..|b|];
  }

  lemma SameLengthSameName(a: string, x: string, b: string, y: string)
    requires |a| == |b|
    ensures Prefixed(a, x) == Prefixed(b, y) ==> a == b
  {
    var n := |"__omni_httpd_"|;
    assert Prefixed(a, x)[n..n + |a|] == a && Prefixed(b, y)[n..n + |b|] == b;
  }

  /** CTEs of two differently named members get the same prefixed name if and only if
      one member's name continues the other's after a '_', and the CTE names make up
      for it. */
  lemma PrefixedCollideIff(a: string, x: string, b: string, y: string)
    requires a != b
    ensures Prefixed(a, x) == Prefixed(b, y) <==> exists s :: Shares(a, x, b, y, s) || Shares(b, y, a, x, s)
  {
    if s :| Shares(a, x, b, y, s) || Shares(b, y, a, x, s) {
      if Shares(a, x, b, y, s) {
        SharesCollide(a, x, b, y, s);
      } else {
        SharesCollide(b, y, a, x, s);
      }
    }
    if Prefixed(a, x) == Prefixed(b, y) {
      if |a| < |b| {
        CollisionShares(a, x, b, y);
      } else if |b| < |a| {
        CollisionShares(b, y, a, x);
      } else {
        SameLengthSameName(a, x, b, y);
      }
    }
  }

  lemma {:induction false} NamesKeepTheirRows(db: Db, base: Env, members: seq<Member>, i: nat)
    requires i < |members| && forall a, b | 0 <= a < b < |members| :: members[a].name != members[b].name
    ensures Lookup(EnvAfter(db, base, members), members[i].name) == RowsOf(db, base, members)[i]
    decreases |members|
  {
    var n := |members| - 1;
    if i < n {
      NamesKeepTheirRows(db, base, members[..n], i);
    }
  }

  /** The built query returns the first member's rows, followed by the rows of
      exactly those later members whose immediate predecessor has none. */
  lemma BuiltQueryCascades(db: Db, base: Env, members: seq<Member>)
    requires members != [] && CleanMembers(members)
    ensures Eval(db, base, Built(members)) == Cascade(RowsOf(db, base, members))
  {
    var q := Built(members);
    var top := EvalCtes(db, base, q.ctes);
    EvalSplit(db, base, q);
    BuiltShape(members);
    WithClauseMeaning(db, base, members);
    forall i | 0 <= i < |members| ensures Lookup(top, Names(members)[i]) == RowsOf(db, base, members)[i] {
      NamesKeepTheirRows(db, base, members, i);
      assert members[i].name !in AllHoisted(members);
    }
    ChainMeaning(db, top, Names(members), RowsOf(db, base, members));
  }

  // ---- what the cascade means ----

  /** The result is empty exactly when every member is. */
  /** Place by place: a member that comes right after an empty one, or first, is returned
      after the members before it, and any other is not. */
  lemma {:induction false} CascadeMember(rows: seq<Rows>, i: nat)
    requires i < |rows|
    ensures Cascade(rows[..i]) + (if i == 0 || rows[i - 1] == [] then rows[i] else []) == Cascade(rows[..i + 1])
    ensures Cascade(rows[..i + 1]) <= Cascade(rows)
    decreases |rows|
  {
    assert rows[..i + 1][..i] == rows[..i];
    if i < |rows| - 1 {
      var front := rows[..|rows| - 1];
      CascadeMember(front, i);
      assert front[..i + 1] == rows[..i + 1];
    } else {
      assert rows[..i + 1] == rows;
    }
  }

  lemma {:induction false} CascadeEmptyIff(rows: seq<Rows>)
    ensures Cascade(rows) == [] <==> forall i | 0 <= i < |rows| :: rows[i] == []
  {
    if |rows| > 1 {
      var n := |rows| - 1;
      CascadeEmptyIff(rows[..n]);
      if Cascade(rows) == [] {
        forall i | 0 <= i < |rows| ensures rows[i] == [] {
          assert Cascade(rows[..n]) == [];
          assert rows[..n][n - 1] == [];
          if i < n {
            assert rows[..n][i] == [];
          }
        }
      }
    }
  }

  /** Member k is the first with rows. */
  ghost predicate First(rows: seq<Rows>, k: nat) {
    k < |rows| && rows[k] != [] && forall i | 0 <= i < k :: rows[i] == []
  }

  /** Some member after k has rows although its predecessor has none. */
  ghost predicate Resumes(rows: seq<Rows>, k: nat) {
    exists i :: k < i < |rows| && rows[i] != [] && rows[i - 1] == []
  }

  lemma ResumesStep(rows: seq<Rows>, k: nat)
    requires k < |rows| - 1
    ensures var n := |rows| - 1;
            Resumes(rows, k) <==> Resumes(rows[..n], k) || (rows[n] != [] && rows[n - 1] == [])
  {
    var front := rows[..|rows| - 1];
    if i :| k < i < |front| && front[i] != [] && front[i - 1] == [] {
      assert rows[i] != [] && rows[i - 1] == [];
    }
    if i :| k < i < |rows| - 1 && rows[i] != [] && rows[i - 1] == [] {
      assert front[i] != [] && front[i - 1] == [];
    }
  }

  lemma {:induction false} CascadeStartsWithFirst(rows: seq<Rows>, k: nat)
    requires First(rows, k)
    ensures rows[k] <= Cascade(rows)
    decreases |rows|
  {
    var n := |rows| - 1;
    if k < n {
      CascadeStartsWithFirst(rows[..n], k);
    } else {
      CascadeEmptyIff(rows[..n]);
    }
  }

  /** The result is just the first non-empty member's rows, as a cascade of
      fallbacks should be, if and only if no later member resumes: a member is
      compared with its immediate predecessor only. */
  lemma {:induction false} CascadeIsFirstIff(rows: seq<Rows>, k: nat)
    requires First(rows, k)
    ensures Cascade(rows) == rows[k] <==> !Resumes(rows, k)
    decreases |rows|
  {
    var n := |rows| - 1;
    if k == n {
      CascadeEmptyIff(rows[..n]);
    } else {
      var front := rows[..n];
      CascadeIsFirstIff(front, k);
      CascadeStartsWithFirst(front, k);
      ResumesStep(rows, k);
      LongerIff(rows[k], Cascade(front), if rows[n - 1] == [] then rows[n] else []);
    }
  }

  lemma LongerIff(a: Rows, b: Rows, c: Rows)
    requires a <= b
    ensures b + c == a <==> b == a && c == []
  {
    if c != [] {
      assert |b + c| > |a|;
    }
  }

  lemma SkippedMiddle(a: Row, c: Row)
    ensures Cascade([[a], [], [c]]) == [a, c]
  {
    var rows: seq<Rows> := [[a], [], [c]];
    assert rows[..2] == [[a], []] && rows[..2][..1] == [[a]];
    assert Cascade(rows[..2]) == [a];
  }

  /** A query without CTEs and inputs, whose rows the database gives. */
  function Plain(id: nat): Query {
    Select([], Other(id), [])
  }

  lemma PlainMembersAreClean(members: seq<Member>)
    requires forall i, j | 0 <= i < j < |members| :: members[i].name != members[j].name
    requires forall i | 0 <= i < |members| :: members[i].query.Select? && members[i].query == Select([], members[i].query.op, [])
    ensures CleanMembers(members) && AllHoisted(members) == {}
    decreases |members|
  {
    if members != [] {
      var n := |members| - 1;
      PlainMembersAreClean(members[..n]);
      assert Hoisted(members[n]) == {};
      forall i | 0 <= i < |members| ensures CleanMember(members, i) {
        assert Hoisted(members[i]) == {} && Refs(members[i].query) == {};
      }
    }
  }

  lemma {:induction false} PlainRows(db: Db, base: Env, members: seq<Member>, i: nat, id: nat)
    requires i < |members| && members[i].query == Plain(id)
    ensures RowsOf(db, base, members)[i] == db.other(id, [])
    decreases |members|
  {
    var n := |members| - 1;
    if i < n {
      PlainRows(db, base, members[..n], i, id);
    } else {
      var env := EnvAfter(db, base, members[..n]);
      assert EvalCtes(db, env, []) == env && EvalInputs(db, env, []) == [];
    }
  }

  /** Three members of which only the second has no rows: the built query returns the
      rows of the first and the third. */
  lemma SkippingAMemberResumes(db: Db, base: Env, members: seq<Member>, a: Row, c: Row)
    requires |members| == 3 && (forall i | 0 <= i < 3 :: members[i].query == Plain(i))
    requires forall i, j | 0 <= i < j < 3 :: members[i].name != members[j].name
    requires db.other(0, []) == [a] && db.other(1, []) == [] && db.other(2, []) == [c]
    ensures Eval(db, base, Built(members)) == [a, c]
  {
    PlainMembersAreClean(members);
    BuiltQueryCascades(db, base, members);
    PlainRows(db, base, members, 0, 0);
    PlainRows(db, base, members, 1, 1);
    PlainRows(db, base, members, 2, 2);
    assert RowsOf(db, base, members) == [[a], [], [c]];
    SkippedMiddle(a, c);
  }

  /** A member "a" with a CTE "b_c" and a member "a_b" with a CTE "c": the built WITH
      clause names one CTE twice. */
  lemma HoistedNamesCanCollide(q: Query)
    ensures var first := Member("a", Select([Cte("b_c", q)], Star, []));
            var second := Member("a_b", Select([Cte("c", q)], Star, []));
            !DistinctNames(Built([first, second]).ctes)
  {
    var first := Member("a", Select([Cte("b_c", q)], Star, []));
    var second := Member("a_b", Select([Cte("c", q)], Star, []));
    var members := [first, second];
    assert members[..1] == [first] && members[..1][..0] == [];
    assert NameList([first]) == AddedNameList(first);
    assert NameList(members) == AddedNameList(first) + AddedNameList(second);
    SharesCollide("a", "b_c", "a_b", "c", "b");
    assert NameList(members)[0] == NameList(members)[2];
    BuiltNamesDistinctIff(members);
  }

  // ---- the aggregate ----

  datatype Argument<T> = Null | Given(value: T)

  datatype Outcome = Accepted | NameIsNull | QueryIsNull

  lemma BuiltExtends(members: seq<Member>, m: Member)
    ensures Built(members + [m]) == Reduced(if members == [] then None else Some(Built(members)), m.name, m.query)
  {
  }

  /** Gives every CTE of a member query its prefixed name, one after the other. */
  method PrefixNames(query: Query, name: string) returns (parsed: Query)
    ensures parsed == RenamedFrom(query, name, 0)
    ensures |parsed.ctes| == |query.ctes|
    ensures forall k | 0 <= k < |query.ctes| :: parsed.ctes[k].name == "__omni_httpd_" + name + "_" + query.ctes[k].name
  {
    RenamedFromNames(query, name, 0);
    parsed := query;
    var i := 0;
    while i < |parsed.ctes|
      invariant i <= |parsed.ctes| && RenamedFrom(parsed, name, i) == RenamedFrom(query, name, 0)
      decreases |parsed.ctes| - i
    {
      var from := parsed.ctes[i].name;
      var to := "__omni_httpd_" + name + "_" + from;
      ghost var before := parsed;
      parsed := parsed.(ctes := parsed.ctes[i := Cte(to, parsed.ctes[i].query)]);
      parsed := Rename(parsed, from, to);
      assert parsed == RenamedAt(before, name, i);
      i := i + 1;
    }
  }

  class Aggregate {
    var stmt: Option<Query>
    ghost var members: seq<Member>

    ghost predicate Valid()
      reads this
    {
      stmt == if members == [] then None else Some(Built(members))
    }

    constructor ()
      ensures Valid() && members == []
    {
      stmt := None;
      members := [];
    }

    /** Adds one member query to the accumulated statement. */
    method Reduce(name: Argument<string>, query: Argument<Query>) returns (r: Outcome)
      requires Valid()
      modifies this
      ensures Valid()
      ensures r == if name.Null? then NameIsNull else if query.Null? then QueryIsNull else Accepted
      ensures r.Accepted? ==> members == old(members) + [Member(name.value, query.value)]
      ensures !r.Accepted? ==> unchanged(this)
    {
      if name.Null? {
        return NameIsNull;
      }
      if query.Null? {
        return QueryIsNull;
      }
      ghost var was := stmt;
      var chain, ctes := Scan(name.value), [];
      if stmt.Some? {
        var previous := stmt.value.ctes[|stmt.value.ctes| - 1].name;
        ctes := stmt.value.ctes;
        chain := UnionAll([], Bare(stmt.value), ScanUnless(name.value, previous));
      }
      var parsed := PrefixNames(query.value, name.value);
      ctes := ctes + parsed.ctes;
      ctes := ctes + [Cte(name.value, Bare(parsed))];
      stmt := Some(chain.(ctes := ctes));
      assert stmt == Some(Reduced(was, name.value, query.value));
      BuiltExtends(members, Member(name.value, query.value));
      members := members + [Member(name.value, query.value)];
      return Accepted;
    }

    /** Without any member the result is an empty SELECT. */
    method Final() returns (q: Query)
      requires Valid()
      ensures q == if members == [] then Select([], ZeroColumns, []) else Built(members)
      // on every database, clean members give the rows of the cascade
      ensures members != [] && CleanMembers(members) ==>
                forall db, base :: Eval(db, base, q) == Cascade(RowsOf(db, base, members))
    {
      if members != [] && CleanMembers(members) {
        forall db, base ensures Eval(db, base, Built(members)) == Cascade(RowsOf(db, base, members)) {
          BuiltQueryCascades(db, base, members);
        }
      }
      if stmt.None? {
        return Select([], ZeroColumns, []);
      }
      return stmt.value;
    }
  }
}
