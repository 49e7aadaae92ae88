/**
 When evaluating a compiled filter can raise an error in Postgres: an ordered leaf
 casts the text it finds, and a text that the guard lets through need not cast.
 One such row ends the whole query, so the question is asked of every row that a
 sub-query ranges over.
 */
module FilterRaises {
  import opened Wrappers
  import opened FilterTree
  import opened FilterCompiler
  import opened SqlReading
  import opened FilterMeaning
  import J = Json
  import FieldPath

  // ---------- in the clause ----------

  predicate CastRaises(pg: Postgres, cast: Cast, t: Option<string>) {
    t.Some? && !cast.NoCast? && Castable(cast, t.value) && !pg.casts(cast, t.value)
  }

  predicate ExprMayRaise(pg: Postgres, e: Expr, scope: Scope) {
    match e
    case JsonTyped(a, path, cast) => a in scope && CastRaises(pg, cast, TextAt(pg, scope[a].json, path))
    case Lower(inner) => ExprMayRaise(pg, inner, scope)
    case _ => false
  }

  // Postgres promises no order of evaluation: any part of the condition may come first.
  ghost predicate MayRaise(pg: Postgres, db: seq<Row>, c: Cond, scope: Scope) {
    match c
    case Either(l, r) => MayRaise(pg, db, l, scope) || MayRaise(pg, db, r, scope)
    case Both(l, r) => MayRaise(pg, db, l, scope) || MayRaise(pg, db, r, scope)
    case NullTest(e, _) => ExprMayRaise(pg, e, scope)
    case Cmp(e, _, _) => ExprMayRaise(pg, e, scope)
    case Same(e, _, other) => ExprMayRaise(pg, e, scope) || ExprMayRaise(pg, other, scope)
    case SomeRecord(body) => exists row | row in db :: MayRaise(pg, db, body, scope["d" := row])
    case SomeElement(_) => false
    case SomeElementWhere(path, body) =>
      "r" in scope && exists item | item in Elements(scope["r"].json, path) ::
        MayRaise(pg, db, body, scope["e" := ElementRow(pg, item)])
  }

  // ---------- in the tree ----------

  // A number or date comparison on a text that the guard lets through and that does not cast.
  predicate LeafMayRaise(pg: Postgres, f: FieldFilter, row: Row) {
    && f.isNull.None? && f.kind.KindScalar? && f.isJson
    && (f.op.Gt? || f.op.Lt? || f.op.Gte? || f.op.Lte?)
    && CastRaises(pg, CastOf(f.lexiconType), TextAt(pg, row.json, Path(f)))
  }

  // Some leaf may, on the row itself or on a row that a join or an array brings in.
  ghost predicate TreeMayRaise(pg: Postgres, db: seq<Row>, g: FilterGroup, root: Row, row: Row)
    decreases g
  {
    || (exists f | f in g.filters :: LeafMayRaise(pg, f, row))
    || (exists c | c in g.children :: TreeMayRaise(pg, db, c, root, row))
    || (exists j | j in g.joined :: JoinMayRaise(pg, db, j, root))
    || (exists a | a in g.arrays :: ArrayMayRaise(pg, db, a, root))
  }

  ghost predicate JoinMayRaise(pg: Postgres, db: seq<Row>, j: JoinedFilter, root: Row)
    decreases j
  {
    exists rec | rec in db :: TreeMayRaise(pg, db, j.inner, root, rec)
  }

  ghost predicate ArrayMayRaise(pg: Postgres, db: seq<Row>, a: ArrayFilter, root: Row)
    decreases a
  {
    exists item | item in Elements(root.json, a.arrayPath) :: TreeMayRaise(pg, db, a.inner, root, ElementRow(pg, item))
  }

  ghost predicate EntryMayRaise(pg: Postgres, db: seq<Row>, g: FilterGroup, k: nat, root: Row, row: Row)
    requires k < Total(g)
  {
    var c := |g.filters|;
    var j := c + |g.children|;
    var a := j + |g.joined|;
    if k < c then LeafMayRaise(pg, g.filters[k], row)
    else if k < j then TreeMayRaise(pg, db, g.children[k - c], root, row)
    else if k < a then JoinMayRaise(pg, db, g.joined[k - j], root)
    else ArrayMayRaise(pg, db, g.arrays[k - a], root)
  }

  ghost predicate SomeEntryMayRaise(pg: Postgres, db: seq<Row>, g: FilterGroup, from: nat, root: Row, row: Row) {
    exists k :: from <= k < Total(g) && EntryMayRaise(pg, db, g, k, root, row)
  }

  lemma TreeByEntries(pg: Postgres, db: seq<Row>, g: FilterGroup, root: Row, row: Row)
    ensures TreeMayRaise(pg, db, g, root, row) <==> SomeEntryMayRaise(pg, db, g, 0, root, row)
  {
    if TreeMayRaise(pg, db, g, root, row) {
      var k := TreeEntry(pg, db, g, root, row);
    }
    if k :| 0 <= k < Total(g) && EntryMayRaise(pg, db, g, k, root, row) {
      EntryOfTree(pg, db, g, k, root, row);
    }
  }

  lemma TreeEntry(pg: Postgres, db: seq<Row>, g: FilterGroup, root: Row, row: Row) returns (k: nat)
    requires TreeMayRaise(pg, db, g, root, row)
    ensures k < Total(g) && EntryMayRaise(pg, db, g, k, root, row)
  {
    var c := |g.filters|;
    var j := c + |g.children|;
    if f :| f in g.filters && LeafMayRaise(pg, f, row) {
      k :| 0 <= k < |g.filters| && g.filters[k] == f;
    } else if child :| child in g.children && TreeMayRaise(pg, db, child, root, row) {
      var i :| 0 <= i < |g.children| && g.children[i] == child;
      k := c + i;
    } else if join :| join in g.joined && JoinMayRaise(pg, db, join, root) {
      var i :| 0 <= i < |g.joined| && g.joined[i] == join;
      k := j + i;
    } else {
      var arr :| arr in g.arrays && ArrayMayRaise(pg, db, arr, root);
      var i :| 0 <= i < |g.arrays| && g.arrays[i] == arr;
      k := j + |g.joined| + i;
    }
  }

  lemma EntryOfTree(pg: Postgres, db: seq<Row>, g: FilterGroup, k: nat, root: Row, row: Row)
    requires k < Total(g) && EntryMayRaise(pg, db, g, k, root, row)
    ensures TreeMayRaise(pg, db, g, root, row)
  {
    var c := |g.filters|;
    var j := c + |g.children|;
    if k < c {
      assert g.filters[k] in g.filters;
    } else if k < j {
      assert g.children[k - c] in g.children;
    } else if k < j + |g.joined| {
      assert g.joined[k - j] in g.joined;
    } else {
      assert g.arrays[k - j - |g.joined|] in g.arrays;
    }
  }

  // ---------- the connection ----------

  ghost predicate RaisesEntries(pg: Postgres, db: seq<Row>, cs: seq<Cond>, alias: string, g: FilterGroup, from: nat) {
    forall scope: Scope, root: Row, row: Row | InScope(scope, alias, root, row) ::
      SomeRaises(pg, db, cs, scope) <==> SomeEntryMayRaise(pg, db, g, from, root, row)
  }

  ghost predicate RaisesEntry(pg: Postgres, db: seq<Row>, cs: seq<Cond>, alias: string, g: FilterGroup, k: nat)
    requires k < Total(g)
  {
    forall scope: Scope, root: Row, row: Row | InScope(scope, alias, root, row) ::
      SomeRaises(pg, db, cs, scope) <==> EntryMayRaise(pg, db, g, k, root, row)
  }

  ghost predicate RaisesGroup(pg: Postgres, db: seq<Row>, c: Cond, alias: string, g: FilterGroup) {
    forall scope: Scope, root: Row, row: Row | InScope(scope, alias, root, row) ::
      MayRaise(pg, db, c, scope) <==> TreeMayRaise(pg, db, g, root, row)
  }

  ghost predicate SomeRaises(pg: Postgres, db: seq<Row>, cs: seq<Cond>, scope: Scope) {
    exists i :: 0 <= i < |cs| && MayRaise(pg, db, cs[i], scope)
  }

  lemma {:induction false} FoldedRaises(pg: Postgres, db: seq<Row>, cs: seq<Cond>, op: GroupOperator, scope: Scope)
    requires |cs| > 0
    ensures MayRaise(pg, db, Folded(cs, op), scope) <==> SomeRaises(pg, db, cs, scope)
  {
    if |cs| == 1 {
      assert MayRaise(pg, db, cs[0], scope) <==> SomeRaises(pg, db, cs, scope);
    } else {
      FoldedRaises(pg, db, cs[1..], op, scope);
      RaisesOfBoth(pg, db, [cs[0]], cs[1..], scope);
      assert [cs[0]] + cs[1..] == cs;
      assert SomeRaises(pg, db, [cs[0]], scope) <==> MayRaise(pg, db, [cs[0]][0], scope);
    }
  }

  lemma RaisesOfBoth(pg: Postgres, db: seq<Row>, head: seq<Cond>, tail: seq<Cond>, scope: Scope)
    ensures SomeRaises(pg, db, head + tail, scope) <==>
            SomeRaises(pg, db, head, scope) || SomeRaises(pg, db, tail, scope)
  {
    var cs := head + tail;
    if i :| 0 <= i < |head| && MayRaise(pg, db, head[i], scope) {
      assert MayRaise(pg, db, cs[i], scope);
    }
    if i :| 0 <= i < |tail| && MayRaise(pg, db, tail[i], scope) {
      assert MayRaise(pg, db, cs[|head| + i], scope);
    }
    if i :| 0 <= i < |cs| && MayRaise(pg, db, cs[i], scope) {
      assert cs[i] == if i < |head| then head[i] else tail[i - |head|];
    }
  }

  lemma LeafRaises(pg: Postgres, db: seq<Row>, f: FieldFilter, p: int, alias: string, scope: Scope, root: Row, row: Row)
    requires LeafFragment(f, p, alias).Ok? && InScope(scope, alias, root, row)
    ensures MayRaise(pg, db, LeafCond(f, p, alias), scope) <==> LeafMayRaise(pg, f, row)
  {
    var e := JsonExtract(alias, f);
    assert !ExprMayRaise(pg, e, scope) && !ExprMayRaise(pg, Lower(e), scope);
    if f.isNull.None? && f.kind.KindScalar? && (f.op.Gt? || f.op.Lt? || f.op.Gte? || f.op.Lte?) {
      var typed := JsonExtractTyped(alias, f);
      assert ExprMayRaise(pg, typed, scope) <==>
             f.isJson && CastRaises(pg, CastOf(f.lexiconType), TextAt(pg, row.json, Path(f)));
    }
  }

  // The condition that a present tree's clause reads as may raise exactly when the tree may.
  lemma {:induction false} GroupRaises(pg: Postgres, db: seq<Row>, g: FilterGroup, p: int, depth: nat, alias: string)
    returns (c: Cond)
    requires Present(g) && GroupFragment(g, p, depth, alias).Ok?
    ensures ReadsOr(GroupFragment(g, p, depth, alias).value.clause, c)
    ensures RaisesGroup(pg, db, c, alias, g)
    decreases g, Total(g) + 2
  {
    NothingIffAbsent(g, p, depth, alias);
    var cs := EntriesRaise(pg, db, g, 0, p, depth, alias);
    JoinReads(EntriesFrom(g, 0, p, depth, alias).value.clauses, cs, g.op);
    c := Folded(cs, g.op);
    forall scope: Scope, root: Row, row: Row | InScope(scope, alias, root, row)
      ensures MayRaise(pg, db, c, scope) <==> TreeMayRaise(pg, db, g, root, row)
    {
      FoldedRaises(pg, db, cs, g.op, scope);
      TreeByEntries(pg, db, g, root, row);
    }
  }

  lemma {:induction false} EntriesRaise(pg: Postgres, db: seq<Row>, g: FilterGroup, k: nat, p: int, depth: nat,
                                        alias: string)
    returns (cs: seq<Cond>)
    requires k <= Total(g) && EntriesFrom(g, k, p, depth, alias).Ok?
    ensures ReadsAll(EntriesFrom(g, k, p, depth, alias).value.clauses, cs)
    ensures RaisesEntries(pg, db, cs, alias, g, k)
    decreases g, Total(g) - k, 1
  {
    if k == Total(g) {
      cs := [];
    } else {
      ClausesSplit(g, k, p, depth, alias);
      var first := EntrySection(g, k, p, depth, alias).value;
      var rest := EntriesFrom(g, k + 1, p + |first.params|, depth, alias).value;
      var head := EntryRaises(pg, db, g, k, p, depth, alias);
      var tail := EntriesRaise(pg, db, g, k + 1, p + |first.params|, depth, alias);
      cs := head + tail;
      ReadsBoth(first.clauses, rest.clauses, head, tail);
      RaisesBoth(pg, db, head, tail, alias, g, k);
    }
  }

  lemma RaisesBoth(pg: Postgres, db: seq<Row>, head: seq<Cond>, tail: seq<Cond>, alias: string, g: FilterGroup, k: nat)
    requires k < Total(g) && RaisesEntry(pg, db, head, alias, g, k) && RaisesEntries(pg, db, tail, alias, g, k + 1)
    ensures RaisesEntries(pg, db, head + tail, alias, g, k)
  {
    forall scope: Scope, root: Row, row: Row | InScope(scope, alias, root, row)
      ensures SomeRaises(pg, db, head + tail, scope) <==> SomeEntryMayRaise(pg, db, g, k, root, row)
    {
      RaisesOfBoth(pg, db, head, tail, scope);
      assert SomeEntryMayRaise(pg, db, g, k, root, row) <==>
             EntryMayRaise(pg, db, g, k, root, row) || SomeEntryMayRaise(pg, db, g, k + 1, root, row);
    }
  }

  // A tree that compiles to nothing has no leaf to raise.
  lemma {:induction false} AbsentIsQuiet(pg: Postgres, db: seq<Row>, g: FilterGroup, root: Row, row: Row)
    requires !Present(g)
    ensures !TreeMayRaise(pg, db, g, root, row)
    decreases g
  {
    forall c | c in g.children ensures !TreeMayRaise(pg, db, c, root, row) {
      AbsentIsQuiet(pg, db, c, root, row);
    }
  }

  lemma {:induction false} EntryRaises(pg: Postgres, db: seq<Row>, g: FilterGroup, k: nat, p: int, depth: nat,
                                       alias: string)
    returns (cs: seq<Cond>)
    requires k < Total(g) && EntrySection(g, k, p, depth, alias).Ok?
    ensures ReadsAll(EntrySection(g, k, p, depth, alias).value.clauses, cs)
    ensures RaisesEntry(pg, db, cs, alias, g, k)
    decreases g, Total(g) - k, 0
  {
    var c := |g.filters|;
    var j := c + |g.children|;
    var a := j + |g.joined|;
    if k < c {
      var f := g.filters[k];
      cs := [LeafCond(f, p, alias)];
      LeafReads(f, p, alias);
      forall scope: Scope, root: Row, row: Row | InScope(scope, alias, root, row)
        ensures SomeRaises(pg, db, cs, scope) <==> EntryMayRaise(pg, db, g, k, root, row)
      {
        LeafRaises(pg, db, f, p, alias, scope, root, row);
        assert SomeRaises(pg, db, cs, scope) <==> MayRaise(pg, db, cs[0], scope);
      }
    } else if k < j {
      cs := ChildRaises(pg, db, g, k, p, depth, alias);
    } else if k < a {
      cs := JoinedRaises(pg, db, g, k, p, depth, alias);
    } else {
      cs := ArrayRaises(pg, db, g, k, p, depth, alias);
    }
  }

  lemma {:induction false} ChildRaises(pg: Postgres, db: seq<Row>, g: FilterGroup, k: nat, p: int, depth: nat,
                                       alias: string)
    returns (cs: seq<Cond>)
    requires |g.filters| <= k < |g.filters| + |g.children| && EntrySection(g, k, p, depth, alias).Ok?
    ensures ReadsAll(EntrySection(g, k, p, depth, alias).value.clauses, cs)
    ensures RaisesEntry(pg, db, cs, alias, g, k)
    decreases g, 0, 0
  {
    var child := g.children[k - |g.filters|];
    NothingIffAbsent(child, p, depth + 1, alias);
    cs := [];
    if Present(child) {
      var body := GroupRaises(pg, db, child, p, depth + 1, alias);
      ParenthesesRead(GroupFragment(child, p, depth + 1, alias).value.clause, body);
      cs := [body];
    }
    forall scope: Scope, root: Row, row: Row | InScope(scope, alias, root, row)
      ensures SomeRaises(pg, db, cs, scope) <==> EntryMayRaise(pg, db, g, k, root, row)
    {
      if Present(child) {
        assert SomeRaises(pg, db, cs, scope) <==> MayRaise(pg, db, cs[0], scope);
      } else {
        AbsentIsQuiet(pg, db, child, root, row);
      }
    }
  }

  lemma {:induction false} JoinedRaises(pg: Postgres, db: seq<Row>, g: FilterGroup, k: nat, p: int, depth: nat,
                                        alias: string)
    returns (cs: seq<Cond>)
    requires var j := |g.filters| + |g.children|; j <= k < j + |g.joined|
    requires EntrySection(g, k, p, depth, alias).Ok?
    ensures ReadsAll(EntrySection(g, k, p, depth, alias).value.clauses, cs)
    ensures RaisesEntry(pg, db, cs, alias, g, k)
    decreases g, 0, 0
  {
    var join := g.joined[k - |g.filters| - |g.children|];
    var inner := GroupFragment(join.inner, p, 0, "d").value;
    NothingIffAbsent(join.inner, p, 0, "d");
    var innerCond := None;
    if Present(join.inner) {
      var body := GroupRaises(pg, db, join.inner, p, 0, "d");
      innerCond := Some(body);
    }
    var n := p + |inner.params|;
    JoinedReads(join, inner.clause, innerCond, n);
    cs := [SomeRecord(Folded(JoinedConds(join, innerCond, n), GroupAnd))];
    forall scope: Scope, root: Row, row: Row | InScope(scope, alias, root, row)
      ensures SomeRaises(pg, db, cs, scope) <==> EntryMayRaise(pg, db, g, k, root, row)
    {
      assert SomeRaises(pg, db, cs, scope) <==> MayRaise(pg, db, cs[0], scope);
      forall rec: Row
        ensures MayRaise(pg, db, Folded(JoinedConds(join, innerCond, n), GroupAnd), scope["d" := rec]) <==>
                TreeMayRaise(pg, db, join.inner, root, rec)
      {
        RecordRaises(pg, db, join, innerCond, n, scope["d" := rec], root, rec);
      }
      SubqueryRaises(pg, db, join, Folded(JoinedConds(join, innerCond, n), GroupAnd), scope, root);
      assert EntryMayRaise(pg, db, g, k, root, row) <==> JoinMayRaise(pg, db, join, root);
    }
  }

  lemma SubqueryRaises(pg: Postgres, db: seq<Row>, join: JoinedFilter, body: Cond, scope: Scope, root: Row)
    requires forall rec: Row ::
               MayRaise(pg, db, body, scope["d" := rec]) <==> TreeMayRaise(pg, db, join.inner, root, rec)
    ensures MayRaise(pg, db, SomeRecord(body), scope) <==> JoinMayRaise(pg, db, join, root)
  {
  }

  lemma RecordRaises(pg: Postgres, db: seq<Row>, join: JoinedFilter, c: Option<Cond>, n: int, scope: Scope,
                     root: Row, rec: Row)
    requires c.Some? <==> Present(join.inner)
    requires c.Some? ==> RaisesGroup(pg, db, c.value, "d", join.inner)
    requires InScope(scope, "d", root, rec)
    ensures MayRaise(pg, db, Folded(JoinedConds(join, c, n), GroupAnd), scope) <==>
            TreeMayRaise(pg, db, join.inner, root, rec)
  {
    var cs := JoinedConds(join, c, n);
    FoldedRaises(pg, db, cs, GroupAnd, scope);
    assert !MayRaise(pg, db, cs[0], scope) && !MayRaise(pg, db, cs[1], scope);
    if c.Some? {
      assert cs[2] == c.value;
    } else {
      AbsentIsQuiet(pg, db, join.inner, root, rec);
    }
  }

  lemma {:induction false} ArrayRaises(pg: Postgres, db: seq<Row>, g: FilterGroup, k: nat, p: int, depth: nat,
                                       alias: string)
    returns (cs: seq<Cond>)
    requires |g.filters| + |g.children| + |g.joined| <= k < Total(g) && EntrySection(g, k, p, depth, alias).Ok?
    ensures ReadsAll(EntrySection(g, k, p, depth, alias).value.clauses, cs)
    ensures RaisesEntry(pg, db, cs, alias, g, k)
    decreases g, 0, 0
  {
    var arr := g.arrays[k - |g.filters| - |g.children| - |g.joined|];
    var inner := GroupFragment(arr.inner, p, 0, "e").value;
    NothingIffAbsent(arr.inner, p, 0, "e");
    if Present(arr.inner) {
      var body := GroupRaises(pg, db, arr.inner, p, 0, "e");
      ArrayReads(arr, inner.clause, body);
      cs := [SomeElementWhere(arr.arrayPath, body)];
    } else {
      BareArrayReads(arr);
      cs := [SomeElement(arr.arrayPath)];
    }
    forall scope: Scope, root: Row, row: Row | InScope(scope, alias, root, row)
      ensures SomeRaises(pg, db, cs, scope) <==> EntryMayRaise(pg, db, g, k, root, row)
    {
      assert SomeRaises(pg, db, cs, scope) <==> MayRaise(pg, db, cs[0], scope);
      ElementRaises(pg, db, arr, cs[0], scope, root);
      assert scope["r"] == root;
      assert EntryMayRaise(pg, db, g, k, root, row) <==> ArrayMayRaise(pg, db, arr, root);
    }
  }

  lemma {:induction false} ElementRaises(pg: Postgres, db: seq<Row>, a: ArrayFilter, c: Cond, scope: Scope, root: Row)
    requires c == SomeElement(a.arrayPath) || (c.SomeElementWhere? && c.path == a.arrayPath)
    requires if Present(a.inner) then c.SomeElementWhere? && RaisesGroup(pg, db, c.body, "e", a.inner)
             else c.SomeElement?
    requires "r" in scope && scope["r"] == root
    ensures MayRaise(pg, db, c, scope) <==> ArrayMayRaise(pg, db, a, root)
  {
    forall item: J.Json
      ensures TreeMayRaise(pg, db, a.inner, root, ElementRow(pg, item)) <==>
              c.SomeElementWhere? && MayRaise(pg, db, c.body, scope["e" := ElementRow(pg, item)])
    {
      if Present(a.inner) {
        assert InScope(scope["e" := ElementRow(pg, item)], "e", root, ElementRow(pg, item));
      } else {
        AbsentIsQuiet(pg, db, a.inner, root, ElementRow(pg, item));
      }
    }
  }

  // Evaluating the emitted clause on a record can raise exactly when some ordered leaf
  // meets, on a row it may be asked of, a text that passes its guard and does not cast.
  lemma ClauseRaisesIff(pg: Postgres, db: seq<Row>, g: FilterGroup, p: int, row: Row)
    requires Compile(g, p).Ok?
    ensures var clause := Compile(g, p).value.clause;
            if clause == [] then !TreeMayRaise(pg, db, g, row, row)
            else Read(clause).Some? &&
                 (MayRaise(pg, db, Read(clause).value, map["r" := row]) <==> TreeMayRaise(pg, db, g, row, row))
  {
    NothingIffAbsent(g, p, 0, "r");
    if Present(g) {
      var clause := Compile(g, p).value.clause;
      var c := GroupRaises(pg, db, g, p, 0, "r");
      assert clause + [] == clause;
      assert ParseOr(clause + []) == Some((c, []));
      assert InScope(map["r" := row], "r", row, row);
    } else {
      AbsentIsQuiet(pg, db, g, row, row);
    }
  }

  // ---------- whether any filter can raise at all ----------

  // Evaluating what the tree compiles to may raise on the row.
  ghost predicate Raises(pg: Postgres, db: seq<Row>, g: FilterGroup, p: int, row: Row) {
    && Compile(g, p).Ok? && Compile(g, p).value.clause != [] && Read(Compile(g, p).value.clause).Some?
    && MayRaise(pg, db, Read(Compile(g, p).value.clause).value, map["r" := row])
  }

  // Every text that the guard lets through casts.
  ghost predicate GuardSuffices(pg: Postgres) {
    forall cast: Cast, t: string | !cast.NoCast? && Castable(cast, t) :: pg.casts(cast, t)
  }

  lemma {:induction false} QuietTree(pg: Postgres, db: seq<Row>, g: FilterGroup, root: Row, row: Row)
    requires GuardSuffices(pg)
    ensures !TreeMayRaise(pg, db, g, root, row)
    decreases g
  {
    forall c | c in g.children ensures !TreeMayRaise(pg, db, c, root, row) {
      QuietTree(pg, db, c, root, row);
    }
    forall j | j in g.joined ensures !JoinMayRaise(pg, db, j, root) {
      forall rec | rec in db ensures !TreeMayRaise(pg, db, j.inner, root, rec) {
        QuietTree(pg, db, j.inner, root, rec);
      }
    }
    forall a | a in g.arrays ensures !ArrayMayRaise(pg, db, a, root) {
      forall item: J.Json ensures !TreeMayRaise(pg, db, a.inner, root, ElementRow(pg, item)) {
        QuietTree(pg, db, a.inner, root, ElementRow(pg, item));
      }
    }
  }

  function Lone(f: FieldFilter): FilterGroup {
    FilterGroup(GroupAnd, [f], [], [], [])
  }

  // A tree of one accepted condition compiles, and may raise where its leaf may.
  lemma LoneCompiles(f: FieldFilter, p: int)
    requires LeafFragment(f, p, "r").Ok?
    ensures Compile(Lone(f), p).Ok?
  {
    var g := Lone(f);
    assert CountConditions(g) == 1;
    assert EntrySection(g, 0, p, 0, "r").Ok?;
    var next := p + |EntrySection(g, 0, p, 0, "r").value.params|;
    assert EntriesFrom(g, 1, next, 0, "r").Ok?;
    assert EntriesFrom(g, 0, p, 0, "r").Ok?;
  }

  lemma LoneRaises(pg: Postgres, db: seq<Row>, f: FieldFilter, p: int, row: Row)
    requires LeafFragment(f, p, "r").Ok? && LeafMayRaise(pg, f, row)
    ensures Raises(pg, db, Lone(f), p, row)
  {
    LoneCompiles(f, p);
    assert f in Lone(f).filters;
    assert TreeMayRaise(pg, db, Lone(f), row, row);
    ClauseRaisesIff(pg, db, Lone(f), p, row);
  }

  // `x > 5` on a field of the type that needs the cast.
  function GreaterThanFive(cast: Cast): FieldFilter {
    var kind := if cast.Timestamp? then "datetime" else "integer";
    FieldFilter("x", Gt, One(Number(5.0, "5")), None, true, kind, KindScalar)
  }

  lemma PathOfX()
    ensures FieldPath.ValidName("x") && FieldPath.Split("x") == ["x"]
  {
  }

  lemma HoldsText(pg: Postgres, t: string)
    ensures TextAt(pg, J.JObj(map["x" := J.JStr(t)]), ["x"]) == Some(t)
  {
    assert J.Follow(J.JStr(t), ["x"][1..]) == Some(J.JStr(t));
  }

  // A condition on one field is enough to raise, on a record that holds such a text there.
  lemma TextRaises(pg: Postgres, db: seq<Row>, cast: Cast, t: string, columns: map<string, Option<string>>)
    requires !cast.NoCast? && Castable(cast, t) && !pg.casts(cast, t)
    ensures Raises(pg, db, Lone(GreaterThanFive(cast)), 1, Row(J.JObj(map["x" := J.JStr(t)]), columns))
  {
    PathOfX();
    HoldsText(pg, t);
    LoneRaises(pg, db, GreaterThanFive(cast), 1, Row(J.JObj(map["x" := J.JStr(t)]), columns));
  }

  // No filter can raise on any record exactly when every guarded text casts.
  lemma NeverRaisesIff(pg: Postgres, db: seq<Row>)
    ensures (forall g, p, row :: !Raises(pg, db, g, p, row)) <==> GuardSuffices(pg)
  {
    if GuardSuffices(pg) {
      forall g, p, row ensures !Raises(pg, db, g, p, row) {
        if Compile(g, p).Ok? {
          ClauseRaisesIff(pg, db, g, p, row);
          QuietTree(pg, db, g, row, row);
        }
      }
    } else {
      var cast: Cast, t: string :| !cast.NoCast? && Castable(cast, t) && !pg.casts(cast, t);
      TextRaises(pg, db, cast, t, map[]);
    }
  }

  // It does not suffice: `x > 5` is an accepted filter, and a record whose x is "12abc" ends its query.
  lemma GuardIsNotEnough(pg: Postgres, db: seq<Row>)
    requires !pg.casts(Numeric, "12abc")
    ensures Raises(pg, db, Lone(GreaterThanFive(Numeric)), 1, Row(J.JObj(map["x" := J.JStr("12abc")]), map[]))
  {
    TextRaises(pg, db, Numeric, "12abc", map[]);
  }
}
