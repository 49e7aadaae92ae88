/**
 What a filter tree asks of a record, stated on the tree alone, and the proof
 that the compiled fragment, read back as SQL, asks exactly that.
 */
module FilterSemantics {
  import opened Wrappers
  import opened FilterTree
  import opened SqlReading
  import C = FilterCompiler
  import J = Json
  import LikePattern

  function Path(f: FieldFilter): seq<string> {
    C.Path(f)
  }

  // The text a leaf looks at: the JSON field at its path, or the column.
  function FieldText(pg: Postgres, f: FieldFilter, row: Row): Option<string> {
    if f.isJson then TextAt(pg, row.json, Path(f)) else ColumnOf(row, f.fieldName)
  }

  // A value as text; null compares equal to nothing.
  function ValueText(v: Value): Option<string> {
    if v.One? && !v.a.Nil? then Some(Shown(v.a)) else None
  }

  ghost predicate OneOf(f: FieldFilter, t: Option<string>) {
    t.Some? && if f.op.Eq? then ValueText(f.value) == t else t.value in ListTexts(f.value)
  }

  ghost predicate Ordered(pg: Postgres, f: FieldFilter, row: Row, holds: int -> bool) {
    var t := FieldText(pg, f, row);
    var cast := if f.isJson then C.CastOf(f.lexiconType) else C.NoCast;
    t.Some? && Castable(cast, t.value) && pg.compare(cast, t.value, f.value).Some?
    && holds(pg.compare(cast, t.value, f.value).value)
  }

  // Does one condition hold of the row?  A missing field satisfies `neq`, a list
  // that contains null, and `isNull: true`, and nothing else.
  ghost predicate LeafHolds(pg: Postgres, f: FieldFilter, row: Row) {
    var t := FieldText(pg, f, row);
    if f.isNull.Some? then f.isNull.value == t.None?
    else
      match f.kind
      case KindArrayContributor =>
        var ids := ContributorIdentities(pg, row.json);
        ids.Some? && exists id | id in ids.value :: OneOf(f, id)
      case KindUnionSubject => OneOf(f, ColumnOf(row, "subject_did"))
      case KindStringSubject => OneOf(f, TextAt(pg, row.json, ["subject"]))
      case KindScalar =>
        match f.op
        case Eq =>
          if f.isJson then
            var j := J.Follow(row.json, Path(f));
            j.Some? && if J.Scalar(C.ToJson(f.value)) then j.value == C.ToJson(f.value)
                       else J.DeepContains(j.value, C.ToJson(f.value))
          else t.Some? && t == ValueText(f.value)
        case Neq => t.None? || (ValueText(f.value).Some? && t != ValueText(f.value))
        case Gt => Ordered(pg, f, row, o => o > 0)
        case Lt => Ordered(pg, f, row, o => o < 0)
        case Gte => Ordered(pg, f, row, o => o >= 0)
        case Lte => Ordered(pg, f, row, o => o <= 0)
        case In => if t.None? then HasNull(f.value) else t.value in ListTexts(f.value)
        case Eqi => t.Some? && f.value.One? && f.value.a.Text? && AsciiLower(t.value) == AsciiLower(f.value.a.s)
        case Ini =>
          if t.None? then HasNull(f.value)
          else exists v | v in ListTexts(f.value) :: AsciiLower(t.value) == AsciiLower(v)
        case Contains =>
          t.Some? && f.value.One? && f.value.a.Text? &&
          LikePattern.Substring(LikePattern.Fold(pg.fold, f.value.a.s), LikePattern.Fold(pg.fold, t.value))
        case StartsWith =>
          t.Some? && f.value.One? && f.value.a.Text? &&
          LikePattern.Fold(pg.fold, f.value.a.s) <= LikePattern.Fold(pg.fold, t.value)
        case OtherOperator => false
  }

  // Does the group hold of `row`?  `root` is the outer record that join and array
  // paths refer to.  Absent children do not take part.
  ghost predicate Holds(pg: Postgres, db: seq<Row>, g: FilterGroup, root: Row, row: Row)
    decreases g
  {
    if g.op.GroupOr? then
      || (exists f | f in g.filters :: LeafHolds(pg, f, row))
      || (exists c | c in g.children :: Present(c) && Holds(pg, db, c, root, row))
      || (exists j | j in g.joined :: JoinHolds(pg, db, j, root))
      || (exists a | a in g.arrays :: ArrayHolds(pg, db, a, root))
    else
      && (forall f | f in g.filters :: LeafHolds(pg, f, row))
      && (forall c | c in g.children :: Present(c) ==> Holds(pg, db, c, root, row))
      && (forall j | j in g.joined :: JoinHolds(pg, db, j, root))
      && (forall a | a in g.arrays :: ArrayHolds(pg, db, a, root))
  }

  // Some record of the target collection has the referenced URI and satisfies the inner tree.
  ghost predicate JoinHolds(pg: Postgres, db: seq<Row>, j: JoinedFilter, root: Row)
    decreases j
  {
    exists rec | rec in db :: JoinedTo(pg, j, root, rec) && (Present(j.inner) ==> Holds(pg, db, j.inner, root, rec))
  }

  predicate JoinedTo(pg: Postgres, j: JoinedFilter, root: Row, rec: Row) {
    var uri := TextAt(pg, root.json, j.joinPath);
    ColumnOf(rec, "collection") == Some(j.target) && uri.Some? && ColumnOf(rec, "uri") == uri
  }

  // Some element of the array satisfies the inner tree.
  ghost predicate ArrayHolds(pg: Postgres, db: seq<Row>, a: ArrayFilter, root: Row)
    decreases a
  {
    exists item | item in Elements(root.json, a.arrayPath) ::
      Present(a.inner) ==> Holds(pg, db, a.inner, root, ElementRow(pg, item))
  }

  // A query with an absent tree puts no condition on the record.
  ghost predicate Selects(pg: Postgres, db: seq<Row>, g: FilterGroup, row: Row) {
    Present(g) ==> Holds(pg, db, g, row, row)
  }
}

module FilterMeaning {
  import opened Wrappers
  import opened FilterTree
  import opened FilterCompiler
  import opened SqlReading
  import opened S = FilterSemantics
  import J = Json
  import Containment
  import LikePattern

  // ---------- reading back what the compiler prints ----------

  ghost predicate ReadsPrimary(ts: seq<Token>, c: Cond) {
    forall rest: seq<Token> :: ParsePrimary(ts + rest) == Some((c, rest))
  }

  predicate EndsOr(rest: seq<Token>) {
    rest == [] || (!rest[0].AND? && !rest[0].OR?)
  }

  ghost predicate ReadsOr(ts: seq<Token>, c: Cond) {
    forall rest: seq<Token> | EndsOr(rest) :: ParseOr(ts + rest) == Some((c, rest))
  }

  ghost predicate ReadsAll(clauses: seq<seq<Token>>, cs: seq<Cond>) {
    |cs| == |clauses| && forall i | 0 <= i < |cs| :: ReadsPrimary(clauses[i], cs[i])
  }

  function Folded(cs: seq<Cond>, op: GroupOperator): Cond
    requires |cs| > 0
  {
    if |cs| == 1 then cs[0]
    else if op.GroupOr? then Either(cs[0], Folded(cs[1..], op))
    else Both(cs[0], Folded(cs[1..], op))
  }

  lemma Instance(clauses: seq<seq<Token>>, cs: seq<Cond>, rest: seq<Token>)
    requires |cs| > 0 && ReadsAll(clauses, cs)
    ensures ParsePrimary(clauses[0] + rest) == Some((cs[0], rest))
    ensures |cs| > 1 ==> ReadsAll(clauses[1..], cs[1..])
  {
    assert ReadsPrimary(clauses[0], cs[0]);
    forall i | 0 <= i < |cs| - 1 ensures ReadsPrimary(clauses[1..][i], cs[1..][i]) {
      assert ReadsPrimary(clauses[i + 1], cs[i + 1]);
    }
  }

  lemma AndStep(ts: seq<Token>, c: Cond, rest: seq<Token>)
    requires ParsePrimary(ts) == Some((c, rest))
    ensures rest == [] || !rest[0].AND? ==> ParseAnd(ts) == Some((c, rest))
    ensures rest != [] && rest[0].AND? && ParseAnd(rest[1..]).Some? ==>
            var right := ParseAnd(rest[1..]).value;
            ParseAnd(ts) == Some((Both(c, right.0), right.1))
  {
  }

  lemma OrStep(ts: seq<Token>, c: Cond, rest: seq<Token>)
    requires ParseAnd(ts) == Some((c, rest))
    ensures rest == [] || !rest[0].OR? ==> ParseOr(ts) == Some((c, rest))
    ensures rest != [] && rest[0].OR? && ParseOr(rest[1..]).Some? ==>
            var right := ParseOr(rest[1..]).value;
            ParseOr(ts) == Some((Either(c, right.0), right.1))
  {
  }

  lemma {:induction false} JoinParses(clauses: seq<seq<Token>>, cs: seq<Cond>, op: GroupOperator, rest: seq<Token>)
    requires |cs| > 0 && ReadsAll(clauses, cs) && EndsOr(rest)
    ensures ParseOr(Join(clauses, Joiner(op)) + rest) == Some((Folded(cs, op), rest))
    ensures op.GroupAnd? ==> ParseAnd(Join(clauses, Joiner(op)) + rest) == Some((Folded(cs, op), rest))
    decreases |cs|
  {
    var ts := Join(clauses, Joiner(op)) + rest;
    if |cs| == 1 {
      Instance(clauses, cs, rest);
      AndStep(ts, cs[0], rest);
    } else {
      var more := Join(clauses[1..], Joiner(op)) + rest;
      var tail := [Joiner(op)] + more;
      assert ts == clauses[0] + tail;
      Instance(clauses, cs, tail);
      assert tail[1..] == more;
      JoinParses(clauses[1..], cs[1..], op, rest);
      AndStep(ts, cs[0], tail);
      if op.GroupOr? {
        OrStep(ts, cs[0], tail);
      }
    }
    if op.GroupAnd? || |cs| == 1 {
      OrStep(ts, Folded(cs, op), rest);
    }
  }

  lemma {:induction false} JoinReads(clauses: seq<seq<Token>>, cs: seq<Cond>, op: GroupOperator)
    requires |cs| > 0 && ReadsAll(clauses, cs)
    ensures ReadsOr(Join(clauses, Joiner(op)), Folded(cs, op))
  {
    forall rest: seq<Token> | EndsOr(rest)
      ensures ParseOr(Join(clauses, Joiner(op)) + rest) == Some((Folded(cs, op), rest))
    {
      JoinParses(clauses, cs, op, rest);
    }
  }

  lemma {:induction false} ClosedReads(ts: seq<Token>, c: Cond, rest: seq<Token>)
    requires ReadsOr(ts, c)
    ensures ParseClosed(ts + [RP] + rest) == Some((c, rest))
  {
    assert ts + [RP] + rest == ts + ([RP] + rest);
    assert ParseOr(ts + ([RP] + rest)) == Some((c, [RP] + rest));
  }

  lemma ParenthesesRead(ts: seq<Token>, c: Cond)
    requires ReadsOr(ts, c)
    ensures ReadsPrimary([LP] + ts + [RP], c)
  {
    forall rest: seq<Token> ensures ParsePrimary([LP] + ts + [RP] + rest) == Some((c, rest)) {
      ClosedReads(ts, c, rest);
      assert ([LP] + ts + [RP] + rest)[1..] == ts + [RP] + rest;
    }
  }

  lemma ComparisonReads(e: Expr, op: CmpOp, n: int)
    ensures ReadsPrimary([Val(e), Op(op), Param(n)], Cmp(e, op, n))
  {
    forall rest: seq<Token> ensures ParsePrimary([Val(e), Op(op), Param(n)] + rest) == Some((Cmp(e, op, n), rest)) {
      var ts := [Val(e), Op(op), Param(n)] + rest;
      assert ts[1..] == [Op(op), Param(n)] + rest && ts[1..][2..] == rest;
    }
  }

  lemma SameReads(e: Expr, op: CmpOp, other: Expr)
    ensures ReadsPrimary([Val(e), Op(op), Val(other)], Same(e, op, other))
  {
    forall rest: seq<Token>
      ensures ParsePrimary([Val(e), Op(op), Val(other)] + rest) == Some((Same(e, op, other), rest))
    {
      var ts := [Val(e), Op(op), Val(other)] + rest;
      assert ts[1..] == [Op(op), Val(other)] + rest && ts[1..][2..] == rest;
    }
  }

  lemma NullTestReads(e: Expr, yes: bool)
    ensures ReadsPrimary([Val(e), if yes then IsNullTok else IsNotNullTok], NullTest(e, yes))
  {
    var ts := [Val(e), if yes then IsNullTok else IsNotNullTok];
    forall rest: seq<Token> ensures ParsePrimary(ts + rest) == Some((NullTest(e, yes), rest)) {
      assert (ts + rest)[1..] == ts[1..] + rest && (ts + rest)[1..][1..] == rest;
    }
  }

  // The condition a comparison clause reads as.
  function ComparisonCond(e: Expr, op: CmpOp, n: int, orNull: bool, x: Expr): Cond {
    if orNull then Either(Cmp(e, op, n), NullTest(x, true)) else Cmp(e, op, n)
  }

  lemma ComparisonClauseReads(e: Expr, op: CmpOp, n: int, orNull: bool, x: Expr)
    ensures ReadsPrimary(Comparison(e, op, n, orNull, x), ComparisonCond(e, op, n, orNull, x))
  {
    ComparisonReads(e, op, n);
    if orNull {
      NullTestReads(x, true);
      var clauses := [[Val(e), Op(op), Param(n)], [Val(x), IsNullTok]];
      var cs := [Cmp(e, op, n), NullTest(x, true)];
      JoinReads(clauses, cs, GroupOr);
      assert Join(clauses[1..], OR) == clauses[1];
      var inner := Join(clauses, OR);
      assert inner == [Val(e), Op(op), Param(n), OR, Val(x), IsNullTok];
      assert Folded(cs[1..], GroupOr) == cs[1];
      assert Folded(cs, GroupOr) == ComparisonCond(e, op, n, orNull, x);
      ParenthesesRead(inner, Folded(cs, GroupOr));
      assert [LP] + inner + [RP] == Comparison(e, op, n, orNull, x);
    }
  }

  // ---------- folding truth values ----------

  ghost predicate AnyTrue(pg: Postgres, db: seq<Row>, cs: seq<Cond>, scope: Scope, args: seq<Arg>) {
    exists i | 0 <= i < |cs| :: Eval(pg, db, cs[i], scope, args).T?
  }

  ghost predicate AllTrue(pg: Postgres, db: seq<Row>, cs: seq<Cond>, scope: Scope, args: seq<Arg>) {
    forall i | 0 <= i < |cs| :: Eval(pg, db, cs[i], scope, args).T?
  }

  lemma {:induction false} FoldedTrue(pg: Postgres, db: seq<Row>, cs: seq<Cond>, op: GroupOperator,
                                      scope: Scope, args: seq<Arg>)
    requires |cs| > 0
    ensures Eval(pg, db, Folded(cs, op), scope, args).T? <==>
            if op.GroupOr? then AnyTrue(pg, db, cs, scope, args) else AllTrue(pg, db, cs, scope, args)
    decreases |cs|
  {
    if |cs| > 1 {
      FoldedTrue(pg, db, cs[1..], op, scope, args);
      assert cs == [cs[0]] + cs[1..];
      if op.GroupOr? && AnyTrue(pg, db, cs, scope, args) && !Eval(pg, db, cs[0], scope, args).T? {
        var i :| 0 <= i < |cs| && Eval(pg, db, cs[i], scope, args).T?;
        assert cs[1..][i - 1] == cs[i];
      }
      if op.GroupOr? && AnyTrue(pg, db, cs[1..], scope, args) {
        var i :| 0 <= i < |cs[1..]| && Eval(pg, db, cs[1..][i], scope, args).T?;
        assert cs[i + 1] == cs[1..][i];
      }
      if op.GroupAnd? && AllTrue(pg, db, cs[1..], scope, args) && Eval(pg, db, cs[0], scope, args).T? {
        forall i | 0 <= i < |cs| ensures Eval(pg, db, cs[i], scope, args).T? {
          if i > 0 {
            assert cs[i] == cs[1..][i - 1];
          }
        }
      }
      if op.GroupAnd? && AllTrue(pg, db, cs, scope, args) {
        forall i | 0 <= i < |cs[1..]| ensures Eval(pg, db, cs[1..][i], scope, args).T? {
          assert cs[1..][i] == cs[i + 1];
        }
      }
    }
  }

  // ---------- the entries of a group, one index at a time ----------

  predicate EntryPresent(g: FilterGroup, k: nat)
    requires k < Total(g)
  {
    |g.filters| <= k < |g.filters| + |g.children| ==> Present(g.children[k - |g.filters|])
  }

  ghost predicate EntryHolds(pg: Postgres, db: seq<Row>, g: FilterGroup, k: nat, root: Row, row: Row)
    requires k < Total(g)
  {
    var c := |g.filters|;
    var j := c + |g.children|;
    var a := j + |g.joined|;
    if k < c then LeafHolds(pg, g.filters[k], row)
    else if k < j then Holds(pg, db, g.children[k - c], root, row)
    else if k < a then JoinHolds(pg, db, g.joined[k - j], root)
    else ArrayHolds(pg, db, g.arrays[k - a], root)
  }

  ghost predicate AnyEntry(pg: Postgres, db: seq<Row>, g: FilterGroup, from: nat, root: Row, row: Row) {
    exists k | from <= k < Total(g) :: EntryPresent(g, k) && EntryHolds(pg, db, g, k, root, row)
  }

  ghost predicate AllEntries(pg: Postgres, db: seq<Row>, g: FilterGroup, from: nat, root: Row, row: Row) {
    forall k | from <= k < Total(g) :: EntryPresent(g, k) ==> EntryHolds(pg, db, g, k, root, row)
  }

  lemma HoldsByEntries(pg: Postgres, db: seq<Row>, g: FilterGroup, root: Row, row: Row)
    ensures Holds(pg, db, g, root, row) <==>
            if g.op.GroupOr? then AnyEntry(pg, db, g, 0, root, row) else AllEntries(pg, db, g, 0, root, row)
  {
    var c := |g.filters|;
    var j := c + |g.children|;
    var a := j + |g.joined|;
    forall i | 0 <= i < |g.filters|
      ensures EntryPresent(g, i) && (EntryHolds(pg, db, g, i, root, row) <==> LeafHolds(pg, g.filters[i], row)) {}
    forall i | 0 <= i < |g.children|
      ensures EntryPresent(g, c + i) <==> Present(g.children[i])
      ensures EntryHolds(pg, db, g, c + i, root, row) <==> Holds(pg, db, g.children[i], root, row) {}
    forall i | 0 <= i < |g.joined|
      ensures EntryPresent(g, j + i)
      ensures EntryHolds(pg, db, g, j + i, root, row) <==> JoinHolds(pg, db, g.joined[i], root) {}
    forall i | 0 <= i < |g.arrays|
      ensures EntryPresent(g, a + i)
      ensures EntryHolds(pg, db, g, a + i, root, row) <==> ArrayHolds(pg, db, g.arrays[i], root) {}
    if g.op.GroupOr? {
      if AnyEntry(pg, db, g, 0, root, row) {
        var k :| 0 <= k < Total(g) && EntryPresent(g, k) && EntryHolds(pg, db, g, k, root, row);
        if k < c { assert g.filters[k] in g.filters; }
        else if k < j { assert g.children[k - c] in g.children; }
        else if k < a { assert g.joined[k - j] in g.joined; }
        else { assert g.arrays[k - a] in g.arrays; }
      }
    } else {
      if Holds(pg, db, g, root, row) {
        forall k | 0 <= k < Total(g) && EntryPresent(g, k) ensures EntryHolds(pg, db, g, k, root, row) {
          if k < c { assert g.filters[k] in g.filters; }
          else if k < j { assert g.children[k - c] in g.children; }
          else if k < a { assert g.joined[k - j] in g.joined; }
          else { assert g.arrays[k - a] in g.arrays; }
        }
      }
    }
  }

  // ---------- leaves ----------

  // The arguments of a fragment sit at their own placeholder numbers.
  predicate ArgsAt(args: seq<Arg>, p: int, params: seq<Arg>) {
    p >= 1 && p - 1 + |params| <= |args| && args[p - 1..p - 1 + |params|] == params
  }

  // `alias` is bound to the row being tested and `r` to the outer record.
  predicate InScope(scope: Scope, alias: string, root: Row, row: Row) {
    "r" in scope && scope["r"] == root && alias in scope && scope[alias] == row
  }

  function LeafCond(f: FieldFilter, p: int, alias: string): Cond
    requires LeafFragment(f, p, alias).Ok?
  {
    var e := JsonExtract(alias, f);
    if f.isNull.Some? then NullTest(e, f.isNull.value)
    else if f.kind.KindArrayContributor? then Cmp(Contributors("r"), if f.op.Eq? then HasElement else OverlapsArray, p)
    else if f.kind.KindUnionSubject? then Cmp(Column("r", "subject_did"), EqOrAny(f.op), p)
    else if f.kind.KindStringSubject? then Cmp(JsonText("r", ["subject"]), EqOrAny(f.op), p)
    else
      match f.op
      case Eq => if f.isJson then Cmp(Doc(alias), HasDoc, p) else Cmp(e, IsEq, p)
      case Neq => ComparisonCond(e, IsNeq, p, true, e)
      case Gt => Cmp(JsonExtractTyped(alias, f), IsGt, p)
      case Lt => Cmp(JsonExtractTyped(alias, f), IsLt, p)
      case Gte => Cmp(JsonExtractTyped(alias, f), IsGte, p)
      case Lte => Cmp(JsonExtractTyped(alias, f), IsLte, p)
      case In => ComparisonCond(e, EqAny, p, HasNull(f.value), e)
      case Eqi => Cmp(Lower(e), IsEq, p)
      case Ini => ComparisonCond(Lower(e), EqAny, p, HasNull(f.value), e)
      case Contains => Cmp(e, ILikeOp(true), p)
      case _ => Cmp(e, ILikeOp(false), p)
  }

  lemma LeafReads(f: FieldFilter, p: int, alias: string)
    requires LeafFragment(f, p, alias).Ok?
    ensures ReadsPrimary(LeafFragment(f, p, alias).value.clause, LeafCond(f, p, alias))
  {
    var e := JsonExtract(alias, f);
    var c := LeafCond(f, p, alias);
    if f.isNull.Some? {
      NullTestReads(e, f.isNull.value);
    } else if f.kind.KindArrayContributor? {
      ComparisonReads(c.e, c.op, p);
      var inner := [Val(c.e), Op(c.op), Param(p)];
      assert Join([inner], AND) == inner;
      JoinReads([inner], [c], GroupAnd);
      ParenthesesRead(inner, c);
      assert [LP] + inner + [RP] == [LP, Val(c.e), Op(c.op), Param(p), RP];
    } else if c.Cmp? {
      ComparisonReads(c.e, c.op, p);
    } else {
      ComparisonClauseReads(c.left.e, c.left.op, p, true, e);
    }
  }

  lemma {:induction false} KindMeans(pg: Postgres, db: seq<Row>, f: FieldFilter, p: int, scope: Scope, row: Row,
                                     args: seq<Arg>)
    requires LeafFragment(f, p, "r").Ok? && f.isNull.None? && !f.kind.KindScalar?
    requires ArgsAt(args, p, LeafFragment(f, p, "r").value.params)
    requires InScope(scope, "r", row, row)
    ensures Eval(pg, db, LeafCond(f, p, "r"), scope, args).T? <==> LeafHolds(pg, f, row)
  {
    var arg := args[p - 1];
    assert arg == LeafFragment(f, p, "r").value.params[0] == ValueOrList(f);
    assert f.op.Eq? ==> ArgAsText(arg) == ValueText(f.value);
    if f.kind.KindArrayContributor? {
      var ids := ContributorIdentities(pg, row.json);
      if ids.Some? && f.op.Eq? {
        assert (exists id | id in ids.value :: OneOf(f, id)) <==>
               ArgAsText(arg).Some? && ArgAsText(arg) in ids.value;
      } else if ids.Some? {
        if t :| t in ListTexts(f.value) && Some(t) in ids.value {
          assert OneOf(f, Some(t));
        }
        if id :| id in ids.value && OneOf(f, id) {
          assert id.value in ListTexts(f.value) && Some(id.value) in ids.value;
        }
      }
    }
  }

  lemma EqualMeans(pg: Postgres, db: seq<Row>, f: FieldFilter, p: int, alias: string, scope: Scope, root: Row,
                   row: Row, args: seq<Arg>)
    requires LeafFragment(f, p, alias).Ok? && f.isNull.None? && f.kind.KindScalar? && f.op.Eq?
    requires ArgsAt(args, p, LeafFragment(f, p, alias).value.params)
    requires InScope(scope, alias, root, row)
    ensures Eval(pg, db, LeafCond(f, p, alias), scope, args).T? <==> LeafHolds(pg, f, row)
  {
    var arg := args[p - 1];
    assert arg == LeafFragment(f, p, alias).value.params[0];
    if f.isJson {
      Containment.ContainmentFollowsPath(row.json, f.fieldName, ToJson(f.value));
      if J.Scalar(ToJson(f.value)) {
        Containment.ScalarContainment(row.json, f.fieldName, ToJson(f.value));
      }
    } else {
      assert ArgAsText(arg) == ValueText(f.value);
    }
  }

  lemma OrderMeans(pg: Postgres, db: seq<Row>, f: FieldFilter, p: int, alias: string, scope: Scope, root: Row,
                   row: Row, args: seq<Arg>)
    requires LeafFragment(f, p, alias).Ok? && f.isNull.None? && f.kind.KindScalar?
    requires f.op.Gt? || f.op.Lt? || f.op.Gte? || f.op.Lte?
    requires ArgsAt(args, p, LeafFragment(f, p, alias).value.params)
    requires InScope(scope, alias, root, row)
    ensures Eval(pg, db, LeafCond(f, p, alias), scope, args).T? <==> LeafHolds(pg, f, row)
  {
    var arg := args[p - 1];
    assert arg == LeafFragment(f, p, alias).value.params[0] == ArgValue(f.value);
    var cell := EvalExpr(pg, JsonExtractTyped(alias, f), scope);
    var t := FieldText(pg, f, row);
    var cast := if f.isJson then CastOf(f.lexiconType) else NoCast;
    assert Ordering(pg, cell, arg) ==
           if t.Some? && Castable(cast, t.value) then pg.compare(cast, t.value, f.value) else None;
  }

  lemma FoldedListMeans(texts: seq<string>, t: string)
    ensures AsciiLower(t) in LowerAll(texts) <==> exists v | v in texts :: AsciiLower(t) == AsciiLower(v)
  {
    if AsciiLower(t) in LowerAll(texts) {
      var i :| 0 <= i < |texts| && LowerAll(texts)[i] == AsciiLower(t);
      assert texts[i] in texts;
    }
    if v :| v in texts && AsciiLower(t) == AsciiLower(v) {
      var i :| 0 <= i < |texts| && texts[i] == v;
      assert LowerAll(texts)[i] == AsciiLower(t);
    }
  }

  lemma {:induction false} TextMeans(pg: Postgres, db: seq<Row>, f: FieldFilter, p: int, alias: string, scope: Scope,
                                     root: Row,
                                    row: Row, args: seq<Arg>)
    requires LeafFragment(f, p, alias).Ok? && f.isNull.None? && f.kind.KindScalar?
    requires f.op.Neq? || f.op.In? || f.op.Eqi? || f.op.Ini?
    requires ArgsAt(args, p, LeafFragment(f, p, alias).value.params)
    requires InScope(scope, alias, root, row)
    ensures Eval(pg, db, LeafCond(f, p, alias), scope, args).T? <==> LeafHolds(pg, f, row)
  {
    var arg := args[p - 1];
    assert arg == LeafFragment(f, p, alias).value.params[0];
    var t := FieldText(pg, f, row);
    assert EvalExpr(pg, JsonExtract(alias, f), scope) == TextCell(t);
    if t.Some? {
      match f.op
      case Neq => assert ArgAsText(arg) == ValueText(f.value);
      case Ini => FoldedListMeans(ListTexts(f.value), t.value);
      case _ =>
    }
  }

  lemma PatternMeans(pg: Postgres, db: seq<Row>, f: FieldFilter, p: int, alias: string, scope: Scope, root: Row,
                     row: Row, args: seq<Arg>)
    requires LikePattern.CaseFolding(pg.fold)
    requires LeafFragment(f, p, alias).Ok? && f.isNull.None? && f.kind.KindScalar?
    requires f.op.Contains? || f.op.StartsWith?
    requires ArgsAt(args, p, LeafFragment(f, p, alias).value.params)
    requires InScope(scope, alias, root, row)
    ensures Eval(pg, db, LeafCond(f, p, alias), scope, args).T? <==> LeafHolds(pg, f, row)
  {
    var s := f.value.a.s;
    assert args[p - 1] == LeafFragment(f, p, alias).value.params[0] == ArgText(LikePattern.EscapeLike(s));
    var t := FieldText(pg, f, row);
    assert EvalExpr(pg, JsonExtract(alias, f), scope) == TextCell(t);
    if t.Some? {
      assert "" + LikePattern.EscapeLike(s) == LikePattern.EscapeLike(s);
      LikePattern.ContainsMeansSubstring(pg.fold, t.value, s);
      LikePattern.StartsWithMeansPrefix(pg.fold, t.value, s);
    }
  }

  lemma LeafMeans(pg: Postgres, db: seq<Row>, f: FieldFilter, p: int, alias: string, scope: Scope, root: Row,
                  row: Row, args: seq<Arg>)
    requires LikePattern.CaseFolding(pg.fold)
    requires LeafFragment(f, p, alias).Ok?
    requires ArgsAt(args, p, LeafFragment(f, p, alias).value.params)
    requires InScope(scope, alias, root, row)
    ensures Eval(pg, db, LeafCond(f, p, alias), scope, args).T? <==> LeafHolds(pg, f, row)
  {
    if f.isNull.Some? {
      assert EvalExpr(pg, JsonExtract(alias, f), scope) == TextCell(FieldText(pg, f, row));
    } else if !f.kind.KindScalar? {
      KindMeans(pg, db, f, p, scope, row, args);
    } else if f.op.Eq? {
      EqualMeans(pg, db, f, p, alias, scope, root, row, args);
    } else if f.op.Gt? || f.op.Lt? || f.op.Gte? || f.op.Lte? {
      OrderMeans(pg, db, f, p, alias, scope, root, row, args);
    } else if f.op.Contains? || f.op.StartsWith? {
      PatternMeans(pg, db, f, p, alias, scope, root, row, args);
    } else {
      TextMeans(pg, db, f, p, alias, scope, root, row, args);
    }
  }

  // ---------- groups ----------

  ghost predicate MeansEntry(pg: Postgres, db: seq<Row>, c: Cond, alias: string, args: seq<Arg>, g: FilterGroup,
                             k: nat)
    requires k < Total(g)
  {
    forall scope: Scope, root: Row, row: Row | InScope(scope, alias, root, row) ::
      Eval(pg, db, c, scope, args).T? <==> EntryHolds(pg, db, g, k, root, row)
  }

  ghost predicate MeansGroup(pg: Postgres, db: seq<Row>, c: Cond, alias: string, args: seq<Arg>, g: FilterGroup) {
    forall scope: Scope, root: Row, row: Row | InScope(scope, alias, root, row) ::
      Eval(pg, db, c, scope, args).T? <==> Holds(pg, db, g, root, row)
  }

  ghost predicate MeansEntries(pg: Postgres, db: seq<Row>, cs: seq<Cond>, alias: string, args: seq<Arg>,
                               g: FilterGroup, from: nat) {
    forall scope: Scope, root: Row, row: Row | InScope(scope, alias, root, row) ::
      && (AnyTrue(pg, db, cs, scope, args) <==> AnyEntry(pg, db, g, from, root, row))
      && (AllTrue(pg, db, cs, scope, args) <==> AllEntries(pg, db, g, from, root, row))
  }

  ghost predicate SomePresent(g: FilterGroup, from: nat) {
    exists k | from <= k < Total(g) :: EntryPresent(g, k)
  }

  lemma PresentByEntries(g: FilterGroup)
    ensures Present(g) <==> SomePresent(g, 0)
  {
    var c := |g.filters|;
    if |g.filters| > 0 || |g.joined| > 0 || |g.arrays| > 0 {
      var k := if |g.filters| > 0 then 0 else c + |g.children|;
      assert EntryPresent(g, k);
    } else if child :| child in g.children && Present(child) {
      var i :| 0 <= i < |g.children| && g.children[i] == child;
      assert EntryPresent(g, c + i);
    }
    if SomePresent(g, 0) {
      var k :| 0 <= k < Total(g) && EntryPresent(g, k);
      assert c <= k < c + |g.children| ==> g.children[k - c] in g.children;
    }
  }

  lemma {:induction false} JoinNonEmpty(clauses: seq<seq<Token>>, joiner: Token)
    requires |clauses| > 0 && forall i | 0 <= i < |clauses| :: |clauses[i]| > 0
    ensures Join(clauses, joiner) != []
  {
  }

  // Exactly the absent trees compile to nothing at all, and to no arguments either.
  lemma {:induction false} NothingIffAbsent(g: FilterGroup, p: int, depth: nat, alias: string)
    requires GroupFragment(g, p, depth, alias).Ok?
    ensures GroupFragment(g, p, depth, alias).value.clause == [] <==> !Present(g)
    ensures !Present(g) ==> GroupFragment(g, p, depth, alias).value.params == []
    decreases g, Total(g) + 1
  {
    PresentByEntries(g);
    if !g.IsEmpty() {
      NoClauseIffAbsent(g, 0, p, depth, alias);
      var clauses := EntriesFrom(g, 0, p, depth, alias).value.clauses;
      if clauses != [] {
        JoinNonEmpty(clauses, Joiner(g.op));
      }
    }
  }

  lemma {:induction false} NoClauseIffAbsent(g: FilterGroup, k: nat, p: int, depth: nat, alias: string)
    requires k <= Total(g) && EntriesFrom(g, k, p, depth, alias).Ok?
    ensures EntriesFrom(g, k, p, depth, alias).value.clauses == [] <==> !SomePresent(g, k)
    decreases g, Total(g) - k
  {
    if k < Total(g) {
      ClausesSplit(g, k, p, depth, alias);
      PresentSplit(g, k);
      EntryClauseIffPresent(g, k, p, depth, alias);
      NoClauseIffAbsent(g, k + 1, p + |EntrySection(g, k, p, depth, alias).value.params|, depth, alias);
    }
  }

  lemma {:induction false} EntryClauseIffPresent(g: FilterGroup, k: nat, p: int, depth: nat, alias: string)
    requires k < Total(g) && EntrySection(g, k, p, depth, alias).Ok?
    ensures EntrySection(g, k, p, depth, alias).value.clauses != [] <==> EntryPresent(g, k)
    decreases g, 0
  {
    if |g.filters| <= k < |g.filters| + |g.children| {
      NothingIffAbsent(g.children[k - |g.filters|], p, depth + 1, alias);
    }
  }

  lemma ClausesSplit(g: FilterGroup, k: nat, p: int, depth: nat, alias: string)
    requires k < Total(g) && EntriesFrom(g, k, p, depth, alias).Ok?
    ensures EntrySection(g, k, p, depth, alias).Ok?
    ensures var first := EntrySection(g, k, p, depth, alias).value;
            var rest := EntriesFrom(g, k + 1, p + |first.params|, depth, alias);
            rest.Ok? && EntriesFrom(g, k, p, depth, alias).value.clauses == first.clauses + rest.value.clauses
  {
  }

  lemma PresentSplit(g: FilterGroup, k: nat)
    requires k < Total(g)
    ensures SomePresent(g, k) <==> EntryPresent(g, k) || SomePresent(g, k + 1)
  {
  }

  lemma ArgsPrefix(args: seq<Arg>, p: int, a: seq<Arg>, b: seq<Arg>)
    requires ArgsAt(args, p, a + b)
    ensures ArgsAt(args, p, a) && ArgsAt(args, p + |a|, b)
  {
    var all := args[p - 1..p - 1 + |a + b|];
    assert all[..|a|] == a && all[|a|..] == b;
  }

  // The two conditions every joined subquery starts with.
  function JoinedConds(j: JoinedFilter, c: Option<Cond>, n: int): seq<Cond> {
    [Cmp(Column("d", "collection"), IsEq, n), Same(Column("d", "uri"), IsEq, JsonText("r", j.joinPath))]
    + (if c.Some? then [c.value] else [])
  }

  function JoinedClauses(j: JoinedFilter, inner: seq<Token>, n: int): seq<seq<Token>> {
    [[Val(Column("d", "collection")), Op(IsEq), Param(n)],
     [Val(Column("d", "uri")), Op(IsEq), Val(JsonText("r", j.joinPath))]]
    + (if inner == [] then [] else [[LP] + inner + [RP]])
  }

  lemma JoinedTokens(j: JoinedFilter, inner: seq<Token>, n: int)
    ensures ExistsRecordTokens(j, inner, n) == [ExistsRecord] + Join(JoinedClauses(j, inner, n), AND) + [RP]
  {
    var clauses := JoinedClauses(j, inner, n);
    var rest := clauses[1..];
    if inner != [] {
      assert rest[1..] == [clauses[2]];
      assert Join(rest, AND) == clauses[1] + [AND] + clauses[2];
    } else {
      assert rest == [clauses[1]];
    }
    assert Join(clauses, AND) == clauses[0] + [AND] + Join(rest, AND);
  }

  lemma JoinedReads(j: JoinedFilter, inner: seq<Token>, c: Option<Cond>, n: int)
    requires c.None? <==> inner == []
    requires c.Some? ==> ReadsOr(inner, c.value)
    ensures ReadsPrimary(ExistsRecordTokens(j, inner, n), SomeRecord(Folded(JoinedConds(j, c, n), GroupAnd)))
  {
    var clauses, cs := JoinedClauses(j, inner, n), JoinedConds(j, c, n);
    assert ReadsAll(clauses, cs) by {
      ComparisonReads(cs[0].e, IsEq, n);
      SameReads(cs[1].e, IsEq, cs[1].other);
      if c.Some? {
        ParenthesesRead(inner, c.value);
      }
    }
    JoinReads(clauses, cs, GroupAnd);
    JoinedTokens(j, inner, n);
    SubqueryReads(Join(clauses, AND), Folded(cs, GroupAnd));
  }

  lemma SubqueryReads(ts: seq<Token>, body: Cond)
    requires ReadsOr(ts, body)
    ensures ReadsPrimary([ExistsRecord] + ts + [RP], SomeRecord(body))
  {
    var whole := [ExistsRecord] + ts + [RP];
    forall rest: seq<Token> ensures ParsePrimary(whole + rest) == Some((SomeRecord(body), rest)) {
      ClosedReads(ts, body, rest);
      assert (whole + rest)[1..] == ts + [RP] + rest;
    }
  }

  lemma JoinedMeans(pg: Postgres, db: seq<Row>, j: JoinedFilter, c: Option<Cond>, n: int, args: seq<Arg>,
                    scope: Scope, alias: string, root: Row, row: Row)
    requires ArgsAt(args, n, [ArgText(j.target)])
    requires c.Some? <==> Present(j.inner)
    requires c.Some? ==> MeansGroup(pg, db, c.value, "d", args, j.inner)
    requires InScope(scope, alias, root, row)
    ensures Eval(pg, db, SomeRecord(Folded(JoinedConds(j, c, n), GroupAnd)), scope, args).T? <==>
            JoinHolds(pg, db, j, root)
  {
    var cs := JoinedConds(j, c, n);
    assert args[n - 1] == ArgText(j.target);
    forall rec: Row
      ensures Eval(pg, db, Folded(cs, GroupAnd), scope["d" := rec], args).T? <==>
              JoinedTo(pg, j, root, rec) && (Present(j.inner) ==> Holds(pg, db, j.inner, root, rec))
    {
      var inner := scope["d" := rec];
      assert InScope(inner, "d", root, rec);
      FoldedTrue(pg, db, cs, GroupAnd, inner, args);
      assert Eval(pg, db, cs[1], inner, args).T? <==>
             TextAt(pg, root.json, j.joinPath).Some? && ColumnOf(rec, "uri") == TextAt(pg, root.json, j.joinPath);
      assert Eval(pg, db, cs[0], inner, args).T? <==> ColumnOf(rec, "collection") == Some(j.target);
      assert c.Some? ==> cs[2] == c.value;
    }
  }

  lemma ArrayReads(a: ArrayFilter, inner: seq<Token>, c: Cond)
    requires inner != [] && ReadsOr(inner, c)
    ensures ReadsPrimary(ExistsArrayTokens(a, inner), SomeElementWhere(a.arrayPath, c))
  {
    var whole := ExistsArrayTokens(a, inner);
    forall rest: seq<Token> ensures ParsePrimary(whole + rest) == Some((SomeElementWhere(a.arrayPath, c), rest)) {
      ClosedReads(inner, c, rest);
      assert (whole + rest)[2..] == inner + [RP] + rest;
    }
  }

  lemma BareArrayReads(a: ArrayFilter)
    ensures ReadsPrimary(ExistsArrayTokens(a, []), SomeElement(a.arrayPath))
  {
    forall rest: seq<Token>
      ensures ParsePrimary(ExistsArrayTokens(a, []) + rest) == Some((SomeElement(a.arrayPath), rest))
    {
      assert (ExistsArrayTokens(a, []) + rest)[2..] == rest;
    }
  }

  lemma ArrayMeans(pg: Postgres, db: seq<Row>, a: ArrayFilter, c: Option<Cond>, args: seq<Arg>,
                   scope: Scope, alias: string, root: Row, row: Row)
    requires c.Some? <==> Present(a.inner)
    requires c.Some? ==> MeansGroup(pg, db, c.value, "e", args, a.inner)
    requires InScope(scope, alias, root, row)
    ensures var whole := if c.Some? then SomeElementWhere(a.arrayPath, c.value) else SomeElement(a.arrayPath);
            Eval(pg, db, whole, scope, args).T? <==> ArrayHolds(pg, db, a, root)
  {
    var items := Elements(root.json, a.arrayPath);
    if c.Some? {
      forall item: J.Json
        ensures Eval(pg, db, c.value, scope["e" := ElementRow(pg, item)], args).T? <==>
                Holds(pg, db, a.inner, root, ElementRow(pg, item))
      {
        assert InScope(scope["e" := ElementRow(pg, item)], "e", root, ElementRow(pg, item));
      }
    } else if items != [] {
      assert items[0] in items;
    }
  }

  lemma {:induction false} GroupMeans(pg: Postgres, db: seq<Row>, g: FilterGroup, p: int, depth: nat, alias: string,
                                      args: seq<Arg>)
    returns (c: Cond)
    requires LikePattern.CaseFolding(pg.fold)
    requires Present(g) && GroupFragment(g, p, depth, alias).Ok?
    requires ArgsAt(args, p, GroupFragment(g, p, depth, alias).value.params)
    ensures ReadsOr(GroupFragment(g, p, depth, alias).value.clause, c)
    ensures MeansGroup(pg, db, c, alias, args, g)
    decreases g, Total(g) + 2
  {
    NothingIffAbsent(g, p, depth, alias);
    var section := EntriesFrom(g, 0, p, depth, alias).value;
    var cs := EntriesMean(pg, db, g, 0, p, depth, alias, args);
    JoinReads(section.clauses, cs, g.op);
    c := Folded(cs, g.op);
    forall scope: Scope, root: Row, row: Row | InScope(scope, alias, root, row)
      ensures Eval(pg, db, c, scope, args).T? <==> Holds(pg, db, g, root, row)
    {
      FoldedTrue(pg, db, cs, g.op, scope, args);
      HoldsByEntries(pg, db, g, root, row);
    }
  }

  // The conditions of the entries from `k` on, in order, one for each that is present.
  lemma {:induction false} EntriesMean(pg: Postgres, db: seq<Row>, g: FilterGroup, k: nat, p: int, depth: nat,
                                       alias: string, args: seq<Arg>)
    returns (cs: seq<Cond>)
    requires LikePattern.CaseFolding(pg.fold)
    requires k <= Total(g) && EntriesFrom(g, k, p, depth, alias).Ok?
    requires ArgsAt(args, p, EntriesFrom(g, k, p, depth, alias).value.params)
    ensures ReadsAll(EntriesFrom(g, k, p, depth, alias).value.clauses, cs)
    ensures MeansEntries(pg, db, cs, alias, args, g, k)
    decreases g, Total(g) - k, 1
  {
    if k == Total(g) {
      cs := [];
    } else {
      var first := EntrySection(g, k, p, depth, alias).value;
      var rest := EntriesFrom(g, k + 1, p + |first.params|, depth, alias).value;
      ArgsPrefix(args, p, first.params, rest.params);
      var head := EntryMeans(pg, db, g, k, p, depth, alias, args);
      var tail := EntriesMean(pg, db, g, k + 1, p + |first.params|, depth, alias, args);
      cs := head + tail;
      Prepended(pg, db, head, tail, alias, args, g, k);
      ReadsBoth(first.clauses, rest.clauses, head, tail);
    }
  }

  lemma ReadsBoth(a: seq<seq<Token>>, b: seq<seq<Token>>, cs: seq<Cond>, ds: seq<Cond>)
    requires ReadsAll(a, cs) && ReadsAll(b, ds)
    ensures ReadsAll(a + b, cs + ds)
  {
    forall i | 0 <= i < |cs + ds| ensures ReadsPrimary((a + b)[i], (cs + ds)[i]) {
      if i < |cs| {
        assert ReadsPrimary(a[i], cs[i]);
      } else {
        assert ReadsPrimary(b[i - |cs|], ds[i - |cs|]);
      }
    }
  }

  lemma TrueOfBoth(pg: Postgres, db: seq<Row>, head: seq<Cond>, tail: seq<Cond>, scope: Scope, args: seq<Arg>)
    ensures AnyTrue(pg, db, head + tail, scope, args) <==>
            AnyTrue(pg, db, head, scope, args) || AnyTrue(pg, db, tail, scope, args)
    ensures AllTrue(pg, db, head + tail, scope, args) <==>
            AllTrue(pg, db, head, scope, args) && AllTrue(pg, db, tail, scope, args)
  {
    var cs := head + tail;
    forall i | 0 <= i < |head| ensures cs[i] == head[i] {}
    forall i | 0 <= i < |tail| ensures cs[|head| + i] == tail[i] {}
    if i :| 0 <= i < |tail| && Eval(pg, db, tail[i], scope, args).T? {
      assert Eval(pg, db, cs[|head| + i], scope, args).T?;
    }
    if AllTrue(pg, db, cs, scope, args) {
      forall i | 0 <= i < |tail| ensures Eval(pg, db, tail[i], scope, args).T? {
        assert Eval(pg, db, cs[|head| + i], scope, args).T?;
      }
    }
  }

  lemma EntriesSplit(pg: Postgres, db: seq<Row>, g: FilterGroup, k: nat, root: Row, row: Row)
    requires k < Total(g)
    ensures AnyEntry(pg, db, g, k, root, row) <==>
            (EntryPresent(g, k) && EntryHolds(pg, db, g, k, root, row)) || AnyEntry(pg, db, g, k + 1, root, row)
    ensures AllEntries(pg, db, g, k, root, row) <==>
            (EntryPresent(g, k) ==> EntryHolds(pg, db, g, k, root, row)) && AllEntries(pg, db, g, k + 1, root, row)
  {
  }

  lemma Prepended(pg: Postgres, db: seq<Row>, head: seq<Cond>, tail: seq<Cond>, alias: string, args: seq<Arg>,
                  g: FilterGroup, k: nat)
    requires k < Total(g)
    requires |head| == if EntryPresent(g, k) then 1 else 0
    requires |head| == 1 ==> MeansEntry(pg, db, head[0], alias, args, g, k)
    requires MeansEntries(pg, db, tail, alias, args, g, k + 1)
    ensures MeansEntries(pg, db, head + tail, alias, args, g, k)
  {
    forall scope: Scope, root: Row, row: Row | InScope(scope, alias, root, row)
      ensures AnyTrue(pg, db, head + tail, scope, args) <==> AnyEntry(pg, db, g, k, root, row)
      ensures AllTrue(pg, db, head + tail, scope, args) <==> AllEntries(pg, db, g, k, root, row)
    {
      TrueOfBoth(pg, db, head, tail, scope, args);
      EntriesSplit(pg, db, g, k, root, row);
      assert AnyTrue(pg, db, tail, scope, args) <==> AnyEntry(pg, db, g, k + 1, root, row);
      if EntryPresent(g, k) {
        assert Eval(pg, db, head[0], scope, args).T? <==> EntryHolds(pg, db, g, k, root, row);
        assert AnyTrue(pg, db, head, scope, args) <==> Eval(pg, db, head[0], scope, args).T?;
      }
    }
  }

  lemma {:induction false} EntryMeans(pg: Postgres, db: seq<Row>, g: FilterGroup, k: nat, p: int, depth: nat,
                                      alias: string, args: seq<Arg>)
    returns (cs: seq<Cond>)
    requires LikePattern.CaseFolding(pg.fold)
    requires k < Total(g) && EntrySection(g, k, p, depth, alias).Ok?
    requires ArgsAt(args, p, EntrySection(g, k, p, depth, alias).value.params)
    ensures ReadsAll(EntrySection(g, k, p, depth, alias).value.clauses, cs)
    ensures |cs| == if EntryPresent(g, k) then 1 else 0
    ensures |cs| == 1 ==> MeansEntry(pg, db, cs[0], alias, args, g, k)
    decreases g, Total(g) - k, 0
  {
    var c := |g.filters|;
    var j := c + |g.children|;
    var a := j + |g.joined|;
    if k < c {
      cs := [LeafCond(g.filters[k], p, alias)];
      LeafReads(g.filters[k], p, alias);
      forall scope: Scope, root: Row, row: Row | InScope(scope, alias, root, row)
        ensures Eval(pg, db, cs[0], scope, args).T? <==> EntryHolds(pg, db, g, k, root, row)
      {
        LeafMeans(pg, db, g.filters[k], p, alias, scope, root, row, args);
      }
    } else if k < j {
      var child := g.children[k - c];
      NothingIffAbsent(child, p, depth + 1, alias);
      if Present(child) {
        var body := GroupMeans(pg, db, child, p, depth + 1, alias, args);
        ParenthesesRead(GroupFragment(child, p, depth + 1, alias).value.clause, body);
        cs := [body];
      } else {
        cs := [];
      }
    } else if k < a {
      var join := g.joined[k - j];
      var inner := GroupFragment(join.inner, p, 0, "d").value;
      ArgsPrefix(args, p, inner.params, [ArgText(join.target)]);
      NothingIffAbsent(join.inner, p, 0, "d");
      var innerCond := None;
      if Present(join.inner) {
        var body := GroupMeans(pg, db, join.inner, p, 0, "d", args);
        innerCond := Some(body);
      }
      var n := p + |inner.params|;
      JoinedReads(join, inner.clause, innerCond, n);
      cs := [SomeRecord(Folded(JoinedConds(join, innerCond, n), GroupAnd))];
      forall scope: Scope, root: Row, row: Row | InScope(scope, alias, root, row)
        ensures Eval(pg, db, cs[0], scope, args).T? <==> EntryHolds(pg, db, g, k, root, row)
      {
        JoinedMeans(pg, db, join, innerCond, n, args, scope, alias, root, row);
      }
    } else {
      var arr := g.arrays[k - a];
      var inner := GroupFragment(arr.inner, p, 0, "e").value;
      NothingIffAbsent(arr.inner, p, 0, "e");
      var innerCond := None;
      if Present(arr.inner) {
        var body := GroupMeans(pg, db, arr.inner, p, 0, "e", args);
        innerCond := Some(body);
        ArrayReads(arr, inner.clause, body);
        cs := [SomeElementWhere(arr.arrayPath, body)];
      } else {
        BareArrayReads(arr);
        cs := [SomeElement(arr.arrayPath)];
      }
      forall scope: Scope, root: Row, row: Row | InScope(scope, alias, root, row)
        ensures Eval(pg, db, cs[0], scope, args).T? <==> EntryHolds(pg, db, g, k, root, row)
      {
        ArrayMeans(pg, db, arr, innerCond, args, scope, alias, root, row);
      }
    }
  }

  // The main theorem.  Whatever arguments precede and follow the fragment's own,
  // the fragment either is empty, and then so is the tree, or it reads as one SQL
  // condition that is true of a record exactly when the tree holds of it.
  lemma CompiledFilterMeansTree(pg: Postgres, db: seq<Row>, g: FilterGroup, p: int, args: seq<Arg>, row: Row)
    requires LikePattern.CaseFolding(pg.fold)
    requires Compile(g, p).Ok? && ArgsAt(args, p, Compile(g, p).value.params)
    ensures var clause := Compile(g, p).value.clause;
            if clause == [] then !Present(g)
            else Read(clause).Some? &&
                 (Eval(pg, db, Read(clause).value, map["r" := row], args).T? <==> Selects(pg, db, g, row))
  {
    NothingIffAbsent(g, p, 0, "r");
    if Present(g) {
      var clause := Compile(g, p).value.clause;
      var c := GroupMeans(pg, db, g, p, 0, "r", args);
      assert clause + [] == clause;
      assert ParseOr(clause + []) == Some((c, []));
      assert InScope(map["r" := row], "r", row, row);
    }
  }
}
