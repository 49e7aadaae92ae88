/**
 How Postgres reads the emitted tokens: a grammar in which a comparison binds
 tighter than AND and AND tighter than OR, and an evaluation in three-valued
 logic in which every EXISTS opens a scope of its own.
 */
module SqlReading {
  import opened Wrappers
  import opened FilterCompiler
  import FilterTree
  import J = Json
  import LikePattern

  datatype Cond =
    | Either(left: Cond, right: Cond)
    | Both(left: Cond, right: Cond)
    | NullTest(e: Expr, yes: bool)
    | Cmp(e: Expr, op: CmpOp, n: int)
    | Same(e: Expr, op: CmpOp, other: Expr)
    | SomeRecord(body: Cond)
    | SomeElement(path: seq<string>)
    | SomeElementWhere(path: seq<string>, body: Cond)

  type Reading = Option<(Cond, seq<Token>)>

  function ParseOr(ts: seq<Token>): (r: Reading)
    ensures r.Some? ==> |r.value.1| < |ts|
    decreases |ts|, 2
  {
    var left :- ParseAnd(ts);
    if left.1 != [] && left.1[0].OR? then
      var right :- ParseOr(left.1[1..]);
      Some((Either(left.0, right.0), right.1))
    else Some(left)
  }

  function ParseAnd(ts: seq<Token>): (r: Reading)
    ensures r.Some? ==> |r.value.1| < |ts|
    decreases |ts|, 1
  {
    var left :- ParsePrimary(ts);
    if left.1 != [] && left.1[0].AND? then
      var right :- ParseAnd(left.1[1..]);
      Some((Both(left.0, right.0), right.1))
    else Some(left)
  }

  function ParsePrimary(ts: seq<Token>): (r: Reading)
    ensures r.Some? ==> |r.value.1| < |ts|
    decreases |ts|, 0
  {
    if ts == [] then None
    else
      match ts[0]
      case LP => ParseClosed(ts[1..])
      case Val(e) => ParseComparison(e, ts[1..])
      case ExistsRecord =>
        var body :- ParseClosed(ts[1..]);
        Some((SomeRecord(body.0), body.1))
      case ExistsArray(path) =>
        if |ts| > 1 && ts[1].RP? then Some((SomeElement(path), ts[2..]))
        else if |ts| > 1 && ts[1].WHERE? then
          var body :- ParseClosed(ts[2..]);
          Some((SomeElementWhere(path, body.0), body.1))
        else None
      case _ => None
  }

  // A condition up to its closing parenthesis.
  function ParseClosed(ts: seq<Token>): (r: Reading)
    ensures r.Some? ==> |r.value.1| < |ts|
    decreases |ts|, 3
  {
    var body :- ParseOr(ts);
    if body.1 != [] && body.1[0].RP? then Some((body.0, body.1[1..])) else None
  }

  function ParseComparison(e: Expr, ts: seq<Token>): (r: Reading)
    ensures r.Some? ==> |r.value.1| < |ts|
  {
    if ts == [] then None
    else if ts[0].IsNullTok? then Some((NullTest(e, true), ts[1..]))
    else if ts[0].IsNotNullTok? then Some((NullTest(e, false), ts[1..]))
    else if ts[0].Op? && |ts| > 1 && ts[1].Param? then Some((Cmp(e, ts[0].op, ts[1].n), ts[2..]))
    else if ts[0].Op? && |ts| > 1 && ts[1].Val? then Some((Same(e, ts[0].op, ts[1].e), ts[2..]))
    else None
  }

  // Reading a whole fragment.
  function Read(ts: seq<Token>): Option<Cond> {
    var r :- ParseOr(ts);
    if r.1 == [] then Some(r.0) else None
  }

  // ---------- evaluation ----------

  datatype Tri = T | F | U

  function Truth(b: bool): Tri {
    if b then T else F
  }

  function And3(a: Tri, b: Tri): Tri {
    if a.F? || b.F? then F else if a.U? || b.U? then U else T
  }

  function Or3(a: Tri, b: Tri): Tri {
    if a.T? || b.T? then T else if a.U? || b.U? then U else F
  }

  // A row: its `json` document, and its columns as text by lower-case name, NULL as None.
  datatype Row = Row(json: J.Json, columns: map<string, Option<string>>)

  // What the model takes from Postgres as given: the text of a non-string jsonb
  // value, the order of a (possibly cast) text against an argument, which texts cast, and case folding.
  datatype Postgres = Postgres(
    render: J.Json -> string,
    compare: (Cast, string, FilterTree.Value) -> Option<int>,
    casts: (Cast, string) -> bool,
    fold: int -> int)

  type Scope = map<string, Row>

  datatype Cell =
    | SqlNull
    | SqlText(s: string)
    | SqlCast(cast: Cast, s: string)
    | SqlDoc(doc: J.Json)
    | SqlArray(elems: seq<Option<string>>)

  // Column names stand unquoted, so Postgres folds them to lower case.
  function ColumnOf(row: Row, name: string): Option<string> {
    var folded := FilterTree.AsciiLower(name);
    if folded in row.columns then row.columns[folded] else None
  }

  // `doc->'a'->>'b'`: NULL when the path leaves the objects or ends at a JSON null.
  function TextAt(pg: Postgres, doc: J.Json, path: seq<string>): Option<string> {
    var j :- J.Follow(doc, path);
    match j
    case JNull => None
    case JStr(s) => Some(s)
    case _ => Some(pg.render(j))
  }

  // text ~ '^-?[0-9]'
  predicate LooksNumeric(s: string) {
    || (|s| > 0 && '0' <= s[0] <= '9')
    || (|s| > 1 && s[0] == '-' && '0' <= s[1] <= '9')
  }

  predicate Castable(cast: Cast, s: string) {
    cast.Numeric? ==> LooksNumeric(s)
  }

  const MAX_ARRAY_CONTRIBUTOR_SCAN := 200

  // The SQL function record_contributor_identities of migration 023.
  function ContributorIdentities(pg: Postgres, doc: J.Json): Option<seq<Option<string>>> {
    var contributors :- J.Follow(doc, ["contributors"]);
    if contributors.JArr? && |contributors.items| <= MAX_ARRAY_CONTRIBUTOR_SCAN then
      Some(Identities(pg, contributors.items))
    else None
  }

  function Identities(pg: Postgres, items: seq<J.Json>): seq<Option<string>> {
    if items == [] then []
    else
      var rest := Identities(pg, items[1..]);
      match J.Follow(items[0], ["contributorIdentity"])
      case None => rest
      case Some(JStr(s)) => [Some(s)] + rest
      case Some(JObj(fields)) => [TextAt(pg, J.JObj(fields), ["identity"])] + rest
      case Some(_) => [None] + rest
  }

  function TextCell(t: Option<string>): Cell {
    if t.Some? then SqlText(t.value) else SqlNull
  }

  function EvalExpr(pg: Postgres, e: Expr, scope: Scope): Cell {
    match e
    case Column(a, name) => if a in scope then TextCell(ColumnOf(scope[a], name)) else SqlNull
    case Doc(a) => if a in scope then SqlDoc(scope[a].json) else SqlNull
    case JsonText(a, path) => if a in scope then TextCell(TextAt(pg, scope[a].json, path)) else SqlNull
    case JsonTyped(a, path, cast) =>
      if a in scope then
        var t := TextAt(pg, scope[a].json, path);
        if t.Some? && Castable(cast, t.value) then SqlCast(cast, t.value) else SqlNull
      else SqlNull
    case Lower(inner) =>
      var c := EvalExpr(pg, inner, scope);
      if c.SqlText? then SqlText(FilterTree.AsciiLower(c.s)) else SqlNull
    case Contributors(a) =>
      if a in scope then
        var ids := ContributorIdentities(pg, scope[a].json);
        if ids.Some? then SqlArray(ids.value) else SqlNull
      else SqlNull
  }

  function ArgAsText(arg: Arg): Option<string> {
    match arg
    case ArgText(s) => Some(s)
    case ArgValue(One(a)) => if a.Nil? then None else Some(FilterTree.Shown(a))
    case _ => None
  }

  function Ordering(pg: Postgres, left: Cell, arg: Arg): Option<int> {
    if !arg.ArgValue? then None
    else
      match left
      case SqlText(s) => pg.compare(NoCast, s, arg.v)
      case SqlCast(cast, s) => pg.compare(cast, s, arg.v)
      case _ => None
  }

  ghost function Compare(pg: Postgres, left: Cell, op: CmpOp, arg: Arg): Tri {
    match op
    case IsEq =>
      if left.SqlText? && ArgAsText(arg).Some? then Truth(left.s == ArgAsText(arg).value) else U
    case IsNeq =>
      if left.SqlText? && ArgAsText(arg).Some? then Truth(left.s != ArgAsText(arg).value) else U
    case IsGt => var o := Ordering(pg, left, arg); if o.Some? then Truth(o.value > 0) else U
    case IsLt => var o := Ordering(pg, left, arg); if o.Some? then Truth(o.value < 0) else U
    case IsGte => var o := Ordering(pg, left, arg); if o.Some? then Truth(o.value >= 0) else U
    case IsLte => var o := Ordering(pg, left, arg); if o.Some? then Truth(o.value <= 0) else U
    case EqAny => if left.SqlText? && arg.ArgTexts? then Truth(left.s in arg.texts) else U
    case ILikeOp(leading) =>
      if left.SqlText? && ArgAsText(arg).Some? then
        Truth(LikePattern.ILike(pg.fold, left.s, (if leading then "%" else "") + ArgAsText(arg).value + "%"))
      else U
    case HasDoc => if left.SqlDoc? && arg.ArgDoc? then Truth(J.Contains(left.doc, arg.doc)) else U
    case HasElement => if left.SqlArray? then Truth(ArgAsText(arg).Some? && ArgAsText(arg) in left.elems) else U
    case OverlapsArray =>
      if left.SqlArray? && arg.ArgTexts? then Truth(exists t | t in arg.texts :: Some(t) in left.elems) else U
  }

  // The elements of `r.json->'path'` when it is an array, none otherwise.
  function Elements(doc: J.Json, path: seq<string>): seq<J.Json> {
    match J.Follow(doc, path)
    case Some(JArr(items)) => items
    case _ => []
  }

  // A row of `e(json)`: its one column is never NULL.
  function ElementRow(pg: Postgres, item: J.Json): Row {
    Row(item, map["json" := Some(pg.render(item))])
  }

  ghost function Eval(pg: Postgres, db: seq<Row>, c: Cond, scope: Scope, args: seq<Arg>): Tri {
    match c
    case Either(l, r) => Or3(Eval(pg, db, l, scope, args), Eval(pg, db, r, scope, args))
    case Both(l, r) => And3(Eval(pg, db, l, scope, args), Eval(pg, db, r, scope, args))
    case NullTest(e, yes) => Truth(EvalExpr(pg, e, scope).SqlNull? == yes)
    case Cmp(e, op, n) => if 1 <= n <= |args| then Compare(pg, EvalExpr(pg, e, scope), op, args[n - 1]) else U
    case Same(e, op, other) =>
      var right := EvalExpr(pg, other, scope);
      if right.SqlText? then Compare(pg, EvalExpr(pg, e, scope), op, ArgText(right.s)) else U
    case SomeRecord(body) =>
      Truth(exists row | row in db :: Eval(pg, db, body, scope["d" := row], args).T?)
    case SomeElement(path) =>
      Truth("r" in scope && Elements(scope["r"].json, path) != [])
    case SomeElementWhere(path, body) =>
      Truth("r" in scope && exists item | item in Elements(scope["r"].json, path) ::
              Eval(pg, db, body, scope["e" := ElementRow(pg, item)], args).T?)
  }
}
