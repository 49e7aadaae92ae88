/**
 Which table alias the names in a fragment refer to.  Each EXISTS opens a
 scope; a leaf must name the scope it stands in, and only the two registry
 paths may name the outer record `r`.
 */
module FilterScopes {
  import opened Wrappers
  import opened FilterTree
  import opened FilterCompiler

  // The columns of the `record` table.
  const RECORD_COLUMNS: set<string> :=
    {"uri", "cid", "did", "collection", "json", "indexed_at", "rkey", "search_vector", "sort_at", "subject_did"}

  // What every Postgres table has besides; the rows of a function call have not.
  const SYSTEM_COLUMNS: set<string> := {"tableoid", "xmin", "cmin", "xmax", "cmax", "ctid"}

  // An unquoted name is folded to lower case before it is looked up.
  predicate HasColumn(alias: string, name: string) {
    var folded := AsciiLower(name);
    if alias == "e" then folded == "json" else folded in RECORD_COLUMNS || folded in SYSTEM_COLUMNS
  }

  lemma LowerStays(s: string)
    requires forall i | 0 <= i < |s| :: LowerByte(s[i]) == s[i]
    ensures AsciiLower(s) == s
  {
  }

  // The columns that the compiler names itself.
  lemma OwnColumns()
    ensures HasColumn("r", "subject_did") && HasColumn("d", "collection") && HasColumn("d", "uri")
  {
    LowerStays("subject_did");
    LowerStays("collection");
    LowerStays("uri");
  }

  function AliasOf(e: Expr): string {
    match e
    case Lower(inner) => AliasOf(inner)
    case _ => e.alias
  }

  predicate ColumnExists(e: Expr) {
    match e
    case Lower(inner) => ColumnExists(inner)
    case Column(a, name) => HasColumn(a, name)
    case _ => true
  }

  // The innermost scope comes first.
  predicate NameOk(e: Expr, scopes: seq<string>) {
    && scopes != []
    && (AliasOf(e) == scopes[0] || (e.JsonText? && AliasOf(e) == "r" && "r" in scopes))
    && ColumnExists(e)
  }

  // Reads the tokens left to right: the scopes left open at the end, or None
  // when a name does not resolve or a parenthesis has no partner.
  function Walk(ts: seq<Token>, scopes: seq<string>): Option<seq<string>> {
    if ts == [] then Some(scopes)
    else
      match ts[0]
      case Val(e) => if NameOk(e, scopes) then Walk(ts[1..], scopes) else None
      case LP => if scopes != [] then Walk(ts[1..], [scopes[0]] + scopes) else None
      case ExistsRecord => Walk(ts[1..], ["d"] + scopes)
      case ExistsArray(_) => if "r" in scopes then Walk(ts[1..], ["e"] + scopes) else None
      case RP => if scopes != [] then Walk(ts[1..], scopes[1..]) else None
      case _ => Walk(ts[1..], scopes)
  }

  function Then(first: Option<seq<string>>, ts: seq<Token>): Option<seq<string>> {
    if first.Some? then Walk(ts, first.value) else None
  }

  lemma {:induction false} WalkConcat(a: seq<Token>, b: seq<Token>, scopes: seq<string>)
    ensures Walk(a + b, scopes) == Then(Walk(a, scopes), b)
    decreases |a|
  {
    if a == [] {
      assert a + b == b;
    } else {
      assert (a + b)[1..] == a[1..] + b;
      match a[0]
      case LP => if scopes != [] { WalkConcat(a[1..], b, [scopes[0]] + scopes); }
      case ExistsRecord => WalkConcat(a[1..], b, ["d"] + scopes);
      case ExistsArray(_) => WalkConcat(a[1..], b, ["e"] + scopes);
      case RP => if scopes != [] { WalkConcat(a[1..], b, scopes[1..]); }
      case _ => WalkConcat(a[1..], b, scopes);
    }
  }

  // ---------- the condition on the tree ----------

  predicate LeafColumnExists(f: FieldFilter, alias: string) {
    (f.isNull.Some? || f.kind.KindScalar?) && !f.isJson ==> HasColumn(alias, f.fieldName)
  }

  // Every leaf on a column names one that its scope has; under an array filter that is `json` alone.
  predicate ColumnsExist(g: FilterGroup, alias: string)
    decreases g
  {
    && (forall f | f in g.filters :: LeafColumnExists(f, alias))
    && (forall c | c in g.children :: ColumnsExist(c, alias))
    && (forall j | j in g.joined :: ColumnsExist(j.inner, "d"))
    && (forall a | a in g.arrays :: ColumnsExist(a.inner, "e"))
  }

  predicate EntryColumnsExist(g: FilterGroup, k: nat, alias: string)
    requires k < Total(g)
  {
    var c := |g.filters|;
    var j := c + |g.children|;
    var a := j + |g.joined|;
    if k < c then LeafColumnExists(g.filters[k], alias)
    else if k < j then ColumnsExist(g.children[k - c], alias)
    else if k < a then ColumnsExist(g.joined[k - j].inner, "d")
    else ColumnsExist(g.arrays[k - a].inner, "e")
  }

  predicate EntriesColumnsExist(g: FilterGroup, k: nat, alias: string)
    requires k <= Total(g)
  {
    forall i | k <= i < Total(g) :: EntryColumnsExist(g, i, alias)
  }

  lemma ColumnsExistByEntries(g: FilterGroup, alias: string)
    ensures ColumnsExist(g, alias) <==> EntriesColumnsExist(g, 0, alias)
  {
    var c := |g.filters|;
    var j := c + |g.children|;
    var a := j + |g.joined|;
    forall i | 0 <= i < |g.filters|
      ensures EntryColumnsExist(g, i, alias) <==> LeafColumnExists(g.filters[i], alias) {}
    forall i | 0 <= i < |g.children|
      ensures EntryColumnsExist(g, c + i, alias) <==> ColumnsExist(g.children[i], alias) {}
    forall i | 0 <= i < |g.joined|
      ensures EntryColumnsExist(g, j + i, alias) <==> ColumnsExist(g.joined[i].inner, "d") {}
    forall i | 0 <= i < |g.arrays|
      ensures EntryColumnsExist(g, a + i, alias) <==> ColumnsExist(g.arrays[i].inner, "e") {}
    if ColumnsExist(g, alias) {
      forall k | 0 <= k < Total(g) ensures EntryColumnsExist(g, k, alias) {
        if k < c { assert g.filters[k] in g.filters; }
        else if k < j { assert g.children[k - c] in g.children; }
        else if k < a { assert g.joined[k - j] in g.joined; }
        else { assert g.arrays[k - a] in g.arrays; }
      }
    }
  }

  // ---------- the fragments ----------

  // Balanced, and resolving exactly when `ok`.
  ghost predicate Resolves(ts: seq<Token>, scopes: seq<string>, ok: bool) {
    Walk(ts, scopes) == if ok then Some(scopes) else None
  }

  lemma ResolvesConcat(a: seq<Token>, b: seq<Token>, scopes: seq<string>, okA: bool, okB: bool)
    requires Resolves(a, scopes, okA) && Resolves(b, scopes, okB)
    ensures Resolves(a + b, scopes, okA && okB)
  {
    WalkConcat(a, b, scopes);
  }

  // One opening token, a balanced body one scope deeper, and the closing parenthesis.
  lemma ResolvesClosed(open: Token, body: seq<Token>, scopes: seq<string>, inner: seq<string>, ok: bool)
    requires Walk([open], scopes) == Some(inner) && |inner| > 0 && inner[1..] == scopes
    requires Resolves(body, inner, ok)
    ensures Resolves([open] + body + [RP], scopes, ok)
  {
    WalkConcat([open] + body, [RP], scopes);
    WalkConcat([open], body, scopes);
    assert Walk([RP], inner) == Some(scopes) by {
      assert [RP][1..] == [];
    }
  }

  lemma {:induction false} Flat(ts: seq<Token>, scopes: seq<string>)
    requires forall i | 0 <= i < |ts| :: ts[i].Val? || ts[i].Op? || ts[i].Param? || ts[i].AND? || ts[i].OR?
                                      || ts[i].IsNullTok? || ts[i].IsNotNullTok? || ts[i].WHERE?
    ensures Resolves(ts, scopes, forall i | 0 <= i < |ts| && ts[i].Val? :: NameOk(ts[i].e, scopes))
    decreases |ts|
  {
    if ts != [] {
      Flat(ts[1..], scopes);
      forall i | 0 <= i < |ts[1..]| ensures ts[1..][i] == ts[i + 1] {}
      if forall i | 0 <= i < |ts[1..]| && ts[1..][i].Val? :: NameOk(ts[1..][i].e, scopes) {
        forall i | 1 <= i < |ts| && ts[i].Val? ensures NameOk(ts[i].e, scopes) {
          assert ts[1..][i - 1] == ts[i];
        }
      }
    }
  }

  // A leaf clause is one comparison, parenthesised or with a null test, on names of its own alias.
  lemma LeafShape(f: FieldFilter, p: int, alias: string) returns (e: Expr, op: CmpOp, orNull: bool, wrapped: bool)
    requires LeafFragment(f, p, alias).Ok? && f.isNull.None?
    ensures LeafFragment(f, p, alias).value.clause ==
            if wrapped then [LP, Val(e), Op(op), Param(p), RP]
            else Comparison(e, op, p, orNull, JsonExtract(alias, f))
    ensures AliasOf(e) == alias && ColumnExists(e) == LeafColumnExists(f, alias)
    ensures orNull ==> f.kind.KindScalar?
  {
    orNull, wrapped := false, false;
    OwnColumns();
    if f.kind.KindArrayContributor? {
      e, op, wrapped := Contributors("r"), if f.op.Eq? then HasElement else OverlapsArray, true;
    } else if f.kind.KindUnionSubject? {
      e, op := Column("r", "subject_did"), EqOrAny(f.op);
    } else if f.kind.KindStringSubject? {
      e, op := JsonText("r", ["subject"]), EqOrAny(f.op);
    } else {
      e := JsonExtract(alias, f);
      match f.op
      case Eq => if f.isJson { e, op := Doc(alias), HasDoc; } else { op := IsEq; }
      case Neq => op, orNull := IsNeq, true;
      case Gt => e, op := JsonExtractTyped(alias, f), IsGt;
      case Lt => e, op := JsonExtractTyped(alias, f), IsLt;
      case Gte => e, op := JsonExtractTyped(alias, f), IsGte;
      case Lte => e, op := JsonExtractTyped(alias, f), IsLte;
      case In => op, orNull := EqAny, HasNull(f.value);
      case Eqi => e, op := Lower(e), IsEq;
      case Ini => e, op, orNull := Lower(e), EqAny, HasNull(f.value);
      case Contains => op := ILikeOp(true);
      case _ => op := ILikeOp(false);
    }
  }

  lemma ComparisonResolves(e: Expr, op: CmpOp, p: int, orNull: bool, x: Expr, scopes: seq<string>, ok: bool)
    requires scopes != [] && NameOk(e, scopes) == ok && (orNull ==> NameOk(x, scopes) == ok)
    ensures Resolves(Comparison(e, op, p, orNull, x), scopes, ok)
  {
    var inner := [scopes[0]] + scopes;
    if orNull {
      var body := [Val(e), Op(op), Param(p), OR, Val(x), IsNullTok];
      Flat(body, inner);
      assert body[0].e == e && body[4].e == x;
      assert NameOk(e, inner) == ok && NameOk(x, inner) == ok;
      Parenthesised(body, scopes, ok);
      assert Comparison(e, op, p, orNull, x) == [LP] + body + [RP];
    } else {
      var body := [Val(e), Op(op), Param(p)];
      Flat(body, scopes);
      assert body[0].e == e;
    }
  }

  lemma Parenthesised(body: seq<Token>, scopes: seq<string>, ok: bool)
    requires scopes != [] && Resolves(body, [scopes[0]] + scopes, ok)
    ensures Resolves([LP] + body + [RP], scopes, ok)
  {
    assert [LP][1..] == [];
    ResolvesClosed(LP, body, scopes, [scopes[0]] + scopes, ok);
  }

  lemma LeafResolves(f: FieldFilter, p: int, alias: string, scopes: seq<string>)
    requires LeafFragment(f, p, alias).Ok?
    requires scopes != [] && scopes[0] == alias && "r" in scopes
    ensures Resolves(LeafFragment(f, p, alias).value.clause, scopes, LeafColumnExists(f, alias))
  {
    var ok := LeafColumnExists(f, alias);
    if f.isNull.Some? {
      var ts := LeafFragment(f, p, alias).value.clause;
      Flat(ts, scopes);
      assert NameOk(ts[0].e, scopes) == ok;
    } else {
      var e, op, orNull, wrapped := LeafShape(f, p, alias);
      if wrapped {
        var body := [Val(e), Op(op), Param(p)];
        ComparisonResolves(e, op, p, false, e, [alias] + scopes, ok);
        Parenthesised(body, scopes, ok);
        assert [LP] + body + [RP] == [LP, Val(e), Op(op), Param(p), RP];
      } else {
        ComparisonResolves(e, op, p, orNull, JsonExtract(alias, f), scopes, ok);
      }
    }
  }

  lemma {:induction false} JoinResolves(clauses: seq<seq<Token>>, joiner: Token, scopes: seq<string>, oks: seq<bool>)
    requires joiner.AND? || joiner.OR?
    requires ResolvesAll(clauses, scopes, oks)
    ensures Resolves(Join(clauses, joiner), scopes, All(oks))
    decreases |clauses|
  {
    if |clauses| > 1 {
      JoinResolves(clauses[1..], joiner, scopes, oks[1..]);
      Flat([joiner], scopes);
      ResolvesConcat(clauses[0], [joiner], scopes, oks[0], true);
      ResolvesConcat(clauses[0] + [joiner], Join(clauses[1..], joiner), scopes, oks[0], All(oks[1..]));
      AllOfBoth([oks[0]], oks[1..]);
      assert oks == [oks[0]] + oks[1..];
    }
  }

  lemma AndParenthesised(inner: seq<Token>, scopes: seq<string>, ok: bool)
    requires scopes != [] && Resolves(inner, [scopes[0]] + scopes, ok)
    ensures Resolves([AND] + ([LP] + inner + [RP]), scopes, ok)
  {
    Flat([AND], scopes);
    Parenthesised(inner, scopes, ok);
    ResolvesConcat([AND], [LP] + inner + [RP], scopes, true, ok);
  }

  function JoinHead(j: JoinedFilter, n: int): seq<Token> {
    [Val(Column("d", "collection")), Op(IsEq), Param(n), AND,
     Val(Column("d", "uri")), Op(IsEq), Val(JsonText("r", j.joinPath))]
  }

  lemma HeadResolves(j: JoinedFilter, n: int, scopes: seq<string>)
    requires "r" in scopes
    ensures Resolves(JoinHead(j, n), ["d"] + scopes, true)
  {
    OwnColumns();
    Flat(JoinHead(j, n), ["d"] + scopes);
  }

  lemma JoinedResolves(j: JoinedFilter, inner: seq<Token>, n: int, scopes: seq<string>, ok: bool)
    requires "r" in scopes
    requires Resolves(inner, ["d", "d"] + scopes, ok)
    ensures Resolves(ExistsRecordTokens(j, inner, n), scopes, ok)
  {
    var deeper := ["d"] + scopes;
    var head := JoinHead(j, n);
    HeadResolves(j, n, scopes);
    assert [ExistsRecord][1..] == [] && deeper[1..] == scopes;
    var body := head;
    if inner != [] {
      assert [deeper[0]] + deeper == ["d", "d"] + scopes;
      AndParenthesised(inner, deeper, ok);
      ResolvesConcat(head, [AND] + ([LP] + inner + [RP]), deeper, true, ok);
      body := head + ([AND] + ([LP] + inner + [RP]));
    }
    ResolvesClosed(ExistsRecord, body, scopes, deeper, ok);
    assert ExistsRecordTokens(j, inner, n) == [ExistsRecord] + body + [RP];
  }

  lemma ArrayResolves(a: ArrayFilter, inner: seq<Token>, scopes: seq<string>, ok: bool)
    requires "r" in scopes
    requires Resolves(inner, ["e"] + scopes, ok)
    ensures Resolves(ExistsArrayTokens(a, inner), scopes, ok)
  {
    var deeper := ["e"] + scopes;
    assert [ExistsArray(a.arrayPath)][1..] == [] && deeper[1..] == scopes;
    var body := [];
    if inner != [] {
      Flat([WHERE], deeper);
      ResolvesConcat([WHERE], inner, deeper, true, ok);
      body := [WHERE] + inner;
    }
    ResolvesClosed(ExistsArray(a.arrayPath), body, scopes, deeper, ok);
  }

  lemma {:induction false} EntryResolves(g: FilterGroup, k: nat, p: int, depth: nat, alias: string,
                                         scopes: seq<string>)
    requires k < Total(g) && EntrySection(g, k, p, depth, alias).Ok?
    requires scopes != [] && scopes[0] == alias && "r" in scopes
    ensures var clauses := EntrySection(g, k, p, depth, alias).value.clauses;
            |clauses| <= 1 &&
            if clauses == [] then EntryColumnsExist(g, k, alias)
            else Resolves(clauses[0], scopes, EntryColumnsExist(g, k, alias))
    decreases g, 0
  {
    var c := |g.filters|;
    var j := c + |g.children|;
    var a := j + |g.joined|;
    if k < c {
      LeafResolves(g.filters[k], p, alias, scopes);
    } else if k < j {
      var child := g.children[k - c];
      var clause := GroupFragment(child, p, depth + 1, alias).value.clause;
      var inner := [scopes[0]] + scopes;
      GroupResolves(child, p, depth + 1, alias, inner);
      if clause != [] {
        Parenthesised(clause, scopes, ColumnsExist(child, alias));
      }
    } else if k < a {
      var join := g.joined[k - j];
      var inner := GroupFragment(join.inner, p, 0, "d").value;
      GroupResolves(join.inner, p, 0, "d", ["d", "d"] + scopes);
      JoinedResolves(join, inner.clause, p + |inner.params|, scopes, ColumnsExist(join.inner, "d"));
    } else {
      var arr := g.arrays[k - a];
      GroupResolves(arr.inner, p, 0, "e", ["e"] + scopes);
      ArrayResolves(arr, GroupFragment(arr.inner, p, 0, "e").value.clause, scopes, ColumnsExist(arr.inner, "e"));
    }
  }

  // One flag per clause: does it resolve?
  lemma {:induction false} EntriesResolve(g: FilterGroup, k: nat, p: int, depth: nat, alias: string,
                                          scopes: seq<string>)
    returns (oks: seq<bool>)
    requires k <= Total(g) && EntriesFrom(g, k, p, depth, alias).Ok?
    requires scopes != [] && scopes[0] == alias && "r" in scopes
    ensures var clauses := EntriesFrom(g, k, p, depth, alias).value.clauses;
            ResolvesAll(clauses, scopes, oks)
    ensures All(oks) <==> EntriesColumnsExist(g, k, alias)
    decreases g, 1 + Total(g) - k
  {
    if k == Total(g) {
      oks := [];
    } else {
      var first := EntrySection(g, k, p, depth, alias).value;
      EntryResolves(g, k, p, depth, alias, scopes);
      var rest := EntriesResolve(g, k + 1, p + |first.params|, depth, alias, scopes);
      var head := OneFlag(first.clauses, scopes, EntryColumnsExist(g, k, alias));
      oks := head + rest;
      AllOfBoth(head, rest);
      var more := EntriesFrom(g, k + 1, p + |first.params|, depth, alias).value;
      ResolvesAllConcat(first.clauses, more.clauses, scopes, head, rest);
      FirstEntry(g, k, alias);
    }
  }

  lemma OneFlag(clauses: seq<seq<Token>>, scopes: seq<string>, ok: bool) returns (oks: seq<bool>)
    requires |clauses| <= 1 && if clauses == [] then ok else Resolves(clauses[0], scopes, ok)
    ensures ResolvesAll(clauses, scopes, oks) && (All(oks) <==> ok)
  {
    oks := if clauses == [] then [] else [ok];
  }

  ghost predicate ResolvesAll(clauses: seq<seq<Token>>, scopes: seq<string>, oks: seq<bool>) {
    |oks| == |clauses| && forall i | 0 <= i < |oks| :: Resolves(clauses[i], scopes, oks[i])
  }

  lemma ResolvesAllConcat(a: seq<seq<Token>>, b: seq<seq<Token>>, scopes: seq<string>, oksA: seq<bool>,
                          oksB: seq<bool>)
    requires ResolvesAll(a, scopes, oksA) && ResolvesAll(b, scopes, oksB)
    ensures ResolvesAll(a + b, scopes, oksA + oksB)
  {
  }

  predicate All(oks: seq<bool>) {
    forall i | 0 <= i < |oks| :: oks[i]
  }

  lemma AllOfBoth(head: seq<bool>, rest: seq<bool>)
    ensures All(head + rest) <==> All(head) && All(rest)
  {
    if All(head + rest) {
      forall i | 0 <= i < |rest| ensures rest[i] { assert (head + rest)[|head| + i]; }
      forall i | 0 <= i < |head| ensures head[i] { assert (head + rest)[i]; }
    }
  }

  lemma FirstEntry(g: FilterGroup, k: nat, alias: string)
    requires k < Total(g)
    ensures EntriesColumnsExist(g, k, alias) <==> EntryColumnsExist(g, k, alias) && EntriesColumnsExist(g, k + 1, alias)
  {
  }

  lemma {:induction false} GroupResolves(g: FilterGroup, p: int, depth: nat, alias: string, scopes: seq<string>)
    requires GroupFragment(g, p, depth, alias).Ok?
    requires scopes != [] && scopes[0] == alias && "r" in scopes
    ensures Resolves(GroupFragment(g, p, depth, alias).value.clause, scopes, ColumnsExist(g, alias))
    decreases g, 2 + Total(g)
  {
    ColumnsExistByEntries(g, alias);
    if !g.IsEmpty() {
      var clauses := EntriesFrom(g, 0, p, depth, alias).value.clauses;
      var oks := EntriesResolve(g, 0, p, depth, alias, scopes);
      JoinResolves(clauses, Joiner(g.op), scopes, oks);
    }
  }

  // Postgres finds every name of the emitted clause, each in the scope it stands
  // in, exactly when the tree's column leaves name columns that exist there.
  lemma NamesResolve(g: FilterGroup, p: int)
    requires Compile(g, p).Ok?
    ensures Walk(Compile(g, p).value.clause, ["r"]) == Some(["r"]) <==> ColumnsExist(g, "r")
  {
    GroupResolves(g, p, 0, "r", ["r"]);
  }
}
