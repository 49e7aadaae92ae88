/**
 The compiler from filter trees to SQL.  The emitted text is a sequence of
 tokens; a token is a keyword, a parenthesis, an operator, a numbered
 placeholder or one column or JSON expression.
 */
module FilterCompiler {
  import opened Wrappers
  import opened FilterTree
  import J = Json
  import FieldPath
  import Containment
  import LikePattern

  datatype Cast = NoCast | Numeric | Timestamp

  // An expression over the row that a table alias is bound to.
  datatype Expr =
    | Column(alias: string, name: string)                        // a.name
    | Doc(alias: string)                                         // a.json
    | JsonText(alias: string, path: seq<string>)                 // a.json->'x'->>'y'
    | JsonTyped(alias: string, path: seq<string>, cast: Cast)    // the same with a guarded cast
    | Lower(e: Expr)                                             // lower((e) COLLATE "C")
    | Contributors(alias: string)                                // record_contributor_identities(a.json)

  datatype CmpOp =
    | IsEq | IsNeq | IsGt | IsLt | IsGte | IsLte
    | EqAny                       // = ANY($N::text[])
    | ILikeOp(leading: bool)      // ILIKE ['%' ||] $N || '%' ESCAPE '\'
    | HasDoc                      // @> $N::jsonb
    | HasElement                  // @> ARRAY[$N]::text[]
    | OverlapsArray               // && $N::text[]

  datatype Token =
    | LP | RP | AND | OR
    | Val(e: Expr)
    | Op(op: CmpOp)
    | Param(n: int)
    | IsNullTok
    | IsNotNullTok
    | ExistsRecord                      // EXISTS (SELECT 1 FROM record d WHERE
    | ExistsArray(path: seq<string>)    // EXISTS (SELECT 1 FROM jsonb_array_elements(..) AS e(json)
    | WHERE

  datatype Arg = ArgValue(v: Value) | ArgText(s: string) | ArgTexts(texts: seq<string>) | ArgDoc(doc: J.Json)

  datatype CompileError = TooManyConditions | TooDeep | InvalidFilter | WrongScope | UnsupportedOperator

  // A WHERE fragment and the arguments its placeholders refer to.
  datatype Fragment = Fragment(clause: seq<Token>, params: seq<Arg>)

  function Path(f: FieldFilter): seq<string> {
    FieldPath.Split(f.fieldName)
  }

  function JsonExtract(alias: string, f: FieldFilter): Expr {
    if f.isJson then JsonText(alias, Path(f)) else Column(alias, f.fieldName)
  }

  function CastOf(lexiconType: string): Cast {
    if lexiconType == "integer" || lexiconType == "number" then Numeric
    else if lexiconType == "datetime" then Timestamp
    else NoCast
  }

  function JsonExtractTyped(alias: string, f: FieldFilter): Expr {
    if !f.isJson then Column(alias, f.fieldName)
    else if CastOf(f.lexiconType).NoCast? then JsonText(alias, Path(f))
    else JsonTyped(alias, Path(f), CastOf(f.lexiconType))
  }

  function ToJson(v: Value): J.Json {
    match v
    case One(a) => AtomJson(a)
    case Many(items) => J.JArr(seq(|items|, i requires 0 <= i < |items| => AtomJson(items[i])))
    case Texts(texts) => J.JArr(seq(|texts|, i requires 0 <= i < |texts| => J.JStr(texts[i])))
  }

  function AtomJson(a: Atom): J.Json {
    match a
    case Nil => J.JNull
    case Text(s) => J.JStr(s)
    case Number(n, _) => J.JNum(n)
    case Boolean(b) => J.JBool(b)
    case Object => J.JObj(map[])
    case Array => J.JArr([])
  }

  function LowerAll(texts: seq<string>): seq<string> {
    seq(|texts|, i requires 0 <= i < |texts| => AsciiLower(texts[i]))
  }

  // "e op $N", or "(e op $N OR x IS NULL)" when rows without the field also match.
  function Comparison(e: Expr, op: CmpOp, n: int, orNull: bool, x: Expr): seq<Token> {
    if orNull then [LP, Val(e), Op(op), Param(n), OR, Val(x), IsNullTok, RP] else [Val(e), Op(op), Param(n)]
  }

  function One3(clause: seq<Token>, arg: Arg, next: int): Result<(Fragment, int), CompileError> {
    Ok((Fragment(clause, [arg]), next))
  }

  // buildSingleFilter: one clause, its arguments and the next placeholder number.
  function SingleFilter(f: FieldFilter, p: int, alias: string): (r: Result<(Fragment, int), CompileError>)
    requires Valid(f) && f.isNull.None?
    ensures r.Ok? ==> |r.value.0.params| == 1 && r.value.1 == p + 1 && |r.value.0.clause| > 0
  {
    if !f.kind.KindScalar? then
      if alias != "r" then Err(WrongScope)
      else if !f.op.Eq? && !f.op.In? then Err(UnsupportedOperator)
      else
        match f.kind
        case KindArrayContributor =>
          var op := if f.op.Eq? then HasElement else OverlapsArray;
          One3([LP, Val(Contributors("r")), Op(op), Param(p), RP], ValueOrList(f), p + 1)
        case KindUnionSubject =>
          One3(Comparison(Column("r", "subject_did"), EqOrAny(f.op), p, false, Doc("r")), ValueOrList(f), p + 1)
        case _ =>
          One3(Comparison(JsonText("r", ["subject"]), EqOrAny(f.op), p, false, Doc("r")), ValueOrList(f), p + 1)
    else
      var e := JsonExtract(alias, f);
      match f.op
      case Eq =>
        if f.isJson then
          One3([Val(Doc(alias)), Op(HasDoc), Param(p)], ArgDoc(Containment.Nested(Path(f), ToJson(f.value))), p + 1)
        else One3(Comparison(e, IsEq, p, false, e), ArgValue(f.value), p + 1)
      case Neq => One3(Comparison(e, IsNeq, p, true, e), ArgValue(f.value), p + 1)
      case Gt => One3(Comparison(JsonExtractTyped(alias, f), IsGt, p, false, e), ArgValue(f.value), p + 1)
      case Lt => One3(Comparison(JsonExtractTyped(alias, f), IsLt, p, false, e), ArgValue(f.value), p + 1)
      case Gte => One3(Comparison(JsonExtractTyped(alias, f), IsGte, p, false, e), ArgValue(f.value), p + 1)
      case Lte => One3(Comparison(JsonExtractTyped(alias, f), IsLte, p, false, e), ArgValue(f.value), p + 1)
      case In => One3(Comparison(e, EqAny, p, HasNull(f.value), e), ArgTexts(ListTexts(f.value)), p + 1)
      case Eqi => One3(Comparison(Lower(e), IsEq, p, false, e), ArgText(AsciiLower(f.value.a.s)), p + 1)
      case Ini =>
        One3(Comparison(Lower(e), EqAny, p, HasNull(f.value), e), ArgTexts(LowerAll(ListTexts(f.value))), p + 1)
      case Contains =>
        One3(Comparison(e, ILikeOp(true), p, false, e), ArgText(LikePattern.EscapeLike(f.value.a.s)), p + 1)
      case StartsWith =>
        One3(Comparison(e, ILikeOp(false), p, false, e), ArgText(LikePattern.EscapeLike(f.value.a.s)), p + 1)
      case OtherOperator => Err(UnsupportedOperator)
  }

  function EqOrAny(op: Operator): CmpOp {
    if op.Eq? then IsEq else EqAny
  }

  function ValueOrList(f: FieldFilter): Arg {
    if f.op.Eq? then ArgValue(f.value) else ArgTexts(ListTexts(f.value))
  }

  // A leaf: `isNull` tests bypass the operators and take no argument.
  function LeafFragment(f: FieldFilter, p: int, alias: string): (r: Result<Fragment, CompileError>)
    ensures r.Ok? ==> Valid(f) && |r.value.clause| > 0 && |r.value.params| == if f.isNull.Some? then 0 else 1
  {
    if !Valid(f) then Err(InvalidFilter)
    else if f.isNull.Some? then
      Ok(Fragment([Val(JsonExtract(alias, f)), if f.isNull.value then IsNullTok else IsNotNullTok], []))
    else
      var single :- SingleFilter(f, p, alias);
      Ok(single.0)
  }

  // The EXISTS subquery of a joined filter; the collection's number follows the inner ones.
  function ExistsRecordTokens(j: JoinedFilter, inner: seq<Token>, n: int): seq<Token> {
    [ExistsRecord,
     Val(Column("d", "collection")), Op(IsEq), Param(n), AND,
     Val(Column("d", "uri")), Op(IsEq), Val(JsonText("r", j.joinPath))]
    + (if inner == [] then [] else [AND, LP] + inner + [RP])
    + [RP]
  }

  function ExistsArrayTokens(a: ArrayFilter, inner: seq<Token>): seq<Token> {
    [ExistsArray(a.arrayPath)] + (if inner == [] then [] else [WHERE] + inner) + [RP]
  }

  function Join(clauses: seq<seq<Token>>, joiner: Token): seq<Token> {
    if clauses == [] then []
    else if |clauses| == 1 then clauses[0]
    else clauses[0] + [joiner] + Join(clauses[1..], joiner)
  }

  // The clauses and arguments gathered so far inside one group.
  datatype Section = Section(clauses: seq<seq<Token>>, params: seq<Arg>)
  {
    function Plus(other: Section): Section {
      Section(clauses + other.clauses, params + other.params)
    }
  }

  // The entries of a group in emission order: filters, children, joins, arrays.
  function Total(g: FilterGroup): nat {
    |g.filters| + |g.children| + |g.joined| + |g.arrays|
  }

  function EntrySection(g: FilterGroup, k: nat, p: int, depth: nat, alias: string): (r: Result<Section, CompileError>)
    requires k < Total(g)
    ensures r.Ok? ==> forall i | 0 <= i < |r.value.clauses| :: |r.value.clauses[i]| > 0
    decreases g, 0
  {
    var c := |g.filters|;
    var j := c + |g.children|;
    var a := j + |g.joined|;
    if k < c then
      var leaf :- LeafFragment(g.filters[k], p, alias);
      Ok(Section([leaf.clause], leaf.params))
    else if k < j then
      var child :- GroupFragment(g.children[k - c], p, depth + 1, alias);
      Ok(if child.clause == [] then Section([], []) else Section([[LP] + child.clause + [RP]], child.params))
    else if k < a then
      var join := g.joined[k - j];
      var inner :- GroupFragment(join.inner, p, 0, "d");
      Ok(Section([ExistsRecordTokens(join, inner.clause, p + |inner.params|)], inner.params + [ArgText(join.target)]))
    else
      var arr := g.arrays[k - a];
      var inner :- GroupFragment(arr.inner, p, 0, "e");
      Ok(Section([ExistsArrayTokens(arr, inner.clause)], inner.params))
  }

  function EntriesFrom(g: FilterGroup, k: nat, p: int, depth: nat, alias: string): (r: Result<Section, CompileError>)
    requires k <= Total(g)
    ensures r.Ok? ==> forall i | 0 <= i < |r.value.clauses| :: |r.value.clauses[i]| > 0
    decreases g, 1 + Total(g) - k
  {
    if k == Total(g) then Ok(Section([], []))
    else
      var first :- EntrySection(g, k, p, depth, alias);
      var rest :- EntriesFrom(g, k + 1, p + |first.params|, depth, alias);
      Ok(first.Plus(rest))
  }

  function Joiner(op: GroupOperator): Token {
    if op.GroupOr? then OR else AND
  }

  // What buildFilterGroupRecursive returns.
  function GroupFragment(g: FilterGroup, p: int, depth: nat, alias: string): Result<Fragment, CompileError>
    decreases g, 2 + Total(g)
  {
    if depth > MAX_FILTER_DEPTH then Err(TooDeep)
    else if g.IsEmpty() then Ok(Fragment([], []))
    else
      var section :- EntriesFrom(g, 0, p, depth, alias);
      Ok(if section.clauses == [] then Fragment([], [])
         else Fragment(Join(section.clauses, Joiner(g.op)), section.params))
  }

  // What is gathered so far, followed by what the rest of the group yields.
  function Extend(done: Section, rest: Result<Section, CompileError>): Result<Section, CompileError> {
    match rest
    case Ok(s) => Ok(done.Plus(s))
    case Err(e) => Err(e)
  }

  lemma ExtendPlus(done: Section, more: Section, rest: Result<Section, CompileError>)
    ensures Extend(done.Plus(more), rest) == Extend(done, Extend(more, rest))
  {
    if rest.Ok? {
      assert done.clauses + more.clauses + rest.value.clauses == done.clauses + (more.clauses + rest.value.clauses);
      assert done.params + more.params + rest.value.params == done.params + (more.params + rest.value.params);
    }
  }

  lemma EntriesStep(g: FilterGroup, k: nat, p: int, depth: nat, alias: string, done: Section)
    requires k < Total(g)
    ensures var entry := EntrySection(g, k, p, depth, alias);
            Extend(done, EntriesFrom(g, k, p, depth, alias)) ==
            match entry
            case Err(e) => Err(e)
            case Ok(s) => Extend(done.Plus(s), EntriesFrom(g, k + 1, p + |s.params|, depth, alias))
  {
    var entry := EntrySection(g, k, p, depth, alias);
    if entry.Ok? {
      ExtendPlus(done, entry.value, EntriesFrom(g, k + 1, p + |entry.value.params|, depth, alias));
    }
  }

  // The entries `from..to` of a group have been compiled to `r`; what follows them is still to come.
  ghost predicate Gathered(g: FilterGroup, from: nat, to: nat, p: int, depth: nat, alias: string,
                           r: Result<Section, CompileError>)
    requires from <= to <= Total(g)
  {
    EntriesFrom(g, from, p, depth, alias) ==
    match r
    case Err(e) => Err(e)
    case Ok(s) => Extend(s, EntriesFrom(g, to, p + |s.params|, depth, alias))
  }

  lemma GatheredNothing(g: FilterGroup, k: nat, p: int, depth: nat, alias: string)
    requires k <= Total(g)
    ensures Gathered(g, k, k, p, depth, alias, Ok(Section([], [])))
  {
    var rest := EntriesFrom(g, k, p, depth, alias);
    if rest.Ok? {
      assert [] + rest.value.clauses == rest.value.clauses && [] + rest.value.params == rest.value.params;
    }
  }

  lemma GatheredAll(g: FilterGroup, p: int, depth: nat, alias: string, s: Section)
    requires Gathered(g, 0, Total(g), p, depth, alias, Ok(s))
    ensures EntriesFrom(g, 0, p, depth, alias) == Ok(s)
  {
    assert s.clauses + [] == s.clauses && s.params + [] == s.params;
  }

  lemma GatheredBoth(g: FilterGroup, mid: nat, to: nat, p: int, depth: nat, alias: string,
                     s: Section, more: Result<Section, CompileError>)
    requires mid <= to <= Total(g)
    requires Gathered(g, 0, mid, p, depth, alias, Ok(s))
    requires Gathered(g, mid, to, p + |s.params|, depth, alias, more)
    ensures more.Ok? ==> Gathered(g, 0, to, p, depth, alias, Ok(s.Plus(more.value)))
    ensures more.Err? ==> EntriesFrom(g, 0, p, depth, alias) == Err(more.error)
  {
    if more.Ok? {
      ExtendPlus(s, more.value, EntriesFrom(g, to, p + |s.params| + |more.value.params|, depth, alias));
      assert p + |s.params| + |more.value.params| == p + |s.Plus(more.value).params|;
    }
  }

  // The first loop: leaf filters.
  method BuildFilters(g: FilterGroup, p: int, depth: nat, alias: string) returns (r: Result<Section, CompileError>)
    ensures Gathered(g, 0, |g.filters|, p, depth, alias, r)
  {
    var clauses: seq<seq<Token>>, params: seq<Arg> := [], [];
    var paramIdx := p;
    GatheredNothing(g, 0, p, depth, alias);
    for i := 0 to |g.filters|
      invariant paramIdx == p + |params|
      invariant Gathered(g, 0, i, p, depth, alias, Ok(Section(clauses, params)))
    {
      EntriesStep(g, i, paramIdx, depth, alias, Section(clauses, params));
      var f := g.filters[i];
      if !Valid(f) {
        return Err(InvalidFilter);
      }
      if f.isNull.Some? {
        clauses := clauses + [[Val(JsonExtract(alias, f)), if f.isNull.value then IsNullTok else IsNotNullTok]];
        assert params + [] == params;
        continue;
      }
      var single := SingleFilter(f, paramIdx, alias);
      if single.Err? {
        return Err(single.error);
      }
      clauses := clauses + [single.value.0.clause];
      params := params + single.value.0.params;
      paramIdx := single.value.1;
    }
    r := Ok(Section(clauses, params));
  }

  // The second loop: child groups, in parentheses, empty ones dropped.
  method BuildChildren(g: FilterGroup, p: int, depth: nat, alias: string) returns (r: Result<Section, CompileError>)
    ensures Gathered(g, |g.filters|, |g.filters| + |g.children|, p, depth, alias, r)
    decreases g, 0
  {
    var base := |g.filters|;
    var clauses: seq<seq<Token>>, params: seq<Arg> := [], [];
    var paramIdx := p;
    GatheredNothing(g, base, p, depth, alias);
    for i := 0 to |g.children|
      invariant paramIdx == p + |params|
      invariant Gathered(g, base, base + i, p, depth, alias, Ok(Section(clauses, params)))
    {
      EntriesStep(g, base + i, paramIdx, depth, alias, Section(clauses, params));
      var child := BuildFilterGroupRecursive(g.children[i], paramIdx, depth + 1, alias);
      if child.Err? {
        return Err(child.error);
      }
      if child.value.clause != [] {
        clauses := clauses + [[LP] + child.value.clause + [RP]];
        params := params + child.value.params;
        paramIdx := paramIdx + |child.value.params|;
      } else {
        assert clauses + [] == clauses && params + [] == params;
      }
    }
    r := Ok(Section(clauses, params));
  }

  // The third loop: joined filters, each an EXISTS over `record d`.
  method BuildJoined(g: FilterGroup, p: int, depth: nat, alias: string) returns (r: Result<Section, CompileError>)
    ensures Gathered(g, |g.filters| + |g.children|, |g.filters| + |g.children| + |g.joined|, p, depth, alias, r)
    decreases g, 0
  {
    var base := |g.filters| + |g.children|;
    var clauses: seq<seq<Token>>, params: seq<Arg> := [], [];
    var paramIdx := p;
    GatheredNothing(g, base, p, depth, alias);
    for i := 0 to |g.joined|
      invariant paramIdx == p + |params|
      invariant Gathered(g, base, base + i, p, depth, alias, Ok(Section(clauses, params)))
    {
      EntriesStep(g, base + i, paramIdx, depth, alias, Section(clauses, params));
      var join := g.joined[i];
      var inner := BuildFilterGroupRecursive(join.inner, paramIdx, 0, "d");
      if inner.Err? {
        return Err(inner.error);
      }
      var collParamIdx := paramIdx + |inner.value.params|;
      clauses := clauses + [ExistsRecordTokens(join, inner.value.clause, collParamIdx)];
      assert params + (inner.value.params + [ArgText(join.target)])
          == params + inner.value.params + [ArgText(join.target)];
      params := params + inner.value.params;
      params := params + [ArgText(join.target)];
      paramIdx := collParamIdx + 1;
    }
    r := Ok(Section(clauses, params));
  }

  // The fourth loop: array filters, each an EXISTS over the elements `e(json)`.
  method BuildArrays(g: FilterGroup, p: int, depth: nat, alias: string) returns (r: Result<Section, CompileError>)
    ensures Gathered(g, |g.filters| + |g.children| + |g.joined|, Total(g), p, depth, alias, r)
    decreases g, 0
  {
    var base := |g.filters| + |g.children| + |g.joined|;
    var clauses: seq<seq<Token>>, params: seq<Arg> := [], [];
    var paramIdx := p;
    GatheredNothing(g, base, p, depth, alias);
    for i := 0 to |g.arrays|
      invariant paramIdx == p + |params|
      invariant Gathered(g, base, base + i, p, depth, alias, Ok(Section(clauses, params)))
    {
      EntriesStep(g, base + i, paramIdx, depth, alias, Section(clauses, params));
      var inner := BuildFilterGroupRecursive(g.arrays[i].inner, paramIdx, 0, "e");
      if inner.Err? {
        return Err(inner.error);
      }
      clauses := clauses + [ExistsArrayTokens(g.arrays[i], inner.value.clause)];
      params := params + inner.value.params;
      paramIdx := paramIdx + |inner.value.params|;
    }
    r := Ok(Section(clauses, params));
  }

  // The recursive builder: the four loops one after another, then the join.
  method BuildFilterGroupRecursive(g: FilterGroup, p: int, depth: nat, alias: string)
    returns (r: Result<Fragment, CompileError>)
    ensures r == GroupFragment(g, p, depth, alias)
    decreases g, 1
  {
    if depth > MAX_FILTER_DEPTH {
      return Err(TooDeep);
    }
    if g.IsEmpty() {
      return Ok(Fragment([], []));
    }
    var leaves := BuildFilters(g, p, depth, alias);
    if leaves.Err? {
      return Err(leaves.error);
    }
    var s := leaves.value;
    var children := BuildChildren(g, p + |s.params|, depth, alias);
    GatheredBoth(g, |g.filters|, |g.filters| + |g.children|, p, depth, alias, s, children);
    if children.Err? {
      return Err(children.error);
    }
    s := s.Plus(children.value);
    var joined := BuildJoined(g, p + |s.params|, depth, alias);
    GatheredBoth(g, |g.filters| + |g.children|, |g.filters| + |g.children| + |g.joined|, p, depth, alias, s, joined);
    if joined.Err? {
      return Err(joined.error);
    }
    s := s.Plus(joined.value);
    var arrays := BuildArrays(g, p + |s.params|, depth, alias);
    GatheredBoth(g, |g.filters| + |g.children| + |g.joined|, Total(g), p, depth, alias, s, arrays);
    if arrays.Err? {
      return Err(arrays.error);
    }
    s := s.Plus(arrays.value);
    GatheredAll(g, p, depth, alias, s);
    if |s.clauses| == 0 {
      return Ok(Fragment([], []));
    }
    if |s.clauses| == 1 {
      return Ok(Fragment(s.clauses[0], s.params));
    }
    r := Ok(Fragment(Join(s.clauses, Joiner(g.op)), s.params));
  }

  // BuildFilterGroupClause: the condition cap, then the outer record's alias.
  function Compile(g: FilterGroup, p: int): Result<Fragment, CompileError> {
    if CountConditions(g) > MAX_FILTER_CONDITIONS then Err(TooManyConditions) else GroupFragment(g, p, 0, "r")
  }

  method BuildFilterGroupClause(g: FilterGroup, p: int) returns (r: Result<Fragment, CompileError>)
    ensures r == Compile(g, p)
  {
    if CountConditions(g) > MAX_FILTER_CONDITIONS {
      return Err(TooManyConditions);
    }
    r := BuildFilterGroupRecursive(g, p, 0, "r");
  }
}
