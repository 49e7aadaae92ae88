/**
 The filtered-records query: eight optional sections share one argument list
 and one placeholder counter.  The query is compared with what the caller's
 record filter asks for.
 */
module RecordQuery {
  import opened Wrappers
  import opened FilterTree
  import opened FilterCompiler
  import FieldPath

  datatype Direction = ASC | DESC

  datatype SortOption = SortOption(field: string, direction: Direction)

  datatype LabelFilter = LabelFilter(labelerSrcs: seq<string>, including: seq<string>, excluding: seq<string>)

  // `authors`: None is no filter, an empty list matches nothing.
  datatype RecordFilter = RecordFilter(
    authors: Option<seq<string>>,
    labels: LabelFilter,
    search: string,
    pdsExclude: seq<string>)

  datatype Request = Request(
    collection: string,
    afterSortValue: string,
    afterUri: string,
    filter: RecordFilter,
    sort: Option<SortOption>,
    group: Option<FilterGroup>)

  const MAX_SEARCH_LENGTH := 500
  const MAX_AUTHORS_FILTER_SIZE := 500
  const MAX_PDS_EXCLUDE_SIZE := 32

  datatype QueryError = AuthorsTooLarge | PDSTooLarge | FieldFilterError(e: CompileError) | SortFieldError

  // One conjunct of the WHERE clause; the numbers are placeholders.
  datatype Where =
    | CollectionIs(n: int)
    | DidIn(ns: seq<int>)
    | SearchMatches(n: int)
    | Fields(clause: seq<Token>)
    | BeyondCursor(key: Expr, direction: Direction, less: int, equal: int, uri: int)
    | PdsNotIn(ns: seq<int>)
    | HasLabel(wanted: bool, vals: seq<int>, srcs: Option<seq<int>>)

  // `Nothing` is the short circuit that never reaches the database.
  datatype Query = Nothing | Select(clauses: seq<Where>, args: seq<Arg>, key: Expr, direction: Direction)

  // ---------- one section at a time ----------

  datatype Part = Part(clauses: seq<Where>, args: seq<Arg>)
  {
    function Plus(other: Part): Part {
      Part(clauses + other.clauses, args + other.args)
    }
  }

  function Numbers(p: int, count: nat): (ns: seq<int>)
    ensures |ns| == count
  {
    seq(count, i => p + i)
  }

  function TextArgs(texts: seq<string>): (args: seq<Arg>)
    ensures |args| == |texts|
  {
    seq(|texts|, i requires 0 <= i < |texts| => ArgText(texts[i]))
  }

  // Byte-wise string order, and the sorted list without repetitions.
  predicate Before(a: string, b: string) {
    if b == "" then false
    else a == "" || a[0] < b[0] || (a[0] == b[0] && Before(a[1..], b[1..]))
  }

  function Insert(x: string, sorted: seq<string>): (r: seq<string>)
    ensures forall s :: s in r <==> s == x || s in sorted
  {
    if sorted == [] then [x]
    else if x == sorted[0] then sorted
    else if Before(x, sorted[0]) then [x] + sorted
    else [sorted[0]] + Insert(x, sorted[1..])
  }

  function SortedDistinct(xs: seq<string>): (r: seq<string>)
    ensures forall s :: s in r <==> s in xs
  {
    if xs == [] then [] else Insert(xs[0], SortedDistinct(xs[1..]))
  }

  function Normalised(xs: seq<string>): (r: seq<string>)
    ensures forall s :: s in r <==> s in xs
    ensures xs != [] ==> r != []
  {
    if |xs| > 1 then
      assert xs[0] in SortedDistinct(xs);
      SortedDistinct(xs)
    else xs
  }

  function Authors(q: Request): seq<string> {
    if q.filter.authors.Some? then Normalised(q.filter.authors.value) else []
  }

  function Truncated(s: string): string {
    if |s| > MAX_SEARCH_LENGTH then s[..MAX_SEARCH_LENGTH] else s
  }

  predicate HasGroup(q: Request) {
    q.group.Some? && !q.group.value.IsEmpty()
  }

  predicate HasCursor(q: Request) {
    q.afterSortValue != "" || q.afterUri != ""
  }

  const DIRECT_COLUMNS: set<string> := {"indexed_at", "uri", "did", "collection", "cid", "rkey"}

  function SortKey(sort: Option<SortOption>): Option<Expr> {
    if sort.None? then Some(Column("r", "indexed_at"))
    else if sort.value.field in DIRECT_COLUMNS then Some(Column("r", sort.value.field))
    else if FieldPath.ValidName(sort.value.field) then Some(JsonText("r", [sort.value.field]))
    else None
  }

  function SortDirection(sort: Option<SortOption>): Direction {
    if sort.Some? then sort.value.direction else DESC
  }

  function LabelPart(q: Request, vals: seq<string>, wanted: bool, p: int): Part {
    if vals == [] then Part([], [])
    else
      var srcs := q.filter.labels.labelerSrcs;
      Part([HasLabel(wanted, Numbers(p, |vals|), if srcs == [] then None else Some(Numbers(p + |vals|, |srcs|)))],
           TextArgs(vals) + TextArgs(srcs))
  }

  function FieldPart(q: Request, p: int): Result<Part, QueryError> {
    if !HasGroup(q) then Ok(Part([], []))
    else
      match Compile(q.group.value, p)
      case Err(e) => Err(FieldFilterError(e))
      case Ok(fragment) =>
        Ok(if fragment.clause == [] then Part([], []) else Part([Fields(fragment.clause)], fragment.params))
  }

  function CursorPart(q: Request, p: int): Result<Part, QueryError> {
    var key := SortKey(q.sort);
    if key.None? then Err(SortFieldError)
    else if HasCursor(q) then
      Ok(Part([BeyondCursor(key.value, SortDirection(q.sort), p, p + 1, p + 2)],
              [ArgText(q.afterSortValue), ArgText(q.afterSortValue), ArgText(q.afterUri)]))
    else Ok(Part([], []))
  }

  datatype SectionName = ByCollection | ByAuthors | BySearch | ByFields | ByCursor | ByPds | ByIncluded | ByExcluded

  // The sections in the order the source emits them.
  const SECTIONS: seq<SectionName> :=
    [ByCollection, ByAuthors, BySearch, ByFields, ByCursor, ByPds, ByIncluded, ByExcluded]

  function QuerySection(q: Request, name: SectionName, p: int): Result<Part, QueryError> {
    match name
    case ByCollection => Ok(Part([CollectionIs(p)], [ArgText(q.collection)]))
    case ByAuthors =>
      var dids := Authors(q);
      Ok(if dids == [] then Part([], []) else Part([DidIn(Numbers(p, |dids|))], TextArgs(dids)))
    case BySearch =>
      Ok(if q.filter.search == "" then Part([], [])
         else Part([SearchMatches(p)], [ArgText(Truncated(q.filter.search))]))
    case ByFields => FieldPart(q, p)
    case ByCursor => CursorPart(q, p)
    case ByPds =>
      var pds := Normalised(q.filter.pdsExclude);
      Ok(if pds == [] then Part([], []) else Part([PdsNotIn(Numbers(p, |pds|))], TextArgs(pds)))
    case ByIncluded => Ok(LabelPart(q, q.filter.labels.including, true, p))
    case ByExcluded => Ok(LabelPart(q, q.filter.labels.excluding, false, p))
  }

  // The sections named, one after another; each starts where the argument list ends.
  function Built(q: Request, names: seq<SectionName>): Result<Part, QueryError> {
    if names == [] then Ok(Part([], []))
    else
      var done :- Built(q, names[..|names| - 1]);
      var section :- QuerySection(q, names[|names| - 1], 1 + |done.args|);
      Ok(done.Plus(section))
  }

  predicate Unfiltered(q: Request) {
    && q.filter.labels.including == [] && q.filter.labels.excluding == []
    && Authors(q) == [] && q.filter.search == "" && q.filter.pdsExclude == []
    && !HasGroup(q)
    && (q.sort.None? || q.sort.value == SortOption("indexed_at", DESC))
  }

  // GetByCollectionWithKeysetCursor.
  function PlainQuery(q: Request): Query {
    var key := Column("r", "indexed_at");
    if HasCursor(q) then
      Select([CollectionIs(1), BeyondCursor(key, DESC, 2, 3, 4)],
             [ArgText(q.collection), ArgText(q.afterSortValue), ArgText(q.afterSortValue), ArgText(q.afterUri)],
             key, DESC)
    else Select([CollectionIs(1)], [ArgText(q.collection)], key, DESC)
  }

  function FilteredQuery(q: Request): Result<Query, QueryError> {
    if q.filter.authors == Some([]) then Ok(Nothing)
    else if q.filter.authors.Some? && |q.filter.authors.value| > MAX_AUTHORS_FILTER_SIZE then Err(AuthorsTooLarge)
    else if |q.filter.pdsExclude| > MAX_PDS_EXCLUDE_SIZE then Err(PDSTooLarge)
    else if Unfiltered(q) then Ok(PlainQuery(q))
    else
      var part :- Built(q, SECTIONS);
      var key := SortKey(q.sort);
      if key.None? then Err(SortFieldError) else Ok(Select(part.clauses, part.args, key.value, SortDirection(q.sort)))
  }

  // ---------- the source's running lists and counter ----------

  lemma BuiltStep(q: Request, names: seq<SectionName>, name: SectionName, done: Part)
    requires Built(q, names) == Ok(done)
    ensures Built(q, names + [name]) ==
            match QuerySection(q, name, 1 + |done.args|)
            case Err(e) => Err(e)
            case Ok(section) => Ok(done.Plus(section))
  {
    assert (names + [name])[..|names|] == names;
  }

  lemma {:induction false} ErrorsStop(q: Request, names: seq<SectionName>, more: seq<SectionName>)
    requires Built(q, names).Err?
    ensures Built(q, names + more) == Err(Built(q, names).error)
    decreases |more|
  {
    if more == [] {
      assert names + more == names;
    } else {
      assert (names + more)[..|names + more| - 1] == names + more[..|more| - 1];
      ErrorsStop(q, names, more[..|more| - 1]);
    }
  }

  // A run of placeholders, one per text, each paired with its argument.
  method Bind(texts: seq<string>, args: seq<Arg>, paramIdx: int) returns (ns: seq<int>, args': seq<Arg>,
              paramIdx': int)
    ensures ns == Numbers(paramIdx, |texts|)
    ensures args' == args + TextArgs(texts)
    ensures paramIdx' == paramIdx + |texts|
  {
    ns, args', paramIdx' := [], args, paramIdx;
    for i := 0 to |texts|
      invariant ns == Numbers(paramIdx, i)
      invariant args' == args + TextArgs(texts[..i])
      invariant paramIdx' == paramIdx + i
    {
      ns := ns + [paramIdx'];
      paramIdx' := paramIdx' + 1;
      args' := args' + [ArgText(texts[i])];
      assert TextArgs(texts[..i + 1]) == TextArgs(texts[..i]) + [ArgText(texts[i])];
    }
    assert texts[..|texts|] == texts;
  }

  method BindLabels(q: Request, vals: seq<string>, wanted: bool, clauses: seq<Where>, args: seq<Arg>, paramIdx: int)
    returns (clauses': seq<Where>, args': seq<Arg>, paramIdx': int)
    requires vals != []
    ensures Part(clauses', args') == Part(clauses, args).Plus(LabelPart(q, vals, wanted, paramIdx))
    ensures paramIdx' == paramIdx + |LabelPart(q, vals, wanted, paramIdx).args|
  {
    var valNs, srcNs: seq<int>;
    valNs, args', paramIdx' := Bind(vals, args, paramIdx);
    var srcs := None;
    if |q.filter.labels.labelerSrcs| > 0 {
      srcNs, args', paramIdx' := Bind(q.filter.labels.labelerSrcs, args', paramIdx');
      srcs := Some(srcNs);
    } else {
      assert args' + TextArgs([]) == args';
    }
    clauses' := clauses + [HasLabel(wanted, valNs, srcs)];
  }

  // One section of the source's function: it appends clauses and arguments and advances the counter.
  method EmitSection(q: Request, name: SectionName, clauses: seq<Where>, args: seq<Arg>, paramIdx: int)
    returns (r: Result<(seq<Where>, seq<Arg>, int), QueryError>)
    ensures r == match QuerySection(q, name, paramIdx)
                 case Err(e) => Err(e)
                 case Ok(s) => Ok((clauses + s.clauses, args + s.args, paramIdx + |s.args|))
  {
    var clauses', args', paramIdx' := clauses, args, paramIdx;
    var ns: seq<int>;
    match name {
      case ByCollection =>
        clauses', args', paramIdx' := clauses + [CollectionIs(paramIdx)], args + [ArgText(q.collection)], paramIdx + 1;
      case ByAuthors =>
        var authors := Authors(q);
        if |authors| > 0 {
          ns, args', paramIdx' := Bind(authors, args, paramIdx);
          clauses' := clauses + [DidIn(ns)];
        }
      case BySearch =>
        if q.filter.search != "" {
          var search := q.filter.search;
          if |search| > MAX_SEARCH_LENGTH {
            search := search[..MAX_SEARCH_LENGTH];
          }
          clauses', args', paramIdx' := clauses + [SearchMatches(paramIdx)], args + [ArgText(search)], paramIdx + 1;
        }
      case ByFields =>
        if q.group.Some? && !q.group.value.IsEmpty() {
          var fragment := BuildFilterGroupClause(q.group.value, paramIdx);
          if fragment.Err? {
            return Err(FieldFilterError(fragment.error));
          }
          if fragment.value.clause != [] {
            clauses' := clauses + [Fields(fragment.value.clause)];
            args' := args + fragment.value.params;
            paramIdx' := paramIdx + |fragment.value.params|;
          }
        }
      case ByCursor =>
        var key := SortKey(q.sort);
        if key.None? {
          return Err(SortFieldError);
        }
        if q.afterSortValue != "" || q.afterUri != "" {
          clauses' := clauses + [BeyondCursor(key.value, SortDirection(q.sort), paramIdx, paramIdx + 1, paramIdx + 2)];
          args' := args + [ArgText(q.afterSortValue), ArgText(q.afterSortValue), ArgText(q.afterUri)];
          paramIdx' := paramIdx + 3;
        }
      case ByPds =>
        if |q.filter.pdsExclude| > 0 {
          ns, args', paramIdx' := Bind(Normalised(q.filter.pdsExclude), args, paramIdx);
          clauses' := clauses + [PdsNotIn(ns)];
        }
      case ByIncluded =>
        if |q.filter.labels.including| > 0 {
          clauses', args', paramIdx' := BindLabels(q, q.filter.labels.including, true, clauses, args, paramIdx);
        }
      case ByExcluded =>
        if |q.filter.labels.excluding| > 0 {
          clauses', args', paramIdx' := BindLabels(q, q.filter.labels.excluding, false, clauses, args, paramIdx);
        }
    }
    assert clauses + [] == clauses && args + [] == args;
    r := Ok((clauses', args', paramIdx'));
  }

  // GetByCollectionFiltered up to the statement it sends; the counter stays one past the arguments throughout.
  method BuildQuery(q: Request) returns (r: Result<Query, QueryError>)
    ensures r == FilteredQuery(q)
  {
    if q.filter.authors == Some([]) {
      return Ok(Nothing);
    }
    if q.filter.authors.Some? && |q.filter.authors.value| > MAX_AUTHORS_FILTER_SIZE {
      return Err(AuthorsTooLarge);
    }
    if |q.filter.pdsExclude| > MAX_PDS_EXCLUDE_SIZE {
      return Err(PDSTooLarge);
    }
    if Unfiltered(q) {
      return Ok(PlainQuery(q));
    }
    var clauses: seq<Where>, args: seq<Arg>, paramIdx := [], [], 1;
    for i := 0 to |SECTIONS|
      invariant paramIdx == |args| + 1
      invariant Built(q, SECTIONS[..i]) == Ok(Part(clauses, args))
    {
      BuiltStep(q, SECTIONS[..i], SECTIONS[i], Part(clauses, args));
      assert SECTIONS[..i] + [SECTIONS[i]] == SECTIONS[..i + 1];
      var section := EmitSection(q, SECTIONS[i], clauses, args, paramIdx);
      if section.Err? {
        ErrorsStop(q, SECTIONS[..i + 1], SECTIONS[i + 1..]);
        assert SECTIONS[..i + 1] + SECTIONS[i + 1..] == SECTIONS;
        return Err(section.error);
      }
      clauses, args, paramIdx := section.value.0, section.value.1, section.value.2;
    }
    assert SECTIONS[..|SECTIONS|] == SECTIONS;
    var key := SortKey(q.sort);
    if key.None? {
      return Err(SortFieldError);
    }
    r := Ok(Select(clauses, args, key.value, SortDirection(q.sort)));
  }
}
