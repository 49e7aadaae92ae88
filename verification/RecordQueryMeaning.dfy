/** The records a filtered query selects are the ones the caller's filter describes. */
module RecordQueryMeaning {
  import opened Wrappers
  import opened FilterTree
  import opened FilterCompiler
  import opened SqlReading
  import opened RecordQuery
  import FilterSemantics
  import FilterMeaning
  import FilterPlaceholders
  import LikePattern

  datatype Label = Label(uri: string, src: string, val: string, neg: bool, exp: Option<int>, cts: int)

  // The tables, the clock, and what is taken from Postgres as given: text search,
  // and the order in which a sort value and a cursor value stand.
  datatype World = World(
    pg: Postgres,
    records: seq<Row>,
    labels: seq<Label>,
    now: int,
    search: (string, Row) -> bool,
    order: (Expr, string, string) -> int,
    uriOrder: (string, string) -> int)

  // A record row with the PDS of its author, if resolved.
  datatype Candidate = Candidate(row: Row, pds: Option<string>)

  // ---------- what the caller asks for ----------

  // A label counts while unexpired, not itself a negation, and not negated later by its own source.
  ghost predicate Active(w: World, l: Label) {
    && !l.neg
    && (l.exp.None? || l.exp.value > w.now)
    && !exists n | n in w.labels :: n.uri == l.uri && n.src == l.src && n.val == l.val && n.neg && n.cts >= l.cts
  }

  ghost predicate Labelled(w: World, q: Request, vals: seq<string>, row: Row) {
    exists l | l in w.labels ::
      && ColumnOf(row, "uri") == Some(l.uri)
      && l.val in vals
      && (q.filter.labels.labelerSrcs == [] || l.src in q.filter.labels.labelerSrcs)
      && Active(w, l)
  }

  function KeyText(w: World, key: Expr, row: Row): Option<string> {
    var cell := EvalExpr(w.pg, key, map["r" := row]);
    if cell.SqlText? then Some(cell.s) else None
  }

  // The row stands strictly after the cursor in (sort value, uri) order.  A row
  // without a sort value is never beyond a cursor.
  predicate Beyond(w: World, key: Expr, direction: Direction, value: string, uri: string, row: Row) {
    var k := KeyText(w, key, row);
    var u := ColumnOf(row, "uri");
    k.Some? &&
    var byKey := w.order(key, k.value, value);
    var toward := if direction.DESC? then -1 else 1;
    || byKey * toward > 0
    || (byKey == 0 && u.Some? && w.uriOrder(u.value, uri) * toward > 0)
  }

  ghost predicate Wants(w: World, q: Request, name: SectionName, c: Candidate) {
    match name
    case ByCollection => ColumnOf(c.row, "collection") == Some(q.collection)
    case ByAuthors =>
      q.filter.authors.Some? ==> var did := ColumnOf(c.row, "did"); did.Some? && did.value in q.filter.authors.value
    case BySearch => q.filter.search != "" ==> w.search(Truncated(q.filter.search), c.row)
    case ByFields => q.group.Some? ==> FilterSemantics.Selects(w.pg, w.records, q.group.value, c.row)
    case ByCursor =>
      HasCursor(q) && SortKey(q.sort).Some? ==>
      Beyond(w, SortKey(q.sort).value, SortDirection(q.sort), q.afterSortValue, q.afterUri, c.row)
    case ByPds => c.pds.Some? ==> c.pds.value !in q.filter.pdsExclude
    case ByIncluded => q.filter.labels.including != [] ==> Labelled(w, q, q.filter.labels.including, c.row)
    case ByExcluded => !Labelled(w, q, q.filter.labels.excluding, c.row)
  }

  ghost predicate Wanted(w: World, q: Request, c: Candidate) {
    forall name: SectionName :: Wants(w, q, name, c)
  }

  // ---------- what the SQL says ----------

  function TextOf(args: seq<Arg>, n: int): Option<string> {
    if 1 <= n <= |args| then ArgAsText(args[n - 1]) else None
  }

  predicate Among(args: seq<Arg>, ns: seq<int>, t: string) {
    exists i | 0 <= i < |ns| :: TextOf(args, ns[i]) == Some(t)
  }

  function CompareTo(order: int, direction: Direction): Tri {
    Truth(if direction.DESC? then order < 0 else order > 0)
  }

  ghost predicate Accepts(w: World, args: seq<Arg>, clause: Where, c: Candidate) {
    match clause
    case CollectionIs(n) => TextOf(args, n).Some? && ColumnOf(c.row, "collection") == TextOf(args, n)
    case DidIn(ns) => var did := ColumnOf(c.row, "did"); did.Some? && Among(args, ns, did.value)
    case SearchMatches(n) => TextOf(args, n).Some? && w.search(TextOf(args, n).value, c.row)
    case Fields(ts) => Read(ts).Some? && Eval(w.pg, w.records, Read(ts).value, map["r" := c.row], args).T?
    case BeyondCursor(key, direction, less, equal, uri) =>
      var k, u := KeyText(w, key, c.row), ColumnOf(c.row, "uri");
      var first := if k.Some? && TextOf(args, less).Some?
                   then CompareTo(w.order(key, k.value, TextOf(args, less).value), direction) else U;
      var second := if k.Some? && TextOf(args, equal).Some?
                    then Truth(w.order(key, k.value, TextOf(args, equal).value) == 0) else U;
      var third := if u.Some? && TextOf(args, uri).Some?
                   then CompareTo(w.uriOrder(u.value, TextOf(args, uri).value), direction) else U;
      Or3(first, And3(second, third)).T?
    case PdsNotIn(ns) => c.pds.None? || !Among(args, ns, c.pds.value)
    case HasLabel(wanted, vals, srcs) =>
      wanted == exists l | l in w.labels ::
        && ColumnOf(c.row, "uri") == Some(l.uri)
        && Among(args, vals, l.val)
        && (srcs.Some? ==> Among(args, srcs.value, l.src))
        && Active(w, l)
  }

  ghost predicate AcceptsAll(w: World, args: seq<Arg>, clauses: seq<Where>, c: Candidate) {
    forall i | 0 <= i < |clauses| :: Accepts(w, args, clauses[i], c)
  }

  // ---------- the connection ----------

  // A run of placeholders stands for the texts bound to it.
  lemma AmongBound(args: seq<Arg>, p: int, before: seq<Arg>, texts: seq<string>, after: seq<Arg>, t: string)
    requires FilterMeaning.ArgsAt(args, p, before + TextArgs(texts) + after)
    ensures Among(args, Numbers(p + |before|, |texts|), t) <==> t in texts
  {
    var ns := Numbers(p + |before|, |texts|);
    var params := before + TextArgs(texts) + after;
    forall i | 0 <= i < |texts| ensures TextOf(args, ns[i]) == Some(texts[i]) {
      assert params[|before| + i] == TextArgs(texts)[i];
      assert args[p - 1..p - 1 + |params|][|before| + i] == args[p - 1 + |before| + i];
      assert ns[i] == p + |before| + i;
    }
    if t in texts {
      var i :| 0 <= i < |texts| && texts[i] == t;
      assert TextOf(args, ns[i]) == Some(t);
    }
  }

  lemma LabelMeans(w: World, q: Request, vals: seq<string>, wanted: bool, p: int, args: seq<Arg>, c: Candidate)
    requires vals != [] && FilterMeaning.ArgsAt(args, p, LabelPart(q, vals, wanted, p).args)
    ensures AcceptsAll(w, args, LabelPart(q, vals, wanted, p).clauses, c) <==> (wanted == Labelled(w, q, vals, c.row))
  {
    var srcs := q.filter.labels.labelerSrcs;
    var part := LabelPart(q, vals, wanted, p);
    assert part.args == [] + TextArgs(vals) + TextArgs(srcs);
    assert part.args == TextArgs(vals) + TextArgs(srcs) + [];
    var clause := part.clauses[0];
    forall l | l in w.labels
      ensures Among(args, clause.vals, l.val) <==> l.val in vals
      ensures srcs != [] ==> (Among(args, clause.srcs.value, l.src) <==> l.src in srcs)
    {
      AmongBound(args, p, [], vals, TextArgs(srcs), l.val);
      AmongBound(args, p, TextArgs(vals), srcs, [], l.src);
    }
    assert Accepts(w, args, clause, c) <==> (wanted == Labelled(w, q, vals, c.row));
  }

  lemma AcceptsOne(w: World, args: seq<Arg>, clause: Where, c: Candidate)
    ensures AcceptsAll(w, args, [clause], c) <==> Accepts(w, args, clause, c)
  {
    assert [clause][0] == clause;
  }

  lemma FieldsMean(w: World, q: Request, p: int, args: seq<Arg>, c: Candidate)
    requires LikePattern.CaseFolding(w.pg.fold)
    requires FieldPart(q, p).Ok? && FilterMeaning.ArgsAt(args, p, FieldPart(q, p).value.args)
    ensures AcceptsAll(w, args, FieldPart(q, p).value.clauses, c) <==> Wants(w, q, ByFields, c)
  {
    if HasGroup(q) {
      var fragment := Compile(q.group.value, p).value;
      FilterPlaceholders.GroupNothing(q.group.value, p, 0, "r");
      FilterMeaning.CompiledFilterMeansTree(w.pg, w.records, q.group.value, p, args, c.row);
      if fragment.clause != [] {
        assert FieldPart(q, p).value.clauses == [Fields(fragment.clause)];
        AcceptsOne(w, args, Fields(fragment.clause), c);
      }
    }
  }

  lemma CursorMeans(w: World, q: Request, p: int, args: seq<Arg>, c: Candidate)
    requires CursorPart(q, p).Ok? && FilterMeaning.ArgsAt(args, p, CursorPart(q, p).value.args)
    ensures AcceptsAll(w, args, CursorPart(q, p).value.clauses, c) <==> Wants(w, q, ByCursor, c)
  {
    if HasCursor(q) {
      var params := CursorPart(q, p).value.args;
      assert args[p - 1..p - 1 + 3] == params;
      assert args[p - 1] == params[0] && args[p] == params[1] && args[p + 1] == params[2];
      assert TextOf(args, p) == Some(q.afterSortValue) && TextOf(args, p + 1) == Some(q.afterSortValue);
      assert TextOf(args, p + 2) == Some(q.afterUri);
      var clause := CursorPart(q, p).value.clauses[0];
      assert Accepts(w, args, clause, c) <==> Wants(w, q, ByCursor, c);
    }
  }

  lemma SectionMeans(w: World, q: Request, name: SectionName, p: int, args: seq<Arg>, c: Candidate)
    requires LikePattern.CaseFolding(w.pg.fold)
    requires q.filter.authors.Some? ==> q.filter.authors.value != []
    requires QuerySection(q, name, p).Ok? && FilterMeaning.ArgsAt(args, p, QuerySection(q, name, p).value.args)
    ensures AcceptsAll(w, args, QuerySection(q, name, p).value.clauses, c) <==> Wants(w, q, name, c)
  {
    var part := QuerySection(q, name, p).value;
    match name {
      case ByCollection =>
        assert args[p - 1..p - 1 + 1][0] == part.args[0];
        assert TextOf(args, p) == Some(q.collection);
        AcceptsOne(w, args, CollectionIs(p), c);
      case ByAuthors =>
        var dids := Authors(q);
        if dids != [] {
          assert [] + TextArgs(dids) + [] == part.args;
          forall t ensures Among(args, Numbers(p, |dids|), t) <==> t in q.filter.authors.value {
            AmongBound(args, p, [], dids, [], t);
          }
          AcceptsOne(w, args, DidIn(Numbers(p, |dids|)), c);
        }
      case BySearch =>
        if q.filter.search != "" {
          assert args[p - 1..p - 1 + 1][0] == part.args[0];
          assert TextOf(args, p) == Some(Truncated(q.filter.search));
          AcceptsOne(w, args, SearchMatches(p), c);
        }
      case ByFields => FieldsMean(w, q, p, args, c);
      case ByCursor => CursorMeans(w, q, p, args, c);
      case ByPds =>
        var pds := Normalised(q.filter.pdsExclude);
        if pds != [] {
          assert [] + TextArgs(pds) + [] == part.args;
          forall t ensures Among(args, Numbers(p, |pds|), t) <==> t in q.filter.pdsExclude {
            AmongBound(args, p, [], pds, [], t);
          }
          AcceptsOne(w, args, PdsNotIn(Numbers(p, |pds|)), c);
        }
      case ByIncluded =>
        if q.filter.labels.including != [] {
          LabelMeans(w, q, q.filter.labels.including, true, p, args, c);
        }
      case ByExcluded =>
        if q.filter.labels.excluding != [] {
          LabelMeans(w, q, q.filter.labels.excluding, false, p, args, c);
        }
    }
  }

  lemma {:induction false} BuiltMeans(w: World, q: Request, names: seq<SectionName>, args: seq<Arg>, c: Candidate)
    requires LikePattern.CaseFolding(w.pg.fold)
    requires q.filter.authors.Some? ==> q.filter.authors.value != []
    requires Built(q, names).Ok? && FilterMeaning.ArgsAt(args, 1, Built(q, names).value.args)
    ensures AcceptsAll(w, args, Built(q, names).value.clauses, c) <==>
            forall name | name in names :: Wants(w, q, name, c)
    decreases |names|
  {
    if names != [] {
      var init, last := names[..|names| - 1], names[|names| - 1];
      var done := Built(q, init).value;
      var section := QuerySection(q, last, 1 + |done.args|).value;
      FilterMeaning.ArgsPrefix(args, 1, done.args, section.args);
      BuiltMeans(w, q, init, args, c);
      SectionMeans(w, q, last, 1 + |done.args|, args, c);
      WantsLast(w, q, names, c);
      AcceptsConcat(w, args, done.clauses, section.clauses, c);
    }
  }

  lemma WantsLast(w: World, q: Request, names: seq<SectionName>, c: Candidate)
    requires names != []
    ensures (forall name | name in names :: Wants(w, q, name, c)) <==>
            Wants(w, q, names[|names| - 1], c) && forall name | name in names[..|names| - 1] :: Wants(w, q, name, c)
  {
    assert names == names[..|names| - 1] + [names[|names| - 1]];
  }

  lemma AcceptsConcat(w: World, args: seq<Arg>, a: seq<Where>, b: seq<Where>, c: Candidate)
    ensures AcceptsAll(w, args, a + b, c) <==> AcceptsAll(w, args, a, c) && AcceptsAll(w, args, b, c)
  {
    if AcceptsAll(w, args, a + b, c) {
      forall i | 0 <= i < |a| ensures Accepts(w, args, a[i], c) { assert (a + b)[i] == a[i]; }
      forall i | 0 <= i < |b| ensures Accepts(w, args, b[i], c) { assert (a + b)[|a| + i] == b[i]; }
    }
  }

  // The query, when there is one, selects exactly the rows that every part of
  // the request wants; the short circuit is taken only when no row is wanted.
  lemma QueryMeansRequest(w: World, q: Request, c: Candidate)
    requires LikePattern.CaseFolding(w.pg.fold)
    requires FilteredQuery(q).Ok?
    ensures match FilteredQuery(q).value
            case Nothing => !Wanted(w, q, c)
            case Select(clauses, args, _, _) => AcceptsAll(w, args, clauses, c) <==> Wanted(w, q, c)
  {
    if q.filter.authors == Some([]) {
      assert !Wants(w, q, ByAuthors, c);
    } else if Unfiltered(q) {
      PlainMeans(w, q, c);
    } else {
      var part := Built(q, SECTIONS).value;
      BuiltMeans(w, q, SECTIONS, part.args, c);
      forall name: SectionName ensures name in SECTIONS {
        var k := match name
          case ByCollection => 0 case ByAuthors => 1 case BySearch => 2 case ByFields => 3
          case ByCursor => 4 case ByPds => 5 case ByIncluded => 6 case ByExcluded => 7;
        assert SECTIONS[k] == name;
      }
    }
  }

  lemma PlainMeans(w: World, q: Request, c: Candidate)
    requires Unfiltered(q) && (q.filter.authors.Some? ==> q.filter.authors.value != [])
    ensures var query := PlainQuery(q);
            AcceptsAll(w, query.args, query.clauses, c) <==> Wanted(w, q, c)
  {
    var query := PlainQuery(q);
    var first := query.clauses[0];
    assert Accepts(w, query.args, first, c) <==> Wants(w, q, ByCollection, c);
    if HasCursor(q) {
      assert query.args == [query.args[0]] + CursorPart(q, 2).value.args;
      CursorMeans(w, q, 2, query.args, c);
      assert CursorPart(q, 2).value.clauses == [query.clauses[1]];
      assert query.clauses == [first] + [query.clauses[1]];
      AcceptsConcat(w, query.args, [first], [query.clauses[1]], c);
    }
    assert !Labelled(w, q, [], c.row);
    assert q.group.Some? ==> !FilterTree.Present(q.group.value);
    assert Wanted(w, q, c) <==> Wants(w, q, ByCollection, c) && Wants(w, q, ByCursor, c) by {
      forall name: SectionName | !name.ByCollection? && !name.ByCursor? ensures Wants(w, q, name, c) {
        match name case _ =>
      }
    }
  }

  // ---------- the placeholder counter ----------

  function CountIn(ns: seq<int>, n: int): nat {
    if ns == [] then 0 else (if ns[0] == n then 1 else 0) + CountIn(ns[1..], n)
  }

  function ClauseUses(clause: Where, n: int): nat {
    match clause
    case CollectionIs(m) => CountIn([m], n)
    case DidIn(ns) => CountIn(ns, n)
    case SearchMatches(m) => CountIn([m], n)
    case Fields(ts) => FilterPlaceholders.Uses(ts, n)
    case BeyondCursor(_, _, less, equal, uri) => CountIn([less], n) + CountIn([equal], n) + CountIn([uri], n)
    case PdsNotIn(ns) => CountIn(ns, n)
    case HasLabel(_, vals, srcs) => CountIn(vals, n) + (if srcs.Some? then CountIn(srcs.value, n) else 0)
  }

  function QueryUses(clauses: seq<Where>, n: int): nat {
    if clauses == [] then 0 else ClauseUses(clauses[0], n) + QueryUses(clauses[1..], n)
  }

  lemma {:induction false} QueryUsesConcat(a: seq<Where>, b: seq<Where>, n: int)
    ensures QueryUses(a + b, n) == QueryUses(a, n) + QueryUses(b, n)
  {
    if a == [] {
      assert a + b == b;
    } else {
      assert (a + b)[1..] == a[1..] + b;
      QueryUsesConcat(a[1..], b, n);
    }
  }

  lemma {:induction false} NumbersUse(p: int, count: nat, n: int)
    ensures CountIn(Numbers(p, count), n) == FilterPlaceholders.InRange(n, p, count)
    decreases count
  {
    if count > 0 {
      assert Numbers(p, count)[1..] == Numbers(p + 1, count - 1);
      NumbersUse(p + 1, count - 1, n);
    }
  }

  lemma SectionUses(q: Request, name: SectionName, p: int, n: int)
    requires QuerySection(q, name, p).Ok?
    ensures var part := QuerySection(q, name, p).value;
            QueryUses(part.clauses, n) == FilterPlaceholders.InRange(n, p, |part.args|)
  {
    var part := QuerySection(q, name, p).value;
    assert part.clauses != [] ==> part.clauses[1..] == [];
    match name {
      case ByAuthors => NumbersUse(p, |Authors(q)|, n);
      case ByFields =>
        if HasGroup(q) {
          FilterPlaceholders.PlaceholdersAreExact(q.group.value, p, n);
          FilterPlaceholders.GroupNothing(q.group.value, p, 0, "r");
        }
      case ByPds => NumbersUse(p, |Normalised(q.filter.pdsExclude)|, n);
      case ByIncluded =>
        NumbersUse(p, |q.filter.labels.including|, n);
        NumbersUse(p + |q.filter.labels.including|, |q.filter.labels.labelerSrcs|, n);
      case ByExcluded =>
        NumbersUse(p, |q.filter.labels.excluding|, n);
        NumbersUse(p + |q.filter.labels.excluding|, |q.filter.labels.labelerSrcs|, n);
      case _ =>
        NumbersUse(p, 1, n);
        NumbersUse(p + 1, 1, n);
        NumbersUse(p + 2, 1, n);
        assert Numbers(p, 1) == [p] && Numbers(p + 1, 1) == [p + 1] && Numbers(p + 2, 1) == [p + 2];
    }
  }

  lemma {:induction false} BuiltUses(q: Request, names: seq<SectionName>, n: int)
    requires Built(q, names).Ok?
    ensures var part := Built(q, names).value;
            QueryUses(part.clauses, n) == FilterPlaceholders.InRange(n, 1, |part.args|)
    decreases |names|
  {
    if names != [] {
      var init, last := names[..|names| - 1], names[|names| - 1];
      var done := Built(q, init).value;
      BuiltUses(q, init, n);
      SectionUses(q, last, 1 + |done.args|, n);
      QueryUsesConcat(done.clauses, QuerySection(q, last, 1 + |done.args|).value.clauses, n);
    }
  }

  // The plain query is the first and the cursor section.
  lemma QuerySectionsOfPlain(q: Request)
    requires Unfiltered(q)
    ensures CursorPart(q, 2).Ok?
    ensures PlainQuery(q).clauses == [CollectionIs(1)] + CursorPart(q, 2).value.clauses
    ensures PlainQuery(q).args == [ArgText(q.collection)] + CursorPart(q, 2).value.args
  {
  }

  // Across all sections, $1 to $len(args) are used once each and no other number is used.
  lemma QueryPlaceholdersAreExact(q: Request, n: int)
    requires FilteredQuery(q).Ok? && FilteredQuery(q).value.Select?
    ensures var query := FilteredQuery(q).value;
            QueryUses(query.clauses, n) == if 1 <= n <= |query.args| then 1 else 0
  {
    if Unfiltered(q) {
      var query := PlainQuery(q);
      QuerySectionsOfPlain(q);
      SectionUses(q, ByCollection, 1, n);
      SectionUses(q, ByCursor, 2, n);
      QueryUsesConcat([CollectionIs(1)], CursorPart(q, 2).value.clauses, n);
    } else {
      BuiltUses(q, SECTIONS, n);
    }
  }
}
