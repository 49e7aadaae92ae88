/**
 Whether every argument of a filtered query is text that Postgres takes.  All of a
 request is valid UTF-8, as decoding JSON makes it; escaping, lowering and sorting
 keep it so, and only the cut of the search text may not.
 */
module RecordQueryText {
  import opened Wrappers
  import opened FilterTree
  import opened FilterCompiler
  import opened RecordQuery
  import opened Utf8
  import LikePattern

  predicate TextsOk(texts: seq<string>) {
    forall t | t in texts :: ValidString(t)
  }

  predicate AtomOk(a: Atom) {
    (a.Text? ==> ValidString(a.s)) && (a.Number? ==> ValidString(a.shown))
  }

  predicate ValueOk(v: Value) {
    match v
    case One(a) => AtomOk(a)
    case Many(items) => forall a | a in items :: AtomOk(a)
    case Texts(texts) => TextsOk(texts)
  }

  predicate TreeOk(g: FilterGroup)
    decreases g
  {
    && (forall f | f in g.filters :: ValueOk(f.value))
    && (forall c | c in g.children :: TreeOk(c))
    && (forall j | j in g.joined :: ValidString(j.target) && TreeOk(j.inner))
    && (forall a | a in g.arrays :: TreeOk(a.inner))
  }

  predicate RequestOk(q: Request) {
    && ValidString(q.collection) && ValidString(q.afterSortValue) && ValidString(q.afterUri)
    && ValidString(q.filter.search) && TextsOk(q.filter.pdsExclude)
    && (q.filter.authors.Some? ==> TextsOk(q.filter.authors.value))
    && TextsOk(q.filter.labels.labelerSrcs)
    && TextsOk(q.filter.labels.including) && TextsOk(q.filter.labels.excluding)
    && (q.group.Some? ==> TreeOk(q.group.value))
  }

  // A document is encoded by the JSON encoder, whose output is always valid.
  predicate ArgOk(arg: Arg) {
    match arg
    case ArgValue(v) => ValueOk(v)
    case ArgText(s) => ValidString(s)
    case ArgTexts(texts) => TextsOk(texts)
    case ArgDoc(_) => true
  }

  predicate ArgsOk(args: seq<Arg>) {
    forall i | 0 <= i < |args| :: ArgOk(args[i])
  }

  lemma ArgsOkConcat(a: seq<Arg>, b: seq<Arg>)
    ensures ArgsOk(a + b) <==> ArgsOk(a) && ArgsOk(b)
  {
    if ArgsOk(a + b) {
      forall i | 0 <= i < |a| ensures ArgOk(a[i]) { assert (a + b)[i] == a[i]; }
      forall i | 0 <= i < |b| ensures ArgOk(b[i]) { assert (a + b)[|a| + i] == b[i]; }
    }
  }

  lemma TextArgsOk(texts: seq<string>)
    requires TextsOk(texts)
    ensures ArgsOk(TextArgs(texts))
  {
  }

  // ---------- what keeps text valid ----------

  lemma {:induction false} AsciiIsValid(s: string)
    requires forall i | 0 <= i < |s| :: (s[i] as int) < 0x80
    ensures ValidString(s)
  {
    if s != "" {
      AsciiIsValid(s[1..]);
    }
  }

  // The first rune of a valid string, and the rest of it.
  lemma FirstRune(s: string)
    requires s != "" && ValidString(s)
    ensures var n := Decode(s).size;
            ValidString(s[..n]) && ValidString(s[n..]) && s == s[..n] + s[n..]
  {
    var n := Decode(s).size;
    DecodeOfPrefix(s, n);
    assert s[..n][n..] == "";
  }

  // It is one ASCII byte, or has none.
  lemma FirstRuneBytes(s: string)
    requires s != "" && ValidString(s)
    ensures var n := Decode(s).size;
            if n == 1 then (s[0] as int) < 0x80 else forall i | 0 <= i < n :: 0x80 <= s[i] as int
  {
    var n := Decode(s).size;
    forall i | 0 < i < n ensures 0x80 <= s[i] as int {
      InsideRune(s, i);
    }
  }

  lemma {:induction false} EscapedIsValid(s: string)
    requires ValidString(s)
    ensures ValidString(LikePattern.Escaped(s))
    decreases |s|
  {
    if s != "" {
      FirstRune(s);
      FirstRuneBytes(s);
      var n := Decode(s).size;
      EscapedIsValid(s[n..]);
      if n == 1 {
        var head := if LikePattern.Special(s[0]) then ['\\', s[0]] else [s[0]];
        AsciiIsValid(head);
        ValidAppend(head, LikePattern.Escaped(s[1..]));
      } else {
        LikePattern.PlainEscapes(s[..n], s[n..]);
        ValidAppend(s[..n], LikePattern.Escaped(s[n..]));
      }
    }
  }

  lemma {:induction false} LoweredIsValid(s: string)
    requires ValidString(s)
    ensures ValidString(AsciiLower(s))
    decreases |s|
  {
    if s != "" {
      FirstRune(s);
      FirstRuneBytes(s);
      var n := Decode(s).size;
      LoweredIsValid(s[n..]);
      assert AsciiLower(s) == AsciiLower(s[..n]) + AsciiLower(s[n..]);
      if n == 1 {
        AsciiIsValid(AsciiLower(s[..1]));
      } else {
        assert AsciiLower(s[..n]) == s[..n];
      }
      ValidAppend(AsciiLower(s[..n]), AsciiLower(s[n..]));
    }
  }

  lemma ShownIsValid(a: Atom)
    requires AtomOk(a)
    ensures ValidString(Shown(a))
  {
    if !a.Text? && !a.Number? {
      AsciiIsValid(Shown(a));
    }
  }

  lemma {:induction false} AtomTextsOk(items: seq<Atom>)
    requires forall a | a in items :: AtomOk(a)
    ensures TextsOk(AtomTexts(items))
  {
    if items != [] {
      ShownIsValid(items[0]);
      AtomTextsOk(items[1..]);
    }
  }

  lemma ListTextsOk(v: Value)
    requires ValueOk(v)
    ensures TextsOk(ListTexts(v))
  {
    if v.Many? {
      AtomTextsOk(v.items);
    }
  }

  // ---------- the filter's arguments ----------

  lemma LeafArgsOk(f: FieldFilter, p: int, alias: string)
    requires LeafFragment(f, p, alias).Ok? && ValueOk(f.value)
    ensures ArgsOk(LeafFragment(f, p, alias).value.params)
  {
    ListTextsOk(f.value);
    if f.op.Ini? {
      forall t | t in ListTexts(f.value) ensures ValidString(AsciiLower(t)) {
        LoweredIsValid(t);
      }
    } else if f.isNull.None? && (f.op.Eqi? || f.op.Contains? || f.op.StartsWith?) && f.value.One? && f.value.a.Text? {
      LoweredIsValid(f.value.a.s);
      EscapedIsValid(f.value.a.s);
      LikePattern.EscapeIsOnePass(f.value.a.s);
    }
  }

  lemma {:induction false} GroupArgsOk(g: FilterGroup, p: int, depth: nat, alias: string)
    requires GroupFragment(g, p, depth, alias).Ok? && TreeOk(g)
    ensures ArgsOk(GroupFragment(g, p, depth, alias).value.params)
    decreases g, 2 + Total(g)
  {
    if !g.IsEmpty() {
      EntriesArgsOk(g, 0, p, depth, alias);
    }
  }

  lemma {:induction false} EntriesArgsOk(g: FilterGroup, k: nat, p: int, depth: nat, alias: string)
    requires k <= Total(g) && EntriesFrom(g, k, p, depth, alias).Ok? && TreeOk(g)
    ensures ArgsOk(EntriesFrom(g, k, p, depth, alias).value.params)
    decreases g, 1 + Total(g) - k
  {
    if k < Total(g) {
      var first := EntrySection(g, k, p, depth, alias).value;
      EntryArgsOk(g, k, p, depth, alias);
      EntriesArgsOk(g, k + 1, p + |first.params|, depth, alias);
      ArgsOkConcat(first.params, EntriesFrom(g, k + 1, p + |first.params|, depth, alias).value.params);
    }
  }

  lemma {:induction false} EntryArgsOk(g: FilterGroup, k: nat, p: int, depth: nat, alias: string)
    requires k < Total(g) && EntrySection(g, k, p, depth, alias).Ok? && TreeOk(g)
    ensures ArgsOk(EntrySection(g, k, p, depth, alias).value.params)
    decreases g, 0
  {
    var c := |g.filters|;
    var j := c + |g.children|;
    var a := j + |g.joined|;
    if k < c {
      assert g.filters[k] in g.filters;
      LeafArgsOk(g.filters[k], p, alias);
    } else if k < j {
      assert g.children[k - c] in g.children;
      GroupArgsOk(g.children[k - c], p, depth + 1, alias);
    } else if k < a {
      var join := g.joined[k - j];
      assert join in g.joined;
      GroupArgsOk(join.inner, p, 0, "d");
      ArgsOkConcat(GroupFragment(join.inner, p, 0, "d").value.params, [ArgText(join.target)]);
    } else {
      assert g.arrays[k - a] in g.arrays;
      GroupArgsOk(g.arrays[k - a].inner, p, 0, "e");
    }
  }

  // ---------- the whole query ----------

  // The search text is short enough, or is cut between two runes.
  predicate CutsClean(search: string) {
    |search| <= MAX_SEARCH_LENGTH || RuneStart(search[MAX_SEARCH_LENGTH])
  }

  lemma SearchIsTextIff(search: string)
    requires ValidString(search)
    ensures ValidString(RecordQuery.Truncated(search)) <==> CutsClean(search)
  {
    if |search| > MAX_SEARCH_LENGTH {
      BoundaryIff(search, MAX_SEARCH_LENGTH);
    }
  }

  lemma SectionIsText(q: Request, name: SectionName, p: int)
    requires RequestOk(q) && QuerySection(q, name, p).Ok?
    ensures ArgsOk(QuerySection(q, name, p).value.args) <==> (name.BySearch? ==> CutsClean(q.filter.search))
  {
    var part := QuerySection(q, name, p).value;
    match name {
      case ByAuthors => TextArgsOk(Authors(q));
      case BySearch =>
        SearchIsTextIff(q.filter.search);
        if q.filter.search != "" {
          assert ArgsOk(part.args) <==> ArgOk(part.args[0]);
        }
      case ByFields =>
        if HasGroup(q) {
          GroupArgsOk(q.group.value, p, 0, "r");
        }
      case ByPds => TextArgsOk(Normalised(q.filter.pdsExclude));
      case ByIncluded => LabelIsText(q, q.filter.labels.including, true, p);
      case ByExcluded => LabelIsText(q, q.filter.labels.excluding, false, p);
      case _ =>
    }
  }

  lemma LabelIsText(q: Request, vals: seq<string>, wanted: bool, p: int)
    requires RequestOk(q) && TextsOk(vals)
    ensures ArgsOk(LabelPart(q, vals, wanted, p).args)
  {
    TextArgsOk(vals);
    TextArgsOk(q.filter.labels.labelerSrcs);
    ArgsOkConcat(TextArgs(vals), TextArgs(q.filter.labels.labelerSrcs));
  }

  lemma {:induction false} BuiltIsText(q: Request, names: seq<SectionName>)
    requires RequestOk(q) && Built(q, names).Ok?
    ensures ArgsOk(Built(q, names).value.args) <==> (BySearch in names ==> CutsClean(q.filter.search))
    decreases |names|
  {
    if names != [] {
      var init, last := names[..|names| - 1], names[|names| - 1];
      assert names == init + [last];
      var done := Built(q, init).value;
      BuiltIsText(q, init);
      SectionIsText(q, last, 1 + |done.args|);
      ArgsOkConcat(done.args, QuerySection(q, last, 1 + |done.args|).value.args);
    }
  }

  // Postgres takes every argument of the query exactly when the search text is not cut
  // inside a rune; otherwise the whole query ends in an error.
  lemma QueryIsTextIff(q: Request)
    requires RequestOk(q) && FilteredQuery(q).Ok? && FilteredQuery(q).value.Select?
    ensures ArgsOk(FilteredQuery(q).value.args) <==> CutsClean(q.filter.search)
  {
    if Unfiltered(q) {
      SectionIsText(q, ByCursor, 2);
      assert ArgOk(ArgText(q.collection));
    } else {
      assert SECTIONS[2] == BySearch;
      BuiltIsText(q, SECTIONS);
    }
  }
}
