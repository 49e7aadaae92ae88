/** The recursive tree of filter conditions that a `where` argument becomes. */
module FilterTree {
  import opened Wrappers
  import FieldPath

  datatype Operator =
    | Eq | Neq | Gt | Lt | Gte | Lte | In | Eqi | Ini | Contains | StartsWith
    | OtherOperator  // any operator string the compiler does not know

  datatype Kind = KindScalar | KindArrayContributor | KindUnionSubject | KindStringSubject

  // One dynamically typed value.  `shown` is the number's default text.
  datatype Atom =
    | Nil
    | Text(s: string)
    | Number(n: real, shown: string)
    | Boolean(b: bool)
    | Object
    | Array

  // A single value, a list of values, or a list of strings.
  datatype Value = One(a: Atom) | Many(items: seq<Atom>) | Texts(texts: seq<string>)

  datatype FieldFilter = FieldFilter(
    fieldName: string,
    op: Operator,
    value: Value,
    isNull: Option<bool>,
    isJson: bool,
    lexiconType: string,
    kind: Kind)

  // Every group operator string other than "OR" joins with AND.
  datatype GroupOperator = GroupAnd | GroupOr

  datatype FilterGroup = FilterGroup(
    op: GroupOperator,
    filters: seq<FieldFilter>,
    children: seq<FilterGroup>,
    joined: seq<JoinedFilter>,
    arrays: seq<ArrayFilter>)
  {
    predicate IsEmpty() {
      |filters| == 0 && |children| == 0 && |joined| == 0 && |arrays| == 0
    }
  }

  // `joinPath` is the registry's JoinExpr: a text extraction from the outer record `r`.
  datatype JoinedFilter = JoinedFilter(target: string, joinPath: seq<string>, inner: FilterGroup)

  // `arrayPath` is the registry's ArrayPath: a jsonb extraction from the outer record `r`.
  datatype ArrayFilter = ArrayFilter(fieldName: string, arrayPath: seq<string>, inner: FilterGroup)

  const MAX_FILTER_CONDITIONS := 20
  const MAX_IN_LIST_SIZE := 50
  const MIN_CONTAINS_LENGTH := 3
  const MIN_STARTS_WITH_LENGTH := 1
  const MAX_FILTER_DEPTH := 3

  predicate ValidListShape(v: Value) {
    match v
    case Many(items) => 1 <= |items| <= MAX_IN_LIST_SIZE && Object !in items && Array !in items
    case Texts(texts) => 1 <= |texts| <= MAX_IN_LIST_SIZE
    case One(_) => false
  }

  // FieldFilter.Validate.
  predicate Valid(f: FieldFilter) {
    && FieldPath.ValidName(f.fieldName)
    && (f.isNull.Some? ||
        match f.op
        case Contains => f.value.One? && f.value.a.Text? && |f.value.a.s| >= MIN_CONTAINS_LENGTH
        case StartsWith => f.value.One? && f.value.a.Text? && |f.value.a.s| >= MIN_STARTS_WITH_LENGTH
        case In => ValidListShape(f.value)
        case Eqi => f.value.One? && f.value.a.Text? && f.isJson
        case Ini => ValidListShape(f.value) && f.isJson
        case Eq => f.isJson ==> !f.value.Many? && f.value != One(Object) && f.value != One(Array)
        case _ => true)
  }

  // The sums that CountConditions and the placeholder count are made of.
  function Sum(xs: seq<nat>): nat {
    if xs == [] then 0 else xs[0] + Sum(xs[1..])
  }

  function CountConditions(g: FilterGroup): nat
    decreases g
  {
    |g.filters|
    + Sum(seq(|g.children|, i requires 0 <= i < |g.children| => CountConditions(g.children[i])))
    + Sum(seq(|g.joined|, i requires 0 <= i < |g.joined| => CountConditions(g.joined[i].inner)))
    + Sum(seq(|g.arrays|, i requires 0 <= i < |g.arrays| => CountConditions(g.arrays[i].inner)))
  }

  // A group with nothing in it, or with nothing but such groups, is absent from the query.
  predicate Present(g: FilterGroup)
    decreases g
  {
    |g.filters| > 0 || |g.joined| > 0 || |g.arrays| > 0 || exists c | c in g.children :: Present(c)
  }

  // Text values of a list, and whether it held a null.
  function ListTexts(v: Value): seq<string> {
    match v
    case Many(items) => AtomTexts(items)
    case Texts(texts) => texts
    case One(_) => []
  }

  function AtomTexts(items: seq<Atom>): seq<string> {
    if items == [] then []
    else (if items[0].Nil? then [] else [Shown(items[0])]) + AtomTexts(items[1..])
  }

  predicate HasNull(v: Value) {
    v.Many? && Nil in v.items
  }

  function Shown(a: Atom): string {
    match a
    case Nil => "<nil>"
    case Text(s) => s
    case Number(_, shown) => shown
    case Boolean(b) => if b then "true" else "false"
    case Object => "map[]"
    case Array => "[]"
  }

  // extractInValues.
  method ExtractInValues(v: Value) returns (values: seq<string>, hasNull: bool)
    ensures values == ListTexts(v) && hasNull == HasNull(v)
  {
    values, hasNull := [], false;
    match v {
      case Many(items) =>
        for i := 0 to |items|
          invariant values + AtomTexts(items[i..]) == AtomTexts(items)
          invariant hasNull <==> Nil in items[..i]
        {
          assert items[i..][1..] == items[i + 1..];
          if items[i].Nil? {
            hasNull := true;
          } else {
            values := values + [Shown(items[i])];
          }
          assert items[..i + 1] == items[..i] + [items[i]];
        }
        assert items[..|items|] == items;
      case Texts(texts) => values := texts;
      case One(_) =>
    }
  }

  function LowerByte(c: char): char {
    if 'A' <= c <= 'Z' then c + 32 as char else c
  }

  function AsciiLower(s: string): (t: string)
    ensures |t| == |s|
  {
    seq(|s|, i requires 0 <= i < |s| => LowerByte(s[i]))
  }

  // asciiToLower: a scan that returns early, then an in-place edit of a byte buffer.
  method AsciiToLower(s: string) returns (t: string)
    ensures t == AsciiLower(s)
  {
    var changed := false;
    var i := 0;
    while i < |s| && !changed
      invariant i <= |s|
      invariant !changed ==> forall k | 0 <= k < i :: LowerByte(s[k]) == s[k]
    {
      changed := 'A' <= s[i] <= 'Z';
      i := i + 1;
    }
    if !changed {
      return s;
    }
    var b := new char[|s|](k requires 0 <= k < |s| => s[k]);
    for j := 0 to |s|
      invariant forall k | 0 <= k < |s| :: b[k] == if k < j then LowerByte(s[k]) else s[k]
    {
      if 'A' <= b[j] <= 'Z' {
        b[j] := b[j] + 32 as char;
      }
    }
    t := b[..];
  }
}
