/** Lexicon schemas, and the two walks over one schema: reporting violations, and sanitizing for output. */
module RecordRules {
  import opened Wrappers
  import opened Json
  import Utf8

  const MAX_SANITIZE_DEPTH: nat := 32

  datatype ArrayItems = ArrayItems(kind: string, ref: string)

  // `kind` is the lexicon type: "string", "integer", "array", "ref", "union", ...
  datatype Property = Property(kind: string, required: bool, format: string, enumeration: seq<string>,
                               maxLength: Option<nat>, maxGraphemes: Option<nat>,
                               items: Option<ArrayItems>, ref: string, refs: seq<string>)

  datatype PropertyEntry = PropertyEntry(name: string, property: Property)

  // The definitions a ref may name: objects first, then records.
  datatype Registry = Registry(objects: map<string, seq<PropertyEntry>>, records: map<string, seq<PropertyEntry>>)
  {
    function Resolve(ref: string): Option<seq<PropertyEntry>> {
      if ref in objects then Some(objects[ref])
      else if ref in records then Some(records[ref])
      else None
    }
  }

  // The library calls: f == float64(int64(f)), the formats, and grapheme segmentation.
  datatype Host = Host(integral: real -> bool, formatOk: (string, string) -> bool,
                       clusters: string -> nat, takeClusters: (string, nat) -> string)

  type Fields = map<string, Json>

  // ---------- checks that both walks make ----------

  predicate TypeOk(host: Host, v: Json, kind: string) {
    match kind
    case "string" => v.JStr?
    case "integer" => v.JNum? && host.integral(v.n)
    case "boolean" => v.JBool?
    case "array" => v.JArr?
    case "ref" => v.JObj?
    case "union" => v.JObj?
    case "blob" => v.JObj?
    case "cid-link" => v.JObj? && "$link" in v.fields
    case "bytes" => v.JStr?
    case _ => true
  }

  predicate FormatOk(host: Host, p: Property, s: string) {
    p.format == "" || host.formatOk(s, p.format)
  }

  predicate EnumOk(p: Property, s: string) {
    p.enumeration == [] || s in p.enumeration
  }

  predicate Present(fields: Fields, name: string) {
    name in fields && !fields[name].JNull?
  }

  // ---------- the reporting walk ----------

  datatype Rule =
    | RequiredRule | TypeRule | FormatRule | EnumRule | MaxLengthRule | MaxGraphemesRule | TypeNameRule | JsonRule

  // `fatal`: the message starts with "[required]".
  datatype Violation = Violation(field: string, rule: Rule, fatal: bool)

  function TooLong(host: Host, p: Property, name: string, s: string): seq<Violation> {
    (if p.maxLength.Some? && |s| > p.maxLength.value then [Violation(name, MaxLengthRule, false)] else [])
    + (if p.maxGraphemes.Some? && host.clusters(s) > p.maxGraphemes.value
       then [Violation(name, MaxGraphemesRule, false)] else [])
  }

  function FieldViolations(host: Host, entry: PropertyEntry, fields: Fields): seq<Violation> {
    var name, p := entry.name, entry.property;
    if !Present(fields, name) then
      if p.required then [Violation(name, RequiredRule, true)] else []
    else
      var v := fields[name];
      if p.required then
        if !TypeOk(host, v, p.kind) then [Violation(name, TypeRule, true)]
        else if !v.JStr? then []
        else if !FormatOk(host, p, v.s) then [Violation(name, FormatRule, true)]
        else if !EnumOk(p, v.s) then [Violation(name, EnumRule, true)]
        else TooLong(host, p, name, v.s)
      else
        (if TypeOk(host, v, p.kind) then [] else [Violation(name, TypeRule, false)])
        + (if !v.JStr? || FormatOk(host, p, v.s) then [] else [Violation(name, FormatRule, false)])
        + (if !v.JStr? || EnumOk(p, v.s) then [] else [Violation(name, EnumRule, false)])
  }

  function Violations(host: Host, props: seq<PropertyEntry>, fields: Fields): seq<Violation> {
    if props == [] then []
    else Violations(host, props[..|props| - 1], fields) + FieldViolations(host, props[|props| - 1], fields)
  }

  predicate Fatal(v: Violation) {
    v.fatal && (v.rule.RequiredRule? || v.rule.TypeRule? || v.rule.FormatRule? || v.rule.EnumRule?)
  }

  // What json.Unmarshal makes of the raw record: an error, a nil map for `null`, or a map.
  datatype Parsed = Unparsable | NullRecord | Record(fields: Fields)

  function DataOf(parsed: Parsed): Fields {
    if parsed.Record? then parsed.fields else map[]
  }

  datatype Verdict = Verdict(valid: bool, violations: seq<Violation>)

  method ValidateProperties(host: Host, props: seq<PropertyEntry>,
                            fields: Fields) returns (violations: seq<Violation>)
    ensures violations == Violations(host, props, fields)
  {
    violations := [];
    for i := 0 to |props|
      invariant violations == Violations(host, props[..i], fields)
    {
      assert props[..i + 1][..i] == props[..i];
      var name, p := props[i].name, props[i].property;
      if p.required {
        if !Present(fields, name) {
          violations := violations + [Violation(name, RequiredRule, true)];
          continue;
        }
        var v := fields[name];
        if !TypeOk(host, v, p.kind) {
          violations := violations + [Violation(name, TypeRule, true)];
          continue;
        }
        if v.JStr? {
          if !FormatOk(host, p, v.s) {
            violations := violations + [Violation(name, FormatRule, true)];
            continue;
          }
          if !EnumOk(p, v.s) {
            violations := violations + [Violation(name, EnumRule, true)];
            continue;
          }
          violations := violations + TooLong(host, p, name, v.s);
        }
        continue;
      }
      if !Present(fields, name) {
        continue;
      }
      var v := fields[name];
      var found: seq<Violation> := [];
      if !TypeOk(host, v, p.kind) {
        found := found + [Violation(name, TypeRule, false)];
      }
      if v.JStr? {
        if !FormatOk(host, p, v.s) {
          found := found + [Violation(name, FormatRule, false)];
        }
        if !EnumOk(p, v.s) {
          found := found + [Violation(name, EnumRule, false)];
        }
      }
      assert found == FieldViolations(host, props[i], fields);
      violations := violations + found;
    }
    assert props[..|props|] == props;
  }

  // The record's $type, when it is a string, names its collection.
  predicate TypeNameOk(collection: string, fields: Fields) {
    "$type" in fields && fields["$type"].JStr? ==> fields["$type"].s == collection
  }

  // `def` is None for an unknown collection.
  method Validate(host: Host, def: Option<seq<PropertyEntry>>, collection: string,
                  parsed: Parsed) returns (verdict: Verdict)
    ensures verdict.valid <==> Accepts(host, def, collection, parsed)
    ensures def.Some? && !parsed.Unparsable? && TypeNameOk(collection, DataOf(parsed)) ==>
            verdict.violations == Violations(host, def.value, DataOf(parsed))
  {
    if def.None? {
      return Verdict(true, []);
    }
    if parsed.Unparsable? {
      return Verdict(false, [Violation("", JsonRule, false)]);
    }
    var data := DataOf(parsed);
    if "$type" in data && data["$type"].JStr? && data["$type"].s != collection {
      return Verdict(false, [Violation("$type", TypeNameRule, false)]);
    }
    var violations := ValidateProperties(host, def.value, data);
    var valid := true;
    for i := 0 to |violations|
      invariant valid <==> forall j | 0 <= j < i :: !Fatal(violations[j])
    {
      if Fatal(violations[i]) {
        valid := false;
      }
    }
    FatalIffRequiredUnmet(host, def.value, data);
    verdict := Verdict(valid, violations);
  }

  // ---------- what the schema requires ----------

  predicate FieldMet(host: Host, p: Property, v: Json) {
    && !v.JNull? && TypeOk(host, v, p.kind)
    && (v.JStr? ==> FormatOk(host, p, v.s) && EnumOk(p, v.s))
  }

  // Every required property is there, with its type, format and enumeration.
  predicate RequiredMet(host: Host, props: seq<PropertyEntry>, fields: Fields) {
    forall i | 0 <= i < |props| && props[i].property.required ::
      props[i].name in fields && FieldMet(host, props[i].property, fields[props[i].name])
  }

  // What makes Validate accept a raw record.
  predicate Accepts(host: Host, def: Option<seq<PropertyEntry>>, collection: string, parsed: Parsed) {
    || def.None?
    || (!parsed.Unparsable? && TypeNameOk(collection, DataOf(parsed)) && RequiredMet(host, def.value, DataOf(parsed)))
  }

  lemma FieldFatalIff(host: Host, entry: PropertyEntry, fields: Fields)
    ensures (exists v :: v in FieldViolations(host, entry, fields) && Fatal(v)) <==>
            entry.property.required && !(entry.name in fields && FieldMet(host, entry.property, fields[entry.name]))
  {
    var found := FieldViolations(host, entry, fields);
    if entry.property.required && !(entry.name in fields && FieldMet(host, entry.property, fields[entry.name])) {
      assert Fatal(found[0]);
    }
  }

  // The report is fatal exactly when a required property is unmet.
  lemma {:induction false} FatalIffRequiredUnmet(host: Host, props: seq<PropertyEntry>, fields: Fields)
    ensures (exists v :: v in Violations(host, props, fields) && Fatal(v)) <==> !RequiredMet(host, props, fields)
  {
    if props != [] {
      var init, last := props[..|props| - 1], props[|props| - 1];
      FatalIffRequiredUnmet(host, init, fields);
      FieldFatalIff(host, last, fields);
      assert RequiredMet(host, props, fields) <==>
             RequiredMet(host, init, fields) &&
             (last.property.required ==> last.name in fields && FieldMet(host, last.property, fields[last.name])) by {
        assert forall i | 0 <= i < |init| :: init[i] == props[i];
      }
    }
  }

  // ---------- the sanitizing walk, on values ----------

  // `kept` is false when the walk returned nil; `fields` is then what it left behind.
  datatype Sanitized = Sanitized(kept: bool, fields: Fields)

  function Truncated(host: Host, p: Property, s: string): string {
    var t := if p.maxLength.Some? then Utf8.Truncated(s, p.maxLength.value) else s;
    if p.maxGraphemes.Some? && host.clusters(t) > p.maxGraphemes.value
    then host.takeClusters(t, p.maxGraphemes.value) else t
  }

  function Walk(host: Host, reg: Registry, props: seq<PropertyEntry>, fields: Fields, depth: nat): Sanitized
    decreases Height(depth), 1, |props|
  {
    if depth > MAX_SANITIZE_DEPTH then Sanitized(true, fields)
    else WalkFrom(host, reg, props, fields, depth)
  }

  function Height(depth: nat): nat {
    if depth > MAX_SANITIZE_DEPTH then 0 else MAX_SANITIZE_DEPTH + 1 - depth
  }

  function WalkFrom(host: Host, reg: Registry, props: seq<PropertyEntry>, fields: Fields, depth: nat): Sanitized
    requires depth <= MAX_SANITIZE_DEPTH
    decreases Height(depth), 0, |props|, 2
  {
    if props == [] then Sanitized(true, fields)
    else
      var name, p := props[0].name, props[0].property;
      if !Present(fields, name) then
        if p.required then Sanitized(false, fields) else WalkFrom(host, reg, props[1..], fields, depth)
      else
        match NewValue(host, reg, p, fields[name], depth)
        case None => Sanitized(false, fields)
        case Some(v) => WalkFrom(host, reg, props[1..], fields[name := v], depth)
  }

  // What becomes of a value that is there; None refuses the record.
  function NewValue(host: Host, reg: Registry, p: Property, v: Json, depth: nat): Option<Json>
    requires depth <= MAX_SANITIZE_DEPTH
    decreases Height(depth), 0, 0, 1
  {
    if !p.required then Some(NewOptional(host, reg, p, v, depth))
    else if !FieldMet(host, p, v) then None
    else if v.JStr? then Some(JStr(Truncated(host, p, v.s)))
    else Some(v)
  }

  function NewOptional(host: Host, reg: Registry, p: Property, v: Json, depth: nat): Json
    requires depth <= MAX_SANITIZE_DEPTH
    decreases Height(depth), 0, 0, 0, 3
  {
    match p.kind
    case "string" => NewString(host, p, v)
    case "" => NewString(host, p, v)
    case "array" => NewArray(host, reg, p, v, depth)
    case "ref" => NewRef(host, reg, p, v, depth)
    case "union" => NewUnion(host, reg, p, v, depth)
    case _ => if TypeOk(host, v, p.kind) then v else JNull
  }

  function NewRef(host: Host, reg: Registry, p: Property, v: Json, depth: nat): (w: Json)
    requires depth <= MAX_SANITIZE_DEPTH
    ensures w.JNull? <==> v.JNull?
    decreases Height(depth), 0, 0, 0, 2
  {
    if v.JObj? then NewObject(host, reg, reg.Resolve(p.ref), v.fields, depth) else v
  }

  function NewUnion(host: Host, reg: Registry, p: Property, v: Json, depth: nat): (w: Json)
    requires depth <= MAX_SANITIZE_DEPTH
    ensures w.JNull? <==> v.JNull?
    decreases Height(depth), 0, 0, 0, 2
  {
    if v.JObj? then NewObject(host, reg, Branch(reg, p.refs, v.fields), v.fields, depth) else v
  }

  function NewArray(host: Host, reg: Registry, p: Property, v: Json, depth: nat): (w: Json)
    requires depth <= MAX_SANITIZE_DEPTH
    ensures w.JNull? <==> !v.JArr?
    decreases Height(depth), 0, 0, 0, 2
  {
    if v.JArr? then JArr(NewItems(host, reg, p.items, CutItems(p, v.items), depth)) else JNull
  }

  function CutItems(p: Property, items: seq<Json>): seq<Json> {
    if p.maxLength.Some? && |items| > p.maxLength.value then items[..p.maxLength.value] else items
  }

  function NewString(host: Host, p: Property, v: Json): Json {
    if v.JStr? && FormatOk(host, p, v.s) && EnumOk(p, v.s) then JStr(Truncated(host, p, v.s)) else JNull
  }

  // A nested object keeps whatever its walk leaves, even where that walk returned nil.
  function NewObject(host: Host, reg: Registry, def: Option<seq<PropertyEntry>>, fields: Fields,
                     depth: nat): (v: Json)
    requires depth <= MAX_SANITIZE_DEPTH
    ensures v.JObj?
    decreases Height(depth), 0, 0, 0, 0
  {
    if def.None? then JObj(fields) else JObj(Walk(host, reg, def.value, fields, depth + 1).fields)
  }

  // The member of the union that the object's own $type names.
  function Branch(reg: Registry, refs: seq<string>, fields: Fields): Option<seq<PropertyEntry>> {
    if "$type" in fields && fields["$type"].JStr? && fields["$type"].s != "" && fields["$type"].s in refs
    then reg.Resolve(fields["$type"].s) else None
  }

  function ItemDef(reg: Registry, items: Option<ArrayItems>): Option<seq<PropertyEntry>> {
    if items.Some? && items.value.kind == "ref" && items.value.ref != "" then reg.Resolve(items.value.ref) else None
  }

  // An item whose walk returns nil becomes null.
  function NewItem(host: Host, reg: Registry, def: seq<PropertyEntry>, item: Json, depth: nat): Json
    requires depth <= MAX_SANITIZE_DEPTH
    decreases Height(depth), 0, 0, 0, 0
  {
    if !item.JObj? then item
    else
      var r := Walk(host, reg, def, item.fields, depth + 1);
      if r.kept then JObj(r.fields) else JNull
  }

  function NewItems(host: Host, reg: Registry, items: Option<ArrayItems>, arr: seq<Json>, depth: nat): (r: seq<Json>)
    requires depth <= MAX_SANITIZE_DEPTH
    ensures items.None? ==> r == arr
    decreases Height(depth), 0, 0, 0, 1
  {
    var def := ItemDef(reg, items);
    if def.None? then arr
    else seq(|arr|, i requires 0 <= i < |arr| => NewItem(host, reg, def.value, arr[i], depth))
  }

  // ---------- the two walks agree ----------

  ghost predicate DistinctNames(props: seq<PropertyEntry>) {
    forall i, j | 0 <= i < j < |props| :: props[i].name != props[j].name
  }

  // What the walk makes of one field of the original record.
  function FieldAfter(host: Host, reg: Registry, entry: PropertyEntry, fields: Fields, depth: nat): Option<Json>
    requires depth <= MAX_SANITIZE_DEPTH && Present(fields, entry.name)
  {
    NewValue(host, reg, entry.property, fields[entry.name], depth)
  }

  ghost predicate FieldDone(host: Host, reg: Registry, entry: PropertyEntry, before: Fields, after: Fields,
                            depth: nat)
    requires depth <= MAX_SANITIZE_DEPTH
  {
    if Present(before, entry.name)
    then entry.name in after && FieldAfter(host, reg, entry, before, depth) == Some(after[entry.name])
    else !Present(after, entry.name)
  }

  // With distinct names the record is kept exactly when every required property is met;
  // each field is then a function of itself alone, and no key comes or goes.
  lemma {:induction false} WalkMeets(host: Host, reg: Registry, props: seq<PropertyEntry>, fields: Fields, depth: nat)
    requires depth <= MAX_SANITIZE_DEPTH && DistinctNames(props)
    ensures var r := WalkFrom(host, reg, props, fields, depth);
            && (r.kept <==> RequiredMet(host, props, fields))
            && r.fields.Keys == fields.Keys
            && (forall name | name in fields && (forall i | 0 <= i < |props| :: props[i].name != name) ::
                  r.fields[name] == fields[name])
            && (r.kept ==> forall i | 0 <= i < |props| :: FieldDone(host, reg, props[i], fields, r.fields, depth))
    decreases |props|
  {
    if props != [] {
      var entry, rest := props[0], props[1..];
      assert DistinctNames(rest);
      RequiredMetCons(host, props, fields);
      var after := if Present(fields, entry.name) && FieldAfter(host, reg, entry, fields, depth).Some?
        then fields[entry.name := FieldAfter(host, reg, entry, fields, depth).value] else fields;
      RequiredMetElsewhere(host, rest, fields, after, entry.name);
      WalkMeets(host, reg, rest, after, depth);
      var r := WalkFrom(host, reg, props, fields, depth);
      if r.kept {
        assert r == WalkFrom(host, reg, rest, after, depth);
        forall i | 0 <= i < |props| ensures FieldDone(host, reg, props[i], fields, r.fields, depth) {
          if i > 0 {
            assert FieldDone(host, reg, rest[i - 1], after, r.fields, depth);
          }
        }
      }
    }
  }

  lemma RequiredMetCons(host: Host, props: seq<PropertyEntry>, fields: Fields)
    requires props != []
    ensures RequiredMet(host, props, fields) <==>
            RequiredMet(host, props[1..], fields) &&
            (props[0].property.required ==>
                props[0].name in fields && FieldMet(host, props[0].property, fields[props[0].name]))
  {
    assert forall i | 1 <= i < |props| :: props[1..][i - 1] == props[i];
  }

  lemma RequiredMetElsewhere(host: Host, props: seq<PropertyEntry>, before: Fields, after: Fields, name: string)
    requires forall i | 0 <= i < |props| :: props[i].name != name
    requires before.Keys - {name} == after.Keys - {name}
    requires forall k | k in before && k in after && k != name :: before[k] == after[k]
    ensures RequiredMet(host, props, before) <==> RequiredMet(host, props, after)
  {
    forall i | 0 <= i < |props|
      ensures (props[i].name in before <==> props[i].name in after)
           && (props[i].name in before ==> before[props[i].name] == after[props[i].name])
    {
      assert props[i].name in before.Keys - {name} <==> props[i].name in after.Keys - {name};
    }
  }

  // ---------- the two public functions ----------

  // SanitizeRecord: what is left of the record, None for a nil map.
  function SanitizeRecord(host: Host, def: Option<seq<PropertyEntry>>, reg: Registry, parsed: Parsed): Option<Fields>
    requires !parsed.Unparsable?
  {
    if parsed.NullRecord? then None
    else if def.None? then Some(parsed.fields)
    else
      var r := Walk(host, reg, def.value, parsed.fields, 0);
      if r.kept then Some(r.fields) else None
  }

  // For any schema with distinct names, and any record whose $type matches, the
  // two walks agree, but for the record `null`: its nil map can be valid, and is
  // returned as nil all the same.
  lemma WalksAgreeIff(host: Host, def: Option<seq<PropertyEntry>>, reg: Registry, collection: string, parsed: Parsed)
    requires def.Some? ==> DistinctNames(def.value)
    requires !parsed.Unparsable? && TypeNameOk(collection, DataOf(parsed))
    ensures (Accepts(host, def, collection, parsed) <==> SanitizeRecord(host, def, reg, parsed).Some?) <==>
            !(parsed.NullRecord? && (def.Some? ==> forall i | 0 <= i < |def.value| :: !def.value[i].property.required))
  {
    if def.Some? && parsed.Record? {
      WalkMeets(host, reg, def.value, parsed.fields, 0);
    }
  }

  // Distinct names are needed: with a name declared twice, the first entry's
  // truncation can spoil the value that the second one checks.
  lemma RepeatedNamesDisagree(host: Host)
    ensures var short := Property("string", false, "", [], Some(1), None, None, "", []);
            var exact := Property("string", true, "", ["ab"], None, None, None, "", []);
            var props := [PropertyEntry("x", short), PropertyEntry("x", exact)];
            var fields: Fields := map["x" := JStr("ab")];
            RequiredMet(host, props, fields) && !WalkFrom(host, Registry(map[], map[]), props, fields, 0).kept
  {
    var short := Property("string", false, "", [], Some(1), None, None, "", []);
    var exact := Property("string", true, "", ["ab"], None, None, None, "", []);
    var props := [PropertyEntry("x", short), PropertyEntry("x", exact)];
    var fields: Fields := map["x" := JStr("ab")];
    var reg := Registry(map[], map[]);
    assert |Truncated(host, short, "ab")| <= 1;
    assert NewValue(host, reg, short, fields["x"], 0) == Some(JStr(Truncated(host, short, "ab")));
    var after := fields["x" := JStr(Truncated(host, short, "ab"))];
    assert props[1..] == [props[1]];
    assert WalkFrom(host, reg, props, fields, 0) == WalkFrom(host, reg, props[1..], after, 0);
    assert NewValue(host, reg, exact, after["x"], 0).None?;
  }

  // ---------- an optional value is nulled only where the report says why ----------

  predicate Reported(host: Host, entry: PropertyEntry, fields: Fields) {
    FieldViolations(host, entry, fields) != []
  }

  // The kinds for which a report and a nulled value are the same thing: refs and
  // unions are never nulled, an untyped property is read as a string, and
  // only strings have their format and enumeration enforced.
  predicate ReportNulls(p: Property) {
    || p.kind == "string"
    || (p.kind != "" && p.kind != "ref" && p.kind != "union" && p.format == "" && p.enumeration == [])
  }

  // When the walk makes null of an optional value.
  lemma NulledMeans(host: Host, reg: Registry, p: Property, v: Json, depth: nat)
    requires depth <= MAX_SANITIZE_DEPTH && !p.required && !v.JNull?
    ensures NewValue(host, reg, p, v, depth) == Some(JNull) <==>
            if p.kind == "string" || p.kind == "" then !v.JStr? || !FormatOk(host, p, v.s) || !EnumOk(p, v.s)
            else p.kind != "ref" && p.kind != "union" && !TypeOk(host, v, p.kind)
  {
    assert NewValue(host, reg, p, v, depth) == Some(NewOptional(host, reg, p, v, depth));
  }

  lemma NulledIffReported(host: Host, reg: Registry, entry: PropertyEntry, fields: Fields, depth: nat)
    requires depth <= MAX_SANITIZE_DEPTH && Present(fields, entry.name)
    requires !entry.property.required && ReportNulls(entry.property)
    ensures FieldAfter(host, reg, entry, fields, depth) == Some(JNull) <==> Reported(host, entry, fields)
  {
    NulledMeans(host, reg, entry.property, fields[entry.name], depth);
  }

  lemma NulledIsReported(host: Host, reg: Registry, entry: PropertyEntry, fields: Fields, depth: nat)
    requires depth <= MAX_SANITIZE_DEPTH && Present(fields, entry.name) && !entry.property.required
            && entry.property.kind != ""
    ensures FieldAfter(host, reg, entry, fields, depth) == Some(JNull) ==> Reported(host, entry, fields)
  {
    var v, p := fields[entry.name], entry.property;
    NulledMeans(host, reg, p, v, depth);
    if FieldAfter(host, reg, entry, fields, depth) == Some(JNull) {
      assert !TypeOk(host, v, p.kind) || (v.JStr? && (!FormatOk(host, p, v.s) || !EnumOk(p, v.s)));
      assert |FieldViolations(host, entry, fields)| > 0;
    }
  }
}
