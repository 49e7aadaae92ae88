/**
 What a sanitized record satisfies: when every property that the schema declares,
 through refs, unions and array items, ends up null or as declared, and when
 sanitizing again changes nothing.
 */
module SanitizedRecords {
  import opened Wrappers
  import opened Json
  import opened RecordRules

  // A definition names each property once, because it is parsed from a map, and
  // does not declare "$type", because the data model reserves names that start with $.
  ghost predicate Plain(props: seq<PropertyEntry>) {
    DistinctNames(props) && forall i | 0 <= i < |props| :: props[i].name != "$type"
  }

  ghost predicate PlainDefs(reg: Registry) {
    && (forall ref | ref in reg.objects :: Plain(reg.objects[ref]))
    && (forall ref | ref in reg.records :: Plain(reg.records[ref]))
  }

  // Taken from the segmentation library: the first n clusters of a text are no
  // longer than the text, and are at most n clusters.
  ghost predicate Segments(host: Host) {
    forall s: string, n: nat ::
      |host.takeClusters(s, n)| <= |s| && host.clusters(host.takeClusters(s, n)) <= n
  }

  predicate Passes(host: Host, p: Property, s: string) {
    FormatOk(host, p, s) && EnumOk(p, s)
  }

  predicate Short(host: Host, p: Property, s: string) {
    && (p.maxLength.Some? ==> |s| <= p.maxLength.value)
    && (p.maxGraphemes.Some? ==> host.clusters(s) <= p.maxGraphemes.value)
  }

  lemma CutIsShort(host: Host, p: Property, s: string)
    requires Segments(host)
    ensures Short(host, p, Truncated(host, p, s))
    ensures Truncated(host, p, Truncated(host, p, s)) == Truncated(host, p, s)
  {
  }

  // ---------- as declared ----------

  predicate IsText(p: Property) {
    p.kind == "string" || p.kind == ""
  }

  // An optional property without a type is taken for a string.
  predicate HasType(host: Host, p: Property, v: Json) {
    TypeOk(host, v, p.kind) && (p.kind == "" && !p.required ==> v.JStr?)
  }

  // The value is null, if it may be, or has the type, format, enumeration and length
  // of its property; and so has everything that the definitions it refers to declare.
  // A length is the text's, or that of any string that is required.
  predicate Meets(host: Host, reg: Registry, p: Property, v: Json, depth: nat)
    requires depth <= MAX_SANITIZE_DEPTH
    decreases Height(depth), 1
  {
    if v.JNull? then !p.required
    else
      && HasType(host, p, v)
      && (v.JStr? ==> Passes(host, p, v.s) && (IsText(p) || p.required ==> Short(host, p, v.s)))
      && (p.kind == "array" ==> p.maxLength.Some? ==> |v.items| <= p.maxLength.value)
      && (p.kind == "array" ==>
          forall i | 0 <= i < |v.items| :: ItemMeets(host, reg, p.items, v.items[i], depth))
      && (p.kind == "ref" ==> ObjectMeets(host, reg, reg.Resolve(p.ref), v.fields, depth))
      && (p.kind == "union" ==> ObjectMeets(host, reg, Branch(reg, p.refs, v.fields), v.fields, depth))
  }

  predicate ItemMeets(host: Host, reg: Registry, items: Option<ArrayItems>, item: Json, depth: nat)
    requires depth <= MAX_SANITIZE_DEPTH
    decreases Height(depth), 0
  {
    || items.None? || item.JNull?
    || (TypeOk(host, item, items.value.kind)
        && (item.JObj? ==> ObjectMeets(host, reg, ItemDef(reg, items), item.fields, depth)))
  }

  predicate ObjectMeets(host: Host, reg: Registry, def: Option<seq<PropertyEntry>>, fields: Fields, depth: nat)
    requires depth <= MAX_SANITIZE_DEPTH
    decreases Height(depth), 0, 0
  {
    def.None? || AllMeet(host, reg, def.value, fields, depth + 1)
  }

  predicate PropertyMeets(host: Host, reg: Registry, entry: PropertyEntry, fields: Fields, depth: nat)
    requires depth <= MAX_SANITIZE_DEPTH
    decreases Height(depth), 2
  {
    if entry.name in fields then Meets(host, reg, entry.property, fields[entry.name], depth)
    else !entry.property.required
  }

  // Down to the depth that the walk goes to.
  predicate AllMeet(host: Host, reg: Registry, props: seq<PropertyEntry>, fields: Fields, depth: nat)
    decreases Height(depth), 3
  {
    || depth > MAX_SANITIZE_DEPTH
    || forall i | 0 <= i < |props| :: PropertyMeets(host, reg, props[i], fields, depth)
  }

  // ---------- what the walk can mend ----------

  // A text that is kept must still pass once it is cut.  A required value of another type
  // is not looked into and must be right already; so must the types of a ref, a union and
  // the items of an array.  An object that a ref or a union holds stays whatever its walk
  // returns, so what it requires must be there.
  predicate Mends(host: Host, reg: Registry, p: Property, v: Json, depth: nat)
    requires depth <= MAX_SANITIZE_DEPTH
    decreases Height(depth), 1
  {
    if p.required then
      if v.JStr? then Passes(host, p, Truncated(host, p, v.s)) else Meets(host, reg, p, v, depth)
    else
      match p.kind
      case "string" => TextMends(host, p, v)
      case "" => TextMends(host, p, v)
      case "array" =>
        v.JArr? ==>
        var arr := CutItems(p, v.items);
        forall i | 0 <= i < |arr| :: ItemMends(host, reg, p.items, arr[i], depth)
      case "ref" => v.JObj? && ObjectMends(host, reg, reg.Resolve(p.ref), v.fields, depth)
      case "union" => v.JObj? && ObjectMends(host, reg, Branch(reg, p.refs, v.fields), v.fields, depth)
      case _ => TypeOk(host, v, p.kind) && v.JStr? ==> Passes(host, p, v.s)
  }

  predicate TextMends(host: Host, p: Property, v: Json) {
    v.JStr? && Passes(host, p, v.s) ==> Passes(host, p, Truncated(host, p, v.s))
  }

  // An item whose requirements are unmet becomes null, which is always right.
  predicate ItemMends(host: Host, reg: Registry, items: Option<ArrayItems>, item: Json, depth: nat)
    requires depth <= MAX_SANITIZE_DEPTH
    decreases Height(depth), 0, 0
  {
    || items.None? || item.JNull?
    || (TypeOk(host, item, items.value.kind)
        && (item.JObj? && ItemDef(reg, items).Some? && RequiredMet(host, ItemDef(reg, items).value, item.fields) ==>
            AllMend(host, reg, ItemDef(reg, items).value, item.fields, depth + 1)))
  }

  predicate ObjectMends(host: Host, reg: Registry, def: Option<seq<PropertyEntry>>, fields: Fields, depth: nat)
    requires depth <= MAX_SANITIZE_DEPTH
    decreases Height(depth), 0, 0
  {
    def.None? || AllMend(host, reg, def.value, fields, depth + 1)
  }

  predicate PropertyMends(host: Host, reg: Registry, entry: PropertyEntry, fields: Fields, depth: nat)
    requires depth <= MAX_SANITIZE_DEPTH
    decreases Height(depth), 2
  {
    Present(fields, entry.name) ==> Mends(host, reg, entry.property, fields[entry.name], depth)
  }

  predicate AllMend(host: Host, reg: Registry, props: seq<PropertyEntry>, fields: Fields, depth: nat)
    decreases Height(depth), 3
  {
    || depth > MAX_SANITIZE_DEPTH
    || (RequiredMet(host, props, fields)
        && forall i | 0 <= i < |props| :: PropertyMends(host, reg, props[i], fields, depth))
  }

  // ---------- the connection ----------

  // When the walk returns nil, the requirement that made it do so is still unmet in what it leaves.
  lemma {:induction false} RefusedStaysUnmet(host: Host, reg: Registry, props: seq<PropertyEntry>, fields: Fields,
                                             depth: nat)
    requires depth <= MAX_SANITIZE_DEPTH && DistinctNames(props)
    requires !WalkFrom(host, reg, props, fields, depth).kept
    ensures !RequiredMet(host, props, WalkFrom(host, reg, props, fields, depth).fields)
    decreases |props|
  {
    var entry, rest := props[0], props[1..];
    assert DistinctNames(rest);
    RequiredMetCons(host, props, WalkFrom(host, reg, props, fields, depth).fields);
    if !Present(fields, entry.name) {
      if !entry.property.required {
        RefusedStaysUnmet(host, reg, rest, fields, depth);
      }
    } else if NewValue(host, reg, entry.property, fields[entry.name], depth).Some? {
      var v := NewValue(host, reg, entry.property, fields[entry.name], depth).value;
      RefusedStaysUnmet(host, reg, rest, fields[entry.name := v], depth);
    }
  }

  lemma MeetingIsRequiredMet(host: Host, reg: Registry, props: seq<PropertyEntry>, fields: Fields, depth: nat)
    requires depth <= MAX_SANITIZE_DEPTH && AllMeet(host, reg, props, fields, depth)
    ensures RequiredMet(host, props, fields)
  {
    forall i | 0 <= i < |props| && props[i].property.required
      ensures props[i].name in fields && FieldMet(host, props[i].property, fields[props[i].name])
    {
      assert PropertyMeets(host, reg, props[i], fields, depth);
      assert Meets(host, reg, props[i].property, fields[props[i].name], depth);
    }
  }

  lemma ResolvedIsPlain(reg: Registry, ref: string)
    requires PlainDefs(reg) && reg.Resolve(ref).Some?
    ensures Plain(reg.Resolve(ref).value)
  {
  }

  // The walk leaves "$type" alone, so the object stays in its branch.
  lemma BranchStays(host: Host, reg: Registry, refs: seq<string>, fields: Fields, depth: nat)
    requires PlainDefs(reg) && Branch(reg, refs, fields).Some?
    ensures Branch(reg, refs, Walk(host, reg, Branch(reg, refs, fields).value, fields, depth).fields)
            == Branch(reg, refs, fields)
    ensures DistinctNames(Branch(reg, refs, fields).value)
  {
    var def := Branch(reg, refs, fields).value;
    ResolvedIsPlain(reg, fields["$type"].s);
    if depth <= MAX_SANITIZE_DEPTH {
      WalkMeets(host, reg, def, fields, depth);
    }
  }

  // What the walk leaves is as declared exactly when everything is met that it cannot mend.
  lemma {:induction false} MeetsIff(host: Host, reg: Registry, props: seq<PropertyEntry>, fields: Fields, depth: nat)
    requires Segments(host) && PlainDefs(reg) && DistinctNames(props)
    ensures AllMeet(host, reg, props, Walk(host, reg, props, fields, depth).fields, depth) <==>
            AllMend(host, reg, props, fields, depth)
    decreases Height(depth), 3
  {
    if depth <= MAX_SANITIZE_DEPTH {
      var r := Walk(host, reg, props, fields, depth);
      WalkMeets(host, reg, props, fields, depth);
      if !r.kept {
        RefusedStaysUnmet(host, reg, props, fields, depth);
        if AllMeet(host, reg, props, r.fields, depth) {
          MeetingIsRequiredMet(host, reg, props, r.fields, depth);
        }
      } else {
        forall i | 0 <= i < |props|
          ensures PropertyMeets(host, reg, props[i], r.fields, depth) <==>
                  PropertyMends(host, reg, props[i], fields, depth)
        {
          assert FieldDone(host, reg, props[i], fields, r.fields, depth);
          PropertyMeetsIff(host, reg, props[i], fields, r.fields, depth);
        }
      }
    }
  }

  lemma {:induction false} PropertyMeetsIff(host: Host, reg: Registry, entry: PropertyEntry, before: Fields,
                                            after: Fields, depth: nat)
    requires Segments(host) && PlainDefs(reg) && depth <= MAX_SANITIZE_DEPTH
    requires FieldDone(host, reg, entry, before, after, depth)
    requires entry.property.required ==> Present(before, entry.name)
    ensures PropertyMeets(host, reg, entry, after, depth) <==> PropertyMends(host, reg, entry, before, depth)
    decreases Height(depth), 2
  {
    if Present(before, entry.name) {
      ValueMeetsIff(host, reg, entry.property, before[entry.name], depth);
    }
  }

  lemma {:induction false} ValueMeetsIff(host: Host, reg: Registry, p: Property, v: Json, depth: nat)
    requires Segments(host) && PlainDefs(reg) && depth <= MAX_SANITIZE_DEPTH
    requires !v.JNull? && NewValue(host, reg, p, v, depth).Some?
    ensures Meets(host, reg, p, NewValue(host, reg, p, v, depth).value, depth) <==> Mends(host, reg, p, v, depth)
    decreases Height(depth), 1
  {
    if v.JStr? {
      CutIsShort(host, p, v.s);
    }
    if !p.required {
      if p.kind == "array" && v.JArr? {
        ItemsMeetIff(host, reg, p, v, depth);
      } else if p.kind == "ref" && v.JObj? {
        ObjectMeetsIff(host, reg, reg.Resolve(p.ref), v.fields, depth);
        var w := NewRef(host, reg, p, v, depth);
        assert Meets(host, reg, p, w, depth) <==> ObjectMeets(host, reg, reg.Resolve(p.ref), w.fields, depth);
      } else if p.kind == "union" && v.JObj? {
        ObjectMeetsIff(host, reg, Branch(reg, p.refs, v.fields), v.fields, depth);
        if Branch(reg, p.refs, v.fields).Some? {
          BranchStays(host, reg, p.refs, v.fields, depth + 1);
        }
        var w := NewUnion(host, reg, p, v, depth);
        assert Meets(host, reg, p, w, depth) <==>
               ObjectMeets(host, reg, Branch(reg, p.refs, w.fields), w.fields, depth);
      } else {
        FlatMeetsIff(host, reg, p, v, depth);
      }
    }
  }

  // An optional value that holds nothing the walk looks into.
  lemma FlatMeetsIff(host: Host, reg: Registry, p: Property, v: Json, depth: nat)
    requires Segments(host) && depth <= MAX_SANITIZE_DEPTH && !p.required && !v.JNull?
    requires p.kind == "array" ==> !v.JArr?
    requires p.kind == "ref" || p.kind == "union" ==> !v.JObj?
    ensures Meets(host, reg, p, NewOptional(host, reg, p, v, depth), depth) <==> Mends(host, reg, p, v, depth)
  {
    var w := NewOptional(host, reg, p, v, depth);
    if IsText(p) {
      assert w == NewString(host, p, v);
      if v.JStr? {
        CutIsShort(host, p, v.s);
      }
    } else if p.kind == "ref" || p.kind == "union" {
      assert w == if p.kind == "ref" then NewRef(host, reg, p, v, depth) else NewUnion(host, reg, p, v, depth);
    } else {
      assert w == if TypeOk(host, v, p.kind) then v else JNull;
    }
  }

  lemma {:induction false} ObjectMeetsIff(host: Host, reg: Registry, def: Option<seq<PropertyEntry>>, fields: Fields,
                                          depth: nat)
    requires Segments(host) && PlainDefs(reg) && depth <= MAX_SANITIZE_DEPTH
    requires def.Some? ==> DistinctNames(def.value)
    ensures ObjectMeets(host, reg, def, NewObject(host, reg, def, fields, depth).fields, depth) <==>
            ObjectMends(host, reg, def, fields, depth)
    decreases Height(depth), 0
  {
    if def.Some? {
      MeetsIff(host, reg, def.value, fields, depth + 1);
    }
  }

  lemma {:induction false} ItemsMeetIff(host: Host, reg: Registry, p: Property, v: Json, depth: nat)
    requires Segments(host) && PlainDefs(reg) && depth <= MAX_SANITIZE_DEPTH
    requires !p.required && p.kind == "array" && v.JArr?
    ensures Meets(host, reg, p, NewOptional(host, reg, p, v, depth), depth) <==> Mends(host, reg, p, v, depth)
    decreases Height(depth), 0, 1
  {
    var arr := CutItems(p, v.items);
    var out := NewItems(host, reg, p.items, arr, depth);
    assert NewOptional(host, reg, p, v, depth) == JArr(out) && |out| == |arr|;
    forall i | 0 <= i < |arr|
      ensures ItemMeets(host, reg, p.items, out[i], depth) <==> ItemMends(host, reg, p.items, arr[i], depth)
    {
      if ItemDef(reg, p.items).Some? {
        ItemMeetsIff(host, reg, p.items, arr[i], depth);
      }
    }
  }

  // Items that refer to a definition are meant to be objects.
  lemma RefItemMeets(host: Host, reg: Registry, items: Option<ArrayItems>, item: Json, depth: nat)
    requires depth <= MAX_SANITIZE_DEPTH && ItemDef(reg, items).Some?
    ensures ItemMeets(host, reg, items, item, depth) <==>
            item.JNull? || (item.JObj? && AllMeet(host, reg, ItemDef(reg, items).value, item.fields, depth + 1))
  {
    assert TypeOk(host, item, "ref") <==> item.JObj?;
  }

  lemma RefItemMends(host: Host, reg: Registry, items: Option<ArrayItems>, item: Json, depth: nat)
    requires depth <= MAX_SANITIZE_DEPTH && ItemDef(reg, items).Some?
    ensures var def := ItemDef(reg, items).value;
            ItemMends(host, reg, items, item, depth) <==>
            item.JNull? || (item.JObj? && (RequiredMet(host, def, item.fields) ==>
                                           AllMend(host, reg, def, item.fields, depth + 1)))
  {
    assert TypeOk(host, item, "ref") <==> item.JObj?;
  }

  lemma {:induction false} ItemMeetsIff(host: Host, reg: Registry, items: Option<ArrayItems>, item: Json, depth: nat)
    requires Segments(host) && PlainDefs(reg) && depth <= MAX_SANITIZE_DEPTH
    requires ItemDef(reg, items).Some?
    ensures ItemMeets(host, reg, items, NewItem(host, reg, ItemDef(reg, items).value, item, depth), depth) <==>
            ItemMends(host, reg, items, item, depth)
    decreases Height(depth), 0, 0
  {
    var def := ItemDef(reg, items).value;
    RefItemMends(host, reg, items, item, depth);
    RefItemMeets(host, reg, items, NewItem(host, reg, def, item, depth), depth);
    if item.JObj? {
      var r := Walk(host, reg, def, item.fields, depth + 1);
      ResolvedIsPlain(reg, items.value.ref);
      MeetsIff(host, reg, def, item.fields, depth + 1);
      KeptIff(host, reg, def, item.fields, depth + 1);
      assert NewItem(host, reg, def, item, depth) == if r.kept then JObj(r.fields) else JNull;
    }
  }

  // Beyond its depth the walk keeps everything, and everything counts as mended.
  lemma KeptIff(host: Host, reg: Registry, props: seq<PropertyEntry>, fields: Fields, depth: nat)
    requires DistinctNames(props)
    ensures Walk(host, reg, props, fields, depth).kept <==>
            depth > MAX_SANITIZE_DEPTH || RequiredMet(host, props, fields)
    ensures depth > MAX_SANITIZE_DEPTH ==> AllMend(host, reg, props, fields, depth)
  {
    if depth <= MAX_SANITIZE_DEPTH {
      WalkMeets(host, reg, props, fields, depth);
    }
  }

  // A kept record is as declared, in depth, exactly when everything is met that the walk cannot mend.
  lemma SanitizedMeetsIff(host: Host, def: seq<PropertyEntry>, reg: Registry, fields: Fields)
    requires Segments(host) && PlainDefs(reg) && DistinctNames(def)
    requires SanitizeRecord(host, Some(def), reg, Record(fields)).Some?
    ensures AllMeet(host, reg, def, SanitizeRecord(host, Some(def), reg, Record(fields)).value, 0) <==>
            AllMend(host, reg, def, fields, 0)
  {
    MeetsIff(host, reg, def, fields, 0);
  }
}
