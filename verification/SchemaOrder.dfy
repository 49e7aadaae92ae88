/**
 Whether the order matters in which a definition lists its properties.  The parser
 takes them from a map, so that each start of the program may list them differently.
 */
module SchemaOrder {
  import opened Wrappers
  import opened Json
  import opened RecordRules
  import opened SanitizedRecords

  ghost predicate Shuffled(a: seq<PropertyEntry>, b: seq<PropertyEntry>) {
    DistinctNames(a) && DistinctNames(b) && forall entry :: entry in a <==> entry in b
  }

  lemma ShuffledRequirements(host: Host, a: seq<PropertyEntry>, b: seq<PropertyEntry>, fields: Fields)
    requires Shuffled(a, b)
    ensures RequiredMet(host, a, fields) ==> RequiredMet(host, b, fields)
  {
    forall i | 0 <= i < |b| && b[i].property.required && RequiredMet(host, a, fields)
      ensures b[i].name in fields && FieldMet(host, b[i].property, fields[b[i].name])
    {
      assert b[i] in a;
      var j :| 0 <= j < |a| && a[j] == b[i];
    }
  }

  // Of an object that meets its requirements every order leaves the same.
  lemma MetInAnyOrder(host: Host, reg: Registry, a: seq<PropertyEntry>, b: seq<PropertyEntry>, fields: Fields,
                      depth: nat)
    requires depth <= MAX_SANITIZE_DEPTH && Shuffled(a, b) && RequiredMet(host, a, fields)
    ensures WalkFrom(host, reg, a, fields, depth) == WalkFrom(host, reg, b, fields, depth)
  {
    WalkMeets(host, reg, a, fields, depth);
    WalkMeets(host, reg, b, fields, depth);
    ShuffledRequirements(host, a, b, fields);
    var r, t := WalkFrom(host, reg, a, fields, depth), WalkFrom(host, reg, b, fields, depth);
    forall name | name in fields ensures r.fields[name] == t.fields[name] {
      if i :| 0 <= i < |a| && a[i].name == name {
        assert a[i] in b;
        var j :| 0 <= j < |b| && b[j] == a[i];
        assert FieldDone(host, reg, a[i], fields, r.fields, depth);
        assert FieldDone(host, reg, b[j], fields, t.fields, depth);
        NullStaysNull(host, reg, a, fields, name, i, depth);
        NullStaysNull(host, reg, b, fields, name, j, depth);
      } else {
        forall j | 0 <= j < |b| ensures b[j].name != name {
          assert b[j] in a;
        }
      }
    }
  }

  lemma {:induction false} NullStaysNull(host: Host, reg: Registry, props: seq<PropertyEntry>, fields: Fields,
                                          name: string, i: nat, depth: nat)
    requires depth <= MAX_SANITIZE_DEPTH && DistinctNames(props) && i < |props| && props[i].name == name
    ensures WalkFrom(host, reg, props, fields, depth).fields.Keys == fields.Keys
    ensures name in fields && fields[name].JNull? ==>
            WalkFrom(host, reg, props, fields, depth).fields[name].JNull?
    decreases |props|
  {
    WalkMeets(host, reg, props, fields, depth);
    var entry, rest := props[0], props[1..];
    assert DistinctNames(rest);
    if i == 0 {
      WalkMeets(host, reg, rest, fields, depth);
    } else if !Present(fields, entry.name) {
      NullStaysNull(host, reg, rest, fields, name, i - 1, depth);
    } else if FieldAfter(host, reg, entry, fields, depth).Some? {
      var after := fields[entry.name := FieldAfter(host, reg, entry, fields, depth).value];
      NullStaysNull(host, reg, rest, after, name, i - 1, depth);
    }
  }

  // The record's own definition may list its properties in any order.
  lemma RecordInAnyOrder(host: Host, reg: Registry, a: seq<PropertyEntry>, b: seq<PropertyEntry>, parsed: Parsed)
    requires Shuffled(a, b) && !parsed.Unparsable?
    ensures SanitizeRecord(host, Some(a), reg, parsed) == SanitizeRecord(host, Some(b), reg, parsed)
  {
    if parsed.Record? {
      var fields := parsed.fields;
      WalkMeets(host, reg, a, fields, 0);
      WalkMeets(host, reg, b, fields, 0);
      ShuffledRequirements(host, a, b, fields);
      ShuffledRequirements(host, b, a, fields);
      if RequiredMet(host, a, fields) {
        MetInAnyOrder(host, reg, a, b, fields, 0);
      }
    }
  }

  // ---------- a nested object that lacks something ----------

  // What the walk would leave of the entry's value is the value itself.
  predicate Unchanged(host: Host, reg: Registry, entry: PropertyEntry, fields: Fields, depth: nat)
    requires depth <= MAX_SANITIZE_DEPTH
  {
    Present(fields, entry.name) ==>
    var v := FieldAfter(host, reg, entry, fields, depth);
    v.None? || v == Some(fields[entry.name])
  }

  lemma {:induction false} NothingChanges(host: Host, reg: Registry, props: seq<PropertyEntry>, fields: Fields,
                                          depth: nat)
    requires depth <= MAX_SANITIZE_DEPTH && forall entry | entry in props :: Unchanged(host, reg, entry, fields, depth)
    ensures WalkFrom(host, reg, props, fields, depth).fields == fields
    decreases |props|
  {
    if props != [] {
      assert Unchanged(host, reg, props[0], fields, depth);
      NothingChanges(host, reg, props[1..], fields, depth);
      if Present(fields, props[0].name) {
        assert fields[props[0].name := fields[props[0].name]] == fields;
      }
    }
  }

  function First(props: seq<PropertyEntry>, i: nat): seq<PropertyEntry>
    requires i < |props|
  {
    [props[i]] + (props[..i] + props[i + 1..])
  }

  lemma FirstIsShuffled(props: seq<PropertyEntry>, i: nat)
    requires DistinctNames(props) && i < |props|
    ensures Shuffled(props, First(props, i))
  {
    var others := props[..i] + props[i + 1..];
    assert forall j | 0 <= j < |others| :: others[j] == if j < i then props[j] else props[j + 1];
    forall entry | entry in props ensures entry in First(props, i) {
      var j :| 0 <= j < |props| && props[j] == entry;
      assert j < i ==> others[j] == entry;
      assert j > i ==> others[j - 1] == entry;
    }
  }

  // An object that a ref or a union holds is kept whatever its walk returns.  It is left the
  // same by every order exactly when it meets its requirements or nothing in it would change.
  lemma AnyOrderIff(host: Host, reg: Registry, props: seq<PropertyEntry>, fields: Fields, depth: nat)
    requires depth <= MAX_SANITIZE_DEPTH && DistinctNames(props)
    ensures (forall other | Shuffled(props, other) ::
               WalkFrom(host, reg, other, fields, depth).fields == WalkFrom(host, reg, props, fields, depth).fields)
            <==>
            RequiredMet(host, props, fields)
            || forall entry | entry in props :: Unchanged(host, reg, entry, fields, depth)
  {
    var one := WalkFrom(host, reg, props, fields, depth);
    if RequiredMet(host, props, fields) {
      forall other | Shuffled(props, other) ensures WalkFrom(host, reg, other, fields, depth).fields == one.fields {
        MetInAnyOrder(host, reg, props, other, fields, depth);
      }
    } else if forall entry | entry in props :: Unchanged(host, reg, entry, fields, depth) {
      forall other | Shuffled(props, other) ensures WalkFrom(host, reg, other, fields, depth).fields == one.fields {
        NothingChanges(host, reg, other, fields, depth);
        NothingChanges(host, reg, props, fields, depth);
      }
    } else {
      var i :| 0 <= i < |props| && !Unchanged(host, reg, props[i], fields, depth);
      var j :| 0 <= j < |props| && props[j].property.required
               && !(props[j].name in fields && FieldMet(host, props[j].property, fields[props[j].name]));
      FirstIsShuffled(props, i);
      FirstIsShuffled(props, j);
      ChangedFirst(host, reg, First(props, i), fields, depth);
      assert WalkFrom(host, reg, First(props, j), fields, depth).fields == fields;
    }
  }

  lemma ChangedFirst(host: Host, reg: Registry, props: seq<PropertyEntry>, fields: Fields, depth: nat)
    requires depth <= MAX_SANITIZE_DEPTH && DistinctNames(props)
    requires props != [] && !Unchanged(host, reg, props[0], fields, depth)
    ensures WalkFrom(host, reg, props, fields, depth).fields != fields
  {
    var name := props[0].name;
    var v := FieldAfter(host, reg, props[0], fields, depth).value;
    assert DistinctNames(props[1..]);
    WalkMeets(host, reg, props[1..], fields[name := v], depth);
  }

  // ---------- the whole registry ----------

  ghost predicate SameDefs(a: Registry, b: Registry) {
    && a.objects.Keys == b.objects.Keys && a.records.Keys == b.records.Keys
    && (forall ref | ref in a.objects :: Shuffled(a.objects[ref], b.objects[ref]))
    && (forall ref | ref in a.records :: Shuffled(a.records[ref], b.records[ref]))
  }

  ghost predicate SameDef(a: Option<seq<PropertyEntry>>, b: Option<seq<PropertyEntry>>) {
    if a.Some? then b.Some? && Shuffled(a.value, b.value) else b.None?
  }

  lemma SameResolved(reg: Registry, reg': Registry, ref: string)
    requires SameDefs(reg, reg')
    ensures SameDef(reg.Resolve(ref), reg'.Resolve(ref))
  {
    assert ref in reg.objects.Keys <==> ref in reg'.objects.Keys;
    assert ref in reg.records.Keys <==> ref in reg'.records.Keys;
  }

  // Every object that a ref or a union holds meets its requirements or would not change, all the way down.
  ghost predicate Calm(host: Host, reg: Registry, props: seq<PropertyEntry>, fields: Fields, depth: nat)
    decreases Height(depth), 2
  {
    || depth > MAX_SANITIZE_DEPTH
    || ((RequiredMet(host, props, fields)
         || forall entry | entry in props :: Unchanged(host, reg, entry, fields, depth))
        && forall entry | entry in props ::
             Present(fields, entry.name) ==> CalmValue(host, reg, entry.property, fields[entry.name], depth))
  }

  ghost predicate CalmValue(host: Host, reg: Registry, p: Property, v: Json, depth: nat)
    requires depth <= MAX_SANITIZE_DEPTH
    decreases Height(depth), 1
  {
    p.required ||
    match p.kind
    case "array" => v.JArr? ==> forall item | item in CutItems(p, v.items) :: CalmItem(host, reg, p.items, item, depth)
    case "ref" => v.JObj? ==> CalmObject(host, reg, reg.Resolve(p.ref), v.fields, depth)
    case "union" => v.JObj? ==> CalmObject(host, reg, Branch(reg, p.refs, v.fields), v.fields, depth)
    case _ => true
  }

  ghost predicate CalmObject(host: Host, reg: Registry, def: Option<seq<PropertyEntry>>, fields: Fields, depth: nat)
    requires depth <= MAX_SANITIZE_DEPTH
    decreases Height(depth), 0
  {
    def.None? || Calm(host, reg, def.value, fields, depth + 1)
  }

  // An item that lacks something becomes null in any order.
  ghost predicate CalmItem(host: Host, reg: Registry, items: Option<ArrayItems>, item: Json, depth: nat)
    requires depth <= MAX_SANITIZE_DEPTH
    decreases Height(depth), 0
  {
    item.JObj? && ItemDef(reg, items).Some? && RequiredMet(host, ItemDef(reg, items).value, item.fields) ==>
    Calm(host, reg, ItemDef(reg, items).value, item.fields, depth + 1)
  }

  // Then the walk leaves the same however the parser lists the properties of any definition.
  lemma {:induction false} CalmInAnyOrder(host: Host, reg: Registry, reg': Registry, a: seq<PropertyEntry>,
                                          b: seq<PropertyEntry>, fields: Fields, depth: nat)
    requires SameDefs(reg, reg') && Shuffled(a, b) && Calm(host, reg, a, fields, depth)
    ensures Walk(host, reg, a, fields, depth) == Walk(host, reg', b, fields, depth)
    decreases Height(depth), 3
  {
    if depth <= MAX_SANITIZE_DEPTH {
      forall entry | entry in a && Present(fields, entry.name)
        ensures FieldAfter(host, reg, entry, fields, depth) == FieldAfter(host, reg', entry, fields, depth)
      {
        ValueInAnyOrder(host, reg, reg', entry.property, fields[entry.name], depth);
      }
      if RequiredMet(host, a, fields) {
        MetInAnyOrder(host, reg', a, b, fields, depth);
        MetInAnyRegistry(host, reg, reg', a, fields, depth);
      } else {
        UnmetInAnyOrder(host, reg, reg', a, b, fields, depth);
      }
    }
  }

  lemma MetInAnyRegistry(host: Host, reg: Registry, reg': Registry, props: seq<PropertyEntry>, fields: Fields,
                         depth: nat)
    requires depth <= MAX_SANITIZE_DEPTH && DistinctNames(props) && RequiredMet(host, props, fields)
    requires forall entry | entry in props && Present(fields, entry.name) ::
               FieldAfter(host, reg, entry, fields, depth) == FieldAfter(host, reg', entry, fields, depth)
    ensures WalkFrom(host, reg, props, fields, depth) == WalkFrom(host, reg', props, fields, depth)
  {
    WalkMeets(host, reg, props, fields, depth);
    WalkMeets(host, reg', props, fields, depth);
    var r, t := WalkFrom(host, reg, props, fields, depth), WalkFrom(host, reg', props, fields, depth);
    forall name | name in fields ensures r.fields[name] == t.fields[name] {
      if i :| 0 <= i < |props| && props[i].name == name {
        assert props[i] in props;
        assert FieldDone(host, reg, props[i], fields, r.fields, depth);
        assert FieldDone(host, reg', props[i], fields, t.fields, depth);
        NullStaysNull(host, reg, props, fields, name, i, depth);
        NullStaysNull(host, reg', props, fields, name, i, depth);
      }
    }
  }

  lemma UnmetInAnyOrder(host: Host, reg: Registry, reg': Registry, a: seq<PropertyEntry>, b: seq<PropertyEntry>,
                        fields: Fields, depth: nat)
    requires depth <= MAX_SANITIZE_DEPTH && Shuffled(a, b) && !RequiredMet(host, a, fields)
    requires forall entry | entry in a :: Unchanged(host, reg, entry, fields, depth)
    requires forall entry | entry in a && Present(fields, entry.name) ::
               FieldAfter(host, reg, entry, fields, depth) == FieldAfter(host, reg', entry, fields, depth)
    ensures WalkFrom(host, reg, a, fields, depth) == WalkFrom(host, reg', b, fields, depth)
  {
    forall entry | entry in b ensures Unchanged(host, reg', entry, fields, depth) {
      assert entry in a && Unchanged(host, reg, entry, fields, depth);
    }
    NothingChanges(host, reg, a, fields, depth);
    NothingChanges(host, reg', b, fields, depth);
    WalkMeets(host, reg, a, fields, depth);
    WalkMeets(host, reg', b, fields, depth);
    ShuffledRequirements(host, b, a, fields);
  }

  lemma {:induction false} ValueInAnyOrder(host: Host, reg: Registry, reg': Registry, p: Property, v: Json, depth: nat)
    requires SameDefs(reg, reg') && depth <= MAX_SANITIZE_DEPTH && !v.JNull? && CalmValue(host, reg, p, v, depth)
    ensures NewValue(host, reg, p, v, depth) == NewValue(host, reg', p, v, depth)
    decreases Height(depth), 2
  {
    if !p.required {
      if p.kind == "array" {
        if v.JArr? {
          ItemsInAnyOrder(host, reg, reg', p.items, CutItems(p, v.items), depth);
        }
        assert NewArray(host, reg, p, v, depth) == NewArray(host, reg', p, v, depth);
      } else if p.kind == "ref" {
        SameResolved(reg, reg', p.ref);
        if v.JObj? {
          ObjectInAnyOrder(host, reg, reg', reg.Resolve(p.ref), reg'.Resolve(p.ref), v.fields, depth);
        }
        assert NewRef(host, reg, p, v, depth) == NewRef(host, reg', p, v, depth);
      } else if p.kind == "union" {
        if v.JObj? {
          SameBranch(reg, reg', p.refs, v.fields);
          ObjectInAnyOrder(host, reg, reg', Branch(reg, p.refs, v.fields), Branch(reg', p.refs, v.fields), v.fields,
                           depth);
        }
        assert NewUnion(host, reg, p, v, depth) == NewUnion(host, reg', p, v, depth);
      } else {
        assert NewOptional(host, reg, p, v, depth) ==
               if IsText(p) then NewString(host, p, v) else if TypeOk(host, v, p.kind) then v else JNull;
        assert NewOptional(host, reg', p, v, depth) == NewOptional(host, reg, p, v, depth);
      }
    }
  }

  lemma SameBranch(reg: Registry, reg': Registry, refs: seq<string>, fields: Fields)
    requires SameDefs(reg, reg')
    ensures SameDef(Branch(reg, refs, fields), Branch(reg', refs, fields))
  {
    if "$type" in fields && fields["$type"].JStr? {
      SameResolved(reg, reg', fields["$type"].s);
    }
  }

  lemma {:induction false} ObjectInAnyOrder(host: Host, reg: Registry, reg': Registry,
                                            def: Option<seq<PropertyEntry>>, def': Option<seq<PropertyEntry>>,
                                            fields: Fields, depth: nat)
    requires SameDefs(reg, reg') && SameDef(def, def') && depth <= MAX_SANITIZE_DEPTH
    requires CalmObject(host, reg, def, fields, depth)
    ensures NewObject(host, reg, def, fields, depth) == NewObject(host, reg', def', fields, depth)
    decreases Height(depth), 0
  {
    if def.Some? {
      CalmInAnyOrder(host, reg, reg', def.value, def'.value, fields, depth + 1);
    }
  }

  lemma {:induction false} ItemsInAnyOrder(host: Host, reg: Registry, reg': Registry, items: Option<ArrayItems>,
                                           arr: seq<Json>, depth: nat)
    requires SameDefs(reg, reg') && depth <= MAX_SANITIZE_DEPTH
    requires forall item | item in arr :: CalmItem(host, reg, items, item, depth)
    ensures NewItems(host, reg, items, arr, depth) == NewItems(host, reg', items, arr, depth)
    decreases Height(depth), 1
  {
    if ItemDef(reg, items).Some? {
      SameResolved(reg, reg', items.value.ref);
      var def, def' := ItemDef(reg, items).value, ItemDef(reg', items).value;
      forall i | 0 <= i < |arr|
        ensures NewItem(host, reg, def, arr[i], depth) == NewItem(host, reg', def', arr[i], depth)
      {
        assert arr[i] in arr && CalmItem(host, reg, items, arr[i], depth);
        ItemInAnyOrder(host, reg, reg', def, def', arr[i], depth);
      }
    } else if items.Some? {
      SameResolved(reg, reg', items.value.ref);
    }
  }

  lemma {:induction false} ItemInAnyOrder(host: Host, reg: Registry, reg': Registry, def: seq<PropertyEntry>,
                                          def': seq<PropertyEntry>, item: Json, depth: nat)
    requires SameDefs(reg, reg') && depth <= MAX_SANITIZE_DEPTH && Shuffled(def, def')
    requires item.JObj? && RequiredMet(host, def, item.fields) ==> Calm(host, reg, def, item.fields, depth + 1)
    ensures NewItem(host, reg, def, item, depth) == NewItem(host, reg', def', item, depth)
    decreases Height(depth), 0
  {
    if item.JObj? {
      ShuffledRequirements(host, def, def', item.fields);
      ShuffledRequirements(host, def', def, item.fields);
      if RequiredMet(host, def, item.fields) {
        CalmInAnyOrder(host, reg, reg', def, def', item.fields, depth + 1);
      } else if depth + 1 <= MAX_SANITIZE_DEPTH {
        WalkMeets(host, reg, def, item.fields, depth + 1);
        WalkMeets(host, reg', def', item.fields, depth + 1);
      }
    }
  }

  // A record that the walk can mend is calm.
  lemma {:induction false} MendedIsCalm(host: Host, reg: Registry, props: seq<PropertyEntry>, fields: Fields,
                                        depth: nat)
    requires AllMend(host, reg, props, fields, depth)
    ensures Calm(host, reg, props, fields, depth)
    decreases Height(depth), 2
  {
    if depth <= MAX_SANITIZE_DEPTH {
      forall entry | entry in props && Present(fields, entry.name)
        ensures CalmValue(host, reg, entry.property, fields[entry.name], depth)
      {
        var i :| 0 <= i < |props| && props[i] == entry;
        assert PropertyMends(host, reg, props[i], fields, depth);
        MendedValueIsCalm(host, reg, entry.property, fields[entry.name], depth);
      }
    }
  }

  lemma {:induction false} MendedValueIsCalm(host: Host, reg: Registry, p: Property, v: Json, depth: nat)
    requires depth <= MAX_SANITIZE_DEPTH && Mends(host, reg, p, v, depth)
    ensures CalmValue(host, reg, p, v, depth)
    decreases Height(depth), 1
  {
    if !p.required {
      if p.kind == "array" {
        if v.JArr? {
          var arr := CutItems(p, v.items);
          forall item | item in arr ensures CalmItem(host, reg, p.items, item, depth) {
            var i :| 0 <= i < |arr| && arr[i] == item;
            assert ItemMends(host, reg, p.items, arr[i], depth);
            if item.JObj? && ItemDef(reg, p.items).Some?
               && RequiredMet(host, ItemDef(reg, p.items).value, item.fields) {
              MendedIsCalm(host, reg, ItemDef(reg, p.items).value, item.fields, depth + 1);
            }
          }
        }
      } else if p.kind == "ref" {
        if reg.Resolve(p.ref).Some? {
          MendedIsCalm(host, reg, reg.Resolve(p.ref).value, v.fields, depth + 1);
        }
      } else if p.kind == "union" {
        if Branch(reg, p.refs, v.fields).Some? {
          MendedIsCalm(host, reg, Branch(reg, p.refs, v.fields).value, v.fields, depth + 1);
        }
      }
    }
  }
}
