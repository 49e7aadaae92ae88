/**
 The orders that tell whether a record depends on the order of its definitions: one
 that lists what is optional first, so that the walk gets to it, and one that leads
 with an unmet requirement, so that it gets to nothing.
 */
module SchemaOrderMatters {
  import opened Wrappers
  import opened Json
  import Utf8
  import opened RecordRules
  import opened SanitizedRecords
  import opened SchemaOrder

  datatype Order = OptionalFirst(next: Option<PropertyEntry>) | Leading(entry: PropertyEntry)

  // ---------- arranging a definition ----------

  function Pick(props: seq<PropertyEntry>, required: bool): (r: seq<PropertyEntry>)
    ensures forall entry :: entry in r <==> entry in props && entry.property.required == required
  {
    if props == [] then []
    else (if props[0].property.required == required then [props[0]] else []) + Pick(props[1..], required)
  }

  function Others(props: seq<PropertyEntry>, entry: PropertyEntry): (r: seq<PropertyEntry>)
    ensures forall other :: other in r <==> other in props && other != entry
  {
    if props == [] then [] else (if props[0] == entry then [] else [props[0]]) + Others(props[1..], entry)
  }

  function Front(props: seq<PropertyEntry>, entry: PropertyEntry): seq<PropertyEntry> {
    if entry in props then [entry] + Others(props, entry) else props
  }

  function Arrange(o: Order, props: seq<PropertyEntry>): seq<PropertyEntry> {
    match o
    case OptionalFirst(None) => Pick(props, false) + Pick(props, true)
    case OptionalFirst(Some(next)) => Pick(props, false) + Front(Pick(props, true), next)
    case Leading(entry) => Front(props, entry)
  }

  lemma DistinctConcat(a: seq<PropertyEntry>, b: seq<PropertyEntry>)
    requires DistinctNames(a) && DistinctNames(b) && forall x, y | x in a && y in b :: x.name != y.name
    ensures DistinctNames(a + b)
  {
  }

  lemma SameNameSameEntry(props: seq<PropertyEntry>, x: PropertyEntry, y: PropertyEntry)
    requires DistinctNames(props) && x in props && y in props && x.name == y.name
    ensures x == y
  {
  }

  lemma DistinctTail(props: seq<PropertyEntry>)
    requires props != [] && DistinctNames(props)
    ensures DistinctNames(props[1..]) && forall x | x in props[1..] :: x.name != props[0].name
  {
  }

  lemma {:induction false} PickDistinct(props: seq<PropertyEntry>, required: bool)
    requires DistinctNames(props)
    ensures DistinctNames(Pick(props, required))
  {
    if props != [] {
      DistinctTail(props);
      PickDistinct(props[1..], required);
      DistinctConcat(if props[0].property.required == required then [props[0]] else [], Pick(props[1..], required));
    }
  }

  lemma {:induction false} OthersDistinct(props: seq<PropertyEntry>, entry: PropertyEntry)
    requires DistinctNames(props)
    ensures DistinctNames(Others(props, entry))
  {
    if props != [] {
      DistinctTail(props);
      OthersDistinct(props[1..], entry);
      DistinctConcat(if props[0] == entry then [] else [props[0]], Others(props[1..], entry));
    }
  }

  lemma FrontShuffles(props: seq<PropertyEntry>, entry: PropertyEntry)
    requires DistinctNames(props)
    ensures Shuffled(props, Front(props, entry))
  {
    if entry in props {
      OthersDistinct(props, entry);
      forall y | y in Others(props, entry) ensures entry.name != y.name {
        if entry.name == y.name {
          SameNameSameEntry(props, entry, y);
        }
      }
      DistinctConcat([entry], Others(props, entry));
    }
  }

  lemma ArrangeShuffles(o: Order, props: seq<PropertyEntry>)
    requires DistinctNames(props)
    ensures Shuffled(props, Arrange(o, props))
  {
    if o.Leading? {
      FrontShuffles(props, o.entry);
    } else {
      var last := if o.next.Some? then Front(Pick(props, true), o.next.value) else Pick(props, true);
      PickDistinct(props, false);
      PickDistinct(props, true);
      if o.next.Some? {
        FrontShuffles(Pick(props, true), o.next.value);
      }
      forall x, y | x in Pick(props, false) && y in last ensures x.name != y.name {
        if x.name == y.name {
          SameNameSameEntry(props, x, y);
        }
      }
      DistinctConcat(Pick(props, false), last);
    }
  }

  // ---------- arranging every definition ----------

  ghost predicate DistinctDefs(reg: Registry) {
    && (forall ref | ref in reg.objects :: DistinctNames(reg.objects[ref]))
    && (forall ref | ref in reg.records :: DistinctNames(reg.records[ref]))
  }

  function Arranged(o: Order, reg: Registry): Registry {
    Registry(map ref | ref in reg.objects :: Arrange(o, reg.objects[ref]),
             map ref | ref in reg.records :: Arrange(o, reg.records[ref]))
  }

  function ArrangedDef(o: Order, def: Option<seq<PropertyEntry>>): Option<seq<PropertyEntry>> {
    if def.Some? then Some(Arrange(o, def.value)) else None
  }

  lemma ArrangedIsSame(o: Order, reg: Registry)
    requires DistinctDefs(reg)
    ensures SameDefs(reg, Arranged(o, reg))
  {
    forall ref | ref in reg.objects ensures Shuffled(reg.objects[ref], Arranged(o, reg).objects[ref]) {
      ArrangeShuffles(o, reg.objects[ref]);
    }
    forall ref | ref in reg.records ensures Shuffled(reg.records[ref], Arranged(o, reg).records[ref]) {
      ArrangeShuffles(o, reg.records[ref]);
    }
  }

  lemma ResolveArranged(o: Order, reg: Registry, ref: string)
    ensures Arranged(o, reg).Resolve(ref) == ArrangedDef(o, reg.Resolve(ref))
    ensures DistinctDefs(reg) && reg.Resolve(ref).Some? ==> DistinctNames(reg.Resolve(ref).value)
  {
  }

  lemma BranchArranged(o: Order, reg: Registry, refs: seq<string>, fields: Fields)
    ensures Branch(Arranged(o, reg), refs, fields) == ArrangedDef(o, Branch(reg, refs, fields))
    ensures DistinctDefs(reg) && Branch(reg, refs, fields).Some? ==> DistinctNames(Branch(reg, refs, fields).value)
  {
    if "$type" in fields && fields["$type"].JStr? {
      ResolveArranged(o, reg, fields["$type"].s);
    }
  }

  function Rewalk(host: Host, o: Order, reg: Registry, props: seq<PropertyEntry>, fields: Fields,
                  depth: nat): Sanitized
  {
    Walk(host, Arranged(o, reg), Arrange(o, props), fields, depth)
  }

  // ---------- what an order gets to ----------

  lemma {:induction false} WalkConcat(host: Host, reg: Registry, a: seq<PropertyEntry>, b: seq<PropertyEntry>,
                                      fields: Fields, depth: nat)
    requires depth <= MAX_SANITIZE_DEPTH
    ensures var r := WalkFrom(host, reg, a, fields, depth);
            WalkFrom(host, reg, a + b, fields, depth)
            == if r.kept then WalkFrom(host, reg, b, r.fields, depth) else r
    decreases |a|
  {
    if a == [] {
      assert a + b == b;
    } else {
      assert (a + b)[1..] == a[1..] + b;
      if !Present(fields, a[0].name) {
        WalkConcat(host, reg, a[1..], b, fields, depth);
      } else if NewValue(host, reg, a[0].property, fields[a[0].name], depth).Some? {
        var v := NewValue(host, reg, a[0].property, fields[a[0].name], depth).value;
        WalkConcat(host, reg, a[1..], b, fields[a[0].name := v], depth);
      }
    }
  }

  // Everything in front is got to when nothing in front is unmet.
  lemma FrontReached(host: Host, reg: Registry, a: seq<PropertyEntry>, b: seq<PropertyEntry>, entry: PropertyEntry,
                     fields: Fields, depth: nat)
    requires depth <= MAX_SANITIZE_DEPTH && DistinctNames(a + b) && entry in a && Present(fields, entry.name)
    requires RequiredMet(host, a, fields)
    ensures entry.name in WalkFrom(host, reg, a + b, fields, depth).fields
    ensures FieldAfter(host, reg, entry, fields, depth)
            == Some(WalkFrom(host, reg, a + b, fields, depth).fields[entry.name])
  {
    var i :| 0 <= i < |a| && a[i] == entry;
    DistinctParts(a, b);
    WalkConcat(host, reg, a, b, fields, depth);
    WalkMeets(host, reg, a, fields, depth);
    var r := WalkFrom(host, reg, a, fields, depth);
    assert FieldDone(host, reg, a[i], fields, r.fields, depth);
    WalkMeets(host, reg, b, r.fields, depth);
    forall j | 0 <= j < |b| ensures b[j].name != entry.name {
      assert (a + b)[i] == entry && (a + b)[|a| + j] == b[j];
    }
  }

  lemma DistinctParts(a: seq<PropertyEntry>, b: seq<PropertyEntry>)
    requires DistinctNames(a + b)
    ensures DistinctNames(a) && DistinctNames(b)
  {
    forall i, j | 0 <= i < j < |a| ensures a[i].name != a[j].name {
      assert (a + b)[i] == a[i] && (a + b)[j] == a[j];
    }
    forall i, j | 0 <= i < j < |b| ensures b[i].name != b[j].name {
      assert (a + b)[|a| + i] == b[i] && (a + b)[|a| + j] == b[j];
    }
  }

  lemma OptionalReached(host: Host, next: Option<PropertyEntry>, reg: Registry, props: seq<PropertyEntry>,
                        entry: PropertyEntry, fields: Fields, depth: nat)
    requires depth <= MAX_SANITIZE_DEPTH && DistinctNames(props)
    requires entry in props && !entry.property.required && Present(fields, entry.name)
    ensures var o := OptionalFirst(next);
            var after := Rewalk(host, o, reg, props, fields, depth).fields;
            entry.name in after
            && FieldAfter(host, Arranged(o, reg), entry, fields, depth) == Some(after[entry.name])
  {
    var o := OptionalFirst(next);
    ArrangeShuffles(o, props);
    var last := if next.Some? then Front(Pick(props, true), next.value) else Pick(props, true);
    assert Arrange(o, props) == Pick(props, false) + last;
    FrontReached(host, Arranged(o, reg), Pick(props, false), last, entry, fields, depth);
  }

  lemma MetByMembers(host: Host, props: seq<PropertyEntry>, fields: Fields)
    requires forall x | x in props && x.property.required ::
               x.name in fields && FieldMet(host, x.property, fields[x.name])
    ensures RequiredMet(host, props, fields)
  {
    forall i | 0 <= i < |props| && props[i].property.required
      ensures props[i].name in fields && FieldMet(host, props[i].property, fields[props[i].name])
    {
      assert props[i] in props;
    }
  }

  lemma RequiredReached(host: Host, reg: Registry, props: seq<PropertyEntry>, entry: PropertyEntry, fields: Fields,
                        depth: nat)
    requires depth <= MAX_SANITIZE_DEPTH && DistinctNames(props)
    requires entry in props && entry.property.required && Present(fields, entry.name)
    requires FieldMet(host, entry.property, fields[entry.name])
    ensures var o := OptionalFirst(Some(entry));
            var after := Rewalk(host, o, reg, props, fields, depth).fields;
            entry.name in after
            && FieldAfter(host, Arranged(o, reg), entry, fields, depth) == Some(after[entry.name])
  {
    var o := OptionalFirst(Some(entry));
    ArrangeShuffles(o, props);
    var front, rest := Pick(props, false) + [entry], Others(Pick(props, true), entry);
    assert Arrange(o, props) == front + rest;
    assert forall x | x in front && x.property.required :: x == entry;
    MetByMembers(host, front, fields);
    FrontReached(host, Arranged(o, reg), front, rest, entry, fields, depth);
  }

  // An unmet requirement in front ends the walk at once.
  lemma LeadingStops(host: Host, reg: Registry, props: seq<PropertyEntry>, entry: PropertyEntry, fields: Fields,
                     depth: nat)
    requires depth <= MAX_SANITIZE_DEPTH && entry in props && entry.property.required
    requires !(entry.name in fields && FieldMet(host, entry.property, fields[entry.name]))
    ensures Rewalk(host, Leading(entry), reg, props, fields, depth).fields == fields
  {
    var props', reg' := Arrange(Leading(entry), props), Arranged(Leading(entry), reg);
    assert props' == [entry] + Others(props, entry) && props'[0] == entry;
    if Present(fields, entry.name) {
      assert NewValue(host, reg', entry.property, fields[entry.name], depth).None?;
    }
    assert WalkFrom(host, reg', props', fields, depth) == Sanitized(false, fields);
  }

  // ---------- an order that changes something ----------

  lemma RefShows(host: Host, reg: Registry, p: Property, v: Json, depth: nat)
    requires depth <= MAX_SANITIZE_DEPTH && p.kind == "ref" && v.JObj?
    ensures NewOptional(host, reg, p, v, depth) == NewObject(host, reg, reg.Resolve(p.ref), v.fields, depth)
  {
    assert NewOptional(host, reg, p, v, depth) == NewRef(host, reg, p, v, depth);
  }

  lemma UnionShows(host: Host, reg: Registry, p: Property, v: Json, depth: nat)
    requires depth <= MAX_SANITIZE_DEPTH && p.kind == "union" && v.JObj?
    ensures NewOptional(host, reg, p, v, depth)
            == NewObject(host, reg, Branch(reg, p.refs, v.fields), v.fields, depth)
  {
    assert NewOptional(host, reg, p, v, depth) == NewUnion(host, reg, p, v, depth);
  }

  lemma RefArranged(host: Host, reg: Registry, o: Order, p: Property, v: Json, depth: nat)
    requires depth <= MAX_SANITIZE_DEPTH && p.kind == "ref" && v.JObj?
    ensures NewOptional(host, Arranged(o, reg), p, v, depth)
            == NewObject(host, Arranged(o, reg), ArrangedDef(o, reg.Resolve(p.ref)), v.fields, depth)
  {
    ResolveArranged(o, reg, p.ref);
    RefShows(host, Arranged(o, reg), p, v, depth);
  }

  lemma UnionArranged(host: Host, reg: Registry, o: Order, p: Property, v: Json, depth: nat)
    requires depth <= MAX_SANITIZE_DEPTH && p.kind == "union" && v.JObj?
    ensures NewOptional(host, Arranged(o, reg), p, v, depth)
            == NewObject(host, Arranged(o, reg), ArrangedDef(o, Branch(reg, p.refs, v.fields)), v.fields, depth)
  {
    BranchArranged(o, reg, p.refs, v.fields);
    UnionShows(host, Arranged(o, reg), p, v, depth);
  }

  // What would change the value in the given order changes it in one that puts the optional first.
  lemma {:induction false} EntryMoves(host: Host, reg: Registry, props: seq<PropertyEntry>, entry: PropertyEntry,
                                      fields: Fields, depth: nat) returns (next: Option<PropertyEntry>)
    requires DistinctDefs(reg) && DistinctNames(props) && depth <= MAX_SANITIZE_DEPTH
    requires entry in props && !Unchanged(host, reg, entry, fields, depth)
    ensures Rewalk(host, OptionalFirst(next), reg, props, fields, depth).fields != fields
    decreases Height(depth), 3
  {
    if entry.property.required {
      next := Some(entry);
      RequiredReached(host, reg, props, entry, fields, depth);
    } else {
      next := ValueMoves(host, reg, entry.property, fields[entry.name], depth);
      OptionalReached(host, next, reg, props, entry, fields, depth);
    }
  }

  lemma {:induction false} ValueMoves(host: Host, reg: Registry, p: Property, v: Json, depth: nat)
    returns (next: Option<PropertyEntry>)
    requires DistinctDefs(reg) && depth <= MAX_SANITIZE_DEPTH && !p.required && !v.JNull?
    requires NewOptional(host, reg, p, v, depth) != v
    ensures NewOptional(host, Arranged(OptionalFirst(next), reg), p, v, depth) != v
    decreases Height(depth), 2
  {
    if p.kind == "array" && v.JArr? {
      next := ItemsMove(host, reg, p, v, depth);
    } else if p.kind == "ref" && v.JObj? {
      next := ObjectMoves(host, reg, reg.Resolve(p.ref), v.fields, depth);
      RefShows(host, reg, p, v, depth);
      RefArranged(host, reg, OptionalFirst(next), p, v, depth);
    } else if p.kind == "union" && v.JObj? {
      BranchArranged(OptionalFirst(None), reg, p.refs, v.fields);
      next := ObjectMoves(host, reg, Branch(reg, p.refs, v.fields), v.fields, depth);
      UnionShows(host, reg, p, v, depth);
      UnionArranged(host, reg, OptionalFirst(next), p, v, depth);
    } else {
      next := None;
      FlatInAnyRegistry(host, reg, Arranged(OptionalFirst(None), reg), p, v, depth);
    }
  }

  // A value that holds nothing the walk looks into.
  lemma FlatInAnyRegistry(host: Host, reg: Registry, reg': Registry, p: Property, v: Json, depth: nat)
    requires depth <= MAX_SANITIZE_DEPTH
    requires p.kind == "array" ==> !v.JArr?
    requires p.kind == "ref" || p.kind == "union" ==> !v.JObj?
    ensures NewOptional(host, reg, p, v, depth) == NewOptional(host, reg', p, v, depth)
  {
    if p.kind == "array" {
      assert NewArray(host, reg, p, v, depth) == NewArray(host, reg', p, v, depth);
    } else if p.kind == "ref" {
      assert NewRef(host, reg, p, v, depth) == NewRef(host, reg', p, v, depth);
    } else if p.kind == "union" {
      assert NewUnion(host, reg, p, v, depth) == NewUnion(host, reg', p, v, depth);
    }
  }

  lemma {:induction false} ObjectMoves(host: Host, reg: Registry, def: Option<seq<PropertyEntry>>, fields: Fields,
                                       depth: nat) returns (next: Option<PropertyEntry>)
    requires DistinctDefs(reg) && depth <= MAX_SANITIZE_DEPTH && (def.Some? ==> DistinctNames(def.value))
    requires NewObject(host, reg, def, fields, depth) != JObj(fields)
    ensures var o := OptionalFirst(next);
            NewObject(host, Arranged(o, reg), ArrangedDef(o, def), fields, depth) != JObj(fields)
    decreases Height(depth), 0
  {
    next := FieldsMove(host, reg, def.value, fields, depth + 1);
  }

  lemma {:induction false} FieldsMove(host: Host, reg: Registry, def: seq<PropertyEntry>, fields: Fields, depth: nat)
    returns (next: Option<PropertyEntry>)
    requires DistinctDefs(reg) && DistinctNames(def) && Walk(host, reg, def, fields, depth).fields != fields
    ensures Rewalk(host, OptionalFirst(next), reg, def, fields, depth).fields != fields
    decreases Height(depth), 4
  {
    if forall entry | entry in def :: Unchanged(host, reg, entry, fields, depth) {
      NothingChanges(host, reg, def, fields, depth);
    }
    var entry :| entry in def && !Unchanged(host, reg, entry, fields, depth);
    next := EntryMoves(host, reg, def, entry, fields, depth);
  }

  lemma {:induction false} ItemsMove(host: Host, reg: Registry, p: Property, v: Json, depth: nat)
    returns (next: Option<PropertyEntry>)
    requires DistinctDefs(reg) && depth <= MAX_SANITIZE_DEPTH && p.kind == "array" && v.JArr?
    requires NewOptional(host, reg, p, v, depth) != v
    ensures NewOptional(host, Arranged(OptionalFirst(next), reg), p, v, depth) != v
    decreases Height(depth), 1
  {
    var arr, def := CutItems(p, v.items), ItemDef(reg, p.items);
    var out := NewItems(host, reg, p.items, arr, depth);
    assert NewOptional(host, reg, p, v, depth) == JArr(out);
    next := None;
    if def.Some? && |arr| == |v.items| {
      ResolveArranged(OptionalFirst(None), reg, p.items.value.ref);
      var i :| 0 <= i < |arr| && out[i] != arr[i];
      next := ItemMoves(host, reg, def.value, arr[i], depth);
      ItemsDiffer(host, reg, OptionalFirst(next), p, v, i, depth);
    } else {
      assert |arr| != |v.items|;
      var reg' := Arranged(OptionalFirst(None), reg);
      assert NewOptional(host, reg', p, v, depth) == JArr(NewItems(host, reg', p.items, arr, depth));
    }
  }

  // One item of the array that the walk leaves.
  lemma ItemShows(host: Host, reg: Registry, p: Property, v: Json, i: nat, depth: nat)
    requires depth <= MAX_SANITIZE_DEPTH && p.kind == "array" && v.JArr? && i < |CutItems(p, v.items)|
    requires ItemDef(reg, p.items).Some?
    ensures var out := NewOptional(host, reg, p, v, depth);
            && out.JArr? && i < |out.items|
            && out.items[i] == NewItem(host, reg, ItemDef(reg, p.items).value, v.items[i], depth)
  {
    var arr := CutItems(p, v.items);
    assert NewOptional(host, reg, p, v, depth) == JArr(NewItems(host, reg, p.items, arr, depth));
    assert arr[i] == v.items[i];
  }

  lemma ItemsDiffer(host: Host, reg: Registry, o: Order, p: Property, v: Json, i: nat, depth: nat)
    requires depth <= MAX_SANITIZE_DEPTH && p.kind == "array" && v.JArr? && i < |CutItems(p, v.items)|
    requires ItemDef(reg, p.items).Some?
    requires NewItem(host, Arranged(o, reg), Arrange(o, ItemDef(reg, p.items).value), v.items[i], depth) != v.items[i]
    ensures NewOptional(host, Arranged(o, reg), p, v, depth) != v
  {
    ResolveArranged(o, reg, p.items.value.ref);
    ItemShows(host, Arranged(o, reg), p, v, i, depth);
  }

  lemma {:induction false} ItemMoves(host: Host, reg: Registry, def: seq<PropertyEntry>, item: Json, depth: nat)
    returns (next: Option<PropertyEntry>)
    requires DistinctDefs(reg) && DistinctNames(def) && depth <= MAX_SANITIZE_DEPTH
    requires NewItem(host, reg, def, item, depth) != item
    ensures var o := OptionalFirst(next);
            NewItem(host, Arranged(o, reg), Arrange(o, def), item, depth) != item
    decreases Height(depth), 0
  {
    if Walk(host, reg, def, item.fields, depth + 1).kept {
      next := FieldsMove(host, reg, def, item.fields, depth + 1);
    } else {
      next := None;
      KeptInAnyOrder(host, reg, OptionalFirst(None), def, item.fields, depth + 1);
    }
  }

  lemma KeptInAnyOrder(host: Host, reg: Registry, o: Order, props: seq<PropertyEntry>, fields: Fields, depth: nat)
    requires DistinctNames(props)
    ensures Rewalk(host, o, reg, props, fields, depth).kept <==> Walk(host, reg, props, fields, depth).kept
  {
    ArrangeShuffles(o, props);
    KeptIff(host, reg, props, fields, depth);
    KeptIff(host, Arranged(o, reg), Arrange(o, props), fields, depth);
    ShuffledRequirements(host, props, Arrange(o, props), fields);
    ShuffledRequirements(host, Arrange(o, props), props, fields);
  }

  // Whatever is not calm is changed by some order.
  lemma {:induction false} RestlessMoves(host: Host, reg: Registry, props: seq<PropertyEntry>, fields: Fields,
                                         depth: nat) returns (next: Option<PropertyEntry>)
    requires DistinctDefs(reg) && DistinctNames(props) && !Calm(host, reg, props, fields, depth)
    ensures Rewalk(host, OptionalFirst(next), reg, props, fields, depth).fields != fields
    decreases Height(depth), 3
  {
    if entry :| entry in props && Present(fields, entry.name)
                && !CalmValue(host, reg, entry.property, fields[entry.name], depth) {
      next := RestlessValueMoves(host, reg, entry.property, fields[entry.name], depth);
      OptionalReached(host, next, reg, props, entry, fields, depth);
    } else {
      var entry :| entry in props && !Unchanged(host, reg, entry, fields, depth);
      next := EntryMoves(host, reg, props, entry, fields, depth);
    }
  }

  lemma {:induction false} RestlessValueMoves(host: Host, reg: Registry, p: Property, v: Json, depth: nat)
    returns (next: Option<PropertyEntry>)
    requires DistinctDefs(reg) && depth <= MAX_SANITIZE_DEPTH && !CalmValue(host, reg, p, v, depth)
    ensures NewOptional(host, Arranged(OptionalFirst(next), reg), p, v, depth) != v
    decreases Height(depth), 2
  {
    if p.kind == "array" {
      next := RestlessItemsMove(host, reg, p, v, depth);
    } else if p.kind == "ref" {
      ResolveArranged(OptionalFirst(None), reg, p.ref);
      next := RestlessObjectMoves(host, reg, reg.Resolve(p.ref), v.fields, depth);
      RefArranged(host, reg, OptionalFirst(next), p, v, depth);
    } else {
      BranchArranged(OptionalFirst(None), reg, p.refs, v.fields);
      next := RestlessObjectMoves(host, reg, Branch(reg, p.refs, v.fields), v.fields, depth);
      UnionArranged(host, reg, OptionalFirst(next), p, v, depth);
    }
  }

  // An item that is not calm, and so meets its requirements.
  lemma RestlessItem(host: Host, reg: Registry, p: Property, v: Json, depth: nat) returns (i: nat)
    requires depth <= MAX_SANITIZE_DEPTH && p.kind == "array" && !CalmValue(host, reg, p, v, depth)
    ensures v.JArr? && i < |CutItems(p, v.items)| && v.items[i].JObj? && ItemDef(reg, p.items).Some?
    ensures var def := ItemDef(reg, p.items).value;
            && RequiredMet(host, def, v.items[i].fields) && !Calm(host, reg, def, v.items[i].fields, depth + 1)
            && (DistinctDefs(reg) ==> DistinctNames(def))
  {
    var arr := CutItems(p, v.items);
    var item :| item in arr && !CalmItem(host, reg, p.items, item, depth);
    i :| 0 <= i < |arr| && arr[i] == item;
    ResolveArranged(OptionalFirst(None), reg, p.items.value.ref);
  }

  lemma {:induction false} RestlessItemsMove(host: Host, reg: Registry, p: Property, v: Json, depth: nat)
    returns (next: Option<PropertyEntry>)
    requires DistinctDefs(reg) && depth <= MAX_SANITIZE_DEPTH && p.kind == "array"
    requires !CalmValue(host, reg, p, v, depth)
    ensures NewOptional(host, Arranged(OptionalFirst(next), reg), p, v, depth) != v
    decreases Height(depth), 1
  {
    var i := RestlessItem(host, reg, p, v, depth);
    next := RestlessMoves(host, reg, ItemDef(reg, p.items).value, v.items[i].fields, depth + 1);
    ItemsDiffer(host, reg, OptionalFirst(next), p, v, i, depth);
  }

  lemma {:induction false} RestlessObjectMoves(host: Host, reg: Registry, def: Option<seq<PropertyEntry>>,
                                               fields: Fields, depth: nat) returns (next: Option<PropertyEntry>)
    requires DistinctDefs(reg) && depth <= MAX_SANITIZE_DEPTH && (def.Some? ==> DistinctNames(def.value))
    requires !CalmObject(host, reg, def, fields, depth)
    ensures var o := OptionalFirst(next);
            NewObject(host, Arranged(o, reg), ArrangedDef(o, def), fields, depth) != JObj(fields)
    decreases Height(depth), 0
  {
    next := RestlessMoves(host, reg, def.value, fields, depth + 1);
  }

  // ---------- two orders that differ ----------

  lemma {:induction false} RestlessDiffers(host: Host, reg: Registry, props: seq<PropertyEntry>, fields: Fields,
                                           depth: nat) returns (o: Order, o': Order)
    requires DistinctDefs(reg) && DistinctNames(props) && !Calm(host, reg, props, fields, depth)
    ensures Rewalk(host, o, reg, props, fields, depth).fields != Rewalk(host, o', reg, props, fields, depth).fields
    decreases Height(depth), 3
  {
    if RequiredMet(host, props, fields) {
      var entry :| entry in props && Present(fields, entry.name)
                   && !CalmValue(host, reg, entry.property, fields[entry.name], depth);
      o, o' := RestlessValueDiffers(host, reg, entry.property, fields[entry.name], depth);
      MetReached(host, o, reg, props, entry, fields, depth);
      MetReached(host, o', reg, props, entry, fields, depth);
    } else {
      var next := RestlessMoves(host, reg, props, fields, depth);
      var i :| 0 <= i < |props| && props[i].property.required
               && !(props[i].name in fields && FieldMet(host, props[i].property, fields[props[i].name]));
      o, o' := OptionalFirst(next), Leading(props[i]);
      LeadingStops(host, reg, props, props[i], fields, depth);
    }
  }

  // Where the requirements are met every order gets to everything.
  lemma MetReached(host: Host, o: Order, reg: Registry, props: seq<PropertyEntry>, entry: PropertyEntry,
                   fields: Fields, depth: nat)
    requires depth <= MAX_SANITIZE_DEPTH && DistinctNames(props) && RequiredMet(host, props, fields)
    requires entry in props && Present(fields, entry.name)
    ensures var after := Rewalk(host, o, reg, props, fields, depth).fields;
            entry.name in after
            && FieldAfter(host, Arranged(o, reg), entry, fields, depth) == Some(after[entry.name])
  {
    ArrangeShuffles(o, props);
    ShuffledRequirements(host, props, Arrange(o, props), fields);
    assert Arrange(o, props) + [] == Arrange(o, props);
    FrontReached(host, Arranged(o, reg), Arrange(o, props), [], entry, fields, depth);
  }

  lemma {:induction false} RestlessValueDiffers(host: Host, reg: Registry, p: Property, v: Json, depth: nat)
    returns (o: Order, o': Order)
    requires DistinctDefs(reg) && depth <= MAX_SANITIZE_DEPTH && !CalmValue(host, reg, p, v, depth)
    ensures NewValue(host, Arranged(o, reg), p, v, depth) != NewValue(host, Arranged(o', reg), p, v, depth)
    decreases Height(depth), 2
  {
    if p.kind == "array" {
      o, o' := RestlessItemsDiffer(host, reg, p, v, depth);
    } else if p.kind == "ref" {
      ResolveArranged(OptionalFirst(None), reg, p.ref);
      o, o' := RestlessObjectDiffers(host, reg, reg.Resolve(p.ref), v.fields, depth);
      RefArranged(host, reg, o, p, v, depth);
      RefArranged(host, reg, o', p, v, depth);
    } else {
      BranchArranged(OptionalFirst(None), reg, p.refs, v.fields);
      o, o' := RestlessObjectDiffers(host, reg, Branch(reg, p.refs, v.fields), v.fields, depth);
      UnionArranged(host, reg, o, p, v, depth);
      UnionArranged(host, reg, o', p, v, depth);
    }
  }

  lemma {:induction false} RestlessObjectDiffers(host: Host, reg: Registry, def: Option<seq<PropertyEntry>>,
                                                 fields: Fields, depth: nat) returns (o: Order, o': Order)
    requires DistinctDefs(reg) && depth <= MAX_SANITIZE_DEPTH && (def.Some? ==> DistinctNames(def.value))
    requires !CalmObject(host, reg, def, fields, depth)
    ensures NewObject(host, Arranged(o, reg), ArrangedDef(o, def), fields, depth)
            != NewObject(host, Arranged(o', reg), ArrangedDef(o', def), fields, depth)
    decreases Height(depth), 0
  {
    o, o' := RestlessDiffers(host, reg, def.value, fields, depth + 1);
  }

  lemma {:induction false} RestlessItemsDiffer(host: Host, reg: Registry, p: Property, v: Json, depth: nat)
    returns (o: Order, o': Order)
    requires DistinctDefs(reg) && depth <= MAX_SANITIZE_DEPTH && p.kind == "array"
    requires !CalmValue(host, reg, p, v, depth)
    ensures NewOptional(host, Arranged(o, reg), p, v, depth) != NewOptional(host, Arranged(o', reg), p, v, depth)
    decreases Height(depth), 1
  {
    var i := RestlessItem(host, reg, p, v, depth);
    o, o' := RestlessDiffers(host, reg, ItemDef(reg, p.items).value, v.items[i].fields, depth + 1);
    ItemKeptBy(host, reg, o, p, v, i, depth);
    ItemKeptBy(host, reg, o', p, v, i, depth);
  }

  // What an order makes of an item that meets its requirements.
  lemma ItemKeptBy(host: Host, reg: Registry, o: Order, p: Property, v: Json, i: nat, depth: nat)
    requires depth <= MAX_SANITIZE_DEPTH && p.kind == "array" && v.JArr? && i < |CutItems(p, v.items)|
    requires v.items[i].JObj? && ItemDef(reg, p.items).Some? && DistinctNames(ItemDef(reg, p.items).value)
    requires RequiredMet(host, ItemDef(reg, p.items).value, v.items[i].fields)
    ensures var out := NewOptional(host, Arranged(o, reg), p, v, depth);
            && out.JArr? && i < |out.items|
            && out.items[i]
               == JObj(Rewalk(host, o, reg, ItemDef(reg, p.items).value, v.items[i].fields, depth + 1).fields)
  {
    var def := ItemDef(reg, p.items).value;
    ResolveArranged(o, reg, p.items.value.ref);
    KeptIff(host, reg, def, v.items[i].fields, depth + 1);
    KeptInAnyOrder(host, reg, o, def, v.items[i].fields, depth + 1);
    ItemShows(host, Arranged(o, reg), p, v, i, depth);
  }

  // A record comes out the same for every order in which the parser may list its definitions
  // exactly when it is refused, or every object behind a ref or a union meets its requirements
  // or holds nothing that would change.
  lemma SameInAnyOrderIff(host: Host, def: seq<PropertyEntry>, reg: Registry, fields: Fields)
    requires DistinctDefs(reg) && DistinctNames(def)
    ensures (forall reg', def' | SameDefs(reg, reg') && Shuffled(def, def') ::
               SanitizeRecord(host, Some(def'), reg', Record(fields))
               == SanitizeRecord(host, Some(def), reg, Record(fields)))
            <==>
            (RequiredMet(host, def, fields) ==> Calm(host, reg, def, fields, 0))
  {
    KeptIff(host, reg, def, fields, 0);
    if RequiredMet(host, def, fields) && !Calm(host, reg, def, fields, 0) {
      var o, o' := RestlessDiffers(host, reg, def, fields, 0);
      ArrangedSanitizes(host, o, def, reg, fields);
      ArrangedSanitizes(host, o', def, reg, fields);
    } else {
      forall reg', def' | SameDefs(reg, reg') && Shuffled(def, def')
        ensures SanitizeRecord(host, Some(def'), reg', Record(fields))
                == SanitizeRecord(host, Some(def), reg, Record(fields))
      {
        KeptIff(host, reg', def', fields, 0);
        ShuffledRequirements(host, def', def, fields);
        if RequiredMet(host, def, fields) {
          CalmInAnyOrder(host, reg, reg', def, def', fields, 0);
        }
      }
    }
  }

  lemma ArrangedSanitizes(host: Host, o: Order, def: seq<PropertyEntry>, reg: Registry, fields: Fields)
    requires DistinctDefs(reg) && DistinctNames(def) && RequiredMet(host, def, fields)
    ensures SameDefs(reg, Arranged(o, reg)) && Shuffled(def, Arrange(o, def))
    ensures SanitizeRecord(host, Some(Arrange(o, def)), Arranged(o, reg), Record(fields))
            == Some(Rewalk(host, o, reg, def, fields, 0).fields)
  {
    ArrangedIsSame(o, reg);
    ArrangeShuffles(o, def);
    KeptIff(host, reg, def, fields, 0);
    KeptInAnyOrder(host, reg, o, def, fields, 0);
  }

  // It can matter: an object that lacks u shows its t cut, or whole.
  lemma OrderShows(host: Host)
    ensures var u := PropertyEntry("u", Property("string", true, "", [], None, None, None, "", []));
            var t := PropertyEntry("t", Property("string", false, "", [], Some(1), None, None, "", []));
            var def := [PropertyEntry("x", Property("ref", false, "", [], None, None, None, "d", []))];
            var record := Record(map["x" := JObj(map["t" := JStr("ab")])]);
            && SanitizeRecord(host, Some(def), Registry(map["d" := [t, u]], map[]), record)
               == Some(map["x" := JObj(map["t" := JStr("a")])])
            && SanitizeRecord(host, Some(def), Registry(map["d" := [u, t]], map[]), record)
               == Some(map["x" := JObj(map["t" := JStr("ab")])])
  {
    var u := PropertyEntry("u", Property("string", true, "", [], None, None, None, "", []));
    var t := PropertyEntry("t", Property("string", false, "", [], Some(1), None, None, "", []));
    var inner: Fields := map["t" := JStr("ab")];
    var one, two := Registry(map["d" := [t, u]], map[]), Registry(map["d" := [u, t]], map[]);
    assert Utf8.RuneStart('b') && Utf8.CutAt("ab", 1) == 1 && "ab"[..1] == "a";
    assert NewValue(host, one, t.property, inner["t"], 1) == Some(JStr("a"));
    assert [t, u][1..] == [u] && inner["t" := JStr("a")] == map["t" := JStr("a")];
    assert WalkFrom(host, one, [u], map["t" := JStr("a")], 1) == Sanitized(false, map["t" := JStr("a")]);
    assert WalkFrom(host, one, [t, u], inner, 1) == WalkFrom(host, one, [u], map["t" := JStr("a")], 1);
    assert Walk(host, two, [u, t], inner, 1) == Sanitized(false, inner);
    RefOnly(host, one, inner);
    RefOnly(host, two, inner);
  }

  lemma RefOnly(host: Host, reg: Registry, inner: Fields)
    requires "d" in reg.objects
    ensures var def := [PropertyEntry("x", Property("ref", false, "", [], None, None, None, "d", []))];
            SanitizeRecord(host, Some(def), reg, Record(map["x" := JObj(inner)]))
            == Some(map["x" := JObj(Walk(host, reg, reg.objects["d"], inner, 1).fields)])
  {
    var x := Property("ref", false, "", [], None, None, None, "d", []);
    var def, fields := [PropertyEntry("x", x)], map["x" := JObj(inner)];
    var v := NewOptional(host, reg, x, fields["x"], 0);
    RefShows(host, reg, x, fields["x"], 0);
    assert def[1..] == [];
    assert fields["x" := v] == map["x" := v];
    assert NewValue(host, reg, x, fields["x"], 0) == Some(v);
    assert WalkFrom(host, reg, def, fields, 0) == WalkFrom(host, reg, def[1..], map["x" := v], 0);
  }
}
