/** Sanitizing a deserialized record where it lies: maps and arrays are overwritten in place. */
module RecordSanitizer {
  import opened Wrappers
  import opened Json
  import Utf8
  import opened RecordRules

  // A Go interface value.  A slice is the store it looks into and its length.
  datatype LiveValue =
    | VNull
    | VBool(b: bool)
    | VNum(n: real)
    | VStr(s: string)
    | VArr(store: JArray, len: nat)
    | VObj(obj: JObject)

  class JObject {
    var fields: map<string, LiveValue>
    ghost const below: set<object>   // this object and everything it was parsed with
    constructor (fields: map<string, LiveValue>, ghost below: set<object>)
      ensures this.fields == fields && this.below == below + {this}
    {
      this.fields, this.below := fields, below + {this};
    }
  }

  class JArray {
    var items: seq<LiveValue>
    ghost const below: set<object>
    constructor (items: seq<LiveValue>, ghost below: set<object>)
      ensures this.items == items && this.below == below + {this}
    {
      this.items, this.below := items, below + {this};
    }
  }

  ghost function Below(v: LiveValue): set<object> {
    match v
    case VArr(store, _) => store.below
    case VObj(obj) => obj.below
    case _ => {}
  }

  // The value is a tree, as json.Unmarshal builds it: nothing is shared.
  ghost predicate Tree(v: LiveValue)
    reads Below(v)
    decreases Below(v)
  {
    match v
    case VArr(store, len) =>
      && store in store.below && len <= |store.items|
      && (forall i | 0 <= i < |store.items| :: Below(store.items[i]) <= store.below - {store} && Tree(store.items[i]))
      && (forall i, j | 0 <= i < j < |store.items| :: Below(store.items[i]) !! Below(store.items[j]))
    case VObj(obj) =>
      && obj in obj.below
      && (forall k | k in obj.fields :: Below(obj.fields[k]) <= obj.below - {obj} && Tree(obj.fields[k]))
      && (forall k, l | k in obj.fields && l in obj.fields && k != l :: Below(obj.fields[k]) !! Below(obj.fields[l]))
    case _ => true
  }

  ghost function View(v: LiveValue): (j: Json)
    requires Tree(v)
    reads Below(v)
    ensures (j.JNull? <==> v.VNull?) && (j.JArr? <==> v.VArr?) && (j.JObj? <==> v.VObj?)
    ensures v.VArr? ==> |j.items| == v.len
    ensures (j.JStr? <==> v.VStr?) && (v.VStr? ==> j.s == v.s)
    decreases Below(v), 0
  {
    match v
    case VNull => JNull
    case VBool(b) => JBool(b)
    case VNum(n) => JNum(n)
    case VStr(s) => JStr(s)
    case VArr(store, len) => JArr(Views(store.items[..len], store.below - {store}))
    case VObj(obj) => JObj(map k | k in obj.fields :: View(obj.fields[k]))
  }

  ghost function Views(items: seq<LiveValue>, bound: set<object>): (r: seq<Json>)
    requires forall i | 0 <= i < |items| :: Below(items[i]) <= bound && Tree(items[i])
    reads bound
    ensures |r| == |items| && forall i | 0 <= i < |items| :: r[i] == View(items[i])
    decreases bound, 1, |items|
  {
    if items == [] then [] else Views(items[..|items| - 1], bound) + [View(items[|items| - 1])]
  }

  ghost function FieldsOf(obj: JObject): Fields
    requires Tree(VObj(obj))
    reads obj.below
  {
    View(VObj(obj)).fields
  }

  // ---------- building the tree ----------

  // json.Unmarshal of a document: a new tree that shows it.
  method Unmarshal(j: Json) returns (v: LiveValue)
    ensures Tree(v) && fresh(Below(v)) && View(v) == j
    decreases j, 1
  {
    match j
    case JNull => v := VNull;
    case JBool(b) => v := VBool(b);
    case JNum(n) => v := VNum(n);
    case JStr(s) => v := VStr(s);
    case JArr(items) =>
      var values, below := UnmarshalItems(items);
      var store := new JArray(values, below);
      v := VArr(store, |values|);
      assert store.items[..|values|] == values;
    case JObj(_) =>
      var values, below := UnmarshalFields(j);
      var obj := new JObject(values, below);
      v := VObj(obj);
  }

  ghost predicate Apart(v: LiveValue, w: LiveValue) {
    Below(v) !! Below(w)
  }

  method UnmarshalItems(items: seq<Json>) returns (values: seq<LiveValue>, ghost below: set<object>)
    ensures |values| == |items| && fresh(below)
    ensures forall i | 0 <= i < |values| :: Below(values[i]) <= below && Tree(values[i]) && View(values[i]) == items[i]
    ensures forall i, j | 0 <= i < j < |values| :: Apart(values[i], values[j])
    decreases items, 0
  {
    values, below := [], {};
    for k := 0 to |items|
      invariant |values| == k && fresh(below)
      invariant forall i | 0 <= i < k :: Below(values[i]) <= below && Tree(values[i]) && View(values[i]) == items[i]
      invariant forall i, j | 0 <= i < j < k :: Apart(values[i], values[j])
    {
      var v := Unmarshal(items[k]);
      values := values + [v];
      below := below + Below(v);
    }
  }

  ghost predicate Shows(values: map<string, LiveValue>, below: set<object>, fields: Fields)
    reads below
  {
    && values.Keys <= fields.Keys
    && (forall k | k in values :: Below(values[k]) <= below && Tree(values[k]) && View(values[k]) == fields[k])
    && (forall k, l | k in values && l in values && k != l :: Apart(values[k], values[l]))
  }

  lemma ShowsOneMore(values: map<string, LiveValue>, below: set<object>, fields: Fields, key: string, v: LiveValue)
    requires Shows(values, below, fields) && key in fields
    requires Tree(v) && View(v) == fields[key] && Below(v) !! below
    ensures Shows(values[key := v], below + Below(v), fields)
  {
  }

  method UnmarshalFields(doc: Json) returns (values: map<string, LiveValue>, ghost below: set<object>)
    requires doc.JObj?
    ensures values.Keys == doc.fields.Keys && fresh(below) && Shows(values, below, doc.fields)
    decreases doc, 0
  {
    values, below := map[], {};
    var todo := doc.fields.Keys;
    while todo != {}
      invariant todo <= doc.fields.Keys && values.Keys == doc.fields.Keys - todo
      invariant fresh(below) && Shows(values, below, doc.fields)
      decreases |todo|
    {
      var key :| key in todo;
      var v := Unmarshal(doc.fields[key]);
      ShowsOneMore(values, below, doc.fields, key, v);
      values := values[key := v];
      below := below + Below(v);
      todo := todo - {key};
    }
  }

  // ---------- one value ----------

  method TruncateString(host: Host, p: Property, s: string) returns (r: string)
    ensures r == Truncated(host, p, s)
  {
    r := s;
    if p.maxLength.Some? && |s| > p.maxLength.value {
      r := Utf8.TruncateUtf8(s, p.maxLength.value);
    }
    if p.maxGraphemes.Some? && host.clusters(r) > p.maxGraphemes.value {
      r := host.takeClusters(r, p.maxGraphemes.value);
    }
  }

  // checkJSONType on a live value.
  method CheckJSONType(host: Host, v: LiveValue, kind: string) returns (ok: bool)
    requires Tree(v)
    ensures ok == TypeOk(host, View(v), kind)
  {
    match kind
    case "string" => ok := v.VStr?;
    case "integer" => ok := v.VNum? && host.integral(v.n);
    case "boolean" => ok := v.VBool?;
    case "array" => ok := v.VArr?;
    case "ref" => ok := v.VObj?;
    case "union" => ok := v.VObj?;
    case "blob" => ok := v.VObj?;
    case "cid-link" => ok := v.VObj? && "$link" in v.obj.fields;
    case "bytes" => ok := v.VStr?;
    case _ => ok := true;
  }

  // Overwriting one field with a value that holds no more than the old one did.
  method SetField(obj: JObject, name: string, v: LiveValue)
    requires Tree(VObj(obj)) && name in obj.fields && Tree(v) && Below(v) <= Below(obj.fields[name])
    modifies obj
    ensures Tree(VObj(obj)) && FieldsOf(obj) == old(FieldsOf(obj))[name := old(View(v))]
    ensures obj.fields == old(obj.fields)[name := v]
  {
    ghost var before := FieldsOf(obj);
    ShapeHolds(obj);
    ApartAfterSet(obj.fields, obj.below - {obj}, name, v);
    obj.fields := obj.fields[name := v];
    FieldChanged(obj, name, before);
  }

  lemma ShapeHolds(obj: JObject)
    requires Tree(VObj(obj))
    ensures ObjectShape(obj) && FieldsOf(obj).Keys == obj.fields.Keys
    ensures forall k | k in obj.fields :: Tree(obj.fields[k]) && View(obj.fields[k]) == FieldsOf(obj)[k]
  {
  }

  // ---------- the walk ----------

  // `data` is null for a nil map, and so is the result for a record to skip.
  method SanitizeRecord(host: Host, def: Option<seq<PropertyEntry>>, reg: Registry,
                        data: JObject?) returns (r: JObject?)
    requires data != null ==> Tree(VObj(data))
    modifies if data == null then {} else data.below
    ensures data == null ==> r == null
    ensures data != null ==>
            var expected := RecordRules.SanitizeRecord(host, def, reg, Record(old(FieldsOf(data))));
            && Tree(VObj(data)) && r == (if expected.Some? then data else null)
            && (expected.Some? ==> FieldsOf(data) == expected.value)
  {
    if def.None? {
      return data;
    }
    if data == null {
      return null;
    }
    var kept := SanitizeObject(host, reg, def.value, data, 0);
    r := if kept then data else null;
  }

  method SanitizeObject(host: Host, reg: Registry, props: seq<PropertyEntry>, obj: JObject,
                        depth: nat) returns (kept: bool)
    requires Tree(VObj(obj))
    modifies obj.below
    ensures Tree(VObj(obj))
    ensures Sanitized(kept, FieldsOf(obj)) == Walk(host, reg, props, old(FieldsOf(obj)), depth)
    decreases Height(depth), 2
  {
    if depth > MAX_SANITIZE_DEPTH {
      return true;
    }
    ghost var goal := Walk(host, reg, props, FieldsOf(obj), depth);
    assert props[0..] == props;
    for i := 0 to |props|
      invariant Tree(VObj(obj))
      invariant WalkFrom(host, reg, props[i..], FieldsOf(obj), depth) == goal
    {
      assert props[i..][1..] == props[i + 1..];
      var name := props[i].name;
      assert Present(FieldsOf(obj), name) <==> name in obj.fields && !obj.fields[name].VNull?;
      if name !in obj.fields || obj.fields[name].VNull? {
        if props[i].property.required {
          return false;
        }
        continue;
      }
      var ok := SanitizeField(host, reg, props[i].property, obj, name, depth);
      if !ok {
        return false;
      }
    }
    return true;
  }

  // One property whose value is there.
  method SanitizeField(host: Host, reg: Registry, p: Property, obj: JObject, name: string,
                       depth: nat) returns (ok: bool)
    requires depth <= MAX_SANITIZE_DEPTH
    requires Tree(VObj(obj)) && name in obj.fields && !obj.fields[name].VNull?
    modifies obj.below
    ensures Tree(VObj(obj))
    ensures var v := NewValue(host, reg, p, old(FieldsOf(obj))[name], depth);
            && ok == v.Some?
            && FieldsOf(obj) == if ok then old(FieldsOf(obj))[name := v.value] else old(FieldsOf(obj))
    decreases Height(depth), 1
  {
    var val := obj.fields[name];
    var typeOk := CheckJSONType(host, val, p.kind);
    if p.required {
      if !typeOk {
        return false;
      }
      ok := SanitizeRequired(host, p, obj, name);
    } else {
      SanitizeOptional(host, reg, p, obj, name, typeOk, depth);
      ok := true;
    }
  }

  // The switch over an optional property's type.
  method SanitizeOptional(host: Host, reg: Registry, p: Property, obj: JObject, name: string, typeOk: bool,
                          depth: nat)
    requires depth <= MAX_SANITIZE_DEPTH && Tree(VObj(obj)) && name in obj.fields
    requires typeOk == TypeOk(host, FieldsOf(obj)[name], p.kind)
    modifies obj.below
    ensures Tree(VObj(obj))
    ensures FieldsOf(obj) == old(FieldsOf(obj))[name := NewOptional(host, reg, p, old(FieldsOf(obj))[name], depth)]
    decreases Height(depth), 0, 5
  {
    if p.kind == "string" || p.kind == "" {
      SanitizeString(host, p, obj, name);
    } else if p.kind == "array" {
      SanitizeArray(host, reg, p, obj, name, depth);
    } else if p.kind == "ref" {
      SanitizeRef(host, reg, p, obj, name, depth);
    } else if p.kind == "union" {
      SanitizeUnion(host, reg, p, obj, name, depth);
    } else if !typeOk {
      SetField(obj, name, VNull);
    }
  }

  // A required value of the right type.
  method SanitizeRequired(host: Host, p: Property, obj: JObject, name: string) returns (ok: bool)
    requires Tree(VObj(obj)) && name in obj.fields
    modifies obj
    ensures Tree(VObj(obj))
    ensures var v := old(FieldsOf(obj))[name];
            && ok == (v.JStr? ==> FormatOk(host, p, v.s) && EnumOk(p, v.s))
            && FieldsOf(obj) == if ok && v.JStr? then old(FieldsOf(obj))[name := JStr(Truncated(host, p, v.s))]
                                else old(FieldsOf(obj))
  {
    var val := obj.fields[name];
    if val.VStr? {
      if !FormatOk(host, p, val.s) || !EnumOk(p, val.s) {
        return false;
      }
      var t := TruncateString(host, p, val.s);
      SetField(obj, name, VStr(t));
    }
    return true;
  }

  method SanitizeRef(host: Host, reg: Registry, p: Property, obj: JObject, name: string, depth: nat)
    requires depth <= MAX_SANITIZE_DEPTH && Tree(VObj(obj)) && name in obj.fields
    modifies obj.below
    ensures Tree(VObj(obj))
    ensures FieldsOf(obj) == old(FieldsOf(obj))[name := NewRef(host, reg, p, old(FieldsOf(obj))[name], depth)]
    decreases Height(depth), 0, 2
  {
    var val := obj.fields[name];
    if val.VObj? {
      ghost var before := FieldsOf(obj);
      SanitizeRefObject(host, reg, p.ref, val.obj, depth);
      FieldChanged(obj, name, before);
    }
  }

  method SanitizeUnion(host: Host, reg: Registry, p: Property, obj: JObject, name: string, depth: nat)
    requires depth <= MAX_SANITIZE_DEPTH && Tree(VObj(obj)) && name in obj.fields
    modifies obj.below
    ensures Tree(VObj(obj))
    ensures FieldsOf(obj) == old(FieldsOf(obj))[name := NewUnion(host, reg, p, old(FieldsOf(obj))[name], depth)]
    decreases Height(depth), 0, 2
  {
    var val := obj.fields[name];
    if val.VObj? {
      ghost var before := FieldsOf(obj);
      SanitizeUnionObject(host, reg, p.refs, val.obj, depth);
      FieldChanged(obj, name, before);
    }
  }

  method SanitizeString(host: Host, p: Property, obj: JObject, name: string)
    requires Tree(VObj(obj)) && name in obj.fields
    modifies obj
    ensures Tree(VObj(obj))
    ensures FieldsOf(obj) == old(FieldsOf(obj))[name := NewString(host, p, old(FieldsOf(obj))[name])]
  {
    var val := obj.fields[name];
    if !val.VStr? || !FormatOk(host, p, val.s) || !EnumOk(p, val.s) {
      SetField(obj, name, VNull);
      return;
    }
    var t := TruncateString(host, p, val.s);
    SetField(obj, name, VStr(t));
  }

  method SanitizeArray(host: Host, reg: Registry, p: Property, obj: JObject, name: string, depth: nat)
    requires depth <= MAX_SANITIZE_DEPTH && Tree(VObj(obj)) && name in obj.fields
    modifies obj.below
    ensures Tree(VObj(obj))
    ensures FieldsOf(obj) == old(FieldsOf(obj))[name := NewArray(host, reg, p, old(FieldsOf(obj))[name], depth)]
    decreases Height(depth), 0, 4
  {
    if !obj.fields[name].VArr? {
      SetField(obj, name, VNull);
    } else {
      SanitizeSlice(host, reg, p, obj, name, depth);
    }
  }

  method SanitizeSlice(host: Host, reg: Registry, p: Property, obj: JObject, name: string, depth: nat)
    requires depth <= MAX_SANITIZE_DEPTH && Tree(VObj(obj)) && name in obj.fields && obj.fields[name].VArr?
    modifies obj.below
    ensures Tree(VObj(obj))
    ensures var arr := CutItems(p, old(FieldsOf(obj))[name].items);
            FieldsOf(obj) == old(FieldsOf(obj))[name := JArr(NewItems(host, reg, p.items, arr, depth))]
    decreases Height(depth), 0, 3
  {
    ghost var before := FieldsOf(obj);
    ghost var arr := CutItems(p, before[name].items);
    Shorten(p, obj, name);
    if p.items.Some? {
      SanitizeArrayField(host, reg, p.items.value, obj, name, depth);
      Overwrite(before, name, JArr(arr), JArr(NewItems(host, reg, p.items, arr, depth)));
    }
  }

  lemma Overwrite(fields: Fields, name: string, v: Json, w: Json)
    ensures fields[name := v][name := w] == fields[name := w] && fields[name := v][name] == v
  {
  }

  method SanitizeArrayField(host: Host, reg: Registry, items: ArrayItems, obj: JObject, name: string, depth: nat)
    requires depth <= MAX_SANITIZE_DEPTH
    requires Tree(VObj(obj)) && name in obj.fields && obj.fields[name].VArr?
    modifies obj.below
    ensures Tree(VObj(obj))
    ensures var arr := old(FieldsOf(obj))[name].items;
            FieldsOf(obj) == old(FieldsOf(obj))[name := JArr(NewItems(host, reg, Some(items), arr, depth))]
    decreases Height(depth), 0, 2
  {
    ghost var before := FieldsOf(obj);
    SanitizeArrayItems(host, reg, items, obj.fields[name].store, obj.fields[name].len, depth);
    FieldChanged(obj, name, before);
  }

  // arr = arr[:maxLength]: a shorter slice of the same store.
  method Shorten(p: Property, obj: JObject, name: string)
    requires Tree(VObj(obj)) && name in obj.fields && obj.fields[name].VArr?
    modifies obj
    ensures Tree(VObj(obj)) && name in obj.fields && obj.fields[name].VArr?
    ensures FieldsOf(obj) == old(FieldsOf(obj))[name := JArr(CutItems(p, old(FieldsOf(obj))[name].items))]
  {
    var store := obj.fields[name].store;
    var len := obj.fields[name].len;
    if p.maxLength.Some? && len > p.maxLength.value {
      PrefixView(store, len, p.maxLength.value);
      SetField(obj, name, VArr(store, p.maxLength.value));
    }
  }

  lemma PrefixView(store: JArray, len: nat, shorter: nat)
    requires Tree(VArr(store, len)) && shorter <= len
    ensures Tree(VArr(store, shorter)) && View(VArr(store, shorter)).items == View(VArr(store, len)).items[..shorter]
  {
  }

  method SanitizeArrayItems(host: Host, reg: Registry, items: ArrayItems, store: JArray, len: nat, depth: nat)
    requires depth <= MAX_SANITIZE_DEPTH && Tree(VArr(store, len))
    modifies store.below
    ensures Tree(VArr(store, len))
    ensures View(VArr(store, len)) == JArr(NewItems(host, reg, Some(items), old(View(VArr(store, len))).items, depth))
    decreases Height(depth), 0, 1
  {
    if items.kind != "ref" || items.ref == "" {
      return;
    }
    var def := reg.Resolve(items.ref);
    if def.None? {
      return;
    }
    ghost var was := View(VArr(store, len)).items;
    for i := 0 to len
      invariant Tree(VArr(store, len))
      invariant |View(VArr(store, len)).items| == len
      invariant forall j | 0 <= j < i :: View(VArr(store, len)).items[j] == NewItem(host, reg, def.value, was[j], depth)
      invariant forall j | i <= j < len :: View(VArr(store, len)).items[j] == was[j]
    {
      SanitizeItem(host, reg, def.value, store, len, i, depth);
    }
    assert View(VArr(store, len)).items == NewItems(host, reg, Some(items), was, depth);
  }

  method SanitizeItem(host: Host, reg: Registry, def: seq<PropertyEntry>, store: JArray, len: nat, i: nat, depth: nat)
    requires depth <= MAX_SANITIZE_DEPTH && Tree(VArr(store, len)) && i < len
    modifies store.below
    ensures Tree(VArr(store, len))
    ensures var was := old(View(VArr(store, len))).items;
            View(VArr(store, len)).items == was[i := NewItem(host, reg, def, was[i], depth)]
    decreases Height(depth), 0, 0
  {
    var item := store.items[i];
    if item.VObj? {
      ghost var before := View(VArr(store, len)).items;
      ItemsHold(store, len);
      var kept := SanitizeObject(host, reg, def, item.obj, depth + 1);
      ItemChanged(store, len, i, before);
      if !kept {
        SetItem(store, len, i);
      }
    }
  }

  lemma ItemsHold(store: JArray, len: nat)
    requires Tree(VArr(store, len))
    ensures ArrayShape(store) && len <= |store.items| && |View(VArr(store, len)).items| == len
    ensures forall j | 0 <= j < |store.items| :: Tree(store.items[j])
    ensures forall j | 0 <= j < len :: View(store.items[j]) == View(VArr(store, len)).items[j]
  {
  }

  method SetItem(store: JArray, len: nat, i: nat)
    requires Tree(VArr(store, len)) && i < len
    modifies store
    ensures Tree(VArr(store, len))
    ensures View(VArr(store, len)).items == old(View(VArr(store, len))).items[i := JNull]
  {
    label before:
    store.items := store.items[i := VNull];
    assert forall j | 0 <= j < |store.items| && j != i ::
        Tree(store.items[j]) && View(store.items[j]) == old@before(View(store.items[j]));
  }

  method SanitizeRefObject(host: Host, reg: Registry, ref: string, obj: JObject, depth: nat)
    requires depth <= MAX_SANITIZE_DEPTH && Tree(VObj(obj))
    modifies obj.below
    ensures Tree(VObj(obj))
    ensures View(VObj(obj)) == NewObject(host, reg, reg.Resolve(ref), old(FieldsOf(obj)), depth)
    decreases Height(depth), 0, 0
  {
    var def := reg.Resolve(ref);
    if def.None? {
      return;
    }
    var kept := SanitizeObject(host, reg, def.value, obj, depth + 1);
  }

  method SanitizeUnionObject(host: Host, reg: Registry, refs: seq<string>, obj: JObject, depth: nat)
    requires depth <= MAX_SANITIZE_DEPTH && Tree(VObj(obj))
    modifies obj.below
    ensures Tree(VObj(obj))
    ensures View(VObj(obj)) == NewObject(host, reg, Branch(reg, refs, old(FieldsOf(obj))), old(FieldsOf(obj)), depth)
    decreases Height(depth), 0, 0
  {
    var typeName := if "$type" in obj.fields && obj.fields["$type"].VStr? then obj.fields["$type"].s else "";
    if typeName == "" {
      return;
    }
    ghost var before := FieldsOf(obj);
    for i := 0 to |refs|
      invariant Tree(VObj(obj)) && FieldsOf(obj) == before
      invariant typeName !in refs[..i] || reg.Resolve(typeName).None?
    {
      var def := reg.Resolve(refs[i]);
      if def.None? {
        continue;
      }
      if refs[i] == typeName {
        var kept := SanitizeObject(host, reg, def.value, obj, depth + 1);
        return;
      }
    }
  }

  // ---------- frames ----------

  // The shape of an object or array apart from what its members hold inside.
  ghost predicate ObjectShape(obj: JObject)
    reads obj
  {
    obj in obj.below && FieldsApart(obj.fields, obj.below - {obj})
  }

  ghost predicate FieldsApart(fields: map<string, LiveValue>, bound: set<object>) {
    && (forall k | k in fields :: Below(fields[k]) <= bound)
    && (forall k, l | k in fields && l in fields && k != l :: Below(fields[k]) !! Below(fields[l]))
  }

  lemma ApartAfterSet(fields: map<string, LiveValue>, bound: set<object>, name: string, v: LiveValue)
    requires FieldsApart(fields, bound) && name in fields && Below(v) <= Below(fields[name])
    ensures FieldsApart(fields[name := v], bound)
  {
  }

  ghost predicate ArrayShape(store: JArray)
    reads store
  {
    && store in store.below
    && (forall i | 0 <= i < |store.items| :: Below(store.items[i]) <= store.below - {store})
    && (forall i, j | 0 <= i < j < |store.items| :: Below(store.items[i]) !! Below(store.items[j]))
  }

  // A change inside one field leaves the other fields as they were.
  lemma FieldChanged(obj: JObject, name: string, before: Fields)
    requires ObjectShape(obj) && name in obj.fields && before.Keys == obj.fields.Keys
    requires Tree(obj.fields[name])
    requires forall k | k in obj.fields && k != name :: Tree(obj.fields[k]) && View(obj.fields[k]) == before[k]
    ensures Tree(VObj(obj)) && FieldsOf(obj) == before[name := View(obj.fields[name])]
  {
  }

  lemma ItemChanged(store: JArray, len: nat, i: nat, before: seq<Json>)
    requires ArrayShape(store) && i < len == |before| <= |store.items|
    requires Tree(store.items[i])
    requires forall j | 0 <= j < |store.items| && j != i :: Tree(store.items[j])
    requires forall j | 0 <= j < len && j != i :: View(store.items[j]) == before[j]
    ensures Tree(VArr(store, len))
    ensures View(VArr(store, len)).items == before[i := View(store.items[i])]
  {
  }
}
