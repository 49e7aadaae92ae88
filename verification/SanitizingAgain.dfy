/** Sanitizing what was sanitized before, and what a record is that the walk leaves alone. */
module SanitizingAgain {
  import opened Wrappers
  import opened Json
  import Utf8
  import opened RecordRules
  import opened SanitizedRecords

  // ---------- when a second walk changes nothing ----------

  // Every text that the walk gets to still passes once it is cut.  Behind a required
  // text that does not, nothing matters but the verdict, because the second walk ends there.
  predicate StableFrom(host: Host, reg: Registry, props: seq<PropertyEntry>, fields: Fields, depth: nat, verdict: bool)
    requires depth <= MAX_SANITIZE_DEPTH
    decreases Height(depth), 2, |props|
  {
    if props == [] then true
    else
      var name, p := props[0].name, props[0].property;
      if !Present(fields, name) then
        p.required || StableFrom(host, reg, props[1..], fields, depth, verdict)
      else if p.required then
        if !FieldMet(host, p, fields[name]) then true
        else if fields[name].JStr? && !Passes(host, p, Truncated(host, p, fields[name].s)) then !verdict
        else StableFrom(host, reg, props[1..], fields, depth, verdict)
      else
        && StableValue(host, reg, p, fields[name], depth)
        && StableFrom(host, reg, props[1..], fields, depth, verdict)
  }

  predicate Stable(host: Host, reg: Registry, props: seq<PropertyEntry>, fields: Fields, depth: nat, verdict: bool)
    decreases Height(depth), 3
  {
    depth > MAX_SANITIZE_DEPTH || StableFrom(host, reg, props, fields, depth, verdict)
  }

  predicate StableValue(host: Host, reg: Registry, p: Property, v: Json, depth: nat)
    requires depth <= MAX_SANITIZE_DEPTH
    decreases Height(depth), 1
  {
    match p.kind
    case "string" => TextMends(host, p, v)
    case "" => TextMends(host, p, v)
    case "array" =>
      v.JArr? ==>
      var arr := CutItems(p, v.items);
      forall i | 0 <= i < |arr| :: StableItem(host, reg, ItemDef(reg, p.items), arr[i], depth)
    case "ref" => v.JObj? ==> StableObject(host, reg, reg.Resolve(p.ref), v.fields, depth)
    case "union" => v.JObj? ==> StableObject(host, reg, Branch(reg, p.refs, v.fields), v.fields, depth)
    case _ => true
  }

  // An object that a ref or a union holds is kept whatever its walk returns.
  predicate StableObject(host: Host, reg: Registry, def: Option<seq<PropertyEntry>>, fields: Fields, depth: nat)
    requires depth <= MAX_SANITIZE_DEPTH
    decreases Height(depth), 0
  {
    def.None? || Stable(host, reg, def.value, fields, depth + 1, false)
  }

  predicate StableItem(host: Host, reg: Registry, def: Option<seq<PropertyEntry>>, item: Json, depth: nat)
    requires depth <= MAX_SANITIZE_DEPTH
    decreases Height(depth), 0
  {
    def.Some? && item.JObj? && RequiredMet(host, def.value, item.fields) ==>
    Stable(host, reg, def.value, item.fields, depth + 1, true)
  }

  // ---------- the connection ----------

  lemma {:induction false} StableElsewhere(host: Host, reg: Registry, props: seq<PropertyEntry>, fields: Fields,
                                           name: string, v: Json, depth: nat, verdict: bool)
    requires depth <= MAX_SANITIZE_DEPTH && name in fields
    requires forall i | 0 <= i < |props| :: props[i].name != name
    ensures StableFrom(host, reg, props, fields[name := v], depth, verdict) <==>
            StableFrom(host, reg, props, fields, depth, verdict)
    decreases |props|
  {
    if props != [] {
      assert props[0].name != name;
      forall i | 0 <= i < |props[1..]| ensures props[1..][i].name != name {
        assert props[1..][i] == props[i + 1];
      }
      StableElsewhere(host, reg, props[1..], fields, name, v, depth, verdict);
    }
  }

  lemma {:induction false} TwiceFrom(host: Host, reg: Registry, props: seq<PropertyEntry>, fields: Fields, depth: nat)
    requires Segments(host) && PlainDefs(reg) && DistinctNames(props) && depth <= MAX_SANITIZE_DEPTH
    ensures var r := WalkFrom(host, reg, props, fields, depth);
            var again := WalkFrom(host, reg, props, r.fields, depth);
            && (again.fields == r.fields <==> StableFrom(host, reg, props, fields, depth, false))
            && (r.kept ==> (again == r <==> StableFrom(host, reg, props, fields, depth, true)))
    decreases Height(depth), 2, |props|
  {
    if props != [] {
      var name, p, rest := props[0].name, props[0].property, props[1..];
      assert DistinctNames(rest);
      var r := WalkFrom(host, reg, props, fields, depth);
      if !Present(fields, name) {
        if !p.required {
          TwiceFrom(host, reg, rest, fields, depth);
          WalkMeets(host, reg, rest, fields, depth);
          assert !Present(r.fields, name);
        }
      } else if NewValue(host, reg, p, fields[name], depth).Some? {
        var v := NewValue(host, reg, p, fields[name], depth).value;
        var after := fields[name := v];
        TwiceFrom(host, reg, rest, after, depth);
        WalkMeets(host, reg, rest, after, depth);
        assert r == WalkFrom(host, reg, rest, after, depth) && r.fields[name] == v;
        StableElsewhere(host, reg, rest, fields, name, v, depth, false);
        StableElsewhere(host, reg, rest, fields, name, v, depth, true);
        HeadTwice(host, reg, props, r, depth);
        if p.required {
          RequiredTwice(host, reg, p, fields[name], depth);
        } else {
          ValueTwice(host, reg, p, fields[name], depth);
        }
      }
    }
  }

  // The second walk's first step, when the first walk left v there.
  lemma HeadTwice(host: Host, reg: Registry, props: seq<PropertyEntry>, r: Sanitized, depth: nat)
    requires depth <= MAX_SANITIZE_DEPTH && props != [] && DistinctNames(props) && props[0].name in r.fields
    ensures var name, p := props[0].name, props[0].property;
            var v := r.fields[name];
            var again := WalkFrom(host, reg, props, r.fields, depth);
            if v.JNull? then
              !p.required ==> again == WalkFrom(host, reg, props[1..], r.fields, depth)
            else
              match NewValue(host, reg, p, v, depth)
              case None => again == Sanitized(false, r.fields)
              case Some(w) =>
                && (w == v ==> again == WalkFrom(host, reg, props[1..], r.fields, depth))
                && (w != v ==> again.fields != r.fields)
  {
    var name, p, rest := props[0].name, props[0].property, props[1..];
    var v := r.fields[name];
    if !v.JNull? && NewValue(host, reg, p, v, depth).Some? {
      var w := NewValue(host, reg, p, v, depth).value;
      assert DistinctNames(rest);
      WalkMeets(host, reg, rest, r.fields[name := w], depth);
      assert v == w ==> r.fields[name := w] == r.fields;
    }
  }

  lemma RequiredTwice(host: Host, reg: Registry, p: Property, v: Json, depth: nat)
    requires Segments(host) && depth <= MAX_SANITIZE_DEPTH && p.required && FieldMet(host, p, v)
    ensures var w := NewValue(host, reg, p, v, depth).value;
            && !w.JNull?
            && NewValue(host, reg, p, w, depth)
               == if v.JStr? && !Passes(host, p, Truncated(host, p, v.s)) then None else Some(w)
  {
    if v.JStr? {
      CutIsShort(host, p, v.s);
    }
  }

  lemma {:induction false} ValueTwice(host: Host, reg: Registry, p: Property, v: Json, depth: nat)
    requires Segments(host) && PlainDefs(reg) && depth <= MAX_SANITIZE_DEPTH && !p.required && !v.JNull?
    ensures var w := NewOptional(host, reg, p, v, depth);
            (w.JNull? || NewOptional(host, reg, p, w, depth) == w) <==> StableValue(host, reg, p, v, depth)
    decreases Height(depth), 1
  {
    var w := NewOptional(host, reg, p, v, depth);
    if IsText(p) {
      TextTwice(host, reg, p, v, depth);
    } else if p.kind == "array" {
      if v.JArr? {
        ItemsTwice(host, reg, p, v, depth);
      }
    } else if p.kind == "ref" {
      assert w == NewRef(host, reg, p, v, depth);
      assert NewOptional(host, reg, p, w, depth) == NewRef(host, reg, p, w, depth);
      if v.JObj? {
        ObjectTwice(host, reg, reg.Resolve(p.ref), v.fields, depth);
      }
    } else if p.kind == "union" {
      assert w == NewUnion(host, reg, p, v, depth);
      assert NewOptional(host, reg, p, w, depth) == NewUnion(host, reg, p, w, depth);
      if v.JObj? {
        ObjectTwice(host, reg, Branch(reg, p.refs, v.fields), v.fields, depth);
        if Branch(reg, p.refs, v.fields).Some? {
          BranchStays(host, reg, p.refs, v.fields, depth + 1);
        }
      }
    }
  }

  lemma TextTwice(host: Host, reg: Registry, p: Property, v: Json, depth: nat)
    requires Segments(host) && depth <= MAX_SANITIZE_DEPTH && IsText(p)
    ensures var w := NewOptional(host, reg, p, v, depth);
            (w.JNull? || NewOptional(host, reg, p, w, depth) == w) <==> TextMends(host, p, v)
  {
    assert NewOptional(host, reg, p, v, depth) == NewString(host, p, v);
    if v.JStr? {
      CutIsShort(host, p, v.s);
      var t := JStr(Truncated(host, p, v.s));
      assert NewOptional(host, reg, p, t, depth) == NewString(host, p, t);
    }
  }

  lemma {:induction false} ObjectTwice(host: Host, reg: Registry, def: Option<seq<PropertyEntry>>, fields: Fields,
                                       depth: nat)
    requires Segments(host) && PlainDefs(reg) && depth <= MAX_SANITIZE_DEPTH
    requires def.Some? ==> DistinctNames(def.value)
    ensures var w := NewObject(host, reg, def, fields, depth);
            NewObject(host, reg, def, w.fields, depth) == w <==> StableObject(host, reg, def, fields, depth)
    decreases Height(depth), 0
  {
    if def.Some? && depth + 1 <= MAX_SANITIZE_DEPTH {
      TwiceFrom(host, reg, def.value, fields, depth + 1);
    }
  }

  lemma {:induction false} ItemTwice(host: Host, reg: Registry, def: seq<PropertyEntry>, item: Json, depth: nat)
    requires Segments(host) && PlainDefs(reg) && depth <= MAX_SANITIZE_DEPTH && DistinctNames(def)
    ensures var w := NewItem(host, reg, def, item, depth);
            NewItem(host, reg, def, w, depth) == w <==> StableItem(host, reg, Some(def), item, depth)
    decreases Height(depth), 0, 0
  {
    if item.JObj? && depth + 1 <= MAX_SANITIZE_DEPTH {
      TwiceFrom(host, reg, def, item.fields, depth + 1);
      WalkMeets(host, reg, def, item.fields, depth + 1);
    }
  }

  lemma {:induction false} ItemsTwice(host: Host, reg: Registry, p: Property, v: Json, depth: nat)
    requires Segments(host) && PlainDefs(reg) && depth <= MAX_SANITIZE_DEPTH && p.kind == "array" && v.JArr?
    ensures var w := NewOptional(host, reg, p, v, depth);
            NewOptional(host, reg, p, w, depth) == w <==> StableValue(host, reg, p, v, depth)
    decreases Height(depth), 0, 1
  {
    var arr, def := CutItems(p, v.items), ItemDef(reg, p.items);
    var out := NewItems(host, reg, p.items, arr, depth);
    assert NewOptional(host, reg, p, v, depth) == JArr(out);
    assert CutItems(p, out) == out;
    var twice := NewItems(host, reg, p.items, out, depth);
    assert NewOptional(host, reg, p, JArr(out), depth) == JArr(twice);
    if def.Some? {
      ResolvedIsPlain(reg, p.items.value.ref);
      forall i | 0 <= i < |arr| ensures twice[i] == out[i] <==> StableItem(host, reg, def, arr[i], depth) {
        ItemTwice(host, reg, def.value, arr[i], depth);
      }
    }
  }

  // Sanitizing a kept record again leaves it as it is exactly when every text still passes once it is cut.
  lemma SanitizedTwiceIff(host: Host, def: seq<PropertyEntry>, reg: Registry, fields: Fields)
    requires Segments(host) && PlainDefs(reg) && DistinctNames(def)
    requires SanitizeRecord(host, Some(def), reg, Record(fields)).Some?
    ensures var once := SanitizeRecord(host, Some(def), reg, Record(fields));
            SanitizeRecord(host, Some(def), reg, Record(once.value)) == once <==>
            Stable(host, reg, def, fields, 0, true)
  {
    TwiceFrom(host, reg, def, fields, 0);
  }

  // ---------- records that the walk leaves alone ----------

  // What is as declared, through refs, unions and items, comes out unchanged.
  lemma {:induction false} MeetingIsUntouched(host: Host, reg: Registry, props: seq<PropertyEntry>, fields: Fields,
                                              depth: nat)
    requires AllMeet(host, reg, props, fields, depth)
    ensures Walk(host, reg, props, fields, depth) == Sanitized(true, fields)
    decreases Height(depth), 3, |props|
  {
    if depth <= MAX_SANITIZE_DEPTH && props != [] {
      var name, p, rest := props[0].name, props[0].property, props[1..];
      forall i | 0 <= i < |rest| ensures PropertyMeets(host, reg, rest[i], fields, depth) {
        assert rest[i] == props[i + 1];
      }
      MeetingIsUntouched(host, reg, rest, fields, depth);
      assert PropertyMeets(host, reg, props[0], fields, depth);
      assert name in fields ==> Meets(host, reg, p, fields[name], depth);
      if Present(fields, name) {
        ValueUntouched(host, reg, p, fields[name], depth);
        assert fields[name := fields[name]] == fields;
      }
    }
  }

  lemma {:induction false} ValueUntouched(host: Host, reg: Registry, p: Property, v: Json, depth: nat)
    requires depth <= MAX_SANITIZE_DEPTH && !v.JNull? && Meets(host, reg, p, v, depth)
    ensures NewValue(host, reg, p, v, depth) == Some(v)
    decreases Height(depth), 2
  {
    if v.JStr? && (IsText(p) || p.required) {
      assert Truncated(host, p, v.s) == v.s;
    }
    if !p.required {
      if p.kind == "array" {
        ItemsUntouched(host, reg, p.items, v.items, depth);
        assert CutItems(p, v.items) == v.items;
        assert NewArray(host, reg, p, v, depth) == v;
      } else if p.kind == "ref" {
        ObjectUntouched(host, reg, reg.Resolve(p.ref), v.fields, depth);
        assert NewRef(host, reg, p, v, depth) == v;
      } else if p.kind == "union" {
        ObjectUntouched(host, reg, Branch(reg, p.refs, v.fields), v.fields, depth);
        assert NewUnion(host, reg, p, v, depth) == v;
      } else {
        assert NewOptional(host, reg, p, v, depth) ==
               if IsText(p) then NewString(host, p, v) else if TypeOk(host, v, p.kind) then v else JNull;
      }
    }
  }

  lemma {:induction false} ObjectUntouched(host: Host, reg: Registry, def: Option<seq<PropertyEntry>>,
                                           fields: Fields, depth: nat)
    requires depth <= MAX_SANITIZE_DEPTH && ObjectMeets(host, reg, def, fields, depth)
    ensures NewObject(host, reg, def, fields, depth) == JObj(fields)
    decreases Height(depth), 0
  {
    if def.Some? {
      MeetingIsUntouched(host, reg, def.value, fields, depth + 1);
    }
  }

  lemma {:induction false} ItemsUntouched(host: Host, reg: Registry, items: Option<ArrayItems>, arr: seq<Json>,
                                          depth: nat)
    requires depth <= MAX_SANITIZE_DEPTH && forall i | 0 <= i < |arr| :: ItemMeets(host, reg, items, arr[i], depth)
    ensures NewItems(host, reg, items, arr, depth) == arr
    decreases Height(depth), 1
  {
    var def := ItemDef(reg, items);
    if def.Some? {
      forall i | 0 <= i < |arr| ensures NewItem(host, reg, def.value, arr[i], depth) == arr[i] {
        assert ItemMeets(host, reg, items, arr[i], depth);
        if arr[i].JObj? {
          assert ObjectMeets(host, reg, def, arr[i].fields, depth);
          MeetingIsUntouched(host, reg, def.value, arr[i].fields, depth + 1);
        }
      }
    }
  }

  // So a record that the walk can mend needs it only once.
  lemma MendedIsStable(host: Host, def: seq<PropertyEntry>, reg: Registry, fields: Fields)
    requires Segments(host) && PlainDefs(reg) && DistinctNames(def)
    requires AllMend(host, reg, def, fields, 0)
    ensures Stable(host, reg, def, fields, 0, true)
  {
    MeetsIff(host, reg, def, fields, 0);
    WalkMeets(host, reg, def, fields, 0);
    TwiceFrom(host, reg, def, fields, 0);
    MeetingIsUntouched(host, reg, def, Walk(host, reg, def, fields, 0).fields, 0);
  }

  // ---------- records that are not mended ----------

  // A text cut out of its enumeration is shown all the same, and becomes null the next time.
  lemma CutOutOfEnumeration(host: Host)
    ensures var p := Property("string", false, "", ["ab"], Some(1), None, None, "", []);
            var def, reg := [PropertyEntry("x", p)], Registry(map[], map[]);
            var once := SanitizeRecord(host, Some(def), reg, Record(map["x" := JStr("ab")]));
            && once == Some(map["x" := JStr("a")]) && !AllMeet(host, reg, def, once.value, 0)
            && SanitizeRecord(host, Some(def), reg, Record(once.value)) == Some(map["x" := JNull])
  {
    var p := Property("string", false, "", ["ab"], Some(1), None, None, "", []);
    var def, reg := [PropertyEntry("x", p)], Registry(map[], map[]);
    var fields, once: Fields := map["x" := JStr("ab")], map["x" := JStr("a")];
    assert Utf8.RuneStart('b') && Utf8.CutAt("ab", 1) == 1 && "ab"[..1] == "a";
    assert NewValue(host, reg, p, fields["x"], 0) == Some(JStr("a"));
    assert def[1..] == [];
    assert fields["x" := JStr("a")] == once;
    assert NewValue(host, reg, p, once["x"], 0) == Some(JNull);
    assert once["x" := JNull] == map["x" := JNull];
    assert !Meets(host, reg, p, once["x"], 0);
    assert !PropertyMeets(host, reg, def[0], once, 0);
  }

  // An object that lacks what its definition requires stays, behind a ref.
  lemma UnmetRefStays(host: Host)
    ensures var y := Property("string", true, "", [], None, None, None, "", []);
            var x := Property("ref", false, "", [], None, None, None, "d", []);
            var def, reg := [PropertyEntry("x", x)], Registry(map["d" := [PropertyEntry("y", y)]], map[]);
            var once := SanitizeRecord(host, Some(def), reg, Record(map["x" := JObj(map[])]));
            once == Some(map["x" := JObj(map[])]) && !AllMeet(host, reg, def, once.value, 0)
  {
    var y := Property("string", true, "", [], None, None, None, "", []);
    var x := Property("ref", false, "", [], None, None, None, "d", []);
    var inner := [PropertyEntry("y", y)];
    var def, reg := [PropertyEntry("x", x)], Registry(map["d" := inner], map[]);
    var fields: Fields := map["x" := JObj(map[])];
    assert Walk(host, reg, inner, map[], 1) == Sanitized(false, map[]);
    assert NewRef(host, reg, x, fields["x"], 0) == JObj(map[]);
    assert def[1..] == [];
    assert fields["x" := JObj(map[])] == fields;
    assert !PropertyMeets(host, reg, inner[0], map[], 1);
    assert !Meets(host, reg, x, fields["x"], 0);
    assert !PropertyMeets(host, reg, def[0], fields, 0);
  }
}
