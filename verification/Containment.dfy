/**
 JSON documents, field paths, and the document that the `eq` operator asks
 the stored record to contain.  Strings are Go strings: one `char` is one byte.
 */
module Json {
  import opened Wrappers

  datatype Json =
    | JNull
    | JBool(b: bool)
    | JNum(n: real)
    | JStr(s: string)
    | JArr(items: seq<Json>)
    | JObj(fields: map<string, Json>)

  predicate Scalar(j: Json) {
    !j.JArr? && !j.JObj?
  }

  // jsonb containment below the top level.
  ghost predicate DeepContains(doc: Json, part: Json)
    decreases part
  {
    match part
    case JObj(fields) =>
      doc.JObj? && forall k | k in fields :: k in doc.fields && DeepContains(doc.fields[k], fields[k])
    case JArr(items) =>
      doc.JArr? && forall i | 0 <= i < |items| :: exists j | 0 <= j < |doc.items| ::
          DeepContains(doc.items[j], items[i])
    case _ => doc == part
  }

  // The `@>` operator.  At the top level only, an array also contains a bare scalar.
  ghost predicate Contains(doc: Json, part: Json) {
    || DeepContains(doc, part)
    || (doc.JArr? && Scalar(part) && part in doc.items)
  }

  // The `->` operator applied along a path: it enters objects only.
  function Follow(doc: Json, path: seq<string>): Option<Json>
    decreases |path|
  {
    if path == [] then Some(doc)
    else if doc.JObj? && path[0] in doc.fields then Follow(doc.fields[path[0]], path[1..])
    else None
  }
}

module FieldPath {
  const MAX_NESTING := 3

  predicate SeparatorAt(s: string, i: nat) {
    i + 1 < |s| && s[i] == '_' && s[i + 1] == '_'
  }

  // The first separator at or after `i`, or the length of `s`.
  function NextSeparator(s: string, i: nat): (k: nat)
    requires i <= |s|
    ensures i <= k <= |s|
    ensures k < |s| ==> SeparatorAt(s, k)
    ensures forall j | i <= j < k :: !SeparatorAt(s, j)
    decreases |s| - i
  {
    if i == |s| || SeparatorAt(s, i) then i else NextSeparator(s, i + 1)
  }

  // Splitting at every non-overlapping "__", left to right.
  function Split(name: string): (parts: seq<string>)
    ensures |parts| >= 1
    ensures |parts| == 1 ==> parts[0] == name
    decreases |name|
  {
    var k := NextSeparator(name, 0);
    if k == |name| then [name] else [name[..k]] + Split(name[k + 2..])
  }

  predicate Letter(c: char) {
    'a' <= c <= 'z' || 'A' <= c <= 'Z' || c == '_'
  }

  predicate ValidSegment(s: string) {
    |s| > 0 && Letter(s[0]) && forall i | 0 < i < |s| :: Letter(s[i]) || '0' <= s[i] <= '9'
  }

  // ValidateFieldName: at most three segments, each an identifier.
  predicate ValidName(name: string) {
    var parts := Split(name);
    |parts| <= MAX_NESTING && forall i | 0 <= i < |parts| :: ValidSegment(parts[i])
  }
}

module Containment {
  import opened Wrappers
  import opened Json
  import FieldPath

  // {"a": {"b": {"c": value}}} for the path a, b, c.
  function Nested(path: seq<string>, value: Json): Json
    decreases |path|
  {
    if path == [] then value else JObj(map[path[0] := Nested(path[1..], value)])
  }

  // Built from the inside out, as the source's loop does.
  method BuildNestedContainment(fieldName: string, value: Json) returns (result: Json)
    ensures result == Nested(FieldPath.Split(fieldName), value)
  {
    var parts := FieldPath.Split(fieldName);
    if |parts| == 1 {
      return JObj(map[fieldName := value]);
    }
    result := value;
    var i := |parts|;
    while i > 0
      invariant 0 <= i <= |parts|
      invariant result == Nested(parts[i..], value)
    {
      i := i - 1;
      assert parts[i..][1..] == parts[i + 1..];
      result := JObj(map[parts[i] := result]);
    }
    assert parts[0..] == parts;
  }

  // A document contains the nested object exactly when the path, entered
  // through objects, ends at something that contains the value.
  lemma {:induction false} DeepFollows(doc: Json, path: seq<string>, value: Json)
    ensures DeepContains(doc, Nested(path, value)) <==>
            Follow(doc, path).Some? && DeepContains(Follow(doc, path).value, value)
    decreases |path|
  {
    if path != [] {
      var inner := Nested(path[1..], value);
      var fields := map[path[0] := inner];
      assert Nested(path, value) == JObj(fields);
      assert path[0] in fields;
      if doc.JObj? && path[0] in doc.fields {
        DeepFollows(doc.fields[path[0]], path[1..], value);
        assert DeepContains(doc, JObj(fields)) <==> DeepContains(doc.fields[path[0]], fields[path[0]]);
      }
    }
  }

  // The same for `@>`: its top-level exception for arrays never fires,
  // because the containment object is never a scalar.
  lemma ContainmentFollowsPath(doc: Json, fieldName: string, value: Json)
    ensures var path := FieldPath.Split(fieldName);
            Contains(doc, Nested(path, value)) <==>
            Follow(doc, path).Some? && DeepContains(Follow(doc, path).value, value)
  {
    DeepFollows(doc, FieldPath.Split(fieldName), value);
  }

  // For the scalar values that validation admits: the path reaches that very value.
  lemma {:induction false} ScalarContainment(doc: Json, fieldName: string, value: Json)
    requires Scalar(value)
    ensures Contains(doc, Nested(FieldPath.Split(fieldName), value)) <==>
            Follow(doc, FieldPath.Split(fieldName)) == Some(value)
  {
    ContainmentFollowsPath(doc, fieldName, value);
  }
}
