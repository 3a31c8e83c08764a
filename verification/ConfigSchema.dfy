/** Schema trees and the plain dictionaries they travel as on the bus. */
module ConfigSchema {
  import opened Bytes

  /** A JSON value. Objects keep their entries in insertion order, as dictionaries do. */
  datatype Json =
    | Null
    | Bool(b: bool)
    | Number(n: real)
    | Str(s: string)
    | List(items: seq<Json>)
    | Obj(entries: seq<JsonEntry>)

  datatype JsonEntry = JsonEntry(key: string, value: Json)

  /** A schema node. Null stands for an absent minimum or maximum. */
  datatype Node =
    | Scalar(kind: string, default: Json, min: Json, max: Json, choices: seq<Json>)
    | Message(fields: seq<Entry>, optional: bool)
    | Repeated(item: Node, defaults: seq<Json>)
    | Oneof(branches: seq<Entry>, active: string)

  /** A named node: an entry of a schema, of a nested message or of a oneof. */
  datatype Entry = Entry(name: string, node: Node)

  datatype SchemaError = NotAnObject | MissingKey(key: string) | IllTyped(key: string) | UnknownBranch

  predicate HasKey(es: seq<JsonEntry>, key: string) {
    exists i :: 0 <= i < |es| && es[i].key == key
  }

  predicate HasName(es: seq<Entry>, name: string) {
    exists i :: 0 <= i < |es| && es[i].name == name
  }

  /** The nodes the constructors accept: no scalar carries a structural type tag, every oneof's
      active branch is one of its branches. */
  predicate Valid(n: Node)
    decreases n, 1
  {
    match n
    case Scalar(kind, _, _, _, _) => kind != "message" && kind != "list" && kind != "oneof"
    case Message(fields, _) => AllValid(fields)
    case Repeated(item, _) => Valid(item)
    case Oneof(branches, active) => HasName(branches, active) && AllValid(branches)
  }

  predicate AllValid(es: seq<Entry>)
    decreases es, 0
  {
    es == [] || (Valid(es[0].node) && AllValid(es[1..]))
  }

  // ---------------------------------------------------------------------------
  // Serialising
  // ---------------------------------------------------------------------------

  /** An entry that is left out when there is nothing to say. */
  function EntryIf(present: bool, key: string, value: Json): seq<JsonEntry> {
    if present then [JsonEntry(key, value)] else []
  }

  function NodeToDict(n: Node): Json
    decreases n, 1
  {
    match n
    case Scalar(kind, default, min, max, choices) =>
      Obj(EntryIf(true, "type", Str(kind)) + EntryIf(true, "default", default) + EntryIf(min != Null, "min", min) +
          EntryIf(max != Null, "max", max) + EntryIf(choices != [], "choices", List(choices)))
    case Message(fields, optional) =>
      Obj([JsonEntry("type", Str("message")), JsonEntry("optional", Bool(optional)),
           JsonEntry("fields", Obj(EntriesToDict(fields)))])
    case Repeated(item, defaults) =>
      Obj([JsonEntry("type", Str("list")), JsonEntry("item_schema", NodeToDict(item)),
           JsonEntry("default", List(defaults))])
    case Oneof(branches, active) =>
      Obj([JsonEntry("type", Str("oneof")), JsonEntry("active_branch", Str(active)),
           JsonEntry("branches", Obj(EntriesToDict(branches)))])
  }

  function EntriesToDict(es: seq<Entry>): seq<JsonEntry>
    decreases es, 0
  {
    if es == [] then [] else [JsonEntry(es[0].name, NodeToDict(es[0].node))] + EntriesToDict(es[1..])
  }

  function SchemaToDict(schema: seq<Entry>): Json {
    Obj(EntriesToDict(schema))
  }

  // ---------------------------------------------------------------------------
  // Restoring
  // ---------------------------------------------------------------------------

  /** d.get(key). */
  function Get(es: seq<JsonEntry>, key: string): (r: Option<Json>)
    ensures r.Some? ==> exists i :: 0 <= i < |es| && es[i] == JsonEntry(key, r.value)
    ensures r.None? <==> !HasKey(es, key)
  {
    if es == [] then None
    else if es[0].key == key then
      assert es[0] == JsonEntry(key, es[0].value);
      Some(es[0].value)
    else
      var rest := Get(es[1..], key);
      assert rest.Some? ==> exists i :: 0 <= i < |es| && es[i] == JsonEntry(key, rest.value) by {
        if rest.Some? {
          var i :| 0 <= i < |es[1..]| && es[1..][i] == JsonEntry(key, rest.value);
          assert es[i + 1] == JsonEntry(key, rest.value);
        }
      }
      assert HasKey(es, key) <==> HasKey(es[1..], key) by {
        if HasKey(es, key) {
          var i :| 0 <= i < |es| && es[i].key == key;
          assert es[1..][i - 1].key == key;
        }
        if HasKey(es[1..], key) {
          var i :| 0 <= i < |es[1..]| && es[1..][i].key == key;
          assert es[i + 1].key == key;
        }
      }
      rest
  }

  function GetOr(es: seq<JsonEntry>, key: string, default: Json): Json {
    var v := Get(es, key);
    if v.None? then default else v.value
  }

  function NodeFromDict(d: Json): Result<Node, SchemaError>
    decreases d, 1
  {
    if !d.Obj? then Err(NotAnObject)
    else
      var kind := Get(d.entries, "type");
      if kind == Some(Str("message")) then MessageFromDict(d)
      else if kind == Some(Str("list")) then ListFromDict(d)
      else if kind == Some(Str("oneof")) then OneofFromDict(d)
      else ScalarFromDict(d)
  }

  function ScalarFromDict(d: Json): Result<Node, SchemaError>
    requires d.Obj?
  {
    var kind := Get(d.entries, "type");
    var choices := GetOr(d.entries, "choices", List([]));
    if kind.None? then Err(MissingKey("type"))
    else if !kind.value.Str? then Err(IllTyped("type"))
    else if !choices.List? then Err(IllTyped("choices"))
    else Ok(Scalar(kind.value.s, GetOr(d.entries, "default", Null), GetOr(d.entries, "min", Null),
                   GetOr(d.entries, "max", Null), choices.items))
  }

  /** The entries of a nested dictionary; an absent one counts as empty. */
  function NestedEntries(d: Json, key: string): Result<seq<Entry>, SchemaError>
    requires d.Obj?
    decreases d, 0, 1
  {
    var nested := Get(d.entries, key);
    if nested.None? then Ok([])
    else if !nested.value.Obj? then Err(IllTyped(key))
    else
      assert nested.value < d by {
        var i :| 0 <= i < |d.entries| && d.entries[i] == JsonEntry(key, nested.value);
      }
      EntriesFromDict(nested.value.entries)
  }

  function MessageFromDict(d: Json): Result<Node, SchemaError>
    requires d.Obj?
    decreases d, 0, 2
  {
    var fields := NestedEntries(d, "fields");
    var optional := GetOr(d.entries, "optional", Bool(false));
    if fields.Err? then Err(fields.error)
    else if !optional.Bool? then Err(IllTyped("optional"))
    else Ok(Message(fields.value, optional.b))
  }

  function ListFromDict(d: Json): Result<Node, SchemaError>
    requires d.Obj?
    decreases d, 0, 2
  {
    var item := Get(d.entries, "item_schema");
    if item.None? then Err(MissingKey("item_schema"))
    else
      assert item.value < d by {
        var i :| 0 <= i < |d.entries| && d.entries[i] == JsonEntry("item_schema", item.value);
      }
      var node := NodeFromDict(item.value);
      var defaults := GetOr(d.entries, "default", List([]));
      if node.Err? then Err(node.error)
      else if !defaults.List? then Err(IllTyped("default"))
      else Ok(Repeated(node.value, defaults.items))
  }

  function OneofFromDict(d: Json): Result<Node, SchemaError>
    requires d.Obj?
    decreases d, 0, 2
  {
    var branches := NestedEntries(d, "branches");
    var active := Get(d.entries, "active_branch");
    if branches.Err? then Err(branches.error)
    else if active.None? then Err(MissingKey("active_branch"))
    else if !active.value.Str? then Err(IllTyped("active_branch"))
    else if !HasName(branches.value, active.value.s) then Err(UnknownBranch)
    else Ok(Oneof(branches.value, active.value.s))
  }

  function EntriesFromDict(es: seq<JsonEntry>): Result<seq<Entry>, SchemaError>
    decreases es, 0
  {
    if es == [] then Ok([])
    else
      var first := NodeFromDict(es[0].value);
      if first.Err? then Err(first.error)
      else
        var rest := EntriesFromDict(es[1..]);
        if rest.Err? then Err(rest.error) else Ok([Entry(es[0].key, first.value)] + rest.value)
  }

  function SchemaFromDict(d: Json): Result<seq<Entry>, SchemaError> {
    if !d.Obj? then Err(NotAnObject) else EntriesFromDict(d.entries)
  }

  // ---------------------------------------------------------------------------
  // Round trip
  // ---------------------------------------------------------------------------

  lemma GetAppend(a: seq<JsonEntry>, b: seq<JsonEntry>, key: string)
    ensures Get(a + b, key) == if Get(a, key).Some? then Get(a, key) else Get(b, key)
  {
    if a == [] {
      assert a + b == b;
    } else {
      assert (a + b)[1..] == a[1..] + b;
      GetAppend(a[1..], b, key);
    }
  }

  lemma GetEntryIf(present: bool, key: string, value: Json, k: string)
    ensures Get(EntryIf(present, key, value), k) == if present && k == key then Some(value) else None
  {
  }

  /** Looking up k among five entries, some of them left out, whose keys differ. */
  lemma GetOfFive(p0: bool, k0: string, v0: Json, p1: bool, k1: string, v1: Json, p2: bool, k2: string, v2: Json,
                  p3: bool, k3: string, v3: Json, p4: bool, k4: string, v4: Json, k: string)
    ensures Get(EntryIf(p0, k0, v0) + EntryIf(p1, k1, v1) + EntryIf(p2, k2, v2) + EntryIf(p3, k3, v3) +
                EntryIf(p4, k4, v4), k)
         == if p0 && k == k0 then Some(v0) else if p1 && k == k1 then Some(v1) else if p2 && k == k2 then Some(v2)
            else if p3 && k == k3 then Some(v3) else if p4 && k == k4 then Some(v4) else None
  {
    hide Get, EntryIf;
    var e0, e1, e2 := EntryIf(p0, k0, v0), EntryIf(p1, k1, v1), EntryIf(p2, k2, v2);
    var e3, e4 := EntryIf(p3, k3, v3), EntryIf(p4, k4, v4);
    GetAppend(e0 + e1 + e2 + e3, e4, k);
    GetAppend(e0 + e1 + e2, e3, k);
    GetAppend(e0 + e1, e2, k);
    GetAppend(e0, e1, k);
    GetEntryIf(p0, k0, v0, k);
    GetEntryIf(p1, k1, v1, k);
    GetEntryIf(p2, k2, v2, k);
    GetEntryIf(p3, k3, v3, k);
    GetEntryIf(p4, k4, v4, k);
  }

  /** Looking up the keys of three entries. */
  lemma GetOfThree(k0: string, v0: Json, k1: string, v1: Json, k2: string, v2: Json)
    requires k0 != k1 && k0 != k2 && k1 != k2
    ensures var es := [JsonEntry(k0, v0), JsonEntry(k1, v1), JsonEntry(k2, v2)];
      Get(es, k0) == Some(v0) && Get(es, k1) == Some(v1) && Get(es, k2) == Some(v2)
  {
    var es := [JsonEntry(k0, v0), JsonEntry(k1, v1), JsonEntry(k2, v2)];
    assert es[1..] == [JsonEntry(k1, v1), JsonEntry(k2, v2)];
    assert es[1..][1..] == [JsonEntry(k2, v2)];
    assert Get(es[1..][1..], k2) == Some(v2);
    assert Get(es[1..], k1) == Some(v1);
    assert Get(es[1..], k2) == Some(v2);
  }

  lemma ScalarEntry(n: Node, k: string)
    requires n.Scalar?
    ensures Get(NodeToDict(n).entries, k) ==
      if k == "type" then Some(Str(n.kind)) else if k == "default" then Some(n.default)
      else if n.min != Null && k == "min" then Some(n.min) else if n.max != Null && k == "max" then Some(n.max)
      else if n.choices != [] && k == "choices" then Some(List(n.choices)) else None
  {
    GetOfFive(true, "type", Str(n.kind), true, "default", n.default, n.min != Null, "min", n.min,
              n.max != Null, "max", n.max, n.choices != [], "choices", List(n.choices), k);
  }

  lemma ScalarFields(n: Node)
    requires n.Scalar?
    ensures var es := NodeToDict(n).entries;
      && Get(es, "type") == Some(Str(n.kind))
      && GetOr(es, "default", Null) == n.default
      && GetOr(es, "min", Null) == n.min
      && GetOr(es, "max", Null) == n.max
      && GetOr(es, "choices", List([])) == List(n.choices)
  {
    ScalarEntry(n, "type");
    ScalarEntry(n, "default");
    ScalarEntry(n, "min");
    ScalarEntry(n, "max");
    ScalarEntry(n, "choices");
    hide Get, NodeToDict;
  }

  lemma RestoresScalar(n: Node)
    requires n.Scalar? && Valid(n)
    ensures NodeFromDict(NodeToDict(n)) == Ok(n)
  {
    ScalarFields(n);
    var d := NodeToDict(n);
    hide Get, GetOr, NodeToDict;
    assert ScalarFromDict(d) == Ok(n);
  }

  lemma RestoresMessage(n: Node)
    requires n.Message? && EntriesFromDict(EntriesToDict(n.fields)) == Ok(n.fields)
    ensures NodeFromDict(NodeToDict(n)) == Ok(n)
  {
    GetOfThree("type", Str("message"), "optional", Bool(n.optional), "fields", Obj(EntriesToDict(n.fields)));
    var d := NodeToDict(n);
    hide Get, EntriesToDict, EntriesFromDict;
    assert NestedEntries(d, "fields") == Ok(n.fields);
    assert MessageFromDict(d) == Ok(n);
  }

  lemma RestoresRepeated(n: Node)
    requires n.Repeated? && NodeFromDict(NodeToDict(n.item)) == Ok(n.item)
    ensures NodeFromDict(NodeToDict(n)) == Ok(n)
  {
    GetOfThree("type", Str("list"), "item_schema", NodeToDict(n.item), "default", List(n.defaults));
    var d := NodeToDict(n);
    hide Get;
    assert ListFromDict(d) == Ok(n);
  }

  lemma RestoresOneof(n: Node)
    requires n.Oneof? && Valid(n) && EntriesFromDict(EntriesToDict(n.branches)) == Ok(n.branches)
    ensures NodeFromDict(NodeToDict(n)) == Ok(n)
  {
    GetOfThree("type", Str("oneof"), "active_branch", Str(n.active), "branches", Obj(EntriesToDict(n.branches)));
    var d := NodeToDict(n);
    hide Get, EntriesToDict, EntriesFromDict;
    assert NestedEntries(d, "branches") == Ok(n.branches);
    assert OneofFromDict(d) == Ok(n);
  }

  lemma {:induction false} RestoresValidNode(n: Node)
    requires Valid(n)
    ensures NodeFromDict(NodeToDict(n)) == Ok(n)
    decreases n, 1
  {
    hide NodeFromDict, NodeToDict;
    match n
    case Scalar(_, _, _, _, _) =>
      RestoresScalar(n);
    case Message(fields, _) =>
      RestoresValidEntries(fields);
      RestoresMessage(n);
    case Repeated(item, _) =>
      RestoresValidNode(item);
      RestoresRepeated(n);
    case Oneof(branches, _) =>
      RestoresValidEntries(branches);
      RestoresOneof(n);
  }

  lemma {:induction false} RestoresValidEntries(es: seq<Entry>)
    requires AllValid(es)
    ensures EntriesFromDict(EntriesToDict(es)) == Ok(es)
    decreases es, 0
  {
    hide NodeFromDict, NodeToDict, Valid;
    if es != [] {
      RestoresValidNode(es[0].node);
      RestoresValidEntries(es[1..]);
      assert EntriesToDict(es)[1..] == EntriesToDict(es[1..]);
      assert [es[0]] + es[1..] == es;
    } else {
      assert EntriesToDict(es) == [];
    }
  }

  lemma {:induction false} RestoredNodeIsValid(d: Json)
    ensures NodeFromDict(d).Ok? ==> Valid(NodeFromDict(d).value)
    decreases d, 1
  {
    if d.Obj? {
      var kind := Get(d.entries, "type");
      if kind == Some(Str("message")) {
        RestoredNestedIsValid(d, "fields");
      } else if kind == Some(Str("list")) {
        var item := Get(d.entries, "item_schema");
        if item.Some? {
          var i :| 0 <= i < |d.entries| && d.entries[i] == JsonEntry("item_schema", item.value);
          RestoredNodeIsValid(item.value);
        }
      } else if kind == Some(Str("oneof")) {
        RestoredNestedIsValid(d, "branches");
      }
    }
  }

  lemma {:induction false} RestoredNestedIsValid(d: Json, key: string)
    requires d.Obj?
    ensures NestedEntries(d, key).Ok? ==> AllValid(NestedEntries(d, key).value)
    decreases d, 0
  {
    var nested := Get(d.entries, key);
    if nested.Some? && nested.value.Obj? {
      var i :| 0 <= i < |d.entries| && d.entries[i] == JsonEntry(key, nested.value);
      RestoredEntriesAreValid(nested.value.entries);
    }
  }

  lemma {:induction false} RestoredEntriesAreValid(es: seq<JsonEntry>)
    ensures EntriesFromDict(es).Ok? ==> AllValid(EntriesFromDict(es).value)
    decreases es, 0
  {
    if es == [] {
    } else {
      RestoredNodeIsValid(es[0].value);
      RestoredEntriesAreValid(es[1..]);
      var r := EntriesFromDict(es);
      if r.Ok? {
        assert r.value[1..] == EntriesFromDict(es[1..]).value;
      }
    }
  }

  /** Serialising and restoring gives back the same schema exactly when every node in it is one the
      constructors accept; what restoring accepts is always such a schema. */
  lemma SchemaRoundTrip(schema: seq<Entry>, d: Json)
    ensures SchemaFromDict(SchemaToDict(schema)) == Ok(schema) <==> AllValid(schema)
    ensures var r := SchemaFromDict(d); r.Ok? ==> SchemaFromDict(SchemaToDict(r.value)) == r
  {
    if AllValid(schema) {
      RestoresValidEntries(schema);
    }
    RestoredEntriesAreValid(EntriesToDict(schema));
    if d.Obj? {
      RestoredEntriesAreValid(d.entries);
      if EntriesFromDict(d.entries).Ok? {
        RestoresValidEntries(EntriesFromDict(d.entries).value);
      }
    }
  }
}
