/** The dictionaries that schemas travel as, key by key, and what is made of incomplete ones. */
module BusForm {
  import opened Bytes
  import opened ConfigSchema

  /** The entries of a dictionary of nodes: one for each node, in order, under its name. */
  lemma {:induction false} EntriesForm(es: seq<Entry>)
    ensures |EntriesToDict(es)| == |es|
    ensures forall i :: 0 <= i < |es| ==> EntriesToDict(es)[i] == JsonEntry(es[i].name, NodeToDict(es[i].node))
  {
    hide NodeToDict;
    if es == [] {
    } else {
      EntriesForm(es[1..]);
    }
  }

  lemma GetOfThreeExactly(k0: string, v0: Json, k1: string, v1: Json, k2: string, v2: Json, k: string)
    ensures Get([JsonEntry(k0, v0), JsonEntry(k1, v1), JsonEntry(k2, v2)], k) ==
      if k == k0 then Some(v0) else if k == k1 then Some(v1) else if k == k2 then Some(v2) else None
  {
    GetOfFive(true, k0, v0, true, k1, v1, true, k2, v2, false, "", Null, false, "", Null, k);
    var es := [JsonEntry(k0, v0), JsonEntry(k1, v1), JsonEntry(k2, v2)];
    assert EntryIf(true, k0, v0) + EntryIf(true, k1, v1) + EntryIf(true, k2, v2) + EntryIf(false, "", Null) +
           EntryIf(false, "", Null) == es;
    hide Get;
  }

  /** Every key of a structured node, and no other. Scalars are covered by ScalarEntry. */
  lemma NodeForm(n: Node, k: string)
    requires !n.Scalar?
    ensures NodeToDict(n).Obj?
    ensures Get(NodeToDict(n).entries, k) ==
      match n
      case Message(fields, optional) =>
        if k == "type" then Some(Str("message")) else if k == "optional" then Some(Bool(optional))
        else if k == "fields" then Some(SchemaToDict(fields)) else None
      case Repeated(item, defaults) =>
        if k == "type" then Some(Str("list")) else if k == "item_schema" then Some(NodeToDict(item))
        else if k == "default" then Some(List(defaults)) else None
      case Oneof(branches, active) =>
        if k == "type" then Some(Str("oneof")) else if k == "active_branch" then Some(Str(active))
        else if k == "branches" then Some(SchemaToDict(branches)) else None
  {
    match n
    case Message(fields, optional) =>
      GetOfThreeExactly("type", Str("message"), "optional", Bool(optional), "fields", SchemaToDict(fields), k);
      hide Get, EntriesToDict;
    case Repeated(item, defaults) =>
      GetOfThreeExactly("type", Str("list"), "item_schema", NodeToDict(item), "default", List(defaults), k);
      hide Get, EntriesToDict;
    case Oneof(branches, active) =>
      GetOfThreeExactly("type", Str("oneof"), "active_branch", Str(active), "branches", SchemaToDict(branches), k);
      hide Get, EntriesToDict;
  }

  /** A dictionary of nodes is restored exactly if each of them is, entry by entry under its key. */
  lemma {:induction false} EntriesRestored(es: seq<JsonEntry>)
    ensures var r := EntriesFromDict(es);
      && (r.Ok? <==> forall i :: 0 <= i < |es| ==> NodeFromDict(es[i].value).Ok?)
      && (r.Ok? ==>
            && |r.value| == |es|
            && forall i :: 0 <= i < |es| ==>
                 r.value[i].name == es[i].key && NodeFromDict(es[i].value) == Ok(r.value[i].node))
  {
    hide NodeFromDict;
    if es == [] {
    } else {
      EntriesRestored(es[1..]);
      assert forall i :: 0 < i < |es| ==> es[i] == es[1..][i - 1];
      if NodeFromDict(es[0].value).Ok? {
        assert forall i :: 0 <= i < |es| - 1 ==> es[1..][i] == es[i + 1];
      }
    }
  }

  lemma NothingNested(es: seq<JsonEntry>, key: string)
    ensures !HasKey(es, key) ==> NestedEntries(Obj(es), key) == Ok([])
    ensures forall active :: !HasName([], active)
  {
    hide HasKey;
  }

  /** What an incomplete dictionary is restored to: a missing type, item schema or active branch is refused, other
      missing parts take their defaults. */
  lemma IncompleteNodes(es: seq<JsonEntry>)
    ensures !HasKey(es, "type") ==> NodeFromDict(Obj(es)) == Err(MissingKey("type"))
    ensures Get(es, "type") == Some(Str("list")) && !HasKey(es, "item_schema") ==>
      NodeFromDict(Obj(es)) == Err(MissingKey("item_schema"))
    ensures Get(es, "type") == Some(Str("list")) && HasKey(es, "item_schema") && !HasKey(es, "default") ==>
      NodeFromDict(Obj(es)) ==
      match NodeFromDict(Get(es, "item_schema").value)
      case Ok(item) => Ok(Repeated(item, []))
      case Err(e) => Err(e)
    ensures Get(es, "type") == Some(Str("oneof")) && (!HasKey(es, "active_branch") || !HasKey(es, "branches")) ==>
      NodeFromDict(Obj(es)).Err?
    ensures Get(es, "type") == Some(Str("message")) && !HasKey(es, "fields") && !HasKey(es, "optional") ==>
      NodeFromDict(Obj(es)) == Ok(Message([], false))
    ensures forall kind ::
      && Get(es, "type") == Some(Str(kind)) && kind != "message" && kind != "list" && kind != "oneof"
      && !HasKey(es, "default") && !HasKey(es, "min") && !HasKey(es, "max") && !HasKey(es, "choices") ==>
        NodeFromDict(Obj(es)) == Ok(Scalar(kind, Null, Null, Null, []))
  {
    NothingNested(es, "fields");
    NothingNested(es, "branches");
    hide Get, HasKey, HasName, NestedEntries;
  }
}
