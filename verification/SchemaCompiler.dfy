/** Compiling a graph of message descriptors, possibly cyclic, into a schema tree. */
module SchemaCompiler {
  import opened Bytes
  import opened ConfigSchema

  datatype ScalarType = BoolType | TextType | EnumType(values: seq<string>) | IntType | FloatType | UnknownType

  datatype FieldDesc = FieldDesc(name: string, repeated: bool, message: Option<string>, scalar: ScalarType)

  datatype OneofDesc = OneofDesc(name: string, fields: seq<FieldDesc>)

  datatype Descriptor = Descriptor(fields: seq<FieldDesc>, oneofs: seq<OneofDesc>)

  /** Descriptors by full name. */
  type Graph = map<string, Descriptor>

  predicate HasField(fs: seq<FieldDesc>, name: string) {
    exists i :: 0 <= i < |fs| && fs[i].name == name
  }

  predicate DistinctNames(fs: seq<FieldDesc>) {
    forall i, j :: 0 <= i < j < |fs| ==> fs[i].name != fs[j].name
  }

  /** What the protobuf compiler guarantees of a descriptor. */
  ghost predicate WellFormedDescriptor(g: Graph, d: Descriptor) {
    && (forall i :: 0 <= i < |d.fields| ==> d.fields[i].message.Some? ==> d.fields[i].message.value in g)
    && DistinctNames(d.fields)
    && (forall i :: 0 <= i < |d.oneofs| ==>
          && d.oneofs[i].fields != [] && DistinctNames(d.oneofs[i].fields)
          && (forall k :: 0 <= k < |d.oneofs[i].fields| ==> d.oneofs[i].fields[k] in d.fields)
          && !HasField(d.fields, d.oneofs[i].name))
    && (forall i, j :: 0 <= i < j < |d.oneofs| ==>
          && d.oneofs[i].name != d.oneofs[j].name
          && forall x :: !(HasField(d.oneofs[i].fields, x) && HasField(d.oneofs[j].fields, x)))
  }

  ghost predicate WellFormed(g: Graph) {
    forall n :: n in g ==> WellFormedDescriptor(g, g[n])
  }

  /** The oneof a field belongs to. */
  function GroupOf(oneofs: seq<OneofDesc>, name: string): Option<OneofDesc> {
    if oneofs == [] then None
    else if HasField(oneofs[|oneofs| - 1].fields, name) then Some(oneofs[|oneofs| - 1])
    else GroupOf(oneofs[..|oneofs| - 1], name)
  }

  function ScalarNode(kind: string, default: Json, choices: seq<Json>): Node {
    Scalar(kind, default, Null, Null, choices)
  }

  function Names(values: seq<string>): seq<Json> {
    seq(|values|, i requires 0 <= i < |values| => Str(values[i]))
  }

  function ScalarField(f: FieldDesc): (n: Node)
    ensures n.Scalar? && Valid(n)
  {
    match f.scalar
    case BoolType => ScalarNode("bool", Bool(false), [])
    case TextType => ScalarNode("string", Str(""), [])
    case EnumType(values) =>
      if values == [] then ScalarNode("string", Str(""), [])
      else ScalarNode("enum", Str(values[0]), Names(values))
    case IntType => ScalarNode("int", Number(0.0), [])
    case FloatType => ScalarNode("float", Number(0.0), [])
    case UnknownType => ScalarNode("string", Str(""), [])
  }

  // ---------------------------------------------------------------------------
  // The compiled schema, as a function of graph, type and types already being expanded
  // ---------------------------------------------------------------------------

  ghost function SchemaOf(g: Graph, name: string, visited: set<string>): seq<Entry>
    requires WellFormed(g) && name in g
    decreases g.Keys - visited, 1
  {
    if name in visited then [] else EntriesOf(g, g[name], g[name].fields, visited + {name}, {})
  }

  ghost predicate Refers(g: Graph, fs: seq<FieldDesc>) {
    forall i :: 0 <= i < |fs| ==> fs[i].message.Some? ==> fs[i].message.value in g
  }

  /** The entries of the given fields; done holds the oneofs that already have theirs. */
  ghost function EntriesOf(g: Graph, d: Descriptor, fs: seq<FieldDesc>, visited: set<string>,
                          done: set<string>): seq<Entry>
    requires WellFormed(g) && WellFormedDescriptor(g, d) && Refers(g, fs)
    decreases g.Keys - visited, 4, |fs|
  {
    if fs == [] then []
    else
      var group := GroupOf(d.oneofs, fs[0].name);
      if group.None? then [Entry(fs[0].name, FieldNode(g, fs[0], visited))] + EntriesOf(g, d, fs[1..], visited, done)
      else if group.value.name in done then EntriesOf(g, d, fs[1..], visited, done)
      else
        GroupRefers(g, d, fs[0].name);
        [Entry(group.value.name, OneofNode(g, group.value, visited))] +
        EntriesOf(g, d, fs[1..], visited, done + {group.value.name})
  }

  lemma GroupIsOneof(oneofs: seq<OneofDesc>, name: string)
    ensures var o := GroupOf(oneofs, name);
      && (o.Some? ==> o.value in oneofs && HasField(o.value.fields, name))
      && (o.None? ==> forall i :: 0 <= i < |oneofs| ==> !HasField(oneofs[i].fields, name))
  {
  }

  lemma GroupRefers(g: Graph, d: Descriptor, name: string)
    requires WellFormedDescriptor(g, d) && GroupOf(d.oneofs, name).Some?
    ensures var o := GroupOf(d.oneofs, name).value; Refers(g, o.fields) && o.fields != [] && DistinctNames(o.fields)
  {
    GroupIsOneof(d.oneofs, name);
  }

  ghost function OneofNode(g: Graph, o: OneofDesc, visited: set<string>): Node
    requires WellFormed(g) && Refers(g, o.fields) && o.fields != []
    decreases g.Keys - visited, 3, 1
  {
    Oneof(BranchesOf(g, o.fields, visited), o.fields[0].name)
  }

  ghost function BranchesOf(g: Graph, fs: seq<FieldDesc>, visited: set<string>): (r: seq<Entry>)
    requires WellFormed(g) && Refers(g, fs)
    ensures |r| == |fs| && forall i :: 0 <= i < |fs| ==> r[i].name == fs[i].name
    decreases g.Keys - visited, 3, 0, |fs|
  {
    if fs == [] then [] else BranchesOf(g, fs[..|fs| - 1], visited) +
                             [Entry(fs[|fs| - 1].name, BranchNode(g, fs[|fs| - 1], visited))]
  }

  ghost function BranchNode(g: Graph, f: FieldDesc, visited: set<string>): Node
    requires WellFormed(g) && (f.message.Some? ==> f.message.value in g)
    decreases g.Keys - visited, 2
  {
    if f.message.Some? then Message(SchemaOf(g, f.message.value, visited), true) else ScalarField(f)
  }

  ghost function FieldNode(g: Graph, f: FieldDesc, visited: set<string>): Node
    requires WellFormed(g) && (f.message.Some? ==> f.message.value in g)
    decreases g.Keys - visited, 2
  {
    if f.repeated then
      Repeated(if f.message.Some? then Message(SchemaOf(g, f.message.value, visited), false) else ScalarField(f), [])
    else if f.message.Some? then Message(SchemaOf(g, f.message.value, visited), true)
    else ScalarField(f)
  }

  // ---------------------------------------------------------------------------
  // The compiler
  // ---------------------------------------------------------------------------

  /** schema[name] = node. */
  function Set(es: seq<Entry>, name: string, node: Node): seq<Entry> {
    if es == [] then [Entry(name, node)]
    else if es[0].name == name then [Entry(name, node)] + es[1..]
    else [es[0]] + Set(es[1..], name, node)
  }

  lemma SetNew(es: seq<Entry>, name: string, node: Node)
    requires !HasName(es, name)
    ensures Set(es, name, node) == es + [Entry(name, node)]
  {
    if es != [] {
      assert es[0].name != name;
      assert forall i :: 0 <= i < |es[1..]| ==> es[1..][i] == es[i + 1];
      SetNew(es[1..], name, node);
      assert [es[0]] + (es[1..] + [Entry(name, node)]) == es + [Entry(name, node)];
    }
  }

  /** Field name to oneof name, for every field that belongs to a oneof. */
  method OneofNames(oneofs: seq<OneofDesc>) returns (m: map<string, string>)
    ensures forall x :: x in m <==> GroupOf(oneofs, x).Some?
    ensures forall x :: x in m ==> m[x] == GroupOf(oneofs, x).value.name
  {
    m := map[];
    for i := 0 to |oneofs|
      invariant forall x :: x in m <==> GroupOf(oneofs[..i], x).Some?
      invariant forall x :: x in m ==> m[x] == GroupOf(oneofs[..i], x).value.name
    {
      ghost var before := m;
      var fs := oneofs[i].fields;
      for k := 0 to |fs|
        invariant forall x :: x in m <==> x in before || HasField(fs[..k], x)
        invariant forall x :: x in m ==> m[x] == if HasField(fs[..k], x) then oneofs[i].name else before[x]
      {
        forall x
          ensures HasField(fs[..k + 1], x) <==> HasField(fs[..k], x) || x == fs[k].name
        {
          HasFieldSnoc(fs, k, x);
        }
        m := m[fs[k].name := oneofs[i].name];
      }
      assert fs[..|fs|] == fs;
      assert oneofs[..i + 1][..i] == oneofs[..i];
    }
    assert oneofs[..|oneofs|] == oneofs;
  }

  lemma HasFieldSnoc(fs: seq<FieldDesc>, k: nat, x: string)
    requires k < |fs|
    ensures HasField(fs[..k + 1], x) <==> HasField(fs[..k], x) || x == fs[k].name
  {
    if HasField(fs[..k], x) {
      var i :| 0 <= i < k && fs[..k][i].name == x;
      assert fs[..k + 1][i].name == x;
    }
    if x == fs[k].name {
      assert fs[..k + 1][k].name == x;
    }
  }

  /** descriptor.oneofs_by_name[name]. */
  method OneofByName(oneofs: seq<OneofDesc>, name: string) returns (o: OneofDesc)
    requires exists i :: 0 <= i < |oneofs| && oneofs[i].name == name
    ensures o in oneofs && o.name == name
  {
    var i := 0;
    while oneofs[i].name != name
      invariant 0 <= i < |oneofs|
      invariant forall k :: 0 <= k < i ==> oneofs[k].name != name
      decreases |oneofs| - i
    {
      i := i + 1;
    }
    return oneofs[i];
  }

  method CompileMessage(g: Graph, f: FieldDesc, visited: set<string>, optional: bool) returns (n: Node)
    requires WellFormed(g) && (f.message.Some? ==> f.message.value in g)
    ensures n == if f.message.Some? then Message(SchemaOf(g, f.message.value, visited), optional) else ScalarField(f)
    decreases g.Keys - visited, 2
  {
    if f.message.None? {
      return ScalarField(f);
    }
    var fields := Compile(g, f.message.value, visited);
    return Message(fields, optional);
  }

  lemma BranchIsNew(g: Graph, fs: seq<FieldDesc>, k: nat, visited: set<string>)
    requires WellFormed(g) && Refers(g, fs) && DistinctNames(fs) && k < |fs|
    ensures Refers(g, fs[..k]) && Refers(g, fs[..k + 1])
    ensures var branches, f := BranchesOf(g, fs[..k], visited), fs[k];
      BranchesOf(g, fs[..k + 1], visited) == Set(branches, f.name, BranchNode(g, f, visited))
  {
    hide BranchNode, Set, WellFormed;
    BranchesSnoc(g, fs, k, visited);
    var branches := BranchesOf(g, fs[..k], visited);
    assert forall i :: 0 <= i < k ==> branches[i].name == fs[i].name;
    SetNew(branches, fs[k].name, BranchNode(g, fs[k], visited));
  }

  lemma BranchesSnoc(g: Graph, fs: seq<FieldDesc>, k: nat, visited: set<string>)
    requires WellFormed(g) && Refers(g, fs) && k < |fs|
    ensures Refers(g, fs[..k]) && Refers(g, fs[..k + 1])
    ensures BranchesOf(g, fs[..k + 1], visited) ==
            BranchesOf(g, fs[..k], visited) + [Entry(fs[k].name, BranchNode(g, fs[k], visited))]
  {
    hide BranchNode, WellFormed;
    assert fs[..k + 1][..k] == fs[..k];
  }

  method CompileOneof(g: Graph, o: OneofDesc, visited: set<string>) returns (n: Node)
    requires WellFormed(g) && Refers(g, o.fields) && o.fields != [] && DistinctNames(o.fields)
    ensures n == OneofNode(g, o, visited)
    decreases g.Keys - visited, 3
  {
    var branches: seq<Entry> := [];
    assert BranchesOf(g, o.fields[..0], visited) == [];
    hide BranchesOf, WellFormed;
    for k := 0 to |o.fields|
      invariant Refers(g, o.fields[..k]) && branches == BranchesOf(g, o.fields[..k], visited)
    {
      var node := CompileMessage(g, o.fields[k], visited, true);
      BranchIsNew(g, o.fields, k, visited);
      branches := Set(branches, o.fields[k].name, node);
    }
    assert o.fields[..|o.fields|] == o.fields;
    return Oneof(branches, branches[0].name);
  }

  method CompileField(g: Graph, f: FieldDesc, visited: set<string>) returns (n: Node)
    requires WellFormed(g) && (f.message.Some? ==> f.message.value in g)
    ensures n == FieldNode(g, f, visited)
    decreases g.Keys - visited, 3
  {
    if f.repeated {
      var item := CompileMessage(g, f, visited, false);
      return Repeated(item, []);
    }
    n := CompileMessage(g, f, visited, true);
  }

  /** Every name in the schema so far is that of a compiled field or of an opened oneof. */
  ghost predicate NamesFrom(schema: seq<Entry>, fs: seq<FieldDesc>, done: set<string>) {
    forall i :: 0 <= i < |schema| ==> schema[i].name in done || HasField(fs, schema[i].name)
  }

  lemma EntriesStep(g: Graph, d: Descriptor, i: nat, visited: set<string>, done: set<string>)
    requires WellFormed(g) && WellFormedDescriptor(g, d) && i < |d.fields|
    ensures Refers(g, d.fields[i..]) && Refers(g, d.fields[i + 1..])
    ensures d.fields[i].message.Some? ==> d.fields[i].message.value in g
    ensures var f, group := d.fields[i], GroupOf(d.oneofs, d.fields[i].name);
      EntriesOf(g, d, d.fields[i..], visited, done) ==
        if group.None? then [Entry(f.name, FieldNode(g, f, visited))]
          + EntriesOf(g, d, d.fields[i + 1..], visited, done)
        else if group.value.name in done then EntriesOf(g, d, d.fields[i + 1..], visited, done)
        else (
          GroupRefers(g, d, f.name);
          [Entry(group.value.name, OneofNode(g, group.value, visited))] +
          EntriesOf(g, d, d.fields[i + 1..], visited, done + {group.value.name}))
  {
    assert d.fields[i..][0] == d.fields[i] && d.fields[i..][1..] == d.fields[i + 1..];
  }

  /** The group of a field is the only oneof of its name, and its name is not that of a field. */
  lemma GroupByName(g: Graph, d: Descriptor, name: string)
    requires WellFormedDescriptor(g, d) && GroupOf(d.oneofs, name).Some?
    ensures var o := GroupOf(d.oneofs, name).value;
      && o in d.oneofs && !HasField(d.fields, o.name)
      && forall o' :: o' in d.oneofs && o'.name == o.name ==> o' == o
  {
    GroupIsOneof(d.oneofs, name);
  }

  /** The entries of an expanded type, one pass over its fields. */
  method CompileFields(g: Graph, d: Descriptor, visited: set<string>) returns (schema: seq<Entry>)
    requires WellFormed(g) && WellFormedDescriptor(g, d)
    ensures schema == EntriesOf(g, d, d.fields, visited, {})
    decreases g.Keys - visited, 4
  {
    hide *;
    var oneofNames := OneofNames(d.oneofs);
    var processed: set<string> := {};
    schema := [];
    EntriesStart(g, d, visited);
    ghost var goal := EntriesOf(g, d, d.fields, visited, {});
    NothingBefore(goal);
    for i := 0 to |d.fields|
      invariant Refers(g, d.fields[i..])
      invariant goal == schema + EntriesOf(g, d, d.fields[i..], visited, processed)
      invariant NamesFrom(schema, d.fields[..i], processed)
      invariant forall x :: x in processed ==> !HasField(d.fields, x)
    {
      var f := d.fields[i];
      EntriesStep(g, d, i, visited, processed);
      if f.name in oneofNames {
        var group := oneofNames[f.name];
        if group in processed {
          NamesStay(d.fields, schema, processed, i);
          continue;
        }
        GroupRefers(g, d, f.name);
        GroupByName(g, d, f.name);
        var o := OneofByName(d.oneofs, group);
        var node := CompileOneof(g, o, visited);
        NameIsNew(d.fields, schema, processed, i, group, node);
        Associative(schema, [Entry(group, node)], EntriesOf(g, d, d.fields[i + 1..], visited, processed + {group}));
        schema := Set(schema, group, node);
        processed := processed + {group};
        continue;
      }
      var node := CompileField(g, f, visited);
      NameIsNew(d.fields, schema, processed, i, f.name, node);
      Associative(schema, [Entry(f.name, node)], EntriesOf(g, d, d.fields[i + 1..], visited, processed));
      schema := Set(schema, f.name, node);
    }
    NoFields(g, d, visited, processed);
  }

  /** The compiler: a type that is already being expanded yields an empty schema. */
  method Compile(g: Graph, name: string, visited: set<string>) returns (schema: seq<Entry>)
    requires WellFormed(g) && name in g
    ensures schema == SchemaOf(g, name, visited)
    decreases g.Keys - visited, 1
  {
    if name in visited {
      return [];
    }
    assert name in g.Keys - visited;
    schema := CompileFields(g, g[name], visited + {name});
  }

  lemma NoFields(g: Graph, d: Descriptor, visited: set<string>, done: set<string>)
    requires WellFormed(g) && WellFormedDescriptor(g, d)
    ensures Refers(g, d.fields[|d.fields|..])
    ensures EntriesOf(g, d, d.fields[|d.fields|..], visited, done) == []
  {
  }

  lemma EntriesStart(g: Graph, d: Descriptor, visited: set<string>)
    requires WellFormed(g) && WellFormedDescriptor(g, d)
    ensures Refers(g, d.fields) && Refers(g, d.fields[0..]) && DistinctNames(d.fields)
    ensures EntriesOf(g, d, d.fields[0..], visited, {}) == EntriesOf(g, d, d.fields, visited, {})
    ensures NamesFrom([], d.fields[..0], {})
  {
    assert d.fields[0..] == d.fields;
  }

  lemma NamesStay(fs: seq<FieldDesc>, schema: seq<Entry>, done: set<string>, i: nat)
    requires i < |fs| && NamesFrom(schema, fs[..i], done)
    ensures NamesFrom(schema, fs[..i + 1], done)
  {
    forall k | 0 <= k < |schema|
      ensures schema[k].name in done || HasField(fs[..i + 1], schema[k].name)
    {
      HasFieldSnoc(fs, i, schema[k].name);
    }
  }

  /** The entry of field i, or of the oneof opened by it, has a name the schema does not hold yet. */
  lemma NameIsNew(fs: seq<FieldDesc>, schema: seq<Entry>, done: set<string>, i: nat, name: string, node: Node)
    requires DistinctNames(fs) && i < |fs| && NamesFrom(schema, fs[..i], done)
    requires forall x :: x in done ==> !HasField(fs, x)
    requires name == fs[i].name || (name !in done && !HasField(fs, name))
    ensures HasField(fs, fs[i].name)
    ensures Set(schema, name, node) == schema + [Entry(name, node)]
    ensures NamesFrom(schema + [Entry(name, node)], fs[..i + 1], if name == fs[i].name then done else done + {name})
  {
    assert forall j :: 0 <= j < i ==> fs[..i][j] == fs[j];
    assert name == fs[i].name ==> HasField(fs, name);
    SetNew(schema, name, node);
    NamesStay(fs, schema, done, i);
    HasFieldSnoc(fs, i, name);
  }

  // ---------------------------------------------------------------------------
  // Every field once
  // ---------------------------------------------------------------------------

  function CountNames(es: seq<Entry>, name: string): nat {
    if es == [] then 0 else (if es[0].name == name then 1 else 0) + CountNames(es[1..], name)
  }

  /** How often a name stands in a schema, as a key or as a branch of a oneof node at this level. */
  function Occurrences(es: seq<Entry>, name: string): nat {
    if es == [] then 0
    else
      (if es[0].name == name then 1 else 0) +
      (if es[0].node.Oneof? then CountNames(es[0].node.branches, name) else 0) +
      Occurrences(es[1..], name)
  }

  lemma {:induction false} CountSnoc(es: seq<Entry>, e: Entry, name: string)
    ensures CountNames(es + [e], name) == CountNames(es, name) + (if e.name == name then 1 else 0)
  {
    if es == [] {
      assert es + [e] == [e];
    } else {
      assert (es + [e])[1..] == es[1..] + [e];
      CountSnoc(es[1..], e, name);
    }
  }

  lemma {:induction false} BranchesOnce(g: Graph, fs: seq<FieldDesc>, visited: set<string>, name: string)
    requires WellFormed(g) && Refers(g, fs) && DistinctNames(fs)
    ensures CountNames(BranchesOf(g, fs, visited), name) == if HasField(fs, name) then 1 else 0
    decreases |fs|
  {
    hide BranchNode;
    if fs == [] {
    } else {
      var front, last := fs[..|fs| - 1], fs[|fs| - 1];
      BranchesOnce(g, front, visited, name);
      CountSnoc(BranchesOf(g, front, visited), Entry(last.name, BranchNode(g, last, visited)), name);
      assert fs[..|fs|] == fs;
      HasFieldSnoc(fs, |fs| - 1, name);
    }
  }

  /** Whether the fields from here on still contribute an entry for the oneof. */
  ghost predicate StillToCome(fs: seq<FieldDesc>, o: OneofDesc, done: set<string>) {
    o.name !in done && exists i :: 0 <= i < |fs| && HasField(o.fields, fs[i].name)
  }

  ghost function Expected(d: Descriptor, fs: seq<FieldDesc>, done: set<string>, name: string): nat {
    var group := GroupOf(d.oneofs, name);
    if group.None? then (if HasField(fs, name) then 1 else 0)
    else if StillToCome(fs, group.value, done) then 1 else 0
  }

  lemma HasFieldCons(fs: seq<FieldDesc>, name: string)
    requires fs != []
    ensures HasField(fs, name) <==> fs[0].name == name || HasField(fs[1..], name)
  {
    if HasField(fs, name) && fs[0].name != name {
      var i :| 0 <= i < |fs| && fs[i].name == name;
      assert fs[1..][i - 1].name == name;
    }
    if HasField(fs[1..], name) {
      var i :| 0 <= i < |fs[1..]| && fs[1..][i].name == name;
      assert fs[i + 1].name == name;
    }
  }

  lemma StillToComeCons(fs: seq<FieldDesc>, o: OneofDesc, done: set<string>)
    requires fs != []
    ensures StillToCome(fs, o, done) <==>
      o.name !in done && (HasField(o.fields, fs[0].name) || StillToCome(fs[1..], o, done))
  {
    if StillToCome(fs, o, done) && !HasField(o.fields, fs[0].name) {
      var i :| 0 <= i < |fs| && HasField(o.fields, fs[i].name);
      assert HasField(o.fields, fs[1..][i - 1].name);
    }
    if StillToCome(fs[1..], o, done) {
      var i :| 0 <= i < |fs[1..]| && HasField(o.fields, fs[1..][i].name);
      assert HasField(o.fields, fs[i + 1].name);
    }
  }

  /** A field is in a oneof exactly when that oneof is its group. */
  lemma GroupIsUnique(g: Graph, d: Descriptor, name: string, o: OneofDesc)
    requires WellFormedDescriptor(g, d) && o in d.oneofs
    ensures HasField(o.fields, name) <==> GroupOf(d.oneofs, name) == Some(o)
  {
    GroupIsOneof(d.oneofs, name);
  }

  /** How the first field, or the oneof it opens, accounts for a name. */
  lemma ExpectedStep(g: Graph, d: Descriptor, i: nat, done: set<string>, name: string)
    requires WellFormedDescriptor(g, d) && i < |d.fields|
    ensures var f, group, rest := d.fields[i], GroupOf(d.oneofs, d.fields[i].name), d.fields[i + 1..];
      Expected(d, d.fields[i..], done, name) ==
        if group.None? then (if f.name == name then 1 else 0) + Expected(d, rest, done, name)
        else if group.value.name in done then Expected(d, rest, done, name)
        else (if HasField(group.value.fields, name) then 1 else 0) +
             Expected(d, rest, done + {group.value.name}, name)
  {
    var f, fs, rest := d.fields[i], d.fields[i..], d.fields[i + 1..];
    assert fs[0] == f && fs[1..] == rest;
    assert DistinctNames(d.fields);
    hide *;
    var mine, group := GroupOf(d.oneofs, name), GroupOf(d.oneofs, f.name);
    var done' := if group.Some? then done + {group.value.name} else done;
    ExpectedIs(d, fs, done, name);
    ExpectedIs(d, rest, done, name);
    ExpectedIs(d, rest, done', name);
    HasFieldCons(fs, name);
    NotLater(d.fields, i);
    if mine.Some? {
      GroupByName(g, d, name);
      GroupIsUnique(g, d, f.name, mine.value);
      StillToComeCons(fs, mine.value, done);
      StillToComeDone(rest, mine.value, done, done');
    }
    if group.Some? {
      GroupByName(g, d, f.name);
      GroupIsUnique(g, d, name, group.value);
    }
  }

  lemma ExpectedIs(d: Descriptor, fs: seq<FieldDesc>, done: set<string>, name: string)
    ensures var group := GroupOf(d.oneofs, name);
      Expected(d, fs, done, name) ==
        if group.None? then (if HasField(fs, name) then 1 else 0)
        else if StillToCome(fs, group.value, done) then 1 else 0
  {
  }

  lemma StillToComeDone(fs: seq<FieldDesc>, o: OneofDesc, done: set<string>, done': set<string>)
    ensures o.name in done' ==> !StillToCome(fs, o, done')
    ensures (o.name in done <==> o.name in done') ==> (StillToCome(fs, o, done) <==> StillToCome(fs, o, done'))
  {
  }

  lemma NothingExpected(g: Graph, d: Descriptor, visited: set<string>, done: set<string>, name: string)
    requires WellFormed(g) && WellFormedDescriptor(g, d)
    ensures Refers(g, d.fields[|d.fields|..])
    ensures Occurrences(EntriesOf(g, d, d.fields[|d.fields|..], visited, done), name) == 0
    ensures Expected(d, d.fields[|d.fields|..], done, name) == 0
  {
    NoFields(g, d, visited, done);
    hide EntriesOf, WellFormed, WellFormedDescriptor;
  }

  lemma {:induction false} EntriesCount(g: Graph, d: Descriptor, i: nat, visited: set<string>,
                                        done: set<string>, name: string)
    requires WellFormed(g) && WellFormedDescriptor(g, d) && i <= |d.fields| && HasField(d.fields, name)
    ensures Refers(g, d.fields[i..])
    ensures Occurrences(EntriesOf(g, d, d.fields[i..], visited, done), name) == Expected(d, d.fields[i..], done, name)
    decreases |d.fields| - i
  {
    hide *;
    if i == |d.fields| {
      NothingExpected(g, d, visited, done, name);
    } else {
      var f, group := d.fields[i], GroupOf(d.oneofs, d.fields[i].name);
      EntriesStep(g, d, i, visited, done);
      ExpectedStep(g, d, i, done, name);
      if group.None? {
        EntriesCount(g, d, i + 1, visited, done, name);
        PlainEntryCount(g, f, visited, EntriesOf(g, d, d.fields[i + 1..], visited, done), name);
      } else if group.value.name in done {
        EntriesCount(g, d, i + 1, visited, done, name);
      } else {
        var done' := done + {group.value.name};
        EntriesCount(g, d, i + 1, visited, done', name);
        GroupRefers(g, d, f.name);
        GroupByName(g, d, f.name);
        OneofEntryCount(g, group.value, visited, EntriesOf(g, d, d.fields[i + 1..], visited, done'), name);
      }
    }
  }

  lemma NotLater(fs: seq<FieldDesc>, i: nat)
    requires DistinctNames(fs) && i < |fs|
    ensures !HasField(fs[i + 1..], fs[i].name)
  {
    var tail := fs[i + 1..];
    assert forall k :: 0 <= k < |tail| ==> tail[k] == fs[i + 1 + k];
  }

  lemma PlainEntryCount(g: Graph, f: FieldDesc, visited: set<string>, rest: seq<Entry>, name: string)
    requires WellFormed(g) && (f.message.Some? ==> f.message.value in g)
    ensures Occurrences([Entry(f.name, FieldNode(g, f, visited))] + rest, name) ==
            (if f.name == name then 1 else 0) + Occurrences(rest, name)
  {
    var es := [Entry(f.name, FieldNode(g, f, visited))] + rest;
    assert es[1..] == rest;
  }

  lemma OneofEntryCount(g: Graph, o: OneofDesc, visited: set<string>, rest: seq<Entry>, name: string)
    requires WellFormed(g) && Refers(g, o.fields) && o.fields != [] && DistinctNames(o.fields) && name != o.name
    ensures Occurrences([Entry(o.name, OneofNode(g, o, visited))] + rest, name) ==
            (if HasField(o.fields, name) then 1 else 0) + Occurrences(rest, name)
  {
    var es := [Entry(o.name, OneofNode(g, o, visited))] + rest;
    assert es[1..] == rest;
    BranchesOnce(g, o.fields, visited, name);
  }

  /** Each field of an expanded type stands exactly once in its schema, as a key or as a branch of its oneof. */
  lemma EachFieldOnce(g: Graph, name: string, visited: set<string>, field: string)
    requires WellFormed(g) && name in g && name !in visited && HasField(g[name].fields, field)
    ensures Occurrences(SchemaOf(g, name, visited), field) == 1
  {
    var d := g[name];
    EntriesCount(g, d, 0, visited + {name}, {}, field);
    assert d.fields[0..] == d.fields;
    GroupIsOneof(d.oneofs, field);
    var i :| 0 <= i < |d.fields| && d.fields[i].name == field;
    hide EntriesOf, Occurrences;
  }

  // ---------------------------------------------------------------------------
  // Cycles are cut, and the result survives the bus
  // ---------------------------------------------------------------------------

  /** sub is the field list of a message at the node: the node itself, its list item, or a branch of its oneof. */
  ghost predicate Holds(n: Node, sub: seq<Entry>)
    decreases n
  {
    match n
    case Scalar(_, _, _, _, _) => false
    case Message(fields, _) => fields == sub
    case Repeated(item, _) => Holds(item, sub)
    case Oneof(branches, _) => exists i :: 0 <= i < |branches| && Holds(branches[i].node, sub)
  }

  ghost predicate HoldsIn(es: seq<Entry>, sub: seq<Entry>) {
    exists k :: 0 <= k < |es| && Holds(es[k].node, sub)
  }

  ghost predicate RefersTo(d: Descriptor, name: string) {
    exists f :: f in d.fields && f.message == Some(name)
  }

  /** sub is the schema of a type that the descriptor refers to and that is not being expanded yet. */
  ghost predicate Expands(g: Graph, d: Descriptor, visited: set<string>, sub: seq<Entry>)
    requires WellFormed(g)
  {
    exists t :: t in g && t !in visited && RefersTo(d, t) && sub == SchemaOf(g, t, visited)
  }

  lemma MessageExpands(g: Graph, d: Descriptor, f: FieldDesc, visited: set<string>, sub: seq<Entry>)
    requires WellFormed(g) && f in d.fields && f.message.Some? && f.message.value in g
    requires sub != [] && sub == SchemaOf(g, f.message.value, visited)
    ensures Expands(g, d, visited, sub)
  {
    hide WellFormed, EntriesOf;
    assert RefersTo(d, f.message.value);
  }

  lemma FieldExpands(g: Graph, d: Descriptor, f: FieldDesc, visited: set<string>, sub: seq<Entry>)
    requires WellFormed(g) && f in d.fields && (f.message.Some? ==> f.message.value in g) && sub != []
    ensures Holds(FieldNode(g, f, visited), sub) || Holds(BranchNode(g, f, visited), sub) ==>
      Expands(g, d, visited, sub)
  {
    hide WellFormed, SchemaOf, Expands, Holds;
    if f.message.Some? {
      var fields := SchemaOf(g, f.message.value, visited);
      HoldsOne(fields, true, sub);
      HoldsOne(fields, false, sub);
      if sub == fields {
        MessageExpands(g, d, f, visited, sub);
      }
    } else {
      HoldsNone(ScalarField(f), sub);
    }
  }

  lemma HoldsOne(fields: seq<Entry>, optional: bool, sub: seq<Entry>)
    ensures Holds(Message(fields, optional), sub) <==> fields == sub
    ensures Holds(Repeated(Message(fields, optional), []), sub) <==> fields == sub
  {
  }

  lemma HoldsNone(n: Node, sub: seq<Entry>)
    requires n.Scalar?
    ensures !Holds(n, sub) && !Holds(Repeated(n, []), sub)
  {
  }

  lemma {:induction false} BranchAt(g: Graph, fs: seq<FieldDesc>, visited: set<string>, i: nat)
    requires WellFormed(g) && Refers(g, fs) && i < |fs|
    ensures BranchesOf(g, fs, visited)[i].node == BranchNode(g, fs[i], visited)
    decreases |fs|
  {
    hide WellFormed, BranchNode;
    if i == |fs| - 1 {
    } else {
      BranchAt(g, fs[..|fs| - 1], visited, i);
    }
  }

  lemma OneofExpands(g: Graph, d: Descriptor, o: OneofDesc, visited: set<string>, sub: seq<Entry>)
    requires WellFormed(g) && Refers(g, o.fields) && o.fields != [] && sub != []
    requires forall k :: 0 <= k < |o.fields| ==> o.fields[k] in d.fields
    requires Holds(OneofNode(g, o, visited), sub)
    ensures Expands(g, d, visited, sub)
  {
    hide WellFormed, BranchesOf, BranchNode, FieldNode, Expands;
    var branches := BranchesOf(g, o.fields, visited);
    var i :| 0 <= i < |branches| && Holds(branches[i].node, sub);
    BranchAt(g, o.fields, visited, i);
    FieldExpands(g, d, o.fields[i], visited, sub);
  }

  lemma GroupInFields(g: Graph, d: Descriptor, name: string)
    requires WellFormedDescriptor(g, d) && GroupOf(d.oneofs, name).Some?
    ensures var o := GroupOf(d.oneofs, name).value; forall k :: 0 <= k < |o.fields| ==> o.fields[k] in d.fields
  {
    GroupIsOneof(d.oneofs, name);
    hide HasField, DistinctNames;
  }

  lemma HoldsInCons(e: Entry, rest: seq<Entry>, sub: seq<Entry>)
    ensures HoldsIn([e] + rest, sub) <==> Holds(e.node, sub) || HoldsIn(rest, sub)
  {
    hide Holds;
    var es := [e] + rest;
    assert es[0] == e && forall k :: 0 <= k < |rest| ==> es[k + 1] == rest[k];
    if HoldsIn(es, sub) {
      var k :| 0 <= k < |es| && Holds(es[k].node, sub);
      assert k > 0 ==> es[k] == rest[k - 1];
    }
  }

  lemma {:induction false} EntriesExpand(g: Graph, d: Descriptor, i: nat, visited: set<string>,
                                         done: set<string>, sub: seq<Entry>)
    requires WellFormed(g) && WellFormedDescriptor(g, d) && i <= |d.fields| && sub != []
    ensures Refers(g, d.fields[i..])
    ensures HoldsIn(EntriesOf(g, d, d.fields[i..], visited, done), sub) ==> Expands(g, d, visited, sub)
    decreases |d.fields| - i
  {
    hide *;
    if i == |d.fields| {
      NoFields(g, d, visited, done);
      NothingHolds(sub);
    } else {
      var f, group := d.fields[i], GroupOf(d.oneofs, d.fields[i].name);
      EntriesStep(g, d, i, visited, done);
      if group.None? {
        EntriesExpand(g, d, i + 1, visited, done, sub);
        FieldExpands(g, d, f, visited, sub);
        HoldsInCons(Entry(f.name, FieldNode(g, f, visited)), EntriesOf(g, d, d.fields[i + 1..], visited, done), sub);
      } else if group.value.name in done {
        EntriesExpand(g, d, i + 1, visited, done, sub);
      } else {
        var done' := done + {group.value.name};
        EntriesExpand(g, d, i + 1, visited, done', sub);
        GroupRefers(g, d, f.name);
        GroupInFields(g, d, f.name);
        var node := OneofNode(g, group.value, visited);
        HoldsInCons(Entry(group.value.name, node), EntriesOf(g, d, d.fields[i + 1..], visited, done'), sub);
        if Holds(node, sub) {
          OneofExpands(g, d, group.value, visited, sub);
        }
      }
    }
  }

  lemma NothingHolds(sub: seq<Entry>)
    ensures !HoldsIn([], sub)
  {
  }

  /** Whatever non-empty message stands in a compiled schema is the schema of a type that the compiled type
      refers to, expanded under a set of types that now holds the compiled type and did not hold the new one. */
  lemma NestedSchemasAreNew(g: Graph, name: string, visited: set<string>, sub: seq<Entry>)
    requires WellFormed(g) && name in g && sub != [] && HoldsIn(SchemaOf(g, name, visited), sub)
    ensures name !in visited && Expands(g, g[name], visited + {name}, sub)
  {
    EntriesExpand(g, g[name], 0, visited + {name}, {}, sub);
    assert g[name].fields[0..] == g[name].fields;
    hide EntriesOf, Holds, Expands;
  }

  /** A path into a schema: each field list stands in the one before it, and all of them have fields. */
  ghost predicate NestingPath(path: seq<seq<Entry>>) {
    && (forall i :: 0 <= i < |path| ==> path[i] != [])
    && forall i :: 0 < i < |path| ==> HoldsIn(path[i - 1], path[i])
  }

  function Members(ts: seq<string>): set<string> { set t | t in ts }

  /** The types of a path: each field list is the schema of its type under the types before it, and each type
      is referred to by the one before it. */
  ghost predicate TypesOf(g: Graph, visited: set<string>, path: seq<seq<Entry>>, types: seq<string>)
    requires WellFormed(g)
  {
    && |types| == |path|
    && (forall i :: 0 <= i < |path| ==>
          types[i] in g && path[i] == SchemaOf(g, types[i], visited + Members(types[..i])))
    && (forall i :: 0 < i < |path| ==> RefersTo(g[types[i - 1]], types[i]))
  }

  lemma TypesOfCons(g: Graph, visited: set<string>, path: seq<seq<Entry>>, name: string, rest: seq<string>)
    requires WellFormed(g) && name in g && path != [] && path[0] == SchemaOf(g, name, visited)
    requires TypesOf(g, visited + {name}, path[1..], rest)
    requires rest != [] ==> RefersTo(g[name], rest[0])
    ensures TypesOf(g, visited, path, [name] + rest)
  {
    hide WellFormed, RefersTo, SchemaOf;
    var types := [name] + rest;
    assert types[..0] == [] && visited + Members([]) == visited;
    forall i | 0 < i < |path|
      ensures types[i] in g && path[i] == SchemaOf(g, types[i], visited + Members(types[..i]))
    {
      assert path[i] == path[1..][i - 1] && types[i] == rest[i - 1];
      assert types[..i] == [name] + rest[..i - 1];
      assert visited + Members(types[..i]) == visited + {name} + Members(rest[..i - 1]);
    }
    forall i | 0 < i < |path|
      ensures RefersTo(g[types[i - 1]], types[i])
    {
      if i > 1 {
        assert RefersTo(g[rest[i - 2]], rest[i - 1]);
      }
    }
  }

  /** No type is expanded twice on one path: along every path of nested messages in a compiled schema the
      field lists are the schemas of pairwise different types, none of them visited before. */
  lemma {:induction false} NoTypeTwice(g: Graph, name: string, visited: set<string>, path: seq<seq<Entry>>)
    returns (types: seq<string>)
    requires WellFormed(g) && name in g && NestingPath(path) && path != [] && path[0] == SchemaOf(g, name, visited)
    ensures types != [] && types[0] == name && TypesOf(g, visited, path, types)
    ensures forall i, j :: 0 <= i < j < |types| ==> types[i] != types[j]
    ensures forall i :: 0 <= i < |types| ==> types[i] !in visited
    decreases |path|
  {
    hide WellFormed, RefersTo, HoldsIn, EntriesOf, TypesOf;
    if |path| == 1 {
      NoTypesAfter(g, visited + {name}, path[1..]);
      TypesOfCons(g, visited, path, name, []);
      types := [name] + [];
    } else {
      assert HoldsIn(path[0], path[1]);
      NestedSchemasAreNew(g, name, visited, path[1]);
      var t :| t in g && t !in visited + {name} && RefersTo(g[name], t) && path[1] == SchemaOf(g, t, visited + {name});
      assert NestingPath(path[1..]);
      var rest := NoTypeTwice(g, t, visited + {name}, path[1..]);
      TypesOfCons(g, visited, path, name, rest);
      types := [name] + rest;
    }
  }

  lemma NoTypesAfter(g: Graph, visited: set<string>, path: seq<seq<Entry>>)
    requires WellFormed(g) && path == []
    ensures TypesOf(g, visited, path, [])
  {
  }

  /** Nothing else is cut: a schema is empty just for a type already being expanded, and for one without fields. */
  lemma EmptyOnlyWhenVisited(g: Graph, name: string, visited: set<string>)
    requires WellFormed(g) && name in g
    ensures SchemaOf(g, name, visited) == [] <==> name in visited || g[name].fields == []
  {
    var d := g[name];
    if d.fields != [] {
      EntriesStep(g, d, 0, visited + {name}, {});
      assert d.fields[0..] == d.fields;
    }
    hide EntriesOf, FieldNode, OneofNode;
  }

  function Max(a: nat, b: nat): nat { if a >= b then a else b }

  /** How deep messages nest below a node. */
  function NodeDepth(n: Node): nat
    decreases n, 1
  {
    match n
    case Scalar(_, _, _, _, _) => 0
    case Message(fields, _) => 1 + Depth(fields)
    case Repeated(item, _) => NodeDepth(item)
    case Oneof(branches, _) => Depth(branches)
  }

  function Depth(es: seq<Entry>): nat
    decreases es, 0
  {
    if es == [] then 0 else Max(NodeDepth(es[0].node), Depth(es[1..]))
  }

  lemma {:induction false} DepthAppend(a: seq<Entry>, b: seq<Entry>)
    ensures Depth(a + b) == Max(Depth(a), Depth(b))
  {
    if a == [] {
      assert a + b == b;
    } else {
      DepthAppend(a[1..], b);
      assert (a + b)[1..] == a[1..] + b;
    }
  }

  lemma {:induction false} AllValidAppend(a: seq<Entry>, b: seq<Entry>)
    ensures AllValid(a + b) <==> AllValid(a) && AllValid(b)
  {
    if a == [] {
      assert a + b == b;
    } else {
      AllValidAppend(a[1..], b);
      assert (a + b)[1..] == a[1..] + b;
    }
  }

  /** A schema no type of which expands twice on one path: the types not yet visited bound its depth. */
  ghost predicate Sound(g: Graph, es: seq<Entry>, visited: set<string>) {
    AllValid(es) && Depth(es) <= |g.Keys - visited|
  }

  ghost predicate SoundInside(g: Graph, n: Node, visited: set<string>) {
    Valid(n) && NodeDepth(n) <= 1 + |g.Keys - visited|
  }

  lemma SoundCons(e: Entry, rest: seq<Entry>)
    ensures Depth([e] + rest) == Max(NodeDepth(e.node), Depth(rest))
    ensures AllValid([e] + rest) <==> Valid(e.node) && AllValid(rest)
  {
    assert ([e] + rest)[1..] == rest;
  }

  /** Every compiled schema is one the constructors accept, and nests at most as deep as there are types. */
  lemma {:induction false} CompiledSchemaIsSound(g: Graph, name: string, visited: set<string>)
    requires WellFormed(g) && name in g
    ensures Sound(g, SchemaOf(g, name, visited), visited)
    decreases g.Keys - visited, 1
  {
    if name !in visited {
      assert g.Keys - visited == (g.Keys - (visited + {name})) + {name};
      EntriesAreSound(g, g[name], 0, visited + {name}, {});
      assert g[name].fields[0..] == g[name].fields;
      assert SchemaOf(g, name, visited) == EntriesOf(g, g[name], g[name].fields, visited + {name}, {});
    }
  }

  lemma {:induction false} EntriesAreSound(g: Graph, d: Descriptor, i: nat, visited: set<string>, done: set<string>)
    requires WellFormed(g) && WellFormedDescriptor(g, d) && i <= |d.fields|
    ensures Refers(g, d.fields[i..])
    ensures AllValid(EntriesOf(g, d, d.fields[i..], visited, done))
    ensures Depth(EntriesOf(g, d, d.fields[i..], visited, done)) <= 1 + |g.Keys - visited|
    decreases g.Keys - visited, 4, |d.fields| - i
  {
    hide *;
    if i == |d.fields| {
      NoFields(g, d, visited, done);
      NothingIsSound();
    } else {
      var f, group := d.fields[i], GroupOf(d.oneofs, d.fields[i].name);
      EntriesStep(g, d, i, visited, done);
      if group.None? {
        EntriesAreSound(g, d, i + 1, visited, done);
        FieldIsSound(g, f, visited);
        SoundCons(Entry(f.name, FieldNode(g, f, visited)), EntriesOf(g, d, d.fields[i + 1..], visited, done));
        UseSound(g, FieldNode(g, f, visited), visited);
      } else if group.value.name in done {
        EntriesAreSound(g, d, i + 1, visited, done);
      } else {
        var done' := done + {group.value.name};
        EntriesAreSound(g, d, i + 1, visited, done');
        GroupRefers(g, d, f.name);
        OneofIsSound(g, group.value, visited);
        SoundCons(Entry(group.value.name, OneofNode(g, group.value, visited)),
                  EntriesOf(g, d, d.fields[i + 1..], visited, done'));
        UseSound(g, OneofNode(g, group.value, visited), visited);
      }
    }
  }

  lemma NothingIsSound()
    ensures AllValid([]) && Depth([]) == 0
  {
  }

  lemma UseSound(g: Graph, n: Node, visited: set<string>)
    requires SoundInside(g, n, visited)
    ensures Valid(n) && NodeDepth(n) <= 1 + |g.Keys - visited|
    ensures forall m: nat :: m <= 1 + |g.Keys - visited| ==> Max(NodeDepth(n), m) <= 1 + |g.Keys - visited|
  {
  }

  lemma {:induction false} MessageIsSound(g: Graph, f: FieldDesc, visited: set<string>, optional: bool)
    requires WellFormed(g) && f.message.Some? && f.message.value in g
    ensures SoundInside(g, Message(SchemaOf(g, f.message.value, visited), optional), visited)
    decreases g.Keys - visited, 2
  {
    CompiledSchemaIsSound(g, f.message.value, visited);
    hide SchemaOf;
  }

  lemma {:induction false} FieldIsSound(g: Graph, f: FieldDesc, visited: set<string>)
    requires WellFormed(g) && (f.message.Some? ==> f.message.value in g)
    ensures SoundInside(g, FieldNode(g, f, visited), visited)
    decreases g.Keys - visited, 3
  {
    hide SchemaOf;
    if f.message.Some? {
      MessageIsSound(g, f, visited, !f.repeated);
    }
  }

  lemma OneofOfSound(g: Graph, branches: seq<Entry>, visited: set<string>)
    requires branches != [] && AllValid(branches) && Depth(branches) <= 1 + |g.Keys - visited|
    ensures SoundInside(g, Oneof(branches, branches[0].name), visited)
  {
    hide AllValid, Depth;
  }

  lemma OneofNodeShape(g: Graph, o: OneofDesc, visited: set<string>)
    requires WellFormed(g) && Refers(g, o.fields) && o.fields != []
    ensures var branches := BranchesOf(g, o.fields, visited);
      branches != [] && OneofNode(g, o, visited) == Oneof(branches, branches[0].name)
  {
    hide BranchesOf, WellFormed;
  }

  lemma {:induction false} OneofIsSound(g: Graph, o: OneofDesc, visited: set<string>)
    requires WellFormed(g) && Refers(g, o.fields) && o.fields != []
    ensures SoundInside(g, OneofNode(g, o, visited), visited)
    decreases g.Keys - visited, 3, |o.fields| + 1
  {
    hide *;
    BranchesAreSound(g, o.fields, visited);
    OneofNodeShape(g, o, visited);
    OneofOfSound(g, BranchesOf(g, o.fields, visited), visited);
  }

  lemma {:induction false} BranchesAreSound(g: Graph, fs: seq<FieldDesc>, visited: set<string>)
    requires WellFormed(g) && Refers(g, fs)
    ensures AllValid(BranchesOf(g, fs, visited)) && Depth(BranchesOf(g, fs, visited)) <= 1 + |g.Keys - visited|
    decreases g.Keys - visited, 3, |fs|
  {
    hide SchemaOf;
    if fs == [] {
    } else {
      var front, last := fs[..|fs| - 1], fs[|fs| - 1];
      BranchesAreSound(g, front, visited);
      if last.message.Some? {
        MessageIsSound(g, last, visited, true);
      }
      var e := Entry(last.name, BranchNode(g, last, visited));
      DepthAppend(BranchesOf(g, front, visited), [e]);
      AllValidAppend(BranchesOf(g, front, visited), [e]);
      assert [e][1..] == [];
    }
  }

  /** A compiled schema reaches the other side of the bus unchanged. */
  lemma CompiledSchemaSurvivesBus(g: Graph, name: string)
    requires WellFormed(g) && name in g
    ensures var schema := SchemaOf(g, name, {});
      SchemaFromDict(SchemaToDict(schema)) == Ok(schema) && Depth(schema) <= |g|
  {
    CompiledSchemaIsSound(g, name, {});
    SchemaRoundTrip(SchemaOf(g, name, {}), Null);
    assert g.Keys - {} == g.Keys;
    hide SchemaOf;
  }
}
