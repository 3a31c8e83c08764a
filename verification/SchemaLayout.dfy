/** What stands where in a compiled schema, told from the fields and the oneofs of the descriptor. */
module SchemaLayout {
  import opened Bytes
  import opened ConfigSchema
  import opened SchemaCompiler

  /** The scalar schema of a scalar type. */
  ghost predicate ScalarOf(t: ScalarType, n: Node) {
    && n.Scalar? && n.min == Null && n.max == Null
    && match t
       case BoolType => n.kind == "bool" && n.default == Bool(false) && n.choices == []
       case IntType => n.kind == "int" && n.default == Number(0.0) && n.choices == []
       case FloatType => n.kind == "float" && n.default == Number(0.0) && n.choices == []
       case TextType => n.kind == "string" && n.default == Str("") && n.choices == []
       case UnknownType => n.kind == "string" && n.default == Str("") && n.choices == []
       case EnumType(values) =>
         if values == [] then n.kind == "string" && n.default == Str("") && n.choices == []
         else
           && n.kind == "enum" && n.default == Str(values[0]) && |n.choices| == |values|
           && forall i :: 0 <= i < |values| ==> n.choices[i] == Str(values[i])
  }

  /** The node of one value of a field. */
  ghost predicate Single(g: Graph, f: FieldDesc, visited: set<string>, optional: bool, n: Node)
    requires WellFormed(g) && (f.message.Some? ==> f.message.value in g)
  {
    if f.message.Some? then n.Message? && n.optional == optional && n.fields == SchemaOf(g, f.message.value, visited)
    else ScalarOf(f.scalar, n)
  }

  /** The node of a field: a list without defaults exactly for a repeated field. */
  ghost predicate Describes(g: Graph, f: FieldDesc, visited: set<string>, n: Node)
    requires WellFormed(g) && (f.message.Some? ==> f.message.value in g)
  {
    if f.repeated then n.Repeated? && n.defaults == [] && Single(g, f, visited, false, n.item)
    else Single(g, f, visited, true, n)
  }

  /** The node of a oneof: its fields as branches, in their order, the first of them active. */
  ghost predicate DescribesOneof(g: Graph, o: OneofDesc, visited: set<string>, n: Node)
    requires WellFormed(g) && Refers(g, o.fields) && o.fields != []
  {
    && n.Oneof? && n.active == o.fields[0].name && |n.branches| == |o.fields|
    && forall k :: 0 <= k < |o.fields| ==>
         n.branches[k].name == o.fields[k].name && Single(g, o.fields[k], visited, true, n.branches[k].node)
  }

  ghost predicate Plain(d: Descriptor, i: nat)
    requires i < |d.fields|
  {
    forall o :: o in d.oneofs ==> !HasField(o.fields, d.fields[i].name)
  }

  /** Field i is the first one of the oneof. */
  ghost predicate Opens(d: Descriptor, i: nat, o: OneofDesc)
    requires i < |d.fields|
  {
    && o in d.oneofs && HasField(o.fields, d.fields[i].name)
    && forall k :: 0 <= k < i ==> !HasField(o.fields, d.fields[k].name)
  }

  ghost predicate Proper(g: Graph, d: Descriptor) {
    WellFormed(g) && WellFormedDescriptor(g, d)
  }

  lemma OneofRefers(g: Graph, d: Descriptor, o: OneofDesc)
    requires Proper(g, d) && o in d.oneofs
    ensures Refers(g, o.fields) && o.fields != [] && DistinctNames(o.fields) && !HasField(d.fields, o.name)
  {
  }

  /** The entry stands for field i: the field itself, or the oneof it is the first field of. */
  ghost predicate StandsFor(g: Graph, d: Descriptor, visited: set<string>, i: nat, e: Entry)
    requires Proper(g, d) && i < |d.fields|
  {
    || (Plain(d, i) && e.name == d.fields[i].name && Describes(g, d.fields[i], visited, e.node))
    || exists o ::
         && Opens(d, i, o) && e.name == o.name
         && (OneofRefers(g, d, o); DescribesOneof(g, o, visited, e.node))
  }

  ghost predicate Contributes(d: Descriptor, i: nat)
    requires i < |d.fields|
  {
    Plain(d, i) || exists o :: Opens(d, i, o)
  }

  /** The entries stand, in this order, for the fields with the given indices: those from index i on that are
      outside every oneof or first in theirs, and no others. */
  ghost predicate Layout(g: Graph, d: Descriptor, visited: set<string>, i: nat, es: seq<Entry>, at: seq<nat>)
    requires Proper(g, d)
  {
    && |at| == |es|
    && (forall a, b :: 0 <= a < b < |at| ==> at[a] < at[b])
    && (forall k :: 0 <= k < |at| ==> i <= at[k] < |d.fields| && StandsFor(g, d, visited, at[k], es[k]))
    && forall n :: i <= n < |d.fields| && Contributes(d, n) ==> n in at
  }

  lemma LayoutCons(g: Graph, d: Descriptor, visited: set<string>, i: nat, e: Entry, rest: seq<Entry>, at: seq<nat>)
    requires Proper(g, d) && i < |d.fields|
    requires Layout(g, d, visited, i + 1, rest, at) && StandsFor(g, d, visited, i, e)
    ensures Layout(g, d, visited, i, [e] + rest, [i] + at)
  {
    hide Proper, StandsFor, Contributes;
    var es, all := [e] + rest, [i] + at;
    assert forall k :: 0 < k < |all| ==> all[k] == at[k - 1] && es[k] == rest[k - 1];
    forall n | i <= n < |d.fields| && Contributes(d, n)
      ensures n in all
    {
      if n == i {
        assert all[0] == i;
      } else {
        assert n in at;
      }
    }
  }

  lemma LayoutSkip(g: Graph, d: Descriptor, visited: set<string>, i: nat, es: seq<Entry>, at: seq<nat>)
    requires Proper(g, d) && i < |d.fields| && Layout(g, d, visited, i + 1, es, at) && !Contributes(d, i)
    ensures Layout(g, d, visited, i, es, at)
  {
    hide Proper, StandsFor, Contributes;
  }

  lemma SingleIs(g: Graph, f: FieldDesc, visited: set<string>, optional: bool)
    requires WellFormed(g) && (f.message.Some? ==> f.message.value in g)
    ensures f.message.Some? ==>
      Single(g, f, visited, optional, Message(SchemaOf(g, f.message.value, visited), optional))
    ensures f.message.None? ==> Single(g, f, visited, optional, ScalarField(f))
  {
    hide WellFormed, SchemaOf;
  }

  lemma FieldDescribed(g: Graph, f: FieldDesc, visited: set<string>)
    requires WellFormed(g) && (f.message.Some? ==> f.message.value in g)
    ensures Describes(g, f, visited, FieldNode(g, f, visited))
    ensures Single(g, f, visited, true, BranchNode(g, f, visited))
  {
    SingleIs(g, f, visited, true);
    SingleIs(g, f, visited, false);
    hide WellFormed, SchemaOf, Single, ScalarField;
  }

  lemma OneofDescribed(g: Graph, o: OneofDesc, visited: set<string>)
    requires WellFormed(g) && Refers(g, o.fields) && o.fields != []
    ensures DescribesOneof(g, o, visited, OneofNode(g, o, visited))
  {
    hide WellFormed, BranchesOf, BranchNode, Single, Describes;
    var branches := BranchesOf(g, o.fields, visited);
    forall k | 0 <= k < |o.fields|
      ensures branches[k].name == o.fields[k].name && Single(g, o.fields[k], visited, true, branches[k].node)
    {
      BranchAt(g, o.fields, visited, k);
      FieldDescribed(g, o.fields[k], visited);
    }
  }

  /** The oneofs in done are those that one of the first i fields belongs to. */
  ghost predicate DoneUpTo(d: Descriptor, i: nat, done: set<string>)
    requires i <= |d.fields|
  {
    forall o :: o in d.oneofs ==>
      (o.name in done <==> exists k :: 0 <= k < i && HasField(o.fields, d.fields[k].name))
  }

  /** How field i is met by the compiler, by the group the compiler finds for it. */
  lemma MeetField(g: Graph, d: Descriptor, i: nat, done: set<string>)
    requires Proper(g, d) && i < |d.fields| && DoneUpTo(d, i, done)
    ensures var group := GroupOf(d.oneofs, d.fields[i].name);
      && (group.None? ==> Plain(d, i) && DoneUpTo(d, i + 1, done))
      && (group.Some? && group.value.name in done ==> !Contributes(d, i) && DoneUpTo(d, i + 1, done))
      && (group.Some? && group.value.name !in done ==>
            Opens(d, i, group.value) && DoneUpTo(d, i + 1, done + {group.value.name}))
  {
    var f, group := d.fields[i], GroupOf(d.oneofs, d.fields[i].name);
    GroupIsOneof(d.oneofs, f.name);
    forall o | o in d.oneofs
      ensures HasField(o.fields, f.name) <==> group == Some(o)
      ensures group.Some? && o.name == group.value.name ==> o == group.value
    {
      GroupIsUnique(g, d, f.name, o);
      if group.Some? {
        GroupByName(g, d, f.name);
      }
    }
    hide Proper, HasField, GroupOf;
    forall o | o in d.oneofs
      ensures (exists k :: 0 <= k < i + 1 && HasField(o.fields, d.fields[k].name)) <==>
              (exists k :: 0 <= k < i && HasField(o.fields, d.fields[k].name)) || HasField(o.fields, f.name)
    {
    }
  }

  lemma FieldStands(g: Graph, d: Descriptor, visited: set<string>, i: nat)
    requires Proper(g, d) && i < |d.fields| && Plain(d, i)
    ensures d.fields[i].message.Some? ==> d.fields[i].message.value in g
    ensures StandsFor(g, d, visited, i, Entry(d.fields[i].name, FieldNode(g, d.fields[i], visited)))
  {
    FieldDescribed(g, d.fields[i], visited);
    hide FieldNode, Describes, Plain;
  }

  lemma OneofStands(g: Graph, d: Descriptor, visited: set<string>, i: nat, o: OneofDesc)
    requires Proper(g, d) && i < |d.fields| && Opens(d, i, o)
    ensures Refers(g, o.fields) && o.fields != []
    ensures StandsFor(g, d, visited, i, Entry(o.name, OneofNode(g, o, visited)))
  {
    OneofRefers(g, d, o);
    OneofDescribed(g, o, visited);
    hide OneofNode, DescribesOneof, Opens, Plain, Proper;
  }

  lemma {:induction false} LayoutFrom(g: Graph, d: Descriptor, i: nat, visited: set<string>, done: set<string>)
    returns (at: seq<nat>)
    requires Proper(g, d) && i <= |d.fields| && DoneUpTo(d, i, done)
    ensures Refers(g, d.fields[i..])
    ensures Layout(g, d, visited, i, EntriesOf(g, d, d.fields[i..], visited, done), at)
    decreases |d.fields| - i
  {
    assert WellFormed(g) && WellFormedDescriptor(g, d);
    hide *;
    if i == |d.fields| {
      at := [];
      LayoutEnds(g, d, visited, done);
    } else {
      var f, group := d.fields[i], GroupOf(d.oneofs, d.fields[i].name);
      EntriesStep(g, d, i, visited, done);
      MeetField(g, d, i, done);
      if group.None? {
        FieldStands(g, d, visited, i);
        at := LayoutFrom(g, d, i + 1, visited, done);
        LayoutCons(g, d, visited, i, Entry(f.name, FieldNode(g, f, visited)),
                   EntriesOf(g, d, d.fields[i + 1..], visited, done), at);
        at := [i] + at;
      } else if group.value.name in done {
        at := LayoutFrom(g, d, i + 1, visited, done);
        LayoutSkip(g, d, visited, i, EntriesOf(g, d, d.fields[i + 1..], visited, done), at);
      } else {
        var done' := done + {group.value.name};
        OneofStands(g, d, visited, i, group.value);
        at := LayoutFrom(g, d, i + 1, visited, done');
        LayoutCons(g, d, visited, i, Entry(group.value.name, OneofNode(g, group.value, visited)),
                   EntriesOf(g, d, d.fields[i + 1..], visited, done'), at);
        at := [i] + at;
      }
    }
  }

  lemma LayoutEnds(g: Graph, d: Descriptor, visited: set<string>, done: set<string>)
    requires Proper(g, d)
    ensures Refers(g, d.fields[|d.fields|..])
    ensures Layout(g, d, visited, |d.fields|, EntriesOf(g, d, d.fields[|d.fields|..], visited, done), [])
  {
    NoFields(g, d, visited, done);
  }

  /** A compiled type holds exactly one entry for each of its fields outside the oneofs and one for each oneof,
      at its first field, in the order of the fields and with the node that describes it. */
  lemma CompiledLayout(g: Graph, name: string, visited: set<string>) returns (at: seq<nat>)
    requires WellFormed(g) && name in g && name !in visited
    ensures Layout(g, g[name], visited + {name}, 0, SchemaOf(g, name, visited), at)
  {
    var d := g[name];
    at := LayoutFrom(g, d, 0, visited + {name}, {});
    assert d.fields[0..] == d.fields;
    hide Layout, EntriesOf;
  }

  ghost predicate OnlyAt(es: seq<Entry>, k: nat, name: string) {
    k < |es| && es[k].name == name && forall j :: 0 <= j < |es| && es[j].name == name ==> j == k
  }

  /** Found by its key: a field outside the oneofs. */
  lemma FieldByKey(g: Graph, name: string, visited: set<string>, i: nat) returns (k: nat)
    requires WellFormed(g) && name in g && name !in visited && i < |g[name].fields| && Plain(g[name], i)
    ensures g[name].fields[i].message.Some? ==> g[name].fields[i].message.value in g
    ensures var es, f := SchemaOf(g, name, visited), g[name].fields[i];
      OnlyAt(es, k, f.name) && Describes(g, f, visited + {name}, es[k].node)
  {
    var d, es := g[name], SchemaOf(g, name, visited);
    var at := CompiledLayout(g, name, visited);
    hide SchemaOf, Describes, DescribesOneof, WellFormed;
    assert Contributes(d, i);
    k :| 0 <= k < |at| && at[k] == i;
    forall j | 0 <= j < |es| && es[j].name == d.fields[i].name
      ensures j == k
    {
      assert StandsFor(g, d, visited + {name}, at[j], es[j]);
      NameOfOwn(g, d, visited + {name}, i, at[j], es[j]);
    }
  }

  lemma NameOfOwn(g: Graph, d: Descriptor, visited: set<string>, i: nat, n: nat, e: Entry)
    requires Proper(g, d) && i < |d.fields| && n < |d.fields|
    requires StandsFor(g, d, visited, n, e) && e.name == d.fields[i].name
    ensures n == i
  {
    hide Describes, DescribesOneof;
    assert HasField(d.fields, d.fields[i].name);
    forall o | Opens(d, n, o)
      ensures o.name != d.fields[i].name
    {
      OneofRefers(g, d, o);
    }
  }

  lemma {:induction false} FirstOf(d: Descriptor, o: OneofDesc, n: nat) returns (i: nat)
    requires n < |d.fields| && o in d.oneofs && HasField(o.fields, d.fields[n].name)
    ensures i < |d.fields| && Opens(d, i, o)
  {
    hide HasField;
    if k :| 0 <= k < n && HasField(o.fields, d.fields[k].name) {
      i := FirstOf(d, o, k);
    } else {
      i := n;
    }
  }

  /** Found by its key: a oneof. */
  lemma OneofByKey(g: Graph, name: string, visited: set<string>, o: OneofDesc) returns (k: nat)
    requires WellFormed(g) && name in g && name !in visited && o in g[name].oneofs
    ensures Refers(g, o.fields) && o.fields != []
    ensures var es := SchemaOf(g, name, visited);
      OnlyAt(es, k, o.name) && DescribesOneof(g, o, visited + {name}, es[k].node)
  {
    hide *;
    var d, es := g[name], SchemaOf(g, name, visited);
    ProperAt(g, name);
    OneofRefers(g, d, o);
    var at := CompiledLayout(g, name, visited);
    var i := FirstField(g, d, o);
    k := PlaceOf(g, d, visited + {name}, es, at, i);
    OneofAt(g, d, visited + {name}, es, at, i, o, k);
  }

  lemma ProperAt(g: Graph, name: string)
    requires WellFormed(g) && name in g
    ensures Proper(g, g[name])
  {
  }

  lemma FirstField(g: Graph, d: Descriptor, o: OneofDesc) returns (i: nat)
    requires Proper(g, d) && o in d.oneofs
    ensures i < |d.fields| && Opens(d, i, o) && Contributes(d, i)
  {
    assert o.fields[0] in d.fields && HasField(o.fields, o.fields[0].name);
    var n :| 0 <= n < |d.fields| && d.fields[n] == o.fields[0];
    i := FirstOf(d, o, n);
  }

  lemma PlaceOf(g: Graph, d: Descriptor, visited: set<string>, es: seq<Entry>, at: seq<nat>, i: nat) returns (k: nat)
    requires Proper(g, d) && Layout(g, d, visited, 0, es, at) && i < |d.fields| && Contributes(d, i)
    ensures k < |at| == |es| && at[k] == i
  {
    hide Proper, StandsFor, Contributes;
    k :| 0 <= k < |at| && at[k] == i;
  }

  lemma OneofAt(g: Graph, d: Descriptor, visited: set<string>, es: seq<Entry>, at: seq<nat>,
                i: nat, o: OneofDesc, k: nat)
    requires Proper(g, d) && Layout(g, d, visited, 0, es, at)
    requires i < |d.fields| && Opens(d, i, o) && k < |at| && at[k] == i
    ensures Refers(g, o.fields) && o.fields != []
    ensures OnlyAt(es, k, o.name) && DescribesOneof(g, o, visited, es[k].node)
  {
    hide Proper, StandsFor, Contributes, Opens, DescribesOneof;
    NameOfOneof(g, d, visited, i, o, at[k], es[k]);
    forall j | 0 <= j < |es|
      ensures es[j].name == o.name <==> at[j] == i
    {
      NameOfOneof(g, d, visited, i, o, at[j], es[j]);
    }
  }

  lemma NameOfOneof(g: Graph, d: Descriptor, visited: set<string>, i: nat, o: OneofDesc, n: nat, e: Entry)
    requires Proper(g, d) && i < |d.fields| && n < |d.fields| && Opens(d, i, o) && StandsFor(g, d, visited, n, e)
    ensures e.name == o.name <==> n == i
    ensures Refers(g, o.fields) && o.fields != []
    ensures n == i ==> DescribesOneof(g, o, visited, e.node)
  {
    hide Describes, DescribesOneof;
    OneofRefers(g, d, o);
    if Plain(d, n) && e.name == d.fields[n].name {
      assert HasField(d.fields, d.fields[n].name);
    } else {
      var u :| Opens(d, n, u) && e.name == u.name && (OneofRefers(g, d, u); DescribesOneof(g, u, visited, e.node));
      GroupIsUnique(g, d, d.fields[n].name, u);
      GroupIsUnique(g, d, d.fields[i].name, o);
      GroupIsUnique(g, d, d.fields[n].name, o);
      GroupByName(g, d, d.fields[i].name);
    }
  }
}
