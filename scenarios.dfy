/** Concrete nested graphs that show which dependency structure the
    composite, plain graph and config-mapped graph builders resolve inputs
    against (run_config.py:397-475). */
module NodeScenarios {
  import opened Wrappers
  import opened OrderedDict
  import opened ConfigTypes
  import opened Definitions
  import opened Sections
  import opened NodeSchema

  /** A leaf `b` whose input `x` has a loader and no default. */
  const LeafB: Node := Node("b", Leaf([InputDef("x", None, Some(Scalar("Int")), false)], [], None), {})
  /** A leaf `a` with no inputs, outputs or config. */
  const LeafA: Node := Node("a", Leaf([], [], None), {})
  /** Inside the graph, `a` feeds `b.x`. */
  const InnerDeps: Deps := {("b", "x")}

  function GraphNode(isComposite: bool): Node {
    Node("g", Graph([], [], [LeafA, LeafB], InnerDeps, false, None, isComposite), {})
  }

  /** The entry `b.x` gets when it has no upstream provider: required, since
      the input has no default. */
  const XEntry: Field := Field(Scalar("Int"), Some(true), None, false)

  /** A composite resolves `b.x` against its own wiring, so `b` has no entry
      and the `solids` dictionary is empty. */
  lemma CompositeUsesInnerWiring()
    ensures DefineInodeField(GraphNode(true), {}, [], false, false) ==
            Ok(Some(FieldOf(Shape([("solids", FieldOf(Shape([], NodeAliases(false))))], NodeAliases(false)))))
  {
    var g := GraphNode(true);
    assert InputsField(g, {}, [], false) == Ok(None);
    assert OutputsField(g, []) == Ok(None);
    assert InputsField(LeafB, InnerDeps, [], false) == Ok(None);
    assert DefineInodeField(LeafA, InnerDeps, [], false, false) == Ok(None);
    assert DefineInodeField(LeafB, InnerDeps, [], false, false) == Ok(None);
    var ns := [LeafA, LeafB];
    assert ns[..1] == [LeafA] && [LeafA][..0] == [];
    assert NodeFieldsFrom([], [LeafA], false, InnerDeps, [], false) == Ok([]);
    assert NodeFieldsFrom([], ns, false, InnerDeps, [], false) == Ok([]);
    assert NodeFieldsFrom([], [], true, InnerDeps, [], false) == Ok([]);
    assert NodeDictionary(g.def.nodes, [], InnerDeps, [], false) == Ok(Shape([], NodeAliases(false)));
    var entries := [("inputs", None), ("outputs", None), ("solids", Some(FieldOf(Shape([], NodeAliases(false)))))];
    assert entries[1..][1..] == [entries[2]];
    assert RemoveNoneEntries(entries) == [("solids", FieldOf(Shape([], NodeAliases(false))))];
  }

  /** A plain graph resolves `b.x` against the enclosing wiring, where nothing
      feeds it, so `b` demands a value for `x` although `a` provides it. */
  lemma PlainGraphUsesOuterWiring()
    ensures DefineInodeField(GraphNode(false), {}, [], false, false) ==
            Ok(Some(FieldOf(Shape([("b", FieldOf(Shape([("inputs", FieldOf(Shape([("x", XEntry)], map[])))], NodeAliases(false))))],
                                  NodeAliases(false)))))
  {
    assert Put([], "x", XEntry) == [("x", XEntry)];
    assert InputFields(LeafB, LeafB.def.inputs, {}, []) == Ok([("x", XEntry)]);
    assert InputsField(LeafB, {}, [], false) == Ok(Some(FieldOf(Shape([("x", XEntry)], map[]))));
    assert DefineInodeField(LeafA, {}, [], false, false) == Ok(None);
    assert OutputsField(LeafB, []) == Ok(None);
    var inputsField := FieldOf(Shape([("x", XEntry)], map[]));
    var entries := [("inputs", Some(inputsField)), ("outputs", None), ("config", None)];
    assert entries[1..][1..] == [entries[2]];
    assert RemoveNoneEntries(entries) == [("inputs", inputsField)];
    var bField := FieldOf(Shape([("inputs", inputsField)], NodeAliases(false)));
    assert DefineInodeField(LeafB, {}, [], false, false) == Ok(Some(bField));
    var ns := [LeafA, LeafB];
    assert ns[..1] == [LeafA] && [LeafA][..0] == [];
    assert NodeFieldsFrom([], [LeafA], false, {}, [], false) == Ok([]);
    assert Put([], "b", bField) == [("b", bField)];
    assert NodeFieldsFrom([], ns, false, {}, [], false) == Ok([("b", bField)]);
    assert NodeFieldsFrom([("b", bField)], [], true, {}, [], false) == Ok([("b", bField)]);
  }

  /** A config-mapped graph `m` whose own input `x` has a loader, no default
      and no inner wiring of its own. */
  const MappedGraph: Node :=
    Node("m", Graph([InputDef("x", None, Some(Scalar("Int")), false)], [], [LeafA], {}, true, None, false), {})

  /** The enclosing wiring feeds `m.x`, yet a config-mapped graph resolves
      its own inputs against its inner wiring, where nothing feeds `x`, so the
      entry demands `x` from the user, required. */
  lemma MappedGraphUsesInnerWiring()
    ensures DefineInodeField(MappedGraph, {("m", "x")}, [], false, false) ==
            Ok(Some(FieldOf(Shape([("inputs", FieldOf(Shape([("x", XEntry)], map[])))], NodeAliases(false)))))
  {
    var m := MappedGraph;
    assert Put([], "x", XEntry) == [("x", XEntry)];
    assert InputFields(m, m.def.inputs, {}, []) == Ok([("x", XEntry)]);
    assert InputsField(m, {}, [], false) == Ok(Some(FieldOf(Shape([("x", XEntry)], map[]))));
    assert OutputsField(m, []) == Ok(None);
    var inputsField := FieldOf(Shape([("x", XEntry)], map[]));
    var entries := [("inputs", Some(inputsField)), ("outputs", None), ("config", None)];
    assert entries[1..][1..] == [entries[2]];
    assert RemoveNoneEntries(entries) == [("inputs", inputsField)];
  }
}
