/** The type registries (run_config.py:518-573): every config type reachable
    from the node definitions, the root schema and the Dagster types' loaders
    and materializers, collected into a dictionary by given name and a
    dictionary by structural key. */
module TypeRegistry {
  import opened Wrappers
  import opened OrderedDict
  import opened ConfigTypes
  import opened Definitions

  // ---------------------------------------------------------------------------
  // Gathering

  /** `iterate_node_def_config_types`: the config types under the config
      schema of every leaf in the definition, in traversal order; a graph's
      own config schema is not visited. */
  function IterateNodeDefConfigTypes(d: NodeDef, iterate: ConfigType -> seq<ConfigType>): seq<ConfigType>
    decreases d, 1
  {
    match d
    case Leaf(_, _, configSchema) => if configSchema.Some? then iterate(configSchema.value.ty) else []
    case Graph(_, _, nodes, _, _, _, _) => IterateNodesConfigTypes(nodes, iterate)
  }

  function IterateNodesConfigTypes(nodes: seq<Node>, iterate: ConfigType -> seq<ConfigType>): seq<ConfigType>
    decreases nodes, 0
  {
    if nodes == [] then []
    else IterateNodesConfigTypes(nodes[..|nodes| - 1], iterate) + IterateNodeDefConfigTypes(nodes[|nodes| - 1].def, iterate)
  }

  /** Reference definition: `s` is the config schema type of a leaf reachable
      from `d` through nested graphs. */
  predicate LeafSchemaReachable(d: NodeDef, s: ConfigType)
    decreases d
  {
    match d
    case Leaf(_, _, configSchema) => configSchema.Some? && configSchema.value.ty == s
    case Graph(_, _, nodes, _, _, _, _) => exists i :: 0 <= i < |nodes| && LeafSchemaReachable(nodes[i].def, s)
  }

  /** A type is visited exactly when it is among the types under the schema of
      some reachable leaf. */
  lemma {:induction false} IterateNodeDefConfigTypesSpec(d: NodeDef, iterate: ConfigType -> seq<ConfigType>, t: ConfigType)
    ensures t in IterateNodeDefConfigTypes(d, iterate) <==> exists s :: LeafSchemaReachable(d, s) && t in iterate(s)
    decreases d, 1
  {
    if d.Graph? {
      IterateNodesConfigTypesSpec(d.nodes, iterate, t);
    }
  }

  lemma {:induction false} IterateNodesConfigTypesSpec(nodes: seq<Node>, iterate: ConfigType -> seq<ConfigType>, t: ConfigType)
    ensures t in IterateNodesConfigTypes(nodes, iterate) <==>
            exists i, s :: 0 <= i < |nodes| && LeafSchemaReachable(nodes[i].def, s) && t in iterate(s)
    decreases nodes, 0
  {
    if nodes != [] {
      var p := nodes[..|nodes| - 1];
      var x := nodes[|nodes| - 1];
      IterateNodesConfigTypesSpec(p, iterate, t);
      IterateNodeDefConfigTypesSpec(x.def, iterate, t);
      assert forall i :: 0 <= i < |p| ==> p[i] == nodes[i];
      if t in IterateNodesConfigTypes(nodes, iterate) {
        if t in IterateNodesConfigTypes(p, iterate) {
          var i, s :| 0 <= i < |p| && LeafSchemaReachable(p[i].def, s) && t in iterate(s);
          assert LeafSchemaReachable(nodes[i].def, s);
        } else {
          var s :| LeafSchemaReachable(x.def, s) && t in iterate(s);
          assert LeafSchemaReachable(nodes[|nodes| - 1].def, s);
        }
      }
    }
  }

  /** `_gather_all_config_types`: the types of every node definition, then
      those of the root schema type. */
  function GatherAllConfigTypes(nodeDefs: seq<NodeDef>, root: ConfigType, iterate: ConfigType -> seq<ConfigType>): (r: seq<ConfigType>)
    ensures forall t :: t in iterate(root) ==> t in r
  {
    NodeDefsConfigTypes(nodeDefs, iterate) + iterate(root)
  }

  function NodeDefsConfigTypes(nodeDefs: seq<NodeDef>, iterate: ConfigType -> seq<ConfigType>): seq<ConfigType>
  {
    if nodeDefs == [] then []
    else NodeDefsConfigTypes(nodeDefs[..|nodeDefs| - 1], iterate) + IterateNodeDefConfigTypes(nodeDefs[|nodeDefs| - 1], iterate)
  }

  /** What the registry needs of a Dagster type: the schema types of its
      loader and of its materializer, when it has them. */
  datatype DagsterType = DagsterType(loader: Option<ConfigType>, materializer: Option<ConfigType>)

  /** `_gather_all_schemas`, over the job's Dagster types followed by the
      runtime builtins: for each, the loader's types and then the
      materializer's. */
  function GatherAllSchemas(dagsterTypes: seq<DagsterType>, iterate: ConfigType -> seq<ConfigType>): (r: seq<ConfigType>)
    ensures forall t :: t in r <==>
              exists i :: 0 <= i < |dagsterTypes| &&
                ((dagsterTypes[i].loader.Some? && t in iterate(dagsterTypes[i].loader.value)) ||
                 (dagsterTypes[i].materializer.Some? && t in iterate(dagsterTypes[i].materializer.value)))
  {
    if dagsterTypes == [] then []
    else
      var p := dagsterTypes[..|dagsterTypes| - 1];
      var dt := dagsterTypes[|dagsterTypes| - 1];
      assert forall i :: 0 <= i < |p| ==> p[i] == dagsterTypes[i];
      GatherAllSchemas(p, iterate)
        + (if dt.loader.Some? then iterate(dt.loader.value) else [])
        + (if dt.materializer.Some? then iterate(dt.materializer.value) else [])
  }

  // ---------------------------------------------------------------------------
  // Registering

  datatype Registries = Registries(byName: Dict<ConfigType>, byKey: Dict<ConfigType>)

  /** The type with a truthy given name `n` first met in `types`. */
  function FirstNamed(types: seq<ConfigType>, n: string): (r: Option<ConfigType>)
    ensures r.None? <==> forall i :: 0 <= i < |types| ==> GivenName(types[i]) != Some(n)
    ensures r.Some? ==> exists i :: 0 <= i < |types| && types[i] == r.value && GivenName(types[i]) == Some(n)
  {
    if types == [] then None
    else
      var p := types[..|types| - 1];
      assert forall i :: 0 <= i < |p| ==> p[i] == types[i];
      var first := FirstNamed(p, n);
      if first.Some? then first
      else if GivenName(types[|types| - 1]) == Some(n) then Some(types[|types| - 1])
      else None
  }

  /** The type last met in `types` with the given name `n`. */
  function LastNamed(types: seq<ConfigType>, n: string): (r: Option<ConfigType>)
    ensures r.None? <==> forall i :: 0 <= i < |types| ==> GivenName(types[i]) != Some(n)
    ensures r.Some? ==> exists i :: 0 <= i < |types| && types[i] == r.value && GivenName(types[i]) == Some(n)
  {
    if types == [] then None
    else if GivenName(types[|types| - 1]) == Some(n) then Some(types[|types| - 1])
    else
      var p := types[..|types| - 1];
      assert forall i :: 0 <= i < |p| ==> p[i] == types[i];
      LastNamed(p, n)
  }

  /** The type last met in `types` whose key is `k`. */
  function LastKeyed(types: seq<ConfigType>, keyOf: ConfigType -> string, k: string): (r: Option<ConfigType>)
    ensures r.None? <==> forall i :: 0 <= i < |types| ==> keyOf(types[i]) != k
    ensures r.Some? ==> exists i :: 0 <= i < |types| && types[i] == r.value && keyOf(types[i]) == k
  {
    if types == [] then None
    else if keyOf(types[|types| - 1]) == k then Some(types[|types| - 1])
    else
      var p := types[..|types| - 1];
      assert forall i :: 0 <= i < |p| ==> p[i] == types[i];
      LastKeyed(p, keyOf, k)
  }

  /** The type a name is bound to in the by-name dictionary: the seed's binding
      if there is one, and otherwise the first type of that name. */
  function Holder(seed: Dict<ConfigType>, types: seq<ConfigType>, n: string): Option<ConfigType> {
    if Get(seed, n).Some? then Get(seed, n) else FirstNamed(types, n)
  }

  /** The `i`-th type has a truthy given name already bound to a type of a
      different Python class. */
  predicate ClashAt(seed: Dict<ConfigType>, types: seq<ConfigType>, i: int) {
    && 0 <= i < |types|
    && Truthy(GivenName(types[i]))
    && var h := Holder(seed, types[..i], GivenName(types[i]).value);
       h.Some? && ClassOf(h.value) != ClassOf(types[i])
  }

  /** One step of the loop of `construct_config_type_dictionary`. */
  function RegisterOne(regs: Registries, t: ConfigType, keyOf: ConfigType -> string): (r: Result<Registries, DefinitionError>)
    ensures r.Ok? ==> r.value.byKey == Put(regs.byKey, keyOf(t), t)
    ensures r.Err? <==> Truthy(GivenName(t)) && GivenName(t).value in Keys(regs.byName)
                        && ClassOf(Get(regs.byName, GivenName(t).value).value) != ClassOf(t)
  {
    var name := GivenName(t);
    if Truthy(name) && name.value in Keys(regs.byName) then
      if ClassOf(t) != ClassOf(Get(regs.byName, name.value).value) then Err(DuplicateTypeName(name.value))
      else Ok(Registries(regs.byName, Put(regs.byKey, keyOf(t), t)))
    else if Truthy(name) then
      Ok(Registries(Put(regs.byName, name.value, t), Put(regs.byKey, keyOf(t), t)))
    else
      Ok(Registries(regs.byName, Put(regs.byKey, keyOf(t), t)))
  }

  /** The registries after the loop has visited `types`. */
  function Register(regs: Registries, types: seq<ConfigType>, keyOf: ConfigType -> string): Result<Registries, DefinitionError>
  {
    if types == [] then Ok(regs)
    else
      var prev :- Register(regs, types[..|types| - 1], keyOf);
      RegisterOne(prev, types[|types| - 1], keyOf)
  }

  /** After a successful loop, every non-empty name is bound to its holder and
      every key to the last type with that key, or else to its old binding. */
  lemma {:induction false} RegisterOk(regs: Registries, types: seq<ConfigType>, keyOf: ConfigType -> string)
    requires Register(regs, types, keyOf).Ok?
    ensures var out := Register(regs, types, keyOf).value;
      && (forall n :: n != "" ==> Get(out.byName, n) == Holder(regs.byName, types, n))
      && (forall k :: Get(out.byKey, k) == if LastKeyed(types, keyOf, k).Some? then LastKeyed(types, keyOf, k) else Get(regs.byKey, k))
  {
    if types != [] {
      var p := types[..|types| - 1];
      var t := types[|types| - 1];
      RegisterOk(regs, p, keyOf);
      var prev := Register(regs, p, keyOf).value;
      var out := Register(regs, types, keyOf).value;
      assert out.byKey == Put(prev.byKey, keyOf(t), t);
      forall k ensures Get(out.byKey, k) == if LastKeyed(types, keyOf, k).Some? then LastKeyed(types, keyOf, k) else Get(regs.byKey, k) {
        if keyOf(t) == k {
          assert LastKeyed(types, keyOf, k) == Some(t);
        } else {
          assert LastKeyed(types, keyOf, k) == LastKeyed(p, keyOf, k);
        }
      }
      forall n | n != "" ensures Get(out.byName, n) == Holder(regs.byName, types, n) {
        if GivenName(t) == Some(n) && Get(prev.byName, n).None? {
          assert Holder(regs.byName, p, n).None?;
          assert out.byName == Put(prev.byName, n, t);
        } else {
          assert Holder(regs.byName, types, n) == Holder(regs.byName, p, n);
          assert Get(out.byName, n) == Get(prev.byName, n);
        }
      }
    }
  }

  /** Whether a type clashes depends only on the types before it. */
  lemma ClashAtPrefix(seed: Dict<ConfigType>, types: seq<ConfigType>, n: nat, i: int)
    requires n <= |types| && 0 <= i < n
    ensures ClashAt(seed, types[..n], i) == ClashAt(seed, types, i)
  {
    assert types[..n][..i] == types[..i];
  }

  /** After a successful prefix, the next step raises exactly when the next
      type clashes. */
  lemma RegisterLastStep(regs: Registries, types: seq<ConfigType>, keyOf: ConfigType -> string)
    requires types != []
    requires Register(regs, types[..|types| - 1], keyOf).Ok?
    ensures Register(regs, types, keyOf).Err? <==> ClashAt(regs.byName, types, |types| - 1)
    ensures Register(regs, types, keyOf).Err? ==>
              Register(regs, types, keyOf).error == DuplicateTypeName(GivenName(types[|types| - 1]).value)
  {
    var p := types[..|types| - 1];
    RegisterOk(regs, p, keyOf);
  }

  /** The loop raises exactly when some type clashes with the holder of its name. */
  lemma {:induction false} RegisterErr(regs: Registries, types: seq<ConfigType>, keyOf: ConfigType -> string)
    ensures Register(regs, types, keyOf).Err? <==> exists i :: ClashAt(regs.byName, types, i)
  {
    if types != [] {
      var last := |types| - 1;
      var p := types[..last];
      RegisterErr(regs, p, keyOf);
      if Register(regs, p, keyOf).Ok? {
        RegisterErrAfterOk(regs, types, p, keyOf);
      } else {
        var i :| ClashAt(regs.byName, p, i);
        ClashAtPrefix(regs.byName, types, last, i);
      }
    }
  }

  /** The step case of `RegisterErr` when the prefix `p` succeeded. */
  lemma RegisterErrAfterOk(regs: Registries, types: seq<ConfigType>, p: seq<ConfigType>, keyOf: ConfigType -> string)
    requires types != [] && p == types[..|types| - 1]
    requires Register(regs, p, keyOf).Ok?
    requires forall i :: !ClashAt(regs.byName, p, i)
    ensures Register(regs, types, keyOf).Err? <==> exists i :: ClashAt(regs.byName, types, i)
  {
    var last := |types| - 1;
    RegisterLastStep(regs, types, keyOf);
    if !Register(regs, types, keyOf).Err? {
      assert !ClashAt(regs.byName, types, last);
      forall i | 0 <= i < last ensures !ClashAt(regs.byName, types, i) {
        assert !ClashAt(regs.byName, p, i);
        ClashAtPrefix(regs.byName, types, last, i);
      }
      assert forall i :: !ClashAt(regs.byName, types, i) by {
        forall i ensures !ClashAt(regs.byName, types, i) {
          if 0 <= i < last {
          } else {
            assert i == last || !(0 <= i < |types|);
          }
        }
      }
    }
  }

  /** When the loop raises, it names the first type that clashes. */
  lemma {:induction false} RegisterFirstErr(regs: Registries, types: seq<ConfigType>, keyOf: ConfigType -> string)
    requires Register(regs, types, keyOf).Err?
    ensures exists i :: ClashAt(regs.byName, types, i)
                        && Register(regs, types, keyOf).error == DuplicateTypeName(GivenName(types[i]).value)
                        && forall j :: 0 <= j < i ==> !ClashAt(regs.byName, types, j)
  {
    var last := |types| - 1;
    var p := types[..last];
    RegisterErr(regs, p, keyOf);
    if Register(regs, p, keyOf).Ok? {
      RegisterLastStep(regs, types, keyOf);
      forall j | 0 <= j < last ensures !ClashAt(regs.byName, types, j) {
        ClashAtPrefix(regs.byName, types, last, j);
      }
    } else {
      RegisterFirstErr(regs, p, keyOf);
      var i :| ClashAt(regs.byName, p, i) && Register(regs, p, keyOf).error == DuplicateTypeName(GivenName(p[i]).value)
               && forall j :: 0 <= j < i ==> !ClashAt(regs.byName, p, j);
      ClashAtPrefix(regs.byName, types, last, i);
      forall j | 0 <= j < i ensures !ClashAt(regs.byName, types, j) {
        ClashAtPrefix(regs.byName, types, last, j);
      }
    }
  }

  // ---------------------------------------------------------------------------
  // construct_config_type_dictionary

  /** The by-name seed: every builtin with a truthy given name, a later one
      replacing an earlier one of the same name. */
  function SeedByName(builtins: seq<ConfigType>): Dict<ConfigType>
  {
    if builtins == [] then []
    else
      var seed := SeedByName(builtins[..|builtins| - 1]);
      var t := builtins[|builtins| - 1];
      if Truthy(GivenName(t)) then Put(seed, GivenName(t).value, t) else seed
  }

  /** The by-key seed: every builtin under its key, later ones winning. */
  function SeedByKey(builtins: seq<ConfigType>, keyOf: ConfigType -> string): Dict<ConfigType>
  {
    if builtins == [] then []
    else Put(SeedByKey(builtins[..|builtins| - 1], keyOf), keyOf(builtins[|builtins| - 1]), builtins[|builtins| - 1])
  }

  lemma {:induction false} SeedByNameSpec(builtins: seq<ConfigType>)
    ensures forall n :: n != "" ==> Get(SeedByName(builtins), n) == LastNamed(builtins, n)
    ensures Get(SeedByName(builtins), "").None?
  {
    if builtins != [] {
      SeedByNameSpec(builtins[..|builtins| - 1]);
    }
  }

  lemma {:induction false} SeedByKeySpec(builtins: seq<ConfigType>, keyOf: ConfigType -> string)
    ensures forall k :: Get(SeedByKey(builtins, keyOf), k) == LastKeyed(builtins, keyOf, k)
  {
    if builtins != [] {
      SeedByKeySpec(builtins[..|builtins| - 1], keyOf);
    }
  }

  /** Every config type the registries visit, in order. */
  function AllTypes(nodeDefs: seq<NodeDef>, root: ConfigType, dagsterTypes: seq<DagsterType>,
                    runtimeBuiltins: seq<DagsterType>, iterate: ConfigType -> seq<ConfigType>): seq<ConfigType>
  {
    GatherAllConfigTypes(nodeDefs, root, iterate) + GatherAllSchemas(dagsterTypes + runtimeBuiltins, iterate)
  }

  /** `construct_config_type_dictionary`: the two dictionaries seeded from the
      builtins and extended by every gathered type. */
  function ConfigTypeDictionary(builtins: seq<ConfigType>, types: seq<ConfigType>, keyOf: ConfigType -> string)
    : Result<Registries, DefinitionError>
  {
    Register(Registries(SeedByName(builtins), SeedByKey(builtins, keyOf)), types, keyOf)
  }

  /** The registries as the source promises them: the by-name dictionary binds
      a name to the last builtin of that name, or else to the first gathered
      type of that name; a later type of the same name and a different class
      raises, naming the first such type; the by-key dictionary binds a key to
      the last type with that key, gathered or builtin, and never raises. */
  lemma ConfigTypeDictionarySpec(builtins: seq<ConfigType>, types: seq<ConfigType>, keyOf: ConfigType -> string)
    ensures var seed := SeedByName(builtins);
      var r := ConfigTypeDictionary(builtins, types, keyOf);
      && (r.Err? <==> exists i :: ClashAt(seed, types, i))
      && (r.Err? ==> exists i :: ClashAt(seed, types, i) && r.error == DuplicateTypeName(GivenName(types[i]).value)
                                 && forall j :: 0 <= j < i ==> !ClashAt(seed, types, j))
      && (r.Ok? ==> forall n :: n != "" ==>
                      Get(r.value.byName, n) == (if LastNamed(builtins, n).Some? then LastNamed(builtins, n) else FirstNamed(types, n)))
      && (r.Ok? ==> forall k :: Get(r.value.byKey, k) ==
                      (if LastKeyed(types, keyOf, k).Some? then LastKeyed(types, keyOf, k) else LastKeyed(builtins, keyOf, k)))
  {
    var regs := Registries(SeedByName(builtins), SeedByKey(builtins, keyOf));
    RegisterErr(regs, types, keyOf);
    if Register(regs, types, keyOf).Err? {
      RegisterFirstErr(regs, types, keyOf);
    }
    SeedByNameSpec(builtins);
    SeedByKeySpec(builtins, keyOf);
    if Register(regs, types, keyOf).Ok? {
      RegisterOk(regs, types, keyOf);
    }
  }

  /** Types that share a name and a Python class never raise, whatever their
      structure: two enums named `E` with different members are accepted and
      the first is kept. */
  lemma SameClassDifferentStructure(a: ConfigType, b: ConfigType, keyOf: ConfigType -> string)
    requires a == Named("E", "Enum", [Scalar("Int")]) && b == Named("E", "Enum", [Scalar("String")])
    ensures ConfigTypeDictionary([], [a, b], keyOf).Ok?
    ensures Get(ConfigTypeDictionary([], [a, b], keyOf).value.byName, "E") == Some(a)
  {
    ConfigTypeDictionarySpec([], [a, b], keyOf);
    assert [a, b][..1] == [a] && [a][..0] == [];
    assert !ClashAt([], [a, b], 0);
    assert FirstNamed([a], "E") == Some(a);
    assert !ClashAt([], [a, b], 1);
    assert FirstNamed([a, b], "E") == Some(a);
  }

  /** `construct_config_type_dictionary`, as the loop of the source over the
      gathered types. */
  method ConstructConfigTypeDictionary(builtins: seq<ConfigType>, nodeDefs: seq<NodeDef>, root: ConfigType,
                                       dagsterTypes: seq<DagsterType>, runtimeBuiltins: seq<DagsterType>,
                                       iterate: ConfigType -> seq<ConfigType>, keyOf: ConfigType -> string)
    returns (r: Result<Registries, DefinitionError>)
    ensures r == ConfigTypeDictionary(builtins, AllTypes(nodeDefs, root, dagsterTypes, runtimeBuiltins, iterate), keyOf)
  {
    var byName := SeedByName(builtins);
    var byKey := SeedByKey(builtins, keyOf);
    ghost var seed := Registries(byName, byKey);
    var allTypes := AllTypes(nodeDefs, root, dagsterTypes, runtimeBuiltins, iterate);
    for i := 0 to |allTypes|
      invariant Register(seed, allTypes[..i], keyOf) == Ok(Registries(byName, byKey))
    {
      assert allTypes[..i + 1][..i] == allTypes[..i];
      var t := allTypes[i];
      ghost var step := RegisterOne(Registries(byName, byKey), t, keyOf);
      assert Register(seed, allTypes[..i + 1], keyOf) == step;
      var name := GivenName(t);
      if Truthy(name) && name.value in Keys(byName) {
        if ClassOf(t) != ClassOf(Get(byName, name.value).value) {
          RegisterErrPrefix(seed, allTypes, i + 1, keyOf);
          return Err(DuplicateTypeName(name.value));
        }
      } else if Truthy(name) {
        byName := Put(byName, name.value, t);
      }
      byKey := Put(byKey, keyOf(t), t);
      assert step == Ok(Registries(byName, byKey));
    }
    assert allTypes[..|allTypes|] == allTypes;
    return Ok(Registries(byName, byKey));
  }

  /** Once the loop has raised on a prefix, it raises the same error on the whole. */
  lemma {:induction false} RegisterErrPrefix(regs: Registries, types: seq<ConfigType>, n: nat, keyOf: ConfigType -> string)
    requires n <= |types|
    requires Register(regs, types[..n], keyOf).Err?
    ensures Register(regs, types, keyOf) == Register(regs, types[..n], keyOf)
  {
    if n < |types| {
      var p := types[..|types| - 1];
      assert p[..n] == types[..n];
      RegisterErrPrefix(regs, p, n, keyOf);
    } else {
      assert types[..n] == types;
    }
  }
}
