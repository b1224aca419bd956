/** The root of the run-config schema (run_config.py:66-76, 126-177): the
    storage, execution, loggers and resources sections and the node
    dictionary under `ops` or `solids`. */
module RunConfigSchema {
  import opened Wrappers
  import opened OrderedDict
  import opened ConfigTypes
  import opened Definitions
  import opened Sections
  import opened NodeSchema

  /** A mode: its resources, executors and intermediate storages. */
  datatype ModeDef = ModeDef(resources: Dict<ResourceDef>, executors: seq<ExecutorDef>, storages: seq<NamedDef>)

  /** `RunConfigSchemaCreationData`, less the pipeline name, which the schema
      does not use; of the job's graph definition only whether it has a
      config mapping and the mapping's schema matter. */
  datatype CreationData = CreationData(
    solids: seq<Node>,
    deps: Deps,
    mode: ModeDef,
    loggers: Dict<LoggerDef>,
    ignoredSolids: seq<Node>,
    requiredResources: set<string>,
    opApis: bool,
    graphHasConfigMapping: bool,
    graphConfigSchema: Option<Field>)

  /** The key of the node dictionary in the current vocabulary. */
  function NodesKey(opApis: bool): (k: string)
    ensures k in NodeAliases(opApis) && NodeAliases(opApis)[k] != k
  {
    if opApis then "ops" else "solids"
  }

  function StorageNames(storages: seq<NamedDef>): (names: seq<string>)
    ensures |names| == |storages| && forall i :: 0 <= i < |storages| ==> names[i] == storages[i].name
  {
    seq(|storages|, i requires 0 <= i < |storages| => storages[i].name)
  }

  /** The `intermediate_storage` section: the storage rules over the selector
      of the mode's intermediate storages. */
  function IntermediateStorageField(storages: seq<NamedDef>, defaultStorageNames: set<string>,
                                    allOptional: ConfigType -> bool): (f: Field)
    ensures f.ty == SelectorForNamedDefs(storages) && !f.ignored
    ensures StorageNameSet(StorageNames(storages)) == defaultStorageNames ==>
              f.isRequired == Some(false) && f.defaultValue.None?
    ensures StorageNameSet(StorageNames(storages)) != defaultStorageNames ==>
              && f.isRequired.None?
              && (f.defaultValue.Some? <==>
                    && |storages| > 0
                    && allOptional(Get(f.ty.choices, storages[0].name).value.ty))
              && (f.defaultValue.Some? ==> f.defaultValue == Some(Mapping([(storages[0].name, EmptyMapping)])))
  {
    var names := StorageNames(storages);
    assert |names| > 0 ==> names[0] in Keys(SelectorForNamedDefs(storages).choices);
    StorageField(SelectorForNamedDefs(storages), names, defaultStorageNames, allOptional)
  }

  /** The node section: for a job whose graph has a config mapping, a Shape
      holding only the mapping's schema under `config`; otherwise the node
      dictionary of the selected and ignored nodes. */
  function NodesField(cd: CreationData): (r: Result<Field, DefinitionError>)
    requires cd.graphHasConfigMapping ==> cd.graphConfigSchema.Some?
    ensures cd.graphHasConfigMapping ==> r == Ok(FieldOf(Shape([("config", cd.graphConfigSchema.value)], map[])))
    ensures !cd.graphHasConfigMapping ==>
              && (r.Err? <==> NodeDictionary(cd.solids, cd.ignoredSolids, cd.deps, cd.mode.resources, cd.opApis).Err?)
              && (r.Err? ==> r.error == NodeDictionary(cd.solids, cd.ignoredSolids, cd.deps, cd.mode.resources, cd.opApis).error)
              && (r.Ok? ==> r.value == FieldOf(NodeDictionary(cd.solids, cd.ignoredSolids, cd.deps, cd.mode.resources, cd.opApis).value))
  {
    if cd.graphHasConfigMapping then
      Ok(FieldOf(Shape([("config", cd.graphConfigSchema.value)], map[])))
    else
      var dict :- NodeDictionary(cd.solids, cd.ignoredSolids, cd.deps, cd.mode.resources, cd.opApis);
      Ok(FieldOf(dict))
  }

  /** `define_run_config_schema_type`. */
  function RunConfigSchemaType(cd: CreationData, defaultStorageNames: set<string>, allOptional: ConfigType -> bool)
    : (r: Result<ConfigType, DefinitionError>)
    requires cd.graphHasConfigMapping ==> cd.graphConfigSchema.Some?
    ensures r.Err? <==> NodesField(cd).Err?
    ensures r.Ok? ==> r.value.Shape? && r.value.aliases == NodeAliases(cd.opApis)
  {
    var storages := cd.mode.storages;
    var nodesField :- NodesField(cd);
    var fields := [
      ("storage", Some(Field(SelectorForNamedDefs(storages), Some(false), None, false))),
      ("intermediate_storage", Some(IntermediateStorageField(storages, defaultStorageNames, allOptional))),
      ("execution", Some(ExecutionField(cd.mode.executors))),
      ("loggers", Some(FieldOf(LoggerDictionary(cd.loggers)))),
      ("resources", Some(FieldOf(Shape(ResourceFields(cd.mode.resources, cd.requiredResources), map[])))),
      (NodesKey(cd.opApis), Some(nodesField))];
    Ok(Shape(RemoveNoneEntries(fields), NodeAliases(cd.opApis)))
  }

  /** The root has exactly six sections, in this order, each built by its own
      rule: an optional `storage` selector over the intermediate storages (an
      alias of `intermediate_storage`), `intermediate_storage` under the
      storage rules, `execution` under the executor rules, the `loggers`
      dictionary, the `resources` dictionary, and the node section under the
      key of the current vocabulary, the other vocabulary's key being its alias. */
  lemma RunConfigSchemaSections(cd: CreationData, defaultStorageNames: set<string>, allOptional: ConfigType -> bool)
    requires cd.graphHasConfigMapping ==> cd.graphConfigSchema.Some?
    requires RunConfigSchemaType(cd, defaultStorageNames, allOptional).Ok?
    ensures var t := RunConfigSchemaType(cd, defaultStorageNames, allOptional).value;
      && Keys(t.fields) == ["storage", "intermediate_storage", "execution", "loggers", "resources", NodesKey(cd.opApis)]
      && Get(t.fields, "storage") == Some(Field(SelectorForNamedDefs(cd.mode.storages), Some(false), None, false))
      && Get(t.fields, "intermediate_storage") == Some(IntermediateStorageField(cd.mode.storages, defaultStorageNames, allOptional))
      && Get(t.fields, "execution") == Some(ExecutionField(cd.mode.executors))
      && Get(t.fields, "loggers") == Some(FieldOf(LoggerDictionary(cd.loggers)))
      && Get(t.fields, "resources") == Some(FieldOf(Shape(ResourceFields(cd.mode.resources, cd.requiredResources), map[])))
      && Get(t.fields, NodesKey(cd.opApis)) == Some(NodesField(cd).value)
  {
    var storages := cd.mode.storages;
    var nk := NodesKey(cd.opApis);
    var a := Field(SelectorForNamedDefs(storages), Some(false), None, false);
    var b := IntermediateStorageField(storages, defaultStorageNames, allOptional);
    var c := ExecutionField(cd.mode.executors);
    var d := FieldOf(LoggerDictionary(cd.loggers));
    var e := FieldOf(Shape(ResourceFields(cd.mode.resources, cd.requiredResources), map[]));
    var f := NodesField(cd).value;
    SixSections(a, b, c, d, e, nk, f);
    assert RunConfigSchemaType(cd, defaultStorageNames, allOptional).value.fields ==
           RemoveNoneEntries([("storage", Some(a)), ("intermediate_storage", Some(b)), ("execution", Some(c)),
                              ("loggers", Some(d)), ("resources", Some(e)), (nk, Some(f))]);
  }

  /** Filtering the six present sections keeps them all, in order, and each is
      found under its key. */
  lemma SixSections(a: Field, b: Field, c: Field, d: Field, e: Field, nk: string, f: Field)
    requires nk == "ops" || nk == "solids"
    ensures var fields := RemoveNoneEntries([("storage", Some(a)), ("intermediate_storage", Some(b)), ("execution", Some(c)),
                                             ("loggers", Some(d)), ("resources", Some(e)), (nk, Some(f))]);
      && Keys(fields) == ["storage", "intermediate_storage", "execution", "loggers", "resources", nk]
      && Get(fields, "storage") == Some(a) && Get(fields, "intermediate_storage") == Some(b)
      && Get(fields, "execution") == Some(c) && Get(fields, "loggers") == Some(d)
      && Get(fields, "resources") == Some(e) && Get(fields, nk) == Some(f)
  {
    var entries := [("storage", Some(a)), ("intermediate_storage", Some(b)), ("execution", Some(c)),
                    ("loggers", Some(d)), ("resources", Some(e)), (nk, Some(f))];
    var fields := [("storage", a), ("intermediate_storage", b), ("execution", c), ("loggers", d), ("resources", e), (nk, f)];
    assert forall i :: 0 <= i < |entries| ==> entries[i].1.Some?;
    var trimmed := RemoveNoneEntries(entries);
    assert |trimmed| == 6 && forall i :: 0 <= i < 6 ==> trimmed[i] == (entries[i].0, entries[i].1.value);
    assert trimmed == fields;
    SixKeys(fields);
  }

  /** Lookups in the six-section root. */
  lemma SixKeys(fields: Dict<Field>)
    requires |fields| == 6
    requires fields[0].0 == "storage" && fields[1].0 == "intermediate_storage" && fields[2].0 == "execution"
    requires fields[3].0 == "loggers" && fields[4].0 == "resources" && (fields[5].0 == "ops" || fields[5].0 == "solids")
    ensures Keys(fields) == ["storage", "intermediate_storage", "execution", "loggers", "resources", fields[5].0]
    ensures forall i :: 0 <= i < 6 ==> Get(fields, fields[i].0) == Some(fields[i].1)
  {
    assert UniqueKeys(fields);
    forall i | 0 <= i < 6 ensures Get(fields, fields[i].0) == Some(fields[i].1) {
      GetUnique(fields, i);
    }
  }
}
