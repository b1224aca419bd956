# Run-config schema synthesiser (Dagster), in Dafny

This project models the part of Dagster that turns a job into the schema of
its run config (`python_modules/dagster/dagster/core/definitions/run_config.py`).

**Inputs.** The job's nodes, its dependency wiring, and the mode's resources,
executors and intermediate storages, together with its loggers.

**The schema it builds.** One nested config type with these parts:

- a `storage` / `intermediate_storage` selector;
- an `execution` selector;
- a `loggers` dictionary;
- a `resources` dictionary;
- the per-node dictionary, under `ops` or `solids`.

In the per-node dictionary, each node gets an entry holding:

- its `inputs` (fed by root input managers or type loaders);
- its `outputs` (io-manager output config, or else type materializers);
- its `config`.

A nested graph gets the dictionary of its own nodes instead.

**The type registries.** The module then collects every config type it can
reach into two registries, one by given name and one by structural key.
The by-name registry raises when two types of different classes share a name.

**How the model is built.**

- Python dictionaries keep insertion order. They are modelled as sequences of
  key/value pairs (`OrderedDict`); `Put` is `d[k] = v`.
- `DagsterInvalidDefinitionError` is modelled as a `Result` with an error kind per cause.
- Each loop of the source that fills a dictionary step by step is modelled as
  a `method` with the loop. The method is proved equal to a specification
  function: a fold over the prefix visited so far.
- The properties are proved about those functions.
- The recursion over nested graphs (leaf, config-mapped graph, composite,
  plain graph) is modelled as mutually recursive functions. Termination is by
  a size measure over the node tree.

**Files.**

| file | contents |
|---|---|
| `wrappers.dfy` | `Option` and `Result` |
| `ordered_dict.dfy` | insertion-ordered dictionaries |
| `config_types.dfy` | config types, `Field`, config values, Python class of a type |
| `definitions.dfy` | nodes, inputs, outputs, resources, loggers, executors, errors |
| `sections.dfy` | resources, loggers, selectors, execution and storage sections |
| `node_schema.dfy` | inputs, outputs, per-node entries, node dictionary |
| `scenarios.dfy` | concrete nested graphs contrasting composite and plain graph nodes |
| `run_config_schema.dfy` | the root schema type |
| `type_registry.dfy` | gathering config types and the two registries |

**Where the model follows the code as written.** These are behaviours of the
code that a reader of its comments might not expect:

- A plain (non-composite, unmapped) graph node's entry comes from
  `graph_config_field`. That builder does three unexpected things:
  - it ignores the `ignored` flag, so an ignored plain graph's entry is neither
    optional nor marked ignored;
  - it always yields a field;
  - it resolves the inner nodes' inputs against the *enclosing* dependency
    structure rather than the graph's own.

  A composite resolves them against its own wiring.
  `NodeScenarios.PlainGraphUsesOuterWiring` shows an inner input that is fed by
  a sibling being demanded from the user anyway.
- For a config-mapped graph, the node's own inputs are resolved against the
  graph's *inner* dependency structure (run_config.py:401-409).
  `NodeScenarios.MappedGraphUsesInnerWiring` shows an input fed by the
  enclosing wiring being demanded from the user anyway.
- A loader-based input entry is required when
  `not has_default and not root_manager_key`. That branch is only reached when
  there is no root manager key, so it is required exactly when the input has no
  default.
- The name-collision test of the by-name registry compares only the Python
  class of the two types. Two same-named types of the same class but different
  structure are accepted, and the first is kept
  (`TypeRegistry.SameClassDifferentStructure`).

## Model

| member | source | states |
|---|---|---|
| `Sections.DefConfigField` | python_modules/dagster/dagster/core/definitions/run_config.py:56-62 | the section is a Shape with exactly the key `config` when the definition has a config field and no keys otherwise; the requiredness override is kept as passed |
| `Sections.RemoveNoneEntries` | python_modules/dagster/dagster/core/definitions/run_config.py:52-53 | the result is empty exactly when every entry is absent; when every entry is present, keys and values are kept in order |
| `Sections.RemoveNoneEntriesGet` | python_modules/dagster/dagster/core/definitions/run_config.py:52-53 | after filtering, a key finds its value when that value was present, and finds nothing otherwise |
| `Sections.ResourceFieldsSpec` | python_modules/dagster/dagster/core/definitions/run_config.py:31-49 | there is a key for exactly the resources with a config schema; a resource outside `required_resources` is optional; the others leave requiredness unset; keys are unique |
| `Sections.DefineResourceDictionaryCls` | python_modules/dagster/dagster/core/definitions/run_config.py:31-49 | the loop builds the Shape of the resource fields specified by `ResourceFields` |
| `Sections.LoggerDictionary` | python_modules/dagster/dagster/core/definitions/run_config.py:77-83 | one key per logger, in the loggers' order; each entry is the optional `config` envelope of that logger |
| `Sections.SelectorForNamedDefs` | python_modules/dagster/dagster/core/definitions/run_config.py:182-183 | the selector has a choice for every definition name and no other |
| `Sections.SelectorFieldsValues` | python_modules/dagster/dagster/core/definitions/run_config.py:182-183 | when names are distinct, each choice is that definition's `config` envelope with requiredness unset |
| `Sections.ExecutionField` | python_modules/dagster/dagster/core/definitions/run_config.py:86-105 | case 1: when the in-process executor is offered, the selector defaults to `{in_process: {}}`; case 2: otherwise, a lone execute-in-process executor gives an optional Permissive defaulting to `{}`; case 3: otherwise it is the bare selector with no default; every executor is a choice |
| `Sections.ExecutionDefaultIsChoice` | python_modules/dagster/dagster/core/definitions/run_config.py:86-95 | when the in-process executor is offered under its own name, the `{in_process: {}}` default names a choice of the selector |
| `Sections.DefineExecutionField` | python_modules/dagster/dagster/core/definitions/run_config.py:86-105 | the loop that looks for the in-process executor computes `ExecutionField` |
| `Sections.StorageField` | python_modules/dagster/dagster/core/definitions/run_config.py:108-123 | when the names equal the default set, the field is optional with no default; otherwise requiredness is unset, and the default `{first: {}}` is set exactly when there is a first name whose choice type is all-optional |
| `NodeSchema.NodeAliases` | python_modules/dagster/dagster/core/definitions/run_config.py:328-331 | the alias table is `{ops: solids}` under the op APIs and `{solids: ops}` otherwise |
| `NodeSchema.InputManagerInputField` | python_modules/dagster/dagster/core/definitions/run_config.py:228-252 | it raises when the root manager key names no resource, or names a resource that is not an input manager; otherwise the result is the manager's input config schema |
| `NodeSchema.TypeLoaderInputField` | python_modules/dagster/dagster/core/definitions/run_config.py:255-261 | the loader's schema, required exactly when the input has no default and no root manager key |
| `NodeSchema.InputEntry` | python_modules/dagster/dagster/core/definitions/run_config.py:193-204 | an input with an upstream provider gets nothing; the root manager is consulted before the loader; a loader entry is required exactly when there is no default; it raises exactly on a bad manager key |
| `NodeSchema.InputFieldsErr` | python_modules/dagster/dagster/core/definitions/run_config.py:193-204 | the loop raises exactly when some input's entry raises, and it raises the first such error |
| `NodeSchema.InputFieldsOk` | python_modules/dagster/dagster/core/definitions/run_config.py:193-204 | when the loop succeeds, each input's entry is stored under its name, with no other keys |
| `NodeSchema.InputsFieldSpec` | python_modules/dagster/dagster/core/definitions/run_config.py:186-216 | it raises exactly when some input's manager key is bad; the field is absent exactly when no input contributes; otherwise it is a Shape holding exactly the entries, each under its input's name, optional and marked ignored for an ignored node |
| `NodeSchema.GetInputsField` | python_modules/dagster/dagster/core/definitions/run_config.py:186-216 | the loop with its inline branches computes `InputsField` |
| `NodeSchema.OutputManagerOutputField` | python_modules/dagster/dagster/core/definitions/run_config.py:295-318 | it raises when the io-manager key names no resource, or names a non-output-manager; otherwise the result is the manager's output config schema |
| `NodeSchema.TypeOutputField` | python_modules/dagster/dagster/core/definitions/run_config.py:321-325 | an optional field of the materializer's schema exactly when the type has a materializer |
| `NodeSchema.OutputManagerFieldsErr` | python_modules/dagster/dagster/core/definitions/run_config.py:271-277 | the first loop raises exactly when some output's manager key is bad, and it raises the first such output's error |
| `NodeSchema.OutputManagerFieldsOk` | python_modules/dagster/dagster/core/definitions/run_config.py:271-277 | when the first loop succeeds, each output's manager schema is stored under its name, with no other keys |
| `NodeSchema.MaterializerFieldsSpec` | python_modules/dagster/dagster/core/definitions/run_config.py:283-287 | the second loop stores each output's materializer field under its name, with no other keys |
| `NodeSchema.OutputsFieldSpec` | python_modules/dagster/dagster/core/definitions/run_config.py:264-292 | see rule R1 below the table |
| `NodeSchema.GetOutputsField` | python_modules/dagster/dagster/core/definitions/run_config.py:264-292 | the two loops compute `OutputsField` |
| `NodeSchema.SolidConfigField` | python_modules/dagster/dagster/core/definitions/run_config.py:328-344 | absent exactly when every entry is absent; otherwise a Shape of the present entries with the alias table, optional and marked ignored exactly for an ignored node |
| `NodeSchema.ConstructLeafNodeConfig` | python_modules/dagster/dagster/core/definitions/run_config.py:347-368 | see rule R2 below the table |
| `NodeSchema.DefineInodeField` | python_modules/dagster/dagster/core/definitions/run_config.py:371-430 | see rule R3 below the table |
| `NodeSchema.CompositeSolidConfigField` | python_modules/dagster/dagster/core/definitions/run_config.py:433-459 | a composite raises exactly when its inputs, its outputs or its inner dictionary raise, inputs first; otherwise it always has a field carrying the alias table, optional and marked ignored exactly when the node is ignored; `inputs` holds its inputs resolved against the enclosing wiring, `outputs` its outputs, and `solids` the dictionary of its inner nodes built against the graph's own wiring |
| `NodeSchema.GraphConfigField` | python_modules/dagster/dagster/core/definitions/run_config.py:462-475 | a plain graph raises exactly when the dictionary of its inner nodes, built against the enclosing wiring, raises, and with its error; otherwise its field is a plain `Field` of that dictionary, so the ignored flag plays no part |
| `NodeSchema.NodeDictionary` | python_modules/dagster/dagster/core/definitions/run_config.py:478-515 | the dictionary is a Shape carrying the alias table; with no nodes it is the empty Shape |
| `NodeSchema.NodeFieldsErr` | python_modules/dagster/dagster/core/definitions/run_config.py:489-512 | a node loop raises exactly when some node's entry raises, and it raises the first such error |
| `NodeSchema.NodeFieldsGet` | python_modules/dagster/dagster/core/definitions/run_config.py:489-512 | after a node loop, a node's entry is under its name; a node without an entry leaves the earlier value |
| `NodeSchema.NodeFieldsFrame` | python_modules/dagster/dagster/core/definitions/run_config.py:489-512 | a node loop changes only keys of visited node names |
| `NodeSchema.NodeFieldsUnique` | python_modules/dagster/dagster/core/definitions/run_config.py:489-512 | a node loop keeps keys unique |
| `NodeSchema.NodeDictionaryErr` | python_modules/dagster/dagster/core/definitions/run_config.py:478-515 | the dictionary raises exactly when a selected or an ignored node's entry raises; selected nodes are visited first |
| `NodeSchema.NodeDictionaryIgnoredWins` | python_modules/dagster/dagster/core/definitions/run_config.py:502-512 | an ignored node's entry overwrites a same-named selected one; it is optional and marked ignored unless the node is a plain graph |
| `NodeSchema.NodeDictionarySelected` | python_modules/dagster/dagster/core/definitions/run_config.py:489-500 | an unshadowed selected node has exactly its own entry; it has no key when it has no entry |
| `NodeSchema.NodeDictionaryKeys` | python_modules/dagster/dagster/core/definitions/run_config.py:478-515 | dictionary keys are unique node names |
| `NodeSchema.DefineNodeDictionaryCls` | python_modules/dagster/dagster/core/definitions/run_config.py:478-515 | the two loops compute `NodeDictionary` |
| `NodeScenarios.CompositeUsesInnerWiring` | python_modules/dagster/dagster/core/definitions/run_config.py:433-459 | an inner input fed by a sibling gets no entry inside a composite |
| `NodeScenarios.MappedGraphUsesInnerWiring` | python_modules/dagster/dagster/core/definitions/run_config.py:397-409 | a config-mapped graph's own input fed by the enclosing wiring is still demanded, required, from the user |
| `NodeScenarios.PlainGraphUsesOuterWiring` | python_modules/dagster/dagster/core/definitions/run_config.py:462-475 | the same input inside a plain graph is demanded, required, from the user |
| `RunConfigSchema.NodesKey` | python_modules/dagster/dagster/core/definitions/run_config.py:167-172 | the node section's key is aliased to the other vocabulary's key |
| `RunConfigSchema.IntermediateStorageField` | python_modules/dagster/dagster/core/definitions/run_config.py:127-131 | the intermediate storage section is a field over the selector of the mode's storages; it is optional with no default when the storage names are exactly the default set; otherwise requiredness is unset and the default `{first: {}}` is set exactly when there is a first storage whose choice type is all-optional |
| `RunConfigSchema.NodesField` | python_modules/dagster/dagster/core/definitions/run_config.py:153-165 | a config-mapped job has only the mapping's schema under `config`; otherwise the node dictionary, raising its errors |
| `RunConfigSchema.RunConfigSchemaType` | python_modules/dagster/dagster/core/definitions/run_config.py:126-177 | the root raises exactly when the node section raises; it is a Shape with the alias table |
| `RunConfigSchema.RunConfigSchemaSections` | python_modules/dagster/dagster/core/definitions/run_config.py:140-177 | see rule R4 below the table |
| `TypeRegistry.IterateNodeDefConfigTypesSpec` | python_modules/dagster/dagster/core/definitions/run_config.py:518-527 | a type is visited exactly when it lies under the config schema of some reachable leaf; a graph's own schema is not visited |
| `TypeRegistry.IterateNodesConfigTypesSpec` | python_modules/dagster/dagster/core/definitions/run_config.py:522-524 | visiting a graph's nodes yields exactly the types of their reachable leaves |
| `TypeRegistry.GatherAllConfigTypes` | python_modules/dagster/dagster/core/definitions/run_config.py:539-545 | every type under the root schema type is gathered |
| `TypeRegistry.GatherAllSchemas` | python_modules/dagster/dagster/core/definitions/run_config.py:530-536 | exactly the types under some Dagster type's loader or materializer schema are gathered |
| `TypeRegistry.RegisterOne` | python_modules/dagster/dagster/core/definitions/run_config.py:558-571 | one step raises exactly when a truthy name is bound to a type of another class; the key registry is always updated |
| `TypeRegistry.RegisterOk` | python_modules/dagster/dagster/core/definitions/run_config.py:558-571 | after the loop, a name is bound to its seed binding or else its first type; a key is bound to its last type or else its seed |
| `TypeRegistry.RegisterErr` | python_modules/dagster/dagster/core/definitions/run_config.py:558-571 | the loop raises exactly when some type clashes with the current binding of its name |
| `TypeRegistry.RegisterFirstErr` | python_modules/dagster/dagster/core/definitions/run_config.py:558-571 | the error names the first clashing type |
| `TypeRegistry.SeedByNameSpec` | python_modules/dagster/dagster/core/definitions/run_config.py:552 | the name seed binds each non-empty name to its last builtin; the empty name is unbound |
| `TypeRegistry.SeedByKeySpec` | python_modules/dagster/dagster/core/definitions/run_config.py:553 | the key seed binds each key to its last builtin |
| `TypeRegistry.ConfigTypeDictionarySpec` | python_modules/dagster/dagster/core/definitions/run_config.py:548-573 | see rule R5 below the table |
| `TypeRegistry.SameClassDifferentStructure` | python_modules/dagster/dagster/core/definitions/run_config.py:558-564 | two same-named types of one class but different structure never raise; the first is kept |
| `TypeRegistry.ConstructConfigTypeDictionary` | python_modules/dagster/dagster/core/definitions/run_config.py:548-573 | the source's loop computes `ConfigTypeDictionary` over all gathered types |

Longer rules referred to from the table:

- **R1, `NodeSchema.OutputsFieldSpec`.**
  - It raises exactly when some output's manager key is bad.
  - When any manager has output config, the field is a Shape of exactly those schemas, each under its output's name, and materializers are ignored.
  - Else, when any output type has a materializer, the field is an optional Array of a Shape of exactly the materializer schemas, each under its output's name.
  - Otherwise there is no field.
- **R2, `NodeSchema.ConstructLeafNodeConfig`.**
  - Input errors come before output errors.
  - The entry is absent exactly when inputs, outputs and config are all absent.
  - Otherwise the three parts are found under `inputs`, `outputs` and `config`.
- **R3, `NodeSchema.DefineInodeField`.**
  - Every entry is a Shape carrying the alias table.
  - An ignored node's entry is optional and marked ignored, unless the node is a plain graph.
  - An unmapped graph always has an entry.
  - A config-mapped graph raises exactly when its inputs or outputs raise; its `inputs` are resolved against the graph's inner wiring, and its `config` is the mapping's schema.
- **R4, `RunConfigSchema.RunConfigSchemaSections`.**
  - The root has exactly six keys, in order: `storage`, `intermediate_storage`, `execution`, `loggers`, `resources`, then `ops` or `solids`.
  - Each section is given by its own rule.
  - `storage` is an optional selector over the storages.
- **R5, `TypeRegistry.ConfigTypeDictionarySpec`.**
  - A name is bound to its last builtin, or else to its first gathered type.
  - A later type with the same name and a different class raises, and the error names the first such type.
  - A key is bound to its last gathered type, or else to its last builtin, and never raises.

## Left out

- `NodeHandle` and `parent_handle` are threaded through the recursion but never read by this module, so they are omitted.
- `pipeline_name` and the job's `graph_def` are out, except for whether it has a config mapping and that mapping's schema.
- Error message texts and `description` strings are out. Errors are kinds; a description is the `ignored` flag of a field.
- `Field`'s own requiredness inference when `is_required` is `None` is out: the override is kept exactly as passed.
- `all_optional_type`, `iterate_config_types`, a config type's `key`, `ALL_CONFIG_BUILTINS`, `ALL_RUNTIME_BUILTINS`, `construct_dagster_type_dictionary` and `default_intermediate_storage_defs` are defined outside this module. They are parameters of the model.
- A definition's `config_schema`, its truthiness and `has_config_field` are collapsed into one optional field. `as_field()` is the identity on it.
- The dependency structure is the set of (node name, input name) handles that have an upstream output. `container_maps_input` is the node's set of mapped input names.
- `check.invariant` for a node definition that is neither a solid nor a graph cannot arise: node definitions are a closed datatype.
- `check.opt_list_param` argument checking is out; `None` ignored nodes are the empty sequence.
- Validation of user run-config documents against the schema is not part of this module.
- The root schema requires a mapping schema whenever the job's graph has a config mapping, which is the source's own `cast` assumption.
- `TypeRegistry.GatherAllConfigTypes` states only that the root schema's types are gathered. The order of the node definitions' types is given by its definition, and their membership by `TypeRegistry.IterateNodeDefConfigTypesSpec`.
