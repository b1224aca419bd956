/** The definitions the schema is synthesised from: nodes (ops and nested
    graphs), their inputs and outputs, the dependency wiring, resources,
    loggers, executors and storages, and the definition errors. */
module Definitions {
  import opened Wrappers
  import opened ConfigTypes

  /** The dependency structure of one graph, as the set of (node name, input
      name) handles that have an upstream output wired to them. */
  type Deps = set<(string, string)>

  /** An input: its optional root input manager key, the config type of its
      Dagster type's loader (if the type has a loader), and whether the node
      definition declares a default value for it. */
  datatype InputDef = InputDef(name: string, rootManagerKey: Option<string>, loader: Option<ConfigType>, hasDefault: bool)

  /** An output: its io-manager resource key and the config type of its
      Dagster type's materializer, if any. */
  datatype OutputDef = OutputDef(name: string, ioManagerKey: string, materializer: Option<ConfigType>)

  datatype NodeDef =
      /** A solid / op definition with its own config schema. */
    | Leaf(inputs: seq<InputDef>, outputs: seq<OutputDef>, configSchema: Option<Field>)
      /** A graph definition, composite when `isComposite`; when it has a
          config mapping, `configSchema` is the mapping's schema. */
    | Graph(inputs: seq<InputDef>, outputs: seq<OutputDef>, nodes: seq<Node>, deps: Deps,
            hasConfigMapping: bool, configSchema: Option<Field>, isComposite: bool)

  /** A node: its name in the enclosing graph, its definition, and the inputs
      that the enclosing graph maps from its own inputs (`container_maps_input`). */
  datatype Node = Node(name: string, def: NodeDef, mappedInputs: set<string>)

  /** A resource and its capabilities as input manager and as output manager. */
  datatype ResourceDef = ResourceDef(
    configSchema: Option<Field>,
    isInputManager: bool, inputConfigSchema: Option<Field>,
    isOutputManager: bool, outputConfigSchema: Option<Field>)

  /** A logger (keyed by name in the mode's logger dictionary). */
  datatype LoggerDef = LoggerDef(configField: Option<Field>)

  /** A named definition offered as one choice of a selector (a storage). */
  datatype NamedDef = NamedDef(name: string, configField: Option<Field>)

  /** Which of the two distinguished executor objects, if any, this is. */
  datatype ExecutorKind = InProcessExecutor | ExecuteInProcessExecutor | OtherExecutor

  datatype ExecutorDef = ExecutorDef(name: string, configField: Option<Field>, kind: ExecutorKind)

  /** `DagsterInvalidDefinitionError`, by cause. */
  datatype DefinitionError =
    | MissingInputManager(node: string, input: string, key: string)
    | NotAnInputManager(node: string, input: string, key: string)
    | MissingIoManager(node: string, output: string, key: string)
    | NotAnOutputManager(node: string, output: string, key: string)
    | DuplicateTypeName(name: string)

  /** Size measures for the nested-graph recursion. */
  function NodeSize(n: Node): nat
    decreases n, 1
  {
    if n.def.Graph? then 1 + NodesSize(n.def.nodes) else 1
  }

  function NodesSize(ns: seq<Node>): nat
    decreases ns, 0
  {
    if ns == [] then 0 else NodesSize(ns[..|ns| - 1]) + NodeSize(ns[|ns| - 1]) + 1
  }
}
