/** The per-node part of the run-config schema (run_config.py:186-515): the
    `inputs`, `outputs` and `config` entries of each node, and the node
    dictionary built recursively over nested graphs. */
module NodeSchema {
  import opened Wrappers
  import opened OrderedDict
  import opened ConfigTypes
  import opened Definitions
  import opened Sections

  /** The alias table of every node Shape and of the root: the current
      vocabulary's key is an alias of the other's. */
  function NodeAliases(opApis: bool): (a: map<string, string>)
    ensures opApis ==> a == map["ops" := "solids"]
    ensures !opApis ==> a == map["solids" := "ops"]
  {
    if opApis then map["ops" := "solids"] else map["solids" := "ops"]
  }

  // ---------------------------------------------------------------------------
  // Inputs

  /** `input_has_upstream`: a dependency edge feeds the input, or the
      enclosing graph maps one of its own inputs onto it. */
  predicate InputHasUpstream(deps: Deps, node: Node, input: string) {
    (node.name, input) in deps || input in node.mappedInputs
  }

  /** `get_input_manager_input_field`: the key must name a resource, and that
      resource must be an input manager; its input config schema, if any, is
      the field. */
  function InputManagerInputField(node: Node, inp: InputDef, resources: Dict<ResourceDef>): (r: Result<Option<Field>, DefinitionError>)
    requires inp.rootManagerKey.Some?
    ensures var key := inp.rootManagerKey.value;
      && (key !in Keys(resources) ==> r == Err(MissingInputManager(node.name, inp.name, key)))
      && (key in Keys(resources) && !Get(resources, key).value.isInputManager ==> r == Err(NotAnInputManager(node.name, inp.name, key)))
      && (r.Ok? <==> key in Keys(resources) && Get(resources, key).value.isInputManager)
      && (r.Ok? ==> r.value == Get(resources, key).value.inputConfigSchema)
  {
    var key := inp.rootManagerKey.value;
    match Get(resources, key)
    case None => Err(MissingInputManager(node.name, inp.name, key))
    case Some(manager) =>
      if !manager.isInputManager then Err(NotAnInputManager(node.name, inp.name, key))
      else Ok(manager.inputConfigSchema)
  }

  /** `get_type_loader_input_field`: the loader's schema, required unless the
      input has a default or a root manager key. */
  function TypeLoaderInputField(node: Node, inp: InputDef): (f: Field)
    requires inp.loader.Some?
    ensures f.ty == inp.loader.value && f.defaultValue.None? && !f.ignored
    ensures f.isRequired == Some(!inp.hasDefault && !Truthy(inp.rootManagerKey))
  {
    Field(inp.loader.value, Some(!inp.hasDefault && !Truthy(inp.rootManagerKey)), None, false)
  }

  /** The input makes schema building raise: it has no upstream provider and
      its root manager key names no resource, or a resource that is not an
      input manager. */
  predicate InputManagerError(node: Node, inp: InputDef, deps: Deps, resources: Dict<ResourceDef>) {
    && !InputHasUpstream(deps, node, inp.name)
    && Truthy(inp.rootManagerKey)
    && (inp.rootManagerKey.value !in Keys(resources) || !Get(resources, inp.rootManagerKey.value).value.isInputManager)
  }

  /** What one input contributes to the `inputs` Shape: nothing when it has an
      upstream provider; otherwise the root input manager is consulted first
      and the type loader only when there is no root manager key, in which
      case the loader field is required exactly when the input has no default. */
  function InputEntry(node: Node, inp: InputDef, deps: Deps, resources: Dict<ResourceDef>): (r: Result<Option<Field>, DefinitionError>)
    ensures r.Err? <==> InputManagerError(node, inp, deps, resources)
    ensures InputHasUpstream(deps, node, inp.name) ==> r == Ok(None)
    ensures !InputHasUpstream(deps, node, inp.name) && Truthy(inp.rootManagerKey) ==>
              r == InputManagerInputField(node, inp, resources)
    ensures !InputHasUpstream(deps, node, inp.name) && !Truthy(inp.rootManagerKey) ==>
              r == Ok(if inp.loader.Some? then Some(Field(inp.loader.value, Some(!inp.hasDefault), None, false)) else None)
  {
    var hasUpstream := InputHasUpstream(deps, node, inp.name);
    if Truthy(inp.rootManagerKey) && !hasUpstream then InputManagerInputField(node, inp, resources)
    else if inp.loader.Some? && !hasUpstream then Ok(Some(TypeLoaderInputField(node, inp)))
    else Ok(None)
  }

  /** The input fields after the loop of `get_inputs_field` has visited `inputs`. */
  function InputFields(node: Node, inputs: seq<InputDef>, deps: Deps, resources: Dict<ResourceDef>): Result<Dict<Field>, DefinitionError>
  {
    if inputs == [] then Ok([])
    else
      var fields :- InputFields(node, inputs[..|inputs| - 1], deps, resources);
      var inp := inputs[|inputs| - 1];
      var inputField :- InputEntry(node, inp, deps, resources);
      Ok(if inputField.Some? then Put(fields, inp.name, inputField.value) else fields)
  }

  /** `get_inputs_field`: nothing when no input contributes; otherwise a Shape
      of the contributions, optional and marked ignored for an ignored node. */
  function InputsField(node: Node, deps: Deps, resources: Dict<ResourceDef>, ignored: bool): Result<Option<Field>, DefinitionError>
  {
    var fields :- InputFields(node, node.def.inputs, deps, resources);
    if fields == [] then Ok(None)
    else if ignored then Ok(Some(Field(Shape(fields, map[]), Some(false), None, true)))
    else Ok(Some(FieldOf(Shape(fields, map[]))))
  }

  predicate UniqueInputNames(inputs: seq<InputDef>) {
    forall i, j :: 0 <= i < j < |inputs| ==> inputs[i].name != inputs[j].name
  }

  /** The loop raises exactly when some input's entry raises, and then with
      the error of the first such input. */
  lemma {:induction false} InputFieldsErr(node: Node, inputs: seq<InputDef>, deps: Deps, resources: Dict<ResourceDef>)
    ensures var r := InputFields(node, inputs, deps, resources);
      && (r.Err? <==> exists i :: 0 <= i < |inputs| && InputEntry(node, inputs[i], deps, resources).Err?)
      && (r.Err? ==> exists i :: 0 <= i < |inputs| && InputEntry(node, inputs[i], deps, resources) == Err(r.error)
                                 && forall j :: 0 <= j < i ==> InputEntry(node, inputs[j], deps, resources).Ok?)
  {
    if inputs != [] {
      var p := inputs[..|inputs| - 1];
      assert forall i :: 0 <= i < |p| ==> p[i] == inputs[i];
      InputFieldsErr(node, p, deps, resources);
    }
  }

  /** When the loop succeeds, each input's entry is stored under its name and
      nothing else is. */
  lemma {:induction false} InputFieldsOk(node: Node, inputs: seq<InputDef>, deps: Deps, resources: Dict<ResourceDef>)
    requires UniqueInputNames(inputs)
    requires InputFields(node, inputs, deps, resources).Ok?
    ensures var fields := InputFields(node, inputs, deps, resources).value;
      && (forall i :: 0 <= i < |inputs| ==>
            InputEntry(node, inputs[i], deps, resources).Ok? &&
            Get(fields, inputs[i].name) == InputEntry(node, inputs[i], deps, resources).value)
      && (forall k :: k in Keys(fields) ==> exists i :: 0 <= i < |inputs| && inputs[i].name == k)
  {
    if inputs != [] {
      var p := inputs[..|inputs| - 1];
      var x := inputs[|inputs| - 1];
      assert forall i :: 0 <= i < |p| ==> p[i] == inputs[i];
      InputFieldsOk(node, p, deps, resources);
      assert x.name !in Keys(InputFields(node, p, deps, resources).value);
    }
  }

  /** The inputs field as a whole: it raises exactly when some input without
      an upstream provider names a root manager key that is missing or not an
      input manager; it is absent exactly when no input contributes; present,
      it is a Shape with each input's entry under its name, optional and
      marked ignored for an ignored node and left to inference otherwise. */
  lemma InputsFieldSpec(node: Node, deps: Deps, resources: Dict<ResourceDef>, ignored: bool)
    requires UniqueInputNames(node.def.inputs)
    ensures var inputs := node.def.inputs;
      var r := InputsField(node, deps, resources, ignored);
      && (r.Err? <==> exists i :: 0 <= i < |inputs| && InputManagerError(node, inputs[i], deps, resources))
      && (r == Ok(None) <==> forall i :: 0 <= i < |inputs| ==> InputEntry(node, inputs[i], deps, resources) == Ok(None))
      && (r.Ok? && r.value.Some? ==>
            var f := r.value.value;
            && f.ty.Shape? && f.ty.aliases == map[] && f.defaultValue.None?
            && f.isRequired == (if ignored then Some(false) else None) && f.ignored == ignored
            && (forall i :: 0 <= i < |inputs| ==>
                  Get(f.ty.fields, inputs[i].name) == InputEntry(node, inputs[i], deps, resources).value)
            && (forall k :: k in Keys(f.ty.fields) ==> exists i :: 0 <= i < |inputs| && inputs[i].name == k))
  {
    var inputs := node.def.inputs;
    InputFieldsErr(node, inputs, deps, resources);
    var fr := InputFields(node, inputs, deps, resources);
    if fr.Ok? {
      InputFieldsOk(node, inputs, deps, resources);
      var fields := fr.value;
      if fields != [] {
        assert fields[0].0 in Keys(fields);
        var i :| 0 <= i < |inputs| && inputs[i].name == fields[0].0;
        assert Get(fields, inputs[i].name).Some?;
      } else {
        forall i | 0 <= i < |inputs| ensures InputEntry(node, inputs[i], deps, resources) == Ok(None) {
          assert Get(fields, inputs[i].name).None?;
        }
      }
    }
  }

  /** Once the loop has raised on a prefix, it raises the same error on the whole. */
  lemma {:induction false} InputFieldsErrPrefix(node: Node, inputs: seq<InputDef>, n: nat, deps: Deps, resources: Dict<ResourceDef>)
    requires n <= |inputs|
    requires InputFields(node, inputs[..n], deps, resources).Err?
    ensures InputFields(node, inputs, deps, resources) == InputFields(node, inputs[..n], deps, resources)
  {
    if n < |inputs| {
      var p := inputs[..|inputs| - 1];
      assert p[..n] == inputs[..n];
      InputFieldsErrPrefix(node, p, n, deps, resources);
    } else {
      assert inputs[..n] == inputs;
    }
  }

  method GetInputsField(node: Node, deps: Deps, resources: Dict<ResourceDef>, ignored: bool)
    returns (r: Result<Option<Field>, DefinitionError>)
    ensures r == InputsField(node, deps, resources, ignored)
  {
    var inputs := node.def.inputs;
    var fields: Dict<Field> := [];
    for i := 0 to |inputs|
      invariant InputFields(node, inputs[..i], deps, resources) == Ok(fields)
    {
      assert inputs[..i + 1][..i] == inputs[..i];
      var inp := inputs[i];
      var hasUpstream := InputHasUpstream(deps, node, inp.name);
      var inputField: Option<Field>;
      if Truthy(inp.rootManagerKey) && !hasUpstream {
        var managed := InputManagerInputField(node, inp, resources);
        if managed.Err? {
          InputFieldsErrPrefix(node, inputs, i + 1, deps, resources);
          return Err(managed.error);
        }
        inputField := managed.value;
      } else if inp.loader.Some? && !hasUpstream {
        inputField := Some(TypeLoaderInputField(node, inp));
      } else {
        inputField := None;
      }
      if inputField.Some? {
        fields := Put(fields, inp.name, inputField.value);
      }
    }
    assert inputs[..|inputs|] == inputs;
    if fields == [] {
      return Ok(None);
    }
    if ignored {
      return Ok(Some(Field(Shape(fields, map[]), Some(false), None, true)));
    }
    return Ok(Some(FieldOf(Shape(fields, map[]))));
  }

  // ---------------------------------------------------------------------------
  // Outputs

  /** The output makes schema building raise: its io-manager key names no
      resource, or a resource that is not an output manager. */
  predicate OutputManagerError(out: OutputDef, resources: Dict<ResourceDef>) {
    out.ioManagerKey !in Keys(resources) || !Get(resources, out.ioManagerKey).value.isOutputManager
  }

  /** `get_output_manager_output_field`: the output manager's output config
      schema, after the same two checks as for inputs. */
  function OutputManagerOutputField(node: Node, out: OutputDef, resources: Dict<ResourceDef>): (r: Result<Option<Field>, DefinitionError>)
    ensures out.ioManagerKey !in Keys(resources) ==> r == Err(MissingIoManager(node.name, out.name, out.ioManagerKey))
    ensures out.ioManagerKey in Keys(resources) && !Get(resources, out.ioManagerKey).value.isOutputManager ==>
              r == Err(NotAnOutputManager(node.name, out.name, out.ioManagerKey))
    ensures r.Err? <==> OutputManagerError(out, resources)
    ensures r.Ok? ==> r.value == Get(resources, out.ioManagerKey).value.outputConfigSchema
  {
    match Get(resources, out.ioManagerKey)
    case None => Err(MissingIoManager(node.name, out.name, out.ioManagerKey))
    case Some(manager) =>
      if !manager.isOutputManager then Err(NotAnOutputManager(node.name, out.name, out.ioManagerKey))
      else Ok(manager.outputConfigSchema)
  }

  /** `get_type_output_field`: an optional field for the materializer's schema. */
  function TypeOutputField(out: OutputDef): (r: Option<Field>)
    ensures r.Some? <==> out.materializer.Some?
    ensures r.Some? ==> r.value == Field(out.materializer.value, Some(false), None, false)
  {
    if out.materializer.Some? then Some(Field(out.materializer.value, Some(false), None, false)) else None
  }

  /** The io-manager fields after the first loop of `get_outputs_field` has visited `outputs`. */
  function OutputManagerFields(node: Node, outputs: seq<OutputDef>, resources: Dict<ResourceDef>): Result<Dict<Field>, DefinitionError>
  {
    if outputs == [] then Ok([])
    else
      var fields :- OutputManagerFields(node, outputs[..|outputs| - 1], resources);
      var out := outputs[|outputs| - 1];
      var managed :- OutputManagerOutputField(node, out, resources);
      Ok(if managed.Some? then Put(fields, out.name, managed.value) else fields)
  }

  /** The materializer fields after the second loop has visited `outputs`. */
  function MaterializerFields(outputs: seq<OutputDef>): Dict<Field>
  {
    if outputs == [] then []
    else
      var fields := MaterializerFields(outputs[..|outputs| - 1]);
      var out := outputs[|outputs| - 1];
      var materialized := TypeOutputField(out);
      if materialized.Some? then Put(fields, out.name, materialized.value) else fields
  }

  /** `get_outputs_field`: io-manager output config wins over materializers;
      materializer config is an optional array of Shapes. */
  function OutputsField(node: Node, resources: Dict<ResourceDef>): Result<Option<Field>, DefinitionError>
  {
    var managed :- OutputManagerFields(node, node.def.outputs, resources);
    if managed != [] then Ok(Some(FieldOf(Shape(managed, map[]))))
    else
      var materialized := MaterializerFields(node.def.outputs);
      if materialized != [] then Ok(Some(Field(Array(Shape(materialized, map[])), Some(false), None, false)))
      else Ok(None)
  }

  predicate UniqueOutputNames(outputs: seq<OutputDef>) {
    forall i, j :: 0 <= i < j < |outputs| ==> outputs[i].name != outputs[j].name
  }

  /** The first loop raises exactly when some output's io-manager key is bad,
      and then with the error of the first such output. */
  lemma {:induction false} OutputManagerFieldsErr(node: Node, outputs: seq<OutputDef>, resources: Dict<ResourceDef>)
    ensures var r := OutputManagerFields(node, outputs, resources);
      && (r.Err? <==> exists i :: 0 <= i < |outputs| && OutputManagerError(outputs[i], resources))
      && (r.Err? ==> exists i :: 0 <= i < |outputs| && OutputManagerOutputField(node, outputs[i], resources) == Err(r.error)
                                 && forall j :: 0 <= j < i ==> !OutputManagerError(outputs[j], resources))
  {
    if outputs != [] {
      var p := outputs[..|outputs| - 1];
      assert forall i :: 0 <= i < |p| ==> p[i] == outputs[i];
      OutputManagerFieldsErr(node, p, resources);
    }
  }

  /** When the first loop succeeds, each output's manager schema is stored
      under its name and nothing else is. */
  lemma {:induction false} OutputManagerFieldsOk(node: Node, outputs: seq<OutputDef>, resources: Dict<ResourceDef>)
    requires UniqueOutputNames(outputs)
    requires OutputManagerFields(node, outputs, resources).Ok?
    ensures var fields := OutputManagerFields(node, outputs, resources).value;
      && (forall i :: 0 <= i < |outputs| ==>
            OutputManagerOutputField(node, outputs[i], resources).Ok? &&
            Get(fields, outputs[i].name) == OutputManagerOutputField(node, outputs[i], resources).value)
      && (forall k :: k in Keys(fields) ==> exists i :: 0 <= i < |outputs| && outputs[i].name == k)
  {
    OutputManagerFieldsKeys(node, outputs, resources);
    forall i | 0 <= i < |outputs|
      ensures OutputManagerOutputField(node, outputs[i], resources).Ok?
      ensures Get(OutputManagerFields(node, outputs, resources).value, outputs[i].name)
              == OutputManagerOutputField(node, outputs[i], resources).value
    {
      OutputManagerFieldsGet(node, outputs, i, resources);
    }
  }

  /** Every key the first loop stores is the name of a visited output. */
  lemma {:induction false} OutputManagerFieldsKeys(node: Node, outputs: seq<OutputDef>, resources: Dict<ResourceDef>)
    requires OutputManagerFields(node, outputs, resources).Ok?
    ensures forall k :: k in Keys(OutputManagerFields(node, outputs, resources).value) ==>
              exists i :: 0 <= i < |outputs| && outputs[i].name == k
  {
    if outputs != [] {
      var last := |outputs| - 1;
      var p := outputs[..last];
      OutputManagerFieldsUnfold(node, outputs, resources);
      OutputManagerFieldsKeys(node, p, resources);
      var prev := OutputManagerFields(node, p, resources).value;
      var fields := OutputManagerFields(node, outputs, resources).value;
      forall k | k in Keys(fields) ensures exists i :: 0 <= i < |outputs| && outputs[i].name == k {
        if k != outputs[last].name {
          assert k in Keys(prev);
          var i :| 0 <= i < |p| && p[i].name == k;
          assert outputs[i].name == k;
        }
      }
    }
  }

  /** After the first loop, the `i`-th output's manager schema is found under its name. */
  lemma {:induction false} OutputManagerFieldsGet(node: Node, outputs: seq<OutputDef>, i: nat, resources: Dict<ResourceDef>)
    requires UniqueOutputNames(outputs) && i < |outputs|
    requires OutputManagerFields(node, outputs, resources).Ok?
    ensures OutputManagerOutputField(node, outputs[i], resources).Ok?
    ensures Get(OutputManagerFields(node, outputs, resources).value, outputs[i].name)
            == OutputManagerOutputField(node, outputs[i], resources).value
  {
    var last := |outputs| - 1;
    var p := outputs[..last];
    var x := outputs[last];
    OutputManagerFieldsUnfold(node, outputs, resources);
    var prev := OutputManagerFields(node, p, resources).value;
    var fields := OutputManagerFields(node, outputs, resources).value;
    if i < last {
      assert UniqueOutputNames(p) by {
        forall a, b | 0 <= a < b < |p| ensures p[a].name != p[b].name {
          assert p[a] == outputs[a] && p[b] == outputs[b];
        }
      }
      OutputManagerFieldsGet(node, p, i, resources);
      assert p[i] == outputs[i];
      assert outputs[i].name != x.name;
      assert Get(fields, outputs[i].name) == Get(prev, outputs[i].name);
    } else {
      OutputManagerFieldsKeys(node, p, resources);
      forall k | k in Keys(prev) ensures k != x.name {
        var j :| 0 <= j < |p| && p[j].name == k;
        assert p[j] == outputs[j];
      }
      assert Get(prev, x.name).None?;
    }
  }

  /** One step of the first loop of `get_outputs_field`. */
  lemma OutputManagerFieldsUnfold(node: Node, outputs: seq<OutputDef>, resources: Dict<ResourceDef>)
    requires outputs != []
    ensures var prev := OutputManagerFields(node, outputs[..|outputs| - 1], resources);
      var x := outputs[|outputs| - 1];
      var m := OutputManagerOutputField(node, x, resources);
      var r := OutputManagerFields(node, outputs, resources);
      && (r.Ok? <==> prev.Ok? && m.Ok?)
      && (r.Ok? ==> r.value == if m.value.Some? then Put(prev.value, x.name, m.value.value) else prev.value)
  {
  }

  lemma {:induction false} MaterializerFieldsSpec(outputs: seq<OutputDef>)
    requires UniqueOutputNames(outputs)
    ensures forall i :: 0 <= i < |outputs| ==> Get(MaterializerFields(outputs), outputs[i].name) == TypeOutputField(outputs[i])
    ensures forall k :: k in Keys(MaterializerFields(outputs)) ==> exists i :: 0 <= i < |outputs| && outputs[i].name == k
  {
    if outputs != [] {
      var p := outputs[..|outputs| - 1];
      var x := outputs[|outputs| - 1];
      assert forall i :: 0 <= i < |p| ==> p[i] == outputs[i];
      MaterializerFieldsSpec(p);
      assert x.name !in Keys(MaterializerFields(p));
    }
  }

  /** Some output's io manager has an output config schema. */
  predicate HasManagedOutputConfig(node: Node, resources: Dict<ResourceDef>) {
    exists i :: 0 <= i < |node.def.outputs| &&
      var r := OutputManagerOutputField(node, node.def.outputs[i], resources);
      r.Ok? && r.value.Some?
  }

  predicate HasMaterializer(outputs: seq<OutputDef>) {
    exists i :: 0 <= i < |outputs| && outputs[i].materializer.Some?
  }

  /** The outputs field raises exactly when some output's io-manager key is
      missing or not an output manager. Otherwise, when any output's manager
      has an output config schema, it is a Shape of exactly those outputs'
      schemas and materializers are ignored; failing that, when any output
      type has a materializer, it is an optional array of a Shape of the
      materializer schemas; otherwise there is no outputs field. */
  lemma OutputsFieldSpec(node: Node, resources: Dict<ResourceDef>)
    requires UniqueOutputNames(node.def.outputs)
    ensures var outputs := node.def.outputs;
      var r := OutputsField(node, resources);
      && (r.Err? <==> exists i :: 0 <= i < |outputs| && OutputManagerError(outputs[i], resources))
      && (r.Ok? && HasManagedOutputConfig(node, resources) ==>
            r.value.Some? && r.value.value == FieldOf(r.value.value.ty) && r.value.value.ty.Shape? &&
            (forall i :: 0 <= i < |outputs| ==>
               Get(r.value.value.ty.fields, outputs[i].name) == OutputManagerOutputField(node, outputs[i], resources).value) &&
            (forall k :: k in Keys(r.value.value.ty.fields) ==> exists i :: 0 <= i < |outputs| && outputs[i].name == k))
      && (r.Ok? && !HasManagedOutputConfig(node, resources) && HasMaterializer(outputs) ==>
            r.value.Some? && r.value.value.isRequired == Some(false) &&
            r.value.value.ty.Array? && r.value.value.ty.elem.Shape? &&
            (forall i :: 0 <= i < |outputs| ==>
               Get(r.value.value.ty.elem.fields, outputs[i].name) == TypeOutputField(outputs[i])) &&
            (forall k :: k in Keys(r.value.value.ty.elem.fields) ==> exists i :: 0 <= i < |outputs| && outputs[i].name == k))
      && (r.Ok? && !HasManagedOutputConfig(node, resources) && !HasMaterializer(outputs) ==> r.value.None?)
  {
    var outputs := node.def.outputs;
    OutputManagerFieldsErr(node, outputs, resources);
    MaterializerFieldsSpec(outputs);
    var mr := OutputManagerFields(node, outputs, resources);
    if mr.Ok? {
      OutputManagerFieldsOk(node, outputs, resources);
      var managed := mr.value;
      if HasManagedOutputConfig(node, resources) {
        var i :| 0 <= i < |outputs| && OutputManagerOutputField(node, outputs[i], resources) == Ok(OutputManagerOutputField(node, outputs[i], resources).value) &&
                 OutputManagerOutputField(node, outputs[i], resources).value.Some?;
        assert Get(managed, outputs[i].name).Some?;
      } else {
        forall i | 0 <= i < |outputs| ensures Get(managed, outputs[i].name).None? { }
        assert forall k :: k in Keys(managed) ==> Get(managed, k).None?;
        FirstKey(managed);
        var materialized := MaterializerFields(outputs);
        if HasMaterializer(outputs) {
          var i :| 0 <= i < |outputs| && outputs[i].materializer.Some?;
          assert Get(materialized, outputs[i].name).Some?;
        } else {
          forall i | 0 <= i < |outputs| ensures Get(materialized, outputs[i].name).None? { }
          assert forall k :: k in Keys(materialized) ==> Get(materialized, k).None?;
          FirstKey(materialized);
        }
      }
    }
  }

  lemma {:induction false} OutputManagerFieldsErrPrefix(node: Node, outputs: seq<OutputDef>, n: nat, resources: Dict<ResourceDef>)
    requires n <= |outputs|
    requires OutputManagerFields(node, outputs[..n], resources).Err?
    ensures OutputManagerFields(node, outputs, resources) == OutputManagerFields(node, outputs[..n], resources)
  {
    if n < |outputs| {
      var p := outputs[..|outputs| - 1];
      assert p[..n] == outputs[..n];
      OutputManagerFieldsErrPrefix(node, p, n, resources);
    } else {
      assert outputs[..n] == outputs;
    }
  }

  method GetOutputsField(node: Node, resources: Dict<ResourceDef>) returns (r: Result<Option<Field>, DefinitionError>)
    ensures r == OutputsField(node, resources)
  {
    var outputs := node.def.outputs;
    var outputManagerFields: Dict<Field> := [];
    for i := 0 to |outputs|
      invariant OutputManagerFields(node, outputs[..i], resources) == Ok(outputManagerFields)
    {
      assert outputs[..i + 1][..i] == outputs[..i];
      var managed := OutputManagerOutputField(node, outputs[i], resources);
      if managed.Err? {
        OutputManagerFieldsErrPrefix(node, outputs, i + 1, resources);
        return Err(managed.error);
      }
      if managed.value.Some? {
        outputManagerFields := Put(outputManagerFields, outputs[i].name, managed.value.value);
      }
    }
    assert outputs[..|outputs|] == outputs;
    if outputManagerFields != [] {
      return Ok(Some(FieldOf(Shape(outputManagerFields, map[]))));
    }
    var typeMaterializerFields: Dict<Field> := [];
    for i := 0 to |outputs|
      invariant MaterializerFields(outputs[..i]) == typeMaterializerFields
    {
      assert outputs[..i + 1][..i] == outputs[..i];
      var typeOutputField := TypeOutputField(outputs[i]);
      if typeOutputField.Some? {
        typeMaterializerFields := Put(typeMaterializerFields, outputs[i].name, typeOutputField.value);
      }
    }
    assert outputs[..|outputs|] == outputs;
    if typeMaterializerFields != [] {
      return Ok(Some(Field(Array(Shape(typeMaterializerFields, map[])), Some(false), None, false)));
    }
    return Ok(None);
  }

  // ---------------------------------------------------------------------------
  // One node's entry, recursively over nested graphs

  /** `solid_config_field`: the present entries in a Shape carrying the
      ops/solids alias table, optional and marked ignored for an ignored node;
      nothing at all when no entry is present. */
  function SolidConfigField(fields: Dict<Option<Field>>, ignored: bool, opApis: bool): (r: Option<Field>)
    ensures r.None? <==> forall i :: 0 <= i < |fields| ==> fields[i].1.None?
    ensures r.Some? ==>
              && r.value.ty == Shape(RemoveNoneEntries(fields), NodeAliases(opApis)) && r.value.defaultValue.None?
              && r.value.isRequired == (if ignored then Some(false) else None) && r.value.ignored == ignored
  {
    var trimmed := RemoveNoneEntries(fields);
    if trimmed != [] then
      if ignored then Some(Field(Shape(trimmed, NodeAliases(opApis)), Some(false), None, true))
      else Some(FieldOf(Shape(trimmed, NodeAliases(opApis))))
    else None
  }

  /** Each of three distinct keys finds its own entry after `remove_none_entries`. */
  lemma ThreeEntries(ka: string, a: Option<Field>, kb: string, b: Option<Field>, kc: string, c: Option<Field>)
    requires ka != kb && kb != kc && ka != kc
    ensures var trimmed := RemoveNoneEntries([(ka, a), (kb, b), (kc, c)]);
      && Get(trimmed, ka) == a && Get(trimmed, kb) == b && Get(trimmed, kc) == c
  {
    var d := [(ka, a), (kb, b), (kc, c)];
    assert UniqueKeys(d);
    GetUnique(d, 0);
    GetUnique(d, 1);
    GetUnique(d, 2);
    RemoveNoneEntriesGet(d, ka);
    RemoveNoneEntriesGet(d, kb);
    RemoveNoneEntriesGet(d, kc);
  }

  /** `construct_leaf_node_config`: the `inputs`, `outputs` and `config`
      entries of a node; the node contributes nothing when all three are
      absent. Input errors are raised before output errors. */
  function ConstructLeafNodeConfig(node: Node, deps: Deps, configSchema: Option<Field>, resources: Dict<ResourceDef>,
                                   ignored: bool, opApis: bool): (r: Result<Option<Field>, DefinitionError>)
    ensures InputsField(node, deps, resources, ignored).Err? ==> r == Err(InputsField(node, deps, resources, ignored).error)
    ensures r.Err? <==> InputsField(node, deps, resources, ignored).Err? || OutputsField(node, resources).Err?
    ensures r.Ok? ==> (r.value.None? <==>
              InputsField(node, deps, resources, ignored) == Ok(None) && OutputsField(node, resources) == Ok(None) && configSchema.None?)
    ensures r.Ok? && r.value.Some? ==>
              var f := r.value.value;
              && f.ty.Shape? && f.ty.aliases == NodeAliases(opApis)
              && f.isRequired == (if ignored then Some(false) else None) && f.ignored == ignored
              && Get(f.ty.fields, "inputs") == InputsField(node, deps, resources, ignored).value
              && Get(f.ty.fields, "outputs") == OutputsField(node, resources).value
              && Get(f.ty.fields, "config") == configSchema
  {
    var inputs :- InputsField(node, deps, resources, ignored);
    var outputs :- OutputsField(node, resources);
    var entries := [("inputs", inputs), ("outputs", outputs), ("config", configSchema)];
    ThreeEntries("inputs", inputs, "outputs", outputs, "config", configSchema);
    Ok(SolidConfigField(entries, ignored, opApis))
  }

  /** A graph node that is neither composite nor config-mapped. */
  predicate IsPlainGraph(d: NodeDef) {
    d.Graph? && !d.hasConfigMapping && !d.isComposite
  }

  /** `define_inode_field`, over the four kinds of node definition. Every
      entry is a Shape carrying the ops/solids alias table; an ignored node's
      entry is optional and marked ignored, except for a plain graph, whose
      builder drops the flag; an unmapped graph always has an entry. */
  function DefineInodeField(node: Node, deps: Deps, resources: Dict<ResourceDef>, ignored: bool, opApis: bool)
    : (r: Result<Option<Field>, DefinitionError>)
    ensures r.Ok? && r.value.Some? ==> r.value.value.ty.Shape? && r.value.value.ty.aliases == NodeAliases(opApis)
    ensures r.Ok? && r.value.Some? && ignored && !IsPlainGraph(node.def) ==>
              r.value.value.isRequired == Some(false) && r.value.value.ignored
    ensures node.def.Graph? && !node.def.hasConfigMapping && r.Ok? ==> r.value.Some?
    ensures node.def.Graph? && node.def.hasConfigMapping ==>
              && (r.Err? <==> InputsField(node, node.def.deps, resources, ignored).Err? || OutputsField(node, resources).Err?)
              && (r.Ok? && r.value.Some? ==>
                    && Get(r.value.value.ty.fields, "inputs") == InputsField(node, node.def.deps, resources, ignored).value
                    && Get(r.value.value.ty.fields, "config") == node.def.configSchema)
    decreases NodeSize(node), 2
  {
    match node.def
    case Leaf(_, _, configSchema) =>
      ConstructLeafNodeConfig(node, deps, configSchema, resources, ignored, opApis)
    case Graph(_, _, _, innerDeps, hasConfigMapping, configSchema, isComposite) =>
      if hasConfigMapping then
        ConstructLeafNodeConfig(node, innerDeps, configSchema, resources, ignored, opApis)
      else if isComposite then
        CompositeSolidConfigField(node, deps, resources, ignored, opApis)
      else
        GraphConfigField(node, deps, resources, opApis)
  }

  /** `composite_solid_config_field`: the node's own inputs (against the
      enclosing dependency structure) and outputs, and a `solids` entry holding
      the dictionary of the inner nodes, built against the inner dependency
      structure. The `solids` entry is always present, so there always is a field. */
  function CompositeSolidConfigField(node: Node, topLevelDeps: Deps, resources: Dict<ResourceDef>, ignored: bool, opApis: bool)
    : (r: Result<Option<Field>, DefinitionError>)
    requires node.def.Graph?
    ensures var inputs := InputsField(node, topLevelDeps, resources, ignored);
      var outputs := OutputsField(node, resources);
      var inner := NodeDictionary(node.def.nodes, [], node.def.deps, resources, opApis);
      && (r.Err? <==> inputs.Err? || outputs.Err? || inner.Err?)
      && (inputs.Err? ==> r == Err(inputs.error))
      && (inputs.Ok? && outputs.Err? ==> r == Err(outputs.error))
      && (r.Ok? ==>
            && r.value.Some? && r.value.value.ty.Shape? && r.value.value.ty.aliases == NodeAliases(opApis)
            && r.value.value.isRequired == (if ignored then Some(false) else None) && r.value.value.ignored == ignored
            && Get(r.value.value.ty.fields, "inputs") == inputs.value
            && Get(r.value.value.ty.fields, "outputs") == outputs.value
            && Get(r.value.value.ty.fields, "solids") == Some(FieldOf(inner.value)))
    decreases NodeSize(node), 1
  {
    var inputs :- InputsField(node, topLevelDeps, resources, ignored);
    var outputs :- OutputsField(node, resources);
    var inner :- NodeDictionary(node.def.nodes, [], node.def.deps, resources, opApis);
    var entries := [("inputs", inputs), ("outputs", outputs), ("solids", Some(FieldOf(inner)))];
    ThreeEntries("inputs", inputs, "outputs", outputs, "solids", Some(FieldOf(inner)));
    Ok(SolidConfigField(entries, ignored, opApis))
  }

  /** `graph_config_field`: just the dictionary of the inner nodes, built
      against the enclosing dependency structure; there are no inputs or
      outputs entries and the ignored flag is not consulted. */
  function GraphConfigField(node: Node, topLevelDeps: Deps, resources: Dict<ResourceDef>, opApis: bool)
    : (r: Result<Option<Field>, DefinitionError>)
    requires node.def.Graph?
    ensures var inner := NodeDictionary(node.def.nodes, [], topLevelDeps, resources, opApis);
      && (r.Err? <==> inner.Err?)
      && (r.Err? ==> r.error == inner.error)
      && (r.Ok? ==>
            && r.value == Some(FieldOf(inner.value))
            && r.value.value.ty.Shape? && r.value.value.ty.aliases == NodeAliases(opApis))
    decreases NodeSize(node), 1
  {
    var inner :- NodeDictionary(node.def.nodes, [], topLevelDeps, resources, opApis);
    Ok(Some(FieldOf(inner)))
  }

  /** The node fields after the loop of `define_node_dictionary_cls` has
      visited `nodes`, starting from `acc`. */
  function NodeFieldsFrom(acc: Dict<Field>, nodes: seq<Node>, ignored: bool, deps: Deps, resources: Dict<ResourceDef>, opApis: bool)
    : Result<Dict<Field>, DefinitionError>
    decreases NodesSize(nodes), 0
  {
    if nodes == [] then Ok(acc)
    else
      var fields :- NodeFieldsFrom(acc, nodes[..|nodes| - 1], ignored, deps, resources, opApis);
      var node := nodes[|nodes| - 1];
      var nodeField :- DefineInodeField(node, deps, resources, ignored, opApis);
      Ok(if nodeField.Some? then Put(fields, node.name, nodeField.value) else fields)
  }

  /** `define_node_dictionary_cls`: the selected nodes, then the ignored nodes,
      in a Shape carrying the ops/solids alias table; no nodes give the empty
      dictionary. */
  function NodeDictionary(nodes: seq<Node>, ignoredNodes: seq<Node>, deps: Deps, resources: Dict<ResourceDef>, opApis: bool)
    : (r: Result<ConfigType, DefinitionError>)
    ensures r.Ok? ==> r.value.Shape? && r.value.aliases == NodeAliases(opApis)
    ensures nodes == [] && ignoredNodes == [] ==> r == Ok(Shape([], NodeAliases(opApis)))
    decreases NodesSize(nodes) + NodesSize(ignoredNodes), 1
  {
    var fields :- NodeFieldsFrom([], nodes, false, deps, resources, opApis);
    var withIgnored :- NodeFieldsFrom(fields, ignoredNodes, true, deps, resources, opApis);
    Ok(Shape(withIgnored, NodeAliases(opApis)))
  }

  predicate UniqueNodeNames(nodes: seq<Node>) {
    forall i, j :: 0 <= i < j < |nodes| ==> nodes[i].name != nodes[j].name
  }

  /** The loop over `nodes` raises exactly when some node's entry raises, and
      then with the error of the first such node. */
  lemma NodeFieldsErr(acc: Dict<Field>, nodes: seq<Node>, ignored: bool, deps: Deps,
                      resources: Dict<ResourceDef>, opApis: bool)
    ensures var r := NodeFieldsFrom(acc, nodes, ignored, deps, resources, opApis);
      && (r.Err? <==> exists i :: 0 <= i < |nodes| && DefineInodeField(nodes[i], deps, resources, ignored, opApis).Err?)
      && (r.Err? ==> exists i :: 0 <= i < |nodes| && DefineInodeField(nodes[i], deps, resources, ignored, opApis) == Err(r.error)
                                 && forall j :: 0 <= j < i ==> DefineInodeField(nodes[j], deps, resources, ignored, opApis).Ok?)
  {
    NodeFieldsErrIff(acc, nodes, ignored, deps, resources, opApis);
    if NodeFieldsFrom(acc, nodes, ignored, deps, resources, opApis).Err? {
      NodeFieldsFirstErr(acc, nodes, ignored, deps, resources, opApis);
    }
  }

  lemma {:induction false} NodeFieldsErrIff(acc: Dict<Field>, nodes: seq<Node>, ignored: bool, deps: Deps,
                                            resources: Dict<ResourceDef>, opApis: bool)
    ensures NodeFieldsFrom(acc, nodes, ignored, deps, resources, opApis).Err?
            <==> exists i :: 0 <= i < |nodes| && DefineInodeField(nodes[i], deps, resources, ignored, opApis).Err?
  {
    if nodes != [] {
      var last := |nodes| - 1;
      var p := nodes[..last];
      NodeFieldsErrIff(acc, p, ignored, deps, resources, opApis);
      NodeFieldsUnfold(acc, nodes, ignored, deps, resources, opApis);
      var prev := NodeFieldsFrom(acc, p, ignored, deps, resources, opApis);
      var e := DefineInodeField(nodes[last], deps, resources, ignored, opApis);
      if prev.Err? {
        var i :| 0 <= i < |p| && DefineInodeField(p[i], deps, resources, ignored, opApis).Err?;
        assert p[i] == nodes[i];
      } else if e.Ok? {
        forall j | 0 <= j < |nodes| ensures DefineInodeField(nodes[j], deps, resources, ignored, opApis).Ok? {
          if j < last {
            assert p[j] == nodes[j];
            assert DefineInodeField(p[j], deps, resources, ignored, opApis).Ok?;
          } else {
            assert j == last;
          }
        }
      }
    }
  }

  lemma {:induction false} NodeFieldsFirstErr(acc: Dict<Field>, nodes: seq<Node>, ignored: bool, deps: Deps,
                                              resources: Dict<ResourceDef>, opApis: bool)
    requires NodeFieldsFrom(acc, nodes, ignored, deps, resources, opApis).Err?
    ensures var err := NodeFieldsFrom(acc, nodes, ignored, deps, resources, opApis).error;
      exists i :: 0 <= i < |nodes| && DefineInodeField(nodes[i], deps, resources, ignored, opApis) == Err(err)
                  && forall j :: 0 <= j < i ==> DefineInodeField(nodes[j], deps, resources, ignored, opApis).Ok?
  {
    assert nodes != [];
    var p := nodes[..|nodes| - 1];
    NodeFieldsUnfold(acc, nodes, ignored, deps, resources, opApis);
    var prev := NodeFieldsFrom(acc, p, ignored, deps, resources, opApis);
    if prev.Err? {
      NodeFieldsFirstErr(acc, p, ignored, deps, resources, opApis);
      var i :| 0 <= i < |p| && DefineInodeField(p[i], deps, resources, ignored, opApis) == Err(prev.error)
               && forall j :: 0 <= j < i ==> DefineInodeField(p[j], deps, resources, ignored, opApis).Ok?;
      EntryErrOfPrefix(nodes, |p|, i, prev.error, ignored, deps, resources, opApis);
    } else {
      NodeFieldsFirstErrLast(acc, nodes, ignored, deps, resources, opApis);
    }
  }

  /** A first failing entry among the first `n` nodes is the first failing entry of all. */
  lemma EntryErrOfPrefix(nodes: seq<Node>, n: nat, i: nat, err: DefinitionError, ignored: bool, deps: Deps,
                         resources: Dict<ResourceDef>, opApis: bool)
    requires i < n <= |nodes|
    requires DefineInodeField(nodes[..n][i], deps, resources, ignored, opApis) == Err(err)
    requires forall j :: 0 <= j < i ==> DefineInodeField(nodes[..n][j], deps, resources, ignored, opApis).Ok?
    ensures DefineInodeField(nodes[i], deps, resources, ignored, opApis) == Err(err)
    ensures forall j :: 0 <= j < i ==> DefineInodeField(nodes[j], deps, resources, ignored, opApis).Ok?
  {
    var p := nodes[..n];
    assert p[i] == nodes[i];
    forall j | 0 <= j < i ensures DefineInodeField(nodes[j], deps, resources, ignored, opApis).Ok? {
      assert p[j] == nodes[j];
      assert DefineInodeField(p[j], deps, resources, ignored, opApis).Ok?;
    }
  }

  /** The case of `NodeFieldsFirstErr` where the earlier nodes all succeed. */
  lemma NodeFieldsFirstErrLast(acc: Dict<Field>, nodes: seq<Node>, ignored: bool, deps: Deps,
                               resources: Dict<ResourceDef>, opApis: bool)
    requires nodes != []
    requires NodeFieldsFrom(acc, nodes[..|nodes| - 1], ignored, deps, resources, opApis).Ok?
    requires NodeFieldsFrom(acc, nodes, ignored, deps, resources, opApis).Err?
    ensures var last := |nodes| - 1;
      && DefineInodeField(nodes[last], deps, resources, ignored, opApis) == Err(NodeFieldsFrom(acc, nodes, ignored, deps, resources, opApis).error)
      && forall j :: 0 <= j < last ==> DefineInodeField(nodes[j], deps, resources, ignored, opApis).Ok?
  {
    var last := |nodes| - 1;
    var p := nodes[..last];
    NodeFieldsUnfold(acc, nodes, ignored, deps, resources, opApis);
    NodeFieldsErrIff(acc, p, ignored, deps, resources, opApis);
    forall j | 0 <= j < last ensures DefineInodeField(nodes[j], deps, resources, ignored, opApis).Ok? {
      assert p[j] == nodes[j];
      assert DefineInodeField(p[j], deps, resources, ignored, opApis).Ok?;
    }
  }

  /** What a name holds after a node of that name was visited: the node's
      entry if it has one, and otherwise what was already there. */
  function Stored(acc: Dict<Field>, entry: Option<Field>, name: string): (r: Option<Field>)
    ensures entry.Some? ==> r == entry
    ensures entry.None? ==> r == Get(acc, name)
  {
    if entry.Some? then entry else Get(acc, name)
  }

  /** One step of the loop: an error of the earlier nodes is returned as is,
      then an error of the last node's entry; otherwise that entry, if any,
      goes on top of what the earlier nodes built. */
  lemma NodeFieldsUnfold(acc: Dict<Field>, nodes: seq<Node>, ignored: bool, deps: Deps,
                         resources: Dict<ResourceDef>, opApis: bool)
    requires nodes != []
    ensures var prev := NodeFieldsFrom(acc, nodes[..|nodes| - 1], ignored, deps, resources, opApis);
      var x := nodes[|nodes| - 1];
      var e := DefineInodeField(x, deps, resources, ignored, opApis);
      var r := NodeFieldsFrom(acc, nodes, ignored, deps, resources, opApis);
      && (prev.Err? ==> r == prev)
      && (prev.Ok? && e.Err? ==> r == Err(e.error))
      && (prev.Ok? && e.Ok? ==> r == Ok(if e.value.Some? then Put(prev.value, x.name, e.value.value) else prev.value))
  {
  }

  /** When the loop over `nodes` succeeds, the `i`-th node's entry is stored
      under its name, or, when it has none, what was already there stays. */
  lemma {:induction false} NodeFieldsGet(acc: Dict<Field>, nodes: seq<Node>, i: nat, ignored: bool, deps: Deps,
                                         resources: Dict<ResourceDef>, opApis: bool)
    requires UniqueNodeNames(nodes) && i < |nodes|
    requires NodeFieldsFrom(acc, nodes, ignored, deps, resources, opApis).Ok?
    ensures DefineInodeField(nodes[i], deps, resources, ignored, opApis).Ok?
    ensures Get(NodeFieldsFrom(acc, nodes, ignored, deps, resources, opApis).value, nodes[i].name) ==
            Stored(acc, DefineInodeField(nodes[i], deps, resources, ignored, opApis).value, nodes[i].name)
  {
    var last := |nodes| - 1;
    var p := nodes[..last];
    if i < last {
      assert p[i] == nodes[i];
      assert UniqueNodeNames(p) by {
        forall a, b | 0 <= a < b < |p| ensures p[a].name != p[b].name {
          assert p[a] == nodes[a] && p[b] == nodes[b];
        }
      }
      var name := nodes[i].name;
      var e := DefineInodeField(nodes[i], deps, resources, ignored, opApis);
      NodeFieldsKeep(acc, nodes, name, ignored, deps, resources, opApis);
      NodeFieldsGet(acc, p, i, ignored, deps, resources, opApis);
      var prev := NodeFieldsFrom(acc, p, ignored, deps, resources, opApis).value;
      assert Get(prev, name) == Stored(acc, e.value, name);
      assert Get(NodeFieldsFrom(acc, nodes, ignored, deps, resources, opApis).value, name) == Get(prev, name);
    } else {
      assert i == last;
      NodeFieldsGetLast(acc, nodes, ignored, deps, resources, opApis);
    }
  }

  /** The last node's step leaves every other name's value alone. */
  lemma NodeFieldsKeep(acc: Dict<Field>, nodes: seq<Node>, name: string, ignored: bool, deps: Deps,
                       resources: Dict<ResourceDef>, opApis: bool)
    requires nodes != [] && name != nodes[|nodes| - 1].name
    requires NodeFieldsFrom(acc, nodes, ignored, deps, resources, opApis).Ok?
    ensures var prev := NodeFieldsFrom(acc, nodes[..|nodes| - 1], ignored, deps, resources, opApis);
      && prev.Ok?
      && Get(NodeFieldsFrom(acc, nodes, ignored, deps, resources, opApis).value, name) == Get(prev.value, name)
  {
    NodeFieldsUnfold(acc, nodes, ignored, deps, resources, opApis);
  }

  /** The case of `NodeFieldsGet` for the last node. */
  lemma NodeFieldsGetLast(acc: Dict<Field>, nodes: seq<Node>, ignored: bool, deps: Deps,
                          resources: Dict<ResourceDef>, opApis: bool)
    requires UniqueNodeNames(nodes) && nodes != []
    requires NodeFieldsFrom(acc, nodes, ignored, deps, resources, opApis).Ok?
    ensures var x := nodes[|nodes| - 1];
      && DefineInodeField(x, deps, resources, ignored, opApis).Ok?
      && Get(NodeFieldsFrom(acc, nodes, ignored, deps, resources, opApis).value, x.name) ==
         Stored(acc, DefineInodeField(x, deps, resources, ignored, opApis).value, x.name)
  {
    var last := |nodes| - 1;
    var p := nodes[..last];
    var x := nodes[last];
    NodeFieldsUnfold(acc, nodes, ignored, deps, resources, opApis);
    var prev := NodeFieldsFrom(acc, p, ignored, deps, resources, opApis).value;
    var e := DefineInodeField(x, deps, resources, ignored, opApis).value;
    var fields := NodeFieldsFrom(acc, nodes, ignored, deps, resources, opApis).value;
    if e.None? {
      forall a | 0 <= a < |p| ensures p[a].name != x.name {
        assert p[a] == nodes[a];
      }
      NodeFieldsFrame(acc, p, ignored, deps, resources, opApis);
      assert fields == prev;
    } else {
      assert fields == Put(prev, x.name, e.value);
    }
  }

  /** Names of no visited node keep their old value, and no other key appears. */
  lemma {:induction false} NodeFieldsFrame(acc: Dict<Field>, nodes: seq<Node>, ignored: bool, deps: Deps,
                                           resources: Dict<ResourceDef>, opApis: bool)
    requires NodeFieldsFrom(acc, nodes, ignored, deps, resources, opApis).Ok?
    ensures var fields := NodeFieldsFrom(acc, nodes, ignored, deps, resources, opApis).value;
      && (forall k :: (forall i :: 0 <= i < |nodes| ==> nodes[i].name != k) ==> Get(fields, k) == Get(acc, k))
      && (forall k :: k in Keys(fields) ==> k in Keys(acc) || exists i :: 0 <= i < |nodes| && nodes[i].name == k)
  {
    if nodes != [] {
      var p := nodes[..|nodes| - 1];
      assert forall i :: 0 <= i < |p| ==> p[i] == nodes[i];
      NodeFieldsFrame(acc, p, ignored, deps, resources, opApis);
    }
  }

  /** The loop keeps the keys unique. */
  lemma {:induction false} NodeFieldsUnique(acc: Dict<Field>, nodes: seq<Node>, ignored: bool, deps: Deps,
                                            resources: Dict<ResourceDef>, opApis: bool)
    requires UniqueKeys(acc)
    requires NodeFieldsFrom(acc, nodes, ignored, deps, resources, opApis).Ok?
    ensures UniqueKeys(NodeFieldsFrom(acc, nodes, ignored, deps, resources, opApis).value)
  {
    if nodes != [] {
      var p := nodes[..|nodes| - 1];
      var x := nodes[|nodes| - 1];
      NodeFieldsUnique(acc, p, ignored, deps, resources, opApis);
      var prev := NodeFieldsFrom(acc, p, ignored, deps, resources, opApis).value;
      var e := DefineInodeField(x, deps, resources, ignored, opApis).value;
      if e.Some? {
        PutUnique(prev, x.name, e.value);
      }
    }
  }

  /** Once the loop has raised on a prefix, it raises the same error on the whole. */
  lemma {:induction false} NodeFieldsErrPrefix(acc: Dict<Field>, nodes: seq<Node>, n: nat, ignored: bool, deps: Deps,
                                               resources: Dict<ResourceDef>, opApis: bool)
    requires n <= |nodes|
    requires NodeFieldsFrom(acc, nodes[..n], ignored, deps, resources, opApis).Err?
    ensures NodeFieldsFrom(acc, nodes, ignored, deps, resources, opApis) == NodeFieldsFrom(acc, nodes[..n], ignored, deps, resources, opApis)
  {
    if n < |nodes| {
      var p := nodes[..|nodes| - 1];
      assert p[..n] == nodes[..n];
      NodeFieldsErrPrefix(acc, p, n, ignored, deps, resources, opApis);
    } else {
      assert nodes[..n] == nodes;
    }
  }

  /** The node dictionary raises exactly when the entry of a selected or of an
      ignored node raises; the selected nodes are visited first, so an error
      among them is the first of theirs. */
  lemma NodeDictionaryErr(nodes: seq<Node>, ignoredNodes: seq<Node>, deps: Deps, resources: Dict<ResourceDef>, opApis: bool)
    ensures var r := NodeDictionary(nodes, ignoredNodes, deps, resources, opApis);
      && (r.Err? <==> (exists i :: 0 <= i < |nodes| && DefineInodeField(nodes[i], deps, resources, false, opApis).Err?)
                      || (exists j :: 0 <= j < |ignoredNodes| && DefineInodeField(ignoredNodes[j], deps, resources, true, opApis).Err?))
      && (NodeFieldsFrom([], nodes, false, deps, resources, opApis).Err? ==>
            exists i :: 0 <= i < |nodes| && DefineInodeField(nodes[i], deps, resources, false, opApis) == Err(r.error)
                        && forall i' :: 0 <= i' < i ==> DefineInodeField(nodes[i'], deps, resources, false, opApis).Ok?)
  {
    NodeFieldsErr([], nodes, false, deps, resources, opApis);
    var selected := NodeFieldsFrom([], nodes, false, deps, resources, opApis);
    if selected.Ok? {
      NodeFieldsErr(selected.value, ignoredNodes, true, deps, resources, opApis);
    }
  }

  /** An ignored node with an entry has that entry in the dictionary, whatever
      a selected node of the same name contributed; the entry is optional and
      marked ignored unless the node is a plain graph. */
  lemma NodeDictionaryIgnoredWins(nodes: seq<Node>, ignoredNodes: seq<Node>, j: nat, deps: Deps,
                                  resources: Dict<ResourceDef>, opApis: bool)
    requires UniqueNodeNames(ignoredNodes) && j < |ignoredNodes|
    requires NodeDictionary(nodes, ignoredNodes, deps, resources, opApis).Ok?
    ensures var e := DefineInodeField(ignoredNodes[j], deps, resources, true, opApis);
      && e.Ok?
      && (e.value.Some? ==> Get(NodeDictionary(nodes, ignoredNodes, deps, resources, opApis).value.fields, ignoredNodes[j].name) == e.value)
      && (e.value.Some? && !IsPlainGraph(ignoredNodes[j].def) ==> e.value.value.isRequired == Some(false) && e.value.value.ignored)
  {
    var selected := NodeFieldsFrom([], nodes, false, deps, resources, opApis).value;
    NodeFieldsGet(selected, ignoredNodes, j, true, deps, resources, opApis);
  }

  /** A selected node that no ignored node shadows has exactly its own entry
      in the dictionary: its field when it has one, and no key at all when it
      has none (for a leaf, when its inputs, outputs and config are all absent). */
  lemma NodeDictionarySelected(nodes: seq<Node>, ignoredNodes: seq<Node>, i: nat, deps: Deps,
                               resources: Dict<ResourceDef>, opApis: bool)
    requires UniqueNodeNames(nodes) && i < |nodes|
    requires forall j :: 0 <= j < |ignoredNodes| ==> ignoredNodes[j].name != nodes[i].name
    requires NodeDictionary(nodes, ignoredNodes, deps, resources, opApis).Ok?
    ensures var e := DefineInodeField(nodes[i], deps, resources, false, opApis);
      var fields := NodeDictionary(nodes, ignoredNodes, deps, resources, opApis).value.fields;
      && e.Ok? && Get(fields, nodes[i].name) == e.value
      && (nodes[i].name in Keys(fields) <==> e.value.Some?)
  {
    var selected := NodeFieldsFrom([], nodes, false, deps, resources, opApis).value;
    NodeFieldsGet([], nodes, i, false, deps, resources, opApis);
    NodeFieldsFrame(selected, ignoredNodes, true, deps, resources, opApis);
  }

  /** The dictionary's keys are unique and each is the name of a selected or
      an ignored node. */
  lemma NodeDictionaryKeys(nodes: seq<Node>, ignoredNodes: seq<Node>, deps: Deps, resources: Dict<ResourceDef>, opApis: bool)
    requires NodeDictionary(nodes, ignoredNodes, deps, resources, opApis).Ok?
    ensures var fields := NodeDictionary(nodes, ignoredNodes, deps, resources, opApis).value.fields;
      && UniqueKeys(fields)
      && forall k :: k in Keys(fields) ==>
           (exists i :: 0 <= i < |nodes| && nodes[i].name == k) || (exists j :: 0 <= j < |ignoredNodes| && ignoredNodes[j].name == k)
  {
    var selected := NodeFieldsFrom([], nodes, false, deps, resources, opApis).value;
    NodeFieldsFrame([], nodes, false, deps, resources, opApis);
    NodeFieldsFrame(selected, ignoredNodes, true, deps, resources, opApis);
    NodeFieldsUnique([], nodes, false, deps, resources, opApis);
    NodeFieldsUnique(selected, ignoredNodes, true, deps, resources, opApis);
  }

  /** `define_node_dictionary_cls`, as the two loops of the source. */
  method DefineNodeDictionaryCls(nodes: seq<Node>, ignoredNodes: seq<Node>, deps: Deps, resources: Dict<ResourceDef>, opApis: bool)
    returns (r: Result<ConfigType, DefinitionError>)
    ensures r == NodeDictionary(nodes, ignoredNodes, deps, resources, opApis)
  {
    var fields: Dict<Field> := [];
    for i := 0 to |nodes|
      invariant NodeFieldsFrom([], nodes[..i], false, deps, resources, opApis) == Ok(fields)
    {
      assert nodes[..i + 1][..i] == nodes[..i];
      var nodeField := DefineInodeField(nodes[i], deps, resources, false, opApis);
      if nodeField.Err? {
        NodeFieldsErrPrefix([], nodes, i + 1, false, deps, resources, opApis);
        return Err(nodeField.error);
      }
      if nodeField.value.Some? {
        fields := Put(fields, nodes[i].name, nodeField.value.value);
      }
    }
    assert nodes[..|nodes|] == nodes;
    ghost var selected := fields;
    for j := 0 to |ignoredNodes|
      invariant NodeFieldsFrom(selected, ignoredNodes[..j], true, deps, resources, opApis) == Ok(fields)
    {
      assert ignoredNodes[..j + 1][..j] == ignoredNodes[..j];
      var nodeField := DefineInodeField(ignoredNodes[j], deps, resources, true, opApis);
      if nodeField.Err? {
        NodeFieldsErrPrefix(selected, ignoredNodes, j + 1, true, deps, resources, opApis);
        return Err(nodeField.error);
      }
      if nodeField.value.Some? {
        fields := Put(fields, ignoredNodes[j].name, nodeField.value.value);
      }
    }
    assert ignoredNodes[..|ignoredNodes|] == ignoredNodes;
    return Ok(Shape(fields, NodeAliases(opApis)));
  }
}
