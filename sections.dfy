/** The top-level sections of the run-config schema (run_config.py:31-123,
    180-183): resources, loggers, the executor selector and the storage
    selector, and the two small builders they share. */
module Sections {
  import opened Wrappers
  import opened OrderedDict
  import opened ConfigTypes
  import opened Definitions

  /** The name of `in_process_executor`. */
  const InProcessName: string := "in_process"

  // ---------------------------------------------------------------------------
  // def_config_field and remove_none_entries

  /** The uniform `{config: ...}` envelope of a configurable definition: a
      Shape with the single key `config` when the definition has a config
      field, the empty Shape otherwise; the requiredness override is kept as
      passed and no default is given. */
  function DefConfigField(configField: Option<Field>, isRequired: Option<bool>): (f: Field)
    ensures f.ty.Shape? && f.ty.aliases == map[]
    ensures configField.Some? <==> Keys(f.ty.fields) == ["config"]
    ensures configField.None? <==> f.ty.fields == []
    ensures Get(f.ty.fields, "config") == configField
    ensures f.isRequired == isRequired && f.defaultValue.None? && !f.ignored
  {
    Field(Shape(if configField.Some? then [("config", configField.value)] else [], map[]), isRequired, None, false)
  }

  function Flatten(o: Option<Option<Field>>): Option<Field> {
    if o.Some? then o.value else None
  }

  /** `{k: v for k, v in d.items() if v is not None}`: the entries that are
      present, in order; nothing is left when every entry is absent. */
  function RemoveNoneEntries(d: Dict<Option<Field>>): (r: Dict<Field>)
    ensures r == [] <==> forall i :: 0 <= i < |d| ==> d[i].1.None?
    ensures (forall i :: 0 <= i < |d| ==> d[i].1.Some?) ==>
              |r| == |d| && forall i :: 0 <= i < |d| ==> r[i] == (d[i].0, d[i].1.value)
  {
    if d == [] then []
    else
      var rest := RemoveNoneEntries(d[1..]);
      assert forall i :: 1 <= i < |d| ==> d[1..][i - 1] == d[i];
      (if d[0].1.Some? then [(d[0].0, d[0].1.value)] else []) + rest
  }

  /** Looking a key up after the filter gives the present value stored under
      it, and nothing for an absent one. */
  lemma {:induction false} RemoveNoneEntriesGet(d: Dict<Option<Field>>, k: string)
    requires UniqueKeys(d)
    ensures Get(RemoveNoneEntries(d), k) == Flatten(Get(d, k))
  {
    if d != [] {
      var tail := d[1..];
      var rest := RemoveNoneEntries(tail);
      var r := RemoveNoneEntries(d);
      forall i, j | 0 <= i < j < |tail| ensures tail[i].0 != tail[j].0 {
        assert tail[i] == d[i + 1] && tail[j] == d[j + 1];
      }
      RemoveNoneEntriesGet(tail, k);
      assert d == [d[0]] + tail;
      GetCons(d[0], tail, k);
      if d[0].1.Some? {
        assert r == [(d[0].0, d[0].1.value)] + rest;
        GetCons((d[0].0, d[0].1.value), rest, k);
      } else {
        assert r == rest;
        if d[0].0 == k {
          assert k !in Keys(tail) by {
            forall i | 0 <= i < |tail| ensures Keys(tail)[i] != k {
              assert tail[i] == d[i + 1];
            }
          }
        }
      }
    }
  }

  // ---------------------------------------------------------------------------
  // define_resource_dictionary_cls

  /** The requiredness override of a resource's section: forced optional when
      the resource is not required by the current mode, left to inference
      otherwise. */
  function ResourceRequirement(name: string, required: set<string>): Option<bool> {
    if name !in required then Some(false) else None
  }

  /** The resource fields after the loop has visited `rs`. */
  function ResourceFields(rs: Dict<ResourceDef>, required: set<string>): Dict<Field>
  {
    if rs == [] then []
    else
      var prev := ResourceFields(rs[..|rs| - 1], required);
      var (name, r) := rs[|rs| - 1];
      if r.configSchema.Some? then Put(prev, name, DefConfigField(r.configSchema, ResourceRequirement(name, required)))
      else prev
  }

  /** The resources section has a key for exactly the resources with a config
      schema; a resource outside `required` is optional, any other keeps its
      requiredness unset. */
  lemma {:induction false} ResourceFieldsSpec(rs: Dict<ResourceDef>, required: set<string>)
    requires UniqueKeys(rs)
    ensures UniqueKeys(ResourceFields(rs, required))
    ensures forall i :: 0 <= i < |rs| ==>
              Get(ResourceFields(rs, required), rs[i].0) ==
                if rs[i].1.configSchema.Some?
                then Some(DefConfigField(rs[i].1.configSchema, ResourceRequirement(rs[i].0, required)))
                else None
    ensures forall k :: k in Keys(ResourceFields(rs, required)) ==> k in Keys(rs)
  {
    if rs != [] {
      var p := rs[..|rs| - 1];
      ResourceFieldsSpec(p, required);
      var prev := ResourceFields(p, required);
      var (name, r) := rs[|rs| - 1];
      if r.configSchema.Some? {
        PutUnique(prev, name, DefConfigField(r.configSchema, ResourceRequirement(name, required)));
      }
      forall i | 0 <= i < |rs| - 1 ensures rs[i].0 != name && p[i] == rs[i] { }
      assert name !in Keys(p);
    }
  }

  method DefineResourceDictionaryCls(rs: Dict<ResourceDef>, required: set<string>) returns (t: ConfigType)
    ensures t == Shape(ResourceFields(rs, required), map[])
  {
    var fields: Dict<Field> := [];
    for i := 0 to |rs|
      invariant fields == ResourceFields(rs[..i], required)
    {
      assert rs[..i + 1][..i] == rs[..i];
      var (name, r) := rs[i];
      if r.configSchema.Some? {
        var isRequired: Option<bool> := None;
        if name !in required {
          isRequired := Some(false);
        }
        fields := Put(fields, name, DefConfigField(r.configSchema, isRequired));
      }
    }
    assert rs[..|rs|] == rs;
    t := Shape(fields, map[]);
  }

  // ---------------------------------------------------------------------------
  // define_logger_dictionary_cls

  /** One optional `{config: ...}` section per logger, in the loggers' order. */
  function LoggerDictionary(loggers: Dict<LoggerDef>): (t: ConfigType)
    ensures t.Shape? && t.aliases == map[]
    ensures Keys(t.fields) == Keys(loggers)
    ensures forall i :: 0 <= i < |loggers| ==> t.fields[i].1 == DefConfigField(loggers[i].1.configField, Some(false))
  {
    Shape(seq(|loggers|, i requires 0 <= i < |loggers| => (loggers[i].0, DefConfigField(loggers[i].1.configField, Some(false)))), map[])
  }

  // ---------------------------------------------------------------------------
  // selector_for_named_defs

  /** The selector choices after the comprehension has visited `defs`. */
  function SelectorFields(defs: seq<NamedDef>): Dict<Field>
  {
    if defs == [] then []
    else Put(SelectorFields(defs[..|defs| - 1]), defs[|defs| - 1].name, DefConfigField(defs[|defs| - 1].configField, None))
  }

  /** A selector over named definitions: one choice per definition name, and
      with distinct names each choice is that definition's `{config: ...}` envelope. */
  function SelectorForNamedDefs(defs: seq<NamedDef>): (t: ConfigType)
    ensures t.Selector?
    ensures forall i :: 0 <= i < |defs| ==> defs[i].name in Keys(t.choices)
    ensures forall k :: k in Keys(t.choices) ==> exists i :: 0 <= i < |defs| && defs[i].name == k
  {
    SelectorFieldsKeys(defs);
    Selector(SelectorFields(defs))
  }

  lemma {:induction false} SelectorFieldsKeys(defs: seq<NamedDef>)
    ensures forall i :: 0 <= i < |defs| ==> defs[i].name in Keys(SelectorFields(defs))
    ensures forall k :: k in Keys(SelectorFields(defs)) ==> exists i :: 0 <= i < |defs| && defs[i].name == k
  {
    if defs != [] {
      var p := defs[..|defs| - 1];
      SelectorFieldsKeys(p);
      forall k | k in Keys(SelectorFields(defs)) ensures exists i :: 0 <= i < |defs| && defs[i].name == k {
        if k != defs[|defs| - 1].name {
          var i :| 0 <= i < |p| && p[i].name == k;
          assert defs[i] == p[i];
        }
      }
      forall i | 0 <= i < |defs| - 1 ensures defs[i].name in Keys(SelectorFields(defs)) {
        assert defs[i] == p[i];
      }
    }
  }

  lemma {:induction false} SelectorFieldsValues(defs: seq<NamedDef>, i: nat)
    requires i < |defs|
    requires forall a, b :: 0 <= a < b < |defs| ==> defs[a].name != defs[b].name
    ensures Get(SelectorFields(defs), defs[i].name) == Some(DefConfigField(defs[i].configField, None))
  {
    if i < |defs| - 1 {
      SelectorFieldsValues(defs[..|defs| - 1], i);
    }
  }

  // ---------------------------------------------------------------------------
  // define_execution_field

  predicate HasInProcessExecutor(executors: seq<ExecutorDef>) {
    exists i :: 0 <= i < |executors| && executors[i].kind == InProcessExecutor
  }

  function ExecutorsAsNamed(executors: seq<ExecutorDef>): (defs: seq<NamedDef>)
    ensures |defs| == |executors|
    ensures forall i :: 0 <= i < |executors| ==> defs[i] == NamedDef(executors[i].name, executors[i].configField)
  {
    seq(|executors|, i requires 0 <= i < |executors| => NamedDef(executors[i].name, executors[i].configField))
  }

  /** The execution section, as `define_execution_field` builds it: the
      in-process executor, when offered, is the default choice; a lone
      execute-in-process executor makes the section an optional open record
      defaulting to `{}`; otherwise the selector must be filled in. In every
      selector case each executor is a choice. */
  function ExecutionField(executors: seq<ExecutorDef>): (f: Field)
    ensures HasInProcessExecutor(executors) ==>
              f.ty.Selector? && f.isRequired.None? && f.defaultValue == Some(Mapping([(InProcessName, EmptyMapping)]))
    ensures !HasInProcessExecutor(executors) && |executors| == 1 && executors[0].kind == ExecuteInProcessExecutor ==>
              f.ty == Permissive && f.isRequired == Some(false) && f.defaultValue == Some(EmptyMapping)
    ensures !HasInProcessExecutor(executors) && !(|executors| == 1 && executors[0].kind == ExecuteInProcessExecutor) ==>
              f.ty.Selector? && f.isRequired.None? && f.defaultValue.None?
    ensures f.ty.Selector? ==> forall i :: 0 <= i < |executors| ==> executors[i].name in Keys(f.ty.choices)
    ensures !f.ignored
  {
    var selector := SelectorForNamedDefs(ExecutorsAsNamed(executors));
    if HasInProcessExecutor(executors) then
      Field(selector, None, Some(Mapping([(InProcessName, EmptyMapping)])), false)
    else if |executors| == 1 && executors[0].kind == ExecuteInProcessExecutor then
      Field(Permissive, Some(false), Some(EmptyMapping), false)
    else
      FieldOf(selector)
  }

  /** The in-process executor is offered under the name `in_process`, the
      name of the source's `in_process_executor`. */
  predicate InProcessExecutorNamed(executors: seq<ExecutorDef>) {
    forall i :: 0 <= i < |executors| && executors[i].kind == InProcessExecutor ==> executors[i].name == InProcessName
  }

  /** When the in-process executor carries its own name, the default of the
      execution selector is one of the selector's choices. */
  lemma ExecutionDefaultIsChoice(executors: seq<ExecutorDef>)
    requires InProcessExecutorNamed(executors)
    ensures HasInProcessExecutor(executors) ==>
              var f := ExecutionField(executors);
              f.ty.Selector? && InProcessName in Keys(f.ty.choices)
  {
    if HasInProcessExecutor(executors) {
      var i :| 0 <= i < |executors| && executors[i].kind == InProcessExecutor;
      assert executors[i].name == InProcessName;
    }
  }

  method DefineExecutionField(executors: seq<ExecutorDef>) returns (f: Field)
    ensures f == ExecutionField(executors)
  {
    var defaultInProcess := false;
    for i := 0 to |executors|
      invariant defaultInProcess <==> exists j :: 0 <= j < i && executors[j].kind == InProcessExecutor
    {
      if executors[i].kind == InProcessExecutor {
        defaultInProcess := true;
      }
    }
    var selector := SelectorForNamedDefs(ExecutorsAsNamed(executors));
    if defaultInProcess {
      return Field(selector, None, Some(Mapping([(InProcessName, EmptyMapping)])), false);
    }
    if |executors| == 1 && executors[0].kind == ExecuteInProcessExecutor {
      return Field(Permissive, Some(false), Some(EmptyMapping), false);
    }
    return FieldOf(selector);
  }

  // ---------------------------------------------------------------------------
  // define_storage_field

  function StorageNameSet(names: seq<string>): set<string> {
    set n | n in names
  }

  /** The storage section over `selector`: optional without default when the
      offered names are exactly the default set; otherwise a selector that
      defaults to `{first: {}}` only when there is a first name and its
      choice's type is all-optional. */
  function StorageField(selector: ConfigType, names: seq<string>, defaults: set<string>,
                        allOptional: ConfigType -> bool): (f: Field)
    requires selector.Selector?
    requires StorageNameSet(names) != defaults && |names| > 0 ==> names[0] in Keys(selector.choices)
    ensures f.ty == selector && !f.ignored
    ensures StorageNameSet(names) == defaults ==> f.isRequired == Some(false) && f.defaultValue.None?
    ensures StorageNameSet(names) != defaults ==>
              && f.isRequired.None?
              && (f.defaultValue.Some? <==> |names| > 0 && allOptional(Get(selector.choices, names[0]).value.ty))
              && (f.defaultValue.Some? ==> f.defaultValue == Some(Mapping([(names[0], EmptyMapping)])))
  {
    if StorageNameSet(names) == defaults then
      Field(selector, Some(false), None, false)
    else
      var defaultStorage :=
        if |names| > 0 && allOptional(Get(selector.choices, names[0]).value.ty)
        then Some(Mapping([(names[0], EmptyMapping)]))
        else None;
      Field(selector, None, defaultStorage, false)
  }
}
