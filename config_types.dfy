/** The config type system the schema is built from: structural config types
    and the `Field` wrapper that adds requiredness and a default. */
module ConfigTypes {
  import opened Wrappers
  import opened OrderedDict

  /** A config value, as far as this model needs one: the defaults the
      synthesiser writes are nested dictionaries such as `{"in_process": {}}`;
      a user schema may carry any other value, kept as text. */
  datatype Value = Mapping(entries: Dict<Value>) | Atom(text: string)

  const EmptyMapping: Value := Mapping([])

  datatype ConfigType =
      /** A built-in scalar (Int, String, Bool, ...): its class name is its given name. */
    | Scalar(scalarName: string)
      /** A record with ordered fields and a table of alternative field names. */
    | Shape(fields: Dict<Field>, aliases: map<string, string>)
      /** Exactly one of the choices must be picked. */
    | Selector(choices: Dict<Field>)
    | Array(elem: ConfigType)
      /** A Shape that accepts any keys. */
    | Permissive
      /** Any other named type (an enum, a user type), of Python class `cls`. */
    | Named(name: string, cls: string, children: seq<ConfigType>)

  /** A field: the type, the `is_required` argument exactly as passed (None
      leaves requiredness to the Field constructor's own inference), the
      default value if one was passed, and whether the field carries the
      "allowed but ignored" description. */
  datatype Field = Field(ty: ConfigType, isRequired: Option<bool>, defaultValue: Option<Value>, ignored: bool)

  /** `Field(t)` with no further arguments. */
  function FieldOf(t: ConfigType): Field {
    Field(t, None, None, false)
  }

  /** Python's truthiness of an optional string: present and non-empty. */
  predicate Truthy(s: Option<string>) {
    s.Some? && s.value != ""
  }

  /** `config_type.given_name`: only scalars and named types have one. */
  function GivenName(t: ConfigType): Option<string> {
    match t
    case Scalar(n) => Some(n)
    case Named(n, _, _) => Some(n)
    case _ => None
  }

  /** The Python class of a config type, which is all the name-collision test compares. */
  datatype TypeClass =
    | ScalarClass(scalarName: string)
    | ShapeClass
    | SelectorClass
    | ArrayClass
    | PermissiveClass
    | UserClass(cls: string)

  function ClassOf(t: ConfigType): TypeClass {
    match t
    case Scalar(n) => ScalarClass(n)
    case Shape(_, _) => ShapeClass
    case Selector(_) => SelectorClass
    case Array(_) => ArrayClass
    case Permissive => PermissiveClass
    case Named(_, c, _) => UserClass(c)
  }
}
