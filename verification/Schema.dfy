/** The `PluginSchema` contract types of `schema.rs`. */
module Schema {
  import opened Text
  import opened JsonSchema

  /** `f64`: a finite double, or one of the values JSON has no number for. */
  datatype F64 = Finite(d: FiniteDouble) | PositiveInfinity | NegativeInfinity | NotANumber

  datatype FieldType =
    | StringType
    | IntegerType
    | FloatType
    | BooleanType
    | AnyType
    | EnumType(names: seq<string>)
    | OneOfType(branches: seq<FieldType>)
    | ArrayType(item: FieldType)
    | ObjectType(fields: map<string, FieldSchema>)

  datatype Constraint =
    | Min(value: F64)
    | Max(value: F64)
    | Pattern(regex: string)
    | OneOf(values: seq<Json>)
    | RequiresField(field: string)
    | Custom(validator: string)

  datatype FieldSchema = FieldSchema(
    fieldType: FieldType,
    required: bool,
    description: string,
    default: Option<Json>,
    example: Option<Json>,
    constraints: seq<Constraint>,
    readOnly: bool,
    readOnlyWhen: Option<Json>)

  datatype SideEffect = Read | Mutation | External

  datatype MethodDecl = MethodDecl(
    name: string,
    args: Json,
    output: Option<Json>,
    sideEffect: SideEffect,
    idempotent: bool,
    requiredCapability: Option<string>,
    subid: string)

  datatype PluginSchema = PluginSchema(
    name: string,
    version: string,
    description: string,
    fields: map<string, FieldSchema>,
    methods: map<string, MethodDecl>,
    subids: map<string, string>,
    immutablePaths: seq<string>,
    dialect: string)

  const DIALECT_2020_12 := "https://json-schema.org/draft/2020-12/schema"
}
