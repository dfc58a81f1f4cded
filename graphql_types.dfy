/** An abstract view of the graphql-js schema objects the plugin walks: named types with their
    kind, whether they carry a definition node, and their fields with optional resolvers. */
module GraphQLTypes {

  datatype Option<T> = None | Some(value: T)

  /** The kinds of named types a type map can hold. Only object and input-object types
      expose fields to the walker. */
  datatype TypeKind = ObjectKind | InputObjectKind | InterfaceKind | UnionKind | ScalarKind | EnumKind

  /** JavaScript values as resolvers see them: only property reads matter here. */
  datatype Value = Undefined | Null | Primitive(id: int) | Record(props: map<string, Value>)

  /** How a resolver call ends: a returned value or a thrown error. */
  datatype Outcome = Returned(value: Value) | Threw(error: Failure)

  /** `TypeError` is what reading a property of `undefined` or `null` throws. */
  datatype Failure = TypeError | Raised(reason: Value)

  /** A field's resolve function: one supplied by the schema author (its behaviour is a
      parameter of the model), the synthesised property reader, or the plugin's interceptor
      around another resolver. */
  datatype Resolver =
    | Original(id: nat)
    | Default(fieldName: string)
    | Wrapped(typeName: string, fieldName: string, inner: Resolver)

  /** The behaviour of the schema author's resolvers, by id, on the call's arguments. */
  type Impl = (nat, seq<Value>) -> Outcome

  /** A field: its name, its `resolve` property (absent when the author gave none) and the
      plugin's visited marker. */
  datatype Field = Field(name: string, resolve: Option<Resolver>, visited: bool)

  /** A named type of the type map. */
  datatype TypeDef = TypeDef(name: string, kind: TypeKind, hasAstNode: bool, fields: seq<Field>)

  /** The schema, whose fields the walker updates in place; `typeMap` lists the types in the
      order the type map enumerates them. */
  class GqlSchema {
    var typeMap: seq<TypeDef>

    constructor (typeMap: seq<TypeDef>)
      ensures this.typeMap == typeMap
    {
      this.typeMap := typeMap;
    }
  }
}
