/** The per-field metadata surface (core/src/meta.rs) and the environment
    the generated code is compiled in. */
module Meta {
  import opened Wrappers

  /** `FieldMeta`: the constants `LABEL`, `REQUIRED` and `VALIDATE` of a
      marker type, over field values of type `V`. */
  datatype FieldMeta<!V> = FieldMeta(
    labelText: string,
    required: bool,
    validate: V -> Option<string>)

  /** What the Rust compiler resolves when it compiles the generated code:
      `T::default()` for each type name, and the predicate each validator
      path names. */
  datatype Env<!V> = Env(
    defaultOf: string -> V,
    resolve: string -> (V -> bool))
}
