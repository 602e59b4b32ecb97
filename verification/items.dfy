/** The Rust items the derive emits, abstracted from their tokens. */
module Items {
  import opened Options

  /** The body of a generated `VALIDATE` closure: accept every value, or
      call the named predicate and report `error` when it fails. */
  datatype ValidateBody = AcceptAll | Check(validator: string, error: string)

  /** The associated constants of one generated `FieldMeta` impl. */
  datatype MetaConsts = MetaConsts(labelText: string, required: bool, validate: ValidateBody)

  /** The two binding kinds of the runtime crate. */
  datatype BindingKind = RwSignalKind | SignalKind

  /** A member `ident: Kind<marker, ty>` of the aggregate struct. */
  datatype MemberDecl = MemberDecl(ident: string, kind: BindingKind, marker: string, ty: string)

  /** One inline check of the aggregate's `validate`: read `member`
      untracked, call `validator` on it, report `error` when it fails. */
  datatype ValidateStmt = ValidateStmt(member: string, validator: string, error: string)

  datatype Item =
      /** `struct Marker;`, the zero-sized marker of one field. */
    | MarkerStruct(vis: Visibility, name: string)
      /** `impl FieldMeta for Marker { type Type = ty; .. }`. */
    | MetaImpl(marker: string, ty: string, consts: MetaConsts)
      /** `struct RecordControls { members }`. */
    | AggregateStruct(vis: Visibility, name: string, members: seq<MemberDecl>)
      /** `impl RecordControls { new, set_default, snapshot, validate }`:
          the fields destructured and wrapped by `new` and rebuilt by
          `snapshot`, the members reset by `set_default`, and the checks of
          `validate`. */
    | AggregateImpl(name: string, record: string, fields: seq<string>, resets: seq<string>, checks: seq<ValidateStmt>)
      /** `compile_error!(..)` for one diagnostic. */
    | CompileError(diagnostic: Diagnostic)
}
