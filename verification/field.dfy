/** The `Field` surface (core/src/field.rs) shared by both binding kinds:
    a closed choice between the mutable and the read-only binding. */
module Field {
  import opened Wrappers
  import R = Reactive
  import RwSignalFields
  import SignalFields

  datatype Binding<!V> =
    | Mutable(rw: RwSignalFields.RwSignalField<V>)
    | ReadOnly(ro: SignalFields.SignalField<V>)

  predicate Valid<V>(rt: R.Runtime<V>, b: Binding<V>)
  {
    b.Mutable? ==> RwSignalFields.Valid(rt, b.rw)
  }

  /** The current value, read untracked. */
  function Read<V>(rt: R.Runtime<V>, b: Binding<V>): V
    requires Valid(rt, b)
  {
    match b
    case Mutable(rw) => RwSignalFields.GetUntracked(rt, rw)
    case ReadOnly(ro) => SignalFields.GetUntracked(ro)
  }

  function Label<V>(b: Binding<V>): string
  {
    match b
    case Mutable(rw) => RwSignalFields.Label(rw)
    case ReadOnly(ro) => SignalFields.Label(ro)
  }

  function Required<V>(b: Binding<V>): bool
  {
    match b
    case Mutable(rw) => RwSignalFields.Required(rw)
    case ReadOnly(ro) => SignalFields.Required(ro)
  }

  /** `Field::validate`: for both kinds, the metadata's `VALIDATE` applied to
      the current value. */
  function Validate<V>(rt: R.Runtime<V>, b: Binding<V>): (r: Option<string>)
    requires Valid(rt, b)
    ensures r == (if b.Mutable? then b.rw.args.meta else b.ro.meta).validate(Read(rt, b))
  {
    match b
    case Mutable(rw) => RwSignalFields.Validate(rt, rw)
    case ReadOnly(ro) => SignalFields.Validate(ro)
  }

  /** `Field::set_default`: a mutable binding then reads its type's default
      and its dependents are notified; a read-only binding leaves the whole
      runtime as it was. */
  function SetDefault<V>(rt: R.Runtime<V>, b: Binding<V>): (rt': R.Runtime<V>)
    requires Valid(rt, b)
    ensures Valid(rt', b)
    ensures b.Mutable? ==> Read(rt', b) == b.rw.args.defaultValue && rt'.effects == rt.effects + [R.Notify(b.rw.value.id)]
    ensures b.ReadOnly? ==> rt' == rt && Read(rt', b) == Read(rt, b)
  {
    match b
    case Mutable(rw) => RwSignalFields.SetDefault(rt, rw)
    case ReadOnly(ro) => SignalFields.SetDefault(rt, ro)
  }
}
