/** `SignalField<M, T>` (core/src/signal.rs): a read-only field binding on a
    derived signal that always yields its construction value. Tracked reads
    of it are not recorded: a cell that is never written notifies nobody, so
    the dependency they register can never fire. */
module SignalFields {
  import opened Wrappers
  import opened Meta
  import R = Reactive

  datatype SignalField<!V> = SignalField(meta: FieldMeta<V>, value: V)

  /** `SignalField::new` (signal.rs:21-26): `Signal::derive(move || value.clone())`. */
  function New<V>(meta: FieldMeta<V>, value: V): (f: SignalField<V>)
    ensures f.meta == meta
    ensures GetUntracked(f) == value && Get(f) == value
  {
    SignalField(meta, value)
  }

  /** `Clone`/`Copy` (signal.rs:49-64). */
  function Clone<V>(f: SignalField<V>): SignalField<V>
  {
    f
  }

  /** `Field::label` (signal.rs:34-36). */
  function Label<V>(f: SignalField<V>): string
  {
    f.meta.labelText
  }

  /** `Field::required` (signal.rs:38-40). */
  function Required<V>(f: SignalField<V>): bool
  {
    f.meta.required
  }

  /** `Field::validate` (signal.rs:42-44): `M::VALIDATE` of the value. */
  function Validate<V>(f: SignalField<V>): Option<string>
  {
    f.meta.validate(GetUntracked(f))
  }

  /** `Field::set_default` (signal.rs:46): does nothing. */
  function SetDefault<V>(rt: R.Runtime<V>, f: SignalField<V>): (rt': R.Runtime<V>)
    ensures rt' == rt
  {
    rt
  }

  /** `with_untracked(g)` (signal.rs:73-75). */
  function WithUntracked<V, O>(f: SignalField<V>, g: V -> O): (r: O)
    ensures r == g(GetUntracked(f))
  {
    g(f.value)
  }

  /** `with(g)` (signal.rs:88-90). */
  function With<V, O>(f: SignalField<V>, g: V -> O): (r: O)
    ensures r == g(Get(f))
  {
    g(f.value)
  }

  /** `get_untracked` (signal.rs:104-106). */
  function GetUntracked<V>(f: SignalField<V>): V
  {
    f.value
  }

  /** `get` (signal.rs:120-122). */
  function Get<V>(f: SignalField<V>): V
  {
    f.value
  }

  /** The `Field` surface of a read-only binding: `label` and `required` are
      the marker's constants, `validate` judges the construction value, and
      `set_default` leaves the runtime, and so every later read, as it was. */
  lemma SurfaceOfNew<V>(meta: FieldMeta<V>, v: V, rt: R.Runtime<V>)
    ensures var f := New(meta, v);
      && Label(f) == meta.labelText
      && Required(f) == meta.required
      && Validate(f) == meta.validate(v)
      && SetDefault(rt, f) == rt
  {
  }

  /** Every way of reading a read-only binding, tracked or not, sees the
      construction value, and so does every copy. */
  lemma ReadsOfNew<V, O>(meta: FieldMeta<V>, v: V, g: V -> O)
    ensures var f := New(meta, v);
      && GetUntracked(f) == v && Get(f) == v
      && GetUntracked(Clone(f)) == v
      && WithUntracked(f, g) == g(v) && With(f, g) == g(v)
  {
  }
}
