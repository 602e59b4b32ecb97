/** `RwSignalField<M, T>` (core/src/rw_signal.rs): a mutable field binding,
    a copyable handle on one reactive cell together with the metadata of its
    marker type `M`. */
module RwSignalFields {
  import opened Wrappers
  import opened Meta
  import R = Reactive

  /** The type arguments of `RwSignalField<M, T>` as data: the constants of
      the marker `M` and the value `T::default()`. */
  datatype TypeArgs<!V> = TypeArgs(meta: FieldMeta<V>, defaultValue: V)

  datatype RwSignalField<!V> = RwSignalField(args: TypeArgs<V>, value: R.RwSignal)

  predicate Valid<V>(rt: R.Runtime<V>, f: RwSignalField<V>)
  {
    R.Valid(rt, f.value)
  }

  /** `RwSignalField::new` (rw_signal.rs:21-26): a binding on a fresh cell
      holding `value`; no existing cell changes. */
  function New<V>(rt: R.Runtime<V>, args: TypeArgs<V>, value: V): (res: (R.Runtime<V>, RwSignalField<V>))
    ensures res.1.args == args
    ensures !Valid(rt, res.1) && Valid(res.0, res.1)
    ensures GetUntracked(res.0, res.1) == value && Get(res.0, res.1).0 == value
    ensures |res.0.cells| == |rt.cells| + 1 && res.0.cells[..|rt.cells|] == rt.cells
    ensures res.0.effects == rt.effects
  {
    var (rt', s) := R.CreateRwSignal(rt, value);
    (rt', RwSignalField(args, s))
  }

  /** `Default::default` (rw_signal.rs:56-58): `new(T::default())`. */
  function Default<V>(rt: R.Runtime<V>, args: TypeArgs<V>): (res: (R.Runtime<V>, RwSignalField<V>))
    ensures res.1.args == args && Valid(res.0, res.1)
    ensures GetUntracked(res.0, res.1) == args.defaultValue
    ensures res == New(rt, args, args.defaultValue)
  {
    New(rt, args, args.defaultValue)
  }

  /** `Clone`/`Copy` (rw_signal.rs:177-191): the copy is the same handle. */
  function Clone<V>(f: RwSignalField<V>): RwSignalField<V>
  {
    f
  }

  /** `Field::label` (rw_signal.rs:34-36): `M::LABEL`. */
  function Label<V>(f: RwSignalField<V>): string
  {
    f.args.meta.labelText
  }

  /** `Field::required` (rw_signal.rs:38-40): `M::REQUIRED`. */
  function Required<V>(f: RwSignalField<V>): bool
  {
    f.args.meta.required
  }

  /** `Field::validate` (rw_signal.rs:42-44): `M::VALIDATE` of the value read
      untracked. */
  function Validate<V>(rt: R.Runtime<V>, f: RwSignalField<V>): Option<string>
    requires Valid(rt, f)
  {
    f.args.meta.validate(GetUntracked(rt, f))
  }

  /** `Field::set_default` (rw_signal.rs:46-48): a tracked write of
      `T::default()`. */
  function SetDefault<V>(rt: R.Runtime<V>, f: RwSignalField<V>): (rt': R.Runtime<V>)
    requires Valid(rt, f)
    ensures Valid(rt', f) && GetUntracked(rt', f) == f.args.defaultValue
    ensures |rt'.cells| == |rt.cells|
    ensures forall k :: 0 <= k < |rt.cells| && k != f.value.id ==> rt'.cells[k] == rt.cells[k]
    ensures rt'.effects == rt.effects + [R.Notify(f.value.id)]
  {
    R.Set(rt, f.value, f.args.defaultValue)
  }

  /** `with_untracked(g)` (rw_signal.rs:68-70). */
  function WithUntracked<V, O>(rt: R.Runtime<V>, f: RwSignalField<V>, g: V -> O): (r: O)
    requires Valid(rt, f)
    ensures r == g(GetUntracked(rt, f))
  {
    g(R.GetUntracked(rt, f.value))
  }

  /** `with(g)` (rw_signal.rs:83-85): as `with_untracked`, tracked. */
  function With<V, O>(rt: R.Runtime<V>, f: RwSignalField<V>, g: V -> O): (res: (O, R.Runtime<V>))
    requires Valid(rt, f)
    ensures res.0 == g(GetUntracked(rt, f))
    ensures res.1.cells == rt.cells && res.1.effects == rt.effects + [R.Track(f.value.id)]
  {
    var (v, rt') := R.Get(rt, f.value);
    (g(v), rt')
  }

  /** `get_untracked` (rw_signal.rs:154-156). */
  function GetUntracked<V>(rt: R.Runtime<V>, f: RwSignalField<V>): (v: V)
    requires Valid(rt, f)
    ensures R.Get(rt, f.value).0 == v
    ensures R.SetUntracked(rt, f.value, v) == rt
  {
    R.GetUntracked(rt, f.value)
  }

  /** `get` (rw_signal.rs:169-171). */
  function Get<V>(rt: R.Runtime<V>, f: RwSignalField<V>): (res: (V, R.Runtime<V>))
    requires Valid(rt, f)
    ensures res.0 == GetUntracked(rt, f)
    ensures res.1.cells == rt.cells && res.1.effects == rt.effects + [R.Track(f.value.id)]
  {
    R.Get(rt, f.value)
  }

  /** `set_untracked` (rw_signal.rs:124-126). */
  function SetUntracked<V>(rt: R.Runtime<V>, f: RwSignalField<V>, x: V): (rt': R.Runtime<V>)
    requires Valid(rt, f)
    ensures Valid(rt', f) && GetUntracked(rt', f) == x
    ensures |rt'.cells| == |rt.cells|
    ensures forall k :: 0 <= k < |rt.cells| && k != f.value.id ==> rt'.cells[k] == rt.cells[k]
    ensures rt'.effects == rt.effects
  {
    R.SetUntracked(rt, f.value, x)
  }

  /** `set` (rw_signal.rs:139-141). */
  function Set<V>(rt: R.Runtime<V>, f: RwSignalField<V>, x: V): (rt': R.Runtime<V>)
    requires Valid(rt, f)
    ensures Valid(rt', f) && GetUntracked(rt', f) == x
    ensures |rt'.cells| == |rt.cells|
    ensures forall k :: 0 <= k < |rt.cells| && k != f.value.id ==> rt'.cells[k] == rt.cells[k]
    ensures rt'.effects == rt.effects + [R.Notify(f.value.id)]
  {
    R.Set(rt, f.value, x)
  }

  /** `update_untracked(g)` (rw_signal.rs:96-98). */
  function UpdateUntracked<V>(rt: R.Runtime<V>, f: RwSignalField<V>, g: V -> V): (rt': R.Runtime<V>)
    requires Valid(rt, f)
    ensures Valid(rt', f) && GetUntracked(rt', f) == g(GetUntracked(rt, f))
    ensures |rt'.cells| == |rt.cells|
    ensures forall k :: 0 <= k < |rt.cells| && k != f.value.id ==> rt'.cells[k] == rt.cells[k]
    ensures rt'.effects == rt.effects
  {
    R.UpdateUntracked(rt, f.value, g)
  }

  /** `update(g)` (rw_signal.rs:111-113). */
  function Update<V>(rt: R.Runtime<V>, f: RwSignalField<V>, g: V -> V): (rt': R.Runtime<V>)
    requires Valid(rt, f)
    ensures Valid(rt', f) && GetUntracked(rt', f) == g(GetUntracked(rt, f))
    ensures |rt'.cells| == |rt.cells|
    ensures forall k :: 0 <= k < |rt.cells| && k != f.value.id ==> rt'.cells[k] == rt.cells[k]
    ensures rt'.effects == rt.effects + [R.Notify(f.value.id)]
  {
    R.Update(rt, f.value, g)
  }

  /** A copy shares the cell: a write through one copy is what every other
      copy reads, tracked or not. */
  lemma CopiesShareCell<V>(rt: R.Runtime<V>, f: RwSignalField<V>, x: V)
    requires Valid(rt, f)
    ensures GetUntracked(Set(rt, f, x), Clone(f)) == x
    ensures GetUntracked(SetUntracked(rt, f, x), Clone(f)) == x
    ensures Get(Set(rt, Clone(f), x), f).0 == x
  {
  }

  /** The metadata accessors return the marker's constants whatever the
      cell holds, and `validate` judges the value read untracked without
      changing the runtime. */
  lemma SurfaceOfNew<V>(rt: R.Runtime<V>, args: TypeArgs<V>, v: V, x: V)
    ensures var (rt', f) := New(rt, args, v);
      && Label(f) == args.meta.labelText
      && Required(f) == args.meta.required
      && Validate(rt', f) == args.meta.validate(v)
      && Validate(Set(rt', f, x), f) == args.meta.validate(x)
  {
  }
}
