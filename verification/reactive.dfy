/** The part of the leptos reactive runtime the bindings rely on: an arena
    of value cells addressed by copyable signal handles. Dependency tracking
    itself is not modelled; a tracked read records `Track(id)` and a tracked
    write records `Notify(id)`, while untracked accesses record nothing. */
module Reactive {

  datatype Effect = Track(id: nat) | Notify(id: nat)

  datatype Runtime<V> = Runtime(cells: seq<V>, effects: seq<Effect>)

  /** `RwSignal<T>`: a `Copy` handle naming one cell of the runtime. */
  datatype RwSignal = RwSignal(id: nat)

  predicate Valid<V>(rt: Runtime<V>, s: RwSignal)
  {
    s.id < |rt.cells|
  }

  /** `create_rw_signal(value)`: a fresh cell holding `value`; no existing
      cell changes. */
  function CreateRwSignal<V>(rt: Runtime<V>, value: V): (res: (Runtime<V>, RwSignal))
    ensures !Valid(rt, res.1) && Valid(res.0, res.1)
    ensures GetUntracked(res.0, res.1) == value
    ensures |res.0.cells| == |rt.cells| + 1 && res.0.cells[..|rt.cells|] == rt.cells
    ensures res.0.effects == rt.effects
  {
    (Runtime(rt.cells + [value], rt.effects), RwSignal(|rt.cells|))
  }

  /** `get_untracked`: the current value, without registering a dependency. */
  function GetUntracked<V>(rt: Runtime<V>, s: RwSignal): V
    requires Valid(rt, s)
  {
    rt.cells[s.id]
  }

  /** `get`: the current value, registering a dependency on the cell. */
  function Get<V>(rt: Runtime<V>, s: RwSignal): (res: (V, Runtime<V>))
    requires Valid(rt, s)
    ensures res.0 == GetUntracked(rt, s)
    ensures res.1.cells == rt.cells && res.1.effects == rt.effects + [Track(s.id)]
  {
    (rt.cells[s.id], rt.(effects := rt.effects + [Track(s.id)]))
  }

  /** `set_untracked`: the cell holds `value`, no other cell changes, and
      nobody is notified. */
  function SetUntracked<V>(rt: Runtime<V>, s: RwSignal, value: V): (rt': Runtime<V>)
    requires Valid(rt, s)
    ensures Valid(rt', s) && GetUntracked(rt', s) == value
    ensures |rt'.cells| == |rt.cells|
    ensures forall k :: 0 <= k < |rt.cells| && k != s.id ==> rt'.cells[k] == rt.cells[k]
    ensures rt'.effects == rt.effects
  {
    rt.(cells := rt.cells[s.id := value])
  }

  /** `set`: as `set_untracked`, and the cell's dependents are notified. */
  function Set<V>(rt: Runtime<V>, s: RwSignal, value: V): (rt': Runtime<V>)
    requires Valid(rt, s)
    ensures Valid(rt', s) && GetUntracked(rt', s) == value
    ensures |rt'.cells| == |rt.cells|
    ensures forall k :: 0 <= k < |rt.cells| && k != s.id ==> rt'.cells[k] == rt.cells[k]
    ensures rt'.effects == rt.effects + [Notify(s.id)]
  {
    Runtime(rt.cells[s.id := value], rt.effects + [Notify(s.id)])
  }

  /** `update_untracked(f)`: the cell holds `f` of its old value. */
  function UpdateUntracked<V>(rt: Runtime<V>, s: RwSignal, f: V -> V): (rt': Runtime<V>)
    requires Valid(rt, s)
    ensures Valid(rt', s) && GetUntracked(rt', s) == f(GetUntracked(rt, s))
    ensures |rt'.cells| == |rt.cells|
    ensures forall k :: 0 <= k < |rt.cells| && k != s.id ==> rt'.cells[k] == rt.cells[k]
    ensures rt'.effects == rt.effects
  {
    rt.(cells := rt.cells[s.id := f(rt.cells[s.id])])
  }

  /** `update(f)`: as `update_untracked`, and the dependents are notified. */
  function Update<V>(rt: Runtime<V>, s: RwSignal, f: V -> V): (rt': Runtime<V>)
    requires Valid(rt, s)
    ensures Valid(rt', s) && GetUntracked(rt', s) == f(GetUntracked(rt, s))
    ensures |rt'.cells| == |rt.cells|
    ensures forall k :: 0 <= k < |rt.cells| && k != s.id ==> rt'.cells[k] == rt.cells[k]
    ensures rt'.effects == rt.effects + [Notify(s.id)]
  {
    Runtime(rt.cells[s.id := f(rt.cells[s.id])], rt.effects + [Notify(s.id)])
  }
}
