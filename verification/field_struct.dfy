/** The metadata half of the derive (macro/src/field.rs): one marker type per
    field and the `FieldMeta` constants attached to it. */
module FieldStruct {
  import opened Wrappers
  import opened Options
  import opened Items
  import opened Meta
  import Naming

  /** The text `concat!` appends to the label when a failing field has no
      message of its own. */
  const FailureSuffix: string := "校验失败!"

  /** The `VALIDATE` closure emitted for a field (field.rs:40-64). */
  function ValidateBodyOf(f: FieldOptions): ValidateBody
    requires f.ident.Some?
  {
    match f.validate
    case None => AcceptAll
    case Some(validator) =>
      var error := match f.message
        case Some(message) => message
        case None => Label(f) + FailureSuffix;
      Check(validator, error)
  }

  /** The constants `LABEL`, `REQUIRED`, `VALIDATE` emitted for a field
      (field.rs:37-39, 68-70). */
  function ConstsOf(f: FieldOptions): (c: MetaConsts)
    requires f.ident.Some?
    ensures c.labelText == Label(f)
    ensures c.required <==> f.validate.Some?
    ensures c.validate.AcceptAll? <==> f.validate.None?
    ensures c.validate.Check? ==> c.validate.validator == f.validate.value
    ensures c.validate.Check? && f.message.Some? ==> c.validate.error == f.message.value
    ensures c.validate.Check? && f.message.None? ==> c.validate.error == Label(f) + FailureSuffix
  {
    MetaConsts(Label(f), f.validate.Some?, ValidateBodyOf(f))
  }

  /** What emitted constants mean once the compiler has resolved the
      validator path. */
  function Denote<V>(c: MetaConsts, resolve: string -> (V -> bool)): FieldMeta<V>
  {
    var validate := match c.validate
      case AcceptAll => (v: V) => None
      case Check(validator, error) => (v: V) => if resolve(validator)(v) then None else Some(error);
    FieldMeta(c.labelText, c.required, validate)
  }

  /** The `FieldMeta` of the marker generated for `f`: its label is the
      resolved label, it is required exactly when it has a validator, and its
      `VALIDATE` reports nothing unless a validator exists and fails, in
      which case it reports the message, or the label with the failure
      suffix. */
  function MetaOf<V(!new)>(f: FieldOptions, resolve: string -> (V -> bool)): (m: FieldMeta<V>)
    requires f.ident.Some?
    ensures m.labelText == Label(f)
    ensures m.required <==> f.validate.Some?
    ensures f.validate.None? ==> forall v :: m.validate(v) == None
    ensures f.validate.Some? ==> forall v :: m.validate(v).None? <==> resolve(f.validate.value)(v)
    ensures f.validate.Some? && f.message.Some? ==>
      forall v :: !resolve(f.validate.value)(v) ==> m.validate(v) == Some(f.message.value)
    ensures f.validate.Some? && f.message.None? ==>
      forall v :: !resolve(f.validate.value)(v) ==> m.validate(v) == Some(Label(f) + FailureSuffix)
  {
    Denote(ConstsOf(f), resolve)
  }

  /** The marker names of the fields, in field order; `None` when naming one
      of them panics. */
  function Markers(record: string, fields: seq<FieldOptions>): (names: Option<seq<string>>)
    requires Named(fields)
    ensures names.Some? <==> forall i :: 0 <= i < |fields| ==> Naming.Nameable(Ident(fields[i]))
    ensures names.Some? ==> |names.value| == |fields|
    ensures names.Some? ==> forall i :: 0 <= i < |fields| ==> FieldStructIdent(fields[i], record) == Some(names.value[i])
  {
    if |fields| == 0 then Some([])
    else
      match FieldStructIdent(fields[0], record)
      case None => None
      case Some(name) =>
        match Markers(record, fields[1..])
        case None => None
        case Some(rest) =>
          assert forall i :: 1 <= i < |fields| ==> fields[1..][i - 1] == fields[i];
          Some([name] + rest)
  }

  /** `TokenStream::from(FieldStruct)` (field.rs:17-79): every marker struct,
      in field order, followed by every `FieldMeta` impl, in field order;
      `None` when naming panics. */
  function Tokens(o: ControlOptions): (items: Option<seq<Item>>)
    requires Verified(o)
    ensures items.Some? <==> forall i :: 0 <= i < |Fields(o)| ==> Naming.Nameable(Ident(Fields(o)[i]))
    ensures items.Some? ==> |items.value| == 2 * |Fields(o)|
    ensures items.Some? ==> forall i :: 0 <= i < |Fields(o)| ==>
      && items.value[i].MarkerStruct?
      && items.value[i].vis == o.vis
      && FieldStructIdent(Fields(o)[i], o.ident) == Some(items.value[i].name)
      && items.value[|Fields(o)| + i] == MetaImpl(items.value[i].name, Fields(o)[i].ty, ConstsOf(Fields(o)[i]))
  {
    var fields := Fields(o);
    match Markers(o.ident, fields)
    case None => None
    case Some(names) =>
      var structs := seq(|fields|, i requires 0 <= i < |fields| => MarkerStruct(o.vis, names[i]));
      var impls := seq(|fields|, i requires 0 <= i < |fields| => MetaImpl(names[i], fields[i].ty, ConstsOf(fields[i])));
      Some(structs + impls)
  }

  /** Two fields whose names `struct_ident` maps to the same marker name
      make the derive emit the same marker struct twice and two `FieldMeta`
      impls for one type. */
  lemma CollidingNamesDuplicateMarkers(o: ControlOptions, i: nat, j: nat)
    requires Verified(o) && Tokens(o).Some? && i < |Fields(o)| && j < |Fields(o)|
    requires Naming.StructIdent(o.ident, Ident(Fields(o)[i])) == Naming.StructIdent(o.ident, Ident(Fields(o)[j]))
    ensures Tokens(o).value[i] == Tokens(o).value[j]
    ensures Tokens(o).value[|Fields(o)| + i].marker == Tokens(o).value[|Fields(o)| + j].marker
  {
  }

  /** The names are distinct whenever the field names are distinct and in
      lower-case snake case. */
  lemma MarkersDistinctOnLowerSnake(o: ControlOptions)
    requires Verified(o) && Tokens(o).Some? && DistinctIdents(Fields(o))
    requires forall i :: 0 <= i < |Fields(o)| ==> Naming.LowerSnake(Ident(Fields(o)[i]))
    ensures forall i, j :: 0 <= i < |Fields(o)| && 0 <= j < |Fields(o)| && i != j ==>
      Tokens(o).value[i].name != Tokens(o).value[j].name
  {
    var fields := Fields(o);
    forall i, j | 0 <= i < |fields| && 0 <= j < |fields| && i != j
      ensures Tokens(o).value[i].name != Tokens(o).value[j].name
    {
      Naming.StructIdentInjectiveOnLowerSnake(o.ident, Ident(fields[i]), Ident(fields[j]));
    }
  }
}
