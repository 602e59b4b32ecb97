/** The aggregate half of the derive (macro/src/control.rs): the controls
    struct with one binding per field, and its impl. */
module ControlStruct {
  import opened Wrappers
  import opened Options
  import opened Items
  import Naming
  import FieldStruct

  /** The members of the aggregate, in field order (control.rs:26-33). Every
      member is an `RwSignalField`: the `readonly` flag is not consulted.
      `None` when naming a marker panics. */
  function Members(record: string, fields: seq<FieldOptions>): (members: Option<seq<MemberDecl>>)
    requires Named(fields)
    ensures members.Some? <==> forall i :: 0 <= i < |fields| ==> Naming.Nameable(Ident(fields[i]))
    ensures members.Some? ==> |members.value| == |fields|
    ensures members.Some? ==> forall i :: 0 <= i < |fields| ==>
      && members.value[i].ident == Ident(fields[i])
      && members.value[i].kind == RwSignalKind
      && FieldStructIdent(fields[i], record) == Some(members.value[i].marker)
      && members.value[i].ty == fields[i].ty
  {
    if |fields| == 0 then Some([])
    else
      match FieldStructIdent(fields[0], record)
      case None => None
      case Some(marker) =>
        match Members(record, fields[1..])
        case None => None
        case Some(rest) =>
          assert forall i :: 1 <= i < |fields| ==> fields[1..][i - 1] == fields[i];
          Some([MemberDecl(Ident(fields[0]), RwSignalKind, marker, fields[0].ty)] + rest)
  }

  /** The inline check emitted for a field with a validator
      (control.rs:66-88): the message, or the label with the failure
      suffix, when the predicate fails. */
  function CheckOf(f: FieldOptions): (c: ValidateStmt)
    requires f.ident.Some? && f.validate.Some?
    ensures c.member == Ident(f)
    ensures FieldStruct.ConstsOf(f).validate == Check(c.validator, c.error)
  {
    var error := match f.message
      case Some(message) => message
      case None => Label(f) + FieldStruct.FailureSuffix;
    ValidateStmt(Ident(f), f.validate.value, error)
  }

  /** The checks of the generated `validate`: the fields that have a
      validator, in field order (control.rs:62-65). */
  function Checks(fields: seq<FieldOptions>): (checks: seq<ValidateStmt>)
    requires Named(fields)
    ensures |checks| <= |fields|
    ensures (forall i :: 0 <= i < |fields| ==> fields[i].validate.None?) <==> |checks| == 0
  {
    if |fields| == 0 then []
    else
      var head := if fields[0].validate.Some? then [CheckOf(fields[0])] else [];
      var rest := Checks(fields[1..]);
      assert forall i :: 1 <= i < |fields| ==> fields[1..][i - 1] == fields[i];
      head + rest
  }

  /** `TokenStream::from(ControlStruct)` (control.rs:17-132): the aggregate
      struct `<Record>Controls` with one `RwSignalField` member per field in
      field order, then its impl, whose `new` and `snapshot` go through every
      field, whose `set_default` resets every member, and whose `validate`
      runs the checks; `None` when naming panics. */
  function Tokens(o: ControlOptions): (items: Option<seq<Item>>)
    requires Verified(o)
    ensures items.Some? <==> forall i :: 0 <= i < |Fields(o)| ==> Naming.Nameable(Ident(Fields(o)[i]))
    ensures items.Some? ==> |items.value| == 2
    ensures items.Some? ==>
      && items.value[0].AggregateStruct?
      && items.value[0].vis == o.vis
      && items.value[0].name == ControlStructIdent(o)
      && |items.value[0].members| == |Fields(o)|
      && (forall i :: 0 <= i < |Fields(o)| ==>
            items.value[0].members[i].ident == Ident(Fields(o)[i])
            && items.value[0].members[i].kind == RwSignalKind
            && items.value[0].members[i].ty == Fields(o)[i].ty
            && FieldStructIdent(Fields(o)[i], o.ident) == Some(items.value[0].members[i].marker))
    ensures items.Some? ==>
      && items.value[1].AggregateImpl?
      && items.value[1].name == ControlStructIdent(o)
      && items.value[1].record == o.ident
      && items.value[1].fields == items.value[1].resets == FieldTokens(Fields(o))
      && items.value[1].checks == Checks(Fields(o))
  {
    var fields := Fields(o);
    var name := ControlStructIdent(o);
    match Members(o.ident, fields)
    case None => None
    case Some(members) =>
      var idents := FieldTokens(fields);
      Some([AggregateStruct(o.vis, name, members), AggregateImpl(name, o.ident, idents, idents, Checks(fields))])
  }
}
