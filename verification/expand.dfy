/** The derive's pipeline (macro/src/expand.rs): verify the parsed input,
    then emit the metadata items followed by the aggregate items, or emit
    only the diagnostics. */
module Expand {
  import opened Wrappers
  import opened Options
  import opened Items
  import Naming
  import FieldStruct
  import ControlStruct

  /** How `try_expand` ends: with items, with an error, or in a panic of
      the naming code. */
  datatype Expansion = Expanded(items: seq<Item>) | Failed(error: Error) | Panicked

  /** What the compiler receives from `derive`: items, or a panic. */
  datatype Output = Emit(items: seq<Item>) | Panic

  /** No field name makes `struct_ident` panic. */
  predicate AllNameable(o: ControlOptions)
    requires Verified(o)
  {
    forall i :: 0 <= i < |Fields(o)| ==> Naming.Nameable(Ident(Fields(o)[i]))
  }

  /** `fallback` (expand.rs:17-19): `write_errors`, one compile error per
      diagnostic. */
  function Fallback(e: Error): (items: seq<Item>)
    ensures |items| == |e.diagnostics|
    ensures forall i :: 0 <= i < |items| ==> items[i] == CompileError(e.diagnostics[i])
  {
    seq(|e.diagnostics|, i requires 0 <= i < |e.diagnostics| => CompileError(e.diagnostics[i]))
  }

  /** `try_expand` (expand.rs:34-39): the parse result (darling's
      `from_derive_input`, outside this model) is verified, and `?` returns
      its error before anything is generated; otherwise the metadata items
      come first and the aggregate items after them. */
  function TryExpand(parsed: Result<ControlOptions, Error>): (x: Expansion)
    ensures parsed.Err? ==> x == Failed(parsed.error)
    ensures parsed.Ok? && !Verified(parsed.value) ==> x == Failed(Verify(parsed.value).error)
    ensures parsed.Ok? && Verified(parsed.value) ==> (x.Panicked? <==> !AllNameable(parsed.value))
    ensures parsed.Ok? && Verified(parsed.value) && AllNameable(parsed.value) ==> x.Expanded?
    ensures x.Expanded? ==>
      && parsed.Ok? && Verified(parsed.value)
      && FieldStruct.Tokens(parsed.value).Some? && ControlStruct.Tokens(parsed.value).Some?
      && x.items == FieldStruct.Tokens(parsed.value).value + ControlStruct.Tokens(parsed.value).value
  {
    match parsed
    case Err(e) => Failed(e)
    case Ok(input) =>
      match Verify(input)
      case Err(e) => Failed(e)
      case Ok(o) =>
        match FieldStruct.Tokens(o)
        case None => Panicked
        case Some(fieldItems) =>
          match ControlStruct.Tokens(o)
          case None => Panicked
          case Some(controlItems) => Expanded(fieldItems + controlItems)
  }

  /** `derive` (expand.rs:30-32): an error is turned into diagnostics, so
      the derive only fails to produce items when the naming code panics. */
  function Derive(parsed: Result<ControlOptions, Error>): (out: Output)
    ensures out.Panic? <==> parsed.Ok? && Verified(parsed.value) && !AllNameable(parsed.value)
    ensures parsed.Err? ==> out == Emit(Fallback(parsed.error))
    ensures parsed.Ok? && parsed.value.data.Enum? ==> out == Emit([CompileError(UnexpectedType("Enum"))])
    ensures parsed.Ok? && parsed.value.data.Struct? && !Named(parsed.value.data.fields) ==>
      out == Emit([CompileError(Custom("Exists empty ident!"))])
  {
    match TryExpand(parsed)
    case Expanded(items) => Emit(items)
    case Failed(e) => Emit(Fallback(e))
    case Panicked => Panic
  }

  /** A failed verification yields diagnostics only: no marker, no impl and
      no aggregate item. */
  lemma FailureEmitsOnlyDiagnostics(parsed: Result<ControlOptions, Error>)
    requires parsed.Err? || !Verified(parsed.value)
    ensures Derive(parsed).Emit?
    ensures forall i :: 0 <= i < |Derive(parsed).items| ==> Derive(parsed).items[i].CompileError?
  {
  }

  /** What a verified input whose names do not panic expands to: the
      metadata items followed by the aggregate items. */
  function Emitted(o: ControlOptions): seq<Item>
    requires Verified(o) && AllNameable(o)
  {
    FieldStruct.Tokens(o).value + ControlStruct.Tokens(o).value
  }

  /** Such an input never panics and yields exactly those items. */
  lemma DeriveExpands(o: ControlOptions)
    requires Verified(o) && AllNameable(o)
    ensures Derive(Ok(o)) == Emit(Emitted(o))
  {
  }

  /** The items come in this order: for each field its marker struct, then
      for each field its `FieldMeta` impl, then the aggregate struct and its
      impl; no diagnostic is among them. */
  lemma SuccessLayout(o: ControlOptions)
    requires Verified(o) && AllNameable(o)
    ensures |Emitted(o)| == 2 * |Fields(o)| + 2
    ensures Emitted(o)[..2 * |Fields(o)|] == FieldStruct.Tokens(o).value
    ensures forall i :: 0 <= i < |Fields(o)| ==> Emitted(o)[i].MarkerStruct?
    ensures forall i :: |Fields(o)| <= i < 2 * |Fields(o)| ==> Emitted(o)[i].MetaImpl?
    ensures Emitted(o)[2 * |Fields(o)|] == ControlStruct.Tokens(o).value[0]
    ensures Emitted(o)[2 * |Fields(o)|].AggregateStruct? && Emitted(o)[2 * |Fields(o)|].name == ControlStructIdent(o)
    ensures Emitted(o)[2 * |Fields(o)| + 1].AggregateImpl? && Emitted(o)[2 * |Fields(o)| + 1].name == ControlStructIdent(o)
    ensures forall i :: 0 <= i < |Emitted(o)| ==> !Emitted(o)[i].CompileError?
  {
    var n := |Fields(o)|;
    FieldItemsShape(o);
    ControlItemsShape(o);
    ConcatLayout(FieldStruct.Tokens(o).value, ControlStruct.Tokens(o).value, n, ControlStructIdent(o));
  }

  /** The metadata items: `n` marker structs, then `n` impls. */
  lemma FieldItemsShape(o: ControlOptions)
    requires Verified(o) && AllNameable(o)
    ensures var items := FieldStruct.Tokens(o).value;
      && |items| == 2 * |Fields(o)|
      && (forall i :: 0 <= i < |Fields(o)| ==> items[i].MarkerStruct?)
      && (forall i :: |Fields(o)| <= i < 2 * |Fields(o)| ==> items[i].MetaImpl?)
  {
    var n := |Fields(o)|;
    var items := FieldStruct.Tokens(o).value;
    forall i | n <= i < 2 * n
      ensures items[i].MetaImpl?
    {
      assert items[n + (i - n)].MetaImpl?;
    }
  }

  /** The aggregate items: the struct, then its impl, both named
      `<Record>Controls`. */
  lemma ControlItemsShape(o: ControlOptions)
    requires Verified(o) && AllNameable(o)
    ensures var items := ControlStruct.Tokens(o).value;
      && |items| == 2
      && items[0].AggregateStruct? && items[0].name == ControlStructIdent(o)
      && items[1].AggregateImpl? && items[1].name == ControlStructIdent(o)
  {
  }

  /** Where the parts of a concatenation of the two item lists end up. */
  lemma ConcatLayout(a: seq<Item>, b: seq<Item>, n: nat, name: string)
    requires |a| == 2 * n && |b| == 2
    requires forall i :: 0 <= i < n ==> a[i].MarkerStruct?
    requires forall i :: n <= i < 2 * n ==> a[i].MetaImpl?
    requires b[0].AggregateStruct? && b[0].name == name && b[1].AggregateImpl? && b[1].name == name
    ensures |a + b| == 2 * n + 2
    ensures (a + b)[..2 * n] == a
    ensures forall i :: 0 <= i < n ==> (a + b)[i].MarkerStruct?
    ensures forall i :: n <= i < 2 * n ==> (a + b)[i].MetaImpl?
    ensures (a + b)[2 * n] == b[0]
    ensures (a + b)[2 * n].AggregateStruct? && (a + b)[2 * n].name == name
    ensures (a + b)[2 * n + 1].AggregateImpl? && (a + b)[2 * n + 1].name == name
    ensures forall i :: 0 <= i < |a + b| ==> !(a + b)[i].CompileError?
  {
    assert (a + b)[..2 * n] == a;
    forall i | 0 <= i < |a + b|
      ensures !(a + b)[i].CompileError?
    {
      if i < 2 * n {
        assert (a + b)[i] == a[i];
      } else {
        assert (a + b)[i] == b[i - 2 * n];
      }
    }
  }

  /** A field named `controls` makes the derive emit two items named
      `<Record>Controls`: that field's marker struct and the aggregate
      struct. */
  lemma ControlsFieldDuplicatesAggregate(o: ControlOptions, i: nat)
    requires Verified(o) && AllNameable(o) && i < |Fields(o)| && Fields(o)[i].ident == Some("controls")
    ensures Emitted(o)[i].MarkerStruct? && Emitted(o)[2 * |Fields(o)|].AggregateStruct?
    ensures Emitted(o)[i].name == Emitted(o)[2 * |Fields(o)|].name == ControlStructIdent(o)
  {
    SuccessLayout(o);
    ControlsFieldNamedLikeAggregate(Fields(o)[i], o);
    assert Emitted(o)[i] == Emitted(o)[..2 * |Fields(o)|][i];
  }

  /** Without a field named `controls`, no marker struct of lower-case
      snake-case fields shares the aggregate's name. */
  lemma MarkersDistinctFromAggregate(o: ControlOptions)
    requires Verified(o) && AllNameable(o)
    requires forall i :: 0 <= i < |Fields(o)| ==> Naming.LowerSnake(Ident(Fields(o)[i])) && Ident(Fields(o)[i]) != "controls"
    ensures forall i :: 0 <= i < |Fields(o)| ==>
      Emitted(o)[i].MarkerStruct? && Emitted(o)[i].name != Emitted(o)[2 * |Fields(o)|].name
  {
    SuccessLayout(o);
    var n := |Fields(o)|;
    forall i | 0 <= i < n
      ensures Emitted(o)[i].MarkerStruct? && Emitted(o)[i].name != Emitted(o)[2 * n].name
    {
      MarkerNotAggregateOnLowerSnake(Fields(o)[i], o);
      assert Emitted(o)[i] == Emitted(o)[..2 * n][i];
    }
  }

  /** `fields` and `other` differ at most in their `readonly` flags. */
  predicate SameButReadonly(fields: seq<FieldOptions>, other: seq<FieldOptions>)
  {
    && |fields| == |other|
    && forall i :: 0 <= i < |fields| ==>
         && other[i].vis == fields[i].vis && other[i].ident == fields[i].ident && other[i].ty == fields[i].ty
         && other[i].labelText == fields[i].labelText && other[i].validate == fields[i].validate
         && other[i].message == fields[i].message
  }

  lemma {:induction false} ChecksIgnoreReadonly(fields: seq<FieldOptions>, other: seq<FieldOptions>)
    requires Named(fields) && SameButReadonly(fields, other)
    ensures Named(other) && ControlStruct.Checks(fields) == ControlStruct.Checks(other)
    decreases |fields|
  {
    if |fields| > 0 {
      SameButReadonlyTail(fields, other);
      ChecksIgnoreReadonly(fields[1..], other[1..]);
      assert Ident(fields[0]) == Ident(other[0]) && Label(fields[0]) == Label(other[0]);
    }
  }

  lemma SameButReadonlyTail(fields: seq<FieldOptions>, other: seq<FieldOptions>)
    requires |fields| > 0 && SameButReadonly(fields, other)
    ensures SameButReadonly(fields[1..], other[1..])
  {
    assert forall i :: 0 <= i < |fields| - 1 ==> fields[1..][i] == fields[i + 1] && other[1..][i] == other[i + 1];
  }

  lemma {:induction false} MarkersIgnoreReadonly(record: string, fields: seq<FieldOptions>, other: seq<FieldOptions>)
    requires Named(fields) && SameButReadonly(fields, other)
    ensures Named(other) && FieldStruct.Markers(record, fields) == FieldStruct.Markers(record, other)
    decreases |fields|
  {
    if |fields| > 0 {
      SameButReadonlyTail(fields, other);
      MarkersIgnoreReadonly(record, fields[1..], other[1..]);
      assert Ident(fields[0]) == Ident(other[0]);
    }
  }

  lemma ConstsIgnoreReadonly(f: FieldOptions, g: FieldOptions)
    requires f.ident.Some? && g.vis == f.vis && g.ident == f.ident && g.ty == f.ty
    requires g.labelText == f.labelText && g.validate == f.validate && g.message == f.message
    ensures FieldStruct.ConstsOf(f) == FieldStruct.ConstsOf(g)
  {
    assert Label(f) == Label(g);
  }

  lemma FieldItemsIgnoreReadonly(o: ControlOptions, other: seq<FieldOptions>)
    requires Verified(o) && SameButReadonly(Fields(o), other)
    ensures Verified(o.(data := Struct(other)))
    ensures FieldStruct.Tokens(o) == FieldStruct.Tokens(o.(data := Struct(other)))
  {
    var p := o.(data := Struct(other));
    var fields := Fields(o);
    assert Fields(p) == other;
    MarkersIgnoreReadonly(o.ident, fields, other);
    match FieldStruct.Markers(o.ident, fields)
    case None =>
    case Some(names) =>
      var impls := seq(|fields|, i requires 0 <= i < |fields| => MetaImpl(names[i], fields[i].ty, FieldStruct.ConstsOf(fields[i])));
      var impls' := seq(|other|, i requires 0 <= i < |other| => MetaImpl(names[i], other[i].ty, FieldStruct.ConstsOf(other[i])));
      forall i | 0 <= i < |fields|
        ensures impls[i] == impls'[i]
      {
        ConstsIgnoreReadonly(fields[i], other[i]);
      }
      assert impls == impls';
  }

  lemma {:induction false} MembersIgnoreReadonly(record: string, fields: seq<FieldOptions>, other: seq<FieldOptions>)
    requires Named(fields) && SameButReadonly(fields, other)
    ensures Named(other) && ControlStruct.Members(record, fields) == ControlStruct.Members(record, other)
    decreases |fields|
  {
    if |fields| > 0 {
      SameButReadonlyTail(fields, other);
      MembersIgnoreReadonly(record, fields[1..], other[1..]);
      assert Ident(fields[0]) == Ident(other[0]);
    }
  }

  lemma FieldTokensIgnoreReadonly(fields: seq<FieldOptions>, other: seq<FieldOptions>)
    requires Named(fields) && SameButReadonly(fields, other)
    ensures Named(other) && FieldTokens(fields) == FieldTokens(other)
  {
    assert forall i :: 0 <= i < |fields| ==> Ident(fields[i]) == Ident(other[i]);
  }

  lemma ControlItemsIgnoreReadonly(o: ControlOptions, other: seq<FieldOptions>)
    requires Verified(o) && SameButReadonly(Fields(o), other)
    ensures Verified(o.(data := Struct(other)))
    ensures ControlStruct.Tokens(o) == ControlStruct.Tokens(o.(data := Struct(other)))
  {
    var p := o.(data := Struct(other));
    assert Fields(p) == other;
    ChecksIgnoreReadonly(Fields(o), other);
    FieldTokensIgnoreReadonly(Fields(o), other);
    MembersIgnoreReadonly(o.ident, Fields(o), other);
    assert ControlStructIdent(o) == ControlStructIdent(p);
  }

  /** The `readonly` flag is parsed but never consulted: flipping it on any
      field changes nothing the derive emits. */
  lemma ReadonlyNotConsulted(o: ControlOptions, other: seq<FieldOptions>)
    requires Verified(o) && SameButReadonly(Fields(o), other)
    ensures Derive(Ok(o)) == Derive(Ok(o.(data := Struct(other))))
  {
    FieldItemsIgnoreReadonly(o, other);
    ControlItemsIgnoreReadonly(o, other);
  }

  /** The record-level `validate` option is never consulted either. */
  lemma RecordValidateNotConsulted(o: ControlOptions, validate: Option<string>)
    ensures Derive(Ok(o)) == Derive(Ok(o.(validate := validate)))
  {
    var p := o.(validate := validate);
    if Verified(o) {
      assert Fields(p) == Fields(o);
      assert ControlStructIdent(p) == ControlStructIdent(o);
      assert FieldStruct.Tokens(o) == FieldStruct.Tokens(p);
      assert ControlStruct.Tokens(o) == ControlStruct.Tokens(p);
    }
  }
}
