/** The parsed derive input (macro/src/options.rs): the record, its fields
    with their `#[field(..)]` attributes, and the checks made on it before
    any code is generated. */
module Options {
  import opened Wrappers
  import Naming

  /** `CONTROL_IDENT`, the suffix of the aggregate's name. */
  const ControlIdent: string := "Controls"

  /** `syn::Visibility`: private, `pub`, or `pub(..)` with its path. */
  datatype Visibility = Inherited | Public | Restricted(path: string)

  /** `ControlFieldOptions`: one field of the record. `ident` is absent for a
      tuple field; `ty` is the field's type as written; `labelText` is the
      `label` attribute; `validate` is the path of a predicate over the
      field's value. */
  datatype FieldOptions = FieldOptions(
    vis: Visibility,
    ident: Option<string>,
    ty: string,
    readonly: bool,
    labelText: Option<string>,
    validate: Option<string>,
    message: Option<string>)

  /** `ast::Data`: the shape of the input. */
  datatype Data = Enum | Struct(fields: seq<FieldOptions>)

  /** `ControlOptions`: the record with its `#[controls(validate = ..)]`
      option, which the generated code never consults. */
  datatype ControlOptions = ControlOptions(
    vis: Visibility,
    ident: string,
    data: Data,
    validate: Option<string>)

  /** One diagnostic carried by a `darling::Error`. */
  datatype Diagnostic = UnexpectedType(found: string) | Custom(message: string)

  /** `darling::Error`, which may accumulate several diagnostics. */
  datatype Error = Error(diagnostics: seq<Diagnostic>)

  /** Every field has an identifier. */
  predicate Named(fields: seq<FieldOptions>)
  {
    forall i :: 0 <= i < |fields| ==> fields[i].ident.Some?
  }

  /** The inputs `verify` lets through. */
  predicate Verified(o: ControlOptions)
  {
    o.data.Struct? && Named(o.data.fields)
  }

  /** Rust field names within one struct are distinct. */
  predicate DistinctIdents(fields: seq<FieldOptions>)
  {
    forall i, j :: 0 <= i < |fields| && 0 <= j < |fields| && i != j ==> fields[i].ident != fields[j].ident
  }

  /** `fields.iter().any(|field| field.ident.is_none())`. */
  function AnyUnnamed(fields: seq<FieldOptions>): (b: bool)
    ensures b <==> !Named(fields)
  {
    if |fields| == 0 then false
    else fields[0].ident.None? || AnyUnnamed(fields[1..])
  }

  /** `ControlOptions::verify` (options.rs:69-80): an enum is refused, a
      struct with an unnamed field is refused, anything else passes
      unchanged. */
  function Verify(o: ControlOptions): (r: Result<ControlOptions, Error>)
    ensures r.Ok? <==> Verified(o)
    ensures r.Ok? ==> r.value == o
    ensures o.data.Enum? ==> r == Err(Error([UnexpectedType("Enum")]))
    ensures o.data.Struct? && !Named(o.data.fields) ==> r == Err(Error([Custom("Exists empty ident!")]))
  {
    match o.data
    case Enum => Err(Error([UnexpectedType("Enum")]))
    case Struct(fields) =>
      if AnyUnnamed(fields) then Err(Error([Custom("Exists empty ident!")])) else Ok(o)
  }

  /** `ControlOptions::fields`; an enum is `unreachable!()` there. */
  function Fields(o: ControlOptions): seq<FieldOptions>
    requires o.data.Struct?
  {
    o.data.fields
  }

  /** `ControlFieldOptions::ident`, which panics on an unnamed field. */
  function Ident(f: FieldOptions): string
    requires f.ident.Some?
  {
    f.ident.value
  }

  /** `ControlOptions::control_struct_ident` (options.rs:54-56). */
  function ControlStructIdent(o: ControlOptions): (name: string)
    ensures |name| == |o.ident| + |ControlIdent|
    ensures name[..|o.ident|] == o.ident && name[|o.ident|..] == ControlIdent
  {
    o.ident + ControlIdent
  }

  /** `ControlOptions::field_tokens` (options.rs:58-64): the field names. */
  function FieldTokens(fields: seq<FieldOptions>): (idents: seq<string>)
    requires Named(fields)
    ensures |idents| == |fields|
    ensures forall i :: 0 <= i < |fields| ==> idents[i] == Ident(fields[i])
  {
    if |fields| == 0 then [] else [Ident(fields[0])] + FieldTokens(fields[1..])
  }

  /** `ControlFieldOptions::label` (options.rs:164-172): the explicit label,
      else the identifier as written. */
  function Label(f: FieldOptions): (l: string)
    requires f.ident.Some?
    ensures f.labelText.Some? ==> l == f.labelText.value
    ensures f.labelText.None? ==> l == Ident(f)
  {
    match f.labelText
    case Some(text) => text
    case None => Ident(f)
  }

  /** `ControlFieldOptions::struct_ident` with the record name as parent;
      `None` when it panics. */
  function FieldStructIdent(f: FieldOptions, parent: string): Option<string>
    requires f.ident.Some?
  {
    Naming.StructIdent(parent, Ident(f))
  }

  /** The aggregate's name determines the record's. */
  lemma ControlStructIdentInjective(o: ControlOptions, p: ControlOptions)
    requires ControlStructIdent(o) == ControlStructIdent(p)
    ensures o.ident == p.ident
  {
    var n := ControlStructIdent(o);
    assert |o.ident| == |n| - |ControlIdent| == |p.ident|;
    assert o.ident == n[..|o.ident|] == p.ident;
  }

  /** Marker names are scoped by the record: the same field in two records
      with different names gets two different marker names. */
  lemma MarkersScopedByRecord(f: FieldOptions, p: string, q: string)
    requires f.ident.Some? && Naming.Nameable(Ident(f)) && p != q
    ensures FieldStructIdent(f, p) != FieldStructIdent(f, q)
  {
    var a := FieldStructIdent(f, p).value;
    var b := FieldStructIdent(f, q).value;
    if |p| == |q| {
      assert a[..|p|] == p && b[..|q|] == q;
    } else {
      assert |a| != |b|;
    }
  }

  /** A field named `controls` gets the aggregate's name as its marker
      name: `struct_ident` appends `Controls` to the record name, exactly as
      `control_struct_ident` does. */
  lemma ControlsFieldNamedLikeAggregate(f: FieldOptions, o: ControlOptions)
    requires f.ident == Some("controls")
    ensures FieldStructIdent(f, o.ident) == Some(ControlStructIdent(o))
  {
    Naming.StructIdentOfWord(o.ident, "controls", o.ident + ControlIdent);
  }

  /** Every other lower-case snake-case field gets a marker name distinct
      from the aggregate's. */
  lemma MarkerNotAggregateOnLowerSnake(f: FieldOptions, o: ControlOptions)
    requires f.ident.Some? && Naming.Nameable(Ident(f)) && Naming.LowerSnake(Ident(f)) && Ident(f) != "controls"
    ensures FieldStructIdent(f, o.ident) != Some(ControlStructIdent(o))
  {
    var w := "controls";
    assert Naming.LowerSnake(w);
    assert o.ident + ControlIdent == o.ident + [Naming.ToUpper(w[0])] + w[1..];
    Naming.StructIdentAvoidsWord(o.ident, Ident(f), w);
  }
}
