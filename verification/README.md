# leptos-controls: the `Controls` derive, modelled in Dafny

leptos-controls turns a plain Rust record into a bundle of reactive form
fields. `#[derive(Controls)]` on `struct LoginArgs { account: String, .. }`
emits three things:

- one zero-sized marker type per field, such as `LoginArgsAccount`;
- for each marker, a `FieldMeta` impl holding its `LABEL`, `REQUIRED` and
  `VALIDATE` constants;
- the aggregate `LoginArgsControls`, with one `RwSignalField<Marker, Ty>` per
  field and the operations `new`, `set_default`, `snapshot` and `validate`.

The runtime crate provides the two field bindings. `RwSignalField` is a
mutable handle on a reactive cell. `SignalField` is a read-only derived
signal. Both implement the `Field` trait: `label`, `required`, `validate` and
`set_default`.

The model has two layers.

- **Compile time.** The parsed derive input is data (`Options`).
- **Run time.** A Rust type parameter becomes a datatype argument:
  - A marker's constants become a `FieldMeta<V>` value.
  - The compiler's resolution of `T::default()` and of validator paths
    becomes an environment, `Env<V>`.
  - The leptos runtime becomes an arena of cells (`Reactive`).
    - Signals are copyable ids into that arena.
    - Tracked reads record `Track(id)`; writes that notify record
      `Notify(id)`.

| module | file | models |
|---|---|---|
| `Wrappers` | wrappers.dfy | `Option`, `Result` |
| `Naming` | naming.dfy | `struct_ident`: splitting on `_`, capitalising, the panic on an empty piece |
| `Options` | options.dfy | `ControlOptions`, `ControlFieldOptions`, `verify`, `control_struct_ident`, `field_tokens`, `label` |
| `Meta` | meta.dfy | the `FieldMeta` constants and the compile-time environment |
| `Items` | items.dfy | the emitted items, abstracted from their tokens |
| `FieldStruct` | field_struct.dfy | the marker structs and `FieldMeta` impls (macro/src/field.rs) |
| `ControlStruct` | control_struct.dfy | the aggregate struct and impl (macro/src/control.rs) |
| `Expand` | expand.dfy | `derive`, `try_expand`, `fallback` |
| `Reactive` | reactive.dfy | `create_rw_signal`, `get`, `set`, `update` and their untracked forms |
| `RwSignalFields` | rw_signal.dfy | `RwSignalField` |
| `SignalFields` | signal.dfy | `SignalField` |
| `Field` | field.dfy | the `Field` trait over both bindings |
| `Aggregate` | aggregate.dfy | what the generated `new`, `set_default`, `snapshot` and `validate` do at run time |
| `Login` | login.dfy | the `LoginArgs` example end to end |

Where the derive's behaviour differs from what its documentation suggests,
the model follows the code:

- `readonly = true` is parsed but never consulted. Every member is an
  `RwSignalField`, and `set_default` resets it too (`Expand.ReadonlyNotConsulted`).
- The record-level `#[controls(validate = ..)]` is never consulted
  (`Expand.RecordValidateNotConsulted`).
- A field without a `label` is labelled with its raw identifier. It is not
  capitalised.
- When a field has a validator but no message, the error is its label
  followed by `校验失败!`.
- `struct_ident` panics on identifiers with an empty `_`-piece, such as
  `_id`, `id_` and `a__b`. The derive then panics instead of emitting a
  diagnostic. This is modelled as the `Panicked` outcome.
- Marker names are not collision-free. `struct_ident` drops each `_` and
  upper-cases the character after it, which leaves a digit as it is: `a_1`
  and `a1` both give `<Record>A1`, and `foo_bar` and `fooBar` both give
  `<Record>FooBar`. Scoping by the record name does not help across records
  either: field `b_c` of `Foo` and field `c` of `FooB` both give `FooBC`.
  A field named `controls` gets `<Record>Controls`, which is also the
  aggregate's name, so the derive declares two types of that name. See
  "## Findings".
- In examples/login.rs the comment at line 51 promises
  `account: "admin", password: "123456"`. The code writes both values to
  `account`, so the snapshot is `account: "123456", password: ""`
  (`Login.SnapshotAfterWrites`).
- macro/src/expand.rs, field.rs and control.rs name the options type
  `FormOptions` and call `FormOptions::validate` from `try_expand`.
  macro/src/options.rs declares `ControlOptions`, whose check is `verify`.
  The model uses `ControlOptions` and `verify`.

## Model

| member | source | states |
|---|---|---|
| Naming.ToUpper | macro/src/options.rs:145-148 | each lower-case ASCII letter becomes the upper-case letter at the same position in the alphabet; every other character is returned unchanged |
| Naming.UpperAll | macro/src/options.rs:145 | `to_uppercase` keeps the length and upper-cases each character |
| Naming.Split | macro/src/options.rs:141-142 | `split('_')` yields one more piece than there are separators; no piece contains the separator; joining the pieces gives back the input; the first piece is empty exactly when the input is empty or starts with `_` |
| Naming.Capitalize | macro/src/options.rs:143-150 | a piece is capitalised exactly when it is non-empty: same length, first character upper-cased, the rest unchanged |
| Naming.CapitalizeAll | macro/src/options.rs:143-152 | the capitalised pieces can be concatenated exactly when no piece is empty |
| Naming.CamelCase | macro/src/options.rs:141-152 | the reference camel-case suffix contains no `_` and is shorter than the identifier by the number of `_` |
| Naming.StructIdent | macro/src/options.rs:139-154 | a marker name exists exactly for `Nameable` identifiers; it is the parent name followed by the camel-case of the identifier, has no `_` after the parent, and has the length of parent plus identifier minus the `_` |
| Naming.LaterPiecesNonEmpty | macro/src/options.rs:141-142 | the pieces after the first are all non-empty exactly when every `_` is followed by a character other than `_` |
| Naming.NoEmptyPieceIffNameable | macro/src/options.rs:144-148 | `split_at(1)` panics on some piece exactly when the identifier is not `Nameable` |
| Naming.CamelCaseOfPiece | macro/src/options.rs:143-150 | a piece without `_` passes through the reference camel-case capitalised (when at a piece start) and otherwise unchanged |
| Naming.CapitalizeAllIsCamelCaseOfJoin | macro/src/options.rs:141-152 | on non-empty pieces, capitalise-then-join agrees with the one-character-at-a-time reference camel-case |
| Naming.StructIdentOfWord | macro/src/options.rs:139-154 | a one-word identifier gets the parent name plus the word with its first letter upper-cased |
| Naming.MarkerNamesCollide | macro/src/options.rs:139-154 | the fields `a_1` and `a1` of one record get the same marker name `RA1` |
| Naming.MarkerNamesCollideAcrossRecords | macro/src/options.rs:153 | field `b_c` of `Foo` and field `c` of `FooB` get the same marker name `FooBC` |
| Naming.CamelCaseInjective | macro/src/options.rs:141-152 | on lower-case snake case with no doubled `_`, equal camel-case outputs come from equal inputs |
| Naming.StructIdentInjectiveOnLowerSnake | macro/src/options.rs:139-154 | within one record, distinct `Nameable` lower-case snake-case field names get distinct marker names |
| Naming.StructIdentDisjointAcrossRecords | macro/src/options.rs:153 | when neither record name is a prefix of the other, no field of one gets the marker name of any field of the other |
| Naming.StructIdentAvoidsWord | macro/src/options.rs:139-154 | a lower-case snake-case field other than a one-word name `w` never gets the marker name `w` gets |
| Options.AnyUnnamed | macro/src/options.rs:73 | `any(ident.is_none())` holds exactly when some field has no identifier |
| Options.Verify | macro/src/options.rs:69-80 | the input passes exactly when it is a struct whose fields are all named, and then it is passed through unchanged; an enum gets `unexpected_type("Enum")`; an unnamed field gets `custom("Exists empty ident!")` |
| Options.ControlStructIdent | macro/src/options.rs:54-56 | the aggregate's name is the record's name followed by `Controls` |
| Options.FieldTokens | macro/src/options.rs:58-64 | one identifier per field, in field order |
| Options.Label | macro/src/options.rs:164-172 | the explicit `label` attribute when there is one, otherwise the field name as written |
| Options.ControlStructIdentInjective | macro/src/options.rs:7 | two records whose aggregates share a name share their own name |
| Options.ControlsFieldNamedLikeAggregate | macro/src/options.rs:54-56 | a field named `controls` gets the marker name `<Record>Controls`, the aggregate's own name |
| Options.MarkerNotAggregateOnLowerSnake | macro/src/options.rs:139-154 | every other `Nameable` lower-case snake-case field gets a marker name different from the aggregate's |
| Options.MarkersScopedByRecord | macro/src/options.rs:139-154 | the same field in two differently named records gets two different marker names |
| FieldStruct.MetaOf | macro/src/field.rs:33-73 | `LABEL` is the resolved label; `REQUIRED` holds exactly when a validator is given; `VALIDATE` accepts everything without a validator, and otherwise fails exactly when the predicate fails, reporting the message or the label with `校验失败!` |
| FieldStruct.ConstsOf | macro/src/field.rs:37-70 | `LABEL` is the label; `REQUIRED` holds exactly when a validator is given; the closure accepts everything exactly when there is no validator, and otherwise calls that validator and reports the message, or the label with `校验失败!` |
| FieldStruct.Markers | macro/src/field.rs:23-30 | marker names exist exactly when every field is `Nameable`; there is one per field, and each is that field's `struct_ident` |
| FieldStruct.CollidingNamesDuplicateMarkers | macro/src/field.rs:23-73 | two fields whose names map to one marker name produce the same marker struct twice and two `FieldMeta` impls for one type |
| FieldStruct.MarkersDistinctOnLowerSnake | macro/src/field.rs:23-30 | when the field names are distinct and in lower-case snake case, the emitted marker structs have pairwise distinct names |
| FieldStruct.Tokens | macro/src/field.rs:17-79 | without a panic, the output is `2n` items: the `n` marker structs with the record's visibility, in field order, then the `n` `FieldMeta` impls for the same markers carrying each field's type and constants |
| ControlStruct.Members | macro/src/control.rs:26-33 | one member per field, in field order, with the field's name and type and its marker; every member is an `RwSignalField` |
| ControlStruct.CheckOf | macro/src/control.rs:66-88 | the inline check reads the field's own member and carries the same validator and error text as the field's `VALIDATE` constant |
| ControlStruct.Checks | macro/src/control.rs:62-89 | at most one check per field; there are none exactly when no field has a validator |
| ControlStruct.Tokens | macro/src/control.rs:17-132 | without a panic, the output is the aggregate struct `<Record>Controls`, whose member `i` is an `RwSignalField` of field `i`'s marker and type, then its impl, which destructures and resets every field in order and runs the checks |
| Reactive.CreateRwSignal | core/src/rw_signal.rs:21-26 | a fresh cell that holds the value; existing cells and the effect log are unchanged |
| Reactive.Get | core/src/rw_signal.rs:169-171 | returns the current value, records one `Track` and changes no cell |
| Reactive.SetUntracked | core/src/rw_signal.rs:124-126 | the cell then holds the value; no other cell changes; nothing is recorded |
| Reactive.Set | core/src/rw_signal.rs:139-141 | as `set_untracked`, and one `Notify` of the cell is recorded |
| Reactive.UpdateUntracked | core/src/rw_signal.rs:96-98 | the cell holds `f` of its old value; no other cell changes; nothing is recorded |
| Reactive.Update | core/src/rw_signal.rs:111-113 | as `update_untracked`, and one `Notify` is recorded |
| RwSignalFields.New | core/src/rw_signal.rs:21-26 | a binding on a fresh cell; both reads return the given value; no existing cell changes |
| RwSignalFields.Default | core/src/rw_signal.rs:56-58 | a fresh binding that reads its type's default |
| RwSignalFields.SetDefault | core/src/rw_signal.rs:46-48 | the binding then reads its type's default; no other cell changes; its dependents are notified once |
| RwSignalFields.WithUntracked | core/src/rw_signal.rs:68-70 | the closure is applied to the current value |
| RwSignalFields.With | core/src/rw_signal.rs:83-85 | the closure is applied to the current value and a `Track` is recorded |
| RwSignalFields.GetUntracked | core/src/rw_signal.rs:154-156 | the untracked read sees what a tracked read sees, and writing the value back untracked leaves the runtime unchanged |
| RwSignalFields.Get | core/src/rw_signal.rs:169-171 | returns the current value and records a `Track` |
| RwSignalFields.SetUntracked | core/src/rw_signal.rs:124-126 | the binding reads the value written; no other cell changes; no notification |
| RwSignalFields.Set | core/src/rw_signal.rs:139-141 | the binding reads the value written; no other cell changes; one notification |
| RwSignalFields.UpdateUntracked | core/src/rw_signal.rs:96-98 | the binding reads `g` of its old value; no other cell changes; no notification |
| RwSignalFields.Update | core/src/rw_signal.rs:111-113 | the binding reads `g` of its old value; no other cell changes; one notification |
| RwSignalFields.CopiesShareCell | core/src/rw_signal.rs:177-191 | a write through a copy is seen by the original and the other way round, tracked or untracked |
| RwSignalFields.SurfaceOfNew | core/src/rw_signal.rs:34-44 | `label` and `required` are the marker's constants whatever is written; `validate` judges the value read untracked and leaves the runtime alone |
| SignalFields.New | core/src/signal.rs:21-26 | a read-only binding whose reads return the construction value |
| SignalFields.SetDefault | core/src/signal.rs:46 | `set_default` leaves the runtime untouched |
| SignalFields.WithUntracked | core/src/signal.rs:73-75 | the closure is applied to the held value |
| SignalFields.With | core/src/signal.rs:88-90 | the closure is applied to the held value |
| SignalFields.SurfaceOfNew | core/src/signal.rs:34-46 | `label` and `required` are the marker's constants, `validate` judges the construction value, and `set_default` leaves the runtime as it was |
| SignalFields.ReadsOfNew | core/src/signal.rs:104-122 | `get`, `get_untracked`, `with` and `with_untracked` all see the construction value, through every copy |
| Field.Validate | core/src/field.rs:14-17 | both binding kinds judge their current value with their marker's `VALIDATE` |
| Field.SetDefault | core/src/field.rs:19-22 | a mutable binding reads its type's default and notifies once; a read-only binding changes nothing |
| Aggregate.ArgsMatchEmitted | macro/src/control.rs:26-33 | the type arguments `new` gives member `i` are those the derive declared: its marker is the `i`-th emitted marker, its constants mean what that marker's `FieldMeta` impl says, and its default is that of the impl's `Type` |
| Aggregate.New | macro/src/control.rs:36-41 | one fresh live member per field, in order, named after the field and holding the record's value for it; existing cells and the effect log are unchanged |
| Aggregate.NewIsFresh | macro/src/control.rs:109-115 | the members of a new aggregate are live and have pairwise distinct cells |
| Aggregate.MemberLabel | core/src/rw_signal.rs:34-36 | `label()` of a generated member is the field's `label` attribute, or its name when there is none |
| Aggregate.MemberRequired | core/src/rw_signal.rs:38-40 | `required()` of a generated member holds exactly when the field has a validator |
| Aggregate.MemberValidate | core/src/rw_signal.rs:42-44 | `validate()` of a freshly generated member reports nothing exactly when the field has no validator or the validator accepts the record's value; otherwise it reports the message, or the label with `校验失败!` |
| Aggregate.SetDefault | macro/src/control.rs:44-49 | every member reads its type's default; no cell outside the members changes; one notification per member, in field order |
| Aggregate.Snapshot | macro/src/control.rs:52-59 | the snapshot has exactly the member names as keys and holds what each member reads untracked; it returns no runtime, so it writes and tracks nothing |
| Aggregate.IndexOf | macro/src/control.rs:82-88 | `self.<name>` resolves to the first member with that name, or to nothing when there is none |
| Aggregate.RunCheckIsMemberValidate | macro/src/control.rs:82-88 | the inline check of a field resolves `self.<field>` to that field's member and reports exactly what the member's own `validate()` reports |
| Aggregate.RunChecks | macro/src/control.rs:90-100 | at most one error per check |
| Aggregate.Validate | macro/src/control.rs:90-100 | at most one error per check; no checks give `vec![]` |
| Aggregate.ExpectedErrorsEmptyIff | macro/src/control.rs:62-100 | the reference error list is empty exactly when every validator accepts its field's value |
| Aggregate.ValidateIsFieldValidation | macro/src/control.rs:62-100 | the aggregate's inline checks report exactly what each member's own `Field::validate` reports, in field order |
| Aggregate.ValidateJudgesSnapshot | macro/src/control.rs:119-128 | `validate` reports the reference errors of `snapshot()`, and reports nothing exactly when every validator accepts its field's current value |
| Aggregate.GeneratedNamesDistinct | macro/src/control.rs:36-41 | distinct field names give distinct member names |
| Aggregate.SnapshotIsRecord | macro/src/control.rs:52-59 | a snapshot equals any record that agrees with every member |
| Aggregate.SnapshotAfterNew | macro/src/control.rs:109-125 | `snapshot(new(r)) == r` |
| Aggregate.SnapshotAfterSet | macro/src/control.rs:119-125 | a write through one member changes that field of the snapshot and no other |
| Aggregate.SetDefaultAfterNew | macro/src/control.rs:116-118 | after `new` then `set_default`, every field reads its type's default, `readonly` or not |
| Aggregate.NewIsGenerated | macro/src/control.rs:109-115 | `new` builds live, distinct-celled members carrying each field's name and marker constants |
| Expand.TryExpand | macro/src/expand.rs:34-39 | a parse error or a failed check is returned as the error; a verified input panics exactly when some field name is not `Nameable`, and otherwise yields the marker items followed by the aggregate items |
| Expand.Derive | macro/src/expand.rs:17-32 | the derive panics exactly for verified inputs with a non-`Nameable` field; a parse error, an enum or an unnamed field yields the matching compile errors, one per diagnostic through `fallback` |
| Expand.FailureEmitsOnlyDiagnostics | macro/src/expand.rs:30-39 | an input that fails to parse or verify yields compile errors and nothing else |
| Expand.DeriveExpands | macro/src/expand.rs:30-39 | an input that verifies and has only `Nameable` names yields exactly the field items followed by the control items |
| Expand.ControlsFieldDuplicatesAggregate | macro/src/expand.rs:36-38 | with a field named `controls`, the output holds a marker struct and the aggregate struct that share the name `<Record>Controls` |
| Expand.MarkersDistinctFromAggregate | macro/src/expand.rs:36-38 | when no field is named `controls` and all names are lower-case snake case, no marker struct shares the aggregate's name |
| Expand.SuccessLayout | macro/src/expand.rs:36-38 | on success: `2n+2` items; `n` marker structs, then `n` meta impls, then the aggregate struct and its impl, both named `<Record>Controls`; no compile error |
| Expand.ReadonlyNotConsulted | macro/src/options.rs:160-162 | changing any field's `readonly` flag changes nothing in the derive's output |
| Expand.RecordValidateNotConsulted | macro/src/options.rs:50-52 | changing the record-level `validate` option changes nothing in the derive's output |
| Login.AggregateName | examples/login.rs:19 | the aggregate of `LoginArgs` is `LoginArgsControls` |
| Login.AccountMarkerName | examples/login.rs:10-11 | the marker of `account` is `LoginArgsAccount` |
| Login.PasswordMarkerName | examples/login.rs:13-14 | the marker of `password` is `LoginArgsPassword` |
| Login.LabelsAndRequired | examples/login.rs:33-47 | labels `账号` and `密码`; `account` is required and `password` is not |
| Login.ValidateBeforeAndAfter | examples/login.rs:18-29 | `["账号不能为空"]` on the default record, `[]` after the account is written |
| Login.SnapshotAfterWrites | examples/login.rs:24-51 | after the two writes the snapshot is `account: "123456", password: ""` |
| Login.SetDefaultResetsBoth | examples/login.rs:53-55 | after `account.set_default()` then `set_default()`, the snapshot is the default record |

## Findings

| source | as written | input that shows it | evidently intended | confidence | as-written member | corrected member |
|---|---|---|---|---|---|---|
| macro/src/options.rs:139-154 | the marker name drops every `_` and upper-cases the next character, which is a no-op on digits and upper-case letters | a record `R` with fields `a_1` and `a1`: both markers are `RA1`, so the derive emits `struct RA1;` twice and two `impl FieldMeta for RA1`, which does not compile | one distinct marker type per field | not executed; high (the collision follows from the code's own steps) | Naming.MarkerNamesCollide | Naming.StructIdentInjectiveOnLowerSnake |
| macro/src/options.rs:153 | the marker name is the record name followed by the camel-cased field name, with no separator | records `Foo` with field `b_c` and `FooB` with field `c`: both markers are `FooBC`, so deriving both in one module declares `struct FooBC;` twice | marker names of different records never meet | not executed; high (the collision follows from the code's own steps) | Naming.MarkerNamesCollideAcrossRecords | Naming.StructIdentDisjointAcrossRecords |
| macro/src/options.rs:54-56 | the aggregate's name is the record name followed by `Controls` (line 7), and a marker's name is the record name followed by the camel-cased field name (line 153), so the two share one name space | a record `Foo` with a field `controls`: the derive emits `struct FooControls;` (macro/src/field.rs:28) and `struct FooControls { .. }` (macro/src/control.rs:104) in one output, which does not compile | no marker shares the aggregate's name | not executed; high (the collision follows from the code's own steps) | Expand.ControlsFieldDuplicatesAggregate | Expand.MarkersDistinctFromAggregate |

Each corrected member states the uniqueness the naming does achieve.
- `Naming.StructIdentInjectiveOnLowerSnake` covers field names within one
  record. It holds for names made of lower-case ASCII letters and single
  inner `_`, which is Rust's snake case without digits.
  `FieldStruct.MarkersDistinctOnLowerSnake` lifts it to the emitted marker
  structs, and `FieldStruct.CollidingNamesDuplicateMarkers` shows what a
  collision emits.
- `Naming.StructIdentDisjointAcrossRecords` covers two records. It holds
  when neither record name is a prefix of the other.
- Even lower-case snake case does not keep a marker apart from the
  aggregate: `controls` is such a name, and it collides.
  `Expand.MarkersDistinctFromAggregate` proves distinctness once that one
  name is excluded.

The model keeps the code's naming everywhere else.

## Left out

- Token generation itself (`quote!`, spans, `#[doc(hidden)]`, derive attributes on the emitted items): items are abstract datatypes, compared by their contents.
- darling's attribute parsing: the model starts from its result, a `Result<ControlOptions, Error>`.
- The leptos runtime's dependency graph, effects and scheduling: only the order of tracked reads and notifying writes is recorded.
- `Path::from_string(validate).unwrap()` (macro/src/field.rs:42 and macro/src/control.rs:73): a malformed validator path panics there; validator paths are opaque names resolved by the environment.
- Raw identifiers (`r#type`) and `format_ident!` validity checks: identifiers are plain strings.
- `try_get`, `try_set` and the other fallible accessors of leptos signals: a disposed runtime is not modelled.
- The `println!` calls and the `Debug` output of examples/login.rs: the model states the values they would print.
- `ControlAttributes` (macro/src/options.rs:83-87): declared but never used.
- Field visibility (`ControlFieldOptions::vis`): parsed but never used by the generated code.
- core/src/thaw.rs, core/src/lib.rs and macro/src/lib.rs: UI-library glue and re-exports with no behaviour of their own.
- Naming.ToUpper: upper-cases ASCII letters only; Rust's `to_uppercase` also maps non-ASCII letters, some to several characters.
- Naming.Capitalize: treats `split_at(1)` as splitting after one character; Rust splits after one byte and panics on a multi-byte first character.
