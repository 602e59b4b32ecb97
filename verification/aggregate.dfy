/** What the generated `<Record>Controls` does at run time
    (macro/src/control.rs:102-130): `new`, `set_default`, `snapshot` and
    `validate` over one `RwSignalField` per field. */
module Aggregate {
  import opened Wrappers
  import opened Options
  import opened Items
  import opened Meta
  import R = Reactive
  import RF = RwSignalFields
  import FieldStruct
  import ControlStruct

  /** A member of the aggregate: the field's name and its binding. */
  datatype Member<!V> = Member(ident: string, field: RF.RwSignalField<V>)

  /** `<Record>Controls`: a copyable bundle of handles, in field order. */
  datatype Controls<!V> = Controls(members: seq<Member<V>>)

  /** A value of the record: its field values by name. */
  type Record<V> = map<string, V>

  predicate Live<V>(rt: R.Runtime<V>, ms: seq<Member<V>>)
  {
    forall i :: 0 <= i < |ms| ==> RF.Valid(rt, ms[i].field)
  }

  predicate DistinctCells<V>(ms: seq<Member<V>>)
  {
    forall i, j :: 0 <= i < |ms| && 0 <= j < |ms| && i != j ==> ms[i].field.value.id != ms[j].field.value.id
  }

  predicate DistinctNames<V>(ms: seq<Member<V>>)
  {
    forall i, j :: 0 <= i < |ms| && 0 <= j < |ms| && i != j ==> ms[i].ident != ms[j].ident
  }

  function Names<V>(ms: seq<Member<V>>): set<string>
  {
    set i | 0 <= i < |ms| :: ms[i].ident
  }

  function CellIds<V>(ms: seq<Member<V>>): set<nat>
  {
    set i | 0 <= i < |ms| :: ms[i].field.value.id
  }

  /** The dependents' notifications of writing every member once, in order. */
  function Notifications<V>(ms: seq<Member<V>>): seq<R.Effect>
  {
    seq(|ms|, i requires 0 <= i < |ms| => R.Notify(ms[i].field.value.id))
  }

  /** The type arguments `RwSignalField<Marker, Ty>` of each member: the
      `FieldMeta` of the field's marker and `Ty::default()`. */
  function ArgsOf<V(!new)>(fields: seq<FieldOptions>, env: Env<V>): (args: seq<RF.TypeArgs<V>>)
    requires Named(fields)
    ensures |args| == |fields|
    ensures forall i :: 0 <= i < |fields| ==>
      args[i] == RF.TypeArgs(FieldStruct.MetaOf(fields[i], env.resolve), env.defaultOf(fields[i].ty))
  {
    seq(|fields|, i requires 0 <= i < |fields| =>
      RF.TypeArgs(FieldStruct.MetaOf(fields[i], env.resolve), env.defaultOf(fields[i].ty)))
  }

  /** Generated `new` (control.rs:36-41, 109-115): the record is
      destructured by field name and each value is wrapped, in field order,
      in a fresh `RwSignalField`. */
  function New<V>(rt: R.Runtime<V>, idents: seq<string>, args: seq<RF.TypeArgs<V>>, r: Record<V>): (res: (R.Runtime<V>, Controls<V>))
    requires |idents| == |args|
    requires forall i :: 0 <= i < |idents| ==> idents[i] in r
    ensures |res.1.members| == |idents|
    ensures forall i :: 0 <= i < |idents| ==>
      && res.1.members[i].ident == idents[i]
      && res.1.members[i].field.args == args[i]
      && res.1.members[i].field.value.id == |rt.cells| + i
    ensures |res.0.cells| == |rt.cells| + |idents| && res.0.cells[..|rt.cells|] == rt.cells
    ensures forall i :: 0 <= i < |idents| ==>
      RF.Valid(res.0, res.1.members[i].field) && RF.GetUntracked(res.0, res.1.members[i].field) == r[idents[i]]
    ensures res.0.effects == rt.effects
    decreases |idents|
  {
    if |idents| == 0 then (rt, Controls([]))
    else
      var (rt1, f) := RF.New(rt, args[0], r[idents[0]]);
      var (rt2, rest) := New(rt1, idents[1..], args[1..], r);
      assert forall i :: 1 <= i < |idents| ==> idents[1..][i - 1] == idents[i];
      (rt2, Controls([Member(idents[0], f)] + rest.members))
  }

  /** Every member of a freshly built aggregate is live and has a cell of
      its own. */
  lemma NewIsFresh<V>(rt: R.Runtime<V>, idents: seq<string>, args: seq<RF.TypeArgs<V>>, r: Record<V>)
    requires |idents| == |args|
    requires forall i :: 0 <= i < |idents| ==> idents[i] in r
    ensures var (rt', c) := New(rt, idents, args, r);
      Live(rt', c.members) && DistinctCells(c.members)
  {
  }

  /** Generated `set_default` (control.rs:44-49, 116-118): `set_default` on
      every member in field order. Afterwards every member holds its type's
      default, no other cell has changed, and the members' dependents have
      been notified in field order. */
  function SetDefault<V>(rt: R.Runtime<V>, ms: seq<Member<V>>): (rt': R.Runtime<V>)
    requires Live(rt, ms)
    ensures Live(rt', ms) && |rt'.cells| == |rt.cells|
    ensures DistinctCells(ms) ==>
      forall i :: 0 <= i < |ms| ==> RF.GetUntracked(rt', ms[i].field) == ms[i].field.args.defaultValue
    ensures forall k :: 0 <= k < |rt.cells| && k !in CellIds(ms) ==> rt'.cells[k] == rt.cells[k]
    ensures rt'.effects == rt.effects + Notifications(ms)
    decreases |ms|
  {
    if |ms| == 0 then rt
    else
      var rt1 := RF.SetDefault(rt, ms[0].field);
      var rt2 := SetDefault(rt1, ms[1..]);
      SetDefaultStep(rt, rt1, rt2, ms);
      rt2
  }

  /** Resetting the first member and then the rest resets them all: the
      postcondition of `SetDefault` from the first write's and the
      recursive call's. */
  lemma SetDefaultStep<V>(rt: R.Runtime<V>, rt1: R.Runtime<V>, rt2: R.Runtime<V>, ms: seq<Member<V>>)
    requires |ms| > 0 && Live(rt, ms)
    requires RF.Valid(rt1, ms[0].field) && RF.GetUntracked(rt1, ms[0].field) == ms[0].field.args.defaultValue
    requires |rt1.cells| == |rt.cells|
    requires forall k :: 0 <= k < |rt.cells| && k != ms[0].field.value.id ==> rt1.cells[k] == rt.cells[k]
    requires rt1.effects == rt.effects + [R.Notify(ms[0].field.value.id)]
    requires Live(rt2, ms[1..]) && |rt2.cells| == |rt1.cells|
    requires DistinctCells(ms[1..]) ==>
      forall i :: 0 <= i < |ms[1..]| ==> RF.GetUntracked(rt2, ms[1..][i].field) == ms[1..][i].field.args.defaultValue
    requires forall k :: 0 <= k < |rt1.cells| && k !in CellIds(ms[1..]) ==> rt2.cells[k] == rt1.cells[k]
    requires rt2.effects == rt1.effects + Notifications(ms[1..])
    ensures Live(rt2, ms) && |rt2.cells| == |rt.cells|
    ensures DistinctCells(ms) ==>
      forall i :: 0 <= i < |ms| ==> RF.GetUntracked(rt2, ms[i].field) == ms[i].field.args.defaultValue
    ensures forall k :: 0 <= k < |rt.cells| && k !in CellIds(ms) ==> rt2.cells[k] == rt.cells[k]
    ensures rt2.effects == rt.effects + Notifications(ms)
  {
    var rest := ms[1..];
    assert forall i :: 1 <= i < |ms| ==> rest[i - 1] == ms[i];
    assert CellIds(ms) == {ms[0].field.value.id} + CellIds(rest);
    assert Notifications(ms) == [R.Notify(ms[0].field.value.id)] + Notifications(rest);
    if DistinctCells(ms) {
      assert ms[0].field.value.id !in CellIds(rest);
      assert DistinctCells(rest);
    }
  }

  /** Generated `snapshot` (control.rs:52-59, 119-125): every member read
      untracked and the record rebuilt by name. It takes the runtime but
      gives none back, so it neither writes a cell nor registers a
      dependency. */
  function Snapshot<V>(rt: R.Runtime<V>, ms: seq<Member<V>>): (s: Record<V>)
    requires Live(rt, ms)
    ensures s.Keys == Names(ms)
    ensures DistinctNames(ms) ==>
      forall i :: 0 <= i < |ms| ==> s[ms[i].ident] == RF.GetUntracked(rt, ms[i].field)
    decreases |ms|
  {
    if |ms| == 0 then map[]
    else
      var rest := ms[1..];
      assert forall i :: 1 <= i < |ms| ==> rest[i - 1] == ms[i];
      assert Names(ms) == {ms[0].ident} + Names(rest);
      Snapshot(rt, rest)[ms[0].ident := RF.GetUntracked(rt, ms[0].field)]
  }

  /** The position of the first member named `name`: how `self.<name>`
      resolves. */
  function IndexOf<V>(ms: seq<Member<V>>, name: string): (r: Option<nat>)
    ensures r.Some? ==> r.value < |ms| && ms[r.value].ident == name
    ensures r.Some? ==> forall j :: 0 <= j < r.value ==> ms[j].ident != name
    ensures r.None? ==> forall j :: 0 <= j < |ms| ==> ms[j].ident != name
    decreases |ms|
  {
    if |ms| == 0 then None
    else if ms[0].ident == name then Some(0)
    else
      match IndexOf(ms[1..], name)
      case None => None
      case Some(i) => Some(i + 1)
  }

  predicate Resolvable<V>(ms: seq<Member<V>>, checks: seq<ValidateStmt>)
  {
    forall j :: 0 <= j < |checks| ==> IndexOf(ms, checks[j].member).Some?
  }

  /** One inline check (control.rs:82-88): the member read untracked, the
      validator applied, the error reported when it fails. */
  function RunCheck<V>(rt: R.Runtime<V>, ms: seq<Member<V>>, s: ValidateStmt, resolve: string -> (V -> bool)): Option<string>
    requires Live(rt, ms) && IndexOf(ms, s.member).Some?
  {
    var m := ms[IndexOf(ms, s.member).value];
    if resolve(s.validator)(RF.GetUntracked(rt, m.field)) then None else Some(s.error)
  }

  /** An `Option<String>` flattened into the error list. */
  function Reported(e: Option<string>): seq<string>
  {
    match e
    case None => []
    case Some(text) => [text]
  }

  /** `vec![..].into_iter().flatten().collect()`: the reported errors in the
      order of the checks. */
  function RunChecks<V>(rt: R.Runtime<V>, ms: seq<Member<V>>, checks: seq<ValidateStmt>, resolve: string -> (V -> bool)): (errors: seq<string>)
    requires Live(rt, ms) && Resolvable(ms, checks)
    ensures |errors| <= |checks|
    decreases |checks|
  {
    if |checks| == 0 then []
    else
      assert forall j :: 1 <= j < |checks| ==> checks[1..][j - 1] == checks[j];
      Reported(RunCheck(rt, ms, checks[0], resolve)) + RunChecks(rt, ms, checks[1..], resolve)
  }

  /** Generated `validate` (control.rs:90-100, 126-128): `vec![]` when no
      field has a validator, otherwise the flattened checks. */
  function Validate<V>(rt: R.Runtime<V>, ms: seq<Member<V>>, checks: seq<ValidateStmt>, resolve: string -> (V -> bool)): (errors: seq<string>)
    requires Live(rt, ms) && Resolvable(ms, checks)
    ensures |errors| <= |checks|
  {
    if |checks| == 0 then [] else RunChecks(rt, ms, checks, resolve)
  }

  /** Reference definition: every member's own `Field::validate`, in field
      order, keeping the reported errors. */
  function FieldErrors<V>(rt: R.Runtime<V>, ms: seq<Member<V>>): seq<string>
    requires Live(rt, ms)
    decreases |ms|
  {
    if |ms| == 0 then []
    else Reported(RF.Validate(rt, ms[0].field)) + FieldErrors(rt, ms[1..])
  }

  /** The members are the generated bindings of `fields`, in order. */
  ghost predicate Generated<V(!new)>(ms: seq<Member<V>>, fields: seq<FieldOptions>, resolve: string -> (V -> bool))
    requires Named(fields)
  {
    && |ms| == |fields|
    && forall i :: 0 <= i < |fields| ==>
         ms[i].ident == Ident(fields[i]) && ms[i].field.args.meta == FieldStruct.MetaOf(fields[i], resolve)
  }

  /** Reference definition of what validating a record should report: for
      each field in order that has a validator which `r`'s value fails, the
      field's message, or its label with the failure suffix. */
  function ExpectedErrors<V>(fields: seq<FieldOptions>, resolve: string -> (V -> bool), r: Record<V>): seq<string>
    requires Named(fields) && forall i :: 0 <= i < |fields| ==> Ident(fields[i]) in r
    decreases |fields|
  {
    if |fields| == 0 then []
    else
      var f := fields[0];
      var failed := f.validate.Some? && !resolve(f.validate.value)(r[Ident(f)]);
      var text := if f.message.Some? then f.message.value else Label(f) + FieldStruct.FailureSuffix;
      (if failed then [text] else []) + ExpectedErrors(fields[1..], resolve, r)
  }

  /** Nothing is expected exactly when every validator accepts its field. */
  lemma {:induction false} ExpectedErrorsEmptyIff<V>(fields: seq<FieldOptions>, resolve: string -> (V -> bool), r: Record<V>)
    requires Named(fields) && forall i :: 0 <= i < |fields| ==> Ident(fields[i]) in r
    ensures ExpectedErrors(fields, resolve, r) == [] <==>
      forall i :: 0 <= i < |fields| && fields[i].validate.Some? ==> resolve(fields[i].validate.value)(r[Ident(fields[i])])
    decreases |fields|
  {
    if |fields| > 0 {
      ExpectedErrorsEmptyIff(fields[1..], resolve, r);
      assert forall i :: 1 <= i < |fields| ==> fields[1..][i - 1] == fields[i];
    }
  }

  /** With distinct field names, `self.<name>` of the `k`-th field is the
      `k`-th member. */
  lemma IndexOfGenerated<V(!new)>(ms: seq<Member<V>>, fields: seq<FieldOptions>, resolve: string -> (V -> bool), k: nat)
    requires Named(fields) && DistinctIdents(fields) && Generated(ms, fields, resolve) && k < |fields|
    ensures IndexOf(ms, Ident(fields[k])) == Some(k)
  {
    assert ms[k].ident == Ident(fields[k]);
  }

  lemma ChecksAt(fields: seq<FieldOptions>, k: nat)
    requires Named(fields) && k < |fields|
    ensures ControlStruct.Checks(fields[k..]) ==
      (if fields[k].validate.Some? then [ControlStruct.CheckOf(fields[k])] else []) + ControlStruct.Checks(fields[k + 1..])
  {
    assert fields[k..][0] == fields[k] && fields[k..][1..] == fields[k + 1..];
  }

  lemma FieldErrorsAt<V>(rt: R.Runtime<V>, ms: seq<Member<V>>, k: nat)
    requires Live(rt, ms) && k < |ms|
    ensures FieldErrors(rt, ms[k..]) == Reported(RF.Validate(rt, ms[k].field)) + FieldErrors(rt, ms[k + 1..])
  {
    assert ms[k..][0] == ms[k] && ms[k..][1..] == ms[k + 1..];
  }

  lemma RunChecksCons<V>(rt: R.Runtime<V>, ms: seq<Member<V>>, check: ValidateStmt, rest: seq<ValidateStmt>, resolve: string -> (V -> bool))
    requires Live(rt, ms) && IndexOf(ms, check.member).Some? && Resolvable(ms, rest)
    ensures Resolvable(ms, [check] + rest)
    ensures RunChecks(rt, ms, [check] + rest, resolve) == Reported(RunCheck(rt, ms, check, resolve)) + RunChecks(rt, ms, rest, resolve)
  {
    var all := [check] + rest;
    assert all[0] == check && all[1..] == rest;
    assert forall j :: 1 <= j < |all| ==> all[j] == rest[j - 1];
  }

  /** A field without a validator: its member reports nothing. */
  lemma UncheckedMemberSilent<V(!new)>(rt: R.Runtime<V>, ms: seq<Member<V>>, fields: seq<FieldOptions>, resolve: string -> (V -> bool), k: nat)
    requires Named(fields) && Generated(ms, fields, resolve) && Live(rt, ms)
    requires k < |fields| && fields[k].validate.None?
    ensures RF.Validate(rt, ms[k].field) == None
  {
    var meta := FieldStruct.MetaOf(fields[k], resolve);
    assert RF.Validate(rt, ms[k].field) == meta.validate(RF.GetUntracked(rt, ms[k].field));
  }

  /** From field `k` on, the inline checks report what the members' own
      `Field::validate` reports. */
  lemma {:induction false} ChecksSuffixAgree<V(!new)>(rt: R.Runtime<V>, ms: seq<Member<V>>, fields: seq<FieldOptions>, resolve: string -> (V -> bool), k: nat)
    requires Named(fields) && DistinctIdents(fields) && Generated(ms, fields, resolve) && Live(rt, ms)
    requires k <= |fields|
    ensures Resolvable(ms, ControlStruct.Checks(fields[k..]))
    ensures RunChecks(rt, ms, ControlStruct.Checks(fields[k..]), resolve) == FieldErrors(rt, ms[k..])
    decreases |fields| - k
  {
    if k == |fields| {
      assert fields[k..] == [];
      assert ms[k..] == [];
    } else {
      ChecksSuffixAgree(rt, ms, fields, resolve, k + 1);
      ChecksAt(fields, k);
      FieldErrorsAt(rt, ms, k);
      if fields[k].validate.Some? {
        IndexOfGenerated(ms, fields, resolve, k);
        var meta := FieldStruct.MetaOf(fields[k], resolve);
        assert RF.Validate(rt, ms[k].field) == meta.validate(RF.GetUntracked(rt, ms[k].field));
        RunChecksCons(rt, ms, ControlStruct.CheckOf(fields[k]), ControlStruct.Checks(fields[k + 1..]), resolve);
      } else {
        UncheckedMemberSilent(rt, ms, fields, resolve, k);
        assert [] + ControlStruct.Checks(fields[k + 1..]) == ControlStruct.Checks(fields[k + 1..]);
      }
    }
  }

  /** The inline checks of the generated `validate` (control.rs) report
      exactly what the members' own `Field::validate`, through the
      `VALIDATE` constants of field.rs, report, in the same order: fields
      without a validator contribute nothing in either. */
  lemma ValidateIsFieldValidation<V(!new)>(rt: R.Runtime<V>, ms: seq<Member<V>>, fields: seq<FieldOptions>, resolve: string -> (V -> bool))
    requires Named(fields) && DistinctIdents(fields) && Generated(ms, fields, resolve) && Live(rt, ms)
    ensures Resolvable(ms, ControlStruct.Checks(fields))
    ensures Validate(rt, ms, ControlStruct.Checks(fields), resolve) == FieldErrors(rt, ms)
  {
    ChecksSuffixAgree(rt, ms, fields, resolve, 0);
    assert fields[0..] == fields;
    assert ms[0..] == ms;
  }

  /** From field `k` on, the members' own validation of the current values
      is the reference validation of the snapshot. */
  lemma {:induction false} FieldErrorsSuffixExpected<V(!new)>(rt: R.Runtime<V>, ms: seq<Member<V>>, fields: seq<FieldOptions>, resolve: string -> (V -> bool), s: Record<V>, k: nat)
    requires Named(fields) && Generated(ms, fields, resolve) && Live(rt, ms)
    requires forall i :: 0 <= i < |fields| ==> Ident(fields[i]) in s && s[Ident(fields[i])] == RF.GetUntracked(rt, ms[i].field)
    requires k <= |fields|
    ensures FieldErrors(rt, ms[k..]) == ExpectedErrors(fields[k..], resolve, s)
    decreases |fields| - k
  {
    if k == |fields| {
      assert fields[k..] == [];
      assert ms[k..] == [];
    } else {
      FieldErrorsSuffixExpected(rt, ms, fields, resolve, s, k + 1);
      assert fields[k..][0] == fields[k] && fields[k..][1..] == fields[k + 1..];
      assert ms[k..][0] == ms[k] && ms[k..][1..] == ms[k + 1..];
      var meta := FieldStruct.MetaOf(fields[k], resolve);
      assert RF.Validate(rt, ms[k].field) == meta.validate(s[Ident(fields[k])]);
    }
  }

  /** The generated `validate`, at any moment, reports the reference errors
      of the record `snapshot` would return at that moment; it is empty
      exactly when every validator accepts its field's current value. */
  lemma ValidateJudgesSnapshot<V(!new)>(rt: R.Runtime<V>, ms: seq<Member<V>>, fields: seq<FieldOptions>, resolve: string -> (V -> bool))
    requires Named(fields) && DistinctIdents(fields) && Generated(ms, fields, resolve) && Live(rt, ms)
    ensures Resolvable(ms, ControlStruct.Checks(fields))
    ensures forall i :: 0 <= i < |fields| ==> Ident(fields[i]) in Snapshot(rt, ms)
    ensures Validate(rt, ms, ControlStruct.Checks(fields), resolve) == ExpectedErrors(fields, resolve, Snapshot(rt, ms))
    ensures Validate(rt, ms, ControlStruct.Checks(fields), resolve) == [] <==>
      forall i :: 0 <= i < |fields| && fields[i].validate.Some? ==>
        resolve(fields[i].validate.value)(RF.GetUntracked(rt, ms[i].field))
  {
    var s := Snapshot(rt, ms);
    assert DistinctNames(ms) by {
      forall i, j | 0 <= i < |ms| && 0 <= j < |ms| && i != j ensures ms[i].ident != ms[j].ident {
        assert fields[i].ident != fields[j].ident;
      }
    }
    assert forall i :: 0 <= i < |fields| ==> ms[i].ident == Ident(fields[i]) && ms[i].ident in Names(ms);
    ValidateIsFieldValidation(rt, ms, fields, resolve);
    FieldErrorsSuffixExpected(rt, ms, fields, resolve, s, 0);
    assert fields[0..] == fields;
    assert ms[0..] == ms;
    ExpectedErrorsEmptyIff(fields, resolve, s);
  }

  /** Distinct field names give distinct member names. */
  lemma GeneratedNamesDistinct<V>(rt: R.Runtime<V>, fields: seq<FieldOptions>, args: seq<RF.TypeArgs<V>>, r: Record<V>)
    requires Named(fields) && DistinctIdents(fields) && |args| == |fields|
    requires forall i :: 0 <= i < |fields| ==> Ident(fields[i]) in r
    ensures DistinctNames(New(rt, FieldTokens(fields), args, r).1.members)
  {
    var ms := New(rt, FieldTokens(fields), args, r).1.members;
    forall i, j | 0 <= i < |ms| && 0 <= j < |ms| && i != j ensures ms[i].ident != ms[j].ident {
      assert fields[i].ident != fields[j].ident;
    }
  }

  /** A snapshot is the record whose every field holds what its member
      reads. */
  lemma SnapshotIsRecord<V>(rt: R.Runtime<V>, ms: seq<Member<V>>, r: Record<V>)
    requires Live(rt, ms) && DistinctNames(ms) && Names(ms) == r.Keys
    requires forall i :: 0 <= i < |ms| ==> RF.GetUntracked(rt, ms[i].field) == r[ms[i].ident]
    ensures Snapshot(rt, ms) == r
  {
    var s := Snapshot(rt, ms);
    forall k | k in r ensures s[k] == r[k] {
      var i :| 0 <= i < |ms| && ms[i].ident == k;
    }
  }

  /** Members named after a list of names carry exactly those names. */
  lemma NamesFollow<V>(ms: seq<Member<V>>, idents: seq<string>)
    requires |ms| == |idents| && forall i :: 0 <= i < |ms| ==> ms[i].ident == idents[i]
    ensures Names(ms) == set i | 0 <= i < |idents| :: idents[i]
    ensures (forall i, j :: 0 <= i < |idents| && 0 <= j < |idents| && i != j ==> idents[i] != idents[j]) ==> DistinctNames(ms)
  {
    forall k | k in set i | 0 <= i < |idents| :: idents[i] ensures k in Names(ms) {
      var i :| 0 <= i < |idents| && idents[i] == k;
      assert ms[i].ident == k;
    }
  }

  /** The members `new` builds carry the record's names. */
  lemma NewNames<V>(rt: R.Runtime<V>, idents: seq<string>, args: seq<RF.TypeArgs<V>>, r: Record<V>)
    requires |idents| == |args|
    requires forall i :: 0 <= i < |idents| ==> idents[i] in r
    requires forall i, j :: 0 <= i < |idents| && 0 <= j < |idents| && i != j ==> idents[i] != idents[j]
    ensures DistinctNames(New(rt, idents, args, r).1.members)
    ensures Names(New(rt, idents, args, r).1.members) == set i | 0 <= i < |idents| :: idents[i]
  {
    NamesFollow(New(rt, idents, args, r).1.members, idents);
  }

  /** The members `new` builds read the record's values. */
  lemma NewValues<V>(rt: R.Runtime<V>, idents: seq<string>, args: seq<RF.TypeArgs<V>>, r: Record<V>)
    requires |idents| == |args|
    requires forall i :: 0 <= i < |idents| ==> idents[i] in r
    ensures var res := New(rt, idents, args, r);
      && Live(res.0, res.1.members)
      && forall i :: 0 <= i < |res.1.members| ==> RF.GetUntracked(res.0, res.1.members[i].field) == r[res.1.members[i].ident]
  {
  }

  /** `snapshot(new(r)) == r`: with no write in between, the snapshot of a
      freshly built aggregate is the record it was built from. */
  lemma SnapshotAfterNew<V>(rt: R.Runtime<V>, fields: seq<FieldOptions>, args: seq<RF.TypeArgs<V>>, r: Record<V>)
    requires Named(fields) && DistinctIdents(fields) && |args| == |fields|
    requires r.Keys == set i | 0 <= i < |fields| :: Ident(fields[i])
    ensures Live(New(rt, FieldTokens(fields), args, r).0, New(rt, FieldTokens(fields), args, r).1.members)
    ensures Snapshot(New(rt, FieldTokens(fields), args, r).0, New(rt, FieldTokens(fields), args, r).1.members) == r
  {
    var idents := FieldTokens(fields);
    assert (set i | 0 <= i < |idents| :: idents[i]) == set i | 0 <= i < |fields| :: Ident(fields[i]);
    assert forall i, j :: 0 <= i < |idents| && 0 <= j < |idents| && i != j ==> idents[i] != idents[j] by {
      forall i, j | 0 <= i < |idents| && 0 <= j < |idents| && i != j ensures idents[i] != idents[j] {
        assert fields[i].ident != fields[j].ident;
      }
    }
    NewNames(rt, idents, args, r);
    NewValues(rt, idents, args, r);
    var res := New(rt, idents, args, r);
    SnapshotIsRecord(res.0, res.1.members, r);
  }

  /** A write through one member changes that field of the snapshot and no
      other. */
  lemma SnapshotAfterSet<V>(rt: R.Runtime<V>, ms: seq<Member<V>>, i: nat, x: V)
    requires Live(rt, ms) && DistinctCells(ms) && DistinctNames(ms) && i < |ms|
    ensures Snapshot(RF.Set(rt, ms[i].field, x), ms) == Snapshot(rt, ms)[ms[i].ident := x]
  {
    var rt' := RF.Set(rt, ms[i].field, x);
    SetReads(rt, ms, i, x);
    var before := Snapshot(rt, ms);
    var after := Snapshot(rt', ms);
    var key := ms[i].ident;
    assert key in Names(ms);
    forall k | k in before && k != key
      ensures after[k] == before[k]
    {
      var j :| 0 <= j < |ms| && ms[j].ident == k;
      assert RF.GetUntracked(rt', ms[j].field) == RF.GetUntracked(rt, ms[j].field);
    }
    UpdatedAt(after, before, key, x);
  }

  /** A map that agrees with `before` except at `key`, where it holds `x`,
      is `before` updated at `key`. */
  lemma UpdatedAt<K, V>(after: map<K, V>, before: map<K, V>, key: K, x: V)
    requires after.Keys == before.Keys && key in before && after[key] == x
    requires forall k :: k in before && k != key ==> after[k] == before[k]
    ensures after == before[key := x]
  {
  }

  /** After writing member `i`, it reads the written value and every other
      member reads as before. */
  lemma SetReads<V>(rt: R.Runtime<V>, ms: seq<Member<V>>, i: nat, x: V)
    requires Live(rt, ms) && DistinctCells(ms) && i < |ms|
    ensures Live(RF.Set(rt, ms[i].field, x), ms)
    ensures forall j :: 0 <= j < |ms| ==>
      RF.GetUntracked(RF.Set(rt, ms[i].field, x), ms[j].field) == if j == i then x else RF.GetUntracked(rt, ms[j].field)
  {
    var rt' := RF.Set(rt, ms[i].field, x);
    forall j | 0 <= j < |ms|
      ensures RF.Valid(rt', ms[j].field)
      ensures RF.GetUntracked(rt', ms[j].field) == if j == i then x else RF.GetUntracked(rt, ms[j].field)
    {
      if j != i {
        SetLeavesOther(rt, ms[i].field, ms[j].field, x);
      }
    }
  }

  /** Writing one cell leaves a binding on another cell reading as before. */
  lemma SetLeavesOther<V>(rt: R.Runtime<V>, f: RF.RwSignalField<V>, g: RF.RwSignalField<V>, x: V)
    requires RF.Valid(rt, f) && RF.Valid(rt, g) && f.value.id != g.value.id
    ensures RF.Valid(RF.Set(rt, f, x), g)
    ensures RF.GetUntracked(RF.Set(rt, f, x), g) == RF.GetUntracked(rt, g)
  {
  }

  /** Generated `set_default` after `new`: every field, `readonly` or not,
      reads its type's default. */
  lemma SetDefaultAfterNew<V(!new)>(rt: R.Runtime<V>, fields: seq<FieldOptions>, env: Env<V>, r: Record<V>)
    requires Named(fields) && DistinctIdents(fields)
    requires forall i :: 0 <= i < |fields| ==> Ident(fields[i]) in r
    ensures var (rt', c) := New(rt, FieldTokens(fields), ArgsOf(fields, env), r);
      var s := Snapshot(SetDefault(rt', c.members), c.members);
      forall i :: 0 <= i < |fields| ==> Ident(fields[i]) in s && s[Ident(fields[i])] == env.defaultOf(fields[i].ty)
  {
    var (rt', c) := New(rt, FieldTokens(fields), ArgsOf(fields, env), r);
    NewIsFresh(rt, FieldTokens(fields), ArgsOf(fields, env), r);
    GeneratedNamesDistinct(rt, fields, ArgsOf(fields, env), r);
    assert forall i :: 0 <= i < |fields| ==> c.members[i].ident == Ident(fields[i]) && c.members[i].ident in Names(c.members);
  }

  /** Every `new` builds members that satisfy the hypotheses of the
      validation lemmas. */
  lemma NewIsGenerated<V(!new)>(rt: R.Runtime<V>, fields: seq<FieldOptions>, env: Env<V>, r: Record<V>)
    requires Named(fields)
    requires forall i :: 0 <= i < |fields| ==> Ident(fields[i]) in r
    ensures var (rt', c) := New(rt, FieldTokens(fields), ArgsOf(fields, env), r);
      Generated(c.members, fields, env.resolve) && Live(rt', c.members)
  {
    NewIsFresh(rt, FieldTokens(fields), ArgsOf(fields, env), r);
  }

  /** The type arguments `new` uses are the ones the derive declared: member
      `i`'s marker is the `i`-th emitted marker, and its constants and
      default are what that marker's `FieldMeta` impl means. */
  lemma ArgsMatchEmitted<V(!new)>(o: ControlOptions, env: Env<V>)
    requires Verified(o) && FieldStruct.Tokens(o).Some?
    ensures ControlStruct.Tokens(o).Some?
    ensures var n := |Fields(o)|;
      var items := FieldStruct.Tokens(o).value;
      var decl := ControlStruct.Tokens(o).value[0];
      var args := ArgsOf(Fields(o), env);
      forall i :: 0 <= i < n ==>
        && items[n + i].MetaImpl?
        && decl.members[i].marker == items[n + i].marker
        && args[i].meta == FieldStruct.Denote(items[n + i].consts, env.resolve)
        && args[i].defaultValue == env.defaultOf(items[n + i].ty)
  {
  }

  /** `label()` of a generated member is the field's `label` attribute, or
      its name when there is none. */
  lemma MemberLabel<V(!new)>(rt: R.Runtime<V>, fields: seq<FieldOptions>, env: Env<V>, r: Record<V>, i: nat)
    requires Named(fields) && forall j :: 0 <= j < |fields| ==> Ident(fields[j]) in r
    requires i < |fields|
    ensures var (rt', c) := New(rt, FieldTokens(fields), ArgsOf(fields, env), r);
      RF.Label(c.members[i].field) == Label(fields[i])
  {
    NewIsGenerated(rt, fields, env, r);
  }

  /** `required()` of a generated member holds exactly when the field has a
      validator. */
  lemma MemberRequired<V(!new)>(rt: R.Runtime<V>, fields: seq<FieldOptions>, env: Env<V>, r: Record<V>, i: nat)
    requires Named(fields) && forall j :: 0 <= j < |fields| ==> Ident(fields[j]) in r
    requires i < |fields|
    ensures var (rt', c) := New(rt, FieldTokens(fields), ArgsOf(fields, env), r);
      RF.Required(c.members[i].field) <==> fields[i].validate.Some?
  {
    NewIsGenerated(rt, fields, env, r);
  }

  /** `validate()` of a freshly generated member judges the record's value:
      nothing when the field has no validator or the validator accepts it,
      otherwise the field's message, or its label with the failure suffix. */
  lemma MemberValidate<V(!new)>(rt: R.Runtime<V>, fields: seq<FieldOptions>, env: Env<V>, r: Record<V>, i: nat)
    requires Named(fields) && forall j :: 0 <= j < |fields| ==> Ident(fields[j]) in r
    requires i < |fields|
    ensures var (rt', c) := New(rt, FieldTokens(fields), ArgsOf(fields, env), r);
      var f := fields[i];
      && RF.Valid(rt', c.members[i].field)
      && (RF.Validate(rt', c.members[i].field).None? <==> f.validate.None? || env.resolve(f.validate.value)(r[Ident(f)]))
      && (RF.Validate(rt', c.members[i].field).Some? ==>
            RF.Validate(rt', c.members[i].field).value == if f.message.Some? then f.message.value else Label(f) + FieldStruct.FailureSuffix)
  {
    var (rt', c) := New(rt, FieldTokens(fields), ArgsOf(fields, env), r);
    NewIsGenerated(rt, fields, env, r);
    assert RF.GetUntracked(rt', c.members[i].field) == r[Ident(fields[i])];
  }

  /** One inline check of the generated `validate` reports what the checked
      member's own `validate` reports. */
  lemma RunCheckIsMemberValidate<V(!new)>(rt: R.Runtime<V>, fields: seq<FieldOptions>, env: Env<V>, r: Record<V>, k: nat)
    requires Named(fields) && DistinctIdents(fields) && forall j :: 0 <= j < |fields| ==> Ident(fields[j]) in r
    requires k < |fields| && fields[k].validate.Some?
    ensures var (rt', c) := New(rt, FieldTokens(fields), ArgsOf(fields, env), r);
      && Live(rt', c.members)
      && IndexOf(c.members, ControlStruct.CheckOf(fields[k]).member) == Some(k)
      && RunCheck(rt', c.members, ControlStruct.CheckOf(fields[k]), env.resolve) == RF.Validate(rt', c.members[k].field)
  {
    var (rt', c) := New(rt, FieldTokens(fields), ArgsOf(fields, env), r);
    NewIsGenerated(rt, fields, env, r);
    IndexOfGenerated(c.members, fields, env.resolve, k);
    MemberValidate(rt, fields, env, r, k);
  }
}
