/** The `LoginArgs` example (examples/login.rs): a two-field login form
    whose account must not be empty and whose password is marked
    `readonly`. */
module Login {
  import opened Wrappers
  import opened Options
  import opened Meta
  import R = Reactive
  import RF = RwSignalFields
  import Naming
  import FieldStruct
  import ControlStruct
  import Aggregate

  const Account := FieldOptions(Inherited, Some("account"), "String", false, Some("账号"), Some("is_not_empty"), Some("账号不能为空"))
  const Password := FieldOptions(Inherited, Some("password"), "String", true, Some("密码"), None, None)
  const LoginFields := [Account, Password]
  const LoginArgs := ControlOptions(Public, "LoginArgs", Struct(LoginFields), None)

  /** Field values are `String`s: `String::default()` is the empty text
      and `is_not_empty` accepts exactly the non-empty ones. */
  function LoginEnv(): Env<string>
  {
    Env(_ => "", _ => (text: string) => |text| > 0)
  }

  /** `LoginArgs::default()`. */
  const Defaults: Aggregate.Record<string> := map["account" := "", "password" := ""]

  /** `LoginArgsControls::new(args)` on a runtime `rt0`. */
  function Built(rt0: R.Runtime<string>): (res: (R.Runtime<string>, Aggregate.Controls<string>))
    ensures |res.1.members| == 2 && Aggregate.Live(res.0, res.1.members) && Aggregate.DistinctCells(res.1.members)
  {
    Aggregate.NewIsFresh(rt0, FieldTokens(LoginFields), Aggregate.ArgsOf(LoginFields, LoginEnv()), Defaults);
    Aggregate.New(rt0, FieldTokens(LoginFields), Aggregate.ArgsOf(LoginFields, LoginEnv()), Defaults)
  }

  /** One member per field, in field order. */
  lemma BuiltIdents(rt0: R.Runtime<string>)
    ensures Built(rt0).1.members[0].ident == "account" && Built(rt0).1.members[1].ident == "password"
  {
    var idents := FieldTokens(LoginFields);
    assert idents[0] == "account" && idents[1] == "password";
  }

  /** Each member carries its field's metadata and starts from `""`. */
  lemma BuiltMembers(rt0: R.Runtime<string>)
    ensures var ms := Built(rt0).1.members;
      && ms[0].ident == "account" && ms[1].ident == "password"
      && ms[0].field.args == RF.TypeArgs(FieldStruct.MetaOf(Account, LoginEnv().resolve), "")
      && ms[1].field.args == RF.TypeArgs(FieldStruct.MetaOf(Password, LoginEnv().resolve), "")
  {
    BuiltIdents(rt0);
    var args := Aggregate.ArgsOf(LoginFields, LoginEnv());
    assert args[0] == RF.TypeArgs(FieldStruct.MetaOf(Account, LoginEnv().resolve), "");
    assert args[1] == RF.TypeArgs(FieldStruct.MetaOf(Password, LoginEnv().resolve), "");
  }

  /** The member names are the record's field names, each once. */
  lemma BuiltNames(rt0: R.Runtime<string>)
    ensures Aggregate.DistinctNames(Built(rt0).1.members)
    ensures Aggregate.Names(Built(rt0).1.members) == Defaults.Keys
  {
    var ms := Built(rt0).1.members;
    BuiltIdents(rt0);
    NamesOfPair(ms);
    assert Defaults.Keys == {"account", "password"};
  }

  /** The names of a two-member list are its two idents. */
  lemma NamesOfPair<V>(ms: seq<Aggregate.Member<V>>)
    requires |ms| == 2
    ensures Aggregate.Names(ms) == {ms[0].ident, ms[1].ident}
  {
    assert ms[0].ident in Aggregate.Names(ms);
    assert ms[1].ident in Aggregate.Names(ms);
  }

  /** What the members hold after the two writes. */
  lemma AfterSetsValues(rt0: R.Runtime<string>)
    ensures RF.GetUntracked(AfterSets(rt0), Built(rt0).1.members[0].field) == "123456"
    ensures RF.GetUntracked(AfterSets(rt0), Built(rt0).1.members[1].field) == ""
  {
    var (rt, c) := Built(rt0);
    BuiltMembers(rt0);
    assert RF.GetUntracked(rt, c.members[1].field) == Defaults["password"];
    assert c.members[0].field.value.id != c.members[1].field.value.id;
  }

  /** The runtime after `controls.account.set("admin")` and then
      `controls.account.set("123456")`. */
  function AfterSets(rt0: R.Runtime<string>): (rt: R.Runtime<string>)
    ensures Aggregate.Live(rt, Built(rt0).1.members)
  {
    var (rt, c) := Built(rt0);
    var account := c.members[0].field;
    var rt1 := RF.Set(rt, account, "admin");
    var rt2 := RF.Set(rt1, account, "123456");
    assert forall i :: 0 <= i < |c.members| ==> RF.Valid(rt2, c.members[i].field);
    rt2
  }

  /** The generated item names. */
  lemma AggregateName()
    ensures ControlStructIdent(LoginArgs) == "LoginArgsControls"
  {
  }

  lemma AccountMarkerName()
    ensures FieldStructIdent(Account, LoginArgs.ident) == Some("LoginArgsAccount")
  {
    Naming.StructIdentOfWord("LoginArgs", "account", "LoginArgsAccount");
  }

  lemma PasswordMarkerName()
    ensures FieldStructIdent(Password, LoginArgs.ident) == Some("LoginArgsPassword")
  {
    Naming.StructIdentOfWord("LoginArgs", "password", "LoginArgsPassword");
  }

  /** Labels come from the `label` attributes; only the validated field is
      required, whatever its `readonly` flag. */
  lemma LabelsAndRequired(rt0: R.Runtime<string>)
    ensures RF.Label(Built(rt0).1.members[0].field) == "账号"
    ensures RF.Label(Built(rt0).1.members[1].field) == "密码"
    ensures RF.Required(Built(rt0).1.members[0].field)
    ensures !RF.Required(Built(rt0).1.members[1].field)
  {
    BuiltMembers(rt0);
  }

  /** Validation before and after the account is filled in: first the
      account's message, then nothing. */
  lemma ValidateBeforeAndAfter(rt0: R.Runtime<string>)
    ensures Aggregate.Resolvable(Built(rt0).1.members, ControlStruct.Checks(LoginFields))
    ensures Aggregate.Validate(Built(rt0).0, Built(rt0).1.members, ControlStruct.Checks(LoginFields), LoginEnv().resolve) == ["账号不能为空"]
    ensures Aggregate.Validate(AfterSets(rt0), Built(rt0).1.members, ControlStruct.Checks(LoginFields), LoginEnv().resolve) == []
  {
    BuiltMembers(rt0);
  }

  /** The snapshot after the two writes holds the last account written and
      the untouched password. */
  lemma SnapshotAfterWrites(rt0: R.Runtime<string>)
    ensures Aggregate.Snapshot(AfterSets(rt0), Built(rt0).1.members) == map["account" := "123456", "password" := ""]
  {
    var ms := Built(rt0).1.members;
    var r := map["account" := "123456", "password" := ""];
    BuiltMembers(rt0);
    BuiltNames(rt0);
    AfterSetsValues(rt0);
    assert r.Keys == Defaults.Keys;
    assert RF.GetUntracked(AfterSets(rt0), ms[0].field) == r[ms[0].ident];
    assert RF.GetUntracked(AfterSets(rt0), ms[1].field) == r[ms[1].ident];
    Aggregate.SnapshotIsRecord(AfterSets(rt0), ms, r);
  }

  /** `controls.account.set_default()` then `controls.set_default()`: both
      fields, the `readonly` password included, are back to empty. */
  lemma SetDefaultResetsBoth(rt0: R.Runtime<string>)
    ensures var ms := Built(rt0).1.members;
      var rt := RF.SetDefault(AfterSets(rt0), ms[0].field);
      Aggregate.Live(rt, ms) &&
      Aggregate.Snapshot(Aggregate.SetDefault(rt, ms), ms) == Defaults
  {
    var ms := Built(rt0).1.members;
    BuiltMembers(rt0);
    BuiltNames(rt0);
    var rt := RF.SetDefault(AfterSets(rt0), ms[0].field);
    assert Aggregate.Live(rt, ms) by {
      assert RF.Valid(rt, ms[0].field) && RF.Valid(rt, ms[1].field);
    }
    var rt' := Aggregate.SetDefault(rt, ms);
    assert RF.GetUntracked(rt', ms[0].field) == Defaults[ms[0].ident];
    assert RF.GetUntracked(rt', ms[1].field) == Defaults[ms[1].ident];
    Aggregate.SnapshotIsRecord(rt', ms, Defaults);
  }
}
