/**
 * The user forms of the subsidiary administrator: the password-confirmation
 * checks of the creation and edit forms, and the payloads sent to the server
 * without the confirmation field.
 */
module UserForm {
  import opened Wrappers

  /** The values of a form, by field name; a field left out of the object is absent. */
  type FormObject = map<string, string>

  const PasswordKey := "password"
  const ConfirmKey := "confirmPassword"

  function Lookup(values: FormObject, key: string): (r: Option<string>)
    ensures r.Some? <==> key in values
    ensures r.Some? ==> r.value == values[key]
  {
    if key in values then Some(values[key]) else None
  }

  /** The creation form: the password and its confirmation are the same. */
  predicate CreateConfirmed(values: FormObject) {
    Lookup(values, PasswordKey) == Lookup(values, ConfirmKey)
  }

  /** The edit form: no new password (absent or empty), or one equal to its confirmation. */
  predicate EditConfirmed(values: FormObject) {
    var password := Lookup(values, PasswordKey);
    password.None? || password.value == "" || password == Lookup(values, ConfirmKey)
  }

  /** Leaving the password blank in the edit form passes whatever the confirmation holds. */
  lemma BlankPasswordPasses(values: FormObject, confirmation: Option<string>)
    requires PasswordKey !in values || values[PasswordKey] == ""
    ensures var v := if confirmation.Some? then values[ConfirmKey := confirmation.value] else values - {ConfirmKey};
      EditConfirmed(v)
  {
    var v := if confirmation.Some? then values[ConfirmKey := confirmation.value] else values - {ConfirmKey};
    assert Lookup(v, PasswordKey) == Lookup(values, PasswordKey);
  }

  /** With a new password the edit form demands exactly what the creation form does. */
  lemma EditWithPasswordAsCreate(values: FormObject)
    requires PasswordKey in values && values[PasswordKey] != ""
    ensures EditConfirmed(values) <==> CreateConfirmed(values)
  {
  }

  /** The edit check never rejects what the creation check accepts, and rejects a mismatched new password. */
  lemma EditNoStricterThanCreate(values: FormObject)
    ensures CreateConfirmed(values) ==> EditConfirmed(values)
    ensures PasswordKey in values && values[PasswordKey] != "" && Lookup(values, ConfirmKey) != Some(values[PasswordKey]) ==>
      !EditConfirmed(values)
  {
  }

  /** The object sent to the server: the form's values without the confirmation. */
  function WithoutConfirmation(values: FormObject): (r: FormObject)
    ensures ConfirmKey !in r
    ensures forall k :: k != ConfirmKey ==> (k in r <==> k in values)
    ensures forall k :: k in r ==> r[k] == values[k]
  {
    values - {ConfirmKey}
  }

  /** Putting the confirmation back gives the form's values again: nothing else was dropped. */
  lemma WithoutConfirmationRestores(values: FormObject)
    requires ConfirmKey in values
    ensures WithoutConfirmation(values)[ConfirmKey := values[ConfirmKey]] == values
  {
    var r := WithoutConfirmation(values)[ConfirmKey := values[ConfirmKey]];
    assert r.Keys == values.Keys;
  }

  /** A form without a confirmation field is sent as it is. */
  lemma WithoutConfirmationIdle(values: FormObject)
    requires ConfirmKey !in values
    ensures WithoutConfirmation(values) == values
  {
  }

  /** The payload keeps the password the check was made on. */
  lemma PayloadKeepsPassword(values: FormObject)
    ensures Lookup(WithoutConfirmation(values), PasswordKey) == Lookup(values, PasswordKey)
  {
  }
}
