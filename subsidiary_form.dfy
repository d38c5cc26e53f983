/**
 * The subsidiaries page of the holding administrator: the multipart form it
 * sends to create a subsidiary, the logo address of each row and the
 * location cell of the table.
 */
module SubsidiaryForm {
  import opened Wrappers
  import opened Text
  import opened Schema
  import Routes
  import ReportView

  /** The values of the creation form; text inputs are empty strings when left blank. */
  datatype FormValues = FormValues(
    name: string, taxId: string, email: string, phoneNumber: string,
    address: string, city: string, country: string, status: bool)

  /** `b.toString()`. */
  function BoolText(b: bool): (r: string)
    ensures (r == "true") == b
  {
    if b then "true" else "false"
  }

  /** An optional text field is sent only when it is not empty. */
  function Sent(value: string): Option<string> {
    if value != "" then Some(value) else None
  }

  /**
   * The text parts of the multipart body, appended one by one, and the logo
   * file, attached only when one is selected. What the server reads back
   * from them is exactly what the form held.
   */
  method BuildFormData(data: FormValues, logoFile: Option<string>) returns (fields: Routes.Form, file: Option<string>)
    ensures Routes.FormGet(fields, "name") == Some(data.name)
    ensures Routes.FormGet(fields, "taxId") == Some(data.taxId)
    ensures Routes.FormGet(fields, "email") == Some(data.email)
    ensures Routes.FormGet(fields, "phoneNumber") == Some(data.phoneNumber)
    ensures Routes.FormGet(fields, "status") == Some(BoolText(data.status))
    ensures Routes.FormGet(fields, "address") == Sent(data.address)
    ensures Routes.FormGet(fields, "city") == Sent(data.city)
    ensures Routes.FormGet(fields, "country") == Sent(data.country)
    ensures forall i :: 0 <= i < |fields| ==> fields[i].0 != "logo"
    ensures Routes.DistinctKeys(fields)
    ensures file == logoFile
    ensures var input := Routes.SubsidiaryFromForm(fields, None);
      && input.name == Some(data.name) && input.taxId == Some(data.taxId)
      && input.email == Some(data.email) && input.phoneNumber == Some(data.phoneNumber)
      && input.status == Some(data.status)
      && input.address == Sent(data.address) && input.city == Sent(data.city) && input.country == Sent(data.country)
  {
    fields := [];
    fields := fields + [("name", data.name)];
    fields := fields + [("taxId", data.taxId)];
    fields := fields + [("email", data.email)];
    fields := fields + [("phoneNumber", data.phoneNumber)];
    fields := fields + [("status", BoolText(data.status))];
    ghost var required := fields;
    if data.address != "" { fields := fields + [("address", data.address)]; }
    assert fields == required + Part("address", data.address);
    if data.city != "" { fields := fields + [("city", data.city)]; }
    assert fields == required + Part("address", data.address) + Part("city", data.city);
    if data.country != "" { fields := fields + [("country", data.country)]; }
    assert fields == required + Part("address", data.address) + Part("city", data.city) + Part("country", data.country);
    file := logoFile;
    assert fields == required + OptionalParts(data);
    ReadBack(required, OptionalParts(data), data);
    NoLogoField(required, OptionalParts(data), data);
    FormKeysDistinct(required, data);
    ServerReadsForm(fields, data);
  }

  /** The server's reading of a form that holds the values of the creation form. */
  lemma ServerReadsForm(fields: Routes.Form, data: FormValues)
    requires Routes.FormGet(fields, "name") == Some(data.name)
    requires Routes.FormGet(fields, "taxId") == Some(data.taxId)
    requires Routes.FormGet(fields, "email") == Some(data.email)
    requires Routes.FormGet(fields, "phoneNumber") == Some(data.phoneNumber)
    requires Routes.FormGet(fields, "status") == Some(BoolText(data.status))
    requires Routes.FormGet(fields, "address") == Sent(data.address)
    requires Routes.FormGet(fields, "city") == Sent(data.city)
    requires Routes.FormGet(fields, "country") == Sent(data.country)
    ensures var input := Routes.SubsidiaryFromForm(fields, None);
      && input.name == Some(data.name) && input.taxId == Some(data.taxId)
      && input.email == Some(data.email) && input.phoneNumber == Some(data.phoneNumber)
      && input.status == Some(data.status)
      && input.address == Sent(data.address) && input.city == Sent(data.city) && input.country == Sent(data.country)
  {
  }

  /** What the server reads from the five required parts followed by the optional ones. */
  lemma ReadBack(required: Routes.Form, optional: Routes.Form, data: FormValues)
    requires required == [("name", data.name), ("taxId", data.taxId), ("email", data.email),
                          ("phoneNumber", data.phoneNumber), ("status", BoolText(data.status))]
    requires optional == OptionalParts(data)
    ensures var f := required + optional;
      && Routes.FormGet(f, "name") == Some(data.name)
      && Routes.FormGet(f, "taxId") == Some(data.taxId)
      && Routes.FormGet(f, "email") == Some(data.email)
      && Routes.FormGet(f, "phoneNumber") == Some(data.phoneNumber)
      && Routes.FormGet(f, "status") == Some(BoolText(data.status))
      && Routes.FormGet(f, "address") == Sent(data.address)
      && Routes.FormGet(f, "city") == Sent(data.city)
      && Routes.FormGet(f, "country") == Sent(data.country)
  {
    RequiredRead(required, optional, data);
    RequiredKeys(required, data);
    OptionalRead(required, data);
  }

  /** The logo travels as a file part, never as a text field. */
  lemma NoLogoField(required: Routes.Form, optional: Routes.Form, data: FormValues)
    requires required == [("name", data.name), ("taxId", data.taxId), ("email", data.email),
                          ("phoneNumber", data.phoneNumber), ("status", BoolText(data.status))]
    requires optional == OptionalParts(data)
    ensures forall i :: 0 <= i < |required + optional| ==> (required + optional)[i].0 != "logo"
  {
    RequiredKeys(required, data);
  }

  /** No key of the creation form is sent twice. */
  lemma FormKeysDistinct(required: Routes.Form, data: FormValues)
    requires required == [("name", data.name), ("taxId", data.taxId), ("email", data.email),
                          ("phoneNumber", data.phoneNumber), ("status", BoolText(data.status))]
    ensures Routes.DistinctKeys(required + OptionalParts(data))
  {
    RequiredKeys(required, data);
    var a, c, n := Part("address", data.address), Part("city", data.city), Part("country", data.country);
    Routes.DistinctKeysAppend(a, c);
    Routes.DistinctKeysAppend(a + c, n);
    assert OptionalParts(data) == a + c + n;
    Routes.DistinctKeysAppend(required, OptionalParts(data));
  }

  /** The five required parts carry the required keys. */
  lemma RequiredKeys(required: Routes.Form, data: FormValues)
    requires required == [("name", data.name), ("taxId", data.taxId), ("email", data.email),
                          ("phoneNumber", data.phoneNumber), ("status", BoolText(data.status))]
    ensures forall i :: 0 <= i < |required| ==> RequiredKey(required[i].0)
  {
  }

  /** The five required parts answer for their keys whatever follows them. */
  lemma RequiredRead(required: Routes.Form, optional: Routes.Form, data: FormValues)
    requires required == [("name", data.name), ("taxId", data.taxId), ("email", data.email),
                          ("phoneNumber", data.phoneNumber), ("status", BoolText(data.status))]
    ensures var f := required + optional;
      && Routes.FormGet(f, "name") == Some(data.name)
      && Routes.FormGet(f, "taxId") == Some(data.taxId)
      && Routes.FormGet(f, "email") == Some(data.email)
      && Routes.FormGet(f, "phoneNumber") == Some(data.phoneNumber)
      && Routes.FormGet(f, "status") == Some(BoolText(data.status))
  {
    RequiredReadKey(required, optional, "name", 0);
    RequiredReadKey(required, optional, "taxId", 1);
    RequiredReadKey(required, optional, "email", 2);
    RequiredReadKey(required, optional, "phoneNumber", 3);
    RequiredReadKey(required, optional, "status", 4);
  }

  lemma RequiredReadKey(required: Routes.Form, optional: Routes.Form, key: string, i: nat)
    requires i < |required| && required[i].0 == key
    requires forall j :: 0 <= j < i ==> required[j].0 != key
    ensures Routes.FormGet(required + optional, key) == Some(required[i].1)
  {
    Routes.FormGetAt(required, key, i);
    Routes.FormGetAppend(required, optional, key);
  }

  /** An optional part: present exactly when its value is not empty. */
  function Part(key: string, value: string): (r: Routes.Form)
    ensures forall i :: 0 <= i < |r| ==> r[i].0 == key
  {
    if value != "" then [(key, value)] else []
  }

  /** The optional parts, in the order they are appended. */
  function OptionalParts(data: FormValues): (r: Routes.Form)
    ensures forall i :: 0 <= i < |r| ==> r[i].0 != "logo" && !RequiredKey(r[i].0)
  {
    var a, c, n := Part("address", data.address), Part("city", data.city), Part("country", data.country);
    assert forall i :: 0 <= i < |a + c + n| ==> (a + c + n)[i].0 in {"address", "city", "country"};
    a + c + n
  }

  lemma OptionalRead(required: Routes.Form, data: FormValues)
    requires forall i :: 0 <= i < |required| ==> RequiredKey(required[i].0)
    ensures var f := required + OptionalParts(data);
      && Routes.FormGet(f, "address") == Sent(data.address)
      && Routes.FormGet(f, "city") == Sent(data.city)
      && Routes.FormGet(f, "country") == Sent(data.country)
  {
    var optional := OptionalParts(data);
    Routes.FormGetAppend(required, optional, "address");
    Routes.FormGetAppend(required, optional, "city");
    Routes.FormGetAppend(required, optional, "country");
    OptionalAddress(data);
    OptionalCity(data);
    OptionalCountry(data);
  }

  lemma OptionalAddress(data: FormValues)
    ensures Routes.FormGet(OptionalParts(data), "address") == Sent(data.address)
  {
    if data.address != "" { Routes.FormGetAt(OptionalParts(data), "address", 0); }
    else {
      assert forall i :: 0 <= i < |OptionalParts(data)| ==> OptionalParts(data)[i].0 in {"city", "country"};
    }
  }

  lemma OptionalCity(data: FormValues)
    ensures Routes.FormGet(OptionalParts(data), "city") == Sent(data.city)
  {
    if data.city != "" { Routes.FormGetAt(OptionalParts(data), "city", if data.address != "" then 1 else 0); }
  }

  lemma OptionalCountry(data: FormValues)
    ensures Routes.FormGet(OptionalParts(data), "country") == Sent(data.country)
  {
    if data.country != "" { Routes.FormGetAt(OptionalParts(data), "country", |OptionalParts(data)| - 1); }
  }

  /** The keys of the five parts that are always sent. */
  predicate RequiredKey(k: string) {
    k == "name" || k == "taxId" || k == "email" || k == "phoneNumber" || k == "status"
  }

  // ---------------------------------------------------------------------------
  // Table cells

  /** The logo address of a table row: nothing for an empty path, otherwise the upload folder dropped. */
  function LogoUrl(logoPath: string): (r: string)
    ensures logoPath == "" ==> r == ""
    ensures logoPath != "" ==> r == ReplaceFirst(logoPath, "/uploads/", "/")
  {
    if logoPath == "" then "" else ReplaceFirst(logoPath, "/uploads/", "/")
  }

  /** The two pages agree on every logo path except the placeholders, which only the report page replaces by its default image. */
  lemma LogoUrlsAgree(logoPath: string)
    ensures logoPath !in {"", "null", "undefined"} ==> LogoUrl(logoPath) == ReportView.ReportLogoUrl(logoPath)
    ensures logoPath in {"null", "undefined"} ==> LogoUrl(logoPath) == logoPath != ReportView.ReportLogoUrl(logoPath)
  {
    if logoPath == "undefined" {
      assert logoPath[0..9][0] == 'u';
      assert !OccursAt(logoPath, "/uploads/", 0);
      assert !Contains(logoPath, "/uploads/");
    }
  }

  /** A JavaScript value is truthy as text when it is present and not empty. */
  predicate Truthy(value: Option<string>) {
    value.Some? && value.value != ""
  }

  /** The location cell: the non-empty values among city and country, joined by ", ". */
  function LocationText(city: Option<string>, country: Option<string>): (r: string)
    ensures Truthy(city) && Truthy(country) ==> r == city.value + ", " + country.value
    ensures Truthy(city) && !Truthy(country) ==> r == city.value
    ensures !Truthy(city) && Truthy(country) ==> r == country.value
    ensures !Truthy(city) && !Truthy(country) ==> r == ""
  {
    var parts := (if Truthy(city) then [city.value] else []) + (if Truthy(country) then [country.value] else []);
    assert Truthy(city) && Truthy(country) ==>
      parts == [city.value, country.value] && Join(parts, ", ") == city.value + ", " + Join([country.value], ", ");
    Join(parts, ", ")
  }
}
