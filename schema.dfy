/**
 * The five tables of the application (users, subsidiaries, inventory, sales,
 * activity logs), their column types and nullability, the closed role
 * enumeration, the uniqueness constraints, and the insert validators derived
 * from the tables.
 */
module Schema {
  import opened Wrappers
  import opened Tables

  /** The `role` column accepts exactly these three values. */
  datatype Role = MhcAdmin | SubsidiaryAdmin | Staff

  function RoleName(r: Role): (s: string)
    ensures ParseRole(s) == Some(r)
  {
    match r
    case MhcAdmin => "mhc_admin"
    case SubsidiaryAdmin => "subsidiary_admin"
    case Staff => "staff"
  }

  /** The enum check applied to a role string. */
  function ParseRole(s: string): (r: Option<Role>)
    ensures r.Some? <==> s == "mhc_admin" || s == "subsidiary_admin" || s == "staff"
  {
    if s == "mhc_admin" then Some(MhcAdmin)
    else if s == "subsidiary_admin" then Some(SubsidiaryAdmin)
    else if s == "staff" then Some(Staff)
    else None
  }

  /** `users`: a null `subsidiaryId` is allowed. */
  datatype UserData = UserData(username: string, password: string, role: Role, subsidiaryId: Option<int>)
  type User = Row<UserData>

  /** `subsidiaries`: logo, address, city and country are nullable; status is required. */
  datatype SubsidiaryData = SubsidiaryData(
    name: string, taxId: string, email: string, phoneNumber: string,
    logo: Option<string>, address: Option<string>, city: Option<string>, country: Option<string>,
    status: bool)
  type Subsidiary = Row<SubsidiaryData>

  /** `inventory`: the owning subsidiary is required; only the description is nullable. */
  datatype ItemData = ItemData(
    subsidiaryId: int, sku: string, name: string, description: Option<string>, category: string,
    costPrice: real, salePrice: real, quantity: int)
  type InventoryItem = Row<ItemData>

  /** `sales`: every column is required. */
  datatype SaleData = SaleData(
    subsidiaryId: int, userId: int, itemId: int, quantity: int, salePrice: real, timestamp: int)
  type Sale = Row<SaleData>

  /** `activity_logs`: user and action are required; subsidiary and details are nullable. */
  datatype LogData = LogData(
    subsidiaryId: Option<int>, userId: int, action: string, details: Option<string>, timestamp: int)
  type ActivityLog = Row<LogData>

  /** The default of the `status` column. */
  const DefaultStatus: bool := true

  /** The `unique` constraint on `users.username`. */
  predicate UniqueUsernames(users: seq<User>) {
    forall i, j :: 0 <= i < j < |users| ==> users[i].data.username != users[j].data.username
  }

  /** The `unique` constraint on `subsidiaries.tax_id`. */
  predicate UniqueTaxIds(subs: seq<Subsidiary>) {
    forall i, j :: 0 <= i < j < |subs| ==> subs[i].data.taxId != subs[j].data.taxId
  }

  predicate UsernameTaken(users: seq<User>, name: string) {
    exists i :: 0 <= i < |users| && users[i].data.username == name
  }

  predicate TaxIdTaken(subs: seq<Subsidiary>, taxId: string) {
    exists i :: 0 <= i < |subs| && subs[i].data.taxId == taxId
  }

  /** `select ... where username = ?` followed by taking the first result. */
  function FindByUsername(users: seq<User>, name: string): (r: Option<User>)
    ensures r.Some? <==> UsernameTaken(users, name)
    ensures r.Some? ==> r.value in users && r.value.data.username == name
  {
    if |users| == 0 then None
    else if users[0].data.username == name then Some(users[0])
    else
      var r := FindByUsername(users[1..], name);
      assert UsernameTaken(users, name) ==> UsernameTaken(users[1..], name) by {
        if UsernameTaken(users, name) {
          var i :| 0 <= i < |users| && users[i].data.username == name;
          assert users[1..][i - 1].data.username == name;
        }
      }
      assert UsernameTaken(users[1..], name) ==> UsernameTaken(users, name) by {
        if UsernameTaken(users[1..], name) {
          var i :| 0 <= i < |users[1..]| && users[1..][i].data.username == name;
          assert users[i + 1].data.username == name;
        }
      }
      r
  }

  /** What the storage layer receives to create a subsidiary; any field may be missing. */
  datatype SubsidiaryInput = SubsidiaryInput(
    name: Option<string>, taxId: Option<string>, email: Option<string>, phoneNumber: Option<string>,
    address: Option<string>, city: Option<string>, country: Option<string>,
    status: Option<bool>, logo: Option<string>)

  /** What the storage layer receives to create a sale; the timestamp may be missing. */
  datatype SaleInput = SaleInput(
    subsidiaryId: int, userId: int, itemId: int, quantity: int, salePrice: real, timestamp: Option<int>)

  /** What the storage layer receives to create an activity log; the timestamp may be missing. */
  datatype LogInput = LogInput(
    subsidiaryId: Option<int>, userId: int, action: string, details: Option<string>, timestamp: Option<int>)

  /** A partial user update: only the present fields are written. */
  datatype UserPatch = UserPatch(
    username: Option<string>, password: Option<string>, role: Option<Role>, subsidiaryId: Option<Option<int>>)

  /** A user patch that sets no field, as an empty request body gives. */
  predicate EmptyUserPatch(p: UserPatch) {
    p == UserPatch(None, None, None, None)
  }

  function ApplyUserPatch(d: UserData, p: UserPatch): UserData {
    UserData(p.username.GetOr(d.username), p.password.GetOr(d.password),
             p.role.GetOr(d.role), p.subsidiaryId.GetOr(d.subsidiaryId))
  }

  /** A partial subsidiary update: only the present fields are written; the logo is not among them. */
  datatype SubsidiaryPatch = SubsidiaryPatch(
    name: Option<string>, taxId: Option<string>, email: Option<string>, phoneNumber: Option<string>,
    address: Option<string>, city: Option<string>, country: Option<string>, status: Option<bool>)

  /** A subsidiary patch that sets no field. */
  predicate EmptySubsidiaryPatch(p: SubsidiaryPatch) {
    p == SubsidiaryPatch(None, None, None, None, None, None, None, None)
  }

  function ApplySubsidiaryPatch(d: SubsidiaryData, p: SubsidiaryPatch): SubsidiaryData {
    SubsidiaryData(
      p.name.GetOr(d.name), p.taxId.GetOr(d.taxId), p.email.GetOr(d.email), p.phoneNumber.GetOr(d.phoneNumber),
      d.logo,
      if p.address.Some? then p.address else d.address,
      if p.city.Some? then p.city else d.city,
      if p.country.Some? then p.country else d.country,
      p.status.GetOr(d.status))
  }

  /** A partial inventory update: only the present fields are written. */
  datatype ItemPatch = ItemPatch(
    subsidiaryId: Option<int>, sku: Option<string>, name: Option<string>, description: Option<string>,
    category: Option<string>, costPrice: Option<real>, salePrice: Option<real>, quantity: Option<int>)

  /** An inventory patch that sets no field. */
  predicate EmptyItemPatch(p: ItemPatch) {
    p == ItemPatch(None, None, None, None, None, None, None, None)
  }

  function ApplyItemPatch(d: ItemData, p: ItemPatch): ItemData {
    ItemData(
      p.subsidiaryId.GetOr(d.subsidiaryId), p.sku.GetOr(d.sku), p.name.GetOr(d.name),
      if p.description.Some? then p.description else d.description,
      p.category.GetOr(d.category), p.costPrice.GetOr(d.costPrice), p.salePrice.GetOr(d.salePrice),
      p.quantity.GetOr(d.quantity))
  }

  /** The fields an insert schema can report as missing. */
  datatype Field = Name | TaxId | Email | PhoneNumber | Username | Password | RoleField

  /** The path of a field in a validation issue: the property name of the submitted object. */
  function FieldName(f: Field): string {
    match f
    case Name => "name"
    case TaxId => "taxId"
    case Email => "email"
    case PhoneNumber => "phoneNumber"
    case Username => "username"
    case Password => "password"
    case RoleField => "role"
  }

  /** A validation failure reported by an insert schema. */
  datatype Issue = Required(field: Field) | InvalidEmail | PhoneTooShort | InvalidRole

  /** The minimum length of a phone number accepted by the subsidiary insert schema. */
  const MinPhoneLength: nat := 10

  /**
   * The issues found by the subsidiary insert schema, in field order. Whether the
   * e-mail address is well formed is decided by the validation library and is an input.
   */
  function SubsidiaryIssues(c: SubsidiaryInput, emailWellFormed: bool): (r: seq<Issue>)
    ensures Required(Name) in r <==> c.name.None?
    ensures Required(TaxId) in r <==> c.taxId.None?
    ensures Required(Email) in r <==> c.email.None?
    ensures InvalidEmail in r <==> c.email.Some? && !emailWellFormed
    ensures Required(PhoneNumber) in r <==> c.phoneNumber.None?
    ensures PhoneTooShort in r <==> c.phoneNumber.Some? && |c.phoneNumber.value| < MinPhoneLength
    ensures forall x :: x in r ==> x in [Required(Name), Required(TaxId), Required(Email),
                                         InvalidEmail, Required(PhoneNumber), PhoneTooShort]
  {
    (if c.name.None? then [Required(Name)] else []) +
    (if c.taxId.None? then [Required(TaxId)] else []) +
    (if c.email.None? then [Required(Email)] else if !emailWellFormed then [InvalidEmail] else []) +
    (if c.phoneNumber.None? then [Required(PhoneNumber)]
     else if |c.phoneNumber.value| < MinPhoneLength then [PhoneTooShort] else [])
  }

  /**
   * The subsidiary insert schema: name, tax id, e-mail and phone are required strings,
   * the phone has at least ten characters, and the logo is not part of the schema
   * (it is stripped from what the schema returns).
   */
  function ValidateSubsidiary(c: SubsidiaryInput, emailWellFormed: bool): (r: Result<SubsidiaryInput, seq<Issue>>)
    ensures r.Success? <==>
      c.name.Some? && c.taxId.Some? && c.email.Some? && emailWellFormed &&
      c.phoneNumber.Some? && |c.phoneNumber.value| >= MinPhoneLength
    ensures r.Success? ==> r.value.logo.None? && r.value == c.(logo := None)
    ensures r.Failure? ==> |r.error| > 0
  {
    var issues := SubsidiaryIssues(c, emailWellFormed);
    if |issues| == 0 then Success(c.(logo := None)) else Failure(issues)
  }

  /** A user as submitted to the user insert schema, before validation. */
  datatype UserCandidate = UserCandidate(
    id: Option<int>, username: Option<string>, password: Option<string>, role: Option<string>,
    subsidiaryId: Option<Option<int>>)

  /**
   * The user insert schema: it picks username, password, role and subsidiaryId,
   * requires the first three, checks the role against the enumeration, and lets
   * the subsidiary be absent or null. Any id that was submitted is dropped.
   */
  function ValidateUser(c: UserCandidate): (r: Result<UserData, seq<Issue>>)
    ensures r.Success? <==>
      c.username.Some? && c.password.Some? && c.role.Some? && ParseRole(c.role.value).Some?
    ensures r.Success? ==>
      r.value.username == c.username.value && r.value.password == c.password.value &&
      RoleName(r.value.role) == c.role.value && r.value.subsidiaryId == c.subsidiaryId.GetOr(None)
  {
    var issues :=
      (if c.username.None? then [Required(Username)] else []) +
      (if c.password.None? then [Required(Password)] else []) +
      (if c.role.None? then [Required(RoleField)] else if ParseRole(c.role.value).None? then [InvalidRole] else []);
    if |issues| == 0 then
      Success(UserData(c.username.value, c.password.value, ParseRole(c.role.value).value, c.subsidiaryId.GetOr(None)))
    else Failure(issues)
  }
}
