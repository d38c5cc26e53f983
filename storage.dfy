/**
 * The storage layer: one object holding the five tables, a serial counter per
 * table and whether the database connection has been established. Every
 * operation first fails with "Database connection not initialized" when there
 * is no connection. The constraints the schema declares (primary keys, unique
 * username and tax id, foreign keys) are enforced as the database would: an
 * insert or update that breaks one fails and changes nothing.
 */
module Storage {
  import opened Wrappers
  import opened Tables
  import opened Schema

  /** The errors an operation of the storage layer can throw. */
  datatype StorageError =
    | NotConnected
    | UserNotFound
    | SubsidiaryNotFound
    | InventoryItemNotFound
    | InsufficientStock
    | MissingRequiredFields
    | NoValuesToSet
    | UniqueViolation(constraint: string)
    | ForeignKeyViolation(constraint: string)

  function Message(e: StorageError): string {
    match e
    case NotConnected => "Database connection not initialized"
    case UserNotFound => "User not found"
    case SubsidiaryNotFound => "Subsidiary not found"
    case InventoryItemNotFound => "Inventory item not found"
    case InsufficientStock => "Insufficient stock"
    case MissingRequiredFields => "Missing required fields"
    case NoValuesToSet => "No values to set"
    case UniqueViolation(c) => "duplicate key value violates unique constraint \"" + c + "\""
    case ForeignKeyViolation(c) => "violates foreign key constraint \"" + c + "\""
  }

  const UsernameUnique := "users_username_unique"
  const TaxIdUnique := "subsidiaries_tax_id_unique"
  const UserSubsidiaryFk := "users_subsidiary_id_subsidiaries_id_fk"
  const ItemSubsidiaryFk := "inventory_subsidiary_id_subsidiaries_id_fk"
  const SaleSubsidiaryFk := "sales_subsidiary_id_subsidiaries_id_fk"
  const SaleUserFk := "sales_user_id_users_id_fk"
  const SaleItemFk := "sales_item_id_inventory_id_fk"
  const LogSubsidiaryFk := "activity_logs_subsidiary_id_subsidiaries_id_fk"
  const LogUserFk := "activity_logs_user_id_users_id_fk"

  /** The contents of the five tables. */
  datatype Db = Db(
    users: seq<User>, subsidiaries: seq<Subsidiary>, inventory: seq<InventoryItem>,
    sales: seq<Sale>, logs: seq<ActivityLog>)

  predicate UserRefsOk(subs: seq<Subsidiary>, d: UserData) {
    d.subsidiaryId.Some? ==> d.subsidiaryId.value in Ids(subs)
  }

  predicate ItemRefsOk(subs: seq<Subsidiary>, d: ItemData) {
    d.subsidiaryId in Ids(subs)
  }

  predicate SaleRefsOk(db: Db, d: SaleData) {
    d.subsidiaryId in Ids(db.subsidiaries) && d.userId in Ids(db.users) && d.itemId in Ids(db.inventory)
  }

  predicate LogRefsOk(db: Db, d: LogData) {
    (d.subsidiaryId.Some? ==> d.subsidiaryId.value in Ids(db.subsidiaries)) && d.userId in Ids(db.users)
  }

  /** Every foreign key names an existing row. */
  predicate ReferencesResolve(db: Db) {
    && (forall i :: 0 <= i < |db.users| ==> UserRefsOk(db.subsidiaries, db.users[i].data))
    && (forall i :: 0 <= i < |db.inventory| ==> ItemRefsOk(db.subsidiaries, db.inventory[i].data))
    && (forall i :: 0 <= i < |db.sales| ==> SaleRefsOk(db, db.sales[i].data))
    && (forall i :: 0 <= i < |db.logs| ==> LogRefsOk(db, db.logs[i].data))
  }

  predicate KeysUnique(db: Db) {
    UniqueIds(db.users) && UniqueIds(db.subsidiaries) && UniqueIds(db.inventory) &&
    UniqueIds(db.sales) && UniqueIds(db.logs)
  }

  /** Every constraint the schema declares holds. */
  predicate Consistent(db: Db) {
    KeysUnique(db) && UniqueUsernames(db.users) && UniqueTaxIds(db.subsidiaries) && ReferencesResolve(db)
  }

  /** A sale or an activity log names the user. */
  predicate UserReferenced(db: Db, id: int) {
    (exists i :: 0 <= i < |db.sales| && db.sales[i].data.userId == id) ||
    (exists i :: 0 <= i < |db.logs| && db.logs[i].data.userId == id)
  }

  /**
   * `after` is `before` with `quantity` taken out of the stock of item `itemId`,
   * which had at least that much; every other item is as it was.
   */
  predicate StockTaken(before: seq<InventoryItem>, after: seq<InventoryItem>, itemId: int, quantity: int) {
    itemId in Ids(before) &&
    var k := IndexOf(before, itemId).value;
    var stock := before[k].data.quantity;
    stock >= quantity && after == before[k := Row(itemId, before[k].data.(quantity := stock - quantity))]
  }

  /**
   * Taking stock touches one item only and leaves it at zero or more, whatever the
   * sign of the quantity (a negative quantity adds to the stock).
   */
  lemma StockTakenEffects(before: seq<InventoryItem>, after: seq<InventoryItem>, itemId: int, quantity: int)
    requires StockTaken(before, after, itemId, quantity)
    ensures |after| == |before| && Ids(after) == Ids(before)
    ensures forall i :: 0 <= i < |before| && before[i].id != itemId ==> after[i] == before[i]
    ensures forall i :: 0 <= i < |before| && before[i].id == itemId && UniqueIds(before) ==>
      after[i].data.quantity == before[i].data.quantity - quantity >= 0
  {
    var k := IndexOf(before, itemId).value;
    IdsUpdate(before, k, before[k].data.(quantity := before[k].data.quantity - quantity));
  }

  /** A sale names the inventory item. */
  predicate ItemReferenced(sales: seq<Sale>, id: int) {
    exists i :: 0 <= i < |sales| && sales[i].data.itemId == id
  }

  /** Another user than `id` already has the name. */
  predicate UsernameTakenByOther(users: seq<User>, name: string, id: int) {
    exists i :: 0 <= i < |users| && users[i].id != id && users[i].data.username == name
  }

  /** Another subsidiary than `id` already has the tax id. */
  predicate TaxIdTakenByOther(subs: seq<Subsidiary>, taxId: string, id: int) {
    exists i :: 0 <= i < |subs| && subs[i].id != id && subs[i].data.taxId == taxId
  }

  /** `!value` in JavaScript for an optional string: absent or empty. */
  predicate Blank(s: Option<string>) {
    s.None? || s.value == ""
  }

  /** A field the subsidiary table requires is absent or empty. */
  predicate MissingFields(s: SubsidiaryInput) {
    Blank(s.name) || Blank(s.taxId) || Blank(s.email) || Blank(s.phoneNumber)
  }

  /** `select * from users where subsidiary_id = ?`. */
  function UsersOf(users: seq<User>, sid: int): (r: seq<User>)
    ensures forall x :: x in r <==> x in users && x.data.subsidiaryId == Some(sid)
  {
    Where(users, (u: User) => u.data.subsidiaryId == Some(sid))
  }

  /** `select * from inventory where subsidiary_id = ?`. */
  function ItemsOf(items: seq<InventoryItem>, sid: int): (r: seq<InventoryItem>)
    ensures forall x :: x in r <==> x in items && x.data.subsidiaryId == sid
  {
    Where(items, (x: InventoryItem) => x.data.subsidiaryId == sid)
  }

  /** `select * from sales where subsidiary_id = ?`. */
  function SalesOf(sales: seq<Sale>, sid: int): (r: seq<Sale>)
    ensures forall x :: x in r <==> x in sales && x.data.subsidiaryId == sid
  {
    Where(sales, (x: Sale) => x.data.subsidiaryId == sid)
  }

  /** The activity logs listed for an optional subsidiary: absent or 0 selects every log. */
  function LogsOf(logs: seq<ActivityLog>, sid: Option<int>): (r: seq<ActivityLog>)
    ensures sid.None? || sid.value == 0 ==> r == logs
    ensures sid.Some? && sid.value != 0 ==>
      forall x :: x in r <==> x in logs && x.data.subsidiaryId == sid
  {
    if sid.Some? && sid.value != 0 then Where(logs, (x: ActivityLog) => x.data.subsidiaryId == sid)
    else logs
  }

  // ---------------------------------------------------------------------------
  // What each kind of change does to the constraints.

  lemma UniqueAppend<T>(rows: seq<Row<T>>, x: Row<T>)
    requires UniqueIds(rows) && x.id !in Ids(rows)
    ensures UniqueIds(rows + [x])
  {
    var r := rows + [x];
    forall i, j | 0 <= i < j < |r| ensures r[i].id != r[j].id {
      if j == |rows| { assert rows[i].id in Ids(rows); }
    }
  }

  lemma UniqueUpdate<T>(rows: seq<Row<T>>, k: nat, data: T)
    requires UniqueIds(rows) && k < |rows|
    ensures UniqueIds(rows[k := Row(rows[k].id, data)])
  {
  }

  lemma InsertUserKeepsConsistent(db: Db, x: User)
    requires Consistent(db) && x.id !in Ids(db.users)
    requires !UsernameTaken(db.users, x.data.username) && UserRefsOk(db.subsidiaries, x.data)
    ensures Consistent(db.(users := db.users + [x]))
  {
    UniqueAppend(db.users, x);
    IdsAppend(db.users, x);
    var us := db.users + [x];
    forall i, j | 0 <= i < j < |us| ensures us[i].data.username != us[j].data.username {
      if j == |db.users| { assert db.users[i].data.username != x.data.username; }
    }
  }

  lemma UpdateUserKeepsConsistent(db: Db, k: nat, d: UserData)
    requires Consistent(db) && k < |db.users|
    requires !UsernameTakenByOther(db.users, d.username, db.users[k].id) && UserRefsOk(db.subsidiaries, d)
    ensures Consistent(db.(users := db.users[k := Row(db.users[k].id, d)]))
  {
    UniqueUpdate(db.users, k, d);
    IdsUpdate(db.users, k, d);
    var us := db.users[k := Row(db.users[k].id, d)];
    forall i, j | 0 <= i < j < |us| ensures us[i].data.username != us[j].data.username {
      if i == k { assert db.users[j].id != db.users[k].id; }
      if j == k { assert db.users[i].id != db.users[k].id; }
    }
  }

  lemma DeleteUserKeepsConsistent(db: Db, id: int)
    requires Consistent(db) && !UserReferenced(db, id)
    ensures Consistent(db.(users := Delete(db.users, id)))
  {
    DeleteKeys(db.users, id);
    var us := Delete(db.users, id);
    DeleteKeepsUsernames(db.users, id);
    var db' := db.(users := us);
    forall i | 0 <= i < |db.sales| ensures SaleRefsOk(db', db.sales[i].data) {
      assert db.sales[i].data.userId != id;
    }
    forall i | 0 <= i < |db.logs| ensures LogRefsOk(db', db.logs[i].data) {
      assert db.logs[i].data.userId != id;
    }
    forall i | 0 <= i < |us| ensures UserRefsOk(db.subsidiaries, us[i].data) {
      assert us[i] in db.users;
    }
  }

  /** Deleting users keeps usernames unique. */
  lemma DeleteKeepsUsernames(users: seq<User>, id: int)
    requires UniqueIds(users) && UniqueUsernames(users)
    ensures UniqueUsernames(Delete(users, id))
  {
    DeleteKeys(users, id);
    var us := Delete(users, id);
    forall i, j | 0 <= i < j < |us| ensures us[i].data.username != us[j].data.username {
      var a, b := us[i], us[j];
      assert a in users && b in users;
      var i', j' :| 0 <= i' < |users| && 0 <= j' < |users| && users[i'] == a && users[j'] == b;
      assert a.id != b.id by {
        assert i' != j' || a == b;
      }
    }
  }

  lemma InsertSubsidiaryKeepsConsistent(db: Db, x: Subsidiary)
    requires Consistent(db) && x.id !in Ids(db.subsidiaries) && !TaxIdTaken(db.subsidiaries, x.data.taxId)
    ensures Consistent(db.(subsidiaries := db.subsidiaries + [x]))
  {
    UniqueAppend(db.subsidiaries, x);
    IdsAppend(db.subsidiaries, x);
    var ss := db.subsidiaries + [x];
    forall i, j | 0 <= i < j < |ss| ensures ss[i].data.taxId != ss[j].data.taxId {
      if j == |db.subsidiaries| { assert db.subsidiaries[i].data.taxId != x.data.taxId; }
    }
  }

  lemma UpdateSubsidiaryKeepsConsistent(db: Db, k: nat, d: SubsidiaryData)
    requires Consistent(db) && k < |db.subsidiaries|
    requires !TaxIdTakenByOther(db.subsidiaries, d.taxId, db.subsidiaries[k].id)
    ensures Consistent(db.(subsidiaries := db.subsidiaries[k := Row(db.subsidiaries[k].id, d)]))
  {
    UniqueUpdate(db.subsidiaries, k, d);
    IdsUpdate(db.subsidiaries, k, d);
    var ss := db.subsidiaries[k := Row(db.subsidiaries[k].id, d)];
    forall i, j | 0 <= i < j < |ss| ensures ss[i].data.taxId != ss[j].data.taxId {
      if i == k { assert db.subsidiaries[j].id != db.subsidiaries[k].id; }
      if j == k { assert db.subsidiaries[i].id != db.subsidiaries[k].id; }
    }
  }

  lemma InsertItemKeepsConsistent(db: Db, x: InventoryItem)
    requires Consistent(db) && x.id !in Ids(db.inventory) && ItemRefsOk(db.subsidiaries, x.data)
    ensures Consistent(db.(inventory := db.inventory + [x]))
  {
    UniqueAppend(db.inventory, x);
    IdsAppend(db.inventory, x);
  }

  lemma UpdateItemKeepsConsistent(db: Db, k: nat, d: ItemData)
    requires Consistent(db) && k < |db.inventory| && ItemRefsOk(db.subsidiaries, d)
    ensures Consistent(db.(inventory := db.inventory[k := Row(db.inventory[k].id, d)]))
  {
    UniqueUpdate(db.inventory, k, d);
    IdsUpdate(db.inventory, k, d);
  }

  lemma DeleteItemKeepsConsistent(db: Db, id: int)
    requires Consistent(db) && !ItemReferenced(db.sales, id)
    ensures Consistent(db.(inventory := Delete(db.inventory, id)))
  {
    DeleteKeys(db.inventory, id);
    var db' := db.(inventory := Delete(db.inventory, id));
    forall i | 0 <= i < |db.sales| ensures SaleRefsOk(db', db.sales[i].data) {
      assert db.sales[i].data.itemId != id;
    }
    forall i | 0 <= i < |db'.inventory| ensures ItemRefsOk(db.subsidiaries, db'.inventory[i].data) {
      assert db'.inventory[i] in db.inventory;
    }
  }

  lemma InsertSaleKeepsConsistent(db: Db, x: Sale)
    requires Consistent(db) && x.id !in Ids(db.sales) && SaleRefsOk(db, x.data)
    ensures Consistent(db.(sales := db.sales + [x]))
  {
    UniqueAppend(db.sales, x);
  }

  lemma InsertLogKeepsConsistent(db: Db, x: ActivityLog)
    requires Consistent(db) && x.id !in Ids(db.logs) && LogRefsOk(db, x.data)
    ensures Consistent(db.(logs := db.logs + [x]))
  {
    UniqueAppend(db.logs, x);
  }

  lemma IdsBelowAppend<T>(rows: seq<Row<T>>, x: Row<T>, next: int)
    requires IdsBelow(rows, next) && x.id == next
    ensures next !in Ids(rows) && IdsBelow(rows + [x], next + 1)
  {
  }

  // ---------------------------------------------------------------------------

  class DatabaseStorage {
    var connected: bool
    var users: seq<User>
    var subsidiaries: seq<Subsidiary>
    var inventory: seq<InventoryItem>
    var sales: seq<Sale>
    var logs: seq<ActivityLog>
    var nextUserId: int
    var nextSubsidiaryId: int
    var nextItemId: int
    var nextSaleId: int
    var nextLogId: int

    function State(): Db
      reads this
    {
      Db(users, subsidiaries, inventory, sales, logs)
    }

    ghost predicate Valid()
      reads this
    {
      Consistent(State()) &&
      IdsBelow(users, nextUserId) && IdsBelow(subsidiaries, nextSubsidiaryId) &&
      IdsBelow(inventory, nextItemId) && IdsBelow(sales, nextSaleId) && IdsBelow(logs, nextLogId)
    }

    /** An empty database, reachable or not. Serial keys start at 1. */
    constructor(connected: bool)
      ensures Valid() && this.connected == connected
      ensures State() == Db([], [], [], [], [])
    {
      this.connected := connected;
      users, subsidiaries, inventory, sales, logs := [], [], [], [], [];
      nextUserId, nextSubsidiaryId, nextItemId, nextSaleId, nextLogId := 1, 1, 1, 1, 1;
    }

    method GetUser(id: int) returns (r: Result<Option<User>, StorageError>)
      ensures r.Failure? <==> !connected
      ensures r.Failure? ==> r.error == NotConnected
      ensures connected ==> r.Success? && (r.value.Some? <==> id in Ids(users))
      ensures r.Success? && r.value.Some? ==> r.value.value in users && r.value.value.id == id
    {
      if !connected { return Failure(NotConnected); }
      return Success(Find(users, id));
    }

    method GetUserByUsername(name: string) returns (r: Result<Option<User>, StorageError>)
      ensures r.Failure? <==> !connected
      ensures r.Failure? ==> r.error == NotConnected
      ensures connected ==> r.Success? && (r.value.Some? <==> UsernameTaken(users, name))
      ensures r.Success? && r.value.Some? ==> r.value.value in users && r.value.value.data.username == name
    {
      if !connected { return Failure(NotConnected); }
      return Success(FindByUsername(users, name));
    }

    method ListUsers() returns (r: Result<seq<User>, StorageError>)
      ensures r.Failure? <==> !connected
      ensures r.Failure? ==> r.error == NotConnected
      ensures r.Success? ==> r.value == users
    {
      if !connected { return Failure(NotConnected); }
      return Success(users);
    }

    method ListUsersBySubsidiary(sid: int) returns (r: Result<seq<User>, StorageError>)
      ensures r.Failure? <==> !connected
      ensures r.Failure? ==> r.error == NotConnected
      ensures r.Success? ==> forall x :: x in r.value <==> x in users && x.data.subsidiaryId == Some(sid)
      ensures r.Success? ==> r.value == UsersOf(users, sid)
    {
      if !connected { return Failure(NotConnected); }
      return Success(UsersOf(users, sid));
    }

    method CreateUser(u: UserData) returns (r: Result<User, StorageError>)
      requires Valid()
      modifies this`users, this`nextUserId
      ensures Valid()
      ensures !connected ==> r == Failure(NotConnected)
      ensures connected && UsernameTaken(old(users), u.username) ==> r == Failure(UniqueViolation(UsernameUnique))
      ensures connected && !UsernameTaken(old(users), u.username) && !UserRefsOk(subsidiaries, u) ==>
        r == Failure(ForeignKeyViolation(UserSubsidiaryFk))
      ensures connected && !UsernameTaken(old(users), u.username) && UserRefsOk(subsidiaries, u) ==> r.Success?
      ensures r.Failure? ==> users == old(users) && nextUserId == old(nextUserId)
      ensures r.Success? ==> r.value.data == u && r.value.id !in Ids(old(users)) && users == old(users) + [r.value]
    {
      if !connected { return Failure(NotConnected); }
      if FindByUsername(users, u.username).Some? { return Failure(UniqueViolation(UsernameUnique)); }
      if !UserRefsOk(subsidiaries, u) { return Failure(ForeignKeyViolation(UserSubsidiaryFk)); }
      var row := Row(nextUserId, u);
      IdsBelowAppend(users, row, nextUserId);
      InsertUserKeepsConsistent(State(), row);
      users, nextUserId := users + [row], nextUserId + 1;
      return Success(row);
    }

    method UpdateUser(id: int, p: UserPatch) returns (r: Result<User, StorageError>)
      requires Valid()
      modifies this`users
      ensures Valid()
      ensures !connected ==> r == Failure(NotConnected)
      ensures connected && EmptyUserPatch(p) ==> r == Failure(NoValuesToSet)
      ensures connected && !EmptyUserPatch(p) && id !in Ids(old(users)) ==> r == Failure(UserNotFound)
      ensures connected && !EmptyUserPatch(p) && id in Ids(old(users)) ==>
        var k := IndexOf(old(users), id).value;
        var d := ApplyUserPatch(old(users)[k].data, p);
        && (UsernameTakenByOther(old(users), d.username, id) ==> r == Failure(UniqueViolation(UsernameUnique)))
        && (!UsernameTakenByOther(old(users), d.username, id) && !UserRefsOk(subsidiaries, d) ==>
              r == Failure(ForeignKeyViolation(UserSubsidiaryFk)))
        && (!UsernameTakenByOther(old(users), d.username, id) && UserRefsOk(subsidiaries, d) ==>
              r == Success(Row(id, d)) && users == old(users)[k := Row(id, d)])
      ensures r.Failure? ==> users == old(users)
    {
      if !connected { return Failure(NotConnected); }
      if EmptyUserPatch(p) { return Failure(NoValuesToSet); }
      var found := IndexOf(users, id);
      if found.None? { return Failure(UserNotFound); }
      var k := found.value;
      var d := ApplyUserPatch(users[k].data, p);
      if exists i :: 0 <= i < |users| && users[i].id != id && users[i].data.username == d.username {
        return Failure(UniqueViolation(UsernameUnique));
      }
      if !UserRefsOk(subsidiaries, d) { return Failure(ForeignKeyViolation(UserSubsidiaryFk)); }
      UpdateUserKeepsConsistent(State(), k, d);
      IdsUpdate(users, k, d);
      users := users[k := Row(id, d)];
      return Success(Row(id, d));
    }

    method DeleteUser(id: int) returns (r: Result<(), StorageError>)
      requires Valid()
      modifies this`users
      ensures Valid()
      ensures !connected ==> r == Failure(NotConnected)
      ensures connected && UserReferenced(State(), id) ==> r == Failure(ForeignKeyViolation(SaleUserFk)) || r == Failure(ForeignKeyViolation(LogUserFk))
      ensures connected && !UserReferenced(old(State()), id) ==> r.Success?
      ensures r.Failure? ==> users == old(users)
      ensures r.Success? ==> users == Delete(old(users), id) && id !in Ids(users)
      ensures connected && id !in Ids(old(users)) ==> r.Success? && users == old(users)
    {
      if !connected { return Failure(NotConnected); }
      if exists i :: 0 <= i < |sales| && sales[i].data.userId == id {
        return Failure(ForeignKeyViolation(SaleUserFk));
      }
      if exists i :: 0 <= i < |logs| && logs[i].data.userId == id {
        return Failure(ForeignKeyViolation(LogUserFk));
      }
      assert !UserReferenced(State(), id);
      DeleteUserKeepsConsistent(State(), id);
      DeleteKeys(users, id);
      ghost var post := State().(users := Delete(users, id));
      assert IdsBelow(post.users, nextUserId);
      users := Delete(users, id);
      assert State() == post;
      return Success(());
    }

    method GetSubsidiary(id: int) returns (r: Result<Option<Subsidiary>, StorageError>)
      ensures r.Failure? <==> !connected
      ensures r.Failure? ==> r.error == NotConnected
      ensures connected ==> r.Success? && (r.value.Some? <==> id in Ids(subsidiaries))
      ensures r.Success? && r.value.Some? ==> r.value.value in subsidiaries && r.value.value.id == id
    {
      if !connected { return Failure(NotConnected); }
      return Success(Find(subsidiaries, id));
    }

    method ListSubsidiaries() returns (r: Result<seq<Subsidiary>, StorageError>)
      ensures r.Failure? <==> !connected
      ensures r.Failure? ==> r.error == NotConnected
      ensures r.Success? ==> r.value == subsidiaries
    {
      if !connected { return Failure(NotConnected); }
      return Success(subsidiaries);
    }

    method CreateSubsidiary(s: SubsidiaryInput) returns (r: Result<Subsidiary, StorageError>)
      requires Valid()
      modifies this`subsidiaries, this`nextSubsidiaryId
      ensures Valid()
      ensures !connected ==> r == Failure(NotConnected)
      ensures connected && MissingFields(s) ==> r == Failure(MissingRequiredFields)
      ensures connected && !MissingFields(s) ==>
        if TaxIdTaken(old(subsidiaries), s.taxId.value) then r == Failure(UniqueViolation(TaxIdUnique))
        else r.Success? && r.value.data == SubsidiaryData(
          s.name.value, s.taxId.value, s.email.value, s.phoneNumber.value, None,
          s.address, s.city, s.country, s.status.GetOr(DefaultStatus))
      ensures r.Failure? ==> subsidiaries == old(subsidiaries) && nextSubsidiaryId == old(nextSubsidiaryId)
      ensures r.Success? ==>
        r.value.id !in Ids(old(subsidiaries)) && subsidiaries == old(subsidiaries) + [r.value] &&
        r.value.data.logo.None?
    {
      if !connected { return Failure(NotConnected); }
      if MissingFields(s) { return Failure(MissingRequiredFields); }
      if exists i :: 0 <= i < |subsidiaries| && subsidiaries[i].data.taxId == s.taxId.value {
        return Failure(UniqueViolation(TaxIdUnique));
      }
      var d := SubsidiaryData(
        s.name.value, s.taxId.value, s.email.value, s.phoneNumber.value, None,
        s.address, s.city, s.country, s.status.GetOr(DefaultStatus));
      var row := Row(nextSubsidiaryId, d);
      IdsBelowAppend(subsidiaries, row, nextSubsidiaryId);
      InsertSubsidiaryKeepsConsistent(State(), row);
      subsidiaries, nextSubsidiaryId := subsidiaries + [row], nextSubsidiaryId + 1;
      return Success(row);
    }

    method UpdateSubsidiary(id: int, p: SubsidiaryPatch) returns (r: Result<Subsidiary, StorageError>)
      requires Valid()
      modifies this`subsidiaries
      ensures Valid()
      ensures !connected ==> r == Failure(NotConnected)
      ensures connected && EmptySubsidiaryPatch(p) ==> r == Failure(NoValuesToSet)
      ensures connected && !EmptySubsidiaryPatch(p) && id !in Ids(old(subsidiaries)) ==> r == Failure(SubsidiaryNotFound)
      ensures connected && !EmptySubsidiaryPatch(p) && id in Ids(old(subsidiaries)) ==>
        var k := IndexOf(old(subsidiaries), id).value;
        var d := ApplySubsidiaryPatch(old(subsidiaries)[k].data, p);
        && (TaxIdTakenByOther(old(subsidiaries), d.taxId, id) ==> r == Failure(UniqueViolation(TaxIdUnique)))
        && (!TaxIdTakenByOther(old(subsidiaries), d.taxId, id) ==>
              r == Success(Row(id, d)) && subsidiaries == old(subsidiaries)[k := Row(id, d)])
      ensures r.Failure? ==> subsidiaries == old(subsidiaries)
    {
      if !connected { return Failure(NotConnected); }
      if EmptySubsidiaryPatch(p) { return Failure(NoValuesToSet); }
      var found := IndexOf(subsidiaries, id);
      if found.None? { return Failure(SubsidiaryNotFound); }
      var k := found.value;
      var d := ApplySubsidiaryPatch(subsidiaries[k].data, p);
      if exists i :: 0 <= i < |subsidiaries| && subsidiaries[i].id != id && subsidiaries[i].data.taxId == d.taxId {
        return Failure(UniqueViolation(TaxIdUnique));
      }
      UpdateSubsidiaryKeepsConsistent(State(), k, d);
      IdsUpdate(subsidiaries, k, d);
      subsidiaries := subsidiaries[k := Row(id, d)];
      return Success(Row(id, d));
    }

    method GetInventory(id: int) returns (r: Result<Option<InventoryItem>, StorageError>)
      ensures r.Failure? <==> !connected
      ensures r.Failure? ==> r.error == NotConnected
      ensures connected ==> r.Success? && (r.value.Some? <==> id in Ids(inventory))
      ensures r.Success? && r.value.Some? ==> r.value.value in inventory && r.value.value.id == id
    {
      if !connected { return Failure(NotConnected); }
      return Success(Find(inventory, id));
    }

    method ListInventoryBySubsidiary(sid: int) returns (r: Result<seq<InventoryItem>, StorageError>)
      ensures r.Failure? <==> !connected
      ensures r.Failure? ==> r.error == NotConnected
      ensures r.Success? ==> forall x :: x in r.value <==> x in inventory && x.data.subsidiaryId == sid
      ensures r.Success? ==> r.value == ItemsOf(inventory, sid)
    {
      if !connected { return Failure(NotConnected); }
      return Success(ItemsOf(inventory, sid));
    }

    method CreateInventory(item: ItemData) returns (r: Result<InventoryItem, StorageError>)
      requires Valid()
      modifies this`inventory, this`nextItemId
      ensures Valid()
      ensures !connected ==> r == Failure(NotConnected)
      ensures connected && !ItemRefsOk(subsidiaries, item) ==> r == Failure(ForeignKeyViolation(ItemSubsidiaryFk))
      ensures connected && ItemRefsOk(subsidiaries, item) ==> r.Success?
      ensures r.Failure? ==> inventory == old(inventory) && nextItemId == old(nextItemId)
      ensures r.Success? ==>
        r.value.data == item && r.value.id !in Ids(old(inventory)) && inventory == old(inventory) + [r.value]
    {
      if !connected { return Failure(NotConnected); }
      if !ItemRefsOk(subsidiaries, item) { return Failure(ForeignKeyViolation(ItemSubsidiaryFk)); }
      var row := Row(nextItemId, item);
      IdsBelowAppend(inventory, row, nextItemId);
      InsertItemKeepsConsistent(State(), row);
      inventory, nextItemId := inventory + [row], nextItemId + 1;
      return Success(row);
    }

    method UpdateInventory(id: int, p: ItemPatch) returns (r: Result<InventoryItem, StorageError>)
      requires Valid()
      modifies this`inventory
      ensures Valid()
      ensures !connected ==> r == Failure(NotConnected)
      ensures connected && EmptyItemPatch(p) ==> r == Failure(NoValuesToSet)
      ensures connected && !EmptyItemPatch(p) && id !in Ids(old(inventory)) ==> r == Failure(InventoryItemNotFound)
      ensures connected && !EmptyItemPatch(p) && id in Ids(old(inventory)) ==>
        var k := IndexOf(old(inventory), id).value;
        var d := ApplyItemPatch(old(inventory)[k].data, p);
        && (!ItemRefsOk(subsidiaries, d) ==> r == Failure(ForeignKeyViolation(ItemSubsidiaryFk)))
        && (ItemRefsOk(subsidiaries, d) ==> r == Success(Row(id, d)) && inventory == old(inventory)[k := Row(id, d)])
      ensures r.Failure? ==> inventory == old(inventory)
    {
      if !connected { return Failure(NotConnected); }
      if EmptyItemPatch(p) { return Failure(NoValuesToSet); }
      var found := IndexOf(inventory, id);
      if found.None? { return Failure(InventoryItemNotFound); }
      var k := found.value;
      var d := ApplyItemPatch(inventory[k].data, p);
      if !ItemRefsOk(subsidiaries, d) { return Failure(ForeignKeyViolation(ItemSubsidiaryFk)); }
      UpdateItemKeepsConsistent(State(), k, d);
      IdsUpdate(inventory, k, d);
      inventory := inventory[k := Row(id, d)];
      return Success(Row(id, d));
    }

    method DeleteInventory(id: int) returns (r: Result<(), StorageError>)
      requires Valid()
      modifies this`inventory
      ensures Valid()
      ensures !connected ==> r == Failure(NotConnected)
      ensures connected && ItemReferenced(sales, id) ==> r == Failure(ForeignKeyViolation(SaleItemFk))
      ensures connected && !ItemReferenced(sales, id) ==> r.Success?
      ensures r.Failure? ==> inventory == old(inventory)
      ensures r.Success? ==> inventory == Delete(old(inventory), id) && id !in Ids(inventory)
      ensures connected && id !in Ids(old(inventory)) ==> r.Success? && inventory == old(inventory)
    {
      if !connected { return Failure(NotConnected); }
      if exists i :: 0 <= i < |sales| && sales[i].data.itemId == id {
        return Failure(ForeignKeyViolation(SaleItemFk));
      }
      DeleteItemKeepsConsistent(State(), id);
      DeleteKeys(inventory, id);
      inventory := Delete(inventory, id);
      return Success(());
    }

    /**
     * Records a sale and takes its quantity out of stock, as one atomic step.
     * The timestamp defaults to `now`.
     */
    method CreateSale(sale: SaleInput, now: int) returns (r: Result<Sale, StorageError>)
      requires Valid()
      modifies this`sales, this`inventory, this`nextSaleId
      ensures Valid()
      ensures !connected ==> r == Failure(NotConnected)
      ensures connected && sale.itemId !in Ids(old(inventory)) ==> r == Failure(InventoryItemNotFound)
      ensures connected && sale.itemId in Ids(old(inventory)) ==>
        var k := IndexOf(old(inventory), sale.itemId).value;
        var stock := old(inventory)[k].data.quantity;
        && (stock < sale.quantity ==> r == Failure(InsufficientStock))
        && (stock >= sale.quantity && sale.subsidiaryId !in Ids(subsidiaries) ==>
              r == Failure(ForeignKeyViolation(SaleSubsidiaryFk)))
        && (stock >= sale.quantity && sale.subsidiaryId in Ids(subsidiaries) && sale.userId !in Ids(users) ==>
              r == Failure(ForeignKeyViolation(SaleUserFk)))
        && (stock >= sale.quantity && sale.subsidiaryId in Ids(subsidiaries) && sale.userId in Ids(users) ==>
              r.Success?)
      ensures r.Failure? ==> sales == old(sales) && inventory == old(inventory) && nextSaleId == old(nextSaleId)
      ensures r.Success? ==>
        && r.value.data == SaleData(sale.subsidiaryId, sale.userId, sale.itemId, sale.quantity,
                                    sale.salePrice, sale.timestamp.GetOr(now))
        && r.value.id !in Ids(old(sales)) && sales == old(sales) + [r.value]
        && StockTaken(old(inventory), inventory, sale.itemId, sale.quantity)
    {
      if !connected { return Failure(NotConnected); }
      var found := IndexOf(inventory, sale.itemId);
      if found.None? { return Failure(InventoryItemNotFound); }
      var k := found.value;
      var item := inventory[k];
      if item.data.quantity < sale.quantity { return Failure(InsufficientStock); }
      if sale.subsidiaryId !in Ids(subsidiaries) { return Failure(ForeignKeyViolation(SaleSubsidiaryFk)); }
      if sale.userId !in Ids(users) { return Failure(ForeignKeyViolation(SaleUserFk)); }
      var row := Row(nextSaleId, SaleData(sale.subsidiaryId, sale.userId, sale.itemId, sale.quantity,
                                          sale.salePrice, sale.timestamp.GetOr(now)));
      var d := item.data.(quantity := item.data.quantity - sale.quantity);
      IdsBelowAppend(sales, row, nextSaleId);
      InsertSaleKeepsConsistent(State(), row);
      UpdateItemKeepsConsistent(State().(sales := sales + [row]), k, d);
      IdsUpdate(inventory, k, d);
      IdsBelowUpdate(inventory, k, d, nextItemId);
      ghost var post := State().(sales := sales + [row]);
      post := post.(inventory := post.inventory[k := Row(post.inventory[k].id, d)]);
      assert Consistent(post);
      sales, nextSaleId := sales + [row], nextSaleId + 1;
      inventory := inventory[k := Row(item.id, d)];
      assert State() == post;
      assert IdsBelow(inventory, nextItemId) && IdsBelow(sales, nextSaleId);
      return Success(row);
    }

    method ListSalesBySubsidiary(sid: int) returns (r: Result<seq<Sale>, StorageError>)
      ensures r.Failure? <==> !connected
      ensures r.Failure? ==> r.error == NotConnected
      ensures r.Success? ==> forall x :: x in r.value <==> x in sales && x.data.subsidiaryId == sid
      ensures r.Success? ==> r.value == SalesOf(sales, sid)
    {
      if !connected { return Failure(NotConnected); }
      return Success(SalesOf(sales, sid));
    }

    /** Appends an activity log; the timestamp defaults to `now`. */
    method CreateActivityLog(log: LogInput, now: int) returns (r: Result<ActivityLog, StorageError>)
      requires Valid()
      modifies this`logs, this`nextLogId
      ensures Valid()
      ensures !connected ==> r == Failure(NotConnected)
      ensures connected && log.subsidiaryId.Some? && log.subsidiaryId.value !in Ids(subsidiaries) ==>
        r == Failure(ForeignKeyViolation(LogSubsidiaryFk))
      ensures (connected && !(log.subsidiaryId.Some? && log.subsidiaryId.value !in Ids(subsidiaries)) &&
               log.userId !in Ids(users)) ==> r == Failure(ForeignKeyViolation(LogUserFk))
      ensures (connected && (log.subsidiaryId.Some? ==> log.subsidiaryId.value in Ids(subsidiaries)) &&
               log.userId in Ids(users)) ==> r.Success?
      ensures r.Failure? ==> logs == old(logs) && nextLogId == old(nextLogId)
      ensures r.Success? ==>
        && r.value.data == LogData(log.subsidiaryId, log.userId, log.action, log.details, log.timestamp.GetOr(now))
        && r.value.id !in Ids(old(logs)) && logs == old(logs) + [r.value]
    {
      if !connected { return Failure(NotConnected); }
      if log.subsidiaryId.Some? && log.subsidiaryId.value !in Ids(subsidiaries) {
        return Failure(ForeignKeyViolation(LogSubsidiaryFk));
      }
      if log.userId !in Ids(users) { return Failure(ForeignKeyViolation(LogUserFk)); }
      var row := Row(nextLogId, LogData(log.subsidiaryId, log.userId, log.action, log.details, log.timestamp.GetOr(now)));
      IdsBelowAppend(logs, row, nextLogId);
      InsertLogKeepsConsistent(State(), row);
      logs, nextLogId := logs + [row], nextLogId + 1;
      return Success(row);
    }

    method ListActivityLogs(sid: Option<int>) returns (r: Result<seq<ActivityLog>, StorageError>)
      ensures r.Failure? <==> !connected
      ensures r.Failure? ==> r.error == NotConnected
      ensures r.Success? && (sid.None? || sid.value == 0) ==> r.value == logs
      ensures r.Success? && sid.Some? && sid.value != 0 ==>
        forall x :: x in r.value <==> x in logs && x.data.subsidiaryId == sid
      ensures r.Success? ==> r.value == LogsOf(logs, sid)
    {
      if !connected { return Failure(NotConnected); }
      return Success(LogsOf(logs, sid));
    }

    /**
     * Creates the user "admin" (role mhc_admin, no subsidiary) with the given
     * password hash unless a user of that name exists; a second call changes nothing.
     */
    method EnsureDefaultAdmin(hashedPassword: string) returns (r: Result<(), StorageError>)
      requires Valid()
      modifies this`users, this`nextUserId
      ensures Valid()
      ensures r.Failure? <==> !connected
      ensures r.Failure? ==> r.error == NotConnected
      ensures !connected || UsernameTaken(old(users), DefaultAdminName) ==> users == old(users)
      ensures connected && !UsernameTaken(old(users), DefaultAdminName) ==>
        exists id :: id !in Ids(old(users)) &&
          users == old(users) + [Row(id, UserData(DefaultAdminName, hashedPassword, MhcAdmin, None))]
      ensures connected ==> UsernameTaken(users, DefaultAdminName)
    {
      var existing := GetUserByUsername(DefaultAdminName);
      if existing.Failure? { return Failure(existing.error); }
      if existing.value.None? {
        var created := CreateUser(UserData(DefaultAdminName, hashedPassword, MhcAdmin, None));
        assert users[|users| - 1].data.username == DefaultAdminName;
      }
      return Success(());
    }
  }

  const DefaultAdminName := "admin"
  /** The seed password, hashed by the caller before `EnsureDefaultAdmin` stores it. */
  const DefaultAdminPassword := "admin123"
}
