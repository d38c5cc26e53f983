/**
 * The request handlers of the HTTP layer that carry rules of their own: the
 * user management of a subsidiary, subsidiary creation from a multipart form,
 * sale creation, the activity-log listing, the two holding-wide aggregates
 * and the report endpoint. Each handler runs its guard first, then its calls
 * into the storage object, and appends an activity log where the application
 * records one. Clocks and password hashing are inputs.
 */
module Routes {
  import opened Wrappers
  import Text
  import opened Tables
  import opened Schema
  import opened Storage
  import opened Access
  import opened Reports
  import opened Csv

  /**
   * What the client receives: a status with a value, a status with a message,
   * or an error that escapes a handler with no error handling of its own.
   */
  datatype Reply<T> = Ok(status: int, value: T) | Err(status: int, message: string) | Unhandled(error: StorageError)

  /** The path of a route that names a subsidiary by its number. */
  function SubsidiaryPath(sid: int): PathParams {
    PathParams(Some(Text.IntToString(sid)), None)
  }

  /** The caller administers the subsidiary the path names. */
  predicate AdminOf(caller: Option<Principal>, sid: int) {
    caller.Some? && caller.value.role == SubsidiaryAdmin && caller.value.subsidiaryId == Some(sid)
  }

  /** The last row of `logs` is the one a handler appended to `before`. */
  predicate LogAppended(before: seq<ActivityLog>, logs: seq<ActivityLog>, d: LogData) {
    |logs| == |before| + 1 && logs[..|before|] == before && logs[|before|].data == d
  }

  const CreateUserAction := "CREATE_USER"
  const CreateSubsidiaryAction := "CREATE_SUBSIDIARY"
  const CreateSaleAction := "CREATE_SALE"

  /** The route guard of the subsidiary routes, then the subsidiary-admin-only rule of user management. */
  method GuardUserManagement(caller: Option<Principal>, sid: int, roleMessage: string) returns (reply: Option<Reply<()>>)
    ensures reply.None? <==> AdminOf(caller, sid)
    ensures caller.None? ==> reply == Some(Err(401, "Unauthorized"))
    ensures caller.Some? && caller.value.role == MhcAdmin ==> reply == Some(Err(403, roleMessage))
    ensures caller.Some? && caller.value.role == Staff ==> reply.Some? && reply.value.Err? && reply.value.status == 403
    ensures caller.Some? && caller.value.role == SubsidiaryAdmin && caller.value.subsidiaryId != Some(sid) ==>
      reply == Some(Err(403, "Forbidden"))
  {
    if caller.Some? { SubsidiaryPathAccess(caller.value, sid); }
    var d := RequireSubsidiaryAccess(caller, SubsidiaryPath(sid));
    if d.Deny? { return Some(Err(d.status, d.message)); }
    if caller.value.role != SubsidiaryAdmin { return Some(Err(403, roleMessage)); }
    return None;
  }

  /**
   * POST /api/subsidiaries/:subsidiaryId/users. Only an administrator of that
   * subsidiary may create users; the new user is staff of the path's
   * subsidiary whatever the body says, and the creation is logged.
   */
  method PostSubsidiaryUser(db: DatabaseStorage, caller: Option<Principal>, sid: int,
                            username: string, hashedPassword: string, now: int) returns (reply: Reply<User>)
    requires db.Valid()
    modifies db`users, db`nextUserId, db`logs, db`nextLogId
    ensures db.Valid()
    ensures caller.None? ==> reply == Err(401, "Unauthorized")
    ensures caller.Some? && !AdminOf(caller, sid) ==> reply.Err? && reply.status == 403
    ensures caller.Some? && caller.value.role == MhcAdmin ==> reply == Err(403, "Only subsidiary admins can create users")
    ensures AdminOf(caller, sid) && !db.connected ==> reply == Err(400, Message(NotConnected))
    ensures AdminOf(caller, sid) && db.connected && UsernameTaken(old(db.users), username) ==>
      reply == Err(400, "Username already exists")
    ensures !AdminOf(caller, sid) || !db.connected || UsernameTaken(old(db.users), username) ==>
      db.users == old(db.users) && db.logs == old(db.logs)
    ensures (AdminOf(caller, sid) && db.connected && !UsernameTaken(old(db.users), username) &&
             sid in Ids(db.subsidiaries) && caller.value.id in Ids(old(db.users))) ==> reply.Ok?
    ensures reply.Ok? ==>
      && AdminOf(caller, sid) && reply.status == 201
      && reply.value.data == UserData(username, hashedPassword, Staff, Some(sid))
      && db.users == old(db.users) + [reply.value]
      && LogAppended(old(db.logs), db.logs,
           LogData(Some(sid), caller.value.id, CreateUserAction, Some("Created user: " + username), now))
  {
    var rejected := GuardUserManagement(caller, sid, "Only subsidiary admins can create users");
    if rejected.Some? { return Err(rejected.value.status, rejected.value.message); }
    var existing := db.GetUserByUsername(username);
    if existing.Failure? { return Err(400, Message(existing.error)); }
    if existing.value.Some? { return Err(400, "Username already exists"); }
    ghost var before := db.users;
    var created := db.CreateUser(UserData(username, hashedPassword, Staff, Some(sid)));
    if created.Failure? { return Err(400, Message(created.error)); }
    assert created.value.data.username == username;
    IdsAppend(before, created.value);
    ghost var usersAfter := db.users;
    var logged := db.CreateActivityLog(
      LogInput(Some(sid), caller.value.id, CreateUserAction, Some("Created user: " + created.value.data.username), Some(now)), now);
    assert db.users == usersAfter;
    if logged.Failure? { return Err(400, Message(logged.error)); }
    return Ok(201, created.value);
  }

  /** The body of a user update, with a non-empty password replaced by its hash. */
  function HashedPatch(p: UserPatch, hashedPassword: string): (q: UserPatch)
    ensures q.username == p.username && q.role == p.role && q.subsidiaryId == p.subsidiaryId
    ensures p.password.Some? && p.password.value != "" ==> q.password == Some(hashedPassword)
    ensures p.password.None? || p.password.value == "" ==> q.password == p.password
  {
    if p.password.Some? && p.password.value != "" then p.(password := Some(hashedPassword)) else p
  }

  /** The user exists and belongs to the subsidiary. */
  predicate MemberOf(users: seq<User>, userId: int, sid: int) {
    exists u :: u in users && u.id == userId && u.data.subsidiaryId == Some(sid)
  }

  /**
   * PATCH /api/subsidiaries/:subsidiaryId/users/:userId. Only an administrator
   * of that subsidiary may change users, and only users of that subsidiary;
   * every field of the body is written, the role included.
   */
  method PatchSubsidiaryUser(db: DatabaseStorage, caller: Option<Principal>, sid: int, userId: int,
                             p: UserPatch, hashedPassword: string) returns (reply: Reply<User>)
    requires db.Valid()
    modifies db`users
    ensures db.Valid()
    ensures caller.None? ==> reply == Err(401, "Unauthorized")
    ensures caller.Some? && !AdminOf(caller, sid) ==> reply.Err? && reply.status == 403
    ensures caller.Some? && caller.value.role == MhcAdmin ==> reply == Err(403, "Only subsidiary admins can modify users")
    ensures AdminOf(caller, sid) && db.connected && !MemberOf(old(db.users), userId, sid) ==>
      reply == Err(404, "User not found")
    ensures reply.Ok? ==>
      && AdminOf(caller, sid) && reply.status == 200 && MemberOf(old(db.users), userId, sid)
      && (var k := Tables.IndexOf(old(db.users), userId).value;
          reply.value == Row(userId, ApplyUserPatch(old(db.users)[k].data, HashedPatch(p, hashedPassword)))
          && db.users == old(db.users)[k := reply.value])
    ensures reply.Ok? && p.role.Some? ==> reply.value.data.role == p.role.value
    ensures AdminOf(caller, sid) && db.connected && MemberOf(old(db.users), userId, sid) && EmptyUserPatch(p) ==>
      reply == Err(400, "No values to set")
    ensures !reply.Ok? ==> db.users == old(db.users)
  {
    var rejected := GuardUserManagement(caller, sid, "Only subsidiary admins can modify users");
    if rejected.Some? { return Err(rejected.value.status, rejected.value.message); }
    var found := db.GetUser(userId);
    if found.Failure? { return Err(400, Message(found.error)); }
    if found.value.None? || found.value.value.data.subsidiaryId != Some(sid) {
      if MemberOf(db.users, userId, sid) {
        var u :| u in db.users && u.id == userId && u.data.subsidiaryId == Some(sid);
        UniqueIdsAgree(db.users, u, found.value.value);
      }
      return Err(404, "User not found");
    }
    var updated := db.UpdateUser(userId, HashedPatch(p, hashedPassword));
    if updated.Failure? { return Err(400, Message(updated.error)); }
    return Ok(200, updated.value);
  }

  /** In a table with unique keys, two rows with the same key are the same row. */
  lemma UniqueIdsAgree<T>(rows: seq<Row<T>>, a: Row<T>, b: Row<T>)
    requires UniqueIds(rows) && a in rows && b in rows && a.id == b.id
    ensures a == b
  {
  }

  /**
   * DELETE /api/subsidiaries/:subsidiaryId/users/:userId. Only an administrator
   * of that subsidiary may delete users, and only users of that subsidiary.
   */
  method DeleteSubsidiaryUser(db: DatabaseStorage, caller: Option<Principal>, sid: int, userId: int)
    returns (reply: Reply<()>)
    requires db.Valid()
    modifies db`users
    ensures db.Valid()
    ensures caller.None? ==> reply == Err(401, "Unauthorized")
    ensures caller.Some? && !AdminOf(caller, sid) ==> reply.Err? && reply.status == 403
    ensures caller.Some? && caller.value.role == MhcAdmin ==> reply == Err(403, "Only subsidiary admins can delete users")
    ensures AdminOf(caller, sid) && db.connected && !MemberOf(old(db.users), userId, sid) ==>
      reply == Err(404, "User not found")
    ensures (AdminOf(caller, sid) && db.connected && MemberOf(old(db.users), userId, sid) &&
             !UserReferenced(db.State(), userId)) ==> reply == Ok(204, ())
    ensures reply.Ok? ==> MemberOf(old(db.users), userId, sid) && db.users == Delete(old(db.users), userId)
    ensures !reply.Ok? ==> db.users == old(db.users)
  {
    var rejected := GuardUserManagement(caller, sid, "Only subsidiary admins can delete users");
    if rejected.Some? { return Err(rejected.value.status, rejected.value.message); }
    var found := db.GetUser(userId);
    if found.Failure? { return Err(400, Message(found.error)); }
    if found.value.None? || found.value.value.data.subsidiaryId != Some(sid) {
      if MemberOf(db.users, userId, sid) {
        var u :| u in db.users && u.id == userId && u.data.subsidiaryId == Some(sid);
        UniqueIdsAgree(db.users, u, found.value.value);
      }
      return Err(404, "User not found");
    }
    var deleted := db.DeleteUser(userId);
    if deleted.Failure? { return Err(400, Message(deleted.error)); }
    return Ok(204, ());
  }

  // ---------------------------------------------------------------------------
  // Subsidiary creation from a multipart form

  /** The text fields of a multipart form, in the order they were appended. */
  type Form = seq<(string, string)>

  /** `req.body[key]`: the first field of that name. */
  function FormGet(form: Form, key: string): (r: Option<string>)
    ensures r.None? <==> forall i :: 0 <= i < |form| ==> form[i].0 != key
    ensures r.Some? ==> exists i :: 0 <= i < |form| && form[i] == (key, r.value)
  {
    if |form| == 0 then None
    else if form[0].0 == key then Some(form[0].1)
    else
      var r := FormGet(form[1..], key);
      assert forall i :: 0 < i < |form| ==> form[i] == form[1..][i - 1];
      r
  }

  /** The first field with a key answers for it. */
  lemma {:induction false} FormGetAt(form: Form, key: string, i: nat)
    requires i < |form| && form[i].0 == key
    requires forall j :: 0 <= j < i ==> form[j].0 != key
    ensures FormGet(form, key) == Some(form[i].1)
  {
    if i > 0 {
      FormGetAt(form[1..], key, i - 1);
    }
  }

  /** No key is sent twice, as the subsidiary form builds its body. */
  predicate DistinctKeys(form: Form) {
    forall i, j :: 0 <= i < j < |form| ==> form[i].0 != form[j].0
  }

  /** Two forms with distinct keys and no key in common make one with distinct keys. */
  lemma DistinctKeysAppend(a: Form, b: Form)
    requires DistinctKeys(a) && DistinctKeys(b)
    requires forall i, j :: 0 <= i < |a| && 0 <= j < |b| ==> a[i].0 != b[j].0
    ensures DistinctKeys(a + b)
  {
    forall i, j | 0 <= i < j < |a + b|
      ensures (a + b)[i].0 != (a + b)[j].0
    {
      if j < |a| {
      } else if i < |a| {
        assert (a + b)[j] == b[j - |a|];
      } else {
        assert (a + b)[i] == b[i - |a|] && (a + b)[j] == b[j - |a|];
      }
    }
  }

  /** On a form with distinct keys, a key reads the one value sent under it. */
  lemma FormGetDistinct(form: Form, key: string, v: string)
    requires DistinctKeys(form)
    ensures FormGet(form, key) == Some(v) <==> exists i :: 0 <= i < |form| && form[i] == (key, v)
  {
    if exists i :: 0 <= i < |form| && form[i] == (key, v) {
      var i :| 0 <= i < |form| && form[i] == (key, v);
      FormGetAt(form, key, i);
    }
  }

  /** Fields appended after a key's first field do not change its value. */
  lemma {:induction false} FormGetAppend(a: Form, b: Form, key: string)
    ensures FormGet(a + b, key) == if FormGet(a, key).Some? then FormGet(a, key) else FormGet(b, key)
  {
    if |a| > 0 {
      FormGetAppend(a[1..], b, key);
      assert (a + b)[1..] == a[1..] + b;
    } else {
      assert a + b == b;
    }
  }

  const UploadPrefix := "/uploads/"

  /**
   * What the subsidiary route hands to the storage layer: the form's fields,
   * `status` true exactly when the field reads "true", and the stored file's
   * public path as the logo.
   */
  function SubsidiaryFromForm(form: Form, fileName: Option<string>): (r: SubsidiaryInput)
    ensures r.status == Some(FormGet(form, "status") == Some("true"))
    ensures fileName.Some? ==> r.logo == Some(UploadPrefix + fileName.value)
    ensures fileName.None? ==> r.logo.None?
    ensures r.name == FormGet(form, "name") && r.taxId == FormGet(form, "taxId")
    ensures r.email == FormGet(form, "email") && r.phoneNumber == FormGet(form, "phoneNumber")
    ensures r.address == FormGet(form, "address") && r.city == FormGet(form, "city")
    ensures r.country == FormGet(form, "country")
  {
    SubsidiaryInput(
      FormGet(form, "name"), FormGet(form, "taxId"), FormGet(form, "email"), FormGet(form, "phoneNumber"),
      FormGet(form, "address"), FormGet(form, "city"), FormGet(form, "country"),
      Some(FormGet(form, "status") == Some("true")),
      if fileName.Some? then Some(UploadPrefix + fileName.value) else None)
  }

  /** A form without a status field creates an inactive subsidiary, although the column defaults to active. */
  lemma MissingStatusIsInactive(form: Form, fileName: Option<string>)
    requires forall i :: 0 <= i < |form| ==> form[i].0 != "status"
    ensures SubsidiaryFromForm(form, fileName).status == Some(false)
    ensures SubsidiaryFromForm(form, fileName).status.GetOr(DefaultStatus) != DefaultStatus
  {
  }

  /** POST /api/subsidiaries: holding administrators create a subsidiary and the creation is logged. */
  method PostSubsidiary(db: DatabaseStorage, caller: Option<Principal>, form: Form, fileName: Option<string>, now: int)
    returns (reply: Reply<Subsidiary>)
    requires db.Valid()
    modifies db`subsidiaries, db`nextSubsidiaryId, db`logs, db`nextLogId
    ensures db.Valid()
    ensures RequireMhcAdmin(caller) != Allow ==>
      reply == Err(403, "Forbidden") && db.subsidiaries == old(db.subsidiaries) && db.logs == old(db.logs)
    ensures RequireMhcAdmin(caller) == Allow && db.connected && MissingFields(SubsidiaryFromForm(form, fileName)) ==>
      reply == Err(400, Message(MissingRequiredFields)) && db.subsidiaries == old(db.subsidiaries)
    ensures reply.Ok? ==>
      && RequireMhcAdmin(caller) == Allow && reply.status == 201
      && reply.value.data.status == (FormGet(form, "status") == Some("true"))
      && reply.value.data.logo.None?
      && db.subsidiaries == old(db.subsidiaries) + [reply.value]
      && LogAppended(old(db.logs), db.logs,
           LogData(Some(reply.value.id), caller.value.id, CreateSubsidiaryAction,
                   Some("Created subsidiary: " + reply.value.data.name), now))
  {
    var d := RequireMhcAdmin(caller);
    if d.Deny? { return Err(d.status, d.message); }
    var created := db.CreateSubsidiary(SubsidiaryFromForm(form, fileName));
    if created.Failure? { return Err(400, Message(created.error)); }
    var s := created.value;
    var logged := db.CreateActivityLog(
      LogInput(Some(s.id), caller.value.id, CreateSubsidiaryAction, Some("Created subsidiary: " + s.data.name), Some(now)), now);
    if logged.Failure? { return Err(400, Message(logged.error)); }
    return Ok(201, s);
  }

  // ---------------------------------------------------------------------------
  // Sales

  /** The fields of a sale the client sends; the subsidiary and the seller come from the path and the session. */
  datatype SaleBody = SaleBody(itemId: int, quantity: int, salePrice: real, timestamp: Option<int>)

  /**
   * POST /api/subsidiaries/:subsidiaryId/sales: records the sale for the path's
   * subsidiary and the caller, and logs it. The price is shown as `priceText`.
   */
  method PostSale(db: DatabaseStorage, caller: Option<Principal>, sid: int, body: SaleBody, now: int, priceText: string)
    returns (reply: Reply<Sale>)
    requires db.Valid()
    modifies db`sales, db`inventory, db`nextSaleId, db`logs, db`nextLogId
    ensures db.Valid()
    ensures RequireSubsidiaryAccess(caller, SubsidiaryPath(sid)) != Allow ==>
      reply.Err? && reply.status in {401, 403} && db.sales == old(db.sales) && db.inventory == old(db.inventory)
    ensures (RequireSubsidiaryAccess(caller, SubsidiaryPath(sid)) == Allow && db.connected &&
             body.itemId !in Ids(old(db.inventory))) ==> reply == Err(400, "Inventory item not found")
    ensures reply.Ok? ==>
      && reply.status == 201
      && reply.value.data == SaleData(sid, caller.value.id, body.itemId, body.quantity, body.salePrice, body.timestamp.GetOr(now))
      && db.sales == old(db.sales) + [reply.value]
      && StockTaken(old(db.inventory), db.inventory, body.itemId, body.quantity)
      && LogAppended(old(db.logs), db.logs,
           LogData(Some(sid), caller.value.id, CreateSaleAction,
                   Some("Created sale: " + Text.IntToString(body.quantity) + " items at $" + priceText), now))
  {
    var d := RequireSubsidiaryAccess(caller, SubsidiaryPath(sid));
    if d.Deny? { return Err(d.status, d.message); }
    var created := db.CreateSale(SaleInput(sid, caller.value.id, body.itemId, body.quantity, body.salePrice, body.timestamp), now);
    if created.Failure? {
      if db.connected && body.itemId !in Ids(old(db.inventory)) {
        assert created.error == InventoryItemNotFound;
      }
      return Err(400, Message(created.error));
    }
    var sale := created.value;
    assert sale.data.quantity == body.quantity;
    ghost var salesAfter, inventoryAfter := db.sales, db.inventory;
    var logged := db.CreateActivityLog(
      LogInput(Some(sid), caller.value.id, CreateSaleAction,
               Some("Created sale: " + Text.IntToString(sale.data.quantity) + " items at $" + priceText), Some(now)), now);
    assert db.sales == salesAfter && db.inventory == inventoryAfter;
    if logged.Failure? { return Err(400, Message(logged.error)); }
    return Ok(201, sale);
  }

  // ---------------------------------------------------------------------------
  // Listings and aggregates

  /**
   * GET /api/activity-logs: the holding's administrators see every log, other
   * users the logs of their own subsidiary, or every log when they have none.
   */
  method GetActivityLogs(db: DatabaseStorage, caller: Option<Principal>) returns (reply: Reply<seq<ActivityLog>>)
    ensures caller.None? ==> reply == Err(401, "Unauthorized")
    ensures caller.Some? && !db.connected ==> reply == Unhandled(NotConnected)
    ensures caller.Some? && db.connected ==> reply.Ok? && reply.status == 200
    ensures reply.Ok? && (caller.value.role == MhcAdmin || caller.value.subsidiaryId.None?) ==> reply.value == db.logs
    ensures reply.Ok? && caller.value.role != MhcAdmin && caller.value.subsidiaryId.Some? && caller.value.subsidiaryId.value != 0 ==>
      forall l :: l in reply.value <==> l in db.logs && l.data.subsidiaryId == caller.value.subsidiaryId
  {
    var d := RequireAuth(caller);
    if d.Deny? { return Err(d.status, d.message); }
    var logs := db.ListActivityLogs(ActivityLogScope(caller.value));
    if logs.Failure? { return Unhandled(logs.error); }
    return Ok(200, logs.value);
  }

  /** Each listed subsidiary's sales in turn. */
  method CollectSales(db: DatabaseStorage, subs: seq<Subsidiary>) returns (r: Result<seq<Sale>, StorageError>)
    ensures r.Failure? ==> !db.connected && r.error == NotConnected
    ensures r.Success? ==> r.value == AllSales(db.sales, subs)
  {
    var all: seq<Sale> := [];
    var i := 0;
    while i < |subs|
      invariant 0 <= i <= |subs|
      invariant all == AllSales(db.sales, subs[..i])
    {
      var part := db.ListSalesBySubsidiary(subs[i].id);
      if part.Failure? { return Failure(part.error); }
      assert subs[..i + 1][..i] == subs[..i];
      all := all + part.value;
      i := i + 1;
    }
    assert subs[..i] == subs;
    return Success(all);
  }

  /** GET /api/sales: every subsidiary's sales, in subsidiary order. */
  method GetAllSales(db: DatabaseStorage, caller: Option<Principal>) returns (reply: Reply<seq<Sale>>)
    ensures RequireMhcAdmin(caller) != Allow ==> reply == Err(403, "Forbidden")
    ensures RequireMhcAdmin(caller) == Allow && !db.connected ==> reply == Unhandled(NotConnected)
    ensures RequireMhcAdmin(caller) == Allow && db.connected ==>
      reply == Ok(200, AllSales(db.sales, db.subsidiaries))
  {
    var d := RequireMhcAdmin(caller);
    if d.Deny? { return Err(d.status, d.message); }
    var subs := db.ListSubsidiaries();
    if subs.Failure? { return Unhandled(subs.error); }
    var all := CollectSales(db, subs.value);
    assert all.Success?;
    return Ok(200, all.value);
  }

  /** GET /api/inventory/total: the number of inventory items, added up subsidiary by subsidiary. */
  method GetInventoryTotal(db: DatabaseStorage, caller: Option<Principal>) returns (reply: Reply<nat>)
    ensures RequireMhcAdmin(caller) != Allow ==> reply == Err(403, "Forbidden")
    ensures RequireMhcAdmin(caller) == Allow && !db.connected ==> reply == Unhandled(NotConnected)
    ensures RequireMhcAdmin(caller) == Allow && db.connected ==>
      reply == Ok(200, TotalItems(db.inventory, db.subsidiaries))
  {
    var d := RequireMhcAdmin(caller);
    if d.Deny? { return Err(d.status, d.message); }
    var subs := db.ListSubsidiaries();
    if subs.Failure? { return Unhandled(subs.error); }
    var total: nat := 0;
    var i := 0;
    while i < |subs.value|
      invariant 0 <= i <= |subs.value|
      invariant total == TotalItems(db.inventory, subs.value[..i])
    {
      var items := db.ListInventoryBySubsidiary(subs.value[i].id);
      assert items.Success?;
      assert subs.value[..i + 1][..i] == subs.value[..i];
      total := total + |items.value|;
      i := i + 1;
    }
    assert subs.value[..i] == subs.value;
    return Ok(200, total);
  }

  // ---------------------------------------------------------------------------
  // Reports

  datatype ReportFormat = JsonFormat | CsvFormat
  datatype ReportBody = Rows(records: seq<Record>) | CsvText(text: string)

  /** Each listed subsidiary's inventory rows in turn. */
  method CollectInventoryRows(db: DatabaseStorage, subs: seq<Subsidiary>) returns (r: Result<seq<InventoryRow>, StorageError>)
    ensures r.Failure? ==> !db.connected && r.error == NotConnected
    ensures r.Success? ==> r.value == InventoryReportRows(db.inventory, subs)
  {
    var rows: seq<InventoryRow> := [];
    var i := 0;
    while i < |subs|
      invariant 0 <= i <= |subs|
      invariant rows == InventoryReportRows(db.inventory, subs[..i])
    {
      var items := db.ListInventoryBySubsidiary(subs[i].id);
      if items.Failure? { return Failure(items.error); }
      assert subs[..i + 1][..i] == subs[..i];
      rows := rows + ItemRows(subs[i], items.value);
      i := i + 1;
    }
    assert subs[..i] == subs;
    return Success(rows);
  }

  /** The records of a report, read through the storage object. */
  method GatherReport(db: DatabaseStorage, t: ReportType, w: Window, date: int -> string, money: real -> string)
    returns (r: Result<seq<Record>, StorageError>)
    ensures r.Failure? <==> !db.connected
    ensures r.Failure? ==> r.error == NotConnected
    ensures r.Success? ==> r.value == ReportRecords(db.State(), t, w, date, money)
  {
    if !db.connected { return Failure(NotConnected); }
    match t
    case SalesReport =>
      var subs := db.ListSubsidiaries();
      var users := db.ListUsers();
      var all := CollectSales(db, subs.value);
      assert subs.Success? && users.Success? && all.Success?;
      return Success(SalesRecords(SalesRowsFrom(all.value, subs.value, users.value, w), date, money));
    case InventoryReport =>
      var subs := db.ListSubsidiaries();
      var rows := CollectInventoryRows(db, subs.value);
      assert subs.Success? && rows.Success?;
      return Success(InventoryRecords(rows.value, money));
    case ActivityReport =>
      var logs := db.ListActivityLogs(None);
      var subs := db.ListSubsidiaries();
      var users := db.ListUsers();
      assert logs.Success? && subs.Success? && users.Success?;
      return Success(ActivityRecords(ActivityReportRows(logs.value, subs.value, users.value, w), date));
  }

  /**
   * GET /api/reports/:type: an unknown type is refused before the database is
   * touched; a storage error becomes a 500; the records are sent as they are
   * or as CSV.
   */
  method GetReport(db: DatabaseStorage, caller: Option<Principal>, typeName: string, w: Window, format: ReportFormat,
                   date: int -> string, money: real -> string) returns (reply: Reply<ReportBody>)
    ensures RequireMhcAdmin(caller) != Allow ==> reply == Err(403, "Forbidden")
    ensures RequireMhcAdmin(caller) == Allow && ParseReportType(typeName).None? ==> reply == Err(400, "Invalid report type")
    ensures RequireMhcAdmin(caller) == Allow && ParseReportType(typeName).Some? && !db.connected ==>
      reply == Err(500, Message(NotConnected))
    ensures RequireMhcAdmin(caller) == Allow && ParseReportType(typeName).Some? && db.connected ==>
      var recs := ReportRecords(db.State(), ParseReportType(typeName).value, w, date, money);
      reply == Ok(200, if format == CsvFormat then CsvText(ConvertToCsv(Rfc4180, recs)) else Rows(recs))
  {
    var d := RequireMhcAdmin(caller);
    if d.Deny? { return Err(d.status, d.message); }
    var t := ParseReportType(typeName);
    if t.None? { return Err(400, "Invalid report type"); }
    var recs := GatherReport(db, t.value, w, date, money);
    if recs.Failure? { return Err(500, Message(recs.error)); }
    if format == CsvFormat { return Ok(200, CsvText(ConvertToCsv(Rfc4180, recs.value))); }
    return Ok(200, Rows(recs.value));
  }
}
