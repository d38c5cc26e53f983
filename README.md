# A verified model of the Kuban Toolbox holding back office

The system is a multi-tenant back office for a holding company (the "MHC",
main head company) and its subsidiaries. The holding's administrators manage
subsidiaries, read activity logs and export reports. Subsidiary administrators
manage their own staff. Staff record sales against their subsidiary's
inventory. This project models, in Dafny, the core of both halves of the
application:

- the server's storage object (`DatabaseStorage`), a class over the five
  tables (users, subsidiaries, inventory, sales, activity logs) that keeps
  the constraints the schema declares: unique keys, unique usernames and
  tax ids, and foreign keys that resolve;
- the route guards, the subsidiary-user handlers, the subsidiary and sale
  creation handlers, activity-log scoping, the `/api/sales` and
  `/api/inventory/total` loops, the report assembly and `convertToCSV`;
- the insert schemas of users and subsidiaries;
- the web client's pure and small stateful cores:
  - the onboarding tour;
  - the role-dependent sidebar;
  - the reports page (column widths, header translation, cell truncation,
    logo address, subsidiary filter, preview);
  - the subsidiary creation form and table cells;
  - the inventory analysis panel;
  - the language provider and the primary language subtag;
  - the password-confirmation checks of the user forms.

Modules follow the source files:

| module | file | models |
|---|---|---|
| `Schema` | schema.dfy | `shared/schema.ts` |
| `Storage` | storage.dfy | `server/storage.ts` |
| `Access` | access.dfy | guards of `server/routes.ts` and JavaScript `parseInt` |
| `Routes` | routes.dfy | handlers of `server/routes.ts` |
| `Reports` | reports.dfy | the report assembly of `server/routes.ts` |
| `Csv` | csv.dfy | `convertToCSV` of `server/routes.ts` |
| `Tour` | tour.dfy | `client/src/providers/tour-provider.tsx` |
| `Sidebar` | sidebar.dfy | `client/src/components/layout/sidebar.tsx` |
| `ReportView` | report_view.dfy | `client/src/pages/mhc/reports.tsx` |
| `SubsidiaryForm` | subsidiary_form.dfy | `client/src/pages/mhc/subsidiaries.tsx` |
| `InventoryAnalysis` | inventory_analysis.dfy | `client/src/components/analytics/inventory-analysis.tsx` |
| `Language` | language.dfy | `client/src/providers/language-provider.tsx`, `client/src/i18n.ts` |
| `UserForm` | user_form.dfy | `client/src/pages/subsidiary/users.tsx` |
| `Wrappers`, `Text`, `Tables` | wrappers.dfy, text.dfy, tables.dfy | Option/Result, JavaScript string operations, table queries |

Some behaviour is modelled on purpose as the code has it, not as one might
expect:

- `requireMHCAdmin` answers 403, never 401, for a request without a session.
- A PATCH of a subsidiary user passes the body's `role` through unchanged, so
  a subsidiary administrator can raise a user's role.
- `createSale` does not check that the item belongs to the sale's subsidiary.
- A subsidiary form without a `status` field creates an inactive subsidiary,
  although the column defaults to active (`Routes.MissingStatusIsInactive`).
- `convertToCSV` does not double the quotes inside a quoted value. The
  encoding as written is modelled and shown to break (see Findings); the
  report route of the model uses the corrected encoding.
- On the reports page the "25%" width rule can never fire, because every
  header containing "subsidiary" also contains "id" and meets the "10%" rule
  first (`ReportView.WideColumnUnreachable`).

## Model

| member | source | states |
|---|---|---|
| Schema.RoleName | shared/schema.ts:10 | every role's column text is accepted back by the enum check as that role |
| Schema.ParseRole | shared/schema.ts:10 | the role column accepts exactly "mhc_admin", "subsidiary_admin" and "staff" |
| Schema.FindByUsername | shared/schema.ts:8 | a lookup by username finds a row iff a user has that name, and returns such a row |
| Schema.SubsidiaryIssues | shared/schema.ts:70-78 | one issue per missing required field, a malformed e-mail, or a phone shorter than 10 characters, and nothing else |
| Schema.ValidateSubsidiary | shared/schema.ts:70-78 | the subsidiary insert schema accepts iff name, tax id, a well-formed e-mail and a phone of at least 10 characters are present; the logo is always stripped |
| Schema.ValidateUser | shared/schema.ts:63-68 | the user insert schema accepts iff username, password and a valid role are present; only those fields and the nullable subsidiary survive |
| Storage.StockTakenEffects | server/storage.ts:279-296 | a sale's stock update keeps every other row and leaves the item with its old quantity minus the sale (a negative sale adds to it), never negative |
| Storage.UsersOf | server/storage.ts:346-350 | the users listed for a subsidiary are exactly those whose subsidiary is that one |
| Storage.ItemsOf | server/storage.ts:220-224 | the items listed for a subsidiary are exactly those it owns |
| Storage.SalesOf | server/storage.ts:302-306 | the sales listed for a subsidiary are exactly those recorded for it |
| Storage.LogsOf | server/storage.ts:321-328 | an absent or zero subsidiary lists every log; any other lists exactly that subsidiary's logs |
| Storage.InsertUserKeepsConsistent | shared/schema.ts:6-12 | inserting a user with a fresh id, a free username and a resolving subsidiary keeps every constraint |
| Storage.UpdateUserKeepsConsistent | shared/schema.ts:6-12 | rewriting a user with a name no other user has and a resolving subsidiary keeps every constraint |
| Storage.DeleteUserKeepsConsistent | shared/schema.ts:45 | deleting a user that no sale or log names keeps every constraint |
| Storage.InsertSubsidiaryKeepsConsistent | shared/schema.ts:15-26 | inserting a subsidiary with a fresh id and a free tax id keeps every constraint |
| Storage.UpdateSubsidiaryKeepsConsistent | shared/schema.ts:18 | rewriting a subsidiary with a tax id no other subsidiary has keeps every constraint |
| Storage.InsertItemKeepsConsistent | shared/schema.ts:29-39 | inserting an item of an existing subsidiary keeps every constraint |
| Storage.UpdateItemKeepsConsistent | shared/schema.ts:31 | rewriting an item to an existing subsidiary keeps every constraint |
| Storage.DeleteItemKeepsConsistent | shared/schema.ts:46 | deleting an item no sale names keeps every constraint |
| Storage.InsertSaleKeepsConsistent | shared/schema.ts:42-50 | inserting a sale whose subsidiary, user and item exist keeps every constraint |
| Storage.InsertLogKeepsConsistent | shared/schema.ts:53-60 | inserting a log whose user exists, and whose subsidiary exists when given, keeps every constraint |
| Storage.DatabaseStorage.constructor | server/storage.ts:63-78 | the storage starts with five empty tables and the invariant |
| Storage.DatabaseStorage.GetUser | server/storage.ts:80-97 | fails iff there is no connection; finds a user iff one has the id |
| Storage.DatabaseStorage.GetUserByUsername | server/storage.ts:99-104 | fails iff there is no connection; finds a user iff one has the name |
| Storage.DatabaseStorage.ListUsers | server/storage.ts:351-355 | fails iff there is no connection; otherwise the whole table |
| Storage.DatabaseStorage.ListUsersBySubsidiary | server/storage.ts:346-350 | fails iff there is no connection; otherwise exactly the subsidiary's users |
| Storage.DatabaseStorage.CreateUser | server/storage.ts:106-117 | no connection, a taken name or a dangling subsidiary fail and change nothing; otherwise exactly one user with a fresh id is appended |
| Storage.DatabaseStorage.UpdateUser | server/storage.ts:119-136 | a patch that sets no field fails with "No values to set"; otherwise a missing id fails with "User not found", and else only that row changes, to the patched data |
| Storage.DatabaseStorage.DeleteUser | server/storage.ts:138-142 | a user named by a sale or a log is refused; a missing id succeeds and changes nothing; otherwise exactly that row is removed |
| Storage.DatabaseStorage.GetSubsidiary | server/storage.ts:144-149 | fails iff there is no connection; finds a subsidiary iff one has the id |
| Storage.DatabaseStorage.ListSubsidiaries | server/storage.ts:151-155 | fails iff there is no connection; otherwise the whole table |
| Storage.DatabaseStorage.CreateSubsidiary | server/storage.ts:157-192 | an absent or empty name, tax id, e-mail or phone fails with "Missing required fields"; otherwise one row is appended with status defaulting to true and no logo |
| Storage.DatabaseStorage.UpdateSubsidiary | server/storage.ts:194-211 | a patch that sets no field fails with "No values to set"; otherwise a missing id fails with "Subsidiary not found", and else only that row changes |
| Storage.DatabaseStorage.GetInventory | server/storage.ts:213-218 | fails iff there is no connection; finds an item iff one has the id |
| Storage.DatabaseStorage.ListInventoryBySubsidiary | server/storage.ts:220-224 | fails iff there is no connection; otherwise exactly the subsidiary's items |
| Storage.DatabaseStorage.CreateInventory | server/storage.ts:226-237 | a dangling subsidiary fails and changes nothing; otherwise one item with a fresh id is appended |
| Storage.DatabaseStorage.UpdateInventory | server/storage.ts:239-256 | a patch that sets no field fails with "No values to set"; otherwise a missing id fails with "Inventory item not found", and else only that row changes |
| Storage.DatabaseStorage.DeleteInventory | server/storage.ts:258-262 | an item named by a sale is refused; a missing id succeeds and changes nothing; otherwise exactly that row is removed |
| Storage.DatabaseStorage.CreateSale | server/storage.ts:264-300 | a missing item fails with "Inventory item not found", too little stock with "Insufficient stock", both changing nothing; otherwise one sale is appended, timestamped now by default, and only that item's quantity drops by the sale |
| Storage.DatabaseStorage.ListSalesBySubsidiary | server/storage.ts:302-306 | fails iff there is no connection; otherwise exactly the subsidiary's sales |
| Storage.DatabaseStorage.CreateActivityLog | server/storage.ts:308-319 | a dangling subsidiary or user fails and changes nothing; otherwise one log is appended, timestamped now by default |
| Storage.DatabaseStorage.ListActivityLogs | server/storage.ts:321-328 | fails iff there is no connection; an absent or zero subsidiary lists every log, any other exactly its logs |
| Storage.DatabaseStorage.EnsureDefaultAdmin | server/storage.ts:329-345 | creates "admin" as a holding administrator without subsidiary only when no user has that name; afterwards one does, and a second call changes nothing |
| Access.TrimStart | server/routes.ts:46 | `parseInt` skips exactly the leading white space |
| Access.DigitRun | server/routes.ts:46 | `parseInt` reads the longest run of digits of the radix |
| Access.ParseIntOfIntToString | server/routes.ts:46 | a path built from any integer id parses back to that id |
| Access.NonNumericIsNaN | server/routes.ts:46 | a parameter that starts with no white space, sign or digit parses to NaN |
| Access.ParseIntIgnoresTail | server/routes.ts:46 | digits followed by other text parse as the digits alone |
| Access.RequireAuth | server/routes.ts:27-32 | lets a request through iff it has a session; otherwise 401 |
| Access.RequireMhcAdmin | server/routes.ts:34-39 | lets a request through iff its user is a holding administrator; otherwise 403, also without a session |
| Access.SubsidiaryParam | server/routes.ts:46 | the `subsidiaryId` parameter unless absent or empty, else the `id` parameter |
| Access.RequireSubsidiaryAccess | server/routes.ts:41-54 | no session is 401; a holding administrator always passes; anyone else passes iff their subsidiary is the parsed path number; otherwise 403 |
| Access.NaNPathForbidden | server/routes.ts:46-52 | a path that is not a number shuts out every user but the holding's administrators |
| Access.SubsidiaryPathAccess | server/routes.ts:41-54 | for a numeric path, a non-administrator gets in iff it is their own subsidiary |
| Access.ActivityLogScope | server/routes.ts:388-396 | holding administrators and users without subsidiary list every log; others only their subsidiary's |
| Routes.GuardUserManagement | server/routes.ts:291-293 | user management passes iff the caller is the subsidiary's own administrator; holding administrators get the role message with 403 |
| Routes.PostSubsidiaryUser | server/routes.ts:287-326 | a taken username is 400 with no change; a created user is always staff of the path's subsidiary with the hashed password, and the creation is logged |
| Routes.HashedPatch | server/routes.ts:348-351 | a non-empty password in the body is replaced by its hash; every other field passes through |
| Routes.PatchSubsidiaryUser | server/routes.ts:329-359 | a missing user or one of another subsidiary is 404; an empty body is 400 "No values to set"; an accepted patch sets the role the body gives |
| Routes.DeleteSubsidiaryUser | server/routes.ts:361-385 | a missing user or one of another subsidiary is 404; on success exactly that user is removed |
| Routes.FormGet | server/routes.ts:72-79 | a multipart field is read iff the form holds that key, and the value is one sent under it (the server's reading for a form whose keys are distinct) |
| Routes.FormGetAppend | server/routes.ts:72-79 | on forms whose keys are distinct, fields appended later do not change the value of a key already present |
| Routes.FormGetDistinct | server/routes.ts:72-79 | on a form with distinct keys, a key reads exactly the value sent under it |
| Routes.DistinctKeysAppend | client/src/pages/mhc/subsidiaries.tsx:98-114 | two forms with distinct keys and no key in common append to one with distinct keys |
| Routes.SubsidiaryFromForm | server/routes.ts:72-82 | the subsidiary read from a form holds its fields as sent, status true iff the text is "true", and the uploaded file's address |
| Routes.MissingStatusIsInactive | server/routes.ts:80 | a form without a status field gives an inactive subsidiary, unlike the column's default |
| Routes.PostSubsidiary | server/routes.ts:70-99 | only holding administrators create; missing fields give 400; a created subsidiary has the form's status and no logo, and its creation is logged |
| Routes.PostSale | server/routes.ts:208-233 | a missing item gives 400; a recorded sale carries the path's subsidiary and the caller, takes its stock, and is logged |
| Routes.GetActivityLogs | server/routes.ts:388-396 | 401 without a session; holding administrators and users without subsidiary get every log, others their subsidiary's |
| Routes.CollectSales | server/routes.ts:252-255 | the loop gathers each listed subsidiary's sales in subsidiary order |
| Routes.GetAllSales | server/routes.ts:247-258 | 403 unless a holding administrator; otherwise every subsidiary's sales in subsidiary order |
| Routes.GetInventoryTotal | server/routes.ts:261-272 | 403 unless a holding administrator; otherwise the per-subsidiary item counts added up |
| Routes.CollectInventoryRows | server/routes.ts:478-494 | each listed subsidiary's inventory rows in subsidiary order |
| Routes.GatherReport | server/routes.ts:446-523 | the records of a report as read through the storage object |
| Routes.GetReport | server/routes.ts:409-527 | 403 unless a holding administrator; an unknown type is 400; otherwise the records as rows or as CSV, with quotes doubled (see Findings) |
| Reports.ParseReportType | server/routes.ts:446-522 | "sales", "inventory" and "activity" are the only report types |
| Reports.NameOr | server/routes.ts:466-467 | a missing or empty name shows the fallback, any other name itself |
| Reports.SubsidiaryName | server/routes.ts:463 | a subsidiary's name is found iff one has the id |
| Reports.Username | server/routes.ts:464 | a user's name is found iff one has the id |
| Reports.AllSalesContents | server/routes.ts:252-255 | the gathered sales are exactly those of the listed subsidiaries, each once |
| Reports.AllSalesIsEverySale | server/routes.ts:247-258 | over a consistent database, `/api/sales` returns every sale exactly once |
| Reports.TotalItemsCount | server/routes.ts:266-269 | the added-up count is the number of items of the listed subsidiaries |
| Reports.TotalItemsIsEveryItem | server/routes.ts:261-272 | over a consistent database, `/api/inventory/total` is the number of inventory items |
| Reports.SalesInWindow | server/routes.ts:458-461 | a gathered sale is kept iff its timestamp lies in the window |
| Reports.SalesRowsFrom | server/routes.ts:458-475 | one row per kept sale, in order |
| Reports.AllItemsContents | server/routes.ts:480-482 | the gathered items are exactly those of the listed subsidiaries, each once |
| Reports.AllItemsIsEveryItem | server/routes.ts:478-494 | over a consistent database, the inventory report gathers every inventory item exactly once |
| Reports.ItemRows | server/routes.ts:483-490 | row i shows the subsidiary's name and item i's name, sku, quantity, price and quantity times price |
| Reports.InventoryReportRows | server/routes.ts:478-494 | one row per gathered item, in gathering order, each showing that item's name, sku, quantity, price and value and the name of a listed subsidiary with the item's subsidiary id |
| Reports.ActivityReportRows | server/routes.ts:496-518 | one row per log in the window, in log order, every row in it; row i shows kept log i with its action, details, subsidiary name (else "MHC") and username (else "System") |
| Reports.SalesReportExact | server/routes.ts:447-476 | over a consistent database, the sales report's rows are made from exactly the sales in the window, each once (as a multiset), and every row lies in the window |
| Reports.WindowInclusive | server/routes.ts:459-460 | both ends of the window are kept, the instants just outside are not |
| Reports.SalesRowJoins | server/routes.ts:463-467 | over a consistent database, a sales row shows "Unknown" only when the name itself is empty or "Unknown" |
| Reports.ActivityFallbacks | server/routes.ts:508-515 | a log of no subsidiary shows "MHC", one whose user is gone shows "System" |
| Reports.SalesRecords | server/routes.ts:469-474 | every sales record has the six sales headers in order |
| Reports.InventoryRecords | server/routes.ts:484-491 | every inventory record has the six inventory headers in order |
| Reports.ActivityRecords | server/routes.ts:510-516 | every activity record has the five activity headers in order |
| Reports.InventoryIgnoresWindow | server/routes.ts:478-494 | the inventory report is the same for every window |
| Reports.SalesCsvHeader | server/routes.ts:631-649 | a CSV export of a non-empty sales report starts with its header line |
| Csv.Keys | server/routes.ts:634 | the keys of a row, in insertion order |
| Csv.Get | server/routes.ts:637 | a key's value is its first entry's, or undefined when absent |
| Csv.Render | server/routes.ts:646 | `join` shows strings as they are and null and undefined as nothing |
| Csv.RowFields | server/routes.ts:635-642 | one field per header, in header order |
| Csv.Lines | server/routes.ts:644-647 | the header line, then one line per row |
| Csv.ConvertToCsv | server/routes.ts:631-649 | no rows give the empty text |
| Csv.AsWrittenRoundTrip | server/routes.ts:639-641 | as written, fields without a quote read back as their values |
| Csv.AsWrittenQuoteBreaks | server/routes.ts:639-641 | as written, the value `a,"b` becomes a record that does not parse |
| Csv.DocumentReadsBack | server/routes.ts:631-649 | the output is the header line and one line per row, each reading back as the row's shown values, when no value holds a line feed and, as written, no quote |
| Csv.QuotedValueDocument | server/routes.ts:639-641 | a report holding `a,"b` does not read back as written, and reads back as `a,"b` corrected |
| Csv.QuotedValueAsWritten | server/routes.ts:639-641 | as written, that report has two lines and its second is not a well-formed record |
| Csv.QuotedValueCorrected | server/routes.ts:639-641 | corrected, that report has two lines and its second reads back as `a,"b` |
| Csv.FieldRfcRoundTrip | server/routes.ts:639-641 | with quotes doubled as RFC 4180 writes them, every record reads back as its values |
| Csv.RfcQuoteKeeps | server/routes.ts:639-641 | the corrected field of `a,"b` reads back as `a,"b` |
| Tour.Apply | client/src/providers/tour-provider.tsx:28-50 | no request makes the index negative; only a new step list changes the steps; the index stays in range while the tour is shown |
| Tour.CurrentStep | client/src/providers/tour-provider.tsx:55 | a step is current iff the tour is shown and the index is in range, and it is that step's id |
| Tour.RunKeepsIndexNatural | client/src/providers/tour-provider.tsx:28-50 | no sequence of requests makes the index negative |
| Tour.RunKeepsInRange | client/src/providers/tour-provider.tsx:28-50 | without a new step list, every request sequence keeps the index in range and a step current while shown |
| Tour.StartWithoutSteps | client/src/providers/tour-provider.tsx:28-31 | starting with no steps shows the tour with no current step |
| Tour.WalkThrough | client/src/providers/tour-provider.tsx:38-44 | k steps forward inside the list move the index by exactly k |
| Tour.WalkOff | client/src/providers/tour-provider.tsx:38-44 | stepping past the last step hides the tour and resets the index |
| Tour.NextThenPrevious | client/src/providers/tour-provider.tsx:38-50 | a step back undoes a step forward inside the list |
| Tour.TourProvider.constructor | client/src/providers/tour-provider.tsx:24-26 | hidden, no steps, index 0 |
| Tour.TourProvider.StartTour | client/src/providers/tour-provider.tsx:28-31 | shows the tour at index 0 |
| Tour.TourProvider.EndTour | client/src/providers/tour-provider.tsx:33-36 | hides the tour and resets the index |
| Tour.TourProvider.NextStep | client/src/providers/tour-provider.tsx:38-44 | moves forward before the last step, otherwise ends the tour, also with no steps |
| Tour.TourProvider.PreviousStep | client/src/providers/tour-provider.tsx:46-50 | moves back after the first step, otherwise changes nothing |
| Tour.TourProvider.SetSteps | client/src/providers/tour-provider.tsx:25 | replaces the steps only |
| Sidebar.HoldingLinks | client/src/components/layout/sidebar.tsx:39-45 | a holding administrator gets /, /subsidiaries, /users, /reports, /activity-logs, /settings in that order |
| Sidebar.MemberLinksStart | client/src/components/layout/sidebar.tsx:46-49 | any other user, or none, gets /, /inventory, /sales first |
| Sidebar.UsersLinkIffSubsidiaryAdmin | client/src/components/layout/sidebar.tsx:50 | outside the holding, /users is listed iff the role is subsidiary administrator |
| Sidebar.HoldingPagesHidden | client/src/components/layout/sidebar.tsx:46-51 | outside the holding, no link leads to a holding page |
| Sidebar.DistinctHrefs | client/src/components/layout/sidebar.tsx:39-51 | no list links to the same page twice |
| ReportView.WideColumnUnreachable | client/src/pages/mhc/reports.tsx:347-352 | no header is ever given the "25%" width |
| ReportView.ColumnWidthRules | client/src/pages/mhc/reports.tsx:343-358 | "date" gives 15%, then the numeric terms 10%, then name or description 20%, otherwise auto |
| ReportView.ColumnWidths | client/src/pages/mhc/reports.tsx:340-359 | the loop gives each header, and only those, its width |
| ReportView.Normalize | client/src/pages/mhc/reports.tsx:285 | the normalized header holds no white space and no upper-case letter |
| ReportView.TranslationKey | client/src/pages/mhc/reports.tsx:280-288 | the exact spelling is looked up first, then the normalized one |
| ReportView.TranslateHeader | client/src/pages/mhc/reports.tsx:234-305 | a known header is translated by its key; an unknown one keeps the key "reports." + its lowercase spelling iff the English catalogue has a real entry for it (neither the key nor its last segment), and is shown capitalized otherwise |
| ReportView.ExactAgreesWithNormalized | client/src/pages/mhc/reports.tsx:236-277 | every exact spelling except Filial and Filiale normalizes to an entry with the same key |
| ReportView.NotTranslated | client/src/pages/mhc/reports.tsx:280-288 | a header in neither table, whose lowercase spelling has no white space, gets no translation key |
| ReportView.TranslationIgnoresCaseAndSpaces | client/src/pages/mhc/reports.tsx:280-288 | two headers that differ only in case and white space get the same key |
| ReportView.FilialOnlyExact | client/src/pages/mhc/reports.tsx:255 | "Filial" is translated but "filial" is not |
| ReportView.ReportLogoUrl | client/src/pages/mhc/reports.tsx:324-332 | "", "null" and "undefined" give the default logo; any other path has its first "/uploads/" replaced by "/" |
| ReportView.ReportLogo | client/src/pages/mhc/reports.tsx:335-337 | no selection or no logo gives the default logo; a selected subsidiary's non-empty logo gives that logo's address |
| ReportView.UploadedLogoAddress | client/src/pages/mhc/reports.tsx:331 | an uploaded file is served from the site root under its name |
| ReportView.DisplayValue | client/src/pages/mhc/reports.tsx:420-425 | a string of at most 50 characters is shown as is, a longer one as its first 50 and "..." |
| ReportView.DisplayValueBounds | client/src/pages/mhc/reports.tsx:423-425 | a cell's text is at most 53 characters and starts like the value |
| ReportView.SelectedData | client/src/pages/mhc/reports.tsx:181-188 | a subsidiary is selected iff the id is non-zero and listed, and it is that one |
| ReportView.FilterRows | client/src/pages/mhc/reports.tsx:216-228 | without a selection, or without rows, the data is unchanged; the filter never adds rows |
| ReportView.FilterByName | client/src/pages/mhc/reports.tsx:217-221 | with a selection and rows naming subsidiaries, a row is kept iff it names the selected one |
| ReportView.FilterUnknownSelection | client/src/pages/mhc/reports.tsx:217-221 | a selection of no listed subsidiary keeps only rows without a subsidiary |
| ReportView.PreviewRows | client/src/pages/mhc/reports.tsx:569 | the preview shows the first five rows, or all of fewer |
| SubsidiaryForm.BoolText | client/src/pages/mhc/subsidiaries.tsx:106 | the status text is "true" exactly for true |
| SubsidiaryForm.BuildFormData | client/src/pages/mhc/subsidiaries.tsx:98-114 | the five required fields are always sent; address, city and country only when non-empty; the logo only as a file; no key is sent twice; the server reads back exactly the form's values |
| SubsidiaryForm.FormKeysDistinct | client/src/pages/mhc/subsidiaries.tsx:98-114 | the creation form never sends a key twice |
| SubsidiaryForm.ServerReadsForm | server/routes.ts:72-80 | a form holding the page's values is read by the server as those values, status included |
| SubsidiaryForm.OptionalParts | client/src/pages/mhc/subsidiaries.tsx:108-110 | the optional parts carry neither a required key nor the logo |
| SubsidiaryForm.LogoUrl | client/src/pages/mhc/subsidiaries.tsx:57-61 | an empty path gives ""; any other has its first "/uploads/" replaced by "/" |
| SubsidiaryForm.LogoUrlsAgree | client/src/pages/mhc/subsidiaries.tsx:57-61 | the two pages give the same address except for the placeholders, which only the reports page replaces |
| SubsidiaryForm.LocationText | client/src/pages/mhc/subsidiaries.tsx:386-388 | the non-empty values among city and country, joined by ", " |
| InventoryAnalysis.MetricOf | client/src/components/analytics/inventory-analysis.tsx:33-36 | an item with its quantity times sale price |
| InventoryAnalysis.Insert | client/src/components/analytics/inventory-analysis.tsx:37 | inserting into a ranking keeps it ordered and adds the entry once |
| InventoryAnalysis.SortByValue | client/src/components/analytics/inventory-analysis.tsx:37 | the sorted entries are ordered by non-increasing value and are a permutation |
| InventoryAnalysis.MetricsRankEveryItem | client/src/components/analytics/inventory-analysis.tsx:33-37 | the ranking lists every item exactly as often as the inventory, each with its own value, highest first |
| InventoryAnalysis.LowStockItems | client/src/components/analytics/inventory-analysis.tsx:39-40 | an item is listed iff its quantity is 10 or less |
| InventoryAnalysis.LowStockCounts | client/src/components/analytics/inventory-analysis.tsx:40 | low-stock items keep their multiplicity and the others are dropped |
| InventoryAnalysis.LowStockKeepsOrder | client/src/components/analytics/inventory-analysis.tsx:40 | the low-stock list keeps inventory order |
| InventoryAnalysis.ThresholdInclusive | client/src/components/analytics/inventory-analysis.tsx:39-40 | quantity 10 is low stock, 11 is not |
| Language.PrimaryTag | client/src/i18n.ts:53-55 | the current language is a prefix of the tag without '-', and a tag without '-' is itself |
| Language.PrimaryTagIdempotent | client/src/i18n.ts:54 | taking the primary subtag twice gives what taking it once does |
| Language.PrimaryTagOfRegion | client/src/i18n.ts:54 | a regional tag gives the part before the first '-' |
| Language.InitialLanguage | client/src/providers/language-provider.tsx:22-36 | a supported saved choice wins, then a supported browser language subtag, then English; the result is always supported |
| Language.RegionalBrowserLanguage | client/src/providers/language-provider.tsx:30-33 | with nothing saved, a regional browser tag of a supported language selects that language |
| Language.RememberedChoiceWins | client/src/providers/language-provider.tsx:24-28 | a choice stored by the provider is picked at the next start, whatever the browser says |
| Language.LanguageProvider.constructor | client/src/providers/language-provider.tsx:22-36 | the provider starts in the initial language chosen from storage and the browser |
| Language.LanguageProvider.Synchronize | client/src/providers/language-provider.tsx:44-49 | after mounting, the library's language is the provider's |
| Language.LanguageProvider.SetLanguage | client/src/providers/language-provider.tsx:38-42 | the provider, the library and the stored "i18nextLng" all hold the new language, and the current language reads back as it |
| UserForm.Lookup | client/src/pages/subsidiary/users.tsx:66 | a form field is read iff present, as its value |
| UserForm.EditWithPasswordAsCreate | client/src/pages/subsidiary/users.tsx:88-93 | with a new password the edit check demands what the creation check does |
| UserForm.BlankPasswordPasses | client/src/pages/subsidiary/users.tsx:88-89 | an absent or empty password passes the edit check whatever the confirmation |
| UserForm.EditNoStricterThanCreate | client/src/pages/subsidiary/users.tsx:63-95 | the edit check accepts what the creation check does, and rejects a mismatched new password |
| UserForm.WithoutConfirmation | client/src/pages/subsidiary/users.tsx:100 | the payload is the form without the confirmation, every other field kept |
| UserForm.WithoutConfirmationRestores | client/src/pages/subsidiary/users.tsx:318 | putting the confirmation back gives the edit form's values: nothing else was dropped |
| UserForm.PayloadKeepsPassword | client/src/pages/subsidiary/users.tsx:100 | the payload carries the password that was checked |
| Text.ReplaceFirst | client/src/pages/mhc/subsidiaries.tsx:60 | `replace` with a text pattern changes only the first occurrence |
| Text.Split | client/src/i18n.ts:54 | `split` with one separator never gives an empty list |
| Text.SplitFirst | client/src/i18n.ts:54 | the first piece of a split holds no separator and starts the text |

## Left out

- Password hashing: the scrypt hash is a parameter of the handlers, an opaque text.
- Sessions, the session store, multer's storage and its random file names, and static file serving: the uploaded file name is a parameter.
- The database driver, its connection pool and retries: they are one `connected` flag; a driver error other than a missing connection is not modelled.
- Ids consumed by failed inserts: a failed insert leaves the serial counter unchanged.
- Concurrency: `createSale`'s check-then-update race and real transactions; each storage method is one atomic step.
- Calendar arithmetic of the report window and of dates: the window is a pair of integer timestamps, dates are integers.
- Floating point: prices and totals are exact reals; `toFixed`, `toLocaleDateString` and the report's money and date texts are parameters.
- The HTML and PDF report renderings and the `isNumeric` cell styling of the PDF.
- Unicode case folding: lower and upper case are ASCII only.
- The e-mail format check of the subsidiary schema: whether the e-mail is well formed is an input.
- JavaScript's ordering of integer-like object keys and the prototype keys of the translation maps: objects are modelled as lists or maps of their own keys.
- `parseInt` beyond the safe integer range: numbers are unbounded integers.
- The inventory route handlers and GET/PATCH of `/api/subsidiaries/:id`: they are thin wrappers over the storage methods, which are modelled.
- The translation catalogue: `t` is a lookup parameter (`english` in `ReportView.TranslateHeader`); the current-language lookup of `t` is not modelled.
- `valuePercentage` and the panel's total value: float aggregates that divide by a possibly zero total.
- InventoryAnalysis.SortByValue: stability of the sort is not stated, only order and permutation.
- `i18next.changeLanguage` and the library's own initialisation: the library's language is one field of `Language.LanguageProvider`.
- The `changeLanguage` helper of client/src/i18n.ts: it does what `SetLanguage` does without the provider's state.
- The text of validation messages: an issue records its kind and, for a missing value, the field (`Schema.FieldName` gives its property name); the library's wording is not modelled.
- The validation of the zod base schemas of the user forms: only the confirmation checks and the payload are modelled.
- Routes.GetReport: the CSV export uses the corrected encoding (`Csv.ConvertToCsv(Rfc4180, …)`); server/routes.ts:526 as written does not double the quotes inside a quoted value, so for a value holding both a comma and a quote the server's text differs from the model's (see Findings; `Csv.QuotedValueAsWritten` gives the server's text).
- Routes.FormGet: a key sent twice reaches the handler as an array of texts (multer appends repeated fields), so the name becomes an array and the status is never "true"; the model reads the first value, which is the server's reading only for forms with distinct keys, as `SubsidiaryForm.BuildFormData` sends.
- JavaScript string lengths count UTF-16 code units: `ReportView.DisplayValue`'s 50-character cut and `Schema.ValidateSubsidiary`'s 10-character phone minimum count sequence elements, which agree only for text without characters outside the Basic Multilingual Plane.
- The order of listed rows: storage.ts never orders its queries, so PostgreSQL may list rows in any order; the model lists them in insertion order, which is the order behind the "subsidiary order" and "in order" claims of `Routes.CollectSales`, `Routes.GetAllSales`, `Routes.CollectInventoryRows`, `Reports.SalesRowsFrom` and `Reports.InventoryReportRows`.
- Extra body fields: the `...req.body` spreads of the sale creation, subsidiary-user creation and subsidiary-user patch handlers (server/routes.ts:211-215, 304-309, 347) pass any further field on to the insert or update (an explicit `id`, or a `role` text outside the enum, which the text column does not check); the model's input records carry the declared fields only.
- Routes.PatchSubsidiaryUser, Routes.DeleteSubsidiaryUser, Routes.PostSale: path numbers are integers in the model; a `:userId` that parses to NaN reaches `storage.getUser(NaN)` (server/routes.ts:338, 370), and an MHC administrator passes the guard on a NaN `:subsidiaryId` (see `Access.NaNPathForbidden`), which then reaches `createSale` and `createActivityLog` (server/routes.ts:215, 224); what the driver does with NaN is not modelled.
- Column widths: ids, quantities and user references are 32-bit integers in the database, so a value outside that range is a database error; the model's integers are unbounded.
- The database configuration routes, server/db.ts and server/config.ts are not part of this model.

## Findings

| source | as written | input that shows it | evidently intended | confidence | as-written member | corrected member |
|---|---|---|---|---|---|---|
| server/routes.ts:639-641 | a string value containing a comma is wrapped in double quotes, but the quotes inside it are not doubled | the value `a,"b` is written as `"a,"b"`, which is not a well-formed CSV field | quotes inside a quoted field written twice, as section 2 of RFC 4180 requires, so every value reads back | not executed | Csv.AsWrittenQuoteBreaks | Csv.FieldRfcRoundTrip |
