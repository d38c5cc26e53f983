/**
 * The report page of the holding administrator: the preview table and the
 * PDF layout built from the report rows the server returns as JSON records.
 * Covered here are the column-width classification, the header translation
 * lookup, the logo address, the cell text with its truncation, the
 * subsidiary filter applied to fetched rows and the five-row preview.
 */
module ReportView {
  import opened Wrappers
  import opened Text
  import opened Tables
  import opened Schema
  import opened Csv

  // ---------------------------------------------------------------------------
  // Column widths of the PDF table

  /** The header fragments that mark a narrow numeric column. */
  const NarrowTerms: seq<string> := ["id", "quantity", "price", "amount", "number", "count"]

  predicate HasNarrowTerm(lower: string) {
    exists i :: 0 <= i < |NarrowTerms| && Contains(lower, NarrowTerms[i])
  }

  /** The width of a column, decided on the lowercase header by the first matching rule. */
  function ColumnWidth(header: string): string {
    var lower := ToLower(header);
    if Contains(lower, "date") then "15%"
    else if HasNarrowTerm(lower) then "10%"
    else if Contains(lower, "subsidiary") then "25%"
    else if Contains(lower, "name") || Contains(lower, "description") then "20%"
    else "auto"
  }

  /** Every text that contains "subsidiary" contains "id". */
  lemma SubsidiaryContainsId(s: string)
    requires Contains(s, "subsidiary")
    ensures Contains(s, "id")
  {
    var i :| 0 <= i <= |s| - |"subsidiary"| && OccursAt(s, "subsidiary", i);
    assert s[i..i + 10] == "subsidiary";
    assert s[i + 4] == 'i' && s[i + 5] == 'd';
    assert s[i + 4..i + 6] == "id";
    assert OccursAt(s, "id", i + 4);
  }

  /** The rule for "subsidiary" comes after the one for "id", so no column is ever 25% wide. */
  lemma WideColumnUnreachable(header: string)
    ensures ColumnWidth(header) != "25%"
  {
    var lower := ToLower(header);
    if !Contains(lower, "date") && Contains(lower, "subsidiary") {
      SubsidiaryContainsId(lower);
      assert Contains(lower, NarrowTerms[0]);
    }
  }

  /** The width classification, rule by rule. */
  lemma ColumnWidthRules(header: string)
    ensures var lower := ToLower(header);
      && (ColumnWidth(header) == "15%" <==> Contains(lower, "date"))
      && (ColumnWidth(header) == "10%" <==> !Contains(lower, "date") && HasNarrowTerm(lower))
      && (ColumnWidth(header) == "20%" <==>
            !Contains(lower, "date") && !HasNarrowTerm(lower) &&
            (Contains(lower, "name") || Contains(lower, "description")))
      && (ColumnWidth(header) == "auto" <==>
            !Contains(lower, "date") && !HasNarrowTerm(lower) &&
            !Contains(lower, "name") && !Contains(lower, "description"))
  {
    WideColumnUnreachable(header);
  }

  /** The widths of all columns, filled header by header into a record. */
  method ColumnWidths(headers: seq<string>) returns (widths: map<string, string>)
    ensures widths.Keys == set h | h in headers
    ensures forall h :: h in widths ==> widths[h] == ColumnWidth(h)
  {
    widths := map[];
    for i := 0 to |headers|
      invariant widths.Keys == set j | 0 <= j < i :: headers[j]
      invariant forall h :: h in widths ==> widths[h] == ColumnWidth(h)
    {
      widths := widths[headers[i] := ColumnWidth(headers[i])];
    }
    assert forall h :: h in headers <==> exists j :: 0 <= j < |headers| && headers[j] == h;
  }

  // ---------------------------------------------------------------------------
  // Header translation

  /** Headers translated by their exact spelling. */
  const ExactHeaders: map<string, string> := map[
    "Date" := "reports.date",
    "Subsidiary" := "reports.subsidiary",
    "Sold By" := "reports.soldBy",
    "Sale Price" := "reports.salePrice",
    "Amount" := "reports.amount",
    "Price" := "reports.price",
    "Quantity" := "reports.quantity",
    "Total" := "reports.total",
    "Product Name" := "reports.productName",
    "Product ID" := "reports.productId",
    "ProductId" := "reports.productId",
    "Description" := "reports.description",
    "Username" := "users.username",
    "Action" := "activityLogs.action",
    "Resource" := "activityLogs.resource",
    "Category" := "inventory.category",
    "In Stock" := "inventory.inStock",
    "Filial" := "reports.subsidiary",
    "Filiale" := "reports.subsidiary"
  ]

  /** Headers translated by their lowercase, space-free spelling. */
  const NormalizedHeaders: map<string, string> := map[
    "date" := "reports.date",
    "subsidiary" := "reports.subsidiary",
    "soldby" := "reports.soldBy",
    "saleprice" := "reports.salePrice",
    "amount" := "reports.amount",
    "price" := "reports.price",
    "quantity" := "reports.quantity",
    "total" := "reports.total",
    "productname" := "reports.productName",
    "productid" := "reports.productId",
    "description" := "reports.description",
    "username" := "users.username",
    "action" := "activityLogs.action",
    "resource" := "activityLogs.resource",
    "category" := "inventory.category",
    "instock" := "inventory.inStock"
  ]

  /** A header lowercased with every whitespace character removed. */
  function Normalize(header: string): (r: string)
    ensures forall i :: 0 <= i < |r| ==> !IsSpace(r[i]) && !IsUpper(r[i])
  {
    var r := RemoveSpaces(ToLower(header));
    assert forall c :: c in ToLower(header) ==> !IsUpper(c);
    r
  }

  /** The translation key a header is looked up under: the exact spelling first, then the normalized one. */
  function TranslationKey(header: string): (r: Option<string>)
    ensures header in ExactHeaders ==> r == Some(ExactHeaders[header])
    ensures header !in ExactHeaders && Normalize(header) in NormalizedHeaders ==>
      r == Some(NormalizedHeaders[Normalize(header)])
    ensures header !in ExactHeaders && Normalize(header) !in NormalizedHeaders ==> r.None?
  {
    if header in ExactHeaders then Some(ExactHeaders[header])
    else if Normalize(header) in NormalizedHeaders then Some(NormalizedHeaders[Normalize(header)])
    else None
  }

  /** What a header cell shows: a key looked up in the current language, or the header itself. */
  datatype HeaderLabel = Translated(key: string) | Plain(text: string)

  /** `header.charAt(0).toUpperCase() + header.slice(1)`. */
  function Capitalize(header: string): (r: string)
    ensures |r| == |header|
    ensures |header| > 0 ==> r[0] == UpperChar(header[0]) && r[1..] == header[1..]
  {
    if |header| == 0 then "" else [UpperChar(header[0])] + header[1..]
  }

  /**
   * The label of a header. Headers found in neither table fall back to the key
   * "reports." + lowercase header, kept only when the English catalogue `english`
   * has a real entry for it (not the key itself, nor the key's last segment);
   * otherwise the header is shown capitalized.
   */
  function TranslateHeader(header: string, english: map<string, string>): (r: HeaderLabel)
    ensures TranslationKey(header).Some? ==> r == Translated(TranslationKey(header).value)
    ensures TranslationKey(header).None? && "reports." + ToLower(header) !in english ==>
      r == Plain(Capitalize(header))
    ensures TranslationKey(header).None? ==>
      (r == Translated(FallbackKey(header)) <==> RealEntry(english, FallbackKey(header)))
    ensures TranslationKey(header).None? && !RealEntry(english, FallbackKey(header)) ==>
      r == Plain(Capitalize(header))
  {
    match TranslationKey(header)
    case Some(k) => Translated(k)
    case None =>
      var key := FallbackKey(header);
      var english := if key in english then english[key] else key;
      if english == key || english == LastSegment(key) then Plain(Capitalize(header))
      else Translated(key)
  }

  /** The key a header found in neither table falls back to. */
  function FallbackKey(header: string): string {
    "reports." + ToLower(header)
  }

  /** `key.split(".").pop()`: the text after the last dot of a key. */
  function LastSegment(key: string): string {
    var parts := Split(key, '.');
    parts[|parts| - 1]
  }

  /** The English catalogue has a real text for the key: neither the key itself nor its last segment. */
  predicate RealEntry(english: map<string, string>, key: string) {
    key in english && english[key] != key && english[key] != LastSegment(key)
  }

  /** The normalized spelling of an exact header and its key in the second table. */
  predicate AgreesWithNormalized(k: string) {
    k in ExactHeaders && Normalize(k) in NormalizedHeaders && NormalizedHeaders[Normalize(k)] == ExactHeaders[k]
  }

  /** A header whose lowercase spelling has no whitespace agrees when that spelling carries its key. */
  lemma AgreesOneWord(k: string, lower: string, key: string)
    requires ToLower(k) == lower
    requires forall i :: 0 <= i < |lower| ==> !IsSpace(lower[i])
    requires k in ExactHeaders && ExactHeaders[k] == key
    requires lower in NormalizedHeaders && NormalizedHeaders[lower] == key
    ensures AgreesWithNormalized(k)
  {
    RemoveSpacesNone(lower);
  }

  /** A header of two lowercase words and one space agrees when the words run together carry its key. */
  lemma AgreesTwoWords(k: string, lower: string, first: string, second: string, joined: string, key: string)
    requires lower == first + " " + second && joined == first + second
    requires ToLower(k) == lower
    requires forall i :: 0 <= i < |first| ==> !IsSpace(first[i])
    requires forall i :: 0 <= i < |second| ==> !IsSpace(second[i])
    requires k in ExactHeaders && ExactHeaders[k] == key
    requires joined in NormalizedHeaders && NormalizedHeaders[joined] == key
    ensures AgreesWithNormalized(k)
  {
    RemoveOneSpace(first, second);
  }

  // One lemma per header: a single lemma over all of them, or over a handful,
  // is more than the solver can take with the two literal maps in scope.
  lemma AgreesDate() ensures AgreesWithNormalized("Date") { AgreesOneWord("Date", "date", "reports.date"); }
  lemma AgreesSubsidiary() ensures AgreesWithNormalized("Subsidiary") { AgreesOneWord("Subsidiary", "subsidiary", "reports.subsidiary"); }
  lemma AgreesAmount() ensures AgreesWithNormalized("Amount") { AgreesOneWord("Amount", "amount", "reports.amount"); }
  lemma AgreesPrice() ensures AgreesWithNormalized("Price") { AgreesOneWord("Price", "price", "reports.price"); }
  lemma AgreesQuantity() ensures AgreesWithNormalized("Quantity") { AgreesOneWord("Quantity", "quantity", "reports.quantity"); }
  lemma AgreesTotal() ensures AgreesWithNormalized("Total") { AgreesOneWord("Total", "total", "reports.total"); }
  lemma AgreesProductId() ensures AgreesWithNormalized("ProductId") { AgreesOneWord("ProductId", "productid", "reports.productId"); }
  lemma AgreesDescription() ensures AgreesWithNormalized("Description") { AgreesOneWord("Description", "description", "reports.description"); }
  lemma AgreesUsername() ensures AgreesWithNormalized("Username") { AgreesOneWord("Username", "username", "users.username"); }
  lemma AgreesAction() ensures AgreesWithNormalized("Action") { AgreesOneWord("Action", "action", "activityLogs.action"); }
  lemma AgreesResource() ensures AgreesWithNormalized("Resource") { AgreesOneWord("Resource", "resource", "activityLogs.resource"); }
  lemma AgreesCategory() ensures AgreesWithNormalized("Category") { AgreesOneWord("Category", "category", "inventory.category"); }
  lemma AgreesSoldBy()
    ensures AgreesWithNormalized("Sold By")
  {
    assert "sold" + " " + "by" == "sold by";
    assert "sold" + "by" == "soldby";
    AgreesTwoWords("Sold By", "sold by", "sold", "by", "soldby", "reports.soldBy");
  }
  lemma AgreesSalePrice()
    ensures AgreesWithNormalized("Sale Price")
  {
    assert "sale" + " " + "price" == "sale price";
    assert "sale" + "price" == "saleprice";
    AgreesTwoWords("Sale Price", "sale price", "sale", "price", "saleprice", "reports.salePrice");
  }
  lemma AgreesInStock()
    ensures AgreesWithNormalized("In Stock")
  {
    assert "in" + " " + "stock" == "in stock";
    assert "in" + "stock" == "instock";
    AgreesTwoWords("In Stock", "in stock", "in", "stock", "instock", "inventory.inStock");
  }
  lemma AgreesProductName()
    ensures AgreesWithNormalized("Product Name")
  {
    assert "product" + " " + "name" == "product name";
    assert "product" + "name" == "productname";
    AgreesTwoWords("Product Name", "product name", "product", "name", "productname", "reports.productName");
  }
  lemma AgreesProductSpaceId()
    ensures AgreesWithNormalized("Product ID")
  {
    assert "product" + " " + "id" == "product id";
    assert "product" + "id" == "productid";
    AgreesTwoWords("Product ID", "product id", "product", "id", "productid", "reports.productId");
  }

  /** The exact spellings other than the two foreign ones normalize to the same key. */
  lemma ExactAgreesWithNormalized(k: string)
    requires k in ExactHeaders && k != "Filial" && k != "Filiale"
    ensures AgreesWithNormalized(k)
  {
    if k == "Date" { AgreesDate(); }
    else if k == "Subsidiary" { AgreesSubsidiary(); }
    else if k == "Amount" { AgreesAmount(); }
    else if k == "Price" { AgreesPrice(); }
    else if k == "Quantity" { AgreesQuantity(); }
    else if k == "Total" { AgreesTotal(); }
    else if k == "ProductId" { AgreesProductId(); }
    else if k == "Description" { AgreesDescription(); }
    else if k == "Username" { AgreesUsername(); }
    else if k == "Action" { AgreesAction(); }
    else if k == "Resource" { AgreesResource(); }
    else if k == "Category" { AgreesCategory(); }
    else if k == "Sold By" { AgreesSoldBy(); }
    else if k == "Sale Price" { AgreesSalePrice(); }
    else if k == "In Stock" { AgreesInStock(); }
    else if k == "Product Name" { AgreesProductName(); }
    else if k == "Product ID" { AgreesProductSpaceId(); }
  }

  /**
   * Apart from the Spanish and French spellings, which only match exactly,
   * a known header is translated the same whatever its case and spacing.
   */
  lemma TranslationIgnoresCaseAndSpaces(h1: string, h2: string)
    requires Normalize(h1) == Normalize(h2) && Normalize(h1) in NormalizedHeaders
    requires h1 != "Filial" && h1 != "Filiale" && h2 != "Filial" && h2 != "Filiale"
    ensures TranslationKey(h1) == TranslationKey(h2) == Some(NormalizedHeaders[Normalize(h1)])
  {
    if h1 in ExactHeaders { ExactAgreesWithNormalized(h1); }
    if h2 in ExactHeaders { ExactAgreesWithNormalized(h2); }
  }

  /** The Spanish spelling is translated only when capitalized exactly. */
  lemma FilialOnlyExact()
    ensures TranslationKey("Filial") == Some("reports.subsidiary")
    ensures TranslationKey("filial").None?
  {
    NotTranslated("filial", "filial");
  }

  /** A header in neither table, with a lowercase spelling free of whitespace, has no translation key. */
  lemma NotTranslated(k: string, lower: string)
    requires ToLower(k) == lower
    requires forall i :: 0 <= i < |lower| ==> !IsSpace(lower[i])
    requires k !in ExactHeaders && lower !in NormalizedHeaders
    ensures TranslationKey(k).None?
  {
    RemoveSpacesNone(lower);
  }

  // ---------------------------------------------------------------------------
  // Logo address

  const DefaultLogo := "/default-logo.svg"

  /** The logo address of the PDF header: placeholders give the default image, uploads lose their "/uploads" folder. */
  function ReportLogoUrl(logoPath: string): (r: string)
    ensures logoPath in {"", "null", "undefined"} ==> r == DefaultLogo
    ensures logoPath !in {"", "null", "undefined"} ==> r == ReplaceFirst(logoPath, "/uploads/", "/")
  {
    if logoPath == "" || logoPath == "null" || logoPath == "undefined" then DefaultLogo
    else ReplaceFirst(logoPath, "/uploads/", "/")
  }

  /** The logo of the report: the selected subsidiary's own logo when it has one, the default otherwise. */
  function ReportLogo(selected: Option<Subsidiary>): (r: string)
    ensures (selected.None? || selected.value.data.logo.None? || selected.value.data.logo == Some("")) ==> r == DefaultLogo
    ensures selected.Some? && selected.value.data.logo.Some? && selected.value.data.logo.value != "" ==>
      r == ReportLogoUrl(selected.value.data.logo.value)
  {
    if selected.Some? && selected.value.data.logo.Some? && selected.value.data.logo.value != ""
    then ReportLogoUrl(selected.value.data.logo.value)
    else DefaultLogo
  }

  /** A logo stored under the upload folder is served from the site root under its file name. */
  lemma UploadedLogoAddress(fileName: string)
    ensures ReportLogoUrl("/uploads/" + fileName) == "/" + fileName
  {
    var p := "/uploads/" + fileName;
    assert p[0..9] == "/uploads/";
    assert OccursAt(p, "/uploads/", 0);
    assert p != "" && p != "null" && p != "undefined" by { assert p[0] == '/'; }
    assert p[9..] == fileName;
  }

  // ---------------------------------------------------------------------------
  // Cell text

  const MaxCellLength := 50

  /** The text of a table cell: strings longer than 50 characters are cut to 50 and marked with "...". */
  function DisplayValue(c: Cell): (r: string)
    ensures c.Str? && |c.s| <= MaxCellLength ==> r == c.s
    ensures c.Str? && |c.s| > MaxCellLength ==> |r| == MaxCellLength + 3 && r == c.s[..MaxCellLength] + "..."
    ensures c.Null? ==> r == "null"
  {
    match c
    case Str(s) => if |s| > MaxCellLength then s[..MaxCellLength] + "..." else s
    case Num(n) => IntToString(n)
    case Null => "null"
    case Undefined => "undefined"
  }

  /** A string cell's text is a prefix of the string, or a 50-character prefix followed by "...". */
  lemma DisplayValueBounds(s: string)
    ensures |DisplayValue(Str(s))| <= MaxCellLength + 3
    ensures var r := DisplayValue(Str(s)); r <= s || (r[..MaxCellLength] <= s && r[MaxCellLength..] == "...")
  {
  }

  // ---------------------------------------------------------------------------
  // Subsidiary filter and preview

  /** A JavaScript number is truthy when it is not 0. */
  predicate Selected(selected: Option<int>) {
    selected.Some? && selected.value != 0
  }

  /** The selected subsidiary's record in the fetched list: the first with that id. */
  function SelectedData(subsidiaries: seq<Subsidiary>, selected: Option<int>): (r: Option<Subsidiary>)
    ensures r.Some? <==> Selected(selected) && selected.value in Ids(subsidiaries)
    ensures r.Some? ==> r.value.id == selected.value && r.value in subsidiaries
  {
    if Selected(selected) then Find(subsidiaries, selected.value) else None
  }

  /** The cell a row must hold under "Subsidiary": the selected name, or undefined when there is none. */
  function NameCell(data: Option<Subsidiary>): Cell {
    if data.Some? then Str(data.value.data.name) else Undefined
  }

  /**
   * The rows kept for a selected subsidiary: when the first row has a
   * "Subsidiary" cell the rows with the selected name, else when it has a
   * "subsidiaryId" cell the rows with the selected id, else all rows.
   */
  function FilterRows(rows: seq<Record>, subsidiaries: seq<Subsidiary>, selected: Option<int>): (r: seq<Record>)
    ensures !Selected(selected) || |rows| == 0 ==> r == rows
    ensures multiset(r) <= multiset(rows)
  {
    if Selected(selected) && |rows| > 0 then
      if Get(rows[0], "Subsidiary") != Undefined then
        var name := NameCell(SelectedData(subsidiaries, selected));
        WhereSubset(rows, (row: Record) => Get(row, "Subsidiary") == name);
        Where(rows, (row: Record) => Get(row, "Subsidiary") == name)
      else if Get(rows[0], "subsidiaryId") != Undefined then
        WhereSubset(rows, (row: Record) => Get(row, "subsidiaryId") == Num(selected.value));
        Where(rows, (row: Record) => Get(row, "subsidiaryId") == Num(selected.value))
      else rows
    else rows
  }

  /** A filter keeps at most the elements it was given, each at most as often. */
  lemma WhereSubset<T(!new)>(xs: seq<T>, keep: T -> bool)
    ensures multiset(Where(xs, keep)) <= multiset(xs)
  {
    forall x ensures multiset(Where(xs, keep))[x] <= multiset(xs)[x] {
      WhereMultiset(xs, keep, x);
    }
  }

  /**
   * With a subsidiary selected and rows named by subsidiary, a row is kept
   * exactly when it names the selected subsidiary, in the original order.
   */
  lemma FilterByName(rows: seq<Record>, subsidiaries: seq<Subsidiary>, selected: Option<int>, row: Record)
    requires Selected(selected) && |rows| > 0 && Get(rows[0], "Subsidiary") != Undefined
    requires selected.value in Ids(subsidiaries)
    ensures var name := Find(subsidiaries, selected.value).value.data.name;
      row in FilterRows(rows, subsidiaries, selected) <==> row in rows && Get(row, "Subsidiary") == Str(name)
  {
  }

  /** A selection that matches no fetched subsidiary keeps only rows without a "Subsidiary" cell. */
  lemma FilterUnknownSelection(rows: seq<Record>, subsidiaries: seq<Subsidiary>, selected: Option<int>, row: Record)
    requires Selected(selected) && |rows| > 0 && Get(rows[0], "Subsidiary") != Undefined
    requires selected.value !in Ids(subsidiaries)
    ensures row in FilterRows(rows, subsidiaries, selected) <==> row in rows && Get(row, "Subsidiary") == Undefined
  {
  }

  const PreviewLimit := 5

  /** The rows the preview table shows: the first five. */
  function PreviewRows(rows: seq<Record>): (r: seq<Record>)
    ensures |r| <= PreviewLimit && r <= rows
    ensures |rows| >= PreviewLimit ==> |r| == PreviewLimit
    ensures |rows| < PreviewLimit ==> r == rows
  {
    if |rows| <= PreviewLimit then rows else rows[..PreviewLimit]
  }
}
