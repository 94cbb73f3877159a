/**
 * The two report writers: `write_csv`, a fixed header and one row of eight
 * fields per record, and `write_html`, one `<tr>` of seven unescaped cells
 * per record inside a fixed page. The CSV is modelled as its rows of fields
 * (the csv module's quoting is not modelled), the HTML as the page text.
 */
module Reports {
  import opened Wrappers
  import opened Apps

  /** The CSV columns, in the order they are written. */
  const CsvHeader: seq<string> :=
    ["Name", "Version", "InstallDate", "Publisher", "InstallLocation", "UninstallString", "Source", "LastModified"]

  /** The HTML columns: the CSV columns without UninstallString. */
  const HtmlColumns: seq<string> :=
    ["Name", "Version", "InstallDate", "Publisher", "InstallLocation", "Source", "LastModified"]

  /** One CSV data row: the record's field for each header name. */
  function CsvRow(a: App): (r: seq<string>)
    ensures |r| == |CsvHeader|
  {
    seq(|CsvHeader|, j requires 0 <= j < |CsvHeader| => Field(a, CsvHeader[j]))
  }

  /** The fields of a CSV data row, in column order. */
  lemma CsvRowColumns(a: App)
    ensures CsvRow(a) == [a.Name.GetOr(""), a.Version, a.InstallDate, a.Publisher,
                          a.InstallLocation, a.UninstallString, OriginName(a.Source), a.LastModified]
  {
  }

  /** Reading a CSV data row back as a record: None unless it has eight fields and a known Source. */
  function FromCsvRow(row: seq<string>): (r: Option<App>)
    ensures r.Some? ==> |row| == |CsvHeader| && r.value.Name.Some?
  {
    if |row| != |CsvHeader| then None
    else
      var source :=
        if row[6] == "Registry" then Some(Registry)
        else if row[6] == "StoreApp" then Some(StoreApp)
        else None;
      match source
      case None => None
      case Some(o) => Some(App(Some(row[0]), row[1], row[2], row[3], row[4], row[5], o, row[7]))
  }

  /**
   * The CSV loses nothing but a missing name: a named record reads back as
   * itself, and a row that reads back as a record is that record's row.
   */
  lemma CsvRowRoundTrip(a: App, row: seq<string>)
    ensures a.Name.Some? ==> FromCsvRow(CsvRow(a)) == Some(a)
    ensures FromCsvRow(row) == Some(a) ==> CsvRow(a) == row
  {
    CsvRowColumns(a);
    if FromCsvRow(row) == Some(a) {
      assert row == [row[0], row[1], row[2], row[3], row[4], row[5], row[6], row[7]];
    }
  }

  /** The CSV file: the header, then the rows of `items`, one row per call to `writerow`. */
  function CsvTable(items: seq<App>): seq<seq<string>> {
    if items == [] then [CsvHeader]
    else CsvTable(items[..|items| - 1]) + [CsvRow(items[|items| - 1])]
  }

  /** The header comes first, then exactly one row per item, in order. */
  lemma {:induction false} CsvTableShape(items: seq<App>)
    ensures |CsvTable(items)| == |items| + 1 && CsvTable(items)[0] == CsvHeader
    ensures forall i :: 0 <= i < |items| ==> CsvTable(items)[i + 1] == CsvRow(items[i])
  {
    if items != [] {
      var n := |items| - 1;
      CsvTableShape(items[..n]);
      assert forall i :: 0 <= i < n ==> items[..n][i] == items[i];
    }
  }

  /** No data row equals the header, since its Source field is "Registry" or "StoreApp". */
  lemma HeaderOnlyFirst(items: seq<App>)
    ensures forall i :: 1 <= i < |CsvTable(items)| ==> CsvTable(items)[i] != CsvHeader
  {
    CsvTableShape(items);
    forall i | 1 <= i < |CsvTable(items)| ensures CsvTable(items)[i] != CsvHeader {
      CsvRowColumns(items[i - 1]);
    }
  }

  /** Two records give three rows, and a field a record leaves empty is an empty cell. */
  lemma CsvTwoRecords()
    ensures CsvTable([App(Some("Foo"), "1.0", "", "", "", "", Registry, ""),
                      App(Some("Bar"), "", "", "", "C:\\Bar", "", StoreApp, "")])
            == [CsvHeader, ["Foo", "1.0", "", "", "", "", "Registry", ""],
                ["Bar", "", "", "", "C:\\Bar", "", "StoreApp", ""]]
  {
    var a := App(Some("Foo"), "1.0", "", "", "", "", Registry, "");
    var b := App(Some("Bar"), "", "", "", "C:\\Bar", "", StoreApp, "");
    assert [a, b][..1] == [a] && [a][..0] == [];
    CsvRowColumns(a);
    CsvRowColumns(b);
    assert CsvTable([a]) == [CsvHeader, CsvRow(a)];
    assert CsvTable([a, b]) == [CsvHeader, CsvRow(a), CsvRow(b)];
  }

  /** A record without a name shows an empty Name cell, not "None", in both reports. */
  lemma UnnamedShowsEmpty(a: App)
    requires a.Name.None?
    ensures CsvRow(a)[0] == ""
    ensures HtmlRow(a)[..|"<tr><td></td>"|] == "<tr><td></td>"
  {
    CsvRowColumns(a);
    HtmlRowColumns(a);
    var cells := [Cell(""), Cell(a.Version), Cell(a.InstallDate), Cell(a.Publisher),
                  Cell(a.InstallLocation), Cell(OriginName(a.Source)), Cell(a.LastModified)];
    JoinFirst(cells);
    assert HtmlRow(a) == "<tr>" + (Cell("") + Join(cells[1..])) + "</tr>";
  }

  /** A joined list starts with its first element. */
  lemma {:induction false} JoinFirst(rows: seq<string>)
    requires rows != []
    ensures Join(rows) == rows[0] + Join(rows[1..])
  {
    var n := |rows| - 1;
    if n == 0 {
      assert rows[1..] == [];
    } else {
      var pre, tail := rows[..n], rows[1..];
      JoinFirst(pre);
      assert pre[1..] == tail[..n - 1] && pre[0] == rows[0] && tail[n - 1] == rows[n];
      assert Join(tail) == Join(tail[..n - 1]) + tail[n - 1];
      assert Join(rows) == Join(pre) + rows[n];
    }
  }

  /** `write_csv`: write the header, then one row per item. */
  method WriteCsv(items: seq<App>) returns (rows: seq<seq<string>>)
    ensures rows == CsvTable(items)
  {
    rows := [CsvHeader];
    for i := 0 to |items|
      invariant rows == CsvTable(items[..i])
    {
      assert items[..i + 1][..i] == items[..i];
      var row := seq(|CsvHeader|, j requires 0 <= j < |CsvHeader| => Field(items[i], CsvHeader[j]));
      rows := rows + [row];
    }
    assert items[..|items|] == items;
  }

  /** One table cell. */
  function Cell(v: string): string {
    "<td>" + v + "</td>"
  }

  /** The cells of record `a` for `cols`, concatenated in order. */
  function Cells(a: App, cols: seq<string>): string {
    if cols == [] then ""
    else Cells(a, cols[..|cols| - 1]) + Cell(Field(a, cols[|cols| - 1]))
  }

  /** One HTML table row; a missing or empty value gives an empty cell, and values are not escaped. */
  function HtmlRow(a: App): string {
    "<tr>" + Cells(a, HtmlColumns) + "</tr>"
  }

  /** `''.join(rows)`. */
  function Join(rows: seq<string>): string {
    if rows == [] then "" else Join(rows[..|rows| - 1]) + rows[|rows| - 1]
  }

  /** The cells of `a` for `cols`, one string per column. */
  function CellList(a: App, cols: seq<string>): (r: seq<string>)
    ensures |r| == |cols|
  {
    seq(|cols|, j requires 0 <= j < |cols| => Cell(Field(a, cols[j])))
  }

  /** Cells is the joined list of cells. */
  lemma {:induction false} CellsAsJoin(a: App, cols: seq<string>)
    ensures Cells(a, cols) == Join(CellList(a, cols))
  {
    if cols != [] {
      var n := |cols| - 1;
      CellsAsJoin(a, cols[..n]);
      assert CellList(a, cols)[..n] == CellList(a, cols[..n]);
    }
  }

  /** The cells of an HTML row, in column order. */
  lemma HtmlRowColumns(a: App)
    ensures HtmlRow(a)
            == "<tr>" + Join([Cell(a.Name.GetOr("")), Cell(a.Version), Cell(a.InstallDate), Cell(a.Publisher),
                              Cell(a.InstallLocation), Cell(OriginName(a.Source)), Cell(a.LastModified)]) + "</tr>"
  {
    CellsAsJoin(a, HtmlColumns);
    assert CellList(a, HtmlColumns)
           == [Cell(a.Name.GetOr("")), Cell(a.Version), Cell(a.InstallDate), Cell(a.Publisher),
               Cell(a.InstallLocation), Cell(OriginName(a.Source)), Cell(a.LastModified)];
  }

  /** Records that show the same values in `cols` give the same cells. */
  lemma {:induction false} CellsDetermined(a: App, b: App, cols: seq<string>)
    requires forall j :: 0 <= j < |cols| ==> Field(a, cols[j]) == Field(b, cols[j])
    ensures Cells(a, cols) == Cells(b, cols)
  {
    if cols != [] {
      var n := |cols| - 1;
      assert forall j :: 0 <= j < n ==> cols[..n][j] == cols[j];
      CellsDetermined(a, b, cols[..n]);
    }
  }

  /** The HTML row does not show the uninstall command. */
  lemma HtmlRowIgnoresUninstall(a: App, u: string)
    ensures HtmlRow(a.(UninstallString := u)) == HtmlRow(a)
  {
    CellsDetermined(a.(UninstallString := u), a, HtmlColumns);
  }

  /** The rows of `items`, in order. */
  function HtmlRows(items: seq<App>): seq<string> {
    if items == [] then []
    else HtmlRows(items[..|items| - 1]) + [HtmlRow(items[|items| - 1])]
  }

  /** Exactly one row per item, in order. */
  lemma {:induction false} HtmlRowsShape(items: seq<App>)
    ensures |HtmlRows(items)| == |items|
    ensures forall i :: 0 <= i < |items| ==> HtmlRows(items)[i] == HtmlRow(items[i])
  {
    if items != [] {
      var n := |items| - 1;
      HtmlRowsShape(items[..n]);
      assert forall i :: 0 <= i < n ==> items[..n][i] == items[i];
    }
  }

  /** The page up to the collection time in the heading. */
  const PageStart: string :=
    "<!doctype html>\n<html><head><meta charset=\"utf-8\"><title>Installed apps evidence</title>\n<style>\n"
    + "body{font-family:Segoe UI,Arial;margin:20px}table{border-collapse:collapse;width:100%}\n"
    + "th,td{border:1px solid #ddd;padding:6px;text-align:left;font-size:13px}\n"
    + "th{background:#f2f2f2}\n</style>\n</head><body>\n"
    + "<h2>Installed Applications (collected: "

  /** The rest of the heading and the table head, up to the table body. */
  const TableStart: string :=
    ")</h2>\n"
    + "<table><thead><tr><th>Name</th><th>Version</th><th>InstallDate</th><th>Publisher</th>"
    + "<th>InstallLocation</th><th>Source</th><th>LastModified (inferred)</th></tr></thead><tbody>\n"

  /** The page up to the table body, with the collection time in the heading. */
  function HtmlHead(collected: string): string {
    PageStart + collected + TableStart
  }

  /** The page after the table body. */
  const HtmlTail: string := "\n</tbody></table>\n</body></html>"

  /** The whole page `write_html` writes. */
  function HtmlDocument(items: seq<App>, collected: string): string {
    HtmlHead(collected) + Join(HtmlRows(items)) + HtmlTail
  }

  /** Records that differ only in their uninstall commands give the same rows. */
  lemma {:induction false} HtmlRowsIgnoreUninstall(items: seq<App>, items': seq<App>)
    requires |items'| == |items|
    requires forall i :: 0 <= i < |items| ==> items'[i] == items[i].(UninstallString := items'[i].UninstallString)
    ensures HtmlRows(items') == HtmlRows(items)
  {
    if items != [] {
      var n := |items| - 1;
      assert forall i :: 0 <= i < n ==> items[..n][i] == items[i] && items'[..n][i] == items'[i];
      HtmlRowsIgnoreUninstall(items[..n], items'[..n]);
      HtmlRowIgnoresUninstall(items[n], items'[n].UninstallString);
    }
  }

  /** The page never depends on the uninstall commands. */
  lemma HtmlIgnoresUninstall(items: seq<App>, items': seq<App>, collected: string)
    requires |items'| == |items|
    requires forall i :: 0 <= i < |items| ==> items'[i] == items[i].(UninstallString := items'[i].UninstallString)
    ensures HtmlDocument(items', collected) == HtmlDocument(items, collected)
  {
    HtmlRowsIgnoreUninstall(items, items');
  }

  /** `write_html`: build one row per item, then write the page around them. */
  method WriteHtml(items: seq<App>, collected: string) returns (page: string)
    ensures page == HtmlDocument(items, collected)
  {
    var rows: seq<string> := [];
    for i := 0 to |items|
      invariant rows == HtmlRows(items[..i])
    {
      assert items[..i + 1][..i] == items[..i];
      rows := rows + [HtmlRow(items[i])];
    }
    assert items[..|items|] == items;
    page := HtmlHead(collected) + Join(rows) + HtmlTail;
  }
}
