/**
 * The installed-application record that every adapter builds: a dict with
 * the same eight keys in the source, a fixed record here.
 */
module Apps {
  import opened Wrappers

  /** The `Source` tag: "Registry" or "StoreApp". */
  datatype Origin = Registry | StoreApp

  /**
   * `Name` is optional because a Store package with neither `Name` nor
   * `PackageFullName` gets `None` there; every other field is a string.
   */
  datatype App = App(
    Name: Option<string>,
    Version: string,
    InstallDate: string,
    Publisher: string,
    InstallLocation: string,
    UninstallString: string,
    Source: Origin,
    LastModified: string)

  /** The tag written to the `Source` column. */
  function OriginName(o: Origin): (r: string)
    ensures r != ""
    ensures r == "Registry" || r == "StoreApp"
    ensures r == "Registry" <==> o == Registry
  {
    match o
    case Registry => "Registry"
    case StoreApp => "StoreApp"
  }

  /** The eight keys of a record. */
  const FieldNames: set<string> :=
    {"Name", "Version", "InstallDate", "Publisher", "InstallLocation", "UninstallString", "Source", "LastModified"}

  /**
   * The text a report shows for field `h`: `it.get(h, "")`, or `it.get(h) or ''`,
   * which agree here, since a missing `Name` (None) is written as "" by both
   * report writers and a key that is not one of the eight gives "".
   */
  function Field(a: App, h: string): (r: string)
    ensures h !in FieldNames ==> r == ""
  {
    match h
    case "Name" => a.Name.GetOr("")
    case "Version" => a.Version
    case "InstallDate" => a.InstallDate
    case "Publisher" => a.Publisher
    case "InstallLocation" => a.InstallLocation
    case "UninstallString" => a.UninstallString
    case "Source" => OriginName(a.Source)
    case "LastModified" => a.LastModified
    case _ => ""
  }
}
