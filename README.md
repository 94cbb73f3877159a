# Installed-applications evidence collector, modelled in Dafny

`Applocker.py` collects evidence of the software installed on a Windows
machine:

- It reads the three Uninstall registry keys: the machine key, its
  WOW6432Node twin, and the user key.
- It reads the Store (Appx) packages through PowerShell.
- It infers a "last modified" time for each application from the files it
  installed.
- It reconciles duplicate names by a completeness score.
- It writes a CSV report and an HTML report.
- It records every write in an append-only evidence log.

This project models that logic. Modules, leaves first:

- `Wrappers`: `Option`.
- `Text`: Python's `str.strip()` over the full `str.isspace()` set, and the
  decimal rendering of a count.
- `InstallDate`: `parse_install_date`.
- `ExePath`: the two regular-expression searches in an uninstall command,
  written out by hand. Each is proved against a predicate that describes a
  match.
- `FileTimes`: `guess_last_modified`, meaning the candidate paths and the
  running maximum of modification times.
- `Apps`: the application record.
- `Adapters`: `read_uninstall_key` and `get_store_apps_via_powershell`.
- `Dedupe`: `dedupe_apps`. The Python dict is modelled as its key order plus
  a map.
- `Reports`: `write_csv` and `write_html`.
- `Evidence`: `append_evidence_log`. The log file is a class whose `file`
  field is None until the file exists.
- `Collector`: `main`, meaning the order in which records are gathered, the
  crash on an unnamed record, and the sequence of writes and log entries.

The machine is reached only through values passed in:

- `FileTimes.Host` stands for `os.path.isdir`, the recursive glob,
  `os.path.getmtime` and `datetime.fromtimestamp(...).isoformat(...)`.
- `Adapters.UninstallKey` holds the subkey values a registry key yields.
- `Adapters.StoreQuery` holds the parsed PowerShell JSON.
- `Collector.Clock` holds the readings of `timestamp_now()`.
- `Collector.Screenshot` holds the outcome of the optional screenshot.

Three behaviours of the code that the model keeps:

- `dedupe_apps` returns names in the order they were first seen, which is
  Python dict insertion order.
- The Store tag is `StoreApp`.
- The HTML values are not escaped.

## Model

| member | source | states |
|---|---|---|
| Text.StripSpec | Applocker.py:36 | `strip()` keeps a contiguous middle part whose ends are not whitespace, removes only whitespace around it, and gives "" exactly for all-whitespace text |
| Text.Strip | Applocker.py:36 | `str.strip()`; StripSpec states what it removes and keeps |
| Text.StripIdempotent | Applocker.py:145 | stripping a stripped name changes nothing |
| Text.NatToString | Applocker.py:224 | the row count in the log note is the count's decimal digits, with no leading zero, denoting exactly the count |
| InstallDate.ParseInstallDate | Applocker.py:32-41 | an absent or empty value gives ""; otherwise the value is stripped; eight leading digits become `DDDD-DD-DD` with the digits in order; any other stripped value is returned unchanged; the result never has whitespace at either end |
| InstallDate.ParseIgnoresTail | Applocker.py:37-39 | the match is anchored only at the start, so whatever follows the first eight digits is dropped |
| InstallDate.ParseInstallDateIdempotent | Applocker.py:32-41 | normalising an already normalised date changes nothing |
| InstallDate.ParseCompactDate | Applocker.py:37-39 | "20230405" becomes "2023-04-05" |
| InstallDate.ParseSlashedDate | Applocker.py:40-41 | "04/05/2023" falls back to the raw stripped value |
| InstallDate.ParseMissingDate | Applocker.py:34-35 | None and "" give "" |
| ExePath.NextQuote | Applocker.py:55 | finds the first `"` at or after a position, with no `"` before it |
| ExePath.NextSpace | Applocker.py:59 | finds the first space at or after a position, with no space before it |
| ExePath.QuotedSpan | Applocker.py:55 | finds the leftmost match of `"([^"]+\.exe)"`, or reports that there is none anywhere |
| ExePath.LastExeEnd | Applocker.py:59 | finds the last position in a range that ends `.exe`, or reports that there is none |
| ExePath.DriveSpan | Applocker.py:59 | finds the leftmost match of `([A-Za-z]:\\[^ ]+\.exe)`, with the longest end the greedy `[^ ]+` reaches, or reports that there is none anywhere |
| ExePath.ExtractSpec | Applocker.py:53-61 | the extracted path is the leftmost quoted match's group whenever one exists; otherwise it is the leftmost, longest drive match; it is nothing exactly when neither pattern matches |
| ExePath.ExtractExePath | Applocker.py:53-61 | the quoted search is tried first, then the drive search, and an empty command is not searched; what each yields is stated by ExtractSpec |
| ExePath.ExtractShape | Applocker.py:53-61 | an extracted path has at least one character before `.exe`; a quoted one contains no `"`; a drive one starts with `X:\` and contains no space |
| ExePath.NoExeNoPath | Applocker.py:53-61 | a command without `.exe` yields no path |
| ExePath.LeadingQuotedPath | Applocker.py:55-57 | a command opening with a quoted `.exe` path yields exactly that path, whatever follows |
| ExePath.LeadingDrivePath | Applocker.py:58-61 | a quote-free command opening with a drive `.exe` path, followed by nothing or a space, yields that path |
| ExePath.QuotedProgramFiles | Applocker.py:55-57 | `"C:\Program Files\App\unins000.exe" /S` yields the path inside the quotes, spaces included |
| ExePath.UnquotedToolsPath | Applocker.py:58-61 | `C:\Tools\setup.exe /quiet` yields `C:\Tools\setup.exe` |
| FileTimes.GlobAll | Applocker.py:51-52 | the glob results of the patterns, one pattern after the other; CollectCandidates's loop is proved to compute it |
| FileTimes.Mtimes | Applocker.py:64-66 | there is one `getmtime` reading per candidate path (the body defines it as the reading of the path at the same index) |
| FileTimes.CandidatePaths | Applocker.py:48-61 | under an existing install folder the list starts with all the glob results and adds at most one path; the extracted path, if any, comes last; without an existing folder and without an extracted path the list is empty, so no path is invented |
| FileTimes.LatestOf | Applocker.py:63-70 | the running maximum starting at 0 is at least every readable time; when positive it is one of them; it is 0 exactly when no readable time is positive; unreadable entries are skipped |
| FileTimes.LastModifiedOf | Applocker.py:71-73 | the inferred time is the formatted latest readable time when that time is positive, and "" when no readable time is positive; with a formatter that never gives "", the result is "" exactly when no readable time is positive |
| FileTimes.CollectCandidates | Applocker.py:48-61 | the loop over the three patterns and the extracted path build CandidatePaths |
| FileTimes.FoldLatest | Applocker.py:63-70 | the loop over the paths computes LatestOf of their readable times |
| FileTimes.GuessLastModified | Applocker.py:43-73 | the loops that build `paths_to_check` and fold `latest` compute LastModifiedOf |
| Apps.Field | Applocker.py:159-164 | a key that is not one of the record's eight gives ""; CsvRowColumns and HtmlRowColumns state the field each column shows |
| Apps.OriginName | Applocker.py:99 | the Source tag is "Registry" for a registry record and "StoreApp" otherwise, never empty |
| Adapters.Lookup | Applocker.py:83-88 | `rv(name)` is a value exactly when the subkey has that value |
| Adapters.RegistryRecord | Applocker.py:89-101 | a record exists exactly when DisplayName is truthy; it carries that name and Source Registry; InstallDate goes through ParseInstallDate; DisplayVersion, Publisher, InstallLocation and UninstallString are copied from the subkey, or "" when absent; LastModified is inferred from InstallLocation and UninstallString |
| Adapters.RegistryRecords | Applocker.py:79-104 | at most one record per subkey, each tagged Registry and with a non-empty name |
| Adapters.RegistryRecordsCount | Applocker.py:79-104 | there is exactly one record per subkey that could be read and has a display name |
| Adapters.RegistryRecordsAt | Applocker.py:79-104 | the record of each such subkey comes right after those of the earlier such subkeys, so records are in enumeration order |
| Adapters.RegistryRecordsMembers | Applocker.py:79-104 | a record is in the list exactly when some readable, named subkey yields it |
| Adapters.KeyRecords | Applocker.py:75-107 | what `read_uninstall_key` returns: nothing for a missing key, else RegistryRecords of its subkeys; ReadUninstallKey computes it |
| Adapters.ReadUninstallKey | Applocker.py:75-107 | the loop over the subkeys returns KeyRecords: nothing for a missing key, and skipped subkeys contribute nothing |
| Adapters.StoreName | Applocker.py:124 | `Name` when truthy, else `PackageFullName`, or None when that is absent too |
| Adapters.StoreRecord | Applocker.py:125-135 | a Store record carries StoreName and the item's InstallLocation (or ""), has no version, date, publisher or uninstall command, is tagged StoreApp, and its time comes from the install folder alone |
| Adapters.StoreRecords | Applocker.py:117-139 | one record per JSON object, in order; if any element is not an object, the broad `except` makes the result empty |
| Adapters.StoreList | Applocker.py:117-121 | the JSON as a list of objects, a single object becoming a one-element list; StoreSingle and StoreUnavailable state it through StoreRecords |
| Adapters.StoreSingle | Applocker.py:120-121 | a single JSON object gives exactly its one Store record |
| Adapters.StoreUnavailable | Applocker.py:116-118 | no usable PowerShell output gives no Store records |
| Adapters.BuildStoreRecord | Applocker.py:124-136 | the body of the loop over the JSON objects builds StoreRecord of the object |
| Adapters.GetStoreApps | Applocker.py:120-137 | the loop over the JSON items computes StoreRecords |
| Dedupe.Named | Applocker.py:145 | every record has a name, the condition under which `a["Name"].strip()` does not raise; Run returns no outputs exactly when it fails |
| Dedupe.Key | Applocker.py:145 | the reconciliation key is the stripped name; StripSpec states what is removed, and BlankNamesDropped that an all-whitespace name gives no output |
| Dedupe.Score | Applocker.py:148 | the score is in 0..4; it is 0 exactly when all four scored fields are empty and 4 exactly when all are filled |
| Dedupe.FirstSeen | Applocker.py:143-150 | the dict's key order; FirstSeenKeys and FirstSeenOrder state its contents and order |
| Dedupe.KeptAt | Applocker.py:143-150 | the index the dict keeps for a key is an index of the input; KeptAtIsEarliestMax states which one |
| Dedupe.FirstSeenKeys | Applocker.py:143-150 | the dict's keys are pairwise different, and they are exactly the non-blank stripped names of the input |
| Dedupe.KeptAtOccurs | Applocker.py:149-150 | `KeptAt` finds an index for a key exactly when some record has that key; for non-blank keys these are the dict's keys (`RepoAfter`) |
| Dedupe.KeptAtIsEarliestMax | Applocker.py:149-150 | the record a key keeps has the key's maximum score and is the earliest record with that maximum |
| Dedupe.EarliestMaxUnique | Applocker.py:149-150 | that record is unique |
| Dedupe.FirstSeenOrder | Applocker.py:149-151 | keys are listed by the position of their first record |
| Dedupe.Reconcile | Applocker.py:141-151 | the output has one record per key, in first-seen key order, and every output record is named |
| Dedupe.DedupeApps | Applocker.py:141-151 | the loop over the dict (key order plus map) returns Reconcile of its input |
| Dedupe.ReconcileKeys | Applocker.py:145-151 | output keys are non-blank and pairwise different, and every input with a non-blank key shares its key with an output record |
| Dedupe.ReconcileSelects | Applocker.py:148-151 | every output record is an unmodified input record: for its key, the earliest one with the highest score |
| Dedupe.ReconcileOrder | Applocker.py:149-151 | output records come in the order their keys first occur |
| Dedupe.ReconcileOfUnique | Applocker.py:141-151 | records whose keys are already unique and non-blank are returned unchanged |
| Dedupe.ReconcileIdempotent | Applocker.py:141-151 | reconciling twice is reconciling once |
| Dedupe.TieKeepsFirst | Applocker.py:149 | of two records with one name and equal scores, the first one read is kept |
| Dedupe.HigherFirstKept | Applocker.py:149 | of two records with one name, a first record scoring higher is kept |
| Dedupe.HigherSecondKept | Applocker.py:149-150 | of two records with one name, a second record scoring higher replaces the first |
| Dedupe.HigherScoreWins | Applocker.py:149 | of two records with one name, the higher score is kept whichever comes first |
| Dedupe.BlankNamesDropped | Applocker.py:145-147 | a record whose name is all whitespace never reaches the output |
| Reports.CsvRow | Applocker.py:159 | a data row has one field per header column; CsvRowColumns lists them |
| Reports.CsvRowColumns | Applocker.py:154-159 | a data row holds Name, Version, InstallDate, Publisher, InstallLocation, UninstallString, Source and LastModified, in that order, with a missing name as "" |
| Reports.CsvRowRoundTrip | Applocker.py:154-159 | reading a named record's row back gives the record; a row that reads back as a record is that record's row |
| Reports.CsvTableShape | Applocker.py:156-159 | the header comes first, then exactly one row per item, in order |
| Reports.HeaderOnlyFirst | Applocker.py:157-159 | no data row equals the header |
| Reports.CsvTwoRecords | Applocker.py:153-159 | two named records give three rows, and empty fields are empty cells |
| Reports.UnnamedShowsEmpty | Applocker.py:159-164 | a record without a name has an empty Name cell in both reports, not the text None |
| Reports.CsvTable | Applocker.py:156-159 | the CSV's rows; CsvTableShape states the header, then one row per item |
| Reports.WriteCsv | Applocker.py:153-159 | the `writerow` loop writes CsvTable |
| Reports.HtmlRow | Applocker.py:164 | one table row; HtmlRowColumns states its seven cells |
| Reports.HtmlRowColumns | Applocker.py:164 | an HTML row is `<tr>`, then one unescaped `<td>` cell each for Name, Version, InstallDate, Publisher, InstallLocation, Source and LastModified, then `</tr>` |
| Reports.Cells | Applocker.py:164 | the row's cells concatenated; CellsAsJoin states it is the join of the per-column cells and CellsDetermined that it depends only on those columns |
| Reports.Join | Applocker.py:164-175 | `''.join`; JoinFirst states that a joined list starts with its first element |
| Reports.JoinFirst | Applocker.py:164 | joining a list gives its first element followed by the join of the rest |
| Reports.CellsAsJoin | Applocker.py:164 | the cells are the join of the per-column cells, in column order |
| Reports.CellsDetermined | Applocker.py:164 | a row depends only on the values in its columns |
| Reports.HtmlRowIgnoresUninstall | Applocker.py:164 | the HTML row does not show the uninstall command |
| Reports.HtmlRows | Applocker.py:162-164 | the list `rows`; HtmlRowsShape states one row per item, in order |
| Reports.HtmlRowsShape | Applocker.py:162-164 | exactly one HTML row per item, in order |
| Reports.HtmlIgnoresUninstall | Applocker.py:161-177 | the page does not depend on any uninstall command |
| Reports.HtmlDocument | Applocker.py:165-177 | the page: the fixed head with the collection time, the joined rows, the fixed tail; HtmlIgnoresUninstall states it never shows an uninstall command |
| Reports.WriteHtml | Applocker.py:161-177 | the loop that builds `rows` yields HtmlDocument: the fixed head with the collection time, the joined rows, the fixed tail |
| Evidence.LogRow | Applocker.py:189 | a log row has as many columns as the header (the body defines them as timestamp, action, path, note) |
| Evidence.AppendRow | Applocker.py:181-189 | one append adds exactly one row at the end; an existing file keeps its rows in front; a new file gets the header first |
| Evidence.AppendAllConcat | Applocker.py:181-189 | appending two batches is appending their concatenation |
| Evidence.AppendAllExisting | Applocker.py:183-189 | on an existing file, N calls leave its rows unchanged and add exactly the N rows after them |
| Evidence.AppendAllFresh | Applocker.py:182-189 | starting with no file, N ≥ 1 calls give the header once, then the N rows |
| Evidence.EvidenceLog.constructor | Applocker.py:26 | the log starts from whatever file exists |
| Evidence.EvidenceLog.Append | Applocker.py:181-189 | the file becomes AppendRow of the old file and the new row, and its old rows stay a prefix |
| Collector.Collected | Applocker.py:207-216 | the gathered records; CollectedShape states Registry first, only Store records unnamed, Store records scoring at most 2 |
| Collector.CollectApps | Applocker.py:207-216 | the records are gathered as HKLM, WOW6432Node, HKCU, then Store |
| Collector.KeyRecordsRegistry | Applocker.py:92-100 | every registry record is named and tagged Registry |
| Collector.StoreRecordsStore | Applocker.py:126-133 | every Store record is tagged StoreApp, with no version and no date |
| Collector.CollectedShape | Applocker.py:207-216 | the gathered records put every Registry record before every Store record; only a Store record can be unnamed; a Store record scores at most 2 |
| Collector.StoreKeptOnlyIfBetter | Applocker.py:208-219 | a Store record is kept for a name only if it scores strictly higher than every Registry record with that name, because registry records are read first |
| Collector.RegistryBeatsStore | Applocker.py:208-219 | a Registry record with at least two scored fields filled keeps every Store record of its name out of the output |
| Collector.CsvLogRow | Applocker.py:224 | the `write_csv` log row for the CSV path, whose note CsvNoteCountsRows states is the row count followed by " rows" |
| Collector.CsvNoteCountsRows | Applocker.py:223-224 | the count in the `write_csv` log note is the number of data rows in the CSV |
| Collector.HtmlLogRow | Applocker.py:228 | the `write_html` log row for the HTML path with an empty note; Publish logs it after writing the page |
| Collector.ShotRows | Applocker.py:235-243 | the screenshot branch logs one four-column row stamped with the screenshot reading of the clock when a screenshot was requested, and none otherwise; a saved one logs `screenshot` with its path and no note, a failed one `screenshot_failed` with its path and the error |
| Collector.RunLogRows | Applocker.py:224-243 | one run logs two rows, or three with a screenshot |
| Collector.LogScreenshot | Applocker.py:235-243 | the log file becomes the old file with exactly the `ShotRows` appended (`AppendAll`), whose contract gives the row's action, path and note per outcome |
| Collector.PublishCsv | Applocker.py:222-224 | the CSV is written, then logged with its row count |
| Collector.PublishHtml | Applocker.py:226-228 | the HTML is written, then logged |
| Collector.Publish | Applocker.py:222-243 | the reports are CsvTable and HtmlDocument of the reconciled records, and the log gains exactly RunLogRows |
| Collector.Run | Applocker.py:205-243 | if a gathered record has no name, `.strip()` raises before any write: no reports and an unchanged log; otherwise the reports of the reconciled records, and the log grows by RunLogRows |

## Left out

- Registry enumeration is replaced by the values it yields:
  - `winreg` itself is not modelled;
  - `OpenKey` raising FileNotFoundError on a root key is a missing key;
  - an `OSError` on a subkey is a skipped entry;
  - `FileNotFoundError` from `QueryValueEx` is an absent value.
- An `OSError` other than FileNotFoundError when opening a root key propagates out of `main`. That crash is not modelled.
- Registry values are taken as strings:
  - a REG_DWORD `InstallDate` would be passed through `str()`;
  - a numeric 0 would be falsy where its text "0" is not;
  - other value types are not modelled.
- The PowerShell call, `subprocess.run` and `json.loads` are not modelled. Their outcomes are the `StoreQuery` cases:
  - no output, a failure, non-JSON text, or JSON that is neither an object nor a list all give `Unavailable`;
  - a list element that is not an object makes the whole Store result empty.
- JSON values other than strings, including null, are not modelled. A key whose value is null is treated as absent.
- `glob.glob` recursion and `os.path.isdir` are functions in `FileTimes.Host`.
- `os.path.getmtime` is a function in `FileTimes.Host`, with one change:
  - modification times are whole seconds here, where Python uses floats;
  - an exception from it is None.
- `datetime.fromtimestamp(...).isoformat(...)` is a host function of the latest time. It depends on the time zone, and its `OverflowError` on out-of-range times is not modelled.
- `timestamp_now()` and the screenshot file name's clock reading are passed in as `Collector.Clock` and `Collector.Screenshot`.
- File output is not modelled:
  - opening, encoding and writing the report files;
  - the csv module's quoting and escaping (a CSV row is its list of fields);
  - `newline=""` handling.
- `take_screenshot` and pyautogui are not modelled; only the screenshot's outcome is an input.
- `argparse`, the `print` progress messages and the module-level `mkdir` of the evidence folder are not modelled.
- FileTimes.LastModifiedOf: the result is "" exactly when no readable time is positive only for a host whose formatter never gives "" for a positive time (`IsoNonEmpty`), which `isoformat` satisfies; the formatter itself is an input.
- Python `\d` also matches non-ASCII decimal digits; here it matches `0`-`9` only.
- Reports.HtmlRowColumns: values are inserted without escaping, as the source does, so a value holding markup changes the page's structure. The model does not claim that a row can be read back.
- mfa_check.py, evidance_screenshort.py, check_antivirus.py and config.py are not part of this model. They are browser, GUI and shell automation with no logic of their own.
