# haraldscan vendor store, modelled in Dafny

Haraldscan is a Bluetooth device scanner. This project models its persistence
layer. That layer has four parts:

- the reference table `macinfo`, which maps address prefixes (`xx:xx:xx`) to
  vendor names and is loaded from the flat file MACLIST;
- the per-run table `devices` of discovered devices, and its text export;
- the resolver, which maps a full device address to a vendor;
- the updater, which replaces MACLIST by the remote copy when that copy has
  more lines.

The SQLite database is modelled as the class `HaraldSql.Database`. It has one
`seq` field per table, holding the rows in rowid order, and one flag per table
saying whether the table exists. `Valid()` states the two UNIQUE constraints.
The SQL statements become their effect on these fields. The two SQLite errors
the code relies on become results:

- `IntegrityError` is raised by an insert that breaks a UNIQUE constraint;
- `OperationalError` is raised by a statement on a table that does not exist.

The pure parts are modules of functions and lemmas:

- `Text`: Python's `strip()`, `split(',')` and `s[0:8]`;
- `Sqlite`: the `LIKE` operator, with `%`, `_` and ASCII case folding;
- `MacInfo`: the line format, the bulk load, the status dictionary and the
  resolver;
- `Devices`: the device rows and the report format;
- `Scenarios`: a worked example.

`HaraldUpdate.CheckNow` models `check_now`. The local MACLIST is the object
`MacListFile`, and the remote file is passed in as its lines.

Assumption: a `SELECT` without `ORDER BY` returns rows in rowid order, which is
insertion order. SQL does not guarantee this. Both the resolver's "first
matching row" and the export order rest on it.

Behaviours of the code that a reader might not expect, all of which the model
follows:

- Status dictionary. A prefix that is new but appears twice in MACLIST ends up
  `Existed`, because the second line overwrites the first line's `Added`
  (haraldsql.py:115-118). It is not reported as `Added`.
  `Scenarios.LoadSample` proves the code's result.
- Duplicate device. Inserting a device whose address is already stored
  re-raises `IntegrityError` (haraldsql.py:94-95). It is not silently
  ignored.
- Export layout. The export puts no blank line between records. The only
  blank line is the one at the end (haraldsql.py:156-160).
- Line fields. A line is split at every comma. The vendor is the second field
  only, so text after a second comma is dropped (haraldsql.py:112-113). The
  text after the first comma is not kept as a whole.
- Export encoding. The rows come back from SQLite as unicode text. Python 2
  writes them to the file through the default `ascii` codec. A record with a
  character outside ASCII raises UnicodeEncodeError, and the file keeps only
  the records before it (haraldsql.py:156-158).
- Missing table. A `macinfo` or `devices` table that does not exist makes
  `mac_resolve`, `show_dev_table`/`write_dev_table` and the inserts raise
  `OperationalError`. Those functions catch only `IntegrityError`. Resolution
  therefore does not always fall back to `"Unknown"`.
- Case. Uniqueness of `prefix` is exact and case-sensitive (the UNIQUE
  column). Matching in the resolver ignores ASCII case (`LIKE`). So
  `aa:bb:cc` and `AA:BB:CC` can both be stored, and then the resolver returns
  the first of them.

## Model

| member | source | states |
|---|---|---|
| `Text.IsSpace` | haraldsql.py:113 | the whitespace `strip()` removes is exactly the characters with codes 9 to 13 and 32 |
| `Text.StripStart` | haraldsql.py:113 | the result of `lstrip()` does not start with whitespace |
| `Text.StripEnd` | haraldsql.py:113 | the result of `rstrip()` does not end with whitespace |
| `Text.StripStartSuffix` | haraldsql.py:113 | `lstrip()` returns a suffix of its input, and the part it removes is whitespace only |
| `Text.StripEndPrefix` | haraldsql.py:113 | `rstrip()` returns a prefix of its input, and the part it removes is whitespace only |
| `Text.Strip` | haraldsql.py:113 | the result of `strip()` has no whitespace at either end |
| `Text.StripSlice` | haraldsql.py:113 | `strip()` returns a slice `s[i..j]` of its input whose cut-off ends are whitespace only |
| `Text.StripPadded` | haraldsql.py:113 | for a trimmed string padded with whitespace on both sides, `strip()` returns exactly that string |
| `Text.StripIdempotent` | haraldsql.py:113 | stripping twice is the same as stripping once |
| `Text.Split` | haraldsql.py:112 | `split(',')` always gives at least one field |
| `Text.JoinSplit` | haraldsql.py:112 | joining the fields of a split with the separator gives back the line |
| `Text.SplitPiecesFree` | haraldsql.py:112 | no field of a split contains the separator |
| `Text.SplitJoin` | haraldsql.py:112 | splitting a join of separator-free fields gives back those fields |
| `Text.Truncate` | haraldsql.py:171 | `macaddr[0:8]` is the first `min(8, len)` characters of the address |
| `Sqlite.Like` | haraldsql.py:168 | a `LIKE` pattern without `%` only matches texts of its own length: `_` and every other character each match exactly one character |
| `Sqlite.LikeLiteral` | haraldsql.py:168-171 | a `LIKE` pattern without `%` or `_` matches exactly the prefixes equal to it up to ASCII case |
| `MacInfo.InsertRow` | haraldsql.py:80-86 | an insert into macinfo succeeds iff the prefix is not yet in the table; on success the row is appended, otherwise the table is unchanged; the UNIQUE constraint on `prefix` is kept |
| `MacInfo.Load` | haraldsql.py:110-118 | a load never shrinks the table and adds at most one row per line |
| `MacInfo.LoadKeepsRows` | haraldsql.py:110-118 | a load never changes or removes existing rows: they stay the first rows of the table, in place |
| `MacInfo.LoadPrefixes` | haraldsql.py:110-118 | after a load the table holds exactly the old prefixes plus the prefixes of the loaded entries |
| `MacInfo.LoadUnique` | haraldsql.py:50 | the load keeps prefixes unique |
| `MacInfo.LoadExistingWins` | haraldsql.py:82-86 | a prefix already stored keeps its vendor through a load |
| `MacInfo.LoadFirstWins` | haraldsql.py:110-118 | a new prefix gets the vendor of its first entry in the file |
| `MacInfo.StatusOf` | haraldsql.py:108-118 | every loaded line's prefix has an entry in the status dictionary |
| `MacInfo.StatusKeys` | haraldsql.py:108-118 | the keys of the status dictionary are exactly the prefixes of the loaded lines |
| `MacInfo.StatusAdded` | haraldsql.py:115-118 | a prefix's status is `Added` iff it was absent before the load and occurs exactly once in the file; otherwise it is `Existed` |
| `MacInfo.ParseLine` | haraldsql.py:112-113 | both fields of a parsed line are trimmed |
| `MacInfo.ParseLineFails` | haraldsql.py:112-113 | a line fails to parse iff it has no comma (then `x[1]` raises) |
| `MacInfo.ParseLineFields` | haraldsql.py:112-113 | the prefix is field 0 stripped and the vendor is field 1 stripped |
| `MacInfo.ParseLineExtraFields` | haraldsql.py:112-113 | fields after the second are dropped: text after a second comma does not change the parsed entry |
| `MacInfo.ParseTypicalLine` | haraldsql.py:10 | a line of the documented form `11:22:33, Spam` plus a line break parses to its prefix and vendor |
| `MacInfo.Entries` | haraldsql.py:110-113 | when every line parses, the entries are the parsed lines, one per line and in file order |
| `MacInfo.FirstMatch` | haraldsql.py:168-177 | the answer is `"Unknown"` or the vendor of a row whose prefix matches the pattern, never anything else |
| `MacInfo.Resolve` | haraldsql.py:166-177 | the answer is `"Unknown"` or the vendor of a row whose prefix is LIKE the address's first 8 characters |
| `MacInfo.FirstMatchFound` | haraldsql.py:168-173 | the resolver returns the vendor of the first row whose prefix matches the pattern |
| `MacInfo.FirstMatchNone` | haraldsql.py:172-177 | when no row matches, the resolver returns exactly `"Unknown"` |
| `MacInfo.ResolveFirst8` | haraldsql.py:171 | two addresses with the same first 8 characters resolve identically |
| `MacInfo.ResolveKnownPrefix` | haraldsql.py:166-177 | an address whose first 8 characters equal a stored prefix up to ASCII case (and no earlier row's) resolves to that prefix's vendor, whatever the rest of the address |
| `MacInfo.ResolveUnknown` | haraldsql.py:166-177 | an address whose first 8 characters equal no stored prefix resolves to `"Unknown"` |
| `Devices.InsertDevice` | haraldsql.py:91-95 | a device insert appends the row iff the address is new; a duplicate is an IntegrityError that leaves the rows unchanged; uniqueness is kept |
| `Devices.RecordText` | haraldsql.py:157 | a record starts with the `Mac: ` label and ends with a line break |
| `Devices.SplitRecord` | haraldsql.py:157 | a record whose fields have no line break is exactly its four labelled lines |
| `Devices.Records` | haraldsql.py:156-158 | the records are empty exactly when there are no rows, and otherwise end with a line break |
| `Devices.RecordsSnoc` | haraldsql.py:156-158 | writing one more row appends exactly that row's record text |
| `Devices.Report` | haraldsql.py:156-160 | an empty table gives the file `"\n"`; otherwise the file ends with a blank line |
| `Devices.ReadReportRoundTrip` | haraldsql.py:150-161 | for rows whose fields have no line break, reading the export back line by line gives every row in table order, followed by exactly one blank line |
| `Devices.RecordAscii` | haraldsql.py:157-158 | a record can be encoded by the `ascii` codec iff its four fields are ASCII |
| `Devices.EncodableRows` | haraldsql.py:156-158 | counts the leading rows that can be written: all of them are ASCII, and the next row, if any, is not |
| `HaraldSql.Database.CreateBaseTable` | haraldsql.py:46-53 | macinfo exists afterwards, with its rows unchanged |
| `HaraldSql.Database.CreateDevTable` | haraldsql.py:57-66 | devices exists afterwards, with its rows unchanged |
| `HaraldSql.Database.DropDevTable` | haraldsql.py:72-74 | devices is gone afterwards, and macinfo is untouched |
| `HaraldSql.Database.SetupDevTable` | haraldsql.py:126-136 | devices exists and is empty afterwards, whatever it held before; macinfo is untouched |
| `HaraldSql.Database.InsertAddressObject` | haraldsql.py:78-86 | returns True and appends for a new prefix; returns False and leaves the table unchanged for a taken one; raises OperationalError without the table |
| `HaraldSql.Database.InsertDevTable` | haraldsql.py:89-95 | appends a new address; a duplicate address is an IntegrityError and a missing table an OperationalError, with nothing changed in either case |
| `HaraldSql.Database.RefreshMaclist` | haraldsql.py:99-122 | the table afterwards is the old table with each line inserted in turn; the result is the status dictionary, or the index of the first line without a comma with the earlier lines inserted |
| `HaraldSql.Database.ShowDevTable` | haraldsql.py:139-145 | returns the device rows in table order; raises OperationalError without the table |
| `HaraldSql.Database.WriteDevTable` | haraldsql.py:150-161 | when every row can be encoded, the file is the records of every row in table order with no separator, then one `"\n"`; otherwise it fails with UnicodeEncodeError and the file holds the records of the rows before the first row that cannot be encoded; when the query fails the file is left empty |
| `HaraldSql.Database.MacResolve` | haraldsql.py:166-177 | returns the vendor of the first macinfo row whose prefix is LIKE the address's first 8 characters, or `"Unknown"`; raises OperationalError without the table |
| `HaraldUpdate.CountLines` | haraldupdate.py:36-39 | the counter ends equal to the number of lines (`llines`, and `rlines` at lines 46-47) |
| `HaraldUpdate.CheckNow` | haraldupdate.py:31-57 | returns True iff the remote file has strictly more lines; only then is the local list replaced by the remote one, and otherwise it is unchanged |
| `HaraldUpdate.CheckTwice` | haraldupdate.py:51-57 | a second check against the same remote file returns False |
| `Scenarios.LoadSampleFirst` | haraldsql.py:113-116 | the first line, into an empty table, is inserted and marked `Added` |
| `Scenarios.LoadSampleSecond` | haraldsql.py:113-118 | a second line with the same prefix is rejected, leaves the table as it was and marks the prefix `Existed` |
| `Scenarios.LoadSample` | haraldsql.py:108-118 | loading Acme, Other and Widget (two entries share AA:BB:CC) into an empty table keeps 2 rows with AA:BB:CC mapped to Acme; the statuses are AA:BB:CC Existed and 11:22:33 Added |
| `Scenarios.ResolveSampleKnown` | haraldsql.py:166-177 | on that table `AA:BB:CC:DD:EE:FF` resolves to Acme |
| `Scenarios.ResolveSampleUnknown` | haraldsql.py:166-177 | on that table `FF:FF:FF:00:00:00` resolves to `"Unknown"` |

## Left out

- Connection plumbing (`open_database`, `get_cursor`, `close_database`) is not modelled. Commits and transaction durability are not modelled either. The model shows the table as the open connection sees it. After a failed load the rows inserted before the bad line are in that view, uncommitted.
- Failures of the storage engine (a locked or unwritable database, a full disk) are not modelled. Creating and dropping tables cannot fail here.
- The SQL text of `CREATE` and `DROP` is not modelled; only its effect on the tables is.
- File access is not modelled: opening and reading MACLIST, and opening and writing the export file. The loader takes the file's lines as Python's line loop yields them, each with its line break. `CheckNow` takes the remote file's lines. `WriteDevTable` returns the text the file ends up holding. An export file that cannot be opened is not modelled.
- Characters are modelled as Unicode code points. The export assumes Python 2's default `ascii` codec, that is, that no code calls `sys.setdefaultencoding`. After a UnicodeEncodeError the file object is not closed; the model gives only the text written so far.
- The `unicode(..., "utf-8")` decoding in `MacAddress` is not modelled. Strings pass through unchanged, and bytes that are not valid UTF-8 are not modelled.
- Network access is not modelled: `urllib.urlopen`, the download by `urlretrieve`, `reporthook`, the `print` output and network errors.
- `haraldusage.usage()` and the `__main__` blocks are not modelled. `haraldusage` is not part of this model.
- The `except sqlite.IntegrityError` branches of `show_dev_table` (returning 0) and `mac_resolve` (falling through to `"Unknown"`) are left out. A `SELECT` never raises that error, so these branches cannot run.
- `HaraldSql.Database.RefreshMaclist`: when a line has no comma the original raises IndexError. The model returns the line's index instead, and the status dictionary built so far is discarded, as it is when the exception propagates.
