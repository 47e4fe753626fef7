# Canvas CSV to SQL loader, modelled in Dafny

The system is a one-shot ETL script (`canvas_to_sql.py`). It asks a Canvas course for its
folders and picks the one named "data". It lists that folder's files and keeps the `.csv`
attachments. It reads the SQL Server connection setting and builds an ODBC connection
string. Then, for each CSV file, it derives a table name, downloads the file, and replaces
that table in the database. A failing file is counted and the loop goes on. Failing to reach
the folders, to find the data folder, to list its files, or to read the connection setting
ends the run with exit status 1. Finding no CSV file ends it with status 0.

The model keeps the script's deterministic logic and turns its I/O into inputs:

- `Text`: the Python string operations the script relies on, over `seq<char>`. `in` is a
  substring test. `endswith` is a suffix test. `replace` is one left-to-right pass over
  non-overlapping occurrences. `split` on one character keeps the empty pieces. `lower` covers
  ASCII letters.
- `Folders`: the data-folder search. The loop (`FindDataFolder`) is proved equal to a
  first-match function (`FirstDataFolder`).
- `Files`: the CSV filter comprehension (`CsvFiles`).
- `Connection`: splitting the setting on `;`, the four `next(...)` extractions (`Extract`,
  `Parse`) and the ODBC template (`OdbcConnectionString`).
- `TableNames`: the table-name chain `replace('.csv','')`, `replace('-','_')`,
  `replace(' ','_')`, `lower()`, then a cut to 50 characters.
- `Loader`: the per-file loop (`LoadAll`). It counts successes and failures and attempts
  every file.
- `Pipeline`: the script from top to bottom (`Run`). It returns how the run ends and the
  API requests it sent, in order.
- `Requests`, `Wrappers`: the request record and the Option/Result types.

Behaviour the model follows as the code writes it:

- `.replace('.csv', '')` removes every `.csv`, not only the extension: "a.csv.b.csv" becomes
  "a.b". Because it is a single pass, a name can still hold `.csv` afterwards: "..csvcsv"
  becomes ".csv". An upper-case ".CSV" is kept by the removal and then lower-cased, so
  "Q.CSV.csv" maps to table "q.csv".
- A field value is `p.split('=')[1]`. That is the text between the first and the second `=`
  of the part, so a password such as "ab=c" is read as "ab".
- A part is chosen by substring search. The first part that contains `Server=` (or
  `Initial Catalog=` or `Database=`, or `User ID=`, or `Password=`) wins, wherever the key
  stands in it.
- Different file names can map to one table ("a-b.csv", "a b.csv", "A_B.csv"). The later
  file then replaces the earlier one's table.

## Model

| member | source | states |
|---|---|---|
| `Text.ContainsIff` | canvas_to_sql.py:82-85 | `key in p` holds exactly when `key` occurs at some position of `p` |
| `Text.Contains` | canvas_to_sql.py:82-85 | `key in p`: a string can only contain a pattern no longer than itself |
| `Text.EndsWith` | canvas_to_sql.py:63 | `endswith` holds exactly when the string is some text followed by the suffix |
| `Text.ReplaceAll` | canvas_to_sql.py:117 | `replace`: a replacement no longer than the pattern never lengthens the string, and one of equal length keeps its length |
| `Text.ReplaceAbsent` | canvas_to_sql.py:117 | `replace` leaves a string unchanged when the pattern does not occur in it |
| `Text.ReplaceCharAt` | canvas_to_sql.py:117 | replacing one character by another keeps the length and changes exactly the positions holding that character |
| `Text.ReplaceAcross` | canvas_to_sql.py:117 | for a pattern whose first character occurs only at its start (such as `.csv`), an occurrence anywhere in the string is replaced, and the text on each side of it is rewritten on its own |
| `Text.Lower` | canvas_to_sql.py:117 | lower-casing keeps every character in place, lowers each ASCII capital, and leaves no ASCII capital |
| `Text.Split` | canvas_to_sql.py:81 | `split` gives at least one piece, no piece holds the separator, there is exactly one piece iff the string has no separator, and the first piece is the text before the first separator |
| `Text.JoinSplit` | canvas_to_sql.py:81 | putting the separator back between the pieces of a split gives back the original string |
| `Text.SplitJoin` | canvas_to_sql.py:81 | splitting pieces joined by a separator they do not contain gives back those pieces |
| `Text.SplitFirst` | canvas_to_sql.py:82-85 | the first separator ends the first piece, and the text after it is split on its own |
| `Text.IndexOf` | canvas_to_sql.py:82-85 | the position of the first `=` of a part: it holds `=` and no earlier position does |
| `Folders.FirstDataFolder` | canvas_to_sql.py:40-49 | there is no result iff no folder's lower-cased name is "data"; otherwise the result is the first such folder of the listing |
| `Folders.FindDataFolder` | canvas_to_sql.py:40-44 | the search loop with its `break` returns exactly that first data folder, or none |
| `Folders.FolderNames` | canvas_to_sql.py:48 | the diagnostic lists the name of every folder, in listing order |
| `Folders.DataFolderNames` | canvas_to_sql.py:42 | "Data" and "DATA" match, while "data2" and "Raw Data" do not |
| `Folders.IsDataFolder` | canvas_to_sql.py:42 | the test `name.lower() == 'data'`: a matching name has four characters, and "data" itself matches |
| `Files.CsvFiles` | canvas_to_sql.py:63 | a file is kept iff it was listed and its name ends with `.csv`; the result is no longer than the listing |
| `Files.IsCsv` | canvas_to_sql.py:63 | the test `filename.endswith('.csv')`: it holds exactly when the name is some stem followed by `.csv` |
| `Files.CsvFilesConcat` | canvas_to_sql.py:63 | filtering a concatenation filters each part and keeps their order |
| `Files.CsvFilesKeepsAll` | canvas_to_sql.py:63 | the filter returns the listing unchanged iff every listed name ends with `.csv` |
| `Files.UpperCaseExtensionDropped` | canvas_to_sql.py:63 | a file named "report.CSV" is dropped |
| `Connection.Mentions` | canvas_to_sql.py:82-85 | a part that names a field holds an `=`, so `split('=')[1]` exists for it |
| `Connection.Keys` | canvas_to_sql.py:82-85 | the key literals each field is searched by: at least one per field, each non-empty and ending in `=` |
| `Connection.FieldValue` | canvas_to_sql.py:82-85 | `p.split('=')[1]` is the longest `=`-free start of the text after the first `=` of the part: it holds no `=`, and it ends where that text ends or at its next `=` |
| `Connection.FieldValueWithin` | canvas_to_sql.py:82-85 | every character of a field value comes from its part |
| `Connection.FieldValueOfSetting` | canvas_to_sql.py:82-85 | a part `KEY=value` whose key and value hold no other `=` gives back `value` |
| `Connection.FieldValueCut` | canvas_to_sql.py:82-85 | an `=` after the value ends it, and the text after that `=` is lost |
| `Connection.ValueCutAtSecondEquals` | canvas_to_sql.py:85 | "Password=ab=c" yields the password "ab" |
| `Connection.Extract` | canvas_to_sql.py:82-85 | an extracted value holds no `=`, and holds no `;` when the parts come from a split on `;` |
| `Connection.ExtractFirstMatch` | canvas_to_sql.py:82-85 | extraction fails iff no part names the field; otherwise it gives the value of the first part that does (for the database, the first part holding `Initial Catalog=` or `Database=`) |
| `Connection.Parse` | canvas_to_sql.py:81-85 | an absent setting fails, and every field of a successful parse is free of `;` and `=` |
| `Connection.ParseParts` | canvas_to_sql.py:82-85 | the four `next(...)` extractions over a list of parts: a failure always names a missing field, and a success over `;`-free parts has fields free of `;` and `=` |
| `Connection.PartsSpec` | canvas_to_sql.py:82-85 | for any list of parts, the extractions succeed iff every field is named by some part; the result then holds the four extracted values; otherwise the failure names the first field, in the order Server, Database, User ID, Password, that no part names |
| `Connection.ParseSpec` | canvas_to_sql.py:81-104 | a present setting parses iff every field is named by some part; the result then holds the four extracted values; otherwise the failure names the first field, in the order Server, Database, User ID, Password, that no part names |
| `Connection.MissingPassword` | canvas_to_sql.py:85 | a setting with no part holding `Password=` fails on the password, even when the other fields are present |
| `Connection.OdbcSettings` | canvas_to_sql.py:87-96 | the template has eight settings: the DRIVER setting first, then SERVER, DATABASE, UID and PWD at positions 1 to 4, each its key followed by the value it was built from, then `Encrypt=yes`, `TrustServerCertificate=no` and `Connection Timeout=30` |
| `Connection.OdbcConnectionString` | canvas_to_sql.py:87-96 | with delimiter-free values, splitting the assembled string on `;` gives back the eight settings and a final empty piece |
| `Connection.SplitTerminated` | canvas_to_sql.py:87-96 | a string of settings, each followed by `;`, splits back into those settings and a final empty piece |
| `Connection.OdbcSettingsClean` | canvas_to_sql.py:87-96 | with delimiter-free values, no setting of the ODBC template holds a `;` |
| `Connection.OdbcValues` | canvas_to_sql.py:87-96 | the SERVER, DATABASE, UID and PWD settings of the template each hold an `=`, and with `=`-free values each gives back the value it was built from |
| `Connection.OdbcRoundTrip` | canvas_to_sql.py:81-96 | the assembled ODBC string splits into exactly the eight template settings (DRIVER, SERVER, DATABASE, UID, PWD, Encrypt=yes, TrustServerCertificate=no, Connection Timeout=30), and its SERVER, DATABASE, UID and PWD settings give back the extracted values |
| `TableNames.TableName` | canvas_to_sql.py:117-121 | a table name has at most 50 characters and is a prefix of the normalized name; a normalized name of up to 50 characters is kept whole, and a longer one is cut to exactly 50 |
| `TableNames.StripCsv` | canvas_to_sql.py:117 | `.replace('.csv', '')` never lengthens the name, and keeps a name without `.csv` as it is |
| `TableNames.Normalized` | canvas_to_sql.py:117 | the whole replace-and-lower chain never lengthens the name, and leaves no `-`, no space and no ASCII capital |
| `TableNames.CleanChar` | canvas_to_sql.py:117 | a character that survives normalization is never `-`, a space or an ASCII capital |
| `TableNames.NormalizedIsCleaned` | canvas_to_sql.py:117 | after the `.csv` removal, normalization maps the name character by character |
| `TableNames.TableNameCharacters` | canvas_to_sql.py:117-121 | a table name holds no `-`, no space and no ASCII capital |
| `TableNames.NormalizedAcrossCsv` | canvas_to_sql.py:117 | every `.csv`, wherever it stands, is dropped: the text on both sides is normalized on its own and joined |
| `TableNames.TableNameOfStem` | canvas_to_sql.py:117-121 | a name `stem + ".csv"`, with no `.` in the stem and at most 50 characters, is loaded into the cleaned stem |
| `TableNames.Example` | canvas_to_sql.py:117-121 | "My Report-2024.csv" is loaded into table "my_report_2024" |
| `TableNames.SinglePass` | canvas_to_sql.py:117 | the removal is a single pass: "..csvcsv" becomes ".csv" |
| `TableNames.NamesCollide` | canvas_to_sql.py:117-121 | "a-b.csv", "a b.csv" and "A_B.csv" all load into table "a_b" |
| `Loader.CountsConserve` | canvas_to_sql.py:108-143 | every file is counted exactly once, as loaded or as failed |
| `Loader.Attempt` | canvas_to_sql.py:111-143 | one file's report carries its name, its outcome and the table `TableName` derives from its name, which has at most 50 characters and no `-` and no space |
| `Loader.Loaded` | canvas_to_sql.py:139 | the success count is at most the number of files, and is 0 exactly when no file loads |
| `Loader.Failed` | canvas_to_sql.py:143 | the failure count is at most the number of files, and is 0 exactly when every file loads |
| `Loader.Reports` | canvas_to_sql.py:111-123 | one report per CSV file, in listing order: the report at position i is the attempt of file i |
| `Loader.Downloads` | canvas_to_sql.py:126 | one download request per CSV file, in listing order: the request at position i fetches file i's URL |
| `Loader.CountsConcat` | canvas_to_sql.py:108-143 | the success and failure counts of a concatenation are the sums of the counts of its parts |
| `Loader.AllLoad` | canvas_to_sql.py:108-143 | when every file loads, all of them are counted as successes and none as a failure |
| `Loader.OneFailure` | canvas_to_sql.py:108-143 | one failing file among N gives N - 1 successes and 1 failure |
| `Loader.LoadAll` | canvas_to_sql.py:108-143 | the loop counts exactly the files that load and exactly those that fail, which adds up to the number of CSV files; it reports every file with its table and outcome, in order; it downloads every file's URL in order, so a failure never stops a later file |
| `Pipeline.ExitCode` | canvas_to_sql.py:35-104 | the exit status is 1 exactly for a fatal error; failed files leave it 0 |
| `Pipeline.ConnectAndLoad` | canvas_to_sql.py:77-143 | a connection failure aborts with that error before any download; otherwise the run completes with the assembled ODBC string, counts the loaded and failed files (adding up to the number of CSV files), reports every file in order and downloads each one in order |
| `Pipeline.LoadDataFolder` | canvas_to_sql.py:53-143 | the data folder's files are asked for first; no listing aborts with nothing else sent; no CSV file stops with the notice; a connection failure aborts; in those three cases nothing is sent after the listing; otherwise the run completes as `ConnectAndLoad` states and every CSV file is downloaded in order after the listing |
| `Pipeline.Run` | canvas_to_sql.py:26-143 | the run asks for the folders first; with no folder listing, or no data folder, it aborts before any file listing; it lists the first data folder's files; with no listing it aborts; with no CSV file it stops with the notice; with a connection failure it aborts before any download; otherwise it downloads every CSV file in order, and its counts add up to the number of CSV files; no abort ever follows a download |

## Left out

- HTTP requests, `raise_for_status` and `.json()` are not modelled. Their results are inputs:
  a folder listing or a failure, and a file listing per folder id or a failure. The requests
  themselves are recorded as a list.
- The token, base URL and course id only form URLs and headers, so they are not modelled.
  The connection setting is an input that may be absent.
- Console output, including the summary lines and the `end=' '` progress text, is not
  modelled.
- The CSV download, `pandas.read_csv`, the NaN to None conversion and `to_sql(...,
  if_exists='replace')` are foreign library calls. Their combined outcome per file is the
  input `loads`. Table contents and database state are not modelled, so nothing is said about
  NULL cells or about running the script twice.
- `urllib.parse.quote_plus` and `create_engine` are library calls, so they are not modelled.
  Building the engine is taken to succeed, and the run's result carries the assembled ODBC
  string instead.
- `exit` is not process control here: it becomes the `Outcome` of `Run`.
- Records always have the keys the script reads (`id`, `name`, `filename`, `url`). The
  `KeyError` a malformed record would raise, and the printing loop of canvas_to_sql.py:32-33, are not
  modelled.
- TableNames.TableName: lower-cases ASCII letters only. Python's `str.lower` also lowers other
  letters, so a name with non-ASCII capitals keeps them in the model. For the comparison with
  "data" in `Folders.IsDataFolder` this makes no difference, since no character outside ASCII
  lower-cases to `d`, `a` or `t`.
- Loader.LoadAll: a file's outcome is a function of its record. Two identical records in one
  listing therefore get the same outcome.
- Text.ReplaceAll: requires a non-empty pattern. Python's `replace` with an empty pattern
  inserts the replacement between characters, but the script never does that.
