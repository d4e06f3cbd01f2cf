# GLAD: Geodata Lookup and Automated Deployment, modelled in Dafny

GLAD is a Python 2 script. It copies the open GIS datasets of the New York City Department of City Planning into a SQL Server reference database. The run goes like this:

- It reads a metadata table of datasets.
- It scrapes the download page and its sub-pages for zip links.
- For each dataset that is due for a refresh, it picks a download link and downloads and unzips the archive.
- It finds the shapefile or file geodatabase inside.
- It maps the Esri field types to SQL column types.
- It drops and re-creates the target table, then inserts every row as a literal `INSERT` statement.

This project models the decision-making of that script. Every input from the outside world is a parameter: pages, directory listings, feature-class fields, rows and clock readings. The model covers:

- `variable_transform`, the Esri-to-SQL type mapping, as written (module `FieldTypes`);
- the `DROP`, `CREATE TABLE` and `INSERT` statements that `shp_file_upload` builds, including its hand-made string quoting (module `Statements`);
- the extraction folder `zip_downloader` derives from a link (module `Download`);
- the shapefile and geodatabase locators over an `os.walk` listing, the link gathering of `zip_urls`, and the main loop's refresh check and link choice (module `Locate`).

Two modules support them:

- `Text` holds Python's string operations: `in`, `strip(chars)` as a character-set strip, `split('/')[-1]`, `join`, and the ordering `sorted` uses.
- `Dict` holds a Python `dict` as an association list with distinct keys, and `sorted(d.items())`.

The modelled loops are methods with loop invariants. Each method is proved equal to a specification function, and the properties the script relies on are proved about those functions as lemmas.

## Model

| member | source | states |
|---|---|---|
| FieldTypes.VariableTransform | GLAD.py:70-96 | The if/elif loop, with its early exit on KeyError, computes exactly the fold `Transform` over the fields, error case included |
| FieldTypes.TransformDeclares | GLAD.py:73-93 | When the call succeeds, the dict holds each name at most once. Its type is that of the last field of that name whose tag is one of the nine mapped tags; later fields overwrite earlier ones |
| FieldTypes.TransformFailsIff | GLAD.py:75-96 | The call raises KeyError if and only if some `Date` field's name has no type from an earlier field. The error names the first such field, where the loop stops |
| FieldTypes.StepFails | GLAD.py:94-95 | One pass of the loop raises KeyError exactly on a `Date` field whose name is not yet a key, and the error names that field |
| FieldTypes.DateFieldKeepsDict | GLAD.py:94-95 | A `Date` field never changes the dict: it either raises KeyError (name not yet present) or leaves the dict exactly as it was |
| FieldTypes.TransformErrorSticks | GLAD.py:75-96 | Once a prefix of the fields raises, the whole call raises that same error |
| FieldTypes.TransformWithoutDates | GLAD.py:75-93 | Without `Date` fields the call succeeds and agrees with the intended mapping |
| FieldTypes.TransformIntendedDeclares | GLAD.py:94-95 | The corrected mapping never fails. For every name it holds the type of the last mapped field of that name, with `Date` mapped to `DATE` |
| FieldTypes.DateDefect | GLAD.py:95 | A lone `Date` field raises KeyError. A `Date` after a `String` of the same name keeps `VARCHAR(255)`. The intended mapping gives `DATE` in both cases |
| Dict.Put | GLAD.py:77 | `d[k] = v`: afterwards `k` maps to `v`, every other key keeps its value, and the key set gains `k` |
| Dict.PutDistinct | GLAD.py:77 | Assigning a key never creates a second entry for any key |
| Dict.SortByKeyCorrect | GLAD.py:160 | `sorted(d.items())` is a permutation of the dict's pairs, in strictly ascending key order, with the same keys |
| Dict.SortedKeysUnique | GLAD.py:160 | Two key-sorted lists with the same key set list their keys identically |
| Text.StripSlice | GLAD.py:40 | `strip(chars)` returns a contiguous slice of its input that neither starts nor ends with a character of `chars`. Everything cut off lies in `chars`. Stripping again changes nothing |
| Text.AfterLastSlash | GLAD.py:35 | `split('/')[-1]` is a suffix of the link with no `/`, preceded by a `/` when it is not the whole link |
| Text.LastComponentUnique | GLAD.py:35 | `split('/')[-1]` is the only suffix with no `/` that is either the whole text or preceded by a `/` |
| Text.JoinAppend | GLAD.py:166 | `', '.join` of two non-empty runs is the join of the first run, one separator, then the join of the second |
| Text.JoinSnoc | GLAD.py:203 | Joining one more value appends the separator and that value to the join of the others |
| Text.ContainsIff | GLAD.py:55 | Python's substring test `sub in s` holds exactly when `sub` occurs at some position of `s` |
| Download.FolderPathShape | GLAD.py:35-40 | The folder is the download folder, one segment and a final `/`. The segment uses only characters of the file name, has no `/`, neither starts nor ends with `.`, `z`, `i` or `p`, and `strip('.zip')` leaves it unchanged |
| Download.FolderStemNotIdempotent | GLAD.py:40 | Applying the two strips again can shorten the stem further: `a1.zip` gives `a1`, then `a` |
| Download.FolderStemEatsStem | GLAD.py:40 | `parks_shp.zip` gives the folder stem `arks_sh`, where the intended trimming gives `parks_shp` |
| Download.FileNameAfterSlash | GLAD.py:35 | The file name of `<dir>/<name>` is `name` whenever `name` holds no `/` |
| Download.FolderPathIntendedRoundTrip | GLAD.py:40 | With suffix removal instead of character stripping, `<dir>/<stem>.zip` extracts into `<download folder><stem>/` for every stem |
| Download.FolderPathIntendedRoundTripQuery | GLAD.py:40 | The same holds for `<dir>/<stem>.zip?r=1` |
| Statements.DropTableNamesTable | GLAD.py:154 | The DROP statement starts with the existence test on `dbo.<name>` and ends with `DROP TABLE <name>`. Different names give different statements |
| Statements.BuildCreateTable | GLAD.py:159-168 | The loop over the sorted dict builds exactly `CREATE TABLE dbo.<name> (<column definitions joined by ", ">)` |
| Statements.CreateTableColumns | GLAD.py:159-168 | After a successful type mapping, the columns are in ascending name order. Each column has its name's declared type, and every declared name gets a column |
| Statements.AsciiOnly | GLAD.py:201 | `encode('ascii', 'ignore')` yields only characters of the input below 128, keeps every such character, and is never longer than the input |
| Statements.AsciiOnlyAppend | GLAD.py:201 | The encoding works character by character: the result for `a + b` is the result for `a` followed by the result for `b`, so the ASCII characters are kept in order, each once |
| Statements.AsciiOnlyKeepsAscii | GLAD.py:201 | Pure-ASCII text passes through the encoding unchanged |
| Statements.UnquoteDoubleQuotes | GLAD.py:201 | Reading back the doubled quotes of `replace("'", "''")` gives the original text |
| Statements.QuoteLiteralRoundTrip | GLAD.py:200-201 | A quoted value opens and closes with `'`, and its body reads back as exactly the value's ASCII characters |
| Statements.BuildInsertRow | GLAD.py:189-206 | The `values` and `values2` loops build exactly the INSERT of the row. Values are in ascending field-name order; text values are quoted and other values are rendered as given |
| Statements.ValuesOfSpec | GLAD.py:196-197 | `values` holds one value per sorted pair, each pair's own value at the pair's position |
| Statements.RenderAllSpec | GLAD.py:199-202 | `values2` holds one rendering per value, position by position: text values quoted, other values as given |
| Statements.RowDictKeys | GLAD.py:182-185 | The row dict has distinct keys, and they are exactly the field names |
| Statements.RowDictLastValue | GLAD.py:183-185 | A repeated field name keeps the value of its last position |
| Statements.BuildRowDict | GLAD.py:181-186 | The loop over `range(len(row))` builds exactly the row dict |
| FieldTypes.TransformAllMapped | GLAD.py:75-93 | When every tag is one of the nine mapped tags, the call succeeds |
| Statements.MappedKeysAreFieldNames | GLAD.py:141-151 | When every tag is mapped, the type dict's keys are exactly the field names |
| Statements.ValuesLineUpWithColumns | GLAD.py:151-206 | When every tag is mapped, the INSERT's values come in exactly the order of the CREATE TABLE columns |
| Statements.UnmappedFieldHasNoColumn | GLAD.py:159-206 | For the fields `[("id", "OID"), ("photo", "Blob")]`, the CREATE TABLE has one column and the INSERT two values: the unmapped `Blob` field gets a value but no column |
| Locate.PathJoinSpec | GLAD.py:52 | `os.path.join(a, b)` ends with the whole of `b`. An absolute `b` discards `a`. Otherwise `a` stays in front, and `b` follows it directly when `a` is empty or ends in `/`, or after exactly one added `/` when it does not. The joined path has `b`'s last component |
| Locate.PathJoinDetermined | GLAD.py:52 | Any text meeting the facts of `PathJoinSpec` is the join itself, so those facts determine `os.path.join(a, b)` |
| Locate.ListFiles | GLAD.py:48-52 | The nested walk loop lists every file, joined onto `top` and its directory, in walk order |
| Locate.ShpFileLocator | GLAD.py:46-58 | The locator returns what `LastShp` specifies for the walked files. `None` stands for the UnboundLocalError raised when nothing matches |
| Locate.LastShpNone | GLAD.py:54-58 | No shapefile is found exactly when no walked file both ends in `.shp` and contains the name |
| Locate.LastShpSome | GLAD.py:54-56 | A found shapefile is the last walked file that ends in `.shp` and contains the name |
| Locate.GdbFileLocator | GLAD.py:60-68 | The loop builds, without duplicates, the `.gdb` directory of each walked file in walk order |
| Locate.GdbFileLocatorFinds | GLAD.py:62-68 | The result has no duplicates. A path is in it exactly when it is the joined path of a walked directory whose `dirpath` contains `.gdb` and which holds a file |
| Locate.AppendNewSpec | GLAD.py:66-67 | Appending only unseen items keeps the start list, creates no duplicate, adds exactly the new items, and adds them in first-seen order |
| Locate.CollectReferPages | GLAD.py:109-114 | The first loop builds exactly `ReferPages` of the landing-page hrefs |
| Locate.CollectZipLinks | GLAD.py:116-119 | The zip-link loop over a page's hrefs builds exactly `ZipLinks` of those hrefs |
| Locate.ZipUrls | GLAD.py:98-130 | The three loops return the landing page's zip links followed by each refer page's zip links, page by page |
| Locate.ReferPagesSpec | GLAD.py:109-114 | The refer pages start with the two fixed pages and have no duplicates. The rest are exactly the landing-page hrefs that contain `open-data/dwn` and no `#`, in first-seen order |
| Locate.ZipLinksAppend | GLAD.py:116-129 | Collecting zip links over two lists of hrefs gives the first list's links followed by the second's |
| Locate.ZipLinksMembers | GLAD.py:116-119 | A zip link is the base URL followed by an href containing `/download/zip`, and every such href gives one |
| Locate.ChooseDownloadLink | GLAD.py:268-271 | The link loop returns `LastLink` of the zip list for the dataset's prefix |
| Locate.LastLinkSpec | GLAD.py:268-271 | The link is `''` when no zip URL contains the prefix. Otherwise it is the URL at the last position that contains the prefix |
| Locate.PlanDownloads | GLAD.py:256-271 | The main loop's date check and link choice produce exactly `Jobs` of the metadata rows |
| Locate.JobsSpec | GLAD.py:261-271 | A row gets a job exactly when the time since its update is not less than its frequency. Each job carries its own row's link, and there are no more jobs than rows |
| Locate.JobsAppend | GLAD.py:256-271 | Each row is decided on its own: the jobs of two runs of rows are the first run's jobs followed by the second's, so table order is kept |

## Left out

- Network access (`requests.get`), HTML parsing (`BeautifulSoup.find_all`), zip extraction, `os.walk`, `os.makedirs`, `arcpy` (fields, cursors, workspaces) and `pyodbc` are left out. Their results are parameters: hrefs, a `fetch` function from URL to hrefs, walk entries, fields and rows.
- The execution and commit of each SQL statement is left out; only the statement text is modelled.
- Reading `settings.ini`, the proxy dictionary and `sys.exit` on a missing settings file are configuration I/O and are left out.
- The `.gdb` branch of the main loop (lines 284-289) is left out. It lists feature classes through `arcpy`, which cannot be modelled.
- The metadata `UPDATE` statements (lines 294-305) and the XML read are left out. Line 294 passes the builtin `format` to `strftime`, because the assignment on line 259 is commented out. `metadata.id` is also not among the selected columns.
- Locate.PathJoin follows POSIX `os.path.join`. The Windows rules (`ntpath`: drive letters, backslashes) are not modelled.
- Locate.PlanDownloads: `Jobs` is the decision that the date check and the link choice make for each row, assuming every iteration runs to its end. As written, the script raises inside the first due row and never reaches a second one. Line 294 passes the builtin `format` to `strftime`. Before that, an empty link (no zip URL contains the prefix) makes `requests.get('')` raise on line 38, called from line 276. A `Date` field not yet in the type dict raises KeyError on line 95, reached through line 151.
- Locate.PlanDownloads: times are whole numbers of one unit. The model does not capture the Python 2 comparison between a `timedelta` and whatever type the `update_frequency` column has.
- Locate.PlanDownloads: the metadata query also selects `active`, but the script never reads it. So inactive rows are refreshed like any other, and the model keeps that behaviour.
- Statements.DropTable: the template on line 154 is a Python 2 byte string. `str.format` with a `unicode` table name that holds a non-ASCII character raises UnicodeEncodeError. The model concatenates any text and does not capture that error.
- Statements.CreateTable: the same holds for the byte-string templates on lines 163, 165 and 168. A `unicode` field name or table name with a non-ASCII character raises UnicodeEncodeError there. The model covers `Statements.ColumnDef` the same way.
- Statements.InsertRow: the template on line 206 raises UnicodeEncodeError the same way for a non-ASCII `unicode` table name. The model does not capture that error.
- Statements.Value: non-text values appear as the text `str()` gives them. That rendering (numbers, `None`, dates, geometry WKT) is not modelled.
- Statements.AsciiOnly: text values are modelled as `unicode`. A Python 2 byte `str` with non-ASCII bytes makes `encode('ascii', 'ignore')` raise, and that case is not modelled.
- Statements.RowDict: the `SHAPE@WKT` renaming (lines 144-149) only changes what the cursor returns, not the dict keys (these come from `fields_list`), so it needs no separate model.
- The printing in `zip_downloader` and `shp_file_locator` is left out.

## Findings

| source | as written | input that shows it | evidently intended | confidence | as-written member | corrected member |
|---|---|---|---|---|---|---|
| GLAD.py:95 | `vartype[point[0]] == 'DATE'` compares instead of assigning: a `Date` field never gets a column and raises KeyError when its name is not yet in the dict | fields `[("created", "Date")]` | `vartype[point[0]] = 'DATE'` | not executed | FieldTypes.DateDefect | FieldTypes.TransformIntendedDeclares |
| GLAD.py:40 | `strip('?r=1').strip('.zip')` removes any of the characters `?`, `r`, `=`, `1`, `.`, `z`, `i`, `p` from both ends, not the suffixes | link `.../parks_shp.zip` gives folder `arks_sh/` | remove a trailing `?r=1`, then a trailing `.zip` | not executed | Download.FolderStemEatsStem | Download.FolderPathIntendedRoundTrip |
