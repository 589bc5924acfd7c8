# KGR Toolbox tabs, modelled in Dafny

The KGR Toolbox is a QGIS plugin that gives a team a set of tabs for
their PostgreSQL/PostGIS projects. This project models the logic of six of
those tabs and proves what that logic promises:

- **Clean QGS** (`CleanQgs`) removes `user=` and `password=` credentials from
  the `<datasource>` bodies of a `.qgs`/`.qgz` project. It previews the
  before/after pairs, then writes a `_cleaned` copy next to the original.
- **Archive Project** (`ArchiveProject`, `ArchiveSources`) makes a portable
  copy of a project:
  - exports vector layers into `data.gpkg`;
  - points every element of the project XML at the new sources;
  - strips credentials;
  - turns CSV sources inside the archive into relative paths;
  - shrinks large images;
  - reports the absolute paths that remain, grouped by kind.
- **Databases** (`Databases`) lists databases with their comments, creates
  one from a template, and deletes the selected one behind a dialog that
  asks for its name.
- **Truncate Tables** (`Truncate`) lists the tables of one schema. It can
  spare `qgis_projects`, and it empties the rest through whichever call the
  database manager offers.
- **QGIS Projects** (`QgisProjects`) finds the projects stored in a database
  and asks the manager to repoint their layers with new connection
  parameters.
- **Base tab** (`BaseTab`) holds the guards all tabs share: that a connection
  exists, the privilege check, non-empty fields and combo-box selections.

Two shared modules support them:

- `Text` holds Python's string operations as explicit scanners:
  `str.isspace`, `strip`, `find`, `in`, `split(sep, 1)`, `replace`, ASCII
  `lower` and the `\s+` collapse.
- `Paths` holds `os.path.basename` and `os.path.splitext`, for both Posix
  and Windows hosts.

How the model is built:

- Regular expressions of the source are written out as scanner functions
  that follow `re.sub`/`re.findall` semantics: leftmost, non-overlapping,
  greedy or lazy as the pattern says. A lemma ties each scanner to the
  pattern it stands for.
- The Databases, Truncate Tables and QGIS Projects tabs keep widget state
  between handlers. Each of them is a `class` whose fields are that state:
  combo-box texts and items, table rows, buttons, status lines and line
  edits. Their handlers are methods proved against specification functions.
- The Clean QGS and Archive Project tabs keep no state that the model
  needs. Their work is functions over a `Disk` map and over the document
  text, with each loop of the source as a `method`. The one object updated
  in place is the parsed project tree, the `ProjectTree` class.
- What a tab asks of the database manager is returned as a `Request` value.
- What the manager answers is a parameter: a `DbManager` record of
  connection parameters and uninterpreted catalog facts, or a listing
  datatype that includes the error cases.
- The Truncate tab's status line is a `Status` value; `StatusText` spells
  out the exact message each value shows.
- The filesystem is a `map` from path to file (`Disk`).
- The parsed project XML is a flat sequence of elements. Each `findall`
  pass is a method of `ProjectTree` that rewrites that sequence in place.

## Model

| member | source | states |
|---|---|---|
| BaseTab.CheckConnectionSpec | tabs/base_tab.py:32-37 | the connection guard passes exactly when some connection parameter has been set |
| BaseTab.CheckUserPrivileges | tabs/base_tab.py:69-78 | for `can_create_db` the check passes exactly when the user has CREATEDB or is superuser; any other requirement passes |
| BaseTab.ValidateNonEmptyField | tabs/base_tab.py:80-85 | a field passes exactly when it holds a non-whitespace character |
| BaseTab.NonEmptyFieldStripped | tabs/base_tab.py:80-85 | a field passes exactly when `strip()` leaves something, and its stripped text passes alike |
| BaseTab.Refilled | tabs/qgis_projects_tab.py:103-104 | after `clear()` and `addItems`, the box shows the first item, or nothing for an empty list |
| BaseTab.RestoredSelection | tabs/databases_tab.py:455-463 | after a refill, the combo box shows the previous text when it is still listed, otherwise the first item, and nothing only when the list is empty |
| BaseTab.SelectionAfterRefill | tabs/base_tab.py:87-92 | `validate_selection` on a refilled box: when no item is empty it fails exactly when the list is empty, and it can fail only for an empty list or an empty item |
| Text.FindFrom | tabs/clean_qgs_tab.py:412-419 | `find` returns the first occurrence at or after the start, and `None` exactly when there is none |
| Text.ContainsFind | tabs/clean_qgs_tab.py:415-417 | `p in s` holds exactly when `find` finds `p` |
| Text.StripSlice | tabs/base_tab.py:82 | `strip()` returns a slice framed only by whitespace, which neither starts nor ends with whitespace |
| Text.StripEmpty | tabs/base_tab.py:82 | `strip()` is empty exactly for all-whitespace text |
| Text.StripIdempotent | tabs/truncate_tab.py:455-456 | stripping twice is stripping once |
| Text.SqueezeSpaces | tabs/clean_qgs_tab.py:434 | `re.sub(r'\s+', ' ', s)` leaves no two whitespace characters in a row, is empty only for empty input, and keeps the first character unless it is whitespace |
| Text.NormalizeSpacesShape | tabs/clean_qgs_tab.py:434 | the collapsed and stripped text has no whitespace at either end and none doubled |
| Text.NormalizeFixed | tabs/clean_qgs_tab.py:434 | text that is already normalised is left unchanged |
| Text.ReplaceChar | tabs/archive_project_tab.py:706 | replacing one character by another keeps the length and changes exactly the positions holding it |
| Text.SplitOnce | tabs/qgis_projects_tab.py:150-151 | `split(sep, 1)` unpacked into two names fails exactly when `sep` is absent; otherwise the parts rebuild the text and the first part holds no `sep` |
| Text.SplitOnceAt | tabs/qgis_projects_tab.py:150-151 | the split happens at the first occurrence |
| Text.LowerIdempotent | tabs/databases_tab.py:541 | lower-casing twice is lower-casing once |
| Text.NatToDecimal | tabs/qgis_projects_tab.py:180-181 | `str(n)` is a non-empty run of digits, with a leading zero only for 0 |
| Text.DecimalRoundTrip | tabs/qgis_projects_tab.py:180-181 | reading back the decimal text of `n` gives `n` |
| Text.DecimalInjective | tabs/truncate_tab.py:525 | different numbers have different decimal texts |
| Paths.BasenameShape | tabs/clean_qgs_tab.py:365 | `basename` is the part after the directory: the path is the head followed by it, and it holds no separator |
| Paths.BasenameOfName | tabs/archive_project_tab.py:523 | a name without separators or drive is its own base name |
| Paths.BasenameEnds | tabs/clean_qgs_tab.py:365 | a suffix without separators or colons is also a suffix of the base name |
| Paths.SplitExtShape | tabs/clean_qgs_tab.py:308 | `splitext` cuts the path in two; a non-empty extension is a dot followed by no dot or separator, after a name that is not all dots |
| Paths.SplitExtInsert | tabs/clean_qgs_tab.py:308-309 | inserting a dot-free marker before the extension extends the root and keeps the extension |
| CleanQgs.CredentialsByFind | tabs/clean_qgs_tab.py:412-419 | a body holds credentials exactly when it has `dbname=` and a `user=` or `password=` whose check box is set |
| CleanQgs.QuotedPairAtMatches | tabs/clean_qgs_tab.py:427-431 | the scanner finds exactly the match of `\s*KEY['"][^'"]*['"]` at a position, and that match is unique |
| CleanQgs.RemoveKeepsUnquoted | tabs/clean_qgs_tab.py:425-431 | a key never followed by a quote is not removed: the text comes back unchanged |
| CleanQgs.RemoveAppendUnmatched | tabs/clean_qgs_tab.py:425-431 | a stretch in which no match starts, and which does not end in whitespace, is copied through whatever follows it |
| CleanQgs.RemoveOnePair | tabs/clean_qgs_tab.py:425-431 | a quoted pair after a stretch in which no match starts, and before a text where the key is never followed by a quote, is dropped, and only it |
| CleanQgs.CleanBothCredentials | tabs/clean_qgs_tab.py:421-436 | with both options on, a datasource followed by a quoted user and a quoted password loses both, and the rest is whitespace-normalised; this holds for any datasource in which neither key is followed by a quote |
| CleanQgs.CleanedShape | tabs/clean_qgs_tab.py:434 | a cleaned body is whitespace-normalised whatever the options |
| CleanQgs.CleanSingleDatasource | tabs/clean_qgs_tab.py:421-436 | the step-by-step cleaning equals the specification; its result is normalised, and with both options off it is only the whitespace collapse |
| CleanQgs.SplitRender | tabs/clean_qgs_tab.py:377-379 | cutting the document at `<datasource>(.*?)</datasource>` loses nothing: the pieces rebuild it |
| CleanQgs.SplitBodiesClosed | tabs/clean_qgs_tab.py:377 | the match is lazy: no block body holds a closing tag |
| CleanQgs.FindDatasourceChanges | tabs/clean_qgs_tab.py:372-388 | the loop over the matches produces exactly the preview pairs of the specification |
| CleanQgs.ReplaceDatasource | tabs/clean_qgs_tab.py:394-404 | the callback returns the rewritten block, reports a change exactly for a counted block, and returns the match as it was otherwise |
| CleanQgs.CleanDatasources | tabs/clean_qgs_tab.py:390-410 | the rewritten document and the change count are those of the specification |
| CleanQgs.CleanPieces | tabs/clean_qgs_tab.py:394-408 | the substitution loop over the cut document renders the rewritten pieces and counts the changed blocks |
| CleanQgs.ChangeCountIsPreviewLength | tabs/clean_qgs_tab.py:372-410 | the number of blocks cleaned is the number of preview pairs |
| CleanQgs.RewriteTouchesCounted | tabs/clean_qgs_tab.py:394-408 | a piece changes exactly when it is counted, and text between blocks never changes |
| CleanQgs.CountedBlockChanges | tabs/clean_qgs_tab.py:398-402 | a counted block really differs from the original match |
| CleanQgs.NoCountKeepsDocument | tabs/clean_qgs_tab.py:390-410 | with nothing counted, the document is written back unchanged |
| CleanQgs.ChangesMeaning | tabs/clean_qgs_tab.py:379-386 | every preview pair is a stripped body with credentials and a different, normalised cleaning |
| CleanQgs.OptionsOffNothingCounted | tabs/clean_qgs_tab.py:412-419 | with both check boxes cleared, nothing is counted and the preview is empty |
| CleanQgs.FirstEntryEnding | tabs/clean_qgs_tab.py:338-343 | the archive entry read is the first whose name ends in `.qgs` |
| CleanQgs.ReadQgs | tabs/clean_qgs_tab.py:331-349 | a `.qgz` archive yields the text of its first `.qgs` entry, and nothing when it has none; a `.qgz` path that is not an archive on disk gives nothing; any other path gives its text, and a missing file gives nothing |
| CleanQgs.WriteQgs | tabs/clean_qgs_tab.py:351-370 | only the output path changes on disk; the temporary file does not remain |
| CleanQgs.WriteThenRead | tabs/clean_qgs_tab.py:331-370 | reading back what was written gives the content |
| CleanQgs.CleanedPathShape | tabs/clean_qgs_tab.py:307-309 | the `_cleaned` name keeps the root and extension, differs from the input, and is a `.qgz` name exactly as the input is |
| CleanQgs.CleanFile | tabs/clean_qgs_tab.py:281-329 | the disk changes only when something was cleaned, and then only at the `_cleaned` path, which holds the rewritten document |
| CleanQgs.CleanedCopyReadsBack | tabs/clean_qgs_tab.py:307-312 | the original is kept and the copy reads back as the rewritten document |
| CleanQgs.PreviewChanges | tabs/clean_qgs_tab.py:219-279 | a preview exists exactly for a readable, non-empty path, and holds the specification's pairs |
| ArchiveProject.FindEndValue | tabs/archive_project_tab.py:801 | `findall` finds a match exactly where a value follows the key |
| ArchiveProject.CountZero | tabs/archive_project_tab.py:801 | the count is zero exactly when no value follows the key anywhere |
| ArchiveProject.StripKeyIdentity | tabs/archive_project_tab.py:805-810 | text with no value after the key passes through all six substitutions unchanged |
| ArchiveProject.NothingCountedNothingRemoved | tabs/archive_project_tab.py:795-824 | when no credential is counted, the content is unchanged |
| ArchiveProject.BareLeavesNoValue | tabs/archive_project_tab.py:822 | after the last substitution no value follows the key |
| ArchiveProject.CleanCredentialsFromContent | tabs/archive_project_tab.py:795-824 | the method computes the specification's text and count; no password value is left; a zero count means no change |
| ArchiveProject.SkipIgnoresCase | tabs/archive_project_tab.py:410-423 | the skip patterns, matched with IGNORECASE, judge a text and its lower-case form alike |
| ArchiveProject.CategorizePath | tabs/archive_project_tab.py:434-445 | every path gets one of the four headings |
| ArchiveProject.CategoryPriority | tabs/archive_project_tab.py:434-445 | CSV beats an image extension, which beats a UI keyword; anything else is "Other" |
| ArchiveProject.CategoryIgnoresCase | tabs/archive_project_tab.py:434-445 | the heading does not depend on case |
| ArchiveProject.FloorScale | tabs/archive_project_tab.py:339-344 | the scaled short side is the floor of its proportional size and grows neither past itself nor past the limit |
| ArchiveProject.NewSizeRule | tabs/archive_project_tab.py:333-344 | an image that fits is unchanged; otherwise its long side becomes the limit, neither side grows, both fit, and a square becomes limit by limit |
| ArchiveProject.SupportedImages | tabs/archive_project_tab.py:308-316 | only files with a supported extension are picked up |
| ArchiveProject.SavedImagesFit | tabs/archive_project_tab.py:323-368 | every saved image fits the limit, and the resize count never exceeds the number saved |
| ArchiveProject.SavedImagesOwnSize | tabs/archive_project_tab.py:323-368 | each saved entry is one of the images that opened, under its own path, at the size the rule gives its own dimensions; every image that opens has its entry |
| ArchiveProject.CollectImageFiles | tabs/archive_project_tab.py:312-316 | the walk filter returns the supported files in walk order |
| ArchiveProject.ResizeImage | tabs/archive_project_tab.py:323-365 | an image that opens is saved at the rule's size, an image that does not is skipped, and the count is one exactly when it had to shrink |
| ArchiveProject.ResizeImagesInFolder | tabs/archive_project_tab.py:306-372 | the saved list and the resize count are those of the specification |
| ArchiveProject.LastTailLatest | tabs/archive_project_tab.py:511 | `[^>]*` is greedy: the `value="file:///` chosen is the last one before the closing `>`, and none is found only when there is none |
| ArchiveProject.CsvPathsShaped | tabs/archive_project_tab.py:511-512 | every captured CSV path is a drive letter, a colon and a slash, then `.csv` somewhere, with no quote |
| ArchiveProject.QuerySplit | tabs/archive_project_tab.py:523-532 | the path splits into a part without `?` and a query part that is empty or starts with `?` |
| ArchiveProject.CsvSourceShape | tabs/archive_project_tab.py:523-535 | the new source is `file:///./`, then a file name with no directory, then the old query |
| ArchiveProject.ConvertedCountZero | tabs/archive_project_tab.py:520-551 | the count is zero exactly when no file named is present, and then the text is unchanged |
| ArchiveProject.ConvertMatches | tabs/archive_project_tab.py:517-543 | the loop computes the specification's text and count |
| ArchiveProject.TryConvertCsvPaths | tabs/archive_project_tab.py:504-555 | the file is rewritten exactly when some conversion was made, with the converted text |
| ArchiveProject.FoundPathsShaped | tabs/archive_project_tab.py:384-394 | every match of the two path patterns has the pattern's shape |
| ArchiveProject.FoundPathLikely | tabs/archive_project_tab.py:407-432 | for matched strings, the heuristic reduces to the skip patterns and the `.org`/`.com` endings |
| ArchiveProject.RecordKeeps | tabs/archive_project_tab.py:388-390 | adding a match keeps the report grouped by heading |
| ArchiveProject.AddToHeading | tabs/archive_project_tab.py:388-390 | the heading's set gains the match and is created when missing |
| ArchiveProject.RecordMatch | tabs/archive_project_tab.py:388-390 | one turn files a kept match under its heading and keeps the report grouped |
| ArchiveProject.ReportMatches | tabs/archive_project_tab.py:385-399 | the matches the heuristic accepts are grouped under their headings, and nothing else is |
| ArchiveProject.DetectRemainingAbsolutePaths | tabs/archive_project_tab.py:374-405 | the report holds exactly the likely absolute paths among the Windows-path and `file:///` matches, by heading |
| ArchiveSources.SanitizeLayerNameSpec | tabs/archive_project_tab.py:706 | the sanitised name keeps the length, has `_` where a space or slash was, and holds neither |
| ArchiveSources.GpkgSourceName | tabs/archive_project_tab.py:731-733 | the GeoPackage source gives back the layer name it was built from |
| ArchiveSources.ExportLayers | tabs/archive_project_tab.py:690-738 | the loop records the exported sources and the PostgreSQL layers; the first write creates the file and every later one adds a layer |
| ArchiveSources.ExportedEntries | tabs/archive_project_tab.py:695-735 | an entry is recorded exactly for a vector layer written without error, with its id and the source of its sanitised name |
| ArchiveSources.ExportedDistinct | tabs/archive_project_tab.py:695-735 | the recorded ids are distinct |
| ArchiveSources.AsMapLookup | tabs/archive_project_tab.py:853-857 | without repeated keys, each entry is what the dictionary holds for its key |
| ArchiveSources.RewriteMapLayer | tabs/archive_project_tab.py:848-864 | only `maplayer` elements change, and only their child texts |
| ArchiveSources.RewriteTreeLayer | tabs/archive_project_tab.py:866-878 | only `layer-tree-layer` elements change, and only their attributes |
| ArchiveSources.RewriteRelation | tabs/archive_project_tab.py:880-895 | only `relation` elements change, and only their attributes |
| ArchiveSources.FirstMatching | tabs/archive_project_tab.py:903-908 | the `for … break` takes the first entry that matches |
| ArchiveSources.RewriteStyleLayer | tabs/archive_project_tab.py:897-908 | only style `Layer` elements change, and only their attributes |
| ArchiveSources.RewriteLayerStyle | tabs/archive_project_tab.py:910-916 | only `LayerStyle` elements change, and only their attributes |
| ArchiveSources.RewriteAtlas | tabs/archive_project_tab.py:918-925 | the atlas pass changes attributes only |
| ArchiveSources.RewriteGps | tabs/archive_project_tab.py:927-933 | the GPS pass changes attributes only |
| ArchiveSources.RewriteOption | tabs/archive_project_tab.py:935-939 | only `Option` elements change, and only their attributes |
| ArchiveSources.FirstIndex | tabs/archive_project_tab.py:919-929 | `find(".//tag")` takes the first element with the tag, and none when there is none |
| ArchiveSources.UpdatedAt | tabs/archive_project_tab.py:848-939 | each element goes through the one pass for its tag, and every other element is unchanged |
| ArchiveSources.UnlistedUntouched | tabs/archive_project_tab.py:853-914 | a `maplayer`, `layer-tree-layer` or `LayerStyle` whose id is not a new source comes out unchanged |
| ArchiveSources.MapLayerRewritten | tabs/archive_project_tab.py:850-862 | a listed `maplayer` takes the new datasource and provider `ogr` where those children exist, and keeps everything else |
| ArchiveSources.TreeLayerRewritten | tabs/archive_project_tab.py:868-876 | a listed tree layer takes provider key `ogr` and the new source |
| ArchiveSources.LayerStyleRewritten | tabs/archive_project_tab.py:912-916 | a listed `LayerStyle` takes the new source and provider `ogr` |
| ArchiveSources.StyleLayerTakesFirst | tabs/archive_project_tab.py:898-908 | the `any(...)` test always holds, so every PostgreSQL-looking style `Layer` takes the first new source |
| ArchiveSources.NoPostgresProviderLeft | tabs/archive_project_tab.py:941-958 | after the text pass no PostgreSQL provider attribute is left, and the XML declaration adds none |
| ArchiveSources.ProjectTree.RewriteAll | tabs/archive_project_tab.py:849-850 | a `findall` pass applies its rewrite to every element in place |
| ArchiveSources.ProjectTree.RewriteFirst | tabs/archive_project_tab.py:919-920 | a `find` pass rewrites only the first element with the tag |
| ArchiveSources.ProjectTree.UpdateSources | tabs/archive_project_tab.py:848-939 | the eight passes leave the tree as the specification says |
| ArchiveSources.UpdateProjectSourcesComprehensive | tabs/archive_project_tab.py:826-962 | credentials, then passes, then text pass and declaration; nothing is written when parsing raises; no PostgreSQL provider is written |
| ArchiveSources.ConvertLayers | tabs/archive_project_tab.py:690-744 | the project is rewritten exactly when some layer was exported and the text parses |
| ArchiveSources.ExportedMapLayerSource | tabs/archive_project_tab.py:690-864 | end to end: an exported layer's `maplayer` points at the GeoPackage source of its sanitised name |
| Databases.ValidNameRule | tabs/databases_tab.py:566-571 | the regular expression accepts exactly identifiers of at most 63 characters, and those followed by one final newline |
| Databases.StrippedNameRule | tabs/databases_tab.py:566-571 | on stripped text the check is exactly the identifier rule |
| Databases.CommentText | tabs/databases_tab.py:445 | the comment cell is never empty, and shows the comment when there is one |
| Databases.Rows | tabs/databases_tab.py:423-453 | one row per database, in order |
| Databases.Names | tabs/databases_tab.py:423-453 | the emitted names are the databases' names in order |
| Databases.PresentNames | tabs/databases_tab.py:557-564 | the names read back are exactly the names of the rows that have a name cell |
| Databases.PresentNamesOfRows | tabs/databases_tab.py:423-564 | a freshly filled table reads back exactly the names emitted |
| Databases.SelectionChanged | tabs/databases_tab.py:399-421 | the button is enabled only for a selection, and for a named row exactly when it is neither a system database nor the connected one, with the matching status text |
| Databases.CreateDecision | tabs/databases_tab.py:465-495 | each guard refuses exactly in its turn, including an existing name and a missing CREATEDB privilege; no other refusal occurs; a dispatch happens exactly when all pass, and the request uses the stripped name and comment |
| Databases.DeleteDecision | tabs/databases_tab.py:497-537 | each guard refuses exactly in its turn, including the connected database; a dialog answer decides the rest; the request forces dropping connections |
| Databases.ButtonAgreesWithDelete | tabs/databases_tab.py:399-537 | for a named row, the delete button is enabled exactly when deletion would reach the dialog |
| Databases.OperationFinished | tabs/databases_tab.py:539-555 | the tab reacts to database or template messages in any case; success refreshes it, and a creation also clears the form |
| Databases.OperationFinishedIgnoresCase | tabs/databases_tab.py:541 | the reaction does not depend on case |
| Databases.DeletionDialog.constructor | tabs/databases_tab.py:20-162 | the dialog opens with nothing typed and the button disabled |
| Databases.DeletionDialog.CheckNameMatch | tabs/databases_tab.py:171-174 | the button is enabled exactly while the typed text is the database name |
| Databases.DatabasesTab.OnDatabaseSelectionChanged | tabs/databases_tab.py:399-421 | the button and status are those of the specification; the rows and the form are unchanged |
| Databases.FillRows | tabs/databases_tab.py:432-446 | the loop fills one row per database and collects the names in order |
| Databases.DatabasesTab.RefreshDatabases | tabs/databases_tab.py:423-453 | with a connection and a listing, the table holds its rows, the selection is dropped, and the names are emitted; otherwise the table is unchanged |
| Databases.DatabasesTab.RefreshTemplates | tabs/databases_tab.py:455-463 | the template box keeps its choice when it is still listed |
| Databases.DatabasesTab.GetDatabaseNames | tabs/databases_tab.py:557-564 | the loop returns the names of the rows that have a name cell |
| Databases.DatabasesTab.CreateDatabase | tabs/databases_tab.py:465-495 | the outcome is the creation decision on the form's fields |
| Databases.DatabasesTab.DeleteSelected | tabs/databases_tab.py:497-537 | the outcome is the deletion decision on the current row |
| Databases.DatabasesTab.OnOperationFinished | tabs/databases_tab.py:539-555 | the form is cleared exactly after a successful creation, and the rest of the tab is unchanged |
| Truncate.ToTruncate | tabs/truncate_tab.py:546-555 | the tables sent are exactly the listed tables that are not spared |
| Truncate.SparedTables | tabs/truncate_tab.py:546-555 | the tables excluded are spared ones, and the two lists together are as long as the listing |
| Truncate.PartitionIsPermutation | tabs/truncate_tab.py:546-555 | every table lands on exactly one side: the two lists are a permutation of the listing |
| Truncate.NothingSparedUnchecked | tabs/truncate_tab.py:546-555 | with the box unchecked, every table is sent |
| Truncate.Qualified | tabs/truncate_tab.py:579 | each name is `schema.table` |
| Truncate.QualifiedSplits | tabs/truncate_tab.py:579 | a qualified name splits back into schema and table when the schema has no dot |
| Truncate.QualifiedSpares | tabs/truncate_tab.py:577-580 | the spared table never reaches the fallback call |
| Truncate.Marks | tabs/truncate_tab.py:490-518 | one preview row per table, marked excluded exactly when spared |
| Truncate.DisplayStatus | tabs/truncate_tab.py:523-527 | the status reads "Ready to truncate …" for a positive count and "No tables selected for truncation" for zero |
| Truncate.DisplayStatusDistinct | tabs/truncate_tab.py:523-527 | different counts give different status lines |
| Truncate.ValidTablesSpec | tabs/truncate_tab.py:452-456 | only non-blank strings are kept, each stripped, and every such string is kept |
| Truncate.ListedTables | tabs/truncate_tab.py:444-456 | a listing that is missing, not a list or raised gives no tables |
| Truncate.TruncateDecision | tabs/truncate_tab.py:529-586 | each guard refuses exactly in its turn; then the dialog answer and the available call decide; the request carries exactly the tables not spared |
| Truncate.SparedNeverSent | tabs/truncate_tab.py:546-580 | while the box is checked, no call the tab makes names `qgis_projects` |
| Truncate.TruncateFinished | tabs/truncate_tab.py:588-597 | the tables are refreshed exactly after a success whose message mentions truncation in any case |
| Truncate.TruncateFinishedIgnoresCase | tabs/truncate_tab.py:590 | the reaction does not depend on case |
| Truncate.NonSystem | tabs/truncate_tab.py:367-371 | exactly the non-system databases are kept |
| Truncate.TruncateTablesTab.constructor | tabs/truncate_tab.py:206-209 | the tab starts with the exclusion box checked and no tables |
| Truncate.TruncateTablesTab.UpdateTablesDisplay | tabs/truncate_tab.py:480-527 | the preview and button describe the tables, and the status is the count's "Ready to truncate" line |
| Truncate.TruncateTablesTab.MarkTables | tabs/truncate_tab.py:490-518 | the loop writes the specification's rows and counts the tables not spared |
| Truncate.TruncateTablesTab.SetExclude | tabs/truncate_tab.py:207-209 | toggling the box redraws the preview for the new setting |
| Truncate.TruncateTablesTab.ClearTables | tabs/truncate_tab.py:427-429 | the table list is emptied and the button disabled |
| Truncate.TruncateTablesTab.RefreshTables | tabs/truncate_tab.py:412-478 | each guard leaves its status; a listing fills the table with the valid tables; an error empties it; the status line says the method is missing, shows the error, says the schema has no tables, or gives the ready count |
| Truncate.TruncateTablesTab.CollectValidTables | tabs/truncate_tab.py:452-456 | the filtering loop returns the valid tables |
| Truncate.TruncateTablesTab.OnSchemaChanged | tabs/truncate_tab.py:348-360 | a schema lists its tables; no schema clears them |
| Truncate.TruncateTablesTab.OnDatabaseChanged | tabs/truncate_tab.py:331-346 | tables and schemas are cleared and the schema box disabled; a chosen database refreshes its schemas |
| Truncate.TruncateTablesTab.RefreshSchemas | tabs/truncate_tab.py:380-410 | without a database or a connection, or when the query raises, the schema box is unchanged; otherwise it holds the schemas (or `public` when the query is missing), is enabled, and shows `public` when listed |
| Truncate.TruncateTablesTab.RefreshDatabases | tabs/truncate_tab.py:362-378 | the box holds the non-system databases and keeps its choice when it is still listed |
| Truncate.TruncateTablesTab.TruncateTables | tabs/truncate_tab.py:529-586 | the outcome is the truncation decision on the tab's state |
| Truncate.TruncateTablesTab.Partition | tabs/truncate_tab.py:546-555 | the loop splits the tables into the spared list and the list to send |
| Truncate.TruncateTablesTab.OnOperationFinished | tabs/truncate_tab.py:588-597 | a successful truncation refreshes the tables; other messages change nothing |
| QgisProjects.ProjectLabels | tabs/qgis_projects_tab.py:121-124 | one label `schema.table - name` per project, in order |
| QgisProjects.ParseLabel | tabs/qgis_projects_tab.py:150-151 | parsing fails exactly when a separator or dot is missing; otherwise the parts rebuild the label and the schema has no dot |
| QgisProjects.LabelRoundTrip | tabs/qgis_projects_tab.py:121-151 | a project whose names do not clash with the format reads back as itself |
| QgisProjects.LabelAmbiguity | tabs/qgis_projects_tab.py:121-151 | a table name ending in ` -` reads back as a different project |
| QgisProjects.CollectedSpec | tabs/qgis_projects_tab.py:170-187 | a text field is sent exactly when it is not blank, stripped; the port exactly when it is not 5432 |
| QgisProjects.PortParameter | tabs/qgis_projects_tab.py:180-181 | the port is sent as its decimal text, and only when it is not the default |
| QgisProjects.TextParameter | tabs/qgis_projects_tab.py:174-185 | every text value sent is non-empty and already stripped |
| QgisProjects.ClearedCollectsNothing | tabs/qgis_projects_tab.py:189-196 | the form `clear_parameters` leaves sends no parameter |
| QgisProjects.FixDecision | tabs/qgis_projects_tab.py:135-168 | each guard refuses exactly in its turn; the request targets the parsed project with the collected parameters and backup flag |
| QgisProjects.FixTargetsChosenProject | tabs/qgis_projects_tab.py:121-168 | choosing a listed project whose label reads back fixes exactly that project |
| QgisProjects.KeywordCaseSensitive | tabs/qgis_projects_tab.py:198-205 | the keyword test is case-sensitive |
| QgisProjects.QgisProjectsTab.constructor | tabs/qgis_projects_tab.py:61-76 | the port starts at 5432, the backup box checked, and the form empty |
| QgisProjects.QgisProjectsTab.SetPort | tabs/qgis_projects_tab.py:61 | the spin box clamps the port to 1..65535 |
| QgisProjects.QgisProjectsTab.CollectNewParameters | tabs/qgis_projects_tab.py:170-187 | the method builds the parameters of the specification |
| QgisProjects.QgisProjectsTab.ClearParameters | tabs/qgis_projects_tab.py:189-196 | the text fields are emptied and the port reset to 5432; the list boxes and the backup box are unchanged |
| QgisProjects.QgisProjectsTab.RefreshQgisDatabases | tabs/qgis_projects_tab.py:91-105 | the box is filled with the given or fetched databases, showing the first; without a connection, or when the query raises, the box is unchanged |
| QgisProjects.QgisProjectsTab.SearchQgisProjects | tabs/qgis_projects_tab.py:107-133 | with a connection, a database and results, the box holds the projects' labels, which are emitted |
| QgisProjects.QgisProjectsTab.FixQgisProject | tabs/qgis_projects_tab.py:135-168 | the outcome is the fix decision on the tab's state |
| QgisProjects.QgisProjectsTab.OnOperationFinished | tabs/qgis_projects_tab.py:198-205 | a success that names projects or layers leaves the cleared form; any other message leaves the form as it was |

One limit of the project box: a label is made as `schema.table - name` and
read back by splitting at the first `" - "` and then the first `"."`.
`LabelRoundTrip` proves that labels read back exactly. Its side condition
is that the schema has no dot, neither name holds `" - "`, and the table
name does not end in `" -"`. `LabelAmbiguity` exhibits a table name ending
in `" -"` that reads back as a different project.

## Left out

- The Qt interface is not modelled: layouts, styles, tooltips, help pop-ups,
  message boxes and colours. A message box appears in the model only as
  the `Refusal` or status line it stands for.
- Logging and progress signals (`emit_log`, progress start and finish, the
  progress bar) are not modelled. They do not change what the tab does.
- Signal cascades between combo boxes are not modelled, because each handler
  is its own method. For example, a schema change that lists tables is the
  separate call `OnSchemaChanged`.
- The confirmation dialogs' `exec_()` becomes a boolean answer. The
  deletion dialog's information panel (`get_database_info`) is not
  modelled.
- The database manager's work is not modelled, because it is SQL run on a
  server.
  - The tabs' requests are returned as values.
  - Its answers are parameters.
  - `is_system_database`, `get_schema_tables`, `get_database_schemas`,
    `truncate_*`, `find_qgis_projects` and `fix_qgis_project_layers` are
    not defined in `database_manager.py`; the model takes their answers
    as given facts.
  - The tab calls `create_database_from_template` with three arguments,
    while the manager's method takes two. The model records the
    three-argument request the tab makes.
- Which `hasattr` fallbacks the manager offers is a parameter
  (`TruncateMethod`, `TableListing`, `SchemaListing`).
- File contents are not modelled.
  - Reading, writing, `zipfile`, temporary files and `shutil` copies are
    modelled only as far as `ReadQgs`/`WriteQgs` on a `Disk` map go.
  - The archive tab's copying of the project folder, its DCIM folder
    search, the archive report (`_create_archive_report`) and the
    summary dialog of `_show_absolute_paths_summary` are not modelled.
  - These are file and user-interface work with no logic beyond iteration.
- `QgsVectorFileWriter` is not modelled: each layer's success is a
  parameter.
- `ET.fromstring`/`ET.tostring` are not modelled: they are function
  parameters, and the project tree is a flat sequence of elements.
  - Each element keeps only the text of the first child of each tag,
    which is what `find`/`findtext` read.
- The `layer_id_to_name` dictionary in `_update_project_sources_comprehensive`
  is not modelled: it is computed and never used.
- Image decoding, EXIF rotation and resampling by PIL are not modelled. An
  image is its size, or `None` when it cannot be opened.
- Lower: only ASCII letters are lower-cased; Python's `lower()` also maps
  other Unicode letters.
- ArchiveProject.NewSize: the source's float quotient `int(h * m / w)` is
  modelled as the integer floor. They agree for positive sizes, but very
  large sizes, where the float would round, are not modelled.
- Text is a sequence of Unicode code points. UTF-8 encoding and decoding
  are not modelled.
- CleanQgs.CleanedCopyReadsBack: it excludes an input named only by dots
  before `qgz`. `splitext` sees no extension there, so the copy is written
  as an archive under a name without the `.qgz` suffix.
- BaseTab.CheckUserPrivileges: the `show_error` message on failure is not
  modelled.
- CleanQgs.CleanBothCredentials: it is proved only for a password that
  does not end in `user=`, and for a datasource that does not end in
  whitespace. The source also removes both pairs in those cases, but the
  proof would need a finer account of where the user pattern can match.
- Databases.DatabasesTab.RefreshDatabases: the table has sorting enabled,
  so Qt may show the rows in another order after a header click. The model
  keeps the rows in the order the manager listed them.
- Paths.DriveLength: only the `X:` drive of Windows is recognised. UNC
  prefixes (`\\server\share`) are not, so `basename` of such a path is
  not modelled exactly.
- ArchiveProject.ResizeImage: a PIL `save` that raises is not modelled.
  The source then counts the image as neither resized nor saved; the model
  has an image either open and saved, or unopened.
