# Lab journal pages, modelled in Dafny

A Streamlit lab journal lets students record practical work per subject
and keep the resulting files in a remote folder per user. This project
models five of its pages. It states what each page promises about the
records, the stored file names and the folder contents, and proves it.

- **Subject overview** (`pages/01_Datei.py`). It resolves the chosen
  subject to its labels, folders and data set, and decides whether any
  entries can be shown. It searches entries by title and date. It decodes
  each entry's attachment list, which is stored as a Python list literal,
  and drops duplicates while keeping first-seen order. It reads each
  attachment with up to three attempts and offers a download only for
  files that were found and are not empty.
- **Chemistry entry** (`pages/03_Chemie.py`). It sanitises the names of
  uploaded images and documents, skips files the folders already hold,
  stores the rest under timestamped names, and names the Word and PDF
  exports. It refuses a blank title and appends the new record to the
  entry table.
- **Haematology count** (`pages/02_Haematologie.py`). It keeps two counters
  per cell type, and a counter never goes below zero. It lists every empty
  selection field, builds the record with its fixed key order, lays out
  the Word sections, stores the uploaded images and names the exports.
- **Cell atlas** (`pages/08_Zellatlas.py` and
  `pages/08_Referenz_Haematologie.py`). It keeps a list of pending entries
  and saves every complete one as a YAML file next to its image. A type
  without `:` makes the save raise part-way. It lists stored entries newest
  first, exports them to Word oldest first and to PDF newest first. Deleting an entry removes it
  together with its image.

The modules:

- `Store` models a remote folder as a map from name to content.
  - Its class `Folder` updates that map in place.
  - `Applied` gives the folder contents after a sequence of writes. Every
    loop that saves files is proved against it.
- `Text` models the Python string methods the pages use: `strip`, `lower`,
  `replace`, `split`, `startswith`, `endswith`, `in` and `basename`.
- `ListLiteral` models `str(list)` and the part of `ast.literal_eval` that
  reads such a list back.
- `Ordering` models Python's code-point order on strings and `list.sort`.

Clocks, random hex strings and the nondeterministic not-found results of
the remote store are parameters.

## Model

| member | source | states |
|---|---|---|
| Text.Strip | pages/01_Datei.py:27 | the result is the input minus leading and trailing whitespace, with non-whitespace ends |
| Text.StripAround | pages/01_Datei.py:27 | stripping a text padded with whitespace gives the text back, when it neither starts nor ends with whitespace |
| Text.StripEmptyIff | pages/03_Chemie.py:176 | a string strips to empty exactly when every character is whitespace |
| Text.LowerIdempotent | pages/01_Datei.py:98 | lower-casing twice is lower-casing once |
| Text.ReplaceCharRemoves | pages/08_Zellatlas.py:110 | replacing a character by text without it leaves no occurrence |
| Text.ReplaceCharPointwise | pages/03_Chemie.py:223 | a one-for-one replacement keeps the length and changes exactly the matching positions |
| Text.Split | pages/08_Zellatlas.py:114 | the parts contain no separator, join back to the input, and are one part exactly when the separator is absent |
| Text.SplitAtFirst | pages/08_Zellatlas.py:114 | the first part of a split is the text before the first separator |
| Text.Basename | pages/08_Zellatlas.py:141 | the base name has no `/`, is a suffix of the path, and is either the whole path or preceded in it by a `/` |
| Store.Applied | pages/03_Chemie.py:184-186 | after a sequence of saves, the names are the old names plus those written, untouched names keep their content, and the last write wins |
| Store.Folder.Save | pages/03_Chemie.py:186 | a save creates or overwrites exactly one name |
| Store.Folder.Delete | pages/08_Zellatlas.py:167 | a delete removes exactly one name and reports whether it was there |
| ListLiteral.ParseRepr | pages/01_Datei.py:123-125 | reading back the stored literal of a list of plain file names gives that list |
| ListLiteral.ReprInjective | pages/01_Datei.py:125 | distinct name lists are stored as distinct literals |
| Ordering.StampDecides | pages/08_Zellatlas.py:102 | names that start with equal-width timestamps compare as their timestamps when those differ |
| Ordering.SortSpec | pages/08_Zellatlas.py:138 | sorting gives an ordered permutation of the input |
| Ordering.OrderedUnique | pages/08_Zellatlas.py:185 | an ordered permutation of a list is unique |
| Ordering.SortOfPermutation | pages/08_Zellatlas.py:185 | re-sorting an already sorted copy equals sorting the original |
| Ordering.ReverseOfAscending | pages/08_Zellatlas.py:226 | the ascending order read backwards is the descending order |
| Datei.SubjectKey | pages/01_Datei.py:27 | the subject key is lower case and neither starts nor ends with whitespace |
| Datei.SubjectKeyOfPadded | pages/01_Datei.py:27-34 | a known subject in any letter case and with any surrounding whitespace resolves to its key and its label |
| Datei.SubjectName | pages/01_Datei.py:30-41 | the label is "Unbekannt" exactly when the subject is not one of the three known ones |
| Datei.NewEntryPage | pages/01_Datei.py:58-63 | the new-entry button leads to `Start.py` exactly for an unknown subject, otherwise to a page under `pages/` |
| Datei.WordFolder | pages/01_Datei.py:74 | the Word folder ends in the user's name and starts with `word_` exactly for a known subject |
| Datei.DatasetFor | pages/01_Datei.py:77-90 | a data set exists exactly for a known subject; its CSV name ends in `.csv` and its attachment folder in the user's name |
| Datei.Columns | pages/01_Datei.py:93 | a column exists exactly when some row has that key |
| Datei.FilterRows | pages/01_Datei.py:100 | the filter keeps exactly the matching rows, in order, and never adds rows |
| Datei.FilterRowsAppend | pages/01_Datei.py:100 | filtering distributes over concatenation, so order is kept |
| Datei.Search | pages/01_Datei.py:98-100 | an empty search term shows all rows; otherwise a row is shown exactly when its title-and-date text contains the term |
| Datei.VisibleEntries | pages/01_Datei.py:92-100 | without rows or without a title or date column nothing is shown; otherwise exactly the search result is shown, and it is always among the stored rows |
| Datei.UntitledRowsNeverMatch | pages/01_Datei.py:99-100 | a row whose title is not text is never found by a non-empty search |
| Datei.DecodeAnhaenge | pages/01_Datei.py:122-127 | a missing column gives no attachments, an empty cell makes the page raise, and unreadable text gives no attachments |
| Datei.DecodeStoredList | pages/01_Datei.py:122-125 | an attachment list stored as a literal decodes to the same list |
| Datei.Dedup | pages/01_Datei.py:131 | the result has no duplicates, holds exactly the input's names, and is no longer than the input |
| Datei.DedupFirstSeenOrder | pages/01_Datei.py:131 | names appear in the order of their first occurrence |
| Datei.DedupOfDistinct | pages/01_Datei.py:131 | a list without duplicates is unchanged |
| Datei.ReadWithRetry | pages/01_Datei.py:132-138 | 1 to 3 reads are made; every read before the last was not found; the data is returned exactly when some of the 3 reads finds the file, and it is the stored content |
| Datei.ShowAttachments | pages/01_Datei.py:129-148 | each distinct attachment, in first-seen order, gets a download when its read succeeded with non-empty data, and a not-found notice otherwise |
| Datei.WordButton | pages/01_Datei.py:107-119 | a download is offered exactly when the row has a non-empty text `dateiname` whose single read succeeds, and it carries that file; no button exactly when the column is missing or the cell is empty; a NaN name gives the warning |
| Datei.ShowRow | pages/01_Datei.py:102-148 | one row shows its Word button and its attachments, or raises on an empty attachment cell |
| Chemie.CleanName | pages/03_Chemie.py:157 | a cleaned image name contains no space and no `ä`, `ü` or `ö` |
| Chemie.CleanNameByChar | pages/03_Chemie.py:157 | the chain of replacements equals replacing each character on its own |
| Chemie.CleanNameIdempotent | pages/03_Chemie.py:157 | cleaning a cleaned name changes nothing |
| Chemie.SafeTitle | pages/03_Chemie.py:223 | the safe title has the stripped title's length, maps it character by character, and holds no space, `/` or `\` |
| Chemie.Hex8 | pages/03_Chemie.py:195 | the short hex is the prefix of the hex string of length 8, or the whole string when it is shorter |
| Chemie.ImageStoreNameEnds | pages/03_Chemie.py:186 | a stored image name ends with the cleaned upload name, so the skip test finds it later |
| Chemie.DocStoreNameContains | pages/03_Chemie.py:195 | a stored document name contains the cleaned document name |
| Chemie.ExportNames | pages/03_Chemie.py:223-255 | the Word and PDF names end in the safe title and `.docx`/`.pdf` and contain no `/` |
| Chemie.Queue | pages/03_Chemie.py:151-161 | an upload is queued exactly when no stored image ends with its cleaned name |
| Chemie.QueueAppend | pages/03_Chemie.py:154-161 | the preview queue keeps the upload order |
| Chemie.QueueImages | pages/03_Chemie.py:151-161 | the preview loop builds exactly the queue |
| Chemie.ImageWrites | pages/03_Chemie.py:183-186 | a queued image is written exactly when no stored name ends with its name, under timestamp, hex and name |
| Chemie.SaveImages | pages/03_Chemie.py:183-186 | the image folder afterwards is the old folder with exactly those writes applied |
| Chemie.QueueEmptyWhenKnown | pages/03_Chemie.py:158-160 | when every upload is already stored, nothing is queued |
| Chemie.QueuedKnownAfterSave | pages/03_Chemie.py:184-186 | after a save, every queued image is known to the folder |
| Chemie.ReuploadSkipped | pages/03_Chemie.py:153-186 | uploading the same images again after a save queues nothing |
| Chemie.DocClean | pages/03_Chemie.py:191 | a cleaned document name has the name's length, replaces each space by `_`, keeps every other character, and has no space |
| Chemie.DocWrites | pages/03_Chemie.py:189-197 | a document is written exactly when its cleaned name occurs in no stored name, under timestamp, short hex and cleaned name |
| Store.Names | pages/03_Chemie.py:197 | the attachment list holds the written names in write order, and exactly the names written |
| Chemie.SaveDocuments | pages/03_Chemie.py:189-197 | the document folder gets exactly those writes, and the attachment list names them |
| Chemie.DocReuploadSkipped | pages/03_Chemie.py:192-194 | a document already stored under its generated name is skipped |
| Chemie.DocSubstringSkip | pages/03_Chemie.py:192 | a new `a.pdf` is skipped when `data.pdf` is stored, because the test is a substring test |
| Chemie.AppendRecord | pages/03_Chemie.py:272-276 | the new record is the last row and earlier rows are kept; without a table the record becomes the only row |
| Chemie.EntryTable.Append | pages/03_Chemie.py:272-276 | the session's entry table becomes the appended table |
| Chemie.SaveAndExport | pages/03_Chemie.py:175-276 | a blank title changes nothing; otherwise images, documents, the Word file and the PDF are stored as stated, the attachment list is the documents then the PDF, and the record is appended |
| Chemie.TitleFindsItself | pages/01_Datei.py:98-99 | a title's search text contains the title, stripped and lower-cased |
| Chemie.SavedEntryIsListed | pages/03_Chemie.py:258-276 | a saved entry whose title holds no regex metacharacter other than `.` is then found on the overview page by searching for its title |
| Haematologie.KeyNameInjective | pages/02_Haematologie.py:114-115 | distinct counters have distinct session keys, so counters can be keyed by cell type and number |
| Haematologie.Step | pages/02_Haematologie.py:129-134 | plus adds one, minus subtracts one but never goes below zero, no press keeps the value, and non-negative stays non-negative |
| Haematologie.SetDefault | pages/02_Haematologie.py:117-120 | a missing counter starts at 0 and existing counters are kept |
| Haematologie.RowUpdate | pages/02_Haematologie.py:117-147 | one row adds its two counters to the keys, sets each to its old value (0 when absent) after its button, leaves every other counter, and keeps counters non-negative |
| Haematologie.RowUpdateBySteps | pages/02_Haematologie.py:117-147 | the page's two `setdefault`s followed by the two button updates give the row update |
| Haematologie.TableUpdate | pages/02_Haematologie.py:113-147 | after the table every processed cell type has both counters, no counter is lost, and counters stay non-negative |
| Haematologie.TableUpdateKeys | pages/02_Haematologie.py:113-147 | the table adds exactly the counters of the processed cell types and leaves every other counter as it was |
| Haematologie.TableUpdateValues | pages/02_Haematologie.py:113-147 | with distinct cell types, each processed counter ends at its old value (0 when absent) after its own button |
| Haematologie.CountForm.RunRow | pages/02_Haematologie.py:114-147 | one row, done step by step as the page does, is the row update, and keeps every counter non-negative |
| Haematologie.CountForm.RunTable | pages/02_Haematologie.py:113-151 | one run over all 13 cell types applies the presses and leaves every counter present |
| Haematologie.Average | pages/02_Haematologie.py:154 | the average is half the sum and lies between the two counts |
| Haematologie.MissingIn | pages/02_Haematologie.py:221-223 | a field is reported exactly when its selection is empty |
| Haematologie.MissingInAppend | pages/02_Haematologie.py:218-232 | the messages of two runs of fields are those of the first run followed by those of the second, so with at most one per field they come once each, in field order |
| Haematologie.AppendMissing | pages/02_Haematologie.py:221-232 | one section's loop appends exactly its missing fields |
| Haematologie.CollectMissing | pages/02_Haematologie.py:218-232 | the four loops collect exactly the missing fields, section by section |
| Haematologie.MissingInEmpty | pages/02_Haematologie.py:220-223 | a section with every field selected reports nothing |
| Haematologie.NothingMissingWhenSelected | pages/02_Haematologie.py:218-238 | with every field of all four sections selected, the page does not stop |
| Haematologie.EmptyRbFieldReported | pages/02_Haematologie.py:221-223 | an empty red-blood-count field is listed among the first section's reports |
| Haematologie.FieldDict | pages/02_Haematologie.py:279-282 | a section dict has exactly the section's fields, in order, with their selections |
| Haematologie.CountDict | pages/02_Haematologie.py:268-272 | the counts dict has one entry per cell type, in order, with both counts and their average |
| Haematologie.BuildRecord | pages/02_Haematologie.py:265-283 | the record's dicts have exactly the fixed key lists |
| Haematologie.RecordCountsNonNegative | pages/02_Haematologie.py:268-272 | with non-negative counters, every stored count and average is non-negative |
| Haematologie.SplitLines | pages/02_Haematologie.py:314 | the empty note has no lines, no line contains a line break, and the lines joined by line breaks give the note back, followed by a line break exactly when the note ends in one |
| Haematologie.FieldBullets | pages/02_Haematologie.py:309-311 | one bullet per field, in order |
| Haematologie.StrippedLines | pages/02_Haematologie.py:314-315 | one stripped paragraph per note line |
| Haematologie.NoteParagraphs | pages/02_Haematologie.py:313-317 | a note always produces at least one paragraph |
| Haematologie.FieldLineShowsValue | pages/02_Haematologie.py:311 | an empty selection shows as `-`, any other as its value |
| Haematologie.SectionLayout | pages/02_Haematologie.py:307-317 | a section is its heading, one bullet per field, the "Sonstiges:" bullet, then exactly the note's paragraphs |
| Haematologie.BlankNoteGivesEmptyLine | pages/02_Haematologie.py:313-315 | a note of spaces gives one empty paragraph, not the `-` placeholder |
| Haematologie.WordDocument.AddFieldBullets | pages/02_Haematologie.py:309-311 | the document grows by the field bullets |
| Haematologie.WordDocument.AddNote | pages/02_Haematologie.py:313-317 | the document grows by the note paragraphs |
| Haematologie.WordDocument.AddSection | pages/02_Haematologie.py:307-317 | the document grows by exactly the section's paragraphs |
| Haematologie.ExportNamesShareStem | pages/02_Haematologie.py:382-385 | the Word and PDF downloads share one name stem, with no spaces when the timestamp has none |
| Haematologie.StampedWrites | pages/02_Haematologie.py:255-259 | each upload is written under its timestamp and its own name |
| Haematologie.EveryImageStored | pages/02_Haematologie.py:255-259 | after saving, every uploaded image is in the folder |
| Haematologie.SaveUploadedImages | pages/02_Haematologie.py:255-259 | the image folder gets exactly those writes |
| Haematologie.SaveAndExport | pages/02_Haematologie.py:234-351 | with any field missing, nothing is saved and the missing list is reported; otherwise the images and the Word file are saved and the record is built from the form |
| CellAtlas.ImageName | pages/08_Zellatlas.py:110 | an image is stored under the timestamp, `_`, then its name with each space replaced by `_` and every other character kept |
| CellAtlas.YamlName | pages/08_Zellatlas.py:114 | the YAML name exists exactly when the type has a `:`, and then starts with the timestamp and ends in `.yaml` |
| CellAtlas.YamlNameOfOption | pages/08_Zellatlas.py:78-114 | for a select-box type `group: cell` the name is built from the cell name alone |
| CellAtlas.EntryDoc | pages/08_Zellatlas.py:103-112 | the stored document names an image exactly when the entry has one, under the stored image name |
| CellAtlas.SavePlanOutcome | pages/08_Zellatlas.py:97-122 | the save raises exactly when a complete entry has a type without `:`; otherwise it succeeds exactly when some entry is complete |
| CellAtlas.SaveOne | pages/08_Zellatlas.py:100-116 | one complete entry saves its image if it has one, then its YAML file, and raises exactly when its type has no `:` |
| CellAtlas.CrashIsFinal | pages/08_Zellatlas.py:114 | once the save has raised, later entries change nothing |
| CellAtlas.OnlySavableWritten | pages/08_Zellatlas.py:97-122 | every file the save writes is the image or the YAML file of a complete entry |
| CellAtlas.SavedEntryWritten | pages/08_Zellatlas.py:99-116 | every complete entry's YAML file and image are written |
| CellAtlas.AtlasForm.constructor | pages/08_Zellatlas.py:62-63 | the list starts with one empty entry |
| CellAtlas.AtlasForm.BindEach | pages/08_Referenz_Haematologie.py:50-55 | every entry takes the values of its own widgets |
| CellAtlas.AtlasForm.BindLast | pages/08_Zellatlas.py:76-88 | only the last entry is assigned, and earlier entries are kept |
| CellAtlas.AtlasForm.AddEntry | pages/08_Zellatlas.py:92-94 | one empty entry is appended |
| CellAtlas.AtlasForm.SaveAll | pages/08_Zellatlas.py:97-122 | the folder gets exactly the planned writes; the list is reset to one empty entry exactly when something was saved without a raise |
| CellAtlas.FirstEntryEdit | pages/08_Zellatlas.py:86-88 | a new type for the first entry reaches it under the reference page's binding, not under the atlas page's |
| CellAtlas.YamlListing | pages/08_Zellatlas.py:131-135 | the listing holds exactly the listed names ending in `.yaml` |
| CellAtlas.Orders | pages/08_Zellatlas.py:137-226 | the display is descending, the Word export ascending, and the PDF walk equals the display |
| CellAtlas.NewestFirst | pages/08_Zellatlas.py:138 | of two stored names with equal-width timestamps, the later one is shown first |
| CellAtlas.DeleteSet | pages/08_Zellatlas.py:165-171 | a delete removes the entry file and, when it names one that still exists, its image, and nothing else |
| CellAtlas.DeleteEntry | pages/08_Zellatlas.py:140-175 | a delete happens exactly for an entry that can be shown, and removes exactly the delete set |
| CellAtlas.DeleteIsFinal | pages/08_Zellatlas.py:165-171 | a deleted entry cannot be shown or deleted again, and other entries stay |

## Left out

- Streamlit rendering, buttons as events, reruns, `st.stop` and the confirm-delete flags: each page run is one method call, and a button press is the choice to call it.
- `DataManager`, the CSV files and `append_record`: the overview page receives its rows as a parameter, and the haematology record is returned rather than appended.
- Word and PDF content beyond the haematology sections: python-docx, reportlab and PIL are foreign libraries. Their bytes are parameters.
- YAML dump and load: a stored document is kept as a value, so loading returns what was dumped.
- The clock, `uuid4` and the remote store's transient not-found results: timestamps, hex strings and a `miss` oracle are parameters.
- Datei.ReadWithRetry: the one-second `time.sleep` between attempts is not modelled. The page catches only `FileNotFoundError`; any other read error ends the page run, while the model knows only a successful read and not-found.
- Datei.Search: a `titel` column without any text value makes pandas' `.str.lower()` raise. The model treats non-text titles as not matching instead. No page writes such a table.
- Chemie.SavedEntryIsListed: pandas reads the search term as a regular expression, so a title holding `+`, `(` or another metacharacter may not find its own entry, or makes the page raise. The lemma requires a title without them.
- Chemie.SaveImages, Chemie.SaveDocuments: the existing names are the folder's keys. `ls` may return full paths, and then the `endswith` and substring tests also see the directory part; the model does not cover that.
- Datei.Search: pandas `str.contains` reads the term as a regular expression. It is modelled as a plain substring test, so terms with regex metacharacters are not covered.
- Text.Lower: lower-cases ASCII and Latin-1 letters only. Python's full Unicode case mapping is not modelled.
- ListLiteral.Parse: reads only lists of quoted strings without escapes. Every other `literal_eval` input gives an empty list in the model. The page differs there: it lists the values of an escaped string list or a tuple, iterates over the characters of a bare string, and raises in `dict.fromkeys` on a number such as `3` (`pages/01_Datei.py:123-131`).
- ListLiteral.ParseRepr: the round trip is proved for names of printable ASCII and Latin-1 characters. Python's `repr` also leaves other printable Unicode characters unescaped, and names holding them are not covered.
- Haematologie.SplitLines: splits on `\n` only. The other line boundaries `str.splitlines` knows are not modelled.
- CellAtlas.YamlListing: `ls` may return full paths. The model keeps names as listed and applies `basename` where the page does.
- CellAtlas.DeleteEntry: a failing image read during display, or a failing delete, is modelled as "not shown". Exceptions raised between the two deletes are not modelled.
- Haematologie.SaveUploadedImages: the page saves the uploads on every rerun while they stay selected. The model covers one run.
- The other pages (start page, login, clinical chemistry, reference values) and `utils/` are not part of this model.

## Findings

| source | as written | input that shows it | evidently intended | confidence | as-written member | corrected member |
|---|---|---|---|---|---|---|
| pages/08_Zellatlas.py:86-88 | the uploader, the description and the session assignment sit after the entry loop, so only the last entry is bound | fill in entry 1, add entry 2, then choose another type for entry 1: entry 1 keeps its old type | each entry is bound to its own widgets inside the loop, as `pages/08_Referenz_Haematologie.py:50-55` does | high, not executed | CellAtlas.AtlasForm.BindLast, CellAtlas.FirstEntryEdit | CellAtlas.AtlasForm.BindEach |
