# excel_pandas core, modelled in Dafny

`excel_pandas` wraps pandas in two classes.

- `LibroPandas` (excel_pandas/libro.py) is a workbook: a name plus an insertion-ordered dictionary from sheet names to sheets. It can:
  - add, get, copy, remove and rename sheets;
  - import sheets from `.xlsx`, `.csv` and `.tsv` files, choosing Excel sheets with a printer-style range such as `"1-3,5,7-9"`;
  - build a one-sheet workbook from a BibTeX bibliography, one row per entry, including a page count derived from the `pages` field or from the attached PDF.
- `HojaPandas` (excel_pandas/hoja.py) is a named sheet (a DataFrame). It can:
  - insert a row;
  - decode LaTeX accent escapes in text columns;
  - type the bibliography columns: `Year` and `Page Count` become nullable integers, and `Keywords` is split into a `KeywordList`.

The model is functional. A sheet is an immutable `Sheet(nombre, Frame(columns, rows))`. A workbook is `Workbook(nombre, hojas)`, where `hojas` is an association list kept in dictionary insertion order, because export order and rename's move-to-end depend on it. Every operation returns a new value. Every `ValueError` the source raises becomes a `Failure` of a `Result`.

Modules, one file each:

| file | module | what it holds |
|---|---|---|
| wrappers.dfy | `Wrappers`, `Errors` | `Option`, `Result` and the error values |
| pystr.dfy | `PyStr` | Python's `strip`, `lower`, `in`, `split`, `join`, `replace` and `endswith` on strings |
| pyint.dfy | `PyInt` | Python's `int()` on strings and decimal rendering |
| latex.dfy | `Latex` | the escape table and decoder of `limpiar_columnas_latex` |
| sheets.dfy | `Sheets` | `HojaPandas`: rows, LaTeX cleaning, column typing |
| ranges.dfy | `Ranges` | `_parsear_rango_hojas` |
| workbooks.dfy | `Workbooks` | the sheet dictionary of `LibroPandas` |
| ingest.dfy | `Ingest` | `desde_excel` and `agregar_hoja_desde_archivo` |
| bib.dfy | `Bib` | `_contar_paginas` and `desde_bib` |

The model follows the code where it differs from the comments and docstrings:

- A backwards span such as `"3-1"` selects nothing and raises no error.
- The token `"0"` gives index -1. That index passes the `i < len(nombres)` guard and selects the last sheet, as Python's negative indexing does.
- The branch for one selected index plus a sheet name has no bounds check of its own. Only Python's own list indexing can fail there.
- The comment at libro.py:229 says the Mendeley path `':C:/path/to/file.pdf:pdf'` yields `'C:/path/to/file.pdf'`. The code splits on every `:`, so the drive letter is lost and `'/path/to/file.pdf'` is what gets probed (`Bib.MendeleyDropsDrive`).
- The table entry `r"\\ss"` is a raw string, so its key has two backslashes. A single `\ss` is left alone (`Latex.DecodeSingleSharpS`).
- Naming a column twice in `limpiar_columnas_latex` decodes it twice, and a second pass can change the result (`Sheets.CleanTwiceDiffers`).

## Model

| member | source | states |
|---|---|---|
| Workbooks.Empty | excel_pandas/libro.py:9-19 | A new workbook has no sheets and satisfies the workbook invariant: keys are distinct and each key is its sheet's `nombre`. |
| Workbooks.AddSheet | excel_pandas/libro.py:21-32 | Adding keeps the workbook name. An existing key keeps its place in iteration order; a new key goes last. |
| Workbooks.AddSheetSpec | excel_pandas/libro.py:32 | After adding `n`, the workbook invariant still holds, `n` looks up to a sheet named `n` holding the given frame, and every other name looks up as before. |
| Workbooks.AddSheetTwice | excel_pandas/libro.py:32 | Adding the same sheet twice gives the same workbook as adding it once: the overwrite is idempotent. |
| Workbooks.RemoveAfterAdd | excel_pandas/libro.py:72-84 | Removing a name that was just added gives back the original workbook exactly, order included. |
| Workbooks.GetSheet | excel_pandas/libro.py:34-46 | The lookup never fails. It is empty exactly when the name is absent, and in a valid workbook the sheet found carries the name asked for. |
| Workbooks.CopySheet | excel_pandas/libro.py:48-70 | Copying fails with `SheetNotFound(n)` exactly when `n` is absent. Otherwise the returned copy is named `nuevo` and holds the source's frame. |
| Workbooks.CopySheetSpec | excel_pandas/libro.py:63-70 | A successful copy is the same as adding the source's frame under `nuevo`, overwriting any sheet there. The workbook stays valid and every name other than `nuevo`, the source included, looks up as before. |
| Workbooks.RemoveSheet | excel_pandas/libro.py:72-84 | Removal fails with `SheetNotFound(n)` exactly when `n` is absent. Otherwise exactly one entry goes and the workbook name is kept. |
| Workbooks.RemoveSheetSpec | excel_pandas/libro.py:81-84 | Removing a present name keeps the invariant, makes that name absent, leaves every other lookup unchanged, and keeps the other keys in their order. |
| Workbooks.RenameSheet | excel_pandas/libro.py:98-101 | Rename fails exactly when the old name is absent or the new one is present. An absent old name is reported first, as `SheetNotFound`; otherwise a taken new name gives `SheetExists`. |
| Workbooks.RenameSheetSpec | excel_pandas/libro.py:98-104 | A successful rename keeps the invariant and removes the old name. The new name holds the same frame under its own `nombre`. The keys are the old ones in their order, with the old name taken out and the new one last. Every other name looks up as before. |
| Workbooks.RenameBack | excel_pandas/libro.py:87-104 | Renaming `a` to `b` and then `b` back to `a` both succeed and restore every lookup. |
| Ranges.ParseToken | excel_pandas/libro.py:335-339 | A part that fails is reported as a bad token. A part read as a single number has no hyphen and is that number's `int()` value, and a span has a hyphen. A hyphen-free part parses exactly when `int()` accepts it. |
| Ranges.SpanPart | excel_pandas/libro.py:335-337 | Two hyphen-free pieces that `int()` accepts, joined by `-`, form a span of their values. Padding, signs and underscores are covered too, as in `"1 - 3"` or `"+1-1_0"`. |
| Ranges.NumberRange | excel_pandas/libro.py:338-339 | A part without comma or hyphen that `int()` reads as `n` makes the range select exactly `n-1`. |
| Ranges.SpanPartRange | excel_pandas/libro.py:332-337 | A comma-free range `a-b` with `int()`-readable, hyphen-free pieces selects exactly the interval from `int(a)-1` up to `int(b)-1`. |
| Ranges.ParseRange | excel_pandas/libro.py:320-340 | A range parses exactly when each comma-separated part parses. A failure names a part that did not parse. A success is strictly increasing, so sorted and without duplicates. |
| Ranges.ParseRangeIndices | excel_pandas/libro.py:332-340 | An index is in the result exactly when some part names it: `N` names `N-1`, and `A-B` names `A-1` up to `B-1`. |
| Ranges.SingleNumber | excel_pandas/libro.py:338-339 | The range `"N"` selects the single index `N-1`, so `"0"` selects -1. |
| Ranges.RepeatedNumber | excel_pandas/libro.py:332-340 | `"N,N,…,N"` selects `N-1` once. |
| Ranges.SpanRange | excel_pandas/libro.py:335-337 | `"A-B"` selects the interval from `A-1` up to `B-1`, inclusive. |
| Ranges.BackwardsSpan | excel_pandas/libro.py:336-337 | `"A-B"` with `A > B` selects nothing and is not an error. |
| Ranges.TwoDashes | excel_pandas/libro.py:336 | `"A-B-C"` is an error, because three pieces cannot unpack into two. |
| Ranges.EmptyPartFails | excel_pandas/libro.py:333-339 | A range with an empty part is an error, as with a trailing comma, since `int("")` raises. |
| Ranges.Gather | excel_pandas/libro.py:332-340 | Adding the tokens' indices to a strictly increasing list keeps it strictly increasing. The result holds exactly the old elements and the tokens' indices, which is the job of the set and `sorted`. |
| Ingest.PyIndex | excel_pandas/libro.py:146-149 | Python list indexing succeeds exactly when `-n <= i < n`. The element it reaches is congruent to `i` modulo `n`; otherwise the error is `IndexOutOfRange(i)`. |
| Ingest.Selection | excel_pandas/libro.py:139-142 | With no range the selection is exactly `range(n)`. With a range it is the range's parse, error included. Every successful selection is strictly increasing. |
| Ingest.AddSelected | excel_pandas/libro.py:146-149 | Importing the selected indices fails exactly when some index is below `-len(nombres)`, the only case in which Python's indexing raises, and the error names such an index. Success keeps the workbook name. |
| Ingest.FromExcel | excel_pandas/libro.py:135-151 | The workbook is named after the file, and importing without a range never fails. |
| Ingest.AddSelectedAppends | excel_pandas/libro.py:146-149 | For ascending non-negative indices over distinct sheet names not yet in the workbook, the chosen sheets are appended in index order under their in-file names. Indices past the sheet count are skipped. |
| Ingest.FromExcelAll | excel_pandas/libro.py:139-151 | Without a range, every sheet of the file is imported in file order under its own name, and the workbook is valid. |
| Ingest.FromExcelSpan | excel_pandas/libro.py:142-149 | A range that parses to an interval imports exactly the sheets of that interval that exist, ascending, under their in-file names. |
| Ingest.FromExcelFromZero | excel_pandas/libro.py:142-149 | A span starting at `0` selects index -1 first. In an empty file that raises. Otherwise the last sheet comes first, followed by sheets `1 .. hi` in order, as long as `hi` stays below the sheet count. |
| Ingest.FromExcelSingle | excel_pandas/libro.py:142-149 | `"N"` imports sheet `N` (1-based) when it exists, and nothing when `N` is past the end. `"0"` imports the last sheet, and fails only on an empty file. |
| Ingest.TableName | excel_pandas/libro.py:172 | A non-empty `nombre_hoja` is the sheet name. Otherwise the name is the file name (the text after the last `/`) up to its first `.`: a prefix of the file name that is all of it or is followed by `.`, and contains no `.` and no `/`. |
| Ingest.AddFromFile | excel_pandas/libro.py:168-197 | A file is rejected as an unsupported format exactly when its lowercased extension is not csv, tsv or xlsx, and the error carries the extension. csv and tsv never fail, and the workbook name is kept. |
| Ingest.PlainFileName | excel_pandas/libro.py:168-172 | For `stem.ext` without directories, the extension is `ext` lowercased and the default sheet name is `stem`. For `stem.xlsx`, the book name is also `stem` (line 135). |
| Ingest.CsvSheet | excel_pandas/libro.py:170-173 | A csv file adds the table read with `sep` under the sheet name. The workbook stays valid and the other sheets are untouched. |
| Ingest.TsvIgnoresSep | excel_pandas/libro.py:175-178 | A tsv file ignores `sep` and reads with a tab. |
| Ingest.ExcelLikeFromExcel | excel_pandas/libro.py:180-195 | Without a sheet name, adding an xlsx file to an empty workbook gives the same sheets, or the same error, as `desde_excel` on that file. |
| Ingest.ExcelNamed | excel_pandas/libro.py:188-190 | With exactly one selected index `i` and a sheet name, the call succeeds exactly when `-n <= i < n` (no other bounds check). The sheet at Python index `i` is then stored under the given name; otherwise the error names `i`. |
| Ingest.AddSelectedRenames | excel_pandas/libro.py:144-149 | Importing into workbooks that differ only in their name gives the same sheets, or the same error. |
| Bib.RangeCountMeans | excel_pandas/libro.py:218-221 | The text strategy gives a count only when `pages` is exactly two `--`-free pieces joined by `--`, both of which `int()` accepts. The count is then `fin - inicio + 1`. |
| Bib.CountPages | excel_pandas/libro.py:217-246 | The text strategy wins whenever it gives a count. Failing that, the result is empty if the lowercased file has no `.pdf` or no `:`-piece names a PDF. Otherwise it is the probe of the first such piece, stripped. |
| Bib.PdfCount | excel_pandas/libro.py:224-246 | Without `.pdf` in the lowercased file, or without a `:`-piece naming a PDF, there is no count. Otherwise the count is the probe of the first PDF piece, stripped. |
| Bib.RangeCountOf | excel_pandas/libro.py:218-221 | The converse of `RangeCountMeans`: two `--`-free pieces that `int()` accepts, joined by `--`, count `fin - inicio + 1`. Signs and padding are covered too, as in `"-2--5"` or `" 3--+7"`. |
| Bib.PageRangeCount | excel_pandas/libro.py:218-221 | `"x--y"` counts `y - x + 1` pages, with no sign check, whatever the file. |
| Bib.MendeleyDropsDrive | excel_pandas/libro.py:226-241 | For a Mendeley value `":C:rest:pdf"` with no range in `pages`, the path probed is `rest`: the drive letter is dropped. |
| Bib.ThirdPieceCount | excel_pandas/libro.py:230-236 | When the file splits on `:` into four pieces and the first two are too short to end in `.pdf`, the third piece is probed. |
| Bib.FirstWhere | excel_pandas/libro.py:231-236 | Taking the first PDF piece gives nothing exactly when no piece qualifies. Otherwise it gives the piece at the first qualifying position. |
| Bib.PageCell | excel_pandas/libro.py:283 | The `Page Count` cell is the integer when a count exists and the empty string otherwise. |
| Bib.FromBib | excel_pandas/libro.py:293-299 | The workbook is named `articulos_bib` and holds exactly one sheet, under `nombre_hoja`, with one row per entry. |
| Bib.FromBibShape | excel_pandas/libro.py:273-298 | The workbook is valid and the frame is rectangular with distinct labels. Given any entries, the columns are the 17 fixed labels in order. |
| Bib.FromBibCells | excel_pandas/libro.py:270-295 | Row `i`, column `j` is either the LaTeX-decoded field (`""` when absent) or the page-count cell computed from `pages` and `file`. |
| Bib.LabelsDistinct | excel_pandas/libro.py:273-291 | The 17 column labels are pairwise distinct. |
| Bib.EmptyDecodes | excel_pandas/hoja.py:47-67 | An absent field stays `""` after LaTeX cleaning. |
| Sheets.NewRow | excel_pandas/hoja.py:36 | The new row has one cell per column, in column order. Each cell is the given value, or null when the column has none; keys outside the columns are dropped. |
| Sheets.InsertRow | excel_pandas/hoja.py:35-40 | Insertion keeps the name and the columns and adds one row. Rows before the position are unchanged, the new row sits at the position, and the old rows from there follow in order. |
| Sheets.InsertPosition | excel_pandas/hoja.py:39 | The slice position Python derives from `index` lies within the rows. Its meaning for each index is stated by `Sheets.InsertAt`. |
| Sheets.InsertThenRemove | excel_pandas/hoja.py:37-39 | Removing the inserted row gives back the original sheet, so no other row is disturbed. |
| Sheets.AppendRow | excel_pandas/hoja.py:37 | Without an index the row is appended, the same as inserting at the end. |
| Sheets.InsertAt | excel_pandas/hoja.py:39 | For `0 <= k <= n`, the rows are the first `k` old rows, then the new row, then the rest. For `-n <= k < 0`, exactly `-k` old rows follow the new row. Past the end the row goes last, and before the start it goes first. |
| Sheets.InsertAtMinusOne | excel_pandas/hoja.py:39 | Index -1 follows Python slicing: the new row goes just before the last one. |
| Sheets.NewRowCell | excel_pandas/hoja.py:36 | In the inserted row, column `c` holds `valores[c]`, or null when `c` is not given. |
| Sheets.DecodeValue | excel_pandas/hoja.py:47-67 | Non-strings come back unchanged. Strings come back as strings without braces and no longer than before. |
| Sheets.CleanLatex | excel_pandas/hoja.py:42-74 | Cleaning keeps the sheet name, the columns and the number of rows. |
| Sheets.CleanColumnsCells | excel_pandas/hoja.py:72-74 | Each cell is decoded once for every time its column is named. Named columns that do not exist are skipped. |
| Sheets.CleanNamedColumns | excel_pandas/hoja.py:72-74 | With explicit columns, a cell is decoded as many times as its column is named, and cells of unnamed columns are untouched. |
| Sheets.CleanDefault | excel_pandas/hoja.py:69-74 | Without explicit columns, every cell ends up decoded exactly once. |
| Sheets.CleanTwiceDiffers | excel_pandas/hoja.py:72-74 | Naming `Title` twice turns `\'{a}` into `á`, while naming it once gives `\'a`. |
| Sheets.Coerce | excel_pandas/hoja.py:82-85 | A coerced cell is an integer or null: integers are kept, and nulls and lists become null. |
| Sheets.CoerceColumnCells | excel_pandas/hoja.py:83 | Coercing one column changes only that column's cells. |
| Sheets.CoerceNumbersCells | excel_pandas/hoja.py:82-85 | `Year` and `Page Count` cells are coerced, and every other cell is unchanged. |
| Sheets.KeywordsOf | excel_pandas/hoja.py:87 | No keyword is empty, has surrounding whitespace, or contains a comma. |
| Sheets.KeywordsOfJoin | excel_pandas/hoja.py:87 | For comma-free pieces joined by commas, the keywords are the stripped pieces that are not empty, in their original order. |
| Sheets.KeywordsRoundTrip | excel_pandas/hoja.py:87 | Joining clean keywords with `", "` and splitting them again gives back the same list. |
| Sheets.NoKeywords | excel_pandas/hoja.py:87 | An empty string, which is what `fillna("")` gives for a null, has no keywords. |
| Sheets.KeywordCell | excel_pandas/hoja.py:87 | A null gives an empty list and a string gives its keywords. Any other cell is an error, because `.split` exists only on strings. |
| Sheets.KeywordColumn | excel_pandas/hoja.py:86-87 | The keyword column succeeds exactly when every `Keywords` cell is null or text, and then holds each row's keyword cell. |
| Sheets.SetColumn | excel_pandas/hoja.py:87 | Assigning a column replaces it in place when it exists and appends it last otherwise. Every other column is unchanged. |
| Sheets.TypeColumns | excel_pandas/hoja.py:76-87 | On success the sheet keeps its name, its shape and its row count. |
| Sheets.TypeColumnsFails | excel_pandas/hoja.py:86-87 | Typing fails exactly when a `Keywords` cell is neither null nor text. |
| Sheets.TypeColumnsCells | excel_pandas/hoja.py:82-85 | Apart from `KeywordList`, each column keeps its place, `Year`/`Page Count` cells are coerced, and all other cells are unchanged. |
| Sheets.TypeColumnsKeywords | excel_pandas/hoja.py:86-87 | With a `Keywords` column, `KeywordList` is replaced in place or appended last, and row `i` holds the keywords of row `i`'s `Keywords` cell. |
| Latex.ReplacementsAreEscapes | excel_pandas/hoja.py:50-64 | Every key in the table is a backslash escape of at least three characters, and every replacement is a single character. |
| Latex.DecodeText | excel_pandas/hoja.py:65-67 | Decoded text contains no braces. |
| Latex.DecodeShrinks | excel_pandas/hoja.py:50-67 | Decoding never makes text longer. |
| Latex.DecodePlain | excel_pandas/hoja.py:65-67 | Text without backslashes or braces comes through unchanged. |
| Latex.DecodeAcute | excel_pandas/hoja.py:51 | `\'a` decodes to `á`. |
| Latex.DecodeBracedAccent | excel_pandas/hoja.py:65-67 | `\'{a}` decodes to `\'a`, because braces are dropped only after the replacements. A second pass gives `á`. |
| Latex.DecodeDoubledSharpS | excel_pandas/hoja.py:63 | The raw key `\\ss`, with two backslashes, decodes to `ß`. |
| Latex.DecodeSingleSharpS | excel_pandas/hoja.py:63 | `\ss`, with one backslash, is left as it is. |
| PyStr.Split | excel_pandas/libro.py:333 | `str.split` returns at least one piece. Joining the pieces with the separator gives the input back, and no piece contains the separator. Each separator is the leftmost one: no occurrence starts inside a piece and runs into the next separator, which fixes the result for `"---".split("--")`. |
| PyStr.SplitUnique | excel_pandas/libro.py:219-220 | Any pieces that rejoin to `s`, are separator-free and are split leftmost are exactly `s.split(sep)`. |
| PyStr.FirstPiece | excel_pandas/libro.py:172 | `split(sep)[0]` is a separator-free prefix. When it is not all of `s`, the first occurrence of `sep` follows it. |
| PyStr.LastPiece | excel_pandas/libro.py:135 | `split(sep)[-1]` is a separator-free suffix. When it is not all of `s`, an occurrence of `sep` precedes it. |
| PyStr.SplitJoin | excel_pandas/libro.py:333 | Splitting on a one-character separator undoes joining pieces that lack it. |
| PyStr.ReplaceIsJoinOfSplit | excel_pandas/hoja.py:66 | `str.replace` is splitting on the pattern and joining with the replacement. |
| PyStr.StripPadded | excel_pandas/hoja.py:87 | `strip` removes exactly the whitespace around stripped text. |
| PyInt.ParseShow | excel_pandas/libro.py:339 | `int()` reads back every rendered integer. |
| PyInt.ParsePadded | excel_pandas/libro.py:221 | `int()` ignores whitespace around the numeral. |
| PyInt.NoDigitNoInt | excel_pandas/libro.py:336-339 | A string without a decimal digit, such as `""`, is not an integer. |

## Left out

- File reading and writing. `pd.read_excel`, `pd.read_csv`, `open` and `guardar_como_excel` (libro.py:301-312) are left out. An Excel file is given as its list of named frames (`Book`). A csv/tsv reader is a function parameter `readCsv(path, sep)`.
- BibTeX parsing (`bibtexparser.load`, libro.py:266-267). The entries are given as input, each a list of field/value pairs.
- PDF probing. `os.path.normpath`, `os.path.exists` and `fitz.open` (libro.py:236-241) are a parameter `probe` that returns an optional page count. The `print` warnings and the exception handler around them (libro.py:242-245) are left out, since a failed probe is just an empty result.
- `pd.to_numeric(..., errors="coerce")` is a parameter `num` from text to an optional integer. Floating-point values are not modelled.
- Sheets.TypeColumnsFails: its "exactly when" holds only for integer-valued `Year` and `Page Count` cells. On a non-integral number, such as `"3.5"`, `astype("Int64")` raises `TypeError` (hoja.py:83, hoja.py:85). The model has no such values and does not raise there.
- dtype inference. `select_dtypes(include="object")` is abstracted as "the column holds some text or list cell".
- `__str__` of both classes (libro.py:109-117, hoja.py:91-92) is formatting for display only.
- excel_pandas/hoja_semantica.py (clustering, word clouds, plots) and run.py (a demo script) are not part of this model.
- `_constructor` (hoja.py:26-33) is not a separate member. Every sheet operation carries the `nombre` over, which is what it arranges.
- Python exceptions are not modelled as partial mutations; the model returns only the error.
  - In the import loops, an `IndexError` for an index below `-len(nombres)` leaves the earlier sheets added.
  - `tipificar_columnas` overwrites `Year` (hoja.py:83) and `Page Count` (hoja.py:85) before `x.split` raises on a non-text `Keywords` cell (hoja.py:87). The sheet is left with those two columns already typed.
- Aliasing and in-place mutation. The model returns new values, so it does not show the following:
  - `limpiar_columnas_latex` and `tipificar_columnas` change the sheet itself and return `None` (hoja.py:72-87).
  - `obtener_hoja` returns the stored object (libro.py:46), so a caller's later changes to it change the workbook.
  - `copiar_hoja` stores the copy and returns that same object (libro.py:69-70), so a caller's later changes to the returned sheet change the workbook's `nuevo` sheet. The model's `CopySheet` returns the workbook and the copy as two independent values.
  - `renombrar_hoja` sets `.nombre` on the moved object itself (libro.py:104).
  - `self.nombre = nombre` (hoja.py:24) on a frame that already has a column `nombre` writes that column through pandas' attribute assignment, since `nombre` is not declared in `_metadata`. The sheet's `nombre` attribute is then not the key it is stored under.
- `None` versus `""` for `nombre_hoja`: both are falsy in `nombre_hoja or …` and in `and nombre_hoja`, so the model uses `""` for both.
- Ingest.PlainFileName: stated only for paths without directories. For the general case, TableName states that the fallback name is the file name after the last `/`, up to its first `.`.
- Ingest.FromExcelSpan: stated for intervals starting at a non-negative index. Ranges.SpanRange shows that `"A-B"` parses to the interval from `A-1` up to `B-1`. A span starting at `0` starts at index -1, which FromExcelFromZero covers only while `hi` is below the sheet count. Beyond that, the loop reaches the last sheet a second time and re-adds it in its place; that case is not stated.
- PyInt.ParseShow and the rest of `ParseInt`: Python's `int()` also accepts non-ASCII decimal digits. The model accepts ASCII digits, an optional sign, single underscores between digits and surrounding whitespace.
- PyStr lower-casing is ASCII-only. That is exact for the comparisons the source makes against `.pdf`, `csv`, `tsv` and `xlsx`.
- Duplicate column labels in a frame are excluded by `WellFormed` in the cell-level lemmas. pandas allows them, but then `self[col]` selects several columns at once.
