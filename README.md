# termofardamento in Dafny

A Dafny model of the text-processing core of `app.py`, the generator of
uniform-receipt documents ("termos de recebimento de fardamento"). For every
student row of a spreadsheet sheet, the program fills the placeholders of a
word-processing template and names the resulting file. The model covers the
following parts:

- **Text normaliser** (`normalize`). It strips a cell's text and collapses each
  whitespace run to one space (module `Text`). Python's `str.replace` is
  modelled in `Replace`, and a first-match search in `Search`.
- **Header-row locator** (`detect_header_row`). It makes two prioritised scans
  over the first rows of a raw grid (module `HeaderLocator`). The scans are
  written as while loops, proved against a specification function.
- **Column mapper** (`map_columns` and its inner `pick`). It builds an
  insertion-ordered dictionary from normalised header keys to original column
  labels, then picks, for each semantic field, the first label matching its
  candidate substrings in priority order (module `FieldMapper`). The
  dictionary is a sequence of key/label pairs; a duplicate key overwrites the
  value in place.
- **Substitution table** (`build_mapping`). It holds fifteen literal
  placeholders in dictionary order. It is applied one key after another
  (module `Substitution`), together with the reading of a row's optional
  fields (`app.py:161-163, 165`).
- **Paragraph merger** (`replace_in_paragraph`). A method over an array of
  style runs, updated in place. **Document walker** (`replace_placeholders_doc`):
  nested loops over body paragraphs, table cells, and section headers and
  footers (module `DocumentMerger`).
- **Sheet-name parser** (`parse_sheet_name_nice`, module `SheetName`) and the
  **file names** of the output documents, working folder and archive (module
  `FileNames`).

The document walker is specified by visit counts. The document library hands
out the same paragraph object more than once: a merged table cell appears in
every grid column it spans, and a header linked to the previous section is
that section's header. So the walker's postcondition says that each paragraph
ends up as `replace_in_paragraph` applied as many times as the walk reaches
it, with no assumption that paragraphs are distinct. A paragraph reached once
(the usual case) ends up as one application. A paragraph that contains no
placeholder is left exactly as it was, however often it is reached.

`parse_sheet_name_nice` returns the combined "grade / course" label as both of
its results. When the sheet name has no second segment, the course part is the
raw sheet name, and when it has no leading number, so is the grade part.
`build_mapping` has fifteen entries.

## Model

| member | source | states |
|---|---|---|
| Text.Strip | app.py:10 | the result has no whitespace (`str.isspace`) at either end |
| Text.StripKeeps | app.py:10 | stripping removes whitespace only: the non-whitespace characters are kept, in order |
| Text.StripIsSlice | app.py:10 | the stripped text is one contiguous slice of the input; with `Strip` and `StripKeeps` this pins `Strip` to `str.strip()` |
| Text.CollapseClassChars | app.py:11 | after `re.sub(r"\s+", " ", s)` every whitespace character is a single space that is not followed by more whitespace |
| Text.CollapseKeeps | app.py:11 | collapsing runs keeps every other character, in order |
| Text.NormalizeIsNormal | app.py:8-12 | `normalize` output has no whitespace at either end, and every whitespace character in it is a lone `' '` |
| Text.NormalIsFixpoint | app.py:8-12 | a string already in that form is returned unchanged |
| Text.NormalizeIdempotent | app.py:8-12 | normalising twice gives the same result as normalising once |
| Text.NormalizeKeepsText | app.py:8-12 | `normalize` keeps every non-whitespace character, in order |
| Text.CollapseSplice | app.py:11 | a whole run of class characters between two non-class characters (or the ends) becomes exactly one replacement character, and the text on either side is collapsed independently |
| Text.NormalizeSplice | app.py:8-12 | two normalised non-empty pieces joined by any whitespace run normalise to the pieces joined by one space |
| Text.ContainsAt | app.py:17 | `t in s` holds only when `t` occurs at some position of `s` |
| Text.AtContains | app.py:17 | an occurrence of `t` at any position of `s` makes `t in s` hold |
| Replace.ReplaceIsSplitJoin | app.py:56 | `s.replace(pat, rep)` equals `rep.join(s.split(pat))`: text between occurrences is kept and each occurrence becomes `rep` |
| Replace.SplitPiecesFree | app.py:56 | no piece between the replaced occurrences still contains the pattern |
| Replace.SplitJoinRoundTrip | app.py:56 | splitting on a separator and joining with it again gives back the input |
| Replace.ReplaceAbsent | app.py:55-56 | replacing a pattern that does not occur leaves the text unchanged |
| Replace.ReplaceCharAt | app.py:171 | replacing one character by another preserves the length and maps each position independently |
| Replace.RemoveCharGone | app.py:26 | `.replace(".", "")` leaves no dot and never lengthens the key |
| Search.FirstIndex | app.py:15-22 | the index found is the smallest in the range whose element passes the test; None exactly when no element in the range passes |
| HeaderLocator.ScanLimit | app.py:15 | `range(min(max_rows, len(df_raw)))`: the scan covers at most `max_rows` rows and never more than the grid has, it is exactly one of the two for a non-negative bound, and a negative bound scans nothing |
| HeaderLocator.DetectHeaderRow | app.py:14-23 | the two early-return loops compute `HeaderRow`: first pass, then second pass, then None |
| HeaderLocator.StudentRowWins | app.py:15-18 | the first row in the limit with a cell containing `"ALUNO"` is the header |
| HeaderLocator.IdRowFallback | app.py:19-22 | when no row passes the first scan, the first row with a `"MAT"` cell and a `"CPF"`, `"RG"` or `" RG"` cell is the header |
| HeaderLocator.NoHeaderRow | app.py:23 | the result is None when no row in the limit passes either scan |
| HeaderLocator.HeaderRowSound | app.py:14-23 | any row returned lies within the limit and is minimal for the scan that found it; the second scan is used only when the first finds nothing |
| HeaderLocator.DefaultHeaderRow | app.py:14-15 | for the call without a bound (line 128), the default of 60 makes the scan cover `min(60, rows)` rows, and a header found is one of the first 60 rows of the grid |
| FieldMapper.Assign | app.py:26 | dictionary assignment: an existing key keeps its position and takes the new label, a new key is appended, and every other key's value is unchanged |
| FieldMapper.NormMapLookup | app.py:26 | the label stored under a key is the last column with that key |
| FieldMapper.NormMapKeys | app.py:26 | the dictionary's keys are the normalised column keys, each once, in order of first occurrence |
| FieldMapper.NormMapLabels | app.py:26 | every stored label is one of the columns, stored under its own key |
| FieldMapper.Pick | app.py:27-32 | `pick` returns None if and only if no key contains any candidate |
| FieldMapper.PickColumn | app.py:27-32 | the nested early-return loops of `pick` compute `Pick` |
| FieldMapper.PickFirstMatch | app.py:27-32 | a picked label comes from the earliest candidate that any key contains, and from the first key (in insertion order) containing it |
| FieldMapper.StudentColumnMissing | app.py:34 | the student column is absent exactly when no normalised header contains `"ALUNO"` |
| FieldMapper.MapColumnsLabels | app.py:33-37 | every field `map_columns` finds is one of the sheet's own column labels |
| Substitution.FieldText | app.py:161-163 | (and line 165) an absent column, an empty label or a missing cell gives `""`; otherwise the result is the cell's text stripped, so it has no whitespace at either end |
| Substitution.BuildMapping | app.py:86-95 | the table has fifteen entries, none of them None |
| Substitution.MappingKeysDistinct | app.py:86-95 | the fifteen placeholders are pairwise distinct, so no literal entry is overwritten and the order is the listed one |
| Substitution.NoHitNoChange | app.py:54-58 | when no key occurs at its turn, `changed` stays false and the text is unchanged |
| Substitution.NoKeyNoHit | app.py:54-58 | when no key occurs in the text at all, nothing is substituted and `changed` stays false |
| Substitution.SubstAppend | app.py:54-57 | substitution is sequential: the later part of the table works on the output of the earlier part |
| Substitution.SubstOne | app.py:55-57 | a single entry replaces every occurrence of its key by its value (None becoming `""`) and keeps the text in between |
| DocumentMerger.ReplaceInParagraph | app.py:48-61 | the runs afterwards are `ParagraphResult` of the runs before (empty paragraph untouched; on a hit, run 0 holds the new text with bold off and other runs emptied) |
| DocumentMerger.ParagraphText | app.py:51-60 | the paragraph's joined text afterwards is the joined text with every key substituted, in table order |
| DocumentMerger.ParagraphCollapsed | app.py:58-61 | after a hit, the whole text lives in run 0 (bold false); every other run keeps its bold flag but has empty text |
| DocumentMerger.ParagraphWithoutKeys | app.py:50-58 | a paragraph containing no key keeps every run's text and bold flag |
| DocumentMerger.Visited | app.py:63-75 | any number of passes keeps the number of runs |
| DocumentMerger.ReplaceInParagraphs | app.py:64 | each paragraph of a list has been through one more pass per occurrence in the list |
| DocumentMerger.ReplaceInCells | app.py:67-68 | the same, for every paragraph of every cell of a row |
| DocumentMerger.ReplaceInRows | app.py:66-68 | the same, for every row of a table |
| DocumentMerger.ReplaceInTables | app.py:65-68 | the same, for every table |
| DocumentMerger.ReplaceInPart | app.py:70-75 | one `try` block: every paragraph of a header or footer that can be reached has had one more pass per occurrence; one that cannot be reached changes nothing |
| DocumentMerger.ReplaceInSection | app.py:70-75 | the same, for one section's header and then its footer |
| DocumentMerger.ReplaceInSections | app.py:69-75 | the same, for every section's header and footer that can be reached |
| DocumentMerger.ReplacePlaceholdersDoc | app.py:63-75 | every paragraph reached ends as `replace_in_paragraph` applied once per visit; one visit means one application; a paragraph without keys is left unchanged |
| DocumentMerger.VisitedFixpoint | app.py:63-75 | a paragraph the merger leaves alone stays unchanged however often it is visited |
| DocumentMerger.CountPositive | app.py:63-75 | every paragraph the walk reaches is processed at least once |
| SheetName.LeadingNumber | app.py:79 | a captured number is a non-empty run of digits |
| SheetName.LeadingNumberFound | app.py:79-80 | the number is the whole digit run that follows the leading whitespace |
| SheetName.LeadingNumberMissing | app.py:79 | there is no number exactly when no whitespace prefix of the name is followed by a digit |
| SheetName.NoLeadingNumber | app.py:79-80 | without a number, no digit follows the leading whitespace, and `serie` is the raw sheet name |
| SheetName.SplitOnce | app.py:81 | one part exactly when the stripped name has no `_`, whitespace or `-`; the first part holds no separator and the second does not start with one |
| SheetName.SplitOnceJoin | app.py:81 | the two parts are the text on either side of the first separator run |
| SheetName.SplitOnceOf | app.py:81 | a separator-free segment, a separator run and a rest not starting with a separator split into exactly that segment and that rest |
| SheetName.CourseOfSplit | app.py:81-82 | when the stripped name is a segment, a separator run and a rest, the course is `"Técnico em "` plus the title-cased rest with `_` read as space |
| SheetName.CourseWithoutSeparator | app.py:81-82 | when the stripped name has no separator, the course is the raw sheet name |
| SheetName.TitleIdempotent | app.py:82 | title-casing twice is title-casing once |
| SheetName.TitleSameLetters | app.py:82 | title-casing changes only the case of letters; uncased characters stay as they are |
| SheetName.CourseHasNoUnderscore | app.py:82 | a course built from a second segment contains no underscore |
| SheetName.ParseSheetNameNice | app.py:77-84 | both results are the same string, the grade, `" / "` and the course, so it starts with the grade followed by `" / "` |
| FileNames.SafeNameIsSafe | app.py:171 | the safe student name has no `/`, `\` or space, and no whitespace at either end |
| FileNames.SafeNameOfSafe | app.py:171 | a name that is already safe comes out unchanged |
| FileNames.SafeNameIdempotent | app.py:171 | sanitising twice is sanitising once |
| FileNames.SafeNameWithoutSeparator | app.py:171 | a name without `/` or `\` becomes its stripped text with every space turned into `_`, character by character |
| FileNames.SafeNameSplice | app.py:171 | a run of `/` and `\` between two separator-free pieces becomes exactly one `_`, and the spaces of each piece become `_` |
| FileNames.OutputFileNameFlat | app.py:172 | `Termo_<safe>.docx` contains no path separator, so the document is written inside the output folder |
| FileNames.ArchiveNameIsFolderName | app.py:176 | the archive's name is the working folder's name (line 155) plus `.zip`, and contains no `/` |

## Left out

- `unidecode` transliteration (app.py:10) is not part of this model. Cell texts, header labels and the sheet name that `normalize` turns into the folder and archive names (app.py:155, 176) are taken as already transliterated, and `Upper` is ASCII upper-casing, which is exact on the transliterator's ASCII output.
- `\d` in the sheet-name pattern is modelled as the ASCII digits. Python also accepts other Unicode decimal digits.
- SheetName.Title: it covers ASCII and Latin-1 letters. The characters `ß`, `ÿ` and `µ` are treated as cased but not remapped (Python writes `Ss`, `Ÿ`, `Μ`), and characters beyond Latin-1 count as uncased.
- `fmt_date` (app.py:39-46) is not part of this model. It relies on the spreadsheet library's date parsing and timestamp types; in the model the birth-date field is an input string.
- Spreadsheet reading, `str()` of cell values and the `notna` test (app.py:119-149, 160-165) are not part of this model. A row is a map from column label to cell text, and a missing cell is a missing key.
- The document library is not part of this model. A paragraph is an array of runs carrying only text and bold, and a section's header or footer is absent (`None`) when reaching it raises, which the code swallows. An exception in the middle of a header's paragraphs is not modelled.
- DocumentMerger.ReplacePlaceholdersDoc: it requires the document's paragraphs to be allocated objects, which every document passed to it satisfies.
- FieldMapper.MapColumns: it carries no contract of its own. Its student field is described by `StudentColumnMissing`, and every field by `Pick`'s and `MapColumnsLabels`'s contracts.
- The web interface, session state and selection of rows (app.py:99-150) are not part of this model. Neither are folder creation and removal, nor zip packaging (app.py:155-157, 177-182). Only the names involved are modelled.
