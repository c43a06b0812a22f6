# Forms and reports portal: the report renderer and the form wizard, in Dafny

This project models the core of the forms-and-reports portal.

**The report renderer** (`buildReportPdf` in `src/lib/reports/pdf.ts`) turns a form schema and its answers into a paginated PDF:
- a title block;
- then every section with its title;
- then every field as a numbered question.

Under each question comes one of two things:
- the answer, formatted by the kind of the field and word-wrapped against measured glyph widths;
- or, for a table field, a grid of bordered cells whose row heights follow their tallest cell.

**The form wizard** (`src/components/forms/FormWizard.tsx`) supplies that renderer's inputs:
- it decides when a required field counts as filled;
- it decides when a section and the whole form are valid;
- it decides which navigation buttons are enabled;
- it stores the finished PDF as base64 text.

**The editors of table answers and multi-text answers** (`TableFieldView.tsx`, `MultiTextFieldView.tsx`) build the answer values that reach the renderer.

The modules follow the program's structure:

- `JsValues`: JavaScript values as they appear in an answer map. Also: `String(v)`, `trim`, `split`, `join`, and property access that throws on `null` and `undefined`.
- `Schema`: the form definition (fields of eleven kinds, sections, the answer map).
- `AnswerFormat`: `formatPrimitive`, `toSentenceCase` and `stringifyAnswer`.
- `TextWrap`: the greedy `wrap`, as a loop proved against a recursive specification.
- `PageLayout`: the page flow as functions from one layout state to the next:
  - `ensureSpace` and `blockHeight`;
  - the title block;
  - `drawTable` with `rowHeightFor` and `drawRow`;
  - the table cells of the report.
- `ReportLayout`: the whole report as a fold over sections and fields. Its properties:
  - exactly when it throws;
  - the question numbering;
  - every drawing call lands on a page that exists.
- `ReportBuilder`: the imperative renderer. A `Builder` class holds the page count, current page, baseline, question number and drawing log that `buildReportPdf` reassigns, and a `Cursor` class holds the `yRef` of `drawTable`. Every method is proved to follow the `PageLayout`/`ReportLayout` functions.
- `FormValidation`: `isFilled`, `isSectionValid`, `isFormValid`, the active section and the navigation flags.
- `Base64`: `bytesToBase64` and `base64ToBytes`, with `btoa` and `atob` as the HTML standard defines them (the alphabet and padding of section 4 of RFC 4648, and the forgiving decoder).
- `ListEdits`, `TableEditing`, `MultiTextEditing`: the list edits of the two field editors.

How the program's JavaScript behaviour is rendered:
- **Exceptions.** Where the modelled code can throw, the model returns a `Result` whose only error is `TypeError`. Three places in the modelled code can throw (the font library's own errors are under "Left out"):
  - reading a property of a null table row, in `isFilled` and in the report;
  - calling `.trim()` on a non-string audit finding.
- **Font metrics.** These are a parameter: `Metrics` holds two width functions, for Helvetica and for Helvetica Bold.
- **The PDF document.** It is kept as its page count and the log of `drawText`/`drawRectangle` calls.

Where the code behaves differently from what its names suggest, the model follows the code:

- A missing answer to a boolean field prints the dash, because `stringifyAnswer` returns the dash for a null or empty answer before it looks at the field's kind.
- An object answer prints the properties of the answer object in its own entry order. The properties the field declares play no part.
- The key `firstName` gets the label "First Name": `toSentenceCase` only inserts a space and upper-cases the first character. It does not lower-case the words after the first.
- A table is not moved to a new page: `drawRow` reserves space against the outer baseline but draws on the page captured when the table began, from `yRef.y` downwards.
  - `PageLayout.TableGeometry` states what the code does.
  - `PageLayout.TableOverflows` shows that 28 rows started at the top of a page run below the bottom margin.

## Model

| member | source | states |
|---|---|---|
| JsValues.Trim | src/lib/reports/pdf.ts:10 | `trim` returns a string with no leading or trailing whitespace |
| JsValues.TrimShape | src/lib/reports/pdf.ts:10 | the trimmed string is the original with only whitespace removed at its two ends |
| JsValues.TrimOfTrimmed | src/lib/reports/pdf.ts:10 | trimming a trimmed string changes nothing |
| JsValues.TrimBlank | src/components/forms/FormWizard.tsx:55 | `s.trim().length > 0` exactly when `s` is not all whitespace |
| JsValues.TrimPadded | src/lib/reports/pdf.ts:10 | a trimmed string padded with whitespace on both sides trims back to itself |
| JsValues.NumberToString | src/lib/reports/pdf.ts:11 | `String(n)` of a number is a non-empty text without whitespace |
| JsValues.Lookup | src/lib/reports/pdf.ts:56 | `row[key]` is the value of an entry with that key, and undefined when no entry has it |
| JsValues.Get | src/lib/reports/pdf.ts:56 | property access throws exactly on null and undefined, and is undefined on any primitive or array |
| JsValues.Entries | src/lib/reports/pdf.ts:82 | `Object.entries` of an object is its own entries, and of a primitive is nothing |
| JsValues.Split | src/components/forms/fields/TableFieldView.tsx:69 | `split(",")` gives at least one piece, and no piece holds the separator |
| JsValues.SplitJoin | src/components/forms/fields/TableFieldView.tsx:64-69 | splitting a join at the same one-character separator gives back the pieces, when no piece holds the separator |
| JsValues.SplitWs | src/lib/reports/pdf.ts:116 | `split(/\s+/)` gives at least one word, and no word holds whitespace |
| JsValues.SplitWsOfTrimmed | src/lib/reports/pdf.ts:116 | a non-empty trimmed text splits into non-empty words only |
| Schema.AllFieldsMembers | src/lib/forms/schema.ts:68-80 | the fields of a form in document order are exactly the fields of its sections |
| AnswerFormat.OrDash | src/lib/reports/pdf.ts:37 | the fallback to the dash is never empty and keeps a non-empty `s` |
| AnswerFormat.NonEmptyMembers | src/lib/reports/pdf.ts:36 | `filter(s => s.length > 0)` keeps exactly the non-empty strings |
| AnswerFormat.NonEmptyNone | src/lib/reports/pdf.ts:36-37 | the filter keeps nothing exactly when every string is empty |
| AnswerFormat.NonEmptyAll | src/lib/reports/pdf.ts:36 | a list with no empty string passes the filter whole |
| AnswerFormat.NonEmptyConcat | src/lib/reports/pdf.ts:36 | the filter commutes with concatenation, so order is kept |
| AnswerFormat.SurvivorsEmpty | src/lib/reports/pdf.ts:33-37 | no entry survives the trim-and-filter exactly when every entry is empty once trimmed or converted |
| AnswerFormat.SurvivorsConcat | src/lib/reports/pdf.ts:33-36 | the survivors of a list are those of its first part, then those of the rest |
| AnswerFormat.JoinNonEmpty | src/lib/reports/pdf.ts:37 | joining a non-empty list of non-empty strings is non-empty, so the dash is printed exactly when nothing survived |
| AnswerFormat.MultiTextText | src/lib/reports/pdf.ts:32-38 | a non-array gives the dash; an array gives its survivors joined with ", ", or the dash when none survive |
| AnswerFormat.FormatPrimitive | src/lib/reports/pdf.ts:8-14 | `formatPrimitive`: null and undefined give the dash, a string its trimmed text or the dash, a finite number its decimal text, a non-finite number the dash, a boolean "Yes"/"No", anything else `String(v)` |
| AnswerFormat.UpperAscii | src/lib/reports/pdf.ts:18 | `toUpperCase` of one character, for the ASCII letters: the result is no lower-case ASCII letter, and any other character is kept |
| AnswerFormat.InsertSpacesSplitsAll | src/lib/reports/pdf.ts:17 | after the camel-case replacement, no lower-case letter is followed by an upper-case one |
| AnswerFormat.InsertSpacesOnlyAddsSpaces | src/lib/reports/pdf.ts:17 | the replacement only inserts spaces: with spaces removed, the key is unchanged |
| AnswerFormat.InsertSpacesFixed | src/lib/reports/pdf.ts:17 | a key with no camel-case boundary is left unchanged |
| AnswerFormat.InsertSpacesIdempotent | src/lib/reports/pdf.ts:17 | the replacement is idempotent |
| AnswerFormat.InsertSpacesAtBoundary | src/lib/reports/pdf.ts:17 | a run of lower-case letters before an upper-case letter gets exactly one space, at the boundary |
| AnswerFormat.ToSentenceCase | src/lib/reports/pdf.ts:16-19 | the label is never shorter than the key (the first character upper-cased as ASCII) |
| AnswerFormat.SentenceCaseTwoWords | src/lib/reports/pdf.ts:16-19 | a two-word camel-case key such as `firstName` becomes its two words, the first capitalised ("First Name") |
| AnswerFormat.Labelled | src/lib/reports/pdf.ts:91 | a labelled line starts with "label: " |
| AnswerFormat.PropertyLine | src/lib/reports/pdf.ts:83-104 | one object property: nullish gives no line; a string only when non-blank after trimming; a list only when something survives; numbers, booleans and objects always; every line starts with the sentence-cased key and ": " |
| AnswerFormat.ObjectLines | src/lib/reports/pdf.ts:82-105 | the kept lines are non-empty and no more than the entries |
| AnswerFormat.PropertyLines | src/lib/reports/pdf.ts:82-105 | one line per entry, the entry's own line, in entry order |
| AnswerFormat.ObjectLinesFilter | src/lib/reports/pdf.ts:82-105 | an object's lines are its entries' lines with the empty ones filtered out, order kept |
| AnswerFormat.ObjectLinesFrom | src/lib/reports/pdf.ts:82-105 | each kept line is the line of some entry |
| AnswerFormat.ObjectLinesNone | src/lib/reports/pdf.ts:82-105 | no line is kept exactly when every entry's line is empty |
| AnswerFormat.ObjectLinesCons | src/lib/reports/pdf.ts:82-105 | the lines of an object are the first entry's line, when non-empty, followed by the lines of the rest, so entry order is kept |
| AnswerFormat.ObjectText | src/lib/reports/pdf.ts:107 | an object answer is its lines joined with newlines, or the dash when there are none |
| AnswerFormat.PropertyText | src/lib/reports/pdf.ts:42-43 | `(v.key ?? "").trim()` throws exactly when the property is present and not a string |
| AnswerFormat.AuditCombine | src/lib/reports/pdf.ts:44-45 | both parts empty give the dash; evidence gives "finding-or-dash — Evidence: evidence"; a finding alone gives the finding |
| AnswerFormat.CellText | src/lib/reports/pdf.ts:58-68 | a multi-text column shows the joined list; any other column shows the cell formatted as a scalar |
| AnswerFormat.RowParts | src/lib/reports/pdf.ts:55-71 | one part per column; it throws exactly when there are columns and the row is null or undefined |
| AnswerFormat.RowLines | src/lib/reports/pdf.ts:53-75 | one "Row n: ..." line per row |
| AnswerFormat.TableThrows | src/lib/reports/pdf.ts:48-76 | formatting table rows throws exactly when there are columns and some row is null or undefined |
| AnswerFormat.StringifyBlank | src/lib/reports/pdf.ts:22 | null, undefined and "" give the dash whatever the kind of the field |
| AnswerFormat.StringifyBoolean | src/lib/reports/pdf.ts:22-26 | a boolean field prints "Yes" only for `true`, the dash when blank, and "No" otherwise |
| AnswerFormat.StringifyThrows | src/lib/reports/pdf.ts:21-113 | `stringifyAnswer` throws exactly for a non-blank audit finding with a part that is present but not a string, or a table with columns and a null row |
| AnswerFormat.StringifyAuditFinding | src/lib/reports/pdf.ts:40-46 | an audit finding reads as its trimmed finding and trimmed evidence combined: both with the evidence line, one alone, or the dash |
| AnswerFormat.StringifyMultiText | src/lib/reports/pdf.ts:32-38 | a multi-text answer prints its survivors joined with ", ", or the dash |
| AnswerFormat.StringifyObjectIgnoresDeclaration | src/lib/reports/pdf.ts:78-108 | an object answer's text does not depend on the properties the field declares, and is the text of its own entries |
| TextWrap.Widened | src/lib/reports/pdf.ts:121 | the test line is the word alone on an empty line, else the line, a space and the word |
| TextWrap.Flush | src/lib/reports/pdf.ts:124 | only a non-empty line is pushed |
| TextWrap.Wrap | src/lib/reports/pdf.ts:115-130 | the loop returns exactly the lines of the recursive specification `WrapLines` |
| TextWrap.WrapNoEmptyLines | src/lib/reports/pdf.ts:124-128 | no wrapped line is empty |
| TextWrap.WrapFits | src/lib/reports/pdf.ts:122-125 | every wrapped line fits the width, or is a single word too wide to fit alone |
| TextWrap.WrapBlank | src/lib/reports/pdf.ts:115-130 | a blank text gives no lines, and any other text at least one |
| TextWrap.WrapKeepsWords | src/lib/reports/pdf.ts:115-130 | wrapping only moves line breaks: the lines joined with spaces are the words joined with spaces |
| TextWrap.JoinConcat | src/lib/reports/pdf.ts:115-130 | joining a concatenation is joining each part with the separator between |
| PageLayout.Start | src/lib/reports/pdf.ts:235-236 | the document starts valid, with one page, the baseline at the top margin, question 1 and no drawing |
| PageLayout.EnsureSpaceSpec | src/lib/reports/pdf.ts:238-243 | a new page at the top exactly when the block would cross the bottom margin, else no change; afterwards a block no taller than the page fits |
| PageLayout.EnsureSpaceKeeps | src/lib/reports/pdf.ts:238-243 | `ensureSpace` keeps the layout valid and never removes a drawing call |
| PageLayout.LineOpsAt | src/lib/reports/pdf.ts:197-205 | line `k` of a block is drawn `k` steps below the first baseline |
| PageLayout.DrawLinesSpec | src/lib/reports/pdf.ts:325-333 | drawing lines moves the baseline 14 points per line and nothing else but the log |
| PageLayout.DrawLinesKeeps | src/lib/reports/pdf.ts:325-333 | drawn lines land on the current page and keep the layout valid |
| PageLayout.TextSpec | src/lib/reports/pdf.ts:247-259 | one `drawText` at the margin and baseline, then the baseline drops |
| PageLayout.TitleSpec | src/lib/reports/pdf.ts:245-259 | the title block does not touch the question numbering |
| PageLayout.TitleKeeps | src/lib/reports/pdf.ts:245-259 | the title block keeps the layout valid |
| PageLayout.ColCount | src/lib/reports/pdf.ts:161 | `Math.max(1, headers.length)`: at least one column, and one per header when there are headers |
| PageLayout.ColWidth | src/lib/reports/pdf.ts:162 | `Math.floor(maxW / colCount)`: the largest width whose multiple fits the page width |
| PageLayout.MaxAtLeastOneIsMax | src/lib/reports/pdf.ts:167-169 | the row's line count is at least every cell's and equals one of them, or 1 |
| PageLayout.RowHeight | src/lib/reports/pdf.ts:164-171 | a row is at least 25 points high |
| PageLayout.RowHeightTallest | src/lib/reports/pdf.ts:164-171 | a row is as high as its tallest cell, 10 points of padding plus 15 a line, and at least 25 |
| PageLayout.MaxAsWritten | src/lib/reports/pdf.ts:169 | `Math.max(...xs)` is minus infinity exactly for no arguments, and otherwise the largest argument |
| PageLayout.ZeroColumnHeader | src/lib/reports/pdf.ts:161-171 | with no columns, the row height as written is minus infinity |
| PageLayout.RowHeightAgrees | src/lib/reports/pdf.ts:164-171 | for a row with cells, the as-written height and the corrected one are equal |
| PageLayout.MaxAgrees | src/lib/reports/pdf.ts:167-169 | over counts of at least 1, `Math.max(...xs)` is the corrected maximum |
| PageLayout.LineOps | src/lib/reports/pdf.ts:197-205 | one drawing call per line, all on the page given |
| PageLayout.CellOps | src/lib/reports/pdf.ts:181-205 | a cell's border and every one of its lines are drawn on the page given |
| PageLayout.CellsOps | src/lib/reports/pdf.ts:180-206 | every border and line of a row is drawn on the page given |
| PageLayout.RowSpec | src/lib/reports/pdf.ts:173-209 | `drawRow` moves `yRef.y` down by the row height, never removes a page and leaves the numbering alone |
| PageLayout.RowsHeight | src/lib/reports/pdf.ts:215 | the data rows are at least 25 points each |
| PageLayout.RowsSpec | src/lib/reports/pdf.ts:215 | the rows move `yRef.y` down by their total height |
| PageLayout.RowsSnoc | src/lib/reports/pdf.ts:215 | each data row is drawn after the ones before it |
| PageLayout.RowKeeps | src/lib/reports/pdf.ts:173-209 | a row only adds drawing calls, all on the captured page, and keeps the table invariant |
| PageLayout.RowsKeep | src/lib/reports/pdf.ts:215 | the data rows keep the same properties |
| PageLayout.TableGeometry | src/lib/reports/pdf.ts:132-219 | `yRef.y` ends at its start less the header height, every row height and 8; every call is on the page captured at the start; the outer baseline is unchanged or at the top of a new page |
| PageLayout.TableOverflows | src/lib/reports/pdf.ts:173-215 | with 28 or more data rows, a table runs below the bottom margin of its page |
| PageLayout.RowCells | src/lib/reports/pdf.ts:286-302 | the cells of one table row are the cell texts of its columns; they throw exactly for a null row with columns |
| PageLayout.RowsCells | src/lib/reports/pdf.ts:286-303 | every row is mapped; this throws exactly when there are columns and a row is null or undefined |
| PageLayout.TableRows | src/lib/reports/pdf.ts:280-303 | a non-array answer gives no rows; an array throws exactly when there are columns and a null row |
| PageLayout.Captions | src/lib/reports/pdf.ts:284 | the headers are the column labels in order |
| PageLayout.TableFieldSpec | src/lib/reports/pdf.ts:272-318 | a table field does not touch the numbering |
| PageLayout.TableFieldKeeps | src/lib/reports/pdf.ts:272-318 | a table field keeps the layout valid and only adds drawing calls |
| PageLayout.BlockFieldSpec | src/lib/reports/pdf.ts:319-336 | a question-and-answer block does not touch the numbering |
| PageLayout.BlockFieldKeeps | src/lib/reports/pdf.ts:319-336 | a question-and-answer block keeps the layout valid and only adds drawing calls |
| PageLayout.BlockFieldGeometry | src/lib/reports/pdf.ts:321-335 | a non-table field reserves 14 points per question and answer line plus 12, then the baseline drops 14 per line plus 6 on the page the reservation chose, staying at least 6 points above the margin when the field fits a page |
| PageLayout.BlockFieldOnePage | src/lib/reports/pdf.ts:323-333 | the question and answer lines of a non-table field are all drawn on one page |
| ReportLayout.Placement | src/lib/reports/pdf.ts:272-321 | the content of a field throws exactly when its rows or its answer text throw, and is a table exactly for a table field |
| ReportLayout.FieldFlow | src/lib/reports/pdf.ts:268-337 | every field advances the question number by one and records its number and label |
| ReportLayout.FieldKeeps | src/lib/reports/pdf.ts:268-337 | placing a field keeps the layout valid |
| ReportLayout.FieldStepTable | src/lib/reports/pdf.ts:272-318 | a table field throws exactly when its rows do, and otherwise lays out its question and table, then is numbered |
| ReportLayout.FieldStepBlock | src/lib/reports/pdf.ts:319-337 | any other field throws exactly when its answer text does, and otherwise lays out its question and answer lines, then is numbered |
| ReportLayout.FieldStepIsReportStep | src/lib/reports/pdf.ts:268-337 | the report's field step does what the two lemmas above state for table and for other fields |
| ReportLayout.FieldStepThrows | src/lib/reports/pdf.ts:268-337 | the field step throws exactly when the field's content throws |
| ReportLayout.FieldStepNumbers | src/lib/reports/pdf.ts:337 | the field step numbers exactly one question |
| ReportLayout.FieldStepKeeps | src/lib/reports/pdf.ts:268-337 | the field step keeps the layout valid |
| ReportLayout.Questions | src/lib/reports/pdf.ts:261-269 | question `k` of a run of fields gets the number `first + k` and its field's label |
| ReportLayout.QuestionsConcat | src/lib/reports/pdf.ts:261-337 | numbering two runs of fields in turn continues the count across them |
| ReportLayout.SomeThrowsConcat | src/lib/reports/pdf.ts:263-340 | a field of a concatenation throws exactly when a field of one of its parts does |
| ReportLayout.FieldsThrow | src/lib/reports/pdf.ts:268-338 | the fields of a section throw exactly when one of them does |
| ReportLayout.FieldsCount | src/lib/reports/pdf.ts:268-338 | a section's fields advance the question number by their count |
| ReportLayout.FieldsNumbering | src/lib/reports/pdf.ts:268-338 | a section's fields are numbered consecutively from the current number |
| ReportLayout.FieldsKeepValid | src/lib/reports/pdf.ts:268-338 | a section's fields keep the layout valid |
| ReportLayout.SectionNumbering | src/lib/reports/pdf.ts:263-340 | one section numbers its fields consecutively |
| ReportLayout.SectionKeeps | src/lib/reports/pdf.ts:263-340 | one section keeps the layout valid |
| ReportLayout.SectionsThrow | src/lib/reports/pdf.ts:263-340 | the sections throw exactly when some field of theirs does |
| ReportLayout.SectionsCount | src/lib/reports/pdf.ts:263-340 | the sections advance the question number by the number of their fields |
| ReportLayout.SectionsNumbering | src/lib/reports/pdf.ts:263-340 | the sections number all fields consecutively across section boundaries |
| ReportLayout.SectionsKeepValid | src/lib/reports/pdf.ts:263-340 | the sections keep the layout valid |
| ReportLayout.ReportThrows | src/lib/reports/pdf.ts:225-343 | building the report throws exactly when some field's content throws |
| ReportLayout.FieldHeadingDrawn | src/lib/reports/pdf.ts:269-276 | the first drawing calls of a field are the bold wrapped lines of "n. label" for the number and label it records as its heading |
| ReportLayout.ReportNumbering | src/lib/reports/pdf.ts:261-337 | the questions are numbered 1, 2, ... across the whole form in document order, each with its label, and the count ends one past the number of fields |
| ReportLayout.ReportValid | src/lib/reports/pdf.ts:225-343 | a finished report has a current page that is its last one, and every drawing call is on a page that exists |
| ReportBuilder.Cursor.constructor | src/lib/reports/pdf.ts:305 | `yRef` starts at the given baseline |
| ReportBuilder.Builder.constructor | src/lib/reports/pdf.ts:226-236 | a new document has one page, the baseline at the top margin and question number 1 |
| ReportBuilder.Builder.EnsureSpace | src/lib/reports/pdf.ts:238-243 | the state changes exactly as `EnsureSpaceSpec` says |
| ReportBuilder.Builder.DrawText | src/lib/reports/pdf.ts:247 | `drawText` appends one call and changes nothing else |
| ReportBuilder.Builder.DrawRectangle | src/lib/reports/pdf.ts:184-191 | `drawRectangle` appends one call and changes nothing else |
| ReportBuilder.Builder.DrawLines | src/lib/reports/pdf.ts:325-333 | the line loop changes the state exactly as `DrawLinesSpec` says |
| ReportBuilder.Builder.RowHeightFor | src/lib/reports/pdf.ts:164-171 | the loop over cells computes the corrected `RowHeight`: 10 points plus 15 per line of the tallest cell, at least one line |
| ReportBuilder.Builder.DrawCellLines | src/lib/reports/pdf.ts:196-205 | the lines of one cell are drawn 15 points apart, and only the log changes |
| ReportBuilder.Builder.DrawCell | src/lib/reports/pdf.ts:181-205 | one cell draws its border and its wrapped lines, and only the log changes |
| ReportBuilder.Builder.DrawCells | src/lib/reports/pdf.ts:180-206 | the column loop draws every cell of the row, and only the log changes |
| ReportBuilder.Builder.DrawRow | src/lib/reports/pdf.ts:173-209 | `drawRow` changes the state and `yRef.y` exactly as `RowSpec` says |
| ReportBuilder.Builder.DrawRows | src/lib/reports/pdf.ts:215 | the row loop follows `RowsSpec` |
| ReportBuilder.Builder.DrawTable | src/lib/reports/pdf.ts:132-219 | `drawTable` follows `TableSpec` |
| ReportBuilder.Builder.DrawTitle | src/lib/reports/pdf.ts:245-259 | the title block follows `TitleSpec` |
| ReportBuilder.Builder.DrawSectionTitle | src/lib/reports/pdf.ts:264-266 | a section title reserves 22 points, draws the title in bold at 12 points, then drops 18 |
| ReportBuilder.Builder.AnswerLinesOf | src/lib/reports/pdf.ts:321 | the answer is split at line breaks and each line wrapped, as `AnswerLines` says |
| ReportBuilder.Builder.DrawTableAnswer | src/lib/reports/pdf.ts:273-318 | fails exactly when the rows throw; otherwise follows `TableFieldSpec` |
| ReportBuilder.Builder.DrawTextAnswer | src/lib/reports/pdf.ts:320-335 | fails exactly when the answer text throws; otherwise follows `BlockFieldSpec` |
| ReportBuilder.Builder.Question | src/lib/reports/pdf.ts:269-270 | the question is "n. label", wrapped bold at 11 points |
| ReportBuilder.Builder.Number | src/lib/reports/pdf.ts:337 | `qNum += 1`, recording the question's number and label |
| ReportBuilder.Builder.DrawTableField | src/lib/reports/pdf.ts:269-318 | a table field fails exactly when its rows throw; otherwise it is laid out and numbered |
| ReportBuilder.Builder.DrawTextField | src/lib/reports/pdf.ts:269-337 | any other field fails exactly when its answer throws; otherwise it is laid out and numbered |
| ReportBuilder.Builder.DrawField | src/lib/reports/pdf.ts:269-337 | one field fails exactly when placing it throws, and otherwise the state is the field placed |
| ReportBuilder.Builder.DrawFields | src/lib/reports/pdf.ts:268-338 | the field loop fails exactly when the fold over the fields throws, and otherwise ends in its state |
| ReportBuilder.Builder.DrawSection | src/lib/reports/pdf.ts:264-339 | one section: its title, its fields, and 8 points of space |
| ReportBuilder.Builder.DrawSections | src/lib/reports/pdf.ts:263-340 | the section loop fails exactly when the fold over the sections throws, and otherwise ends in its state |
| ReportBuilder.BuildReport | src/lib/reports/pdf.ts:225-343 | `buildReportPdf` returns the pages and drawing calls of `ReportSpec`, or its TypeError, with table rows measured by the corrected height |
| ReportBuilder.MaxUnique | src/lib/reports/pdf.ts:167-169 | a value that bounds every count and equals one of them (or 1) is the maximum the row height uses |
| FormValidation.EveryTrue | src/components/forms/FormWizard.tsx:95-96 | `every` is true exactly when every test is true |
| FormValidation.EveryThrows | src/components/forms/FormWizard.tsx:95-96 | `every` throws exactly when some test throws and all before it are true |
| FormValidation.EveryNoThrow | src/components/forms/FormWizard.tsx:114-119 | when no test throws, `every` is the conjunction of the tests |
| FormValidation.NonBlankStringMeans | src/components/forms/FormWizard.tsx:55 | `typeof v === "string" && v.trim().length > 0` exactly for a string that is not all whitespace |
| FormValidation.ColumnCheck | src/components/forms/FormWizard.tsx:96-105 | a column check throws exactly for a required column on a null or undefined row |
| FormValidation.RowCheckPasses | src/components/forms/FormWizard.tsx:96-105 | a row passes exactly when every required column's cell is filled |
| FormValidation.RowCheckThrows | src/components/forms/FormWizard.tsx:96-105 | a row check throws exactly for a null row with some required column |
| FormValidation.FirstRequired | src/components/forms/FormWizard.tsx:96-97 | the first required column |
| FormValidation.ObjectValues | src/components/forms/FormWizard.tsx:83 | one value per own entry |
| FormValidation.OptionalFilled | src/components/forms/FormWizard.tsx:46 | a field that is not required is always filled |
| FormValidation.RowsThrow | src/components/forms/FormWizard.tsx:96-107 | the rows of a table throw exactly when a null or undefined row follows passing rows and some column is required |
| FormValidation.IsFilledThrows | src/components/forms/FormWizard.tsx:45-112 | `isFilled` throws exactly for a required table with a required column whose rows pass up to a null or undefined one |
| FormValidation.RequiredTextFilled | src/components/forms/FormWizard.tsx:48-55 | a required text, tel, date, textarea, yes/no or tri-state field is filled exactly by a string that is not all whitespace |
| FormValidation.RequiredBooleanFilled | src/components/forms/FormWizard.tsx:57-59 | a required boolean is filled exactly by `true` |
| FormValidation.RequiredMultiTextFilled | src/components/forms/FormWizard.tsx:61-65 | a required multi-text field is filled exactly when it is a list with some string entry that is not all whitespace |
| FormValidation.RequiredObjectFilled | src/components/forms/FormWizard.tsx:79-88 | a required object is filled exactly when some own property is a non-empty list, a non-blank string or another non-null value |
| FormValidation.RequiredAuditFindingFilled | src/components/forms/FormWizard.tsx:67-77 | a required audit finding needs a non-blank finding, and a non-blank evidence text when evidence is required |
| FormValidation.RowsPass | src/components/forms/FormWizard.tsx:96-107 | the rows pass exactly when every row is present and fills every required column |
| FormValidation.RequiredTableFilled | src/components/forms/FormWizard.tsx:90-107 | a required table is filled exactly when it has rows and every required cell of every row is filled |
| FormValidation.SectionValidMeans | src/components/forms/FormWizard.tsx:114-116 | a section is valid exactly when every field is filled |
| FormValidation.FormValidMeans | src/components/forms/FormWizard.tsx:118-120 | the form is valid exactly when every field of every section is filled |
| FormValidation.FormValidAllFields | src/components/forms/FormWizard.tsx:118-120 | the same, over the fields in document order |
| FormValidation.FindIndex | src/components/forms/FormWizard.tsx:141 | `findIndex` is the first section with the id, or -1 when none has it |
| FormValidation.ActiveSection | src/components/forms/FormWizard.tsx:132-136 | the active section is the one with the id, else the first, and absent only for a form with no sections |
| FormValidation.NavigateSteps | src/components/forms/FormWizard.tsx:141-158 | a previous section exists, and "previous" is enabled, exactly past the first section, and it is the one before; a next section exists exactly before the last, it is the one after, and "next" is enabled exactly then and when the current section is valid |
| FormValidation.NavigateGenerate | src/components/forms/FormWizard.tsx:148-159 | generating is enabled exactly on the last section, when not busy, and when every field of the form is filled |
| FormValidation.NextThenPrev | src/components/forms/FormWizard.tsx:141-146 | with distinct section ids, "previous" from the "next" section leads back |
| Base64.EncodeChar | src/components/forms/FormWizard.tsx:35 | every 6-bit value encodes to a character of the alphabet |
| Base64.DecodeChar | src/components/forms/FormWizard.tsx:39 | decoding a character of the alphabet gives the value that encodes to it |
| Base64.DecodeEncodeChar | src/components/forms/FormWizard.tsx:35-39 | decoding inverts encoding on every 6-bit value |
| Base64.Binary | src/components/forms/FormWizard.tsx:33-34 | the binary string has one character per byte, all below U+0100 |
| Base64.CodesBinary | src/components/forms/FormWizard.tsx:34-41 | `charCodeAt` inverts `fromCharCode` on bytes, and the reverse on binary strings |
| Base64.Sextets | src/components/forms/FormWizard.tsx:35 | the 6-bit groups of some bytes never number 1 modulo 4 |
| Base64.SextetsLength | src/components/forms/FormWizard.tsx:35 | four values per three bytes, and one more than the leftover bytes |
| Base64.EncodeShape | src/components/forms/FormWizard.tsx:35 | `btoa` output is 4 characters per started group of three, all from the alphabet except a final one or two '=' |
| Base64.Btoa | src/components/forms/FormWizard.tsx:35 | `btoa` rejects exactly the strings with a character beyond U+00FF |
| Base64.Atob | src/components/forms/FormWizard.tsx:39 | what `atob` accepts decodes to a binary string |
| Base64.StripAsciiWs | src/components/forms/FormWizard.tsx:39 | no ASCII whitespace survives |
| Base64.StripAsciiWsNone | src/components/forms/FormWizard.tsx:39 | a string without whitespace is unchanged |
| Base64.StripPaddingOf | src/components/forms/FormWizard.tsx:39 | the padding `btoa` appends is exactly what `atob` removes |
| Base64.StripEncoded | src/components/forms/FormWizard.tsx:35-39 | `atob` reduces `btoa` output to its alphabet characters |
| Base64.ValuesChars | src/components/forms/FormWizard.tsx:35-39 | reading the values of the encoded characters gives the 6-bit groups back |
| Base64.GroupRoundTrip | src/components/forms/FormWizard.tsx:35-39 | each group of three, two or one bytes comes back from its four, three or two values |
| Base64.UnsextetsSextets | src/components/forms/FormWizard.tsx:35-39 | the bytes of the 6-bit groups of some bytes are those bytes |
| Base64.AtobBtoa | src/components/forms/FormWizard.tsx:35-39 | `atob(btoa(s)) == s` for every binary string |
| Base64.BytesToBase64 | src/components/forms/FormWizard.tsx:32-36 | the loop builds the binary string that `btoa` accepts, and returns its encoding |
| Base64.Base64ToBytes | src/components/forms/FormWizard.tsx:38-43 | fails exactly when `atob` throws; otherwise the array holds every character code |
| Base64.BytesRoundTrip | src/components/forms/FormWizard.tsx:32-43 | `base64ToBytes(bytesToBase64(bytes))` gives the bytes back |
| ListEdits.WithoutIndex | src/components/forms/fields/TableFieldView.tsx:24 | filtering out an index never lengthens the list |
| ListEdits.WithoutIndexSlices | src/components/forms/fields/TableFieldView.tsx:24 | dropping an index in range removes exactly that element, and an index out of range changes nothing |
| ListEdits.MapAt | src/components/forms/fields/TableFieldView.tsx:27 | mapping at one index keeps the length |
| ListEdits.MapAtUpdate | src/components/forms/fields/TableFieldView.tsx:27 | mapping at an index in range updates that element only, and out of range changes nothing |
| ListEdits.WithoutLast | src/components/forms/fields/TableFieldView.tsx:21-24 | removing the element just appended gives the list back |
| ListEdits.WithoutEdited | src/components/forms/fields/TableFieldView.tsx:24-27 | removing an element that was just edited is the same as removing it unedited |
| MultiTextEditing.Add | src/components/forms/fields/MultiTextFieldView.tsx:13 | `add` appends one empty entry to the list, or to nothing |
| MultiTextEditing.Remove | src/components/forms/fields/MultiTextFieldView.tsx:14 | `remove(i)` drops entry `i`, or nothing when `i` is out of range |
| MultiTextEditing.Update | src/components/forms/fields/MultiTextFieldView.tsx:15 | `update(i, next)` sets entry `i` and keeps the others |
| MultiTextEditing.RemoveAdded | src/components/forms/fields/MultiTextFieldView.tsx:13-14 | removing the entry just added gives the list back |
| MultiTextEditing.RemoveUpdated | src/components/forms/fields/MultiTextFieldView.tsx:14-15 | removing an entry just updated is removing it unchanged |
| TableEditing.RowsOf | src/components/forms/fields/TableFieldView.tsx:16 | a non-array answer has no rows |
| TableEditing.Keys | src/components/forms/fields/TableFieldView.tsx:20 | the keys of an object are exactly those of its entries |
| TableEditing.DistinctCons | src/components/forms/fields/TableFieldView.tsx:20 | keys are distinct exactly when the first is new and the rest distinct |
| TableEditing.DistinctTail | src/components/forms/fields/TableFieldView.tsx:20 | the rest of distinct keys is distinct and lacks the first |
| TableEditing.PutLookup | src/components/forms/fields/TableFieldView.tsx:20 | after `row[key] = v` the key reads `v` and every other key is unchanged |
| TableEditing.PutKeys | src/components/forms/fields/TableFieldView.tsx:20 | the assignment adds exactly its key |
| TableEditing.PutDistinct | src/components/forms/fields/TableFieldView.tsx:20 | the assignment keeps keys distinct |
| TableEditing.PutNew | src/components/forms/fields/TableFieldView.tsx:20 | a new key is appended at the end, keeping insertion order |
| TableEditing.NewRow | src/components/forms/fields/TableFieldView.tsx:19-20 | the column loop builds the row `FreshEntries` specifies |
| TableEditing.Ids | src/components/forms/fields/TableFieldView.tsx:20 | the column ids are exactly those of the columns |
| TableEditing.FreshEntriesKeys | src/components/forms/fields/TableFieldView.tsx:19-20 | a new row has one key per column id, all distinct |
| TableEditing.FreshEntriesInOrder | src/components/forms/fields/TableFieldView.tsx:19-20 | with distinct column ids, a new row holds each column's default in column order |
| TableEditing.Defaults | src/components/forms/fields/TableFieldView.tsx:20 | entry `k` is column `k`'s id, with `[]` for a multi-text column and `""` otherwise |
| TableEditing.DefaultsSnoc | src/components/forms/fields/TableFieldView.tsx:20 | the defaults of one more column end with its entry |
| TableEditing.FreshRowCells | src/components/forms/fields/TableFieldView.tsx:19-20 | every column of a new row reads its default |
| TableEditing.LookupDistinct | src/components/forms/fields/TableFieldView.tsx:20 | with distinct keys, each key reads its own entry |
| TableEditing.AddRow | src/components/forms/fields/TableFieldView.tsx:18-22 | `addRow` keeps every row and appends the new row |
| TableEditing.RemoveRow | src/components/forms/fields/TableFieldView.tsx:24 | `removeRow(idx)` drops row `idx`, or nothing when out of range |
| TableEditing.SetCellMeans | src/components/forms/fields/TableFieldView.tsx:26-28 | `setCell` keeps the number of rows and every other row; the edited row is an object where the column reads the new value and every other key reads as before |
| TableEditing.SetCellOfObject | src/components/forms/fields/TableFieldView.tsx:26-28 | on an object row, `setCell` is the property assignment |
| TableEditing.TrimKeepsOut | src/components/forms/fields/TableFieldView.tsx:69 | trimming adds no character |
| TableEditing.ParseListClean | src/components/forms/fields/TableFieldView.tsx:69 | every parsed entry is non-empty, trimmed and without a comma |
| TableEditing.Spaced | src/components/forms/fields/TableFieldView.tsx:64 | one piece per entry |
| TableEditing.JoinHead | src/components/forms/fields/TableFieldView.tsx:64 | a prefix on the first entry is a prefix of the join |
| TableEditing.JoinSpaced | src/components/forms/fields/TableFieldView.tsx:64-69 | joining with ", " is joining with "," after a space is put before every entry but the first |
| TableEditing.SpacedCons | src/components/forms/fields/TableFieldView.tsx:64 | the spaced entries of a list with two or more entries, in terms of its rest |
| TableEditing.TrimSpaced | src/components/forms/fields/TableFieldView.tsx:69 | trimming the spaced pieces gives back clean entries |
| TableEditing.SpacedNoComma | src/components/forms/fields/TableFieldView.tsx:69 | spaced clean entries hold no comma |
| TableEditing.ParseShown | src/components/forms/fields/TableFieldView.tsx:64-69 | parsing the display of clean entries gives back those entries |
| TableEditing.Strs | src/components/forms/fields/TableFieldView.tsx:69 | one string value per parsed entry |
| TableEditing.ShownStrs | src/components/forms/fields/TableFieldView.tsx:64 | a list of strings is displayed joined with ", " |
| TableEditing.EditShowEdit | src/components/forms/fields/TableFieldView.tsx:49-83 | a typed text cell shows what was typed; a multi-text cell shows its parsed entries joined with ", ", and the shown text parses back to the same cell |

## Left out

- The pdf-lib document is not modelled as a file: font embedding, `pdf.save()` and the bytes it writes are left out. The model keeps the page count and the log of drawing calls.
- Font metrics are a parameter. Helvetica's glyph widths are left out, and each measured width is a whole number of points. Every width the texts are compared against (516, and a column width less 12) is a whole number, so rounding up a width decides every comparison exactly as the true width would.
- Numbers are integers, NaN or the two infinities, and `String(n)` of an integer is its plain decimal digits. Left out: fractional numbers, the exponent form `String(n)` uses from 1e21 up ("1e+21"), and the precision lost by integers beyond 2^53, which JavaScript numbers cannot hold exactly. `JsValues.NumberToString` is exact only for integers below 1e21 in magnitude that a JavaScript number holds exactly.
- The font-encoding error of the standard fonts is not modelled. Helvetica and Helvetica Bold encode text as WinAnsi, so `widthOfTextAtSize` (reached through `wrap`, pdf.ts:122) and `page.drawText` throw on any character outside that set (such as "ł", "✓" or CJK text). `buildReportPdf` then rejects the form. The model's width functions are total, and `ReportLayout.ReportThrows` covers only the TypeErrors the modelled code raises itself.
- Object answers keep their entries in insertion order. The ordering JavaScript gives to integer-like keys is left out.
- JsValues.Get: `x[key]` on a string, number, boolean or array reads as undefined, and on an object only its own entries are found. JavaScript differs when a column id is an index such as "0", is `length`, or names an `Object.prototype` member such as `constructor`: `row[col.id]` (pdf.ts:56, pdf.ts:288, FormWizard.tsx:98) then reads a character, a length or an inherited function. The model is exact only for other column ids.
- `btoa` and `atob` report their "InvalidCharacterError" as `None`; no exception is modelled.
- AnswerFormat.TableText: how `stringifyAnswer` formats a table is modelled, but the report never calls it for a table field. No lemma states more than what `TableThrows` states.
- The React components (JSX, state hooks, `useMemo`, routing), the draft autosave in session storage and `downloadBytes` (Blob, object URL, anchor click) are I/O and are left out.
- `generateReport` and `downloadAgain` are left out: they only call the modelled functions and do I/O. The `busy` flag is a parameter of `Navigate`.
- AnswerFormat.UpperAscii: only 'a' to 'z' are upper-cased. JavaScript's `toUpperCase` also maps other letters ("é" to "É", a leading "ß" to "SS"); that Unicode case mapping is left out. The `[a-z][A-Z]` boundary test is ASCII-only in the source too.
- AnswerFormat.ToSentenceCase: a key starting with a non-ASCII lower-case letter keeps it, where the source upper-cases it (see `AnswerFormat.UpperAscii`).
- ReportBuilder.BuildReport: rows are measured with the corrected height, `PageLayout.RowHeight`; see the Findings. For a table field with no columns, the source's header row is minus infinity high (pdf.ts:169-170). The table's bottom and then `y` become plus infinity (pdf.ts:178, 208, 318). From then on `y - needed < margin` (pdf.ts:239) never holds, so no page is added and every later line is drawn at plus infinity. The model draws a 25-point dash header row instead and goes on paginating.
- ReportBuilder.Builder.RowHeightFor: the maximum starts at one line, so a row with no cells is 25 points high, where pdf.ts:169 gives minus infinity.
- FormValidation.NextThenPrev: stated only when the section the "next" button leads to can itself be validated without a TypeError.
- MultiTextEditing.Remove and MultiTextEditing.Update take the list as given. In the source their missing value would throw; only `add` guards with `?? []`.

## Findings

| source | as written | input that shows it | evidently intended | confidence | as-written member | corrected member |
|---|---|---|---|---|---|---|
| src/lib/reports/pdf.ts:169 | `Math.max(...linesPerCell)` over the cells of the header row | a table field with no columns: `linesPerCell` is empty, so the maximum is minus infinity and the row height is minus infinity (`PageLayout.ZeroColumnHeader`); the table's bottom `yTop - rowH` and then `y` become plus infinity (pdf.ts:178, 208, 318), so no later `ensureSpace` adds a page and every later line is drawn at plus infinity | at least one line per row, as `Math.max(1, ...)` gives each cell and as `colCount` is at least 1 | not executed | PageLayout.RowHeightAsWritten | PageLayout.RowHeight |

`PageLayout.RowHeightAgrees` proves that the two row heights agree on every row with at least one cell. `PageLayout.RowHeightTallest` proves the intended height.
