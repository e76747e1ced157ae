# RazerGenie custom editor, modelled in Dafny

This project models RazerGenie's custom lighting editor, the `CustomEditor`
dialog. The dialog keeps a colour model of a Razer device's LED matrix. It
builds a grid of matrix buttons that depends on the device type: the matrix
discovery grid, a keyboard laid out from a JSON layout description, or the
mousemat strip. Button clicks paint cells and send the affected row to the
device. The dialog can also load and export a JSON colour scheme.

Modules:

- `Wrappers`: `Option`.
- `Json`: already-parsed Qt JSON values (`QJsonValue`, `QJsonObject`,
  `QJsonArray`).
  - A missing key or index reads as `Undefined`.
  - Objects keep their keys sorted, so `Put` is a sorted insert.
  - The non-const `operator[]` inserts a `Null` member for a missing key
    (`SubscriptValue`, `SubscriptObject`).
- `Colors`: RGB colours, `Black` and `Green`.
- `LibOpenRazer`: the `Device` handle.
  - Its queries (matrix dimensions, type, keyboard layout, name) are
    constants.
  - `setKeyRow` and `setCustom` append to a `trace` of commands.
  - Whether a command succeeds is given by an oracle `respond`, from the
    command's position in the trace.
- `Layout`: the pure part of layout generation.
  - Which grid a device gets.
  - Which locale of the layout description is used.
  - The button/spacer trees that each builder produces, as functions.
- `Scheme`: the exported matrix of colour names, the merge of a device
  section into the scheme, and the outcome of loading a scheme.
  - `LoadColoursAsWritten` is the code as written.
  - `LoadColours` is the corrected version (see Findings).
- `Editor`: the `CustomEditor` class.
  - Fields: colour model, selected colour, draw mode, grid, registered
    buttons, layout description, scheme, "closed" and "halted" flags.
  - One method per member function of the dialog.
  - The loops stay loops.
  - Each method is proved against the `Layout` or `Scheme` function that
    specifies it.

The environment is passed in as parameters, so the model performs no I/O:

- `files`: the layout asset read from the development or the installed
  location.
- `scheme`: the colour scheme file (missing, unparsable, or a document).
- `exportToJson`: the `exportToJSON` setting.
- `name`: `QColor::name`.
- `picked`: the colour the colour dialog returns (`None` when cancelled).

## Model

| member | source | states |
|---|---|---|
| Json.ContainsIndex | src/customeditor/customeditor.cpp:157 | `contains(k)` holds exactly when some member of the object has key `k` |
| Json.ValueSpec | src/customeditor/customeditor.cpp:197 | `value(k)` on a missing key is Undefined; on a present key it is the value of a member with that key |
| Json.SubscriptReads | src/customeditor/customeditor.cpp:195-196 | the non-const `obj[k]` reads what the object holds after `k` has been inserted; afterwards `k` is present and every other key reads as before |
| Json.PutMembers | src/customeditor/customeditor.cpp:469-470 | after an insert, every member is either the new one or an old one |
| Json.PutValue | src/customeditor/customeditor.cpp:469-470 | after `obj[k] = v`, `k` is present with value `v`; every other key keeps its presence and its value |
| Json.SortedUnique | src/customeditor/customeditor.cpp:497-499 | the keys of an object held in sorted order are pairwise distinct |
| Json.PutSorted | src/customeditor/customeditor.cpp:497-499 | inserting into an object with sorted keys keeps its keys sorted, and so pairwise distinct |
| LibOpenRazer.Device.SetKeyRowCall | src/customeditor/customeditor.cpp:314 | one `setKeyRow` command is appended to the trace, and its result is the device's answer to that command |
| LibOpenRazer.Device.SetCustomCall | src/customeditor/customeditor.cpp:317 | one `setCustom` command is appended to the trace, and its result is the device's answer to that command |
| Layout.PlanGrid | src/customeditor/customeditor.cpp:61-96 | discovery overrides the device type; a keyboard gets a keyboard grid; a mousemat gets the strip exactly when it is 1 x 15, and otherwise no grid; any other type gets no grid |
| Layout.PlanGridKeyboardAssets | src/customeditor/customeditor.cpp:64-80 | a keyboard of 6 x 16, 6 x 22 or 6 x 25 loads razerblade16, razerdefault22 or razerblade25; other dimensions load no asset |
| Layout.PlanClosesExactly | src/customeditor/customeditor.cpp:61-96 | the dispatch itself closes the dialog exactly when discovery is off and either the dimensions are unknown for a keyboard or mousemat, or the type is neither |
| Layout.FirstPresentSpec | src/customeditor/customeditor.cpp:166-179 | the fallback search finds nothing exactly when no candidate locale is present; otherwise it finds a present candidate with no present candidate before it |
| Layout.FirstPresentUnique | src/customeditor/customeditor.cpp:169-175 | a candidate that is present, with none present before it, is the one the search returns (the loop breaks at the first hit) |
| Layout.ResolveLocale | src/customeditor/customeditor.cpp:156-180 | the chosen locale is always one the description contains; the dialog closes exactly when the reported locale is known but missing, or when no locale is found |
| Layout.ResolveLocaleSpec | src/customeditor/customeditor.cpp:156-180 | a known reported locale that the description contains is used without closing; otherwise the first fallback present is used; the chosen locale is always in the description; the dialog closes exactly when the reported locale is known but missing, or when no locale is found |
| Layout.NoLocaleCloses | src/customeditor/customeditor.cpp:176-179 | with neither the reported locale nor any fallback in the description, no locale is chosen and the dialog closes |
| Layout.KeyNodeSpec | src/customeditor/customeditor.cpp:193-218 | a key becomes a button exactly when it has a label that is not null, so a missing label gives a 66 x 69 spacer; the button shows the label; its width is "width" when present and 60 otherwise; its height is 63; it is tagged exactly when "matrix" is present, with that array's first two entries; it is enabled exactly when "disabled" is absent |
| Layout.RowButtons | src/customeditor/customeditor.cpp:192-219 | the buttons registered for one row are exactly those of its labelled keys, in key order |
| Layout.KeyboardRegistry | src/customeditor/customeditor.cpp:184-221 | the keyboard builder registers exactly the buttons of the labelled keys, row after row and key after key; unlabelled keys give only spacers |
| Layout.LabelledButtonsShape | src/customeditor/customeditor.cpp:195-206 | there are no more keyboard buttons than keys; each has the fixed height 63 and is the button of some labelled key |
| Layout.LabelledButtonsAppend | src/customeditor/customeditor.cpp:184-221 | the labelled buttons of two runs of keys, one after the other, are the buttons of the first run followed by those of the second |
| Layout.DecimalValue | src/customeditor/customeditor.cpp:230 | the decimal string `QString::number` writes for `n` reads back as `n` |
| Layout.MousematLabelValue | src/customeditor/customeditor.cpp:230 | the label of mousemat button i reads back as the column i |
| Layout.DiscoveryLabelInjective | src/customeditor/customeditor.cpp:253 | the label "i_j" of a discovery button determines its cell (i, j): two cells with the same label are the same cell |
| Layout.MousematRegistry | src/customeditor/customeditor.cpp:229-237 | the mousemat builder registers one button per column, in column order, the i-th tagged with (0, i) |
| Layout.DiscoveryRegistry | src/customeditor/customeditor.cpp:250-262 | the discovery builder registers rows * cols buttons in row-major order, with cell (i, j) at position i * cols + j |
| Layout.CellGridMembers | src/customeditor/customeditor.cpp:250-262 | every registered discovery button belongs to some cell of the matrix |
| Layout.RowStartIsProduct | src/customeditor/customeditor.cpp:250-262 | row i of a row-major registry starts at i * cols |
| Scheme.DiscoveryInGrid | src/customeditor/customeditor.cpp:253-254 | every discovery button is tagged with a cell inside the matrix |
| Scheme.MousematInGrid | src/customeditor/customeditor.cpp:230-231 | every mousemat button is tagged with a cell inside the one-row matrix |
| Scheme.InsertAt | src/customeditor/customeditor.cpp:486 | `QJsonArray::insert(i, x)` puts x at index i, keeps the elements before i, shifts those from i one place right, and adds exactly x to the contents |
| Scheme.Populate | src/customeditor/customeditor.cpp:481-488 | the fill loop keeps the number of rows, and each row grows by the number of buttons tagged with it |
| Scheme.PopulateRowContents | src/customeditor/customeditor.cpp:482-488 | after the fill loop each row holds what it started with plus the colour names of the buttons tagged with that row |
| Scheme.PopulateUntouchedRow | src/customeditor/customeditor.cpp:482-488 | a row that no button is tagged with keeps its initial contents |
| Scheme.NoButtonInExtraRow | src/customeditor/customeditor.cpp:473 | no in-range button is tagged with the extra row that the allocation loop (`i <= dimens[0]`) adds |
| Scheme.ExportMatrixShape | src/customeditor/customeditor.cpp:472-488 | the exported matrix has rows + 1 rows; row r has cols empty names plus the colour names of the buttons of row r; the last row stays cols empty names |
| Scheme.MergeSection | src/customeditor/customeditor.cpp:495-501 | after the merge the scheme has an entry for the device, and that entry is the new section |
| Scheme.MergeSectionFacts | src/customeditor/customeditor.cpp:469-501 | after the merge the device's entry is the new section; a non-empty scheme keeps every other entry; an empty scheme becomes a fresh object holding only "Name", "Author" and the device section; keys stay sorted |
| Scheme.LoadColoursAsWritten | src/customeditor/customeditor.cpp:387-432 | as written: a missing or unparsable file leaves the scheme unchanged; a parsed scheme always ends up with an entry for the device; the early return is taken only for an entry stored as Undefined, which a QJsonObject never holds; a scheme without the device reaches `abort()` |
| Scheme.AsWrittenUnknownDeviceHalts | src/customeditor/customeditor.cpp:420-430 | as written, a parsed scheme without an entry for the device still reaches `abort()`, and the lookup leaves a Null entry for the device |
| Scheme.AsWrittenEmptySchemeHalts | src/customeditor/customeditor.cpp:420-430 | as written, the empty scheme `{}` with the device "Razer BlackWidow Chroma" reaches `abort()` |
| Scheme.LoadColours | src/customeditor/customeditor.cpp:387-432 | a missing or unparsable file leaves the scheme unchanged; a parsed one becomes the scheme; it returns early exactly when the device has no entry, and reaches `abort()` exactly when it has one |
| Scheme.LoadColoursAgreeOnKnownDevice | src/customeditor/customeditor.cpp:420-430 | when the device's entry is present, the code as written and the corrected lookup end the same way and leave the same scheme |
| Editor.BlackModel | src/customeditor/customeditor.cpp:40-47 | the initial colour model is rows rows of cols black entries |
| Editor.AllocateMatrix | src/customeditor/customeditor.cpp:472-479 | the allocation loop builds rows + 1 rows of cols empty names |
| Editor.PopulateMatrix | src/customeditor/customeditor.cpp:481-488 | the fill loop computes the matrix that `Scheme.Populate` specifies |
| Editor.CustomEditor.constructor | src/customeditor/customeditor.cpp:30-105 | the model is all black; green is selected; draw mode is Set; the grid, registry, layout description and closed flag are those of the dispatch; with export on for a keyboard the scheme is loaded and nothing is sent to the device; otherwise clearAll's commands are sent |
| Editor.CustomEditor.BuildGrid | src/customeditor/customeditor.cpp:58-96 | the grid built, the buttons registered, the layout description loaded and the closed flag are those specified for the dispatch decision |
| Editor.CustomEditor.BuildKeyboard | src/customeditor/customeditor.cpp:64-81 | the keyboard branch: the layout description is the loaded asset (none when the dimensions have no asset or it does not open); the dialog closes when the asset is missing or the locale resolution closes it; the keyboard is generated in any case and its buttons registered |
| Editor.CustomEditor.CloseWindow | src/customeditor/customeditor.cpp:114-118 | the dialog is marked closed and nothing else changes |
| Editor.CustomEditor.GenerateMatrixDiscovery | src/customeditor/customeditor.cpp:247-264 | one row per matrix row, a button "i_j" tagged (i, j) per cell; exactly those buttons are appended to the registry, in order |
| Editor.CustomEditor.GenerateMousemat | src/customeditor/customeditor.cpp:225-239 | one button per column, labelled with the column and tagged (0, column); exactly those buttons are appended to the registry |
| Editor.CustomEditor.SelectKeyboardLayout | src/customeditor/customeditor.cpp:153-180 | the rows used are those of the resolved locale (none when no locale is found); the dialog is closed exactly when the locale resolution closes it |
| Editor.CustomEditor.GenerateKeyboard | src/customeditor/customeditor.cpp:150-223 | the keyboard grid is the row layouts of the resolved locale; their buttons are appended to the registry; the closed flag follows the locale resolution |
| Editor.CustomEditor.GenerateKeyRows | src/customeditor/customeditor.cpp:182-221 | one row layout per member of the locale's object, in member order; their buttons are appended to the registry row after row |
| Editor.CustomEditor.GenerateKeyRow | src/customeditor/customeditor.cpp:190-219 | one node per key of the row: a button for a labelled key, a 66 x 69 spacer otherwise; the row's buttons are appended to the registry |
| Editor.CustomEditor.GenerateKey | src/customeditor/customeditor.cpp:193-218 | a key whose label does not read as null becomes a button (label text, width from "width" or 60, height 63, position from "matrix", disabled when "disabled" is present), which is registered; any other key becomes a spacer |
| Editor.CustomEditor.ParseKeyboardJson | src/customeditor/customeditor.cpp:266-297 | it succeeds exactly when the development or the installed asset opens, preferring the development one, and the layout description becomes that document's object; on failure the description is unchanged |
| Editor.CustomEditor.UpdateKeyrow | src/customeditor/customeditor.cpp:299-302 | the row is sent to the device, then `setCustom` only if the row was accepted; the result is true exactly when both were accepted |
| Editor.CustomEditor.ClearAll | src/customeditor/customeditor.cpp:304-330 | every row is blanked on the device in row order, then `setCustom` is sent; the model becomes all black |
| Editor.CustomEditor.ColorButtonClicked | src/customeditor/customeditor.cpp:332-353 | a picked colour becomes the selected colour; a cancelled dialog changes nothing |
| Editor.CustomEditor.OnMatrixPushButtonClicked | src/customeditor/customeditor.cpp:355-375 | only the clicked button's cell changes: to the selected colour in Set mode, to black in Clear mode; then updateKeyrow's commands are sent for that row |
| Editor.CustomEditor.SetDrawStatusSet | src/customeditor/customeditor.cpp:377-380 | the draw mode becomes Set |
| Editor.CustomEditor.SetDrawStatusClear | src/customeditor/customeditor.cpp:382-385 | the draw mode becomes Clear |
| Editor.CustomEditor.LoadColours | src/customeditor/customeditor.cpp:387-432 | the scheme and the halted flag become those the corrected `Scheme.LoadColours` gives |
| Editor.CustomEditor.ExportToJson | src/customeditor/customeditor.cpp:447-517 | for a non-keyboard nothing is written and the scheme is unchanged; for a keyboard the scheme becomes the device section merged into it, and that scheme is the document written |
| Editor.CustomEditor.Close | src/customeditor/customeditor.cpp:107-112 | the destructor exports exactly when exporting is on and the device is a keyboard, and otherwise changes nothing |

## Left out

- Widgets and painting are not modelled: the main controls (`generateMainControls`, lines 120-148), palettes, button colours in the view (`setButtonColor`, `resetButtonColor`) and the dialog's own layouts. The grid is modelled as a tree of buttons and spacers.
- Message boxes, info dialogs and `qDebug` output are not modelled; they do not affect state.
- Files, `QStandardPaths`, `QSettings` and `QColorDialog` are not modelled; their results are parameters. Writing the exported scheme to disk is replaced by returning the document written.
- JSON text parsing is not modelled: the model works on parsed documents, and an unparsable layout asset reads as Null, whose object is empty.
- `QColor::name` is a function parameter `name`.
- `abort()` is modelled as the `halted` flag. Every handler, `ExportToJson` and `Close` require `!halted`, because the process has ended.
- The unknown-dimensions message on line 78 and on line 88 is output only; the close that follows each is modelled.
- `generateMouse` (lines 241-245) is not modelled: it only returns an empty layout, and its call on line 92 is commented out. The keypad branch (lines 82-83) is commented out as well.
- The third branch of the draw-status test (lines 370-371) is not modelled. `drawStatus` is only ever assigned `set` or `clear` (lines 53, 379 and 384), and the branch only logs.
- `arr[0]` and `arr[1]` on line 202 read outside a "matrix" array shorter than two elements, which Qt does not define. The model reads such an index as Undefined, whose `toInt` is 0.
- JSON numbers are reals, as Qt's doubles are, and `toInt` gives 0 for a non-integral number. The 32-bit range of `toInt` and the rounding of doubles are not modelled.
- Integers are unbounded: matrix dimensions and key widths are not limited to 32 bits.
- Documents from `files` and `scheme` are not required to be sorted with unique keys, as a real QJsonObject is. For an unsorted document, the row order of generateKeyboard is the document's member order. `Value` then reads the first member with a key.
- Objects in the model can hold a member whose value is Undefined. A QJsonObject never does, because inserting Undefined removes the key.
- Dimensions are `nat`: `QList<int>` dimensions from the daemon are assumed non-negative.
- `exportToJSON` re-reads the dimensions on line 468; the model uses the same constant dimensions, because the device's dimensions do not change.
- Editor.CustomEditor.OnMatrixPushButtonClicked: requires the clicked button to carry a position inside the matrix. `MatrixPushButton` is not part of this model, so neither the position of an untagged button nor Qt's indexing outside the matrix is known.
- Editor.CustomEditor.ExportToJson: requires, for a keyboard, every registered button to carry a position inside the matrix, for the same reason.
- Editor.CustomEditor.Close: has the same precondition as ExportToJson, which it calls.
- Editor.CustomEditor.constructor: uses the corrected `Scheme.LoadColours` rather than the code as written; the code as written is `Scheme.LoadColoursAsWritten` (see Findings).

## Findings

| source | as written | input that shows it | evidently intended | confidence | as-written member | corrected member |
|---|---|---|---|---|---|---|
| src/customeditor/customeditor.cpp:422 | `config[devName].isUndefined()` uses the non-const `operator[]` of the member `config`, which inserts a Null entry for a missing key, so the test is never true and `abort()` on line 430 is reached for every parsed scheme | a parsed scheme `{}` and the device "Razer BlackWidow Chroma" | a scheme without an entry for the device returns early ("Will be added to colormap on save") | not executed | Scheme.LoadColoursAsWritten, Scheme.AsWrittenEmptySchemeHalts | Scheme.LoadColours |
