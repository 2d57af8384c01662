# Alumni table of the IAR dashboard, in Dafny

This project models the alumni table of the IAR dashboard (`script.js`). The model covers:

- the `TableManager` view state: the filter pass, pagination and its controls, row selection and the two delete handlers;
- the `ModalManager` handlers that change the table: form validation, add, update and clear all;
- the page pass that `ModalManager`'s constructor runs.

The table body is the record store. A row is a `Rows.Record`, and `records` is the sequence of rows in table order.

- **Node identity.** Each row carries a `key`, which stands for the DOM node. The selection (`selectedRows`, a set of nodes in the source) is a set of keys. The id badge text cannot serve as the key, because ids can repeat after a deletion.
- **Two flags per row.** `visible` is the `data-visible` attribute; only the filter pass writes it. `shown` is "style is not `display: none`"; only the page pass writes it.
- **Notifications and dialogs.** A notification is a returned `Notice(message, severity)`. A `confirm()` dialog is a boolean parameter.
- **Form and table.** The update form holds a `FormData`. The pagination line, the page controls, the header check box, the delete button and the "No results found." message are fields of the `TableManager` class.

Modules, one per file:

- `Text` (text.dfy): trimming, ASCII case mapping, substring search, decimal digits, `padStart`, `split(' ')` and `join`.
- `Form` (form.dfy): `validateForm`, including the email regular expression.
- `Rows` (rows.dfy): the row record, the new row of `addAlumniToTable`, the update write, removal of nodes, and the visible, displayed and selected views.
- `Filters` (filters.dfy): the filter pass of `applyFilters`.
- `Paging` (paging.dfy): the page count, the page pass of `showCurrentPage`, the pagination line and the controls of `updatePagination`.
- `Selection` (selection.dfy): the header check box and the delete button.
- `Table` (table.dfy): `class TableManager` and its handlers.
- `Modal` (modal.dfy): the `ModalManager` handlers, which take the table manager as a parameter.

Where the source loops or updates state, the model does too.

- The handlers are methods of `TableManager` that reassign its fields.
- `applyFilters`, `showCurrentPage`, `selectAll`, the removal of deleted rows and the control builder of `updatePagination` are `while` loops with invariants.
- Each of those methods is proved against a function of its inputs (`Refiltered`, `Paged`, `Without`, `PageControls`).
- The lemmas prove what those functions promise.

The model keeps four behaviours of the code as they are written:

- An added row gets no `data-visible` attribute and no display style. It therefore does not count toward any page, and it stays displayed whatever page is current until the next page pass (`goToPage`, `applySettings`, a delete) or filter pass (`Modal.AddedRow`, `Modal.PagePassHidesAddedRow`).
- An update does not recompute the row's `data-visible` flag. The rewritten row keeps its flags, so an edited row that no longer matches the filters stays visible.
- The header check box reads as fully checked when no row is displayed (`Selection.HeaderMeaning`).
- `goToPage` ignores an out-of-range page rather than clamping it.

## Model

| member | source | states |
|---|---|---|
| Text.Trim | script.js:1061-1063 | `trim()` is a slice of the text with only white space before and after it; it is empty exactly when the text is all white space, and otherwise neither starts nor ends with white space |
| Text.ContainsIff | script.js:1085 | `includes` holds exactly when the needle occurs at some position of the text |
| Text.Split | script.js:598 | `split(' ')` gives at least one piece, no piece holds a space, and joining the pieces with spaces gives back the text |
| Text.PadStart | script.js:597 | `padStart(width, fill)` is the text, prefixed with fill characters up to `width`; longer text is kept whole |
| Text.ParseNatToString | script.js:597 | `String(n)` reads back as `n` |
| Text.NatToStringWidth | script.js:597 | `String(n)` has at most three digits exactly when `n < 1000` |
| Text.NatToStringThreeDigits | script.js:597 | `String(n)` has at least three digits exactly when `n >= 100`, so `padStart(3, '0')` pads exactly the numbers below 100 |
| Form.MissingOf | script.js:561-562 | the missing list holds exactly the required fields that are empty or blank, in the order of the required list |
| Form.EmailShapeIsPattern | script.js:570-571 | an email matches `^[^\s@]+@[^\s@]+\.[^\s@]+$` exactly when it is a non-empty run, `@`, then a non-empty run, `.`, and a non-empty run, with no white space or `@` in the runs |
| Form.ValidateForm | script.js:560-577 | the form is accepted exactly when no required field is missing and the email matches. A missing field rejects with the non-empty, ordered list of exactly the missing fields, before the email is checked. An invalid email rejects only when nothing is missing |
| Form.ValidationNotice | script.js:564-573 | both rejections are reported with error severity |
| Form.BlankEmailIsMissing | script.js:562-566 | a blank email is reported as a missing field, never as an invalid address |
| Rows.OrDash | script.js:615-616 | an empty job title or company is shown as `-`; any other text is shown as typed; the cell is never empty |
| Rows.PadId | script.js:597 | the id badge of the n-th row is all digits, reads back as n, and is three characters wide exactly when n < 1000; it starts with a padding zero exactly when n < 100, and from 100 on it is `String(n)` unpadded |
| Rows.Initials | script.js:598 | the avatar initials are the first character of every piece of `name.split(' ')`, empty pieces giving nothing, upper-cased, in order; never longer than the name |
| Rows.WordStartsSplit | script.js:598 | the one-pass scan for word starts agrees with `split(' ')` followed by `map(n => n[0]).join('')` |
| Rows.NewRow | script.js:597-616 | the new row carries the form's name, email, department and year, dashes for an empty job title or company, and the badge of its count. It has no `data-visible` and is displayed |
| Rows.Overwrite | script.js:287-311 | after the update write the six form fields read back as the form's values; the node, the id badge, the avatar and both flags are kept |
| Rows.OverwriteSameForm | script.js:249-254 | saving the update form as `handleUpdateSelected` filled it leaves the row unchanged |
| Rows.SelectedRowsMembers | script.js:238 | the rows listed as selected are exactly the table's rows whose node is in the selection |
| Rows.RemoveRows | script.js:1031-1033 | the loop of `row.remove()` calls leaves exactly `Without(rows, gone)` |
| Rows.WithoutKeeps | script.js:1031-1033 | after removal, the nodes left are the old nodes minus the removed ones; every kept row is an old row whose node was not removed; the table does not grow |
| Rows.WithoutTwice | script.js:1031-1033 | removing two node sets one after the other is removing their union |
| Rows.WithoutOne | script.js:1047 | removing one present node from a table of distinct nodes removes exactly one row |
| Rows.WithoutNone | script.js:1047 | removing nodes that are not in the table changes nothing |
| Rows.WithoutUnique | script.js:1031-1033 | removal keeps the nodes distinct |
| Rows.AppendFresh | script.js:635 | appending a newly created node keeps the nodes distinct and adds exactly that node |
| Filters.FilterPass | script.js:1065-1093 | the loop marks every row exactly as `Refiltered` does and counts the rows it marks visible |
| Filters.RefilteredNodes | script.js:1066-1093 | the filter pass keeps every node in its place |
| Filters.SentinelsNormalized | script.js:1062-1063 | the pre-normalised sentinels `all departments` and `all years` give the same selector values as `(value or 'All …').toLowerCase().trim()` |
| Filters.DefaultFiltersInactive | script.js:766-770 | the initial search term and selectors make no filter active |
| Filters.InactiveMatches | script.js:1081-1087 | with no filter active, every row matches |
| Filters.InactiveFiltersShowAll | script.js:1081-1093 | with no filter active, the filter pass marks every row visible |
| Filters.RefilterIdempotent | script.js:1059-1093 | filtering twice with the same settings is filtering once |
| Filters.CaseInsensitive | script.js:1061-1085 | upper-casing the search term, either selector on its own, or all three together does not change whether a row matches |
| Filters.SearchFindsName | script.js:1085 | a search term that occurs in the lower-cased name finds the row |
| Paging.TotalPagesOf | script.js:884-888 | there is always at least one page, and exactly one page for an empty result |
| Paging.TotalPagesFit | script.js:887 | the page count is the least number of pages that holds the rows: the last page is non-empty and not over-full |
| Paging.PageAfter | script.js:916-920 | a page past the last is sent back to page 1 and any page up to the last is kept, so a page from 1 always ends in range |
| Paging.PagePass | script.js:890-910 | the loop shows a visible row exactly when its rank among the visible rows lies in the window, and hides every other row (`Paged`) |
| Paging.PagedShowsWindow | script.js:890-910 | the page pass changes only the display flags, keeps the nodes and the visible count, and leaves the flags in the window's shape |
| Paging.WindowIsSlice | script.js:893-903 | the displayed rows are exactly the window's slice of the visible rows, in table order |
| Paging.PageNotEmpty | script.js:890-903 | an existing page of a non-empty result displays between one row and a page's worth |
| Paging.InfoCountsShownRows | script.js:921-929 | the "Showing a-b of n" line counts exactly the rows displayed, within 1..n |
| Paging.ButtonsPages | script.js:940-942 | the numbered buttons of `lo..hi` carry the pages `lo..hi` in order; only the current one is active |
| Paging.NumbersPages | script.js:939-957 | up to five pages all get a button; beyond that, a leading 1 when the window starts after 1, the window `[max(1,cur-2), min(total,cur+2)]`, and a trailing total when it ends before it |
| Paging.PagesOrdered | script.js:939-957 | the page buttons run strictly upward from 1 to the page count |
| Paging.PagesCoverWindow | script.js:939-957 | every page within two of the current page has a button, and with up to five pages every page has one |
| Paging.DotsMarkGaps | script.js:946-955 | a dots marker comes before the window exactly when it starts after 2, and after it exactly when it ends before `total-1` |
| Paging.OneActivePage | script.js:937-959 | exactly one numbered button is active, and it is the current page |
| Paging.PreviousNextDisabled | script.js:937-959 | the controls start with Previous, disabled exactly on page 1, and end with Next, disabled exactly on the last page |
| Paging.RenderButtons | script.js:940-942 | the loop appends exactly the buttons `lo..hi`, the current page active |
| Paging.RenderControls | script.js:935-960 | the string-building loops produce exactly `PageControls` |
| Selection.SelectedCount | script.js:993-997 | the checked rows never outnumber the rows; their count equals the row count exactly when all are checked, and is positive exactly when one is |
| Selection.HeaderMeaning | script.js:991-998 | the header box is checked exactly when every displayed row is selected, and indeterminate exactly when some but not all are; never both; checked when nothing is displayed |
| Selection.DeleteButtonMeaning | script.js:1003-1009 | the delete button is disabled exactly when nothing is selected; its caption is `Delete` then, and otherwise `Delete (n)`, whose number reads back as the selection size |
| Selection.ShownKeysMembers | script.js:965 | the check boxes `selectAll` reaches are exactly those of the displayed rows |
| Selection.SelectAllChecks | script.js:964-978 | after selecting all displayed rows, a recount of the header box finds it checked and not indeterminate |
| Selection.DeselectAllClears | script.js:964-978 | after deselecting all displayed rows, with at least one displayed, a recount of the header box finds it cleared |
| Selection.ShownRowsAreShown | script.js:965 | every displayed row is reached by `selectAll` |
| Table.TableManager.constructor | script.js:764-807 | defaults of page 1, four rows a page (or the saved page size), no search, both "All" selectors and nothing selected; the table drawn from page 1 with its line and controls |
| Table.TableManager.ShowCurrentPage | script.js:890-910 | the rows become the page pass of the current page's window; the nodes and the visible count are kept |
| Table.TableManager.UpdatePagination | script.js:912-962 | the current page is sent back to 1 when past the last; the line and the controls are those of that page |
| Table.TableManager.Redraw | script.js:1036-1037 | after the two steps, the page is in range and displayed, the table is exactly `Drawn` from its rows and old page, and a non-empty result displays between one row and a page's worth |
| Table.TableManager.ApplySettings | script.js:790-801 | a new page size is taken and the table is redrawn from page 1; the same size changes nothing |
| Table.TableManager.GoToPage | script.js:875-882 | a page from 1 to the page count becomes current and is displayed; any other request changes nothing |
| Table.TableManager.SelectAll | script.js:964-978 | exactly the displayed rows' nodes join (or leave) the selection, and no other changes; the header holds the clicked state; the button is recounted |
| Table.TableManager.MarkShown | script.js:965-976 | the loop over the displayed rows' check boxes adds (or removes) exactly the displayed rows' nodes, one row at a time, and the selection keeps holding only nodes created before the next one |
| Table.TableManager.HandleRowSelection | script.js:980-1001 | the toggled check box belongs to a row of the table; only that row's node joins or leaves the selection, so the selection keeps holding only nodes created before the next one; the header is recounted over the displayed rows; the button is recounted |
| Table.TableManager.UpdateDeleteButton | script.js:1003-1009 | the button is that of the selection size |
| Table.TableManager.ClearSelections | script.js:1011-1025 | nothing is selected, the header box is cleared and the button disabled |
| Table.TableManager.RemoveNodes | script.js:1031-1033 | the removed nodes leave the table; the other rows stay in order and the nodes stay distinct |
| Table.TableManager.HandleDelete | script.js:1027-1043 | with an empty selection or no confirmation nothing changes. Otherwise every selected row is removed and the selection emptied, so it stays within the table; the table is redrawn from the current page, which stays in range and displayed; when any row is still counted, between one row and a page's worth is displayed |
| Table.TableManager.RemoveRow | script.js:1047-1049 | the row leaves the table and its node the selection; a selection within the table stays within it; the button is recounted |
| Table.TableManager.HandleRowDelete | script.js:1045-1057 | with confirmation the row leaves both the table and the selection, a selection within the table stays within it, and the table is redrawn from the current page, displaying at least one row when any is still counted; otherwise nothing changes |
| Table.TableManager.DisplayedPageFilled | script.js:890-903 | a displayed, existing page of a non-empty result shows between one row and a page's worth |
| Table.TableManager.ReportMatches | script.js:1100-1126 | with a filter active the line reads "Showing m of n (filtered)" against the whole table, otherwise it is recomputed; "No results found." is displayed exactly when nothing matches |
| Table.TableManager.FilterAndRedraw | script.js:1060-1098 | every row's `data-visible` is recomputed from the three filters; the table is then redrawn from page 1; the count returned is the number of matches |
| Table.TableManager.ApplyFilters | script.js:1059-1127 | the table is the refiltered rows drawn from page 1, the nodes are kept, the line is the filtered count or the page line, and "No results found." shows exactly when nothing matches |
| Table.TableManager.HandleSearch | script.js:1129-1132 | the query becomes the search term and the table is refiltered with it from page 1; the pagination line reports the matching count against the whole table when a filter is active and is the page-1 line otherwise; "No results found." is displayed exactly when nothing matches |
| Table.TableManager.SelectDepartment | script.js:850-853 | the selector value is taken and the table refiltered from page 1; the pagination line reports the matching count against the whole table when a filter is active and is the page-1 line otherwise; "No results found." is displayed exactly when nothing matches |
| Table.TableManager.SelectYear | script.js:854-857 | the selector value is taken and the table refiltered from page 1; the pagination line reports the matching count against the whole table when a filter is active and is the page-1 line otherwise; "No results found." is displayed exactly when nothing matches |
| Modal.AddedRow | script.js:597-635 | after the append, the earlier rows are unchanged; the new last row's id reads back as the new row count; no visible row is added, and the new row is displayed after the rows displayed before |
| Modal.PagePassHidesAddedRow | script.js:904-908 | the next page pass hides the added row, since it is not counted as visible |
| Modal.AddAfterDeleteRepeatsId | script.js:597 | after the first of n numbered rows is deleted, the next added row gets the same id as the last row |
| Modal.AppendNode | script.js:635 | the appended node is new, the table grows by exactly that row, and the nodes stay distinct |
| Modal.AddAlumniToTable | script.js:593-636 | the table becomes the old rows followed by the new row numbered one past the old row count; the new row's node is not selected |
| Modal.HandleAddAlumni | script.js:212-235 | a rejected form shows validation's notice and changes nothing; an accepted one reports success and appends exactly one row, whose node is not selected |
| Modal.SelectedForUpdate | script.js:237-260 | no selected row and several selected rows are refused with their two distinct notices; exactly one fills the form with that row's six fields |
| Modal.FindSelected | script.js:283-286 | the loop counts the selected rows and finds the first of them in table order |
| Modal.OverwriteRow | script.js:290-311 | the row at the position found is rewritten in place and the nodes stay distinct |
| Modal.HandleUpdateAlumni | script.js:262-350 | a rejected form changes nothing; with other than one selected row the update is refused and nothing changes. Otherwise only that row's fields change, to the form's values; it leaves the selection; no selected row remains; the delete button is recounted |
| Modal.UpdateSelectedRow | script.js:283-341 | the selection-count branch of the update and its write, as for `HandleUpdateAlumni` |
| Modal.RewriteKeepsView | script.js:287-311 | the update keeps every node, id and flag in place, the visible count and the page window; rows of other nodes are untouched |
| Modal.HandleClearAll | script.js:534-540 | with confirmation the table is emptied and nothing else changes, so a non-empty selection is left naming rows that are gone; otherwise nothing changes |
| Modal.ModalShowCurrentPage | script.js:739-759 | `ModalManager`'s page pass, with JavaScript numbers as bounds, is `JsPaged` |
| Modal.JsPagedFinite | script.js:739-759 | with integer bounds, that pass is `TableManager`'s page pass |
| Modal.UndefinedPageHidesAll | script.js:88-91 | with `currentPage` and `recordsPerPage` undefined, the pass hides every row |
| Modal.DeleteAsWritten | script.js:1027-1043 | after a delete, the rows still counted are those of the table after removal, yet no row is displayed |
| Modal.RowDeleteAsWritten | script.js:1045-1057 | after a row delete, the rows still counted are those of the table after removal, yet no row is displayed |
| Modal.DeleteHidesRemainingRow | script.js:1036-1041 | two visible rows on page 1 of four, and the first is deleted: the redraw displays the other row, and the page pass of the notifier then hides it |

## Left out

- Notifications are returned `Notice` values. Their markup, icons and timed removal (`showNotification`, `removeNotification`) are not modelled.
- `confirm()` is a boolean parameter of the handlers that ask it.
- The saved page size comes from `localStorage`, `JSON.parse` and `parseInt`. It is a parameter of the constructor and of `ApplySettings`. It must be positive. With a zero size and some visible row, the page count is infinite (script.js:887, 916): the line reads "Showing 1-0 of n alumni", the last page button is labelled "Infinity", and the page pass hides every row. A zero size with no visible row, or a non-numeric one, makes the page arithmetic NaN. A negative size gives an empty window (script.js:894-895), so every row is hidden.
- Modal open, close and focus, `clearForm` and `loadSettingsToForm`: these only show or reset the dialogs.
- Export, backup, restore and import: file I/O through Blob, URL and `window.open`.
- `ThemeManager`, `SidebarManager`, `AnimationManager` and the `DOMContentLoaded` start-up: DOM, CSS and timer plumbing. The start-up's final `applyFilters` call is `Table.TableManager.ApplyFilters` on the constructed table.
- `getDepartmentClass` and the department badge's CSS class: presentation only.
- Rows.NewRow: `addAlumniToTable` builds the row with `innerHTML` (script.js:603-616), so a form value holding `<`, `>` or `&` is parsed as markup rather than kept as text. The model assumes form values hold no markup characters and stores each value as typed. The update handler writes `textContent` (script.js:297-312) and keeps text as typed in every case.
- Case mapping is ASCII only; JavaScript's full Unicode `toLowerCase`/`toUpperCase` is not modelled.
- Rows.RowText: the white space between cells in `row.textContent` comes from the markup's indentation. It is modelled as a single space (`CellGap`). A search term spanning two cells may therefore match differently from the page.
- The missing `tbody` early return of `addAlumniToTable` and the `if (nameSpan)`/`if (deptBadge)` guards of the update: the markup always provides these elements.
- The try/catch of `handleUpdateAlumni` and its "Error updating alumni record" notice: no statement inside the try block can throw on the markup the page builds.
- The debug `console.log` calls.
- Each `new ModalManager()` in the delete handlers also binds a second set of dialog listeners. A later click on Save then runs the add or update handler twice: the second run sees the cleared form and reports missing fields. Event dispatch is not modelled. The extra page pass of that constructor is modelled (see Findings).
- Form.ValidationNotice: its contract states only the error severity; the message texts are those of the source.

## Findings

| source | as written | input that shows it | evidently intended | confidence | as-written member | corrected member |
|---|---|---|---|---|---|---|
| script.js:1040, 1054 with 78-91, 739-759 | To notify, `handleDelete` and `handleRowDelete` construct a `new ModalManager()`. Its `init` runs `ModalManager.showCurrentPage`, which reads `currentPage` and `recordsPerPage` fields that `ModalManager` never sets. The page bounds are NaN, every comparison fails, and every row is hidden right after the table was redrawn | two visible rows, four per page, page 1; select the first and delete it: the remaining row is counted in the line but not displayed | after a delete, the current page of the remaining rows stays displayed, as `TableManager.showCurrentPage` just drew it | not executed | Modal.DeleteAsWritten | Table.TableManager.HandleDelete |
