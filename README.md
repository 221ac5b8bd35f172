# Query view state of the CouchDB query builder

This project models the view state behind the query screen of a browser UI for a
CouchDB-like document database (`QueryComponent` in `src/app/query/query.component.ts`).
The operator picks a database, ticks filters, pages through results, selects rows and
copies or downloads what they selected. The component delegates querying to a service;
what it does itself, and what is modelled here, is:

- the list of selected filters, kept to at most one filter per field by evicting the
  first entry on the same field before a new filter is appended (`FilterList`);
- the page cursor and its guarded moves, and the request/response pair of
  `executeQuery` (`QueryView.QueryComponent`);
- the multi-select row selection with its count-based "all selected" test
  (`RowSelection`);
- the two text exports: the de-duplicated, quoted list of one field's values and the
  JSON list of documents (`ExportText`);
- the merged filter list, the table columns and the fallback to the first database
  (`DbConfig`).

`QueryTypes` holds the shared values. Filter and row identity (JavaScript object
identity) is an `id`/`ref` number. The selection is a duplicate-free list in insertion
order, because the exports read it in that order. `JSON.stringify` is a function
parameter `str: Doc -> string` about which nothing is assumed. Only the query call is
split in two: `ExecuteQuery` returns the request it makes (`Option<QueryRequest>`, `None`
when none is made) and `OnQueryResult` takes the response. For the settings and the
database list only the response side is modelled: `OnSettingsLoaded` and `LoadAllDbs`
take the loaded settings and the listed databases as parameters, and no method returns
the requests that start those loads (`initializeMeta`, `listAllDbs`, and the
`loadAllDbs()` call made once the settings arrive).

The selection is not cleared when new rows arrive, so the selected rows need not be rows
of the table. The model does not assume that they are. `isAllSelected` compares only
counts. `AllSelectedIffEveryRowSelected` shows that this equals "every row is selected"
when the selection is contained in the rows and no row is listed twice in the table (the
class invariant keeps the selection free of duplicates, but nothing in the source keeps
the table so). `AllSelectedWithoutEveryRowSelected` shows
that it can hold while no row of the table is selected.

## Model

| member | source | states |
|---|---|---|
| `FilterList.IndexOf` | src/app/query/query.component.ts:211 | `indexOf` by identity: -1 exactly when no entry is the filter, otherwise the first position holding it |
| `FilterList.FirstWithField` | src/app/query/query.component.ts:200-205 | the position the eviction loop stops at: the first entry on the field, or none when no entry is on it |
| `FilterList.RemoveFirstWithFieldAtIndex` | src/app/query/query.component.ts:200-205 | when position k holds the first entry on the field, eviction is the splice at k |
| `FilterList.RemoveFirstWithFieldAbsent` | src/app/query/query.component.ts:198-208 | when no entry is on the field, eviction leaves the list unchanged |
| `FilterList.RemoveFirstWithFieldAt` | src/app/query/query.component.ts:198-208 | `removeAlreadyPresentFilter` splices out exactly the first entry on the field and leaves the list unchanged when there is none |
| `FilterList.RemoveFirstWithField` | src/app/query/query.component.ts:198-208 | eviction leaves the list one entry shorter exactly when some entry is on the field, and unchanged in length otherwise |
| `FilterList.RemoveFirstWithFieldKeeps` | src/app/query/query.component.ts:198-208 | eviction adds no entry and keeps every entry on another field |
| `FilterList.RemoveFirstWithFieldClears` | src/app/query/query.component.ts:198-208 | with at most one entry per field, no entry on the field remains and both list invariants survive |
| `FilterList.WithSelected` | src/app/query/query.component.ts:209-216 | after selecting, the filter is found in the list; every entry is the filter or was there before; every entry on another field is kept |
| `FilterList.WithDeselected` | src/app/query/query.component.ts:217-221 | deselecting adds nothing, shortens the list by one exactly when the filter was found, and, when no filter is listed twice, leaves the filter not found |
| `FilterList.SelectNewFilter` | src/app/query/query.component.ts:211-216 | selecting an absent filter evicts only the first entry on its field, keeps the others in order and appends the filter last |
| `FilterList.SelectPresentFilter` | src/app/query/query.component.ts:211-216 | re-selecting a filter that is already selected leaves the list unchanged |
| `FilterList.SelectKeepsInvariant` | src/app/query/query.component.ts:209-216 | selecting keeps at most one filter per field and no filter twice, and the filter is selected afterwards |
| `FilterList.DeselectPresentFilter` | src/app/query/query.component.ts:217-221 | deselecting a selected filter removes exactly its entry, keeps the others in order, and the filter is no longer found |
| `FilterList.DeselectAbsentFilter` | src/app/query/query.component.ts:217-221 | deselecting a filter that is not selected leaves the list unchanged |
| `FilterList.DeselectKeepsInvariant` | src/app/query/query.component.ts:217-221 | deselecting keeps at most one filter per field and no filter twice |
| `FilterList.SelectThenDeselect` | src/app/query/query.component.ts:209-221 | toggling a filter on and off restores the list when no other entry was on its field |
| `FilterList.DeselectThenSelect` | src/app/query/query.component.ts:209-221 | toggling a selected filter off and on moves it to the end and changes nothing else |
| `RowSelection.SelectOneProps` | src/app/query/query.component.ts:78-80 | `selection.select(row)` keeps the earlier selection as a prefix, adds exactly that row and never a duplicate |
| `RowSelection.SelectAllProps` | src/app/query/query.component.ts:72-76 | after `selectRows` every row is selected, everything selected before stays selected in order, nothing else is added and nothing twice |
| `RowSelection.NoDupCardinality` | src/app/query/query.component.ts:29 | a selection without duplicates has as many distinct rows as entries |
| `RowSelection.AllSelectedIffEveryRowSelected` | src/app/query/query.component.ts:58-63 | when neither the selection nor the table lists a row twice and the selected rows are rows of the table, the count test of `isAllSelected` holds exactly when every row of the table is selected (both directions) |
| `RowSelection.AllSelectedWithoutEveryRowSelected` | src/app/query/query.component.ts:58-63 | without that premise equal counts do not mean every row is selected: a stale selection of equal size selects none of the rows |
| `ExportText.IndexOfText` | src/app/query/query.component.ts:274 | `indexOf` on text: -1 exactly when the value occurs nowhere, otherwise the first position where it occurs |
| `ExportText.Prefix` | src/app/query/query.component.ts:278 | `substring(0, end)` gives a prefix of the text, empty for an end of 0 or less (so -1 gives "") and the whole text for an end past it |
| `ExportText.LastIndexOfChar` | src/app/query/query.component.ts:278 | `lastIndexOf(",")`: the last position holding a comma, with none after it, or -1 |
| `ExportText.TerminatedIsJoin` | src/app/query/query.component.ts:271-277 | the text built with `, ` after every item is the items joined by `, ` followed by one `, ` |
| `ExportText.CutAtLastComma` | src/app/query/query.component.ts:278 | cutting the built text at its last comma removes exactly the trailing separator, whatever commas the items hold, and yields "" for no items |
| `ExportText.ListingSnoc` | src/app/query/query.component.ts:275 | emitting one more value appends `"v", ` to the built text |
| `ExportText.ListingContains` | src/app/query/query.component.ts:274-276 | every emitted value is found by `indexOf` in the text built from the emitted values |
| `ExportText.KeepExtends` | src/app/query/query.component.ts:271-277 | values once emitted stay emitted, in order, as a prefix of the final list |
| `ExportText.KeepNoDup` | src/app/query/query.component.ts:274-276 | no value is emitted twice |
| `ExportText.KeepFromInput` | src/app/query/query.component.ts:271-277 | every emitted value is one of the field values read |
| `ExportText.ListingGrows` | src/app/query/query.component.ts:274-276 | a value found in the text built so far is still found after more values are emitted |
| `ExportText.KeepCoversInput` | src/app/query/query.component.ts:274-276 | every value read, emitted or skipped, is found in the text built from the emitted values |
| `ExportText.DeduplicatedProps` | src/app/query/query.component.ts:271-277 | the emitted values are input values, none twice, and every input value occurs in the built text |
| `ExportText.ListingContainsQuoted` | src/app/query/query.component.ts:274-276 | every emitted value occurs, with its quotes, in the text built from the emitted values |
| `ExportText.SubstringOfEmittedSkipped` | src/app/query/query.component.ts:274-276 | a value occurring inside an emitted value or its quotes is skipped although it was never emitted itself |
| `ExportText.KeepSkipsEmpty` | src/app/query/query.component.ts:274 | an empty value is never emitted, since `indexOf("")` is 0 |
| `ExportText.FreshValueEmitted` | src/app/query/query.component.ts:274-276 | a value not found in the text built so far is emitted |
| `ExportText.EmptyExports` | src/app/query/query.component.ts:266-301 | no values give "" from `concatenate`; no documents give "[]" from `getCopiedData` |
| `ExportText.ConcatenateValues` | src/app/query/query.component.ts:266-278 | the loop's text equals the de-duplicated values, each in double quotes, joined by `, ` with no trailing separator |
| `ExportText.CopyDocuments` | src/app/query/query.component.ts:291-304 | the loop's text is the single serialisation when there is one document, otherwise `[` + serialisations joined by `, ` + `]` |
| `DbConfig.DbFilters` | src/app/query/query.component.ts:131-138 | a database without configuration contributes the empty list; the result is missing exactly when the database is configured without filters |
| `DbConfig.AssociatedFiltersSnoc` | src/app/query/query.component.ts:149-155 | merging one more associated database puts its filters in front of those merged before, so the last-listed database comes first |
| `DbConfig.AssociatedFiltersMembers` | src/app/query/query.component.ts:149-155 | a filter is among the associated filters exactly when some associated database contributes it |
| `DbConfig.MergedEndsWithGlobal` | src/app/query/query.component.ts:140-160 | the merged list always ends with the global filters |
| `DbConfig.MergedFilters` | src/app/query/query.component.ts:131-160 | with no database configuration, no selected database or no entry for it, the merged list is the global filters |
| `DbConfig.MergedMembers` | src/app/query/query.component.ts:140-160 | for a configured selected database, with or without `associatedDbs`, the merged list holds exactly the global filters, the selected database's filters and those of its associated databases |
| `DbConfig.Columns` | src/app/query/query.component.ts:113-118 | the columns are `select`, then the global fields, then the selected database's fields when it configures any |
| `DbConfig.SelectedDbAfterLoad` | src/app/query/query.component.ts:85-92 | a listed selected database is kept; otherwise the first listed one is taken ("undefined" for an empty list), so a non-empty list always yields a listed database |
| `QueryTypes.FieldValue` | src/app/query/query.component.ts:273 | `each[field]` is the document's value for the field, or "undefined" when the document lacks it |
| `QueryTypes.FieldValues` | src/app/query/query.component.ts:271-273 | one value per row, in row order, each the row's value for the field |
| `QueryView.PrependAssociated` | src/app/query/query.component.ts:149-155 | the `associatedDbs.forEach` loop leaves the associated databases' filters, last-listed first, in front of those merged before |
| `QueryView.QueryComponent.constructor` | src/app/query/query.component.ts:18-34 | the initial state: empty settings, lists and selection, page cursor (0, 50, 0), and the class invariant |
| `QueryView.QueryComponent.ExecuteQuery` | src/app/query/query.component.ts:170-177 | with no selected filter the table is emptied and no request is made; otherwise the selected filters and page cursor are requested and the view is loading |
| `QueryView.QueryComponent.OnQueryResult` | src/app/query/query.component.ts:178-183 | the rows become the documents; the result length is their count when the page is not full, else the request page's length; loading ends |
| `QueryView.QueryComponent.RemoveAlreadyPresentFilter` | src/app/query/query.component.ts:198-208 | the in-place loop leaves the selected filters without their first entry on the filter's field |
| `QueryView.QueryComponent.OnFilterChanged` | src/app/query/query.component.ts:209-226 | the list is toggled as `WithSelected`/`WithDeselected` say, the page index is reset to 0, the query is re-issued, and the invariant is kept |
| `QueryView.QueryComponent.ResetPage` | src/app/query/query.component.ts:228-230 | only the page index changes, to 0 |
| `QueryView.QueryComponent.ClearFilterSelection` | src/app/query/query.component.ts:231-234 | no filter is selected and the table is empty |
| `QueryView.QueryComponent.CopyDocumentId` | src/app/query/query.component.ts:236-240 | the id filter becomes the only selected filter and is requested |
| `QueryView.QueryComponent.ShowDocumentById` | src/app/query/query.component.ts:242-247 | the id filter alone is requested, then no filter is selected |
| `QueryView.QueryComponent.NextPage` | src/app/query/query.component.ts:332-339 | a non-negative page index goes up by exactly one and the query is re-issued; otherwise nothing changes |
| `QueryView.QueryComponent.PrevPage` | src/app/query/query.component.ts:341-348 | the page index goes down by one only from 1 or more, so it never becomes negative; otherwise nothing changes |
| `QueryView.QueryComponent.FirstPage` | src/app/query/query.component.ts:350-354 | the page index becomes 0 and the query is re-issued |
| `QueryView.QueryComponent.OnPage` | src/app/query/query.component.ts:313-317 | the paginator's cursor replaces the page cursor and the query is re-issued |
| `QueryView.QueryComponent.SelectRow` | src/app/query/query.component.ts:78-80 | the row is added to the selection unless already selected, without creating duplicates |
| `QueryView.QueryComponent.SelectRows` | src/app/query/query.component.ts:72-76 | the loop selects every row of the table in table order |
| `QueryView.QueryComponent.IsAllSelected` | src/app/query/query.component.ts:58-63 | when neither the selection nor the table lists a row twice and every selected row is a row of the table, equal counts hold exactly when every row of the table is selected |
| `QueryView.QueryComponent.MasterToggle` | src/app/query/query.component.ts:65-70 | when `isAllSelected` (equal counts) the selection becomes empty; otherwise every row is selected and the earlier selection is kept as a prefix |
| `QueryView.QueryComponent.ExportRows` | src/app/query/query.component.ts:285-289 | the exports read the selected rows when any are selected, else the table's rows, so they read nothing only when nothing is selected and the table is empty |
| `QueryView.QueryComponent.Concatenate` | src/app/query/query.component.ts:260-282 | over the selected rows if any, else all rows, the values of the field (default `_id`) quoted, de-duplicated by text search and joined by `, ` |
| `QueryView.QueryComponent.GetCopiedData` | src/app/query/query.component.ts:284-305 | over the selected rows if any, else all rows: one document bare, any other number bracketed and joined by `, ` (so none gives "[]") |
| `QueryView.QueryComponent.MergeFilters` | src/app/query/query.component.ts:140-160 | the `forEach` loop leaves exactly the merged list: associated databases last-listed first, then the selected database, then the global filters |
| `QueryView.QueryComponent.OnDbChange` | src/app/query/query.component.ts:105-129 | the filters are re-merged, the columns rebuilt, and the filter selection and table cleared |
| `QueryView.QueryComponent.OnSettingsLoaded` | src/app/query/query.component.ts:162-168 | the loaded settings replace the metadata |
| `QueryView.QueryComponent.LoadAllDbs` | src/app/query/query.component.ts:82-99 | the listed databases are stored, an unlisted or missing selection falls back to the first one, and the database change is handled |

## Left out

- The query service (`listAllDbs`, `filterUnderscoreDbs`, `getDbInfo`, `executeQuery`, `allDocs`, `prepareQueryObject`, `initializeMeta`, `setSelectedDb`, `getDbClientUrl`, `showRunTime`): HTTP behind an opaque service. The results of the query, settings and database-list calls are method parameters; only the query request is a return value.
- `clone` in `mergeFilters`: the source deep-copies the global filters, so after every merge they are new objects; the model keeps their identities. This cannot change which filters are selected, because `onDbChange` clears the filter selection right after merging.
- The id filter's value: the component never sets `_idFilter`'s value itself, and the page template that would edit it in place is not part of this model, so `idFilter` keeps the value it was constructed with.
- Text is a sequence of Unicode scalar values, while JavaScript's `indexOf`, `lastIndexOf` and `substring` count UTF-16 code units; positions differ for characters outside the Basic Multilingual Plane, and strings holding lone surrogates cannot be represented. Which values `concatenate` skips and the text it produces are the same for all other input.
- Asynchrony: overlapping requests whose responses arrive out of order are not modelled; each request is followed by its own response.
- The error branch of `loadAllDbs` and all snackbar messages (`showMessage`, `showError`): user notifications only.
- Clipboard and download glue (`copyDocuments`, `generateDownloadJsonUri`, the clipboard call in `concatenate`, `copySelectors`): the exports return their text instead; `copySelectors` only serialises the service's query object.
- `applyFilter`: relies on Unicode `trim`/`toLowerCase` and on the table widget's own filtering.
- `showCount`: a timed `allDocs` call whose result only feeds a message.
- `highlight`, `ngAfterViewInit`, `ngOnInit`, `onCouchUrlChanged`, `getDbInfo`'s `dbInfo` and the display name looked up in `onDbChange`: widget wiring, or state that only feeds messages and `showCount`.
- `delete filter.$$edit` and `delete filter.selected`: property deletion on untyped objects; the checkbox state is the `selected` parameter of `OnFilterChanged`.
- Filters are values: an edit made in place to a filter object that is already selected is not reflected in the selected list.
- `JSON.stringify` internals: a parameter function.
- Dynamic typing: an absent `field` argument of `concatenate` is the empty string (both fall back to `_id`), the table's rows are always a list (so the `if (data)` tests always pass), field values are their string conversions, database names are strings, `metadata.fields` and `metadata.filters` are always present (a missing `fields` would add an `undefined` column), and the initially undefined `pageLength` starts at 0.
- OnPage: requires a non-negative page index, which the paginator that raises the event always reports.
