/** The view state of the query screen (`QueryComponent`): selected filters, page cursor,
    table rows and row selection, merged filters and columns, and the handlers that
    change them. Calls to the query service are split into the request a handler makes
    (returned as a `QueryRequest`) and the handler of its response (`OnQueryResult`). */
module QueryView {
  import opened QueryTypes
  import opened FilterList
  import opened RowSelection
  import opened ExportText
  import opened DbConfig

  /** The serialisations `JSON.stringify` gives for a list of documents, in order. */
  function Serialised(rows: seq<Doc>, str: Doc -> string): (strs: seq<string>)
    ensures |strs| == |rows|
    ensures forall i :: 0 <= i < |rows| ==> strs[i] == str(rows[i])
  {
    seq(|rows|, i requires 0 <= i < |rows| => str(rows[i]))
  }

  /** The `associatedDbs.forEach` loop of `mergeFilters`: each listed database's filters
      go in front of those merged so far. */
  method PrependAssociated(confs: map<string, DbConf>, assoc: seq<string>, base: seq<Filter>)
    returns (fs: seq<Filter>)
    ensures fs == AssociatedFilters(confs, assoc) + base
  {
    fs := base;
    var i := 0;
    while i < |assoc|
      invariant 0 <= i <= |assoc|
      invariant fs == AssociatedFilters(confs, assoc[..i]) + base
    {
      var db := assoc[i];
      var dbFilters := DbFilters(confs, db);
      if dbFilters.Some? {
        fs := dbFilters.value + fs;
      }
      assert fs == Contribution(confs, db) + (AssociatedFilters(confs, assoc[..i]) + base);
      AssociatedFiltersSnoc(confs, assoc[..i], db);
      assert assoc[..i + 1] == assoc[..i] + [db];
      i := i + 1;
    }
    assert assoc[..i] == assoc;
  }

  class QueryComponent {
    var metadata: Metadata
    var dbs: seq<string>
    var selectedFilters: seq<Filter>
    /** The `{field: "_id", operation: "$eq"}` filter used to look documents up by id. */
    const idFilter: Filter
    var page: Page
    var pageLength: int
    var isLoading: bool
    /** The table's rows (`dataSource.data`). */
    var data: seq<Doc>
    /** The selected rows (`selection.selected`), in the order they were selected. */
    var selection: seq<Doc>
    var displayedColumns: seq<string>
    var filters: seq<Filter>

    /** At most one selected filter per field and none twice, a page index that is
        never negative, and no row selected twice. */
    ghost predicate Valid()
      reads this
    {
      UniqueFields(selectedFilters) && UniqueIds(selectedFilters) &&
      page.pageIndex >= 0 && NoDup(selection)
    }

    constructor (idFilterId: nat)
      ensures Valid()
      ensures idFilter == Filter(idFilterId, "_id", "$eq", None)
      ensures metadata == Metadata("", [], [], None) && dbs == []
      ensures selectedFilters == [] && filters == [] && displayedColumns == []
      ensures page == Page(0, 50, 0) && pageLength == 0 && !isLoading
      ensures data == [] && selection == []
    {
      metadata := Metadata("", [], [], None);
      dbs := [];
      selectedFilters := [];
      idFilter := Filter(idFilterId, "_id", "$eq", None);
      page := Page(0, 50, 0);
      pageLength := 0;
      isLoading := false;
      data := [];
      selection := [];
      displayedColumns := [];
      filters := [];
    }

    /** What `executeQuery` did, judged on the state it left: with no selected filter the
        table is emptied and nothing is requested; otherwise the selected filters and the
        page cursor are sent and the view is loading. */
    ghost predicate Requested(req: Option<QueryRequest>, oldData: seq<Doc>, oldLoading: bool)
      reads this
    {
      if selectedFilters == [] then req == None && data == [] && isLoading == oldLoading
      else req == Some(QueryRequest(selectedFilters, page)) && data == oldData && isLoading
    }

    /** `executeQuery`: the request half. */
    method ExecuteQuery() returns (req: Option<QueryRequest>)
      modifies this`data, this`isLoading
      ensures Requested(req, old(data), old(isLoading))
    {
      if |selectedFilters| == 0 {
        data := [];
        return None;
      }
      isLoading := true;
      req := Some(QueryRequest(selectedFilters, page));
    }

    /** `executeQuery`: the response half. The rows are replaced (the selection is left
        as it was) and the known result length is the number of documents returned when
        the page was not filled, else the length the request's page cursor carried. */
    method OnQueryResult(req: QueryRequest, docs: seq<Doc>)
      modifies this`data, this`pageLength, this`isLoading
      ensures data == docs && !isLoading
      ensures |docs| < req.page.pageSize ==> pageLength == |docs|
      ensures |docs| >= req.page.pageSize ==> pageLength == req.page.length
    {
      data := docs;
      pageLength := if |docs| < req.page.pageSize then |docs| else req.page.length;
      isLoading := false;
    }

    /** `removeAlreadyPresentFilter(this.selectedFilters, filter)`: splices out the first
        selected filter on the same field, if any. */
    method RemoveAlreadyPresentFilter(filter: Filter)
      requires Valid()
      modifies this`selectedFilters
      ensures Valid()
      ensures selectedFilters == RemoveFirstWithField(old(selectedFilters), filter.field)
    {
      RemoveFirstWithFieldAt(selectedFilters, filter.field);
      RemoveFirstWithFieldClears(selectedFilters, filter.field);
      if |selectedFilters| > 0 {
        var index := 0;
        while index < |selectedFilters|
          invariant 0 <= index <= |selectedFilters|
          invariant selectedFilters == old(selectedFilters)
          invariant forall j :: 0 <= j < index ==> selectedFilters[j].field != filter.field
        {
          if selectedFilters[index].field == filter.field {
            selectedFilters := selectedFilters[..index] + selectedFilters[index + 1..];
            return;
          }
          index := index + 1;
        }
      }
    }

    /** `onFilterChanged(filter)`: `selected` is the filter's checkbox state. The list is
        toggled, the cursor goes back to the first page and the query is re-run. */
    method OnFilterChanged(filter: Filter, selected: bool) returns (req: Option<QueryRequest>)
      requires Valid()
      modifies this`selectedFilters, this`page, this`data, this`isLoading
      ensures Valid()
      ensures selected ==> selectedFilters == WithSelected(old(selectedFilters), filter)
      ensures !selected ==> selectedFilters == WithDeselected(old(selectedFilters), filter)
      ensures page == old(page).(pageIndex := 0)
      ensures Requested(req, old(data), old(isLoading))
    {
      var index := IndexOf(selectedFilters, filter);
      if selected {
        SelectKeepsInvariant(selectedFilters, filter);
        if index == -1 {
          RemoveAlreadyPresentFilter(filter);
          selectedFilters := selectedFilters + [filter];
        }
      } else {
        DeselectKeepsInvariant(selectedFilters, filter);
        if index > -1 {
          selectedFilters := selectedFilters[..index] + selectedFilters[index + 1..];
        }
      }
      ResetPage();
      req := ExecuteQuery();
    }

    method ResetPage()
      modifies this`page
      ensures page == old(page).(pageIndex := 0)
    {
      page := page.(pageIndex := 0);
    }

    /** `clearFilterSelection`: no filter selected and an empty table. */
    method ClearFilterSelection()
      requires Valid()
      modifies this`selectedFilters, this`data
      ensures Valid()
      ensures selectedFilters == [] && data == []
    {
      selectedFilters := [];
      data := [];
    }

    /** `copyDocumentId`: the id filter becomes the only selected filter and is queried. */
    method CopyDocumentId() returns (req: Option<QueryRequest>)
      requires Valid()
      modifies this`selectedFilters, this`data, this`isLoading
      ensures Valid()
      ensures selectedFilters == [idFilter]
      ensures req == Some(QueryRequest([idFilter], page)) && isLoading && data == old(data)
    {
      selectedFilters := [];
      selectedFilters := selectedFilters + [idFilter];
      req := ExecuteQuery();
    }

    /** `showDocumentById`: queries with the id filter alone, then leaves no filter
        selected. */
    method ShowDocumentById() returns (req: Option<QueryRequest>)
      requires Valid()
      modifies this`selectedFilters, this`data, this`isLoading
      ensures Valid()
      ensures selectedFilters == []
      ensures req == Some(QueryRequest([idFilter], page)) && isLoading && data == old(data)
    {
      selectedFilters := [];
      selectedFilters := selectedFilters + [idFilter];
      req := ExecuteQuery();
      assert selectedFilters == [idFilter];
      selectedFilters := [];
    }

    /** `nextPage`: moves one page on when the index is not negative. */
    method NextPage() returns (req: Option<QueryRequest>)
      modifies this`page, this`data, this`isLoading
      ensures old(Valid()) ==> Valid()
      ensures old(page.pageIndex) >= 0 ==>
        page == old(page).(pageIndex := old(page.pageIndex) + 1) && Requested(req, old(data), old(isLoading))
      ensures old(page.pageIndex) < 0 ==>
        page == old(page) && req == None && data == old(data) && isLoading == old(isLoading)
      ensures old(page.pageIndex) >= 0 ==> page.pageIndex >= 1
    {
      if page.pageIndex >= 0 {
        page := page.(pageIndex := page.pageIndex + 1);
        req := ExecuteQuery();
      } else {
        req := None;
      }
    }

    /** `prevPage`: moves one page back only from page 1 or later, so the index is never
        taken below 0. */
    method PrevPage() returns (req: Option<QueryRequest>)
      modifies this`page, this`data, this`isLoading
      ensures old(Valid()) ==> Valid()
      ensures old(page.pageIndex) >= 1 ==>
        page == old(page).(pageIndex := old(page.pageIndex) - 1) && Requested(req, old(data), old(isLoading))
      ensures old(page.pageIndex) < 1 ==>
        page == old(page) && req == None && data == old(data) && isLoading == old(isLoading)
      ensures old(page.pageIndex) >= 0 ==> page.pageIndex >= 0
    {
      if page.pageIndex >= 1 {
        page := page.(pageIndex := page.pageIndex - 1);
        req := ExecuteQuery();
      } else {
        req := None;
      }
    }

    /** `firstPage`: back to page 0 and query. */
    method FirstPage() returns (req: Option<QueryRequest>)
      requires Valid()
      modifies this`page, this`data, this`isLoading
      ensures Valid()
      ensures page == old(page).(pageIndex := 0)
      ensures Requested(req, old(data), old(isLoading))
    {
      ResetPage();
      req := ExecuteQuery();
    }

    /** `onpage(event)`: the paginator's cursor replaces the page cursor and the query is
        re-run. The paginator never reports a negative page index. */
    method OnPage(event: Page) returns (req: Option<QueryRequest>)
      requires Valid()
      requires event.pageIndex >= 0
      modifies this`page, this`data, this`isLoading
      ensures Valid()
      ensures page == event && page.pageIndex >= 0
      ensures Requested(req, old(data), old(isLoading))
    {
      page := event;
      req := ExecuteQuery();
    }

    /** `isAllSelected`: compares the number of selected rows with the number of rows
        (not which rows are selected). That means "every row is selected" only while no
        row is listed twice and every selected row is a row of the table. */
    predicate IsAllSelected()
      reads this
      ensures NoDup(selection) && NoDup(data) && (forall x :: x in selection ==> x in data) ==>
        (IsAllSelected() <==> forall x :: x in data ==> x in selection)
    {
      assert NoDup(selection) && NoDup(data) && (forall x :: x in selection ==> x in data) ==>
        (AllSelected(selection, data) <==> forall x :: x in data ==> x in selection) by {
        if NoDup(selection) && NoDup(data) && forall x :: x in selection ==> x in data {
          AllSelectedIffEveryRowSelected(selection, data);
        }
      }
      AllSelected(selection, data)
    }

    /** `select(row)`. */
    method SelectRow(row: Doc)
      requires Valid()
      modifies this`selection
      ensures Valid()
      ensures selection == SelectOne(old(selection), row)
    {
      SelectOneProps(selection, row);
      if row !in selection {
        selection := selection + [row];
      }
    }

    /** `selectRows`: selects every row of the table, in table order. */
    method SelectRows()
      requires Valid()
      modifies this`selection
      ensures Valid()
      ensures selection == SelectAll(old(selection), data)
    {
      SelectAllProps(selection, data);
      var index := 0;
      while index < |data|
        invariant 0 <= index <= |data|
        invariant SelectAll(selection, data[index..]) == SelectAll(old(selection), data)
      {
        assert data[index..][0] == data[index] && data[index..][1..] == data[index + 1..];
        if data[index] !in selection {
          selection := selection + [data[index]];
        }
        index := index + 1;
      }
      assert data[index..] == [];
    }

    /** `masterToggle`: clears the selection when the counts match; otherwise selects
        every row, keeping what was already selected. */
    method MasterToggle()
      requires Valid()
      modifies this`selection
      ensures Valid()
      ensures old(IsAllSelected()) ==> selection == []
      ensures !old(IsAllSelected()) ==> selection == SelectAll(old(selection), data)
      ensures !old(IsAllSelected()) ==>
        (forall x :: x in data ==> x in selection) &&
        |selection| >= |old(selection)| && selection[..|old(selection)|] == old(selection)
    {
      if IsAllSelected() {
        selection := [];
      } else {
        SelectAllProps(selection, data);
        SelectRows();
      }
    }

    /** The rows the export helpers read: the selected rows when there are any, else all
        rows of the table; nothing only when nothing is selected and the table is empty. */
    function ExportRows(): (rows: seq<Doc>)
      reads this
      ensures selection != [] ==> rows == selection
      ensures selection == [] ==> rows == data
      ensures rows == [] <==> selection == [] && data == []
    {
      if |selection| > 0 then selection else data
    }

    /** `concatenate(field)`: the values of `field` (by default `_id`) over the exported
        rows, each in double quotes, separated by `, `, skipping a value already found in
        the text built so far. The text is returned instead of copied. */
    method Concatenate(field: string) returns (ids: string)
      ensures ids == ConcatenatedText(FieldValues(ExportRows(), if field == "" then "_id" else field))
    {
      var rows := ExportRows();
      var f := if field == "" then "_id" else field;
      ids := ConcatenateValues(FieldValues(rows, f));
    }

    /** `getCopiedData`: the exported rows serialised by `str` (`JSON.stringify`): one
        row bare, any other number as a bracketed, comma-separated list. */
    method GetCopiedData(str: Doc -> string) returns (text: string)
      ensures |ExportRows()| == 1 ==> text == str(ExportRows()[0])
      ensures |ExportRows()| != 1 ==> text == "[" + Join(Serialised(ExportRows(), str)) + "]"
    {
      var rows := ExportRows();
      text := CopyDocuments(Serialised(rows, str));
    }

    /** `mergeFilters`: starts from the global filters, puts the selected database's in
        front, then each associated database's in front in turn. */
    method MergeFilters()
      modifies this`filters
      ensures filters == MergedFilters(metadata)
    {
      var fs := metadata.filters;
      if metadata.dbs.Some? && metadata.selectedDb != "" {
        var confs := metadata.dbs.value;
        var sel := metadata.selectedDb;
        var dbFilters := DbFilters(confs, sel);
        if dbFilters.Some? {
          fs := dbFilters.value + fs;
        }
        assert fs == Contribution(confs, sel) + metadata.filters;
        if sel in confs {
          var associated := confs[sel].associatedDbs;
          if associated.Some? {
            fs := PrependAssociated(confs, associated.value, fs);
          }
        }
      }
      filters := fs;
    }

    /** `onDbChange`: re-merges the filters, rebuilds the columns and clears the filter
        selection and the table. */
    method OnDbChange()
      requires Valid()
      modifies this`filters, this`displayedColumns, this`selectedFilters, this`data
      ensures Valid()
      ensures filters == MergedFilters(metadata) && displayedColumns == Columns(metadata)
      ensures selectedFilters == [] && data == []
    {
      MergeFilters();
      var meta := metadata;
      var columns := ["select"] + meta.fields;
      if meta.dbs.Some? {
        if meta.selectedDb in meta.dbs.value && meta.dbs.value[meta.selectedDb].fields.Some? {
          columns := columns + meta.dbs.value[meta.selectedDb].fields.value;
        }
      }
      assert columns == Columns(meta);
      displayedColumns := columns;
      ClearFilterSelection();
    }

    /** `loadSettings`: the response half, storing the settings. */
    method OnSettingsLoaded(meta: Metadata)
      modifies this`metadata
      ensures metadata == meta
    {
      metadata := meta;
    }

    /** `loadAllDbs`: the response half. `listed` is the database list after the
        service's underscore filter; a selected database that is not listed is replaced by
        the first listed one, then the database change is handled. */
    method LoadAllDbs(listed: seq<string>)
      requires Valid()
      modifies this`dbs, this`metadata, this`filters, this`displayedColumns, this`selectedFilters, this`data
      ensures Valid()
      ensures dbs == listed
      ensures metadata == old(metadata).(selectedDb := SelectedDbAfterLoad(old(metadata.selectedDb), listed))
      ensures |listed| > 0 ==> metadata.selectedDb in listed
      ensures filters == MergedFilters(metadata) && displayedColumns == Columns(metadata)
      ensures selectedFilters == [] && data == []
    {
      dbs := listed;
      if metadata.selectedDb != "" {
        if metadata.selectedDb !in dbs {
          metadata := metadata.(selectedDb := if |dbs| > 0 then dbs[0] else "undefined");
        }
      } else {
        metadata := metadata.(selectedDb := if |dbs| > 0 then dbs[0] else "undefined");
      }
      OnDbChange();
    }
  }
}
