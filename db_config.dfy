/** The settings the view works from (`metadata`): global filters and columns, the
    selected database and the per-database configuration, and what the view derives
    from them: the merged filter list, the table's columns and the selected database
    after the database list has been loaded. */
module DbConfig {
  import opened QueryTypes

  /** One entry of `metadata.dbs`; each part may be missing from the settings. */
  datatype DbConf = DbConf(
    filters: Option<seq<Filter>>,
    fields: Option<seq<string>>,
    name: Option<string>,
    associatedDbs: Option<seq<string>>)

  /** The settings blob. An absent `selectedDb` is the empty string (both are falsy);
      `dbs` is absent when the settings configure no database. */
  datatype Metadata = Metadata(
    selectedDb: string,
    filters: seq<Filter>,
    fields: seq<string>,
    dbs: Option<map<string, DbConf>>)

  /** `getDbFilters(db)`: a configured database gives its `filters` entry (possibly
      missing); a database without configuration gives the empty list. The result is
      missing exactly when the database is configured without filters. */
  function DbFilters(dbs: map<string, DbConf>, db: string): (r: Option<seq<Filter>>)
    ensures db !in dbs ==> r == Some([])
    ensures r.None? <==> db in dbs && dbs[db].filters.None?
  {
    if db in dbs then dbs[db].filters else Some([])
  }

  /** What one database adds to the merged list: nothing when its filters are missing. */
  function Contribution(dbs: map<string, DbConf>, db: string): seq<Filter>
  {
    match DbFilters(dbs, db)
    case Some(fs) => fs
    case None => []
  }

  /** The filters the associated databases add, in the order `mergeFilters` leaves
      them: each database's filters go in front of those already merged, so the
      last-listed database comes first. */
  function AssociatedFilters(dbs: map<string, DbConf>, assoc: seq<string>): seq<Filter>
    decreases |assoc|
  {
    if assoc == [] then [] else AssociatedFilters(dbs, assoc[1..]) + Contribution(dbs, assoc[0])
  }

  /** `mergeFilters`: associated databases' filters, then the selected database's, then
      the global ones; without a database configuration or a selected database only the
      global filters. */
  function MergedFilters(meta: Metadata): (r: seq<Filter>)
    ensures meta.dbs.None? || meta.selectedDb == "" || meta.selectedDb !in meta.dbs.value ==>
      r == meta.filters
  {
    if meta.dbs.None? || meta.selectedDb == "" then meta.filters
    else
      var dbs := meta.dbs.value;
      var withSelected := Contribution(dbs, meta.selectedDb) + meta.filters;
      if meta.selectedDb in dbs && dbs[meta.selectedDb].associatedDbs.Some? then
        AssociatedFilters(dbs, dbs[meta.selectedDb].associatedDbs.value) + withSelected
      else withSelected
  }

  /** Merging one more associated database puts its filters in front of the others. */
  lemma {:induction false} AssociatedFiltersSnoc(dbs: map<string, DbConf>, assoc: seq<string>, db: string)
    ensures AssociatedFilters(dbs, assoc + [db]) == Contribution(dbs, db) + AssociatedFilters(dbs, assoc)
    decreases |assoc|
  {
    if assoc == [] {
      assert ([] + [db])[1..] == [];
    } else {
      assert (assoc + [db])[1..] == assoc[1..] + [db];
      AssociatedFiltersSnoc(dbs, assoc[1..], db);
    }
  }

  /** A filter is among the associated filters exactly when one of the associated
      databases contributes it. */
  lemma {:induction false} AssociatedFiltersMembers(dbs: map<string, DbConf>, assoc: seq<string>, f: Filter)
    ensures f in AssociatedFilters(dbs, assoc) <==> exists db :: db in assoc && f in Contribution(dbs, db)
    decreases |assoc|
  {
    if assoc != [] {
      AssociatedFiltersMembers(dbs, assoc[1..], f);
      if f in Contribution(dbs, assoc[0]) {
        assert assoc[0] in assoc;
      }
      if exists db :: db in assoc && f in Contribution(dbs, db) {
        var db :| db in assoc && f in Contribution(dbs, db);
        if db != assoc[0] {
          assert db in assoc[1..];
        }
      }
    }
  }

  /** The global filters always close the merged list. */
  lemma MergedEndsWithGlobal(meta: Metadata)
    ensures |MergedFilters(meta)| >= |meta.filters|
    ensures MergedFilters(meta)[|MergedFilters(meta)| - |meta.filters|..] == meta.filters
  {
  }

  /** The merged list holds the global filters, the selected database's filters and the
      associated databases' filters, and nothing else. */
  lemma MergedMembers(meta: Metadata, f: Filter)
    requires meta.dbs.Some? && meta.selectedDb != "" && meta.selectedDb in meta.dbs.value
    ensures var dbs := meta.dbs.value;
      var assoc := dbs[meta.selectedDb].associatedDbs;
      f in MergedFilters(meta) <==>
        f in meta.filters || f in Contribution(dbs, meta.selectedDb) ||
        (assoc.Some? && exists db :: db in assoc.value && f in Contribution(dbs, db))
  {
    var assoc := meta.dbs.value[meta.selectedDb].associatedDbs;
    if assoc.Some? {
      AssociatedFiltersMembers(meta.dbs.value, assoc.value, f);
    }
  }

  /** The table's columns (`onDbChange`): the selection checkbox, the global fields,
      then the selected database's own fields when it configures any. */
  function Columns(meta: Metadata): (cols: seq<string>)
    ensures |cols| >= 1 + |meta.fields| && cols[0] == "select"
    ensures cols[1..1 + |meta.fields|] == meta.fields
    ensures meta.dbs.Some? && meta.selectedDb in meta.dbs.value &&
            meta.dbs.value[meta.selectedDb].fields.Some? ==>
              cols[1 + |meta.fields|..] == meta.dbs.value[meta.selectedDb].fields.value
    ensures !(meta.dbs.Some? && meta.selectedDb in meta.dbs.value &&
              meta.dbs.value[meta.selectedDb].fields.Some?) ==>
              |cols| == 1 + |meta.fields|
  {
    var base := ["select"] + meta.fields;
    if meta.dbs.Some? && meta.selectedDb in meta.dbs.value &&
       meta.dbs.value[meta.selectedDb].fields.Some?
    then base + meta.dbs.value[meta.selectedDb].fields.value
    else base
  }

  /** The selected database once the list of databases is known (`loadAllDbs`): a
      selection that is listed is kept; otherwise the first listed database is taken
      (`dbs[0] + ""`, which reads "undefined" when the list is empty). */
  function SelectedDbAfterLoad(selected: string, dbs: seq<string>): (r: string)
    ensures selected != "" && selected in dbs ==> r == selected
    ensures |dbs| > 0 ==> r in dbs
    ensures !(selected != "" && selected in dbs) ==> r == if |dbs| > 0 then dbs[0] else "undefined"
  {
    if selected != "" && selected in dbs then selected
    else if |dbs| > 0 then dbs[0]
    else "undefined"
  }
}
