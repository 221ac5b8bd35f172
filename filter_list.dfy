/** The list of selected filters: lookup by identity (`indexOf`), eviction of the first
    entry with a given field (`removeAlreadyPresentFilter`) and the two toggles of
    `onFilterChanged`, with the invariants they keep. */
module FilterList {
  import opened QueryTypes

  /** `fs.indexOf(f)`: the first position holding the same filter object, or -1. */
  function IndexOf(fs: seq<Filter>, f: Filter): (r: int)
    ensures -1 <= r < |fs|
    ensures r == -1 <==> forall j :: 0 <= j < |fs| ==> fs[j].id != f.id
    ensures r >= 0 ==> fs[r].id == f.id && forall j :: 0 <= j < r ==> fs[j].id != f.id
  {
    if fs == [] then -1
    else if fs[0].id == f.id then 0
    else
      var k := IndexOf(fs[1..], f);
      if k == -1 then -1 else k + 1
  }

  /** `fs` with the entry at position `i` spliced out. */
  function RemoveAt(fs: seq<Filter>, i: nat): seq<Filter>
    requires i < |fs|
  {
    fs[..i] + fs[i + 1..]
  }

  /** The position in the original list of entry `j` once position `k` is spliced out. */
  function Skip(j: nat, k: nat): nat
  {
    if j < k then j else j + 1
  }

  /** The first position whose filter is on `field`, if any. */
  function FirstWithField(fs: seq<Filter>, field: string): (r: Option<nat>)
    ensures r.None? <==> forall j :: 0 <= j < |fs| ==> fs[j].field != field
    ensures r.Some? ==> r.value < |fs| && fs[r.value].field == field
    ensures r.Some? ==> forall j :: 0 <= j < r.value ==> fs[j].field != field
  {
    if fs == [] then None
    else if fs[0].field == field then Some(0)
    else
      match FirstWithField(fs[1..], field)
      case None => None
      case Some(k) => Some(k + 1)
  }

  /** What `removeAlreadyPresentFilter` leaves behind: the list without its first
      entry on `field` (unchanged when there is none): one entry shorter exactly when
      some entry is on the field. */
  function RemoveFirstWithField(fs: seq<Filter>, field: string): (r: seq<Filter>)
    ensures |r| == if FirstWithField(fs, field).Some? then |fs| - 1 else |fs|
  {
    if fs == [] then []
    else if fs[0].field == field then fs[1..]
    else [fs[0]] + RemoveFirstWithField(fs[1..], field)
  }

  /** At most one selected filter per field. */
  ghost predicate UniqueFields(fs: seq<Filter>)
  {
    forall i, j :: 0 <= i < j < |fs| ==> fs[i].field != fs[j].field
  }

  /** No filter object appears twice. */
  ghost predicate UniqueIds(fs: seq<Filter>)
  {
    forall i, j :: 0 <= i < j < |fs| ==> fs[i].id != fs[j].id
  }

  /** The list after `onFilterChanged` with `filter.selected` set: a filter already
      present is left where it is; otherwise the first entry on the same field is
      evicted and the filter is appended. */
  function WithSelected(fs: seq<Filter>, f: Filter): (r: seq<Filter>)
    ensures IndexOf(r, f) != -1
    ensures forall g :: g in r ==> g in fs || g == f
    ensures forall g :: g in fs && g.field != f.field ==> g in r
  {
    if IndexOf(fs, f) == -1 then
      RemoveFirstWithFieldKeeps(fs, f.field);
      var r := RemoveFirstWithField(fs, f.field) + [f];
      assert r[|r| - 1] == f;
      r
    else fs
  }

  /** The list after `onFilterChanged` with `filter.selected` cleared: the filter's own
      entry is spliced out when present. Nothing is added, exactly one entry goes when
      the filter is selected, and with no filter listed twice it is not found afterwards. */
  function WithDeselected(fs: seq<Filter>, f: Filter): (r: seq<Filter>)
    ensures forall g :: g in r ==> g in fs
    ensures |r| == if IndexOf(fs, f) == -1 then |fs| else |fs| - 1
    ensures UniqueIds(fs) ==> IndexOf(r, f) == -1
  {
    var i := IndexOf(fs, f);
    if i > -1 then
      var r := RemoveAt(fs, i);
      assert forall j :: 0 <= j < |r| ==> r[j] == fs[Skip(j, i)] && Skip(j, i) != i;
      r
    else fs
  }

  /** Eviction splices out the entry at `k` when it is the first one on the field. */
  lemma {:induction false} RemoveFirstWithFieldAtIndex(fs: seq<Filter>, field: string, k: nat)
    requires k < |fs| && fs[k].field == field
    requires forall j :: 0 <= j < k ==> fs[j].field != field
    ensures RemoveFirstWithField(fs, field) == RemoveAt(fs, k)
  {
    if k > 0 {
      var tail := fs[1..];
      RemoveFirstWithFieldAtIndex(tail, field, k - 1);
      assert tail[..k - 1] == fs[1..k] && tail[k..] == fs[k + 1..];
      assert [fs[0]] + (fs[1..k] + fs[k + 1..]) == fs[..k] + fs[k + 1..];
    }
  }

  /** Eviction leaves a list with no entry on the field unchanged. */
  lemma {:induction false} RemoveFirstWithFieldAbsent(fs: seq<Filter>, field: string)
    requires forall j :: 0 <= j < |fs| ==> fs[j].field != field
    ensures RemoveFirstWithField(fs, field) == fs
  {
    if fs != [] {
      RemoveFirstWithFieldAbsent(fs[1..], field);
      assert [fs[0]] + fs[1..] == fs;
    }
  }

  /** The recursive definition agrees with the splice at the first matching position. */
  lemma RemoveFirstWithFieldAt(fs: seq<Filter>, field: string)
    ensures FirstWithField(fs, field).None? ==> RemoveFirstWithField(fs, field) == fs
    ensures FirstWithField(fs, field).Some? ==>
      RemoveFirstWithField(fs, field) == RemoveAt(fs, FirstWithField(fs, field).value)
  {
    var first := FirstWithField(fs, field);
    if first.None? {
      RemoveFirstWithFieldAbsent(fs, field);
    } else {
      RemoveFirstWithFieldAtIndex(fs, field, first.value);
    }
  }

  /** With at most one entry per field, eviction leaves no entry on that field and
      keeps both invariants. */
  lemma {:induction false} RemoveFirstWithFieldClears(fs: seq<Filter>, field: string)
    requires UniqueFields(fs) && UniqueIds(fs)
    ensures forall g :: g in RemoveFirstWithField(fs, field) ==> g.field != field
    ensures UniqueFields(RemoveFirstWithField(fs, field))
    ensures UniqueIds(RemoveFirstWithField(fs, field))
  {
    RemoveFirstWithFieldAt(fs, field);
    var first := FirstWithField(fs, field);
    if first.Some? {
      var k := first.value;
      var r := RemoveAt(fs, k);
      assert |r| == |fs| - 1;
      assert forall j :: 0 <= j < |r| ==> r[j] == fs[Skip(j, k)];
      forall g | g in r ensures g.field != field {
        var j :| 0 <= j < |r| && r[j] == g;
        assert Skip(j, k) != k;
      }
      forall i, j | 0 <= i < j < |r| ensures r[i].field != r[j].field && r[i].id != r[j].id {
        assert Skip(i, k) < Skip(j, k);
      }
    }
  }

  /** Selecting a filter that is not yet selected evicts only the first entry on its
      field, keeps all other entries in their order, and appends the filter. */
  lemma SelectNewFilter(fs: seq<Filter>, f: Filter)
    requires IndexOf(fs, f) == -1
    ensures var r := WithSelected(fs, f);
      r[|r| - 1] == f &&
      r[..|r| - 1] == (match FirstWithField(fs, f.field)
                       case None => fs
                       case Some(k) => RemoveAt(fs, k))
  {
    RemoveFirstWithFieldAt(fs, f.field);
    var r := WithSelected(fs, f);
    assert r[..|r| - 1] == RemoveFirstWithField(fs, f.field);
  }

  /** Re-selecting a filter that is already selected changes nothing. */
  lemma SelectPresentFilter(fs: seq<Filter>, f: Filter)
    requires IndexOf(fs, f) != -1
    ensures WithSelected(fs, f) == fs
  {
  }

  /** Selecting keeps "at most one filter per field" and "no filter twice", and the
      filter is selected afterwards. */
  lemma SelectKeepsInvariant(fs: seq<Filter>, f: Filter)
    requires UniqueFields(fs) && UniqueIds(fs)
    ensures UniqueFields(WithSelected(fs, f)) && UniqueIds(WithSelected(fs, f))
    ensures IndexOf(WithSelected(fs, f), f) != -1
  {
    if IndexOf(fs, f) == -1 {
      RemoveFirstWithFieldClears(fs, f.field);
      RemoveFirstWithFieldKeeps(fs, f.field);
      var e := RemoveFirstWithField(fs, f.field);
      var r := e + [f];
      assert r[|r| - 1] == f;
      forall i, j | 0 <= i < j < |r| ensures r[i].field != r[j].field && r[i].id != r[j].id {
        if j == |r| - 1 {
          assert r[i] in e;
        }
      }
    }
  }

  /** Deselecting a selected filter splices out exactly its entry: the others keep their
      order and the filter is no longer selected. */
  lemma DeselectPresentFilter(fs: seq<Filter>, f: Filter)
    requires UniqueIds(fs)
    requires IndexOf(fs, f) != -1
    ensures var i := IndexOf(fs, f);
      WithDeselected(fs, f) == fs[..i] + fs[i + 1..] && |WithDeselected(fs, f)| == |fs| - 1
    ensures IndexOf(WithDeselected(fs, f), f) == -1
  {
    var i := IndexOf(fs, f);
    var r := WithDeselected(fs, f);
    assert forall j :: 0 <= j < |r| ==> r[j] == fs[if j < i then j else j + 1];
  }

  /** Deselecting a filter that is not selected changes nothing. */
  lemma DeselectAbsentFilter(fs: seq<Filter>, f: Filter)
    requires IndexOf(fs, f) == -1
    ensures WithDeselected(fs, f) == fs
  {
  }

  /** Deselecting keeps both invariants. */
  lemma DeselectKeepsInvariant(fs: seq<Filter>, f: Filter)
    requires UniqueFields(fs) && UniqueIds(fs)
    ensures UniqueFields(WithDeselected(fs, f)) && UniqueIds(WithDeselected(fs, f))
  {
    var i := IndexOf(fs, f);
    if i > -1 {
      var r := WithDeselected(fs, f);
      assert forall j :: 0 <= j < |r| ==> r[j] == fs[if j < i then j else j + 1];
    }
  }

  /** Eviction adds no entry and keeps every entry on another field. */
  lemma {:induction false} RemoveFirstWithFieldKeeps(fs: seq<Filter>, field: string)
    ensures forall g :: g in RemoveFirstWithField(fs, field) ==> g in fs
    ensures forall g :: g in fs && g.field != field ==> g in RemoveFirstWithField(fs, field)
  {
    if fs != [] && fs[0].field != field {
      RemoveFirstWithFieldKeeps(fs[1..], field);
    }
  }

  /** Selecting and then deselecting a filter restores the list when nothing else was
      on the filter's field. */
  lemma SelectThenDeselect(fs: seq<Filter>, f: Filter)
    requires IndexOf(fs, f) == -1
    requires forall g :: g in fs ==> g.field != f.field
    ensures WithDeselected(WithSelected(fs, f), f) == fs
  {
    RemoveFirstWithFieldAt(fs, f.field);
    assert WithSelected(fs, f) == fs + [f];
    var r := fs + [f];
    assert r[|fs|] == f;
    assert forall j :: 0 <= j < |fs| ==> r[j] == fs[j];
    assert IndexOf(r, f) == |fs|;
    assert r[..|fs|] == fs;
  }

  /** Deselecting and then selecting a selected filter moves it to the end of the list
      (with one filter per field nothing else is evicted). */
  lemma DeselectThenSelect(fs: seq<Filter>, f: Filter)
    requires UniqueFields(fs) && UniqueIds(fs)
    requires f in fs
    ensures IndexOf(fs, f) != -1
    ensures var i := IndexOf(fs, f);
      WithSelected(WithDeselected(fs, f), f) == fs[..i] + fs[i + 1..] + [f]
  {
    var i := IndexOf(fs, f);
    var k :| 0 <= k < |fs| && fs[k] == f;
    assert i == k;
    DeselectPresentFilter(fs, f);
    var d := fs[..i] + fs[i + 1..];
    forall j | 0 <= j < |d| ensures d[j].field != f.field {
      assert d[j] == fs[Skip(j, i)] && Skip(j, i) != i;
    }
    RemoveFirstWithFieldAbsent(d, f.field);
    assert WithSelected(d, f) == d + [f];
  }
}
