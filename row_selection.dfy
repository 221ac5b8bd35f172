/** The multi-select `SelectionModel` behind the result table: a duplicate-free list of
    rows in the order they were selected (`selection.selected`). */
module RowSelection {
  import opened QueryTypes

  /** No row appears twice. */
  ghost predicate NoDup<T>(s: seq<T>)
  {
    forall i, j :: 0 <= i < j < |s| ==> s[i] != s[j]
  }

  /** The rows of a list, as a set. */
  ghost function Elems<T>(s: seq<T>): set<T>
  {
    set x | x in s
  }

  /** `selection.select(row)`: a row already selected stays where it is; a new one is
      added after the others. */
  function SelectOne(sel: seq<Doc>, row: Doc): seq<Doc>
  {
    if row in sel then sel else sel + [row]
  }

  /** The selection after `selectRows` has selected each row of `rows` in turn. */
  function SelectAll(sel: seq<Doc>, rows: seq<Doc>): seq<Doc>
    decreases |rows|
  {
    if rows == [] then sel else SelectAll(SelectOne(sel, rows[0]), rows[1..])
  }

  /** Selecting one row keeps the earlier selection as a prefix, adds exactly that row
      and never duplicates a row. */
  lemma SelectOneProps(sel: seq<Doc>, row: Doc)
    ensures |SelectOne(sel, row)| >= |sel| && SelectOne(sel, row)[..|sel|] == sel
    ensures forall x :: x in SelectOne(sel, row) <==> x in sel || x == row
    ensures NoDup(sel) ==> NoDup(SelectOne(sel, row))
  {
  }

  /** `selectRows` keeps everything that was selected, in the same order, selects every
      row, adds nothing else and never selects a row twice. */
  lemma {:induction false} SelectAllProps(sel: seq<Doc>, rows: seq<Doc>)
    ensures |SelectAll(sel, rows)| >= |sel| && SelectAll(sel, rows)[..|sel|] == sel
    ensures forall x :: x in SelectAll(sel, rows) <==> x in sel || x in rows
    ensures NoDup(sel) ==> NoDup(SelectAll(sel, rows))
    decreases |rows|
  {
    if rows != [] {
      var next := SelectOne(sel, rows[0]);
      SelectOneProps(sel, rows[0]);
      SelectAllProps(next, rows[1..]);
      var r := SelectAll(sel, rows);
      assert r[..|sel|] == r[..|next|][..|sel|];
      forall x ensures x in r <==> x in sel || x in rows {
        assert x in rows <==> x == rows[0] || x in rows[1..];
      }
    }
  }

  /** A duplicate-free list has as many distinct rows as entries. */
  lemma {:induction false} NoDupCardinality<T>(s: seq<T>)
    requires NoDup(s)
    ensures |Elems(s)| == |s|
  {
    if s != [] {
      var init := s[..|s| - 1];
      assert NoDup(init);
      NoDupCardinality(init);
      assert Elems(s) == Elems(init) + {s[|s| - 1]};
      assert s[|s| - 1] !in Elems(init);
    }
  }

  /** `isAllSelected`: as many rows selected as there are rows in the table. */
  predicate AllSelected(sel: seq<Doc>, rows: seq<Doc>)
  {
    |sel| == |rows|
  }

  /** `isAllSelected` compares counts only. When no row is listed twice and every
      selected row is one of the table's rows, equal counts mean exactly that every row
      of the table is selected. */
  lemma AllSelectedIffEveryRowSelected(sel: seq<Doc>, rows: seq<Doc>)
    requires NoDup(sel) && NoDup(rows)
    requires forall x :: x in sel ==> x in rows
    ensures AllSelected(sel, rows) <==> forall x :: x in rows ==> x in sel
  {
    NoDupCardinality(sel);
    NoDupCardinality(rows);
    var a, b := Elems(sel), Elems(rows);
    assert a <= b;
    if |sel| == |rows| {
      assert |b - a| == |b| - |a|;
      assert b - a == {};
      forall x | x in rows ensures x in sel {
        assert x in b;
      }
    }
    if forall x :: x in rows ==> x in sel {
      assert a == b;
    }
  }

  /** Without that premise the count comparison can hold while a row of the table is not
      selected: a stale selection kept from a previous result of the same size. */
  lemma AllSelectedWithoutEveryRowSelected()
    ensures exists sel: seq<Doc>, rows: seq<Doc> ::
      NoDup(sel) && NoDup(rows) && AllSelected(sel, rows) && rows != [] &&
      forall x :: x in rows ==> x !in sel
  {
    var a, b := Doc(1, map[]), Doc(2, map[]);
    assert NoDup([a]) && NoDup([b]) && AllSelected([a], [b]) && forall x :: x in [b] ==> x !in [a];
  }
}
