/** TABLE_ST: a growable array of owned Row handles, each slot a Row or absent (NULL), and the
    transpose built on it. */
module Tables {
  import opened CBytes
  import opened Strings
  import opened Vectors

  /** What a TABLE_ST shows: the views of its rows [0, len) and its capacity mlen. */
  datatype Tab = Tab(rows: seq<Option<Vec>>, cap: nat)

  /** t_append: the row array grows to exactly the new length when it is full. */
  function AppendRowVal(t: Tab, r: Option<Vec>): Tab {
    var n := |t.rows| + 1;
    Tab(t.rows + [r], if n > t.cap then n else t.cap)
  }

  /** t_append adds exactly one row at index old len and keeps the earlier ones; the capacity
      becomes exactly the new length when the Table was full and is unchanged otherwise. */
  lemma AppendRowSpec(t: Tab, r: Option<Vec>)
    requires |t.rows| <= t.cap
    ensures var u := AppendRowVal(t, r);
      |u.rows| == |t.rows| + 1 && u.rows[|t.rows|] == r && u.rows[..|t.rows|] == t.rows &&
      |u.rows| <= u.cap &&
      (|t.rows| + 1 > t.cap ==> u.cap == |t.rows| + 1) &&
      (|t.rows| + 1 <= t.cap ==> u.cap == t.cap)
  {
  }

  /** Appending one more row of `src` continues the append of its earlier rows. */
  lemma AppendTabStep(rows: seq<Option<Vec>>, src: seq<Option<Vec>>, j: nat, cap: nat)
    requires j < |src|
    ensures AppendRowVal(Tab(rows + src[..j], Grown(cap, |rows| + j)), src[j]) ==
      Tab(rows + src[..j + 1], Grown(cap, |rows| + j + 1))
  {
    assert src[..j + 1] == src[..j] + [src[j]];
    assert rows + src[..j] + [src[j]] == rows + src[..j + 1];
  }

  /** Appending every row of `u` to `t`, one t_append at a time. */
  function AppendTab(t: Tab, u: Tab): Tab {
    Tab(t.rows + u.rows, Grown(t.cap, |t.rows| + |u.rows|))
  }

  /** Every row is present: t_copy, t_concat, t_get_max_vector_len and transpose dereference
      every row. */
  predicate RowsPresent(t: Tab) {
    forall k :: 0 <= k < |t.rows| ==> t.rows[k].Some?
  }

  /** Every row and every cell is present: t_copy and t_concat deep-copy every row with
      v_copy, which copies every cell. */
  predicate CellsPresent(t: Tab) {
    RowsPresent(t) && forall k :: 0 <= k < |t.rows| ==> AllPresent(t.rows[k].value)
  }

  /** The sum of the sources' lengths (t_concat's first loop). */
  function RowTotal(ts: seq<Tab>): nat
    decreases |ts|
  {
    if ts == [] then 0 else RowTotal(ts[..|ts| - 1]) + |ts[|ts| - 1].rows|
  }

  /** The sources' rows in argument order and then index order. */
  function AllRows(ts: seq<Tab>): seq<Option<Vec>>
    decreases |ts|
  {
    if ts == [] then [] else AllRows(ts[..|ts| - 1]) + ts[|ts| - 1].rows
  }

  /** The concatenation has exactly the sum of the sources' lengths, and each prefix of the
      sources contributes no more than the whole. */
  lemma {:induction false} AllRowsLength(ts: seq<Tab>, i: nat)
    requires i <= |ts|
    ensures |AllRows(ts)| == RowTotal(ts)
    ensures RowTotal(ts[..i]) <= RowTotal(ts)
    decreases |ts|
  {
    if ts != [] {
      var p := ts[..|ts| - 1];
      if i == |ts| {
        assert ts[..i] == ts;
        AllRowsLength(p, 0);
      } else {
        assert ts[..i] == p[..i];
        AllRowsLength(p, i);
      }
    }
  }

  /** Row j of source i sits at index RowTotal(sources before i) + j of the concatenation. */
  lemma {:induction false} AllRowsAt(ts: seq<Tab>, i: nat, j: nat)
    requires i < |ts| && j < |ts[i].rows|
    ensures RowTotal(ts[..i]) + j < |AllRows(ts)|
    ensures AllRows(ts)[RowTotal(ts[..i]) + j] == ts[i].rows[j]
    decreases |ts|
  {
    var p := ts[..|ts| - 1];
    AllRowsLength(p, i);
    if i == |ts| - 1 {
      assert ts[..i] == p;
    } else {
      assert ts[..i] == p[..i];
      AllRowsAt(p, i, j);
    }
  }

  /** Concatenating one more source appends its rows, and never beyond the total length. */
  lemma AllRowsStep(ts: seq<Tab>, i: nat)
    requires i < |ts|
    ensures AllRows(ts[..i + 1]) == AllRows(ts[..i]) + ts[i].rows
    ensures |AllRows(ts[..i])| + |ts[i].rows| <= RowTotal(ts)
  {
    AllRowsLength(ts, i + 1);
    AllRowsLength(ts[..i + 1], i);
    assert ts[..i + 1][..i] == ts[..i];
  }

  /** The length of a row, an absent row counting as empty. */
  function RowLen(r: Option<Vec>): nat {
    if r.Some? then |r.value.cells| else 0
  }

  /** The greatest row length (t_get_max_vector_len, and the first loop of transpose). */
  function MaxLen(rows: seq<Option<Vec>>): nat
    decreases |rows|
  {
    if rows == [] then 0
    else
      var m := MaxLen(rows[..|rows| - 1]);
      var l := RowLen(rows[|rows| - 1]);
      if m > l then m else l
  }

  /** MaxLen is the maximum: no row is longer, and unless it is zero some row has exactly it. */
  lemma {:induction false} MaxLenIsMax(rows: seq<Option<Vec>>)
    ensures forall k :: 0 <= k < |rows| ==> RowLen(rows[k]) <= MaxLen(rows)
    ensures MaxLen(rows) == 0 || exists k :: 0 <= k < |rows| && RowLen(rows[k]) == MaxLen(rows)
    decreases |rows|
  {
    if rows != [] {
      var p := rows[..|rows| - 1];
      MaxLenIsMax(p);
      forall k | 0 <= k < |rows| - 1
        ensures RowLen(rows[k]) <= MaxLen(rows)
      {
        assert rows[k] == p[k];
      }
      if MaxLen(rows) != RowLen(rows[|rows| - 1]) {
        var k :| 0 <= k < |p| && RowLen(p[k]) == MaxLen(p);
        assert rows[k] == p[k];
      }
    }
  }

  /** Column j of a transposed table: the present cells at index j of the rows that are long
      enough, in row order. Absent cells and short rows leave no placeholder. */
  function Column(rows: seq<Option<Vec>>, j: nat): seq<Option<Str>>
    decreases |rows|
  {
    if rows == [] then []
    else
      var r := rows[|rows| - 1];
      Column(rows[..|rows| - 1], j) +
        (if r.Some? && j < |r.value.cells| && r.value.cells[j].Some? then [r.value.cells[j]] else [])
  }

  /** A destination row of transpose: new_vector() (capacity DEFAULT_MEMORY_LEN) then one
      v_append per cell of the column. */
  function ColumnRow(rows: seq<Option<Vec>>, j: nat): Vec {
    var c := Column(rows, j);
    Vec(c, Grown(DefaultMemoryLen, |c|))
  }

  /** transpose: one destination row per column up to the greatest row length; the destination
      Table comes from new_table(), whose capacity is DEFAULT_MEMORY_LEN whatever length it is
      asked for, and grows with each t_append. */
  function TransposeVal(t: Tab): Tab {
    var m := MaxLen(t.rows);
    Tab(Columns(t.rows, m), Grown(DefaultMemoryLen, m))
  }

  /** The first m columns of `rows`, each as a destination row. */
  function Columns(rows: seq<Option<Vec>>, m: nat): seq<Option<Vec>> {
    seq(m, j requires 0 <= j => Some(ColumnRow(rows, j)))
  }

  /** One pass of transpose's inner loop over the source row `r`: destination row j receives the
      cell at j of `r` when j is below both lengths, the row is present and the cell is present;
      every other destination row is unchanged. */
  function Scatter(dst: seq<Option<Vec>>, r: Vec): seq<Option<Vec>> {
    seq(|dst|, j requires 0 <= j < |dst| =>
      if dst[j].Some? && j < |r.cells| && r.cells[j].Some? then Some(AppendVal(dst[j].value, r.cells[j]))
      else dst[j])
  }

  /** The same pass stopped before index `n`. */
  function ScatterBelow(dst: seq<Option<Vec>>, r: Vec, n: nat): seq<Option<Vec>> {
    seq(|dst|, j requires 0 <= j < |dst| =>
      if j < n && dst[j].Some? && j < |r.cells| && r.cells[j].Some? then Some(AppendVal(dst[j].value, r.cells[j]))
      else dst[j])
  }

  /** Stopping one index later adds the cell at that index (when present) and nothing else. */
  lemma ScatterBelowStep(dst: seq<Option<Vec>>, r: Vec, j: nat)
    requires j < |dst| && j < |r.cells| && dst[j].Some?
    ensures ScatterBelow(dst, r, j + 1) == ScatterBelow(dst, r, j)[j :=
      if r.cells[j].Some? then Some(AppendVal(dst[j].value, r.cells[j])) else dst[j]]
  {
  }

  /** Stopping at or past the shorter of the two lengths is the whole pass. */
  lemma ScatterBelowAll(dst: seq<Option<Vec>>, r: Vec, n: nat)
    requires n >= |dst| || n >= |r.cells|
    ensures ScatterBelow(dst, r, n) == Scatter(dst, r)
  {
  }

  /** Scattering source row i over the columns of the rows before it gives the columns of the
      rows up to and including it: the loop invariant of transpose's outer loop. */
  lemma {:induction false} ColumnsStep(rows: seq<Option<Vec>>, i: nat, m: nat)
    requires i < |rows| && rows[i].Some?
    ensures Scatter(Columns(rows[..i], m), rows[i].value) == Columns(rows[..i + 1], m)
  {
    var a := Scatter(Columns(rows[..i], m), rows[i].value);
    var b := Columns(rows[..i + 1], m);
    forall j | 0 <= j < m
      ensures a[j] == b[j]
    {
      ColumnStep(rows, i, j);
      var r := rows[i].value;
      assert b[j] == Some(ColumnRow(rows[..i + 1], j));
      if j < |r.cells| && r.cells[j].Some? {
        var c := Column(rows[..i], j);
        assert a[j] == Some(AppendVal(ColumnRow(rows[..i], j), r.cells[j]));
        assert Column(rows[..i + 1], j) == c + [r.cells[j]];
      } else {
        assert a[j] == Some(ColumnRow(rows[..i], j));
        assert Column(rows[..i + 1], j) == Column(rows[..i], j) + [];
        assert Column(rows[..i + 1], j) == Column(rows[..i], j);
      }
    }
  }

  /** Every cell of a column is present and a column has at most one cell per row. */
  lemma {:induction false} ColumnShape(rows: seq<Option<Vec>>, j: nat)
    ensures |Column(rows, j)| <= |rows|
    ensures forall k :: 0 <= k < |Column(rows, j)| ==> Column(rows, j)[k].Some?
    decreases |rows|
  {
    if rows != [] {
      ColumnShape(rows[..|rows| - 1], j);
    }
  }

  /** A column of a table whose rows all reach past j with cells present there is the j-th
      cell of every row, in row order. */
  lemma {:induction false} ColumnOfFull(rows: seq<Option<Vec>>, j: nat)
    requires forall k :: 0 <= k < |rows| ==>
      rows[k].Some? && j < |rows[k].value.cells| && rows[k].value.cells[j].Some?
    ensures |Column(rows, j)| == |rows|
    ensures forall k :: 0 <= k < |rows| ==> Column(rows, j)[k] == rows[k].value.cells[j]
    decreases |rows|
  {
    if rows != [] {
      var p := rows[..|rows| - 1];
      ColumnOfFull(p, j);
    }
  }

  /** The column of one more row: its cell at j is appended when the row is long enough and
      the cell present, and nothing is appended otherwise. */
  lemma ColumnStep(rows: seq<Option<Vec>>, i: nat, j: nat)
    requires i < |rows| && rows[i].Some?
    ensures Column(rows[..i + 1], j) == Column(rows[..i], j) +
      (if j < |rows[i].value.cells| && rows[i].value.cells[j].Some? then [rows[i].value.cells[j]] else [])
  {
    assert rows[..i + 1][..i] == rows[..i];
  }

  /** A table of n present rows of k present cells each. */
  predicate Rectangular(t: Tab, n: nat, k: nat) {
    |t.rows| == n &&
    forall i :: 0 <= i < n ==> t.rows[i].Some? && |t.rows[i].value.cells| == k && AllPresent(t.rows[i].value)
  }

  /** Transposing an n x k table with at least one row (or no columns) gives a k x n table
      whose cell (j, i) is the original cell (i, j). */
  lemma TransposeRectangular(t: Tab, n: nat, k: nat)
    requires Rectangular(t, n, k) && (n >= 1 || k == 0)
    ensures Rectangular(TransposeVal(t), k, n)
    ensures forall i, j :: 0 <= i < n && 0 <= j < k ==>
      TransposeVal(t).rows[j].value.cells[i] == t.rows[i].value.cells[j]
  {
    MaxLenIsMax(t.rows);
    if n > 0 {
      assert RowLen(t.rows[0]) == k;
    }
    assert MaxLen(t.rows) == k;
    var u := TransposeVal(t);
    forall j | 0 <= j < k
      ensures u.rows[j].Some? && |u.rows[j].value.cells| == n && AllPresent(u.rows[j].value)
      ensures forall i :: 0 <= i < n ==> u.rows[j].value.cells[i] == t.rows[i].value.cells[j]
    {
      ColumnOfFull(t.rows, j);
    }
  }

  /** Transpose is an involution on the content of rectangular tables with non-empty rows:
      transposing twice gives back every row's cells (only the capacities may differ). */
  lemma TransposeTwice(t: Tab, n: nat, k: nat)
    requires Rectangular(t, n, k) && k >= 1
    ensures |TransposeVal(TransposeVal(t)).rows| == n
    ensures forall i :: 0 <= i < n ==> TransposeVal(TransposeVal(t)).rows[i].value.cells == t.rows[i].value.cells
  {
    if n == 0 {
      assert MaxLen(t.rows) == 0;
      assert MaxLen(TransposeVal(t).rows) == 0;
      return;
    }
    TransposeRectangular(t, n, k);
    var u := TransposeVal(t);
    TransposeRectangular(u, k, n);
    var w := TransposeVal(u);
    forall i | 0 <= i < n
      ensures w.rows[i].value.cells == t.rows[i].value.cells
    {
      assert |w.rows[i].value.cells| == k;
      forall j | 0 <= j < k
        ensures w.rows[i].value.cells[j] == t.rows[i].value.cells[j]
      {
        assert w.rows[i].value.cells[j] == u.rows[j].value.cells[i];
      }
    }
  }

  /** Rows without cells do not survive transpose: an n x 0 table transposes to a Table without
      rows, so transposing twice loses all n rows. */
  lemma TransposeNoColumns(t: Tab, n: nat)
    requires Rectangular(t, n, 0)
    ensures TransposeVal(t).rows == []
    ensures TransposeVal(TransposeVal(t)).rows == []
  {
    MaxLenIsMax(t.rows);
    assert forall k :: 0 <= k < |t.rows| ==> RowLen(t.rows[k]) == 0;
    assert MaxLen(t.rows) == 0;
    assert MaxLen(TransposeVal(t).rows) == 0;
  }

  /** The greatest length of three present rows of lengths 3, 1 and 2 is 3. */
  lemma JaggedMax(r: seq<Option<Vec>>)
    requires |r| == 3 && r[0].Some? && r[1].Some? && r[2].Some?
    requires |r[0].value.cells| == 3 && |r[1].value.cells| == 1 && |r[2].value.cells| == 2
    ensures MaxLen(r) == 3
  {
    assert r[..1][..0] == [] && r[..2][..1] == r[..1] && r[..3][..2] == r[..2] && r[..3] == r;
    assert MaxLen(r[..1]) == 3;
    assert MaxLen(r[..2]) == 3;
  }

  /** Column j of three present rows of lengths 3, 1 and 2 with every cell present: the j-th
      cell of each row long enough, in row order. */
  lemma JaggedColumn(r: seq<Option<Vec>>, j: nat)
    requires |r| == 3 && CellsPresent(Tab(r, 3)) && j < 3
    requires |r[0].value.cells| == 3 && |r[1].value.cells| == 1 && |r[2].value.cells| == 2
    ensures Column(r, j) == [r[0].value.cells[j]] + (if j < 1 then [r[1].value.cells[j]] else []) +
      (if j < 2 then [r[2].value.cells[j]] else [])
  {
    ColumnStep(r, 2, j);
    ColumnStep(r, 1, j);
    ColumnStep(r, 0, j);
    assert r[..3] == r && r[..0] == [];
  }

  /** The jagged example: three present rows of lengths 3, 1 and 2 with every cell present
      transpose to three rows of lengths 3, 2 and 1: column 1 holds the second cells of rows 0
      and 2, and column 2 only the third cell of row 0. */
  lemma TransposeJagged(t: Tab)
    requires |t.rows| == 3 && CellsPresent(t)
    requires |t.rows[0].value.cells| == 3 && |t.rows[1].value.cells| == 1 && |t.rows[2].value.cells| == 2
    ensures var u := TransposeVal(t);
      |u.rows| == 3 &&
      u.rows[0].value.cells == [t.rows[0].value.cells[0], t.rows[1].value.cells[0], t.rows[2].value.cells[0]] &&
      u.rows[1].value.cells == [t.rows[0].value.cells[1], t.rows[2].value.cells[1]] &&
      u.rows[2].value.cells == [t.rows[0].value.cells[2]]
  {
    var r := t.rows;
    JaggedMax(r);
    JaggedColumn(r, 0);
    JaggedColumn(r, 1);
    JaggedColumn(r, 2);
  }

  /** No object lies in two of the sets. */
  predicate PairwiseDisjoint(fps: seq<set<object>>) {
    forall k, m :: 0 <= k < m < |fps| ==> fps[k] !! fps[m]
  }

  /** Widening one set of a pairwise disjoint family by objects that none of the others
      holds keeps the family pairwise disjoint. */
  lemma DisjointWiden(fps: seq<set<object>>, j: nat, extra: set<object>, whole: set<object>)
    requires j < |fps| && PairwiseDisjoint(fps)
    requires forall k :: 0 <= k < |fps| ==> fps[k] <= whole
    requires forall o :: o in extra && o in whole ==> o in fps[j]
    ensures PairwiseDisjoint(fps[j := fps[j] + extra])
  {
    var w := fps[j := fps[j] + extra];
    forall k, m | 0 <= k < m < |w|
      ensures w[k] !! w[m]
    {
      assert fps[k] !! fps[m];
    }
  }

  /** A slot holds a row: NULL for an absent row (with an empty footprint), else a valid Row
      with that view whose footprint is `fp`. */
  ghost predicate Owns(r: Row?, v: Option<Vec>, fp: set<object>)
    reads fp
  {
    if r == null then v == None && fp == {}
    else r in fp && r.Repr == fp && r.Valid() && v == Some(r.View())
  }

  /** TABLE_ST. The row array holds at least the recorded capacity (a reallocation allocates one
      slot more than it records); slots from `len` on are NULL. Every present Row is owned by
      this Table alone: the footprints of two present rows are disjoint. */
  class Table {
    var rows: array<Row?>
    var len: nat
    var mlen: nat
    ghost var Items: seq<Row?>
    ghost var Rows: seq<Option<Vec>>
    ghost var Fps: seq<set<object>>
    ghost var Repr: set<object>

    /** The first `n` slots hold the handles in Items, whose views are Rows and whose footprints
        are Fps (empty for an absent row), and the slots after them are NULL. */
    ghost predicate Filled(n: nat)
      reads this, Repr
    {
      this in Repr && rows in Repr &&
      mlen <= rows.Length && n <= mlen && |Items| == n && |Rows| == n && |Fps| == n &&
      rows[..n] == Items &&
      (forall k :: n <= k < rows.Length ==> rows[k] == null) &&
      (forall k :: 0 <= k < n ==> Fps[k] <= Repr && this !in Fps[k] && rows !in Fps[k]) &&
      (forall k :: 0 <= k < n ==> Owns(Items[k], Rows[k], Fps[k])) &&
      PairwiseDisjoint(Fps)
    }

    ghost predicate Valid()
      reads this, Repr
    {
      Filled(len)
    }

    ghost function View(): Tab
      reads this
    {
      Tab(Rows, mlen)
    }

    /** new_table_s */
    constructor (sz: nat)
      ensures Valid() && fresh(Repr) && View() == Tab([], sz)
    {
      rows := new Row?[sz](_ => null);
      len := 0;
      mlen := sz;
      Items := [];
      Rows := [];
      Fps := [];
      Repr := {this, rows};
    }

    /** new_table */
    constructor Default()
      ensures Valid() && fresh(Repr) && View() == Tab([], DefaultMemoryLen)
    {
      rows := new Row?[DefaultMemoryLen](_ => null);
      len := 0;
      mlen := DefaultMemoryLen;
      Items := [];
      Rows := [];
      Fps := [];
      Repr := {this, rows};
    }

    /** The reallocation inside t_append: a zero-filled array of `n + 1` slots receives the
        first mlen old slots and the recorded capacity becomes `n`; the content does not change. */
    method Grow(n: nat)
      requires Valid() && n > mlen
      modifies this
      ensures Valid() && fresh(rows) && Repr == old(Repr) + {rows}
      ensures len == old(len) && mlen == n && Rows == old(Rows) && Items == old(Items) && Fps == old(Fps)
    {
      var tmp := new Row?[n + 1](_ => null);
      forall k | 0 <= k < mlen {
        tmp[k] := rows[k];
      }
      rows := tmp;
      mlen := n;
      Repr := Repr + {tmp};
    }

    /** t_append: the Table takes ownership of `r` (which may be NULL); a full row array is
        first reallocated to exactly the new length. */
    method Append(r: Row?)
      requires Valid()
      requires r != null ==> r.Valid() && r.Repr !! Repr
      modifies this, rows
      ensures Valid() && fresh(Repr - old(Repr) - (if r == null then {} else r.Repr))
      ensures View() == AppendRowVal(old(View()), if r == null then None else Some(old(r.View())))
      ensures Items == old(Items) + [r]
      ensures rows == old(rows) || fresh(rows)
    {
      if len + 1 > mlen {
        Grow(len + 1);
      }
      Push(r);
    }

    /** The store of t_append once there is room: slot `len` receives `r` and `len` grows. */
    method Push(r: Row?)
      requires Valid() && len < mlen
      requires r != null ==> r.Valid() && r.Repr !! Repr
      modifies this, rows
      ensures Valid() && Repr == old(Repr) + (if r == null then {} else r.Repr)
      ensures rows == old(rows) && len == old(len) + 1 && mlen == old(mlen)
      ensures Items == old(Items) + [r]
      ensures Rows == old(Rows) + [if r == null then None else Some(old(r.View()))]
    {
      rows[len] := r;
      len := len + 1;
      Items := Items + [r];
      Rows := Rows + [if r == null then None else Some(r.View())];
      Fps := Fps + [if r == null then {} else r.Repr];
      if r != null {
        Repr := Repr + r.Repr;
      }
    }

    /** v_append on the present row at index j: the Row takes ownership of `t`, and no other
        row changes. */
    method AppendToRow(j: nat, t: Text)
      requires Valid() && j < len && Items[j] != null
      requires t.Valid() && t !in Repr && t.buf !in Repr
      modifies this, Items[j], Items[j].slots
      ensures len == old(len) && mlen == old(mlen) && rows == old(rows) && Items == old(Items)
      ensures Valid() && Repr == old(Repr) + {Items[j].slots, t, t.buf}
      ensures Items[j].slots == old(Items[j].slots) || fresh(Items[j].slots)
      ensures Rows == old(Rows)[j := Some(AppendVal(old(Rows)[j].value, Some(t.View())))]
    {
      var r := rows[j];
      ghost var fp := Fps;
      assert r in fp[j] && r.slots in fp[j];
      r.Append(t);
      assert r.Repr == fp[j] + {r.slots, t, t.buf};
      Rows := Rows[j := Some(r.View())];
      Fps := Fps[j := r.Repr];
      Repr := Repr + r.Repr;
      forall k | 0 <= k < len && k != j
        ensures Owns(Items[k], Rows[k], Fps[k])
      {
        assert fp[k] !! fp[j];
      }
      assert Fps == fp[j := fp[j] + {r.slots, t, t.buf}];
      DisjointWiden(fp, j, {r.slots, t, t.buf}, old(Repr));
    }

    /** t_copy: a fresh Table of the same capacity whose rows are v_copy copies of this Table's
        rows. The C code copies every row, and every cell of it, without a NULL check. */
    method Copy() returns (dst: Table)
      requires Valid() && CellsPresent(View())
      ensures fresh(dst.Repr) && dst.Valid() && dst.View() == View()
    {
      dst := new Table(mlen);
      for i := 0 to len
        invariant fresh(dst.Repr) && dst.Valid() && dst.len == i && dst.mlen == mlen
        invariant dst.Rows == Rows[..i]
      {
        CopyRowInto(dst, i);
      }
    }

    /** One step of t_copy: t_append of a v_copy of row i to `dst`, which holds copies of the
        rows before it. */
    method CopyRowInto(dst: Table, i: nat)
      requires Valid() && CellsPresent(View()) && i < len
      requires dst.Valid() && dst.Repr !! Repr && dst.len == i && dst.mlen == mlen && dst.Rows == Rows[..i]
      modifies dst, dst.rows
      ensures dst.Valid() && fresh(dst.Repr - old(dst.Repr))
      ensures dst.len == i + 1 && dst.mlen == mlen && dst.Rows == Rows[..i + 1]
    {
      var c := CopyRow(i);
      dst.Push(c);
      assert Rows[..i + 1] == Rows[..i] + [Rows[i]];
    }

    /** v_copy of the present row at index j, every cell of which is present. */
    method CopyRow(j: nat) returns (c: Row)
      requires Valid() && j < len && Rows[j].Some? && AllPresent(Rows[j].value)
      ensures fresh(c.Repr) && c.Valid() && c.View() == Rows[j].value
    {
      assert Owns(Items[j], Rows[j], Fps[j]);
      c := rows[j].Copy();
    }

    /** The inner loop of t_concat: a v_copy of every row of `src`, appended in index order. */
    method AppendCopies(src: Table)
      requires Valid() && src.Valid() && CellsPresent(src.View()) && Repr !! src.Repr
      modifies this, rows
      ensures Valid() && fresh(Repr - old(Repr))
      ensures View() == AppendTab(old(View()), src.View())
    {
      for j := 0 to src.len
        invariant Valid() && fresh(Repr - old(Repr)) && Repr !! src.Repr
        invariant rows == old(rows) || fresh(rows)
        invariant View() == Tab(old(Rows) + src.Rows[..j], Grown(old(mlen), old(len) + j))
      {
        AppendTabStep(old(Rows), src.Rows, j, old(mlen));
        AppendCopyOf(src, j);
      }
      assert src.Rows[..src.len] == src.Rows;
    }

    /** One step of that loop: t_append(dst, v_copy(src->vs[j])). */
    method AppendCopyOf(src: Table, j: nat)
      requires Valid() && src.Valid() && j < src.len && Repr !! src.Repr
      requires src.Rows[j].Some? && AllPresent(src.Rows[j].value)
      modifies this, rows
      ensures Valid() && fresh(Repr - old(Repr)) && (rows == old(rows) || fresh(rows))
      ensures View() == AppendRowVal(old(View()), src.Rows[j])
    {
      var c := src.CopyRow(j);
      Append(c);
    }

    /** The second loop of transpose: `m` empty Rows from new_vector(), each added with t_append. */
    method AppendEmptyRows(m: nat)
      requires Valid()
      modifies this, rows
      ensures Valid() && fresh(Repr - old(Repr))
      ensures len == old(len) + m && mlen == Grown(old(mlen), old(len) + m)
      ensures Rows == old(Rows) + seq(m, _ => Some(Vec([], DefaultMemoryLen)))
    {
      for i := 0 to m
        invariant Valid() && fresh(Repr - old(Repr))
        invariant rows == old(rows) || fresh(rows)
        invariant len == old(len) + i && mlen == Grown(old(mlen), old(len) + i)
        invariant Rows == old(Rows) + seq(i, _ => Some(Vec([], DefaultMemoryLen)))
      {
        var r := new Row.Default();
        Append(r);
        assert seq(i + 1, _ => Some(Vec([], DefaultMemoryLen))) ==
          seq(i, _ => Some(Vec([], DefaultMemoryLen))) + [Some(Vec([], DefaultMemoryLen))];
      }
    }

    /** The inner loop of transpose for one source row `r`: for every index j below both this
        Table's length and r's length whose cell is present, an s_copy of that cell is added to
        row j of this Table with v_append; absent cells are skipped. */
    method ScatterCopies(r: Row)
      requires Valid() && r.Valid() && Repr !! r.Repr && RowsPresent(View())
      modifies this, Repr
      ensures Valid() && fresh(Repr - old(Repr)) && RowsPresent(View())
      ensures len == old(len) && mlen == old(mlen)
      ensures Rows == Scatter(old(Rows), r.View())
    {
      ghost var rows, rv := Rows, r.View();
      var j := 0;
      while j < len && j < r.len
        invariant j <= len && j <= |rv.cells|
        invariant Valid() && fresh(Repr - old(Repr)) && Repr !! r.Repr && r.View() == rv
        invariant len == old(len) && mlen == old(mlen)
        invariant Rows == ScatterBelow(rows, rv, j)
        decreases len - j
      {
        ScatterBelowStep(rows, rv, j);
        ScatterCell(r, j);
        j := j + 1;
      }
      ScatterBelowAll(rows, rv, j);
    }

    /** The inner loop of transpose for row i of `src`. */
    method ScatterRowOf(src: Table, i: nat)
      requires Valid() && src.Valid() && Repr !! src.Repr && RowsPresent(View())
      requires i < src.len && src.Rows[i].Some?
      modifies this, Repr
      ensures Valid() && fresh(Repr - old(Repr)) && RowsPresent(View())
      ensures len == old(len) && mlen == old(mlen)
      ensures Rows == Scatter(old(Rows), src.Rows[i].value)
    {
      var r := src.GetVector(i);
      ScatterCopies(r);
    }

    /** One step of that loop: the cell at j of `r`, when present, is copied and added to row j. */
    method ScatterCell(r: Row, j: nat)
      requires Valid() && r.Valid() && Repr !! r.Repr && j < len && j < r.len && Rows[j].Some?
      modifies this, Repr
      ensures Valid() && fresh(Repr - old(Repr))
      ensures len == old(len) && mlen == old(mlen)
      ensures Rows == old(Rows)[j := if r.Cells[j].Some? then Some(AppendVal(old(Rows)[j].value, r.Cells[j])) else old(Rows)[j]]
    {
      var c := r.GetStr(j);
      if c != null {
        assert Owns(Items[j], Rows[j], Fps[j]);
        var d := c.Copy();
        AppendToRow(j, d);
      }
    }

    /** t_get_max_vector_len: the loop over every row, which it dereferences. */
    method MaxRowLen() returns (m: nat)
      requires Valid() && RowsPresent(View())
      ensures m == MaxLen(View().rows)
    {
      m := 0;
      for i := 0 to len
        invariant m == MaxLen(Rows[..i])
      {
        var l := rows[i].len;
        m := if m > l then m else l;
        assert Rows[..i + 1][..i] == Rows[..i];
      }
      assert Rows[..len] == Rows;
    }

    /** t_get_len */
    function GetLen(): (n: nat)
      reads this, Repr
      requires Valid()
      ensures n == |View().rows|
    {
      len
    }

    /** t_get_mlen */
    function GetMlen(): (n: nat)
      reads this
      ensures n == View().cap
    {
      mlen
    }

    /** t_get_vector: no bounds check against `len`; slots past `len` read as NULL. */
    function GetVector(index: nat): (r: Row?)
      reads this, Repr
      requires Valid() && index < mlen
      ensures index >= |View().rows| ==> r == null
      ensures index < |View().rows| ==> (r == null <==> View().rows[index] == None)
      ensures r != null ==> r.Repr <= Repr && r.Valid() && View().rows[index] == Some(r.View())
    {
      rows[index]
    }

    /** t_get_str: NULL for an absent row or cell; neither index is checked against a length,
        so the column must lie within the row's capacity. */
    function GetStr(i: nat, j: nat): (t: Text?)
      reads this, Repr
      requires Valid() && i < mlen
      requires rows[i] != null ==> j < rows[i].mlen
      ensures t != null <==>
        i < |View().rows| && View().rows[i].Some? &&
        j < |View().rows[i].value.cells| && View().rows[i].value.cells[j].Some?
      ensures t != null ==> t.Valid() && View().rows[i].value.cells[j] == Some(t.View())
    {
      if rows[i] == null then null else rows[i].GetStr(j)
    }

    /** t_get_str_l: the buffer of the cell at (i, j), or None when the row or cell is absent. */
    function GetStrL(i: nat, j: nat): (l: Option<seq<byte>>)
      reads this, Repr
      requires Valid() && i < mlen
      requires rows[i] != null ==> j < rows[i].mlen
      ensures l.Some? <==>
        i < |View().rows| && View().rows[i].Some? &&
        j < |View().rows[i].value.cells| && View().rows[i].value.cells[j].Some?
      ensures l.Some? && Terminated(View().rows[i].value.cells[j].value) ==>
        CStr(l.value) == CStr(View().rows[i].value.cells[j].value.content)
    {
      if rows[i] == null then None else rows[i].GetStrL(j)
    }
  }

  /** The views of a list of Tables. */
  ghost function TableViews(ts: seq<Table>): (r: seq<Tab>)
    reads ts
    ensures |r| == |ts|
    ensures forall k :: 0 <= k < |ts| ==> r[k] == ts[k].View()
  {
    seq(|ts|, k requires 0 <= k < |ts| reads ts => ts[k].View())
  }

  /** The first loop of t_concat: the sum of the sources' lengths. */
  method SumLens(srcs: seq<Table>) returns (total: nat)
    requires forall k :: 0 <= k < |srcs| ==> srcs[k].Valid()
    ensures total == RowTotal(TableViews(srcs))
  {
    ghost var ts := TableViews(srcs);
    total := 0;
    for i := 0 to |srcs|
      invariant total == RowTotal(ts[..i])
    {
      total := total + srcs[i].len;
      assert ts[..i + 1][..i] == ts[..i];
    }
    assert ts[..|srcs|] == ts;
  }

  /** A Table whose footprint no step has touched is still valid and reads the same. */
  twostate lemma TableUntouched(t: Table)
    requires old(t.Valid()) && unchanged(t) && unchanged(old(t.Repr))
    ensures t.Valid() && t.View() == old(t.View()) && t.Repr == old(t.Repr)
  {
  }

  /** One source of t_concat: copies of its rows appended after those of the sources before it. */
  method ConcatOne(t: Table, src: Table, ghost ts: seq<Tab>, i: nat, total: nat)
    requires t.Valid() && src.Valid() && CellsPresent(src.View()) && t.Repr !! src.Repr
    requires i < |ts| && ts[i] == src.View() && total == RowTotal(ts)
    requires t.View() == Tab(AllRows(ts[..i]), total)
    modifies t, t.Repr
    ensures t.Valid() && fresh(t.Repr - old(t.Repr))
    ensures t.View() == Tab(AllRows(ts[..i + 1]), total)
  {
    AllRowsStep(ts, i);
    t.AppendCopies(src);
  }

  /** t_concat: a Table of capacity sum(len), then v_copy copies of every source's rows
      appended in argument order and index order. The C code skips absent sources while
      summing but dereferences every source, row and cell while copying. */
  method Concat(srcs: seq<Table>) returns (t: Table)
    requires forall k :: 0 <= k < |srcs| ==> srcs[k].Valid() && CellsPresent(srcs[k].View())
    ensures fresh(t.Repr) && t.Valid()
    ensures t.View() == Tab(AllRows(old(TableViews(srcs))), RowTotal(old(TableViews(srcs))))
  {
    ghost var ts := TableViews(srcs);
    var total := SumLens(srcs);
    t := new Table(total);
    for i := 0 to |srcs|
      invariant fresh(t.Repr) && t.Valid()
      invariant t.View() == Tab(AllRows(ts[..i]), total)
    {
      TableUntouched(srcs[i]);
      ConcatOne(t, srcs[i], ts, i, total);
    }
    assert ts[..|srcs|] == ts;
  }

  /** The destination of transpose before any cell is added: new_table() and then m empty Rows
      appended with t_append. */
  method EmptyColumns(m: nat) returns (dst: Table)
    ensures fresh(dst.Repr) && dst.Valid() && RowsPresent(dst.View())
    ensures dst.len == m && dst.mlen == Grown(DefaultMemoryLen, m) && dst.Rows == Columns([], m)
  {
    dst := new Table.Default();
    dst.AppendEmptyRows(m);
  }

  /** transpose: the greatest row length m, a Table from new_table() holding m empty Rows, and
      then, row by row of the source, an s_copy of every present cell at index j < m appended to
      destination row j. */
  method Transpose(src: Table) returns (dst: Table)
    requires src.Valid() && RowsPresent(src.View())
    ensures fresh(dst.Repr) && dst.Valid() && dst.View() == TransposeVal(src.View())
  {
    var m := src.MaxRowLen();
    ghost var rows := src.Rows;
    assert rows[..0] == [];
    dst := EmptyColumns(m);
    for i := 0 to src.len
      invariant fresh(dst.Repr) && dst.Valid() && RowsPresent(dst.View())
      invariant dst.len == m && dst.mlen == Grown(DefaultMemoryLen, m)
      invariant dst.Rows == Columns(rows[..i], m)
    {
      ColumnsStep(rows, i, m);
      TableUntouched(src);
      dst.ScatterRowOf(src, i);
    }
    assert rows[..src.len] == rows;
  }

  /** t_copy gives storage of its own: a later t_append to the copy leaves the source as it was. */
  method CopyThenAppend(t: Table, r: Row?) returns (c: Table)
    requires t.Valid() && CellsPresent(t.View())
    requires r != null ==> r.Valid()
    ensures t.Valid() && t.View() == old(t.View())
    ensures c.Valid() && c.View() == AppendRowVal(old(t.View()), if r == null then None else Some(old(r.View())))
  {
    c := t.Copy();
    c.Append(r);
  }
}
