/** VECTOR_ST: a growable array of owned Text handles, each slot a Text or absent (NULL). */
module Vectors {
  import opened CBytes
  import opened Strings

  /** What a VECTOR_ST shows: the views of its cells [0, len) and its capacity mlen. */
  datatype Vec = Vec(cells: seq<Option<Str>>, cap: nat)

  /** v_append: the slot array grows to exactly the new length when it is full. */
  function AppendVal(v: Vec, c: Option<Str>): Vec {
    var n := |v.cells| + 1;
    Vec(v.cells + [c], if n > v.cap then n else v.cap)
  }

  /** The capacity of a Row created with capacity `init` after `n` appends. */
  function Grown(init: nat, n: nat): nat {
    if n > init then n else init
  }

  /** v_append adds exactly one cell at index old len and keeps the earlier ones; the capacity
      becomes exactly the new length when the Row was full and is unchanged otherwise. */
  lemma AppendSpec(v: Vec, c: Option<Str>)
    requires |v.cells| <= v.cap
    ensures var r := AppendVal(v, c);
      |r.cells| == |v.cells| + 1 && r.cells[|v.cells|] == c && r.cells[..|v.cells|] == v.cells &&
      |r.cells| <= r.cap &&
      (|v.cells| + 1 > v.cap ==> r.cap == |v.cells| + 1) &&
      (|v.cells| + 1 <= v.cap ==> r.cap == v.cap)
  {
  }

  /** Appending to a Row created with capacity `init`: its capacity is always Grown(init, len). */
  function AppendMany(v: Vec, cs: seq<Option<Str>>): Vec
    decreases |cs|
  {
    if cs == [] then v else AppendMany(AppendVal(v, cs[0]), cs[1..])
  }

  lemma {:induction false} AppendManyGrown(init: nat, done: seq<Option<Str>>, cs: seq<Option<Str>>)
    ensures AppendMany(Vec(done, Grown(init, |done|)), cs) == Vec(done + cs, Grown(init, |done| + |cs|))
    decreases |cs|
  {
    if cs != [] {
      AppendManyGrown(init, done + [cs[0]], cs[1..]);
      assert done + [cs[0]] + cs[1..] == done + cs;
    }
  }

  /** Appending every cell of `w` to `v`, one v_append at a time. */
  function AppendRow(v: Vec, w: Vec): Vec {
    Vec(v.cells + w.cells, Grown(v.cap, |v.cells| + |w.cells|))
  }

  /** Appending one more cell of `w` continues the append of its earlier cells. */
  lemma AppendRowStep(v: Vec, cs: seq<Option<Str>>, j: nat, m: nat)
    requires j < |cs|
    ensures AppendVal(AppendRow(v, Vec(cs[..j], m)), cs[j]) == AppendRow(v, Vec(cs[..j + 1], m))
  {
    assert cs[..j + 1] == cs[..j] + [cs[j]];
    assert v.cells + cs[..j] + [cs[j]] == v.cells + cs[..j + 1];
  }

  /** v_copy and v_concat dereference every cell. */
  predicate AllPresent(v: Vec) {
    forall k :: 0 <= k < |v.cells| ==> v.cells[k].Some?
  }

  /** The sum of the sources' lengths (v_concat's first loop). */
  function TotalLen(vs: seq<Vec>): nat
    decreases |vs|
  {
    if vs == [] then 0 else TotalLen(vs[..|vs| - 1]) + |vs[|vs| - 1].cells|
  }

  /** The sources' cells in argument order and then index order. */
  function Flatten(vs: seq<Vec>): seq<Option<Str>>
    decreases |vs|
  {
    if vs == [] then [] else Flatten(vs[..|vs| - 1]) + vs[|vs| - 1].cells
  }

  /** The concatenation has exactly the sum of the sources' lengths, and each prefix of the
      sources contributes no more than the whole. */
  lemma {:induction false} FlattenLength(vs: seq<Vec>, i: nat)
    requires i <= |vs|
    ensures |Flatten(vs)| == TotalLen(vs)
    ensures TotalLen(vs[..i]) <= TotalLen(vs)
    decreases |vs|
  {
    if vs != [] {
      var p := vs[..|vs| - 1];
      if i == |vs| {
        assert vs[..i] == vs;
        FlattenLength(p, 0);
      } else {
        assert vs[..i] == p[..i];
        FlattenLength(p, i);
      }
    }
  }

  /** Cell j of source i sits at index TotalLen(sources before i) + j of the concatenation. */
  lemma {:induction false} FlattenAt(vs: seq<Vec>, i: nat, j: nat)
    requires i < |vs| && j < |vs[i].cells|
    ensures TotalLen(vs[..i]) + j < |Flatten(vs)|
    ensures Flatten(vs)[TotalLen(vs[..i]) + j] == vs[i].cells[j]
    decreases |vs|
  {
    var p := vs[..|vs| - 1];
    FlattenLength(p, i);
    if i == |vs| - 1 {
      assert vs[..i] == p;
    } else {
      assert vs[..i] == p[..i];
      FlattenAt(p, i, j);
    }
  }

  /** Concatenating one more source appends its cells, and never beyond the total length. */
  lemma FlattenStep(vs: seq<Vec>, i: nat)
    requires i < |vs|
    ensures Flatten(vs[..i + 1]) == Flatten(vs[..i]) + vs[i].cells
    ensures |Flatten(vs[..i])| + |vs[i].cells| <= TotalLen(vs)
  {
    FlattenLength(vs, i + 1);
    FlattenLength(vs[..i + 1], i);
    assert vs[..i + 1][..i] == vs[..i];
  }

  /** A slot holds a cell: NULL for an absent cell, else a valid Text with that view. */
  ghost predicate Holds(t: Text?, c: Option<Str>)
    reads t, if t == null then {} else {t.buf}
  {
    if t == null then c == None else t.Valid() && c == Some(t.View())
  }

  /** VECTOR_ST. The slot array holds at least the recorded capacity (a reallocation allocates
      one slot more than it records); slots from `len` on are NULL (every array is zero-filled
      on allocation). Every present Text is owned by this Row alone: no two slots share a Text
      or a byte buffer. */
  class Row {
    var slots: array<Text?>
    var len: nat
    var mlen: nat
    ghost var Items: seq<Text?>
    ghost var Cells: seq<Option<Str>>
    ghost var Repr: set<object>

    /** The first `n` slots hold the handles in Items, whose cells are Cells, and the slots
        after them are NULL. */
    ghost predicate Filled(n: nat)
      reads this, Repr
    {
      this in Repr && slots in Repr &&
      mlen <= slots.Length && n <= mlen && |Items| == n && |Cells| == n &&
      slots[..n] == Items &&
      (forall k :: n <= k < slots.Length ==> slots[k] == null) &&
      (forall k :: 0 <= k < n && Items[k] != null ==> Items[k] in Repr && Items[k].buf in Repr) &&
      (forall k :: 0 <= k < n ==> Holds(Items[k], Cells[k])) &&
      (forall k, m :: 0 <= k < m < n && Items[k] != null && Items[m] != null ==>
        Items[k] != Items[m] && Items[k].buf != Items[m].buf)
    }

    ghost predicate Valid()
      reads this, Repr
    {
      Filled(len)
    }

    ghost function View(): Vec
      reads this
    {
      Vec(Cells, mlen)
    }

    /** new_vector_s */
    constructor (sz: nat)
      ensures Valid() && fresh(Repr) && View() == Vec([], sz)
    {
      slots := new Text?[sz](_ => null);
      len := 0;
      mlen := sz;
      Items := [];
      Cells := [];
      Repr := {this, slots};
    }

    /** new_vector */
    constructor Default()
      ensures Valid() && fresh(Repr) && View() == Vec([], DefaultMemoryLen)
    {
      slots := new Text?[DefaultMemoryLen](_ => null);
      len := 0;
      mlen := DefaultMemoryLen;
      Items := [];
      Cells := [];
      Repr := {this, slots};
    }

    /** The reallocation inside v_append: a zero-filled array of `n + 1` slots receives the
        first mlen old slots and the recorded capacity becomes `n`; the content does not change. */
    method Grow(n: nat)
      requires Valid() && n > mlen
      modifies this
      ensures Valid() && fresh(slots) && Repr == old(Repr) + {slots}
      ensures len == old(len) && mlen == n && Cells == old(Cells)
      ensures Items == old(Items)
    {
      var tmp := new Text?[n + 1](_ => null);
      forall k | 0 <= k < mlen {
        tmp[k] := slots[k];
      }
      slots := tmp;
      mlen := n;
      Repr := Repr + {tmp};
    }

    /** v_append: the Row takes ownership of `t` (which may be NULL); a full slot array is
        first reallocated to exactly the new length. */
    method Append(t: Text?)
      requires Valid()
      requires t != null ==> t.Valid() && t !in Repr && t.buf !in Repr
      modifies this, slots
      ensures Valid() && Repr == old(Repr) + {slots} + (if t == null then {} else {t, t.buf})
      ensures View() == AppendVal(old(View()), if t == null then None else Some(t.View()))
      ensures Items == old(Items) + [t]
      ensures slots == old(slots) || fresh(slots)
    {
      if len + 1 > mlen {
        Grow(len + 1);
      }
      Push(t);
    }

    /** The store of v_append once there is room: slot `len` receives `t` and `len` grows. */
    method Push(t: Text?)
      requires Valid() && len < mlen
      requires t != null ==> t.Valid() && t !in Repr && t.buf !in Repr
      modifies this, slots
      ensures Valid() && Repr == old(Repr) + (if t == null then {} else {t, t.buf})
      ensures slots == old(slots) && len == old(len) + 1 && mlen == old(mlen)
      ensures Items == old(Items) + [t]
      ensures Cells == old(Cells) + [if t == null then None else Some(t.View())]
    {
      slots[len] := t;
      len := len + 1;
      Items := Items + [t];
      Cells := Cells + [if t == null then None else Some(t.View())];
      if t != null {
        Repr := Repr + {t, t.buf};
      }
    }

    /** v_copy: a fresh Row of the same capacity whose cells are fresh copies of this Row's
        cells. The C code copies every cell without a NULL check. */
    method Copy() returns (dst: Row)
      requires Valid() && AllPresent(View())
      ensures fresh(dst.Repr) && dst.Valid() && dst.View() == View()
    {
      dst := new Row(mlen);
      for i := 0 to len
        invariant fresh(dst.Repr) && dst.Valid() && dst.len == i && dst.mlen == mlen
        invariant dst.Cells == Cells[..i]
      {
        CopyCellInto(dst, i);
      }
    }

    /** One step of v_copy: an s_copy of cell i stored in `dst`, which holds copies of the
        cells before it. */
    method CopyCellInto(dst: Row, i: nat)
      requires Valid() && AllPresent(View()) && i < len
      requires dst.Valid() && dst.Repr !! Repr && dst.len == i && dst.mlen == mlen && dst.Cells == Cells[..i]
      modifies dst, dst.slots
      ensures dst.Valid() && fresh(dst.Repr - old(dst.Repr))
      ensures dst.len == i + 1 && dst.mlen == mlen && dst.Cells == Cells[..i + 1]
    {
      assert Holds(Items[i], Cells[i]);
      var c := slots[i].Copy();
      dst.Push(c);
      assert Cells[..i + 1] == Cells[..i] + [Cells[i]];
    }

    /** One step of the inner loop of v_concat: v_append of an s_copy of cell j of `src`. */
    method AppendCopyOf(src: Row, j: nat)
      requires Valid() && src.Valid() && j < src.len && src.Cells[j].Some? && Repr !! src.Repr
      modifies this, slots
      ensures Valid() && fresh(Repr - old(Repr)) && (slots == old(slots) || fresh(slots))
      ensures View() == AppendVal(old(View()), src.Cells[j])
    {
      assert Holds(src.Items[j], src.Cells[j]);
      var c := src.slots[j].Copy();
      Append(c);
    }

    /** The inner loop of v_concat: a copy of every cell of `src`, appended in index order. */
    method AppendCopies(src: Row)
      requires Valid() && src.Valid() && AllPresent(src.View()) && Repr !! src.Repr
      modifies this, slots
      ensures Valid() && fresh(Repr - old(Repr))
      ensures View() == AppendRow(old(View()), src.View())
    {
      for j := 0 to src.len
        invariant Valid() && fresh(Repr - old(Repr)) && Repr !! src.Repr
        invariant slots == old(slots) || fresh(slots)
        invariant View() == AppendRow(old(View()), Vec(src.Cells[..j], src.mlen))
      {
        AppendRowStep(old(View()), src.Cells, j, src.mlen);
        AppendCopyOf(src, j);
      }
      assert src.Cells[..src.len] == src.Cells;
    }

    /** The Text in the last slot appends a literal: s_append_l(v_get_str(v, v_get_len(v) - 1), l). */
    method AppendToLast(l: seq<byte>)
      requires Valid() && len > 0 && slots[len - 1] != null && 0 in l
      modifies this, slots[len - 1], slots[len - 1].buf
      ensures Valid() && fresh(Repr - old(Repr))
      ensures len == old(len) && mlen == old(mlen) && slots == old(slots)
      ensures View() == Vec(old(Cells)[len - 1 := Some(AppendLitVal(old(Cells)[len - 1].value, CStr(l)))], mlen)
    {
      var t := slots[len - 1];
      t.AppendLiteral(l);
      Cells := Cells[len - 1 := Some(t.View())];
      Repr := Repr + {t.buf};
    }

    /** v_get_len */
    function GetLen(): (n: nat)
      reads this, Repr
      requires Valid()
      ensures n == |View().cells|
    {
      len
    }

    /** v_get_mlen */
    function GetMlen(): (n: nat)
      reads this
      ensures n == View().cap
    {
      mlen
    }

    /** v_get_str: no bounds check against `len`; slots past `len` read as NULL. */
    function GetStr(index: nat): (t: Text?)
      reads this, Repr
      requires Valid() && index < mlen
      ensures index >= |View().cells| ==> t == null
      ensures index < |View().cells| ==> (t == null <==> View().cells[index] == None)
      ensures t != null ==> t in Repr && t.buf in Repr && t.Valid() && View().cells[index] == Some(t.View())
    {
      slots[index]
    }

    /** v_get_str_l: the buffer of the Text at `index`, or None for an absent slot. */
    function GetStrL(index: nat): (l: Option<seq<byte>>)
      reads this, Repr
      requires Valid() && index < mlen
      ensures l.None? <==> index >= |View().cells| || View().cells[index] == None
      ensures l.Some? && Terminated(View().cells[index].value) ==>
                CStr(l.value) == CStr(View().cells[index].value.content)
    {
      if slots[index] == null then None else Some(slots[index].GetStrL())
    }
  }

  /** The views of a list of Rows. */
  ghost function RowViews(rs: seq<Row>): (r: seq<Vec>)
    reads rs
    ensures |r| == |rs|
    ensures forall k :: 0 <= k < |rs| ==> r[k] == rs[k].View()
  {
    seq(|rs|, k requires 0 <= k < |rs| reads rs => rs[k].View())
  }

  /** The first loop of v_concat: the sum of the sources' lengths. */
  method SumLens(srcs: seq<Row>) returns (total: nat)
    requires forall k :: 0 <= k < |srcs| ==> srcs[k].Valid()
    ensures total == TotalLen(RowViews(srcs))
  {
    ghost var vs := RowViews(srcs);
    total := 0;
    for i := 0 to |srcs|
      invariant total == TotalLen(vs[..i])
    {
      total := total + srcs[i].len;
      assert vs[..i + 1][..i] == vs[..i];
    }
    assert vs[..|srcs|] == vs;
  }

  /** A Row whose footprint no step has touched is still valid and reads the same. */
  twostate lemma RowUntouched(r: Row)
    requires old(r.Valid()) && unchanged(r) && unchanged(old(r.Repr))
    ensures r.Valid() && r.View() == old(r.View()) && r.Repr == old(r.Repr)
  {
  }

  /** One source of v_concat: copies of its cells appended after those of the sources before it. */
  method ConcatOne(v: Row, src: Row, ghost vs: seq<Vec>, i: nat, total: nat)
    requires v.Valid() && src.Valid() && AllPresent(src.View()) && v.Repr !! src.Repr
    requires i < |vs| && vs[i] == src.View() && total == TotalLen(vs)
    requires v.View() == Vec(Flatten(vs[..i]), total)
    modifies v, v.Repr
    ensures v.Valid() && fresh(v.Repr - old(v.Repr))
    ensures v.View() == Vec(Flatten(vs[..i + 1]), total)
  {
    FlattenStep(vs, i);
    v.AppendCopies(src);
  }

  /** v_concat: a Row of capacity sum(len), then copies of every source's cells appended in
      argument order and index order. The C code skips absent sources while summing but
      dereferences every source and every cell while copying. */
  method Concat(srcs: seq<Row>) returns (v: Row)
    requires forall k :: 0 <= k < |srcs| ==> srcs[k].Valid() && AllPresent(srcs[k].View())
    ensures fresh(v.Repr) && v.Valid()
    ensures v.View() == Vec(Flatten(old(RowViews(srcs))), TotalLen(old(RowViews(srcs))))
  {
    ghost var vs := RowViews(srcs);
    var total := SumLens(srcs);
    v := new Row(total);
    for i := 0 to |srcs|
      invariant fresh(v.Repr) && v.Valid()
      invariant v.View() == Vec(Flatten(vs[..i]), total)
    {
      RowUntouched(srcs[i]);
      ConcatOne(v, srcs[i], vs, i, total);
    }
    assert vs[..|srcs|] == vs;
  }

  /** v_copy gives storage of its own: a later v_append to the copy leaves the source as it was. */
  method CopyThenAppend(r: Row, t: Text?) returns (c: Row)
    requires r.Valid() && AllPresent(r.View())
    requires t != null ==> t.Valid()
    ensures r.Valid() && r.View() == old(r.View())
    ensures c.Valid() && c.View() == AppendVal(old(r.View()), if t == null then None else Some(old(t.View())))
  {
    c := r.Copy();
    c.Append(t);
  }
}
