/** STRING_ST: a growable byte buffer with a logical length and a recorded capacity. */
module Strings {
  import opened CBytes

  /** What a STRING_ST shows through its accessors: the bytes [0, len) and the capacity mlen. */
  datatype Str = Str(content: seq<byte>, cap: nat)

  /** The Text invariant: the capacity leaves room for the terminator after the content. */
  predicate Terminated(s: Str) {
    |s.content| < s.cap
  }

  /** s_append_c: grows the capacity by DEFAULT_MEMORY_LEN exactly when the buffer is full. */
  function AppendByteVal(s: Str, ch: byte): Str {
    Str(s.content + [ch], if |s.content| == s.cap - 1 then s.cap + DefaultMemoryLen else s.cap)
  }

  /** s_append_l with the `n` bytes before the literal's terminator: grows to a tight fit. */
  function AppendLitVal(s: Str, lit: seq<byte>): Str {
    var n := |s.content| + |lit|;
    Str(s.content + lit, if n >= s.cap then n + 1 else s.cap)
  }

  /** The single-byte append keeps the Text invariant and adds exactly one byte; the capacity
      grows by exactly DEFAULT_MEMORY_LEN if and only if the buffer was full. */
  lemma AppendByteSpec(s: Str, ch: byte)
    requires Terminated(s)
    ensures var r := AppendByteVal(s, ch);
      Terminated(r) && r.content == s.content + [ch] && |r.content| == |s.content| + 1 &&
      (r.cap == s.cap + DefaultMemoryLen <==> |s.content| == s.cap - 1) &&
      (r.cap == s.cap <==> |s.content| != s.cap - 1)
  {
  }

  /** The literal append establishes the Text invariant from any state, appends exactly the
      literal, and reallocates to exactly old length + n + 1 if and only if that length reaches
      the capacity. */
  lemma AppendLitSpec(s: Str, lit: seq<byte>)
    ensures var r := AppendLitVal(s, lit);
      Terminated(r) && r.content == s.content + lit && |r.content| == |s.content| + |lit| &&
      r.content[..|s.content|] == s.content &&
      (|s.content| + |lit| >= s.cap ==> r.cap == |s.content| + |lit| + 1) &&
      (|s.content| + |lit| < s.cap ==> r.cap == s.cap)
  {
  }

  /** Appending bytes one at a time with s_append_c, from left to right. */
  function AppendEach(s: Str, bs: seq<byte>): Str
    decreases |bs|
  {
    if bs == [] then s else AppendEach(AppendByteVal(s, bs[0]), bs[1..])
  }

  /** Appending bytes one by one and appending them as one literal give the same content and
      both keep the invariant; only the capacities may differ. */
  lemma {:induction false} AppendEachAsLiteral(s: Str, bs: seq<byte>)
    requires Terminated(s)
    ensures Terminated(AppendEach(s, bs))
    ensures AppendEach(s, bs).content == AppendLitVal(s, bs).content
    decreases |bs|
  {
    if bs != [] {
      var t := AppendByteVal(s, bs[0]);
      AppendEachAsLiteral(t, bs[1..]);
      assert s.content + [bs[0]] + bs[1..] == s.content + bs;
    }
  }

  /** Appending bytes one by one never leaves less spare room than a tight-fit literal append:
      the capacity after single-byte appends is at least the literal append's capacity. */
  lemma {:induction false} AppendEachCapacity(s: Str, bs: seq<byte>)
    requires Terminated(s)
    ensures AppendEach(s, bs).cap >= AppendLitVal(s, bs).cap
    decreases |bs|
  {
    if bs != [] {
      var t := AppendByteVal(s, bs[0]);
      AppendEachCapacity(t, bs[1..]);
      assert AppendLitVal(t, bs[1..]).cap >= AppendLitVal(s, bs).cap;
    }
  }

  /** Sum of the lengths of the present sources (s_concat's first loop). */
  function SumLen(vs: seq<Option<Str>>): nat
    decreases |vs|
  {
    if vs == [] then 0
    else SumLen(vs[..|vs| - 1]) + (if vs[|vs| - 1].Some? then |vs[|vs| - 1].value.content| else 0)
  }

  /** The C strings of the present sources, in argument order. */
  function Pieces(vs: seq<Option<Str>>): seq<byte>
    decreases |vs|
  {
    if vs == [] then []
    else Pieces(vs[..|vs| - 1]) + (if vs[|vs| - 1].Some? then CStr(vs[|vs| - 1].value.content) else [])
  }

  /** The present sources' contents, concatenated in argument order. */
  function Joined(vs: seq<Option<Str>>): seq<byte>
    decreases |vs|
  {
    if vs == [] then []
    else Joined(vs[..|vs| - 1]) + (if vs[|vs| - 1].Some? then vs[|vs| - 1].value.content else [])
  }

  predicate AnyPresent(vs: seq<Option<Str>>) {
    exists k :: 0 <= k < |vs| && vs[k].Some?
  }

  /** s_concat's second loop: s_append_l of every present source, in argument order. */
  function AppendAll(acc: Str, vs: seq<Option<Str>>): Str
    decreases |vs|
  {
    if vs == [] then acc
    else
      var a := AppendAll(acc, vs[..|vs| - 1]);
      if vs[|vs| - 1].Some? then AppendLitVal(a, CStr(vs[|vs| - 1].value.content)) else a
  }

  /** s_concat: a Text of capacity SumLen, then every present source appended. */
  function ConcatVal(vs: seq<Option<Str>>): Str {
    AppendAll(Str([], SumLen(vs)), vs)
  }

  /** The concatenation holds the C strings of the present sources in argument order. */
  lemma {:induction false} AppendAllContent(acc: Str, vs: seq<Option<Str>>)
    ensures AppendAll(acc, vs).content == acc.content + Pieces(vs)
    decreases |vs|
  {
    if vs != [] {
      AppendAllContent(acc, vs[..|vs| - 1]);
    }
  }

  /** With sources free of zero bytes, the concatenation is exactly the present sources' contents
      in argument order, its length is the sum of their lengths, and its capacity is that sum
      plus one (the sum, zero, when no source is present). */
  lemma {:induction false} ConcatExact(vs: seq<Option<Str>>)
    requires forall k :: 0 <= k < |vs| && vs[k].Some? ==> NonZero(vs[k].value.content)
    ensures ConcatVal(vs).content == Joined(vs)
    ensures |ConcatVal(vs).content| == SumLen(vs)
    ensures ConcatVal(vs).cap == if AnyPresent(vs) then SumLen(vs) + 1 else SumLen(vs)
  {
    ConcatPrefix(vs, SumLen(vs));
  }

  lemma {:induction false} ConcatPrefix(vs: seq<Option<Str>>, total: nat)
    requires forall k :: 0 <= k < |vs| && vs[k].Some? ==> NonZero(vs[k].value.content)
    requires SumLen(vs) <= total
    ensures AppendAll(Str([], total), vs).content == Joined(vs)
    ensures |Joined(vs)| == SumLen(vs)
    ensures AppendAll(Str([], total), vs).cap ==
              if AnyPresent(vs) && SumLen(vs) == total then total + 1 else total
    decreases |vs|
  {
    if vs != [] {
      var p := vs[..|vs| - 1];
      ConcatPrefix(p, total);
      var last := vs[|vs| - 1];
      if last.Some? {
        CStrOfNonZero(last.value.content);
      }
      assert AnyPresent(vs) <==> AnyPresent(p) || last.Some? by {
        if AnyPresent(vs) && !last.Some? {
          var k :| 0 <= k < |vs| && vs[k].Some?;
          assert p[k] == vs[k];
        }
        if AnyPresent(p) {
          var k :| 0 <= k < |p| && p[k].Some?;
          assert vs[k] == p[k];
        }
      }
    }
  }

  /** The counting loop of s_append_l: the index of the first zero byte of a buffer that has one. */
  method StrLen(src: seq<byte>) returns (n: nat)
    requires 0 in src
    ensures n == CLen(src) && n < |src|
  {
    HasTerminator(src);
    n := 0;
    while src[n] != 0
      invariant n <= CLen(src) < |src|
      decreases |src| - n
    {
      n := n + 1;
    }
  }

  /** The copying loop of s_append_l: the bytes of `src` land at `at`, `at + 1`, ... and no
      other byte of the buffer changes. */
  method CopyAt(b: array<byte>, at: nat, src: seq<byte>)
    requires at + |src| <= b.Length
    modifies b
    ensures b[..at] == old(b[..at]) && b[at..at + |src|] == src
    ensures b[at + |src|..] == old(b[at + |src|..])
  {
    for i := 0 to |src|
      invariant forall k :: 0 <= k < b.Length && !(at <= k < at + i) ==> b[k] == old(b[k])
      invariant forall k :: 0 <= k < i ==> b[at + k] == src[k]
    {
      b[at + i] := src[i];
    }
    assert b[at..at + |src|] == src;
  }

  /** STRING_ST. The buffer's length is the recorded capacity; every byte from `len` on is
      zero (the buffer is zero-filled on allocation and each append writes a terminator). */
  class Text {
    var buf: array<byte>
    var len: nat
    var mlen: nat

    ghost predicate Valid()
      reads this, buf
    {
      buf.Length == mlen && len <= mlen &&
      forall k :: len <= k < mlen ==> buf[k] == 0
    }

    ghost function View(): Str
      reads this, buf
      requires Valid()
    {
      Str(buf[..len], mlen)
    }

    /** new_empty_str_s */
    constructor (sz: nat)
      ensures Valid() && fresh(buf) && View() == Str([], sz)
    {
      buf := new byte[sz](_ => 0);
      len := 0;
      mlen := sz;
    }

    /** new_empty_str */
    constructor Empty()
      ensures Valid() && fresh(buf) && View() == Str([], DefaultMemoryLen)
      ensures Terminated(View())
    {
      buf := new byte[DefaultMemoryLen](_ => 0);
      len := 0;
      mlen := DefaultMemoryLen;
    }

    /** new_str: an empty Text of the default capacity, then the literal appended. */
    constructor FromLiteral(l: seq<byte>)
      requires 0 in l
      ensures Valid() && fresh(buf) && Terminated(View())
      ensures View() == AppendLitVal(Str([], DefaultMemoryLen), CStr(l))
    {
      buf := new byte[DefaultMemoryLen](_ => 0);
      len := 0;
      mlen := DefaultMemoryLen;
      new;
      AppendLiteral(l);
    }

    /** new_str_s: an empty Text of capacity `strLen + 1`, then the literal appended. */
    constructor FromLiteralSized(l: seq<byte>, strLen: nat)
      requires 0 in l
      ensures Valid() && fresh(buf) && Terminated(View())
      ensures View() == AppendLitVal(Str([], strLen + 1), CStr(l))
    {
      buf := new byte[strLen + 1](_ => 0);
      len := 0;
      mlen := strLen + 1;
      new;
      AppendLiteral(l);
    }

    /** s_append_c. The C code writes at `len` and `len + 1`, so it needs `len < mlen`. */
    method AppendByte(ch: byte)
      requires Valid() && len < mlen
      modifies this, buf
      ensures Valid() && len < mlen
      ensures View() == AppendByteVal(old(View()), ch)
      ensures buf == old(buf) || fresh(buf)
    {
      if len == mlen - 1 {
        var tmp := new byte[mlen + DefaultMemoryLen](_ => 0);
        forall k | 0 <= k < mlen {
          tmp[k] := buf[k];
        }
        buf := tmp;
        mlen := mlen + DefaultMemoryLen;
      }
      buf[len] := ch;
      buf[len + 1] := 0;
      len := len + 1;
    }

    /** s_append_l: `src` is the literal's buffer, read up to its first zero byte. */
    method AppendLiteral(src: seq<byte>)
      requires Valid() && 0 in src
      modifies this, buf
      ensures Valid() && len < mlen
      ensures View() == AppendLitVal(old(View()), CStr(src))
      ensures buf == old(buf) || fresh(buf)
    {
      var n := StrLen(src);
      var olen := len;
      var newLen := len + n;
      if newLen >= mlen {
        Reserve(newLen + 1);
      }
      var b := buf;
      CopyAt(b, olen, src[..n]);
      b[newLen] := 0;
      len := newLen;
      assert b[..len] == b[..olen] + b[olen..newLen];
    }

    /** The reallocation inside s_append_l: a zero-filled buffer of exactly `size` bytes
        receives the old buffer, and the content does not change. */
    method Reserve(size: nat)
      requires Valid() && size > mlen
      modifies this
      ensures Valid() && fresh(buf) && len == old(len) && mlen == size
      ensures buf[..len] == old(buf[..len])
    {
      var tmp := new byte[size](_ => 0);
      forall k | 0 <= k < mlen {
        tmp[k] := buf[k];
      }
      buf := tmp;
      mlen := size;
    }

    /** s_copy: a fresh Text with the same length, the same capacity and a byte-for-byte copy of
        the whole buffer. */
    method Copy() returns (dst: Text)
      requires Valid()
      ensures fresh(dst) && fresh(dst.buf) && dst.Valid()
      ensures dst.View() == View() && dst.buf[..] == buf[..]
    {
      dst := new Text(mlen);
      forall k | 0 <= k < mlen {
        dst.buf[k] := buf[k];
      }
      dst.len := len;
    }

    /** s_get_len */
    function GetLen(): (n: nat)
      reads this, buf
      requires Valid()
      ensures n == |View().content|
    {
      len
    }

    /** s_get_mlen */
    function GetMlen(): (n: nat)
      reads this, buf
      requires Valid()
      ensures n == View().cap
    {
      mlen
    }

    /** s_get_str_l: the buffer itself; read as a C string it is the content up to its first
        zero byte. */
    function GetStrL(): (l: seq<byte>)
      reads this, buf
      requires Valid()
      ensures |l| == View().cap
      ensures len < mlen ==> 0 in l && CStr(l) == CStr(View().content)
    {
      if len < mlen then
        CStrOfPaddedPrefix(buf[..], len);
        assert buf[..][..len] == buf[..len];
        buf[..]
      else
        buf[..]
    }
  }

  /** The views of a list of Text handles, an absent handle as None. */
  ghost function ViewsOf(ts: seq<Text?>): (r: seq<Option<Str>>)
    reads set t: Text | t in ts
    reads set t: Text | t in ts :: t.buf
    requires forall k :: 0 <= k < |ts| && ts[k] != null ==> ts[k].Valid()
    ensures |r| == |ts|
    ensures forall k :: 0 <= k < |ts| ==> r[k] == (if ts[k] == null then None else Some(ts[k].View()))
  {
    seq(|ts|, k requires 0 <= k < |ts| && (ts[k] != null ==> ts[k].Valid())
                 reads set t: Text | t in ts, set t: Text | t in ts :: t.buf =>
      if ts[k] == null then None else Some(ts[k].View()))
  }

  /** The first loop of s_concat: the sum of the present sources' lengths. */
  method SumLens(srcs: seq<Text?>) returns (total: nat)
    requires forall k :: 0 <= k < |srcs| && srcs[k] != null ==> srcs[k].Valid()
    ensures total == SumLen(ViewsOf(srcs))
  {
    ghost var vs := ViewsOf(srcs);
    total := 0;
    for i := 0 to |srcs|
      invariant total == SumLen(vs[..i])
    {
      if srcs[i] != null {
        total := total + srcs[i].len;
      }
      assert vs[..i + 1][..i] == vs[..i];
    }
    assert vs[..|srcs|] == vs;
  }

  /** s_concat: the sources are read as C strings; absent sources are skipped. Reading a source's
      buffer up to its terminator needs `len < mlen`. */
  method Concat(srcs: seq<Text?>) returns (r: Text)
    requires forall k :: 0 <= k < |srcs| && srcs[k] != null ==> srcs[k].Valid() && srcs[k].len < srcs[k].mlen
    ensures fresh(r) && fresh(r.buf) && r.Valid()
    ensures r.View() == ConcatVal(old(ViewsOf(srcs)))
  {
    ghost var vs := ViewsOf(srcs);
    var total := SumLens(srcs);
    r := new Text(total);
    for i := 0 to |srcs|
      invariant fresh(r) && fresh(r.buf) && r.Valid()
      invariant r.View() == AppendAll(Str([], total), vs[..i])
    {
      assert vs[..i + 1][..i] == vs[..i];
      var s := srcs[i];
      if s != null {
        assert vs[i] == Some(s.View());
        var l := s.GetStrL();
        r.AppendLiteral(l);
      }
    }
    assert vs[..|srcs|] == vs;
  }

  /** s_copy gives storage of its own: a later s_append_c to the copy leaves the source as it was. */
  method CopyThenAppend(s: Text, ch: byte) returns (c: Text)
    requires s.Valid() && Terminated(s.View())
    ensures s.Valid() && s.View() == old(s.View())
    ensures c.Valid() && c.View() == AppendByteVal(old(s.View()), ch)
  {
    c := s.Copy();
    c.AppendByte(ch);
  }
}
