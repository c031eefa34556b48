/** parse_delimited_c: splitting a Text at a single delimiter byte into a Row of Texts, through a
    256-byte scratch buffer. */
module Tokenizer {
  import opened CBytes
  import opened Strings
  import opened Vectors

  /** The scratch buffer holds at most this many bytes before its terminator. */
  const ScratchLimit: nat := DefaultMemoryLen - 1

  /** The tokenizer's state between two input bytes: the Row built so far, the bytes in the
      scratch buffer, and the `append` flag (the scratch continues the last token). */
  datatype Scan = Scan(row: Vec, scratch: seq<byte>, cont: bool)

  /** A continuation always has a last token to continue. */
  predicate Ready(st: Scan) {
    st.cont ==> |st.row.cells| > 0 && st.row.cells[|st.row.cells| - 1].Some?
  }

  /** Emptying the scratch buffer into the Row: s_append_l onto the last Text when continuing,
      else v_append of new_str(scratch). */
  function Flush(st: Scan): (v: Vec)
    requires Ready(st)
    ensures |v.cells| > 0 && v.cells[|v.cells| - 1].Some?
    ensures |v.cells| == |st.row.cells| + (if st.cont then 0 else 1)
    ensures v.cells[..|v.cells| - 1] == st.row.cells[..|v.cells| - 1]
  {
    if st.cont then
      var n := |st.row.cells|;
      Vec(st.row.cells[n - 1 := Some(AppendLitVal(st.row.cells[n - 1].value, st.scratch))], st.row.cap)
    else
      AppendVal(st.row, Some(AppendLitVal(Str([], DefaultMemoryLen), st.scratch)))
  }

  /** One iteration of the loop as written: a delimiter, or any byte arriving when the scratch
      buffer is full, flushes the scratch and is itself dropped; the flag is set exactly when the
      scratch was full. Any other byte goes into the scratch. */
  function Step(st: Scan, c: byte, d: byte): (r: Scan)
    requires Ready(st)
    ensures Ready(r)
  {
    if c == d || |st.scratch| == ScratchLimit then Scan(Flush(st), [], |st.scratch| == ScratchLimit)
    else Scan(st.row, st.scratch + [c], st.cont)
  }

  /** The loop over the input bytes, from a new_vector() and an empty scratch. */
  function Run(input: seq<byte>, d: byte): (st: Scan)
    ensures Ready(st) && |st.scratch| <= ScratchLimit
    decreases |input|
  {
    if input == [] then Scan(Vec([], DefaultMemoryLen), [], false)
    else Step(Run(input[..|input| - 1], d), input[|input| - 1], d)
  }

  /** The loop after one more byte of the input. */
  lemma RunPrefix(input: seq<byte>, p: nat, d: byte)
    requires p < |input|
    ensures Run(input[..p + 1], d) == Step(Run(input[..p], d), input[p], d)
  {
    assert input[..p + 1][..p] == input[..p];
  }

  /** parse_delimited_c as written: the loop, then the final flush. */
  function Parse(input: seq<byte>, d: byte): Vec {
    Flush(Run(input, d))
  }

  // ----- The fields between delimiters -----

  /** The fields after one more input byte: a delimiter starts a new empty field, any other byte
      extends the last one. */
  function Extend(fs: seq<seq<byte>>, c: byte, d: byte): (r: seq<seq<byte>>)
    requires |fs| > 0
    ensures |r| == |fs| + (if c == d then 1 else 0)
  {
    if c == d then fs + [[]] else fs[|fs| - 1 := fs[|fs| - 1] + [c]]
  }

  /** The fields of `s` separated by `d`: empty input is one empty field, consecutive delimiters
      give an empty field between them and a trailing delimiter a trailing empty field. */
  function Split(s: seq<byte>, d: byte): (fs: seq<seq<byte>>)
    ensures |fs| > 0
    decreases |s|
  {
    if s == [] then [[]] else Extend(Split(s[..|s| - 1], d), s[|s| - 1], d)
  }

  /** Fields written out with `d` between neighbours. */
  function Join(fs: seq<seq<byte>>, d: byte): seq<byte>
    requires |fs| > 0
    decreases |fs|
  {
    if |fs| == 1 then fs[0] else Join(fs[..|fs| - 1], d) + [d] + fs[|fs| - 1]
  }

  /** The number of delimiters in `s`. */
  function Count(s: seq<byte>, d: byte): nat
    decreases |s|
  {
    if s == [] then 0 else Count(s[..|s| - 1], d) + (if s[|s| - 1] == d then 1 else 0)
  }

  predicate Free(f: seq<byte>, d: byte) {
    forall k :: 0 <= k < |f| ==> f[k] != d
  }

  predicate AllFree(fs: seq<seq<byte>>, d: byte) {
    forall k :: 0 <= k < |fs| ==> Free(fs[k], d)
  }

  /** A non-empty sequence is its prefix and its last element. */
  lemma Snoc(s: seq<byte>)
    requires |s| > 0
    ensures s[..|s| - 1] + [s[|s| - 1]] == s
  {
  }

  /** Extending the last field by a byte extends the join by that byte. */
  lemma JoinExtendLast(fs: seq<seq<byte>>, c: byte, d: byte)
    requires |fs| > 0
    ensures Join(fs[|fs| - 1 := fs[|fs| - 1] + [c]], d) == Join(fs, d) + [c]
  {
    var n := |fs|;
    var gs := fs[n - 1 := fs[n - 1] + [c]];
    if n > 1 {
      var j := Join(fs[..n - 1], d);
      assert gs[..n - 1] == fs[..n - 1];
      assert j + [d] + (fs[n - 1] + [c]) == (j + [d] + fs[n - 1]) + [c];
    }
  }

  /** A new empty field adds a delimiter to the join. */
  lemma JoinEmptyLast(fs: seq<seq<byte>>, d: byte)
    requires |fs| > 0
    ensures Join(fs + [[]], d) == Join(fs, d) + [d]
  {
    assert (fs + [[]])[..|fs|] == fs;
    assert Join(fs, d) + [d] + [] == Join(fs, d) + [d];
  }

  /** Split inverts Join: the fields joined with the delimiter give the input back. */
  lemma {:induction false} SplitJoin(s: seq<byte>, d: byte)
    ensures Join(Split(s, d), d) == s
    decreases |s|
  {
    if s != [] {
      var p, c := s[..|s| - 1], s[|s| - 1];
      var fs := Split(p, d);
      assert Split(s, d) == Extend(fs, c, d);
      SplitJoin(p, d);
      if c != d {
        JoinExtendLast(fs, c, d);
      } else {
        JoinEmptyLast(fs, d);
      }
      Snoc(s);
    }
  }

  /** No field holds the delimiter. */
  lemma {:induction false} SplitFree(s: seq<byte>, d: byte)
    ensures AllFree(Split(s, d), d)
    decreases |s|
  {
    if s != [] {
      var p, c := s[..|s| - 1], s[|s| - 1];
      SplitFree(p, d);
      var fs, gs := Split(p, d), Split(s, d);
      if c != d {
        forall k | 0 <= k < |gs| ensures Free(gs[k], d) {
          if k == |fs| - 1 {
            assert gs[k] == fs[k] + [c];
          } else {
            assert gs[k] == fs[k];
          }
        }
      } else {
        assert gs == fs + [[]];
      }
    }
  }

  /** There is one field more than there are delimiters. */
  lemma {:induction false} SplitCount(s: seq<byte>, d: byte)
    ensures |Split(s, d)| == Count(s, d) + 1
    decreases |s|
  {
    if s != [] {
      SplitCount(s[..|s| - 1], d);
    }
  }

  /** Split of one more byte is the fields extended by it. */
  lemma SplitSnoc(p: seq<byte>, c: byte, d: byte)
    ensures Split(p + [c], d) == Extend(Split(p, d), c, d)
  {
    assert (p + [c])[..|p|] == p;
  }

  /** Appending a non-empty run is appending all but its last byte, then that byte. */
  lemma AppendSnoc(s: seq<byte>, f: seq<byte>)
    requires |f| > 0
    ensures s + f == (s + f[..|f| - 1]) + [f[|f| - 1]]
  {
  }

  /** Extending a field that was just replaced extends the replacement. */
  lemma ExtendUpdated(fs: seq<seq<byte>>, x: seq<byte>, c: byte, d: byte)
    requires |fs| > 0 && c != d
    ensures Extend(fs[|fs| - 1 := x], c, d) == fs[|fs| - 1 := x + [c]]
  {
  }

  /** Appending a delimiter-free run extends the last field by exactly that run. */
  lemma {:induction false} SplitAppendFree(s: seq<byte>, f: seq<byte>, d: byte)
    requires Free(f, d)
    ensures var fs := Split(s, d);
      Split(s + f, d) == fs[|fs| - 1 := fs[|fs| - 1] + f]
    decreases |f|
  {
    var fs := Split(s, d);
    var n := |fs|;
    if f == [] {
      assert s + f == s;
      assert fs[n - 1] + f == fs[n - 1];
    } else {
      var g, c := f[..|f| - 1], f[|f| - 1];
      assert Free(g, d) by {
        forall k | 0 <= k < |g| ensures g[k] != d { assert g[k] == f[k]; }
      }
      SplitAppendFree(s, g, d);
      AppendSnoc(s, f);
      SplitSnoc(s + g, c, d);
      ExtendUpdated(fs, fs[n - 1] + g, c, d);
      AppendSnoc(fs[n - 1], f);
    }
  }

  /** A delimiter followed by a delimiter-free run adds that run as one more field. */
  lemma SplitAfterDelimiter(s: seq<byte>, f: seq<byte>, d: byte)
    requires Free(f, d)
    ensures Split(s + [d] + f, d) == Split(s, d) + [f]
  {
    var x := s + [d];
    assert x[..|x| - 1] == s;
    assert Split(x, d) == Split(s, d) + [[]];
    SplitAppendFree(x, f, d);
    assert [] + f == f;
  }

  /** Join inverts Split on delimiter-free fields: the fields are recovered from their join. */
  lemma {:induction false} JoinSplit(fs: seq<seq<byte>>, d: byte)
    requires |fs| > 0 && AllFree(fs, d)
    ensures Split(Join(fs, d), d) == fs
    decreases |fs|
  {
    var n := |fs|;
    if n == 1 {
      SplitAppendFree([], fs[0], d);
      assert [] + fs[0] == fs[0];
    } else {
      var init, last := fs[..n - 1], fs[n - 1];
      assert AllFree(init, d) by {
        forall k | 0 <= k < |init| ensures Free(init[k], d) { assert init[k] == fs[k]; }
      }
      assert Free(last, d);
      JoinSplit(init, d);
      assert Join(fs, d) == Join(init, d) + [d] + last;
      SplitAfterDelimiter(Join(init, d), last, d);
      assert fs == init + [last];
    }
  }

  // ----- The tokenizer against the fields -----

  /** The contents of a Row's cells, an absent cell reading as empty. */
  function Texts(v: Vec): (ts: seq<seq<byte>>)
    ensures |ts| == |v.cells|
  {
    seq(|v.cells|, k requires 0 <= k < |v.cells| => if v.cells[k].Some? then v.cells[k].value.content else [])
  }

  /** Fresh tokens of the default capacity holding the given contents. */
  function Tokens(fs: seq<seq<byte>>): (cs: seq<Option<Str>>)
    ensures |cs| == |fs|
  {
    seq(|fs|, k requires 0 <= k < |fs| => Some(Str(fs[k], DefaultMemoryLen)))
  }

  predicate ShortFields(fs: seq<seq<byte>>) {
    forall k :: 0 <= k < |fs| ==> |fs[k]| < ScratchLimit
  }

  /** Flushing a short current field appends it as one more token of the default capacity. */
  lemma FlushShort(fs: seq<seq<byte>>)
    requires |fs| > 0 && |fs[|fs| - 1]| < ScratchLimit
    ensures var n := |fs|;
      Flush(Scan(Vec(Tokens(fs[..n - 1]), Grown(DefaultMemoryLen, n - 1)), fs[n - 1], false)) ==
      Vec(Tokens(fs), Grown(DefaultMemoryLen, n))
  {
    var n := |fs|;
    assert [] + fs[n - 1] == fs[n - 1];
    assert Tokens(fs) == Tokens(fs[..n - 1]) + [Some(Str(fs[n - 1], DefaultMemoryLen))];
  }

  /** While every field so far is shorter than the scratch buffer, the loop has emitted one
      token of the default capacity per completed field, holds the current field in the scratch
      and never continues a token. */
  lemma {:induction false} RunShort(s: seq<byte>, d: byte)
    requires ShortFields(Split(s, d))
    ensures var fs := Split(s, d); var n := |fs|;
      Run(s, d) == Scan(Vec(Tokens(fs[..n - 1]), Grown(DefaultMemoryLen, n - 1)), fs[n - 1], false)
    decreases |s|
  {
    if s != [] {
      var p, c := s[..|s| - 1], s[|s| - 1];
      var ps := Split(p, d);
      var m := |ps|;
      var fs := Split(s, d);
      assert ShortFields(ps) by {
        forall k | 0 <= k < m ensures |ps[k]| < ScratchLimit {
          assert |ps[k]| <= |fs[k]|;
        }
      }
      RunShort(p, d);
      var st := Run(p, d);
      assert Run(s, d) == Step(st, c, d);
      if c == d {
        assert fs == ps + [[]] && fs[..m] == ps;
        FlushShort(ps);
      } else {
        assert |ps[m - 1]| < |fs[m - 1]|;
        assert fs[..m - 1] == ps[..m - 1];
      }
    }
  }

  /** As long as no field reaches 255 bytes, parse_delimited_c returns exactly the fields
      between the delimiters, each a fresh Text of the default capacity, in a Row whose capacity
      is that of new_vector() after that many v_append calls. */
  lemma {:induction false} ParseShort(s: seq<byte>, d: byte)
    requires ShortFields(Split(s, d))
    ensures Parse(s, d) == Vec(Tokens(Split(s, d)), Grown(DefaultMemoryLen, |Split(s, d)|))
    ensures Texts(Parse(s, d)) == Split(s, d)
    ensures |Parse(s, d).cells| == Count(s, d) + 1
  {
    var fs := Split(s, d);
    var n := |fs|;
    RunShort(s, d);
    SplitCount(s, d);
    FlushShort(fs);
    assert Texts(Parse(s, d)) == fs;
  }

  // ----- A delimiter-free run of 256 bytes or more -----

  /** A delimiter-free input with the last byte of every whole block of 256 removed (positions
      255, 511, 767, ...): the bytes that arrive when the scratch buffer is full. */
  function Keep(s: seq<byte>): seq<byte>
    decreases |s|
  {
    if |s| < DefaultMemoryLen then s else s[..ScratchLimit] + Keep(s[DefaultMemoryLen..])
  }

  /** Of q whole blocks and r more bytes, q bytes are lost. */
  lemma {:induction false} KeepLength(s: seq<byte>, q: nat, r: nat)
    requires |s| == 256 * q + r && r < 256
    ensures |Keep(s)| == 255 * q + r
    decreases q
  {
    if q > 0 {
      KeepLength(s[256..], q - 1, r);
    }
  }

  /** A slice of a suffix is a slice of the whole. */
  lemma DropSlice(s: seq<byte>, k: nat, a: nat, b: nat)
    requires a <= b && k + b <= |s|
    ensures s[k..][a..b] == s[k + a..k + b]
  {
  }

  /** A prefix of a suffix is a slice of the whole. */
  lemma DropTake(s: seq<byte>, k: nat, n: nat)
    requires k + n <= |s|
    ensures s[k..][..n] == s[k..k + n]
  {
  }

  /** A prefix or a suffix of a prefix is a slice of the whole. */
  lemma TakeSlice(s: seq<byte>, k: nat, j: nat)
    requires j <= k <= |s|
    ensures s[..k][..j] == s[..j] && s[..k][j..] == s[j..k]
  {
  }

  lemma Assoc(x: seq<byte>, y: seq<byte>, z: seq<byte>)
    ensures (x + y) + z == x + (y + z)
  {
  }

  /** A prefix of at least one whole block keeps the first 255 bytes and goes on 256 bytes later. */
  lemma KeepPrefix(s: seq<byte>, b: nat)
    requires 256 <= b <= |s|
    ensures Keep(s[..b]) == s[..255] + Keep(s[256..][..b - 256])
  {
    TakeSlice(s, b, 255);
    TakeSlice(s, b, 256);
    DropTake(s, 256, b - 256);
  }

  /** Past the last whole block nothing more is lost. */
  lemma {:induction false} KeepTail(s: seq<byte>, q: nat)
    requires 256 * q <= |s| < 256 * q + 256
    ensures Keep(s) == Keep(s[..256 * q]) + s[256 * q..]
    decreases q
  {
    if q == 0 {
      assert s[..0] == [] && s[0..] == s;
    } else {
      var t, a, b := s[256..], 256 * (q - 1), 256 * q;
      assert b == a + 256;
      KeepTail(t, q - 1);
      KeepPrefix(s, b);
      DropSlice(s, 256, a, |t|);
      assert t[a..] == t[a..|t|] && s[b..] == s[b..|s|];
      Assoc(s[..255], Keep(t[..a]), t[a..]);
    }
  }

  /** Keeping one more whole block adds its first 255 bytes. */
  lemma {:induction false} KeepBlock(s: seq<byte>, q: nat)
    requires 256 * q + 256 <= |s|
    ensures Keep(s[..256 * q + 256]) == Keep(s[..256 * q]) + s[256 * q..256 * q + 255]
    decreases q
  {
    if q == 0 {
      TakeSlice(s, 256, 255);
      TakeSlice(s, 256, 256);
      assert s[..256][256..] == [];
      assert s[..0] == [];
    } else {
      var t, a, b := s[256..], 256 * (q - 1), 256 * q;
      assert b == a + 256;
      KeepBlock(t, q - 1);
      KeepPrefix(s, b + 256);
      KeepPrefix(s, b);
      DropSlice(s, 256, a, a + 255);
      Assoc(s[..255], Keep(t[..a]), t[a..a + 255]);
    }
  }

  /** The Row after q >= 1 whole blocks of a delimiter-free input: one token holding their kept
      bytes, with a tight capacity. */
  function Block(s: seq<byte>, q: nat): Vec
    requires 256 * q <= |s|
  {
    var k := Keep(s[..256 * q]);
    Vec([Some(Str(k, |k| + 1))], DefaultMemoryLen)
  }

  /** A byte that is not the delimiter goes into a scratch buffer that is not full. */
  lemma StepInto(st: Scan, c: byte, d: byte)
    requires Ready(st) && c != d && |st.scratch| < ScratchLimit
    ensures Step(st, c, d) == Scan(st.row, st.scratch + [c], st.cont)
  {
  }

  /** Any byte arriving at a full scratch buffer flushes it and sets the flag. */
  lemma StepFull(st: Scan, c: byte, d: byte)
    requires Ready(st) && |st.scratch| == ScratchLimit
    ensures Step(st, c, d) == Scan(Flush(st), [], true)
  {
  }

  /** The first flush of a short scratch makes one token of the default capacity. */
  lemma FlushFirst(t: seq<byte>)
    requires |t| < DefaultMemoryLen
    ensures Flush(Scan(Vec([], DefaultMemoryLen), t, false)) == Vec([Some(Str(t, DefaultMemoryLen))], DefaultMemoryLen)
  {
    var c := Some(Str(t, DefaultMemoryLen));
    assert [] + t == t;
    assert [] + [c] == [c];
  }

  /** Continuing the single token of a block Row keeps its capacity one more than its length. */
  lemma FlushBlock(k: seq<byte>, t: seq<byte>)
    ensures Flush(Scan(Vec([Some(Str(k, |k| + 1))], DefaultMemoryLen), t, true))
      == Vec([Some(Str(k + t, |k + t| + 1))], DefaultMemoryLen)
  {
  }

  /** A delimiter-free input of q whole blocks of 256 bytes and r more: after the loop the
      scratch holds the r bytes since the last whole block; once q reaches 1 the Row has one
      token holding the kept bytes of the blocks, and the flag is set. */
  lemma {:induction false} RunFree(s: seq<byte>, d: byte, q: nat, r: nat)
    requires Free(s, d) && |s| == 256 * q + r && r < 256
    ensures q == 0 ==> Run(s, d) == Scan(Vec([], DefaultMemoryLen), s, false)
    ensures q > 0 ==> Run(s, d) == Scan(Block(s, q), s[256 * q..], true)
    decreases |s|
  {
    if s != [] {
      var n := |s|;
      var p, c := s[..n - 1], s[n - 1];
      Snoc(s);
      assert Free(p, d) by {
        forall k | 0 <= k < |p| ensures p[k] != d { assert p[k] == s[k]; }
      }
      assert Run(s, d) == Step(Run(p, d), c, d);
      if r > 0 {
        RunFree(p, d, q, r - 1);
        StepInto(Run(p, d), c, d);
        if q > 0 {
          assert p[..256 * q] == s[..256 * q];
          assert p[256 * q..] + [c] == s[256 * q..] by {
            assert s[256 * q..] == (p + [c])[256 * q..];
          }
        }
      } else {
        RunFree(p, d, q - 1, 255);
        StepFull(Run(p, d), c, d);
        RunFreeFull(s, d, q);
      }
    }
  }

  /** The byte that ends a whole block arrives with the scratch full: the scratch goes into the
      single token and the byte is lost. */
  lemma RunFreeFull(s: seq<byte>, d: byte, q: nat)
    requires q > 0 && |s| == 256 * q
    requires var p := s[..|s| - 1];
      (q == 1 ==> Run(p, d) == Scan(Vec([], DefaultMemoryLen), p, false)) &&
      (q > 1 ==> Run(p, d) == Scan(Block(p, q - 1), p[256 * (q - 1)..], true))
    requires Run(s, d) == Scan(Flush(Run(s[..|s| - 1], d)), [], true)
    ensures Run(s, d) == Scan(Block(s, q), s[256 * q..], true)
  {
    var p := s[..|s| - 1];
    assert s[256 * q..] == [];
    assert s[..256 * q] == s;
    if q == 1 {
      FlushFirst(p);
      assert s[..256] == s && s[256..] == [] && s[..255] == p;
      assert Keep([]) == [];
      assert Keep(s) == p + [];
      assert p + [] == p && |p| == 255;
      assert Keep(s[..256 * q]) == p;
      assert Block(s, 1) == Vec([Some(Str(p, 256))], 256);
    } else {
      var k, t := Keep(p[..256 * (q - 1)]), p[256 * (q - 1)..];
      FlushBlock(k, t);
      KeepBlock(s, q - 1);
      assert p[..256 * (q - 1)] == s[..256 * (q - 1)];
      assert t == s[256 * (q - 1)..256 * (q - 1) + 255];
    }
  }

  /** A delimiter-free input comes back as one token, the input with the last byte of every
      whole block of 256 missing, with a capacity of at least 256 and one more than its length
      beyond that. */
  lemma {:induction false} ParseFree(s: seq<byte>, d: byte)
    requires Free(s, d)
    ensures Parse(s, d) == Vec([Some(Str(Keep(s), Grown(DefaultMemoryLen, |Keep(s)| + 1)))], DefaultMemoryLen)
    ensures |Keep(s)| == |s| - |s| / 256
  {
    var q, r := |s| / 256, |s| % 256;
    assert |s| == 256 * q + r;
    RunFree(s, d, q, r);
    KeepLength(s, q, r);
    if q == 0 {
      assert Keep(s) == s;
      FlushFirst(s);
    } else {
      var k, t := Keep(s[..256 * q]), s[256 * q..];
      FlushBlock(k, t);
      KeepTail(s, q);
      KeepLength(s[..256 * q], q, 0);
      assert |k + t| + 1 >= 256;
    }
  }

  /** The dropped byte: a 300-byte field without a delimiter comes back as a single token of
      299 bytes, not the 300 bytes it had. */
  lemma Parse300(s: seq<byte>, d: byte)
    requires |s| == 300 && Free(s, d)
    ensures |Parse(s, d).cells| == 1
    ensures |Parse(s, d).cells[0].value.content| == 299
    ensures Texts(Parse(s, d)) != Split(s, d)
  {
    ParseFree(s, d);
    SplitAppendFree([], s, d);
    assert [] + s == s;
    assert Split(s, d) == [s];
    assert |Texts(Parse(s, d))[0]| == 299;
  }

  /** The loop over 255 delimiter-free bytes, a delimiter and one more byte: the delimiter meets
      a full scratch, so it sets the flag and the last byte starts a scratch that continues the
      first token. */
  lemma RunMerge(s: seq<byte>, d: byte, x: byte)
    requires |s| == ScratchLimit && Free(s, d) && x != d
    ensures Run(s + [d, x], d) == Scan(Vec([Some(Str(s, DefaultMemoryLen))], DefaultMemoryLen), [x], true)
  {
    var t := s + [d, x];
    assert t[..255] == s && t[..257] == t && t[255] == d && t[256] == x;
    RunFree(s, d, 0, 255);
    RunPrefix(t, 255, d);
    StepFull(Run(s, d), d, d);
    FlushFirst(s);
    var row := Vec([Some(Str(s, DefaultMemoryLen))], DefaultMemoryLen);
    RunPrefix(t, 256, d);
    StepInto(Scan(row, [], true), x, d);
  }

  /** The merged fields: 255 delimiter-free bytes, a delimiter and one more byte come back as a
      single token, although the input has two fields. */
  lemma ParseMerge(s: seq<byte>, d: byte, x: byte)
    requires |s| == ScratchLimit && Free(s, d) && x != d
    ensures Parse(s + [d, x], d) == Vec([Some(Str(s + [x], DefaultMemoryLen + 1))], DefaultMemoryLen)
    ensures Split(s + [d, x], d) == [s, [x]]
  {
    RunMerge(s, d, x);
    FlushBlock(s, [x]);
    JoinSplit([s, [x]], d);
    assert Join([s, [x]], d) == s + [d, x];
  }

  // ----- The evidently intended tokenizer -----

  /** The loop as intended: a delimiter ends the field and clears the flag; a byte arriving
      when the scratch is full flushes it, sets the flag, and is kept as the first byte of the
      next scratch. */
  function StepFixed(st: Scan, c: byte, d: byte): (r: Scan)
    requires Ready(st)
    ensures Ready(r)
  {
    if c == d then Scan(Flush(st), [], false)
    else if |st.scratch| == ScratchLimit then Scan(Flush(st), [c], true)
    else Scan(st.row, st.scratch + [c], st.cont)
  }

  function RunFixed(input: seq<byte>, d: byte): (st: Scan)
    ensures Ready(st) && |st.scratch| <= ScratchLimit
    decreases |input|
  {
    if input == [] then Scan(Vec([], DefaultMemoryLen), [], false)
    else StepFixed(RunFixed(input[..|input| - 1], d), input[|input| - 1], d)
  }

  function ParseFixed(input: seq<byte>, d: byte): Vec {
    Flush(RunFixed(input, d))
  }

  /** Flushing extends the last field when continuing and adds the scratch as a new field
      otherwise. */
  lemma TextsFlush(st: Scan)
    requires Ready(st)
    ensures var ts, m := Texts(st.row), |st.row.cells|;
      Texts(Flush(st)) == if st.cont then ts[m - 1 := ts[m - 1] + st.scratch] else ts + [st.scratch]
  {
    var ts, m := Texts(st.row), |st.row.cells|;
    if st.cont {
      assert Texts(Flush(st))[m - 1] == ts[m - 1] + st.scratch;
    } else {
      assert [] + st.scratch == st.scratch;
      assert Texts(Flush(st))[m] == st.scratch;
    }
  }

  /** A delimiter, in the intended loop, starts a new empty field. */
  lemma StepFixedDelimiter(st: Scan, d: byte)
    requires Ready(st)
    ensures Texts(Flush(StepFixed(st, d, d))) == Texts(Flush(st)) + [[]]
  {
    TextsFlush(Scan(Flush(st), [], false));
  }

  /** A byte arriving at a full scratch, in the intended loop, continues the last field. */
  lemma StepFixedFull(st: Scan, c: byte, d: byte)
    requires Ready(st) && c != d && |st.scratch| == ScratchLimit
    ensures var ts := Texts(Flush(st));
      Texts(Flush(StepFixed(st, c, d))) == ts[|ts| - 1 := ts[|ts| - 1] + [c]]
  {
    TextsFlush(Scan(Flush(st), [c], true));
  }

  /** Any other byte, in the intended loop, goes into the scratch and so into the last field. */
  lemma StepFixedInto(st: Scan, c: byte, d: byte)
    requires Ready(st) && c != d && |st.scratch| != ScratchLimit
    ensures var ts := Texts(Flush(st));
      Texts(Flush(StepFixed(st, c, d))) == ts[|ts| - 1 := ts[|ts| - 1] + [c]]
  {
    var st' := Scan(st.row, st.scratch + [c], st.cont);
    assert StepFixed(st, c, d) == st';
    TextsFlush(st);
    TextsFlush(st');
    var ts, m := Texts(st.row), |st.row.cells|;
    if st.cont {
      assert ts[m - 1] + st.scratch + [c] == ts[m - 1] + (st.scratch + [c]);
    } else {
      assert (ts + [st.scratch])[m := st.scratch + [c]] == ts + [st.scratch + [c]];
    }
  }

  /** What the Row would read after one more intended step is the fields extended by that byte. */
  lemma StepFixedTexts(st: Scan, c: byte, d: byte)
    requires Ready(st)
    ensures Texts(Flush(StepFixed(st, c, d))) == Extend(Texts(Flush(st)), c, d)
  {
    if c == d {
      StepFixedDelimiter(st, d);
    } else if |st.scratch| == ScratchLimit {
      StepFixedFull(st, c, d);
    } else {
      StepFixedInto(st, c, d);
    }
  }

  /** The intended tokenizer returns exactly the fields between the delimiters, whatever their
      lengths. */
  lemma {:induction false} ParseFixedSplits(s: seq<byte>, d: byte)
    ensures Texts(ParseFixed(s, d)) == Split(s, d)
    decreases |s|
  {
    if s != [] {
      var p := s[..|s| - 1];
      ParseFixedSplits(p, d);
      StepFixedTexts(RunFixed(p, d), s[|s| - 1], d);
    }
  }

  // ----- parse_delimited_c -----

  /** The scratch buffer read as a C string: its first `i` bytes. */
  lemma ScratchLiteral(l: seq<byte>, i: nat)
    requires i < |l| && NonZero(l[..i]) && forall k :: i <= k < |l| ==> l[k] == 0
    ensures CStr(l) == l[..i] && 0 in l
  {
    assert l == l[..i] + [0] + l[i + 1..];
    CStrOfLiteral(l[..i], l[i + 1..]);
  }

  /** The flush with `append` set: s_append_l of the scratch onto the last Text of the Row. */
  method FlushAppend(v: Row, l: array<byte>, i: nat)
    requires v.Valid() && l !in v.Repr && i < l.Length
    requires NonZero(l[..i]) && forall k :: i <= k < l.Length ==> l[k] == 0
    requires Ready(Scan(v.View(), l[..i], true))
    modifies v, v.Repr
    ensures v.Valid() && fresh(v.Repr - old(v.Repr))
    ensures v.View() == Flush(Scan(old(v.View()), old(l[..i]), true))
  {
    ScratchLiteral(l[..], i);
    assert Holds(v.Items[v.len - 1], v.Cells[v.len - 1]);
    v.AppendToLast(l[..]);
  }

  /** The flush with `append` clear: v_append of new_str(scratch). */
  method FlushNew(v: Row, l: array<byte>, i: nat)
    requires v.Valid() && l !in v.Repr && i < l.Length
    requires NonZero(l[..i]) && forall k :: i <= k < l.Length ==> l[k] == 0
    modifies v, v.Repr
    ensures v.Valid() && fresh(v.Repr - old(v.Repr))
    ensures v.View() == Flush(Scan(old(v.View()), old(l[..i]), false))
  {
    ScratchLiteral(l[..], i);
    var t := new Text.FromLiteral(l[..]);
    v.Append(t);
  }

  /** The flush inside parse_delimited_c: the scratch buffer `l` holds `i` bytes and zeros
      after them; with `append` set they go onto the last Text with s_append_l, otherwise a
      new_str(l) is appended to the Row. */
  method FlushScratch(v: Row, l: array<byte>, i: nat, append: bool)
    requires v.Valid() && l !in v.Repr && l.Length == DefaultMemoryLen && i < DefaultMemoryLen
    requires NonZero(l[..i]) && forall k :: i <= k < l.Length ==> l[k] == 0
    requires Ready(Scan(v.View(), l[..i], append))
    modifies v, v.Repr
    ensures v.Valid() && fresh(v.Repr - old(v.Repr))
    ensures v.View() == Flush(Scan(old(v.View()), old(l[..i]), append))
  {
    if append {
      FlushAppend(v, l, i);
    } else {
      FlushNew(v, l, i);
    }
  }

  /** One iteration of the loop of parse_delimited_c on a non-zero byte `c`: a flush and a
      cleared scratch on the delimiter or a full scratch, otherwise `c` stored at `l[i]`. */
  method Consume(v: Row, l: array<byte>, i: nat, append: bool, c: byte, d: byte) returns (j: nat, cont: bool)
    requires v.Valid() && l !in v.Repr && l.Length == DefaultMemoryLen && i <= ScratchLimit && c != 0
    requires NonZero(l[..i]) && forall k :: i <= k < l.Length ==> l[k] == 0
    requires Ready(Scan(v.View(), l[..i], append))
    modifies v, v.Repr, l
    ensures v.Valid() && l !in v.Repr && fresh(v.Repr - old(v.Repr))
    ensures j <= ScratchLimit && NonZero(l[..j]) && forall k :: j <= k < l.Length ==> l[k] == 0
    ensures Scan(v.View(), l[..j], cont) == Step(Scan(old(v.View()), old(l[..i]), append), c, d)
  {
    if c == d || i == ScratchLimit {
      FlushScratch(v, l, i, append);
      forall k | 0 <= k < l.Length {
        l[k] := 0;
      }
      assert l[..0] == [];
      cont := i == ScratchLimit;
      j := 0;
    } else {
      l[i] := c;
      assert l[..i + 1] == old(l[..i]) + [c];
      cont := append;
      j := i + 1;
    }
  }

  /** The loop of parse_delimited_c over `input`, the bytes of `b` before its first zero byte:
      a new Row and a zeroed scratch buffer, then one Consume per byte. */
  method ScanBytes(b: array<byte>, ghost input: seq<byte>, d: byte) returns (v: Row, l: array<byte>, i: nat, append: bool)
    requires |input| < b.Length && b[|input|] == 0 && NonZero(input)
    requires forall k :: 0 <= k < |input| ==> b[k] == input[k]
    ensures fresh(v.Repr) && fresh(l) && v.Valid() && l !in v.Repr && l.Length == DefaultMemoryLen
    ensures i <= ScratchLimit && NonZero(l[..i]) && forall k :: i <= k < l.Length ==> l[k] == 0
    ensures Run(input, d) == Scan(v.View(), l[..i], append)
  {
    v := new Row.Default();
    l := new byte[DefaultMemoryLen](_ => 0);
    i := 0;
    append := false;
    var p := 0;
    assert input[..0] == [];
    while b[p] != 0
      invariant p <= |input|
      invariant fresh(v.Repr) && fresh(l) && v.Valid() && l !in v.Repr && l.Length == DefaultMemoryLen
      invariant i <= ScratchLimit && NonZero(l[..i]) && forall k :: i <= k < l.Length ==> l[k] == 0
      invariant Run(input[..p], d) == Scan(v.View(), l[..i], append)
      decreases |input| - p
    {
      RunPrefix(input, p, d);
      i, append := Consume(v, l, i, append, b[p], d);
      p := p + 1;
    }
    assert input[..p] == input;
  }

  /** parse_delimited_c: the bytes of `s` up to its first zero byte, split at `d` through the
      256-byte scratch buffer. */
  method ParseDelimited(s: Text, d: byte) returns (v: Row)
    requires s.Valid() && Terminated(s.View())
    ensures fresh(v.Repr) && v.Valid()
    ensures v.View() == Parse(CStr(s.View().content), d)
  {
    ghost var input := CStr(s.buf[..]);
    CStrOfPaddedPrefix(s.buf[..], s.len);
    assert s.buf[..][..s.len] == s.View().content;
    HasTerminator(s.buf[..]);
    var l, i, append;
    v, l, i, append := ScanBytes(s.buf, input, d);
    FlushScratch(v, l, i, append);
  }
}
