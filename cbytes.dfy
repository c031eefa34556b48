/** Bytes, C strings and the constants shared by the three container levels. */
module CBytes {

  /** A `char` of the C library; only "zero or not" matters to the containers. */
  newtype byte = x: int | 0 <= x < 256

  /** DEFAULT_MEMORY_LEN: the default capacity of every level, the growth step of
      a single-byte append and the size of the tokenizer's scratch buffer. */
  const DefaultMemoryLen: nat := 256

  datatype Option<+T> = None | Some(value: T)

  /** No byte of `s` is the terminator. */
  predicate NonZero(s: seq<byte>) {
    forall k :: 0 <= k < |s| ==> s[k] != 0
  }

  /** strlen: the index of the first zero byte of a buffer, or its length if it has none. */
  function CLen(s: seq<byte>): (n: nat)
    ensures n <= |s|
    ensures forall k :: 0 <= k < n ==> s[k] != 0
    ensures n < |s| ==> s[n] == 0
  {
    if |s| == 0 || s[0] == 0 then 0 else 1 + CLen(s[1..])
  }

  /** The C string a buffer holds: the bytes before its first zero byte. */
  function CStr(s: seq<byte>): seq<byte>
  {
    s[..CLen(s)]
  }

  /** The first zero byte is unique: any index with a zero that only non-zero bytes precede is CLen. */
  lemma CLenUnique(s: seq<byte>, n: nat)
    requires n < |s| && s[n] == 0
    requires forall k :: 0 <= k < n ==> s[k] != 0
    ensures CLen(s) == n
  {
  }

  /** A buffer holding a zero byte has its first zero byte within it. */
  lemma HasTerminator(s: seq<byte>)
    requires 0 in s
    ensures CLen(s) < |s|
  {
    var k :| 0 <= k < |s| && s[k] == 0;
  }

  /** A buffer without a zero byte reads, up to its end, as itself. */
  lemma CStrOfNonZero(s: seq<byte>)
    requires NonZero(s)
    ensures CStr(s) == s
  {
  }

  /** A literal laid out in a buffer with its terminator reads back as itself. */
  lemma {:induction false} CStrOfLiteral(lit: seq<byte>, tail: seq<byte>)
    requires NonZero(lit)
    ensures CStr(lit + [0] + tail) == lit
  {
    var s := lit + [0] + tail;
    assert s[..|lit|] == lit;
    CLenUnique(s, |lit|);
  }

  /** A buffer whose bytes from `n` on are all zero, and which has such a byte, reads as
      the C string of its first `n` bytes. */
  lemma {:induction false} CStrOfPaddedPrefix(s: seq<byte>, n: nat)
    requires n < |s|
    requires forall k :: n <= k < |s| ==> s[k] == 0
    ensures CStr(s) == CStr(s[..n])
  {
    var p := s[..n];
    var m := CLen(p);
    if m < n {
      assert s[m] == p[m];
      CLenUnique(s, m);
    } else {
      CLenUnique(s, n);
    }
  }
}
