/** Bytes, line feeds and the search functions of Go's `bytes` package that the documents use. */
module Bytes {
  import opened Common

  type Byte = b: int | 0 <= b < 256

  const TAB: Byte := 9
  const LF: Byte := 10
  const CR: Byte := 13
  const SPACE: Byte := 32
  const DASH: Byte := 45
  const BACKTICK: Byte := 96
  const TILDE: Byte := 126

  const NEWLINE: seq<Byte> := [LF]
  const CRLF: seq<Byte> := [CR, LF]

  /** Trims ASCII white space on both sides. */
  function TrimBytes(s: seq<Byte>): seq<Byte> {
    Trim(s, (b: Byte) => IsSpace(b))
  }

  /** `pattern` occurs in `s` at offset `at`. */
  predicate OccursAt<T(==)>(s: seq<T>, pattern: seq<T>, at: nat) {
    at + |pattern| <= |s| && s[at..at + |pattern|] == pattern
  }

  /** The first offset, at or after `from`, at which `pattern` occurs. */
  function Index<T(==)>(s: seq<T>, pattern: seq<T>, from: nat := 0): (r: Option<nat>)
    ensures r.Some? ==> from <= r.value && OccursAt(s, pattern, r.value)
    ensures r.Some? ==> forall k :: from <= k < r.value ==> !OccursAt(s, pattern, k)
    ensures r.None? ==> forall k :: from <= k ==> !OccursAt(s, pattern, k)
    decreases |s| - from
  {
    if from + |pattern| > |s| then None
    else if OccursAt(s, pattern, from) then Some(from)
    else Index(s, pattern, from + 1)
  }

  /** The last offset at which `pattern` occurs, among those below `to`. */
  function LastIndex<T(==)>(s: seq<T>, pattern: seq<T>, to: nat := |s| + 1): (r: Option<nat>)
    ensures r.Some? ==> r.value < to && OccursAt(s, pattern, r.value)
    ensures r.Some? ==> forall k :: r.value < k < to ==> !OccursAt(s, pattern, k)
    ensures r.None? ==> forall k :: 0 <= k < to ==> !OccursAt(s, pattern, k)
  {
    if to == 0 then None
    else if OccursAt(s, pattern, to - 1) then Some(to - 1)
    else LastIndex(s, pattern, to - 1)
  }
}
