/** Texts cut at a separator, and the pieces joined again. */
module Separated {
  import opened Common

  /** The offset of the first separator, or the length of `s` if there is none. */
  function IndexOf<T(==)>(s: seq<T>, sep: T): (r: nat)
    ensures r <= |s| && (r < |s| ==> s[r] == sep)
    ensures forall k :: 0 <= k < r ==> s[k] != sep
  {
    if s == [] || s[0] == sep then 0 else 1 + IndexOf(s[1..], sep)
  }

  /** The pieces between separators; there is always at least one piece. */
  function Split<T(==)>(s: seq<T>, sep: T): (pieces: seq<seq<T>>)
    ensures pieces != []
    decreases |s|
  {
    var i := IndexOf(s, sep);
    if i == |s| then [s] else [s[..i]] + Split(s[i + 1..], sep)
  }

  /** Pieces joined by separators. */
  function Unsplit<T>(pieces: seq<seq<T>>, sep: T): seq<T>
    requires pieces != []
  {
    if |pieces| == 1 then pieces[0] else pieces[0] + [sep] + Unsplit(pieces[1..], sep)
  }

  /** Pieces that are each closed by a separator. */
  function Closed<T>(pieces: seq<seq<T>>, sep: T): seq<T> {
    if pieces == [] then [] else pieces[0] + [sep] + Closed(pieces[1..], sep)
  }

  predicate AllFree<T(==)>(pieces: seq<seq<T>>, x: T) {
    forall p :: p in pieces ==> x !in p
  }

  /** A text without separators is one piece. */
  lemma OnePiece<T>(s: seq<T>, sep: T)
    requires sep !in s
    ensures IndexOf(s, sep) == |s| && Split(s, sep) == [s]
  {
    assert forall k :: 0 <= k < |s| ==> s[k] in s;
  }

  lemma FirstPiece<T>(first: seq<T>, rest: seq<T>, sep: T)
    requires sep !in first
    ensures IndexOf(first + [sep] + rest, sep) == |first|
  {
    var s := first + [sep] + rest;
    assert s[|first|] == sep;
    assert forall k :: 0 <= k < |first| ==> s[k] == first[k];
  }

  lemma {:induction false} UnsplitSplit<T>(s: seq<T>, sep: T)
    ensures Unsplit(Split(s, sep), sep) == s && AllFree(Split(s, sep), sep)
    decreases |s|
  {
    var i := IndexOf(s, sep);
    if i < |s| {
      var rest := s[i + 1..];
      UnsplitSplit(rest, sep);
      assert Split(s, sep) == [s[..i]] + Split(rest, sep);
      UnsplitFirst(s[..i], Split(rest, sep), sep);
      assert s == s[..i] + [sep] + rest;
    }
  }

  lemma UnsplitFirst<T>(first: seq<T>, rest: seq<seq<T>>, sep: T)
    requires rest != []
    ensures Unsplit([first] + rest, sep) == first + [sep] + Unsplit(rest, sep)
    ensures sep !in first && AllFree(rest, sep) ==> AllFree([first] + rest, sep)
  {
    assert ([first] + rest)[1..] == rest;
  }

  lemma SplitFirst<T>(first: seq<T>, rest: seq<T>, sep: T)
    requires sep !in first
    ensures Split(first + [sep] + rest, sep) == [first] + Split(rest, sep)
  {
    var s := first + [sep] + rest;
    FirstPiece(first, rest, sep);
    assert s[..|first|] == first && s[|first| + 1..] == rest;
  }

  lemma {:induction false} SplitUnsplit<T>(pieces: seq<seq<T>>, sep: T)
    requires pieces != [] && AllFree(pieces, sep)
    ensures Split(Unsplit(pieces, sep), sep) == pieces
  {
    if |pieces| == 1 {
      assert pieces == [pieces[0]] && pieces[0] in pieces;
      OnePiece(pieces[0], sep);
    } else {
      var rest := pieces[1..];
      assert pieces[0] in pieces && forall p :: p in rest ==> p in pieces;
      SplitUnsplit(rest, sep);
      SplitFirst(pieces[0], Unsplit(rest, sep), sep);
      assert Unsplit(pieces, sep) == pieces[0] + [sep] + Unsplit(rest, sep);
      assert pieces == [pieces[0]] + rest;
    }
  }

  lemma {:induction false} UnsplitAppend<T>(a: seq<seq<T>>, b: seq<seq<T>>, sep: T)
    requires b != []
    ensures Unsplit(a + b, sep) == Closed(a, sep) + Unsplit(b, sep)
  {
    if a == [] {
      assert a + b == b;
      assert Closed(a, sep) == [];
    } else {
      var rest, all := a[1..], a + b;
      UnsplitAppend(rest, b, sep);
      assert all[0] == a[0] && all[1..] == rest + b;
      Assoc(a[0] + [sep], Closed(rest, sep), Unsplit(b, sep));
    }
  }

  /** Behind closed pieces come exactly the pieces of the remainder. */
  lemma SplitClosed<T>(pieces: seq<seq<T>>, rest: seq<T>, sep: T)
    requires AllFree(pieces, sep)
    ensures Split(Closed(pieces, sep) + rest, sep) == pieces + Split(rest, sep)
  {
    var last := Split(rest, sep);
    UnsplitSplit(rest, sep);
    UnsplitAppend(pieces, last, sep);
    SplitUnsplit(pieces + last, sep);
  }

  /** A text that is empty or ends in a separator consists of closed pieces. */
  lemma ClosedPieces<T>(s: seq<T>, sep: T) returns (pieces: seq<seq<T>>)
    requires s == [] || Last(s) == sep
    ensures s == Closed(pieces, sep) && AllFree(pieces, sep)
  {
    var all := Split(s, sep);
    UnsplitSplit(s, sep);
    pieces := all[..|all| - 1];
    var last := Last(all);
    assert all == pieces + [last] && last in all;
    UnsplitAppend(pieces, [last], sep);
    LastPieceEmpty(s, Closed(pieces, sep), last, sep);
  }

  lemma LastPieceEmpty<T>(s: seq<T>, closed: seq<T>, last: seq<T>, sep: T)
    requires s == closed + last && sep !in last && (s == [] || Last(s) == sep)
    ensures last == [] && s == closed
  {
    assert forall k :: 0 <= k < |last| ==> s[|closed| + k] == last[k];
  }

  lemma {:induction false} ClosedConcat<T>(a: seq<seq<T>>, b: seq<seq<T>>, sep: T)
    ensures Closed(a + b, sep) == Closed(a, sep) + Closed(b, sep)
  {
    if a == [] {
      assert a + b == b;
    } else {
      ClosedConcat(a[1..], b, sep);
      assert (a + b)[1..] == a[1..] + b;
    }
  }

  /** Cutting at one separator keeps every piece free of what the text is free of. */
  lemma {:induction false} PiecesFree<T>(s: seq<T>, sep: T, x: T)
    requires x !in s
    ensures AllFree(Split(s, sep), x)
    decreases |s|
  {
    var i := IndexOf(s, sep);
    if i < |s| {
      PiecesFree(s[i + 1..], sep, x);
    }
  }

  lemma {:induction false} ClosedFree<T>(pieces: seq<seq<T>>, sep: T, x: T)
    requires AllFree(pieces, x) && x != sep
    ensures x !in Closed(pieces, sep)
  {
    if pieces != [] {
      ClosedFree(pieces[1..], sep, x);
    }
  }
}
