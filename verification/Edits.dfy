/** Byte-range edits: sorted, validated and applied from the back of the source to its front. */
module Edits {
  import opened Common
  import opened Bytes

  datatype Edit = Edit(start: int, end: int, replacement: seq<Byte>)

  datatype EditError =
    | NegativeRange(index: nat)
    | EndBeforeStart(index: nat)
    | OutOfBounds(index: nat)
    | Overlapping

  // ---------------------------------------------------------------- what the edits mean

  predicate InRange(n: nat, e: Edit) {
    0 <= e.start <= e.end <= n
  }

  predicate Disjoint(e: Edit, f: Edit) {
    e.end <= f.start || f.end <= e.start
  }

  predicate SharePoint(e: Edit, f: Edit) {
    e.start == e.end == f.start == f.end
  }

  /** Every range lies in the source and no two overlap: a property of the edits, not of their order. */
  ghost predicate Acceptable(n: nat, edits: seq<Edit>) {
    && (forall e :: e in edits ==> InRange(n, e))
    && Pairwise(edits, Disjoint)
  }

  /** Ranges in ascending order without overlap, starting at or after `pos`. */
  predicate Ascending(n: nat, es: seq<Edit>, pos: nat) {
    if es == [] then
      pos <= n
    else
      InRange(n, es[0]) && pos <= es[0].start && Ascending(n, es[1..], es[0].end)
  }

  /** The source from `pos` on, with its gaps kept and every range replaced, from left to right. */
  function Splice(src: seq<Byte>, es: seq<Edit>, pos: nat): seq<Byte>
    requires Ascending(|src|, es, pos)
  {
    if es == [] then
      src[pos..]
    else
      src[pos..es[0].start] + es[0].replacement + Splice(src, es[1..], es[0].end)
  }

  function Delta(e: Edit): int {
    |e.replacement| - (e.end - e.start)
  }

  /** How far a byte at offset `p` moves: the growth of the ranges that end at or before it. */
  function Shift(es: seq<Edit>, p: int): int {
    if es == [] then 0 else (if es[0].end <= p then Delta(es[0]) else 0) + Shift(es[1..], p)
  }

  function TotalDelta(es: seq<Edit>): int {
    if es == [] then 0 else Delta(es[0]) + TotalDelta(es[1..])
  }

  /** The length changes by the exact sum of the edits. */
  lemma {:induction false} SpliceLength(src: seq<Byte>, es: seq<Edit>, pos: nat)
    requires Ascending(|src|, es, pos)
    ensures |Splice(src, es, pos)| == |src| - pos + TotalDelta(es)
  {
    if es != [] {
      SpliceLength(src, es[1..], es[0].end);
    }
  }

  lemma {:induction false} AscendingFrom(n: nat, es: seq<Edit>, pos: nat)
    requires Ascending(n, es, pos)
    ensures forall e :: e in es ==> InRange(n, e) && pos <= e.start
  {
    if es != [] {
      AscendingFrom(n, es[1..], es[0].end);
    }
  }

  lemma {:induction false} ShiftBelow(n: nat, es: seq<Edit>, pos: nat, p: int)
    requires Ascending(n, es, pos) && forall e :: e in es ==> p < e.end
    ensures Shift(es, p) == 0
  {
    if es != [] {
      ShiftBelow(n, es[1..], es[0].end, p);
    }
  }

  /** Every byte outside all ranges survives, moved by the growth before it. */
  lemma {:induction false} ByteSurvives(src: seq<Byte>, es: seq<Edit>, pos: nat, p: nat)
    requires Ascending(|src|, es, pos) && pos <= p < |src|
    requires forall e :: e in es ==> p < e.start || e.end <= p
    ensures 0 <= p - pos + Shift(es, p) < |Splice(src, es, pos)|
    ensures Splice(src, es, pos)[p - pos + Shift(es, p)] == src[p]
  {
    if es != [] {
      if es[0].end <= p {
        var head, rest := src[pos..es[0].start] + es[0].replacement, Splice(src, es[1..], es[0].end);
        ByteSurvives(src, es[1..], es[0].end, p);
        assert Splice(src, es, pos) == head + rest;
      } else {
        AscendingFrom(|src|, es[1..], es[0].end);
        ShiftBelow(|src|, es, pos, p);
      }
    }
  }

  /** Every replacement stands, whole, where its range was moved to. */
  lemma {:induction false} ReplacementPlaced(src: seq<Byte>, es: seq<Edit>, pos: nat, i: nat)
    requires Ascending(|src|, es, pos) && i < |es|
    ensures OccursAt(Splice(src, es, pos), es[i].replacement, PlacedAt(src, es, pos, i))
  {
    if i > 0 {
      var rest := es[1..];
      assert rest[i - 1] == es[i];
      ReplacementPlaced(src, rest, es[0].end, i - 1);
      var head, spliced := src[pos..es[0].start] + es[0].replacement, Splice(src, rest, es[0].end);
      assert Splice(src, es, pos) == head + spliced;
      assert PlacedAt(src, es, pos, i) == |head| + PlacedAt(src, rest, es[0].end, i - 1);
      OccursBehind(head, spliced, es[i].replacement, PlacedAt(src, rest, es[0].end, i - 1));
    } else {
      assert es[..0] == [];
    }
  }

  lemma OccursBehind(head: seq<Byte>, rest: seq<Byte>, text: seq<Byte>, k: nat)
    requires OccursAt(rest, text, k)
    ensures OccursAt(head + rest, text, |head| + k)
  {
    assert (head + rest)[|head| + k..|head| + k + |text|] == rest[k..k + |text|];
  }

  function PlacedAt(src: seq<Byte>, es: seq<Edit>, pos: nat, i: nat): (k: nat)
    requires Ascending(|src|, es, pos) && i < |es|
    ensures k == es[i].start - pos + TotalDelta(es[..i])
  {
    if i == 0 then
      assert es[..0] == [];
      es[0].start - pos
    else
      assert es[1..][..i - 1] == es[..i][1..];
      es[0].start - pos + |es[0].replacement| + PlacedAt(src, es[1..], es[0].end, i - 1)
  }

  // ---------------------------------------------------------------- the algorithm

  /** The order of the sort: by start, then by end, both descending. */
  predicate SortsBefore(e: Edit, f: Edit) {
    e.start > f.start || (e.start == f.start && e.end > f.end)
  }

  ghost predicate Sorted(es: seq<Edit>) {
    forall i, j :: 0 <= i < j < |es| ==> !SortsBefore(es[j], es[i])
  }

  function InsertEdit(e: Edit, es: seq<Edit>): seq<Edit> {
    if es == [] || SortsBefore(e, es[0]) then [e] + es else [es[0]] + InsertEdit(e, es[1..])
  }

  lemma {:induction false} InsertElements(e: Edit, es: seq<Edit>)
    ensures multiset(InsertEdit(e, es)) == multiset(es) + multiset{e}
  {
    if es != [] {
      InsertElements(e, es[1..]);
      assert es == [es[0]] + es[1..];
    }
  }

  lemma {:induction false} InsertSorted(e: Edit, es: seq<Edit>)
    requires Sorted(es)
    ensures Sorted(InsertEdit(e, es))
  {
    if es != [] && !SortsBefore(e, es[0]) {
      InsertSorted(e, es[1..]);
      InsertElements(e, es[1..]);
      FirstStays(e, es, InsertEdit(e, es[1..]));
    }
  }

  lemma FirstStays(e: Edit, es: seq<Edit>, rest: seq<Edit>)
    requires es != [] && Sorted(es) && !SortsBefore(e, es[0])
    requires Sorted(rest) && multiset(rest) == multiset(es[1..]) + multiset{e}
    ensures Sorted([es[0]] + rest)
  {
    forall j | 0 <= j < |rest| ensures !SortsBefore(rest[j], es[0]) {
      assert rest[j] in multiset(rest);
      if rest[j] != e {
        assert rest[j] in es[1..];
      }
    }
  }

  /** The library sort. It is not stable: its contract leaves the order of equal ranges open. */
  method SortSlice(edits: seq<Edit>) returns (sorted: seq<Edit>)
    ensures multiset(sorted) == multiset(edits) && Sorted(sorted)
  {
    sorted := [];
    for k := 0 to |edits|
      invariant multiset(sorted) == multiset(edits[..k]) && Sorted(sorted)
    {
      assert edits[..k + 1] == edits[..k] + [edits[k]];
      InsertElements(edits[k], sorted);
      InsertSorted(edits[k], sorted);
      sorted := InsertEdit(edits[k], sorted);
    }
    assert edits[..|edits|] == edits;
  }

  /** The defects that the validation loop looks for at position `i` of the sorted edits. */
  function Defect(n: nat, es: seq<Edit>, i: nat): Option<EditError>
    requires i < |es|
  {
    if es[i].start < 0 || es[i].end < 0 then Some(NegativeRange(i))
    else if es[i].end < es[i].start then Some(EndBeforeStart(i))
    else if es[i].end > n then Some(OutOfBounds(i))
    else if i > 0 && es[i].end > es[i - 1].start then Some(Overlapping)
    else None
  }

  /** The neighbour check of the loop is the order-free notion of acceptable edits. */
  lemma NeighboursSuffice(n: nat, es: seq<Edit>)
    requires Sorted(es)
    ensures Acceptable(n, es) <==> forall i :: 0 <= i < |es| ==> Defect(n, es, i).None?
  {
    if forall i :: 0 <= i < |es| ==> Defect(n, es, i).None? {
      forall i, j | 0 <= i < |es| && 0 <= j < |es| && i != j ensures Disjoint(es[i], es[j]) {
        if i < j {
          assert Defect(n, es, j).None? && es[j - 1].start <= es[i].start;
        } else {
          assert Defect(n, es, i).None? && es[i - 1].start <= es[j].start;
        }
      }
      assert forall i :: 0 <= i < |es| ==> Defect(n, es, i).None? ==> InRange(n, es[i]);
    }
    if Acceptable(n, es) {
      forall i | 0 <= i < |es| ensures Defect(n, es, i).None? {
        assert InRange(n, es[i]);
        if i > 0 {
          assert Disjoint(es[i - 1], es[i]) && InRange(n, es[i - 1]) && !SortsBefore(es[i], es[i - 1]);
        }
      }
    }
  }

  function BackToFront(src: seq<Byte>, es: seq<Edit>): seq<Byte>
    decreases |es|
  {
    if es == [] then
      src
    else if InRange(|src|, es[0]) then
      BackToFront(src[..es[0].start] + es[0].replacement + src[es[0].end..], es[1..])
    else
      src
  }

  /** Reversed, sorted and acceptable edits are in ascending order. */
  lemma {:induction false} ReversedAscends(n: nat, es: seq<Edit>, bound: nat)
    requires bound <= n && (forall i :: 0 <= i < |es| ==> Defect(n, es, i).None?)
    requires es != [] ==> bound <= Last(es).start
    ensures Ascending(n, Reverse(es), bound)
  {
    if es != [] {
      var rest := es[..|es| - 1];
      assert Defect(n, es, |es| - 1).None?;
      forall i | 0 <= i < |rest| ensures Defect(n, rest, i).None? {
        assert Defect(n, es, i).None?;
      }
      ReversedAscends(n, rest, Last(es).end);
      assert Reverse(es)[1..] == Reverse(rest);
    }
  }

  lemma {:induction false} SpliceLast(src: seq<Byte>, es: seq<Edit>, last: Edit, pos: nat)
    requires InRange(|src|, last) && Ascending(|src|, es + [last], pos)
    ensures var src' := src[..last.start] + last.replacement + src[last.end..];
            Ascending(|src'|, es, pos) && Splice(src', es, pos) == Splice(src, es + [last], pos)
  {
    var src' := src[..last.start] + last.replacement + src[last.end..];
    if es == [] {
      assert (es + [last])[1..] == [];
      LastSplice(src, last, pos);
    } else {
      var all := es + [last];
      assert all[0] == es[0] && all[1..] == es[1..] + [last];
      SpliceLast(src, es[1..], last, es[0].end);
      AscendingFrom(|src|, es[1..] + [last], es[0].end);
      assert last in es[1..] + [last];
      FrontKept(src, last, pos, es[0].start);
    }
  }

  lemma FrontKept(src: seq<Byte>, e: Edit, a: nat, b: nat)
    requires InRange(|src|, e) && a <= b <= e.start
    ensures (src[..e.start] + e.replacement + src[e.end..])[a..b] == src[a..b]
  {
  }

  lemma LastSplice(src: seq<Byte>, e: Edit, pos: nat)
    requires InRange(|src|, e) && pos <= e.start
    ensures (src[..e.start] + e.replacement + src[e.end..])[pos..] ==
            src[pos..e.start] + e.replacement + src[e.end..]
  {
  }

  /** Applying edits from the back refines the left-to-right splice. */
  lemma {:induction false} BackToFrontIsSplice(src: seq<Byte>, es: seq<Edit>)
    requires Ascending(|src|, Reverse(es), 0)
    ensures BackToFront(src, es) == Splice(src, Reverse(es), 0)
    decreases |es|
  {
    if es != [] {
      var rest := Reverse(es[1..]);
      assert Reverse(es) == rest + [es[0]];
      assert es[0] in Reverse(es);
      AscendingFrom(|src|, Reverse(es), 0);
      SpliceLast(src, rest, es[0], 0);
      BackToFrontIsSplice(src[..es[0].start] + es[0].replacement + src[es[0].end..], es[1..]);
    }
  }

  /** The validation loop stops at the first defect. */
  method Validate(n: nat, es: seq<Edit>) returns (r: Option<EditError>)
    ensures r.None? <==> forall i :: 0 <= i < |es| ==> Defect(n, es, i).None?
    ensures r.Some? ==> FirstDefect(n, es, r.value)
  {
    for i := 0 to |es|
      invariant forall j :: 0 <= j < i ==> Defect(n, es, j).None?
    {
      if es[i].start < 0 || es[i].end < 0 {
        assert Defect(n, es, i) == Some(NegativeRange(i));
        return Some(NegativeRange(i));
      }
      if es[i].end < es[i].start {
        assert Defect(n, es, i) == Some(EndBeforeStart(i));
        return Some(EndBeforeStart(i));
      }
      if es[i].end > n {
        assert Defect(n, es, i) == Some(OutOfBounds(i));
        return Some(OutOfBounds(i));
      }
      if i > 0 && es[i].end > es[i - 1].start {
        assert Defect(n, es, i) == Some(Overlapping);
        return Some(Overlapping);
      }
    }
    return None;
  }

  /** The rebuilding loop over sorted edits without a defect. */
  method ReplaceFromBack(source: seq<Byte>, es: seq<Edit>) returns (out: seq<Byte>)
    requires forall i :: 0 <= i < |es| ==> Defect(|source|, es, i).None?
    ensures out == BackToFront(source, es)
  {
    out := source;
    assert es != [] ==> Defect(|source|, es, 0).None?;
    for k := 0 to |es|
      invariant BackToFront(out, es[k..]) == BackToFront(source, es)
      invariant k < |es| ==> es[k].end <= |out|
    {
      assert Defect(|source|, es, k).None?;
      assert k + 1 < |es| ==> Defect(|source|, es, k + 1).None?;
      assert es[k..][1..] == es[k + 1..];
      out := out[..es[k].start] + es[k].replacement + out[es[k].end..];
    }
  }

  /** What the error says is wrong with the edit at position `i`, and what is not. */
  predicate Explains(n: nat, es: seq<Edit>, i: nat, error: EditError)
    requires i < |es|
  {
    var e := es[i];
    match error
    case NegativeRange(k) => k == i && (e.start < 0 || e.end < 0)
    case EndBeforeStart(k) => k == i && 0 <= e.end < e.start
    case OutOfBounds(k) => k == i && 0 <= e.start <= e.end && n < e.end
    case Overlapping => i > 0 && 0 <= e.start <= e.end <= n && es[i - 1].start < e.end
  }

  ghost predicate FirstDefect(n: nat, es: seq<Edit>, error: EditError) {
    exists i :: 0 <= i < |es| && Defect(n, es, i) == Some(error) && Explains(n, es, i, error)
                && forall j :: 0 <= j < i ==> Defect(n, es, j).None?
  }

  /** Accepts exactly the acceptable edits, and then returns their splice; a refusal names the first
      defect of the sorted edits, which are handed back for the reader. */
  method ApplyEdits(source: seq<Byte>, edits: seq<Edit>)
    returns (r: Result<seq<Byte>, EditError>, ghost sorted: seq<Edit>)
    ensures multiset(sorted) == multiset(edits) && Sorted(sorted)
    ensures r.Ok? <==> Acceptable(|source|, edits)
    ensures r.Ok? ==> Ascending(|source|, Reverse(sorted), 0) && r.value == Splice(source, Reverse(sorted), 0)
    ensures r.Ok? ==> r.value == BackToFront(source, sorted)
    ensures r.Err? ==> FirstDefect(|source|, sorted, r.error)
  {
    if edits == [] {
      return Ok(source), [];
    }
    var es := SortSlice(edits);
    sorted := es;
    AcceptablePermutation(|source|, edits, es);
    NeighboursSuffice(|source|, es);
    var defect := Validate(|source|, es);
    if defect.Some? {
      return Err(defect.value), sorted;
    }
    assert es != [] ==> Defect(|source|, es, |es| - 1).None?;
    ReversedAscends(|source|, es, 0);
    BackToFrontIsSplice(source, es);
    var out := ReplaceFromBack(source, es);
    return Ok(out), sorted;
  }

  lemma AcceptablePermutation(n: nat, a: seq<Edit>, b: seq<Edit>)
    requires multiset(a) == multiset(b)
    ensures Acceptable(n, a) <==> Acceptable(n, b)
  {
    assert forall e :: e in a <==> e in multiset(a);
    assert forall e :: e in b <==> e in multiset(b);
    if Acceptable(n, a) {
      PairwisePermutation(a, b, Disjoint);
    }
    if Acceptable(n, b) {
      PairwisePermutation(b, a, Disjoint);
    }
  }

  // ---------------------------------------------------------------- the order of equal ranges

  /** An order in which the sort may leave the edits. */
  ghost predicate SortedOrder(edits: seq<Edit>, es: seq<Edit>) {
    multiset(es) == multiset(edits) && Sorted(es)
  }

  predicate SameRange(e: Edit, f: Edit) {
    e.start == f.start && e.end == f.end
  }

  /** Insertions at one position that may be applied in either order. */
  predicate Commute(e: Edit, f: Edit) {
    SharePoint(e, f) ==> e.replacement + f.replacement == f.replacement + e.replacement
  }

  predicate EqualIfShared(e: Edit, f: Edit) {
    SharePoint(e, f) ==> e == f
  }

  /** Edits with the same range are insertions at one position, and commute. */
  predicate TieCommutes(e: Edit, f: Edit) {
    SameRange(e, f) ==> SharePoint(e, f) && Commute(e, f)
  }

  predicate TieEqual(e: Edit, f: Edit) {
    SameRange(e, f) ==> e == f
  }

  lemma {:induction false} SwapAdjacent(src: seq<Byte>, pre: seq<Edit>, e: Edit, f: Edit, post: seq<Edit>)
    requires SharePoint(e, f) && Commute(e, f)
    ensures BackToFront(src, pre + [e, f] + post) == BackToFront(src, pre + [f, e] + post)
    decreases |pre|
  {
    if pre == [] {
      if InRange(|src|, e) {
        BothInserted(src, e, f, post);
        BothInserted(src, f, e, post);
      }
    } else {
      assert (pre + [e, f] + post)[1..] == pre[1..] + [e, f] + post;
      assert (pre + [f, e] + post)[1..] == pre[1..] + [f, e] + post;
      if InRange(|src|, pre[0]) {
        SwapAdjacent(src[..pre[0].start] + pre[0].replacement + src[pre[0].end..], pre[1..], e, f, post);
      }
    }
  }

  /** Inserting `b` and then `a` at one position. */
  lemma InsertTwice(src: seq<Byte>, p: nat, a: seq<Byte>, b: seq<Byte>)
    requires p <= |src|
    ensures var once := src[..p] + b + src[p..];
            once[..p] + a + once[p..] == src[..p] + (a + b) + src[p..]
  {
    var once := src[..p] + b + src[p..];
    assert once[..p] == src[..p] && once[p..] == b + src[p..];
  }

  lemma OneStep(src: seq<Byte>, e: Edit, rest: seq<Edit>)
    requires InRange(|src|, e)
    ensures BackToFront(src, [e] + rest) == BackToFront(src[..e.start] + e.replacement + src[e.end..], rest)
  {
    assert ([e] + rest)[1..] == rest;
  }

  lemma BothInserted(src: seq<Byte>, e: Edit, f: Edit, post: seq<Edit>)
    requires SharePoint(e, f) && InRange(|src|, e)
    ensures BackToFront(src, [] + [e, f] + post) ==
            BackToFront(src[..e.start] + (f.replacement + e.replacement) + src[e.start..], post)
  {
    var once := src[..e.start] + e.replacement + src[e.end..];
    assert [] + [e, f] + post == [e] + ([f] + post);
    OneStep(src, e, [f] + post);
    OneStep(once, f, post);
    InsertTwice(src, e.start, f.replacement, e.replacement);
  }

  /** An edit that commutes with those before it may be moved to the front. */
  lemma {:induction false} BringForward(src: seq<Byte>, es: seq<Edit>, p: nat)
    requires p < |es| && forall i :: 0 <= i < p ==> SharePoint(es[i], es[p]) && Commute(es[i], es[p])
    ensures BackToFront(src, es) == BackToFront(src, [es[p]] + (es[..p] + es[p + 1..]))
    decreases p
  {
    if p == 0 {
      assert [es[0]] + (es[..0] + es[1..]) == es;
    } else {
      var pre, post := es[..p - 1], es[p + 1..];
      var moved := pre + [es[p], es[p - 1]] + post;
      assert es == pre + [es[p - 1], es[p]] + post;
      SwapAdjacent(src, pre, es[p - 1], es[p], post);
      BringForward(src, moved, p - 1);
      assert moved[..p - 1] + moved[p..] == es[..p] + es[p + 1..];
    }
  }

  lemma WithoutOneSorted(es: seq<Edit>, p: nat)
    requires Sorted(es) && p < |es|
    ensures Sorted(es[..p] + es[p + 1..])
  {
    var rest := es[..p] + es[p + 1..];
    assert forall i :: 0 <= i < |rest| ==> rest[i] == es[if i < p then i else i + 1];
  }

  lemma TailSorted(s: seq<Edit>)
    requires s != [] && Sorted(s)
    ensures Sorted(s[1..])
  {
  }

  lemma TailPairwise(es: seq<Edit>, related: (Edit, Edit) -> bool)
    requires es != [] && Pairwise(es, related)
    ensures Pairwise(es[1..], related)
  {
    assert forall i :: 0 <= i < |es| - 1 ==> es[1..][i] == es[i + 1];
  }

  /** Whatever stands before the first edit of another order has its range. */
  lemma BeforeFirst(s: seq<Edit>, t: seq<Edit>, p: nat, i: nat)
    requires Sorted(s) && Sorted(t) && multiset(s) == multiset(t) && s != [] && i <= p < |t| && t[p] == s[0]
    ensures SameRange(t[i], s[0])
  {
    assert t[i] in multiset(t);
    var k := PositionOf(s, t[i]);
    assert !SortsBefore(s[k], s[0]);
    assert !SortsBefore(t[p], t[i]);
  }

  /** Where the first edit of one order stands in the other: behind edits that commute with it. */
  lemma FirstPosition(s: seq<Edit>, t: seq<Edit>) returns (p: nat)
    requires multiset(s) == multiset(t) && Sorted(s) && Sorted(t) && Pairwise(s, TieCommutes) && s != []
    ensures p < |t| && t[p] == s[0]
    ensures forall i :: 0 <= i < p ==> SharePoint(t[i], t[p]) && Commute(t[i], t[p])
  {
    InMultiset(s, s[0]);
    p := PositionOf(t, s[0]);
    PairwisePermutation(s, t, TieCommutes);
    forall i | 0 <= i < p ensures SharePoint(t[i], t[p]) && Commute(t[i], t[p]) {
      BeforeFirst(s, t, p, i);
      assert TieCommutes(t[i], t[p]);
    }
  }

  lemma RestOrder(s: seq<Edit>, t: seq<Edit>, p: nat)
    requires multiset(s) == multiset(t) && Sorted(t) && s != [] && p < |t| && t[p] == s[0]
    ensures multiset(t[..p] + t[p + 1..]) == multiset(s[1..]) && Sorted(t[..p] + t[p + 1..])
  {
    SameRests(s, 0, t, p);
    assert s[..0] + s[1..] == s[1..];
    WithoutOneSorted(t, p);
  }

  /** Orders that differ only in edits that commute give the same bytes. */
  lemma {:induction false} SameBytes(src: seq<Byte>, s: seq<Edit>, t: seq<Edit>)
    requires multiset(s) == multiset(t) && Sorted(s) && Sorted(t) && Pairwise(s, TieCommutes)
    ensures BackToFront(src, s) == BackToFront(src, t)
    decreases |s|
  {
    assert |s| == |multiset(s)| == |multiset(t)| == |t|;
    if s != [] {
      var p := FirstPosition(s, t);
      var rest := t[..p] + t[p + 1..];
      BringForward(src, t, p);
      RestOrder(s, t, p);
      TailPairwise(s, TieCommutes);
      TailSorted(s);
      SameStep(src, s, rest);
    }
  }

  lemma SameStep(src: seq<Byte>, s: seq<Edit>, rest: seq<Edit>)
    requires s != []
    requires multiset(s[1..]) == multiset(rest) && Sorted(s[1..]) && Sorted(rest) && Pairwise(s[1..], TieCommutes)
    ensures BackToFront(src, s) == BackToFront(src, [s[0]] + rest)
    decreases |s|, 0
  {
    assert ([s[0]] + rest)[1..] == rest;
    if InRange(|src|, s[0]) {
      SameBytes(src[..s[0].start] + s[0].replacement + src[s[0].end..], s[1..], rest);
    }
  }

  lemma SameFirst(s: seq<Edit>, t: seq<Edit>)
    requires multiset(s) == multiset(t) && Sorted(s) && Sorted(t) && Pairwise(s, TieEqual) && s != []
    ensures t != [] && t[0] == s[0]
  {
    InMultiset(s, s[0]);
    var p := PositionOf(t, s[0]);
    PairwisePermutation(s, t, TieEqual);
    BeforeFirst(s, t, p, 0);
    assert p > 0 ==> TieEqual(t[0], t[p]);
  }

  /** The same for orders that differ only in equal edits. */
  lemma {:induction false} SameOrder(s: seq<Edit>, t: seq<Edit>)
    requires multiset(s) == multiset(t) && Sorted(s) && Sorted(t) && Pairwise(s, TieEqual)
    ensures s == t
    decreases |s|
  {
    assert |s| == |multiset(s)| == |multiset(t)| == |t|;
    if s != [] {
      SameFirst(s, t);
      SameTails(s, t);
      TailPairwise(s, TieEqual);
      TailSorted(s);
      TailSorted(t);
      SameOrder(s[1..], t[1..]);
      assert s == [s[0]] + s[1..] && t == [t[0]] + t[1..];
    }
  }

  // ---------------------------------------------------------------- orders that differ

  function SortedEdits(edits: seq<Edit>): seq<Edit> {
    if edits == [] then [] else InsertEdit(edits[0], SortedEdits(edits[1..]))
  }

  lemma {:induction false} SortedEditsIsOrder(edits: seq<Edit>)
    ensures SortedOrder(edits, SortedEdits(edits))
  {
    if edits != [] {
      SortedEditsIsOrder(edits[1..]);
      InsertElements(edits[0], SortedEdits(edits[1..]));
      InsertSorted(edits[0], SortedEdits(edits[1..]));
      assert edits == [edits[0]] + edits[1..];
    }
  }

  lemma SameRangesSorted(s: seq<Edit>, t: seq<Edit>)
    requires Sorted(s) && |s| == |t| && forall k :: 0 <= k < |s| ==> SameRange(s[k], t[k])
    ensures Sorted(t)
  {
    forall i, j | 0 <= i < j < |t| ensures !SortsBefore(t[j], t[i]) {
      assert SameRange(s[i], t[i]) && SameRange(s[j], t[j]) && !SortsBefore(s[j], s[i]);
    }
  }

  /** Everything between two edits of the same range has that range. */
  lemma Between(s: seq<Edit>, p: nat, k: nat, q: nat)
    requires Sorted(s) && p <= k <= q < |s| && SameRange(s[p], s[q])
    ensures SameRange(s[k], s[p])
  {
    assert p < k ==> !SortsBefore(s[k], s[p]);
    assert k < q ==> !SortsBefore(s[q], s[k]);
  }

  /** The edit at `q` pulled next to the one at `p`, behind it or before it. */
  function Pulled(s: seq<Edit>, p: nat, q: nat, behind: bool): seq<Edit>
    requires p < q < |s|
  {
    s[..p] + (if behind then [s[p], s[q]] else [s[q], s[p]]) + (s[p + 1..q] + s[q + 1..])
  }

  lemma PulledIsOrder(edits: seq<Edit>, s: seq<Edit>, p: nat, q: nat, behind: bool)
    requires SortedOrder(edits, s) && p < q < |s| && SameRange(s[p], s[q])
    ensures SortedOrder(edits, Pulled(s, p, q, behind))
  {
    var t := Pulled(s, p, q, behind);
    PulledElements(s, p, q, behind);
    forall k | 0 <= k < |s| ensures SameRange(s[k], t[k]) {
      if p <= k <= q {
        Between(s, p, k, q);
        if p + 2 <= k {
          assert t[k] == s[k - 1];
          Between(s, p, k - 1, q);
        }
      }
    }
    SameRangesSorted(s, t);
  }

  lemma PulledElements(s: seq<Edit>, p: nat, q: nat, behind: bool)
    requires p < q < |s|
    ensures multiset(Pulled(s, p, q, behind)) == multiset(s) && |Pulled(s, p, q, behind)| == |s|
  {
    assert s == s[..p] + ([s[p]] + s[p + 1..q] + [s[q]] + s[q + 1..]);
  }

  /** Ranges that descend without overlap, from `bound` on. */
  predicate Descends(es: seq<Edit>, bound: int) {
    es == [] || (0 <= es[0].start <= es[0].end <= bound && Descends(es[1..], es[0].start))
  }

  lemma {:induction false} SortedDescends(es: seq<Edit>, bound: int)
    requires Sorted(es) && Pairwise(es, Disjoint) && forall e :: e in es ==> 0 <= e.start <= e.end <= bound
    ensures Descends(es, bound)
  {
    if es != [] {
      assert es[0] in es;
      forall e | e in es[1..] ensures 0 <= e.start <= e.end <= es[0].start {
        BelowFirst(es, e);
      }
      TailSorted(es);
      TailPairwise(es, Disjoint);
      SortedDescends(es[1..], es[0].start);
    }
  }

  lemma BelowFirst(es: seq<Edit>, e: Edit)
    requires es != [] && Sorted(es) && Pairwise(es, Disjoint) && e in es[1..]
    requires es[0].start <= es[0].end && e.start <= e.end
    ensures e.end <= es[0].start
  {
    var i :| 0 < i < |es| && es[i] == e;
    assert Disjoint(es[0], es[i]) && !SortsBefore(es[i], es[0]);
  }

  /** What lies behind all ranges is kept, at the end. */
  lemma {:induction false} SuffixKept(src: seq<Byte>, es: seq<Edit>, bound: nat)
    requires bound <= |src| && Descends(es, bound)
    ensures HasSuffix(BackToFront(src, es), src[bound..])
    decreases |es|
  {
    if es != [] {
      var next := src[..es[0].start] + es[0].replacement + src[es[0].end..];
      SuffixKept(next, es[1..], es[0].start);
      BehindEdit(src, es[0], bound);
      SuffixOfSuffix(BackToFront(src, es), next[es[0].start..], src[bound..]);
    }
  }

  lemma BehindEdit(src: seq<Byte>, e: Edit, bound: nat)
    requires 0 <= e.start <= e.end <= bound <= |src|
    ensures HasSuffix((src[..e.start] + e.replacement + src[e.end..])[e.start..], src[bound..])
  {
    var next := src[..e.start] + e.replacement + src[e.end..];
    assert next[e.start..] == e.replacement + src[e.end..];
    SuffixOfTail(e.replacement, src[e.end..], bound - e.end);
    assert src[e.end..][bound - e.end..] == src[bound..];
  }

  lemma SuffixOfTail(head: seq<Byte>, tail: seq<Byte>, k: nat)
    requires k <= |tail|
    ensures HasSuffix(head + tail, tail[k..])
  {
  }

  lemma SuffixOfSuffix(s: seq<Byte>, t: seq<Byte>, u: seq<Byte>)
    requires HasSuffix(s, t) && HasSuffix(t, u)
    ensures HasSuffix(s, u)
  {
  }

  /** Two insertions next to each other that may be swapped commute. */
  lemma {:induction false} SwappedCommute(src: seq<Byte>, pre: seq<Edit>, e: Edit, f: Edit, post: seq<Edit>, bound: nat)
    requires SharePoint(e, f) && bound <= |src| && Descends(pre + [e, f] + post, bound)
    requires BackToFront(src, pre + [e, f] + post) == BackToFront(src, pre + [f, e] + post)
    ensures Commute(e, f)
    decreases |pre|
  {
    var first, second := pre + [e, f] + post, pre + [f, e] + post;
    if pre == [] {
      assert first[1..] == [f] + post && first[1..][1..] == post;
      BothInserted(src, e, f, post);
      BothInserted(src, f, e, post);
      InsertedText(src, e.start, f.replacement + e.replacement, post, BackToFront(src, first));
      InsertedText(src, e.start, e.replacement + f.replacement, post, BackToFront(src, first));
      SameText(f.replacement + e.replacement, e.replacement + f.replacement, src[e.start..], BackToFront(src, first));
    } else {
      assert first[1..] == pre[1..] + [e, f] + post && second[1..] == pre[1..] + [f, e] + post;
      var next := src[..pre[0].start] + pre[0].replacement + src[pre[0].end..];
      SwappedCommute(next, pre[1..], e, f, post, pre[0].start);
    }
  }

  lemma InsertedText(src: seq<Byte>, p: nat, text: seq<Byte>, post: seq<Edit>, result: seq<Byte>)
    requires p <= |src| && Descends(post, p) && result == BackToFront(src[..p] + text + src[p..], post)
    ensures HasSuffix(result, text + src[p..])
  {
    var all := src[..p] + text + src[p..];
    SuffixKept(all, post, p);
    assert all[p..] == text + src[p..];
  }

  lemma SameText(a: seq<Byte>, b: seq<Byte>, tail: seq<Byte>, s: seq<Byte>)
    requires |a| == |b| && HasSuffix(s, a + tail) && HasSuffix(s, b + tail)
    ensures a == b
  {
    assert a == (a + tail)[..|a|] && b == (b + tail)[..|b|];
  }

  lemma OrderedPair(s: seq<Edit>, edits: seq<Edit>, i: nat, j: nat) returns (p: nat, q: nat)
    requires multiset(s) == multiset(edits) && i < |edits| && j < |edits| && i != j
    ensures p < q < |s|
    ensures (s[p] == edits[i] && s[q] == edits[j]) || (s[p] == edits[j] && s[q] == edits[i])
  {
    p, q := PairInPermutation(s, edits, i, j);
    if q < p {
      p, q := q, p;
    }
  }

  /** From any two insertions at one position, two orders that differ in these two only. */
  lemma TwoOrders(edits: seq<Edit>, i: nat, j: nat)
    returns (pre: seq<Edit>, e: Edit, f: Edit, post: seq<Edit>)
    requires i < |edits| && j < |edits| && i != j && SharePoint(edits[i], edits[j])
    ensures (e == edits[i] && f == edits[j]) || (e == edits[j] && f == edits[i])
    ensures SortedOrder(edits, pre + [e, f] + post) && SortedOrder(edits, pre + [f, e] + post)
  {
    var s := SortedEdits(edits);
    SortedEditsIsOrder(edits);
    var p, q := OrderedPair(s, edits, i, j);
    PulledIsOrder(edits, s, p, q, true);
    PulledIsOrder(edits, s, p, q, false);
    pre, e, f, post := s[..p], s[p], s[q], s[p + 1..q] + s[q + 1..];
  }

  ghost predicate SameBytesAnyOrder(src: seq<Byte>, edits: seq<Edit>) {
    forall s, t :: SortedOrder(edits, s) && SortedOrder(edits, t) ==> BackToFront(src, s) == BackToFront(src, t)
  }

  ghost predicate OneOrder(edits: seq<Edit>) {
    forall s, t :: SortedOrder(edits, s) && SortedOrder(edits, t) ==> s == t
  }

  lemma AcceptableTies(n: nat, edits: seq<Edit>)
    requires Acceptable(n, edits)
    ensures Pairwise(edits, Commute) ==> Pairwise(edits, TieCommutes)
    ensures Pairwise(edits, EqualIfShared) ==> Pairwise(edits, TieEqual)
  {
    forall i, j | 0 <= i < |edits| && 0 <= j < |edits| && i != j && SameRange(edits[i], edits[j])
      ensures SharePoint(edits[i], edits[j])
    {
      assert edits[i] in edits && edits[j] in edits && Disjoint(edits[i], edits[j]);
    }
  }

  /** Every order in which the sort may leave the edits gives the same bytes if and only if any two
      insertions at one position commute, in whatever order the edits are given. */
  lemma OrderIrrelevantIff(src: seq<Byte>, edits: seq<Edit>)
    requires Acceptable(|src|, edits)
    ensures SameBytesAnyOrder(src, edits) <==> Pairwise(edits, Commute)
  {
    AcceptableTies(|src|, edits);
    if Pairwise(edits, Commute) {
      forall s, t | SortedOrder(edits, s) && SortedOrder(edits, t) ensures BackToFront(src, s) == BackToFront(src, t) {
        PairwisePermutation(edits, s, TieCommutes);
        SameBytes(src, s, t);
      }
    }
    if SameBytesAnyOrder(src, edits) {
      forall i, j | 0 <= i < |edits| && 0 <= j < |edits| && i != j ensures Commute(edits[i], edits[j]) {
        if SharePoint(edits[i], edits[j]) {
          var pre, e, f, post := TwoOrders(edits, i, j);
          AcceptablePermutation(|src|, edits, pre + [e, f] + post);
          SortedDescends(pre + [e, f] + post, |src|);
          SwappedCommute(src, pre, e, f, post, |src|);
        }
      }
    }
  }

  /** The sort leaves the edits in one order only if and only if insertions at one position are equal. */
  lemma OneOrderIff(n: nat, edits: seq<Edit>)
    requires Acceptable(n, edits)
    ensures OneOrder(edits) <==> Pairwise(edits, EqualIfShared)
  {
    AcceptableTies(n, edits);
    if Pairwise(edits, EqualIfShared) {
      forall s, t | SortedOrder(edits, s) && SortedOrder(edits, t) ensures s == t {
        PairwisePermutation(edits, s, TieEqual);
        SameOrder(s, t);
      }
    }
    if OneOrder(edits) {
      forall i, j | 0 <= i < |edits| && 0 <= j < |edits| && i != j ensures EqualIfShared(edits[i], edits[j]) {
        if SharePoint(edits[i], edits[j]) {
          var pre, e, f, post := TwoOrders(edits, i, j);
          assert (pre + [e, f] + post)[|pre|] == e && (pre + [f, e] + post)[|pre|] == f;
        }
      }
    }
  }

  /** Two insertions at one position are applied in the order that the sort happened to choose. */
  lemma SharedPointAmbiguous()
    ensures var e, f := Edit(0, 0, [65]), Edit(0, 0, [66]);
            && Acceptable(0, [e, f]) && Sorted([e, f]) && Sorted([f, e])
            && BackToFront([], [e, f]) == [66, 65] && BackToFront([], [f, e]) == [65, 66]
  {
    TwoInsertions(65, 66);
    TwoInsertions(66, 65);
  }

  lemma TwoInsertions(a: Byte, b: Byte)
    ensures BackToFront([], [Edit(0, 0, [a]), Edit(0, 0, [b])]) == [b, a]
  {
    var e, f, empty: seq<Byte> := Edit(0, 0, [a]), Edit(0, 0, [b]), [];
    assert empty[..0] + [a] + empty[0..] == [a] && [a][..0] + [b] + [a][0..] == [b, a];
    assert [e, f][1..] == [f] && [f][1..] == [];
    assert BackToFront([a], [f]) == BackToFront([b, a], []);
  }
}
