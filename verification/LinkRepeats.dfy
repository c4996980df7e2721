/** Several links with one text on one line: each rewrites the last occurrence that it finds. */
module LinkRepeats {
  import opened Common
  import opened Bytes
  import opened LinkRewriting

  function ReplaceLast(line: seq<Byte>, before: seq<Byte>, after: seq<Byte>): seq<Byte> {
    var at := LastIndex(line, before);
    if at.None? then line else line[..at.value] + after + line[at.value + |before|..]
  }

  function Repeated(line: seq<Byte>, before: seq<Byte>, after: seq<Byte>, n: nat): seq<Byte>
    decreases n
  {
    if n == 0 then line else Repeated(ReplaceLast(line, before, after), before, after, n - 1)
  }

  /** Links with one old and one new text repeat one replacement. */
  lemma {:induction false} SameLinksRepeat(line: seq<Byte>, links: seq<LinkReference>, retarget: Retarget,
                                           before: seq<Byte>, after: seq<Byte>)
    requires before != after && forall l :: l in links ==> l.Text() == before && retarget(l) == after
    ensures EditRepeatedly(line, links, EditorFor(retarget)) == Repeated(line, before, after, |links|)
    decreases |links|
  {
    if links != [] {
      var rest, next := links[1..], ReplaceLast(line, before, after);
      assert links[0] in links && forall l :: l in rest ==> l in links;
      LinkReplaces(line, links[0], retarget);
      SameLinksRepeat(next, rest, retarget, before, after);
      EditFirst(line, links, EditorFor(retarget));
      RepeatFirst(line, before, after, |links|);
    }
  }

  lemma EditFirst(line: seq<Byte>, links: seq<LinkReference>, edit: Editor)
    requires links != []
    ensures EditRepeatedly(line, links, edit) == EditRepeatedly(edit(line, links[0]), links[1..], edit)
  {
  }

  lemma RepeatFirst(line: seq<Byte>, before: seq<Byte>, after: seq<Byte>, n: nat)
    requires n > 0
    ensures Repeated(line, before, after, n) == Repeated(ReplaceLast(line, before, after), before, after, n - 1)
  {
  }

  lemma LinkReplaces(line: seq<Byte>, link: LinkReference, retarget: Retarget)
    requires link.Text() != retarget(link)
    ensures EditorFor(retarget)(line, link) == ReplaceLast(line, link.Text(), retarget(link))
  {
  }

  /** The offsets at which the replacements take place, one after the other. */
  function Hits(line: seq<Byte>, before: seq<Byte>, after: seq<Byte>, n: nat): seq<nat>
    decreases n
  {
    var at := LastIndex(line, before);
    if n == 0 || at.None? then [] else [at.value] + Hits(ReplaceLast(line, before, after), before, after, n - 1)
  }

  /** The offsets of the last `n` occurrences that do not overlap, from right to left. */
  function LastOccurrences(line: seq<Byte>, before: seq<Byte>, n: nat): seq<nat>
    decreases n
  {
    var at := LastIndex(line, before);
    if n == 0 || at.None? then [] else [at.value] + LastOccurrences(line[..at.value], before, n - 1)
  }

  /** The replacements in `front + rest` take place at the last occurrences in the front. */
  ghost predicate HitsLast(front: seq<Byte>, rest: seq<Byte>, before: seq<Byte>, after: seq<Byte>, n: nat) {
    Hits(front + rest, before, after, n) == LastOccurrences(front, before, n)
  }

  /** The last `n` occurrences replaced. */
  function LastReplaced(line: seq<Byte>, before: seq<Byte>, after: seq<Byte>, n: nat): seq<Byte>
    decreases n
  {
    var at := LastIndex(line, before);
    if n == 0 || at.None? then line
    else LastReplaced(line[..at.value], before, after, n - 1) + after + line[at.value + |before|..]
  }

  /** Behind or across the end of the untouched front there is an occurrence of the old text. */
  ghost predicate Back(front: seq<Byte>, rest: seq<Byte>, before: seq<Byte>) {
    exists k: nat :: |front| < k + |before| && OccursAt(front + rest, before, k)
  }

  /** The part of the front before its last occurrence. */
  function Untouched(front: seq<Byte>, before: seq<Byte>): seq<Byte>
    requires LastIndex(front, before).Some?
  {
    front[..LastIndex(front, before).value]
  }

  /** What stands behind that part once the occurrence is replaced. */
  function Behind(front: seq<Byte>, rest: seq<Byte>, before: seq<Byte>, after: seq<Byte>): seq<Byte>
    requires LastIndex(front, before).Some?
  {
    after + front[LastIndex(front, before).value + |before|..] + rest
  }

  /** The replacements never bring the old text back behind the part of the line that is still untouched. */
  ghost predicate NeverBack(front: seq<Byte>, rest: seq<Byte>, before: seq<Byte>, after: seq<Byte>, n: nat)
    decreases n
  {
    n == 0 ||
    (&& !Back(front, rest, before)
     && (LastIndex(front, before).Some? ==>
           NeverBack(Untouched(front, before), Behind(front, rest, before, after), before, after, n - 1)))
  }

  lemma OccursInFront(front: seq<Byte>, rest: seq<Byte>, before: seq<Byte>, k: nat)
    requires k + |before| <= |front|
    ensures OccursAt(front + rest, before, k) <==> OccursAt(front, before, k)
  {
    assert (front + rest)[k..k + |before|] == front[k..k + |before|];
  }

  /** Nothing behind the front: the last occurrence is that of the front. */
  lemma LastInFront(front: seq<Byte>, rest: seq<Byte>, before: seq<Byte>)
    requires !Back(front, rest, before)
    ensures LastIndex(front + rest, before) == LastIndex(front, before)
  {
    forall k: nat ensures OccursAt(front + rest, before, k) <==> OccursAt(front, before, k) {
      if k + |before| <= |front| {
        OccursInFront(front, rest, before, k);
      }
    }
    SameLastIndex(front + rest, front, before);
  }

  lemma SameLastIndex(s: seq<Byte>, t: seq<Byte>, before: seq<Byte>)
    requires |t| <= |s| && forall k: nat :: OccursAt(s, before, k) <==> OccursAt(t, before, k)
    ensures LastIndex(s, before) == LastIndex(t, before)
  {
    var a, b := LastIndex(s, before), LastIndex(t, before);
    if a.Some? {
      assert OccursAt(t, before, a.value);
    }
    if b.Some? {
      assert OccursAt(s, before, b.value);
    }
  }

  /** Something behind the front: the last occurrence is not one of the front. */
  lemma LastIsBack(front: seq<Byte>, rest: seq<Byte>, before: seq<Byte>)
    requires Back(front, rest, before)
    ensures var at := LastIndex(front + rest, before); at.Some? && at != LastIndex(front, before)
  {
    var k: nat :| |front| < k + |before| && OccursAt(front + rest, before, k);
    var at := LastIndex(front + rest, before);
    assert at.Some? && k <= at.value;
  }

  lemma ReplacedFront(front: seq<Byte>, rest: seq<Byte>, before: seq<Byte>, after: seq<Byte>)
    requires !Back(front, rest, before) && LastIndex(front, before).Some?
    ensures ReplaceLast(front + rest, before, after) == Untouched(front, before) + Behind(front, rest, before, after)
  {
    LastInFront(front, rest, before);
    var p := LastIndex(front, before).value;
    CutInFront(front, rest, p, p + |before|, after);
  }

  lemma CutInFront(front: seq<Byte>, rest: seq<Byte>, p: nat, q: nat, after: seq<Byte>)
    requires p <= q <= |front|
    ensures (front + rest)[..p] + after + (front + rest)[q..] == front[..p] + (after + front[q..] + rest)
  {
    assert (front + rest)[..p] == front[..p];
    assert (front + rest)[q..] == front[q..] + rest;
  }

  lemma FirstHit(front: seq<Byte>, rest: seq<Byte>, before: seq<Byte>, after: seq<Byte>, n: nat)
    requires n > 0 && !Back(front, rest, before) && LastIndex(front, before).Some?
    ensures HitsLast(front, rest, before, after, n) <==>
            HitsLast(Untouched(front, before), Behind(front, rest, before, after), before, after, n - 1)
  {
    LastInFront(front, rest, before);
    ReplacedFront(front, rest, before, after);
    SameHits(LastIndex(front, before).value,
             Hits(ReplaceLast(front + rest, before, after), before, after, n - 1),
             LastOccurrences(Untouched(front, before), before, n - 1));
  }

  lemma NoHit(front: seq<Byte>, rest: seq<Byte>, before: seq<Byte>, after: seq<Byte>, n: nat)
    requires !Back(front, rest, before) && LastIndex(front, before).None?
    ensures HitsLast(front, rest, before, after, n)
  {
    LastInFront(front, rest, before);
  }

  /** Where the `j`-th of these occurrences starts, and the end of the front for `j == 0`. */
  function StartOfLast(front: seq<Byte>, before: seq<Byte>, j: nat): nat
    decreases j
  {
    var at := LastIndex(front, before);
    if j == 0 || at.None? then |front| else StartOfLast(front[..at.value], before, j - 1)
  }

  /** With the last `j` occurrences replaced, the old text does not occur in the line at, across or behind
      the `j`-th. */
  ghost predicate NotBehind(front: seq<Byte>, rest: seq<Byte>, before: seq<Byte>, after: seq<Byte>, j: nat) {
    forall k: nat :: StartOfLast(front, before, j) < k + |before| ==>
      !OccursAt(LastReplaced(front, before, after, j) + rest, before, k)
  }

  lemma NotBehindNext(front: seq<Byte>, rest: seq<Byte>, before: seq<Byte>, after: seq<Byte>, j: nat)
    requires j > 0 && LastIndex(front, before).Some?
    ensures NotBehind(front, rest, before, after, j) <==>
            NotBehind(Untouched(front, before), Behind(front, rest, before, after), before, after, j - 1)
  {
    var p := LastIndex(front, before).value;
    FourJoined(LastReplaced(front[..p], before, after, j - 1), after, front[p + |before|..], rest);
    assert LastReplaced(front, before, after, j) + rest ==
           LastReplaced(Untouched(front, before), before, after, j - 1) + Behind(front, rest, before, after);
    assert StartOfLast(front, before, j) == StartOfLast(Untouched(front, before), before, j - 1);
  }

  lemma NotBehindFirst(front: seq<Byte>, rest: seq<Byte>, before: seq<Byte>, after: seq<Byte>, j: nat)
    requires j == 0 || LastIndex(front, before).None?
    ensures NotBehind(front, rest, before, after, j) <==> !Back(front, rest, before)
  {
    assert LastReplaced(front, before, after, j) == front && StartOfLast(front, before, j) == |front|;
  }

  lemma {:induction false} NeverBackIff(front: seq<Byte>, rest: seq<Byte>, before: seq<Byte>, after: seq<Byte>, n: nat)
    ensures NeverBack(front, rest, before, after, n) <==>
            forall j :: 0 <= j < n ==> NotBehind(front, rest, before, after, j)
    decreases n
  {
    if n > 0 {
      NotBehindFirst(front, rest, before, after, 0);
      if LastIndex(front, before).None? {
        forall j: nat | j < n ensures NotBehind(front, rest, before, after, j) <==> !Back(front, rest, before) {
          NotBehindFirst(front, rest, before, after, j);
        }
      } else {
        var front', rest' := Untouched(front, before), Behind(front, rest, before, after);
        NeverBackIff(front', rest', before, after, n - 1);
        forall j | 1 <= j < n
          ensures NotBehind(front, rest, before, after, j) <==> NotBehind(front', rest', before, after, j - 1)
        {
          NotBehindNext(front, rest, before, after, j);
        }
        ShiftedByOne(front, rest, front', rest', before, after, n);
      }
    }
  }

  lemma ShiftedByOne(front: seq<Byte>, rest: seq<Byte>, front': seq<Byte>, rest': seq<Byte>,
                     before: seq<Byte>, after: seq<Byte>, n: nat)
    requires n > 0
    requires forall j :: 1 <= j < n ==>
               (NotBehind(front, rest, before, after, j) <==> NotBehind(front', rest', before, after, j - 1))
    ensures (forall j :: 0 <= j < n ==> NotBehind(front, rest, before, after, j)) <==>
            NotBehind(front, rest, before, after, 0)
            && forall j :: 0 <= j < n - 1 ==> NotBehind(front', rest', before, after, j)
  {
    if && NotBehind(front, rest, before, after, 0)
       && forall j :: 0 <= j < n - 1 ==> NotBehind(front', rest', before, after, j)
    {
      forall j | 0 <= j < n ensures NotBehind(front, rest, before, after, j) {
        if j > 0 {
          assert NotBehind(front', rest', before, after, j - 1);
        }
      }
    }
    if forall j :: 0 <= j < n ==> NotBehind(front, rest, before, after, j) {
      forall j | 0 <= j < n - 1 ensures NotBehind(front', rest', before, after, j) {
        assert NotBehind(front, rest, before, after, j + 1);
      }
    }
  }

  /** `n` links with one text on a line rewrite the last `n` occurrences of it if and only if, for every
      `j` below `n`, the old text is nowhere behind the last `j` occurrences once these are replaced. The
      line is then the original one with exactly those occurrences replaced. */
  lemma HitsLastIff(line: seq<Byte>, before: seq<Byte>, after: seq<Byte>, n: nat)
    ensures Hits(line, before, after, n) == LastOccurrences(line, before, n) <==>
            forall j :: 0 <= j < n ==> NotBehind(line, [], before, after, j)
    ensures (forall j :: 0 <= j < n ==> NotBehind(line, [], before, after, j)) ==>
              Repeated(line, before, after, n) == LastReplaced(line, before, after, n)
  {
    assert line + [] == line;
    HitsIff(line, [], before, after, n);
    NeverBackIff(line, [], before, after, n);
    if NeverBack(line, [], before, after, n) {
      RepeatedIsLast(line, [], before, after, n);
      assert LastReplaced(line, before, after, n) + [] == LastReplaced(line, before, after, n);
    }
  }

  lemma {:induction false} HitsIff(front: seq<Byte>, rest: seq<Byte>, before: seq<Byte>, after: seq<Byte>, n: nat)
    ensures HitsLast(front, rest, before, after, n) <==> NeverBack(front, rest, before, after, n)
    decreases n
  {
    if n == 0 {
    } else if Back(front, rest, before) {
      BackHits(front, rest, before, after, n);
    } else if LastIndex(front, before).None? {
      NoHit(front, rest, before, after, n);
    } else {
      HitsIff(Untouched(front, before), Behind(front, rest, before, after), before, after, n - 1);
      FirstHit(front, rest, before, after, n);
    }
  }

  lemma BackHits(front: seq<Byte>, rest: seq<Byte>, before: seq<Byte>, after: seq<Byte>, n: nat)
    requires n > 0 && Back(front, rest, before)
    ensures !HitsLast(front, rest, before, after, n)
  {
    LastIsBack(front, rest, before);
    var hits, last := Hits(front + rest, before, after, n), LastOccurrences(front, before, n);
    assert hits[0] == LastIndex(front + rest, before).value;
    assert last != [] ==> last[0] == LastIndex(front, before).value;
  }

  lemma SameHits(p: nat, a: seq<nat>, b: seq<nat>)
    ensures [p] + a == [p] + b <==> a == b
  {
    if [p] + a == [p] + b {
      assert a == ([p] + a)[1..] && b == ([p] + b)[1..];
    }
  }

  /** And then the line is the original one with exactly those occurrences replaced. */
  lemma {:induction false} RepeatedIsLast(front: seq<Byte>, rest: seq<Byte>, before: seq<Byte>, after: seq<Byte>,
                                          n: nat)
    requires NeverBack(front, rest, before, after, n)
    ensures Repeated(front + rest, before, after, n) == LastReplaced(front, before, after, n) + rest
    decreases n
  {
    if n > 0 {
      if LastIndex(front, before).Some? {
        RepeatedIsLast(Untouched(front, before), Behind(front, rest, before, after), before, after, n - 1);
        FirstRepeated(front, rest, before, after, n);
      } else {
        LastInFront(front, rest, before);
        NothingToReplace(front + rest, before, after, n);
      }
    }
  }

  lemma FirstRepeated(front: seq<Byte>, rest: seq<Byte>, before: seq<Byte>, after: seq<Byte>, n: nat)
    requires n > 0 && !Back(front, rest, before) && LastIndex(front, before).Some?
    requires var front', rest' := Untouched(front, before), Behind(front, rest, before, after);
             Repeated(front' + rest', before, after, n - 1) == LastReplaced(front', before, after, n - 1) + rest'
    ensures Repeated(front + rest, before, after, n) == LastReplaced(front, before, after, n) + rest
  {
    ReplacedFront(front, rest, before, after);
    var p := LastIndex(front, before).value;
    FourJoined(LastReplaced(Untouched(front, before), before, after, n - 1), after, front[p + |before|..], rest);
  }

  lemma FourJoined(a: seq<Byte>, b: seq<Byte>, c: seq<Byte>, d: seq<Byte>)
    ensures a + (b + c + d) == a + b + c + d
  {
  }

  lemma {:induction false} NothingToReplace(line: seq<Byte>, before: seq<Byte>, after: seq<Byte>, n: nat)
    requires LastIndex(line, before).None?
    ensures Repeated(line, before, after, n) == line
    decreases n
  {
    if n > 0 {
      NothingToReplace(line, before, after, n - 1);
    }
  }

  const A: Byte := 97
  const B: Byte := 98

  /** Two links "a" to be rewritten to "ba" on the line "a a" give "a bba": the second link finds the "a"
      that the first one has written. */
  lemma SecondLinkMisses(line: seq<Byte>, before: seq<Byte>, after: seq<Byte>)
    requires line == [A, SPACE, A] && before == [A] && after == [B, A]
    ensures Repeated(line, before, after, 2) == [A, SPACE, B, B, A]
    ensures LastReplaced(line, before, after, 2) == [B, A, SPACE, B, A]
  {
    LastAt(line, A, 2);
    var once := [A, SPACE, B, A];
    assert ReplaceLast(line, before, after) == once;
    LastAt(once, A, 3);
    var twice := ReplaceLast(once, before, after);
    assert twice == [A, SPACE, B, B, A];
    assert Repeated(once, before, after, 1) == Repeated(twice, before, after, 0) == twice;
    var front := line[..2];
    LastAt(front, A, 0);
    assert LastReplaced(front[..0], before, after, 0) == [];
    assert LastReplaced(front, before, after, 1) == [B, A, SPACE];
  }

  lemma LastAt(s: seq<Byte>, b: Byte, at: nat)
    requires at < |s| && s[at] == b && forall k :: at < k < |s| ==> s[k] != b
    ensures LastIndex(s, [b]) == Some(at)
  {
    assert OccursAt(s, [b], at);
    forall k | at < k ensures !OccursAt(s, [b], k) {
      if k < |s| {
        assert s[k..k + 1][0] == s[k];
      }
    }
  }
}
