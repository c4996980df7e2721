/** Links of any texts on one line: when each of them is rewritten where it stands. */
module LinkPlaces {
  import opened Common
  import opened Bytes
  import opened Edits
  import opened LinkRewriting

  /** A link, and the offset in its line at which it stands. */
  datatype Place = Place(at: nat, link: LinkReference) {
    function End(): nat {
      at + |link.Text()|
    }
  }

  predicate Apart(p: Place, q: Place) {
    p.End() <= q.at || q.End() <= p.at
  }

  /** Every link stands on the line, and no two overlap. */
  ghost predicate Stand(line: seq<Byte>, places: seq<Place>) {
    && (forall p :: p in places ==> p.link.Text() != [] && OccursAt(line, p.link.Text(), p.at))
    && Pairwise(places, Apart)
  }

  function EditOf(p: Place, retarget: Retarget): Edit {
    Edit(p.at, p.End(), retarget(p.link))
  }

  function LinksOf(places: seq<Place>): seq<LinkReference> {
    if places == [] then [] else LinksOf(places[..|places| - 1]) + [Last(places).link]
  }

  // ---------------------------------------------------------------- the intended line

  function InsertAscending(e: Edit, es: seq<Edit>): seq<Edit> {
    if es == [] || e.end <= es[0].start then [e] + es else [es[0]] + InsertAscending(e, es[1..])
  }

  /** The edits of the places, by position. */
  function EditsOf(places: seq<Place>, retarget: Retarget): seq<Edit> {
    if places == [] then []
    else InsertAscending(EditOf(Last(places), retarget), EditsOf(places[..|places| - 1], retarget))
  }

  lemma {:induction false} InsertedElements(e: Edit, es: seq<Edit>)
    ensures forall f :: f in InsertAscending(e, es) <==> f == e || f in es
  {
    if es != [] {
      InsertedElements(e, es[1..]);
      assert es == [es[0]] + es[1..];
    }
  }

  lemma {:induction false} InsertedAscends(n: nat, e: Edit, es: seq<Edit>, pos: nat)
    requires Ascending(n, es, pos) && InRange(n, e) && e.start < e.end && pos <= e.start
    requires forall f :: f in es ==> Disjoint(e, f) && f.start < f.end
    ensures Ascending(n, InsertAscending(e, es), pos)
  {
    if es != [] && es[0].start < e.end {
      assert es[0] in es;
      assert forall f :: f in es[1..] ==> f in es;
      InsertedAscends(n, e, es[1..], es[0].end);
    }
  }

  lemma {:induction false} InsertedShift(e: Edit, es: seq<Edit>, p: int)
    ensures Shift(InsertAscending(e, es), p) == Shift(es, p) + if e.end <= p then Delta(e) else 0
  {
    if es != [] && es[0].start < e.end {
      InsertedShift(e, es[1..], p);
    } else {
      assert ([e] + es)[1..] == es;
    }
  }

  /** One more edit replaces its range where the others have moved it to: the two splices have the same
      front and back around it. */
  lemma {:induction false} SpliceInserted(src: seq<Byte>, e: Edit, es: seq<Edit>, pos: nat)
    returns (front: seq<Byte>, back: seq<Byte>)
    requires Ascending(|src|, es, pos) && InRange(|src|, e) && e.start < e.end && pos <= e.start
    requires forall f :: f in es ==> Disjoint(e, f) && f.start < f.end
    ensures Ascending(|src|, InsertAscending(e, es), pos)
    ensures Splice(src, es, pos) == front + src[e.start..e.end] + back
    ensures Splice(src, InsertAscending(e, es), pos) == front + e.replacement + back
    ensures |front| == e.start - pos + Shift(es, e.start)
  {
    InsertedAscends(|src|, e, es, pos);
    if es != [] && es[0].start < e.end {
      assert es[0] in es;
      assert forall f :: f in es[1..] ==> f in es;
      var head := src[pos..es[0].start] + es[0].replacement;
      front, back := SpliceInserted(src, e, es[1..], es[0].end);
      InsertedBehind(e, es);
      SpliceHead(src, es, pos);
      SpliceHead(src, InsertAscending(e, es), pos);
      ShiftHead(src, e, es, pos);
      Prepended(head, front, src[e.start..e.end], back);
      Prepended(head, front, e.replacement, back);
      front := head + front;
    } else {
      front, back := src[pos..e.start], Splice(src, es, e.end);
      FirstInserted(src, e, es, pos);
    }
  }

  lemma Prepended(head: seq<Byte>, a: seq<Byte>, b: seq<Byte>, c: seq<Byte>)
    ensures head + (a + b + c) == head + a + b + c
  {
  }

  lemma ShiftHead(src: seq<Byte>, e: Edit, es: seq<Edit>, pos: nat)
    requires es != [] && InRange(|src|, es[0]) && pos <= es[0].start && es[0].end <= e.start
    ensures |src[pos..es[0].start] + es[0].replacement| + (e.start - es[0].end + Shift(es[1..], e.start)) ==
            e.start - pos + Shift(es, e.start)
  {
  }

  lemma InsertedBehind(e: Edit, es: seq<Edit>)
    requires es != [] && es[0].start < e.end
    ensures InsertAscending(e, es) != [] && InsertAscending(e, es)[0] == es[0]
    ensures InsertAscending(e, es)[1..] == InsertAscending(e, es[1..])
  {
    var rest := InsertAscending(e, es[1..]);
    assert ([es[0]] + rest)[1..] == rest;
  }

  lemma SpliceHead(src: seq<Byte>, es: seq<Edit>, pos: nat)
    requires es != [] && InRange(|src|, es[0]) && pos <= es[0].start && Ascending(|src|, es[1..], es[0].end)
    ensures Ascending(|src|, es, pos)
    ensures Splice(src, es, pos) == (src[pos..es[0].start] + es[0].replacement) + Splice(src, es[1..], es[0].end)
  {
  }

  lemma SpliceFrom(src: seq<Byte>, es: seq<Edit>, pos: nat, mid: nat)
    requires Ascending(|src|, es, pos) && pos <= mid <= |src| && (es != [] ==> mid <= es[0].start)
    ensures Ascending(|src|, es, mid) && Splice(src, es, pos) == src[pos..mid] + Splice(src, es, mid)
  {
    if es == [] {
      assert src[pos..] == src[pos..mid] + src[mid..];
    } else {
      var gap := src[mid..es[0].start];
      assert src[pos..es[0].start] == src[pos..mid] + gap;
      Assoc(src[pos..mid], gap, es[0].replacement);
      Assoc(src[pos..mid], gap + es[0].replacement, Splice(src, es[1..], es[0].end));
    }
  }

  lemma FirstInserted(src: seq<Byte>, e: Edit, es: seq<Edit>, pos: nat)
    requires Ascending(|src|, es, pos) && InRange(|src|, e) && e.start < e.end && pos <= e.start
    requires (es != [] ==> e.end <= es[0].start) && forall f :: f in es ==> f.start < f.end
    ensures Ascending(|src|, [e] + es, pos)
    ensures Ascending(|src|, es, e.end) && Shift(es, e.start) == 0
    ensures Splice(src, es, pos) == src[pos..e.start] + src[e.start..e.end] + Splice(src, es, e.end)
    ensures Splice(src, [e] + es, pos) == src[pos..e.start] + e.replacement + Splice(src, es, e.end)
  {
    SpliceFrom(src, es, pos, e.end);
    AscendingFrom(|src|, es, e.end);
    ShiftBelow(|src|, es, pos, e.start);
    assert ([e] + es)[1..] == es;
    assert src[pos..e.end] == src[pos..e.start] + src[e.start..e.end];
  }

  // ---------------------------------------------------------------- the edits of the places

  lemma StandPrefix(line: seq<Byte>, places: seq<Place>, i: nat)
    requires Stand(line, places) && i <= |places|
    ensures Stand(line, places[..i])
  {
    assert forall p :: p in places[..i] ==> p in places;
  }

  lemma {:induction false} EditsElements(places: seq<Place>, retarget: Retarget)
    ensures forall f :: f in EditsOf(places, retarget) ==> exists p :: p in places && f == EditOf(p, retarget)
    ensures forall p :: p in places ==> EditOf(p, retarget) in EditsOf(places, retarget)
  {
    if places != [] {
      var init, last := places[..|places| - 1], Last(places);
      EditsElements(init, retarget);
      InsertedElements(EditOf(last, retarget), EditsOf(init, retarget));
      assert places == init + [last];
    }
  }

  lemma FitsIn(line: seq<Byte>, init: seq<Place>, last: Place, retarget: Retarget)
    requires Stand(line, init + [last])
    ensures Stand(line, init)
    ensures var e := EditOf(last, retarget);
            && InRange(|line|, e) && e.start < e.end && line[e.start..e.end] == last.link.Text()
            && forall f :: f in EditsOf(init, retarget) ==> Disjoint(e, f) && f.start < f.end
  {
    var places := init + [last];
    assert places[..|init|] == init && last in places;
    StandPrefix(line, places, |init|);
    EditsElements(init, retarget);
    forall p | p in init ensures Apart(last, p) {
      var i :| 0 <= i < |init| && init[i] == p;
      assert places[i] == p && places[|init|] == last;
    }
  }

  lemma {:induction false} EditsAscend(line: seq<Byte>, places: seq<Place>, retarget: Retarget)
    requires Stand(line, places)
    ensures Ascending(|line|, EditsOf(places, retarget), 0)
  {
    if places != [] {
      var init, last := places[..|places| - 1], Last(places);
      assert places == init + [last];
      FitsIn(line, init, last, retarget);
      EditsAscend(line, init, retarget);
      InsertedAscends(|line|, EditOf(last, retarget), EditsOf(init, retarget), 0);
    }
  }

  /** The line with every link rewritten where it stands. */
  ghost function Intended(line: seq<Byte>, places: seq<Place>, retarget: Retarget): seq<Byte>
    requires Stand(line, places)
  {
    EditsAscend(line, places, retarget);
    Splice(line, EditsOf(places, retarget), 0)
  }

  /** Where an offset moves when the links at these places are rewritten. */
  function MovedTo(places: seq<Place>, retarget: Retarget, at: nat): int {
    at + Shift(EditsOf(places, retarget), at)
  }

  lemma IntendedNext(line: seq<Byte>, init: seq<Place>, last: Place, retarget: Retarget)
    returns (front: seq<Byte>, back: seq<Byte>)
    requires Stand(line, init + [last])
    ensures Stand(line, init)
    ensures Intended(line, init, retarget) == front + last.link.Text() + back
    ensures Intended(line, init + [last], retarget) == front + retarget(last.link) + back
    ensures |front| == MovedTo(init, retarget, last.at)
  {
    var places := init + [last];
    assert places[..|places| - 1] == init && Last(places) == last;
    FitsIn(line, init, last, retarget);
    EditsAscend(line, init, retarget);
    front, back := SpliceInserted(line, EditOf(last, retarget), EditsOf(init, retarget), 0);
  }

  // ---------------------------------------------------------------- what the links do

  /** The line after the links at the first `i` places have been applied. */
  function Current(line: seq<Byte>, places: seq<Place>, retarget: Retarget, i: nat): seq<Byte>
    requires i <= |places|
  {
    EditRepeatedly(line, LinksOf(places[..i]), EditorFor(retarget))
  }

  lemma {:induction false} EditOneMore(line: seq<Byte>, links: seq<LinkReference>, link: LinkReference, edit: Editor)
    ensures EditRepeatedly(line, links + [link], edit) == edit(EditRepeatedly(line, links, edit), link)
    decreases |links|
  {
    var longer := links + [link];
    if links == [] {
      assert longer[0] == link && longer[1..] == [];
    } else {
      assert longer[0] == links[0] && longer[1..] == links[1..] + [link];
      EditOneMore(edit(line, links[0]), links[1..], link, edit);
    }
  }

  lemma CurrentNext(line: seq<Byte>, places: seq<Place>, retarget: Retarget, i: nat)
    requires i < |places|
    ensures Current(line, places, retarget, i + 1) ==
            EditLine(Current(line, places, retarget, i), places[i].link, retarget)
  {
    var upTo := places[..i + 1];
    assert upTo[..|upTo| - 1] == places[..i] && Last(upTo) == places[i];
    EditOneMore(line, LinksOf(places[..i]), places[i].link, EditorFor(retarget));
  }

  /** The link at place `i` needs no rewriting, or is rewritten where it stands. */
  predicate RewritesItself(line: seq<Byte>, places: seq<Place>, retarget: Retarget, i: nat)
    requires i < |places|
  {
    var p := places[i];
    var found := LastIndex(Current(line, places, retarget, i), p.link.Text());
    retarget(p.link) == p.link.Text()
    || (found.Some? && found.value == MovedTo(places[..i], retarget, p.at))
  }

  /** In the line with the links before place `i` rewritten where they stand, the text of this link does
      not occur behind it. */
  ghost predicate LastOfItsText(line: seq<Byte>, places: seq<Place>, retarget: Retarget, i: nat)
    requires Stand(line, places) && i < |places|
  {
    StandPrefix(line, places, i);
    var p := places[i];
    retarget(p.link) == p.link.Text()
    || forall k: nat :: MovedTo(places[..i], retarget, p.at) < k ==>
         !OccursAt(Intended(line, places[..i], retarget), p.link.Text(), k)
  }

  /** With the links before it rewritten where they stand: this one is too, exactly if it is the last
      occurrence of its text. */
  lemma OneMoreLink(line: seq<Byte>, places: seq<Place>, retarget: Retarget, i: nat)
    requires Stand(line, places) && i < |places| && Stand(line, places[..i]) && Stand(line, places[..i + 1])
    requires Current(line, places, retarget, i) == Intended(line, places[..i], retarget)
    ensures RewritesItself(line, places, retarget, i) <==> LastOfItsText(line, places, retarget, i)
    ensures RewritesItself(line, places, retarget, i) ==>
              Current(line, places, retarget, i + 1) == Intended(line, places[..i + 1], retarget)
  {
    var p := places[i];
    assert places[..i + 1] == places[..i] + [p];
    var front, back := IntendedNext(line, places[..i], p, retarget);
    CurrentNext(line, places, retarget, i);
    if retarget(p.link) != p.link.Text() {
      MiddleOccurs(front, p.link.Text(), back);
      LastIsFound(front + p.link.Text() + back, p.link.Text(), |front|);
    }
  }

  lemma LastIsFound(s: seq<Byte>, text: seq<Byte>, at: nat)
    requires OccursAt(s, text, at)
    ensures LastIndex(s, text) == Some(at) <==> forall k: nat :: at < k ==> !OccursAt(s, text, k)
  {
    var found := LastIndex(s, text);
    assert found.Some? && at <= found.value;
  }

  lemma {:induction false} LinksInPlace(line: seq<Byte>, places: seq<Place>, retarget: Retarget, n: nat)
    requires Stand(line, places) && n <= |places|
    ensures Stand(line, places[..n])
    ensures (forall i :: 0 <= i < n ==> RewritesItself(line, places, retarget, i)) <==>
            (forall i :: 0 <= i < n ==> LastOfItsText(line, places, retarget, i))
    ensures (forall i :: 0 <= i < n ==> RewritesItself(line, places, retarget, i)) ==>
              Current(line, places, retarget, n) == Intended(line, places[..n], retarget)
    decreases n
  {
    StandPrefix(line, places, n);
    if n > 0 {
      var m := n - 1;
      LinksInPlace(line, places, retarget, m);
      if forall i :: 0 <= i < m ==> RewritesItself(line, places, retarget, i) {
        OneMoreLink(line, places, retarget, m);
      }
    } else {
      assert places[..0] == [];
    }
  }

  /** Links of any texts on one line, applied in this order: each is rewritten where it stands if and only
      if, with the links before it rewritten where they stand, its text does not occur behind it. The line
      is then the intended one. */
  lemma InPlaceIff(line: seq<Byte>, places: seq<Place>, retarget: Retarget)
    requires Stand(line, places)
    ensures (forall i :: 0 <= i < |places| ==> RewritesItself(line, places, retarget, i)) <==>
            (forall i :: 0 <= i < |places| ==> LastOfItsText(line, places, retarget, i))
    ensures (forall i :: 0 <= i < |places| ==> LastOfItsText(line, places, retarget, i)) ==>
              EditRepeatedly(line, LinksOf(places), EditorFor(retarget)) == Intended(line, places, retarget)
  {
    assert places[..|places|] == places;
    LinksInPlace(line, places, retarget, |places|);
  }

  /** On the intended line, the new text of every link stands where its place was moved to. */
  lemma NewTextStands(line: seq<Byte>, places: seq<Place>, retarget: Retarget, p: Place)
    requires Stand(line, places) && p in places
    ensures var at := MovedTo(places, retarget, p.at);
            0 <= at && OccursAt(Intended(line, places, retarget), retarget(p.link), at)
  {
    EditsAscend(line, places, retarget);
    EditsElements(places, retarget);
    assert p.link.Text() != [];
    SplicedIn(line, EditsOf(places, retarget), EditOf(p, retarget), 0);
  }

  lemma {:induction false} SplicedIn(src: seq<Byte>, es: seq<Edit>, e: Edit, pos: nat)
    requires Ascending(|src|, es, pos) && e in es && e.start < e.end
    ensures var at := e.start - pos + Shift(es, e.start);
            0 <= at && OccursAt(Splice(src, es, pos), e.replacement, at)
  {
    var gap, rest := src[pos..es[0].start], Splice(src, es[1..], es[0].end);
    AscendingFrom(|src|, es[1..], es[0].end);
    if e in es[1..] {
      SplicedIn(src, es[1..], e, es[0].end);
      OccursBehind(gap + es[0].replacement, rest, e.replacement, e.start - es[0].end + Shift(es[1..], e.start));
    } else {
      FirstSpliced(src, es, e, pos);
      MiddleOccurs(gap, e.replacement, rest);
    }
  }

  lemma FirstSpliced(src: seq<Byte>, es: seq<Edit>, e: Edit, pos: nat)
    requires Ascending(|src|, es, pos) && e in es && e !in es[1..] && e.start < e.end
    ensures e == es[0] && Shift(es, e.start) == 0
  {
    assert es == [es[0]] + es[1..];
    AscendingFrom(|src|, es[1..], es[0].end);
    forall f | f in es ensures e.start < f.end {
      assert f == e || f in es[1..];
    }
    ShiftBelow(|src|, es, pos, e.start);
  }

  lemma MiddleOccurs(a: seq<Byte>, b: seq<Byte>, c: seq<Byte>)
    ensures OccursAt(a + b + c, b, |a|)
    ensures (a + b + c)[..|a|] == a && (a + b + c)[|a| + |b|..] == c
  {
  }

  // ---------------------------------------------------------------- any order

  lemma FirstIsLowest(n: nat, es: seq<Edit>, pos: nat, e: Edit)
    requires Ascending(n, es, pos) && es != [] && es[0].start < es[0].end
    ensures e in es[1..] ==> es[0].end <= e.start
    ensures e in es[1..] <==> e in es && e != es[0]
  {
    assert es == [es[0]] + es[1..];
    AscendingFrom(n, es[1..], es[0].end);
  }

  /** Ascending edits of ranges that are not empty stand in one order only. */
  lemma {:induction false} OneAscending(n: nat, a: seq<Edit>, b: seq<Edit>, pos: nat)
    requires Ascending(n, a, pos) && Ascending(n, b, pos) && forall e :: e in a <==> e in b
    requires forall e :: e in a ==> e.start < e.end
    ensures a == b
    decreases |a|
  {
    assert a != [] ==> a[0] in b;
    assert b != [] ==> b[0] in a;
    if a != [] {
      FirstIsLowest(n, a, pos, b[0]);
      FirstIsLowest(n, b, pos, a[0]);
      forall e ensures e in a[1..] <==> e in b[1..] {
        FirstIsLowest(n, a, pos, e);
        FirstIsLowest(n, b, pos, e);
      }
      assert forall e :: e in a[1..] ==> e in a;
      OneAscending(n, a[1..], b[1..], a[0].end);
      assert a == [a[0]] + a[1..] && b == [b[0]] + b[1..];
    }
  }

  /** The intended line does not depend on the order of the links. */
  lemma IntendedInAnyOrder(line: seq<Byte>, a: seq<Place>, b: seq<Place>, retarget: Retarget)
    requires Stand(line, a) && multiset(a) == multiset(b)
    ensures Stand(line, b) && Intended(line, a, retarget) == Intended(line, b, retarget)
  {
    forall p ensures p in a <==> p in b {
      InMultiset(a, p);
      InMultiset(b, p);
    }
    PairwisePermutation(a, b, Apart);
    EditsAscend(line, a, retarget);
    EditsAscend(line, b, retarget);
    EditsElements(a, retarget);
    EditsElements(b, retarget);
    OneAscending(|line|, EditsOf(a, retarget), EditsOf(b, retarget), 0);
  }

  /** The links in this order can be told their places, so that each is rewritten where it stands. */
  ghost predicate InPlace(line: seq<Byte>, places: seq<Place>, links: seq<LinkReference>, retarget: Retarget) {
    exists ps: seq<Place> :: Ordered(line, places, links, retarget, ps)
  }

  ghost predicate Ordered(line: seq<Byte>, places: seq<Place>, links: seq<LinkReference>, retarget: Retarget,
                          ps: seq<Place>)
  {
    && multiset(ps) == multiset(places) && LinksOf(ps) == links && Stand(line, ps)
    && forall i :: 0 <= i < |ps| ==> LastOfItsText(line, ps, retarget, i)
  }

  /** Whatever order the sort left the links in: if each is rewritten where it stands, the line is the
      intended one. */
  lemma InPlaceIsIntended(line: seq<Byte>, places: seq<Place>, links: seq<LinkReference>, retarget: Retarget)
    requires Stand(line, places) && InPlace(line, places, links, retarget)
    ensures EditRepeatedly(line, links, EditorFor(retarget)) == Intended(line, places, retarget)
  {
    var ps :| Ordered(line, places, links, retarget, ps);
    InPlaceIff(line, ps, retarget);
    IntendedInAnyOrder(line, places, ps, retarget);
  }

  // ---------------------------------------------------------------- a link inside another

  const C: Byte := 99
  const SLASH: Byte := 47

  /** Links "c" and "/c" on a line: if "c" goes first, it rewrites the inside of the other link. */
  lemma OneInsideAnother(line: seq<Byte>, c: LinkReference, slashC: LinkReference, retarget: Retarget, d: Byte)
    requires line == [C, SPACE, SLASH, C] && c.Text() == [C] && slashC.Text() == [SLASH, C]
    requires retarget(c) == [d] && d != C
    ensures Stand(line, [Place(0, c), Place(2, slashC)])
    ensures EditLine(line, c, retarget) == [C, SPACE, SLASH, d]
    ensures LastIndex([C, SPACE, SLASH, d], slashC.Text()).None?
  {
    assert OccursAt(line, [C], 0) && OccursAt(line, [SLASH, C], 2) && OccursAt(line, [C], 3);
    LastIsFound(line, [C], 3);
    NoSlashC([C, SPACE, SLASH, d]);
  }

  lemma NoSlashC(s: seq<Byte>)
    requires forall k :: 0 <= k < |s| - 1 && s[k] == SLASH ==> s[k + 1] != C
    ensures LastIndex(s, [SLASH, C]).None?
  {
    forall k: nat ensures !OccursAt(s, [SLASH, C], k) {
      if k + 2 <= |s| {
        assert s[k..k + 2] == [s[k], s[k + 1]];
      }
    }
  }
}
