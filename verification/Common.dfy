/** Small types and sequence facts shared by the models. */
module Common {

  datatype Option<+T> = None | Some(value: T)

  datatype Result<+T, +E> = Ok(value: T) | Err(error: E)

  function Last<T>(s: seq<T>): T
    requires s != []
  {
    s[|s| - 1]
  }

  predicate HasPrefix<T(==)>(s: seq<T>, prefix: seq<T>) {
    |prefix| <= |s| && s[..|prefix|] == prefix
  }

  predicate HasSuffix<T(==)>(s: seq<T>, suffix: seq<T>) {
    |suffix| <= |s| && s[|s| - |suffix|..] == suffix
  }

  /** Removes the blank elements at both ends. */
  function Trim<T>(s: seq<T>, blank: T -> bool): seq<T> {
    if s == [] then []
    else if blank(s[0]) then Trim(s[1..], blank)
    else if blank(Last(s)) then Trim(s[..|s| - 1], blank)
    else s
  }

  /** What is left is the middle between blanks, and has none at its ends. */
  lemma {:induction false} TrimIsMiddle<T>(s: seq<T>, blank: T -> bool) returns (a: nat, b: nat)
    ensures a <= b <= |s| && Trim(s, blank) == s[a..b]
    ensures forall i :: 0 <= i < a || b <= i < |s| ==> blank(s[i])
    ensures a < b ==> !blank(s[a]) && !blank(s[b - 1])
    ensures a == b ==> forall i :: 0 <= i < |s| ==> blank(s[i])
    decreases |s|
  {
    a, b := 0, |s|;
    if s != [] && blank(s[0]) {
      var rest := s[1..];
      var c, d := TrimIsMiddle(rest, blank);
      a, b := c + 1, d + 1;
      assert rest[c..d] == s[a..b];
      assert forall i :: 1 <= i < |s| ==> s[i] == rest[i - 1];
    } else if s != [] && blank(Last(s)) {
      var init := s[..|s| - 1];
      a, b := TrimIsMiddle(init, blank);
      assert init[a..b] == s[a..b];
      assert forall i :: 0 <= i < |s| - 1 ==> s[i] == init[i];
    } else {
      assert s[0..|s|] == s;
    }
  }

  /** The ASCII white space characters. */
  predicate IsSpace(code: int) {
    code == 32 || 9 <= code <= 13
  }

  function Flatten<T>(ss: seq<seq<T>>): seq<T> {
    if ss == [] then [] else Flatten(ss[..|ss| - 1]) + Last(ss)
  }

  function Reverse<T>(s: seq<T>): (r: seq<T>)
    ensures |r| == |s| && forall i :: 0 <= i < |s| ==> r[i] == s[|s| - 1 - i]
  {
    if s == [] then [] else Reverse(s[1..]) + [s[0]]
  }

  lemma Assoc<T>(a: seq<T>, b: seq<T>, c: seq<T>)
    ensures a + (b + c) == a + b + c
  {
  }

  ghost predicate Distinct<T(!new)>(s: seq<T>) {
    forall i, j :: 0 <= i < j < |s| ==> s[i] != s[j]
  }

  // ---------------------------------------------------------------- permutations

  /** Any two elements at different positions are related. */
  ghost predicate Pairwise<T(!new)>(s: seq<T>, related: (T, T) -> bool) {
    forall i, j :: 0 <= i < |s| && 0 <= j < |s| && i != j ==> related(s[i], s[j])
  }

  function Swap<T>(s: seq<T>, i: nat, j: nat): (r: seq<T>)
    requires i < |s| && j < |s|
    ensures multiset(r) == multiset(s) && |r| == |s|
  {
    s[i := s[j]][j := s[i]]
  }

  lemma MultisetSplit<T>(s: seq<T>, i: nat)
    requires i < |s|
    ensures multiset(s) == multiset{s[i]} + multiset(s[..i] + s[i + 1..])
  {
    assert s == s[..i] + [s[i]] + s[i + 1..];
  }

  lemma PositionOf<T>(s: seq<T>, x: T) returns (p: nat)
    requires x in multiset(s)
    ensures p < |s| && s[p] == x
  {
    assert x in s;
    p :| p < |s| && s[p] == x;
  }

  /** Two elements at different positions of a sequence occur at different positions of any
      permutation of it. */
  lemma PairInPermutation<T>(a: seq<T>, b: seq<T>, i: nat, j: nat) returns (p: nat, q: nat)
    requires multiset(a) == multiset(b) && i < |b| && j < |b| && i != j
    ensures p < |a| && q < |a| && p != q && a[p] == b[i] && a[q] == b[j]
  {
    p := PositionOf(a, b[i]);
    SameRests(a, p, b, i);
    InRest(b, i, j);
    var r := PositionOf(a[..p] + a[p + 1..], b[j]);
    q := if r < p then r else r + 1;
  }

  lemma SameRests<T>(a: seq<T>, p: nat, b: seq<T>, i: nat)
    requires multiset(a) == multiset(b) && p < |a| && i < |b| && a[p] == b[i]
    ensures multiset(a[..p] + a[p + 1..]) == multiset(b[..i] + b[i + 1..])
  {
    MultisetSplit(a, p);
    MultisetSplit(b, i);
    assert multiset(a[..p] + a[p + 1..]) == multiset(a) - multiset{b[i]};
    assert multiset(b[..i] + b[i + 1..]) == multiset(b) - multiset{b[i]};
  }

  lemma InRest<T>(s: seq<T>, i: nat, j: nat)
    requires i < |s| && j < |s| && i != j
    ensures s[j] in multiset(s[..i] + s[i + 1..])
  {
    var rest := s[..i] + s[i + 1..];
    assert rest[if j < i then j else j - 1] == s[j];
    InMultiset(rest, s[j]);
  }

  lemma PairwisePermutation<T(!new)>(a: seq<T>, b: seq<T>, related: (T, T) -> bool)
    requires multiset(a) == multiset(b) && Pairwise(a, related)
    ensures Pairwise(b, related)
  {
    forall i, j | 0 <= i < |b| && 0 <= j < |b| && i != j ensures related(b[i], b[j]) {
      var p, q := PairInPermutation(a, b, i, j);
    }
  }

  lemma SameHead<T(!new)>(a: seq<T>, b: seq<T>, before: (T, T) -> bool)
    requires a != [] && b != [] && a[0] in b && b[0] in a
    requires forall i :: 0 < i < |a| ==> before(a[0], a[i])
    requires forall i :: 0 < i < |b| ==> before(b[0], b[i])
    requires before(a[0], b[0]) ==> !before(b[0], a[0])
    ensures a[0] == b[0]
  {
    var i :| 0 <= i < |b| && b[i] == a[0];
    var j :| 0 <= j < |a| && a[j] == b[0];
  }

  lemma InMultiset<T>(s: seq<T>, x: T)
    ensures x in multiset(s) <==> x in s
  {
  }

  lemma SameTails<T>(a: seq<T>, b: seq<T>)
    requires a != [] && b != [] && multiset(a) == multiset(b) && a[0] == b[0]
    ensures multiset(a[1..]) == multiset(b[1..])
  {
    assert a == [a[0]] + a[1..] && b == [b[0]] + b[1..];
    assert multiset(a[1..]) == multiset(a) - multiset{a[0]};
    assert multiset(b[1..]) == multiset(b) - multiset{b[0]};
  }
}
