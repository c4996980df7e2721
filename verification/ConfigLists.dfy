/** Canonical string lists of a configuration. */
module ConfigLists {
  import opened Common

  // ---------------------------------------------------------------- string order

  /** The lexicographic order of strings. */
  predicate Less(a: string, b: string) {
    b != "" && (a == "" || a[0] < b[0] || (a[0] == b[0] && Less(a[1..], b[1..])))
  }

  lemma {:induction false} LessIsOrder(a: string, b: string)
    ensures !(Less(a, b) && Less(b, a))
    ensures a == b <==> !Less(a, b) && !Less(b, a)
  {
    if a != "" && b != "" {
      LessIsOrder(a[1..], b[1..]);
      assert a == [a[0]] + a[1..] && b == [b[0]] + b[1..];
    }
  }

  /** At the first difference, the smaller character comes first, and the end of a string before all. */
  ghost predicate DifferAt(a: string, b: string, k: nat) {
    k <= |a| && k < |b| && a[..k] == b[..k] && (k == |a| || a[k] < b[k])
  }

  lemma {:induction false} LessIff(a: string, b: string)
    ensures Less(a, b) <==> exists k: nat :: DifferAt(a, b, k)
  {
    if a != "" && b != "" && a[0] == b[0] {
      LessIff(a[1..], b[1..]);
      if Less(a, b) {
        var k: nat :| DifferAt(a[1..], b[1..], k);
        SameFirst(a, b, k);
        assert DifferAt(a, b, k + 1);
      }
      if k: nat :| DifferAt(a, b, k) {
        SameFirst(a, b, k - 1);
        assert DifferAt(a[1..], b[1..], k - 1);
      }
    } else {
      assert Less(a, b) ==> DifferAt(a, b, 0);
    }
  }

  lemma SameFirst(a: string, b: string, k: nat)
    requires a != "" && b != "" && a[0] == b[0] && k < |a| && k < |b|
    ensures a[..k + 1] == b[..k + 1] <==> a[1..][..k] == b[1..][..k]
  {
    assert a[..k + 1] == [a[0]] + a[1..][..k] && b[..k + 1] == [b[0]] + b[1..][..k];
    if a[..k + 1] == b[..k + 1] {
      assert a[1..][..k] == a[..k + 1][1..] && b[1..][..k] == b[..k + 1][1..];
    }
  }

  lemma {:induction false} LessTransitive(a: string, b: string, c: string)
    requires Less(a, b) && Less(b, c)
    ensures Less(a, c)
  {
    if a != "" && a[0] == b[0] == c[0] {
      LessTransitive(a[1..], b[1..], c[1..]);
    }
  }

  ghost predicate StrictlySorted(s: seq<string>) {
    forall i, j :: 0 <= i < j < |s| ==> Less(s[i], s[j])
  }

  ghost predicate WeaklySorted(s: seq<string>) {
    forall i, j :: 0 <= i < j < |s| ==> !Less(s[j], s[i])
  }

  // ---------------------------------------------------------------- normalized lists

  /** Trims ASCII white space on both sides. */
  function TrimSpace(s: string): string {
    Trim(s, (c: char) => IsSpace(c as int))
  }

  /** What is left of an entry is the middle between spaces, tabs and line breaks. */
  lemma TrimSpaceIsMiddle(s: string) returns (a: nat, b: nat)
    ensures a <= b <= |s| && TrimSpace(s) == s[a..b]
    ensures forall i :: 0 <= i < a || b <= i < |s| ==> s[i] == ' ' || '\t' <= s[i] <= '\r'
    ensures a < b ==> forall i :: i == a || i == b - 1 ==> !(s[i] == ' ' || '\t' <= s[i] <= '\r')
    ensures a == b ==> forall i :: 0 <= i < |s| ==> s[i] == ' ' || '\t' <= s[i] <= '\r'
  {
    a, b := TrimIsMiddle(s, (c: char) => IsSpace(c as int));
  }

  /** The entries that count: trimmed and not blank. */
  function Wanted(list: seq<string>): set<string> {
    (set v | v in list :: TrimSpace(v)) - {""}
  }

  /** Some entry is blank or padded, or two entries are the same when trimmed. */
  ghost predicate Noisy(list: seq<string>) {
    || (exists v :: v in list && (TrimSpace(v) == "" || TrimSpace(v) != v))
    || (exists i, j :: 0 <= i < j < |list| && TrimSpace(list[i]) == TrimSpace(list[j]))
  }

  /** The canonical form of a list. */
  ghost predicate IsNormal(list: seq<string>, normal: seq<string>) {
    StrictlySorted(normal) && forall s :: s in normal <==> s in Wanted(list)
  }

  /** The loop that trims and removes blanks and duplicates, keeping the order. */
  method TrimAndDedupe(list: seq<string>) returns (kept: seq<string>, changed: bool)
    ensures Distinct(kept) && forall s :: s in kept <==> s in Wanted(list)
    ensures changed <==> Noisy(list)
  {
    var seen: set<string> := {};
    kept, changed := [], false;
    for k := 0 to |list|
      invariant Distinct(kept) && forall s :: s in kept <==> s in seen
      invariant seen == Wanted(list[..k])
      invariant changed <==> Noisy(list[..k])
    {
      var t := TrimSpace(list[k]);
      NoisyNext(list, k);
      assert list[..k + 1] == list[..k] + [list[k]];
      assert Wanted(list[..k + 1]) == if t == "" then seen else seen + {t};
      if t == "" || t in seen {
        changed := true;
      } else {
        if t != list[k] {
          changed := true;
        }
        seen := seen + {t};
        kept := kept + [t];
      }
    }
    assert list[..|list|] == list;
  }

  /** What entry `k` adds to the noise. */
  ghost predicate NoisyAt(list: seq<string>, k: nat)
    requires k < |list|
  {
    var t := TrimSpace(list[k]);
    t == "" || t != list[k] || t in Wanted(list[..k])
  }

  lemma NoisyNext(list: seq<string>, k: nat)
    requires k < |list|
    ensures Noisy(list[..k + 1]) <==> Noisy(list[..k]) || NoisyAt(list, k)
  {
    if Noisy(list[..k]) || NoisyAt(list, k) {
      NoiseStays(list, k);
    }
    if Noisy(list[..k + 1]) {
      NoiseArises(list, k);
    }
  }

  lemma NoiseStays(list: seq<string>, k: nat)
    requires k < |list| && (Noisy(list[..k]) || NoisyAt(list, k))
    ensures Noisy(list[..k + 1])
  {
    var now, next, t := list[..k], list[..k + 1], TrimSpace(list[k]);
    assert next == now + [list[k]] && list[k] in next;
    if v :| v in now && (TrimSpace(v) == "" || TrimSpace(v) != v) {
      assert v in next;
    } else if i, j :| 0 <= i < j < |now| && TrimSpace(now[i]) == TrimSpace(now[j]) {
      assert next[i] == now[i] && next[j] == now[j];
    } else if t in Wanted(now) {
      var v :| v in now && TrimSpace(v) == t;
      var i :| 0 <= i < k && now[i] == v;
      assert TrimSpace(next[i]) == TrimSpace(next[k]);
    }
  }

  lemma NoiseArises(list: seq<string>, k: nat)
    requires k < |list| && Noisy(list[..k + 1])
    ensures Noisy(list[..k]) || NoisyAt(list, k)
  {
    var now, next := list[..k], list[..k + 1];
    assert next == now + [list[k]];
    if v :| v in next && (TrimSpace(v) == "" || TrimSpace(v) != v) {
      assert v in now || v == list[k];
    } else {
      var i, j :| 0 <= i < j < |next| && TrimSpace(next[i]) == TrimSpace(next[j]);
      assert now[i] in now && next[i] == now[i];
      if j < k {
        assert TrimSpace(now[i]) == TrimSpace(now[j]);
      } else {
        assert TrimSpace(now[i]) == TrimSpace(list[k]);
      }
    }
  }

  /** The in-place insertion sort, by swaps of neighbours. */
  method InsertionSort(list: seq<string>) returns (out: seq<string>)
    ensures multiset(out) == multiset(list) && WeaklySorted(out)
  {
    out := list;
    var i := 1;
    while i < |out|
      invariant |out| == |list| && multiset(out) == multiset(list)
      invariant 1 <= i && WeaklySorted(if i <= |out| then out[..i] else out)
    {
      out := InsertBack(out, i);
      i := i + 1;
    }
  }

  /** The inner loop: entry `i` moves back to its place among the sorted entries before it. */
  method InsertBack(list: seq<string>, i: nat) returns (out: seq<string>)
    requires i < |list| && WeaklySorted(list[..i])
    ensures |out| == |list| && multiset(out) == multiset(list) && WeaklySorted(out[..i + 1])
  {
    out := list;
    var j := i;
    while j > 0 && Less(out[j], out[j - 1])
      invariant 0 <= j <= i < |out| == |list| && multiset(out) == multiset(list)
      invariant SortedBut(out[..i + 1], j)
    {
      SwapKeepsSorted(out[..i + 1], j);
      SwapInPrefix(out, i + 1, j);
      out := Swap(out, j, j - 1);
      j := j - 1;
    }
    SettledIsSorted(out[..i + 1], j);
  }

  lemma SwapInPrefix(s: seq<string>, n: nat, j: nat)
    requires 0 < j < n <= |s|
    ensures Swap(s, j, j - 1)[..n] == Swap(s[..n], j, j - 1)
  {
  }

  /** Sorted without position `j`, and nothing behind `j` is smaller than the entry there. */
  ghost predicate SortedBut(s: seq<string>, j: nat) {
    && j < |s|
    && (forall a, b :: 0 <= a < b < |s| && a != j && b != j ==> !Less(s[b], s[a]))
    && (forall b :: j < b < |s| ==> !Less(s[b], s[j]))
  }

  lemma SwapKeepsSorted(s: seq<string>, j: nat)
    requires 0 < j && SortedBut(s, j) && Less(s[j], s[j - 1])
    ensures SortedBut(Swap(s, j, j - 1), j - 1)
  {
    LessIsOrder(s[j], s[j - 1]);
  }

  lemma SettledIsSorted(s: seq<string>, j: nat)
    requires SortedBut(s, j) && (j > 0 ==> !Less(s[j], s[j - 1]))
    ensures WeaklySorted(s)
  {
    forall a, b | 0 <= a < b < |s| ensures !Less(s[b], s[a]) {
      if b == j && a < j - 1 && Less(s[j], s[a]) {
        LessIsOrder(s[j - 1], s[a]);
        LessIsOrder(s[j], s[j - 1]);
        if s[a] != s[j - 1] && s[j] != s[j - 1] {
          LessTransitive(s[j - 1], s[j], s[a]);
        }
      }
    }
  }

  /** Trims, removes blanks and duplicates, and sorts; the flag tells whether a warning is due. */
  method NormalizeStringSlice(list: seq<string>) returns (out: seq<string>, changed: bool)
    ensures IsNormal(list, out)
    ensures changed <==> Noisy(list)
  {
    if list == [] {
      return list, false;
    }
    var kept;
    kept, changed := TrimAndDedupe(list);
    if |kept| <= 1 {
      return kept, changed;
    }
    out := InsertionSort(kept);
    DistinctSorted(kept, out);
  }

  lemma DistinctSorted(kept: seq<string>, out: seq<string>)
    requires Distinct(kept) && multiset(out) == multiset(kept) && WeaklySorted(out)
    ensures StrictlySorted(out) && forall s :: s in out <==> s in kept
  {
    forall s ensures s in out <==> s in kept {
      assert s in out <==> s in multiset(out);
      assert s in kept <==> s in multiset(kept);
    }
    forall i, j | 0 <= i < j < |out| ensures Less(out[i], out[j]) {
      var p, q := PairInPermutation(kept, out, i, j);
      assert kept[p] != kept[q];
      LessIsOrder(out[i], out[j]);
    }
  }

  /** The canonical form is unique: lists with the same wanted entries, in whatever order, with whatever
      padding, blanks and repetitions, are normalized to the same list. */
  lemma NormalIsUnique(a: seq<string>, normalA: seq<string>, b: seq<string>, normalB: seq<string>)
    requires IsNormal(a, normalA) && IsNormal(b, normalB) && Wanted(a) == Wanted(b)
    ensures normalA == normalB
  {
    StrictUnique(normalA, normalB);
  }

  lemma {:induction false} StrictUnique(a: seq<string>, b: seq<string>)
    requires StrictlySorted(a) && StrictlySorted(b) && forall s :: s in a <==> s in b
    ensures a == b
  {
    assert a != [] ==> a[0] in b;
    assert b != [] ==> b[0] in a;
    if a != [] {
      LessIsOrder(a[0], b[0]);
      SameHead(a, b, Less);
      forall s ensures s in a[1..] <==> s in b[1..] {
        InTail(a, s);
        InTail(b, s);
      }
      StrictUnique(a[1..], b[1..]);
    }
  }

  lemma InTail(s: seq<string>, x: string)
    requires StrictlySorted(s) && s != []
    ensures x in s[1..] <==> x in s && x != s[0]
  {
    assert s == [s[0]] + s[1..];
    if x in s[1..] {
      var i :| 0 <= i < |s[1..]| && s[1..][i] == x;
      LessIsOrder(s[0], s[i + 1]);
    }
  }

  // ---------------------------------------------------------------- the filtering lists

  datatype Filtering = Filtering(
    includePatterns: seq<string>, excludePatterns: seq<string>, requiredPaths: seq<string>, ignoreFiles: seq<string>)

  ghost predicate FilteringNormalized(f: Filtering, normal: Filtering) {
    && IsNormal(f.includePatterns, normal.includePatterns)
    && IsNormal(f.excludePatterns, normal.excludePatterns)
    && IsNormal(f.requiredPaths, normal.requiredPaths)
    && IsNormal(f.ignoreFiles, normal.ignoreFiles)
  }

  method NormalizeFiltering(f: Filtering) returns (normal: Filtering)
    ensures FilteringNormalized(f, normal)
  {
    var required, _ := NormalizeStringSlice(f.requiredPaths);
    var ignored, _ := NormalizeStringSlice(f.ignoreFiles);
    var included, _ := NormalizeStringSlice(f.includePatterns);
    var excluded, _ := NormalizeStringSlice(f.excludePatterns);
    normal := Filtering(included, excluded, required, ignored);
  }
}
