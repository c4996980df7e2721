/** Searching the body for a line that mentions a target outside of code. */
module LineSearch {
  import opened Common
  import opened Bytes
  import opened DocModel
  import Lines

  const BACKTICK_FENCE: seq<Byte> := [BACKTICK, BACKTICK, BACKTICK]
  const TILDE_FENCE: seq<Byte> := [TILDE, TILDE, TILDE]
  const FOUR_SPACES: seq<Byte> := [SPACE, SPACE, SPACE, SPACE]

  datatype Fence = Backticks | Tildes

  // ---------------------------------------------------------------- lines that are code

  function FenceOf(line: seq<Byte>): Option<Fence> {
    if HasPrefix(TrimBytes(line), BACKTICK_FENCE) then Some(Backticks)
    else if HasPrefix(TrimBytes(line), TILDE_FENCE) then Some(Tildes)
    else None
  }

  /** The text stands on the line with nothing but white space in front of it. */
  ghost predicate LeadsLine(line: seq<Byte>, text: seq<Byte>) {
    exists k: nat :: LeadsAt(line, text, k)
  }

  ghost predicate LeadsAt(line: seq<Byte>, text: seq<Byte>, k: nat) {
    OccursAt(line, text, k) && forall i :: 0 <= i < k ==> IsSpace(line[i])
  }

  lemma TrimmedPrefix(line: seq<Byte>, text: seq<Byte>)
    requires text != [] && forall b :: b in text ==> !IsSpace(b)
    ensures HasPrefix(TrimBytes(line), text) <==> LeadsLine(line, text)
  {
    var a, b := TrimIsMiddle(line, (b: Byte) => IsSpace(b));
    var n := |text|;
    if HasPrefix(TrimBytes(line), text) {
      assert line[a..b][..n] == line[a..a + n];
      assert LeadsAt(line, text, a);
    }
    if k: nat :| LeadsAt(line, text, k) {
      assert forall i :: 0 <= i < n ==> line[k + i] == text[i] && text[i] in text;
      assert !IsSpace(line[k]) && !IsSpace(line[k + n - 1]);
      assert a == k && k + n <= b;
      assert line[a..b][..n] == line[a..a + n];
    }
  }

  /** A line carries a fence exactly if three of its characters lead the line. */
  lemma FenceIff(line: seq<Byte>)
    ensures FenceOf(line) == Some(Backticks) <==> LeadsLine(line, [96, 96, 96])
    ensures FenceOf(line) == Some(Tildes) <==> LeadsLine(line, [126, 126, 126])
  {
    TrimmedPrefix(line, [96, 96, 96]);
    TrimmedPrefix(line, [126, 126, 126]);
    var trimmed := TrimBytes(line);
    assert HasPrefix(trimmed, [96, 96, 96]) ==> trimmed[..3][0] == 96;
    assert HasPrefix(trimmed, [126, 126, 126]) ==> trimmed[..3][0] == 126;
  }

  predicate Indented(line: seq<Byte>) {
    HasPrefix(line, FOUR_SPACES) || HasPrefix(line, [TAB])
  }

  /** Opens a block, closes it with the fence that opened it, and ignores the other fence inside. */
  function Toggle(active: Option<Fence>, fence: Fence): Option<Fence> {
    if active.None? then Some(fence) else if active.value == fence then None else active
  }

  /** The open fence before line `n`. */
  function ActiveAt(lines: seq<seq<Byte>>, n: nat): Option<Fence>
    requires n <= |lines|
  {
    if n == 0 then None
    else
      var active := ActiveAt(lines, n - 1);
      var fence := FenceOf(lines[n - 1]);
      if fence.Some? then Toggle(active, fence.value) else active
  }

  /** A fence is open before line `n` exactly if an earlier line opened it, outside of any block, and no
      line since then carries the same fence. */
  lemma {:induction false} ActiveIffOpened(lines: seq<seq<Byte>>, n: nat, fence: Fence)
    requires n <= |lines|
    ensures ActiveAt(lines, n) == Some(fence) <==> exists j: nat :: OpenedAt(lines, n, fence, j)
  {
    if n > 0 {
      ActiveIffOpened(lines, n - 1, fence);
      if ActiveAt(lines, n) == Some(fence) {
        if ActiveAt(lines, n - 1) == Some(fence) {
          var j: nat :| OpenedAt(lines, n - 1, fence, j);
          assert OpenedAt(lines, n, fence, j);
        } else {
          assert OpenedAt(lines, n, fence, n - 1);
        }
      }
      if j: nat :| OpenedAt(lines, n, fence, j) {
        if j < n - 1 {
          assert OpenedAt(lines, n - 1, fence, j);
        }
      }
    }
  }

  ghost predicate OpenedAt(lines: seq<seq<Byte>>, n: nat, fence: Fence, j: nat)
    requires n <= |lines|
  {
    && j < n && ActiveAt(lines, j) == None && FenceOf(lines[j]) == Some(fence)
    && forall k :: j < k < n ==> FenceOf(lines[k]) != Some(fence)
  }

  predicate IsCode(lines: seq<seq<Byte>>, n: nat)
    requires n < |lines|
  {
    FenceOf(lines[n]).Some? || ActiveAt(lines, n).Some? || Indented(lines[n])
  }

  /** A line is code exactly if three backticks or tildes lead it, a fence is open before it, or it starts
      with four spaces or a tab. */
  lemma CodeIff(lines: seq<seq<Byte>>, n: nat)
    requires n < |lines|
    ensures IsCode(lines, n) <==>
            || LeadsLine(lines[n], [96, 96, 96]) || LeadsLine(lines[n], [126, 126, 126])
            || (exists fence, j: nat :: OpenedAt(lines, n, fence, j))
            || (|lines[n]| >= 4 && forall i :: 0 <= i < 4 ==> lines[n][i] == 32)
            || (|lines[n]| >= 1 && lines[n][0] == 9)
  {
    FenceIff(lines[n]);
    ActiveIffOpened(lines, n, Backticks);
    ActiveIffOpened(lines, n, Tildes);
    IndentedIff(lines[n]);
    match ActiveAt(lines, n)
    case None =>
    case Some(Backticks) =>
    case Some(Tildes) =>
  }

  lemma IndentedIff(line: seq<Byte>)
    ensures Indented(line) <==>
            || (|line| >= 4 && forall i :: 0 <= i < 4 ==> line[i] == 32)
            || (|line| >= 1 && line[0] == 9)
  {
    if |line| >= 4 {
      assert line[..4] == [line[0], line[1], line[2], line[3]];
    }
    if |line| >= 1 {
      assert line[..1] == [line[0]];
    }
  }

  method ComputeSkippableLines(lines: seq<seq<Byte>>) returns (skippable: array<bool>)
    ensures fresh(skippable) && skippable.Length == |lines|
    ensures forall n :: 0 <= n < |lines| ==> (skippable[n] <==> IsCode(lines, n))
  {
    skippable := new bool[|lines|](_ => false);
    var active: Option<Fence> := None;
    for i := 0 to |lines|
      invariant active == ActiveAt(lines, i)
      invariant forall n :: 0 <= n < i ==> (skippable[n] <==> IsCode(lines, n))
      invariant forall n :: i <= n < |lines| ==> !skippable[n]
    {
      var trimmed := TrimBytes(lines[i]);
      if HasPrefix(trimmed, BACKTICK_FENCE) {
        active := Toggle(active, Backticks);
        skippable[i] := true;
      } else if HasPrefix(trimmed, TILDE_FENCE) {
        active := Toggle(active, Tildes);
        skippable[i] := true;
      } else if active.Some? || Indented(lines[i]) {
        skippable[i] := true;
      }
    }
  }

  // ---------------------------------------------------------------- mentions

  function CountBackticks(s: seq<Byte>): nat {
    if s == [] then 0 else CountBackticks(s[..|s| - 1]) + if Last(s) == BACKTICK then 1 else 0
  }

  lemma {:induction false} BackticksAreCounted(s: seq<Byte>)
    ensures CountBackticks(s) == multiset(s)[96]
  {
    if s != [] {
      BackticksAreCounted(s[..|s| - 1]);
      assert s == s[..|s| - 1] + [Last(s)];
    }
  }

  /** Positions outside of the line stand for its nearest end. */
  function Clamp(line: seq<Byte>, pos: int): (p: nat)
    ensures p <= |line|
  {
    if pos < 0 then 0 else if pos > |line| then |line| else pos
  }

  method IsInsideInlineCode(line: seq<Byte>, pos: int) returns (inside: bool)
    ensures inside <==> CountBackticks(line[..Clamp(line, pos)]) % 2 == 1
  {
    var count := 0;
    var i := 0;
    while i < pos && i < |line|
      invariant 0 <= i <= Clamp(line, pos) && count == CountBackticks(line[..i])
    {
      assert line[..i + 1][..i] == line[..i];
      if line[i] == BACKTICK {
        count := count + 1;
      }
      i := i + 1;
    }
    return count % 2 == 1;
  }

  /** The target stands at `p` and an even number of backticks precedes it. */
  predicate MentionAt(line: seq<Byte>, target: seq<Byte>, p: nat) {
    OccursAt(line, target, p) && CountBackticks(line[..p]) % 2 == 0
  }

  ghost predicate Mentions(line: seq<Byte>, target: seq<Byte>) {
    exists p :: MentionAt(line, target, p)
  }

  /** The inner loop: it tries the occurrences of the target from left to right. */
  method FindMention(line: seq<Byte>, target: seq<Byte>) returns (found: bool)
    requires target != []
    ensures found <==> Mentions(line, target)
  {
    var searchFrom := 0;
    while true
      invariant searchFrom <= |line|
      invariant forall p :: 0 <= p < searchFrom ==> !MentionAt(line, target, p)
      decreases |line| - searchFrom
    {
      var idx := Index(line, target, searchFrom);
      if idx.None? {
        return false;
      }
      var inside := IsInsideInlineCode(line, idx.value);
      if !inside {
        assert MentionAt(line, target, idx.value);
        return true;
      }
      searchFrom := idx.value + 1;
      if searchFrom >= |line| {
        return false;
      }
    }
  }

  ghost predicate Candidate(lines: seq<seq<Byte>>, target: seq<Byte>, n: nat) {
    n < |lines| && !IsCode(lines, n) && Mentions(lines[n], target)
  }

  /** The first body line from `startLine` on that is not code and mentions the target outside of an
      inline code span; line 1 if there is none. */
  method FindNextLineContaining(d: ParsedDoc, target: seq<Byte>, startLine: int) returns (r: nat)
    ensures d.body == [] || target == [] ==> r == 1
    ensures d.body != [] && target != [] ==>
              var lines := Lines.Split(d.body);
              var from := (if startLine < 1 then 1 else if startLine > |lines| then |lines| else startLine) - 1;
              if exists n :: n >= from && Candidate(lines, target, n) then
                && from < r && Candidate(lines, target, r - 1)
                && forall n :: from <= n < r - 1 ==> !Candidate(lines, target, n)
              else
                r == 1
  {
    if d.body == [] || target == [] {
      return 1;
    }
    var lines := Lines.Split(d.body);
    var skippable := ComputeSkippableLines(lines);
    var start := startLine;
    if start < 1 {
      start := 1;
    }
    if start > |lines| {
      start := |lines|;
    }
    var i := start - 1;
    while i < |lines|
      invariant start - 1 <= i <= |lines|
      invariant forall n :: 0 <= n < |lines| ==> (skippable[n] <==> IsCode(lines, n))
      invariant forall n :: start - 1 <= n < i ==> !Candidate(lines, target, n)
    {
      if !skippable[i] {
        var found := FindMention(lines[i], target);
        if found {
          assert Candidate(lines, target, i);
          return i + 1;
        }
      }
      i := i + 1;
    }
    return 1;
  }
}
