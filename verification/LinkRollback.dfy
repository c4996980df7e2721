/** Undoing link updates from the backups, with any operation failing: which originals come back, and
    which are lost. */
module LinkRollback {
  import opened Common
  import opened Bytes
  import opened Files

  const BACKUP_SUFFIX: seq<Byte> := [46, 98, 97, 99, 107, 117, 112] // ".backup"

  function BackupOf(source: Path): Path {
    source + BACKUP_SUFFIX
  }

  lemma BackupInjective(f: Path, g: Path)
    requires BackupOf(f) == BackupOf(g)
    ensures f == g
  {
    assert BackupOf(f)[..|f|] == f && BackupOf(g)[..|g|] == g;
  }

  function BackupsOf(sources: set<Path>): set<Path> {
    set f | f in sources :: BackupOf(f)
  }

  function AsSet(touched: seq<Path>): set<Path> {
    set f | f in touched
  }

  /** No source file sits at the backup path of another one. */
  ghost predicate NoCollision(sources: set<Path>) {
    forall f, g :: f in sources && g in sources ==> f != BackupOf(g)
  }

  // ---------------------------------------------------------------- what a rollback does

  /** One file: read the backup, write it back if it could be read, and remove the backup in any case. */
  function RestoreOne(d: Disk, original: Path): Disk {
    var backup := BackupOf(original);
    var content := Read(d.files, backup, OutcomeAt(d.faults, 0));
    var n := if content.Some? then 2 else 1;
    var written := if content.Some? then Written(d.files, original, content.value, OutcomeAt(d.faults, 1)) else d.files;
    Disk(Removed(written, backup, OutcomeAt(d.faults, n)), Behind(d.faults, n + 1))
  }

  function RestoreAll(d: Disk, touched: seq<Path>): Disk {
    if touched == [] then d else RestoreOne(RestoreAll(d, touched[..|touched| - 1]), Last(touched))
  }

  method Rollback(fs: FileSystem, touched: seq<Path>)
    modifies fs
    ensures fs.View() == RestoreAll(old(fs.View()), touched)
  {
    for i := 0 to |touched|
      invariant fs.View() == RestoreAll(old(fs.View()), touched[..i])
    {
      ghost var upTo := touched[..i + 1];
      assert upTo[..|upTo| - 1] == touched[..i] && Last(upTo) == touched[i];
      RollbackOne(fs, touched[i]);
    }
    assert touched[..|touched|] == touched;
  }

  method RollbackOne(fs: FileSystem, original: Path)
    modifies fs
    ensures fs.View() == RestoreOne(old(fs.View()), original)
  {
    ghost var faults := fs.faults;
    BehindBehind(faults, 1, 1);
    BehindBehind(faults, 1, 0);
    BehindBehind(faults, 2, 1);
    BehindBehind(faults, 2, 0);
    var backup := BackupOf(original);
    var content := fs.ReadFile(backup);
    if content.Some? {
      var _ := fs.WriteFile(original, content.value);
    }
    var _ := fs.Remove(backup);
  }

  /** A rollback changes no file but the touched ones and their backups. */
  lemma {:induction false} RestoreFrame(d: Disk, touched: seq<Path>)
    ensures SameExcept(d.files, RestoreAll(d, touched).files, AsSet(touched) + BackupsOf(AsSet(touched)))
  {
    if touched != [] {
      var init, last := touched[..|touched| - 1], Last(touched);
      RestoreFrame(d, init);
      assert touched == init + [last];
      assert forall p :: p in AsSet(init) ==> p in AsSet(touched);
      assert forall p :: p in BackupsOf(AsSet(init)) ==> p in BackupsOf(AsSet(touched));
      assert last in AsSet(touched) && BackupOf(last) in BackupsOf(AsSet(touched));
    }
  }

  // ---------------------------------------------------------------- one file at a time

  /** Before the rollback, the backup of every touched file holds its original. */
  ghost predicate BackedUp(before: Tree, now: Tree, touched: seq<Path>) {
    && Distinct(touched) && NoCollision(AsSet(touched))
    && forall k :: 0 <= k < |touched| ==>
         touched[k] in before && At(now, BackupOf(touched[k])) == Some(before[touched[k]])
  }

  /** How many operations it takes to restore a file: without a backup that can be read, nothing is written. */
  function Operations(faults: seq<Fault>): nat {
    if OutcomeAt(faults, 0).NoFault? then 3 else 2
  }

  /** The outcomes that are left when it is the turn of file `k`. */
  function FaultsFor(faults: seq<Fault>, k: nat): seq<Fault> {
    if k == 0 then faults
    else var rest := FaultsFor(faults, k - 1); Behind(rest, Operations(rest))
  }

  lemma Apart(touched: seq<Path>, i: nat, j: nat)
    requires Distinct(touched) && NoCollision(AsSet(touched)) && i < |touched| && j < |touched| && i != j
    ensures touched[i] != touched[j] && BackupOf(touched[i]) != BackupOf(touched[j])
    ensures touched[i] != BackupOf(touched[j])
  {
    assert touched[i] in AsSet(touched) && touched[j] in AsSet(touched);
    if BackupOf(touched[i]) == BackupOf(touched[j]) {
      BackupInjective(touched[i], touched[j]);
    }
  }

  lemma OneFrame(d: Disk, f: Path, p: Path)
    requires p != f && p != BackupOf(f)
    ensures At(RestoreOne(d, f).files, p) == At(d.files, p)
  {
  }

  /** A file and its backup are the same in both trees. */
  predicate SameFor(a: Tree, b: Tree, f: Path) {
    At(a, f) == At(b, f) && At(a, BackupOf(f)) == At(b, BackupOf(f))
  }

  /** Restoring one touched file leaves the other files and their backups alone. */
  lemma OthersTurn(r: Disk, touched: seq<Path>, k: nat, m: nat)
    requires Distinct(touched) && NoCollision(AsSet(touched)) && k < |touched| && m < |touched| && k != m
    ensures SameFor(RestoreOne(r, touched[m]).files, r.files, touched[k])
  {
    Apart(touched, k, m);
    Apart(touched, m, k);
    OneFrame(r, touched[m], touched[k]);
    OneFrame(r, touched[m], BackupOf(touched[k]));
  }

  /** The restored prefix leaves file `k` and its backup alone. */
  lemma {:induction false} PrefixRestored(d: Disk, touched: seq<Path>, n: nat, k: nat)
    requires Distinct(touched) && NoCollision(AsSet(touched)) && n <= k < |touched|
    ensures SameFor(RestoreAll(d, touched[..n]).files, d.files, touched[k])
    decreases n
  {
    if n > 0 {
      PrefixRestored(d, touched, n - 1, k);
      NextRestored(d, touched, n - 1);
      OthersTurn(RestoreAll(d, touched[..n - 1]), touched, k, n - 1);
    }
  }

  /** The outcomes for file `n` come next. */
  lemma {:induction false} PrefixFaults(before: Tree, d: Disk, touched: seq<Path>, n: nat)
    requires BackedUp(before, d.files, touched) && n <= |touched|
    ensures RestoreAll(d, touched[..n]).faults == FaultsFor(d.faults, n)
    decreases n
  {
    if n > 0 {
      PrefixFaults(before, d, touched, n - 1);
      PrefixRestored(d, touched, n - 1, n - 1);
      NextRestored(d, touched, n - 1);
      OneFaults(RestoreAll(d, touched[..n - 1]), touched[n - 1]);
    }
  }

  lemma OneFaults(r: Disk, f: Path)
    requires At(r.files, BackupOf(f)).Some?
    ensures RestoreOne(r, f).faults == Behind(r.faults, Operations(r.faults))
  {
  }

  lemma NextRestored(d: Disk, touched: seq<Path>, n: nat)
    requires n < |touched|
    ensures RestoreAll(d, touched[..n + 1]) == RestoreOne(RestoreAll(d, touched[..n]), touched[n])
  {
    var upTo := touched[..n + 1];
    assert upTo[..|upTo| - 1] == touched[..n] && Last(upTo) == touched[n];
  }

  /** What becomes of file `k` and its backup is decided when it is its turn. */
  lemma {:induction false} TurnDecides(before: Tree, d: Disk, touched: seq<Path>, n: nat, k: nat)
    requires BackedUp(before, d.files, touched) && k < n <= |touched|
    ensures var one := RestoreOne(Disk(d.files, FaultsFor(d.faults, k)), touched[k]);
            SameFor(RestoreAll(d, touched[..n]).files, one.files, touched[k])
    decreases n
  {
    var m := n - 1;
    var r := RestoreAll(d, touched[..m]);
    NextRestored(d, touched, m);
    if k < m {
      TurnDecides(before, d, touched, m, k);
      OthersTurn(r, touched, k, m);
    } else {
      OwnTurn(before, d, touched, k);
    }
  }

  lemma OwnTurn(before: Tree, d: Disk, touched: seq<Path>, k: nat)
    requires BackedUp(before, d.files, touched) && k < |touched|
    ensures var r := RestoreAll(d, touched[..k]);
            SameFor(RestoreOne(r, touched[k]).files,
                    RestoreOne(Disk(d.files, FaultsFor(d.faults, k)), touched[k]).files, touched[k])
  {
    PrefixRestored(d, touched, k, k);
    PrefixFaults(before, d, touched, k);
    SameTurn(RestoreAll(d, touched[..k]), d.files, touched[k]);
  }

  /** Restoring a file depends on nothing but the file, its backup and the outcomes. */
  lemma SameTurn(r: Disk, files: Tree, f: Path)
    requires SameFor(r.files, files, f)
    ensures SameFor(RestoreOne(r, f).files, RestoreOne(Disk(files, r.faults), f).files, f)
  {
    assert f != BackupOf(f);
  }

  // ---------------------------------------------------------------- which originals come back

  /** With these outcomes, a file that holds `now` gets its original back, or holds it anyway. */
  predicate ComesBack(now: Option<seq<Byte>>, original: seq<Byte>, faults: seq<Fault>) {
    if !OutcomeAt(faults, 0).NoFault? then now == Some(original)
    else match OutcomeAt(faults, 1)
      case NoFault => true
      case Fails => now == Some(original)
      case WritesInstead(left) => left == original
  }

  /** The backup outlives the rollback exactly if its removal fails. */
  predicate BackupStays(faults: seq<Fault>) {
    !OutcomeAt(faults, Operations(faults) - 1).NoFault?
  }

  lemma OneTurn(d: Disk, f: Path, original: seq<Byte>)
    requires At(d.files, BackupOf(f)) == Some(original)
    ensures var r := RestoreOne(d, f);
            && (At(r.files, f) == Some(original) <==> ComesBack(At(d.files, f), original, d.faults))
            && (At(r.files, BackupOf(f)) == Some(original) <==> BackupStays(d.faults))
  {
    assert f != BackupOf(f);
  }

  ghost predicate AllBack(before: Tree, now: Tree, touched: seq<Path>) {
    forall k :: 0 <= k < |touched| ==> At(now, touched[k]) == At(before, touched[k])
  }

  /** No original is lost: it is in its file or still in the backup. */
  ghost predicate NoneLost(before: Tree, now: Tree, touched: seq<Path>) {
    forall k :: 0 <= k < |touched| ==>
      touched[k] in before &&
      (|| At(now, touched[k]) == Some(before[touched[k]])
       || At(now, BackupOf(touched[k])) == Some(before[touched[k]]))
  }

  lemma FileTurn(before: Tree, d: Disk, touched: seq<Path>, k: nat)
    requires BackedUp(before, d.files, touched) && k < |touched|
    ensures var r, original := RestoreAll(d, touched), before[touched[k]];
            var faults := FaultsFor(d.faults, k);
            && (At(r.files, touched[k]) == Some(original) <==> ComesBack(At(d.files, touched[k]), original, faults))
            && (At(r.files, BackupOf(touched[k])) == Some(original) <==> BackupStays(faults))
  {
    TurnDecides(before, d, touched, |touched|, k);
    assert touched[..|touched|] == touched;
    OneTurn(Disk(d.files, FaultsFor(d.faults, k)), touched[k], before[touched[k]]);
  }

  /** Exactly when a rollback restores everything: for every touched file, its backup is read and written
      back, or the file holds its original in spite of the failure. */
  lemma RestoresIff(before: Tree, d: Disk, touched: seq<Path>)
    requires BackedUp(before, d.files, touched)
    ensures AllBack(before, RestoreAll(d, touched).files, touched) <==>
            forall k :: 0 <= k < |touched| ==>
              ComesBack(At(d.files, touched[k]), before[touched[k]], FaultsFor(d.faults, k))
  {
    forall k | 0 <= k < |touched|
      ensures At(RestoreAll(d, touched).files, touched[k]) == At(before, touched[k]) <==>
              ComesBack(At(d.files, touched[k]), before[touched[k]], FaultsFor(d.faults, k))
    {
      FileTurn(before, d, touched, k);
    }
  }

  /** Exactly when a rollback loses no original: for every touched file, it comes back, or the removal of
      its backup fails as well. */
  lemma NoneLostIff(before: Tree, d: Disk, touched: seq<Path>)
    requires BackedUp(before, d.files, touched)
    ensures NoneLost(before, RestoreAll(d, touched).files, touched) <==>
            forall k :: 0 <= k < |touched| ==>
              || ComesBack(At(d.files, touched[k]), before[touched[k]], FaultsFor(d.faults, k))
              || BackupStays(FaultsFor(d.faults, k))
  {
    forall k | 0 <= k < |touched|
      ensures (|| At(RestoreAll(d, touched).files, touched[k]) == Some(before[touched[k]])
               || At(RestoreAll(d, touched).files, BackupOf(touched[k])) == Some(before[touched[k]])) <==>
              (|| ComesBack(At(d.files, touched[k]), before[touched[k]], FaultsFor(d.faults, k))
               || BackupStays(FaultsFor(d.faults, k)))
    {
      FileTurn(before, d, touched, k);
    }
  }

  // ---------------------------------------------------------------- when the restoring operations succeed

  /** The reads and writes of a rollback of `n` files succeed; the removals may fail. */
  ghost predicate RestoringSucceeds(faults: seq<Fault>, n: nat) {
    forall k :: 0 <= k < n ==> OutcomeAt(faults, 3 * k).NoFault? && OutcomeAt(faults, 3 * k + 1).NoFault?
  }

  lemma {:induction false} InStep(faults: seq<Fault>, n: nat, k: nat)
    requires RestoringSucceeds(faults, n) && k <= n
    ensures FaultsFor(faults, k) == Behind(faults, 3 * k)
    decreases k
  {
    if k > 0 {
      InStep(faults, n, k - 1);
      ThreeMore(faults, 3 * (k - 1));
    }
  }

  lemma ThreeMore(faults: seq<Fault>, m: nat)
    requires OutcomeAt(faults, m).NoFault?
    ensures var rest := Behind(faults, m); Behind(rest, Operations(rest)) == Behind(faults, m + 3)
  {
    BehindBehind(faults, m, 0);
    BehindBehind(faults, m, 3);
  }

  /** If the restoring reads and writes succeed, every touched file has its original bytes again. */
  lemma SuccessRestores(before: Tree, d: Disk, touched: seq<Path>)
    requires BackedUp(before, d.files, touched) && RestoringSucceeds(d.faults, |touched|)
    ensures AllBack(before, RestoreAll(d, touched).files, touched)
  {
    forall k | 0 <= k < |touched|
      ensures ComesBack(At(d.files, touched[k]), before[touched[k]], FaultsFor(d.faults, k))
    {
      InStep(d.faults, |touched|, k);
      BehindBehind(d.faults, 3 * k, 0);
      BehindBehind(d.faults, 3 * k, 1);
    }
    RestoresIff(before, d, touched);
  }

  /** One failure is enough to lose an original: the write of the original stops half way, and the backup
      is removed nevertheless. */
  lemma OriginalLost(f: Path, original: seq<Byte>, now: seq<Byte>, left: seq<Byte>)
    requires left != original
    ensures var before, files := map[f := original], map[f := now, BackupOf(f) := original];
            var r := RestoreAll(Disk(files, [NoFault, WritesInstead(left)]), [f]);
            BackedUp(before, files, [f]) && !NoneLost(before, r.files, [f])
  {
    var before, files := map[f := original], map[f := now, BackupOf(f) := original];
    var faults := [NoFault, WritesInstead(left)];
    assert f != BackupOf(f) && AsSet([f]) == {f};
    assert [f][0] == f;
    NoneLostIff(before, Disk(files, faults), [f]);
    assert FaultsFor(faults, 0) == faults;
  }
}
