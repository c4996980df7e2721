/** Applying link updates to many files: all files are rewritten, or all keep their bytes. */
module LinkUpdates {
  import opened Common
  import opened Bytes
  import opened Files
  import opened LinkRewriting
  import opened LinkRollback
  import Lines

  function Sources(links: seq<LinkReference>): set<Path> {
    set l | l in links :: l.sourceFile
  }

  lemma SourcesAre(links: seq<LinkReference>, f: Path)
    ensures f in Sources(links) <==> exists i :: 0 <= i < |links| && links[i].sourceFile == f
  {
    if i :| 0 <= i < |links| && links[i].sourceFile == f {
      assert links[i] in links;
    }
  }

  const MD: seq<Byte> := [46, 109, 100]                                     // ".md"
  const MARKDOWN: seq<Byte> := [46, 109, 97, 114, 107, 100, 111, 119, 110]  // ".markdown"

  predicate IsDocFile(path: Path) {
    HasSuffix(path, MD) || HasSuffix(path, MARKDOWN)
  }

  /** The files that links are collected from are Markdown documents, so they never collide. */
  lemma DocumentsNeverCollide(sources: set<Path>)
    requires forall f :: f in sources ==> IsDocFile(f)
    ensures NoCollision(sources)
  {
    forall f, g | f in sources && g in sources ensures f != BackupOf(g) {
      LastOfSuffix(f, if HasSuffix(f, MD) then MD else MARKDOWN);
      LastOfSuffix(BackupOf(g), BACKUP_SUFFIX);
    }
  }

  lemma LastOfSuffix(s: seq<Byte>, suffix: seq<Byte>)
    requires suffix != [] && HasSuffix(s, suffix)
    ensures s != [] && Last(s) == Last(suffix)
  {
    assert Last(s) == Last(s[|s| - |suffix|..]);
  }

  function LinksOf(links: seq<LinkReference>, source: Path): seq<LinkReference> {
    if links == [] then []
    else if links[0].sourceFile == source then [links[0]] + LinksOf(links[1..], source)
    else LinksOf(links[1..], source)
  }

  lemma {:induction false} LinksOfAreLinks(links: seq<LinkReference>, source: Path)
    ensures forall l :: l in LinksOf(links, source) ==> l in links && l.sourceFile == source
  {
    if links != [] {
      LinksOfAreLinks(links[1..], source);
    }
  }

  /** No link of the file is left out, and none comes twice. */
  lemma {:induction false} LinksOfCount(links: seq<LinkReference>, source: Path, l: LinkReference)
    ensures multiset(LinksOf(links, source))[l] == if l.sourceFile == source then multiset(links)[l] else 0
  {
    if links != [] {
      LinksOfCount(links[1..], source, l);
      assert links == [links[0]] + links[1..];
    }
  }

  // ---------------------------------------------------------------- the transaction

  /** What the links of one file make of its content, and the updates that are reported for it. */
  ghost predicate Rewrites(before: seq<Byte>, after: seq<Byte>, refs: seq<LinkReference>, retarget: Retarget,
                           updates: seq<LinkUpdate>)
  {
    (forall l :: l in refs ==> Lines.OneLine(retarget(l))) ==>
      exists sorted: seq<LinkReference> ::
        && multiset(sorted) == multiset(refs) && Descending(sorted)
        && Lines.HasLines(after, EditLines(Lines.Split(before), sorted, EditorFor(retarget)))
        && updates == Reported(Lines.Split(before), sorted, retarget)
  }

  function UpdatesIn(updates: seq<LinkUpdate>, source: Path): seq<LinkUpdate> {
    if updates == [] then []
    else if Last(updates).sourceFile == source then UpdatesIn(updates[..|updates| - 1], source) + [Last(updates)]
    else UpdatesIn(updates[..|updates| - 1], source)
  }

  /** Appending the updates of one file adds to that file's updates only. */
  lemma {:induction false} UpdatesInAppend(all: seq<LinkUpdate>, updates: seq<LinkUpdate>, f: Path, g: Path)
    requires forall u :: u in updates ==> u.sourceFile == f
    ensures UpdatesIn(all + updates, g) == if g == f then UpdatesIn(all, g) + updates else UpdatesIn(all, g)
  {
    if updates == [] {
      assert all + updates == all;
    } else {
      var init, last := updates[..|updates| - 1], Last(updates);
      assert updates == init + [last] && all + updates == (all + init) + [last];
      UpdatesInAppend(all, init, f, g);
      OneMoreUpdate(all + init, last, g);
      Assoc(UpdatesIn(all, g), init, [last]);
    }
  }

  lemma OneMoreUpdate(all: seq<LinkUpdate>, u: LinkUpdate, f: Path)
    ensures UpdatesIn(all + [u], f) == if u.sourceFile == f then UpdatesIn(all, f) + [u] else UpdatesIn(all, f)
  {
    var longer := all + [u];
    assert longer[..|longer| - 1] == all && Last(longer) == u;
  }

  lemma {:induction false} NoUpdatesIn(all: seq<LinkUpdate>, f: Path)
    requires forall u :: u in all ==> u.sourceFile != f
    ensures UpdatesIn(all, f) == []
  {
    if all != [] {
      NoUpdatesIn(all[..|all| - 1], f);
    }
  }

  /** A line of the file that none of its links names is byte-identical afterwards. */
  lemma OtherLinesKept(before: seq<Byte>, after: seq<Byte>, refs: seq<LinkReference>, retarget: Retarget,
                       updates: seq<LinkUpdate>, n: nat)
    requires Rewrites(before, after, refs, retarget, updates) && forall l :: l in refs ==> Lines.OneLine(retarget(l))
    requires n < |Lines.Split(before)| && forall l :: l in refs ==> l.lineNumber != n + 1
    ensures |Lines.Split(after)| == |Lines.Split(before)| && Lines.Split(after)[n] == Lines.Split(before)[n]
  {
    var lines, edit := Lines.Split(before), EditorFor(retarget);
    var sorted: seq<LinkReference> :|
      && multiset(sorted) == multiset(refs) && Descending(sorted)
      && Lines.HasLines(after, EditLines(lines, sorted, edit)) && updates == Reported(lines, sorted, retarget);
    Lines.SplitIffHasLines(after, EditLines(lines, sorted, edit));
    forall l | l in sorted ensures l in refs {
      assert l in multiset(sorted);
    }
    UnnamedLineKept(lines, sorted, edit, n);
  }

  ghost predicate Rewritten(before: Tree, after: Tree, links: seq<LinkReference>, retarget: Retarget,
                            all: seq<LinkUpdate>, f: Path)
  {
    f in before && f in after && Rewrites(before[f], after[f], LinksOf(links, f), retarget, UpdatesIn(all, f))
  }

  /** After some more operations. */
  lemma MoreOperations(faults: seq<Fault>, used: nat, operations: nat)
    requires FineUpTo(faults, used)
    ensures Behind(Behind(faults, used), operations) == Behind(faults, used + operations)
    ensures FineUpTo(Behind(faults, used), operations) <==> FineUpTo(faults, used + operations)
  {
    BehindBehind(faults, used, operations);
    forall i: nat | i < operations ensures OutcomeAt(Behind(faults, used), i) == OutcomeAt(faults, used + i) {
      BehindBehind(faults, used, i);
    }
    forall i: nat | used <= i < used + operations
      ensures OutcomeAt(faults, i) == OutcomeAt(Behind(faults, used), i - used)
    {
    }
  }

  /** Backs the original up and writes the new content. */
  method ReplaceFile(fs: FileSystem, f: Path, original: seq<Byte>, content: seq<Byte>)
    returns (ok: bool, backedUp: bool, ghost operations: nat)
    modifies fs
    ensures SameExcept(old(fs.files), fs.files, {f, BackupOf(f)})
    ensures backedUp ==> At(fs.files, BackupOf(f)) == Some(original)
    ensures !backedUp ==> !ok && At(fs.files, f) == At(old(fs.files), f)
    ensures fs.faults == Behind(old(fs.faults), operations)
    ensures ok <==> FineUpTo(old(fs.faults), operations)
    ensures ok ==> At(fs.files, f) == Some(content)
  {
    ghost var faults := fs.faults;
    BehindBehind(faults, 1, 0);
    BehindBehind(faults, 1, 1);
    assert f != BackupOf(f);
    operations := 1;
    backedUp := fs.WriteFile(BackupOf(f), original);
    ok := backedUp;
    if backedUp {
      operations := 2;
      ok := fs.WriteFile(f, content);
    }
  }

  /** How the update of one file turns out, after so many operations. Once `backedUp`, the backup holds the
      original bytes, also when the write then fails half way; before that the file is untouched. It
      succeeds exactly if the file exists and no operation fails. */
  ghost predicate FileUpdated(was: Disk, now: Disk, f: Path, refs: seq<LinkReference>, retarget: Retarget,
                              ok: bool, backedUp: bool, updates: seq<LinkUpdate>, operations: nat)
  {
    && SameExcept(was.files, now.files, {f, BackupOf(f)})
    && (backedUp ==> f in was.files && At(now.files, BackupOf(f)) == Some(was.files[f]))
    && (!backedUp ==> At(now.files, f) == At(was.files, f))
    && (ok && !backedUp ==> now.files == was.files)
    && now.faults == Behind(was.faults, operations)
    && (ok <==> f in was.files && FineUpTo(was.faults, operations))
    && (ok ==> f in now.files && Rewrites(was.files[f], now.files[f], refs, retarget, updates))
    && OfLinks(updates, refs, retarget)
    && (backedUp ==> updates != []) && (ok && updates != [] ==> backedUp)
  }

  /** One file: read, rewrite, back up, write. */
  method UpdateFile(fs: FileSystem, f: Path, refs: seq<LinkReference>, retarget: Retarget)
    returns (ok: bool, backedUp: bool, updates: seq<LinkUpdate>, ghost operations: nat)
    modifies fs
    ensures FileUpdated(old(fs.View()), fs.View(), f, refs, retarget, ok, backedUp, updates, operations)
  {
    ok, backedUp, updates, operations := false, false, [], 1;
    ghost var faults := fs.faults;
    var content := fs.ReadFile(f);
    if content.None? {
      return;
    }
    ghost var lines := Lines.Split(content.value);
    Lines.SplitIffHasLines(content.value, lines);
    ghost var sorted;
    var out;
    out, updates, sorted := RewriteLinks(content.value, refs, retarget, lines);
    assert Rewrites(content.value, out, refs, retarget, updates);
    if updates == [] {
      return true, false, [], 1;
    }
    ghost var more;
    ok, backedUp, more := ReplaceFile(fs, f, content.value, out);
    MoreOperations(faults, 1, more);
    operations := 1 + more;
  }

  /** The transaction can still be undone: every touched source has its original in its backup, and
      every other source is as before. */
  ghost predicate Undoable(before: Tree, now: Tree, sources: set<Path>, touched: seq<Path>) {
    && SameExcept(before, now, sources + BackupsOf(sources))
    && AsSet(touched) <= sources && BackedUp(before, now, touched)
    && forall f :: f in sources && f !in touched ==> At(now, f) == At(before, f)
  }

  ghost predicate AllRewritten(before: Tree, now: Tree, links: seq<LinkReference>, retarget: Retarget,
                               all: seq<LinkUpdate>, done: set<Path>)
  {
    && (forall u :: u in all ==> u.sourceFile in done)
    && (forall f :: f in done ==> Rewritten(before, now, links, retarget, all, f))
  }

  lemma StepIsUndoable(before: Tree, was: Tree, now: Tree, sources: set<Path>, touched: seq<Path>, f: Path,
                       backedUp: bool)
    requires NoCollision(sources) && Undoable(before, was, sources, touched) && f in sources && f !in touched
    requires SameExcept(was, now, {f, BackupOf(f)})
    requires backedUp ==> f in was && At(now, BackupOf(f)) == Some(was[f])
    requires !backedUp ==> At(now, f) == At(was, f)
    ensures Undoable(before, now, sources, if backedUp then touched + [f] else touched)
  {
    Undisturbed(sources, touched, f);
    assert At(was, f) == At(before, f);
    assert BackupOf(f) in BackupsOf(sources);
    forall k | 0 <= k < |touched| ensures At(now, BackupOf(touched[k])) == At(was, BackupOf(touched[k])) {
      assert touched[k] in sources;
    }
  }

  lemma StepKeepsRewritten(before: Tree, was: Tree, now: Tree, links: seq<LinkReference>, retarget: Retarget,
                           sources: set<Path>, done: set<Path>, all: seq<LinkUpdate>, f: Path,
                           updates: seq<LinkUpdate>)
    requires NoCollision(sources) && done <= sources && f in sources && f !in done
    requires AllRewritten(before, was, links, retarget, all, done) && forall u :: u in updates ==> u.sourceFile == f
    requires SameExcept(was, now, {f, BackupOf(f)}) && f in before && f in now
    requires Rewrites(before[f], now[f], LinksOf(links, f), retarget, updates)
    ensures AllRewritten(before, now, links, retarget, all + updates, done + {f})
  {
    forall g | g in done ensures Rewritten(before, now, links, retarget, all + updates, g) {
      UpdatesInAppend(all, updates, f, g);
      StaysRewritten(before, was, now, links, retarget, all, all + updates, f, g);
    }
    NoUpdatesIn(all, f);
    UpdatesInAppend(all, updates, f, f);
    assert [] + updates == updates;
  }

  lemma StaysRewritten(before: Tree, was: Tree, now: Tree, links: seq<LinkReference>, retarget: Retarget,
                       all: seq<LinkUpdate>, more: seq<LinkUpdate>, f: Path, g: Path)
    requires Rewritten(before, was, links, retarget, all, g) && UpdatesIn(more, g) == UpdatesIn(all, g)
    requires SameExcept(was, now, {f, BackupOf(f)}) && g != f && g != BackupOf(f)
    ensures Rewritten(before, now, links, retarget, more, g)
  {
    assert At(now, g) == At(was, g);
  }

  lemma CleanUpKeepsRewritten(before: Tree, was: Tree, now: Tree, links: seq<LinkReference>, retarget: Retarget,
                              all: seq<LinkUpdate>, sources: set<Path>, touched: seq<Path>)
    requires NoCollision(sources) && Undoable(before, was, sources, touched)
    requires AllRewritten(before, was, links, retarget, all, sources)
    requires SameExcept(was, now, BackupsOf(AsSet(touched)))
    ensures AllRewritten(before, now, links, retarget, all, sources)
    ensures SameExcept(before, now, sources + BackupsOf(sources))
  {
    assert BackupsOf(AsSet(touched)) <= BackupsOf(sources);
    forall f | f in sources ensures Rewritten(before, now, links, retarget, all, f) {
      assert f !in BackupsOf(AsSet(touched)) && Rewritten(before, was, links, retarget, all, f);
      assert At(now, f) == At(was, f);
    }
  }

  /** Every source has the bytes it had, or is absent if it was. */
  ghost predicate Untouched(before: Tree, now: Tree, sources: set<Path>) {
    forall f :: f in sources ==> At(now, f) == At(before, f)
  }

  /** A rollback changes none but touched files, and restores those if its reads and writes succeed. */
  lemma UndoRestores(before: Tree, broken: Disk, sources: set<Path>, touched: seq<Path>)
    requires NoCollision(sources) && Undoable(before, broken.files, sources, touched)
    ensures var now := RestoreAll(broken, touched).files;
            && SameExcept(before, now, sources + BackupsOf(sources))
            && Untouched(before, now, sources - AsSet(touched))
            && (RestoringSucceeds(broken.faults, |touched|) ==> Untouched(before, now, sources))
  {
    var now := RestoreAll(broken, touched).files;
    RestoreFrame(broken, touched);
    assert BackupsOf(AsSet(touched)) <= BackupsOf(sources);
    forall f | f in sources - AsSet(touched) ensures At(now, f) == At(before, f) {
      assert f !in BackupsOf(AsSet(touched));
    }
    if RestoringSucceeds(broken.faults, |touched|) {
      SuccessRestores(before, broken, touched);
      forall f | f in sources ensures At(now, f) == At(before, f) {
        if f in touched {
          var k :| 0 <= k < |touched| && touched[k] == f;
        }
      }
    }
  }

  /** If there is one fault at most and it has already happened, the restoring operations succeed. */
  lemma OneFaultRestores(faults: seq<Fault>, used: nat, n: nat)
    requires Fine(faults) || (AtMostOneFault(faults) && !FineUpTo(faults, used))
    ensures RestoringSucceeds(Behind(faults, used), n)
  {
    var rest := Behind(faults, used);
    if !Fine(faults) {
      var i :| 0 <= i < used && !OutcomeAt(faults, i).NoFault?;
      forall f | f in rest ensures f.NoFault? {
        var j :| 0 <= j < |rest| && rest[j] == f;
        assert faults[used + j] == f;
      }
    } else {
      FineOutcomes(faults, used);
    }
    FineOutcomes(rest, 3 * n);
  }

  /** The updates tell of links, and the touched files among `done` are those that they tell of. */
  ghost predicate Telling(all: seq<LinkUpdate>, links: seq<LinkReference>, retarget: Retarget, touched: seq<Path>,
                          done: set<Path>)
  {
    OfLinks(all, links, retarget)
    && forall f :: f in done ==> (f in touched <==> exists u :: u in all && u.sourceFile == f)
  }

  lemma StepTells(all: seq<LinkUpdate>, links: seq<LinkReference>, retarget: Retarget, touched: seq<Path>,
                  done: set<Path>, f: Path, updates: seq<LinkUpdate>)
    requires Telling(all, links, retarget, touched, done) && OfLinks(updates, LinksOf(links, f), retarget)
    requires f !in done && f !in touched && forall u :: u in all ==> u.sourceFile in done
    ensures Telling(all + updates, links, retarget, if updates != [] then touched + [f] else touched, done + {f})
    ensures forall u :: u in updates ==> u.sourceFile == f
  {
    LinksOfAreLinks(links, f);
    forall u | u in updates ensures u.sourceFile == f && exists l :: l in links && Tells(u, l, retarget) {
      var l :| l in LinksOf(links, f) && Tells(u, l, retarget);
      assert l in links;
    }
    var touched', more := if updates != [] then touched + [f] else touched, all + updates;
    forall g | g in done + {f} ensures g in touched' <==> exists u :: u in more && u.sourceFile == g {
      if g in touched' {
        if g == f {
          assert updates[0] in more;
        } else {
          var u :| u in all && u.sourceFile == g;
          assert u in more;
        }
      }
      if u :| u in more && u.sourceFile == g {
        assert u in all || u in updates;
      }
    }
  }

  /** The files in `done` have been rewritten, of which `touched` were changed, with `used` operations so far. */
  ghost predicate Progress(before: Disk, now: Disk, links: seq<LinkReference>, retarget: Retarget,
                           done: set<Path>, touched: seq<Path>, all: seq<LinkUpdate>, used: nat)
  {
    && done <= Sources(links) && done <= before.files.Keys && AsSet(touched) <= done
    && Undoable(before.files, now.files, Sources(links), touched)
    && AllRewritten(before.files, now.files, links, retarget, all, done)
    && Telling(all, links, retarget, touched, done)
    && FineUpTo(before.faults, used) && now.faults == Behind(before.faults, used)
  }

  /** The outcome of the loop over the files: all of them are rewritten, or some can be undone. */
  ghost predicate Updated(before: Disk, now: Disk, links: seq<LinkReference>, retarget: Retarget,
                          ok: bool, all: seq<LinkUpdate>, touched: seq<Path>, used: nat)
  {
    && Undoable(before.files, now.files, Sources(links), touched) && now.faults == Behind(before.faults, used)
    && (ok <==> Sources(links) <= before.files.Keys && FineUpTo(before.faults, used))
    && (ok ==> AllRewritten(before.files, now.files, links, retarget, all, Sources(links))
               && Telling(all, links, retarget, touched, Sources(links)))
  }

  /** One more file is done, or the loop has stopped. */
  ghost predicate AfterFile(before: Disk, now: Disk, links: seq<LinkReference>, retarget: Retarget, done: set<Path>,
                            f: Path, ok: bool, all: seq<LinkUpdate>, touched: seq<Path>, used: nat)
  {
    if ok then Progress(before, now, links, retarget, done + {f}, touched, all, used)
    else Updated(before, now, links, retarget, false, all, touched, used)
  }

  lemma NextFile(before: Disk, was: Disk, now: Disk, links: seq<LinkReference>, retarget: Retarget, done: set<Path>,
                 touched: seq<Path>, all: seq<LinkUpdate>, used: nat, f: Path,
                 ok: bool, backedUp: bool, updates: seq<LinkUpdate>, operations: nat)
    requires NoCollision(Sources(links)) && Progress(before, was, links, retarget, done, touched, all, used)
    requires f in Sources(links) && f !in done
    requires FileUpdated(was, now, f, LinksOf(links, f), retarget, ok, backedUp, updates, operations)
    ensures AfterFile(before, now, links, retarget, done, f, ok, if ok then all + updates else all,
                      if backedUp then touched + [f] else touched, used + operations)
  {
    LinksOfAreLinks(links, f);
    assert f !in AsSet(touched) && At(was.files, f) == At(before.files, f);
    StepIsUndoable(before.files, was.files, now.files, Sources(links), touched, f, backedUp);
    MoreOperations(before.faults, used, operations);
    if ok {
      StepTells(all, links, retarget, touched, done, f, updates);
      StepKeepsRewritten(before.files, was.files, now.files, links, retarget, Sources(links), done, all, f, updates);
    }
  }

  lemma AllDone(before: Disk, now: Disk, links: seq<LinkReference>, retarget: Retarget, done: set<Path>,
                touched: seq<Path>, all: seq<LinkUpdate>, used: nat)
    requires Progress(before, now, links, retarget, done, touched, all, used) && Parted(Sources(links), {}, done)
    ensures Updated(before, now, links, retarget, true, all, touched, used)
  {
    assert {} + done == done;
  }

  /** The files still to come, and those that are done. */
  predicate Parted(sources: set<Path>, remaining: set<Path>, done: set<Path>) {
    remaining !! done && remaining + done == sources
  }

  lemma Moved(sources: set<Path>, remaining: set<Path>, done: set<Path>, f: Path)
    requires Parted(sources, remaining, done) && f in remaining
    ensures Parted(sources, remaining - {f}, done + {f})
  {
    assert (remaining - {f}) + (done + {f}) == remaining + done;
  }

  /** One iteration of the loop over the files. */
  method UpdateNext(fs: FileSystem, links: seq<LinkReference>, retarget: Retarget, f: Path, ghost before: Disk,
                    ghost done: set<Path>, touched: seq<Path>, all: seq<LinkUpdate>, ghost used: nat)
    returns (ok: bool, all': seq<LinkUpdate>, touched': seq<Path>, ghost used': nat)
    requires NoCollision(Sources(links)) && f in Sources(links) && f !in done
    requires Progress(before, fs.View(), links, retarget, done, touched, all, used)
    modifies fs
    ensures AfterFile(before, fs.View(), links, retarget, done, f, ok, all', touched', used')
  {
    ghost var was := fs.View();
    var backedUp, updated;
    ghost var operations;
    ok, backedUp, updated, operations := UpdateFile(fs, f, LinksOf(links, f), retarget);
    NextFile(before, was, fs.View(), links, retarget, done, touched, all, used, f, ok, backedUp, updated, operations);
    used' := used + operations;
    touched' := if backedUp then touched + [f] else touched;
    all' := if ok then all + updated else all;
  }

  /** The loop over the files, up to the first failure. */
  method UpdateAll(fs: FileSystem, links: seq<LinkReference>, retarget: Retarget)
    returns (ok: bool, all: seq<LinkUpdate>, touched: seq<Path>, ghost used: nat)
    requires NoCollision(Sources(links))
    modifies fs
    ensures Updated(old(fs.View()), fs.View(), links, retarget, ok, all, touched, used)
  {
    all, touched, used := [], [], 0;
    var remaining := Sources(links);
    ghost var before, done := fs.View(), {};
    while remaining != {}
      invariant Parted(Sources(links), remaining, done)
      invariant Progress(before, fs.View(), links, retarget, done, touched, all, used)
    {
      var f :| f in remaining;
      assert f in Sources(links) && f !in done;
      ok, all, touched, used := UpdateNext(fs, links, retarget, f, before, done, touched, all, used);
      if !ok {
        return;
      }
      Moved(Sources(links), remaining, done, f);
      remaining, done := remaining - {f}, done + {f};
    }
    AllDone(before, fs.View(), links, retarget, done, touched, all, used);
    ok := true;
  }

  /** All or nothing, with any operation failing at any point, a write even half way. The ghost results tell
      how many operations went before the error (or before the final clean-up), which files were touched by
      then, and the disk at that moment, where the rollback begins.
      Success, which means that every file with links is rewritten and its updates are reported, comes
      exactly if every source exists and none of the operations fails. After an error the rollback has run,
      every source that was not touched is as before, and every source is as before if the restoring reads
      and writes succeed; in particular if there was one fault only. No file is changed but the sources and
      their backups. */
  method ApplyLinkUpdates(fs: FileSystem, links: seq<LinkReference>, retarget: Retarget)
    returns (updates: Option<seq<LinkUpdate>>, ghost used: nat, ghost touched: seq<Path>, ghost broken: Disk)
    requires NoCollision(Sources(links))
    modifies fs
    ensures SameExcept(old(fs.files), fs.files, Sources(links) + BackupsOf(Sources(links)))
    ensures updates.Some? <==> Sources(links) <= old(fs.files).Keys && FineUpTo(old(fs.faults), used)
    ensures updates.Some? ==> AllRewritten(old(fs.files), fs.files, links, retarget, updates.value, Sources(links))
    ensures updates.Some? ==> Telling(updates.value, links, retarget, touched, Sources(links))
    ensures broken.faults == Behind(old(fs.faults), used)
    ensures Undoable(old(fs.files), broken.files, Sources(links), touched)
    ensures updates.Some? ==> forall k :: 0 <= k < |touched| ==>
              At(fs.files, BackupOf(touched[k])) ==
              if OutcomeAt(broken.faults, k).NoFault? then None else Some(old(fs.files)[touched[k]])
    ensures updates.Some? && Fine(old(fs.faults)) ==> forall f :: f in touched ==> At(fs.files, BackupOf(f)) == None
    ensures updates.None? ==> fs.View() == RestoreAll(broken, touched)
    ensures updates.None? ==> Untouched(old(fs.files), fs.files, Sources(links) - AsSet(touched))
    ensures updates.None? && RestoringSucceeds(broken.faults, |touched|) ==>
              Untouched(old(fs.files), fs.files, Sources(links))
    ensures updates.None? && Fine(old(fs.faults)) ==> Untouched(old(fs.files), fs.files, Sources(links))
    ensures updates.None? && AtMostOneFault(old(fs.faults)) && Sources(links) <= old(fs.files).Keys ==>
              Untouched(old(fs.files), fs.files, Sources(links))
  {
    ghost var before, faults := fs.files, fs.faults;
    var ok, all, done;
    ok, all, done, used := UpdateAll(fs, links, retarget);
    touched, broken := done, fs.View();
    UndoRestores(before, broken, Sources(links), touched);
    if Fine(faults) || (AtMostOneFault(faults) && !FineUpTo(faults, used)) {
      OneFaultRestores(faults, used, |touched|);
    }
    if ok {
      RemoveBackups(fs, done);
      CleanUpKeepsRewritten(before, broken.files, fs.files, links, retarget, all, Sources(links), touched);
      BackupsGone(before, broken, fs.files, touched);
      if Fine(faults) {
        FineOutcomes(faults, used);
        FineOutcomes(Behind(faults, used), |touched|);
      }
      updates := Some(all);
    } else {
      Rollback(fs, done);
      updates := None;
    }
  }

  /** Neither the file nor its backup is a touched file, another source, or the backup of one. */
  lemma Undisturbed(sources: set<Path>, touched: seq<Path>, f: Path)
    requires NoCollision(sources) && f in sources && AsSet(touched) <= sources && f !in AsSet(touched)
    ensures forall g :: g in sources ==> g != BackupOf(f) && BackupOf(g) != f
    ensures forall g :: g in sources && BackupOf(g) == BackupOf(f) ==> g == f
    ensures forall k :: 0 <= k < |touched| ==> touched[k] in sources && touched[k] != f
  {
    forall g | g in sources && BackupOf(g) == BackupOf(f) ensures g == f {
      BackupInjective(g, f);
    }
    assert forall k :: 0 <= k < |touched| ==> touched[k] in AsSet(touched);
  }

  /** The final clean-up ignores errors. */
  method RemoveBackups(fs: FileSystem, touched: seq<Path>)
    modifies fs
    ensures SameExcept(old(fs.files), fs.files, BackupsOf(AsSet(touched)))
    ensures forall k :: 0 <= k < |touched| ==> CleanedAt(old(fs.View()), fs.files, touched, k)
    ensures fs.faults == Behind(old(fs.faults), |touched|)
  {
    ghost var before := fs.View();
    for i := 0 to |touched|
      invariant SameExcept(before.files, fs.files, BackupsOf(AsSet(touched)))
      invariant fs.faults == Behind(before.faults, i)
      invariant forall k :: 0 <= k < i ==> CleanedAt(before, fs.files, touched, k)
      invariant Kept(before.files, fs.files, touched[..i])
    {
      assert touched[i] in AsSet(touched);
      ghost var was := fs.View();
      var _ := fs.Remove(BackupOf(touched[i]));
      BehindBehind(before.faults, i, 0);
      BehindBehind(before.faults, i, 1);
      OneCleaned(before, was.files, fs.files, touched, i);
    }
  }

  /** The backup of file `k` is gone if its removal succeeded, or it was removed as that of an equal file;
      for different files, only the former is possible. */
  ghost predicate CleanedAt(before: Disk, now: Tree, touched: seq<Path>, k: nat)
    requires k < |touched|
  {
    Distinct(touched) ==>
      At(now, BackupOf(touched[k])) ==
      if OutcomeAt(before.faults, k).NoFault? then None else At(before.files, BackupOf(touched[k]))
  }

  /** Backups of files that are not among these are as before. */
  ghost predicate Kept(before: Tree, now: Tree, cleaned: seq<Path>) {
    forall f :: f !in cleaned ==> At(now, BackupOf(f)) == At(before, BackupOf(f))
  }

  lemma OneCleaned(before: Disk, was: Tree, now: Tree, touched: seq<Path>, i: nat)
    requires i < |touched| && Kept(before.files, was, touched[..i])
    requires forall k :: 0 <= k < i ==> CleanedAt(before, was, touched, k)
    requires now == Removed(was, BackupOf(touched[i]), OutcomeAt(before.faults, i))
    ensures Kept(before.files, now, touched[..i + 1])
    ensures forall k :: 0 <= k <= i ==> CleanedAt(before, now, touched, k)
  {
    var f := touched[i];
    forall g | g != f ensures At(now, BackupOf(g)) == At(was, BackupOf(g)) {
      if BackupOf(g) == BackupOf(f) {
        BackupInjective(g, f);
      }
    }
    assert touched[..i + 1] == touched[..i] + [f];
    if Distinct(touched) {
      assert f !in touched[..i];
      forall k | 0 <= k < i ensures CleanedAt(before, now, touched, k) {
        assert CleanedAt(before, was, touched, k) && touched[k] != f;
      }
    }
  }

  lemma BackupsGone(before: Tree, broken: Disk, now: Tree, touched: seq<Path>)
    requires BackedUp(before, broken.files, touched)
    requires forall k :: 0 <= k < |touched| ==> CleanedAt(broken, now, touched, k)
    ensures forall k :: 0 <= k < |touched| ==>
              At(now, BackupOf(touched[k])) ==
              if OutcomeAt(broken.faults, k).NoFault? then None else Some(before[touched[k]])
  {
    forall k | 0 <= k < |touched|
      ensures At(now, BackupOf(touched[k])) ==
              if OutcomeAt(broken.faults, k).NoFault? then None else Some(before[touched[k]])
    {
      assert CleanedAt(broken, now, touched, k);
    }
  }
}
