/** A file system whose operations may fail, a write even half way. */
module Files {
  import opened Common
  import opened Bytes

  type Path = seq<Byte>
  type Tree = map<Path, seq<Byte>>

  /** How one operation turns out; a failing write may leave the file with any content. */
  datatype Fault = NoFault | Fails | WritesInstead(left: seq<Byte>)

  // ---------------------------------------------------------------- outcomes to come

  /** The outcome of operation `i`, counted from 0; operations beyond the list succeed. */
  function OutcomeAt(faults: seq<Fault>, i: nat): Fault {
    if i < |faults| then faults[i] else NoFault
  }

  /** The outcomes that are left after `n` operations. */
  function Behind(faults: seq<Fault>, n: nat): seq<Fault> {
    if n < |faults| then faults[n..] else []
  }

  lemma BehindBehind(faults: seq<Fault>, m: nat, n: nat)
    ensures Behind(Behind(faults, m), n) == Behind(faults, m + n)
    ensures OutcomeAt(Behind(faults, m), n) == OutcomeAt(faults, m + n)
  {
  }

  /** None of the first `n` operations fails. */
  ghost predicate FineUpTo(faults: seq<Fault>, n: nat) {
    forall i :: 0 <= i < n ==> OutcomeAt(faults, i).NoFault?
  }

  ghost predicate Fine(faults: seq<Fault>) {
    forall f :: f in faults ==> f.NoFault?
  }

  lemma FineOutcomes(faults: seq<Fault>, n: nat)
    requires Fine(faults)
    ensures FineUpTo(faults, n) && Fine(Behind(faults, n))
  {
  }

  ghost predicate AtMostOneFault(faults: seq<Fault>) {
    forall i, j :: 0 <= i < j < |faults| ==> faults[i].NoFault? || faults[j].NoFault?
  }

  // ---------------------------------------------------------------- what an operation does

  function At(files: Tree, p: Path): Option<seq<Byte>> {
    if p in files then Some(files[p]) else None
  }

  /** The two trees agree on every path outside `changed`. */
  ghost predicate SameExcept(before: Tree, after: Tree, changed: set<Path>) {
    forall p :: p !in changed ==> At(after, p) == At(before, p)
  }

  function Read(files: Tree, p: Path, fault: Fault): Option<seq<Byte>> {
    if fault.NoFault? then At(files, p) else None
  }

  function Written(files: Tree, p: Path, data: seq<Byte>, fault: Fault): Tree {
    match fault
    case NoFault => files[p := data]
    case Fails => files
    case WritesInstead(left) => files[p := left]
  }

  function Removed(files: Tree, p: Path, fault: Fault): Tree {
    if fault.NoFault? then files - {p} else files
  }

  /** The files and the outcomes of the operations to come. */
  datatype Disk = Disk(files: Tree, faults: seq<Fault>)

  class FileSystem {
    var files: Tree
    var faults: seq<Fault>

    ghost function View(): Disk
      reads this
    {
      Disk(files, faults)
    }

    constructor (files: Tree, faults: seq<Fault>)
      ensures View() == Disk(files, faults)
    {
      this.files, this.faults := files, faults;
    }

    method NextFault() returns (fault: Fault)
      modifies `faults
      ensures fault == OutcomeAt(old(faults), 0) && faults == Behind(old(faults), 1)
    {
      fault := NoFault;
      if faults != [] {
        fault, faults := faults[0], faults[1..];
      }
    }

    method ReadFile(p: Path) returns (content: Option<seq<Byte>>)
      modifies `faults
      ensures content == Read(files, p, OutcomeAt(old(faults), 0)) && faults == Behind(old(faults), 1)
    {
      var fault := NextFault();
      content := if fault.NoFault? then At(files, p) else None;
    }

    method WriteFile(p: Path, data: seq<Byte>) returns (ok: bool)
      modifies this
      ensures files == Written(old(files), p, data, OutcomeAt(old(faults), 0)) && faults == Behind(old(faults), 1)
      ensures ok <==> OutcomeAt(old(faults), 0).NoFault?
    {
      var fault := NextFault();
      ok := fault.NoFault?;
      match fault
      case NoFault => files := files[p := data];
      case Fails =>
      case WritesInstead(left) => files := files[p := left];
    }

    method Remove(p: Path) returns (ok: bool)
      modifies this
      ensures files == Removed(old(files), p, OutcomeAt(old(faults), 0)) && faults == Behind(old(faults), 1)
      ensures ok <==> OutcomeAt(old(faults), 0).NoFault? && p in old(files)
    {
      var fault := NextFault();
      ok := fault.NoFault? && p in files;
      if ok {
        files := files - {p};
      } else {
        assert fault.NoFault? ==> files - {p} == files;
      }
    }
  }
}
