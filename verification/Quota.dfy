/** The account quota of src/workspace.cpp over single requests and whole runs. */
module Quota {
  import opened Wrappers
  import opened Text
  import opened Paths
  import opened FileTree
  import opened Workspace
  import opened WorkspaceRuns

  function Max(a: nat, b: nat): nat {
    if a < b then b else a
  }

  /** The early return of fCheckQuota on an error code is not taken: the target exists or its absence is no error. */
  predicate QuotaLooks(c: Config, a: Account, r: Request) {
    r.PutFile? ==>
      var rel := SafeRel(r.path);
      rel.Some? ==> !StatFails(c, a.tree, Segments(rel.value))
  }

  function SizeOf(r: Request): nat {
    match r
    case PutFile(_, size) => size
    case OverwriteShared(_, size) => size
    case _ => 0
  }

  lemma ExistingIsPart(tree: Node, p: Path)
    ensures ExistingLen(tree, p) <= TotalAt(tree, p) <= Total(tree)
  {
    PartOfTotal(tree, p);
  }

  lemma WriteTotal(a: Account, p: Path, size: nat)
    requires p != []
    ensures var (b, ok) := AfterWrite(a, p, size);
            Total(b.tree) == if ok then Total(a.tree) - ExistingLen(a.tree, p) + size else Total(a.tree)
  {
    ExistingIsPart(a.tree, p);
    var made := TryMkDirs(a.tree, Parent(p));
    TotalMkDirs(a.tree, Parent(p));
    TryMkDirsKeepsFiles(a.tree, Parent(p), p);
    if WriteFile(a.tree, p, size).Some? {
      TotalPut(made, p, File(size));
      assert TotalAt(made, p) == ExistingLen(made, p);
    }
  }

  /** The check keeps its promise for every length exactly when a missing target is not reported as an error. */
  lemma QuotaCheckHoldsIff(c: Config, tree: Node, p: Path)
    requires c.quota > 0 && Total(tree) + c.quota + 1 < U64
    ensures (forall incoming :: Total(tree) + incoming < U64 && !QuotaRefuses(c, tree, p, incoming) ==>
               Total(tree) - ExistingLen(tree, p) + incoming <= Max(Total(tree), c.quota))
            <==> !StatFails(c, tree, p)
  {
    ExistingIsPart(tree, p);
    if StatFails(c, tree, p) {
      var incoming := Max(Total(tree), c.quota) + 1 - Total(tree);
      assert Total(tree) + incoming < U64 && !QuotaRefuses(c, tree, p, incoming);
      assert Total(tree) - ExistingLen(tree, p) + incoming > Max(Total(tree), c.quota);
    }
  }

  /** An empty workspace holds no bytes; WriteTotal then counts every file there is. */
  lemma NothingWeighsNothing()
    ensures Total(EMPTY_DIR) == 0
  {
  }

  /**
   Where the write itself would succeed, it is refused exactly when there is a quota, the early return is not taken,
   the file would grow, and the workspace as the write leaves it would not fit.
   */
  lemma QuotaRefusesIff(c: Config, a: Account, p: Path, size: nat)
    requires p != [] && AfterWrite(a, p, size).1 && Total(a.tree) + size < 0x1_0000_0000_0000_0000
    ensures var there := FileAt(a.tree, p);
            QuotaRefuses(c, a.tree, p, size) <==>
              && c.quota > 0
              && !(c.absentIsError && Lookup(a.tree, p).None?)
              && (there.Some? ==> size > there.value) && (there.None? ==> size > 0)
              && Total(AfterWrite(a, p, size).0.tree) > c.quota
  {
    ExistingIsPart(a.tree, p);
    WriteTotal(a, p, size);
  }

  lemma CheckedWriteBound(c: Config, a: Account, p: Path, size: nat)
    requires p != [] && c.quota > 0 && Total(a.tree) + size < U64
    requires !StatFails(c, a.tree, p) && !QuotaRefuses(c, a.tree, p, size)
    ensures Total(AfterWrite(a, p, size).0.tree) <= Max(Total(a.tree), c.quota)
  {
    ExistingIsPart(a.tree, p);
    WriteTotal(a, p, size);
  }

  /** The early return is taken on a path that can be written, and the largest file there would not fit. */
  ghost predicate PutCanEscape(c: Config, a: Account, p: Path)
    requires p != []
  {
    && StatFails(c, a.tree, p)
    && WriteFile(a.tree, p, c.maxFileBytes).Some?
    && Total(a.tree) + c.maxFileBytes > Max(Total(a.tree), c.quota)
  }

  /** A write of any size stays within the quota exactly when that is not so. */
  lemma PutStaysWithinIff(c: Config, a: Account, path: string)
    requires c.quota > 0 && Total(a.tree) + c.maxFileBytes < U64 && SafeRel(path).Some?
    ensures (forall size: nat :: Total(AfterPut(c, a, path, size).0.tree) <= Max(Total(a.tree), c.quota))
            <==> !PutCanEscape(c, a, Segments(SafeRel(path).value))
  {
    var p := Segments(SafeRel(path).value);
    forall size: nat
      ensures Total(AfterPut(c, a, path, size).0.tree) <= Max(Total(a.tree), c.quota)
              || (PutCanEscape(c, a, p) && StatFails(c, a.tree, p))
    {
      PutTotal(c, a, path, size);
    }
    PutTotal(c, a, path, c.maxFileBytes);
  }

  lemma PutTotal(c: Config, a: Account, path: string, size: nat)
    requires c.quota > 0 && Total(a.tree) + c.maxFileBytes < U64 && SafeRel(path).Some?
    ensures var p, after := Segments(SafeRel(path).value), Total(AfterPut(c, a, path, size).0.tree);
            && (!StatFails(c, a.tree, p) ==> after <= Max(Total(a.tree), c.quota))
            && (StatFails(c, a.tree, p) ==>
                  after == Total(a.tree)
                  + if size <= c.maxFileBytes && WriteFile(a.tree, p, c.maxFileBytes).Some? then size else 0)
  {
    var p := Segments(SafeRel(path).value);
    WriteTotal(a, p, size);
    if size <= c.maxFileBytes && !StatFails(c, a.tree, p) && !QuotaRefuses(c, a.tree, p, size) {
      CheckedWriteBound(c, a, p, size);
    }
  }

  /** No request takes an account above its quota, or an account already above it any higher. */
  lemma StepWithinQuota(c: Config, a: Account, r: Request, now: int)
    requires c.quota > 0 && Total(a.tree) + SizeOf(r) < U64 && QuotaLooks(c, a, r)
    ensures Total(Handle(c, a, r, now).0.tree) <= Max(Total(a.tree), c.quota)
  {
    match r
    case PutFile(path, size) =>
      if SafeRel(path).Some? && !QuotaRefuses(c, a.tree, Segments(SafeRel(path).value), size) {
        CheckedWriteBound(c, a, Segments(SafeRel(path).value), size);
      }
    case OverwriteShared(path, size) =>
      if SafeRel(path).Some? && FileAt(a.tree, Segments(SafeRel(path).value)).Some?
         && !QuotaRefuses(c, a.tree, Segments(SafeRel(path).value), size) {
        CheckedWriteBound(c, a, Segments(SafeRel(path).value), size);
      }
    case CreateFolder(path) =>
      if SafeRel(path).Some? {
        TotalMkDirs(a.tree, Segments(SafeRel(path).value));
      }
    case Delete(path, isDir) =>
      if SafeRel(path).Some? {
        TotalRemove(a.tree, Segments(SafeRel(path).value));
      }
    case Move(from, to) =>
      if SafeRel(from).Some? && SafeRel(to).Some? {
        var p, q := Segments(SafeRel(from).value), Segments(SafeRel(to).value);
        TotalMkDirs(a.tree, Parent(q));
        if Rename(TryMkDirs(a.tree, Parent(q)), p, q).Some? {
          RenameTotal(TryMkDirs(a.tree, Parent(q)), p, q);
        }
      }
  }

  ghost predicate QuotaLooksThroughout(c: Config, a: Account, trace: Trace)
    decreases |trace|
  {
    trace != [] ==> QuotaLooks(c, a, trace[0].0) && QuotaLooksThroughout(c, Step(c, a, trace[0]), trace[1..])
  }

  lemma {:induction false} RunWithinQuota(c: Config, a: Account, trace: Trace, largest: nat)
    requires c.quota > 0 && Max(Total(a.tree), c.quota) + largest < U64
    requires forall e | e in trace :: SizeOf(e.0) <= largest
    requires QuotaLooksThroughout(c, a, trace)
    ensures Total(Run(c, a, trace).tree) <= Max(Total(a.tree), c.quota)
    decreases |trace|
  {
    if trace != [] {
      assert trace[0] in trace;
      assert forall e | e in trace[1..] :: e in trace;
      StepWithinQuota(c, a, trace[0].0, trace[0].1);
      RunWithinQuota(c, Step(c, a, trace[0]), trace[1..], largest);
    }
  }

  /** Where a missing path is an error, the first write of a new file already passes the quota by. */
  lemma NewFilesEscapeTheQuota(now: int)
    ensures var c := Config(1, 10, true);
            var (b, reply) := Handle(c, EMPTY_ACCOUNT, PutFile("a", 2), now);
            reply.Done? && Total(b.tree) > c.quota
  {
    var c := Config(1, 10, true);
    SegmentsOfRel(["a"]);
    assert RelOf(["a"]) == "a";
    CanonicalIffFixed("a");
    var made := TryMkDirs(EMPTY_DIR, Parent(["a"]));
    assert made == EMPTY_DIR;
    assert WriteFile(EMPTY_DIR, ["a"], 2) == Some(Dir(map["a" := File(2)]));
    WriteTotal(EMPTY_ACCOUNT, ["a"], 2);
  }
}
