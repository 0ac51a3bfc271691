/** Whole runs of one workspace: tombstones, the sync listing and the quota. */
module WorkspaceRuns {
  import opened Wrappers
  import opened Text
  import opened Paths
  import opened FileTree
  import opened Listing
  import opened Workspace

  predicate Live(tree: Node, rel: string) {
    Canonical(rel) && FileAt(tree, Segments(rel)).Some?
  }

  /** Nothing alive is reported as deleted. */
  ghost predicate Inv(a: Account) {
    && a.tree.Dir? && WellNamed(a.tree)
    && forall rel :: Live(a.tree, rel) ==> rel !in a.deleted
  }

  predicate Known(a: Account, rel: string) {
    Live(a.tree, rel) || rel in a.deleted
  }

  /** The target of a folder delete is a regular file: it is removed, but nothing is collected for it. */
  predicate DeletesFileAsFolder(a: Account, path: string) {
    var rel := SafeRel(path);
    rel.Some? && FileAt(a.tree, Segments(rel.value)).Some?
  }

  predicate KindMatches(a: Account, r: Request) {
    r.Delete? && r.isDir ==> !DeletesFileAsFolder(a, r.path)
  }

  // ---- One request ----

  lemma SegmentsInjective(r: string, s: string)
    requires Segments(r) == Segments(s)
    ensures r == s
  {
    RelOfSegments(r);
    RelOfSegments(s);
  }

  lemma WriteLive(a: Account, rel: string, size: nat, k: string)
    requires Inv(a) && Canonical(rel)
    ensures var (b, ok) := AfterWrite(a, Segments(rel), size);
            && b.tree.Dir? && WellNamed(b.tree) && b.deleted == a.deleted
            && (Live(b.tree, k) <==> Live(a.tree, k) || (ok && k == rel))
  {
    var p := Segments(rel);
    AllValidPrefix(p, |p| - 1);
    WellNamedMkDirs(a.tree, Parent(p));
    MkDirsKeepsRoot(a.tree, Parent(p));
    TryMkDirsKeepsFiles(a.tree, Parent(p), Segments(k));
    if WriteFile(a.tree, p, size).Some? {
      WellNamedPut(TryMkDirs(a.tree, Parent(p)), p, File(size));
      WriteFileFiles(a.tree, p, size, Segments(k));
      if Segments(k) == p {
        SegmentsInjective(k, rel);
      }
    }
  }

  lemma PutStep(c: Config, a: Account, path: string, size: nat, k: string)
    requires Inv(a)
    ensures var b := AfterPut(c, a, path, size).0;
            && b.tree.Dir? && WellNamed(b.tree) && (Known(a, k) ==> Known(b, k))
            && (Live(b.tree, k) ==> k !in b.deleted)
  {
    if SafeRel(path).Some? {
      SafeRelIsCanonical(path);
      WriteLive(a, SafeRel(path).value, size, k);
    }
  }

  lemma OverwriteStep(c: Config, a: Account, path: string, size: nat, k: string)
    requires Inv(a)
    ensures var b := AfterOverwrite(c, a, path, size).0;
            && b.tree.Dir? && WellNamed(b.tree) && (Known(a, k) ==> Known(b, k))
            && (Live(b.tree, k) ==> k !in b.deleted)
  {
    if SafeRel(path).Some? {
      SafeRelIsCanonical(path);
      WriteLive(a, SafeRel(path).value, size, k);
    }
  }

  lemma FolderStep(a: Account, path: string, k: string)
    requires Inv(a)
    ensures var b := AfterCreateFolder(a, path).0;
            && b.tree.Dir? && WellNamed(b.tree) && b.deleted == a.deleted && (Live(b.tree, k) <==> Live(a.tree, k))
  {
    if SafeRel(path).Some? {
      SafeRelIsCanonical(path);
      var p := Segments(SafeRel(path).value);
      WellNamedMkDirs(a.tree, p);
      MkDirsKeepsRoot(a.tree, p);
      TryMkDirsKeepsFiles(a.tree, p, Segments(k));
    }
  }

  /** A live file under a folder is among the keys collected there. */
  lemma LiveIsCollected(tree: Node, p: Path, k: string)
    requires WellNamed(tree) && ValidPath(p) && Live(tree, k) && p <= Segments(k)
    ensures if IsDirAt(tree, p) then k in Collected(tree, p) else Segments(k) == p
  {
    var q := Segments(k)[|p|..];
    assert Segments(k) == p + q;
    RelOfSegments(k);
    if IsDirAt(tree, p) {
      assert q == [] ==> Segments(k) == p;
      assert AllValid(q) by {
        assert forall n | n in q :: n in Segments(k);
      }
      CollectedKey(tree, p, k);
    } else if q != [] {
      NothingBelow(tree, p, Segments(k));
    }
  }

  lemma CollectedIsBelow(tree: Node, p: Path, k: string)
    requires WellNamed(tree) && ValidPath(p) && k in Collected(tree, p)
    ensures Live(tree, k) && p <= Segments(k)
  {
    CollectedKey(tree, p, k);
    var q :| FileAt(tree, p + q).Some? && q != [] && AllValid(q) && k == RelOf(p + q);
    SegmentsOfRel(p + q);
  }

  lemma DeleteStep(a: Account, path: string, isDir: bool, now: int, k: string)
    requires Inv(a)
    ensures var b := AfterDelete(a, path, isDir, now).0;
            && b.tree.Dir? && WellNamed(b.tree)
            && (Live(b.tree, k) ==> k !in b.deleted && Live(a.tree, k))
            && (!(isDir && DeletesFileAsFolder(a, path)) ==> (Known(a, k) ==> Known(b, k)))
  {
    if SafeRel(path).Some? {
      SafeRelIsCanonical(path);
      var rel := SafeRel(path).value;
      var p := Segments(rel);
      RelOfSegments(rel);
      WellNamedRemove(a.tree, p);
      LookupRemove(a.tree, p, Segments(k));
      if Live(a.tree, k) && p <= Segments(k) {
        LiveIsCollected(a.tree, p, k);
        if Segments(k) == p {
          SegmentsInjective(k, rel);
        } else if !isDir {
          assert Lookup(a.tree, p).Some? by {
            if Lookup(a.tree, p).None? { NothingBelow(a.tree, p, Segments(k)); }
          }
          if RemoveOne(a.tree, p).Some? {
            NothingBelow(a.tree, p, Segments(k));
          }
        }
      }
      if k in Collected(a.tree, p) {
        CollectedIsBelow(a.tree, p, k);
      }
    }
  }

  /** A folder delete aimed at a regular file loses exactly the tombstone it should have left. */
  lemma DeleteForgetsIff(a: Account, path: string, isDir: bool, now: int)
    requires Inv(a)
    ensures var b := AfterDelete(a, path, isDir, now).0;
            (exists k :: Known(a, k) && !Known(b, k)) <==> isDir && DeletesFileAsFolder(a, path)
  {
    var b := AfterDelete(a, path, isDir, now).0;
    forall k | Known(a, k) && !Known(b, k)
      ensures isDir && DeletesFileAsFolder(a, path)
    {
      DeleteStep(a, path, isDir, now, k);
    }
    if isDir && DeletesFileAsFolder(a, path) {
      SafeRelIsCanonical(path);
      var rel := SafeRel(path).value;
      LookupRemove(a.tree, Segments(rel), Segments(rel));
      assert Known(a, rel) && !Known(b, rel);
    }
  }

  /** After a successful move, what lies under the destination came from under the source. */
  lemma MoveStep(a: Account, fromPath: string, toPath: string, now: int, k: string)
    requires Inv(a)
    ensures var b := AfterMove(a, fromPath, toPath, now).0;
            && b.tree.Dir? && WellNamed(b.tree) && (Known(a, k) ==> Known(b, k))
            && (Live(b.tree, k) ==> k !in b.deleted)
  {
    if SafeRel(fromPath).Some? && SafeRel(toPath).Some? {
      SafeRelIsCanonical(fromPath);
      SafeRelIsCanonical(toPath);
      var from, to := SafeRel(fromPath).value, SafeRel(toPath).value;
      var p, q := Segments(from), Segments(to);
      AllValidPrefix(q, |q| - 1);
      WellNamedMkDirs(a.tree, Parent(q));
      MkDirsKeepsRoot(a.tree, Parent(q));
      TryMkDirsKeepsFiles(a.tree, Parent(q), Segments(k));
      var made := TryMkDirs(a.tree, Parent(q));
      if Rename(made, p, q).Some? {
        RenameKeepsNames(made, p, q);
        MoveKeeps(a, from, to, now, k);
      }
    }
  }

  ghost function Moved(a: Account, from: string, to: string, now: int): Account
    requires Rename(TryMkDirs(a.tree, Parent(Segments(to))), Segments(from), Segments(to)).Some?
  {
    var keys := MovedKeys(a.tree, from);
    var cleared := set k | k in keys && |from| <= |k| :: MovedTo(from, to, k);
    Account(Rename(TryMkDirs(a.tree, Parent(Segments(to))), Segments(from), Segments(to)).value,
            Tombstoned(a.deleted, keys, now) - cleared)
  }

  /** A moved key is a live file at or under the source, and every such file is moved. */
  lemma MovedKeyIff(tree: Node, from: string, to: string, k: string)
    requires WellNamed(tree) && Canonical(from) && Canonical(to)
    requires Rename(TryMkDirs(tree, Parent(Segments(to))), Segments(from), Segments(to)).Some?
    ensures k in MovedKeys(tree, from) <==> Live(tree, k) && Segments(from) <= Segments(k)
  {
    var p, q := Segments(from), Segments(to);
    var made := TryMkDirs(tree, Parent(q));
    if Live(tree, k) && p <= Segments(k) {
      LiveIsCollected(tree, p, k);
      if Segments(k) == p {
        SegmentsInjective(k, from);
      }
    }
    if k in Collected(tree, p) {
      CollectedIsBelow(tree, p, k);
    }
    if !IsDirAt(tree, p) {
      assert p <= Parent(q) ==> p <= q && p != q;
      MkDirsOnlyOnPath(tree, Parent(q), p);
      assert FileAt(tree, p).Some?;
    }
  }

  lemma MoveKeeps(a: Account, from: string, to: string, now: int, k: string)
    requires Inv(a) && Canonical(from) && Canonical(to)
    requires Rename(TryMkDirs(a.tree, Parent(Segments(to))), Segments(from), Segments(to)).Some?
    ensures var b := Moved(a, from, to, now);
            (Known(a, k) ==> Known(b, k)) && (Live(b.tree, k) ==> k !in b.deleted)
  {
    var b := Moved(a, from, to, now);
    var p, q := Segments(from), Segments(to);
    MovedKeysApart(a.tree, from, to);
    MovedKeyIff(a.tree, from, to, k);
    MoveFiles(a.tree, from, to, Segments(k));
    var keys := MovedKeys(a.tree, from);
    if Live(b.tree, k) && q <= Segments(k) {
      var source := UnderSource(a.tree, from, to, k);
      assert source in keys && k == MovedTo(from, to, source);
    }
    if m :| m in keys && k == MovedTo(from, to, m) {
      ArrivesAlive(a.tree, from, to, m);
    }
    if Live(a.tree, k) && q <= Segments(k) && !(p <= Segments(k)) {
      OverwrittenStaysAlive(a.tree, from, to, k);
    }
  }

  /** Only a file can be replaced by a move, and what replaces it is a file. */
  lemma OverwrittenStaysAlive(tree: Node, from: string, to: string, k: string)
    requires Rename(TryMkDirs(tree, Parent(Segments(to))), Segments(from), Segments(to)).Some?
    requires Live(tree, k) && Segments(to) <= Segments(k) && !(Segments(from) <= Segments(k))
    ensures Live(Rename(TryMkDirs(tree, Parent(Segments(to))), Segments(from), Segments(to)).value, k)
  {
    var p, q := Segments(from), Segments(to);
    var made := TryMkDirs(tree, Parent(q));
    TryMkDirsKeepsFiles(tree, Parent(q), Segments(k));
    TryMkDirsKeepsFiles(tree, Parent(q), p);
    if Segments(k) != q {
      var dst := Lookup(made, q);
      if dst.None? || dst.value.File? || dst.value.children == map[] {
        NothingBelow(made, q, Segments(k));
      }
    }
    MoveFiles(tree, from, to, q);
    assert p + q[|q|..] == p;
  }

  lemma MoveFiles(tree: Node, from: string, to: string, s: Path)
    requires Rename(TryMkDirs(tree, Parent(Segments(to))), Segments(from), Segments(to)).Some?
    ensures var p, q := Segments(from), Segments(to);
            FileAt(Rename(TryMkDirs(tree, Parent(q)), p, q).value, s) ==
              if q <= s then FileAt(tree, p + s[|q|..]) else if p <= s then None else FileAt(tree, s)
  {
    var p, q := Segments(from), Segments(to);
    RenameFiles(TryMkDirs(tree, Parent(q)), p, q, s);
    TryMkDirsKeepsFiles(tree, Parent(q), s);
    if q <= s {
      TryMkDirsKeepsFiles(tree, Parent(q), p + s[|q|..]);
    }
  }

  lemma UnderSource(tree: Node, from: string, to: string, k: string) returns (source: string)
    requires WellNamed(tree) && Canonical(from) && Canonical(to)
    requires Rename(TryMkDirs(tree, Parent(Segments(to))), Segments(from), Segments(to)).Some?
    requires Live(Rename(TryMkDirs(tree, Parent(Segments(to))), Segments(from), Segments(to)).value, k)
    requires Segments(to) <= Segments(k)
    ensures source in MovedKeys(tree, from) && |from| <= |source| && k == MovedTo(from, to, source)
  {
    var p, q := Segments(from), Segments(to);
    var t := Segments(k)[|q|..];
    assert Segments(k) == q + t;
    assert AllValid(t) by {
      assert forall n | n in t :: n in Segments(k);
    }
    source := RelOf(p + t);
    RelOfSegments(from);
    RelOfSegments(to);
    RelOfSegments(k);
    MovedKeyPath(p, t, q);
    SegmentsOfRel(p + t);
    MoveFiles(tree, from, to, Segments(k));
    MovedKeyIff(tree, from, to, source);
  }

  lemma ArrivesAlive(tree: Node, from: string, to: string, m: string)
    requires WellNamed(tree) && Canonical(from) && Canonical(to)
    requires Rename(TryMkDirs(tree, Parent(Segments(to))), Segments(from), Segments(to)).Some?
    requires m in MovedKeys(tree, from) && |from| <= |m|
    ensures var moved := Rename(TryMkDirs(tree, Parent(Segments(to))), Segments(from), Segments(to)).value;
            Live(moved, MovedTo(from, to, m))
  {
    var p, q := Segments(from), Segments(to);
    MovedKeyIff(tree, from, to, m);
    var t := Segments(m)[|p|..];
    assert Segments(m) == p + t;
    assert AllValid(t) by {
      assert forall n | n in t :: n in Segments(m);
    }
    RelOfSegments(from);
    RelOfSegments(to);
    RelOfSegments(m);
    MovedKeyPath(p, t, q);
    SegmentsOfRel(q + t);
    MoveFiles(tree, from, to, q + t);
    assert (q + t)[|q|..] == t;
  }

  lemma StepOf(c: Config, a: Account, r: Request, now: int, k: string)
    requires Inv(a)
    ensures var b := Handle(c, a, r, now).0;
            && b.tree.Dir? && WellNamed(b.tree) && (Live(b.tree, k) ==> k !in b.deleted)
            && (KindMatches(a, r) && Known(a, k) ==> Known(b, k))
  {
    hide AfterPut, AfterOverwrite, AfterCreateFolder, AfterDelete, AfterMove, WellNamed, Live;
    match r
    case PutFile(path, size) => PutStep(c, a, path, size, k);
    case OverwriteShared(path, size) => OverwriteStep(c, a, path, size, k);
    case CreateFolder(path) => FolderStep(a, path, k);
    case Delete(path, isDir) => DeleteStep(a, path, isDir, now, k);
    case Move(from, to) => MoveStep(a, from, to, now, k);
  }

  /** Every request keeps the invariant, and forgets nothing unless a file is deleted as a folder. */
  lemma StepKeeps(c: Config, a: Account, r: Request, now: int)
    requires Inv(a)
    ensures var b := Handle(c, a, r, now).0;
            Inv(b) && (KindMatches(a, r) ==> forall k :: Known(a, k) ==> Known(b, k))
  {
    hide Handle, WellNamed, Live, Known, KindMatches;
    var b := Handle(c, a, r, now).0;
    StepOf(c, a, r, now, "");
    forall k
      ensures Live(b.tree, k) ==> k !in b.deleted
      ensures KindMatches(a, r) && Known(a, k) ==> Known(b, k)
    {
      StepOf(c, a, r, now, k);
    }
  }

  // ---- What is announced ----

  /** What a request announces covers a key: the key itself, or "look at everything". */
  predicate Announces(reply: Reply, k: string) {
    reply.Done? && (reply.notify == [] || k in reply.notify)
  }

  lemma WriteChanges(a: Account, rel: string, size: nat, k: string)
    requires Canonical(rel) && Canonical(k)
    ensures var (b, ok) := AfterWrite(a, Segments(rel), size);
            FileAt(b.tree, Segments(k)) != FileAt(a.tree, Segments(k)) ==> ok && k == rel
  {
    TryMkDirsKeepsFiles(a.tree, Parent(Segments(rel)), Segments(k));
    if WriteFile(a.tree, Segments(rel), size).Some? {
      WriteFileFiles(a.tree, Segments(rel), size, Segments(k));
      if Segments(k) == Segments(rel) {
        SegmentsInjective(k, rel);
      }
    }
  }

  lemma DeleteChanges(a: Account, path: string, isDir: bool, now: int, k: string)
    requires Canonical(k)
    ensures var (b, reply) := AfterDelete(a, path, isDir, now);
            FileAt(b.tree, Segments(k)) != FileAt(a.tree, Segments(k)) ==> Announces(reply, k)
  {
    if SafeRel(path).Some? {
      var rel := SafeRel(path).value;
      var p, q := Segments(rel), Segments(k);
      LookupRemove(a.tree, p, q);
      if q == p {
        SegmentsInjective(k, rel);
      } else if p <= q && !isDir && RemoveOne(a.tree, p).Some? {
        NothingBelow(a.tree, p, q);
      }
    }
  }

  lemma MoveChanges(a: Account, fromPath: string, toPath: string, now: int, k: string)
    requires Canonical(k)
    ensures var (b, reply) := AfterMove(a, fromPath, toPath, now);
            FileAt(b.tree, Segments(k)) != FileAt(a.tree, Segments(k)) ==> Announces(reply, k)
  {
    if SafeRel(fromPath).Some? && SafeRel(toPath).Some? {
      var from, to := SafeRel(fromPath).value, SafeRel(toPath).value;
      var p, q, x := Segments(from), Segments(to), Segments(k);
      var made := TryMkDirs(a.tree, Parent(q));
      TryMkDirsKeepsFiles(a.tree, Parent(q), x);
      if Rename(made, p, q).Some? && !IsDirAt(a.tree, p) && p != q {
        assert p <= Parent(q) ==> p <= q;
        MkDirsOnlyOnPath(a.tree, Parent(q), p);
        FileMoveChanges(made, p, q, x);
        if x == p {
          SegmentsInjective(k, from);
        } else if x == q {
          SegmentsInjective(k, to);
        }
      } else if Rename(made, p, q).Some? {
        RenameFiles(made, p, q, x);
      }
    }
  }

  /** Moving a single file touches only its old and its new place. */
  lemma FileMoveChanges(n: Node, from: Path, to: Path, x: Path)
    requires from != [] && to != [] && from != to && Rename(n, from, to).Some? && !IsDirAt(n, from)
    ensures FileAt(Rename(n, from, to).value, x) != FileAt(n, x) ==> x == from || x == to
  {
    RenameFiles(n, from, to, x);
    hide Rename;
    if to <= x && x != to {
      FileMoveKinds(n, from, to);
      NothingBelow(n, to, x);
      NothingBelow(n, from, from + x[|to|..]);
    } else if from <= x && x != from {
      NothingBelow(n, from, x);
    }
  }

  lemma FileMoveKinds(n: Node, from: Path, to: Path)
    requires from != [] && to != [] && from != to && Rename(n, from, to).Some? && !IsDirAt(n, from)
    ensures Lookup(n, to).None? || Lookup(n, to).value.File?
  {
  }

  /**
   Whatever file a request writes, removes or brings in, the owner's devices and followers are told: the reply announces
   its key, or asks to look at everything. A shared write names its path as the resolved access has it.
   */
  lemma ChangesAreAnnounced(c: Config, a: Account, r: Request, now: int, k: string)
    requires Canonical(k) && (r.OverwriteShared? ==> Canonical(r.path))
    ensures r.PutFile? && Handle(c, a, r, now).1.Done? ==> SafeRel(r.path).Some?
    ensures var (b, reply) := Handle(c, a, r, now);
            && (FileAt(b.tree, Segments(k)) != FileAt(a.tree, Segments(k)) ==> Announces(reply, k))
            && (r.PutFile? && reply.Done? ==> Announces(reply, SafeRel(r.path).value))
  {
    match r
    case PutFile(path, size) =>
      if SafeRel(path).Some? {
        SafeRelIsCanonical(path);
        WriteChanges(a, SafeRel(path).value, size, k);
      }
    case OverwriteShared(path, size) =>
      CanonicalIffFixed(path);
      WriteChanges(a, path, size, k);
    case CreateFolder(path) =>
      if SafeRel(path).Some? && MkDirs(a.tree, Segments(SafeRel(path).value)).Some? {
        MkDirsKeepsFiles(a.tree, Segments(SafeRel(path).value), Segments(k));
      }
    case Delete(path, isDir) => DeleteChanges(a, path, isDir, now, k);
    case Move(from, to) => MoveChanges(a, from, to, now, k);
  }

  // ---- Runs ----

  type Trace = seq<(Request, int)>

  ghost function Step(c: Config, a: Account, e: (Request, int)): Account {
    Handle(c, a, e.0, e.1).0
  }

  ghost function Run(c: Config, a: Account, trace: Trace): Account
    decreases |trace|
  {
    if trace == [] then a else Run(c, Step(c, a, trace[0]), trace[1..])
  }

  ghost predicate KindsMatch(c: Config, a: Account, trace: Trace)
    decreases |trace|
  {
    trace != [] ==> KindMatches(a, trace[0].0) && KindsMatch(c, Step(c, a, trace[0]), trace[1..])
  }

  /** `rel` was a live file at the start of the run or after one of its requests. */
  ghost predicate WasLive(c: Config, a: Account, trace: Trace, rel: string)
    decreases |trace|
  {
    Live(a.tree, rel) || (trace != [] && WasLive(c, Step(c, a, trace[0]), trace[1..], rel))
  }

  const EMPTY_ACCOUNT := Account(EMPTY_DIR, map[])

  lemma {:induction false} RunKeeps(c: Config, a: Account, trace: Trace, rel: string)
    requires Inv(a)
    ensures Inv(Run(c, a, trace))
    ensures KindsMatch(c, a, trace) && (Known(a, rel) || WasLive(c, a, trace, rel)) ==> Known(Run(c, a, trace), rel)
    decreases |trace|
  {
    if trace != [] {
      StepKeeps(c, a, trace[0].0, trace[0].1);
      RunKeeps(c, Step(c, a, trace[0]), trace[1..], rel);
    }
  }

  /** Over every run from an empty workspace, a path that was ever a live file is now either live or tombstoned. */
  lemma EverLiveIsLiveXorDeleted(c: Config, trace: Trace, rel: string)
    requires KindsMatch(c, EMPTY_ACCOUNT, trace) && WasLive(c, EMPTY_ACCOUNT, trace, rel)
    ensures var end := Run(c, EMPTY_ACCOUNT, trace); Live(end.tree, rel) <==> rel !in end.deleted
  {
    EmptyInv();
    RunKeeps(c, EMPTY_ACCOUNT, trace, rel);
  }

  lemma EmptyInv()
    ensures Inv(EMPTY_ACCOUNT)
  {
    forall rel
      ensures !Live(EMPTY_DIR, rel)
    {
      assert Segments(rel) != [];
    }
  }

  /** No request of the run takes a path out of both places at once. */
  ghost predicate NeverForgets(c: Config, a: Account, trace: Trace)
    decreases |trace|
  {
    trace != [] ==>
      && (forall k :: Known(a, k) ==> Known(Step(c, a, trace[0]), k))
      && NeverForgets(c, Step(c, a, trace[0]), trace[1..])
  }

  /** The hypothesis on folder deletes is exact, for every run. */
  lemma {:induction false} RunNeverForgetsIff(c: Config, a: Account, trace: Trace)
    requires Inv(a)
    ensures NeverForgets(c, a, trace) <==> KindsMatch(c, a, trace)
    decreases |trace|
  {
    if trace != [] {
      var (r, now) := trace[0];
      StepKeeps(c, a, r, now);
      if r.Delete? {
        DeleteForgetsIff(a, r.path, r.isDir, now);
      }
      RunNeverForgetsIff(c, Step(c, a, trace[0]), trace[1..]);
    }
  }

  /** The hypothesis is needed: two requests that leave a deleted file in neither place. */
  lemma FileDeletedAsFolderIsForgotten(now: int)
    ensures var c := Config(0, 10, false);
            var trace := [(PutFile("a", 1), now), (Delete("a", true), now)];
            var end := Run(c, EMPTY_ACCOUNT, trace);
            WasLive(c, EMPTY_ACCOUNT, trace, "a") && !Live(end.tree, "a") && "a" !in end.deleted
  {
    var c := Config(0, 10, false);
    var trace := [(PutFile("a", 1), now), (Delete("a", true), now)];
    assert trace[1..] == [(Delete("a", true), now)] && trace[1..][1..] == [];
    SegmentsOfRel(["a"]);
    assert RelOf(["a"]) == "a";
    CanonicalIffFixed("a");
    EmptyInv();
    WriteLive(EMPTY_ACCOUNT, "a", 1, "a");
    assert WriteFile(EMPTY_DIR, ["a"], 1) == Some(Dir(map["a" := File(1)]));
    var one := Step(c, EMPTY_ACCOUNT, trace[0]);
    assert one == Account(Dir(map["a" := File(1)]), map[]);
    assert Lookup(one.tree, ["a"]) == Some(File(1)) by {
      assert ["a"][1..] == [];
    }
    var two := Step(c, one, trace[1]);
    assert two.deleted == map[];
    LookupRemove(one.tree, ["a"], ["a"]);
    assert Live(one.tree, "a");
    assert WasLive(c, one, trace[1..], "a");
    assert Run(c, one, trace[1..]) == Run(c, two, trace[1..][1..]) == two;
    assert Run(c, EMPTY_ACCOUNT, trace) == two;
  }

  // ---- Listings ----

  /** A file an earlier listing showed and the present one does not is in the deleted list; nothing is in both. */
  lemma {:induction false} MissingFromListingIsDeleted(c: Config, before: Trace, after: Trace, rel: string)
    requires var mid := Run(c, EMPTY_ACCOUNT, before); KindsMatch(c, mid, after)
    ensures var mid := Run(c, EMPTY_ACCOUNT, before);
            var end := Run(c, mid, after);
            && ((rel, false) in ListedRows(mid.tree, []) && (rel, false) !in ListedRows(end.tree, []) ==>
                  rel in end.deleted)
            && !((rel, false) in ListedRows(end.tree, []) && rel in end.deleted)
  {
    EmptyInv();
    RunKeeps(c, EMPTY_ACCOUNT, before, rel);
    var mid := Run(c, EMPTY_ACCOUNT, before);
    RunKeeps(c, mid, after, rel);
    var end := Run(c, mid, after);
    ListedIsLive(mid.tree, rel);
    ListedIsLive(end.tree, rel);
  }

  lemma ListedIsLive(tree: Node, rel: string)
    requires tree.Dir? && WellNamed(tree)
    ensures (rel, false) in ListedRows(tree, []) <==> Live(tree, rel) && !IsDotfile(BasenameOf(rel))
  {
    WalksAgree(tree, [], rel);
    if rel in FileRels(tree, []) {
      var q :| q in FilePaths(tree) && rel == RelOf([] + q);
      FilePathsExact(tree, q);
      WellNamedLookup(tree, q);
      assert [] + q == q;
      SegmentsOfRel(q);
    }
    if Live(tree, rel) {
      FilePathsExact(tree, Segments(rel));
      RelOfSegments(rel);
      assert [] + Segments(rel) == Segments(rel);
    }
  }
}
