/** When each writing handler replies what, and all that it then changes: files, folders and tombstones. */
module Handlers {
  import opened Wrappers
  import opened Paths
  import opened FileTree
  import opened TreeOperations
  import opened Workspace
  import opened WorkspaceRuns
  import opened Quota

  /** A refused or failed request leaves every file and every tombstone alone. */
  ghost predicate NothingLost(a: Account, b: Account) {
    b.deleted == a.deleted && forall q :: FileAt(b.tree, q) == FileAt(a.tree, q)
  }

  predicate Writable(tree: Node, p: Path) {
    NoFileAbove(tree, p) && (IsDirAt(tree, p) ==> IsEmptyDirAt(tree, p))
  }

  /** The one file at `p` has `size` bytes; the folders above it are there; all else is as it was. */
  ghost predicate JustWritten(before: Node, after: Node, p: Path, size: nat) {
    && (forall q :: FileAt(after, q) == if q == p then Some(size) else FileAt(before, q))
    && (forall q :: IsDirAt(after, q) <==> q != p && (IsDirAt(before, q) || q <= p))
  }

  lemma WriteMeans(a: Account, p: Path, size: nat)
    requires p != []
    ensures var (b, ok) := AfterWrite(a, p, size);
            && (ok <==> Writable(a.tree, p)) && b.deleted == a.deleted
            && if ok then JustWritten(a.tree, b.tree, p, size) else NothingLost(a, b)
  {
    WriteFileWhen(a.tree, p, size);
    var (b, ok) := AfterWrite(a, p, size);
    forall q
      ensures ok ==> FileAt(b.tree, q) == if q == p then Some(size) else FileAt(a.tree, q)
      ensures ok ==> (IsDirAt(b.tree, q) <==> q != p && (IsDirAt(a.tree, q) || q <= p))
      ensures !ok ==> FileAt(b.tree, q) == FileAt(a.tree, q)
    {
      if ok {
        WriteFileWhat(a.tree, p, size, q);
      } else {
        TryMkDirsKeepsFiles(a.tree, Parent(p), q);
      }
    }
  }

  /** A write: exactly that file is there afterwards, and its tombstone, if it had one, is gone. */
  lemma PutMeans(c: Config, a: Account, path: string, size: nat)
    ensures var (b, reply) := AfterPut(c, a, path, size);
            if SafeRel(path).None? then reply == BadRequest && b == a
            else
              var rel := SafeRel(path).value;
              var p := Segments(rel);
              if size > c.maxFileBytes || QuotaRefuses(c, a.tree, p, size) then reply == BadRequest && b == a
              else if !Writable(a.tree, p) then reply == Internal && NothingLost(a, b)
              else
                && reply == Done([rel]) && JustWritten(a.tree, b.tree, p, size)
                && (forall k :: k in b.deleted <==> k in a.deleted && k != rel)
                && (forall k | k in b.deleted :: b.deleted[k] == a.deleted[k])
  {
    if SafeRel(path).Some? {
      WriteMeans(a, Segments(SafeRel(path).value), size);
    }
  }

  /**
   Which uploads are accepted: those of a size and onto a path that can be written, whose workspace fits the quota
   afterwards, or whose file does not grow, or, where a missing path is an error, whose path is missing.
   */
  lemma PutIsAcceptedIff(c: Config, a: Account, path: string, size: nat)
    requires Total(a.tree) + size < 0x1_0000_0000_0000_0000 && SafeRel(path).Some?
    ensures var p := Segments(SafeRel(path).value);
            AfterPut(c, a, path, size).1.Done? <==>
              && size <= c.maxFileBytes && Writable(a.tree, p)
              && (|| c.quota == 0
                  || Total(AfterWrite(a, p, size).0.tree) <= c.quota
                  || size == 0 || (FileAt(a.tree, p).Some? && size <= FileAt(a.tree, p).value)
                  || (c.absentIsError && Lookup(a.tree, p).None?))
  {
    hide QuotaRefuses;
    var p := Segments(SafeRel(path).value);
    PutMeans(c, a, path, size);
    WriteMeans(a, p, size);
    if Writable(a.tree, p) {
      QuotaRefusesIff(c, a, p, size);
    }
  }

  /** And which writes through a share: those onto an existing file that fit, or do not make it grow. */
  lemma OverwriteIsAcceptedIff(c: Config, a: Account, path: string, size: nat)
    requires Total(a.tree) + size < 0x1_0000_0000_0000_0000 && Canonical(path)
    ensures var p := Segments(path);
            var there := FileAt(a.tree, p);
            && (there.Some? ==> there.value <= Total(a.tree))
            && (AfterOverwrite(c, a, path, size).1.Done? <==>
                  there.Some? && (c.quota == 0 || size <= there.value || Total(a.tree) - there.value + size <= c.quota))
  {
    hide QuotaRefuses;
    var p := Segments(path);
    OverwriteMeans(c, a, path, size);
    ExistingIsPart(a.tree, p);
    if FileAt(a.tree, p).Some? {
      FileIsWritable(a.tree, p);
      WriteMeans(a, p, size);
      WriteTotal(a, p, size);
      QuotaRefusesIff(c, a, p, size);
    }
  }

  /** A write through a share: only an existing file, and no tombstone is touched. */
  lemma OverwriteMeans(c: Config, a: Account, path: string, size: nat)
    requires Canonical(path)
    ensures var (b, reply) := AfterOverwrite(c, a, path, size);
            var p := Segments(path);
            if FileAt(a.tree, p).None? then reply == NotFound && b == a
            else if QuotaRefuses(c, a.tree, p, size) then reply == BadRequest && b == a
            else reply == Done([path]) && JustWritten(a.tree, b.tree, p, size) && b.deleted == a.deleted
  {
    CanonicalIffFixed(path);
    var p := Segments(path);
    WriteMeans(a, p, size);
    if FileAt(a.tree, p).Some? {
      FileIsWritable(a.tree, p);
    }
  }

  lemma FileIsWritable(tree: Node, p: Path)
    requires FileAt(tree, p).Some?
    ensures Writable(tree, p)
  {
    forall i: nat | i < |p|
      ensures FileAt(tree, p[..i]).None?
    {
      LookupAppend(tree, p[..i], p[i..]);
      assert p[..i] + p[i..] == p;
      assert p[i..] != [];
    }
  }

  /** A folder create: the folder and those above it are there, and nothing else is new. */
  lemma FolderMeans(a: Account, path: string)
    ensures var (b, reply) := AfterCreateFolder(a, path);
            if SafeRel(path).None? then reply == BadRequest && b == a
            else
              var p := Segments(SafeRel(path).value);
              if exists i :: 0 <= i <= |p| && FileAt(a.tree, p[..i]).Some? then reply == Internal && b == a
              else
                && reply == Done([]) && b.deleted == a.deleted
                && (forall q :: FileAt(b.tree, q) == FileAt(a.tree, q))
                && (forall q :: IsDirAt(b.tree, q) <==> IsDirAt(a.tree, q) || q <= p)
  {
    if SafeRel(path).Some? {
      var p := Segments(SafeRel(path).value);
      MkDirsWhen(a.tree, p);
      if MkDirs(a.tree, p).Some? {
        forall q
          ensures FileAt(MkDirs(a.tree, p).value, q) == FileAt(a.tree, q)
          ensures IsDirAt(MkDirs(a.tree, p).value, q) <==> IsDirAt(a.tree, q) || q <= p
        {
          MkDirsWhat(a.tree, p, q);
        }
      }
    }
  }

  /** What was at or below `p` is gone, nothing else. */
  ghost predicate JustRemoved(before: Node, after: Node, p: Path) {
    && (forall q :: FileAt(after, q) == if p <= q then None else FileAt(before, q))
    && (forall q :: IsDirAt(after, q) <==> IsDirAt(before, q) && !(p <= q))
  }

  lemma RemoveMeans(n: Node, p: Path)
    requires p != [] && RemoveAll(n, p).Some?
    ensures JustRemoved(n, RemoveAll(n, p).value, p)
    ensures RemoveOne(n, p).Some? ==> RemoveOne(n, p) == RemoveAll(n, p)
  {
    forall q
      ensures var after := RemoveAll(n, p).value;
              && FileAt(after, q) == (if p <= q then None else FileAt(n, q))
              && (IsDirAt(after, q) <==> IsDirAt(n, q) && !(p <= q))
    {
      RemoveWhat(n, p, q);
    }
  }

  /** A delete of a file or an empty folder, with a tombstone for the key of either. */
  lemma DeleteMeans(a: Account, path: string, now: int)
    ensures var (b, reply) := AfterDelete(a, path, false, now);
            if SafeRel(path).None? then reply == BadRequest && b == a
            else
              var rel := SafeRel(path).value;
              var p := Segments(rel);
              if FileAt(a.tree, p).None? && !IsEmptyDirAt(a.tree, p) then reply == NotFound && b == a
              else reply == Done([rel]) && JustRemoved(a.tree, b.tree, p) && b.deleted == a.deleted[rel := now]
  {
    if SafeRel(path).Some? {
      var p := Segments(SafeRel(path).value);
      RemoveWhen(a.tree, p);
      if RemoveOne(a.tree, p).Some? {
        RemoveMeans(a.tree, p);
      }
    }
  }

  /** A file of the account at or below `p`. */
  predicate LiveUnder(tree: Node, p: Path, k: string) {
    Live(tree, k) && p <= Segments(k)
  }

  /** A delete of a folder, with a tombstone for every file that was in it, and for no other key. */
  lemma DeleteFolderMeans(a: Account, path: string, now: int)
    requires Inv(a)
    ensures var (b, reply) := AfterDelete(a, path, true, now);
            if SafeRel(path).None? then reply == BadRequest && b == a
            else
              var p := Segments(SafeRel(path).value);
              if Lookup(a.tree, p).None? then reply == NotFound && b == a
              else
                && reply == Done([]) && JustRemoved(a.tree, b.tree, p)
                && (forall k :: k in b.deleted <==> k in a.deleted || (IsDirAt(a.tree, p) && LiveUnder(a.tree, p, k)))
                && (forall k | k in b.deleted ::
                      b.deleted[k] == if IsDirAt(a.tree, p) && LiveUnder(a.tree, p, k) then now else a.deleted[k])
  {
    if SafeRel(path).Some? {
      SafeRelIsCanonical(path);
      var p := Segments(SafeRel(path).value);
      if Lookup(a.tree, p).Some? {
        RemoveMeans(a.tree, p);
        CollectedAreLive(a.tree, p);
      }
    }
  }

  lemma CollectedAreLive(tree: Node, p: Path)
    requires WellNamed(tree) && ValidPath(p)
    ensures forall k :: k in Collected(tree, p) <==> IsDirAt(tree, p) && LiveUnder(tree, p, k)
  {
    forall k
      ensures k in Collected(tree, p) <==> IsDirAt(tree, p) && LiveUnder(tree, p, k)
    {
      if k in Collected(tree, p) {
        CollectedIsBelow(tree, p, k);
      }
      if IsDirAt(tree, p) && LiveUnder(tree, p, k) {
        LiveIsCollected(tree, p, k);
      }
    }
  }

  // ---- The move ----

  predicate Movable(tree: Node, p: Path, q: Path) {
    && Lookup(tree, p).Some?
    && (p == q || (!(p <= q) && NoFileAbove(tree, q) && GivesWay(tree, p, q)))
  }

  /** All that was at or below `p` stands at `q`, with the folders above `q`; all else is as it was. */
  ghost predicate JustMoved(before: Node, after: Node, p: Path, q: Path)
    requires q != []
  {
    && (forall x :: FileAt(after, x) ==
                      if q <= x then FileAt(before, p + x[|q|..]) else if p <= x then None else FileAt(before, x))
    && (forall x :: IsDirAt(after, x) <==>
                      if q <= x then IsDirAt(before, p + x[|q|..])
                      else if p <= x then false
                      else IsDirAt(before, x) || x <= Parent(q))
  }

  lemma RenameMeans(n: Node, p: Path, q: Path)
    requires p != [] && q != [] && Rename(TryMkDirs(n, Parent(q)), p, q).Some?
    ensures JustMoved(n, Rename(TryMkDirs(n, Parent(q)), p, q).value, p, q)
  {
    forall x
      ensures var after := Rename(TryMkDirs(n, Parent(q)), p, q).value;
              && FileAt(after, x) ==
                   (if q <= x then FileAt(n, p + x[|q|..]) else if p <= x then None else FileAt(n, x))
              && (IsDirAt(after, x) <==>
                    if q <= x then IsDirAt(n, p + x[|q|..])
                    else if p <= x then false
                    else IsDirAt(n, x) || x <= Parent(q))
    {
      RenameWhat(n, p, q, x);
    }
  }

  /**
   A move is done exactly when the source is there and the target can take it. Then the whole subtree stands at the
   target; every file that was moved has a tombstone of now at its old key, no file that arrived has one, and the
   tombstones of other keys are as they were. Moving something onto itself leaves no tombstone for it.
   */
  lemma MoveMeans(a: Account, fromPath: string, toPath: string, now: int)
    requires Inv(a)
    ensures var (b, reply) := AfterMove(a, fromPath, toPath, now);
            if SafeRel(fromPath).None? || SafeRel(toPath).None? then reply == BadRequest && b == a
            else
              var from, to := SafeRel(fromPath).value, SafeRel(toPath).value;
              var p, q := Segments(from), Segments(to);
              if !Movable(a.tree, p, q) then reply == NotFound && NothingLost(a, b)
              else
                && reply == Done(if IsDirAt(a.tree, p) then [] else [from, to])
                && JustMoved(a.tree, b.tree, p, q)
                && (forall k :: k in b.deleted <==>
                      (k in a.deleted || LiveUnder(a.tree, p, k)) && !LiveUnder(b.tree, q, k))
                && (forall k | k in b.deleted ::
                      b.deleted[k] == if LiveUnder(a.tree, p, k) then now else a.deleted[k])
  {
    if SafeRel(fromPath).Some? && SafeRel(toPath).Some? {
      SafeRelIsCanonical(fromPath);
      SafeRelIsCanonical(toPath);
      var from, to := SafeRel(fromPath).value, SafeRel(toPath).value;
      var p, q := Segments(from), Segments(to);
      RenameWhen(a.tree, p, q);
      if Movable(a.tree, p, q) {
        RenameMeans(a.tree, p, q);
        MoveTombstonesMean(a, from, to, now);
      } else {
        forall x
          ensures FileAt(TryMkDirs(a.tree, Parent(q)), x) == FileAt(a.tree, x)
        {
          TryMkDirsKeepsFiles(a.tree, Parent(q), x);
        }
      }
    }
  }

  lemma MoveTombstonesMean(a: Account, from: string, to: string, now: int)
    requires Inv(a) && Canonical(from) && Canonical(to)
    requires Rename(TryMkDirs(a.tree, Parent(Segments(to))), Segments(from), Segments(to)).Some?
    ensures var b, p, q := Moved(a, from, to, now), Segments(from), Segments(to);
            && (forall k :: k in b.deleted <==>
                  (k in a.deleted || LiveUnder(a.tree, p, k)) && !LiveUnder(b.tree, q, k))
            && (forall k | k in b.deleted :: b.deleted[k] == if LiveUnder(a.tree, p, k) then now else a.deleted[k])
  {
    var b, p, q := Moved(a, from, to, now), Segments(from), Segments(to);
    var keys := MovedKeys(a.tree, from);
    MovedKeysApart(a.tree, from, to);
    forall k
      ensures k in keys <==> LiveUnder(a.tree, p, k)
      ensures LiveUnder(b.tree, q, k) <==> exists m :: m in keys && |from| <= |m| && k == MovedTo(from, to, m)
    {
      MovedKeyIff(a.tree, from, to, k);
      if LiveUnder(b.tree, q, k) {
        var source := UnderSource(a.tree, from, to, k);
      }
      if m :| m in keys && |from| <= |m| && k == MovedTo(from, to, m) {
        ArrivesAlive(a.tree, from, to, m);
        ArrivesUnder(a.tree, from, to, m);
      }
    }
  }

  lemma ArrivesUnder(tree: Node, from: string, to: string, m: string)
    requires WellNamed(tree) && Canonical(from) && Canonical(to)
    requires Rename(TryMkDirs(tree, Parent(Segments(to))), Segments(from), Segments(to)).Some?
    requires m in MovedKeys(tree, from) && |from| <= |m|
    ensures Segments(to) <= Segments(MovedTo(from, to, m))
  {
    var p, q := Segments(from), Segments(to);
    MovedKeyIff(tree, from, to, m);
    var t := Segments(m)[|p|..];
    assert Segments(m) == p + t;
    assert AllValid(t) by {
      assert forall n | n in t :: n in Segments(m);
    }
    RelOfSegments(from);
    RelOfSegments(to);
    RelOfSegments(m);
    MovedKeyPath(p, t, q);
    SegmentsOfRel(q + t);
  }
}
