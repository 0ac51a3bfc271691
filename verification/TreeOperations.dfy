/** When each operation on the tree succeeds, and everything it then changes, told from what was there before. */
module TreeOperations {
  import opened Wrappers
  import opened Paths
  import opened FileTree

  /** No proper prefix of `p`, the root included, is a regular file. */
  predicate NoFileAbove(n: Node, p: Path) {
    forall i | 0 <= i < |p| :: FileAt(n, p[..i]).None?
  }

  predicate IsEmptyDirAt(n: Node, p: Path) {
    Lookup(n, p) == Some(Dir(map[]))
  }

  lemma {:induction false} CanHoldIff(n: Node, p: Path)
    requires p != []
    ensures CanHold(n, p) <==> IsDirAt(n, Parent(p))
    decreases |p|
  {
    if |p| > 1 && n.Dir? && p[0] in n.children {
      CanHoldIff(n.children[p[0]], p[1..]);
      assert Parent(p)[1..] == Parent(p[1..]) && Parent(p)[0] == p[0];
    }
  }

  /** create_directories fails exactly when some component is a regular file. */
  lemma {:induction false} MkDirsWhen(n: Node, p: Path)
    ensures MkDirs(n, p).Some? <==> forall i | 0 <= i <= |p| :: FileAt(n, p[..i]).None?
    decreases |p|
  {
    assert p[..0] == [];
    if n.Dir? && p != [] {
      var child := if p[0] in n.children then n.children[p[0]] else EMPTY_DIR;
      MkDirsWhen(child, p[1..]);
      forall i: nat | i < |p|
        ensures FileAt(child, p[1..][..i]).None? <==> FileAt(n, p[..i + 1]).None?
      {
        assert p[..i + 1][1..] == p[1..][..i] && p[..i + 1][0] == p[0];
        if p[0] !in n.children && i > 0 {
          assert p[1..][..i][0] !in EMPTY_DIR.children;
        }
      }
      if forall i | 0 <= i <= |p| :: FileAt(n, p[..i]).None? {
        forall i: nat | i <= |p[1..]|
          ensures FileAt(child, p[1..][..i]).None?
        {
          assert FileAt(n, p[..i + 1]).None?;
        }
      }
      if forall i | 0 <= i <= |p[1..]| :: FileAt(child, p[1..][..i]).None? {
        forall i: nat | i <= |p|
          ensures FileAt(n, p[..i]).None?
        {
          if i > 0 {
            assert FileAt(child, p[1..][..i - 1]).None?;
          }
        }
      }
    }
  }

  /** And then adds the folders on the path, and nothing else. */
  lemma {:induction false} MkDirsWhat(n: Node, p: Path, q: Path)
    requires MkDirs(n, p).Some?
    ensures FileAt(MkDirs(n, p).value, q) == FileAt(n, q)
    ensures IsDirAt(MkDirs(n, p).value, q) <==> IsDirAt(n, q) || q <= p
    decreases |p|
  {
    MkDirsKeepsFiles(n, p, q);
    if p != [] && q != [] && q[0] == p[0] {
      var child := if p[0] in n.children then n.children[p[0]] else EMPTY_DIR;
      MkDirsWhat(child, p[1..], q[1..]);
      assert q <= p <==> q[1..] <= p[1..];
      if p[0] !in n.children && q[1..] != [] {
        assert q[1..][0] !in EMPTY_DIR.children;
      }
    }
  }

  lemma {:induction false} DirsPut(n: Node, p: Path, v: Node, q: Path)
    requires CanHold(n, p) && !(p <= q)
    ensures IsDirAt(Put(n, p, v), q) == IsDirAt(n, q)
    decreases |p|
  {
    if q != [] && p[0] == q[0] && |p| > 1 {
      assert p <= q <==> p[1..] <= q[1..];
      DirsPut(n.children[p[0]], p[1..], v, q[1..]);
    }
  }

  lemma {:induction false} DirsRemove(n: Node, p: Path, q: Path)
    requires p != []
    ensures IsDirAt(Remove(n, p), q) <==> IsDirAt(n, q) && !(p <= q)
    decreases |p|
  {
    LookupRemove(n, p, q);
    if q != [] && p[0] == q[0] && |p| > 1 && n.Dir? && p[0] in n.children {
      assert p <= q <==> p[1..] <= q[1..];
      DirsRemove(n.children[p[0]], p[1..], q[1..]);
    }
  }

  /** Above a place that can be filled there are only folders, or nothing yet. */
  lemma ParentsReady(n: Node, p: Path)
    requires p != []
    ensures var made := TryMkDirs(n, Parent(p));
            && (CanHold(made, p) <==> NoFileAbove(n, p))
            && Lookup(made, p) == Lookup(n, p)
            && (forall q | !(q <= Parent(p)) :: Lookup(made, q) == Lookup(n, q))
            && (NoFileAbove(n, p) ==> MkDirs(n, Parent(p)).Some?)
  {
    var up := Parent(p);
    var made := TryMkDirs(n, up);
    MkDirsWhen(n, up);
    CanHoldIff(made, p);
    forall i | 0 <= i < |p|
      ensures up[..i] == p[..i]
    {
    }
    forall q | !(q <= up)
      ensures Lookup(made, q) == Lookup(n, q)
    {
      MkDirsOnlyOnPath(n, up, q);
    }
    if NoFileAbove(n, p) {
      assert forall i | 0 <= i <= |up| :: FileAt(n, up[..i]).None?;
      MkDirsWhat(n, up, up);
    } else {
      var i :| 0 <= i < |p| && FileAt(n, p[..i]).Some?;
      assert FileAt(n, up[..i]).Some?;
      assert made == n;
      if i < |up| {
        NothingBelow(n, up[..i], up);
      } else {
        assert up[..i] == up;
      }
    }
  }

  /** A write succeeds unless a file is in the way above, or a folder that is not empty is in its place. */
  lemma WriteFileWhen(n: Node, p: Path, size: nat)
    requires p != []
    ensures WriteFile(n, p, size).Some? <==> NoFileAbove(n, p) && (IsDirAt(n, p) ==> IsEmptyDirAt(n, p))
  {
    ParentsReady(n, p);
  }

  /** It then writes that file, adds the folders above it, and changes nothing else. */
  lemma WriteFileWhat(n: Node, p: Path, size: nat, q: Path)
    requires p != [] && WriteFile(n, p, size).Some?
    ensures var after := WriteFile(n, p, size).value;
            && FileAt(after, q) == (if q == p then Some(size) else FileAt(n, q))
            && (IsDirAt(after, q) <==> q != p && (IsDirAt(n, q) || q <= p))
  {
    var made := TryMkDirs(n, Parent(p));
    ParentsReady(n, p);
    WriteFileWhen(n, p, size);
    WriteFileFiles(n, p, size, q);
    MkDirsWhat(n, Parent(p), q);
    LookupPut(made, p, File(size), q);
    if p <= q && p != q {
      NothingBelow(made, p, q);
    } else if !(p <= q) {
      DirsPut(made, p, File(size), q);
      assert q <= p <==> q <= Parent(p) by {
        if q <= p {
          assert q == Parent(p)[..|q|];
        }
      }
    }
  }

  /** remove takes a file or an empty folder; remove_all anything that is there. */
  lemma RemoveWhen(n: Node, p: Path)
    requires p != []
    ensures RemoveOne(n, p).Some? <==> FileAt(n, p).Some? || IsEmptyDirAt(n, p)
    ensures RemoveAll(n, p).Some? <==> FileAt(n, p).Some? || IsDirAt(n, p)
  {
  }

  /** And all that was at or below the path is gone, nothing else. */
  lemma RemoveWhat(n: Node, p: Path, q: Path)
    requires p != [] && RemoveAll(n, p).Some?
    ensures RemoveOne(n, p).Some? ==> RemoveOne(n, p) == RemoveAll(n, p)
    ensures var after := RemoveAll(n, p).value;
            && FileAt(after, q) == (if p <= q then None else FileAt(n, q))
            && (IsDirAt(after, q) <==> IsDirAt(n, q) && !(p <= q))
  {
    LookupRemove(n, p, q);
    DirsRemove(n, p, q);
  }

  /** What is at the target lets the source replace it: nothing, a file for a file, an empty folder for a folder. */
  predicate GivesWay(n: Node, from: Path, to: Path) {
    || Lookup(n, to).None?
    || (FileAt(n, from).Some? && FileAt(n, to).Some?)
    || (IsDirAt(n, from) && IsEmptyDirAt(n, to))
  }

  /** The move handler's make-parents-then-rename succeeds just when the source is there and the target can take it. */
  lemma RenameWhen(n: Node, from: Path, to: Path)
    requires from != [] && to != []
    ensures Rename(TryMkDirs(n, Parent(to)), from, to).Some? <==>
              && Lookup(n, from).Some?
              && (from == to || (!(from <= to) && NoFileAbove(n, to) && GivesWay(n, from, to)))
  {
    ParentsReady(n, to);
    if from <= Parent(to) {
      assert from <= to && from != to;
    }
  }

  /** And the whole subtree, files and folders, stands at the target instead of the source. */
  lemma RenameWhat(n: Node, from: Path, to: Path, q: Path)
    requires from != [] && to != [] && Rename(TryMkDirs(n, Parent(to)), from, to).Some?
    ensures var after := Rename(TryMkDirs(n, Parent(to)), from, to).value;
            && FileAt(after, q) ==
                 (if to <= q then FileAt(n, from + q[|to|..]) else if from <= q then None else FileAt(n, q))
            && (IsDirAt(after, q) <==>
                  if to <= q then IsDirAt(n, from + q[|to|..])
                  else if from <= q then false
                  else IsDirAt(n, q) || q <= Parent(to))
  {
    var up := Parent(to);
    var made := TryMkDirs(n, up);
    RenameWhen(n, from, to);
    ParentsReady(n, to);
    RenameFiles(made, from, to, q);
    TryMkDirsKeepsFiles(n, up, q);
    if to <= q {
      TryMkDirsKeepsFiles(n, up, from + q[|to|..]);
    }
    RenameDirs(n, from, to, q);
  }

  lemma RenameDirs(n: Node, from: Path, to: Path, q: Path)
    requires from != [] && to != [] && Rename(TryMkDirs(n, Parent(to)), from, to).Some?
    ensures var after := Rename(TryMkDirs(n, Parent(to)), from, to).value;
            IsDirAt(after, q) <==>
              if to <= q then IsDirAt(n, from + q[|to|..])
              else if from <= q then false
              else IsDirAt(n, q) || q <= Parent(to)
  {
    var up := Parent(to);
    var made := TryMkDirs(n, up);
    RenameWhen(n, from, to);
    ParentsReady(n, to);
    MadeDirs(n, to, q);
    if from == to {
      assert to <= q ==> from + q[|to|..] == q;
      assert to <= q ==> !(q <= up);
      return;
    }
    var rest, src := Remove(made, from), Lookup(made, from).value;
    RemoveKeepsRoom(made, from, to);
    LookupPut(rest, to, src, q);
    if to <= q {
      var r := q[|to|..];
      LookupAppend(made, from, r);
      assert !(from + r <= up) by {
        assert from + r <= up ==> from <= up && from <= to;
      }
    } else {
      DirsPut(rest, to, src, q);
      DirsRemove(made, from, q);
    }
  }

  /** The folders there are once the parents were made. */
  lemma MadeDirs(n: Node, to: Path, q: Path)
    requires to != [] && (NoFileAbove(n, to) || Lookup(n, to).Some?)
    ensures IsDirAt(TryMkDirs(n, Parent(to)), q) <==> IsDirAt(n, q) || q <= Parent(to)
  {
    ParentsReady(n, to);
    if !NoFileAbove(n, to) {
      var i :| 0 <= i < |to| && FileAt(n, to[..i]).Some?;
      NothingBelow(n, to[..i], to);
    }
    MkDirsWhat(n, Parent(to), q);
  }
}
