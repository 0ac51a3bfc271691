/** A workspace on disk: a tree of names, kinds and sizes, under the POSIX operations the handlers call. */
module FileTree {
  import opened Wrappers
  import opened Paths

  datatype Node = File(size: nat) | Dir(children: map<string, Node>)

  const EMPTY_DIR := Dir(map[])

  function Lookup(n: Node, p: Path): Option<Node> {
    if p == [] then Some(n)
    else if n.Dir? && p[0] in n.children then Lookup(n.children[p[0]], p[1..])
    else None
  }

  /** The regular file at `p`, seen as its size. */
  function FileAt(n: Node, p: Path): Option<nat> {
    var found := Lookup(n, p);
    if found.Some? && found.value.File? then Some(found.value.size) else None
  }

  predicate IsDirAt(n: Node, p: Path) {
    var found := Lookup(n, p);
    found.Some? && found.value.Dir?
  }

  /** The parent of `p` is a directory, so an entry can be placed at `p`. */
  predicate CanHold(n: Node, p: Path) {
    || p == []
    || (n.Dir? && (|p| == 1 || (p[0] in n.children && CanHold(n.children[p[0]], p[1..]))))
  }

  function Put(n: Node, p: Path, v: Node): Node
    requires CanHold(n, p)
  {
    if p == [] then v
    else if |p| == 1 then Dir(n.children[p[0] := v])
    else Dir(n.children[p[0] := Put(n.children[p[0]], p[1..], v)])
  }

  function Remove(n: Node, p: Path): Node
    requires p != []
  {
    if n.File? || p[0] !in n.children then n
    else if |p| == 1 then Dir(n.children - {p[0]})
    else Dir(n.children[p[0] := Remove(n.children[p[0]], p[1..])])
  }

  lemma {:induction false} LookupPut(n: Node, p: Path, v: Node, q: Path)
    requires CanHold(n, p)
    ensures p <= q ==> Lookup(Put(n, p, v), q) == Lookup(v, q[|p|..])
    ensures !(p <= q) ==> FileAt(Put(n, p, v), q) == FileAt(n, q)
    ensures !(p <= q) && !(q <= p) ==> Lookup(Put(n, p, v), q) == Lookup(n, q)
    decreases |p|
  {
    if p != [] && q != [] && p[0] == q[0] && |p| > 1 {
      LookupPut(n.children[p[0]], p[1..], v, q[1..]);
      assert p <= q <==> p[1..] <= q[1..];
      assert q <= p <==> q[1..] <= p[1..];
    }
  }

  lemma {:induction false} LookupRemove(n: Node, p: Path, q: Path)
    requires p != []
    ensures p <= q ==> Lookup(Remove(n, p), q) == None
    ensures !(p <= q) ==> FileAt(Remove(n, p), q) == FileAt(n, q)
    ensures !(p <= q) && !(q <= p) ==> Lookup(Remove(n, p), q) == Lookup(n, q)
    decreases |p|
  {
    if q != [] && p[0] == q[0] && |p| > 1 && n.Dir? && p[0] in n.children {
      LookupRemove(n.children[p[0]], p[1..], q[1..]);
      assert p <= q <==> p[1..] <= q[1..];
      assert q <= p <==> q[1..] <= p[1..];
    }
  }

  lemma {:induction false} RemoveKeepsRoom(n: Node, p: Path, q: Path)
    requires p != [] && CanHold(n, q) && !(p <= q)
    ensures CanHold(Remove(n, p), q)
    decreases |p|
  {
    if |q| > 1 && p[0] == q[0] && |p| > 1 {
      assert p <= q <==> p[1..] <= q[1..];
      RemoveKeepsRoom(n.children[p[0]], p[1..], q[1..]);
    }
  }

  // ---- POSIX operations; None is the error return, which changes nothing ----

  /** fs::create_directories: an error exactly when some component is a regular file. */
  function MkDirs(n: Node, p: Path): Option<Node>
    decreases |p|
  {
    if n.File? then None
    else if p == [] then Some(n)
    else
      var made := MkDirs(if p[0] in n.children then n.children[p[0]] else EMPTY_DIR, p[1..]);
      if made.None? then None else Some(Dir(n.children[p[0] := made.value]))
  }

  /** The state after a best-effort create_directories whose error is ignored. */
  function TryMkDirs(n: Node, p: Path): Node {
    var made := MkDirs(n, p);
    if made.Some? then made.value else n
  }

  function Parent(p: Path): Path
    requires p != []
  {
    p[..|p| - 1]
  }

  /** util::fWriteFileAtomic: an empty directory in the way is removed by the fallback, a full one is an error. */
  function WriteFile(n: Node, p: Path, size: nat): Option<Node>
    requires p != []
  {
    var made := TryMkDirs(n, Parent(p));
    if !CanHold(made, p) then None
    else
      var there := Lookup(made, p);
      if there.Some? && there.value.Dir? && there.value.children != map[] then None
      else Some(Put(made, p, File(size)))
  }

  /** fs::remove: a file or an empty directory. */
  function RemoveOne(n: Node, p: Path): Option<Node>
    requires p != []
  {
    var there := Lookup(n, p);
    if there.None? || (there.value.Dir? && there.value.children != map[]) then None
    else Some(Remove(n, p))
  }

  /** fs::remove_all, with "removed nothing" as None. */
  function RemoveAll(n: Node, p: Path): Option<Node>
    requires p != []
  {
    if Lookup(n, p).None? then None else Some(Remove(n, p))
  }

  /** rename(2): never into its own subtree, never across kinds, and onto a directory only an empty one. */
  function Rename(n: Node, from: Path, to: Path): Option<Node>
    requires from != [] && to != []
  {
    var src, dst := Lookup(n, from), Lookup(n, to);
    if src.None? then None
    else if from == to then Some(n)
    else if from <= to || !CanHold(n, to) then None
    else if dst.Some? && dst.value.Dir? && (src.value.File? || dst.value.children != map[]) then None
    else if dst.Some? && dst.value.File? && src.value.Dir? then None
    else
      RemoveKeepsRoom(n, from, to);
      Some(Put(Remove(n, from), to, src.value))
  }

  lemma {:induction false} MkDirsKeepsFiles(n: Node, p: Path, q: Path)
    requires MkDirs(n, p).Some?
    ensures FileAt(MkDirs(n, p).value, q) == FileAt(n, q)
    ensures Lookup(n, q).Some? ==> Lookup(MkDirs(n, p).value, q).Some?
    ensures IsDirAt(MkDirs(n, p).value, p)
    decreases |p|
  {
    if p != [] {
      var child := if p[0] in n.children then n.children[p[0]] else EMPTY_DIR;
      MkDirsKeepsFiles(child, p[1..], if q != [] && q[0] == p[0] then q[1..] else []);
      if q != [] && q[0] == p[0] && p[0] !in n.children {
        assert FileAt(EMPTY_DIR, q[1..]).None?;
      }
    }
  }

  lemma {:induction false} MkDirsOnlyOnPath(n: Node, p: Path, q: Path)
    requires !(q <= p)
    ensures Lookup(TryMkDirs(n, p), q) == Lookup(n, q)
    decreases |p|
  {
    if MkDirs(n, p).Some? && p != [] && q[0] == p[0] {
      var child := if p[0] in n.children then n.children[p[0]] else EMPTY_DIR;
      assert q <= p <==> q[1..] <= p[1..];
      MkDirsOnlyOnPath(child, p[1..], q[1..]);
    }
  }

  lemma TryMkDirsKeepsFiles(n: Node, p: Path, q: Path)
    ensures FileAt(TryMkDirs(n, p), q) == FileAt(n, q)
  {
    if MkDirs(n, p).Some? {
      MkDirsKeepsFiles(n, p, q);
    }
  }

  lemma WriteFileFiles(n: Node, p: Path, size: nat, q: Path)
    requires p != [] && WriteFile(n, p, size).Some?
    ensures FileAt(WriteFile(n, p, size).value, q) == if q == p then Some(size) else FileAt(n, q)
  {
    var made := TryMkDirs(n, Parent(p));
    TryMkDirsKeepsFiles(n, Parent(p), q);
    LookupPut(made, p, File(size), q);
    if p <= q && p != q {
      NothingBelow(made, p, q);
    }
  }

  /** Below a file, or below an empty or missing directory, there are no files. */
  lemma {:induction false} NothingBelow(n: Node, p: Path, q: Path)
    requires p <= q && p != q
    requires var there := Lookup(n, p); there.None? || there.value.File? || there.value.children == map[]
    ensures Lookup(n, q).None?
    decreases |p|
  {
    if p != [] && n.Dir? && p[0] in n.children {
      NothingBelow(n.children[p[0]], p[1..], q[1..]);
    }
  }

  /** A successful rename moves exactly the subtree: source and destination are equal or disjoint. */
  lemma RenameFiles(n: Node, from: Path, to: Path, q: Path)
    requires from != [] && to != [] && Rename(n, from, to).Some?
    ensures FileAt(Rename(n, from, to).value, q) ==
              if to <= q then FileAt(n, from + q[|to|..])
              else if from <= q then None
              else FileAt(n, q)
    ensures from == to || (!(from <= to) && !(to <= from))
  {
    if from == to {
      assert to <= q ==> from + q[|to|..] == q;
    } else {
      var rest := Remove(n, from);
      var src := Lookup(n, from).value;
      RemoveKeepsRoom(n, from, to);
      LookupPut(rest, to, src, q);
      LookupRemove(n, from, q);
      if to <= q {
        LookupAppend(n, from, q[|to|..]);
      }
      if to <= from {
        NothingBelow(n, to, from);
      }
    }
  }

  lemma {:induction false} LookupAppend(n: Node, p: Path, q: Path)
    ensures Lookup(n, p).None? ==> Lookup(n, p + q).None?
    ensures Lookup(n, p).Some? ==> Lookup(n, p + q) == Lookup(Lookup(n, p).value, q)
    decreases |p|
  {
    if p == [] {
      assert p + q == q;
    } else {
      assert (p + q)[1..] == p[1..] + q;
      if n.Dir? && p[0] in n.children {
        LookupAppend(n.children[p[0]], p[1..], q);
      }
    }
  }

  // ---- The paths present ----

  function NodePaths(n: Node): set<Path> {
    {[]} + if n.File? then {} else set k, q | k in n.children && q in NodePaths(n.children[k]) :: [k] + q
  }

  lemma {:induction false} NodePathsExact(n: Node, p: Path)
    ensures p in NodePaths(n) <==> Lookup(n, p).Some?
    decreases |p|
  {
    if p != [] {
      assert p == [p[0]] + p[1..];
      if n.Dir? && p[0] in n.children {
        NodePathsExact(n.children[p[0]], p[1..]);
      }
      if p in NodePaths(n) {
        var k, q :| k in n.children && q in NodePaths(n.children[k]) && p == [k] + q;
        assert p[0] == k && p[1..] == q;
      }
    }
  }

  function FilePaths(n: Node): set<Path> {
    set q | q in NodePaths(n) && FileAt(n, q).Some?
  }

  lemma FilePathsExact(n: Node, p: Path)
    ensures p in FilePaths(n) <==> FileAt(n, p).Some?
  {
    NodePathsExact(n, p);
  }

  // ---- Names ----

  /** Every name in the tree could have come out of the path normaliser. */
  predicate WellNamed(n: Node) {
    n.Dir? ==> forall k | k in n.children :: ValidName(k) && WellNamed(n.children[k])
  }

  predicate AllValid(p: Path) {
    forall k | k in p :: ValidName(k)
  }

  lemma {:induction false} WellNamedLookup(n: Node, p: Path)
    requires WellNamed(n) && Lookup(n, p).Some?
    ensures AllValid(p) && WellNamed(Lookup(n, p).value)
    decreases |p|
  {
    if p != [] {
      WellNamedLookup(n.children[p[0]], p[1..]);
      assert p == [p[0]] + p[1..];
    }
  }

  lemma {:induction false} WellNamedPut(n: Node, p: Path, v: Node)
    requires CanHold(n, p) && WellNamed(n) && WellNamed(v) && AllValid(p)
    ensures WellNamed(Put(n, p, v))
    decreases |p|
  {
    if p != [] {
      assert p[0] in p;
      if |p| > 1 {
        assert forall k | k in p[1..] :: k in p;
        WellNamedPut(n.children[p[0]], p[1..], v);
      }
    }
  }

  lemma {:induction false} WellNamedRemove(n: Node, p: Path)
    requires p != [] && WellNamed(n)
    ensures WellNamed(Remove(n, p))
    decreases |p|
  {
    if |p| > 1 && n.Dir? && p[0] in n.children {
      WellNamedRemove(n.children[p[0]], p[1..]);
    }
  }

  lemma {:induction false} WellNamedMkDirs(n: Node, p: Path)
    requires WellNamed(n) && AllValid(p)
    ensures WellNamed(TryMkDirs(n, p))
    decreases |p|
  {
    if MkDirs(n, p).Some? && p != [] {
      assert p[0] in p;
      assert forall k | k in p[1..] :: k in p;
      WellNamedMkDirs(if p[0] in n.children then n.children[p[0]] else EMPTY_DIR, p[1..]);
    }
  }

  // ---- Sizes ----

  /** The bytes stored under a node: each regular file once. */
  ghost function Total(n: Node): nat
    decreases n, 1
  {
    if n.File? then n.size else SumOver(n, n.children.Keys)
  }

  ghost function SumOver(n: Node, names: set<string>): nat
    requires n.Dir? && names <= n.children.Keys
    decreases n, 0, names
  {
    if names == {} then 0
    else
      var k :| k in names;
      Total(n.children[k]) + SumOver(n, names - {k})
  }

  /** The sum does not depend on the order names are taken in. */
  lemma {:induction false} SumOverTake(n: Node, names: set<string>, k: string)
    requires n.Dir? && names <= n.children.Keys && k in names
    ensures SumOver(n, names) == Total(n.children[k]) + SumOver(n, names - {k})
    decreases names
  {
    var j :| j in names && SumOver(n, names) == Total(n.children[j]) + SumOver(n, names - {j});
    if j != k {
      SumOverTake(n, names - {j}, k);
      SumOverTake(n, names - {k}, j);
      assert names - {j} - {k} == names - {k} - {j};
    }
  }

  lemma {:induction false} SumOverFrame(n: Node, m: Node, names: set<string>)
    requires n.Dir? && m.Dir? && names <= n.children.Keys && names <= m.children.Keys
    requires forall k | k in names :: n.children[k] == m.children[k]
    ensures SumOver(n, names) == SumOver(m, names)
    decreases names
  {
    if names != {} {
      var k :| k in names;
      SumOverTake(n, names, k);
      SumOverTake(m, names, k);
      SumOverFrame(n, m, names - {k});
    }
  }

  ghost function TotalAt(n: Node, p: Path): nat {
    var there := Lookup(n, p);
    if there.Some? then Total(there.value) else 0
  }

  lemma TotalChild(n: Node, k: string, v: Node)
    requires n.Dir?
    ensures Total(Dir(n.children[k := v])) ==
              Total(Dir(n.children - {k})) + Total(v)
    ensures k in n.children ==> Total(n) == Total(Dir(n.children - {k})) + Total(n.children[k])
    ensures k !in n.children ==> Dir(n.children - {k}) == n
  {
    var with, without := Dir(n.children[k := v]), Dir(n.children - {k});
    assert with.children.Keys - {k} == without.children.Keys;
    SumOverTake(with, with.children.Keys, k);
    SumOverFrame(with, without, without.children.Keys);
    if k in n.children {
      assert n.children.Keys - {k} == without.children.Keys;
      SumOverTake(n, n.children.Keys, k);
      SumOverFrame(n, without, without.children.Keys);
    } else {
      assert n.children - {k} == n.children;
    }
  }

  lemma {:induction false} TotalPut(n: Node, p: Path, v: Node)
    requires CanHold(n, p)
    ensures Total(Put(n, p, v)) + TotalAt(n, p) == Total(n) + Total(v)
    decreases |p|
  {
    if |p| == 1 {
      TotalChild(n, p[0], v);
      assert Lookup(n, p) == if p[0] in n.children then Some(n.children[p[0]]) else None;
    } else if |p| > 1 {
      var child := n.children[p[0]];
      TotalPut(child, p[1..], v);
      TotalChild(n, p[0], Put(child, p[1..], v));
    }
  }

  lemma {:induction false} TotalRemove(n: Node, p: Path)
    requires p != []
    ensures Total(Remove(n, p)) + TotalAt(n, p) == Total(n)
    decreases |p|
  {
    if n.Dir? && p[0] in n.children {
      TotalChild(n, p[0], if |p| == 1 then n.children[p[0]] else Remove(n.children[p[0]], p[1..]));
      if |p| > 1 {
        TotalRemove(n.children[p[0]], p[1..]);
      } else {
        assert Lookup(n, p) == Some(n.children[p[0]]);
      }
    }
  }

  lemma {:induction false} TotalMkDirs(n: Node, p: Path)
    ensures Total(TryMkDirs(n, p)) == Total(n)
    decreases |p|
  {
    if MkDirs(n, p).Some? && p != [] {
      var child := if p[0] in n.children then n.children[p[0]] else EMPTY_DIR;
      TotalMkDirs(child, p[1..]);
      TotalChild(n, p[0], MkDirs(child, p[1..]).value);
      assert Total(EMPTY_DIR) == 0;
    }
  }

  /** A part is at most the whole, so subtracting an existing file's size never goes below zero. */
  lemma {:induction false} PartOfTotal(n: Node, p: Path)
    ensures TotalAt(n, p) <= Total(n)
    decreases |p|
  {
    if p != [] {
      TotalRemove(n, p);
    }
  }

  lemma RenameTotal(n: Node, from: Path, to: Path)
    requires from != [] && to != [] && Rename(n, from, to).Some?
    ensures Total(Rename(n, from, to).value) <= Total(n)
  {
    if from != to {
      RemoveKeepsRoom(n, from, to);
      TotalRemove(n, from);
      TotalPut(Remove(n, from), to, Lookup(n, from).value);
    }
  }
}
