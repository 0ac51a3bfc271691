/** The two recursive walks of src/workspace.cpp: the tombstone collector and the sync listing. */
module Listing {
  import opened Wrappers
  import opened Text
  import opened Paths
  import opened FileTree

  /** The key of the entry `name` in the folder with key `prefix`; the root's key is empty. */
  function ChildRel(prefix: string, name: string): string {
    if prefix == "" then name else prefix + "/" + name
  }

  lemma ChildRelIsRelOf(pre: Path, name: string)
    requires AllValid(pre)
    ensures ChildRel(RelOf(pre), name) == RelOf(pre + [name])
  {
    if pre == [] {
      assert pre + [name] == [name];
    } else {
      SegmentsOfRel(pre);
      JoinAcross(pre, [name], '/');
    }
  }

  // ---- fCollectFilesUnder ----

  /** The keys of all files at or below a node that itself has path `pre`. */
  function FileRels(n: Node, pre: Path): set<string> {
    set q | q in FilePaths(n) :: RelOf(pre + q)
  }

  function FileRelsIn(n: Node, pre: Path, names: set<string>): set<string> {
    set q | q in FilePaths(n) && q != [] && q[0] in names :: RelOf(pre + q)
  }

  lemma {:induction false} ConcatInjective(pre: Path, p: Path, q: Path)
    requires pre + p == pre + q
    ensures p == q
  {
    assert p == (pre + p)[|pre|..] && q == (pre + q)[|pre|..];
  }

  lemma FileRelsOfChild(n: Node, pre: Path, names: set<string>, k: string)
    requires n.Dir? && WellNamed(n) && AllValid(pre) && k in n.children && k !in names
    ensures FileRelsIn(n, pre, names + {k}) == FileRelsIn(n, pre, names) + FileRels(n.children[k], pre + [k])
    ensures FileRelsIn(n, pre, names) !! FileRels(n.children[k], pre + [k])
  {
    var child := n.children[k];
    forall q | q in FilePaths(child)
      ensures [k] + q in FilePaths(n) && pre + ([k] + q) == pre + [k] + q
    {
      FilePathsExact(child, q);
      FilePathsExact(n, [k] + q);
    }
    forall q | q in FilePaths(n) && q != [] && q[0] == k
      ensures q[1..] in FilePaths(child) && pre + q == pre + [k] + q[1..]
    {
      FilePathsExact(n, q);
      FilePathsExact(child, q[1..]);
    }
    forall q, p | q in FilePaths(n) && q != [] && q[0] in names && p in FilePaths(child)
      ensures RelOf(pre + q) != RelOf(pre + [k] + p)
    {
      FileKeyDistinct(n, pre, q, [k] + p);
      assert pre + ([k] + p) == pre + [k] + p;
    }
  }

  lemma FileKeyDistinct(n: Node, pre: Path, p: Path, q: Path)
    requires WellNamed(n) && AllValid(pre) && p in NodePaths(n) && q in NodePaths(n) && p != [] && q != [] && p != q
    ensures RelOf(pre + p) != RelOf(pre + q)
  {
    NodePathsExact(n, p);
    NodePathsExact(n, q);
    WellNamedLookup(n, p);
    WellNamedLookup(n, q);
    if RelOf(pre + p) == RelOf(pre + q) {
      RelOfInjective(pre + p, pre + q);
      ConcatInjective(pre, p, q);
    }
  }

  lemma AllFileRels(n: Node, pre: Path)
    requires n.Dir?
    ensures FileRelsIn(n, pre, {}) == {} && FileRelsIn(n, pre, n.children.Keys) == FileRels(n, pre)
  {
    forall q | q in FilePaths(n)
      ensures q != [] && q[0] in n.children.Keys
    {
      FilePathsExact(n, q);
    }
  }

  lemma FileRelsOfFile(n: Node, pre: Path)
    requires n.File?
    ensures FileRels(n, pre) == {RelOf(pre)}
  {
    assert NodePaths(n) == {[]};
    assert [] in FilePaths(n) && pre + [] == pre;
  }

  lemma CollectStep(before: seq<string>, after: seq<string>, out: seq<string>,
                    n: Node, pre: Path, done: set<string>, k: string)
    requires n.Dir? && WellNamed(n) && AllValid(pre) && k in n.children && k !in done
    requires multiset(before) == multiset(out) + multiset(FileRelsIn(n, pre, done))
    requires multiset(after) == multiset(before) + multiset(FileRels(n.children[k], pre + [k]))
    ensures multiset(after) == multiset(out) + multiset(FileRelsIn(n, pre, done + {k}))
  {
    hide FileRelsIn, FileRels;
    FileRelsOfChild(n, pre, done, k);
    DisjointMultiset(FileRelsIn(n, pre, done), FileRels(n.children[k], pre + [k]));
  }

  lemma EnterChild(n: Node, pre: Path, k: string)
    requires n.Dir? && WellNamed(n) && AllValid(pre) && k in n.children
    ensures WellNamed(n.children[k]) && AllValid(pre + [k])
    ensures ChildRel(RelOf(pre), k) == RelOf(pre + [k])
  {
    ChildRelIsRelOf(pre, k);
  }

  /** Every file under `dir`, once each, appended in whatever order the directories are read. */
  method CollectFilesUnder(dir: Node, prefix: string, out: seq<string>, ghost pre: Path) returns (r: seq<string>)
    requires WellNamed(dir) && AllValid(pre) && prefix == RelOf(pre)
    ensures out <= r
    ensures multiset(r) == multiset(out) + multiset(if dir.Dir? then FileRels(dir, pre) else {})
    decreases dir
  {
    hide FileRelsIn, FileRels, RelOf, ChildRel, WellNamed, AllValid;
    if dir.File? {
      return out;
    }
    r := out;
    AllFileRels(dir, pre);
    var todo, done := dir.children.Keys, {};
    while todo != {}
      invariant todo !! done && todo + done == dir.children.Keys && out <= r
      invariant multiset(r) == multiset(out) + multiset(FileRelsIn(dir, pre, done))
      decreases todo
    {
      var name :| name in todo;
      ghost var before := r;
      var child := dir.children[name];
      var rel := ChildRel(prefix, name);
      EnterChild(dir, pre, name);
      if child.Dir? {
        r := CollectFilesUnder(child, rel, r, pre + [name]);
      } else {
        FileRelsOfFile(child, pre + [name]);
        r := r + [rel];
      }
      CollectStep(before, r, out, dir, pre, done, name);
      todo, done := todo - {name}, done + {name};
    }
  }

  lemma DisjointMultiset<T>(a: set<T>, b: set<T>)
    requires a !! b
    ensures multiset(a + b) == multiset(a) + multiset(b)
  {
  }

  // ---- fWalkWorkDir ----

  /** One listing row; the size, time and hash columns are not modelled. */
  datatype Item = Item(name: string, relPath: string, isDir: bool, children: seq<Item>)

  predicate IsDotfile(name: string) {
    name != "" && name[0] == '.'
  }

  type Row = (string, bool)

  /** How often a nested listing holds the row (relPath, isDir). */
  ghost function Count(items: seq<Item>, row: Row): nat {
    if items == [] then 0
    else
      (if (items[0].relPath, items[0].isDir) == row then 1 else 0)
      + Count(items[0].children, row) + Count(items[1..], row)
  }

  /** The listing shows exactly these rows, one time each. */
  ghost predicate Shows(items: seq<Item>, rows: set<Row>) {
    forall row :: Count(items, row) == if row in rows then 1 else 0
  }

  lemma {:induction false} CountAppend(a: seq<Item>, b: seq<Item>, row: Row)
    ensures Count(a + b, row) == Count(a, row) + Count(b, row)
  {
    if a == [] {
      assert a + b == b;
    } else {
      assert (a + b)[1..] == a[1..] + b;
      CountAppend(a[1..], b, row);
    }
  }

  /** What a listing shows: every folder, and every file whose name has no leading dot. */
  predicate Listed(n: Node, q: Path) {
    q != [] && Lookup(n, q).Some? && (IsDirAt(n, q) || !IsDotfile(q[|q| - 1]))
  }

  function ListedIn(n: Node, pre: Path, names: set<string>): set<Row> {
    set q | q in NodePaths(n) && Listed(n, q) && q[0] in names :: (RelOf(pre + q), IsDirAt(n, q))
  }

  function ListedRows(n: Node, pre: Path): set<Row> {
    set q | q in NodePaths(n) && Listed(n, q) :: (RelOf(pre + q), IsDirAt(n, q))
  }

  /** The rows contributed by one directory entry. */
  function RowsOf(n: Node, pre: Path, k: string): set<Row>
    requires n.Dir? && k in n.children
  {
    var child := n.children[k];
    if child.Dir? then {(RelOf(pre + [k]), true)} + ListedRows(child, pre + [k])
    else if IsDotfile(k) then {}
    else {(RelOf(pre + [k]), false)}
  }

  lemma ListedBelow(n: Node, k: string, q: Path)
    requires n.Dir? && k in n.children
    ensures Lookup(n, [k] + q) == Lookup(n.children[k], q)
    ensures q != [] ==> (Listed(n, [k] + q) <==> Listed(n.children[k], q))
    ensures Listed(n, [k]) <==> n.children[k].Dir? || !IsDotfile(k)
    ensures IsDirAt(n, [k]) <==> n.children[k].Dir?
  {
    var kq := [k] + q;
    assert kq[0] == k && kq[1..] == q;
    assert [k][1..] == [] && Lookup(n, [k]) == Some(n.children[k]);
    if q != [] {
      assert kq[|kq| - 1] == q[|q| - 1];
    }
  }

  ghost predicate RowAt(n: Node, pre: Path, k: string, row: Row, q: Path) {
    q in NodePaths(n) && Listed(n, q) && q[0] == k && row == (RelOf(pre + q), IsDirAt(n, q))
  }

  lemma RowHasPath(n: Node, pre: Path, k: string, row: Row) returns (kq: Path)
    requires n.Dir? && k in n.children && row in RowsOf(n, pre, k)
    ensures RowAt(n, pre, k, row, kq)
  {
    var child := n.children[k];
    hide NodePaths, RelOf, Lookup, IsDotfile;
    if child.Dir? && row in ListedRows(child, pre + [k]) {
      var q :| q in NodePaths(child) && Listed(child, q) && row == (RelOf(pre + [k] + q), IsDirAt(child, q));
      kq := [k] + q;
      ListedBelow(n, k, q);
      assert pre + kq == pre + [k] + q;
    } else {
      kq := [k];
      ListedBelow(n, k, []);
    }
    NodePathsExact(n, kq);
  }

  lemma PathHasRow(n: Node, pre: Path, k: string, row: Row, q: Path)
    requires n.Dir? && k in n.children && RowAt(n, pre, k, row, q)
    ensures row in RowsOf(n, pre, k)
  {
    var child := n.children[k];
    assert q == [k] + q[1..];
    ListedBelow(n, k, q[1..]);
    if |q| > 1 {
      assert pre + [k] + q[1..] == pre + q;
      NodePathsExact(child, q[1..]);
    } else {
      assert q == [k];
    }
  }

  lemma RowsOfChild(n: Node, pre: Path, names: set<string>, k: string)
    requires n.Dir? && WellNamed(n) && AllValid(pre) && k in n.children && k !in names
    ensures ListedIn(n, pre, names + {k}) == ListedIn(n, pre, names) + RowsOf(n, pre, k)
    ensures ListedIn(n, pre, names) !! RowsOf(n, pre, k)
  {
    hide NodePaths, Lookup, RelOf, RowsOf;
    forall row | row in RowsOf(n, pre, k)
      ensures row in ListedIn(n, pre, names + {k}) && row !in ListedIn(n, pre, names)
    {
      var q := RowHasPath(n, pre, k, row);
      if row in ListedIn(n, pre, names) {
        var p :| p in NodePaths(n) && Listed(n, p) && p[0] in names && row == (RelOf(pre + p), IsDirAt(n, p));
        FileKeyDistinct(n, pre, p, q);
      }
    }
    forall row | row in ListedIn(n, pre, names + {k}) && row !in ListedIn(n, pre, names)
      ensures row in RowsOf(n, pre, k)
    {
      var q :| q in NodePaths(n) && Listed(n, q) && q[0] in names + {k} && row == (RelOf(pre + q), IsDirAt(n, q));
      PathHasRow(n, pre, k, row, q);
    }
  }

  /** Directories first, then by lower-cased name. */
  predicate Before(a: Item, b: Item) {
    if a.isDir != b.isDir then a.isDir else LexLess(ToLower(a.name), ToLower(b.name))
  }

  /** Folders come before files, and each of the two in the order of the lower-cased names, all the way down. */
  ghost predicate Ordered(items: seq<Item>) {
    && (forall i, j :: 0 <= i < j < |items| ==>
          && (items[j].isDir ==> items[i].isDir)
          && (items[i].isDir == items[j].isDir ==> !LexLess(ToLower(items[j].name), ToLower(items[i].name))))
    && (forall x | x in items :: Ordered(x.children))
  }

  /** Each row carries its folder's path and its own name, and only folders hold rows. */
  ghost predicate Nested(items: seq<Item>, prefix: string) {
    forall x | x in items ::
      && x.relPath == (if prefix == "" then x.name else prefix + "/" + x.name)
      && (!x.isDir ==> x.children == [])
      && Nested(x.children, x.relPath)
  }

  /** std::sort, up to the order of entries that compare equal. */
  function Insert(items: seq<Item>, x: Item): seq<Item> {
    if items == [] || Before(x, items[0]) then [x] + items
    else [items[0]] + Insert(items[1..], x)
  }

  lemma {:induction false} InsertAdds(items: seq<Item>, x: Item)
    ensures forall y :: y in Insert(items, x) <==> y in items || y == x
  {
    hide Before;
    if items != [] && !Before(x, items[0]) {
      InsertAdds(items[1..], x);
      assert items == [items[0]] + items[1..];
    }
  }

  lemma {:induction false} InsertCounts(items: seq<Item>, x: Item, row: Row)
    ensures Count(Insert(items, x), row) == Count(items, row) + Count([x], row)
  {
    hide Before;
    if items == [] {
      assert [x] + items == [x];
    } else if Before(x, items[0]) {
      CountAppend([x], items, row);
    } else {
      InsertCounts(items[1..], x, row);
      CountAppend([items[0]], Insert(items[1..], x), row);
      CountAppend([items[0]], items[1..], row);
      assert items == [items[0]] + items[1..];
    }
  }

  lemma {:induction false} InsertOrders(items: seq<Item>, x: Item)
    requires Ordered(items) && Ordered(x.children)
    ensures Ordered(Insert(items, x))
  {
    InsertAdds(items, x);
    if items != [] && Before(x, items[0]) {
      forall j | 0 <= j < |items|
        ensures items[j].isDir ==> x.isDir
        ensures items[j].isDir == x.isDir ==> !LexLess(ToLower(items[j].name), ToLower(x.name))
      {
        LexLessOrders(ToLower(x.name), ToLower(items[0].name), ToLower(items[j].name));
      }
    } else if items != [] {
      var later := Insert(items[1..], x);
      InsertOrders(items[1..], x);
      InsertAdds(items[1..], x);
      forall j | 0 <= j < |later|
        ensures later[j].isDir ==> items[0].isDir
        ensures later[j].isDir == items[0].isDir ==> !LexLess(ToLower(later[j].name), ToLower(items[0].name))
      {
        assert later[j] in later;
      }
    }
  }

  lemma InsertNests(items: seq<Item>, x: Item, prefix: string)
    requires Nested(items, prefix) && x.relPath == ChildRel(prefix, x.name)
    requires Nested(x.children, x.relPath) && (!x.isDir ==> x.children == [])
    ensures Nested(Insert(items, x), prefix)
  {
    InsertAdds(items, x);
  }

  lemma WalkStep(items: seq<Item>, item: Item, n: Node, pre: Path, done: set<string>, k: string)
    requires n.Dir? && WellNamed(n) && AllValid(pre) && k in n.children && k !in done
    requires Ordered(items) && Ordered(item.children) && Shows(items, ListedIn(n, pre, done))
    requires Shows([item], RowsOf(n, pre, k))
    ensures Ordered(Insert(items, item))
    ensures Shows(Insert(items, item), ListedIn(n, pre, done + {k}))
  {
    hide Ordered, Insert, Count, ListedIn, RowsOf;
    InsertOrders(items, item);
    RowsOfChild(n, pre, done, k);
    forall row
      ensures Count(Insert(items, item), row) == if row in ListedIn(n, pre, done + {k}) then 1 else 0
    {
      InsertCounts(items, item, row);
    }
  }

  lemma FolderItem(n: Node, pre: Path, k: string, inner: seq<Item>)
    requires n.Dir? && WellNamed(n) && AllValid(pre) && k in n.children && n.children[k].Dir?
    requires Shows(inner, ListedRows(n.children[k], pre + [k]))
    ensures Shows([Item(k, RelOf(pre + [k]), true, inner)], RowsOf(n, pre, k))
  {
    var child, rel := n.children[k], RelOf(pre + [k]);
    FolderRow(child, pre + [k]);
    hide ListedRows;
    var item := Item(k, rel, true, inner);
    forall row
      ensures Count([item], row) == (if row == (rel, true) then 1 else 0) + Count(inner, row)
    {
      assert [item][1..] == [];
    }
  }

  lemma FileItem(n: Node, pre: Path, k: string)
    requires n.Dir? && k in n.children && n.children[k].File? && !IsDotfile(k)
    ensures Shows([Item(k, RelOf(pre + [k]), false, [])], RowsOf(n, pre, k))
  {
    assert [Item(k, RelOf(pre + [k]), false, [])][1..] == [];
  }

  lemma AllListed(n: Node, pre: Path)
    requires n.Dir?
    ensures ListedIn(n, pre, {}) == {} && ListedIn(n, pre, n.children.Keys) == ListedRows(n, pre)
  {
    forall q | q in NodePaths(n) && Listed(n, q)
      ensures q[0] in n.children.Keys
    {
      NodePathsExact(n, q);
    }
  }

  lemma SkippedStep(n: Node, pre: Path, done: set<string>, k: string)
    requires n.Dir? && WellNamed(n) && AllValid(pre) && k in n.children && k !in done
    requires n.children[k].File? && IsDotfile(k)
    ensures ListedIn(n, pre, done + {k}) == ListedIn(n, pre, done)
  {
    RowsOfChild(n, pre, done, k);
  }

  /** The nested listing: exactly the listed entries, one row each, every level ordered. */
  method Walk(dir: Node, prefix: string, ghost pre: Path) returns (items: seq<Item>)
    requires dir.Dir? && WellNamed(dir) && AllValid(pre) && prefix == RelOf(pre)
    ensures Shows(items, ListedRows(dir, pre))
    ensures Ordered(items) && Nested(items, prefix)
    decreases dir
  {
    items := [];
    AllListed(dir, pre);
    assert Ordered([]) && Nested([], prefix);
    hide Ordered, Nested, Insert, Shows, ListedIn, ListedRows, RowsOf, RelOf, ChildRel, WellNamed, AllValid;
    var todo, done := dir.children.Keys, {};
    while todo != {}
      invariant todo !! done && todo + done == dir.children.Keys && Ordered(items) && Nested(items, prefix)
      invariant Shows(items, ListedIn(dir, pre, done))
      decreases todo
    {
      var name :| name in todo;
      var child := dir.children[name];
      var rel := ChildRel(prefix, name);
      EnterChild(dir, pre, name);
      if child.Dir? {
        var inner := Walk(child, rel, pre + [name]);
        var item := Item(name, rel, true, inner);
        FolderItem(dir, pre, name, inner);
        WalkStep(items, item, dir, pre, done, name);
        InsertNests(items, item, prefix);
        items := Insert(items, item);
      } else if IsDotfile(name) {
        SkippedStep(dir, pre, done, name);
      } else {
        var item := Item(name, rel, false, []);
        FileItem(dir, pre, name);
        WalkStep(items, item, dir, pre, done, name);
        InsertNests(items, item, prefix);
        items := Insert(items, item);
      }
      todo, done := todo - {name}, done + {name};
    }
  }

  /** A folder's own row is none of the rows inside it. */
  lemma FolderRow(n: Node, pre: Path)
    requires WellNamed(n) && AllValid(pre) && pre != []
    ensures (RelOf(pre), true) !in ListedRows(n, pre)
  {
    forall q | q in NodePaths(n) && Listed(n, q)
      ensures RelOf(pre + q) != RelOf(pre)
    {
      NodePathsExact(n, q);
      WellNamedLookup(n, q);
      assert |pre + q| > |pre|;
      if RelOf(pre + q) == RelOf(pre) {
        RelOfInjective(pre + q, pre);
      }
    }
  }

  /** Every folder is listed, and every file but those whose name starts with a dot, under its own key and kind. */
  lemma EntryIsListedIff(n: Node, pre: Path, q: Path)
    requires n.Dir? && WellNamed(n) && AllValid(pre) && q != [] && Lookup(n, q).Some?
    ensures (RelOf(pre + q), true) in ListedRows(n, pre) <==> IsDirAt(n, q)
    ensures (RelOf(pre + q), false) in ListedRows(n, pre) <==>
              !IsDirAt(n, q) && forall rest: string :: q[|q| - 1] != "." + rest
  {
    hide RelOf, WellNamed, AllValid, Lookup, NodePaths;
    var name := q[|q| - 1];
    assert IsDotfile(name) <==> exists rest: string :: name == "." + rest by {
      assert IsDotfile(name) ==> name == "." + name[1..];
    }
    NodePathsExact(n, q);
    forall p | p in NodePaths(n) && Listed(n, p) && RelOf(pre + p) == RelOf(pre + q)
      ensures p == q
    {
      if p != q {
        FileKeyDistinct(n, pre, p, q);
      }
    }
  }

  lemma BasenameOfRel(q: Path)
    requires ValidPath(q)
    ensures BasenameOf(RelOf(q)) == q[|q| - 1]
  {
    AfterLastIsLastPiece(RelOf(q), '/');
    SegmentsOfRel(q);
  }

  /** The two walks agree: the listing's files are the collector's, less those with a leading dot. */
  lemma WalksAgree(n: Node, pre: Path, rel: string)
    requires n.Dir? && WellNamed(n) && AllValid(pre)
    ensures (rel, false) in ListedRows(n, pre) <==> rel in FileRels(n, pre) && !IsDotfile(BasenameOf(rel))
  {
    hide NodePaths, RelOf, BasenameOf, IsDotfile, WellNamed;
    forall q | q in NodePaths(n) && q != []
      ensures BasenameOf(RelOf(pre + q)) == q[|q| - 1]
    {
      NodePathsExact(n, q);
      WellNamedLookup(n, q);
      BasenameOfRel(pre + q);
    }
    forall q | q in FilePaths(n)
      ensures q != []
    {
      FilePathsExact(n, q);
    }
    if (rel, false) in ListedRows(n, pre) {
      var q :| q in NodePaths(n) && Listed(n, q) && (rel, false) == (RelOf(pre + q), IsDirAt(n, q));
      assert q in FilePaths(n);
    }
    if rel in FileRels(n, pre) && !IsDotfile(BasenameOf(rel)) {
      var q :| q in FilePaths(n) && rel == RelOf(pre + q);
      assert Listed(n, q) && !IsDirAt(n, q);
    }
  }
}
