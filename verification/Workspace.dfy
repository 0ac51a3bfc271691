/** One account's workspace: the tree on disk, the tombstone table, and the handlers of src/workspace.cpp. */
module Workspace {
  import opened Wrappers
  import opened Text
  import opened Paths
  import opened FileTree
  import opened Listing

  /** `absentIsError`: whether asking the kind of a missing path also reports an error, as some C++ libraries do. */
  datatype Config = Config(quota: nat, maxFileBytes: nat, absentIsError: bool)

  datatype Account = Account(tree: Node, deleted: map<string, int>)

  /** OverwriteShared is the write of src/share.cpp, after the permission checks. */
  datatype Request =
    | PutFile(path: string, size: nat)
    | OverwriteShared(path: string, size: nat)
    | CreateFolder(path: string)
    | Delete(path: string, isDir: bool)
    | Move(from: string, to: string)

  /** Done carries what the hub is told: the changed paths, or [] for "look at everything". */
  datatype Reply = Done(notify: seq<string>) | BadRequest | NotFound | Internal

  // ---- What each handler does to the account ----

  /** fCheckQuota, with the unsigned 64-bit arithmetic of the source. */
  ghost predicate QuotaRefuses(c: Config, tree: Node, p: Path, incoming: nat) {
    var existing := ExistingLen(tree, p);
    && c.quota != 0
    && !StatFails(c, tree, p)
    && incoming > existing
    && (Total(tree) - existing + incoming) % U64 > c.quota
  }

  function ExistingLen(tree: Node, p: Path): nat {
    var f := FileAt(tree, p);
    if f.Some? then f.value else 0
  }

  predicate StatFails(c: Config, tree: Node, p: Path) {
    c.absentIsError && Lookup(tree, p).None?
  }

  ghost function AfterWrite(a: Account, p: Path, size: nat): (Account, bool)
    requires p != []
  {
    var written := WriteFile(a.tree, p, size);
    if written.Some? then (a.(tree := written.value), true)
    else (a.(tree := TryMkDirs(a.tree, Parent(p))), false)
  }

  ghost function AfterPut(c: Config, a: Account, path: string, size: nat): (Account, Reply) {
    var rel := SafeRel(path);
    if rel.None? then (a, BadRequest)
    else
      var p := Segments(rel.value);
      if size > c.maxFileBytes || QuotaRefuses(c, a.tree, p, size) then (a, BadRequest)
      else
        var (b, ok) := AfterWrite(a, p, size);
        if !ok then (b, Internal)
        else (b.(deleted := b.deleted - {rel.value}), Done([rel.value]))
  }

  ghost function AfterOverwrite(c: Config, a: Account, path: string, size: nat): (Account, Reply) {
    var rel := SafeRel(path);
    if rel.None? then (a, BadRequest)
    else
      var p := Segments(rel.value);
      if FileAt(a.tree, p).None? then (a, NotFound)
      else if QuotaRefuses(c, a.tree, p, size) then (a, BadRequest)
      else
        var (b, ok) := AfterWrite(a, p, size);
        if !ok then (b, Internal) else (b, Done([path]))
  }

  function AfterCreateFolder(a: Account, path: string): (Account, Reply) {
    var rel := SafeRel(path);
    if rel.None? then (a, BadRequest)
    else
      var made := MkDirs(a.tree, Segments(rel.value));
      if made.None? then (a, Internal) else (a.(tree := made.value), Done([]))
  }

  /** The keys a folder operation collects at `p`: nothing unless `p` is a folder. */
  function Collected(tree: Node, p: Path): set<string> {
    if IsDirAt(tree, p) then FileRels(Lookup(tree, p).value, p) else {}
  }

  function Tombstoned(deleted: map<string, int>, keys: set<string>, now: int): map<string, int> {
    map k | k in deleted.Keys + keys :: if k in keys then now else deleted[k]
  }

  function AfterDelete(a: Account, path: string, isDir: bool, now: int): (Account, Reply) {
    var rel := SafeRel(path);
    if rel.None? then (a, BadRequest)
    else
      var p := Segments(rel.value);
      var left := if isDir then RemoveAll(a.tree, p) else RemoveOne(a.tree, p);
      if left.None? then (a, NotFound)
      else if isDir then
        (Account(left.value, Tombstoned(a.deleted, Collected(a.tree, p), now)), Done([]))
      else
        (Account(left.value, Tombstoned(a.deleted, {rel.value}, now)), Done([rel.value]))
  }

  function MovedKeys(tree: Node, from: string): set<string> {
    var p := Segments(from);
    if IsDirAt(tree, p) then Collected(tree, p) else {from}
  }

  /** The key a moved file ends up under; the source cuts the old prefix off the string. */
  function MovedTo(from: string, to: string, key: string): string
    requires |from| <= |key|
  {
    to + key[|from|..]
  }

  function AfterMove(a: Account, fromPath: string, toPath: string, now: int): (Account, Reply) {
    var fromRel, toRel := SafeRel(fromPath), SafeRel(toPath);
    if fromRel.None? || toRel.None? then (a, BadRequest)
    else
      var from, to := Segments(fromRel.value), Segments(toRel.value);
      var made := TryMkDirs(a.tree, Parent(to));
      var renamed := Rename(made, from, to);
      if renamed.None? then (a.(tree := made), NotFound)
      else
        var keys := MovedKeys(a.tree, fromRel.value);
        var cleared := set k | k in keys && |fromRel.value| <= |k| :: MovedTo(fromRel.value, toRel.value, k);
        (Account(renamed.value, Tombstoned(a.deleted, keys, now) - cleared),
         Done(if IsDirAt(a.tree, from) then [] else [fromRel.value, toRel.value]))
  }

  ghost function Handle(c: Config, a: Account, r: Request, now: int): (Account, Reply) {
    match r
    case PutFile(path, size) => AfterPut(c, a, path, size)
    case OverwriteShared(path, size) => AfterOverwrite(c, a, path, size)
    case CreateFolder(path) => AfterCreateFolder(a, path)
    case Delete(path, isDir) => AfterDelete(a, path, isDir, now)
    case Move(from, to) => AfterMove(a, from, to, now)
  }

  // ---- Facts about the moved keys ----

  lemma CollectedKey(tree: Node, p: Path, key: string)
    requires WellNamed(tree) && ValidPath(p) && IsDirAt(tree, p)
    ensures key in Collected(tree, p) <==>
              exists q :: FileAt(tree, p + q).Some? && q != [] && AllValid(q) && key == RelOf(p + q)
  {
    var dir := Lookup(tree, p).value;
    WellNamedLookup(tree, p);
    if key in Collected(tree, p) {
      var q :| q in FilePaths(dir) && key == RelOf(p + q);
      FilePathsExact(dir, q);
      WellNamedLookup(dir, q);
      LookupAppend(tree, p, q);
    }
    forall q | FileAt(tree, p + q).Some?
      ensures q in FilePaths(dir)
    {
      FilePathsExact(dir, q);
      LookupAppend(tree, p, q);
    }
  }

  lemma MovedKeyPath(p: Path, q: Path, to: Path)
    requires ValidPath(p) && ValidPath(to) && AllValid(q)
    ensures |RelOf(p)| <= |RelOf(p + q)|
    ensures MovedTo(RelOf(p), RelOf(to), RelOf(p + q)) == RelOf(to + q)
    ensures ValidPath(p + q) && ValidPath(to + q)
  {
    if q == [] {
      assert p + q == p && to + q == to;
    } else {
      JoinAcross(p, q, '/');
      JoinAcross(to, q, '/');
    }
  }

  // ---- The handlers ----

  class Workspace {
    const config: Config
    var tree: Node
    var deleted: map<string, int>

    predicate Valid()
      reads this
    {
      tree.Dir? && WellNamed(tree)
    }

    function State(): Account
      reads this
    {
      Account(tree, deleted)
    }

    constructor (config: Config)
      ensures Valid() && this.config == config && State() == Account(EMPTY_DIR, map[])
    {
      this.config := config;
      tree, deleted := EMPTY_DIR, map[];
    }

    /** fDirSizeBytes: an unsigned running total over every regular file. */
    static method DirSizeBytes(n: Node) returns (total: nat)
      ensures total == Total(n) % U64
      decreases n
    {
      if n.File? {
        return n.size % U64;
      }
      total := 0;
      var todo, done := n.children.Keys, {};
      while todo != {}
        invariant todo !! done && todo + done == n.children.Keys
        invariant total == SumOver(n, done) % U64
        decreases todo
      {
        var name :| name in todo;
        var part := DirSizeBytes(n.children[name]);
        SumOverTake(n, done + {name}, name);
        assert done + {name} - {name} == done;
        AddMod(SumOver(n, done), Total(n.children[name]));
        total := (total + part) % U64;
        todo, done := todo - {name}, done + {name};
      }
    }

    method QuotaAllows(p: Path, incoming: nat) returns (ok: bool)
      ensures ok == !QuotaRefuses(config, tree, p, incoming)
    {
      var existing := ExistingLen(tree, p);
      if config.quota == 0 || StatFails(config, tree, p) || incoming <= existing {
        return true;
      }
      var total := DirSizeBytes(tree);
      AddMod(Total(tree), incoming - existing);
      ok := (total - existing + incoming) % U64 <= config.quota;
    }

    /** fWriteFileAtomic: make the parents, then replace what is at `p`. */
    method WriteAtomic(p: Path, size: nat) returns (ok: bool)
      requires Valid() && ValidPath(p)
      modifies this`tree
      ensures Valid() && (State(), ok) == AfterWrite(old(State()), p, size)
    {
      AllValidPrefix(p, |p| - 1);
      WellNamedMkDirs(tree, Parent(p));
      MkDirsKeepsRoot(tree, Parent(p));
      tree := TryMkDirs(tree, Parent(p));
      var there := Lookup(tree, p);
      ok := CanHold(tree, p) && (there.None? || there.value.File? || there.value.children == map[]);
      if ok {
        WellNamedPut(tree, p, File(size));
        tree := Put(tree, p, File(size));
      }
    }

    method PutFile(path: string, size: nat) returns (reply: Reply)
      requires Valid()
      modifies this
      ensures Valid() && (State(), reply) == AfterPut(config, old(State()), path, size)
    {
      var rel := SafeRelPath(path);
      if rel.None? {
        return BadRequest;
      }
      SafeRelIsCanonical(path);
      if size > config.maxFileBytes {
        return BadRequest;
      }
      var allowed := QuotaAllows(Segments(rel.value), size);
      if !allowed {
        return BadRequest;
      }
      var ok := WriteAtomic(Segments(rel.value), size);
      if !ok {
        return Internal;
      }
      deleted := deleted - {rel.value};
      return Done([rel.value]);
    }

    method OverwriteShared(path: string, size: nat) returns (reply: Reply)
      requires Valid()
      modifies this
      ensures Valid() && (State(), reply) == AfterOverwrite(config, old(State()), path, size)
    {
      var rel := SafeRelPath(path);
      if rel.None? {
        return BadRequest;
      }
      SafeRelIsCanonical(path);
      if FileAt(tree, Segments(rel.value)).None? {
        return NotFound;
      }
      var allowed := QuotaAllows(Segments(rel.value), size);
      if !allowed {
        return BadRequest;
      }
      var ok := WriteAtomic(Segments(rel.value), size);
      return if ok then Done([path]) else Internal;
    }

    method CreateFolder(path: string) returns (reply: Reply)
      requires Valid()
      modifies this
      ensures Valid() && (State(), reply) == AfterCreateFolder(old(State()), path)
    {
      var rel := SafeRelPath(path);
      if rel.None? {
        return BadRequest;
      }
      SafeRelIsCanonical(path);
      var made := MkDirs(tree, Segments(rel.value));
      if made.None? {
        return Internal;
      }
      WellNamedMkDirs(tree, Segments(rel.value));
      MkDirsKeepsRoot(tree, Segments(rel.value));
      tree := made.value;
      return Done([]);
    }

    /** The keys fCollectFilesUnder yields at `p`, in some order and each once. */
    method CollectAt(rel: string, p: Path) returns (keys: seq<string>)
      requires Valid() && ValidPath(p) && rel == RelOf(p)
      ensures multiset(keys) == multiset(Collected(tree, p))
    {
      keys := [];
      if Lookup(tree, p).Some? {
        WellNamedLookup(tree, p);
        keys := CollectFilesUnder(Lookup(tree, p).value, rel, [], p);
      }
    }

    method DeleteEntry(path: string, isDir: bool, now: int) returns (reply: Reply)
      requires Valid()
      modifies this
      ensures Valid() && (State(), reply) == AfterDelete(old(State()), path, isDir, now)
    {
      var rel := SafeRelPath(path);
      if rel.None? {
        return BadRequest;
      }
      SafeRelIsCanonical(path);
      RelOfSegments(rel.value);
      var p := Segments(rel.value);
      WellNamedRemove(tree, p);
      if isDir {
        var inside := CollectAt(rel.value, p);
        var left := RemoveAll(tree, p);
        if left.None? {
          return NotFound;
        }
        ghost var keys := Collected(tree, p);
        SameMembers(inside, keys);
        tree := left.value;
        RecordTombstones(inside, now);
        return Done([]);
      } else {
        var left := RemoveOne(tree, p);
        if left.None? {
          return NotFound;
        }
        tree := left.value;
        RecordTombstones([rel.value], now);
        assert Members([rel.value]) == {rel.value};
        return Done([rel.value]);
      }
    }

    method RecordTombstones(keys: seq<string>, now: int)
      modifies this`deleted
      ensures deleted == Tombstoned(old(deleted), Members(keys), now)
    {
      hide Members, Tombstoned;
      NothingTombstoned(deleted, now);
      for i := 0 to |keys|
        invariant deleted == Tombstoned(old(deleted), Members(keys[..i]), now)
      {
        MembersSnoc(keys, i);
        ClearAndRecord(old(deleted), Members(keys[..i]), {}, keys[i], now);
        deleted := deleted[keys[i] := now];
      }
      assert keys[..|keys|] == keys;
    }

    method MoveEntry(fromPath: string, toPath: string, now: int) returns (reply: Reply)
      requires Valid()
      modifies this
      ensures Valid() && (State(), reply) == AfterMove(old(State()), fromPath, toPath, now)
    {
      var fromRel := SafeRelPath(fromPath);
      var toRel := SafeRelPath(toPath);
      if fromRel.None? || toRel.None? {
        return BadRequest;
      }
      var from, to := fromRel.value, toRel.value;
      SafeRelIsCanonical(fromPath);
      SafeRelIsCanonical(toPath);
      RelOfSegments(from);
      RelOfSegments(to);
      var p, q := Segments(from), Segments(to);

      var moved := [from];
      var wasDir := IsDirAt(tree, p);
      if wasDir {
        moved := CollectAt(from, p);
      }
      ghost var keys := MovedKeys(tree, from);
      SameMembers(moved, keys);

      AllValidPrefix(q, |q| - 1);
      WellNamedMkDirs(tree, Parent(q));
      MkDirsKeepsRoot(tree, Parent(q));
      tree := TryMkDirs(tree, Parent(q));
      var renamed := Rename(tree, p, q);
      if renamed.None? {
        return NotFound;
      }
      MovedKeysApart(old(tree), from, to);
      RenameKeepsNames(tree, p, q);
      tree := renamed.value;
      MoveTombstones(moved, keys, from, to, now);
      return Done(if wasDir then [] else [from, to]);
    }

    /** The loop of the move handler, which alternates recording and clearing. */
    method MoveTombstones(moved: seq<string>, ghost keys: set<string>, from: string, to: string, now: int)
      requires multiset(moved) == multiset(keys) && Members(moved) == keys
      requires forall k | k in keys :: |from| <= |k|
      requires from == to || forall k, m | k in keys && m in keys :: k != MovedTo(from, to, m)
      requires from == to ==> forall k | k in keys :: MovedTo(from, to, k) == k
      modifies this`deleted
      ensures deleted ==
              Tombstoned(old(deleted), keys, now) - (set k | k in keys && |from| <= |k| :: MovedTo(from, to, k))
    {
      assert Destinations(moved, from, to) == set k | k in keys && |from| <= |k| :: MovedTo(from, to, k);
      hide Members, Tombstoned, Destinations;
      NothingTombstoned(deleted, now);
      for i := 0 to |moved|
        invariant deleted == Tombstoned(old(deleted), Members(moved[..i]), now) - Destinations(moved[..i], from, to)
      {
        MembersSnoc(moved, i);
        assert moved[i] in Members(moved);
        var dest := MovedTo(from, to, moved[i]);
        DestinationsSnoc(moved, i, from, to);
        NotYetCleared(moved, keys, i, from, to);
        ClearAndRecord(old(deleted), Members(moved[..i]), Destinations(moved[..i], from, to), moved[i], now);
        deleted := deleted[moved[i] := now];
        deleted := deleted - {dest};
      }
      assert moved[..|moved|] == moved;
    }
  }

  // ---- Small facts the handlers use ----

  lemma AddMod(a: nat, b: nat)
    ensures (a % U64 + b % U64) % U64 == (a + b) % U64
    ensures (a % U64 + b) % U64 == (a + b) % U64
  {
  }

  lemma AllValidPrefix(p: Path, i: nat)
    requires AllValid(p) && i <= |p|
    ensures AllValid(p[..i])
  {
    assert forall k | k in p[..i] :: k in p;
  }

  lemma MkDirsKeepsRoot(n: Node, p: Path)
    requires n.Dir?
    ensures TryMkDirs(n, p).Dir?
  {
  }

  lemma RenameKeepsNames(n: Node, from: Path, to: Path)
    requires n.Dir? && WellNamed(n) && ValidPath(from) && ValidPath(to) && Rename(n, from, to).Some?
    ensures Rename(n, from, to).value.Dir? && WellNamed(Rename(n, from, to).value)
  {
    if from != to {
      RemoveKeepsRoom(n, from, to);
      WellNamedRemove(n, from);
      WellNamedLookup(n, from);
      WellNamedPut(Remove(n, from), to, Lookup(n, from).value);
    }
  }

  function Members(s: seq<string>): set<string> {
    set k | k in s
  }

  lemma SameMembers(s: seq<string>, keys: set<string>)
    requires multiset(s) == multiset(keys)
    ensures Members(s) == keys
  {
    forall k
      ensures k in s <==> k in keys
    {
      assert k in s <==> k in multiset(s);
    }
  }

  lemma MembersSnoc(s: seq<string>, i: nat)
    requires i < |s|
    ensures Members(s[..i + 1]) == Members(s[..i]) + {s[i]}
  {
    assert s[..i + 1] == s[..i] + [s[i]];
  }

  lemma NothingTombstoned(deleted: map<string, int>, now: int)
    ensures Tombstoned(deleted, Members([]), now) == deleted
    ensures forall from, to :: Tombstoned(deleted, Members([]), now) - Destinations([], from, to) == deleted
  {
  }

  lemma ClearAndRecord(deleted: map<string, int>, keys: set<string>, cleared: set<string>, k: string, now: int)
    requires k !in cleared
    ensures (Tombstoned(deleted, keys, now) - cleared)[k := now] == Tombstoned(deleted, keys + {k}, now) - cleared
    ensures Tombstoned(deleted, keys, now) - {} == Tombstoned(deleted, keys, now)
    ensures Tombstoned(deleted, keys + {k}, now) - {} == Tombstoned(deleted, keys + {k}, now)
    ensures forall d :: Tombstoned(deleted, keys + {k}, now) - cleared - {d} ==
                        Tombstoned(deleted, keys + {k}, now) - (cleared + {d})
  {
  }

  lemma NotYetCleared(moved: seq<string>, keys: set<string>, i: nat, from: string, to: string)
    requires multiset(moved) == multiset(keys) && Members(moved) == keys && i < |moved|
    requires forall k | k in keys :: |from| <= |k|
    requires from == to || forall k, m | k in keys && m in keys :: k != MovedTo(from, to, m)
    requires from == to ==> forall k | k in keys :: MovedTo(from, to, k) == k
    ensures moved[i] !in Destinations(moved[..i], from, to)
  {
    DistinctMembers(moved, keys, i);
    assert forall k | k in moved[..i] :: k in Members(moved);
    assert moved[i] in Members(moved);
  }

  lemma DistinctMembers(s: seq<string>, keys: set<string>, i: nat)
    requires multiset(s) == multiset(keys) && i < |s|
    ensures s[i] !in Members(s[..i])
  {
    assert s == s[..i] + [s[i]] + s[i + 1..];
    assert multiset(s)[s[i]] <= 1;
  }

  function Destinations(s: seq<string>, from: string, to: string): set<string> {
    set k | k in s && |from| <= |k| :: MovedTo(from, to, k)
  }

  lemma DestinationsSnoc(s: seq<string>, i: nat, from: string, to: string)
    requires i < |s| && |from| <= |s[i]|
    ensures Destinations(s[..i + 1], from, to) == Destinations(s[..i], from, to) + {MovedTo(from, to, s[i])}
  {
    assert s[..i + 1] == s[..i] + [s[i]];
  }

  lemma MovedKeyShape(tree: Node, from: string, key: string) returns (r: Path)
    requires WellNamed(tree) && Canonical(from) && key in MovedKeys(tree, from)
    ensures AllValid(r) && key == RelOf(Segments(from) + r)
  {
    var p := Segments(from);
    RelOfSegments(from);
    if IsDirAt(tree, p) {
      CollectedKey(tree, p, key);
      r :| AllValid(r) && key == RelOf(p + r);
    } else {
      r := [];
      assert p + r == p;
    }
  }

  lemma IncomparableStayApart(p: Path, q: Path, r: Path, t: Path)
    requires !(p <= q) && !(q <= p)
    ensures p + r != q + t
  {
    if p + r == q + t {
      PrefixesCompare(p, q, r, t);
    }
  }

  lemma PrefixesCompare(p: Path, q: Path, r: Path, t: Path)
    requires p + r == q + t
    ensures p <= q || q <= p
  {
    if |p| <= |q| {
      assert p == (p + r)[..|p|] == (q + t)[..|p|] == q[..|p|];
    } else {
      assert q == (q + t)[..|q|] == (p + r)[..|q|] == p[..|q|];
    }
  }

  /** Whenever the rename succeeds, the recorded and the cleared keys are the same or disjoint. */
  lemma MovedKeysApart(tree: Node, from: string, to: string)
    requires WellNamed(tree) && Canonical(from) && Canonical(to)
    requires Rename(TryMkDirs(tree, Parent(Segments(to))), Segments(from), Segments(to)).Some?
    ensures forall k | k in MovedKeys(tree, from) :: |from| <= |k|
    ensures from == to ==> forall k | k in MovedKeys(tree, from) :: MovedTo(from, to, k) == k
    ensures from == to ||
            forall k, m | k in MovedKeys(tree, from) && m in MovedKeys(tree, from) :: k != MovedTo(from, to, m)
  {
    var p, q := Segments(from), Segments(to);
    RelOfSegments(from);
    RelOfSegments(to);
    RenameFiles(TryMkDirs(tree, Parent(q)), p, q, p);
    hide MovedKeys, RelOf, Rename, Segments, TryMkDirs;
    forall k | k in MovedKeys(tree, from)
      ensures |from| <= |k|
      ensures from == to ==> MovedTo(from, to, k) == k
    {
      var r := MovedKeyShape(tree, from, k);
      MovedKeyPath(p, r, q);
    }
    forall k, m | k in MovedKeys(tree, from) && m in MovedKeys(tree, from) && from != to
      ensures k != MovedTo(from, to, m)
    {
      var r := MovedKeyShape(tree, from, k);
      var t := MovedKeyShape(tree, from, m);
      MovedKeyPath(p, r, q);
      MovedKeyPath(p, t, q);
      if k == MovedTo(from, to, m) {
        RelOfInjective(p + r, q + t);
        IncomparableStayApart(p, q, r, t);
      }
    }
  }
}
