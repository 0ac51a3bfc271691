/** Shares, links and the access they resolve to: the tables and checks of src/share.cpp. */
module Shares {
  import opened Wrappers
  import opened Text
  import opened Paths
  import opened FileTree
  import opened Workspace
  import Hub

  datatype Perm = View | Comment | Edit

  datatype ShareRow = ShareRow(owner: string, grantee: string, relPath: string, isDir: bool, permission: Perm)

  datatype LinkRow = LinkRow(owner: string, relPath: string, isDir: bool, permission: Perm)

  /** Whose workspace, which path inside it, at what level. */
  datatype Access = Access(owner: string, relPath: string, isDir: bool, permission: Perm)

  datatype Error = BadInput | Missing | Forbidden

  datatype Result<+T> = Ok(value: T) | Err(error: Error)

  // ---- The tables ----

  predicate SameKey(r: ShareRow, s: ShareRow) {
    r.owner == s.owner && r.grantee == s.grantee && r.relPath == s.relPath
  }

  /** UNIQUE (owner_id, grantee_id, rel_path). */
  ghost predicate UniqueKeys(shares: map<string, ShareRow>) {
    forall i, j | i in shares && j in shares && i != j ::
      || shares[i].owner != shares[j].owner || shares[i].grantee != shares[j].grantee
      || shares[i].relPath != shares[j].relPath
  }

  ghost predicate TablesOk(shares: map<string, ShareRow>, links: map<string, LinkRow>) {
    && UniqueKeys(shares)
    && (forall i | i in shares :: Canonical(shares[i].relPath))
    && (forall i | i in links :: Canonical(links[i].relPath))
  }

  /** INSERT ... ON CONFLICT DO UPDATE: the row that already has the key keeps its id. */
  ghost function Upserted(shares: map<string, ShareRow>, freshId: string, row: ShareRow)
    : (map<string, ShareRow>, string)
  {
    if i :| i in shares && SameKey(shares[i], row) then
      (shares[i := shares[i].(permission := row.permission, isDir := row.isDir)], i)
    else (shares[freshId := row], freshId)
  }

  lemma UpsertKeepsKeys(shares: map<string, ShareRow>, freshId: string, row: ShareRow)
    requires UniqueKeys(shares) && freshId !in shares
    ensures var (after, id) := Upserted(shares, freshId, row);
            && UniqueKeys(after) && id in after && after[id] == row
            && (id in shares ==>
                  && shares[id].owner == row.owner && shares[id].grantee == row.grantee
                  && shares[id].relPath == row.relPath)
            && (id !in shares ==> id == freshId)
            && (forall i | i != id :: i in after <==> i in shares)
            && (forall i | i in shares && i != id :: after[i] == shares[i])
  {
  }

  predicate EntryExists(tree: Node, rel: string, isDir: bool) {
    if isDir then IsDirAt(tree, Segments(rel)) else FileAt(tree, Segments(rel)).Some?
  }

  class ShareStore {
    var shares: map<string, ShareRow>
    var links: map<string, LinkRow>

    ghost predicate Valid()
      reads this
    {
      TablesOk(shares, links)
    }

    constructor ()
      ensures Valid() && shares == map[] && links == map[]
    {
      shares, links := map[], map[];
    }

    /** The id of the row with this key, as the handler reads it back. */
    method FindRow(row: ShareRow) returns (found: Option<string>)
      ensures found.None? ==> forall i | i in shares :: !SameKey(shares[i], row)
      ensures found.Some? ==> found.value in shares && SameKey(shares[found.value], row)
    {
      var todo := shares.Keys;
      while todo != {}
        invariant todo <= shares.Keys
        invariant forall i | i in shares && i !in todo :: !SameKey(shares[i], row)
        decreases todo
      {
        var i :| i in todo;
        if SameKey(shares[i], row) {
          return Some(i);
        }
        todo := todo - {i};
      }
      return None;
    }

    /** Creating a share: `grantee` is None when no account has the address, `perm` when the word is not a level. */
    method CreateShare(owner: string, grantee: Option<string>, path: string, isDir: bool, perm: Option<Perm>,
                       tree: Node, freshId: string) returns (r: Result<string>)
      requires Valid() && freshId !in shares
      modifies this`shares
      ensures Valid()
      ensures r.Ok? <==>
                && perm.Some? && SafeRel(path).Some?
                && (isDir ==> IsDirAt(tree, Segments(SafeRel(path).value)))
                && (!isDir ==> FileAt(tree, Segments(SafeRel(path).value)).Some?)
                && grantee.Some? && grantee.value != owner
      ensures r.Ok? ==>
                var row := ShareRow(owner, grantee.value, SafeRel(path).value, isDir, perm.value);
                (shares, r.value) == Upserted(old(shares), freshId, row)
      ensures r.Err? ==> r.error == BadInput && shares == old(shares)
    {
      if perm.None? {
        return Err(BadInput);
      }
      var rel := SafeRelPath(path);
      if rel.None? || !EntryExists(tree, rel.value, isDir) {
        return Err(BadInput);
      }
      if grantee.None? || grantee.value == owner {
        return Err(BadInput);
      }
      SafeRelIsCanonical(path);
      var row := ShareRow(owner, grantee.value, rel.value, isDir, perm.value);
      UpsertKeepsKeys(shares, freshId, row);
      var found := FindRow(row);
      if found.Some? {
        shares := shares[found.value := shares[found.value].(permission := row.permission, isDir := row.isDir)];
        return Ok(found.value);
      }
      shares := shares[freshId := row];
      return Ok(freshId);
    }

    /** Either side can end a share. */
    method EndShare(user: string, id: string) returns (r: Result<()>)
      requires Valid()
      modifies this`shares
      ensures Valid()
      ensures r.Ok? <==> id in old(shares) && (old(shares)[id].owner == user || old(shares)[id].grantee == user)
      ensures shares == if r.Ok? then old(shares) - {id} else old(shares)
    {
      if id !in shares || (shares[id].owner != user && shares[id].grantee != user) {
        return Err(Missing);
      }
      shares := shares - {id};
      return Ok(());
    }

    /** Creating a link: the row id is the token. */
    method CreateLink(owner: string, path: string, isDir: bool, perm: Option<Perm>, tree: Node, token: string)
      returns (r: Result<string>)
      requires Valid() && token !in links
      modifies this`links
      ensures Valid()
      ensures r.Ok? <==>
                && perm.Some? && SafeRel(path).Some?
                && (isDir ==> IsDirAt(tree, Segments(SafeRel(path).value)))
                && (!isDir ==> FileAt(tree, Segments(SafeRel(path).value)).Some?)
      ensures r == if r.Ok? then Ok(token) else Err(BadInput)
      ensures links ==
              if r.Ok? then old(links)[token := LinkRow(owner, SafeRel(path).value, isDir, perm.value)] else old(links)
    {
      if perm.None? {
        return Err(BadInput);
      }
      var rel := SafeRelPath(path);
      if rel.None? || !EntryExists(tree, rel.value, isDir) {
        return Err(BadInput);
      }
      SafeRelIsCanonical(path);
      links := links[token := LinkRow(owner, rel.value, isDir, perm.value)];
      return Ok(token);
    }

    method EndLink(user: string, token: string) returns (r: Result<()>)
      requires Valid()
      modifies this`links
      ensures Valid()
      ensures r.Ok? <==> token in old(links) && old(links)[token].owner == user
      ensures links == if r.Ok? then old(links) - {token} else old(links)
    {
      if token !in links || links[token].owner != user {
        return Err(Missing);
      }
      links := links - {token};
      return Ok(());
    }
  }

  // ---- Resolving access ----

  function EffectivePath(root: string, isDir: bool, subPath: string): Result<string> {
    if subPath == "" then Ok(root)
    else if !isDir then Err(BadInput)
    else
      var sub := SafeRel(subPath);
      if sub.None? then Err(BadInput) else Ok(root + "/" + sub.value)
  }

  function ResolveShare(shares: map<string, ShareRow>, user: string, id: string, subPath: string): Result<Access> {
    if id !in shares || shares[id].grantee != user then Err(Missing)
    else
      var row := shares[id];
      var path := EffectivePath(row.relPath, row.isDir, subPath);
      if path.Err? then Err(path.error) else Ok(Access(row.owner, path.value, row.isDir, row.permission))
  }

  function ResolveLink(links: map<string, LinkRow>, token: string, subPath: string): Result<Access> {
    if token !in links then Err(Missing)
    else
      var row := links[token];
      var path := EffectivePath(row.relPath, row.isDir, subPath);
      if path.Err? then Err(path.error) else Ok(Access(row.owner, path.value, row.isDir, row.permission))
  }

  /** fResolveWatch: a link needs no account, a share needs one; anything thrown on the way refuses the watch. */
  function ResolveWatch(shares: map<string, ShareRow>, links: map<string, LinkRow>, user: string,
                        request: Hub.WatchRequest): Option<Hub.Watch>
  {
    var access :=
      if request.link != "" then ResolveLink(links, request.link, request.path)
      else if request.share != "" && user != "" then ResolveShare(shares, user, request.share, request.path)
      else Err(Missing);
    if access.Err? then None else Some(Hub.Watch(access.value.owner, access.value.relPath))
  }

  /** The effective path is canonical and at or under the root, so validating it once more changes nothing. */
  lemma EffectiveIsUnderRoot(root: string, isDir: bool, subPath: string)
    requires Canonical(root) && EffectivePath(root, isDir, subPath).Ok?
    ensures var path := EffectivePath(root, isDir, subPath).value;
            && Canonical(path) && Segments(root) <= Segments(path)
            && SafeRel(path) == Some(path)
            && (!isDir ==> path == root)
            && (subPath != "" ==> Segments(path) == Segments(root) + Segments(SafeRel(subPath).value))
  {
    if subPath != "" {
      SafeRelIsCanonical(subPath);
      CanonicalCompose(root, SafeRel(subPath).value);
    }
    CanonicalIffFixed(EffectivePath(root, isDir, subPath).value);
  }

  /** A sub path is taken only under a folder, and names what lies that far below the root. */
  ghost predicate Reaches(access: Access, owner: string, root: string, isDir: bool, permission: Perm, subPath: string) {
    && access.owner == owner && access.isDir == isDir && access.permission == permission
    && Canonical(access.relPath)
    && (subPath == "" || SafeRel(subPath).Some?)
    && Segments(access.relPath) ==
         Segments(root) + if subPath == "" then [] else Segments(SafeRel(subPath).value)
  }

  /** A share resolves for its grantee alone, and a bad sub path is told from a share that is not theirs. */
  lemma ShareResolvesIff(shares: map<string, ShareRow>, user: string, id: string, subPath: string)
    requires TablesOk(shares, map[])
    ensures var r := ResolveShare(shares, user, id, subPath);
            if id !in shares || shares[id].grantee != user then r == Err(Missing)
            else
              var row := shares[id];
              if subPath != "" && (!row.isDir || SafeRel(subPath).None?) then r == Err(BadInput)
              else r.Ok? && Reaches(r.value, row.owner, row.relPath, row.isDir, row.permission, subPath)
  {
    if id in shares && EffectivePath(shares[id].relPath, shares[id].isDir, subPath).Ok? {
      EffectiveIsUnderRoot(shares[id].relPath, shares[id].isDir, subPath);
    }
  }

  /** A link resolves for anyone who has its token. */
  lemma LinkResolvesIff(links: map<string, LinkRow>, token: string, subPath: string)
    requires TablesOk(map[], links)
    ensures var r := ResolveLink(links, token, subPath);
            if token !in links then r == Err(Missing)
            else
              var row := links[token];
              if subPath != "" && (!row.isDir || SafeRel(subPath).None?) then r == Err(BadInput)
              else r.Ok? && Reaches(r.value, row.owner, row.relPath, row.isDir, row.permission, subPath)
  {
    if token in links && EffectivePath(links[token].relPath, links[token].isDir, subPath).Ok? {
      EffectiveIsUnderRoot(links[token].relPath, links[token].isDir, subPath);
    }
  }

  /** What a share or link hands out: a file or folder of its owner's workspace, at a level. */
  datatype Entry = Entry(owner: string, root: string, isDir: bool, permission: Perm)

  function OfShare(row: ShareRow): Entry {
    Entry(row.owner, row.relPath, row.isDir, row.permission)
  }

  function OfLink(row: LinkRow): Entry {
    Entry(row.owner, row.relPath, row.isDir, row.permission)
  }

  /** The very entry a watch request names: the link with that token, or the share with that id made to this user. */
  function NamedEntry(shares: map<string, ShareRow>, links: map<string, LinkRow>, user: string,
                      request: Hub.WatchRequest): Option<Entry>
  {
    if request.link != "" then
      if request.link in links then Some(OfLink(links[request.link])) else None
    else if request.share != "" && user != "" && request.share in shares && shares[request.share].grantee == user then
      Some(OfShare(shares[request.share]))
    else None
  }

  /** A watch is accepted exactly on a named entry, and then follows a canonical path at or under that entry's root. */
  lemma WatchIsGranted(shares: map<string, ShareRow>, links: map<string, LinkRow>, user: string,
                       request: Hub.WatchRequest)
    requires TablesOk(shares, links)
    ensures var entry := NamedEntry(shares, links, user, request);
            var watch := ResolveWatch(shares, links, user, request);
            && (watch.Some? <==>
                  entry.Some? && (request.path == "" || (entry.value.isDir && SafeRel(request.path).Some?)))
            && (watch.Some? ==>
                  && watch.value.owner == entry.value.owner && Canonical(watch.value.prefix)
                  && Segments(watch.value.prefix) ==
                       Segments(entry.value.root)
                       + if request.path == "" then [] else Segments(SafeRel(request.path).value))
  {
    var entry := NamedEntry(shares, links, user, request);
    if entry.Some? && EffectivePath(entry.value.root, entry.value.isDir, request.path).Ok? {
      EffectiveIsUnderRoot(entry.value.root, entry.value.isDir, request.path);
    }
  }

  /** No one follows through a share that was made to someone else, or through a token that is no link's. */
  lemma WatchIsTheirs(shares: map<string, ShareRow>, links: map<string, LinkRow>, user: string,
                      request: Hub.WatchRequest)
    requires TablesOk(shares, links) && ResolveWatch(shares, links, user, request).Some?
    ensures var watch := ResolveWatch(shares, links, user, request).value;
            if request.link != "" then
              && request.link in links && links[request.link].owner == watch.owner
              && Segments(links[request.link].relPath) <= Segments(watch.prefix)
            else
              && request.share in shares && user != "" && shares[request.share].grantee == user
              && shares[request.share].owner == watch.owner
              && Segments(shares[request.share].relPath) <= Segments(watch.prefix)
  {
    if request.link != "" {
      LinkResolvesIff(links, request.link, request.path);
    } else {
      ShareResolvesIff(shares, user, request.share, request.path);
    }
  }

  // ---- Writing through a share or link ----

  const WORK_EXTENSIONS := {"mdp", "mds", "mdg", "mdn", "mdl", "mdc", "mde", "mdb", "mdd"}

  predicate IsWorkFile(rel: string) {
    ExtensionOf(rel) in WORK_EXTENSIONS
  }

  /** fWriteThrough on the owner's account. */
  ghost function WrittenThrough(c: Config, a: Account, access: Access, size: nat): (Account, Result<seq<string>>) {
    if !access.permission.Edit? then (a, Err(Forbidden))
    else if !IsWorkFile(access.relPath) then (a, Err(BadInput))
    else
      var (b, reply) := AfterOverwrite(c, a, access.relPath, size);
      (b, match reply
          case Done(notify) => Ok(notify)
          case NotFound => Err(Missing)
          case _ => Err(BadInput))
  }

  method WriteThrough(w: Workspace, access: Access, size: nat) returns (r: Result<seq<string>>)
    requires w.Valid()
    modifies w
    ensures w.Valid() && (w.State(), r) == WrittenThrough(w.config, old(w.State()), access, size)
  {
    if !access.permission.Edit? {
      return Err(Forbidden);
    }
    if !IsWorkFile(access.relPath) {
      return Err(BadInput);
    }
    var reply := w.OverwriteShared(access.relPath, size);
    match reply
    case Done(notify) => return Ok(notify);
    case NotFound => return Err(Missing);
    case _ => return Err(BadInput);
  }
}
