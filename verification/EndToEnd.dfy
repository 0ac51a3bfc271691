/** From a share or link, through a write, to the devices that hear of it: the modules put together. */
module EndToEnd {
  import opened Wrappers
  import opened Text
  import opened Paths
  import opened Shares
  import opened Hub
  import opened HubSystem
  import FileTree
  import opened HubHistory
  import opened HubCalls
  import opened HubAnswers
  import opened HubDelivery
  import opened HubWatches
  import Workspace

  // ---- Who hears of a write ----

  /** Told of a change at `p`, unless it made the change: the owner's own, or following a path at or above `p`. */
  ghost predicate Follows(conn: Connection, owner: string, p: string, origin: string) {
    && (origin == "" || conn.device != origin)
    && ((conn.userId != "" && conn.userId == owner)
        || exists w :: w in conn.watches && w.owner == owner && Segments(w.prefix) <= Segments(p))
  }

  lemma OnePathIsHeardByFollowers(conn: Connection, owner: string, p: string, origin: string)
    ensures ListFor(conn, owner, [p], origin) == if Follows(conn, owner, p, origin) then Some([p]) else None
  {
    hide Segments, MatchesPrefix;
    var visible := Visible(conn.watches, owner, [p]);
    VisibleMembers(conn.watches, owner, [p]);
    forall w | w in conn.watches
      ensures MatchesPrefix(p, w.prefix) <==> Segments(w.prefix) <= Segments(p)
    {
      MatchesPrefixIffAncestor(p, w.prefix);
    }
    assert forall x | x in visible :: x == p;
    if visible != [] {
      var last := if |visible| > 1 then 1 else 0;
      assert visible[0] in visible && visible[last] in visible;
      assert visible == [p];
    } else {
      assert p !in visible;
    }
  }

  /** `access` came from this share or link, named by its id to its grantee, or by its token to anyone. */
  ghost predicate Reached(shares: map<string, ShareRow>, links: map<string, LinkRow>, entry: Entry, access: Access) {
    || (exists user, id, sub :: ResolveShare(shares, user, id, sub) == Ok(access) && entry == OfShare(shares[id]))
    || (exists token, sub :: ResolveLink(links, token, sub) == Ok(access) && entry == OfLink(links[token]))
  }

  /** The access is to the entry's owner's workspace, at the entry's own level, and at or under its root. */
  lemma ReachedIsUnderRoot(shares: map<string, ShareRow>, links: map<string, LinkRow>, entry: Entry, access: Access)
    requires TablesOk(shares, links) && Reached(shares, links, entry, access)
    ensures access.owner == entry.owner && access.permission == entry.permission
    ensures Canonical(access.relPath) && SafeRel(access.relPath) == Some(access.relPath)
    ensures Segments(entry.root) <= Segments(access.relPath)
  {
    if user, id, sub :| ResolveShare(shares, user, id, sub) == Ok(access) && entry == OfShare(shares[id]) {
      EffectiveIsUnderRoot(entry.root, entry.isDir, sub);
    } else {
      var token, sub :| ResolveLink(links, token, sub) == Ok(access) && entry == OfLink(links[token]);
      EffectiveIsUnderRoot(entry.root, entry.isDir, sub);
    }
  }

  lemma WriteLands(config: Workspace.Config, account: Workspace.Account, access: Access, size: nat)
    requires Canonical(access.relPath) && WrittenThrough(config, account, access, size).1.Ok?
    ensures var (after, notify) := WrittenThrough(config, account, access, size);
            && notify == Ok([access.relPath]) && access.permission == Edit
            && FileTree.FileAt(account.tree, Segments(access.relPath)).Some?
            && forall q :: FileTree.FileAt(after.tree, q) ==
                 if q == Segments(access.relPath) then Some(size) else FileTree.FileAt(account.tree, q)
  {
    CanonicalIffFixed(access.relPath);
    var p := Segments(access.relPath);
    forall q
      ensures FileTree.FileAt(WrittenThrough(config, account, access, size).0.tree, q) ==
                if q == p then Some(size) else FileTree.FileAt(account.tree, q)
    {
      FileTree.WriteFileFiles(account.tree, p, size, q);
    }
  }

  /** What was owed for a change of one path is owed to its followers, as the connection was when it was announced. */
  lemma OwedToFollowers(log: seq<Event>, i: nat, c: nat, k: nat, owner: string, p: string, origin: string)
    requires i < |log| && log[i] == Announced(k, owner, [p], origin)
    ensures var conn := InLog(log[..i], c);
            OwedAt(log, i, c) == if conn.Some? && Follows(conn.value, owner, p, origin) then Some([p]) else None
  {
    var conn := InLog(log[..i], c);
    if conn.Some? {
      OnePathIsHeardByFollowers(conn.value, owner, p, origin);
    }
  }

  /** Connection `c`, as it was at event `i`, is to hear of a change at `p`. */
  ghost predicate ToHear(log: seq<Event>, i: nat, c: nat, owner: string, p: string, origin: string)
    requires i <= |log|
  {
    InLog(log[..i], c).Some? && Follows(InLog(log[..i], c).value, owner, p, origin)
  }

  // ---- The resolver reads the tables of the moment ----

  datatype Tables = Tables(shares: map<string, ShareRow>, links: map<string, LinkRow>)

  /** The share and link tables as they were when the hub's log had that many events. */
  type Timeline = nat -> Tables

  ghost predicate AlwaysOk(tables: Timeline) {
    forall h: nat :: TablesOk(tables(h).shares, tables(h).links)
  }

  /** The resolver the hub is given, on the tables it reads. */
  function AnswerTo(t: Tables, user: string, request: WatchRequest): Resolution {
    var watch := Shares.ResolveWatch(t.shares, t.links, user, request);
    if watch.None? then Refused else Resolved(watch.value)
  }

  /** A step that consults the resolver is told what the tables say at that moment. */
  predicate Honest(w: World, l: Label, tables: Timeline)
    requires Enabled(w, l)
  {
    l.Advance? && w.threads[l.thread][0].ResolveWatch? ==>
      var t := w.threads[l.thread][0];
      l.resolution == AnswerTo(tables(|w.log|), t.user, t.request)
  }

  predicate HonestRun(w: World, run: seq<Label>, tables: Timeline)
    requires Legal(w, run)
    decreases |run|
  {
    run != [] ==> Honest(w, run[0], tables) && HonestRun(Next(w, run[0]), run[1..], tables)
  }

  /** Every answer in the log is the one the tables gave at that very event. */
  ghost predicate Truthful(log: seq<Event>, tables: Timeline) {
    forall h: nat | h < |log| && log[h].Asked? :: log[h].answer == AnswerTo(tables(h), log[h].user, log[h].request)
  }

  lemma NextTruthful(w: World, l: Label, tables: Timeline)
    requires Truthful(w.log, tables) && Enabled(w, l) && Honest(w, l, tables)
    ensures Truthful(Next(w, l).log, tables)
  {
    hide AnswerTo;
    var w' := Next(w, l);
    forall h: nat | h < |w'.log| && w'.log[h].Asked?
      ensures w'.log[h].answer == AnswerTo(tables(h), w'.log[h].user, w'.log[h].request)
    {
      if h < |w.log| {
        assert w'.log[h] == w.log[h];
      } else {
        assert w'.log[h] == Exec(w.hub, l.thread, w.threads[l.thread][0], l.resolution).events[h - |w.log|];
      }
    }
  }

  lemma {:induction false} RunTruthful(w: World, run: seq<Label>, tables: Timeline)
    requires Truthful(w.log, tables) && Legal(w, run) && HonestRun(w, run, tables)
    ensures Truthful(After(w, run).log, tables)
    decreases |run|
  {
    hide Truthful, Honest, Next;
    if run != [] {
      NextTruthful(w, run[0], tables);
      RunTruthful(Next(w, run[0]), run[1..], tables);
    }
  }

  // ---- Who hears of a write through a share or link ----

  /**
   The client's own watch frame (event `h`) named this entry and no sub path, in the tables its call read; it was
   acknowledged (event `a`), and up to event `i` no later watch of the connection was set.
   */
  ghost predicate WatchesEntry(log: seq<Event>, tables: Timeline, i: nat, c: nat, entry: Entry, h: nat, a: nat) {
    && h < a < i <= |log|
    && log[h].Heard? && log[h].c == c && IsFrame(log[h].frame, "watch") && log[h].frame.request.path == ""
    && log[a] == Answered(log[h].thread, c, Ack, log[h].frame.id)
    && (forall q: nat | q < i && log[q].Asked? && log[q].thread == log[h].thread ::
          var t := tables(q); NamedEntry(t.shares, t.links, log[q].user, log[h].frame.request) == Some(entry))
    && (forall s: nat, b: nat | s < b < i && log[s].WatchSet? && log[s].thread == log[h].thread ::
          !(log[b].WatchSet? && log[b].c == c))
  }

  /** An acknowledged watch has been set, to what the resolver answered just before. */
  lemma AckedWatchIsSet(w: World, h: nat, a: nat) returns (q: nat, s: nat)
    requires Courses(w) && h < a < |w.log| && w.log[h].Heard? && IsFrame(w.log[h].frame, "watch")
    requires w.log[a] == Answered(w.log[h].thread, w.log[h].c, Ack, w.log[h].frame.id)
    ensures q < s < a && w.log[q].Asked? && w.log[q].thread == w.log[h].thread
    ensures w.log[q].request == w.log[h].frame.request && !w.log[q].answer.Refused?
    ensures w.log[s] == WatchSet(w.log[h].thread, w.log[h].c, TargetOf(w.log[q].answer))
  {
    var Heard(k, c, f) := w.log[h];
    var es := Since(w.log, h);
    StartIsFirst(w, h);
    SinceIsAll(w, h, w.log[a]);
    RepliedOnce(k, c, f, es, w.threads[k], AbsentSince(w.log, k, c), w.log[a]);
    DecidedOnWatch(k, c, f, Ack, es);
    hide Courses, Course, FrameCourse, Replied, Decided, AbsentSince;
    assert Own(w.log, k) == [w.log[h]] + es;
    AckedShape(k, c, f, es);
    q := OwnSource(w.log, k, 1);
    s := OwnSource(w.log, k, 2);
    assert Own(w.log, k)[1] == es[0] && Own(w.log, k)[2] == es[1];
    InOrder(w.log, q, s);
    AnswerIsLast(w, a);
    InOrder(w.log, s, a);
  }

  lemma AckedShape(k: nat, c: nat, f: Incoming, es: seq<Event>)
    requires IsFrame(f, "watch") && (WasRefused(k, c, f, es) || WasSet(k, c, f, es))
    requires Answered(k, c, Ack, f.id) in es && f.id != ""
    ensures |es| == 3 && es[0].Asked? && es[0].request == f.request && !es[0].answer.Refused?
    ensures es[1] == WatchSet(k, c, TargetOf(es[0].answer))
  {
    if WasSet(k, c, f, es) {
      var user, target :|
        es == [Asked(k, c, user, f.request, AnswerFor(target)), WatchSet(k, c, target)] + Reply(k, c, Ack, f.id);
    }
  }

  /** Two events of one call stand in the log as they stand among its own events. */
  lemma InOrder(log: seq<Event>, i: nat, j: nat)
    requires i < |log| && j < |log| && log[i].thread == log[j].thread
    requires |Own(log[..i], log[i].thread)| < |Own(log[..j], log[i].thread)|
    ensures i < j
  {
    if j < i {
      OwnOrder(log, j, i);
    }
  }

  /** So whoever has such a watch, and did not make the change, is to hear of a change under the entry's root. */
  lemma WatchingIsFollowing(w: World, tables: Timeline, i: nat, c: nat, entry: Entry, h: nat, a: nat, p: string,
                            origin: string)
    requires Courses(w) && Truthful(w.log, tables) && AlwaysOk(tables)
    requires i <= |w.log| && WatchesEntry(w.log, tables, i, c, entry, h, a) && Segments(entry.root) <= Segments(p)
    requires InLog(w.log[..i], c).Some? && (origin == "" || InLog(w.log[..i], c).value.device != origin)
    requires FreshJoins(w.log)
    ensures ToHear(w.log, i, c, entry.owner, p, origin)
  {
    var q, s := AckedWatchIsSet(w, h, a);
    var t, request := tables(q), w.log[h].frame.request;
    var conn := InLog(w.log[..i], c).value;
    assert w.log[q].answer == AnswerTo(t, w.log[q].user, request);
    WatchIsGranted(t.shares, t.links, w.log[q].user, request);
    var v := w.log[q].answer.watch;
    assert v.owner == entry.owner && Segments(v.prefix) == Segments(entry.root) by {
      assert Segments(entry.root) + [] == Segments(entry.root);
    }
    hide InLog, Segments, Courses, Truthful, AlwaysOk, NamedEntry, AnswerTo;
    FreshJoinsPrefix(w.log, i);
    WatchesFollowHistory(w.log[..i], c);
    assert LastWatch(w.log[..i], s, c);
    assert conn.watches == [v] && v in conn.watches;
  }

  /**
   From share or link to frames, in every interleaving. A write goes through only at the edit level of the entry it came
   by, and announces the one path it wrote, which lies under the entry's root. Once the call that announced it (at event
   `i`) has ended, each connection that then followed the path has been issued exactly one frame for it, with just that
   path, and it was sent exactly once, unless the connection was gone at some point after; and no other connection was
   issued one. Every connection with an acknowledged watch on that entry, and not of the origin, followed the path.
   */
  lemma WriteReachesItsFollowers(shares: map<string, ShareRow>, links: map<string, LinkRow>, entry: Entry,
                                 access: Access, config: Workspace.Config, account: Workspace.Account, size: nat,
                                 run: seq<Label>, i: nat, k: nat, origin: string, c: nat)
    requires TablesOk(shares, links) && Reached(shares, links, entry, access)
    requires WrittenThrough(config, account, access, size).1.Ok?
    requires Legal(INITIAL, run) && 1 + |run| < U64
    requires var w, notify := After(INITIAL, run), WrittenThrough(config, account, access, size).1.value;
             && i < |w.log| && w.log[i] == Announced(k, access.owner, notify, origin)
             && k < |w.threads| && w.threads[k] == []
    ensures var (after, notify) := WrittenThrough(config, account, access, size);
            && entry.permission == Edit && notify == Ok([access.relPath])
            && Segments(entry.root) <= Segments(access.relPath)
            && FileTree.FileAt(account.tree, Segments(access.relPath)).Some?
            && FileTree.FileAt(after.tree, Segments(access.relPath)) == Some(size)
    ensures var log := After(INITIAL, run).log;
            && (forall j: nat | IsFrameOf(log, j, i, c) ::
                  && ToHear(log, i, c, access.owner, access.relPath, origin)
                  && i < j && log[j].payload == Changes([access.relPath]) && SentExactlyOnce(log, j))
            && (forall j: nat, j': nat | IsFrameOf(log, j, i, c) && IsFrameOf(log, j', i, c) :: j == j')
            && (ToHear(log, i, c, access.owner, access.relPath, origin) ==>
                  (exists j: nat :: IsFrameOf(log, j, i, c)) || WasAbsent(log, i, c))
    ensures var log := After(INITIAL, run).log;
            forall tables: Timeline, h: nat, a: nat |
              && AlwaysOk(tables) && HonestRun(INITIAL, run, tables)
              && WatchesEntry(log, tables, i, c, entry, h, a)
              && InLog(log[..i], c).Some? && (origin == "" || InLog(log[..i], c).value.device != origin) ::
              ToHear(log, i, c, access.owner, access.relPath, origin)
  {
    ReachedIsUnderRoot(shares, links, entry, access);
    WriteLands(config, account, access, size);
    CallsKeepTheirCourse(run);
    var w := After(INITIAL, run);
    assert FreshJoins(w.log);
    forall tables: Timeline, h: nat, a: nat |
      && AlwaysOk(tables) && HonestRun(INITIAL, run, tables)
      && WatchesEntry(w.log, tables, i, c, entry, h, a)
      && InLog(w.log[..i], c).Some? && (origin == "" || InLog(w.log[..i], c).value.device != origin)
      ensures ToHear(w.log, i, c, access.owner, access.relPath, origin)
    {
      hide After, Legal, Reached, Courses, FreshJoins, InLog, WatchesEntry, ToHear, HonestRun, AlwaysOk, Inv;
      RunTruthful(INITIAL, run, tables);
      WatchingIsFollowing(w, tables, i, c, entry, h, a, access.relPath, origin);
    }
    hide After, Legal, InLog, OwedAt, Segments, Follows, Reached, TablesOk, SentExactlyOnce, WasAbsent, Courses;
    hide FreshJoins;
    hide WrittenThrough, WatchesEntry, HonestRun, AlwaysOk, Inv;
    AnnouncementReachesAll(run, i, c);
    OwedToFollowers(w.log, i, c, k, access.owner, access.relPath, origin);
  }

  // ---- No one hears of anything outside what their own watch request named ----

  /**
   At event `i`, `c` followed what its own watch frame (event `heard`) asked for, as it was resolved (event `asked`) and
   set (event `s`, the last for `c`); and `list` stays under the root of the very entry that frame named, as found in
   the tables read at that moment.
   */
  ghost predicate WithinNamedEntry(log: seq<Event>, tables: Timeline, i: nat, c: nat, list: seq<string>,
                                   heard: nat, asked: nat, s: nat)
    requires i < |log| && log[i].Announced?
  {
    && InLog(log[..i], c).Some? && FollowsBy(log[..i], c, InLog(log[..i], c).value, heard, asked, s)
    && var entry := NamedEntry(tables(asked).shares, tables(asked).links, InLog(log[..i], c).value.userId,
                               log[heard].frame.request);
    && entry.Some? && entry.value.owner == log[i].owner
    && (exists p :: p in log[i].paths && Segments(entry.value.root) <= Segments(p))
    && (forall p | p in list :: p in log[i].paths && Segments(entry.value.root) <= Segments(p))
  }

  /** The connection was the owner's own, and is sent the whole list. */
  ghost predicate OwnersCopy(log: seq<Event>, i: nat, c: nat, list: seq<string>)
    requires i < |log| && log[i].Announced?
  {
    var conn := InLog(log[..i], c);
    && conn.Some? && conn.value.userId != "" && conn.value.userId == log[i].owner
    && AtMost100(list, log[i].paths)
  }

  lemma EntitledIsWithin(w: World, tables: Timeline, c: nat, list: seq<string>, i: nat)
    returns (heard: nat, asked: nat, s: nat)
    requires Inv(w) && Backed(w) && Truthful(w.log, tables) && AlwaysOk(tables)
    requires i < |w.log| && w.log[i].Announced? && InLog(w.log[..i], c).Some?
    requires Entitled(InLog(w.log[..i], c).value, w.log[i].owner, w.log[i].paths, w.log[i].origin, list)
    ensures OwnersCopy(w.log, i, c, list) || WithinNamedEntry(w.log, tables, i, c, list, heard, asked, s)
  {
    hide InLog, Inv, Backed, Segments, NamedEntry, Shares.ResolveWatch;
    var conn, e := InLog(w.log[..i], c).value, w.log[i];
    heard, asked, s := 0, 0, 0;
    if conn.userId == "" || conn.userId != e.owner {
      heard, asked, s := WatchesAreAccepted(w, i, c);
      var v, request, t := conn.watches[0], w.log[heard].frame.request, tables(asked);
      assert w.log[asked] == Asked(w.log[s].thread, c, conn.userId, request, Resolved(v));
      assert TablesOk(t.shares, t.links);
      assert Shares.ResolveWatch(t.shares, t.links, conn.userId, request) == Some(v);
      WatchIsGranted(t.shares, t.links, conn.userId, request);
      var root := NamedEntry(t.shares, t.links, conn.userId, request).value.root;
      RootCovers(root, v.prefix, e.paths);
    }
  }

  lemma RootCovers(root: string, prefix: string, paths: seq<string>)
    requires Segments(root) <= Segments(prefix)
    ensures forall p | Segments(prefix) <= Segments(p) :: Segments(root) <= Segments(p)
  {
    hide Segments;
  }

  /**
   In every interleaving from an empty hub, with the tables changing in any way meanwhile: a change frame (event `j`)
   was sent because its connection was the owner's own, or because every path it lists lies under the root of the very
   share or link that the connection's own watch frame had named, as the tables stood when that watch was resolved.
   */
  lemma NothingOutsideTheRoot(run: seq<Label>, tables: Timeline, j: nat)
    returns (i: nat, heard: nat, asked: nat, s: nat)
    requires AlwaysOk(tables) && Legal(INITIAL, run) && HonestRun(INITIAL, run, tables) && 1 + |run| < U64
    requires var log := After(INITIAL, run).log; j < |log| && log[j].Issued? && log[j].payload.Changes?
    ensures var log := After(INITIAL, run).log;
            && i < j && log[i].Announced? && log[i].thread == log[j].thread
            && (OwnersCopy(log, i, log[j].c, log[j].payload.paths)
                || WithinNamedEntry(log, tables, i, log[j].c, log[j].payload.paths, heard, asked, s))
  {
    InitialInv();
    assert Truthful(INITIAL.log, tables) && Backed(INITIAL);
    RunBacks(INITIAL, run);
    RunTruthful(INITIAL, run, tables);
    hide Inv, Backed, Truthful, AlwaysOk, HonestRun, Legal, After, Entitled, InLog, WithinNamedEntry, OwnersCopy;
    var w := After(INITIAL, run);
    i := ChangesAreEntitled(w, j);
    heard, asked, s := EntitledIsWithin(w, tables, w.log[j].c, w.log[j].payload.paths, i);
  }
}
