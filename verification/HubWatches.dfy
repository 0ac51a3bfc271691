/** Where a connection's watch comes from, in every interleaving: a frame of its own that the resolver accepted. */
module HubWatches {
  import opened Wrappers
  import opened Hub
  import opened HubSystem
  import opened HubHistory

  /** The account that opened the connection. */
  ghost predicate OpenedBy(log: seq<Event>, c: nat, user: string) {
    exists k: nat :: Joined(k, c, user) in log
  }

  lemma StaysOpened(log: seq<Event>, more: seq<Event>, c: nat, user: string)
    requires OpenedBy(log, c, user)
    ensures OpenedBy(log + more, c, user)
  {
    var k: nat :| Joined(k, c, user) in log;
    assert Joined(k, c, user) in log + more;
  }

  /** Call `k` heard a watch frame on `c`, and the resolver accepted it for the account that opened `c`. */
  ghost predicate AcceptedAt(log: seq<Event>, heard: nat, asked: nat, k: nat, c: nat, user: string, v: Watch) {
    && heard < asked < |log| && log[heard].Heard? && log[heard].thread == k && log[heard].c == c
    && log[heard].frame.Frame? && log[heard].frame.kind == "watch"
    && log[asked] == Asked(k, c, user, log[heard].frame.request, Resolved(v))
    && OpenedBy(log[..asked], c, user)
  }

  ghost predicate Accepted(log: seq<Event>, k: nat, c: nat, v: Watch) {
    exists heard: nat, asked: nat, user :: AcceptedAt(log, heard, asked, k, c, user, v)
  }

  ghost predicate HeardWatch(log: seq<Event>, k: nat, c: nat, request: WatchRequest) {
    exists f: Incoming :: f.Frame? && f.kind == "watch" && f.request == request && Heard(k, c, f) in log
  }

  ghost predicate TaskBacked(log: seq<Event>, k: nat, t: Task) {
    && (t.Receive? ==> Heard(k, t.c, t.frame) in log)
    && (t.ResolveWatch? ==> HeardWatch(log, k, t.c, t.request) && OpenedBy(log, t.c, t.user))
    && (t.SetWatch? && t.target.Some? ==> Accepted(log, k, t.c, t.target.value))
  }

  ghost predicate WatchBacked(log: seq<Event>, s: nat)
    requires s < |log| && log[s].WatchSet?
  {
    log[s].target.Some? ==> Accepted(log[..s], log[s].thread, log[s].c, log[s].target.value)
  }

  ghost predicate Backed(w: World) {
    && (forall k: nat, t | k < |w.threads| && t in w.threads[k] :: TaskBacked(w.log, k, t))
    && (forall s: nat | s < |w.log| && w.log[s].WatchSet? :: WatchBacked(w.log, s))
  }

  lemma AcceptedStays(log: seq<Event>, more: seq<Event>, heard: nat, asked: nat, k: nat, c: nat, user: string, v: Watch)
    requires AcceptedAt(log, heard, asked, k, c, user, v)
    ensures AcceptedAt(log + more, heard, asked, k, c, user, v)
  {
    assert (log + more)[..asked] == log[..asked];
  }

  lemma BackedStays(log: seq<Event>, more: seq<Event>, k: nat, t: Task)
    requires TaskBacked(log, k, t)
    ensures TaskBacked(log + more, k, t)
  {
    if t.ResolveWatch? {
      var f: Incoming :| f.Frame? && f.kind == "watch" && f.request == t.request && Heard(k, t.c, f) in log;
      assert Heard(k, t.c, f) in log + more;
      StaysOpened(log, more, t.c, t.user);
    }
    if t.SetWatch? && t.target.Some? {
      var heard: nat, asked: nat, user :| AcceptedAt(log, heard, asked, k, t.c, user, t.target.value);
      AcceptedStays(log, more, heard, asked, k, t.c, user, t.target.value);
    }
  }

  /** The account of a connection is the one that opened it. */
  lemma {:induction false} UserJoined(log: seq<Event>, c: nat)
    requires InLog(log, c).Some?
    ensures OpenedBy(log, c, InLog(log, c).value.userId)
  {
    var init, e := log[..|log| - 1], log[|log| - 1];
    assert log == init + [e];
    if !e.Joined? || e.c != c {
      UserJoined(init, c);
      StaysOpened(init, [e], c, InLog(log, c).value.userId);
    } else {
      assert Joined(e.thread, c, e.user) in log;
    }
  }

  lemma JoinedOnce(log: seq<Event>, c: nat, user: string, other: string)
    requires FreshJoins(log) && OpenedBy(log, c, user) && OpenedBy(log, c, other)
    ensures user == other
  {
    var k: nat :| Joined(k, c, user) in log;
    var l: nat :| Joined(l, c, other) in log;
    var i :| 0 <= i < |log| && log[i] == Joined(k, c, user);
    var j :| 0 <= j < |log| && log[j] == Joined(l, c, other);
    assert About(log[i]) == About(log[j]) == Some(c);
  }

  /** The tasks a block adds are backed by the log with its events. */
  lemma ExecBacked(w: World, k: nat, r: Resolution, u: Task)
    requires Recorded(w.hub, w.log) && Backed(w) && Enabled(w, Advance(k, r))
    requires u in Exec(w.hub, k, w.threads[k][0], r).next
    ensures TaskBacked(Next(w, Advance(k, r)).log, k, u)
  {
    var t, log' := w.threads[k][0], Next(w, Advance(k, r)).log;
    assert t in w.threads[k] && TaskBacked(w.log, k, t);
    if u.ResolveWatch? {
      assert t.Receive? && u.c == t.c && At(w.hub, u.c) == InLog(w.log, u.c);
      assert u.user == InLog(w.log, u.c).value.userId;
      UserJoined(w.log, u.c);
      assert Heard(k, u.c, t.frame) in log';
    }
    if u.SetWatch? && u.target.Some? {
      assert t.ResolveWatch? && u.c == t.c && r == Resolved(u.target.value);
      var f: Incoming :| f.Frame? && f.kind == "watch" && f.request == t.request && Heard(k, t.c, f) in w.log;
      var heard: nat :| heard < |w.log| && w.log[heard] == Heard(k, t.c, f);
      assert log'[..|w.log|] == w.log;
      assert AcceptedAt(log', heard, |w.log|, k, t.c, t.user, u.target.value);
    }
  }

  lemma NextBacks(w: World, l: Label)
    requires Recorded(w.hub, w.log) && Backed(w) && Enabled(w, l)
    ensures Backed(Next(w, l))
  {
    hide Recorded, TaskBacked, Accepted, Exec;
    var w' := Next(w, l);
    var more := w'.log[|w.log|..];
    assert w'.log == w.log + more;
    forall k: nat, u | k < |w'.threads| && u in w'.threads[k]
      ensures TaskBacked(w'.log, k, u)
    {
      if k < |w.threads| && u in w.threads[k] {
        BackedStays(w.log, more, k, u);
      } else if l.Advance? {
        ExecBacked(w, l.thread, l.resolution, u);
      } else {
        StartBacked(w, l, u);
      }
    }
    forall s: nat | s < |w'.log| && w'.log[s].WatchSet?
      ensures WatchBacked(w'.log, s)
    {
      if s < |w.log| {
        assert w'.log[..s] == w.log[..s] && w'.log[s] == w.log[s];
        assert WatchBacked(w.log, s);
      } else {
        NewWatchBacked(w, l, s);
      }
    }
  }

  lemma StartBacked(w: World, l: Label, u: Task)
    requires Enabled(w, l) && !l.Advance? && u in Next(w, l).threads[|w.threads|]
    ensures TaskBacked(Next(w, l).log, |w.threads|, u)
  {
    if l.Message? {
      assert Heard(|w.threads|, l.c, l.frame) in Next(w, l).log;
    }
  }

  lemma NewWatchBacked(w: World, l: Label, s: nat)
    requires Backed(w) && Enabled(w, l) && |w.log| <= s < |Next(w, l).log| && Next(w, l).log[s].WatchSet?
    ensures WatchBacked(Next(w, l).log, s)
  {
    hide Accepted;
    var w' := Next(w, l);
    if l.Advance? {
      var t := w.threads[l.thread][0];
      var o := Exec(w.hub, l.thread, t, l.resolution);
      assert t in w.threads[l.thread] && TaskBacked(w.log, l.thread, t);
      assert w'.log[s] == o.events[s - |w.log|];
      assert t.SetWatch? && o.events == [WatchSet(l.thread, t.c, t.target)] && s == |w.log|;
      assert w'.log[..s] == w.log;
    }
  }

  lemma {:induction false} RunBacks(w: World, run: seq<Label>)
    requires Inv(w) && Backed(w) && Legal(w, run)
    requires w.hub.nextConnection + |run| < U64 && w.hub.nextFrame + |run| < U64
    ensures Inv(After(w, run)) && Backed(After(w, run))
    decreases |run|
  {
    if run != [] {
      assert Recorded(w.hub, w.log);
      hide Inv, Backed, Next, Recorded;
      NextKeepsInv(w, run[0]);
      NextBacks(w, run[0]);
      RunBacks(Next(w, run[0]), run[1..]);
    }
  }

  /** A connection that follows something was last told to by a watch that was not refused. */
  lemma {:induction false} WatchInForce(log: seq<Event>, c: nat) returns (s: nat)
    requires InLog(log, c).Some? && InLog(log, c).value.watches != []
    ensures LastWatch(log, s, c) && log[s].target.Some? && InLog(log, c).value.watches == [log[s].target.value]
  {
    var init, e := log[..|log| - 1], log[|log| - 1];
    assert log == init + [e];
    if e.WatchSet? && e.c == c {
      s := |log| - 1;
    } else {
      s := WatchInForce(init, c);
    }
  }

  /** What a connection follows was set last by a call that heard its own watch frame and had it accepted. */
  ghost predicate FollowsBy(log: seq<Event>, c: nat, conn: Connection, heard: nat, asked: nat, s: nat) {
    && LastWatch(log, s, c) && log[s].target.Some? && conn.watches == [log[s].target.value]
    && AcceptedAt(log[..s], heard, asked, log[s].thread, c, conn.userId, log[s].target.value)
  }

  /** In every reachable hub, at every moment of its history, for every connection that follows anything. */
  lemma WatchesAreAccepted(w: World, i: nat, c: nat) returns (heard: nat, asked: nat, s: nat)
    requires Inv(w) && Backed(w) && i <= |w.log|
    requires InLog(w.log[..i], c).Some? && InLog(w.log[..i], c).value.watches != []
    ensures FollowsBy(w.log[..i], c, InLog(w.log[..i], c).value, heard, asked, s)
  {
    hide InLog, OpenedBy;
    var log := w.log[..i];
    var conn := InLog(log, c).value;
    s := WatchInForce(log, c);
    assert w.log[s] == log[s] && w.log[..s] == log[..s] && WatchBacked(w.log, s);
    var k, v, user := log[s].thread, log[s].target.value, "";
    heard, asked, user :| AcceptedAt(log[..s], heard, asked, k, c, user, v);
    UserJoined(log, c);
    OpenerIsUser(w.log, i, s, asked, c, user, conn.userId);
  }

  lemma OpenerIsUser(log: seq<Event>, i: nat, s: nat, asked: nat, c: nat, user: string, other: string)
    requires FreshJoins(log) && asked < s < i <= |log|
    requires OpenedBy(log[..s][..asked], c, user) && OpenedBy(log[..i], c, other)
    ensures user == other
  {
    var early := log[..s][..asked];
    assert early + log[..i][asked..] == log[..i];
    StaysOpened(early, log[..i][asked..], c, user);
    FreshJoinsPrefix(log, i);
    JoinedOnce(log[..i], c, user, other);
  }
}
