/** What a reachable hub's state says about its history: acknowledgements, time-outs, watches and change frames. */
module HubHistory {
  import opened Wrappers
  import opened Text
  import opened Paths
  import opened Hub
  import opened HubSystem

  ghost predicate HasJoined(log: seq<Event>, c: nat) {
    exists e :: e in log && e.Joined? && e.c == c
  }

  ghost predicate HasGone(log: seq<Event>, c: nat) {
    exists e :: e in log && IsExit(e, c)
  }

  predicate IsExit(e: Event, c: nat) {
    (e.Left? || e.TimedOut?) && e.c == c
  }

  /** At some point after event `h` the connection was not registered. */
  ghost predicate WasAbsent(log: seq<Event>, h: nat, c: nat) {
    exists i: nat :: h < i <= |log| && InLog(log[..i], c).None?
  }

  lemma StaysAbsent(log: seq<Event>, more: seq<Event>, h: nat, c: nat)
    requires WasAbsent(log, h, c)
    ensures WasAbsent(log + more, h, c)
  {
    var i: nat :| h < i <= |log| && InLog(log[..i], c).None?;
    assert (log + more)[..i] == log[..i];
  }

  /** `c` has connected, and has neither disconnected nor timed out. */
  ghost predicate StillRegistered(log: seq<Event>, c: nat) {
    HasJoined(log, c) && !HasGone(log, c)
  }

  /** The frame was issued to `c`, and `c` has not acknowledged that very id since. */
  ghost predicate Unacknowledged(log: seq<Event>, c: nat, id: string) {
    exists i: nat :: UnacknowledgedSince(log, i, c, id)
  }

  ghost predicate UnacknowledgedSince(log: seq<Event>, i: nat, c: nat, id: string) {
    && i < |log| && log[i].Issued? && log[i].c == c && FrameId(log[i].n) == id
    && (forall j: nat | i < j < |log| :: !IsAck(log[j], c, id))
  }

  /** An ack for this frame, handled for this connection. */
  predicate IsAck(e: Event, c: nat, id: string) {
    e.Acked? && e.c == c && e.id == id
  }

  ghost predicate FreshJoins(log: seq<Event>) {
    forall i: nat, j: nat | i < j < |log| && log[j].Joined? :: About(log[i]) != Some(log[j].c)
  }

  lemma FreshJoinsPrefix(log: seq<Event>, n: nat)
    requires FreshJoins(log) && n <= |log|
    ensures FreshJoins(log[..n])
  {
  }

  lemma PresenceSnoc(log: seq<Event>, e: Event, c: nat)
    ensures HasJoined(log + [e], c) <==> HasJoined(log, c) || (e.Joined? && e.c == c)
    ensures HasGone(log + [e], c) <==> HasGone(log, c) || IsExit(e, c)
  {
    var more := log + [e];
    assert forall x :: x in more <==> x in log || x == e;
  }

  lemma UnmentionedIsAbsent(log: seq<Event>, c: nat)
    requires forall i: nat | i < |log| :: About(log[i]) != Some(c)
    ensures !HasGone(log, c)
  {
    forall e | e in log
      ensures !IsExit(e, c)
    {
      assert IsExit(e, c) ==> About(e) == Some(c);
    }
  }

  lemma {:induction false} RegisteredIff(log: seq<Event>, c: nat)
    requires FreshJoins(log)
    ensures InLog(log, c).Some? <==> StillRegistered(log, c)
  {
    if log == [] {
      return;
    }
    hide HasJoined, HasGone, InLog;
    var init, e := log[..|log| - 1], log[|log| - 1];
    FreshJoinsPrefix(log, |log| - 1);
    RegisteredIff(init, c);
    InLogSnoc(init, e, c);
    PresenceSnoc(init, e, c);
    assert log == init + [e];
    if e.Joined? && e.c == c {
      UnmentionedIsAbsent(init, c);
    }
  }

  lemma {:induction false} PendingIff(log: seq<Event>, c: nat, id: string)
    requires FreshJoins(log) && InLog(log, c).Some?
    ensures id in InLog(log, c).value.pending <==> Unacknowledged(log, c, id)
  {
    var init, e := log[..|log| - 1], log[|log| - 1];
    FreshJoinsPrefix(log, |log| - 1);
    UnacknowledgedSnoc(init, e, c, id);
    assert log == init + [e];
    if e.Joined? && e.c == c {
      assert forall i: nat | i < |init| :: About(log[i]) != Some(c);
      assert !Unacknowledged(init, c, id);
    } else {
      PendingIff(init, c, id);
    }
  }

  lemma UnacknowledgedSnoc(log: seq<Event>, e: Event, c: nat, id: string)
    ensures Unacknowledged(log + [e], c, id) <==>
              (e.Issued? && e.c == c && FrameId(e.n) == id) || (Unacknowledged(log, c, id) && !IsAck(e, c, id))
  {
    var more := log + [e];
    if i: nat :| UnacknowledgedSince(more, i, c, id) {
      if i < |log| {
        assert more[|log|] == e && forall j: nat | j < |log| :: more[j] == log[j];
        assert UnacknowledgedSince(log, i, c, id);
      }
    }
    if e.Issued? && e.c == c && FrameId(e.n) == id {
      assert more[|log|] == e;
      assert UnacknowledgedSince(more, |log|, c, id);
    }
    if i: nat :| UnacknowledgedSince(log, i, c, id) {
      if !IsAck(e, c, id) {
        assert UnacknowledgedSince(more, i, c, id);
      }
    }
  }

  /** The pending set, read off the history. */
  lemma OwedIff(w: World, c: nat, id: string)
    requires Inv(w)
    ensures c in w.hub.connections <==> StillRegistered(w.log, c)
    ensures IsOwed(w.hub, c, id) <==> StillRegistered(w.log, c) && Unacknowledged(w.log, c, id)
  {
    assert At(w.hub, c) == InLog(w.log, c);
    RegisteredIff(w.log, c);
    if c in w.hub.connections {
      PendingIff(w.log, c, id);
    }
  }

  /**
   A timer callback drops its connection exactly when the connection is still there and never acknowledged that
   very frame; acks that came early, on another connection, or for another id play no part.
   */
  lemma ExpiryIsExact(w: World, k: nat, r: Resolution)
    requires Inv(w) && Enabled(w, Advance(k, r)) && w.threads[k][0].Expire?
    ensures var Expire(c, id) := w.threads[k][0];
            var w' := Next(w, Advance(k, r));
            var drops := StillRegistered(w.log, c) && Unacknowledged(w.log, c, id);
            && w'.log == (if drops then w.log + [TimedOut(k, c, id)] else w.log)
            && w'.hub == (if drops then Removed(w.hub, c) else w.hub)
            && (Close(c) in w'.threads[k] <==> drops || Close(c) in w.threads[k])
  {
    var Expire(c, id) := w.threads[k][0];
    OwedIff(w, c, id);
    assert w.threads[k] == [Expire(c, id)] + w.threads[k][1..];
    assert Close(c) in w.threads[k] <==> Close(c) in w.threads[k][1..];
  }

  /** No two tracked frames carry the same id, and no connection id is handed out twice. */
  lemma IdsAreUnique(w: World, i: nat, j: nat)
    requires Inv(w) && i < j < |w.log|
    ensures w.log[i].Issued? && w.log[j].Issued? ==> FrameId(w.log[i].n) != FrameId(w.log[j].n)
    ensures w.log[i].Joined? && w.log[j].Joined? ==> w.log[i].c != w.log[j].c
  {
    if w.log[i].Issued? && w.log[j].Issued? && FrameId(w.log[i].n) == FrameId(w.log[j].n) {
      FrameIdInjective(w.log[i].n, w.log[j].n);
    }
  }

  lemma IssuedOnce(w: World, i: nat, j: nat)
    requires Inv(w) && i < |w.log| && j < |w.log| && w.log[i].Issued? && w.log[j].Issued?
    requires FrameId(w.log[i].n) == FrameId(w.log[j].n)
    ensures i == j
  {
    FrameIdInjective(w.log[i].n, w.log[j].n);
  }

  /** A frame once acknowledged can never again cost the connection, however late its timer. */
  lemma {:induction false} AcknowledgedForGood(w: World, run: seq<Label>, c: nat, i: nat, j: nat)
    requires Inv(w) && Legal(w, run)
    requires w.hub.nextConnection + |run| < U64 && w.hub.nextFrame + |run| < U64
    requires i < j < |w.log| && w.log[i].Issued? && w.log[i].c == c && IsAck(w.log[j], c, FrameId(w.log[i].n))
    ensures !IsOwed(After(w, run).hub, c, FrameId(w.log[i].n))
  {
    RunKeepsInv(w, run);
    var end, id := After(w, run), FrameId(w.log[i].n);
    OwedIff(end, c, id);
    assert end.log[i] == w.log[i] && end.log[j] == w.log[j];
    if k: nat :| UnacknowledgedSince(end.log, k, c, id) {
      IssuedOnce(end, k, i);
    }
  }

  // ---- Every time-out was deserved ----

  ghost predicate TimeOutsDeserved(log: seq<Event>) {
    forall i: nat | i < |log| && log[i].TimedOut? ::
      StillRegistered(log[..i], log[i].c) && Unacknowledged(log[..i], log[i].c, log[i].id)
  }

  lemma NextDeserves(w: World, l: Label)
    requires Inv(w) && TimeOutsDeserved(w.log) && Enabled(w, l)
    ensures TimeOutsDeserved(Next(w, l).log)
  {
    var w' := Next(w, l);
    assert w.log <= w'.log && |w'.log| <= |w.log| + 1;
    forall i: nat | i < |w'.log| && w'.log[i].TimedOut?
      ensures StillRegistered(w'.log[..i], w'.log[i].c) && Unacknowledged(w'.log[..i], w'.log[i].c, w'.log[i].id)
    {
      if i < |w.log| {
        assert w'.log[..i] == w.log[..i] && w'.log[i] == w.log[i];
      } else {
        assert w'.log[..i] == w.log;
        ExpiryIsExact(w, l.thread, l.resolution);
        OwedIff(w, w'.log[i].c, w'.log[i].id);
      }
    }
  }

  lemma {:induction false} RunDeserves(w: World, run: seq<Label>)
    requires Inv(w) && TimeOutsDeserved(w.log) && Legal(w, run)
    requires w.hub.nextConnection + |run| < U64 && w.hub.nextFrame + |run| < U64
    ensures TimeOutsDeserved(After(w, run).log)
    decreases |run|
  {
    if run != [] {
      NextKeepsInv(w, run[0]);
      NextDeserves(w, run[0]);
      RunDeserves(Next(w, run[0]), run[1..]);
    }
  }

  // ---- Watches ----

  ghost predicate LastWatch(log: seq<Event>, i: nat, c: nat) {
    && i < |log| && log[i].WatchSet? && log[i].c == c
    && forall j: nat | i < j < |log| :: !(log[j].WatchSet? && log[j].c == c)
  }

  /** A connection follows the outcome of its last watch or unwatch that was not refused, or nothing at all. */
  lemma {:induction false} WatchesFollowHistory(log: seq<Event>, c: nat)
    requires FreshJoins(log) && InLog(log, c).Some?
    ensures var watches := InLog(log, c).value.watches;
            && |watches| <= 1
            && (forall i: nat | LastWatch(log, i, c) ::
                  watches == if log[i].target.Some? then [log[i].target.value] else [])
            && ((forall e | e in log :: !(e.WatchSet? && e.c == c)) ==> watches == [])
  {
    var init, e := log[..|log| - 1], log[|log| - 1];
    FreshJoinsPrefix(log, |log| - 1);
    assert log == init + [e];
    if e.Joined? && e.c == c {
      assert forall i: nat | i < |init| :: About(log[i]) != Some(c);
    } else {
      WatchesFollowHistory(init, c);
      forall i: nat | LastWatch(log, i, c) && i < |init|
        ensures LastWatch(init, i, c)
      {
      }
    }
  }

  // ---- Change frames ----

  /** Why `c` was sent `list`: its owner's own device, or a follower of a path that covers everything listed. */
  ghost predicate Entitled(conn: Connection, owner: string, paths: seq<string>, origin: string, list: seq<string>) {
    && (origin == "" || conn.device != origin)
    && if conn.userId != "" && conn.userId == owner then AtMost100(list, paths)
       else
         && |conn.watches| == 1 && conn.watches[0].owner == owner
         && (exists p :: p in paths && Segments(conn.watches[0].prefix) <= Segments(p))
         && (forall p | p in list :: p in paths && Segments(conn.watches[0].prefix) <= Segments(p))
  }

  lemma NothingIn(s: seq<string>)
    ensures s == [] <==> forall p :: p !in s
  {
    assert s != [] ==> s[0] in s;
  }

  lemma OneWatchSees(w: Watch, owner: string, paths: seq<string>)
    ensures var visible := Visible([w], owner, paths);
            && (visible != [] <==> w.owner == owner && exists p :: p in paths && Segments(w.prefix) <= Segments(p))
            && (forall p | p in visible :: p in paths && Segments(w.prefix) <= Segments(p))
  {
    hide Segments, MatchesPrefix, Visible;
    VisibleMembers([w], owner, paths);
    var visible := Visible([w], owner, paths);
    forall p
      ensures p in visible <==> p in paths && w.owner == owner && Segments(w.prefix) <= Segments(p)
    {
      MatchesPrefixIffAncestor(p, w.prefix);
      assert w in [w];
    }
    assert visible != [] ==> visible[0] in visible;
  }

  lemma ListForEntitles(conn: Connection, owner: string, paths: seq<string>, origin: string)
    requires |conn.watches| <= 1
    ensures var list := ListFor(conn, owner, paths, origin);
            && (list.Some? ==> Entitled(conn, owner, paths, origin, list.value))
            && (list.None? ==> forall l :: !Entitled(conn, owner, paths, origin, l))
  {
    hide Segments, MatchesPrefix, Visible;
    if conn.watches != [] {
      OneWatchSees(conn.watches[0], owner, paths);
      assert conn.watches == [conn.watches[0]];
    } else {
      VisibleMembers([], owner, paths);
      NothingIn(Visible([], owner, paths));
    }
  }

  /**
   In every interleaving, each change frame was owed by an earlier announcement, made by the very call that issued the
   frame, to the connection as it then was.
   */
  lemma ChangesAreEntitled(w: World, j: nat) returns (i: nat)
    requires Inv(w) && j < |w.log| && w.log[j].Issued? && w.log[j].payload.Changes?
    ensures i < j && w.log[i].Announced? && w.log[i].thread == w.log[j].thread
    ensures OwedAt(w.log, i, w.log[j].c) == Some(w.log[j].payload.paths)
    ensures StillRegistered(w.log[..i], w.log[j].c) && InLog(w.log[..i], w.log[j].c).Some?
    ensures Entitled(InLog(w.log[..i], w.log[j].c).value, w.log[i].owner, w.log[i].paths, w.log[i].origin,
                     w.log[j].payload.paths)
  {
    var e := w.log[j];
    i :| ExplainedAt(w.log[..j], i, e.thread, e.c, e.payload.paths);
    assert w.log[..j][..i] == w.log[..i] && w.log[..j][i] == w.log[i];
    FreshJoinsPrefix(w.log, i);
    RegisteredIff(w.log[..i], e.c);
    WatchesFollowHistory(w.log[..i], e.c);
    ListForEntitles(InLog(w.log[..i], e.c).value, w.log[i].owner, w.log[i].paths, w.log[i].origin);
  }
}
