/** From an announcement to frames, in every interleaving: each connection owed one gets exactly one. */
module HubDelivery {
  import opened Wrappers
  import opened Hub
  import opened HubSystem
  import opened HubHistory

  // ---- A call issues a connection at most one frame ----

  /** The first task of a call that will queue frames. */
  predicate Opens(t: Task) {
    t.Register? || t.Announce?
  }

  ghost predicate Unused(log: seq<Event>, k: nat) {
    forall e | e in log && (e.Issued? || e.Announced?) :: e.thread != k
  }

  ghost predicate HasIssued(log: seq<Event>, k: nat, c: nat) {
    exists e :: e in log && e.Issued? && e.thread == k && e.c == c
  }

  ghost predicate OpensAlone(w: World) {
    forall k: nat, t | k < |w.threads| && t in w.threads[k] && Opens(t) :: |w.threads[k]| == 1 && Unused(w.log, k)
  }

  predicate DistinctTracks(tasks: seq<Task>) {
    forall a, b | 0 <= a < b < |tasks| && tasks[a].Track? && tasks[b].Track? :: tasks[a].c != tasks[b].c
  }

  /** What a call still has to issue is new, for every connection. */
  ghost predicate TracksAreNew(w: World) {
    && (forall k: nat | k < |w.threads| :: DistinctTracks(w.threads[k]))
    && (forall k: nat, t | k < |w.threads| && t in w.threads[k] && t.Track? :: !HasIssued(w.log, k, t.c))
  }

  /** No call has issued a connection two frames, or announced twice. */
  ghost predicate OnceEach(w: World) {
    && (forall e | e in w.log && (e.Issued? || e.Announced?) :: e.thread < |w.threads|)
    && (forall a: nat, b: nat | a < b < |w.log| && w.log[a].Issued? && w.log[b].Issued? ::
          w.log[a].thread != w.log[b].thread || w.log[a].c != w.log[b].c)
    && (forall a: nat, b: nat | a < b < |w.log| && w.log[a].Announced? && w.log[b].Announced? ::
          w.log[a].thread != w.log[b].thread)
  }

  ghost predicate OncePerCall(w: World) {
    OpensAlone(w) && TracksAreNew(w) && OnceEach(w)
  }

  /** What one task leaves behind and logs, as far as issuing frames goes. */
  lemma ExecQueues(s: State, k: nat, t: Task, r: Resolution)
    ensures var o := Exec(s, k, t, r);
            && |o.events| <= 1 && DistinctTracks(o.next)
            && (forall u | u in o.next :: !Opens(u) && (u.Track? ==> Opens(t)))
            && (forall e | e in o.events && e.Issued? :: t.Track? && e.thread == k && e.c == t.c)
            && (forall e | e in o.events && e.Announced? :: t.Announce? && e.thread == k)
  {
    hide Targets, FrameId, Handled;
    if t.Announce? {
      AnnounceQueues(s, k, t, r);
    }
  }

  lemma AnnounceQueues(s: State, k: nat, t: Task, r: Resolution)
    requires t.Announce?
    ensures var next := Exec(s, k, t, r).next;
            DistinctTracks(next) && forall u | u in next :: u.Track?
  {
    var targets := Targets(s, t.owner, t.paths, t.origin);
    TargetsExact(s, s.connections.Keys, t.owner, t.paths, t.origin);
    assert Exec(s, k, t, r).next == Tracks(targets);
    hide Exec, Targets, TargetsAmong, ListFor;
  }

  lemma RestDoesNotOpen(w: World, k: nat)
    requires OpensAlone(w) && k < |w.threads| && w.threads[k] != []
    ensures forall u | u in w.threads[k][1..] :: !Opens(u)
    ensures Opens(w.threads[k][0]) ==> w.threads[k][1..] == []
  {
    assert w.threads[k][0] in w.threads[k];
    forall u | u in w.threads[k][1..]
      ensures !Opens(u)
    {
      assert u in w.threads[k];
    }
  }

  lemma AdvanceOpensAlone(w: World, k: nat, r: Resolution)
    requires OncePerCall(w) && Enabled(w, Advance(k, r))
    ensures OpensAlone(Next(w, Advance(k, r)))
  {
    var w', t := Next(w, Advance(k, r)), w.threads[k][0];
    var o := Exec(w.hub, k, t, r);
    ExecQueues(w.hub, k, t, r);
    RestDoesNotOpen(w, k);
    hide Exec;
    assert forall u | u in w'.threads[k] :: !Opens(u) by {
      assert forall u | u in w'.threads[k] :: u in o.next || u in w.threads[k][1..];
    }
  }

  lemma AdvanceTracksAreNew(w: World, k: nat, r: Resolution)
    requires OncePerCall(w) && Enabled(w, Advance(k, r))
    ensures TracksAreNew(Next(w, Advance(k, r)))
  {
    var w', t := Next(w, Advance(k, r)), w.threads[k][0];
    var o, rest := Exec(w.hub, k, t, r), w.threads[k][1..];
    ExecQueues(w.hub, k, t, r);
    hide Exec;
    assert t in w.threads[k];
    assert Opens(t) ==> rest == [];
    forall j: nat, u | j < |w'.threads| && u in w'.threads[j] && u.Track?
      ensures !HasIssued(w'.log, j, u.c)
    {
      if j == k && u in o.next {
        assert o.events == [] || !o.events[0].Issued?;
      } else {
        assert u in w.threads[j];
        if j == k {
          var a :| 0 <= a < |rest| && rest[a] == u;
          assert w.threads[k][a + 1] == u;
        }
      }
    }
    assert rest == [] || forall u | u in o.next :: !u.Track?;
    QueueStaysDistinct(o.next, w.threads[k]);
  }

  lemma QueueStaysDistinct(next: seq<Task>, queue: seq<Task>)
    requires queue != [] && DistinctTracks(queue)
    requires DistinctTracks(next) && (queue[1..] == [] || forall u | u in next :: !u.Track?)
    ensures DistinctTracks(next + queue[1..])
  {
    var after := next + queue[1..];
    forall a, b | 0 <= a < b < |after| && after[a].Track? && after[b].Track?
      ensures after[a].c != after[b].c
    {
      if a < |next| {
        assert after[a] in next;
      } else {
        assert after[a] == queue[a - |next| + 1] && after[b] == queue[b - |next| + 1];
      }
    }
  }

  lemma AdvanceOnceEach(w: World, k: nat, r: Resolution)
    requires OncePerCall(w) && Enabled(w, Advance(k, r))
    ensures OnceEach(Next(w, Advance(k, r)))
  {
    var w', t := Next(w, Advance(k, r)), w.threads[k][0];
    ExecQueues(w.hub, k, t, r);
    assert t in w.threads[k] && (Opens(t) ==> Unused(w.log, k));
    hide Exec, DistinctTracks;
    forall a: nat, b: nat | a < b < |w'.log|
      ensures w'.log[a].Issued? && w'.log[b].Issued? ==>
                w'.log[a].thread != w'.log[b].thread || w'.log[a].c != w'.log[b].c
      ensures w'.log[a].Announced? && w'.log[b].Announced? ==> w'.log[a].thread != w'.log[b].thread
    {
      assert w'.log[a] == w.log[a] && w.log[a] in w.log;
      if b < |w.log| {
        assert w'.log[b] == w.log[b];
      } else {
        assert w'.log[b] in Exec(w.hub, k, t, r).events;
        assert w'.log[b].Issued? ==> !HasIssued(w.log, k, t.c);
        assert w'.log[b].Announced? ==> Unused(w.log, k);
      }
    }
    forall e | e in w'.log && (e.Issued? || e.Announced?)
      ensures e.thread < |w'.threads|
    {
      assert e in w.log || e in Exec(w.hub, k, t, r).events;
    }
  }

  lemma StartOncePerCall(w: World, l: Label)
    requires OncePerCall(w) && Enabled(w, l) && !l.Advance?
    ensures OncePerCall(Next(w, l))
  {
    var w', n := Next(w, l), |w.threads|;
    StartedBy(w, l);
    hide Next, CallOf;
    assert forall e | e in w'.log && (e.Issued? || e.Announced?) :: e in w.log && e.thread < n;
    assert forall k: nat | k < n :: w'.threads[k] == w.threads[k];
  }

  // ---- A call either catches a client up or announces, never both ----

  predicate IsCatchUp(t: Task) {
    t.Track? && t.payload.RequestChanges?
  }

  ghost predicate HasAnnounced(log: seq<Event>, k: nat) {
    exists e :: e in log && e.Announced? && e.thread == k
  }

  ghost predicate CatchUpsApart(w: World) {
    && (forall k: nat, t | k < |w.threads| && t in w.threads[k] && IsCatchUp(t) :: !HasAnnounced(w.log, k))
    && (forall e | e in w.log && e.Issued? && e.payload.RequestChanges? :: !HasAnnounced(w.log, e.thread))
  }

  lemma ExecCatchUps(s: State, k: nat, t: Task, r: Resolution)
    ensures var o := Exec(s, k, t, r);
            && (forall u | u in o.next && IsCatchUp(u) :: t.Register?)
            && (forall e | e in o.events && e.Announced? ::
                  t.Announce? && e.thread == k && forall u | u in o.next :: !IsCatchUp(u))
            && (forall e | e in o.events && e.Issued? :: t.Track? && e.thread == k && e.payload == t.payload)
  {
    hide Targets, Handled;
  }

  lemma AdvanceCatchUpsApart(w: World, k: nat, r: Resolution)
    requires OpensAlone(w) && CatchUpsApart(w) && Enabled(w, Advance(k, r))
    ensures CatchUpsApart(Next(w, Advance(k, r)))
  {
    var w', t := Next(w, Advance(k, r)), w.threads[k][0];
    var o, rest := Exec(w.hub, k, t, r), w.threads[k][1..];
    ExecCatchUps(w.hub, k, t, r);
    RestDoesNotOpen(w, k);
    assert t in w.threads[k] && (Opens(t) ==> Unused(w.log, k)) && (IsCatchUp(t) ==> !HasAnnounced(w.log, k));
    assert forall u | u in rest :: u in w.threads[k];
    hide Exec;
    forall j: nat, u | j < |w'.threads| && u in w'.threads[j] && IsCatchUp(u)
      ensures !HasAnnounced(w'.log, j)
    {
      assert u in o.next || u in w.threads[j];
      assert !HasAnnounced(w.log, j);
    }
    forall e | e in w'.log && e.Issued? && e.payload.RequestChanges?
      ensures !HasAnnounced(w'.log, e.thread)
    {
      assert e in w.log || e in o.events;
      assert !HasAnnounced(w.log, e.thread);
    }
  }

  // ---- Nothing owed is passed over ----

  ghost predicate IssuedAfter(log: seq<Event>, i: nat, k: nat, c: nat, list: seq<string>) {
    exists j: nat, n: nat :: i < j < |log| && log[j] == Issued(k, c, n, Changes(list))
  }

  ghost predicate DeliveredTo(w: World, i: nat, c: nat)
    requires i < |w.log| && w.log[i].Announced? && OwedAt(w.log, i, c).Some?
  {
    var k, list := w.log[i].thread, OwedAt(w.log, i, c).value;
    || (k < |w.threads| && Track(c, Changes(list)) in w.threads[k])
    || IssuedAfter(w.log, i, k, c, list)
    || WasAbsent(w.log, i, c)
  }

  ghost predicate Delivered(w: World) {
    forall i: nat, c: nat | i < |w.log| && w.log[i].Announced? && OwedAt(w.log, i, c).Some? :: DeliveredTo(w, i, c)
  }

  lemma OwedStays(log: seq<Event>, more: seq<Event>, i: nat, c: nat)
    requires i < |log| && log[i].Announced?
    ensures OwedAt(log + more, i, c) == OwedAt(log, i, c)
  {
    assert (log + more)[..i] == log[..i];
  }

  lemma IssuedStays(log: seq<Event>, more: seq<Event>, i: nat, k: nat, c: nat, list: seq<string>)
    requires IssuedAfter(log, i, k, c, list)
    ensures IssuedAfter(log + more, i, k, c, list)
  {
    var j: nat, n: nat :| i < j < |log| && log[j] == Issued(k, c, n, Changes(list));
    assert (log + more)[j] == log[j];
  }

  /** The block of fSendTracked issues the frame, or finds the connection gone. */
  lemma TrackDelivers(s: State, log: seq<Event>, i: nat, k: nat, c: nat, list: seq<string>, r: Resolution)
    requires Recorded(s, log) && i < |log|
    ensures var log' := log + Exec(s, k, Track(c, Changes(list)), r).events;
            IssuedAfter(log', i, k, c, list) || WasAbsent(log', i, c)
  {
    var log' := log + Exec(s, k, Track(c, Changes(list)), r).events;
    if c in s.connections {
      assert log'[|log|] == Issued(k, c, s.nextFrame, Changes(list));
    } else {
      assert At(s, c) == InLog(log, c);
      assert log'[..|log|] == log;
      assert WasAbsent(log, i, c) by {
        assert log[..|log|] == log;
      }
      StaysAbsent(log, Exec(s, k, Track(c, Changes(list)), r).events, i, c);
    }
  }

  lemma AdvanceDelivers(w: World, k: nat, r: Resolution, i: nat, c: nat)
    requires Recorded(w.hub, w.log) && Enabled(w, Advance(k, r))
    requires i < |w.log| && w.log[i].Announced? && OwedAt(w.log, i, c).Some? && DeliveredTo(w, i, c)
    ensures OwedAt(Next(w, Advance(k, r)).log, i, c) == OwedAt(w.log, i, c)
    ensures DeliveredTo(Next(w, Advance(k, r)), i, c)
  {
    var w', t := Next(w, Advance(k, r)), w.threads[k][0];
    var o := Exec(w.hub, k, t, r);
    var j, list := w.log[i].thread, OwedAt(w.log, i, c).value;
    OwedStays(w.log, o.events, i, c);
    hide Exec, OwedAt, IssuedAfter, WasAbsent;
    if IssuedAfter(w.log, i, j, c, list) {
      IssuedStays(w.log, o.events, i, j, c, list);
    } else if WasAbsent(w.log, i, c) {
      StaysAbsent(w.log, o.events, i, c);
    } else if j == k && t == Track(c, Changes(list)) {
      TrackDelivers(w.hub, w.log, i, k, c, list, r);
    } else if j == k {
      var a :| 0 <= a < |w.threads[k]| && w.threads[k][a] == Track(c, Changes(list));
      assert w'.threads[k][|o.next| + a - 1] == w.threads[k][a];
    }
  }

  lemma NewlyAnnounced(w: World, k: nat, r: Resolution, c: nat)
    requires Recorded(w.hub, w.log) && Enabled(w, Advance(k, r)) && w.threads[k][0].Announce?
    ensures var w' := Next(w, Advance(k, r));
            && |w'.log| == |w.log| + 1 && w'.log[|w.log|].Announced?
            && (OwedAt(w'.log, |w.log|, c).Some? ==> DeliveredTo(w', |w.log|, c))
  {
    var t := w.threads[k][0];
    TracksAreOwed(w.hub, w.log, k, t.owner, t.paths, t.origin);
    hide OwedAt, Targets, Tracks;
  }

  lemma NextDelivers(w: World, l: Label)
    requires Recorded(w.hub, w.log) && Delivered(w) && Enabled(w, l)
    ensures Delivered(Next(w, l))
  {
    hide OwedAt, IssuedAfter, WasAbsent, DeliveredTo;
    var w' := Next(w, l);
    forall i: nat, c: nat | i < |w'.log| && w'.log[i].Announced? && OwedAt(w'.log, i, c).Some?
      ensures DeliveredTo(w', i, c)
    {
      if i < |w.log| {
        assert w'.log == w.log + w'.log[|w.log|..];
        OwedStays(w.log, w'.log[|w.log|..], i, c);
        if l.Advance? {
          AdvanceDelivers(w, l.thread, l.resolution, i, c);
        } else {
          StartDelivers(w, l, i, c);
        }
      } else {
        OnlyAnnounceAnnounces(w, l, i);
        NewlyAnnounced(w, l.thread, l.resolution, c);
      }
    }
  }

  lemma OnlyAnnounceAnnounces(w: World, l: Label, i: nat)
    requires Enabled(w, l) && |w.log| <= i < |Next(w, l).log| && Next(w, l).log[i].Announced?
    ensures l.Advance? && w.threads[l.thread][0].Announce? && i == |w.log|
  {
    if l.Advance? {
      var o := Exec(w.hub, l.thread, w.threads[l.thread][0], l.resolution);
      assert Next(w, l).log[i] == o.events[i - |w.log|];
      assert o.events[i - |w.log|] in o.events;
      ExecQueues(w.hub, l.thread, w.threads[l.thread][0], l.resolution);
    }
  }

  lemma StartDelivers(w: World, l: Label, i: nat, c: nat)
    requires Enabled(w, l) && !l.Advance?
    requires i < |w.log| && w.log[i].Announced? && OwedAt(w.log, i, c).Some? && DeliveredTo(w, i, c)
    ensures OwedAt(Next(w, l).log, i, c) == OwedAt(w.log, i, c) && DeliveredTo(Next(w, l), i, c)
  {
    var w' := Next(w, l);
    var more := w'.log[|w.log|..];
    var k, list := w.log[i].thread, OwedAt(w.log, i, c).value;
    assert w'.log == w.log + more;
    OwedStays(w.log, more, i, c);
    hide OwedAt, IssuedAfter, WasAbsent;
    if IssuedAfter(w.log, i, k, c, list) {
      IssuedStays(w.log, more, i, k, c, list);
    } else if WasAbsent(w.log, i, c) {
      StaysAbsent(w.log, more, i, c);
    }
  }

  // ---- Every frame issued goes out once ----

  ghost predicate HasSent(log: seq<Event>, id: string) {
    exists e :: e in log && e.Sent? && e.id == id
  }

  /** The frame with this id and payload was issued to `c`, by call `k`. */
  ghost predicate WasIssued(log: seq<Event>, k: nat, c: nat, id: string, payload: Payload) {
    exists n: nat :: Issued(k, c, n, payload) in log && FrameId(n) == id
  }

  /** A frame is sent next after it was issued, before anything else its call does. */
  ghost predicate SendsFirst(w: World) {
    forall k: nat, a: nat | k < |w.threads| && a < |w.threads[k]| && w.threads[k][a].Transmit? ::
      var t := w.threads[k][a];
      a == 0 && WasIssued(w.log, k, t.c, t.id, t.payload) && !HasSent(w.log, t.id)
  }

  ghost predicate SendsAll(w: World) {
    forall e | e in w.log && e.Issued? :: GoesOut(w, e)
  }

  ghost predicate GoesOut(w: World, e: Event)
    requires e.Issued?
  {
    || Sent(e.thread, e.c, FrameId(e.n), e.payload) in w.log
    || (e.thread < |w.threads| && Transmit(e.c, FrameId(e.n), e.payload) in w.threads[e.thread])
  }

  ghost predicate SendsOnce(log: seq<Event>) {
    && (forall e | e in log && e.Sent? :: exists k: nat :: WasIssued(log, k, e.c, e.id, e.payload))
    && (forall a: nat, b: nat | a < b < |log| && log[a].Sent? && log[b].Sent? :: log[a].id != log[b].id)
  }

  ghost predicate Sending(w: World) {
    SendsFirst(w) && SendsAll(w) && SendsOnce(w.log)
  }

  lemma WasIssuedStays(log: seq<Event>, more: seq<Event>, k: nat, c: nat, id: string, payload: Payload)
    requires WasIssued(log, k, c, id, payload)
    ensures WasIssued(log + more, k, c, id, payload)
  {
    var n: nat :| Issued(k, c, n, payload) in log && FrameId(n) == id;
    assert Issued(k, c, n, payload) in log + more;
  }

  /** Only one call has issued a given id. */
  lemma IssuedByOne(w: World, k: nat, c: nat, p: Payload, k': nat, c': nat, p': Payload, id: string)
    requires Inv(w) && WasIssued(w.log, k, c, id, p) && WasIssued(w.log, k', c', id, p')
    ensures k == k' && c == c' && p == p'
  {
    var n: nat :| Issued(k, c, n, p) in w.log && FrameId(n) == id;
    var n': nat :| Issued(k', c', n', p') in w.log && FrameId(n') == id;
    var a: nat :| a < |w.log| && w.log[a] == Issued(k, c, n, p);
    var b: nat :| b < |w.log| && w.log[b] == Issued(k', c', n', p');
    IssuedOnce(w, a, b);
  }

  /** The next frame's id has never been sent. */
  lemma NextIdIsNew(w: World)
    requires Inv(w) && SendsOnce(w.log)
    ensures !HasSent(w.log, FrameId(w.hub.nextFrame))
  {
    forall e | e in w.log && e.Sent?
      ensures e.id != FrameId(w.hub.nextFrame)
    {
      var k: nat :| WasIssued(w.log, k, e.c, e.id, e.payload);
      var n: nat :| Issued(k, e.c, n, e.payload) in w.log && FrameId(n) == e.id;
      assert n < w.hub.nextFrame;
      if FrameId(n) == FrameId(w.hub.nextFrame) {
        FrameIdInjective(n, w.hub.nextFrame);
      }
    }
  }

  lemma ExecSends(s: State, k: nat, t: Task, r: Resolution)
    ensures var o := Exec(s, k, t, r);
            && |o.events| <= 1
            && (forall e | e in o.events && e.Sent? :: t == Transmit(e.c, e.id, e.payload) && o.next == [])
            && (t.Transmit? ==> o.events == [Sent(k, t.c, t.id, t.payload)] && o.next == [])
            && (forall a | 0 <= a < |o.next| && o.next[a].Transmit? :: a == 0 && t.Track?
                  && o.next[a] == Transmit(t.c, FrameId(s.nextFrame), t.payload))
            && (forall e | e in o.events && e.Issued? :: t.Track? && e == Issued(k, t.c, s.nextFrame, t.payload)
                  && Transmit(t.c, FrameId(s.nextFrame), t.payload) in o.next)
            && (t.Track? && o.next != [] ==> o.events == [Issued(k, t.c, s.nextFrame, t.payload)])
  {
    hide Targets, FrameId, Handled;
  }

  lemma AdvanceSendsFirst(w: World, k: nat, r: Resolution)
    requires Inv(w) && Sending(w) && Enabled(w, Advance(k, r))
    ensures SendsFirst(Next(w, Advance(k, r)))
  {
    var w', t := Next(w, Advance(k, r)), w.threads[k][0];
    var o := Exec(w.hub, k, t, r);
    ExecSends(w.hub, k, t, r);
    NextIdIsNew(w);
    hide Exec, Inv, WasIssued, HasSent, FrameId;
    var rest := w.threads[k][1..];
    assert w'.threads[k] == o.next + rest;
    forall b: nat | b < |rest|
      ensures !rest[b].Transmit?
    {
      assert rest[b] == w.threads[k][b + 1];
    }
    forall j: nat, a: nat | j < |w'.threads| && a < |w'.threads[j]| && w'.threads[j][a].Transmit?
      ensures var u := w'.threads[j][a]; a == 0 && WasIssued(w'.log, j, u.c, u.id, u.payload) && !HasSent(w'.log, u.id)
    {
      if j == k {
        NewlyIssued(w, k, t);
        NotSentBy(w.log, o.events, FrameId(w.hub.nextFrame));
      } else {
        var u := w.threads[j][a];
        WasIssuedStays(w.log, o.events, j, u.c, u.id, u.payload);
        if t.Transmit? && t.id == u.id {
          IssuedByOne(w, k, t.c, t.payload, j, u.c, u.payload, u.id);
        }
        NotSentBy(w.log, o.events, u.id);
      }
    }
  }

  lemma NewlyIssued(w: World, k: nat, t: Task)
    requires t.Track?
    ensures WasIssued(w.log + [Issued(k, t.c, w.hub.nextFrame, t.payload)], k, t.c, FrameId(w.hub.nextFrame), t.payload)
  {
    var e := Issued(k, t.c, w.hub.nextFrame, t.payload);
    assert e in w.log + [e];
  }

  lemma NotSentBy(log: seq<Event>, more: seq<Event>, id: string)
    requires !HasSent(log, id)
    ensures HasSent(log + more, id) <==> exists e :: e in more && e.Sent? && e.id == id
  {
    forall e | e in more && e.Sent? && e.id == id
      ensures HasSent(log + more, id)
    {
      assert e in log + more;
    }
  }

  lemma AdvanceSendsAll(w: World, k: nat, r: Resolution)
    requires SendsAll(w) && Enabled(w, Advance(k, r))
    ensures SendsAll(Next(w, Advance(k, r)))
  {
    var w', t := Next(w, Advance(k, r)), w.threads[k][0];
    var o := Exec(w.hub, k, t, r);
    ExecSends(w.hub, k, t, r);
    hide Exec, FrameId;
    forall e | e in w'.log && e.Issued?
      ensures GoesOut(w', e)
    {
      if e in w.log {
        var u := Transmit(e.c, FrameId(e.n), e.payload);
        assert GoesOut(w, e);
        if e.thread == k && u in w.threads[k] && u != t {
          var a :| 0 <= a < |w.threads[k]| && w.threads[k][a] == u;
          assert w'.threads[k][|o.next| + a - 1] == u;
        }
      } else {
        assert e in o.events;
      }
    }
  }

  lemma AdvanceSendsOnce(w: World, k: nat, r: Resolution)
    requires Sending(w) && Enabled(w, Advance(k, r))
    ensures SendsOnce(Next(w, Advance(k, r)).log)
  {
    var w', t := Next(w, Advance(k, r)), w.threads[k][0];
    var o := Exec(w.hub, k, t, r);
    ExecSends(w.hub, k, t, r);
    hide Exec, FrameId, WasIssued;
    forall e | e in w'.log && e.Sent?
      ensures exists j: nat :: WasIssued(w'.log, j, e.c, e.id, e.payload)
    {
      assert e in w.log || e in o.events;
      var j: nat :| WasIssued(w.log, j, e.c, e.id, e.payload);
      WasIssuedStays(w.log, o.events, j, e.c, e.id, e.payload);
    }
    forall a: nat, b: nat | a < b < |w'.log| && w'.log[a].Sent? && w'.log[b].Sent?
      ensures w'.log[a].id != w'.log[b].id
    {
      assert w'.log[a] == w.log[a] && w.log[a] in w.log;
      if b == |w.log| {
        assert w'.log[b] in o.events && !HasSent(w.log, t.id);
      }
    }
  }

  lemma StartSending(w: World, l: Label)
    requires Sending(w) && Enabled(w, l) && !l.Advance?
    ensures Sending(Next(w, l))
  {
    var w', n := Next(w, l), |w.threads|;
    StartedBy(w, l);
    hide FrameId, Next, CallOf, WasIssued;
    var more := [StartOf(n, CallOf(w, l))];
    assert w'.log == w.log + more;
    assert forall k: nat | k < n :: w'.threads[k] == w.threads[k];
    forall k: nat, a: nat | k < |w'.threads| && a < |w'.threads[k]| && w'.threads[k][a].Transmit?
      ensures var u := w'.threads[k][a]; a == 0 && WasIssued(w'.log, k, u.c, u.id, u.payload) && !HasSent(w'.log, u.id)
    {
      var u := w'.threads[k][a];
      assert u in w'.threads[k];
      WasIssuedStays(w.log, more, k, u.c, u.id, u.payload);
    }
    forall e | e in w'.log && e.Sent?
      ensures exists j: nat :: WasIssued(w'.log, j, e.c, e.id, e.payload)
    {
      assert e in w.log;
      var j: nat :| WasIssued(w.log, j, e.c, e.id, e.payload);
      WasIssuedStays(w.log, more, j, e.c, e.id, e.payload);
    }
    forall e | e in w'.log && e.Issued?
      ensures GoesOut(w', e)
    {
      assert e in w.log && GoesOut(w, e);
    }
  }

  // ---- Whole runs ----

  ghost predicate DeliveryInv(w: World) {
    OncePerCall(w) && CatchUpsApart(w) && Delivered(w) && Sending(w)
  }

  lemma NextKeepsDelivery(w: World, l: Label)
    requires Inv(w) && DeliveryInv(w) && Enabled(w, l)
    ensures DeliveryInv(Next(w, l))
  {
    RecordedIn(w);
    NextDelivers(w, l);
    if l.Advance? {
      AdvanceOpensAlone(w, l.thread, l.resolution);
      AdvanceTracksAreNew(w, l.thread, l.resolution);
      AdvanceOnceEach(w, l.thread, l.resolution);
      AdvanceCatchUpsApart(w, l.thread, l.resolution);
      AdvanceSendsFirst(w, l.thread, l.resolution);
      AdvanceSendsAll(w, l.thread, l.resolution);
      AdvanceSendsOnce(w, l.thread, l.resolution);
    } else {
      StartOncePerCall(w, l);
      StartCatchUpsApart(w, l);
      StartSending(w, l);
    }
  }

  lemma RecordedIn(w: World)
    requires Inv(w)
    ensures Recorded(w.hub, w.log)
  {
  }

  lemma StartCatchUpsApart(w: World, l: Label)
    requires CatchUpsApart(w) && Enabled(w, l) && !l.Advance?
    ensures CatchUpsApart(Next(w, l))
  {
    var w', n := Next(w, l), |w.threads|;
    assert forall e | e in w'.log && (e.Issued? || e.Announced?) :: e in w.log;
    assert forall k: nat | k < n :: w'.threads[k] == w.threads[k];
    assert forall t | t in w'.threads[n] :: !t.Track?;
  }

  lemma {:induction false} RunKeepsDelivery(w: World, run: seq<Label>)
    requires Inv(w) && DeliveryInv(w) && Legal(w, run)
    requires w.hub.nextConnection + |run| < U64 && w.hub.nextFrame + |run| < U64
    ensures Inv(After(w, run)) && DeliveryInv(After(w, run))
    decreases |run|
  {
    hide Inv, DeliveryInv, Next;
    if run != [] {
      NextKeepsInv(w, run[0]);
      NextKeepsDelivery(w, run[0]);
      RunKeepsDelivery(Next(w, run[0]), run[1..]);
    }
  }

  /** Event `j` issues a frame to `c`, by the call that made the announcement at event `i`. */
  predicate IsFrameOf(log: seq<Event>, j: nat, i: nat, c: nat)
    requires i < |log| && log[i].Announced?
  {
    j < |log| && log[j].Issued? && log[j].thread == log[i].thread && log[j].c == c
  }

  /** The frame issued at event `j` has been sent, once. */
  ghost predicate SentExactlyOnce(log: seq<Event>, j: nat)
    requires j < |log| && log[j].Issued?
  {
    exists a: nat :: a < |log| && log[a] == Sent(log[j].thread, log[j].c, FrameId(log[j].n), log[j].payload)
      && forall b: nat | b < |log| && log[b].Sent? && log[b].id == FrameId(log[j].n) :: b == a
  }

  /** At any moment of any run, an announcement has led to at most the frames it owes, each to who it owes it. */
  lemma FramesAreOwedOnce(w: World, i: nat, c: nat)
    requires Inv(w) && DeliveryInv(w) && i < |w.log| && w.log[i].Announced?
    ensures forall j: nat | IsFrameOf(w.log, j, i, c) ::
              i < j && w.log[j].payload.Changes? && OwedAt(w.log, i, c) == Some(w.log[j].payload.paths)
    ensures forall j: nat, j': nat | IsFrameOf(w.log, j, i, c) && IsFrameOf(w.log, j', i, c) :: j == j'
  {
    forall j: nat | IsFrameOf(w.log, j, i, c)
      ensures i < j && w.log[j].payload.Changes? && OwedAt(w.log, i, c) == Some(w.log[j].payload.paths)
    {
      hide Inv, OwedAt, Delivered, Sending;
      assert w.log[i] in w.log && w.log[j] in w.log;
      assert HasAnnounced(w.log, w.log[j].thread);
      var i' := ChangesAreEntitled(w, j);
      assert i' == i;
    }
  }

  lemma FinishedIsSent(w: World, j: nat)
    requires DeliveryInv(w) && j < |w.log| && w.log[j].Issued?
    requires w.log[j].thread < |w.threads| && w.threads[w.log[j].thread] == []
    ensures SentExactlyOnce(w.log, j)
  {
    hide FrameId, OncePerCall, CatchUpsApart, Delivered;
    assert w.log[j] in w.log && GoesOut(w, w.log[j]);
    var a: nat :| a < |w.log| && w.log[a] == Sent(w.log[j].thread, w.log[j].c, FrameId(w.log[j].n), w.log[j].payload);
    forall b: nat | b < |w.log| && w.log[b].Sent? && w.log[b].id == FrameId(w.log[j].n)
      ensures b == a
    {
      assert a < b || b < a || a == b;
    }
  }

  /**
   In every interleaving from an empty hub: once the call behind an announcement has ended, every connection the
   announcement owed a list, as the connection was at that moment, has been issued exactly one frame with that list,
   and that frame was sent exactly once; unless the connection was gone at some point after the announcement. No
   other connection was issued a frame for it.
   */
  lemma AnnouncementReachesAll(run: seq<Label>, i: nat, c: nat)
    requires Legal(INITIAL, run) && 1 + |run| < U64
    requires var w := After(INITIAL, run);
             i < |w.log| && w.log[i].Announced? && w.log[i].thread < |w.threads| && w.threads[w.log[i].thread] == []
    ensures var log := After(INITIAL, run).log;
            && (forall j: nat | IsFrameOf(log, j, i, c) ::
                  i < j && log[j].payload.Changes? && OwedAt(log, i, c) == Some(log[j].payload.paths)
                  && SentExactlyOnce(log, j))
            && (forall j: nat, j': nat | IsFrameOf(log, j, i, c) && IsFrameOf(log, j', i, c) :: j == j')
            && (OwedAt(log, i, c).Some? ==> (exists j: nat :: IsFrameOf(log, j, i, c)) || WasAbsent(log, i, c))
  {
    InitialInv();
    assert DeliveryInv(INITIAL);
    RunKeepsDelivery(INITIAL, run);
    FinishedAnnouncement(After(INITIAL, run), i, c);
  }

  lemma FinishedAnnouncement(w: World, i: nat, c: nat)
    requires Inv(w) && DeliveryInv(w)
    requires i < |w.log| && w.log[i].Announced? && w.log[i].thread < |w.threads| && w.threads[w.log[i].thread] == []
    ensures forall j: nat | IsFrameOf(w.log, j, i, c) ::
              i < j && w.log[j].payload.Changes? && OwedAt(w.log, i, c) == Some(w.log[j].payload.paths)
              && SentExactlyOnce(w.log, j)
    ensures forall j: nat, j': nat | IsFrameOf(w.log, j, i, c) && IsFrameOf(w.log, j', i, c) :: j == j'
    ensures OwedAt(w.log, i, c).Some? ==> (exists j: nat :: IsFrameOf(w.log, j, i, c)) || WasAbsent(w.log, i, c)
  {
    FramesAreOwedOnce(w, i, c);
    forall j: nat | IsFrameOf(w.log, j, i, c)
      ensures SentExactlyOnce(w.log, j)
    {
      FinishedIsSent(w, j);
    }
    hide Inv, OncePerCall, CatchUpsApart, Sending, OwedAt, SentExactlyOnce, WasAbsent;
    if OwedAt(w.log, i, c).Some? && !WasAbsent(w.log, i, c) {
      var list := OwedAt(w.log, i, c).value;
      assert DeliveredTo(w, i, c);
      var j: nat, n: nat :| i < j < |w.log| && w.log[j] == Issued(w.log[i].thread, c, n, Changes(list));
      assert IsFrameOf(w.log, j, i, c);
    }
  }
}
