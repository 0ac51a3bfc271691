/** What each call does from its start to its end, in every interleaving: its own events, in order, and what is left. */
module HubCalls {
  import opened Wrappers
  import opened Hub
  import opened HubSystem
  import opened HubHistory

  // ---- The events of one call ----

  /** The events of call `k`, in the order they were logged. */
  function Own(log: seq<Event>, k: nat): seq<Event> {
    if log == [] then []
    else
      var init, e := Own(log[..|log| - 1], k), log[|log| - 1];
      if e.thread == k then init + [e] else init
  }

  lemma OwnSnoc(log: seq<Event>, e: Event, k: nat)
    ensures Own(log + [e], k) == if e.thread == k then Own(log, k) + [e] else Own(log, k)
  {
    assert (log + [e])[..|log|] == log;
  }

  lemma {:induction false} OwnPrefix(log: seq<Event>, j: nat, k: nat)
    requires j <= |log|
    ensures Own(log[..j], k) <= Own(log, k)
  {
    if j < |log| {
      OwnPrefix(log[..|log| - 1], j, k);
      assert log[..|log| - 1][..j] == log[..j];
    } else {
      assert log[..j] == log;
    }
  }

  /** Where an event of the log stands among the events of its call. */
  lemma OwnAt(log: seq<Event>, j: nat)
    requires j < |log|
    ensures var k := log[j].thread;
            |Own(log[..j], k)| < |Own(log, k)| && Own(log, k)[|Own(log[..j], k)|] == log[j]
  {
    var k := log[j].thread;
    assert log[..j + 1] == log[..j] + [log[j]];
    OwnSnoc(log[..j], log[j], k);
    OwnPrefix(log, j + 1, k);
    assert Own(log[..j + 1], k)[|Own(log[..j], k)|] == log[j];
  }

  lemma OwnOrder(log: seq<Event>, i: nat, j: nat)
    requires i < j < |log| && log[i].thread == log[j].thread
    ensures |Own(log[..i], log[i].thread)| < |Own(log[..j], log[i].thread)|
  {
    assert log[..j][..i] == log[..i];
    OwnAt(log[..j], i);
  }

  /** And the other way: the event of the log that is the `p`-th of call `k`. */
  lemma {:induction false} OwnSource(log: seq<Event>, k: nat, p: nat) returns (j: nat)
    requires p < |Own(log, k)|
    ensures j < |log| && log[j] == Own(log, k)[p] && log[j].thread == k && |Own(log[..j], k)| == p
  {
    var init, e := log[..|log| - 1], log[|log| - 1];
    if e.thread == k && p == |Own(init, k)| {
      j := |log| - 1;
    } else {
      j := OwnSource(init, k, p);
      assert init[..j] == log[..j];
    }
  }

  predicate IsStart(e: Event) {
    e.Heard? || e.Began?
  }

  // ---- The course of a message ----

  predicate IsFrame(f: Incoming, kind: string) {
    f.Frame? && f.kind == kind
  }

  predicate Ignored(f: Incoming) {
    f.Unreadable? || f.kind !in {"ack", "hello", "ping", "changes", "watch", "unwatch"}
  }

  /** The answer of the resolver that leads to setting `target`. */
  function AnswerFor(target: Option<Watch>): Resolution {
    if target.None? then NoResolver else Resolved(target.value)
  }

  function TargetOf(answer: Resolution): Option<Watch> {
    if answer.Resolved? then Some(answer.watch) else None
  }

  /** What a call has logged when it is about to set `target`: for a watch, that the resolver did not refuse it. */
  predicate Deciding(k: nat, c: nat, f: Incoming, target: Option<Watch>, es: seq<Event>) {
    || (IsFrame(f, "unwatch") && target.None? && es == [])
    || (IsFrame(f, "watch") && |es| == 1 && es[0].Asked?
        && es[0] == Asked(k, c, es[0].user, f.request, AnswerFor(target)))
  }

  /** What a call has logged when all but its reply is done. */
  predicate Decided(k: nat, c: nat, f: Incoming, kind: AnswerKind, es: seq<Event>) {
    match kind
    case Nack =>
      IsFrame(f, "watch") && |es| == 1 && es[0].Asked? && es[0] == Asked(k, c, es[0].user, f.request, Refused)
    case Ack =>
      || ((IsFrame(f, "ping") || IsFrame(f, "changes")) && es == [])
      || (IsFrame(f, "hello") && es == [Greeted(k, c, f.device)])
      || (|es| >= 1 && es[|es| - 1].WatchSet? && es[|es| - 1] == WatchSet(k, c, es[|es| - 1].target)
          && Deciding(k, c, f, es[|es| - 1].target, es[..|es| - 1]))
  }

  /** A reply under the frame's own id; a frame without an id gets none. */
  function Reply(k: nat, c: nat, kind: AnswerKind, id: string): seq<Event> {
    if id == "" then [] else [Answered(k, c, kind, id)]
  }

  predicate Replied(k: nat, c: nat, f: Incoming, kind: AnswerKind, es: seq<Event>) {
    f.Frame? && var reply := Reply(k, c, kind, f.id);
    |reply| <= |es| && es[|es| - |reply|..] == reply && Decided(k, c, f, kind, es[..|es| - |reply|])
  }

  /** The whole of what a call that heard `f` logs; only if its connection was found gone may it stop short. */
  predicate FrameEnded(k: nat, c: nat, f: Incoming, es: seq<Event>, absent: bool) {
    if Ignored(f) then es == []
    else if f.kind == "ack" then es == [Acked(k, c, f.id)] || (absent && es == [])
    else
      || Replied(k, c, f, Ack, es) || Replied(k, c, f, Nack, es)
      || (absent && (es == []
            || (|es| == 1 && es[0].Asked? && !es[0].answer.Refused? && Deciding(k, c, f, TargetOf(es[0].answer), es))))
  }

  predicate FrameCourse(k: nat, c: nat, f: Incoming, es: seq<Event>, tasks: seq<Task>, absent: bool) {
    if tasks == [] then FrameEnded(k, c, f, es, absent)
    else
      && |tasks| == 1
      && match tasks[0]
         case Receive(d, g) => d == c && g == f && es == []
         case ResolveWatch(d, _, request, id) =>
           d == c && IsFrame(f, "watch") && request == f.request && id == f.id && es == []
         case SetWatch(d, target, id) => d == c && f.Frame? && id == f.id && Deciding(k, c, f, target, es)
         case SendAnswer(d, kind, id) => d == c && f.Frame? && id == f.id && id != "" && Decided(k, c, f, kind, es)
         case _ => false
  }

  /** Only frames that want an answer are decided on. */
  lemma DecidedOn(k: nat, c: nat, f: Incoming, kind: AnswerKind, es: seq<Event>)
    requires Decided(k, c, f, kind, es)
    ensures f.Frame? && f.kind in {"hello", "ping", "changes", "watch", "unwatch"}
  {
  }

  lemma ReplyEnds(k: nat, c: nat, f: Incoming, kind: AnswerKind, es: seq<Event>, absent: bool)
    requires Decided(k, c, f, kind, es)
    ensures f.Frame? && FrameEnded(k, c, f, es + Reply(k, c, kind, f.id), absent)
  {
    DecidedOn(k, c, f, kind, es);
    var reply := Reply(k, c, kind, f.id);
    var es' := es + reply;
    assert |es'| - |reply| == |es| && es'[..|es|] == es && es'[|es|..] == reply;
    hide Reply, Decided;
    assert Replied(k, c, f, kind, es');
  }

  lemma AnswerIsNext(k: nat, c: nat, f: Incoming, kind: AnswerKind, es: seq<Event>, absent: bool)
    requires f.Frame? && Decided(k, c, f, kind, es)
    ensures FrameCourse(k, c, f, es, AnswerWith(c, kind, f.id), absent)
  {
    if f.id == "" {
      ReplyEnds(k, c, f, kind, es, absent);
      assert es + [] == es;
    }
    hide FrameEnded, Decided;
  }

  lemma ReceiveStep(s: State, k: nat, c: nat, f: Incoming, r: Resolution, gone: bool)
    requires c !in s.connections ==> gone
    ensures var o := Exec(s, k, Receive(c, f), r); FrameCourse(k, c, f, o.events, o.next, gone)
  {
    if c in s.connections && f.Frame? && f.kind in {"hello", "ping", "changes"} {
      AnswerIsNext(k, c, f, Ack, Exec(s, k, Receive(c, f), r).events, gone);
    }
  }

  lemma ResolveStep(s: State, k: nat, c: nat, f: Incoming, user: string, r: Resolution, gone: bool)
    requires IsFrame(f, "watch")
    ensures var o := Exec(s, k, ResolveWatch(c, user, f.request, f.id), r); FrameCourse(k, c, f, o.events, o.next, gone)
  {
    if r.Refused? {
      AnswerIsNext(k, c, f, Nack, [Asked(k, c, user, f.request, Refused)], gone);
    }
  }

  lemma SettingDecides(k: nat, c: nat, f: Incoming, target: Option<Watch>, es: seq<Event>)
    requires Deciding(k, c, f, target, es)
    ensures Decided(k, c, f, Ack, es + [WatchSet(k, c, target)])
  {
    hide Deciding;
    var es' := es + [WatchSet(k, c, target)];
    assert es'[|es'| - 1] == WatchSet(k, c, target) && es'[..|es'| - 1] == es;
  }

  lemma GoneMayStop(k: nat, c: nat, f: Incoming, target: Option<Watch>, es: seq<Event>)
    requires Deciding(k, c, f, target, es)
    ensures FrameEnded(k, c, f, es, true)
  {
    hide Replied;
  }

  lemma SetStep(s: State, k: nat, c: nat, f: Incoming, target: Option<Watch>, es: seq<Event>, r: Resolution, gone: bool)
    requires f.Frame? && Deciding(k, c, f, target, es) && (c !in s.connections ==> gone)
    ensures var o := Exec(s, k, SetWatch(c, target, f.id), r); FrameCourse(k, c, f, es + o.events, o.next, gone)
  {
    var o := Exec(s, k, SetWatch(c, target, f.id), r);
    assert c in s.connections ==> o.events == [WatchSet(k, c, target)] && o.next == AnswerWith(c, Ack, f.id);
    assert c !in s.connections ==> o.events == [] && o.next == [] && es + [] == es;
    hide Exec, Deciding, Decided, FrameEnded;
    if c in s.connections {
      SettingDecides(k, c, f, target, es);
      AnswerIsNext(k, c, f, Ack, es + [WatchSet(k, c, target)], gone);
    } else {
      GoneMayStop(k, c, f, target, es);
    }
  }

  lemma AnswerStep(s: State, k: nat, c: nat, f: Incoming, kind: AnswerKind, es: seq<Event>, r: Resolution, gone: bool)
    requires f.Frame? && f.id != "" && Decided(k, c, f, kind, es)
    ensures var o := Exec(s, k, SendAnswer(c, kind, f.id), r); FrameCourse(k, c, f, es + o.events, o.next, gone)
  {
    ReplyEnds(k, c, f, kind, es, gone);
    var o := Exec(s, k, SendAnswer(c, kind, f.id), r);
    assert o.events == Reply(k, c, kind, f.id) && o.next == [];
    hide FrameEnded, Decided;
  }

  /** Each task takes the call to the next stage of its course. */
  lemma FrameStep(s: State, k: nat, c: nat, f: Incoming, es: seq<Event>, tasks: seq<Task>, absent: bool, r: Resolution)
    requires FrameCourse(k, c, f, es, tasks, absent) && tasks != []
    ensures var o := Exec(s, k, tasks[0], r);
            FrameCourse(k, c, f, es + o.events, o.next + tasks[1..], absent || c !in s.connections)
  {
    var t, o, gone := tasks[0], Exec(s, k, tasks[0], r), absent || c !in s.connections;
    assert o.next + tasks[1..] == o.next;
    assert es == [] ==> es + o.events == o.events;
    hide Exec, Deciding, Decided, FrameEnded;
    match t
    case Receive(_, _) => ReceiveStep(s, k, c, f, r, gone);
    case ResolveWatch(_, user, _, _) => ResolveStep(s, k, c, f, user, r, gone);
    case SetWatch(_, target, _) => SetStep(s, k, c, f, target, es, r, gone);
    case SendAnswer(_, kind, _) => AnswerStep(s, k, c, f, kind, es, r, gone);
  }

  // ---- The courses of the other calls ----

  /** fExpire: the connection is dropped and its peer closed, or the frame was found not owed. */
  predicate ExpireCourse(k: nat, c: nat, id: string, es: seq<Event>, tasks: seq<Task>, spared: bool) {
    || (tasks == [Expire(c, id)] && es == [])
    || (tasks == [Close(c)] && es == [TimedOut(k, c, id)])
    || (tasks == [] && es == [TimedOut(k, c, id), PeerClosed(k, c)])
    || (tasks == [] && es == [] && spared)
  }

  lemma ExpireStep(s: State, k: nat, c: nat, id: string, es: seq<Event>, tasks: seq<Task>, spared: bool, r: Resolution)
    requires ExpireCourse(k, c, id, es, tasks, spared) && tasks != []
    ensures var o := Exec(s, k, tasks[0], r);
            ExpireCourse(k, c, id, es + o.events, o.next + tasks[1..], spared || !IsOwed(s, c, id))
  {
  }

  /** fRemove. */
  predicate DropCourse(k: nat, c: nat, es: seq<Event>, tasks: seq<Task>, absent: bool) {
    || (tasks == [Drop(c)] && es == [])
    || (tasks == [] && es == [Left(k, c)])
    || (tasks == [] && es == [] && absent)
  }

  lemma DropStep(s: State, k: nat, c: nat, es: seq<Event>, tasks: seq<Task>, absent: bool, r: Resolution)
    requires DropCourse(k, c, es, tasks, absent) && tasks != []
    ensures var o := Exec(s, k, tasks[0], r);
            DropCourse(k, c, es + o.events, o.next + tasks[1..], absent || c !in s.connections)
  {
  }

  /** fAdd: the connection joins; one of a user is then issued, sent and timed one catch-up frame. */
  predicate RegisterCourse(k: nat, user: string, es: seq<Event>, tasks: seq<Task>, gone: bool) {
    if es == [] then tasks == [Register(user)]
    else
      && es[0].Joined? && es[0] == Joined(k, es[0].c, user)
      && var c := es[0].c;
      if user == "" then |es| == 1 && tasks == []
      else if |es| == 1 then tasks == [Track(c, RequestChanges)] || (tasks == [] && gone)
      else
        && es[1].Issued? && es[1] == Issued(k, c, es[1].n, RequestChanges)
        && var id := FrameId(es[1].n);
        || (|es| == 2 && tasks == [Transmit(c, id, RequestChanges), Arm(c, id)])
        || (|es| == 3 && es[2] == Sent(k, c, id, RequestChanges) && tasks == [Arm(c, id)])
        || (|es| == 4 && es[2] == Sent(k, c, id, RequestChanges) && es[3] == Armed(k, c, id) && tasks == [])
  }

  lemma RegisterStep(s: State, k: nat, user: string, es: seq<Event>, tasks: seq<Task>, gone: bool, r: Resolution)
    requires RegisterCourse(k, user, es, tasks, gone) && tasks != []
    ensures var o := Exec(s, k, tasks[0], r);
            RegisterCourse(k, user, es + o.events, o.next + tasks[1..],
                           gone || (es != [] && es[0].Joined? && es[0].c !in s.connections))
  {
    hide FrameId;
    var o := Exec(s, k, tasks[0], r);
    if es != [] {
      assert (es + o.events)[0] == es[0];
    }
  }

  /** fNotify: it announces, and then only issues, sends and times frames that list changes. */
  predicate AnnounceCourse(es: seq<Event>, tasks: seq<Task>) {
    && (forall e | e in es ::
          e.Announced? || (e.Issued? && e.payload.Changes?) || (e.Sent? && e.payload.Changes?) || e.Armed?)
    && (forall t | t in tasks ::
          t.Announce? || (t.Track? && t.payload.Changes?) || (t.Transmit? && t.payload.Changes?) || t.Arm?)
  }

  lemma AnnounceStep(s: State, k: nat, es: seq<Event>, tasks: seq<Task>, r: Resolution)
    requires AnnounceCourse(es, tasks) && tasks != []
    ensures var o := Exec(s, k, tasks[0], r); AnnounceCourse(es + o.events, o.next + tasks[1..])
  {
    assert tasks[0] in tasks;
    hide Targets;
  }

  // ---- Every call is on its course ----

  /** The connection was found gone at some point after call `k` started. */
  ghost predicate AbsentSince(log: seq<Event>, k: nat, c: nat) {
    exists h: nat :: h < |log| && IsStart(log[h]) && log[h].thread == k && WasAbsent(log, h, c)
  }

  predicate OwedIn(conn: Option<Connection>, id: string) {
    conn.Some? && id in conn.value.pending
  }

  ghost predicate WasNotOwed(log: seq<Event>, h: nat, c: nat, id: string) {
    exists i: nat :: h < i <= |log| && !OwedIn(InLog(log[..i], c), id)
  }

  ghost predicate SparedSince(log: seq<Event>, k: nat, c: nat, id: string) {
    exists h: nat :: h < |log| && IsStart(log[h]) && log[h].thread == k && WasNotOwed(log, h, c, id)
  }

  ghost predicate GoneSinceJoin(log: seq<Event>, k: nat) {
    exists h: nat :: h < |log| && log[h].Joined? && log[h].thread == k && WasAbsent(log, h, log[h].c)
  }

  lemma AbsentSinceStays(log: seq<Event>, more: seq<Event>, k: nat, c: nat)
    requires AbsentSince(log, k, c)
    ensures AbsentSince(log + more, k, c)
  {
    var h: nat :| h < |log| && IsStart(log[h]) && log[h].thread == k && WasAbsent(log, h, c);
    StaysAbsent(log, more, h, c);
    assert (log + more)[h] == log[h];
  }

  lemma SparedSinceStays(log: seq<Event>, more: seq<Event>, k: nat, c: nat, id: string)
    requires SparedSince(log, k, c, id)
    ensures SparedSince(log + more, k, c, id)
  {
    var h: nat :| h < |log| && IsStart(log[h]) && log[h].thread == k && WasNotOwed(log, h, c, id);
    var i: nat :| h < i <= |log| && !OwedIn(InLog(log[..i], c), id);
    assert (log + more)[h] == log[h] && (log + more)[..i] == log[..i];
    assert WasNotOwed(log + more, h, c, id);
  }

  lemma GoneSinceJoinStays(log: seq<Event>, more: seq<Event>, k: nat)
    requires GoneSinceJoin(log, k)
    ensures GoneSinceJoin(log + more, k)
  {
    var h: nat :| h < |log| && log[h].Joined? && log[h].thread == k && WasAbsent(log, h, log[h].c);
    StaysAbsent(log, more, h, log[h].c);
    assert (log + more)[h] == log[h];
  }

  /** The call of number `k` has logged its own events, and has its own tasks left, as its kind of call goes. */
  ghost predicate Course(log: seq<Event>, k: nat, tasks: seq<Task>) {
    var es := Own(log, k);
    && es != []
    && match es[0]
       case Heard(_, c, f) => FrameCourse(k, c, f, es[1..], tasks, AbsentSince(log, k, c))
       case Began(_, Register(user)) => RegisterCourse(k, user, es[1..], tasks, GoneSinceJoin(log, k))
       case Began(_, Expire(c, id)) => ExpireCourse(k, c, id, es[1..], tasks, SparedSince(log, k, c, id))
       case Began(_, Drop(c)) => DropCourse(k, c, es[1..], tasks, AbsentSince(log, k, c))
       case Began(_, Announce(_, _, _)) => AnnounceCourse(es[1..], tasks)
       case _ => false
  }

  /** No two calls share a number. */
  ghost predicate StartsApart(w: World) {
    && (forall e | e in w.log :: e.thread < |w.threads|)
    && (forall a: nat, b: nat | a < b < |w.log| && IsStart(w.log[a]) && IsStart(w.log[b]) ::
          w.log[a].thread != w.log[b].thread)
  }

  ghost predicate Courses(w: World) {
    StartsApart(w) && forall k: nat | k < |w.threads| :: Course(w.log, k, w.threads[k])
  }

  lemma OwnEvents(log: seq<Event>, more: seq<Event>, j: nat, k: nat)
    requires |more| <= 1 && forall e | e in more :: e.thread == k
    ensures Own(log + more, j) == if j == k then Own(log, j) + more else Own(log, j)
  {
    if more == [] {
      assert log + more == log;
    } else {
      assert more == [more[0]];
      OwnSnoc(log, more[0], j);
    }
  }

  lemma ExecOwns(s: State, k: nat, t: Task, r: Resolution)
    ensures var o := Exec(s, k, t, r);
            |o.events| <= 1 && forall e | e in o.events :: e.thread == k && !IsStart(e)
  {
    hide Targets, FrameId;
  }

  /** A longer log leaves a call that took no step on its course. */
  lemma CourseStays(log: seq<Event>, more: seq<Event>, k: nat, tasks: seq<Task>)
    requires Course(log, k, tasks) && Own(log + more, k) == Own(log, k)
    ensures Course(log + more, k, tasks)
  {
    hide Own, AbsentSince, SparedSince, GoneSinceJoin;
    match Own(log, k)[0]
    case Heard(_, c, _) =>
      if AbsentSince(log, k, c) {
        AbsentSinceStays(log, more, k, c);
      }
    case Began(_, Register(_)) =>
      if GoneSinceJoin(log, k) {
        GoneSinceJoinStays(log, more, k);
      }
    case Began(_, Expire(c, id)) =>
      if SparedSince(log, k, c, id) {
        SparedSinceStays(log, more, k, c, id);
      }
    case Began(_, Drop(c)) =>
      if AbsentSince(log, k, c) {
        AbsentSinceStays(log, more, k, c);
      }
    case _ =>
  }

  /** What the hub holds now is what the log says of any time since the call started. */
  lemma FlagsOfNow(s: State, log: seq<Event>, k: nat, c: nat, id: string)
    requires Recorded(s, log) && Own(log, k) != [] && IsStart(Own(log, k)[0])
    ensures c !in s.connections ==> AbsentSince(log, k, c)
    ensures !IsOwed(s, c, id) ==> SparedSince(log, k, c, id)
  {
    var h := OwnSource(log, k, 0);
    assert At(s, c) == InLog(log, c) && log[..|log|] == log;
    if c !in s.connections {
      assert WasAbsent(log, h, c);
    }
    if !IsOwed(s, c, id) {
      assert WasNotOwed(log, h, c, id);
    }
  }

  lemma GoneNow(s: State, log: seq<Event>, k: nat)
    requires Recorded(s, log) && |Own(log, k)| > 1 && Own(log, k)[1].Joined? && Own(log, k)[1].c !in s.connections
    ensures GoneSinceJoin(log, k)
  {
    var h := OwnSource(log, k, 1);
    assert At(s, log[h].c) == InLog(log, log[h].c) && log[..|log|] == log;
    assert WasAbsent(log, h, log[h].c);
  }

  lemma FrameCourseGrows(k: nat, c: nat, f: Incoming, es: seq<Event>, tasks: seq<Task>, absent: bool, now: bool)
    requires FrameCourse(k, c, f, es, tasks, absent) && (absent ==> now)
    ensures FrameCourse(k, c, f, es, tasks, now)
  {
    hide Deciding, Decided, Replied, Ignored;
  }

  lemma AdvanceFrame(w: World, k: nat, c: nat, f: Incoming, es: seq<Event>, r: Resolution)
    requires Recorded(w.hub, w.log) && Enabled(w, Advance(k, r)) && Own(w.log, k) != [] && IsStart(Own(w.log, k)[0])
    requires FrameCourse(k, c, f, es, w.threads[k], AbsentSince(w.log, k, c))
    ensures var o := Exec(w.hub, k, w.threads[k][0], r);
            FrameCourse(k, c, f, es + o.events, o.next + w.threads[k][1..], AbsentSince(w.log + o.events, k, c))
  {
    var tasks, o := w.threads[k], Exec(w.hub, k, w.threads[k][0], r);
    FrameStep(w.hub, k, c, f, es, tasks, AbsentSince(w.log, k, c), r);
    FlagsOfNow(w.hub, w.log, k, c, "");
    hide Exec, Own, Recorded, AbsentSince, FrameCourse;
    if AbsentSince(w.log, k, c) {
      AbsentSinceStays(w.log, o.events, k, c);
    }
    FrameCourseGrows(k, c, f, es + o.events, o.next + tasks[1..],
                     AbsentSince(w.log, k, c) || c !in w.hub.connections, AbsentSince(w.log + o.events, k, c));
  }

  lemma AdvanceExpire(w: World, k: nat, c: nat, id: string, es: seq<Event>, r: Resolution)
    requires Recorded(w.hub, w.log) && Enabled(w, Advance(k, r)) && Own(w.log, k) != [] && IsStart(Own(w.log, k)[0])
    requires ExpireCourse(k, c, id, es, w.threads[k], SparedSince(w.log, k, c, id))
    ensures var o := Exec(w.hub, k, w.threads[k][0], r);
            ExpireCourse(k, c, id, es + o.events, o.next + w.threads[k][1..], SparedSince(w.log + o.events, k, c, id))
  {
    var tasks, o := w.threads[k], Exec(w.hub, k, w.threads[k][0], r);
    ExpireStep(w.hub, k, c, id, es, tasks, SparedSince(w.log, k, c, id), r);
    FlagsOfNow(w.hub, w.log, k, c, id);
    hide Exec, Own, Recorded, SparedSince;
    if SparedSince(w.log, k, c, id) {
      SparedSinceStays(w.log, o.events, k, c, id);
    }
  }

  lemma AdvanceDrop(w: World, k: nat, c: nat, es: seq<Event>, r: Resolution)
    requires Recorded(w.hub, w.log) && Enabled(w, Advance(k, r)) && Own(w.log, k) != [] && IsStart(Own(w.log, k)[0])
    requires DropCourse(k, c, es, w.threads[k], AbsentSince(w.log, k, c))
    ensures var o := Exec(w.hub, k, w.threads[k][0], r);
            DropCourse(k, c, es + o.events, o.next + w.threads[k][1..], AbsentSince(w.log + o.events, k, c))
  {
    var tasks, o := w.threads[k], Exec(w.hub, k, w.threads[k][0], r);
    DropStep(w.hub, k, c, es, tasks, AbsentSince(w.log, k, c), r);
    FlagsOfNow(w.hub, w.log, k, c, "");
    hide Exec, Own, Recorded, AbsentSince;
    if AbsentSince(w.log, k, c) {
      AbsentSinceStays(w.log, o.events, k, c);
    }
  }

  lemma AdvanceOnCourse(w: World, k: nat, r: Resolution)
    requires Recorded(w.hub, w.log) && Enabled(w, Advance(k, r)) && Course(w.log, k, w.threads[k])
    ensures Course(Next(w, Advance(k, r)).log, k, Next(w, Advance(k, r)).threads[k])
  {
    var tasks, es := w.threads[k], Own(w.log, k);
    var o := Exec(w.hub, k, tasks[0], r);
    ExecOwns(w.hub, k, tasks[0], r);
    OwnEvents(w.log, o.events, k, k);
    assert Own(w.log + o.events, k) == es + o.events && (es + o.events)[1..] == es[1..] + o.events;
    hide Exec, Own, Recorded, AbsentSince, SparedSince, GoneSinceJoin;
    hide FrameCourse, RegisterCourse, ExpireCourse, DropCourse;
    match es[0]
    case Heard(_, c, f) => AdvanceFrame(w, k, c, f, es[1..], r);
    case Began(_, Register(user)) => AdvanceRegister(w, k, user, r);
    case Began(_, Expire(c, id)) => AdvanceExpire(w, k, c, id, es[1..], r);
    case Began(_, Drop(c)) => AdvanceDrop(w, k, c, es[1..], r);
    case Began(_, Announce(_, _, _)) => AnnounceStep(w.hub, k, es[1..], tasks, r);
  }

  lemma AdvanceRegister(w: World, k: nat, user: string, r: Resolution)
    requires Recorded(w.hub, w.log) && Enabled(w, Advance(k, r))
    requires Own(w.log, k) != [] && RegisterCourse(k, user, Own(w.log, k)[1..], w.threads[k], GoneSinceJoin(w.log, k))
    ensures var o, log' := Exec(w.hub, k, w.threads[k][0], r), Next(w, Advance(k, r)).log;
            RegisterCourse(k, user, Own(w.log, k)[1..] + o.events, o.next + w.threads[k][1..], GoneSinceJoin(log', k))
  {
    var tasks, es := w.threads[k], Own(w.log, k)[1..];
    var o := Exec(w.hub, k, tasks[0], r);
    var log' := w.log + o.events;
    RegisterStep(w.hub, k, user, es, tasks, GoneSinceJoin(w.log, k), r);
    hide Exec, Own, Recorded, GoneSinceJoin, FrameId;
    if GoneSinceJoin(w.log, k) {
      GoneSinceJoinStays(w.log, o.events, k);
    }
    if es != [] && es[0].Joined? && es[0].c !in w.hub.connections {
      GoneNow(w.hub, w.log, k);
      GoneSinceJoinStays(w.log, o.events, k);
    }
  }

  lemma NextStartsApart(w: World, l: Label)
    requires StartsApart(w) && Enabled(w, l)
    ensures StartsApart(Next(w, l))
  {
    var w' := Next(w, l);
    if l.Advance? {
      ExecOwns(w.hub, l.thread, w.threads[l.thread][0], l.resolution);
    } else {
      StartedBy(w, l);
    }
    var more := w'.log[|w.log|..];
    assert w'.log == w.log + more && |more| <= 1;
    hide Next, Exec;
    forall a: nat, b: nat | a < b < |w'.log| && IsStart(w'.log[a]) && IsStart(w'.log[b])
      ensures w'.log[a].thread != w'.log[b].thread
    {
      assert w'.log[a] == w.log[a] && w.log[a] in w.log;
    }
  }

  lemma NextOnCourse(w: World, l: Label)
    requires Recorded(w.hub, w.log) && Courses(w) && Enabled(w, l)
    ensures Courses(Next(w, l))
  {
    NextStartsApart(w, l);
    var w' := Next(w, l);
    hide Course, Recorded;
    if l.Advance? {
      var o := Exec(w.hub, l.thread, w.threads[l.thread][0], l.resolution);
      ExecOwns(w.hub, l.thread, w.threads[l.thread][0], l.resolution);
      AdvanceOnCourse(w, l.thread, l.resolution);
      hide Exec;
      forall k: nat | k < |w'.threads| && k != l.thread
        ensures Course(w'.log, k, w'.threads[k])
      {
        OwnEvents(w.log, o.events, k, l.thread);
        CourseStays(w.log, o.events, k, w.threads[k]);
      }
    } else {
      StartedBy(w, l);
      StartOnCourse(w, l);
    }
  }

  lemma {:induction false} NothingOwn(log: seq<Event>, k: nat)
    requires forall e | e in log :: e.thread != k
    ensures Own(log, k) == []
  {
    if log != [] {
      assert forall e | e in log[..|log| - 1] :: e in log;
      NothingOwn(log[..|log| - 1], k);
    }
  }

  lemma StartOnCourse(w: World, l: Label)
    requires Courses(w) && Enabled(w, l) && !l.Advance?
    ensures forall k: nat | k < |Next(w, l).threads| :: Course(Next(w, l).log, k, Next(w, l).threads[k])
  {
    var w', n, t := Next(w, l), |w.threads|, CallOf(w, l);
    var more := [StartOf(n, t)];
    StartedBy(w, l);
    hide Next, CallOf, AbsentSince, SparedSince, GoneSinceJoin;
    forall k: nat | k < |w'.threads|
      ensures Course(w'.log, k, w'.threads[k])
    {
      OwnEvents(w.log, more, k, n);
      if k < n {
        CourseStays(w.log, more, k, w.threads[k]);
      } else {
        NothingOwn(w.log, n);
        assert Own(w'.log, n) == more && more[1..] == [];
        StartsOnCourse(w'.log, n, t);
      }
    }
  }

  lemma StartsOnCourse(log: seq<Event>, k: nat, t: Task)
    requires Own(log, k) == [StartOf(k, t)] && (t.Register? || t.Drop? || t.Receive? || t.Announce? || t.Expire?)
    ensures Course(log, k, [t])
  {
    hide Own, AbsentSince, SparedSince, GoneSinceJoin;
    assert [StartOf(k, t)][1..] == [];
  }

  lemma {:induction false} RunOnCourse(w: World, run: seq<Label>)
    requires Inv(w) && Courses(w) && Legal(w, run)
    requires w.hub.nextConnection + |run| < U64 && w.hub.nextFrame + |run| < U64
    ensures Inv(After(w, run)) && Courses(After(w, run))
    decreases |run|
  {
    if run != [] {
      assert Recorded(w.hub, w.log);
      hide Inv, Courses, Next, Recorded;
      NextKeepsInv(w, run[0]);
      NextOnCourse(w, run[0]);
      RunOnCourse(Next(w, run[0]), run[1..]);
    }
  }

  /** In every interleaving from an empty hub, every call is on its course. */
  lemma {:induction false} CallsKeepTheirCourse(run: seq<Label>)
    requires Legal(INITIAL, run) && 1 + |run| < U64
    ensures Inv(After(INITIAL, run)) && Courses(After(INITIAL, run))
  {
    InitialInv();
    RunOnCourse(INITIAL, run);
  }

  // ---- Reading a course off the log ----

  lemma FirstIsStart(w: World, k: nat)
    requires Courses(w) && k < |w.threads|
    ensures Own(w.log, k) != [] && IsStart(Own(w.log, k)[0])
  {
    assert Course(w.log, k, w.threads[k]);
  }

  /** The start of a call is the first of its events. */
  lemma StartIsFirst(w: World, h: nat)
    requires Courses(w) && h < |w.log| && IsStart(w.log[h])
    ensures var k := w.log[h].thread;
            k < |w.threads| && Own(w.log, k) != [] && Own(w.log, k)[0] == w.log[h] && Own(w.log[..h], k) == []
            && Course(w.log, k, w.threads[k])
  {
    var k := w.log[h].thread;
    assert w.log[h] in w.log;
    FirstIsStart(w, k);
    var j := OwnSource(w.log, k, 0);
    assert j == h || j < h || h < j;
  }

  /** Every event of a call that is not its start comes after its start. */
  lemma StartComesBefore(w: World, j: nat) returns (h: nat)
    requires Courses(w) && j < |w.log| && !IsStart(w.log[j])
    ensures h < j && IsStart(w.log[h]) && w.log[h].thread == w.log[j].thread
    ensures Own(w.log, w.log[j].thread) != [] && Own(w.log, w.log[j].thread)[0] == w.log[h]
    ensures w.log[j] in Own(w.log, w.log[j].thread)[1..]
  {
    var k := w.log[j].thread;
    assert w.log[j] in w.log;
    FirstIsStart(w, k);
    h := OwnSource(w.log, k, 0);
    OwnAt(w.log, j);
    var p := |Own(w.log[..j], k)|;
    assert p != 0;
    if j < h {
      OwnOrder(w.log, j, h);
    }
    assert Own(w.log, k)[1..][p - 1] == w.log[j];
  }

  /** Flags of a call, seen from the event that started it. */
  lemma SinceItsStart(w: World, h: nat, c: nat, id: string)
    requires Courses(w) && h < |w.log| && IsStart(w.log[h])
    ensures AbsentSince(w.log, w.log[h].thread, c) ==> WasAbsent(w.log, h, c)
    ensures SparedSince(w.log, w.log[h].thread, c, id) ==> WasNotOwed(w.log, h, c, id)
  {
  }
}
