/** A hub in which no new call starts: it comes to rest, and what it then holds. */
module HubDrain {
  import opened Wrappers
  import opened Hub
  import opened HubSystem
  import opened HubHistory
  import opened HubCalls
  import opened HubAnswers

  /** Only timers fire, and only what is in flight goes on. */
  predicate DrainStep(l: Label) {
    l.Fire? || l.Advance?
  }

  ghost predicate Drain(run: seq<Label>) {
    forall l | l in run :: DrainStep(l)
  }

  predicate Idle(w: World) {
    w.timers == [] && forall k: nat | k < |w.threads| :: w.threads[k] == []
  }

  // ---- It ends: a measure on what is outstanding ----

  /** What a task can still lead to, when no announcement finds more than `crowd` connections. */
  function Weight(crowd: nat): Task -> nat {
    (t: Task) =>
      match t
      case Announce(_, _, _) => 1 + 6 * crowd
      case Register(_) => 7
      case Track(_, _) => 6
      case Arm(_, _) => 4
      case Expire(_, _) => 2
      case Receive(_, _) => 4
      case ResolveWatch(_, _, _, _) => 3
      case SetWatch(_, _, _) => 2
      case _ => 1
  }

  /** Counts the connections still to come. */
  function Joining(): Task -> nat {
    (t: Task) => if t.Register? then 1 else 0
  }

  function TasksSum(f: Task -> nat, tasks: seq<Task>): nat {
    if tasks == [] then 0 else f(tasks[0]) + TasksSum(f, tasks[1..])
  }

  function ThreadsSum(f: Task -> nat, threads: seq<seq<Task>>): nat {
    if threads == [] then 0 else TasksSum(f, threads[0]) + ThreadsSum(f, threads[1..])
  }

  /** How many connections there are, and are about to be. */
  function Crowd(w: World): nat {
    |w.hub.connections.Keys| + ThreadsSum(Joining(), w.threads)
  }

  function Outstanding(crowd: nat, w: World): nat {
    ThreadsSum(Weight(crowd), w.threads) + 3 * |w.timers|
  }

  lemma {:induction false} SumAppend(f: Task -> nat, a: seq<Task>, b: seq<Task>)
    ensures TasksSum(f, a + b) == TasksSum(f, a) + TasksSum(f, b)
  {
    if a == [] {
      assert a + b == b;
    } else {
      assert (a + b)[1..] == a[1..] + b;
      SumAppend(f, a[1..], b);
    }
  }

  lemma {:induction false} SumReplaced(f: Task -> nat, threads: seq<seq<Task>>, k: nat, tasks: seq<Task>)
    requires k < |threads|
    ensures ThreadsSum(f, threads[k := tasks]) + TasksSum(f, threads[k]) == ThreadsSum(f, threads) + TasksSum(f, tasks)
  {
    if k > 0 {
      SumReplaced(f, threads[1..], k - 1, tasks);
      assert threads[k := tasks][1..] == threads[1..][k - 1 := tasks];
    } else {
      assert threads[k := tasks][1..] == threads[1..];
    }
  }

  lemma {:induction false} SumAppended(f: Task -> nat, threads: seq<seq<Task>>, tasks: seq<Task>)
    ensures ThreadsSum(f, threads + [tasks]) == ThreadsSum(f, threads) + TasksSum(f, tasks)
  {
    if threads == [] {
      assert threads + [tasks] == [tasks] && [tasks][1..] == [];
    } else {
      SumAppended(f, threads[1..], tasks);
      assert (threads + [tasks])[1..] == threads[1..] + [tasks];
    }
  }

  lemma {:induction false} TargetsAreFew(s: State, ids: set<nat>, owner: string, paths: seq<string>, origin: string)
    requires ids <= s.connections.Keys
    ensures |TargetsAmong(s, ids, owner, paths, origin)| <= |ids|
    decreases ids
  {
    hide ListFor;
    if ids != {} {
      TargetsAreFew(s, ids - {Least(ids)}, owner, paths, origin);
    }
  }

  lemma {:induction false} TracksSum(crowd: nat, tasks: seq<Task>)
    requires forall t | t in tasks :: t.Track?
    ensures TasksSum(Weight(crowd), tasks) == 6 * |tasks| && TasksSum(Joining(), tasks) == 0
  {
    if tasks != [] {
      var rest := tasks[1..];
      assert tasks[0] in tasks && forall t | t in rest :: t in tasks;
      TracksSum(crowd, rest);
    }
  }

  lemma AnnounceSums(s: State, k: nat, t: Task, r: Resolution, crowd: nat)
    requires t.Announce? && |s.connections.Keys| <= crowd
    ensures var next := Exec(s, k, t, r).next;
            TasksSum(Weight(crowd), next) <= 6 * crowd && TasksSum(Joining(), next) == 0
  {
    var next := Exec(s, k, t, r).next;
    TargetsAreFew(s, s.connections.Keys, t.owner, t.paths, t.origin);
    assert |next| <= crowd && forall u | u in next :: u.Track? by {
      hide Targets;
    }
    hide Exec;
    TracksSum(crowd, next);
  }

  /** One task leaves less outstanding than it was, and brings in no one who was not about to join. */
  lemma ExecLightens(s: State, k: nat, t: Task, r: Resolution, crowd: nat)
    requires |s.connections.Keys| <= crowd
    ensures var o := Exec(s, k, t, r);
            && TasksSum(Weight(crowd), o.next) + 3 * |o.timers| < Weight(crowd)(t)
            && |o.hub.connections.Keys| + TasksSum(Joining(), o.next) <= |s.connections.Keys| + Joining()(t)
  {
    var o := Exec(s, k, t, r);
    if t.Announce? {
      AnnounceSums(s, k, t, r, crowd);
    } else {
      OtherTasksLighten(s, k, t, r, crowd);
      KeysBarelyGrow(s, k, t, r);
      hide Exec, Weight, Joining;
      SmallSums(Weight(crowd), o.next);
      SmallSums(Joining(), o.next);
    }
  }

  lemma SmallSums(f: Task -> nat, tasks: seq<Task>)
    ensures tasks == [] ==> TasksSum(f, tasks) == 0
    ensures |tasks| == 1 ==> TasksSum(f, tasks) == f(tasks[0])
    ensures |tasks| == 2 ==> TasksSum(f, tasks) == f(tasks[0]) + f(tasks[1])
  {
  }

  lemma OtherTasksLighten(s: State, k: nat, t: Task, r: Resolution, crowd: nat)
    requires !t.Announce?
    ensures var o, f := Exec(s, k, t, r), Weight(crowd);
            && |o.next| <= 2 && (forall u | u in o.next :: Joining()(u) == 0)
            && (o.next == [] ==> 3 * |o.timers| < f(t))
            && (|o.next| == 1 ==> f(o.next[0]) + 3 * |o.timers| < f(t))
            && (|o.next| == 2 ==> f(o.next[0]) + f(o.next[1]) + 3 * |o.timers| < f(t))
  {
    hide Targets, FrameId;
  }

  lemma KeysBarelyGrow(s: State, k: nat, t: Task, r: Resolution)
    ensures |Exec(s, k, t, r).hub.connections.Keys| <= |s.connections.Keys| + Joining()(t)
  {
    hide Targets, FrameId;
    var o := Exec(s, k, t, r);
    if t.Register? {
      assert o.hub.connections.Keys == s.connections.Keys + {s.nextConnection};
    } else if t.Drop? || t.Expire? {
      assert o.hub.connections.Keys == s.connections.Keys || o.hub.connections.Keys == s.connections.Keys - {t.c};
    } else {
      assert o.hub.connections.Keys == s.connections.Keys;
    }
  }

  lemma AdvanceLightens(w: World, k: nat, r: Resolution, crowd: nat)
    requires Enabled(w, Advance(k, r)) && Crowd(w) <= crowd
    ensures Outstanding(crowd, Next(w, Advance(k, r))) < Outstanding(crowd, w)
    ensures Crowd(Next(w, Advance(k, r))) <= Crowd(w)
  {
    var t, rest := w.threads[k][0], w.threads[k][1..];
    var o := Exec(w.hub, k, t, r);
    ExecLightens(w.hub, k, t, r, crowd);
    hide Exec, Weight, Joining;
    SumReplaced(Weight(crowd), w.threads, k, o.next + rest);
    SumReplaced(Joining(), w.threads, k, o.next + rest);
    SumAppend(Weight(crowd), o.next, rest);
    SumAppend(Joining(), o.next, rest);
  }

  /** In any world, a step that starts no new call leaves less to do. */
  lemma StepLightens(w: World, l: Label, crowd: nat)
    requires Enabled(w, l) && DrainStep(l) && Crowd(w) <= crowd
    ensures Outstanding(crowd, Next(w, l)) < Outstanding(crowd, w)
    ensures Crowd(Next(w, l)) <= Crowd(w)
  {
    match l
    case Fire(k) =>
      var e := Expire(w.timers[k].c, w.timers[k].id);
      SumAppended(Weight(crowd), w.threads, [e]);
      SumAppended(Joining(), w.threads, [e]);
      assert [e][1..] == [];
    case Advance(k, r) =>
      AdvanceLightens(w, k, r, crowd);
  }

  /** From any world, no drain is longer than the measure: firing timers and letting calls finish comes to an end. */
  lemma {:induction false} DrainsEnd(w: World, run: seq<Label>, crowd: nat)
    requires Legal(w, run) && Drain(run) && Crowd(w) <= crowd
    ensures |run| + Outstanding(crowd, After(w, run)) <= Outstanding(crowd, w)
    decreases |run|
  {
    hide Outstanding, Crowd, Next;
    if run != [] {
      assert run[0] in run && forall l | l in run[1..] :: l in run;
      StepLightens(w, run[0], crowd);
      DrainsEnd(Next(w, run[0]), run[1..], crowd);
    }
  }

  /** And a drain that has not come to rest can go on. */
  lemma DrainGoesOn(w: World) returns (l: Label)
    requires !Idle(w)
    ensures DrainStep(l) && Enabled(w, l)
  {
    if w.timers != [] {
      l := Fire(0);
    } else {
      var k: nat :| k < |w.threads| && w.threads[k] != [];
      l := Advance(k, Refused);
    }
  }

  // ---- What it ends with ----

  /** Whatever was logged about a connection, other than its joining, was logged while it was registered. */
  ghost predicate LoggedWhilePresent(log: seq<Event>) {
    forall j: nat | j < |log| && About(log[j]).Some? && !log[j].Joined? :: InLog(log[..j], About(log[j]).value).Some?
  }

  lemma NextLogsPresent(w: World, l: Label)
    requires Recorded(w.hub, w.log) && LoggedWhilePresent(w.log) && Enabled(w, l)
    ensures LoggedWhilePresent(Next(w, l).log)
  {
    hide InLog;
    var w' := Next(w, l);
    forall j: nat | j < |w'.log| && About(w'.log[j]).Some? && !w'.log[j].Joined?
      ensures InLog(w'.log[..j], About(w'.log[j]).value).Some?
    {
      if j < |w.log| {
        assert w'.log[..j] == w.log[..j] && w'.log[j] == w.log[j];
      } else {
        EventsOfPresent(w.hub, l.thread, w.threads[l.thread][0], l.resolution);
        assert w'.log[..j] == w.log;
        assert At(w.hub, About(w'.log[j]).value) == InLog(w.log, About(w'.log[j]).value);
      }
    }
  }

  lemma EventsOfPresent(s: State, k: nat, t: Task, r: Resolution)
    ensures var o := Exec(s, k, t, r);
            && |o.events| <= 1
            && forall e | e in o.events && About(e).Some? && !e.Joined? :: About(e).value in s.connections
  {
    hide Targets, FrameId;
  }

  ghost predicate HasLeft(log: seq<Event>, c: nat) {
    exists e :: e in log && e.Left? && e.c == c
  }

  ghost predicate AllAcknowledged(log: seq<Event>, c: nat) {
    forall i: nat | i < |log| && log[i].Issued? && log[i].c == c :: AcknowledgedAfter(log, i)
  }

  /** The connection has sent an ack frame for it, which was handled after it was issued. */
  ghost predicate AcknowledgedAfter(log: seq<Event>, i: nat)
    requires i < |log| && log[i].Issued?
  {
    exists h: nat, j: nat :: i < j && IsAckFrameHandled(log, h, j, log[i].c, FrameId(log[i].n))
  }

  lemma {:induction false} RunLogsPresent(w: World, run: seq<Label>)
    requires Inv(w) && TimeOutsDeserved(w.log) && LoggedWhilePresent(w.log) && Legal(w, run)
    requires w.hub.nextConnection + |run| < U64 && w.hub.nextFrame + |run| < U64
    ensures var end := After(w, run); Inv(end) && TimeOutsDeserved(end.log) && LoggedWhilePresent(end.log)
    decreases |run|
  {
    if run != [] {
      assert Recorded(w.hub, w.log);
      hide Inv, TimeOutsDeserved, LoggedWhilePresent, Next, Recorded;
      NextKeepsInv(w, run[0]);
      NextDeserves(w, run[0]);
      NextLogsPresent(w, run[0]);
      RunLogsPresent(Next(w, run[0]), run[1..]);
    }
  }

  /** With no timer armed and no call in flight, no connection owes anything. */
  lemma IdleOwesNothing(w: World, c: nat)
    requires Watched(w) && Idle(w) && c in w.hub.connections
    ensures w.hub.connections[c].pending == {}
  {
    forall id
      ensures id !in w.hub.connections[c].pending
    {
      assert !HasGuard(w, c, id);
      assert !IsOwed(w.hub, c, id);
    }
  }

  /** A connection that timed out never acknowledged the frame it timed out on. */
  lemma TimedOutIsUnacknowledged(w: World, t: nat, c: nat, id: string)
    requires Inv(w) && TimeOutsDeserved(w.log) && LoggedWhilePresent(w.log)
    requires t < |w.log| && w.log[t].TimedOut? && w.log[t].c == c && w.log[t].id == id
    ensures !AllAcknowledged(w.log, c)
  {
    var i: nat :| UnacknowledgedSince(w.log[..t], i, c, id);
    assert w.log[..t][i] == w.log[i];
    forall j: nat | i < j < |w.log|
      ensures !IsAck(w.log[j], c, id)
    {
      if j < t {
        assert w.log[..t][j] == w.log[j];
      } else if j > t {
        GoneStaysGone(w.log, t, j, c);
      }
    }
    assert !AcknowledgedAfter(w.log, i);
  }

  lemma GoneStaysGone(log: seq<Event>, t: nat, j: nat, c: nat)
    requires FreshJoins(log) && LoggedWhilePresent(log) && t < j < |log| && IsExit(log[t], c)
    ensures About(log[j]) != Some(c)
  {
    hide InLog;
    FreshJoinsPrefix(log, j);
    RegisteredIff(log[..j], c);
    assert log[..j][t] == log[t] && log[t] in log[..j];
    assert About(log[t]) == Some(c);
  }

  /**
   Whatever happened before, once the hub is idle: the connections it holds are exactly those that joined, never left,
   and sent, for every frame issued to them, an ack that was handled after; and none of them owes anything.
   */
  lemma {:induction false} DrainOutcome(run: seq<Label>, c: nat)
    requires Legal(INITIAL, run) && 1 + |run| < U64 && Idle(After(INITIAL, run))
    ensures var w := After(INITIAL, run);
            && (c in w.hub.connections <==> HasJoined(w.log, c) && !HasLeft(w.log, c) && AllAcknowledged(w.log, c))
            && (c in w.hub.connections ==> w.hub.connections[c].pending == {})
  {
    InitialInv();
    RunLogsPresent(INITIAL, run);
    CallsKeepTheirCourse(run);
    var w := After(INITIAL, run);
    hide After, Legal, Idle;
    IdleIsSettledUp(w, c);
  }

  lemma IdleIsSettledUp(w: World, c: nat)
    requires Courses(w) && Inv(w) && TimeOutsDeserved(w.log) && LoggedWhilePresent(w.log) && Idle(w)
    ensures c in w.hub.connections <==> HasJoined(w.log, c) && !HasLeft(w.log, c) && AllAcknowledged(w.log, c)
    ensures c in w.hub.connections ==> w.hub.connections[c].pending == {}
  {
    OwedIff(w, c, "");
    assert Watched(w);
    hide Inv, Courses, TimeOutsDeserved, LoggedWhilePresent, Watched;
    if c in w.hub.connections {
      IdleOwesNothing(w, c);
      assert forall e | e in w.log :: !IsExit(e, c);
      forall i: nat | i < |w.log| && w.log[i].Issued? && w.log[i].c == c
        ensures AcknowledgedAfter(w.log, i)
      {
        OwedIff(w, c, FrameId(w.log[i].n));
        assert !UnacknowledgedSince(w.log, i, c, FrameId(w.log[i].n));
        var j: nat :| i < j < |w.log| && IsAck(w.log[j], c, FrameId(w.log[i].n));
        var h := AcksComeFromFrames(w, j);
      }
    } else if HasJoined(w.log, c) && !HasLeft(w.log, c) {
      var e :| e in w.log && IsExit(e, c);
      var t: nat :| t < |w.log| && w.log[t] == e;
      TimedOutIsUnacknowledged(w, t, c, e.id);
    }
  }

  // ---- With nothing but sends, timers and replies left ----

  /** No call in flight will take the lock again except to look at a time-out: no new frames, acks or watches. */
  predicate Settled(t: Task) {
    t.Transmit? || t.Arm? || t.Expire? || t.Close? || t.SendAnswer?
  }

  ghost predicate Settling(w: World) {
    forall k: nat, t | k < |w.threads| && t in w.threads[k] :: Settled(t)
  }

  /** What running a settled task can do at all. */
  lemma SettledExec(w: World, k: nat, r: Resolution)
    requires Settling(w) && Enabled(w, Advance(k, r))
    ensures var t := w.threads[k][0];
            var o := Exec(w.hub, k, t, r);
            && Settled(t)
            && (forall u | u in o.next :: Settled(u))
            && (o.next == [] || (t.Expire? && IsOwed(w.hub, t.c, t.id) && o.next == [Close(t.c)]))
            && |o.timers| == (if t.Arm? then 1 else 0)
            && o.hub == if t.Expire? && IsOwed(w.hub, t.c, t.id) then Removed(w.hub, t.c) else w.hub
  {
    assert w.threads[k][0] in w.threads[k];
  }

  lemma DrainKeepsSettling(w: World, l: Label)
    requires Settling(w) && Enabled(w, l) && DrainStep(l)
    ensures Settling(Next(w, l))
  {
    var w' := Next(w, l);
    if l.Advance? {
      SettledExec(w, l.thread, l.resolution);
    }
    forall k: nat, t | k < |w'.threads| && t in w'.threads[k]
      ensures Settled(t)
    {
      if l.Advance? && k == l.thread {
        var rest := w.threads[k][1..];
        assert t in rest ==> t in w.threads[k];
      } else if k < |w.threads| {
        assert t in w.threads[k];
      }
    }
  }

  /** So far, only connections owing an acknowledgement have gone, and the others are as they were. */
  ghost predicate OnlyDebtorsGone(before: State, now: State) {
    && (forall c | c in now.connections :: c in before.connections && now.connections[c] == before.connections[c])
    && (forall c | c in before.connections && c !in now.connections :: before.connections[c].pending != {})
  }

  lemma DrainStepTakesDebtors(before: State, w: World, l: Label)
    requires Settling(w) && OnlyDebtorsGone(before, w.hub) && Enabled(w, l) && DrainStep(l)
    ensures OnlyDebtorsGone(before, Next(w, l).hub)
  {
    if l.Advance? {
      SettledExec(w, l.thread, l.resolution);
      var t := w.threads[l.thread][0];
      if t.Expire? && IsOwed(w.hub, t.c, t.id) {
        assert t.id in before.connections[t.c].pending;
      }
    }
  }

  lemma {:induction false} DrainTakesDebtors(before: State, w: World, run: seq<Label>)
    requires Settling(w) && OnlyDebtorsGone(before, w.hub) && Legal(w, run) && Drain(run)
    ensures OnlyDebtorsGone(before, After(w, run).hub)
    decreases |run|
  {
    if run != [] {
      assert run[0] in run && forall l | l in run[1..] :: l in run;
      DrainStepTakesDebtors(before, w, run[0]);
      DrainKeepsSettling(w, run[0]);
      DrainTakesDebtors(before, Next(w, run[0]), run[1..]);
    }
  }

  /** With no call in flight that will take the lock, exactly the connections that owed an acknowledgement go. */
  lemma {:induction false} SettledDrainOutcome(w: World, run: seq<Label>)
    requires Inv(w) && Settling(w) && Legal(w, run) && Drain(run) && Idle(After(w, run))
    requires w.hub.nextConnection + |run| < U64 && w.hub.nextFrame + |run| < U64
    ensures var end := After(w, run).hub.connections;
            end == map c | c in w.hub.connections && w.hub.connections[c].pending == {} :: w.hub.connections[c]
  {
    RunKeepsInv(w, run);
    DrainTakesDebtors(w.hub, w, run);
    var idle := After(w, run);
    forall c | c in idle.hub.connections
      ensures idle.hub.connections[c].pending == {}
    {
      forall id
        ensures id !in idle.hub.connections[c].pending
      {
        assert !HasGuard(idle, c, id);
        assert !IsOwed(idle.hub, c, id);
      }
    }
  }
}
