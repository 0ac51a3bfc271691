/**
 The hub under every interleaving. The mutex is released between "insert pending", "send" and "schedule", and
 between the fan-out snapshot and its sends; so a call in flight is a thread holding the tasks it has left, and a
 step runs one task of one thread. Tasks that take the lock are the blocks of module Hub.
 */
module HubSystem {
  import opened Wrappers
  import opened Hub

  datatype Timer = Timer(c: nat, id: string)

  datatype Task =
    | Register(user: string)
    | Track(c: nat, payload: Payload)
    | Transmit(c: nat, id: string, payload: Payload)
    | Arm(c: nat, id: string)
    | Expire(c: nat, id: string)
    | Close(c: nat)
    | Drop(c: nat)
    | Receive(c: nat, frame: Incoming)
    | ResolveWatch(c: nat, user: string, request: WatchRequest, id: string)
    | SetWatch(c: nat, target: Option<Watch>, id: string)
    | SendAnswer(c: nat, kind: AnswerKind, id: string)
    | Announce(owner: string, paths: seq<string>, origin: string)

  /** Every event names the call it belongs to: its start, then what its tasks do. */
  datatype Event =
    | Began(thread: nat, call: Task)
    | Heard(thread: nat, c: nat, frame: Incoming)
    | Joined(thread: nat, c: nat, user: string)
    | Left(thread: nat, c: nat)
    | Issued(thread: nat, c: nat, n: nat, payload: Payload)
    | Acked(thread: nat, c: nat, id: string)
    | TimedOut(thread: nat, c: nat, id: string)
    | Greeted(thread: nat, c: nat, device: string)
    | Asked(thread: nat, c: nat, user: string, request: WatchRequest, answer: Resolution)
    | WatchSet(thread: nat, c: nat, target: Option<Watch>)
    | Announced(thread: nat, owner: string, paths: seq<string>, origin: string)
    | Sent(thread: nat, c: nat, id: string, payload: Payload)
    | Armed(thread: nat, c: nat, id: string)
    | PeerClosed(thread: nat, c: nat)
    | Answered(thread: nat, c: nat, kind: AnswerKind, id: string)

  datatype World = World(hub: State, threads: seq<seq<Task>>, timers: seq<Timer>, log: seq<Event>)

  const INITIAL := World(State(map[], 1, 1), [], [], [])

  /** What the watch resolver, which reads tables outside the hub, says at that moment; there may be none installed. */
  datatype Resolution = NoResolver | Refused | Resolved(watch: Watch)

  datatype Outcome = Outcome(hub: State, next: seq<Task>, timers: seq<Timer>, events: seq<Event>)

  function AnswerWith(c: nat, kind: AnswerKind, id: string): seq<Task> {
    if id == "" then [] else [SendAnswer(c, kind, id)]
  }

  function Tracks(targets: seq<Target>): seq<Task> {
    seq(|targets|, i requires 0 <= i < |targets| => Track(targets[i].connection, Changes(targets[i].paths)))
  }

  function ReceiveEvents(s: State, thread: nat, c: nat, f: Incoming): seq<Event> {
    if f.Unreadable? || c !in s.connections then []
    else if f.kind == "ack" then [Acked(thread, c, f.id)]
    else if f.kind == "hello" then [Greeted(thread, c, f.device)]
    else []
  }

  function Exec(s: State, thread: nat, t: Task, resolution: Resolution): Outcome {
    match t
    case Register(user) =>
      var (s', c) := Registered(s, user);
      Outcome(s', if user == "" then [] else [Track(c, RequestChanges)], [], [Joined(thread, c, user)])
    case Track(c, payload) =>
      var (s', id) := Tracked(s, c);
      if id.None? then Outcome(s, [], [], [])
      else
        Outcome(s', [Transmit(c, id.value, payload), Arm(c, id.value)], [], [Issued(thread, c, s.nextFrame, payload)])
    case Transmit(c, id, payload) => Outcome(s, [], [], [Sent(thread, c, id, payload)])
    case Arm(c, id) => Outcome(s, [], [Timer(c, id)], [Armed(thread, c, id)])
    case Expire(c, id) =>
      var (s', close) := Expired(s, c, id);
      if close then Outcome(s', [Close(c)], [], [TimedOut(thread, c, id)]) else Outcome(s, [], [], [])
    case Close(c) => Outcome(s, [], [], [PeerClosed(thread, c)])
    case Drop(c) => Outcome(Removed(s, c), [], [], if c in s.connections then [Left(thread, c)] else [])
    case Receive(c, f) =>
      var (s', next) := Handled(s, c, f);
      var tasks := match next
        case Nothing => []
        case Answer(kind) => AnswerWith(c, kind, f.id)
        case Resolve(user) => [ResolveWatch(c, user, f.request, f.id)]
        case Unwatch => [SetWatch(c, None, f.id)];
      Outcome(s', tasks, [], ReceiveEvents(s, thread, c, f))
    case ResolveWatch(c, user, request, id) =>
      (match resolution
       case NoResolver =>
         Outcome(s, [SetWatch(c, None, id)], [], [Asked(thread, c, user, request, resolution)])
       case Refused => Outcome(s, AnswerWith(c, Nack, id), [], [Asked(thread, c, user, request, resolution)])
       case Resolved(w) =>
         Outcome(s, [SetWatch(c, Some(w), id)], [], [Asked(thread, c, user, request, resolution)]))
    case SetWatch(c, target, id) =>
      var (s', found) := Watching(s, c, target);
      if !found then Outcome(s, [], [], []) else Outcome(s', AnswerWith(c, Ack, id), [], [WatchSet(thread, c, target)])
    case SendAnswer(c, kind, id) => Outcome(s, [], [], [Answered(thread, c, kind, id)])
    case Announce(owner, paths, origin) =>
      Outcome(s, Tracks(Targets(s, owner, paths, origin)), [], [Announced(thread, owner, paths, origin)])
  }

  /** Connect to Write start a call from outside, Fire starts the callback of an armed timer, Advance runs one task. */
  datatype Label =
    | Connect(user: string)
    | Disconnect(c: nat)
    | Message(c: nat, frame: Incoming)
    | Write(owner: string, paths: seq<string>, origin: string)
    | Fire(timer: nat)
    | Advance(thread: nat, resolution: Resolution)

  predicate Enabled(w: World, l: Label) {
    match l
    case Fire(k) => k < |w.timers|
    case Advance(k, _) => k < |w.threads| && w.threads[k] != []
    case _ => true
  }

  /** The event that starts a call. */
  function StartOf(thread: nat, t: Task): Event {
    if t.Receive? then Heard(thread, t.c, t.frame) else Began(thread, t)
  }

  function Started(w: World, t: Task): World {
    w.(threads := w.threads + [[t]], log := w.log + [StartOf(|w.threads|, t)])
  }

  function Without(timers: seq<Timer>, k: nat): seq<Timer>
    requires k < |timers|
  {
    timers[..k] + timers[k + 1..]
  }

  function Next(w: World, l: Label): World
    requires Enabled(w, l)
  {
    match l
    case Connect(user) => Started(w, Register(user))
    case Disconnect(c) => Started(w, Drop(c))
    case Message(c, f) => Started(w, Receive(c, f))
    case Write(owner, paths, origin) => Started(w, Announce(owner, paths, origin))
    case Fire(k) =>
      Started(w, Expire(w.timers[k].c, w.timers[k].id)).(timers := Without(w.timers, k))
    case Advance(k, resolution) =>
      var o := Exec(w.hub, k, w.threads[k][0], resolution);
      World(o.hub, w.threads[k := o.next + w.threads[k][1..]], w.timers + o.timers, w.log + o.events)
  }

  /** The first task of the call a label from outside starts. */
  function CallOf(w: World, l: Label): Task
    requires Enabled(w, l) && !l.Advance?
  {
    match l
    case Connect(user) => Register(user)
    case Disconnect(c) => Drop(c)
    case Message(c, f) => Receive(c, f)
    case Write(owner, paths, origin) => Announce(owner, paths, origin)
    case Fire(k) => Expire(w.timers[k].c, w.timers[k].id)
  }

  lemma StartedBy(w: World, l: Label)
    requires Enabled(w, l) && !l.Advance?
    ensures var w', t := Next(w, l), CallOf(w, l);
            && w'.hub == w.hub && w'.threads == w.threads + [[t]] && w'.log == w.log + [StartOf(|w.threads|, t)]
            && (t.Register? || t.Drop? || t.Receive? || t.Announce? || t.Expire?)
  {
  }

  predicate Legal(w: World, run: seq<Label>)
    decreases |run|
  {
    run != [] ==> Enabled(w, run[0]) && Legal(Next(w, run[0]), run[1..])
  }

  function After(w: World, run: seq<Label>): World
    requires Legal(w, run)
    decreases |run|
  {
    if run == [] then w else After(Next(w, run[0]), run[1..])
  }

  predicate InThreads(threads: seq<seq<Task>>, t: Task) {
    exists k :: 0 <= k < |threads| && t in threads[k]
  }

  // ---- The hub's state is what its log says ----

  /** The connection an event is about, for the events that come out of a lock-held block. */
  function About(e: Event): Option<nat> {
    match e
    case Joined(_, c, _) => Some(c)
    case Left(_, c) => Some(c)
    case Issued(_, c, _, _) => Some(c)
    case Acked(_, c, _) => Some(c)
    case TimedOut(_, c, _) => Some(c)
    case Greeted(_, c, _) => Some(c)
    case WatchSet(_, c, _) => Some(c)
    case _ => None
  }

  function Updated(conn: Connection, e: Event): Connection {
    match e
    case Issued(_, _, n, _) => conn.(pending := conn.pending + {FrameId(n)})
    case Acked(_, _, id) => conn.(pending := conn.pending - {id})
    case Greeted(_, _, device) => conn.(device := device)
    case WatchSet(_, _, target) => conn.(watches := if target.Some? then [target.value] else [])
    case _ => conn
  }

  function Changed(was: Option<Connection>, e: Event): Option<Connection> {
    match e
    case Joined(_, _, user) => Some(Connection(user, "", {}, []))
    case Left(_, _) => None
    case TimedOut(_, _, _) => None
    case _ => if was.None? then None else Some(Updated(was.value, e))
  }

  /** Connection `c` as the events so far make it. */
  function InLog(log: seq<Event>, c: nat): Option<Connection> {
    if log == [] then None
    else
      var was, e := InLog(log[..|log| - 1], c), log[|log| - 1];
      if About(e) == Some(c) then Changed(was, e) else was
  }

  lemma InLogSnoc(log: seq<Event>, e: Event, c: nat)
    ensures InLog(log + [e], c) == if About(e) == Some(c) then Changed(InLog(log, c), e) else InLog(log, c)
  {
    assert (log + [e])[..|log|] == log;
  }

  function At(s: State, c: nat): Option<Connection> {
    if c in s.connections then Some(s.connections[c]) else None
  }

  ghost predicate Recorded(s: State, log: seq<Event>) {
    forall c: nat :: At(s, c) == InLog(log, c)
  }

  /** Ids of connections and frames are taken from the counters, so a log never uses one twice. */
  ghost predicate Numbered(s: State, log: seq<Event>) {
    && (forall i: nat | i < |log| && About(log[i]).Some? :: About(log[i]).value < s.nextConnection)
    && (forall i: nat | i < |log| && log[i].Issued? :: log[i].n < s.nextFrame)
    && (forall i: nat, j: nat | i < j < |log| && log[j].Joined? :: About(log[i]) != Some(log[j].c))
    && (forall i: nat, j: nat | i < j < |log| && log[i].Issued? && log[j].Issued? :: log[i].n < log[j].n)
  }

  /** One block: the state moves as its events say, and the events carry fresh numbers. */
  lemma ExecRecords(s: State, log: seq<Event>, thread: nat, t: Task, r: Resolution)
    requires Recorded(s, log)
    ensures var o := Exec(s, thread, t, r); Recorded(o.hub, log + o.events)
  {
    hide FrameId, Targets, Tracks, AnswerWith, InLog;
    var o := Exec(s, thread, t, r);
    assert |o.events| <= 1;
    forall c: nat
      ensures At(o.hub, c) == InLog(log + o.events, c)
    {
      assert At(s, c) == InLog(log, c);
      if o.events == [] {
        assert log + o.events == log;
      } else {
        InLogSnoc(log, o.events[0], c);
        assert o.events == [o.events[0]];
      }
    }
  }

  lemma ExecNumbers(s: State, log: seq<Event>, thread: nat, t: Task, r: Resolution)
    requires Recorded(s, log) && Numbered(s, log)
    requires s.nextConnection < U64 - 1 && s.nextFrame < U64 - 1
    ensures var o := Exec(s, thread, t, r);
            && Numbered(o.hub, log + o.events)
            && s.nextConnection <= o.hub.nextConnection <= s.nextConnection + 1
            && s.nextFrame <= o.hub.nextFrame <= s.nextFrame + 1
  {
    hide FrameId, Targets, Tracks, AnswerWith, InLog, Recorded;
    var o := Exec(s, thread, t, r);
    assert |o.events| <= 1;
    if o.events == [] {
      assert log + o.events == log;
    } else {
      var e := o.events[0];
      if About(e).Some? && !e.Joined? {
        assert About(e).value in s.connections;
        ConnectionsNumbered(s, log, About(e).value);
      }
    }
  }

  lemma {:induction false} ConnectionsNumbered(s: State, log: seq<Event>, c: nat)
    requires Recorded(s, log) && Numbered(s, log) && c in s.connections
    ensures c < s.nextConnection
  {
    assert InLog(log, c).Some?;
    var i := LastAbout(log, c);
    assert About(log[i]).Some?;
  }

  lemma {:induction false} LastAbout(log: seq<Event>, c: nat) returns (i: nat)
    requires InLog(log, c).Some?
    ensures i < |log| && About(log[i]) == Some(c)
  {
    if About(log[|log| - 1]) == Some(c) {
      i := |log| - 1;
    } else {
      i := LastAbout(log[..|log| - 1], c);
    }
  }

  // ---- No tracked frame waits forever ----

  /** A pending frame has an armed timer, a call about to arm one, or a callback about to look at it. */
  ghost predicate Watched(w: World) {
    forall c: nat, id: string :: IsOwed(w.hub, c, id) ==> HasGuard(w, c, id)
  }

  ghost predicate HasGuard(w: World, c: nat, id: string) {
    || Timer(c, id) in w.timers
    || InThreads(w.threads, Arm(c, id))
    || InThreads(w.threads, Expire(c, id))
  }

  lemma StaysInThreads(threads: seq<seq<Task>>, k: nat, next: seq<Task>, t: Task)
    requires k < |threads| && threads[k] != [] && InThreads(threads, t) && t != threads[k][0]
    ensures InThreads(threads[k := next + threads[k][1..]], t)
  {
    var j :| 0 <= j < |threads| && t in threads[j];
    if j == k {
      var i :| 0 <= i < |threads[k]| && threads[k][i] == t;
      assert threads[k][1..][i - 1] == t;
    }
    assert t in threads[k := next + threads[k][1..]][j];
  }

  lemma AdvanceWatches(w: World, k: nat, r: Resolution)
    requires Watched(w) && Enabled(w, Advance(k, r))
    ensures Watched(Next(w, Advance(k, r)))
  {
    var w', t := Next(w, Advance(k, r)), w.threads[k][0];
    var o := Exec(w.hub, k, t, r);
    forall c: nat, id: string | IsOwed(w'.hub, c, id)
      ensures HasGuard(w', c, id)
    {
      assert t == Expire(c, id) ==> !IsOwed(Exec(w.hub, k, t, r).hub, c, id);
      if !IsOwed(w.hub, c, id) {
        assert t.Track? && t.c == c && id == FrameId(w.hub.nextFrame);
        assert Arm(c, id) in w'.threads[k];
      } else if t == Arm(c, id) {
        assert o.timers == [Timer(c, id)];
      } else if Timer(c, id) in w.timers {
        assert Timer(c, id) in w'.timers;
      } else if InThreads(w.threads, Arm(c, id)) {
        StaysInThreads(w.threads, k, o.next, Arm(c, id));
      } else {
        StaysInThreads(w.threads, k, o.next, Expire(c, id));
      }
    }
  }

  lemma GrowingKeeps(threads: seq<seq<Task>>, more: seq<Task>, t: Task)
    requires InThreads(threads, t)
    ensures InThreads(threads + [more], t)
  {
    var j :| 0 <= j < |threads| && t in threads[j];
    assert t in (threads + [more])[j];
  }

  lemma StartWatches(w: World, l: Label)
    requires Watched(w) && Enabled(w, l) && !l.Advance?
    ensures Watched(Next(w, l))
  {
    var w' := Next(w, l);
    forall c: nat, id: string | IsOwed(w'.hub, c, id)
      ensures HasGuard(w', c, id)
    {
      assert HasGuard(w, c, id);
      if InThreads(w.threads, Arm(c, id)) {
        GrowingKeeps(w.threads, w'.threads[|w.threads|], Arm(c, id));
      } else if InThreads(w.threads, Expire(c, id)) {
        GrowingKeeps(w.threads, w'.threads[|w.threads|], Expire(c, id));
      } else if l.Fire? {
        var i :| 0 <= i < |w.timers| && w.timers[i] == Timer(c, id);
        if i == l.timer {
          assert Expire(c, id) in w'.threads[|w.threads|];
        } else {
          assert Without(w.timers, l.timer)[if i < l.timer then i else i - 1] == Timer(c, id);
        }
      }
    }
  }

  // ---- Every change frame has a reason ----

  /** The list is what an earlier announcement by the same call owed this connection, as it then was. */
  ghost predicate Explained(log: seq<Event>, k: nat, c: nat, list: seq<string>) {
    exists i: nat :: ExplainedAt(log, i, k, c, list)
  }

  /** What the announcement at event `i` owed connection `c`: None when it was not to be told. */
  function OwedAt(log: seq<Event>, i: nat, c: nat): Option<seq<string>>
    requires i < |log| && log[i].Announced?
  {
    var conn := InLog(log[..i], c);
    if conn.None? then None else ListFor(conn.value, log[i].owner, log[i].paths, log[i].origin)
  }

  ghost predicate ExplainedAt(log: seq<Event>, i: nat, k: nat, c: nat, list: seq<string>) {
    && i < |log| && log[i].Announced? && log[i].thread == k
    && OwedAt(log, i, c) == Some(list)
  }

  predicate IsChange(t: Task) {
    t.Track? && t.payload.Changes?
  }

  ghost predicate Reasoned(w: World) {
    && (forall k: nat, t | k < |w.threads| && t in w.threads[k] && IsChange(t) ::
          Explained(w.log, k, t.c, t.payload.paths))
    && (forall j: nat | j < |w.log| && w.log[j].Issued? && w.log[j].payload.Changes? ::
          Explained(w.log[..j], w.log[j].thread, w.log[j].c, w.log[j].payload.paths))
  }

  lemma ExplainedStays(log: seq<Event>, more: seq<Event>, k: nat, c: nat, list: seq<string>)
    requires Explained(log, k, c, list)
    ensures Explained(log + more, k, c, list)
  {
    var i: nat :| ExplainedAt(log, i, k, c, list);
    assert (log + more)[..i] == log[..i];
    assert ExplainedAt(log + more, i, k, c, list);
  }

  /** The tasks an announcement leaves are one per connection owed, with what it is owed. */
  lemma TracksAreOwed(s: State, log: seq<Event>, k: nat, owner: string, paths: seq<string>, origin: string)
    requires Recorded(s, log)
    ensures var next, log' := Tracks(Targets(s, owner, paths, origin)), log + [Announced(k, owner, paths, origin)];
            && (forall t | t in next :: IsChange(t))
            && (forall c: nat, list :: Track(c, Changes(list)) in next <==> OwedAt(log', |log|, c) == Some(list))
            && (forall a, b | 0 <= a < b < |next| :: next[a].Track? && next[b].Track? && next[a].c != next[b].c)
  {
    var targets := Targets(s, owner, paths, origin);
    var next, log' := Tracks(targets), log + [Announced(k, owner, paths, origin)];
    TargetsExact(s, s.connections.Keys, owner, paths, origin);
    assert log'[..|log|] == log;
    hide Targets, TargetsAmong, ListFor, InLog;
    forall c: nat, list
      ensures Track(c, Changes(list)) in next <==> OwedAt(log', |log|, c) == Some(list)
    {
      assert At(s, c) == InLog(log, c);
      TracksMembers(targets, c, list);
      assert Target(c, list) in targets <==>
               c in s.connections && ListFor(s.connections[c], owner, paths, origin) == Some(list);
    }
  }

  lemma TracksMembers(targets: seq<Target>, c: nat, list: seq<string>)
    ensures Track(c, Changes(list)) in Tracks(targets) <==> Target(c, list) in targets
  {
    var next := Tracks(targets);
    if Target(c, list) in targets {
      var i :| 0 <= i < |targets| && targets[i] == Target(c, list);
      assert next[i] == Track(c, Changes(list));
    }
    if Track(c, Changes(list)) in next {
      var i :| 0 <= i < |next| && next[i] == Track(c, Changes(list));
      assert targets[i] == Target(c, list);
    }
  }

  /** Change tasks only ever come out of an announcement. */
  lemma NewChangesComeFromAnnouncements(s: State, k: nat, t: Task, r: Resolution, u: Task)
    requires u in Exec(s, k, t, r).next && IsChange(u)
    ensures t.Announce? && Exec(s, k, t, r).events == [Announced(k, t.owner, t.paths, t.origin)]
  {
  }

  lemma AdvanceReasons(w: World, k: nat, r: Resolution)
    requires Recorded(w.hub, w.log) && Reasoned(w) && Enabled(w, Advance(k, r))
    ensures Reasoned(Next(w, Advance(k, r)))
  {
    var w', t := Next(w, Advance(k, r)), w.threads[k][0];
    var o := Exec(w.hub, k, t, r);
    forall j: nat, u | j < |w'.threads| && u in w'.threads[j] && IsChange(u)
      ensures Explained(w'.log, j, u.c, u.payload.paths)
    {
      if u in w.threads[j] {
        ExplainedStays(w.log, o.events, j, u.c, u.payload.paths);
      } else {
        assert j == k && u in o.next;
        NewChangesComeFromAnnouncements(w.hub, k, t, r, u);
        TracksAreOwed(w.hub, w.log, k, t.owner, t.paths, t.origin);
        assert u == Track(u.c, Changes(u.payload.paths));
        assert ExplainedAt(w'.log, |w.log|, k, u.c, u.payload.paths);
      }
    }
    forall j: nat | j < |w'.log| && w'.log[j].Issued? && w'.log[j].payload.Changes?
      ensures Explained(w'.log[..j], w'.log[j].thread, w'.log[j].c, w'.log[j].payload.paths)
    {
      if j < |w.log| {
        assert w'.log[..j] == w.log[..j] && w'.log[j] == w.log[j];
      } else {
        assert o.events == [Issued(k, t.c, w.hub.nextFrame, t.payload)];
        assert w'.log[..j] == w.log && t in w.threads[k] && IsChange(t);
      }
    }
  }

  lemma StartReasons(w: World, l: Label)
    requires Reasoned(w) && Enabled(w, l) && !l.Advance?
    ensures Reasoned(Next(w, l))
  {
    var w' := Next(w, l);
    var more := w'.log[|w.log|..];
    assert w'.log == w.log + more;
    forall j: nat, u | j < |w'.threads| && u in w'.threads[j] && IsChange(u)
      ensures Explained(w'.log, j, u.c, u.payload.paths)
    {
      assert j < |w.threads| && u in w.threads[j];
      ExplainedStays(w.log, more, j, u.c, u.payload.paths);
    }
    forall j: nat | j < |w'.log| && w'.log[j].Issued? && w'.log[j].payload.Changes?
      ensures Explained(w'.log[..j], w'.log[j].thread, w'.log[j].c, w'.log[j].payload.paths)
    {
      assert j < |w.log| && w'.log[..j] == w.log[..j] && w'.log[j] == w.log[j];
    }
  }

  // ---- Whole runs ----

  ghost predicate Inv(w: World) {
    Recorded(w.hub, w.log) && Numbered(w.hub, w.log) && Watched(w) && Reasoned(w)
  }

  lemma NextKeepsInv(w: World, l: Label)
    requires Inv(w) && Enabled(w, l) && w.hub.nextConnection < U64 - 1 && w.hub.nextFrame < U64 - 1
    ensures var w' := Next(w, l);
            && Inv(w')
            && w'.hub.nextConnection <= w.hub.nextConnection + 1 && w'.hub.nextFrame <= w.hub.nextFrame + 1
            && w.log <= w'.log
  {
    if l.Advance? {
      var t := w.threads[l.thread][0];
      ExecRecords(w.hub, w.log, l.thread, t, l.resolution);
      ExecNumbers(w.hub, w.log, l.thread, t, l.resolution);
      AdvanceWatches(w, l.thread, l.resolution);
      AdvanceReasons(w, l.thread, l.resolution);
    } else {
      StartRecords(w, l);
      StartWatches(w, l);
      StartReasons(w, l);
    }
  }

  lemma StartRecords(w: World, l: Label)
    requires Recorded(w.hub, w.log) && Numbered(w.hub, w.log) && Enabled(w, l) && !l.Advance?
    ensures var w' := Next(w, l); Recorded(w'.hub, w'.log) && Numbered(w'.hub, w'.log) && w'.hub == w.hub
  {
    var w' := Next(w, l);
    var e := w'.log[|w.log|];
    assert w'.log == w.log + [e] && About(e).None?;
    forall c: nat
      ensures At(w.hub, c) == InLog(w.log + [e], c)
    {
      InLogSnoc(w.log, e, c);
    }
  }

  /** Any interleaving of fewer than 2^64 - 2 steps, whatever the clients, writers and timers do. */
  lemma {:induction false} RunKeepsInv(w: World, run: seq<Label>)
    requires Inv(w) && Legal(w, run)
    requires w.hub.nextConnection + |run| < U64 && w.hub.nextFrame + |run| < U64
    ensures Inv(After(w, run)) && w.log <= After(w, run).log
    decreases |run|
  {
    if run != [] {
      NextKeepsInv(w, run[0]);
      RunKeepsInv(Next(w, run[0]), run[1..]);
    }
  }

  lemma InitialInv()
    ensures Inv(INITIAL)
  {
  }
}
