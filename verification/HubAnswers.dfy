/** What clients can count on, frame by frame and call by call, in every interleaving from an empty hub. */
module HubAnswers {
  import opened Wrappers
  import opened Hub
  import opened HubSystem
  import opened HubHistory
  import opened HubCalls

  /** Event `h` starts a call that has ended. */
  predicate EndedCall(w: World, h: nat) {
    && h < |w.log| && IsStart(w.log[h])
    && w.log[h].thread < |w.threads| && w.threads[w.log[h].thread] == []
  }

  /** What a call logged after the event that started it. */
  function Since(log: seq<Event>, h: nat): seq<Event>
    requires h < |log|
  {
    var es := Own(log, log[h].thread);
    if es == [] then [] else es[1..]
  }

  /** These are all the events of the call, and each comes after the start. */
  lemma SinceIsAll(w: World, h: nat, e: Event)
    requires Courses(w) && h < |w.log| && IsStart(w.log[h])
    ensures e in Since(w.log, h) <==> e in w.log && e.thread == w.log[h].thread && !IsStart(e)
    ensures forall j: nat | j < |w.log| && w.log[j].thread == w.log[h].thread && !IsStart(w.log[j]) :: h < j
  {
    var k, es := w.log[h].thread, Own(w.log, w.log[h].thread);
    StartIsFirst(w, h);
    if e in Since(w.log, h) {
      var p :| 0 <= p < |es| - 1 && es[1..][p] == e;
      var j := OwnSource(w.log, k, p + 1);
      assert j != h;
    }
    forall j: nat | j < |w.log| && w.log[j].thread == k && !IsStart(w.log[j])
      ensures h < j && w.log[j] in Since(w.log, h)
    {
      var g := StartComesBefore(w, j);
      assert g == h || g < h || h < g;
    }
  }

  lemma EndedFrame(w: World, h: nat)
    requires Courses(w) && EndedCall(w, h) && w.log[h].Heard?
    ensures exists absent ::
              && (absent ==> WasAbsent(w.log, h, w.log[h].c))
              && FrameEnded(w.log[h].thread, w.log[h].c, w.log[h].frame, Since(w.log, h), absent)
  {
    var Heard(k, c, f) := w.log[h];
    StartIsFirst(w, h);
    SinceItsStart(w, h, c, "");
    hide Own, AbsentSince, WasAbsent, FrameEnded;
    assert FrameEnded(k, c, f, Since(w.log, h), AbsentSince(w.log, k, c));
  }

  // ---- Watch and unwatch ----

  predicate IsWatchFrame(f: Incoming) {
    IsFrame(f, "watch") || IsFrame(f, "unwatch")
  }

  /** The resolver refused: nothing is set, and a reply is a nack. */
  ghost predicate WasRefused(k: nat, c: nat, f: Incoming, es: seq<Event>) {
    IsFrame(f, "watch") && exists user :: es == [Asked(k, c, user, f.request, Refused)] + Reply(k, c, Nack, f.id)
  }

  /** The resolver accepted: that very watch is set, once, and a reply is an ack. No resolver clears the watch. */
  ghost predicate WasSet(k: nat, c: nat, f: Incoming, es: seq<Event>) {
    IsFrame(f, "watch")
    && exists user, target ::
         es == [Asked(k, c, user, f.request, AnswerFor(target)), WatchSet(k, c, target)] + Reply(k, c, Ack, f.id)
  }

  /** An unwatch: the watch is cleared, once, and a reply is an ack. */
  predicate WasCleared(k: nat, c: nat, f: Incoming, es: seq<Event>) {
    IsFrame(f, "unwatch") && es == [WatchSet(k, c, None)] + Reply(k, c, Ack, f.id)
  }

  lemma DecidedOnWatch(k: nat, c: nat, f: Incoming, kind: AnswerKind, es: seq<Event>)
    requires IsWatchFrame(f) && Replied(k, c, f, kind, es)
    ensures WasRefused(k, c, f, es) || WasSet(k, c, f, es) || WasCleared(k, c, f, es)
  {
    var reply := Reply(k, c, kind, f.id);
    var made := es[..|es| - |reply|];
    assert es == made + reply && Decided(k, c, f, kind, made);
    hide Replied, Reply, Decided, WasRefused, WasSet, WasCleared;
    if kind.Nack? {
      NackWasRefused(k, c, f, made);
    } else {
      AckWasSet(k, c, f, made);
    }
  }

  lemma NackWasRefused(k: nat, c: nat, f: Incoming, made: seq<Event>)
    requires Decided(k, c, f, Nack, made)
    ensures WasRefused(k, c, f, made + Reply(k, c, Nack, f.id))
  {
    hide Reply;
    assert made == [Asked(k, c, made[0].user, f.request, Refused)];
  }

  lemma AckWasSet(k: nat, c: nat, f: Incoming, made: seq<Event>)
    requires IsWatchFrame(f) && Decided(k, c, f, Ack, made)
    ensures var es := made + Reply(k, c, Ack, f.id); WasSet(k, c, f, es) || WasCleared(k, c, f, es)
  {
    hide Reply;
    var earlier, target := made[..|made| - 1], made[|made| - 1].target;
    assert made == earlier + [WatchSet(k, c, target)] && Deciding(k, c, f, target, earlier);
    hide Decided;
    if IsFrame(f, "watch") {
      var user := earlier[0].user;
      assert earlier == [Asked(k, c, user, f.request, AnswerFor(target))];
      assert made == [Asked(k, c, user, f.request, AnswerFor(target)), WatchSet(k, c, target)];
    } else {
      assert made == [WatchSet(k, c, None)];
    }
  }

  /**
   Once the call for a watch or unwatch frame has ended, all it did, in this order, is one of: the resolver refused and
   the watch stayed as it was; the resolver accepted and exactly that watch was set; an unwatch cleared it. The reply,
   if the frame has an id, is a nack in the first case only. Or the connection was gone at some point after.
   */
  lemma {:induction false} WatchFramesTakeEffect(run: seq<Label>, h: nat)
    requires Legal(INITIAL, run) && 1 + |run| < U64 && EndedCall(After(INITIAL, run), h)
    requires var e := After(INITIAL, run).log[h]; e.Heard? && IsWatchFrame(e.frame)
    ensures var log := After(INITIAL, run).log;
            var Heard(k, c, f) := log[h];
            var es := Since(log, h);
            WasRefused(k, c, f, es) || WasSet(k, c, f, es) || WasCleared(k, c, f, es) || WasAbsent(log, h, c)
  {
    CallsKeepTheirCourse(run);
    var w := After(INITIAL, run);
    hide After, Legal, Since, Courses, WasAbsent, WasRefused, WasSet, WasCleared, Replied;
    EndedFrame(w, h);
    var Heard(k, c, f) := w.log[h];
    if Replied(k, c, f, Ack, Since(w.log, h)) {
      DecidedOnWatch(k, c, f, Ack, Since(w.log, h));
    } else if Replied(k, c, f, Nack, Since(w.log, h)) {
      DecidedOnWatch(k, c, f, Nack, Since(w.log, h));
    }
  }

  /** Event `h` is the frame of the connection that led call `k` to set `target`: accepted, or an unwatch. */
  ghost predicate SetBy(log: seq<Event>, h: nat, k: nat, c: nat, target: Option<Watch>) {
    && h < |log| && log[h].Heard? && log[h].thread == k && log[h].c == c
    && SetFor(log, k, c, log[h].frame, target)
  }

  ghost predicate SetFor(log: seq<Event>, k: nat, c: nat, f: Incoming, target: Option<Watch>) {
    || (IsFrame(f, "unwatch") && target.None?)
    || (IsFrame(f, "watch") && exists user :: Asked(k, c, user, f.request, AnswerFor(target)) in log)
  }

  /** What a call has logged at any time, when it has set a watch. */
  lemma SettingIsBacked(k: nat, c: nat, f: Incoming, es: seq<Event>, tasks: seq<Task>, absent: bool, e: Event)
    requires FrameCourse(k, c, f, es, tasks, absent) && e in es && e.WatchSet?
    ensures e == WatchSet(k, c, e.target) && SetFor(es, k, c, f, e.target)
  {
    if tasks != [] {
      if tasks[0].SendAnswer? {
        DecidedSets(k, c, f, tasks[0].kind, es, e);
      }
    } else if Replied(k, c, f, Ack, es) {
      RepliedSets(k, c, f, Ack, es, e);
    } else if Replied(k, c, f, Nack, es) {
      RepliedSets(k, c, f, Nack, es, e);
    }
  }

  lemma DecidedSets(k: nat, c: nat, f: Incoming, kind: AnswerKind, es: seq<Event>, e: Event)
    requires Decided(k, c, f, kind, es) && e in es && e.WatchSet?
    ensures e == WatchSet(k, c, e.target) && SetFor(es, k, c, f, e.target)
  {
    DecidedShape(k, c, f, kind, es);
    hide Decided;
    var p :| 0 <= p < |es| && es[p] == e;
    if IsFrame(f, "watch") {
      assert es[..p][0] == es[0] && es[0] in es;
    }
  }

  /** The setting of a watch is the last thing decided. */
  lemma DecidedShape(k: nat, c: nat, f: Incoming, kind: AnswerKind, es: seq<Event>)
    requires Decided(k, c, f, kind, es)
    ensures forall p | 0 <= p < |es| && es[p].WatchSet? ::
              p == |es| - 1 && es[p] == WatchSet(k, c, es[p].target) && Deciding(k, c, f, es[p].target, es[..p])
  {
    var n := |es| - 1;
    forall p | 0 <= p < n
      ensures !es[p].WatchSet?
    {
      assert es[..n][p] == es[p];
    }
  }

  lemma RepliedSets(k: nat, c: nat, f: Incoming, kind: AnswerKind, es: seq<Event>, e: Event)
    requires Replied(k, c, f, kind, es) && e in es && e.WatchSet?
    ensures e == WatchSet(k, c, e.target) && SetFor(es, k, c, f, e.target)
  {
    var reply := Reply(k, c, kind, f.id);
    var made := es[..|es| - |reply|];
    assert es == made + reply;
    DecidedSets(k, c, f, kind, made, e);
    if IsFrame(f, "watch") {
      var user :| Asked(k, c, user, f.request, AnswerFor(e.target)) in made;
      assert Asked(k, c, user, f.request, AnswerFor(e.target)) in es;
    }
  }

  // ---- Which call an event belongs to ----

  predicate OfMessage(e: Event) {
    e.Asked? || e.WatchSet? || e.Acked? || e.Greeted? || e.Answered?
  }

  predicate IsDecision(e: Event) {
    e.Asked? || e.WatchSet? || e.Greeted?
  }

  /** What comes before a reply. */
  lemma DecidedEvents(k: nat, c: nat, f: Incoming, kind: AnswerKind, es: seq<Event>)
    requires Decided(k, c, f, kind, es)
    ensures forall e | e in es :: IsDecision(e) && e.c == c
  {
    forall p | 0 <= p < |es|
      ensures IsDecision(es[p]) && es[p].c == c
    {
      if p < |es| - 1 {
        assert es[..|es| - 1][p] == es[p];
      }
    }
  }

  lemma {:induction false} FrameEvents(k: nat, c: nat, f: Incoming, es: seq<Event>, tasks: seq<Task>, absent: bool)
    requires FrameCourse(k, c, f, es, tasks, absent)
    ensures forall e | e in es :: OfMessage(e) && e.c == c
  {
    if tasks == [] && (Replied(k, c, f, Ack, es) || Replied(k, c, f, Nack, es)) {
      var kind := if Replied(k, c, f, Ack, es) then Ack else Nack;
      RepliedEvents(k, c, f, kind, es);
    } else if tasks != [] && tasks[0].SendAnswer? {
      DecidedEvents(k, c, f, tasks[0].kind, es);
    }
    hide Replied, Decided;
  }

  lemma RepliedEvents(k: nat, c: nat, f: Incoming, kind: AnswerKind, es: seq<Event>)
    requires Replied(k, c, f, kind, es)
    ensures forall e | e in es :: OfMessage(e) && !e.Acked? && e.c == c
  {
    var reply := Reply(k, c, kind, f.id);
    var made := es[..|es| - |reply|];
    DecidedEvents(k, c, f, kind, made);
    hide Decided;
    assert es == made + reply;
  }

  /** Each event comes after the start of its call, and is of the kind that call makes. */
  lemma CallOfEvent(w: World, j: nat) returns (h: nat)
    requires Courses(w) && j < |w.log| && !IsStart(w.log[j])
    ensures h < j && IsStart(w.log[h]) && w.log[h].thread == w.log[j].thread && w.log[j] in Since(w.log, h)
    ensures w.log[h].thread < |w.threads| && Course(w.log, w.log[h].thread, w.threads[w.log[h].thread])
    ensures Own(w.log, w.log[h].thread) == [w.log[h]] + Since(w.log, h)
    ensures OfMessage(w.log[j]) ==> w.log[h].Heard? && w.log[h].c == w.log[j].c
    ensures w.log[j].TimedOut? || w.log[j].PeerClosed? ==> w.log[h].Began? && w.log[h].call.Expire?
    ensures w.log[j].Left? ==> w.log[h].Began? && w.log[h].call.Drop?
    ensures w.log[j].Joined? || (w.log[j].Issued? && w.log[j].payload.RequestChanges?) ==>
              w.log[h].Began? && w.log[h].call.Register?
  {
    h := StartComesBefore(w, j);
    StartIsFirst(w, h);
    var k, e := w.log[h].thread, w.log[j];
    var es, tasks := Since(w.log, h), w.threads[k];
    assert Own(w.log, k) == [w.log[h]] + es && Own(w.log, k)[1..] == es;
    hide Own, Courses, AbsentSince, SparedSince, GoneSinceJoin, FrameCourse, FrameId;
    if w.log[h].Heard? {
      FrameEvents(k, w.log[h].c, w.log[h].frame, es, tasks, AbsentSince(w.log, k, w.log[h].c));
    }
  }

  /** Conversely, every setting of a watch, to something or to nothing, comes from such a frame of the connection. */
  lemma WatchSetsComeFromFrames(w: World, s: nat) returns (h: nat)
    requires Courses(w) && s < |w.log| && w.log[s].WatchSet?
    ensures h < s && SetBy(w.log, h, w.log[s].thread, w.log[s].c, w.log[s].target)
  {
    h := CallOfEvent(w, s);
    var Heard(k, c, f) := w.log[h];
    var es, e := Since(w.log, h), w.log[s];
    SettingIsBacked(k, c, f, es, w.threads[k], AbsentSince(w.log, k, c), e);
    hide Course, Courses, FrameCourse, Since;
    if IsFrame(f, "watch") {
      var user :| Asked(k, c, user, f.request, AnswerFor(e.target)) in es;
      SinceIsAll(w, h, Asked(k, c, user, f.request, AnswerFor(e.target)));
    }
  }

  /**
   In every interleaving, a connection follows what its own last watch or unwatch frame to be settled asked for: the
   path the resolver accepted for it, or nothing; and nothing before any is settled. A refused watch settles nothing.
   */
  lemma {:induction false} WatchesFollowFrames(run: seq<Label>, c: nat) returns (s: nat, h: nat)
    requires Legal(INITIAL, run) && 1 + |run| < U64 && c in After(INITIAL, run).hub.connections
    ensures var w := After(INITIAL, run);
            var watches := w.hub.connections[c].watches;
            || (watches == [] && forall e | e in w.log && e.WatchSet? :: e.c != c)
            || (LastWatch(w.log, s, c) && h < s && SetBy(w.log, h, w.log[s].thread, c, w.log[s].target)
                && watches == if w.log[s].target.Some? then [w.log[s].target.value] else [])
  {
    CallsKeepTheirCourse(run);
    var w := After(INITIAL, run);
    hide After, Legal, SetBy, LastWatch;
    s, h := WatchFollowsFrame(w, c);
  }

  lemma WatchFollowsFrame(w: World, c: nat) returns (s: nat, h: nat)
    requires Inv(w) && Courses(w) && c in w.hub.connections
    ensures var watches := w.hub.connections[c].watches;
            || (watches == [] && forall e | e in w.log && e.WatchSet? :: e.c != c)
            || (LastWatch(w.log, s, c) && h < s && SetBy(w.log, h, w.log[s].thread, c, w.log[s].target)
                && watches == if w.log[s].target.Some? then [w.log[s].target.value] else [])
  {
    s, h := 0, 0;
    assert At(w.hub, c) == InLog(w.log, c);
    WatchesFollowHistory(w.log, c);
    hide InLog, Courses, SetBy, Inv;
    if e :| e in w.log && e.WatchSet? && e.c == c {
      var j: nat :| j < |w.log| && w.log[j] == e;
      s := LastSet(w.log, c, j);
      h := WatchSetsComeFromFrames(w, s);
    }
  }

  lemma {:induction false} LastSet(log: seq<Event>, c: nat, j: nat) returns (s: nat)
    requires j < |log| && log[j].WatchSet? && log[j].c == c
    ensures LastWatch(log, s, c)
    decreases |log| - j
  {
    if k: nat :| j < k < |log| && log[k].WatchSet? && log[k].c == c {
      s := LastSet(log, c, k);
    } else {
      s := j;
    }
  }

  // ---- Replies ----

  /** The answer a frame gets: a nack where the resolver refused; an ack to a watch or unwatch only once it is set. */
  ghost predicate Fits(log: seq<Event>, k: nat, f: Incoming, kind: AnswerKind, id: string) {
    && f.Frame? && f.id == id && id != ""
    && match kind
       case Nack => IsFrame(f, "watch") && exists e :: e in log && e.Asked? && e.thread == k && e.answer.Refused?
       case Ack =>
         || IsFrame(f, "hello") || IsFrame(f, "ping") || IsFrame(f, "changes")
         || (IsWatchFrame(f) && exists e :: e in log && e.WatchSet? && e.thread == k)
  }

  lemma OnlyEndedAnswers(k: nat, c: nat, f: Incoming, es: seq<Event>, tasks: seq<Task>, absent: bool)
    requires FrameCourse(k, c, f, es, tasks, absent) && tasks != []
    ensures forall e | e in es :: !e.Answered? && !e.Acked?
  {
    if tasks[0].SendAnswer? {
      DecidedEvents(k, c, f, tasks[0].kind, es);
    }
  }

  lemma RepliedOnce(k: nat, c: nat, f: Incoming, es: seq<Event>, tasks: seq<Task>, absent: bool, e: Event)
    requires FrameCourse(k, c, f, es, tasks, absent) && e in es && e.Answered?
    ensures tasks == [] && f.id != "" && e == Answered(k, c, e.kind, f.id) && Replied(k, c, f, e.kind, es)
    ensures forall p | 0 <= p < |es| && es[p].Answered? :: p == |es| - 1
  {
    if tasks != [] {
      OnlyEndedAnswers(k, c, f, es, tasks, absent);
    } else {
      var kind := if Replied(k, c, f, Ack, es) then Ack else Nack;
      ReplyIsLast(k, c, f, kind, es);
    }
  }

  lemma ReplyIsLast(k: nat, c: nat, f: Incoming, kind: AnswerKind, es: seq<Event>)
    requires Replied(k, c, f, kind, es)
    ensures forall p | 0 <= p < |es| && es[p].Answered? ::
              p == |es| - 1 && f.id != "" && es[p] == Answered(k, c, kind, f.id)
  {
    var reply := Reply(k, c, kind, f.id);
    var made := es[..|es| - |reply|];
    DecidedEvents(k, c, f, kind, made);
    hide Decided;
    forall p | 0 <= p < |made|
      ensures !es[p].Answered?
    {
      assert es[p] == made[p] && made[p] in made;
    }
    assert forall p | |made| <= p < |es| :: es[p] == reply[p - |made|];
  }

  lemma DecidedFits(k: nat, c: nat, f: Incoming, kind: AnswerKind, es: seq<Event>, log: seq<Event>)
    requires Decided(k, c, f, kind, es) && f.id != "" && forall e | e in es :: e in log
    ensures Fits(log, k, f, kind, f.id)
  {
    if es != [] {
      assert es[|es| - 1] in es;
    }
  }

  /** A reply answers a frame that came in before, under its own id and of the right kind; and no frame gets two. */
  lemma {:induction false} RepliesAnswerFrames(run: seq<Label>, i: nat, j: nat) returns (h: nat)
    requires Legal(INITIAL, run) && 1 + |run| < U64
    requires i < |After(INITIAL, run).log| && j < |After(INITIAL, run).log|
    requires After(INITIAL, run).log[i].Answered? && After(INITIAL, run).log[j].Answered?
    ensures var log := After(INITIAL, run).log;
            && h < i && log[h].Heard? && log[h].thread == log[i].thread && log[h].c == log[i].c
            && Fits(log, log[i].thread, log[h].frame, log[i].kind, log[i].id)
            && (log[i].thread == log[j].thread ==> i == j)
  {
    CallsKeepTheirCourse(run);
    var w := After(INITIAL, run);
    hide After, Legal;
    h := AnswerOfFrame(w, i);
    AnswerIsLast(w, i);
    AnswerIsLast(w, j);
    if w.log[i].thread == w.log[j].thread {
      if i < j {
        OwnOrder(w.log, i, j);
      } else if j < i {
        OwnOrder(w.log, j, i);
      }
    }
  }

  lemma AnswerOfFrame(w: World, i: nat) returns (h: nat)
    requires Courses(w) && i < |w.log| && w.log[i].Answered?
    ensures h < i && w.log[h].Heard? && w.log[h].thread == w.log[i].thread && w.log[h].c == w.log[i].c
    ensures Fits(w.log, w.log[i].thread, w.log[h].frame, w.log[i].kind, w.log[i].id)
  {
    h := CallOfEvent(w, i);
    var Heard(k, c, f) := w.log[h];
    var es, e := Since(w.log, h), w.log[i];
    RepliedOnce(k, c, f, es, w.threads[k], AbsentSince(w.log, k, c), e);
    hide Course, Courses, FrameCourse, Since, Decided;
    var made := es[..|es| - |Reply(k, c, e.kind, f.id)|];
    forall x | x in made
      ensures x in w.log
    {
      assert x in es;
      SinceIsAll(w, h, x);
    }
    DecidedFits(k, c, f, e.kind, made, w.log);
  }

  /** An answer is the last event of its call. */
  lemma AnswerIsLast(w: World, a: nat)
    requires Courses(w) && a < |w.log| && w.log[a].Answered?
    ensures |Own(w.log[..a], w.log[a].thread)| == |Own(w.log, w.log[a].thread)| - 1
  {
    var h := CallOfEvent(w, a);
    var Heard(k, c, f) := w.log[h];
    RepliedOnce(k, c, f, Since(w.log, h), w.threads[k], AbsentSince(w.log, k, c), w.log[a]);
    OwnAt(w.log, a);
    OwnOrder(w.log, h, a);
    var p := |Own(w.log[..a], k)|;
    hide Own, FrameCourse, Course, Courses, Replied;
    assert Since(w.log, h)[p - 1] == w.log[a];
  }

  predicate Wants(f: Incoming) {
    f.Frame? && f.id != "" && f.kind in {"hello", "ping", "changes", "watch", "unwatch"}
  }

  ghost predicate HasAnswered(log: seq<Event>, k: nat, c: nat, id: string) {
    exists kind :: Answered(k, c, kind, id) in log
  }

  /** A call for a frame that wants a reply does not end without one, unless its connection was gone at some point. */
  lemma {:induction false} FinishedCallsHaveReplied(run: seq<Label>, h: nat)
    requires Legal(INITIAL, run) && 1 + |run| < U64 && EndedCall(After(INITIAL, run), h)
    requires var e := After(INITIAL, run).log[h]; e.Heard? && Wants(e.frame)
    ensures var log := After(INITIAL, run).log;
            var Heard(k, c, f) := log[h];
            HasAnswered(log, k, c, f.id) || WasAbsent(log, h, c)
  {
    CallsKeepTheirCourse(run);
    var w := After(INITIAL, run);
    hide After, Legal, Since, Courses, WasAbsent, Decided;
    EndedFrame(w, h);
    var Heard(k, c, f) := w.log[h];
    var es := Since(w.log, h);
    if !WasAbsent(w.log, h, c) {
      var kind := if Replied(k, c, f, Ack, es) then Ack else Nack;
      assert es[|es| - 1..] == [Answered(k, c, kind, f.id)];
      assert es[|es| - 1] == Answered(k, c, kind, f.id);
      SinceIsAll(w, h, Answered(k, c, kind, f.id));
    }
  }

  // ---- Acknowledgements ----

  /** Event `j` is the handling of an ack frame for `id` that `c` itself sent before (event `h`). */
  predicate IsAckFrameHandled(log: seq<Event>, h: nat, j: nat, c: nat, id: string) {
    && h < j < |log| && IsAck(log[j], c, id)
    && log[h].Heard? && log[h].thread == log[j].thread && log[h].c == c
    && IsFrame(log[h].frame, "ack") && log[h].frame.id == id
  }

  lemma AckIsOfAckFrame(k: nat, c: nat, f: Incoming, es: seq<Event>, tasks: seq<Task>, absent: bool, e: Event)
    requires FrameCourse(k, c, f, es, tasks, absent) && e in es && e.Acked?
    ensures IsFrame(f, "ack") && e == Acked(k, c, f.id)
  {
    if tasks != [] {
      OnlyEndedAnswers(k, c, f, es, tasks, absent);
    } else if Replied(k, c, f, Ack, es) || Replied(k, c, f, Nack, es) {
      RepliedEvents(k, c, f, if Replied(k, c, f, Ack, es) then Ack else Nack, es);
    }
  }

  /** What the hub counts as an acknowledgement is an ack frame of that connection, for that id. */
  lemma AcksComeFromFrames(w: World, j: nat) returns (h: nat)
    requires Courses(w) && j < |w.log| && w.log[j].Acked?
    ensures IsAckFrameHandled(w.log, h, j, w.log[j].c, w.log[j].id)
  {
    h := CallOfEvent(w, j);
    var Heard(k, c, f) := w.log[h];
    AckIsOfAckFrame(k, c, f, Since(w.log, h), w.threads[k], AbsentSince(w.log, k, c), w.log[j]);
  }

  /** And every ack frame counts, once its call has ended, unless its connection was gone at some point after. */
  lemma {:induction false} AckFramesCount(run: seq<Label>, h: nat)
    requires Legal(INITIAL, run) && 1 + |run| < U64 && EndedCall(After(INITIAL, run), h)
    requires var e := After(INITIAL, run).log[h]; e.Heard? && IsFrame(e.frame, "ack")
    ensures var log := After(INITIAL, run).log;
            var Heard(k, c, f) := log[h];
            Since(log, h) == [Acked(k, c, f.id)] || (Since(log, h) == [] && WasAbsent(log, h, c))
  {
    CallsKeepTheirCourse(run);
    hide After, Legal, Since, Courses, WasAbsent;
    EndedFrame(After(INITIAL, run), h);
  }

  /** The frame was issued to `c`, and no ack frame of `c` for it has been handled since. */
  ghost predicate AwaitsAckFrame(log: seq<Event>, c: nat, id: string) {
    exists i: nat :: AwaitsAckFrameSince(log, i, c, id)
  }

  ghost predicate AwaitsAckFrameSince(log: seq<Event>, i: nat, c: nat, id: string) {
    && i < |log| && log[i].Issued? && log[i].c == c && FrameId(log[i].n) == id
    && forall h: nat, j: nat | i < j :: !IsAckFrameHandled(log, h, j, c, id)
  }

  /** The pending set of a connection, in terms of the frames it was issued and the ack frames it sent. */
  lemma {:induction false} OwedUntilAckFrame(run: seq<Label>, c: nat, id: string)
    requires Legal(INITIAL, run) && 1 + |run| < U64
    ensures var w := After(INITIAL, run);
            IsOwed(w.hub, c, id) <==> StillRegistered(w.log, c) && AwaitsAckFrame(w.log, c, id)
  {
    CallsKeepTheirCourse(run);
    var w := After(INITIAL, run);
    OwedIff(w, c, id);
    hide After, Legal, Inv, Courses, StillRegistered;
    if i: nat :| UnacknowledgedSince(w.log, i, c, id) {
      assert AwaitsAckFrameSince(w.log, i, c, id);
    }
    if i: nat :| AwaitsAckFrameSince(w.log, i, c, id) {
      forall j: nat | i < j < |w.log|
        ensures !IsAck(w.log[j], c, id)
      {
        if w.log[j].Acked? {
          var h := AcksComeFromFrames(w, j);
        }
      }
      assert UnacknowledgedSince(w.log, i, c, id);
    }
  }

  // ---- Time-outs close their own peer ----

  /** A peer is closed only after its connection timed out in the same call. */
  lemma ClosedPeersTimedOut(w: World, j: nat) returns (i: nat)
    requires Courses(w) && j < |w.log| && w.log[j].PeerClosed?
    ensures i < j && w.log[i].TimedOut? && w.log[i].thread == w.log[j].thread && w.log[i].c == w.log[j].c
  {
    var h := CallOfEvent(w, j);
    var k, es := w.log[h].thread, Since(w.log, h);
    var Expire(c, id) := w.log[h].call;
    assert Own(w.log, k)[1..] == es;
    assert es == [TimedOut(k, c, id), PeerClosed(k, c)];
    i := OwnSource(w.log, k, 1);
    assert Own(w.log, k)[1] == es[0];
    if j < i {
      OwnOrder(w.log, j, i);
      StartIsFirst(w, h);
      OwnOrder(w.log, h, j);
    }
  }

  /**
   Once a timer's callback has ended: it dropped its connection over its very frame and then closed the peer of that
   connection, both once and in that order; or it did nothing, and the frame was not owed at some point since it fired.
   */
  lemma {:induction false} TimersRunTheirCourse(run: seq<Label>, h: nat)
    requires Legal(INITIAL, run) && 1 + |run| < U64 && EndedCall(After(INITIAL, run), h)
    requires var e := After(INITIAL, run).log[h]; e.Began? && e.call.Expire?
    ensures var log := After(INITIAL, run).log;
            var Began(k, Expire(c, id)) := log[h];
            || Since(log, h) == [TimedOut(k, c, id), PeerClosed(k, c)]
            || (Since(log, h) == [] && WasNotOwed(log, h, c, id))
  {
    CallsKeepTheirCourse(run);
    var w := After(INITIAL, run);
    hide After, Legal;
    StartIsFirst(w, h);
    var Began(k, Expire(c, id)) := w.log[h];
    SinceItsStart(w, h, c, id);
    hide Own, WasNotOwed, SparedSince, Courses;
  }

  // ---- Joining and leaving ----

  /** A user's connection is issued one catch-up frame, which is sent and timed, unless it was gone after it joined. */
  lemma {:induction false} UsersAreAskedToCatchUp(run: seq<Label>, h: nat)
    requires Legal(INITIAL, run) && 1 + |run| < U64 && EndedCall(After(INITIAL, run), h)
    requires var e := After(INITIAL, run).log[h]; e.Began? && e.call.Register?
    ensures var log := After(INITIAL, run).log;
            var Began(k, Register(user)) := log[h];
            var es := Since(log, h);
            && es != [] && es[0].Joined? && es[0] == Joined(k, es[0].c, user)
            && var c := es[0].c;
            || (user == "" && es == [Joined(k, c, user)])
            || (user != "" && es == [Joined(k, c, user)] && GoneSinceJoin(log, k))
            || (user != "" && exists n: nat ::
                  es == [Joined(k, c, user), Issued(k, c, n, RequestChanges),
                         Sent(k, c, FrameId(n), RequestChanges), Armed(k, c, FrameId(n))])
  {
    CallsKeepTheirCourse(run);
    var w := After(INITIAL, run);
    hide After, Legal;
    StartIsFirst(w, h);
    var Began(k, Register(user)) := w.log[h];
    var es := Since(w.log, h);
    hide Own, GoneSinceJoin, Courses, FrameId, FrameCourse;
    if user != "" && |es| > 1 {
      assert es == [es[0], es[1], es[2], es[3]];
    }
  }

  /** No other call issues one. */
  lemma CatchUpsComeFromJoining(w: World, j: nat) returns (h: nat)
    requires Courses(w) && j < |w.log| && w.log[j].Issued? && w.log[j].payload.RequestChanges?
    ensures h < j && w.log[h].Began? && w.log[h].call.Register? && w.log[h].call.user != ""
    ensures w.log[h].thread == w.log[j].thread
    ensures Since(w.log, h) != [] && Since(w.log, h)[0] == Joined(w.log[j].thread, w.log[j].c, w.log[h].call.user)
  {
    h := CallOfEvent(w, j);
    assert Own(w.log, w.log[h].thread)[1..] == Since(w.log, h);
    hide Own, GoneSinceJoin, Courses, FrameId;
  }

  /** Once the call for a disconnect has ended, a connection that had joined before it is gone. */
  lemma {:induction false} DisconnectedAreGone(run: seq<Label>, h: nat)
    requires Legal(INITIAL, run) && 1 + |run| < U64 && EndedCall(After(INITIAL, run), h)
    requires var e := After(INITIAL, run).log[h]; e.Began? && e.call.Drop?
    requires HasJoined(After(INITIAL, run).log[..h], After(INITIAL, run).log[h].call.c)
    ensures After(INITIAL, run).log[h].call.c !in After(INITIAL, run).hub.connections
  {
    CallsKeepTheirCourse(run);
    var w := After(INITIAL, run);
    hide After, Legal;
    StartIsFirst(w, h);
    var Began(k, Drop(c)) := w.log[h];
    SinceItsStart(w, h, c, "");
    OwedIff(w, c, "");
    hide Own, AbsentSince, Courses, Inv;
    if WasAbsent(w.log, h, c) {
      AbsentIsGone(w, h, c);
    } else {
      assert Since(w.log, h) == [Left(k, c)];
      SinceIsAll(w, h, Left(k, c));
      assert IsExit(Left(k, c), c);
    }
  }

  lemma AbsentIsGone(w: World, h: nat, c: nat)
    requires Inv(w) && h <= |w.log| && HasJoined(w.log[..h], c) && WasAbsent(w.log, h, c)
    ensures HasGone(w.log, c)
  {
    var i: nat :| h < i <= |w.log| && InLog(w.log[..i], c).None?;
    FreshJoinsPrefix(w.log, i);
    RegisteredIff(w.log[..i], c);
    hide InLog;
    var e :| e in w.log[..h] && e.Joined? && e.c == c;
    var p :| 0 <= p < h && w.log[p] == e;
    assert w.log[..i][p] == e;
    assert HasJoined(w.log[..i], c);
    var x :| x in w.log[..i] && IsExit(x, c);
    assert x in w.log;
  }

  /** Nothing else makes a connection leave. */
  lemma LeavingComesFromDisconnects(w: World, j: nat) returns (h: nat)
    requires Courses(w) && j < |w.log| && w.log[j].Left?
    ensures h < j && w.log[h] == Began(w.log[j].thread, Drop(w.log[j].c))
  {
    h := CallOfEvent(w, j);
    assert Own(w.log, w.log[h].thread)[1..] == Since(w.log, h);
    hide Own, AbsentSince, Courses;
  }

  // ---- Devices ----

  ghost predicate LastHello(log: seq<Event>, s: nat, c: nat) {
    && s < |log| && log[s].Greeted? && log[s].c == c
    && forall j: nat | s < j < |log| :: !(log[j].Greeted? && log[j].c == c)
  }

  /** A connection's device is what its last hello said. */
  lemma {:induction false} DeviceFollowsHistory(log: seq<Event>, c: nat)
    requires FreshJoins(log) && InLog(log, c).Some?
    ensures forall s: nat | LastHello(log, s, c) :: InLog(log, c).value.device == log[s].device
    ensures (forall e | e in log :: !(e.Greeted? && e.c == c)) ==> InLog(log, c).value.device == ""
  {
    var init, e := log[..|log| - 1], log[|log| - 1];
    FreshJoinsPrefix(log, |log| - 1);
    assert log == init + [e];
    if e.Joined? && e.c == c {
      assert forall i: nat | i < |init| :: About(log[i]) != Some(c);
    } else {
      DeviceFollowsHistory(init, c);
      forall s: nat | LastHello(log, s, c) && s < |init|
        ensures LastHello(init, s, c)
      {
      }
    }
  }

  /** And every hello counts, once its call has ended, unless its connection was gone at some point after. */
  lemma {:induction false} HellosCount(run: seq<Label>, h: nat)
    requires Legal(INITIAL, run) && 1 + |run| < U64 && EndedCall(After(INITIAL, run), h)
    requires var e := After(INITIAL, run).log[h]; e.Heard? && IsFrame(e.frame, "hello")
    ensures var log := After(INITIAL, run).log;
            var Heard(k, c, f) := log[h];
            Since(log, h) == [Greeted(k, c, f.device)] + Reply(k, c, Ack, f.id) || WasAbsent(log, h, c)
  {
    CallsKeepTheirCourse(run);
    var w := After(INITIAL, run);
    hide After, Legal, Since, Courses, WasAbsent, Deciding;
    EndedFrame(w, h);
    var Heard(k, c, f) := w.log[h];
    var es := Since(w.log, h);
    if !WasAbsent(w.log, h, c) {
      HelloIsGreeted(k, c, f, if Replied(k, c, f, Ack, es) then Ack else Nack, es);
    }
  }

  lemma HelloIsGreeted(k: nat, c: nat, f: Incoming, kind: AnswerKind, es: seq<Event>)
    requires IsFrame(f, "hello") && Replied(k, c, f, kind, es)
    ensures es == [Greeted(k, c, f.device)] + Reply(k, c, Ack, f.id)
  {
    var reply := Reply(k, c, kind, f.id);
    assert es == es[..|es| - |reply|] + reply;
  }

  // ---- A message is about its own connection only ----

  /** In every interleaving, no step of the call for a frame changes the record of any other connection. */
  lemma {:induction false} MessagesTouchOneConnection(run: seq<Label>, h: nat, r: Resolution, other: nat)
    requires Legal(INITIAL, run) && 1 + |run| < U64
    requires var w := After(INITIAL, run);
             h < |w.log| && w.log[h].Heard? && other != w.log[h].c && Enabled(w, Advance(w.log[h].thread, r))
    ensures var w := After(INITIAL, run);
            At(Next(w, Advance(w.log[h].thread, r)).hub, other) == At(w.hub, other)
  {
    CallsKeepTheirCourse(run);
    var w := After(INITIAL, run);
    hide After, Legal;
    StartIsFirst(w, h);
    var Heard(k, c, f) := w.log[h];
    StageTouchesOne(w.hub, k, c, f, Since(w.log, h), w.threads[k], AbsentSince(w.log, k, c), r, other);
  }

  lemma StageTouchesOne(s: State, k: nat, c: nat, f: Incoming, es: seq<Event>, tasks: seq<Task>, absent: bool,
                        r: Resolution, other: nat)
    requires FrameCourse(k, c, f, es, tasks, absent) && tasks != [] && other != c
    ensures At(Exec(s, k, tasks[0], r).hub, other) == At(s, other)
  {
  }
}
