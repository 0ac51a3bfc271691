/** The change-notification hub of src/sync_hub.cpp: its state, its lock-held blocks and the fan-out. */
module Hub {
  import opened Wrappers
  import opened Text
  import opened Paths

  const MAX_PATHS_PER_FRAME: nat := 100

  datatype Watch = Watch(owner: string, prefix: string)

  datatype Connection = Connection(userId: string, device: string, pending: set<string>, watches: seq<Watch>)

  datatype State = State(connections: map<nat, Connection>, nextConnection: nat, nextFrame: nat)

  /** What a frame the hub tracks says. */
  datatype Payload = RequestChanges | Changes(paths: seq<string>)

  /** The string fields of a `watch` request; a field that is missing or not a string reads as "". */
  datatype WatchRequest = WatchRequest(link: string, share: string, path: string)

  /** An incoming frame after parsing; Unreadable is anything that is not a JSON object. */
  datatype Incoming = Unreadable | Frame(kind: string, id: string, device: string, request: WatchRequest)

  datatype AnswerKind = Ack | Nack

  datatype Target = Target(connection: nat, paths: seq<string>)

  function FrameId(n: nat): string {
    "s" + Decimal(n)
  }

  lemma FrameIdInjective(m: nat, n: nat)
    requires FrameId(m) == FrameId(n)
    ensures m == n
  {
    assert FrameId(m)[1..] == Decimal(m) && FrameId(n)[1..] == Decimal(n);
    DecimalInjective(m, n);
  }

  /** "s" and the counter in decimal. */
  lemma FrameIdReadsBack(n: nat)
    ensures var id := FrameId(n);
            id[0] == 's' && (forall c | c in id[1..] :: '0' <= c <= '9') && ValueOf(id[1..]) == n
  {
    assert FrameId(n)[1..] == Decimal(n);
    DecimalReadsBack(n);
  }

  // ---- The lock-held blocks, as functions of the state ----

  function Registered(s: State, user: string): (State, nat) {
    var c := s.nextConnection;
    (s.(connections := s.connections[c := Connection(user, "", {}, [])], nextConnection := (c + 1) % U64), c)
  }

  function Removed(s: State, c: nat): State {
    s.(connections := s.connections - {c})
  }

  /** fSendTracked: a fresh id becomes pending, or the connection is gone and nothing is sent. */
  function Tracked(s: State, c: nat): (State, Option<string>) {
    if c !in s.connections then (s, None)
    else
      var id := FrameId(s.nextFrame);
      var conn := s.connections[c];
      (s.(connections := s.connections[c := conn.(pending := conn.pending + {id})],
          nextFrame := (s.nextFrame + 1) % U64),
       Some(id))
  }

  predicate IsOwed(s: State, c: nat, id: string) {
    c in s.connections && id in s.connections[c].pending
  }

  /** fExpire: drops the connection, and reports that its peer is to be closed, iff the frame is still pending. */
  function Expired(s: State, c: nat, id: string): (State, bool) {
    if IsOwed(s, c, id) then (Removed(s, c), true) else (s, false)
  }

  /** What fHandle does next, once its first block is over. */
  datatype FollowUp = Nothing | Answer(kind: AnswerKind) | Resolve(user: string) | Unwatch

  function Handled(s: State, c: nat, f: Incoming): (State, FollowUp) {
    if f.Unreadable? || c !in s.connections then (s, Nothing)
    else
      var conn := s.connections[c];
      if f.kind == "ack" then
        (s.(connections := s.connections[c := conn.(pending := conn.pending - {f.id})]), Nothing)
      else if f.kind == "hello" then
        (s.(connections := s.connections[c := conn.(device := f.device)]), Answer(Ack))
      else if f.kind == "ping" || f.kind == "changes" then (s, Answer(Ack))
      else if f.kind == "watch" then (s, Resolve(conn.userId))
      else if f.kind == "unwatch" then (s, Unwatch)
      else (s, Nothing)
  }

  /** The second block of fHandle: one followed path at a time, so the new outcome replaces the old. */
  function Watching(s: State, c: nat, target: Option<Watch>): (State, bool) {
    if c !in s.connections then (s, false)
    else
      var watches := if target.Some? then [target.value] else [];
      (s.(connections := s.connections[c := s.connections[c].(watches := watches)]), true)
  }

  // ---- The fan-out ----

  function Filtered(paths: seq<string>, prefix: string): seq<string> {
    if paths == [] then []
    else
      var init, last := paths[..|paths| - 1], paths[|paths| - 1];
      if MatchesPrefix(last, prefix) then Filtered(init, prefix) + [last] else Filtered(init, prefix)
  }

  function Added(visible: seq<string>, path: string): seq<string> {
    if path in visible then visible else visible + [path]
  }

  /** `seen` followed by the first occurrences, in order, of what it does not yet hold. */
  function Merged(seen: seq<string>, more: seq<string>): seq<string> {
    if more == [] then seen else Added(Merged(seen, more[..|more| - 1]), more[|more| - 1])
  }

  function Visible(watches: seq<Watch>, owner: string, paths: seq<string>): seq<string> {
    if watches == [] then []
    else
      var earlier, w := Visible(watches[..|watches| - 1], owner, paths), watches[|watches| - 1];
      if w.owner != owner then earlier else Merged(earlier, Filtered(paths, w.prefix))
  }

  function Capped(paths: seq<string>): seq<string> {
    if |paths| <= MAX_PATHS_PER_FRAME then paths else []
  }

  /** The list one connection is sent for a change, or None when it is not told. */
  function ListFor(conn: Connection, owner: string, paths: seq<string>, origin: string): Option<seq<string>> {
    if origin != "" && conn.device == origin then None
    else if conn.userId != "" && conn.userId == owner then Some(Capped(paths))
    else
      var visible := Visible(conn.watches, owner, paths);
      if visible == [] then None else Some(Capped(visible))
  }

  function Least(ids: set<nat>): (m: nat)
    requires ids != {}
    ensures m in ids && forall k | k in ids :: m <= k
  {
    LeastExists(ids);
    var m :| m in ids && forall k | k in ids :: m <= k;
    m
  }

  lemma {:induction false} LeastExists(ids: set<nat>)
    requires ids != {}
    ensures exists m :: m in ids && forall k | k in ids :: m <= k
  {
    var x :| x in ids;
    LeastBelow(ids, x);
  }

  lemma {:induction false} LeastBelow(ids: set<nat>, y: nat)
    requires y in ids
    ensures exists m :: m in ids && forall k | k in ids :: m <= k
    decreases y
  {
    if z :| z in ids && z < y {
      LeastBelow(ids, z);
    } else {
      assert forall k | k in ids :: y <= k;
    }
  }

  /** All targets among `ids`, in the ascending order std::map iterates in. */
  function TargetsAmong(s: State, ids: set<nat>, owner: string, paths: seq<string>, origin: string): seq<Target>
    requires ids <= s.connections.Keys
  {
    if ids == {} then []
    else
      var c := Least(ids);
      var list := ListFor(s.connections[c], owner, paths, origin);
      (if list.Some? then [Target(c, list.value)] else [])
      + TargetsAmong(s, ids - {c}, owner, paths, origin)
  }

  lemma NextTarget(s: State, ids: set<nat>, owner: string, paths: seq<string>, origin: string, before: seq<Target>)
    requires ids <= s.connections.Keys && ids != {}
    ensures var c := Least(ids);
            var list := ListFor(s.connections[c], owner, paths, origin);
            before + TargetsAmong(s, ids, owner, paths, origin) ==
            (if list.Some? then before + [Target(c, list.value)] else before)
            + TargetsAmong(s, ids - {c}, owner, paths, origin)
  {
    hide ListFor, Least;
    var c := Least(ids);
    var list, rest := ListFor(s.connections[c], owner, paths, origin), TargetsAmong(s, ids - {c}, owner, paths, origin);
    if list.Some? {
      assert before + ([Target(c, list.value)] + rest) == before + [Target(c, list.value)] + rest;
    } else {
      assert [] + rest == rest;
    }
  }

  function Targets(s: State, owner: string, paths: seq<string>, origin: string): seq<Target> {
    TargetsAmong(s, s.connections.Keys, owner, paths, origin)
  }

  /** Exactly the connections concerned are targets, each once, in ascending order. */
  lemma {:induction false} TargetsExact(s: State, ids: set<nat>, owner: string, paths: seq<string>, origin: string)
    requires ids <= s.connections.Keys
    ensures var targets := TargetsAmong(s, ids, owner, paths, origin);
            && (forall t :: t in targets <==>
                  t.connection in ids && ListFor(s.connections[t.connection], owner, paths, origin) == Some(t.paths))
            && (forall i, j | 0 <= i < j < |targets| :: targets[i].connection < targets[j].connection)
    decreases ids
  {
    hide ListFor;
    if ids != {} {
      var c := Least(ids);
      var rest := TargetsAmong(s, ids - {c}, owner, paths, origin);
      TargetsExact(s, ids - {c}, owner, paths, origin);
      assert forall i | 0 <= i < |rest| :: rest[i] in rest;
    }
  }

  lemma {:induction false} FilteredMembers(paths: seq<string>, prefix: string)
    ensures forall p :: p in Filtered(paths, prefix) <==> p in paths && MatchesPrefix(p, prefix)
  {
    if paths != [] {
      FilteredMembers(paths[..|paths| - 1], prefix);
      assert paths == paths[..|paths| - 1] + [paths[|paths| - 1]];
    }
  }

  ghost predicate NoDuplicates(s: seq<string>) {
    forall i, j | 0 <= i < j < |s| :: s[i] != s[j]
  }

  lemma {:induction false} MergedMembers(seen: seq<string>, more: seq<string>)
    requires NoDuplicates(seen)
    ensures NoDuplicates(Merged(seen, more))
    ensures forall p :: p in Merged(seen, more) <==> p in seen || p in more
  {
    if more != [] {
      MergedMembers(seen, more[..|more| - 1]);
      assert more == more[..|more| - 1] + [more[|more| - 1]];
    }
  }

  /** A watcher sees a path iff it is announced and some watch on that owner covers it; no path twice. */
  lemma {:induction false} VisibleMembers(watches: seq<Watch>, owner: string, paths: seq<string>)
    ensures NoDuplicates(Visible(watches, owner, paths))
    ensures forall p :: p in Visible(watches, owner, paths) <==>
              p in paths && exists w :: w in watches && w.owner == owner && MatchesPrefix(p, w.prefix)
  {
    if watches != [] {
      var init, w := watches[..|watches| - 1], watches[|watches| - 1];
      VisibleMembers(init, owner, paths);
      FilteredMembers(paths, w.prefix);
      MergedMembers(Visible(init, owner, paths), Filtered(paths, w.prefix));
      assert watches == init + [w];
      forall p
        ensures (exists v :: v in watches && v.owner == owner && MatchesPrefix(p, v.prefix)) <==>
                  (exists v :: v in init && v.owner == owner && MatchesPrefix(p, v.prefix))
                  || (w.owner == owner && MatchesPrefix(p, w.prefix))
      {
        if v :| v in watches && v.owner == owner && MatchesPrefix(p, v.prefix) {
          assert v in init || v == w;
        }
        if v :| v in init && v.owner == owner && MatchesPrefix(p, v.prefix) {
          assert v in watches;
        }
        assert w in watches;
      }
    }
  }

  /** Some watch of the connection, on that owner, is at or above the path. */
  ghost predicate Covered(conn: Connection, owner: string, p: string) {
    exists w :: w in conn.watches && w.owner == owner && Segments(w.prefix) <= Segments(p)
  }

  /** A list of up to 100 paths is sent as it is, a longer one as the empty list that stands for everything. */
  ghost predicate AtMost100(list: seq<string>, of: seq<string>) {
    list == if |of| <= 100 then of else []
  }

  /**
   The device that made the change is not told, and the owner's others are, of all of it. Any other connection, one
   without a user included, is told exactly when a watch of its own on that owner covers an announced path, and then of
   the covered paths, each once, unless there are more than 100.
   */
  lemma WhoIsTold(conn: Connection, owner: string, paths: seq<string>, origin: string)
    ensures var list := ListFor(conn, owner, paths, origin);
            if origin != "" && conn.device == origin then list == None
            else if conn.userId != "" && conn.userId == owner then list.Some? && AtMost100(list.value, paths)
            else
              && (list.Some? <==> exists p :: p in paths && Covered(conn, owner, p))
              && (list.Some? ==>
                    exists covered :: NoDuplicates(covered) && AtMost100(list.value, covered)
                                      && forall p :: p in covered <==> p in paths && Covered(conn, owner, p))
  {
    hide Segments, MatchesPrefix, Visible;
    var visible := Visible(conn.watches, owner, paths);
    VisibleMembers(conn.watches, owner, paths);
    forall p
      ensures p in visible <==> p in paths && Covered(conn, owner, p)
    {
      forall w | w in conn.watches
        ensures MatchesPrefix(p, w.prefix) <==> Segments(w.prefix) <= Segments(p)
      {
        MatchesPrefixIffAncestor(p, w.prefix);
      }
    }
    if visible != [] {
      assert visible[0] in visible;
    }
    if ListFor(conn, owner, paths, origin) == Some(Capped(visible)) {
      assert NoDuplicates(visible) && AtMost100(ListFor(conn, owner, paths, origin).value, visible);
    }
  }

  /** The first position of `p`. */
  function FirstAt(s: seq<string>, p: string): nat
    requires p in s
  {
    if s[0] == p then 0 else 1 + FirstAt(s[1..], p)
  }

  lemma {:induction false} FirstAtSnoc(s: seq<string>, x: string, p: string)
    requires p in s + [x]
    ensures FirstAt(s + [x], p) == if p in s then FirstAt(s, p) else |s|
    ensures p in s ==> FirstAt(s, p) < |s|
  {
    if s != [] && s[0] != p {
      assert (s + [x])[1..] == s[1..] + [x];
      FirstAtSnoc(s[1..], x, p);
      assert s == [s[0]] + s[1..];
    }
  }

  /** `r` lists members of `all` in the order of their first occurrences. */
  ghost predicate InFirstOrder(r: seq<string>, all: seq<string>) {
    && (forall p | p in r :: p in all)
    && (forall i, j | 0 <= i < j < |r| :: FirstAt(all, r[i]) < FirstAt(all, r[j]))
  }

  lemma {:induction false} MergedKeepsOrder(more: seq<string>)
    ensures InFirstOrder(Merged([], more), more)
  {
    if more != [] {
      var init, x := more[..|more| - 1], more[|more| - 1];
      MergedKeepsOrder(init);
      MergedMembers([], init);
      MergedMembers([], more);
      assert more == init + [x];
      var r, before := Merged([], more), Merged([], init);
      assert r == if x in before then before else before + [x];
      forall i, j | 0 <= i < j < |r|
        ensures FirstAt(more, r[i]) < FirstAt(more, r[j])
      {
        assert r[i] in r && r[j] in r && before[i] in before;
        FirstAtSnoc(init, x, r[i]);
        FirstAtSnoc(init, x, r[j]);
        if j < |before| {
          assert before[j] in before;
        }
      }
    }
  }

  /** With the one watch a connection can have, the list is the matching subsequence, first occurrences only. */
  lemma SingleWatchSees(w: Watch, owner: string, paths: seq<string>)
    ensures Visible([w], owner, paths) == if w.owner == owner then Merged([], Filtered(paths, w.prefix)) else []
  {
    assert [w][..0] == [];
    assert Visible([w][..0], owner, paths) == [];
  }

  // ---- Whole calls, when nothing interferes ----

  /** What fSendTracked does outside the lock: send the frame to the connection's peer, then arm its time-out. */
  datatype Effect = SendThenArm(c: nat, id: string, payload: Payload)

  function SentTracked(s: State, c: nat, payload: Payload): (State, seq<Effect>) {
    var (s', id) := Tracked(s, c);
    (s', if id.None? then [] else [SendThenArm(c, id.value, payload)])
  }

  function SentAll(s: State, targets: seq<Target>): (State, seq<Effect>) {
    if targets == [] then (s, [])
    else
      var (s', before) := SentAll(s, targets[..|targets| - 1]);
      var t := targets[|targets| - 1];
      var (s'', last) := SentTracked(s', t.connection, Changes(t.paths));
      (s'', before + last)
  }

  lemma SentTrackedExact(s: State, c: nat, payload: Payload)
    requires c in s.connections && s.nextFrame + 1 < U64
    ensures var (end, effects) := SentTracked(s, c, payload);
            && end.connections.Keys == s.connections.Keys && end.nextFrame == s.nextFrame + 1
            && effects == [SendThenArm(c, FrameId(s.nextFrame), payload)]
  {
  }

  /** The fan-out sends the i-th target the i-th next frame id with that target's own list. */
  lemma {:induction false} SentAllExact(s: State, targets: seq<Target>)
    requires forall i | 0 <= i < |targets| :: targets[i].connection in s.connections
    requires s.nextFrame + |targets| < U64
    ensures var (end, effects) := SentAll(s, targets);
            && end.connections.Keys == s.connections.Keys && end.nextFrame == s.nextFrame + |targets|
            && |effects| == |targets|
            && forall i | 0 <= i < |targets| ::
                 effects[i] == SendThenArm(targets[i].connection, FrameId(s.nextFrame + i), Changes(targets[i].paths))
  {
    hide FrameId, SentTracked;
    if targets != [] {
      var init, t := targets[..|targets| - 1], targets[|targets| - 1];
      SentAllExact(s, init);
      SentTrackedExact(SentAll(s, init).0, t.connection, Changes(t.paths));
    }
  }

  // ---- The hub object ----

  class Hub {
    var connections: map<nat, Connection>
    var nextConnection: nat
    var nextFrame: nat

    function View(): State
      reads this
    {
      State(connections, nextConnection, nextFrame)
    }

    constructor ()
      ensures View() == State(map[], 1, 1)
    {
      connections, nextConnection, nextFrame := map[], 1, 1;
    }

    method Register(user: string) returns (id: nat)
      modifies this
      ensures (View(), id) == Registered(old(View()), user)
    {
      id := nextConnection;
      nextConnection := (nextConnection + 1) % U64;
      connections := connections[id := Connection(user, "", {}, [])];
    }

    method Remove(c: nat)
      modifies this`connections
      ensures View() == Removed(old(View()), c)
    {
      connections := connections - {c};
    }

    method Track(c: nat) returns (id: Option<string>)
      modifies this
      ensures (View(), id) == Tracked(old(View()), c)
    {
      if c !in connections {
        return None;
      }
      var issued := FrameId(nextFrame);
      nextFrame := (nextFrame + 1) % U64;
      var conn := connections[c];
      connections := connections[c := conn.(pending := conn.pending + {issued})];
      return Some(issued);
    }

    method Expire(c: nat, id: string) returns (close: bool)
      modifies this`connections
      ensures (View(), close) == Expired(old(View()), c, id)
    {
      if c !in connections || id !in connections[c].pending {
        return false;
      }
      connections := connections - {c};
      return true;
    }

    method Handle(c: nat, f: Incoming) returns (next: FollowUp)
      modifies this`connections
      ensures (View(), next) == Handled(old(View()), c, f)
    {
      if f.Unreadable? || c !in connections {
        return Nothing;
      }
      var conn := connections[c];
      if f.kind == "ack" {
        connections := connections[c := conn.(pending := conn.pending - {f.id})];
        return Nothing;
      }
      if f.kind == "hello" {
        connections := connections[c := conn.(device := f.device)];
      }
      if f.kind == "hello" || f.kind == "ping" || f.kind == "changes" {
        return Answer(Ack);
      }
      if f.kind == "watch" {
        return Resolve(conn.userId);
      }
      return if f.kind == "unwatch" then Unwatch else Nothing;
    }

    method SetWatch(c: nat, target: Option<Watch>) returns (found: bool)
      modifies this`connections
      ensures (View(), found) == Watching(old(View()), c, target)
    {
      if c !in connections {
        return false;
      }
      var watches: seq<Watch> := [];
      if target.Some? {
        watches := [target.value];
      }
      connections := connections[c := connections[c].(watches := watches)];
      return true;
    }

    /** The two inner loops of fNotify. */
    static method VisibleTo(watches: seq<Watch>, owner: string, paths: seq<string>) returns (visible: seq<string>)
      ensures visible == Visible(watches, owner, paths)
    {
      visible := [];
      for i := 0 to |watches|
        invariant visible == Visible(watches[..i], owner, paths)
      {
        assert watches[..i + 1][..i] == watches[..i];
        if watches[i].owner != owner {
          continue;
        }
        ghost var before := visible;
        for j := 0 to |paths|
          invariant visible == Merged(before, Filtered(paths[..j], watches[i].prefix))
        {
          assert paths[..j + 1][..j] == paths[..j];
          if MatchesPrefix(paths[j], watches[i].prefix) {
            var kept := Filtered(paths[..j], watches[i].prefix);
            assert (kept + [paths[j]])[..|kept|] == kept;
            if paths[j] !in visible {
              visible := visible + [paths[j]];
            }
          }
        }
        assert paths[..|paths|] == paths;
      }
      assert watches[..|watches|] == watches;
    }

    /** The block of fNotify: who is told, and which list each is sent. */
    method Snapshot(owner: string, paths: seq<string>, origin: string) returns (targets: seq<Target>)
      ensures targets == Targets(View(), owner, paths, origin)
    {
      targets := [];
      assert TargetsAmong(View(), {}, owner, paths, origin) == [];
      hide Visible, MatchesPrefix, TargetsAmong;
      var todo := connections.Keys;
      while todo != {}
        invariant todo <= connections.Keys
        invariant targets + TargetsAmong(View(), todo, owner, paths, origin) == Targets(View(), owner, paths, origin)
        decreases todo
      {
        var c := Least(todo);
        var conn := connections[c];
        NextTarget(View(), todo, owner, paths, origin, targets);
        todo := todo - {c};
        if origin != "" && conn.device == origin {
          continue;
        }
        var owners := conn.userId != "" && conn.userId == owner;
        var visible := paths;
        if !owners {
          visible := VisibleTo(conn.watches, owner, paths);
        }
        if visible == [] && !owners {
          continue;
        }
        var list: seq<string> := [];
        if |visible| <= MAX_PATHS_PER_FRAME {
          list := visible;
        }
        targets := targets + [Target(c, list)];
      }
    }

    method SendTracked(c: nat, payload: Payload) returns (effects: seq<Effect>)
      modifies this
      ensures (View(), effects) == SentTracked(old(View()), c, payload)
    {
      var id := Track(c);
      if id.None? {
        return [];
      }
      return [SendThenArm(c, id.value, payload)];
    }

    /** fAdd: an anonymous link viewer has no workspace to reconcile, so only users are asked to catch up. */
    method Add(user: string) returns (id: nat, effects: seq<Effect>)
      requires nextConnection !in connections
      modifies this
      ensures id == old(nextConnection) && nextConnection == (id + 1) % U64
      ensures id in connections && connections - {id} == old(connections)
      ensures connections[id] == Connection(user, "", if user == "" then {} else {FrameId(old(nextFrame))}, [])
      ensures effects == if user == "" then [] else [SendThenArm(id, FrameId(old(nextFrame)), RequestChanges)]
    {
      id := Register(user);
      effects := [];
      if user != "" {
        effects := SendTracked(id, RequestChanges);
      }
      assert connections - {id} == old(connections);
    }

    method Notify(owner: string, paths: seq<string>, origin: string) returns (effects: seq<Effect>)
      modifies this
      ensures (View(), effects) == SentAll(old(View()), Targets(old(View()), owner, paths, origin))
    {
      var targets := Snapshot(owner, paths, origin);
      effects := [];
      for i := 0 to |targets|
        invariant (View(), effects) == SentAll(old(View()), targets[..i])
      {
        assert targets[..i + 1][..i] == targets[..i];
        var more := SendTracked(targets[i].connection, Changes(targets[i].paths));
        effects := effects + more;
      }
      assert targets[..|targets|] == targets;
    }
  }
}
