/** Cookie sessions with sliding expiry: src/session.cpp. */
module Sessions {
  import opened Wrappers
  import opened Text

  /** 30 days, in seconds. */
  const INACTIVITY: int := 30 * 24 * 60 * 60

  datatype Row = Row(user: string, expires: int)

  // ---- The cookie ----

  /** The HMAC under the configured secret is a function `sign` to text; `signing` says whether a secret is set. */
  function CookieFor(sign: string -> string, signing: bool, id: string): string {
    if signing then id + "." + sign(id) else id
  }

  /** What it takes for a cookie to carry `id`. */
  predicate Carries(sign: string -> string, signing: bool, raw: string, id: string) {
    && '.' !in id
    && if signing then id != "" && raw == id + "." + sign(id)
       else raw != "" && (raw == id || id + "." <= raw)
  }

  /** fIdFromCookie: cut at the first dot, then check the signature if one is expected. */
  method IdFromCookie(sign: string -> string, signing: bool, raw: string) returns (id: Option<string>)
    ensures forall x :: id == Some(x) <==> Carries(sign, signing, raw, x)
  {
    if raw == "" {
      return None;
    }
    var dot := Find(raw, '.', 0);
    var head := if dot.None? then raw else raw[..dot.value];
    if dot.Some? {
      assert raw == head + "." + raw[dot.value + 1..] && head + "." <= raw;
      CutAtFirstDot(raw, head, raw[dot.value + 1..]);
    } else {
      DotInside(raw);
    }
    if !signing {
      return Some(head);
    }
    if dot.None? {
      return None;
    }
    var mac := raw[dot.value + 1..];
    if head == "" || mac != sign(head) {
      return None;
    }
    return Some(head);
  }

  lemma DotInside(raw: string)
    ensures forall x | x + "." <= raw :: '.' in raw
    ensures forall x, tail | raw == x + "." + tail :: '.' in raw
  {
    forall x | x + "." <= raw
      ensures '.' in raw
    {
      assert raw[|x|] == (x + ".")[|x|];
    }
    forall x, tail | raw == x + "." + tail
      ensures '.' in raw
    {
      assert raw[|x|] == '.';
    }
  }

  lemma CutAtFirstDot(raw: string, head: string, tail: string)
    requires raw == head + "." + tail && '.' !in head
    ensures forall x, y :: raw == x + "." + y && '.' !in x <==> x == head && y == tail
    ensures forall x | x + "." <= raw && '.' !in x :: x == head
  {
    assert raw[|head|] == '.' && forall i | 0 <= i < |head| :: head[i] == raw[i];
    forall x | x + "." <= raw && '.' !in x
      ensures x == head
    {
      assert (x + ".")[|x|] == raw[|x|] == '.' && forall i | 0 <= i < |x| :: x[i] == raw[i];
      assert x == raw[..|x|] && head == raw[..|head|];
    }
    forall x, y | raw == x + "." + y && '.' !in x
      ensures x == head && y == tail
    {
      assert x + "." <= raw;
      assert y == raw[|x| + 1..] && tail == raw[|head| + 1..];
    }
  }

  /**
   A cookie made for an id comes back as that id in both modes, and still does after the secret is removed; an
   unsigned one means nothing once signing is on, and one signed under another secret only if the signatures agree.
   */
  lemma CookieRoundTrip(sign: string -> string, other: string -> string, id: string, x: string)
    requires id != "" && '.' !in id
    ensures Carries(sign, true, CookieFor(sign, true, id), x) <==> x == id
    ensures Carries(sign, false, CookieFor(sign, false, id), x) <==> x == id
    ensures Carries(sign, false, CookieFor(sign, true, id), x) <==> x == id
    ensures !Carries(sign, true, CookieFor(sign, false, id), x)
    ensures Carries(sign, true, CookieFor(other, true, id), x) <==> x == id && sign(id) == other(id)
  {
    var signed, resigned := CookieFor(sign, true, id), CookieFor(other, true, id);
    CutAtFirstDot(signed, id, sign(id));
    CutAtFirstDot(resigned, id, other(id));
    assert id + "." <= signed;
    DotInside(id);
    assert signed != x || '.' in signed by {
      assert signed[|id|] == '.';
    }
  }

  // ---- The table ----

  function Used(rows: map<string, Row>, id: string, now: int): (map<string, Row>, Option<string>) {
    if id !in rows then (rows, None)
    else if rows[id].expires <= now then (rows - {id}, None)
    else (rows[id := rows[id].(expires := now + INACTIVITY)], Some(rows[id].user))
  }

  function Purged(rows: map<string, Row>, now: int): map<string, Row> {
    map id | id in rows && rows[id].expires > now :: rows[id]
  }

  class SessionStore {
    const sign: string -> string
    const signing: bool
    var rows: map<string, Row>

    constructor (sign: string -> string, signing: bool, rows: map<string, Row>)
      ensures this.sign == sign && this.signing == signing && this.rows == rows
    {
      this.sign, this.signing, this.rows := sign, signing, rows;
    }

    /** fStart, with the random id it draws; a row with that id would make the INSERT fail. */
    method Start(id: string, user: string, now: int) returns (cookie: string)
      requires id !in rows
      modifies this`rows
      ensures rows == old(rows)[id := Row(user, now + INACTIVITY)]
      ensures cookie == CookieFor(sign, signing, id) == if signing then id + "." + sign(id) else id
    {
      rows := rows[id := Row(user, now + INACTIVITY)];
      return CookieFor(sign, signing, id);
    }

    method CurrentUserId(raw: string, now: int) returns (user: Option<string>)
      modifies this`rows
      ensures forall id | Carries(sign, signing, raw, id) :: (rows, user) == Used(old(rows), id, now)
      ensures (forall id :: !Carries(sign, signing, raw, id)) ==> rows == old(rows) && user == None
    {
      var id := IdFromCookie(sign, signing, raw);
      if id.None? || id.value !in rows {
        return None;
      }
      var row := rows[id.value];
      if row.expires <= now {
        rows := rows - {id.value};
        return None;
      }
      rows := rows[id.value := row.(expires := now + INACTIVITY)];
      return Some(row.user);
    }

    /** Also hands back an empty cookie that expires at once. */
    method Destroy(raw: string) returns (cookie: string)
      modifies this`rows
      ensures forall id | Carries(sign, signing, raw, id) :: rows == old(rows) - {id}
      ensures (forall id :: !Carries(sign, signing, raw, id)) ==> rows == old(rows)
      ensures cookie == ""
    {
      var id := IdFromCookie(sign, signing, raw);
      if id.Some? {
        rows := rows - {id.value};
      }
      return "";
    }

    method PurgeExpired(now: int)
      modifies this`rows
      ensures forall id :: id in rows <==> id in old(rows) && now < old(rows)[id].expires
      ensures forall id | id in rows :: rows[id] == old(rows)[id]
      ensures rows == Purged(old(rows), now)
    {
      rows := map id | id in rows && rows[id].expires > now :: rows[id];
    }
  }

  // ---- Whole histories ----

  datatype Action = Begin(id: string, user: string) | Use(id: string) | End(id: string) | Purge

  datatype Step = Step(now: int, action: Action)

  function Stepped(rows: map<string, Row>, s: Step): map<string, Row> {
    match s.action
    case Begin(id, user) => rows[id := Row(user, s.now + INACTIVITY)]
    case Use(id) => Used(rows, id, s.now).0
    case End(id) => rows - {id}
    case Purge => Purged(rows, s.now)
  }

  function After(trace: seq<Step>): map<string, Row> {
    if trace == [] then map[] else Stepped(After(trace[..|trace| - 1]), trace[|trace| - 1])
  }

  /** The clock never runs back, and random ids never repeat. */
  ghost predicate Plausible(trace: seq<Step>) {
    && (forall i, j | 0 <= i < j < |trace| :: trace[i].now <= trace[j].now)
    && (forall i, j | 0 <= i < j < |trace| && trace[i].action.Begin? && trace[j].action.Begin? ::
          trace[i].action.id != trace[j].action.id)
  }

  predicate Touches(s: Step, id: string) {
    (s.action.Begin? || s.action.Use?) && s.action.id == id
  }

  const THIRTY_DAYS := 30 * 86_400

  /** From its start at `b` on, the session was never ended, and never left unused for 30 days up to its last use. */
  ghost predicate Unbroken(trace: seq<Step>, b: nat, id: string, user: string) {
    && b < |trace| && trace[b].action == Begin(id, user)
    && (forall k | b < k < |trace| :: trace[k].action != End(id))
    && (forall p, q | b <= p < q < |trace| && Consecutive(trace, p, q, id) ::
          trace[q].now - trace[p].now < THIRTY_DAYS)
  }

  ghost predicate Consecutive(trace: seq<Step>, p: nat, q: nat, id: string) {
    && p < q < |trace| && Touches(trace[p], id) && Touches(trace[q], id)
    && forall k | p < k < q :: !Touches(trace[k], id)
  }

  ghost predicate Kept(trace: seq<Step>, id: string, user: string) {
    exists b: nat :: Unbroken(trace, b, id, user)
  }

  /** The last use or start. */
  ghost predicate LastTouch(trace: seq<Step>, p: nat, id: string) {
    p < |trace| && Touches(trace[p], id) && forall k | p < k < |trace| :: !Touches(trace[k], id)
  }

  lemma {:induction false} LastTouchExists(trace: seq<Step>, b: nat, id: string) returns (p: nat)
    requires b < |trace| && Touches(trace[b], id)
    ensures b <= p && LastTouch(trace, p, id)
    decreases |trace| - b
  {
    if k :| b < k < |trace| && Touches(trace[k], id) {
      p := LastTouchExists(trace, k, id);
    } else {
      p := b;
    }
  }

  lemma BeginKeeps(trace: seq<Step>, now: int, id: string, user: string)
    ensures Kept(trace + [Step(now, Begin(id, user))], id, user)
  {
    assert Unbroken(trace + [Step(now, Begin(id, user))], |trace|, id, user);
  }

  /** A step that does not touch the session breaks it only by ending it. */
  lemma BystanderKeeps(trace: seq<Step>, s: Step, id: string, user: string)
    requires !Touches(s, id)
    ensures Kept(trace + [s], id, user) <==> Kept(trace, id, user) && s.action != End(id)
    ensures forall p: nat :: LastTouch(trace + [s], p, id) <==> LastTouch(trace, p, id)
  {
    var more := trace + [s];
    assert forall k: nat | k < |trace| :: more[k] == trace[k];
    assert more[|trace|] == s;
    forall p: nat, q: nat
      ensures Consecutive(more, p, q, id) <==> Consecutive(trace, p, q, id)
    {
    }
    forall b: nat | Unbroken(more, b, id, user)
      ensures Unbroken(trace, b, id, user) && s.action != End(id)
    {
    }
    forall b: nat | Unbroken(trace, b, id, user) && s.action != End(id)
      ensures Unbroken(more, b, id, user)
    {
    }
  }

  /** A use continues the session iff the last touch was less than 30 days ago. */
  lemma UseKeeps(trace: seq<Step>, now: int, id: string, user: string, p: nat)
    requires LastTouch(trace, p, id)
    ensures var more := trace + [Step(now, Use(id))];
            && LastTouch(more, |trace|, id)
            && (Kept(more, id, user) <==> Kept(trace, id, user) && now - trace[p].now < INACTIVITY)
  {
    var more := trace + [Step(now, Use(id))];
    assert forall k: nat | k < |trace| :: more[k] == trace[k];
    assert more[|trace|] == Step(now, Use(id));
    assert Consecutive(more, p, |trace|, id);
    forall i: nat, j: nat
      ensures Consecutive(more, i, j, id) <==> Consecutive(trace, i, j, id) || (i == p && j == |trace|)
    {
    }
    forall b: nat | Unbroken(more, b, id, user)
      ensures Unbroken(trace, b, id, user) && now - trace[p].now < INACTIVITY
    {
    }
    forall b: nat | Unbroken(trace, b, id, user) && now - trace[p].now < INACTIVITY
      ensures Unbroken(more, b, id, user)
    {
    }
  }

  /** A row stands for a kept session and dates from its last touch; a kept session without a row has run out. */
  ghost predicate Tells(rows: map<string, Row>, trace: seq<Step>, id: string) {
    && (id in rows ==> Kept(trace, id, rows[id].user))
    && (forall user, p: nat | Kept(trace, id, user) && LastTouch(trace, p, id) ::
          if id in rows then rows[id] == Row(user, trace[p].now + INACTIVITY)
          else trace[p].now + INACTIVITY <= trace[|trace| - 1].now)
  }

  lemma KeptOnce(trace: seq<Step>, id: string, user: string, other: string)
    requires Plausible(trace) && Kept(trace, id, user) && Kept(trace, id, other)
    ensures user == other
  {
  }

  lemma BeginTells(trace: seq<Step>, s: Step, id: string)
    requires Plausible(trace + [s]) && s.action.Begin? && s.action.id == id
    ensures Tells(After(trace + [s]), trace + [s], id)
  {
    var more := trace + [s];
    assert more[..|trace|] == trace && more[|trace|] == s;
    BeginKeeps(trace, s.now, id, s.action.user);
    forall user | Kept(more, id, user)
      ensures user == s.action.user
    {
      KeptOnce(more, id, user, s.action.user);
    }
    assert LastTouch(more, |trace|, id);
    forall p: nat | LastTouch(more, p, id)
      ensures p == |trace|
    {
    }
  }

  lemma UseTells(trace: seq<Step>, s: Step, id: string)
    requires Plausible(trace + [s]) && s.action == Use(id) && Tells(After(trace), trace, id)
    ensures Tells(After(trace + [s]), trace + [s], id)
    ensures forall user :: Used(After(trace), id, s.now).1 == Some(user) <==> Kept(trace + [s], id, user)
  {
    var more, rows := trace + [s], After(trace);
    assert more[..|trace|] == trace && more[|trace|] == s;
    if b: nat :| b < |trace| && Touches(trace[b], id) {
      var p := LastTouchExists(trace, b, id);
      assert trace[|trace| - 1].now <= s.now by {
        assert more[|trace| - 1].now <= more[|trace|].now;
      }
      forall user
        ensures Kept(more, id, user) <==> Kept(trace, id, user) && s.now - trace[p].now < INACTIVITY
      {
        UseKeeps(trace, s.now, id, user, p);
      }
      forall q: nat | LastTouch(more, q, id)
        ensures q == |trace|
      {
      }
      forall user | Kept(trace, id, user) && id in rows
        ensures rows[id].user == user
      {
      }
    } else {
      NeverTouched(trace, s, id);
    }
  }

  lemma NeverTouched(trace: seq<Step>, s: Step, id: string)
    requires s.action == Use(id) && forall b: nat | b < |trace| :: !Touches(trace[b], id)
    ensures forall user :: !Kept(trace, id, user) && !Kept(trace + [s], id, user)
  {
    var more := trace + [s];
    forall b: nat, user
      ensures !Unbroken(trace, b, id, user) && !Unbroken(more, b, id, user)
    {
      assert b < |trace| ==> more[b] == trace[b] && !Touches(trace[b], id);
      assert b == |trace| ==> more[b] == s;
    }
  }

  lemma {:induction false} BystanderTells(trace: seq<Step>, s: Step, id: string)
    requires Plausible(trace + [s]) && !Touches(s, id) && Tells(After(trace), trace, id)
    ensures Tells(After(trace + [s]), trace + [s], id)
  {
    var more := trace + [s];
    assert more[..|trace|] == trace && more[|trace|] == s;
    forall user
      ensures Kept(more, id, user) <==> Kept(trace, id, user) && s.action != End(id)
      ensures forall p: nat :: LastTouch(more, p, id) <==> LastTouch(trace, p, id)
    {
      BystanderKeeps(trace, s, id, user);
    }
    assert trace != [] ==> trace[|trace| - 1].now <= s.now by {
      assert trace != [] ==> more[|trace| - 1].now <= more[|trace|].now;
    }
    forall p: nat | LastTouch(trace, p, id)
      ensures more[p] == trace[p]
    {
    }
  }

  lemma {:induction false} TableTells(trace: seq<Step>, id: string)
    requires Plausible(trace)
    ensures Tells(After(trace), trace, id)
  {
    if trace != [] {
      var init, s := trace[..|trace| - 1], trace[|trace| - 1];
      assert trace == init + [s];
      TableTells(init, id);
      if !Touches(s, id) {
        BystanderTells(init, s, id);
      } else if s.action.Begin? {
        BeginTells(init, s, id);
      } else {
        UseTells(init, s, id);
      }
    }
  }

  /**
   At any point of any history, a lookup names a user exactly when that user's session was started, has not been
   ended, and no two consecutive uses of it, this one included, are 30 days or more apart.
   */
  lemma {:induction false} LookupSucceedsIff(trace: seq<Step>, id: string, user: string, now: int)
    requires Plausible(trace + [Step(now, Use(id))])
    ensures Used(After(trace), id, now).1 == Some(user) <==> Kept(trace + [Step(now, Use(id))], id, user)
  {
    var more := trace + [Step(now, Use(id))];
    assert Plausible(trace) by {
      assert forall i: nat | i < |trace| :: more[i] == trace[i];
    }
    TableTells(trace, id);
    UseTells(trace, Step(now, Use(id)), id);
  }

  // ---- Purging ----

  function WithoutPurges(trace: seq<Step>): seq<Step> {
    if trace == [] then []
    else
      var init, last := WithoutPurges(trace[..|trace| - 1]), trace[|trace| - 1];
      if last.action.Purge? then init else init + [last]
  }

  /** Purging only ever loses rows that have run out. */
  ghost predicate LostOnlyExpired(purged: map<string, Row>, kept: map<string, Row>, clock: int) {
    && (forall id | id in purged :: id in kept && kept[id] == purged[id])
    && (forall id | id in kept && id !in purged :: kept[id].expires <= clock)
  }

  /** Neither a step both tables take, nor a purge of one of them, loses anything else. */
  lemma StepLosesOnlyExpired(purged: map<string, Row>, kept: map<string, Row>, s: Step, clock: int)
    requires LostOnlyExpired(purged, kept, s.now) && s.now <= clock
    ensures LostOnlyExpired(Stepped(purged, s), if s.action.Purge? then kept else Stepped(kept, s), clock)
  {
  }

  lemma {:induction false} PurgesLoseOnlyExpired(trace: seq<Step>, clock: int)
    requires Plausible(trace) && (trace != [] ==> trace[|trace| - 1].now <= clock)
    ensures LostOnlyExpired(After(trace), After(WithoutPurges(trace)), clock)
  {
    if trace != [] {
      var init, s := trace[..|trace| - 1], trace[|trace| - 1];
      assert Plausible(init);
      hide Plausible, LostOnlyExpired, Stepped;
      PurgesLoseOnlyExpired(init, s.now);
      var kept := WithoutPurges(init);
      StepLosesOnlyExpired(After(init), After(kept), s, clock);
      assert (kept + [s])[..|kept|] == kept;
    }
  }

  /** So a lookup answers the same whether, and whenever, expired rows are purged. */
  lemma {:induction false} PurgingIsInvisible(trace: seq<Step>, id: string, now: int)
    requires Plausible(trace) && (trace != [] ==> trace[|trace| - 1].now <= now)
    ensures Used(After(trace), id, now).1 == Used(After(WithoutPurges(trace)), id, now).1
  {
    PurgesLoseOnlyExpired(trace, now);
  }
}
