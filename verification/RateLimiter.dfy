/** The fixed-window counters of src/state.cpp, against a limiter defined on the log of recorded hits. */
module RateLimiter {
  import opened Wrappers

  /** Times and windows are counted in ticks of std::chrono::steady_clock. */
  const TICKS_PER_SECOND: nat := 1_000_000_000

  const MAX_WINDOW: nat := 60 * 60 * TICKS_PER_SECOND
  const U32: nat := 0x1_0000_0000

  datatype Key = Key(ip: string, kind: string)
  datatype Bucket = Bucket(count: nat, start: int)
  datatype Hit = Hit(key: Key, window: nat, time: int)

  // ---- What the two operations compute ----

  predicate Limited(bucket: Option<Bucket>, max: nat, window: nat, now: int) {
    bucket.Some? && now - bucket.value.start < window && bucket.value.count >= max
  }

  function BucketAt(buckets: map<Key, Bucket>, key: Key): Option<Bucket> {
    if key in buckets then Some(buckets[key]) else None
  }

  function Pruned(buckets: map<Key, Bucket>, now: int): map<Key, Bucket> {
    map k | k in buckets && now - buckets[k].start < MAX_WINDOW :: buckets[k]
  }

  /** One hit; a missing bucket reads as a zero count, and the 32-bit counter wraps. */
  function Bumped(bucket: Option<Bucket>, window: nat, now: int): Bucket {
    if bucket.None? || bucket.value.count == 0 || now - bucket.value.start >= window then Bucket(1, now)
    else Bucket((bucket.value.count + 1) % U32, bucket.value.start)
  }

  function AfterRecord(buckets: map<Key, Bucket>, h: Hit): map<Key, Bucket> {
    var kept := Pruned(buckets, h.time);
    kept[h.key := Bumped(BucketAt(kept, h.key), h.window, h.time)]
  }

  function Replay(hits: seq<Hit>): map<Key, Bucket> {
    if hits == [] then map[] else AfterRecord(Replay(hits[..|hits| - 1]), hits[|hits| - 1])
  }

  class RateLimiter {
    var buckets: map<Key, Bucket>
    ghost var hits: seq<Hit>

    ghost predicate Valid()
      reads this
    {
      buckets == Replay(hits)
    }

    constructor ()
      ensures Valid() && hits == []
    {
      buckets, hits := map[], [];
    }

    method IsLimited(ip: string, kind: string, max: nat, window: nat, now: int) returns (limited: bool)
      requires Valid()
      ensures limited == Limited(BucketAt(Replay(hits), Key(ip, kind)), max, window, now)
    {
      var key := Key(ip, kind);
      if key !in buckets {
        return false;
      }
      if now - buckets[key].start >= window {
        return false;
      }
      return buckets[key].count >= max;
    }

    /** The sweep at the start of fRecord. */
    method Prune(now: int)
      modifies this`buckets
      ensures buckets == Pruned(old(buckets), now)
    {
      var todo := buckets.Keys;
      while todo != {}
        invariant todo <= old(buckets).Keys
        invariant forall k ::
            k in buckets <==> k in old(buckets) && (k in todo || now - old(buckets)[k].start < MAX_WINDOW)
        invariant forall k | k in buckets :: buckets[k] == old(buckets)[k]
        decreases todo
      {
        var k :| k in todo;
        if now - buckets[k].start >= MAX_WINDOW {
          buckets := buckets - {k};
        }
        todo := todo - {k};
      }
    }

    method Record(ip: string, kind: string, window: nat, now: int)
      requires Valid()
      modifies this
      ensures Valid() && hits == old(hits) + [Hit(Key(ip, kind), window, now)]
      ensures buckets == AfterRecord(old(buckets), Hit(Key(ip, kind), window, now))
    {
      Prune(now);
      hide Pruned;
      var key := Key(ip, kind);
      var bucket := if key in buckets then buckets[key] else Bucket(0, 0);
      if bucket.count == 0 || now - bucket.start >= window {
        bucket := Bucket(0, now);
      }
      buckets := buckets[key := bucket.(count := (bucket.count + 1) % U32)];
      hits := hits + [Hit(key, window, now)];
      assert hits[..|hits| - 1] == old(hits);
    }
  }

  // ---- The reference: no pruning, no wrap-around, one key at a time ----

  function TimesOf(hits: seq<Hit>, key: Key): seq<int> {
    if hits == [] then []
    else
      var earlier := TimesOf(hits[..|hits| - 1], key);
      if hits[|hits| - 1].key == key then earlier + [hits[|hits| - 1].time] else earlier
  }

  /** The window after one more hit at `now`, without wrap-around. */
  function Extended(open: Option<Bucket>, window: nat, now: int): Bucket {
    if open.None? || now - open.value.start >= window then Bucket(1, now)
    else Bucket(open.value.count + 1, open.value.start)
  }

  /** The window open after the hits at `times`. */
  function OpenWindow(times: seq<int>, window: nat): Option<Bucket> {
    if times == [] then None
    else Some(Extended(OpenWindow(times[..|times| - 1], window), window, times[|times| - 1]))
  }

  ghost predicate Monotone(hits: seq<Hit>) {
    forall i, j :: 0 <= i <= j < |hits| ==> hits[i].time <= hits[j].time
  }

  /** Every caller uses one window per kind, none longer than the pruning horizon. */
  ghost predicate WindowsFixed(hits: seq<Hit>, windows: string -> nat) {
    forall h | h in hits :: h.window == windows(h.key.kind) <= MAX_WINDOW
  }

  /** No counter of the reference would overflow 32 bits. */
  ghost predicate CountsFit(hits: seq<Hit>, windows: string -> nat) {
    forall i: nat, key: Key | i <= |hits| :: CountFits(hits, i, key, windows(key.kind))
  }

  predicate CountFits(hits: seq<Hit>, i: nat, key: Key, window: nat)
    requires i <= |hits|
  {
    var open := OpenWindow(TimesOf(hits[..i], key), window);
    open.Some? ==> open.value.count < U32
  }

  /** What the pruned table knows of a key: the reference's window, unless that has already run out. */
  predicate Consistent(kept: Option<Bucket>, open: Option<Bucket>, last: int) {
    if kept.Some? then kept == open && open.value.count >= 1
    else open.None? || last - open.value.start >= MAX_WINDOW
  }

  ghost predicate Agrees(hits: seq<Hit>, key: Key, window: nat) {
    if hits == [] then key !in Replay(hits) && OpenWindow(TimesOf(hits, key), window).None?
    else Consistent(BucketAt(Replay(hits), key), OpenWindow(TimesOf(hits, key), window), hits[|hits| - 1].time)
  }

  lemma OpenWindowSnoc(times: seq<int>, now: int, window: nat)
    ensures OpenWindow(times + [now], window) == Some(Extended(OpenWindow(times, window), window, now))
  {
    assert (times + [now])[..|times|] == times;
  }

  lemma ReplaySnoc(hits: seq<Hit>, key: Key)
    requires hits != []
    ensures var before, h := Replay(hits[..|hits| - 1]), hits[|hits| - 1];
            var kept := BucketAt(Pruned(before, h.time), key);
            BucketAt(Replay(hits), key) == if h.key == key then Some(Bumped(kept, h.window, h.time)) else kept
  {
  }

  lemma PruneStep(before: map<Key, Bucket>, open: Option<Bucket>, key: Key, last: int, now: int)
    requires Consistent(BucketAt(before, key), open, last) && last <= now
    ensures Consistent(BucketAt(Pruned(before, now), key), open, now)
  {
  }

  lemma PrefixKeeps(hits: seq<Hit>, windows: string -> nat)
    requires hits != [] && Monotone(hits) && WindowsFixed(hits, windows) && CountsFit(hits, windows)
    ensures var before := hits[..|hits| - 1];
            Monotone(before) && WindowsFixed(before, windows) && CountsFit(before, windows)
  {
    var before := hits[..|hits| - 1];
    forall i: nat, key: Key | i <= |before|
      ensures CountFits(before, i, key, windows(key.kind))
    {
      assert before[..i] == hits[..i] && CountFits(hits, i, key, windows(key.kind));
    }
  }

  lemma {:induction false} PrunedAgrees(hits: seq<Hit>, windows: string -> nat, key: Key)
    requires Monotone(hits) && WindowsFixed(hits, windows) && CountsFit(hits, windows)
    requires windows(key.kind) <= MAX_WINDOW
    ensures Agrees(hits, key, windows(key.kind))
    decreases |hits|
  {
    if hits == [] {
      return;
    }
    var before, h, window := hits[..|hits| - 1], hits[|hits| - 1], windows(key.kind);
    PrefixKeeps(hits, windows);
    PrunedAgrees(before, windows, key);
    assert h in hits;
    assert hits[..|hits|] == hits;
    var was, open := OpenWindow(TimesOf(before, key), window), OpenWindow(TimesOf(hits, key), window);
    assert CountFits(hits, |hits|, key, window);
    assert open == if h.key == key then Some(Extended(was, window, h.time)) else was by {
      OpenWindowSnoc(TimesOf(before, key), h.time, window);
    }
    assert before != [] ==> before[|before| - 1].time <= h.time;
    ReplaySnoc(hits, key);
    var kept := BucketAt(Pruned(Replay(before), h.time), key);
    assert Consistent(kept, was, h.time) by {
      if before != [] {
        PruneStep(Replay(before), was, key, before[|before| - 1].time, h.time);
      }
    }
    if h.key == key {
      BumpStep(kept, was, window, h.time);
    }
  }

  lemma BumpStep(kept: Option<Bucket>, was: Option<Bucket>, window: nat, now: int)
    requires Consistent(kept, was, now) && window <= MAX_WINDOW && Extended(was, window, now).count < U32
    ensures Consistent(Some(Bumped(kept, window, now)), Some(Extended(was, window, now)), now)
  {
  }

  /** Pruning is invisible: at any time since the last hit, the answer is the unpruned reference's. */
  lemma {:induction false} PruningIsInvisible(hits: seq<Hit>, windows: string -> nat, key: Key, max: nat, now: int)
    requires Monotone(hits) && WindowsFixed(hits, windows) && CountsFit(hits, windows)
    requires windows(key.kind) <= MAX_WINDOW
    requires hits != [] ==> hits[|hits| - 1].time <= now
    ensures Limited(BucketAt(Replay(hits), key), max, windows(key.kind), now)
            == Limited(OpenWindow(TimesOf(hits, key), windows(key.kind)), max, windows(key.kind), now)
  {
    PrunedAgrees(hits, windows, key);
  }

  // ---- Memory ----

  function RecentHits(hits: seq<Hit>, cutoff: int): nat {
    if hits == [] then 0
    else RecentHits(hits[..|hits| - 1], cutoff) + (if hits[|hits| - 1].time > cutoff then 1 else 0)
  }

  function RecentKeys(hits: seq<Hit>, cutoff: int): set<Key> {
    if hits == [] then {}
    else
      RecentKeys(hits[..|hits| - 1], cutoff)
      + (if hits[|hits| - 1].time > cutoff then {hits[|hits| - 1].key} else {})
  }

  lemma {:induction false} FewRecentKeys(hits: seq<Hit>, cutoff: int)
    ensures |RecentKeys(hits, cutoff)| <= RecentHits(hits, cutoff)
  {
    if hits != [] {
      FewRecentKeys(hits[..|hits| - 1], cutoff);
    }
  }

  /** A bucket starts at a hit of its own key, so a bucket younger than the cutoff means a recent hit. */
  lemma {:induction false} BucketsComeFromHits(hits: seq<Hit>, key: Key, cutoff: int)
    requires key in Replay(hits) && Replay(hits)[key].start > cutoff
    ensures key in RecentKeys(hits, cutoff)
  {
    var before, h := hits[..|hits| - 1], hits[|hits| - 1];
    if key in Replay(before) && Replay(hits)[key].start == Replay(before)[key].start {
      BucketsComeFromHits(before, key, cutoff);
    }
  }

  /** After a hit, there are at most as many buckets as hits within the pruning horizon. */
  lemma MemoryIsBounded(hits: seq<Hit>)
    requires hits != []
    ensures |Replay(hits)| <= RecentHits(hits, hits[|hits| - 1].time - MAX_WINDOW)
  {
    var cutoff := hits[|hits| - 1].time - MAX_WINDOW;
    forall key | key in Replay(hits)
      ensures key in RecentKeys(hits, cutoff)
    {
      BucketsComeFromHits(hits, key, cutoff);
    }
    SubsetSize(Replay(hits).Keys, RecentKeys(hits, cutoff));
    FewRecentKeys(hits, cutoff);
    assert |Replay(hits)| == |Replay(hits).Keys|;
  }

  lemma {:induction false} SubsetSize(a: set<Key>, b: set<Key>)
    requires a <= b
    ensures |a| <= |b|
  {
    if a != {} {
      var k :| k in a;
      SubsetSize(a - {k}, b - {k});
    }
  }

  // ---- The bound over any sliding interval ----

  function CountIn(times: seq<int>, lo: int, hi: int): nat {
    if times == [] then 0
    else CountIn(times[..|times| - 1], lo, hi) + (if lo <= times[|times| - 1] < hi then 1 else 0)
  }

  ghost predicate Sorted(times: seq<int>) {
    forall i, j :: 0 <= i <= j < |times| ==> times[i] <= times[j]
  }

  /** Every hit was let through by the check just before it. */
  ghost predicate Admitted(times: seq<int>, max: nat, window: nat) {
    forall i: nat | i < |times| :: AdmittedAt(times, i, max, window)
  }

  predicate AdmittedAt(times: seq<int>, i: nat, max: nat, window: nat)
    requires i < |times|
  {
    !Limited(OpenWindow(times[..i], window), max, window, times[i])
  }

  lemma AdmittedPrefix(times: seq<int>, max: nat, window: nat, n: nat)
    requires n <= |times| && Admitted(times, max, window) && Sorted(times)
    ensures Admitted(times[..n], max, window) && Sorted(times[..n])
  {
    forall i: nat | i < n
      ensures AdmittedAt(times[..n], i, max, window)
    {
      assert times[..n][..i] == times[..i] && AdmittedAt(times, i, max, window);
    }
  }

  /** The window's hits are the last ones, within one window length; all earlier ones lie before its start. */
  ghost predicate HoldsTheLast(times: seq<int>, open: Bucket, window: nat)
    requires 1 <= open.count <= |times|
  {
    && times[|times| - open.count] == open.start
    && (forall i | 0 <= i < |times| - open.count :: times[i] < open.start)
    && (forall i | |times| - open.count <= i < |times| :: open.start <= times[i] < open.start + window)
  }

  /** The open window holds exactly the last hits, at most the limit of them. */
  lemma {:induction false} OpenWindowShape(times: seq<int>, max: nat, window: nat) returns (open: Bucket)
    requires times != [] && Sorted(times) && max >= 1 && window >= 1 && Admitted(times, max, window)
    ensures OpenWindow(times, window) == Some(open) && 1 <= open.count <= |times| && open.count <= max
    ensures HoldsTheLast(times, open, window)
  {
    hide OpenWindow, Admitted, Sorted;
    var before, now := times[..|times| - 1], times[|times| - 1];
    LastHit(times, max, window);
    open := OpenWindow(times, window).value;
    assert times == before + [now];
    if before != [] {
      var older := OpenWindowShape(before, max, window);
      OneMoreShape(before, older, window, now);
    }
  }

  lemma LastHit(times: seq<int>, max: nat, window: nat)
    requires times != [] && Sorted(times) && Admitted(times, max, window)
    ensures var before, now := times[..|times| - 1], times[|times| - 1];
            && Sorted(before) && Admitted(before, max, window) && (forall i | 0 <= i < |before| :: before[i] <= now)
            && !Limited(OpenWindow(before, window), max, window, now)
            && OpenWindow(times, window) == Some(Extended(OpenWindow(before, window), window, now))
            && OpenWindow([], window) == None
  {
    AdmittedPrefix(times, max, window, |times| - 1);
    assert AdmittedAt(times, |times| - 1, max, window);
  }

  lemma OneMoreShape(times: seq<int>, open: Bucket, window: nat, now: int)
    requires 1 <= open.count <= |times| && HoldsTheLast(times, open, window) && window >= 1
    requires forall i | 0 <= i < |times| :: times[i] <= now
    ensures HoldsTheLast(times + [now], Extended(Some(open), window, now), window)
  {
  }

  /** Consecutive windows start at least one window length apart. */
  lemma {:induction false} WindowsApart(times: seq<int>, window: nat)
    requires times != [] && OpenWindow(times, window).Some?
    requires 1 <= OpenWindow(times, window).value.count <= |times|
    ensures var open := OpenWindow(times, window).value;
            var earlier := OpenWindow(times[..|times| - open.count], window);
            earlier.Some? ==> open.start - earlier.value.start >= window
  {
    var before := times[..|times| - 1];
    var open := OpenWindow(times, window).value;
    if open.count > 1 {
      assert OpenWindow(before, window) == Some(Bucket(open.count - 1, open.start));
      WindowsApart(before, window);
      assert before[..|before| - (open.count - 1)] == times[..|times| - open.count];
    }
  }

  lemma {:induction false} CountOnlyLate(times: seq<int>, lo: int, hi: int, k: nat)
    requires k <= |times| && forall i | 0 <= i < k :: times[i] < lo
    ensures CountIn(times, lo, hi) <= |times| - k
  {
    if times != [] {
      var before := times[..|times| - 1];
      CountOnlyLate(before, lo, hi, if k == |times| then k - 1 else k);
    }
  }

  lemma {:induction false} CountSplit(times: seq<int>, lo: int, hi: int, k: nat)
    requires k <= |times|
    ensures CountIn(times, lo, hi) <= CountIn(times[..k], lo, hi) + |times| - k
    ensures (forall i | k <= i < |times| :: times[i] >= hi) ==> CountIn(times, lo, hi) == CountIn(times[..k], lo, hi)
  {
    if k < |times| {
      var before := times[..|times| - 1];
      CountSplit(before, lo, hi, k);
      assert before[..k] == times[..k];
    } else {
      assert times[..k] == times;
    }
  }

  lemma {:induction false} EmptyInterval(times: seq<int>, lo: int)
    ensures CountIn(times, lo, lo) == 0
  {
    if times != [] {
      EmptyInterval(times[..|times| - 1], lo);
    }
  }

  /** Two windows met: the older one's first hit lies before the interval. */
  lemma OlderWindowMissesOne(times: seq<int>, max: nat, window: nat, lo: int, open: Bucket)
    requires times != [] && Sorted(times) && max >= 1 && window >= 1 && Admitted(times, max, window)
    requires OpenWindow(times, window) == Some(open) && 1 <= open.count <= |times|
    requires open.start < lo + window
    ensures CountIn(times[..|times| - open.count], lo, lo + window) <= max - 1
  {
    hide OpenWindow, CountIn, Admitted, Sorted;
    var earlier := times[..|times| - open.count];
    AdmittedPrefix(times, max, window, |earlier|);
    WindowsApart(times, window);
    if earlier != [] {
      var older := OpenWindowShape(earlier, max, window);
      CountOnlyLate(earlier, lo, lo + window, |earlier| - older.count + 1);
    } else {
      CountOnlyLate(earlier, lo, lo + window, 0);
    }
  }

  /** A limit of 0 still lets the first hit of each window through. */
  function AtLeastOne(max: nat): nat {
    if max == 0 then 1 else max
  }

  lemma ZeroActsAsOne(times: seq<int>, window: nat, t: int)
    requires Admitted(times, 0, window)
    ensures Admitted(times, 1, window) && Admitted([t], 0, window)
  {
    forall i: nat | i < |times|
      ensures AdmittedAt(times, i, 1, window)
    {
      assert AdmittedAt(times, i, 0, window);
    }
    assert [t][..0] == [];
  }

  lemma {:induction false} SlidingBoundOf(times: seq<int>, max: nat, window: nat, lo: int)
    requires Sorted(times) && max >= 1 && window >= 1 && Admitted(times, max, window)
    ensures CountIn(times, lo, lo + window) <= 2 * max - 1
    decreases |times|
  {
    if times == [] {
      return;
    }
    hide CountIn, OpenWindow, Admitted, Sorted;
    var open := OpenWindowShape(times, max, window);
    var k := |times| - open.count;
    CountSplit(times, lo, lo + window, k);
    if lo + window <= open.start {
      AdmittedPrefix(times, max, window, k);
      SlidingBoundOf(times[..k], max, window, lo);
    } else {
      OlderWindowMissesOne(times, max, window, lo, open);
    }
  }

  /** Check-then-record lets at most 2 * max - 1 hits of a key into any interval of one window's length. */
  lemma SlidingBound(times: seq<int>, max: nat, window: nat, lo: int)
    requires Sorted(times) && Admitted(times, max, window)
    ensures CountIn(times, lo, lo + window) <= 2 * AtLeastOne(max) - 1
  {
    if window == 0 {
      EmptyInterval(times, lo);
    } else if max == 0 {
      ZeroActsAsOne(times, window, lo);
      SlidingBoundOf(times, 1, window, lo);
    } else {
      SlidingBoundOf(times, max, window, lo);
    }
  }

  lemma AdmittedSnoc(times: seq<int>, t: int, max: nat, window: nat)
    requires Admitted(times, max, window) && !Limited(OpenWindow(times, window), max, window, t)
    ensures Admitted(times + [t], max, window)
  {
    forall i: nat | i < |times| + 1
      ensures AdmittedAt(times + [t], i, max, window)
    {
      assert (times + [t])[..i] == times[..i];
      if i < |times| {
        assert AdmittedAt(times, i, max, window);
      } else {
        assert times[..i] == times;
      }
    }
  }

  /** `n` hits at one moment. */
  function Burst(t: int, n: nat): seq<int> {
    if n == 0 then [] else Burst(t, n - 1) + [t]
  }

  /** The hits so far were all admitted, the last no later than `t`, and left this window open. */
  ghost predicate Reached(times: seq<int>, max: nat, window: nat, t: int, open: Bucket) {
    && Sorted(times) && Admitted(times, max, window) && (forall i | 0 <= i < |times| :: times[i] <= t)
    && OpenWindow(times, window) == Some(open)
  }

  lemma OneMore(times: seq<int>, max: nat, window: nat, last: int, open: Bucket, t: int, lo: int, hi: int)
    requires Reached(times, max, window, last, open) && last <= t && !Limited(Some(open), max, window, t)
    ensures Reached(times + [t], max, window, t, Extended(Some(open), window, t))
    ensures CountIn(times + [t], lo, hi) == CountIn(times, lo, hi) + if lo <= t < hi then 1 else 0
  {
    AdmittedSnoc(times, t, max, window);
    OpenWindowSnoc(times, t, window);
    assert (times + [t])[..|times|] == times;
    hide Admitted, OpenWindow, CountIn;
  }

  /** A burst inside the open window only raises its count. */
  lemma {:induction false} BurstFills(times: seq<int>, max: nat, window: nat, last: int, open: Bucket,
                                      t: int, n: nat, lo: int, hi: int)
    requires Reached(times, max, window, last, open) && last <= t && t - open.start < window && open.count + n <= max
    ensures Reached(times + Burst(t, n), max, window, t, Bucket(open.count + n, open.start))
    ensures CountIn(times + Burst(t, n), lo, hi) == CountIn(times, lo, hi) + if lo <= t < hi then n else 0
  {
    hide Reached, CountIn;
    if n == 0 {
      StillReached(times, max, window, last, open, t);
      assert times + [] == times;
    } else {
      BurstFills(times, max, window, last, open, t, n - 1, lo, hi);
      var before := times + Burst(t, n - 1);
      assert times + Burst(t, n) == before + [t];
      OneMore(before, max, window, t, Bucket(open.count + n - 1, open.start), t, lo, hi);
    }
  }

  lemma StillReached(times: seq<int>, max: nat, window: nat, last: int, open: Bucket, t: int)
    requires Reached(times, max, window, last, open) && last <= t
    ensures Reached(times, max, window, t, open)
  {
    hide Admitted, OpenWindow, Sorted;
  }

  lemma FirstHit(max: nat, window: nat)
    requires max >= 1
    ensures Reached([0], max, window, 0, Bucket(1, 0)) && CountIn([0], 1, 1 + window) == 0
  {
    assert [0][..0] == [];
  }

  /** The bound is attained for every limit and every window of two clock ticks or more. */
  lemma SlidingBoundIsSharp(max: nat, window: nat) returns (times: seq<int>)
    requires max >= 1 && window >= 2
    ensures Sorted(times) && Admitted(times, max, window) && CountIn(times, 1, 1 + window) == 2 * max - 1
  {
    times := SharpTrace(max, window);
  }

  lemma SharpTrace(max: nat, window: nat) returns (times: seq<int>)
    requires max >= 1 && window >= 2
    ensures Reached(times, max, window, window, Bucket(max, window)) && CountIn(times, 1, 1 + window) == 2 * max - 1
  {
    hide Reached, CountIn, Burst;
    FirstHit(max, window);
    BurstFills([0], max, window, 0, Bucket(1, 0), window - 1, max - 1, 1, 1 + window);
    times := [0] + Burst(window - 1, max - 1);
    OneMore(times, max, window, window - 1, Bucket(max, 0), window, 1, 1 + window);
    BurstFills(times + [window], max, window, window, Bucket(1, window), window, max - 1, 1, 1 + window);
    times := times + [window] + Burst(window, max - 1);
  }

  // ---- The bound for the table as it runs ----

  /** Waiting after a check that let a hit through cannot make it one that would have been stopped. */
  lemma LetThroughStaysLetThrough(bucket: Option<Bucket>, max: nat, window: nat, asked: int, now: int)
    requires !Limited(bucket, max, window, asked) && asked <= now
    ensures !Limited(bucket, max, window, now)
  {
  }

  /** At some time up to the hit, with the hits recorded before it, the table itself said "not limited". */
  ghost predicate CheckedFirst(hits: seq<Hit>, i: nat, windows: string -> nat, limits: string -> nat)
    requires i < |hits|
  {
    var h := hits[i];
    exists asked: int ::
      asked <= h.time
      && !Limited(BucketAt(Replay(hits[..i]), h.key), limits(h.key.kind), windows(h.key.kind), asked)
  }

  /** Each hit was let through by a check, however long before it was recorded. */
  ghost predicate Guarded(hits: seq<Hit>, windows: string -> nat, limits: string -> nat) {
    forall i: nat | i < |hits| :: CheckedFirst(hits, i, windows, limits)
  }

  ghost predicate ReferenceAdmits(hits: seq<Hit>, windows: string -> nat, limits: string -> nat) {
    forall key :: Admitted(TimesOf(hits, key), limits(key.kind), windows(key.kind))
  }

  lemma {:induction false} TimesSorted(hits: seq<Hit>, key: Key)
    requires Monotone(hits)
    ensures Sorted(TimesOf(hits, key))
    ensures hits != [] ==> forall t | t in TimesOf(hits, key) :: t <= hits[|hits| - 1].time
  {
    if hits != [] {
      TimesSorted(hits[..|hits| - 1], key);
      var earlier := TimesOf(hits[..|hits| - 1], key);
      assert forall i | 0 <= i < |earlier| :: earlier[i] in earlier;
    }
  }

  lemma {:induction false} AdmittedCount(times: seq<int>, max: nat, window: nat)
    requires Admitted(times, max, window)
    ensures OpenWindow(times, window).Some? ==> OpenWindow(times, window).value.count <= AtLeastOne(max)
  {
    if times != [] {
      var n := |times| - 1;
      forall i: nat | i < n
        ensures AdmittedAt(times[..n], i, max, window)
      {
        assert times[..n][..i] == times[..i] && AdmittedAt(times, i, max, window);
      }
      AdmittedCount(times[..n], max, window);
      assert AdmittedAt(times, n, max, window);
    }
  }

  lemma PrefixGuarded(hits: seq<Hit>, windows: string -> nat, limits: string -> nat)
    requires hits != [] && Monotone(hits) && WindowsFixed(hits, windows) && Guarded(hits, windows, limits)
    ensures var before := hits[..|hits| - 1];
            Monotone(before) && WindowsFixed(before, windows) && Guarded(before, windows, limits)
  {
    var before := hits[..|hits| - 1];
    forall i: nat | i < |before|
      ensures CheckedFirst(before, i, windows, limits)
    {
      assert before[..i] == hits[..i] && before[i] == hits[i] && CheckedFirst(hits, i, windows, limits);
    }
  }

  lemma CountsFitSnoc(hits: seq<Hit>, windows: string -> nat, limits: string -> nat)
    requires hits != [] && CountsFit(hits[..|hits| - 1], windows) && ReferenceAdmits(hits, windows, limits)
    requires forall kind :: limits(kind) < U32
    ensures CountsFit(hits, windows)
  {
    var before := hits[..|hits| - 1];
    forall i: nat, key: Key | i <= |hits|
      ensures CountFits(hits, i, key, windows(key.kind))
    {
      if i == |hits| {
        assert hits[..i] == hits;
        AdmittedCount(TimesOf(hits, key), limits(key.kind), windows(key.kind));
      } else {
        assert hits[..i] == before[..i] && CountFits(before, i, key, windows(key.kind));
      }
    }
  }

  lemma {:induction false} GuardedIsAdmitted(hits: seq<Hit>, windows: string -> nat, limits: string -> nat)
    requires Monotone(hits) && WindowsFixed(hits, windows) && Guarded(hits, windows, limits)
    requires forall kind :: limits(kind) < U32 && windows(kind) <= MAX_WINDOW
    ensures ReferenceAdmits(hits, windows, limits) && CountsFit(hits, windows)
    decreases |hits|
  {
    if hits == [] {
      return;
    }
    var before, h := hits[..|hits| - 1], hits[|hits| - 1];
    PrefixGuarded(hits, windows, limits);
    GuardedIsAdmitted(before, windows, limits);
    assert h in hits;
    var bucket, max, window := BucketAt(Replay(before), h.key), limits(h.key.kind), windows(h.key.kind);
    assert CheckedFirst(hits, |before|, windows, limits);
    var asked: int :| asked <= h.time && !Limited(bucket, max, window, asked);
    LetThroughStaysLetThrough(bucket, max, window, asked, h.time);
    PruningIsInvisible(before, windows, h.key, limits(h.key.kind), h.time);
    forall key
      ensures Admitted(TimesOf(hits, key), limits(key.kind), windows(key.kind))
    {
      if h.key == key {
        AdmittedSnoc(TimesOf(before, key), h.time, limits(key.kind), windows(key.kind));
      }
    }
    CountsFitSnoc(hits, windows, limits);
  }

  lemma KeyAdmitted(hits: seq<Hit>, windows: string -> nat, limits: string -> nat, key: Key)
    requires Monotone(hits) && WindowsFixed(hits, windows) && Guarded(hits, windows, limits)
    requires forall kind :: limits(kind) < U32 && windows(kind) <= MAX_WINDOW
    ensures Sorted(TimesOf(hits, key)) && Admitted(TimesOf(hits, key), limits(key.kind), windows(key.kind))
  {
    GuardedIsAdmitted(hits, windows, limits);
    TimesSorted(hits, key);
  }

  /** End to end: the pruned, 32-bit table admits at most 2 * max - 1 hits per key into any window-long interval. */
  lemma {:induction false} TableBound(hits: seq<Hit>, windows: string -> nat, limits: string -> nat, key: Key, lo: int)
    requires Monotone(hits) && WindowsFixed(hits, windows) && Guarded(hits, windows, limits)
    requires forall kind :: limits(kind) < U32 && windows(kind) <= MAX_WINDOW
    ensures CountIn(TimesOf(hits, key), lo, lo + windows(key.kind)) <= 2 * AtLeastOne(limits(key.kind)) - 1
  {
    hide Sorted, Admitted, CountIn, TimesOf, Monotone, WindowsFixed, Guarded;
    KeyAdmitted(hits, windows, limits, key);
    SlidingBound(TimesOf(hits, key), limits(key.kind), windows(key.kind), lo);
  }

  // ---- No one is stopped without cause ----

  /** The open window's count is of hits that are really there. */
  lemma {:induction false} OpenWindowCounts(times: seq<int>, window: nat, lo: int, hi: int)
    requires times != [] && Sorted(times) && lo <= OpenWindow(times, window).value.start
    requires forall i | 0 <= i < |times| :: times[i] < hi
    ensures OpenWindow(times, window).value.start <= times[|times| - 1]
    ensures CountIn(times, lo, hi) >= OpenWindow(times, window).value.count
  {
    var before, now := times[..|times| - 1], times[|times| - 1];
    var open := OpenWindow(times, window).value;
    if before != [] {
      if open == Bucket(1, now) {
      } else {
        OpenWindowCounts(before, window, lo, hi);
        assert before[|before| - 1] <= now;
      }
    }
  }

  /** Whoever the table stops has made at least `max` recorded attempts within the last window length. */
  lemma StoppedWithCause(hits: seq<Hit>, windows: string -> nat, limits: string -> nat, key: Key, now: int)
    requires Monotone(hits) && WindowsFixed(hits, windows) && Guarded(hits, windows, limits)
    requires forall kind :: limits(kind) < U32 && windows(kind) <= MAX_WINDOW
    requires hits != [] && hits[|hits| - 1].time <= now
    requires Limited(BucketAt(Replay(hits), key), limits(key.kind), windows(key.kind), now)
    ensures CountIn(TimesOf(hits, key), now - windows(key.kind) + 1, now + 1) >= limits(key.kind)
  {
    hide Sorted, CountIn, TimesOf, Monotone, WindowsFixed, Guarded, OpenWindow, Replay;
    var times, window := TimesOf(hits, key), windows(key.kind);
    GuardedIsAdmitted(hits, windows, limits);
    TimesSorted(hits, key);
    PruningIsInvisible(hits, windows, key, limits(key.kind), now);
    assert times != [] by {
      NothingOpen(window);
    }
    assert forall i | 0 <= i < |times| :: times[i] in times;
    OpenWindowCounts(times, window, now - window + 1, now + 1);
  }

  lemma NothingOpen(window: nat)
    ensures OpenWindow([], window) == None
  {
  }

  lemma {:induction false} BurstOpens(t: int, n: nat, window: nat)
    requires n >= 1 && window >= 1
    ensures OpenWindow(Burst(t, n), window) == Some(Bucket(n, t))
  {
    hide OpenWindow;
    var before := Burst(t, n - 1);
    if n > 1 {
      BurstOpens(t, n - 1, window);
    } else {
      NothingOpen(window);
    }
    OpenWindowSnoc(before, t, window);
  }

  /** `n` hits of one moment stop the next one exactly from the limit on, and until a window length has passed. */
  lemma BurstStopsIff(t: int, n: nat, max: nat, window: nat, now: int)
    requires n >= 1 && window >= 1
    ensures Limited(OpenWindow(Burst(t, n), window), max, window, now) <==> n >= max && now - t < window
  {
    hide OpenWindow, Burst;
    BurstOpens(t, n, window);
  }

  // ---- The three uses ----

  function LimitOf(kind: string): nat {
    if kind == "login-fail" then 10 else 20
  }

  function WindowOf(kind: string): nat {
    if kind == "login-fail" then 15 * 60 * TICKS_PER_SECOND
    else if kind == "register" then 60 * 60 * TICKS_PER_SECOND
    else 10 * 60 * TICKS_PER_SECOND
  }

  /**
   From one address at most 19 failed logins in any 15 minutes, 39 registrations in any hour and 39 anonymous comments
   in any 10 minutes, counted in nanoseconds.
   */
  lemma AddressBounds(hits: seq<Hit>, ip: string, lo: int)
    requires Monotone(hits) && WindowsFixed(hits, WindowOf) && Guarded(hits, WindowOf, LimitOf)
    ensures CountIn(TimesOf(hits, Key(ip, "login-fail")), lo, lo + 900_000_000_000) <= 19
    ensures CountIn(TimesOf(hits, Key(ip, "register")), lo, lo + 3_600_000_000_000) <= 39
    ensures CountIn(TimesOf(hits, Key(ip, "anon-comment")), lo, lo + 600_000_000_000) <= 39
  {
    hide Monotone, WindowsFixed, Guarded, CountIn, TimesOf;
    TableBound(hits, WindowOf, LimitOf, Key(ip, "login-fail"), lo);
    TableBound(hits, WindowOf, LimitOf, Key(ip, "register"), lo);
    TableBound(hits, WindowOf, LimitOf, Key(ip, "anon-comment"), lo);
  }
}
