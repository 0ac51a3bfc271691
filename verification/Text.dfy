/** String helpers of src/util.cpp, with the algebra of splitting and joining the other modules build on. */
module Text {
  import opened Wrappers

  /** The pieces of `s` between separator characters; there is always at least one. */
  function Split(s: string, seps: set<char>): (pieces: seq<string>)
    ensures |pieces| >= 1
  {
    if s == "" then [""]
    else
      var rest := Split(s[1..], seps);
      if s[0] in seps then [""] + rest
      else [[s[0]] + rest[0]] + rest[1..]
  }

  function Join(pieces: seq<string>, sep: char): string {
    if |pieces| == 0 then ""
    else if |pieces| == 1 then pieces[0]
    else pieces[0] + [sep] + Join(pieces[1..], sep)
  }

  lemma {:induction false} PiecesHoldNoSeparator(s: string, c: char, seps: set<char>)
    requires c in seps
    ensures forall p | p in Split(s, seps) :: c !in p
  {
    if s != "" {
      PiecesHoldNoSeparator(s[1..], c, seps);
    }
  }

  lemma {:induction false} JoinSplit(s: string, sep: char)
    ensures Join(Split(s, {sep}), sep) == s
  {
    if s != "" {
      JoinSplit(s[1..], sep);
      var rest := Split(s[1..], {sep});
      if s[0] == sep {
        assert ([""] + rest)[1..] == rest;
      } else {
        assert ([[s[0]] + rest[0]] + rest[1..])[1..] == rest[1..];
      }
    }
  }

  lemma {:induction false} SplitAcross(a: string, c: char, b: string, seps: set<char>)
    requires c in seps
    ensures Split(a + [c] + b, seps) == Split(a, seps) + Split(b, seps)
  {
    if a == "" {
      assert (a + [c] + b)[1..] == b;
    } else {
      assert (a + [c] + b)[1..] == a[1..] + [c] + b;
      SplitAcross(a[1..], c, b, seps);
    }
  }

  lemma {:induction false} SplitClean(s: string, seps: set<char>)
    requires forall c | c in s :: c !in seps
    ensures Split(s, seps) == [s]
  {
    if s != "" {
      SplitClean(s[1..], seps);
      assert [s[0]] + s[1..] == s;
    }
  }

  /** Splitting and joining are mutually inverse on separator-free pieces. */
  lemma {:induction false} SplitJoin(pieces: seq<string>, sep: char)
    requires |pieces| >= 1
    requires forall p | p in pieces :: sep !in p
    ensures Split(Join(pieces, sep), {sep}) == pieces
  {
    SplitClean(pieces[0], {sep});
    if |pieces| == 1 {
      assert pieces == [pieces[0]];
    } else {
      SplitJoin(pieces[1..], sep);
      SplitAcross(pieces[0], sep, Join(pieces[1..], sep), {sep});
      assert pieces == [pieces[0]] + pieces[1..];
    }
  }

  lemma {:induction false} JoinAcross(a: seq<string>, b: seq<string>, sep: char)
    requires |a| >= 1 && |b| >= 1
    ensures Join(a + b, sep) == Join(a, sep) + [sep] + Join(b, sep)
  {
    if |a| == 1 {
      assert (a + b)[1..] == b;
    } else {
      assert (a + b)[1..] == a[1..] + b;
      JoinAcross(a[1..], b, sep);
    }
  }

  lemma {:induction false} SplitSnocKept(s: string, c: char, seps: set<char>)
    requires c !in seps
    ensures var pieces := Split(s, seps);
            var last := |pieces| - 1;
            Split(s + [c], seps) == pieces[..last] + [pieces[last] + [c]]
  {
    if s == "" {
      assert s + [c] == [c] && [c][1..] == "";
      assert Split([c][1..], seps) == [""] && [c] + "" == [c];
      assert Split([c], seps) == [[c]];
    } else {
      assert (s + [c])[1..] == s[1..] + [c] && (s + [c])[0] == s[0];
      SplitSnocKept(s[1..], c, seps);
      var rest, pieces := Split(s[1..], seps), Split(s, seps);
      var n := |rest| - 1;
      var more := rest[..n] + [rest[n] + [c]];
      if s[0] in seps {
        assert pieces[..n + 1] == [""] + rest[..n];
      } else if n == 0 {
        assert [s[0]] + (rest[0] + [c]) == pieces[0] + [c];
        assert more[1..] == [];
      } else {
        assert more[0] == rest[0];
        assert pieces[..n] == [pieces[0]] + rest[1..n];
        assert more[1..] == rest[1..n] + [rest[n] + [c]];
      }
    }
  }

  /** What one more character does to the pieces; the step of every left-to-right scan. */
  lemma SplitSnoc(s: string, c: char, seps: set<char>)
    ensures var pieces := Split(s, seps);
            var last := |pieces| - 1;
            Split(s + [c], seps) ==
              if c in seps then pieces + [""] else pieces[..last] + [pieces[last] + [c]]
  {
    if c in seps {
      SplitAcross(s, c, "", seps);
      assert s + [c] + "" == s + [c];
    } else {
      SplitSnocKept(s, c, seps);
    }
  }

  /** Every piece but the last of a prefix is already a piece of the whole text. */
  lemma {:induction false} SplitPrefix(s: string, t: string, seps: set<char>)
    ensures var pieces := Split(s, seps);
            pieces[..|pieces| - 1] <= Split(s + t, seps)
    decreases |t|
  {
    if t == "" {
      assert s + t == s;
    } else {
      SplitSnoc(s, t[0], seps);
      SplitPrefix(s + [t[0]], t[1..], seps);
      assert s + t == s + [t[0]] + t[1..];
      var pieces := Split(s, seps);
      var more := Split(s + [t[0]], seps);
      assert pieces[..|pieces| - 1] <= more[..|more| - 1];
    }
  }

  lemma {:induction false} SplitKeepsChar(s: string, c: char, seps: set<char>)
    requires c in s && c !in seps
    ensures exists p :: p in Split(s, seps) && c in p
  {
    var pieces := Split(s, seps);
    if s[0] == c {
      assert c in pieces[0];
    } else {
      SplitKeepsChar(s[1..], c, seps);
      var rest := Split(s[1..], seps);
      var k :| 0 <= k < |rest| && c in rest[k];
      if s[0] in seps {
        assert pieces[k + 1] == rest[k];
      } else {
        assert k == 0 ==> c in pieces[0];
        assert k > 0 ==> pieces[k] == rest[k];
      }
    }
  }

  lemma {:induction false} SplitOnlyKeeps(s: string, c: char, seps: set<char>)
    requires exists p :: p in Split(s, seps) && c in p
    ensures c in s
  {
    var pieces := Split(s, seps);
    var k :| 0 <= k < |pieces| && c in pieces[k];
    if s == "" {
      assert false;
    } else {
      var rest := Split(s[1..], seps);
      if s[0] in seps {
        assert pieces[k] in rest;
        SplitOnlyKeeps(s[1..], c, seps);
      } else if k > 0 {
        assert pieces[k] in rest;
        SplitOnlyKeeps(s[1..], c, seps);
      } else if c != s[0] {
        assert c in rest[0];
        SplitOnlyKeeps(s[1..], c, seps);
      }
    }
  }

  /** `name` stands in `s` between separators or at an end. */
  ghost predicate Stands(s: string, name: string, seps: set<char>, front: string, back: string) {
    && s == front + name + back
    && (front == "" || front[|front| - 1] in seps)
    && (back == "" || back[0] in seps)
  }

  lemma {:induction false} PieceStands(s: string, seps: set<char>, k: nat) returns (front: string, back: string)
    requires k < |Split(s, seps)|
    ensures Stands(s, Split(s, seps)[k], seps, front, back) && (k == 0 <==> front == "")
  {
    if s == "" || (s[0] in seps && k == 0) {
      front, back := "", s;
      assert "" + "" + s == s;
    } else if s[0] in seps {
      front, back := PieceStands(s[1..], seps, k - 1);
      assert s == [s[0]] + front + Split(s, seps)[k] + back;
      front := [s[0]] + front;
    } else {
      front, back := PieceStands(s[1..], seps, k);
      assert s == [s[0]] + (front + Split(s[1..], seps)[k] + back);
      if k > 0 {
        assert s == ([s[0]] + front) + Split(s, seps)[k] + back;
        front := [s[0]] + front;
      } else {
        assert s == "" + Split(s, seps)[0] + back;
      }
    }
  }

  /** A name without separators is a piece exactly when it stands somewhere in the text. */
  lemma PieceIff(s: string, name: string, seps: set<char>)
    requires forall c | c in name :: c !in seps
    ensures name in Split(s, seps) <==> exists front, back :: Stands(s, name, seps, front, back)
  {
    hide Split;
    if name in Split(s, seps) {
      var k :| 0 <= k < |Split(s, seps)| && Split(s, seps)[k] == name;
      var front, back := PieceStands(s, seps, k);
    }
    if front, back :| Stands(s, name, seps, front, back) {
      StandsIsPiece(s, name, seps, front, back);
    }
  }

  lemma StandsIsPiece(s: string, name: string, seps: set<char>, front: string, back: string)
    requires Stands(s, name, seps, front, back) && forall c | c in name :: c !in seps
    ensures name in Split(s, seps)
  {
    hide Split;
    SplitClean(name, seps);
    var tail := name + back;
    if back == "" {
      assert tail == name;
    } else {
      SplitAcross(name, back[0], back[1..], seps);
      assert tail == name + [back[0]] + back[1..];
    }
    assert name in Split(tail, seps);
    if front == "" {
      assert s == tail;
    } else {
      var n := |front| - 1;
      SplitAcross(front[..n], front[n], tail, seps);
      assert s == front[..n] + [front[n]] + tail;
    }
  }

  /** The position of the first `c` at or after `start`, or None: std::string_view::find. */
  method Find(s: string, c: char, start: nat) returns (pos: Option<nat>)
    requires start <= |s|
    ensures pos.None? ==> c !in s[start..]
    ensures pos.Some? ==> start <= pos.value < |s| && s[pos.value] == c && c !in s[start..pos.value]
  {
    for i := start to |s|
      invariant c !in s[start..i]
    {
      if s[i] == c {
        return Some(i);
      }
    }
    return None;
  }

  lemma SplitStep(s: string, sep: char, pos: nat)
    requires pos < |s| && s[pos] == sep && sep !in s[..pos]
    ensures Split(s, {sep}) == [s[..pos]] + Split(s[pos + 1..], {sep})
  {
    hide Split;
    SplitClean(s[..pos], {sep});
    SplitAcross(s[..pos], sep, s[pos + 1..], {sep});
    assert s == s[..pos] + [sep] + s[pos + 1..];
  }

  method SplitOn(s: string, sep: char) returns (out: seq<string>)
    ensures out == Split(s, {sep})
  {
    hide Split;
    out := [];
    var start := 0;
    ghost var rest := s;
    while true
      invariant start <= |s| && rest == s[start..]
      invariant out + Split(rest, {sep}) == Split(s, {sep})
      decreases |s| - start
    {
      var pos := Find(s, sep, start);
      if pos.None? {
        SplitClean(rest, {sep});
        return out + [s[start..]];
      }
      SplitStep(rest, sep, pos.value - start);
      assert rest[..pos.value - start] == s[start..pos.value];
      out, start, rest := out + [s[start..pos.value]], pos.value + 1, rest[pos.value - start + 1..];
    }
  }

  /** std::isspace in the "C" locale. */
  predicate IsSpace(c: char) {
    c == ' ' || '\t' <= c <= '\r'
  }

  function TrimLeft(s: string): string {
    if s != "" && IsSpace(s[0]) then TrimLeft(s[1..]) else s
  }

  function Trim(s: string): string {
    var t := TrimLeft(s);
    TrimRight(t)
  }

  function TrimRight(s: string): string {
    if s != "" && IsSpace(s[|s| - 1]) then TrimRight(s[..|s| - 1]) else s
  }

  method TrimLoop(s: string) returns (r: string)
    ensures r == Trim(s)
  {
    var begin := 0;
    while begin < |s| && IsSpace(s[begin])
      invariant begin <= |s|
      invariant TrimLeft(s[begin..]) == TrimLeft(s)
    {
      assert s[begin..][1..] == s[begin + 1..];
      begin := begin + 1;
    }
    assert TrimLeft(s) == s[begin..];
    var end := |s|;
    assert s[begin..end] == s[begin..];
    while end > begin && IsSpace(s[end - 1])
      invariant begin <= end <= |s|
      invariant TrimRight(s[begin..end]) == TrimRight(s[begin..])
    {
      TrimRightStep(s[begin..end], s[begin..end - 1]);
      end := end - 1;
    }
    r := s[begin..end];
  }

  /** The white space of the "C" locale. */
  predicate AllBlank(s: string) {
    forall c | c in s :: c in {' ', '\t', '\n', '\U{000B}', '\U{000C}', '\r'}
  }

  lemma {:induction false} TrimLeftSplits(s: string)
    ensures exists blank: string :: AllBlank(blank) && s == blank + TrimLeft(s)
    ensures TrimLeft(s) == "" || !AllBlank([TrimLeft(s)[0]])
  {
    if s != "" && IsSpace(s[0]) {
      TrimLeftSplits(s[1..]);
      var blank: string :| AllBlank(blank) && s[1..] == blank + TrimLeft(s[1..]);
      assert AllBlank([s[0]] + blank);
      assert s == [s[0]] + blank + TrimLeft(s);
    } else {
      assert AllBlank("") && s == "" + TrimLeft(s);
      if s != "" {
        assert s[0] in [s[0]];
      }
    }
  }

  lemma {:induction false} TrimRightSplits(s: string)
    ensures exists blank: string :: AllBlank(blank) && s == TrimRight(s) + blank
    ensures TrimRight(s) == "" || (!AllBlank([TrimRight(s)[|TrimRight(s)| - 1]]) && TrimRight(s)[0] == s[0])
  {
    if s != "" && IsSpace(s[|s| - 1]) {
      TrimRightSplits(s[..|s| - 1]);
      var blank: string :| AllBlank(blank) && s[..|s| - 1] == TrimRight(s[..|s| - 1]) + blank;
      assert AllBlank(blank + [s[|s| - 1]]);
      assert s == TrimRight(s) + (blank + [s[|s| - 1]]);
    } else {
      assert AllBlank("") && s == TrimRight(s) + "";
      if s != "" {
        assert s[|s| - 1] in [s[|s| - 1]];
      }
    }
  }

  /** Trimming takes all the white space off both ends, and nothing else. */
  lemma TrimMeans(s: string)
    ensures exists front: string, back: string :: AllBlank(front) && AllBlank(back) && s == front + Trim(s) + back
    ensures Trim(s) == "" || (!AllBlank([Trim(s)[0]]) && !AllBlank([Trim(s)[|Trim(s)| - 1]]))
  {
    hide TrimLeft, TrimRight, AllBlank;
    TrimLeftSplits(s);
    TrimRightSplits(TrimLeft(s));
    var front: string :| AllBlank(front) && s == front + TrimLeft(s);
    var back: string :| AllBlank(back) && TrimLeft(s) == Trim(s) + back;
    assert s == front + Trim(s) + back;
  }

  lemma TrimRightStep(s: string, init: string)
    requires s != "" && IsSpace(s[|s| - 1]) && init == s[..|s| - 1]
    ensures TrimRight(s) == TrimRight(init)
  {
  }

  /** std::string::rfind: the last position of `c`, or None. */
  function LastIndexOf(s: string, c: char): (pos: Option<nat>)
    ensures pos.None? ==> c !in s
    ensures pos.Some? ==> pos.value < |s| && s[pos.value] == c && c !in s[pos.value + 1..]
  {
    if s == "" then None
    else if s[|s| - 1] == c then Some(|s| - 1)
    else LastIndexOf(s[..|s| - 1], c)
  }

  lemma {:induction false} LastIndexAt(s: string, c: char, k: nat)
    requires k < |s| && s[k] == c && c !in s[k + 1..]
    ensures LastIndexOf(s, c) == Some(k)
  {
    if k < |s| - 1 {
      assert s[|s| - 1] in s[k + 1..];
      assert s[..|s| - 1][k + 1..] <= s[k + 1..];
      LastIndexAt(s[..|s| - 1], c, k);
    }
  }

  /** What follows the last `c`: the whole text when there is none. */
  function AfterLast(s: string, c: char): string {
    var pos := LastIndexOf(s, c);
    if pos.None? then s else s[pos.value + 1..]
  }

  lemma AfterLastIsLastPiece(s: string, c: char)
    ensures var pieces := Split(s, {c}); AfterLast(s, c) == pieces[|pieces| - 1]
  {
    hide Split, LastIndexOf;
    var pos := LastIndexOf(s, c);
    if pos.None? {
      SplitClean(s, {c});
    } else {
      var tail := s[pos.value + 1..];
      SplitClean(tail, {c});
      SplitAcross(s[..pos.value], c, tail, {c});
      assert s == s[..pos.value] + [c] + tail;
    }
  }

  function BasenameOf(rel: string): string {
    AfterLast(rel, '/')
  }

  function ToLowerChar(c: char): char {
    if 'A' <= c <= 'Z' then c - 'A' + 'a' else c
  }

  function ToLower(s: string): string {
    seq(|s|, i requires 0 <= i < |s| => ToLowerChar(s[i]))
  }

  /** The 26 capital letters of the "C" locale have a lower case. */
  lemma LowerCase()
    ensures ToLower("ABCDEFGHIJKLMNOPQRSTUVWXYZ") == "abcdefghijklmnopqrstuvwxyz"
  {
  }

  /** No other character has. */
  lemma NoLowerCase(c: char)
    requires c !in "ABCDEFGHIJKLMNOPQRSTUVWXYZ"
    ensures ToLower([c]) == [c]
  {
  }

  /** And a text is lowered character by character. */
  lemma LowerEach(a: string, b: string)
    ensures ToLower(a + b) == ToLower(a) + ToLower(b)
  {
  }

  /** A leading dot is a hidden file, not an extension. */
  function ExtensionOf(name: string): string {
    var base := BasenameOf(name);
    var pos := LastIndexOf(base, '.');
    if pos.None? || pos.value == 0 then "" else ToLower(base[pos.value + 1..])
  }

  /** The order of std::string. */
  predicate LexLess(a: string, b: string) {
    if b == "" then false
    else if a == "" then true
    else if a[0] != b[0] then a[0] < b[0]
    else LexLess(a[1..], b[1..])
  }

  lemma {:induction false} LexLessOrders(a: string, b: string, c: string)
    ensures !(LexLess(a, b) && LexLess(b, a))
    ensures !LexLess(b, a) && !LexLess(c, b) ==> !LexLess(c, a)
  {
    if a != "" && b != "" && c != "" {
      LexLessOrders(a[1..], b[1..], c[1..]);
    } else if a != "" && b != "" {
      LexLessOrders(a[1..], b[1..], "");
    }
  }

  lemma {:induction false} LexLessStrict(a: string, b: string, c: string)
    ensures !LexLess(a, a) && !(LexLess(a, b) && LexLess(b, a))
    ensures a != b ==> LexLess(a, b) || LexLess(b, a)
    ensures LexLess(a, b) && LexLess(b, c) ==> LexLess(a, c)
  {
    if a != "" {
      var b', c' := if b == "" then "" else b[1..], if c == "" then "" else c[1..];
      LexLessStrict(a[1..], b', c');
      if b != "" {
        assert a == [a[0]] + a[1..] && b == [b[0]] + b[1..];
      }
    }
  }

  /** Where two texts first differ, the smaller character comes first. */
  lemma {:induction false} LexLessAt(p: string, c: char, s: string, d: char, t: string)
    requires c < d
    ensures LexLess(p + [c] + s, p + [d] + t)
    decreases |p|
  {
    if p != "" {
      LexLessAt(p[1..], c, s, d, t);
      assert (p + [c] + s)[1..] == p[1..] + [c] + s;
      assert (p + [d] + t)[1..] == p[1..] + [d] + t;
    }
  }

  /** A text comes before any longer one that starts with it. */
  lemma {:induction false} LexLessPrefix(p: string, s: string)
    ensures LexLess(p, p + s) <==> s != ""
  {
    if p != "" {
      LexLessPrefix(p[1..], s);
      assert (p + s)[1..] == p[1..] + s;
    } else {
      assert p + s == s;
    }
  }

  /** `a` and `b` agree up to `i`, where `a` ends or has the smaller character. */
  predicate EarlierAt(a: string, b: string, i: nat) {
    && i <= |a| && i < |b| && a[..i] == b[..i]
    && (i < |a| ==> a[i] < b[i])
  }

  lemma LexLessIff(a: string, b: string)
    ensures LexLess(a, b) <==> exists i :: EarlierAt(a, b, i)
  {
    if i :| EarlierAt(a, b, i) {
      EarlierIsLess(a, b, i);
    }
    if LexLess(a, b) {
      var i := LessDiffers(a, b);
    }
  }

  lemma EarlierIsLess(a: string, b: string, i: nat)
    requires EarlierAt(a, b, i)
    ensures LexLess(a, b)
  {
    assert a == a[..i] + a[i..] && b == b[..i] + b[i..];
    if i < |a| {
      assert a == a[..i] + [a[i]] + a[i + 1..] && b == a[..i] + [b[i]] + b[i + 1..];
      LexLessAt(a[..i], a[i], a[i + 1..], b[i], b[i + 1..]);
    } else {
      assert b == a + b[i..];
      LexLessPrefix(a, b[i..]);
    }
  }

  lemma {:induction false} LessDiffers(a: string, b: string) returns (i: nat)
    requires LexLess(a, b)
    ensures EarlierAt(a, b, i)
  {
    i := 0;
    if a != "" && a[0] == b[0] {
      i := LessDiffers(a[1..], b[1..]);
      assert a[..i + 1] == [a[0]] + a[1..][..i] && b[..i + 1] == [b[0]] + b[1..][..i];
      i := i + 1;
    }
  }

  /** AppState::fClientIp: the proxy's own entry is the rightmost one. */
  function ClientIp(peer: string, trustedProxies: set<string>, forwarded: string): string {
    if peer !in trustedProxies || forwarded == "" then peer
    else
      var last := Trim(AfterLast(forwarded, ','));
      if last == "" then peer else last
  }

  lemma EmptyHeader()
    ensures Split("", {','}) == [""] && Trim("") == ""
  {
  }

  /** Entries to the left of the last comma, which the client controls, never reach the result. */
  lemma ClientIpTakesTheLastEntry(peer: string, trusted: set<string>, forwarded: string)
    ensures var entries := Split(forwarded, {','});
            var last := Trim(entries[|entries| - 1]);
            ClientIp(peer, trusted, forwarded) == if peer in trusted && last != "" then last else peer
  {
    hide Split, Trim, AfterLast;
    AfterLastIsLastPiece(forwarded, ',');
    EmptyHeader();
  }

  /** std::to_string on an unsigned counter. */
  function Decimal(n: nat): (s: string)
    ensures |s| >= 1
  {
    if n < 10 then [Digit(n)] else Decimal(n / 10) + [Digit(n % 10)]
  }

  function Digit(n: nat): char
    requires n < 10
  {
    '0' + n as char
  }

  /** What a row of decimal digits stands for. */
  function ValueOf(s: string): int {
    if s == "" then 0 else 10 * ValueOf(s[..|s| - 1]) + (s[|s| - 1] as int - '0' as int)
  }

  lemma {:induction false} DecimalReadsBack(n: nat)
    ensures ValueOf(Decimal(n)) == n
    ensures forall c | c in Decimal(n) :: '0' <= c <= '9'
  {
    if n < 10 {
      assert Decimal(n)[..0] == "" && ValueOf("") == 0;
    } else {
      DecimalReadsBack(n / 10);
      assert Decimal(n)[..|Decimal(n)| - 1] == Decimal(n / 10);
    }
  }

  lemma {:induction false} DecimalInjective(m: nat, n: nat)
    requires Decimal(m) == Decimal(n)
    ensures m == n
  {
    var s := Decimal(m);
    assert s[|s| - 1] == Digit(m % 10) == Digit(n % 10);
    if m >= 10 && n >= 10 {
      assert s[..|s| - 1] == Decimal(m / 10) == Decimal(n / 10);
      DecimalInjective(m / 10, n / 10);
    }
  }
}
