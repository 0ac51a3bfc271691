/** Workspace-relative paths: the normaliser of src/workspace.cpp and the prefix test of src/sync_hub.cpp. */
module Paths {
  import opened Wrappers
  import opened Text

  const SEPARATORS := {'/', '\\'}

  type Path = seq<string>

  /** A name that can stand between two slashes of a canonical path. */
  predicate ValidName(name: string) {
    && name != "" && name != "." && name != ".."
    && '/' !in name && '\\' !in name && ':' !in name && '\0' !in name
  }

  predicate ValidPath(path: Path) {
    |path| >= 1 && forall n | n in path :: ValidName(n)
  }

  function Segments(rel: string): (path: Path)
    ensures |path| >= 1
  {
    Split(rel, {'/'})
  }

  function RelOf(path: Path): string {
    Join(path, '/')
  }

  /** Canonical form: forward slashes only, no redundant separators, no special segment. */
  predicate Canonical(rel: string) {
    ValidPath(Segments(rel))
  }

  lemma SegmentsOfRel(path: Path)
    requires ValidPath(path)
    ensures Segments(RelOf(path)) == path && Canonical(RelOf(path)) && RelOf(path) != ""
  {
    SplitJoin(path, '/');
    assert path[0] in path;
  }

  lemma RelOfSegments(rel: string)
    ensures RelOf(Segments(rel)) == rel
  {
    JoinSplit(rel, '/');
  }

  lemma RelOfInjective(p: Path, q: Path)
    requires ValidPath(p) && ValidPath(q) && RelOf(p) == RelOf(q)
    ensures p == q
  {
    SegmentsOfRel(p);
    SegmentsOfRel(q);
  }

  /** The pieces that survive fFlush: "a//b" collapses and "." is skipped. */
  function Kept(pieces: seq<string>): (kept: seq<string>)
    ensures forall n | n in kept :: n in pieces && n != "" && n != "."
    ensures forall n | n in pieces && n != "" && n != "." :: n in kept
  {
    if |pieces| == 0 then []
    else if pieces[0] == "" || pieces[0] == "." then Kept(pieces[1..])
    else [pieces[0]] + Kept(pieces[1..])
  }

  lemma {:induction false} KeptAppend(a: seq<string>, b: seq<string>)
    ensures Kept(a + b) == Kept(a) + Kept(b)
  {
    if a == [] {
      assert a + b == b;
    } else {
      assert (a + b)[1..] == a[1..] + b;
      KeptAppend(a[1..], b);
    }
  }

  lemma {:induction false} KeptAll(a: seq<string>)
    requires forall n | n in a :: n != "" && n != "."
    ensures Kept(a) == a
  {
    if a != [] {
      assert a[0] in a;
      assert forall n | n in a[1..] :: n in a;
      KeptAll(a[1..]);
    }
  }

  /** What a request path is refused for, said of the text and not of the scan. */
  predicate Refused(s: string) {
    || s == ""
    || s[0] in SEPARATORS
    || '\0' in s
    || ':' in s
    || ".." in Split(s, SEPARATORS)
    || Kept(Split(s, SEPARATORS)) == []
  }

  /** The canonical form of a request path, or None where the source throws "invalid path". */
  function SafeRel(s: string): Option<string> {
    if Refused(s) then None else Some(RelOf(Kept(Split(s, SEPARATORS))))
  }

  /**
   Which request paths are refused: empty or absolute ones, those with a null or a colon, those with ".." between
   slashes of either kind, and those with nothing but such slashes and single dots.
   */
  lemma RefusedIff(s: string)
    ensures SafeRel(s).None? <==>
              || s == "" || s[0] == '/' || s[0] == '\\'
              || '\0' in s || ':' in s
              || (exists front, back :: Stands(s, "..", {'/', '\\'}, front, back))
              || (forall n | n in Split(s, {'/', '\\'}) :: n == "" || n == ".")
  {
    PieceIff(s, "..", {'/', '\\'});
    var kept := Kept(Split(s, {'/', '\\'}));
    if kept != [] {
      assert kept[0] in kept;
    }
  }

  /** fFlush: None where it throws. */
  function Flush(segments: seq<string>, current: string): Option<seq<string>> {
    if current == "" || current == "." then Some(segments)
    else if current == ".." || ':' in current then None
    else Some(segments + [current])
  }

  /** The character loop of fSafeRelPath meets the split/filter/join specification. */
  method SafeRelPath(s: string) returns (r: Option<string>)
    ensures r == SafeRel(s)
  {
    if s == "" || s[0] in SEPARATORS {
      return None;
    }
    assert Split(s[..0], SEPARATORS) == [""] && Kept([]) == [];
    hide Split, Kept;
    var segments: seq<string> := [];
    var current := "";
    ghost var pieces := [""];
    for i := 0 to |s|
      invariant pieces == Split(s[..i], SEPARATORS) && current == pieces[|pieces| - 1]
      invariant segments == Kept(pieces[..|pieces| - 1])
      invariant Harmless(pieces[..|pieces| - 1]) && '\0' !in s[..i]
    {
      assert s[..i + 1] == s[..i] + [s[i]];
      SplitSnoc(s[..i], s[i], SEPARATORS);
      if s[i] in SEPARATORS {
        FlushKept(pieces[..|pieces| - 1], current);
        assert pieces[..|pieces| - 1] + [current] == pieces;
        var flushed := Flush(segments, current);
        if flushed.None? {
          assert current in pieces;
          PieceOfPrefixRefuses(s, i);
          return None;
        }
        segments, current, pieces := flushed.value, "", pieces + [""];
      } else if s[i] == '\0' {
        return None;
      } else {
        pieces := pieces[..|pieces| - 1] + [current + [s[i]]];
        current := current + [s[i]];
      }
    }
    assert s[..|s|] == s;
    FlushKept(pieces[..|pieces| - 1], current);
    assert pieces[..|pieces| - 1] + [current] == pieces;
    var flushed := Flush(segments, current);
    if flushed.None? {
      HarmlessIffNoColon(s);
      return None;
    }
    HarmlessIffNoColon(s);
    segments := flushed.value;
    if segments == [] {
      return None;
    }
    var out := JoinLoop(segments);
    return Some(out);
  }

  method JoinLoop(segments: seq<string>) returns (out: string)
    requires segments != []
    ensures out == RelOf(segments)
  {
    out := segments[0];
    for i := 1 to |segments|
      invariant out == RelOf(segments[..i])
    {
      JoinAcross(segments[..i], [segments[i]], '/');
      assert segments[..i + 1] == segments[..i] + [segments[i]];
      out := out + "/" + segments[i];
    }
    assert segments[..|segments|] == segments;
  }

  /** No piece makes fFlush throw. */
  predicate Harmless(pieces: seq<string>) {
    forall n | n in pieces :: n != ".." && ':' !in n
  }

  lemma FlushKept(pieces: seq<string>, current: string)
    ensures var flushed := Flush(Kept(pieces), current);
            && (flushed.None? <==> current == ".." || ':' in current)
            && (flushed.Some? ==> flushed.value == Kept(pieces + [current]))
  {
    KeptAppend(pieces, [current]);
  }

  lemma HarmlessIffNoColon(s: string)
    ensures Harmless(Split(s, SEPARATORS)) <==> ':' !in s && ".." !in Split(s, SEPARATORS)
  {
    if ':' in s {
      SplitKeepsChar(s, ':', SEPARATORS);
    }
    if p :| p in Split(s, SEPARATORS) && ':' in p {
      SplitOnlyKeeps(s, ':', SEPARATORS);
    }
  }

  lemma PieceOfPrefixRefuses(s: string, i: nat)
    requires i < |s| && s[i] in SEPARATORS
    requires !Harmless(Split(s[..i], SEPARATORS))
    ensures Refused(s)
  {
    var n :| n in Split(s[..i], SEPARATORS) && (n == ".." || ':' in n);
    assert s == s[..i] + [s[i]] + s[i + 1..];
    SplitAcross(s[..i], s[i], s[i + 1..], SEPARATORS);
    assert n in Split(s, SEPARATORS);
    HarmlessIffNoColon(s);
  }

  /** Whatever is accepted comes back canonical, with exactly the surviving pieces as segments. */
  lemma SafeRelIsCanonical(s: string)
    requires SafeRel(s).Some?
    ensures Canonical(SafeRel(s).value)
    ensures Segments(SafeRel(s).value) == Kept(Split(s, SEPARATORS))
  {
    var pieces := Split(s, SEPARATORS);
    PiecesHoldNoSeparator(s, '/', SEPARATORS);
    PiecesHoldNoSeparator(s, '\\', SEPARATORS);
    forall n | n in Kept(pieces)
      ensures ValidName(n)
    {
      HarmlessIffNoColon(s);
      if '\0' in n {
        SplitOnlyKeeps(s, '\0', SEPARATORS);
      }
    }
    SegmentsOfRel(Kept(pieces));
  }

  lemma {:induction false} SplitIgnoresAbsent(s: string, seps: set<char>, absent: char)
    requires absent !in s
    ensures Split(s, seps + {absent}) == Split(s, seps)
  {
    if s != "" {
      SplitIgnoresAbsent(s[1..], seps, absent);
    }
  }

  /** The outputs of the normaliser are precisely its fixed points, and both are the canonical paths. */
  lemma CanonicalIffFixed(r: string)
    ensures Canonical(r) <==> SafeRel(r) == Some(r)
    ensures Canonical(r) <==> exists s :: SafeRel(s) == Some(r)
  {
    if Canonical(r) {
      forall c | c == '\\' || c == ':' || c == '\0'
        ensures c !in r
      {
        if c in r {
          SplitKeepsChar(r, c, {'/'});
        }
      }
      SplitIgnoresAbsent(r, {'/'}, '\\');
      assert SEPARATORS == {'/'} + {'\\'};
      KeptAll(Segments(r));
      RelOfSegments(r);
      assert Segments(r)[0] in Segments(r);
      assert Segments(r)[0] != "";
      assert ".." !in Segments(r);
      assert SafeRel(r) == Some(r);
    }
    forall s | SafeRel(s) == Some(r)
      ensures Canonical(r)
    {
      SafeRelIsCanonical(s);
    }
  }

  /** Joining two accepted paths with a slash normalises piecewise. */
  lemma SafeRelCompose(a: string, b: string)
    requires SafeRel(a).Some? && SafeRel(b).Some?
    ensures SafeRel(a + "/" + b) == Some(SafeRel(a).value + "/" + SafeRel(b).value)
  {
    SplitAcross(a, '/', b, SEPARATORS);
    KeptAppend(Split(a, SEPARATORS), Split(b, SEPARATORS));
    JoinAcross(Kept(Split(a, SEPARATORS)), Kept(Split(b, SEPARATORS)), '/');
  }

  lemma CanonicalCompose(a: string, b: string)
    requires Canonical(a) && Canonical(b)
    ensures Canonical(a + "/" + b) && Segments(a + "/" + b) == Segments(a) + Segments(b)
  {
    SplitAcross(a, '/', b, {'/'});
  }

  /** fMatchesPrefix, as the hub computes it on strings. */
  predicate MatchesPrefix(path: string, prefix: string) {
    || path == prefix
    || (|path| > |prefix| && path[..|prefix|] == prefix && path[|prefix|] == '/')
  }

  /** The string test is segment-prefix order, so a sibling that merely shares leading characters never matches. */
  lemma MatchesPrefixIffAncestor(path: string, prefix: string)
    ensures MatchesPrefix(path, prefix) <==> Segments(prefix) <= Segments(path)
  {
    var p, q := Segments(path), Segments(prefix);
    if MatchesPrefix(path, prefix) && path != prefix {
      SplitAcross(prefix, '/', path[|prefix| + 1..], {'/'});
      assert path == prefix + "/" + path[|prefix| + 1..];
    }
    if q <= p && q != p {
      JoinAcross(q, p[|q|..], '/');
      assert p == q + p[|q|..];
      RelOfSegments(path);
      RelOfSegments(prefix);
    }
    if q == p {
      RelOfSegments(path);
      RelOfSegments(prefix);
    }
  }

  lemma MatchesPrefixIsPartialOrder(a: string, b: string, c: string)
    ensures MatchesPrefix(a, a)
    ensures MatchesPrefix(a, b) && MatchesPrefix(b, a) ==> a == b
    ensures MatchesPrefix(a, b) && MatchesPrefix(b, c) ==> MatchesPrefix(a, c)
  {
    MatchesPrefixIffAncestor(a, b);
    MatchesPrefixIffAncestor(b, a);
    MatchesPrefixIffAncestor(b, c);
    MatchesPrefixIffAncestor(a, c);
  }
}
